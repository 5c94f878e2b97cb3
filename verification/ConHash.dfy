/** Virtual nodes of servers on a red-black tree: the consistent-hash ring. */
module ConHash {
  import opened Bytes
  import opened Powers
  import opened RedBlackTree
  import R = Ring

  const INIT: bv32 := 1  // the server has been named
  const IN: bv32 := 2    // the server is on the ring

  class Server {
    var iden: bytes
    var replicas: nat
    var flag: bv32

    constructor ()
      ensures flag == 0
    {
      iden, replicas, flag := [], 0, 0;
    }

    // Names the server, keeping 63 bytes of the name.  A server that is on the ring forgets that it is.
    method Set(iden: bytes, replicas: nat)
      modifies this
      ensures this.iden == (if |iden| <= 63 then iden else iden[..63]) && this.replicas == replicas
      ensures flag & INIT != 0 && flag & IN == 0
    {
      this.iden := if |iden| <= 63 then iden else iden[..63];
      this.replicas := replicas;
      flag := INIT;
    }
  }

  ghost function JustServer(s: Server?): set<Server> {
    if s == null then {} else {s}
  }

  class VirtualNode {
    const hash: int
    const node: Server

    constructor (hash: int, node: Server)
      ensures this.hash == hash && this.node == node
    {
      this.hash, this.node := hash, node;
    }
  }

  // The name that is hashed for one replica, cut to 126 bytes.
  function ReplicaName(iden: bytes, i: nat): bytes {
    var name := iden + [MINUS] + Signed3(i);
    if |name| <= 126 then name else name[..126]
  }

  // What printf's %03d makes of an unsigned 32-bit number.
  function Signed3(i: nat): bytes {
    if i % TWO32 < 0x8000_0000 then PadZeros(Decimal(i % TWO32), 3)
    else [MINUS] + PadZeros(Decimal(TWO32 - i % TWO32), 2)
  }

  // Up to 2^31 replicas the name ends in the number of the replica, after the last minus sign.
  lemma NameReads(iden: bytes, i: nat) returns (digits: bytes)
    requires |iden| <= 63 && i < 0x8000_0000
    ensures ReplicaName(iden, i) == iden + [MINUS] + digits
    ensures AllDigits(digits) && Value(digits) == i && 3 <= |digits| <= 10
  {
    hide Decimal, PadZeros, Value;
    TenDigits();
    digits := PadZeros(Decimal(i), 3);
    DecimalLength(i, 10);
    DecimalValue(i);
    PadValue(Decimal(i), 3);
  }

  lemma TenDigits()
    ensures Pow10(10) == 10000000000
  {
    assert Pow10(5) == 100000;
    assert Pow10(7) == 10000000;
  }

  // From 2^31 on it is printed as a negative number, in at least three characters.
  lemma NegativeReads(i: nat) returns (digits: bytes)
    requires 0x8000_0000 <= i < TWO32
    ensures Signed3(i) == [MINUS] + digits && AllDigits(digits) && Value(digits) == TWO32 - i
    ensures |digits| == 2 || (|digits| > 2 && digits[0] != ZERO)
  {
    hide Decimal, Value;
    digits := PadZeros(Decimal(TWO32 - i), 2);
    DecimalValue(TWO32 - i);
    DecimalStarts(TWO32 - i);
    PadValue(Decimal(TWO32 - i), 2);
  }

  // So the name tells servers and replicas apart.
  lemma NamesTellApart(a: bytes, i: nat, b: bytes, j: nat)
    requires |a| <= 63 && |b| <= 63 && i < 0x8000_0000 && j < 0x8000_0000
    ensures ReplicaName(a, i) == ReplicaName(b, j) <==> a == b && i == j
  {
    hide ReplicaName;
    var d := NameReads(a, i);
    var e := NameReads(b, j);
    if ReplicaName(a, i) == ReplicaName(b, j) {
      LastMinus(a, d, b, e);
    }
  }

  lemma NoLaterMinus(a: bytes, d: bytes, b: bytes, e: bytes)
    requires a + [MINUS] + d == b + [MINUS] + e && AllDigits(d)
    ensures |b| <= |a|
  {
    var s := a + [MINUS] + d;
    assert s[|b|] == MINUS by { assert s == b + [MINUS] + e; }
    forall k | |a| < k < |s| ensures s[k] != MINUS {
      assert s[k] == d[k - |a| - 1];
    }
  }

  lemma LastMinus(a: bytes, d: bytes, b: bytes, e: bytes)
    requires a + [MINUS] + d == b + [MINUS] + e && AllDigits(d) && AllDigits(e)
    ensures a == b && d == e
  {
    NoLaterMinus(a, d, b, e);
    NoLaterMinus(b, e, a, d);
    hide AllDigits;
    var s, t := a + [MINUS] + d, b + [MINUS] + e;
    assert a == s[..|a|] == t[..|b|] == b;
    assert d == s[|a| + 1..] == t[|b| + 1..] == e;
  }

  lemma Hundred()
    ensures Decimal(100) == [ZERO + 1, ZERO, ZERO]
  {
    assert Decimal(1) == [ZERO + 1];
    assert Decimal(10) == [ZERO + 1, ZERO];
  }

  // From 2^31 on the number is printed with a minus sign of its own, and names collide.
  lemma NamesCollide()
    ensures ReplicaName([97], TWO32 - 100) == ReplicaName([97, MINUS], 100) == [97, MINUS, MINUS, ZERO + 1, ZERO, ZERO]
  {
    hide Decimal;
    Hundred();
    assert Signed3(TWO32 - 100) == [MINUS] + Decimal(100) && Signed3(100) == Decimal(100);
  }

  class ConHash {
    const tree: Tree
    var ivnodes: int  // an unsigned 32-bit counter
    const hashOf: bytes -> int
    var freed: seq<Node>   // the memory of deleted nodes
    var malloc: seq<nat>   // which of it is handed out next; an index out of range, and in the end, new memory
    ghost var at: map<int, Node>  // where each key sits in the tree

    constructor (hashOf: bytes -> int, malloc: seq<nat>)
      ensures Intact() && Coupled() && Ring() == map[] && this.hashOf == hashOf && this.malloc == malloc
      ensures fresh(tree) && fresh(tree.nil) && freed == []
    {
      tree := new Tree();
      ivnodes := 0;
      this.hashOf, this.malloc, freed := hashOf, malloc, [];
      at := map[];
    }

    // A key is found in the tree exactly once, on a node that carries its virtual node.
    ghost predicate Keyed()
      reads this`at, tree`nodes, tree.nodes`key, tree.nodes`data
    {
      && (forall n :: n in tree.nodes ==>
            n.data is VirtualNode && (n.data as VirtualNode).hash == n.key && n.key in at && at[n.key] == n)
      && (forall k :: k in at ==> at[k] in tree.nodes && at[k].key == k)
    }

    // The tree, its nodes and the counter agree.
    ghost predicate Sound()
      reads this, tree, tree.nodes, tree.order, tree.nil, tree.root
    {
      tree.Tidy() && Keyed() && ivnodes == |tree.order| % TWO32
    }

    // Freed memory is in the tree no longer, and the parent of the root is a node, freed memory or the sentinel.
    ghost predicate Pooled()
      reads `freed, tree, tree.root
    {
      && tree.nil !in freed && (forall n :: n in freed ==> n !in tree.nodes)
      && (forall i, j :: 0 <= i < j < |freed| ==> freed[i] != freed[j])
      && (tree.root != tree.nil ==>
            var p := tree.root.parent; p != null && (p in tree.nodes || p in freed || p == tree.nil))
    }

    // The same while rbnode, freed or new, is neither in the tree nor in the pool.
    ghost predicate PooledBut(rbnode: Node)
      reads `freed, tree, tree.root
    {
      && tree.nil !in freed && (forall n :: n in freed ==> n !in tree.nodes)
      && (forall i, j :: 0 <= i < j < |freed| ==> freed[i] != freed[j])
      && (tree.root != tree.nil ==>
            var p := tree.root.parent; p != null && (p in tree.nodes || p in freed || p == rbnode || p == tree.nil))
    }

    ghost predicate Valid()
      reads this, tree, tree.nodes, tree.order, tree.nil, tree.root
    {
      Sound() && Pooled()
    }

    // The tree takes any number of new nodes.
    ghost predicate Intact()
      reads this, tree, tree.nodes, tree.order, tree.nil, tree.root, tree.root.parent
    {
      Valid() && tree.Valid()
    }

    // The nodes of the tree and those that have been.
    ghost function Memory(): set<Node>
      reads `freed, tree
    {
      tree.nodes + (set n | n in freed)
    }

    // The ring as a map from keys to servers.
    ghost function Ring(): (ring: map<int, Server>)
      requires Keyed()
      reads this`at, tree`nodes, tree.nodes`key, tree.nodes`data
      ensures ring.Keys == at.Keys
    {
      map k | k in at :: (at[k].data as VirtualNode).node
    }

    ghost function Hashes(iden: bytes, replicas: nat): (hs: seq<int>)
      ensures |hs| == replicas
    {
      seq(replicas, i requires 0 <= i < replicas => hashOf(ReplicaName(iden, i)))
    }

    // Every server on the ring is flagged so, and its virtual nodes sit at its own hash values.  Naming a
    // server anew while it is on the ring breaks this.
    ghost predicate Coupled()
      requires Keyed()
      reads this`at, tree`nodes, tree.nodes`key, tree.nodes`data, Ring().Values
    {
      forall k :: k in Ring() ==> var s := Ring()[k]; s.flag & IN != 0 && k in Hashes(s.iden, s.replicas)
    }

    // Whether the parent of the root lets the tree take any node: it is not the root itself, and black.
    method RootHeld() returns (ok: bool)
      requires Valid()
      ensures ok <==> tree.Held()
    {
      if tree.root == tree.nil {
        return true;
      }
      var p := tree.root.parent;
      ok := p != tree.root && (p in freed ==> p.color == Black);
    }

    // The next virtual node would cost the tree its colours: what the root holds as its parent is itself or red
    // freed memory, and the recolouring would get there.
    ghost predicate Spoils(hash: int)
      requires tree.Shape()
      reads tree, tree.nodes, tree.nil, tree.root, tree.root.parent
    {
      !tree.Held() && tree.Saturated(tree.root, hash)
    }

    // Adds virtual nodes one by one, in new or in freed memory.  It stops before one that would cost the tree its
    // colours.
    method AddReplicas(node: Server) returns (done: nat)
      requires Valid()
      modifies this`ivnodes, this`at, this`freed, this`malloc, tree, tree.nodes, freed
      ensures Valid() && fresh(Memory() - old(Memory())) && done <= node.replicas
      ensures Ring() == R.AddAll<Server>(old(Ring()), Hashes(node.iden, node.replicas)[..done], node)
      ensures done < node.replicas ==> Spoils(Hashes(node.iden, node.replicas)[done])
      ensures old(Intact() && malloc == []) ==> Intact() && malloc == [] && done == node.replicas
    {
      hide Tree.Tidy, Tree.Valid, Spoils, Pooled, Keyed, Ring, Hashes, ReplicaName;
      ghost var hs := Hashes(node.iden, node.replicas);
      done := 0;
      while done < node.replicas
        invariant 0 <= done <= node.replicas
        invariant Valid() && fresh(Memory() - old(Memory()))
        invariant Ring() == R.AddAll<Server>(old(Ring()), hs[..done], node)
        invariant old(Intact() && malloc == []) ==> Intact() && malloc == []
      {
        HashAt(node, done);
        var ok := AddReplica(node, hashOf(ReplicaName(node.iden, done)));
        if !ok {
          return;
        }
        R.AddAllStep(old(Ring()), hs, done, node);
        done := done + 1;
      }
    }

    // When the hash function tells all names apart, servers of different names share no hash value, and each has
    // as many as replicas.
    lemma HashesApart(a: bytes, m: nat, b: bytes, n: nat, i: nat, j: nat)
      requires |a| <= 63 && |b| <= 63 && i < m < 0x8000_0000 && j < n < 0x8000_0000
      requires forall x, y :: hashOf(x) == hashOf(y) ==> x == y
      ensures Hashes(a, m)[i] == Hashes(b, n)[j] <==> a == b && i == j
    {
      NamesTellApart(a, i, b, j);
      assert Hashes(a, m)[i] == hashOf(ReplicaName(a, i)) && Hashes(b, n)[j] == hashOf(ReplicaName(b, j));
    }

    lemma HashAt(node: Server, i: nat)
      requires i < node.replicas
      ensures Hashes(node.iden, node.replicas)[i] == hashOf(ReplicaName(node.iden, i))
    {
    }

    method AddReplica(node: Server, hash: int) returns (ok: bool)
      requires Valid()
      modifies this`ivnodes, this`at, this`freed, this`malloc, tree, tree.nodes, freed
      ensures Valid() && fresh(Memory() - old(Memory()))
      ensures Ring() == if ok then R.AddOne(old(Ring()), hash, node) else old(Ring())
      ensures !ok ==> Spoils(hash)
      ensures old(Intact() && malloc == []) ==> Intact() && malloc == [] && ok
    {
      hide Tree.Tidy, Tree.Valid, Spoils, Pooled, Ring, Keyed, Spoils;
      var found := tree.Search(hash);
      AtIff(hash, found);
      if found != null {
        return true;
      }
      ok := AddNewNode(node, hash);
    }

    lemma AtIff(hash: int, found: Node?)
      requires Keyed() && if found == null then forall n :: n in tree.nodes ==> n.key != hash else found in tree.nodes && found.key == hash
      ensures hash in at <==> found != null
    {
    }

    lemma IntactHeld()
      ensures Intact() ==> tree.Held()
    {
      if Intact() { tree.ValidUsable(); }
    }

    twostate lemma KeyedAdd(new rbnode: Node)
      requires old(Keyed()) && tree.nodes == old(tree.nodes) + {rbnode} && rbnode !in old(tree.nodes)
      requires forall n :: n in old(tree.nodes) ==> n.key == old(n.key) && n.data == old(n.data)
      requires rbnode.key !in old(at) && at == old(at)[rbnode.key := rbnode]
      requires rbnode.data is VirtualNode && (rbnode.data as VirtualNode).hash == rbnode.key
      ensures Keyed() && Ring() == old(Ring())[rbnode.key := (rbnode.data as VirtualNode).node]
    {
      var before, after := old(Ring()), Ring();
      assert after.Keys == before.Keys + {rbnode.key};
      forall k | k in before ensures after[k] == before[k] {
        assert at[k] == old(at[k]) && at[k] in old(tree.nodes) && at[k].data == old(at[k].data);
      }
      assert after == before[rbnode.key := (rbnode.data as VirtualNode).node];
    }

    // A node for the tree that carries its virtual node.
    ghost predicate Carries(rbnode: Node, hash: int, node: Server)
      reads rbnode
    {
      && rbnode.key == hash && rbnode.data is VirtualNode
      && (rbnode.data as VirtualNode).hash == hash && (rbnode.data as VirtualNode).node == node
    }

    // New memory, or that of a node deleted before.
    method Malloc(hash: int, vnode: VirtualNode) returns (rbnode: Node)
      requires forall i, j :: 0 <= i < j < |freed| ==> freed[i] != freed[j]
      modifies this`freed, this`malloc, freed`key, freed`data
      ensures rbnode.key == hash && rbnode.data == vnode && rbnode !in freed && (fresh(rbnode) || rbnode in old(freed))
      ensures forall n :: n in old(freed) <==> n in freed || (n == rbnode && !fresh(rbnode))
      ensures forall i, j :: 0 <= i < j < |freed| ==> freed[i] != freed[j]
      ensures old(malloc) == [] ==> fresh(rbnode) && malloc == []
    {
      var i := if malloc == [] then |freed| else malloc[0];
      if malloc != [] {
        malloc := malloc[1..];
      }
      if i < |freed| {
        rbnode := freed[i];
        Removed(freed, i);
        freed := freed[..i] + freed[i + 1..];
        rbnode.key, rbnode.data := hash, vnode;
      } else {
        rbnode := new Node(hash, vnode);
      }
    }

    // The node for a virtual node; what freed memory held besides stays there.
    method GetRbnode(node: Server, hash: int) returns (rbnode: Node)
      requires Valid()
      modifies this`freed, this`malloc, freed`key, freed`data
      ensures Sound() && Ring() == old(Ring()) && Carries(rbnode, hash, node)
      ensures rbnode !in tree.nodes && rbnode != tree.nil && rbnode !in freed && (fresh(rbnode) || rbnode in old(freed))
      ensures forall n :: n in old(freed) <==> n in freed || (n == rbnode && !fresh(rbnode))
      ensures PooledBut(rbnode) && (tree.root != tree.nil ==> tree.root.parent == old(tree.root.parent))
      ensures tree.Held() <==> old(tree.Held())
      ensures old(malloc) == [] ==> fresh(rbnode) && malloc == []
    {
      var vnode := new VirtualNode(hash, node);
      OrderInside();
      rbnode := Malloc(hash, vnode);
    }

    lemma OrderInside()
      requires tree.Shape()
      ensures forall n :: n in tree.order ==> n in tree.nodes
    {
    }

    // rbnode may be a node that was deleted before: the ring takes the virtual node whatever that memory was.
    method AddVirtualNode(node: Server, hash: int, rbnode: Node)
      requires Sound() && tree.Takes(rbnode) && hash !in at && rbnode !in tree.nodes && rbnode != tree.nil
      requires Carries(rbnode, hash, node)
      modifies this`ivnodes, this`at, tree, tree.nodes, rbnode
      ensures Sound() && tree.nodes == old(tree.nodes) + {rbnode} && tree.root != tree.nil
      ensures Ring() == old(Ring())[hash := node]
      ensures tree.root.parent == if old(tree.root) == tree.nil then tree.nil else old(tree.root.parent)
      ensures old(tree.Steady(rbnode)) ==>
        && (tree.Usable() <==> old(tree.root) == tree.nil || tree.root != tree.root.parent)
        && (tree.Valid() <==>
              old(tree.root) == tree.nil || (old(tree.root.parent) !in old(tree.nodes) && rbnode != old(tree.root.parent)))
    {
      hide Tree.Tidy, Tree.Usable, Tree.Valid, Tree.Takes, Ring, Keyed;
      InsertCounted(rbnode);
      at := at[hash := rbnode];
      KeyedAdd(rbnode);
    }

    method AddNewNode(node: Server, hash: int) returns (ok: bool)
      requires Valid() && hash !in at
      modifies this`ivnodes, this`at, this`freed, this`malloc, tree, tree.nodes, freed
      ensures Valid() && fresh(Memory() - old(Memory()))
      ensures Ring() == if ok then old(Ring())[hash := node] else old(Ring())
      ensures !ok ==> Spoils(hash)
      ensures old(Intact() && malloc == []) ==> Intact() && malloc == [] && ok
    {
      hide Tree.Shape, Tree.Edges, Tree.Sorted, Tree.Usable, Tree.Valid, Tree.Held, Tree.Takes, Tree.Steady, Tree.Saturated;
      hide Ring, Keyed, Pooled, PooledBut;
      AnchorOutside();
      IntactHeld();
      var held := RootHeld();
      var rbnode := GetRbnode(node, hash);
      TakesIff(rbnode);
      ok := held || rbnode == tree.root.parent || !tree.Saturated(tree.root, hash);
      label Got:
      if ok {
        AddVirtualNode(node, hash, rbnode);
        PooledAdd@Got(rbnode);
      } else {
        PooledDropped(rbnode);
      }
    }

    lemma TakesIff(rbnode: Node)
      requires tree.Shape()
      ensures tree.root == tree.nil || tree.root in tree.nodes
      ensures tree.root == tree.nil ==> tree.Held()
      ensures tree.Takes(rbnode) <==> tree.Held() || rbnode == tree.root.parent || !tree.Saturated(tree.root, rbnode.key)
      ensures tree.Held() ==> tree.Steady(rbnode)
    {
    }

    twostate lemma {:induction false} PooledAdd(new rbnode: Node)
      requires old(allocated(rbnode)) && old(PooledBut(rbnode)) && rbnode != tree.nil && rbnode !in freed
      requires tree.nodes == old(tree.nodes) + {rbnode} && freed == old(freed) && tree.root != tree.nil
      requires tree.root.parent == if old(tree.root) == tree.nil then tree.nil else old(tree.root.parent)
      ensures Pooled()
    {
    }

    lemma PooledDropped(rbnode: Node)
      requires PooledBut(rbnode) && tree.root != tree.nil && rbnode != tree.root.parent
      ensures Pooled()
    {
    }

    lemma AnchorOutside()
      ensures tree.Valid() ==> tree.root == tree.nil || tree.root.parent !in tree.nodes
    {
    }

    method InsertCounted(rbnode: Node)
      requires tree.Tidy() && tree.Takes(rbnode) && ivnodes == |tree.order| % TWO32 && rbnode != tree.nil && rbnode !in tree.nodes
      modifies this`ivnodes, tree, tree.nodes, rbnode
      ensures tree.Tidy() && ivnodes == |tree.order| % TWO32 && tree.nodes == old(tree.nodes) + {rbnode} && tree.root != tree.nil
      ensures tree.root.parent == if old(tree.root) == tree.nil then tree.nil else old(tree.root.parent)
      ensures old(tree.Steady(rbnode)) ==>
        && (tree.Usable() <==> old(tree.root) == tree.nil || tree.root != tree.root.parent)
        && (tree.Valid() <==>
              old(tree.root) == tree.nil || (old(tree.root.parent) !in old(tree.nodes) && rbnode != old(tree.root.parent)))
      ensures forall n :: n in tree.nodes ==> n.key == old(n.key) && n.data == old(n.data)
    {
      ghost var was := |tree.order|;
      ghost var p := tree.Insert(rbnode);
      ivnodes := (ivnodes + 1) % TWO32;
      tree.SizeStep(was);
    }

    method DelReplicas(node: Server)
      requires Valid()
      modifies this`ivnodes, this`at, this`freed, tree, tree.nodes, tree.nil
      ensures Valid() && (old(Intact()) ==> Intact()) && Memory() == old(Memory()) && tree.nodes <= old(tree.nodes)
      ensures Ring() == R.DelAll<Server>(old(Ring()), Hashes(node.iden, node.replicas), node)
    {
      hide Tree.Tidy, Tree.Valid;
      ghost var hs := Hashes(node.iden, node.replicas);
      var i := 0;
      while i < node.replicas
        invariant 0 <= i <= node.replicas
        invariant Valid() && (old(Intact()) ==> Intact()) && Memory() == old(Memory()) && tree.nodes <= old(tree.nodes)
        invariant Ring() == R.DelAll<Server>(old(Ring()), hs[..i], node)
      {
        DelReplica(node, hashOf(ReplicaName(node.iden, i)));
        R.DelAllStep(old(Ring()), hs, i, node);
        i := i + 1;
      }
      assert hs[..i] == hs;
    }

    method DelReplica(node: Server, hash: int)
      requires Valid()
      modifies this`ivnodes, this`at, this`freed, tree, tree.nodes, tree.nil
      ensures Valid() && (old(Intact()) ==> Intact()) && Memory() == old(Memory()) && tree.nodes <= old(tree.nodes)
      ensures Ring() == R.DelOne(old(Ring()), hash, node)
    {
      hide Tree.Tidy, Tree.Valid, Pooled, Ring, Keyed, Memory;
      var rbnode := tree.Search(hash);
      AtIff(hash, rbnode);
      if rbnode != null {
        Carried(rbnode);
        var vnode := rbnode.data as VirtualNode;
        if vnode.hash == hash && vnode.node == node {
          DelVirtualNode(rbnode);
        }
      }
    }

    lemma Carried(rbnode: Node)
      requires Keyed() && rbnode in tree.nodes
      ensures rbnode.data is VirtualNode && (rbnode.data as VirtualNode).hash == rbnode.key
      ensures rbnode.key in Ring() && Ring()[rbnode.key] == (rbnode.data as VirtualNode).node
    {
    }

    method DelVirtualNode(rbnode: Node)
      requires Valid() && rbnode in tree.nodes
      modifies this`ivnodes, this`at, this`freed, tree, tree.nodes, tree.nil
      ensures Valid() && (old(Intact()) ==> Intact()) && tree.nodes == old(tree.nodes) - {rbnode}
      ensures Memory() == old(Memory()) && Ring() == old(Ring()) - {old(rbnode.key)}
    {
      hide Tree.Tidy, Tree.Valid, Ring, Keyed, Pooled, Memory;
      NilOutside();
      ivnodes := (ivnodes - 1) % TWO32;
      at := at - {rbnode.key};
      InTree(rbnode);
      tree.Delete(rbnode);
      tree.SizeStep(|tree.order|);
      KeyedDel(rbnode);
      freed := freed + [rbnode];
      PooledDel(rbnode);
    }

    twostate lemma {:induction false} PooledDel(new rbnode: Node)
      requires old(Pooled()) && rbnode in old(tree.nodes) && rbnode != tree.nil && freed == old(freed) + [rbnode]
      requires tree.nodes == old(tree.nodes) - {rbnode}
      requires tree.root != tree.nil ==> old(tree.root) != tree.nil && (tree.root.parent == rbnode || tree.root.parent == old(tree.root.parent))
      ensures Pooled() && Memory() == old(Memory())
    {
    }

    lemma InTree(rbnode: Node)
      requires tree.Tidy() && rbnode in tree.nodes
      ensures tree.root != tree.nil
    {
    }

    lemma NilOutside()
      requires tree.Tidy()
      ensures tree.nil !in tree.nodes
    {
    }

    twostate lemma KeyedDel(new rbnode: Node)
      requires old(Keyed()) && rbnode in old(tree.nodes) && tree.nodes == old(tree.nodes) - {rbnode}
      requires forall n :: n in old(tree.nodes) ==> n.key == old(n.key) && n.data == old(n.data)
      requires at == old(at) - {rbnode.key}
      ensures Keyed() && Ring() == old(Ring()) - {rbnode.key}
    {
      var before, after := old(Ring()), Ring();
      forall k | k in after ensures after[k] == before[k] {
        assert at[k] == old(at[k]) && at[k] in old(tree.nodes) && at[k].data == old(at[k].data);
      }
      assert after == before - {rbnode.key};
    }

    // Apart from the flag of node, the servers on the old ring are as they were.
    twostate predicate ServersKept(new node: Server, servers: set<Server>)
      reads servers
    {
      forall s: Server {:trigger s.flag} :: s in servers ==>
        s.iden == old(s.iden) && s.replicas == old(s.replicas) && (s == node || s.flag == old(s.flag))
    }

    twostate lemma CoupledAdd(new node: Server)
      requires old(Keyed()) && Keyed() && node.flag & IN != 0
      requires Ring() == R.AddAll<Server>(old(Ring()), Hashes(node.iden, node.replicas), node)
      requires (forall s :: s in old(Ring().Values) ==> old(allocated(s))) && ServersKept(node, old(Ring().Values))
      ensures old(Coupled()) ==> Coupled()
    {
      R.AddAllIs<Server>(old(Ring()), Hashes(node.iden, node.replicas), node);
      forall k | old(Coupled()) && k in Ring() ensures var s := Ring()[k]; s.flag & IN != 0 && k in Hashes(s.iden, s.replicas) {
        if k in old(Ring()) { assert old(Ring())[k] in old(Ring().Values); }
      }
    }

    twostate lemma CoupledDel(new node: Server)
      requires old(Keyed()) && Keyed()
      requires old(allocated(node)) && node.iden == old(node.iden) && node.replicas == old(node.replicas)
      requires Ring() == R.DelAll<Server>(old(Ring()), Hashes(node.iden, node.replicas), node)
      requires (forall s :: s in old(Ring().Values) ==> old(allocated(s))) && ServersKept(node, old(Ring().Values))
      ensures old(Coupled()) ==> Coupled() && node !in Ring().Values
    {
      var hs := Hashes(node.iden, node.replicas);
      R.DelAllIs<Server>(old(Ring()), hs, node);
      R.DelClears<Server>(old(Ring()), hs, node);
      forall k | old(Coupled()) && k in Ring() ensures var s := Ring()[k]; s.flag & IN != 0 && k in Hashes(s.iden, s.replicas) {
        assert old(Ring())[k] in old(Ring().Values);
        assert Ring()[k] in Ring().Values;
      }
    }

    lemma ServersAllocated()
      requires Keyed()
      ensures forall s :: s in Ring().Values ==> allocated(s)
    {
      assert forall k :: k in Ring() ==> allocated(at[k].data) && allocated(Ring()[k]);
    }

    lemma FlagBits(flag: bv32)
      ensures (flag | IN) & IN != 0 && (flag | IN) & INIT == flag & INIT
      ensures (flag & !IN) & IN == 0 && (flag & !IN) & INIT == flag & INIT
      ensures flag & IN == 0 ==> (flag | IN) & !IN == flag
    {
    }

    method AddFlagged(node: Server) returns (whole: bool)
      requires Valid() && node.flag & IN != 0
      modifies this`ivnodes, this`at, this`freed, this`malloc, tree, tree.nodes, freed
      ensures Valid() && fresh(Memory() - old(Memory())) && (!whole ==> exists hash :: Spoils(hash))
      ensures old(Intact() && malloc == []) ==> Intact() && malloc == [] && whole
      ensures whole ==> Ring() == R.AddAll<Server>(old(Ring()), Hashes(node.iden, node.replicas), node)
      ensures old(Coupled()) && whole ==> Coupled()
    {
      hide Tree.Tidy, Tree.Valid, Spoils, Keyed, Coupled, Ring, Hashes, Pooled, Memory, R.AddAll;
      ServersAllocated();
      var done := AddReplicas(node);
      whole := done == node.replicas;
      AllHashes(node);
      if whole { CoupledAdd(node); }
    }

    twostate lemma {:induction false} FlagKeeps(new node: Server)
      requires old(Keyed()) && unchanged(this) && unchanged(tree) && unchanged(tree.nodes)
      requires ServersKept(node, old(Ring().Values)) && node.flag & IN != 0
      ensures Keyed() && Ring() == old(Ring()) && (old(Coupled()) ==> Coupled())
    {
      forall k | old(Coupled()) && k in Ring() ensures var s := Ring()[k]; s.flag & IN != 0 && k in Hashes(s.iden, s.replicas) {
        assert old(Ring())[k] in old(Ring().Values);
      }
    }

    // Adds a named server that is not on the ring; -1 when the flags say otherwise or there is no server.  whole
    // says whether all its replicas have been added.
    method AddNode(node: Server?) returns (res: int, whole: bool)
      requires Valid()
      modifies this`ivnodes, this`at, this`freed, this`malloc, tree, tree.nodes, freed, JustServer(node)`flag
      ensures Valid() && fresh(Memory() - old(Memory())) && (!whole ==> exists hash :: Spoils(hash))
      ensures old(Intact() && malloc == []) ==> Intact() && malloc == [] && whole
      ensures res == if node == null || old(node.flag) & INIT == 0 || old(node.flag) & IN != 0 then -1 else 0
      ensures res == -1 ==> whole && Ring() == old(Ring()) && (node != null ==> node.flag == old(node.flag))
      ensures res == 0 ==> node.flag == old(node.flag) | IN
      ensures res == 0 && whole ==> Ring() == R.AddAll<Server>(old(Ring()), Hashes(node.iden, node.replicas), node)
      ensures old(Coupled()) && whole ==> Coupled()
    {
      hide Tree.Tidy, Tree.Valid, Spoils, Keyed, Coupled, Ring, Hashes, Pooled, R.AddAll, R.DelAll;
      if node == null {
        return -1, true;
      }
      if node.flag & INIT == 0 || node.flag & IN != 0 {
        return -1, true;
      }
      FlagBits(node.flag);
      ServersAllocated();
      ghost var servers := Ring().Values;
      node.flag := node.flag | IN;
      assert ServersKept(node, servers);
      FlagKeeps(node);
      whole := AddFlagged(node);
      return 0, whole;
    }

    lemma AllHashes(node: Server)
      ensures Hashes(node.iden, node.replicas)[..node.replicas] == Hashes(node.iden, node.replicas)
    {
    }

    method DelNode(node: Server?) returns (res: int)
      requires Valid()
      modifies this`ivnodes, this`at, this`freed, tree, tree.nodes, tree.nil, JustServer(node)`flag
      ensures Valid() && (old(Intact()) ==> Intact()) && Memory() == old(Memory()) && tree.nodes <= old(tree.nodes)
      ensures res == if node == null || old(node.flag) & INIT == 0 || old(node.flag) & IN == 0 then -1 else 0
      ensures res == -1 ==> Ring() == old(Ring()) && (node != null ==> node.flag == old(node.flag))
      ensures res == 0 ==> node.flag == old(node.flag) & !IN
      ensures res == 0 ==> Ring() == R.DelAll<Server>(old(Ring()), Hashes(node.iden, node.replicas), node)
      ensures old(Coupled()) ==> Coupled() && (res == 0 ==> node !in Ring().Values)
    {
      hide Tree.Tidy, Tree.Valid, Keyed, Coupled, Ring, Hashes, Pooled, R.AddAll, R.DelAll;
      if node == null {
        return -1;
      }
      if node.flag & INIT == 0 || node.flag & IN == 0 {
        return -1;
      }
      FlagBits(node.flag);
      ServersAllocated();
      ghost var servers := Ring().Values;
      node.flag := node.flag & !IN;
      DelReplicas(node);
      assert ServersKept(node, servers);
      CoupledDel(node);
      return 0;
    }

    // Adding a server and deleting it again leaves the ring and the flags of the server as they were.
    method AddThenDelNode(node: Server) returns (res: int, whole: bool)
      requires Valid() && Coupled()
      modifies this`ivnodes, this`at, this`freed, this`malloc, tree, tree.nodes, freed, tree.nil, node`flag
      ensures Valid() && fresh(Memory() - old(Memory())) && (!whole ==> exists hash :: Spoils(hash))
      ensures old(Intact() && malloc == []) ==> Intact() && malloc == [] && whole
      ensures whole ==> Coupled() && Ring() == old(Ring()) && node.flag == old(node.flag)
      ensures whole ==> (res == 0 <==> old(node.flag) & INIT != 0 && old(node.flag) & IN == 0)
    {
      hide Tree.Tidy, Tree.Valid, Spoils, Keyed, Pooled;
      FlagBits(node.flag);
      res, whole := AddNode(node);
      if res == 0 && whole {
        Absent(node);
        R.AddThenDel<Server>(old(Ring()), Hashes(node.iden, node.replicas), node);
        res := DelNode(node);
      }
    }

    twostate lemma Absent(new node: Server)
      requires old(Keyed() && Coupled()) && old(allocated(node)) && old(node.flag) & IN == 0
      ensures node !in old(Ring()).Values
    {
      assert forall k :: k in old(Ring()) ==> old(Ring()[k].flag & IN != 0);
    }

    // The servers have been named, hs gives their hash values, and those flagged are the members of c.
    ghost predicate Flagged(c: R.Config<Server>, hs: Server -> seq<int>, servers: set<Server>)
      reads servers
    {
      forall s :: s in servers ==>
        s.flag & INIT != 0 && (s.flag & IN != 0 <==> s in c.members) && hs(s) == Hashes(s.iden, s.replicas)
    }

    method Perform(t: R.Step<Server>, ghost c: R.Config<Server>, ghost hs: Server -> seq<int>, ghost servers: set<Server>)
      returns (whole: bool)
      requires Valid() && Ring() == c.ring && Flagged(c, hs, servers) && t.s in servers
      modifies this`ivnodes, this`at, this`freed, this`malloc, tree, tree.nodes, freed, tree.nil, t.s`flag
      ensures Valid() && fresh(Memory() - old(Memory())) && (!whole ==> exists hash :: Spoils(hash))
      ensures old(Intact() && malloc == []) ==> Intact() && malloc == [] && whole
      ensures whole ==> Ring() == R.Apply(c, t, hs).ring && Flagged(R.Apply(c, t, hs), hs, servers)
    {
      hide Tree.Tidy, Tree.Valid, Spoils, Keyed, Ring, Hashes, Pooled, R.AddAll, R.DelAll;
      FlagBits(t.s.flag);
      var res;
      whole := true;
      match t {
        case Add(node) => res, whole := AddNode(node);
        case Del(node) => res := DelNode(node);
      }
    }

    // Additions and deletions of named servers, from the empty ring on, do what they do to the ring as a
    // map, whatever freed memory they are given; the servers flagged as on the ring are its members.  It ends early
    // only before a virtual node that would cost the tree its colours.
    method Replay(steps: seq<R.Step<Server>>, ghost hs: Server -> seq<int>, ghost servers: set<Server>) returns (whole: bool)
      requires Valid() && Ring() == map[] && Flagged(R.Config(map[], {}), hs, servers)
      requires forall t :: t in steps ==> t.s in servers
      modifies this`ivnodes, this`at, this`freed, this`malloc, tree, tree.nodes, freed, tree.nil, servers`flag
      ensures Valid() && (!whole ==> exists hash :: Spoils(hash))
      ensures whole ==> Ring() == R.Run(steps, hs).ring && Flagged(R.Run(steps, hs), hs, servers)
      ensures old(Intact() && malloc == []) ==> Intact() && whole
    {
      hide Tree.Tidy, Tree.Valid, Spoils, Keyed, Ring, Flagged, Pooled, R.Apply, R.Run;
      var i := 0;
      R.RunNothing(steps, hs);
      while i < |steps|
        invariant 0 <= i <= |steps| && Valid() && fresh(Memory() - old(Memory()))
        invariant old(Intact() && malloc == []) ==> Intact() && malloc == []
        invariant Ring() == R.Run(steps[..i], hs).ring && Flagged(R.Run(steps[..i], hs), hs, servers)
      {
        whole := Perform(steps[i], R.Run(steps[..i], hs), hs, servers);
        if !whole {
          return;
        }
        R.RunStep(steps, hs, i);
        i := i + 1;
      }
      assert steps[..i] == steps;
      whole := true;
    }

    // The server an object belongs to.  Nothing is found when the 32-bit counter of virtual nodes reads zero.
    method Lookup(object_: Option<bytes>) returns (r: Server?)
      requires Valid()
      ensures r == null <==> object_.None? || |Ring()| % TWO32 == 0
      ensures r != null ==> Ring() != map[] && r == R.Owner(Ring(), hashOf(object_.value))
    {
      RingSize();
      if ivnodes == 0 || object_.None? {
        return null;
      }
      var hash := hashOf(object_.value);
      var rbnode;
      ghost var steps;
      rbnode, steps := tree.Lookup(hash);
      SuccessorIsOwner(hash);
      return (rbnode.data as VirtualNode).node;
    }

    // The keys of the tree, in order, are the keys of the ring without repetition.
    lemma KeysOfRing()
      requires Valid()
      ensures var ks := tree.Keys();
        && (forall k :: k in ks <==> k in Ring())
        && (forall i, j :: 0 <= i < j < |ks| ==> ks[i] < ks[j])
    {
      var ks := tree.Keys();
      forall k | k in Ring() ensures k in ks {
        assert tree.At(at[k]);
        assert ks[at[k].pos] == k;
      }
      forall i | 0 <= i < |ks| ensures ks[i] in Ring() && at[ks[i]] == tree.order[i] {
        assert tree.order[i] in tree.nodes;
      }
      forall i, j | 0 <= i < j < |ks| ensures ks[i] < ks[j] {
        assert tree.order[i].pos == i && tree.order[j].pos == j;
      }
    }

    // The tree holds one node for each key of the ring.
    lemma RingSize()
      requires Valid()
      ensures |Ring()| == |tree.order|
    {
      KeysOfRing();
      assert |tree.Keys()| == |tree.order|;
      KeySetSize(tree.Keys());
      RingKeys();
    }

    lemma RingKeys()
      requires Valid()
      ensures Ring().Keys == KeySet(tree.Keys())
    {
      KeysOfRing();
      assert forall k :: k in Ring().Keys ==> k in Ring();
      assert forall k :: k in Ring().Keys ==> k in KeySet(tree.Keys());
    }

    lemma SuccessorIsOwner(h: int)
      requires Valid() && tree.order != []
      ensures var n := tree.order[Successor(tree.Keys(), h)];
        Ring() != map[] && n.data is VirtualNode && R.Owner(Ring(), h) == (n.data as VirtualNode).node
    {
      KeysOfRing();
      var ks := tree.Keys();
      var i := Successor(ks, h);
      assert tree.order[i] in tree.nodes && at[ks[i]] == tree.order[i];
      SuccessorOfSorted(ks, h);
      RingKeys();
      R.OwnerIs(Ring(), h, ks[i]);
    }

    // Deletes the root until the tree is empty.
    method Fini()
      requires Valid()
      modifies tree, tree.nodes, tree.nil
      ensures tree.Tidy() && tree.order == [] && tree.root == tree.nil
    {
      while tree.root != tree.nil
        invariant tree.Tidy() && tree.nodes <= old(tree.nodes)
        decreases |tree.order|
      {
        var rbnode := tree.root;
        tree.Delete(rbnode);
      }
    }

    method VnodesNum() returns (n: int)
      requires Valid()
      ensures n == |Ring()| % TWO32
    {
      RingSize();
      n := ivnodes;
    }

    // Copies the keys in ascending order, as many as there are or as fit in size.
    method GetVnodes(values: array?<int>, size: int)
      requires Valid() && (values != null ==> size <= values.Length)
      modifies if values == null then {} else {values}
      ensures values != null && size > 0 ==>
        var m := if size < |tree.order| then size else |tree.order|;
        values[..m] == tree.Keys()[..m] && values[m..] == old(values[m..])
      ensures values != null && size <= 0 ==> values[..] == old(values[..])
    {
      if values == null || size <= 0 {
        return;
      }
      if tree.root != tree.nil {
        var cur := MidTravel(tree.root, values, size, 0, tree.Keys());
      }
    }

    lemma SpanFacts(node: Node)
      requires tree.Shape() && node in tree.nodes
      ensures 0 <= node.lo <= node.pos < node.hi <= |tree.order| && tree.order[node.pos] == node
      ensures node.left != null && node.right != null
      ensures if node.left == tree.nil then node.lo == node.pos else
                node.left in tree.nodes && node.left.lo == node.lo && node.left.hi == node.pos
      ensures if node.right == tree.nil then node.hi == node.pos + 1 else
                node.right in tree.nodes && node.right.lo == node.pos + 1 && node.right.hi == node.hi
    {
      assert tree.At(node) && tree.KidAt(node, Left) && tree.KidAt(node, Right);
    }

    // The callback of the traversal: stores one key while there is room.
    method StoreKey(key: int, values: array<int>, size: nat, cur: nat, ghost ks: seq<int>, ghost i: nat) returns (next: nat)
      requires cur <= size <= values.Length && i < |ks| && ks[i] == key
      modifies values
      ensures next == (if cur < size then cur + 1 else cur) && Copied(old(values[..]), values[..], ks, i, cur, next)
    {
      next := cur;
      if next < size {
        values[next] := key;
        next := next + 1;
      }
    }

    // The in-order traversal below node.
    method MidTravel(node: Node, values: array<int>, size: nat, cur: nat, ghost ks: seq<int>) returns (next: nat)
      requires tree.Shape() && node in tree.nodes && cur <= size <= values.Length
      requires |ks| == |tree.order| && forall i :: 0 <= i < |ks| ==> ks[i] == tree.order[i].key
      modifies values
      ensures 0 <= node.lo <= node.hi <= |ks|
      ensures next == if size - cur < node.hi - node.lo then size else cur + (node.hi - node.lo)
      ensures Copied(old(values[..]), values[..], ks, node.lo, cur, next)
      decreases node.hi - node.lo
    {
      hide Tree.Shape, Copied;
      SpanFacts(node);
      next := cur;
      CopiedNothing(values[..], ks, node.lo, cur);
      if node.left != tree.nil {
        next := MidTravel(node.left, values, size, next, ks);
      }
      ghost var first, i := values[..], next;
      next := StoreKey(node.key, values, size, next, ks, node.pos);
      CopiedTwice(old(values[..]), first, values[..], ks, node.lo, node.pos, cur, i, next);
      ghost var second, j := values[..], next;
      CopiedNothing(second, ks, node.pos + 1, j);
      if node.right != tree.nil {
        next := MidTravel(node.right, values, size, next, ks);
      }
      CopiedTwice(old(values[..]), second, values[..], ks, node.lo, node.pos + 1, cur, j, next);
    }
  }

  // b is a with the entries cur..next overwritten by those of ks from index lo on.
  ghost predicate Copied(a: seq<int>, b: seq<int>, ks: seq<int>, lo: int, cur: nat, next: nat) {
    && cur <= next <= |a| && 0 <= lo && lo + (next - cur) <= |ks|
    && b == a[..cur] + ks[lo..lo + (next - cur)] + a[next..]
  }

  lemma CopiedNothing(a: seq<int>, ks: seq<int>, lo: int, cur: nat)
    requires cur <= |a| && 0 <= lo <= |ks|
    ensures Copied(a, a, ks, lo, cur, cur)
  {
  }

  lemma CopiedTwice(a: seq<int>, b: seq<int>, c: seq<int>, ks: seq<int>, lo: int, lo': int, cur: nat, mid: nat, next: nat)
    requires Copied(a, b, ks, lo, cur, mid) && Copied(b, c, ks, lo', mid, next) && 0 <= lo && lo + (next - cur) <= |ks|
    requires next == mid || lo' == lo + (mid - cur)
    ensures Copied(a, c, ks, lo, cur, next)
  {
    var m := mid - cur;
    assert ks[lo..lo + (next - cur)] == ks[lo..lo + m] + ks[lo + m..lo + m + (next - mid)];
  }

  lemma Removed(s: seq<Node>, i: nat)
    requires i < |s| && forall j, k :: 0 <= j < k < |s| ==> s[j] != s[k]
    ensures var t := s[..i] + s[i + 1..];
      && (forall n :: n in s <==> n in t || n == s[i]) && s[i] !in t
      && (forall j, k :: 0 <= j < k < |t| ==> t[j] != t[k])
  {
    var t := s[..i] + s[i + 1..];
    assert forall k :: 0 <= k < |t| ==> t[k] == s[if k < i then k else k + 1];
    forall n | n in s && n != s[i] ensures n in t {
      var k :| 0 <= k < |s| && s[k] == n;
      assert t[if k < i then k else k - 1] == n;
    }
  }

  ghost function KeySet(ks: seq<int>): set<int> {
    set k | k in ks
  }

  lemma {:induction false} KeySetSize(ks: seq<int>)
    requires forall i, j :: 0 <= i < j < |ks| ==> ks[i] < ks[j]
    ensures |KeySet(ks)| == |ks|
  {
    if ks != [] {
      var init, last := ks[..|ks| - 1], ks[|ks| - 1];
      KeySetSize(init);
      assert last !in init;
      assert ks == init + [last];
      assert KeySet(ks) == KeySet(init) + {last};
    }
  }

  // On ascending keys the index that the tree looks up is the successor on the ring.
  lemma SuccessorOfSorted(ks: seq<int>, h: int)
    requires ks != [] && forall i, j :: 0 <= i < j < |ks| ==> ks[i] < ks[j]
    ensures R.IsSuccessor(KeySet(ks), h, ks[Successor(ks, h)])
  {
    var keys := KeySet(ks);
    var f := FirstAtLeast(ks, h);
    if f < |ks| {
      assert ks[f] in keys;
      forall j | j in keys && h <= j ensures ks[f] <= j {
        var i :| 0 <= i < |ks| && ks[i] == j;
        assert i >= f;
      }
    }
  }
}
