/**
 The intrusive red-black tree with parent pointers and one shared black sentinel.

 The nodes carry ghost annotations: the index of a node in the in-order sequence, the half-open
 interval of indices its subtree covers, and its black height.  With them every invariant speaks of
 one edge from a node down to one of its children, so a rotation re-annotates just two nodes.  The
 two mirror images of each step share one proof, which takes the side as a parameter.
 */
module RedBlackTree {
  import opened Powers

  datatype Color = Red | Black
  datatype Side = Left | Right {
    function Other(): Side { if this == Left then Right else Left }
  }

  class Node {
    var key: int
    var parent: Node?
    var left: Node?
    var right: Node?
    var color: Color
    var data: object?

    ghost var pos: int     // index in the in-order sequence
    ghost var lo: int      // the subtree of this node covers the indices lo..hi
    ghost var hi: int
    ghost var height: int  // black nodes on every path from here down, this node included

    constructor (key: int, data: object?)
      ensures this.key == key && this.data == data
    {
      this.key, this.data := key, data;
    }

    ghost function Kid(d: Side): Node?
      reads this`left, this`right
    {
      if d == Left then left else right
    }

    ghost function End(d: Side): int
      reads this`lo, this`hi
    {
      if d == Left then lo else hi
    }

    // Where the interval of the d child ends on the side of this node.
    ghost function Inner(d: Side): int
      reads this`pos
    {
      if d == Left then pos else pos + 1
    }

    ghost function Weight(): int
      reads this`color
    {
      if color == Black then 1 else 0
    }
  }

  ghost function Just(n: Node?): set<Node> {
    if n == null then {} else {n}
  }

  class Tree {
    const nil: Node
    var root: Node
    var size: int               // an unsigned 32-bit counter
    ghost var order: seq<Node>  // the nodes of the tree, in order
    ghost var nodes: set<Node>  // the same nodes

    // The sentinel only gets its colour: its links keep whatever the allocation left there.
    constructor ()
      ensures fresh(nil) && root == nil && size == 0 && order == [] && nodes == {}
      ensures RedBlack()
    {
      var n := new Node(0, null);
      nil, root, size, order, nodes := n, n, 0, [], {};
      new;
      nil.color, nil.height := Black, 0;
    }

    // ---------- Invariants ----------

    ghost predicate KidAt(n: Node, d: Side)
      reads `root, `nodes, `order, nodes, n
    {
      var c := n.Kid(d);
      if c == nil then n.End(d) == n.Inner(d) else
        c != null && c in nodes && c.parent == n && c.End(d) == n.End(d) && c.End(d.Other()) == n.Inner(d)
    }

    ghost predicate UpAt(n: Node)
      reads `root, `nodes, `order, nodes, n
    {
      n != root ==> n.parent != null && n.parent in nodes && (n.parent.Kid(Left) == n || n.parent.Kid(Right) == n)
    }

    ghost predicate SpanAt(n: Node)
      reads `root, `nodes, `order, n
    {
      0 <= n.lo <= n.pos < n.hi <= |order| && order[n.pos] == n
    }

    ghost predicate At(n: Node)
      reads `root, `nodes, `order, nodes, n
    {
      SpanAt(n) && UpAt(n) && forall d {:trigger KidAt(n, d)} :: KidAt(n, d)
    }

    ghost predicate RootOk()
      reads `root, `nodes, `order, nodes, nil, root
    {
      && nil !in nodes && nil.color == Black && nil.height == 0
      && (if order == [] then root == nil && nodes == {} else
            root in nodes && root.lo == 0 && root.hi == |order| &&
            root.parent != null)
    }

    ghost predicate OrderOk()
      reads `root, `nodes, `order, nodes
    {
      forall i :: 0 <= i < |order| ==> order[i] in nodes && order[i].pos == i
    }

    // The links below root form a tree whose in-order traversal is order.
    ghost predicate Shape()
      reads `root, `nodes, `order, nodes, nil, root
    {
      RootOk() && OrderOk() && forall n {:trigger At(n)} :: n in nodes ==> At(n)
    }

    // One edge of the colouring.  Only the edge down to v may join two red nodes, and only below s on
    // side sd may one black node be missing.
    ghost predicate Edge(n: Node, d: Side, v: Node?, s: Node?, sd: Side)
      reads `root, `nodes, `order, nodes, nil, n
    {
      var c := n.Kid(d);
      && c != null && (c == nil || c in nodes)
      && n.height == c.height + n.Weight() + (if n == s && d == sd then 1 else 0)
      && (n.color == Red && c.color == Red ==> c == v)
    }

    ghost predicate Edges(v: Node?, s: Node?, sd: Side)
      reads `root, `nodes, `order, nodes, nil
    {
      forall n, d {:trigger Edge(n, d, v, s, sd)} :: n in nodes ==> Edge(n, d, v, s, sd)
    }

    // The links and colours below root are those of a red-black tree.
    ghost predicate Coloured()
      reads `root, `nodes, `order, nodes, nil, root
    {
      Shape() && Edges(null, null, Left) && root.color == Black
    }

    // The parent of the root, which the insertion fixup reads when it gets there, is the sentinel or a
    // black node deleted earlier.
    ghost predicate Anchored()
      reads `root, `nodes, nil, root, root.parent
    {
      root != nil ==> root.parent != null && root.parent !in nodes && root.parent.color == Black
    }

    ghost predicate RedBlack()
      reads `root, `nodes, `order, nodes, nil, root, root.parent
    {
      Coloured() && Anchored()
    }

    // What insertions need of the parent of the root: it is not the root itself, and black outside the tree.
    ghost predicate Held()
      reads `root, `nodes, nil, root, root.parent
    {
      root != nil ==> root.parent != null && root.parent != root && (root.parent !in nodes ==> root.parent.color == Black)
    }

    ghost predicate InsertInv(v: Node)
      reads `root, `nodes, `order, nodes, nil, root
    {
      Shape() && Edges(v, null, Left) && v in nodes && v.color == Red
    }

    // n hangs below its parent, nowhere else, and on one side only.
    ghost predicate HangsOnce(n: Node)
      reads `root, `nodes, `order, nodes, n
    {
      && n in nodes && UpAt(n)
      && forall x: Node {:trigger x.left} {:trigger x.right} :: x in nodes && (x.left == n || x.right == n) ==>
           n != root && x == n.parent && x != n && x.left != x.right
    }

    lemma ShapeHangsOnce(n: Node)
      requires Shape() && n in nodes
      ensures HangsOnce(n)
    {
      assert At(n);
      forall x: Node | x in nodes && (x.left == n || x.right == n)
        ensures n != root && x == n.parent && x != n && x.left != x.right
      {
        assert At(x) && KidAt(x, Left) && KidAt(x, Right);
      }
    }

    // Makes c take the place of n below the parent of n.
    method Replace(n: Node, c: Node)
      requires HangsOnce(n)
      modifies this`root, nodes`left, nodes`right
      ensures root == if old(root) == n then c else old(root)
      ensures forall x: Node {:trigger x.left} :: x in nodes ==>
                x.left == if old(x.left) == n then c else old(x.left)
      ensures forall x: Node {:trigger x.right} :: x in nodes ==>
                x.right == if old(x.right) == n then c else old(x.right)
    {
      if n == root {
        root := c;
      } else if n.parent.left == n {
        n.parent.left := c;
      } else {
        n.parent.right := c;
      }
    }

    // ---------- Rotations ----------

    // The edge from n down to its d.Other() child has been turned in direction d.
    twostate predicate Rotated(new n: Node, new d: Side)
      requires n in old(nodes)
      reads `root, `nodes, `order, nodes
    {
      var up := old(n.Kid(d.Other()));
      && up != null && up in nodes
      && var mid := old(up.Kid(d));
      && nodes == old(nodes) && order == old(order)
      && root == (if old(root) == n then up else old(root))
      && (forall x: Node, e {:trigger x.Kid(e)} :: x in nodes ==>
            x.Kid(e) == if x == up && e == d then n
                        else if x == n && e == d.Other() then mid
                        else if old(x.Kid(e)) == n then up else old(x.Kid(e)))
      && (forall x: Node {:trigger x.parent} :: x in nodes ==>
            x.parent == if x == n then up else if x == up then old(n.parent)
                        else if x == mid then n else old(x.parent))
      && (forall x: Node, e {:trigger x.End(e)} :: x in nodes ==>
            x.End(e) == if x == up then old(n.End(e))
                        else if x == n && e == d.Other() then old(up.Inner(d)) else old(x.End(e)))
      && (forall x: Node {:trigger x.pos} :: x in nodes ==> x.pos == old(x.pos))
    }

    twostate lemma RotateKidAtEnds(new n: Node, new d: Side, new e: Side)
      requires old(Shape()) && n in old(nodes) && n in nodes && old(n.Kid(d.Other())) != nil
      requires Rotated(n, d)
      ensures KidAt(n, e) && KidAt(old(n.Kid(d.Other())), e)
    {
      var up := old(n.Kid(d.Other()));
      assert old(At(n)) && old(KidAt(n, d.Other())) && old(KidAt(n, e));
      assert old(At(up)) && old(KidAt(up, d)) && old(KidAt(up, e));
      assert old(up.Kid(d)) != nil ==> old(At(up.Kid(d)));
    }

    twostate lemma RotateKidAt(new n: Node, new d: Side, new m: Node, new e: Side)
      requires old(Shape()) && n in old(nodes) && n in nodes && old(n.Kid(d.Other())) != nil
      requires Rotated(n, d)
      requires m in nodes && m != n && m != old(n.Kid(d.Other()))
      ensures KidAt(m, e)
    {
      var up := old(n.Kid(d.Other()));
      assert old(At(m) && KidAt(m, e) && At(n) && KidAt(n, d.Other()));
      assert old(At(up) && KidAt(up, d));
    }

    twostate lemma RotateAt(new n: Node, new d: Side, new m: Node)
      requires old(Shape()) && n in old(nodes) && n in nodes && old(n.Kid(d.Other())) != nil
      requires Rotated(n, d) && m in nodes
      ensures At(m)
    {
      var up := old(n.Kid(d.Other()));
      assert old(At(m) && At(n) && KidAt(n, d.Other()));
      assert old(At(up) && KidAt(up, d));
      assert m.End(Left) == m.lo && m.End(Right) == m.hi;
      if m == n || m == up {
        RotateKidAtEnds(n, d, Left);
        RotateKidAtEnds(n, d, Right);
      } else {
        RotateKidAt(n, d, m, Left);
        RotateKidAt(n, d, m, Right);
      }
    }

    twostate lemma RotateShape(new n: Node, new d: Side)
      requires old(Shape()) && n in old(nodes) && n in nodes && old(n.Kid(d.Other())) != nil
      requires Rotated(n, d) && nil.color == Black && nil.height == 0
      ensures Shape() && root.parent == old(root.parent)
    {
      var up := old(n.Kid(d.Other()));
      assert old(At(n) && KidAt(n, d.Other()));
      assert old(At(up) && KidAt(up, d));
      assert root.End(Left) == root.lo && root.End(Right) == root.hi;
      forall m | m in nodes ensures At(m) { RotateAt(n, d, m); }
    }

    // What a rotation of n in direction d relies on.
    ghost predicate Turnable(n: Node, d: Side)
      reads `root, `nodes, `order, nodes, n
    {
      && HangsOnce(n) && nil !in nodes
      && var up := n.Kid(d.Other());
      && up != null && up in nodes && up != n && (n != root ==> n.parent != up)
      && var mid := up.Kid(d);
      && mid != null && (mid == nil || mid in nodes) && mid != n && mid != up
    }

    lemma ShapeTurnable(n: Node, d: Side)
      requires Shape() && n in nodes && n.Kid(d.Other()) != nil
      ensures Turnable(n, d)
    {
      ShapeHangsOnce(n);
      assert At(n) && KidAt(n, d.Other());
      var up := n.Kid(d.Other());
      assert At(up) && KidAt(up, d);
      assert up.Kid(d) != nil ==> At(up.Kid(d));
      assert KidAt(up, Left) && KidAt(up, Right);
    }

    // What a left rotation of node does to each field.
    twostate predicate TurnedLeft(new node: Node, new rc: Node, new rclc: Node?)
      requires {node, rc} <= old(nodes)
      reads `root, `nodes, `order, nodes
    {
      && nodes == old(nodes) && order == old(order) && root == (if old(root) == node then rc else old(root))
      && (forall x: Node {:trigger x.left} :: x in nodes ==>
            x.left == if x == rc then node else if old(x.left) == node then rc else old(x.left))
      && (forall x: Node {:trigger x.right} :: x in nodes ==>
            x.right == if x == node then rclc else if old(x.right) == node then rc else old(x.right))
      && (forall x: Node {:trigger x.parent} :: x in nodes ==>
            x.parent == if x == node then rc else if x == rc then old(node.parent)
                        else if x == rclc then node else old(x.parent))
      && (forall x: Node {:trigger x.lo} :: x in nodes ==> x.lo == if x == rc then old(node.lo) else old(x.lo))
      && (forall x: Node {:trigger x.hi} :: x in nodes ==>
            x.hi == if x == rc then old(node.hi) else if x == node then old(rc.pos) else old(x.hi))
      && unchanged(nodes`pos)
    }

    twostate predicate TurnedRight(new node: Node, new lc: Node, new lcrc: Node?)
      requires {node, lc} <= old(nodes)
      reads `root, `nodes, `order, nodes
    {
      && nodes == old(nodes) && order == old(order) && root == (if old(root) == node then lc else old(root))
      && (forall x: Node {:trigger x.right} :: x in nodes ==>
            x.right == if x == lc then node else if old(x.right) == node then lc else old(x.right))
      && (forall x: Node {:trigger x.left} :: x in nodes ==>
            x.left == if x == node then lcrc else if old(x.left) == node then lc else old(x.left))
      && (forall x: Node {:trigger x.parent} :: x in nodes ==>
            x.parent == if x == node then lc else if x == lc then old(node.parent)
                        else if x == lcrc then node else old(x.parent))
      && (forall x: Node {:trigger x.hi} :: x in nodes ==> x.hi == if x == lc then old(node.hi) else old(x.hi))
      && (forall x: Node {:trigger x.lo} :: x in nodes ==>
            x.lo == if x == lc then old(node.lo) else if x == node then old(lc.pos) + 1 else old(x.lo))
      && unchanged(nodes`pos)
    }

    twostate lemma TurnedRotated(new node: Node, new up: Node, new mid: Node?, new d: Side)
      requires {node, up} <= old(nodes) && up != node
      requires old(node.Kid(d.Other())) == up && old(up.Kid(d)) == mid && old(up.Kid(d.Other())) != node
      requires if d == Left then TurnedLeft(node, up, mid) else TurnedRight(node, up, mid)
      ensures Rotated(node, d)
    {
    }

    method LeftRotate(node: Node)
      requires Turnable(node, Left)
      modifies this`root, nodes`left, nodes`right, nodes`parent, nodes`lo, nodes`hi
      ensures TurnedLeft(node, old(node.right), old(node.right.left))
    {
      var rc := node.right;
      var rclc := rc.left;
      rc.parent := node.parent;
      Replace(node, rc);
      node.parent := rc;
      rc.left := node;
      node.right := rclc;
      if rclc != nil {
        rclc.parent := node;
      }
      rc.lo, rc.hi, node.hi := node.lo, node.hi, rc.pos;
    }

    method RightRotate(node: Node)
      requires Turnable(node, Right)
      modifies this`root, nodes`left, nodes`right, nodes`parent, nodes`lo, nodes`hi
      ensures TurnedRight(node, old(node.left), old(node.left.right))
    {
      var lc := node.left;
      var lcrc := lc.right;
      lc.parent := node.parent;
      Replace(node, lc);
      lc.right := node;
      node.parent := lc;
      node.left := lcrc;
      if lcrc != nil {
        lcrc.parent := node;
      }
      lc.lo, lc.hi, node.lo := node.lo, node.hi, lc.pos + 1;
    }

    // ---------- Insertion ----------

    twostate predicate SameLinks()
      reads `root, `nodes, `order, nodes
    {
      && nodes == old(nodes) && order == old(order) && root == old(root)
      && unchanged(nodes`left) && unchanged(nodes`right) && unchanged(nodes`parent)
      && unchanged(nodes`lo) && unchanged(nodes`hi) && unchanged(nodes`pos)
    }

    twostate lemma PaintShape()
      requires old(Shape()) && SameLinks() && nil.color == Black && nil.height == 0
      ensures Shape()
    {
      forall m | m in nodes ensures At(m) {
        assert old(At(m));
        assert forall d :: m.Kid(d) == old(m.Kid(d)) && old(KidAt(m, d));
      }
    }

    // Case 1 of the insertion fixup: parent p and uncle u turn black, grandparent g turns red.
    twostate predicate Recoloured(new p: Node, new u: Node, new g: Node)
      reads `root, `nodes, `order, nodes, nil
    {
      && SameLinks() && nil.color == Black && nil.height == 0
      && (forall x: Node {:trigger x.color} :: x in nodes ==>
            x.color == if x == g then Red else if x == p || x == u then Black else old(x.color))
      && (forall x: Node {:trigger x.height} :: x in nodes ==>
            x.height == if x == p || x == u then old(x.height) + 1 else old(x.height))
    }

    // The situation in which the insertion fixup works: p is red below the black g, and the only node that may
    // be red below p is v.
    ghost predicate RedPair(v: Node?, p: Node, g: Node, d: Side)
      reads `root, `nodes, `order, nodes, nil, root, root.parent
    {
      && Shape() && Edges(v, null, Left) && {p, g} <= nodes && p != root && p.color == Red && p.parent == g
      && g.Kid(d) == p && g.color == Black
      && (v != null ==> v in nodes && v != root && v.parent == p && v.color == Red)
    }

    twostate lemma RecolourEdge(new v: Node?, new p: Node, new g: Node, new u: Node, new d: Side, new n: Node, new e: Side)
      requires {p, g, u, n} <= old(nodes) && (v == null || v in old(nodes)) && old(RedPair(v, p, g, d))
      requires old(g.Kid(d.Other())) == u && old(u.color) == Red && Recoloured(p, u, g)
      ensures Edge(n, e, g, null, Left)
    {
      assert old(At(n) && KidAt(n, e) && At(g) && KidAt(g, d) && KidAt(g, d.Other()));
      assert old(Edge(n, e, v, null, Left) && Edge(g, d, v, null, Left) && Edge(g, d.Other(), v, null, Left));
    }

    twostate lemma InsertRecolour(new v: Node?, new p: Node, new g: Node, new u: Node, new d: Side)
      requires {p, g, u} <= old(nodes) && (v == null || v in old(nodes)) && old(RedPair(v, p, g, d))
      requires old(g.Kid(d.Other())) == u && old(u.color) == Red && Recoloured(p, u, g)
      ensures InsertInv(g) && root.parent == old(root.parent)
    {
      PaintShape();
      forall n, e | n in nodes ensures Edge(n, e, g, null, Left) { RecolourEdge(v, p, g, u, d, n, e); }
    }

    ghost predicate Reddish(c: Node?)
      reads `nodes, nodes
    {
      c != null && c in nodes && c.color == Red
    }

    ghost predicate Calm(k: Node?)
      reads `nodes, nodes, nil
    {
      k == nil || (k != null && k in nodes && k.color == Black && !(Reddish(k.left) && Reddish(k.right)))
    }

    // Below a red root the fixup cannot climb to a child of the root.
    ghost predicate RootSafe()
      reads `root, `nodes, nodes, nil, root
    {
      root.color == Red ==> Calm(root.left) && Calm(root.right)
    }

    twostate lemma RecolourCalm(new v: Node?, new p: Node, new g: Node, new u: Node, new d: Side, new k: Node)
      requires {p, g, u, k} <= old(nodes) && (v == null || v in old(nodes)) && old(RedPair(v, p, g, d))
      requires old(g.Kid(d.Other())) == u && old(u.color) == Red && Recoloured(p, u, g)
      requires k == p || k == u || (k != g && old(Calm(k)) && g.parent != k)
      ensures Calm(k)
    {
      assert old(At(p) && KidAt(p, Left) && KidAt(p, Right) && At(g) && KidAt(g, d) && KidAt(g, d.Other()) && At(u));
      assert old(At(k) && KidAt(k, Left) && KidAt(k, Right));
      assert old(Edge(k, Left, v, null, Left) && Edge(k, Right, v, null, Left));
    }

    // After the recolouring the climb goes on below a safe root, or stops.
    twostate lemma RecolourSafe(new v: Node?, new p: Node, new g: Node, new u: Node, new d: Side)
      requires {p, g, u} <= old(nodes) && (v == null || v in old(nodes)) && old(RedPair(v, p, g, d) && RootSafe())
      requires old(g.Kid(d.Other())) == u && old(u.color) == Red && Recoloured(p, u, g)
      ensures g.parent != null && (RootSafe() || (g != root && g.parent.color == Black))
    {
      assert old(At(p) && At(g) && KidAt(g, d) && KidAt(g, d.Other()) && At(u));
      if g == root {
        RecolourCalm(v, p, g, u, d, p);
        RecolourCalm(v, p, g, u, d, u);
      } else if root.color == Red {
        assert old(At(root) && KidAt(root, Left) && KidAt(root, Right));
        assert g.parent in nodes && old(At(g.parent));
        if g.parent.color == Red {
          if root.left != nil { RecolourCalm(v, p, g, u, d, root.left); }
          if root.right != nil { RecolourCalm(v, p, g, u, d, root.right); }
        }
      }
    }

    // Case 2: v is the inner grandchild; after the rotation p is the lower node of the red pair.
    twostate lemma TurnEdge(new v: Node, new p: Node, new g: Node, new d: Side, new n: Node, new e: Side)
      requires {v, p, g, n} <= old(nodes) && old(RedPair(v, p, g, d)) && old(p.Kid(d.Other())) == v
      requires Rotated(p, d) && unchanged(nodes`color) && unchanged(nodes`height) && unchanged(nil)
      ensures Edge(n, e, p, null, Left)
    {
      assert old(At(n) && KidAt(n, e) && At(p) && At(v) && KidAt(p, d.Other()) && KidAt(v, d));
      assert old(Edge(n, e, v, null, Left) && Edge(p, d.Other(), v, null, Left) && Edge(v, d, v, null, Left));
    }

    twostate lemma InsertTurn(new v: Node, new p: Node, new g: Node, new d: Side)
      requires {v, p, g} <= old(nodes) && old(RedPair(v, p, g, d)) && old(p.Kid(d.Other())) == v
      requires Rotated(p, d) && unchanged(nodes`color) && unchanged(nodes`height) && unchanged(nil)
      ensures RedPair(p, v, g, d) && v.Kid(d) == p && root.parent == old(root.parent)
    {
      assert old(At(v) && At(p) && KidAt(p, d.Other()) && At(g) && KidAt(g, d));
      RotateShape(p, d);
      forall n, e | n in nodes ensures Edge(n, e, p, null, Left) { TurnEdge(v, p, g, d, n, e); }
      assert p.parent == v && v.parent == g && g.Kid(d) == v;
    }

    // ---------- Swapping the colours of a black node and its red child while rotating ----------

    // Between the painting and the rotation: n0 is red, the child up on top of which it will hang is black.
    ghost predicate TwistedEdge(n0: Node, up: Node, n: Node, e: Side, s: Node?, sd: Side)
      reads `root, `nodes, `order, nodes, nil, n
    {
      var c := n.Kid(e);
      && c != null && (c == nil || c in nodes)
      && n.height == c.height + n.Weight() + (if n == s && e == sd then 1 else 0)
           + (if c == n0 then 1 else 0) - (if c == up then 1 else 0)
      && (n.color == Red && c.color == Red ==> c == n0)
    }

    ghost predicate Twisted(n0: Node, up: Node, t: Side, s: Node?, sd: Side)
      reads `root, `nodes, `order, nodes, nil, root, root.parent
    {
      && Shape() && n0 in nodes && up in nodes && n0.Kid(t.Other()) == up && up.color == Black && n0.color == Red
      && up != root
      && (up.Kid(t) == nil || (up.Kid(t) != null && up.Kid(t) in nodes && up.Kid(t).color == Black))
      && forall n, e {:trigger TwistedEdge(n0, up, n, e, s, sd)} :: n in nodes ==> TwistedEdge(n0, up, n, e, s, sd)
    }

    twostate predicate TwistPainted(new n0: Node, new up: Node)
      reads `root, `nodes, `order, nodes, nil
    {
      && SameLinks() && nil.color == Black && nil.height == 0
      && (forall x: Node {:trigger x.color} :: x in nodes ==>
            x.color == if x == n0 then Red else if x == up then Black else old(x.color))
      && (forall x: Node {:trigger x.height} :: x in nodes ==>
            x.height == old(x.height) + (if x == up then 1 else if x == n0 then -1 else 0))
    }

    ghost predicate Twistable(n0: Node, up: Node, t: Side, v: Node?, s: Node?, sd: Side)
      reads `root, `nodes, `order, nodes, nil, root, root.parent
    {
      && Shape() && Edges(v, s, sd) && n0 in nodes && up in nodes && n0.Kid(t.Other()) == up
      && n0.color == Black && up.color == Red && (v != null ==> v in nodes && v.parent == up && up.Kid(t) != v)
      && !(s == n0 && sd == t.Other()) && s != up
      && n0.Kid(t) != null && (n0.Kid(t) == nil || (n0.Kid(t) in nodes && n0.Kid(t).color == Black))
    }

    twostate lemma TwistPaintEdge(new n0: Node, new up: Node, new t: Side, new v: Node?, new s: Node?, new sd: Side, new n: Node, new e: Side)
      requires {n0, up, n} <= old(nodes) && (v == null || v in old(nodes)) && (s == null || s in old(nodes))
      requires old(Twistable(n0, up, t, v, s, sd)) && TwistPainted(n0, up)
      ensures TwistedEdge(n0, up, n, e, s, sd)
    {
      assert old(At(n) && KidAt(n, e) && At(n0) && KidAt(n0, t.Other()) && At(up) && KidAt(up, t));
      assert old(Edge(n, e, v, s, sd) && Edge(n0, t.Other(), v, s, sd) && Edge(up, t, v, s, sd));
    }

    twostate lemma TwistPaint(new n0: Node, new up: Node, new t: Side, new v: Node?, new s: Node?, new sd: Side)
      requires {n0, up} <= old(nodes) && (v == null || v in old(nodes)) && (s == null || s in old(nodes))
      requires old(Twistable(n0, up, t, v, s, sd)) && TwistPainted(n0, up)
      ensures Twisted(n0, up, t, s, sd)
    {
      PaintShape();
      assert old(At(n0) && KidAt(n0, t.Other()) && At(up) && KidAt(up, t) && KidAt(up, t.Other()));
      assert old(Edge(up, t, v, s, sd) && Edge(n0, t.Other(), v, s, sd));
      forall n, e | n in nodes ensures TwistedEdge(n0, up, n, e, s, sd) { TwistPaintEdge(n0, up, t, v, s, sd, n, e); }
    }

    twostate lemma TwistTurnEdge(new n0: Node, new up: Node, new t: Side, new s: Node?, new sd: Side, new n: Node, new e: Side)
      requires {n0, up, n} <= old(nodes) && (s == null || s in old(nodes))
      requires old(Twisted(n0, up, t, s, sd)) && !(s == n0 && sd == t.Other()) && s != up
      requires Rotated(n0, t) && unchanged(nodes`color) && unchanged(nodes`height) && unchanged(nil)
      ensures Edge(n, e, null, s, sd)
    {
      assert old(At(n) && KidAt(n, e) && At(n0) && KidAt(n0, t) && KidAt(n0, t.Other()));
      assert old(At(up) && KidAt(up, t));
      assert old(TwistedEdge(n0, up, n, e, s, sd) && TwistedEdge(n0, up, n0, t.Other(), s, sd) && TwistedEdge(n0, up, up, t, s, sd));
    }

    twostate lemma TwistTurn(new n0: Node, new up: Node, new t: Side, new s: Node?, new sd: Side)
      requires {n0, up} <= old(nodes) && (s == null || s in old(nodes))
      requires old(Twisted(n0, up, t, s, sd)) && !(s == n0 && sd == t.Other()) && s != up
      requires Rotated(n0, t) && unchanged(nodes`color) && unchanged(nodes`height) && unchanged(nil)
      ensures Shape() && Edges(null, s, sd) && root.parent == old(root.parent)
      ensures root.color == if old(root) == n0 then Black else old(root.color)
    {
      assert old(At(n0) && KidAt(n0, t.Other()) && At(up));
      RotateShape(n0, t);
      forall n, e | n in nodes ensures Edge(n, e, null, s, sd) { TwistTurnEdge(n0, up, t, s, sd, n, e); }
    }

    // up turns black and n0 turns red.
    method SwapColours(n0: Node, up: Node, ghost t: Side, ghost v: Node?, ghost s: Node?, ghost sd: Side)
      requires {n0, up} <= nodes && Twistable(n0, up, t, v, s, sd) && (s == null || s in nodes)
      modifies nodes`color, nodes`height
      ensures TwistPainted(n0, up) && Twisted(n0, up, t, s, sd) && Turnable(n0, t)
    {
      up.color := Black;
      n0.color := Red;
      up.height, n0.height := up.height + 1, n0.height - 1;
      TwistPaint(n0, up, t, v, s, sd);
      ShapeTurnable(n0, t);
    }

    // The right child of n0 turns black, n0 turns red, and n0 is rotated.
    method TwistLeft(n0: Node, ghost v: Node?, ghost s: Node?, ghost sd: Side)
      requires n0 in nodes && n0.right != null && Twistable(n0, n0.right, Left, v, s, sd) && (s == null || s in nodes)
      modifies this`root, nodes`left, nodes`right, nodes`parent, nodes`lo, nodes`hi, nodes`color, nodes`height
      ensures Shape() && Edges(null, s, sd) && root.parent == old(root.parent)
      ensures root.color == if old(root) == n0 then Black else old(root.color)
      ensures TurnedLeft(n0, old(n0.right), old(n0.right.left))
      ensures forall x: Node {:trigger x.color} :: x in nodes ==>
                x.color == if x == n0 then Red else if x == old(n0.right) then Black else old(x.color)
    {
      ghost var up := n0.right;
      SwapColours(n0, n0.right, Left, v, s, sd);
      label Turning:
      LeftRotate(n0);
      TurnedRotated@Turning(n0, up, old@Turning(up.left), Left);
      TwistTurn@Turning(n0, up, Left, s, sd);
    }

    // The left child of n0 turns black, n0 turns red, and n0 is rotated.
    method TwistRight(n0: Node, ghost v: Node?, ghost s: Node?, ghost sd: Side)
      requires n0 in nodes && n0.left != null && Twistable(n0, n0.left, Right, v, s, sd) && (s == null || s in nodes)
      modifies this`root, nodes`left, nodes`right, nodes`parent, nodes`lo, nodes`hi, nodes`color, nodes`height
      ensures Shape() && Edges(null, s, sd) && root.parent == old(root.parent)
      ensures root.color == if old(root) == n0 then Black else old(root.color)
      ensures TurnedRight(n0, old(n0.left), old(n0.left.right))
      ensures forall x: Node {:trigger x.color} :: x in nodes ==>
                x.color == if x == n0 then Red else if x == old(n0.left) then Black else old(x.color)
    {
      ghost var up := n0.left;
      SwapColours(n0, n0.left, Right, v, s, sd);
      label Turning:
      RightRotate(n0);
      TurnedRotated@Turning(n0, up, old@Turning(up.right), Right);
      TwistTurn@Turning(n0, up, Right, s, sd);
    }

    // The loop measure of the insertion fixup: the nodes outside the subtree of v while there is work left.
    ghost function FixMeasure(v: Node): int
      reads `root, `nodes, `order, nodes, v, v.parent
    {
      if v.parent != null && v.parent.color == Red then 1 + |order| - (v.hi - v.lo) else 0
    }

    // The work left, for the measure: the climb to the root, the round at the root, the climb below it.
    ghost function Phase(v: Node): nat
      reads `root, root
    {
      if root.color == Black then 2 else if v == root then 1 else 0
    }

    ghost predicate RedAbove(v: Node, d: Side)
      reads `root, `nodes, `order, nodes, nil, root, root.parent
    {
      && InsertInv(v) && RootSafe()
      && v.parent != null && v.parent in nodes && v.parent != root && v.parent.color == Red
      && v.parent.parent != null && v.parent.parent in nodes && v.parent.parent.Kid(d) == v.parent
    }

    lemma RedParent(v: Node)
      requires InsertInv(v) && RootSafe() && v.parent != null && v.parent.color == Red
      requires v == root ==> v.parent in nodes && v.parent != root
      ensures RedAbove(v, Left) || RedAbove(v, Right)
    {
      assert At(v);
      assert At(v.parent);
    }

    // No node hangs the root below itself, so no edge is an exception when the fixup has reached the root.
    lemma LowerEdges(v: Node)
      requires InsertInv(v)
      ensures Edges(if v == root then null else v, null, Left)
    {
      if v == root {
        ShapeHangsOnce(v);
        forall n, e | n in nodes ensures Edge(n, e, null, null, Left) {
          assert At(n) && KidAt(n, e) && Edge(n, e, v, null, Left);
          assert v.End(Left) == v.lo && v.End(Right) == v.hi;
        }
      }
    }

    lemma RedAboveFacts(v: Node, d: Side)
      requires RedAbove(v, d)
      ensures var p := v.parent; var g := p.parent; var u := g.Kid(d.Other());
        && RedPair(if v == root then null else v, p, g, d) && v != p && p != g && v != g && (root.color == Red ==> g != root)
        && u != null && u != p && u != g && u != root && u.height == p.height && (u == nil || u in nodes)
      ensures 0 < v.hi - v.lo <= |order| && (v == root ==> v.parent.left != v && v.parent.right != v)
      ensures v != root ==> var p := v.parent; var g := p.parent;
        && (p.left == v || p.right == v) && p.left != p.right && v.left != p && v.right != p
        && 0 < v.hi - v.lo < g.hi - g.lo <= |order|
    {
      var p := v.parent;
      var g := p.parent;
      LowerEdges(v);
      assert At(v);
      assert At(p);
      assert At(g);
      assert KidAt(p, Left) && KidAt(p, Right) && KidAt(g, d) && KidAt(g, d.Other());
      assert KidAt(v, Left) && KidAt(v, Right);
      var w := if v == root then null else v;
      assert Edge(g, d, w, null, Left) && Edge(g, d.Other(), w, null, Left);
      assert v.End(Left) == v.lo && v.End(Right) == v.hi && root.End(Left) == root.lo && root.End(Right) == root.hi;
    }

    lemma RedPairTwistable(v: Node?, p: Node, g: Node, d: Side)
      requires RedPair(v, p, g, d) && (v != null ==> p.Kid(d) == v)
      requires g.Kid(d.Other()) != null && (g.Kid(d.Other()) == nil || g.Kid(d.Other()) in nodes) && g.Kid(d.Other()).color == Black
      ensures Twistable(g, p, d.Other(), v, null, Left)
    {
      assert At(p);
      assert At(g);
      assert KidAt(p, Left) && KidAt(p, Right) && KidAt(g, d);
      assert v != null ==> At(v);
    }

    lemma NoRedPair(v: Node)
      requires Shape() && Edges(null, null, Left) && v in nodes && v.color == Red
      ensures InsertInv(v) && v.parent != null && (v != root ==> v.parent.color == Black)
    {
      forall n, d | n in nodes ensures Edge(n, d, v, null, Left) { assert Edge(n, d, null, null, Left); }
      assert At(v);
      assert v != root ==> Edge(v.parent, Left, null, null, Left) && Edge(v.parent, Right, null, null, Left);
    }

    // ---------- Whether the recolouring climbs to the root ----------

    // The child of n towards index i.
    ghost function Toward(n: Node, i: int): Node?
      reads n`pos, n`left, n`right
    {
      if i < n.pos then n.left else n.right
    }

    ghost function Aside(n: Node, i: int): Node?
      reads n`pos, n`left, n`right
    {
      if i < n.pos then n.right else n.left
    }

    ghost predicate Within(i: int, n: Node)
      reads n`lo, n`hi
    {
      n.lo <= i < n.hi
    }

    lemma TowardFacts(n: Node, i: int)
      requires Shape() && n in nodes && Within(i, n)
      ensures n.lo <= n.pos < n.hi && 0 <= n.pos < |order| && order[n.pos] == n
      ensures i != n.pos ==> var c := Toward(n, i);
        c != null && c != nil && c in nodes && c.parent == n && Within(i, c) && 0 < c.hi - c.lo < n.hi - n.lo
      ensures var a := Aside(n, i);
        a != null && (a == nil || (a in nodes && a.parent == n && !Within(i, a) && a.lo <= a.pos < a.hi))
    {
      assert At(n) && KidAt(n, Left) && KidAt(n, Right);
      assert n.Kid(Left) != nil ==> At(n.left) && n.left.End(Left) == n.left.lo && n.left.End(Right) == n.left.hi;
      assert n.Kid(Right) != nil ==> At(n.right) && n.right.End(Left) == n.right.lo && n.right.End(Right) == n.right.hi;
      assert n.End(Left) == n.lo && n.End(Right) == n.hi;
    }

    // The recolouring that begins at v climbs to n: on the way down from n every second node has two red children.
    ghost predicate Leads(n: Node, v: Node)
      requires Shape() && {n, v} <= nodes && Within(v.pos, n)
      reads `root, `nodes, `order, nodes, nil, root, root.parent
      decreases n.hi - n.lo
    {
      n == v || (
        TowardFacts(n, v.pos);
        assert At(v);
        var k := Toward(n, v.pos);
        && k != v && k.color == Red && Aside(n, v.pos).color == Red
        && (TowardFacts(k, v.pos); Leads(Toward(k, v.pos), v)))
    }

    // The subtree of g lies within that of n, on one side unless they are the same.
    lemma Nested(n: Node, g: Node)
      requires Shape() && {n, g} <= nodes && Within(g.pos, n)
      ensures n.lo <= g.lo && g.hi <= n.hi && Within(g.pos, g) && (n != g ==> !Within(n.pos, g) && n.pos != g.pos)
      decreases n.hi - n.lo
    {
      assert At(g);
      TowardFacts(n, g.pos);
      if n != g {
        Nested(Toward(n, g.pos), g);
        assert At(n) && KidAt(n, Left) && KidAt(n, Right);
        assert n.End(Left) == n.lo && n.End(Right) == n.hi;
        var c := Toward(n, g.pos);
        assert c.End(Left) == c.lo && c.End(Right) == c.hi;
      }
    }

    // The links around a red pair: v below p below g.
    ghost predicate Chain(v: Node, p: Node, g: Node, d: Side)
      reads `root, `nodes, `order, nodes
    {
      && {v, p, g} <= nodes && v.parent == p && (p.left == v || p.right == v)
      && g.Kid(d) == p && v != p && p != g && v != g
    }

    lemma ChainFacts(v: Node, p: Node, g: Node, d: Side)
      requires Shape() && Chain(v, p, g, d)
      ensures Within(v.pos, p) && Within(v.pos, g) && Within(g.pos, g)
      ensures Toward(p, v.pos) == v && Toward(g, v.pos) == p && Aside(g, v.pos) == g.Kid(d.Other())
    {
      assert At(v) && At(p) && At(g);
      assert KidAt(p, Left) && KidAt(p, Right) && KidAt(g, Left) && KidAt(g, Right);
      assert v.End(Left) == v.lo && v.End(Right) == v.hi && p.End(Left) == p.lo && p.End(Right) == p.hi;
      assert g.End(Left) == g.lo && g.End(Right) == g.hi;
    }

    // Nothing climbs past a black uncle.
    lemma UncleStops(v: Node, p: Node, g: Node, d: Side, n: Node)
      requires Shape() && Chain(v, p, g, d) && g.color == Black && n in nodes && Within(g.pos, n) && Within(v.pos, n)
      requires g.Kid(d.Other()) != null && g.Kid(d.Other()).color == Black
      ensures !Leads(n, v)
      decreases n.hi - n.lo
    {
      ChainFacts(v, p, g, d);
      Nested(n, g);
      TowardFacts(n, v.pos);
      if n != g {
        Nested(n, v);
        TowardFacts(n, g.pos);
        var k := Toward(n, v.pos);
        if n != v && k != v && k.color == Red {
          Nested(k, g);
          TowardFacts(k, v.pos);
          TowardFacts(k, g.pos);
          UncleStops(v, p, g, d, Toward(k, v.pos));
        }
      }
    }

    // Nothing climbs past a black parent.
    lemma ParentStops(v: Node, n: Node)
      requires Shape() && {n, v} <= nodes && v != root && v.parent != null && v.parent.color == Black
      requires v.parent in nodes && Within(v.parent.pos, n) && Within(v.pos, n)
      ensures !Leads(n, v)
      decreases n.hi - n.lo
    {
      var p := v.parent;
      assert At(v);
      ParentNests(v);
      Nested(n, p);
      TowardFacts(n, v.pos);
      if n != p && n != v {
        TowardFacts(n, p.pos);
        var k := Toward(n, v.pos);
        if k != v && k.color == Red {
          Nested(k, p);
          TowardFacts(k, v.pos);
          TowardFacts(k, p.pos);
          ParentStops(v, Toward(k, v.pos));
        }
      }
    }

    lemma ParentNests(v: Node)
      requires Shape() && v in nodes && v != root
      ensures v.parent != null && v.parent in nodes && v.parent != v && Toward(v.parent, v.pos) == v
      ensures Within(v.pos, v.parent) && v.parent.lo <= v.lo && v.hi <= v.parent.hi && !Within(v.parent.pos, v)
    {
      ShapeHangsOnce(v);
      assert At(v) && At(v.parent) && KidAt(v.parent, Left) && KidAt(v.parent, Right);
      assert v.End(Left) == v.lo && v.End(Right) == v.hi;
      assert v.parent.End(Left) == v.parent.lo && v.parent.End(Right) == v.parent.hi;
    }

    // Above g the recolouring changes no colour that the climb looks at.
    twostate lemma {:induction false} RecolourAbove(new v: Node, new p: Node, new g: Node, new u: Node, new d: Side, new n: Node)
      requires {v, p, g, u, n} <= old(nodes) && old(RedPair(v, p, g, d) && Chain(v, p, g, d)) && Shape()
      requires old(g.Kid(d.Other())) == u && Recoloured(p, u, g) && n != g && Within(g.pos, n) && Within(v.pos, n)
      ensures var (k, a) := (Toward(n, g.pos), Aside(n, g.pos));
        && n != v && k != null && k in nodes && k != v && k == Toward(n, v.pos) && 0 < k.hi - k.lo < n.hi - n.lo
        && Within(g.pos, k) && Within(v.pos, k) && (k != g ==> k.color == old(k.color))
        && a != null && a == Aside(n, v.pos) && (a == nil || a in nodes) && a.color == old(a.color)
    {
      hide Edges, Edge;
      ChainFacts(v, p, g, d);
      Nested(n, g);
      Nested(n, v);
      TowardFacts(n, g.pos);
      Nested(Toward(n, g.pos), g);
      assert At(g) && KidAt(g, d) && KidAt(g, d.Other());
      if Toward(n, g.pos) == v { Nested(v, g); }
    }

    // Where the recolouring has moved up to g, it climbs as far as before.
    twostate lemma {:induction false} RecolourLeads(new v: Node, new p: Node, new g: Node, new u: Node, new d: Side, new n: Node)
      requires {v, p, g, u, n} <= old(nodes) && old(RedPair(v, p, g, d) && Chain(v, p, g, d)) && Shape()
      requires old(g.Kid(d.Other())) == u && old(u.color) == Red && Recoloured(p, u, g)
      requires Within(g.pos, n) && Within(v.pos, n)
      ensures old(Within(v.pos, n)) && (Leads(n, g) <==> old(Leads(n, v)))
      decreases n.hi - n.lo
    {
      hide Edges, Edge;
      SameSpans();
      if n == g {
        ChainFacts(v, p, g, d);
      } else {
        RecolourAbove(v, p, g, u, d, n);
        var k := Toward(n, g.pos);
        if k != g {
          RecolourAbove(v, p, g, u, d, k);
          RecolourLeads(v, p, g, u, d, Toward(k, g.pos));
        }
      }
    }

    twostate lemma {:induction false} SameSpans()
      requires SameLinks()
      ensures forall x: Node, i: int {:trigger Toward(x, i)} {:trigger Aside(x, i)} :: x in nodes ==>
        Toward(x, i) == old(Toward(x, i)) && Aside(x, i) == old(Aside(x, i))
      ensures forall x: Node, i: int {:trigger Within(i, x)} :: x in nodes ==> (Within(i, x) <==> old(Within(i, x)))
    {
    }

    lemma RootCovers(v: Node)
      requires Shape() && v in nodes
      ensures root in nodes && Within(v.pos, root)
    {
      assert At(v);
    }

    ghost predicate Climbs(v: Node)
      requires Shape() && v in nodes
      reads `root, `nodes, `order, nodes, nil, root, root.parent
    {
      RootCovers(v);
      Leads(root, v)
    }

    // Before a round below the root: with a black uncle nothing climbs on.
    lemma BeforeRound(v: Node, d: Side)
      requires RedAbove(v, d) && v != root
      ensures var (p, g) := (v.parent, v.parent.parent); var u := g.Kid(d.Other());
        && {v, p, g} <= nodes && RedPair(v, p, g, d) && Chain(v, p, g, d) && u != null && (u == nil || u in nodes)
        && (u.color == Black ==> !Climbs(v))
    {
      hide Leads, Edges, RootSafe;
      RedAboveFacts(v, d);
      var (p, g) := (v.parent, v.parent.parent);
      RootCovers(v);
      RootCovers(g);
      if g.Kid(d.Other()).color == Black { UncleStops(v, p, g, d, root); }
    }

    // After it: the recolouring climbs to the root exactly if it would have before.
    twostate lemma {:induction false} AfterRound(new v: Node, new p: Node, new g: Node, new u: Node, new d: Side, new node: Node)
      requires {v, p, g} <= old(nodes) && (u == nil || u in old(nodes)) && old(RedPair(v, p, g, d) && Chain(v, p, g, d))
      requires old(g.Kid(d.Other())) == u && old(u.color == Black ==> !Climbs(v)) && InsertInv(node)
      requires if old(u.color) == Red then node == g && Recoloured(p, u, g)
               else node != root && node.parent != null && node.parent.color == Black
      ensures Climbs(node) <==> old(Climbs(v))
      ensures node.parent != null && (node.parent.color == Red ==> node.right != nil)
    {
      hide Leads, Edges;
      RootCovers(node);
      if old(u.color) == Red {
        RootCovers(v);
        assert At(g) && KidAt(g, Left) && KidAt(g, Right);
        RecolourLeads(v, p, g, u, d, root);
      } else {
        ParentNests(node);
        RootCovers(node.parent);
        ParentStops(node, root);
      }
    }

    // One iteration of the insertion fixup when the parent is the left child.
    method InsertFixLeft(v: Node) returns (node: Node)
      requires RedAbove(v, Left)
      modifies this`root, nodes`left, nodes`right, nodes`parent, nodes`lo, nodes`hi, nodes`color, nodes`height
      ensures InsertInv(node) && node.parent != null && root.parent == old(root.parent)
      ensures var (p, g) := (old(v.parent), old(v.parent.parent)); var u := old(g.right);
        if u == null || old(u.color) == Black then node.parent.color == Black && (old(root.color) == Black ==> root.color == Black)
        else u in nodes && node == g && Recoloured(p, u, g)
      ensures node.parent.color == Red ==> RootSafe() && root == old(root)
      ensures Phase(node) < old(Phase(v)) || (Phase(node) == old(Phase(v)) && FixMeasure(node) < old(FixMeasure(v)))
    {
      hide Edges, Edge, At, OrderOk, HangsOnce, Calm;
      node := v;
      RedAboveFacts(v, Left);
      var p := node.parent;
      ghost var (g, w) := (p.parent, if v == root then null else v);
      var u := p.parent.right;
      if u.color == Red {
        u.color := Black;
        p.color := Black;
        p.parent.color := Red;
        u.height, p.height := u.height + 1, p.height + 1;
        InsertRecolour(w, p, g, u, Left);
        RecolourSafe(w, p, g, u, Left);
        node := p.parent;
      } else {
        if node == p.right {
          node := p;
          ShapeTurnable(node, Left);
          LeftRotate(node);
          TurnedRotated(p, v, old(v.left), Left);
          InsertTurn(v, p, g, Left);
          p := node.parent;
        }
        w := if w == null then null else node;
        RedPairTwistable(w, p, g, Left);
        TwistRight(p.parent, w, null, Left);
        NoRedPair(node);
      }
    }

    // One iteration of the insertion fixup when the parent is the right child.
    method InsertFixRight(v: Node) returns (node: Node)
      requires RedAbove(v, Right)
      modifies this`root, nodes`left, nodes`right, nodes`parent, nodes`lo, nodes`hi, nodes`color, nodes`height
      ensures InsertInv(node) && node.parent != null && root.parent == old(root.parent)
      ensures var (p, g) := (old(v.parent), old(v.parent.parent)); var u := old(g.left);
        if u == null || old(u.color) == Black then node.parent.color == Black && (old(root.color) == Black ==> root.color == Black)
        else u in nodes && node == g && Recoloured(p, u, g)
      ensures node.parent.color == Red ==> RootSafe() && root == old(root)
      ensures Phase(node) < old(Phase(v)) || (Phase(node) == old(Phase(v)) && FixMeasure(node) < old(FixMeasure(v)))
    {
      hide Edges, Edge, At, OrderOk, HangsOnce, Calm;
      node := v;
      RedAboveFacts(v, Right);
      var p := node.parent;
      ghost var (g, w) := (p.parent, if v == root then null else v);
      var u := p.parent.left;
      if u.color == Red {
        u.color := Black;
        p.color := Black;
        p.parent.color := Red;
        u.height, p.height := u.height + 1, p.height + 1;
        InsertRecolour(w, p, g, u, Right);
        RecolourSafe(w, p, g, u, Right);
        node := p.parent;
      } else {
        if node == p.left {
          node := p;
          ShapeTurnable(node, Right);
          RightRotate(node);
          TurnedRotated(p, v, old(v.right), Right);
          InsertTurn(v, p, g, Right);
          p := node.parent;
        }
        w := if w == null then null else node;
        RedPairTwistable(w, p, g, Right);
        TwistLeft(p.parent, w, null, Left);
        NoRedPair(node);
      }
    }

    // Between two rounds of the fixup that began with root r0: held says whether the parent of the root lets it
    // go on there, climbs whether the recolouring gets that far.
    ghost predicate Fixing(v: Node, r0: Node, held: bool, climbs: bool)
      reads `root, `nodes, `order, nodes, nil, root, root.parent, v, v.parent
    {
      && InsertInv(v) && v.parent != null && (v.parent.color == Red ==> RootSafe() && root == r0)
      && (held ==> root.parent != null && (root.parent !in nodes ==> root.parent.color == Black))
      && (!held ==> (Climbs(v) <==> climbs) && (root.color == Black || (v == root && root == r0))
                    && (v == root && v.parent.color == Red ==> v.right != nil))
    }

    // The parent of the root may be a node of the tree, a new one included, as long as it is not the root: the
    // rounds that follow that link keep the colouring too.  When the root is its own parent, the colouring is
    // kept exactly if the recolouring stops below the root.
    method InsertFixup(v: Node)
      requires InsertInv(v) && (if v == root then root.parent != null && root.parent.color == Black else root.color == Black)
      requires Held() || (v != root && (root.parent == root || !Climbs(v)))
      modifies this`root, nodes`left, nodes`right, nodes`parent, nodes`lo, nodes`hi, nodes`color, nodes`height
      ensures old(Held() || !Climbs(v)) ==> Coloured() && root.parent == old(root.parent)
      ensures !old(Held() || !Climbs(v)) ==> Shape() && !Balanced(Plain(root))
      ensures old(v.parent != null && v.parent.color == Black) ==> root == old(root)
    {
      hide Edges, Edge, Climbs, Leads, Recoloured, Plain, Balanced;
      var node := v;
      ghost var (held, climbs, r0, rp) := (Held(), Climbs(v), root, root.parent);
      ghost var spoiled := false;
      ParentThere(v);
      while node.parent.color == Red
        invariant node.parent != null
        invariant !spoiled ==> Fixing(node, r0, held, climbs) && root.parent == rp
        invariant spoiled ==> !held && climbs && Shape() && !Balanced(Plain(root)) && root.color == Black && node.parent.color == Black
        invariant old(v.parent.color) == Black ==> node.parent.color == Black && root == old(root) && !spoiled
        decreases if spoiled then 0 else 1, Phase(node), FixMeasure(node)
      {
        var p := node.parent;
        OwnParent(node, r0, held, climbs);
        if p == node {
          // The root is its own parent, and no child of its own.
          OwnParentRound();
          spoiled := true;
        } else {
          node := FixRound(node, r0, held, climbs);
        }
      }
      if !spoiled { AfterRounds(node, r0, held, climbs); }
      BlackenRoot(node, spoiled);
    }

    // Only a root that is its own parent is reached with itself as its parent.
    lemma OwnParent(v: Node, r0: Node, held: bool, climbs: bool)
      requires Fixing(v, r0, held, climbs) && v.parent.color == Red
      requires if held then root.parent != r0 else climbs ==> root.parent == r0
      ensures (v.parent == v <==> !held && v == root) && 0 < v.hi - v.lo <= |order|
      ensures v.parent == v ==> climbs && v.right != nil && root.parent == root
      ensures v.parent != v && v == root ==> v.parent in nodes && v.parent != root
    {
      hide Leads, Edges;
      assert At(v);
      if v == root {
        RootCovers(v);
        RootClimbs();
      } else {
        ParentNests(v);
      }
    }

    lemma RootClimbs()
      requires Shape() && root in nodes
      ensures Climbs(root)
    {
    }

    lemma AfterRounds(v: Node, r0: Node, held: bool, climbs: bool)
      requires Fixing(v, r0, held, climbs) && v.parent.color == Black
      requires !held && climbs ==> root.parent == r0
      ensures held || !climbs
    {
      hide Leads, Edges;
      if !held && v != root {
        ParentNests(v);
        RootCovers(v);
        RootCovers(v.parent);
        ParentStops(v, root);
      }
    }

    method FixRound(v: Node, ghost r0: Node, ghost held: bool, ghost climbs: bool) returns (node: Node)
      requires Fixing(v, r0, held, climbs) && v.parent.color == Red
      requires v == root ==> held && v.parent in nodes && v.parent != root
      modifies this`root, nodes`left, nodes`right, nodes`parent, nodes`lo, nodes`hi, nodes`color, nodes`height
      ensures Fixing(node, r0, held, climbs) && root.parent == old(root.parent)
      ensures Phase(node) < old(Phase(v)) || (Phase(node) == old(Phase(v)) && FixMeasure(node) < old(FixMeasure(v)))
    {
      hide Edges, Edge, At, Leads, Climbs, Recoloured, RedAbove, RootSafe, Chain, FixMeasure, Phase, RedPair;
      RedParentNow(v, r0, held, climbs);
      var p := v.parent;
      ghost var g := p.parent;
      label Before:
      if p == p.parent.left {
        ghost var u := g.right;
        if !held { BeforeRound(v, Left); }
        node := InsertFixLeft(v);
        if !held { AfterRound@Before(v, p, g, u, Left, node); RootColour@Before(p, g, u, node); }
      } else {
        ghost var u := g.left;
        if !held { BeforeRound(v, Right); }
        node := InsertFixRight(v);
        if !held { AfterRound@Before(v, p, g, u, Right, node); RootColour@Before(p, g, u, node); }
      }
    }

    lemma RedParentNow(v: Node, r0: Node, held: bool, climbs: bool)
      requires Fixing(v, r0, held, climbs) && v.parent.color == Red
      requires v == root ==> v.parent in nodes && v.parent != root
      ensures v.parent.parent != null && (if v.parent == v.parent.parent.left then RedAbove(v, Left) else RedAbove(v, Right))
    {
      hide Edges, Leads, Climbs;
      RedParent(v);
      if RedAbove(v, Left) && v.parent.parent.left != v.parent { assert false; }
      if RedAbove(v, Right) && v.parent.parent.left == v.parent {
        ShapeHangsOnce(v.parent);
        assert RedAbove(v, Left);
      }
    }

    // Only the node that turns red can be a red root.
    twostate lemma RootColour(new p: Node, new g: Node, new u: Node, new node: Node)
      requires {p, g} <= old(nodes) && (u == nil || u in old(nodes)) && old(root) in old(nodes) && old(root.color) == Black
      requires if old(u.color) == Red then node == g && u in old(nodes) && Recoloured(p, u, g) else root.color == Black
      ensures root.color == Black || (node == root && root == old(root))
    {
    }

    method BlackenRoot(v: Node, ghost spoiled: bool)
      requires Shape() && root in nodes && v.parent != null && v.parent.color == Black
      requires if spoiled then !Balanced(Plain(root)) && root.color == Black else InsertInv(v)
      modifies nodes`color, nodes`height
      ensures root.parent == old(root.parent) && if spoiled then Shape() && !Balanced(Plain(root)) else Coloured()
    {
      label Blackening:
      if root.color == Red {
        root.height := root.height + 1;
      }
      root.color := Black;
      if !spoiled { BlackRoot@Blackening(v); }
    }

    lemma ParentThere(v: Node)
      requires InsertInv(v) && (v == root ==> v.parent != null)
      ensures v.parent != null
    {
      assert At(v);
    }

    twostate lemma BlackRoot(new v: Node)
      requires v in old(nodes) && old(InsertInv(v)) && old(v.parent) != null && old(v.parent.color) == Black
      requires SameLinks() && root in nodes && root.color == Black && unchanged(nil)
      requires root.height == old(root.height) + (if old(root.color) == Red then 1 else 0)
      requires forall x :: x in nodes && x != root ==> x.color == old(x.color) && x.height == old(x.height)
      ensures Coloured()
    {
      PaintShape();
      forall n, e | n in nodes ensures Edge(n, e, null, null, Left) {
        assert old(At(n) && KidAt(n, e) && Edge(n, e, v, null, Left));
      }
    }

    ghost predicate Sorted()
      reads `root, `nodes, `order, nodes, order
    {
      forall i, j :: 0 <= i < j < |order| ==> order[i].key <= order[j].key
    }

    // A red-black search tree below the root.
    ghost predicate Tidy()
      reads this, nodes, order, nil, root
    {
      Coloured() && Sorted() && size == |order| % TWO32
    }

    // A tree into which a node can be inserted.
    ghost predicate Usable()
      reads this, nodes, order, nil, root, root.parent
    {
      Tidy() && Held()
    }

    ghost predicate Valid()
      reads this, nodes, order, nil, root, root.parent
    {
      RedBlack() && Sorted() && size == |order| % TWO32
    }

    // The gap between order[p - 1] and order[p], reached from y on side d, is where a new leaf goes.
    ghost predicate Gap(y: Node, d: Side, p: int)
      reads `root, `nodes, `order, nodes
    {
      && 0 <= p <= |order| && y in nodes && y.Kid(d) == nil && y.Inner(d) == p
      && (p > 0 ==> order[p - 1] in nodes && (order[p - 1].Kid(Right) != nil || (d == Right && order[p - 1] == y)))
      && (p < |order| ==> order[p] in nodes && (order[p].Kid(Left) != nil || (d == Left && order[p] == y)))
    }

    // node hangs below y as a red leaf, and everything from index p on has moved up by one.
    twostate predicate Attached(new y: Node, new d: Side, p: int, new node: Node)
      requires old(nodes) <= nodes
      reads `root, `nodes, `order, nodes
    {
      && node !in old(nodes) && nodes == old(nodes) + {node} && root == old(root)
      && 0 <= p <= |old(order)| && order == old(order)[..p] + [node] + old(order)[p..]
      && node.parent == y && node.left == nil && node.right == nil && node.color == Red
      && node.pos == p && node.lo == p && node.hi == p + 1 && node.height == 0
      && (forall x: Node, e {:trigger x.Kid(e)} :: x in old(nodes) ==>
            x.Kid(e) == if x == y && e == d then node else old(x.Kid(e)))
      && (forall x: Node {:trigger x.parent} {:trigger x.pos} {:trigger x.lo} {:trigger x.hi} {:trigger x.color} {:trigger x.height} ::
            x in old(nodes) ==>
            && x.parent == old(x.parent) && x.color == old(x.color) && x.height == old(x.height)
            && x.pos == old(x.pos) + (if old(x.pos) >= p then 1 else 0)
            && x.lo == old(x.lo) + (if old(x.lo) > p then 1 else 0)
            && x.hi == old(x.hi) + (if old(x.hi) >= p then 1 else 0))
    }

    twostate lemma AttachKidAt(new y: Node, new d: Side, p: int, new node: Node, new m: Node, new e: Side)
      requires y in old(nodes) && m in old(nodes) && old(nodes) <= nodes && old(Shape()) && old(Gap(y, d, p))
      requires Attached(y, d, p, node) && node != nil
      ensures KidAt(m, e)
    {
      assert old(At(m) && KidAt(m, e) && At(y) && KidAt(y, d));
    }

    twostate lemma AttachAt(new y: Node, new d: Side, p: int, new node: Node, new m: Node)
      requires y in old(nodes) && m in old(nodes) && old(nodes) <= nodes && old(Shape()) && old(Gap(y, d, p))
      requires Attached(y, d, p, node) && node != nil
      ensures At(m)
    {
      AttachKidAt(y, d, p, node, m, Left);
      AttachKidAt(y, d, p, node, m, Right);
      assert old(At(m) && At(y) && KidAt(y, d));
    }

    twostate lemma AttachLeafAt(new y: Node, new d: Side, p: int, new node: Node)
      requires y in old(nodes) && old(nodes) <= nodes && old(Shape()) && old(Gap(y, d, p))
      requires Attached(y, d, p, node) && node != nil
      ensures At(node)
    {
      assert forall e :: node.Kid(e) == nil && node.End(e) == node.Inner(e);
      assert y.Kid(d) == node;
    }

    twostate lemma AttachEdge(new y: Node, new d: Side, p: int, new node: Node, new n: Node, new e: Side)
      requires y in old(nodes) && old(nodes) <= nodes && old(Shape()) && old(Gap(y, d, p)) && old(Edges(null, null, Left))
      requires Attached(y, d, p, node) && node != nil && nil.color == Black && nil.height == 0 && n in nodes
      ensures Edge(n, e, node, null, Left)
    {
      if n in old(nodes) {
        assert old(At(n) && KidAt(n, e) && Edge(n, e, null, null, Left));
      }
    }

    twostate lemma AttachOrder(new y: Node, new d: Side, p: int, new node: Node)
      requires old(nodes) <= nodes && old(OrderOk()) && Attached(y, d, p, node)
      ensures OrderOk()
    {
      var before := old(order);
      forall i | 0 <= i < |order| ensures order[i] in nodes && order[i].pos == i {
        assert order[i] == if i < p then before[i] else if i == p then node else before[i - 1];
      }
    }

    twostate lemma AttachShape(new y: Node, new d: Side, p: int, new node: Node)
      requires y in old(nodes) && old(nodes) <= nodes && old(Shape()) && old(Gap(y, d, p)) && old(Edges(null, null, Left))
      requires old(root.color) == Black
      requires Attached(y, d, p, node) && node != nil && nil.color == Black && nil.height == 0
      ensures InsertInv(node) && node != root && root.color == Black && root.parent == old(root.parent)
    {
      AttachOrder(y, d, p, node);
      assert old(At(y) && KidAt(y, d) && At(root));
      forall m | m in nodes ensures At(m) {
        if m == node { AttachLeafAt(y, d, p, node); } else { AttachAt(y, d, p, node, m); }
      }
      forall n, e | n in nodes ensures Edge(n, e, node, null, Left) { AttachEdge(y, d, p, node, n, e); }
    }

    lemma KidsFacts(n: Node)
      requires Shape() && n in nodes
      ensures n.left != null && (n.left == nil || (n.left in nodes && n.left.hi - n.left.lo < n.hi - n.lo))
      ensures n.right != null && (n.right == nil || (n.right in nodes && n.right.hi - n.right.lo < n.hi - n.lo))
      ensures 0 < n.hi - n.lo && 0 <= n.lo && n.hi <= |order| && n.lo <= n.pos < n.hi && order[n.pos] == n
    {
      assert At(n) && KidAt(n, Left) && KidAt(n, Right);
      assert n.left != nil ==> At(n.left) && n.left.End(Left) == n.left.lo && n.left.End(Right) == n.left.hi;
      assert n.right != nil ==> At(n.right) && n.right.End(Left) == n.right.lo && n.right.End(Right) == n.right.hi;
      assert n.End(Left) == n.lo && n.End(Right) == n.hi;
    }

    // Where a leaf with this key goes, every second node from n down to it has two red children: recolouring
    // would climb from the leaf to n.
    predicate Saturated(n: Node, key: int)
      requires Shape() && (n == nil || n in nodes)
      reads `root, `nodes, `order, nodes, nil, root, root.parent
      decreases if n == nil then 0 else n.hi - n.lo
    {
      n == nil || (
        KidsFacts(n);
        var k := if key < n.key then n.left else n.right;
        && k != nil && n.left.color == Red && n.right.color == Red
        && (KidsFacts(k); Saturated(if key < k.key then k.left else k.right, key)))
    }

    // One step of the search and of the climb agree on the way.
    twostate lemma {:induction false} AttachToward(new y: Node, new d: Side, new p: int, new node: Node, new key: int, new n: Node)
      requires {y, n} <= old(nodes) && old(nodes) <= nodes && old(Shape()) && old(Gap(y, d, p)) && Attached(y, d, p, node)
      requires node != nil && Shape() && old(n.lo <= p <= n.hi) && node.pos == p
      requires forall i :: 0 <= i < p ==> old(order)[i].key <= key
      requires forall i :: p <= i < |old(order)| ==> key < old(order)[i].key
      requires forall x :: x in old(nodes) ==> x.key == old(x.key)
      ensures Within(p, n) && p != n.pos && n != node && n.color == old(n.color)
      ensures var k := old(if key < n.key then n.left else n.right);
        && k != null && (k == nil || (k in old(nodes) && old(k.lo <= p <= k.hi && k.hi - k.lo < n.hi - n.lo)))
        && Toward(n, p) == (if k == nil then node else k)
      ensures var (k, a) := (Toward(n, p), Aside(n, p));
        && a == old(if key < n.key then n.right else n.left) && (a == nil || a in old(nodes))
    {
      assert old(At(n) && KidAt(n, Left) && KidAt(n, Right) && At(y) && KidAt(y, d));
      assert old(n.End(Left)) == old(n.lo) && old(n.End(Right)) == old(n.hi);
      assert n.Kid(Left) == n.left && n.Kid(Right) == n.right && old(n.Kid(Left)) == old(n.left) && old(n.Kid(Right)) == old(n.right);
      assert key < old(n.key) <==> p <= old(n.pos);
      var k := old(if key < n.key then n.left else n.right);
      if k != nil {
        assert old(At(k)) && old(k.End(Left)) == old(k.lo) && old(k.End(Right)) == old(k.hi);
      }
    }

    twostate lemma {:induction false} AttachLeads(new y: Node, new d: Side, new p: int, new node: Node, new key: int, new n: Node)
      requires {y, n} <= old(nodes) && old(nodes) <= nodes && old(Shape()) && old(Gap(y, d, p)) && Attached(y, d, p, node)
      requires node != nil && nil.color == Black && old(nil.color) == Black && Shape() && old(n.lo <= p <= n.hi)
      requires forall i :: 0 <= i < p ==> old(order)[i].key <= key
      requires forall i :: p <= i < |old(order)| ==> key < old(order)[i].key
      requires forall x :: x in old(nodes) ==> x.key == old(x.key)
      ensures node in nodes && node.pos == p && Within(p, n) && (Leads(n, node) <==> old(Saturated(n, key)))
      decreases old(n.hi - n.lo)
    {
      AttachToward(y, d, p, node, key, n);
      var k := Toward(n, p);
      if k != node && k.color == Red {
        AttachToward(y, d, p, node, key, k);
        var c := Toward(k, p);
        if c == node {
          assert Leads(node, node) by { assert At(node); }
        } else {
          AttachLeads(y, d, p, node, key, c);
        }
      }
    }

    // Finds the parent of a new leaf with the given key, and where the leaf goes in the order.
    method Descend(key: int) returns (y: Node, ghost d: Side, ghost p: int)
      requires Shape() && Sorted() && root != nil
      ensures y in nodes && d == (if key < y.key then Left else Right) && Gap(y, d, p)
      ensures (forall i :: 0 <= i < p ==> order[i].key <= key) && (forall i :: p <= i < |order| ==> key < order[i].key)
    {
      var x := root;
      y, d := root, Left;
      ghost var lo, hi := 0, |order|;
      while x != nil
        invariant 0 <= lo <= hi <= |order| && y in nodes
        invariant if x == nil then lo == hi && y.Kid(d) == nil && y.Inner(d) == lo && d == (if key < y.key then Left else Right)
                  else x in nodes && x.lo == lo && x.hi == hi
        invariant lo > 0 ==> order[lo - 1].Kid(Right) != nil || (x == nil && d == Right && order[lo - 1] == y)
        invariant hi < |order| ==> order[hi].Kid(Left) != nil || (x == nil && d == Left && order[hi] == y)
        invariant forall i :: 0 <= i < lo ==> order[i].key <= key
        invariant forall i :: hi <= i < |order| ==> key < order[i].key
        decreases hi - lo
      {
        assert At(x) && KidAt(x, Left) && KidAt(x, Right);
        y := x;
        if key < x.key {
          d, hi := Left, x.pos;
          x := x.left;
        } else {
          d, lo := Right, x.pos + 1;
          x := x.right;
        }
        assert x != nil ==> At(x);
      }
      p := lo;
    }

    // Opens index p of the order for node.
    ghost method OpenGap(node: Node, p: int)
      requires node !in nodes && 0 <= p <= |order|
      modifies this`order, this`nodes, nodes`pos, nodes`lo, nodes`hi, node`pos, node`lo, node`hi, node`height
      ensures order == old(order)[..p] + [node] + old(order)[p..] && nodes == old(nodes) + {node}
      ensures node.pos == p && node.lo == p && node.hi == p + 1 && node.height == 0
      ensures forall x: Node {:trigger x.pos} :: x in old(nodes) ==> x.pos == old(x.pos) + (if old(x.pos) >= p then 1 else 0)
      ensures forall x: Node {:trigger x.lo} :: x in old(nodes) ==> x.lo == old(x.lo) + (if old(x.lo) > p then 1 else 0)
      ensures forall x: Node {:trigger x.hi} :: x in old(nodes) ==> x.hi == old(x.hi) + (if old(x.hi) >= p then 1 else 0)
    {
      forall m | m in nodes { m.pos := m.pos + (if m.pos >= p then 1 else 0); }
      forall m | m in nodes { m.lo := m.lo + (if m.lo > p then 1 else 0); }
      forall m | m in nodes { m.hi := m.hi + (if m.hi >= p then 1 else 0); }
      node.pos, node.lo, node.hi, node.height := p, p, p + 1, 0;
      order, nodes := order[..p] + [node] + order[p..], nodes + {node};
    }

    // Makes node the root of the empty tree.
    method AttachRoot(node: Node)
      requires Shape() && root == nil && node != nil
      modifies this`root, this`order, this`nodes,
               node`left, node`right, node`parent, node`color, node`pos, node`lo, node`hi, node`height
      ensures InsertInv(node) && nodes == {node} && order == [node] && old(order) == [] && root == node && node.parent == nil
    {
      root := node;
      node.parent := nil;
      node.left := nil;
      node.right := nil;
      node.color := Red;
      OpenGap(node, 0);
      assert forall d :: node.Kid(d) == nil && node.End(d) == node.Inner(d);
    }

    // Hangs node below y on the side its key calls for.
    method HangLeaf(y: Node, node: Node, ghost d: Side, ghost p: int)
      requires y in nodes && node !in nodes && 0 <= p <= |order| && d == (if node.key < y.key then Left else Right)
      modifies this`order, this`nodes, nodes`left, nodes`right, nodes`pos, nodes`lo, nodes`hi,
               node`left, node`right, node`parent, node`color, node`pos, node`lo, node`hi, node`height
      ensures old(nodes) <= nodes && Attached(y, d, p, node)
    {
      node.parent := y;
      if node.key < y.key {
        y.left := node;
      } else {
        y.right := node;
      }
      node.left := nil;
      node.right := nil;
      node.color := Red;
      OpenGap(node, p);
    }

    // Hangs node below the leaf where the search for its key ends.
    lemma RootSpan()
      requires Shape() && root != nil
      ensures root in nodes && root.lo == 0 && root.hi == |order|
    {
    }

    method Attach(node: Node) returns (ghost p: int)
      requires Coloured() && Sorted() && root != nil && node != nil && node !in nodes
      modifies this`order, this`nodes, nodes`left, nodes`right, nodes`pos, nodes`lo, nodes`hi,
               node`left, node`right, node`parent, node`color, node`pos, node`lo, node`hi, node`height
      ensures InsertInv(node) && nodes == old(nodes) + {node} && node != root && node.left == nil && node.right == nil
      ensures root.color == Black && root.parent == old(root.parent) && (Climbs(node) <==> old(Saturated(root, node.key)))
      ensures 0 <= p <= |old(order)| && order == old(order)[..p] + [node] + old(order)[p..]
      ensures forall i :: 0 <= i < p ==> old(order)[i].key <= node.key
      ensures forall i :: p <= i < |old(order)| ==> node.key < old(order)[i].key
    {
      var y;
      ghost var d;
      RootSpan();
      y, d, p := Descend(node.key);
      HangLeaf(y, node, d, p);
      AttachShape(y, d, p, node);
      AttachLeads(y, d, p, node, node.key, root);
    }

    lemma SecondNode(v: Node)
      requires InsertInv(v) && v != root && |order| == 2
      ensures v.parent == root
    {
      assert At(v) && At(root) && At(v.parent);
      assert KidAt(v.parent, Left) && KidAt(v.parent, Right);
    }

    // The insertion of node leaves the colours right: the parent of the root allows any, or comes in itself, or the
    // recolouring stops below the root.
    ghost predicate Takes(node: Node)
      requires Shape()
      reads this, nodes, nil, root, root.parent, node
    {
      Held() || node == root.parent || !Saturated(root, node.key)
    }

    // The parent of the root is no red node outside the tree, unless it is node.
    ghost predicate Steady(node: Node)
      reads this, root, root.parent
    {
      root != nil && root.parent != null && root.parent !in nodes && node != root.parent ==> root.parent.color == Black
    }

    method InsertNode(node: Node) returns (ghost p: int)
      requires Coloured() && Sorted() && node != nil && node !in nodes && (Takes(node) || root.parent == root)
      modifies this`root, this`order, this`nodes, nodes`left, nodes`right, nodes`parent, nodes`color,
               nodes`pos, nodes`lo, nodes`hi, nodes`height,
               node`left, node`right, node`parent, node`color, node`pos, node`lo, node`hi, node`height
      ensures nodes == old(nodes) + {node}
      ensures if old(Takes(node)) then Coloured() else Shape() && !Balanced(Plain(root))
      ensures old(root) == nil ==> RedBlack() && root.parent == nil
      ensures old(root) != nil && old(Takes(node)) ==> root.parent == old(root.parent) && (|old(order)| == 1 ==> root == old(root))
      ensures 0 <= p <= |old(order)| && order == old(order)[..p] + [node] + old(order)[p..]
      ensures forall i :: 0 <= i < p ==> old(order)[i].key <= node.key
      ensures forall i :: p <= i < |old(order)| ==> node.key < old(order)[i].key
    {
      hide Edges, Climbs, Saturated, Plain, Balanced;
      p := 0;
      if root == nil {
        AttachRoot(node);
      } else {
        p := Attach(node);
        if |order| == 2 { SecondNode(node); }
      }
      InsertFixup(node);
    }

    twostate lemma InsertionSorted(i: int, new node: Node)
      requires old(Sorted()) && 0 <= i <= |old(order)| && order == old(order)[..i] + [node] + old(order)[i..]
      requires forall n :: n in old(order) ==> n.key == old(n.key)
      requires forall j :: 0 <= j < i ==> old(order)[j].key <= node.key
      requires forall j :: i <= j < |old(order)| ==> node.key < old(order)[j].key
      ensures Sorted()
    {
      var before := old(order);
      assert forall j :: 0 <= j < |before| ==> before[j] in before && before[j].key == old(before[j].key);
      forall a, b | 0 <= a < b < |order| ensures order[a].key <= order[b].key {
        assert order[a] == if a < i then before[a] else if a == i then node else before[a - 1];
        assert order[b] == if b < i then before[b] else if b == i then node else before[b - 1];
      }
    }

    lemma ValidUsable()
      requires Valid()
      ensures Usable()
    {
    }

    // An unbalanced tree is not a red-black tree.
    lemma NotTidy()
      requires Shape() && !Balanced(Plain(root))
      ensures !Coloured()
    {
      if Coloured() { PlainColors(root); }
    }

    // The argument may be null or the sentinel, in which case nothing happens; any other argument must
    // be a node outside the tree.  The colours below the root stay right exactly if the tree takes the node.  What
    // else is lost is lost by two things alone: the deleted node that the root still holds as its parent comes back
    // into the tree, or the node that the root holds as its parent becomes the root.
    method Insert(node: Node?) returns (ghost p: int)
      requires Tidy()
      requires node != null && node != nil ==> node !in nodes && (Takes(node) || root.parent == root)
      modifies this, nodes`left, nodes`right, nodes`parent, nodes`color, nodes`pos, nodes`lo, nodes`hi, nodes`height,
               Just(node)`left, Just(node)`right, Just(node)`parent, Just(node)`color,
               Just(node)`pos, Just(node)`lo, Just(node)`hi, Just(node)`height
      ensures Shape() && Sorted()
      ensures Tidy() <==> node == null || node == nil || old(Takes(node))
      ensures node == null || node == nil ==> order == old(order) && nodes == old(nodes) && root == old(root)
      ensures node == null || node == nil ==> (Usable() <==> old(Usable())) && (Valid() <==> old(Valid()))
      ensures node != null && node != nil && old(root) == nil ==> Valid() && root.parent == nil
      ensures node != null && node != nil && old(root) != nil && old(Takes(node)) ==>
        && root.parent == old(root.parent) && (|old(order)| == 1 ==> root == old(root))
        && (old(Steady(node)) ==>
             && (Usable() <==> root != root.parent)
             && (Valid() <==> old(root.parent) !in old(nodes) && node != old(root.parent)))
      ensures node != null && node != nil ==>
        && nodes == old(nodes) + {node}
        && 0 <= p <= |old(order)| && order == old(order)[..p] + [node] + old(order)[p..]
        && (forall i :: 0 <= i < p ==> old(order)[i].key <= node.key)
        && (forall i :: p <= i < |old(order)| ==> node.key < old(order)[i].key)
    {
      p := 0;
      if node == null || node == nil {
        return;
      }
      hide Edges, Saturated, Plain, Balanced;
      SizeStep(|order|);
      ghost var takes := Takes(node);
      p := InsertNode(node);
      InsertionSorted(p, node);
      size := (size + 1) % TWO32;
      if !takes { NotTidy(); }
    }

    lemma SizeStep(n: int)
      ensures ((n + 1) % TWO32 - 1) % TWO32 == n % TWO32 && (n % TWO32 + 1) % TWO32 == (n + 1) % TWO32
    {
    }

    // ---------- Deletion ----------

    ghost function SideOf(v: Node): Side
      reads v, v.parent
    {
      if v.parent != null && v.parent.left == v then Left else Right
    }

    // v is black, and below its parent the side of v is one black node short.
    ghost predicate Short(v: Node)
      reads `root, `nodes, `order, nodes, nil, root, root.parent
    {
      && (v == nil || v in nodes) && v != root && v.color == Black && root.color == Black
      && v.parent != null && v.parent in nodes && v.parent.Kid(SideOf(v)) == v
      && Shape() && Edges(null, v.parent, SideOf(v))
    }

    // v is red; painting it black makes every edge right.
    ghost predicate RescueEdge(n: Node, d: Side, v: Node)
      reads `root, `nodes, `order, nodes, nil, n
    {
      var c := n.Kid(d);
      && c != null && (c == nil || c in nodes)
      && n.height == c.height + n.Weight() + (if c == v then 1 else 0)
      && (n.color == Red && c.color == Red ==> c == v || n == v)
    }

    ghost predicate Rescue(v: Node)
      reads `root, `nodes, `order, nodes, nil, root, root.parent
    {
      && Shape() && root.color == Black && v in nodes && v.color == Red
      && forall n, d {:trigger RescueEdge(n, d, v)} :: n in nodes ==> RescueEdge(n, d, v)
    }

    ghost predicate DeleteInv(v: Node)
      reads `root, `nodes, `order, nodes, nil, root, root.parent
    {
      (v == root && Coloured()) || Rescue(v) || Short(v)
    }

    ghost function DeleteMeasure(v: Node): int
      reads `root, `nodes, `order, nodes, v
    {
      if v == root || v.color == Red then 0 else 1 + |order| - (if v == nil then 0 else v.hi - v.lo)
    }

    // Heights are never negative.
    lemma HeightNonneg(n: Node, s: Node?, sd: Side)
      requires Shape() && Edges(null, s, sd) && (n == nil || n in nodes)
      ensures n.height >= 0
      decreases if n == nil then 0 else n.hi - n.lo
    {
      if n != nil {
        assert At(n) && KidAt(n, Left) && Edge(n, Left, null, s, sd);
        assert n.left != nil ==> At(n.left);
        HeightNonneg(n.left, s, sd);
      }
    }

    // The sibling of a short node is a real node, so its links may be followed.
    lemma SiblingFacts(v: Node, d: Side)
      requires Short(v) && SideOf(v) == d
      ensures var p := v.parent; var w := p.Kid(d.Other());
        && w != null && w in nodes && w != v && w != p && v != p
        && w.left != null && w.right != null && (w.left == nil || w.left in nodes) && (w.right == nil || w.right in nodes)
        && w.left != p && w.right != p && (v in nodes ==> w.left != v && w.right != v)
        && (p.color == Red ==> w.color == Black) && DeleteMeasure(v) > 0
    {
      var p := v.parent;
      assert At(p) && KidAt(p, d) && KidAt(p, d.Other());
      HeightNonneg(v, p, d);
      assert Edge(p, d, null, p, d) && Edge(p, d.Other(), null, p, d);
      var w := p.Kid(d.Other());
      assert At(w) && KidAt(w, Left) && KidAt(w, Right);
      assert v in nodes ==> At(v);
    }

    // Case 2: the black sibling w, whose children are black, turns red, and the shortage moves up to p.
    twostate predicate ShortRecoloured(new p: Node, new w: Node)
      reads `root, `nodes, `order, nodes, nil
    {
      && SameLinks() && nil.color == Black && nil.height == 0
      && (forall x: Node {:trigger x.color} :: x in nodes ==> x.color == if x == w then Red else old(x.color))
      && (forall x: Node {:trigger x.height} :: x in nodes ==>
            x.height == if x == w || x == p then old(x.height) - 1 else old(x.height))
    }

    // The edge below n once w has turned red, save that p may be red above w.
    ghost predicate RecolouredEdge(n: Node, d: Side, p: Node, w: Node)
      reads `root, `nodes, `order, nodes, nil, n
    {
      var c := n.Kid(d);
      && c != null && (c == nil || c in nodes)
      && n.height == c.height + n.Weight() + (if c == p then 1 else 0)
      && (n.color == Red && c.color == Red ==> n == p && c == w)
    }

    ghost predicate NephewsBlack(v: Node, p: Node, w: Node, d: Side)
      reads `root, `nodes, `order, nodes, nil, root, root.parent
    {
      && Short(v) && v.parent == p && SideOf(v) == d && p in nodes && p.Kid(d.Other()) == w && w in nodes && w.color == Black
      && w.left != null && w.right != null && (w.left == nil || w.left in nodes) && (w.right == nil || w.right in nodes)
      && w.left.color == Black && w.right.color == Black
    }

    twostate lemma DeleteRecolourEdge(new v: Node, new p: Node, new w: Node, new d: Side, new n: Node, new e: Side)
      requires {p, w, n} <= old(nodes) && (v == nil || v in old(nodes)) && old(NephewsBlack(v, p, w, d))
      requires ShortRecoloured(p, w)
      ensures RecolouredEdge(n, e, p, w)
    {
      assert old(At(n) && KidAt(n, e) && At(p) && KidAt(p, d) && KidAt(p, d.Other()) && At(w));
      assert old(Edge(n, e, null, p, d));
    }

    lemma RecolouredInv(p: Node, w: Node)
      requires Shape() && p in nodes && w in nodes && root.color == Black && w.parent == p
      requires forall n, e {:trigger RecolouredEdge(n, e, p, w)} :: n in nodes ==> RecolouredEdge(n, e, p, w)
      ensures DeleteInv(p)
    {
      assert At(p);
      if p.color == Red {
        forall n, e | n in nodes ensures RescueEdge(n, e, p) { assert RecolouredEdge(n, e, p, w); }
      } else if p == root {
        forall n, e | n in nodes ensures Edge(n, e, null, null, Left) {
          assert RecolouredEdge(n, e, p, w) && At(n) && KidAt(n, e);
        }
      } else {
        forall n, e | n in nodes ensures Edge(n, e, null, p.parent, SideOf(p)) {
          assert RecolouredEdge(n, e, p, w);
          assert At(n);
          assert KidAt(n, Left) && KidAt(n, Right);
        }
      }
    }

    twostate lemma DeleteRecolour(new v: Node, new p: Node, new w: Node, new d: Side)
      requires {p, w} <= old(nodes) && (v == nil || v in old(nodes)) && old(NephewsBlack(v, p, w, d))
      requires ShortRecoloured(p, w)
      ensures DeleteInv(p) && 0 <= DeleteMeasure(p) < old(DeleteMeasure(v))
    {
      PaintShape();
      assert old(At(p) && KidAt(p, d) && KidAt(p, d.Other()));
      assert old(v != nil ==> At(v));
      assert old(At(w));
      forall n, e | n in nodes ensures RecolouredEdge(n, e, p, w) { DeleteRecolourEdge(v, p, w, d, n, e); }
      RecolouredInv(p, w);
    }

    lemma ShortAgain(v: Node, d: Side)
      requires (v == nil || v in nodes) && v != root && v.color == Black && root.color == Black
      requires v.parent != null && v.parent in nodes && v.parent.Kid(d) == v
      requires Shape() && Edges(null, v.parent, d)
      ensures Short(v) && SideOf(v) == d
    {
      assert Edge(v.parent, Left, null, v.parent, d) && Edge(v.parent, Right, null, v.parent, d);
    }

    lemma SiblingTwistable(v: Node, w: Node, d: Side)
      requires Short(v) && SideOf(v) == d && v.parent.Kid(d.Other()) == w && w.color == Red && w in nodes
      ensures Twistable(v.parent, w, d, null, v.parent, d)
    {
      SiblingFacts(v, d);
      assert Edge(v.parent, d.Other(), null, v.parent, d) && Edge(w, d, null, v.parent, d);
    }

    lemma NephewTwistable(v: Node, w: Node, d: Side)
      requires Short(v) && SideOf(v) == d && v.parent.Kid(d.Other()) == w && w.color == Black && w in nodes
      requires w.Kid(d) != null && (w.Kid(d) == nil || w.Kid(d) in nodes) && w.Kid(d).color == Red
      requires w.Kid(d.Other()) != null && (w.Kid(d.Other()) == nil || w.Kid(d.Other()) in nodes) && w.Kid(d.Other()).color == Black
      ensures Twistable(w, w.Kid(d), d.Other(), null, v.parent, d)
      ensures w.Kid(d).Kid(d.Other()) == v ==> v == nil
    {
      SiblingFacts(v, d);
      assert At(w) && KidAt(w, d);
      assert At(w.Kid(d)) && KidAt(w.Kid(d), d.Other());
    }

    // The black sibling w of v has a red child x on its far side.
    ghost predicate LastStep(v: Node, w: Node, d: Side)
      reads `root, `nodes, `order, nodes, nil, root, root.parent
    {
      && Short(v) && SideOf(v) == d && v.parent.Kid(d.Other()) == w && w in nodes && w.color == Black
      && w.Kid(d.Other()) != null && w.Kid(d.Other()) in nodes && w.Kid(d.Other()).color == Red
    }

    // Between the painting and the rotation of case 4, seen from the edge below n.
    ghost predicate LastEdge(p: Node, w: Node, x: Node, n: Node, e: Side)
      reads `root, `nodes, `order, nodes, nil, n, w
    {
      var c := n.Kid(e);
      && c != null && (c == nil || c in nodes)
      && n.height == c.height + n.Weight() + (if c == p then w.Weight() else 0)
           - (if n == p && c == w then w.Weight() + 1 else 0) + (if n == w && c != x then 1 else 0)
      && (n.color == Red && c.color == Red ==> n == w && c != x)
      && (n.color == Red && c == p ==> w.color == Black)
    }

    ghost predicate LastPainted(p: Node, w: Node, x: Node, d: Side)
      reads `root, `nodes, `order, nodes, nil, root, root.parent
    {
      && Shape() && {p, w, x} <= nodes && p.Kid(d.Other()) == w && w.Kid(d.Other()) == x
      && p.color == Black && x.color == Black && (if root == p then w.color == Black else root.color == Black)
      && forall n, e {:trigger LastEdge(p, w, x, n, e)} :: n in nodes ==> LastEdge(p, w, x, n, e)
    }

    twostate predicate LastPainting(new p: Node, new w: Node, new x: Node)
      requires p in old(nodes)
      reads `root, `nodes, `order, nodes, nil, w
    {
      && SameLinks() && nil.color == Black && nil.height == 0
      && (forall y: Node {:trigger y.color} :: y in nodes ==>
            y.color == if y == w then old(p.color) else if y == p || y == x then Black else old(y.color))
      && (forall y: Node {:trigger y.height} :: y in nodes ==>
            y.height == old(y.height) + (if y == w then w.Weight() else if y == p then -w.Weight() else if y == x then 1 else 0))
    }

    twostate lemma LastPaintEdge(new v: Node, new p: Node, new w: Node, new x: Node, new d: Side, new n: Node, new e: Side)
      requires {p, w, x, n} <= old(nodes) && (v == nil || v in old(nodes)) && old(LastStep(v, w, d)) && old(v.parent) == p
      requires old(w.Kid(d.Other())) == x && LastPainting(p, w, x)
      ensures LastEdge(p, w, x, n, e)
    {
      assert old(At(n) && KidAt(n, e) && At(p) && KidAt(p, d) && KidAt(p, d.Other()));
      assert old(At(w) && KidAt(w, d.Other()) && At(x));
      assert old(Edge(n, e, null, p, d) && Edge(p, d.Other(), null, p, d) && Edge(p, d, null, p, d));
    }

    twostate lemma LastPaint(new v: Node, new p: Node, new w: Node, new x: Node, new d: Side)
      requires {p, w, x} <= old(nodes) && (v == nil || v in old(nodes)) && old(LastStep(v, w, d)) && old(v.parent) == p
      requires old(w.Kid(d.Other())) == x && LastPainting(p, w, x)
      ensures LastPainted(p, w, x, d)
    {
      PaintShape();
      assert old(At(p) && KidAt(p, d.Other()) && At(w) && KidAt(w, d.Other()) && At(x));
      forall n, e | n in nodes ensures LastEdge(p, w, x, n, e) { LastPaintEdge(v, p, w, x, d, n, e); }
    }

    twostate lemma LastTurnEdge(new p: Node, new w: Node, new x: Node, new d: Side, new n: Node, new e: Side)
      requires {p, w, x, n} <= old(nodes) && old(LastPainted(p, w, x, d))
      requires Rotated(p, d) && unchanged(nodes`color) && unchanged(nodes`height) && unchanged(nil)
      ensures Edge(n, e, null, null, Left)
    {
      assert old(At(n) && KidAt(n, e) && At(p) && KidAt(p, d) && KidAt(p, d.Other()));
      assert old(At(w) && KidAt(w, d) && KidAt(w, d.Other()));
      assert old(LastEdge(p, w, x, n, e) && LastEdge(p, w, x, p, d.Other()) && LastEdge(p, w, x, w, d));
    }

    twostate lemma LastTurn(new p: Node, new w: Node, new x: Node, new d: Side)
      requires {p, w, x} <= old(nodes) && old(LastPainted(p, w, x, d))
      requires Rotated(p, d) && unchanged(nodes`color) && unchanged(nodes`height) && unchanged(nil)
      ensures Coloured() && root.parent == old(root.parent)
    {
      assert old(At(p) && KidAt(p, d.Other()) && At(w));
      RotateShape(p, d);
      forall n, e | n in nodes ensures Edge(n, e, null, null, Left) { LastTurnEdge(p, w, x, d, n, e); }
    }

    // w takes over the colour of p; p and x turn black.
    method LastColours(v: Node, p: Node, w: Node, x: Node, ghost d: Side)
      requires LastStep(v, w, d) && v.parent == p && w.Kid(d.Other()) == x
      modifies nodes`color, nodes`height
      ensures SameLinks() && LastPainted(p, w, x, d) && Turnable(p, d)
    {
      SiblingFacts(v, d);
      w.color := p.color;
      p.color := Black;
      x.color := Black;
      w.height, p.height, x.height := w.height + w.Weight(), p.height - w.Weight(), x.height + 1;
      LastPaint(v, p, w, x, d);
      ShapeTurnable(p, d);
    }

    // Case 4 for a left child: the sibling w takes over the colour of the parent and its place.
    method DeleteLastLeft(v: Node, w: Node)
      requires LastStep(v, w, Left)
      modifies this`root, nodes`left, nodes`right, nodes`parent, nodes`lo, nodes`hi, nodes`color, nodes`height
      ensures Coloured() && root.parent == old(root.parent)
    {
      SiblingFacts(v, Left);
      ghost var p, x := v.parent, w.right;
      LastColours(v, v.parent, w, w.right, Left);
      label Turning:
      LeftRotate(v.parent);
      TurnedRotated@Turning(p, w, old@Turning(w.left), Left);
      LastTurn@Turning(p, w, x, Left);
    }

    // Case 4 for a right child: the sibling w takes over the colour of the parent and its place.
    method DeleteLastRight(v: Node, w: Node)
      requires LastStep(v, w, Right)
      modifies this`root, nodes`left, nodes`right, nodes`parent, nodes`lo, nodes`hi, nodes`color, nodes`height
      ensures Coloured() && root.parent == old(root.parent)
    {
      SiblingFacts(v, Right);
      ghost var p, x := v.parent, w.left;
      LastColours(v, v.parent, w, w.left, Right);
      label Turning:
      RightRotate(v.parent);
      TurnedRotated@Turning(p, w, old@Turning(w.right), Right);
      LastTurn@Turning(p, w, x, Right);
    }

    // Case 1 for a left child: gives v a black sibling w.
    method BlackSiblingLeft(v: Node) returns (w: Node)
      requires Short(v) && SideOf(v) == Left
      modifies this`root, nodes`left, nodes`right, nodes`parent, nodes`lo, nodes`hi, nodes`color, nodes`height
      ensures Short(v) && SideOf(v) == Left && w == v.parent.right && w.color == Black && DeleteMeasure(v) == old(DeleteMeasure(v))
      ensures root.parent == old(root.parent)
    {
      SiblingFacts(v, Left);
      w := v.parent.right;
      if w.color == Red {
        SiblingTwistable(v, w, Left);
        TwistLeft(v.parent, null, v.parent, Left);
        ShortAgain(v, Left);
        SiblingFacts(v, Left);
        w := v.parent.right;
        assert v.lo == v.End(Left) && v.hi == v.End(Right);
      }
    }

    // Case 3 for a left child: gives the black sibling w a red child on its far side.
    method RedNephewLeft(v: Node, w0: Node) returns (w: Node)
      requires Short(v) && SideOf(v) == Left && w0 == v.parent.right && w0.color == Black
      requires w0 in nodes && w0.left != null && w0.right != null && !(w0.left.color == Black && w0.right.color == Black)
      modifies this`root, nodes`left, nodes`right, nodes`parent, nodes`lo, nodes`hi, nodes`color, nodes`height
      ensures LastStep(v, w, Left) && root.parent == old(root.parent)
    {
      w := w0;
      SiblingFacts(v, Left);
      if w.right.color == Black {
        NephewTwistable(v, w, Left);
        TwistRight(w, null, v.parent, Left);
        ShortAgain(v, Left);
        SiblingFacts(v, Left);
        w := v.parent.right;
      }
    }

    // One iteration of the deletion fixup for a left child.
    method DeleteFixLeft(v: Node) returns (node: Node)
      requires Short(v) && SideOf(v) == Left
      modifies this`root, nodes`left, nodes`right, nodes`parent, nodes`lo, nodes`hi, nodes`color, nodes`height
      ensures DeleteInv(node) && 0 <= DeleteMeasure(node) < old(DeleteMeasure(v)) && root.parent == old(root.parent)
    {
      node := v;
      SiblingFacts(v, Left);
      var w := BlackSiblingLeft(node);
      SiblingFacts(v, Left);
      label Settled:
      if w.left.color == Black && w.right.color == Black {
        ghost var p := node.parent;
        w.color := Red;
        w.height, p.height := w.height - 1, p.height - 1;
        node := node.parent;
        DeleteRecolour@Settled(v, p, w, Left);
      } else {
        w := RedNephewLeft(node, w);
        DeleteLastLeft(node, w);
        node := root;
      }
    }

    // Case 1 for a right child: gives v a black sibling w.
    method BlackSiblingRight(v: Node) returns (w: Node)
      requires Short(v) && SideOf(v) == Right
      modifies this`root, nodes`left, nodes`right, nodes`parent, nodes`lo, nodes`hi, nodes`color, nodes`height
      ensures Short(v) && SideOf(v) == Right && w == v.parent.left && w.color == Black && DeleteMeasure(v) == old(DeleteMeasure(v))
      ensures root.parent == old(root.parent)
    {
      SiblingFacts(v, Right);
      w := v.parent.left;
      if w.color == Red {
        SiblingTwistable(v, w, Right);
        TwistRight(v.parent, null, v.parent, Right);
        ShortAgain(v, Right);
        SiblingFacts(v, Right);
        w := v.parent.left;
        assert v.lo == v.End(Left) && v.hi == v.End(Right);
      }
    }

    // Case 3 for a right child: gives the black sibling w a red child on its far side.
    method RedNephewRight(v: Node, w0: Node) returns (w: Node)
      requires Short(v) && SideOf(v) == Right && w0 == v.parent.left && w0.color == Black
      requires w0 in nodes && w0.left != null && w0.right != null && !(w0.left.color == Black && w0.right.color == Black)
      modifies this`root, nodes`left, nodes`right, nodes`parent, nodes`lo, nodes`hi, nodes`color, nodes`height
      ensures LastStep(v, w, Right) && root.parent == old(root.parent)
    {
      w := w0;
      SiblingFacts(v, Right);
      if w.left.color == Black {
        NephewTwistable(v, w, Right);
        TwistLeft(w, null, v.parent, Right);
        ShortAgain(v, Right);
        SiblingFacts(v, Right);
        w := v.parent.left;
      }
    }

    // One iteration of the deletion fixup for a right child.
    method DeleteFixRight(v: Node) returns (node: Node)
      requires Short(v) && SideOf(v) == Right
      modifies this`root, nodes`left, nodes`right, nodes`parent, nodes`lo, nodes`hi, nodes`color, nodes`height
      ensures DeleteInv(node) && 0 <= DeleteMeasure(node) < old(DeleteMeasure(v)) && root.parent == old(root.parent)
    {
      node := v;
      SiblingFacts(v, Right);
      var w := BlackSiblingRight(node);
      SiblingFacts(v, Right);
      label Settled:
      if w.left.color == Black && w.right.color == Black {
        ghost var p := node.parent;
        w.color := Red;
        w.height, p.height := w.height - 1, p.height - 1;
        node := node.parent;
        DeleteRecolour@Settled(v, p, w, Right);
      } else {
        w := RedNephewRight(node, w);
        DeleteLastRight(node, w);
        node := root;
      }
    }

    method DeleteFixup(v: Node)
      requires DeleteInv(v) && order != []
      modifies this`root, nodes`left, nodes`right, nodes`parent, nodes`lo, nodes`hi, nodes`color, nodes`height
      ensures Coloured() && root.parent == old(root.parent)
    {
      var node := v;
      while node != root && node.color == Black
        invariant DeleteInv(node) && root.parent == old(root.parent)
        decreases DeleteMeasure(node)
      {
        if node == node.parent.left {
          node := DeleteFixLeft(node);
        } else {
          node := DeleteFixRight(node);
        }
      }
      label Blackening:
      if node.color == Red {
        node.height := node.height + 1;
      }
      node.color := Black;
      RescueDone@Blackening(node);
    }

    twostate lemma RescueDone(new v: Node)
      requires v in old(nodes) && old((v == root && Coloured()) || Rescue(v)) && SameLinks() && v.color == Black && unchanged(nil)
      requires v.height == old(v.height) + (if old(v.color) == Red then 1 else 0)
      requires forall x :: x in nodes && x != v ==> x.color == old(x.color) && x.height == old(x.height)
      ensures Coloured()
    {
      PaintShape();
      forall n, e | n in nodes ensures Edge(n, e, null, null, Left) {
        assert old(At(n) && KidAt(n, e));
        assert old(if v.color == Red then RescueEdge(n, e, v) else Edge(n, e, null, null, Left));
      }
    }

    // What deletion of z starts from: t leaves its place, below its parent on side d, to its child s.
    ghost predicate Removable(z: Node, t: Node, s: Node, d: Side)
      reads `root, `nodes, `order, nodes, nil, root, root.parent
    {
      && Coloured() && z in nodes && t in nodes && t != root && (s == nil || s in nodes)
      && t.parent != null && t.parent in nodes && t.parent.Kid(d) == t
      && ((t.left == nil && t.right == s) || (t.right == nil && t.left == s))
      && (t == z || (t.pos == z.pos + 1 && t.left == nil && z.left != nil && z.right != nil))
    }

    // z has gone; t, unless it is z itself, has moved to the place of z; s has moved to the place of t.
    twostate predicate Unlinked(new z: Node, new t: Node, new s: Node)
      requires {z, t} <= old(nodes) && nodes <= old(nodes)
      reads `root, `nodes, `order, nodes, s
    {
      && nodes == old(nodes) - {z} && 0 <= old(z.pos) < |old(order)|
      && order == old(order)[..old(z.pos)] + old(order)[old(z.pos) + 1..]
      && root == (if old(root) == z then t else old(root))
      && (forall x: Node, e {:trigger x.Kid(e)} :: x in nodes ==>
            var c := old((if x == t then z else x).Kid(e));
            x.Kid(e) == if c == t then s else if c == z then t else c)
      && (forall x: Node {:trigger x.parent} :: x in nodes && x != s ==>
            x.parent == if x == t then old(z.parent) else if x != old(root) && old(x.parent) == z then t else old(x.parent))
      && s.parent == (if old(t.parent) == z then t else old(t.parent))
      && (forall x: Node, e {:trigger x.End(e)} :: x in nodes ==>
            var i := old((if x == t then z else x).End(e));
            x.End(e) == if i > old(t.pos) then i - 1 else i)
      && (forall x: Node {:trigger x.pos} {:trigger x.color} {:trigger x.height} :: x in nodes ==>
            var y := if x == t then z else x;
            && x.pos == old(y.pos) - (if old(y.pos) > old(t.pos) then 1 else 0)
            && x.color == old(y.color) && x.height == old(y.height))
    }

    // The edges that led to t now lead to s.
    twostate lemma UnlinkKidAtGone(new z: Node, new t: Node, new s: Node, new d: Side, new n: Node, new e: Side)
      requires {z, t} <= old(nodes) && nodes <= old(nodes) && (s == nil || s in old(nodes)) && n in nodes
      requires old(Removable(z, t, s, d)) && Unlinked(z, t, s)
      requires old((if n == t then z else n).Kid(e)) == t
      ensures KidAt(n, e)
    {
      var y := if n == t then z else n;
      assert old(At(y) && KidAt(y, e) && At(t) && KidAt(t, Left) && KidAt(t, Right));
      assert s != nil ==> old(At(s));
    }

    twostate lemma UnlinkKidAt(new z: Node, new t: Node, new s: Node, new d: Side, new n: Node, new e: Side)
      requires {z, t} <= old(nodes) && nodes <= old(nodes) && (s == nil || s in old(nodes)) && n in nodes
      requires old(Removable(z, t, s, d)) && Unlinked(z, t, s)
      requires old((if n == t then z else n).Kid(e)) != t
      ensures KidAt(n, e)
    {
      var y := if n == t then z else n;
      assert old(At(y) && KidAt(y, e) && At(t) && KidAt(t, Left) && KidAt(t, Right));
      var c := old(y.Kid(e));
      assert c != nil ==> old(At(c));
    }

    twostate lemma UnlinkUpAt(new z: Node, new t: Node, new s: Node, new d: Side, new n: Node, new e: Side)
      requires {z, t} <= old(nodes) && nodes <= old(nodes) && (s == nil || s in old(nodes)) && n in nodes
      requires old(Removable(z, t, s, d)) && Unlinked(z, t, s) && n != root
      requires n != s ==> var y := if n == t then z else n; old(y.parent) != null && old(y.parent) in old(nodes) && old(y.parent.Kid(e)) == y
      ensures UpAt(n)
    {
      var below := if n == s then t else if n == t then z else n;
      var above := old(below.parent);
      var side := if n == s then d else e;
      assert old(At(t)) && old(At(above)) && old(KidAt(above, side));
      assert above != t by {
        assert old(At(below)) && old(KidAt(t, side));
      }
      var p := if above == z then t else above;
      assert p in nodes && n.parent == p;
      assert p.Kid(side) == n;
    }

    twostate lemma UnlinkAt(new z: Node, new t: Node, new s: Node, new d: Side, new n: Node)
      requires {z, t} <= old(nodes) && nodes <= old(nodes) && (s == nil || s in old(nodes)) && n in nodes
      requires old(Removable(z, t, s, d)) && Unlinked(z, t, s)
      ensures At(n)
    {
      var y := if n == t then z else n;
      forall e ensures KidAt(n, e) {
        if old(y.Kid(e)) == t { UnlinkKidAtGone(z, t, s, d, n, e); } else { UnlinkKidAt(z, t, s, d, n, e); }
      }
      assert n.End(Left) == n.lo && n.End(Right) == n.hi;
      assert old(At(y) && At(t));
      if n != root {
        assert old(At(z));
        UnlinkUpAt(z, t, s, d, n, if old(y.parent.Kid(Left)) == y then Left else Right);
      }
    }

    twostate lemma UnlinkEnds(new z: Node, new t: Node, new s: Node, new d: Side)
      requires {z, t} <= old(nodes) && nodes <= old(nodes) && (s == nil || s in old(nodes))
      requires old(Removable(z, t, s, d)) && Unlinked(z, t, s) && nil.color == Black && nil.height == 0
      ensures RootOk() && root.color == Black && order != [] && root.parent == old(root.parent)
      ensures s.parent != null && s.parent in nodes && s.parent.Kid(d) == s && s != root && (s == nil || s in nodes)
    {
      assert old(At(z) && At(t) && At(root) && At(t.parent) && KidAt(t.parent, d));
      assert root.End(Left) == root.lo && root.End(Right) == root.hi;
      assert s != nil ==> old(At(s)) && old(KidAt(t, Left)) && old(KidAt(t, Right));
    }

    twostate lemma UnlinkOrder(new z: Node, new t: Node, new s: Node, new d: Side)
      requires {z, t} <= old(nodes) && nodes <= old(nodes) && (s == nil || s in old(nodes))
      requires old(Removable(z, t, s, d)) && Unlinked(z, t, s)
      ensures OrderOk()
    {
      var (i, before) := (old(z.pos), old(order));
      assert old(At(z) && At(t));
      forall j | 0 <= j < |order| ensures order[j] in nodes && order[j].pos == j {
        assert order[j] == before[if j < i then j else j + 1];
      }
    }

    twostate lemma UnlinkShape(new z: Node, new t: Node, new s: Node, new d: Side)
      requires {z, t} <= old(nodes) && nodes <= old(nodes) && (s == nil || s in old(nodes))
      requires old(Removable(z, t, s, d)) && Unlinked(z, t, s) && nil.color == Black && nil.height == 0
      ensures Shape() && root.color == Black && order != [] && root.parent == old(root.parent)
      ensures s.parent != null && s.parent in nodes && s.parent.Kid(d) == s && s != root && (s == nil || s in nodes)
    {
      UnlinkEnds(z, t, s, d);
      UnlinkOrder(z, t, s, d);
      forall n | n in nodes ensures At(n) { UnlinkAt(z, t, s, d, n); }
    }

    // The edge below n after the unlinking; below p on side d a black node is missed if black holds.
    ghost predicate UnlinkedEdge(n: Node, e: Side, p: Node, d: Side, black: bool)
      reads `root, `nodes, `order, nodes, nil, n
    {
      var c := n.Kid(e);
      && c != null && (c == nil || c in nodes)
      && n.height == c.height + n.Weight() + (if n == p && e == d && black then 1 else 0)
      && (n.color == Red && c.color == Red ==> n == p && e == d && black)
    }

    // Exactly the edge from the new parent of s on side d used to lead to t.
    twostate lemma UnlinkGap(new z: Node, new t: Node, new s: Node, new d: Side, new n: Node, new e: Side)
      requires {z, t} <= old(nodes) && nodes <= old(nodes) && (s == nil || s in old(nodes)) && n in nodes
      requires old(Removable(z, t, s, d)) && Unlinked(z, t, s)
      ensures old((if n == t then z else n).Kid(e)) == t <==> n == s.parent && e == d
    {
      var y := if n == t then z else n;
      assert old(At(y) && KidAt(y, e) && At(t) && At(t.parent) && KidAt(t.parent, d) && KidAt(t.parent, d.Other()));
      assert e == d || e == d.Other();
    }

    twostate lemma UnlinkEdge(new z: Node, new t: Node, new s: Node, new d: Side, new n: Node, new e: Side)
      requires {z, t} <= old(nodes) && nodes <= old(nodes) && (s == nil || s in old(nodes)) && n in nodes
      requires old(Removable(z, t, s, d)) && Unlinked(z, t, s) && nil.color == Black && nil.height == 0
      requires s.parent in nodes && s.parent.Kid(d) == s && (s == nil || s in nodes)
      ensures UnlinkedEdge(n, e, s.parent, d, old(t.color) == Black)
    {
      UnlinkGap(z, t, s, d, n, e);
      var y := if n == t then z else n;
      assert old(At(t) && KidAt(t, Left) && KidAt(t, Right) && At(y) && KidAt(y, e));
      assert old(Edge(y, e, null, null, Left) && Edge(t, Left, null, null, Left) && Edge(t, Right, null, null, Left));
    }

    lemma UnlinkedInv(s: Node, d: Side, black: bool)
      requires Shape() && root.color == Black && (s == nil || s in nodes) && s != root
      requires s.parent != null && s.parent in nodes && s.parent.Kid(d) == s
      requires forall n, e {:trigger UnlinkedEdge(n, e, s.parent, d, black)} :: n in nodes ==> UnlinkedEdge(n, e, s.parent, d, black)
      ensures if black then DeleteInv(s) else Coloured()
    {
      var p := s.parent;
      assert At(p) && KidAt(p, d);
      if black && s.color == Red {
        forall n, e | n in nodes ensures RescueEdge(n, e, s) {
          assert UnlinkedEdge(n, e, p, d, black) && At(n) && KidAt(n, e);
          assert KidAt(p, Left) && KidAt(p, Right);
        }
      } else {
        var short, side := if black then p else null, if black then d else Left;
        forall n, e | n in nodes ensures Edge(n, e, null, short, side) { assert UnlinkedEdge(n, e, p, d, black); }
        if black { ShortAgain(s, d); }
      }
    }

    twostate lemma UnlinkDone(new z: Node, new t: Node, new s: Node, new d: Side)
      requires {z, t} <= old(nodes) && nodes <= old(nodes) && (s == nil || s in old(nodes))
      requires old(Removable(z, t, s, d)) && Unlinked(z, t, s) && nil.color == Black && nil.height == 0
      ensures order != [] && root.parent == old(root.parent)
      ensures if old(t.color) == Black then DeleteInv(s) else Coloured()
    {
      UnlinkShape(z, t, s, d);
      var p, black := s.parent, old(t.color) == Black;
      forall n, e | n in nodes ensures UnlinkedEdge(n, e, p, d, black) { UnlinkEdge(z, t, s, d, n, e); }
      UnlinkedInv(s, d, black);
    }

    // Takes t out of its place and puts its child s there; s already points past z.
    method SpliceOut(z: Node, t: Node, s: Node, ghost d: Side)
      requires Removable(z, t, s, d)
      modifies nodes`left, nodes`right, nodes`parent, nil`parent
      ensures forall x: Node {:trigger x.left} :: x in nodes ==> x.left == if old(x.left) == t then s else old(x.left)
      ensures forall x: Node {:trigger x.right} :: x in nodes ==> x.right == if old(x.right) == t then s else old(x.right)
      ensures forall x: Node {:trigger x.parent} :: x in nodes && x != s ==> x.parent == old(x.parent)
      ensures s.parent == if old(t.parent) == z then t else old(t.parent)
    {
      ShapeHangsOnce(t);
      if t.parent == z {
        s.parent := t;
      } else {
        s.parent := t.parent;
      }
      if t == t.parent.left {
        t.parent.left := s;
      } else {
        t.parent.right := s;
      }
    }

    // Puts t, which hangs nowhere, in the place of z.
    method TakePlace(z: Node, t: Node)
      requires HangsOnce(z) && t in nodes && t != z && nil !in nodes && z.parent != null
      requires z.left != null && z.right != null && (z.left == nil || z.left in nodes) && (z.right == nil || z.right in nodes)
      requires z.left != z && z.right != z && z.left != t && z.right != t && (z != root ==> z.parent != t) && t.left != z && t.right != z
      modifies this`root, nodes`left, nodes`right, nodes`parent, nodes`color
      ensures root == if old(root) == z then t else old(root)
      ensures forall x: Node {:trigger x.left} :: x in nodes ==>
                x.left == if x == t then old(z.left) else if old(x.left) == z then t else old(x.left)
      ensures forall x: Node {:trigger x.right} :: x in nodes ==>
                x.right == if x == t then old(z.right) else if old(x.right) == z then t else old(x.right)
      ensures forall x: Node {:trigger x.parent} :: x in nodes ==>
                x.parent == if x == t then old(z.parent) else if x == old(z.left) || x == old(z.right) then t else old(x.parent)
      ensures forall x: Node {:trigger x.color} :: x in nodes ==> x.color == if x == t then old(z.color) else old(x.color)
    {
      t.parent := z.parent;
      Replace(z, t);
      t.right := z.right;
      t.left := z.left;
      if t.left != nil {
        t.left.parent := t;
      }
      if t.right != nil {
        t.right.parent := t;
      }
      t.color := z.color;
    }

    // Hands the annotations of z to t and closes the index t had in the order.
    ghost method CloseGap(z: Node, t: Node)
      requires {z, t} <= nodes && 0 <= z.pos < |order|
      modifies this`order, this`nodes, nodes`pos, nodes`lo, nodes`hi, nodes`height
      ensures nodes == old(nodes) - {z} && order == old(order)[..old(z.pos)] + old(order)[old(z.pos) + 1..]
      ensures forall x: Node {:trigger x.pos} :: x in nodes ==>
                var i := old((if x == t then z else x).pos); x.pos == if i > old(t.pos) then i - 1 else i
      ensures forall x: Node {:trigger x.lo} :: x in nodes ==>
                var i := old((if x == t then z else x).lo); x.lo == if i > old(t.pos) then i - 1 else i
      ensures forall x: Node {:trigger x.hi} :: x in nodes ==>
                var i := old((if x == t then z else x).hi); x.hi == if i > old(t.pos) then i - 1 else i
      ensures forall x: Node {:trigger x.height} :: x in nodes ==> x.height == old((if x == t then z else x).height)
    {
      var q := t.pos;
      order, nodes := order[..z.pos] + order[z.pos + 1..], nodes - {z};
      t.pos, t.lo, t.hi, t.height := z.pos, z.lo, z.hi, z.height;
      forall m | m in nodes { m.pos := if m.pos > q then m.pos - 1 else m.pos; }
      forall m | m in nodes { m.lo := if m.lo > q then m.lo - 1 else m.lo; }
      forall m | m in nodes { m.hi := if m.hi > q then m.hi - 1 else m.hi; }
    }

    // Where z and its neighbours stand while t, its in-order successor, is being moved.
    lemma SuccessorFacts(z: Node, t: Node, s: Node, d: Side)
      requires Removable(z, t, s, d) && t != z
      ensures HangsOnce(z) && z.parent != null && (z != root ==> z.parent != t) && s != z && z != t.parent.Kid(d)
      ensures z.left != z && z.right != z && z.left in nodes && z.right in nodes && z.left != t && t.left != z && t.right != z
      ensures z.left != s && (z.right == t <==> t.parent == z) && (z.right == t ==> d == Right)
      ensures s != t && (s != nil ==> s.parent == t && z.right != s)
      ensures root != z.left && root != z.right
      ensures forall x: Node {:trigger x.parent} :: x in nodes && x != root ==>
                (x.parent == z <==> x == z.left || x == z.right)
    {
      forall x: Node | x in nodes && x != root ensures x.parent == z <==> x == z.left || x == z.right {
        assert At(x) && At(z) && KidAt(z, Left) && KidAt(z, Right);
      }
      ShapeHangsOnce(z);
      assert At(z) && At(t) && At(t.parent) && KidAt(t.parent, d);
      assert KidAt(z, Left) && KidAt(z, Right) && KidAt(t, Left) && KidAt(t, Right);
      assert At(z.left) && At(z.right);
      assert s != nil ==> At(s);
    }

    // Takes a node with at most one child out of the tree.
    method UnlinkSelf(z: Node, s: Node, ghost d: Side)
      requires Removable(z, z, s, d)
      modifies this`order, this`nodes, nodes`left, nodes`right, nodes`parent,
               nodes`pos, nodes`lo, nodes`hi, nodes`height, nil`parent
      ensures nodes <= old(nodes) && Unlinked(z, z, s)
    {
      assert At(z);
      assert z.left != z && z.right != z by { assert KidAt(z, Left) && KidAt(z, Right); }
      SpliceOut(z, z, s, d);
      CloseGap(z, z);
      z.left, z.right, z.parent := null, null, null;
    }

    // Moves t, the successor of z, to the place of z.
    method MoveSuccessor(z: Node, t: Node, s: Node, ghost d: Side)
      requires Removable(z, t, s, d) && t != z
      modifies this`root, nodes`left, nodes`right, nodes`parent, nodes`color, nil`parent
      ensures root == if old(root) == z then t else old(root)
      ensures forall x: Node {:trigger x.left} :: x in nodes && x != z ==>
                var c := old(if x == t then z.left else x.left); x.left == if c == t then s else if c == z then t else c
      ensures forall x: Node {:trigger x.right} :: x in nodes && x != z ==>
                var c := old(if x == t then z.right else x.right); x.right == if c == t then s else if c == z then t else c
      ensures forall x: Node {:trigger x.parent} :: x in nodes && x != s && x != z ==>
                x.parent == if x == t then old(z.parent)
                            else if x != old(root) && old(x.parent) == z then t else old(x.parent)
      ensures s.parent == if old(t.parent) == z then t else old(t.parent)
      ensures forall x: Node {:trigger x.color} :: x in nodes ==> x.color == if x == t then old(z.color) else old(x.color)
    {
      SuccessorFacts(z, t, s, d);
      SpliceOut(z, t, s, d);
      TakePlace(z, t);
    }

    // Takes a node with two children out of the tree and puts its successor t in its place.
    method UnlinkSuccessor(z: Node, t: Node, s: Node, ghost d: Side)
      requires Removable(z, t, s, d) && t != z
      modifies this`root, this`order, this`nodes, nodes`left, nodes`right, nodes`parent, nodes`color,
               nodes`pos, nodes`lo, nodes`hi, nodes`height, nil`parent
      ensures nodes <= old(nodes) && Unlinked(z, t, s) && z.color == old(z.color)
    {
      assert At(z) && At(t) && KidAt(t, Left) && KidAt(t, Right);
      assert s != nil ==> At(s);
      MoveSuccessor(z, t, s, d);
      CloseGap(z, t);
      z.left, z.right, z.parent := null, null, null;
    }

    // The leftmost node below n, null for the sentinel.
    method SubtreeMin(n: Node) returns (m: Node?, ghost steps: nat)
      requires Shape() && (n == nil || n in nodes)
      ensures n == nil ==> m == null
      ensures n != nil ==> m != null && m in nodes && m.pos == n.lo && m.left == nil
      ensures steps == LeftMoves(Plain(n))
    {
      if n == nil {
        return null, 0;
      }
      var node := n;
      steps := 0;
      assert At(node) && KidAt(node, Left) && KidAt(node, Right);
      while node.left != nil
        invariant node in nodes && node.lo == n.lo && node.left != null
        invariant At(node) && KidAt(node, Left)
        invariant steps + LeftMoves(Plain(node)) == LeftMoves(Plain(n))
        decreases node.hi - node.lo
      {
        assert At(node.left) && KidAt(node.left, Left) && KidAt(node.left, Right);
        node := node.left;
        steps := steps + 1;
      }
      return node, steps;
    }

    // z, the root, has given way to its only child s.
    twostate predicate Unrooted(new z: Node, new s: Node)
      requires z in old(nodes) && nodes <= old(nodes)
      reads `root, `nodes, `order, nodes
    {
      && nodes == old(nodes) - {z} && root == s && 0 <= old(z.pos) < |old(order)|
      && order == old(order)[..old(z.pos)] + old(order)[old(z.pos) + 1..]
      && (forall x: Node {:trigger x.Kid(Left)} {:trigger x.Kid(Right)} {:trigger x.parent} :: x in nodes ==>
            x.left == old(x.left) && x.right == old(x.right) && x.parent == old(x.parent))
      && (forall x: Node {:trigger x.pos} {:trigger x.lo} {:trigger x.hi} :: x in nodes ==>
            && x.pos == old(x.pos) - (if old(x.pos) > old(z.pos) then 1 else 0)
            && x.lo == old(x.lo) - (if old(x.lo) > old(z.pos) then 1 else 0)
            && x.hi == old(x.hi) - (if old(x.hi) > old(z.pos) then 1 else 0))
      && (forall x: Node {:trigger x.color} {:trigger x.height} :: x in nodes ==>
            && x.color == (if x == s then Black else old(x.color))
            && x.height == old(x.height) + (if x == s && old(x.color) == Red then 1 else 0))
    }

    twostate lemma UnrootAt(new z: Node, new s: Node, new n: Node)
      requires z in old(nodes) && nodes <= old(nodes) && old(Coloured()) && old(root) == z && (s == nil || s in old(nodes))
      requires old((z.left == nil && z.right == s) || (z.right == nil && z.left == s))
      requires Unrooted(z, s) && n in nodes
      ensures At(n)
    {
      assert old(At(z) && KidAt(z, Left) && KidAt(z, Right));
      assert old(At(n) && KidAt(n, Left) && KidAt(n, Right));
      assert old(n.left) != nil ==> old(At(n.left));
      assert old(n.right) != nil ==> old(At(n.right));
      assert KidAt(n, Left) && KidAt(n, Right);
    }

    twostate lemma UnrootShape(new z: Node, new s: Node)
      requires z in old(nodes) && nodes <= old(nodes) && old(Coloured()) && old(root) == z && (s == nil || s in old(nodes))
      requires old((z.left == nil && z.right == s) || (z.right == nil && z.left == s))
      requires Unrooted(z, s) && nil.color == Black && nil.height == 0
      ensures Coloured() && (s != nil ==> root.parent == z)
    {
      assert old(At(z) && KidAt(z, Left) && KidAt(z, Right));
      assert s != nil ==> old(At(s));
      forall n | n in nodes ensures At(n) { UnrootAt(z, s, n); }
      forall n, e | n in nodes ensures Edge(n, e, null, null, Left) {
        assert old(At(n) && KidAt(n, e) && Edge(n, e, null, null, Left));
      }
    }

    // Removes the root when it has at most one child.
    method DeleteRoot(z: Node, s: Node)
      requires z == root && z in nodes && 0 <= z.pos < |order| && s != z && (s == nil || s in nodes) && nil !in nodes
      modifies this`root, this`order, this`nodes, nodes`left, nodes`right, nodes`parent, nodes`color,
               nodes`pos, nodes`lo, nodes`hi, nodes`height, nil`color
      ensures nodes <= old(nodes) && Unrooted(z, s) && z.color == old(z.color)
      ensures nil.color == (if s == nil then Black else old(nil.color))
    {
      CloseGap(z, z);
      root := s;
      if s.color == Red && s != nil {
        s.height := s.height + 1;
      }
      s.color := Black;
      z.left, z.right, z.parent := null, null, null;
    }

    // Takes z out of the tree by way of t, which is not the root.
    method DeleteInner(z: Node, t: Node, s: Node, ghost d: Side)
      requires Removable(z, t, s, d)
      modifies this`root, this`order, this`nodes, nodes`left, nodes`right, nodes`parent, nodes`color,
               nodes`pos, nodes`lo, nodes`hi, nodes`height, nil`parent
      ensures Coloured() && nodes == old(nodes) - {z} && root != nil && root.parent == old(root.parent)
      ensures z.color == old(z.color)
      ensures 0 <= old(z.pos) < |old(order)| && order == old(order)[..old(z.pos)] + old(order)[old(z.pos) + 1..]
    {
      var isBlack := t.color == Black;
      if t == z {
        UnlinkSelf(z, s, d);
      } else {
        UnlinkSuccessor(z, t, s, d);
      }
      UnlinkDone(z, t, s, d);
      if isBlack {
        DeleteFixup(s);
      }
    }

    // The node that leaves its place when node is deleted, and the child that takes that place.
    method FindSplice(node: Node) returns (temp: Node, subst: Node)
      requires Shape() && node in nodes
      ensures temp in nodes && (subst == nil || subst in nodes) && subst != temp && 0 <= temp.pos < |order|
      ensures (temp.left == nil && temp.right == subst) || (temp.right == nil && temp.left == subst)
      ensures temp == node || (temp.pos == node.pos + 1 && temp.left == nil && node.left != nil && node.right != nil)
      ensures temp == root ==> temp == node
      ensures temp.parent != null && (temp != root ==> temp.parent in nodes && (temp.parent.left == temp || temp.parent.right == temp))
    {
      assert At(node) && KidAt(node, Left) && KidAt(node, Right);
      if node.left == nil {
        temp := node;
        subst := node.right;
      } else if node.right == nil {
        temp := node;
        subst := node.left;
      } else {
        var min, _ := SubtreeMin(node.right);
        temp := min;
        assert At(temp) && KidAt(temp, Left) && KidAt(temp, Right);
        var left, right := temp.left, temp.right;
        var below := if left != nil then left else right;
        subst := below;
      }
    }

    method DeleteNode(node: Node)
      requires Coloured() && node in nodes
      modifies this`root, this`order, this`nodes, nodes`left, nodes`right, nodes`parent, nodes`color,
               nodes`pos, nodes`lo, nodes`hi, nodes`height, nil`parent, nil`color
      ensures Coloured() && nodes == old(nodes) - {node} && node.color == old(node.color)
      ensures old(Anchored()) ==> Anchored()
      ensures old(Held()) ==> (Held() <==> root == nil || (root.parent != root && (root.parent == node ==> node.color == Black)))
      ensures root != nil ==>
        root.parent == if old(root) == node && old(node.left == nil || node.right == nil) then node else old(root.parent)
      ensures 0 <= old(node.pos) < |old(order)| && order == old(order)[..old(node.pos)] + old(order)[old(node.pos) + 1..]
    {
      var temp, subst := FindSplice(node);
      label Found:
      if temp == root {
        DeleteRoot(temp, subst);
        UnrootShape@Found(temp, subst);
      } else {
        ghost var d := if temp.parent.left == temp then Left else Right;
        DeleteInner(node, temp, subst, d);
      }
    }

    twostate lemma RemovalSorted(i: int)
      requires old(Sorted()) && 0 <= i < |old(order)| && order == old(order)[..i] + old(order)[i + 1..]
      requires forall n :: n in old(order) ==> n.key == old(n.key)
      ensures Sorted()
    {
      var before := old(order);
      assert forall j :: 0 <= j < |order| ==> order[j] == before[if j < i then j else j + 1] && order[j] in before;
    }

    // Deleting null or the sentinel does nothing; any other argument must be a node of the tree.  The parent of
    // the root does not matter to what happens below the root.
    method Delete(node: Node?)
      requires Tidy() && (node != null && node != nil ==> node in nodes)
      modifies this, nodes`left, nodes`right, nodes`parent, nodes`color,
               nodes`pos, nodes`lo, nodes`hi, nodes`height, nil`parent, nil`color
      ensures Tidy() && (old(Valid()) ==> Valid())
      ensures node != null && node != nil && old(Usable()) ==>
        (Usable() <==> root == nil || (root.parent != root && (root.parent == node ==> node.color == Black)))
      ensures root != nil ==>
        root.parent == if node != null && old(root) == node && old(node.left == nil || node.right == nil) then node else old(root.parent)
      ensures node == null || node == nil ==> order == old(order) && nodes == old(nodes)
      ensures node != null && node != nil ==>
        && nodes == old(nodes) - {node}
        && 0 <= old(node.pos) < |old(order)| && old(order)[old(node.pos)] == node
        && order == old(order)[..old(node.pos)] + old(order)[old(node.pos) + 1..]
    {
      if node == null || node == nil {
        return;
      }
      assert At(node);
      size := (size - 1) % TWO32;
      ghost var i := node.pos;
      DeleteNode(node);
      RemovalSorted(i);
      SizeStep(|order|);
    }

    // ---------- Searching ----------

    ghost function Keys(): (ks: seq<int>)
      reads this, order
      ensures |ks| == |order| && forall i :: 0 <= i < |ks| ==> ks[i] == order[i].key
    {
      seq(|order|, i requires 0 <= i < |order| reads this, order => order[i].key)
    }

    method Search(key: int) returns (r: Node?)
      requires Tidy()
      ensures r != null ==> r in nodes && r.key == key
      ensures r == null ==> forall n :: n in nodes ==> n.key != key
    {
      var node := root;
      ghost var lo, hi := 0, |order|;
      while node != nil
        invariant 0 <= lo <= hi <= |order|
        invariant if node == nil then lo == hi else node in nodes && node.lo == lo && node.hi == hi
        invariant forall i :: 0 <= i < lo ==> order[i].key < key
        invariant forall i :: hi <= i < |order| ==> key < order[i].key
        decreases hi - lo
      {
        assert At(node) && KidAt(node, Left) && KidAt(node, Right);
        if key < node.key {
          hi := node.pos;
          node := node.left;
        } else if key > node.key {
          lo := node.pos + 1;
          node := node.right;
        } else if node.key == key {
          return node;
        }
        assert node != nil ==> At(node);
      }
      forall n | n in nodes ensures n.key != key { assert At(n); }
      return null;
    }

    // The first node with a key of at least the given one; failing that the node with the least key, to which
    // a second walk leads.  The first walk takes at most 2 * log2(|order| + 1) steps, and so does the second.
    method Lookup(key: int) returns (r: Node?, ghost steps: nat)
      requires Tidy()
      ensures r == null <==> order == []
      ensures r != null ==> r == order[Successor(Keys(), key)]
      ensures steps == Walk(Plain(root), key) + (if FirstAtLeast(Keys(), key) < |order| then 0 else LeftMoves(Plain(root)))
      ensures FirstAtLeast(Keys(), key) < |order| ==> Pow2(steps) <= Square(|order| + 1)
      ensures Pow2(steps) <= Square(Square(|order| + 1))
    {
      hide Edges, Edge, Square, Walk, LeftMoves;
      steps := 0;
      if root == nil {
        EmptySteps(key);
        StepBounds(key);
        return null, 0;
      }
      var node: Node?;
      ghost var i;
      node, i, steps := LowerBound(key);
      if node != null {
        r := node;
      } else {
        ghost var more;
        MembersIn(root);
        r, more := SubtreeMin(root);
        assert At(r);
        steps := steps + more;
      }
      FirstAtLeastIs(Keys(), key, i);
      StepBounds(key);
    }

    method LowerBound(key: int) returns (node: Node?, ghost hi: int, ghost steps: nat)
      requires Shape() && Sorted() && root != nil
      ensures 0 <= hi <= |order| && (if node == null then hi == |order| else hi < |order| && node == order[hi])
      ensures (forall i :: 0 <= i < hi ==> order[i].key < key) && (forall i :: hi <= i < |order| ==> key <= order[i].key)
      ensures steps == Walk(Plain(root), key)
    {
      steps := 0;
      node := null;
      var temp := root;
      ghost var lo;
      lo, hi := 0, |order|;
      while temp != nil
        invariant 0 <= lo <= hi <= |order|
        invariant if temp == nil then lo == hi else temp in nodes && temp.lo == lo && temp.hi == hi
        invariant forall i :: 0 <= i < lo ==> order[i].key < key
        invariant forall i :: hi <= i < |order| ==> key <= order[i].key
        invariant if node == null then hi == |order| else hi < |order| && node == order[hi]
        invariant steps + Walk(Plain(temp), key) == Walk(Plain(root), key)
        decreases hi - lo
      {
        assert At(temp) && KidAt(temp, Left) && KidAt(temp, Right);
        if key <= temp.key {
          node := temp;
          hi := temp.pos;
          temp := temp.left;
        } else if key > temp.key {
          lo := temp.pos + 1;
          temp := temp.right;
        }
        steps := steps + 1;
        assert temp != nil ==> At(temp);
      }
    }

    lemma MembersIn(n: Node)
      requires Shape() && (n == nil || n in nodes)
      ensures Members(Plain(n)) <= nodes
      decreases if n == nil then 0 else n.hi - n.lo
    {
      if n != nil {
        assert At(n) && KidAt(n, Left) && KidAt(n, Right);
        assert n.left != nil ==> At(n.left);
        assert n.right != nil ==> At(n.right);
        MembersIn(n.left);
        MembersIn(n.right);
      }
    }

    lemma EmptySteps(key: int)
      requires Shape() && root == nil
      ensures order == [] && Walk(Plain(root), key) == 0 && LeftMoves(Plain(root)) == 0
    {
    }

    lemma StepBounds(key: int)
      requires Coloured()
      ensures var (walk, left) := (Walk(Plain(root), key), LeftMoves(Plain(root)));
        Pow2(walk) <= Square(|order| + 1) <= Square(Square(|order| + 1)) && Pow2(walk + left) <= Square(Square(|order| + 1))
    {
      var (walk, left) := (Walk(Plain(root), key), LeftMoves(Plain(root)));
      var n := |order| + 1;
      SizeBound(root);
      WalkBound(root, key);
      LeftBound(root);
      SquareBound(walk, root.height, n);
      SquareBound(left, root.height, n);
      Pow2Sum(walk, left);
      MulMonotonic(Pow2(walk), Pow2(left), Square(n), Square(n));
      MulMonotonic(1, 1, n, n);
      MulMonotonic(1, Square(n), Square(n), Square(n));
    }

    lemma WalkBound(n: Node, key: int)
      requires Coloured() && (n == nil || n in nodes)
      ensures Walk(Plain(n), key) <= Depth(n)
      decreases if n == nil then 0 else n.hi - n.lo
    {
      if n != nil {
        assert At(n) && KidAt(n, Left) && KidAt(n, Right);
        assert Edge(n, Left, null, null, Left) && Edge(n, Right, null, null, Left);
        var c := if key <= n.key then n.left else n.right;
        assert c != nil ==> At(c);
        WalkBound(c, key);
      }
    }

    lemma LeftBound(n: Node)
      requires Coloured() && (n == nil || n in nodes)
      ensures LeftMoves(Plain(n)) <= Depth(n) && (n != nil ==> LeftMoves(Plain(n)) < Depth(n))
      decreases if n == nil then 0 else n.hi - n.lo
    {
      if n != nil {
        assert At(n) && KidAt(n, Left) && KidAt(n, Right);
        assert Edge(n, Left, null, null, Left) && Edge(n, Right, null, null, Left);
        assert n.left != nil ==> At(n.left);
        LeftBound(n.left);
        SizeBound(n);
      }
    }

    // The longest path below n, by the colours alone.
    ghost function Depth(n: Node): int
      reads n
    {
      2 * n.height + (if n.color == Red then 1 else 0)
    }

    // A subtree of black height h has at least 2^h - 1 nodes.
    lemma SizeBound(n: Node)
      requires Coloured() && (n == nil || n in nodes)
      ensures n.height >= 0 && Pow2(n.height) <= (if n == nil then 0 else n.hi - n.lo) + 1
      decreases if n == nil then 0 else n.hi - n.lo
    {
      if n != nil {
        assert At(n) && KidAt(n, Left) && KidAt(n, Right);
        assert Edge(n, Left, null, null, Left) && Edge(n, Right, null, null, Left);
        assert n.left != nil ==> At(n.left);
        assert n.right != nil ==> At(n.right);
        SizeBound(n.left);
        SizeBound(n.right);
      }
    }

    // ---------- The textbook reading of the invariants ----------

    // The tree below n as a value.
    ghost function Plain(n: Node): Plain
      requires Shape() && (n == nil || n in nodes)
      reads `root, `nodes, `order, nodes, nil, root, root.parent
      decreases if n == nil then 0 else n.hi - n.lo
    {
      if n == nil then Leaf else
        assert At(n) && KidAt(n, Left) && KidAt(n, Right);
        assert n.left != nil ==> At(n.left);
        assert n.right != nil ==> At(n.right);
        Fork(Plain(n.left), n, n.color, Plain(n.right))
    }

    // The subtree of n covers the indices lo..hi.
    lemma PlainOrder(n: Node, lo: nat, hi: nat)
      requires Shape() && lo <= hi <= |order| && (if n == nil then lo == hi else n in nodes && n.lo == lo && n.hi == hi)
      ensures InOrder(Plain(n)) == order[lo..hi]
      decreases hi - lo
    {
      if n != nil {
        assert At(n) && KidAt(n, Left) && KidAt(n, Right);
        assert n.left != nil ==> At(n.left);
        assert n.right != nil ==> At(n.right);
        PlainOrder(n.left, lo, n.pos);
        PlainOrder(n.right, n.pos + 1, hi);
        SliceSplit(order, lo, n.pos, hi);
      }
    }

    // The edges below the nodes at indices lo..hi are right.
    ghost predicate EdgesWithin(lo: int, hi: int)
      reads `root, `nodes, `order, nodes, nil
    {
      forall m, e {:trigger Edge(m, e, null, null, Left)} :: m in nodes && lo <= m.pos < hi ==> Edge(m, e, null, null, Left)
    }

    lemma PlainColors(n: Node)
      requires Shape() && (n == nil || (n in nodes && EdgesWithin(n.lo, n.hi)))
      ensures var t := Plain(n); Balanced(t) && NoRedRed(t) && BlackHeight(t) == n.height
      decreases if n == nil then 0 else n.hi - n.lo
    {
      if n != nil {
        assert At(n) && KidAt(n, Left) && KidAt(n, Right);
        assert Edge(n, Left, null, null, Left) && Edge(n, Right, null, null, Left);
        assert n.left != nil ==> At(n.left);
        assert n.right != nil ==> At(n.right);
        PlainColors(n.left);
        PlainColors(n.right);
      }
    }

    // ---------- A root that is its own parent ----------

    twostate lemma OwnParentSpoils(new r: Node, new rc: Node)
      requires {r, rc} <= old(nodes) && old(InsertInv(r)) && r == old(root) && rc == old(r.right) && rc != nil && r in nodes
      requires Rotated(r, Left) && unchanged(nodes`color) && unchanged(nodes`height) && unchanged(nil)
      ensures Shape() && !Balanced(Plain(root))
    {
      assert old(At(r) && KidAt(r, Left) && KidAt(r, Right) && At(rc) && KidAt(rc, Left));
      assert old(Edge(r, Left, r, null, Left) && Edge(r, Right, r, null, Left) && Edge(rc, Left, r, null, Left));
      RotateShape(r, Left);
      forall m, e | m in nodes && m != r && m != rc ensures Edge(m, e, null, null, Left) {
        assert old(At(m) && KidAt(m, e) && Edge(m, e, r, null, Left));
      }
      assert At(r) && KidAt(r, Left) && KidAt(r, Right) && At(rc) && KidAt(rc, Left);
      assert r.left != nil ==> At(r.left);
      assert r.right != nil ==> At(r.right);
      PlainColors(r.left);
      PlainColors(r.right);
    }

    lemma RightOfRoot()
      requires InsertInv(root) && root.right != nil
      ensures root.right != null && root.right in nodes && root.right.color == Black && root.right != root
    {
      assert At(root) && KidAt(root, Right) && Edge(root, Right, root, null, Left);
      assert root.End(Right) == root.hi;
      assert At(root.right);
    }

    // When the insertion fixup reaches a red root that is its own parent, it rotates that root, and the black
    // heights come out unequal.
    method OwnParentRound()
      requires InsertInv(root) && root.parent == root && root.right != nil
      modifies this`root, nodes`left, nodes`right, nodes`parent, nodes`lo, nodes`hi, nodes`color
      ensures Shape() && !Balanced(Plain(root)) && root in nodes && root.color == Black && old(root).parent == root
    {
      var node := root;
      var p := node.parent;
      assert At(node) && KidAt(node, Left) && KidAt(node, Right) && Edge(node, Left, node, null, Left);
      ghost var rc := node.right;
      RightOfRoot();
      assert p != p.parent.left && p.parent.left.color == Black && p.left != node;
      p.color := Black;
      p.parent.color := Red;
      ShapeTurnable(node, Left);
      LeftRotate(p.parent);
      TurnedRotated(node, rc, old(rc.left), Left);
      OwnParentSpoils(node, rc);
    }

    // A valid tree is a red-black search tree in the textbook sense, and order is its traversal.
    lemma ValidIsRedBlack()
      requires Tidy()
      ensures var t := Plain(root);
        && InOrder(t) == order && (forall i, j :: 0 <= i < j < |order| ==> order[i].key <= order[j].key)
        && Balanced(t) && NoRedRed(t) && (t.Fork? ==> t.color == Black)
      // Every path to a leaf meets as many black nodes, and no red node on it is followed by a red one.
      ensures var t := Plain(root);
        forall path: seq<Side> :: Under(t, path).Leaf? ==>
          |Path(t, path)| <= |path| && Blacks(Path(t, path)) == BlackHeight(t)
          && forall i :: 0 <= i < |Path(t, path)| - 1 ==> Path(t, path)[i] == Black || Path(t, path)[i + 1] == Black
    {
      PlainOrder(root, 0, |order|);
      PlainColors(root);
      forall path: seq<Side> | Under(Plain(root), path).Leaf? {
        PathColors(Plain(root), path);
      }
      assert order[0..|order|] == order;
    }
  }

  lemma RootOfTwo(tree: Tree)
    requires tree.Shape() && |tree.order| == 2
    ensures tree.root in tree.nodes && (tree.root.left == tree.nil || tree.root.right == tree.nil)
  {
    var root := tree.root;
    assert tree.At(root) && tree.KidAt(root, Left) && tree.KidAt(root, Right);
    var (l, r) := (root.left, root.right);
    assert l != tree.nil ==> tree.At(l) && l.End(Left) == l.lo && l.End(Right) == l.hi;
    assert r != tree.nil ==> tree.At(r) && r.End(Left) == r.lo && r.End(Right) == r.hi;
  }

  method TwoNodes(k0: int, k1: int) returns (tree: Tree)
    ensures tree.Valid() && |tree.order| == 2
    ensures fresh(tree) && fresh(tree.nil) && fresh(tree.nodes)
  {
    hide Tree.Shape, Tree.Edges, Tree.Sorted;
    tree := new Tree();
    var n0 := new Node(k0, null);
    tree.ValidUsable();
    ghost var p := tree.Insert(n0);
    tree.ValidUsable();
    var n1 := new Node(k1, null);
    p := tree.Insert(n1);
  }

  /**
   A run to the one argument that costs Insert the invariant: the root of a tree of two nodes is
   deleted, which leaves it as the parent of the new root r, and inserted again under a larger key.
   */
  method ReinsertRoot(k0: int, k1: int) returns (tree: Tree, r: Node, a: Node)
    ensures tree.Usable() && !tree.Valid()
    ensures tree.order == [r, a] && tree.nodes == {r, a} && tree.root == r && r.parent == a && a.key == r.key + 1
    ensures fresh(tree) && fresh(tree.nil) && fresh(r) && fresh(a)
  {
    tree := TwoNodes(k0, k1);
    a := tree.root;
    RootOfTwo(tree);
    tree.Delete(a);
    r := tree.root;
    assert tree.Valid() && a !in tree.nodes && r.parent == a && r in tree.nodes;
    RootOfOne(tree);
    a.key := r.key + 1;
    ghost var p := tree.Insert(a);
    assert tree.order[1 - p] == r;
  }

  lemma RootOfOne(tree: Tree)
    requires tree.Shape() && |tree.order| == 1
    ensures tree.order == [tree.root] && tree.nodes == {tree.root}
  {
    assert tree.At(tree.root);
    forall n | n in tree.nodes ensures n == tree.root { assert tree.At(n); }
  }

  // The next leaf to the right makes the root its own parent.
  method AttachThird(tree: Tree, r: Node, a: Node) returns (c: Node)
    requires tree.Coloured() && tree.Sorted() && tree.order == [r, a] && tree.nodes == {r, a}
    requires tree.root == r && r.parent == a && r.key < a.key
    modifies tree, r, a
    ensures tree.Coloured() && tree.Sorted() && tree.order == [r, a, c] && tree.nodes == {r, a, c}
    ensures tree.root == a && a.parent == a && r.color == Red && c.color == Red && fresh(c)
    ensures r.key == old(r.key)
  {
    TwoInARow(tree, r, a);
    c := new Node(a.key, null);
    ghost var p := tree.Attach(c);
    assert old(tree.order)[1] == a;
    assert tree.order == [r, a, c];
    ThreeInARow(tree, r, a, c);
    tree.RedAboveFacts(c, Right);
    tree.RedPairTwistable(c, a, r, Right);
    tree.TwistLeft(r, c, null, Left);
  }

  lemma TwoInARow(tree: Tree, r: Node, a: Node)
    requires tree.Coloured() && tree.order == [r, a] && tree.nodes == {r, a} && tree.root == r
    ensures a.color == Red && r != a
  {
    assert tree.At(r) && tree.At(a) && tree.KidAt(r, Left) && tree.KidAt(r, Right) && tree.KidAt(a, Left) && tree.KidAt(a, Right);
    assert tree.Edge(r, Left, null, null, Left) && tree.Edge(r, Right, null, null, Left);
    assert tree.Edge(a, Left, null, null, Left);
  }

  lemma ThreeInARow(tree: Tree, r: Node, a: Node, c: Node)
    requires tree.InsertInv(c) && r.color == Black && tree.order == [r, a, c] && tree.nodes == {r, a, c} && tree.root == r && a.color == Red
    requires c.left == tree.nil && c.right == tree.nil
    ensures tree.RedAbove(c, Right) && c.parent == a && a.parent == r && a.right == c && r.left == tree.nil
  {
    assert tree.At(r) && tree.At(a) && tree.At(c);
    assert tree.KidAt(r, Left) && tree.KidAt(r, Right) && tree.KidAt(a, Left) && tree.KidAt(a, Right);
    assert tree.KidAt(c, Left) && tree.KidAt(c, Right);
  }

  // The round at the fourth leaf: the uncle is red.
  method RecolourFourth(tree: Tree, d: Node, r: Node, a: Node, c: Node)
    requires tree.InsertInv(d) && tree.RedAbove(d, Left) && d.parent == r && r.parent == a && a.left == r && a.right == c
    requires c != tree.nil && c.color == Red && tree.root == a && a.parent == a
    modifies r, a, c
    ensures tree.InsertInv(a) && a.parent == a && a.right == c
  {
    hide Tree.Edges, Tree.At, Tree.OrderOk;
    tree.RedAboveFacts(d, Left);
    label Before:
    c.color := Black;
    r.color := Black;
    a.color := Red;
    c.height, r.height := c.height + 1, r.height + 1;
    tree.InsertRecolour@Before(d, r, a, c, Left);
  }

  // The next leaf to the left recolours up to that root.
  method AttachFourth(tree: Tree, r: Node, a: Node, c: Node)
    requires tree.Coloured() && tree.Sorted() && tree.order == [r, a, c] && tree.nodes == {r, a, c}
    requires tree.root == a && a.parent == a && r.color == Red && c.color == Red
    modifies tree, r, a, c
    ensures tree.InsertInv(a) && tree.root == a && a.parent == a && a.right == c && c != tree.nil
    ensures fresh(tree.nodes - old(tree.nodes))
  {
    hide Tree.Edges, Tree.At, Tree.OrderOk;
    var d := new Node(r.key - 1, null);
    ghost var p := tree.Attach(d);
    assert old(tree.order)[0] == r;
    assert tree.order == [d, r, a, c];
    FourInARow(tree, d, r, a, c);
    RecolourFourth(tree, d, r, a, c);
  }

  lemma FourInARow(tree: Tree, d: Node, r: Node, a: Node, c: Node)
    requires tree.InsertInv(d) && a.color == Black && tree.order == [d, r, a, c] && tree.nodes == {d, r, a, c} && tree.root == a
    requires d.left == tree.nil && d.right == tree.nil && r.color == Red && c.color == Red
    ensures tree.RedAbove(d, Left) && d.parent == r && r.parent == a && a.left == r && a.right == c && c != tree.nil
  {
    assert tree.At(d) && tree.At(r) && tree.At(a) && tree.At(c);
    assert tree.KidAt(r, Left) && tree.KidAt(r, Right) && tree.KidAt(a, Left) && tree.KidAt(a, Right);
    assert tree.KidAt(c, Left) && tree.KidAt(c, Right) && tree.KidAt(d, Left) && tree.KidAt(d, Right);
    assert a.left != tree.nil && a.right != tree.nil;
    assert tree.At(a.left) && tree.At(a.right);
  }

  /**
   What losing the invariant leads to: two insertions later the black heights are unequal.  The
   insertions are followed step by step, as the loop makes them.
   */
  method UnbalancedRun(k0: int, k1: int) returns (tree: Tree)
    ensures tree.Shape() && !Balanced(tree.Plain(tree.root))
  {
    var r, a;
    tree, r, a := ReinsertRoot(k0, k1);
    var c := AttachThird(tree, r, a);
    AttachFourth(tree, r, a, c);
    tree.OwnParentRound();
  }

  datatype Plain = Leaf | Fork(left: Plain, node: Node, color: Color, right: Plain)

  ghost function InOrder(t: Plain): seq<Node> {
    if t.Leaf? then [] else InOrder(t.left) + [t.node] + InOrder(t.right)
  }

  lemma SliceSplit(s: seq<Node>, lo: nat, p: nat, hi: nat)
    requires lo <= p < hi <= |s|
    ensures s[lo..hi] == s[lo..p] + [s[p]] + s[p + 1..hi]
  {
  }

  // The black nodes on the leftmost path.
  ghost function BlackHeight(t: Plain): nat {
    if t.Leaf? then 0 else BlackHeight(t.left) + (if t.color == Black then 1 else 0)
  }

  // Every path down from a node meets the same number of black nodes.
  ghost predicate Balanced(t: Plain) {
    t.Fork? ==> Balanced(t.left) && Balanced(t.right) && BlackHeight(t.left) == BlackHeight(t.right)
  }

  ghost predicate IsRed(t: Plain) { t.Fork? && t.color == Red }

  ghost predicate NoRedRed(t: Plain) {
    t.Fork? ==> NoRedRed(t.left) && NoRedRed(t.right) && (IsRed(t) ==> !IsRed(t.left) && !IsRed(t.right))
  }

  // The end of a path from the top, and the colours of the nodes on it.
  ghost function Under(t: Plain, path: seq<Side>): Plain {
    if t.Leaf? || path == [] then t else Under(if path[0] == Left then t.left else t.right, path[1..])
  }

  ghost function Path(t: Plain, path: seq<Side>): seq<Color> {
    if t.Leaf? || path == [] then [] else [t.color] + Path(if path[0] == Left then t.left else t.right, path[1..])
  }

  ghost function Blacks(colors: seq<Color>): nat {
    if colors == [] then 0 else (if colors[0] == Black then 1 else 0) + Blacks(colors[1..])
  }

  lemma {:induction false} PathColors(t: Plain, path: seq<Side>)
    requires Balanced(t) && NoRedRed(t) && Under(t, path).Leaf?
    ensures var cs := Path(t, path);
      && |cs| <= |path| && Blacks(cs) == BlackHeight(t) && (cs != [] ==> t.Fork? && cs[0] == t.color)
      && forall i :: 0 <= i < |cs| - 1 ==> cs[i] == Black || cs[i + 1] == Black
    decreases |path|
  {
    if t.Fork? {
      var kid := if path[0] == Left then t.left else t.right;
      PathColors(kid, path[1..]);
      var cs := Path(t, path);
      assert cs[1..] == Path(kid, path[1..]);
      assert forall i :: 0 < i < |cs| ==> cs[i] == cs[1..][i - 1];
    }
  }

  ghost function Members(t: Plain): set<Node> {
    if t.Leaf? then {} else Members(t.left) + {t.node} + Members(t.right)
  }

  // The nodes compared with key on the way down.
  ghost function Walk(t: Plain, key: int): nat
    reads Members(t)
    decreases t
  {
    if t.Leaf? then 0 else 1 + Walk(if key <= t.node.key then t.left else t.right, key)
  }

  // The moves from the top to the first node in order.
  ghost function LeftMoves(t: Plain): nat {
    if t.Leaf? || t.left.Leaf? then 0 else 1 + LeftMoves(t.left)
  }

  ghost function Single(n: Node, color: Color): Plain {
    Fork(Leaf, n, color, Leaf)
  }

  // A red-black tree of nine nodes.
  ghost function Nine(n: seq<Node>): Plain
    requires |n| == 9
  {
    Fork(Fork(Fork(Single(n[0], Red), n[1], Black, Leaf), n[2], Red, Single(n[3], Black)), n[4], Black,
         Fork(Single(n[5], Black), n[6], Red, Fork(Leaf, n[7], Black, Single(n[8], Red))))
  }

  lemma SingleFacts(n: Node, color: Color)
    ensures var t := Single(n, color);
      InOrder(t) == [n] && BlackHeight(t) == (if color == Black then 1 else 0) && Balanced(t) && NoRedRed(t)
  {
    assert InOrder(Leaf) == [] && BlackHeight(Leaf) == 0 && Balanced(Leaf) && NoRedRed(Leaf);
  }

  // One walk would be at most 2 * log2(9 + 1) steps, but no key is large enough for 9, and both walks together
  // take seven.
  lemma NineNodes(n: seq<Node>)
    requires |n| == 9 && forall i :: 0 <= i < 9 ==> n[i].key == i
    ensures var t := Nine(n);
      && InOrder(t) == n && Balanced(t) && NoRedRed(t) && t.color == Black
      && Walk(t, 9) + LeftMoves(t) == 7 && Pow2(7) > Square(|n| + 1)
  {
    var (t, a, b) := (Nine(n), Nine(n).left, Nine(n).right);
    var (c, d) := (a.left, b.right);
    SingleFacts(n[0], Red);
    SingleFacts(n[3], Black);
    SingleFacts(n[5], Black);
    SingleFacts(n[8], Red);
    assert InOrder(c) == [n[0], n[1]] && InOrder(d) == [n[7], n[8]];
    assert InOrder(a) == [n[0], n[1], n[2], n[3]] && InOrder(b) == [n[5], n[6], n[7], n[8]];
    assert BlackHeight(Leaf) == 0 && Balanced(Leaf) && NoRedRed(Leaf) && Walk(Leaf, 9) == 0;
    assert BlackHeight(c) == 1 && BlackHeight(d) == 1 && Balanced(c) && Balanced(d) && NoRedRed(c) && NoRedRed(d);
    assert BlackHeight(a) == 1 && BlackHeight(b) == 1 && Balanced(a) && Balanced(b) && NoRedRed(a) && NoRedRed(b);
    assert Walk(d.right, 9) == 1 && Walk(d, 9) == 2 && Walk(b, 9) == 3 && Walk(t, 9) == 4;
    assert LeftMoves(c) == 1 && LeftMoves(a) == 2;
    assert Pow2(3) == 8 && Pow2(7) == 128;
  }

  function Square(n: nat): nat { n * n }

  lemma Pow2Sum(a: nat, b: nat)
    ensures Pow2(a + b) == Pow2(a) * Pow2(b)
  {
    if a > 0 {
      Pow2Sum(a - 1, b);
    }
  }

  lemma SquareBound(steps: nat, h: nat, n: nat)
    requires steps <= 2 * h && Pow2(h) <= n
    ensures Pow2(steps) <= Square(n)
  {
    Pow2Sum(steps, 2 * h - steps);
    Pow2Sum(h, h);
    var a, b, c := Pow2(steps), Pow2(2 * h - steps), Pow2(h);
    assert a * b == c * c;
    MulMonotonic(a, 1, a, b);
    MulMonotonic(c, c, n, n);
  }

  lemma MulMonotonic(a: nat, b: nat, c: nat, d: nat)
    requires a <= c && b <= d
    ensures a * b <= c * d
  {
    assert a * b <= c * b <= c * d;
  }

  /** The index of the first key that is at least key, or 0 when there is none: the ring successor. */
  function Successor(ks: seq<int>, key: int): (i: nat) {
    var f := FirstAtLeast(ks, key);
    if f < |ks| then f else 0
  }

  function FirstAtLeast(ks: seq<int>, key: int): (i: nat)
    ensures i <= |ks| && (i < |ks| ==> key <= ks[i]) && forall j :: 0 <= j < i ==> ks[j] < key
  {
    if ks == [] || key <= ks[0] then 0 else 1 + FirstAtLeast(ks[1..], key)
  }

  lemma FirstAtLeastIs(ks: seq<int>, key: int, i: nat)
    requires i <= |ks| && (i < |ks| ==> key <= ks[i]) && forall j :: 0 <= j < i ==> ks[j] < key
    ensures FirstAtLeast(ks, key) == i
  {
  }
}
