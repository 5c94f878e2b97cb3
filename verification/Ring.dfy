/**
 The consistent-hash ring as a map from hash values to the servers that own them.
 S stands for the servers.
 */
module Ring {

  // k is the first key met when walking up from h, going round past the largest key if need be.
  ghost predicate IsSuccessor(keys: set<int>, h: int, k: int) {
    && k in keys
    && if exists j :: j in keys && h <= j then h <= k && forall j :: j in keys && h <= j ==> k <= j
       else forall j :: j in keys ==> k <= j
  }

  lemma {:induction false} LeastAtLeast(keys: set<int>, h: int, j: int) returns (k: int)
    requires j in keys && h <= j
    ensures k in keys && h <= k && forall i :: i in keys && h <= i ==> k <= i
    decreases j - h
  {
    if i :| i in keys && h <= i < j {
      k := LeastAtLeast(keys, h, i);
    } else {
      k := j;
    }
  }

  lemma Pick<T>(s: set<T>) returns (x: T)
    requires s != {}
    ensures x in s
  {
    x :| x in s;
  }

  lemma LeastBelow(keys: set<int>) returns (h: int)
    ensures forall i :: i in keys ==> h <= i
  {
    if keys == {} {
      h := 0;
    } else {
      var j := Pick(keys);
      h := LeastBelow(keys - {j});
      h := if j < h then j else h;
      assert forall i :: i in keys ==> i == j || i in keys - {j};
    }
  }

  // Every non-empty ring has exactly one successor for every hash value.
  lemma SuccessorExists(keys: set<int>, h: int)
    requires keys != {}
    ensures exists k :: IsSuccessor(keys, h, k) && forall k' :: IsSuccessor(keys, h, k') ==> k' == k
  {
    var j := Pick(keys);
    var k;
    if i :| i in keys && h <= i {
      k := LeastAtLeast(keys, h, i);
    } else {
      var low := LeastBelow(keys);
      k := LeastAtLeast(keys, low, j);
    }
    assert IsSuccessor(keys, h, k);
  }

  ghost function Owner<S>(ring: map<int, S>, h: int): S
    requires ring != map[]
  {
    assert ring.Keys != {};
    SuccessorExists(ring.Keys, h);
    var k :| IsSuccessor(ring.Keys, h, k);
    ring[k]
  }

  lemma OwnerIs<S>(ring: map<int, S>, h: int, k: int)
    requires IsSuccessor(ring.Keys, h, k)
    ensures ring != map[] && Owner(ring, h) == ring[k]
  {
    SuccessorExists(ring.Keys, h);
  }

  // One virtual node is added unless its hash value is taken.
  function AddOne<S>(ring: map<int, S>, h: int, s: S): map<int, S> {
    if h in ring then ring else ring[h := s]
  }

  function AddAll<S>(ring: map<int, S>, hs: seq<int>, s: S): map<int, S> {
    if hs == [] then ring else AddOne(AddAll(ring, hs[..|hs| - 1], s), hs[|hs| - 1], s)
  }

  // One virtual node is deleted if it belongs to s.
  function DelOne<S(==)>(ring: map<int, S>, h: int, s: S): map<int, S> {
    if h in ring && ring[h] == s then ring - {h} else ring
  }

  function DelAll<S(==)>(ring: map<int, S>, hs: seq<int>, s: S): map<int, S> {
    if hs == [] then ring else DelOne(DelAll(ring, hs[..|hs| - 1], s), hs[|hs| - 1], s)
  }

  lemma AddAllStep<S>(ring: map<int, S>, hs: seq<int>, i: nat, s: S)
    requires i < |hs|
    ensures AddAll(ring, hs[..i + 1], s) == AddOne(AddAll(ring, hs[..i], s), hs[i], s)
  {
    assert hs[..i + 1][..i] == hs[..i];
  }

  lemma DelAllStep<S>(ring: map<int, S>, hs: seq<int>, i: nat, s: S)
    requires i < |hs|
    ensures DelAll(ring, hs[..i + 1], s) == DelOne(DelAll(ring, hs[..i], s), hs[i], s)
  {
    assert hs[..i + 1][..i] == hs[..i];
  }

  lemma {:induction false} AddAllIs<S>(ring: map<int, S>, hs: seq<int>, s: S)
    ensures AddAll(ring, hs, s) == map k | k in ring.Keys + (set h | h in hs) :: if k in ring then ring[k] else s
  {
    if hs != [] {
      var init := hs[..|hs| - 1];
      AddAllIs(ring, init, s);
      assert hs == init + [hs[|hs| - 1]];
    }
  }

  lemma {:induction false} DelAllIs<S>(ring: map<int, S>, hs: seq<int>, s: S)
    ensures DelAll(ring, hs, s) == map k | k in ring && !(k in hs && ring[k] == s) :: ring[k]
  {
    if hs != [] {
      var init := hs[..|hs| - 1];
      DelAllIs(ring, init, s);
      assert hs == init + [hs[|hs| - 1]];
    }
  }

  // ---------- Consistent hashing disturbs as little as possible ----------

  lemma AddDisturbs<S>(ring: map<int, S>, hs: seq<int>, s: S, h: int)
    requires ring != map[]
    ensures var after := AddAll(ring, hs, s);
      after != map[] && (Owner(after, h) == Owner(ring, h) || Owner(after, h) == s)
  {
    var after := AddAll(ring, hs, s);
    AddAllIs(ring, hs, s);
    assert ring.Keys != {};
    SuccessorExists(ring.Keys, h);
    var k :| IsSuccessor(ring.Keys, h, k);
    assert k in after;
    SuccessorExists(after.Keys, h);
    var k' :| IsSuccessor(after.Keys, h, k');
    OwnerIs(ring, h, k);
    OwnerIs(after, h, k');
    if k' in ring {
      assert IsSuccessor(ring.Keys, h, k');
    }
  }

  lemma DelDisturbs<S>(ring: map<int, S>, hs: seq<int>, s: S, h: int)
    requires ring != map[] && Owner(ring, h) != s
    ensures var after := DelAll(ring, hs, s);
      after != map[] && Owner(after, h) == Owner(ring, h)
  {
    DelAllIs(ring, hs, s);
    assert ring.Keys != {};
    SuccessorExists(ring.Keys, h);
    var k :| IsSuccessor(ring.Keys, h, k);
    OwnerIs(ring, h, k);
    assert IsSuccessor(DelAll(ring, hs, s).Keys, h, k);
    OwnerIs(DelAll(ring, hs, s), h, k);
  }

  // ---------- Adding and deleting ----------

  // Deleting a server that was absent before it was added restores the ring, whatever hash values collide.
  lemma AddThenDel<S>(ring: map<int, S>, hs: seq<int>, s: S)
    requires s !in ring.Values
    ensures DelAll(AddAll(ring, hs, s), hs, s) == ring
  {
    AddAllIs(ring, hs, s);
    DelAllIs(AddAll(ring, hs, s), hs, s);
  }

  // All virtual nodes of s sit at hash values listed in hs.
  ghost predicate Within<S>(ring: map<int, S>, hs: seq<int>, s: S) {
    forall k :: k in ring && ring[k] == s ==> k in hs
  }

  // After the deletion no virtual node points to s, exactly if all of them sat at the listed hash values.
  lemma DelClears<S>(ring: map<int, S>, hs: seq<int>, s: S)
    ensures s !in DelAll(ring, hs, s).Values <==> Within(ring, hs, s)
  {
    DelAllIs(ring, hs, s);
    var after := DelAll(ring, hs, s);
    if k :| k in ring && ring[k] == s && k !in hs {
      assert k in after && after[k] == s;
      assert s in after.Values;
    } else {
      assert forall k :: k in after ==> after[k] != s;
    }
  }

  // A run adds absent servers and deletes present ones; the hash values of a server never change.
  datatype Step<S> = Add(s: S) | Del(s: S)

  datatype Config<S> = Config(ring: map<int, S>, members: set<S>)

  ghost function Apply<S>(c: Config<S>, t: Step<S>, hs: S -> seq<int>): Config<S> {
    match t
    case Add(s) => if s in c.members then c else Config(AddAll(c.ring, hs(s), s), c.members + {s})
    case Del(s) => if s !in c.members then c else Config(DelAll(c.ring, hs(s), s), c.members - {s})
  }

  ghost function Run<S>(steps: seq<Step<S>>, hs: S -> seq<int>): Config<S> {
    if steps == [] then Config(map[], {}) else
      Apply(Run(steps[..|steps| - 1], hs), steps[|steps| - 1], hs)
  }

  lemma RunNothing<S>(steps: seq<Step<S>>, hs: S -> seq<int>)
    ensures Run(steps[..0], hs) == Config(map[], {})
  {
  }

  lemma RunStep<S>(steps: seq<Step<S>>, hs: S -> seq<int>, i: nat)
    requires i < |steps|
    ensures Run(steps[..i + 1], hs) == Apply(Run(steps[..i], hs), steps[i], hs)
  {
    assert steps[..i + 1][..i] == steps[..i];
  }

  // The virtual nodes belong to members and sit at hash values of their owner.
  ghost predicate Tidy<S>(c: Config<S>, hs: S -> seq<int>) {
    forall k :: k in c.ring ==> c.ring[k] in c.members && k in hs(c.ring[k])
  }

  lemma TidyAdd<S>(c: Config<S>, hs: S -> seq<int>, s: S)
    requires Tidy(c, hs)
    ensures Tidy(Config(AddAll(c.ring, hs(s), s), c.members + {s}), hs)
  {
    AddAllIs(c.ring, hs(s), s);
  }

  lemma TidyDel<S>(c: Config<S>, hs: S -> seq<int>, s: S)
    requires Tidy(c, hs)
    ensures Tidy(Config(DelAll(c.ring, hs(s), s), c.members - {s}), hs)
  {
    DelAllIs(c.ring, hs(s), s);
  }

  lemma {:induction false} RunInvariant<S>(steps: seq<Step<S>>, hs: S -> seq<int>)
    ensures Tidy(Run(steps, hs), hs)
  {
    if steps != [] {
      var init := steps[..|steps| - 1];
      RunInvariant(init, hs);
      match steps[|steps| - 1] {
        case Add(s) => TidyAdd(Run(init, hs), hs, s);
        case Del(s) => TidyDel(Run(init, hs), hs, s);
      }
    }
  }

  // So after any run, adding an absent server and deleting it again changes nothing.
  lemma RunRoundTrip<S>(steps: seq<Step<S>>, hs: S -> seq<int>, s: S)
    requires s !in Run(steps, hs).members
    ensures Run(steps + [Add(s), Del(s)], hs) == Run(steps, hs)
  {
    RunInvariant(steps, hs);
    var c := Run(steps, hs);
    assert forall k :: k in c.ring ==> c.ring[k] != s;
    AddThenDel(c.ring, hs(s), s);
    assert (steps + [Add(s), Del(s)])[..|steps| + 1] == steps + [Add(s)];
    assert (steps + [Add(s)])[..|steps|] == steps;
    assert c.members + {s} - {s} == c.members;
  }
}
