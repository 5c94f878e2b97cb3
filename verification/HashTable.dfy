/** A chained hash table whose chains are kept sorted by key. */
module HashTable {
  import opened Bytes

  // strcmp on two C strings: negative, zero or positive.
  function Compare(a: bytes, b: bytes): int {
    if a == [] && b == [] then 0
    else if a == [] then -1
    else if b == [] then 1
    else if a[0] != b[0] then a[0] - b[0]
    else Compare(a[1..], b[1..])
  }

  lemma {:induction false} CompareZero(a: bytes, b: bytes)
    ensures Compare(a, b) == 0 <==> a == b
    ensures Compare(a, b) > 0 <==> Compare(b, a) < 0
  {
    if a != [] && b != [] && a[0] == b[0] {
      CompareZero(a[1..], b[1..]);
      assert a == [a[0]] + a[1..] && b == [b[0]] + b[1..];
    }
  }

  lemma {:induction false} CompareTransitive(a: bytes, b: bytes, c: bytes)
    requires Compare(a, b) < 0 && Compare(b, c) < 0
    ensures Compare(a, c) < 0
  {
    if a != [] && b != [] && c != [] && a[0] == b[0] && b[0] == c[0] {
      CompareTransitive(a[1..], b[1..], c[1..]);
    }
  }

  function Bin(hash: bytes -> nat, size: nat, key: bytes): (bin: nat)
    requires size > 0
    ensures bin < size
  {
    hash(key) % size
  }

  type Pairs = seq<(bytes, bytes)>

  predicate Ascending(ps: Pairs) {
    forall i, j :: 0 <= i < j < |ps| ==> Compare(ps[i].0, ps[j].0) < 0
  }

  // The pairs are exactly the part of the map that hashes to this bin.
  ghost predicate Holds(ps: Pairs, contents: map<bytes, bytes>, hash: bytes -> nat, size: nat, bin: nat)
    requires size > 0
  {
    && (forall i :: 0 <= i < |ps| ==> Bin(hash, size, ps[i].0) == bin && ps[i].0 in contents && contents[ps[i].0] == ps[i].1)
    && (forall key {:trigger key in contents} :: key in contents && Bin(hash, size, key) == bin ==> HasKey(ps, key))
  }

  ghost predicate HasKey(ps: Pairs, key: bytes) {
    exists i :: 0 <= i < |ps| && ps[i].0 == key
  }

  function Inserted(ps: Pairs, at: nat, key: bytes, value: bytes): Pairs
    requires at <= |ps|
  {
    ps[..at] + [(key, value)] + ps[at..]
  }

  // A new pair goes before the first one whose key is above its own.
  lemma InsertAscending(ps: Pairs, at: nat, key: bytes, value: bytes)
    requires Ascending(ps) && at <= |ps|
    requires forall i :: 0 <= i < at ==> Compare(key, ps[i].0) > 0
    requires at < |ps| ==> Compare(key, ps[at].0) < 0
    ensures Ascending(Inserted(ps, at, key, value)) && !HasKey(ps, key)
  {
    hide Compare, Bin;
    var now := Inserted(ps, at, key, value);
    assert forall i :: 0 <= i < |now| ==> now[i] == if i < at then ps[i] else if i == at then (key, value) else ps[i - 1];
    CompareZero(key, key);
    forall i | 0 <= i < at ensures Compare(ps[i].0, key) < 0 {
      CompareZero(key, ps[i].0);
    }
    forall i | at < i < |ps| ensures Compare(key, ps[i].0) < 0 {
      CompareTransitive(key, ps[at].0, ps[i].0);
    }
  }

  lemma InsertHolds(ps: Pairs, at: nat, key: bytes, value: bytes, contents: map<bytes, bytes>, hash: bytes -> nat, size: nat)
    requires size > 0 && at <= |ps| && Holds(ps, contents, hash, size, Bin(hash, size, key)) && !HasKey(ps, key)
    ensures Holds(Inserted(ps, at, key, value), contents[key := value], hash, size, Bin(hash, size, key))
  {
    hide Compare, Bin;
    var now := Inserted(ps, at, key, value);
    assert forall i :: 0 <= i < |now| ==> now[i] == if i < at then ps[i] else if i == at then (key, value) else ps[i - 1];
    forall k | k in contents[key := value] && Bin(hash, size, k) == Bin(hash, size, key) ensures HasKey(now, k) {
      if k == key {
        assert now[at].0 == k;
      } else {
        var i :| 0 <= i < |ps| && ps[i].0 == k;
        assert now[if i < at then i else i + 1].0 == k;
      }
    }
  }

  lemma ReplaceHolds(ps: Pairs, at: nat, value: bytes, contents: map<bytes, bytes>, hash: bytes -> nat, size: nat, bin: nat)
    requires size > 0 && at < |ps| && Ascending(ps) && Holds(ps, contents, hash, size, bin)
    ensures var now := ps[at := (ps[at].0, value)];
      Ascending(now) && Holds(now, contents[ps[at].0 := value], hash, size, bin)
  {
    hide Compare, Bin;
    var now := ps[at := (ps[at].0, value)];
    CompareZero(ps[at].0, ps[at].0);
    forall k | k in contents[ps[at].0 := value] && Bin(hash, size, k) == bin ensures HasKey(now, k) {
      if k == ps[at].0 {
        assert now[at].0 == k;
      } else {
        var i :| 0 <= i < |ps| && ps[i].0 == k;
        assert now[i].0 == k;
      }
    }
  }

  lemma OtherBin(ps: Pairs, contents: map<bytes, bytes>, hash: bytes -> nat, size: nat, bin: nat, key: bytes, value: bytes)
    requires size > 0 && Holds(ps, contents, hash, size, bin) && Bin(hash, size, key) != bin
    ensures Holds(ps, contents[key := value], hash, size, bin)
  {
    forall k | k in contents[key := value] && Bin(hash, size, k) == bin ensures HasKey(ps, k) {
      assert k in contents;
    }
  }

  // The first pair whose key is not below the key decides whether the map has it.
  lemma FoundIff(ps: Pairs, at: nat, key: bytes, contents: map<bytes, bytes>, hash: bytes -> nat, size: nat)
    requires size > 0 && at <= |ps| && Ascending(ps) && Holds(ps, contents, hash, size, Bin(hash, size, key))
    requires forall i :: 0 <= i < at ==> Compare(key, ps[i].0) > 0
    requires at < |ps| ==> Compare(key, ps[at].0) <= 0
    ensures key in contents <==> at < |ps| && ps[at].0 == key
  {
    hide Compare, Bin;
    if key in contents {
      assert HasKey(ps, key);
      var i :| 0 <= i < |ps| && ps[i].0 == key;
      CompareZero(key, key);
      if i > at {
        assert Compare(ps[at].0, ps[i].0) < 0;
        CompareZero(key, ps[at].0);
      }
    }
  }

  // ---------------------------------------------------------------- the chains

  class Entry {
    const key: bytes
    var value: bytes
    var next: Entry?

    constructor (key: bytes, value: bytes)
      ensures this.key == key && this.value == value && next == null
    {
      this.key, this.value, next := key, value, null;
    }
  }

  // head leads through the nodes of the chain, in order, and nowhere else; they carry the pairs.
  ghost predicate Linked(head: Entry?, chain: seq<Entry>, ps: Pairs)
    reads chain
  {
    && |chain| == |ps| && head == (if chain == [] then null else chain[0])
    && (forall i {:trigger chain[i].next} :: 0 <= i < |chain| ==> chain[i].next == (if i + 1 < |chain| then chain[i + 1] else null))
    && (forall i :: 0 <= i < |chain| ==> chain[i].key == ps[i].0 && chain[i].value == ps[i].1)
  }

  // The chain with e linked in at position at.
  lemma InsertLinked(chain: seq<Entry>, ps: Pairs, at: nat, e: Entry, head: Entry?)
    requires at <= |chain| == |ps| && forall i :: 0 <= i < |chain| ==> chain[i].key == ps[i].0 && chain[i].value == ps[i].1
    requires forall i {:trigger chain[i].next} :: 0 <= i < |chain| && i != at - 1 ==>
      chain[i].next == (if i + 1 < |chain| then chain[i + 1] else null)
    requires e.next == (if at < |chain| then chain[at] else null)
    requires head == if at > 0 then chain[0] else e
    requires at > 0 ==> chain[at - 1].next == e
    ensures Linked(head, chain[..at] + [e] + chain[at..], Inserted(ps, at, e.key, e.value))
  {
    var now := chain[..at] + [e] + chain[at..];
    assert forall i :: 0 <= i < |now| ==> now[i] == if i < at then chain[i] else if i == at then e else chain[i - 1];
    forall i | 0 <= i < |now| ensures now[i].next == (if i + 1 < |now| then now[i + 1] else null) {
      if i > at {
        assert chain[i - 1].next == if i < |chain| then chain[i] else null;
      } else if i + 1 < at {
        assert chain[i].next == chain[i + 1];
      }
    }
  }

  class HashTable {
    const size: nat
    const hash: bytes -> nat
    const table: array<Entry?>
    ghost var chains: seq<seq<Entry>>
    ghost var pairs: seq<Pairs>
    ghost var contents: map<bytes, bytes>
    ghost var repr: set<object>

    ghost predicate Shape()
      reads this
    {
      && size > 0 && table.Length == size == |chains| == |pairs|
      && this !in repr && table !in repr
      && forall b, i :: 0 <= b < size && 0 <= i < |chains[b]| ==> chains[b][i] in repr
    }

    ghost predicate Sorted()
      requires Shape()
      reads this
    {
      forall b {:trigger pairs[b]} :: 0 <= b < size ==> Ascending(pairs[b]) && Holds(pairs[b], contents, hash, size, b)
    }

    ghost predicate Chained()
      requires Shape()
      reads this, table, repr
    {
      forall b {:trigger chains[b]} :: 0 <= b < size ==> Linked(table[b], chains[b], pairs[b])
    }

    ghost predicate Valid()
      reads this, table, repr
    {
      Shape() && Sorted() && Chained()
    }

    constructor (size: nat, hash: bytes -> nat)
      requires size > 0
      ensures Valid() && fresh(table) && repr == {} && contents == map[]
      ensures this.hash == hash && this.size == size
    {
      this.size, this.hash := size, hash;
      table := new Entry?[size](_ => null);
      chains, pairs, contents, repr := seq(size, _ => []), seq(size, _ => []), map[], {};
    }

    // The first node of the bin whose key is not below, and the one before it.
    method Find(key: bytes) returns (last: Entry?, next: Entry?, bin: nat, ghost at: nat)
      requires Valid()
      ensures bin == Bin(hash, size, key) && at <= |chains[bin]| == |pairs[bin]|
      ensures next == (if at < |chains[bin]| then chains[bin][at] else null)
      ensures last == (if at > 0 then chains[bin][at - 1] else null)
      ensures next != null ==> next.key == pairs[bin][at].0 && next.value == pairs[bin][at].1
      ensures forall i :: 0 <= i < at ==> Compare(key, pairs[bin][i].0) > 0
      ensures at < |pairs[bin]| ==> Compare(key, pairs[bin][at].0) <= 0
    {
      hide Compare, Bin;
      bin := Bin(hash, size, key);
      last, next, at := null, table[bin], 0;
      ghost var chain := chains[bin];
      assert Linked(table[bin], chain, pairs[bin]);
      while next != null && Compare(key, next.key) > 0
        invariant at <= |chain|
        invariant next == (if at < |chain| then chain[at] else null)
        invariant last == (if at > 0 then chain[at - 1] else null)
        invariant forall i :: 0 <= i < at ==> Compare(key, pairs[bin][i].0) > 0
        decreases |chain| - at
      {
        last, next, at := next, next.next, at + 1;
      }
    }

    method Get(key: bytes) returns (value: Option<bytes>)
      requires Valid()
      ensures value == if key in contents then Some(contents[key]) else None
    {
      var _, pair, bin, at := Find(key);
      ghost var ps := pairs[bin];
      FoundIff(ps, at, key, contents, hash, size);
      if pair == null || Compare(key, pair.key) != 0 {
        CompareZero(key, key);
        return None;
      }
      CompareZero(key, pair.key);
      return Some(pair.value);
    }

    // Two nodes of the table at different places are different nodes.
    lemma Apart(b: nat, i: nat, c: nat, j: nat)
      requires Valid() && b < size && c < size && i < |chains[b]| && j < |chains[c]|
      requires b != c || i != j
      ensures chains[b][i] != chains[c][j]
    {
      assert Linked(table[b], chains[b], pairs[b]) && Linked(table[c], chains[c], pairs[c]);
      assert Holds(pairs[b], contents, hash, size, b) && Holds(pairs[c], contents, hash, size, c);
      CompareZero(pairs[b][i].0, pairs[b][i].0);
    }

    method Set(key: bytes, value: bytes)
      requires Valid()
      modifies `chains, `pairs, `contents, `repr, table, repr
      ensures Valid() && fresh(repr - old(repr))
      ensures contents == old(contents)[key := value]
    {
      var last, next, bin, at := Find(key);
      if next != null && Compare(key, next.key) == 0 {
        CompareZero(key, next.key);
        Replace(next, bin, at, value);
      } else {
        Link(key, value, last, next, bin, at);
      }
    }

    method Replace(next: Entry, bin: nat, ghost at: nat, value: bytes)
      requires Valid() && bin < size && at < |chains[bin]| && chains[bin][at] == next
      modifies `pairs, `contents, next`value
      ensures Valid() && contents == old(contents)[next.key := value]
    {
      hide Holds, Ascending, Bin;
      ghost var (ps, was) := (pairs[bin], contents);
      assert Linked(table[bin], chains[bin], ps) && Ascending(ps) && Holds(ps, contents, hash, size, bin);
      forall b, i | 0 <= b < size && 0 <= i < |chains[b]| && (b != bin || i != at) ensures chains[b][i] != next {
        Apart(b, i, bin, at);
      }
      forall b | 0 <= b < size && b != bin ensures Holds(pairs[b], contents[next.key := value], hash, size, b) {
        BinOf(bin, at);
        OtherBin(pairs[b], contents, hash, size, b, next.key, value);
      }
      ReplaceHolds(ps, at, value, contents, hash, size, bin);
      next.value := value;
      contents := contents[next.key := value];
      pairs := pairs[bin := ps[at := (next.key, value)]];
      assert Linked(table[bin], chains[bin], pairs[bin]);
      forall b | 0 <= b < size && b != bin ensures Linked(table[b], chains[b], pairs[b]) {
        assert old(Linked(table[b], chains[b], pairs[b]));
      }
    }

    lemma BinOf(b: nat, i: nat)
      requires Valid() && b < size && i < |chains[b]|
      ensures Bin(hash, size, chains[b][i].key) == b
    {
      assert Linked(table[b], chains[b], pairs[b]) && Holds(pairs[b], contents, hash, size, b);
    }

    // Puts a new node between last and next.
    method Link(key: bytes, value: bytes, last: Entry?, next: Entry?, bin: nat, ghost at: nat)
      requires Valid() && bin == Bin(hash, size, key) && at <= |chains[bin]| == |pairs[bin]|
      requires next == (if at < |chains[bin]| then chains[bin][at] else null)
      requires last == (if at > 0 then chains[bin][at - 1] else null)
      requires forall i :: 0 <= i < at ==> Compare(key, pairs[bin][i].0) > 0
      requires at < |pairs[bin]| ==> Compare(key, pairs[bin][at].0) < 0
      modifies `chains, `pairs, `contents, `repr, table, repr
      ensures Valid() && fresh(repr - old(repr))
      ensures contents == old(contents)[key := value]
    {
      hide Holds, Ascending, Bin, Linked, Compare, Inserted;
      ghost var (chain, ps) := (chains[bin], pairs[bin]);
      LinkFacts(key, value, last, next, bin, at);
      var newpair := new Entry(key, value);
      Attach(newpair, last, next, bin);
      forall b | 0 <= b < size && b != bin ensures Linked(table[b], chains[b], pairs[b]) {
        assert old(Linked(table[b], chains[b], pairs[b]));
      }
      InsertLinked(chain, ps, at, newpair, table[bin]);
      Record(newpair, bin, chain[..at] + [newpair] + chain[at..], Inserted(ps, at, key, value));
    }

    // Brings the ghost state in line with the chain that has just been linked.
    ghost method Record(newpair: Entry, bin: nat, chain: seq<Entry>, ps: Pairs)
      requires Shape() && bin < size && this as object != newpair as object && table as object != newpair as object
      requires Linked(table[bin], chain, ps) && forall e <- chain :: e in chains[bin] || e == newpair
      requires forall b :: 0 <= b < size && b != bin ==> Linked(table[b], chains[b], pairs[b])
      requires forall b :: 0 <= b < size && b != bin ==>
        Ascending(pairs[b]) && Holds(pairs[b], contents[newpair.key := newpair.value], hash, size, b)
      requires Ascending(ps) && Holds(ps, contents[newpair.key := newpair.value], hash, size, bin)
      modifies `chains, `pairs, `contents, `repr
      ensures Valid() && repr == old(repr) + {newpair}
      ensures contents == old(contents)[newpair.key := newpair.value]
    {
      hide Linked, Holds, Ascending;
      assert forall e <- chains[bin] :: e in repr;
      chains, pairs := chains[bin := chain], pairs[bin := ps];
      contents := contents[newpair.key := newpair.value];
      repr := repr + {newpair};
    }

    // Relinks: the new node takes the place of next, behind last or at the head.
    method Attach(newpair: Entry, last: Entry?, next: Entry?, bin: nat)
      requires bin < table.Length && newpair != last && newpair.next == null
      requires (next == table[bin]) == (last == null)
      modifies table, newpair`next, if last == null then {} else {last}
      ensures newpair.next == next
      ensures last != null ==> last.next == newpair && last.value == old(last.value)
      ensures forall b :: 0 <= b < table.Length ==> table[b] == if b == bin && last == null then newpair else old(table[b])
    {
      if next == table[bin] {
        newpair.next := next;
        table[bin] := newpair;
      } else if next == null {
        last.next := newpair;
      } else {
        newpair.next := next;
        last.next := newpair;
      }
    }

    // What linking a new node relies on.
    lemma LinkFacts(key: bytes, value: bytes, last: Entry?, next: Entry?, bin: nat, at: nat)
      requires Valid() && bin == Bin(hash, size, key) && at <= |chains[bin]| == |pairs[bin]|
      requires next == (if at < |chains[bin]| then chains[bin][at] else null)
      requires last == (if at > 0 then chains[bin][at - 1] else null)
      requires forall i :: 0 <= i < at ==> Compare(key, pairs[bin][i].0) > 0
      requires at < |pairs[bin]| ==> Compare(key, pairs[bin][at].0) < 0
      ensures next == table[bin] <==> last == null
      ensures table[bin] == if chains[bin] == [] then null else chains[bin][0]
      ensures forall b, i :: 0 <= b < size && 0 <= i < |chains[b]| && (b != bin || i != at - 1) ==> last == null || chains[b][i] != last
      ensures forall i {:trigger chains[bin][i].next} :: 0 <= i < |chains[bin]| ==>
        chains[bin][i].next == (if i + 1 < |chains[bin]| then chains[bin][i + 1] else null)
      ensures forall i :: 0 <= i < |chains[bin]| ==> chains[bin][i].key == pairs[bin][i].0 && chains[bin][i].value == pairs[bin][i].1
      ensures forall b :: 0 <= b < size && b != bin ==> Holds(pairs[b], contents[key := value], hash, size, b)
      ensures Ascending(Inserted(pairs[bin], at, key, value))
      ensures Holds(Inserted(pairs[bin], at, key, value), contents[key := value], hash, size, bin)
    {
      hide Holds, Ascending, Bin;
      var (chain, ps) := (chains[bin], pairs[bin]);
      assert Linked(table[bin], chain, ps) && Ascending(ps) && Holds(ps, contents, hash, size, bin);
      if at > 0 && next != null { Apart(bin, 0, bin, at); }
      forall b, i | 0 <= b < size && 0 <= i < |chains[b]| && (b != bin || i != at - 1) ensures last == null || chains[b][i] != last {
        if at > 0 { Apart(b, i, bin, at - 1); }
      }
      forall b | 0 <= b < size && b != bin ensures Holds(pairs[b], contents[key := value], hash, size, b) {
        OtherBin(pairs[b], contents, hash, size, b, key, value);
      }
      InsertAscending(ps, at, key, value);
      InsertHolds(ps, at, key, value, contents, hash, size);
    }
  }
}
