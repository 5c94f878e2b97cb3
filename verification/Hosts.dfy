/** The hosts a value is stored on, and the hosts the client asks. */
module Hosts {
  import opened Bytes
  import opened Powers
  import H = HashTable
  import M = MyHash
  import P = Placement

  // The configured addresses come in pairs: a master and its backup.
  function Masters(ips: seq<bytes>): (ms: seq<bytes>)
    ensures |ms| == |ips| / 2
  {
    seq(|ips| / 2, i requires 0 <= i < |ips| / 2 => ips[2 * i])
  }

  function Slaves(ips: seq<bytes>): (ss: seq<bytes>)
    ensures |ss| == |ips| / 2
  {
    seq(|ips| / 2, i requires 0 <= i < |ips| / 2 => ips[2 * i + 1])
  }

  // The backup of each master after the first n pairs; a repeated master keeps the last one.
  function Backups(masters: seq<bytes>, slaves: seq<bytes>, n: nat): map<bytes, bytes>
    requires n <= |masters| == |slaves|
  {
    if n == 0 then map[] else Backups(masters, slaves, n - 1)[masters[n - 1] := slaves[n - 1]]
  }

  lemma NoPairs(ips: seq<bytes>)
    ensures Backups(Masters(ips), Slaves(ips), 0) == map[]
  {
  }

  lemma NextPair(ips: seq<bytes>, i: nat)
    requires i % 2 == 0 && i + 1 < |ips|
    ensures Backups(Masters(ips), Slaves(ips), (i + 2) / 2)
         == Backups(Masters(ips), Slaves(ips), i / 2)[ips[i] := ips[i + 1]]
  {
    assert (i + 2) / 2 == i / 2 + 1 && 2 * (i / 2) == i;
  }

  class Store {
    const hostMasters: array<bytes>
    const hashtable: H.HashTable

    ghost predicate Valid(ips: seq<bytes>)
      reads hostMasters, hashtable, hashtable.table, hashtable.repr
    {
      && hashtable.Valid() && hostMasters[..] == Masters(ips)
      && hashtable.contents == Backups(Masters(ips), Slaves(ips), |ips| / 2)
    }

    // htHash stands for the table's hash of a string.
    constructor InitHost(ips: seq<bytes>, htHash: bytes -> nat)
      requires |ips| % 2 == 0
      ensures Valid(ips) && hashtable.size == 65536
    {
      var masters := FillMasters(ips);
      var table := FillTable(ips, htHash);
      hostMasters, hashtable := masters, table;
    }

    static method FillMasters(ips: seq<bytes>) returns (masters: array<bytes>)
      requires |ips| % 2 == 0
      ensures fresh(masters) && masters[..] == Masters(ips)
    {
      masters := new bytes[|ips| / 2](_ => []);
      var i := 0;
      while i < |ips|
        invariant 0 <= i <= |ips| && i % 2 == 0
        invariant forall k :: 0 <= k < i / 2 ==> masters[k] == Masters(ips)[k]
      {
        masters[i / 2] := ips[i];
        i := i + 2;
      }
    }

    static method FillTable(ips: seq<bytes>, htHash: bytes -> nat) returns (table: H.HashTable)
      requires |ips| % 2 == 0
      ensures fresh(table) && fresh(table.table) && fresh(table.repr) && table.Valid()
      ensures table.contents == Backups(Masters(ips), Slaves(ips), |ips| / 2) && table.size == 65536
    {
      hide H.HashTable.Valid, Masters, Slaves, Backups;
      NoPairs(ips);
      table := new H.HashTable(65536, htHash);
      var i := 0;
      while i < |ips|
        invariant 0 <= i <= |ips| && i % 2 == 0 && table.Valid() && fresh(table.table) && fresh(table.repr)
        invariant table.contents == Backups(Masters(ips), Slaves(ips), i / 2)
      {
        NextPair(ips, i);
        table.Set(ips[i], ips[i + 1]);
        i := i + 2;
      }
    }

    // The hosts a value is sent to: the key's master, then its backup.
    method SaveValue(ghost ips: seq<bytes>, key: bytes) returns (hosts: seq<bytes>)
      requires Valid(ips) && |ips| >= 2 && |key| < TWO32 - 64
      ensures hosts == Written(Masters(ips), Slaves(ips), M.SlotOf(key, |ips| / 2))
    {
      hide M.SlotOf;
      var num := M.Hash(key, hostMasters.Length);
      var host := hostMasters[num];
      assert host == Masters(ips)[num];
      HasBackup(Masters(ips), Slaves(ips), |ips| / 2, num);
      hosts := [host];
      var backup := hashtable.Get(host);
      if backup != None {
        hosts := hosts + [backup.value];
      }
    }
  }

  lemma {:induction false} HasBackup(masters: seq<bytes>, slaves: seq<bytes>, n: nat, h: nat)
    requires h < n <= |masters| == |slaves|
    ensures masters[h] in Backups(masters, slaves, n)
  {
    if h < n - 1 { HasBackup(masters, slaves, n - 1, h); }
  }

  function Written(masters: seq<bytes>, slaves: seq<bytes>, h: nat): seq<bytes>
    requires h < |masters| == |slaves|
  {
    HasBackup(masters, slaves, |masters|, h);
    [masters[h], Backups(masters, slaves, |masters|)[masters[h]]]
  }

  // The host the client asks, from the list of masters or the list of their backups.
  method ClientHost(masters: seq<bytes>, slaves: seq<bytes>, fromSlaves: bool, key: bytes) returns (host: bytes)
    requires 0 < |masters| == |slaves|
    ensures host == (if fromSlaves then slaves else masters)[P.ClientSlot(key, |masters|)]
    ensures 0 !in key && (forall i, j :: 0 <= i < j < |masters| ==> masters[i] != masters[j]) ==>
      host in Written(masters, slaves, M.SlotOf(key, |masters|))
  {
    hide P.ClientSlot, M.SlotOf, Written;
    if 0 !in key && (forall i, j :: 0 <= i < j < |masters| ==> masters[i] != masters[j]) {
      DistinctMastersAgree(masters, slaves, key);
    }
    var address := if fromSlaves then slaves else masters;
    var num := P.ClientHash(key, |address|);
    host := address[num];
  }

  // h is not the last pair with its master, and last is.
  predicate Overridden(masters: seq<bytes>, h: nat, last: nat) {
    h < last < |masters| && masters[last] == masters[h] && forall k :: last < k < |masters| ==> masters[k] != masters[h]
  }

  lemma {:induction false} BackupIsLast(masters: seq<bytes>, slaves: seq<bytes>, n: nat, last: nat)
    requires last < n <= |masters| == |slaves|
    requires forall k :: last < k < n ==> masters[k] != masters[last]
    ensures masters[last] in Backups(masters, slaves, n)
    ensures Backups(masters, slaves, n)[masters[last]] == slaves[last]
  {
    if last < n - 1 { BackupIsLast(masters, slaves, n - 1, last); }
  }

  lemma {:induction false} LastPair(masters: seq<bytes>, h: nat, n: nat) returns (last: nat)
    requires h < n <= |masters|
    ensures h <= last < n && masters[last] == masters[h] && forall k :: last < k < n ==> masters[k] != masters[h]
  {
    if masters[n - 1] == masters[h] {
      last := n - 1;
    } else {
      last := LastPair(masters, h, n - 1);
    }
  }

  // The client finds every value on whichever list it draws from exactly when a repeated master
  // is always given the same backup, or is its own.
  lemma HostsAgree(masters: seq<bytes>, slaves: seq<bytes>)
    requires |masters| == |slaves|
    ensures forall h :: 0 <= h < |masters| ==> masters[h] in Written(masters, slaves, h)
    ensures (forall h :: 0 <= h < |masters| ==> slaves[h] in Written(masters, slaves, h))
       <==> (forall h: nat, last: nat :: Overridden(masters, h, last) ==>
               slaves[h] == slaves[last] || slaves[h] == masters[h])
  {
    forall h | 0 <= h < |masters|
      ensures slaves[h] in Written(masters, slaves, h)
         <==> forall last: nat :: Overridden(masters, h, last) ==> slaves[h] == slaves[last] || slaves[h] == masters[h]
    {
      HostAgrees(masters, slaves, h);
    }
  }

  lemma HostAgrees(masters: seq<bytes>, slaves: seq<bytes>, h: nat)
    requires h < |masters| == |slaves|
    ensures slaves[h] in Written(masters, slaves, h)
       <==> forall last: nat :: Overridden(masters, h, last) ==> slaves[h] == slaves[last] || slaves[h] == masters[h]
  {
    var last := LastPair(masters, h, |masters|);
    BackupIsLast(masters, slaves, |masters|, last);
    assert Written(masters, slaves, h) == [masters[h], slaves[last]];
    if last > h { assert Overridden(masters, h, last); }
    forall l: nat | Overridden(masters, h, l) ensures l == last {
    }
  }

  // With distinct masters the client always asks a host the value was written to.
  lemma DistinctMastersAgree(masters: seq<bytes>, slaves: seq<bytes>, key: bytes)
    requires 0 < |masters| == |slaves| && 0 !in key
    requires forall i, j :: 0 <= i < j < |masters| ==> masters[i] != masters[j]
    ensures masters[P.ClientSlot(key, |masters|)] in Written(masters, slaves, M.SlotOf(key, |masters|))
    ensures slaves[P.ClientSlot(key, |masters|)] in Written(masters, slaves, M.SlotOf(key, |masters|))
  {
    hide M.SlotOf, P.ClientSlot;
    P.SlotsAgree(key, |masters|);
    HostAgrees(masters, slaves, M.SlotOf(key, |masters|));
  }
}
