/** Where a value lives: the writer's and the readers' ideas of its hosts and its directories. */
module Placement {
  import opened Bytes
  import opened Powers
  import M = MyHash
  import S = Md5Spec

  const SLASH: byte := 47   // '/'

  // ---------------------------------------------------------------- directories

  function Leading(n: nat): nat {
    if n < 10 then n else Leading(n / 10)
  }

  // The slot count starts with the digit one: then the digit loop never divides by zero.
  predicate Countable(slot: nat) {
    Leading(slot) == 1
  }

  predicate DividesByZero(anchor: nat) {
    anchor > 1 && (anchor / 10 == 0 || DividesByZero(anchor / 10))
  }

  lemma {:induction false} CountableIff(slot: nat)
    requires slot > 0
    ensures Countable(slot) <==> !DividesByZero(slot)
  {
    if slot >= 10 { CountableIff(slot / 10); }
  }

  function Digit(num: nat, anchor: nat): byte
    requires anchor > 0
  {
    (num / anchor + ZERO) % 256
  }

  function Left(num: nat, anchor: nat): nat
    requires anchor > 0
  {
    num % anchor
  }

  // The characters the digit loop writes for num.
  function DirName(num: nat, anchor: nat): bytes
    requires Countable(anchor)
    decreases anchor
  {
    hide Digit, Left;
    if anchor <= 1 then [] else [Digit(num, anchor / 10)] + DirName(Left(num, anchor / 10), anchor / 10)
  }

  // The directories of the remaining rounds: each number comes from the key and the names so far.
  function Dirs(str: bytes, num: nat, slot: nat, rounds: nat): bytes
    requires Countable(slot)
    decreases rounds
  {
    hide M.SlotOf;
    if rounds == 0 then []
    else
      var name := DirName(num, slot);
      name + [SLASH] + Dirs(str + name, M.SlotOf(str + name, slot), slot, rounds - 1)
  }

  function DirsOf(key: bytes, slot: nat): bytes
    requires Countable(slot)
  {
    Dirs(key, M.SlotOf(key, slot), slot, 3)
  }

  lemma {:induction false} PowersCount(k: nat)
    ensures Countable(Pow10(k))
  {
    if k > 0 { PowersCount(k - 1); }
  }

  lemma {:induction false} NameLength(num: nat, anchor: nat, k: nat)
    requires Countable(anchor) && anchor < Pow10(k)
    ensures |DirName(num, anchor)| <= k
    decreases k
  {
    if anchor > 1 { NameLength(Left(num, anchor / 10), anchor / 10, k - 1); }
  }

  lemma {:induction false} SameDigits(s: bytes, t: bytes)
    requires AllDigits(s) && AllDigits(t) && |s| == |t| && Value(s) == Value(t)
    ensures s == t
    decreases |s|
  {
    if s != [] {
      var n := |s| - 1;
      assert s[n] == t[n];
      SameDigits(s[..n], t[..n]);
      assert s == s[..n] + [s[n]] && t == t[..n] + [t[n]];
    }
  }

  lemma {:induction false} NameValue(num: nat, k: nat)
    requires num < Pow10(k)
    ensures Countable(Pow10(k))
    ensures var s := DirName(num, Pow10(k)); AllDigits(s) && |s| == k && Value(s) == num
  {
    hide Digit, Left;
    PowersCount(k);
    if k > 0 {
      var p := Pow10(k - 1);
      PowersCount(k - 1);
      Quotient(num, p);
      NameValue(Left(num, p), k - 1);
      assert Pow10(k) == 10 * p && 10 * p / 10 == p;
      hide DirName;
      NameStep(num, p);
      ValueFirst(Digit(num, p), DirName(Left(num, p), p));
    }
  }

  lemma NameStep(num: nat, p: nat)
    requires p > 0 && Countable(p) && Countable(10 * p)
    ensures DirName(num, 10 * p) == [Digit(num, p)] + DirName(Left(num, p), p)
  {
    hide Digit, Left;
    assert 10 * p / 10 == p;
  }

  lemma Quotient(num: nat, p: nat)
    requires p > 0 && num < 10 * p
    ensures ZERO <= Digit(num, p) <= ZERO + 9 && (Digit(num, p) - ZERO) * p + Left(num, p) == num && Left(num, p) < p
  {
    var (q, r) := (num / p, num % p);
    assert num == q * p + r;
    if q >= 10 { TimesTen(q, p); }
  }

  lemma TimesTen(q: nat, p: nat)
    requires q >= 10
    ensures q * p >= 10 * p
  {
  }

  // With a power of ten as slot count, a directory name is the number padded with zeros.
  lemma NameIsPadded(num: nat, k: nat)
    requires num < Pow10(k) && k > 0
    ensures Countable(Pow10(k)) && DirName(num, Pow10(k)) == PadZeros(Decimal(num), k)
  {
    NameValue(num, k);
    DecimalLength(num, k);
    DecimalValue(num);
    PadValue(Decimal(num), k);
    SameDigits(DirName(num, Pow10(k)), PadZeros(Decimal(num), k));
  }

  // "/usr/local/openresty/nginx/html/files/" and "/files/"
  const WRITE_ROOT: bytes := [47, 117, 115, 114, 47, 108, 111, 99, 97, 108, 47, 111, 112, 101, 110, 114, 101, 115, 116, 121,
                              47, 110, 103, 105, 110, 120, 47, 104, 116, 109, 108, 47, 102, 105, 108, 101, 115, 47]
  const READ_ROOT: bytes := [47, 102, 105, 108, 101, 115, 47]

  // What is read lies where it was written: the read path is the end of the write path, from "/files/" on.
  lemma ReadIsEnd(key: bytes, slot: nat)
    requires Countable(slot)
    ensures var (w, r) := (WRITE_ROOT + DirsOf(Text(key), slot), READ_ROOT + DirsOf(Text(key), slot));
      |r| <= |w| && w[|w| - |r|..] == r
    ensures READ_ROOT[0] == SLASH && READ_ROOT[|READ_ROOT| - 1] == SLASH && |READ_ROOT| == 7 && |WRITE_ROOT| == 38
  {
    hide DirsOf;
    assert WRITE_ROOT[31..] == READ_ROOT;
    assert WRITE_ROOT == WRITE_ROOT[..31] + READ_ROOT;
  }

  // "abc" goes to directory 960 of a thousand.
  lemma AbcDirectory()
    ensures Countable(1000) && M.SlotOf([97, 98, 99], 1000) == 960 && DirName(960, 1000) == [57, 54, 48]
  {
    hide M.SlotOf, DirName;
    NameAtThousand(960);
    M.AbcSlot();
    ThreeDigits();
  }

  lemma ThreeDigits()
    ensures Three(960) == [57, 54, 48]
  {
    assert Decimal(9) == [57];
    assert Decimal(96) == [57, 54];
    assert Decimal(960) == [57, 54, 48];
  }

  const INT_MAX: nat := 0x7fff_ffff

  // The length of a key and of three directory names after it is an int.
  const MAX_KEY: nat := INT_MAX - 30

  // The digits of num, appended to the path and to the string that is hashed next.
  method AppendName(url: bytes, str: bytes, num: nat, slot: nat) returns (newUrl: bytes, newStr: bytes)
    requires Countable(slot)
    ensures newUrl == url + DirName(num, slot) && newStr == str + DirName(num, slot)
  {
    hide Digit, Left;
    newUrl, newStr := url, str;
    var anchor, n := slot, num;
    while anchor > 1
      invariant Countable(anchor)
      invariant newUrl + DirName(n, anchor) == url + DirName(num, slot)
      invariant newStr + DirName(n, anchor) == str + DirName(num, slot)
    {
      ghost var rest := DirName(Left(n, anchor / 10), anchor / 10);
      anchor := anchor / 10;
      var d := Digit(n, anchor);
      assert newUrl + ([d] + rest) == (newUrl + [d]) + rest && newStr + ([d] + rest) == (newStr + [d]) + rest;
      newUrl := newUrl + [d];
      newStr := newStr + [d];
      n := Left(n, anchor);
    }
    assert newUrl + [] == newUrl && newStr + [] == newStr;
  }

  lemma NameShort(num: nat, slot: nat)
    requires Countable(slot) && slot <= INT_MAX
    ensures |DirName(num, slot)| <= 10
  {
    assert Pow10(4) == 10_000;
    assert Pow10(7) == 10_000_000;
    assert Pow10(10) == 10_000_000_000;
    NameLength(num, slot, 10);
  }

  lemma DirsStep(str: bytes, num: nat, slot: nat, rounds: nat, done: bytes)
    requires Countable(slot) && rounds > 0
    ensures var name := DirName(num, slot);
      done + Dirs(str, num, slot, rounds)
      == (done + name + [SLASH]) + Dirs(str + name, M.SlotOf(str + name, slot), slot, rounds - 1)
  {
    hide M.SlotOf, DirName;
    var name := DirName(num, slot);
    var rest := Dirs(str + name, M.SlotOf(str + name, slot), slot, rounds - 1);
    assert done + (name + [SLASH] + rest) == (done + name + [SLASH]) + rest;
  }

  // After i rounds, r - i rounds more lead to the path that r rounds lead to.
  predicate Ahead(text: bytes, slot: nat, url: bytes, str: bytes, num: nat, i: nat, r: nat)
    requires Countable(slot)
  {
    i <= r ==> url + Dirs(str, num, slot, r - i) == WRITE_ROOT + Dirs(text, M.SlotOf(text, slot), slot, r)
  }

  lemma AheadStart(text: bytes, slot: nat)
    requires Countable(slot)
    ensures forall r: nat {:trigger Ahead(text, slot, WRITE_ROOT, text, M.SlotOf(text, slot), 0, r)} ::
      Ahead(text, slot, WRITE_ROOT, text, M.SlotOf(text, slot), 0, r)
  {
    hide M.SlotOf, Dirs;
  }

  lemma AheadStep(text: bytes, slot: nat, url: bytes, str: bytes, num: nat, i: nat, r: nat)
    requires Countable(slot) && Ahead(text, slot, url, str, num, i, r)
    ensures var name := DirName(num, slot);
      Ahead(text, slot, url + name + [SLASH], str + name, M.SlotOf(str + name, slot), i + 1, r)
  {
    hide M.SlotOf, DirName, Dirs;
    if i < r { DirsStep(str, num, slot, r - i, url); }
  }

  lemma AheadNow(text: bytes, slot: nat, url: bytes, str: bytes, num: nat, i: nat)
    requires Countable(slot) && Ahead(text, slot, url, str, num, i, i)
    ensures url == WRITE_ROOT + Dirs(text, M.SlotOf(text, slot), slot, i)
  {
    hide M.SlotOf;
    assert url + [] == url;
  }

  // The path a value is written to; dirs are the directories made on the way, outermost first.
  method WriteGetPath(key: bytes, slot: nat) returns (url: bytes, dirs: seq<bytes>)
    requires Countable(slot) && slot <= INT_MAX && |key| < MAX_KEY
    ensures url == WRITE_ROOT + DirsOf(Text(key), slot)
    ensures |dirs| == 3 && dirs[0] < dirs[1] < dirs[2] == url && WRITE_ROOT < dirs[0]
    ensures var text := Text(key); forall i :: 0 <= i < 3 ==>
      dirs[i] == WRITE_ROOT + Dirs(text, M.SlotOf(text, slot), slot, i + 1)
  {
    hide M.SlotOf, DirName, Ahead, Dirs;
    AheadStart(Text(key), slot);
    TextShort(key);
    var num := HashOf(key, slot);
    var str := Text(key);
    url, dirs := WRITE_ROOT, [];
    var i := 0;
    while i < 3
      invariant 0 <= i <= 3 && |str| < MAX_KEY + 10 * i && |dirs| == i
      invariant Ahead(Text(key), slot, url, str, num, i, 1)
      invariant Ahead(Text(key), slot, url, str, num, i, 2) && Ahead(Text(key), slot, url, str, num, i, 3)
      invariant forall j :: 0 <= j < i ==> dirs[j] == WRITE_ROOT + Dirs(Text(key), M.SlotOf(Text(key), slot), slot, j + 1)
      invariant url == if i == 0 then WRITE_ROOT else dirs[i - 1]
      invariant i > 0 ==> WRITE_ROOT < dirs[0]
      invariant i > 1 ==> dirs[0] < dirs[1]
      invariant i > 2 ==> dirs[1] < dirs[2]
    {
      NameShort(num, slot);
      AheadStep(Text(key), slot, url, str, num, i, 1);
      AheadStep(Text(key), slot, url, str, num, i, 2);
      AheadStep(Text(key), slot, url, str, num, i, 3);
      url, str := AppendName(url, str, num, slot);
      url := url + [SLASH];
      AheadNow(Text(key), slot, url, str, M.SlotOf(str, slot), i + 1);
      dirs := dirs + [url];
      num := M.Hash(str, slot);
      i := i + 1;
    }
    assert url + [] == url;
  }

  // The path a value is read from.
  method ReadGetPath(key: bytes, slot: nat) returns (url: bytes)
    requires Countable(slot) && slot <= INT_MAX && |key| < MAX_KEY
    ensures url == READ_ROOT + DirsOf(Text(key), slot)
  {
    hide M.SlotOf, DirName;
    TextShort(key);
    var num := HashOf(key, slot);
    var str := Text(key);
    url := READ_ROOT;
    var i := 0;
    while i < 3
      invariant 0 <= i <= 3 && |str| < MAX_KEY + 10 * i
      invariant url + Dirs(str, num, slot, 3 - i) == READ_ROOT + DirsOf(Text(key), slot)
    {
      DirsStep(str, num, slot, 3 - i, url);
      NameShort(num, slot);
      url, str := AppendName(url, str, num, slot);
      url := url + [SLASH];
      num := M.Hash(str, slot);
      i := i + 1;
    }
    assert url + [] == url;
  }

  method HashOf(key: bytes, slot: nat) returns (num: nat)
    requires slot > 0 && |key| < MAX_KEY
    ensures num == M.SlotOf(Text(key), slot)
  {
    TextTwice(key);
    num := M.Hash(key, slot);
  }

  lemma {:induction false} TextTwice(s: bytes)
    ensures 0 !in Text(s) && Text(Text(s)) == Text(s)
  {
    if s != [] && s[0] != 0 {
      TextTwice(s[1..]);
      assert Text(s)[1..] == Text(s[1..]);
    }
  }

  // ---------------------------------------------------------------- the client

  // A number in at least three digits.
  function Three(n: nat): bytes {
    PadZeros(Decimal(n), 3)
  }

  function ClientSlot(input: bytes, slot: nat): (k: nat)
    requires slot > 0
    ensures k < slot
  {
    M.Total(S.Digest(M.Octets(input))) % slot
  }

  // The client sums the bytes of the MD5 digest of the whole string.
  method ClientHash(input: bytes, slot: nat) returns (num: nat)
    requires slot > 0
    ensures num == ClientSlot(input, slot)
  {
    hide S.Digest;
    var digest := S.Digest(M.Octets(input));
    var total, i := 0, 0;
    while i < |digest|
      invariant 0 <= i <= |digest| && total == M.Total(digest[..i])
    {
      assert digest[..i + 1][..i] == digest[..i];
      total := total + digest[i] as nat;
      i := i + 1;
    }
    assert digest[..i] == digest;
    num := total % slot;
  }

  // The directories in the client's address of a key.  With a thousand slots they are those the value
  // was written to.
  method ClientPath(key: bytes, dirNum: nat) returns (path: bytes)
    requires dirNum > 0
    ensures path == ClientDirs(key, dirNum)
    ensures dirNum == 1000 && 0 !in key ==> Countable(1000) && path == [SLASH] + DirsOf(key, 1000)
  {
    hide ClientSlot, Three, Dirs;
    if dirNum == 1000 && 0 !in key { DirectoriesAgree(key); }
    var dir1 := ClientHash(key, dirNum);
    var newKey := key + Three(dir1);
    var dir2 := ClientHash(newKey, dirNum);
    newKey := newKey + Three(dir2);
    var dir3 := ClientHash(newKey, dirNum);
    path := [SLASH] + Three(dir1) + [SLASH] + Three(dir2) + [SLASH] + Three(dir3) + [SLASH];
  }

  function ClientDirs(key: bytes, dirNum: nat): bytes
    requires dirNum > 0
  {
    var name1 := Three(ClientSlot(key, dirNum));
    var name2 := Three(ClientSlot(key + name1, dirNum));
    var name3 := Three(ClientSlot(key + name1 + name2, dirNum));
    [SLASH] + name1 + [SLASH] + name2 + [SLASH] + name3 + [SLASH]
  }

  lemma SlotsAgree(key: bytes, slot: nat)
    requires slot > 0 && 0 !in key
    ensures ClientSlot(key, slot) == M.SlotOf(key, slot)
  {
    hide S.Digest, M.Octets, M.Total;
    TextWhole(key);
  }

  lemma NameAtThousand(num: nat)
    requires num < 1000
    ensures Countable(1000) && DirName(num, 1000) == Three(num) && 0 !in Three(num)
  {
    assert Pow10(3) == 1000;
    NameIsPadded(num, 3);
    NameValue(num, 3);
    assert forall i :: 0 <= i < |Three(num)| ==> Three(num)[i] != 0;
  }

  // With a thousand slots, the client and the server agree on the directories of every key.
  lemma DirectoriesAgree(key: bytes)
    requires 0 !in key
    ensures Countable(1000) && ClientDirs(key, 1000) == [SLASH] + DirsOf(key, 1000)
  {
    hide S.Digest, M.SlotOf, ClientSlot, DirName, Three;
    var n1 := M.SlotOf(key, 1000);
    NameAtThousand(n1);
    SlotsAgree(key, 1000);
    var key2 := key + Three(n1);
    var n2 := M.SlotOf(key2, 1000);
    NameAtThousand(n2);
    SlotsAgree(key2, 1000);
    var key3 := key2 + Three(n2);
    var n3 := M.SlotOf(key3, 1000);
    NameAtThousand(n3);
    SlotsAgree(key3, 1000);
    DirsStep(key, n1, 1000, 3, [SLASH]);
    DirsStep(key2, n2, 1000, 2, [SLASH] + Three(n1) + [SLASH]);
    DirsStep(key3, n3, 1000, 1, [SLASH] + Three(n1) + [SLASH] + Three(n2) + [SLASH]);
  }

  // With another power of ten, some number is named differently by the two.
  lemma OnlyThousand(k: nat)
    requires k > 0
    ensures Countable(Pow10(k))
    ensures (forall num: nat :: num < Pow10(k) ==> DirName(num, Pow10(k)) == Three(num)) <==> k == 3
  {
    PowersCount(k);
    forall num: nat | num < Pow10(k) && k == 3 ensures DirName(num, Pow10(k)) == Three(num) {
      NameIsPadded(num, k);
    }
    NameIsPadded(0, k);
    DecimalLength(0, k);
    assert |DirName(0, Pow10(k))| == k && |Three(0)| == 3;
  }
}
