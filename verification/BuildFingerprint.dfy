/** The build identity of the native engine: 64-bit FNV-1a over the sorted Rust sources. */
module BuildFingerprint {
  import opened ByteStrings
  import opened Lists
  import opened Sorting

  /** An unsigned 64-bit word. */
  type Word = x: int | 0 <= x < 0x1_0000_0000_0000_0000

  // ---------- Words ----------

  function Pow2(n: nat): nat { if n == 0 then 1 else 2 * Pow2(n - 1) }

  /** Exclusive or of the low `n` bits. */
  function Xor(n: nat, a: nat, b: nat): (r: nat)
    ensures r < Pow2(n)
  {
    if n == 0 then 0 else (a % 2 + b % 2) % 2 + 2 * Xor(n - 1, a / 2, b / 2)
  }

  lemma XorBits(n: nat, a: nat, b: nat)
    requires n > 0
    ensures Xor(n, a, b) / 2 == Xor(n - 1, a / 2, b / 2)
    ensures Xor(n, a, b) % 2 == if a % 2 == b % 2 then 0 else 1
  {
  }

  lemma SameBits(a: nat, b: nat)
    requires a / 2 == b / 2 && a % 2 == b % 2
    ensures a == b
  {
  }

  lemma {:induction false} XorCancels(n: nat, a: nat, b: nat)
    ensures a < Pow2(n) ==> Xor(n, Xor(n, a, b), b) == a
    ensures b < Pow2(n) ==> Xor(n, a, Xor(n, a, b)) == b
    decreases n
  {
    if n > 0 {
      var x := Xor(n, a, b);
      XorBits(n, a, b);
      XorBits(n, x, b);
      XorBits(n, a, x);
      XorCancels(n - 1, a / 2, b / 2);
      assert Pow2(n) == 2 * Pow2(n - 1);
      hide Xor;
      if a < Pow2(n) { SameBits(Xor(n, x, b), a); }
      if b < Pow2(n) { SameBits(Xor(n, a, x), b); }
    }
  }

  lemma {:induction false} Pow2Doubles(n: nat)
    ensures Pow2(n + n) == Pow2(n) * Pow2(n)
    decreases n
  {
    if n > 0 {
      Pow2Doubles(n - 1);
      assert Pow2(n + n) == 4 * Pow2(n + n - 2);
    }
  }

  lemma WordSize()
    ensures Pow2(64) == 0x1_0000_0000_0000_0000
  {
    assert Pow2(8) == 256;
    Pow2Doubles(8);
    Pow2Doubles(16);
    Pow2Doubles(32);
  }

  // ---------- The hash (section 2 of draft-eastlake-fnv) ----------

  const OFFSET_BASIS: Word := 0xcbf2_9ce4_8422_2325

  /** Wrapping multiplication by the 64-bit FNV prime. */
  function TimesPrime(x: Word): Word { x * 0x100_0000_01b3 % 0x1_0000_0000_0000_0000 }

  /** Wrapping multiplication by the inverse of the prime modulo 2^64. */
  function TimesInverse(x: Word): Word { x * 0xce96_5057_aff6_957b % 0x1_0000_0000_0000_0000 }

  function XorByte(x: Word, b: Byte): Word { WordSize(); Xor(64, x, b) }

  function Step(hash: Word, b: Byte): Word { TimesPrime(XorByte(hash, b)) }

  function Unstep(hash: Word, b: Byte): Word { XorByte(TimesInverse(hash), b) }

  lemma AddMultiple(x: Word, k: int)
    ensures (x + 0x1_0000_0000_0000_0000 * k) % 0x1_0000_0000_0000_0000 == x
  {
  }

  /** The prime is odd, so multiplication by it permutes the words. */
  lemma PrimeThenInverse(x: Word)
    ensures TimesInverse(TimesPrime(x)) == x
  {
    var q := x * 0x100_0000_01b3 / 0x1_0000_0000_0000_0000;
    var y := x * 0x100_0000_01b3 - 0x1_0000_0000_0000_0000 * q;
    var k := x * 0xce_9650_590f - q * 0xce96_5057_aff6_957b;
    assert y * 0xce96_5057_aff6_957b == x + 0x1_0000_0000_0000_0000 * k;
    AddMultiple(x, k);
  }

  lemma InverseThenPrime(x: Word)
    ensures TimesPrime(TimesInverse(x)) == x
  {
    var q := x * 0xce96_5057_aff6_957b / 0x1_0000_0000_0000_0000;
    var y := x * 0xce96_5057_aff6_957b - 0x1_0000_0000_0000_0000 * q;
    var k := x * 0xce_9650_590f - q * 0x100_0000_01b3;
    assert y * 0x100_0000_01b3 == x + 0x1_0000_0000_0000_0000 * k;
    AddMultiple(x, k);
  }

  /** Each byte permutes the states, and different bytes send a state to different states. */
  lemma StepBijective(hash: Word, b: Byte, c: Byte)
    ensures Unstep(Step(hash, b), b) == hash
    ensures Step(Unstep(hash, b), b) == hash
    ensures b != c ==> Step(hash, b) != Step(hash, c)
  {
    hide TimesPrime, TimesInverse, Xor, Pow2;
    WordSize();
    PrimeThenInverse(XorByte(hash, b));
    PrimeThenInverse(XorByte(hash, c));
    InverseThenPrime(hash);
    XorCancels(64, hash, b);
    XorCancels(64, hash, c);
    XorCancels(64, TimesInverse(hash), b);
  }

  // ---------- The step in arithmetic ----------

  function Bit(x: nat, k: nat): nat {
    if k == 0 then x % 2 else Bit(x / 2, k - 1)
  }

  lemma {:induction false} XorBit(n: nat, a: nat, b: nat, k: nat)
    requires k < n
    ensures Bit(Xor(n, a, b), k) == if Bit(a, k) == Bit(b, k) then 0 else 1
    decreases k
  {
    XorBits(n, a, b);
    if k > 0 { XorBit(n - 1, a / 2, b / 2, k - 1); }
  }

  /** Its bits determine a word. */
  lemma {:induction false} BitsDetermine(n: nat, x: nat, y: nat)
    requires x < Pow2(n) && y < Pow2(n) && forall k: nat | k < n :: Bit(x, k) == Bit(y, k)
    ensures x == y
    decreases n
  {
    if n > 0 {
      forall k: nat | k < n - 1 ensures Bit(x / 2, k) == Bit(y / 2, k) {
        assert Bit(x, k + 1) == Bit(y, k + 1);
      }
      BitsDetermine(n - 1, x / 2, y / 2);
      assert Bit(x, 0) == Bit(y, 0);
    }
  }

  /** Every bit of `x` says whether state and byte differ there. */
  ghost predicate Differ(hash: Word, b: Byte, x: Word) {
    forall k: nat | k < 64 :: Bit(x, k) == if Bit(hash, k) == Bit(b, k) then 0 else 1
  }

  lemma DifferExists(hash: Word, b: Byte)
    ensures Differ(hash, b, XorByte(hash, b))
  {
    hide Xor, Bit;
    WordSize();
    forall k: nat | k < 64 ensures Bit(Xor(64, hash, b), k) == if Bit(hash, k) == Bit(b, k) then 0 else 1 {
      XorBit(64, hash, b, k);
    }
  }

  /** FNV-1a: there is one word whose bits differ where state and byte differ, and a step is that word times the prime,
      modulo 2^64. */
  lemma StepIsFnv1a(hash: Word, b: Byte)
    ensures exists x: Word :: Differ(hash, b, x)
    ensures forall x: Word | Differ(hash, b, x) :: Step(hash, b) == x * 0x100_0000_01b3 % 0x1_0000_0000_0000_0000
  {
    DifferExists(hash, b);
    forall x: Word | Differ(hash, b, x) ensures x == XorByte(hash, b) {
      hide Bit, Pow2, XorByte;
      WordSize();
      BitsDetermine(64, x, XorByte(hash, b));
    }
  }

  lemma {:induction false} XorNothing(n: nat, a: nat)
    requires a < Pow2(n)
    ensures Xor(n, a, 0) == a
    decreases n
  {
    if n > 0 { XorNothing(n - 1, a / 2); }
  }

  lemma Halves(p: nat, low: nat)
    ensures (2 * p + low) / 2 == p + low / 2 && (2 * p + low) % 2 == low % 2
  {
  }

  /** A short operand reaches the low bits only. */
  lemma {:induction false} XorLow(n: nat, k: nat, high: nat, low: nat, b: nat)
    requires k <= n && low < Pow2(k) && b < Pow2(k) && high < Pow2(n - k)
    ensures Xor(n, Pow2(k) * high + low, b) == Pow2(k) * high + Xor(k, low, b)
    decreases k
  {
    hide *;
    if k == 0 {
      XorNoLow(n, high, low, b);
    } else {
      var p := Pow2(k - 1) * high;
      PowStep(k, high);
      XorLow(n - 1, k - 1, high, low / 2, b / 2);
      Halves(p, low);
      XorBits(n, 2 * p + low, b);
      XorBits(k, low, b);
      var x, y := Xor(n, 2 * p + low, b), Xor(k, low, b);
      Halves(p, y);
      SameBits(x, 2 * p + y);
    }
  }

  lemma PowStep(k: nat, high: nat)
    requires k > 0
    ensures Pow2(k) == 2 * Pow2(k - 1) && Pow2(k) * high == 2 * (Pow2(k - 1) * high)
  {
  }

  lemma XorNoLow(n: nat, high: nat, low: nat, b: nat)
    requires high < Pow2(n) && low < Pow2(0) && b < Pow2(0)
    ensures Xor(n, Pow2(0) * high + low, b) == Pow2(0) * high + Xor(0, low, b)
  {
    XorNothing(n, high);
  }

  lemma {:induction false} XorFromZero(k: nat, b: nat)
    requires b < Pow2(k)
    ensures Xor(k, 0, b) == b
    decreases k
  {
    if k > 0 { XorFromZero(k - 1, b / 2); }
  }

  lemma XorLowByte(hash: Word, b: Byte)
    ensures XorByte(hash, b) == 256 * (hash / 256) + Xor(8, hash % 256, b)
  {
    WordSize();
    Pow2Splits(8, 56);
    assert Pow2(8) == 256;
    hide Xor, Pow2;
    XorLow(64, 8, hash / 256, hash % 256, b);
  }

  /** Where the low byte of the state is zero the step adds the byte and multiplies. */
  lemma StepAdds(hash: Word, b: Byte)
    requires hash % 256 == 0
    ensures Step(hash, b) == (hash + b) * 0x100_0000_01b3 % 0x1_0000_0000_0000_0000
  {
    assert Pow2(8) == 256;
    XorFromZero(8, b);
    hide Xor, Pow2;
    XorLowByte(hash, b);
  }

  lemma {:induction false} Pow2Splits(m: nat, n: nat)
    ensures Pow2(m + n) == Pow2(m) * Pow2(n)
    decreases m
  {
    if m > 0 {
      Pow2Splits(m - 1, n);
      assert Pow2(m + n) == 2 * (Pow2(m - 1) * Pow2(n));
      assert Pow2(m) == 2 * Pow2(m - 1);
    }
  }

  /** The published FNV-1a value of the letter a, which fixes basis, prime and order. */
  lemma HashOfA()
    ensures Hashed(OFFSET_BASIS, [0x61]) == 0xaf63_dc4c_8601_ec8c
  {
    hide Xor, XorByte, TimesPrime;
    XorLowByte(OFFSET_BASIS, 0x61);
    LowOfA();
    TimesA();
    assert [0x61][1..] == [];
    assert Hashed(Step(OFFSET_BASIS, 0x61), []) == Step(OFFSET_BASIS, 0x61);
  }

  lemma LowOfA()
    ensures Xor(8, 0x25, 0x61) == 0x44
  {
    hide *;
    XorBits(8, 0x25, 0x61);
    XorBits(7, 0x12, 0x30);
    XorBits(6, 0x09, 0x18);
    XorBits(5, 0x04, 0x0c);
    XorBits(4, 0x02, 0x06);
    XorBits(3, 0x01, 0x03);
    XorBits(2, 0x00, 0x01);
    XorOfZero();
  }

  lemma XorOfZero()
    ensures Xor(1, 0, 0) == 0
  {
  }

  lemma TimesA()
    ensures TimesPrime(0xcbf2_9ce4_8422_2344) == 0xaf63_dc4c_8601_ec8c
  {
  }

  /** The state after hashing `bytes` from the state `hash`. */
  function Hashed(hash: Word, bytes: Bytes): Word
    decreases |bytes|
  {
    if bytes == [] then hash else Hashed(Step(hash, bytes[0]), bytes[1..])
  }

  /** Running the bytes backwards. */
  function Unhashed(hash: Word, bytes: Bytes): Word
    decreases |bytes|
  {
    if bytes == [] then hash else Unstep(Unhashed(hash, bytes[1..]), bytes[0])
  }

  method HashBytes(hash0: Word, bytes: Bytes) returns (hash: Word)
    ensures hash == Hashed(hash0, bytes)
  {
    hide XorByte, TimesPrime;
    hash := hash0;
    var i := 0;
    while i < |bytes|
      invariant i <= |bytes|
      invariant Hashed(hash, bytes[i..]) == Hashed(hash0, bytes)
    {
      hash := XorByte(hash, bytes[i]);
      hash := TimesPrime(hash);
      assert bytes[i..][1..] == bytes[i + 1..];
      i := i + 1;
    }
  }

  lemma {:induction false} HashedConcat(hash: Word, a: Bytes, b: Bytes)
    ensures Hashed(hash, a + b) == Hashed(Hashed(hash, a), b)
    decreases |a|
  {
    if a == [] {
      assert a + b == b;
    } else {
      assert (a + b)[1..] == a[1..] + b;
      HashedConcat(Step(hash, a[0]), a[1..], b);
    }
  }

  /** Hashing a fixed byte string is a bijection on the states. */
  lemma {:induction false} HashedBijective(hash: Word, bytes: Bytes)
    ensures Unhashed(Hashed(hash, bytes), bytes) == hash
    ensures Hashed(Unhashed(hash, bytes), bytes) == hash
    decreases |bytes|
  {
    if bytes != [] {
      HashedBijective(Step(hash, bytes[0]), bytes[1..]);
      StepBijective(hash, bytes[0], bytes[0]);
      HashedBijective(hash, bytes[1..]);
      StepBijective(Unhashed(hash, bytes[1..]), bytes[0], bytes[0]);
    }
  }

  /** Replacing one byte anywhere in the hashed stream changes the hash. */
  lemma OneByteMatters(hash: Word, bytes: Bytes, i: nat, b: Byte)
    requires i < |bytes| && bytes[i] != b
    ensures Hashed(hash, bytes[i := b]) != Hashed(hash, bytes)
  {
    hide Step, Unstep;
    var before, after := bytes[..i], bytes[i + 1..];
    var state := Hashed(hash, before);
    assert bytes == before + ([bytes[i]] + after);
    assert bytes[i := b] == before + ([b] + after);
    HashedConcat(hash, before, [bytes[i]] + after);
    HashedConcat(hash, before, [b] + after);
    assert ([bytes[i]] + after)[1..] == after && ([b] + after)[1..] == after;
    StepBijective(state, bytes[i], b);
    HashedBijective(Step(state, bytes[i]), after);
    HashedBijective(Step(state, b), after);
  }

  // ---------- Paths ----------

  /** A component of a path relative to the `crates` directory. */
  datatype Component = Parent | Normal(name: Bytes)

  type Path = seq<Component>

  predicate ByteLe(a: Byte, b: Byte) { a <= b }

  predicate NameLe(a: Bytes, b: Bytes) { LexLe(ByteLe, a, b) }

  /** Parent references sort before names; names sort by their bytes. */
  predicate ComponentLe(a: Component, b: Component) {
    a == Parent || (b.Normal? && NameLe(a.name, b.name))
  }

  /** Paths are compared component by component. */
  predicate PathLe(a: Path, b: Path) { LexLe(ComponentLe, a, b) }

  lemma PathTotalOrder()
    ensures TotalOrder(NameLe) && TotalOrder(PathLe)
  {
    LexTotalOrder(ByteLe, NameLe);
    assert TotalOrder(ComponentLe);
    LexTotalOrder(ComponentLe, PathLe);
  }

  /** ASCII text as bytes. */
  function Ascii(text: string): (b: Bytes)
    requires forall i | 0 <= i < |text| :: text[i] < '\U{80}'
    ensures |b| == |text| && forall i | 0 <= i < |text| :: b[i] == text[i] as int
  {
    seq(|text|, i requires 0 <= i < |text| => text[i] as int)
  }

  const SLASH: Byte := 0x2f

  /** The path as text, components separated by slashes. */
  function Render(path: Path): Bytes {
    if path == [] then []
    else
      (if path[0] == Parent then [0x2e, 0x2e] else path[0].name)
      + (if |path| == 1 then [] else [SLASH] + Render(path[1..]))
  }

  // ---------- The source tree ----------

  datatype Entry = File(name: Bytes, contents: Bytes) | Dir(name: Bytes, entries: seq<Entry>)

  function Depth(e: Entry): nat {
    match e
    case File(_, _) => 0
    case Dir(_, entries) => 1 + MaxDepth(entries)
  }

  function MaxDepth(entries: seq<Entry>): (d: nat)
    ensures forall e | e in entries :: Depth(e) <= d
    ensures entries != [] ==> exists e :: e in entries && Depth(e) == d
  {
    if entries == [] then 0
    else
      var rest := MaxDepth(entries[1..]);
      assert forall e | e in entries :: e == entries[0] || e in entries[1..];
      if Depth(entries[0]) > rest || entries[1..] == [] then Depth(entries[0]) else rest
  }

  /** An extension needs a nonempty stem before the last dot. */
  predicate HasRustExtension(name: Bytes) {
    |name| > 3 && name[|name| - 3..] == [0x2e, 0x72, 0x73]
  }

  predicate EntryLe(a: Entry, b: Entry) { NameLe(a.name, b.name) }

  lemma SameDepth(entries: seq<Entry>)
    ensures MaxDepth(Sort(EntryLe, entries)) <= MaxDepth(entries)
    ensures forall e :: e in Sort(EntryLe, entries) <==> e in entries
  {
    SameElements(Sort(EntryLe, entries), entries);
  }

  /** The Rust files below a directory, directory entries in name order. */
  function Walk(dir: Path, entries: seq<Entry>): seq<Path>
    decreases MaxDepth(entries), 1, 0
  {
    SameDepth(entries);
    WalkList(dir, Sort(EntryLe, entries))
  }

  function WalkList(dir: Path, entries: seq<Entry>): seq<Path>
    decreases MaxDepth(entries), 0, |entries|
  {
    if entries == [] then []
    else
      assert entries[0] in entries;
      WalkOne(dir, entries[0]) + WalkList(dir, entries[1..])
  }

  function WalkOne(dir: Path, e: Entry): seq<Path>
    decreases Depth(e), 0, 0
  {
    match e
    case Dir(name, inner) => Walk(dir + [Normal(name)], inner)
    case File(name, _) => if HasRustExtension(name) then [dir + [Normal(name)]] else []
  }

  /** What is at the Rust leaves of a directory, whatever the order of its entries. */
  function Contents(dir: Path, entries: seq<Entry>): map<Path, Bytes>
    decreases MaxDepth(entries), 0, |entries|
  {
    if entries == [] then map[]
    else
      assert entries[0] in entries;
      ContentsOne(dir, entries[0]) + Contents(dir, entries[1..])
  }

  function ContentsOne(dir: Path, e: Entry): map<Path, Bytes>
    decreases Depth(e), 0, 0
  {
    match e
    case Dir(name, inner) => Contents(dir + [Normal(name)], inner)
    case File(name, contents) => if HasRustExtension(name) then map[dir + [Normal(name)] := contents] else map[]
  }

  function EntryName(e: Entry): Bytes { e.name }

  /** The entries of every directory have different names. */
  ghost predicate WellFormed(entries: seq<Entry>)
    decreases MaxDepth(entries)
  {
    DistinctKeys(EntryName, entries) && forall e | e in entries && e.Dir? :: WellFormed(e.entries)
  }

  lemma WalkSorted(dir: Path, entries: seq<Entry>)
    ensures Walk(dir, entries) == WalkList(dir, Sort(EntryLe, entries))
  {
    hide WalkList, Sort;
  }

  lemma EntryBelow(entries: seq<Entry>, e: Entry)
    requires e in Sort(EntryLe, entries)
    ensures e.Dir? ==> MaxDepth(e.entries) < MaxDepth(entries)
  {
    hide Sort;
    SameDepth(entries);
  }

  lemma WalkOneIs(dir: Path, e: Entry)
    ensures e.Dir? ==> WalkOne(dir, e) == Walk(dir + [Normal(e.name)], e.entries)
    ensures e.File? ==> WalkOne(dir, e) == if HasRustExtension(e.name) then [dir + [Normal(e.name)]] else []
  {
    hide Walk, HasRustExtension;
  }

  lemma {:induction false} WalkListMember(dir: Path, entries: seq<Entry>, p: Path)
    ensures p in WalkList(dir, entries) <==> exists e :: e in entries && p in WalkOne(dir, e)
    decreases |entries|
  {
    if entries != [] {
      WalkListMember(dir, entries[1..], p);
      assert entries == [entries[0]] + entries[1..];
      assert entries[0] in entries;
    }
  }

  lemma {:induction false} ContentsMember(dir: Path, entries: seq<Entry>, p: Path)
    ensures p in Contents(dir, entries) <==> exists e :: e in entries && p in ContentsOne(dir, e)
    decreases |entries|
  {
    if entries != [] {
      ContentsMember(dir, entries[1..], p);
      assert entries == [entries[0]] + entries[1..];
      assert entries[0] in entries;
    }
  }

  /** The walk finds the Rust leaves and nothing else. */
  lemma {:induction false} WalkFindsLeaves(dir: Path, entries: seq<Entry>, p: Path)
    ensures p in Walk(dir, entries) <==> p in Contents(dir, entries)
    decreases MaxDepth(entries), 1
  {
    hide *;
    SameDepth(entries);
    WalkSorted(dir, entries);
    WalkListMember(dir, Sort(EntryLe, entries), p);
    ContentsMember(dir, entries, p);
    forall e | e in entries ensures p in WalkOne(dir, e) <==> p in ContentsOne(dir, e) {
      WalkOneIs(dir, e);
      ContentsOneIs(dir, e);
      if e.Dir? {
        EntryBelow(entries, e);
        WalkFindsLeaves(dir + [Normal(e.name)], e.entries, p);
      }
    }
  }

  lemma ContentsOneIs(dir: Path, e: Entry)
    ensures e.Dir? ==> ContentsOne(dir, e) == Contents(dir + [Normal(e.name)], e.entries)
    ensures e.File? ==>
              ContentsOne(dir, e) == if HasRustExtension(e.name) then map[dir + [Normal(e.name)] := e.contents] else map[]
  {
    hide Contents, HasRustExtension;
  }

  /** Everything found below an entry goes through that entry. */
  ghost predicate Through(dir: Path, name: Bytes, p: Path) {
    |p| > |dir| && p[..|dir|] == dir && p[|dir|] == Normal(name)
  }

  lemma {:induction false} FoundThrough(dir: Path, e: Entry, p: Path)
    requires p in WalkOne(dir, e)
    ensures Through(dir, e.name, p)
    decreases Depth(e)
  {
    hide WalkOne, Walk, WalkList, Sort, HasRustExtension;
    var below := dir + [Normal(e.name)];
    WalkOneIs(dir, e);
    match e
    case File(_, _) => assert p == below;
    case Dir(name, inner) =>
      WalkSorted(below, inner);
      WalkListMember(below, Sort(EntryLe, inner), p);
      var inside :| inside in Sort(EntryLe, inner) && p in WalkOne(below, inside);
      SameDepth(inner);
      FoundThrough(below, inside, p);
      assert p[..|below|][..|dir|] == dir && p[|dir|] == p[..|below|][|dir|];
  }

  lemma {:induction false} WalkOneNoRepeats(dir: Path, e: Entry)
    requires e.Dir? ==> WellFormed(e.entries)
    ensures NoRepeats(WalkOne(dir, e))
    decreases Depth(e), 1, 0
  {
    if e.Dir? { WalkNoRepeats(dir + [Normal(e.name)], e.entries); }
  }

  lemma {:induction false} WalkListNoRepeats(dir: Path, entries: seq<Entry>)
    requires DistinctKeys(EntryName, entries) && forall e | e in entries && e.Dir? :: WellFormed(e.entries)
    ensures NoRepeats(WalkList(dir, entries))
    decreases MaxDepth(entries), 1, |entries|
  {
    if entries != [] {
      assert entries[0] in entries;
      WalkOneNoRepeats(dir, entries[0]);
      WalkListNoRepeats(dir, entries[1..]);
      var a, b := WalkOne(dir, entries[0]), WalkList(dir, entries[1..]);
      forall p | p in a ensures p !in b {
        WalkListMember(dir, entries[1..], p);
        FoundThrough(dir, entries[0], p);
        forall e | e in entries[1..] ensures p !in WalkOne(dir, e) {
          if p in WalkOne(dir, e) { FoundThrough(dir, e, p); }
        }
      }
      ConcatNoRepeats(a, b);
    }
  }

  lemma ConcatNoRepeats(a: seq<Path>, b: seq<Path>)
    requires NoRepeats(a) && NoRepeats(b) && forall p | p in a :: p !in b
    ensures NoRepeats(a + b)
  {
    var c := a + b;
    forall i, j | 0 <= i < j < |c| ensures c[i] != c[j] {
      if i < |a| <= j {
        assert c[i] in a && c[j] in b;
      }
    }
  }

  /** No leaf is collected twice. */
  lemma {:induction false} WalkNoRepeats(dir: Path, entries: seq<Entry>)
    requires WellFormed(entries)
    ensures NoRepeats(Walk(dir, entries))
    decreases MaxDepth(entries), 2, 0
  {
    SameDepth(entries);
    SortDistinct(EntryLe, EntryName, entries);
    WalkListNoRepeats(dir, Sort(EntryLe, entries));
  }

  // ---------- The identity ----------

  /** The source directories of the virtual machine, the compiler, the IR and the runtime. */
  datatype Sources = Sources(vm: seq<Entry>, jit: seq<Entry>, ir: seq<Entry>, runtime: seq<Entry>)

  const PHP_VM: Bytes := Ascii("php_vm")
  const PHP_JIT: Bytes := Ascii("php_jit")
  const PHP_IR: Bytes := Ascii("php_ir")
  const PHP_RUNTIME: Bytes := Ascii("php_runtime")
  const SRC: Bytes := Ascii("src")

  const VM_DIR: Path := [Normal(PHP_VM), Normal(SRC)]

  /** The other crates are reached through the parent of the virtual machine's crate. */
  function CrateDir(crate: Bytes): Path { [Normal(PHP_VM), Parent, Normal(crate), Normal(SRC)] }

  function FilesOf(s: Sources): seq<Path> {
    Walk(VM_DIR, s.vm) + Walk(CrateDir(PHP_JIT), s.jit)
    + Walk(CrateDir(PHP_IR), s.ir) + Walk(CrateDir(PHP_RUNTIME), s.runtime)
  }

  /** Relative path and contents of every Rust leaf. */
  function AllContents(s: Sources): map<Path, Bytes> {
    Contents(VM_DIR, s.vm) + Contents(CrateDir(PHP_JIT), s.jit)
    + Contents(CrateDir(PHP_IR), s.ir) + Contents(CrateDir(PHP_RUNTIME), s.runtime)
  }

  ghost predicate WellFormedSources(s: Sources) {
    WellFormed(s.vm) && WellFormed(s.jit) && WellFormed(s.ir) && WellFormed(s.runtime)
  }

  /** The bytes that are hashed: for each file its path and then its contents. */
  function Stream(files: seq<Path>, contents: map<Path, Bytes>): Bytes
    requires forall p | p in files :: p in contents
  {
    if files == [] then []
    else
      assert forall p | p in files[1..] :: p in files;
      assert files[0] in files;
      Render(files[0]) + contents[files[0]] + Stream(files[1..], contents)
  }

  lemma FilesFound(s: Sources, p: Path)
    ensures p in FilesOf(s) <==> p in AllContents(s)
  {
    WalkFindsLeaves(VM_DIR, s.vm, p);
    WalkFindsLeaves(CrateDir(PHP_JIT), s.jit, p);
    WalkFindsLeaves(CrateDir(PHP_IR), s.ir, p);
    WalkFindsLeaves(CrateDir(PHP_RUNTIME), s.runtime, p);
  }

  lemma WalkBelow(dir: Path, entries: seq<Entry>, p: Path)
    requires p in Walk(dir, entries)
    ensures |p| > |dir| && p[..|dir|] == dir
  {
    WalkListMember(dir, Sort(EntryLe, entries), p);
    var e :| e in Sort(EntryLe, entries) && p in WalkOne(dir, e);
    FoundThrough(dir, e, p);
  }

  /** Files of different source directories are different. */
  lemma WalksApart(a: Path, b: Path, i: nat, ea: seq<Entry>, eb: seq<Entry>)
    requires i < |a| && i < |b| && a[i] != b[i]
    ensures forall p | p in Walk(a, ea) :: p !in Walk(b, eb)
  {
    forall p | p in Walk(a, ea) ensures p !in Walk(b, eb) {
      WalkBelow(a, ea, p);
      assert p[i] == p[..|a|][i];
      if p in Walk(b, eb) {
        WalkBelow(b, eb, p);
      }
    }
  }

  lemma FilesNoRepeats(s: Sources)
    requires WellFormedSources(s)
    ensures NoRepeats(FilesOf(s))
  {
    var vm, jit := Walk(VM_DIR, s.vm), Walk(CrateDir(PHP_JIT), s.jit);
    var ir, runtime := Walk(CrateDir(PHP_IR), s.ir), Walk(CrateDir(PHP_RUNTIME), s.runtime);
    WalkNoRepeats(VM_DIR, s.vm);
    WalkNoRepeats(CrateDir(PHP_JIT), s.jit);
    WalkNoRepeats(CrateDir(PHP_IR), s.ir);
    WalkNoRepeats(CrateDir(PHP_RUNTIME), s.runtime);
    CratesApart();
    hide Walk, CrateDir, NoRepeats;
    WalksApart(VM_DIR, CrateDir(PHP_JIT), 1, s.vm, s.jit);
    ConcatNoRepeats(vm, jit);
    WalksApart(VM_DIR, CrateDir(PHP_IR), 1, s.vm, s.ir);
    WalksApart(CrateDir(PHP_JIT), CrateDir(PHP_IR), 2, s.jit, s.ir);
    ConcatNoRepeats(vm + jit, ir);
    WalksApart(VM_DIR, CrateDir(PHP_RUNTIME), 1, s.vm, s.runtime);
    WalksApart(CrateDir(PHP_JIT), CrateDir(PHP_RUNTIME), 2, s.jit, s.runtime);
    WalksApart(CrateDir(PHP_IR), CrateDir(PHP_RUNTIME), 2, s.ir, s.runtime);
    ConcatNoRepeats(vm + jit + ir, runtime);
  }

  lemma CratesApart()
    ensures |VM_DIR| == 2 && forall crate :: |CrateDir(crate)| == 4 && CrateDir(crate)[1] != VM_DIR[1]
    ensures CrateDir(PHP_JIT)[2] != CrateDir(PHP_IR)[2] && CrateDir(PHP_JIT)[2] != CrateDir(PHP_RUNTIME)[2]
    ensures CrateDir(PHP_IR)[2] != CrateDir(PHP_RUNTIME)[2]
  {
    assert PHP_JIT[4] != PHP_IR[4] && PHP_JIT[4] != PHP_RUNTIME[4] && PHP_IR[4] != PHP_RUNTIME[4];
  }

  /** The files in hashing order. */
  function SortedFiles(s: Sources): (r: seq<Path>)
    ensures forall p | p in r :: p in AllContents(s)
  {
    SameElements(Sort(PathLe, FilesOf(s)), FilesOf(s));
    assert forall p :: p in FilesOf(s) <==> p in AllContents(s) by {
      forall p ensures p in FilesOf(s) <==> p in AllContents(s) { FilesFound(s, p); }
    }
    Sort(PathLe, FilesOf(s))
  }

  /** The bytes hashed for a whole source tree. */
  function HashedStream(s: Sources): Bytes { Stream(SortedFiles(s), AllContents(s)) }

  function BuildId(s: Sources): Word { Hashed(OFFSET_BASIS, HashedStream(s)) }

  lemma SameSortedFiles(s: Sources, t: Sources)
    requires WellFormedSources(s) && WellFormedSources(t) && AllContents(s).Keys == AllContents(t).Keys
    ensures SortedFiles(s) == SortedFiles(t) && NoRepeats(SortedFiles(s))
  {
    FilesNoRepeats(s);
    FilesNoRepeats(t);
    forall p ensures p in FilesOf(s) <==> p in FilesOf(t) {
      FilesFound(s, p);
      FilesFound(t, p);
    }
    ListingsPermute(FilesOf(s), FilesOf(t));
    PathTotalOrder();
    SortCanonical(PathLe, FilesOf(s), FilesOf(t));
    SortDistinct(PathLe, (p: Path) => p, FilesOf(s));
  }

  /** The identity depends only on which Rust files exist, by relative path, and on their contents:
      not on the order in which directories list their entries, nor on anything else in them. */
  lemma IdentityOfContents(s: Sources, t: Sources)
    requires WellFormedSources(s) && WellFormedSources(t) && AllContents(s) == AllContents(t)
    ensures BuildId(s) == BuildId(t)
  {
    SameSortedFiles(s, t);
  }

  function Edited(bytes: Bytes, i: nat, b: Byte): Bytes
    requires i < |bytes|
  {
    bytes[i := b]
  }

  /** Changing one byte of one file changes one byte of the stream. */
  lemma {:induction false} StreamByte(files: seq<Path>, contents: map<Path, Bytes>, p: Path, i: nat, b: Byte)
    returns (k: nat)
    requires NoRepeats(files) && forall q | q in files :: q in contents
    requires p in files && i < |contents[p]|
    ensures k < |Stream(files, contents)| && Stream(files, contents)[k] == contents[p][i]
    ensures Stream(files, contents[p := Edited(contents[p], i, b)]) == Stream(files, contents)[k := b]
    decreases |files|
  {
    hide *;
    var changed := contents[p := Edited(contents[p], i, b)];
    FirstFile(files, contents);
    FirstFile(files, changed);
    var head, body, rest := Render(files[0]), contents[files[0]], Stream(files[1..], contents);
    if p == files[0] {
      k := |head| + i;
      NotAmongTheRest(files);
      SameStream(files[1..], contents, changed);
      EditMiddle(head, body, rest, i, b);
    } else {
      assert p in files[1..];
      NotFirst(files);
      var j := StreamByte(files[1..], contents, p, i, b);
      k := |head| + |body| + j;
      EditEnd(head, body, rest, j, b);
    }
  }

  lemma FirstFile(files: seq<Path>, contents: map<Path, Bytes>)
    requires files != [] && forall q | q in files :: q in contents
    ensures files[0] in contents && forall q | q in files[1..] :: q in contents
    ensures Stream(files, contents) == Render(files[0]) + contents[files[0]] + Stream(files[1..], contents)
  {
    hide Render;
    assert forall q | q in files[1..] :: q in files;
    assert files[0] in files;
  }

  lemma NotAmongTheRest(files: seq<Path>)
    requires NoRepeats(files) && files != []
    ensures files[0] !in files[1..]
  {
  }

  lemma EditMiddle(head: Bytes, body: Bytes, rest: Bytes, i: nat, b: Byte)
    requires i < |body|
    ensures (head + body + rest)[|head| + i] == body[i]
    ensures head + Edited(body, i, b) + rest == (head + body + rest)[|head| + i := b]
  {
  }

  lemma EditEnd(head: Bytes, body: Bytes, rest: Bytes, j: nat, b: Byte)
    requires j < |rest|
    ensures (head + body + rest)[|head| + |body| + j] == rest[j]
    ensures head + body + rest[j := b] == (head + body + rest)[|head| + |body| + j := b]
  {
  }

  lemma {:induction false} SameStream(files: seq<Path>, a: map<Path, Bytes>, b: map<Path, Bytes>)
    requires forall q | q in files :: q in a && q in b && a[q] == b[q]
    ensures Stream(files, a) == Stream(files, b)
    decreases |files|
  {
    if files != [] {
      assert forall q | q in files[1..] :: q in files;
      SameStream(files[1..], a, b);
    }
  }

  /** Replacing one byte of one Rust file always changes the build identity. */
  lemma OneSourceByteMatters(s: Sources, t: Sources, p: Path, i: nat, b: Byte)
    requires WellFormedSources(s) && WellFormedSources(t)
    requires p in AllContents(s) && i < |AllContents(s)[p]| && AllContents(s)[p][i] != b
    requires AllContents(t) == AllContents(s)[p := Edited(AllContents(s)[p], i, b)]
    ensures BuildId(t) != BuildId(s)
  {
    SameSortedFiles(s, t);
    FilesFound(s, p);
    SameElements(SortedFiles(s), FilesOf(s));
    var k := StreamByte(SortedFiles(s), AllContents(s), p, i, b);
    OneByteMatters(OFFSET_BASIS, Stream(SortedFiles(s), AllContents(s)), k, b);
  }

  // ---------- The build script ----------

  lemma WalkListStep(dir: Path, entries: seq<Entry>, i: nat)
    requires i < |entries|
    ensures WalkList(dir, entries[i..]) == WalkOne(dir, entries[i]) + WalkList(dir, entries[i + 1..])
  {
    assert entries[i..][1..] == entries[i + 1..];
  }

  /** Appends the Rust files below a directory to `files`. */
  method CollectRustFiles(dir: Path, entries0: seq<Entry>, files0: seq<Path>) returns (files: seq<Path>)
    ensures files == files0 + Walk(dir, entries0)
    decreases MaxDepth(entries0)
  {
    hide *;
    files := files0;
    var entries := Sort(EntryLe, entries0);
    WalkSorted(dir, entries0);
    assert entries[0..] == entries;
    var i := 0;
    while i < |entries|
      invariant i <= |entries|
      invariant files + WalkList(dir, entries[i..]) == files0 + WalkList(dir, entries)
    {
      var e := entries[i];
      EntryBelow(entries0, e);
      WalkListStep(dir, entries, i);
      WalkOneIs(dir, e);
      ghost var before, rest := files, WalkList(dir, entries[i + 1..]);
      match e {
        case Dir(name, inner) =>
          files := CollectRustFiles(dir + [Normal(name)], inner, files);
        case File(name, _) =>
          if HasRustExtension(name) {
            files := files + [dir + [Normal(name)]];
          }
      }
      assert files == before + WalkOne(dir, e);
      assert files + rest == before + (WalkOne(dir, e) + rest);
      i := i + 1;
    }
    assert entries[i..] == [];
    NothingBelow(dir);
  }

  lemma NothingBelow(dir: Path)
    ensures WalkList(dir, []) == []
  {
  }

  // ---------- Printing ----------

  const PREFIX := "native-source-v1-"

  function HexDigit(d: nat): (c: char)
    requires d < 16
    ensures c in "0123456789abcdef"
  {
    "0123456789abcdef"[d]
  }

  /** The low `n` hexadecimal digits of a number. */
  function Hex(x: nat, n: nat): (r: string)
    ensures |r| == n
  {
    if n == 0 then "" else Hex(x / 16, n - 1) + [HexDigit(x % 16)]
  }

  function DigitValue(c: char): int {
    if '0' <= c <= '9' then c as int - '0' as int else c as int - 'a' as int + 10
  }

  function HexValue(text: string): int {
    if text == "" then 0 else 16 * HexValue(text[..|text| - 1]) + DigitValue(text[|text| - 1])
  }

  function Pow16(n: nat): nat { if n == 0 then 1 else 16 * Pow16(n - 1) }

  /** The digits denote the number. */
  lemma {:induction false} HexBack(x: nat, n: nat)
    requires x < Pow16(n)
    ensures HexValue(Hex(x, n)) == x
    decreases n
  {
    hide HexDigit, DigitValue;
    if n > 0 {
      HexBack(x / 16, n - 1);
      assert Hex(x, n)[..n - 1] == Hex(x / 16, n - 1);
      DigitBack(x % 16);
    }
  }

  lemma DigitBack(d: nat)
    requires d < 16
    ensures DigitValue(HexDigit(d)) == d
  {
  }

  /** The identity is printed with sixteen lower-case digits, from which the hash can be read. */
  lemma PrintedBack(s: Sources)
    ensures |Printed(s)| == 33 && Printed(s)[..17] == "native-source-v1-" && HexValue(Printed(s)[17..]) == BuildId(s)
  {
    var hash := BuildId(s);
    hide BuildId, Hex, HexValue;
    assert Printed(s)[17..] == Hex(hash, 16);
    SixteenDigits();
    HexBack(hash, 16);
  }

  lemma SixteenDigits()
    ensures Pow16(16) == 0x1_0000_0000_0000_0000
  {
    assert Pow16(4) == 0x1_0000;
    assert Pow16(8) == 0x1_0000_0000;
    assert Pow16(12) == 0x1_0000_0000_0000;
  }

  function Printed(s: Sources): string { PREFIX + Hex(BuildId(s), 16) }

  method AutoBuildId(s: Sources) returns (hash: Word, printed: string)
    ensures hash == BuildId(s) && printed == Printed(s)
  {
    hide Walk, Sort, CrateDir, AllContents;
    var files := CollectRustFiles(VM_DIR, s.vm, []);
    files := CollectRustFiles(CrateDir(PHP_JIT), s.jit, files);
    files := CollectRustFiles(CrateDir(PHP_IR), s.ir, files);
    files := CollectRustFiles(CrateDir(PHP_RUNTIME), s.runtime, files);
    assert files == FilesOf(s);
    files := Sort(PathLe, files);
    assert files == SortedFiles(s);
    hash := HashFiles(files, AllContents(s));
    printed := PREFIX + Hex(hash, 16);
  }

  /** Hashes path and contents of each file; `contents` is what reading a path returns. */
  method HashFiles(files: seq<Path>, contents: map<Path, Bytes>) returns (hash: Word)
    requires forall p | p in files :: p in contents
    ensures hash == Hashed(OFFSET_BASIS, Stream(files, contents))
  {
    hash := OFFSET_BASIS;
    var i := 0;
    while i < |files|
      invariant i <= |files| && forall p | p in files[i..] :: p in contents
      invariant Hashed(hash, Stream(files[i..], contents)) == Hashed(OFFSET_BASIS, Stream(files, contents))
    {
      var path := files[i];
      assert path in files[i..];
      assert files[i..][1..] == files[i + 1..];
      assert forall p | p in files[i + 1..] :: p in files[i..];
      ghost var before := hash;
      hash := HashBytes(hash, Render(path));
      hash := HashBytes(hash, contents[path]);
      HashedConcat(before, Render(path), contents[path]);
      HashedConcat(before, Render(path) + contents[path], Stream(files[i + 1..], contents));
      i := i + 1;
    }
  }

  // ---------- Names, paths and trees in plain terms ----------

  lemma RustExtensionIff(name: Bytes)
    ensures HasRustExtension(name) <==> exists stem: Bytes :: stem != [] && name == stem + Ascii(".rs")
  {
    if HasRustExtension(name) {
      var stem := name[..|name| - 3];
      assert name == stem + name[|name| - 3..];
      assert name[|name| - 3..] == Ascii(".rs");
    }
    if stem: Bytes :| stem != [] && name == stem + Ascii(".rs") {
      assert name[|name| - 3..] == Ascii(".rs");
    }
  }

  /** A file below a directory is hashed under the path of the directory, a slash and its name. */
  lemma {:induction false} RenderFile(dir: Path, name: Bytes)
    requires dir != []
    ensures Render(dir + [Normal(name)]) == Render(dir) + Ascii("/") + name
    decreases |dir|
  {
    var path := dir + [Normal(name)];
    assert path[1..] == dir[1..] + [Normal(name)];
    assert Ascii("/") == [SLASH];
    if |dir| == 1 {
      assert path[1..] == [Normal(name)];
      assert Render(path[1..]) == name;
    } else {
      RenderFile(dir[1..], name);
      var head := if path[0] == Parent then [0x2e, 0x2e] else path[0].name;
      assert Render(path) == head + ([SLASH] + Render(path[1..]));
      assert Render(dir) == head + ([SLASH] + Render(dir[1..]));
    }
  }

  /** The four source directories as they are hashed. */
  lemma RenderedRoots()
    ensures Render(VM_DIR) == Ascii("php_vm") + Ascii("/") + Ascii("src")
    ensures Render(CrateDir(PHP_JIT)) == Ascii("php_vm") + Ascii("/../") + Ascii("php_jit") + Ascii("/") + Ascii("src")
    ensures Render(CrateDir(PHP_IR)) == Ascii("php_vm") + Ascii("/../") + Ascii("php_ir") + Ascii("/") + Ascii("src")
    ensures Render(CrateDir(PHP_RUNTIME)) ==
            Ascii("php_vm") + Ascii("/../") + Ascii("php_runtime") + Ascii("/") + Ascii("src")
  {
    hide Render, CrateDir;
    RenderRoot(PHP_VM, SRC);
    RenderCrate(PHP_JIT);
    RenderCrate(PHP_IR);
    RenderCrate(PHP_RUNTIME);
    assert Ascii("/") == [SLASH] && Ascii("/../") == [SLASH, 0x2e, 0x2e, SLASH];
    hide Ascii;
  }

  lemma RenderRoot(a: Bytes, b: Bytes)
    ensures Render([Normal(a), Normal(b)]) == a + [SLASH] + b
  {
    var path := [Normal(a), Normal(b)];
    assert path[1..] == [Normal(b)];
    assert Render(path[1..]) == b;
  }

  lemma RenderCrate(crate: Bytes)
    ensures Render(CrateDir(crate)) == PHP_VM + [SLASH, 0x2e, 0x2e, SLASH] + crate + [SLASH] + SRC
  {
    RenderRoot(crate, SRC);
    var path := CrateDir(crate);
    assert path[1..] == [Parent, Normal(crate), Normal(SRC)];
    assert path[1..][1..] == [Normal(crate), Normal(SRC)];
    assert Render(path[1..]) == [0x2e, 0x2e] + ([SLASH] + Render(path[1..][1..]));
  }

  /** The files are hashed in path order: two paths compare by the first component in which they differ, a parent
      reference before every name, and names by the first byte in which they differ. */
  lemma FilesInOrder(s: Sources, i: nat, j: nat, k: nat, m: nat)
    requires i < j < |SortedFiles(s)|
    ensures var a, b := SortedFiles(s)[i], SortedFiles(s)[j];
            k <= |a| && k <= |b| && a[..k] == b[..k] && (k < |a| && k < |b| ==> a[k] != b[k]) ==>
              || k == |a|
              || (k < |b| && (
                    || a[k] == Parent
                    || (b[k].Normal? && (
                          var x, y := a[k].name, b[k].name;
                          m <= |x| && m <= |y| && x[..m] == y[..m] && (m < |x| && m < |y| ==> x[m] != y[m]) ==>
                            m == |x| || (m < |y| && x[m] <= y[m])))))
  {
    PathTotalOrder();
    SortSorted(PathLe, FilesOf(s));
    var a, b := SortedFiles(s)[i], SortedFiles(s)[j];
    hide SortedFiles, FilesOf;
    assert PathLe(a, b);
    if k <= |a| && k <= |b| && a[..k] == b[..k] && (k < |a| && k < |b| ==> a[k] != b[k]) {
      LexLeIff(ComponentLe, a, b, k);
      if k < |a| && k < |b| && a[k].Normal? && b[k].Normal? {
        var x, y := a[k].name, b[k].name;
        if m <= |x| && m <= |y| && x[..m] == y[..m] && (m < |x| && m < |y| ==> x[m] != y[m]) { LexLeIff(ByteLe, x, y, m); }
      }
    }
  }

  /** Following names from directory to directory ends at a file with these contents. */
  ghost predicate Leads(entries: seq<Entry>, names: seq<Bytes>, contents: Bytes)
    decreases |names|, 1
  {
    names != [] && exists e :: e in entries && e.name == names[0] && LeadsFrom(e, names, contents)
  }

  function Components(names: seq<Bytes>): (p: Path)
    ensures |p| == |names| && forall i | 0 <= i < |names| :: p[i] == Normal(names[i])
  {
    seq(|names|, i requires 0 <= i < |names| => Normal(names[i]))
  }

  lemma LeafThrough(dir: Path, e: Entry, p: Path)
    requires p in ContentsOne(dir, e)
    ensures Through(dir, e.name, p)
  {
    WalkFindsOne(dir, e, p);
    FoundThrough(dir, e, p);
  }

  lemma WalkFindsOne(dir: Path, e: Entry, p: Path)
    ensures p in WalkOne(dir, e) <==> p in ContentsOne(dir, e)
  {
    hide *;
    WalkOneIs(dir, e);
    ContentsOneIs(dir, e);
    if e.Dir? { WalkFindsLeaves(dir + [Normal(e.name)], e.entries, p); }
  }

  /** Names are unique, so what is below an entry is there in the whole directory. */
  lemma {:induction false} ContentsThrough(dir: Path, entries: seq<Entry>, e: Entry, p: Path)
    requires DistinctKeys(EntryName, entries) && e in entries && p in ContentsOne(dir, e)
    ensures p in Contents(dir, entries) && Contents(dir, entries)[p] == ContentsOne(dir, e)[p]
    decreases |entries|
  {
    hide ContentsOne, Through;
    var rest := entries[1..];
    LeafThrough(dir, e, p);
    ContentsMember(dir, rest, p);
    if e in rest {
      ContentsThrough(dir, rest, e, p);
    } else {
      assert e == entries[0];
      forall x | x in rest ensures p !in ContentsOne(dir, x) {
        if p in ContentsOne(dir, x) {
          LeafThrough(dir, x, p);
          SameName(dir, e.name, x.name, p);
        }
      }
    }
  }

  lemma SameName(dir: Path, a: Bytes, b: Bytes, p: Path)
    requires Through(dir, a, p) && Through(dir, b, p)
    ensures a == b
  {
  }

  /** A tree holds a file at a path exactly when the names of the path lead to it and it is a Rust file. */
  lemma {:induction false} ContentsIff(dir: Path, entries: seq<Entry>, names: seq<Bytes>, contents: Bytes)
    requires WellFormed(entries) && names != []
    ensures var p := dir + Components(names);
            (p in Contents(dir, entries) && Contents(dir, entries)[p] == contents) <==>
            Leads(entries, names, contents) && HasRustExtension(names[|names| - 1])
    decreases |names|, 1
  {
    hide Contents, ContentsOne, HasRustExtension;
    var p := dir + Components(names);
    ContentsMember(dir, entries, p);
    forall e | e in entries
      ensures (p in ContentsOne(dir, e) && ContentsOne(dir, e)[p] == contents) <==>
              e.name == names[0] && LeadsFrom(e, names, contents) && HasRustExtension(names[|names| - 1])
    {
      LeafIff(dir, e, names, contents);
    }
    forall e | e in entries && p in ContentsOne(dir, e) ensures Contents(dir, entries)[p] == ContentsOne(dir, e)[p] {
      ContentsThrough(dir, entries, e, p);
    }
  }

  ghost predicate LeadsFrom(e: Entry, names: seq<Bytes>, contents: Bytes)
    requires names != []
    decreases |names|, 0
  {
    if |names| == 1 then e.File? && e.contents == contents else e.Dir? && Leads(e.entries, names[1..], contents)
  }

  lemma {:induction false} LeafIff(dir: Path, e: Entry, names: seq<Bytes>, contents: Bytes)
    requires names != [] && (e.Dir? ==> WellFormed(e.entries))
    ensures var p := dir + Components(names);
            (p in ContentsOne(dir, e) && ContentsOne(dir, e)[p] == contents) <==>
            e.name == names[0] && LeadsFrom(e, names, contents) && HasRustExtension(names[|names| - 1])
    decreases |names|, 0
  {
    hide Contents, ContentsOne, HasRustExtension;
    var p, below := dir + Components(names), dir + [Normal(e.name)];
    ContentsOneIs(dir, e);
    if p in ContentsOne(dir, e) {
      LeafThrough(dir, e, p);
      assert p[|dir|] == Normal(names[0]);
    }
    if e.name == names[0] {
      if |names| == 1 {
        assert p == below;
        if e.Dir? && p in ContentsOne(dir, e) { NothingAtRoot(below, e.entries); }
      } else {
        assert p == below + Components(names[1..]);
        assert |p| > |below|;
        if e.Dir? { ContentsIff(below, e.entries, names[1..], contents); }
      }
    }
  }

  lemma NothingAtRoot(dir: Path, entries: seq<Entry>)
    ensures dir !in Contents(dir, entries)
  {
    hide ContentsOne;
    ContentsMember(dir, entries, dir);
    if e :| e in entries && dir in ContentsOne(dir, e) { LeafThrough(dir, e, dir); }
  }

  // ---------- What the identity does not separate ----------

  const A_RS: Bytes := [0x61, 0x2e, 0x72, 0x73]
  const DOT_RS: Bytes := [0x2e, 0x72, 0x73]

  function OneFile(name: Bytes, contents: Bytes): Sources {
    Sources([File(name, contents)], [], [], [])
  }

  lemma OneFileWellFormed(name: Bytes, contents: Bytes)
    ensures WellFormedSources(OneFile(name, contents))
  {
  }

  lemma OneFileContents(name: Bytes, contents: Bytes)
    requires HasRustExtension(name)
    ensures AllContents(OneFile(name, contents)) == map[VM_DIR + [Normal(name)] := contents]
    ensures FilesOf(OneFile(name, contents)) == [VM_DIR + [Normal(name)]]
  {
    OneFileWalk(VM_DIR, name, contents);
    EmptyWalk(CrateDir(PHP_JIT));
    EmptyWalk(CrateDir(PHP_IR));
    EmptyWalk(CrateDir(PHP_RUNTIME));
    hide Walk, Contents, CrateDir;
  }

  lemma SortOne(path: Path)
    ensures Sort(PathLe, [path]) == [path]
  {
  }

  lemma OneFileStream(name: Bytes, contents: Bytes)
    requires HasRustExtension(name)
    ensures HashedStream(OneFile(name, contents)) == Render(VM_DIR + [Normal(name)]) + contents
    ensures BuildId(OneFile(name, contents)) == Hashed(OFFSET_BASIS, HashedStream(OneFile(name, contents)))
  {
    var s, path := OneFile(name, contents), VM_DIR + [Normal(name)];
    OneFileContents(name, contents);
    SortOne(path);
    hide FilesOf, AllContents, Sort, Render, Hashed;
    assert SortedFiles(s) == [path];
    assert [path][1..] == [];
    assert Stream([path], AllContents(s)) == Render(path) + contents + Stream([], AllContents(s));
    assert Render(path) + contents + [] == Render(path) + contents;
  }

  lemma OneFileWalk(dir: Path, name: Bytes, contents: Bytes)
    requires HasRustExtension(name)
    ensures Walk(dir, [File(name, contents)]) == [dir + [Normal(name)]]
    ensures Contents(dir, [File(name, contents)]) == map[dir + [Normal(name)] := contents]
  {
    var f := File(name, contents);
    assert Sort(EntryLe, [f]) == [f];
    assert WalkList(dir, [f]) == WalkOne(dir, f) + WalkList(dir, []);
    assert Contents(dir, [f]) == ContentsOne(dir, f) + Contents(dir, []);
  }

  lemma EmptyWalk(dir: Path)
    ensures Walk(dir, []) == [] && Contents(dir, []) == map[]
  {
  }

  lemma RenderVmFile(name: Bytes)
    ensures Render(VM_DIR + [Normal(name)]) == PHP_VM + [SLASH] + SRC + [SLASH] + name
  {
    var path := VM_DIR + [Normal(name)];
    assert path[1..][1..] == [Normal(name)];
    assert Render(path[1..]) == SRC + ([SLASH] + Render(path[1..][1..]));
  }

  lemma RustNames()
    ensures HasRustExtension(A_RS) && HasRustExtension(A_RS + DOT_RS) && A_RS != A_RS + DOT_RS
  {
    assert A_RS[1..] == DOT_RS && (A_RS + DOT_RS)[4..] == DOT_RS;
  }

  /** Path and contents are hashed without a boundary between them, so a file `a.rs` that contains
      ".rs" and an empty file `a.rs.rs` have the same identity. */
  lemma BoundaryNotHashed()
    ensures var s, t := OneFile(A_RS, DOT_RS), OneFile(A_RS + DOT_RS, []);
            && WellFormedSources(s) && WellFormedSources(t)
            && AllContents(s) != AllContents(t) && BuildId(s) == BuildId(t)
  {
    hide *;
    var name := A_RS + DOT_RS;
    RustNames();
    OneFileWellFormed(A_RS, DOT_RS);
    OneFileWellFormed(name, []);
    OneFileContents(A_RS, DOT_RS);
    OneFileContents(name, []);
    OneFileStream(A_RS, DOT_RS);
    OneFileStream(name, []);
    RenderVmFile(A_RS);
    RenderVmFile(name);
    var p, q := VM_DIR + [Normal(A_RS)], VM_DIR + [Normal(name)];
    assert p[|VM_DIR|] != q[|VM_DIR|];
    assert p in AllContents(OneFile(A_RS, DOT_RS)) && p !in AllContents(OneFile(name, []));
    assert Render(p) + DOT_RS == Render(q) + [];
  }

  /** Two trees of one file each are hashed alike exactly when name and contents together are the same bytes. */
  lemma OneFileAlikeIff(n: Bytes, c: Bytes, n': Bytes, c': Bytes)
    requires HasRustExtension(n) && HasRustExtension(n')
    ensures HashedStream(OneFile(n, c)) == HashedStream(OneFile(n', c')) <==> n + c == n' + c'
  {
    hide *;
    OneFileStream(n, c);
    OneFileStream(n', c');
    RenderVmFile(n);
    RenderVmFile(n');
    var dir := PHP_VM + [SLASH] + SRC + [SLASH];
    assert (dir + n) + c == dir + (n + c) && (dir + n') + c' == dir + (n' + c');
    SamePrefix(dir, n + c, n' + c');
  }

  lemma SamePrefix(a: Bytes, x: Bytes, y: Bytes)
    ensures a + x == a + y <==> x == y
  {
    assert (a + x)[|a|..] == x && (a + y)[|a|..] == y;
  }

  /** For files of given lengths the stream determines every file. */
  lemma {:induction false} StreamSeparates(files: seq<Path>, a: map<Path, Bytes>, b: map<Path, Bytes>)
    requires forall q | q in files :: q in a && q in b && |a[q]| == |b[q]|
    ensures Stream(files, a) == Stream(files, b) <==> forall q | q in files :: a[q] == b[q]
    decreases |files|
  {
    hide *;
    if files == [] {
      SameStream(files, a, b);
    } else {
      FirstFile(files, a);
      FirstFile(files, b);
      assert forall q | q in files :: q == files[0] || q in files[1..];
      assert forall q | q in files[1..] :: q in files;
      StreamSeparates(files[1..], a, b);
      PiecesEqual(Render(files[0]), a[files[0]], Stream(files[1..], a), b[files[0]], Stream(files[1..], b));
    }
  }

  lemma PiecesEqual(head: Bytes, x: Bytes, s: Bytes, y: Bytes, t: Bytes)
    requires |x| == |y|
    ensures head + x + s == head + y + t <==> x == y && s == t
  {
    var u, v := head + x + s, head + y + t;
    assert u[|head|..|head| + |x|] == x && v[|head|..|head| + |y|] == y;
    assert u[|head| + |x|..] == s && v[|head| + |y|..] == t;
  }

  /** Trees with the same paths and, path by path, files of the same length are hashed alike exactly when they
      are the same. */
  lemma SameShapeSeparated(s: Sources, t: Sources)
    requires WellFormedSources(s) && WellFormedSources(t) && AllContents(s).Keys == AllContents(t).Keys
    requires forall p | p in AllContents(s) :: |AllContents(s)[p]| == |AllContents(t)[p]|
    ensures HashedStream(s) == HashedStream(t) <==> AllContents(s) == AllContents(t)
  {
    hide WellFormedSources, AllContents, Stream, SortedFiles;
    SameSortedFiles(s, t);
    AllSorted(s);
    StreamSeparates(SortedFiles(s), AllContents(s), AllContents(t));
  }

  lemma AllSorted(s: Sources)
    ensures forall p | p in AllContents(s) :: p in SortedFiles(s)
  {
    forall p | p in AllContents(s) ensures p in SortedFiles(s) {
      FilesFound(s, p);
      SameElements(SortedFiles(s), FilesOf(s));
    }
  }

  /** The lengths are needed: in every tree, text around the path of a file may move from that file into the one
      sorted before it, and the hashed bytes stay the same. */
  lemma BoundaryMoves(s: Sources, t: Sources, k: nat, first: Bytes, moved: Bytes, last: Bytes)
    requires WellFormedSources(s) && WellFormedSources(t) && k + 1 < |SortedFiles(s)|
    requires var p, q := SortedFiles(s)[k], SortedFiles(s)[k + 1];
             && AllContents(s)[p] == first && AllContents(s)[q] == moved + Render(q) + last
             && AllContents(t) == AllContents(s)[p := first + Render(q) + moved][q := last]
    ensures AllContents(s) != AllContents(t) && HashedStream(s) == HashedStream(t) && BuildId(s) == BuildId(t)
  {
    hide *;
    var p, q := SortedFiles(s)[k], SortedFiles(s)[k + 1];
    assert p in SortedFiles(s) && q in SortedFiles(s);
    SameSortedFiles(s, t);
    IsHashed(s);
    IsHashed(t);
    StreamMoves(SortedFiles(s), AllContents(s), AllContents(t), k, first, moved, last);
    PathNotEmpty(s, q);
    TwoPlaces(SortedFiles(s), k);
    assert |AllContents(t)[p]| > |AllContents(s)[p]|;
  }

  lemma TwoPlaces(files: seq<Path>, k: nat)
    requires NoRepeats(files) && k + 1 < |files|
    ensures files[k] != files[k + 1]
  {
  }

  lemma PathNotEmpty(s: Sources, p: Path)
    requires p in SortedFiles(s)
    ensures Render(p) != []
  {
    hide Walk, AllContents, Sort, Contents;
    SameElements(SortedFiles(s), FilesOf(s));
    if p in Walk(VM_DIR, s.vm) { WalkBelow(VM_DIR, s.vm, p); }
    if p in Walk(CrateDir(PHP_JIT), s.jit) { WalkBelow(CrateDir(PHP_JIT), s.jit, p); }
    if p in Walk(CrateDir(PHP_IR), s.ir) { WalkBelow(CrateDir(PHP_IR), s.ir, p); }
    if p in Walk(CrateDir(PHP_RUNTIME), s.runtime) { WalkBelow(CrateDir(PHP_RUNTIME), s.runtime, p); }
  }

  lemma IsHashed(s: Sources)
    ensures HashedStream(s) == Stream(SortedFiles(s), AllContents(s)) && BuildId(s) == Hashed(OFFSET_BASIS, HashedStream(s))
  {
    hide Stream, SortedFiles, AllContents;
  }

  lemma {:induction false} StreamMoves(files: seq<Path>, a: map<Path, Bytes>, b: map<Path, Bytes>, k: nat,
                                       first: Bytes, moved: Bytes, last: Bytes)
    requires NoRepeats(files) && k + 1 < |files| && forall p | p in files :: p in a && p in b
    requires a[files[k]] == first && a[files[k + 1]] == moved + Render(files[k + 1]) + last
    requires b == a[files[k] := first + Render(files[k + 1]) + moved][files[k + 1] := last]
    ensures Stream(files, a) == Stream(files, b)
    decreases |files|
  {
    hide *;
    FirstFile(files, a);
    FirstFile(files, b);
    NotFirst(files);
    if k > 0 {
      assert files[1..][k - 1] == files[k] && files[1..][k] == files[k + 1];
      StreamMoves(files[1..], a, b, k - 1, first, moved, last);
    } else {
      TailUnmoved(files, a, b);
      PiecesMove(Render(files[0]), Render(files[1]), first, moved, last, Stream(files[1..][1..], a));
    }
  }

  lemma TailUnmoved(files: seq<Path>, a: map<Path, Bytes>, b: map<Path, Bytes>)
    requires NoRepeats(files) && 1 < |files| && forall p | p in files :: p in a && p in b
    requires forall p | p in files && p != files[0] && p != files[1] :: a[p] == b[p]
    ensures forall p | p in files[1..][1..] :: p in a && p in b
    ensures Stream(files[1..], a) == Render(files[1]) + a[files[1]] + Stream(files[1..][1..], a)
    ensures Stream(files[1..], b) == Render(files[1]) + b[files[1]] + Stream(files[1..][1..], a)
  {
    hide *;
    NotFirst(files);
    NotFirst(files[1..]);
    FirstFile(files[1..], a);
    FirstFile(files[1..], b);
    SameStream(files[1..][1..], a, b);
  }

  lemma PiecesMove(p: Bytes, q: Bytes, first: Bytes, moved: Bytes, last: Bytes, end: Bytes)
    ensures p + first + (q + (moved + q + last) + end) == p + (first + q + moved) + (q + last + end)
  {
  }

  lemma NotFirst(files: seq<Path>)
    requires NoRepeats(files) && files != []
    ensures files[0] !in files[1..] && NoRepeats(files[1..])
    ensures forall p | p in files[1..] :: p in files
    ensures 1 < |files| ==> files[1] == files[1..][0]
  {
  }
}
