/** The reader of the native cache: every check on the container of an artifact before its sections are
    interpreted. */
module ArtifactDecoder {
  import opened ByteStrings
  import opened ArtifactBytes
  import opened ArtifactWriter
  import opened Options
  import opened Sorting

  /** Record `i` of the table. */
  function RecordAt(bytes: Bytes, i: nat): Record
    requires TableEnd(i + 1) <= |bytes|
  {
    var start := HEADER_LEN + i * RECORD_LEN;
    Record(Le(Slice(bytes, start, 2)), Le(Slice(bytes, start + 4, 4)), Le(Slice(bytes, start + 8, 8)),
           Le(Slice(bytes, start + 16, 8)), Le(Slice(bytes, start + 24, 4)))
  }

  /** The checks before the section table is read; the value is the number of sections. */
  function CheckHeader(bytes: Bytes, limit: nat, digest: Bytes -> Bytes): (r: Result<nat, Error>)
    ensures r.Ok? ==> 0 < r.value <= MAX_SECTIONS && TableEnd(r.value) <= |bytes| <= limit
  {
    if |bytes| < HEADER_LEN then Err(InvalidHeader)
    else
      var format := Format(Slice(bytes, 0, 4), Le(Slice(bytes, 4, 2)));
      if format != PNA2 && format != PNA1 then Err(InvalidHeader)
      else if Le(Slice(bytes, 6, 2)) != HEADER_LEN then Err(InvalidHeader)
      else if Le(Slice(bytes, 8, 8)) != |bytes| then Err(InvalidHeader)
      else if |bytes| > limit then Err(SizeLimit)
      else
        var n := Le(Slice(bytes, 16, 4));
        if n == 0 || n > MAX_SECTIONS then Err(InvalidHeader)
        else if Le(Slice(bytes, 20, 4)) != RECORD_LEN then Err(InvalidHeader)
        else if Checksum(bytes, digest) != Slice(bytes, 24, 32) then Err(ChecksumMismatch)
        else if TableEnd(n) > |bytes| then Err(InvalidHeader)
        else Ok(n)
  }

  // ---------- The section table ----------

  predicate RecordOk(r: Record, tableEnd: nat, total: nat) {
    1 <= r.kind <= 13 && ValidAlignment(r.alignment) && tableEnd <= r.offset && r.End() <= total && Aligned(r.offset, r.alignment)
  }

  ghost predicate Apart(a: Record, b: Record) {
    a.length == 0 || b.length == 0 || a.End() <= b.offset || b.End() <= a.offset
  }

  ghost predicate PairwiseApart(rs: seq<Record>) {
    forall i, j | 0 <= i < j < |rs| :: Apart(rs[i], rs[j])
  }

  function KindOf(): Record -> nat { (r: Record) => r.kind }

  ghost predicate Sound(rs: seq<Record>, tableEnd: nat, total: nat) {
    (forall i | 0 <= i < |rs| :: RecordOk(rs[i], tableEnd, total)) && DistinctKeys(KindOf(), rs)
  }

  function Records(bytes: Bytes, n: nat): (rs: seq<Record>)
    requires TableEnd(n) <= |bytes|
    ensures |rs| == n && forall i | 0 <= i < n :: rs[i] == RecordAt(bytes, i)
  {
    seq(n, i requires 0 <= i < n => RecordAt(bytes, i))
  }

  /** The table is read in order and the first bad record ends it. */
  method ReadTable(bytes: Bytes, n: nat) returns (r: Result<seq<Record>, Error>)
    requires TableEnd(n) <= |bytes|
    ensures r == if Sound(Records(bytes, n), TableEnd(n), |bytes|) then Ok(Records(bytes, n)) else Err(InvalidSection)
  {
    hide ValidAlignment;
    hide Aligned;
    hide RecordAt;
    var records: seq<Record> := [];
    var kinds: set<nat> := {};
    var i := 0;
    while i < n
      invariant i <= n && |records| == i
      invariant forall j | 0 <= j < i :: records[j] == RecordAt(bytes, j) && RecordOk(records[j], TableEnd(n), |bytes|)
      invariant forall k :: k in kinds <==> exists j | 0 <= j < i :: records[j].kind == k
      invariant DistinctKeys(KindOf(), records)
    {
      var record := RecordAt(bytes, i);
      if !(1 <= record.kind <= 13) { return Err(InvalidSection); }
      if record.kind in kinds {
        RepeatedKind(bytes, n, records, i);
        return Err(InvalidSection);
      }
      kinds := kinds + {record.kind};
      if !RecordOk(record, TableEnd(n), |bytes|) { return Err(InvalidSection); }
      records := records + [record];
      i := i + 1;
    }
    assert records == Records(bytes, n);
    r := Ok(records);
  }

  lemma RepeatedKind(bytes: Bytes, n: nat, records: seq<Record>, i: nat)
    requires TableEnd(n) <= |bytes| && i < n && |records| == i
    requires forall j | 0 <= j < i :: records[j] == RecordAt(bytes, j)
    requires exists j | 0 <= j < i :: records[j].kind == RecordAt(bytes, i).kind
    ensures !DistinctKeys(KindOf(), Records(bytes, n))
  {
    hide RecordAt;
    var j :| 0 <= j < i && records[j].kind == RecordAt(bytes, i).kind;
    var rs := Records(bytes, n);
    assert KindOf()(rs[j]) == KindOf()(rs[i]);
  }

  // ---------- Overlaps ----------

  predicate ByOffset(a: Record, b: Record) { a.offset <= b.offset }

  function NonEmpty(rs: seq<Record>): (r: seq<Record>)
    ensures forall x :: x in r <==> x in rs && x.length > 0
  {
    if rs == [] then [] else (if rs[0].length > 0 then [rs[0]] else []) + NonEmpty(rs[1..])
  }

  lemma {:induction false} NonEmptyDistinct(rs: seq<Record>)
    requires DistinctKeys(KindOf(), rs)
    ensures DistinctKeys(KindOf(), NonEmpty(rs))
    decreases |rs|
  {
    if rs != [] {
      NonEmptyDistinct(rs[1..]);
      var rest := NonEmpty(rs[1..]);
      forall j | 0 <= j < |rest| ensures KindOf()(rs[0]) != KindOf()(rest[j]) {
        assert rest[j] in rs[1..];
        var k :| 0 <= k < |rs[1..]| && rs[1..][k] == rest[j];
        assert rs[k + 1] == rest[j];
      }
    }
  }

  ghost predicate ApartMembers(rs: seq<Record>) {
    forall a, b | a in rs && b in rs && a != b :: Apart(a, b)
  }

  lemma ApartByMembers(rs: seq<Record>)
    requires DistinctKeys(KindOf(), rs)
    ensures PairwiseApart(rs) <==> ApartMembers(rs)
  {
    if PairwiseApart(rs) {
      forall a, b | a in rs && b in rs && a != b ensures Apart(a, b) {
        var i :| 0 <= i < |rs| && rs[i] == a;
        var j :| 0 <= j < |rs| && rs[j] == b;
        if i < j { assert Apart(rs[i], rs[j]); } else { assert Apart(rs[j], rs[i]); }
      }
    }
    if ApartMembers(rs) {
      forall i, j | 0 <= i < j < |rs| ensures Apart(rs[i], rs[j]) {
        assert KindOf()(rs[i]) != KindOf()(rs[j]);
        assert rs[i] in rs && rs[j] in rs;
      }
    }
  }

  predicate Follows(rs: seq<Record>, i: nat)
    requires i + 1 < |rs|
  {
    rs[i].End() <= rs[i + 1].offset
  }

  ghost predicate Chained(rs: seq<Record>) {
    forall i | 0 <= i < |rs| - 1 :: Follows(rs, i)
  }

  /** On a list sorted by offset, comparing neighbours is enough. */
  lemma ChainedIffApart(rs: seq<Record>)
    requires SortedBy(ByOffset, rs) && forall r | r in rs :: r.length > 0
    ensures Chained(rs) <==> PairwiseApart(rs)
  {
    if PairwiseApart(rs) {
      forall i | 0 <= i < |rs| - 1 ensures Follows(rs, i) {
        assert Apart(rs[i], rs[i + 1]) && ByOffset(rs[i], rs[i + 1]);
        assert rs[i] in rs && rs[i + 1] in rs;
      }
    }
    if Chained(rs) {
      forall i, j | 0 <= i < j < |rs| ensures Apart(rs[i], rs[j]) {
        assert Follows(rs, i);
        if i + 1 < j { assert ByOffset(rs[i + 1], rs[j]); }
      }
    }
  }

  /** Nonempty records in order of offset, compared neighbour by neighbour. */
  method CheckOverlaps(records: seq<Record>) returns (ok: bool)
    requires DistinctKeys(KindOf(), records)
    ensures ok <==> PairwiseApart(records)
  {
    OverlapsDecided(records);
    ok := CompareNeighbours(Sort(ByOffset, NonEmpty(records)));
  }

  method CompareNeighbours(ordered: seq<Record>) returns (ok: bool)
    ensures ok <==> Chained(ordered)
  {
    var i := 0;
    while i + 1 < |ordered|
      invariant 0 <= i && forall j | 0 <= j < i && j + 1 < |ordered| :: Follows(ordered, j)
    {
      if !Follows(ordered, i) { return false; }
      i := i + 1;
    }
    ok := true;
  }

  lemma OverlapsDecided(records: seq<Record>)
    requires DistinctKeys(KindOf(), records)
    ensures PairwiseApart(records) <==> Chained(Sort(ByOffset, NonEmpty(records)))
  {
    hide *;
    var kept := NonEmpty(records);
    var ordered := Sort(ByOffset, kept);
    NonEmptyDistinct(records);
    SortDistinct(ByOffset, KindOf(), kept);
    OffsetOrder();
    SortSorted(ByOffset, kept);
    SameElements(ordered, kept);
    ApartByMembers(records);
    ApartByMembers(ordered);
    ChainedIffApart(ordered);
    EmptyNeverOverlaps(records, ordered);
  }

  lemma OffsetOrder()
    ensures TotalPreorder(ByOffset)
  {
  }

  lemma EmptyNeverOverlaps(records: seq<Record>, kept: seq<Record>)
    requires forall x :: x in kept <==> x in records && x.length > 0
    ensures ApartMembers(records) <==> ApartMembers(kept)
  {
    if ApartMembers(kept) {
      forall a, b | a in records && b in records && a != b ensures Apart(a, b) {
        if a.length > 0 && b.length > 0 { assert a in kept && b in kept; }
      }
    }
  }

  // ---------- The whole container ----------

  ghost predicate Framed(bytes: Bytes, n: nat)
    requires TableEnd(n) <= |bytes|
  {
    Sound(Records(bytes, n), TableEnd(n), |bytes|) && PairwiseApart(Records(bytes, n))
  }

  function SectionOf(bytes: Bytes, r: Record): Section
    requires r.End() <= |bytes|
  {
    Section(r.kind, Slice(bytes, r.offset, r.length), r.alignment, r.count)
  }

  ghost function SectionsOf(bytes: Bytes, n: nat): seq<Section>
    requires TableEnd(n) <= |bytes| && Framed(bytes, n)
  {
    var rs := Records(bytes, n);
    seq(n, i requires 0 <= i < n && RecordOk(rs[i], TableEnd(n), |bytes|) => SectionOf(bytes, rs[i]))
  }

  /** The outcome of reading a container: sections only when every check passes. */
  ghost function Unframe(bytes: Bytes, limit: nat, digest: Bytes -> Bytes): Result<seq<Section>, Error> {
    match CheckHeader(bytes, limit, digest)
    case Err(e) => Err(e)
    case Ok(n) => if Framed(bytes, n) then Ok(SectionsOf(bytes, n)) else Err(InvalidSection)
  }

  method Decode(bytes: Bytes, limit: nat, digest: Bytes -> Bytes) returns (r: Result<seq<Section>, Error>)
    ensures r == Unframe(bytes, limit, digest)
  {
    hide CheckHeader;
    hide ValidAlignment;
    hide Aligned;
    hide RecordAt;
    var header := CheckHeader(bytes, limit, digest);
    if header.Err? { return Err(header.error); }
    var n := header.value;
    var table := ReadTable(bytes, n);
    if table.Err? { return Err(table.error); }
    var records := table.value;
    var apart := CheckOverlaps(records);
    if !apart { return Err(InvalidSection); }
    var sections: seq<Section> := [];
    var i := 0;
    while i < n
      invariant i <= n && |sections| == i
      invariant forall j | 0 <= j < i :: sections[j] == SectionsOf(bytes, n)[j]
    {
      assert RecordOk(records[i], TableEnd(n), |bytes|);
      sections := sections + [SectionOf(bytes, records[i])];
      i := i + 1;
    }
    assert sections == SectionsOf(bytes, n);
    r := Ok(sections);
  }

  // ---------- The sections by kind ----------

  const KINDS: nat := 13

  /** The first section of a kind. */
  function Lookup(s: seq<Section>, kind: nat): (r: Option<Section>)
    ensures r.Some? ==> r.value in s && r.value.kind == kind
    ensures r.None? <==> forall x | x in s :: x.kind != kind
  {
    if s == [] then None
    else if s[0].kind == kind then Some(s[0])
    else
      assert forall x | x in s :: x == s[0] || x in s[1..];
      Lookup(s[1..], kind)
  }
}
