/** The container format of a native artifact and its writer: a header, a table of section records, and
    the sections in table order, each at the next aligned offset. */
module ArtifactWriter {
  import opened Options
  import opened ByteStrings
  import opened ArtifactBytes

  const HEADER_LEN: nat := 64
  const RECORD_LEN: nat := 32
  const MAX_SECTIONS: nat := 32
  const USIZE_MAX: nat := 0xFFFF_FFFF_FFFF_FFFF

  datatype Error = InvalidHeader | SizeLimit | ChecksumMismatch | InvalidSection | IdentityMismatch | InvalidRelocation
                 | UnknownHelper(id: nat) | UnknownInternalSymbol(id: nat)

  datatype Section = Section(kind: nat, data: Bytes, alignment: nat, count: nat)

  /** One row of the section table. */
  datatype Record = Record(kind: nat, alignment: nat, offset: nat, length: nat, count: nat) {
    function End(): nat { offset + length }
  }

  datatype Format = Format(magic: Bytes, version: nat)

  const PNA1 := Format([80, 78, 65, 49], 1)
  const PNA2 := Format([80, 78, 65, 50], 2)

  /** SHA-256, of which only the length of its result matters here. */
  ghost predicate IsDigest(digest: Bytes -> Bytes) {
    forall s :: |digest(s)| == 32
  }

  predicate PowerOfTwo(a: nat) {
    a == 1 || (a > 1 && a % 2 == 0 && PowerOfTwo(a / 2))
  }

  predicate ValidAlignment(a: nat) { a != 0 && PowerOfTwo(a) && a <= 4096 }

  /** What the fields of the types hold: 16-bit kinds, 32-bit alignments and counts. */
  predicate Storable(s: Section) {
    1 <= s.kind <= 13 && ValidAlignment(s.alignment) && s.count < 0x1_0000_0000
  }

  // ---------- Layout ----------

  predicate Aligned(offset: nat, alignment: nat)
    requires alignment > 0
  {
    offset % alignment == 0
  }

  function AlignUp(value: nat, alignment: nat): (r: nat)
    requires alignment > 0
    ensures value <= r < value + alignment && Aligned(r, alignment)
  {
    var v := value + alignment - 1;
    assert v - v % alignment == alignment * (v / alignment);
    MultipleHasNoRemainder(v / alignment, alignment);
    v - v % alignment
  }

  lemma MultipleHasNoRemainder(k: nat, m: nat)
    requires m > 0
    ensures (m * k) % m == 0
  {
    var x := m * k;
    assert x == m * (x / m) + x % m;
    QuotientUnique(m, k, 0, x / m, x % m);
  }

  lemma QuotientUnique(m: nat, q: int, r: nat, q': int, r': nat)
    requires r < m && r' < m && m * q + r == m * q' + r'
    ensures q == q' && r == r'
  {
    if q < q' { ProductGrows(m, q, q'); }
    if q' < q { ProductGrows(m, q', q); }
  }

  lemma {:induction false} ProductGrows(m: nat, a: int, b: int)
    requires a < b
    ensures m * a + m <= m * b
    decreases b - a
  {
    ProductNext(m, b - 1);
    if a + 1 < b { ProductGrows(m, a, b - 1); }
  }

  lemma ProductNext(m: nat, a: int)
    ensures m * (a + 1) == m * a + m
  {
  }

  predicate Sections(s: seq<Section>) {
    forall i | 0 <= i < |s| :: Storable(s[i])
  }

  function TableEnd(n: nat): nat { HEADER_LEN + n * RECORD_LEN }

  /** The end of the first `k` sections. */
  function End(s: seq<Section>, k: nat): (e: nat)
    requires Sections(s) && k <= |s|
    ensures e >= TableEnd(|s|)
    decreases k, 0
  {
    if k == 0 then TableEnd(|s|) else Offset(s, k - 1) + |s[k - 1].data|
  }

  function Offset(s: seq<Section>, k: nat): (o: nat)
    requires Sections(s) && k < |s|
    ensures End(s, k) <= o && Aligned(o, s[k].alignment)
    decreases k, 1
  {
    AlignUp(End(s, k), s[k].alignment)
  }

  /** Laying out the sections leaves the range of a 64-bit offset. */
  predicate Overflows(s: seq<Section>, k: nat)
    requires Sections(s) && k <= |s|
  {
    exists i | 0 <= i < k ::
      End(s, i) + s[i].alignment - 1 > USIZE_MAX || Offset(s, i) + |s[i].data| > USIZE_MAX
  }

  lemma EndStep(s: seq<Section>, k: nat)
    requires Sections(s) && k < |s|
    ensures 0 < s[k].alignment <= 4096
    ensures End(s, k) <= Offset(s, k) < End(s, k) + s[k].alignment
    ensures End(s, k + 1) == Offset(s, k) + |s[k].data|
    ensures Offset(s, k) == AlignUp(End(s, k), s[k].alignment)
  {
    hide Aligned;
    hide PowerOfTwo;
  }

  lemma {:induction false} EndMonotone(s: seq<Section>, i: nat, k: nat)
    requires Sections(s) && i <= k <= |s|
    ensures End(s, i) <= End(s, k)
    decreases k
  {
    hide *;
    if i < k {
      EndMonotone(s, i, k - 1);
      EndStep(s, k - 1);
    }
  }

  // ---------- Contents ----------

  function RecordBytes(r: Record): (bytes: Bytes)
    ensures |bytes| == RECORD_LEN
  {
    LeBytes(r.kind, 2) + Zeros(2) + LeBytes(r.alignment, 4) + LeBytes(r.offset, 8) + LeBytes(r.length, 8)
    + LeBytes(r.count, 4) + Zeros(4)
  }

  function TableOf(rs: seq<Record>, k: nat): (t: Bytes)
    requires k <= |rs|
    ensures |t| == k * RECORD_LEN
  {
    if k == 0 then [] else TableOf(rs, k - 1) + RecordBytes(rs[k - 1])
  }

  function RecordFor(s: seq<Section>, i: nat): Record
    requires Sections(s) && i < |s|
  {
    Record(s[i].kind, s[i].alignment, Offset(s, i), |s[i].data|, s[i].count)
  }

  /** The records of sections laid out one after another. */
  function Planned(s: seq<Section>): (rs: seq<Record>)
    requires Sections(s)
    ensures |rs| == |s| && forall i | 0 <= i < |s| :: rs[i] == RecordFor(s, i)
  {
    seq(|s|, i requires 0 <= i < |s| => RecordFor(s, i))
  }

  function Body(s: seq<Section>, k: nat): (b: Bytes)
    requires Sections(s) && k <= |s|
    ensures |b| == End(s, k) - TableEnd(|s|)
  {
    if k == 0 then []
    else Body(s, k - 1) + Zeros(Offset(s, k - 1) - End(s, k - 1)) + s[k - 1].data
  }

  function HeaderFields(f: Format, total: nat, n: nat): (h: Bytes)
    requires |f.magic| == 4
    ensures |h| == 24
  {
    f.magic + LeBytes(f.version, 2) + LeBytes(HEADER_LEN, 2) + LeBytes(total, 8) + LeBytes(n, 4) + LeBytes(RECORD_LEN, 4)
  }

  /** The digest of an artifact with its checksum field read as zeros. */
  function Checksum(bytes: Bytes, digest: Bytes -> Bytes): Bytes {
    if |bytes| > 56 then digest(bytes[..24] + Zeros(32) + bytes[56..])
    else digest(bytes[..if |bytes| < 24 then |bytes| else 24])
  }

  /** A file with the given table and body, its checksum field still zero. */
  function Unsigned(f: Format, rs: seq<Record>, body: Bytes): (r: Bytes)
    requires |f.magic| == 4
    ensures |r| == TableEnd(|rs|) + |body|
  {
    HeaderFields(f, TableEnd(|rs|) + |body|, |rs|) + Zeros(32) + Zeros(8) + TableOf(rs, |rs|) + body
  }

  ghost function Frame(f: Format, rs: seq<Record>, body: Bytes, digest: Bytes -> Bytes): (r: Bytes)
    requires |f.magic| == 4 && IsDigest(digest)
    ensures |r| == TableEnd(|rs|) + |body|
  {
    HeaderFields(f, TableEnd(|rs|) + |body|, |rs|) + Checksum(Unsigned(f, rs, body), digest) + Zeros(8)
    + TableOf(rs, |rs|) + body
  }

  /** What the writer writes. */
  ghost function Image(f: Format, s: seq<Section>, digest: Bytes -> Bytes): (r: Bytes)
    requires |f.magic| == 4 && Sections(s) && IsDigest(digest)
    ensures |r| == End(s, |s|)
  {
    Frame(f, Planned(s), Body(s, |s|), digest)
  }

  // ---------- The writer ----------

  lemma LayoutStart(s: seq<Section>)
    requires Sections(s) && |s| <= MAX_SECTIONS
    ensures End(s, 0) == TableEnd(|s|) <= USIZE_MAX && !Overflows(s, 0)
  {
  }

  lemma OverflowStep(s: seq<Section>, k: nat)
    requires Sections(s) && k < |s|
    ensures Overflows(s, k + 1) <==>
      || Overflows(s, k) || End(s, k) + s[k].alignment - 1 > USIZE_MAX || Offset(s, k) + |s[k].data| > USIZE_MAX
    ensures Overflows(s, k + 1) ==> Overflows(s, |s|)
  {
    hide Offset;
    hide End;
    hide PowerOfTwo;
    hide Aligned;
  }

  /** Records and the total length, unless an offset leaves the 64-bit range. */
  method LayOut(s: seq<Section>) returns (r: Result<(seq<Record>, nat), Error>)
    requires Sections(s) && |s| <= MAX_SECTIONS
    ensures r.Err? <==> Overflows(s, |s|)
    ensures r.Err? ==> r.error == InvalidHeader
    ensures r.Ok? ==> r.value.0 == Planned(s) && r.value.1 == End(s, |s|) <= USIZE_MAX
  {
    hide *;
    LayoutStart(s);
    var offset := TableEnd(|s|);
    var records: seq<Record> := [];
    var i := 0;
    while i < |s|
      invariant i <= |s| && offset == End(s, i) <= USIZE_MAX
      invariant |records| == i && forall j | 0 <= j < i :: records[j] == RecordFor(s, j)
      invariant !Overflows(s, i)
    {
      EndStep(s, i);
      OverflowStep(s, i);
      if offset + s[i].alignment - 1 > USIZE_MAX { return Err(InvalidHeader); }
      offset := AlignUp(offset, s[i].alignment);
      IsRecord(s, i);
      records := records + [Record(s[i].kind, s[i].alignment, offset, |s[i].data|, s[i].count)];
      if offset + |s[i].data| > USIZE_MAX { return Err(InvalidHeader); }
      offset := offset + |s[i].data|;
      i := i + 1;
    }
    assert records == Planned(s);
    r := Ok((records, offset));
  }

  lemma IsRecord(s: seq<Section>, i: nat)
    requires Sections(s) && i < |s|
    ensures RecordFor(s, i) == Record(s[i].kind, s[i].alignment, Offset(s, i), |s[i].data|, s[i].count)
  {
    hide Offset;
  }

  /** Fields are written over zeros, one at a time. */
  method WriteRecord(out: array<Byte>, start: nat, r: Record)
    requires start + RECORD_LEN <= out.Length
    requires Slice(out[..], start, RECORD_LEN) == Zeros(RECORD_LEN)
    modifies out
    ensures out[..] == Splice(old(out[..]), start, RecordBytes(r))
  {
    ghost var was := out[..];
    CopyInto(out, start, LeBytes(r.kind, 2));
    CopyInto(out, start + 4, LeBytes(r.alignment, 4));
    CopyInto(out, start + 8, LeBytes(r.offset, 8));
    CopyInto(out, start + 16, LeBytes(r.length, 8));
    CopyInto(out, start + 24, LeBytes(r.count, 4));
    RecordWritten(was, start, LeBytes(r.kind, 2), LeBytes(r.alignment, 4), LeBytes(r.offset, 8), LeBytes(r.length, 8),
                  LeBytes(r.count, 4));
  }

  lemma RecordWritten(was: Bytes, start: nat, kind: Bytes, alignment: Bytes, offset: Bytes, length: Bytes, count: Bytes)
    requires start + RECORD_LEN <= |was| && Slice(was, start, RECORD_LEN) == Zeros(RECORD_LEN)
    requires |kind| == 2 && |alignment| == 4 && |offset| == 8 && |length| == 8 && |count| == 4
    ensures Splice(Splice(Splice(Splice(Splice(was, start, kind), start + 4, alignment), start + 8, offset),
                          start + 16, length), start + 24, count)
            == Splice(was, start, kind + Zeros(2) + alignment + offset + length + count + Zeros(4))
  {
    var b, a := was[..start], was[start + RECORD_LEN..];
    assert was == b + [] + Zeros(RECORD_LEN) + a by {
      assert was[start..start + RECORD_LEN] == Zeros(RECORD_LEN);
    }
    FillNext(b, [], 0, kind, 30, a);
    var d1 := [] + Zeros(0) + kind;
    FillNext(b, d1, 2, alignment, 24, a);
    var d2 := d1 + Zeros(2) + alignment;
    FillNext(b, d2, 0, offset, 16, a);
    var d3 := d2 + Zeros(0) + offset;
    FillNext(b, d3, 0, length, 8, a);
    var d4 := d3 + Zeros(0) + length;
    FillNext(b, d4, 0, count, 4, a);
    var d5 := d4 + Zeros(0) + count;
    assert d1 == kind && d2 == kind + Zeros(2) + alignment && d3 == d2 + offset && d4 == d3 + length && d5 == d4 + count;
    SpliceMiddle(b, Zeros(RECORD_LEN), a, d5 + Zeros(4));
    assert b + [] + Zeros(RECORD_LEN) + a == b + Zeros(RECORD_LEN) + a;
    assert b + d5 + Zeros(4) + a == b + (d5 + Zeros(4)) + a;
  }

  /** The records, one after another, over zeros. */
  method WriteTable(out: array<Byte>, rs: seq<Record>, ghost header: Bytes, ghost rest: nat)
    requires |header| == HEADER_LEN
    requires out[..] == header + Zeros(|rs| * RECORD_LEN) + Zeros(rest)
    modifies out
    ensures out[..] == header + TableOf(rs, |rs|) + Zeros(rest)
  {
    hide *;
    TableStart(header, rs, rest);
    var i := 0;
    while i < |rs|
      invariant i <= |rs|
      invariant out[..] == header + TableOf(rs, i) + Zeros((|rs| - i) * RECORD_LEN) + Zeros(rest)
    {
      RecordSpace(header, rs, i, rest);
      WriteRecord(out, HEADER_LEN + i * RECORD_LEN, rs[i]);
      RecordPlaced(header, rs, i, rest);
      i := i + 1;
    }
    TableDone(header, rs, rest);
  }

  lemma TableStart(header: Bytes, rs: seq<Record>, rest: nat)
    ensures header + Zeros(|rs| * RECORD_LEN) + Zeros(rest) ==
            header + TableOf(rs, 0) + Zeros((|rs| - 0) * RECORD_LEN) + Zeros(rest)
  {
    hide Zeros;
    assert TableOf(rs, 0) == [];
    assert header + [] == header;
  }

  lemma TableDone(header: Bytes, rs: seq<Record>, rest: nat)
    ensures header + TableOf(rs, |rs|) + Zeros((|rs| - |rs|) * RECORD_LEN) + Zeros(rest) ==
            header + TableOf(rs, |rs|) + Zeros(rest)
  {
    hide TableOf;
  }

  lemma RecordSpace(header: Bytes, rs: seq<Record>, i: nat, rest: nat)
    requires i < |rs| && |header| == HEADER_LEN
    ensures var out := header + TableOf(rs, i) + Zeros((|rs| - i) * RECORD_LEN) + Zeros(rest);
            && HEADER_LEN + i * RECORD_LEN + RECORD_LEN <= |out|
            && Slice(out, HEADER_LEN + i * RECORD_LEN, RECORD_LEN) == Zeros(RECORD_LEN)
  {
    hide TableOf;
    var before, left := header + TableOf(rs, i), (|rs| - i - 1) * RECORD_LEN;
    assert (|rs| - i) * RECORD_LEN == RECORD_LEN + left;
    ZerosSplit(RECORD_LEN, left);
    SliceMiddle(before, Zeros(RECORD_LEN), Zeros(left) + Zeros(rest));
    assert before + Zeros((|rs| - i) * RECORD_LEN) + Zeros(rest) ==
           before + Zeros(RECORD_LEN) + (Zeros(left) + Zeros(rest));
  }

  lemma RecordPlaced(header: Bytes, rs: seq<Record>, i: nat, rest: nat)
    requires i < |rs| && |header| == HEADER_LEN
    ensures var out := header + TableOf(rs, i) + Zeros((|rs| - i) * RECORD_LEN) + Zeros(rest);
            && HEADER_LEN + i * RECORD_LEN + RECORD_LEN <= |out|
            && Splice(out, HEADER_LEN + i * RECORD_LEN, RecordBytes(rs[i])) ==
               header + TableOf(rs, i + 1) + Zeros((|rs| - (i + 1)) * RECORD_LEN) + Zeros(rest)
  {
    hide RecordBytes;
    var record := RecordBytes(rs[i]);
    assert TableOf(rs, i + 1) == TableOf(rs, i) + Zeros(0) + record;
    hide TableOf;
    var left := (|rs| - (i + 1)) * RECORD_LEN;
    assert (|rs| - i) * RECORD_LEN == 0 + |record| + left;
    FillNext(header, TableOf(rs, i), 0, record, left, Zeros(rest));
  }

  /** The sections, each at its offset, over zeros. */
  method WriteBody(out: array<Byte>, s: seq<Section>, records: seq<Record>, ghost front: Bytes)
    requires Sections(s) && |front| == TableEnd(|s|) && records == Planned(s)
    requires out[..] == front + Zeros(End(s, |s|) - TableEnd(|s|))
    modifies out
    ensures out[..] == front + Body(s, |s|)
  {
    hide *;
    BodyEnds(front, s);
    var i := 0;
    while i < |s|
      invariant i <= |s| && End(s, i) <= End(s, |s|)
      invariant out[..] == front + Body(s, i) + Zeros(End(s, |s|) - End(s, i)) + []
    {
      SectionPlaced(front, s, i);
      IsRecord(s, i);
      CopyInto(out, records[i].offset, s[i].data);
      i := i + 1;
    }
  }

  lemma BodyEnds(front: Bytes, s: seq<Section>)
    requires Sections(s) && |front| == TableEnd(|s|)
    ensures End(s, 0) <= End(s, |s|)
    ensures front + Zeros(End(s, |s|) - TableEnd(|s|)) == front + Body(s, 0) + Zeros(End(s, |s|) - End(s, 0)) + []
    ensures front + Body(s, |s|) + Zeros(End(s, |s|) - End(s, |s|)) + [] == front + Body(s, |s|)
  {
    hide *;
    EndMonotone(s, 0, |s|);
    BodyStart(s);
  }

  lemma BodyStart(s: seq<Section>)
    requires Sections(s)
    ensures End(s, 0) == TableEnd(|s|) && Body(s, 0) == []
  {
  }

  lemma SectionPlaced(front: Bytes, s: seq<Section>, i: nat)
    requires Sections(s) && i < |s| && |front| == TableEnd(|s|)
    ensures End(s, i) <= End(s, i + 1) <= End(s, |s|)
    ensures var out := front + Body(s, i) + Zeros(End(s, |s|) - End(s, i)) + [];
            && Offset(s, i) + |s[i].data| <= |out|
            && Splice(out, Offset(s, i), s[i].data) == front + Body(s, i + 1) + Zeros(End(s, |s|) - End(s, i + 1)) + []
  {
    hide *;
    EndStep(s, i);
    EndMonotone(s, i + 1, |s|);
    BodyStep(s, i);
    FillNext(front, Body(s, i), Offset(s, i) - End(s, i), s[i].data, End(s, |s|) - End(s, i + 1), []);
  }

  lemma BodyStep(s: seq<Section>, k: nat)
    requires Sections(s) && k < |s|
    ensures Body(s, k + 1) == Body(s, k) + Zeros(Offset(s, k) - End(s, k)) + s[k].data
  {
    hide Offset;
    hide PowerOfTwo;
    hide Aligned;
  }

  method WriteHeader(out: array<Byte>, f: Format, n: nat)
    requires |f.magic| == 4 && out.Length >= 24 && out[..] == Zeros(out.Length)
    modifies out
    ensures out[..] == HeaderFields(f, out.Length, n) + Zeros(out.Length - 24)
  {
    ghost var rest := out.Length - 24;
    CopyInto(out, 0, f.magic);
    CopyInto(out, 4, LeBytes(f.version, 2));
    CopyInto(out, 6, LeBytes(HEADER_LEN, 2));
    CopyInto(out, 8, LeBytes(out.Length, 8));
    CopyInto(out, 16, LeBytes(n, 4));
    CopyInto(out, 20, LeBytes(RECORD_LEN, 4));
    HeaderWritten(rest, f.magic, LeBytes(f.version, 2), LeBytes(HEADER_LEN, 2), LeBytes(out.Length, 8), LeBytes(n, 4),
                  LeBytes(RECORD_LEN, 4));
  }

  lemma HeaderWritten(rest: nat, magic: Bytes, version: Bytes, header: Bytes, total: Bytes, n: Bytes, record: Bytes)
    requires |magic| == 4 && |version| == 2 && |header| == 2 && |total| == 8 && |n| == 4 && |record| == 4
    ensures Splice(Splice(Splice(Splice(Splice(Splice(Zeros(24 + rest), 0, magic), 4, version), 6, header), 8, total),
                          16, n), 20, record)
            == magic + version + header + total + n + record + Zeros(rest)
  {
    assert Zeros(24 + rest) == [] + [] + Zeros(0 + |magic| + (20 + rest)) + [];
    Next([], magic, 20 + rest);
    Next(magic, version, 18 + rest);
    Next(magic + version, header, 16 + rest);
    Next(magic + version + header, total, 8 + rest);
    Next(magic + version + header + total, n, 4 + rest);
    Next(magic + version + header + total + n, record, rest);
    assert [] + magic + Zeros(20 + rest) == magic + Zeros(20 + rest);
    assert [] + Zeros(24 + rest) == Zeros(24 + rest);
  }

  lemma Next(done: Bytes, data: Bytes, left: nat)
    ensures Splice(done + Zeros(|data| + left), |done|, data) == done + data + Zeros(left)
  {
    FillNext([], done, 0, data, left, []);
    assert [] + done + Zeros(0 + |data| + left) + [] == done + Zeros(|data| + left);
    assert [] + (done + Zeros(0) + data) + Zeros(left) + [] == done + data + Zeros(left);
  }

  /** The whole artifact, or the error of the first check that fails. */
  method Encode(f: Format, s: seq<Section>, limit: nat, digest: Bytes -> Bytes) returns (r: Result<Bytes, Error>)
    requires |f.magic| == 4 && Sections(s) && |s| <= MAX_SECTIONS && IsDigest(digest)
    ensures Overflows(s, |s|) ==> r == Err(InvalidHeader)
    ensures !Overflows(s, |s|) && End(s, |s|) > limit ==> r == Err(SizeLimit)
    ensures !Overflows(s, |s|) && End(s, |s|) <= limit ==> r == Ok(Image(f, s, digest))
  {
    hide *;
    var layout := LayOut(s);
    if layout.Err? { return Err(layout.error); }
    var (records, total) := layout.value;
    if total > limit { return Err(SizeLimit); }
    TotalCovers(s);
    var out := new Byte[total](_ => 0);
    AllZero(out[..]);
    WriteHeader(out, f, |s|);
    ghost var fields, body := HeaderFields(f, total, |s|), Body(s, |s|);
    ghost var rest := total - TableEnd(|s|);
    HeaderThenTable(fields, |s|, rest);
    WriteTable(out, records, fields + Zeros(32) + Zeros(8), rest);
    WriteBody(out, s, records, fields + Zeros(32) + Zeros(8) + TableOf(records, |s|));
    IsUnsigned(f, records, body);
    var checksum := Checksum(out[..], digest);
    ChecksumPlaced(f, records, body, digest);
    CopyInto(out, 24, checksum);
    IsImage(f, s, digest);
    r := Ok(out[..]);
  }

  lemma IsImage(f: Format, s: seq<Section>, digest: Bytes -> Bytes)
    requires |f.magic| == 4 && Sections(s) && IsDigest(digest)
    ensures Image(f, s, digest) == Frame(f, Planned(s), Body(s, |s|), digest)
  {
    hide Frame, Planned, Body;
  }

  lemma TotalCovers(s: seq<Section>)
    requires Sections(s)
    ensures End(s, |s|) >= TableEnd(|s|) == HEADER_LEN + |s| * RECORD_LEN
    ensures TableEnd(|s|) == 64 + |s| * 32
  {
    hide End;
  }

  lemma AllZero(s: Bytes)
    requires forall i | 0 <= i < |s| :: s[i] == 0
    ensures s == Zeros(|s|)
  {
  }

  lemma HeaderThenTable(fields: Bytes, n: nat, rest: nat)
    requires |fields| == 24
    ensures |fields + Zeros(32) + Zeros(8)| == HEADER_LEN
    ensures fields + Zeros(TableEnd(n) - 24 + rest) ==
            fields + Zeros(32) + Zeros(8) + Zeros(n * RECORD_LEN) + Zeros(rest)
  {
  }

  lemma IsUnsigned(f: Format, rs: seq<Record>, body: Bytes)
    requires |f.magic| == 4
    ensures Unsigned(f, rs, body) ==
            HeaderFields(f, TableEnd(|rs|) + |body|, |rs|) + Zeros(32) + Zeros(8) + TableOf(rs, |rs|) + body
  {
    hide TableOf;
  }

  lemma ChecksumPlaced(f: Format, rs: seq<Record>, body: Bytes, digest: Bytes -> Bytes)
    requires |f.magic| == 4 && IsDigest(digest)
    ensures |Checksum(Unsigned(f, rs, body), digest)| == 32
    ensures 24 + 32 <= |Unsigned(f, rs, body)|
    ensures Splice(Unsigned(f, rs, body), 24, Checksum(Unsigned(f, rs, body), digest)) == Frame(f, rs, body, digest)
  {
    hide TableOf;
    hide HeaderFields;
    var fields, tail := HeaderFields(f, TableEnd(|rs|) + |body|, |rs|), Zeros(8) + TableOf(rs, |rs|) + body;
    var checksum := Checksum(Unsigned(f, rs, body), digest);
    assert Unsigned(f, rs, body) == fields + Zeros(32) + tail;
    SpliceMiddle(fields, Zeros(32), tail, checksum);
    assert Frame(f, rs, body, digest) == fields + checksum + tail;
  }
}
