/** The footprint report: where the bytes of native artifacts go. It reads the container itself, and less
    strictly than the native cache does. */
module ArtifactReport {
  import opened Options
  import opened ByteStrings
  import opened ArtifactBytes
  import opened ArtifactWriter
  import opened ArtifactDecoder
  import opened ArtifactRoundTrip
  import opened Sums

  datatype Fault = BadHeader | UnsupportedVersion | InconsistentLengths | InvalidRange | ShortRead

  /** Section bytes are kept by kind; each kind has one name in the report. */
  datatype Footprint = Footprint(total: nat, headerAndTable: nat, padding: nat, payload: nat, sections: map<nat, nat>)

  // ---------- Byte counts by kind ----------

  function Get(m: map<nat, nat>, kind: nat): nat {
    if kind in m then m[kind] else 0
  }

  /** The bytes of all kinds below `n`. */
  function Below(m: map<nat, nat>, n: nat): nat {
    if n == 0 then 0 else Below(m, n - 1) + Get(m, n - 1)
  }

  lemma {:induction false} AddBelow(m: map<nat, nat>, kind: nat, x: nat, n: nat)
    ensures Below(m[kind := Get(m, kind) + x], n) == Below(m, n) + if kind < n then x else 0
    decreases n
  {
    if n != 0 { AddBelow(m, kind, x, n - 1); }
  }

  ghost predicate KindsBelow(m: map<nat, nat>, n: nat) {
    forall kind | kind in m :: kind < n
  }

  // ---------- One artifact ----------

  function Length(): Record -> int { (r: Record) => r.length }

  function LengthOfKind(kind: nat): Record -> int { (r: Record) => if r.kind == kind then r.length else 0 }

  function PreviousEnd(rs: seq<Record>, from: nat, i: nat): nat
    requires i <= |rs|
  {
    if i == 0 then from else rs[i - 1].End()
  }

  /** Each section starts at or after the end of the one listed before it and lies inside the file. */
  ghost predicate InOrder(rs: seq<Record>, from: nat, total: nat) {
    forall i | 0 <= i < |rs| :: PreviousEnd(rs, from, i) <= rs[i].offset && rs[i].End() <= total
  }

  /** So the sections come after `from`, do not overlap, and end inside the file. */
  lemma {:induction false} OrderedApart(rs: seq<Record>, from: nat, total: nat, i: nat, j: nat)
    requires InOrder(rs, from, total) && i <= j < |rs|
    ensures from <= rs[i].offset && rs[j].End() <= total
    ensures i < j ==> rs[i].End() <= rs[j].offset
    decreases j
  {
    assert PreviousEnd(rs, from, j) <= rs[j].offset;
    if i < j {
      OrderedApart(rs, from, total, i, j - 1);
    } else if j > 0 {
      OrderedApart(rs, from, total, j - 1, j - 1);
    }
  }

  function CheckLengths(bytes: Bytes): (r: Result<nat, Fault>)
    ensures r.Ok? ==> |bytes| >= HEADER_LEN && r.value == Le(Slice(bytes, 16, 4))
  {
    if |bytes| < HEADER_LEN || (Slice(bytes, 0, 4) != PNA1.magic && Slice(bytes, 0, 4) != PNA2.magic) then Err(BadHeader)
    else
      var format := Format(Slice(bytes, 0, 4), Le(Slice(bytes, 4, 2)));
      if format != PNA1 && format != PNA2 then Err(UnsupportedVersion)
      else if Le(Slice(bytes, 6, 2)) != HEADER_LEN || Le(Slice(bytes, 20, 4)) != RECORD_LEN
              || Le(Slice(bytes, 8, 8)) != |bytes| then Err(InconsistentLengths)
      else Ok(Le(Slice(bytes, 16, 4)))
  }

  /** What the report accepts. */
  ghost predicate Reportable(bytes: Bytes) {
    var header := CheckLengths(bytes);
    && header.Ok?
    && TableEnd(header.value) <= |bytes|
    && InOrder(Records(bytes, header.value), TableEnd(header.value), |bytes|)
  }

  /** Bytes by kind, and their sum, over the sections in `rs`. */
  ghost predicate Tally(sections: map<nat, nat>, payload: nat, rs: seq<Record>) {
    && payload == SumOf(Length(), rs)
    && (forall kind: nat :: Get(sections, kind) == SumOf(LengthOfKind(kind), rs))
    && (forall n: nat | KindsBelow(sections, n) :: Below(sections, n) == payload)
  }

  lemma {:induction false} NothingBelow(n: nat)
    ensures Below(map[], n) == 0
    decreases n
  {
    if n != 0 { NothingBelow(n - 1); }
  }

  lemma TallyStart()
    ensures Tally(map[], 0, [])
  {
    forall n: nat ensures Below(map[], n) == 0 { NothingBelow(n); }
  }

  lemma {:induction false} TallyStep(sections: map<nat, nat>, payload: nat, rs: seq<Record>, r: Record)
    requires Tally(sections, payload, rs)
    ensures Tally(sections[r.kind := Get(sections, r.kind) + r.length], payload + r.length, rs + [r])
  {
    var after := sections[r.kind := Get(sections, r.kind) + r.length];
    SumAppend(Length(), rs, r);
    forall kind: nat ensures Get(after, kind) == SumOf(LengthOfKind(kind), rs + [r]) {
      SumAppend(LengthOfKind(kind), rs, r);
    }
    forall n: nat | KindsBelow(after, n) ensures Below(after, n) == payload + r.length {
      assert r.kind in after;
      assert forall kind | kind in sections :: kind in after;
      AddBelow(sections, r.kind, r.length, n);
    }
  }

  /** What the report says of the sections in `rs`. */
  ghost predicate Accounts(f: Footprint, rs: seq<Record>, total: nat) {
    && f.total == total && f.headerAndTable == TableEnd(|rs|)
    && f.headerAndTable + f.padding + f.payload == f.total
    && Tally(f.sections, f.payload, rs)
  }

  lemma RecordFits(bytes: Bytes, i: nat)
    requires TableEnd(i + 1) <= |bytes|
    ensures HEADER_LEN + i * RECORD_LEN + 24 <= |bytes|
    ensures RecordAt(bytes, i).kind == Le(Slice(bytes, HEADER_LEN + i * RECORD_LEN, 2))
    ensures RecordAt(bytes, i).offset == Le(Slice(bytes, HEADER_LEN + i * RECORD_LEN + 8, 8))
    ensures RecordAt(bytes, i).length == Le(Slice(bytes, HEADER_LEN + i * RECORD_LEN + 16, 8))
  {
    hide Le;
    hide Slice;
  }

  /** A record that passes the range check lies in a table that fits, whatever the header claims. */
  lemma TableFits(bytes: Bytes, n: nat, i: nat, previousEnd: nat, offset: nat, length: nat)
    requires i < n && TableEnd(n) <= previousEnd <= offset && offset + length <= |bytes|
    ensures TableEnd(i + 1) <= TableEnd(n) <= |bytes|
  {
  }

  lemma TableStart(i: nat, n: nat)
    requires i < n
    ensures HEADER_LEN + i * RECORD_LEN + 24 <= TableEnd(i + 1) <= TableEnd(n)
  {
  }

  /** The records read so far. */
  ghost predicate ReadSoFar(bytes: Bytes, n: nat, rs: seq<Record>) {
    && (rs != [] ==> TableEnd(n) <= |bytes|)
    && |rs| <= n
    && (forall j | 0 <= j < |rs| :: TableEnd(j + 1) <= |bytes| && rs[j] == RecordAt(bytes, j))
    && InOrder(rs, TableEnd(n), |bytes|)
  }

  lemma {:induction false} ReadOneMore(bytes: Bytes, n: nat, rs: seq<Record>, offset: nat, length: nat)
    requires ReadSoFar(bytes, n, rs) && |rs| < n && TableEnd(n) <= |bytes|
    requires TableEnd(|rs| + 1) <= |bytes|
    requires var r := RecordAt(bytes, |rs|); r.offset == offset && r.length == length
    requires PreviousEnd(rs, TableEnd(n), |rs|) <= offset && offset + length <= |bytes|
    ensures ReadSoFar(bytes, n, rs + [RecordAt(bytes, |rs|)])
    ensures PreviousEnd(rs + [RecordAt(bytes, |rs|)], TableEnd(n), |rs| + 1) == offset + length
  {
    hide RecordAt;
    hide InOrder;
    OrderExtends(rs, RecordAt(bytes, |rs|), TableEnd(n), |bytes|);
  }

  lemma {:induction false} OrderExtends(rs: seq<Record>, r: Record, from: nat, total: nat)
    requires InOrder(rs, from, total) && PreviousEnd(rs, from, |rs|) <= r.offset && r.End() <= total
    ensures InOrder(rs + [r], from, total)
  {
    var rs' := rs + [r];
    forall i | 0 <= i < |rs'| ensures PreviousEnd(rs', from, i) <= rs'[i].offset && rs'[i].End() <= total {
      assert PreviousEnd(rs', from, i) == PreviousEnd(rs, from, i);
    }
  }

  /** The record after those read is out of order or out of the file, so the artifact is not reportable. */
  lemma {:induction false} NextIsBad(bytes: Bytes, n: nat, rs: seq<Record>)
    requires CheckLengths(bytes) == Ok(n) && ReadSoFar(bytes, n, rs) && |rs| < n
    requires TableEnd(n) <= |bytes| ==> TableEnd(|rs| + 1) <= |bytes|
    requires TableEnd(n) <= |bytes| ==>
               var r := RecordAt(bytes, |rs|);
               r.offset < PreviousEnd(rs, TableEnd(n), |rs|) || r.offset + r.length > |bytes|
    ensures !Reportable(bytes)
  {
    hide RecordAt;
    hide CheckLengths;
  }

  lemma {:induction false} AllRead(bytes: Bytes, n: nat, rs: seq<Record>)
    requires CheckLengths(bytes) == Ok(n) && ReadSoFar(bytes, n, rs) && |rs| == n && TableEnd(n) <= |bytes|
    ensures Reportable(bytes) && Records(bytes, n) == rs
  {
    hide RecordAt;
    hide CheckLengths;
    assert rs == Records(bytes, n);
  }

  lemma NotReportable(bytes: Bytes)
    requires CheckLengths(bytes).Err?
    ensures !Reportable(bytes) && CheckLengths(bytes).error != ShortRead
  {
    hide Le;
    hide Slice;
  }

  lemma NothingRead(bytes: Bytes, n: nat)
    requires |bytes| >= HEADER_LEN
    ensures HEADER_LEN == 64 && (n == 0 ==> TableEnd(n) <= |bytes|)
    ensures ReadSoFar(bytes, n, []) && PreviousEnd([], TableEnd(n), 0) == TableEnd(n)
  {
    hide RecordAt;
  }

  lemma IsAccount(f: Footprint, rs: seq<Record>, total: nat)
    requires f.total == total && f.headerAndTable == TableEnd(|rs|) && f.headerAndTable + f.padding + f.payload == f.total
    requires Tally(f.sections, f.payload, rs)
    ensures Accounts(f, rs, total)
  {
    hide Tally;
  }

  /** Accepts exactly the reportable artifacts and accounts for every byte of them. */
  method ParseArtifact(bytes: Bytes) returns (r: Result<Footprint, Fault>)
    ensures r.Ok? <==> Reportable(bytes)
    ensures r.Ok? ==> Accounts(r.value, Records(bytes, CheckLengths(bytes).value), |bytes|)
    ensures CheckLengths(bytes).Err? ==> r.error == CheckLengths(bytes).error
    ensures r == Err(ShortRead) <==> CheckLengths(bytes).Ok? && CheckLengths(bytes).value > 0 && |bytes| < 88
  {
    hide *;
    var header := CheckLengths(bytes);
    if header.Err? {
      NotReportable(bytes);
      return Err(header.error);
    }
    var n := header.value;
    TallyStart();
    NothingRead(bytes, n);
    var sections: map<nat, nat>, payload: nat, padding: nat, previousEnd: nat := map[], 0, 0, TableEnd(n);
    ghost var rs: seq<Record> := [];
    var i := 0;
    while i < n
      invariant i <= n && |rs| == i
      invariant ReadSoFar(bytes, n, rs) && (i > 0 ==> TableEnd(n) <= |bytes| && |bytes| >= 88)
      invariant previousEnd == PreviousEnd(rs, TableEnd(n), i) && (i > 0 ==> previousEnd <= |bytes|)
      invariant TableEnd(n) + padding + payload == previousEnd
      invariant Tally(sections, payload, rs)
    {
      var start := HEADER_LEN + i * RECORD_LEN;
      TableStart(i, n);
      if start + 2 > |bytes| {
        NextIsBad(bytes, n, rs);
        return Err(ShortRead);
      }
      var kind := Le(Slice(bytes, start, 2));
      if start + 24 > |bytes| {
        NextIsBad(bytes, n, rs);
        return Err(ShortRead);
      }
      var offset, length := Le(Slice(bytes, start + 8, 8)), Le(Slice(bytes, start + 16, 8));
      if TableEnd(n) <= |bytes| { RecordFits(bytes, i); }
      if offset < previousEnd || offset + length > |bytes| {
        NextIsBad(bytes, n, rs);
        return Err(InvalidRange);
      }
      TableFits(bytes, n, i, previousEnd, offset, length);
      RecordFits(bytes, i);
      ghost var record := RecordAt(bytes, i);
      ReadOneMore(bytes, n, rs, offset, length);
      TallyStep(sections, payload, rs, record);
      padding := padding + (offset - previousEnd);
      previousEnd := offset + length;
      sections := sections[kind := Get(sections, kind) + length];
      payload := payload + length;
      rs := rs + [record];
      i := i + 1;
    }
    AllRead(bytes, n, rs);
    padding := padding + (|bytes| - previousEnd);
    r := Ok(Footprint(|bytes|, TableEnd(n), padding, payload, sections));
    IsAccount(r.value, rs, |bytes|);
  }

  // ---------- Against the native cache ----------

  lemma HeaderImpliesLengths(bytes: Bytes, limit: nat, digest: Bytes -> Bytes)
    requires CheckHeader(bytes, limit, digest).Ok?
    ensures CheckLengths(bytes) == Ok(CheckHeader(bytes, limit, digest).value)
  {
    hide Le;
    hide Slice;
    hide Checksum;
  }

  lemma {:induction false} ChainedIffInOrder(rs: seq<Record>, from: nat, total: nat)
    requires forall i | 0 <= i < |rs| :: from <= rs[i].offset && rs[i].End() <= total
    ensures Chained(rs) <==> InOrder(rs, from, total)
  {
    if InOrder(rs, from, total) {
      forall i | 0 <= i < |rs| - 1 ensures Follows(rs, i) {
        assert PreviousEnd(rs, from, i + 1) <= rs[i + 1].offset;
      }
    }
    if Chained(rs) {
      forall i | 0 <= i < |rs| ensures PreviousEnd(rs, from, i) <= rs[i].offset {
        if i > 0 { assert Follows(rs, i - 1); }
      }
    }
  }

  /** Of the artifacts the native cache accepts, the report accepts exactly those whose sections are
      listed in file order. */
  lemma {:induction false} ReportableIffListedInOrder(bytes: Bytes, limit: nat, digest: Bytes -> Bytes)
    requires Unframe(bytes, limit, digest).Ok?
    ensures Reportable(bytes) <==> Chained(Records(bytes, CheckHeader(bytes, limit, digest).value))
  {
    hide CheckHeader;
    hide CheckLengths;
    hide RecordAt;
    hide ValidAlignment;
    hide Aligned;
    HeaderImpliesLengths(bytes, limit, digest);
    var n := CheckHeader(bytes, limit, digest).value;
    var rs := Records(bytes, n);
    forall i | 0 <= i < n ensures TableEnd(n) <= rs[i].offset && rs[i].End() <= |bytes| {
      assert RecordOk(rs[i], TableEnd(n), |bytes|);
    }
    ChainedIffInOrder(rs, TableEnd(n), |bytes|);
  }

  function DataLength(): Section -> int { (s: Section) => |s.data| }

  /** Everything the writer writes is reportable, and the payload is what was given to it. */
  lemma WrittenIsReported(f: Format, s: seq<Section>, digest: Bytes -> Bytes, fp: Footprint)
    requires (f == PNA1 || f == PNA2) && Encodable(s) && IsDigest(digest) && End(s, |s|) <= USIZE_MAX
    ensures TableEnd(|s|) <= |Image(f, s, digest)|
    ensures Reportable(Image(f, s, digest)) && CheckLengths(Image(f, s, digest)) == Ok(|s|)
    ensures Accounts(fp, Records(Image(f, s, digest), |s|), |Image(f, s, digest)|) ==>
              fp.payload == SumOf(DataLength(), s)
  {
    hide *;
    IsEncodable(s);
    FormatsHaveMagic(f);
    var image := Image(f, s, digest);
    IsImage(f, s, digest);
    HeaderAccepted(f, Planned(s), Body(s, |s|), End(s, |s|), digest);
    HeaderImpliesLengths(image, End(s, |s|), digest);
    ImageRecords(f, s, digest);
    var rs := Records(image, |s|);
    LayoutInOrder(s);
    IsReportable(image, |s|);
    LengthsAgree(s);
    if Accounts(fp, rs, |image|) { PayloadIs(fp, rs, |image|); }
  }

  lemma IsReportable(bytes: Bytes, n: nat)
    requires CheckLengths(bytes) == Ok(n) && TableEnd(n) <= |bytes|
    requires InOrder(Records(bytes, n), TableEnd(n), |bytes|)
    ensures Reportable(bytes)
  {
    hide CheckLengths;
    hide Records;
    hide InOrder;
  }

  lemma PayloadIs(fp: Footprint, rs: seq<Record>, total: nat)
    requires Accounts(fp, rs, total)
    ensures fp.payload == SumOf(Length(), rs)
  {
  }

  lemma {:induction false} LayoutInOrder(s: seq<Section>)
    requires Sections(s)
    ensures InOrder(Planned(s), TableEnd(|s|), End(s, |s|))
  {
    hide End;
    hide Offset;
    hide Storable;
    var rs := Planned(s);
    forall i | 0 <= i < |rs|
      ensures PreviousEnd(rs, TableEnd(|s|), i) <= rs[i].offset && rs[i].End() <= End(s, |s|)
    {
      EndStep(s, i);
      EndMonotone(s, i + 1, |s|);
      if i > 0 { EndStep(s, i - 1); }
    }
  }

  lemma {:induction false} LengthsAgree(s: seq<Section>)
    requires Sections(s)
    ensures SumOf(Length(), Planned(s)) == SumOf(DataLength(), s)
  {
    hide Offset;
    hide Storable;
    SameLengths(s, Planned(s));
  }

  lemma {:induction false} SameLengths(s: seq<Section>, rs: seq<Record>)
    requires |s| == |rs| && forall i | 0 <= i < |s| :: rs[i].length == |s[i].data|
    ensures SumOf(Length(), rs) == SumOf(DataLength(), s)
    decreases |s|
  {
    if s != [] { SameLengths(s[1..], rs[1..]); }
  }

  // ---------- All artifacts ----------

  datatype Totals = Totals(sections: map<nat, nat>, headerAndTable: nat, padding: nat)

  function Total(): Footprint -> int { (f: Footprint) => f.total }

  function HeaderAndTable(): Footprint -> int { (f: Footprint) => f.headerAndTable }

  function Padding(): Footprint -> int { (f: Footprint) => f.padding }

  function BytesOfKind(kind: nat): Footprint -> int { (f: Footprint) => Get(f.sections, kind) }

  /** Header, padding and sections of an artifact make up its bytes. */
  ghost predicate Balanced(f: Footprint) {
    forall n: nat | KindsBelow(f.sections, n) :: f.headerAndTable + f.padding + Below(f.sections, n) == f.total
  }

  /** What the parser accounts for is what the aggregate asks of its inputs. */
  lemma AccountedIsBalanced(f: Footprint, rs: seq<Record>, total: nat)
    requires Accounts(f, rs, total)
    ensures Balanced(f) && f.total == total
  {
  }

  /** The sections of one artifact are added to the totals, kind by kind, in any order. */
  method AddSections(totals: map<nat, nat>, sections: map<nat, nat>) returns (r: map<nat, nat>)
    ensures r.Keys == totals.Keys + sections.Keys
    ensures forall kind: nat :: Get(r, kind) == Get(totals, kind) + Get(sections, kind)
  {
    r := totals;
    var rest := sections.Keys;
    while rest != {}
      invariant rest <= sections.Keys && r.Keys == totals.Keys + (sections.Keys - rest)
      invariant forall kind: nat ::
                  Get(r, kind) == Get(totals, kind) + if kind in rest then 0 else Get(sections, kind)
    {
      var kind :| kind in rest;
      r := r[kind := Get(r, kind) + sections[kind]];
      rest := rest - {kind};
    }
  }

  lemma {:induction false} BelowSplits(r: map<nat, nat>, a: map<nat, nat>, b: map<nat, nat>, n: nat)
    requires forall kind: nat :: Get(r, kind) == Get(a, kind) + Get(b, kind)
    ensures Below(r, n) == Below(a, n) + Below(b, n)
    decreases n
  {
    if n != 0 { BelowSplits(r, a, b, n - 1); }
  }

  /** The totals of a list of artifacts, and that they add up to all of the bytes. */
  ghost predicate TotalsOf(t: Totals, fs: seq<Footprint>) {
    && t.headerAndTable == SumOf(HeaderAndTable(), fs)
    && t.padding == SumOf(Padding(), fs)
    && (forall kind: nat :: Get(t.sections, kind) == SumOf(BytesOfKind(kind), fs))
    && (forall n: nat | KindsBelow(t.sections, n) :: t.headerAndTable + t.padding + Below(t.sections, n) == SumOf(Total(), fs))
  }

  /** Byte totals by kind over all artifacts; with header, table and padding they add up to the size of
      the cache. */
  method Aggregate(artifacts: seq<Footprint>) returns (t: Totals)
    requires forall f | f in artifacts :: Balanced(f)
    ensures TotalsOf(t, artifacts)
  {
    NoTotals();
    t := Totals(map[], 0, 0);
    var i := 0;
    while i < |artifacts|
      invariant i <= |artifacts|
      invariant TotalsOf(t, artifacts[..i])
    {
      var f := artifacts[i];
      var sections := AddSections(t.sections, f.sections);
      TotalsStep(t, artifacts[..i], f, sections);
      assert artifacts[..i + 1] == artifacts[..i] + [f];
      t := Totals(sections, t.headerAndTable + f.headerAndTable, t.padding + f.padding);
      i := i + 1;
    }
    assert artifacts[..i] == artifacts;
  }

  lemma NoTotals()
    ensures TotalsOf(Totals(map[], 0, 0), [])
  {
    forall n: nat ensures Below(map[], n) == 0 { NothingBelow(n); }
  }

  lemma {:induction false} TotalsStep(t: Totals, fs: seq<Footprint>, f: Footprint, sections: map<nat, nat>)
    requires TotalsOf(t, fs) && Balanced(f)
    requires sections.Keys == t.sections.Keys + f.sections.Keys
    requires forall kind: nat :: Get(sections, kind) == Get(t.sections, kind) + Get(f.sections, kind)
    ensures TotalsOf(Totals(sections, t.headerAndTable + f.headerAndTable, t.padding + f.padding), fs + [f])
  {
    SumAppend(HeaderAndTable(), fs, f);
    SumAppend(Padding(), fs, f);
    SumAppend(Total(), fs, f);
    forall kind: nat ensures Get(sections, kind) == SumOf(BytesOfKind(kind), fs + [f]) {
      SumAppend(BytesOfKind(kind), fs, f);
    }
    forall n: nat | KindsBelow(sections, n)
      ensures t.headerAndTable + f.headerAndTable + t.padding + f.padding + Below(sections, n) == SumOf(Total(), fs + [f])
    {
      assert forall kind | kind in t.sections :: kind in sections;
      assert forall kind | kind in f.sections :: kind in sections;
      BelowSplits(sections, t.sections, f.sections, n);
    }
  }

  // ---------- A whole cache directory ----------

  function FileSize(): Bytes -> int { (bytes: Bytes) => |bytes| }

  /** Reads the files in turn; the first that is not reportable ends the report. */
  method ParseAll(files: seq<Bytes>) returns (r: Result<seq<Footprint>, Fault>)
    ensures r.Ok? <==> forall bytes | bytes in files :: Reportable(bytes)
    ensures r.Ok? ==> |r.value| == |files| && forall i | 0 <= i < |files| ::
                        Balanced(r.value[i]) && r.value[i].total == |files[i]|
  {
    hide *;
    var artifacts: seq<Footprint> := [];
    var i := 0;
    while i < |files|
      invariant i <= |files| && |artifacts| == i
      invariant forall j | 0 <= j < i :: Reportable(files[j]) && Balanced(artifacts[j]) && artifacts[j].total == |files[j]|
    {
      var parsed := ParseArtifact(files[i]);
      if parsed.Err? {
        assert files[i] in files;
        return Err(parsed.error);
      }
      ReportableHasTable(files[i]);
      AccountedIsBalanced(parsed.value, Records(files[i], CheckLengths(files[i]).value), |files[i]|);
      artifacts := artifacts + [parsed.value];
      i := i + 1;
    }
    r := Ok(artifacts);
  }

  lemma ReportableHasTable(bytes: Bytes)
    requires Reportable(bytes)
    ensures CheckLengths(bytes).Ok? && TableEnd(CheckLengths(bytes).value) <= |bytes|
  {
    hide CheckLengths;
    hide InOrder;
  }

  /** The report of a cache: made exactly when every file is reportable, and then every byte of every file is
      in one of its totals. */
  method ReportCache(files: seq<Bytes>) returns (r: Result<Totals, Fault>)
    ensures r.Ok? <==> forall bytes | bytes in files :: Reportable(bytes)
    ensures r.Ok? ==> forall n: nat | KindsBelow(r.value.sections, n) ::
              r.value.headerAndTable + r.value.padding + Below(r.value.sections, n) == SumOf(FileSize(), files)
  {
    var artifacts :- ParseAll(files);
    hide *;
    var totals := Aggregate(artifacts);
    SameTotals(artifacts, files);
    AllBytes(totals, artifacts);
    r := Ok(totals);
  }

  lemma {:induction false} SameTotals(fs: seq<Footprint>, files: seq<Bytes>)
    requires |fs| == |files| && forall i | 0 <= i < |files| :: fs[i].total == |files[i]|
    ensures SumOf(Total(), fs) == SumOf(FileSize(), files)
    decreases |fs|
  {
    if fs != [] { SameTotals(fs[1..], files[1..]); }
  }

  lemma AllBytes(t: Totals, fs: seq<Footprint>)
    requires TotalsOf(t, fs)
    ensures forall n: nat | KindsBelow(t.sections, n) ::
              t.headerAndTable + t.padding + Below(t.sections, n) == SumOf(Total(), fs)
  {
  }
}
