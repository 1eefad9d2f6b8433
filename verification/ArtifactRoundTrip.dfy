/** Reading what the writer wrote. */
module ArtifactRoundTrip {
  import opened Options
  import opened ByteStrings
  import opened ArtifactBytes
  import opened ArtifactWriter
  import opened ArtifactDecoder

  // ---------- Slices of an image ----------

  lemma PrefixSlice(front: Bytes, back: Bytes, at: nat, width: nat)
    requires at + width <= |front|
    ensures Slice(front + back, at, width) == Slice(front, at, width)
  {
    assert (front + back)[at..at + width] == front[at..at + width];
  }

  lemma SuffixSlice(front: Bytes, back: Bytes, at: nat, width: nat)
    requires at + width <= |back|
    ensures Slice(front + back, |front| + at, width) == Slice(back, at, width)
  {
    assert (front + back)[|front| + at..|front| + at + width] == back[at..at + width];
  }

  lemma {:induction false} TableSlice(rs: seq<Record>, k: nat, i: nat)
    requires i < k <= |rs|
    ensures Slice(TableOf(rs, k), i * RECORD_LEN, RECORD_LEN) == RecordBytes(rs[i])
    decreases k
  {
    hide RecordBytes;
    if i == k - 1 {
      SliceMiddle(TableOf(rs, k - 1), RecordBytes(rs[k - 1]), []);
      assert TableOf(rs, k) == TableOf(rs, k - 1) + RecordBytes(rs[k - 1]) + [];
    } else {
      TableSlice(rs, k - 1, i);
      PrefixSlice(TableOf(rs, k - 1), RecordBytes(rs[k - 1]), i * RECORD_LEN, RECORD_LEN);
    }
  }

  lemma {:induction false} BodySlice(s: seq<Section>, k: nat, i: nat)
    requires Sections(s) && i < k <= |s|
    ensures End(s, i) <= Offset(s, i) && Offset(s, i) + |s[i].data| <= End(s, k)
    ensures Slice(Body(s, k), Offset(s, i) - TableEnd(|s|), |s[i].data|) == s[i].data
    decreases k
  {
    hide *;
    EndStep(s, i);
    EndMonotone(s, i + 1, k);
    BodyStep(s, k - 1);
    var front := Body(s, k - 1) + Zeros(Offset(s, k - 1) - End(s, k - 1));
    EndStep(s, k - 1);
    if i == k - 1 {
      SliceMiddle(front, s[i].data, []);
      assert Body(s, k) == front + s[i].data + [];
    } else {
      BodySlice(s, k - 1, i);
      PrefixSlice(Body(s, k - 1), Zeros(Offset(s, k - 1) - End(s, k - 1)) + s[k - 1].data,
                  Offset(s, i) - TableEnd(|s|), |s[i].data|);
      assert Body(s, k) == Body(s, k - 1) + (Zeros(Offset(s, k - 1) - End(s, k - 1)) + s[k - 1].data);
    }
  }

  /** The parts of a file: everything before the table, the table and the body. */
  lemma FrameParts(f: Format, rs: seq<Record>, body: Bytes, digest: Bytes -> Bytes)
    requires |f.magic| == 4 && IsDigest(digest)
    ensures |Checksum(Unsigned(f, rs, body), digest)| == 32
    ensures var head := HeaderFields(f, TableEnd(|rs|) + |body|, |rs|) + Checksum(Unsigned(f, rs, body), digest) + Zeros(8);
            |head| == HEADER_LEN && Frame(f, rs, body, digest) == head + TableOf(rs, |rs|) + body
  {
    hide TableOf;
    hide HeaderFields;
  }

  lemma FrameRecord(f: Format, rs: seq<Record>, body: Bytes, digest: Bytes -> Bytes, i: nat)
    requires |f.magic| == 4 && IsDigest(digest) && i < |rs|
    ensures TableEnd(i + 1) <= |Frame(f, rs, body, digest)|
    ensures Slice(Frame(f, rs, body, digest), HEADER_LEN + i * RECORD_LEN, RECORD_LEN) == RecordBytes(rs[i])
  {
    hide *;
    FrameParts(f, rs, body, digest);
    var head := HeaderFields(f, TableEnd(|rs|) + |body|, |rs|) + Checksum(Unsigned(f, rs, body), digest) + Zeros(8);
    TableEnds(i, |rs|);
    TableSlice(rs, |rs|, i);
    SuffixSlice(head, TableOf(rs, |rs|), i * RECORD_LEN, RECORD_LEN);
    PrefixSlice(head + TableOf(rs, |rs|), body, HEADER_LEN + i * RECORD_LEN, RECORD_LEN);
  }

  lemma TableEnds(i: nat, n: nat)
    requires i < n
    ensures TableEnd(i + 1) == HEADER_LEN + i * RECORD_LEN + RECORD_LEN <= TableEnd(n) == HEADER_LEN + n * RECORD_LEN
    ensures i * RECORD_LEN + RECORD_LEN == (i + 1) * RECORD_LEN <= n * RECORD_LEN
  {
  }

  lemma FrameBody(f: Format, rs: seq<Record>, body: Bytes, digest: Bytes -> Bytes, at: nat, width: nat)
    requires |f.magic| == 4 && IsDigest(digest) && at + width <= |body|
    ensures Slice(Frame(f, rs, body, digest), TableEnd(|rs|) + at, width) == Slice(body, at, width)
  {
    hide *;
    FrameParts(f, rs, body, digest);
    var head := HeaderFields(f, TableEnd(|rs|) + |body|, |rs|) + Checksum(Unsigned(f, rs, body), digest) + Zeros(8);
    TableEnds'(|rs|);
    SuffixSlice(head + TableOf(rs, |rs|), body, at, width);
  }

  lemma FrameSize(f: Format, rs: seq<Record>, body: Bytes, digest: Bytes -> Bytes)
    requires |f.magic| == 4 && IsDigest(digest)
    ensures |Frame(f, rs, body, digest)| == TableEnd(|rs|) + |body|
  {
    hide *;
    FrameParts(f, rs, body, digest);
    TableEnds'(|rs|);
  }

  lemma ImageData(f: Format, s: seq<Section>, digest: Bytes -> Bytes, i: nat)
    requires |f.magic| == 4 && Sections(s) && IsDigest(digest) && i < |s|
    ensures TableEnd(|s|) <= Offset(s, i) && Offset(s, i) + |s[i].data| <= End(s, |s|)
    ensures Slice(Image(f, s, digest), Offset(s, i), |s[i].data|) == s[i].data
  {
    hide *;
    IsImage(f, s, digest);
    BodySlice(s, |s|, i);
    FrameBody(f, Planned(s), Body(s, |s|), digest, Offset(s, i) - TableEnd(|s|), |s[i].data|);
  }

  lemma TableEnds'(n: nat)
    ensures TableEnd(n) == HEADER_LEN + n * RECORD_LEN
  {
  }

  // ---------- The header ----------

  lemma HeaderSlices(f: Format, total: nat, n: nat, back: Bytes)
    requires |f.magic| == 4
    ensures var bytes := HeaderFields(f, total, n) + back;
            && Slice(bytes, 0, 4) == f.magic
            && Slice(bytes, 4, 2) == LeBytes(f.version, 2)
            && Slice(bytes, 6, 2) == LeBytes(HEADER_LEN, 2)
            && Slice(bytes, 8, 8) == LeBytes(total, 8)
            && Slice(bytes, 16, 4) == LeBytes(n, 4)
            && Slice(bytes, 20, 4) == LeBytes(RECORD_LEN, 4)
  {
    HeaderPieces(f.magic, LeBytes(f.version, 2), LeBytes(HEADER_LEN, 2), LeBytes(total, 8), LeBytes(n, 4),
                 LeBytes(RECORD_LEN, 4), back);
  }

  lemma HeaderPieces(a: Bytes, b: Bytes, c: Bytes, d: Bytes, e: Bytes, g: Bytes, back: Bytes)
    requires |a| == 4 && |b| == 2 && |c| == 2 && |d| == 8 && |e| == 4 && |g| == 4
    ensures var bytes := a + b + c + d + e + g + back;
            && Slice(bytes, 0, 4) == a && Slice(bytes, 4, 2) == b && Slice(bytes, 6, 2) == c
            && Slice(bytes, 8, 8) == d && Slice(bytes, 16, 4) == e && Slice(bytes, 20, 4) == g
  {
    hide Slice;
    var bytes := a + b + c + d + e + g + back;
    assert bytes == [] + a + (b + c + d + e + g + back);
    SliceMiddle([], a, b + c + d + e + g + back);
    assert bytes == a + b + (c + d + e + g + back);
    SliceMiddle(a, b, c + d + e + g + back);
    assert bytes == (a + b) + c + (d + e + g + back);
    SliceMiddle(a + b, c, d + e + g + back);
    assert bytes == (a + b + c) + d + (e + g + back);
    SliceMiddle(a + b + c, d, e + g + back);
    assert bytes == (a + b + c + d) + e + (g + back);
    SliceMiddle(a + b + c + d, e, g + back);
    SliceMiddle(a + b + c + d + e, g, back);
  }

  lemma HeaderValues(f: Format, total: nat, n: nat)
    requires f == PNA1 || f == PNA2
    requires total <= USIZE_MAX && n <= MAX_SECTIONS
    ensures Le(LeBytes(f.version, 2)) == f.version && Le(LeBytes(HEADER_LEN, 2)) == HEADER_LEN
    ensures Le(LeBytes(total, 8)) == total && Le(LeBytes(n, 4)) == n && Le(LeBytes(RECORD_LEN, 4)) == RECORD_LEN
  {
    Widths();
    LeRoundTrip(f.version, 2);
    LeRoundTrip(HEADER_LEN, 2);
    LeRoundTrip(total, 8);
    LeRoundTrip(n, 4);
    LeRoundTrip(RECORD_LEN, 4);
  }

  /** The checksum does not depend on the checksum field, so it can be filled in last. */
  lemma ChecksumIgnoresItself(fields: Bytes, was: Bytes, now: Bytes, back: Bytes, digest: Bytes -> Bytes)
    requires |fields| == 24 && |was| == 32 && |now| == 32 && back != []
    ensures Checksum(fields + was + back, digest) == Checksum(fields + now + back, digest)
  {
    assert (fields + was + back)[..24] == fields && (fields + was + back)[56..] == back;
    assert (fields + now + back)[..24] == fields && (fields + now + back)[56..] == back;
  }

  /** Outside its own field the checksum covers every byte: a changed byte changes what is digested. */
  lemma ChecksumCoversTheRest(a: Bytes, b: Bytes)
    requires |a| == |b| > 56
    requires a[..24] + Zeros(32) + a[56..] == b[..24] + Zeros(32) + b[56..]
    ensures forall k | 0 <= k < |a| && !(24 <= k < 56) :: a[k] == b[k]
  {
    var x, y := a[..24] + Zeros(32) + a[56..], b[..24] + Zeros(32) + b[56..];
    forall k | 0 <= k < |a| && !(24 <= k < 56) ensures a[k] == b[k] {
      assert a[k] == x[k] && b[k] == y[k];
    }
  }

  lemma HeaderAccepted(f: Format, rs: seq<Record>, body: Bytes, limit: nat, digest: Bytes -> Bytes)
    requires (f == PNA1 || f == PNA2) && 0 < |rs| <= MAX_SECTIONS && IsDigest(digest)
    requires TableEnd(|rs|) + |body| <= limit && TableEnd(|rs|) + |body| <= USIZE_MAX
    ensures CheckHeader(Frame(f, rs, body, digest), limit, digest) == Ok(|rs|)
  {
    hide *;
    FormatsHaveMagic(f);
    var frame := Frame(f, rs, body, digest);
    var total := TableEnd(|rs|) + |body|;
    var fields, back := HeaderFields(f, total, |rs|), Zeros(8) + TableOf(rs, |rs|) + body;
    var checksum := Checksum(Unsigned(f, rs, body), digest);
    FrameParts(f, rs, body, digest);
    assert frame == fields + (checksum + back);
    assert frame == fields + checksum + back;
    HeaderSlices(f, total, |rs|, checksum + back);
    HeaderValues(f, total, |rs|);
    SliceMiddle(fields, checksum, back);
    IsUnsigned(f, rs, body);
    assert Unsigned(f, rs, body) == fields + Zeros(32) + back;
    ChecksumIgnoresItself(fields, Zeros(32), checksum, back, digest);
    TableEnds'(|rs|);
    CheckPasses(frame, f, |rs|, limit, digest);
  }

  lemma FormatsHaveMagic(f: Format)
    requires f == PNA1 || f == PNA2
    ensures |f.magic| == 4
  {
  }

  lemma CheckPasses(bytes: Bytes, f: Format, n: nat, limit: nat, digest: Bytes -> Bytes)
    requires f == PNA1 || f == PNA2
    requires 0 < n <= MAX_SECTIONS && TableEnd(n) <= |bytes| <= limit
    requires Slice(bytes, 0, 4) == f.magic && Le(Slice(bytes, 4, 2)) == f.version
    requires Le(Slice(bytes, 6, 2)) == HEADER_LEN && Le(Slice(bytes, 8, 8)) == |bytes|
    requires Le(Slice(bytes, 16, 4)) == n && Le(Slice(bytes, 20, 4)) == RECORD_LEN
    requires Checksum(bytes, digest) == Slice(bytes, 24, 32)
    ensures CheckHeader(bytes, limit, digest) == Ok(n)
  {
    hide Le;
    hide Slice;
    hide Checksum;
  }

  // ---------- The table ----------

  lemma RecordPieces(a: Bytes, z: Bytes, b: Bytes, c: Bytes, d: Bytes, e: Bytes, back: Bytes)
    requires |a| == 2 && |z| == 2 && |b| == 4 && |c| == 8 && |d| == 8 && |e| == 4
    ensures var bytes := a + z + b + c + d + e + back;
            && Slice(bytes, 0, 2) == a && Slice(bytes, 4, 4) == b
            && Slice(bytes, 8, 8) == c && Slice(bytes, 16, 8) == d && Slice(bytes, 24, 4) == e
  {
    hide Slice;
    var bytes := a + z + b + c + d + e + back;
    assert bytes == [] + a + (z + b + c + d + e + back);
    SliceMiddle([], a, z + b + c + d + e + back);
    assert bytes == (a + z) + b + (c + d + e + back);
    SliceMiddle(a + z, b, c + d + e + back);
    assert bytes == (a + z + b) + c + (d + e + back);
    SliceMiddle(a + z + b, c, d + e + back);
    assert bytes == (a + z + b + c) + d + (e + back);
    SliceMiddle(a + z + b + c, d, e + back);
    SliceMiddle(a + z + b + c + d, e, back);
  }

  /** The fields of a record fit their widths. */
  predicate Fits(r: Record) {
    r.kind < 0x1_0000 && r.alignment < 0x1_0000_0000 && r.count < 0x1_0000_0000 && r.offset <= USIZE_MAX && r.length <= USIZE_MAX
  }

  /** A record reads back as the values written. */
  lemma RecordReads(bytes: Bytes, i: nat, r: Record)
    requires TableEnd(i + 1) <= |bytes| && Fits(r)
    requires Slice(bytes, HEADER_LEN + i * RECORD_LEN, RECORD_LEN) == RecordBytes(r)
    ensures RecordAt(bytes, i) == r
  {
    hide Le;
    hide LeBytes;
    hide Slice;
    var start := HEADER_LEN + i * RECORD_LEN;
    RecordPieces(LeBytes(r.kind, 2), Zeros(2), LeBytes(r.alignment, 4), LeBytes(r.offset, 8), LeBytes(r.length, 8),
                 LeBytes(r.count, 4), Zeros(4));
    SliceOfSlice(bytes, start, RECORD_LEN, 0, 2);
    SliceOfSlice(bytes, start, RECORD_LEN, 4, 4);
    SliceOfSlice(bytes, start, RECORD_LEN, 8, 8);
    SliceOfSlice(bytes, start, RECORD_LEN, 16, 8);
    SliceOfSlice(bytes, start, RECORD_LEN, 24, 4);
    Widths();
    LeRoundTrip(r.kind, 2);
    LeRoundTrip(r.alignment, 4);
    LeRoundTrip(r.offset, 8);
    LeRoundTrip(r.length, 8);
    LeRoundTrip(r.count, 4);
  }

  /** Every table reads back, whatever it lists and whatever follows it. */
  lemma {:induction false} FrameRecords(f: Format, rs: seq<Record>, body: Bytes, digest: Bytes -> Bytes)
    requires |f.magic| == 4 && IsDigest(digest) && forall i | 0 <= i < |rs| :: Fits(rs[i])
    ensures TableEnd(|rs|) <= |Frame(f, rs, body, digest)|
    ensures Records(Frame(f, rs, body, digest), |rs|) == rs
  {
    hide Frame;
    hide RecordAt;
    hide Fits;
    var frame := Frame(f, rs, body, digest);
    forall i | 0 <= i < |rs| ensures Records(frame, |rs|)[i] == rs[i] {
      FrameRecord(f, rs, body, digest, i);
      RecordReads(frame, i, rs[i]);
    }
  }

  lemma PlannedFits(s: seq<Section>, i: nat)
    requires Sections(s) && i < |s| && End(s, |s|) <= USIZE_MAX
    ensures Fits(RecordFor(s, i))
  {
    hide PowerOfTwo;
    hide Aligned;
    hide Offset;
    hide End;
    EndStep(s, i);
    EndMonotone(s, i + 1, |s|);
    assert Storable(s[i]);
  }

  lemma {:induction false} ImageRecords(f: Format, s: seq<Section>, digest: Bytes -> Bytes)
    requires |f.magic| == 4 && Sections(s) && IsDigest(digest) && End(s, |s|) <= USIZE_MAX
    ensures TableEnd(|s|) <= |Image(f, s, digest)|
    ensures Records(Image(f, s, digest), |s|) == Planned(s)
  {
    hide *;
    IsImage(f, s, digest);
    forall i | 0 <= i < |s| ensures Fits(Planned(s)[i]) { PlannedFits(s, i); }
    FrameRecords(f, Planned(s), Body(s, |s|), digest);
  }

  ghost predicate DistinctKinds(s: seq<Section>) {
    forall i, j | 0 <= i < j < |s| :: s[i].kind != s[j].kind
  }

  /** What the writer is given: known kinds, each once, and valid alignments. */
  ghost predicate Encodable(s: seq<Section>) {
    Sections(s) && 0 < |s| <= MAX_SECTIONS && DistinctKinds(s)
  }

  lemma ImageFramed(f: Format, s: seq<Section>, digest: Bytes -> Bytes)
    requires |f.magic| == 4 && Encodable(s) && IsDigest(digest) && End(s, |s|) <= USIZE_MAX
    ensures TableEnd(|s|) <= |Image(f, s, digest)|
    ensures Framed(Image(f, s, digest), |s|)
    ensures SectionsOf(Image(f, s, digest), |s|) == s
  {
    hide *;
    IsEncodable(s);
    var image, n := Image(f, s, digest), |s|;
    ImageRecords(f, s, digest);
    PlannedSound(s);
    PlannedApart(s);
    IsFramed(image, n);
    forall i | 0 <= i < n ensures SectionsOf(image, n)[i] == s[i] {
      ImageSection(f, s, digest, i);
    }
  }

  lemma {:induction false} ImageSection(f: Format, s: seq<Section>, digest: Bytes -> Bytes, i: nat)
    requires |f.magic| == 4 && Sections(s) && IsDigest(digest) && End(s, |s|) <= USIZE_MAX && i < |s|
    requires TableEnd(|s|) <= |Image(f, s, digest)| && Framed(Image(f, s, digest), |s|)
    ensures |SectionsOf(Image(f, s, digest), |s|)| == |s|
    ensures SectionsOf(Image(f, s, digest), |s|)[i] == s[i]
  {
    hide Image;
    hide Records;
    hide Offset;
    hide End;
    hide PowerOfTwo;
    hide Aligned;
    hide Framed;
    hide Slice;
    hide SectionsOf;
    ImageRecords(f, s, digest);
    ImageData(f, s, digest, i);
    SectionRead(Image(f, s, digest), |s|, i);
  }

  lemma IsEncodable(s: seq<Section>)
    requires Encodable(s)
    ensures Sections(s) && 0 < |s| <= MAX_SECTIONS && DistinctKinds(s)
  {
    hide PowerOfTwo;
  }

  lemma IsFramed(bytes: Bytes, n: nat)
    requires TableEnd(n) <= |bytes|
    requires Sound(Records(bytes, n), TableEnd(n), |bytes|) && PairwiseApart(Records(bytes, n))
    ensures Framed(bytes, n) && |SectionsOf(bytes, n)| == n
  {
    hide Sound;
    hide PairwiseApart;
    hide Records;
  }

  lemma {:induction false} SectionRead(bytes: Bytes, n: nat, i: nat)
    requires TableEnd(n) <= |bytes| && Framed(bytes, n) && i < n
    ensures |SectionsOf(bytes, n)| == n
    ensures Records(bytes, n)[i].End() <= |bytes|
    ensures SectionsOf(bytes, n)[i] == SectionOf(bytes, Records(bytes, n)[i])
  {
    hide RecordAt;
    hide ValidAlignment;
    hide Aligned;
    assert RecordOk(Records(bytes, n)[i], TableEnd(n), |bytes|);
  }

  lemma {:induction false} RecordSound(s: seq<Section>, i: nat)
    requires Sections(s) && i < |s|
    ensures RecordOk(RecordFor(s, i), TableEnd(|s|), End(s, |s|))
  {
    hide PowerOfTwo;
    hide Aligned;
    hide Offset;
    hide End;
    EndStep(s, i);
    EndMonotone(s, i + 1, |s|);
    assert Storable(s[i]);
  }

  lemma {:induction false} PlannedSound(s: seq<Section>)
    requires Sections(s) && DistinctKinds(s)
    ensures Sound(Planned(s), TableEnd(|s|), End(s, |s|))
  {
    hide RecordOk;
    hide Offset;
    hide End;
    hide Storable;
    forall i | 0 <= i < |s| ensures RecordOk(Planned(s)[i], TableEnd(|s|), End(s, |s|)) {
      RecordSound(s, i);
    }
  }

  lemma {:induction false} PlannedApart(s: seq<Section>)
    requires Sections(s)
    ensures PairwiseApart(Planned(s))
  {
    hide PowerOfTwo;
    hide Aligned;
    hide Offset;
    hide End;
    forall i, j | 0 <= i < j < |s| ensures Apart(Planned(s)[i], Planned(s)[j]) {
      EndStep(s, i);
      EndStep(s, j);
      EndMonotone(s, i + 1, j);
    }
  }

  /** Every artifact written within the limit is read back section for section. */
  lemma RoundTrip(f: Format, s: seq<Section>, limit: nat, digest: Bytes -> Bytes)
    requires (f == PNA1 || f == PNA2) && Encodable(s) && IsDigest(digest)
    requires End(s, |s|) <= limit <= USIZE_MAX
    ensures Unframe(Image(f, s, digest), limit, digest) == Ok(s)
  {
    hide *;
    IsEncodable(s);
    FormatsHaveMagic(f);
    IsImage(f, s, digest);
    HeaderAccepted(f, Planned(s), Body(s, |s|), limit, digest);
    ImageFramed(f, s, digest);
    Unframed(Image(f, s, digest), |s|, limit, digest);
  }

  lemma Unframed(bytes: Bytes, n: nat, limit: nat, digest: Bytes -> Bytes)
    requires CheckHeader(bytes, limit, digest) == Ok(n) && TableEnd(n) <= |bytes| && Framed(bytes, n)
    ensures Unframe(bytes, limit, digest) == Ok(SectionsOf(bytes, n))
  {
    hide CheckHeader;
    hide Framed;
    hide SectionsOf;
  }

  /** Conversely, the sections that the reader accepts are ones the writer takes: known kinds, each once, valid
      alignments, counts and lengths that fit their fields. */
  lemma {:induction false} AcceptedIsEncodable(bytes: Bytes, limit: nat, digest: Bytes -> Bytes)
    requires Unframe(bytes, limit, digest).Ok?
    ensures Encodable(Unframe(bytes, limit, digest).value)
  {
    hide CheckHeader;
    hide RecordAt;
    hide PowerOfTwo;
    hide Aligned;
    var n := CheckHeader(bytes, limit, digest).value;
    var s := SectionsOf(bytes, n);
    var rs := Records(bytes, n);
    forall i | 0 <= i < n ensures Storable(s[i]) && s[i].kind == rs[i].kind {
      SectionRead(bytes, n, i);
      assert RecordOk(rs[i], TableEnd(n), |bytes|);
      CountFits(bytes, i);
    }
    forall i, j | 0 <= i < j < n ensures s[i].kind != s[j].kind {
      assert KindOf()(rs[i]) != KindOf()(rs[j]);
    }
  }

  lemma CountFits(bytes: Bytes, i: nat)
    requires TableEnd(i + 1) <= |bytes|
    ensures RecordAt(bytes, i).count < 0x1_0000_0000
  {
    hide Le;
    Widths();
    LeBounded(Slice(bytes, HEADER_LEN + i * RECORD_LEN + 24, 4));
  }
}
