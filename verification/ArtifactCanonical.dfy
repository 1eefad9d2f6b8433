/** Which accepted artifacts are, byte for byte, what the writer would have written. */
module ArtifactCanonical {
  import opened Options
  import opened ByteStrings
  import opened ArtifactBytes
  import opened ArtifactWriter
  import opened ArtifactDecoder
  import opened ArtifactRoundTrip

  function FormatOf(bytes: Bytes): Format
    requires |bytes| >= HEADER_LEN
  {
    Format(Slice(bytes, 0, 4), Le(Slice(bytes, 4, 2)))
  }

  /** The reserved bytes of record `i`. */
  predicate ReservedZero(bytes: Bytes, i: nat) {
    var start := HEADER_LEN + i * RECORD_LEN;
    TableEnd(i + 1) <= |bytes| && Slice(bytes, start + 2, 2) == Zeros(2) && Slice(bytes, start + 28, 4) == Zeros(4)
  }

  /** The padding before section `i`, where the writer would place it. */
  predicate PaddingZero(bytes: Bytes, s: seq<Section>, i: nat)
    requires Sections(s) && i < |s|
  {
    Offset(s, i) <= |bytes| && Slice(bytes, End(s, i), Offset(s, i) - End(s, i)) == Zeros(Offset(s, i) - End(s, i))
  }

  /** Sections stand at the writer's offsets, nothing follows the last, and all reserved and padding bytes
      are zero. */
  ghost predicate Canonical(bytes: Bytes, s: seq<Section>)
    requires Sections(s) && TableEnd(|s|) <= |bytes|
  {
    && |bytes| == End(s, |s|)
    && Records(bytes, |s|) == Planned(s)
    && Slice(bytes, 56, 8) == Zeros(8)
    && (forall i | 0 <= i < |s| :: ReservedZero(bytes, i))
    && (forall i | 0 <= i < |s| :: PaddingZero(bytes, s, i))
  }

  // ---------- A canonical file is an image ----------

  lemma HeaderBack(bytes: Bytes, n: nat)
    requires |bytes| >= HEADER_LEN
    requires Le(Slice(bytes, 6, 2)) == HEADER_LEN && Le(Slice(bytes, 8, 8)) == |bytes|
    requires Le(Slice(bytes, 16, 4)) == n && Le(Slice(bytes, 20, 4)) == RECORD_LEN
    ensures Slice(bytes, 0, 24) == HeaderFields(Format(Slice(bytes, 0, 4), Le(Slice(bytes, 4, 2))), |bytes|, n)
  {
    hide Le;
    hide LeBytes;
    LeBack(Slice(bytes, 4, 2));
    LeBack(Slice(bytes, 6, 2));
    LeBack(Slice(bytes, 8, 8));
    LeBack(Slice(bytes, 16, 4));
    LeBack(Slice(bytes, 20, 4));
    HeaderCut(bytes);
  }

  lemma HeaderCut(bytes: Bytes)
    requires |bytes| >= 24
    ensures Slice(bytes, 0, 24) == Slice(bytes, 0, 4) + Slice(bytes, 4, 2) + Slice(bytes, 6, 2) + Slice(bytes, 8, 8)
                                   + Slice(bytes, 16, 4) + Slice(bytes, 20, 4)
  {
    Adjacent(bytes, 0, 4, 2);
    Adjacent(bytes, 0, 6, 2);
    Adjacent(bytes, 0, 8, 8);
    Adjacent(bytes, 0, 16, 4);
    Adjacent(bytes, 0, 20, 4);
  }

  lemma Adjacent(bytes: Bytes, at: nat, a: nat, b: nat)
    requires at + a + b <= |bytes|
    ensures Slice(bytes, at, a + b) == Slice(bytes, at, a) + Slice(bytes, at + a, b)
  {
  }

  lemma RecordBack(bytes: Bytes, i: nat)
    requires ReservedZero(bytes, i)
    ensures RecordBytes(RecordAt(bytes, i)) == Slice(bytes, HEADER_LEN + i * RECORD_LEN, RECORD_LEN)
  {
    hide Le;
    hide LeBytes;
    hide Slice;
    hide Zeros;
    var start := HEADER_LEN + i * RECORD_LEN;
    LeBack(Slice(bytes, start, 2));
    LeBack(Slice(bytes, start + 4, 4));
    LeBack(Slice(bytes, start + 8, 8));
    LeBack(Slice(bytes, start + 16, 8));
    LeBack(Slice(bytes, start + 24, 4));
    Adjacent(bytes, start, 2, 2);
    Adjacent(bytes, start, 4, 4);
    Adjacent(bytes, start, 8, 8);
    Adjacent(bytes, start, 16, 8);
    Adjacent(bytes, start, 24, 4);
    Adjacent(bytes, start, 28, 4);
  }

  lemma {:induction false} TableBack(bytes: Bytes, rs: seq<Record>, k: nat)
    requires k <= |rs| && TableEnd(|rs|) <= |bytes| && Records(bytes, |rs|) == rs
    requires forall i | 0 <= i < |rs| :: ReservedZero(bytes, i)
    ensures HEADER_LEN + k * RECORD_LEN <= |bytes|
    ensures TableOf(rs, k) == Slice(bytes, HEADER_LEN, k * RECORD_LEN)
    decreases k
  {
    hide *;
    TableGrows(rs, k);
    if k == 0 {
      TableEnds'(|rs|);
    } else {
      var i := k - 1;
      TableBack(bytes, rs, i);
      TableEnds(i, |rs|);
      RecordBack(bytes, i);
      RecordListed(bytes, |rs|, i);
      var width := i * RECORD_LEN;
      assert k * RECORD_LEN == width + RECORD_LEN;
      Adjacent(bytes, HEADER_LEN, width, RECORD_LEN);
    }
  }

  lemma RecordListed(bytes: Bytes, n: nat, i: nat)
    requires i < n && TableEnd(n) <= |bytes|
    ensures TableEnd(i + 1) <= |bytes| && Records(bytes, n)[i] == RecordAt(bytes, i)
  {
    hide RecordAt;
  }

  lemma TableGrows(rs: seq<Record>, k: nat)
    requires k <= |rs|
    ensures k == 0 ==> TableOf(rs, k) == []
    ensures k > 0 ==> TableOf(rs, k) == TableOf(rs, k - 1) + RecordBytes(rs[k - 1])
  {
    hide RecordBytes;
  }

  lemma {:induction false} BodyBack(bytes: Bytes, s: seq<Section>, k: nat)
    requires Sections(s) && k <= |s| && |bytes| == End(s, |s|)
    requires forall i | 0 <= i < |s| :: PaddingZero(bytes, s, i)
    requires forall i | 0 <= i < |s| ::
               Offset(s, i) + |s[i].data| <= |bytes| && Slice(bytes, Offset(s, i), |s[i].data|) == s[i].data
    ensures End(s, k) <= |bytes|
    ensures Body(s, k) == Slice(bytes, TableEnd(|s|), End(s, k) - TableEnd(|s|))
    decreases k
  {
    hide *;
    EndMonotone(s, k, |s|);
    if k == 0 {
      BodyStart(s);
    } else {
      BodyBack(bytes, s, k - 1);
      EndStep(s, k - 1);
      BodyStep(s, k - 1);
      IsPadding(bytes, s, k - 1);
      var at, e, o := TableEnd(|s|), End(s, k - 1), Offset(s, k - 1);
      Adjacent(bytes, at, e - at, o - e);
      Adjacent(bytes, at, o - at, |s[k - 1].data|);
    }
  }

  lemma IsPadding(bytes: Bytes, s: seq<Section>, i: nat)
    requires Sections(s) && i < |s| && PaddingZero(bytes, s, i)
    ensures Offset(s, i) <= |bytes|
    ensures Slice(bytes, End(s, i), Offset(s, i) - End(s, i)) == Zeros(Offset(s, i) - End(s, i))
  {
    hide End, Offset;
  }

  /** What `Unframe` says of a file that it accepts. */
  lemma {:induction false} Accepted(bytes: Bytes, s: seq<Section>, limit: nat, digest: Bytes -> Bytes)
    requires Unframe(bytes, limit, digest) == Ok(s)
    ensures HEADER_LEN <= TableEnd(|s|) <= |bytes| && Encodable(s)
    ensures Le(Slice(bytes, 6, 2)) == HEADER_LEN && Le(Slice(bytes, 8, 8)) == |bytes| <= USIZE_MAX
    ensures Le(Slice(bytes, 16, 4)) == |s| && Le(Slice(bytes, 20, 4)) == RECORD_LEN
    ensures FormatOf(bytes) == PNA1 || FormatOf(bytes) == PNA2
    ensures Checksum(bytes, digest) == Slice(bytes, 24, 32)
    ensures forall i | 0 <= i < |s| :: SectionAt(bytes, s, i)
  {
    AcceptedIsEncodable(bytes, limit, digest);
    AcceptedHeader(bytes, limit, digest);
    hide CheckHeader, Encodable, Framed, Le, Slice, Checksum;
    var n := CheckHeader(bytes, limit, digest).value;
    forall i | 0 <= i < |s| ensures SectionAt(bytes, s, i) { SectionRead(bytes, n, i); }
  }

  ghost predicate SectionAt(bytes: Bytes, s: seq<Section>, i: nat)
    requires i < |s|
  {
    && TableEnd(|s|) <= |bytes| && Records(bytes, |s|)[i].End() <= |bytes|
    && s[i] == SectionOf(bytes, Records(bytes, |s|)[i])
  }

  lemma AcceptedHeader(bytes: Bytes, limit: nat, digest: Bytes -> Bytes)
    requires CheckHeader(bytes, limit, digest).Ok?
    ensures |bytes| >= HEADER_LEN
    ensures Le(Slice(bytes, 6, 2)) == HEADER_LEN && Le(Slice(bytes, 8, 8)) == |bytes| <= USIZE_MAX
    ensures Le(Slice(bytes, 16, 4)) == CheckHeader(bytes, limit, digest).value && Le(Slice(bytes, 20, 4)) == RECORD_LEN
    ensures FormatOf(bytes) == PNA1 || FormatOf(bytes) == PNA2
    ensures Checksum(bytes, digest) == Slice(bytes, 24, 32)
  {
    hide Le, Slice, Checksum;
    Widths();
    LeBounded(Slice(bytes, 8, 8));
  }

  lemma {:induction false} CanonicalIsImage(bytes: Bytes, s: seq<Section>, limit: nat, digest: Bytes -> Bytes)
    requires IsDigest(digest) && Unframe(bytes, limit, digest) == Ok(s)
    requires Sections(s) && TableEnd(|s|) <= |bytes| && Canonical(bytes, s)
    ensures |bytes| >= HEADER_LEN && |FormatOf(bytes).magic| == 4
    ensures bytes == Image(FormatOf(bytes), s, digest)
  {
    hide *;
    Accepted(bytes, s, limit, digest);
    IsCanonical(bytes, s);
    var f, rs, body := FormatOf(bytes), Planned(s), Body(s, |s|);
    FormatsHaveMagic(f);
    HeaderBack(bytes, |s|);
    IsFormat(bytes);
    TableBack(bytes, rs, |s|);
    forall i | 0 <= i < |s|
      ensures Offset(s, i) + |s[i].data| <= |bytes| && Slice(bytes, Offset(s, i), |s[i].data|) == s[i].data
    {
      DataInPlace(bytes, s, i);
    }
    BodyBack(bytes, s, |s|);
    IsImage(f, s, digest);
    FrameParts(f, rs, body, digest);
    IsUnsigned(f, rs, body);
    TableEnds'(|s|);
    Assemble(bytes, HeaderFields(f, |bytes|, |s|), TableOf(rs, |s|), body, digest);
  }

  lemma IsFormat(bytes: Bytes)
    requires |bytes| >= HEADER_LEN
    ensures FormatOf(bytes) == Format(Slice(bytes, 0, 4), Le(Slice(bytes, 4, 2)))
  {
  }

  lemma IsCanonical(bytes: Bytes, s: seq<Section>)
    requires Sections(s) && TableEnd(|s|) <= |bytes| && Canonical(bytes, s)
    ensures |bytes| == End(s, |s|) && Records(bytes, |s|) == Planned(s) && |bytes| >= HEADER_LEN
    ensures Slice(bytes, 56, 8) == Zeros(8)
    ensures forall i | 0 <= i < |s| :: ReservedZero(bytes, i)
    ensures forall i | 0 <= i < |s| :: PaddingZero(bytes, s, i)
  {
    hide End, Offset, Records, Planned, ReservedZero, PaddingZero, Slice;
  }

  lemma DataInPlace(bytes: Bytes, s: seq<Section>, i: nat)
    requires Sections(s) && i < |s| && SectionAt(bytes, s, i) && Records(bytes, |s|) == Planned(s)
    ensures Offset(s, i) + |s[i].data| <= |bytes| && Slice(bytes, Offset(s, i), |s[i].data|) == s[i].data
  {
    hide End, Offset, RecordAt, Storable, Slice;
  }

  /** A file is its parts, and its checksum is the one of the unsigned file. */
  lemma Assemble(bytes: Bytes, fields: Bytes, table: Bytes, body: Bytes, digest: Bytes -> Bytes)
    requires |fields| == 24 && |bytes| == HEADER_LEN + |table| + |body|
    requires Slice(bytes, 0, 24) == fields && Slice(bytes, 56, 8) == Zeros(8)
    requires Slice(bytes, HEADER_LEN, |table|) == table && Slice(bytes, HEADER_LEN + |table|, |body|) == body
    requires Checksum(bytes, digest) == Slice(bytes, 24, 32)
    ensures bytes == fields + Checksum(fields + Zeros(32) + Zeros(8) + table + body, digest) + Zeros(8) + table + body
  {
    hide Checksum;
    var checksum, back := Slice(bytes, 24, 32), Zeros(8) + table + body;
    Adjacent(bytes, 0, 24, 32);
    Adjacent(bytes, 0, 56, 8);
    Adjacent(bytes, 0, HEADER_LEN, |table|);
    Adjacent(bytes, 0, HEADER_LEN + |table|, |body|);
    assert bytes == Slice(bytes, 0, |bytes|);
    assert bytes == fields + checksum + back;
    assert fields + Zeros(32) + Zeros(8) + table + body == fields + Zeros(32) + back;
    ChecksumIgnoresItself(fields, Zeros(32), checksum, back, digest);
    assert bytes == fields + checksum + Zeros(8) + table + body;
  }

  // ---------- An image is canonical ----------

  lemma {:induction false} GapSlice(s: seq<Section>, k: nat, i: nat)
    requires Sections(s) && i < k <= |s|
    ensures Offset(s, i) <= End(s, k)
    ensures Slice(Body(s, k), End(s, i) - TableEnd(|s|), Offset(s, i) - End(s, i)) == Zeros(Offset(s, i) - End(s, i))
    decreases k
  {
    hide *;
    EndStep(s, i);
    EndStep(s, k - 1);
    EndMonotone(s, i + 1, k);
    BodyStep(s, k - 1);
    var body, gap := Body(s, k - 1), Zeros(Offset(s, k - 1) - End(s, k - 1));
    if i == k - 1 {
      SliceMiddle(body, gap, s[i].data);
    } else {
      EndMonotone(s, i + 1, k - 1);
      GapSlice(s, k - 1, i);
      PrefixSlice(body, gap + s[k - 1].data, End(s, i) - TableEnd(|s|), Offset(s, i) - End(s, i));
      assert Body(s, k) == body + (gap + s[k - 1].data);
    }
  }

  lemma RecordReserved(bytes: Bytes, i: nat, r: Record)
    requires TableEnd(i + 1) <= |bytes|
    requires Slice(bytes, HEADER_LEN + i * RECORD_LEN, RECORD_LEN) == RecordBytes(r)
    ensures ReservedZero(bytes, i)
  {
    hide LeBytes, Slice, Zeros;
    var start, b := HEADER_LEN + i * RECORD_LEN, RecordBytes(r);
    ReservedPieces(LeBytes(r.kind, 2), LeBytes(r.alignment, 4), LeBytes(r.offset, 8), LeBytes(r.length, 8),
                   LeBytes(r.count, 4));
    SliceOfSlice(bytes, start, RECORD_LEN, 2, 2);
    SliceOfSlice(bytes, start, RECORD_LEN, 28, 4);
  }

  lemma ReservedPieces(a: Bytes, b: Bytes, c: Bytes, d: Bytes, e: Bytes)
    requires |a| == 2 && |b| == 4 && |c| == 8 && |d| == 8 && |e| == 4
    ensures var bytes := a + Zeros(2) + b + c + d + e + Zeros(4);
            Slice(bytes, 2, 2) == Zeros(2) && Slice(bytes, 28, 4) == Zeros(4)
  {
    hide Slice;
    var bytes := a + Zeros(2) + b + c + d + e + Zeros(4);
    SliceMiddle(a, Zeros(2), b + c + d + e + Zeros(4));
    assert bytes == a + Zeros(2) + (b + c + d + e + Zeros(4));
    SliceMiddle(a + Zeros(2) + b + c + d + e, Zeros(4), []);
    assert bytes == (a + Zeros(2) + b + c + d + e) + Zeros(4) + [];
  }

  lemma {:induction false} ImageIsCanonical(f: Format, s: seq<Section>, digest: Bytes -> Bytes)
    requires |f.magic| == 4 && Sections(s) && IsDigest(digest) && End(s, |s|) <= USIZE_MAX
    ensures TableEnd(|s|) <= |Image(f, s, digest)| && Canonical(Image(f, s, digest), s)
  {
    hide *;
    var image, rs, body := Image(f, s, digest), Planned(s), Body(s, |s|);
    IsImage(f, s, digest);
    ImageRecords(f, s, digest);
    forall i | 0 <= i < |s| ensures ReservedZero(image, i) {
      FrameRecord(f, rs, body, digest, i);
      RecordReserved(image, i, rs[i]);
    }
    forall i | 0 <= i < |s| ensures PaddingZero(image, s, i) {
      GapSlice(s, |s|, i);
      EndStep(s, i);
      FrameBody(f, rs, body, digest, End(s, i) - TableEnd(|s|), Offset(s, i) - End(s, i));
      MakePadding(image, s, i);
    }
    HeaderReserved(f, rs, body, digest);
    MakeCanonical(image, s);
  }

  lemma MakePadding(bytes: Bytes, s: seq<Section>, i: nat)
    requires Sections(s) && i < |s| && Offset(s, i) <= |bytes|
    requires Slice(bytes, End(s, i), Offset(s, i) - End(s, i)) == Zeros(Offset(s, i) - End(s, i))
    ensures PaddingZero(bytes, s, i)
  {
    hide End, Offset;
  }

  lemma HeaderReserved(f: Format, rs: seq<Record>, body: Bytes, digest: Bytes -> Bytes)
    requires |f.magic| == 4 && IsDigest(digest)
    ensures |Frame(f, rs, body, digest)| >= HEADER_LEN
    ensures Slice(Frame(f, rs, body, digest), 56, 8) == Zeros(8)
  {
    hide *;
    FrameParts(f, rs, body, digest);
    TableEnds'(|rs|);
    var start := HeaderFields(f, TableEnd(|rs|) + |body|, |rs|) + Checksum(Unsigned(f, rs, body), digest);
    SliceMiddle(start, Zeros(8), TableOf(rs, |rs|) + body);
    assert Frame(f, rs, body, digest) == start + Zeros(8) + (TableOf(rs, |rs|) + body);
  }

  lemma MakeCanonical(bytes: Bytes, s: seq<Section>)
    requires Sections(s) && TableEnd(|s|) <= |bytes| && |bytes| == End(s, |s|) && |bytes| >= HEADER_LEN
    requires Records(bytes, |s|) == Planned(s) && Slice(bytes, 56, 8) == Zeros(8)
    requires forall i | 0 <= i < |s| :: ReservedZero(bytes, i)
    requires forall i | 0 <= i < |s| :: PaddingZero(bytes, s, i)
    ensures Canonical(bytes, s)
  {
    hide End, Offset, Records, Planned, ReservedZero, PaddingZero, Slice;
  }

  /** An accepted artifact is byte for byte what the writer makes of its sections exactly when it is canonical. */
  lemma WrittenIffCanonical(bytes: Bytes, s: seq<Section>, limit: nat, digest: Bytes -> Bytes)
    requires IsDigest(digest) && Unframe(bytes, limit, digest) == Ok(s)
    ensures Sections(s) && TableEnd(|s|) <= |bytes| && |bytes| >= HEADER_LEN && |FormatOf(bytes).magic| == 4
    ensures bytes == Image(FormatOf(bytes), s, digest) <==> Canonical(bytes, s)
  {
    hide *;
    Accepted(bytes, s, limit, digest);
    IsEncodable(s);
    var f := FormatOf(bytes);
    FormatsHaveMagic(f);
    if bytes == Image(f, s, digest) { ImageIsCanonical(f, s, digest); }
    if Canonical(bytes, s) { CanonicalIsImage(bytes, s, limit, digest); }
  }
}
