/** Sections may stand in a file in another order than the table lists them. The native cache reads such files;
    the footprint report does not. */
module ArtifactOrder {
  import opened Options
  import opened Lists
  import opened ByteStrings
  import opened ArtifactBytes
  import opened ArtifactWriter
  import opened ArtifactDecoder
  import opened ArtifactRoundTrip
  import opened ArtifactReport
  import opened ArtifactImages
  import opened ArtifactContents

  /** Section `i` of the table is section `at[i]` of the file. */
  ghost predicate Places(s: seq<Section>, t: seq<Section>, at: seq<nat>) {
    && |at| == |s| == |t| && NoRepeats(at)
    && forall i | 0 <= i < |s| :: at[i] < |t| && t[at[i]] == s[i]
  }

  /** The records of sections laid out as `t`, listed in another order. */
  function Listed(t: seq<Section>, at: seq<nat>): (rs: seq<Record>)
    requires Sections(t) && forall i | 0 <= i < |at| :: at[i] < |t|
    ensures |rs| == |at| && forall i | 0 <= i < |at| :: rs[i] == RecordFor(t, at[i])
  {
    seq(|at|, i requires 0 <= i < |at| => RecordFor(t, at[i]))
  }

  ghost function Shuffled(f: Format, s: seq<Section>, t: seq<Section>, at: seq<nat>, digest: Bytes -> Bytes): Bytes
    requires |f.magic| == 4 && IsDigest(digest) && Sections(t) && Places(s, t, at)
  {
    Frame(f, Listed(t, at), Body(t, |t|), digest)
  }

  lemma {:induction false} ListedSound(s: seq<Section>, t: seq<Section>, at: seq<nat>)
    requires Sections(t) && Places(s, t, at) && DistinctKinds(s)
    ensures Sound(Listed(t, at), TableEnd(|t|), End(t, |t|)) && PairwiseApart(Listed(t, at))
  {
    hide RecordOk, Offset, End, Storable;
    var rs := Listed(t, at);
    forall i | 0 <= i < |rs| ensures RecordOk(rs[i], TableEnd(|t|), End(t, |t|)) { RecordSound(t, at[i]); }
    forall i, j | 0 <= i < j < |rs| ensures KindOf()(rs[i]) != KindOf()(rs[j]) {
      assert s[i].kind != s[j].kind;
    }
    PlannedApart(t);
    var planned := Planned(t);
    forall i, j | 0 <= i < j < |rs| ensures Apart(rs[i], rs[j]) {
      assert rs[i] == planned[at[i]] && rs[j] == planned[at[j]];
      if at[i] < at[j] { assert Apart(planned[at[i]], planned[at[j]]); } else { assert Apart(planned[at[j]], planned[at[i]]); }
    }
  }

  /** The cache reads the sections in the order of the table, wherever they stand. */
  lemma {:induction false} FileOrderIrrelevant(f: Format, s: seq<Section>, t: seq<Section>, at: seq<nat>, limit: nat,
                                               digest: Bytes -> Bytes)
    requires (f == PNA1 || f == PNA2) && IsDigest(digest) && Encodable(s) && Sections(t) && Places(s, t, at)
    requires End(t, |t|) <= limit <= USIZE_MAX
    ensures |f.magic| == 4 && Unframe(Shuffled(f, s, t, at, digest), limit, digest) == Ok(s)
  {
    hide *;
    FormatsHaveMagic(f);
    IsEncodable(s);
    IsPlaces(s, t, at);
    var rs, body, n := Listed(t, at), Body(t, |t|), |t|;
    var bytes := Frame(f, rs, body, digest);
    IsShuffled(f, s, t, at, digest);
    TotalIs(t);
    HeaderAccepted(f, rs, body, limit, digest);
    FrameSize(f, rs, body, digest);
    forall i | 0 <= i < |rs| ensures Fits(rs[i]) { PlannedFits(t, at[i]); }
    FrameRecords(f, rs, body, digest);
    ListedSound(s, t, at);
    IsFramed(bytes, n);
    Unframed(bytes, n, limit, digest);
    forall i | 0 <= i < n ensures SectionsOf(bytes, n)[i] == s[i] { PlacedRead(f, s, t, at, digest, i); }
    assert SectionsOf(bytes, n) == s;
  }

  lemma IsPlaces(s: seq<Section>, t: seq<Section>, at: seq<nat>)
    requires Places(s, t, at)
    ensures |at| == |s| == |t| && forall i | 0 <= i < |s| :: at[i] < |t| && t[at[i]] == s[i]
  {
  }

  lemma IsShuffled(f: Format, s: seq<Section>, t: seq<Section>, at: seq<nat>, digest: Bytes -> Bytes)
    requires |f.magic| == 4 && IsDigest(digest) && Sections(t) && Places(s, t, at)
    ensures Shuffled(f, s, t, at, digest) == Frame(f, Listed(t, at), Body(t, |t|), digest)
  {
    hide Frame, Body, Listed, Places;
  }

  lemma TotalIs(t: seq<Section>)
    requires Sections(t)
    ensures TableEnd(|t|) + |Body(t, |t|)| == End(t, |t|)
  {
    hide Body, End;
  }

  lemma PlacedRead(f: Format, s: seq<Section>, t: seq<Section>, at: seq<nat>, digest: Bytes -> Bytes, i: nat)
    requires |f.magic| == 4 && IsDigest(digest) && Sections(t) && Places(s, t, at) && i < |s|
    requires var bytes := Frame(f, Listed(t, at), Body(t, |t|), digest);
             TableEnd(|t|) <= |bytes| && Framed(bytes, |t|) && Records(bytes, |t|) == Listed(t, at)
    ensures var bytes := Frame(f, Listed(t, at), Body(t, |t|), digest);
            |SectionsOf(bytes, |t|)| == |t| && SectionsOf(bytes, |t|)[i] == s[i]
  {
    hide *;
    IsPlaces(s, t, at);
    var bytes, k := Frame(f, Listed(t, at), Body(t, |t|), digest), at[i];
    SectionRead(bytes, |t|, i);
    BodySlice(t, |t|, k);
    TotalIs(t);
    EndStep(t, k);
    FrameBody(f, Listed(t, at), Body(t, |t|), digest, Offset(t, k) - TableEnd(|t|), |t[k].data|);
    SectionAt(bytes, t, k);
  }

  lemma SectionAt(bytes: Bytes, t: seq<Section>, k: nat)
    requires Sections(t) && k < |t| && RecordFor(t, k).End() <= |bytes|
    requires Offset(t, k) + |t[k].data| <= |bytes| && Slice(bytes, Offset(t, k), |t[k].data|) == t[k].data
    ensures SectionOf(bytes, RecordFor(t, k)) == t[k]
  {
    hide Offset, Slice, Sections;
  }

  /** Two sections that are not empty and stand in the other order than they are listed make a file that the report
      refuses. Sections that all stand in the listed order make one that it takes. */
  lemma {:induction false} ReportNeedsOrder(f: Format, s: seq<Section>, t: seq<Section>, at: seq<nat>, limit: nat,
                                            digest: Bytes -> Bytes)
    requires (f == PNA1 || f == PNA2) && IsDigest(digest) && Encodable(s) && Sections(t) && Places(s, t, at)
    requires End(t, |t|) <= limit <= USIZE_MAX
    ensures |f.magic| == 4
    ensures (exists i, j :: 0 <= i < j < |s| && at[j] < at[i] && s[i].data != [] && s[j].data != []) ==>
              !Reportable(Shuffled(f, s, t, at, digest))
    ensures (forall i | 0 <= i < |s| - 1 :: at[i] < at[i + 1]) ==> Reportable(Shuffled(f, s, t, at, digest))
  {
    hide *;
    FormatsHaveMagic(f);
    IsPlaces(s, t, at);
    IsEncodable(s);
    var rs := Listed(t, at);
    var bytes := Shuffled(f, s, t, at, digest);
    IsShuffled(f, s, t, at, digest);
    TotalIs(t);
    HeaderAccepted(f, rs, Body(t, |t|), limit, digest);
    forall i | 0 <= i < |rs| ensures Fits(rs[i]) { PlannedFits(t, at[i]); }
    FrameRecords(f, rs, Body(t, |t|), digest);
    FileOrderIrrelevant(f, s, t, at, limit, digest);
    ReportableIffListedInOrder(bytes, limit, digest);
    if i, j :| 0 <= i < j < |s| && at[j] < at[i] && s[i].data != [] && s[j].data != [] {
      Inverted(t, at, i, j);
    }
    if forall i | 0 <= i < |s| - 1 :: at[i] < at[i + 1] { InFileOrder(t, at); }
  }

  lemma Before(t: seq<Section>, a: nat, b: nat)
    requires Sections(t) && a < b < |t|
    ensures RecordFor(t, a).End() <= RecordFor(t, b).offset
  {
    hide Offset, End, Storable;
    EndStep(t, a);
    EndStep(t, b);
    EndMonotone(t, a + 1, b);
  }

  lemma {:induction false} ChainReaches(rs: seq<Record>, i: nat, j: nat)
    requires Chained(rs) && i < j < |rs|
    ensures rs[i].End() <= rs[j].offset
    decreases j
  {
    assert Follows(rs, j - 1);
    if i < j - 1 { ChainReaches(rs, i, j - 1); }
  }

  lemma Inverted(t: seq<Section>, at: seq<nat>, i: nat, j: nat)
    requires Sections(t) && forall k | 0 <= k < |at| :: at[k] < |t|
    requires i < j < |at| && at[j] < at[i] && t[at[i]].data != [] && t[at[j]].data != []
    ensures !Chained(Listed(t, at))
  {
    hide Offset, Chained, Storable;
    Before(t, at[j], at[i]);
    if Chained(Listed(t, at)) { ChainReaches(Listed(t, at), i, j); }
  }

  lemma InFileOrder(t: seq<Section>, at: seq<nat>)
    requires Sections(t) && forall k | 0 <= k < |at| :: at[k] < |t|
    requires forall i | 0 <= i < |at| - 1 :: at[i] < at[i + 1]
    ensures Chained(Listed(t, at))
  {
    hide Offset, Storable;
    var rs := Listed(t, at);
    forall i | 0 <= i < |rs| - 1 ensures Follows(rs, i) { Before(t, at[i], at[i + 1]); }
  }

  /** For every image that the cache can read, and every order of its sections in the file in which two sections that
      are not empty are exchanged: the cache reads the image, and the report refuses the file. */
  lemma OutOfOrderDiffers(image: ArtifactImage, f: Format, t: seq<Section>, at: seq<nat>, i: nat, j: nat, config: Config,
                          digest: Bytes -> Bytes)
    requires (f == PNA1 || f == PNA2) && IsDigest(digest) && Readable(image) && Valid(image, config)
    requires var s := SectionsFor(image, Compact(f));
             && Sections(t) && Places(s, t, at) && End(t, |t|) <= config.maxArtifactBytes
             && i < j < |s| && at[j] < at[i] && s[i].data != [] && s[j].data != []
    ensures |f.magic| == 4
    ensures var bytes := Shuffled(f, SectionsFor(image, Compact(f)), t, at, digest);
            Decoded(bytes, image.identity, config, digest) == Ok(image) && !Reportable(bytes)
  {
    hide *;
    FormatsHaveMagic(f);
    var s := SectionsFor(image, Compact(f));
    SectionsStorable(image, Compact(f));
    IsPlaces(s, t, at);
    LimitFits(config);
    FileOrderIrrelevant(f, s, t, at, config.maxArtifactBytes, digest);
    ReportNeedsOrder(f, s, t, at, config.maxArtifactBytes, digest);
    IsShuffled(f, s, t, at, digest);
    FrameMagic(f, Listed(t, at), Body(t, |t|), digest);
    ImageBack(image, Compact(f));
    ValidIff(image, config);
    IsDecoded(Shuffled(f, s, t, at, digest), s, image, config, digest);
  }

  lemma LimitFits(config: Config)
    ensures config.maxArtifactBytes <= USIZE_MAX
  {
  }

  lemma IsDecoded(bytes: Bytes, s: seq<Section>, image: ArtifactImage, config: Config, digest: Bytes -> Bytes)
    requires 4 <= |bytes| && Unframe(bytes, config.maxArtifactBytes, digest) == Ok(s) && CheckImage(image, config).Ok?
    requires ImageOf(s, bytes[..4] == PNA2.magic, image.identity) == Ok(image)
    ensures Decoded(bytes, image.identity, config, digest) == Ok(image)
  {
    hide Unframe, ImageOf, CheckImage;
  }

  /** The sections of an image, its code before its identity. */
  ghost function CodeFirst(image: ArtifactImage, f: Format): (t: seq<Section>)
    ensures Sections(t) && |t| == KINDS
  {
    var s := SectionsFor(image, Compact(f));
    SectionsStorable(image, Compact(f));
    ExchangeKeeps(s);
    [s[1], s[0]] + s[2..]
  }

  lemma ExchangeKeeps(s: seq<Section>)
    requires Sections(s) && |s| == KINDS
    ensures Sections([s[1], s[0]] + s[2..])
  {
    hide Storable;
  }

  /** Such files exist for every image: identity and code are never empty, and can be exchanged. */
  lemma IdentityAfterCode(image: ArtifactImage, f: Format, config: Config, digest: Bytes -> Bytes)
    requires (f == PNA1 || f == PNA2) && IsDigest(digest) && Readable(image) && Valid(image, config)
    requires End(CodeFirst(image, f), KINDS) <= config.maxArtifactBytes
    ensures |f.magic| == 4 && Places(SectionsFor(image, Compact(f)), CodeFirst(image, f), EXCHANGED)
    ensures var bytes := Shuffled(f, SectionsFor(image, Compact(f)), CodeFirst(image, f), EXCHANGED, digest);
            Decoded(bytes, image.identity, config, digest) == Ok(image) && !Reportable(bytes)
  {
    hide *;
    var s := SectionsFor(image, Compact(f));
    SectionsAre(image, Compact(f));
    ValidHasCode(image, config);
    IdentityNotEmpty(image.identity);
    IsCodeFirst(image, f);
    Exchanged(s, CodeFirst(image, f));
    OutOfOrderDiffers(image, f, CodeFirst(image, f), EXCHANGED, 0, 1, config, digest);
  }

  lemma IsCodeFirst(image: ArtifactImage, f: Format)
    ensures var s := SectionsFor(image, Compact(f)); |s| == KINDS && CodeFirst(image, f) == [s[1], s[0]] + s[2..]
  {
    hide SectionsFor, Compact, Sections;
    SectionsStorable(image, Compact(f));
  }

  const EXCHANGED: seq<nat> := [1, 0, 2, 3, 4, 5, 6, 7, 8, 9, 10, 11, 12]

  lemma Exchanged(s: seq<Section>, t: seq<Section>)
    requires |s| == KINDS && t == [s[1], s[0]] + s[2..]
    ensures |EXCHANGED| == KINDS && EXCHANGED[1] < EXCHANGED[0] && Places(s, t, EXCHANGED)
  {
    forall i | 2 <= i < KINDS ensures EXCHANGED[i] == i && t[i] == s[i] { }
  }

  lemma ValidHasCode(image: ArtifactImage, config: Config)
    requires Valid(image, config)
    ensures image.code != []
  {
  }

  lemma IdentityNotEmpty(i: Identity)
    ensures PutIdentity(i) != []
  {
    NumbersLength(i.numbers);
  }
}
