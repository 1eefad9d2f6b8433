/** Whole artifacts: an image becomes thirteen sections, and the sections of a container become an image. */
module ArtifactContents {
  import opened Options
  import opened ByteStrings
  import opened ArtifactBytes
  import opened ArtifactWriter
  import opened ArtifactDecoder
  import opened ArtifactRoundTrip
  import opened ArtifactRecords
  import opened ArtifactImages

  // ---------- From image to sections ----------

  /** There is one calling convention, so the bundle of the second format never mixes two. */
  function BundleAbi(fs: seq<FunctionImage>): Abi { if fs == [] then NativeControl else fs[0].abi }

  function PutFunctions(fs: seq<FunctionImage>, compact: bool): Bytes {
    if compact then [PutAbi(BundleAbi(fs))] + Joined(PutCompact, fs) else Joined(PutFunction, fs)
  }

  /** The section of a list of records, whose number is stored in 32 bits. */
  function RecordSection<T>(kind: nat, alignment: nat, write: T -> Bytes, xs: seq<T>): Section {
    Section(kind, Joined(write, xs), alignment, Length32(|xs|))
  }

  function SectionsFor(image: ArtifactImage, compact: bool): seq<Section> {
    [ Section(1, PutIdentity(image.identity), 1, 1),
      Section(2, image.code, 16, Length32(|image.code|)),
      Section(3, image.readOnlyData, 8, Length32(|image.readOnlyData|)),
      Section(4, PutFunctions(image.functions, compact), 8, Length32(|image.functions|)),
      RecordSection(5, 8, PutContinuation, image.continuations),
      RecordSection(6, 8, PutRelocation, image.relocations),
      RecordSection(7, 4, PutHelper, image.helperImports),
      RecordSection(8, 8, PutSymbol, image.internalSymbols),
      RecordSection(9, 8, PutTrap, image.traps),
      RecordSection(10, 8, PutException, image.exceptionMetadata),
      RecordSection(11, 8, PutRootMap, image.rootMaps),
      RecordSection(12, 8, PutResume, image.resumeEntries),
      Section(13, image.signatureMetadata, 4, if image.signatureMetadata == [] then 0 else 1) ]
  }

  // ---------- From sections to image ----------

  function Find(s: seq<Section>, kind: nat): Result<Section, Error> {
    match Lookup(s, kind)
    case None => Err(InvalidSection)
    case Some(x) => Ok(x)
  }

  function ReadSection<T>(s: seq<Section>, kind: nat, read: Reader<T>): (r: Result<seq<T>, Error>) {
    var x :- Find(s, kind);
    ReadRecords(read, x.count, x.data)
  }

  function ReadFunctions(s: seq<Section>, compact: bool): Result<seq<FunctionImage>, Error> {
    var x :- Find(s, 4);
    if compact then
      var raw :- TakeU8(x.data);
      var abi :- AbiOf(raw.0);
      ReadRecords(TakeCompact(abi), x.count, raw.1)
    else ReadRecords(TakeFunction, x.count, x.data)
  }

  /** The image that sections hold; the first section that is missing or cannot be read gives the error. */
  function ImageOf(s: seq<Section>, compact: bool, expected: Identity): Result<ArtifactImage, Error> {
    var first :- Find(s, 1);
    var identity :- ReadIdentity(first.data);
    if identity != expected then Err(IdentityMismatch)
    else
      var code :- Find(s, 2);
      var readOnlyData :- Find(s, 3);
      var functions :- ReadFunctions(s, compact);
      var continuations :- ReadSection(s, 5, TakeContinuation);
      var relocations :- ReadSection(s, 6, TakeRelocation);
      var helpers :- ReadSection(s, 7, TakeHelper);
      var symbols :- ReadSection(s, 8, TakeSymbol);
      var traps :- ReadSection(s, 9, TakeTrap);
      var rootMaps :- ReadSection(s, 11, TakeRootMap);
      var resumes :- ReadSection(s, 12, TakeResume);
      var exceptions :- ReadSection(s, 10, TakeException);
      var signature :- Find(s, 13);
      Ok(ArtifactImage(identity, code.data, readOnlyData.data, functions, continuations, relocations, helpers, symbols,
                       traps, rootMaps, resumes, exceptions, signature.data))
  }

  function Interpret(s: seq<Section>, compact: bool, expected: Identity, config: Config): Result<ArtifactImage, Error> {
    var image :- ImageOf(s, compact, expected);
    var _ :- CheckImage(image, config);
    Ok(image)
  }

  // ---------- What can be read back ----------

  predicate Counted<T>(xs: seq<T>) { |xs| < 0x1_0000_0000 }

  /** Texts and root maps within the limits of the reader, and numbers of records that fit their field. */
  predicate Readable(image: ArtifactImage) {
    && ShortNames(image.identity)
    && (forall h | h in image.helperImports :: |h.name| <= 1_048_576)
    && (forall m | m in image.rootMaps :: |m.slots| <= 4096)
    && Counted(image.functions) && Counted(image.continuations) && Counted(image.relocations)
    && Counted(image.helperImports) && Counted(image.internalSymbols) && Counted(image.traps)
    && Counted(image.rootMaps) && Counted(image.resumeEntries) && Counted(image.exceptionMetadata)
  }

  lemma FindListed(s: seq<Section>, kind: nat)
    requires |s| == KINDS && (forall i | 0 <= i < KINDS :: s[i].kind == i + 1) && 1 <= kind <= KINDS
    ensures Find(s, kind) == Ok(s[kind - 1])
  {
    assert s[kind - 1] in s;
    var x := Lookup(s, kind).value;
    var j :| 0 <= j < |s| && s[j] == x;
  }

  lemma SectionBack<T>(s: seq<Section>, kind: nat, alignment: nat, read: Reader<T>, write: T -> Bytes, xs: seq<T>)
    requires |s| == KINDS && (forall i | 0 <= i < KINDS :: s[i].kind == i + 1) && 1 <= kind <= KINDS
    requires s[kind - 1] == RecordSection(kind, alignment, write, xs) && Counted(xs)
    requires forall x | x in xs :: Undoes(read, write(x), x)
    ensures ReadSection(s, kind, read) == Ok(xs)
  {
    FindListed(s, kind);
    RecordsBack(read, write, xs);
    hide Find, Joined, ReadRecords, Undoes;
  }

  lemma FunctionsBack(s: seq<Section>, fs: seq<FunctionImage>, compact: bool)
    requires |s| == KINDS && (forall i | 0 <= i < KINDS :: s[i].kind == i + 1)
    requires s[3].data == PutFunctions(fs, compact) && s[3].count == |fs|
    ensures ReadFunctions(s, compact) == Ok(fs)
  {
    FindListed(s, 4);
    hide Find, Joined, ReadRecords, Undoes, TakeCompact, TakeFunction, PutCompact, PutFunction, TakeU8;
    if compact {
      var abi := BundleAbi(fs);
      forall f | f in fs ensures Undoes(TakeCompact(abi), PutCompact(f), f) {
        CompactBack(f);
        assert f.abi == abi;
      }
      RecordsBack(TakeCompact(abi), PutCompact, fs);
      FirstByte(PutAbi(abi), Joined(PutCompact, fs));
      assert AbiOf(PutAbi(abi)) == Ok(abi);
    } else {
      forall f | f in fs ensures Undoes(TakeFunction, PutFunction(f), f) { FunctionBack(f); }
      RecordsBack(TakeFunction, PutFunction, fs);
    }
  }

  lemma FirstByte(x: Byte, rest: Bytes)
    ensures TakeU8([x] + rest) == Ok((x, rest))
  {
    U8Back(x);
  }

  /** The sections made of a readable image hold it. */
  lemma ImageBack(image: ArtifactImage, compact: bool)
    requires Readable(image)
    ensures ImageOf(SectionsFor(image, compact), compact, image.identity) == Ok(image)
  {
    hide *;
    var s := SectionsFor(image, compact);
    InKindOrder(image, compact);
    SectionsAre(image, compact);
    ReadableParts(image);
    IdentityBack(image.identity);
    FindListed(s, 1);
    FindListed(s, 2);
    FindListed(s, 3);
    FindListed(s, 13);
    FunctionsBack(s, image.functions, compact);
    forall x ensures Undoes(TakeContinuation, PutContinuation(x), x) { ContinuationBack(x); }
    SectionBack(s, 5, 8, TakeContinuation, PutContinuation, image.continuations);
    forall x ensures Undoes(TakeRelocation, PutRelocation(x), x) { RelocationBack(x); }
    SectionBack(s, 6, 8, TakeRelocation, PutRelocation, image.relocations);
    forall x | x in image.helperImports ensures Undoes(TakeHelper, PutHelper(x), x) { HelperBack(x); }
    SectionBack(s, 7, 4, TakeHelper, PutHelper, image.helperImports);
    forall x ensures Undoes(TakeSymbol, PutSymbol(x), x) { SymbolBack(x); }
    SectionBack(s, 8, 8, TakeSymbol, PutSymbol, image.internalSymbols);
    forall x ensures Undoes(TakeTrap, PutTrap(x), x) { TrapBack(x); }
    SectionBack(s, 9, 8, TakeTrap, PutTrap, image.traps);
    forall x ensures Undoes(TakeException, PutException(x), x) { ExceptionBack(x); }
    SectionBack(s, 10, 8, TakeException, PutException, image.exceptionMetadata);
    forall x | x in image.rootMaps ensures Undoes(TakeRootMap, PutRootMap(x), x) { RootMapBack(x); }
    SectionBack(s, 11, 8, TakeRootMap, PutRootMap, image.rootMaps);
    forall x ensures Undoes(TakeResume, PutResume(x), x) { ResumeBack(x); }
    SectionBack(s, 12, 8, TakeResume, PutResume, image.resumeEntries);
    Assembled(s, compact, image);
  }

  lemma InKindOrder(image: ArtifactImage, compact: bool)
    ensures var s := SectionsFor(image, compact);
            |s| == KINDS && forall i | 0 <= i < KINDS :: s[i].kind == i + 1
  {
    hide PutIdentity, PutFunctions, Joined;
  }

  lemma SectionsAre(image: ArtifactImage, compact: bool)
    ensures var s := SectionsFor(image, compact);
            && |s| == KINDS && s[0].data == PutIdentity(image.identity) && s[1].data == image.code && s[2].data == image.readOnlyData
            && s[3].data == PutFunctions(image.functions, compact) && s[3].count == Length32(|image.functions|)
            && s[4] == RecordSection(5, 8, PutContinuation, image.continuations)
            && s[5] == RecordSection(6, 8, PutRelocation, image.relocations)
            && s[6] == RecordSection(7, 4, PutHelper, image.helperImports)
            && s[7] == RecordSection(8, 8, PutSymbol, image.internalSymbols)
            && s[8] == RecordSection(9, 8, PutTrap, image.traps)
            && s[9] == RecordSection(10, 8, PutException, image.exceptionMetadata)
            && s[10] == RecordSection(11, 8, PutRootMap, image.rootMaps)
            && s[11] == RecordSection(12, 8, PutResume, image.resumeEntries)
            && s[12].data == image.signatureMetadata
    ensures Counted(image.functions) ==> Length32(|image.functions|) == |image.functions|
    ensures KINDS == 13
  {
    hide PutIdentity, PutFunctions, RecordSection;
  }

  lemma ReadableParts(image: ArtifactImage)
    requires Readable(image)
    ensures ShortNames(image.identity)
    ensures forall h | h in image.helperImports :: |h.name| <= MAX_TEXT
    ensures forall m | m in image.rootMaps :: |m.slots| <= MAX_SLOTS
    ensures Counted(image.functions) && Counted(image.continuations) && Counted(image.relocations)
    ensures Counted(image.helperImports) && Counted(image.internalSymbols) && Counted(image.traps)
    ensures Counted(image.rootMaps) && Counted(image.resumeEntries) && Counted(image.exceptionMetadata)
  {
    hide ShortNames, Counted;
  }

  lemma Assembled(s: seq<Section>, compact: bool, image: ArtifactImage)
    requires Find(s, 1).Ok? && ReadIdentity(Find(s, 1).value.data) == Ok(image.identity)
    requires Find(s, 2).Ok? && Find(s, 2).value.data == image.code
    requires Find(s, 3).Ok? && Find(s, 3).value.data == image.readOnlyData
    requires ReadFunctions(s, compact) == Ok(image.functions)
    requires ReadSection(s, 5, TakeContinuation) == Ok(image.continuations)
    requires ReadSection(s, 6, TakeRelocation) == Ok(image.relocations)
    requires ReadSection(s, 7, TakeHelper) == Ok(image.helperImports)
    requires ReadSection(s, 8, TakeSymbol) == Ok(image.internalSymbols)
    requires ReadSection(s, 9, TakeTrap) == Ok(image.traps)
    requires ReadSection(s, 10, TakeException) == Ok(image.exceptionMetadata)
    requires ReadSection(s, 11, TakeRootMap) == Ok(image.rootMaps)
    requires ReadSection(s, 12, TakeResume) == Ok(image.resumeEntries)
    requires Find(s, 13).Ok? && Find(s, 13).value.data == image.signatureMetadata
    ensures ImageOf(s, compact, image.identity) == Ok(image)
  {
    hide Find, ReadIdentity, ReadFunctions, ReadSection;
  }

  lemma CountIs<T>(s: seq<Section>, kind: nat, read: Reader<T>)
    requires Sections(s)
    ensures ReadSection(s, kind, read).Ok? ==> Counted(ReadSection(s, kind, read).value)
  {
    hide ReadRecords;
    FoundIsStorable(s, kind);
  }

  lemma FoundIsStorable(s: seq<Section>, kind: nat)
    requires Sections(s)
    ensures Find(s, kind).Ok? ==> Find(s, kind).value.count < 0x1_0000_0000
  {
    hide PowerOfTwo;
    if Find(s, kind).Ok? {
      var x := Lookup(s, kind).value;
      var i :| 0 <= i < |s| && s[i] == x;
      assert Storable(s[i]);
    }
  }

  lemma FunctionsCounted(s: seq<Section>, compact: bool)
    requires Sections(s)
    ensures ReadFunctions(s, compact).Ok? ==> Counted(ReadFunctions(s, compact).value)
  {
    hide ReadRecords, TakeU8, Find;
    FoundIsStorable(s, 4);
  }

  lemma EachOf<T>(s: seq<Section>, kind: nat, read: Reader<T>, good: T -> bool)
    requires forall x: Bytes :: read(x).Ok? ==> good(read(x).value.0)
    ensures ReadSection(s, kind, read).Ok? ==> forall x | x in ReadSection(s, kind, read).value :: good(x)
  {
    hide TakeMany;
    if ReadSection(s, kind, read).Ok? {
      var x := Find(s, kind).value;
      EachRead(read, x.count, x.data, good);
    }
  }

  /** Conversely only readable images are ever read, and only under the identity they carry. */
  lemma {:induction false} ReadIsReadable(s: seq<Section>, compact: bool, expected: Identity)
    requires Sections(s) && ImageOf(s, compact, expected).Ok?
    ensures Readable(ImageOf(s, compact, expected).value) && ImageOf(s, compact, expected).value.identity == expected
  {
    hide Find, ReadIdentity, ReadFunctions, ReadSection, ShortNames, Counted, Storable;
    ReadHasShortNames(Find(s, 1).value.data);
    FunctionsCounted(s, compact);
    CountIs(s, 5, TakeContinuation);
    CountIs(s, 6, TakeRelocation);
    CountIs(s, 7, TakeHelper);
    CountIs(s, 8, TakeSymbol);
    CountIs(s, 9, TakeTrap);
    CountIs(s, 10, TakeException);
    CountIs(s, 11, TakeRootMap);
    CountIs(s, 12, TakeResume);
    ShortHelpers(s);
    ShortRootMaps(s);
  }

  lemma ShortHelpers(s: seq<Section>)
    ensures ReadSection(s, 7, TakeHelper).Ok? ==> forall h | h in ReadSection(s, 7, TakeHelper).value :: |h.name| <= MAX_TEXT
  {
    hide ReadSection;
    var good := (h: HelperImport) => |h.name| <= MAX_TEXT;
    EachOf(s, 7, TakeHelper, good);
    assert forall h :: good(h) ==> |h.name| <= MAX_TEXT;
  }

  lemma ShortRootMaps(s: seq<Section>)
    ensures ReadSection(s, 11, TakeRootMap).Ok? ==> forall m | m in ReadSection(s, 11, TakeRootMap).value :: |m.slots| <= MAX_SLOTS
  {
    hide ReadSection;
    var good := (m: RootMap) => |m.slots| <= MAX_SLOTS;
    EachOf(s, 11, TakeRootMap, good);
    assert forall m :: good(m) ==> |m.slots| <= MAX_SLOTS;
  }

  // ---------- Writing and reading artifacts ----------

  function Compact(f: Format): bool { f == PNA2 }

  lemma SectionsStorable(image: ArtifactImage, compact: bool)
    ensures |SectionsFor(image, compact)| == KINDS <= MAX_SECTIONS
    ensures Sections(SectionsFor(image, compact)) && Encodable(SectionsFor(image, compact))
  {
    hide PutIdentity, PutFunctions, Joined;
    assert PowerOfTwo(1) && PowerOfTwo(2) && PowerOfTwo(4) && PowerOfTwo(8) && PowerOfTwo(16);
    hide PowerOfTwo;
    var s := SectionsFor(image, compact);
    forall i | 0 <= i < |s| ensures Storable(s[i]) { }
  }

  /** The outcome of writing an image. */
  ghost function Encoded(image: ArtifactImage, f: Format, config: Config, digest: Bytes -> Bytes): Result<Bytes, Error>
    requires |f.magic| == 4 && IsDigest(digest)
  {
    var s := SectionsFor(image, Compact(f));
    SectionsStorable(image, Compact(f));
    if CheckImage(image, config).Err? then Err(CheckImage(image, config).error)
    else if Overflows(s, |s|) then Err(InvalidHeader)
    else if End(s, |s|) > config.maxArtifactBytes then Err(SizeLimit)
    else Ok(Image(f, s, digest))
  }

  method EncodeFunctions(fs: seq<FunctionImage>, compact: bool) returns (out: Bytes)
    ensures out == PutFunctions(fs, compact)
  {
    if compact {
      out := WriteRecords(PutCompact, fs);
      out := [PutAbi(BundleAbi(fs))] + out;
    } else {
      out := WriteRecords(PutFunction, fs);
    }
  }

  method EncodeIdentity(i: Identity) returns (out: Bytes)
    ensures out == PutIdentity(i)
  {
    out := WriteRecords(PutText, Names(i));
    out := out + PutNumbers(i.numbers);
  }

  method EncodeSection<T>(kind: nat, alignment: nat, write: T -> Bytes, xs: seq<T>) returns (s: Section)
    ensures s == RecordSection(kind, alignment, write, xs)
  {
    var data := WriteRecords(write, xs);
    s := Section(kind, data, alignment, Length32(|xs|));
  }

  method EncodeSections(image: ArtifactImage, compact: bool) returns (s: seq<Section>)
    ensures s == SectionsFor(image, compact)
  {
    hide PutIdentity, PutFunctions, RecordSection;
    var identity := EncodeIdentity(image.identity);
    var functions := EncodeFunctions(image.functions, compact);
    var continuations := EncodeSection(5, 8, PutContinuation, image.continuations);
    var relocations := EncodeSection(6, 8, PutRelocation, image.relocations);
    var helpers := EncodeSection(7, 4, PutHelper, image.helperImports);
    var symbols := EncodeSection(8, 8, PutSymbol, image.internalSymbols);
    var traps := EncodeSection(9, 8, PutTrap, image.traps);
    var exceptions := EncodeSection(10, 8, PutException, image.exceptionMetadata);
    var rootMaps := EncodeSection(11, 8, PutRootMap, image.rootMaps);
    var resumes := EncodeSection(12, 8, PutResume, image.resumeEntries);
    s := [ Section(1, identity, 1, 1), Section(2, image.code, 16, Length32(|image.code|)),
           Section(3, image.readOnlyData, 8, Length32(|image.readOnlyData|)),
           Section(4, functions, 8, Length32(|image.functions|)), continuations, relocations, helpers, symbols, traps,
           exceptions, rootMaps, resumes,
           Section(13, image.signatureMetadata, 4, if image.signatureMetadata == [] then 0 else 1) ];
  }

  method EncodeArtifact(image: ArtifactImage, f: Format, config: Config, digest: Bytes -> Bytes)
    returns (r: Result<Bytes, Error>)
    requires |f.magic| == 4 && IsDigest(digest)
    ensures r == Encoded(image, f, config, digest)
  {
    hide SectionsFor, CheckImage, Overflows, End, Image, Sections, Encodable;
    var _ :- ValidateImage(image, config);
    var s := EncodeSections(image, Compact(f));
    SectionsStorable(image, Compact(f));
    r := Encode(f, s, config.maxArtifactBytes, digest);
  }

  lemma FramedHasMagic(bytes: Bytes, limit: nat, digest: Bytes -> Bytes)
    requires Unframe(bytes, limit, digest).Ok?
    ensures 4 <= |bytes|
  {
    hide Framed, Le, Slice, SectionsOf;
  }

  /** The outcome of reading a file under an expected identity. */
  ghost function Decoded(bytes: Bytes, expected: Identity, config: Config, digest: Bytes -> Bytes)
    : Result<ArtifactImage, Error>
  {
    var s :- Unframe(bytes, config.maxArtifactBytes, digest);
    FramedHasMagic(bytes, config.maxArtifactBytes, digest);
    Interpret(s, bytes[..4] == PNA2.magic, expected, config)
  }

  method DecodeSection<T>(s: seq<Section>, kind: nat, read: Reader<T>) returns (r: Result<seq<T>, Error>)
    ensures r == ReadSection(s, kind, read)
  {
    var x :- Find(s, kind);
    r := DecodeRecords(read, x.count, x.data);
  }

  method DecodeFunctions(s: seq<Section>, compact: bool) returns (r: Result<seq<FunctionImage>, Error>)
    ensures r == ReadFunctions(s, compact)
  {
    var x :- Find(s, 4);
    if compact {
      var raw :- TakeU8(x.data);
      var abi :- AbiOf(raw.0);
      r := DecodeRecords(TakeCompact(abi), x.count, raw.1);
    } else {
      r := DecodeRecords(TakeFunction, x.count, x.data);
    }
  }

  method DecodeContents(s: seq<Section>, compact: bool, expected: Identity) returns (r: Result<ArtifactImage, Error>)
    ensures r == ImageOf(s, compact, expected)
  {
    hide Find, ReadIdentity, ReadFunctions, ReadSection;
    var first :- Find(s, 1);
    var identity :- ReadIdentity(first.data);
    if identity != expected { return Err(IdentityMismatch); }
    var code :- Find(s, 2);
    var readOnlyData :- Find(s, 3);
    var functions :- DecodeFunctions(s, compact);
    var continuations :- DecodeSection(s, 5, TakeContinuation);
    var relocations :- DecodeSection(s, 6, TakeRelocation);
    var helpers :- DecodeSection(s, 7, TakeHelper);
    var symbols :- DecodeSection(s, 8, TakeSymbol);
    var traps :- DecodeSection(s, 9, TakeTrap);
    var rootMaps :- DecodeSection(s, 11, TakeRootMap);
    var resumes :- DecodeSection(s, 12, TakeResume);
    var exceptions :- DecodeSection(s, 10, TakeException);
    var signature :- Find(s, 13);
    r := Ok(ArtifactImage(identity, code.data, readOnlyData.data, functions, continuations, relocations, helpers, symbols,
                          traps, rootMaps, resumes, exceptions, signature.data));
  }

  method DecodeArtifact(bytes: Bytes, expected: Identity, config: Config, digest: Bytes -> Bytes)
    returns (r: Result<ArtifactImage, Error>)
    ensures r == Decoded(bytes, expected, config, digest)
  {
    hide Unframe, ImageOf, CheckImage;
    var s :- Decode(bytes, config.maxArtifactBytes, digest);
    FramedHasMagic(bytes, config.maxArtifactBytes, digest);
    var image :- DecodeContents(s, bytes[..4] == PNA2.magic, expected);
    var _ :- ValidateImage(image, config);
    r := Ok(image);
  }

  // ---------- Round trip ----------

  lemma ImageMagic(f: Format, s: seq<Section>, digest: Bytes -> Bytes)
    requires (f == PNA1 || f == PNA2) && Sections(s) && IsDigest(digest)
    ensures |f.magic| == 4 && 4 <= |Image(f, s, digest)|
    ensures (Image(f, s, digest)[..4] == PNA2.magic) == Compact(f)
  {
    hide *;
    FormatsHaveMagic(f);
    IsImage(f, s, digest);
    FrameMagic(f, Planned(s), Body(s, |s|), digest);
  }

  lemma FrameMagic(f: Format, rs: seq<Record>, body: Bytes, digest: Bytes -> Bytes)
    requires (f == PNA1 || f == PNA2) && IsDigest(digest)
    ensures |f.magic| == 4 && 4 <= |Frame(f, rs, body, digest)|
    ensures (Frame(f, rs, body, digest)[..4] == PNA2.magic) == Compact(f)
  {
    FormatsHaveMagic(f);
    hide Frame, TableOf, Checksum, Unsigned, Zeros;
    FrameParts(f, rs, body, digest);
    assert Frame(f, rs, body, digest)[..4] == f.magic;
    assert PNA1.magic[3] != PNA2.magic[3];
  }

  /** Reading the container of a written image gives its sections back, whatever is then made of them. */
  lemma DecodedIsInterpreted(image: ArtifactImage, f: Format, config: Config, digest: Bytes -> Bytes, expected: Identity)
    requires (f == PNA1 || f == PNA2) && IsDigest(digest)
    ensures |f.magic| == 4
    ensures Encoded(image, f, config, digest).Ok? ==>
              Decoded(Encoded(image, f, config, digest).value, expected, config, digest) ==
              Interpret(SectionsFor(image, Compact(f)), Compact(f), expected, config)
  {
    hide SectionsFor, Overflows, End, Image, Sections, Encodable, Unframe, Interpret, Compact, CheckImage;
    FormatsHaveMagic(f);
    if Encoded(image, f, config, digest).Ok? {
      var s := SectionsFor(image, Compact(f));
      SectionsStorable(image, Compact(f));
      RoundTrip(f, s, config.maxArtifactBytes, digest);
      ImageMagic(f, s, digest);
    }
  }

  /** An image that was written is read back exactly when it is readable: the reader refuses texts of more than a
      mebibyte, root maps of more than 4096 slots and lists whose length does not fit, which the writer takes. */
  lemma ArtifactRoundTripIff(image: ArtifactImage, f: Format, config: Config, digest: Bytes -> Bytes)
    requires (f == PNA1 || f == PNA2) && IsDigest(digest)
    ensures |f.magic| == 4
    ensures Encoded(image, f, config, digest).Ok? ==>
              (Decoded(Encoded(image, f, config, digest).value, image.identity, config, digest) == Ok(image) <==> Readable(image))
  {
    hide SectionsFor, Overflows, End, Image, Sections, Encodable, Decoded, ImageOf, Compact, CheckImage, Readable;
    DecodedIsInterpreted(image, f, config, digest, image.identity);
    var s := SectionsFor(image, Compact(f));
    SectionsStorable(image, Compact(f));
    if Readable(image) { ImageBack(image, Compact(f)); }
    if ImageOf(s, Compact(f), image.identity) == Ok(image) { ReadIsReadable(s, Compact(f), image.identity); }
  }

  /** Under another identity the artifact of a readable image is always refused as a mismatch. */
  lemma OtherIdentityMismatches(image: ArtifactImage, f: Format, config: Config, digest: Bytes -> Bytes, expected: Identity)
    requires (f == PNA1 || f == PNA2) && IsDigest(digest) && Readable(image) && expected != image.identity
    ensures |f.magic| == 4
    ensures Encoded(image, f, config, digest).Ok? ==>
              Decoded(Encoded(image, f, config, digest).value, expected, config, digest) == Err(IdentityMismatch)
  {
    hide SectionsFor, Overflows, End, Image, Sections, Encodable, Decoded, Compact, CheckImage, Readable, Find, ReadIdentity,
         ReadFunctions, ReadSection;
    DecodedIsInterpreted(image, f, config, digest, expected);
    ImageBack(image, Compact(f));
  }

  /** Whatever is read is valid, readable and under the identity asked for, wherever the bytes came from. */
  lemma DecodedIsSound(bytes: Bytes, expected: Identity, config: Config, digest: Bytes -> Bytes)
    ensures Decoded(bytes, expected, config, digest).Ok? ==>
              var image := Decoded(bytes, expected, config, digest).value;
              image.identity == expected && Valid(image, config) && Readable(image)
  {
    hide Unframe, ImageOf, Readable, Valid, CheckImage, Encodable;
    if Decoded(bytes, expected, config, digest).Ok? {
      var s := Unframe(bytes, config.maxArtifactBytes, digest).value;
      AcceptedIsEncodable(bytes, config.maxArtifactBytes, digest);
      IsEncodable(s);
      FramedHasMagic(bytes, config.maxArtifactBytes, digest);
      ReadIsReadable(s, bytes[..4] == PNA2.magic, expected);
      ValidIff(Decoded(bytes, expected, config, digest).value, config);
    }
  }

  /** So an image that was read and fits the limit again is written and read without change from then on. */
  lemma RereadUnchanged(bytes: Bytes, expected: Identity, f: Format, config: Config, digest: Bytes -> Bytes)
    requires (f == PNA1 || f == PNA2) && IsDigest(digest) && Decoded(bytes, expected, config, digest).Ok?
    ensures |f.magic| == 4
    ensures var image := Decoded(bytes, expected, config, digest).value;
            Encoded(image, f, config, digest).Ok? ==>
              Decoded(Encoded(image, f, config, digest).value, expected, config, digest) == Ok(image)
  {
    hide Decoded, Encoded, Readable, Valid;
    DecodedIsSound(bytes, expected, config, digest);
    ArtifactRoundTripIff(Decoded(bytes, expected, config, digest).value, f, config, digest);
  }

  // ---------- An image that is written and never read again ----------

  const NOBODY := Identity([], [], [], [], [], [], [], Numbers(0, 0, 0, 0, 0, 0, 0, 0))

  /** One function of one byte, with a root map of one slot too many. */
  const CROWDED := ArtifactImage(
    NOBODY, [0xC3], [], [FunctionImage(0, 0, 1, 0, NativeControl)], [], [], [], [Symbol(0, 0)], [],
    [RootMap(0, seq(MAX_SLOTS + 1, _ => 0))], [], [], [])

  lemma CrowdedIsValid(limit: U64)
    ensures Valid(CROWDED, Config(limit, 1, 0, map[])) && !Readable(CROWDED)
  {
    var f, symbol := CROWDED.functions[0], CROWDED.internalSymbols[0];
    assert symbol in CROWDED.internalSymbols && symbol.stableId == f.functionId;
    assert CROWDED.rootMaps[0] in CROWDED.rootMaps;
  }

  lemma {:induction false} JoinedLength<T>(write: T -> Bytes, xs: seq<T>, width: nat)
    requires forall x | x in xs :: |write(x)| == width
    ensures |Joined(write, xs)| == width * |xs|
    decreases |xs|
  {
    if xs != [] {
      JoinedLength(write, xs[1..], width);
      assert width * |xs| == width * (|xs| - 1) + width;
    }
  }

  lemma {:induction false} EndBound(s: seq<Section>, k: nat, most: nat)
    requires Sections(s) && k <= |s| && forall i | 0 <= i < |s| :: |s[i].data| <= most
    ensures End(s, k) <= TableEnd(|s|) + k * (4096 + most)
    decreases k
  {
    hide *;
    if k == 0 {
      NoSections(s);
    } else {
      EndBound(s, k - 1, most);
      EndStep(s, k - 1);
      assert k * (4096 + most) == (k - 1) * (4096 + most) + (4096 + most);
    }
  }

  lemma NoSections(s: seq<Section>)
    requires Sections(s)
    ensures End(s, 0) == TableEnd(|s|)
  {
  }

  lemma {:induction false} CrowdedIsSmall(i: nat)
    requires i < KINDS
    ensures |SectionsFor(CROWDED, true)| == KINDS && |SectionsFor(CROWDED, true)[i].data| <= 20_000
  {
    hide *;
    InKindOrder(CROWDED, true);
    SectionsAre(CROWDED, true);
    CrowdedLengths();
    RecordData(5, 8, PutContinuation, CROWDED.continuations);
    RecordData(6, 8, PutRelocation, CROWDED.relocations);
    RecordData(7, 4, PutHelper, CROWDED.helperImports);
    RecordData(8, 8, PutSymbol, CROWDED.internalSymbols);
    RecordData(9, 8, PutTrap, CROWDED.traps);
    RecordData(10, 8, PutException, CROWDED.exceptionMetadata);
    RecordData(11, 8, PutRootMap, CROWDED.rootMaps);
    RecordData(12, 8, PutResume, CROWDED.resumeEntries);
  }

  lemma RecordData<T>(kind: nat, alignment: nat, write: T -> Bytes, xs: seq<T>)
    ensures RecordSection(kind, alignment, write, xs).data == Joined(write, xs)
    ensures xs == [] ==> Joined(write, xs) == []
    ensures |xs| == 1 ==> Joined(write, xs) == write(xs[0])
  {
    if |xs| == 1 {
      assert Joined(write, xs[1..]) == [];
    }
  }

  lemma CrowdedLengths()
    ensures |PutIdentity(CROWDED.identity)| <= 20_000 && |PutFunctions(CROWDED.functions, true)| <= 20_000
    ensures |CROWDED.code| == 1 && CROWDED.readOnlyData == [] && CROWDED.signatureMetadata == []
    ensures CROWDED.continuations == [] && CROWDED.relocations == [] && CROWDED.helperImports == [] && CROWDED.traps == []
    ensures CROWDED.exceptionMetadata == [] && CROWDED.resumeEntries == []
    ensures |CROWDED.internalSymbols| == 1 && |PutSymbol(CROWDED.internalSymbols[0])| <= 20_000
    ensures |CROWDED.rootMaps| == 1 && |PutRootMap(CROWDED.rootMaps[0])| <= 20_000
  {
    EmptyTexts();
    JoinedLength(PutText, Names(NOBODY), 4);
    NumbersLength(NOBODY.numbers);
    CompactLength(CROWDED.functions[0]);
    RecordData(4, 8, PutCompact, CROWDED.functions);
    SlotsLength(CROWDED.rootMaps[0]);
    hide PutText, PutNumbers, PutRootMap, PutCompact, Joined;
  }

  lemma CompactLength(f: FunctionImage)
    ensures |PutCompact(f)| == 21
  {
  }

  lemma EmptyTexts()
    ensures forall name | name in Names(NOBODY) :: |PutText(name)| == 4
  {
  }

  lemma NumbersLength(n: Numbers)
    ensures |PutNumbers(n)| == 53
  {
  }

  lemma SlotsLength(m: RootMap)
    ensures |PutRootMap(m)| == 12 + 4 * |m.slots|
  {
    JoinedLength(PutU32, m.slots, 4);
  }

  /** Valid, written and lost: the reader refuses what the writer wrote. */
  lemma CrowdedIsLost(f: Format, config: Config, digest: Bytes -> Bytes)
    requires f == PNA2 && IsDigest(digest) && config == Config(1_000_000, 1, 0, map[])
    ensures |f.magic| == 4 && Encoded(CROWDED, f, config, digest).Ok?
    ensures Decoded(Encoded(CROWDED, f, config, digest).value, NOBODY, config, digest) != Ok(CROWDED)
  {
    hide *;
    FormatsHaveMagic(f);
    CrowdedIsValid(config.maxArtifactBytes);
    ValidIff(CROWDED, config);
    SectionsStorable(CROWDED, true);
    var s := SectionsFor(CROWDED, true);
    forall i | 0 <= i < |s| ensures |s[i].data| <= 20_000 { CrowdedIsSmall(i); }
    FitsLimit(s, 20_000);
    IsEncoded(CROWDED, f, config, digest);
    ArtifactRoundTripIff(CROWDED, f, config, digest);
    IsNobody();
  }

  lemma IsNobody()
    ensures CROWDED.identity == NOBODY
  {
  }

  lemma FitsLimit(s: seq<Section>, most: nat)
    requires Sections(s) && |s| == KINDS && most == 20_000 && forall i | 0 <= i < |s| :: |s[i].data| <= most
    ensures !Overflows(s, |s|) && End(s, |s|) <= 1_000_000
  {
    hide End, Offset, Storable;
    EndBound(s, |s|, most);
    forall i | 0 <= i < |s|
      ensures End(s, i) + s[i].alignment - 1 <= USIZE_MAX && Offset(s, i) + |s[i].data| <= USIZE_MAX
    {
      EndStep(s, i);
      EndMonotone(s, i + 1, |s|);
    }
  }

  lemma IsEncoded(image: ArtifactImage, f: Format, config: Config, digest: Bytes -> Bytes)
    requires f == PNA2 && |f.magic| == 4 && IsDigest(digest) && CheckImage(image, config).Ok?
    requires var s := SectionsFor(image, true);
             Sections(s) && !Overflows(s, |s|) && End(s, |s|) <= config.maxArtifactBytes
    ensures Encoded(image, f, config, digest).Ok?
  {
    hide CheckImage, SectionsFor, Overflows, End, Image;
  }
}
