/** The image that a native artifact holds, its identity, and the checks that every image passes before it is
    written and after it is read. */
module ArtifactImages {
  import opened Options
  import opened ByteStrings
  import opened ArtifactWriter
  import opened ArtifactRecords
  import opened Sorting

  datatype Numbers = Numbers(
    craneliftSettingsHash: U64, regionIrSchemaVersion: U32, runtimeAbiHash: U64, helperAbiHash: U64, pointerWidth: Byte,
    cpuFeatureFingerprint: U64, optimizationConfigHash: U64, phpSemanticConfigHash: U64)

  datatype Identity = Identity(
    sourceHash: Text, irHash: Text, dependencyGraphHash: Text, buildId: Text, craneliftVersion: Text,
    targetTriple: Text, optimizationTier: Text, numbers: Numbers)

  datatype ArtifactImage = ArtifactImage(
    identity: Identity, code: Bytes, readOnlyData: Bytes, functions: seq<FunctionImage>,
    continuations: seq<Continuation>, relocations: seq<Relocation>, helperImports: seq<HelperImport>,
    internalSymbols: seq<Symbol>, traps: seq<Trap>, rootMaps: seq<RootMap>, resumeEntries: seq<Resume>,
    exceptionMetadata: seq<ExceptionRange>, signatureMetadata: Bytes)

  /** The limits of a cache, and the helpers known by their stable numbers. */
  datatype Config = Config(maxArtifactBytes: U64, maxCodeBytes: U64, maxRelocations: U64, helpers: map<U32, Text>)

  // ---------- The identity ----------

  function Names(i: Identity): seq<Text> {
    [i.sourceHash, i.irHash, i.dependencyGraphHash, i.buildId, i.craneliftVersion, i.targetTriple, i.optimizationTier]
  }

  function PutNumbers(n: Numbers): Bytes {
    PutU64(n.craneliftSettingsHash) + PutU32(n.regionIrSchemaVersion) + PutU64(n.runtimeAbiHash) + PutU64(n.helperAbiHash)
    + [n.pointerWidth] + PutU64(n.cpuFeatureFingerprint) + PutU64(n.optimizationConfigHash) + PutU64(n.phpSemanticConfigHash)
  }

  function TakeNumbers(s: Bytes): Read<Numbers> {
    var settings :- TakeU64(s);
    var schema :- TakeU32(settings.1);
    var runtime :- TakeU64(schema.1);
    var helper :- TakeU64(runtime.1);
    var width :- TakeU8(helper.1);
    var cpu :- TakeU64(width.1);
    var optimization :- TakeU64(cpu.1);
    var semantic :- TakeU64(optimization.1);
    Ok((Numbers(settings.0, schema.0, runtime.0, helper.0, width.0, cpu.0, optimization.0, semantic.0), semantic.1))
  }

  lemma NumbersBack(n: Numbers)
    ensures Undoes(TakeNumbers, PutNumbers(n), n)
  {
    hide TakeU8, TakeU32, TakeU64, PutU32, PutU64;
    U64Back(n.craneliftSettingsHash);
    U32Back(n.regionIrSchemaVersion);
    U64Back(n.runtimeAbiHash);
    U64Back(n.helperAbiHash);
    U8Back(n.pointerWidth);
    U64Back(n.cpuFeatureFingerprint);
    U64Back(n.optimizationConfigHash);
    U64Back(n.phpSemanticConfigHash);
    forall rest ensures TakeNumbers(PutNumbers(n) + rest) == Ok((n, rest)) {
      assert PutNumbers(n) + rest == PutU64(n.craneliftSettingsHash) + (PutU32(n.regionIrSchemaVersion)
             + (PutU64(n.runtimeAbiHash) + (PutU64(n.helperAbiHash) + ([n.pointerWidth] + (PutU64(n.cpuFeatureFingerprint)
             + (PutU64(n.optimizationConfigHash) + (PutU64(n.phpSemanticConfigHash) + rest)))))));
    }
  }

  function PutIdentity(i: Identity): Bytes { Joined(PutText, Names(i)) + PutNumbers(i.numbers) }

  function ReadIdentity(s: Bytes): Result<Identity, Error> {
    var names :- TakeMany(TakeText, 7, s);
    var numbers :- TakeNumbers(names.1);
    if numbers.1 != [] then Err(InvalidSection)
    else
      var n := names.0;
      Ok(Identity(n[0], n[1], n[2], n[3], n[4], n[5], n[6], numbers.0))
  }

  predicate ShortNames(i: Identity) {
    forall name | name in [i.sourceHash, i.irHash, i.dependencyGraphHash, i.buildId, i.craneliftVersion, i.targetTriple,
                           i.optimizationTier] :: |name| <= 1_048_576
  }

  lemma IdentityBack(i: Identity)
    requires ShortNames(i)
    ensures ReadIdentity(PutIdentity(i)) == Ok(i)
  {
    hide TakeText, PutText, TakeNumbers, PutNumbers, TakeMany, Joined;
    forall name | name in Names(i) ensures Undoes(TakeText, PutText(name), name) { TextBack(name); }
    ManyBack(TakeText, PutText, Names(i));
    NumbersBack(i.numbers);
    var back := PutNumbers(i.numbers);
    assert (s => TakeMany(TakeText, |Names(i)|, s))(Joined(PutText, Names(i)) + back) == Ok((Names(i), back));
    assert back + [] == back;
  }

  /** Every element read satisfies what each reading guarantees. */
  lemma {:induction false} EachRead<T>(read: Reader<T>, n: nat, s: Bytes, good: T -> bool)
    requires forall x: Bytes :: read(x).Ok? ==> good(read(x).value.0)
    ensures TakeMany(read, n, s).Ok? ==> forall x | x in TakeMany(read, n, s).value.0 :: good(x)
    decreases n
  {
    if n != 0 && read(s).Ok? { EachRead(read, n - 1, read(s).value.1, good); }
  }

  lemma ReadHasShortNames(s: Bytes)
    ensures ReadIdentity(s).Ok? ==> ShortNames(ReadIdentity(s).value)
  {
    hide TakeText, TakeNumbers, TakeMany;
    EachRead(TakeText, 7, s, (t: Text) => |t| <= MAX_TEXT);
    if ReadIdentity(s).Ok? {
      var names := TakeMany(TakeText, 7, s).value.0;
      assert Names(ReadIdentity(s).value) == names;
      forall name | name in names ensures |name| <= MAX_TEXT {
        assert ((t: Text) => |t| <= MAX_TEXT)(name);
      }
    }
  }

  // ---------- The checks ----------

  function Need(condition: bool, error: Error): Result<(), Error> { if condition then Ok(()) else Err(error) }

  /** The first failure in a list. */
  function Each<T>(xs: seq<T>, check: T -> Result<(), Error>): (r: Result<(), Error>)
    ensures r.Ok? <==> forall x | x in xs :: check(x).Ok?
  {
    if xs == [] then Ok(())
    else
      assert forall x | x in xs :: x == xs[0] || x in xs[1..];
      var _ :- check(xs[0]);
      Each(xs[1..], check)
  }

  method CheckEach<T>(xs: seq<T>, check: T -> Result<(), Error>) returns (r: Result<(), Error>)
    ensures r == Each(xs, check)
  {
    var i := 0;
    while i < |xs|
      invariant i <= |xs| && Each(xs, check) == Each(xs[i..], check)
    {
      assert xs[i..][0] == xs[i] && xs[i..][1..] == xs[i + 1..];
      var _ :- check(xs[i]);
      i := i + 1;
    }
    r := Ok(());
  }

  function Ids<T(==), K(==)>(id: T -> K, xs: seq<T>): set<K> { set x | x in xs :: id(x) }

  /** Collecting into a set loses nothing exactly when nothing is repeated. */
  lemma {:induction false} AllCountedIff<T, K>(id: T -> K, xs: seq<T>)
    ensures |Ids(id, xs)| <= |xs|
    ensures |Ids(id, xs)| == |xs| <==> DistinctKeys(id, xs)
    decreases |xs|
  {
    if xs != [] {
      AllCountedIff(id, xs[1..]);
      var rest := Ids(id, xs[1..]);
      assert forall x | x in xs :: x == xs[0] || x in xs[1..];
      assert Ids(id, xs) == rest + {id(xs[0])};
      if id(xs[0]) in rest {
        var x :| x in xs[1..] && id(x) == id(xs[0]);
        var i :| 0 <= i < |xs[1..]| && xs[1..][i] == x;
        assert id(xs[0]) == id(xs[i + 1]);
      } else {
        forall j | 0 < j < |xs| ensures id(xs[0]) != id(xs[j]) { assert xs[j] in xs[1..]; }
        DistinctTail(id, xs);
      }
    }
  }

  lemma DistinctTail<T, K>(id: T -> K, xs: seq<T>)
    requires xs != [] && forall j | 0 < j < |xs| :: id(xs[0]) != id(xs[j])
    ensures DistinctKeys(id, xs) <==> DistinctKeys(id, xs[1..])
  {
    if DistinctKeys(id, xs[1..]) {
      forall i, j | 0 <= i < j < |xs| ensures id(xs[i]) != id(xs[j]) {
        if i > 0 { assert id(xs[1..][i - 1]) != id(xs[1..][j - 1]); }
      }
    }
  }

  const X86_64: Bytes := [0x78, 0x38, 0x36, 0x5f, 0x36, 0x34]
  const AARCH64: Bytes := [0x61, 0x61, 0x72, 0x63, 0x68, 0x36, 0x34]

  predicate Contains(text: Bytes, word: Bytes) {
    exists i | 0 <= i <= |text| :: word <= text[i..]
  }

  function CheckRange(offset: U64, length: U64, codeLength: nat): Result<(), Error> {
    var _ :- Need(offset + length < 0x1_0000_0000_0000_0000, InvalidSection);
    Need(length != 0 && offset + length <= codeLength, InvalidSection)
  }

  function CheckHelper(h: HelperImport, config: Config): Result<(), Error> {
    if h.stableId !in config.helpers then Err(UnknownHelper(h.stableId))
    else Need(config.helpers[h.stableId] == h.name, InvalidRelocation)
  }

  function HelperId(h: HelperImport): U32 { h.stableId }
  function SymbolId(s: Symbol): U32 { s.stableId }
  function FunctionId(f: FunctionImage): U32 { f.functionId }
  function ContinuationId(c: Continuation): (U32, U32) { (c.functionId, c.continuationId) }
  function ResumeId(r: Resume): (U32, U32, I32) { (r.functionId, r.continuationId, r.resumeId) }

  function CheckFunction(f: FunctionImage, image: ArtifactImage): Result<(), Error> {
    var _ :- CheckRange(f.codeOffset, f.codeLen, |image.code|);
    Need(f.functionId in Ids(SymbolId, image.internalSymbols), UnknownInternalSymbol(f.functionId))
  }

  function PatchWidth(kind: RelocationKind): U64 { if kind == Abs64 then 8 else 4 }

  predicate RightMachine(kind: RelocationKind, triple: Text) {
    match kind
    case Abs64 => true
    case Arm64Call => Contains(triple, AARCH64)
    case _ => Contains(triple, X86_64)
  }

  function CheckRelocation(r: Relocation, image: ArtifactImage): Result<(), Error> {
    var _ :- CheckRange(r.offset, PatchWidth(r.kind), |image.code|);
    var _ :- Need(RightMachine(r.kind, image.identity.targetTriple), InvalidRelocation);
    match r.target
    case Helper(id) => Need(id in Ids(HelperId, image.helperImports), UnknownHelper(id))
    case InternalSymbol(id) => Need(id in Ids(SymbolId, image.internalSymbols), UnknownInternalSymbol(id))
  }

  function FindFunction(fs: seq<FunctionImage>, id: U32): (r: Option<FunctionImage>)
    ensures r.Some? ==> r.value in fs && r.value.functionId == id
    ensures r.None? <==> forall f | f in fs :: f.functionId != id
  {
    if fs == [] then None
    else
      assert forall f | f in fs :: f == fs[0] || f in fs[1..];
      if fs[0].functionId == id then Some(fs[0]) else FindFunction(fs[1..], id)
  }

  predicate Within(offset: U64, f: FunctionImage) { f.codeOffset <= offset < f.codeOffset + f.codeLen }

  function CheckPlace(functionId: U32, offset: U64, image: ArtifactImage): Result<(), Error> {
    match FindFunction(image.functions, functionId)
    case None => Err(UnknownInternalSymbol(functionId))
    case Some(f) =>
      var _ :- CheckRange(offset, 1, |image.code|);
      Need(Within(offset, f), InvalidSection)
  }

  function CheckResume(r: Resume, image: ArtifactImage): Result<(), Error> {
    var _ :- Need(r.functionId in Ids(FunctionId, image.functions)
                  && (r.functionId, r.continuationId) in Ids(ContinuationId, image.continuations), InvalidSection);
    var _ :- CheckRange(r.codeOffset, 1, |image.code|);
    CheckPlace(r.functionId, r.codeOffset, image)
  }

  function CheckException(e: ExceptionRange, image: ArtifactImage): Result<(), Error> {
    var _ :- Need(e.startOffset < e.endOffset <= |image.code|, InvalidSection);
    CheckRange(e.handlerOffset, 1, |image.code|)
  }

  function CheckSizes(image: ArtifactImage, config: Config): Result<(), Error> {
    var _ :- Need(0 < |image.code| <= config.maxCodeBytes, SizeLimit);
    var _ :- Need(|image.relocations| <= config.maxRelocations, SizeLimit);
    var _ :- Need(image.functions != [], InvalidSection);
    Need(&& |Ids(HelperId, image.helperImports)| == |image.helperImports|
         && |Ids(SymbolId, image.internalSymbols)| == |image.internalSymbols|
         && |Ids(FunctionId, image.functions)| == |image.functions|, InvalidSection)
  }

  /** The checks in the order in which they are made; the first that fails gives the error. */
  function CheckImage(image: ArtifactImage, config: Config): Result<(), Error> {
    var _ :- CheckSizes(image, config);
    var _ :- Each(image.helperImports, (h: HelperImport) => CheckHelper(h, config));
    var _ :- Each(image.functions, (f: FunctionImage) => CheckFunction(f, image));
    var _ :- Each(image.internalSymbols, (s: Symbol) => CheckRange(s.codeOffset, 1, |image.code|));
    var _ :- Each(image.relocations, (r: Relocation) => CheckRelocation(r, image));
    var _ :- Each(image.continuations, (c: Continuation) => CheckPlace(c.functionId, c.codeOffset, image));
    var _ :- Each(image.traps, (t: Trap) => CheckRange(t.codeOffset, 1, |image.code|));
    var _ :- Each(image.rootMaps, (m: RootMap) => CheckRange(m.codeOffset, 1, |image.code|));
    var _ :- Need(|Ids(ContinuationId, image.continuations)| == |image.continuations|, InvalidSection);
    var _ :- Need(|Ids(ResumeId, image.resumeEntries)| == |image.resumeEntries|, InvalidSection);
    var _ :- Each(image.resumeEntries, (r: Resume) => CheckResume(r, image));
    Each(image.exceptionMetadata, (e: ExceptionRange) => CheckException(e, image))
  }

  method ValidateImage(image: ArtifactImage, config: Config) returns (r: Result<(), Error>)
    ensures r == CheckImage(image, config)
  {
    hide Each, CheckSizes, CheckHelper, CheckFunction, CheckRange, CheckRelocation, CheckPlace, CheckResume, CheckException;
    var _ :- CheckSizes(image, config);
    var _ :- CheckEach(image.helperImports, (h: HelperImport) => CheckHelper(h, config));
    var _ :- CheckEach(image.functions, (f: FunctionImage) => CheckFunction(f, image));
    var _ :- CheckEach(image.internalSymbols, (s: Symbol) => CheckRange(s.codeOffset, 1, |image.code|));
    var _ :- CheckEach(image.relocations, (r: Relocation) => CheckRelocation(r, image));
    var _ :- CheckEach(image.continuations, (c: Continuation) => CheckPlace(c.functionId, c.codeOffset, image));
    var _ :- CheckEach(image.traps, (t: Trap) => CheckRange(t.codeOffset, 1, |image.code|));
    var _ :- CheckEach(image.rootMaps, (m: RootMap) => CheckRange(m.codeOffset, 1, |image.code|));
    var _ :- Need(|Ids(ContinuationId, image.continuations)| == |image.continuations|, InvalidSection);
    var _ :- Need(|Ids(ResumeId, image.resumeEntries)| == |image.resumeEntries|, InvalidSection);
    var _ :- CheckEach(image.resumeEntries, (r: Resume) => CheckResume(r, image));
    r := CheckEach(image.exceptionMetadata, (e: ExceptionRange) => CheckException(e, image));
  }

  // ---------- What the checks establish ----------

  ghost predicate InCode(offset: nat, length: nat, image: ArtifactImage) {
    length > 0 && offset + length <= |image.code|
  }

  /** A place in the code of the function with a given number. */
  ghost predicate InFunction(functionId: U32, offset: U64, image: ArtifactImage) {
    exists f :: f in image.functions && f.functionId == functionId && f.codeOffset <= offset < f.codeOffset + f.codeLen
  }

  ghost predicate KnownTarget(t: Target, image: ArtifactImage) {
    match t
    case Helper(id) => exists h :: h in image.helperImports && h.stableId == id
    case InternalSymbol(id) => exists s :: s in image.internalSymbols && s.stableId == id
  }

  ghost predicate StandsAt(word: string, text: Bytes, i: nat) {
    i + |word| <= |text| && forall k | 0 <= k < |word| :: text[i + k] == word[k] as int
  }

  ghost predicate Mentions(text: Bytes, word: string) {
    exists i: nat :: StandsAt(word, text, i)
  }

  /** A relocation of eight bytes for any machine, or of four for the machine that the triple names. */
  ghost predicate Fitting(r: Relocation, image: ArtifactImage) {
    match r.kind
    case Abs64 => InCode(r.offset, 8, image)
    case X86PcRel4 => InCode(r.offset, 4, image) && Mentions(image.identity.targetTriple, "x86_64")
    case X86CallPcRel4 => InCode(r.offset, 4, image) && Mentions(image.identity.targetTriple, "x86_64")
    case Arm64Call => InCode(r.offset, 4, image) && Mentions(image.identity.targetTriple, "aarch64")
  }

  /** No helper, symbol, function, continuation or resume entry has the number of another. */
  ghost predicate UniqueNumbers(image: ArtifactImage) {
    && (forall i, j | 0 <= i < j < |image.helperImports| ::
          image.helperImports[i].stableId != image.helperImports[j].stableId)
    && (forall i, j | 0 <= i < j < |image.internalSymbols| ::
          image.internalSymbols[i].stableId != image.internalSymbols[j].stableId)
    && (forall i, j | 0 <= i < j < |image.functions| :: image.functions[i].functionId != image.functions[j].functionId)
    && (forall i, j | 0 <= i < j < |image.continuations| ::
          || image.continuations[i].functionId != image.continuations[j].functionId
          || image.continuations[i].continuationId != image.continuations[j].continuationId)
    && (forall i, j | 0 <= i < j < |image.resumeEntries| ::
          || image.resumeEntries[i].functionId != image.resumeEntries[j].functionId
          || image.resumeEntries[i].continuationId != image.resumeEntries[j].continuationId
          || image.resumeEntries[i].resumeId != image.resumeEntries[j].resumeId)
  }

  /** Numbers are unique, everything lies in the code, and every reference has its target. */
  ghost predicate Valid(image: ArtifactImage, config: Config) {
    && 0 < |image.code| <= config.maxCodeBytes && |image.relocations| <= config.maxRelocations && image.functions != []
    && UniqueNumbers(image)
    && (forall h | h in image.helperImports :: h.stableId in config.helpers && config.helpers[h.stableId] == h.name)
    && (forall f | f in image.functions ::
          InCode(f.codeOffset, f.codeLen, image) && KnownTarget(InternalSymbol(f.functionId), image))
    && (forall s | s in image.internalSymbols :: InCode(s.codeOffset, 1, image))
    && (forall r | r in image.relocations :: Fitting(r, image) && KnownTarget(r.target, image))
    && (forall c | c in image.continuations :: InFunction(c.functionId, c.codeOffset, image))
    && (forall t | t in image.traps :: InCode(t.codeOffset, 1, image))
    && (forall m | m in image.rootMaps :: InCode(m.codeOffset, 1, image))
    && (forall r | r in image.resumeEntries ::
          && InFunction(r.functionId, r.codeOffset, image)
          && exists c :: c in image.continuations && c.functionId == r.functionId && c.continuationId == r.continuationId)
    && (forall e | e in image.exceptionMetadata ::
          e.startOffset < e.endOffset <= |image.code| && InCode(e.handlerOffset, 1, image))
  }

  lemma ContainsIff(text: Bytes, word: Bytes, name: string)
    requires |word| == |name| && forall k | 0 <= k < |name| :: word[k] == name[k] as int
    ensures Contains(text, word) <==> Mentions(text, name)
  {
    if Contains(text, word) {
      var i :| 0 <= i <= |text| && word <= text[i..];
      assert forall k | 0 <= k < |name| :: text[i..][k] == text[i + k];
      assert StandsAt(name, text, i);
    }
    if i: nat :| StandsAt(name, text, i) {
      assert word == text[i..][..|word|];
    }
  }

  lemma MachineIff(r: Relocation, image: ArtifactImage)
    ensures Fitting(r, image) <==>
            InCode(r.offset, PatchWidth(r.kind), image) && RightMachine(r.kind, image.identity.targetTriple)
  {
    hide Contains, Mentions;
    ContainsIff(image.identity.targetTriple, X86_64, "x86_64");
    ContainsIff(image.identity.targetTriple, AARCH64, "aarch64");
  }

  lemma UniqueIff(image: ArtifactImage)
    ensures UniqueNumbers(image) <==>
            && DistinctKeys(HelperId, image.helperImports) && DistinctKeys(SymbolId, image.internalSymbols)
            && DistinctKeys(FunctionId, image.functions) && DistinctKeys(ContinuationId, image.continuations)
            && DistinctKeys(ResumeId, image.resumeEntries)
  {
  }

  lemma RangeIff(offset: U64, length: U64, image: ArtifactImage)
    requires |image.code| < 0x1_0000_0000_0000_0000
    ensures CheckRange(offset, length, |image.code|).Ok? <==> InCode(offset, length, image)
  {
  }

  lemma TargetIff(t: Target, image: ArtifactImage)
    ensures KnownTarget(t, image) <==>
            if t.Helper? then t.id in Ids(HelperId, image.helperImports) else t.id in Ids(SymbolId, image.internalSymbols)
  {
  }

  /** Function numbers are unique and functions lie in the code, so the first function found is the one meant. */
  lemma PlaceIff(id: U32, offset: U64, image: ArtifactImage)
    requires |image.code| < 0x1_0000_0000_0000_0000 && DistinctKeys(FunctionId, image.functions)
    requires forall f | f in image.functions :: InCode(f.codeOffset, f.codeLen, image)
    ensures CheckPlace(id, offset, image).Ok? <==> InFunction(id, offset, image)
  {
    RangeIff(offset, 1, image);
    if InFunction(id, offset, image) {
      var f :| f in image.functions && f.functionId == id && f.codeOffset <= offset < f.codeOffset + f.codeLen;
      var g := FindFunction(image.functions, id).value;
      var i :| 0 <= i < |image.functions| && image.functions[i] == f;
      var j :| 0 <= j < |image.functions| && image.functions[j] == g;
      assert FunctionId(image.functions[i]) == FunctionId(image.functions[j]);
    }
  }

  lemma SizesIff(image: ArtifactImage, config: Config)
    ensures CheckSizes(image, config).Ok? <==>
            && 0 < |image.code| <= config.maxCodeBytes && |image.relocations| <= config.maxRelocations && image.functions != []
            && DistinctKeys(HelperId, image.helperImports) && DistinctKeys(SymbolId, image.internalSymbols)
            && DistinctKeys(FunctionId, image.functions)
  {
    AllCountedIff(HelperId, image.helperImports);
    AllCountedIff(SymbolId, image.internalSymbols);
    AllCountedIff(FunctionId, image.functions);
    hide Ids, DistinctKeys;
  }

  lemma ResumeIff(r: Resume, image: ArtifactImage)
    requires |image.code| < 0x1_0000_0000_0000_0000 && DistinctKeys(FunctionId, image.functions)
    requires forall f | f in image.functions :: InCode(f.codeOffset, f.codeLen, image)
    ensures CheckResume(r, image).Ok? <==>
            && InFunction(r.functionId, r.codeOffset, image)
            && exists c :: c in image.continuations && c.functionId == r.functionId && c.continuationId == r.continuationId
  {
    PlaceIff(r.functionId, r.codeOffset, image);
    RangeIff(r.codeOffset, 1, image);
    hide DistinctKeys, CheckRange;
    if InFunction(r.functionId, r.codeOffset, image) {
      assert r.functionId in Ids(FunctionId, image.functions);
    }
  }

  /** The checks pass exactly on valid images. */
  lemma ValidIff(image: ArtifactImage, config: Config)
    ensures CheckImage(image, config).Ok? <==> Valid(image, config)
  {
    hide CheckSizes, CheckHelper, CheckFunction, CheckRange, CheckRelocation, CheckPlace, CheckResume, CheckException, Ids,
         DistinctKeys, InCode, InFunction, KnownTarget, Fitting, UniqueNumbers, Each;
    SizesIff(image, config);
    UniqueIff(image);
    if CheckSizes(image, config).Ok? {
      AllCountedIff(ContinuationId, image.continuations);
      AllCountedIff(ResumeId, image.resumeEntries);
      RecordsIff(image, config);
      if forall f | f in image.functions :: InCode(f.codeOffset, f.codeLen, image) { PlacesIff(image); }
    }
  }

  lemma PlacesIff(image: ArtifactImage)
    requires |image.code| < 0x1_0000_0000_0000_0000 && DistinctKeys(FunctionId, image.functions)
    requires forall f | f in image.functions :: InCode(f.codeOffset, f.codeLen, image)
    ensures forall c: Continuation :: CheckPlace(c.functionId, c.codeOffset, image).Ok? <==>
              InFunction(c.functionId, c.codeOffset, image)
    ensures forall r: Resume :: CheckResume(r, image).Ok? <==>
              && InFunction(r.functionId, r.codeOffset, image)
              && exists c :: c in image.continuations && c.functionId == r.functionId && c.continuationId == r.continuationId
  {
    hide *;
    forall c: Continuation
      ensures CheckPlace(c.functionId, c.codeOffset, image).Ok? <==> InFunction(c.functionId, c.codeOffset, image)
    {
      PlaceIff(c.functionId, c.codeOffset, image);
    }
    forall r: Resume
      ensures CheckResume(r, image).Ok? <==>
              && InFunction(r.functionId, r.codeOffset, image)
              && exists c :: c in image.continuations && c.functionId == r.functionId && c.continuationId == r.continuationId
    {
      ResumeIff(r, image);
    }
  }

  lemma RecordsIff(image: ArtifactImage, config: Config)
    requires |image.code| < 0x1_0000_0000_0000_0000
    ensures forall h: HelperImport :: CheckHelper(h, config).Ok? <==>
              h.stableId in config.helpers && config.helpers[h.stableId] == h.name
    ensures forall f: FunctionImage :: CheckFunction(f, image).Ok? <==>
              InCode(f.codeOffset, f.codeLen, image) && KnownTarget(InternalSymbol(f.functionId), image)
    ensures forall offset: U64 :: CheckRange(offset, 1, |image.code|).Ok? <==> InCode(offset, 1, image)
    ensures forall r: Relocation :: CheckRelocation(r, image).Ok? <==> Fitting(r, image) && KnownTarget(r.target, image)
    ensures forall e: ExceptionRange :: CheckException(e, image).Ok? <==>
              e.startOffset < e.endOffset <= |image.code| && InCode(e.handlerOffset, 1, image)
  {
    forall offset: U64, length: U64 ensures CheckRange(offset, length, |image.code|).Ok? <==> InCode(offset, length, image) {
      RangeIff(offset, length, image);
    }
    forall t: Target ensures KnownTarget(t, image) <==>
            if t.Helper? then t.id in Ids(HelperId, image.helperImports) else t.id in Ids(SymbolId, image.internalSymbols) {
      TargetIff(t, image);
    }
    forall r: Relocation ensures Fitting(r, image) <==>
            InCode(r.offset, PatchWidth(r.kind), image) && RightMachine(r.kind, image.identity.targetTriple) {
      MachineIff(r, image);
    }
    hide CheckRange, InCode, KnownTarget, Ids, RightMachine, Fitting, PatchWidth;
  }

  /** The error of a list is that of its first element that fails. */
  lemma {:induction false} EachError<T>(xs: seq<T>, check: T -> Result<(), Error>, i: nat)
    requires i < |xs| && check(xs[i]).Err? && forall j | 0 <= j < i :: check(xs[j]).Ok?
    ensures Each(xs, check) == Err(check(xs[i]).error)
    decreases |xs|
  {
    if i > 0 { EachError(xs[1..], check, i - 1); }
  }

  /** Which error each record gives: ranges and places are invalid sections, machines and names invalid relocations,
      and missing numbers are named. */
  lemma ErrorsAre(image: ArtifactImage, config: Config, h: HelperImport, f: FunctionImage, r: Relocation, c: Continuation)
    requires |image.code| < 0x1_0000_0000_0000_0000
    ensures CheckHelper(h, config).Err? ==>
              CheckHelper(h, config).error == if h.stableId in config.helpers then InvalidRelocation else UnknownHelper(h.stableId)
    ensures CheckFunction(f, image).Err? ==>
              CheckFunction(f, image).error ==
              if InCode(f.codeOffset, f.codeLen, image) then UnknownInternalSymbol(f.functionId) else InvalidSection
    ensures CheckRelocation(r, image).Err? ==>
              CheckRelocation(r, image).error ==
              if !InCode(r.offset, if r.kind == Abs64 then 8 else 4, image) then InvalidSection
              else if !Fitting(r, image) then InvalidRelocation
              else if r.target.Helper? then UnknownHelper(r.target.id) else UnknownInternalSymbol(r.target.id)
    ensures CheckPlace(c.functionId, c.codeOffset, image).Err? ==>
              CheckPlace(c.functionId, c.codeOffset, image).error ==
              if exists g :: g in image.functions && g.functionId == c.functionId then InvalidSection
              else UnknownInternalSymbol(c.functionId)
  {
    RangeIff(f.codeOffset, f.codeLen, image);
    RangeIff(r.offset, PatchWidth(r.kind), image);
    MachineIff(r, image);
    TargetIff(r.target, image);
    TargetIff(InternalSymbol(f.functionId), image);
    hide Fitting, RightMachine, Ids;
  }
}
