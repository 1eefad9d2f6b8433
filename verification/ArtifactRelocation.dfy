/** Loading: the relocations of an image are patched into its mapped code. */
module ArtifactRelocation {
  import opened Options
  import opened ByteStrings
  import opened ArtifactBytes
  import opened ArtifactWriter
  import opened ArtifactRecords
  import opened ArtifactImages
  import opened Sorting

  const ADDRESSES: nat := 0x1_0000_0000_0000_0000
  const CALL_FIELD: nat := 0x400_0000

  // ---------- One relocation ----------

  function FindSymbol(symbols: seq<Symbol>, id: U32): (r: Option<Symbol>)
    ensures r.Some? ==> r.value in symbols && r.value.stableId == id
    ensures r.None? <==> forall s | s in symbols :: s.stableId != id
  {
    if symbols == [] then None
    else
      assert forall s | s in symbols :: s == symbols[0] || s in symbols[1..];
      if symbols[0].stableId == id then Some(symbols[0]) else FindSymbol(symbols[1..], id)
  }

  /** A loaded image: where its code is mapped and where the helpers are. */
  datatype Place = Place(image: ArtifactImage, base: U64, helpers: U32 -> Option<U64>)

  function TargetAddress(p: Place, t: Target): Result<U64, Error> {
    match t
    case Helper(id) =>
      (match p.helpers(id)
       case None => Err(UnknownHelper(id))
       case Some(address) => Ok(address))
    case InternalSymbol(id) =>
      (match FindSymbol(p.image.internalSymbols, id)
       case None => Err(UnknownInternalSymbol(id))
       case Some(symbol) =>
         if p.base + symbol.codeOffset < ADDRESSES then Ok(p.base + symbol.codeOffset) else Err(InvalidRelocation))
  }

  /** What a relocation refers to: the target and the place of the patch. */
  function Referred(p: Place, r: Relocation): Result<(int, U64), Error> {
    var target :- TargetAddress(p, r.target);
    if p.base + r.offset < ADDRESSES then Ok((target + r.addend, p.base + r.offset)) else Err(InvalidRelocation)
  }

  /** The patch has room for the value. */
  predicate InRange(kind: RelocationKind, value: int, at: U64) {
    match kind
    case Abs64 => 0 <= value < ADDRESSES
    case Arm64Call => (value - at) % 4 == 0 && -0x800_0000 <= value - at < 0x800_0000
    case _ => -0x8000_0000 <= value - at < 0x8000_0000
  }

  /** The bytes of the patch over the bytes that were there. Only a call keeps some of them, its opcode. */
  function Patch(kind: RelocationKind, value: int, at: U64, was: Bytes): (now: Bytes)
    requires InRange(kind, value, at) && |was| == PatchWidth(kind)
    ensures |now| == |was|
  {
    match kind
    case Abs64 => PutU64(value)
    case Arm64Call =>
      CallWord(was, (value - at) / 4);
      PutU32(Le(was) - Le(was) % CALL_FIELD + (value - at) / 4 % CALL_FIELD)
    case _ => PutI32(value - at)
  }

  lemma CallWord(was: Bytes, words: int)
    requires |was| == 4
    ensures 0 <= Le(was) - Le(was) % CALL_FIELD + words % CALL_FIELD < 0x1_0000_0000
  {
    LeBounded(was);
    Widths();
    var high := Le(was) / CALL_FIELD;
    assert Le(was) == CALL_FIELD * high + Le(was) % CALL_FIELD;
  }

  /** Where a patched place leads: the address it holds, or the one relative to itself. */
  function Reached(kind: RelocationKind, at: U64, bytes: Bytes): int
    requires |bytes| == PatchWidth(kind)
  {
    match kind
    case Abs64 => Le(bytes)
    case Arm64Call => at + 4 * SignedCall(Le(bytes) % CALL_FIELD)
    case _ =>
      LeBounded(bytes);
      Widths();
      at + Signed32(Le(bytes))
  }

  function SignedCall(x: nat): int { if x >= CALL_FIELD / 2 then x - CALL_FIELD else x }

  /** A patch leads to the value, and keeps the opcode of a call. */
  lemma PatchReaches(kind: RelocationKind, value: int, at: U64, was: Bytes)
    requires InRange(kind, value, at) && |was| == PatchWidth(kind)
    ensures Reached(kind, at, Patch(kind, value, at, was)) == value
    ensures kind == Arm64Call ==> Le(Patch(kind, value, at, was)) / CALL_FIELD == Le(was) / CALL_FIELD
  {
    hide Le, LeBytes, Pow256;
    Widths();
    match kind
    case Abs64 => LeRoundTrip(value, 8);
    case Arm64Call => CallReaches(value, at, was);
    case _ => LeRoundTrip(Unsigned32(value - at), 4);
  }

  lemma CallReaches(value: int, at: U64, was: Bytes)
    requires InRange(Arm64Call, value, at) && |was| == 4
    ensures var now := Patch(Arm64Call, value, at, was);
            Reached(Arm64Call, at, now) == value && Le(now) / CALL_FIELD == Le(was) / CALL_FIELD
  {
    hide Le, LeBytes, Pow256, SignedCall;
    var words := (value - at) / 4;
    CallWord(was, words);
    var word := Le(was) - Le(was) % CALL_FIELD + words % CALL_FIELD;
    Widths();
    LeRoundTrip(word, 4);
    CallFields(Le(was), words);
    assert Le(Patch(Arm64Call, value, at, was)) == word;
    assert 4 * words == value - at;
  }

  lemma CallFields(was: nat, words: int)
    requires -0x200_0000 <= words < 0x200_0000
    ensures var word := was - was % CALL_FIELD + words % CALL_FIELD;
            word >= 0 && word / CALL_FIELD == was / CALL_FIELD && SignedCall(word % CALL_FIELD) == words
  {
    var high := was / CALL_FIELD;
    assert was - was % CALL_FIELD == CALL_FIELD * high;
    assert words % CALL_FIELD == if words < 0 then words + CALL_FIELD else words;
  }

  // ---------- All relocations ----------

  /** A relocation can be made: its target is known and its value fits. */
  predicate Applies(p: Place, r: Relocation) {
    Referred(p, r).Ok? && InRange(r.kind, Referred(p, r).value.0, Referred(p, r).value.1)
  }

  function Failure(p: Place, r: Relocation): Error
    requires !Applies(p, r)
  {
    if Referred(p, r).Err? then Referred(p, r).error else InvalidRelocation
  }

  predicate InBounds(rs: seq<Relocation>, bytes: Bytes) {
    forall r | r in rs :: r.offset + PatchWidth(r.kind) <= |bytes|
  }

  function Patched(p: Place, r: Relocation, bytes: Bytes): (now: Bytes)
    requires Applies(p, r) && r.offset + PatchWidth(r.kind) <= |bytes|
    ensures |now| == |bytes|
  {
    var refers := Referred(p, r).value;
    Splice(bytes, r.offset, Patch(r.kind, refers.0, refers.1, Slice(bytes, r.offset, PatchWidth(r.kind))))
  }

  /** The code after all relocations, in their order. */
  function Relocated(p: Place, rs: seq<Relocation>, bytes: Bytes): (r: Result<Bytes, Error>)
    requires InBounds(rs, bytes)
    ensures r.Ok? ==> |r.value| == |bytes|
    decreases |rs|
  {
    if rs == [] then Ok(bytes)
    else if !Applies(p, rs[0]) then Err(Failure(p, rs[0]))
    else
      assert rs[0] in rs && forall r | r in rs[1..] :: r in rs;
      Relocated(p, rs[1..], Patched(p, rs[0], bytes))
  }

  lemma RelocatedStep(p: Place, rs: seq<Relocation>, i: nat, bytes: Bytes)
    requires i < |rs| && InBounds(rs, bytes)
    ensures InBounds(rs[i..], bytes) && InBounds(rs[i + 1..], bytes) && rs[i].offset + PatchWidth(rs[i].kind) <= |bytes|
    ensures Relocated(p, rs[i..], bytes) ==
            if Applies(p, rs[i]) then Relocated(p, rs[i + 1..], Patched(p, rs[i], bytes)) else Err(Failure(p, rs[i]))
  {
    hide Applies, Patched, Failure;
    assert rs[i] in rs && rs[i..][0] == rs[i] && rs[i..][1..] == rs[i + 1..];
    assert forall r | r in rs[i..] :: r in rs;
  }

  /** Patches the mapped code in place, one relocation after another. A failure leaves the code half patched; the
      mapping is then thrown away. */
  method ApplyRelocations(p: Place, mapping: array<Byte>, ghost config: Config) returns (r: Result<(), Error>)
    requires Valid(p.image, config) && |p.image.code| <= mapping.Length
    modifies mapping
    ensures InBounds(p.image.relocations, old(mapping[..]))
    ensures r.Ok? <==> Relocated(p, p.image.relocations, old(mapping[..])).Ok?
    ensures r.Ok? ==> Ok(mapping[..]) == Relocated(p, p.image.relocations, old(mapping[..]))
    ensures r.Err? ==> Err(r.error) == Relocated(p, p.image.relocations, old(mapping[..]))
  {
    hide *;
    var rs := p.image.relocations;
    ValidInBounds(p.image, config, mapping[..]);
    ghost var goal := Relocated(p, rs, mapping[..]);
    assert rs[0..] == rs;
    var i := 0;
    while i < |rs|
      invariant i <= |rs| && InBounds(rs, mapping[..]) && InBounds(rs[i..], mapping[..])
      invariant Relocated(p, rs[i..], mapping[..]) == goal
    {
      var relocation := rs[i];
      RelocatedStep(p, rs, i, mapping[..]);
      if !Applies(p, relocation) { return Err(Failure(p, relocation)); }
      AppliesRefers(p, relocation);
      var refers := Referred(p, relocation).value;
      var window := mapping[relocation.offset..relocation.offset + PatchWidth(relocation.kind)];
      IsPatched(p, relocation, mapping[..]);
      var patch := Patch(relocation.kind, refers.0, refers.1, window);
      SameBounds(rs, mapping[..], Patched(p, relocation, mapping[..]));
      CopyInto(mapping, relocation.offset, patch);
      i := i + 1;
    }
    AllDone(p, rs, i, mapping[..]);
    r := Ok(());
  }

  lemma AllDone(p: Place, rs: seq<Relocation>, i: nat, bytes: Bytes)
    requires i == |rs| && InBounds(rs[i..], bytes)
    ensures Relocated(p, rs[i..], bytes) == Ok(bytes)
  {
  }

  lemma AppliesRefers(p: Place, r: Relocation)
    requires Applies(p, r)
    ensures Referred(p, r).Ok? && InRange(r.kind, Referred(p, r).value.0, Referred(p, r).value.1)
  {
  }

  lemma IsPatched(p: Place, r: Relocation, bytes: Bytes)
    requires Applies(p, r) && r.offset + PatchWidth(r.kind) <= |bytes| && Referred(p, r).Ok?
    requires InRange(r.kind, Referred(p, r).value.0, Referred(p, r).value.1)
    ensures var window := bytes[r.offset..r.offset + PatchWidth(r.kind)];
            && |window| == PatchWidth(r.kind)
            && Patched(p, r, bytes) ==
               Splice(bytes, r.offset, Patch(r.kind, Referred(p, r).value.0, Referred(p, r).value.1, window))
  {
    hide Patch, Splice, Referred, InRange, PatchWidth;
  }

  lemma SameBounds(rs: seq<Relocation>, a: Bytes, b: Bytes)
    requires InBounds(rs, a) && |a| == |b|
    ensures InBounds(rs, b) && forall i | 0 <= i <= |rs| :: InBounds(rs[i..], b)
  {
    hide PatchWidth;
  }

  lemma ValidInBounds(image: ArtifactImage, config: Config, bytes: Bytes)
    requires Valid(image, config) && |image.code| <= |bytes|
    ensures InBounds(image.relocations, bytes)
  {
    hide KnownTarget, InFunction, Mentions;
  }

  // ---------- What is patched ----------

  /** Loading succeeds exactly when every relocation can be made; the bytes of the code play no part. */
  lemma {:induction false} RelocatedOkIff(p: Place, rs: seq<Relocation>, bytes: Bytes)
    requires InBounds(rs, bytes)
    ensures Relocated(p, rs, bytes).Ok? <==> forall r | r in rs :: Applies(p, r)
    decreases |rs|
  {
    hide Applies, Patched, Failure;
    if rs != [] {
      assert forall r | r in rs :: r == rs[0] || r in rs[1..];
      assert forall r | r in rs[1..] :: r in rs;
      if Applies(p, rs[0]) { RelocatedOkIff(p, rs[1..], Patched(p, rs[0], bytes)); }
    }
  }

  /** The bytes of the patch of `r` and `width` bytes at `at` have nothing in common. */
  predicate Clear(r: Relocation, at: nat, width: nat) {
    r.offset + PatchWidth(r.kind) <= at || at + width <= r.offset
  }

  /** Bytes that no relocation patches stay as they were. */
  lemma {:induction false} OutsideUntouched(p: Place, rs: seq<Relocation>, bytes: Bytes, at: nat, width: nat)
    requires InBounds(rs, bytes) && Relocated(p, rs, bytes).Ok? && at + width <= |bytes|
    requires forall r | r in rs :: Clear(r, at, width)
    ensures Slice(Relocated(p, rs, bytes).value, at, width) == Slice(bytes, at, width)
    decreases |rs|
  {
    hide Applies, Patched, Failure, Clear, Slice;
    if rs != [] {
      assert rs[0] in rs && forall r | r in rs[1..] :: r in rs;
      OutsideUntouched(p, rs[1..], Patched(p, rs[0], bytes), at, width);
      PatchedElsewhere(p, rs[0], bytes, at, width);
    }
  }

  lemma PatchedElsewhere(p: Place, r: Relocation, bytes: Bytes, at: nat, width: nat)
    requires Applies(p, r) && r.offset + PatchWidth(r.kind) <= |bytes| && at + width <= |bytes| && Clear(r, at, width)
    ensures Slice(Patched(p, r, bytes), at, width) == Slice(bytes, at, width)
  {
    hide Applies, Referred, Patch;
    AppliesRefers(p, r);
    SpliceElsewhere(bytes, r.offset, Patch(r.kind, Referred(p, r).value.0, Referred(p, r).value.1,
                                           Slice(bytes, r.offset, PatchWidth(r.kind))), at, width);
  }

  lemma SpliceElsewhere(bytes: Bytes, from: nat, data: Bytes, at: nat, width: nat)
    requires from + |data| <= |bytes| && at + width <= |bytes| && (from + |data| <= at || at + width <= from)
    ensures Slice(Splice(bytes, from, data), at, width) == Slice(bytes, at, width)
  {
  }

  lemma SpliceHere(bytes: Bytes, from: nat, data: Bytes)
    requires from + |data| <= |bytes|
    ensures Slice(Splice(bytes, from, data), from, |data|) == data
  {
  }

  /** Patching leads to the value, and keeps the opcode of a call. */
  lemma PatchedReaches(p: Place, r: Relocation, bytes: Bytes)
    requires Applies(p, r) && r.offset + PatchWidth(r.kind) <= |bytes|
    ensures Referred(p, r).Ok?
    ensures var window := Slice(Patched(p, r, bytes), r.offset, PatchWidth(r.kind));
            && Reached(r.kind, Referred(p, r).value.1, window) == Referred(p, r).value.0
            && (r.kind == Arm64Call ==>
                  Le(window) / CALL_FIELD == Le(Slice(bytes, r.offset, PatchWidth(r.kind))) / CALL_FIELD)
  {
    hide Applies, Referred, Patch, Reached, Le, Slice, Splice, InRange;
    AppliesRefers(p, r);
    var refers, was := Referred(p, r).value, Slice(bytes, r.offset, PatchWidth(r.kind));
    PatchReaches(r.kind, refers.0, refers.1, was);
    SpliceHere(bytes, r.offset, Patch(r.kind, refers.0, refers.1, was));
  }

  /** In the loaded code every relocation leads to its target, provided no later relocation overlaps it. */
  lemma {:induction false} RelocationsReach(p: Place, rs: seq<Relocation>, bytes: Bytes, i: nat)
    requires InBounds(rs, bytes) && Relocated(p, rs, bytes).Ok? && i < |rs|
    requires forall j | i < j < |rs| :: Clear(rs[j], rs[i].offset, PatchWidth(rs[i].kind))
    ensures Referred(p, rs[i]).Ok? && rs[i].offset + PatchWidth(rs[i].kind) <= |bytes|
    ensures Reached(rs[i].kind, Referred(p, rs[i]).value.1,
                    Slice(Relocated(p, rs, bytes).value, rs[i].offset, PatchWidth(rs[i].kind)))
            == Referred(p, rs[i]).value.0
    decreases |rs|
  {
    hide Applies, Patched, Failure, Clear, Slice, Reached, Referred;
    assert rs[0] in rs && forall r | r in rs[1..] :: r in rs;
    var next := Patched(p, rs[0], bytes);
    if i > 0 {
      RelocationsReach(p, rs[1..], next, i - 1);
    } else {
      PatchedReaches(p, rs[0], bytes);
      forall r | r in rs[1..] ensures Clear(r, rs[0].offset, PatchWidth(rs[0].kind)) {
        var j :| 0 <= j < |rs[1..]| && rs[1..][j] == r;
        assert rs[j + 1] == r;
      }
      OutsideUntouched(p, rs[1..], next, rs[0].offset, PatchWidth(rs[0].kind));
    }
  }

  /** What is reached, in terms of the image and the mapping: a symbol of the image at its code offset in the mapped
      code, or a helper at its address, and the addend. Relative places are measured from their own address. */
  lemma LoadedLeadsTo(p: Place, rs: seq<Relocation>, bytes: Bytes, i: nat)
    requires InBounds(rs, bytes) && Relocated(p, rs, bytes).Ok? && i < |rs|
    requires forall j | i < j < |rs| :: Clear(rs[j], rs[i].offset, PatchWidth(rs[i].kind))
    ensures rs[i].offset + PatchWidth(rs[i].kind) <= |bytes| && p.base + rs[i].offset < 0x1_0000_0000_0000_0000
    ensures var place := p.base + rs[i].offset;
            var window := Slice(Relocated(p, rs, bytes).value, rs[i].offset, PatchWidth(rs[i].kind));
            match rs[i].target
            case Helper(id) =>
              p.helpers(id).Some? && Reached(rs[i].kind, place, window) == p.helpers(id).value + rs[i].addend
            case InternalSymbol(id) =>
              && (exists s :: s in p.image.internalSymbols && s.stableId == id)
              && (DistinctKeys(SymbolId, p.image.internalSymbols) ==>
                    forall s | s in p.image.internalSymbols && s.stableId == id ::
                      Reached(rs[i].kind, place, window) == p.base + s.codeOffset + rs[i].addend)
  {
    hide Applies, Clear, Slice, Reached, Relocated;
    RelocationsReach(p, rs, bytes, i);
    if rs[i].target.InternalSymbol? {
      var id := rs[i].target.id;
      var found := FindSymbol(p.image.internalSymbols, id).value;
      if DistinctKeys(SymbolId, p.image.internalSymbols) {
        forall s | s in p.image.internalSymbols && s.stableId == id ensures s == found {
          OneSymbol(p.image.internalSymbols, s, found);
        }
      }
    }
  }

  lemma OneSymbol(symbols: seq<Symbol>, a: Symbol, b: Symbol)
    requires DistinctKeys(SymbolId, symbols) && a in symbols && b in symbols && a.stableId == b.stableId
    ensures a == b
  {
    var i :| 0 <= i < |symbols| && symbols[i] == a;
    var j :| 0 <= j < |symbols| && symbols[j] == b;
    assert SymbolId(symbols[i]) == SymbolId(symbols[j]);
  }

  /** When a relocation can be made: its target is known, addresses stay below 2^64, and the value fits: any address for
      an absolute one, 32 signed bits of distance for x86, and for an Arm64 call a multiple of four within 128 MiB. */
  lemma AppliesIff(p: Place, r: Relocation, target: int)
    requires match r.target
             case Helper(id) => p.helpers(id) == Some(target)
             case InternalSymbol(id) =>
               && DistinctKeys(SymbolId, p.image.internalSymbols)
               && exists s :: s in p.image.internalSymbols && s.stableId == id && target == p.base + s.codeOffset
    ensures Applies(p, r) <==>
            && target < 0x1_0000_0000_0000_0000 && p.base + r.offset < 0x1_0000_0000_0000_0000
            && var distance := target + r.addend - (p.base + r.offset);
               && (r.kind == Abs64 ==> 0 <= target + r.addend < 0x1_0000_0000_0000_0000)
               && (r.kind == X86PcRel4 || r.kind == X86CallPcRel4 ==> -0x8000_0000 <= distance < 0x8000_0000)
               && (r.kind == Arm64Call ==> -0x800_0000 <= distance < 0x800_0000 && distance % 4 == 0)
  {
    if r.target.InternalSymbol? {
      var id := r.target.id;
      var s :| s in p.image.internalSymbols && s.stableId == id && target == p.base + s.codeOffset;
      var found := FindSymbol(p.image.internalSymbols, id).value;
      OneSymbol(p.image.internalSymbols, s, found);
    }
  }

  /** Otherwise the target is unknown, and that is the error; a known target that does not fit is an invalid
      relocation. */
  lemma FailureIs(p: Place, r: Relocation)
    requires !Applies(p, r)
    ensures r.target.Helper? && p.helpers(r.target.id).None? ==> Failure(p, r) == UnknownHelper(r.target.id)
    ensures r.target.InternalSymbol? && (forall s | s in p.image.internalSymbols :: s.stableId != r.target.id) ==>
              Failure(p, r) == UnknownInternalSymbol(r.target.id)
    ensures (if r.target.Helper? then p.helpers(r.target.id).Some?
             else exists s :: s in p.image.internalSymbols && s.stableId == r.target.id) ==>
              Failure(p, r) == InvalidRelocation
  {
  }

  /** Where a place leads, as congruences on the stored bytes. */
  lemma ReachedIff(kind: RelocationKind, at: U64, bytes: Bytes, value: int)
    requires |bytes| == PatchWidth(kind) && InRange(kind, value, at)
    ensures Reached(kind, at, bytes) == value <==>
            match kind
            case Abs64 => Le(bytes) == value
            case Arm64Call => (4 * Le(bytes) - (value - at)) % 0x1000_0000 == 0
            case _ => (Le(bytes) - (value - at)) % 0x1_0000_0000 == 0
  {
    hide Le;
    LeBounded(bytes);
    Widths();
    if kind == Arm64Call { CallCongruent(Le(bytes), value - at); }
  }

  lemma CallCongruent(word: nat, distance: int)
    requires distance % 4 == 0 && -0x800_0000 <= distance < 0x800_0000
    ensures 4 * SignedCall(word % CALL_FIELD) == distance <==> (4 * word - distance) % 0x1000_0000 == 0
  {
    var low, high := word % CALL_FIELD, word / CALL_FIELD;
    assert word == CALL_FIELD * high + low;
    assert 4 * word - distance == 0x1000_0000 * high + (4 * low - distance);
    ModuloMultiple(4 * low - distance, high);
  }

  lemma ModuloMultiple(x: int, k: int)
    ensures (0x1000_0000 * k + x) % 0x1000_0000 == x % 0x1000_0000
  {
  }

  /** Among relocations at one place, exactly those that refer to the same value as the last of them lead to their
      targets. */
  lemma LastAtPlaceWins(p: Place, rs: seq<Relocation>, bytes: Bytes, i: nat, last: nat)
    requires InBounds(rs, bytes) && Relocated(p, rs, bytes).Ok? && i <= last < |rs|
    requires rs[i].offset == rs[last].offset && rs[i].kind == rs[last].kind
    requires forall j | last < j < |rs| :: Clear(rs[j], rs[i].offset, PatchWidth(rs[i].kind))
    ensures Referred(p, rs[i]).Ok? && Referred(p, rs[last]).Ok? && rs[i].offset + PatchWidth(rs[i].kind) <= |bytes|
    ensures var window := Slice(Relocated(p, rs, bytes).value, rs[i].offset, PatchWidth(rs[i].kind));
            && Reached(rs[i].kind, Referred(p, rs[i]).value.1, window) == Referred(p, rs[last]).value.0
            && (Reached(rs[i].kind, Referred(p, rs[i]).value.1, window) == Referred(p, rs[i]).value.0 <==>
                  Referred(p, rs[last]).value.0 == Referred(p, rs[i]).value.0)
  {
    hide Applies, Clear, Slice, Reached, Relocated;
    RelocationsReach(p, rs, bytes, last);
    RelocatedOkIff(p, rs, bytes);
    AppliesRefers(p, rs[i]);
  }

  /** The proviso is needed and not checked: a second relocation at the same place keeps an image valid, and the
      first one is then lost whenever the two refer to different values. */
  lemma LaterWins(p: Place, r: Relocation, addend: I64, config: Config, bytes: Bytes)
    requires Valid(p.image, config) && p.image.relocations == [r] && config.maxRelocations >= 2
    requires |p.image.code| <= |bytes| && addend != r.addend && Applies(p, r) && Applies(p, r.(addend := addend))
    ensures var both := [r, r.(addend := addend)];
            && Valid(p.image.(relocations := both), config) && InBounds(both, bytes)
            && Relocated(p, both, bytes).Ok? && Referred(p, r).Ok?
            && Reached(r.kind, Referred(p, r).value.1, Slice(Relocated(p, both, bytes).value, r.offset, PatchWidth(r.kind)))
               != Referred(p, r).value.0
  {
    hide Applies, Reached, Slice, Relocated;
    var second := r.(addend := addend);
    var both := [r, second];
    ValidWith(p.image, r, second, config);
    ValidInBounds(p.image.(relocations := both), config, bytes);
    RelocatedOkIff(p, both, bytes);
    RelocationsReach(p, both, bytes, 1);
    AppliesRefers(p, r);
    AppliesRefers(p, second);
  }

  lemma ValidWith(image: ArtifactImage, r: Relocation, second: Relocation, config: Config)
    requires Valid(image, config) && image.relocations == [r] && config.maxRelocations >= 2
    requires second == r.(addend := second.addend)
    ensures Valid(image.(relocations := [r, second]), config)
  {
    hide Mentions;
    assert r in image.relocations;
  }
}
