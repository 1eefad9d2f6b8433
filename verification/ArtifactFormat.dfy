/** The format of an artifact byte by byte: where each field stands, how wide it is, and in which order its bytes come. */
module ArtifactFormat {
  import opened Options
  import opened ByteStrings
  import opened ArtifactBytes
  import opened ArtifactWriter
  import opened ArtifactDecoder
  import opened ArtifactRoundTrip
  import opened ArtifactRecords
  import opened ArtifactImages
  import opened ArtifactContents
  import opened ArtifactReport

  // ---------- Little-endian words ----------

  function Word2(b: Bytes, at: nat): nat
    requires at + 2 <= |b|
  {
    b[at] as nat + 0x100 * (b[at + 1] as nat)
  }

  function Word4(b: Bytes, at: nat): nat
    requires at + 4 <= |b|
  {
    Word2(b, at) + 0x1_0000 * Word2(b, at + 2)
  }

  function Word8(b: Bytes, at: nat): nat
    requires at + 8 <= |b|
  {
    Word4(b, at) + 0x1_0000_0000 * Word4(b, at + 4)
  }

  /** Bytes are read with the low one first. */
  lemma LeIsWord(b: Bytes, at: nat)
    ensures at + 2 <= |b| ==> Le(Slice(b, at, 2)) == Word2(b, at)
    ensures at + 4 <= |b| ==> Le(Slice(b, at, 4)) == Word4(b, at)
    ensures at + 8 <= |b| ==> Le(Slice(b, at, 8)) == Word8(b, at)
  {
    if at + 2 <= |b| { Le2(b, at); }
    if at + 4 <= |b| { Le4(b, at); }
    if at + 8 <= |b| { Le8(b, at); }
  }

  lemma LeOne(s: Bytes)
    requires s != []
    ensures Le(s) == s[0] + 256 * Le(s[1..])
  {
  }

  lemma Le2(b: Bytes, at: nat)
    requires at + 2 <= |b|
    ensures Le(Slice(b, at, 2)) == Word2(b, at)
  {
    var s := Slice(b, at, 2);
    LeOne(s);
    LeOne(s[1..]);
    assert s[1..][1..] == [];
  }

  lemma LeTwoMore(s: Bytes)
    requires |s| >= 2
    ensures Le(s) == s[0] + 0x100 * s[1] + 0x1_0000 * Le(s[2..])
  {
    LeOne(s);
    LeOne(s[1..]);
    assert s[1..][1..] == s[2..];
  }

  lemma Le4(b: Bytes, at: nat)
    requires at + 4 <= |b|
    ensures Le(Slice(b, at, 4)) == Word4(b, at)
  {
    var s := Slice(b, at, 4);
    LeTwoMore(s);
    assert s[2..] == Slice(b, at + 2, 2);
    Le2(b, at + 2);
    hide Le;
  }

  lemma Le8(b: Bytes, at: nat)
    requires at + 8 <= |b|
    ensures Le(Slice(b, at, 8)) == Word8(b, at)
  {
    var s := Slice(b, at, 8);
    LeTwoMore(s);
    LeTwoMore(s[2..]);
    assert s[2..][2..] == Slice(b, at + 4, 4);
    Le4(b, at + 4);
    hide Le;
  }

  // ---------- Fields ----------

  lemma Field2(front: Bytes, x: U16, back: Bytes)
    ensures Word2(front + PutU16(x) + back, |front|) == x
  {
    Widths();
    hide Le, LeBytes, Word2;
    LeRoundTrip(x, 2);
    SliceMiddle(front, LeBytes(x, 2), back);
    LeIsWord(front + PutU16(x) + back, |front|);
  }

  lemma Field4(front: Bytes, x: U32, back: Bytes)
    ensures Word4(front + PutU32(x) + back, |front|) == x
  {
    Widths();
    hide Le, LeBytes, Word4;
    LeRoundTrip(x, 4);
    SliceMiddle(front, LeBytes(x, 4), back);
    LeIsWord(front + PutU32(x) + back, |front|);
  }

  lemma Field8(front: Bytes, x: U64, back: Bytes)
    ensures Word8(front + PutU64(x) + back, |front|) == x
  {
    Widths();
    hide Le, LeBytes, Word8;
    LeRoundTrip(x, 8);
    SliceMiddle(front, LeBytes(x, 8), back);
    LeIsWord(front + PutU64(x) + back, |front|);
  }

  /** Signed numbers are stored in two's complement. */
  lemma Signed(x: I32, y: I64)
    ensures (Unsigned32(x) - x) % 0x1_0000_0000 == 0 && (Unsigned64(y) - y) % 0x1_0000_0000_0000_0000 == 0
  {
  }

  // ---------- Records ----------

  /** An entry of the first format, with calling convention 3. */
  lemma FunctionLayout(f: FunctionImage)
    ensures var b := PutFunction(f);
            && |b| == 24 && Word4(b, 0) == f.functionId && Word8(b, 4) == f.codeOffset && Word8(b, 12) == f.codeLen
            && b[20] == f.arity && b[21] == 3
  {
    hide PutU16, PutU32, PutU64, Word2, Word4, Word8;
    Lengths();
    var b := PutFunction(f);
    var x0, x1, x2, x3 := PutU32(f.functionId), PutU64(f.codeOffset), PutU64(f.codeLen), [f.arity];
    var x4, x5 := [PutAbi(f.abi)], Zeros(2);
    Field4([], f.functionId, x1 + x2 + x3 + x4 + x5);
    assert b == [] + x0 + (x1 + x2 + x3 + x4 + x5);
    Field8(x0, f.codeOffset, x2 + x3 + x4 + x5);
    assert b == x0 + x1 + (x2 + x3 + x4 + x5);
    Field8(x0 + x1, f.codeLen, x3 + x4 + x5);
    assert b == (x0 + x1) + x2 + (x3 + x4 + x5);
  }

  /** An entry of the second format. */
  lemma CompactLayout(f: FunctionImage)
    ensures var b := PutCompact(f);
            && |b| == 21 && Word4(b, 0) == f.functionId && Word8(b, 4) == f.codeOffset && Word8(b, 12) == f.codeLen
            && b[20] == f.arity
  {
    hide PutU16, PutU32, PutU64, Word2, Word4, Word8;
    Lengths();
    var b := PutCompact(f);
    var x0, x1, x2, x3 := PutU32(f.functionId), PutU64(f.codeOffset), PutU64(f.codeLen), [f.arity];
    Field4([], f.functionId, x1 + x2 + x3);
    assert b == [] + x0 + (x1 + x2 + x3);
    Field8(x0, f.codeOffset, x2 + x3);
    assert b == x0 + x1 + (x2 + x3);
    Field8(x0 + x1, f.codeLen, x3);
    assert b == (x0 + x1) + x2 + x3;
  }

  lemma ContinuationLayout(c: Continuation)
    ensures var b := PutContinuation(c);
            && |b| == 16 && Word4(b, 0) == c.functionId && Word4(b, 4) == c.continuationId
            && Word8(b, 8) == c.codeOffset
  {
    hide PutU16, PutU32, PutU64, Word2, Word4, Word8;
    Lengths();
    var b := PutContinuation(c);
    var x0, x1, x2 := PutU32(c.functionId), PutU32(c.continuationId), PutU64(c.codeOffset);
    Field4([], c.functionId, x1 + x2);
    assert b == [] + x0 + (x1 + x2);
    Field4(x0, c.continuationId, x2);
    assert b == x0 + x1 + x2;
    Field8(x0 + x1, c.codeOffset, []);
    assert b == (x0 + x1) + x2 + [];
  }

  lemma SymbolLayout(s: Symbol)
    ensures var b := PutSymbol(s);
            && |b| == 16 && Word4(b, 0) == s.stableId && Word4(b, 4) == 0 && Word8(b, 8) == s.codeOffset
  {
    hide PutU16, PutU32, PutU64, Word2, Word4, Word8;
    Lengths();
    var b := PutSymbol(s);
    var x0, x1, x2 := PutU32(s.stableId), PutU32(0), PutU64(s.codeOffset);
    Field4([], s.stableId, x1 + x2);
    assert b == [] + x0 + (x1 + x2);
    Field4(x0, 0, x2);
    assert b == x0 + x1 + x2;
    Field8(x0 + x1, s.codeOffset, []);
    assert b == (x0 + x1) + x2 + [];
  }

  lemma TrapLayout(t: Trap)
    ensures var b := PutTrap(t);
            && |b| == 16 && Word8(b, 0) == t.codeOffset && Word2(b, 8) == t.trapCode
  {
    hide PutU16, PutU32, PutU64, Word2, Word4, Word8;
    Lengths();
    var b := PutTrap(t);
    var x0, x1, x2 := PutU64(t.codeOffset), PutU16(t.trapCode), Zeros(6);
    Field8([], t.codeOffset, x1 + x2);
    assert b == [] + x0 + (x1 + x2);
    Field2(x0, t.trapCode, x2);
    assert b == x0 + x1 + x2;
  }

  lemma ExceptionLayout(e: ExceptionRange)
    ensures var b := PutException(e);
            && |b| == 24 && Word8(b, 0) == e.startOffset && Word8(b, 8) == e.endOffset
            && Word8(b, 16) == e.handlerOffset
  {
    hide PutU16, PutU32, PutU64, Word2, Word4, Word8;
    Lengths();
    var b := PutException(e);
    var x0, x1, x2 := PutU64(e.startOffset), PutU64(e.endOffset), PutU64(e.handlerOffset);
    Field8([], e.startOffset, x1 + x2);
    assert b == [] + x0 + (x1 + x2);
    Field8(x0, e.endOffset, x2);
    assert b == x0 + x1 + x2;
    Field8(x0 + x1, e.handlerOffset, []);
    assert b == (x0 + x1) + x2 + [];
  }

  lemma ResumeLayout(r: Resume)
    ensures var b := PutResume(r);
            && |b| == 24 && Word4(b, 0) == r.functionId && Word4(b, 4) == r.continuationId
            && (Word4(b, 8) - r.resumeId) % 0x1_0000_0000 == 0 && Word4(b, 12) == 0 && Word8(b, 16) == r.codeOffset
  {
    hide PutU16, PutU32, PutU64, Word2, Word4, Word8;
    Lengths();
    var b := PutResume(r);
    var x0, x1, x2, x3 := PutU32(r.functionId), PutU32(r.continuationId), PutU32(Unsigned32(r.resumeId)), PutU32(0);
    var x4 := PutU64(r.codeOffset);
    Field4([], r.functionId, x1 + x2 + x3 + x4);
    assert b == [] + x0 + (x1 + x2 + x3 + x4);
    Field4(x0, r.continuationId, x2 + x3 + x4);
    assert b == x0 + x1 + (x2 + x3 + x4);
    Field4(x0 + x1, Unsigned32(r.resumeId), x3 + x4);
    assert b == (x0 + x1) + x2 + (x3 + x4);
    Field4(x0 + x1 + x2, 0, x4);
    assert b == (x0 + x1 + x2) + x3 + x4;
    Field8(x0 + x1 + x2 + x3, r.codeOffset, []);
    assert b == (x0 + x1 + x2 + x3) + x4 + [];
    Signed(r.resumeId, 0);
  }

  /** Kinds are numbered from one; a helper is target 1 and a symbol target 2. */
  lemma RelocationLayout(r: Relocation)
    ensures var b := PutRelocation(r);
            && |b| == 24 && Word8(b, 0) == r.offset
            && Word2(b, 8) == (match r.kind case Abs64 => 1 case X86PcRel4 => 2 case X86CallPcRel4 => 3 case Arm64Call => 4)
            && b[10] == (match r.target case Helper(_) => 1 case InternalSymbol(_) => 2) && b[11] == 0
            && Word4(b, 12) == r.target.id && (Word8(b, 16) - r.addend) % 0x1_0000_0000_0000_0000 == 0
  {
    hide PutU16, PutU32, PutU64, Word2, Word4, Word8;
    Lengths();
    var b := PutRelocation(r);
    var x0, x1, x2, x3 := PutU64(r.offset), PutU16(PutKind(r.kind)), [TargetByte(r.target)], [0];
    var x4, x5 := PutU32(r.target.id), PutU64(Unsigned64(r.addend));
    Field8([], r.offset, x1 + x2 + x3 + x4 + x5);
    assert b == [] + x0 + (x1 + x2 + x3 + x4 + x5);
    Field2(x0, PutKind(r.kind), x2 + x3 + x4 + x5);
    assert b == x0 + x1 + (x2 + x3 + x4 + x5);
    Field4(x0 + x1 + x2 + x3, r.target.id, x5);
    assert b == (x0 + x1 + x2 + x3) + x4 + x5;
    Field8(x0 + x1 + x2 + x3 + x4, Unsigned64(r.addend), []);
    assert b == (x0 + x1 + x2 + x3 + x4) + x5 + [];
    Signed(0, r.addend);
  }

  lemma NumbersLayout(n: Numbers)
    ensures var b := PutNumbers(n);
            && |b| == 53 && Word8(b, 0) == n.craneliftSettingsHash && Word4(b, 8) == n.regionIrSchemaVersion
            && Word8(b, 12) == n.runtimeAbiHash && Word8(b, 20) == n.helperAbiHash && b[28] == n.pointerWidth
            && Word8(b, 29) == n.cpuFeatureFingerprint && Word8(b, 37) == n.optimizationConfigHash
            && Word8(b, 45) == n.phpSemanticConfigHash
  {
    hide PutU16, PutU32, PutU64, Word2, Word4, Word8;
    Lengths();
    var b := PutNumbers(n);
    var x0, x1, x2, x3 := PutU64(n.craneliftSettingsHash), PutU32(n.regionIrSchemaVersion), PutU64(n.runtimeAbiHash), PutU64(n.helperAbiHash);
    var x4, x5, x6, x7 := [n.pointerWidth], PutU64(n.cpuFeatureFingerprint), PutU64(n.optimizationConfigHash), PutU64(n.phpSemanticConfigHash);
    Field8([], n.craneliftSettingsHash, x1 + x2 + x3 + x4 + x5 + x6 + x7);
    assert b == [] + x0 + (x1 + x2 + x3 + x4 + x5 + x6 + x7);
    Field4(x0, n.regionIrSchemaVersion, x2 + x3 + x4 + x5 + x6 + x7);
    assert b == x0 + x1 + (x2 + x3 + x4 + x5 + x6 + x7);
    Field8(x0 + x1, n.runtimeAbiHash, x3 + x4 + x5 + x6 + x7);
    assert b == (x0 + x1) + x2 + (x3 + x4 + x5 + x6 + x7);
    Field8(x0 + x1 + x2, n.helperAbiHash, x4 + x5 + x6 + x7);
    assert b == (x0 + x1 + x2) + x3 + (x4 + x5 + x6 + x7);
    Field8(x0 + x1 + x2 + x3 + x4, n.cpuFeatureFingerprint, x6 + x7);
    assert b == (x0 + x1 + x2 + x3 + x4) + x5 + (x6 + x7);
    Field8(x0 + x1 + x2 + x3 + x4 + x5, n.optimizationConfigHash, x7);
    assert b == (x0 + x1 + x2 + x3 + x4 + x5) + x6 + x7;
    Field8(x0 + x1 + x2 + x3 + x4 + x5 + x6, n.phpSemanticConfigHash, []);
    assert b == (x0 + x1 + x2 + x3 + x4 + x5 + x6) + x7 + [];
  }

  lemma Lengths()
    ensures forall x: U16 :: |PutU16(x)| == 2
    ensures forall x: U32 :: |PutU32(x)| == 4
    ensures forall x: U64 :: |PutU64(x)| == 8
  {
  }

  /** A text follows its length. */
  lemma TextLayout(s: Text)
    requires |s| < 0x1_0000_0000
    ensures var b := PutText(s); |b| == 4 + |s| && Word4(b, 0) == |s| && b[4..] == s
  {
    hide PutU32, Word4;
    Lengths();
    Field4([], |s|, s);
    assert PutText(s) == [] + PutU32(|s|) + s;
  }

  lemma HelperLayout(h: HelperImport)
    requires |h.name| < 0x1_0000_0000
    ensures var b := PutHelper(h);
            |b| == 8 + |h.name| && Word4(b, 0) == h.stableId && Word4(b, 4) == |h.name| && b[8..] == h.name
  {
    hide PutU32, Word4;
    Lengths();
    var b, id, length := PutHelper(h), PutU32(h.stableId), PutU32(|h.name|);
    Field4([], h.stableId, length + h.name);
    assert b == [] + id + (length + h.name);
    Field4(id, |h.name|, h.name);
    assert b == id + length + h.name;
  }

  /** Records of one width stand one after another. */
  lemma {:induction false} JoinedAt<T>(write: T -> Bytes, xs: seq<T>, width: nat, i: nat)
    requires (forall x | x in xs :: |write(x)| == width) && i < |xs|
    ensures i * width + width <= |Joined(write, xs)| && Slice(Joined(write, xs), i * width, width) == write(xs[i])
    decreases |xs|
  {
    var tail := Joined(write, xs[1..]);
    if i == 0 {
      SliceMiddle([], write(xs[0]), tail);
      assert Joined(write, xs) == [] + write(xs[0]) + tail;
    } else {
      JoinedAt(write, xs[1..], width, i - 1);
      assert i * width == width + (i - 1) * width;
      SuffixSlice(write(xs[0]), tail, (i - 1) * width, width);
    }
  }

  lemma RootMapLayout(m: RootMap, k: nat)
    requires |m.slots| < 0x1_0000_0000 && k < |m.slots|
    ensures var b := PutRootMap(m);
            |b| == 12 + 4 * |m.slots| && Word8(b, 0) == m.codeOffset && Word4(b, 8) == |m.slots|
            && 12 + 4 * k + 4 <= |b| && Word4(b, 12 + 4 * k) == m.slots[k]
  {
    hide PutU32, PutU64, Word4, Word8, Joined, Slice, Le;
    Lengths();
    var b, offset, count, slots := PutRootMap(m), PutU64(m.codeOffset), PutU32(|m.slots|), Joined(PutU32, m.slots);
    SlotsLength(m);
    Field8([], m.codeOffset, count + slots);
    assert b == [] + offset + (count + slots);
    Field4(offset, |m.slots|, slots);
    assert b == offset + count + slots;
    JoinedAt(PutU32, m.slots, 4, k);
    SuffixSlice(offset + count, slots, k * 4, 4);
    LeIsWord(b, 12 + 4 * k);
    Field4([], m.slots[k], []);
    LeIsWord(PutU32(m.slots[k]), 0);
    assert [] + PutU32(m.slots[k]) + [] == PutU32(m.slots[k]);
    WholeSlice(PutU32(m.slots[k]));
  }

  lemma WholeSlice(b: Bytes)
    ensures Slice(b, 0, |b|) == b
  {
  }

  /** Seven texts in this order, and the numbers. */
  lemma IdentityLayout(i: Identity)
    ensures PutIdentity(i) ==
            PutText(i.sourceHash) + (PutText(i.irHash) + (PutText(i.dependencyGraphHash) + (PutText(i.buildId)
            + (PutText(i.craneliftVersion) + (PutText(i.targetTriple) + (PutText(i.optimizationTier)
            + PutNumbers(i.numbers)))))))
  {
    hide PutText, PutNumbers;
    var n, back := Names(i), PutNumbers(i.numbers);
    assert n[0..] == n;
    JoinedThen(PutText, n, 0, back);
    JoinedThen(PutText, n, 1, back);
    JoinedThen(PutText, n, 2, back);
    JoinedThen(PutText, n, 3, back);
    JoinedThen(PutText, n, 4, back);
    JoinedThen(PutText, n, 5, back);
    JoinedThen(PutText, n, 6, back);
    assert n[7..] == [] && Joined(PutText, n[7..]) == [];
    hide Joined;
    assert [] + back == back;
  }

  lemma JoinedThen<T>(write: T -> Bytes, xs: seq<T>, i: nat, back: Bytes)
    requires i < |xs|
    ensures Joined(write, xs[i..]) + back == write(xs[i]) + (Joined(write, xs[i + 1..]) + back)
  {
    assert xs[i..][1..] == xs[i + 1..];
  }

  // ---------- The file ----------

  /** The header of a written file. */
  lemma HeaderLayout(f: Format, s: seq<Section>, digest: Bytes -> Bytes)
    requires (f == PNA1 || f == PNA2) && Sections(s) && 0 < |s| <= 32 && IsDigest(digest)
    requires End(s, |s|) < 0x1_0000_0000_0000_0000
    ensures |f.magic| == 4
    ensures var b := Image(f, s, digest);
            && |b| >= 64 + 32 * |s| && b[..4] == f.magic && Word2(b, 4) == f.version && Word2(b, 6) == 64
            && Word8(b, 8) == |b| && Word4(b, 16) == |s| && Word4(b, 20) == 32
            && (forall k | 56 <= k < 64 :: b[k] == 0)
  {
    hide *;
    FormatsHaveMagic(f);
    FormatNumbers();
    var b, n := Image(f, s, digest), |s|;
    var body, total := Body(s, n), End(s, n);
    IsImage(f, s, digest);
    ImageSize(s);
    FrameParts(f, Planned(s), body, digest);
    var checksum := Checksum(Unsigned(f, Planned(s), body), digest);
    var back := checksum + Zeros(8) + TableOf(Planned(s), n) + body;
    assert b == HeaderFields(f, total, n) + back;
    HeaderSlices(f, total, n, back);
    HeaderValues(f, total, n);
    LeIsWord(b, 4);
    LeIsWord(b, 6);
    LeIsWord(b, 8);
    LeIsWord(b, 16);
    LeIsWord(b, 20);
    FirstFour(b);
    SliceMiddle(HeaderFields(f, total, n) + checksum, Zeros(8), TableOf(Planned(s), n) + body);
    assert b == (HeaderFields(f, total, n) + checksum) + Zeros(8) + (TableOf(Planned(s), n) + body);
    ZerosAt(b, 56, 8);
  }

  lemma FormatNumbers()
    ensures HEADER_LEN == 64 && RECORD_LEN == 32 && MAX_SECTIONS == 32 && USIZE_MAX == 0xFFFF_FFFF_FFFF_FFFF
    ensures PNA1.magic == [0x50, 0x4E, 0x41, 0x31] && PNA1.version == 1
    ensures PNA2.magic == [0x50, 0x4E, 0x41, 0x32] && PNA2.version == 2
    ensures forall n: nat :: TableEnd(n) == 64 + 32 * n
  {
  }

  lemma ImageSize(s: seq<Section>)
    requires Sections(s)
    ensures TableEnd(|s|) + |Body(s, |s|)| == End(s, |s|)
  {
    hide Body, End;
  }

  lemma FirstFour(b: Bytes)
    requires 4 <= |b|
    ensures Slice(b, 0, 4) == b[..4]
  {
  }

  lemma ZerosAt(b: Bytes, at: nat, width: nat)
    requires at + width <= |b| && Slice(b, at, width) == Zeros(width)
    ensures forall k | at <= k < at + width :: b[k] == 0
  {
    forall k | at <= k < at + width ensures b[k] == 0 { assert b[k] == Slice(b, at, width)[k - at]; }
  }

  /** A record of the table and the section it describes: the record gives kind, alignment, offset, length and count, the
      offset is the first multiple of the alignment after what comes before, and the section stands there. */
  lemma RecordLayout(f: Format, s: seq<Section>, digest: Bytes -> Bytes, i: nat)
    requires (f == PNA1 || f == PNA2) && Sections(s) && 0 < |s| <= 32 && IsDigest(digest) && i < |s|
    requires End(s, |s|) < 0x1_0000_0000_0000_0000
    ensures |f.magic| == 4
    ensures 64 + 32 * i + 32 <= |Image(f, s, digest)|
    ensures var b, at := Image(f, s, digest), 64 + 32 * i;
            && Word2(b, at) == s[i].kind && Word4(b, at + 4) == s[i].alignment && Word8(b, at + 8) == Offset(s, i)
            && Word8(b, at + 16) == |s[i].data| && Word4(b, at + 24) == s[i].count
    ensures s[i].alignment > 0 && Offset(s, i) % s[i].alignment == 0
    ensures End(s, i) <= Offset(s, i) < End(s, i) + s[i].alignment && Offset(s, i) + |s[i].data| <= |Image(f, s, digest)|
    ensures Image(f, s, digest)[Offset(s, i)..Offset(s, i) + |s[i].data|] == s[i].data
  {
    hide *;
    FormatsHaveMagic(f);
    FormatNumbers();
    var b, at := Image(f, s, digest), 64 + 32 * i;
    ImageRecords(f, s, digest);
    ImageData(f, s, digest, i);
    IsImage(f, s, digest);
    ImageSize(s);
    FrameSize(f, Planned(s), Body(s, |s|), digest);
    TableEnds(i, |s|);
    RecordFields(b, |s|, i, RecordFor(s, i));
    RecordIs(s, i);
    EndStep(s, i);
    LeIsWord(b, at);
    LeIsWord(b, at + 4);
    LeIsWord(b, at + 8);
    LeIsWord(b, at + 16);
    LeIsWord(b, at + 24);
    IsSlice(b, Offset(s, i), |s[i].data|);
  }

  lemma IsSlice(b: Bytes, at: nat, width: nat)
    requires at + width <= |b|
    ensures Slice(b, at, width) == b[at..at + width]
  {
  }

  lemma RecordFields(b: Bytes, n: nat, i: nat, r: Record)
    requires i < n && TableEnd(n) <= |b| && Records(b, n)[i] == r
    ensures 64 + 32 * i + 32 <= |b|
    ensures Le(Slice(b, 64 + 32 * i, 2)) == r.kind && Le(Slice(b, 64 + 32 * i + 4, 4)) == r.alignment
    ensures Le(Slice(b, 64 + 32 * i + 8, 8)) == r.offset && Le(Slice(b, 64 + 32 * i + 16, 8)) == r.length
    ensures Le(Slice(b, 64 + 32 * i + 24, 4)) == r.count
  {
    hide Le, Slice;
  }

  lemma RecordIs(s: seq<Section>, i: nat)
    requires Sections(s) && i < |s|
    ensures var r := RecordFor(s, i);
            && r.kind == s[i].kind && r.alignment == s[i].alignment && r.offset == Offset(s, i)
            && r.length == |s[i].data| && r.count == s[i].count
    ensures s[i].alignment > 0 && Offset(s, i) % s[i].alignment == 0
  {
    hide PowerOfTwo;
    assert Storable(s[i]);
  }

  /** The checksum is the digest of the whole file with the 32 bytes of the checksum itself read as zeros. */
  lemma ChecksumIs(b: Bytes, digest: Bytes -> Bytes, z: Bytes)
    requires |b| > 56 && |z| == |b| && forall k | 0 <= k < |b| :: z[k] == if 24 <= k < 56 then 0 else b[k]
    ensures Checksum(b, digest) == digest(z)
  {
    assert z == b[..24] + Zeros(32) + b[56..];
  }

  /** An alignment is one of thirteen powers of two. */
  lemma AlignmentIff(a: nat)
    ensures ValidAlignment(a) <==> a in {1, 2, 4, 8, 16, 32, 64, 128, 256, 512, 1024, 2048, 4096}
  {
    PowersUpTo(a, 4096);
  }

  lemma {:induction false} PowersUpTo(a: nat, top: nat)
    requires top in {1, 2, 4, 8, 16, 32, 64, 128, 256, 512, 1024, 2048, 4096}
    ensures 0 < a <= top ==> (PowerOfTwo(a) <==> a in {1, 2, 4, 8, 16, 32, 64, 128, 256, 512, 1024, 2048, 4096})
    decreases top
  {
    if top > 1 && a > 1 {
      PowersUpTo(a / 2, top / 2);
    }
  }

  /** What each section of an artifact holds, by kind, with its alignment and its count. */
  lemma SectionTable(image: ArtifactImage, compact: bool)
    ensures var s := SectionsFor(image, compact);
            && |s| == 13 && (forall i | 0 <= i < 13 :: s[i].kind == i + 1)
            && s[0].alignment == 1 && s[1].alignment == 16 && s[2].alignment == 8 && s[3].alignment == 8
            && s[4].alignment == 8 && s[5].alignment == 8 && s[6].alignment == 4 && s[7].alignment == 8
            && s[8].alignment == 8 && s[9].alignment == 8 && s[10].alignment == 8 && s[11].alignment == 8
            && s[12].alignment == 4
            && s[1].data == image.code && s[2].data == image.readOnlyData && s[12].data == image.signatureMetadata
            && s[0].data == PutIdentity(image.identity) && s[3].data == PutFunctions(image.functions, compact)
            && s[4].data == Joined(PutContinuation, image.continuations)
            && s[5].data == Joined(PutRelocation, image.relocations)
            && s[6].data == Joined(PutHelper, image.helperImports)
            && s[7].data == Joined(PutSymbol, image.internalSymbols) && s[8].data == Joined(PutTrap, image.traps)
            && s[9].data == Joined(PutException, image.exceptionMetadata)
            && s[10].data == Joined(PutRootMap, image.rootMaps) && s[11].data == Joined(PutResume, image.resumeEntries)
            && s[0].count == 1 && s[3].count == |image.functions| % 0x1_0000_0000
            && s[5].count == |image.relocations| % 0x1_0000_0000
            && (s[12].count == 0 <==> image.signatureMetadata == []) && s[12].count <= 1
  {
    hide PutIdentity, PutFunctions, Joined;
  }

  // ---------- What the readers ask of a header ----------

  /** The two formats: "PNA1" with version 1 and "PNA2" with version 2. */
  ghost predicate KnownFormat(b: Bytes)
    requires |b| >= 64
  {
    && b[0] == 'P' as int && b[1] == 'N' as int && b[2] == 'A' as int
    && ((b[3] == '1' as int && Word2(b, 4) == 1) || (b[3] == '2' as int && Word2(b, 4) == 2))
  }

  lemma FormatIff(b: Bytes)
    requires |b| >= 64
    ensures KnownFormat(b) <==>
            Format(Slice(b, 0, 4), Le(Slice(b, 4, 2))) == PNA1 || Format(Slice(b, 0, 4), Le(Slice(b, 4, 2))) == PNA2
  {
    LeIsWord(b, 4);
    hide Le, Word2;
    var m := Slice(b, 0, 4);
    assert m[0] == b[0] && m[1] == b[1] && m[2] == b[2] && m[3] == b[3];
    if KnownFormat(b) {
      assert m == [b[0], b[1], b[2], b[3]];
    }
  }

  /** The native cache takes a header of a known format whose lengths agree with the file, within the limit, with one to
      32 sections whose table fits, and whose checksum is right. */
  lemma HeaderIff(b: Bytes, limit: nat, digest: Bytes -> Bytes)
    ensures CheckHeader(b, limit, digest).Ok? <==>
            && |b| >= 64 && KnownFormat(b) && Word2(b, 6) == 64 && Word8(b, 8) == |b| <= limit
            && 0 < Word4(b, 16) <= 32 && Word4(b, 20) == 32 && 64 + 32 * Word4(b, 16) <= |b|
            && Checksum(b, digest) == b[24..56]
    ensures CheckHeader(b, limit, digest).Ok? ==> CheckHeader(b, limit, digest).value == Word4(b, 16)
    ensures CheckHeader(b, limit, digest) == Err(SizeLimit) <==>
            |b| >= 64 && KnownFormat(b) && Word2(b, 6) == 64 && Word8(b, 8) == |b| > limit
    ensures CheckHeader(b, limit, digest) == Err(ChecksumMismatch) <==>
            && |b| >= 64 && KnownFormat(b) && Word2(b, 6) == 64 && Word8(b, 8) == |b| <= limit
            && 0 < Word4(b, 16) <= 32 && Word4(b, 20) == 32 && Checksum(b, digest) != b[24..56]
  {
    if |b| >= 64 {
      FormatIff(b);
      LeIsWord(b, 6);
      LeIsWord(b, 8);
      LeIsWord(b, 16);
      LeIsWord(b, 20);
      IsSlice(b, 24, 32);
      hide Le, Slice, Word2, Word4, Word8, Checksum, KnownFormat;
    }
  }

  /** The report takes every known format whose lengths agree with the file. */
  lemma LengthsIff(b: Bytes)
    ensures CheckLengths(b).Ok? <==>
            |b| >= 64 && KnownFormat(b) && Word2(b, 6) == 64 && Word4(b, 20) == 32 && Word8(b, 8) == |b|
    ensures CheckLengths(b).Ok? ==> CheckLengths(b).value == Word4(b, 16)
  {
    if |b| >= 64 {
      FormatIff(b);
      LeIsWord(b, 4);
      LeIsWord(b, 6);
      LeIsWord(b, 8);
      LeIsWord(b, 16);
      LeIsWord(b, 20);
      hide Le, Slice, Word2, Word4, Word8, KnownFormat;
    }
  }

  // ---------- Texts ----------

  /** A Unicode scalar value. */
  predicate Scalar(c: nat) { c < 0xD800 || 0xE000 <= c < 0x11_0000 }

  /** The UTF-8 form of a scalar value (section 3 of RFC 3629). */
  function EncodeScalar(c: nat): (b: Bytes)
    requires Scalar(c)
    ensures b != []
  {
    if c < 0x80 then [c]
    else if c < 0x800 then [0xC0 + c / 64, 0x80 + c % 64]
    else if c < 0x1_0000 then [0xE0 + c / 4096, 0x80 + c / 64 % 64, 0x80 + c % 64]
    else [0xF0 + c / 262144, 0x80 + c / 4096 % 64, 0x80 + c / 64 % 64, 0x80 + c % 64]
  }

  predicate Scalars(cs: seq<nat>) { forall i | 0 <= i < |cs| :: Scalar(cs[i]) }

  function EncodeText(cs: seq<nat>): Bytes
    requires Scalars(cs)
  {
    if cs == [] then [] else EncodeScalar(cs[0]) + EncodeText(cs[1..])
  }

  lemma {:induction false} EncodedIsUtf8(cs: seq<nat>)
    requires Scalars(cs)
    ensures Utf8(EncodeText(cs))
    decreases |cs|
  {
    if cs != [] {
      EncodedIsUtf8(cs[1..]);
      ScalarThen(cs[0], EncodeText(cs[1..]));
    }
  }

  lemma ScalarThen(c: nat, rest: Bytes)
    requires Scalar(c)
    ensures Utf8(EncodeScalar(c) + rest) <==> Utf8(rest)
  {
    hide Utf8;
    if c < 0x80 {
      OneThen(c, rest);
    } else if c < 0x800 {
      TwoThen(0xC0 + c / 64, 0x80 + c % 64, rest);
    } else if c < 0x1_0000 {
      ThreeThen(0xE0 + c / 4096, 0x80 + c / 64 % 64, 0x80 + c % 64, rest);
    } else {
      FourThen(0xF0 + c / 262144, 0x80 + c / 4096 % 64, 0x80 + c / 64 % 64, 0x80 + c % 64, rest);
    }
  }

  lemma OneThen(a: Byte, rest: Bytes)
    requires a < 0x80
    ensures Utf8([a] + rest) <==> Utf8(rest)
  {
    assert ([a] + rest)[1..] == rest;
  }

  lemma TwoThen(a: Byte, b: Byte, rest: Bytes)
    requires 0xC2 <= a < 0xE0 && Continues(b)
    ensures Utf8([a, b] + rest) <==> Utf8(rest)
  {
    assert ([a, b] + rest)[2..] == rest;
  }

  lemma ThreeThen(a: Byte, b: Byte, c: Byte, rest: Bytes)
    requires 0xE0 <= a < 0xF0 && Continues(b) && Continues(c)
    requires (a == 0xE0 ==> b >= 0xA0) && (a == 0xED ==> b < 0xA0)
    ensures Utf8([a, b, c] + rest) <==> Utf8(rest)
  {
    assert ([a, b, c] + rest)[3..] == rest;
  }

  lemma FourThen(a: Byte, b: Byte, c: Byte, d: Byte, rest: Bytes)
    requires 0xF0 <= a < 0xF5 && Continues(b) && Continues(c) && Continues(d)
    requires (a == 0xF0 ==> b >= 0x90) && (a == 0xF4 ==> b < 0x90)
    ensures Utf8([a, b, c, d] + rest) <==> Utf8(rest)
  {
    assert ([a, b, c, d] + rest)[4..] == rest;
  }

  /** The scalar value with which a well-formed text begins. */
  lemma FirstScalar(s: Bytes) returns (c: nat)
    requires Utf8(s) && s != []
    ensures Scalar(c) && EncodeScalar(c) <= s && Utf8(s[|EncodeScalar(c)|..])
  {
    if s[0] < 0x80 {
      c := s[0];
    } else if s[0] < 0xE0 {
      c := TwoBytes(s[0], s[1]);
      assert EncodeScalar(c) == s[..2];
    } else if s[0] < 0xF0 {
      c := ThreeBytes(s[0], s[1], s[2]);
      assert EncodeScalar(c) == s[..3];
    } else {
      c := FourBytes(s[0], s[1], s[2], s[3]);
      assert EncodeScalar(c) == s[..4];
    }
  }

  lemma TwoBytes(a: Byte, b: Byte) returns (c: nat)
    requires 0xC2 <= a < 0xE0 && Continues(b)
    ensures 0x80 <= c < 0x800 && 0xC0 + c / 64 == a && 0x80 + c % 64 == b
  {
    var high: int, low: int := a - 0xC0, b - 0x80;
    c := high * 64 + low;
  }

  lemma ThreeBytes(a: Byte, b: Byte, d: Byte) returns (c: nat)
    requires 0xE0 <= a < 0xF0 && Continues(b) && Continues(d)
    requires (a == 0xE0 ==> b >= 0xA0) && (a == 0xED ==> b < 0xA0)
    ensures 0x800 <= c < 0x1_0000 && Scalar(c) && 0xE0 + c / 4096 == a && 0x80 + c / 64 % 64 == b && 0x80 + c % 64 == d
  {
    var high: int, middle: int, low: int := a - 0xE0, b - 0x80, d - 0x80;
    c := high * 4096 + middle * 64 + low;
    assert c / 64 == high * 64 + middle;
  }

  lemma FourBytes(a: Byte, b: Byte, d: Byte, e: Byte) returns (c: nat)
    requires 0xF0 <= a < 0xF5 && Continues(b) && Continues(d) && Continues(e)
    requires (a == 0xF0 ==> b >= 0x90) && (a == 0xF4 ==> b < 0x90)
    ensures 0x1_0000 <= c < 0x11_0000 && 0xF0 + c / 262144 == a && 0x80 + c / 4096 % 64 == b
    ensures 0x80 + c / 64 % 64 == d && 0x80 + c % 64 == e
  {
    var high: int, upper: int, lower: int, low: int := a - 0xF0, b - 0x80, d - 0x80, e - 0x80;
    c := high * 262144 + upper * 4096 + lower * 64 + low;
    assert c / 64 == high * 4096 + upper * 64 + lower;
    assert c / 4096 == high * 64 + upper;
  }

  lemma {:induction false} DecodeText(s: Bytes) returns (cs: seq<nat>)
    requires Utf8(s)
    ensures Scalars(cs) && EncodeText(cs) == s
    decreases |s|
  {
    hide Utf8, EncodeScalar;
    if s == [] {
      cs := [];
    } else {
      var c := FirstScalar(s);
      var b := EncodeScalar(c);
      var rest := DecodeText(s[|b|..]);
      cs := [c] + rest;
      assert cs[1..] == rest && s == b + s[|b|..];
    }
  }

  /** Exactly the texts made of scalar values are accepted as UTF-8. */
  lemma Utf8Iff(s: Bytes)
    ensures Utf8(s) <==> exists cs: seq<nat> :: Scalars(cs) && EncodeText(cs) == s
  {
    if Utf8(s) {
      var cs := DecodeText(s);
      assert Scalars(cs) && EncodeText(cs) == s;
    }
    if cs: seq<nat> :| Scalars(cs) && EncodeText(cs) == s { EncodedIsUtf8(cs); }
  }
}
