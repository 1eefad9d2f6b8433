/** The records inside the sections of a native artifact: how each is written, and how it is read from the
    bytes that are left. */
module ArtifactRecords {
  import opened Options
  import opened ByteStrings
  import opened ArtifactBytes
  import opened ArtifactWriter

  type U16 = x: nat | x < 0x1_0000
  type U32 = x: nat | x < 0x1_0000_0000
  type U64 = x: nat | x < 0x1_0000_0000_0000_0000
  type I32 = x: int | -0x8000_0000 <= x < 0x8000_0000
  type I64 = x: int | -0x8000_0000_0000_0000 <= x < 0x8000_0000_0000_0000

  predicate Continues(b: Byte) { 0x80 <= b < 0xC0 }

  /** Well-formed UTF-8, as table 3-7 of the Unicode standard lists it. */
  predicate Utf8(s: Bytes) {
    if s == [] then true
    else if s[0] < 0x80 then Utf8(s[1..])
    else if 0xC2 <= s[0] < 0xE0 then |s| >= 2 && Continues(s[1]) && Utf8(s[2..])
    else if 0xE0 <= s[0] < 0xF0 then
      && |s| >= 3 && Continues(s[1]) && Continues(s[2])
      && (s[0] == 0xE0 ==> s[1] >= 0xA0) && (s[0] == 0xED ==> s[1] < 0xA0)
      && Utf8(s[3..])
    else
      && 0xF0 <= s[0] < 0xF5 && |s| >= 4 && Continues(s[1]) && Continues(s[2]) && Continues(s[3])
      && (s[0] == 0xF0 ==> s[1] >= 0x90) && (s[0] == 0xF4 ==> s[1] < 0x90)
      && Utf8(s[4..])
  }

  type Text = s: Bytes | Utf8(s) witness []

  const MAX_TEXT: nat := 0x10_0000
  const MAX_SLOTS: nat := 4096

  datatype Abi = NativeControl

  datatype FunctionImage = FunctionImage(functionId: U32, codeOffset: U64, codeLen: U64, arity: Byte, abi: Abi)

  datatype RelocationKind = Abs64 | X86PcRel4 | X86CallPcRel4 | Arm64Call

  datatype Target = Helper(id: U32) | InternalSymbol(id: U32)

  datatype Relocation = Relocation(offset: U64, kind: RelocationKind, target: Target, addend: I64)

  datatype HelperImport = HelperImport(stableId: U32, name: Text)

  datatype Symbol = Symbol(stableId: U32, codeOffset: U64)

  datatype Continuation = Continuation(functionId: U32, continuationId: U32, codeOffset: U64)

  datatype Trap = Trap(codeOffset: U64, trapCode: U16)

  datatype ExceptionRange = ExceptionRange(startOffset: U64, endOffset: U64, handlerOffset: U64)

  datatype RootMap = RootMap(codeOffset: U64, slots: seq<U32>)

  datatype Resume = Resume(functionId: U32, continuationId: U32, resumeId: I32, codeOffset: U64)

  // ---------- Reading ----------

  /** What a reader makes of the bytes left: a value and the bytes left after it. */
  type Read<T> = Result<(T, Bytes), Error>

  type Reader<!T> = Bytes -> Read<T>

  /** A reader undoes a writer on a value, whatever follows. */
  ghost predicate Undoes<T>(read: Reader<T>, bytes: Bytes, value: T) {
    forall rest :: read(bytes + rest) == Ok((value, rest))
  }

  function Take(n: nat, s: Bytes): Read<Bytes> {
    if n <= |s| then Ok((s[..n], s[n..])) else Err(InvalidSection)
  }

  lemma TakeBack(x: Bytes, rest: Bytes)
    ensures Take(|x|, x + rest) == Ok((x, rest))
  {
  }

  function TakeU8(s: Bytes): Read<Byte> {
    var t :- Take(1, s);
    Ok((t.0[0], t.1))
  }

  function TakeU16(s: Bytes): Read<U16> {
    var t :- Take(2, s);
    LeBounded(t.0);
    Widths();
    Ok((Le(t.0), t.1))
  }

  function TakeU32(s: Bytes): Read<U32> {
    var t :- Take(4, s);
    LeBounded(t.0);
    Widths();
    Ok((Le(t.0), t.1))
  }

  function TakeU64(s: Bytes): Read<U64> {
    var t :- Take(8, s);
    LeBounded(t.0);
    Widths();
    Ok((Le(t.0), t.1))
  }

  /** Two's complement. */
  function Unsigned32(x: I32): U32 { if x < 0 then x + 0x1_0000_0000 else x }

  function Signed32(x: U32): I32 { if x >= 0x8000_0000 then x - 0x1_0000_0000 else x }

  function Unsigned64(x: I64): U64 { if x < 0 then x + 0x1_0000_0000_0000_0000 else x }

  function Signed64(x: U64): I64 { if x >= 0x8000_0000_0000_0000 then x - 0x1_0000_0000_0000_0000 else x }

  function TakeI32(s: Bytes): Read<I32> {
    var t :- TakeU32(s);
    Ok((Signed32(t.0), t.1))
  }

  function TakeI64(s: Bytes): Read<I64> {
    var t :- TakeU64(s);
    Ok((Signed64(t.0), t.1))
  }

  function TakeText(s: Bytes): (r: Read<Text>)
    ensures r.Ok? ==> |r.value.0| <= MAX_TEXT
  {
    var length :- TakeU32(s);
    if length.0 > MAX_TEXT then Err(InvalidSection)
    else
      var t :- Take(length.0, length.1);
      if Utf8(t.0) then Ok((t.0, t.1)) else Err(InvalidSection)
  }

  // ---------- Writing ----------

  function PutU16(x: U16): Bytes { LeBytes(x, 2) }
  function PutU32(x: U32): Bytes { LeBytes(x, 4) }
  function PutU64(x: U64): Bytes { LeBytes(x, 8) }
  function PutI32(x: I32): Bytes { PutU32(Unsigned32(x)) }
  function PutI64(x: I64): Bytes { PutU64(Unsigned64(x)) }

  /** A length as the source stores it, in 32 bits. */
  function Length32(n: nat): U32 { n % 0x1_0000_0000 }

  function PutText(s: Text): Bytes { PutU32(Length32(|s|)) + s }

  lemma U8Back(x: Byte)
    ensures Undoes(TakeU8, [x], x)
  {
    forall rest ensures TakeU8([x] + rest) == Ok((x, rest)) { TakeBack([x], rest); }
  }

  lemma U16Back(x: U16)
    ensures Undoes(TakeU16, PutU16(x), x)
  {
    Widths();
    LeRoundTrip(x, 2);
    forall rest ensures TakeU16(PutU16(x) + rest) == Ok((x, rest)) { TakeBack(PutU16(x), rest); }
  }

  lemma U32Back(x: U32)
    ensures Undoes(TakeU32, PutU32(x), x)
  {
    Widths();
    LeRoundTrip(x, 4);
    forall rest ensures TakeU32(PutU32(x) + rest) == Ok((x, rest)) { TakeBack(PutU32(x), rest); }
  }

  lemma U64Back(x: U64)
    ensures Undoes(TakeU64, PutU64(x), x)
  {
    Widths();
    LeRoundTrip(x, 8);
    forall rest ensures TakeU64(PutU64(x) + rest) == Ok((x, rest)) { TakeBack(PutU64(x), rest); }
  }

  lemma I32Back(x: I32)
    ensures Undoes(TakeI32, PutI32(x), x)
  {
    hide TakeU32, PutU32;
    U32Back(Unsigned32(x));
  }

  lemma I64Back(x: I64)
    ensures Undoes(TakeI64, PutI64(x), x)
  {
    hide TakeU64, PutU64;
    U64Back(Unsigned64(x));
  }

  lemma TextBack(s: Text)
    requires |s| <= MAX_TEXT
    ensures Undoes(TakeText, PutText(s), s)
  {
    hide TakeU32, PutU32, Utf8;
    U32Back(|s|);
    forall rest ensures TakeText(PutText(s) + rest) == Ok((s, rest)) {
      assert PutText(s) + rest == PutU32(|s|) + (s + rest);
      TakeBack(s, rest);
    }
  }

  // ---------- Lists of records ----------

  function Joined<T>(write: T -> Bytes, xs: seq<T>): Bytes {
    if xs == [] then [] else write(xs[0]) + Joined(write, xs[1..])
  }

  function TakeMany<T>(read: Reader<T>, n: nat, s: Bytes): (r: Read<seq<T>>)
    ensures r.Ok? ==> |r.value.0| == n
  {
    if n == 0 then Ok(([], s))
    else
      var first :- read(s);
      var rest :- TakeMany(read, n - 1, first.1);
      Ok(([first.0] + rest.0, rest.1))
  }

  /** As many records as counted, and nothing after them. */
  function ReadRecords<T>(read: Reader<T>, n: nat, s: Bytes): (r: Result<seq<T>, Error>)
    ensures r.Ok? ==> |r.value| == n
  {
    var all :- TakeMany(read, n, s);
    if all.1 == [] then Ok(all.0) else Err(InvalidSection)
  }

  lemma {:induction false} ManyBack<T>(read: Reader<T>, write: T -> Bytes, xs: seq<T>)
    requires forall x | x in xs :: Undoes(read, write(x), x)
    ensures Undoes(s => TakeMany(read, |xs|, s), Joined(write, xs), xs)
    decreases |xs|
  {
    if xs != [] { ManyBack(read, write, xs[1..]); }
    forall rest ensures TakeMany(read, |xs|, Joined(write, xs) + rest) == Ok((xs, rest)) {
      if xs == [] {
        assert [] + rest == rest;
      } else {
        var tail := Joined(write, xs[1..]);
        assert Joined(write, xs) + rest == write(xs[0]) + (tail + rest);
        assert xs == [xs[0]] + xs[1..];
        assert read(write(xs[0]) + (tail + rest)) == Ok((xs[0], tail + rest));
        assert (s => TakeMany(read, |xs[1..]|, s))(tail + rest) == Ok((xs[1..], rest));
      }
    }
  }

  /** The records written are the records read. */
  lemma RecordsBack<T>(read: Reader<T>, write: T -> Bytes, xs: seq<T>)
    requires forall x | x in xs :: Undoes(read, write(x), x)
    ensures ReadRecords(read, |xs|, Joined(write, xs)) == Ok(xs)
  {
    ManyBack(read, write, xs);
    assert Joined(write, xs) + [] == Joined(write, xs);
    assert (s => TakeMany(read, |xs|, s))(Joined(write, xs) + []) == Ok((xs, []));
  }

  /** Writing record after record. */
  method WriteRecords<T>(write: T -> Bytes, xs: seq<T>) returns (out: Bytes)
    ensures out == Joined(write, xs)
  {
    out := [];
    var i := 0;
    while i < |xs|
      invariant i <= |xs| && out + Joined(write, xs[i..]) == Joined(write, xs)
    {
      assert xs[i..][0] == xs[i] && xs[i..][1..] == xs[i + 1..];
      assert out + (write(xs[i]) + Joined(write, xs[i + 1..])) == (out + write(xs[i])) + Joined(write, xs[i + 1..]);
      out := out + write(xs[i]);
      i := i + 1;
    }
    assert xs[i..] == [];
  }

  function Prefixed<T>(front: seq<T>, r: Read<seq<T>>): Read<seq<T>> {
    if r.Ok? then Ok((front + r.value.0, r.value.1)) else r
  }

  /** Reading record after record; the first that cannot be read ends it. */
  method DecodeRecords<T>(read: Reader<T>, n: nat, s: Bytes) returns (r: Result<seq<T>, Error>)
    ensures r == ReadRecords(read, n, s)
  {
    var left, values: seq<T> := s, [];
    PrefixedNothing(TakeMany(read, n, s));
    var i := 0;
    while i < n
      invariant i <= n && TakeMany(read, n, s) == Prefixed(values, TakeMany(read, n - i, left))
    {
      var next :- read(left);
      PrefixedStep(values, next.0, TakeMany(read, n - i - 1, next.1));
      values, left := values + [next.0], next.1;
      i := i + 1;
    }
    assert values + [] == values;
    r := if left == [] then Ok(values) else Err(InvalidSection);
  }

  lemma PrefixedNothing<T>(r: Read<seq<T>>)
    ensures Prefixed([], r) == r
  {
    if r.Ok? { assert [] + r.value.0 == r.value.0; }
  }

  lemma PrefixedStep<T>(front: seq<T>, x: T, rest: Read<seq<T>>)
    ensures Prefixed(front + [x], rest) == Prefixed(front, if rest.Ok? then Ok(([x] + rest.value.0, rest.value.1)) else rest)
  {
    if rest.Ok? { assert front + [x] + rest.value.0 == front + ([x] + rest.value.0); }
  }

  // ---------- Functions ----------

  function PutAbi(abi: Abi): Byte { match abi case NativeControl => 3 }

  function AbiOf(raw: Byte): Result<Abi, Error> { if raw == 3 then Ok(NativeControl) else Err(InvalidHeader) }

  /** The first format repeats the calling convention in every entry. */
  function PutFunction(f: FunctionImage): Bytes {
    PutU32(f.functionId) + PutU64(f.codeOffset) + PutU64(f.codeLen) + [f.arity] + [PutAbi(f.abi)] + Zeros(2)
  }

  function TakeFunction(s: Bytes): Read<FunctionImage> {
    var id :- TakeU32(s);
    var offset :- TakeU64(id.1);
    var length :- TakeU64(offset.1);
    var arity :- TakeU8(length.1);
    var raw :- TakeU8(arity.1);
    var abi :- AbiOf(raw.0);
    var reserved :- Take(2, raw.1);
    Ok((FunctionImage(id.0, offset.0, length.0, arity.0, abi), reserved.1))
  }

  lemma FunctionBack(f: FunctionImage)
    ensures Undoes(TakeFunction, PutFunction(f), f)
  {
    hide TakeU8, TakeU32, TakeU64, PutU32, PutU64, Take;
    U32Back(f.functionId);
    U64Back(f.codeOffset);
    U64Back(f.codeLen);
    U8Back(f.arity);
    U8Back(PutAbi(f.abi));
    forall rest ensures TakeFunction(PutFunction(f) + rest) == Ok((f, rest)) {
      assert PutFunction(f) + rest == PutU32(f.functionId) + (PutU64(f.codeOffset) + (PutU64(f.codeLen)
                                      + ([f.arity] + ([PutAbi(f.abi)] + (Zeros(2) + rest)))));
      TakeBack(Zeros(2), rest);
      assert f.abi == NativeControl;
    }
  }

  /** The second format states it once, before the entries. */
  function PutCompact(f: FunctionImage): Bytes {
    PutU32(f.functionId) + PutU64(f.codeOffset) + PutU64(f.codeLen) + [f.arity]
  }

  function TakeCompact(abi: Abi): Reader<FunctionImage> {
    (s: Bytes) =>
      var id :- TakeU32(s);
      var offset :- TakeU64(id.1);
      var length :- TakeU64(offset.1);
      var arity :- TakeU8(length.1);
      Ok((FunctionImage(id.0, offset.0, length.0, arity.0, abi), arity.1))
  }

  lemma CompactBack(f: FunctionImage)
    ensures Undoes(TakeCompact(f.abi), PutCompact(f), f)
  {
    hide TakeU8, TakeU32, TakeU64, PutU32, PutU64;
    U32Back(f.functionId);
    U64Back(f.codeOffset);
    U64Back(f.codeLen);
    U8Back(f.arity);
    forall rest ensures TakeCompact(f.abi)(PutCompact(f) + rest) == Ok((f, rest)) {
      assert PutCompact(f) + rest == PutU32(f.functionId) + (PutU64(f.codeOffset) + (PutU64(f.codeLen) + ([f.arity] + rest)));
    }
  }

  // ---------- Continuations, helpers, symbols and traps ----------

  function PutContinuation(c: Continuation): Bytes {
    PutU32(c.functionId) + PutU32(c.continuationId) + PutU64(c.codeOffset)
  }

  function TakeContinuation(s: Bytes): Read<Continuation> {
    var f :- TakeU32(s);
    var id :- TakeU32(f.1);
    var offset :- TakeU64(id.1);
    Ok((Continuation(f.0, id.0, offset.0), offset.1))
  }

  lemma ContinuationBack(c: Continuation)
    ensures Undoes(TakeContinuation, PutContinuation(c), c)
  {
    hide TakeU32, TakeU64, PutU32, PutU64;
    U32Back(c.functionId);
    U32Back(c.continuationId);
    U64Back(c.codeOffset);
    forall rest ensures TakeContinuation(PutContinuation(c) + rest) == Ok((c, rest)) {
      assert PutContinuation(c) + rest == PutU32(c.functionId) + (PutU32(c.continuationId) + (PutU64(c.codeOffset) + rest));
    }
  }

  function PutHelper(h: HelperImport): Bytes { PutU32(h.stableId) + PutText(h.name) }

  function TakeHelper(s: Bytes): (r: Read<HelperImport>)
    ensures r.Ok? ==> |r.value.0.name| <= MAX_TEXT
  {
    var id :- TakeU32(s);
    var name :- TakeText(id.1);
    Ok((HelperImport(id.0, name.0), name.1))
  }

  lemma HelperBack(h: HelperImport)
    requires |h.name| <= MAX_TEXT
    ensures Undoes(TakeHelper, PutHelper(h), h)
  {
    hide TakeU32, PutU32, TakeText, PutText;
    U32Back(h.stableId);
    TextBack(h.name);
    forall rest ensures TakeHelper(PutHelper(h) + rest) == Ok((h, rest)) {
      assert PutHelper(h) + rest == PutU32(h.stableId) + (PutText(h.name) + rest);
    }
  }

  function PutSymbol(x: Symbol): Bytes { PutU32(x.stableId) + PutU32(0) + PutU64(x.codeOffset) }

  function TakeSymbol(s: Bytes): Read<Symbol> {
    var id :- TakeU32(s);
    var reserved :- TakeU32(id.1);
    var offset :- TakeU64(reserved.1);
    Ok((Symbol(id.0, offset.0), offset.1))
  }

  lemma SymbolBack(x: Symbol)
    ensures Undoes(TakeSymbol, PutSymbol(x), x)
  {
    hide TakeU32, TakeU64, PutU32, PutU64;
    U32Back(x.stableId);
    U32Back(0);
    U64Back(x.codeOffset);
    forall rest ensures TakeSymbol(PutSymbol(x) + rest) == Ok((x, rest)) {
      assert PutSymbol(x) + rest == PutU32(x.stableId) + (PutU32(0) + (PutU64(x.codeOffset) + rest));
    }
  }

  function PutTrap(t: Trap): Bytes { PutU64(t.codeOffset) + PutU16(t.trapCode) + Zeros(6) }

  function TakeTrap(s: Bytes): Read<Trap> {
    var offset :- TakeU64(s);
    var code :- TakeU16(offset.1);
    var reserved :- Take(6, code.1);
    Ok((Trap(offset.0, code.0), reserved.1))
  }

  lemma TrapBack(t: Trap)
    ensures Undoes(TakeTrap, PutTrap(t), t)
  {
    hide TakeU16, TakeU64, PutU16, PutU64, Take;
    U64Back(t.codeOffset);
    U16Back(t.trapCode);
    forall rest ensures TakeTrap(PutTrap(t) + rest) == Ok((t, rest)) {
      assert PutTrap(t) + rest == PutU64(t.codeOffset) + (PutU16(t.trapCode) + (Zeros(6) + rest));
      TakeBack(Zeros(6), rest);
    }
  }

  // ---------- Relocations ----------

  function PutKind(k: RelocationKind): U16 {
    match k
    case Abs64 => 1
    case X86PcRel4 => 2
    case X86CallPcRel4 => 3
    case Arm64Call => 4
  }

  function KindFrom(raw: U16): Result<RelocationKind, Error> {
    if raw == 1 then Ok(Abs64)
    else if raw == 2 then Ok(X86PcRel4)
    else if raw == 3 then Ok(X86CallPcRel4)
    else if raw == 4 then Ok(Arm64Call)
    else Err(InvalidRelocation)
  }

  function TargetFrom(raw: Byte, id: U32): Result<Target, Error> {
    if raw == 1 then Ok(Helper(id)) else if raw == 2 then Ok(InternalSymbol(id)) else Err(InvalidRelocation)
  }

  function TargetByte(t: Target): Byte { if t.Helper? then 1 else 2 }

  function PutRelocation(r: Relocation): Bytes {
    PutU64(r.offset) + PutU16(PutKind(r.kind)) + [TargetByte(r.target)] + [0] + PutU32(r.target.id) + PutI64(r.addend)
  }

  function TakeRelocation(s: Bytes): Read<Relocation> {
    var offset :- TakeU64(s);
    var raw :- TakeU16(offset.1);
    var kind :- KindFrom(raw.0);
    var tag :- TakeU8(raw.1);
    var reserved :- TakeU8(tag.1);
    var id :- TakeU32(reserved.1);
    var target :- TargetFrom(tag.0, id.0);
    var addend :- TakeI64(id.1);
    Ok((Relocation(offset.0, kind, target, addend.0), addend.1))
  }

  lemma RelocationBack(r: Relocation)
    ensures Undoes(TakeRelocation, PutRelocation(r), r)
  {
    hide TakeU8, TakeU16, TakeU32, TakeU64, TakeI64, PutU16, PutU32, PutU64, PutI64;
    U64Back(r.offset);
    U16Back(PutKind(r.kind));
    U8Back(TargetByte(r.target));
    U8Back(0);
    U32Back(r.target.id);
    I64Back(r.addend);
    forall rest ensures TakeRelocation(PutRelocation(r) + rest) == Ok((r, rest)) {
      assert PutRelocation(r) + rest == PutU64(r.offset) + (PutU16(PutKind(r.kind)) + ([TargetByte(r.target)]
                                        + ([0] + (PutU32(r.target.id) + (PutI64(r.addend) + rest)))));
    }
  }

  // ---------- Exceptions, root maps and resume entries ----------

  function PutException(e: ExceptionRange): Bytes {
    PutU64(e.startOffset) + PutU64(e.endOffset) + PutU64(e.handlerOffset)
  }

  function TakeException(s: Bytes): Read<ExceptionRange> {
    var start :- TakeU64(s);
    var end :- TakeU64(start.1);
    var handler :- TakeU64(end.1);
    Ok((ExceptionRange(start.0, end.0, handler.0), handler.1))
  }

  lemma ExceptionBack(e: ExceptionRange)
    ensures Undoes(TakeException, PutException(e), e)
  {
    hide TakeU64, PutU64;
    U64Back(e.startOffset);
    U64Back(e.endOffset);
    U64Back(e.handlerOffset);
    forall rest ensures TakeException(PutException(e) + rest) == Ok((e, rest)) {
      assert PutException(e) + rest == PutU64(e.startOffset) + (PutU64(e.endOffset) + (PutU64(e.handlerOffset) + rest));
    }
  }

  function PutRootMap(m: RootMap): Bytes {
    PutU64(m.codeOffset) + PutU32(Length32(|m.slots|)) + Joined(PutU32, m.slots)
  }

  function TakeRootMap(s: Bytes): (r: Read<RootMap>)
    ensures r.Ok? ==> |r.value.0.slots| <= MAX_SLOTS
  {
    var offset :- TakeU64(s);
    var count :- TakeU32(offset.1);
    if count.0 > MAX_SLOTS then Err(InvalidSection)
    else
      var slots :- TakeMany(TakeU32, count.0, count.1);
      Ok((RootMap(offset.0, slots.0), slots.1))
  }

  lemma RootMapBack(m: RootMap)
    requires |m.slots| <= MAX_SLOTS
    ensures Undoes(TakeRootMap, PutRootMap(m), m)
  {
    hide TakeU32, TakeU64, PutU32, PutU64, Joined, TakeMany;
    U64Back(m.codeOffset);
    U32Back(|m.slots|);
    forall x | x in m.slots ensures Undoes(TakeU32, PutU32(x), x) { U32Back(x); }
    ManyBack(TakeU32, PutU32, m.slots);
    forall rest ensures TakeRootMap(PutRootMap(m) + rest) == Ok((m, rest)) {
      var slots := Joined(PutU32, m.slots);
      assert PutRootMap(m) + rest == PutU64(m.codeOffset) + (PutU32(|m.slots|) + (slots + rest));
      assert (s => TakeMany(TakeU32, |m.slots|, s))(slots + rest) == Ok((m.slots, rest));
    }
  }

  function PutResume(x: Resume): Bytes {
    PutU32(x.functionId) + PutU32(x.continuationId) + PutI32(x.resumeId) + PutU32(0) + PutU64(x.codeOffset)
  }

  function TakeResume(s: Bytes): Read<Resume> {
    var f :- TakeU32(s);
    var continuation :- TakeU32(f.1);
    var id :- TakeI32(continuation.1);
    var reserved :- TakeU32(id.1);
    var offset :- TakeU64(reserved.1);
    Ok((Resume(f.0, continuation.0, id.0, offset.0), offset.1))
  }

  lemma ResumeBack(x: Resume)
    ensures Undoes(TakeResume, PutResume(x), x)
  {
    hide TakeU32, TakeI32, TakeU64, PutU32, PutI32, PutU64;
    U32Back(x.functionId);
    U32Back(x.continuationId);
    I32Back(x.resumeId);
    U32Back(0);
    U64Back(x.codeOffset);
    forall rest ensures TakeResume(PutResume(x) + rest) == Ok((x, rest)) {
      assert PutResume(x) + rest == PutU32(x.functionId) + (PutU32(x.continuationId) + (PutI32(x.resumeId)
                                    + (PutU32(0) + (PutU64(x.codeOffset) + rest))));
    }
  }
}
