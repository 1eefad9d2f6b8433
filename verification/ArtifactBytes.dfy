/** Little-endian fields, zero filling and in-place copies. */
module ArtifactBytes {
  import opened ByteStrings

  function Le(s: Bytes): nat {
    if s == [] then 0 else s[0] + 256 * Le(s[1..])
  }

  function LeBytes(value: nat, width: nat): (s: Bytes)
    ensures |s| == width
  {
    if width == 0 then [] else [value % 256] + LeBytes(value / 256, width - 1)
  }

  function Pow256(width: nat): nat {
    if width == 0 then 1 else 256 * Pow256(width - 1)
  }

  lemma {:induction false} LeRoundTrip(value: nat, width: nat)
    requires value < Pow256(width)
    ensures Le(LeBytes(value, width)) == value
    decreases width
  {
    if width != 0 {
      LeRoundTrip(value / 256, width - 1);
      assert LeBytes(value, width)[1..] == LeBytes(value / 256, width - 1);
    }
  }

  lemma {:induction false} LeBack(s: Bytes)
    ensures LeBytes(Le(s), |s|) == s
    decreases |s|
  {
    if s != [] {
      LeBack(s[1..]);
      LowByte(s[0], Le(s[1..]));
      assert s == [s[0]] + s[1..];
    }
  }

  lemma LowByte(low: Byte, high: nat)
    ensures (low + 256 * high) % 256 == low && (low + 256 * high) / 256 == high
  {
  }

  lemma {:induction false} LeBounded(s: Bytes)
    ensures Le(s) < Pow256(|s|)
    decreases |s|
  {
    if s != [] { LeBounded(s[1..]); }
  }

  lemma Widths()
    ensures Pow256(2) == 0x1_0000 && Pow256(4) == 0x1_0000_0000 && Pow256(8) == 0x1_0000_0000_0000_0000
  {
    assert Pow256(1) == 256;
    assert Pow256(2) == 256 * Pow256(1);
    assert Pow256(3) == 256 * Pow256(2);
    assert Pow256(4) == 256 * Pow256(3);
    assert Pow256(5) == 256 * Pow256(4);
    assert Pow256(6) == 256 * Pow256(5);
    assert Pow256(7) == 256 * Pow256(6);
    assert Pow256(8) == 256 * Pow256(7);
  }

  function Zeros(n: nat): (s: Bytes)
    ensures |s| == n
  {
    seq(n, _ => 0)
  }

  function Slice(s: Bytes, at: nat, width: nat): (r: Bytes)
    requires at + width <= |s|
    ensures |r| == width
  {
    s[at..at + width]
  }

  function Splice(s: Bytes, at: nat, data: Bytes): (r: Bytes)
    requires at + |data| <= |s|
    ensures |r| == |s|
  {
    s[..at] + data + s[at + |data|..]
  }

  lemma SpliceMiddle(before: Bytes, middle: Bytes, after: Bytes, data: Bytes)
    requires |middle| == |data|
    ensures Splice(before + middle + after, |before|, data) == before + data + after
  {
    var s := before + middle + after;
    assert s[..|before|] == before;
    assert s[|before| + |data|..] == after;
  }

  lemma SliceMiddle(before: Bytes, middle: Bytes, after: Bytes)
    ensures Slice(before + middle + after, |before|, |middle|) == middle
  {
  }

  lemma SliceOfSlice(s: Bytes, at: nat, width: nat, inner: nat, innerWidth: nat)
    requires at + width <= |s| && inner + innerWidth <= width
    ensures Slice(Slice(s, at, width), inner, innerWidth) == Slice(s, at + inner, innerWidth)
  {
    var outer := s[at..at + width];
    assert forall k | 0 <= k < width :: outer[k] == s[at + k];
    assert outer[inner..inner + innerWidth] == s[at + inner..at + inner + innerWidth];
  }

  lemma ZerosSplit(m: nat, n: nat)
    ensures Zeros(m + n) == Zeros(m) + Zeros(n)
  {
  }

  /** Writing `data` into zeros, `gap` zeros after what is `done`. */
  lemma FillNext(before: Bytes, done: Bytes, gap: nat, data: Bytes, left: nat, after: Bytes)
    ensures Splice(before + done + Zeros(gap + |data| + left) + after, |before| + |done| + gap, data) ==
            before + (done + Zeros(gap) + data) + Zeros(left) + after
  {
    ZerosSplit(gap, |data| + left);
    ZerosSplit(|data|, left);
    var head, tail := before + done + Zeros(gap), Zeros(left) + after;
    assert before + done + Zeros(gap + |data| + left) + after == head + Zeros(|data|) + tail;
    SpliceMiddle(head, Zeros(|data|), tail, data);
    assert before + (done + Zeros(gap) + data) + Zeros(left) + after == head + data + tail;
  }

  method CopyInto(out: array<Byte>, at: nat, data: Bytes)
    requires at + |data| <= out.Length
    modifies out
    ensures out[..] == Splice(old(out[..]), at, data)
  {
    var i := 0;
    while i < |data|
      invariant i <= |data|
      invariant forall k | 0 <= k < out.Length ::
                  out[k] == if at <= k < at + i then data[k - at] else old(out[k])
    {
      out[at + i] := data[i];
      i := i + 1;
    }
  }
}
