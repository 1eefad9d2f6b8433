/** Greedy line removal from a PHP fixture while the differential failure persists. */
module Minimizer {
  import opened RealArithmetic

  // ---------- Text and lines ----------

  /** The characters that end a line for `splitlines`. */
  predicate IsBreak(c: char) {
    c in {'\n', '\r', '\U{0B}', '\U{0C}', '\U{1C}', '\U{1D}', '\U{1E}', '\U{85}', '\U{2028}', '\U{2029}'}
  }

  /** The characters that `strip` removes. */
  predicate IsSpace(c: char) {
    || IsBreak(c)
    || c in {'\t', '\U{1F}', ' ', '\U{A0}', '\U{1680}', '\U{202F}', '\U{205F}', '\U{3000}'}
    || '\U{2000}' <= c <= '\U{200A}'
  }

  /** `not text.strip()`. */
  predicate IsBlank(text: string) {
    forall c | c in text :: IsSpace(c)
  }

  /** Length of the first line of a nonempty text, with its ending; "\r\n" is one ending. */
  function FirstLineLength(text: string): (n: nat)
    requires text != ""
    ensures 1 <= n <= |text|
  {
    if text[0] == '\r' && |text| > 1 && text[1] == '\n' then 2
    else if IsBreak(text[0]) || |text| == 1 then 1
    else 1 + FirstLineLength(text[1..])
  }

  /** `text.splitlines(keepends=True)`. */
  function SplitLines(text: string): (lines: seq<string>)
    ensures forall line | line in lines :: line != ""
    decreases |text|
  {
    if text == "" then []
    else
      var n := FirstLineLength(text);
      [text[..n]] + SplitLines(text[n..])
  }

  /** `"".join(lines)`. */
  function Join(lines: seq<string>): string {
    if lines == [] then "" else lines[0] + Join(lines[1..])
  }

  lemma {:induction false} JoinSplit(text: string)
    ensures Join(SplitLines(text)) == text
    decreases |text|
  {
    if text != "" {
      var n := FirstLineLength(text);
      JoinSplit(text[n..]);
      assert SplitLines(text)[1..] == SplitLines(text[n..]);
      assert text == text[..n] + text[n..];
    }
  }

  // ---------- The oracle ----------

  /** What the minimizer compares against: the signature of a text (empty when the two engines agree or
      one of them did not complete), the signature of the input, and whether it must be kept exactly. */
  datatype Oracle = Oracle(signature: string -> seq<string>, base: seq<string>, keepSame: bool)

  predicate PreservesDiff(o: Oracle, text: string) {
    o.signature(text) != [] && (o.keepSame ==> o.signature(text) == o.base)
  }

  /** The test of a candidate; only texts that are not blank reach the engines. */
  predicate Accepts(o: Oracle, lines: seq<string>) {
    !IsBlank(Join(lines)) && PreservesDiff(o, Join(lines))
  }

  /** Python's `lines[:index] + lines[index + chunk:]`. */
  function Without(lines: seq<string>, index: nat, chunk: nat): (r: seq<string>)
    requires index <= |lines|
  {
    lines[..index] + (if index + chunk <= |lines| then lines[index + chunk..] else [])
  }

  /** Whether the engines run for a candidate. */
  function Cost(lines: seq<string>): nat {
    if IsBlank(Join(lines)) then 0 else 1
  }

  // ---------- The search as functions: lines kept and engine runs made ----------

  datatype Outcome = Outcome(lines: seq<string>, runs: nat)

  /** One pass with a fixed chunk size, from `index` on. */
  function Sweep(o: Oracle, lines: seq<string>, chunk: nat, index: nat): (r: Outcome)
    requires chunk > 0
    ensures |r.lines| <= |lines|
    decreases |lines|, if index < |lines| then |lines| - index else 0
  {
    if index >= |lines| then Outcome(lines, 0)
    else
      var candidate := Without(lines, index, chunk);
      var rest :=
        if Accepts(o, candidate) then Sweep(o, candidate, chunk, index)
        else Sweep(o, lines, chunk, index + chunk);
      rest.(runs := Cost(candidate) + rest.runs)
  }

  function Max(a: nat, b: nat): nat { if a < b then b else a }
  function Min(a: nat, b: nat): nat { if a < b then a else b }

  /** The passes of one round, with the chunk size `chunk` and then smaller ones. */
  function Passes(o: Oracle, lines: seq<string>, chunk: nat): (r: Outcome)
    ensures |r.lines| <= |lines|
    decreases |lines|, chunk
  {
    if chunk == 0 then Outcome(lines, 0)
    else
      var pass := Sweep(o, lines, chunk, 0);
      var rest :=
        if |pass.lines| < |lines| then Passes(o, pass.lines, Max(1, Min(chunk, |pass.lines| / 2)))
        else Passes(o, lines, chunk / 2);
      rest.(runs := pass.runs + rest.runs)
  }

  /** Rounds until one of them removes nothing. */
  function Rounds(o: Oracle, lines: seq<string>): (r: Outcome)
    ensures |r.lines| <= |lines|
    decreases |lines|
  {
    var round := Passes(o, lines, Max(1, |lines| / 2));
    if |round.lines| < |lines| then
      var rest := Rounds(o, round.lines);
      rest.(runs := round.runs + rest.runs)
    else round
  }

  /** The minimized text. */
  function Minimized(o: Oracle, source: string): string {
    if SplitLines(source) == [] then source else Join(Rounds(o, SplitLines(source)).lines)
  }

  // ---------- The loops ----------

  /** The three nested loops; `runs` counts the engine runs. */
  method MinimizeLines(o: Oracle, source: string) returns (minimized: string, ghost runs: nat)
    ensures minimized == Minimized(o, source)
    ensures runs == if SplitLines(source) == [] then 0 else Rounds(o, SplitLines(source)).runs
  {
    var lines := SplitLines(source);
    runs := 0;
    if lines == [] { return source, 0; }
    ghost var goal := Rounds(o, lines);
    var changed := true;
    while changed
      invariant if changed then Continues(goal, Rounds(o, lines), runs) else Continues(goal, Outcome(lines, 0), runs)
      decreases |lines|, changed
    {
      ghost var before, spent := lines, runs;
      lines, changed, runs := MinimizeRound(o, lines, runs);
      assert Continues(Passes(o, before, Max(1, |before| / 2)), Outcome(lines, 0), runs - spent);
    }
    minimized := Join(lines);
  }

  /** `rest` is what is left of `goal` after `runs` engine runs. */
  ghost predicate Continues(goal: Outcome, rest: Outcome, runs: int) {
    goal.lines == rest.lines && goal.runs == runs + rest.runs
  }

  /** One round: passes with halving chunk sizes. */
  method MinimizeRound(o: Oracle, lines0: seq<string>, ghost runs0: nat)
    returns (lines: seq<string>, changed: bool, ghost runs: nat)
    ensures runs >= runs0
    ensures Continues(Passes(o, lines0, Max(1, |lines0| / 2)), Outcome(lines, 0), runs - runs0)
    ensures if changed then |lines| < |lines0| else lines == lines0
  {
    lines, changed, runs := lines0, false, runs0;
    var chunk := Max(1, |lines| / 2);
    while chunk >= 1
      invariant runs >= runs0
      invariant Continues(Passes(o, lines0, Max(1, |lines0| / 2)), Passes(o, lines, chunk), runs - runs0)
      invariant if changed then |lines| < |lines0| else lines == lines0
      decreases |lines|, chunk
    {
      var removed;
      ghost var before := lines;
      lines, removed, runs := MinimizePass(o, lines, chunk, runs);
      if removed {
        changed := true;
        chunk := Max(1, Min(chunk, |lines| / 2));
      } else {
        chunk := chunk / 2;
      }
    }
  }

  /** One pass: candidates that drop `chunk` lines, from the front. */
  method MinimizePass(o: Oracle, lines0: seq<string>, chunk: nat, ghost runs0: nat)
    returns (lines: seq<string>, removed: bool, ghost runs: nat)
    requires chunk > 0
    ensures runs >= runs0
    ensures Continues(Sweep(o, lines0, chunk, 0), Outcome(lines, 0), runs - runs0)
    ensures if removed then |lines| < |lines0| else lines == lines0
  {
    lines, removed, runs := lines0, false, runs0;
    var index := 0;
    while index < |lines|
      invariant runs >= runs0
      invariant Continues(Sweep(o, lines0, chunk, 0), Sweep(o, lines, chunk, index), runs - runs0)
      invariant if removed then |lines| < |lines0| else lines == lines0
      decreases |lines|, |lines| - index
    {
      var candidate := Without(lines, index, chunk);
      runs := runs + Cost(candidate);
      if Accepts(o, candidate) {
        lines := candidate;
        removed := true;
      } else {
        index := index + chunk;
      }
    }
  }

  // ---------- What is kept: an in-order selection of the lines ----------

  /** `a` is obtained from `b` by deleting lines; `f[i]` is the place in `b` of line `i` of `a`. */
  ghost predicate Selects(f: seq<nat>, a: seq<string>, b: seq<string>) {
    && |f| == |a|
    && (forall i, j | 0 <= i < j < |f| :: f[i] < f[j])
    && (forall i | 0 <= i < |f| :: f[i] < |b| && a[i] == b[f[i]])
  }

  ghost predicate Subsequence(a: seq<string>, b: seq<string>) {
    exists f :: Selects(f, a, b)
  }

  lemma SubsequenceSelf(a: seq<string>)
    ensures Subsequence(a, a)
  {
    assert Selects(seq(|a|, i => i), a, a);
  }

  lemma SubsequenceTransitive(a: seq<string>, b: seq<string>, c: seq<string>)
    requires Subsequence(a, b) && Subsequence(b, c)
    ensures Subsequence(a, c)
  {
    var f :| Selects(f, a, b);
    var h :| Selects(h, b, c);
    var fh := seq(|f|, i requires 0 <= i < |f| => h[f[i]]);
    assert Selects(fh, a, c);
  }

  lemma WithoutSelects(lines: seq<string>, index: nat, chunk: nat)
    requires index <= |lines|
    ensures Subsequence(Without(lines, index, chunk), lines)
  {
    var r := Without(lines, index, chunk);
    var f := seq(|r|, i requires 0 <= i < |r| => if i < index then i else i + chunk);
    assert Selects(f, r, lines);
  }

  /** Either nothing was removed, or the lines kept were accepted by the oracle. */
  ghost predicate Keeps(o: Oracle, before: seq<string>, after: seq<string>) {
    Subsequence(after, before) && (after == before || Accepts(o, after))
  }

  lemma KeepsTransitive(o: Oracle, a: seq<string>, b: seq<string>, c: seq<string>)
    requires Keeps(o, a, b) && Keeps(o, b, c)
    ensures Keeps(o, a, c)
  {
    SubsequenceTransitive(c, b, a);
  }

  lemma {:induction false} SweepKeeps(o: Oracle, lines: seq<string>, chunk: nat, index: nat)
    requires chunk > 0
    ensures Keeps(o, lines, Sweep(o, lines, chunk, index).lines)
    decreases |lines|, if index < |lines| then |lines| - index else 0
  {
    SubsequenceSelf(lines);
    if index < |lines| {
      var candidate := Without(lines, index, chunk);
      if Accepts(o, candidate) {
        WithoutSelects(lines, index, chunk);
        SweepKeeps(o, candidate, chunk, index);
        KeepsTransitive(o, lines, candidate, Sweep(o, candidate, chunk, index).lines);
      } else {
        SweepKeeps(o, lines, chunk, index + chunk);
      }
    }
  }

  lemma {:induction false} PassesKeep(o: Oracle, lines: seq<string>, chunk: nat)
    ensures Keeps(o, lines, Passes(o, lines, chunk).lines)
    decreases |lines|, chunk
  {
    SubsequenceSelf(lines);
    if chunk > 0 {
      var pass := Sweep(o, lines, chunk, 0);
      SweepKeeps(o, lines, chunk, 0);
      if |pass.lines| < |lines| {
        PassesKeep(o, pass.lines, Max(1, Min(chunk, |pass.lines| / 2)));
        KeepsTransitive(o, lines, pass.lines, Passes(o, lines, chunk).lines);
      } else {
        PassesKeep(o, lines, chunk / 2);
      }
    }
  }

  /** The result is the input, or a selection of its lines that the oracle accepted. */
  lemma {:induction false} RoundsKeep(o: Oracle, lines: seq<string>)
    ensures Keeps(o, lines, Rounds(o, lines).lines)
    decreases |lines|
  {
    var round := Passes(o, lines, Max(1, |lines| / 2));
    PassesKeep(o, lines, Max(1, |lines| / 2));
    if |round.lines| < |lines| {
      RoundsKeep(o, round.lines);
      KeepsTransitive(o, lines, round.lines, Rounds(o, lines).lines);
    }
  }

  // ---------- Minimality ----------

  /** No aligned block of `chunk` lines can be dropped. */
  ghost predicate NoChunkRemovable(o: Oracle, lines: seq<string>, chunk: nat)
    requires chunk > 0
  {
    forall i | 0 <= i < |lines| && i % chunk == 0 :: !Accepts(o, Without(lines, i, chunk))
  }

  /** The sizes tried in a round that removes nothing: `top`, `top / 2`, ..., 1. */
  predicate InHalvings(size: nat, top: nat) {
    top > 0 && (size == top || InHalvings(size, top / 2))
  }

  /** No chunk of any size of the round can be dropped. */
  ghost predicate Minimal(o: Oracle, lines: seq<string>) {
    forall size: nat | size > 0 && InHalvings(size, Max(1, |lines| / 2)) :: NoChunkRemovable(o, lines, size)
  }

  lemma MultipleBounds(c: int, k: int)
    requires c > 0
    ensures k >= 1 ==> c * k >= c
    ensures k <= 0 ==> c * k <= 0
  {
  }

  lemma NextMultiple(i: nat, j: nat, c: nat)
    requires c > 0 && i % c == 0 && j % c == 0 && i < j
    ensures i + c <= j
  {
    var k := j / c - i / c;
    assert c * k == j - i;
    MultipleBounds(c, k);
  }

  lemma StepMultiple(i: nat, c: nat)
    requires c > 0 && i % c == 0
    ensures (i + c) % c == 0
  {
    var k := (i + c) / c - i / c - 1;
    assert c * k == -((i + c) % c);
    MultipleBounds(c, k);
    MultipleBounds(c, -k);
  }

  /** A pass removes nothing exactly when every aligned candidate is rejected. */
  lemma {:induction false} SweepUnchanged(o: Oracle, lines: seq<string>, chunk: nat, index: nat)
    requires chunk > 0 && index % chunk == 0
    ensures |Sweep(o, lines, chunk, index).lines| == |lines|
      <==> forall i | index <= i < |lines| && i % chunk == 0 :: !Accepts(o, Without(lines, i, chunk))
    ensures |Sweep(o, lines, chunk, index).lines| == |lines| ==> Sweep(o, lines, chunk, index).lines == lines
    decreases |lines|, if index < |lines| then |lines| - index else 0
  {
    if index < |lines| {
      var candidate := Without(lines, index, chunk);
      if !Accepts(o, candidate) {
        StepMultiple(index, chunk);
        SweepUnchanged(o, lines, chunk, index + chunk);
        forall i | index < i < |lines| && i % chunk == 0 ensures index + chunk <= i {
          NextMultiple(index, i, chunk);
        }
      }
    }
  }

  lemma {:induction false} PassesUnchanged(o: Oracle, lines: seq<string>, chunk: nat)
    ensures |Passes(o, lines, chunk).lines| == |lines|
      <==> forall size: nat | size > 0 && InHalvings(size, chunk) :: NoChunkRemovable(o, lines, size)
    ensures |Passes(o, lines, chunk).lines| == |lines| ==> Passes(o, lines, chunk).lines == lines
    decreases chunk
  {
    if chunk > 0 {
      SweepUnchanged(o, lines, chunk, 0);
      assert |Sweep(o, lines, chunk, 0).lines| == |lines| <==> NoChunkRemovable(o, lines, chunk);
      PassesUnchanged(o, lines, chunk / 2);
      assert InHalvings(chunk, chunk);
    }
  }

  /** A run leaves the lines alone exactly when they are minimal. */
  lemma UnchangedIffMinimal(o: Oracle, lines: seq<string>)
    ensures Rounds(o, lines).lines == lines <==> Minimal(o, lines)
  {
    PassesUnchanged(o, lines, Max(1, |lines| / 2));
  }

  /** Every run ends with minimal lines. */
  lemma {:induction false} RoundsMinimal(o: Oracle, lines: seq<string>)
    ensures Minimal(o, Rounds(o, lines).lines)
    decreases |lines|
  {
    var round := Passes(o, lines, Max(1, |lines| / 2));
    PassesUnchanged(o, lines, Max(1, |lines| / 2));
    if |round.lines| < |lines| {
      RoundsMinimal(o, round.lines);
    }
  }

  lemma {:induction false} OneInHalvings(top: nat)
    requires top > 0
    ensures InHalvings(1, top)
  {
    if top > 1 { OneInHalvings(top / 2); }
  }

  /** In particular no single line can be dropped from the result. */
  lemma NoLineRemovable(o: Oracle, lines: seq<string>, i: nat)
    requires Minimal(o, lines) && i < |lines|
    ensures !Accepts(o, lines[..i] + lines[i + 1..])
  {
    OneInHalvings(Max(1, |lines| / 2));
    assert NoChunkRemovable(o, lines, 1);
    assert Without(lines, i, 1) == lines[..i] + lines[i + 1..];
    assert i % 1 == 0;
  }

  // ---------- Running again on the text that was written ----------

  /** A line as `splitlines` makes it. */
  predicate IsLine(line: string) {
    line != "" && FirstLineLength(line) == |line|
  }

  predicate Terminated(line: string) {
    line != "" && IsBreak(line[|line| - 1])
  }

  /** A list of lines of one text: all but the last are terminated. */
  ghost predicate LinesOfText(lines: seq<string>) {
    && (forall i | 0 <= i < |lines| :: IsLine(lines[i]))
    && (forall i | 0 <= i < |lines| - 1 :: Terminated(lines[i]))
  }

  /** A bare carriage return is followed by a line feed: joined, they become one ending. */
  predicate Seam(first: string, second: string) {
    first != "" && second != "" && first[|first| - 1] == '\r' && second[0] == '\n'
  }

  ghost predicate HasSeam(lines: seq<string>) {
    exists i :: 0 <= i < |lines| - 1 && Seam(lines[i], lines[i + 1])
  }

  /** The first line of a text is a line, terminated if anything follows it. */
  lemma {:induction false} FirstLineOfText(text: string)
    requires text != ""
    ensures IsLine(text[..FirstLineLength(text)])
    ensures FirstLineLength(text) < |text| ==> Terminated(text[..FirstLineLength(text)])
    decreases |text|
  {
    var n := FirstLineLength(text);
    var line := text[..n];
    if !(text[0] == '\r' && |text| > 1 && text[1] == '\n') && !IsBreak(text[0]) && |text| > 1 {
      FirstLineOfText(text[1..]);
      assert line[1..] == text[1..][..n - 1];
      assert line[|line| - 1] == line[1..][|line| - 2];
    }
  }

  lemma {:induction false} SplitIsLines(text: string)
    ensures LinesOfText(SplitLines(text))
    decreases |text|
  {
    if text != "" {
      var n := FirstLineLength(text);
      FirstLineOfText(text);
      SplitIsLines(text[n..]);
    }
  }

  lemma SelectionIsLines(a: seq<string>, b: seq<string>)
    requires LinesOfText(b) && Subsequence(a, b)
    ensures LinesOfText(a)
  {
    var f :| Selects(f, a, b);
    forall i | 0 <= i < |a| - 1 ensures Terminated(a[i]) {
      assert f[i] < f[i + 1];
    }
  }

  /** A terminated line is found again at the front of a longer text unless a seam follows. */
  lemma {:induction false} FirstLineAgain(line: string, rest: string)
    requires IsLine(line) && (rest == "" || Terminated(line))
    ensures FirstLineLength(line + rest) == if Seam(line, rest) then |line| + 1 else |line|
    decreases |line|
  {
    var text := line + rest;
    if rest == "" {
      assert text == line;
    } else if |line| == 1 {
      assert text[1] == rest[0];
    } else if !(line[0] == '\r' && line[1] == '\n') {
      assert text[1..] == line[1..] + rest;
      FirstLineAgain(line[1..], rest);
    }
  }

  lemma JoinNonempty(lines: seq<string>)
    requires forall i | 0 <= i < |lines| :: lines[i] != ""
    ensures lines != [] ==> Join(lines) != "" && Join(lines)[0] == lines[0][0]
  {
  }

  /** Splitting the joined text gives the lines back exactly when no seam arises. */
  lemma {:induction false} SplitJoin(lines: seq<string>)
    requires LinesOfText(lines)
    ensures SplitLines(Join(lines)) == lines <==> !HasSeam(lines)
    decreases |lines|
  {
    if lines != [] {
      var rest := lines[1..];
      SplitJoin(rest);
      JoinNonempty(rest);
      if rest == [] {
        assert Join(lines) == lines[0] + "";
      }
      FirstLineAgain(lines[0], Join(rest));
      SeamSplit(lines);
      if !(rest != [] && Seam(lines[0], rest[0])) {
        SplitFront(lines[0], Join(rest));
        assert lines == [lines[0]] + rest;
      } else {
        assert SplitLines(Join(lines))[0] == Join(lines)[..|lines[0]| + 1];
      }
    }
  }

  lemma SplitFront(line: string, rest: string)
    requires line != "" && FirstLineLength(line + rest) == |line|
    ensures SplitLines(line + rest) == [line] + SplitLines(rest)
  {
    assert (line + rest)[..|line|] == line && (line + rest)[|line|..] == rest;
  }

  lemma SeamSplit(lines: seq<string>)
    requires lines != []
    ensures HasSeam(lines) <==> (|lines| > 1 && Seam(lines[0], lines[1])) || HasSeam(lines[1..])
  {
    if i :| 0 <= i < |lines| - 1 && Seam(lines[i], lines[i + 1]) {
      if i > 0 {
        assert Seam(lines[1..][i - 1], lines[1..][i - 1 + 1]);
      }
    }
    if i :| 0 <= i < |lines[1..]| - 1 && Seam(lines[1..][i], lines[1..][i + 1]) {
      assert Seam(lines[i + 1], lines[i + 1 + 1]);
    }
  }

  lemma {:induction false} JoinHasLine(lines: seq<string>, i: nat)
    requires i < |lines|
    ensures forall c | c in lines[i] :: c in Join(lines)
    decreases |lines|
  {
    if i > 0 {
      JoinHasLine(lines[1..], i - 1);
      assert lines[i] == lines[1..][i - 1];
    }
  }

  lemma NoReturnNoSeam(text: string, lines: seq<string>)
    requires '\r' !in text && Subsequence(lines, SplitLines(text))
    ensures !HasSeam(lines)
  {
    var f :| Selects(f, lines, SplitLines(text));
    forall i | 0 <= i < |lines| ensures '\r' !in lines[i] {
      JoinHasLine(SplitLines(text), f[i]);
      JoinSplit(text);
    }
  }

  /** A second run on the written text sees the lines that the first run kept, exactly when no seam arose. */
  lemma SecondRunSeesSameLines(o: Oracle, source: string)
    ensures var kept := Rounds(o, SplitLines(source)).lines;
            SplitLines(Join(kept)) == kept <==> !HasSeam(kept)
  {
    SplitIsLines(source);
    RoundsKeep(o, SplitLines(source));
    SelectionIsLines(Rounds(o, SplitLines(source)).lines, SplitLines(source));
    SplitJoin(Rounds(o, SplitLines(source)).lines);
  }

  /** Minimizing is idempotent on texts without carriage returns, which is what reading with universal
      newlines yields. */
  lemma MinimizedTwice(o: Oracle, source: string)
    requires '\r' !in source
    ensures Minimized(o, Minimized(o, source)) == Minimized(o, source)
  {
    var lines := SplitLines(source);
    if lines != [] {
      var kept := Rounds(o, lines).lines;
      RoundsKeep(o, lines);
      NoReturnNoSeam(source, kept);
      SecondRunSeesSameLines(o, source);
      RoundsMinimal(o, lines);
      UnchangedIffMinimal(o, kept);
    }
  }

  /** Reading a file as text turns every carriage return, alone or before a line feed, into a line feed. */
  function ReadText(raw: string): (text: string)
    ensures '\r' !in text
    decreases |raw|
  {
    if raw == "" then ""
    else if raw[0] != '\r' then [raw[0]] + ReadText(raw[1..])
    else "\n" + ReadText(if |raw| > 1 && raw[1] == '\n' then raw[2..] else raw[1..])
  }

  /** The carriage returns before line feeds left out. */
  function WithoutPairs(raw: string): string {
    if raw == "" then ""
    else if raw[0] == '\r' && |raw| > 1 && raw[1] == '\n' then WithoutPairs(raw[1..])
    else [raw[0]] + WithoutPairs(raw[1..])
  }

  /** Reading leaves out carriage returns before line feeds and turns the others into line feeds. */
  lemma {:induction false} ReadTextIs(raw: string)
    ensures |ReadText(raw)| == |WithoutPairs(raw)|
    ensures forall i | 0 <= i < |ReadText(raw)| ::
              ReadText(raw)[i] == if WithoutPairs(raw)[i] == '\r' then '\n' else WithoutPairs(raw)[i]
    decreases |raw|
  {
    if raw != "" {
      if raw[0] == '\r' && |raw| > 1 && raw[1] == '\n' {
        ReadTextIs(raw[2..]);
        assert raw[1..][1..] == raw[2..];
        assert WithoutPairs(raw) == "\n" + WithoutPairs(raw[2..]);
      } else {
        ReadTextIs(raw[1..]);
      }
    }
  }

  lemma {:induction false} ReadKeepsText(text: string)
    requires '\r' !in text
    ensures ReadText(text) == text
    decreases |text|
  {
    if text != "" {
      assert forall c | c in text[1..] :: c in text;
      ReadKeepsText(text[1..]);
    }
  }

  lemma {:induction false} JoinedFromLines(lines: seq<string>, c: char)
    requires c in Join(lines)
    ensures exists i :: 0 <= i < |lines| && c in lines[i]
    decreases |lines|
  {
    if c in lines[0] {
      assert 0 < |lines|;
    } else {
      JoinedFromLines(lines[1..], c);
      var i :| 0 <= i < |lines[1..]| && c in lines[1..][i];
      assert c in lines[i + 1];
    }
  }

  lemma MinimizedHasNoReturn(o: Oracle, source: string)
    requires '\r' !in source
    ensures '\r' !in Minimized(o, source)
  {
    var lines := SplitLines(source);
    if lines != [] && '\r' in Minimized(o, source) {
      var kept := Rounds(o, lines).lines;
      RoundsKeep(o, lines);
      JoinedFromLines(kept, '\r');
      KeptCharacter(source, kept, '\r');
    }
  }

  lemma KeptCharacter(source: string, kept: seq<string>, c: char)
    requires Subsequence(kept, SplitLines(source)) && exists i :: 0 <= i < |kept| && c in kept[i]
    ensures c in source
  {
    var i :| 0 <= i < |kept| && c in kept[i];
    var f :| Selects(f, kept, SplitLines(source));
    JoinHasLine(SplitLines(source), f[i]);
    JoinSplit(source);
  }

  /** The oracle of a run of the script: the difference to keep is that of its own input. */
  function OracleFor(signature: string -> seq<string>, text: string, keepSame: bool): Oracle {
    Oracle(signature, signature(text), keepSame)
  }

  /** Oracles that ask for the same differences accept the same candidates, so they agree on what is minimal. */
  lemma SameMinimal(o: Oracle, o': Oracle, lines: seq<string>)
    requires o.signature == o'.signature && o.keepSame == o'.keepSame && (o.keepSame ==> o.base == o'.base)
    requires Minimal(o, lines)
    ensures Minimal(o', lines)
  {
    forall size: nat | size > 0 && InHalvings(size, Max(1, |lines| / 2)) ensures NoChunkRemovable(o', lines, size) {
      assert NoChunkRemovable(o, lines, size);
      assert forall kept :: Accepts(o, kept) == Accepts(o', kept);
    }
  }

  /** A run that must keep the difference of its input leaves a text with that difference. */
  lemma SameBase(o: Oracle, source: string)
    requires o.base == o.signature(source) && o.keepSame
    ensures o.signature(Minimized(o, source)) == o.base
  {
    RoundsKeep(o, SplitLines(source));
    JoinSplit(source);
  }

  /** Running the script again on the file it wrote changes nothing, whatever the first file was; each run
      compares against the difference of its own input. */
  lemma SecondRunUnchanged(signature: string -> seq<string>, keepSame: bool, raw: string)
    ensures var text := ReadText(raw);
            var once := Minimized(OracleFor(signature, text, keepSame), text);
            ReadText(once) == once && Minimized(OracleFor(signature, once, keepSame), once) == once
  {
    var text := ReadText(raw);
    var o := OracleFor(signature, text, keepSame);
    var once := Minimized(o, text);
    var o' := OracleFor(signature, once, keepSame);
    MinimizedHasNoReturn(o, text);
    ReadKeepsText(once);
    if SplitLines(text) != [] {
      var kept := Rounds(o, SplitLines(text)).lines;
      RoundsKeep(o, SplitLines(text));
      NoReturnNoSeam(text, kept);
      SecondRunSeesSameLines(o, text);
      RoundsMinimal(o, SplitLines(text));
      if keepSame { SameBase(o, text); }
      SameMinimal(o, o', kept);
      UnchangedIffMinimal(o', kept);
    }
  }

  // ---------- The promise of the script, in terms of signatures ----------

  /** The minimized text is the input, or it is not blank and the engines still differ on it, in the same way when that
      is asked for. */
  lemma FailureKept(o: Oracle, source: string)
    ensures var text := Minimized(o, source);
            text == source || (!IsBlank(text) && o.signature(text) != [] && (o.keepSame ==> o.signature(text) == o.base))
    ensures o.signature(source) != [] ==> o.signature(Minimized(o, source)) != []
  {
    RoundsKeep(o, SplitLines(source));
    JoinSplit(source);
  }

  /** From the result no line can be dropped: what is left is blank, or the engines agree on it, or they differ in
      another way than asked for. */
  lemma NoLineDroppable(o: Oracle, source: string, i: nat)
    requires i < |Rounds(o, SplitLines(source)).lines|
    ensures var kept := Rounds(o, SplitLines(source)).lines;
            var rest := Join(kept[..i] + kept[i + 1..]);
            || IsBlank(rest) || o.signature(rest) == [] || (o.keepSame && o.signature(rest) != o.base)
  {
    RoundsMinimal(o, SplitLines(source));
    NoLineRemovable(o, Rounds(o, SplitLines(source)).lines, i);
  }

  /** Blank texts consist of the white space of Unicode and the four separators of ASCII. */
  lemma BlankIff(text: string)
    ensures IsBlank(text) <==>
            forall c | c in text ::
              || c as int in {0x09, 0x0A, 0x0B, 0x0C, 0x0D, 0x1C, 0x1D, 0x1E, 0x1F, 0x20, 0x85, 0xA0, 0x1680}
              || 0x2000 <= c as int <= 0x200A || c as int in {0x2028, 0x2029, 0x202F, 0x205F, 0x3000}
  {
    forall c: char ensures IsSpace(c) <==>
        || c as int in {0x09, 0x0A, 0x0B, 0x0C, 0x0D, 0x1C, 0x1D, 0x1E, 0x1F, 0x20, 0x85, 0xA0, 0x1680}
        || 0x2000 <= c as int <= 0x200A || c as int in {0x2028, 0x2029, 0x202F, 0x205F, 0x3000}
    {
      SpaceIff(c);
    }
  }

  lemma SpaceIff(c: char)
    ensures IsSpace(c) <==>
            || c as int in {0x09, 0x0A, 0x0B, 0x0C, 0x0D, 0x1C, 0x1D, 0x1E, 0x1F, 0x20, 0x85, 0xA0, 0x1680}
            || 0x2000 <= c as int <= 0x200A || c as int in {0x2028, 0x2029, 0x202F, 0x205F, 0x3000}
  {
  }

  lemma BreakIff(c: char)
    ensures IsBreak(c) <==> c as int in {0x0A, 0x0B, 0x0C, 0x0D, 0x1C, 0x1D, 0x1E, 0x85, 0x2028, 0x2029}
  {
  }

  /** A line ends at its first line break, a carriage return and a line feed together being one. */
  lemma {:induction false} IsLineIff(line: string)
    ensures IsLine(line) <==>
            && line != ""
            && forall i | 0 <= i < |line| - 1 && IsBreak(line[i]) ::
                 i == |line| - 2 && line[i] == '\r' && line[i + 1] == '\n'
    decreases |line|
  {
    if |line| > 1 {
      IsLineIff(line[1..]);
      if !IsBreak(line[0]) {
        assert IsLine(line) <==> IsLine(line[1..]);
        assert forall i | 0 <= i < |line[1..]| :: line[1..][i] == line[i + 1];
        if forall i | 0 <= i < |line| - 1 && IsBreak(line[i]) :: i == |line| - 2 && line[i] == '\r' && line[i + 1] == '\n' {
          forall i | 0 <= i < |line[1..]| - 1 && IsBreak(line[1..][i])
            ensures i == |line[1..]| - 2 && line[1..][i] == '\r' && line[1..][i + 1] == '\n'
          {
            assert IsBreak(line[i + 1]);
          }
        }
        if IsLine(line) {
          forall i | 0 <= i < |line| - 1 && IsBreak(line[i]) ensures i == |line| - 2 && line[i] == '\r' && line[i + 1] == '\n' {
            assert i > 0 && IsBreak(line[1..][i - 1]);
          }
        }
      }
    }
  }

  /** The lines of a text are the only way to cut it into lines that all but the last end with a break, and a carriage
      return is not cut from its line feed. */
  lemma LinesUnique(text: string, lines: seq<string>)
    requires Join(lines) == text && LinesOfText(lines) && !HasSeam(lines)
    ensures lines == SplitLines(text)
  {
    SplitJoin(lines);
  }

  // ---------- How many engine runs ----------

  /** The number of rejected candidates of a pass over `length` lines. */
  function Steps(length: int, chunk: nat): nat
    requires chunk > 0
    decreases if length > 0 then length else 0
  {
    if length <= 0 then 0 else 1 + Steps(length - chunk, chunk)
  }

  lemma {:induction false} StepsMonotone(a: int, b: int, chunk: nat)
    requires chunk > 0 && a <= b
    ensures Steps(a, chunk) <= Steps(b, chunk)
    decreases if b > 0 then b else 0
  {
    if a > 0 { StepsMonotone(a - chunk, b - chunk, chunk); }
  }

  lemma {:induction false} StepsBound(length: int, chunk: nat)
    requires chunk > 0 && length > 0
    ensures Steps(length, chunk) * chunk < length + chunk
    decreases length
  {
    if length > chunk {
      StepsBound(length - chunk, chunk);
      assert Steps(length, chunk) * chunk == Steps(length - chunk, chunk) * chunk + chunk;
    } else {
      assert Steps(length, chunk) == 1;
    }
  }

  lemma {:induction false} StepsAtMostLength(length: int, chunk: nat)
    requires chunk > 0 && length >= 0
    ensures Steps(length, chunk) <= length
    decreases length
  {
    if length > chunk { StepsAtMostLength(length - chunk, chunk); }
  }

  lemma {:induction false} SweepRuns(o: Oracle, lines: seq<string>, chunk: nat, index: nat)
    requires chunk > 0
    ensures Sweep(o, lines, chunk, index).runs
         <= Steps(|lines| - index, chunk) + |lines| - |Sweep(o, lines, chunk, index).lines|
    decreases |lines|, if index < |lines| then |lines| - index else 0
  {
    if index < |lines| {
      var candidate := Without(lines, index, chunk);
      if Accepts(o, candidate) {
        SweepRuns(o, candidate, chunk, index);
        StepsMonotone(|candidate| - index, |lines| - index, chunk);
      } else {
        SweepRuns(o, lines, chunk, index + chunk);
      }
    }
  }

  /** Budget of a round on at most `n` lines that starts with the chunk size `chunk` and removes nothing. */
  function Budget(n: nat, chunk: nat): real {
    if chunk == 0 then 0.0 else 2.0 * n as real - n as real / chunk as real + chunk as real
  }

  lemma QuotientAtLeast(n: real, c: real, q: real)
    requires c > 0.0 && q * c <= n
    ensures q <= n / c
  {
    if n / c < q { TimesStrict(n / c, q, c); }
  }

  lemma QuotientMonotone(n: real, a: real, b: real)
    requires n >= 0.0 && 0.0 < a <= b
    ensures n / b <= n / a
  {
    var q := n / b;
    assert q >= 0.0 && q * b == n;
    assert q * a <= q * b;
    QuotientAtLeast(n, a, q);
  }

  lemma BudgetMonotone(n: nat, c: nat, d: nat)
    requires 0 < c <= d
    ensures Budget(n, c) <= Budget(n, d)
  {
    QuotientMonotone(n as real, c as real, d as real);
  }

  /** Halving the chunk size releases enough budget for the pass that failed. */
  lemma BudgetHalves(n: nat, c: nat)
    requires c > 0
    ensures n as real / c as real + 1.0 + Budget(n, c / 2) <= Budget(n, c)
  {
    if c > 1 { HalfAtLeastTwice(n as real, (c / 2) as real, c as real); }
  }

  lemma HalfAtLeastTwice(n: real, half: real, c: real)
    requires n >= 0.0 && 0.0 < half && 2.0 * half <= c
    ensures 2.0 * (n / c) <= n / half
  {
    var q := n / c;
    assert q >= 0.0 && q * c == n;
    assert (2.0 * q) * half == (2.0 * half) * q;
    TimesMonotone(2.0 * half, c, q);
    QuotientAtLeast(n, half, 2.0 * q);
  }

  lemma StepsWithinBudget(m: nat, n: nat, c: nat)
    requires c > 0 && m <= n
    ensures Steps(m, c) as real <= n as real / c as real + 1.0
  {
    var t := if m > 0 then Steps(m, c) - 1 else 0;
    if m > 0 {
      StepsBound(m, c);
      assert Steps(m, c) * c == t * c + c;
    }
    assert t * c <= n;
    hide Steps;
    RealTimes(t, c);
    QuotientAtLeast(n as real, c as real, t as real);
  }

  lemma RealTimes(t: nat, c: nat)
    ensures (t * c) as real == t as real * c as real
  {
  }

  /** What `removed` removed lines pay for: n + 1 runs each. */
  function Paid(n: nat, removed: nat): nat {
    if removed == 0 then 0 else n + 1 + Paid(n, removed - 1)
  }

  lemma {:induction false} PaidAdds(n: nat, a: nat, b: nat)
    ensures Paid(n, a + b) == Paid(n, a) + Paid(n, b)
    decreases a
  {
    if a > 0 { PaidAdds(n, a - 1, b); }
  }

  lemma {:induction false} PaidAtLeast(n: nat, removed: nat)
    requires removed >= 1
    ensures n + removed <= Paid(n, removed)
    decreases removed
  {
    if removed > 1 { PaidAtLeast(n, removed - 1); }
  }

  predicate WithinBudget(runs: nat, n: nat, chunk: nat, removed: nat) {
    runs as real <= Budget(n, chunk) + Paid(n, removed) as real
  }

  /** A pass that removes `now` lines is paid for by them. */
  lemma RemovingPassFits(n: nat, chunk: nat, next: nat, now: nat, later: nat, passRuns: nat, restRuns: nat)
    requires 0 < next <= chunk && now >= 1 && passRuns <= n + now && WithinBudget(restRuns, n, next, later)
    ensures WithinBudget(passRuns + restRuns, n, chunk, now + later)
  {
    BudgetMonotone(n, next, chunk);
    PaidAtLeast(n, now);
    PaidAdds(n, now, later);
  }

  /** A pass that removes nothing is paid for by halving the chunk size. */
  lemma FailedPassFits(m: nat, n: nat, chunk: nat, later: nat, passRuns: nat, restRuns: nat)
    requires 0 < chunk && m <= n && passRuns <= Steps(m, chunk) && WithinBudget(restRuns, n, chunk / 2, later)
    ensures WithinBudget(passRuns + restRuns, n, chunk, later)
  {
    BudgetHalves(n, chunk);
    StepsWithinBudget(m, n, chunk);
  }

  lemma {:induction false} PassesRuns(o: Oracle, lines: seq<string>, chunk: nat, n: nat)
    requires |lines| <= n
    ensures WithinBudget(Passes(o, lines, chunk).runs, n, chunk, |lines| - |Passes(o, lines, chunk).lines|)
    decreases |lines|, chunk
  {
    hide Sweep, Without, Accepts, Cost;
    if chunk > 0 {
      var pass := Sweep(o, lines, chunk, 0);
      SweepRuns(o, lines, chunk, 0);
      if |pass.lines| < |lines| {
        var next := Max(1, Min(chunk, |pass.lines| / 2));
        var rest := Passes(o, pass.lines, next);
        PassesRuns(o, pass.lines, next, n);
        StepsAtMostLength(|lines|, chunk);
        RemovingPassFits(n, chunk, next, |lines| - |pass.lines|, |pass.lines| - |rest.lines|, pass.runs, rest.runs);
        assert Passes(o, lines, chunk) == rest.(runs := pass.runs + rest.runs);
      } else {
        var rest := Passes(o, lines, chunk / 2);
        PassesRuns(o, lines, chunk / 2, n);
        FailedPassFits(|lines|, n, chunk, |lines| - |rest.lines|, pass.runs, rest.runs);
        assert Passes(o, lines, chunk) == rest.(runs := pass.runs + rest.runs);
      }
    }
  }

  lemma BudgetOfRound(n: nat, m: nat)
    requires 1 <= m <= n
    ensures Budget(n, Max(1, m / 2)) <= (3 * n - 1) as real
  {
    var c := Max(1, m / 2);
    assert c <= n;
    QuotientMonotone(n as real, c as real, n as real);
    assert n as real / n as real == 1.0;
  }

  lemma RoundRuns(o: Oracle, lines: seq<string>, n: nat)
    requires 1 <= |lines| <= n
    ensures var round := Passes(o, lines, Max(1, |lines| / 2));
            round.runs <= 3 * n - 1 + Paid(n, |lines| - |round.lines|)
  {
    PassesRuns(o, lines, Max(1, |lines| / 2), n);
    BudgetOfRound(n, |lines|);
  }

  /** Every round but the last removes a line; each round costs `3 n - 1` runs besides what is paid. */
  function RoundsCost(n: nat, rounds: nat): nat
    requires n > 0
  {
    if rounds == 0 then 0 else 3 * n - 1 + RoundsCost(n, rounds - 1)
  }

  lemma {:induction false} RoundsCostMonotone(n: nat, a: nat, b: nat)
    requires n > 0 && a <= b
    ensures RoundsCost(n, a) <= RoundsCost(n, b)
    decreases b
  {
    if a < b { RoundsCostMonotone(n, a, b - 1); }
  }

  predicate RunsBounded(runs: nat, n: nat, removed: nat)
    requires n > 0
  {
    runs <= RoundsCost(n, removed + 1) + Paid(n, removed)
  }

  lemma RoundFits(n: nat, now: nat, later: nat, roundRuns: nat, restRuns: nat)
    requires n > 0 && now >= 1 && roundRuns <= 3 * n - 1 + Paid(n, now) && RunsBounded(restRuns, n, later)
    ensures RunsBounded(roundRuns + restRuns, n, now + later)
  {
    PaidAdds(n, now, later);
    RoundsCostMonotone(n, later + 2, now + later + 1);
  }

  lemma LastRoundFits(n: nat, roundRuns: nat)
    requires n > 0 && roundRuns <= 3 * n - 1 + Paid(n, 0)
    ensures RunsBounded(roundRuns, n, 0)
  {
    assert RoundsCost(n, 1) == 3 * n - 1 + RoundsCost(n, 0);
  }

  lemma {:induction false} RoundsRuns(o: Oracle, lines: seq<string>, n: nat)
    requires 1 <= |lines| <= n && Rounds(o, lines).lines != []
    ensures RunsBounded(Rounds(o, lines).runs, n, |lines| - |Rounds(o, lines).lines|)
    decreases |lines|
  {
    hide Passes, RunsBounded;
    var round := Passes(o, lines, Max(1, |lines| / 2));
    RoundRuns(o, lines, n);
    if |round.lines| < |lines| {
      var rest := Rounds(o, round.lines);
      RoundsRuns(o, round.lines, n);
      RoundFits(n, |lines| - |round.lines|, |round.lines| - |rest.lines|, round.runs, rest.runs);
      assert Rounds(o, lines) == rest.(runs := round.runs + rest.runs);
    } else {
      LastRoundFits(n, round.runs);
      assert Rounds(o, lines) == round;
    }
  }

  lemma {:induction false} CostProducts(n: nat, k: nat)
    requires n > 0
    ensures RoundsCost(n, k) == k * (3 * n - 1) && Paid(n, k) == k * (n + 1)
    decreases k
  {
    if k > 0 {
      CostProducts(n, k - 1);
      assert k * (3 * n - 1) == (k - 1) * (3 * n - 1) + (3 * n - 1);
      assert k * (n + 1) == (k - 1) * (n + 1) + (n + 1);
    }
  }

  lemma {:induction false} PaidMonotone(n: nat, a: nat, b: nat)
    requires a <= b
    ensures Paid(n, a) <= Paid(n, b)
    decreases b
  {
    if a < b { PaidMonotone(n, a, b - 1); }
  }

  lemma TotalRuns(n: nat, removed: nat)
    requires 1 <= n && removed < n
    ensures forall runs: nat | RunsBounded(runs, n, removed) :: runs <= 4 * n * n
  {
    hide RoundsCost, Paid;
    RoundsCostMonotone(n, removed + 1, n);
    PaidMonotone(n, removed, n - 1);
    CostProducts(n, n);
    CostProducts(n, n - 1);
    TotalProduct(n);
  }

  lemma TotalProduct(n: nat)
    requires n >= 1
    ensures n * (3 * n - 1) + (n - 1) * (n + 1) <= 4 * n * n
  {
    assert n * (3 * n - 1) == 3 * n * n - n;
    assert (n - 1) * (n + 1) == n * n - 1;
  }

  lemma KeptNotEmpty(o: Oracle, lines: seq<string>)
    requires lines != []
    ensures Rounds(o, lines).lines != []
  {
    RoundsKeep(o, lines);
    assert !Accepts(o, []);
  }

  /** The engines are run at most 4 n^2 times for n lines, whatever the oracle answers. */
  lemma QuadraticRuns(o: Oracle, lines: seq<string>)
    requires lines != []
    ensures Rounds(o, lines).runs <= 4 * |lines| * |lines|
  {
    KeptNotEmpty(o, lines);
    RoundsRuns(o, lines, |lines|);
    TotalRuns(|lines|, |lines| - |Rounds(o, lines).lines|);
  }
}
