/** Extraction of a braced body from source text. */
module BraceMatching {
  import opened Options

  function Delta(c: char): int {
    if c == '{' then 1 else if c == '}' then -1 else 0
  }

  /** Opening braces less closing braces. */
  function Depth(s: string): int {
    if s == [] then 0 else Depth(s[..|s| - 1]) + Delta(s[|s| - 1])
  }

  /** The depth is the number of opening braces less the number of closing braces. */
  lemma {:induction false} DepthCounts(s: string)
    ensures Depth(s) + multiset(s)['}'] == multiset(s)['{']
    decreases |s|
  {
    if s != [] {
      var front := s[..|s| - 1];
      DepthCounts(front);
      assert s == front + [s[|s| - 1]];
    }
  }

  /** At `k` a closing brace brings the depth counted from `opening` back to zero. */
  predicate Closes(source: string, opening: nat, k: nat) {
    opening <= k < |source| && source[k] == '}' && Depth(source[opening..k + 1]) == 0
  }

  ghost predicate FirstClose(source: string, opening: nat, k: nat) {
    Closes(source, opening, k) && forall j: nat | j < k :: !Closes(source, opening, j)
  }

  /** The body up to the first closing brace that returns to depth zero, or nothing when there is none. */
  method BalancedBody(source: string, opening: nat) returns (r: Option<(string, nat)>)
    ensures r.Some? ==>
              && FirstClose(source, opening, r.value.1) && opening < r.value.1
              && r.value.0 == source[opening + 1..r.value.1]
    ensures r.None? ==> forall k: nat :: !Closes(source, opening, k)
  {
    var depth, index := 0, opening;
    while index < |source|
      invariant opening <= index && (index == opening ==> depth == 0)
      invariant index <= |source| ==> depth == Depth(source[opening..index])
      invariant forall k: nat | k < index :: !Closes(source, opening, k)
      decreases |source| - index
    {
      var c := source[index];
      assert source[opening..index + 1][..index - opening] == source[opening..index];
      if c == '{' {
        depth := depth + 1;
      } else if c == '}' {
        depth := depth - 1;
        if depth == 0 {
          return Some((source[opening + 1..index], index));
        }
      }
      index := index + 1;
    }
    r := None;
  }

  // ---------- Balanced text ----------

  ghost predicate Balanced(b: string) {
    Depth(b) == 0 && forall k | 0 <= k <= |b| :: Depth(b[..k]) >= 0
  }

  lemma {:induction false} DepthConcat(a: string, b: string)
    ensures Depth(a + b) == Depth(a) + Depth(b)
    decreases |b|
  {
    if b == [] {
      assert a + b == a;
    } else {
      assert (a + b)[..|a + b| - 1] == a + b[..|b| - 1];
      DepthConcat(a, b[..|b| - 1]);
    }
  }

  lemma DepthOfOne(c: char)
    ensures Depth([c]) == Delta(c)
  {
    assert [c][..0] == [];
  }

  /** Once inside an opening brace the depth can only return to zero on a closing brace. */
  lemma {:induction false} ReturnsOnClosingBrace(source: string, opening: nat, k: nat)
    requires opening < k < |source| && source[opening] == '{'
    requires Depth(source[opening..k + 1]) <= 0
    ensures exists j: nat | opening < j <= k :: Closes(source, opening, j)
    decreases k
  {
    var before := source[opening..k];
    assert source[opening..k + 1][..k - opening] == before;
    if Depth(before) > 0 {
      assert Closes(source, opening, k);
    } else if k == opening + 1 {
      assert before == [source[opening]];
      DepthOfOne(source[opening]);
    } else {
      ReturnsOnClosingBrace(source, opening, k - 1);
    }
  }

  /** From an opening brace extraction fails exactly when the depth never returns to zero. */
  lemma FailsIff(source: string, opening: nat)
    requires opening < |source| && source[opening] == '{'
    ensures (forall k: nat :: !Closes(source, opening, k)) <==>
            forall end | opening + 1 < end <= |source| :: Depth(source[opening..end]) > 0
  {
    if forall k: nat :: !Closes(source, opening, k) {
      forall end | opening + 1 < end <= |source| ensures Depth(source[opening..end]) > 0 {
        if Depth(source[opening..end]) <= 0 { ReturnsOnClosingBrace(source, opening, end - 1); }
      }
    } else {
      var k: nat :| Closes(source, opening, k);
      assert k != opening;
    }
  }

  /** A body taken from an opening brace is balanced. */
  lemma BodyIsBalanced(source: string, opening: nat, k: nat)
    requires opening < |source| && source[opening] == '{' && FirstClose(source, opening, k)
    ensures opening < k && Balanced(source[opening + 1..k])
  {
    hide Depth;
    var body := source[opening + 1..k];
    assert source[opening..k + 1] == "{" + body + "}";
    DepthConcat("{" + body, "}");
    DepthConcat("{", body);
    DepthOfOne('{');
    DepthOfOne('}');
    forall j | 0 <= j <= |body| ensures Depth(body[..j]) >= 0 {
      DepthInside(source, opening, k, j);
      assert body[..j] == source[opening + 1..opening + 1 + j];
    }
  }

  lemma DepthInside(source: string, opening: nat, k: nat, j: nat)
    requires opening < |source| && source[opening] == '{' && FirstClose(source, opening, k) && opening + j < k
    ensures Depth(source[opening + 1..opening + 1 + j]) >= 0
  {
    if j > 0 {
      var inner := source[opening + 1..opening + 1 + j];
      assert source[opening..opening + j + 1] == "{" + inner;
      DepthConcat("{", inner);
      DepthOfOne('{');
      if Depth(inner) < 0 { ReturnsOnClosingBrace(source, opening, opening + j); }
    }
  }

  /** Extraction undoes wrapping: every balanced text put in braces is recovered, wherever it stands. */
  lemma UnwrapsBalanced(prefix: string, b: string, suffix: string, k: nat)
    requires Balanced(b)
    ensures var source := prefix + "{" + b + "}" + suffix;
            FirstClose(source, |prefix|, k) <==> k == |prefix| + 1 + |b|
    ensures (prefix + "{" + b + "}" + suffix)[|prefix| + 1..|prefix| + 1 + |b|] == b
  {
    var source, opening := prefix + "{" + b + "}" + suffix, |prefix|;
    var close := opening + 1 + |b|;
    assert source[opening..close + 1] == "{" + b + "}";
    DepthConcat("{" + b, "}");
    DepthConcat("{", b);
    DepthOfOne('{');
    DepthOfOne('}');
    assert Closes(source, opening, close);
    forall j: nat | j < close ensures !Closes(source, opening, j) {
      if opening <= j {
        assert source[opening..j + 1] == "{" + b[..j - opening];
        DepthConcat("{", b[..j - opening]);
      }
    }
  }
}
