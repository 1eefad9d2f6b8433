/** First-match classification of sampled stacks by a rule list. */
module StackTaxonomy {
  import opened Options

  /** A regular expression is known by what it finds. */
  type Pattern = string -> bool

  datatype Frame = Frame(moduleName: Option<string>, symbol: Option<string>, source: Option<string>)

  datatype Stack = Stack(threadName: Option<string>, frames: seq<Frame>, weight: nat, folded: string)

  datatype Rule = Rule(
    id: string, category: string, target: string, state: Option<string>,
    modulePattern: Option<Pattern>, symbolPattern: Option<Pattern>, sourcePattern: Option<Pattern>)

  datatype Taxonomy = Taxonomy(
    workerThread: string, categories: seq<string>, rules: seq<Rule>,
    phrustModule: Pattern, phrustOwnerSymbol: Pattern, genericRustSymbol: Pattern, idleSymbol: Pattern)

  // ---------- Validation ----------

  /** What loading a taxonomy checks. */
  ghost predicate Validated(t: Taxonomy) {
    && t.categories != []
    && (forall i, j | 0 <= i < j < |t.rules| :: t.rules[i].id != t.rules[j].id)
    && (forall r | r in t.rules :: r.category in t.categories)
    && (forall c | c in t.categories :: exists r :: r in t.rules && r.category == c)
    && (forall r | r in t.rules :: r.target in {"state", "leaf", "owner", "stack"})
    && (forall r | r in t.rules && r.target == "state" ::
          r.state in {Some("idle"), Some("unresolved"), Some("fallback")})
  }

  // ---------- Matching ----------

  /** `value or ""`. */
  function Text(o: Option<string>): string {
    if o.Some? then o.value else ""
  }

  predicate PatternHolds(p: Option<Pattern>, value: Option<string>) {
    p.Some? ==> p.value(Text(value))
  }

  predicate MatchesFrame(r: Rule, f: Frame) {
    && (r.modulePattern.Some? || r.symbolPattern.Some? || r.sourcePattern.Some?)
    && PatternHolds(r.modulePattern, f.moduleName)
    && PatternHolds(r.symbolPattern, f.symbol)
    && PatternHolds(r.sourcePattern, f.source)
  }

  predicate IsIdle(s: Stack, t: Taxonomy) {
    exists f :: f in s.frames && t.idleSymbol(Text(f.symbol))
  }

  predicate IsUnresolved(s: Stack)
    requires s.frames != []
  {
    var leaf := s.frames[|s.frames| - 1];
    var symbol := Text(leaf.symbol);
    leaf.moduleName.None? || symbol in {"", "???"} || "0x" <= symbol
  }

  predicate OwnsFrame(t: Taxonomy, f: Frame) {
    t.phrustModule(Text(f.moduleName)) && t.phrustOwnerSymbol(Text(f.symbol))
  }

  ghost predicate IsLastOwner(t: Taxonomy, frames: seq<Frame>, i: nat)
    requires i < |frames|
  {
    OwnsFrame(t, frames[i]) && forall j | i < j < |frames| :: !OwnsFrame(t, frames[j])
  }

  /** The last frame that satisfies `OwnsFrame`. */
  function LastOwner(t: Taxonomy, frames: seq<Frame>): (r: Option<Frame>)
    ensures r.None? <==> forall f | f in frames :: !OwnsFrame(t, f)
    ensures r.Some? ==> exists i :: 0 <= i < |frames| && frames[i] == r.value && IsLastOwner(t, frames, i)
  {
    if frames == [] then None
    else if OwnsFrame(t, frames[|frames| - 1]) then Some(frames[|frames| - 1])
    else LastOwner(t, frames[..|frames| - 1])
  }

  /** The owner nearest to the leaf; a generic leaf does not own itself. */
  function ClosestOwner(s: Stack, t: Taxonomy): Option<Frame>
    requires s.frames != []
  {
    var n := |s.frames| - 1;
    if t.genericRustSymbol(Text(s.frames[n].symbol)) then LastOwner(t, s.frames[..n]) else LastOwner(t, s.frames)
  }

  predicate Matches(r: Rule, s: Stack, t: Taxonomy)
    requires s.frames != []
  {
    var idle, unresolved := IsIdle(s, t), IsUnresolved(s);
    if r.target == "state" then
      || (r.state == Some("idle") && idle)
      || (r.state == Some("unresolved") && !idle && unresolved)
      || (r.state == Some("fallback") && !idle && !unresolved)
    else
      && !idle && !unresolved
      && (if r.target == "leaf" then MatchesFrame(r, s.frames[|s.frames| - 1])
          else if r.target == "owner" then
            ClosestOwner(s, t).Some? && MatchesFrame(r, ClosestOwner(s, t).value)
          else r.target == "stack" && exists f :: f in s.frames && MatchesFrame(r, f))
  }

  // ---------- Classification ----------

  datatype Classification = Classification(
    category: string, ruleId: string, leaf: Frame, owner: Option<Frame>, idle: bool)

  /** The place of the first rule that matches, or the number of rules. */
  function FirstMatch(rules: seq<Rule>, s: Stack, t: Taxonomy): (k: nat)
    requires s.frames != []
    ensures k <= |rules|
    ensures k < |rules| ==> Matches(rules[k], s, t)
    ensures forall i | 0 <= i < k :: !Matches(rules[i], s, t)
  {
    if rules == [] then 0
    else if Matches(rules[0], s, t) then 0
    else 1 + FirstMatch(rules[1..], s, t)
  }

  function Classified(r: Rule, s: Stack, t: Taxonomy): Classification
    requires s.frames != []
  {
    Classification(r.category, r.id, s.frames[|s.frames| - 1], ClosestOwner(s, t), IsIdle(s, t))
  }

  function ClassifyWith(rules: seq<Rule>, s: Stack, t: Taxonomy): Result<Classification, string>
    requires s.frames != []
  {
    var k := FirstMatch(rules, s, t);
    if k < |rules| then Ok(Classified(rules[k], s, t)) else Err("taxonomy has no fallback rule")
  }

  function ClassifyStack(s: Stack, t: Taxonomy): Result<Classification, string> {
    if s.frames == [] then Err("stack has no frames") else ClassifyWith(t.rules, s, t)
  }

  // ---------- Totality ----------

  /** The state that decides which state rule matches a stack. */
  function StateOf(s: Stack, t: Taxonomy): string
    requires s.frames != []
  {
    if IsIdle(s, t) then "idle" else if IsUnresolved(s) then "unresolved" else "fallback"
  }

  ghost predicate HasStateRule(t: Taxonomy, state: string) {
    exists r :: r in t.rules && r.target == "state" && r.state == Some(state)
  }

  /** A stack is classified exactly when it has frames and a rule for its state exists; only a stack
      that is neither idle nor unresolved may instead be caught by a leaf, owner or stack rule. */
  lemma ClassifiesIff(s: Stack, t: Taxonomy)
    ensures ClassifyStack(s, t).Ok? <==>
      && s.frames != []
      && (|| HasStateRule(t, StateOf(s, t))
          || (StateOf(s, t) == "fallback" && exists r :: r in t.rules && r.target != "state" && Matches(r, s, t)))
  {
    if s.frames != [] {
      var k := FirstMatch(t.rules, s, t);
      if k < |t.rules| {
        assert t.rules[k] in t.rules;
      }
    }
  }

  /** With a rule for each state every stack with frames is classified. */
  lemma AlwaysClassifies(s: Stack, t: Taxonomy)
    requires HasStateRule(t, "idle") && HasStateRule(t, "unresolved") && HasStateRule(t, "fallback")
    ensures ClassifyStack(s, t).Ok? <==> s.frames != []
  {
    ClassifiesIff(s, t);
  }

  // ---------- Which rule takes a stack, in terms of frames and patterns ----------

  /** A pattern is not given, or it finds something in a field, an absent field being empty. */
  ghost predicate Finds(p: Option<Pattern>, field: Option<string>) {
    match p
    case None => true
    case Some(pattern) => (field.Some? && pattern(field.value)) || (field.None? && pattern(""))
  }

  /** Some pattern of the rule is given, and all that are given find their field. */
  ghost predicate Holds(r: Rule, f: Frame) {
    && !(r.modulePattern.None? && r.symbolPattern.None? && r.sourcePattern.None?)
    && Finds(r.modulePattern, f.moduleName) && Finds(r.symbolPattern, f.symbol) && Finds(r.sourcePattern, f.source)
  }

  ghost predicate WaitsAt(s: Stack, t: Taxonomy, i: nat) {
    i < |s.frames| && Finds(Some(t.idleSymbol), s.frames[i].symbol)
  }

  /** The last frame has no module, no symbol, an unknown one or an address. */
  ghost predicate Nameless(s: Stack)
    requires s.frames != []
  {
    var leaf := s.frames[|s.frames| - 1];
    || leaf.moduleName == None
    || leaf.symbol == None || leaf.symbol == Some("") || leaf.symbol == Some("???")
    || (leaf.symbol.Some? && |leaf.symbol.value| >= 2 && leaf.symbol.value[0] == '0' && leaf.symbol.value[1] == 'x')
  }

  /** A frame of the engine, whose symbol is one that owns; a generic last frame is passed over. */
  ghost predicate OwnsAt(s: Stack, t: Taxonomy, i: nat) {
    && i < |s.frames|
    && Finds(Some(t.phrustModule), s.frames[i].moduleName) && Finds(Some(t.phrustOwnerSymbol), s.frames[i].symbol)
    && !(i == |s.frames| - 1 && Finds(Some(t.genericRustSymbol), s.frames[i].symbol))
  }

  ghost predicate ClosestAt(s: Stack, t: Taxonomy, i: nat) {
    OwnsAt(s, t, i) && forall j: nat | i < j :: !OwnsAt(s, t, j)
  }

  ghost predicate Waits(s: Stack, t: Taxonomy) { exists i: nat :: WaitsAt(s, t, i) }

  /** State rules go by the state of a stack. The others take only stacks that neither wait nor are nameless: a leaf rule
      looks at the last frame, an owner rule at the closest owner and a stack rule at all frames. */
  ghost predicate Takes(r: Rule, s: Stack, t: Taxonomy)
    requires s.frames != []
  {
    if r.target == "state" then
      || (r.state == Some("idle") && Waits(s, t))
      || (r.state == Some("unresolved") && !Waits(s, t) && Nameless(s))
      || (r.state == Some("fallback") && !Waits(s, t) && !Nameless(s))
    else
      && !Waits(s, t) && !Nameless(s)
      && (|| (r.target == "leaf" && Holds(r, s.frames[|s.frames| - 1]))
          || (r.target == "owner" && exists i: nat :: ClosestAt(s, t, i) && Holds(r, s.frames[i]))
          || (r.target == "stack" && exists i: nat :: i < |s.frames| && Holds(r, s.frames[i])))
  }

  lemma HoldsIff(r: Rule, f: Frame)
    ensures Holds(r, f) <==> MatchesFrame(r, f)
  {
  }

  lemma WaitsIff(s: Stack, t: Taxonomy)
    ensures Waits(s, t) <==> IsIdle(s, t)
  {
    if IsIdle(s, t) {
      var f :| f in s.frames && t.idleSymbol(Text(f.symbol));
      var i :| 0 <= i < |s.frames| && s.frames[i] == f;
      assert WaitsAt(s, t, i);
    }
    if i: nat :| WaitsAt(s, t, i) { assert s.frames[i] in s.frames; }
  }

  lemma NamelessIff(s: Stack)
    requires s.frames != []
    ensures Nameless(s) <==> IsUnresolved(s)
  {
    var symbol := Text(s.frames[|s.frames| - 1].symbol);
    assert "0x" <= symbol <==> |symbol| >= 2 && symbol[0] == '0' && symbol[1] == 'x';
  }

  /** The closest owner is where the search from the last frame ends. */
  lemma ClosestIff(s: Stack, t: Taxonomy)
    requires s.frames != []
    ensures ClosestOwner(s, t).None? <==> forall i: nat :: !OwnsAt(s, t, i)
    ensures ClosestOwner(s, t).Some? ==> exists i: nat :: ClosestAt(s, t, i) && s.frames[i] == ClosestOwner(s, t).value
  {
    var n := |s.frames| - 1;
    var generic := t.genericRustSymbol(Text(s.frames[n].symbol));
    var frames := if generic then s.frames[..n] else s.frames;
    assert forall i: nat :: OwnsAt(s, t, i) <==> i < |frames| && OwnsFrame(t, frames[i]);
    hide OwnsAt, OwnsFrame;
    if LastOwner(t, frames).Some? {
      var i :| 0 <= i < |frames| && frames[i] == LastOwner(t, frames).value && IsLastOwner(t, frames, i);
      assert ClosestAt(s, t, i);
    } else {
      forall i: nat | i < |frames| ensures !OwnsFrame(t, frames[i]) { assert frames[i] in frames; }
      assert forall i: nat :: !OwnsAt(s, t, i);
    }
  }

  lemma OneClosest(s: Stack, t: Taxonomy, i: nat, j: nat)
    requires ClosestAt(s, t, i) && ClosestAt(s, t, j)
    ensures i == j
  {
  }

  lemma TakesIff(r: Rule, s: Stack, t: Taxonomy)
    requires s.frames != []
    ensures Matches(r, s, t) <==> Takes(r, s, t)
  {
    WaitsIff(s, t);
    NamelessIff(s);
    ClosestIff(s, t);
    forall f ensures Holds(r, f) <==> MatchesFrame(r, f) { HoldsIff(r, f); }
    hide Waits, IsIdle, Nameless, IsUnresolved, Holds, MatchesFrame, ClosestOwner, OwnsAt;
    if r.target == "owner" {
      forall i: nat, j: nat | ClosestAt(s, t, i) && ClosestAt(s, t, j) ensures i == j { OneClosest(s, t, i, j); }
    }
    if r.target == "stack" { HoldsSomewhere(r, s); }
    assert "state" != "leaf" && "leaf" != "owner" && "owner" != "stack" && "leaf" != "stack" by { TargetNames(); }
  }

  lemma HoldsSomewhere(r: Rule, s: Stack)
    ensures (exists f :: f in s.frames && Holds(r, f)) <==> exists i: nat :: i < |s.frames| && Holds(r, s.frames[i])
  {
    hide Holds;
    if f :| f in s.frames && Holds(r, f) {
      var i :| 0 <= i < |s.frames| && s.frames[i] == f;
      assert Holds(r, s.frames[i]);
    }
  }

  lemma TargetNames()
    ensures "state" != "leaf" && "leaf" != "owner" && "owner" != "stack" && "leaf" != "stack"
  {
    assert "state"[0] != "leaf"[0] && "leaf"[0] != "owner"[0] && "owner"[0] != "stack"[0] && "leaf"[0] != "stack"[0];
  }

  /** A stack gets category, name, state and owner from the first rule that takes it. */
  lemma ClassifiedByFirst(s: Stack, t: Taxonomy, k: nat)
    requires s.frames != [] && k < |t.rules| && Takes(t.rules[k], s, t) && forall j | 0 <= j < k :: !Takes(t.rules[j], s, t)
    ensures ClassifyStack(s, t).Ok?
    ensures var c := ClassifyStack(s, t).value;
            && c.category == t.rules[k].category && c.ruleId == t.rules[k].id
            && c.leaf == s.frames[|s.frames| - 1] && (c.idle <==> Waits(s, t))
            && (c.owner.None? <==> forall i: nat :: !OwnsAt(s, t, i))
            && (c.owner.Some? ==> exists i: nat :: ClosestAt(s, t, i) && s.frames[i] == c.owner.value)
  {
    forall r ensures Matches(r, s, t) <==> Takes(r, s, t) { TakesIff(r, s, t); }
    hide Matches, Takes;
    FirstMatchAt(t.rules, s, t, k);
    WaitsIff(s, t);
    ClosestIff(s, t);
  }

  /** And it is not classified when no rule takes it. */
  lemma UnclassifiedIff(s: Stack, t: Taxonomy)
    ensures ClassifyStack(s, t).Err? <==> s.frames == [] || forall r | r in t.rules :: !Takes(r, s, t)
  {
    if s.frames != [] {
      forall r ensures Matches(r, s, t) <==> Takes(r, s, t) { TakesIff(r, s, t); }
      hide Matches, Takes;
      var k := FirstMatch(t.rules, s, t);
      if k < |t.rules| { assert t.rules[k] in t.rules; }
    }
  }

  // ---------- State rules decide idle and unresolved stacks ----------

  function StateRules(rules: seq<Rule>): seq<Rule> {
    if rules == [] then []
    else (if rules[0].target == "state" then [rules[0]] else []) + StateRules(rules[1..])
  }

  /** Leaf, owner and stack rules have no influence on idle and unresolved stacks. */
  lemma {:induction false} OnlyStateRulesMatter(rules: seq<Rule>, s: Stack, t: Taxonomy)
    requires s.frames != [] && StateOf(s, t) != "fallback"
    ensures ClassifyWith(rules, s, t) == ClassifyWith(StateRules(rules), s, t)
    decreases |rules|
  {
    if rules != [] {
      OnlyStateRulesMatter(rules[1..], s, t);
      ClassifyStep(rules, s, t);
      if rules[0].target == "state" {
        assert StateRules(rules)[1..] == StateRules(rules[1..]);
        ClassifyStep(StateRules(rules), s, t);
      } else {
        assert StateRules(rules) == StateRules(rules[1..]);
        hide ClassifyWith;
        NoMatchUnlessFallback(rules[0], s, t);
      }
    }
  }

  lemma ClassifyStep(rules: seq<Rule>, s: Stack, t: Taxonomy)
    requires s.frames != [] && rules != []
    ensures ClassifyWith(rules, s, t) ==
            if Matches(rules[0], s, t) then Ok(Classified(rules[0], s, t)) else ClassifyWith(rules[1..], s, t)
  {
    hide Matches;
    hide Classified;
  }

  lemma NoMatchUnlessFallback(r: Rule, s: Stack, t: Taxonomy)
    requires s.frames != [] && StateOf(s, t) != "fallback" && r.target != "state"
    ensures !Matches(r, s, t)
  {
  }

  // ---------- Adding a rule before the trailing fallback ----------

  function WithRuleBeforeLast(t: Taxonomy, r: Rule): Taxonomy
    requires t.rules != []
  {
    t.(rules := t.rules[..|t.rules| - 1] + [r, t.rules[|t.rules| - 1]])
  }

  /** The search stops at a place when nothing before it matches. */
  lemma {:induction false} FirstMatchAt(rules: seq<Rule>, s: Stack, t: Taxonomy, k: nat)
    requires s.frames != [] && k <= |rules|
    requires forall i | 0 <= i < k :: !Matches(rules[i], s, t)
    requires k < |rules| ==> Matches(rules[k], s, t)
    ensures FirstMatch(rules, s, t) == k
  {
  }

  /** A new rule just before the last one changes the classification of exactly those stacks that it
      matches and that came as far as the last rule. */
  lemma InsertedRule(s: Stack, t: Taxonomy, r: Rule)
    requires s.frames != [] && t.rules != []
    ensures var t' := WithRuleBeforeLast(t, r);
            ClassifyStack(s, t') ==
              if FirstMatch(t.rules, s, t) >= |t.rules| - 1 && Matches(r, s, t) then Ok(Classified(r, s, t))
              else ClassifyStack(s, t)
  {
    var t' := WithRuleBeforeLast(t, r);
    var n := |t.rules| - 1;
    var k := FirstMatch(t.rules, s, t);
    SameMatching(s, t, t');
    forall i | 0 <= i < |t'.rules| ensures Matches(t'.rules[i], s, t') == Matches(t'.rules[i], s, t) {
    }
    if k < n {
      FirstMatchAt(t'.rules, s, t', k);
    } else if Matches(r, s, t) {
      FirstMatchAt(t'.rules, s, t', n);
    } else {
      FirstMatchAt(t'.rules, s, t', k + 1);
    }
  }

  /** Only the rule list differs, so the same rules match. */
  lemma SameMatching(s: Stack, t: Taxonomy, t': Taxonomy)
    requires s.frames != [] && t' == t.(rules := t'.rules)
    ensures forall r :: Matches(r, s, t') == Matches(r, s, t) && Classified(r, s, t') == Classified(r, s, t)
  {
    OwnerAndStateSame(s, t, t');
    hide ClosestOwner;
    hide IsIdle;
    hide IsUnresolved;
    hide MatchesFrame;
    forall r ensures Matches(r, s, t') == Matches(r, s, t) && Classified(r, s, t') == Classified(r, s, t) {
    }
  }

  lemma OwnerAndStateSame(s: Stack, t: Taxonomy, t': Taxonomy)
    requires s.frames != [] && t' == t.(rules := t'.rules)
    ensures ClosestOwner(s, t') == ClosestOwner(s, t) && IsIdle(s, t') == IsIdle(s, t)
  {
    hide LastOwner;
    OwnersSame(t, t', s.frames);
    OwnersSame(t, t', s.frames[..|s.frames| - 1]);
  }

  lemma {:induction false} OwnersSame(t: Taxonomy, t': Taxonomy, frames: seq<Frame>)
    requires t' == t.(rules := t'.rules)
    ensures LastOwner(t', frames) == LastOwner(t, frames)
    decreases |frames|
  {
    if frames != [] { OwnersSame(t, t', frames[..|frames| - 1]); }
  }

  /** Where the last rule is the fallback, a new leaf, owner or stack rule changes only stacks that the
      fallback used to take. */
  lemma OnlyFallbackStacksChange(s: Stack, t: Taxonomy, r: Rule)
    requires s.frames != [] && t.rules != []
    requires var last := t.rules[|t.rules| - 1]; last.target == "state" && last.state == Some("fallback")
    requires r.target != "state"
    requires ClassifyStack(s, WithRuleBeforeLast(t, r)) != ClassifyStack(s, t)
    ensures StateOf(s, t) == "fallback"
    ensures ClassifyStack(s, t) == Ok(Classified(t.rules[|t.rules| - 1], s, t))
  {
    InsertedRule(s, t, r);
    assert Matches(t.rules[|t.rules| - 1], s, t);
  }
}
