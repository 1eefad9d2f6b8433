/** Which support class the probes of one surface entry justify. */
module SurfaceSupport {
  import opened Options

  const NATIVE: set<string> := {"native_direct", "native_typed_runtime", "native_generic_builtin"}
  const UNAVAILABLE := "environmentally_unavailable_reference_identical"
  const SUPPORTED: set<string> := NATIVE + {UNAVAILABLE}
  const LEGAL: set<string> :=
    SUPPORTED + {"registered_unprobed", "semantic_mismatch", "undefined_in_target", "native_compile_gap", "crash_or_timeout"}

  /** A JSON value: its text, and its `status` member when it is an object that has one. */
  datatype Value = Value(text: string, status: Option<string>)

  datatype Probe = Probe(supportEvidence: bool, executed: bool, status: Option<string>,
                         reference: Option<Value>, target: Option<Value>, difference: Option<string>)

  datatype Summary = Summary(status: string, reference: Option<Value>, target: Option<Value>, difference: Option<string>)

  predicate Passed(p: Probe) { p.status == Some("pass") }

  /** The probes that bear on support and were run, in order. */
  function Executed(evidence: seq<Probe>): (r: seq<Probe>)
    ensures forall p :: p in r <==> p in evidence && p.supportEvidence && p.executed
  {
    if evidence == [] then []
    else (if evidence[0].supportEvidence && evidence[0].executed then [evidence[0]] else []) + Executed(evidence[1..])
  }

  function FirstFailing(ps: seq<Probe>): (r: Option<Probe>)
    ensures r.None? <==> forall p | p in ps :: Passed(p)
    ensures r.Some? ==> r.value in ps && !Passed(r.value)
  {
    if ps == [] then None else if !Passed(ps[0]) then Some(ps[0]) else FirstFailing(ps[1..])
  }

  function StatusText(status: Option<string>): string {
    if status.None? || status.value == "" then "mismatch" else status.value
  }

  function Summarize(evidence: seq<Probe>): Summary {
    var executed := Executed(evidence);
    if evidence == [] then Summary("unprobed", None, None, None)
    else if forall p | p in evidence :: !p.supportEvidence then Summary("classified_non_behavioral", None, None, None)
    else if executed == [] then Summary("generated_unexecuted", None, None, None)
    else if forall p | p in executed :: p.status == Some("skip") then Summary("reference_unavailable", None, None, None)
    else
      var failing := FirstFailing(executed);
      var chosen := if failing.Some? then failing.value else executed[|executed| - 1];
      Summary(if failing.None? then "pass" else StatusText(chosen.status), chosen.reference, chosen.target, chosen.difference)
  }

  const NOT_RUN: set<string> := {"unprobed", "generated_unexecuted", "classified_non_behavioral", "reference_unavailable"}

  predicate Mentions(text: string, word: string) {
    exists i | 0 <= i <= |text| - |word| :: word <= text[i..]
  }

  predicate Skipped(v: Option<Value>) { v.Some? && v.value.status == Some("skipped") }

  /** `render` is the lower-case JSON text of a target result and a first difference. */
  function ClassifySupport(available: bool, builtin: bool, route: string, s: Summary,
                           render: (Option<Value>, Option<string>) -> string): string
  {
    if s.status == "pass" then
      if route == "native_direct" then "native_direct"
      else if route == "native_generic_builtin" then "native_generic_builtin"
      else "native_typed_runtime"
    else
      var combined := render(s.target, s.difference);
      if Mentions(combined, "timeout") || Mentions(combined, "crash") || Mentions(combined, "signal") then "crash_or_timeout"
      else if Mentions(combined, "e_native_unsupported_lowering") || Mentions(combined, "missinglowering") then "native_compile_gap"
      else if s.status !in NOT_RUN then
        if Skipped(s.reference) && Skipped(s.target) then UNAVAILABLE else "semantic_mismatch"
      else if available && builtin then "registered_unprobed"
      else "undefined_in_target"
  }

  // ---------- Evidence and support ----------

  /** At least one probe that bears on support was run, and every one that was run passed. */
  ghost predicate Demonstrated(evidence: seq<Probe>) {
    && (exists p | p in evidence :: p.supportEvidence && p.executed)
    && (forall p | p in evidence && p.supportEvidence && p.executed :: Passed(p))
  }

  lemma PassIff(evidence: seq<Probe>)
    ensures Summarize(evidence).status == "pass" <==> Demonstrated(evidence)
  {
    var executed := Executed(evidence);
    if Demonstrated(evidence) {
      var p :| p in evidence && p.supportEvidence && p.executed;
      assert p in executed && Passed(p);
      assert "pass"[0] != "skip"[0];
    } else if executed != [] {
      var failing := FirstFailing(executed);
      assert executed[0] in executed;
      if failing.Some? { NotPass(failing.value); }
    }
    assert |"unprobed"| != |"pass"| && |"classified_non_behavioral"| != |"pass"|;
    assert |"generated_unexecuted"| != |"pass"| && |"reference_unavailable"| != |"pass"|;
  }

  lemma NotPass(p: Probe)
    requires !Passed(p)
    ensures StatusText(p.status) != "pass"
  {
    assert |"mismatch"| != |"pass"|;
  }

  lemma ClassNames()
    ensures "crash_or_timeout" !in SUPPORTED && "native_compile_gap" !in SUPPORTED && "semantic_mismatch" !in SUPPORTED
    ensures "registered_unprobed" !in SUPPORTED && "undefined_in_target" !in SUPPORTED && UNAVAILABLE !in NATIVE
  {
    assert |"native_direct"| == 13 && |"native_typed_runtime"| == 20 && |"native_generic_builtin"| == 22;
    assert |UNAVAILABLE| == 47 && |"crash_or_timeout"| == 16 && |"native_compile_gap"| == 18;
    assert |"semantic_mismatch"| == 17 && |"registered_unprobed"| == 19 && |"undefined_in_target"| == 19;
  }

  /** Registration never makes an entry supported: one of the native classes is given exactly when support
      was demonstrated. */
  lemma NativeIff(available: bool, builtin: bool, route: string, evidence: seq<Probe>,
                  render: (Option<Value>, Option<string>) -> string)
    ensures ClassifySupport(available, builtin, route, Summarize(evidence), render) in NATIVE <==> Demonstrated(evidence)
  {
    hide Summarize;
    hide Demonstrated;
    hide Mentions;
    PassIff(evidence);
    ClassNames();
  }

  /** The only other supported class needs a probe that was run, did not pass, and was skipped by the
      reference and by the target alike. */
  lemma SupportedElse(available: bool, builtin: bool, route: string, evidence: seq<Probe>,
                      render: (Option<Value>, Option<string>) -> string)
    requires ClassifySupport(available, builtin, route, Summarize(evidence), render) in SUPPORTED - NATIVE
    ensures exists p | p in evidence ::
              p.supportEvidence && p.executed && !Passed(p) && Skipped(p.reference) && Skipped(p.target)
  {
    hide Mentions;
    ClassNames();
    var s := Summarize(evidence);
    assert Skipped(s.reference) && Skipped(s.target);
    PassIff(evidence);
    var executed := Executed(evidence);
    var failing := FirstFailing(executed);
    assert failing.Some? && s.reference == failing.value.reference && s.target == failing.value.target;
    assert failing.value in executed;
  }

  /** The nine classes of the inventory, four of which count as supported. */
  lemma LegalIs()
    ensures SUPPORTED == {"native_direct", "native_typed_runtime", "native_generic_builtin",
                          "environmentally_unavailable_reference_identical"}
    ensures LEGAL == SUPPORTED + {"registered_unprobed", "semantic_mismatch", "undefined_in_target", "native_compile_gap",
                                  "crash_or_timeout"}
  {
  }

  lemma AlwaysLegal(available: bool, builtin: bool, route: string, s: Summary,
                    render: (Option<Value>, Option<string>) -> string)
    ensures ClassifySupport(available, builtin, route, s, render) in LEGAL
  {
    hide Mentions;
  }

  // ---------- The other classes, in terms of the probes ----------

  ghost predicate RanAt(evidence: seq<Probe>, i: nat) {
    i < |evidence| && evidence[i].supportEvidence && evidence[i].executed
  }

  ghost predicate NothingRan(evidence: seq<Probe>) { forall i: nat :: !RanAt(evidence, i) }

  /** Probes that bear on support were run, and all of them were skipped. */
  ghost predicate AllSkipped(evidence: seq<Probe>) {
    !NothingRan(evidence) && forall i: nat | RanAt(evidence, i) :: evidence[i].status == Some("skip")
  }

  /** The first probe that was run and did not pass. */
  ghost predicate FailsFirst(evidence: seq<Probe>, i: nat) {
    RanAt(evidence, i) && evidence[i].status != Some("pass")
    && forall j: nat | j < i && RanAt(evidence, j) :: evidence[j].status == Some("pass")
  }

  ghost predicate WordAt(text: string, word: string, i: nat) {
    i + |word| <= |text| && forall k | 0 <= k < |word| :: text[i + k] == word[k]
  }

  ghost predicate Says(text: string, word: string) { exists i: nat :: WordAt(text, word, i) }

  lemma SaysIff(text: string, word: string)
    ensures Says(text, word) <==> Mentions(text, word)
  {
    if Mentions(text, word) {
      var i :| 0 <= i <= |text| - |word| && word <= text[i..];
      assert forall k | 0 <= k < |word| :: text[i..][k] == text[i + k];
      assert WordAt(text, word, i);
    }
    if i: nat :| WordAt(text, word, i) {
      assert word == text[i..][..|word|];
    }
  }

  ghost predicate Crashed(text: string) { Says(text, "timeout") || Says(text, "crash") || Says(text, "signal") }

  ghost predicate Unlowered(text: string) { Says(text, "e_native_unsupported_lowering") || Says(text, "missinglowering") }

  lemma {:induction false} FirstFailingIs(evidence: seq<Probe>, i: nat)
    requires FailsFirst(evidence, i)
    ensures FirstFailing(Executed(evidence)) == Some(evidence[i])
    decreases |evidence|
  {
    hide Executed, FirstFailing;
    var rest := evidence[1..];
    ExecutedStep(evidence);
    if evidence[0].supportEvidence && evidence[0].executed { FailingStep(evidence[0], Executed(rest)); }
    if i > 0 {
      forall j: nat | j < i - 1 && RanAt(rest, j) ensures rest[j].status == Some("pass") { assert RanAt(evidence, j + 1); }
      assert RanAt(rest, i - 1) && rest[i - 1] == evidence[i];
      FirstFailingIs(rest, i - 1);
      assert RanAt(evidence, 0) ==> Passed(evidence[0]);
    }
  }

  lemma ExecutedStep(evidence: seq<Probe>)
    requires evidence != []
    ensures Executed(evidence) ==
            if evidence[0].supportEvidence && evidence[0].executed then [evidence[0]] + Executed(evidence[1..])
            else Executed(evidence[1..])
  {
  }

  lemma FailingStep(p: Probe, rest: seq<Probe>)
    ensures FirstFailing([p] + rest) == if Passed(p) then FirstFailing(rest) else Some(p)
  {
    assert ([p] + rest)[1..] == rest;
  }

  lemma RanIff(evidence: seq<Probe>)
    ensures NothingRan(evidence) <==> Executed(evidence) == []
    ensures AllSkipped(evidence) <==> Executed(evidence) != [] && forall p | p in Executed(evidence) :: p.status == Some("skip")
    ensures (forall p | p in evidence :: !p.supportEvidence) ==> NothingRan(evidence)
  {
    var executed := Executed(evidence);
    forall i: nat | RanAt(evidence, i) ensures evidence[i] in executed { assert evidence[i] in evidence; }
    forall p | p in executed ensures exists i: nat :: RanAt(evidence, i) && evidence[i] == p {
      var i :| 0 <= i < |evidence| && evidence[i] == p;
      assert RanAt(evidence, i);
    }
    if executed != [] { assert executed[0] in executed; }
  }

  /** Where nothing was run, or everything that was run was skipped, registration decides. */
  lemma UnprobedClass(available: bool, builtin: bool, route: string, evidence: seq<Probe>,
                      render: (Option<Value>, Option<string>) -> string)
    requires NothingRan(evidence) || AllSkipped(evidence)
    ensures ClassifySupport(available, builtin, route, Summarize(evidence), render) ==
            if Crashed(render(None, None)) then "crash_or_timeout"
            else if Unlowered(render(None, None)) then "native_compile_gap"
            else if available && builtin then "registered_unprobed" else "undefined_in_target"
  {
    hide Says, Mentions, Summarize, NothingRan, AllSkipped;
    NotRunSummary(evidence);
    FailureWords(render(None, None));
    NotRunIsNotPass();
  }

  lemma FailureWords(text: string)
    ensures Crashed(text) <==> Mentions(text, "timeout") || Mentions(text, "crash") || Mentions(text, "signal")
    ensures Unlowered(text) <==> Mentions(text, "e_native_unsupported_lowering") || Mentions(text, "missinglowering")
  {
    hide Says, Mentions;
    SaysIff(text, "timeout");
    SaysIff(text, "crash");
    SaysIff(text, "signal");
    SaysIff(text, "e_native_unsupported_lowering");
    SaysIff(text, "missinglowering");
  }

  lemma NotRunSummary(evidence: seq<Probe>)
    requires NothingRan(evidence) || AllSkipped(evidence)
    ensures var s := Summarize(evidence); s.status in NOT_RUN && s.target == None && s.difference == None
  {
    hide NothingRan, AllSkipped, Executed, FirstFailing;
    RanIff(evidence);
  }

  lemma NotRunIsNotPass()
    ensures "pass" !in NOT_RUN
  {
    assert |"unprobed"| != |"pass"| && |"classified_non_behavioral"| != |"pass"|;
    assert |"generated_unexecuted"| != |"pass"| && |"reference_unavailable"| != |"pass"|;
  }

  /** Otherwise the first failure decides: what its rendering names, then whether both sides skipped. */
  lemma FailedClass(available: bool, builtin: bool, route: string, evidence: seq<Probe>,
                    render: (Option<Value>, Option<string>) -> string, i: nat)
    requires FailsFirst(evidence, i) && !AllSkipped(evidence)
    requires evidence[i].status !in {Some("unprobed"), Some("generated_unexecuted"), Some("classified_non_behavioral"),
                                     Some("reference_unavailable")}
    ensures var p := evidence[i];
            var text := render(p.target, p.difference);
            ClassifySupport(available, builtin, route, Summarize(evidence), render) ==
            if Crashed(text) then "crash_or_timeout"
            else if Unlowered(text) then "native_compile_gap"
            else if p.reference.Some? && p.reference.value.status == Some("skipped")
                    && p.target.Some? && p.target.value.status == Some("skipped")
            then "environmentally_unavailable_reference_identical"
            else "semantic_mismatch"
  {
    hide Says, Mentions, Summarize, AllSkipped;
    var p := evidence[i];
    FailedSummary(evidence, i);
    FailureWords(render(p.target, p.difference));
    NotPass(p);
    MismatchIsRun();
  }

  lemma FailedSummary(evidence: seq<Probe>, i: nat)
    requires FailsFirst(evidence, i) && !AllSkipped(evidence)
    ensures var p := evidence[i];
            Summarize(evidence) == Summary(StatusText(p.status), p.reference, p.target, p.difference)
  {
    hide AllSkipped, Executed, FirstFailing, StatusText;
    RanIff(evidence);
    FirstFailingIs(evidence, i);
    assert evidence[i] in evidence && evidence[i] in Executed(evidence);
  }

  lemma MismatchIsRun()
    ensures "mismatch" !in NOT_RUN
  {
    assert "unprobed"[0] != "mismatch"[0] && |"classified_non_behavioral"| != |"mismatch"|;
    assert |"generated_unexecuted"| != |"mismatch"| && |"reference_unavailable"| != |"mismatch"|;
  }
}
