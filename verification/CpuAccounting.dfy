/** Exclusive CPU accounting: windows, the pooled result and the gate that re-checks the books. */
module CpuAccounting {
  import opened Lists
  import opened Options
  import opened StackTaxonomy
  import opened BasisPoints
  import opened Sums

  /** One classified worker stack. */
  datatype Entry = Entry(index: nat, category: string, ruleId: string, idle: bool, weight: nat)

  function WeightOf(e: Entry): int { e.weight }
  function ActiveWeight(e: Entry): int { if e.idle then 0 else e.weight }
  function IdleWeight(e: Entry): int { if e.idle then e.weight else 0 }
  function WeightIn(c: string): Entry -> int {
    (e: Entry) => if e.category == c then e.weight else 0
  }

  /** The worker stacks from place `from` on, classified in order; the first failure ends the window. */
  function Ledger(stacks: seq<Stack>, t: Taxonomy, from: nat): Result<seq<Entry>, string>
    requires from <= |stacks|
    decreases |stacks| - from
  {
    if from == |stacks| then Ok([])
    else if stacks[from].threadName != Some(t.workerThread) then Ledger(stacks, t, from + 1)
    else
      match ClassifyStack(stacks[from], t)
      case Err(message) => Err(message)
      case Ok(c) =>
        match Ledger(stacks, t, from + 1)
        case Err(message) => Err(message)
        case Ok(rest) => Ok([Entry(from, c.category, c.ruleId, c.idle, stacks[from].weight)] + rest)
  }

  /** What a window reports: samples and basis points of each category, and the folded stacks that are
      the evidence of each category. */
  datatype Window = Window(
    active: int, idle: int, samples: map<string, int>, points: map<string, int>,
    ledger: seq<Entry>, evidence: map<string, set<string>>)

  function SamplesOf(ledger: seq<Entry>, c: string): int {
    if c == "idle" then 0 else SumOf(WeightIn(c), ledger)
  }

  ghost predicate ValidTaxonomy(t: Taxonomy) {
    Validated(t) && NoRepeats(t.categories)
  }

  /** The active counts as a dictionary, in the order of the categories. */
  function ActiveItems(categories: seq<string>, samples: map<string, int>): (r: seq<Item>)
    requires forall c | c in categories :: c in samples && samples[c] >= 0
  {
    if categories == [] then []
    else
      assert categories[0] in categories;
      (if categories[0] == "idle" then [] else [Item(categories[0], samples[categories[0]])])
      + ActiveItems(categories[1..], samples)
  }

  /** The folded stacks counted as active samples of a category. */
  function EvidenceOf(stacks: seq<Stack>, ledger: seq<Entry>, c: string): set<string> {
    set e | e in ledger && !e.idle && e.category == c && e.index < |stacks| :: stacks[e.index].folded
  }

  /** A window's books, in terms of its ledger. */
  ghost predicate IsWindow(w: Window, stacks: seq<Stack>, t: Taxonomy) {
    && Ledger(stacks, t, 0) == Ok(w.ledger)
    && w.active == SumOf(ActiveWeight, w.ledger) && w.idle == SumOf(IdleWeight, w.ledger)
    && (forall c :: c in w.samples <==> c in t.categories)
    && (forall c | c in w.samples :: w.samples[c] == SamplesOf(w.ledger, c) >= 0)
    && (forall c :: c in w.evidence <==> c in t.categories)
    && (forall c | c in w.evidence :: w.evidence[c] == EvidenceOf(stacks, w.ledger, c))
    && w.active >= 0 && IsAllocation(ActiveItems(t.categories, w.samples), w.active, w.points)
  }

  function Prepend(prefix: seq<Entry>, r: Result<seq<Entry>, string>): Result<seq<Entry>, string> {
    match r
    case Ok(rest) => Ok(prefix + rest)
    case Err(message) => Err(message)
  }

  // ---------- One window ----------

  /** The counters while a window is read. */
  datatype Counters = Counters(
    active: int, idle: int, counts: map<string, int>, ledger: seq<Entry>, evidence: map<string, set<string>>)

  ghost predicate CountersOk(k: Counters, stacks: seq<Stack>, t: Taxonomy) {
    && k.active == SumOf(ActiveWeight, k.ledger) && k.idle == SumOf(IdleWeight, k.ledger)
    && (forall c :: c in k.counts <==> c in t.categories)
    && (forall c | c in k.counts :: k.counts[c] == SumOf(WeightIn(c), k.ledger))
    && (forall c :: c in k.evidence <==> c in t.categories)
    && (forall c | c in k.evidence :: k.evidence[c] == EvidenceOf(stacks, k.ledger, c))
    && (forall e | e in k.ledger :: e.category in t.categories)
  }

  function EmptyCounters(t: Taxonomy): Counters {
    Counters(0, 0, map c | c in t.categories :: 0, [], map c | c in t.categories :: {})
  }

  /** Books one classified stack. */
  function Book(k: Counters, e: Entry, folded: string): Counters {
    var c := e.category;
    var counts := k.counts[c := (if c in k.counts then k.counts[c] else 0) + e.weight];
    if e.idle then
      k.(idle := k.idle + e.weight, counts := counts, ledger := k.ledger + [e])
    else
      k.(active := k.active + e.weight, counts := counts, ledger := k.ledger + [e],
         evidence := k.evidence[c := (if c in k.evidence then k.evidence[c] else {}) + {folded}])
  }

  lemma EmptyCountersOk(stacks: seq<Stack>, t: Taxonomy)
    ensures CountersOk(EmptyCounters(t), stacks, t) && EmptyCounters(t).ledger == []
  {
  }

  lemma BookSums(k: Counters, e: Entry)
    ensures SumOf(ActiveWeight, k.ledger + [e]) == SumOf(ActiveWeight, k.ledger) + ActiveWeight(e)
    ensures SumOf(IdleWeight, k.ledger + [e]) == SumOf(IdleWeight, k.ledger) + IdleWeight(e)
    ensures forall c :: SumOf(WeightIn(c), k.ledger + [e]) == SumOf(WeightIn(c), k.ledger) + WeightIn(c)(e)
  {
    SumAppend(ActiveWeight, k.ledger, e);
    SumAppend(IdleWeight, k.ledger, e);
    forall c ensures SumOf(WeightIn(c), k.ledger + [e]) == SumOf(WeightIn(c), k.ledger) + WeightIn(c)(e) {
      SumAppend(WeightIn(c), k.ledger, e);
    }
  }

  lemma BookEvidence(stacks: seq<Stack>, ledger: seq<Entry>, e: Entry, c: string)
    requires e.index < |stacks|
    ensures EvidenceOf(stacks, ledger + [e], c) ==
      EvidenceOf(stacks, ledger, c) + (if !e.idle && e.category == c then {stacks[e.index].folded} else {})
  {
    var more := ledger + [e];
    assert more[|ledger|] == e;
    assert forall x :: x in more <==> x in ledger || x == e;
  }

  lemma BookOk(k: Counters, e: Entry, stacks: seq<Stack>, t: Taxonomy)
    requires CountersOk(k, stacks, t) && e.category in t.categories && e.index < |stacks|
    ensures CountersOk(Book(k, e, stacks[e.index].folded), stacks, t)
    ensures Book(k, e, stacks[e.index].folded).ledger == k.ledger + [e]
  {
    BookSums(k, e);
    var k' := Book(k, e, stacks[e.index].folded);
    forall c | c in k'.evidence ensures k'.evidence[c] == EvidenceOf(stacks, k'.ledger, c) {
      BookEvidence(stacks, k.ledger, e, c);
    }
    hide SumOf, EvidenceOf;
  }

  lemma CategoryKnown(s: Stack, t: Taxonomy)
    requires ValidTaxonomy(t) && ClassifyStack(s, t).Ok?
    ensures ClassifyStack(s, t).value.category in t.categories
  {
    var k := FirstMatch(t.rules, s, t);
    assert t.rules[k] in t.rules;
  }

  lemma PrependNothing(r: Result<seq<Entry>, string>)
    ensures Prepend([], r) == r
  {
    if r.Ok? { assert [] + r.value == r.value; }
  }

  lemma PrependStep(prefix: seq<Entry>, e: Entry, rest: Result<seq<Entry>, string>)
    ensures Prepend(prefix, Prepend([e], rest)) == Prepend(prefix + [e], rest)
  {
    if rest.Ok? { assert prefix + ([e] + rest.value) == prefix + [e] + rest.value; }
  }

  function EntryFor(stacks: seq<Stack>, i: nat, c: Classification): Entry
    requires i < |stacks|
  {
    Entry(i, c.category, c.ruleId, c.idle, stacks[i].weight)
  }

  lemma EntryForFields(stacks: seq<Stack>, i: nat, c: Classification)
    requires i < |stacks|
    ensures EntryFor(stacks, i, c).index == i && EntryFor(stacks, i, c).category == c.category
  {
  }

  lemma LedgerStep(stacks: seq<Stack>, t: Taxonomy, i: nat)
    requires i < |stacks|
    ensures Ledger(stacks, t, i) ==
      if stacks[i].threadName != Some(t.workerThread) then Ledger(stacks, t, i + 1)
      else if ClassifyStack(stacks[i], t).Err? then Err(ClassifyStack(stacks[i], t).error)
      else Prepend([EntryFor(stacks, i, ClassifyStack(stacks[i], t).value)], Ledger(stacks, t, i + 1))
  {
  }

  lemma LedgerEnd(stacks: seq<Stack>, t: Taxonomy, prefix: seq<Entry>)
    ensures Prepend(prefix, Ledger(stacks, t, |stacks|)) == Ok(prefix)
  {
    assert prefix + [] == prefix;
  }

  lemma PrependErr(prefix: seq<Entry>, message: string)
    ensures Prepend(prefix, Err(message)) == Err(message)
  {
  }

  /** Reads the stacks of a window, skipping other threads. */
  method ReadStacks(stacks: seq<Stack>, t: Taxonomy) returns (r: Result<Counters, string>)
    requires ValidTaxonomy(t)
    ensures r.Ok? <==> Ledger(stacks, t, 0).Ok?
    ensures r.Ok? ==> CountersOk(r.value, stacks, t) && Ledger(stacks, t, 0) == Ok(r.value.ledger)
  {
    hide *;
    var k := EmptyCounters(t);
    EmptyCountersOk(stacks, t);
    PrependNothing(Ledger(stacks, t, 0));
    var i := 0;
    while i < |stacks|
      invariant i <= |stacks| && CountersOk(k, stacks, t)
      invariant Ledger(stacks, t, 0) == Prepend(k.ledger, Ledger(stacks, t, i))
    {
      LedgerStep(stacks, t, i);
      if stacks[i].threadName == Some(t.workerThread) {
        var c := ClassifyStack(stacks[i], t);
        if c.Err? {
          PrependErr(k.ledger, c.error);
          return Err(c.error);
        }
        CategoryKnown(stacks[i], t);
        var e := EntryFor(stacks, i, c.value);
        assert e.index == i && e.category == c.value.category by { EntryForFields(stacks, i, c.value); }
        BookOk(k, e, stacks, t);
        PrependStep(k.ledger, e, Ledger(stacks, t, i + 1));
        k := Book(k, e, stacks[i].folded);
      }
      i := i + 1;
    }
    LedgerEnd(stacks, t, k.ledger);
    r := Ok(k);
  }

  lemma {:induction false} WeightsNonnegative(ledger: seq<Entry>)
    ensures SumOf(ActiveWeight, ledger) >= 0 && SumOf(IdleWeight, ledger) >= 0
    ensures forall c :: SumOf(WeightIn(c), ledger) >= 0
  {
    SumNonnegative(ActiveWeight, ledger);
    SumNonnegative(IdleWeight, ledger);
    forall c ensures SumOf(WeightIn(c), ledger) >= 0 { SumNonnegative(WeightIn(c), ledger); }
  }

  lemma {:induction false} ActiveItemsMember(categories: seq<string>, samples: map<string, int>, i: Item)
    requires forall c | c in categories :: c in samples && samples[c] >= 0
    ensures i in ActiveItems(categories, samples) <==>
      i.category in categories && i.category != "idle" && i.count == samples[i.category]
    decreases |categories|
  {
    if categories != [] {
      assert forall c | c in categories[1..] :: c in categories;
      assert forall c | c in categories :: c == categories[0] || c in categories[1..];
      ActiveItemsMember(categories[1..], samples, i);
    }
  }

  lemma {:induction false} ActiveItemsDictionary(categories: seq<string>, samples: map<string, int>)
    requires NoRepeats(categories) && forall c | c in categories :: c in samples && samples[c] >= 0
    ensures IsDictionary(ActiveItems(categories, samples))
    decreases |categories|
  {
    if categories != [] {
      assert forall c | c in categories[1..] :: c in categories;
      ActiveItemsDictionary(categories[1..], samples);
      var rest := ActiveItems(categories[1..], samples);
      forall j | 0 <= j < |rest| ensures CategoryOf(rest[j]) != categories[0] {
        ActiveItemsMember(categories[1..], samples, rest[j]);
        assert rest[j] in rest;
      }
    }
  }

  method ClassifyWindow(stacks: seq<Stack>, t: Taxonomy) returns (r: Result<Window, string>)
    requires ValidTaxonomy(t)
    ensures r.Ok? <==> Ledger(stacks, t, 0).Ok?
    ensures r.Ok? ==> IsWindow(r.value, stacks, t)
  {
    hide Ledger, Validated, IsAllocation, ActiveItems, IsWindow;
    var read := ReadStacks(stacks, t);
    if read.Err? { return Err(read.error); }
    var k := read.value;
    WeightsNonnegative(k.ledger);
    var samples := map c | c in t.categories :: if c == "idle" then 0 else k.counts[c];
    ActiveItemsDictionary(t.categories, samples);
    var points := AllocateBasisPoints(ActiveItems(t.categories, samples), k.active);
    r := Ok(Window(k.active, k.idle, samples, points, k.ledger, k.evidence));
    WindowComplete(k, r.value, stacks, t);
  }

  lemma WindowComplete(k: Counters, w: Window, stacks: seq<Stack>, t: Taxonomy)
    requires CountersOk(k, stacks, t) && Ledger(stacks, t, 0) == Ok(k.ledger) && w.ledger == k.ledger
    requires w.active == k.active && w.idle == k.idle && w.evidence == k.evidence
    requires w.samples == map c | c in t.categories :: if c == "idle" then 0 else k.counts[c]
    requires k.active >= 0 && forall c | c in t.categories :: w.samples[c] >= 0
    requires IsAllocation(ActiveItems(t.categories, w.samples), w.active, w.points)
    ensures IsWindow(w, stacks, t)
  {
  }

  // ---------- The ledger in terms of the stacks ----------

  ghost predicate IsWorker(stacks: seq<Stack>, t: Taxonomy, i: nat) {
    i < |stacks| && stacks[i].threadName == Some(t.workerThread)
  }

  /** An entry books a worker stack: its category, rule and state as classified, and its weight. */
  ghost predicate Books(e: Entry, stacks: seq<Stack>, t: Taxonomy) {
    && IsWorker(stacks, t, e.index) && ClassifyStack(stacks[e.index], t).Ok? && e.weight == stacks[e.index].weight
    && var c := ClassifyStack(stacks[e.index], t).value;
       e.category == c.category && e.ruleId == c.ruleId && e.idle == c.idle
  }

  lemma LedgerFrom(stacks: seq<Stack>, t: Taxonomy, from: nat)
    requires from < |stacks|
    ensures !IsWorker(stacks, t, from) ==> Ledger(stacks, t, from) == Ledger(stacks, t, from + 1)
    ensures IsWorker(stacks, t, from) ==>
              (Ledger(stacks, t, from).Ok? <==> ClassifyStack(stacks[from], t).Ok? && Ledger(stacks, t, from + 1).Ok?)
    ensures IsWorker(stacks, t, from) && Ledger(stacks, t, from).Ok? ==>
              var c := ClassifyStack(stacks[from], t).value;
              Ledger(stacks, t, from).value ==
              [Entry(from, c.category, c.ruleId, c.idle, stacks[from].weight)] + Ledger(stacks, t, from + 1).value
  {
    hide ClassifyStack;
  }

  /** There is a ledger exactly when every worker stack is classified. */
  lemma {:induction false} LedgerOkIff(stacks: seq<Stack>, t: Taxonomy, from: nat)
    requires from <= |stacks|
    ensures Ledger(stacks, t, from).Ok? <==>
            forall i: nat | from <= i && IsWorker(stacks, t, i) :: ClassifyStack(stacks[i], t).Ok?
    decreases |stacks| - from
  {
    hide ClassifyStack;
    if from < |stacks| {
      LedgerOkIff(stacks, t, from + 1);
      LedgerFrom(stacks, t, from);
      hide Ledger;
    }
  }

  /** It books every worker stack and no other, once and in order. */
  lemma {:induction false} LedgerMeans(stacks: seq<Stack>, t: Taxonomy, from: nat)
    requires from <= |stacks| && Ledger(stacks, t, from).Ok?
    ensures var ledger := Ledger(stacks, t, from).value;
            && (forall e | e in ledger :: from <= e.index && Books(e, stacks, t))
            && (forall i: nat | from <= i && IsWorker(stacks, t, i) :: exists e :: e in ledger && e.index == i)
            && (forall j, k | 0 <= j < k < |ledger| :: ledger[j].index < ledger[k].index)
    decreases |stacks| - from
  {
    hide ClassifyStack, Books;
    if from < |stacks| {
      LedgerFrom(stacks, t, from);
      LedgerMeans(stacks, t, from + 1);
      if IsWorker(stacks, t, from) {
        BooksFirst(stacks, t, from);
        var rest := Ledger(stacks, t, from + 1).value;
        hide Ledger;
        OneMore(Ledger(stacks, t, from).value[0], rest, stacks, t, from);
      }
    }
  }

  lemma BooksFirst(stacks: seq<Stack>, t: Taxonomy, i: nat)
    requires IsWorker(stacks, t, i) && ClassifyStack(stacks[i], t).Ok?
    ensures var c := ClassifyStack(stacks[i], t).value;
            Books(Entry(i, c.category, c.ruleId, c.idle, stacks[i].weight), stacks, t)
  {
    hide ClassifyStack;
  }

  lemma OneMore(e: Entry, rest: seq<Entry>, stacks: seq<Stack>, t: Taxonomy, from: nat)
    requires e.index == from && forall x | x in rest :: from < x.index
    requires forall i: nat | from < i && IsWorker(stacks, t, i) :: exists x :: x in rest && x.index == i
    requires forall j, k | 0 <= j < k < |rest| :: rest[j].index < rest[k].index
    ensures forall i: nat | from <= i && IsWorker(stacks, t, i) :: exists x :: x in [e] + rest && x.index == i
    ensures forall j, k | 0 <= j < k < |[e] + rest| :: ([e] + rest)[j].index < ([e] + rest)[k].index
  {
    var all := [e] + rest;
    assert all[0] in all;
    forall i: nat | from <= i && IsWorker(stacks, t, i) ensures exists x :: x in all && x.index == i {
      if i > from {
        var x :| x in rest && x.index == i;
        assert x in all;
      }
    }
    forall j, k | 0 <= j < k < |all| ensures all[j].index < all[k].index {
      if j == 0 { assert all[k] in rest; }
    }
  }

  // ---------- Conservation ----------

  /** The idle category is for idle stacks and for them only. Loading a taxonomy does not check it. */
  ghost predicate IdleIsACategory(t: Taxonomy) {
    forall r | r in t.rules :: r.category == "idle" <==> r.target == "state" && r.state == Some("idle")
  }

  function NamedWeight(e: Entry): int { if e.category == "idle" then 0 else e.weight }
  function IdleElsewhere(e: Entry): int { if e.idle && e.category != "idle" then e.weight else 0 }
  function ActiveAsIdle(e: Entry): int { if !e.idle && e.category == "idle" then e.weight else 0 }

  function WeightAmong(categories: seq<string>): Entry -> int {
    (e: Entry) => if e.category in categories && e.category != "idle" then e.weight else 0
  }

  /** Summing the samples of the categories is summing the ledger, each entry once. */
  lemma {:induction false} GroupedSum(categories: seq<string>, samples: map<string, int>, ledger: seq<Entry>)
    requires NoRepeats(categories)
    requires forall c | c in categories :: c in samples && samples[c] >= 0
    requires forall c | c in categories && c != "idle" :: samples[c] == SumOf(WeightIn(c), ledger)
    ensures SumOf(CountOf, ActiveItems(categories, samples)) == SumOf(WeightAmong(categories), ledger)
    decreases |categories|
  {
    if categories == [] {
      SumConstant(WeightAmong(categories), 0, ledger);
    } else {
      var rest := categories[1..];
      assert forall x | x in rest :: x in categories;
      GroupedSum(rest, samples, ledger);
      hide ActiveItems;
      hide WeightIn;
      hide WeightAmong;
      FirstCategory(categories, samples);
      FirstWeight(categories, ledger);
    }
  }

  lemma FirstCategory(categories: seq<string>, samples: map<string, int>)
    requires categories != [] && forall c | c in categories :: c in samples && samples[c] >= 0
    ensures forall c | c in categories[1..] :: c in samples && samples[c] >= 0
    ensures categories[0] in samples
    ensures SumOf(CountOf, ActiveItems(categories, samples)) ==
            (if categories[0] == "idle" then 0 else samples[categories[0]]) + SumOf(CountOf, ActiveItems(categories[1..], samples))
  {
    assert forall x | x in categories[1..] :: x in categories;
    assert categories[0] in categories;
    var rest := ActiveItems(categories[1..], samples);
    if categories[0] == "idle" {
      assert ActiveItems(categories, samples) == rest;
    } else {
      assert ActiveItems(categories, samples)[1..] == rest;
    }
  }

  lemma FirstWeight(categories: seq<string>, ledger: seq<Entry>)
    requires categories != [] && NoRepeats(categories)
    ensures SumOf(WeightAmong(categories), ledger) ==
            (if categories[0] == "idle" then 0 else SumOf(WeightIn(categories[0]), ledger))
            + SumOf(WeightAmong(categories[1..]), ledger)
  {
    var c, rest := categories[0], categories[1..];
    assert forall x | x in categories :: x == c || x in rest;
    assert forall x | x in rest :: x in categories;
    assert c !in rest;
    if c == "idle" {
      SumSame(WeightAmong(categories), WeightAmong(rest), ledger);
    } else {
      SumPlus(WeightIn(c), WeightAmong(rest), WeightAmong(categories), ledger);
    }
  }

  lemma {:induction false} LedgerCategories(stacks: seq<Stack>, t: Taxonomy, from: nat, e: Entry)
    requires ValidTaxonomy(t) && from <= |stacks| && Ledger(stacks, t, from).Ok?
    requires e in Ledger(stacks, t, from).value
    ensures e.category in t.categories
    ensures IdleIsACategory(t) ==> (e.idle <==> e.category == "idle")
    decreases |stacks| - from
  {
    if stacks[from].threadName != Some(t.workerThread) || e in Ledger(stacks, t, from + 1).value {
      LedgerCategories(stacks, t, from + 1, e);
    } else {
      var k := FirstMatch(t.rules, stacks[from], t);
      assert t.rules[k] in t.rules;
    }
  }

  /** Samples and active total agree with a ledger whose categories are known. */
  ghost predicate Balanced(t: Taxonomy, samples: map<string, int>, active: int, ledger: seq<Entry>) {
    && (forall c | c in t.categories :: c in samples && samples[c] >= 0)
    && (forall c | c in t.categories && c != "idle" :: samples[c] == SumOf(WeightIn(c), ledger))
    && active == SumOf(ActiveWeight, ledger)
    && (forall e | e in ledger :: e.category in t.categories)
  }

  /** The exclusive samples sum to the active samples exactly when the idle weight booked under other
      categories equals the active weight booked under the idle category. */
  lemma ExclusiveSumIff(t: Taxonomy, samples: map<string, int>, active: int, ledger: seq<Entry>)
    requires ValidTaxonomy(t) && Balanced(t, samples, active, ledger)
    ensures SumOf(CountOf, ActiveItems(t.categories, samples)) == active
      <==> SumOf(IdleElsewhere, ledger) == SumOf(ActiveAsIdle, ledger)
  {
    GroupedSum(t.categories, samples, ledger);
    SumSame(WeightAmong(t.categories), NamedWeight, ledger);
    NamedIsActive(ledger);
  }

  lemma {:induction false} NamedIsActive(ledger: seq<Entry>)
    ensures SumOf(NamedWeight, ledger) + SumOf(ActiveAsIdle, ledger)
         == SumOf(ActiveWeight, ledger) + SumOf(IdleElsewhere, ledger)
    decreases |ledger|
  {
    if ledger != [] { NamedIsActive(ledger[1..]); }
  }

  /** With a proper idle category the exclusive samples sum to the active samples. */
  lemma ExclusiveSumHolds(t: Taxonomy, samples: map<string, int>, active: int, ledger: seq<Entry>)
    requires ValidTaxonomy(t) && Balanced(t, samples, active, ledger)
    requires forall e | e in ledger :: e.idle <==> e.category == "idle"
    ensures SumOf(CountOf, ActiveItems(t.categories, samples)) == active
  {
    ExclusiveSumIff(t, samples, active, ledger);
    SumConstant(IdleElsewhere, 0, ledger);
    SumConstant(ActiveAsIdle, 0, ledger);
  }

  lemma WindowBalanced(w: Window, stacks: seq<Stack>, t: Taxonomy)
    requires ValidTaxonomy(t) && IsWindow(w, stacks, t)
    ensures Balanced(t, w.samples, w.active, w.ledger)
    ensures IdleIsACategory(t) ==> forall e | e in w.ledger :: e.idle <==> e.category == "idle"
  {
    forall e | e in w.ledger
      ensures e.category in t.categories && (IdleIsACategory(t) ==> (e.idle <==> e.category == "idle"))
    {
      LedgerCategories(stacks, t, 0, e);
    }
  }

  /** With a proper idle category every window is conserved: its books balance. */
  lemma WindowConserved(w: Window, stacks: seq<Stack>, t: Taxonomy)
    requires ValidTaxonomy(t) && IdleIsACategory(t) && IsWindow(w, stacks, t)
    ensures SumOf(CountOf, ActiveItems(t.categories, w.samples)) == w.active
    ensures w.active + w.idle == SumOf(WeightOf, w.ledger)
  {
    WindowBalanced(w, stacks, t);
    ExclusiveSumHolds(t, w.samples, w.active, w.ledger);
    SumPlus(ActiveWeight, IdleWeight, WeightOf, w.ledger);
  }

  // ---------- Which taxonomies keep the sum ----------

  function SamplesMap(ledger: seq<Entry>, t: Taxonomy): map<string, int> {
    map c | c in t.categories :: SamplesOf(ledger, c)
  }

  /** The samples of all categories but idle, for the stacks of a ledger. */
  ghost function ExclusiveSum(ledger: seq<Entry>, t: Taxonomy): int {
    WeightsNonnegative(ledger);
    SumOf(CountOf, ActiveItems(t.categories, SamplesMap(ledger, t)))
  }

  /** It is the sum that the report of a window shows. */
  lemma WindowExclusiveSum(w: Window, stacks: seq<Stack>, t: Taxonomy)
    requires IsWindow(w, stacks, t)
    ensures SumOf(CountOf, ActiveItems(t.categories, w.samples)) == ExclusiveSum(w.ledger, t)
  {
    hide IsAllocation, Ledger, SumOf, EvidenceOf, ActiveItems;
    assert w.samples == SamplesMap(w.ledger, t);
  }

  /** In every list of stacks that can be classified the exclusive samples sum to the active samples. */
  ghost predicate AlwaysExclusive(t: Taxonomy) {
    forall stacks | Ledger(stacks, t, 0).Ok? ::
      ExclusiveSum(Ledger(stacks, t, 0).value, t) == SumOf(ActiveWeight, Ledger(stacks, t, 0).value)
  }

  /** A worker stack is idle exactly when it is booked as idle. */
  ghost predicate IdleCoincides(t: Taxonomy) {
    forall s: Stack | s.threadName == Some(t.workerThread) && ClassifyStack(s, t).Ok? ::
      ClassifyStack(s, t).value.idle <==> ClassifyStack(s, t).value.category == "idle"
  }

  lemma {:induction false} LedgerCoincides(stacks: seq<Stack>, t: Taxonomy, from: nat, e: Entry)
    requires IdleCoincides(t) && from <= |stacks| && Ledger(stacks, t, from).Ok?
    requires e in Ledger(stacks, t, from).value
    ensures e.idle <==> e.category == "idle"
    decreases |stacks| - from
  {
    hide ClassifyStack;
    if stacks[from].threadName != Some(t.workerThread) || e in Ledger(stacks, t, from + 1).value {
      LedgerCoincides(stacks, t, from + 1, e);
    }
  }

  lemma LedgerBalanced(stacks: seq<Stack>, t: Taxonomy)
    requires ValidTaxonomy(t) && Ledger(stacks, t, 0).Ok?
    ensures var ledger := Ledger(stacks, t, 0).value;
            Balanced(t, SamplesMap(ledger, t), SumOf(ActiveWeight, ledger), ledger)
  {
    hide ValidTaxonomy, Ledger, SumOf;
    var ledger := Ledger(stacks, t, 0).value;
    WeightsNonnegative(ledger);
    forall e | e in ledger ensures e.category in t.categories { LedgerCategories(stacks, t, 0, e); }
  }

  /** The weight of a stack plays no part in its classification. */
  lemma WeightIgnored(s: Stack, t: Taxonomy)
    ensures ClassifyStack(s.(weight := 1), t) == ClassifyStack(s, t)
  {
    var s' := s.(weight := 1);
    if s.frames != [] {
      forall r ensures Matches(r, s', t) == Matches(r, s, t) { }
      hide Matches;
      var k := FirstMatch(t.rules, s, t);
      FirstMatchAt(t.rules, s', t, k);
    }
  }

  lemma OneStackLedger(s: Stack, t: Taxonomy)
    requires s.threadName == Some(t.workerThread) && ClassifyStack(s, t).Ok?
    ensures var c := ClassifyStack(s, t).value;
            Ledger([s], t, 0) == Ok([Entry(0, c.category, c.ruleId, c.idle, s.weight)])
  {
    hide ClassifyStack;
    var stacks, c := [s], ClassifyStack(s, t).value;
    assert Ledger(stacks, t, 1) == Ok([]);
    var e := Entry(0, c.category, c.ruleId, c.idle, s.weight);
    assert [e] + [] == [e];
    assert Ledger(stacks, t, 0) == Ok([e] + []);
  }

  /** A misbooked stack breaks the sum by itself. */
  lemma MisbookedStack(s: Stack, t: Taxonomy)
    requires ValidTaxonomy(t) && s.threadName == Some(t.workerThread) && ClassifyStack(s, t).Ok?
    requires ClassifyStack(s, t).value.idle != (ClassifyStack(s, t).value.category == "idle")
    ensures !AlwaysExclusive(t)
  {
    var stacks := [s.(weight := 1)];
    WeightIgnored(s, t);
    OneStackLedger(stacks[0], t);
    LedgerBalanced(stacks, t);
    var ledger := Ledger(stacks, t, 0).value;
    hide ClassifyStack, Ledger, ValidTaxonomy, SumOf, ActiveItems, Balanced;
    ExclusiveSumIff(t, SamplesMap(ledger, t), SumOf(ActiveWeight, ledger), ledger);
    SumOfOne(IdleElsewhere, ledger[0]);
    SumOfOne(ActiveAsIdle, ledger[0]);
    assert ExclusiveSum(ledger, t) != SumOf(ActiveWeight, ledger);
  }

  /** A taxonomy keeps the sum for all stacks exactly when idle stacks and the idle category coincide. */
  lemma AlwaysExclusiveIff(t: Taxonomy)
    requires ValidTaxonomy(t)
    ensures AlwaysExclusive(t) <==> IdleCoincides(t)
  {
    hide ValidTaxonomy, SumOf, ActiveItems, ClassifyStack, Balanced;
    if IdleCoincides(t) {
      forall stacks | Ledger(stacks, t, 0).Ok?
        ensures ExclusiveSum(Ledger(stacks, t, 0).value, t) == SumOf(ActiveWeight, Ledger(stacks, t, 0).value)
      {
        var ledger := Ledger(stacks, t, 0).value;
        LedgerBalanced(stacks, t);
        forall e | e in ledger ensures e.idle <==> e.category == "idle" { LedgerCoincides(stacks, t, 0, e); }
        ExclusiveSumHolds(t, SamplesMap(ledger, t), SumOf(ActiveWeight, ledger), ledger);
      }
    } else {
      var s: Stack :| s.threadName == Some(t.workerThread) && ClassifyStack(s, t).Ok?
        && ClassifyStack(s, t).value.idle != (ClassifyStack(s, t).value.category == "idle");
      MisbookedStack(s, t);
    }
  }

  /** The place of the first rule for idle stacks, or the number of rules. */
  function FirstIdleRule(rules: seq<Rule>): (k: nat)
    ensures k <= |rules|
    ensures k < |rules| ==> IsIdleRule(rules[k])
    ensures forall i | 0 <= i < k :: !IsIdleRule(rules[i])
  {
    if rules == [] || IsIdleRule(rules[0]) then 0 else 1 + FirstIdleRule(rules[1..])
  }

  predicate IsIdleRule(r: Rule) { r.target == "state" && r.state == Some("idle") }

  lemma IdleTakesFirstIdleRule(s: Stack, t: Taxonomy)
    requires s.frames != [] && IsIdle(s, t)
    ensures FirstMatch(t.rules, s, t) == FirstIdleRule(t.rules)
  {
    forall r ensures Matches(r, s, t) <==> IsIdleRule(r) { }
    hide Matches;
    FirstMatchAt(t.rules, s, t, FirstIdleRule(t.rules));
  }

  /** Idle worker stacks are all booked as idle exactly when the first idle rule, if there is one, books them so,
      or no symbol is idle. This half can be read off the rules. */
  lemma IdleBookedIff(t: Taxonomy)
    ensures (forall s: Stack | s.threadName == Some(t.workerThread) && ClassifyStack(s, t).Ok?
                && ClassifyStack(s, t).value.idle :: ClassifyStack(s, t).value.category == "idle") <==>
            || FirstIdleRule(t.rules) == |t.rules| || t.rules[FirstIdleRule(t.rules)].category == "idle"
            || forall symbol :: !t.idleSymbol(symbol)
  {
    var k := FirstIdleRule(t.rules);
    forall s: Stack | s.frames != [] && IsIdle(s, t)
      ensures ClassifyStack(s, t).Ok? <==> k < |t.rules|
      ensures k < |t.rules| ==> ClassifyStack(s, t).value == Classified(t.rules[k], s, t)
    {
      IdleTakesFirstIdleRule(s, t);
    }
    if symbol :| t.idleSymbol(symbol) {
      var frame := Frame(None, Some(symbol), None);
      var s := Stack(Some(t.workerThread), [frame], 1, "");
      assert frame in s.frames && t.idleSymbol(Text(frame.symbol));
      assert IsIdle(s, t);
    }
  }

  const MISNAMED: Rule := Rule("idle-rule", "busy", "state", Some("idle"), None, None, None)

  /** A taxonomy that loads and books idle stacks under another name breaks the sum: a single idle stack
      is reported as samples of that category while no sample is active. */
  lemma MisnamedIdleBreaksTheSum(w: Window, s: Stack, t: Taxonomy)
    requires t.categories == ["busy"] && t.rules == [MISNAMED]
    requires s.frames != [] && IsIdle(s, t) && s.threadName == Some(t.workerThread) && s.weight > 0
    requires IsWindow(w, [s], t)
    ensures ValidTaxonomy(t) && !IdleIsACategory(t)
    ensures w.active == 0 && "busy" in w.samples && w.samples["busy"] == s.weight
    ensures SumOf(CountOf, ActiveItems(t.categories, w.samples)) != w.active
  {
    MisnamedLoads(t);
    MisnamedLedger(s, t);
    WindowBalanced(w, [s], t);
    ExclusiveSumIff(t, w.samples, w.active, w.ledger);
    hide Ledger, IsAllocation, ActiveItems, SumOf, ValidTaxonomy, IdleIsACategory;
    SumOfOne(ActiveWeight, w.ledger[0]);
    SumOfOne(IdleElsewhere, w.ledger[0]);
    SumOfOne(ActiveAsIdle, w.ledger[0]);
    SumOfOne(WeightIn("busy"), w.ledger[0]);
    assert "busy" in t.categories;
  }

  lemma MisnamedLoads(t: Taxonomy)
    requires t.categories == ["busy"] && t.rules == [MISNAMED]
    ensures ValidTaxonomy(t) && !IdleIsACategory(t)
  {
    assert t.rules[0] in t.rules;
    assert "busy"[0] != "idle"[0];
  }

  lemma MisnamedLedger(s: Stack, t: Taxonomy)
    requires t.rules == [MISNAMED]
    requires s.frames != [] && IsIdle(s, t) && s.threadName == Some(t.workerThread)
    ensures Ledger([s], t, 0) == Ok([Entry(0, "busy", "idle-rule", true, s.weight)])
    ensures "busy" != "idle"
  {
    hide IsIdle;
    assert "busy"[0] != "idle"[0];
    assert Matches(t.rules[0], s, t);
    FirstMatchAt(t.rules, s, t, 0);
    var stacks := [s];
    var c := Classified(MISNAMED, s, t);
    assert ClassifyStack(stacks[0], t) == Ok(c);
    assert Ledger(stacks, t, 1) == Ok([]);
    var e := Entry(0, c.category, c.ruleId, c.idle, s.weight);
    assert [e] + [] == [e];
    assert Ledger(stacks, t, 0) == Ok([e] + []);
  }

  // ---------- Pooling ----------

  datatype Pooled = Pooled(
    active: int, idle: int, samples: map<string, int>, points: map<string, int>, evidence: map<string, set<string>>)

  function ActiveOf(w: Window): int { w.active }
  function IdleOf(w: Window): int { w.idle }
  function SamplesIn(c: string): Window -> int {
    (w: Window) => if c in w.samples then w.samples[c] else 0
  }

  function EvidenceIn(windows: seq<Window>, c: string): set<string> {
    if windows == [] then {}
    else (if c in windows[0].evidence then windows[0].evidence[c] else {}) + EvidenceIn(windows[1..], c)
  }

  /** Windows as `ClassifyWindow` makes them, window `i` from the stacks `inputs[i]`. */
  ghost predicate AreWindows(windows: seq<Window>, inputs: seq<seq<Stack>>, t: Taxonomy) {
    |windows| == |inputs| && forall i | 0 <= i < |windows| :: IsWindow(windows[i], inputs[i], t)
  }

  /** The pooled result of windows. */
  ghost predicate IsPooled(p: Pooled, windows: seq<Window>, t: Taxonomy) {
    && p.active == SumOf(ActiveOf, windows) >= 0 && p.idle == SumOf(IdleOf, windows)
    && (forall c :: c in p.samples <==> c in t.categories)
    && (forall c | c in p.samples ::
          p.samples[c] == (if c == "idle" then p.idle else SumOf(SamplesIn(c), windows)) >= 0)
    && IsAllocation(ActiveItems(t.categories, p.samples), p.active, p.points)
    && (forall c :: c in p.evidence <==> c in t.categories)
    && (forall c | c in p.evidence :: p.evidence[c] == EvidenceIn(windows, c))
  }

  function Ledgers(windows: seq<Window>): seq<Entry> {
    if windows == [] then [] else windows[0].ledger + Ledgers(windows[1..])
  }

  /** What is summed window by window is summed over the joined ledgers. */
  lemma {:induction false} PooledSum(g: Window -> int, f: Entry -> int, windows: seq<Window>)
    requires forall i | 0 <= i < |windows| :: g(windows[i]) == SumOf(f, windows[i].ledger)
    ensures SumOf(g, windows) == SumOf(f, Ledgers(windows))
    decreases |windows|
  {
    if windows != [] {
      PooledSum(g, f, windows[1..]);
      SumConcat(f, windows[0].ledger, Ledgers(windows[1..]));
    }
  }

  lemma {:induction false} LedgersMember(windows: seq<Window>, e: Entry)
    ensures e in Ledgers(windows) <==> exists i :: 0 <= i < |windows| && e in windows[i].ledger
    decreases |windows|
  {
    if windows != [] {
      LedgersMember(windows[1..], e);
      if e in Ledgers(windows[1..]) {
        var i :| 0 <= i < |windows[1..]| && e in windows[1..][i].ledger;
        assert e in windows[i + 1].ledger;
      }
      if i :| 0 < i < |windows| && e in windows[i].ledger {
        assert windows[1..][i - 1] == windows[i];
      }
    }
  }

  method MergeWindows(windows: seq<Window>, ghost inputs: seq<seq<Stack>>, t: Taxonomy) returns (p: Pooled)
    requires ValidTaxonomy(t) && AreWindows(windows, inputs, t)
    ensures IsPooled(p, windows, t)
    ensures Balanced(t, p.samples, p.active, Ledgers(windows)) && p.idle == SumOf(IdleWeight, Ledgers(windows))
  {
    hide *;
    PooledNonnegative(windows, inputs, t);
    var active := SumOf(ActiveOf, windows);
    var idle := SumOf(IdleOf, windows);
    var samples := map c | c in t.categories :: if c == "idle" then idle else SumOf(SamplesIn(c), windows);
    var evidence := map c | c in t.categories :: EvidenceIn(windows, c);
    NamesOnce(t);
    ActiveItemsDictionary(t.categories, samples);
    var points := AllocateBasisPoints(ActiveItems(t.categories, samples), active);
    p := Pooled(active, idle, samples, points, evidence);
    MadePooled(p, windows, t);
    PooledBalanced(p, windows, inputs, t);
  }

  lemma NamesOnce(t: Taxonomy)
    requires ValidTaxonomy(t)
    ensures NoRepeats(t.categories)
  {
  }

  lemma MadePooled(p: Pooled, windows: seq<Window>, t: Taxonomy)
    requires p.active == SumOf(ActiveOf, windows) >= 0 && p.idle == SumOf(IdleOf, windows) >= 0
    requires forall c | c in t.categories :: SumOf(SamplesIn(c), windows) >= 0
    requires p.samples == map c | c in t.categories :: if c == "idle" then p.idle else SumOf(SamplesIn(c), windows)
    requires p.evidence == map c | c in t.categories :: EvidenceIn(windows, c)
    requires IsAllocation(ActiveItems(t.categories, p.samples), p.active, p.points)
    ensures IsPooled(p, windows, t)
  {
    hide IsAllocation, ActiveItems, SumOf, EvidenceIn, SamplesIn;
  }

  lemma PooledNonnegative(windows: seq<Window>, inputs: seq<seq<Stack>>, t: Taxonomy)
    requires AreWindows(windows, inputs, t)
    ensures SumOf(ActiveOf, windows) >= 0 && SumOf(IdleOf, windows) >= 0
    ensures forall c | c in t.categories :: SumOf(SamplesIn(c), windows) >= 0
  {
    forall i | 0 <= i < |windows| ensures windows[i].active >= 0 && windows[i].idle >= 0 {
      assert IsWindow(windows[i], inputs[i], t);
      WeightsNonnegative(windows[i].ledger);
    }
    SumNonnegative(ActiveOf, windows);
    SumNonnegative(IdleOf, windows);
    forall c | c in t.categories ensures SumOf(SamplesIn(c), windows) >= 0 {
      forall w | w in windows ensures SamplesIn(c)(w) >= 0 {
        var i :| 0 <= i < |windows| && windows[i] == w;
        assert IsWindow(windows[i], inputs[i], t);
      }
      SumNonnegative(SamplesIn(c), windows);
    }
  }

  lemma PooledEntry(windows: seq<Window>, inputs: seq<seq<Stack>>, t: Taxonomy, e: Entry)
    requires ValidTaxonomy(t) && AreWindows(windows, inputs, t) && e in Ledgers(windows)
    ensures e.category in t.categories && (IdleIsACategory(t) ==> (e.idle <==> e.category == "idle"))
  {
    LedgersMember(windows, e);
    var i :| 0 <= i < |windows| && e in windows[i].ledger;
    assert IsWindow(windows[i], inputs[i], t);
    LedgerCategories(inputs[i], t, 0, e);
  }

  lemma PooledSums(windows: seq<Window>, inputs: seq<seq<Stack>>, t: Taxonomy)
    requires AreWindows(windows, inputs, t)
    ensures SumOf(ActiveOf, windows) == SumOf(ActiveWeight, Ledgers(windows))
    ensures SumOf(IdleOf, windows) == SumOf(IdleWeight, Ledgers(windows))
    ensures forall c | c in t.categories && c != "idle" ::
              SumOf(SamplesIn(c), windows) == SumOf(WeightIn(c), Ledgers(windows))
  {
    forall i | 0 <= i < |windows| ensures IsWindow(windows[i], inputs[i], t) { }
    PooledSum(ActiveOf, ActiveWeight, windows);
    PooledSum(IdleOf, IdleWeight, windows);
    forall c | c in t.categories && c != "idle"
      ensures SumOf(SamplesIn(c), windows) == SumOf(WeightIn(c), Ledgers(windows))
    {
      PooledSum(SamplesIn(c), WeightIn(c), windows);
    }
  }

  /** Pooling windows gives the books of one window over the joined ledgers. */
  lemma PooledBalanced(p: Pooled, windows: seq<Window>, inputs: seq<seq<Stack>>, t: Taxonomy)
    requires ValidTaxonomy(t) && AreWindows(windows, inputs, t) && IsPooled(p, windows, t)
    ensures Balanced(t, p.samples, p.active, Ledgers(windows))
    ensures p.idle == SumOf(IdleWeight, Ledgers(windows))
    ensures IdleIsACategory(t) ==> forall e | e in Ledgers(windows) :: e.idle <==> e.category == "idle"
  {
    hide AreWindows, ValidTaxonomy, SumOf, IdleIsACategory, Ledgers, IsAllocation;
    PooledSums(windows, inputs, t);
    forall e | e in Ledgers(windows)
      ensures e.category in t.categories && (IdleIsACategory(t) ==> (e.idle <==> e.category == "idle"))
    {
      PooledEntry(windows, inputs, t, e);
    }
  }

  // ---------- The gate ----------

  datatype Gate = Gate(
    exclusiveSum: bool, shareSum: bool, coverage: bool, unknownLimit: bool, evidence: bool, ledgers: bool)

  function PointsAt(points: map<string, int>): Item -> int {
    (i: Item) => if i.category in points then points[i.category] else 0
  }

  const UNCLASSIFIED := "unclassified_phrust"
  const UNRESOLVED := "unresolved"

  function Get(m: map<string, int>, c: string): int { if c in m then m[c] else 0 }

  function UnknownSamples(p: Pooled): int { Get(p.samples, UNCLASSIFIED) + Get(p.samples, UNRESOLVED) }
  function UnknownPoints(p: Pooled): int { Get(p.points, UNCLASSIFIED) + Get(p.points, UNRESOLVED) }

  /** At least 90 percent of the active samples have an actionable name. */
  predicate CoveragePasses(unknown: int, active: int) {
    active > 0 && (active - unknown) * 100 >= active * 90
  }

  ghost function EvaluateGate(p: Pooled, windows: seq<Window>, t: Taxonomy): Gate
    requires forall c | c in t.categories :: c in p.samples && p.samples[c] >= 0 && c in p.evidence
  {
    var items := ActiveItems(t.categories, p.samples);
    Gate(
      SumOf(CountOf, items) == p.active,
      SumOf(PointsAt(p.points), items) == 10_000,
      CoveragePasses(UnknownSamples(p), p.active),
      UnknownPoints(p) <= 1_000,
      forall c | c in t.categories && c != "idle" && p.samples[c] > 0 :: p.evidence[c] != {},
      forall w | w in windows ::
        && SumOf(ActiveWeight, w.ledger) == w.active && SumOf(IdleWeight, w.ledger) == w.idle
        && forall e | e in w.ledger :: e.ruleId != "")
  }

  lemma PooledShareSum(p: Pooled, windows: seq<Window>, t: Taxonomy)
    requires ValidTaxonomy(t) && IsPooled(p, windows, t)
    requires SumOf(CountOf, ActiveItems(t.categories, p.samples)) == p.active
    ensures SumOf(PointsAt(p.points), ActiveItems(t.categories, p.samples)) == (if p.active > 0 then 10_000 else 0)
  {
    var items := ActiveItems(t.categories, p.samples);
    ActiveItemsDictionary(t.categories, p.samples);
    if p.active > 0 {
      SumIsWhole(items, p.active);
      SumSame(PointsAt(p.points), PointsIn(items, p.active), items);
    } else {
      SumConstant(PointsAt(p.points), 0, items);
    }
  }

  lemma {:induction false} EvidenceUnion(windows: seq<Window>, c: string, i: nat)
    requires i < |windows| && c in windows[i].evidence
    ensures windows[i].evidence[c] <= EvidenceIn(windows, c)
    decreases |windows|
  {
    if i > 0 {
      assert windows[1..][i - 1] == windows[i];
      EvidenceUnion(windows[1..], c, i - 1);
    }
  }

  lemma {:induction false} PositiveSum<T>(f: T -> int, s: seq<T>) returns (x: T)
    requires SumOf(f, s) > 0
    ensures x in s && f(x) > 0
    decreases |s|
  {
    if f(s[0]) > 0 {
      x := s[0];
    } else {
      x := PositiveSum(f, s[1..]);
    }
  }

  lemma WindowEvidence(w: Window, stacks: seq<Stack>, t: Taxonomy, c: string)
    requires ValidTaxonomy(t) && IdleIsACategory(t) && IsWindow(w, stacks, t)
    requires c in t.categories && c != "idle" && w.samples[c] > 0
    ensures w.evidence[c] != {}
  {
    var e := PositiveSum(WeightIn(c), w.ledger);
    LedgerCategories(stacks, t, 0, e);
    LedgerIndex(stacks, t, 0, e);
    assert stacks[e.index].folded in EvidenceOf(stacks, w.ledger, c);
  }

  lemma PooledEvidence(p: Pooled, windows: seq<Window>, inputs: seq<seq<Stack>>, t: Taxonomy, c: string)
    requires ValidTaxonomy(t) && IdleIsACategory(t) && AreWindows(windows, inputs, t) && IsPooled(p, windows, t)
    requires c in t.categories && c != "idle" && p.samples[c] > 0
    ensures p.evidence[c] != {}
  {
    hide ValidTaxonomy, IdleIsACategory, SumOf, IsAllocation, Ledger, EvidenceOf;
    var w := PositiveSum(SamplesIn(c), windows);
    var i :| 0 <= i < |windows| && windows[i] == w;
    assert IsWindow(windows[i], inputs[i], t);
    WindowEvidence(w, inputs[i], t, c);
    EvidenceUnion(windows, c, i);
  }

  lemma {:induction false} LedgerIndex(stacks: seq<Stack>, t: Taxonomy, from: nat, e: Entry)
    requires from <= |stacks| && Ledger(stacks, t, from).Ok? && e in Ledger(stacks, t, from).value
    ensures e.index < |stacks|
    decreases |stacks| - from
  {
    if stacks[from].threadName != Some(t.workerThread) || e in Ledger(stacks, t, from + 1).value {
      LedgerIndex(stacks, t, from + 1, e);
    }
  }

  /** With a proper idle category the arithmetic checks of the gate hold by construction: the exclusive
      sum and the evidence always, the ledgers exactly when no stack was booked under a rule with an empty
      name, and the share sum exactly when something was active. */
  lemma GateHolds(p: Pooled, windows: seq<Window>, inputs: seq<seq<Stack>>, t: Taxonomy)
    requires ValidTaxonomy(t) && IdleIsACategory(t) && AreWindows(windows, inputs, t) && IsPooled(p, windows, t)
    ensures var gate := EvaluateGate(p, windows, t);
            && gate.exclusiveSum && gate.evidence && (gate.shareSum <==> p.active > 0)
            && (gate.ledgers <==> forall e | e in Ledgers(windows) :: e.ruleId != "")
  {
    PooledBalanced(p, windows, inputs, t);
    ExclusiveSumHolds(t, p.samples, p.active, Ledgers(windows));
    PooledShareSum(p, windows, t);
    forall c | c in t.categories && c != "idle" && p.samples[c] > 0 ensures p.evidence[c] != {} {
      PooledEvidence(p, windows, inputs, t, c);
    }
    forall w | w in windows
      ensures SumOf(ActiveWeight, w.ledger) == w.active && SumOf(IdleWeight, w.ledger) == w.idle
    {
      var i :| 0 <= i < |windows| && windows[i] == w;
      assert IsWindow(windows[i], inputs[i], t);
    }
    NamedRules(windows);
  }

  lemma NamedRules(windows: seq<Window>)
    ensures (forall e | e in Ledgers(windows) :: e.ruleId != "") <==>
            forall w | w in windows :: forall e | e in w.ledger :: e.ruleId != ""
  {
    forall e ensures e in Ledgers(windows) <==> exists w | w in windows :: e in w.ledger {
      LedgersMember(windows, e);
      if i :| 0 <= i < |windows| && e in windows[i].ledger { assert windows[i] in windows; }
    }
  }

  /** Coverage passes exactly when something was active and at most a tenth of it is unclassified or unresolved; the
      limit on unknown shares is ten percent in basis points. */
  lemma CoverageIff(p: Pooled, windows: seq<Window>, t: Taxonomy)
    requires forall c | c in t.categories :: c in p.samples && p.samples[c] >= 0 && c in p.evidence
    requires "unclassified_phrust" in p.samples && "unresolved" in p.samples
    requires "unclassified_phrust" in p.points && "unresolved" in p.points
    ensures EvaluateGate(p, windows, t).coverage <==>
            p.active > 0 && 10 * (p.samples["unclassified_phrust"] + p.samples["unresolved"]) <= p.active
    ensures EvaluateGate(p, windows, t).unknownLimit <==>
            p.points["unclassified_phrust"] + p.points["unresolved"] <= 1_000
  {
    hide ActiveItems, SumOf;
  }

  lemma PooledQuota(p: Pooled, windows: seq<Window>, inputs: seq<seq<Stack>>, t: Taxonomy, c: string)
    requires ValidTaxonomy(t) && IdleIsACategory(t) && AreWindows(windows, inputs, t) && IsPooled(p, windows, t)
    requires p.active > 0 && c in t.categories && c != "idle"
    ensures c in p.points
    ensures (p.points[c] - 1) * p.active < p.samples[c] * 10_000 < (p.points[c] + 1) * p.active
  {
    hide ValidTaxonomy, IdleIsACategory, AreWindows, Balanced, ActiveItems, SumOf, IsAllocation;
    var i := Item(c, p.samples[c]);
    PooledBalanced(p, windows, inputs, t);
    ExclusiveSumHolds(t, p.samples, p.active, Ledgers(windows));
    ActiveItemsMember(t.categories, p.samples, i);
    AllocationWithinQuota(ActiveItems(t.categories, p.samples), p.active, p.points, i);
  }

  /** The exact coverage check and the rounded limit on unknown shares differ by rounding only. */
  lemma GatesDifferByRounding(p: Pooled, windows: seq<Window>, inputs: seq<seq<Stack>>, t: Taxonomy)
    requires ValidTaxonomy(t) && IdleIsACategory(t) && AreWindows(windows, inputs, t) && IsPooled(p, windows, t)
    requires p.active > 0 && UNCLASSIFIED in t.categories && UNRESOLVED in t.categories
    ensures CoveragePasses(UnknownSamples(p), p.active) ==> UnknownPoints(p) <= 1_001
    ensures UnknownPoints(p) <= 1_000 ==> UnknownSamples(p) * 10_000 < 1_002 * p.active
  {
    hide ValidTaxonomy, IdleIsACategory, SumOf, AreWindows, IsAllocation;
    PooledQuota(p, windows, inputs, t, UNCLASSIFIED);
    PooledQuota(p, windows, inputs, t, UNRESOLVED);
    RoundingGap(p.active, p.samples[UNCLASSIFIED], p.samples[UNRESOLVED],
                p.points[UNCLASSIFIED], p.points[UNRESOLVED]);
  }

  lemma RoundingGap(active: int, a: int, b: int, p: int, q: int)
    requires active > 0
    requires (p - 1) * active < a * 10_000 < (p + 1) * active
    requires (q - 1) * active < b * 10_000 < (q + 1) * active
    ensures (active - (a + b)) * 100 >= active * 90 ==> p + q <= 1_001
    ensures p + q <= 1_000 ==> (a + b) * 10_000 < 1_002 * active
  {
    assert (p - 1) * active + (q - 1) * active == (p + q - 2) * active;
    assert (p + 1) * active + (q + 1) * active == (p + q + 2) * active;
    if p + q >= 1_002 { TimesMonotone(1_000, p + q - 2, active); }
    if p + q <= 1_000 { TimesMonotone(p + q + 2, 1_002, active); }
  }
}
