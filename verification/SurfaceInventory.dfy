/** The inventory of the native PHP surface: how rows are merged, sorted and grouped, and that the
    validator accepts what the builder makes. */
module SurfaceInventory {
  import opened Options
  import opened Sorting
  import opened SurfaceSupport

  datatype Api = Api(kind: string, class_: Option<string>, name: string)

  datatype Registered = Registered(name: string, builtin: bool)

  /** The inputs besides the rows. `lower` is the lower-case form of a name; `available` and `builtin` are
      the registry's answers for entries that are not functions; `probes` gives the evidence for a key. */
  datatype Sources = Sources(
    lower: string -> string, registered: seq<Registered>, available: Api -> bool, builtin: Api -> bool,
    probes: seq<string> -> seq<Probe>, render: (Option<Value>, Option<string>) -> string)

  datatype Row = Row(kind: string, class_: Option<string>, name: string, registered: bool, supportClass: string)

  datatype Inventory = Inventory(functions: seq<Row>, methods: seq<Row>, classes: seq<Row>, constants: seq<Row>,
                                 languageOperations: seq<Row>)

  const CLASS_KINDS: set<string> := {"class", "interface", "trait", "enum"}
  const CONSTANT_KINDS: set<string> := {"constant", "class_constant"}

  function ClassName(class_: Option<string>): string {
    if class_.None? then "" else class_.value
  }

  function KeyOf(lower: string -> string, kind: string, class_: Option<string>, name: string): seq<string> {
    [kind, lower(ClassName(class_)), lower(name)]
  }

  function ApiKey(lower: string -> string): Api -> seq<string> {
    (a: Api) => KeyOf(lower, a.kind, a.class_, a.name)
  }

  function RowKey(lower: string -> string): Row -> seq<string> {
    (r: Row) => KeyOf(lower, r.kind, r.class_, r.name)
  }

  // ---------- The registry ----------

  function LowerName(lower: string -> string): Registered -> string {
    (r: Registered) => lower(r.name)
  }

  /** Two registered functions with one lower-case name are an error. */
  method LoadFunctions(rows: seq<Registered>, lower: string -> string) returns (r: Option<seq<Registered>>)
    ensures r == if DistinctKeys(LowerName(lower), rows) then Some(rows) else None
  {
    var keys: set<string> := {};
    for i := 0 to |rows|
      invariant forall k :: k in keys <==> exists j | 0 <= j < i :: lower(rows[j].name) == k
      invariant forall a, b | 0 <= a < b < i :: lower(rows[a].name) != lower(rows[b].name)
    {
      if lower(rows[i].name) in keys {
        var j :| 0 <= j < i && lower(rows[j].name) == lower(rows[i].name);
        assert LowerName(lower)(rows[j]) == LowerName(lower)(rows[i]);
        return None;
      }
      keys := keys + {lower(rows[i].name)};
    }
    r := Some(rows);
  }

  function Find(lower: string -> string, rs: seq<Registered>, name: string): (r: Option<Registered>)
    ensures r.Some? <==> exists x | x in rs :: lower(x.name) == lower(name)
  {
    if rs == [] then None
    else if lower(rs[0].name) == lower(name) then Some(rs[0])
    else
      assert forall x | x in rs :: x == rs[0] || x in rs[1..];
      Find(lower, rs[1..], name)
  }

  // ---------- One row ----------

  function IsAvailable(env: Sources, api: Api): bool {
    if api.kind == "function" then Find(env.lower, env.registered, api.name).Some? else env.available(api)
  }

  function IsBuiltin(env: Sources, api: Api): bool {
    if api.kind == "function" then
      var row := Find(env.lower, env.registered, api.name);
      row.Some? && row.value.builtin
    else env.builtin(api)
  }

  /** No function is dispatched directly: the set of direct functions is empty. */
  function Route(env: Sources, api: Api): string {
    if !IsBuiltin(env, api) then "unavailable"
    else if api.kind == "function" then "native_generic_builtin"
    else if api.kind == "method" then "native_class_method_dispatch"
    else "native_typed_runtime"
  }

  /** Older manifests list a method without its class, under `class::method`. */
  function EvidenceFor(env: Sources, api: Api): seq<Probe> {
    var evidence := env.probes(KeyOf(env.lower, api.kind, api.class_, api.name));
    if api.kind == "method" && evidence == [] then
      var owner := if api.class_.None? then "None" else api.class_.value;
      env.probes([api.kind, "", env.lower(owner) + "::" + env.lower(api.name)])
    else evidence
  }

  function SurfaceRow(env: Sources, api: Api): Row {
    Row(api.kind, api.class_, api.name, IsAvailable(env, api),
        ClassifySupport(IsAvailable(env, api), IsBuiltin(env, api), Route(env, api),
                        Summarize(EvidenceFor(env, api)), env.render))
  }

  /** A row is natively supported exactly when its evidence demonstrates it; registration decides nothing. */
  lemma RowNativeIff(env: Sources, api: Api)
    ensures SurfaceRow(env, api).supportClass in NATIVE <==> Demonstrated(EvidenceFor(env, api))
    ensures Demonstrated(EvidenceFor(env, api)) ==>
              SurfaceRow(env, api).supportClass ==
              if api.kind == "function" && IsBuiltin(env, api) then "native_generic_builtin" else "native_typed_runtime"
    ensures SurfaceRow(env, api).supportClass in LEGAL
    ensures SurfaceRow(env, api).supportClass != "native_direct"
  {
    hide Mentions;
    hide Summarize;
    hide Demonstrated;
    NativeIff(IsAvailable(env, api), IsBuiltin(env, api), Route(env, api), EvidenceFor(env, api), env.render);
    AlwaysLegal(IsAvailable(env, api), IsBuiltin(env, api), Route(env, api), Summarize(EvidenceFor(env, api)), env.render);
    RouteIsNotDirect(env, api);
    assert |"native_direct"| == 13 && |UNAVAILABLE| == 47 && |"crash_or_timeout"| == 16;
  }

  lemma RouteIsNotDirect(env: Sources, api: Api)
    ensures Route(env, api) != "native_direct"
  {
    assert |"native_direct"| == 13 && |"unavailable"| == 11 && |"native_generic_builtin"| == 22;
    assert |"native_class_method_dispatch"| == 28 && |"native_typed_runtime"| == 20;
  }

  // ---------- Merging ----------

  /** Assignment in a dictionary: a later row replaces the earlier one in its place. */
  function Upsert(lower: string -> string, rows: seq<Api>, api: Api): seq<Api> {
    if rows == [] then [api]
    else if ApiKey(lower)(rows[0]) == ApiKey(lower)(api) then [api] + rows[1..]
    else [rows[0]] + Upsert(lower, rows[1..], api)
  }

  predicate HasKey(lower: string -> string, rows: seq<Api>, key: seq<string>) {
    exists i | 0 <= i < |rows| :: ApiKey(lower)(rows[i]) == key
  }

  function SetDefault(lower: string -> string, rows: seq<Api>, api: Api): seq<Api> {
    if HasKey(lower, rows, ApiKey(lower)(api)) then rows else rows + [api]
  }

  function FunctionRow(r: Registered): Api { Api("function", None, r.name) }

  function MergeApi(lower: string -> string, apis: seq<Api>, n: nat): seq<Api>
    requires n <= |apis|
  {
    if n == 0 then [] else Upsert(lower, MergeApi(lower, apis, n - 1), apis[n - 1])
  }

  /** API rows by key, the last one for a key winning, then registered functions the API rows miss. */
  function Merged(lower: string -> string, apis: seq<Api>, registered: seq<Registered>, n: nat): seq<Api>
    requires n <= |registered|
  {
    if n == 0 then MergeApi(lower, apis, |apis|)
    else SetDefault(lower, Merged(lower, apis, registered, n - 1), FunctionRow(registered[n - 1]))
  }

  lemma {:induction false} UpsertMembers(lower: string -> string, rows: seq<Api>, api: Api)
    requires DistinctKeys(ApiKey(lower), rows)
    ensures DistinctKeys(ApiKey(lower), Upsert(lower, rows, api))
    ensures forall x :: x in Upsert(lower, rows, api) <==>
                        x == api || (x in rows && ApiKey(lower)(x) != ApiKey(lower)(api))
    decreases |rows|
  {
    if rows != [] {
      var rest := rows[1..];
      UpsertMembers(lower, rest, api);
      forall x | x in rest ensures ApiKey(lower)(x) != ApiKey(lower)(rows[0]) {
        var i :| 0 <= i < |rest| && rest[i] == x;
        assert rows[i + 1] == x;
      }
      assert forall x | x in rows :: x == rows[0] || x in rest;
      if ApiKey(lower)(rows[0]) != ApiKey(lower)(api) {
        var out := Upsert(lower, rest, api);
        forall j | 0 <= j < |out| ensures ApiKey(lower)(rows[0]) != ApiKey(lower)(out[j]) {
          assert out[j] in out;
        }
      }
    }
  }

  lemma {:induction false} MergeApiDistinct(lower: string -> string, apis: seq<Api>, n: nat)
    requires n <= |apis|
    ensures DistinctKeys(ApiKey(lower), MergeApi(lower, apis, n))
    decreases n
  {
    hide Upsert;
    if n != 0 {
      MergeApiDistinct(lower, apis, n - 1);
      UpsertMembers(lower, MergeApi(lower, apis, n - 1), apis[n - 1]);
    }
  }

  predicate LastWithKey(lower: string -> string, apis: seq<Api>, n: nat, i: nat)
    requires i < n <= |apis|
  {
    forall j | i < j < n :: ApiKey(lower)(apis[j]) != ApiKey(lower)(apis[i])
  }

  /** The rows kept are the last ones of their keys. */
  lemma {:induction false} LastRowWins(lower: string -> string, apis: seq<Api>, n: nat, x: Api)
    requires n <= |apis|
    ensures x in MergeApi(lower, apis, n) <==> exists i | 0 <= i < n :: apis[i] == x && LastWithKey(lower, apis, n, i)
    decreases n
  {
    hide *;
    if n == 0 {
      NoApi(lower, apis);
    } else {
      var before := MergeApi(lower, apis, n - 1);
      MergeApiStep(lower, apis, n - 1);
      MergeApiDistinct(lower, apis, n - 1);
      UpsertMembers(lower, before, apis[n - 1]);
      LastRowWins(lower, apis, n - 1, x);
      LastStep(lower, apis, n, x);
    }
  }

  lemma NoApi(lower: string -> string, apis: seq<Api>)
    ensures MergeApi(lower, apis, 0) == []
  {
  }

  lemma LastStep(lower: string -> string, apis: seq<Api>, n: nat, x: Api)
    requires 0 < n <= |apis|
    ensures (exists i | 0 <= i < n :: apis[i] == x && LastWithKey(lower, apis, n, i)) <==>
            || x == apis[n - 1]
            || (&& ApiKey(lower)(x) != ApiKey(lower)(apis[n - 1])
                && exists i | 0 <= i < n - 1 :: apis[i] == x && LastWithKey(lower, apis, n - 1, i))
  {
    hide ApiKey;
    if x == apis[n - 1] {
      assert LastWithKey(lower, apis, n, n - 1);
    } else if i :| 0 <= i < n && apis[i] == x && LastWithKey(lower, apis, n, i) {
      assert LastWithKey(lower, apis, n - 1, i);
    } else if ApiKey(lower)(x) != ApiKey(lower)(apis[n - 1]) {
      forall i | 0 <= i < n - 1 && apis[i] == x ensures !LastWithKey(lower, apis, n - 1, i) {
        assert !LastWithKey(lower, apis, n, i);
      }
    }
  }

  lemma {:induction false} MergedDistinct(lower: string -> string, apis: seq<Api>, registered: seq<Registered>, n: nat)
    requires n <= |registered|
    ensures DistinctKeys(ApiKey(lower), Merged(lower, apis, registered, n))
    decreases n
  {
    hide MergeApi;
    if n == 0 {
      MergeApiDistinct(lower, apis, |apis|);
    } else {
      MergedDistinct(lower, apis, registered, n - 1);
    }
  }

  lemma {:induction false} MergedCovers(lower: string -> string, apis: seq<Api>, registered: seq<Registered>, n: nat, i: nat)
    requires i < n <= |registered|
    ensures HasKey(lower, Merged(lower, apis, registered, n), ApiKey(lower)(FunctionRow(registered[i])))
    decreases n
  {
    hide MergeApi;
    var before := Merged(lower, apis, registered, n - 1);
    var after := Merged(lower, apis, registered, n);
    if i < n - 1 {
      MergedCovers(lower, apis, registered, n - 1, i);
      var k :| 0 <= k < |before| && ApiKey(lower)(before[k]) == ApiKey(lower)(FunctionRow(registered[i]));
      assert after[k] == before[k];
    } else if !HasKey(lower, before, ApiKey(lower)(FunctionRow(registered[i]))) {
      assert after[|before|] == FunctionRow(registered[i]);
    }
  }

  // ---------- Sorting and grouping ----------

  predicate KeyLe(a: seq<string>, b: seq<string>) { LexLe(StringLe, a, b) }

  lemma KeyTotalOrder()
    ensures TotalOrder(KeyLe)
  {
    StringTotalOrder();
    LexTotalOrder(StringLe, KeyLe);
  }

  function ByKey(lower: string -> string): (Api, Api) -> bool {
    (a: Api, b: Api) => KeyLe(ApiKey(lower)(a), ApiKey(lower)(b))
  }

  function SortedRows(env: Sources, apis: seq<Api>): seq<Api> {
    Sort(ByKey(env.lower), Merged(env.lower, apis, env.registered, |env.registered|))
  }

  datatype Group = Functions | Methods | Classes | Constants

  function GroupOf(kind: string): Option<Group> {
    if kind == "function" then Some(Functions)
    else if kind == "method" then Some(Methods)
    else if kind in CLASS_KINDS then Some(Classes)
    else if kind in CONSTANT_KINDS then Some(Constants)
    else None
  }

  /** The surface rows of the first `n` entries that belong to a group, in order. */
  function RowsOf(env: Sources, apis: seq<Api>, n: nat, g: Group): seq<Row>
    requires n <= |apis|
  {
    if n == 0 then []
    else RowsOf(env, apis, n - 1, g) + if GroupOf(apis[n - 1].kind) == Some(g) then [SurfaceRow(env, apis[n - 1])] else []
  }

  /** Rows of unknown kinds are dropped. */
  method BuildInventory(env: Sources, apis: seq<Api>, languageOperations: seq<Row>) returns (inv: Inventory)
    ensures var rows := SortedRows(env, apis);
            && inv.functions == RowsOf(env, rows, |rows|, Functions) && inv.methods == RowsOf(env, rows, |rows|, Methods)
            && inv.classes == RowsOf(env, rows, |rows|, Classes) && inv.constants == RowsOf(env, rows, |rows|, Constants)
            && inv.languageOperations == languageOperations
  {
    hide *;
    NothingMerged(env, apis);
    var rows := [];
    for i := 0 to |apis|
      invariant rows == MergeApi(env.lower, apis, i)
    {
      MergeApiStep(env.lower, apis, i);
      rows := Upsert(env.lower, rows, apis[i]);
    }
    for i := 0 to |env.registered|
      invariant rows == Merged(env.lower, apis, env.registered, i)
    {
      MergedStep(env.lower, apis, env.registered, i);
      rows := SetDefault(env.lower, rows, FunctionRow(env.registered[i]));
    }
    IsSorted(env, apis);
    var sorted := Sort(ByKey(env.lower), rows);
    var functions, methods, classes, constants := [], [], [], [];
    NoRows(env, sorted);
    for i := 0 to |sorted|
      invariant functions == RowsOf(env, sorted, i, Functions) && methods == RowsOf(env, sorted, i, Methods)
      invariant classes == RowsOf(env, sorted, i, Classes) && constants == RowsOf(env, sorted, i, Constants)
    {
      RowsStep(env, sorted, i);
      var group := GroupOf(sorted[i].kind);
      if group == Some(Functions) {
        functions := functions + [SurfaceRow(env, sorted[i])];
      } else if group == Some(Methods) {
        methods := methods + [SurfaceRow(env, sorted[i])];
      } else if group == Some(Classes) {
        classes := classes + [SurfaceRow(env, sorted[i])];
      } else if group == Some(Constants) {
        constants := constants + [SurfaceRow(env, sorted[i])];
      }
    }
    inv := Inventory(functions, methods, classes, constants, languageOperations);
  }

  lemma NothingMerged(env: Sources, apis: seq<Api>)
    ensures MergeApi(env.lower, apis, 0) == []
    ensures Merged(env.lower, apis, env.registered, 0) == MergeApi(env.lower, apis, |apis|)
  {
  }

  lemma MergeApiStep(lower: string -> string, apis: seq<Api>, i: nat)
    requires i < |apis|
    ensures MergeApi(lower, apis, i + 1) == Upsert(lower, MergeApi(lower, apis, i), apis[i])
  {
  }

  lemma MergedStep(lower: string -> string, apis: seq<Api>, registered: seq<Registered>, i: nat)
    requires i < |registered|
    ensures Merged(lower, apis, registered, i + 1) ==
            SetDefault(lower, Merged(lower, apis, registered, i), FunctionRow(registered[i]))
  {
  }

  lemma IsSorted(env: Sources, apis: seq<Api>)
    ensures SortedRows(env, apis) == Sort(ByKey(env.lower), Merged(env.lower, apis, env.registered, |env.registered|))
  {
  }

  lemma NoRows(env: Sources, apis: seq<Api>)
    ensures forall g :: RowsOf(env, apis, 0, g) == []
  {
  }

  lemma RowsStep(env: Sources, apis: seq<Api>, i: nat)
    requires i < |apis|
    ensures forall g :: RowsOf(env, apis, i + 1, g) ==
              if GroupOf(apis[i].kind) == Some(g) then RowsOf(env, apis, i, g) + [SurfaceRow(env, apis[i])]
              else RowsOf(env, apis, i, g)
  {
    hide SurfaceRow;
    hide GroupOf;
  }

  // ---------- Validation ----------

  ghost predicate GroupValid(lower: string -> string, rows: seq<Row>) {
    (forall r | r in rows :: r.supportClass in LEGAL) && DistinctKeys(RowKey(lower), rows)
  }

  function Inventoried(lower: string -> string, rows: seq<Row>): set<string> {
    set r | r in rows && r.registered :: lower(r.name)
  }

  function RegisteredNames(env: Sources): set<string> {
    set r | r in env.registered :: env.lower(r.name)
  }

  ghost predicate Valid(env: Sources, inv: Inventory, strict: bool) {
    && GroupValid(env.lower, inv.functions) && GroupValid(env.lower, inv.methods)
    && GroupValid(env.lower, inv.classes) && GroupValid(env.lower, inv.constants)
    && GroupValid(env.lower, inv.languageOperations)
    && Inventoried(env.lower, inv.functions) == RegisteredNames(env)
    && (strict ==> inv.languageOperations != [])
  }

  method ValidateGroup(lower: string -> string, rows: seq<Row>) returns (ok: bool)
    ensures ok <==> GroupValid(lower, rows)
  {
    hide RowKey;
    var keys: set<seq<string>> := {};
    for i := 0 to |rows|
      invariant forall k :: k in keys <==> exists j | 0 <= j < i :: RowKey(lower)(rows[j]) == k
      invariant forall j | 0 <= j < i :: rows[j].supportClass in LEGAL
      invariant forall a, b | 0 <= a < b < i :: RowKey(lower)(rows[a]) != RowKey(lower)(rows[b])
    {
      if rows[i].supportClass !in LEGAL {
        assert rows[i] in rows;
        return false;
      }
      var key := RowKey(lower)(rows[i]);
      if key in keys {
        var j :| 0 <= j < i && RowKey(lower)(rows[j]) == key;
        assert !DistinctKeys(RowKey(lower), rows);
        return false;
      }
      keys := keys + {key};
    }
    ok := true;
  }

  method ValidateInventory(env: Sources, inv: Inventory, strict: bool) returns (ok: bool)
    ensures ok <==> Valid(env, inv, strict)
  {
    hide GroupValid;
    var groups := [inv.functions, inv.methods, inv.classes, inv.constants, inv.languageOperations];
    for i := 0 to |groups|
      invariant forall j | 0 <= j < i :: GroupValid(env.lower, groups[j])
    {
      var valid := ValidateGroup(env.lower, groups[i]);
      if !valid { return false; }
    }
    assert forall j | 0 <= j < 5 :: GroupValid(env.lower, groups[j]);
    assert groups[0] == inv.functions && groups[1] == inv.methods && groups[2] == inv.classes
        && groups[3] == inv.constants && groups[4] == inv.languageOperations;
    if Inventoried(env.lower, inv.functions) != RegisteredNames(env) { return false; }
    ok := !strict || inv.languageOperations != [];
  }

  // ---------- The builder satisfies the validator ----------

  lemma {:induction false} RowsOfMembers(env: Sources, apis: seq<Api>, n: nat, g: Group)
    requires n <= |apis|
    ensures forall r :: r in RowsOf(env, apis, n, g) <==>
              exists i | 0 <= i < n :: GroupOf(apis[i].kind) == Some(g) && r == SurfaceRow(env, apis[i])
    decreases n
  {
    hide *;
    if n == 0 {
      NoRows(env, apis);
    } else {
      RowsOfMembers(env, apis, n - 1, g);
      RowsStep(env, apis, n - 1);
      var before, after := RowsOf(env, apis, n - 1, g), RowsOf(env, apis, n, g);
      forall r
        ensures r in after <==>
                exists i | 0 <= i < n :: GroupOf(apis[i].kind) == Some(g) && r == SurfaceRow(env, apis[i])
      {
        assert r in after <==> r in before || (GroupOf(apis[n - 1].kind) == Some(g) && r == SurfaceRow(env, apis[n - 1]));
      }
    }
  }

  lemma {:induction false} RowsOfDistinct(env: Sources, apis: seq<Api>, n: nat, g: Group)
    requires n <= |apis| && DistinctKeys(ApiKey(env.lower), apis)
    ensures DistinctKeys(RowKey(env.lower), RowsOf(env, apis, n, g))
    decreases n
  {
    hide *;
    RowsStart(env, apis, g);
    if n != 0 {
      RowsOfDistinct(env, apis, n - 1, g);
      RowsStep(env, apis, n - 1);
      var before := RowsOf(env, apis, n - 1, g);
      forall r | r in before ensures RowKey(env.lower)(r) != RowKey(env.lower)(SurfaceRow(env, apis[n - 1])) {
        EarlierRowDiffers(env, apis, n - 1, g, r);
      }
      DistinctAppend(RowKey(env.lower), before, SurfaceRow(env, apis[n - 1]));
    }
  }

  lemma RowsStart(env: Sources, apis: seq<Api>, g: Group)
    ensures DistinctKeys(RowKey(env.lower), RowsOf(env, apis, 0, g))
  {
  }

  lemma EarlierRowDiffers(env: Sources, apis: seq<Api>, n: nat, g: Group, r: Row)
    requires n < |apis| && DistinctKeys(ApiKey(env.lower), apis) && r in RowsOf(env, apis, n, g)
    ensures RowKey(env.lower)(r) != RowKey(env.lower)(SurfaceRow(env, apis[n]))
  {
    hide SurfaceRow;
    hide RowsOf;
    RowsOfMembers(env, apis, n, g);
    var i :| 0 <= i < n && r == SurfaceRow(env, apis[i]);
    SameKey(env, apis[i]);
    SameKey(env, apis[n]);
    assert ApiKey(env.lower)(apis[i]) != ApiKey(env.lower)(apis[n]);
  }

  lemma SameKey(env: Sources, api: Api)
    ensures RowKey(env.lower)(SurfaceRow(env, api)) == ApiKey(env.lower)(api)
  {
    hide ClassifySupport;
  }

  lemma GroupIsValid(env: Sources, apis: seq<Api>, g: Group)
    requires DistinctKeys(ApiKey(env.lower), apis)
    ensures GroupValid(env.lower, RowsOf(env, apis, |apis|, g))
  {
    hide SurfaceRow;
    RowsOfDistinct(env, apis, |apis|, g);
    RowsOfMembers(env, apis, |apis|, g);
    var rows := RowsOf(env, apis, |apis|, g);
    forall r | r in rows ensures r.supportClass in LEGAL {
      var i :| 0 <= i < |apis| && r == SurfaceRow(env, apis[i]);
      RowNativeIff(env, apis[i]);
    }
  }

  lemma CoverageHolds(env: Sources, apis: seq<Api>)
    requires forall r | r in env.registered :: HasKey(env.lower, apis, ApiKey(env.lower)(FunctionRow(r)))
    ensures Inventoried(env.lower, RowsOf(env, apis, |apis|, Functions)) == RegisteredNames(env)
  {
    hide ClassifySupport;
    hide RowsOf;
    var rows := RowsOf(env, apis, |apis|, Functions);
    RowsOfMembers(env, apis, |apis|, Functions);
    forall r | r in rows && r.registered ensures env.lower(r.name) in RegisteredNames(env) {
      var i :| 0 <= i < |apis| && GroupOf(apis[i].kind) == Some(Functions) && r == SurfaceRow(env, apis[i]);
      OnlyFunctions(apis[i].kind);
      var found := Find(env.lower, env.registered, apis[i].name);
      assert found.Some?;
    }
    forall r | r in env.registered ensures env.lower(r.name) in Inventoried(env.lower, rows) {
      var i :| 0 <= i < |apis| && ApiKey(env.lower)(apis[i]) == ApiKey(env.lower)(FunctionRow(r));
      var row := SurfaceRow(env, apis[i]);
      KeyParts(env.lower, apis[i], FunctionRow(r));
      assert Find(env.lower, env.registered, apis[i].name).Some?;
      assert GroupOf(apis[i].kind) == Some(Functions);
      assert row in rows && row.registered;
    }
  }

  lemma KeyParts(lower: string -> string, a: Api, b: Api)
    requires ApiKey(lower)(a) == ApiKey(lower)(b)
    ensures a.kind == b.kind && lower(a.name) == lower(b.name)
  {
    assert ApiKey(lower)(a)[0] == ApiKey(lower)(b)[0] && ApiKey(lower)(a)[2] == ApiKey(lower)(b)[2];
  }

  lemma OnlyFunctions(kind: string)
    requires GroupOf(kind) == Some(Functions)
    ensures kind == "function"
  {
  }

  lemma {:induction false} SortedRowsFacts(env: Sources, apis: seq<Api>)
    ensures DistinctKeys(ApiKey(env.lower), SortedRows(env, apis))
    ensures forall r | r in env.registered :: HasKey(env.lower, SortedRows(env, apis), ApiKey(env.lower)(FunctionRow(r)))
  {
    hide Merged;
    hide Sort;
    var merged := Merged(env.lower, apis, env.registered, |env.registered|);
    var sorted := SortedRows(env, apis);
    MergedDistinct(env.lower, apis, env.registered, |env.registered|);
    SortDistinct(ByKey(env.lower), ApiKey(env.lower), merged);
    SameElements(sorted, merged);
    forall r | r in env.registered ensures HasKey(env.lower, sorted, ApiKey(env.lower)(FunctionRow(r))) {
      var i :| 0 <= i < |env.registered| && env.registered[i] == r;
      MergedCovers(env.lower, apis, env.registered, |env.registered|, i);
      var k :| 0 <= k < |merged| && ApiKey(env.lower)(merged[k]) == ApiKey(env.lower)(FunctionRow(r));
      assert merged[k] in sorted;
    }
  }

  /** For all API rows and every registry the validator accepts what the builder makes, provided only that
      the language operations, which come from elsewhere, are themselves valid. */
  lemma BuiltIsValid(env: Sources, apis: seq<Api>, inv: Inventory, strict: bool)
    requires var rows := SortedRows(env, apis);
             && inv.functions == RowsOf(env, rows, |rows|, Functions) && inv.methods == RowsOf(env, rows, |rows|, Methods)
             && inv.classes == RowsOf(env, rows, |rows|, Classes) && inv.constants == RowsOf(env, rows, |rows|, Constants)
    ensures Valid(env, inv, strict) <==>
            GroupValid(env.lower, inv.languageOperations) && (strict ==> inv.languageOperations != [])
  {
    hide SortedRows;
    hide RowsOf;
    hide GroupValid;
    hide Inventoried;
    var rows := SortedRows(env, apis);
    SortedRowsFacts(env, apis);
    GroupIsValid(env, rows, Functions);
    GroupIsValid(env, rows, Methods);
    GroupIsValid(env, rows, Classes);
    GroupIsValid(env, rows, Constants);
    CoverageHolds(env, rows);
  }

  // ---------- Order of the input ----------

  lemma {:induction false} UpsertNew(lower: string -> string, rows: seq<Api>, api: Api)
    requires !HasKey(lower, rows, ApiKey(lower)(api))
    ensures Upsert(lower, rows, api) == rows + [api]
    decreases |rows|
  {
    if rows != [] {
      var rest := rows[1..];
      assert ApiKey(lower)(rows[0]) != ApiKey(lower)(api);
      assert !HasKey(lower, rest, ApiKey(lower)(api)) by {
        assert forall i | 0 <= i < |rest| :: rest[i] == rows[i + 1];
      }
      UpsertNew(lower, rest, api);
    }
  }

  lemma {:induction false} MergeDistinctApi(lower: string -> string, apis: seq<Api>, n: nat)
    requires n <= |apis| && DistinctKeys(ApiKey(lower), apis)
    ensures MergeApi(lower, apis, n) == apis[..n]
    decreases n
  {
    hide Upsert;
    if n != 0 {
      MergeDistinctApi(lower, apis, n - 1);
      UpsertNew(lower, apis[..n - 1], apis[n - 1]);
      assert apis[..n] == apis[..n - 1] + [apis[n - 1]];
    }
  }

  lemma SameDefault(lower: string -> string, a: seq<Api>, b: seq<Api>, api: Api)
    requires multiset(a) == multiset(b)
    ensures multiset(SetDefault(lower, a, api)) == multiset(SetDefault(lower, b, api))
  {
    SameElements(a, b);
    var key := ApiKey(lower)(api);
    assert HasKey(lower, a, key) ==> exists x | x in a :: ApiKey(lower)(x) == key;
    if HasKey(lower, a, key) {
      var i :| 0 <= i < |a| && ApiKey(lower)(a[i]) == key;
      assert a[i] in b;
    }
    if HasKey(lower, b, key) {
      var i :| 0 <= i < |b| && ApiKey(lower)(b[i]) == key;
      assert b[i] in a;
    }
  }

  lemma {:induction false} MergedPermutes(lower: string -> string, a: seq<Api>, b: seq<Api>, registered: seq<Registered>, n: nat)
    requires n <= |registered| && multiset(a) == multiset(b)
    requires DistinctKeys(ApiKey(lower), a) && DistinctKeys(ApiKey(lower), b)
    ensures multiset(Merged(lower, a, registered, n)) == multiset(Merged(lower, b, registered, n))
    decreases n
  {
    hide MergeApi;
    hide SetDefault;
    if n == 0 {
      MergeDistinctApi(lower, a, |a|);
      MergeDistinctApi(lower, b, |b|);
      assert a[..|a|] == a && b[..|b|] == b;
    } else {
      MergedPermutes(lower, a, b, registered, n - 1);
      SameDefault(lower, Merged(lower, a, registered, n - 1), Merged(lower, b, registered, n - 1),
                  FunctionRow(registered[n - 1]));
    }
  }

  lemma ByKeySorts(lower: string -> string, s: seq<Api>)
    ensures SortedOn(KeyLe, ApiKey(lower), Sort(ByKey(lower), s))
  {
    hide Sort;
    hide KeyLe;
    KeyTotalOrder();
    PreorderByKey(lower);
    SortSorted(ByKey(lower), s);
    var t := Sort(ByKey(lower), s);
    forall i, j | 0 <= i < j < |t| ensures KeyLe(ApiKey(lower)(t[i]), ApiKey(lower)(t[j])) {
      assert ByKey(lower)(t[i], t[j]);
    }
  }

  lemma PreorderByKey(lower: string -> string)
    requires TotalOrder(KeyLe)
    ensures TotalPreorder(ByKey(lower))
  {
    hide KeyLe;
    hide ApiKey;
    var le, key := ByKey(lower), ApiKey(lower);
    forall a, b ensures le(a, b) || le(b, a) {
      assert KeyLe(key(a), key(b)) || KeyLe(key(b), key(a));
    }
    forall a, b, c | le(a, b) && le(b, c) ensures le(a, c) {
      assert KeyLe(key(a), key(b)) && KeyLe(key(b), key(c));
    }
  }

  /** API rows with distinct keys give the same inventory in any order. */
  lemma OrderIrrelevant(env: Sources, a: seq<Api>, b: seq<Api>)
    requires multiset(a) == multiset(b)
    requires DistinctKeys(ApiKey(env.lower), a) && DistinctKeys(ApiKey(env.lower), b)
    ensures SortedRows(env, a) == SortedRows(env, b)
  {
    hide Merged;
    hide Sort;
    hide KeyLe;
    var n := |env.registered|;
    MergedPermutes(env.lower, a, b, env.registered, n);
    var x, y := Merged(env.lower, a, env.registered, n), Merged(env.lower, b, env.registered, n);
    MergedDistinct(env.lower, a, env.registered, n);
    SortDistinct(ByKey(env.lower), ApiKey(env.lower), x);
    ByKeySorts(env.lower, x);
    ByKeySorts(env.lower, y);
    KeyTotalOrder();
    SortedByKeyUnique(KeyLe, ApiKey(env.lower), Sort(ByKey(env.lower), x), Sort(ByKey(env.lower), y));
  }

  // ---------- Rows and keys in plain terms ----------

  /** Rows have one key exactly when they agree in kind and, in lower case, in class and name; no class is an empty one. */
  lemma SameKeyIff(lower: string -> string, a: Api, b: Api)
    ensures ApiKey(lower)(a) == ApiKey(lower)(b) <==>
            && a.kind == b.kind && lower(a.name) == lower(b.name)
            && lower(if a.class_.Some? then a.class_.value else "") == lower(if b.class_.Some? then b.class_.value else "")
  {
    var x, y := ApiKey(lower)(a), ApiKey(lower)(b);
    assert x == y <==> x[0] == y[0] && x[1] == y[1] && x[2] == y[2];
  }

  /** A row repeats kind, class and name. A function is registered when the registry has its name in lower case. */
  lemma RowMeans(env: Sources, api: Api)
    ensures var row := SurfaceRow(env, api);
            && row.kind == api.kind && row.class_ == api.class_ && row.name == api.name
            && (row.registered <==>
                  if api.kind == "function" then exists r | r in env.registered :: env.lower(r.name) == env.lower(api.name)
                  else env.available(api))
  {
    hide ClassifySupport, Summarize, EvidenceFor;
  }

  /** A registered function counts as builtin when its row of the registry says so. */
  lemma BuiltinMeans(env: Sources, api: Api, r: Registered)
    requires api.kind == "function" && r in env.registered && env.lower(r.name) == env.lower(api.name)
    requires DistinctKeys(LowerName(env.lower), env.registered)
    ensures IsBuiltin(env, api) == r.builtin
  {
    FindIs(env.lower, env.registered, api.name, r);
  }

  lemma {:induction false} FindIs(lower: string -> string, rs: seq<Registered>, name: string, r: Registered)
    requires DistinctKeys(LowerName(lower), rs) && r in rs && lower(r.name) == lower(name)
    ensures Find(lower, rs, name) == Some(r)
    decreases |rs|
  {
    var i :| 0 <= i < |rs| && rs[i] == r;
    if i > 0 {
      assert LowerName(lower)(rs[0]) != LowerName(lower)(rs[i]);
      assert r in rs[1..];
      forall a, b | 0 <= a < b < |rs[1..]| ensures LowerName(lower)(rs[1..][a]) != LowerName(lower)(rs[1..][b]) {
        assert LowerName(lower)(rs[a + 1]) != LowerName(lower)(rs[b + 1]);
      }
      FindIs(lower, rs[1..], name, r);
    }
  }

  /** Evidence is looked up by kind, class and name, and for a method without any by `class::method`. */
  lemma EvidenceMeans(env: Sources, api: Api)
    ensures var found := env.probes([api.kind, env.lower(if api.class_.Some? then api.class_.value else ""), env.lower(api.name)]);
            EvidenceFor(env, api) ==
            if api.kind != "method" || found != [] then found
            else env.probes(["method", "", env.lower(if api.class_.Some? then api.class_.value else "None")
                                            + "::" + env.lower(api.name)])
  {
  }

  ghost predicate Belongs(kind: string, g: Group) {
    match g
    case Functions => kind == "function"
    case Methods => kind == "method"
    case Classes => kind == "class" || kind == "interface" || kind == "trait" || kind == "enum"
    case Constants => kind == "constant" || kind == "class_constant"
  }

  lemma BelongsIff(kind: string, g: Group)
    ensures GroupOf(kind) == Some(g) <==> Belongs(kind, g)
  {
    assert "function"[0] == 'f' && "method"[0] == 'm' && "class"[0] == 'c' && "interface"[0] == 'i' && "trait"[0] == 't';
    assert "enum"[0] == 'e' && |"class"| == 5 && |"constant"| == 8 && |"class_constant"| == 14;
  }

  /** A group of the inventory holds the surface rows of exactly the entries of its kinds. */
  lemma GroupHolds(env: Sources, apis: seq<Api>, g: Group, r: Row)
    ensures r in RowsOf(env, apis, |apis|, g) <==> exists a :: a in apis && Belongs(a.kind, g) && r == SurfaceRow(env, a)
  {
    hide Belongs, SurfaceRow;
    forall a: Api ensures GroupOf(a.kind) == Some(g) <==> Belongs(a.kind, g) { BelongsIff(a.kind, g); }
    hide GroupOf;
    RowsOfMembers(env, apis, |apis|, g);
    if i :| 0 <= i < |apis| && Belongs(apis[i].kind, g) && r == SurfaceRow(env, apis[i]) { assert apis[i] in apis; }
  }

  ghost function Texts(env: Sources, a: Api): (r: seq<string>)
    ensures |r| == 3
  {
    [a.kind, env.lower(if a.class_.Some? then a.class_.value else ""), env.lower(a.name)]
  }

  /** The rows are listed by kind, then by class and then by name, each in code point order: two rows compare by the first
      of the three texts in which they differ, and those by the first character in which they differ. */
  lemma RowsInOrder(env: Sources, apis: seq<Api>, i: nat, j: nat, k: nat, m: nat)
    requires i < j < |SortedRows(env, apis)| && k < 3
    ensures var a, b := Texts(env, SortedRows(env, apis)[i]), Texts(env, SortedRows(env, apis)[j]);
            a[..k] == b[..k] && a[k] != b[k] ==>
              var x, y := a[k], b[k];
              m <= |x| && m <= |y| && x[..m] == y[..m] && (m < |x| && m < |y| ==> x[m] != y[m]) ==>
                m == |x| || (m < |y| && x[m] <= y[m])
  {
    var merged := Merged(env.lower, apis, env.registered, |env.registered|);
    KeyTotalOrder();
    PreorderByKey(env.lower);
    SortSorted(ByKey(env.lower), merged);
    hide Merged, Sort, TotalOrder, TotalPreorder;
    var rows := SortedRows(env, apis);
    assert ByKey(env.lower)(rows[i], rows[j]);
    var a, b := Texts(env, rows[i]), Texts(env, rows[j]);
    assert a == ApiKey(env.lower)(rows[i]) && b == ApiKey(env.lower)(rows[j]);
    if a[..k] == b[..k] && a[k] != b[k] {
      LexLeIff(StringLe, a, b, k);
      var x, y := a[k], b[k];
      if m <= |x| && m <= |y| && x[..m] == y[..m] && (m < |x| && m < |y| ==> x[m] != y[m]) { LexLeIff(CharLe, x, y, m); }
    }
  }
}
