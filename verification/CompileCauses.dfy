/** Attribution of native compiles to causes, one cause for each recorded descriptor. */
module CompileCauses {
  import opened Options

  /** A recorded compile; absent fields are `None`, and an absent replan index is zero. */
  datatype Descriptor = Descriptor(
    publication: string, replan: int, source: Option<string>, function_: Option<string>, tier: Option<string>,
    genericKey: Option<string>, specialization: Option<string>, fingerprint: Option<string>,
    signatures: Option<string>, layout: Option<string>)

  datatype Product = Product(source: Option<string>, function_: Option<string>, tier: Option<string>,
                             genericKey: Option<string>, specialization: Option<string>, fingerprint: Option<string>)

  datatype FunctionTier = FunctionTier(source: Option<string>, function_: Option<string>, tier: Option<string>)

  datatype Cause = Unpublished | Replan | Duplicate | ExternalSignature | ReceiverLayout | DynamicSource
                 | UniqueFunction | Remainder

  predicate Published(d: Descriptor) { "published" <= d.publication }

  function ProductOf(d: Descriptor): Product {
    Product(d.source, d.function_, d.tier, d.genericKey, d.specialization, d.fingerprint)
  }

  function TierOf(d: Descriptor): FunctionTier { FunctionTier(d.source, d.function_, d.tier) }

  // ---------- The meaning of the causes ----------

  /** Published, and not a repeated attempt. */
  predicate Clean(d: Descriptor) { Published(d) && d.replan <= 0 }

  /** No earlier descriptor has this key. */
  predicate Fresh<K(==)>(key: Descriptor -> K, ds: seq<Descriptor>, i: nat)
    requires i < |ds|
  {
    forall j | 0 <= j < i :: key(ds[j]) != key(ds[i])
  }

  /** The first descriptor with a function and tier. */
  function FirstWith(ds: seq<Descriptor>, n: nat, tier: FunctionTier): (r: Option<nat>)
    requires n <= |ds|
    ensures r.Some? ==> r.value < n && TierOf(ds[r.value]) == tier
    ensures r.Some? ==> forall j | 0 <= j < r.value :: TierOf(ds[j]) != tier
    ensures r.None? ==> forall j | 0 <= j < n :: TierOf(ds[j]) != tier
  {
    if n == 0 then None
    else
      var r := FirstWith(ds, n - 1, tier);
      if r.Some? then r else if TierOf(ds[n - 1]) == tier then Some(n - 1) else None
  }

  /** The first rule that applies, given whether the product was seen, the first descriptor with the same
      function and tier, and the source of the entry unit. */
  function Decide(d: Descriptor, seen: bool, first: Option<Descriptor>, primary: Option<string>): Cause {
    if !Published(d) then Unpublished
    else if d.replan > 0 then Replan
    else if seen then Duplicate
    else if first.Some? && d.signatures != first.value.signatures then ExternalSignature
    else if first.Some? && d.layout != first.value.layout then ReceiverLayout
    else if first.None? && d.source != primary then DynamicSource
    else if first.None? then UniqueFunction
    else Remainder
  }

  function FirstDescriptor(ds: seq<Descriptor>, n: nat, tier: FunctionTier): Option<Descriptor>
    requires n <= |ds|
  {
    var first := FirstWith(ds, n, tier);
    if first.Some? then Some(ds[first.value]) else None
  }

  /** The cause of compile `i`, from the descriptors up to it. */
  function CauseAt(ds: seq<Descriptor>, i: nat): Cause
    requires i < |ds|
  {
    Decide(ds[i], !Fresh(ProductOf, ds, i), FirstDescriptor(ds, i, TierOf(ds[i])), ds[0].source)
  }

  // ---------- The single pass ----------

  ghost predicate Tracks(ds: seq<Descriptor>, n: nat, products: set<Product>, tiers: map<FunctionTier, Descriptor>)
    requires n <= |ds|
  {
    && (forall p :: p in products <==> exists j | 0 <= j < n :: ProductOf(ds[j]) == p)
    && (forall t :: Lookup(tiers, t) == FirstDescriptor(ds, n, t))
  }

  function Lookup(tiers: map<FunctionTier, Descriptor>, t: FunctionTier): Option<Descriptor> {
    if t in tiers then Some(tiers[t]) else None
  }

  lemma TracksStep(ds: seq<Descriptor>, n: nat, products: set<Product>, tiers: map<FunctionTier, Descriptor>)
    requires n < |ds| && Tracks(ds, n, products, tiers)
    ensures ProductOf(ds[n]) in products <==> !Fresh(ProductOf, ds, n)
    ensures Lookup(tiers, TierOf(ds[n])) == FirstDescriptor(ds, n, TierOf(ds[n]))
    ensures var t := TierOf(ds[n]);
            Tracks(ds, n + 1, products + {ProductOf(ds[n])}, if t in tiers then tiers else tiers[t := ds[n]])
  {
    var products' := products + {ProductOf(ds[n])};
    forall p ensures p in products' <==> exists j | 0 <= j < n + 1 :: ProductOf(ds[j]) == p {
      if p == ProductOf(ds[n]) { assert ProductOf(ds[n]) == p; }
    }
    var t := TierOf(ds[n]);
    var tiers' := if t in tiers then tiers else tiers[t := ds[n]];
    forall u ensures Lookup(tiers', u) == FirstDescriptor(ds, n + 1, u) {
      assert Lookup(tiers, u) == FirstDescriptor(ds, n, u);
      assert FirstWith(ds, n + 1, u) ==
             if FirstWith(ds, n, u).Some? then FirstWith(ds, n, u) else if t == u then Some(n) else None;
    }
  }

  /** Every descriptor gets its cause in recorded order, remembering products and first descriptors. */
  method Classify(ds: seq<Descriptor>) returns (causes: seq<Cause>)
    ensures |causes| == |ds| && forall i | 0 <= i < |ds| :: causes[i] == CauseAt(ds, i)
  {
    hide Tracks;
    hide Decide;
    hide FirstDescriptor;
    var products: set<Product>, tiers: map<FunctionTier, Descriptor> := {}, map[];
    NothingTracked(ds);
    causes := [];
    var i := 0;
    while i < |ds|
      invariant i <= |ds| && |causes| == i
      invariant Tracks(ds, i, products, tiers)
      invariant forall j | 0 <= j < i :: causes[j] == CauseAt(ds, j)
    {
      var d, tier := ds[i], TierOf(ds[i]);
      var first := Lookup(tiers, tier);
      TracksStep(ds, i, products, tiers);
      causes := causes + [Decide(d, ProductOf(d) in products, first, ds[0].source)];
      products := products + {ProductOf(d)};
      if first.None? { tiers := tiers[tier := d]; }
      i := i + 1;
    }
  }

  lemma NothingTracked(ds: seq<Descriptor>)
    ensures Tracks(ds, 0, {}, map[])
  {
  }

  /** A cause never depends on what is recorded later. */
  lemma PrefixStable(ds: seq<Descriptor>, later: seq<Descriptor>, i: nat)
    requires i < |ds|
    ensures CauseAt(ds + later, i) == CauseAt(ds, i)
  {
    SameFirst(ds, later, i, TierOf(ds[i]));
    assert forall j | 0 <= j <= i :: (ds + later)[j] == ds[j];
  }

  lemma {:induction false} SameFirst(ds: seq<Descriptor>, later: seq<Descriptor>, n: nat, tier: FunctionTier)
    requires n <= |ds|
    ensures FirstWith(ds + later, n, tier) == FirstWith(ds, n, tier)
    decreases n
  {
    if n != 0 { SameFirst(ds, later, n - 1, tier); }
  }

  // ---------- First compiles ----------

  /** A compile counts as the first of its function and tier exactly when it is clean and nothing with
      that function and tier was recorded before it. */
  lemma FirstCompileIff(ds: seq<Descriptor>, i: nat)
    requires i < |ds|
    ensures CauseAt(ds, i) in {DynamicSource, UniqueFunction} <==> Clean(ds[i]) && Fresh(TierOf, ds, i)
    ensures CauseAt(ds, i) == UniqueFunction <==>
            Clean(ds[i]) && Fresh(TierOf, ds, i) && ds[i].source == ds[0].source
  {
    if Fresh(TierOf, ds, i) {
      forall j | 0 <= j < i ensures ProductOf(ds[j]) != ProductOf(ds[i]) {
        assert TierOf(ds[j]) != TierOf(ds[i]);
      }
    }
  }

  /** `j` is the first descriptor with the function and tier of the later `i`. */
  ghost predicate FirstOf(ds: seq<Descriptor>, j: nat, i: nat)
    requires i < |ds|
  {
    j < i && TierOf(ds[j]) == TierOf(ds[i]) && Fresh(TierOf, ds, j)
  }

  /** A new product of a function and tier seen before is a variant: of the signatures of the first compile,
      else of its receiver layout, else neither. */
  lemma VariantIff(ds: seq<Descriptor>, i: nat)
    requires i < |ds|
    ensures CauseAt(ds, i) == Unpublished <==> !Published(ds[i])
    ensures CauseAt(ds, i) == Replan <==> Published(ds[i]) && ds[i].replan > 0
    ensures CauseAt(ds, i) == Duplicate <==>
            Clean(ds[i]) && exists j | 0 <= j < i :: ProductOf(ds[j]) == ProductOf(ds[i])
    ensures CauseAt(ds, i) == ExternalSignature <==>
            && Clean(ds[i]) && Fresh(ProductOf, ds, i)
            && exists j: nat :: FirstOf(ds, j, i) && ds[j].signatures != ds[i].signatures
    ensures CauseAt(ds, i) == ReceiverLayout <==>
            && Clean(ds[i]) && Fresh(ProductOf, ds, i)
            && exists j: nat :: FirstOf(ds, j, i) && ds[j].signatures == ds[i].signatures && ds[j].layout != ds[i].layout
    ensures CauseAt(ds, i) == Remainder <==>
            && Clean(ds[i]) && Fresh(ProductOf, ds, i)
            && exists j: nat :: FirstOf(ds, j, i) && ds[j].signatures == ds[i].signatures && ds[j].layout == ds[i].layout
  {
    var first := FirstWith(ds, i, TierOf(ds[i]));
    if first.Some? {
      assert FirstOf(ds, first.value, i);
      forall j: nat | FirstOf(ds, j, i) ensures j == first.value {
      }
    }
  }

  // ---------- The causes in terms of the recorded fields ----------

  ghost predicate SameFunction(a: Descriptor, b: Descriptor) {
    a.source == b.source && a.function_ == b.function_ && a.tier == b.tier
  }

  ghost predicate SameCode(a: Descriptor, b: Descriptor) {
    && SameFunction(a, b)
    && a.genericKey == b.genericKey && a.specialization == b.specialization && a.fingerprint == b.fingerprint
  }

  /** A publication whose name begins with "published". */
  ghost predicate Succeeded(d: Descriptor) {
    |d.publication| >= 9 && d.publication[..9] == "published"
  }

  ghost predicate SeenBefore(ds: seq<Descriptor>, i: nat)
    requires i < |ds|
  {
    exists j: nat :: j < i && SameCode(ds[j], ds[i])
  }

  /** `j` is the first compile of the function and tier of the later compile `i`. */
  ghost predicate FirstCompileOf(ds: seq<Descriptor>, j: nat, i: nat)
    requires i < |ds|
  {
    j < i && SameFunction(ds[j], ds[i]) && forall k: nat | k < j :: !SameFunction(ds[k], ds[i])
  }

  ghost predicate NewFunction(ds: seq<Descriptor>, i: nat)
    requires i < |ds|
  {
    forall j: nat | j < i :: !SameFunction(ds[j], ds[i])
  }

  /** A compile that succeeded at its first attempt and whose code was not recorded before. */
  ghost predicate NewCode(ds: seq<Descriptor>, i: nat)
    requires i < |ds|
  {
    Succeeded(ds[i]) && ds[i].replan <= 0 && !SeenBefore(ds, i)
  }

  lemma SameAsKeys(ds: seq<Descriptor>, i: nat)
    requires i < |ds|
    ensures Succeeded(ds[i]) <==> Published(ds[i])
    ensures SeenBefore(ds, i) <==> !Fresh(ProductOf, ds, i)
    ensures NewFunction(ds, i) <==> Fresh(TierOf, ds, i)
    ensures forall j: nat :: FirstCompileOf(ds, j, i) <==> FirstOf(ds, j, i)
  {
    assert Succeeded(ds[i]) <==> Published(ds[i]);
    hide Succeeded, Published;
    forall a: Descriptor, b: Descriptor
      ensures SameCode(a, b) <==> ProductOf(a) == ProductOf(b)
      ensures SameFunction(a, b) <==> TierOf(a) == TierOf(b)
    {
    }
    hide SameCode, ProductOf, SameFunction, TierOf;
    if !Fresh(ProductOf, ds, i) {
      var j :| 0 <= j < i && ProductOf(ds[j]) == ProductOf(ds[i]);
      assert SameCode(ds[j], ds[i]);
    }
  }

  /** Every cause by the fields that decide it. */
  lemma CauseMeans(ds: seq<Descriptor>, i: nat)
    requires i < |ds|
    ensures CauseAt(ds, i) == Unpublished <==> !Succeeded(ds[i])
    ensures CauseAt(ds, i) == Replan <==> Succeeded(ds[i]) && ds[i].replan > 0
    ensures CauseAt(ds, i) == Duplicate <==> Succeeded(ds[i]) && ds[i].replan <= 0 && SeenBefore(ds, i)
    ensures CauseAt(ds, i) == ExternalSignature <==>
            NewCode(ds, i) && exists j: nat :: FirstCompileOf(ds, j, i) && ds[j].signatures != ds[i].signatures
    ensures CauseAt(ds, i) == ReceiverLayout <==>
            NewCode(ds, i) && exists j: nat :: FirstCompileOf(ds, j, i) && ds[j].signatures == ds[i].signatures
                                               && ds[j].layout != ds[i].layout
    ensures CauseAt(ds, i) == Remainder <==>
            NewCode(ds, i) && exists j: nat :: FirstCompileOf(ds, j, i) && ds[j].signatures == ds[i].signatures
                                               && ds[j].layout == ds[i].layout
    ensures CauseAt(ds, i) == UniqueFunction <==>
            Succeeded(ds[i]) && ds[i].replan <= 0 && NewFunction(ds, i) && ds[i].source == ds[0].source
    ensures CauseAt(ds, i) == DynamicSource <==>
            Succeeded(ds[i]) && ds[i].replan <= 0 && NewFunction(ds, i) && ds[i].source != ds[0].source
  {
    hide CauseAt, FirstCompileOf, FirstOf, SeenBefore, NewFunction, Succeeded, Published, Fresh;
    SameAsKeys(ds, i);
    VariantIff(ds, i);
    FirstCompileIff(ds, i);
    DuplicateIsSeen(ds, i);
  }

  lemma DuplicateIsSeen(ds: seq<Descriptor>, i: nat)
    requires i < |ds|
    ensures (exists j | 0 <= j < i :: ProductOf(ds[j]) == ProductOf(ds[i])) <==> !Fresh(ProductOf, ds, i)
  {
  }

  predicate IsFirstCompile(c: Cause) { c == DynamicSource || c == UniqueFunction }

  /** Each function and tier has at most one first compile. */
  lemma OneFirstCompile(ds: seq<Descriptor>, i: nat, j: nat)
    requires i < |ds| && j < |ds| && TierOf(ds[i]) == TierOf(ds[j])
    requires IsFirstCompile(CauseAt(ds, i)) && IsFirstCompile(CauseAt(ds, j))
    ensures i == j
  {
    FirstCompileIff(ds, i);
    FirstCompileIff(ds, j);
  }

  /** It has one exactly when the first descriptor recorded for it is clean. */
  lemma HasFirstCompileIff(ds: seq<Descriptor>, i: nat)
    requires i < |ds| && Fresh(TierOf, ds, i)
    ensures (exists j | 0 <= j < |ds| :: TierOf(ds[j]) == TierOf(ds[i]) && IsFirstCompile(CauseAt(ds, j))) <==>
            Clean(ds[i])
  {
    FirstCompileIff(ds, i);
    forall j | 0 <= j < |ds| && TierOf(ds[j]) == TierOf(ds[i]) && IsFirstCompile(CauseAt(ds, j)) ensures j == i {
      FirstCompileIff(ds, j);
    }
  }

  /** A remainder repeats signatures and layout of the first compile of its function and tier, and is a
      different product only by key, specialization or fingerprint. */
  lemma RemainderDiffers(ds: seq<Descriptor>, i: nat)
    requires i < |ds| && CauseAt(ds, i) == Remainder
    ensures exists j | 0 <= j < i ::
              && TierOf(ds[j]) == TierOf(ds[i]) && ds[j].signatures == ds[i].signatures && ds[j].layout == ds[i].layout
              && (ds[j].genericKey, ds[j].specialization, ds[j].fingerprint)
                 != (ds[i].genericKey, ds[i].specialization, ds[i].fingerprint)
  {
    var j := FirstWith(ds, i, TierOf(ds[i])).value;
    assert ProductOf(ds[j]) != ProductOf(ds[i]);
  }

  // ---------- Counts ----------

  function Count(causes: seq<Cause>, c: Cause): nat {
    if causes == [] then 0 else Count(causes[..|causes| - 1], c) + if causes[|causes| - 1] == c then 1 else 0
  }

  /** The causes are disjoint and cover every attempt. */
  lemma {:induction false} CausesSum(causes: seq<Cause>)
    ensures Count(causes, Unpublished) + Count(causes, Replan) + Count(causes, Duplicate)
            + Count(causes, ExternalSignature) + Count(causes, ReceiverLayout) + Count(causes, DynamicSource)
            + Count(causes, UniqueFunction) + Count(causes, Remainder) == |causes|
    decreases |causes|
  {
    if causes != [] { CausesSum(causes[..|causes| - 1]); }
  }

  function CleanCount(ds: seq<Descriptor>, n: nat): nat
    requires n <= |ds|
  {
    if n == 0 then 0 else CleanCount(ds, n - 1) + if Clean(ds[n - 1]) then 1 else 0
  }

  function FreshCount<K(==)>(key: Descriptor -> K, ds: seq<Descriptor>, n: nat): nat
    requires n <= |ds|
  {
    if n == 0 then 0
    else FreshCount(key, ds, n - 1) + if Clean(ds[n - 1]) && Fresh(key, ds, n - 1) then 1 else 0
  }

  /** The keys whose first descriptor is clean. */
  function CleanFirsts<K(==)>(key: Descriptor -> K, ds: seq<Descriptor>, n: nat): set<K>
    requires n <= |ds|
  {
    set j | 0 <= j < n && Clean(ds[j]) && Fresh(key, ds, j) :: key(ds[j])
  }

  lemma {:induction false} FreshCountIsSize<K>(key: Descriptor -> K, ds: seq<Descriptor>, n: nat)
    requires n <= |ds|
    ensures FreshCount(key, ds, n) == |CleanFirsts(key, ds, n)|
    decreases n
  {
    if n != 0 {
      FreshCountIsSize(key, ds, n - 1);
      var before := CleanFirsts(key, ds, n - 1);
      if Clean(ds[n - 1]) && Fresh(key, ds, n - 1) {
        assert key(ds[n - 1]) !in before;
        assert CleanFirsts(key, ds, n) == before + {key(ds[n - 1])};
      } else {
        assert CleanFirsts(key, ds, n) == before;
      }
    }
  }

  ghost predicate Causes(ds: seq<Descriptor>, causes: seq<Cause>) {
    |causes| == |ds| && forall i | 0 <= i < |ds| :: causes[i] == CauseAt(ds, i)
  }

  lemma {:induction false} CountsUpTo(ds: seq<Descriptor>, causes: seq<Cause>, n: nat)
    requires Causes(ds, causes) && n <= |ds|
    ensures Count(causes[..n], Duplicate) + FreshCount(ProductOf, ds, n) == CleanCount(ds, n)
    ensures Count(causes[..n], UniqueFunction) + Count(causes[..n], DynamicSource) == FreshCount(TierOf, ds, n)
    decreases n
  {
    if n != 0 {
      CountsUpTo(ds, causes, n - 1);
      assert causes[..n][..n - 1] == causes[..n - 1];
      FirstCompileIff(ds, n - 1);
    }
  }

  /** Duplicates are the clean compiles less one for each product whose first descriptor is clean. First
      compiles are one for each function and tier whose first descriptor is clean. */
  lemma Attribution(ds: seq<Descriptor>, causes: seq<Cause>)
    requires Causes(ds, causes)
    ensures Count(causes, Duplicate) == CleanCount(ds, |ds|) - |CleanFirsts(ProductOf, ds, |ds|)|
    ensures Count(causes, UniqueFunction) + Count(causes, DynamicSource) == |CleanFirsts(TierOf, ds, |ds|)|
  {
    CountsUpTo(ds, causes, |ds|);
    assert causes[..|ds|] == causes;
    FreshCountIsSize(ProductOf, ds, |ds|);
    FreshCountIsSize(TierOf, ds, |ds|);
  }

  function Keys<K(==)>(key: Descriptor -> K, ds: seq<Descriptor>): set<K> {
    set j | 0 <= j < |ds| :: key(ds[j])
  }

  lemma {:induction false} EarliestIsFresh<K>(key: Descriptor -> K, ds: seq<Descriptor>, i: nat) returns (j: nat)
    requires i < |ds|
    ensures j <= i && key(ds[j]) == key(ds[i]) && Fresh(key, ds, j)
    decreases i
  {
    if Fresh(key, ds, i) {
      j := i;
    } else {
      var k :| 0 <= k < i && key(ds[k]) == key(ds[i]);
      j := EarliestIsFresh(key, ds, k);
    }
  }

  lemma AllCleanKeys<K>(key: Descriptor -> K, ds: seq<Descriptor>)
    requires forall d | d in ds :: Clean(d)
    ensures CleanFirsts(key, ds, |ds|) == Keys(key, ds)
  {
    forall i | 0 <= i < |ds| ensures key(ds[i]) in CleanFirsts(key, ds, |ds|) {
      var j := EarliestIsFresh(key, ds, i);
      assert ds[j] in ds;
    }
  }

  lemma {:induction false} AllCleanCount(ds: seq<Descriptor>, n: nat)
    requires n <= |ds| && forall d | d in ds :: Clean(d)
    ensures CleanCount(ds, n) == n
    decreases n
  {
    if n != 0 {
      AllCleanCount(ds, n - 1);
      assert ds[n - 1] in ds;
    }
  }

  /** When every compile was published at its first attempt, the duplicates are the compiles beyond one
      for each product, and the first compiles are as many as the functions and tiers reported. */
  lemma CleanRun(ds: seq<Descriptor>, causes: seq<Cause>)
    requires Causes(ds, causes) && forall d | d in ds :: Clean(d)
    ensures Count(causes, Duplicate) == |ds| - |Keys(ProductOf, ds)|
    ensures Count(causes, UniqueFunction) + Count(causes, DynamicSource) == |Keys(TierOf, ds)|
  {
    Attribution(ds, causes);
    AllCleanKeys(ProductOf, ds);
    AllCleanKeys(TierOf, ds);
    AllCleanCount(ds, |ds|);
  }

  // ---------- Where the description promises more ----------

  /** A duplicate of a product that was published before: the description's reading. */
  ghost predicate CompiledBefore(ds: seq<Descriptor>, i: nat)
    requires i < |ds|
  {
    exists j | 0 <= j < i :: Published(ds[j]) && ProductOf(ds[j]) == ProductOf(ds[i])
  }

  /** The first publication of a product that was recorded before. */
  ghost predicate LatePublication(ds: seq<Descriptor>, i: nat)
    requires i < |ds|
  {
    Clean(ds[i]) && !Fresh(ProductOf, ds, i) && !CompiledBefore(ds, i)
  }

  ghost function LateProducts(ds: seq<Descriptor>, n: nat): set<Product>
    requires n <= |ds|
  {
    set j | 0 <= j < n && LatePublication(ds, j) :: ProductOf(ds[j])
  }

  ghost function CompiledBeforeCount(ds: seq<Descriptor>, n: nat): nat
    requires n <= |ds|
  {
    if n == 0 then 0
    else CompiledBeforeCount(ds, n - 1) + if Clean(ds[n - 1]) && CompiledBefore(ds, n - 1) then 1 else 0
  }

  lemma {:induction false} DuplicatesUpTo(ds: seq<Descriptor>, causes: seq<Cause>, n: nat)
    requires Causes(ds, causes) && n <= |ds|
    ensures Count(causes[..n], Duplicate) == CompiledBeforeCount(ds, n) + |LateProducts(ds, n)|
    decreases n
  {
    hide CauseAt;
    if n != 0 {
      DuplicatesUpTo(ds, causes, n - 1);
      VariantIff(ds, n - 1);
      assert causes[..n][..n - 1] == causes[..n - 1];
      LateStep(ds, n);
    }
  }

  /** A product is published late at most once. */
  lemma LateStep(ds: seq<Descriptor>, n: nat)
    requires 0 < n <= |ds|
    ensures |LateProducts(ds, n)| == |LateProducts(ds, n - 1)| + if LatePublication(ds, n - 1) then 1 else 0
  {
    var before := LateProducts(ds, n - 1);
    if LatePublication(ds, n - 1) {
      assert ProductOf(ds[n - 1]) !in before;
      assert LateProducts(ds, n) == before + {ProductOf(ds[n - 1])};
    } else {
      assert LateProducts(ds, n) == before;
    }
  }

  /** Over a whole run the duplicates reported are those described and one more for each product published late.
      They are those described exactly when every product is published at its first record or not cleanly. */
  lemma DuplicatesCounted(ds: seq<Descriptor>, causes: seq<Cause>)
    requires Causes(ds, causes)
    ensures Count(causes, Duplicate) == CompiledBeforeCount(ds, |ds|) + |LateProducts(ds, |ds|)|
    ensures Count(causes, Duplicate) == CompiledBeforeCount(ds, |ds|) <==>
            forall i | 0 <= i < |ds| && Clean(ds[i]) && !Fresh(ProductOf, ds, i) :: CompiledBefore(ds, i)
  {
    DuplicatesUpTo(ds, causes, |ds|);
    assert causes[..|ds|] == causes;
    var late := LateProducts(ds, |ds|);
    forall i | 0 <= i < |ds| && LatePublication(ds, i) ensures ProductOf(ds[i]) in late {
    }
  }

  /** The description's reading of an external-signature compile: a new product whose function, tier and
      generic key are those of the first compile, with other signatures. */
  ghost predicate SameKeyOtherSignatures(ds: seq<Descriptor>, i: nat)
    requires i < |ds|
  {
    && Clean(ds[i]) && Fresh(ProductOf, ds, i)
    && exists j: nat :: FirstOf(ds, j, i) && ds[j].genericKey == ds[i].genericKey && ds[j].signatures != ds[i].signatures
  }

  /** Every compile so described is given that cause. It is given beyond the description exactly to new products
      that differ from the first compile of their function and tier in the generic key as well. */
  lemma ExternalSignatureIff(ds: seq<Descriptor>, i: nat)
    requires i < |ds|
    ensures SameKeyOtherSignatures(ds, i) ==> CauseAt(ds, i) == ExternalSignature
    ensures CauseAt(ds, i) == ExternalSignature && !SameKeyOtherSignatures(ds, i) <==>
            && Clean(ds[i]) && Fresh(ProductOf, ds, i)
            && exists j: nat :: FirstOf(ds, j, i) && ds[j].genericKey != ds[i].genericKey && ds[j].signatures != ds[i].signatures
  {
    VariantIff(ds, i);
    hide CauseAt;
    forall j: nat, k: nat | FirstOf(ds, j, i) && FirstOf(ds, k, i) ensures j == k {
      OneFirst(ds, j, k, i);
    }
  }

  lemma OneFirst(ds: seq<Descriptor>, j: nat, k: nat, i: nat)
    requires i < |ds| && FirstOf(ds, j, i) && FirstOf(ds, k, i)
    ensures j == k
  {
  }

  /** With the same key such a compile is a product of its own by specialization or fingerprint only. */
  lemma SameKeyDiffers(ds: seq<Descriptor>, i: nat, j: nat)
    requires i < |ds| && CauseAt(ds, i) == ExternalSignature && FirstOf(ds, j, i)
    ensures ds[j].genericKey == ds[i].genericKey ==>
              ds[j].specialization != ds[i].specialization || ds[j].fingerprint != ds[i].fingerprint
  {
    VariantIff(ds, i);
    assert ProductOf(ds[j]) != ProductOf(ds[i]);
  }

  const Entry := Descriptor("rejected", 0, Some("main"), Some("f"), Some("baseline"), Some("k"), None, None, Some("s"), None)

  /** An unpublished attempt makes the successful one a duplicate. */
  lemma RetryIsDuplicate()
    ensures var ds := [Entry, Entry.(publication := "published")];
            CauseAt(ds, 1) == Duplicate && !CompiledBefore(ds, 1)
  {
    var ds := [Entry, Entry.(publication := "published")];
    assert ProductOf(ds[0]) == ProductOf(ds[1]);
    assert ds[0].publication[0] == 'r';
    assert "published"[0] == 'p';
    assert Published(ds[1]);
  }

  /** Different signatures decide before the generic key is looked at. */
  lemma KeyIsNotCompared()
    ensures var d := Entry.(publication := "published");
            CauseAt([d, d.(genericKey := Some("other"), signatures := Some("t"))], 1) == ExternalSignature
  {
    var d := Entry.(publication := "published");
    var e := d.(genericKey := Some("other"), signatures := Some("t"));
    var ds := [d, e];
    assert Published(e);
    assert d.genericKey.value[0] == 'k' && e.genericKey.value[0] == 'o';
    assert ProductOf(d) != ProductOf(e);
    assert d.signatures.value[0] == 's' && e.signatures.value[0] == 't';
    assert FirstWith(ds, 0, TierOf(e)).None?;
    assert FirstWith(ds, 1, TierOf(e)) == Some(0);
  }
}
