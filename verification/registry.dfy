/** The feature registry (crates/feta/src/features.rs): built all-or-nothing from
    one configuration, then used to evaluate one feature or all of them. The
    datatype `Features` is feta's `Features` struct; the single features it
    holds come from the module `Features` (crates/feta/src/feature.rs), imported
    here as `F`. */
module Registry {
  import opened Wrappers
  import opened Errors
  import opened Decisions
  import opened Hash
  import opened Targeting
  import opened Config
  import F = Features

  datatype Features = Features(features: map<string, F.Feature>)

  /** Every registered feature is a built feature, stored under its own name. */
  ghost predicate ValidRegistry(reg: Features) {
    forall k :: k in reg.features ==> F.ValidFeature(reg.features[k]) && reg.features[k].name == k
  }

  /** What evaluation needs of every registered feature. */
  ghost predicate EvaluableRegistry(reg: Features) {
    forall k :: k in reg.features ==> F.Evaluable(reg.features[k])
  }

  lemma ValidRegistryIsEvaluable(reg: Features)
    requires ValidRegistry(reg)
    ensures EvaluableRegistry(reg)
  {
  }

  /** The `Default` registry. */
  function DefaultFeatures(): (reg: Features)
    ensures reg.features == map[] && ValidRegistry(reg)
  {
    Features(map[])
  }

  /** The names of configuration entries. */
  function NameSet(entries: seq<(string, FeatureConfig)>): (names: set<string>)
    ensures forall i :: 0 <= i < |entries| ==> entries[i].0 in names
    ensures forall k :: k in names ==> exists i :: 0 <= i < |entries| && entries[i].0 == k
  {
    set i | 0 <= i < |entries| :: entries[i].0
  }

  /** Some entry fails with `e` under `build`, and every entry before it builds. */
  ghost predicate FailsFirstAt(build: (string, FeatureConfig) -> Result<F.Feature, FetaError>,
                               entries: seq<(string, FeatureConfig)>, e: FetaError) {
    exists i :: 0 <= i < |entries| && build(entries[i].0, entries[i].1) == Err(e)
      && forall j :: 0 <= j < i ==> build(entries[j].0, entries[j].1).Ok?
  }

  /** The loop of `from_config` over the per-feature constructor `build`: each
      entry is built in order and inserted under its name; the first failure
      abandons the whole map. */
  function InsertEach(build: (string, FeatureConfig) -> Result<F.Feature, FetaError>,
                      entries: seq<(string, FeatureConfig)>, acc: map<string, F.Feature>): (r: Result<map<string, F.Feature>, FetaError>)
    ensures r.Ok? <==> forall i :: 0 <= i < |entries| ==> build(entries[i].0, entries[i].1).Ok?
    ensures r.Err? ==> FailsFirstAt(build, entries, r.error)
    ensures r.Ok? ==> r.value.Keys == acc.Keys + NameSet(entries)
    ensures r.Ok? ==> forall k :: k in r.value ==> k in NameSet(entries) || r.value[k] == acc[k]
    ensures r.Ok? ==> forall k :: k in NameSet(entries) ==> BuiltFrom(build, entries, k, r.value[k])
    decreases |entries|
  {
    if |entries| == 0 then Ok(acc)
    else
      var first := build(entries[0].0, entries[0].1);
      if first.Err? then Err(first.error)
      else
        var r := InsertEach(build, entries[1..], acc[entries[0].0 := first.value]);
        InsertEachStep(build, entries, acc, first.value, r);
        r
  }

  /** Feature `f` is what `build` made of some entry named `k`. */
  ghost predicate BuiltFrom(build: (string, FeatureConfig) -> Result<F.Feature, FetaError>,
                            entries: seq<(string, FeatureConfig)>, k: string, f: F.Feature) {
    exists i :: 0 <= i < |entries| && entries[i].0 == k && build(entries[i].0, entries[i].1) == Ok(f)
  }

  /** One step of `InsertEach`: what holds of the rest carries over to the whole. */
  lemma InsertEachStep(build: (string, FeatureConfig) -> Result<F.Feature, FetaError>,
                       entries: seq<(string, FeatureConfig)>, acc: map<string, F.Feature>, f: F.Feature,
                       r: Result<map<string, F.Feature>, FetaError>)
    requires |entries| > 0 && build(entries[0].0, entries[0].1) == Ok(f)
    requires var rest := entries[1..]; var acc' := acc[entries[0].0 := f];
      && (r.Ok? <==> forall i :: 0 <= i < |rest| ==> build(rest[i].0, rest[i].1).Ok?)
      && (r.Err? ==> FailsFirstAt(build, rest, r.error))
      && (r.Ok? ==> r.value.Keys == acc'.Keys + NameSet(rest))
      && (r.Ok? ==> forall k :: k in r.value ==> k in NameSet(rest) || r.value[k] == acc'[k])
      && (r.Ok? ==> forall k :: k in NameSet(rest) ==> BuiltFrom(build, rest, k, r.value[k]))
    ensures r.Ok? <==> forall i :: 0 <= i < |entries| ==> build(entries[i].0, entries[i].1).Ok?
    ensures r.Err? ==> FailsFirstAt(build, entries, r.error)
    ensures r.Ok? ==> r.value.Keys == acc.Keys + NameSet(entries)
    ensures r.Ok? ==> forall k :: k in r.value ==> k in NameSet(entries) || r.value[k] == acc[k]
    ensures r.Ok? ==> forall k :: k in NameSet(entries) ==> BuiltFrom(build, entries, k, r.value[k])
  {
    var rest := entries[1..];
    assert forall i :: 1 <= i < |entries| ==> entries[i] == rest[i - 1];
    NameSetCons(entries);
    if r.Err? {
      FailsFirstAtCons(build, entries, r.error);
    } else {
      forall k | k in NameSet(entries) ensures BuiltFrom(build, entries, k, r.value[k]) {
        BuiltFromCons(build, entries, k, r.value[k]);
      }
    }
  }

  /** A failure in the rest of a list whose first entry builds is the list's first failure. */
  lemma FailsFirstAtCons(build: (string, FeatureConfig) -> Result<F.Feature, FetaError>,
                         entries: seq<(string, FeatureConfig)>, e: FetaError)
    requires |entries| > 0 && build(entries[0].0, entries[0].1).Ok?
    requires FailsFirstAt(build, entries[1..], e)
    ensures FailsFirstAt(build, entries, e)
  {
    var rest := entries[1..];
    var k :| 0 <= k < |rest| && build(rest[k].0, rest[k].1) == Err(e)
             && forall j :: 0 <= j < k ==> build(rest[j].0, rest[j].1).Ok?;
    assert entries[k + 1] == rest[k];
    assert forall j :: 1 <= j < k + 1 ==> entries[j] == rest[j - 1];
  }

  /** What the first entry or the rest of a list built was built from the list. */
  lemma BuiltFromCons(build: (string, FeatureConfig) -> Result<F.Feature, FetaError>,
                      entries: seq<(string, FeatureConfig)>, k: string, g: F.Feature)
    requires |entries| > 0
    requires BuiltFrom(build, entries[1..], k, g) || (k == entries[0].0 && build(entries[0].0, entries[0].1) == Ok(g))
    ensures BuiltFrom(build, entries, k, g)
  {
    if BuiltFrom(build, entries[1..], k, g) {
      var rest := entries[1..];
      var i :| 0 <= i < |rest| && rest[i].0 == k && build(rest[i].0, rest[i].1) == Ok(g);
      assert entries[i + 1] == rest[i];
    } else {
      assert entries[0].0 == k;
    }
  }

  /** The names of a non-empty list: the first name and the names of the rest. */
  lemma NameSetCons(entries: seq<(string, FeatureConfig)>)
    requires |entries| > 0
    ensures NameSet(entries) == {entries[0].0} + NameSet(entries[1..])
  {
    var rest := entries[1..];
    forall k | k in NameSet(entries) ensures k in {entries[0].0} + NameSet(rest) {
      var i :| 0 <= i < |entries| && entries[i].0 == k;
      if i > 0 { assert rest[i - 1].0 == k; }
    }
  }

  /** `Features::from_config`. */
  function FromConfig(lang: Language, cfg: ConfigSet): (r: Result<Features, FetaError>)
    ensures r.Ok? <==> forall i :: 0 <= i < |cfg.features| ==> F.FromConfig(lang, cfg.features[i].0, cfg.features[i].1).Ok?
    ensures r.Err? ==> exists i :: (0 <= i < |cfg.features| && F.FromConfig(lang, cfg.features[i].0, cfg.features[i].1) == Err(r.error)
      && forall j :: 0 <= j < i ==> F.FromConfig(lang, cfg.features[j].0, cfg.features[j].1).Ok?)
    ensures r.Ok? ==> r.value.features.Keys == NameSet(cfg.features) && ValidRegistry(r.value)
    ensures r.Ok? && DistinctNames(cfg.features) ==> forall i :: 0 <= i < |cfg.features| ==>
      F.FromConfig(lang, cfg.features[i].0, cfg.features[i].1) == Ok(r.value.features[cfg.features[i].0])
  {
    Register((name, c) => F.FromConfig(lang, name, c), cfg.features)
  }

  /** `from_config` over any per-feature constructor `build` that only makes
      valid features named after their key. */
  function Register(build: (string, FeatureConfig) -> Result<F.Feature, FetaError>,
                    entries: seq<(string, FeatureConfig)>): (r: Result<Features, FetaError>)
    requires forall n, c :: build(n, c).Ok? ==> F.ValidFeature(build(n, c).value) && build(n, c).value.name == n
    ensures r.Ok? <==> forall i :: 0 <= i < |entries| ==> build(entries[i].0, entries[i].1).Ok?
    ensures r.Err? ==> FailsFirstAt(build, entries, r.error)
    ensures r.Ok? ==> r.value.features.Keys == NameSet(entries) && ValidRegistry(r.value)
    ensures r.Ok? && DistinctNames(entries) ==>
      forall i :: 0 <= i < |entries| ==> build(entries[i].0, entries[i].1) == Ok(r.value.features[entries[i].0])
  {
    var r := InsertEach(build, entries, map[]);
    if r.Err? then Err(r.error)
    else
      BuiltRegistry(build, entries, r.value);
      Ok(Features(r.value))
  }

  /** A map holding, under each entry's name, what `build` made of that entry is a
      valid registry when `build` only makes valid features named after their key;
      with distinct names, each entry's feature is the one stored under its name. */
  lemma BuiltRegistry(build: (string, FeatureConfig) -> Result<F.Feature, FetaError>,
                      entries: seq<(string, FeatureConfig)>, m: map<string, F.Feature>)
    requires forall n, c :: build(n, c).Ok? ==> F.ValidFeature(build(n, c).value) && build(n, c).value.name == n
    requires m.Keys == NameSet(entries)
    requires forall k :: k in NameSet(entries) ==> BuiltFrom(build, entries, k, m[k])
    ensures ValidRegistry(Features(m))
    ensures DistinctNames(entries) ==>
      forall i :: 0 <= i < |entries| ==> build(entries[i].0, entries[i].1) == Ok(m[entries[i].0])
  {
    forall k | k in m ensures F.ValidFeature(m[k]) && m[k].name == k {
      assert BuiltFrom(build, entries, k, m[k]);
    }
    if DistinctNames(entries) {
      forall i | 0 <= i < |entries| ensures build(entries[i].0, entries[i].1) == Ok(m[entries[i].0]) {
        var k := entries[i].0;
        assert BuiltFrom(build, entries, k, m[k]);
        var j :| 0 <= j < |entries| && entries[j].0 == k && build(entries[j].0, entries[j].1) == Ok(m[k]);
        assert j == i;
      }
    }
  }

  /** `Features::decide`: a registered name is evaluated by its feature; any other
      name yields a Request error decision whose hash is still computed from the
      requested name. */
  function Decide(murmur: Murmur3, lang: Language, reg: Features, name: string, ctx: Context): (d: Decision)
    requires EvaluableRegistry(reg)
    ensures name in reg.features ==> d == F.Decide(murmur, lang, reg.features[name], ctx)
    ensures name !in reg.features ==>
      d == Decision(Calculate(murmur, name, ctx.userKey), "", Error, Values.Null, None, Some(Request))
  {
    if name in reg.features then F.Decide(murmur, lang, reg.features[name], ctx)
    else Fail(WithHash(NewDecisionBuilder(), Calculate(murmur, name, ctx.userKey)), Request)
  }

  /** `Features::decide_all`: every registered feature evaluated on its own. */
  function DecideAll(murmur: Murmur3, lang: Language, reg: Features, ctx: Context): (ds: map<string, Decision>)
    requires EvaluableRegistry(reg)
    ensures ds.Keys == reg.features.Keys
    ensures forall k :: k in ds ==> ds[k] == Decide(murmur, lang, reg, k, ctx)
  {
    map k | k in reg.features :: F.Decide(murmur, lang, reg.features[k], ctx)
  }

  /** One feature's result in `decide_all` does not depend on any other feature:
      replacing or adding feature `k` leaves every other entry unchanged. */
  lemma DecideAllIndependent(murmur: Murmur3, lang: Language, reg: Features, k: string, f: F.Feature, ctx: Context)
    requires EvaluableRegistry(reg) && F.Evaluable(f)
    ensures var reg' := Features(reg.features[k := f]);
      EvaluableRegistry(reg') &&
      forall j :: j in reg.features && j != k ==>
        DecideAll(murmur, lang, reg', ctx)[j] == DecideAll(murmur, lang, reg, ctx)[j]
  {
  }

  /** In a valid registry the recorded hash is always that of the requested name,
      found or not, and no decision has reason `Unknown`. */
  lemma DecideReportsRequestedName(murmur: Murmur3, lang: Language, reg: Features, name: string, ctx: Context)
    requires ValidRegistry(reg)
    ensures EvaluableRegistry(reg)
    ensures Decide(murmur, lang, reg, name, ctx).hash == Calculate(murmur, name, ctx.userKey)
    ensures Decide(murmur, lang, reg, name, ctx).reason != Unknown
  {
    if name in reg.features {
      F.DecideNeverUnknown(murmur, lang, reg.features[name], ctx);
    }
  }

  /** The default registry is empty: `decide_all` is empty and every `decide` is a
      Request error. */
  lemma DefaultRegistryIsEmpty(murmur: Murmur3, lang: Language, name: string, ctx: Context)
    ensures DecideAll(murmur, lang, DefaultFeatures(), ctx) == map[]
    ensures Decide(murmur, lang, DefaultFeatures(), name, ctx).reason == Error
    ensures Decide(murmur, lang, DefaultFeatures(), name, ctx).error == Some(Request)
  {
  }

  /** End to end: a registry built from any configuration evaluates every name
      without ever reporting reason `Unknown` or a Configuration error. */
  lemma ConfiguredRegistryNeverUnknown(murmur: Murmur3, lang: Language, cfg: ConfigSet, name: string, ctx: Context)
    requires FromConfig(lang, cfg).Ok?
    ensures EvaluableRegistry(FromConfig(lang, cfg).value)
    ensures var d := Decide(murmur, lang, FromConfig(lang, cfg).value, name, ctx);
      d.reason != Unknown && d.error != Some(Configuration)
  {
    var reg := FromConfig(lang, cfg).value;
    DecideReportsRequestedName(murmur, lang, reg, name, ctx);
    if name in reg.features {
      F.DecideNeverUnknown(murmur, lang, reg.features[name], ctx);
    }
  }
}
