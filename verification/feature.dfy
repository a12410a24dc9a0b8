/** Feature assembly, validation and evaluation (crates/feta/src/feature.rs).
    The registry of features (crates/feta/src/features.rs) is the module
    `Registry`, whose datatype `Features` is the registry itself. */
module Features {
  import opened Wrappers
  import opened Values
  import opened Errors
  import opened Decisions
  import opened Hash
  import opened Targeting
  import opened Rules
  import opened Config

  /** The accumulating builder; unset options are `None`. */
  datatype FeatureBuilder = FeatureBuilder(
    name: Option<string>,
    enabled: bool,
    valueType: ValueType,
    variants: map<string, Value>,
    defaultVariant: Option<string>,
    rules: seq<Rule>,
    defaultRule: Option<Rule>)

  /** A built feature; `defaultValue` caches `variants[defaultVariant]` and the last
      rule is the unconditional default rule. */
  datatype Feature = Feature(
    name: string,
    enabled: bool,
    variants: map<string, Value>,
    defaultVariant: string,
    defaultValue: Value,
    rules: seq<Rule>)

  /** `FeatureBuilder::new`: a disabled builder of the given value type with
      nothing set. */
  function NewFeatureBuilder(valueType: ValueType): (b: FeatureBuilder)
    ensures b.valueType == valueType && !b.enabled
    ensures b.name.None? && b.defaultVariant.None? && b.defaultRule.None?
    ensures b.variants == map[] && b.rules == []
  {
    FeatureBuilder(None, false, valueType, map[], None, [], None)
  }

  function SetName(b: FeatureBuilder, name: string): (r: FeatureBuilder)
    ensures r.name == Some(name) && r.(name := b.name) == b
  {
    b.(name := Some(name))
  }

  function SetEnabled(b: FeatureBuilder, enabled: bool): (r: FeatureBuilder)
    ensures r.enabled == enabled && r.(enabled := b.enabled) == b
  {
    b.(enabled := enabled)
  }

  /** Adds a variant; a later value for the same key replaces the earlier one. */
  function SetVariant(b: FeatureBuilder, key: string, value: Value): (r: FeatureBuilder)
    ensures r.variants.Keys == b.variants.Keys + {key} && r.variants[key] == value
    ensures forall k :: k in b.variants && k != key ==> r.variants[k] == b.variants[k]
    ensures r.(variants := b.variants) == b
  {
    b.(variants := b.variants[key := value])
  }

  function SetDefaultVariant(b: FeatureBuilder, key: string): (r: FeatureBuilder)
    ensures r.defaultVariant == Some(key) && r.(defaultVariant := b.defaultVariant) == b
  {
    b.(defaultVariant := Some(key))
  }

  function SetDefaultRule(b: FeatureBuilder, rule: Rule): (r: FeatureBuilder)
    ensures r.defaultRule == Some(rule) && r.(defaultRule := b.defaultRule) == b
  {
    b.(defaultRule := Some(rule))
  }

  /** Appends an audience rule after those already added. */
  function AddAudienceRule(b: FeatureBuilder, rule: Rule): (r: FeatureBuilder)
    ensures r.rules == b.rules + [rule] && r.(rules := b.rules) == b
  {
    b.(rules := b.rules + [rule])
  }

  ghost predicate VariantsTyped(variants: map<string, Value>, t: ValueType) {
    forall k :: k in variants ==> HasType(variants[k], t)
  }

  /** Every name in `names` is a defined variant. */
  ghost predicate NamesDefined(names: seq<string>, variants: map<string, Value>) {
    forall j :: 0 <= j < |names| ==> names[j] in variants
  }

  /** Every bucket of every rule names a defined variant. */
  ghost predicate ReferencesDefined(rules: seq<Rule>, variants: map<string, Value>) {
    forall i :: 0 <= i < |rules| ==> NamesDefined(ReferencedVariants(rules[i]), variants)
  }

  /** The six checks `build` makes, stated declaratively. */
  ghost predicate BuildAccepts(b: FeatureBuilder) {
    && VariantsTyped(b.variants, b.valueType)
    && b.defaultVariant.Some? && b.defaultVariant.value in b.variants
    && b.defaultRule.Some? && b.defaultRule.value.program.None?
    && ReferencesDefined(b.rules + [b.defaultRule.value], b.variants)
    && b.name.Some?
  }

  /** The invariant every built feature carries. */
  ghost predicate ValidFeature(f: Feature) {
    && f.defaultVariant in f.variants
    && f.defaultValue == f.variants[f.defaultVariant]
    && |f.rules| > 0
    && f.rules[|f.rules| - 1].program.None?
    && (forall i :: 0 <= i < |f.rules| ==> ValidRule(f.rules[i]))
    && ReferencesDefined(f.rules, f.variants)
  }

  /** What `decide` needs to run without panicking: every rule's buckets cover
      [0, 100). Every built feature has it (see `ValidFeatureIsEvaluable`). */
  ghost predicate Evaluable(f: Feature) {
    forall i :: 0 <= i < |f.rules| ==> Partition(f.rules[i].buckets)
  }

  lemma ValidFeatureIsEvaluable(f: Feature)
    requires ValidFeature(f)
    ensures Evaluable(f)
  {
  }

  /** The first name of `names` that is not a variant, scanning in order. */
  function FirstUndefined(names: seq<string>, variants: map<string, Value>): (r: Option<string>)
    ensures r.None? <==> NamesDefined(names, variants)
    ensures r.Some? ==> r.value !in variants
    decreases |names|
  {
    if |names| == 0 then None
    else if names[0] !in variants then Some(names[0])
    else
      var r := FirstUndefined(names[1..], variants);
      assert forall j :: 1 <= j < |names| ==> names[j] == names[1..][j - 1];
      r
  }

  /** The nested loop of `build` over each rule's referenced variants. */
  function UndefinedReference(rules: seq<Rule>, variants: map<string, Value>): (r: Option<string>)
    ensures r.None? <==> ReferencesDefined(rules, variants)
    ensures r.Some? ==> r.value !in variants
    decreases |rules|
  {
    if |rules| == 0 then None
    else
      match FirstUndefined(ReferencedVariants(rules[0]), variants)
      case Some(v) => Some(v)
      case None =>
        var r := UndefinedReference(rules[1..], variants);
        assert forall i :: 1 <= i < |rules| ==> rules[i] == rules[1..][i - 1];
        r
  }

  /** `FeatureBuilder::build`. The default rule is appended after the audience
      rules; every failure is a Configuration error. */
  function Build(b: FeatureBuilder): (r: Result<Feature, FetaError>)
    ensures r.Ok? <==> BuildAccepts(b)
    ensures r.Err? ==> r.error == Configuration
    ensures r.Ok? ==> r.value == Feature(b.name.value, b.enabled, b.variants, b.defaultVariant.value,
                                         b.variants[b.defaultVariant.value], b.rules + [b.defaultRule.value])
    ensures r.Ok? && (forall i :: 0 <= i < |b.rules| ==> ValidRule(b.rules[i])) && ValidRule(b.defaultRule.value) ==>
      ValidFeature(r.value)
  {
    if exists k | k in b.variants :: !HasType(b.variants[k], b.valueType) then Err(Configuration)
    else match b.defaultVariant
    case None => Err(Configuration)
    case Some(defaultVariant) =>
      if defaultVariant !in b.variants then Err(Configuration)
      else
        var defaultValue := b.variants[defaultVariant];
        match b.defaultRule
        case None => Err(Configuration)
        case Some(defaultRule) =>
          if defaultRule.program.Some? then Err(Configuration)
          else
            var rules := b.rules + [defaultRule];
            if UndefinedReference(rules, b.variants).Some? then Err(Configuration)
            else match b.name
            case None => Err(Configuration)
            case Some(name) => Ok(Feature(name, b.enabled, b.variants, defaultVariant, defaultValue, rules))
  }

  /** `variant_value`: the configured value, or a Configuration error for an
      undefined variant. */
  function VariantValue(f: Feature, variant: string): (r: Result<Value, FetaError>)
    ensures r.Ok? <==> variant in f.variants
    ensures r.Ok? ==> r.value == f.variants[variant]
    ensures r.Err? ==> r.error == Configuration
  {
    if variant in f.variants then Ok(f.variants[variant]) else Err(Configuration)
  }

  /** The rule loop of `decide`, from rule `i` on, with the decision prepared so far. */
  function EvalRules(lang: Language, f: Feature, env: Environment, hash: U32, b: DecisionBuilder, i: nat): (d: Decision)
    requires Evaluable(f) && i <= |f.rules|
    ensures d.hash == b.hash
    decreases |f.rules| - i
  {
    if i == |f.rules| then Fail(b, Configuration)
    else
      var rule := f.rules[i];
      match IsApplicable(lang, rule, env)
      case Err(e) => Fail(b, e)
      case Ok(applicable) =>
        if !applicable then EvalRules(lang, f, env, hash, b, i + 1)
        else
          var variant := GetVariant(rule, hash);
          var targeted := if rule.audience.Some? then WithAudience(b, rule.audience.value) else b;
          match VariantValue(f, variant)
          case Ok(v) => Succeed(WithValue(WithVariant(targeted, variant), v), rule.reason)
          case Err(e) => Fail(targeted, e)
  }

  /** The builder `decide` starts from: default variant and value, and the hash. */
  function Fallback(f: Feature, hash: U32): (b: DecisionBuilder)
    ensures b == DecisionBuilder(hash, Some(f.defaultVariant), Unknown, f.defaultValue, None, None)
  {
    WithHash(WithValue(WithVariant(NewDecisionBuilder(), f.defaultVariant), f.defaultValue), hash)
  }

  /** `Feature::decide`. The hash is always recorded; a disabled feature returns
      its default without evaluating any rule, whatever the attributes. */
  function Decide(murmur: Murmur3, lang: Language, f: Feature, ctx: Context): (d: Decision)
    requires Evaluable(f)
    ensures d.hash == Calculate(murmur, f.name, ctx.userKey)
    ensures !f.enabled ==> d == Decision(d.hash, f.defaultVariant, Disabled, f.defaultValue, None, None)
  {
    var hash := Calculate(murmur, f.name, ctx.userKey);
    var b := Fallback(f, hash);
    if !f.enabled then Disable(b)
    else EvalRules(lang, f, EnvironmentOf(ctx), hash, b, 0)
  }

  /** Rules that do not apply are skipped: evaluation from `k` equals evaluation
      from `i` when every rule in between evaluates to false. */
  lemma {:induction false} EvalSkips(lang: Language, f: Feature, env: Environment, hash: U32, b: DecisionBuilder, k: nat, i: nat)
    requires Evaluable(f) && k <= i <= |f.rules|
    requires forall j :: k <= j < i ==> IsApplicable(lang, f.rules[j], env) == Ok(false)
    ensures EvalRules(lang, f, env, hash, b, k) == EvalRules(lang, f, env, hash, b, i)
    decreases i - k
  {
    if k < i {
      EvalSkips(lang, f, env, hash, b, k + 1, i);
    }
  }

  /** First match wins: when rules before `i` do not apply and rule `i` does, the
      decision is rule `i`'s bucket for the hash, that variant's value, the rule's
      reason and audience, and no error. */
  lemma DecideFirstMatch(murmur: Murmur3, lang: Language, f: Feature, ctx: Context, i: nat)
    requires ValidFeature(f) && f.enabled && i < |f.rules|
    requires forall j :: 0 <= j < i ==> IsApplicable(lang, f.rules[j], EnvironmentOf(ctx)) == Ok(false)
    requires IsApplicable(lang, f.rules[i], EnvironmentOf(ctx)) == Ok(true)
    ensures var h := Calculate(murmur, f.name, ctx.userKey);
      var v := GetVariant(f.rules[i], h);
      && v in f.variants
      && Decide(murmur, lang, f, ctx) == Decision(h, v, f.rules[i].reason, f.variants[v], f.rules[i].audience, None)
  {
    var h := Calculate(murmur, f.name, ctx.userKey);
    EvalSkips(lang, f, EnvironmentOf(ctx), h, Fallback(f, h), 0, i);
  }

  /** A Targeting error on a rule reached by the scan stops evaluation: reason
      `Error`, the default variant and value, no audience. */
  lemma DecideTargetingError(murmur: Murmur3, lang: Language, f: Feature, ctx: Context, i: nat)
    requires Evaluable(f) && f.enabled && i < |f.rules|
    requires forall j :: 0 <= j < i ==> IsApplicable(lang, f.rules[j], EnvironmentOf(ctx)) == Ok(false)
    requires IsApplicable(lang, f.rules[i], EnvironmentOf(ctx)).Err?
    ensures Decide(murmur, lang, f, ctx)
         == Decision(Calculate(murmur, f.name, ctx.userKey), f.defaultVariant, Error, f.defaultValue, None, Some(Targeting))
  {
    var h := Calculate(murmur, f.name, ctx.userKey);
    EvalSkips(lang, f, EnvironmentOf(ctx), h, Fallback(f, h), 0, i);
  }

  /** On a valid feature the scan from any rule ends in a rule's success or a
      Targeting error: the final "no applicable rules" error and the undefined
      variant error are unreachable. */
  lemma {:induction false} EvalRulesSettles(lang: Language, f: Feature, env: Environment, hash: U32, b: DecisionBuilder, i: nat)
    requires ValidFeature(f) && i < |f.rules| && b.error.None?
    ensures var d := EvalRules(lang, f, env, hash, b, i);
      && d.reason in {Static, Split, Match, MatchSplit, Error}
      && (d.reason == Error <==> d.error == Some(Targeting))
      && (d.reason == Error ==> d.variant == b.variant.GetOr("") && d.value == b.value)
      && (d.reason != Error ==> d.error.None? && d.variant in f.variants && d.value == f.variants[d.variant])
    decreases |f.rules| - i
  {
    var rule := f.rules[i];
    match IsApplicable(lang, rule, env)
    case Err(e) =>
    case Ok(applicable) =>
      if !applicable {
        EvalRulesSettles(lang, f, env, hash, b, i + 1);
      } else {
        var v := GetVariant(rule, hash);
        assert v in f.variants;
      }
  }

  /** A built feature never yields reason `Unknown`; an error decision is always a
      Targeting error and carries the default; a success carries a defined variant
      and its value. */
  lemma DecideNeverUnknown(murmur: Murmur3, lang: Language, f: Feature, ctx: Context)
    requires ValidFeature(f)
    ensures var d := Decide(murmur, lang, f, ctx);
      && d.reason != Unknown
      && (d.reason == Error <==> d.error == Some(Targeting))
      && (d.reason == Error ==> d.variant == f.defaultVariant && d.value == f.defaultValue)
      && (d.reason != Error ==> d.error.None? && d.variant in f.variants && d.value == f.variants[d.variant])
  {
    var h := Calculate(murmur, f.name, ctx.userKey);
    if f.enabled {
      EvalRulesSettles(lang, f, EnvironmentOf(ctx), h, Fallback(f, h), 0);
    }
  }

  /** Appends pairs to a rule builder one by one, as the distribution loop does. */
  function AppendPercentages(b: RuleBuilder, entries: seq<(string, U8)>): (r: RuleBuilder)
    ensures r.percentages == b.percentages + entries && r.audience == b.audience
    decreases |entries|
  {
    if |entries| == 0 then b
    else
      var r := AppendPercentages(AddBucketVariant(b, entries[0].0, entries[0].1), entries[1..]);
      assert b.percentages + [entries[0]] + entries[1..] == b.percentages + entries;
      r
  }

  /** `new_rule_builder`: a single variant gets 100%; a distribution keeps its
      entries in key order. No audience is attached. */
  function RuleBuilderFor(bucketing: Bucketing): (b: RuleBuilder)
    ensures b.audience.None?
    ensures VariantNames(b.percentages) == BucketingNames(bucketing)
    ensures bucketing.Variant? ==> b.percentages == [(bucketing.variant, 100)]
    ensures bucketing.Distribution? ==> b.percentages == bucketing.distribution
  {
    match bucketing
    case Variant(v) => AddBucketVariant(NewRuleBuilder(), v, 100)
    case Distribution(d) => AppendPercentages(NewRuleBuilder(), d)
  }

  /** A single-variant bucketing always builds, into one static bucket [0, 100). */
  lemma SingleVariantRuleBuilds(lang: Language, v: string)
    ensures Rules.Build(lang, RuleBuilderFor(Bucketing.Variant(v))) == Ok(Rule([Bucket(v, 0, 100)], None, None, Static))
  {
    var pairs: seq<(string, U8)> := [(v, 100)];
    assert RuleBuilderFor(Bucketing.Variant(v)) == RuleBuilder(pairs, None);
    assert TotalPercentage(pairs) == 100 by {
      assert pairs[1..] == [];
    }
    var buckets := Layout(pairs, 0).0;
    assert |buckets| == 1 && buckets[0] == Bucket(v, 0, 100);
    assert buckets == [Bucket(v, 0, 100)];
  }

  /** `default_rule_from_config`. */
  function DefaultRuleFromConfig(lang: Language, bucketing: Bucketing): (r: Result<Rule, FetaError>)
    ensures r.Ok? <==> |RuleBuilderFor(bucketing).percentages| > 0 && TotalPercentage(RuleBuilderFor(bucketing).percentages) == 100
    ensures r.Ok? ==> ValidRule(r.value) && r.value.program.None? && r.value.audience.None?
    ensures r.Ok? ==> ReferencedVariants(r.value) == BucketingNames(bucketing)
    ensures r.Ok? ==> BucketsFollow(r.value.buckets, RuleBuilderFor(bucketing).percentages)
    ensures r.Err? ==> r.error == Configuration
  {
    var r := Rules.Build(lang, RuleBuilderFor(bucketing));
    if r.Ok? then BuiltRuleReferencesInOrder(lang, RuleBuilderFor(bucketing)); r else r
  }

  /** `audience_rule_from_config`. */
  function AudienceRuleFromConfig(lang: Language, rule: AudienceRuleConfig): (r: Result<Rule, FetaError>)
    ensures r.Ok? ==> ValidRule(r.value) && r.value.audience == Some(rule.name)
    ensures r.Ok? ==> ReferencedVariants(r.value) == BucketingNames(rule.bucketing)
    ensures r.Ok? ==> BucketsFollow(r.value.buckets, RuleBuilderFor(rule.bucketing).percentages)
    ensures r.Ok? <==>
      && |RuleBuilderFor(rule.bucketing).percentages| > 0
      && TotalPercentage(RuleBuilderFor(rule.bucketing).percentages) == 100
      && lang.compile(rule.expression).Ok?
    ensures r.Err? && (|RuleBuilderFor(rule.bucketing).percentages| == 0 || TotalPercentage(RuleBuilderFor(rule.bucketing).percentages) != 100) ==>
      r.error == Configuration
    ensures r.Err? && |RuleBuilderFor(rule.bucketing).percentages| > 0 && TotalPercentage(RuleBuilderFor(rule.bucketing).percentages) == 100 ==>
      r.error == Targeting
    ensures r.Ok? ==> r.value.program == Some(lang.compile(rule.expression).value)
    ensures r.Err? && r.error == Targeting ==> lang.compile(rule.expression).Err?
  {
    var b := SetAudience(RuleBuilderFor(rule.bucketing), rule.name, rule.expression);
    var r := Rules.Build(lang, b);
    if r.Ok? then BuiltRuleReferencesInOrder(lang, b); r else r
  }

  /** Some element fails with `e` under `build`, and every element before it builds. */
  ghost predicate FailsFirstAt<C>(build: C -> Result<Rule, FetaError>, items: seq<C>, e: FetaError) {
    exists i :: 0 <= i < |items| && build(items[i]) == Err(e) && forall j :: 0 <= j < i ==> build(items[j]).Ok?
  }

  /** The audience-rule loop of `from_config`, over the per-rule constructor
      `build`: each rule is built in order and the first failure is returned. */
  function BuildEach<C>(build: C -> Result<Rule, FetaError>, items: seq<C>): (r: Result<seq<Rule>, FetaError>)
    ensures r.Ok? <==> forall i :: 0 <= i < |items| ==> build(items[i]).Ok?
    ensures r.Ok? ==> |r.value| == |items| && forall i :: 0 <= i < |items| ==> build(items[i]) == Ok(r.value[i])
    ensures r.Err? ==> FailsFirstAt(build, items, r.error)
    decreases |items|
  {
    if |items| == 0 then Ok([])
    else
      var first := build(items[0]);
      if first.Err? then Err(first.error)
      else
        var rest := BuildEach(build, items[1..]);
        assert forall i :: 1 <= i < |items| ==> items[i] == items[1..][i - 1];
        if rest.Err? then
          var k :| 0 <= k < |items| - 1 && build(items[1..][k]) == Err(rest.error)
                   && forall j :: 0 <= j < k ==> build(items[1..][j]).Ok?;
          assert build(items[k + 1]) == Err(rest.error);
          Err(rest.error)
        else Ok([first.value] + rest.value)
  }

  /** Every rule of a configuration builds. */
  ghost predicate RulesBuild(lang: Language, cfg: FeatureConfig) {
    && DefaultRuleFromConfig(lang, cfg.defaultRule).Ok?
    && (forall i :: 0 <= i < |cfg.audienceRules| ==> AudienceRuleFromConfig(lang, cfg.audienceRules[i]).Ok?)
  }

  /** The structural checks of `build`, stated on the configuration itself: typed
      variants, a defined default variant, and only defined variants in any
      bucketing. */
  ghost predicate ConfigConsistent(cfg: FeatureConfig) {
    && VariantsTyped(cfg.variants, cfg.valueType)
    && cfg.defaultVariant in cfg.variants
    && NamesDefined(BucketingNames(cfg.defaultRule), cfg.variants)
    && (forall i :: 0 <= i < |cfg.audienceRules| ==> NamesDefined(BucketingNames(cfg.audienceRules[i].bucketing), cfg.variants))
  }

  /** The builder `from_config` hands to `build`. */
  function ConfiguredBuilder(name: string, cfg: FeatureConfig, defaultRule: Rule, rules: seq<Rule>): (b: FeatureBuilder)
    ensures b == FeatureBuilder(Some(name), cfg.enabled, cfg.valueType, cfg.variants, Some(cfg.defaultVariant), rules, Some(defaultRule))
  {
    var b := SetDefaultRule(SetDefaultVariant(SetEnabled(SetName(NewFeatureBuilder(cfg.valueType), name), cfg.enabled),
                                              cfg.defaultVariant), defaultRule);
    // every configured variant inserted into the empty variant map
    var b := b.(variants := b.variants + cfg.variants);
    b.(rules := b.rules + rules)
  }

  /** `Feature::from_config`: the default rule is built first, then the variants and
      the audience rules in order, then the feature. */
  function FromConfig(lang: Language, name: string, cfg: FeatureConfig): (r: Result<Feature, FetaError>)
    ensures r.Ok? <==> RulesBuild(lang, cfg) && ConfigConsistent(cfg)
    ensures r.Ok? ==> ValidFeature(r.value)
    ensures r.Ok? ==>
      && r.value.name == name && r.value.enabled == cfg.enabled
      && r.value.variants == cfg.variants && r.value.defaultVariant == cfg.defaultVariant
      && |r.value.rules| == |cfg.audienceRules| + 1
    ensures r.Err? ==> r.error != Request
    ensures DefaultRuleFromConfig(lang, cfg.defaultRule).Err? ==> r == Err(Configuration)
    ensures DefaultRuleFromConfig(lang, cfg.defaultRule).Ok? && !(forall i :: 0 <= i < |cfg.audienceRules| ==> AudienceRuleFromConfig(lang, cfg.audienceRules[i]).Ok?) ==>
      r.Err? && FailsFirstAt(AudienceRuleBuilder(lang), cfg.audienceRules, r.error)
    ensures RulesBuild(lang, cfg) && !ConfigConsistent(cfg) ==> r == Err(Configuration)
    ensures r.Err? && r.error == Targeting ==>
      exists i :: 0 <= i < |cfg.audienceRules| && lang.compile(cfg.audienceRules[i].expression).Err?
  {
    FromConfigWith(DefaultRuleBuilder(lang), AudienceRuleBuilder(lang), name, cfg)
  }

  /** The rules of a feature built from a configuration: its audience rules in
      configuration order, each what its constructor made of it, then the default
      rule. */
  lemma FromConfigRules(lang: Language, name: string, cfg: FeatureConfig)
    requires FromConfig(lang, name, cfg).Ok?
    ensures var rules := FromConfig(lang, name, cfg).value.rules;
      && DefaultRuleFromConfig(lang, cfg.defaultRule) == Ok(rules[|cfg.audienceRules|])
      && forall i :: 0 <= i < |cfg.audienceRules| ==> AudienceRuleFromConfig(lang, cfg.audienceRules[i]) == Ok(rules[i])
  {
  }

  /** The buckets of each rule of a feature built from a configuration have the
      widths its bucketing configures. */
  lemma FromConfigWidths(lang: Language, name: string, cfg: FeatureConfig)
    requires FromConfig(lang, name, cfg).Ok?
    ensures var rules := FromConfig(lang, name, cfg).value.rules;
      && |rules| == |cfg.audienceRules| + 1
      && BucketsFollow(rules[|cfg.audienceRules|].buckets, RuleBuilderFor(cfg.defaultRule).percentages)
      && forall i :: 0 <= i < |cfg.audienceRules| ==>
           BucketsFollow(rules[i].buckets, RuleBuilderFor(cfg.audienceRules[i].bucketing).percentages)
  {
    FromConfigRules(lang, name, cfg);
  }

  /** `default_rule_from_config` for a fixed expression language. */
  function DefaultRuleBuilder(lang: Language): (build: Bucketing -> Result<Rule, FetaError>)
    ensures forall bucketing :: build(bucketing) == DefaultRuleFromConfig(lang, bucketing)
    ensures forall bucketing :: build(bucketing).Ok? ==>
      var rule := build(bucketing).value;
      ValidRule(rule) && rule.program.None? && ReferencedVariants(rule) == BucketingNames(bucketing)
    ensures forall bucketing :: build(bucketing).Ok? ==>
      BucketsFollow(build(bucketing).value.buckets, RuleBuilderFor(bucketing).percentages)
    ensures forall bucketing :: build(bucketing).Err? ==> build(bucketing).error == Configuration
  {
    bucketing => DefaultRuleFromConfig(lang, bucketing)
  }

  /** `audience_rule_from_config` for a fixed expression language. */
  function AudienceRuleBuilder(lang: Language): (build: AudienceRuleConfig -> Result<Rule, FetaError>)
    ensures forall config :: build(config) == AudienceRuleFromConfig(lang, config)
    ensures forall config :: build(config).Ok? ==>
      ValidRule(build(config).value) && ReferencedVariants(build(config).value) == BucketingNames(config.bucketing)
    ensures forall config :: build(config).Ok? ==>
      BucketsFollow(build(config).value.buckets, RuleBuilderFor(config.bucketing).percentages)
    ensures forall config :: build(config).Err? ==> build(config).error != Request
    ensures forall config :: build(config).Err? && build(config).error == Targeting ==> lang.compile(config.expression).Err?
  {
    config => AudienceRuleFromConfig(lang, config)
  }

  /** `from_config` over any rule constructors that keep the guarantees of
      `default_rule_from_config` and `audience_rule_from_config`. */
  function FromConfigWith(defaultBuild: Bucketing -> Result<Rule, FetaError>,
                          audienceBuild: AudienceRuleConfig -> Result<Rule, FetaError>,
                          name: string, cfg: FeatureConfig): (r: Result<Feature, FetaError>)
    requires forall bucketing :: defaultBuild(bucketing).Ok? ==>
      var rule := defaultBuild(bucketing).value;
      ValidRule(rule) && rule.program.None? && ReferencedVariants(rule) == BucketingNames(bucketing)
    requires forall bucketing :: defaultBuild(bucketing).Err? ==> defaultBuild(bucketing).error == Configuration
    requires forall config :: audienceBuild(config).Ok? ==>
      ValidRule(audienceBuild(config).value) && ReferencedVariants(audienceBuild(config).value) == BucketingNames(config.bucketing)
    requires forall config :: audienceBuild(config).Err? ==> audienceBuild(config).error != Request
    ensures r.Ok? <==>
      && defaultBuild(cfg.defaultRule).Ok?
      && (forall i :: 0 <= i < |cfg.audienceRules| ==> audienceBuild(cfg.audienceRules[i]).Ok?)
      && ConfigConsistent(cfg)
    ensures r.Ok? ==> ValidFeature(r.value)
    ensures r.Ok? ==>
      && r.value.name == name && r.value.enabled == cfg.enabled
      && r.value.variants == cfg.variants && r.value.defaultVariant == cfg.defaultVariant
      && |r.value.rules| == |cfg.audienceRules| + 1
      && defaultBuild(cfg.defaultRule) == Ok(r.value.rules[|cfg.audienceRules|])
      && forall i :: 0 <= i < |cfg.audienceRules| ==> audienceBuild(cfg.audienceRules[i]) == Ok(r.value.rules[i])
    ensures r.Err? ==> r.error != Request
    ensures defaultBuild(cfg.defaultRule).Err? ==> r == Err(Configuration)
    ensures defaultBuild(cfg.defaultRule).Ok? && !(forall i :: 0 <= i < |cfg.audienceRules| ==> audienceBuild(cfg.audienceRules[i]).Ok?) ==>
      r.Err? && FailsFirstAt(audienceBuild, cfg.audienceRules, r.error)
    ensures (forall i :: 0 <= i < |cfg.audienceRules| ==> audienceBuild(cfg.audienceRules[i]).Ok?) && !ConfigConsistent(cfg) ==>
      r == Err(Configuration)
    ensures r.Err? && r.error == Targeting ==>
      exists i :: 0 <= i < |cfg.audienceRules| && audienceBuild(cfg.audienceRules[i]) == Err(Targeting)
  {
    match defaultBuild(cfg.defaultRule)
    case Err(e) => Err(e)
    case Ok(defaultRule) => WithDefaultRule(audienceBuild, name, cfg, defaultRule)
  }

  /** `from_config` once its default rule is built. */
  function WithDefaultRule(audienceBuild: AudienceRuleConfig -> Result<Rule, FetaError>,
                           name: string, cfg: FeatureConfig, defaultRule: Rule): (r: Result<Feature, FetaError>)
    requires ValidRule(defaultRule) && defaultRule.program.None?
    requires ReferencedVariants(defaultRule) == BucketingNames(cfg.defaultRule)
    requires forall config :: audienceBuild(config).Ok? ==>
      ValidRule(audienceBuild(config).value) && ReferencedVariants(audienceBuild(config).value) == BucketingNames(config.bucketing)
    requires forall config :: audienceBuild(config).Err? ==> audienceBuild(config).error != Request
    ensures r.Ok? <==>
      && (forall i :: 0 <= i < |cfg.audienceRules| ==> audienceBuild(cfg.audienceRules[i]).Ok?)
      && ConfigConsistent(cfg)
    ensures r.Ok? ==> ValidFeature(r.value)
    ensures r.Ok? ==>
      && r.value.name == name && r.value.enabled == cfg.enabled
      && r.value.variants == cfg.variants && r.value.defaultVariant == cfg.defaultVariant
      && |r.value.rules| == |cfg.audienceRules| + 1
      && r.value.rules[|cfg.audienceRules|] == defaultRule
      && forall i :: 0 <= i < |cfg.audienceRules| ==> audienceBuild(cfg.audienceRules[i]) == Ok(r.value.rules[i])
    ensures r.Err? ==> r.error != Request
    ensures !(forall i :: 0 <= i < |cfg.audienceRules| ==> audienceBuild(cfg.audienceRules[i]).Ok?) ==>
      r.Err? && FailsFirstAt(audienceBuild, cfg.audienceRules, r.error)
    ensures (forall i :: 0 <= i < |cfg.audienceRules| ==> audienceBuild(cfg.audienceRules[i]).Ok?) && !ConfigConsistent(cfg) ==>
      r == Err(Configuration)
    ensures r.Err? && r.error == Targeting ==>
      exists i :: 0 <= i < |cfg.audienceRules| && audienceBuild(cfg.audienceRules[i]) == Err(Targeting)
  {
    match BuildEach(audienceBuild, cfg.audienceRules)
    case Err(e) =>
      AudienceLoopFails(audienceBuild, cfg.audienceRules, e);
      Err(e)
    case Ok(rules) => WithAudienceRules(audienceBuild, name, cfg, defaultRule, rules)
  }

  /** `from_config` once the audience-rule loop has built every rule. */
  function WithAudienceRules(audienceBuild: AudienceRuleConfig -> Result<Rule, FetaError>,
                             name: string, cfg: FeatureConfig, defaultRule: Rule, rules: seq<Rule>): (r: Result<Feature, FetaError>)
    requires ValidRule(defaultRule) && defaultRule.program.None?
    requires ReferencedVariants(defaultRule) == BucketingNames(cfg.defaultRule)
    requires forall config :: audienceBuild(config).Ok? ==>
      ValidRule(audienceBuild(config).value) && ReferencedVariants(audienceBuild(config).value) == BucketingNames(config.bucketing)
    requires BuildEach(audienceBuild, cfg.audienceRules) == Ok(rules)
    ensures r.Ok? <==> ConfigConsistent(cfg)
    ensures r.Err? ==> r.error == Configuration
    ensures r.Ok? ==> ValidFeature(r.value)
    ensures r.Ok? ==>
      && r.value.name == name && r.value.enabled == cfg.enabled
      && r.value.variants == cfg.variants && r.value.defaultVariant == cfg.defaultVariant
      && |r.value.rules| == |cfg.audienceRules| + 1
      && r.value.rules[|cfg.audienceRules|] == defaultRule
      && forall i :: 0 <= i < |cfg.audienceRules| ==> audienceBuild(cfg.audienceRules[i]) == Ok(r.value.rules[i])
  {
    WithRules(name, cfg, defaultRule, rules)
  }

  /** The audience-rule loop fails exactly when some rule fails, at the first such
      rule, with an error its constructor can give. */
  lemma AudienceLoopFails(build: AudienceRuleConfig -> Result<Rule, FetaError>, items: seq<AudienceRuleConfig>, e: FetaError)
    requires forall config :: build(config).Err? ==> build(config).error != Request
    requires BuildEach(build, items) == Err(e)
    ensures !(forall i :: 0 <= i < |items| ==> build(items[i]).Ok?)
    ensures FailsFirstAt(build, items, e)
    ensures e != Request
    ensures exists i :: 0 <= i < |items| && build(items[i]) == Err(e)
  {
  }

  /** `from_config` once every rule is built: the audience rules keep their places
      and the default rule comes last. */
  function WithRules(name: string, cfg: FeatureConfig, defaultRule: Rule, rules: seq<Rule>): (r: Result<Feature, FetaError>)
    requires ValidRule(defaultRule) && defaultRule.program.None?
    requires ReferencedVariants(defaultRule) == BucketingNames(cfg.defaultRule)
    requires |rules| == |cfg.audienceRules|
    requires forall i :: 0 <= i < |rules| ==>
      ValidRule(rules[i]) && ReferencedVariants(rules[i]) == BucketingNames(cfg.audienceRules[i].bucketing)
    ensures r.Ok? <==> ConfigConsistent(cfg)
    ensures r.Err? ==> r.error == Configuration
    ensures r.Ok? ==> ValidFeature(r.value)
    ensures r.Ok? ==>
      && r.value.name == name && r.value.enabled == cfg.enabled
      && r.value.variants == cfg.variants && r.value.defaultVariant == cfg.defaultVariant
      && |r.value.rules| == |rules| + 1 && r.value.rules[|rules|] == defaultRule
      && forall i :: 0 <= i < |rules| ==> r.value.rules[i] == rules[i]
  {
    AppendRule(rules, defaultRule);
    Assemble(name, cfg, defaultRule, rules)
  }

  /** Appending the default rule keeps the audience rules in place. */
  lemma AppendRule(rules: seq<Rule>, last: Rule)
    ensures |rules + [last]| == |rules| + 1 && (rules + [last])[|rules|] == last
    ensures forall i :: 0 <= i < |rules| ==> (rules + [last])[i] == rules[i]
  {
  }

  /** The last step of `from_config`: the configured builder, holding rules already
      built, handed to `build`. */
  function Assemble(name: string, cfg: FeatureConfig, defaultRule: Rule, rules: seq<Rule>): (r: Result<Feature, FetaError>)
    requires ValidRule(defaultRule) && defaultRule.program.None?
    requires ReferencedVariants(defaultRule) == BucketingNames(cfg.defaultRule)
    requires |rules| == |cfg.audienceRules|
    requires forall i :: 0 <= i < |rules| ==>
      ValidRule(rules[i]) && ReferencedVariants(rules[i]) == BucketingNames(cfg.audienceRules[i].bucketing)
    ensures r.Ok? <==> ConfigConsistent(cfg)
    ensures r.Err? ==> r.error == Configuration
    ensures r.Ok? ==> ValidFeature(r.value)
    ensures r.Ok? ==> r.value == Feature(name, cfg.enabled, cfg.variants, cfg.defaultVariant,
                                         cfg.variants[cfg.defaultVariant], rules + [defaultRule])
  {
    var b := ConfiguredBuilder(name, cfg, defaultRule, rules);
    FromConfigBuild(cfg, b, defaultRule);
    Build(b)
  }

  /** The final `build` of `from_config` accepts exactly the consistent
      configurations. */
  lemma FromConfigBuild(cfg: FeatureConfig, b: FeatureBuilder, defaultRule: Rule)
    requires b.valueType == cfg.valueType && b.variants == cfg.variants && b.name.Some?
    requires b.defaultVariant == Some(cfg.defaultVariant) && b.defaultRule == Some(defaultRule)
    requires defaultRule.program.None? && ReferencedVariants(defaultRule) == BucketingNames(cfg.defaultRule)
    requires |b.rules| == |cfg.audienceRules|
    requires forall i :: 0 <= i < |b.rules| ==> ReferencedVariants(b.rules[i]) == BucketingNames(cfg.audienceRules[i].bucketing)
    ensures BuildAccepts(b) <==> ConfigConsistent(cfg)
  {
    var rules := b.rules + [defaultRule];
    assert rules[|b.rules|] == defaultRule;
    assert forall i :: 0 <= i < |b.rules| ==> rules[i] == b.rules[i];
  }

  /** The feature of feta's `test_feature_from_config`: variants a = 1 and b = 2,
      default rule a 50/50 split, and one audience rule "beta" sending its members
      to b. */
  function BetaConfig(): FeatureConfig {
    FeatureConfig(true, ValueType.Integer, map["a" := Value.Integer(1), "b" := Value.Integer(2)], "a",
                  [AudienceRuleConfig("beta", "beta", Bucketing.Variant("b"))],
                  Bucketing.Distribution([("a", 50), ("b", 50)]))
  }

  lemma BetaDefaultRule(lang: Language)
    ensures DefaultRuleFromConfig(lang, BetaConfig().defaultRule)
         == Ok(Rule([Bucket("a", 0, 50), Bucket("b", 50, 100)], None, None, Split))
  {
    var split: seq<(string, U8)> := [("a", 50), ("b", 50)];
    assert TotalPercentage(split) == 100 by {
      assert split[1..] == [("b", 50)];
      assert split[1..][1..] == [];
    }
    var bs := Layout(split, 0).0;
    assert |bs| == 2 && bs[0] == Bucket("a", 0, 50) && bs[1] == Bucket("b", 50, 100);
    assert bs == [Bucket("a", 0, 50), Bucket("b", 50, 100)];
  }

  lemma BetaAudienceRule(lang: Language)
    requires lang.compile("beta").Ok?
    ensures AudienceRuleFromConfig(lang, BetaConfig().audienceRules[0])
         == Ok(Rule([Bucket("b", 0, 100)], Some(lang.compile("beta").value), Some("beta"), Match))
  {
    SingleVariantRuleBuilds(lang, "b");
  }

  /** The beta feature builds whenever its audience expression compiles. */
  lemma BetaFeatureBuilds(lang: Language)
    requires lang.compile("beta").Ok?
    ensures FromConfig(lang, "exp", BetaConfig()).Ok?
    ensures |FromConfig(lang, "exp", BetaConfig()).value.rules| == 2
  {
    BetaRulesBuild(lang);
    BetaConsistent();
  }

  /** The audience rule is evaluated first. */
  lemma BetaFirstRule(lang: Language)
    requires lang.compile("beta").Ok?
    ensures FromConfig(lang, "exp", BetaConfig()).Ok?
    ensures FromConfig(lang, "exp", BetaConfig()).value.rules[0]
         == Rule([Bucket("b", 0, 100)], Some(lang.compile("beta").value), Some("beta"), Match)
  {
    BetaFeatureBuilds(lang);
    BetaAudienceRule(lang);
    FromConfigRules(lang, "exp", BetaConfig());
  }

  /** The default split is evaluated last. */
  lemma BetaLastRule(lang: Language)
    requires lang.compile("beta").Ok?
    ensures FromConfig(lang, "exp", BetaConfig()).Ok?
    ensures FromConfig(lang, "exp", BetaConfig()).value.rules[1]
         == Rule([Bucket("a", 0, 50), Bucket("b", 50, 100)], None, None, Split)
  {
    BetaFeatureBuilds(lang);
    BetaDefaultRule(lang);
    FromConfigRules(lang, "exp", BetaConfig());
  }

  lemma BetaRulesBuild(lang: Language)
    requires lang.compile("beta").Ok?
    ensures RulesBuild(lang, BetaConfig())
  {
    BetaDefaultRule(lang);
    BetaAudienceRule(lang);
    OneAudienceRuleBuilds(lang, BetaConfig());
  }

  lemma OneAudienceRuleBuilds(lang: Language, cfg: FeatureConfig)
    requires |cfg.audienceRules| == 1
    requires DefaultRuleFromConfig(lang, cfg.defaultRule).Ok?
    requires AudienceRuleFromConfig(lang, cfg.audienceRules[0]).Ok?
    ensures RulesBuild(lang, cfg)
  {
    forall i | 0 <= i < |cfg.audienceRules|
      ensures AudienceRuleFromConfig(lang, cfg.audienceRules[i]).Ok?
    {
      assert i == 0;
    }
  }

  lemma BetaConsistent()
    ensures ConfigConsistent(BetaConfig())
  {
    var cfg := BetaConfig();
    assert BucketingNames(cfg.defaultRule) == ["a", "b"];
    assert BucketingNames(cfg.audienceRules[0].bucketing) == ["b"];
  }

  /** Members of the beta audience get b with reason Match; everyone else falls
      through to the default split with reason Split: a when the hash residue
      is below 50, b otherwise. */
  lemma BetaFeatureDecides(murmur: Murmur3, lang: Language, ctx: Context)
    requires lang.compile("beta").Ok?
    ensures FromConfig(lang, "exp", BetaConfig()).Ok?
    ensures var f := FromConfig(lang, "exp", BetaConfig()).value;
      var d := Decide(murmur, lang, f, ctx);
      var run := lang.run(lang.compile("beta").value, EnvironmentOf(ctx));
      && (run == Ok(lang.trueObject) ==>
            d == Decision(Calculate(murmur, "exp", ctx.userKey), "b", Match, Value.Integer(2), Some("beta"), None))
      && (run.Ok? && run.value != lang.trueObject ==>
            var h := Calculate(murmur, "exp", ctx.userKey);
            d == if h % 100 < 50 then Decision(h, "a", Split, Value.Integer(1), None, None)
                 else Decision(h, "b", Split, Value.Integer(2), None, None))
  {
    BetaFeatureBuilds(lang);
    BetaFirstRule(lang);
    BetaLastRule(lang);
    var f := FromConfig(lang, "exp", BetaConfig()).value;
    BetaShapeDecides(murmur, lang, f, ctx, lang.compile("beta").value);
  }

  /** Decisions of any enabled, valid feature shaped like the beta feature. */
  lemma BetaShapeDecides(murmur: Murmur3, lang: Language, f: Feature, ctx: Context, p: Program)
    requires ValidFeature(f) && f.enabled && f.name == "exp" && |f.rules| == 2
    requires f.variants == map["a" := Value.Integer(1), "b" := Value.Integer(2)]
    requires f.rules[0] == Rule([Bucket("b", 0, 100)], Some(p), Some("beta"), Match)
    requires f.rules[1] == Rule([Bucket("a", 0, 50), Bucket("b", 50, 100)], None, None, Split)
    ensures var d := Decide(murmur, lang, f, ctx);
      var run := lang.run(p, EnvironmentOf(ctx));
      && (run == Ok(lang.trueObject) ==>
            d == Decision(Calculate(murmur, "exp", ctx.userKey), "b", Match, Value.Integer(2), Some("beta"), None))
      && (run.Ok? && run.value != lang.trueObject ==>
            var h := Calculate(murmur, "exp", ctx.userKey);
            d == if h % 100 < 50 then Decision(h, "a", Split, Value.Integer(1), None, None)
                 else Decision(h, "b", Split, Value.Integer(2), None, None))
  {
    var env := EnvironmentOf(ctx);
    var run := lang.run(p, env);
    if run == Ok(lang.trueObject) {
      DecideFirstMatch(murmur, lang, f, ctx, 0);
    } else if run.Ok? {
      assert IsApplicable(lang, f.rules[0], env) == Ok(false);
      DecideFirstMatch(murmur, lang, f, ctx, 1);
      var x := Calculate(murmur, "exp", ctx.userKey) % 100;
      if x < 50 { assert Contains(f.rules[1].buckets[0], x); }
      else { assert Contains(f.rules[1].buckets[1], x); }
    }
  }
}
