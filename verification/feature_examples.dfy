/** The feature of feta's evaluation test (crates/feta/src/feature.rs,
    `test_feature_evaluate`): variants a..d = 1..4, default a, a default split
    a:34/b:33/c:33, and two audience rules, "beta" sending its members to d and
    "internal" splitting a:1/d:99. Which bucket a user key lands in depends on
    the concrete hash; here it is stated for every hash. */
module FeatureExamples {
  import opened Wrappers
  import opened Values
  import opened Decisions
  import opened Hash
  import opened Targeting
  import opened Rules
  import opened Features

  function ThirdsBuilder(): RuleBuilder {
    AddBucketVariant(AddBucketVariant(AddBucketVariant(NewRuleBuilder(), "a", 34), "b", 33), "c", 33)
  }

  function BetaBuilder(): RuleBuilder {
    SetAudience(AddBucketVariant(NewRuleBuilder(), "d", 100), "beta", "beta")
  }

  function InternalBuilder(): RuleBuilder {
    SetAudience(AddBucketVariant(AddBucketVariant(NewRuleBuilder(), "a", 1), "d", 99), "internal", "internal")
  }

  function ThirdsRule(): Rule {
    Rule([Bucket("a", 0, 34), Bucket("b", 34, 67), Bucket("c", 67, 100)], None, None, Split)
  }

  function BetaRule(p: Program): Rule {
    Rule([Bucket("d", 0, 100)], Some(p), Some("beta"), Match)
  }

  function InternalRule(p: Program): Rule {
    Rule([Bucket("a", 0, 1), Bucket("d", 1, 100)], Some(p), Some("internal"), MatchSplit)
  }

  function EvaluateVariants(): map<string, Value> {
    map["a" := Value.Integer(1), "b" := Value.Integer(2), "c" := Value.Integer(3), "d" := Value.Integer(4)]
  }

  /** The builder chain of the test, given its three built rules. */
  function EvaluateBuilder(defaultRule: Rule, beta: Rule, internal: Rule): FeatureBuilder {
    var b := SetEnabled(SetName(NewFeatureBuilder(ValueType.Integer), "exp"), true);
    var b := SetVariant(SetVariant(SetVariant(SetVariant(b, "a", Value.Integer(1)), "b", Value.Integer(2)),
                                   "c", Value.Integer(3)), "d", Value.Integer(4));
    AddAudienceRule(AddAudienceRule(SetDefaultRule(SetDefaultVariant(b, "a"), defaultRule), beta), internal)
  }

  /** The default split a:34/b:33/c:33 builds into three contiguous buckets. */
  lemma ThirdsRuleBuilds(lang: Language)
    ensures Rules.Build(lang, ThirdsBuilder()) == Ok(ThirdsRule())
  {
    var pairs: seq<(string, U8)> := [("a", 34), ("b", 33), ("c", 33)];
    assert ThirdsBuilder().percentages == pairs;
    assert TotalPercentage(pairs) == 100 by {
      assert pairs[1..] == [("b", 33), ("c", 33)];
      assert pairs[1..][1..] == [("c", 33)];
      assert pairs[1..][1..][1..] == [];
    }
    var bs := Layout(pairs, 0).0;
    assert |bs| == 3 && bs[0] == Bucket("a", 0, 34) && bs[1] == Bucket("b", 34, 67) && bs[2] == Bucket("c", 67, 100);
    assert bs == ThirdsRule().buckets;
  }

  /** The "beta" rule builds whenever its expression compiles. */
  lemma BetaRuleBuilds(lang: Language)
    requires lang.compile("beta").Ok?
    ensures Rules.Build(lang, BetaBuilder()) == Ok(BetaRule(lang.compile("beta").value))
  {
    var pairs: seq<(string, U8)> := [("d", 100)];
    assert BetaBuilder().percentages == pairs;
    assert TotalPercentage(pairs) == 100 by {
      assert pairs[1..] == [];
    }
    var bs := Layout(pairs, 0).0;
    assert |bs| == 1 && bs[0] == Bucket("d", 0, 100);
    assert bs == BetaRule(lang.compile("beta").value).buckets;
  }

  /** The "internal" rule builds whenever its expression compiles. */
  lemma InternalRuleBuilds(lang: Language)
    requires lang.compile("internal").Ok?
    ensures Rules.Build(lang, InternalBuilder()) == Ok(InternalRule(lang.compile("internal").value))
  {
    var pairs: seq<(string, U8)> := [("a", 1), ("d", 99)];
    assert InternalBuilder().percentages == pairs;
    assert TotalPercentage(pairs) == 100 by {
      assert pairs[1..] == [("d", 99)];
      assert pairs[1..][1..] == [];
    }
    var bs := Layout(pairs, 0).0;
    assert |bs| == 2 && bs[0] == Bucket("a", 0, 1) && bs[1] == Bucket("d", 1, 100);
    assert bs == InternalRule(lang.compile("internal").value).buckets;
  }

  /** The feature the test builds, for the compiled programs of its two audience
      expressions. */
  function EvaluateFeature(pb: Program, pi: Program): (f: Feature)
    ensures ValidFeature(f)
  {
    EvaluateFeatureValid(pb, pi);
    Feature("exp", true, EvaluateVariants(), "a", Value.Integer(1), [BetaRule(pb), InternalRule(pi), ThirdsRule()])
  }

  lemma EvaluateFeatureValid(pb: Program, pi: Program)
    ensures ValidFeature(Feature("exp", true, EvaluateVariants(), "a", Value.Integer(1), [BetaRule(pb), InternalRule(pi), ThirdsRule()]))
  {
    assert ReferencedVariants(BetaRule(pb)) == ["d"];
    assert ReferencedVariants(InternalRule(pi)) == ["a", "d"];
    assert ReferencedVariants(ThirdsRule()) == ["a", "b", "c"];
  }

  /** The setter chain leaves the builder holding exactly the test's fields. */
  lemma EvaluateBuilderFields(defaultRule: Rule, beta: Rule, internal: Rule)
    ensures EvaluateBuilder(defaultRule, beta, internal)
         == FeatureBuilder(Some("exp"), true, ValueType.Integer, EvaluateVariants(), Some("a"), [beta, internal], Some(defaultRule))
  {
  }

  /** With its rules built, the test's feature builds: the audience rules in the
      order added, then the default split. */
  lemma EvaluateFeatureBuilds(pb: Program, pi: Program)
    ensures Features.Build(EvaluateBuilder(ThirdsRule(), BetaRule(pb), InternalRule(pi))) == Ok(EvaluateFeature(pb, pi))
  {
    var f := EvaluateFeature(pb, pi);
    var b := EvaluateBuilder(ThirdsRule(), BetaRule(pb), InternalRule(pi));
    EvaluateBuilderFields(ThirdsRule(), BetaRule(pb), InternalRule(pi));
    assert f.rules[..2] == [BetaRule(pb), InternalRule(pi)];
    EvaluateVariantsTyped();
    AcceptedBuild(b, f);
  }

  /** Every variant of the test is an integer. */
  lemma EvaluateVariantsTyped()
    ensures VariantsTyped(EvaluateVariants(), ValueType.Integer)
  {
  }

  /** A builder whose fields are those of a valid feature, with the default rule
      last, builds into that feature. */
  lemma AcceptedBuild(b: FeatureBuilder, f: Feature)
    requires ValidFeature(f) && |f.rules| > 0
    requires b == FeatureBuilder(Some(f.name), f.enabled, b.valueType, f.variants, Some(f.defaultVariant),
                                 f.rules[..|f.rules| - 1], Some(f.rules[|f.rules| - 1]))
    requires VariantsTyped(f.variants, b.valueType)
    ensures Features.Build(b) == Ok(f)
  {
    assert b.rules + [b.defaultRule.value] == f.rules;
  }

  /** Decisions of the test's feature for every context and every hash:
      - a member of "beta" gets d = 4 with reason Match and audience "beta";
      - otherwise a member of "internal" gets reason MatchSplit and audience
        "internal", with a for hash residue 0 and d = 4 for every other residue;
      - anyone else falls through to the default split with reason Split and no
        audience: a below 34, b below 67, c from 67 on. */
  lemma EvaluateFeatureDecides(murmur: Murmur3, lang: Language, ctx: Context, pb: Program, pi: Program)
    ensures var env := EnvironmentOf(ctx);
      var h := Calculate(murmur, "exp", ctx.userKey);
      var d := Features.Decide(murmur, lang, EvaluateFeature(pb, pi), ctx);
      && (lang.run(pb, env) == Ok(lang.trueObject) ==>
            d == Decision(h, "d", Match, Value.Integer(4), Some("beta"), None))
      && (lang.run(pb, env).Ok? && lang.run(pb, env).value != lang.trueObject && lang.run(pi, env) == Ok(lang.trueObject) ==>
            d == (if h % 100 == 0 then Decision(h, "a", MatchSplit, Value.Integer(1), Some("internal"), None)
                  else Decision(h, "d", MatchSplit, Value.Integer(4), Some("internal"), None)))
      && (lang.run(pb, env).Ok? && lang.run(pb, env).value != lang.trueObject &&
          lang.run(pi, env).Ok? && lang.run(pi, env).value != lang.trueObject ==>
            d == (if h % 100 < 34 then Decision(h, "a", Split, Value.Integer(1), None, None)
                  else if h % 100 < 67 then Decision(h, "b", Split, Value.Integer(2), None, None)
                  else Decision(h, "c", Split, Value.Integer(3), None, None)))
  {
    EvaluateShapeDecides(murmur, lang, EvaluateFeature(pb, pi), ctx, pb, pi);
  }

  /** The decisions of any enabled, valid feature with the test's variants and rules. */
  lemma EvaluateShapeDecides(murmur: Murmur3, lang: Language, f: Feature, ctx: Context, pb: Program, pi: Program)
    requires ValidFeature(f) && f.enabled && f.name == "exp" && f.variants == EvaluateVariants()
    requires f.rules == [BetaRule(pb), InternalRule(pi), ThirdsRule()]
    ensures var env := EnvironmentOf(ctx);
      var h := Calculate(murmur, "exp", ctx.userKey);
      var d := Features.Decide(murmur, lang, f, ctx);
      && (lang.run(pb, env) == Ok(lang.trueObject) ==>
            d == Decision(h, "d", Match, Value.Integer(4), Some("beta"), None))
      && (lang.run(pb, env).Ok? && lang.run(pb, env).value != lang.trueObject && lang.run(pi, env) == Ok(lang.trueObject) ==>
            d == (if h % 100 == 0 then Decision(h, "a", MatchSplit, Value.Integer(1), Some("internal"), None)
                  else Decision(h, "d", MatchSplit, Value.Integer(4), Some("internal"), None)))
      && (lang.run(pb, env).Ok? && lang.run(pb, env).value != lang.trueObject &&
          lang.run(pi, env).Ok? && lang.run(pi, env).value != lang.trueObject ==>
            d == (if h % 100 < 34 then Decision(h, "a", Split, Value.Integer(1), None, None)
                  else if h % 100 < 67 then Decision(h, "b", Split, Value.Integer(2), None, None)
                  else Decision(h, "c", Split, Value.Integer(3), None, None)))
  {
    var env := EnvironmentOf(ctx);
    if lang.run(pb, env) == Ok(lang.trueObject) {
      DecideFirstMatch(murmur, lang, f, ctx, 0);
    } else if lang.run(pb, env).Ok? {
      assert IsApplicable(lang, f.rules[0], env) == Ok(false);
      if lang.run(pi, env) == Ok(lang.trueObject) {
        InternalMemberDecides(murmur, lang, f, ctx, pb, pi);
      } else if lang.run(pi, env).Ok? {
        FallThroughDecides(murmur, lang, f, ctx, pb, pi);
      }
    }
  }

  /** Not in "beta" but in "internal": the internal split, a only for residue 0. */
  lemma InternalMemberDecides(murmur: Murmur3, lang: Language, f: Feature, ctx: Context, pb: Program, pi: Program)
    requires ValidFeature(f) && f.enabled && f.name == "exp" && f.variants == EvaluateVariants()
    requires f.rules == [BetaRule(pb), InternalRule(pi), ThirdsRule()]
    requires IsApplicable(lang, f.rules[0], EnvironmentOf(ctx)) == Ok(false)
    requires lang.run(pi, EnvironmentOf(ctx)) == Ok(lang.trueObject)
    ensures var h := Calculate(murmur, "exp", ctx.userKey);
      Features.Decide(murmur, lang, f, ctx)
        == if h % 100 == 0 then Decision(h, "a", MatchSplit, Value.Integer(1), Some("internal"), None)
           else Decision(h, "d", MatchSplit, Value.Integer(4), Some("internal"), None)
  {
    var x := Calculate(murmur, "exp", ctx.userKey) % 100;
    DecideFirstMatch(murmur, lang, f, ctx, 1);
    if x == 0 {
      assert Contains(f.rules[1].buckets[0], x);
    } else {
      assert Contains(f.rules[1].buckets[1], x);
    }
  }

  /** In neither audience: the default split by residue. */
  lemma FallThroughDecides(murmur: Murmur3, lang: Language, f: Feature, ctx: Context, pb: Program, pi: Program)
    requires ValidFeature(f) && f.enabled && f.name == "exp" && f.variants == EvaluateVariants()
    requires f.rules == [BetaRule(pb), InternalRule(pi), ThirdsRule()]
    requires IsApplicable(lang, f.rules[0], EnvironmentOf(ctx)) == Ok(false)
    requires lang.run(pi, EnvironmentOf(ctx)).Ok? && lang.run(pi, EnvironmentOf(ctx)).value != lang.trueObject
    ensures var h := Calculate(murmur, "exp", ctx.userKey);
      Features.Decide(murmur, lang, f, ctx)
        == if h % 100 < 34 then Decision(h, "a", Split, Value.Integer(1), None, None)
           else if h % 100 < 67 then Decision(h, "b", Split, Value.Integer(2), None, None)
           else Decision(h, "c", Split, Value.Integer(3), None, None)
  {
    var x := Calculate(murmur, "exp", ctx.userKey) % 100;
    assert IsApplicable(lang, f.rules[1], EnvironmentOf(ctx)) == Ok(false);
    DecideFirstMatch(murmur, lang, f, ctx, 2);
    if x < 34 {
      assert Contains(f.rules[2].buckets[0], x);
    } else if x < 67 {
      assert Contains(f.rules[2].buckets[1], x);
    } else {
      assert Contains(f.rules[2].buckets[2], x);
    }
  }
}
