# feta evaluation core in Dafny

This project models the evaluation engine of the `feta` feature-flag crate.
The model covers:

- typed variant values (`Values`);
- decisions and the decision builder (`Decisions`);
- percentage rules with hash buckets and an optional audience expression (`Rules`);
- features: the feature builder, its validation, construction from configuration, and evaluation (`Features`);
- the registry that builds every feature from one configuration and decides one feature or all of them (`Registry`).
- the feature of feta's evaluation test `test_feature_evaluate`, built and evaluated for every hash (`FeatureExamples`).

The module `Features` models one feature (feature.rs). The registry's datatype, which feta also calls `Features` (features.rs), is `Registry.Features`.

Two outside capabilities are parameters:

- The Murmur3 hash is a function `string -> U32`. `Hash.Calculate` applies it to the feature name followed by the user key.
- The mexl expression language is a `Language` value. It has a `compile` from text to an abstract `Program`, a `run` of a program over an attribute environment, and the object that counts as `true`.

A configured feature is an ordered list of rules. The audience rules come first, in configuration order. The unconditional default rule is last. A rule's buckets tile the range [0, 100) in the order its variants were given. A user gets the bucket that holds `hash % 100`, where the hash is taken over the feature name followed by the user key. The first applicable rule decides.

Two places where the model departs from the wording or checks of the Rust code:

- The comment on `RuleBuilder::audience` calls it "marks the rule as the default rule". The code attaches an audience name and an expression, and the model follows the code.
- feta panics on a rule whose buckets do not cover `hash % 100`. Here that is a precondition: `Rules.GetVariant` requires `Partition`, and `Features.Decide` requires `Evaluable`. The model also proves that every rule and feature the builders produce meets these preconditions.

## Model

| member | source | states |
|---|---|---|
| Values.HasType | crates/feta/src/value.rs:43-52 | a value has a type exactly when its constructor is that type's; `Null` has no type |
| Values.NullHasNoType | crates/feta/src/value.rs:44-52 | `Null` satisfies no value type, so a null variant never passes the type check of `build` |
| Values.HasTypeExactlyOneConstructor | crates/feta/src/value.rs:153-168 | each of the four value types accepts exactly its own constructor, and no other |
| Values.NoCoercion | crates/feta/src/value.rs:44-52 | no value has two types; integers are not floats, and so on |
| Values.FromI64 | crates/feta/src/value.rs:55-60 | converting an i64 gives an Integer-typed value that carries the same number |
| Values.FromF64 | crates/feta/src/value.rs:62-67 | converting an f64 gives a Float-typed value that carries the same bits |
| Values.FromBool | crates/feta/src/value.rs:69-74 | converting a bool gives a Boolean-typed value that carries the same flag |
| Values.FromString | crates/feta/src/value.rs:76-88 | converting text gives a String-typed value that carries the same text |
| Values.TypeName | crates/feta/src/value.rs:19-28 | every value type has a non-empty display name; that the four names are distinct and parse back is `Values.TypeNameRoundTrip` |
| Values.ParseTypeName | crates/feta/src/value.rs:6-17 | a configuration type name parses to a type exactly when it is that type's display name or its alias: `int` gives Integer and `bool` gives Boolean; any other text is rejected |
| Values.TypeNameRoundTrip | crates/feta/src/value.rs:6-28 | each type's display name parses back to that type, and no two types share a display name |
| Decisions.ParseReason | crates/feta/src/decision.rs:7-33 | only a display name is accepted, and it names the reason it parses to |
| Decisions.ReasonName | crates/feta/src/decision.rs:20-33 | every reason has a non-empty display name; that the seven names are distinct and parse back is `Decisions.ReasonNameRoundTrip` |
| Decisions.ReasonNameRoundTrip | crates/feta/src/decision.rs:7-33 | each reason's snake-case name parses back to that reason, and no two reasons share a name |
| Decisions.NewDecisionBuilder | crates/feta/src/decision.rs:57-67 | a new builder has hash 0, reason Unknown, a Null value and no variant, audience or error |
| Decisions.WithHash | crates/feta/src/decision.rs:69-73 | sets the hash and leaves every other field alone |
| Decisions.WithVariant | crates/feta/src/decision.rs:75-79 | sets the variant and leaves every other field alone |
| Decisions.WithValue | crates/feta/src/decision.rs:81-85 | sets the value and leaves every other field alone |
| Decisions.WithAudience | crates/feta/src/decision.rs:87-91 | sets the audience and leaves every other field alone |
| Decisions.LastWriteWins | crates/feta/src/decision.rs:69-91 | setting a field twice keeps the second value, for each of the four setters; any two setters of different fields commute (all six pairs) |
| Decisions.BuildDecision | crates/feta/src/decision.rs:112-122 | a built decision copies every field, and a missing variant becomes the empty string |
| Decisions.Disable | crates/feta/src/decision.rs:93-97 | the decision has reason Disabled and keeps everything the builder held |
| Decisions.Succeed | crates/feta/src/decision.rs:99-103 | the decision has the given reason and keeps everything the builder held |
| Decisions.Fail | crates/feta/src/decision.rs:105-110 | the decision has reason Error and the given error, and keeps hash, variant, value and audience |
| Decisions.TerminalReasons | crates/feta/src/decision.rs:93-110 | no terminal operation leaves reason Unknown; only `error` sets an error |
| Decisions.BuilderChains | crates/feta/src/decision.rs:57-122 | the builder chains the engine uses produce exactly the expected decision records |
| Hash.CalculateSeesOnlyConcatenation | crates/feta/src/hash.rs:4-11 | the hash depends only on the feature name followed by the user key, so splitting the same text differently gives the same hash |
| Hash.ConcatenationCollisionExample | crates/feta/src/hash.rs:4-11 | feature "ab" with user "c" hashes like feature "a" with user "bc" |
| Targeting.NewContext | crates/feta/src/context.rs:24-31 | a new context holds the user key and no attributes |
| Targeting.EnvironmentOf | crates/feta/src/feature.rs:212-217 | the evaluation environment is empty without attributes; otherwise it holds exactly the context's attributes |
| Rules.NewRuleBuilder | crates/feta/src/rule.rs:21-28 | a new rule builder has no variants and no audience |
| Rules.AddBucketVariant | crates/feta/src/rule.rs:30-34 | a variant and its percentage are appended after those already added; the audience is kept |
| Rules.SetAudience | crates/feta/src/rule.rs:36-40 | records the audience name and its expression; the percentages are kept |
| Rules.VariantNames | crates/feta/src/rule.rs:30-34 | lists the variant names of the percentage pairs, in insertion order |
| Rules.Layout | crates/feta/src/rule.rs:44-58 | each pair gets a bucket that starts where the previous one ended; the last bound is the start plus the sum of percentages |
| Rules.ReasonFor | crates/feta/src/rule.rs:66-88 | a built rule's reason is one of Static, Split, Match and MatchSplit; it is Match or MatchSplit exactly when the rule has an audience, and Static or Match exactly when it has a single bucket |
| Rules.Build | crates/feta/src/rule.rs:42-97 | builds iff there is at least one variant, the percentages sum to exactly 100, and any audience expression compiles. A bad split is a Configuration error and a bad expression a Targeting error. A built rule's buckets tile [0, 100) in insertion order. Its reason is Static, Split, Match or MatchSplit by bucket count and audience. It has a program exactly when it has an audience |
| Rules.TotalPercentageAppend | crates/feta/src/rule.rs:44-58 | the running bound after two lists of pairs is the sum of their totals |
| Rules.PrefixSums | crates/feta/src/rule.rs:44-58 | in contiguous buckets starting at 0, bucket i spans from the sum of the first i percentages to the sum of the first i+1 |
| Rules.BucketBoundsArePrefixSums | crates/feta/src/rule.rs:44-58 | in a built rule, bucket i spans from the sum of the first i percentages to the sum of the first i+1 |
| Rules.ContiguousCovers | crates/feta/src/rule.rs:129-138 | contiguous buckets leave no gap: every point between the first lower bound and the last upper bound is in some bucket |
| Rules.PartitionOrdered | crates/feta/src/rule.rs:129-138 | buckets of a partition are ordered: an earlier bucket ends before a later one starts |
| Rules.PartitionDisjoint | crates/feta/src/rule.rs:129-138 | no point lies in two buckets of a partition |
| Rules.FindBucket | crates/feta/src/rule.rs:132-134 | the search finds nothing exactly when no bucket holds the point; otherwise it returns the variant of the first bucket that holds it, as a linear `find` does |
| Rules.GetVariant | crates/feta/src/rule.rs:129-138 | for a rule whose buckets tile [0, 100), the chosen variant is the one bucket holding `hash % 100`, which always exists and is unique |
| Rules.GetVariantModulo | crates/feta/src/rule.rs:130-131 | only `hash % 100` matters: a hash and its remainder choose the same variant |
| Rules.FiftyFiftySplit | crates/feta/src/rule.rs:260-274 | an a:50/b:50 rule builds and sends hashes 0 and 49 to a, 50, 51 and 99 to b, and 100 to a |
| Rules.IsApplicable | crates/feta/src/rule.rs:118-127 | a rule without an expression always applies. Otherwise it applies iff the program runs to the `true` object. A run failure is a Targeting error |
| Rules.UnconditionalRuleApplies | crates/feta/src/rule.rs:118-127 | a rule built without an audience applies in every environment |
| Rules.ReferencedVariants | crates/feta/src/rule.rs:140-143 | lists each bucket's variant, in bucket order |
| Rules.BuiltRuleReferencesInOrder | crates/feta/src/rule.rs:276-289 | a built rule references exactly the variants it was given, in the order given |
| Features.NewFeatureBuilder | crates/feta/src/feature.rs:28-39 | a new feature builder has the given value type, is disabled, and has no name, variants, default or rules |
| Features.SetName | crates/feta/src/feature.rs:41-45 | records the name and changes nothing else |
| Features.SetEnabled | crates/feta/src/feature.rs:47-51 | records the flag and changes nothing else |
| Features.SetVariant | crates/feta/src/feature.rs:53-57 | adds or replaces one variant; every other variant and field is kept |
| Features.SetDefaultVariant | crates/feta/src/feature.rs:59-63 | records the default variant and changes nothing else |
| Features.SetDefaultRule | crates/feta/src/feature.rs:65-69 | records the default rule and changes nothing else |
| Features.AddAudienceRule | crates/feta/src/feature.rs:71-75 | appends an audience rule after those already added and changes nothing else |
| Features.FirstUndefined | crates/feta/src/feature.rs:114-120 | finds an undefined name exactly when some name in the list is not a variant |
| Features.UndefinedReference | crates/feta/src/feature.rs:113-122 | finds an undefined name exactly when some rule's bucket names a missing variant |
| Features.Build | crates/feta/src/feature.rs:77-134 | builds iff every variant has the declared type, the default variant is set and defined, a default rule without expression is set, every rule names only defined variants, and a name is set. Every failure is a Configuration error. The feature's rules are the audience rules followed by the default rule, and a feature built from valid rules is valid |
| Features.ValidFeatureIsEvaluable | crates/feta/src/rule.rs:135 | a valid feature can be evaluated without the bucket lookup panicking |
| Features.VariantValue | crates/feta/src/feature.rs:243-252 | returns the configured value of a defined variant, and a Configuration error otherwise |
| Features.Fallback | crates/feta/src/feature.rs:201-206 | before any rule is consulted, the decision holds the default variant and value and the hash, with reason Unknown and no audience or error |
| Features.EvalRules | crates/feta/src/feature.rs:219-240 | the rule loop never changes the recorded hash; what it decides is stated by `Features.EvalSkips`, `Features.DecideFirstMatch` and `Features.EvalRulesSettles` |
| Features.Decide | crates/feta/src/feature.rs:199-210 | the hash always comes from the feature name and user key; a disabled feature gives its default with reason Disabled and evaluates no rule |
| Features.EvalSkips | crates/feta/src/feature.rs:219-236 | rules that do not apply are skipped without effect |
| Features.DecideFirstMatch | crates/feta/src/feature.rs:219-236 | when rule i is the first that applies, the decision is its bucket's variant for the hash, that variant's value, the rule's reason and audience, and no error |
| Features.DecideTargetingError | crates/feta/src/feature.rs:220-223 | an expression that fails to run on a rule the scan reaches gives reason Error, a Targeting error, and the default variant and value, with no audience |
| Features.EvalRulesSettles | crates/feta/src/feature.rs:219-240 | on a valid feature the scan ends either in a rule's success with a defined variant and its value, or in a Targeting error; the "no applicable rules" and "variant not defined" errors cannot occur |
| Features.DecideNeverUnknown | crates/feta/src/feature.rs:199-241 | a valid feature never decides Unknown. An error decision is always a Targeting error that keeps the default. A success carries a defined variant and its value |
| Features.AppendPercentages | crates/feta/src/feature.rs:156-160 | a distribution's pairs are appended in iteration order and the audience is untouched |
| Features.RuleBuilderFor | crates/feta/src/feature.rs:151-163 | a single variant becomes one pair at 100; a distribution becomes its pairs in key order; no audience is set |
| Features.SingleVariantRuleBuilds | crates/feta/src/feature.rs:152-155 | a single-variant bucketing always builds, into one static bucket [0, 100) |
| Features.DefaultRuleFromConfig | crates/feta/src/feature.rs:137-140 | the default rule builds exactly when the bucketing's pairs are non-empty and sum to 100; a failure is a Configuration error. A built default rule is valid, has no audience or expression, references the configured variants in order, and its buckets have the configured widths in that order |
| Features.AudienceRuleFromConfig | crates/feta/src/feature.rs:142-149 | an audience rule builds exactly when its bucketing's pairs are non-empty and sum to 100 and its expression compiles. A bad split is a Configuration error; with a good split, an error is a Targeting error from compilation. A built rule is valid, carries the rule's name as audience and the compiled expression as program, references the configured variants in order, and its buckets have the configured widths in that order |
| Features.BuildEach | crates/feta/src/feature.rs:188-194 | the audience rules all build iff each does; on success they keep their order; on failure the error is that of the first rule that fails |
| Features.ConfiguredBuilder | crates/feta/src/feature.rs:178-194 | the builder `from_config` hands to `build` holds the given name, the configured flag, type, variants and default variant, the built default rule and the built audience rules in order |
| Features.FromConfig | crates/feta/src/feature.rs:176-197 | builds iff every configured rule builds and the configuration is consistent (typed variants, defined default, only defined variants referenced). The feature is valid, keeps the configured name, flag, variants and default, and has one rule per audience rule plus the default. Errors come in the order the Rust code meets them: a failing default rule gives Configuration; otherwise the first failing audience rule gives its own error; otherwise an inconsistent configuration gives Configuration. No error is a Request error, and a Targeting error means some audience expression did not compile |
| Features.FromConfigRules | crates/feta/src/feature.rs:182-196 | the configured audience rules come first, in configuration order, and the default rule is last |
| Features.FromConfigWidths | crates/feta/src/feature.rs:137-163 | each rule of a feature built from a configuration has buckets whose widths are the percentages its bucketing configures |
| Features.FromConfigWith | crates/feta/src/feature.rs:176-197 | `from_config` holds its guarantees, including the order of its errors, for any rule constructors with the default-rule and audience-rule guarantees (the default rule fails only with Configuration, an audience rule never with Request) |
| Features.WithDefaultRule | crates/feta/src/feature.rs:184-196 | once the default rule is built, the rest of `from_config` succeeds iff every audience rule builds and the configuration is consistent; if some audience rule fails, the error is that of the first one to fail; if all build, an inconsistent configuration gives Configuration |
| Features.WithAudienceRules | crates/feta/src/feature.rs:188-196 | once the audience-rule loop has built every rule, `from_config` succeeds iff the configuration is consistent, fails with Configuration otherwise, and places each audience rule where its configuration stands |
| Features.AudienceLoopFails | crates/feta/src/feature.rs:188-194 | when the audience-rule loop fails, some rule failed, the error is that of the first failing rule, and it is one the constructor can give |
| Features.WithRules | crates/feta/src/feature.rs:184-196 | once every rule is built, `from_config` succeeds iff the configuration is consistent, and fails with a Configuration error otherwise |
| Features.Assemble | crates/feta/src/feature.rs:196 | the final `build` gives exactly the feature with the configured fields and the audience rules followed by the default rule |
| Features.FromConfigBuild | crates/feta/src/feature.rs:78-122 | the checks of `build` on the configured builder hold exactly when the configuration is consistent |
| Features.BetaFeatureBuilds | crates/feta/src/feature.rs:371-394 | the beta configuration (a=1, b=2, default a, beta audience to b, default split a:50/b:50) builds whenever its expression compiles, into two rules |
| Features.BetaFirstRule | crates/feta/src/feature.rs:371-394 | the beta feature's first rule sends everyone to b under audience "beta" with reason Match |
| Features.BetaLastRule | crates/feta/src/feature.rs:371-394 | the beta feature's last rule is the a:50/b:50 split with reason Split and no expression |
| Features.BetaRulesBuild | crates/feta/src/feature.rs:371-394 | every rule of the beta configuration builds when its expression compiles |
| Features.BetaConsistent | crates/feta/src/feature.rs:371-394 | the beta configuration passes every structural check of `build` |
| Features.BetaFeatureDecides | crates/feta/src/feature.rs:371-394 | evaluating (as `decide` does) the feature built from this configuration: a beta-audience member gets b = 2 with reason Match and audience "beta"; anyone else falls through to the 50/50 split with reason Split and no audience: a = 1 when the hash residue is below 50, b = 2 otherwise |
| Features.BetaShapeDecides | crates/feta/src/feature.rs:199-241 | the same decisions, exactly, for any enabled valid feature with the beta feature's rules and variants |
| FeatureExamples.ThirdsRuleBuilds | crates/feta/src/feature.rs:412-419 | the a:34/b:33/c:33 default rule of the evaluation test builds into buckets [0,34), [34,67), [67,100) with reason Split |
| FeatureExamples.BetaRuleBuilds | crates/feta/src/feature.rs:420-426 | the "beta" rule (d at 100) builds whenever its expression compiles, into one bucket with reason Match and audience "beta" |
| FeatureExamples.InternalRuleBuilds | crates/feta/src/feature.rs:427-434 | the "internal" rule (a at 1, d at 99) builds whenever its expression compiles, into buckets [0,1) and [1,100) with reason MatchSplit |
| FeatureExamples.EvaluateFeature | crates/feta/src/feature.rs:404-436 | the feature of the evaluation test is a valid feature |
| FeatureExamples.EvaluateBuilderFields | crates/feta/src/feature.rs:404-434 | the test's setter chain leaves the builder with name "exp", enabled, variants a..d = 1..4, default a, the two audience rules in order and the default split |
| FeatureExamples.AcceptedBuild | crates/feta/src/feature.rs:77-134 | a builder holding exactly the fields of a valid feature, with that feature's last rule as default rule, builds into that feature |
| FeatureExamples.EvaluateFeatureBuilds | crates/feta/src/feature.rs:404-436 | the test's builder, given its built rules, builds into the feature whose rules are "beta", "internal", then the default split |
| FeatureExamples.EvaluateFeatureDecides | crates/feta/src/feature.rs:438-487 | for every context and hash: a "beta" member gets d = 4, Match, audience "beta"; else an "internal" member gets MatchSplit, audience "internal", and d = 4 unless the hash residue is 0 (then a = 1); else the default split gives Split, no audience, and a, b or c by residue below 34, below 67, or above |
| FeatureExamples.EvaluateShapeDecides | crates/feta/src/feature.rs:199-241 | the same three outcomes for any enabled valid feature with the test's variants and rules |
| FeatureExamples.InternalMemberDecides | crates/feta/src/feature.rs:469-479 | a context outside "beta" but in "internal" gets reason MatchSplit and audience "internal", with a for residue 0 and d otherwise |
| FeatureExamples.FallThroughDecides | crates/feta/src/feature.rs:438-459 | a context in neither audience gets the default split: a, b or c by residue, reason Split, no audience |
| Registry.ValidRegistryIsEvaluable | crates/feta/src/features.rs:29-37 | every feature of a valid registry can be evaluated |
| Registry.DefaultFeatures | crates/feta/src/features.rs:11-15 | the default registry holds no features and is valid |
| Registry.NameSet | crates/feta/src/features.rs:22-24 | the registered names are exactly the configured names |
| Registry.InsertEach | crates/feta/src/features.rs:20-26 | the insertion loop succeeds iff every entry builds. A failure is the first failing entry's error. A success holds exactly the earlier entries plus the configured names, each bound to a feature built from its entry |
| Registry.FromConfig | crates/feta/src/features.rs:18-27 | the registry builds iff every configured feature builds, and otherwise reports the first failure. The registry holds exactly the configured names and is valid. With distinct names, each name holds the feature built from its configuration |
| Registry.Register | crates/feta/src/features.rs:18-27 | the same guarantees for any feature constructor that yields valid features under their own names |
| Registry.Decide | crates/feta/src/features.rs:29-37 | a registered name is decided by its feature. Any other name gives reason Error, a Request error, a Null value and empty variant, and still the hash of the requested name |
| Registry.DecideAll | crates/feta/src/features.rs:39-48 | there is exactly one decision per registered feature, and each equals deciding that feature alone |
| Registry.DecideAllIndependent | crates/feta/src/features.rs:39-48 | replacing or adding one feature leaves every other feature's decision unchanged |
| Registry.DecideReportsRequestedName | crates/feta/src/features.rs:78-90 | in a valid registry every decision carries the hash of the requested name and never reason Unknown |
| Registry.DefaultRegistryIsEmpty | crates/feta/src/features.rs:11-15 | the default registry decides nothing in `decide_all` and answers every `decide` with a Request error |
| Registry.ConfiguredRegistryNeverUnknown | crates/feta/src/features.rs:29-37 | a registry built from any configuration never decides Unknown and never reports a Configuration error |

## Left out

- The WASI host layer, tracking, concurrency and swapping of the registry are outside the evaluation core.
- JSON and serde (de)serialisation are out of scope, beyond the type-name and reason-name tables and their aliases.
- The Murmur3 hash is a parameter. Test expectations that depend on its concrete values (that user key "g" lands in a, or that a hash is non-zero) are not modelled; the evaluation test's outcomes are stated for every hash residue instead.
- mexl is a parameter: compiling and running expressions and the object model are abstract.
- Float values are carried as 64-bit patterns; floating-point arithmetic and comparison are not modelled.
- Errors are modelled as kinds (Configuration, Request, Targeting) without their message text.
- `Registry.DecideAll` returns a map, so HashMap iteration order does not arise.
- Rules.Build: the `is_default` flag is never set by any caller, so its error branch is dead and not modelled.
- Rules.Build: bucket bounds are unbounded naturals rather than u32. An overflow would need more than 16 million percentage pairs.
- The ordered maps of the configuration that the engine iterates (a distribution, the feature table) are sequences of entries in ascending key order. Distinct keys are assumed where they matter (`Config.DistinctNames`).
- Values.FromString: both `From<&str>` and `From<String>` are modelled by this one function.
- Hash.Calculate: has no contract of its own; its meaning is stated by `Hash.CalculateSeesOnlyConcatenation`.
