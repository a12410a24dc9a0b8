/** The declarative configuration the registry is built from
    (crates/feta/src/config.rs). It is plain data. The two ordered maps the
    engine iterates, a distribution and the feature table, are sequences of
    their entries in ascending key order, so feta's `BTreeMap` iteration order
    is kept. */
module Config {
  import opened Values
  import opened Rules

  /** How users are split: one variant at 100%, or variant -> percentage. */
  datatype Bucketing =
    | Variant(variant: string)
    | Distribution(distribution: seq<(string, U8)>)

  datatype AudienceRuleConfig = AudienceRuleConfig(name: string, expression: string, bucketing: Bucketing)

  datatype FeatureConfig = FeatureConfig(
    enabled: bool,
    valueType: ValueType,
    variants: map<string, Value>,
    defaultVariant: string,
    audienceRules: seq<AudienceRuleConfig>,
    defaultRule: Bucketing)

  datatype ConfigSet = ConfigSet(features: seq<(string, FeatureConfig)>)

  /** The variant names a bucketing mentions, in iteration order. */
  function BucketingNames(bk: Bucketing): seq<string>
  {
    match bk
    case Variant(v) => [v]
    case Distribution(d) => VariantNames(d)
  }

  /** No feature name occurs twice, as in feta's `BTreeMap` of features. */
  ghost predicate DistinctNames(entries: seq<(string, FeatureConfig)>) {
    forall i, j :: 0 <= i < |entries| && 0 <= j < |entries| && entries[i].0 == entries[j].0 ==> i == j
  }
}
