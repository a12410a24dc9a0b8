/** Rule construction and matching (crates/feta/src/rule.rs): percentage lists
    become contiguous half-open buckets over [0, 100), optionally gated by a
    compiled audience expression. */
module Rules {
  import opened Wrappers
  import opened Errors
  import opened Decisions
  import opened Hash
  import opened Targeting

  /** Rust `u8`: the type of a configured percentage. */
  type U8 = x: int | 0 <= x < 256

  /** The half-open range [lower, upper) of hash residues that selects `variant`. */
  datatype Bucket = Bucket(variant: string, lower: nat, upper: nat)

  predicate Contains(b: Bucket, x: int) {
    b.lower <= x < b.upper
  }

  /** `(variant, percentage)` pairs in insertion order, and an optional
      `(audience name, expression text)`. */
  datatype RuleBuilder = RuleBuilder(percentages: seq<(string, U8)>, audience: Option<(string, string)>)

  /** A built rule; `reason` is fixed at build time. */
  datatype Rule = Rule(buckets: seq<Bucket>, program: Option<Program>, audience: Option<string>, reason: Reason)

  function NewRuleBuilder(): (b: RuleBuilder)
    ensures b.percentages == [] && b.audience.None?
  {
    RuleBuilder([], None)
  }

  /** `RuleBuilder::variant`: appends one pair. */
  function AddBucketVariant(b: RuleBuilder, variant: string, percentage: U8): (r: RuleBuilder)
    ensures r.percentages == b.percentages + [(variant, percentage)] && r.audience == b.audience
  {
    b.(percentages := b.percentages + [(variant, percentage)])
  }

  /** `RuleBuilder::audience`: attaches (or replaces) the audience expression. */
  function SetAudience(b: RuleBuilder, audience: string, expression: string): (r: RuleBuilder)
    ensures r.audience == Some((audience, expression)) && r.percentages == b.percentages
  {
    b.(audience := Some((audience, expression)))
  }

  /** The sum of the percentages: an independent statement of where the running
      bound must end. */
  function TotalPercentage(pairs: seq<(string, U8)>): nat {
    if |pairs| == 0 then 0 else pairs[0].1 + TotalPercentage(pairs[1..])
  }

  /** The variant names of a pair list, in order. */
  function VariantNames(pairs: seq<(string, U8)>): (names: seq<string>)
    ensures |names| == |pairs| && forall i :: 0 <= i < |pairs| ==> names[i] == pairs[i].0
  {
    seq(|pairs|, i requires 0 <= i < |pairs| => pairs[i].0)
  }

  /** The buckets are laid out contiguously, in input order, and each has the width
      of its percentage. */
  ghost predicate BucketsFollow(bs: seq<Bucket>, pairs: seq<(string, U8)>) {
    && |bs| == |pairs|
    && forall i :: 0 <= i < |bs| ==> bs[i].variant == pairs[i].0 && bs[i].upper == bs[i].lower + pairs[i].1
  }

  ghost predicate Contiguous(bs: seq<Bucket>) {
    forall i :: 0 <= i < |bs| - 1 ==> bs[i].upper == bs[i + 1].lower
  }

  /** The buckets partition [0, 100): non-empty, starting at 0, each well-formed,
      each starting where the previous one ends, the last ending at 100. */
  ghost predicate Partition(bs: seq<Bucket>) {
    && |bs| > 0
    && bs[0].lower == 0
    && bs[|bs| - 1].upper == 100
    && (forall i :: 0 <= i < |bs| ==> bs[i].lower <= bs[i].upper)
    && Contiguous(bs)
  }

  /** The reason classification table. */
  function ReasonFor(bucketCount: nat, hasAudience: bool): (r: Reason)
    ensures r in {Static, Split, Match, MatchSplit}
    ensures (r == Match || r == MatchSplit) <==> hasAudience
    ensures (r == Static || r == Match) <==> bucketCount == 1
  {
    if bucketCount == 1 then (if hasAudience then Match else Static)
    else (if hasAudience then MatchSplit else Split)
  }

  /** What every built rule satisfies. */
  ghost predicate ValidRule(r: Rule) {
    && Partition(r.buckets)
    && r.reason == ReasonFor(|r.buckets|, r.audience.Some?)
    && (r.program.Some? <==> r.audience.Some?)
  }

  /** The bucket-building pass of `build`: each pair gets the bucket
      [bound, bound + percentage) and moves the running bound to its end. Returns
      the buckets and the final bound. */
  function Layout(pairs: seq<(string, U8)>, start: nat): (r: (seq<Bucket>, nat))
    ensures BucketsFollow(r.0, pairs) && Contiguous(r.0)
    ensures |r.0| > 0 ==> r.0[0].lower == start && r.0[|r.0| - 1].upper == r.1
    ensures r.1 == start + TotalPercentage(pairs)
    decreases |pairs|
  {
    if |pairs| == 0 then ([], start)
    else
      var b := Bucket(pairs[0].0, start, start + pairs[0].1);
      var rest := Layout(pairs[1..], b.upper);
      ([b] + rest.0, rest.1)
  }

  /** `RuleBuilder::build`. */
  function Build(lang: Language, b: RuleBuilder): (r: Result<Rule, FetaError>)
    ensures r.Ok? <==>
      && |b.percentages| > 0
      && TotalPercentage(b.percentages) == 100
      && (b.audience.Some? ==> lang.compile(b.audience.value.1).Ok?)
    ensures r.Err? && (|b.percentages| == 0 || TotalPercentage(b.percentages) != 100) ==>
      r.error == Configuration
    ensures r.Err? && |b.percentages| > 0 && TotalPercentage(b.percentages) == 100 ==>
      r.error == Targeting
    ensures r.Ok? ==> ValidRule(r.value) && BucketsFollow(r.value.buckets, b.percentages)
    ensures r.Ok? ==> r.value.reason == ReasonFor(|b.percentages|, b.audience.Some?)
    ensures r.Ok? && b.audience.None? ==> r.value.program.None? && r.value.audience.None?
    ensures r.Ok? && b.audience.Some? ==>
      && r.value.audience == Some(b.audience.value.0)
      && r.value.program == Some(lang.compile(b.audience.value.1).value)
  {
    var (buckets, bound) := Layout(b.percentages, 0);
    if |buckets| == 0 || bound != 100 then Err(Configuration)
    else
      var reason := if |buckets| == 1 then Static else Split;
      match b.audience
      case None => Ok(Rule(buckets, None, None, reason))
      case Some((aud, expr)) =>
        match lang.compile(expr)
        case Err(_) => Err(Targeting)
        case Ok(program) =>
          var targeted := match reason
            case Static => Match
            case Split => MatchSplit
            case _ => reason;
          Ok(Rule(buckets, Some(program), Some(aud), targeted))
  }

  /** A percentage list sums by parts. */
  lemma {:induction false} TotalPercentageAppend(p: seq<(string, U8)>, q: seq<(string, U8)>)
    ensures TotalPercentage(p + q) == TotalPercentage(p) + TotalPercentage(q)
    decreases |p|
  {
    if |p| == 0 {
      assert p + q == q;
    } else {
      assert (p + q)[1..] == p[1..] + q;
      TotalPercentageAppend(p[1..], q);
    }
  }

  /** Buckets laid out from 0 start each at the sum of the percentages before them. */
  lemma {:induction false} PrefixSums(bs: seq<Bucket>, ps: seq<(string, U8)>, i: nat)
    requires BucketsFollow(bs, ps) && Contiguous(bs) && i < |bs| && bs[0].lower == 0
    ensures bs[i].lower == TotalPercentage(ps[..i])
    ensures bs[i].upper == TotalPercentage(ps[..i + 1])
  {
    assert ps[..i + 1] == ps[..i] + [ps[i]];
    TotalPercentageAppend(ps[..i], [ps[i]]);
    assert TotalPercentage([ps[i]]) == ps[i].1 by {
      assert [ps[i]][1..] == ps[..0];
    }
    if i == 0 {
      assert ps[..0] == [];
    } else {
      PrefixSums(bs, ps, i - 1);
      assert ps[..i - 1 + 1] == ps[..i];
    }
  }

  /** In a built rule each bucket starts at the sum of the percentages before it
      and ends at that sum plus its own percentage. */
  lemma BucketBoundsArePrefixSums(lang: Language, b: RuleBuilder, i: nat)
    requires Build(lang, b).Ok? && i < |b.percentages|
    ensures Build(lang, b).value.buckets[i].lower == TotalPercentage(b.percentages[..i])
    ensures Build(lang, b).value.buckets[i].upper == TotalPercentage(b.percentages[..i + 1])
  {
    PrefixSums(Build(lang, b).value.buckets, b.percentages, i);
  }

  /** Every residue in [lower of the first, upper of the last) falls in some
      bucket of a contiguous list. */
  lemma {:induction false} ContiguousCovers(bs: seq<Bucket>, x: int)
    requires |bs| > 0 && Contiguous(bs)
    requires bs[0].lower <= x < bs[|bs| - 1].upper
    ensures exists i :: 0 <= i < |bs| && Contains(bs[i], x)
    decreases |bs|
  {
    if x < bs[0].upper {
      assert Contains(bs[0], x);
    } else {
      var rest := bs[1..];
      assert rest[0] == bs[1];
      ContiguousCovers(rest, x);
      var i :| 0 <= i < |rest| && Contains(rest[i], x);
      assert Contains(bs[i + 1], x);
    }
  }

  /** In a partition a later bucket starts no earlier than an earlier one ends. */
  lemma {:induction false} PartitionOrdered(bs: seq<Bucket>, i: nat, j: nat)
    requires Partition(bs) && i < j < |bs|
    ensures bs[i].upper <= bs[j].lower
    decreases j - i
  {
    if j > i + 1 {
      PartitionOrdered(bs, i, j - 1);
    }
  }

  /** Partition buckets do not overlap: a residue lies in at most one bucket. */
  lemma PartitionDisjoint(bs: seq<Bucket>, x: int)
    requires Partition(bs)
    ensures forall i, j :: 0 <= i < |bs| && 0 <= j < |bs| && Contains(bs[i], x) && Contains(bs[j], x) ==> i == j
  {
    forall i, j | 0 <= i < |bs| && 0 <= j < |bs| && Contains(bs[i], x) && Contains(bs[j], x)
      ensures i == j
    {
      if i < j {
        PartitionOrdered(bs, i, j);
      } else if j < i {
        PartitionOrdered(bs, j, i);
      }
    }
  }

  /** The first bucket containing `x`, as the linear `find` in `Rule::get_variant`. */
  function FindBucket(bs: seq<Bucket>, x: int): (r: Option<string>)
    ensures r.None? <==> forall i :: 0 <= i < |bs| ==> !Contains(bs[i], x)
    ensures r.Some? ==> exists i :: 0 <= i < |bs| && Contains(bs[i], x) && r.value == bs[i].variant
                                    && forall j :: 0 <= j < i ==> !Contains(bs[j], x)
    decreases |bs|
  {
    if |bs| == 0 then None
    else if Contains(bs[0], x) then Some(bs[0].variant)
    else
      var r := FindBucket(bs[1..], x);
      assert forall i :: 1 <= i < |bs| ==> bs[i] == bs[1..][i - 1];
      r
  }

  /** `Rule::get_variant`: the variant of the bucket holding `hash % 100`. The
      Rust code panics when no bucket holds it, which a partition rules out. */
  function GetVariant(rule: Rule, hash: U32): (v: string)
    requires Partition(rule.buckets)
    ensures exists i :: 0 <= i < |rule.buckets| && Contains(rule.buckets[i], hash % 100) && v == rule.buckets[i].variant
    ensures forall i :: 0 <= i < |rule.buckets| && Contains(rule.buckets[i], hash % 100) ==> v == rule.buckets[i].variant
  {
    ContiguousCovers(rule.buckets, hash % 100);
    PartitionDisjoint(rule.buckets, hash % 100);
    FindBucket(rule.buckets, hash % 100).value
  }

  /** Only the residue modulo 100 matters. */
  lemma GetVariantModulo(rule: Rule, hash: U32)
    requires Partition(rule.buckets)
    ensures GetVariant(rule, hash) == GetVariant(rule, hash % 100)
  {
    var x := hash % 100;
    assert x % 100 == x;
  }

  /** A 50/50 split: residues 0..49 give `a`, 50..99 give `b`, and 100 wraps to 0. */
  lemma FiftyFiftySplit(lang: Language)
    ensures var r := Build(lang, AddBucketVariant(AddBucketVariant(NewRuleBuilder(), "a", 50), "b", 50));
      && r.Ok? && r.value.reason == Split
      && GetVariant(r.value, 0) == "a" && GetVariant(r.value, 49) == "a"
      && GetVariant(r.value, 50) == "b" && GetVariant(r.value, 51) == "b"
      && GetVariant(r.value, 99) == "b" && GetVariant(r.value, 100) == "a"
  {
    var r := Build(lang, AddBucketVariant(AddBucketVariant(NewRuleBuilder(), "a", 50), "b", 50));
    assert r.value.buckets == [Bucket("a", 0, 50), Bucket("b", 50, 100)];
  }

  /** `Rule::is_applicable`: unconditional without a program; otherwise true exactly
      when the program evaluates to the boolean `true`, any other result counting
      as false and a runtime failure becoming a Targeting error. */
  function IsApplicable(lang: Language, rule: Rule, env: Environment): (r: Result<bool, FetaError>)
    ensures rule.program.None? ==> r == Ok(true)
    ensures rule.program.Some? ==> (r.Err? <==> lang.run(rule.program.value, env).Err?)
    ensures r.Err? ==> r.error == Targeting
    ensures r.Ok? && rule.program.Some? ==> (r.value <==> lang.run(rule.program.value, env) == Ok(lang.trueObject))
  {
    match rule.program
    case None => Ok(true)
    case Some(p) =>
      match lang.run(p, env)
      case Err(_) => Err(Targeting)
      case Ok(result) => Ok(result == lang.trueObject)
  }

  /** A rule built without an audience applies in every environment. */
  lemma UnconditionalRuleApplies(lang: Language, b: RuleBuilder, env: Environment)
    requires b.audience.None? && Build(lang, b).Ok?
    ensures IsApplicable(lang, Build(lang, b).value, env) == Ok(true)
  {
  }

  /** `Rule::referenced_variants`: the bucket variants in bucket order. */
  function ReferencedVariants(rule: Rule): (vs: seq<string>)
    ensures |vs| == |rule.buckets|
    ensures forall i :: 0 <= i < |vs| ==> vs[i] == rule.buckets[i].variant
  {
    seq(|rule.buckets|, i requires 0 <= i < |rule.buckets| => rule.buckets[i].variant)
  }

  /** A built rule references exactly the variants it was given, in insertion order. */
  lemma BuiltRuleReferencesInOrder(lang: Language, b: RuleBuilder)
    requires Build(lang, b).Ok?
    ensures ReferencedVariants(Build(lang, b).value) == VariantNames(b.percentages)
  {
  }
}
