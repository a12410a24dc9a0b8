/** Decision reasons, decisions and the decision builder
    (crates/feta/src/decision.rs). */
module Decisions {
  import opened Wrappers
  import opened Values
  import opened Errors
  import opened Hash

  datatype Reason = Unknown | Disabled | Static | Split | Match | MatchSplit | Error

  /** The fixed external name of each reason (display and serialisation agree). */
  function ReasonName(r: Reason): (name: string)
    ensures |name| > 0
  {
    match r
    case Unknown => "unknown"
    case Disabled => "disabled"
    case Static => "static"
    case Split => "split"
    case Match => "match"
    case MatchSplit => "match_split"
    case Error => "error"
  }

  /** Reading a reason back from its external name. */
  function ParseReason(name: string): (r: Option<Reason>)
    ensures r.Some? ==> ReasonName(r.value) == name
  {
    if name == "unknown" then Some(Unknown)
    else if name == "disabled" then Some(Disabled)
    else if name == "static" then Some(Static)
    else if name == "split" then Some(Split)
    else if name == "match" then Some(Match)
    else if name == "match_split" then Some(MatchSplit)
    else if name == "error" then Some(Error)
    else None
  }

  /** The seven names round-trip, hence are pairwise distinct. */
  lemma ReasonNameRoundTrip(r: Reason)
    ensures ParseReason(ReasonName(r)) == Some(r)
    ensures forall s: Reason :: ReasonName(s) == ReasonName(r) ==> s == r
  {
  }

  /** The full result of evaluating one feature for one context. */
  datatype Decision = Decision(
    hash: U32,
    variant: string,
    reason: Reason,
    value: Value,
    audience: Option<string>,
    error: Option<FetaError>)

  /** A decision under construction; `variant` is unset until a setter runs. */
  datatype DecisionBuilder = DecisionBuilder(
    hash: U32,
    variant: Option<string>,
    reason: Reason,
    value: Value,
    audience: Option<string>,
    error: Option<FetaError>)

  /** `DecisionBuilder::new` (also `Default`). */
  function NewDecisionBuilder(): (b: DecisionBuilder)
    ensures b.hash == 0 && b.reason == Unknown && b.value == Null
    ensures b.variant.None? && b.audience.None? && b.error.None?
  {
    DecisionBuilder(0, None, Unknown, Null, None, None)
  }

  function WithHash(b: DecisionBuilder, hash: U32): (r: DecisionBuilder)
    ensures r.hash == hash
    ensures r.variant == b.variant && r.reason == b.reason && r.value == b.value
    ensures r.audience == b.audience && r.error == b.error
  {
    b.(hash := hash)
  }

  function WithVariant(b: DecisionBuilder, variant: string): (r: DecisionBuilder)
    ensures r.variant == Some(variant)
    ensures r.hash == b.hash && r.reason == b.reason && r.value == b.value
    ensures r.audience == b.audience && r.error == b.error
  {
    b.(variant := Some(variant))
  }

  function WithValue(b: DecisionBuilder, value: Value): (r: DecisionBuilder)
    ensures r.value == value
    ensures r.hash == b.hash && r.variant == b.variant && r.reason == b.reason
    ensures r.audience == b.audience && r.error == b.error
  {
    b.(value := value)
  }

  function WithAudience(b: DecisionBuilder, audience: string): (r: DecisionBuilder)
    ensures r.audience == Some(audience)
    ensures r.hash == b.hash && r.variant == b.variant && r.reason == b.reason
    ensures r.value == b.value && r.error == b.error
  {
    b.(audience := Some(audience))
  }

  /** A second write to the same field replaces the first; writes to different
      fields commute. */
  lemma LastWriteWins(b: DecisionBuilder, h1: U32, h2: U32, v1: string, v2: string,
                      x1: Value, x2: Value, a1: string, a2: string)
    ensures WithHash(WithHash(b, h1), h2) == WithHash(b, h2)
    ensures WithVariant(WithVariant(b, v1), v2) == WithVariant(b, v2)
    ensures WithValue(WithValue(b, x1), x2) == WithValue(b, x2)
    ensures WithAudience(WithAudience(b, a1), a2) == WithAudience(b, a2)
    ensures WithHash(WithVariant(b, v1), h1) == WithVariant(WithHash(b, h1), v1)
    ensures WithHash(WithValue(b, x1), h1) == WithValue(WithHash(b, h1), x1)
    ensures WithHash(WithAudience(b, a1), h1) == WithAudience(WithHash(b, h1), a1)
    ensures WithVariant(WithValue(b, x1), v1) == WithValue(WithVariant(b, v1), x1)
    ensures WithVariant(WithAudience(b, a1), v1) == WithAudience(WithVariant(b, v1), a1)
    ensures WithValue(WithAudience(b, a1), x1) == WithAudience(WithValue(b, x1), a1)
  {
  }

  /** `build`: an unset variant becomes the empty string; every other field is
      copied as it stands. */
  function BuildDecision(b: DecisionBuilder): (d: Decision)
    ensures b.variant.Some? ==> d.variant == b.variant.value
    ensures b.variant.None? ==> d.variant == ""
    ensures d.hash == b.hash && d.reason == b.reason && d.value == b.value
    ensures d.audience == b.audience && d.error == b.error
  {
    Decision(b.hash, b.variant.GetOr(""), b.reason, b.value, b.audience, b.error)
  }

  /** `disabled`: reason `Disabled`, everything else as built so far. */
  function Disable(b: DecisionBuilder): (d: Decision)
    ensures d.reason == Disabled
    ensures d.hash == b.hash && d.variant == b.variant.GetOr("") && d.value == b.value
    ensures d.audience == b.audience && d.error == b.error
  {
    BuildDecision(b.(reason := Disabled))
  }

  /** `success(reason)`: the given reason, everything else as built so far. */
  function Succeed(b: DecisionBuilder, reason: Reason): (d: Decision)
    ensures d.reason == reason
    ensures d.hash == b.hash && d.variant == b.variant.GetOr("") && d.value == b.value
    ensures d.audience == b.audience && d.error == b.error
  {
    BuildDecision(b.(reason := reason))
  }

  /** `error(e)`: reason `Error` carrying `e`; hash, variant, value and audience
      are kept, so an error decision still carries the fallback prepared so far. */
  function Fail(b: DecisionBuilder, e: FetaError): (d: Decision)
    ensures d.reason == Error && d.error == Some(e)
    ensures d.hash == b.hash && d.variant == b.variant.GetOr("") && d.value == b.value
    ensures d.audience == b.audience
  {
    BuildDecision(b.(reason := Error, error := Some(e)))
  }

  /** Whatever the builder holds, the three terminal operations never leave the
      reason `Unknown`, and only `Fail` reports an error it did not already hold. */
  lemma TerminalReasons(b: DecisionBuilder, r: Reason, e: FetaError)
    requires r != Unknown
    ensures Disable(b).reason != Unknown && Succeed(b, r).reason != Unknown
    ensures Fail(b, e).reason != Unknown
    ensures Fail(b, e).error.Some? && Disable(b).error == Succeed(b, r).error == b.error
  {
  }

  /** The builder's documented chains: a fully set builder yields exactly the
      fields that were written. */
  lemma BuilderChains(h: U32, v: string, x: Value, a: string, r: Reason, e: FetaError)
    ensures Succeed(WithAudience(WithValue(WithVariant(WithHash(NewDecisionBuilder(), h), v), x), a), r)
         == Decision(h, v, r, x, Some(a), None)
    ensures Disable(WithValue(WithVariant(WithHash(NewDecisionBuilder(), h), v), x))
         == Decision(h, v, Disabled, x, None, None)
    ensures Fail(WithValue(WithVariant(WithHash(NewDecisionBuilder(), h), v), x), e)
         == Decision(h, v, Error, x, None, Some(e))
    ensures Fail(WithHash(NewDecisionBuilder(), h), e) == Decision(h, "", Error, Null, None, Some(e))
  {
  }
}
