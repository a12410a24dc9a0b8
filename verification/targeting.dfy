/** The audience-expression capability and the evaluation context
    (crates/feta/src/context.rs and the two entry points of the external `mexl`
    expression language). The language itself is not part of this model: its
    compiler and interpreter are parameters, and nothing is assumed about them. */
module Targeting {
  import opened Wrappers

  /** A compiled audience expression. */
  type Program

  /** A runtime value of the expression language. */
  type Object(==)

  /** The attribute bindings an expression is evaluated against. */
  type Environment = map<string, Object>

  /** `compile` and `run`, each failing with an error message, plus the object the
      engine compares a result against (`true.into()`). */
  datatype Language = Language(
    compile: string -> Result<Program, string>,
    run: (Program, Environment) -> Result<Object, string>,
    trueObject: Object)

  /** The caller's identity and optional targeting attributes. */
  datatype Context = Context(userKey: string, attributes: Option<map<string, Object>>)

  /** `Context::new`: a key and no attributes. */
  function NewContext(userKey: string): (ctx: Context)
    ensures ctx.userKey == userKey && ctx.attributes.None?
  {
    Context(userKey, None)
  }

  /** The environment `decide` builds: every attribute bound under its own name;
      with no attributes, the empty environment (absent names stay unbound). */
  function EnvironmentOf(ctx: Context): (env: Environment)
    ensures ctx.attributes.None? ==> env == map[]
    ensures ctx.attributes.Some? ==> env.Keys == ctx.attributes.value.Keys
    ensures forall k :: k in env ==> ctx.attributes.Some? && env[k] == ctx.attributes.value[k]
  {
    match ctx.attributes
    case None => map[]
    case Some(attrs) => map k | k in attrs :: attrs[k]
  }
}
