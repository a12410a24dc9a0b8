/** The closed set of feature value types and values (crates/feta/src/value.rs). */
module Values {
  import opened Wrappers

  /** Rust `i64`. */
  type I64 = x: int | -0x8000_0000_0000_0000 <= x < 0x8000_0000_0000_0000

  /** Rust `f64`, kept as its IEEE 754 bit pattern: the engine only inspects tags,
      never the numeric value of a float. */
  type F64 = bv64

  /** The declared type of a feature's variants. */
  datatype ValueType = Integer | Float | Boolean | String

  /** A variant value. `Null` is the placeholder of an undecided result and never a
      valid configured value. */
  datatype Value =
    | Null
    | Integer(i: I64)
    | Float(f: F64)
    | Boolean(b: bool)
    | String(s: string)

  /** The type a value carries, or `None` for `Null`; an independent statement of
      which tag belongs to which type. */
  function TypeOf(v: Value): (t: Option<ValueType>)
    ensures t.None? <==> v.Null?
  {
    match v
    case Null => None
    case Integer(_) => Some(ValueType.Integer)
    case Float(_) => Some(ValueType.Float)
    case Boolean(_) => Some(ValueType.Boolean)
    case String(_) => Some(ValueType.String)
  }

  /** `Value::has_type`: an exact tag match, with no coercion between types. */
  function HasType(v: Value, t: ValueType): (r: bool)
    ensures r <==> TypeOf(v) == Some(t)
  {
    match (v, t)
    case (Integer(_), Integer) => true
    case (Float(_), Float) => true
    case (Boolean(_), Boolean) => true
    case (String(_), String) => true
    case _ => false
  }

  /** `Null` satisfies no declared type. */
  lemma NullHasNoType(t: ValueType)
    ensures !HasType(Value.Null, t)
  {
  }

  /** For every type exactly one constructor satisfies it. */
  lemma {:induction false} HasTypeExactlyOneConstructor(v: Value)
    ensures HasType(v, ValueType.Integer) <==> v.Integer?
    ensures HasType(v, ValueType.Float) <==> v.Float?
    ensures HasType(v, ValueType.Boolean) <==> v.Boolean?
    ensures HasType(v, ValueType.String) <==> v.String?
  {
  }

  /** A value has at most one type: there is no coercion between tags. */
  lemma NoCoercion(v: Value, t1: ValueType, t2: ValueType)
    requires HasType(v, t1) && HasType(v, t2)
    ensures t1 == t2
  {
  }

  /** `From<i64> for Value`. */
  function FromI64(x: I64): (v: Value)
    ensures HasType(v, ValueType.Integer) && v.i == x
  {
    Value.Integer(x)
  }

  /** `From<f64> for Value`. */
  function FromF64(x: F64): (v: Value)
    ensures HasType(v, ValueType.Float) && v.f == x
  {
    Value.Float(x)
  }

  /** `From<bool> for Value`. */
  function FromBool(x: bool): (v: Value)
    ensures HasType(v, ValueType.Boolean) && v.b == x
  {
    Value.Boolean(x)
  }

  /** `From<&str>` and `From<String> for Value`: both keep the text unchanged. */
  function FromString(x: string): (v: Value)
    ensures HasType(v, ValueType.String) && v.s == x
  {
    Value.String(x)
  }

  /** The display name of a value type. */
  function TypeName(t: ValueType): (name: string)
    ensures |name| > 0
  {
    match t
    case Integer => "integer"
    case Float => "float"
    case Boolean => "boolean"
    case String => "string"
  }

  /** The configuration spelling of a value type: the snake-case name, or one of
      the aliases `int` and `bool`. */
  function ParseTypeName(name: string): (t: Option<ValueType>)
    ensures forall u :: t == Some(u) <==>
      name == TypeName(u) || (name == "int" && u == ValueType.Integer) || (name == "bool" && u == ValueType.Boolean)
  {
    if name == "integer" || name == "int" then Some(ValueType.Integer)
    else if name == "float" then Some(ValueType.Float)
    else if name == "boolean" || name == "bool" then Some(ValueType.Boolean)
    else if name == "string" then Some(ValueType.String)
    else None
  }

  /** The display names are the configuration names, and they are pairwise distinct. */
  lemma TypeNameRoundTrip(t: ValueType)
    ensures ParseTypeName(TypeName(t)) == Some(t)
    ensures forall u: ValueType :: TypeName(u) == TypeName(t) ==> u == t
  {
  }
}
