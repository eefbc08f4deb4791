/** The runtime values a caller passes as operation arguments, and the errors the
    generator raises. A Python value is classified by its exact type, as the scalar
    encoder does: a subclass of `str`, `int` or `datetime` that is not an `Enum` is
    an `Other` value. */
module Values {

  datatype Value =
    | Null                                            // None
    | Unset                                           // strawberry.UNSET
    | Bool(b: bool)
    | Int(i: int)
    | Float(bits: bv64)
    | Str(s: string)
    | DateTime(iso: string)                           // a datetime, by its isoformat() text
    | EnumMember(valueText: string, valueIsStr: bool) // str() of its .value, and whether .value is a str
    | List(items: seq<Value>)
    | Mapping(entries: seq<(string, Value)>)          // a dict, in insertion order
    | Dataclass(typeName: string, fields: seq<(string, Value)>) // accepted by strawberry.asdict
    | Other(typeName: string)                         // any other object

  /** Exceptions the generator lets propagate to its caller. */
  datatype Error =
    | UnsupportedType(typeName: string)  // TypeError raised by serialize_scalar
    | NonStrJoinItem                     // TypeError raised by str.join on a non-str item
    | MissingTypesAttribute              // AttributeError: the response type has no .types
    | MissingMutationType                // AttributeError: the schema's mutation type is None

  /** The values the scalar encoder renders rather than rejects. */
  predicate IsScalar(v: Value)
  {
    v.Null? || v.Unset? || v.Bool? || v.Int? || v.Float? || v.Str? || v.DateTime? || v.EnumMember?
  }

  /** The type a rejected value is reported by. */
  function TypeName(v: Value): string
    requires !IsScalar(v)
  {
    match v
    case List(_) => "list"
    case Mapping(_) => "dict"
    case Dataclass(name, _) => name
    case Other(name) => name
  }

  /** An enum member whose `.value` is not a string: `str.join` refuses it. */
  predicate NonStrEnum(v: Value)
  {
    v.EnumMember? && !v.valueIsStr
  }
}
