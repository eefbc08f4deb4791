/** The scalar encoder: one runtime value to GraphQL literal text. */
module Scalars {
  import opened Wrappers
  import opened Text
  import opened Host
  import opened Values

  /** `json.dumps` of a string: the escaped text between double quotes. */
  function Quoted(lib: Library, s: string): string
  {
    "\"" + lib.escapeJson(s) + "\""
  }

  predicate IsQuoted(s: string)
  {
    |s| >= 2 && s[0] == '"' && s[|s| - 1] == '"'
  }

  /** `serialize_scalar`. The exact-type test on str/int/float/bool/NoneType comes
      first, then the exact datetime test, then the Enum test, then UNSET;
      everything else is a TypeError naming the value's type. */
  function SerializeScalar(lib: Library, v: Value): (r: Result<string, Error>)
    ensures r.Success? <==> IsScalar(v)
    ensures r.Failure? ==> r.error == UnsupportedType(TypeName(v))
    ensures v.Null? || v.Unset? ==> r == Success("null")
    ensures v.Bool? ==> r == Success(if v.b then "true" else "false")
    ensures v.Int? ==> r.Success? && IsIntText(r.value) && ParseInt(r.value) == v.i
    ensures v.Str? || v.DateTime? ==> r.Success? && IsQuoted(r.value)
    ensures v.EnumMember? ==> r == Success(v.valueText)
  {
    match v
    case Str(s) => Success(Quoted(lib, s))
    case Int(i) => IntTextRoundTrip(i); Success(IntText(i))
    case Float(bits) => Success(lib.floatJson(bits))
    case Bool(b) => Success(if b then "true" else "false")
    case Null => Success("null")
    case DateTime(iso) => Success(Quoted(lib, iso))
    case EnumMember(text, _) => Success(text)
    case Unset => Success("null")
    case _ => Failure(UnsupportedType(TypeName(v)))
  }

  /** An enum member is written bare and a string is written quoted, so the two
      differ even when the enum's value is the string's text. */
  lemma EnumDiffersFromString(lib: Library, text: string, valueIsStr: bool)
    requires text == [] || text[0] != '"'
    ensures SerializeScalar(lib, EnumMember(text, valueIsStr)) != SerializeScalar(lib, Str(text))
  {
  }
}
