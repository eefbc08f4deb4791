/** The library functions the generator calls but does not define. They are
    Strawberry's name converters and the standard `json` module's formatting of
    strings and floats; the model takes them as given total functions. */
module Host {

  datatype Library = Library(
    /** `strawberry.utils.str_converters.to_camel_case` (Python name to wire name). */
    toCamelCase: string -> string,
    /** `strawberry.utils.str_converters.to_snake_case` (wire name to Python name). */
    toSnakeCase: string -> string,
    /** What `json.dumps` writes between the double quotes of a string. */
    escapeJson: string -> string,
    /** `json.dumps` of a float, given by its IEEE 754 bits. */
    floatJson: bv64 -> string)
}
