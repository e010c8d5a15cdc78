/**
 * JSON values as `JSON.parse` produces them, JavaScript truthiness of those values, and
 * the parse/stringify pair treated as an oracle with the two laws the model relies on.
 */
module Json {
  import opened Wrappers

  /** A JSON value. A number is kept as a decimal `mantissa * 10^exponent`. */
  datatype Json =
    | JNull
    | JBool(b: bool)
    | JNum(mantissa: int, exponent: int)
    | JStr(s: string)
    | JArr(items: seq<Json>)
    | JObj(members: seq<(string, Json)>)

  /** `!v` in JavaScript: null, false, any zero and the empty string; arrays and objects, even empty ones, are truthy. */
  predicate Falsy(v: Json) {
    match v
    case JNull => true
    case JBool(b) => !b
    case JNum(m, _) => m == 0
    case JStr(s) => s == ""
    case JArr(_) => false
    case JObj(_) => false
  }

  /** `JSON.parse` (None when it throws a SyntaxError) and `JSON.stringify`. */
  datatype Codec = Codec(parse: string -> Option<Json>, stringify: Json -> string)

  /** White space that JSON text may start with (RFC 8259, section 2). */
  predicate IsJsonSpace(c: char) {
    c == ' ' || c == '\t' || c == '\n' || c == '\r'
  }

  /** The first character of every JSON value: an object, an array, a string, a number or a literal. */
  predicate CanStartValue(c: char) {
    c == '{' || c == '[' || c == '"' || c == '-' || ('0' <= c <= '9') || c == 't' || c == 'f' || c == 'n'
  }

  /**
   * What the model assumes of `JSON.parse`/`JSON.stringify`: parsing what was stringified gives
   * the value back, and text whose first character can neither be white space nor start a JSON
   * value does not parse.
   */
  ghost predicate Lawful(codec: Codec) {
    && (forall v :: codec.parse(codec.stringify(v)) == Some(v))
    && (forall s :: s != [] && !IsJsonSpace(s[0]) && !CanStartValue(s[0]) ==> codec.parse(s) == None)
  }

  /** Python's `str(None)` is not JSON: parsing it throws. */
  lemma PythonNoneIsNotJson(codec: Codec)
    requires Lawful(codec)
    ensures codec.parse("None") == None
  {
    var s := "None";
    assert s[0] == 'N';
  }
}
