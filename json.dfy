/** The values `json.loads` produces, Python's truthiness of them, and the properties of the
    JSON decoder that the extractor's behaviour depends on. The decoder itself is not
    modelled: every operation that decodes takes it as a parameter `parse`, where `None`
    stands for a raised `JSONDecodeError` and `Some(v)` for the decoded value. */
module JsonValue {
  import opened Wrappers
  import opened PyStr

  /** A decoded JSON document: `null`, booleans, numbers, strings, arrays, and objects
      (a Python `dict`, in which a repeated key keeps its last value). */
  datatype Json =
    | JNull
    | JBool(b: bool)
    | JNumber(n: real)
    | JString(s: string)
    | JArray(items: seq<Json>)
    | JObject(members: map<string, Json>)

  /** The JSON decoder: `None` when it raises, otherwise the decoded value. */
  type Parser = string -> Option<Json>

  /** Python's truthiness of a decoded value: `None`, `False`, zero, and empty strings,
      lists and dicts are false, and every other value is true. */
  predicate Truthy(j: Json)
    ensures !Truthy(j) <==>
      j == JNull || j == JBool(false) || j == JNumber(0.0) || j == JString([]) || j == JArray([]) ||
      j == JObject(map[])
  {
    match j
    case JNull => false
    case JBool(b) => b
    case JNumber(n) => n != 0.0
    case JString(s) => s != []
    case JArray(items) => items != []
    case JObject(members) => members != map[]
  }

  /** Truthiness of what the extractor hands back: nothing at all is false too, and so is a
      decoded `null`; a decoded dict is true exactly when it is not empty. */
  predicate OutputTruthy(out: Option<Json>)
    ensures OutputTruthy(out) ==> out.Some? && out.value != JNull
    ensures out.Some? && out.value.JObject? ==> (OutputTruthy(out) <==> out.value.members != map[])
  {
    out.Some? && Truthy(out.value)
  }

  /** The whitespace the JSON grammar allows around a document (RFC 8259, section 2). */
  predicate IsJsonSpace(c: char) {
    c == ' ' || c == '\t' || c == '\n' || c == '\r'
  }

  /** The document with the surrounding JSON whitespace removed. */
  function JsonTrim(s: string): string {
    StripBy(s, IsJsonSpace)
  }

  /** A text that opens with `{` and closes with `}`. */
  predicate IsBraced(t: string) {
    |t| >= 2 && t[0] == '{' && t[|t| - 1] == '}'
  }

  /** The decoder rejects the empty text. */
  predicate RejectsEmpty(parse: Parser) {
    parse([]) == None
  }

  /** The decoder skips JSON whitespace before and after the document. */
  ghost predicate IgnoresJsonSpace(parse: Parser) {
    forall s {:trigger JsonTrim(s)} :: parse(s) == parse(JsonTrim(s))
  }

  /** A text the decoder reads as an object is, once its surrounding whitespace is gone,
      brace-delimited. */
  ghost predicate ObjectsAreBraced(parse: Parser) {
    forall s {:trigger JsonTrim(s)} :: parse(s).Some? && parse(s).value.JObject? ==> IsBraced(JsonTrim(s))
  }

  /** JSON whitespace holds no brace. */
  lemma SpaceHasNoBraces(s: string)
    requires AllOf(s, IsJsonSpace)
    ensures '{' !in s && '}' !in s
  {
    forall i | 0 <= i < |s| ensures s[i] != '{' && s[i] != '}' {
      assert IsJsonSpace(s[i]);
    }
  }
}
