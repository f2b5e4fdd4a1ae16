/**
 * The Python values `json.loads` produces, and the two untrusted channels of
 * the core: the parser itself, taken as a parameter, and the language-model
 * call, taken as an oracle.
 */
module PyJson {
  import opened Wrappers

  /** A decoded JSON document: None, bool, int, float, str, list or dict. */
  datatype Json =
    | JNull
    | JBool(b: bool)
    | JInt(i: int)
    | JFloat(r: real)
    | JStr(s: string)
    | JList(elems: seq<Json>)
    | JObject(fields: map<string, Json>)

  /** `json.loads`: None stands for a raised `JSONDecodeError`. */
  type Loads = string -> Option<Json>

  /** What one call of the language-model chain gives back: its text, or an
      exception raised before any text exists. */
  datatype Reply = CallFailed | Text(text: string)

  /** The replies of successive calls: the k-th call made in a run gets `replies(k)`. */
  type Replies = nat -> Reply

  /**
   * `for x in v: x.get(...)` over a parse result that is not None. A list
   * yields its elements; an empty str or dict yields nothing. A non-empty str
   * or dict yields str elements, on which `.get` raises at the first one, and
   * a number or bool is not iterable: both are None, "raises before any
   * element is judged".
   */
  function Elements(v: Json): (r: Option<seq<Json>>)
    ensures r.Some? ==> r.value == [] || v.JList?
    ensures v.JList? ==> r == Some(v.elems)
    ensures v == JStr("") || v == JObject(map[]) ==> r == Some([])
    ensures r.None? <==> !v.JList? && v != JStr("") && v != JObject(map[])
  {
    match v
    case JList(es) => Some(es)
    case JStr(s) => if s == [] then Some([]) else None
    case JObject(m) => if m == map[] then Some([]) else None
    case _ => None
  }
}
