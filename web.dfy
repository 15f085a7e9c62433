/**
  What the scraper gets back from `requests.get`: a status code, the decoded
  body and, when the body is JSON, its parsed value. The network itself is a
  total function from URL to response.
*/
module Web {
  import opened Wrappers

  /**
    A parsed JSON value. Numbers keep their literal text. JSON `null` is
    Python's `None`, so `JNull` also stands for `None` in the model's results.
  */
  datatype Json =
    | JNull
    | JBool(b: bool)
    | JNumber(literal: string)
    | JString(str: string)
    | JArray(items: seq<Json>)
    | JObject(fields: map<string, Json>)

  /** A response: `status_code`, `text`, and `json()` (`None` when that raises `JSONDecodeError`). */
  datatype Response = Response(status: int, text: string, json: Option<Json>)

  /** `requests.get` with redirects followed, as a lookup table. */
  type Fetch = string -> Response

  /** `f'http://{host}{path}'` */
  function Url(host: string, path: string): string
  {
    "http://" + host + path
  }

  /**
    `value[key]` for a string key: only an object with that key has an entry;
    anything else raises `KeyError` (missing key) or `TypeError` (not a dict),
    both written `None` here.
  */
  function Index(value: Json, key: string): (r: Option<Json>)
    ensures r.Some? <==> value.JObject? && key in value.fields
    ensures r.Some? ==> r.value == value.fields[key]
  {
    match value
    case JObject(fields) => if key in fields then Some(fields[key]) else None
    case _ => None
  }

  /** `value[k0][k1]...`: follows `path`, failing at the first step that raises. */
  function Path(value: Json, path: seq<string>): Option<Json>
    decreases |path|
  {
    if path == [] then Some(value)
    else match Index(value, path[0])
      case None => None
      case Some(inner) => Path(inner, path[1..])
  }
}
