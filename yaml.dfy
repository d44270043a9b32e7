/** The values the YAML loader hands to the checker, and the two ways a file is loaded. */
module Yaml {

  /** A loaded YAML value. Mapping keys are strings: the checker only ever looks up string keys. */
  datatype Value =
    | Null
    | Bool(b: bool)
    | Int(i: int)
    | Str(s: string)
    | List(items: seq<Value>)
    | Mapping(fields: map<string, Value>)

  /** Result of loading a file as a stream of `---`-separated documents: all of them, or an error. */
  datatype Stream = StreamError(message: string) | Documents(docs: seq<Value>)

  /** Result of loading a file as exactly one document. */
  datatype Single = SingleError(message: string) | Document(doc: Value)

  /** `m.get(key, default)` on a loaded mapping. */
  function Get(m: map<string, Value>, key: string, default: Value): Value
  {
    if key in m then m[key] else default
  }
}
