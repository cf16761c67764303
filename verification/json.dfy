/** A parsed JSON document and the JavaScript operations the Windows reader
    applies to it: property access and the `||` operator. */
module Json {
  import opened Wrappers

  /** What `JSON.parse` produces. Objects are maps because parsing keeps
      only the last of duplicate keys. */
  datatype Value =
    | JNull
    | JBool(b: bool)
    | JNumber(n: real)
    | JString(s: string)
    | JArray(items: seq<Value>)
    | JObject(members: map<string, Value>)

  /** JavaScript truthiness of a property read; None is `undefined`. */
  predicate Truthy(v: Option<Value>) {
    match v
    case None => false
    case Some(JNull) => false
    case Some(JBool(b)) => b
    case Some(JNumber(n)) => n != 0.0
    case Some(JString(s)) => s != ""
    case Some(_) => true
  }

  /** `v[key]` for a value that is not null: only objects carry the keys
      the reader asks for, every other value yields `undefined`. */
  function Member(v: Value, key: string): Option<Value> {
    match v
    case JObject(m) => if key in m then Some(m[key]) else None
    case _ => None
  }

  /** `a || b`: the left operand when it is truthy, the right one otherwise. */
  function Or(a: Option<Value>, b: Option<Value>): (r: Option<Value>)
    ensures r == a || r == b
    ensures Truthy(a) ==> r == a
    ensures !Truthy(a) ==> r == b
    ensures Truthy(r) <==> Truthy(a) || Truthy(b)
  {
    if Truthy(a) then a else b
  }
}
