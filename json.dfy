/** JSON values as the storage layer sees them after JSON.parse, together with
    the three pieces of JavaScript semantics the layer leans on: truthiness
    (`x || y`), property lookup on a parsed value (`parsed.value`), and the
    numeric coercion that `>`, `>=` and `-` apply to a stored `expire` field. */
module Json {

  import opened Wrappers

  /** A parsed JSON document. Numbers are integers; an object keeps its members
      in the order the text spells them out. */
  datatype Json =
    | JNull
    | JBool(b: bool)
    | JNum(n: int)
    | JStr(s: string)
    | JArr(items: seq<Json>)
    | JObj(fields: seq<(string, Json)>)

  /** JavaScript truthiness: `null`, `false`, `0` and `""` are falsy; every
      array and object, empty or not, is truthy. */
  predicate Truthy(j: Json) {
    match j
    case JNull => false
    case JBool(b) => b
    case JNum(n) => n != 0
    case JStr(s) => s != ""
    case JArr(_) => true
    case JObj(_) => true
  }

  /** The value of the last member called `name` (JSON.parse lets a later
      duplicate win), or None when there is none. */
  function LastMember(fields: seq<(string, Json)>, name: string): (r: Option<Json>)
    ensures r.Some? <==> exists i :: 0 <= i < |fields| && fields[i].0 == name
    ensures r.Some? ==> exists i :: 0 <= i < |fields| && fields[i] == (name, r.value)
  {
    if fields == [] then None
    else if fields[|fields| - 1].0 == name then Some(fields[|fields| - 1].1)
    else
      var r := LastMember(fields[..|fields| - 1], name);
      assert forall i :: 0 <= i < |fields| - 1 ==> fields[..|fields| - 1][i] == fields[i];
      r
  }

  /** `parsed[name]` for a parsed value that is not null: objects look the
      member up; strings, numbers, booleans and arrays have no own property
      called `value` or `expire`, so the lookup is undefined (None). */
  function Property(j: Json, name: string): Option<Json> {
    match j
    case JObj(fields) => LastMember(fields, name)
    case _ => None
  }

  /** ToNumber as `>`/`>=`/`-` apply it to a stored expire field. None stands
      for NaN. Exact for null, booleans, numbers, "" and []; every other
      string, array or object is taken as NaN. */
  function Coerce(j: Json): (r: Option<int>)
    ensures j.JNum? ==> r == Some(j.n)
    ensures j.JObj? ==> r == None
  {
    match j
    case JNull => Some(0)
    case JBool(b) => Some(if b then 1 else 0)
    case JNum(n) => Some(n)
    case JStr(s) => if s == "" then Some(0) else None
    case JArr(items) => if items == [] then Some(0) else None
    case JObj(_) => None
  }
}
