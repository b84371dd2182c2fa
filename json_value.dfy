// The JSON documents the version scripts read and write: values as
// `JSON.parse` yields them and the property reads and assignments the
// scripts perform on them.

module JsonValue {
  import opened Common

  /** A parsed JSON value. Numbers are kept as integers: the version
      scripts never read a number. Object member order is not kept. */
  datatype Json =
    | Null
    | Bool(b: bool)
    | Num(n: int)
    | Str(s: string)
    | Arr(items: seq<Json>)
    | Obj(members: map<string, Json>)

  /** A configuration file's content: parsed, or text `JSON.parse`
      throws on. */
  datatype Doc = Parsed(value: Json) | Malformed

  /** JavaScript truthiness; `None` is `undefined`. */
  predicate Truthy(v: Option<Json>) {
    match v
    case None => false
    case Some(Null) => false
    case Some(Bool(b)) => b
    case Some(Num(n)) => n != 0
    case Some(Str(s)) => s != []
    case Some(Arr(_)) => true
    case Some(Obj(_)) => true
  }

  /** `value[key]` on a value that is not `null`: an object's own member,
      and `undefined` for anything else. The scripts only read `version`
      and `package`, which no array, string or number carries. */
  function Get(value: Json, key: string): (r: Option<Json>)
    requires !value.Null?
    ensures r.Some? <==> value.Obj? && key in value.members
  {
    if value.Obj? && key in value.members then Some(value.members[key]) else None
  }

  /** `value[key] = v` in sloppy mode, as the result `JSON.stringify`
      then writes: `null` throws a TypeError (`None`), an object gets the
      member, and on any other value the assignment leaves nothing that
      `JSON.stringify` prints. */
  function Put(value: Json, key: string, v: Json): (r: Option<Json>)
    ensures r.None? <==> value.Null?
  {
    match value
    case Null => None
    case Obj(m) => Some(Obj(m[key := v]))
    case _ => Some(value)
  }

  /** After an assignment to an object, the member reads back. */
  lemma PutThenGet(value: Json, key: string, v: Json)
    requires value.Obj?
    ensures Put(value, key, v).Some? && Get(Put(value, key, v).value, key) == Some(v)
  {
  }

  /** An assignment keeps every other member and adds none. */
  lemma PutKeepsOthers(value: Json, key: string, v: Json, other: string)
    requires !value.Null? && other != key
    ensures Put(value, key, v).Some? && Get(Put(value, key, v).value, other) == Get(value, other)
  {
  }

  /** Assigning a member its current value changes nothing. */
  lemma PutSameValue(value: Json, key: string)
    requires value.Obj? && key in value.members
    ensures Put(value, key, value.members[key]) == Some(value)
  {
    assert value.members[key := value.members[key]] == value.members;
  }
}
