/** JavaScript values as the patch applier and the value matcher see them:
    plain objects (own keys to values), arrays, primitives, and any other
    object, known only by its identity. */
module JsonValue {

  datatype Json =
    | Undefined
    | Null
    | Bool(b: bool)
    | Num(n: int)
    | Str(s: string)
    | Arr(items: seq<Json>)
    | Obj(fields: map<string, Json>)
      // a function, a date, a class instance: `===` compares identities
    | Other(ref: nat)

  /** `v == null`: null or undefined. */
  predicate IsNullish(v: Json) {
    v.Undefined? || v.Null?
  }

  /** `obj[k]`: undefined for a missing key. */
  function Get(m: map<string, Json>, k: string): (r: Json)
    ensures k !in m ==> r.Undefined?
    ensures k in m ==> r == m[k]
  {
    if k in m then m[k] else Undefined
  }
}
