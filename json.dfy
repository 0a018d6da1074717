/** A JSON value after `JSON.parse`, with the few JavaScript operations the
    sidecar loader applies to it: truthiness, `typeof x === 'object'`,
    property access and `Object.entries`. Numbers are integers here: the
    loader only ever asks whether a number is zero. */
module Json {
  import opened Options

  datatype Json =
    | Null
    | Bool(b: bool)
    | Num(n: int)
    | Str(s: string)
    | Arr(items: seq<Json>)
    | Obj(fields: map<string, Json>)

  /** JavaScript's ToBoolean on a parsed value: `null`, `false`, `0` and `""`
      are falsy, every array and object is truthy. */
  predicate Truthy(v: Json) {
    match v
    case Null => false
    case Bool(b) => b
    case Num(n) => n != 0
    case Str(s) => s != ""
    case Arr(_) => true
    case Obj(_) => true
  }

  /** `v && typeof v === 'object'`: arrays and objects, never `null`. */
  predicate IsObject(v: Json)
    ensures IsObject(v) ==> Truthy(v)
  {
    v.Arr? || v.Obj?
  }

  /** `v[key]` for a property that is not an array index: only an object has
      one; `None` stands for `undefined`. */
  function Get(v: Json, key: string): (r: Option<Json>)
    ensures r.Some? <==> v.Obj? && key in v.fields
    ensures r.Some? ==> r.value == v.fields[key]
  {
    match v
    case Obj(f) => if key in f then Some(f[key]) else None
    case _ => None
  }

  /** `x || d` on a property read, where `None` is `undefined`. */
  function OrElse(x: Option<Json>, d: Json): (r: Json)
    ensures x.Some? && Truthy(x.value) ==> r == x.value
    ensures (x.None? || !Truthy(x.value)) ==> r == d
  {
    if x.Some? && Truthy(x.value) then x.value else d
  }

  /** `Object.entries(v)` read back into a map: the own properties of an
      object. Arrays and strings (whose entries are keyed by index) and
      scalars give no entries in this model. */
  function Entries(v: Json): (m: map<string, Json>)
    ensures v.Obj? ==> m == v.fields
    ensures !v.Obj? ==> m == map[]
  {
    if v.Obj? then v.fields else map[]
  }
}
