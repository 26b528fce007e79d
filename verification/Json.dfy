/** A decoded YAML document: map[string]interface{} and what it holds. */
module Json {
  import opened Text

  type Object = map<string, Value>

  /** Num is a decoded number, Int one the migrator wrote itself, Shown a number it wrote as its shortest
      decimal string. */
  datatype Value =
    | Null
    | Bool(b: bool)
    | Num(f: real)
    | Int(i: int)
    | Str(s: string)
    | Shown(n: real)
    | Arr(items: seq<Value>)
    | Obj(fields: Object)

  /** m[key].(string) */
  function StrAt(m: Object, key: string): Option<string> {
    if key in m && m[key].Str? then Some(m[key].s) else None
  }

  /** m[key].(string), the zero value when it is not one. */
  function StrOr(m: Object, key: string): string {
    StrAt(m, key).Or("")
  }

  /** m[key].(map[string]interface{}) */
  function ObjAt(m: Object, key: string): Option<Object> {
    if key in m && m[key].Obj? then Some(m[key].fields) else None
  }

  function ArrAt(m: Object, key: string): seq<Value> {
    if key in m && m[key].Arr? then m[key].items else []
  }

  predicate HasStr(m: Object, key: string, s: string) {
    key in m && m[key] == Str(s)
  }

  // ---- documents ---------------------------------------------------------------

  function Fields(v: Value): Object {
    if v.Obj? then v.fields else map[]
  }

  function Sub(obj: Object, key: string): Object {
    ObjAt(obj, key).Or(map[])
  }

  /** The kind of a resource: kind, or type in the Universal format. */
  function KindOf(obj: Object): string {
    if StrOr(obj, "kind") != "" then StrOr(obj, "kind") else StrOr(obj, "type")
  }

  /** extractNameFromObj. */
  function NameOf(obj: Object): string {
    if StrAt(Sub(obj, "metadata"), "name").Some? then StrOr(Sub(obj, "metadata"), "name")
    else StrAt(obj, "name").Or("<unknown>")
  }
}
