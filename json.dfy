/**
 * The loosely typed values the scripts read with `JSON.parse`, and the few
 * JavaScript operations they apply to them: truthiness, `||`, `String(v)`,
 * optional chaining `v?.name` / `v?.[0]`, and plain member access `v.name`,
 * which throws on `null`. A JavaScript `undefined` is `None`.
 */
module Json {
  import opened Common

  /** A parsed JSON value. Numbers are integers here. */
  datatype Json =
    | JNull
    | JBool(b: bool)
    | JNum(n: int)
    | JStr(s: string)
    | JArr(items: seq<Json>)
    | JObj(fields: map<string, Json>)

  /** JavaScript truthiness of a value that may be `undefined`. */
  predicate Truthy(v: Option<Json>) {
    match v
    case None => false
    case Some(JNull) => false
    case Some(JBool(b)) => b
    case Some(JNum(n)) => n != 0
    case Some(JStr(s)) => s != ""
    case Some(_) => true
  }

  /** `a || b`: the first operand when it is truthy, otherwise the second. */
  function Or(a: Option<Json>, b: Option<Json>): (r: Option<Json>)
    ensures Truthy(r) <==> Truthy(a) || Truthy(b)
    ensures Truthy(a) ==> r == a
    ensures !Truthy(a) ==> r == b
  {
    if Truthy(a) then a else b
  }

  /** `String(v)`; an array joins its elements with "," and shows `null` as "". */
  function ToJsString(v: Json): string
    decreases v
  {
    match v
    case JNull => "null"
    case JBool(b) => if b then "true" else "false"
    case JNum(n) => IntToString(n)
    case JStr(s) => s
    case JArr(items) =>
      Join(seq(|items|, i requires 0 <= i < |items| =>
        if items[i] == JNull then "" else ToJsString(items[i])), ",")
    case JObj(_) => "[object Object]"
  }

  /**
   * `v?.name`: a field of an object, `undefined` for everything else. One
   * field the scripts read, `entries`, is also `Array.prototype.entries` on an
   * array; that value is a function, which is neither iterable nor an array,
   * so every use of it here behaves as `undefined` does.
   */
  function Prop(v: Option<Json>, name: string): (r: Option<Json>)
    ensures r.Some? ==> v.Some? && v.value.JObj? && name in v.value.fields
  {
    match v
    case Some(JObj(m)) => if name in m then Some(m[name]) else None
    case _ => None
  }

  /** `v?.[0]`: first array element, own property "0" of an object, first character of a string. */
  function Elem0(v: Option<Json>): Option<Json> {
    match v
    case Some(JArr(items)) => if |items| > 0 then Some(items[0]) else None
    case Some(JObj(m)) => if "0" in m then Some(m["0"]) else None
    case Some(JStr(s)) => if |s| > 0 then Some(JStr([s[0]])) else None
    case _ => None
  }

  /** `v.name` without optional chaining: a TypeError on `null`. */
  function Member(v: Json, name: string): (r: Result<Option<Json>>)
    ensures r.Err? <==> v == JNull
    ensures r.Ok? ==> r.value == Prop(Some(v), name)
  {
    if v == JNull then Err("TypeError: Cannot read properties of null") else Ok(Prop(Some(v), name))
  }

  /** `x !== undefined && x !== null && String(x).trim() !== ''`. */
  predicate NonBlank(x: Option<Json>) {
    x.Some? && x.value != JNull && Trim(ToJsString(x.value)) != ""
  }

  /** A value is blank exactly when it is `undefined`, `null`, or whitespace once made a string. */
  lemma NonBlankIs(x: Option<Json>)
    ensures !NonBlank(x) <==> x == None || x == Some(JNull) || AllSpace(ToJsString(x.value))
  {
  }

  /** `Array.isArray(v)`. */
  predicate IsArray(v: Option<Json>) {
    v.Some? && v.value.JArr?
  }
}
