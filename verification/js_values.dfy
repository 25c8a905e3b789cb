/** JavaScript values as the request handlers see them, and the two pieces of
    JavaScript semantics the handlers rely on: truthiness, and the `||` and
    `x && {f: x}` idioms built from it.

    A request field that is `undefined` or `null` is `None`; any other value is
    `Some(v)`. Strings are falsy exactly when empty, numbers exactly when zero
    (NaN is not modelled). */
module JsValues {

  datatype Option<+T> = None | Some(value: T)

  /** Truthiness of an optional string: `undefined`, `null` and `""` are falsy. */
  predicate TruthyStr(v: Option<string>)
  {
    v.Some? && v.value != ""
  }

  /** Truthiness of an optional integer: `undefined`, `null` and `0` are falsy. */
  predicate TruthyInt(v: Option<int>)
  {
    v.Some? && v.value != 0
  }

  /** The expression `v || d` on a string field. */
  function OrStr(v: Option<string>, d: string): (r: string)
    ensures TruthyStr(v) ==> r == v.value
    ensures !TruthyStr(v) ==> r == d
    ensures d != "" ==> r != ""
  {
    if TruthyStr(v) then v.value else d
  }

  /** The expression `v || d` on a numeric field. */
  function OrInt(v: Option<int>, d: int): (r: int)
    ensures TruthyInt(v) ==> r == v.value
    ensures !TruthyInt(v) ==> r == d
    ensures d != 0 ==> r != 0
  {
    if TruthyInt(v) then v.value else d
  }

  /** The value a field holds after `{...prev, ...(v && {f: v})}`: the patch value
      when it is truthy, the previous value otherwise. */
  function SpreadStr(prev: string, v: Option<string>): (r: string)
    ensures r == prev || (TruthyStr(v) && r == v.value)
    ensures TruthyStr(v) ==> r == v.value
  {
    if TruthyStr(v) then v.value else prev
  }

  /** As `SpreadStr`, for a field that may itself be absent on the record. */
  function SpreadOptStr(prev: Option<string>, v: Option<string>): (r: Option<string>)
    ensures r == prev || (TruthyStr(v) && r == v)
    ensures TruthyStr(v) ==> r == v
  {
    if TruthyStr(v) then v else prev
  }

  /** As `SpreadStr`, for a numeric field. */
  function SpreadInt(prev: int, v: Option<int>): (r: int)
    ensures r == prev || (TruthyInt(v) && r == v.value)
    ensures TruthyInt(v) ==> r == v.value
  {
    if TruthyInt(v) then v.value else prev
  }
}
