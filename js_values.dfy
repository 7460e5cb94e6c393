/** JavaScript value conventions the visitor logger relies on: absent values and truthiness. */
module JsValues {

  /** A value that may be absent (`undefined` or `null` in the server). */
  datatype Option<+T> = None | Some(value: T)

  /** A string is truthy unless it is absent or empty. */
  predicate TruthyString(s: Option<string>)
  {
    s.Some? && s.value != ""
  }

  /** A number is truthy unless it is absent or zero. */
  predicate TruthyNumber(x: Option<real>)
  {
    x.Some? && x.value != 0.0
  }

  /** `s || null` on a string: a truthy string is kept, anything falsy becomes null. */
  function StringOrNull(s: Option<string>): (r: Option<string>)
    ensures r.Some? <==> TruthyString(s)
    ensures r.Some? ==> r == s && r.value != ""
  {
    if TruthyString(s) then s else None
  }

  /** `x || null` on a number: a non-zero number is kept, zero and absence become null. */
  function NumberOrNull(x: Option<real>): (r: Option<real>)
    ensures r.Some? <==> TruthyNumber(x)
    ensures r.Some? ==> r == x && r.value != 0.0
  {
    if TruthyNumber(x) then x else None
  }
}
