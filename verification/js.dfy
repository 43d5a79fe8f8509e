/** JavaScript value conventions shared by every component of the console:
    `undefined`/`null` as `None`, and the truthiness tests the components use
    (`x?.y ? … : …`, `x || y`, `_.isEmpty(s)`). */
module Js {

  /** A value that may be absent. Each use says whether an absent value is
      `undefined` or `null`; where the two behave differently, as in string
      conversion, the function that converts it says which it is. */
  datatype Option<+T> = None | Some(value: T) {

    function GetOr(default: T): T {
      match this
      case Some(v) => v
      case None => default
    }
  }

  /** JavaScript truthiness of a string-or-undefined: `undefined` and `''` are falsy. */
  predicate Truthy(s: Option<string>) {
    s.Some? && s.value != ""
  }

  /** `_.isEmpty` on a string-or-undefined: the exact negation of truthiness. */
  predicate IsEmpty(s: Option<string>) {
    s.None? || s.value == ""
  }

  /** `s || undefined`: keeps a non-empty string and maps `''` and `undefined` to `undefined`. */
  function OrUndefined(s: Option<string>): (r: Option<string>)
    ensures r.Some? <==> Truthy(s)
    ensures r.Some? ==> r == s
  {
    if Truthy(s) then s else None
  }

  /** `s || ''`: the string, or the empty string when it is falsy. */
  function OrEmpty(s: Option<string>): (r: string)
    ensures r == "" <==> IsEmpty(s)
    ensures Truthy(s) ==> r == s.value
  {
    if Truthy(s) then s.value else ""
  }

  /** String conversion in a `+` concatenation of a nullable field, such as a
      GraphQL field the server leaves null: `null` becomes the text "null". */
  function NullableToText(s: Option<string>): (r: string)
    ensures s.Some? ==> r == s.value
    ensures s.None? ==> r == "null"
  {
    match s
    case Some(v) => v
    case None => "null"
  }
}
