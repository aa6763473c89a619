/**
 * The two JavaScript idioms the site's components use on optional strings:
 * truthiness (`title ? a : b`) and the `||` fallback (`description || excerpt`).
 * A string is falsy exactly when it is empty; `null` and `undefined` are falsy.
 */
module Js {
  import opened Wrappers

  /** True when `s` is a JavaScript truthy string value. */
  predicate Truthy(s: Option<string>) {
    s.Some? && s.value != ""
  }

  /** `s || fallback` where `s` is an optional string. */
  function Or(s: Option<string>, fallback: string): (r: string)
    ensures Truthy(s) ==> r == s.value
    ensures !Truthy(s) ==> r == fallback
  {
    if Truthy(s) then s.value else fallback
  }

  /** An `||` with a non-empty fallback never yields the empty string. */
  lemma OrNonEmpty(s: Option<string>, fallback: string)
    requires fallback != ""
    ensures Or(s, fallback) != ""
  {
  }
}
