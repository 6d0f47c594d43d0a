/** Shared helper datatypes. */
module Common {

  /** An optional value: `undefined`/`null` in the script become `None`. */
  datatype Option<+T> = None | Some(value: T)

  /** A string attribute that JavaScript treats as truthy: present and non-empty. */
  predicate Truthy(s: Option<string>)
  {
    s.Some? && s.value != ""
  }

  /** `a || b` on an optional string attribute. */
  function OrElse(s: Option<string>, fallback: string): (r: string)
    ensures Truthy(s) ==> r == s.value
    ensures !Truthy(s) ==> r == fallback
    ensures r != "" <== fallback != ""
  {
    if Truthy(s) then s.value else fallback
  }
}
