/** The optional value used wherever the source works with `undefined`:
    an unset `Date`, an array read past its end, a rejected chess move. */
module Wrappers {

  datatype Option<+T> = None | Some(value: T)

  /** Reading `s[i]` from a JavaScript array: `undefined` outside its bounds. */
  function Lookup<T>(s: seq<T>, i: int): (r: Option<T>)
    ensures r.Some? <==> 0 <= i < |s|
    ensures r.Some? ==> r.value == s[i]
  {
    if 0 <= i < |s| then Some(s[i]) else None
  }
}
