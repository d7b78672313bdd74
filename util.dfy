/** JavaScript's `undefined` is modelled by `None`; `isDef` and `isUndef`
    from the `util` module become the tests `Some?` and `None?`. */
module Util {

  datatype Option<+T> = None | Some(value: T)

  /** `s[i]` in JavaScript: `undefined` outside the array. */
  function Get<T>(s: seq<T>, i: int): (r: Option<T>)
    ensures r.Some? <==> 0 <= i < |s|
    ensures r.Some? ==> r.value == s[i]
  {
    if 0 <= i < |s| then Some(s[i]) else None
  }
}
