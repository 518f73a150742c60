/** Steps of the C code that allocate memory or copy an element. */
module Allocation {
  // Such a step fails only when memory is not plentiful, and then it may or may not.
  method Attempt(plenty: bool) returns (ok: bool)
    ensures plenty ==> ok
  {
    ok := true;
    if !plenty {
      ok := *;
    }
  }
}
