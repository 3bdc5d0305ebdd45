/** Linear search as lodash's `_.findIndex` performs it on the grid: the
    first position whose element matches, or -1. The schedule's reference
    definitions reuse it to name the first due entry for a cell. */
module Lookup {

  /** `_.findIndex(s, p)`: the position of the first element satisfying `p`,
      or -1 when there is none. */
  function FindIndex<T>(s: seq<T>, p: T -> bool): (k: int)
    ensures -1 <= k < |s|
    ensures k == -1 <==> forall j :: 0 <= j < |s| ==> !p(s[j])
    ensures 0 <= k ==> p(s[k]) && forall j :: 0 <= j < k ==> !p(s[j])
  {
    if s == [] then -1
    else if p(s[0]) then 0
    else
      var k := FindIndex(s[1..], p);
      if k == -1 then -1 else k + 1
  }
}
