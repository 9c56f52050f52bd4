/**
 The two array searches the message listener relies on, modelled on sequences:
 `Array.prototype.some` and `Array.prototype.findIndex`. Each is stated against
 a quantified reference characterisation.
 */
module ArraySearch {

  /** `s.some(p)`: true exactly when some element satisfies `p`. */
  function AnyMatch<T>(s: seq<T>, p: T -> bool): (b: bool)
    ensures b <==> exists i :: 0 <= i < |s| && p(s[i])
  {
    if |s| == 0 then false
    else if p(s[0]) then true
    else AnyMatch(s[1..], p)
  }

  /** `s.findIndex(p)`: the index of the first element satisfying `p`, or -1 when none does. */
  function FindIndex<T>(s: seq<T>, p: T -> bool): (r: int)
    ensures -1 <= r < |s|
    ensures r == -1 <==> forall i :: 0 <= i < |s| ==> !p(s[i])
    ensures 0 <= r ==> p(s[r]) && forall i :: 0 <= i < r ==> !p(s[i])
  {
    if |s| == 0 then -1
    else if p(s[0]) then 0
    else
      var k := FindIndex(s[1..], p);
      if k == -1 then -1 else k + 1
  }
}
