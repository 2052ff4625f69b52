/** First-match searches over sequences: `std::find_if` and `std::find`. */
module Search {

  /** The least index whose element satisfies `p`, or `|s|` when none does. */
  function FindIf<T>(s: seq<T>, p: T -> bool): (i: nat)
    ensures i <= |s|
    ensures i < |s| ==> p(s[i])
    ensures forall j :: 0 <= j < i ==> !p(s[j])
  {
    if s == [] then 0
    else if p(s[0]) then 0
    else 1 + FindIf(s[1..], p)
  }

  /** The least index holding `x`, or `|s|` when `x` does not occur. */
  function Find<T(==)>(s: seq<T>, x: T): (i: nat)
    ensures i <= |s|
    ensures i < |s| <==> x in s
    ensures i < |s| ==> s[i] == x
    ensures forall j :: 0 <= j < i ==> s[j] != x
  {
    FindIf(s, y => y == x)
  }
}
