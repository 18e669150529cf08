/** The three sequence operators the listing action chains, with the meaning LINQ gives them. */
module Linq {

  /** `SkipWhile(p)`: drops the longest leading run of elements satisfying `p`. */
  function SkipWhile<T>(s: seq<T>, p: T -> bool): (r: seq<T>)
    ensures |r| <= |s| && r == s[|s| - |r|..]
    ensures forall i :: 0 <= i < |s| - |r| ==> p(s[i])
    ensures r != [] ==> !p(r[0])
  {
    if s == [] || !p(s[0]) then s else SkipWhile(s[1..], p)
  }

  /** `TakeWhile(p)`: keeps the longest leading run of elements satisfying `p`. */
  function TakeWhile<T>(s: seq<T>, p: T -> bool): (r: seq<T>)
    ensures |r| <= |s| && r == s[..|r|]
    ensures forall i :: 0 <= i < |r| ==> p(r[i])
    ensures |r| < |s| ==> !p(s[|r|])
  {
    if s == [] || !p(s[0]) then [] else [s[0]] + TakeWhile(s[1..], p)
  }

  /** `Take(n)`: the first `n` elements, or all of them when there are fewer. */
  function Take<T>(s: seq<T>, n: nat): (r: seq<T>)
    ensures |r| <= n && |r| <= |s| && r == s[..|r|]
    ensures |r| == n || r == s
  {
    if |s| <= n then s else s[..n]
  }

  /** The run `TakeWhile` keeps and the rest `SkipWhile` leaves partition the sequence. */
  lemma TakeWhileThenSkipWhile<T>(s: seq<T>, p: T -> bool)
    ensures TakeWhile(s, p) + SkipWhile(s, p) == s
  {
    var k, m := |TakeWhile(s, p)|, |s| - |SkipWhile(s, p)|;
    assert k == m;
    assert s[..k] + s[k..] == s;
  }
}
