/**
 * Fisher-Yates shuffling with the random source supplied by the caller.
 * The source of randomness is a stream of natural numbers consumed from the
 * front; each step reduces one draw into the range it needs. An exhausted
 * stream draws 0.
 */
module Shuffling {

  function Head(draws: seq<nat>): nat
  {
    if draws == [] then 0 else draws[0]
  }

  function Tail(draws: seq<nat>): (rest: seq<nat>)
    ensures |rest| <= |draws|
  {
    if draws == [] then [] else draws[1..]
  }

  /**
   * Copies `s`, then for i from the last index down to 1 swaps element i with
   * an element j in 0..i chosen by the next draw.
   */
  method Shuffle<T>(s: seq<T>, draws: seq<nat>) returns (r: seq<T>, rest: seq<nat>)
    ensures |r| == |s|
    ensures multiset(r) == multiset(s)
    ensures |rest| <= |draws|
  {
    var a := new T[|s|](k requires 0 <= k < |s| => s[k]);
    assert a[..] == s;
    rest := draws;
    var i := |s| - 1;
    while i > 0
      invariant i < |s|
      invariant multiset(a[..]) == multiset(s)
      invariant |rest| <= |draws|
    {
      var j := Head(rest) % (i + 1);
      rest := Tail(rest);
      a[i], a[j] := a[j], a[i];
      i := i - 1;
    }
    r := a[..];
  }
}
