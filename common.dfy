/** Small shared definitions: an option type, sequence facts, and bounded lists. */
module Common {

  datatype Option<T> = None | Some(value: T)

  function Min(a: int, b: int): int
  {
    if a <= b then a else b
  }

  predicate Distinct<T(==)>(s: seq<T>)
  {
    forall i, j :: 0 <= i < j < |s| ==> s[i] != s[j]
  }

  /**
   * What a search that appends each of `found` to `prev`, but never once the
   * list has reached `cap` entries, leaves behind.
   */
  function Capped<T>(prev: seq<T>, found: seq<T>, cap: int): (r: seq<T>)
    ensures |prev| >= cap ==> r == prev
    ensures |prev| < cap ==> |r| == Min(|prev| + |found|, cap)
  {
    if |prev| >= cap then prev else prev + found[..Min(|found|, cap - |prev|)]
  }

  /** Searching `a` and then `b` with the same cap is searching `a + b`. */
  lemma CappedAppend<T>(prev: seq<T>, a: seq<T>, b: seq<T>, cap: int)
    ensures Capped(Capped(prev, a, cap), b, cap) == Capped(prev, a + b, cap)
  {
    if |prev| < cap {
      var q := Capped(prev, a, cap);
      if |a| >= cap - |prev| {
        assert (a + b)[..cap - |prev|] == a[..cap - |prev|];
      } else {
        assert q == prev + a;
        var m := Min(|b|, cap - |prev| - |a|);
        assert (a + b)[..|a| + m] == a + b[..m];
      }
    }
  }

  lemma {:induction false} DistinctCountAtMostOne<T>(s: seq<T>, v: T)
    requires Distinct(s)
    ensures multiset(s)[v] <= 1
  {
    if s != [] {
      assert s == [s[0]] + s[1..];
      DistinctCountAtMostOne(s[1..], v);
      if v == s[0] {
        assert v !in s[1..];
      }
    }
  }

  lemma TwoIndicesCountTwice<T>(s: seq<T>, i: int, j: int)
    requires 0 <= i < j < |s| && s[i] == s[j]
    ensures multiset(s)[s[i]] >= 2
  {
    assert s == s[..j] + s[j..];
    assert s[i] in s[..j];
    assert s[j] in s[j..];
  }

  /** A rearrangement of a list without repetitions has no repetitions. */
  lemma DistinctPermutation<T>(s: seq<T>, r: seq<T>)
    requires Distinct(s) && multiset(r) == multiset(s)
    ensures Distinct(r)
  {
    forall i, j | 0 <= i < j < |r|
      ensures r[i] != r[j]
    {
      if r[i] == r[j] {
        TwoIndicesCountTwice(r, i, j);
        DistinctCountAtMostOne(s, r[i]);
      }
    }
  }

  /** Two lists without repetitions and with no element in common join into one. */
  lemma DistinctConcat<T>(a: seq<T>, b: seq<T>)
    requires Distinct(a) && Distinct(b) && forall x :: x in a ==> x !in b
    ensures Distinct(a + b)
  {
    forall i, j | 0 <= i < j < |a + b|
      ensures (a + b)[i] != (a + b)[j]
    {
      if i < |a| <= j {
        assert (a + b)[i] in a && (a + b)[j] in b;
      }
    }
  }

  /** An element of a rearrangement is an element of the original. */
  lemma PermutationMember<T>(s: seq<T>, r: seq<T>, i: int)
    requires multiset(r) == multiset(s) && 0 <= i < |r|
    ensures r[i] in s
  {
    assert r[i] in multiset(r);
  }
}
