// Shared helper types.
module Common {

  /** An optional value: stands for a possibly-NULL pointer or an out-parameter left unwritten. */
  datatype Option<T> = None | Some(value: T)

  /** The larger of two integers, as std::max. */
  function Max(a: int, b: int): int
  {
    if a < b then b else a
  }

  /** True when no value occurs twice in `s`. */
  predicate Distinct<T(==)>(s: seq<T>)
  {
    forall i, j :: 0 <= i < j < |s| ==> s[i] != s[j]
  }

  /** Strictly increasing; implies Distinct. */
  predicate Increasing(s: seq<nat>)
  {
    forall i, j | 0 <= i < j < |s| :: s[i] < s[j]
  }

  /** The position of the first occurrence of `x` in `s`. */
  function IndexOf<T(==)>(s: seq<T>, x: T): (i: nat)
    requires x in s
    ensures i < |s| && s[i] == x && forall j | 0 <= j < i :: s[j] != x
    decreases |s|
  {
    if s[0] == x then 0
    else
      var i := 1 + IndexOf(s[1..], x);
      assert s[..i] == [s[0]] + s[1..][..i - 1];
      i
  }

  /** In an increasing list a value's first occurrence is its only one. */
  lemma IndexOfIncreasing(s: seq<nat>, t: nat)
    requires Increasing(s) && t < |s|
    ensures IndexOf(s, s[t]) == t
  {
    var j := IndexOf(s, s[t]);
    assert s[j] == s[t];
  }

  /** Appending a value above every entry keeps a list increasing. */
  lemma IncreasingSnoc(s: seq<nat>, x: nat)
    requires Increasing(s) && forall k | 0 <= k < |s| :: s[k] < x
    ensures Increasing(s + [x])
  {
  }

  /** In an increasing list smaller values come earlier. */
  lemma IncreasingOrder(s: seq<nat>, a: nat, b: nat)
    requires Increasing(s) && a < |s| && b < |s| && s[a] < s[b]
    ensures a < b
  {
  }
}
