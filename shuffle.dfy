/** `shuffleArray`: the in-place Fisher-Yates shuffle the enemy uses to
    order the directions it tries. The random index is a nondeterministic
    choice from the same range. */
module Shuffle {

  /** Exchanges the elements at `i` and `j` and changes nothing else. */
  method Swap<T>(a: array<T>, i: int, j: int)
    requires 0 <= i < a.Length && 0 <= j < a.Length
    modifies a
    ensures a[..] == old(a[..])[i := old(a[j])][j := old(a[i])]
    ensures multiset(a[..]) == old(multiset(a[..]))
  {
    a[i], a[j] := a[j], a[i];
  }

  /** For `i` from the last index down to 1, swaps `a[i]` with an arbitrary
      `a[j]`, `0 <= j <= i`. The result holds the same elements, each as
      often as before. */
  method ShuffleArray<T>(a: array<T>)
    modifies a
    ensures multiset(a[..]) == old(multiset(a[..]))
  {
    var i := a.Length - 1;
    while i > 0
      invariant i < a.Length
      invariant multiset(a[..]) == old(multiset(a[..]))
      decreases i
    {
      var j :| 0 <= j <= i;
      Swap(a, i, j);
      i := i - 1;
    }
  }
}
