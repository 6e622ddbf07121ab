/** Order-preserving selections, shared by the line filters of day-03 and day-04. */
module Sequences {

  /** `a` is `b` with some entries removed, the rest in their original order. */
  predicate IsSubsequence<T(==)>(a: seq<T>, b: seq<T>)
    decreases |b|
  {
    if |a| == 0 then true
    else if |b| == 0 then false
    else (a[0] == b[0] && IsSubsequence(a[1..], b[1..])) || IsSubsequence(a, b[1..])
  }

  /** A selection stays one when an entry is added at the end, whether or not it is kept. */
  lemma {:induction false} SubsequenceExtend<T>(a: seq<T>, b: seq<T>, x: T)
    requires IsSubsequence(a, b)
    ensures IsSubsequence(a, b + [x])
    ensures IsSubsequence(a + [x], b + [x])
    decreases |b|
  {
    if |b| == 0 {
      assert a + [x] == [x] == b + [x];
      assert IsSubsequence([x][1..], ([] + [x])[1..]);
    } else {
      assert (b + [x])[1..] == b[1..] + [x];
      if |a| > 0 && a[0] == b[0] && IsSubsequence(a[1..], b[1..]) {
        SubsequenceExtend(a[1..], b[1..], x);
        assert (a + [x])[1..] == a[1..] + [x];
      } else {
        SubsequenceExtend(a, b[1..], x);
      }
    }
  }
}
