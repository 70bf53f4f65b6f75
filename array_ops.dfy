/**
 * The two JavaScript array operations the core relies on: `Array.prototype.find`
 * and the reversal of a copy (`[...xs].reverse()`). Both work on values, so the
 * array they are applied to is never changed.
 */
module ArrayOps {
  import opened Wrappers

  /** `xs.find(p)`: the first element that satisfies `p`, or `undefined`. */
  function Find<T>(xs: seq<T>, p: T -> bool): (r: Option<T>)
    ensures r.Some? ==> r.value in xs && p(r.value)
    ensures r.None? <==> forall i :: 0 <= i < |xs| ==> !p(xs[i])
  {
    if xs == [] then None
    else if p(xs[0]) then Some(xs[0])
    else Find(xs[1..], p)
  }

  /** `i` is the position of the first element of `xs` that satisfies `p`. */
  ghost predicate IsFirstMatch<T>(xs: seq<T>, p: T -> bool, i: int)
  {
    0 <= i < |xs| && p(xs[i]) && forall j :: 0 <= j < i ==> !p(xs[j])
  }

  /** Whatever element comes first among those satisfying `p` is the one `Find` returns. */
  lemma {:induction false} FindReturnsFirstMatch<T>(xs: seq<T>, p: T -> bool, i: int)
    requires IsFirstMatch(xs, p, i)
    ensures Find(xs, p) == Some(xs[i])
  {
    if i > 0 {
      assert !p(xs[0]);
      assert IsFirstMatch(xs[1..], p, i - 1);
      FindReturnsFirstMatch(xs[1..], p, i - 1);
    }
  }

  /** Conversely, a found element sits at the first matching position. */
  lemma {:induction false} FindIsFirstMatch<T>(xs: seq<T>, p: T -> bool)
    requires Find(xs, p).Some?
    ensures exists i :: IsFirstMatch(xs, p, i) && Find(xs, p).value == xs[i]
  {
    if !p(xs[0]) {
      FindIsFirstMatch(xs[1..], p);
      var i :| IsFirstMatch(xs[1..], p, i) && Find(xs[1..], p).value == xs[1..][i];
      assert IsFirstMatch(xs, p, i + 1);
    } else {
      assert IsFirstMatch(xs, p, 0);
    }
  }

  /** `[...xs].reverse()`: a reversed copy of `xs`. */
  function Reverse<T>(xs: seq<T>): (r: seq<T>)
    ensures |r| == |xs|
    ensures forall i :: 0 <= i < |xs| ==> r[i] == xs[|xs| - 1 - i]
  {
    if xs == [] then [] else Reverse(xs[1..]) + [xs[0]]
  }
}
