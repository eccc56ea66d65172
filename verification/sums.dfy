/** Sums of a per-element quantity over a sequence, and the facts about them
    that the counting and scoring code relies on: they split over
    concatenation, ignore the order of the elements, and grow with the
    quantity. */
module Sums {

  /** The sum of `f` over the elements of `xs`. */
  function SumOf<T>(xs: seq<T>, f: T -> int): int
  {
    if |xs| == 0 then 0 else f(xs[0]) + SumOf(xs[1..], f)
  }

  lemma {:induction false} SumOfConcat<T>(xs: seq<T>, ys: seq<T>, f: T -> int)
    ensures SumOf(xs + ys, f) == SumOf(xs, f) + SumOf(ys, f)
  {
    if |xs| > 0 {
      assert (xs + ys)[1..] == xs[1..] + ys;
      SumOfConcat(xs[1..], ys, f);
    } else {
      assert xs + ys == ys;
    }
  }

  /** Reordering the elements does not change the sum. */
  lemma {:induction false} SumOfPermutation<T>(xs: seq<T>, ys: seq<T>, f: T -> int)
    requires multiset(xs) == multiset(ys)
    ensures SumOf(xs, f) == SumOf(ys, f)
  {
    if |xs| > 0 {
      var x := xs[0];
      assert x in multiset(ys);
      var j :| 0 <= j < |ys| && ys[j] == x;
      var rest := ys[..j] + ys[j + 1..];
      assert ys == ys[..j] + [x] + ys[j + 1..];
      assert xs == [x] + xs[1..];
      assert multiset(xs) == multiset([x]) + multiset(xs[1..]);
      assert multiset(ys) == multiset(ys[..j]) + multiset([x]) + multiset(ys[j + 1..]);
      assert multiset(rest) == multiset(ys[..j]) + multiset(ys[j + 1..]);
      assert multiset(xs[1..]) == multiset(xs) - multiset{x};
      assert multiset(rest) == multiset(ys) - multiset{x};
      SumOfPermutation(xs[1..], rest, f);
      SumOfConcat(ys[..j] + [x], ys[j + 1..], f);
      SumOfConcat(ys[..j], [x], f);
      SumOfConcat(ys[..j], ys[j + 1..], f);
    }
  }

  /** A pointwise larger quantity has a larger sum. */
  lemma {:induction false} SumOfMonotone<T>(xs: seq<T>, f: T -> int, g: T -> int)
    requires forall k :: 0 <= k < |xs| ==> f(xs[k]) <= g(xs[k])
    ensures SumOf(xs, f) <= SumOf(xs, g)
  {
    if |xs| > 0 {
      SumOfMonotone(xs[1..], f, g);
    }
  }

  /** A sum of non-negative quantities is non-negative. */
  lemma {:induction false} SumOfNonNegative<T>(xs: seq<T>, f: T -> int)
    requires forall k :: 0 <= k < |xs| ==> f(xs[k]) >= 0
    ensures SumOf(xs, f) >= 0
  {
    if |xs| > 0 {
      SumOfNonNegative(xs[1..], f);
    }
  }

  /** A prefix of a sum of non-negative quantities is no larger than the whole. */
  lemma SumOfPrefix<T>(xs: seq<T>, i: nat, f: T -> int)
    requires i <= |xs|
    requires forall k :: 0 <= k < |xs| ==> f(xs[k]) >= 0
    ensures 0 <= SumOf(xs[..i], f) <= SumOf(xs, f)
  {
    assert xs == xs[..i] + xs[i..];
    SumOfConcat(xs[..i], xs[i..], f);
    SumOfNonNegative(xs[..i], f);
    SumOfNonNegative(xs[i..], f);
  }

  /** Applies `f` to every element, keeping the order. */
  function MapSeq<T, U>(xs: seq<T>, f: T -> U): (ys: seq<U>)
    ensures |ys| == |xs|
  {
    if |xs| == 0 then [] else [f(xs[0])] + MapSeq(xs[1..], f)
  }

  ghost function Hits<T, U>(f: T -> U, u: U): T -> int
  {
    x => if f(x) == u then 1 else 0
  }

  /** How often `u` occurs among the images is how many elements `f` sends to `u`. */
  lemma {:induction false} MapSeqCount<T, U>(xs: seq<T>, f: T -> U, u: U)
    ensures multiset(MapSeq(xs, f))[u] == SumOf(xs, Hits(f, u))
  {
    if |xs| > 0 {
      MapSeqCount(xs[1..], f, u);
    }
  }

}
