/** The loop `for i := lo; i <= hi; i++` over machine ints, whose counter wraps past the largest int. */
module CountingLoops {
  import opened Integers

  /** The counter after n turns. */
  function Counter(lo: int64, n: nat): (i: int64) {
    if n == 0 then lo else WrapAdd(Counter(lo, n - 1), 1)
  }

  /** The guard holds before each of the first n turns and fails after them. */
  ghost predicate EndsAfter(lo: int64, hi: int64, n: nat) {
    (forall m: nat :: m < n ==> Counter(lo, m) <= hi) && Counter(lo, n) > hi
  }

  /** The guard never fails. */
  ghost predicate RunsForever(lo: int64, hi: int64) {
    forall n: nat :: Counter(lo, n) <= hi
  }

  lemma {:induction false} CounterAdds(lo: int64, n: nat)
    requires lo + n < TWO_63
    ensures Counter(lo, n) == lo + n
  {
    if n > 0 { CounterAdds(lo, n - 1); }
  }

  /** A loop that ends below the largest int takes one turn for each number of its range. */
  lemma EndsExactly(lo: int64, hi: int64)
    requires hi < MAX_INT
    ensures EndsAfter(lo, hi, if lo <= hi then hi - lo + 1 else 0)
  {
    hide Counter;
    var n := if lo <= hi then hi - lo + 1 else 0;
    forall m: nat | m <= n ensures Counter(lo, m) == lo + m { CounterAdds(lo, m); }
  }

  /** The loop never ends exactly when it counts up to the largest int. */
  lemma ForeverExactly(lo: int64, hi: int64)
    ensures RunsForever(lo, hi) <==> hi == MAX_INT
    ensures RunsForever(lo, hi) <==> forall n: nat :: !EndsAfter(lo, hi, n)
  {
    hide Counter;
    if hi < MAX_INT { EndsExactly(lo, hi); }
  }
}
