/** pandas' NaN-skipping reductions over a numeric column. */
module Stats {
  import opened Optional

  /** The values of a column with the missing entries dropped (`skipna`). */
  function Present(xs: seq<Option<real>>): (vs: seq<real>)
    ensures |vs| <= |xs|
    ensures forall v :: v in vs ==> Some(v) in xs
    ensures forall i :: 0 <= i < |xs| && xs[i].Some? ==> xs[i].value in vs
    ensures |vs| == 0 <==> forall i :: 0 <= i < |xs| ==> xs[i].None?
  {
    if |xs| == 0 then []
    else
      var n := |xs| - 1;
      assert forall o :: o in xs[..n] ==> o in xs;
      Present(xs[..n]) + (if xs[n].Some? then [xs[n].value] else [])
  }

  function Sum(vs: seq<real>): real
  {
    if |vs| == 0 then 0.0 else Sum(vs[..|vs| - 1]) + vs[|vs| - 1]
  }

  function Smallest(vs: seq<real>): (m: real)
    requires |vs| > 0
    ensures m in vs
    ensures forall v :: v in vs ==> m <= v
  {
    if |vs| == 1 then vs[0]
    else
      var n := |vs| - 1;
      var m := Smallest(vs[..n]);
      assert vs == vs[..n] + [vs[n]];
      if vs[n] < m then vs[n] else m
  }

  function Largest(vs: seq<real>): (m: real)
    requires |vs| > 0
    ensures m in vs
    ensures forall v :: v in vs ==> v <= m
  {
    if |vs| == 1 then vs[0]
    else
      var n := |vs| - 1;
      var m := Largest(vs[..n]);
      assert vs == vs[..n] + [vs[n]];
      if vs[n] > m then vs[n] else m
  }

  /** A sum of values all within [lo, hi] is within [n * lo, n * hi]. */
  lemma {:induction false} SumBounds(vs: seq<real>, lo: real, hi: real)
    requires forall v :: v in vs ==> lo <= v <= hi
    ensures |vs| as real * lo <= Sum(vs) <= |vs| as real * hi
  {
    if |vs| > 0 {
      var n := |vs| - 1;
      var init := vs[..n];
      assert forall v :: v in init ==> v in vs;
      SumBounds(init, lo, hi);
      assert vs[n] in vs;
      assert Sum(vs) == Sum(init) + vs[n];
      Distribute(n, lo);
      Distribute(n, hi);
      assert |init| == n && |vs| == n + 1;
    }
  }

  lemma Distribute(k: nat, x: real)
    ensures (k + 1) as real * x == k as real * x + x
  {
  }

  /** The arithmetic mean of a non-empty list: the value that, taken once per
      element, adds up to the list's sum. */
  function Average(vs: seq<real>): (a: real)
    requires |vs| > 0
    ensures a * (|vs| as real) == Sum(vs)
    ensures Smallest(vs) <= a <= Largest(vs)
  {
    AverageWithinRange(vs, Smallest(vs), Largest(vs));
    DivideThenMultiply(Sum(vs), |vs| as real);
    Sum(vs) / (|vs| as real)
  }

  lemma DivideThenMultiply(total: real, n: real)
    requires n > 0.0
    ensures (total / n) * n == total
  {
  }

  /** `Series.mean()`: the arithmetic mean of the present values, missing (NaN)
      when there are none. */
  function Mean(xs: seq<Option<real>>): (m: Option<real>)
    ensures m.None? <==> forall i :: 0 <= i < |xs| ==> xs[i].None?
    ensures m.Some? ==> |Present(xs)| > 0 && m.value == Average(Present(xs))
    ensures m.Some? ==> Smallest(Present(xs)) <= m.value <= Largest(Present(xs))
  {
    var vs := Present(xs);
    if |vs| == 0 then None else Some(Average(vs))
  }

  /** An average of values within [lo, hi] is within [lo, hi]. */
  lemma AverageWithinRange(vs: seq<real>, lo: real, hi: real)
    requires |vs| > 0
    requires forall v :: v in vs ==> lo <= v <= hi
    ensures lo <= Sum(vs) / (|vs| as real) <= hi
  {
    var n, total := |vs| as real, Sum(vs);
    SumBounds(vs, lo, hi);
    QuotientAtLeast(total, n, lo);
    QuotientAtMost(total, n, hi);
  }

  lemma QuotientAtLeast(total: real, n: real, lo: real)
    requires n > 0.0 && n * lo <= total
    ensures lo <= total / n
  {
  }

  lemma QuotientAtMost(total: real, n: real, hi: real)
    requires n > 0.0 && total <= n * hi
    ensures total / n <= hi
  {
  }

  /** NaN entries do not move the mean. */
  lemma MeanSkipsMissing(xs: seq<Option<real>>)
    ensures Mean(xs + [None]) == Mean(xs)
  {
    var ys := xs + [None];
    assert ys[..|xs|] == xs;
    assert Present(ys) == Present(xs);
  }

  /** The mean of a column whose present values are all `c` is `c`. */
  lemma MeanOfConstant(xs: seq<Option<real>>, c: real)
    requires exists i :: 0 <= i < |xs| && xs[i].Some?
    requires forall i :: 0 <= i < |xs| && xs[i].Some? ==> xs[i].value == c
    ensures Mean(xs) == Some(c)
  {
    var vs := Present(xs);
    forall v | v in vs
      ensures v == c
    {
      assert Some(v) in xs;
    }
  }
}
