/** Boolean-mask row selection, the way `df[mask]` and `dropna` select rows of
    a pandas frame: the rows whose mask entry is true, in their original order. */
module Masks {

  /** Strictly ascending positions. */
  ghost predicate Increasing(ix: seq<nat>)
  {
    forall k, l :: 0 <= k < l < |ix| ==> ix[k] < ix[l]
  }

  /** `ix` picks, in ascending order, the positions of `xs` that make up `r`. */
  ghost predicate Embeds<T>(ix: seq<nat>, r: seq<T>, xs: seq<T>)
  {
    && |ix| == |r|
    && Increasing(ix)
    && forall k :: 0 <= k < |ix| ==> ix[k] < |xs| && r[k] == xs[ix[k]]
  }

  /** `r` is `xs` with some elements left out and the rest in their original order. */
  ghost predicate IsSubsequence<T>(r: seq<T>, xs: seq<T>)
  {
    exists ix :: Embeds(ix, r, xs)
  }

  /** The positions at which `mask` is true, in ascending order. */
  function TrueIndices(mask: seq<bool>): (ix: seq<nat>)
    ensures Increasing(ix)
    ensures forall k :: 0 <= k < |ix| ==> ix[k] < |mask| && mask[ix[k]]
    ensures forall i :: 0 <= i < |mask| ==> (mask[i] <==> i in ix)
  {
    if |mask| == 0 then []
    else
      var n := |mask| - 1;
      TrueIndices(mask[..n]) + (if mask[n] then [n] else [])
  }

  /** `xs[mask]`: the elements whose mask entry is true. */
  function Take<T>(xs: seq<T>, mask: seq<bool>): (r: seq<T>)
    requires |mask| == |xs|
    ensures |r| <= |xs|
  {
    if |xs| == 0 then []
    else
      var n := |xs| - 1;
      Take(xs[..n], mask[..n]) + (if mask[n] then [xs[n]] else [])
  }

  /** The mask a row-wise condition produces over a column of rows. */
  function MaskOf<T>(xs: seq<T>, p: T -> bool): (m: seq<bool>)
    ensures |m| == |xs|
    ensures forall i :: 0 <= i < |xs| ==> m[i] == p(xs[i])
  {
    seq(|xs|, i requires 0 <= i < |xs| => p(xs[i]))
  }

  /** `xs[p(xs)]`: select by the mask of a row-wise condition. */
  function Select<T>(xs: seq<T>, p: T -> bool): (r: seq<T>)
    ensures forall x :: x in r ==> x in xs && p(x)
    ensures forall i :: 0 <= i < |xs| && p(xs[i]) ==> xs[i] in r
    ensures |r| <= |xs|
  {
    var m := MaskOf(xs, p);
    TakeByIndices(xs, m);
    Take(xs, m)
  }

  /** Mask indexing keeps exactly the true positions, in ascending order. */
  lemma {:induction false} TakeByIndices<T>(xs: seq<T>, mask: seq<bool>)
    requires |mask| == |xs|
    ensures Embeds(TrueIndices(mask), Take(xs, mask), xs)
    decreases |xs|
  {
    if |xs| > 0 {
      var n := |xs| - 1;
      TakeByIndices(xs[..n], mask[..n]);
      var ix', r' := TrueIndices(mask[..n]), Take(xs[..n], mask[..n]);
      var ix, r := TrueIndices(mask), Take(xs, mask);
      assert forall k :: 0 <= k < |ix'| ==> ix'[k] < n && r'[k] == xs[ix'[k]];
      if mask[n] {
        assert ix == ix' + [n] && r == r' + [xs[n]];
        assert forall k :: 0 <= k < |ix| ==> ix[k] < |xs| && r[k] == xs[ix[k]];
      } else {
        assert ix == ix' && r == r';
      }
    }
  }

  /** The selection of `xs` by `p` is `xs` indexed by the positions where `p` holds. */
  lemma SelectByIndices<T>(xs: seq<T>, p: T -> bool)
    ensures var ix := TrueIndices(MaskOf(xs, p));
      && Embeds(ix, Select(xs, p), xs)
      && forall i :: 0 <= i < |xs| ==> (p(xs[i]) <==> i in ix)
  {
    TakeByIndices(xs, MaskOf(xs, p));
  }

  /** A selection is a subsequence of what it selects from. */
  lemma SelectIsSubsequence<T>(xs: seq<T>, p: T -> bool)
    ensures IsSubsequence(Select(xs, p), xs)
  {
    SelectByIndices(xs, p);
  }

  /** Appending one element extends the selection by that element if it passes. */
  lemma SelectSnoc<T>(xs: seq<T>, x: T, p: T -> bool)
    ensures Select(xs + [x], p) == Select(xs, p) + (if p(x) then [x] else [])
  {
    var ys := xs + [x];
    assert ys[..|xs|] == xs;
    assert MaskOf(ys, p)[..|xs|] == MaskOf(xs, p);
  }

  /** Selecting by conditions that agree on every element gives the same result. */
  lemma {:induction false} SelectExtensional<T>(xs: seq<T>, p: T -> bool, q: T -> bool)
    requires forall i :: 0 <= i < |xs| ==> p(xs[i]) == q(xs[i])
    ensures Select(xs, p) == Select(xs, q)
    decreases |xs|
  {
    if |xs| > 0 {
      var n := |xs| - 1;
      assert xs == xs[..n] + [xs[n]];
      SelectExtensional(xs[..n], p, q);
      SelectSnoc(xs[..n], xs[n], p);
      SelectSnoc(xs[..n], xs[n], q);
    }
  }

  /** Selecting twice is selecting once by the conjunction of the conditions. */
  lemma {:induction false} SelectTwice<T>(xs: seq<T>, p: T -> bool, q: T -> bool, pq: T -> bool)
    requires forall i :: 0 <= i < |xs| ==> pq(xs[i]) == (p(xs[i]) && q(xs[i]))
    ensures Select(Select(xs, p), q) == Select(xs, pq)
    decreases |xs|
  {
    if |xs| > 0 {
      var n := |xs| - 1;
      assert xs == xs[..n] + [xs[n]];
      SelectTwice(xs[..n], p, q, pq);
      SelectSnoc(xs[..n], xs[n], p);
      SelectSnoc(xs[..n], xs[n], pq);
      var s := Select(xs[..n], p);
      if p(xs[n]) {
        SelectSnoc(s, xs[n], q);
        calc {
          Select(Select(xs, p), q);
          Select(s + [xs[n]], q);
          Select(s, q) + (if q(xs[n]) then [xs[n]] else []);
          Select(xs[..n], pq) + (if pq(xs[n]) then [xs[n]] else []);
          Select(xs, pq);
        }
      } else {
        assert Select(xs, p) == s + [] == s;
        calc {
          Select(Select(xs, p), q);
          Select(s, q);
          Select(xs[..n], pq);
          Select(xs, pq);
        }
      }
    }
  }

  /** Selecting by a condition every element passes keeps everything. */
  lemma {:induction false} SelectAll<T>(xs: seq<T>, p: T -> bool)
    requires forall i :: 0 <= i < |xs| ==> p(xs[i])
    ensures Select(xs, p) == xs
    decreases |xs|
  {
    if |xs| > 0 {
      var n := |xs| - 1;
      assert xs == xs[..n] + [xs[n]];
      SelectAll(xs[..n], p);
      SelectSnoc(xs[..n], xs[n], p);
    }
  }

  /** Selecting by a condition no element passes keeps nothing. */
  lemma {:induction false} SelectNone<T>(xs: seq<T>, p: T -> bool)
    requires forall i :: 0 <= i < |xs| ==> !p(xs[i])
    ensures Select(xs, p) == []
    decreases |xs|
  {
    if |xs| > 0 {
      var n := |xs| - 1;
      assert xs == xs[..n] + [xs[n]];
      SelectNone(xs[..n], p);
      SelectSnoc(xs[..n], xs[n], p);
    }
  }

  /** Selecting again by the same condition changes nothing. */
  lemma SelectIdempotent<T>(xs: seq<T>, p: T -> bool)
    ensures Select(Select(xs, p), p) == Select(xs, p)
  {
    var s := Select(xs, p);
    forall i | 0 <= i < |s|
      ensures p(s[i])
    {
      assert s[i] in s;
    }
    SelectAll(s, p);
  }

  /** A condition that implies another selects a subsequence of what the other selects. */
  lemma SelectMonotone<T>(xs: seq<T>, p: T -> bool, q: T -> bool)
    requires forall i :: 0 <= i < |xs| ==> p(xs[i]) ==> q(xs[i])
    ensures IsSubsequence(Select(xs, p), Select(xs, q))
  {
    SelectTwice(xs, q, p, p);
    SelectIsSubsequence(Select(xs, q), p);
  }

  /** Two ascending position lists with the same members are the same list. */
  lemma {:induction false} IncreasingUnique(a: seq<nat>, b: seq<nat>)
    requires Increasing(a) && Increasing(b)
    requires forall x :: x in a <==> x in b
    ensures a == b
    decreases |a| + |b|
  {
    assert |a| > 0 ==> a[0] in b;
    assert |b| > 0 ==> b[0] in a;
    if |a| > 0 {
      assert forall k :: 0 < k < |a| ==> a[0] < a[k];
      assert forall k :: 0 < k < |b| ==> b[0] < b[k];
      assert a[0] == b[0];
      forall x
        ensures x in a[1..] <==> x in b[1..]
      {
        if x in a[1..] {
          assert x in b && x != b[0];
        }
        if x in b[1..] {
          assert x in a && x != a[0];
        }
      }
      IncreasingUnique(a[1..], b[1..]);
      assert a == [a[0]] + a[1..];
      assert b == [b[0]] + b[1..];
    }
  }

  /** Any in-order pick of exactly the positions passing `p` is the selection by `p`. */
  lemma SelectUnique<T>(xs: seq<T>, p: T -> bool, ix: seq<nat>, r: seq<T>)
    requires Embeds(ix, r, xs)
    requires forall i :: 0 <= i < |xs| ==> (p(xs[i]) <==> i in ix)
    ensures r == Select(xs, p)
  {
    var jx := TrueIndices(MaskOf(xs, p));
    SelectByIndices(xs, p);
    forall x
      ensures x in ix <==> x in jx
    {
      if x in ix {
        var k :| 0 <= k < |ix| && ix[k] == x;
        assert x < |xs|;
      }
    }
    IncreasingUnique(ix, jx);
    var s := Select(xs, p);
    assert |r| == |s|;
    forall k | 0 <= k < |r|
      ensures r[k] == s[k]
    {
    }
  }
}
