/** The dashboard figures over the whole loaded table: the three summary
    metrics (app.py:46-48) and the top ten brands by mean rating (app.py:52). */
module Metrics {
  import opened Optional
  import opened Masks
  import opened Text
  import opened Stats
  import opened Catalog

  /** Product count, mean price and mean rating; a mean is `None` (NaN) when
      no row has that value. */
  datatype Summary = Summary(count: nat, meanPrice: Option<real>, meanRating: Option<real>)

  /** Lines 46-48: `len(df)`, `df["price"].mean()`, `df["avg_rating"].mean()`. */
  function Summarise(rows: seq<Row>): (s: Summary)
    ensures s.count == |rows|
    ensures s.meanPrice == Mean(Prices(rows)) && s.meanRating == Mean(Ratings(rows))
    ensures s.meanPrice.None? <==> forall i :: 0 <= i < |rows| ==> rows[i].price.None?
    ensures s.meanRating.None? <==> forall i :: 0 <= i < |rows| ==> rows[i].rating.None?
    ensures s.meanPrice.Some? ==> Smallest(Present(Prices(rows))) <= s.meanPrice.value <= Largest(Present(Prices(rows)))
    ensures s.meanRating.Some? ==> Smallest(Present(Ratings(rows))) <= s.meanRating.value <= Largest(Present(Ratings(rows)))
  {
    Summary(|rows|, Mean(Prices(rows)), Mean(Ratings(rows)))
  }

  /** A row whose price and rating are missing (for instance because they did
      not parse) adds one to the product count and leaves both means as they were. */
  lemma MissingValuesCountButAreNotAveraged(rows: seq<Row>, r: Row)
    requires r.price.None? && r.rating.None?
    ensures Summarise(rows + [r]).count == Summarise(rows).count + 1
    ensures Summarise(rows + [r]).meanPrice == Summarise(rows).meanPrice
    ensures Summarise(rows + [r]).meanRating == Summarise(rows).meanRating
  {
    assert Prices(rows + [r]) == Prices(rows) + [None];
    assert Ratings(rows + [r]) == Ratings(rows) + [None];
    MeanSkipsMissing(Prices(rows));
    MeanSkipsMissing(Ratings(rows));
  }

  /** The product count is the number of complete raw rows, coerced ones included. */
  lemma CountIncludesCoercedRows(raw: seq<RawRow>, parse: string -> Option<real>)
    ensures Summarise(Load(raw, parse)).count == |DropIncomplete(raw)|
  {
  }

  /** One bar of the chart: a brand and the mean of its present ratings. */
  datatype BrandMean = BrandMean(brand: string, mean: Option<real>)

  /** The ratings of one brand's rows, in catalog order. */
  function RatingsOf(rows: seq<Row>, brand: string): seq<Option<real>>
  {
    Ratings(Select(rows, BrandIs(brand)))
  }

  /** `df.groupby("brand")["avg_rating"].mean()`: one entry per distinct brand,
      keyed in ascending brand order. */
  function GroupMeans(rows: seq<Row>): (g: seq<BrandMean>)
    ensures forall k :: 0 <= k < |g| ==> g[k].mean == Mean(RatingsOf(rows, g[k].brand))
    ensures forall b :: (exists k :: 0 <= k < |g| && g[k].brand == b) <==> b in Brands(rows)
    ensures forall k, l :: 0 <= k < l < |g| ==> Less(g[k].brand, g[l].brand)
  {
    var keys := SortedUnique(Brands(rows));
    var g := seq(|keys|, k requires 0 <= k < |keys| => BrandMean(keys[k], Mean(RatingsOf(rows, keys[k]))));
    assert forall b :: b in keys ==> exists k :: 0 <= k < |g| && g[k].brand == b by {
      forall b | b in keys
        ensures exists k :: 0 <= k < |g| && g[k].brand == b
      {
        var k :| 0 <= k < |keys| && keys[k] == b;
        assert g[k].brand == b;
      }
    }
    g
  }

  /** `a` may be placed before `b` in `sort_values(ascending=False)`: larger
      means first, NaN (pandas' default `na_position="last"`) after every number. */
  predicate RanksAbove(a: Option<real>, b: Option<real>)
  {
    match a
    case None => b.None?
    case Some(x) => b.None? || x >= b.value
  }

  lemma RanksAboveTotal(a: Option<real>, b: Option<real>)
    ensures RanksAbove(a, b) || RanksAbove(b, a)
  {
  }

  lemma RanksAboveTransitive(a: Option<real>, b: Option<real>, c: Option<real>)
    requires RanksAbove(a, b) && RanksAbove(b, c)
    ensures RanksAbove(a, c)
  {
  }

  ghost predicate SortedByMean(s: seq<BrandMean>)
  {
    forall i, j :: 0 <= i < j < |s| ==> RanksAbove(s[i].mean, s[j].mean)
  }

  ghost predicate DistinctBrands(s: seq<BrandMean>)
  {
    forall i, j :: 0 <= i < j < |s| ==> s[i].brand != s[j].brand
  }

  /** Places `e` after every entry ranking at or above it. */
  function InsertByMean(s: seq<BrandMean>, e: BrandMean): (r: seq<BrandMean>)
    requires SortedByMean(s)
    ensures SortedByMean(r)
    ensures multiset(r) == multiset(s) + multiset{e}
  {
    if |s| == 0 then [e]
    else if !RanksAbove(s[0].mean, e.mean) then
      InsertInFront(s, e);
      [e] + s
    else
      var rest := InsertByMean(s[1..], e);
      InsertBehind(s, e, rest);
      assert s == [s[0]] + s[1..];
      [s[0]] + rest
  }

  lemma InsertInFront(s: seq<BrandMean>, e: BrandMean)
    requires SortedByMean(s) && |s| > 0 && !RanksAbove(s[0].mean, e.mean)
    ensures SortedByMean([e] + s)
  {
  }

  lemma InsertBehind(s: seq<BrandMean>, e: BrandMean, rest: seq<BrandMean>)
    requires SortedByMean(s) && |s| > 0 && RanksAbove(s[0].mean, e.mean)
    requires SortedByMean(rest) && multiset(rest) == multiset(s[1..]) + multiset{e}
    ensures SortedByMean([s[0]] + rest)
  {
    forall x | x in rest
      ensures RanksAbove(s[0].mean, x.mean)
    {
      assert x in multiset(rest);
      if x != e {
        assert x in multiset(s[1..]);
        var j :| 0 <= j < |s[1..]| && s[1..][j] == x;
        assert s[j + 1] == x;
      }
    }
    var r := [s[0]] + rest;
    forall i, j | 0 <= i < j < |r|
      ensures RanksAbove(r[i].mean, r[j].mean)
    {
      assert r[j] == rest[j - 1];
      assert rest[j - 1] in rest;
      if i > 0 {
        assert r[i] == rest[i - 1];
      }
    }
  }

  /** `sort_values(ascending=False)`. Ties keep their group order here; the
      contracts below hold whatever order ties are given. */
  function SortByMean(g: seq<BrandMean>): (s: seq<BrandMean>)
    ensures SortedByMean(s)
    ensures multiset(s) == multiset(g)
  {
    if |g| == 0 then []
    else
      var n := |g| - 1;
      assert g == g[..n] + [g[n]];
      InsertByMean(SortByMean(g[..n]), g[n])
  }

  /** How many brands the chart shows. */
  const TopBrandCount: nat := 10

  /** Line 52: `.sort_values(ascending=False).head(10)` of the group means. */
  function TopBrands(rows: seq<Row>): (top: seq<BrandMean>)
    ensures |top| <= TopBrandCount
    ensures DistinctBrands(top)
    ensures SortedByMean(top)
    ensures forall k :: 0 <= k < |top| ==>
      top[k].brand in Brands(rows) && top[k].mean == Mean(RatingsOf(rows, top[k].brand))
    ensures forall b :: b in Brands(rows) && (forall k :: 0 <= k < |top| ==> top[k].brand != b) ==>
      |top| == TopBrandCount && forall k :: 0 <= k < |top| ==> RanksAbove(top[k].mean, Mean(RatingsOf(rows, b)))
  {
    var g := GroupMeans(rows);
    var s := SortByMean(g);
    var top := s[..if |s| < TopBrandCount then |s| else TopBrandCount];
    TopBrandsFacts(rows, g, s, top);
    top
  }

  lemma TopBrandsFacts(rows: seq<Row>, g: seq<BrandMean>, s: seq<BrandMean>, top: seq<BrandMean>)
    requires g == GroupMeans(rows)
    requires SortedByMean(s) && multiset(s) == multiset(g)
    requires top == s[..if |s| < TopBrandCount then |s| else TopBrandCount]
    ensures |top| <= TopBrandCount
    ensures SortedByMean(top)
    ensures DistinctBrands(top)
    ensures forall k :: 0 <= k < |top| ==>
      top[k].brand in Brands(rows) && top[k].mean == Mean(RatingsOf(rows, top[k].brand))
    ensures forall b :: b in Brands(rows) && (forall k :: 0 <= k < |top| ==> top[k].brand != b) ==>
      |top| == TopBrandCount && forall k :: 0 <= k < |top| ==> RanksAbove(top[k].mean, Mean(RatingsOf(rows, b)))
  {
    SameMembers(s, g);
    SortedGroupsDistinct(rows, g, s);
    assert SortedByMean(top) by {
      forall i, j | 0 <= i < j < |top|
        ensures RanksAbove(top[i].mean, top[j].mean)
      {
        assert top[i] == s[i] && top[j] == s[j];
      }
    }
    forall k | 0 <= k < |top|
      ensures top[k].brand in Brands(rows) && top[k].mean == Mean(RatingsOf(rows, top[k].brand))
    {
      assert top[k] == s[k] && s[k] in g;
      var l :| 0 <= l < |g| && g[l] == s[k];
    }
    forall b | b in Brands(rows) && (forall k :: 0 <= k < |top| ==> top[k].brand != b)
      ensures |top| == TopBrandCount
      ensures forall k :: 0 <= k < |top| ==> RanksAbove(top[k].mean, Mean(RatingsOf(rows, b)))
    {
      var k :| 0 <= k < |g| && g[k].brand == b;
      assert g[k] in s;
      OmittedRanksBelow(s, top, g[k]);
    }
  }

  lemma SameMembers(s: seq<BrandMean>, g: seq<BrandMean>)
    requires multiset(s) == multiset(g)
    ensures forall x :: x in s <==> x in g
  {
    forall x
      ensures x in s <==> x in g
    {
      assert x in s <==> x in multiset(s);
      assert x in g <==> x in multiset(g);
    }
  }

  /** A reordering of the group entries still has each brand once. */
  lemma SortedGroupsDistinct(rows: seq<Row>, g: seq<BrandMean>, s: seq<BrandMean>)
    requires g == GroupMeans(rows)
    requires multiset(s) == multiset(g)
    ensures DistinctBrands(s)
  {
    SameMembers(s, g);
    forall i, j | 0 <= i < j < |s|
      ensures s[i].brand != s[j].brand
    {
      if s[i].brand == s[j].brand {
        assert s[i] in g && s[j] in g;
        SameBrandSameEntry(rows, g, s[i], s[j]);
        DuplicateCounts(s, i, j);
        DistinctEntriesCountOnce(g, s[i]);
        assert false;
      }
    }
  }

  /** An entry left off the chart ranks at or below every entry on it. */
  lemma OmittedRanksBelow(s: seq<BrandMean>, top: seq<BrandMean>, e: BrandMean)
    requires SortedByMean(s)
    requires top == s[..if |s| < TopBrandCount then |s| else TopBrandCount]
    requires e in s && forall k :: 0 <= k < |top| ==> top[k].brand != e.brand
    ensures |top| == TopBrandCount
    ensures forall k :: 0 <= k < |top| ==> RanksAbove(top[k].mean, e.mean)
  {
  }

  /** Group entries are determined by their brand. */
  lemma SameBrandSameEntry(rows: seq<Row>, g: seq<BrandMean>, x: BrandMean, y: BrandMean)
    requires forall k :: 0 <= k < |g| ==> g[k].mean == Mean(RatingsOf(rows, g[k].brand))
    requires x in g && y in g && x.brand == y.brand
    ensures x == y
  {
  }

  lemma DuplicateCounts(s: seq<BrandMean>, i: nat, j: nat)
    requires i < j < |s| && s[i] == s[j]
    ensures multiset(s)[s[i]] >= 2
  {
    assert s == s[..j] + s[j..];
    assert s[i] in s[..j];
    assert s[j] in s[j..];
  }

  lemma DistinctEntriesCountOnce(g: seq<BrandMean>, x: BrandMean)
    requires forall k, l :: 0 <= k < l < |g| ==> Less(g[k].brand, g[l].brand)
    ensures multiset(g)[x] <= 1
  {
    if |g| > 0 {
      var n := |g| - 1;
      assert g == g[..n] + [g[n]];
      DistinctEntriesCountOnce(g[..n], x);
      if g[n] == x {
        if x in g[..n] {
          var k :| 0 <= k < n && g[k] == x;
          LessIrreflexive(x.brand);
        }
      }
    }
  }
}
