/** The sidebar (app.py:31-41): the brand choices, the price slider's range,
    and the catalog view `filtered_df` the three controls select. The widgets
    themselves are not modelled; their current values are a `Selection`. */
module Sidebar {
  import opened Optional
  import opened Masks
  import opened Text
  import opened Stats
  import opened Catalog

  /** The select box entry that disables the brand condition. */
  const AllBrands: string := "All"

  /** Line 31: `["All"] + sorted(df["brand"].dropna().unique())`. */
  function BrandOptions(rows: seq<Row>): (opts: seq<string>)
    ensures |opts| >= 1 && opts[0] == AllBrands
    ensures StrictlySorted(opts[1..])
    ensures forall b :: b in opts[1..] <==> exists i :: 0 <= i < |rows| && rows[i].brand == b
  {
    var col := Brands(rows);
    var opts := [AllBrands] + SortedUnique(col);
    assert opts[1..] == SortedUnique(col);
    opts
  }

  /** Python's `int()` on a float: truncation toward zero. */
  function Truncate(x: real): (n: int)
    ensures 0.0 <= x ==> n as real <= x < n as real + 1.0
    ensures x < 0.0 ==> n as real - 1.0 < x <= n as real
  {
    if x >= 0.0 then x.Floor else -((-x).Floor)
  }

  /** Line 33: `int(df["price"].min()), int(df["price"].max())`, the slider's
      ends and its default range. `None` when no row has a price: `min()` is
      then NaN and `int()` raises. */
  function PriceSliderBounds(rows: seq<Row>): (b: Option<(int, int)>)
    ensures b.None? <==> forall i :: 0 <= i < |rows| ==> rows[i].price.None?
    ensures b.Some? ==> b.value.0 <= b.value.1
    ensures b.Some? ==> exists i :: (
      && 0 <= i < |rows| && rows[i].price.Some?
      && b.value.0 == Truncate(rows[i].price.value)
      && forall j :: 0 <= j < |rows| && rows[j].price.Some? ==> rows[i].price.value <= rows[j].price.value)
    ensures b.Some? ==> exists i :: (
      && 0 <= i < |rows| && rows[i].price.Some?
      && b.value.1 == Truncate(rows[i].price.value)
      && forall j :: 0 <= j < |rows| && rows[j].price.Some? ==> rows[j].price.value <= rows[i].price.value)
  {
    var ps := Present(Prices(rows));
    if |ps| == 0 then None
    else
      var lo, hi := Smallest(ps), Largest(ps);
      assert Some(lo) in Prices(rows) && Some(hi) in Prices(rows);
      Some((Truncate(lo), Truncate(hi)))
  }

  /** The price range the slider would need to start out covering every
      priced row: the smallest price rounded down, the largest rounded up. */
  function CoveringPriceBounds(rows: seq<Row>): (b: Option<(int, int)>)
    ensures b.None? <==> forall i :: 0 <= i < |rows| ==> rows[i].price.None?
    ensures b.Some? ==> forall i :: 0 <= i < |rows| && rows[i].price.Some? ==>
      b.value.0 as real <= rows[i].price.value <= b.value.1 as real
  {
    var ps := Present(Prices(rows));
    if |ps| == 0 then None
    else
      var lo, hi := Smallest(ps), Largest(ps);
      assert forall i :: 0 <= i < |rows| && rows[i].price.Some? ==> rows[i].price.value in ps by {
        forall i | 0 <= i < |rows| && rows[i].price.Some?
          ensures rows[i].price.value in ps
        {
          assert Prices(rows)[i] == rows[i].price;
        }
      }
      Some((lo.Floor, -((-hi).Floor)))
  }

  /** The values of the three sidebar controls. */
  datatype Selection = Selection(brand: string, lo: real, hi: real, minRating: real)

  /** `df["price"].between(lo, hi)`: inclusive at both ends, false on NaN. */
  predicate Between(v: Option<real>, lo: real, hi: real)
  {
    v.Some? && lo <= v.value <= hi
  }

  /** `df["avg_rating"] >= floor`: false on NaN. */
  predicate AtLeast(v: Option<real>, floor: real)
  {
    v.Some? && v.value >= floor
  }

  predicate BrandChosen(sel: Selection, row: Row)
  {
    row.brand == sel.brand || sel.brand == AllBrands
  }

  /** The mask of lines 38-40 at one row. */
  predicate Matches(sel: Selection, row: Row)
  {
    BrandChosen(sel, row) && Between(row.price, sel.lo, sel.hi) && AtLeast(row.rating, sel.minRating)
  }

  function Matcher(sel: Selection): Row -> bool
  {
    (row: Row) => Matches(sel, row)
  }

  /** Lines 37-41: `filtered_df`. */
  function Filter(rows: seq<Row>, sel: Selection): (shown: seq<Row>)
    ensures |shown| <= |rows|
    ensures forall x :: x in shown ==>
      && x in rows
      && (x.brand == sel.brand || sel.brand == AllBrands)
      && x.price.Some? && sel.lo <= x.price.value <= sel.hi
      && x.rating.Some? && x.rating.value >= sel.minRating
    ensures forall i :: (
      && 0 <= i < |rows|
      && (rows[i].brand == sel.brand || sel.brand == AllBrands)
      && rows[i].price.Some? && sel.lo <= rows[i].price.value <= sel.hi
      && rows[i].rating.Some? && rows[i].rating.value >= sel.minRating
      ==> rows[i] in shown)
  {
    Select(rows, Matcher(sel))
  }

  /** The view keeps the catalog's order: it is the catalog indexed by exactly
      the positions of the matching rows, in ascending order. */
  lemma FilterIsMaskIndexing(rows: seq<Row>, sel: Selection)
    ensures var ix := TrueIndices(MaskOf(rows, Matcher(sel)));
      && Embeds(ix, Filter(rows, sel), rows)
      && forall i :: 0 <= i < |rows| ==> (Matches(sel, rows[i]) <==> i in ix)
  {
    SelectByIndices(rows, Matcher(sel));
  }

  /** Any in-order pick of exactly the matching rows is the view. */
  lemma FilterIsUnique(rows: seq<Row>, sel: Selection, ix: seq<nat>, r: seq<Row>)
    requires Embeds(ix, r, rows)
    requires forall i :: 0 <= i < |rows| ==> (Matches(sel, rows[i]) <==> i in ix)
    ensures r == Filter(rows, sel)
  {
    SelectUnique(rows, Matcher(sel), ix, r);
  }

  /** Filtering the view again with the same controls gives the same view. */
  lemma FilterIdempotent(rows: seq<Row>, sel: Selection)
    ensures Filter(Filter(rows, sel), sel) == Filter(rows, sel)
  {
    SelectIdempotent(rows, Matcher(sel));
  }

  /** The price and rating conditions alone. */
  function RangeMatcher(sel: Selection): Row -> bool
  {
    (row: Row) => Between(row.price, sel.lo, sel.hi) && AtLeast(row.rating, sel.minRating)
  }

  /** With "All" selected the brand condition is vacuous. */
  lemma AllBrandsIgnoresBrand(rows: seq<Row>, sel: Selection)
    requires sel.brand == AllBrands
    ensures Filter(rows, sel) == Select(rows, RangeMatcher(sel))
  {
    SelectExtensional(rows, Matcher(sel), RangeMatcher(sel));
  }

  /** The conjunction may be evaluated in any order: choosing a brand narrows
      the "All" view to that brand's rows. */
  lemma BrandNarrowsAllView(rows: seq<Row>, sel: Selection)
    requires sel.brand != AllBrands
    ensures Filter(rows, sel) == Select(Filter(rows, sel.(brand := AllBrands)), BrandIs(sel.brand))
  {
    SelectTwice(rows, Matcher(sel.(brand := AllBrands)), BrandIs(sel.brand), Matcher(sel));
  }

  /** `sel'` admits every row `sel` admits. */
  predicate Wider(sel: Selection, sel': Selection)
  {
    && (sel'.brand == sel.brand || sel'.brand == AllBrands)
    && sel'.lo <= sel.lo && sel.hi <= sel'.hi
    && sel'.minRating <= sel.minRating
  }

  /** Widening the controls can only add rows to the view, in catalog order. */
  lemma FilterMonotone(rows: seq<Row>, sel: Selection, sel': Selection)
    requires Wider(sel, sel')
    ensures IsSubsequence(Filter(rows, sel), Filter(rows, sel'))
  {
    SelectMonotone(rows, Matcher(sel), Matcher(sel'));
  }

  /** Four products: brand A at 1000 rated 4.0 and at 1500 rated 4.8, brand B
      at 2000 rated 3.0, brand C at 5000 rated 4.0. Brand A, prices 0 to 1200
      and a floor of 3.0 show exactly the first. */
  lemma FourProductScenario()
    ensures var rows := [
        Row("p1", "A", Some(1000.0), Some(4.0)), Row("p2", "A", Some(1500.0), Some(4.8)),
        Row("p3", "B", Some(2000.0), Some(3.0)), Row("p4", "C", Some(5000.0), Some(4.0))];
      Filter(rows, Selection("A", 0.0, 1200.0, 3.0)) == [rows[0]]
  {
    var rows := [
      Row("p1", "A", Some(1000.0), Some(4.0)), Row("p2", "A", Some(1500.0), Some(4.8)),
      Row("p3", "B", Some(2000.0), Some(3.0)), Row("p4", "C", Some(5000.0), Some(4.0))];
    FilterIsUnique(rows, Selection("A", 0.0, 1200.0, 3.0), [0], [rows[0]]);
  }

  /** An inverted price range shows nothing. */
  lemma InvertedRangeShowsNothing(rows: seq<Row>, sel: Selection)
    requires sel.hi < sel.lo
    ensures Filter(rows, sel) == []
  {
    SelectNone(rows, Matcher(sel));
  }

  /** With the covering price range and "All", the view is every row with a
      price whose rating reaches the floor. */
  lemma CoveringRangeShowsEveryPricedRow(rows: seq<Row>, sel: Selection)
    requires CoveringPriceBounds(rows).Some?
    requires sel.brand == AllBrands
    requires sel.lo == CoveringPriceBounds(rows).value.0 as real
    requires sel.hi == CoveringPriceBounds(rows).value.1 as real
    ensures forall i :: 0 <= i < |rows| ==>
      (rows[i] in Filter(rows, sel) <==> rows[i].price.Some? && AtLeast(rows[i].rating, sel.minRating))
  {
  }

  /** The slider's range as written can hide the dearest product: with
      products at 500.0 and 999.5 the slider spans [500, 999], so no selection
      it offers shows the 999.5 product, whatever its rating. */
  lemma TruncatedRangeHidesDearestRow(sel: Selection)
    requires sel.hi <= 999.0
    ensures var rows := [
        Row("Top", "Anouk", Some(500.0), Some(4.0)), Row("Kurta", "Anouk", Some(999.5), Some(4.5))];
      && PriceSliderBounds(rows) == Some((500, 999))
      && rows[1] !in Filter(rows, sel)
  {
    var rows := [
      Row("Top", "Anouk", Some(500.0), Some(4.0)), Row("Kurta", "Anouk", Some(999.5), Some(4.5))];
    var ps := Prices(rows);
    assert ps == [Some(500.0), Some(999.5)];
    assert ps[..1] == [Some(500.0)] && ps[..1][..0] == [];
    assert Present(ps) == [500.0, 999.5];
  }
}
