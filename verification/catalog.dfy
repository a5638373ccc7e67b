/** The product table and its one-time normalisation in `load_data`
    (app.py:19-25): drop rows missing any of name, brand, price or rating,
    then coerce price and rating to numbers, turning what does not parse
    into a missing value (NaN) without dropping the row. */
module Catalog {
  import opened Optional
  import opened Masks

  /** A cell of a numeric column as `read_csv` hands it over: empty, already
      a number, or text that still has to be parsed. */
  datatype Cell = Missing | Number(x: real) | Text(s: string)

  /** A product row before normalisation. */
  datatype RawRow = RawRow(name: Option<string>, brand: Option<string>, price: Cell, rating: Cell)

  /** A product row after normalisation; a `None` price or rating is NaN. */
  datatype Row = Row(name: string, brand: string, price: Option<real>, rating: Option<real>)

  /** `dropna(subset=["name", "brand", "price", "avg_rating"])` keeps a row
      exactly when all four cells are present. */
  predicate Complete(r: RawRow)
  {
    r.name.Some? && r.brand.Some? && !r.price.Missing? && !r.rating.Missing?
  }

  /** `pd.to_numeric(cell, errors="coerce")`; `parse` is the conversion of text
      to a number, `None` when the text is not numeric. */
  function ToNumeric(c: Cell, parse: string -> Option<real>): Option<real>
  {
    match c
    case Missing => None
    case Number(x) => Some(x)
    case Text(s) => parse(s)
  }

  function Coerce(r: RawRow, parse: string -> Option<real>): Row
    requires Complete(r)
  {
    Row(r.name.value, r.brand.value, ToNumeric(r.price, parse), ToNumeric(r.rating, parse))
  }

  /** Line 22: the rows that have all four required cells. */
  function DropIncomplete(raw: seq<RawRow>): (kept: seq<RawRow>)
    ensures forall r :: r in kept ==> r in raw && Complete(r)
    ensures forall i :: 0 <= i < |raw| && Complete(raw[i]) ==> raw[i] in kept
  {
    Select(raw, Complete)
  }

  /** Lines 23-24: coerce both numeric columns of every kept row. */
  function CoerceColumns(kept: seq<RawRow>, parse: string -> Option<real>): (rows: seq<Row>)
    requires forall r :: r in kept ==> Complete(r)
    ensures |rows| == |kept|
    ensures forall k :: 0 <= k < |kept| ==> rows[k] == Coerce(kept[k], parse)
  {
    seq(|kept|, k requires 0 <= k < |kept| => Coerce(kept[k], parse))
  }

  /** `load_data` on an in-memory table. */
  function Load(raw: seq<RawRow>, parse: string -> Option<real>): (rows: seq<Row>)
    ensures |rows| == |DropIncomplete(raw)| <= |raw|
  {
    CoerceColumns(DropIncomplete(raw), parse)
  }

  /** How a loaded row relates to the raw row it came from: name and brand are
      carried over, a number stays that number, and text becomes what it parses
      to, or missing when it does not parse. */
  ghost predicate LoadedFrom(row: Row, src: RawRow, parse: string -> Option<real>)
  {
    && src.name == Some(row.name)
    && src.brand == Some(row.brand)
    && NumericFrom(row.price, src.price, parse)
    && NumericFrom(row.rating, src.rating, parse)
  }

  ghost predicate NumericFrom(v: Option<real>, c: Cell, parse: string -> Option<real>)
  {
    match c
    case Missing => false
    case Number(x) => v == Some(x)
    case Text(s) => v == parse(s)
  }

  /** The loaded table has one row for each complete raw row, in the original
      order, and for no other raw row. */
  lemma LoadKeepsExactlyCompleteRows(raw: seq<RawRow>, parse: string -> Option<real>)
    ensures var rows, ix := Load(raw, parse), TrueIndices(MaskOf(raw, Complete));
      && |rows| == |ix|
      && Increasing(ix)
      && (forall i :: 0 <= i < |raw| ==> (Complete(raw[i]) <==> i in ix))
      && forall k :: 0 <= k < |ix| ==> ix[k] < |raw| && LoadedFrom(rows[k], raw[ix[k]], parse)
  {
    SelectByIndices(raw, Complete);
  }

  /** Coercion never drops a row: a complete raw row whose price text does not
      parse is still loaded, with a missing price. */
  lemma UnparseablePriceIsKeptAsMissing(raw: seq<RawRow>, parse: string -> Option<real>, i: nat)
    requires i < |raw| && Complete(raw[i])
    requires raw[i].price.Text? && parse(raw[i].price.s).None?
    ensures var rows := Load(raw, parse);
      exists k :: 0 <= k < |rows| && rows[k].price.None? && LoadedFrom(rows[k], raw[i], parse)
  {
    LoadKeepsExactlyCompleteRows(raw, parse);
    var ix := TrueIndices(MaskOf(raw, Complete));
    var k :| 0 <= k < |ix| && ix[k] == i;
    assert LoadedFrom(Load(raw, parse)[k], raw[i], parse);
  }

  /** `df["brand"]` */
  function Brands(rows: seq<Row>): (col: seq<string>)
    ensures |col| == |rows| && forall i :: 0 <= i < |rows| ==> col[i] == rows[i].brand
  {
    seq(|rows|, i requires 0 <= i < |rows| => rows[i].brand)
  }

  /** `df["price"]` */
  function Prices(rows: seq<Row>): (col: seq<Option<real>>)
    ensures |col| == |rows| && forall i :: 0 <= i < |rows| ==> col[i] == rows[i].price
  {
    seq(|rows|, i requires 0 <= i < |rows| => rows[i].price)
  }

  /** `df["avg_rating"]` */
  function Ratings(rows: seq<Row>): (col: seq<Option<real>>)
    ensures |col| == |rows| && forall i :: 0 <= i < |rows| ==> col[i] == rows[i].rating
  {
    seq(|rows|, i requires 0 <= i < |rows| => rows[i].rating)
  }

  /** The row-wise condition `df["brand"] == brand`. */
  function BrandIs(brand: string): Row -> bool
  {
    (row: Row) => row.brand == brand
  }
}
