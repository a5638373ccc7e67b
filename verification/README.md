# SmartStyle Analytics catalog pipeline, modelled in Dafny

SmartStyle Analytics is a Streamlit dashboard over a fashion product table
(`app.py`). Under the widgets sits a small data pipeline, and this project
models it:

- **Loading** (`load_data`). Rows missing a name, brand, price or average
  rating are dropped. Price and rating are then coerced to numbers. Text that
  does not parse becomes NaN, and its row stays in the table.
- **Sidebar view** (`filtered_df`). This is the catalog masked by a conjunction
  of three conditions: the brand equals the selected one or "All" is selected; the
  price lies in the inclusive slider range; the rating reaches the floor.
  The sidebar's brand choices and the price slider's ends come from the table.
- **Dashboard figures.** These are the product count, the mean price and the
  mean rating, plus the ten brands with the highest mean rating.

NaN is modelled as `Option.None` and pandas floats as exact `real`s. Every
operation is a pure function over immutable sequences, so the catalog is never
modified by a query. The same call on the same arguments always gives the same
answer.

Files: `optional.dfy` (missing values), `masks.dfy` (boolean-mask row
selection), `text.dfy` (Python string order, sorted distinct strings),
`stats.dfy` (NaN-skipping mean), `catalog.dfy` (rows and `load_data`),
`sidebar.dfy` (brand choices, price slider, filter), `metrics.dfy` (summary and
top brands).

Loading keeps a row whose price or rating fails coercion, with a missing
value. Loading never fails, even when the table ends up empty. Missing values
are not filled in. The brand ranking prescribes no tie order.

## Model

| member | source | states |
|---|---|---|
| Catalog.DropIncomplete | app.py:22 | a raw row survives exactly when name, brand, price and rating are all present |
| Catalog.Load | app.py:19-25 | the loaded table has as many rows as there are complete raw rows |
| Catalog.LoadKeepsExactlyCompleteRows | app.py:22-24 | loaded rows correspond one-to-one, in order, to the complete raw rows and to no others; name and brand carry over, numbers stay, text becomes its parse or missing |
| Catalog.UnparseablePriceIsKeptAsMissing | app.py:22-24 | a complete row whose price text does not parse is still loaded, with a missing price |
| Text.SortedUnique | app.py:31 | the result is strictly ascending in Python's string order and holds exactly the strings of the input |
| Sidebar.BrandOptions | app.py:31 | the choices are "All" followed by every brand of the table once each, in ascending order, and nothing else |
| Sidebar.Truncate | app.py:33 | the integer part toward zero, as int() of a float, for both signs |
| Sidebar.PriceSliderBounds | app.py:33 | there are no slider ends when no row has a price; otherwise the ends are the truncated smallest and largest prices, in order |
| Sidebar.Filter | app.py:37-41 | every shown row is a catalog row passing the brand, inclusive price-range and rating conditions, so rows with a missing price or rating never show; every catalog row passing them is shown |
| Sidebar.FilterIsMaskIndexing | app.py:37-41 | the view is the catalog at exactly the matching positions, in ascending order, so catalog order is kept |
| Sidebar.FilterIsUnique | app.py:37-41 | any in-order pick of exactly the matching rows equals the view |
| Sidebar.FilterIdempotent | app.py:37-41 | filtering the view again with the same controls returns the same view |
| Sidebar.AllBrandsIgnoresBrand | app.py:38 | with "All" selected the view depends only on the price and rating conditions |
| Sidebar.BrandNarrowsAllView | app.py:37-41 | selecting a brand equals taking the "All" view and keeping that brand's rows, so the order of the conditions does not matter |
| Sidebar.FilterMonotone | app.py:37-41 | widening the price range, lowering the floor or switching to "All" only adds rows, keeping catalog order |
| Sidebar.InvertedRangeShowsNothing | app.py:39 | a price range whose low end exceeds its high end shows no row |
| Sidebar.FourProductScenario | app.py:37-41 | a four-product catalog filtered to brand A, prices 0 to 1200 and floor 3.0 shows only the A product at 1000 |
| Sidebar.TruncatedRangeHidesDearestRow | app.py:33-41 | with products at 500.0 and 999.5 the slider spans [500, 999], and no selection whose top is at most 999 shows the 999.5 product |
| Sidebar.CoveringPriceBounds | app.py:33-34 | the corrected default range contains every present price |
| Sidebar.CoveringRangeShowsEveryPricedRow | app.py:33-41 | under the corrected default range and "All", a row is shown exactly when it has a price and its rating reaches the floor |
| Stats.Average | app.py:47-48 | the average times the number of values equals their sum, and it lies between the smallest and largest value |
| Stats.Mean | app.py:47-48 | the mean is missing exactly when no value is present; otherwise it is the average of the present values, which lies between the smallest and largest of them |
| Stats.MeanSkipsMissing | app.py:47-48 | a NaN entry does not change the mean |
| Stats.MeanOfConstant | app.py:52 | when every present rating of a group is c, the group mean is c (a corollary of the range bounds) |
| Metrics.Summarise | app.py:46-48 | the count is the number of rows; the two means are the NaN-skipping means of the price and rating columns, missing exactly when no row has that value and otherwise within the present values' range |
| Metrics.MissingValuesCountButAreNotAveraged | app.py:46-48 | a row with missing price and rating raises the count by one and leaves both means unchanged |
| Metrics.CountIncludesCoercedRows | app.py:22-24 | the product count equals the number of complete raw rows, including rows whose numbers failed to parse |
| Metrics.GroupMeans | app.py:52 | there is one entry per distinct brand of the table and no other; each entry's value is the mean of that brand's present ratings |
| Metrics.InsertByMean | app.py:52 | inserting into a list ranked by mean keeps it ranked and adds exactly that entry |
| Metrics.SortByMean | app.py:52 | the result is a permutation of the group means, ranked non-increasing with missing means last |
| Metrics.TopBrands | app.py:52 | at most ten entries, no brand twice, ranked non-increasing, each the true mean of its brand; a brand left off means the chart is full and the brand ranks at or below every charted one |

## Left out

- Page setup, widgets, layout, markdown, progress bars and the product gallery (app.py:11-15, 30, 32, 34-35, 44-45, 60-89) are presentation. The select box and slider values are the inputs of `Sidebar.Filter`.
- The HTTP fetch of the CSV and `@st.cache_data` (app.py:18-21) are I/O and caching. `Catalog.Load` takes the table as an in-memory sequence.
- The image download with `requests`/PIL and its `except` fallback (app.py:66-73) are network I/O and foreign libraries.
- The matplotlib chart (app.py:53-57) is rendering only.
- The `:.2f` formatting of the means (app.py:47-48) is display only.
- Catalog.Load: `pd.to_numeric`'s text-to-number grammar is the parameter `parse`, not a fixed grammar. Cells that `read_csv` already parsed as numbers are kept as they are.
- Catalog.Load: columns other than name, brand, price and rating pass through `load_data` untouched and are not part of the row.
- Floating-point rounding in sums and means is not modelled; `real` is exact.
- Metrics.SortByMean: pandas promises no order among equal means. The model's insertion sort picks one order, and no contract depends on it.
- Metrics.TopBrands: the length is stated as "at most ten, and full whenever a brand is left off", not as the number of distinct brands capped at ten.
- Streamlit's own checks on slider arguments (for example equal ends) are widget behaviour and are not modelled.
- Content similarity, cheaper alternatives, risk classification and confidence scores have no code in `app.py` and are not modelled.

## Findings

| source | as written | input that shows it | evidently intended | confidence | as-written member | corrected member |
|---|---|---|---|---|---|---|
| app.py:33-34 | The price slider's ends and default range are `int()` of the smallest and largest price. This truncates a fractional maximum downward. | Two products priced 500.0 and 999.5: the slider spans [500, 999], so no price range it offers shows the 999.5 product, whatever its rating. | The slider starts out covering every priced product, so its upper end should round up. | medium; not executed | Sidebar.TruncatedRangeHidesDearestRow | Sidebar.CoveringPriceBounds |
