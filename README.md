# Google Play Store analytics dashboard — a verified model

The dashboard reads the Google Play Store table, cleans it, lets the user
narrow it with sidebar widgets, and shows figures about what is left. This
project models the computing core of that script.

- **Loading and cleaning.** Duplicate rows are dropped, the first copy kept.
  Installs lose every `+` and `,` and are converted to numbers. Price loses
  every `$` and is converted. Reviews are converted as they are. Type becomes
  `Paid` exactly when the price is above 0. Size loses every `M` and `k`
  without any unit conversion. Rows with no Installs, Rating or Price are
  dropped.
- **Filtering.** The filter block narrows a copy of the table:
  - by category, unless the choice is `Todas`;
  - by type, unless the choice is `Todos`;
  - by the price, rating and installs sliders, whose ends are included.
- **Summaries.** The figures shown are:
  - the number of apps;
  - total installs;
  - the number of paid apps;
  - the most popular category;
  - the most expensive app;
  - the best rated app.

Cells are values of `Option<real>`, where `None` is pandas' null (NaN), so
every comparison with it is false. Numbers are exact reals. Text-to-number
conversion (`pd.to_numeric(..., errors='coerce')`) is `Numeric.ToNumeric`:
- an optional leading sign;
- decimal digits with at most one decimal point and at least one digit;
- anything else gives `None`.

Modules:
- `Wrappers` holds `Option`.
- `Seqs` holds order-preserving filtering and deduplication over sequences,
  each with the loop that computes it.
- `Numeric` holds character removal and number conversion.
- `Cleaning` holds the loader.
- `Filters` holds the filter block.
- `Summaries` holds the figures.

Deduplication compares whole raw rows before any cleaning. Two raw rows that
differ only in a column the loader later overwrites (Type) therefore both
survive, and they become equal cleaned rows. `Cleaning.DuplicatesAfterCleaning`
shows this: the cleaned table may repeat a row. The code removes EVERY `+`,
`,` and `$`, not only a trailing `+` or a leading `$`; the model follows the
code.

## Model

| member | source | states |
|---|---|---|
| Seqs.DropDuplicates | dashboard_google_play.py:21 | computes `Dedup`: the first copy of each row, in the original order |
| Seqs.Dedup | dashboard_google_play.py:21 | the result has no repeats, is no longer than the input, and holds exactly the input's rows |
| Seqs.DedupIsSubsequence | dashboard_google_play.py:21 | deduplication keeps the rows in their original order |
| Seqs.DedupIdempotent | dashboard_google_play.py:21 | deduplicating twice is the same as deduplicating once |
| Seqs.DedupPrefix | dashboard_google_play.py:21 | the rows kept from a prefix of the table come first among those kept from the whole table |
| Seqs.Select | dashboard_google_play.py:49 | keeping the rows of a mask computes `Filter` |
| Seqs.Filter | dashboard_google_play.py:49 | every kept row is from the input and satisfies the mask; every input row satisfying the mask is kept |
| Seqs.FilterIsSubsequence | dashboard_google_play.py:49 | boolean indexing keeps the rows in table order |
| Numeric.RemoveCharMembers | dashboard_google_play.py:26 | after `str.replace(c, '')` the text holds exactly its characters other than `c` |
| Numeric.RemoveCharCommute | dashboard_google_play.py:26-27 | the order of the `+` and `,` replacements does not matter |
| Numeric.ToNumericShape | dashboard_google_play.py:28 | text that converts is nonempty and all numerals, and is negative only when it starts with `-` |
| Numeric.NonNumeralIsNull | dashboard_google_play.py:28 | text containing a letter or space coerces to null |
| Numeric.DigitsConvert | dashboard_google_play.py:28 | a run of digits converts to its decimal value |
| Numeric.DecimalConverts | dashboard_google_play.py:33 | `<digits>.<digits>` converts to the decimal it denotes |
| Numeric.NatToStringRoundTrip | dashboard_google_play.py:25-28 | converting the text of a natural number gives that number back |
| Cleaning.LoadAndTransform | dashboard_google_play.py:17-56 | the loader computes `Transform`: deduplicate, convert every column, drop incomplete rows |
| Cleaning.ConvertColumns | dashboard_google_play.py:24-46 | every row is converted, one cleaned row per row read, in the same order |
| Cleaning.TransformRowsValid | dashboard_google_play.py:39-49 | every row of the table has Installs, Rating and Price, and is Paid exactly when its price is above 0 |
| Cleaning.TransformMembership | dashboard_google_play.py:21-49 | a row is in the table iff it is the cleaned form of some row read and has Installs, Rating and Price |
| Cleaning.SizeNeverDrops | dashboard_google_play.py:42-49 | a row with Installs, Rating and Price is kept whatever its Size |
| Cleaning.TransformKeepsOrder | dashboard_google_play.py:17-56 | the table lists its rows in the order they were read |
| Cleaning.IdenticalRowsCollapse | dashboard_google_play.py:21 | two identical rows read give one row, or none when it is incomplete |
| Cleaning.DuplicatesAfterCleaning | dashboard_google_play.py:21-39 | raw rows differing only in Type both survive and become equal cleaned rows |
| Cleaning.FreeAppRow | dashboard_google_play.py:24-49 | a row with Installs "10,000+" and Price "$0" is kept with 10000 installs, price 0 and type Free |
| Cleaning.InstallsDecorated | dashboard_google_play.py:25-28 | text of digits, `,` and `+` converts to the value of its digits |
| Cleaning.InstallsOfText | dashboard_google_play.py:25-28 | Installs text with a letter converts to null |
| Cleaning.InstallsExample | dashboard_google_play.py:25-28 | "10,000+" converts to 10000 |
| Cleaning.InstallsTextExample | dashboard_google_play.py:25-28 | "Free" in the Installs column converts to null |
| Cleaning.PriceDollarDecimal | dashboard_google_play.py:31-33 | "$" followed by a decimal converts to that decimal |
| Cleaning.PriceOfText | dashboard_google_play.py:31-33 | Price text with a letter converts to null |
| Cleaning.PriceExample | dashboard_google_play.py:31-39 | "$4.99" converts to 4.99 and is Paid |
| Cleaning.FreePriceExample | dashboard_google_play.py:31-39 | "0" converts to 0 and is Free |
| Cleaning.DollarZeroExample | dashboard_google_play.py:31-33 | "$0" converts to 0 |
| Cleaning.PriceTextExample | dashboard_google_play.py:31-39 | "Everyone" in the Price column is null, and a null price is Free |
| Cleaning.SizeIgnoresUnit | dashboard_google_play.py:43-46 | a trailing `M` or `k` does not change the Size value |
| Cleaning.SizeOfDigits | dashboard_google_play.py:43-46 | digits followed by `M` or `k` convert to the digits' value, with no unit scaling |
| Cleaning.SizeOfText | dashboard_google_play.py:43-46 | Size text with another letter converts to null |
| Cleaning.SizeMegabytesExample | dashboard_google_play.py:43-46 | "19M" converts to 19 |
| Cleaning.SizeKilobytesExample | dashboard_google_play.py:43-46 | "512k" converts to 512, not to a number of bytes or megabytes |
| Cleaning.SizeTextExample | dashboard_google_play.py:43-46 | "Varies with device" converts to null |
| Filters.ApplyFilters | dashboard_google_play.py:108-123 | the result is the table's rows that match every chosen constraint, in table order, and only those |
| Filters.CategoryStep | dashboard_google_play.py:110-111 | the category step keeps every row for `Todas`, otherwise the rows of that category |
| Filters.TypeStep | dashboard_google_play.py:113-114 | the type step keeps every row for `Todos`, otherwise the rows of that type |
| Filters.StepsAreConjunction | dashboard_google_play.py:108-123 | applying the three steps in turn is filtering by their conjunction |
| Filters.FilterIdempotent | dashboard_google_play.py:108-123 | filtering an already filtered table by the same choices changes nothing |
| Filters.SelectionsCompose | dashboard_google_play.py:108-123 | two selections in either order keep the same rows: those matching both |
| Filters.FreeAppScenario | dashboard_google_play.py:17-123 | a free app with 10,000+ installs is shown when the installs range holds 10000, and hidden otherwise |
| Summaries.TotalInstallsAppend | dashboard_google_play.py:140 | the installs total of two tables together is the sum of their totals |
| Summaries.TotalInstallsSplit | dashboard_google_play.py:140 | the totals of the rows a mask keeps and the rows it drops add up to the whole total |
| Summaries.TotalInstallsWithin | dashboard_google_play.py:140 | if every row's installs lie in [lo, hi], the total lies between lo and hi times the row count |
| Summaries.FilteredTotalInstalls | dashboard_google_play.py:116-140 | the total shown is bounded by the installs slider's ends times the number of apps shown |
| Summaries.PaidCount | dashboard_google_play.py:144 | the number of paid apps is at most the number of apps |
| Summaries.PaidPlusFree | dashboard_google_play.py:144 | paid apps plus free apps are all apps |
| Summaries.PaidCountIsPositivePrices | dashboard_google_play.py:39-144 | in the cleaned table the paid apps are exactly those with a positive price |
| Summaries.MaxOf | dashboard_google_play.py:271 | the maximum is null iff every cell is null; otherwise some cell attains it and none exceeds it |
| Summaries.FirstWith | dashboard_google_play.py:273 | `iloc[0]` of the rows equal to a value: that row holds the value and no earlier row does |
| Summaries.TopRow | dashboard_google_play.py:271-281 | the first row of greatest value in the column; None iff the column has no value |
| Summaries.MostExpensive | dashboard_google_play.py:271-275 | a shown row whose price no other row exceeds; None iff no row has a price |
| Summaries.BestRated | dashboard_google_play.py:279-283 | a shown row whose rating no other row exceeds; None iff no row has a rating |
| Summaries.CategoryCountIsMask | dashboard_google_play.py:267 | the count of a category is the number of rows the mask `Category == c` keeps |
| Summaries.MostFrequentAmong | dashboard_google_play.py:267 | a category of the rows seen, occurring at least as often as every other category seen |
| Summaries.TopCategory | dashboard_google_play.py:262-267 | None iff there are no rows, otherwise a category present whose count no other category exceeds |

## Left out

- Streamlit page layout, sidebar widgets, metrics formatting and every Plotly chart are user interface, not computation.
- Reading the CSV file, the `st.cache_data` cache and the `print` calls of the loader are I/O. The model starts from the rows read.
- The slider bounds and defaults (lines 79-105) come from the table and the user; a `Selection` is a parameter.
- The mean rating (lines 136, 296) would need a model of float64 division and NaN. Numbers here are exact reals, so rounding is not modelled.
- The charts' `value_counts().head(10)`, `nlargest(10, ...)` and `head(20)` only feed charts and the table view.
- Summaries.TopCategory: which category wins on a tie in `value_counts()` is left open. The contract states only that its count is greatest.
- `pd.to_numeric` also accepts surrounding whitespace, exponents, `inf`/`nan` spellings and some other forms. `Numeric.ToNumeric` accepts only a sign, digits and one decimal point; any other text becomes null.
- The loader converts the table one column at a time, each a whole-column assignment. The model converts each row once in a single pass. Every column depends only on its own row, so the resulting table is the same.
- The `'Size' in df.columns` guard (line 42): the model's rows always have a Size column.
- Columns other than those the core touches are carried as opaque text in `other`, and only take part in duplicate detection.
- The sidebar counts of free and paid apps (lines 53-54, 293-295) are `Summaries.PaidCount` and its `Free` counterpart, applied to the whole table.
