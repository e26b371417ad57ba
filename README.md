# Compliance alert extraction — a Dafny model of its core

The extractor `python/extract_compliance_data.py` does four things:

- It pages through a compliance API for the ids of open alerts.
- It fetches each alert's detail.
- It flattens every payload into a fixed set of CSV columns.
- It prints a short exploratory summary: counts, distributions and the 95th percentile of the monetary exposure.

This project models that core's pure logic and its pagination loop, and proves what they promise:

- `PyValue` models the loosely typed JSON values a payload carries: None, bool, int, float, str, list and dict.
  - Python floats are taken as exact reals.
  - Python's hash equality, where `True == 1 == 1.0`, is modelled by a canonical dictionary `Key`.
- `Decimal` models the three conversions the core relies on.
  - `str()` of an int.
  - `str()` of a two-decimal float, as `round(x, 2)` leaves it: the integer part, a point, and one or two decimals.
  - `float()` of a string: surrounding whitespace, an optional sign, digits with an optional point, and an optional exponent.
  - The parser reads into an exact `DecimalNumber` (a mantissa times a power of ten) and only then into a real.
- `Normalize` models these source definitions:
  - `OUT_COLUMNS`;
  - `to_number`;
  - `normalize_alert`, which copies thirteen columns, takes the owner's name from a dict-valued `assigned_to`, and converts the exposure to a number.
- `Counter` models `dict(Counter(...))`: one bucket per distinct key, in first-occurrence order.
- `Percentile` models `percentile`: sort, then linearly interpolate at rank `(n-1)·p/100`.
- `Summary` models `eda_summary`.
  - The three distributions raise `TypeError` when a row holds an unhashable value.
  - It computes the owner and resolution counts and the exposure p95.
- `SimulatedApi` models `SimulatedComplianceAPI.list_alert_ids`.
  - The ids are `ALRT-<draw>-<index>`.
  - The random draws are a parameter.
- `Pagination` models lines 316-328 of `run`.
  - `Paginate` is the loop as a recursive specification.
  - `CollectAlertIds` is the loop itself, proved equal to `AlertIds`.
  - Lemmas read the loop page by page.
  - `SimulatedRun` proves this: against the simulator, collection succeeds exactly when `limit >= 100` and `page_size >= 1`, and then yields `limit` distinct ids, numbered in order.

## Model

| member | source | states |
|---|---|---|
| Decimal.IntToString | python/extract_compliance_data.py:102 | str(int) is non-empty and begins with '-' exactly for negative ints |
| Decimal.NatToString | python/extract_compliance_data.py:102 | the decimal text of a natural is all digits, reads back as that natural, and has no leading zero |
| Decimal.IntToStringInjective | python/extract_compliance_data.py:102 | different ints are written as different texts |
| Decimal.ParseSignedOfIntToString | python/extract_compliance_data.py:204 | the text of an int parses to that int times ten to the zero |
| Decimal.ParseFloatOfIntToString | python/extract_compliance_data.py:204 | float(str(n)) == n for every int n |
| Decimal.ParseFloat | python/extract_compliance_data.py:203-206 | float() of a str in the decimal grammar converts only text that holds a digit, so "", "N/A", "-" and "." take the except branch and give None |
| Decimal.ParseFloatOfDigits | python/extract_compliance_data.py:204 | float() of a non-empty run of digits is the number those digits spell |
| Decimal.CentsText | python/extract_compliance_data.py:137 | str() of a two-decimal float begins and ends with a digit, and ends in 0 only as "<int>.0" |
| Decimal.Decimals | python/extract_compliance_data.py:128 | the decimals of round(x, 2) are one or two digits, with a trailing zero only when it is the only decimal |
| Decimal.CentsValue | python/extract_compliance_data.py:128 | the decimal number read from the text of m hundredths is worth m/100 |
| Decimal.CentsParse | python/extract_compliance_data.py:204 | float() reads the text of m hundredths as that decimal number |
| Decimal.ParseFloatOfCents | python/extract_compliance_data.py:204 | float(str(x)) == x for every two-decimal x = m/100, the value round(x, 2) leaves |
| Normalize.ToNumber | python/extract_compliance_data.py:198-206 | None gives None; int, float and bool give their value as a float; str goes through float(); list and dict fail to convert and give None |
| Normalize.FromNumber | python/extract_compliance_data.py:226 | the converted exposure is None or a float |
| Normalize.AssigneeName | python/extract_compliance_data.py:210-213 | the owner's name is read only when assigned_to is a dict, and is otherwise None |
| Normalize.NormalizeAlert | python/extract_compliance_data.py:208-230 | the row has exactly the OUT_COLUMNS keys; copied columns equal payload.get; assigned_to_name is the owner name; monetary_exposure is to_number of the payload's |
| Normalize.OutColumnsDistinct | python/extract_compliance_data.py:191-196 | OUT_COLUMNS lists 15 pairwise distinct names |
| Normalize.ToNumberIdempotent | python/extract_compliance_data.py:198-206 | converting an already converted value changes nothing |
| Normalize.ToNumberOfStringifiedInt | python/extract_compliance_data.py:204 | an exposure holding the str() of an int converts to that int as a float, the same number the int itself converts to |
| Normalize.ToNumberOfNonNumericString | python/extract_compliance_data.py:203-206 | in the decimal float() grammar, a string exposure without a digit normalises to None |
| Normalize.NormalizeStringifiedExposure | python/extract_compliance_data.py:136-137 | an exposure the simulator replaced by str(round(x, 2)) normalises back to the float m/100 it came from |
| Counter.Bump | python/extract_compliance_data.py:248 | counting one more key raises only its count by one and appends it only if new; distinct keys and positive counts are kept |
| Counter.Tally | python/extract_compliance_data.py:248-250 | each key's count is its multiplicity in the input; counts are positive, keys distinct, and the total is the input length |
| Percentile.Min | python/extract_compliance_data.py:237-245 | the least element of a non-empty list, which belongs to it |
| Percentile.Max | python/extract_compliance_data.py:237-245 | the greatest element of a non-empty list, which belongs to it |
| Percentile.Insert | python/extract_compliance_data.py:240 | inserting into a sorted list keeps it sorted and adds exactly one occurrence |
| Percentile.Sort | python/extract_compliance_data.py:240 | sorted(values) is sorted and a permutation of values |
| Percentile.Ceil | python/extract_compliance_data.py:242 | math.ceil is the least integer not below k, and equals floor exactly at whole k |
| Percentile.RankIndices | python/extract_compliance_data.py:241-243 | the indices are math.floor and math.ceil of the rank (n-1)·p/100: valid, at most one apart, bracketing the rank, and equal exactly at a whole rank |
| Percentile.Interpolate | python/extract_compliance_data.py:245 | the interpolated value lies between the two neighbours |
| Percentile.Percentile | python/extract_compliance_data.py:237-245 | empty gives 0.0; otherwise the result lies between the sorted neighbours at floor and ceil of the rank, hence between the minimum and the maximum, and is the sorted element at a whole rank |
| Percentile.SortedBounds | python/extract_compliance_data.py:240 | every element of a sorted list lies between its ends |
| Percentile.SortedEnds | python/extract_compliance_data.py:240 | the ends of sorted(values) are the minimum and the maximum |
| Percentile.SortedWithin | python/extract_compliance_data.py:240 | every sorted element lies between the minimum and the maximum |
| Percentile.PercentileAtWholeRank | python/extract_compliance_data.py:243-244 | at a whole rank f the percentile is the f-th sorted value |
| Percentile.PercentileAtZero | python/extract_compliance_data.py:237-245 | the 0th percentile is the minimum |
| Percentile.PercentileAtHundred | python/extract_compliance_data.py:237-245 | the 100th percentile is the maximum |
| PyValue.Get | python/extract_compliance_data.py:211 | dict.get gives None for a missing key |
| PyValue.Truthy | python/extract_compliance_data.py:251-252 | None is falsy; a bool, int or float is truthy exactly when it does not equal 0; a str, list or dict exactly when it is non-empty, so an owner named "" counts as missing and an empty resolution_date as unresolved |
| PyValue.HashKey | python/extract_compliance_data.py:248-250 | exactly lists and dicts are unhashable |
| Summary.FieldKeys | python/extract_compliance_data.py:248 | one key per row, and absent exactly when some row's field is unhashable |
| Summary.FieldKeysCount | python/extract_compliance_data.py:248 | each key occurs among the row keys as often as rows carry it |
| Summary.Distribution | python/extract_compliance_data.py:248-250 | fails exactly on an unhashable row; otherwise each key counts exactly the rows carrying it, keys are distinct, counts positive, and the total is the row count |
| Summary.CountWhere | python/extract_compliance_data.py:251-252 | a truthiness count never exceeds the number of rows |
| Summary.CountWhereSplit | python/extract_compliance_data.py:251-252 | the truthy and falsy counts partition the rows |
| Summary.Exposures | python/extract_compliance_data.py:253 | at most one numeric exposure per row |
| Summary.EdaSummary | python/extract_compliance_data.py:247-264 | fails exactly when a status, type or impact is unhashable, reporting status first and then type, as lines 248-250 raise in that order; the total is the row count; the owner count is the rows with a truthy assigned_to_name, and present plus missing is the total; unresolved plus resolved is the total; each distribution is the `Distribution` of its field, so it holds exactly the keys some row carries, each once with the number of rows carrying it; p95 is 0.0 without exposures and lies within their range otherwise |
| SimulatedApi.ListAlertIds | python/extract_compliance_data.py:99-103 | total is max(limit+offset, 200); the page holds max(limit, 0) ids, the j-th being ALRT-<j-th draw>-<offset+j>; count is the page length |
| SimulatedApi.AlertId | python/extract_compliance_data.py:102 | the id is "ALRT-", the draw, "-" and the index, its length the sum of theirs, ending with the index's text |
| SimulatedApi.AlertIdSuffix | python/extract_compliance_data.py:102 | an id with a five-digit draw starts "ALRT-", has "-" at position 10, and holds the text of its index from position 11 on |
| SimulatedApi.AlertIdsDiffer | python/extract_compliance_data.py:102 | equal ids with five-digit draws have equal indices |
| SimulatedApi.PageIdsDistinct | python/extract_compliance_data.py:99-103 | one page's ids are pairwise distinct |
| Pagination.Paginate | python/extract_compliance_data.py:317-325 | the gathered ids only grow, and a result short of limit means the page at some offset offset + i·page_size came back empty |
| Pagination.SliceTo | python/extract_compliance_data.py:326 | collected[:limit] is a prefix of the stated length, with a negative limit dropping from the end |
| Pagination.SelectAlertIds | python/extract_compliance_data.py:326-328 | succeeds exactly when the slice has at least 100 ids, and otherwise reports how many there were |
| Pagination.AlertIds | python/extract_compliance_data.py:316-328 | a successful collection holds between 100 and limit ids |
| Pagination.CollectAlertIds | python/extract_compliance_data.py:316-328 | the loop computes exactly AlertIds, so it holds between 100 and limit ids on success |
| Pagination.PaginateAcross | python/extract_compliance_data.py:319-324 | after m non-empty pages below the limit, the loop sits at offset m·page_size holding the concatenation of those pages |
| Pagination.PaginationStopsAt | python/extract_compliance_data.py:319-324 | once n pages are gathered, the loop returns them when they reach limit or page n is empty, and fails when page n fails |
| Pagination.SimulatedSource | python/extract_compliance_data.py:158-165 | list_ids against the simulator never fails and returns page_size ids (none for page_size <= 0) at every offset |
| Pagination.SimulatedPaginate | python/extract_compliance_data.py:158-165 | against the simulator the loop never fails, reaches limit, and keeps every id numbered by its position |
| Pagination.NumberedDistinct | python/extract_compliance_data.py:102 | ids numbered by position are pairwise distinct |
| Pagination.SimulatedRun | python/extract_compliance_data.py:316-328 | against the simulator, collection succeeds iff limit >= 100 and page_size >= 1, and then yields limit distinct ids in order |

## Left out

- HttpClient, retries with backoff, the rate-limit sleep, `get_detail` and `get_alert_detail` are left out. They are I/O, clocks and randomness. The page source of the pagination loop is a parameter `fetch` from offset to page or error.
- The random draws of `list_alert_ids` are a parameter `draws`: the j-th `randint` of the re-seeded generator. Python's `hash` and `random` are not modelled. `ValidDraws` assumes the draws lie in 10000..99999, as `randint(10_000, 99_999)` promises.
- The per-id detail loop (lines 331-341), the CSV writing, `print_summary`, `self_test`, the command line and the timestamps are left out. They are I/O and presentation.
- The flattening map at line 344 is left out. It is `NormalizeAlert` applied to each detail.
- Summary.EdaSummary: does not model `monetary_exposure_mean`. It is `round(sum / len, 2)` over floating point, and this model takes floats as exact reals.
- Floating-point rounding is not modelled. Exposures and percentiles are exact reals.
- Decimal.ParseFloat: accepts the decimal subset of Python's `float()`, so its guarantee that a converted text holds a digit does not hold of Python. That subset is ASCII whitespace, a sign, digits with a point, and an exponent. It does not read `inf`, `nan`, underscores or non-ASCII digits and spaces; it returns None for them.
- Normalize.ToNumberOfNonNumericString: holds for the decimal grammar only. Python's `float()` reads "nan", "inf" and "infinity" (any case, signed, padded) with no digit, so such an exposure becomes nan or inf, not None.
- Normalize.ToNumber: does not model the `OverflowError` that `float(value)` raises on an int beyond the double range. That call (line 202) sits outside the `try`, so such an exposure aborts `normalize_alert` and the run; the model returns the int as an exact real.
- Decimal.CentsText: is `str()` of a two-decimal float only below 10^13, where m/100 has at most 15 significant digits and Python prints it as written. Larger values can print rounded or in exponent notation. The simulator's exposures stay below 50 000.
- Summary.Distribution: the key a bucket is shown under is the canonical `Key`. The model does not record which of the equal objects Python keeps as the representative (`True` versus `1`).
- Percentile.Percentile: requires `0 <= p <= 100`. The only caller passes 95. Outside that range Python would index from the end or raise.
- Counter.Tally: its contract does not state the first-occurrence order of the buckets. `Counter.Bump` states the order one key at a time.
- Payloads are JSON objects (`Row`). A non-dict detail is not modelled, and nor is a `data` field that is not a list.

## Findings

None. The cap `min(offset + limit, total)` at line 102 never binds, because `total >= limit + offset`. `SimulatedApi.ListAlertIds` states this bound. It is redundant rather than wrong.
