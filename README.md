# Live classroom dashboard core, modelled in Dafny

The dashboard (`app.py`) collects one number per participant, stores it in an
SQLite table `entries`, and shows a histogram or boxplot, a sidebar with the
latest values and a card of descriptive statistics. This project models the
part with rules that can be stated exactly:

- **`EntryStore`** (`store.dfy`): the `entries` table. `EntryTable` is a class
  with the rows (in ascending id order) and `nextId`, the AUTOINCREMENT
  counter. `Add`, `Clear` and `Read` are methods with frame conditions.
  Every store function takes `DB_LOCK`, so each operation is one atomic step.
  - `Read` follows the query as written. `if limit:` sends both no limit and `0`
    to `ORDER BY id ASC`. Any other limit runs `ORDER BY id DESC LIMIT ?` and
    then reverses the frame.
  - A negative limit is truthy in Python, and SQLite reads a negative `LIMIT`
    as "no bound", so it also returns every row.
  - `ReadIsSuffix` proves that every read returns the last `ReadCount` rows in
    ascending id order.
  - `Clear` keeps the counter, because AUTOINCREMENT never reuses an id, not
    even after `DELETE FROM entries`.
- **`Formatting`** (`format.dfy`): `format_value`. A number is the exact real
  that its float denotes.
  - The fixed-point text is built the way Python's correctly rounded formatting
    builds it: round half to even on `value * 10^decimals`, a minus sign for
    every negative value, integer digits, a point, then `decimals` fraction
    digits.
  - That text goes through `.rstrip("0").rstrip(".")` and the `"0"` fallback.
  - With 0 decimals the result is `str(int(round(value)))`.
  - Proved: the dash appears exactly for `None`, non-numeric values, NaN and
    ±inf. For `decimals >= 1` the result is a non-empty prefix of the
    fixed-point text that ends neither in `'.'` nor, when it keeps a point,
    in `'0'`.
  - Proved: the `"0"` fallback is never reached.
  - Proved: an `int` such as N shows as `str(N)` at any precision.
  - Proved: a negative value whose magnitude rounds to zero at `decimals >= 1`
    shows as `"-0"` (`"-0.00"` stripped). At `decimals == 0` it shows as `"0"`,
    because `int(round(value))` is the integer 0.
  - The two-step strip is not idempotent as a whole: `"10.00"` gives `"10"`, and
    stripping that again would give `"1"`. `StripNotIdempotent` shows this.
    `format_value` strips only once, so its output is right. What does hold:
    each single `rstrip` is idempotent, and so is the two-step strip whenever
    its result keeps a point and does not end in `'0'`, which is the case for
    every stripped fixed-point text that keeps a fraction.
  - The digits are tied to the number: the integer and fraction digits of the
    fixed-point text read together stand for `|value| * 10^decimals` rounded,
    and `str(n)` reads back as `n`.
- **`Dashboard`** (`dashboard.dfy`): the page logic around the store.
  - The add button's validation: an empty box or a non-finite value leaves the
    table unchanged; a finite value is inserted exactly once.
  - The sidebar's recent values: at most the last ten, newest first, each shown
    with two decimals. This list equals `read_values(10)` read backwards.
  - The statistics card: the `stats` dictionary with its sample-size gates, and
    the loop that formats each entry with its precision from `stat_precision`
    (3 when a key is missing).
  - `Availability` proves, row by row, which rows show the dash. Variance and
    SD show it whenever N ≤ 1, skewness whenever N ≤ 2 and excess kurtosis
    whenever N ≤ 3, whatever the estimate. Above those sizes, and always for
    mean, median, min and max, a row shows the dash exactly when its own
    estimate is not finite. For example, NumPy's variance of `[1e200, -1e200]`
    overflows to inf, so variance and SD show the dash while mean, median, min
    and max are shown.
- **`Seqs`** (`seqs.dfy`): reversal and SQLite's `LIMIT`, with the lemma that
  reversing, taking `k` and reversing back gives the last `k`.

Parameters stand in for what comes from outside the core:
- the `created_at` timestamp (`datetime.utcnow`) is the `createdAt`/`now` argument;
- the statistics NumPy and SciPy compute are the abstract `Estimates`;
- the value typed into the number box is the `Input`.

## Model

| member | source | states |
|---|---|---|
| `EntryStore.EntryTable.constructor` | app.py:162-171 | A freshly created `entries` table is empty and the first id to hand out is 1. |
| `EntryStore.EntryTable.Add` | app.py:173-178 | One row is appended, carrying the value, the timestamp and an id above every id in the table; earlier rows are unchanged; the counter advances; ids stay strictly ascending. |
| `EntryStore.EntryTable.Clear` | app.py:180-185 | The table is empty afterwards, whatever it held before, so clearing twice also leaves it empty. The AUTOINCREMENT counter is kept, so ids are never reused. |
| `EntryStore.EntryTable.Read` | app.py:187-196 | The read returns the table's last `ReadCount` rows in strictly ascending id order and does not change the table. No limit, a limit of 0 and a negative limit all return every row. |
| `EntryStore.ReadIsSuffix` | app.py:190-194 | The query as written (`ORDER BY id DESC LIMIT n`, then reversed) equals the suffix of the ascending table holding its last min(n, count) rows. |
| `EntryStore.ReadRecentThree` | app.py:173-196 | Five `Add` calls with 1..5 on a fresh table, then `Read` with limit 3, return the values 3, 4, 5 in that order. |
| `EntryStore.ReadQuery` | app.py:190-194 | The query as written returns min(n, count) rows for a positive limit n and every row otherwise; with no limit or a limit of 0 it is the whole ascending table. |
| `EntryStore.Truthy` | app.py:190 | `if limit:`: only a present, non-zero limit takes the `LIMIT` branch; `None` and 0 do not. |
| `EntryStore.Values` | app.py:281 | The sample is the `value` column, one entry per row, in row order. |
| `Seqs.Reverse` | app.py:192 | `iloc[::-1]`: same length, element k is element len-1-k of the input. |
| `Seqs.Limit` | app.py:191 | SQLite `LIMIT n` keeps a prefix of min(n, len) rows, or every row when n is negative. |
| `Seqs.ReversePrefixIsSuffix` | app.py:191-192 | Taking the first k rows of the descending order and reversing them gives the last k rows of the ascending order. |
| `Formatting.PlaceholderIff` | app.py:199-208 | `format_value` gives the dash exactly for `None`, a value `float()` rejects, NaN and ±inf; every other value gives text starting with a digit or `-`. |
| `Formatting.FormatValue` | app.py:199-215 | `format_value` always returns non-empty text: the dash, or text starting with a minus sign or a digit. |
| `Formatting.FormatNumber` | app.py:205-215 | A finite number formats to non-empty text starting with `-` or a digit; with decimals it is a prefix of the fixed-point text and does not end in `'.'`. |
| `Formatting.FixedText` | app.py:213 | `f"{value:.{decimals}f}"`: a minus sign exactly for a negative value, one point, and exactly `decimals` digits after it. |
| `Formatting.Strip` | app.py:214 | `.rstrip("0").rstrip(".")` returns a prefix that does not end in `'.'`; every character cut off is `'0'` or `'.'`. |
| `Formatting.LowDigits` | app.py:213 | The last d digits of n, read with the digits above them, give n back; they stand for less than 10^d. |
| `Formatting.WholeDigits` | app.py:213 | The digits before the point stand for the rounded, scaled magnitude without its last `decimals` digits, and have no leading zero unless they are the single digit `0`. |
| `Formatting.FractionDigits` | app.py:213 | Exactly `decimals` digits after the point; whole and fraction digits read together stand for round(abs(value) × 10^decimals), and the fraction stands for less than 10^decimals. |
| `Formatting.RoundHalfEven` | app.py:211 | The result is an integer within 1/2 of the value; on a tie it is the even neighbour. |
| `Formatting.FormatInteger` | app.py:205-215 | An `int` (such as N) is shown as its decimal text `str(i)` for every precision, 0 included. |
| `Formatting.FormatFinite` | app.py:205-215 | For `decimals >= 1` the result is the sign and integer digits, then the point and fraction digits only if a non-zero fraction digit remains. It is a prefix of the fixed-point text and never the `"0"` fallback. It ends neither in `'.'` nor, when it keeps a point, in `'0'`. |
| `Formatting.StripFixed` | app.py:213-214 | On well-formed fixed-point text, the two `rstrip` calls keep the sign and all integer digits and drop exactly the trailing fraction zeros, and the point when nothing is left after it. |
| `Formatting.StrippedShape` | app.py:213-215 | The stripped text is a prefix of the fixed-point text and ends neither in `'.'` nor, when it keeps a point, in `'0'`. |
| `Formatting.RStrip` | app.py:214 | `rstrip(c)` returns a prefix of its input; everything removed is `c`; the result does not end in `c`. |
| `Formatting.RStripAppend` | app.py:214 | Stripping a concatenation strips the right part first and reaches into the left part only when the right part is used up. |
| `Formatting.RStripIdempotent` | app.py:214 | Applying one `rstrip(c)` twice gives the same as applying it once. |
| `Formatting.StripIdempotentWithFraction` | app.py:214 | Applying the two-step strip again changes nothing when its result still holds a point and does not end in `'0'`; stripped fixed-point text that keeps a fraction always does. |
| `Formatting.StripNotIdempotent` | app.py:214 | The two-step strip is not idempotent in general: `"10.00"` strips to `"10"`, which would strip to `"1"`. |
| `Formatting.QuarterAtTwoDecimals` | app.py:213-215 | `format_value(0.25, 2)` is `"0.25"`: a single `0` before the point and both fraction digits kept. |
| `Formatting.NegativeRoundingToZero` | app.py:210-215 | For every negative value whose magnitude times `10^decimals` rounds to 0, `format_value` gives `"-0"` when `decimals >= 1` and `"0"` when `decimals == 0`. |
| `Formatting.RoundingToZeroWithoutDecimals` | app.py:210-211 | At 0 decimals, a value that rounds to 0 shows as `"0"`, with no sign. |
| `Formatting.RoundingToZeroWithDecimals` | app.py:213-215 | At `decimals >= 1`, a negative value whose scaled magnitude rounds to 0 shows as `"-0"`. |
| `Formatting.NegativeRoundsToMinusZero` | app.py:213-215 | One instance: `format_value(-0.001, 2)` is `"-0"`. |
| `Formatting.NatText` | app.py:211 | `str(n)` for a natural number: non-empty digits, no leading zero, and they read back as n. |
| `Formatting.IntText` | app.py:211 | `str(i)`: starts with `-` exactly when i is negative; the digits read back as the absolute value of i. |
| `Formatting.FixedTextOfInteger` | app.py:213 | The fixed-point text of an integer has the integer's digits before the point and only zeros after it. |
| `Dashboard.Accept` | app.py:252-262 | A value is accepted for insertion exactly when the box holds a finite number, and the accepted value is that number. An empty box gets the "enter a number first" notice; a non-finite value gets the "must be finite" notice. |
| `Dashboard.Submit` | app.py:252-264 | Pressing add with an empty box or a non-finite value leaves the table unchanged. A finite value is appended exactly once, with the next id and the given timestamp. |
| `Dashboard.LastTen` | app.py:288 | `df.tail(10)` is the suffix of the table holding its last min(10, count) rows. |
| `Dashboard.RecentValues` | app.py:288-291 | At most ten values; entry k is the value of the k-th newest row, so the newest comes first. |
| `Dashboard.RecentIsLimitedRead` | app.py:288-292 | The recent list equals the values of the limited read with limit 10, read backwards. |
| `Dashboard.RecentPanel` | app.py:283-292 | An empty table shows a single dash. Otherwise entry k is the k-th newest value formatted with two decimals. |
| `Dashboard.RecentPanelHasNoDash` | app.py:285-292 | A non-empty table shows min(10, count) entries, none of which is the dash. |
| `Dashboard.StatItems` | app.py:371-375 | One row per statistic, in the dictionary's order; row k holds the key and the key's value formatted with the key's precision. |
| `Dashboard.Stats` | app.py:347-357 | The `stats` dictionary has nine entries, keyed in order `N`, `Mean`, `Median`, `Variance`, `SD`, `Skewness`, `Kurtosis (excess)`, `Min`, `Max`. `N` holds the sample size as an int; the others hold floats. Mean, median, min and max hold their estimates. Variance and SD are NaN whenever N ≤ 1, skewness whenever N ≤ 2 and excess kurtosis whenever N ≤ 3, whatever the estimate; above those sizes they hold their estimates. |
| `Dashboard.Precision` | app.py:359-373 | `stat_precision.get(key, 3)`: precision 0 exactly for `N`; every other key, listed or not, gets 2 or 3. |
| `Dashboard.CardFor` | app.py:344-375 | The card is absent exactly when the sample is empty; otherwise it has nine rows, the first labelled `N`. |
| `Dashboard.FormatItems` | app.py:371-375 | The loop over `stats.items()` produces exactly the rows `StatItems` describes, in the dictionary's order. |
| `Dashboard.StatsCard` | app.py:344-375 | An empty sample gives the dash and no card. Otherwise the card holds exactly the rows `StatItems` describes for `stats`, nine of them. |
| `Dashboard.PrecisionTable` | app.py:359-373 | Every key in `stats` has its own precision (N 0; mean, median, SD, min, max 2; variance, skewness, kurtosis 3); any key missing from the table gets 3. |
| `Dashboard.SizeShown` | app.py:348 | The first row is `N` and shows the sample size as a plain integer. |
| `Dashboard.AlwaysShown` | app.py:349-350 | Mean, median, min and max show the dash exactly when their own estimate is not finite, whatever the sample size. |
| `Dashboard.GatedShown` | app.py:351-355 | For every estimate: variance and SD show the dash exactly when N ≤ 1 or their estimate is not finite; skewness likewise with N ≤ 2, excess kurtosis with N ≤ 3. |
| `Dashboard.Availability` | app.py:347-375 | For every non-empty sample, the card has nine rows and N is the sample length. Mean, median, min and max show the dash exactly when their estimate is not finite. Variance and SD show it exactly when N ≤ 1 or the estimate is not finite; skewness likewise with N ≤ 2, excess kurtosis with N ≤ 3. |
| `Dashboard.ShownIff` | app.py:374 | A float statistic's row shows the dash exactly when its value is not finite. |

## Left out

- Page layout, CSS, widgets, the toasts' display, the reset popover and its confirmation checkbox, `st.rerun` and the two-second auto-refresh: these are UI glue around the core.
- The SQLite connection, the `CREATE TABLE` statement as text and the conversion to a pandas DataFrame are I/O. The model keeps the abstract row sequence.
- The model keeps rows in ascending id order, so `ORDER BY id ASC` is the identity on them. SQLite's own row storage is not modelled.
- The `created_at` clock (`datetime.utcnow().isoformat()`) is a foreign call; its text is a parameter.
- `DB_LOCK` and the threads of concurrent sessions are concurrency. Each store operation is one atomic step.
- Storage failures are not modelled: the store never fails. So the "could not add" branch at app.py:263-264, and any error from `get_conn`, have no counterpart.
- The AUTOINCREMENT ceiling of 2^63 − 1 (SQLite reports the table full) is not modelled; ids are unbounded integers.
- The values of mean, median, variance, SD, skewness, excess kurtosis, min and max come from NumPy/SciPy floating point. They are abstract `Estimates`; only their gating and display are modelled.
- The histogram and boxplot drawing and the KDE overlay with its scale factor (app.py:314-340) are library calls and floating point.
- The sign bit of `-0.0` is not modelled: a float is its exact real value. Python prints `-0.0` as `"-0"` at `decimals >= 1`; the model gives `"0"`.
- FormatValue, FormatInteger and PlaceholderIff treat every `int` as exact. In the source, an `int` too large for a float (magnitude about 2^1024 and above) makes `float(value)` at app.py:206 raise `OverflowError`. The `except` at app.py:207 catches only `TypeError` and `ValueError`, so `format_value` raises. An `int` above 2^53 but below that bound is rounded to the nearest float before formatting. The model has no exception path and no float rounding, so for such ints it gives `str(i)`. Only the sample size N reaches this branch.
- A negative `decimals` makes Python's format spec raise; `decimals` is a natural number here, and the source only passes 0, 2 and 3.
- `float(number)` on the number box is the identity, because the box yields a float or `None`. Its `except` path is covered by the storage-failure line above.
