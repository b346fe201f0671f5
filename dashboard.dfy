/** The page logic around the store: accepting a typed number before it is
    inserted, the sidebar's recent-values list, and the descriptive-statistics
    card with its per-statistic precision. */
module Dashboard {
  import opened Seqs
  import opened EntryStore
  import opened Formatting

  // ---------------------------------------------------------------------------
  // Adding a value

  /** The number box when the add button is pressed: empty, or holding a float. */
  datatype Input = Empty | Entered(f: Float)

  /** The notice shown after the add button. */
  datatype Notice = EnterNumberFirst | ValueAdded | MustBeFinite

  /** The decision taken before any insert: the value to store, or the notice
      that rejects the input. */
  datatype Decision = Insert(v: real) | Reject(notice: Notice)

  function Accept(input: Input): (d: Decision)
    ensures d.Insert? <==> input.Entered? && input.f.Finite?
    ensures d.Insert? ==> d.v == input.f.r
    ensures d.Reject? ==> d.notice != ValueAdded
    ensures d.Reject? ==> (d.notice == EnterNumberFirst <==> input.Empty?)
  {
    match input
    case Empty => Reject(EnterNumberFirst)
    case Entered(f) => if f.Finite? then Insert(f.r) else Reject(MustBeFinite)
  }

  /** The add button: an empty box or a non-finite number leaves the table as it
      was; a finite number is inserted exactly once, stamped with `now`. */
  method Submit(table: EntryTable, input: Input, now: string) returns (notice: Notice)
    requires table.Valid()
    modifies table
    ensures table.Valid()
    ensures notice == ValueAdded <==> input.Entered? && input.f.Finite?
    ensures notice == EnterNumberFirst <==> input.Empty?
    ensures notice == ValueAdded ==>
      table.rows == old(table.rows) + [Entry(old(table.nextId), input.f.r, now)] &&
      table.nextId == old(table.nextId) + 1
    ensures notice != ValueAdded ==>
      table.rows == old(table.rows) && table.nextId == old(table.nextId)
  {
    var d := Accept(input);
    if d.Insert? {
      table.Add(d.v, now);
      notice := ValueAdded;
    } else {
      notice := d.notice;
    }
  }

  // ---------------------------------------------------------------------------
  // Recent values in the sidebar

  /** The table's last ten rows at most (`df.tail(10)`). */
  function LastTen(rows: seq<Entry>): (t: seq<Entry>)
    ensures |t| == if |rows| < 10 then |rows| else 10
    ensures t == rows[|rows| - |t|..]
  {
    if |rows| <= 10 then rows else rows[|rows| - 10..]
  }

  /** The values of the last ten rows, newest first. */
  function RecentValues(rows: seq<Entry>): (vs: seq<real>)
    ensures |vs| == if |rows| < 10 then |rows| else 10
    ensures forall k :: 0 <= k < |vs| ==> vs[k] == rows[|rows| - 1 - k].value
  {
    Reverse(Values(LastTen(rows)))
  }

  /** The recent list is the limited read `read_values(10)` shown back to front. */
  lemma RecentIsLimitedRead(rows: seq<Entry>)
    ensures RecentValues(rows) == Reverse(Values(ReadQuery(rows, Some(10))))
  {
    ReadIsSuffix(rows, Some(10));
    assert ReadQuery(rows, Some(10)) == LastTen(rows);
  }

  /** What the sidebar shows: a dash for an empty table, otherwise each recent
      value with two decimals, newest first. */
  function RecentPanel(rows: seq<Entry>): (items: seq<string>)
    ensures rows == [] ==> items == [Placeholder]
    ensures rows != [] ==> |items| == |RecentValues(rows)|
    ensures rows != [] ==> forall k :: 0 <= k < |items| ==>
      items[k] == FormatValue(FloatCell(Finite(rows[|rows| - 1 - k].value)), 2)
  {
    if rows == [] then [Placeholder]
    else
      var vs := RecentValues(rows);
      seq(|vs|, k requires 0 <= k < |vs| => FormatValue(FloatCell(Finite(vs[k])), 2))
  }

  /** A non-empty table never shows a dash among its recent values. */
  lemma RecentPanelHasNoDash(rows: seq<Entry>)
    requires rows != []
    ensures |RecentPanel(rows)| == if |rows| < 10 then |rows| else 10
    ensures forall k :: 0 <= k < |RecentPanel(rows)| ==> RecentPanel(rows)[k] != Placeholder
  {
    var items := RecentPanel(rows);
    forall k | 0 <= k < |items| ensures items[k] != Placeholder {
      PlaceholderIff(FloatCell(Finite(rows[|rows| - 1 - k].value)), 2);
    }
  }

  // ---------------------------------------------------------------------------
  // Descriptive statistics

  /** The values NumPy and SciPy compute for a sample; how they are computed is
      not part of this model. */
  datatype Estimates = Estimates(
    mean: Float, median: Float, variance: Float, sd: Float,
    skewness: Float, kurtosis: Float, min: Float, max: Float)

  /** A statistic that needs a larger sample is `np.nan` below that size. */
  function Gate(defined: bool, v: Float): Float {
    if defined then v else NaN
  }

  /** The keys of the `stats` dictionary, in insertion order. */
  const StatKeys: seq<string> :=
    ["N", "Mean", "Median", "Variance", "SD", "Skewness", "Kurtosis (excess)", "Min", "Max"]

  /** The `stats` dictionary, in insertion order, for a sample of size `n`: nine
      entries, the first the size as an `int`, the others floats. A gated
      statistic is NaN whatever its estimate below its sample size, and its
      estimate from that size on. */
  function Stats(n: nat, e: Estimates): (stats: seq<(string, Cell)>)
    ensures |stats| == 9 && stats[0] == ("N", IntCell(n))
    ensures forall k :: 0 <= k < 9 ==> stats[k].0 == StatKeys[k]
    ensures forall k :: 1 <= k < 9 ==> stats[k].1.FloatCell?
    ensures stats[1].1.f == e.mean && stats[2].1.f == e.median
    ensures stats[7].1.f == e.min && stats[8].1.f == e.max
    ensures n <= 1 ==> stats[3].1.f.NaN? && stats[4].1.f.NaN?
    ensures n <= 2 ==> stats[5].1.f.NaN?
    ensures n <= 3 ==> stats[6].1.f.NaN?
    ensures 1 < n ==> stats[3].1.f == e.variance && stats[4].1.f == e.sd
    ensures 2 < n ==> stats[5].1.f == e.skewness
    ensures 3 < n ==> stats[6].1.f == e.kurtosis
  {
    [ ("N", IntCell(n)),
      ("Mean", FloatCell(e.mean)),
      ("Median", FloatCell(e.median)),
      ("Variance", FloatCell(Gate(n > 1, e.variance))),
      ("SD", FloatCell(Gate(n > 1, e.sd))),
      ("Skewness", FloatCell(Gate(n > 2, e.skewness))),
      ("Kurtosis (excess)", FloatCell(Gate(n > 3, e.kurtosis))),
      ("Min", FloatCell(e.min)),
      ("Max", FloatCell(e.max)) ]
  }

  const StatPrecision: map<string, nat> :=
    map["N" := 0, "Mean" := 2, "Median" := 2, "Variance" := 3, "SD" := 2,
        "Skewness" := 3, "Kurtosis (excess)" := 3, "Min" := 2, "Max" := 2]

  /** `stat_precision.get(key, 3)`: only `N` is shown without decimals; every
      other key, listed or not, gets 2 or 3. */
  function Precision(key: string): (p: nat)
    ensures p == 0 <==> key == "N"
    ensures p == 0 || p == 2 || p == 3
  {
    if key in StatPrecision then StatPrecision[key] else 3
  }

  /** The rows the loop over `stats.items()` appends, one per statistic. */
  function StatItems(stats: seq<(string, Cell)>): (items: seq<(string, string)>)
    ensures |items| == |stats|
    ensures forall k :: 0 <= k < |stats| ==>
      items[k] == (stats[k].0, FormatValue(stats[k].1, Precision(stats[k].0)))
  {
    if stats == [] then []
    else
      var last := stats[|stats| - 1];
      StatItems(stats[..|stats| - 1]) + [(last.0, FormatValue(last.1, Precision(last.0)))]
  }

  /** The statistics card: a dash for an empty sample, otherwise the labelled rows. */
  datatype Card = NoData | Table(items: seq<(string, string)>)

  /** The card for a sample: no card exactly when the sample is empty, otherwise
      nine rows whose first is the sample size. */
  function CardFor(sample: seq<real>, e: Estimates): (card: Card)
    ensures card.NoData? <==> sample == []
    ensures card.Table? ==> |card.items| == 9 && card.items[0].0 == "N"
  {
    if |sample| == 0 then NoData else Table(StatItems(Stats(|sample|, e)))
  }

  /** The loop over `stats.items()`: format each entry with its precision. */
  method FormatItems(stats: seq<(string, Cell)>) returns (items: seq<(string, string)>)
    ensures items == StatItems(stats)
  {
    items := [];
    var i := 0;
    while i < |stats|
      invariant 0 <= i <= |stats|
      invariant items == StatItems(stats[..i])
    {
      var (key, value) := stats[i];
      var decimals := Precision(key);
      items := items + [(key, FormatValue(value, decimals))];
      assert stats[..i + 1][..i] == stats[..i];
      i := i + 1;
    }
    assert stats[..i] == stats;
  }

  /** The right-hand column: a dash for an empty sample, otherwise build `stats`
      and format its entries. */
  method StatsCard(sample: seq<real>, e: Estimates) returns (card: Card)
    ensures card == CardFor(sample, e)
    ensures card.NoData? <==> sample == []
    ensures card.Table? ==> |card.items| == 9
  {
    if |sample| == 0 {
      return NoData;
    }
    var stats := Stats(|sample|, e);
    var items := FormatItems(stats);
    card := Table(items);
  }

  /** Every key of the card has its own entry in the precision table, so the
      default of 3 is never used for it. */
  lemma PrecisionTable(n: nat, e: Estimates)
    ensures forall k :: 0 <= k < 9 ==> Stats(n, e)[k].0 in StatPrecision
    ensures forall k :: 0 <= k < 9 ==>
      Precision(Stats(n, e)[k].0) == [0, 2, 2, 3, 2, 3, 3, 2, 2][k]
    ensures forall key :: key !in StatPrecision ==> Precision(key) == 3
  {
  }

  /** The sample size is shown as a plain integer. */
  lemma SizeShown(n: nat, e: Estimates)
    ensures StatItems(Stats(n, e))[0] == ("N", NatText(n))
  {
    var stats := Stats(n, e);
    assert stats[0] == ("N", IntCell(n));
    assert Precision("N") == 0;
    FormatInteger(n, 0);
  }

  /** Mean, median, min and max show the dash exactly when their own estimate
      is not finite, whatever the sample size. */
  lemma AlwaysShown(n: nat, e: Estimates)
    ensures var items := StatItems(Stats(n, e));
      (items[1].1 == Placeholder <==> !e.mean.Finite?) &&
      (items[2].1 == Placeholder <==> !e.median.Finite?) &&
      (items[7].1 == Placeholder <==> !e.min.Finite?) &&
      (items[8].1 == Placeholder <==> !e.max.Finite?)
  {
    var stats := Stats(n, e);
    ShownIff(stats, 1);
    ShownIff(stats, 2);
    ShownIff(stats, 7);
    ShownIff(stats, 8);
  }

  /** Variance and SD need two values, skewness three, excess kurtosis four:
      below that size the row shows the dash whatever the estimate, and from
      that size on exactly when the estimate is not finite. */
  lemma GatedShown(n: nat, e: Estimates)
    ensures var items := StatItems(Stats(n, e));
      (items[3].1 == Placeholder <==> n <= 1 || !e.variance.Finite?) &&
      (items[4].1 == Placeholder <==> n <= 1 || !e.sd.Finite?) &&
      (items[5].1 == Placeholder <==> n <= 2 || !e.skewness.Finite?) &&
      (items[6].1 == Placeholder <==> n <= 3 || !e.kurtosis.Finite?)
  {
    var stats := Stats(n, e);
    ShownIff(stats, 3);
    ShownIff(stats, 4);
    ShownIff(stats, 5);
    ShownIff(stats, 6);
  }

  /** Which statistics the card shows for a non-empty sample: `N` is the sample
      length as a plain integer; mean, median, min and max whenever their
      estimate is finite; variance and SD exactly when N > 1 and the estimate
      is finite, skewness likewise from N > 2, excess kurtosis from N > 3. */
  lemma Availability(sample: seq<real>, e: Estimates)
    requires sample != []
    ensures CardFor(sample, e).Table?
    ensures var items := CardFor(sample, e).items;
      |items| == 9 &&
      items[0] == ("N", NatText(|sample|)) &&
      (items[1].1 == Placeholder <==> !e.mean.Finite?) &&
      (items[2].1 == Placeholder <==> !e.median.Finite?) &&
      (items[7].1 == Placeholder <==> !e.min.Finite?) &&
      (items[8].1 == Placeholder <==> !e.max.Finite?) &&
      (items[3].1 == Placeholder <==> |sample| <= 1 || !e.variance.Finite?) &&
      (items[4].1 == Placeholder <==> |sample| <= 1 || !e.sd.Finite?) &&
      (items[5].1 == Placeholder <==> |sample| <= 2 || !e.skewness.Finite?) &&
      (items[6].1 == Placeholder <==> |sample| <= 3 || !e.kurtosis.Finite?)
  {
    assert CardFor(sample, e).items == StatItems(Stats(|sample|, e));
    SizeShown(|sample|, e);
    AlwaysShown(|sample|, e);
    GatedShown(|sample|, e);
  }

  /** A float statistic shows the dash exactly when it is not finite. */
  lemma ShownIff(stats: seq<(string, Cell)>, k: nat)
    requires k < |stats| && stats[k].1.FloatCell?
    ensures StatItems(stats)[k].1 == Placeholder <==> !stats[k].1.f.Finite?
  {
    PlaceholderIff(stats[k].1, Precision(stats[k].0));
  }
}
