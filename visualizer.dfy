/** The visualizer (data_visualizer.py) without its charts: the per-session
    loops that skip an identifier with no rows and summarise every other over
    exactly its rows, the temperature and operational summaries, and the
    heatmap's mask and rotor-temperature ranking. */
module Visualizer {

  import opened Frames
  import Stats
  import Ranking
  import Analyzer

  const TemperatureColumns: seq<string> :=
    ["pm", "stator_winding", "stator_tooth", "stator_yoke", "coolant", "ambient"]
  const OperationalColumns: seq<string> :=
    ["motor_speed", "torque", "i_d", "i_q", "u_d", "u_q"]
  const MotorSpeed: string := "motor_speed"
  const Torque: string := "torque"

  /** The rows of one session, in table order (df[df['profile_id'] == id]). */
  function SessionRows(t: Table, id: real): (rows: seq<seq<real>>)
    requires WellFormed(t) && ProfileId in t.columns
    ensures HasWidth(rows, |t.columns|)
    ensures rows == [] <==> id !in Analyzer.ProfileColumn(t)
    ensures forall i :: 0 <= i < |rows| ==> rows[i] in t.rows && rows[i][Stats.IndexOf(t.columns, ProfileId)] == id
  {
    var p := Stats.IndexOf(t.columns, ProfileId);
    MatchingEmptyIff(t.rows, p, id);
    MatchingWidth(t.rows, p, id, |t.columns|);
    Matching(t.rows, p, id)
  }

  // ----- Per-column figures -----------------------------------------------

  datatype ColumnSummary = ColumnSummary(column: string, min: real, max: real, mean: real)

  function SummarizeColumn(rows: seq<seq<real>>, w: nat, name: string, c: nat): (s: ColumnSummary)
    requires |rows| > 0 && HasWidth(rows, w) && c < w
    ensures s.column == name
    ensures s.mean == Stats.Mean(ColumnOf(rows, c))
    ensures s.min <= s.mean <= s.max
    ensures s.min in ColumnOf(rows, c) && s.max in ColumnOf(rows, c)
    ensures forall i :: 0 <= i < |rows| ==> s.min <= rows[i][c] <= s.max
  {
    var values := ColumnOf(rows, c);
    Stats.MeanBetweenMinAndMax(values);
    ColumnSummary(name, Stats.Min(values), Stats.Max(values), Stats.Mean(values))
  }

  /** min, max and mean for each named column, in the order given. */
  function SummarizeColumns(t: Table, rows: seq<seq<real>>, names: seq<string>): (r: seq<ColumnSummary>)
    requires WellFormed(t) && HasColumns(t, names) && |rows| > 0 && HasWidth(rows, |t.columns|)
    ensures |r| == |names|
    ensures forall k :: 0 <= k < |names| ==>
      r[k] == SummarizeColumn(rows, |t.columns|, names[k], Stats.IndexOf(t.columns, names[k]))
  {
    seq(|names|, k requires 0 <= k < |names| => SummarizeColumn(rows, |t.columns|, names[k], Stats.IndexOf(t.columns, names[k])))
  }

  // ----- Temperature trends -----------------------------------------------

  datatype Trend = Increasing | Decreasing | Stable

  /** The ordered rule: more than 5% up, else more than 5% down, else
      stable. */
  function ClassifyTrend(initial: real, final: real): (r: Trend)
    ensures r == Increasing <==> final > initial * 1.05
    ensures r == Decreasing <==> final <= initial * 1.05 && final < initial * 0.95
    ensures r == Stable <==> initial * 0.95 <= final <= initial * 1.05
  {
    if final > initial * 1.05 then Increasing
    else if final < initial * 0.95 then Decreasing
    else Stable
  }

  /** For a positive initial reading the rule is the relative change measured
      against a 5% band: above it is an increase, below it a decrease, inside
      it (bounds included) stable. */
  lemma TrendIsRelativeChange(initial: real, final: real)
    requires initial > 0.0
    ensures var change := (final - initial) / initial;
      && (ClassifyTrend(initial, final) == Increasing <==> change > 0.05)
      && (ClassifyTrend(initial, final) == Decreasing <==> change < -0.05)
      && (ClassifyTrend(initial, final) == Stable <==> -0.05 <= change <= 0.05)
  {
    DivisionCompare(final - initial, initial, 0.05);
    DivisionCompare(final - initial, initial, -0.05);
  }

  /** Comparing a quotient with a positive divisor is comparing the
      dividend with the scaled bound. */
  lemma DivisionCompare(d: real, a: real, q: real)
    requires a > 0.0
    ensures d / a > q <==> d > q * a
    ensures d / a < q <==> d < q * a
  {
    var x := d / a;
    assert x * a == d;
    assert (x - q) * a == d - q * a;
    SignOfProduct(x - q, a);
  }

  lemma SignOfProduct(x: real, a: real)
    requires a > 0.0
    ensures x * a > 0.0 <==> x > 0.0
    ensures x * a < 0.0 <==> x < 0.0
  {
    if x > 0.0 {
      assert x * a > 0.0;
    } else if x < 0.0 {
      assert (-x) * a > 0.0;
    }
  }

  /** Both thresholds can hold at once only for a negative initial reading,
      so the order of the two tests matters only there. */
  lemma ThresholdsOverlapOnlyBelowZero(initial: real, final: real)
    requires final > initial * 1.05 && final < initial * 0.95
    ensures initial < 0.0
  {
  }

  /** An unchanged non-negative reading is stable. */
  lemma UnchangedIsStable(initial: real)
    requires initial >= 0.0
    ensures ClassifyTrend(initial, initial) == Stable
  {
  }

  /** An unchanged negative reading is reported as an increase: for
      initial < 0, initial * 1.05 lies below initial. */
  lemma UnchangedNegativeReadsIncreasing(initial: real)
    requires initial < 0.0
    ensures ClassifyTrend(initial, initial) == Increasing
  {
  }

  datatype TemperatureSummary = TemperatureSummary(
    columns: seq<ColumnSummary>,
    initialPm: real,
    finalPm: real,
    peakPm: real,
    peakTime: real,
    trend: Trend)

  predicate CanPlotTemperatures(t: Table) {
    Analyzer.HasSessionColumns(t) && HasColumns(t, TemperatureColumns)
  }

  /** The session maximum of the rotor temperature and the time of the
      first row that reaches it (idxmax picks the first such row). */
  function Peak(pm: seq<real>, times: seq<real>): (r: (real, real))
    requires |pm| > 0 && |times| == |pm|
    ensures forall i :: 0 <= i < |pm| ==> pm[i] <= r.0
    ensures exists k :: 0 <= k < |pm| && pm[k] == r.0 && times[k] == r.1 &&
                        forall j :: 0 <= j < k ==> pm[j] < r.0
  {
    var k := Stats.FirstMaxIndex(pm);
    (Stats.Max(pm), times[k])
  }

  /** Rotor temperatures 40, 42, 45 at 0, 0.5 and 1 seconds peak at 45 after
      1 second, and the session counts as warming up. */
  lemma PeakExample()
    ensures Peak([40.0, 42.0, 45.0], [0.0, 0.5, 1.0]) == (45.0, 1.0)
    ensures ClassifyTrend(40.0, 45.0) == Increasing
  {
    var pm, times := [40.0, 42.0, 45.0], [0.0, 0.5, 1.0];
    var r := Peak(pm, times);
    var k :| 0 <= k < 3 && pm[k] == r.0 && times[k] == r.1 && forall j :: 0 <= j < k ==> pm[j] < r.0;
    assert pm[2] <= r.0;
  }

  function SummarizeTemperatures(t: Table, rows: seq<seq<real>>): (s: TemperatureSummary)
    requires CanPlotTemperatures(t) && |rows| > 0 && HasWidth(rows, |t.columns|)
    ensures s.columns == SummarizeColumns(t, rows, TemperatureColumns)
    ensures var pm := Stats.IndexOf(t.columns, RotorTemperature);
      && s.initialPm == rows[0][pm]
      && s.finalPm == rows[|rows| - 1][pm]
      && s.trend == ClassifyTrend(s.initialPm, s.finalPm)
      && (s.peakPm, s.peakTime) == Peak(ColumnOf(rows, pm), ColumnOf(rows, Stats.IndexOf(t.columns, ElapsedTime)))
      && (forall i :: 0 <= i < |rows| ==> rows[i][pm] <= s.peakPm)
    ensures var pm, tc := Stats.IndexOf(t.columns, RotorTemperature), Stats.IndexOf(t.columns, ElapsedTime);
      exists k :: 0 <= k < |rows| && rows[k][pm] == s.peakPm && s.peakTime == rows[k][tc] &&
        forall j :: 0 <= j < k ==> rows[j][pm] < s.peakPm
  {
    assert RotorTemperature in TemperatureColumns;
    var pm, tc := Stats.IndexOf(t.columns, RotorTemperature), Stats.IndexOf(t.columns, ElapsedTime);
    var values := ColumnOf(rows, pm);
    var peak := Peak(values, ColumnOf(rows, tc));
    var initial, final := values[0], values[|values| - 1];
    TemperatureSummary(
      SummarizeColumns(t, rows, TemperatureColumns),
      initial, final, peak.0, peak.1,
      ClassifyTrend(initial, final))
  }

  // ----- Operational trends -----------------------------------------------

  datatype OperationalSummary = OperationalSummary(
    columns: seq<ColumnSummary>,
    avgSpeed: real,
    maxSpeed: real,
    avgTorque: real,
    peakAbsTorque: real,
    regenerative: bool)

  predicate CanPlotOperations(t: Table) {
    Analyzer.HasSessionColumns(t) && HasColumns(t, OperationalColumns)
  }

  function SummarizeOperations(t: Table, rows: seq<seq<real>>): (s: OperationalSummary)
    requires CanPlotOperations(t) && |rows| > 0 && HasWidth(rows, |t.columns|)
    ensures s.columns == SummarizeColumns(t, rows, OperationalColumns)
    ensures var sp := Stats.IndexOf(t.columns, MotorSpeed);
      && s.maxSpeed in ColumnOf(rows, sp)
      && (forall i :: 0 <= i < |rows| ==> rows[i][sp] <= s.maxSpeed)
      && s.maxSpeed == s.columns[0].max
      && s.avgSpeed == s.columns[0].mean
      && s.columns[0].min <= s.avgSpeed <= s.maxSpeed
    ensures s.avgTorque == s.columns[1].mean
    ensures s.columns[1].min <= s.avgTorque <= s.columns[1].max
    ensures var tq := Stats.IndexOf(t.columns, Torque);
      && (forall i :: 0 <= i < |rows| ==> Stats.Abs(rows[i][tq]) <= s.peakAbsTorque)
      && (exists i :: 0 <= i < |rows| && s.peakAbsTorque == Stats.Abs(rows[i][tq]))
      && (s.regenerative <==> exists i :: 0 <= i < |rows| && rows[i][tq] < 0.0)
  {
    assert OperationalColumns[0] == MotorSpeed && OperationalColumns[1] == Torque;
    var w, sp, tq := |t.columns|, Stats.IndexOf(t.columns, MotorSpeed), Stats.IndexOf(t.columns, Torque);
    var cols := SummarizeColumns(t, rows, OperationalColumns);
    assert cols[0] == SummarizeColumn(rows, w, MotorSpeed, sp);
    assert cols[1] == SummarizeColumn(rows, w, Torque, tq);
    OperationalSummary(cols, cols[0].mean, cols[0].max, cols[1].mean, PeakAbs(rows, w, tq), Regenerative(rows, w, tq))
  }

  /** The largest absolute value in column c (abs().max()). */
  function PeakAbs(rows: seq<seq<real>>, w: nat, c: nat): (m: real)
    requires |rows| > 0 && HasWidth(rows, w) && c < w
    ensures forall i :: 0 <= i < |rows| ==> Stats.Abs(rows[i][c]) <= m
    ensures exists i :: 0 <= i < |rows| && m == Stats.Abs(rows[i][c])
  {
    Stats.MaxAbs(ColumnOf(rows, c))
  }

  /** A session regenerates when the lowest torque is negative, that is
      when some row has negative torque. */
  function Regenerative(rows: seq<seq<real>>, w: nat, c: nat): (b: bool)
    requires |rows| > 0 && HasWidth(rows, w) && c < w
    ensures b <==> exists i :: 0 <= i < |rows| && rows[i][c] < 0.0
  {
    var torque := ColumnOf(rows, c);
    var lowest := Stats.Min(torque);
    assert torque[Stats.IndexOf(torque, lowest)] == lowest;
    lowest < 0.0
  }

  // ----- The per-session loops --------------------------------------------

  /** What one requested identifier yields: a skip warning, or a summary. */
  datatype Outcome<S> = Skipped(profile: real) | Summarised(profile: real, summary: S)

  /** The outcome for one requested id carries that id. It is a skip exactly
      when no row has the id, and otherwise summarises exactly the id's
      rows, in table order. */
  predicate TemperatureOutcomeFor(t: Table, id: real, o: Outcome<TemperatureSummary>)
    requires WellFormed(t) && ProfileId in t.columns
  {
    && o.profile == id
    && (o.Skipped? <==> id !in Analyzer.ProfileColumn(t))
    && (o.Summarised? ==> CanPlotTemperatures(t) && o.summary == SummarizeTemperatures(t, SessionRows(t, id)))
  }

  predicate OperationalOutcomeFor(t: Table, id: real, o: Outcome<OperationalSummary>)
    requires WellFormed(t) && ProfileId in t.columns
  {
    && o.profile == id
    && (o.Skipped? <==> id !in Analyzer.ProfileColumn(t))
    && (o.Summarised? ==> CanPlotOperations(t) && o.summary == SummarizeOperations(t, SessionRows(t, id)))
  }

  /** Some requested identifier has rows in the table. */
  predicate AnyPresent(t: Table, ids: seq<real>)
    requires WellFormed(t) && ProfileId in t.columns
  {
    exists i :: 0 <= i < |ids| && ids[i] in Analyzer.ProfileColumn(t)
  }

  /** plot_and_summarize_temperature_trends. */
  method PlotAndSummarizeTemperatureTrends(df: Option<Table>, profileIds: seq<real>)
    returns (out: Option<seq<Outcome<TemperatureSummary>>>)
    requires df.Some? ==> WellFormed(df.value) && ProfileId in df.value.columns
    requires df.Some? && AnyPresent(df.value, profileIds) ==> CanPlotTemperatures(df.value)
    ensures df.None? <==> out.None?
    ensures out.Some? ==> |out.value| == |profileIds|
    ensures out.Some? ==> forall i :: 0 <= i < |profileIds| ==>
      TemperatureOutcomeFor(df.value, profileIds[i], out.value[i])
  {
    if df.None? {
      return None;
    }
    var t := df.value;
    var results: seq<Outcome<TemperatureSummary>> := [];
    var i := 0;
    while i < |profileIds|
      invariant 0 <= i <= |profileIds| && |results| == i
      invariant forall j :: 0 <= j < i ==> TemperatureOutcomeFor(t, profileIds[j], results[j])
    {
      var rows := SessionRows(t, profileIds[i]);
      if rows == [] {
        results := results + [Skipped(profileIds[i])];
        i := i + 1;
        continue;
      }
      assert AnyPresent(t, profileIds);
      var outcome := Summarised(profileIds[i], SummarizeTemperatures(t, rows));
      assert TemperatureOutcomeFor(t, profileIds[i], outcome);
      results := results + [outcome];
      i := i + 1;
    }
    out := Some(results);
  }

  /** plot_and_summarize_operational_trends. */
  method PlotAndSummarizeOperationalTrends(df: Option<Table>, profileIds: seq<real>)
    returns (out: Option<seq<Outcome<OperationalSummary>>>)
    requires df.Some? ==> WellFormed(df.value) && ProfileId in df.value.columns
    requires df.Some? && AnyPresent(df.value, profileIds) ==> CanPlotOperations(df.value)
    ensures df.None? <==> out.None?
    ensures out.Some? ==> |out.value| == |profileIds|
    ensures out.Some? ==> forall i :: 0 <= i < |profileIds| ==>
      OperationalOutcomeFor(df.value, profileIds[i], out.value[i])
  {
    if df.None? {
      return None;
    }
    var t := df.value;
    var results: seq<Outcome<OperationalSummary>> := [];
    var i := 0;
    while i < |profileIds|
      invariant 0 <= i <= |profileIds| && |results| == i
      invariant forall j :: 0 <= j < i ==> OperationalOutcomeFor(t, profileIds[j], results[j])
    {
      var rows := SessionRows(t, profileIds[i]);
      if rows == [] {
        results := results + [Skipped(profileIds[i])];
        i := i + 1;
        continue;
      }
      assert AnyPresent(t, profileIds);
      var outcome := Summarised(profileIds[i], SummarizeOperations(t, rows));
      assert OperationalOutcomeFor(t, profileIds[i], outcome);
      results := results + [outcome];
      i := i + 1;
    }
    out := Some(results);
  }

  // ----- Correlation heatmap ----------------------------------------------

  /** np.ones_like(matrix, dtype=bool) for an n-by-n matrix. */
  function Ones(n: nat): (m: seq<seq<bool>>)
    ensures |m| == n && forall i :: 0 <= i < n ==> |m[i]| == n
  {
    seq(n, i => seq(n, j => true))
  }

  /** np.triu: keeps the entries on and above the diagonal. */
  function Triu(m: seq<seq<bool>>): (r: seq<seq<bool>>)
    ensures |r| == |m| && forall i :: 0 <= i < |m| ==> |r[i]| == |m[i]|
  {
    seq(|m|, i requires 0 <= i < |m| => seq(|m[i]|, j requires 0 <= j < |m[i]| => j >= i && m[i][j]))
  }

  /** The heatmap mask: true marks a hidden cell. */
  function HeatmapMask(n: nat): (mask: seq<seq<bool>>)
    ensures |mask| == n && forall i :: 0 <= i < n ==> |mask[i]| == n
    ensures forall i, j :: 0 <= i < n && 0 <= j < n ==> (mask[i][j] <==> j >= i)
  {
    Triu(Ones(n))
  }

  /** The mask hides the diagonal and exactly one cell of every symmetric
      pair, so each correlation between two different columns shows once. */
  lemma MaskShowsEachPairOnce(n: nat, i: nat, j: nat)
    requires i < n && j < n
    ensures var mask := HeatmapMask(n);
      mask[i][i] && (i != j ==> (mask[i][j] <==> !mask[j][i]))
  {
  }

  datatype HeatmapSummary = HeatmapSummary(columns: seq<string>, mask: seq<seq<bool>>, pmRanking: seq<Ranking.Entry>)

  /** plot_and_summarize_correlation_heatmap, given the "pm" column of the
      correlation matrix. */
  function PlotAndSummarizeCorrelationHeatmap(df: Option<Table>, pmColumn: seq<real>): (r: Option<HeatmapSummary>)
    requires df.Some? ==> Analyzer.CanCorrelate(df.value, pmColumn)
    ensures df.None? <==> r.None?
    ensures r.Some? ==>
      var cols := Analyzer.CorrelationColumns(df.value.columns);
      var h := r.value;
      && h.columns == cols
      && h.mask == HeatmapMask(|cols|)
      && Ranking.NonIncreasing(h.pmRanking)
      && (forall k :: 0 <= k < |h.pmRanking| ==>
            h.pmRanking[k].column != RotorTemperature && h.pmRanking[k].column in cols)
      && (forall k :: 0 <= k < |h.pmRanking| ==> h.pmRanking[k] in Ranking.Label(cols, pmColumn))
      && multiset(h.pmRanking) == multiset(Ranking.Without(Ranking.Label(cols, pmColumn), RotorTemperature))
      && (forall i :: 0 <= i < |cols| && cols[i] != RotorTemperature ==>
            multiset(h.pmRanking)[Ranking.Entry(cols[i], pmColumn[i])] == 1)
  {
    if df.None? then None
    else
      var cols := Analyzer.CorrelationColumns(df.value.columns);
      var entries := Ranking.Label(cols, pmColumn);
      var sorted := Ranking.SortDescending(entries);
      var listed := Ranking.Without(sorted, RotorTemperature);
      Ranking.WithoutKeepsOrder(sorted, RotorTemperature);
      ListedOnce(cols, pmColumn, sorted, listed);
      Some(HeatmapSummary(cols, HeatmapMask(|cols|), listed))
  }

  lemma ListedOnce(cols: seq<string>, pmColumn: seq<real>, sorted: seq<Ranking.Entry>, listed: seq<Ranking.Entry>)
    requires |cols| == |pmColumn| && DistinctNames(cols)
    requires multiset(sorted) == multiset(Ranking.Label(cols, pmColumn))
    requires listed == Ranking.Without(sorted, RotorTemperature)
    ensures forall k :: 0 <= k < |listed| ==> listed[k].column in cols
    ensures forall k :: 0 <= k < |listed| ==> listed[k] in Ranking.Label(cols, pmColumn)
    ensures multiset(listed) == multiset(Ranking.Without(Ranking.Label(cols, pmColumn), RotorTemperature))
    ensures forall i :: 0 <= i < |cols| && cols[i] != RotorTemperature ==>
      multiset(listed)[Ranking.Entry(cols[i], pmColumn[i])] == 1
  {
    var entries := Ranking.Label(cols, pmColumn);
    forall e: Ranking.Entry
      ensures multiset(listed)[e] == multiset(Ranking.Without(entries, RotorTemperature))[e]
    {
      Ranking.WithoutMultiset(sorted, RotorTemperature, e);
      Ranking.WithoutMultiset(entries, RotorTemperature, e);
    }
    assert multiset(listed) == multiset(Ranking.Without(entries, RotorTemperature));
    forall k | 0 <= k < |listed| ensures listed[k] in entries && listed[k].column in cols {
      assert listed[k] in multiset(entries);
    }
    forall i | 0 <= i < |cols| && cols[i] != RotorTemperature
      ensures multiset(listed)[Ranking.Entry(cols[i], pmColumn[i])] == 1
    {
      var e := Ranking.Entry(cols[i], pmColumn[i]);
      Ranking.WithoutMultiset(sorted, RotorTemperature, e);
      Ranking.DistinctEntries(cols, pmColumn, e);
      assert entries[i] == e;
    }
  }
}
