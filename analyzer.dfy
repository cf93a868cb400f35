/** The analyzer (data_analyzer.py): descriptive statistics, the session
    analysis (distinct profile ids and per-session durations) and the
    ranking of the correlations with rotor temperature. Each operation
    reports nothing when its input table is absent. */
module Analyzer {

  import opened Frames
  import Stats
  import Ranking
  import Cleaner

  predicate HasSessionColumns(t: Table) {
    WellFormed(t) && ProfileId in t.columns && ElapsedTime in t.columns
  }

  /** The profile_id column. */
  function ProfileColumn(t: Table): (ids: seq<real>)
    requires WellFormed(t) && ProfileId in t.columns
    ensures |ids| == |t.rows|
  {
    ColumnOf(t.rows, Stats.IndexOf(t.columns, ProfileId))
  }

  // ----- Descriptive statistics -------------------------------------------

  /** count, mean, min and max of one column; on an empty table pandas
      reports count 0 and NaN (None here) for the rest. */
  datatype Description = Description(column: string, count: nat, mean: Option<real>, min: Option<real>, max: Option<real>)

  function Describe(name: string, values: seq<real>): (d: Description)
    ensures d.column == name && d.count == |values|
    ensures d.mean.None? <==> |values| == 0
    ensures d.mean.None? <==> d.min.None?
    ensures d.mean.None? <==> d.max.None?
    ensures d.mean.Some? ==> d.mean.value == Stats.Mean(values)
    ensures d.mean.Some? ==> d.min.value <= d.mean.value <= d.max.value
    ensures d.min.Some? ==> d.min.value in values && forall i :: 0 <= i < |values| ==> d.min.value <= values[i]
    ensures d.max.Some? ==> d.max.value in values && forall i :: 0 <= i < |values| ==> values[i] <= d.max.value
  {
    if |values| == 0 then Description(name, 0, None, None, None)
    else
      Stats.MeanBetweenMinAndMax(values);
      Description(name, |values|, Some(Stats.Mean(values)), Some(Stats.Min(values)), Some(Stats.Max(values)))
  }

  /** What analyze_descriptive_statistics produces: nothing for an absent
      table, the error describe() raises for a table without columns, or
      one description per column. */
  datatype StatisticsReport =
    | NullTable
    | NoColumnsToDescribe
    | Described(descriptions: seq<Description>)

  /** analyze_descriptive_statistics: one description per column, in column
      order (describe().T); std and quartiles are not modelled. */
  function AnalyzeDescriptiveStatistics(df: Option<Table>): (r: StatisticsReport)
    requires df.Some? ==> WellFormed(df.value)
    ensures df.None? <==> r.NullTable?
    ensures df.Some? ==> (r.NoColumnsToDescribe? <==> |df.value.columns| == 0)
    ensures r.Described? ==> |r.descriptions| == |df.value.columns|
    ensures r.Described? ==> forall c :: 0 <= c < |r.descriptions| ==>
      r.descriptions[c] == Describe(df.value.columns[c], ColumnOf(df.value.rows, c))
  {
    if df.None? then NullTable
    else if |df.value.columns| == 0 then NoColumnsToDescribe
    else
      var t := df.value;
      Described(seq(|t.columns|, c requires 0 <= c < |t.columns| => Describe(t.columns[c], ColumnOf(t.rows, c))))
  }

  // ----- Session analysis -------------------------------------------------

  /** Inserts x into a strictly increasing sequence unless already there. */
  function InsertDistinct(x: real, s: seq<real>): (r: seq<real>)
    requires Stats.StrictlyIncreasing(s)
    ensures Stats.StrictlyIncreasing(r)
    ensures forall y :: y in r <==> y in s || y == x
  {
    if |s| == 0 then [x]
    else if x < s[0] then [x] + s
    else if x == s[0] then s
    else
      var rest := InsertDistinct(x, s[1..]);
      assert s == [s[0]] + s[1..];
      assert forall k :: 0 <= k < |rest| ==> s[0] < rest[k] by {
        forall k | 0 <= k < |rest| ensures s[0] < rest[k] {
          assert rest[k] in s[1..] || rest[k] == x;
        }
      }
      [s[0]] + rest
  }

  /** np.sort(Series.unique()): every distinct value once, ascending. */
  function SortedUnique(s: seq<real>): (r: seq<real>)
    ensures Stats.StrictlyIncreasing(r)
    ensures forall y :: y in r <==> y in s
  {
    if |s| == 0 then []
    else
      var init := s[..|s| - 1];
      assert forall y :: y in s <==> y in init || y == s[|s| - 1] by {
        assert s == init + [s[|s| - 1]];
      }
      InsertDistinct(s[|s| - 1], SortedUnique(init))
  }

  /** The sorted id list and nunique() agree: one entry per distinct id. */
  lemma SortedUniqueCount(s: seq<real>)
    ensures |SortedUnique(s)| == |Stats.Distinct(s)|
  {
    var r := SortedUnique(s);
    Stats.StrictlyIncreasingCardinality(r);
    assert Stats.Distinct(r) == Stats.Distinct(s);
  }

  /** The elapsed times of one session's rows, in row order. */
  function SelectedTimes(t: Table, id: real): (times: seq<real>)
    requires HasSessionColumns(t)
    ensures |times| == Stats.Count(ProfileColumn(t), id)
  {
    var rows := Matching(t.rows, Stats.IndexOf(t.columns, ProfileId), id);
    MatchingCount(t.rows, Stats.IndexOf(t.columns, ProfileId), id);
    MatchingWidth(t.rows, Stats.IndexOf(t.columns, ProfileId), id, |t.columns|);
    ColumnOf(rows, Stats.IndexOf(t.columns, ElapsedTime))
  }

  /** groupby('profile_id')['Tiempo_Segundos'].max() for one session. */
  function SessionDuration(t: Table, id: real): (d: real)
    requires HasSessionColumns(t) && id in ProfileColumn(t)
    ensures d in SelectedTimes(t, id)
    ensures forall j :: 0 <= j < |SelectedTimes(t, id)| ==> SelectedTimes(t, id)[j] <= d
  {
    Stats.CountZeroIff(ProfileColumn(t), id);
    Stats.Max(SelectedTimes(t, id))
  }

  datatype Duration = Duration(profile: real, seconds: real)

  /** Mean, minimum and maximum over the session durations. */
  datatype Aggregate = Aggregate(mean: real, min: real, max: real)

  datatype SessionReport = SessionReport(
    sessions: nat,               // nunique()
    ids: seq<real>,              // np.sort(unique())
    durations: seq<Duration>,    // one row per session, ascending by id
    summary: Option<Aggregate>)  // NaN (None) when there is no session

  function Seconds(ds: seq<Duration>): (s: seq<real>)
    ensures |s| == |ds| && forall k :: 0 <= k < |ds| ==> s[k] == ds[k].seconds
  {
    seq(|ds|, k requires 0 <= k < |ds| => ds[k].seconds)
  }

  function Summarize(s: seq<real>): (a: Option<Aggregate>)
    ensures a.None? <==> |s| == 0
    ensures a.Some? ==> a.value.mean == Stats.Mean(s)
    ensures a.Some? ==> a.value.min <= a.value.mean <= a.value.max
    ensures a.Some? ==> a.value.min in s && a.value.max in s
    ensures a.Some? ==> forall k :: 0 <= k < |s| ==> a.value.min <= s[k] <= a.value.max
  {
    if |s| == 0 then None
    else
      Stats.MeanBetweenMinAndMax(s);
      Some(Aggregate(Stats.Mean(s), Stats.Min(s), Stats.Max(s)))
  }

  /** groupby('profile_id')['Tiempo_Segundos'].max(): one duration per
      listed session, in list order. */
  function Durations(t: Table, ids: seq<real>): (ds: seq<Duration>)
    requires HasSessionColumns(t) && forall k :: 0 <= k < |ids| ==> ids[k] in ProfileColumn(t)
    ensures |ds| == |ids|
    ensures forall k :: 0 <= k < |ids| ==> ds[k].profile == ids[k] && ds[k].seconds == SessionDuration(t, ids[k])
  {
    seq(|ids|, k requires 0 <= k < |ids| => Duration(ids[k], SessionDuration(t, ids[k])))
  }

  /** analyze_profile_ids. */
  function AnalyzeProfileIds(df: Option<Table>): (r: Option<SessionReport>)
    requires df.Some? ==> HasSessionColumns(df.value)
    ensures df.None? <==> r.None?
    ensures r.Some? ==>
      var ids := ProfileColumn(df.value);
      var rep := r.value;
      && rep.sessions == |Stats.Distinct(ids)| == |rep.ids|
      && Stats.StrictlyIncreasing(rep.ids)
      && (forall x :: x in rep.ids <==> x in ids)
      && |rep.durations| == |rep.ids|
      && (forall k :: 0 <= k < |rep.ids| ==>
            && rep.durations[k].profile == rep.ids[k]
            && rep.ids[k] in ids
            && rep.durations[k].seconds == SessionDuration(df.value, rep.ids[k]))
      && rep.summary == Summarize(Seconds(rep.durations))
      && (rep.summary.None? <==> |df.value.rows| == 0)
  {
    if df.None? then None
    else
      var t := df.value;
      var ids := ProfileColumn(t);
      var sorted := SortedUnique(ids);
      SortedUniqueCount(ids);
      var durations := Durations(t, sorted);
      assert |ids| > 0 ==> ids[0] in sorted;
      assert |sorted| > 0 ==> sorted[0] in ids;
      Some(SessionReport(|Stats.Distinct(ids)|, sorted, durations, Summarize(Seconds(durations))))
  }

  /** On a table stamped by the cleaner, a session lasts half a second per
      row after its first: its duration is (rows - 1) / 2. */
  lemma DurationOfCleanedSession(t: Table, id: real)
    requires HasSessionColumns(t) && Cleaner.IsSessionClock(t) && id in ProfileColumn(t)
    ensures var p := Stats.IndexOf(t.columns, ProfileId);
      SessionDuration(t, id) == (|Matching(t.rows, p, id)| - 1) as real / 2.0
  {
    var p, c := Stats.IndexOf(t.columns, ProfileId), Stats.IndexOf(t.columns, ElapsedTime);
    ClockSelection(t.rows, |t.columns|, p, c, id, |t.rows|);
    var times := SelectedTimes(t, id);
    MatchingCount(t.rows, p, id);
    Stats.CountZeroIff(ProfileColumn(t), id);
    assert t.rows[..|t.rows|] == t.rows;
    assert ProfileColumn(t)[..|t.rows|] == ProfileColumn(t);
    var d := SessionDuration(t, id);
    var j :| 0 <= j < |times| && times[j] == d;
    assert times[|times| - 1] <= d;
  }

  /** Prefix by prefix: the selected times of a session on a session clock
      are 0, 0.5, 1.0, ... */
  lemma {:induction false} ClockSelection(rows: seq<seq<real>>, w: nat, p: nat, c: nat, id: real, n: nat)
    requires HasWidth(rows, w) && p < w && c < w && n <= |rows|
    requires forall i :: 0 <= i < |rows| ==> rows[i][c] == Cleaner.Elapsed(ColumnOf(rows, p), i)
    ensures var sel := ColumnOf(Matching(rows[..n], p, id), c);
      && |sel| == Stats.Count(ColumnOf(rows, p)[..n], id)
      && forall j :: 0 <= j < |sel| ==> sel[j] == j as real / 2.0
  {
    if n > 0 {
      ClockSelection(rows, w, p, c, id, n - 1);
      ClockSelectionStep(rows, w, p, c, id, n);
    }
  }

  /** One more row: the selection grows by that row exactly when it belongs
      to the session, and its time is then the number selected before it,
      halved. */
  lemma ClockSelectionStep(rows: seq<seq<real>>, w: nat, p: nat, c: nat, id: real, n: nat)
    requires HasWidth(rows, w) && p < w && c < w && 0 < n <= |rows|
    requires rows[n - 1][c] == Cleaner.Elapsed(ColumnOf(rows, p), n - 1)
    requires var sel := ColumnOf(Matching(rows[..n - 1], p, id), c);
      && |sel| == Stats.Count(ColumnOf(rows, p)[..n - 1], id)
      && forall j :: 0 <= j < |sel| ==> sel[j] == j as real / 2.0
    ensures var sel := ColumnOf(Matching(rows[..n], p, id), c);
      && |sel| == Stats.Count(ColumnOf(rows, p)[..n], id)
      && forall j :: 0 <= j < |sel| ==> sel[j] == j as real / 2.0
  {
    var ids := ColumnOf(rows, p);
    assert rows[..n][..n - 1] == rows[..n - 1];
    assert ids[..n][..n - 1] == ids[..n - 1];
    var before := Matching(rows[..n - 1], p, id);
    MatchingWidth(rows[..n - 1], p, id, w);
    var now := Matching(rows[..n], p, id);
    assert now == before + (if rows[n - 1][p] == id then [rows[n - 1]] else []);
    if rows[n - 1][p] == id {
      assert ColumnOf(now, c) == ColumnOf(before, c) + [rows[n - 1][c]];
    } else {
      assert now == before;
    }
  }

  // ----- Correlation ranking ----------------------------------------------

  /** The columns entering the correlation matrix: all but profile_id and
      Tiempo_Segundos, in table order. */
  function CorrelationColumns(cols: seq<string>): (r: seq<string>)
    ensures forall n :: n in r <==> n in cols && n != ProfileId && n != ElapsedTime
    ensures DistinctNames(cols) ==> DistinctNames(r)
  {
    if |cols| == 0 then []
    else
      var rest := CorrelationColumns(cols[1..]);
      assert forall n :: n in cols <==> n == cols[0] || n in cols[1..];
      assert DistinctNames(cols) ==> DistinctNames(cols[1..]) && cols[0] !in cols[1..];
      if cols[0] == ProfileId || cols[0] == ElapsedTime then rest else [cols[0]] + rest
  }

  /** Dropping the two columns keeps the remaining ones in table order: the
      filter distributes over concatenation. */
  lemma {:induction false} CorrelationColumnsAppend(a: seq<string>, b: seq<string>)
    ensures CorrelationColumns(a + b) == CorrelationColumns(a) + CorrelationColumns(b)
  {
    if |a| > 0 {
      assert (a + b)[1..] == a[1..] + b;
      CorrelationColumnsAppend(a[1..], b);
    } else {
      assert a + b == b;
    }
  }

  /** A single column is kept exactly when it is neither profile_id nor
      Tiempo_Segundos. */
  lemma CorrelationColumnsSingle(n: string)
    ensures CorrelationColumns([n]) == if n == ProfileId || n == ElapsedTime then [] else [n]
  {
    assert [n][1..] == [];
  }

  predicate CanCorrelate(t: Table, pmColumn: seq<real>) {
    && WellFormed(t) && ProfileId in t.columns && ElapsedTime in t.columns
    && RotorTemperature in t.columns
    && |pmColumn| == |CorrelationColumns(t.columns)|
  }

  datatype CorrelationReport = CorrelationReport(ranking: seq<Ranking.Entry>, top: seq<Ranking.Entry>)

  /** analyze_correlations, given the "pm" column of the correlation matrix
      (one coefficient per correlation column). */
  function AnalyzeCorrelations(df: Option<Table>, pmColumn: seq<real>): (r: Option<CorrelationReport>)
    requires df.Some? ==> CanCorrelate(df.value, pmColumn)
    ensures df.None? <==> r.None?
    ensures r.Some? ==>
      var entries := Ranking.Label(CorrelationColumns(df.value.columns), pmColumn);
      var rep := r.value;
      && Ranking.NonIncreasing(rep.ranking)
      && multiset(rep.ranking) == multiset(entries)
      && |rep.top| == (if |entries| >= 4 then 3 else |entries| - 1)
      && (forall k :: 0 <= k < |rep.top| ==> rep.top[k] == rep.ranking[k + 1])
      && Ranking.NonIncreasing(rep.top)
  {
    if df.None? then None
    else
      var cols := CorrelationColumns(df.value.columns);
      var ranking := Ranking.SortDescending(Ranking.Label(cols, pmColumn));
      assert |multiset(ranking)| == |cols|;
      Ranking.TopKeepsOrder(ranking);
      Some(CorrelationReport(ranking, Ranking.PositionsOneToThree(ranking)))
  }

  /** When rotor temperature's self-correlation strictly exceeds every other
      coefficient, it ranks first and the top three leave it out. */
  lemma TopLeavesOutSelf(t: Table, pmColumn: seq<real>)
    requires CanCorrelate(t, pmColumn)
    requires var cols := CorrelationColumns(t.columns);
      forall i :: 0 <= i < |cols| && cols[i] != RotorTemperature ==>
        pmColumn[i] < pmColumn[Stats.IndexOf(cols, RotorTemperature)]
    ensures var rep := AnalyzeCorrelations(Some(t), pmColumn).value;
      && rep.ranking[0].column == RotorTemperature
      && forall k :: 0 <= k < |rep.top| ==> rep.top[k].column != RotorTemperature
  {
    var cols := CorrelationColumns(t.columns);
    var entries := Ranking.Label(cols, pmColumn);
    var at := Stats.IndexOf(cols, RotorTemperature);
    var rep := AnalyzeCorrelations(Some(t), pmColumn).value;
    forall i | 0 <= i < |entries| && i != at
      ensures entries[i].column != RotorTemperature
    {
      if cols[i] == RotorTemperature {
        IndexOfDistinct(cols, i);
      }
    }
    Ranking.DistinctEntries(cols, pmColumn, entries[at]);
    Ranking.SelfRanksFirst(entries, rep.ranking, RotorTemperature, at);
  }
}
