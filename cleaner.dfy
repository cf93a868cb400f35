/** The cleaner (data_cleaner.py): drop every row with a missing value, then
    give each surviving row the elapsed time of its session, its zero-based
    position among the earlier rows of the same profile_id divided by 2
    (2 Hz sampling). */
module Cleaner {

  import opened Frames
  import Stats

  /** The console messages the cleaner emits, in order. */
  datatype CleanMessage =
    | CannotCleanNull
    | Started
    | RowsRemoved(count: nat)
    | NoRowsRemoved
    | NullFree
    | NullsRemain(count: nat)
    | TimeColumnGenerated
    | Finished

  /** dropna(): the complete rows, in their original order. */
  function DropMissing(rows: seq<seq<Cell>>): (kept: seq<seq<Cell>>)
    ensures |kept| <= |rows|
    ensures forall i :: 0 <= i < |kept| ==> IsComplete(kept[i]) && kept[i] in rows
  {
    if |rows| == 0 then []
    else
      var last := rows[|rows| - 1];
      var init := DropMissing(rows[..|rows| - 1]);
      assert forall i :: 0 <= i < |init| ==> init[i] in rows by {
        assert rows == rows[..|rows| - 1] + [last];
      }
      init + (if IsComplete(last) then [last] else [])
  }

  /** A row is kept exactly when it is an input row with no missing cell. */
  lemma {:induction false} DropMissingMembers(rows: seq<seq<Cell>>, row: seq<Cell>)
    ensures row in DropMissing(rows) <==> row in rows && IsComplete(row)
  {
    if |rows| > 0 {
      DropMissingMembers(rows[..|rows| - 1], row);
      assert rows == rows[..|rows| - 1] + [rows[|rows| - 1]];
    }
  }

  /** Filtering a concatenation filters each part: relative order is kept. */
  lemma {:induction false} DropMissingAppend(a: seq<seq<Cell>>, b: seq<seq<Cell>>)
    ensures DropMissing(a + b) == DropMissing(a) + DropMissing(b)
  {
    if |b| == 0 {
      assert a + b == a;
    } else {
      assert (a + b)[..|a + b| - 1] == a + b[..|b| - 1];
      DropMissingAppend(a, b[..|b| - 1]);
    }
  }

  /** Nothing is dropped exactly when every input row is complete. */
  lemma {:induction false} DropMissingKeepsAll(rows: seq<seq<Cell>>)
    ensures |DropMissing(rows)| == |rows| <==> forall i :: 0 <= i < |rows| ==> IsComplete(rows[i])
  {
    if |rows| > 0 {
      var init := rows[..|rows| - 1];
      DropMissingKeepsAll(init);
      assert forall i :: 0 <= i < |init| ==> init[i] == rows[i];
    }
  }

  /** Missing cells of one row. */
  function MissingInRow(row: seq<Cell>): (n: nat)
    ensures n == 0 <==> IsComplete(row)
  {
    if |row| == 0 then 0
    else
      assert forall c :: 0 <= c < |row| - 1 ==> row[..|row| - 1][c] == row[c];
      MissingInRow(row[..|row| - 1]) + (if row[|row| - 1].None? then 1 else 0)
  }

  /** Total missing cells of a table (isnull().sum().sum()). */
  function MissingCount(rows: seq<seq<Cell>>): (n: nat)
    ensures n == 0 <==> forall i :: 0 <= i < |rows| ==> IsComplete(rows[i])
  {
    if |rows| == 0 then 0
    else
      var init := rows[..|rows| - 1];
      assert forall i :: 0 <= i < |init| ==> init[i] == rows[i];
      MissingCount(init) + MissingInRow(rows[|rows| - 1])
  }

  /** After dropna() no missing cell is left, so the warning branch of the
      cleaner can never be taken. */
  lemma {:induction false} NoMissingAfterDrop(rows: seq<seq<Cell>>)
    ensures MissingCount(DropMissing(rows)) == 0
  {
    if |rows| > 0 {
      var last := rows[|rows| - 1];
      NoMissingAfterDrop(rows[..|rows| - 1]);
      var init := DropMissing(rows[..|rows| - 1]);
      if IsComplete(last) {
        assert (init + [last])[..|init|] == init;
      } else {
        assert init + [] == init;
      }
    }
  }

  /** The cells of a complete row, as reals. */
  function Values(row: seq<Cell>): (r: seq<real>)
    requires IsComplete(row)
    ensures |r| == |row| && forall c :: 0 <= c < |row| ==> row[c] == Some(r[c])
  {
    seq(|row|, c requires 0 <= c < |row| => row[c].value)
  }

  function AllValues(rows: seq<seq<Cell>>, width: nat): (r: seq<seq<real>>)
    requires HasWidth(rows, width)
    requires forall i :: 0 <= i < |rows| ==> IsComplete(rows[i])
    ensures |r| == |rows| && HasWidth(r, width)
    ensures forall i, c :: 0 <= i < |rows| && 0 <= c < width ==> rows[i][c] == Some(r[i][c])
  {
    seq(|rows|, i requires 0 <= i < |rows| => Values(rows[i]))
  }

  /** Where the time column goes: assigning df['Tiempo_Segundos'] overwrites
      an existing column of that name and appends one otherwise. */
  function TimeIndex(cols: seq<string>): (k: nat)
    ensures k <= |cols|
    ensures k < |cols| <==> ElapsedTime in cols
  {
    if ElapsedTime in cols then Stats.IndexOf(cols, ElapsedTime) else |cols|
  }

  function WithTimeColumn(cols: seq<string>): (r: seq<string>)
    ensures ElapsedTime in r
    ensures DistinctNames(cols) ==> DistinctNames(r)
    ensures forall n :: n in cols ==> n in r
  {
    if ElapsedTime in cols then cols else cols + [ElapsedTime]
  }

  /** A row with its time cell set. */
  function Stamp(row: seq<real>, k: nat, t: real): (r: seq<real>)
    requires k <= |row|
    ensures |r| == if k < |row| then |row| else |row| + 1
    ensures r[k] == t
    ensures forall c :: 0 <= c < |row| && c != k ==> r[c] == row[c]
  {
    if k < |row| then row[k := t] else row + [t]
  }

  /** Zero-based position of row i among the rows of its session
      (groupby('profile_id').cumcount()). */
  function SessionOrdinal(ids: seq<real>, i: nat): nat
    requires i < |ids|
  {
    Stats.Count(ids[..i], ids[i])
  }

  /** Elapsed seconds of row i: its session ordinal over a 2 Hz rate. */
  function Elapsed(ids: seq<real>, i: nat): real
    requires i < |ids|
  {
    SessionOrdinal(ids, i) as real / 2.0
  }

  /** The time column of t holds, for every row, the elapsed time of that
      row within its session. */
  predicate IsSessionClock(t: Table)
    requires WellFormed(t) && ProfileId in t.columns && ElapsedTime in t.columns
  {
    var ids := ColumnOf(t.rows, Stats.IndexOf(t.columns, ProfileId));
    var c := Stats.IndexOf(t.columns, ElapsedTime);
    forall i :: 0 <= i < |t.rows| ==> t.rows[i][c] == Elapsed(ids, i)
  }

  /** What the cleaner promises of its output table: the kept rows, every
      original cell unchanged, the time column added and holding each row's
      session time. */
  predicate Prepared(raw: RawTable, out: Table)
    requires RawWellFormed(raw)
  {
    var kept := DropMissing(raw.rows);
    var k := TimeIndex(raw.columns);
    && out.columns == WithTimeColumn(raw.columns)
    && WellFormed(out)
    && |out.rows| == |kept|
    && (forall i, c :: 0 <= i < |kept| && 0 <= c < |raw.columns| && c != k ==>
          c < |kept[i]| && kept[i][c] == Some(out.rows[i][c]))
    && ProfileId in out.columns
    && IsSessionClock(out)
  }

  /** The cleaner's messages, in order: start, the removal report (with the
      count exactly when rows were dropped), the null-free confirmation,
      the time-column notice and the end. */
  predicate Reported(raw: RawTable, log: seq<CleanMessage>) {
    var removed := |raw.rows| - |DropMissing(raw.rows)|;
    log == [Started, if removed > 0 then RowsRemoved(removed) else NoRowsRemoved, NullFree,
            TimeColumnGenerated, Finished]
  }

  /** clean_and_prepare_data: a missing table is refused; otherwise the
      incomplete rows are dropped, the remaining cells are checked for
      nulls, and the time column is added, each step reported. */
  method CleanAndPrepareData(df: Option<RawTable>) returns (result: Option<Table>, log: seq<CleanMessage>)
    requires df.Some? ==> RawWellFormed(df.value) && ProfileId in df.value.columns
    ensures df.None? ==> result == None && log == [CannotCleanNull]
    ensures df.Some? ==> result.Some? && Prepared(df.value, result.value) && Reported(df.value, log)
  {
    if df.None? {
      return None, [CannotCleanNull];
    }
    var raw := df.value;
    var kept := DropMissing(raw.rows);
    var removed := |raw.rows| - |kept|;
    var removal := if |raw.rows| > |kept| then RowsRemoved(removed) else NoRowsRemoved;
    var nulls := MissingCount(kept);
    var check := if nulls == 0 then NullFree else NullsRemain(nulls);
    NoMissingAfterDrop(raw.rows);
    assert check == NullFree;
    var out := PrepareTable(raw);
    result := Some(out);
    log := [Started, removal, check, TimeColumnGenerated, Finished];
  }

  /** The table part of the cleaner: the complete rows, with the elapsed
      time of each row within its session in the time column. */
  method PrepareTable(raw: RawTable) returns (out: Table)
    requires RawWellFormed(raw) && ProfileId in raw.columns
    ensures Prepared(raw, out)
  {
    var kept := DropMissing(raw.rows);
    var width := |raw.columns|;
    forall i | 0 <= i < |kept| ensures |kept[i]| == width {
      assert kept[i] in raw.rows;
    }
    var values := AllValues(kept, width);
    var p := Stats.IndexOf(raw.columns, ProfileId);
    var k := TimeIndex(raw.columns);
    var ids := ColumnOf(values, p);
    var times := ElapsedTimes(ids);
    var rows := StampColumn(values, width, k, times);
    StampedIsClock(raw.columns, values, ids, times);
    StampKeepsCells(kept, values, width, k, times);
    out := Table(WithTimeColumn(raw.columns), rows);
  }

  /** What the log tells its reader: the removed count appears exactly when
      rows were dropped, "no rows removed" exactly when none were, and the
      leftover-missing warning never appears. */
  lemma ReportedMessages(raw: RawTable, log: seq<CleanMessage>)
    requires Reported(raw, log)
    ensures var removed := |raw.rows| - |DropMissing(raw.rows)|;
      && |log| == 5 && log[0] == Started && log[4] == Finished
      && (RowsRemoved(removed) in log <==> removed > 0)
      && (NoRowsRemoved in log <==> removed == 0)
      && (forall m :: m in log && m.RowsRemoved? ==> m.count == removed)
      && NullFree in log && TimeColumnGenerated in log
      && (forall m :: m in log ==> !m.NullsRemain?)
  {
  }

  /** groupby('profile_id').cumcount() / 2: one pass over the session ids
      keeping a running count per session. */
  method ElapsedTimes(ids: seq<real>) returns (times: seq<real>)
    ensures |times| == |ids|
    ensures forall j :: 0 <= j < |ids| ==> times[j] == Elapsed(ids, j)
  {
    var counts: map<real, nat> := map[];
    times := [];
    var i := 0;
    while i < |ids|
      invariant 0 <= i <= |ids|
      invariant |times| == i
      invariant forall j :: 0 <= j < i ==> times[j] == Elapsed(ids, j)
      invariant forall x :: Stats.Count(ids[..i], x) == if x in counts then counts[x] else 0
    {
      var id := ids[i];
      var n := if id in counts then counts[id] else 0;
      times := times + [n as real / 2.0];
      assert ids[..i + 1][..i] == ids[..i];
      counts := counts[id := n + 1];
      i := i + 1;
    }
  }

  /** Assigns the time column: row j gets times[j] at position k. */
  function StampColumn(values: seq<seq<real>>, width: nat, k: nat, times: seq<real>): (rows: seq<seq<real>>)
    requires HasWidth(values, width) && k <= width && |times| == |values|
    ensures |rows| == |values|
    ensures forall j :: 0 <= j < |values| ==> rows[j] == Stamp(values[j], k, times[j])
  {
    seq(|values|, j requires 0 <= j < |values| => Stamp(values[j], k, times[j]))
  }

  /** Stamping every row with its session time yields a well-formed table
      whose time column is a session clock. */
  lemma StampedIsClock(cols: seq<string>, values: seq<seq<real>>, ids: seq<real>, times: seq<real>)
    requires DistinctNames(cols) && ProfileId in cols && HasWidth(values, |cols|)
    requires ids == ColumnOf(values, Stats.IndexOf(cols, ProfileId))
    requires |times| == |values| && forall j :: 0 <= j < |values| ==> times[j] == Elapsed(ids, j)
    ensures var out := Table(WithTimeColumn(cols), StampColumn(values, |cols|, TimeIndex(cols), times));
      WellFormed(out) && ProfileId in out.columns && IsSessionClock(out)
  {
    var p, k := Stats.IndexOf(cols, ProfileId), TimeIndex(cols);
    var rows := StampColumn(values, |cols|, k, times);
    var out := Table(WithTimeColumn(cols), rows);
    TimeColumnIndices(cols);
    StampedWidth(values, |cols|, k, times);
    StampKeepsColumn(values, |cols|, k, times, p);
    ClockFromColumns(out, p, k, ids);
  }

  lemma ClockFromColumns(t: Table, p: nat, k: nat, ids: seq<real>)
    requires WellFormed(t) && ProfileId in t.columns && ElapsedTime in t.columns
    requires Stats.IndexOf(t.columns, ProfileId) == p && Stats.IndexOf(t.columns, ElapsedTime) == k
    requires ColumnOf(t.rows, p) == ids
    requires forall i :: 0 <= i < |t.rows| ==> t.rows[i][k] == Elapsed(ids, i)
    ensures IsSessionClock(t)
  {
  }

  lemma TimeColumnIndices(cols: seq<string>)
    requires DistinctNames(cols) && ProfileId in cols
    ensures var out := WithTimeColumn(cols);
      && Stats.IndexOf(out, ProfileId) == Stats.IndexOf(cols, ProfileId)
      && Stats.IndexOf(out, ElapsedTime) == TimeIndex(cols)
      && Stats.IndexOf(cols, ProfileId) != TimeIndex(cols)
      && |out| == if ElapsedTime in cols then |cols| else |cols| + 1
  {
    if ElapsedTime !in cols {
      IndexOfAppend(cols, [ElapsedTime], ProfileId);
      IndexOfDistinct(cols + [ElapsedTime], |cols|);
    }
  }

  lemma StampKeepsCells(kept: seq<seq<Cell>>, values: seq<seq<real>>, width: nat, k: nat, times: seq<real>)
    requires HasWidth(values, width) && HasWidth(kept, width) && k <= width && |times| == |values| && |kept| == |values|
    requires forall i, c :: 0 <= i < |kept| && 0 <= c < width ==> kept[i][c] == Some(values[i][c])
    ensures var rows := StampColumn(values, width, k, times);
      forall i, c :: 0 <= i < |kept| && 0 <= c < width && c != k ==> kept[i][c] == Some(rows[i][c])
  {
  }

  lemma StampedWidth(values: seq<seq<real>>, width: nat, k: nat, times: seq<real>)
    requires HasWidth(values, width) && k <= width && |times| == |values|
    ensures HasWidth(StampColumn(values, width, k, times), if k < width then width else width + 1)
  {
  }

  lemma StampKeepsColumn(values: seq<seq<real>>, width: nat, k: nat, times: seq<real>, p: nat)
    requires HasWidth(values, width) && k <= width && |times| == |values| && p < width && p != k
    ensures ColumnOf(StampColumn(values, width, k, times), p) == ColumnOf(values, p)
  {
  }

  /** A row's time is 0 exactly when no earlier row belongs to its session:
      every session starts at 0. */
  lemma SessionStartsAtZero(ids: seq<real>, i: nat)
    requires i < |ids|
    ensures Elapsed(ids, i) == 0.0 <==> forall j :: 0 <= j < i ==> ids[j] != ids[i]
  {
    Stats.CountZeroIff(ids[..i], ids[i]);
  }

  /** The next row of the same session is stamped exactly half a second
      later. */
  lemma SessionStepIsHalfSecond(ids: seq<real>, i: nat, j: nat)
    requires i < j < |ids| && ids[i] == ids[j]
    requires forall k :: i < k < j ==> ids[k] != ids[i]
    ensures Elapsed(ids, j) == Elapsed(ids, i) + 0.5
  {
    var x := ids[i];
    assert ids[..j] == ids[..i] + [x] + ids[i + 1..j];
    Stats.CountAppend(ids[..i] + [x], ids[i + 1..j], x);
    Stats.CountAppend(ids[..i], [x], x);
    assert [x][..0] == [];
    Stats.CountZeroIff(ids[i + 1..j], x);
  }

  /** Within a session, later rows have strictly later times. */
  lemma {:induction false} SessionTimeIncreases(ids: seq<real>, i: nat, j: nat)
    requires i < j < |ids| && ids[i] == ids[j]
    ensures Elapsed(ids, i) < Elapsed(ids, j)
  {
    var x := ids[i];
    assert ids[..j] == ids[..i] + ids[i..j];
    Stats.CountAppend(ids[..i], ids[i..j], x);
    Stats.CountZeroIff(ids[i..j], x);
    assert ids[i..j][0] == x;
  }

  /** The same facts read off a table whose time column is a session clock
      (as the cleaner's output is). */
  lemma ClockStartsAtZero(t: Table, i: nat)
    requires WellFormed(t) && ProfileId in t.columns && ElapsedTime in t.columns
    requires IsSessionClock(t) && i < |t.rows|
    ensures var p, c := Stats.IndexOf(t.columns, ProfileId), Stats.IndexOf(t.columns, ElapsedTime);
      t.rows[i][c] == 0.0 <==> forall j :: 0 <= j < i ==> t.rows[j][p] != t.rows[i][p]
  {
    var p := Stats.IndexOf(t.columns, ProfileId);
    var ids := ColumnOf(t.rows, p);
    SessionStartsAtZero(ids, i);
  }

  lemma ClockStepIsHalfSecond(t: Table, i: nat, j: nat)
    requires WellFormed(t) && ProfileId in t.columns && ElapsedTime in t.columns
    requires IsSessionClock(t) && i < j < |t.rows|
    requires var p := Stats.IndexOf(t.columns, ProfileId);
      t.rows[i][p] == t.rows[j][p] && forall k :: i < k < j ==> t.rows[k][p] != t.rows[i][p]
    ensures var c := Stats.IndexOf(t.columns, ElapsedTime); t.rows[j][c] == t.rows[i][c] + 0.5
  {
    var p := Stats.IndexOf(t.columns, ProfileId);
    var ids := ColumnOf(t.rows, p);
    SessionStepIsHalfSecond(ids, i, j);
  }
}
