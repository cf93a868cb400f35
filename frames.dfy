/** Tables as the pipeline sees them: a header of column names and a sequence
    of rows. A raw table (as loaded) may hold missing cells; a cleaned table
    holds a real number in every cell. */
module Frames {

  import Stats

  datatype Option<T> = None | Some(value: T)

  /** One cell of a loaded table: None stands for a missing value (NaN). */
  type Cell = Option<real>

  datatype RawTable = RawTable(columns: seq<string>, rows: seq<seq<Cell>>)

  datatype Table = Table(columns: seq<string>, rows: seq<seq<real>>)

  /** The session identifier column. */
  const ProfileId: string := "profile_id"
  /** The synthesised elapsed-time column. */
  const ElapsedTime: string := "Tiempo_Segundos"
  /** Rotor temperature, the variable of primary interest. */
  const RotorTemperature: string := "pm"

  predicate DistinctNames(cols: seq<string>) {
    forall i, j :: 0 <= i < j < |cols| ==> cols[i] != cols[j]
  }

  predicate HasWidth<T>(rows: seq<seq<T>>, width: nat) {
    forall i :: 0 <= i < |rows| ==> |rows[i]| == width
  }

  /** Every row has one cell per column and the header names are distinct
      (the CSV reader renames repeated headers, so a loaded table never
      repeats a name). */
  predicate RawWellFormed(t: RawTable) {
    DistinctNames(t.columns) && HasWidth(t.rows, |t.columns|)
  }

  predicate WellFormed(t: Table) {
    DistinctNames(t.columns) && HasWidth(t.rows, |t.columns|)
  }

  predicate HasColumns(t: Table, names: seq<string>) {
    forall n :: n in names ==> n in t.columns
  }

  lemma {:induction false} IndexOfAppend(cols: seq<string>, extra: seq<string>, name: string)
    requires name in cols
    ensures name in cols + extra && Stats.IndexOf(cols + extra, name) == Stats.IndexOf(cols, name)
  {
    if cols[0] != name {
      assert (cols + extra)[1..] == cols[1..] + extra;
      IndexOfAppend(cols[1..], extra, name);
    }
  }

  lemma IndexOfDistinct(cols: seq<string>, k: nat)
    requires DistinctNames(cols) && k < |cols|
    ensures Stats.IndexOf(cols, cols[k]) == k
  {
  }

  /** True when no cell of the row is missing. */
  predicate IsComplete(row: seq<Cell>) {
    forall c :: 0 <= c < |row| ==> row[c].Some?
  }

  /** The values of one column, in row order. */
  function ColumnOf(rows: seq<seq<real>>, c: nat): (col: seq<real>)
    requires forall i :: 0 <= i < |rows| ==> c < |rows[i]|
    ensures |col| == |rows|
    ensures forall i :: 0 <= i < |rows| ==> col[i] == rows[i][c]
  {
    seq(|rows|, i requires 0 <= i < |rows| => rows[i][c])
  }

  lemma ColumnOfPrefix(rows: seq<seq<real>>, c: nat, n: nat)
    requires forall i :: 0 <= i < |rows| ==> c < |rows[i]|
    requires n <= |rows|
    ensures ColumnOf(rows[..n], c) == ColumnOf(rows, c)[..n]
  {
  }

  /** The rows whose cell in column c equals v, in their original order
      (the boolean-mask selection df[df[col] == v]). */
  function Matching(rows: seq<seq<real>>, c: nat, v: real): (r: seq<seq<real>>)
    requires forall i :: 0 <= i < |rows| ==> c < |rows[i]|
    ensures |r| <= |rows|
    ensures forall i :: 0 <= i < |r| ==> r[i] in rows && c < |r[i]| && r[i][c] == v
  {
    if |rows| == 0 then []
    else
      var last := rows[|rows| - 1];
      Matching(rows[..|rows| - 1], c, v) + (if last[c] == v then [last] else [])
  }

  /** A session has as many rows as its identifier has occurrences. */
  lemma {:induction false} MatchingCount(rows: seq<seq<real>>, c: nat, v: real)
    requires forall i :: 0 <= i < |rows| ==> c < |rows[i]|
    ensures |Matching(rows, c, v)| == Stats.Count(ColumnOf(rows, c), v)
  {
    if |rows| > 0 {
      var n := |rows| - 1;
      MatchingCount(rows[..n], c, v);
      ColumnOfPrefix(rows, c, n);
    }
  }

  /** The selection is empty exactly when no row carries the value. */
  lemma MatchingEmptyIff(rows: seq<seq<real>>, c: nat, v: real)
    requires forall i :: 0 <= i < |rows| ==> c < |rows[i]|
    ensures Matching(rows, c, v) == [] <==> v !in ColumnOf(rows, c)
  {
    MatchingCount(rows, c, v);
    Stats.CountZeroIff(ColumnOf(rows, c), v);
  }

  /** Selecting from a concatenation selects from each part, in order: the
      selection keeps the original relative order of the rows. */
  lemma {:induction false} MatchingAppend(a: seq<seq<real>>, b: seq<seq<real>>, c: nat, v: real)
    requires forall i :: 0 <= i < |a| ==> c < |a[i]|
    requires forall i :: 0 <= i < |b| ==> c < |b[i]|
    ensures Matching(a + b, c, v) == Matching(a, c, v) + Matching(b, c, v)
  {
    if |b| == 0 {
      assert a + b == a;
    } else {
      var n := |b| - 1;
      assert (a + b)[..|a + b| - 1] == a + b[..n];
      MatchingAppend(a, b[..n], c, v);
    }
  }

  /** Selected rows keep the table's width. */
  lemma {:induction false} MatchingWidth(rows: seq<seq<real>>, c: nat, v: real, w: nat)
    requires HasWidth(rows, w) && c < w
    ensures HasWidth(Matching(rows, c, v), w)
  {
    if |rows| > 0 {
      MatchingWidth(rows[..|rows| - 1], c, v, w);
    }
  }
}
