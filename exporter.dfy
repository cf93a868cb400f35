/** The exporter (data_exporter.py): the fixed rename table that gives the
    columns reader-friendly names, and the choice of output format from the
    path's suffix. Writing the file itself is not modelled: the outcome
    records which writer would receive which table. */
module Exporter {

  import opened Frames
  import Stats

  /** The 14 renames, source name to friendly name. */
  const RenameTable: map<string, string> := map[
    "u_q" := "voltaje_q_v",
    "coolant" := "temperatura_refrigerante_c",
    "stator_winding" := "temperatura_devanado_estator_c",
    "u_d" := "voltaje_d_v",
    "stator_tooth" := "temperatura_diente_estator_c",
    "motor_speed" := "velocidad_motor_rpm",
    "i_d" := "corriente_d_a",
    "i_q" := "corriente_q_a",
    "pm" := "temperatura_rotor_c",
    "stator_yoke" := "temperatura_yugo_estator_c",
    "ambient" := "temperatura_ambiente_c",
    "torque" := "torque_nm",
    "profile_id" := "id_sesion_prueba",
    "Tiempo_Segundos" := "tiempo_sesion_segundos"
  ]

  const DefaultPath: string := "motor_data_powerbi_ready.csv"

  /** The set of friendly names. */
  function Targets(): (ts: set<string>)
    ensures forall n :: n in ts <==> exists s :: s in RenameTable && RenameTable[s] == n
  {
    set s | s in RenameTable :: RenameTable[s]
  }

  /** Different source names get different friendly names. */
  lemma TargetsDistinct()
    ensures forall a, b :: a in RenameTable && b in RenameTable && a != b ==> RenameTable[a] != RenameTable[b]
  {
  }

  /** No friendly name is itself a source name. */
  lemma TargetsNotRenamed()
    ensures forall a :: a in RenameTable ==> RenameTable[a] !in RenameTable
  {
  }

  /** One column name after renaming; names outside the table keep theirs. */
  function Rename(name: string): (r: string)
    ensures name in RenameTable ==> r == RenameTable[name]
    ensures name !in RenameTable ==> r == name
    ensures r !in RenameTable
  {
    TargetsNotRenamed();
    if name in RenameTable then RenameTable[name] else name
  }

  /** No source name of the table survives a rename, so renaming twice
      changes nothing more. */
  lemma RenameLeavesNoSourceName(name: string)
    ensures Rename(name) !in RenameTable
    ensures Rename(Rename(name)) == Rename(name)
  {
    TargetsNotRenamed();
  }

  /** Two different names keep different names unless one column already
      carries a friendly name that another column is renamed to. */
  lemma RenameInjective(a: string, b: string)
    requires a != b && a !in Targets() && b !in Targets()
    ensures Rename(a) != Rename(b)
  {
    TargetsDistinct();
  }

  /** A header holding both "u_q" and "voltaje_q_v" ends up with the name
      "voltaje_q_v" twice. */
  lemma RenameCanCollide()
    ensures Rename("u_q") == Rename("voltaje_q_v")
  {
  }

  function RenameColumns(cols: seq<string>): (r: seq<string>)
    ensures |r| == |cols|
    ensures forall i :: 0 <= i < |cols| ==> r[i] == Rename(cols[i])
  {
    seq(|cols|, i requires 0 <= i < |cols| => Rename(cols[i]))
  }

  /** The renamed copy of a table: same rows, same column order, and distinct
      names stay distinct when no column already has a friendly name. */
  function PowerBiReady(t: Table): (r: Table)
    ensures r.rows == t.rows && |r.columns| == |t.columns|
    ensures forall i :: 0 <= i < |t.columns| ==> r.columns[i] == Rename(t.columns[i])
    ensures forall i :: 0 <= i < |r.columns| ==> r.columns[i] !in RenameTable
    ensures WellFormed(t) && (forall i :: 0 <= i < |t.columns| ==> t.columns[i] !in Targets()) ==> WellFormed(r)
  {
    var cols := RenameColumns(t.columns);
    forall i | 0 <= i < |t.columns| ensures cols[i] !in RenameTable {
      RenameLeavesNoSourceName(t.columns[i]);
    }
    forall i, j | 0 <= i < j < |t.columns| && DistinctNames(t.columns) && t.columns[i] !in Targets() && t.columns[j] !in Targets()
      ensures cols[i] != cols[j]
    {
      RenameInjective(t.columns[i], t.columns[j]);
    }
    Table(cols, t.rows)
  }

  /** str.endswith: the last |suffix| characters of s are suffix, one by
      one. */
  predicate EndsWith(s: string, suffix: string): (b: bool)
    ensures b <==> |suffix| <= |s| && forall i :: 0 <= i < |suffix| ==> s[|s| - |suffix| + i] == suffix[i]
  {
    |suffix| <= |s| && s[|s| - |suffix|..] == suffix
  }

  datatype Format = Csv | Parquet

  datatype ExportOutcome =
    | NullInput
    | Written(format: Format, path: string, table: Table)
    | UnsupportedFormat

  /** export_powerbi_ready_data: nothing for a missing table; otherwise the
      renamed table goes to the CSV writer for a ".csv" path, to the Parquet
      writer for a ".parquet" path, and nowhere for any other path. */
  function ExportPowerBiReadyData(df: Option<Table>, path: string): (r: ExportOutcome)
    ensures df.None? <==> r.NullInput?
    ensures r.Written? ==> df.Some? && r.path == path && r.table == PowerBiReady(df.value)
    ensures df.Some? ==> (r.Written? && r.format == Csv <==> EndsWith(path, ".csv"))
    ensures df.Some? ==> (r.Written? && r.format == Parquet <==> EndsWith(path, ".parquet"))
    ensures df.Some? ==> (r.UnsupportedFormat? <==> !EndsWith(path, ".csv") && !EndsWith(path, ".parquet"))
  {
    if df.None? then NullInput
    else
      var ready := PowerBiReady(df.value);
      if EndsWith(path, ".csv") then
        SuffixesExclusive(path);
        Written(Csv, path, ready)
      else if EndsWith(path, ".parquet") then Written(Parquet, path, ready)
      else UnsupportedFormat
  }

  /** No path ends in both suffixes, so the order of the two tests does not
      matter. */
  lemma SuffixesExclusive(path: string)
    ensures EndsWith(path, ".csv") ==> !EndsWith(path, ".parquet")
  {
    if EndsWith(path, ".csv") {
      assert path[|path| - 1] == path[|path| - 4..][3] == 'v';
      if 8 <= |path| {
        assert path[|path| - 8..][7] == path[|path| - 1];
      }
    }
  }

  /** Called without a path, the exporter writes CSV. */
  lemma DefaultPathIsCsv(t: Table)
    ensures ExportPowerBiReadyData(Some(t), DefaultPath) == Written(Csv, DefaultPath, PowerBiReady(t))
  {
    assert DefaultPath[|DefaultPath| - 4..] == ".csv";
  }

  /** Exporting a table with a rotor-temperature column to the default path
      keeps every row and shows the column under its friendly name only. */
  lemma DefaultExportRenamesRotorTemperature(t: Table)
    requires RotorTemperature in t.columns
    ensures var r := ExportPowerBiReadyData(Some(t), DefaultPath);
      && r.Written? && r.format == Csv
      && r.table.rows == t.rows
      && "temperatura_rotor_c" in r.table.columns
      && RotorTemperature !in r.table.columns
  {
    DefaultPathIsCsv(t);
    var k := Stats.IndexOf(t.columns, RotorTemperature);
    assert PowerBiReady(t).columns[k] == "temperatura_rotor_c";
  }
}
