/** The run log: one summary record appended to log.xlsx per pipeline run. */
module RunLog {
  import opened Tables

  const LogColumns: set<string> :=
    {"timestamp", "files_processed", "total_gpkg_rows_merged", "final_rows_saved", "note"}

  datatype LogEntry = LogEntry(timestamp: string, filesProcessed: int, totalMerged: int,
                               finalSaved: int, note: string)

  function EntryRow(e: LogEntry): (r: Row)
    ensures r.Keys == LogColumns
  {
    map["timestamp" := Text(e.timestamp),
        "files_processed" := Int(e.filesProcessed),
        "total_gpkg_rows_merged" := Int(e.totalMerged),
        "final_rows_saved" := Int(e.finalSaved),
        "note" := Text(e.note)]
  }

  function EntryFrame(e: LogEntry): Frame {
    Frame(None, LogColumns, [EntryRow(e)])
  }

  /** update_excel_log: the existing log (when there is one) with the new record
      concatenated after it; otherwise the new record alone. */
  function AppendLog(existing: Option<Frame>, e: LogEntry): Frame {
    match existing
    case None => EntryFrame(e)
    case Some(f) => Concat([f, EntryFrame(e)])
  }

  /** The new log is the old one, record for record, followed by exactly one record
      carrying the five summary fields (and NaN in any other column the old log had). */
  lemma {:induction false} LogAppended(existing: Option<Frame>, e: LogEntry)
    ensures var log := AppendLog(existing, e);
      var before := if existing.Some? then existing.value.rows else [];
      && |log.rows| == |before| + 1
      && log.columns == (if existing.Some? then existing.value.columns else {}) + LogColumns
      && (forall k, c :: 0 <= k < |before| && existing.Some? && c in existing.value.columns ==>
            Cell(log.rows[k], c) == Cell(before[k], c))
      && (forall c :: c in log.columns ==> Cell(log.rows[|before|], c) == Cell(EntryRow(e), c))
  {
    if existing.Some? {
      var f := existing.value;
      var fs := [f, EntryFrame(e)];
      var log := Concat(fs);
      assert fs[..0] == [] && fs[..1] == [f] && fs[..2] == fs;
      assert AllColumns(fs) == f.columns + LogColumns by {
        assert AllColumns(fs[..1]) == f.columns;
      }
      assert TotalRows(fs) == |f.rows| + 1 by {
        assert TotalRows(fs[..1]) == |f.rows|;
      }
      forall k, c | 0 <= k < |f.rows| && c in f.columns ensures Cell(log.rows[k], c) == Cell(f.rows[k], c) {
        ConcatAgrees(fs, 0, k, c);
      }
      forall c | c in log.columns ensures Cell(log.rows[|f.rows|], c) == Cell(EntryRow(e), c) {
        ConcatAgrees(fs, 1, 0, c);
        assert TotalRows(fs[..1]) == |f.rows|;
      }
    }
  }
}
