/** The deduplication step: drop_duplicates(subset=['geometry', 'species', 'observer'])
    with pandas' default keep='first', and the file handling around it. */
module Dedup {
  import opened Tables

  const SpeciesKey := "species"
  const ObserverKey := "observer"

  type Key = (Value, Value, Value)

  function KeyOf(r: Row): Key {
    (Cell(r, GeometryColumn), Cell(r, SpeciesKey), Cell(r, ObserverKey))
  }

  /** Record i is the first with its key. */
  predicate IsFirst(rows: seq<Row>, i: int) {
    0 <= i < |rows| && forall j :: 0 <= j < i ==> KeyOf(rows[j]) != KeyOf(rows[i])
  }

  predicate Increasing(idx: seq<int>) {
    forall a, b :: 0 <= a < b < |idx| ==> idx[a] < idx[b]
  }

  predicate DistinctKeys(rows: seq<Row>) {
    forall a, b :: 0 <= a < b < |rows| ==> KeyOf(rows[a]) != KeyOf(rows[b])
  }

  /** The positions drop_duplicates keeps: exactly the first occurrence of each key,
      in their original order. */
  function KeptPositions(rows: seq<Row>): (idx: seq<int>)
    ensures |idx| <= |rows|
    ensures Increasing(idx)
    ensures forall k :: 0 <= k < |idx| ==> 0 <= idx[k] < |rows|
    ensures forall i :: 0 <= i < |rows| ==> (i in idx <==> IsFirst(rows, i))
  {
    if |rows| == 0 then []
    else
      var n := |rows|;
      var init := rows[..n - 1];
      assert forall i :: 0 <= i < n - 1 ==> IsFirst(init, i) == IsFirst(rows, i) by {
        forall i | 0 <= i < n - 1 ensures IsFirst(init, i) == IsFirst(rows, i) {
          assert forall j :: 0 <= j <= i ==> init[j] == rows[j];
        }
      }
      KeptPositions(init) + if IsFirst(rows, n - 1) then [n - 1] else []
  }

  /** The surviving records. */
  function DropDuplicates(rows: seq<Row>): (out: seq<Row>)
    ensures |out| == |KeptPositions(rows)| <= |rows|
    ensures forall k :: 0 <= k < |out| ==> out[k] == rows[KeptPositions(rows)[k]]
  {
    var idx := KeptPositions(rows);
    seq(|idx|, k requires 0 <= k < |idx| => rows[idx[k]])
  }

  /** No two surviving records share a (geometry, species, observer) triple. */
  lemma DedupDistinct(rows: seq<Row>)
    ensures DistinctKeys(DropDuplicates(rows))
  {
    var idx := KeptPositions(rows);
    var out := DropDuplicates(rows);
    forall a, b | 0 <= a < b < |out| ensures KeyOf(out[a]) != KeyOf(out[b]) {
      assert idx[b] in idx;
      assert IsFirst(rows, idx[b]);
    }
  }

  lemma {:induction false} FirstOfKey(rows: seq<Row>, i: nat) returns (j: nat)
    requires i < |rows|
    ensures j <= i && IsFirst(rows, j) && KeyOf(rows[j]) == KeyOf(rows[i])
    decreases i
  {
    if IsFirst(rows, i) {
      j := i;
    } else {
      var e :| 0 <= e < i && KeyOf(rows[e]) == KeyOf(rows[i]);
      j := FirstOfKey(rows, e);
    }
  }

  /** Every key of the input survives, carried by the record that first had it. */
  lemma DedupKeepsEveryKey(rows: seq<Row>, i: nat)
    requires i < |rows|
    ensures exists k :: 0 <= k < |DropDuplicates(rows)| && KeyOf(DropDuplicates(rows)[k]) == KeyOf(rows[i])
  {
    var j := FirstOfKey(rows, i);
    var idx := KeptPositions(rows);
    assert j in idx;
    var k :| 0 <= k < |idx| && idx[k] == j;
    assert DropDuplicates(rows)[k] == rows[j];
  }

  lemma {:induction false} KeepsAllWhenDistinct(rows: seq<Row>)
    requires forall i :: 0 <= i < |rows| ==> IsFirst(rows, i)
    ensures KeptPositions(rows) == seq(|rows|, i => i)
  {
    if |rows| > 0 {
      var n := |rows|;
      var init := rows[..n - 1];
      forall i | 0 <= i < n - 1 ensures IsFirst(init, i) {
        assert IsFirst(rows, i);
        assert forall j :: 0 <= j <= i ==> init[j] == rows[j];
      }
      KeepsAllWhenDistinct(init);
    }
  }

  lemma {:induction false} DropsWhenRepeated(rows: seq<Row>, i: nat)
    requires i < |rows| && !IsFirst(rows, i)
    ensures |KeptPositions(rows)| < |rows|
  {
    var n := |rows|;
    var init := rows[..n - 1];
    if i < n - 1 {
      assert !IsFirst(init, i) by {
        assert forall j :: 0 <= j <= i ==> init[j] == rows[j];
      }
      DropsWhenRepeated(init, i);
    }
  }

  /** The output is as long as the input exactly when no triple repeats. */
  lemma DedupKeepsLengthIff(rows: seq<Row>)
    ensures |DropDuplicates(rows)| == |rows| <==> DistinctKeys(rows)
  {
    if DistinctKeys(rows) {
      KeepsAllWhenDistinct(rows);
    } else {
      var a, b :| 0 <= a < b < |rows| && KeyOf(rows[a]) == KeyOf(rows[b]);
      DropsWhenRepeated(rows, b);
    }
  }

  /** Deduplicating twice changes nothing more. */
  lemma DedupIdempotent(rows: seq<Row>)
    ensures DropDuplicates(DropDuplicates(rows)) == DropDuplicates(rows)
  {
    var out := DropDuplicates(rows);
    DedupDistinct(rows);
    KeepsAllWhenDistinct(out);
  }

  datatype Deduped = Deduped(kept: Frame, removed: int)

  /** Concatenating the merged frame with the main file, brought to EPSG:4326 when it
      has a system, fails when both have a system and they differ. */
  predicate CrsClash(merged: Frame, existing: Stored) {
    existing.Stored? && existing.frame.crs.Some? && merged.crs.Some? && merged.crs.value != TargetCrs
  }

  /** remove_duplicates_from_gpkg. The input is the merged file; the existing main file is
      read (and reprojected) but never used, so it matters only when reading it fails.
      Failure is the `False` return: an unreadable file, a clash of coordinate systems
      or a missing key column. */
  function RemoveDuplicates(input: Stored, existing: Stored): (r: Result<Deduped>)
    ensures r.Success? <==>
      && input.Stored? && !existing.Corrupt? && !CrsClash(input.frame, existing)
      && {GeometryColumn, SpeciesKey, ObserverKey} <= input.frame.columns
    ensures r == Failure(CrsMismatch) <==>
      input.Stored? && !existing.Corrupt? && CrsClash(input.frame, existing)
    ensures r.Success? ==> && r.value.kept.columns == input.frame.columns
                           && r.value.kept.crs == input.frame.crs
                           && r.value.kept.rows == DropDuplicates(input.frame.rows)
                           && 0 <= r.value.removed == |input.frame.rows| - |r.value.kept.rows|
  {
    if !input.Stored? then Failure(Unreadable("merged file"))
    else if existing.Corrupt? then Failure(Unreadable("main file"))
    else if CrsClash(input.frame, existing) then Failure(CrsMismatch)
    else
      var gdf := input.frame;
      if GeometryColumn !in gdf.columns then Failure(MissingColumn(GeometryColumn))
      else if SpeciesKey !in gdf.columns then Failure(MissingColumn(SpeciesKey))
      else if ObserverKey !in gdf.columns then Failure(MissingColumn(ObserverKey))
      else
        var kept := Frame(gdf.crs, gdf.columns, DropDuplicates(gdf.rows));
        Success(Deduped(kept, |gdf.rows| - |kept.rows|))
  }

  /** The main file's records never reach the output: whenever reading it does not
      make the step fail, the result is the one without a main file. */
  lemma MainFileContentIgnored(input: Stored, previous: Frame)
    requires RemoveDuplicates(input, Stored(previous)).Success?
    ensures RemoveDuplicates(input, Stored(previous)) == RemoveDuplicates(input, Absent)
  {
  }

  /** A record of the old main file whose triple the merged file lacks is not in the
      new main file. */
  lemma OldRecordLost(input: Stored, previous: Frame, i: nat)
    requires RemoveDuplicates(input, Stored(previous)).Success?
    requires i < |previous.rows|
    requires forall j :: 0 <= j < |input.frame.rows| ==> KeyOf(input.frame.rows[j]) != KeyOf(previous.rows[i])
    ensures forall k :: 0 <= k < |RemoveDuplicates(input, Stored(previous)).value.kept.rows| ==>
      KeyOf(RemoveDuplicates(input, Stored(previous)).value.kept.rows[k]) != KeyOf(previous.rows[i])
  {
    var rows := input.frame.rows;
    var out := DropDuplicates(rows);
    forall k | 0 <= k < |out| ensures KeyOf(out[k]) != KeyOf(previous.rows[i]) {
      assert out[k] == rows[KeptPositions(rows)[k]];
    }
  }
}
