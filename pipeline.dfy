/** The whole run over one input directory: reconcile observers and species, merge,
    deduplicate into the main file, and log a summary. The directory, the merged
    output, the main file and the log are the state the run changes. */
module Pipeline {
  import opened Tables
  import opened Packages
  import opened Species
  import opened Observers
  import opened Update
  import opened Merge
  import opened Dedup
  import opened RunLog

  function Names(pkgs: seq<Package>): (ns: seq<string>)
    ensures |ns| == |pkgs|
    ensures forall i :: 0 <= i < |pkgs| ==> ns[i] == pkgs[i].name
  {
    seq(|pkgs|, i requires 0 <= i < |pkgs| => pkgs[i].name)
  }

  /** The reconciliation step as values. The species table is built first, so its
      errors are raised even when the directory has no answer sheet; without a sheet
      the files are left alone; otherwise the first sheet's mapping drives the loop. */
  function Reconcile(pkgs: seq<Package>, sheets: seq<Frame>, csv: Frame,
                     unknown: (Frame, string) -> Value): (r: Result<seq<Package>>)
    ensures r.Failure? <==>
      SpeciesTable(csv).Failure? || (|sheets| > 0 && ObserverMap(sheets[0].columns, sheets[0].rows).Failure?)
    ensures r.Failure? && SpeciesTable(csv).Failure? ==> r.error == SpeciesTable(csv).error
    ensures r.Success? ==> Names(r.value) == Names(pkgs)
    ensures r.Success? && |sheets| == 0 ==> r.value == pkgs
    ensures r.Success? && |sheets| > 0 ==>
      r.value == UpdateAll(pkgs, ObserverMap(sheets[0].columns, sheets[0].rows).value, SpeciesTable(csv).value, unknown)
  {
    match SpeciesTable(csv)
    case Failure(e) => Failure(e)
    case Success(table) =>
      if |sheets| == 0 then Success(pkgs)
      else
        match ObserverMap(sheets[0].columns, sheets[0].rows)
        case Failure(e) => Failure(e)
        case Success(ids) => Success(UpdateAll(pkgs, ids, table, unknown))
  }

  /** File by file after a successful reconciliation with an answer sheet: a file whose
      stem is not a mapped ID, or that cannot be read, is unchanged; any other file holds,
      under its stem, its first layer reconciled with the name the sheet gives its ID,
      and every other layer as before. */
  lemma ReconciledFile(pkgs: seq<Package>, sheets: seq<Frame>, csv: Frame,
                       unknown: (Frame, string) -> Value, i: nat)
    requires Reconcile(pkgs, sheets, csv, unknown).Success? && |sheets| > 0 && i < |pkgs|
    ensures var ids := ObserverMap(sheets[0].columns, sheets[0].rows).value;
      var q := Reconcile(pkgs, sheets, csv, unknown).value[i];
      var p := pkgs[i];
      var stem := Stem(p.name);
      && q.name == p.name
      && (stem !in ids || ReadDefault(p).None? ==> q == p)
      && (stem in ids && ReadDefault(p).Some? ==>
            && ReadLayer(q, stem) == Some(Reconciled(ReadDefault(p).value, ids[stem], SpeciesTable(csv).value, unknown))
            && forall m :: m != stem ==> ReadLayer(q, m) == ReadLayer(p, m))
  {
    var ids := ObserverMap(sheets[0].columns, sheets[0].rows).value;
    var p := pkgs[i];
    if Stem(p.name) in ids && ReadDefault(p).Some? {
      MatchedFileReconciled(p, ids, SpeciesTable(csv).value, unknown, ReadDefault(p).value);
    }
  }

  /** The merged output after the merge step: rewritten when some file was accepted,
      otherwise whatever was there before. */
  function MergedFile(pkgs: seq<Package>, project: (string, Geometry) -> Geometry, previous: Stored): (r: Stored)
    ensures Merged(pkgs, project).Some? ==> r == Stored(Merged(pkgs, project).value)
    ensures Merged(pkgs, project).None? ==> r == previous
  {
    match Merged(pkgs, project)
    case Some(f) => Stored(f)
    case None => previous
  }

  /** The main file after the deduplication step: overwritten with the deduplicated
      merged records on success, otherwise whatever was there before. */
  function MainFile(merged: Stored, previous: Stored): (r: Stored)
    ensures RemoveDuplicates(merged, previous).Success? ==> r == Stored(RemoveDuplicates(merged, previous).value.kept)
    ensures RemoveDuplicates(merged, previous).Failure? ==> r == previous
  {
    match RemoveDuplicates(merged, previous)
    case Success(d) => Stored(d.kept)
    case Failure(_) => previous
  }

  /** How a run ends: refused up front, stopped by an exception, or logged. */
  datatype Outcome = Skipped | Raised(error: Error) | Logged(entry: LogEntry)

  class Workspace {
    /** Every entry of the input directory, in glob order. */
    var listing: seq<string>
    /** The `.gpkg` files of the directory, in glob order. */
    var packages: seq<Package>
    /** The first sheet of each `.xlsx` file of the directory, in glob order. */
    var sheets: seq<Frame>
    /** The merged output file. */
    var merged: Stored
    /** The authoritative main dataset. */
    var main: Stored
    /** log.xlsx next to the main file, when it exists. */
    var log: Option<Frame>

    ghost predicate Valid()
      reads this`listing, this`packages, this`sheets
    {
      Names(packages) == Glob(listing, ".gpkg") && |sheets| == |Glob(listing, ".xlsx")|
    }

    constructor (listing: seq<string>, packages: seq<Package>, sheets: seq<Frame>,
                 merged: Stored, main: Stored, log: Option<Frame>)
      requires Names(packages) == Glob(listing, ".gpkg") && |sheets| == |Glob(listing, ".xlsx")|
      ensures Valid()
      ensures this.listing == listing && this.packages == packages && this.sheets == sheets
      ensures this.merged == merged && this.main == main && this.log == log
    {
      this.listing := listing;
      this.packages := packages;
      this.sheets := sheets;
      this.merged := merged;
      this.main := main;
      this.log := log;
    }

    /** update_observer_and_species_in_gpkg: the file loop rewrites each matched file
        in place; an error raised before the loop leaves every file as it was. */
    method UpdateObserverAndSpecies(speciesCsv: Frame, unknown: (Frame, string) -> Value)
      returns (err: Option<Error>)
      requires Valid()
      modifies this`packages
      ensures Valid()
      ensures err.None? ==> Reconcile(old(packages), sheets, speciesCsv, unknown) == Success(packages)
      ensures err.Some? ==> Reconcile(old(packages), sheets, speciesCsv, unknown) == Failure(err.value)
      ensures err.Some? ==> packages == old(packages)
    {
      var tableResult := SpeciesTable(speciesCsv);
      if tableResult.Failure? {
        return Some(tableResult.error);
      }
      var table := tableResult.value;
      if |sheets| == 0 {
        return None;
      }
      var mapping := BuildObserverMap(sheets[0]);
      if mapping.Failure? {
        return Some(mapping.error);
      }
      UpdateFiles(mapping.value, table, unknown);
      err := None;
    }

    /** The file loop: a file whose stem is a known ID and whose first layer can be
        read gets that layer reconciled and written back under its stem, in place;
        every other file is skipped. */
    method UpdateFiles(idToName: map<string, string>, table: map<Value, Taxon>,
                       unknown: (Frame, string) -> Value)
      modifies this`packages
      ensures packages == UpdateAll(old(packages), idToName, table, unknown)
    {
      var i := 0;
      while i < |packages|
        invariant 0 <= i <= |packages| == |old(packages)|
        invariant forall j :: 0 <= j < i ==> packages[j] == UpdatePackage(old(packages)[j], idToName, table, unknown)
        invariant forall j :: i <= j < |packages| ==> packages[j] == old(packages)[j]
      {
        var p := packages[i];
        var fileId := Stem(p.name);
        if fileId in idToName {
          var observerName := idToName[fileId];
          var read := ReadDefault(p);
          if read.Some? {
            var gdf := read.value;
            gdf := SetObserver(gdf, observerName);
            gdf := FillSpecies(gdf, table, unknown);
            packages := packages[i := WriteLayer(p, fileId, gdf)];
          }
        }
        i := i + 1;
      }
    }

    /** merge_gpkg_files: the merged file is written only when some file was accepted. */
    method MergeIntoOutput(project: (string, Geometry) -> Geometry)
      modifies this`merged
      ensures merged == MergedFile(packages, project, old(merged))
    {
      var result := MergePackages(packages, project);
      if result.Some? {
        merged := Stored(result.value);
      }
    }

    /** remove_duplicates_from_gpkg(merged, main): on success the main file is
        overwritten with the deduplicated merged records; on failure it is kept. */
    method RemoveDuplicatesIntoMain() returns (ok: bool)
      modifies this`main
      ensures ok == RemoveDuplicates(merged, old(main)).Success?
      ensures main == MainFile(merged, old(main))
    {
      var result := RemoveDuplicates(merged, main);
      ok := result.Success?;
      if ok {
        main := Stored(result.value.kept);
      }
    }

    /** The three steps of a run, in order: reconcile, merge, deduplicate. */
    method RunSteps(speciesCsv: Frame, unknown: (Frame, string) -> Value,
                    project: (string, Geometry) -> Geometry)
      returns (err: Option<Error>)
      requires Valid()
      modifies this`packages, this`merged, this`main
      ensures Valid()
      ensures err.Some? <==> Reconcile(old(packages), sheets, speciesCsv, unknown).Failure?
      ensures err.Some? ==> Reconcile(old(packages), sheets, speciesCsv, unknown) == Failure(err.value)
      ensures err.Some? ==> unchanged(this)
      ensures err.None? ==> Reconcile(old(packages), sheets, speciesCsv, unknown) == Success(packages)
      ensures err.None? ==> merged == MergedFile(packages, project, old(merged))
      ensures err.None? ==> main == MainFile(merged, old(main))
    {
      err := UpdateObserverAndSpecies(speciesCsv, unknown);
      if err.Some? {
        return;
      }
      assert Valid();
      ghost var previousMain := main;
      MergeIntoOutput(project);
      assert Valid() && main == previousMain;
      var _ := RemoveDuplicatesIntoMain();
    }

    /** run_pipeline. Nothing happens unless the directory holds exactly one `.xlsx`
        file. The summary counts every `.gpkg` file, the records of the merged file and
        those of the main file as they are read back after the steps ran. */
    method RunPipeline(speciesCsv: Frame, timestamp: string, note: string,
                       unknown: (Frame, string) -> Value, project: (string, Geometry) -> Geometry)
      returns (outcome: Outcome)
      requires Valid()
      modifies this
      ensures Valid() && listing == old(listing) && sheets == old(sheets)
      ensures outcome.Skipped? <==> |Glob(listing, ".xlsx")| != 1
      ensures outcome.Skipped? ==> unchanged(this)
      ensures outcome.Raised? || outcome.Skipped? ==> log == old(log)
      ensures !outcome.Skipped? && Reconcile(old(packages), sheets, speciesCsv, unknown).Failure? ==>
        outcome == Raised(Reconcile(old(packages), sheets, speciesCsv, unknown).error) && unchanged(this)
      ensures !outcome.Skipped? && Reconcile(old(packages), sheets, speciesCsv, unknown).Success? ==>
        && packages == Reconcile(old(packages), sheets, speciesCsv, unknown).value
        && merged == MergedFile(packages, project, old(merged))
        && main == MainFile(merged, old(main))
      ensures !outcome.Skipped? ==>
        (outcome.Logged? <==>
          Reconcile(old(packages), sheets, speciesCsv, unknown).Success? && merged.Stored? && main.Stored?)
      ensures outcome.Logged? ==>
        && outcome.entry == LogEntry(timestamp, |packages|, |merged.frame.rows|, |main.frame.rows|, note)
        && log == Some(AppendLog(old(log), outcome.entry))
      ensures outcome.Logged? ==> outcome.entry.filesProcessed == |Glob(listing, ".gpkg")|
      ensures outcome.Logged? && Merged(packages, project).Some? ==>
        outcome.entry.totalMerged == TotalRows(Accepted(packages, project))
      ensures outcome.Logged? && RemoveDuplicates(merged, old(main)).Success? ==>
        |main.frame.rows| == |DropDuplicates(merged.frame.rows)| == outcome.entry.finalSaved <= outcome.entry.totalMerged
    {
      var excelFiles := Glob(listing, ".xlsx");
      if |excelFiles| != 1 {
        return Skipped;
      }
      var err := RunSteps(speciesCsv, unknown, project);
      if err.Some? {
        return Raised(err.value);
      }
      var filesProcessed := |packages|;
      if !merged.Stored? {
        return Raised(Unreadable("merged file"));
      }
      var totalMerged := |merged.frame.rows|;
      if !main.Stored? {
        return Raised(Unreadable("main file"));
      }
      var finalSaved := |main.frame.rows|;
      var entry := LogEntry(timestamp, filesProcessed, totalMerged, finalSaved, note);
      log := Some(AppendLog(log, entry));
      outcome := Logged(entry);
    }
  }

  /** The counts a logged run reports, given what the run left behind (RunPipeline's
      contract): when the merge accepted some file and deduplication succeeded, the
      merged count is the sum of the accepted files' records, and the saved count is
      the merged count less the duplicates removed, with no two kept records sharing
      geometry, species and observer. */
  lemma LoggedCounts(pkgs: seq<Package>, project: (string, Geometry) -> Geometry,
                     previousMerged: Stored, previousMain: Stored, e: LogEntry)
    requires Merged(pkgs, project).Some?
    requires var m := MergedFile(pkgs, project, previousMerged);
      && MainFile(m, previousMain).Stored?
      && e.totalMerged == |m.frame.rows| && e.finalSaved == |MainFile(m, previousMain).frame.rows|
    requires RemoveDuplicates(MergedFile(pkgs, project, previousMerged), previousMain).Success?
    ensures e.totalMerged == TotalRows(Accepted(pkgs, project))
    ensures e.finalSaved + RemoveDuplicates(MergedFile(pkgs, project, previousMerged), previousMain).value.removed
      == e.totalMerged
    ensures DistinctKeys(MainFile(MergedFile(pkgs, project, previousMerged), previousMain).frame.rows)
  {
    var m := MergedFile(pkgs, project, previousMerged);
    DedupDistinct(m.frame.rows);
  }
}
