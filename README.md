# Survey-upload reconciliation pipeline, modelled in Dafny

This project models the record-reconciliation pipeline of `brain.py`. Volunteers answer an
upload form; each answer row has a free-text cell with Google Drive share links
(`...?id=<file ID>&...`) and a cell with the uploader's name. The uploaded GeoPackage
files sit in one directory, each named `<file ID>.gpkg`. A run of the pipeline:

1. Reads the form's answer sheet. It pulls the `http(s)://` links out of each link cell
   and builds a `file ID -> observer name` dictionary. For each matched file it then
   overwrites the `observer` column and fills `type` and `english_name` from a species
   reference table. The file is written back under a layer named after its stem.
2. Merges every file that has a layer named after its own stem. A layer with a
   coordinate system other than EPSG:4326 is reprojected to EPSG:4326; a layer without
   a system is kept as it is. The layers are concatenated in file order.
3. Drops repeated `(geometry, species, observer)` triples from the merged file, keeping
   the first record of each, and overwrites the main dataset with the result.
4. Appends one summary record to `log.xlsx`.

A run does nothing unless the directory holds exactly one `.xlsx` file.

## Modules

- `tables.dfy` (`Tables`): the values the libraries pass around.
  - Cells, records as maps from column to value, frames with a coordinate system.
  - The errors the pipeline raises.
  - `pd.concat`: union of columns, missing cells become NaN, one shared coordinate system.
- `links.dfy` (`Links`): string rules of the mapping step.
  - `str.strip`.
  - The scanner for the pattern `https?://[^\s,]+`, where `\s` is Python's whitespace set.
  - `split('id=')[1].split('&')[0]`.
- `observers.dfy` (`Observers`): the row loop and link loop that fill `id_to_name`, and
  the last-one-wins property.
- `species.dfy` (`Species`): the species reference table, the error when a species is
  listed twice, and the `type`/`english_name` fill.
- `packages.dfy` (`Packages`): GeoPackage files as named layers.
  - glob's `*.ext` rule, and `os.path.splitext`.
  - Reading a layer, and writing one in place.
- `update.dfy` (`Update`): what the per-file update does to one file.
- `merge.dfy` (`Merge`): `merge_gpkg_files`; the loop over files is a method proved
  against the function `Merged`.
- `dedup.dfy` (`Dedup`): `drop_duplicates(subset=[...])` with `keep='first'`, and
  `remove_duplicates_from_gpkg` around it.
- `runlog.dfy` (`RunLog`): `update_excel_log`.
- `pipeline.dfy` (`Pipeline`): `run_pipeline` over a `Workspace`.
  - Its fields are the directory listing, the files, the answer sheets, the merged
    output, the main file and the log.
  - Each step is a method that changes only the fields that step writes.

Where the doc comments and the code disagree, the model follows the code.

- The comment of `remove_duplicates_from_gpkg` (brain.py:201-211) promises
  deduplication against the existing main file. The code reads that file and builds
  the combined frame (brain.py:222-234), but never uses it. `drop_duplicates` runs on
  the merged file alone (brain.py:238), and the result overwrites the main file
  (brain.py:245). `Dedup.MainFileContentIgnored` and `Dedup.OldRecordLost` state the
  consequences.
- The main file still matters in two ways: an unreadable main file, or a system clash
  when concatenating, makes the step fail.
- The ID of a link ends at the first `&` or at a second `id=`, because the code splits
  on `id=` and keeps piece 1 only.
- The name cell is converted with `str()` before the missing-value test (brain.py:90-91).
  A missing name therefore becomes the text `"nan"`, and the row is not skipped.

## Model

| member | source | states |
|---|---|---|
| Links.Strip | brain.py:90 | the result is the input minus its maximal leading and trailing whitespace; neither end of the result is whitespace |
| Links.StripPadded | brain.py:90 | whitespace padding around a name is removed exactly, whatever its length |
| Observers.MissingNameIsNan | brain.py:90-91 | a row whose name cell is missing is credited to the name "nan" |
| Observers.RowPairs | brain.py:89-92 | a row whose link cell is missing contributes no (ID, name) pair |
| Links.FindLinksAreLinks | brain.py:94 | every link found starts with `http://` or `https://`, has at least one character after the scheme, and holds no whitespace and no comma |
| Links.FindLinksSplit | brain.py:94 | a link with a separator or the end of the text on each side is found exactly where it stands, between the links found before it and those found after it |
| Links.FindLinksPrefix | brain.py:94 | text that ends in whitespace or a comma is scanned on its own: the links of it followed by more text are its own links, then those of the rest |
| Links.FindJoinedLinks | brain.py:94 | links written into a cell separated by ", " are found again exactly, in order, and nothing else is found |
| Links.IndexOf | brain.py:97 | -1 exactly when the pattern does not occur; otherwise the first position where it occurs |
| Links.ExtractId | brain.py:96-97 | an ID exists exactly when the link contains `id=`; the ID starts right after the first `id=`, contains neither `&` nor `id=`, and ends at the end of the link, at an `&` or at a second `id=` |
| Links.ExtractIdOfShareLink | brain.py:96-97 | a link `<prefix>id=<ID>` optionally followed by `&<parameters>` yields exactly `<ID>` |
| Observers.IdPairs | brain.py:95-98 | a row gives at most one pair per link, each carrying the row's name |
| Observers.IdPairsExact | brain.py:95-98 | a row gives a pair for an ID exactly when one of its links contains `id=` and yields that ID |
| Observers.ObserverMap | brain.py:87-92 | the mapping step raises a KeyError exactly when the sheet has a row and lacks the link column or the name column; the error names the link column when that one is missing |
| Observers.AssignLinks | brain.py:95-98 | the link loop leaves the dictionary with the row's pairs assigned in link order |
| Observers.BuildObserverMap | brain.py:86-98 | the row loop returns the mapping over all rows, or the KeyError raised at the first row when the sheet lacks the link column or the name column |
| Observers.AssignLastWins | brain.py:98 | after successive assignments a key holds the value of its last assignment, and a key never assigned keeps its old value |
| Observers.LastOneWins | brain.py:87-98 | a file ID is a key exactly when some link of some row carries it; it maps to the name of its last occurrence in row and link order |
| Species.IndexBySpeciesMeaning | brain.py:58 | indexing fails exactly when a species is listed twice; otherwise the keys are exactly the listed species, and each maps to its own row's type and english_name |
| Species.SpeciesTable | brain.py:57-58 | the table fails exactly when a needed column is missing or a species repeats; otherwise each listed species maps to its row's type and english_name |
| Species.FillSpecies | brain.py:126-132 | without a species column the frame is unchanged; otherwise type and english_name are added; a species in the table gets its entry's values; every other cell, the record count and the system are kept |
| Update.SetObserver | brain.py:119-124 | with an observer column every record's observer becomes the name; without one the frame is unchanged; every other cell is kept |
| Update.UpdatePackage | brain.py:103-117 | a file whose stem is not a mapping key, or whose first layer cannot be read, is left unchanged; the file's name and readability are kept |
| Update.ReconciledFrame | brain.py:119-132 | the frame written back keeps its record count, has every observer set to the mapped name, has table values for known species, and keeps every other column |
| Update.MatchedFileReconciled | brain.py:134-136 | a matched file holds its reconciled first layer under its stem; all other layers are untouched |
| Update.UpdateAll | brain.py:103 | every file of the directory passes through the per-file update once, in place |
| Packages.Glob | brain.py:101 | the result is exactly the listing's entries that end in the extension and do not start with a dot, in listing order |
| Packages.GlobAppend | brain.py:101 | the matches of two runs of a listing are the matches of each run, in listing order |
| Packages.GlobOrder | brain.py:101 | each entry of the listing is returned in its own place when it matches, and is absent otherwise |
| Packages.StemMeaning | brain.py:105 | the stem is the name cut before its last dot when some character other than a dot precedes that dot; otherwise it is the whole name, and every dot in the name is a leading dot |
| Packages.GpkgStem | brain.py:104-105 | the stem of a globbed `.gpkg` file is its name without `.gpkg` |
| Packages.ReadLayer | brain.py:168-174 | a layer is read exactly when the file can be opened and has a layer of that name |
| Packages.ReadDefault | brain.py:113-117 | the first layer is read exactly when the file can be opened and has a layer |
| Packages.WriteLayer | brain.py:136 | writing a layer keeps the file's name and whether it can be opened |
| Packages.ReadAfterWrite | brain.py:136 | after a write under a layer name, reading that layer gives back the written frame |
| Packages.WriteKeepsOtherLayers | brain.py:136 | a write under one layer name leaves every other layer's content unchanged |
| Merge.ToCrs | brain.py:176-179 | reprojection sets the system to EPSG:4326 and keeps the columns, the record count and every non-geometry cell |
| Merge.ReadForMerge | brain.py:164-182 | a file yields a frame exactly when it is readable and has a layer named after its stem; that frame has no system or EPSG:4326 |
| Merge.MergePackages | brain.py:150-199 | the file loop yields the concatenation of the accepted frames in file order, or nothing when there are no files or none is accepted |
| Merge.AcceptedAppend | brain.py:163-185 | the files are accepted one by one: the frames for two runs of files are those of each run, in order |
| Merge.SkippedFileIgnored | brain.py:167-171 | a file that lacks a layer named after its stem, or cannot be opened, changes nothing in the merge, wherever it sits |
| Merge.MergedRecords | brain.py:191-193 | the merged record count is the sum of the accepted counts; record k of accepted frame i sits at the offset of the earlier frames plus k and agrees with it on every column |
| Merge.MergedNothing | brain.py:150-189 | nothing is written exactly when no file is accepted |
| Merge.MergedInTarget | brain.py:176-193 | the merged frame has no system or EPSG:4326 |
| Tables.ConcatAgrees | brain.py:193 | concatenation places record k of frame i after the records of the earlier frames and keeps its value in every column |
| Tables.CommonCrsWithin | brain.py:193 | when every input has no system or the system c, so does the concatenation |
| Dedup.KeptPositions | brain.py:238 | the kept positions increase, and a position is kept exactly when it is the first with its (geometry, species, observer) triple |
| Dedup.DropDuplicates | brain.py:238 | the output is the input's records at the kept positions, in order, and is never longer than the input |
| Dedup.DedupDistinct | brain.py:238 | no two output records share a triple |
| Dedup.DedupKeepsEveryKey | brain.py:238 | every triple of the input is carried by some output record |
| Dedup.DedupKeepsLengthIff | brain.py:238 | the output is as long as the input exactly when no triple repeats |
| Dedup.DropsWhenRepeated | brain.py:238 | a record that is not the first with its triple makes the output shorter than the input |
| Dedup.DedupIdempotent | brain.py:238 | deduplicating the output again changes nothing |
| Dedup.RemoveDuplicates | brain.py:213-253 | succeeds exactly when the merged file reads, the main file is absent or readable, their systems do not clash and the three columns exist; the kept records are the deduplicated merged records; removed is the original count minus the kept count |
| Dedup.MainFileContentIgnored | brain.py:222-245 | whenever the step succeeds, its result is the one it would have without a main file |
| Dedup.OldRecordLost | brain.py:238-245 | a record of the old main file whose triple is not in the merged file is not in the new main file |
| RunLog.EntryRow | brain.py:271-277 | the new log record has exactly the five columns timestamp, files_processed, total_gpkg_rows_merged, final_rows_saved and note |
| RunLog.LogAppended | brain.py:280-286 | the new log is the old log's records unchanged, then exactly one record carrying the five summary fields; without an old log it is that one record |
| Pipeline.Reconcile | brain.py:57-137 | the update step fails exactly when the species table fails, or when there is an answer sheet and its mapping fails; a species table error comes first; on success the file names are kept in order, no sheet leaves every file unchanged, and otherwise every file goes through the per-file update with the first sheet's mapping |
| Pipeline.ReconciledFile | brain.py:103-137 | after a successful update with an answer sheet, a file whose stem is not a mapped ID, or that cannot be read, is unchanged; any other file holds its reconciled first layer under its stem, with the sheet's name for its ID, and every other layer unchanged |
| Pipeline.Workspace.UpdateFiles | brain.py:103-137 | the file loop, skipping unmatched and unreadable files, leaves every file updated once, in place |
| Pipeline.Workspace.UpdateObserverAndSpecies | brain.py:37-137 | the step either leaves the files as the reconciliation defines them, or raises the reconciliation's error with every file unchanged; the directory invariant holds |
| Pipeline.MergedFile | brain.py:187-197 | the merged output is the merge when some file was accepted, otherwise the previous content |
| Pipeline.Workspace.MergeIntoOutput | brain.py:327 | only the merged output changes, as MergedFile says |
| Pipeline.MainFile | brain.py:238-253 | the main file becomes the deduplicated records on success, otherwise keeps its previous content |
| Pipeline.Workspace.RemoveDuplicatesIntoMain | brain.py:330 | only the main file changes, as MainFile says; the result reports success |
| Pipeline.Workspace.RunSteps | brain.py:323-330 | the three steps run in order; an error is returned exactly when the update step fails, and then nothing changes; otherwise the files, the merged output and the main file are as the three steps define them |
| Pipeline.Workspace.RunPipeline | brain.py:315-348 | the run is skipped, with nothing changed, exactly when the directory does not hold exactly one `.xlsx` file; otherwise a failed update raises its error with nothing changed, and a successful one leaves the files, the merged output and the main file as the three steps define them; the run is logged exactly when the update succeeded and both output files can be read back; the logged record counts the globbed `.gpkg` files, the merged records (the sum of the accepted files' records when some file was accepted) and the main file's records (the deduplicated merged count, at most the merged count, when deduplication succeeded), and is appended to the log |
| Pipeline.LoggedCounts | brain.py:333-338 | for the counts a logged run reports, when some file was accepted and deduplication succeeded: the merged count is the sum of the accepted counts, the saved count plus the removed count equals the merged count, and the saved records have distinct triples |

## Left out

- Library I/O is not modelled, except for a read that cannot open a file.
  - Files, sheets and the log are given as values.
  - A failed write in the update loop (brain.py:136), in the merge (brain.py:197) or in
    the log (brain.py:286) is not modelled.
  - Excel cell types do not round-trip.
  - The ISO-8859-1 decoding of the species table is not modelled.
- `os.makedirs(os.path.dirname(output_dir))` (brain.py:214) is not modelled. Paths are
  not modelled, so neither is the error it raises for a main-file path without a
  directory part.
- Coordinate transforms are not modelled. Reprojection to EPSG:4326 is the parameter
  `project`, and systems are compared as strings.
- Species.FillSpecies: a species missing from the table gets a value from the parameter
  `unknown`. The source stores a library-specific object there (`gdf.get(...)` returns
  a whole column).
- Missing values are one value, `Missing`, so NaN species keys compare equal. In a
  Python dictionary, distinct NaN objects do not.
- Layer order inside a GeoPackage after a rewrite is not modelled. An existing layer is
  replaced in place, and a new layer is appended. The first layer is what
  `gpd.read_file` reads without a layer name.
- The order in which the operating system lists a directory is not modelled. The listing
  is a parameter, and glob keeps its order (Packages.GlobOrder).
- Packages.MatchesGlob matches the extension case-sensitively, as glob does on Linux and
  macOS. On Windows glob also matches `.GPKG` or `.XLSX`; that is not modelled.
- The timestamp is a parameter. The source reads the clock (brain.py:321).
- The printed progress messages are not modelled.
- The GUI (main.py), the Google Drive client (GoogleDriveAuthDownload.py) and the
  diagnostics (error_handler.py, diagnose.py) are not part of this model.
- Merge.MergePackages: the concatenation error for frames with two different systems is
  not modelled, because after reprojection every accepted frame has no system or
  EPSG:4326 (Merge.MergedInTarget).
