/** The merge step: every globbed file that has a layer named after its own stem
    contributes that layer, reprojected to EPSG:4326 when it has another system (a
    layer without a system is kept as it is), and the contributions are concatenated
    in file order. */
module Merge {
  import opened Tables
  import opened Packages

  /** One record's geometry carried from the system `from` into the target system. */
  function ProjectRow(r: Row, from: string, project: (string, Geometry) -> Geometry): Row {
    if GeometryColumn in r && r[GeometryColumn].Shape? then
      r[GeometryColumn := Shape(project(from, r[GeometryColumn].geometry))]
    else r
  }

  /** gdf.to_crs("EPSG:4326"); the coordinate transform itself is the opaque `project`. */
  function ToCrs(f: Frame, project: (string, Geometry) -> Geometry): (g: Frame)
    requires f.crs.Some?
    ensures g.crs == Some(TargetCrs) && g.columns == f.columns && |g.rows| == |f.rows|
    ensures forall i, c :: 0 <= i < |f.rows| && c != GeometryColumn ==> Cell(g.rows[i], c) == Cell(f.rows[i], c)
  {
    Frame(Some(TargetCrs), f.columns,
          seq(|f.rows|, i requires 0 <= i < |f.rows| => ProjectRow(f.rows[i], f.crs.value, project)))
  }

  /** The frame as it is appended: reprojected only when it has a system other than
      the target. */
  function Normalized(f: Frame, project: (string, Geometry) -> Geometry): Frame {
    if f.crs.Some? && f.crs.value != TargetCrs then ToCrs(f, project) else f
  }

  /** The file has a layer named after its stem (and can be opened at all). */
  predicate Acceptable(p: Package) {
    HasLayer(p, Stem(p.name))
  }

  /** What one file adds to `all_gdf`: its stem layer, normalized, or nothing. */
  function Contribution(p: Package, project: (string, Geometry) -> Geometry): seq<Frame> {
    if Acceptable(p) then [Normalized(ReadLayer(p, Stem(p.name)).value, project)] else []
  }

  /** The frames the loop appends to `all_gdf`, in file order. */
  function Accepted(pkgs: seq<Package>, project: (string, Geometry) -> Geometry): (fs: seq<Frame>)
    ensures |fs| <= |pkgs|
  {
    if |pkgs| == 0 then []
    else Accepted(pkgs[..|pkgs| - 1], project) + Contribution(pkgs[|pkgs| - 1], project)
  }

  /** What merge_gpkg_files writes: nothing without files or without an accepted file,
      otherwise the concatenation of the accepted frames. */
  function Merged(pkgs: seq<Package>, project: (string, Geometry) -> Geometry): Option<Frame> {
    if |pkgs| == 0 then None
    else
      var fs := Accepted(pkgs, project);
      if |fs| == 0 then None else Some(Concat(fs))
  }

  /** The body of the file loop: the stem layer of one file, reprojected when needed,
      or None when the file is skipped. */
  method ReadForMerge(p: Package, project: (string, Geometry) -> Geometry) returns (f: Option<Frame>)
    ensures f.Some? <==> Acceptable(p)
    ensures f.Some? ==> Contribution(p, project) == [f.value]
    ensures f.Some? ==> f.value.crs.None? || f.value.crs == Some(TargetCrs)
  {
    var layerName := Stem(p.name);
    if !HasLayer(p, layerName) {
      return None;
    }
    var gdf := ReadLayer(p, layerName).value;
    if gdf.crs.Some? && gdf.crs.value != TargetCrs {
      gdf := ToCrs(gdf, project);
    }
    f := Some(gdf);
  }

  method MergePackages(pkgs: seq<Package>, project: (string, Geometry) -> Geometry) returns (merged: Option<Frame>)
    ensures merged == Merged(pkgs, project)
  {
    if |pkgs| == 0 {
      return None;
    }
    var allFrames: seq<Frame> := [];
    var i := 0;
    while i < |pkgs|
      invariant 0 <= i <= |pkgs|
      invariant allFrames == Accepted(pkgs[..i], project)
    {
      assert pkgs[..i + 1][..i] == pkgs[..i];
      var f := ReadForMerge(pkgs[i], project);
      if f.Some? {
        allFrames := allFrames + [f.value];
      }
      i := i + 1;
    }
    assert pkgs[..i] == pkgs;
    if |allFrames| == 0 {
      return None;
    }
    merged := Some(Concat(allFrames));
  }

  /** Accepting is per file: the frames of two runs of files are those of each run, in order. */
  lemma {:induction false} AcceptedAppend(a: seq<Package>, b: seq<Package>, project: (string, Geometry) -> Geometry)
    ensures Accepted(a + b, project) == Accepted(a, project) + Accepted(b, project)
    decreases |b|
  {
    if |b| == 0 {
      assert a + b == a;
    } else {
      var binit := b[..|b| - 1];
      var blast := b[|b| - 1];
      AcceptedAppend(a, binit, project);
      LastOfAppend(a, b);
      AcceptedLast(a + b, project);
      AcceptedLast(b, project);
      ConcatAssociates(Accepted(a, project), Accepted(binit, project), Contribution(blast, project));
    }
  }

  lemma AcceptedLast(pkgs: seq<Package>, project: (string, Geometry) -> Geometry)
    requires |pkgs| > 0
    ensures Accepted(pkgs, project)
      == Accepted(pkgs[..|pkgs| - 1], project) + Contribution(pkgs[|pkgs| - 1], project)
  {
  }

  /** A file without a layer named after its stem (or that cannot be opened) changes
      nothing in the merge, wherever it sits. */
  lemma {:induction false} SkippedFileIgnored(a: seq<Package>, p: Package, b: seq<Package>, project: (string, Geometry) -> Geometry)
    requires !Acceptable(p)
    ensures Accepted(a + [p] + b, project) == Accepted(a + b, project)
  {
    assert [p][..0] == [];
    assert Accepted([p], project) == Accepted([], project) + Contribution(p, project);
    AcceptedAppend(a, [p], project);
    assert Accepted(a + [p], project) == Accepted(a, project);
    AcceptedAppend(a + [p], b, project);
    AcceptedAppend(a, b, project);
  }

  /** The merged count is the sum of the accepted counts, and each record of each
      accepted frame appears, in order, agreeing with its source on every column. */
  lemma {:induction false} MergedRecords(pkgs: seq<Package>, project: (string, Geometry) -> Geometry, i: nat, k: nat, c: string)
    requires Merged(pkgs, project).Some?
    requires i < |Accepted(pkgs, project)| && k < |Accepted(pkgs, project)[i].rows|
    requires c in Merged(pkgs, project).value.columns
    ensures var fs := Accepted(pkgs, project);
      var m := Merged(pkgs, project).value;
      && |m.rows| == TotalRows(fs)
      && TotalRows(fs[..i]) + k < |m.rows|
      && Cell(m.rows[TotalRows(fs[..i]) + k], c) == Cell(fs[i].rows[k], c)
  {
    ConcatAgrees(Accepted(pkgs, project), i, k, c);
  }

  lemma ContributionSize(p: Package, project: (string, Geometry) -> Geometry)
    ensures |Contribution(p, project)| == if Acceptable(p) then 1 else 0
  {
  }

  lemma NoneAcceptableLast(pkgs: seq<Package>)
    requires |pkgs| > 0
    ensures var init := pkgs[..|pkgs| - 1];
      (forall i :: 0 <= i < |pkgs| ==> !Acceptable(pkgs[i]))
        <==> (forall i :: 0 <= i < |init| ==> !Acceptable(init[i])) && !Acceptable(pkgs[|pkgs| - 1])
  {
    var init := pkgs[..|pkgs| - 1];
    assert forall i :: 0 <= i < |init| ==> init[i] == pkgs[i];
  }

  lemma {:induction false} NoneAccepted(pkgs: seq<Package>, project: (string, Geometry) -> Geometry)
    ensures |Accepted(pkgs, project)| == 0 <==> forall i :: 0 <= i < |pkgs| ==> !Acceptable(pkgs[i])
  {
    if |pkgs| > 0 {
      var init := pkgs[..|pkgs| - 1];
      var last := pkgs[|pkgs| - 1];
      NoneAccepted(init, project);
      AcceptedLast(pkgs, project);
      ContributionSize(last, project);
      NoneAcceptableLast(pkgs);
    }
  }

  /** Every accepted frame is without a system or already in EPSG:4326. */
  lemma {:induction false} AcceptedInTarget(pkgs: seq<Package>, project: (string, Geometry) -> Geometry)
    ensures forall k :: 0 <= k < |Accepted(pkgs, project)| ==>
      Accepted(pkgs, project)[k].crs.None? || Accepted(pkgs, project)[k].crs == Some(TargetCrs)
  {
    if |pkgs| > 0 {
      AcceptedInTarget(pkgs[..|pkgs| - 1], project);
    }
  }

  /** The merged file is without a system or in EPSG:4326, so concatenating it with the
      main file can never clash. */
  lemma {:induction false} MergedInTarget(pkgs: seq<Package>, project: (string, Geometry) -> Geometry)
    requires Merged(pkgs, project).Some?
    ensures Merged(pkgs, project).value.crs.None? || Merged(pkgs, project).value.crs == Some(TargetCrs)
  {
    AcceptedInTarget(pkgs, project);
    CommonCrsWithin(Accepted(pkgs, project), TargetCrs);
  }

  /** Nothing is written exactly when no file has a layer named after its stem. */
  lemma {:induction false} MergedNothing(pkgs: seq<Package>, project: (string, Geometry) -> Geometry)
    ensures Merged(pkgs, project).None? <==> forall i :: 0 <= i < |pkgs| ==> !Acceptable(pkgs[i])
  {
    NoneAccepted(pkgs, project);
  }
}
