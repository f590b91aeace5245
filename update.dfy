/** The per-file step of the reconciliation: a file whose stem is a known file ID gets
    its observer overwritten with the uploader's name and its type and english_name
    filled from the species table, and is written back under a layer named after it. */
module Update {
  import opened Tables
  import opened Packages
  import opened Species

  const ObserverColumn := "observer"

  /** `gdf['observer'] = name` when the frame has an observer column. */
  function SetObserver(f: Frame, name: string): (g: Frame)
    ensures g.crs == f.crs && g.columns == f.columns && |g.rows| == |f.rows|
    ensures ObserverColumn !in f.columns ==> g == f
    ensures ObserverColumn in f.columns ==>
      forall i :: 0 <= i < |g.rows| ==> Cell(g.rows[i], ObserverColumn) == Text(name)
    ensures forall i, c :: 0 <= i < |g.rows| && c != ObserverColumn ==> Cell(g.rows[i], c) == Cell(f.rows[i], c)
  {
    if ObserverColumn in f.columns then WithColumn(f, ObserverColumn, seq(|f.rows|, _ => Text(name))) else f
  }

  /** The frame written back for a matched file. */
  function Reconciled(f: Frame, name: string, table: map<Value, Taxon>, unknown: (Frame, string) -> Value): Frame {
    FillSpecies(SetObserver(f, name), table, unknown)
  }

  /** One pass of the file loop. A file whose stem is not a key of the mapping, or that
      cannot be read, is left as it is; a matched file gains (or has replaced) the
      layer named after its stem, holding its first layer reconciled. */
  function UpdatePackage(p: Package, ids: map<string, string>, table: map<Value, Taxon>,
                         unknown: (Frame, string) -> Value): (q: Package)
    ensures q.name == p.name && q.readable == p.readable
    ensures Stem(p.name) !in ids ==> q == p
    ensures ReadDefault(p).None? ==> q == p
  {
    var stem := Stem(p.name);
    if stem !in ids then p
    else
      match ReadDefault(p)
      case None => p
      case Some(f) => WriteLayer(p, stem, Reconciled(f, ids[stem], table, unknown))
  }

  /** The reconciled frame: as many records as before; every observer is the given
      name when there is an observer column; a species found in the table brings its
      type and english_name; every other column is untouched. */
  lemma ReconciledFrame(f: Frame, name: string, table: map<Value, Taxon>, unknown: (Frame, string) -> Value)
    ensures var g := Reconciled(f, name, table, unknown);
      && |g.rows| == |f.rows|
      && (ObserverColumn in f.columns ==>
            forall i :: 0 <= i < |g.rows| ==> Cell(g.rows[i], ObserverColumn) == Text(name))
      && (SpeciesColumn in f.columns ==>
            forall i :: 0 <= i < |g.rows| && SpeciesOf(f.rows[i]) in table ==>
              Cell(g.rows[i], TypeColumn) == table[SpeciesOf(f.rows[i])].kind
              && Cell(g.rows[i], EnglishNameColumn) == table[SpeciesOf(f.rows[i])].englishName)
      && (forall i, c :: 0 <= i < |g.rows| && c !in {ObserverColumn, TypeColumn, EnglishNameColumn} ==>
            Cell(g.rows[i], c) == Cell(f.rows[i], c))
  {
    var o := SetObserver(f, name);
    assert forall i :: 0 <= i < |f.rows| ==> SpeciesOf(o.rows[i]) == SpeciesOf(f.rows[i]);
    assert SpeciesColumn in f.columns <==> SpeciesColumn in o.columns;
  }

  /** What a matched file holds afterwards: under its stem, its first layer reconciled
      with the mapped name (see ReconciledFrame); every other layer is untouched. */
  lemma MatchedFileReconciled(p: Package, ids: map<string, string>, table: map<Value, Taxon>,
                              unknown: (Frame, string) -> Value, f: Frame)
    requires Stem(p.name) in ids && ReadDefault(p) == Some(f)
    ensures var stem := Stem(p.name);
      var q := UpdatePackage(p, ids, table, unknown);
      && ReadLayer(q, stem) == Some(Reconciled(f, ids[stem], table, unknown))
      && (forall m :: m != stem ==> ReadLayer(q, m) == ReadLayer(p, m))
  {
    var stem := Stem(p.name);
    var g := Reconciled(f, ids[stem], table, unknown);
    ReadAfterWrite(p, stem, g);
    forall m | m != stem ensures ReadLayer(WriteLayer(p, stem, g), m) == ReadLayer(p, m) {
      WriteKeepsOtherLayers(p, stem, g, m);
    }
  }

  /** The file loop over the globbed packages, as values: every file passes through
      UpdatePackage once, in place. */
  function UpdateAll(pkgs: seq<Package>, ids: map<string, string>, table: map<Value, Taxon>,
                     unknown: (Frame, string) -> Value): (qs: seq<Package>)
    ensures |qs| == |pkgs|
    ensures forall i :: 0 <= i < |pkgs| ==> qs[i] == UpdatePackage(pkgs[i], ids, table, unknown)
  {
    seq(|pkgs|, i requires 0 <= i < |pkgs| => UpdatePackage(pkgs[i], ids, table, unknown))
  }
}
