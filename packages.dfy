/** GeoPackage files as the pipeline sees them through its libraries: a name in the
    directory, whether the file can be opened at all, and its named layers in order.
    Also the two name rules the pipeline relies on: glob's `*.ext` and splitext. */
module Packages {
  import opened Tables

  datatype Layer = Layer(name: string, frame: Frame)

  datatype Package = Package(name: string, readable: bool, layers: seq<Layer>)

  predicate EndsWith(s: string, suffix: string) {
    |suffix| <= |s| && s[|s| - |suffix|..] == suffix
  }

  /** glob's `*<ext>` on one directory entry: `*` does not match a leading dot. */
  predicate MatchesGlob(name: string, ext: string) {
    EndsWith(name, ext) && !(|name| > 0 && name[0] == '.')
  }

  /** The entries of a listing that glob with the pattern `*<ext>` returns, in listing order. */
  function Glob(listing: seq<string>, ext: string): (r: seq<string>)
    ensures |r| <= |listing|
    ensures forall k :: 0 <= k < |r| ==> MatchesGlob(r[k], ext)
    ensures forall n :: n in r <==> n in listing && MatchesGlob(n, ext)
  {
    if |listing| == 0 then []
    else
      var init := Glob(listing[..|listing| - 1], ext);
      var last := listing[|listing| - 1];
      assert listing == listing[..|listing| - 1] + [last];
      if MatchesGlob(last, ext) then init + [last] else init
  }

  /** Globbing is per entry: the matches in two runs of a listing are the matches of
      each run, in order. */
  lemma {:induction false} GlobAppend(a: seq<string>, b: seq<string>, ext: string)
    ensures Glob(a + b, ext) == Glob(a, ext) + Glob(b, ext)
    decreases |b|
  {
    if |b| == 0 {
      assert a + b == a;
    } else {
      var binit := b[..|b| - 1];
      var last := b[|b| - 1];
      GlobAppend(a, binit, ext);
      LastOfAppend(a, b);
      var tail := if MatchesGlob(last, ext) then [last] else [];
      assert Glob(a + b, ext) == Glob(a + binit, ext) + tail;
      assert Glob(b, ext) == Glob(binit, ext) + tail;
      ConcatAssociates(Glob(a, ext), Glob(binit, ext), tail);
    }
  }

  /** Each entry of the listing is returned in its own place, if it matches, and
      nothing else is. */
  lemma GlobOrder(a: seq<string>, n: string, b: seq<string>, ext: string)
    ensures Glob(a + [n] + b, ext)
      == Glob(a, ext) + (if MatchesGlob(n, ext) then [n] else []) + Glob(b, ext)
  {
    GlobAppend(a + [n], b, ext);
    GlobAppend(a, [n], ext);
    assert [n][..0] == [];
  }

  /** The position of the last `.` in s, or -1. */
  function LastDot(s: string): (d: int)
    ensures -1 <= d < |s|
    ensures d >= 0 ==> s[d] == '.'
    ensures forall j :: d < j < |s| ==> s[j] != '.'
  {
    if |s| == 0 then -1
    else if s[|s| - 1] == '.' then |s| - 1
    else LastDot(s[..|s| - 1])
  }

  /** os.path.splitext(name)[0] for a bare file name: the name without its last
      extension, where dots leading the name do not start an extension. */
  function Stem(name: string): string {
    var d := LastDot(name);
    if exists i :: 0 <= i < d && name[i] != '.' then name[..d] else name
  }

  /** What splitext removes is the extension: from the last dot to the end, and only
      when that dot has something other than dots before it. Otherwise nothing is
      removed, and every dot of the name is one of its leading dots. */
  lemma StemMeaning(name: string)
    ensures var r := Stem(name);
      && |r| <= |name| && r == name[..|r|]
      && (|r| < |name| ==> name[|r|] == '.' && forall j :: |r| < j < |name| ==> name[j] != '.')
      && (|r| < |name| ==> exists i :: 0 <= i < |r| && name[i] != '.')
      && (|r| == |name| ==> forall d, i :: 0 <= i < d < |name| && name[d] == '.' ==> name[i] == '.')
  {
  }

  /** Every file the pipeline globs as `*.gpkg` has as its stem the name minus `.gpkg`. */
  lemma GpkgStem(name: string)
    requires MatchesGlob(name, ".gpkg")
    ensures Stem(name) == name[..|name| - 5]
  {
    var n := |name|;
    assert name[n - 5..] == ".gpkg";
    assert forall j :: n - 5 <= j < n ==> name[j] == ".gpkg"[j - (n - 5)];
    assert name[n - 5] == '.' && name[0] != '.';
    assert LastDot(name) == n - 5;
    assert 0 < n - 5;
  }

  /** The first layer of that name, or -1. */
  function FindLayer(layers: seq<Layer>, n: string): (k: int)
    ensures -1 <= k < |layers|
    ensures k >= 0 ==> layers[k].name == n
    ensures forall j :: 0 <= j < |layers| && (k < 0 || j < k) ==> layers[j].name != n
  {
    if |layers| == 0 then -1
    else
      var k := FindLayer(layers[..|layers| - 1], n);
      if k >= 0 then k else if layers[|layers| - 1].name == n then |layers| - 1 else -1
  }

  lemma FindLayerIs(layers: seq<Layer>, n: string, k: int)
    requires -1 <= k < |layers|
    requires k >= 0 ==> layers[k].name == n
    requires forall j :: 0 <= j < |layers| && (k < 0 || j < k) ==> layers[j].name != n
    ensures FindLayer(layers, n) == k
  {
  }

  /** fiona.listlayers(path) contains n; a file that cannot be opened lists nothing. */
  predicate HasLayer(p: Package, n: string) {
    p.readable && FindLayer(p.layers, n) >= 0
  }

  /** gpd.read_file(path, layer=n). */
  function ReadLayer(p: Package, n: string): (r: Option<Frame>)
    ensures r.Some? <==> HasLayer(p, n)
  {
    if HasLayer(p, n) then Some(p.layers[FindLayer(p.layers, n)].frame) else None
  }

  /** gpd.read_file(path): the file's first layer. */
  function ReadDefault(p: Package): (r: Option<Frame>)
    ensures r.Some? <==> p.readable && |p.layers| > 0
  {
    if p.readable && |p.layers| > 0 then Some(p.layers[0].frame) else None
  }

  /** to_file(path, driver="GPKG", layer=n): the layer of that name is replaced, or a
      new layer is added after the others. */
  function WriteLayer(p: Package, n: string, f: Frame): (q: Package)
    ensures q.name == p.name && q.readable == p.readable
  {
    var k := FindLayer(p.layers, n);
    if k >= 0 then p.(layers := p.layers[k := Layer(n, f)])
    else p.(layers := p.layers + [Layer(n, f)])
  }

  /** Reading back the layer just written gives the frame written. */
  lemma ReadAfterWrite(p: Package, n: string, f: Frame)
    requires p.readable
    ensures ReadLayer(WriteLayer(p, n, f), n) == Some(f)
  {
    var k := FindLayer(p.layers, n);
    var q := WriteLayer(p, n, f);
    if k >= 0 {
      FindLayerIs(q.layers, n, k);
    } else {
      FindLayerIs(q.layers, n, |p.layers|);
    }
  }

  /** Writing one layer leaves every other layer as it was. */
  lemma WriteKeepsOtherLayers(p: Package, n: string, f: Frame, m: string)
    requires m != n
    ensures ReadLayer(WriteLayer(p, n, f), m) == ReadLayer(p, m)
  {
    var k := FindLayer(p.layers, n);
    var q := WriteLayer(p, n, f);
    var km := FindLayer(p.layers, m);
    FindLayerIs(q.layers, m, km);
    if km >= 0 {
      assert q.layers[km] == p.layers[km];
    }
  }
}
