/** The file-ID to observer mapping built from the upload form's answer sheet: each
    answer row holds a cell of share links and a cell with the uploader's name. */
module Observers {
  import opened Tables
  import opened Links

  const LinkColumn := "Upload your gpkg files here"
  const NameColumn := "Include your name here"

  type Pair = (string, string)

  /** One (file ID, name) pair per link that carries `id=`, in link order. */
  function IdPairs(links: seq<string>, name: string): (ps: seq<Pair>)
    ensures |ps| <= |links|
    ensures forall k :: 0 <= k < |ps| ==> ps[k].1 == name
  {
    if |links| == 0 then []
    else
      var last := links[|links| - 1];
      IdPairs(links[..|links| - 1], name)
        + (if Contains(last, "id=") then [(ExtractId(last).value, name)] else [])
  }

  /** `link` carries `id=` and extracts to `id`. */
  predicate Carries(link: string, id: string) {
    ExtractId(link) == Some(id)
  }

  /** Some link of `links` carries `id`. */
  predicate CarriedBy(links: seq<string>, id: string) {
    exists j :: 0 <= j < |links| && Carries(links[j], id)
  }

  /** Some pair of `ps` is for `id`. */
  predicate Paired(ps: seq<Pair>, id: string) {
    exists k :: 0 <= k < |ps| && ps[k].0 == id
  }

  lemma PairsOfLast(links: seq<string>, name: string, id: string)
    requires |links| > 0
    ensures var n := |links| - 1;
      Paired(IdPairs(links, name), id) <==> Paired(IdPairs(links[..n], name), id) || Carries(links[n], id)
  {
    var n := |links| - 1;
    var ps0 := IdPairs(links[..n], name);
    var ps := IdPairs(links, name);
    if Carries(links[n], id) {
      assert ps == ps0 + [(id, name)];
      assert ps[|ps0|].0 == id;
    } else {
      assert ps == ps0 || ps == ps0 + [(ExtractId(links[n]).value, name)];
    }
    if Paired(ps, id) && !Carries(links[n], id) {
      var k :| 0 <= k < |ps| && ps[k].0 == id;
      assert k < |ps0| && ps0[k] == ps[k];
    }
    if Paired(ps0, id) {
      var k :| 0 <= k < |ps0| && ps0[k].0 == id;
      assert ps[k] == ps0[k];
    }
  }

  lemma CarriedByLast(links: seq<string>, id: string)
    requires |links| > 0
    ensures var n := |links| - 1;
      CarriedBy(links, id) <==> CarriedBy(links[..n], id) || Carries(links[n], id)
  {
    var n := |links| - 1;
    var init := links[..n];
    if CarriedBy(links, id) {
      var j :| 0 <= j < |links| && Carries(links[j], id);
      if j < n {
        assert init[j] == links[j];
        assert CarriedBy(init, id);
      }
    }
    if CarriedBy(init, id) {
      var j :| 0 <= j < n && Carries(init[j], id);
      assert links[j] == init[j];
      assert CarriedBy(links, id);
    }
    if Carries(links[n], id) {
      assert CarriedBy(links, id);
    }
  }

  /** The pairs are for exactly the IDs the links carry. */
  lemma {:induction false} IdPairsExact(links: seq<string>, name: string, id: string)
    ensures Paired(IdPairs(links, name), id) <==> CarriedBy(links, id)
  {
    if |links| > 0 {
      IdPairsExact(links[..|links| - 1], name, id);
      PairsOfLast(links, name, id);
      CarriedByLast(links, id);
    }
  }

  /** str(name).strip(): a missing name becomes the text "nan", not a skipped row. */
  function RowName(row: Row): string {
    Strip(Str(Cell(row, NameColumn)))
  }

  /** A row with an empty name cell is not skipped: its links are credited to "nan". */
  lemma MissingNameIsNan(row: Row)
    requires Cell(row, NameColumn) == Missing
    ensures RowName(row) == "nan"
  {
    assert !IsSpace('n');
    StripPadded("", "nan", "");
    assert "" + "nan" + "" == "nan";
  }

  /** The pairs one answer row contributes; a row whose link cell is empty
      contributes nothing. */
  function RowPairs(row: Row): (ps: seq<Pair>)
    ensures Cell(row, LinkColumn) == Missing ==> ps == []
  {
    var cell := Cell(row, LinkColumn);
    if cell.Missing? then [] else IdPairs(FindLinks(Str(cell)), RowName(row))
  }

  function AllPairs(rows: seq<Row>): seq<Pair> {
    if |rows| == 0 then [] else AllPairs(rows[..|rows| - 1]) + RowPairs(rows[|rows| - 1])
  }

  /** The dictionary after `d[id] = name` for each pair in turn. */
  function Assign(m: map<string, string>, ps: seq<Pair>): map<string, string> {
    if |ps| == 0 then m else Assign(m, ps[..|ps| - 1])[ps[|ps| - 1].0 := ps[|ps| - 1].1]
  }

  /** What the row loop leaves in `id_to_name`, or the KeyError raised at the first
      row when the sheet lacks the link column or the name column. A sheet without
      rows raises nothing, whatever its columns. */
  function ObserverMap(columns: set<string>, rows: seq<Row>): (r: Result<map<string, string>>)
    ensures r.Failure? <==> |rows| > 0 && (LinkColumn !in columns || NameColumn !in columns)
    ensures r.Failure? ==>
      r.error == MissingColumn(if LinkColumn !in columns then LinkColumn else NameColumn)
  {
    if |rows| == 0 then Success(map[])
    else
      match ObserverMap(columns, rows[..|rows| - 1])
      case Failure(e) => Failure(e)
      case Success(m) =>
        if LinkColumn !in columns then Failure(MissingColumn(LinkColumn))
        else if NameColumn !in columns then Failure(MissingColumn(NameColumn))
        else Success(Assign(m, RowPairs(rows[|rows| - 1])))
  }

  lemma ObserverMapStep(columns: set<string>, rows: seq<Row>, i: nat, m: map<string, string>)
    requires i < |rows| && ObserverMap(columns, rows[..i]) == Success(m)
    requires LinkColumn in columns && NameColumn in columns
    ensures ObserverMap(columns, rows[..i + 1]) == Success(Assign(m, RowPairs(rows[i])))
  {
    assert rows[..i + 1][..i] == rows[..i];
    assert rows[..i + 1][i] == rows[i];
  }

  lemma IdPairsStep(links: seq<string>, j: nat, name: string)
    requires j < |links|
    ensures IdPairs(links[..j + 1], name) == IdPairs(links[..j], name)
      + (if Contains(links[j], "id=") then [(ExtractId(links[j]).value, name)] else [])
  {
    assert links[..j + 1][..j] == links[..j];
  }

  lemma AssignStep(m: map<string, string>, ps: seq<Pair>, p: Pair)
    ensures Assign(m, ps + [p]) == Assign(m, ps)[p.0 := p.1]
  {
    assert (ps + [p])[..|ps|] == ps;
  }

  /** One more link in the inner loop: an assignment when it carries `id=`, nothing
      otherwise. */
  lemma AssignLinksStep(start: map<string, string>, links: seq<string>, j: nat, name: string)
    requires j < |links|
    ensures var before := Assign(start, IdPairs(links[..j], name));
      Assign(start, IdPairs(links[..j + 1], name))
        == if Contains(links[j], "id=") then before[ExtractId(links[j]).value := name] else before
  {
    IdPairsStep(links, j, name);
    if Contains(links[j], "id=") {
      AssignStep(start, IdPairs(links[..j], name), (ExtractId(links[j]).value, name));
    } else {
      assert IdPairs(links[..j], name) + [] == IdPairs(links[..j], name);
    }
  }

  /** The inner loop of the mapping step: `id_to_name[file_id] = name` for each link
      of one row that carries `id=`. */
  method AssignLinks(idToName: map<string, string>, links: seq<string>, name: string)
    returns (m: map<string, string>)
    ensures m == Assign(idToName, IdPairs(links, name))
  {
    m := idToName;
    var j := 0;
    while j < |links|
      invariant 0 <= j <= |links|
      invariant m == Assign(idToName, IdPairs(links[..j], name))
    {
      AssignLinksStep(idToName, links, j, name);
      var link := links[j];
      if Contains(link, "id=") {
        var fileId := ExtractId(link).value;
        m := m[fileId := name];
      }
      j := j + 1;
    }
    assert links[..|links|] == links;
  }

  /** The row loop of the mapping step. */
  method BuildObserverMap(sheet: Frame) returns (r: Result<map<string, string>>)
    ensures r == ObserverMap(sheet.columns, sheet.rows)
  {
    var rows := sheet.rows;
    var idToName: map<string, string> := map[];
    var i := 0;
    while i < |rows|
      invariant 0 <= i <= |rows|
      invariant ObserverMap(sheet.columns, rows[..i]) == Success(idToName)
    {
      var row := rows[i];
      if LinkColumn !in sheet.columns {
        return Failure(MissingColumn(LinkColumn));
      }
      var linksCell := Cell(row, LinkColumn);
      if NameColumn !in sheet.columns {
        return Failure(MissingColumn(NameColumn));
      }
      var name := Strip(Str(Cell(row, NameColumn)));
      ObserverMapStep(sheet.columns, rows, i, idToName);
      if !linksCell.Missing? {
        idToName := AssignLinks(idToName, FindLinks(Str(linksCell)), name);
      }
      i := i + 1;
    }
    assert rows[..i] == rows;
    r := Success(idToName);
  }

  // ---------------------------------------------------------------- last one wins

  /** The last position of a pair for `id`, or -1. */
  function LastFor(ps: seq<Pair>, id: string): (k: int)
    ensures -1 <= k < |ps|
    ensures k >= 0 ==> ps[k].0 == id
    ensures forall j :: k < j < |ps| ==> ps[j].0 != id
  {
    if |ps| == 0 then -1
    else if ps[|ps| - 1].0 == id then |ps| - 1
    else LastFor(ps[..|ps| - 1], id)
  }

  /** After a run of assignments a key holds the value of its last assignment, and
      keys never assigned keep what they had. */
  lemma {:induction false} AssignLastWins(m: map<string, string>, ps: seq<Pair>, id: string)
    ensures id in Assign(m, ps) <==> id in m || LastFor(ps, id) >= 0
    ensures LastFor(ps, id) >= 0 ==> Assign(m, ps)[id] == ps[LastFor(ps, id)].1
    ensures LastFor(ps, id) < 0 && id in m ==> Assign(m, ps)[id] == m[id]
  {
    if |ps| > 0 {
      var init := ps[..|ps| - 1];
      AssignLastWins(m, init, id);
      if ps[|ps| - 1].0 != id {
        assert LastFor(ps, id) == LastFor(init, id);
      }
    }
  }

  lemma {:induction false} AssignConcat(m: map<string, string>, a: seq<Pair>, b: seq<Pair>)
    ensures Assign(Assign(m, a), b) == Assign(m, a + b)
    decreases |b|
  {
    if |b| == 0 {
      assert a + b == a;
    } else {
      var binit := b[..|b| - 1];
      AssignConcat(m, a, binit);
      assert (a + b)[..|a + b| - 1] == a + binit;
      assert (a + b)[|a + b| - 1] == b[|b| - 1];
    }
  }

  /** The mapping is the pairs of all rows assigned in row order. */
  lemma {:induction false} ObserverMapAssignsAll(columns: set<string>, rows: seq<Row>)
    requires ObserverMap(columns, rows).Success?
    ensures ObserverMap(columns, rows).value == Assign(map[], AllPairs(rows))
  {
    if |rows| > 0 {
      var init := rows[..|rows| - 1];
      ObserverMapAssignsAll(columns, init);
      AssignConcat(map[], AllPairs(init), RowPairs(rows[|rows| - 1]));
    }
  }

  /** Last one wins: a file ID is a key exactly when some link of some row carries it,
      and it maps to the name of the last such link in row and link order. */
  lemma LastOneWins(columns: set<string>, rows: seq<Row>, id: string)
    requires ObserverMap(columns, rows).Success?
    ensures id in ObserverMap(columns, rows).value <==> LastFor(AllPairs(rows), id) >= 0
    ensures id in ObserverMap(columns, rows).value ==>
      ObserverMap(columns, rows).value[id] == AllPairs(rows)[LastFor(AllPairs(rows), id)].1
  {
    ObserverMapAssignsAll(columns, rows);
    AssignLastWins(map[], AllPairs(rows), id);
  }
}
