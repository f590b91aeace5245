/** The species reference table (species -> type, english_name) and the fill of
    those two columns in an uploaded file. */
module Species {
  import opened Tables

  const SpeciesColumn := "species"
  const TypeColumn := "type"
  const EnglishNameColumn := "english_name"

  /** The two fields a reference entry supplies. */
  datatype Taxon = Taxon(kind: Value, englishName: Value)

  function SpeciesOf(r: Row): Value {
    Cell(r, SpeciesColumn)
  }

  function TaxonOf(r: Row): Taxon {
    Taxon(Cell(r, TypeColumn), Cell(r, EnglishNameColumn))
  }

  ghost predicate HasDuplicateSpecies(rows: seq<Row>) {
    exists i, j :: 0 <= i < j < |rows| && SpeciesOf(rows[i]) == SpeciesOf(rows[j])
  }

  lemma DuplicateInPrefix(rows: seq<Row>)
    requires |rows| > 0 && HasDuplicateSpecies(rows[..|rows| - 1])
    ensures HasDuplicateSpecies(rows)
  {
    var init := rows[..|rows| - 1];
    var i, j :| 0 <= i < j < |init| && SpeciesOf(init[i]) == SpeciesOf(init[j]);
    assert init[i] == rows[i] && init[j] == rows[j];
  }

  lemma DuplicateOfLast(rows: seq<Row>, i: nat)
    requires i < |rows| - 1 && SpeciesOf(rows[i]) == SpeciesOf(rows[|rows| - 1])
    ensures HasDuplicateSpecies(rows)
  {
  }

  lemma NoDuplicateAfterFresh(rows: seq<Row>)
    requires |rows| > 0 && !HasDuplicateSpecies(rows[..|rows| - 1])
    requires forall i :: 0 <= i < |rows| - 1 ==> SpeciesOf(rows[i]) != SpeciesOf(rows[|rows| - 1])
    ensures !HasDuplicateSpecies(rows)
  {
    var init := rows[..|rows| - 1];
    forall i, j | 0 <= i < j < |rows| ensures SpeciesOf(rows[i]) != SpeciesOf(rows[j]) {
      if j < |init| {
        assert init[i] == rows[i] && init[j] == rows[j];
      }
    }
  }

  /** set_index('species').to_dict(orient='index') on the reference rows: None when
      the index has a repeated species (see IndexBySpeciesMeaning). */
  function IndexBySpecies(rows: seq<Row>): Option<map<Value, Taxon>> {
    if |rows| == 0 then Some(map[])
    else
      match IndexBySpecies(rows[..|rows| - 1])
      case None => None
      case Some(m) =>
        var last := rows[|rows| - 1];
        if SpeciesOf(last) in m then None else Some(m[SpeciesOf(last) := TaxonOf(last)])
  }

  /** The index exists exactly when no species is listed twice; then its keys are the
      listed species and each maps to its own row's type and english_name. */
  lemma {:induction false} IndexBySpeciesMeaning(rows: seq<Row>)
    ensures IndexBySpecies(rows).None? <==> HasDuplicateSpecies(rows)
    ensures IndexBySpecies(rows).Some? ==> forall v :: v in IndexBySpecies(rows).value <==>
      exists i :: 0 <= i < |rows| && SpeciesOf(rows[i]) == v
    ensures IndexBySpecies(rows).Some? ==> forall i :: 0 <= i < |rows| ==>
      IndexBySpecies(rows).value[SpeciesOf(rows[i])] == TaxonOf(rows[i])
  {
    if |rows| > 0 {
      var init := rows[..|rows| - 1];
      var last := rows[|rows| - 1];
      IndexBySpeciesMeaning(init);
      assert forall i :: 0 <= i < |init| ==> init[i] == rows[i];
      match IndexBySpecies(init)
      case None =>
        DuplicateInPrefix(rows);
      case Some(m) =>
        if SpeciesOf(last) in m {
          var i :| 0 <= i < |init| && SpeciesOf(init[i]) == SpeciesOf(last);
          DuplicateOfLast(rows, i);
        } else {
          NoDuplicateAfterFresh(rows);
        }
    }
  }

  /** The reference table, or the error building it raises: a KeyError when a column is
      missing, a ValueError when a species is listed twice. */
  function SpeciesTable(csv: Frame): (r: Result<map<Value, Taxon>>)
    ensures r.Failure? <==>
      SpeciesColumn !in csv.columns || TypeColumn !in csv.columns
      || EnglishNameColumn !in csv.columns || HasDuplicateSpecies(csv.rows)
    ensures r.Success? ==> forall i :: 0 <= i < |csv.rows| ==>
      SpeciesOf(csv.rows[i]) in r.value && r.value[SpeciesOf(csv.rows[i])] == TaxonOf(csv.rows[i])
    ensures r.Success? ==> forall v :: v in r.value ==> exists i :: 0 <= i < |csv.rows| && SpeciesOf(csv.rows[i]) == v
  {
    if SpeciesColumn !in csv.columns then Failure(MissingColumn(SpeciesColumn))
    else if TypeColumn !in csv.columns then Failure(MissingColumn(TypeColumn))
    else if EnglishNameColumn !in csv.columns then Failure(MissingColumn(EnglishNameColumn))
    else
      IndexBySpeciesMeaning(csv.rows);
      match IndexBySpecies(csv.rows)
      case None => Failure(DuplicateSpecies)
      case Some(m) => Success(m)
  }

  /** The frame with column c set, record by record, to the given values. */
  function WithColumn(f: Frame, c: string, vals: seq<Value>): (g: Frame)
    requires |vals| == |f.rows|
    ensures g.crs == f.crs && g.columns == f.columns + {c} && |g.rows| == |f.rows|
    ensures forall i :: 0 <= i < |g.rows| ==> g.rows[i] == f.rows[i][c := vals[i]]
  {
    Frame(f.crs, f.columns + {c}, seq(|f.rows|, i requires 0 <= i < |f.rows| => f.rows[i][c := vals[i]]))
  }

  /** `species_mapping.get(sp, {}).get(field, fallback)` for every record; fallback is
      what the library hands back for a species the table does not know. */
  function Looked(f: Frame, table: map<Value, Taxon>, pick: Taxon -> Value, fallback: Value): (vals: seq<Value>)
    ensures |vals| == |f.rows|
  {
    seq(|f.rows|, i requires 0 <= i < |f.rows| =>
      var sp := SpeciesOf(f.rows[i]);
      if sp in table then pick(table[sp]) else fallback)
  }

  /** Filling `type` and then `english_name` from the table, for a frame with a
      species column. `unknown(frame, column)` stands for the value stored for a species
      missing from the table, which the source leaves to a library quirk. */
  function FillSpecies(f: Frame, table: map<Value, Taxon>, unknown: (Frame, string) -> Value): (g: Frame)
    ensures g.crs == f.crs && |g.rows| == |f.rows|
    ensures SpeciesColumn !in f.columns ==> g == f
    ensures SpeciesColumn in f.columns ==> g.columns == f.columns + {TypeColumn, EnglishNameColumn}
    ensures forall i, c :: 0 <= i < |f.rows| && c != TypeColumn && c != EnglishNameColumn ==>
      Cell(g.rows[i], c) == Cell(f.rows[i], c)
    ensures SpeciesColumn in f.columns ==> forall i :: 0 <= i < |f.rows| && SpeciesOf(f.rows[i]) in table ==>
      && Cell(g.rows[i], TypeColumn) == table[SpeciesOf(f.rows[i])].kind
      && Cell(g.rows[i], EnglishNameColumn) == table[SpeciesOf(f.rows[i])].englishName
  {
    if SpeciesColumn !in f.columns then f
    else
      var typed := WithColumn(f, TypeColumn, Looked(f, table, (t: Taxon) => t.kind, unknown(f, TypeColumn)));
      assert forall i :: 0 <= i < |f.rows| ==> SpeciesOf(typed.rows[i]) == SpeciesOf(f.rows[i]);
      WithColumn(typed, EnglishNameColumn, Looked(typed, table, (t: Taxon) => t.englishName, unknown(typed, EnglishNameColumn)))
  }
}
