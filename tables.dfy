/** Cell values, records and data frames as the pipeline's libraries hand them over:
    a record is a map from column name to cell value, a frame a set of columns, an
    optional coordinate reference system and a sequence of records. */
module Tables {

  datatype Option<+T> = None | Some(value: T)

  /** Why a step raised instead of returning normally. */
  datatype Error =
    | MissingColumn(column: string)     // KeyError on a column lookup
    | DuplicateSpecies                  // ValueError: the species index must be unique
    | Unreadable(what: string)          // the library could not read a file
    | CrsMismatch                       // ValueError: frames with two different systems concatenated

  datatype Result<+T> = Success(value: T) | Failure(error: Error)

  /** A geometry is opaque: only equality matters, and its text is its WKT. */
  datatype Geometry = Geometry(wkt: string)

  /** A cell. Missing stands for NaN/None, the value pandas puts in an empty cell;
      Other is any remaining value (a float, a date), identified by its str() text. */
  datatype Value =
    | Missing
    | Text(text: string)
    | Int(n: int)
    | Shape(geometry: Geometry)
    | Other(shown: string)

  type Row = map<string, Value>

  datatype Frame = Frame(crs: Option<string>, columns: set<string>, rows: seq<Row>)

  /** A single-layer output file: not there, there but unreadable, or holding a frame. */
  datatype Stored = Absent | Corrupt | Stored(frame: Frame)

  /** The name of the active geometry column. */
  const GeometryColumn := "geometry"

  /** The coordinate reference system every output is brought to. */
  const TargetCrs := "EPSG:4326"

  /** Reading a cell: a column the record does not carry reads as NaN, which is what
      pandas stores there when frames with different columns are concatenated. */
  function Cell(r: Row, c: string): Value {
    if c in r then r[c] else Missing
  }

  function DigitChar(d: nat): char
    requires d < 10
  {
    "0123456789"[d]
  }

  function Digits(n: nat): (s: string)
    ensures |s| > 0
    decreases n
  {
    if n < 10 then [DigitChar(n)] else Digits(n / 10) + [DigitChar(n % 10)]
  }

  /** Python's str() of a cell value. A missing value prints as "nan". */
  function Str(v: Value): string {
    match v
    case Missing => "nan"
    case Text(s) => s
    case Int(n) => if n < 0 then "-" + Digits(-n) else Digits(n)
    case Shape(g) => g.wkt
    case Other(s) => s
  }

  /** A record widened (or narrowed) to exactly the given columns. */
  function Pad(r: Row, cols: set<string>): (p: Row)
    ensures p.Keys == cols
  {
    map c | c in cols :: Cell(r, c)
  }

  function PadAll(rows: seq<Row>, cols: set<string>): (ps: seq<Row>)
    ensures |ps| == |rows|
    ensures forall k :: 0 <= k < |rows| ==> ps[k] == Pad(rows[k], cols)
  {
    seq(|rows|, k requires 0 <= k < |rows| => Pad(rows[k], cols))
  }

  function AllColumns(frames: seq<Frame>): set<string> {
    if |frames| == 0 then {} else AllColumns(frames[..|frames| - 1]) + frames[|frames| - 1].columns
  }

  function TotalRows(frames: seq<Frame>): nat {
    if |frames| == 0 then 0 else TotalRows(frames[..|frames| - 1]) + |frames[|frames| - 1].rows|
  }

  /** geopandas keeps the one coordinate system the inputs share; inputs without one
      do not count. */
  function CommonCrs(frames: seq<Frame>): Option<string> {
    if |frames| == 0 then None
    else if frames[0].crs.Some? then frames[0].crs
    else CommonCrs(frames[1..])
  }

  /** When every input is without a system or in c, so is the concatenation. */
  lemma {:induction false} CommonCrsWithin(frames: seq<Frame>, c: string)
    requires forall k :: 0 <= k < |frames| ==> frames[k].crs.None? || frames[k].crs == Some(c)
    ensures CommonCrs(frames).None? || CommonCrs(frames) == Some(c)
  {
    if |frames| > 0 && frames[0].crs.None? {
      assert forall k :: 0 <= k < |frames| - 1 ==> frames[1..][k] == frames[k + 1];
      CommonCrsWithin(frames[1..], c);
    }
  }

  function ConcatRows(frames: seq<Frame>, cols: set<string>): (rows: seq<Row>)
    ensures |rows| == TotalRows(frames)
  {
    if |frames| == 0 then []
    else ConcatRows(frames[..|frames| - 1], cols) + PadAll(frames[|frames| - 1].rows, cols)
  }

  /** pd.concat(frames, ignore_index=True): the union of the columns, the records one
      frame after another, each filled with NaN where its frame lacked a column. */
  function Concat(frames: seq<Frame>): Frame {
    var cols := AllColumns(frames);
    Frame(CommonCrs(frames), cols, ConcatRows(frames, cols))
  }

  lemma ColumnsOfPrefix(frames: seq<Frame>, i: nat)
    requires i <= |frames|
    ensures AllColumns(frames[..i]) <= AllColumns(frames)
    decreases |frames| - i
  {
    if i < |frames| {
      ColumnsOfPrefix(frames, i + 1);
      assert frames[..i + 1][..i] == frames[..i];
    } else {
      assert frames[..i] == frames;
    }
  }

  lemma ColumnsOfMember(frames: seq<Frame>, i: nat)
    requires i < |frames|
    ensures frames[i].columns <= AllColumns(frames)
  {
    ColumnsOfPrefix(frames, i + 1);
    assert frames[..i + 1][..i] == frames[..i];
  }

  /** The merged records, frame by frame: the k-th record of frame i sits after all
      records of the frames before it and agrees with its source on every column. */
  lemma {:induction false} ConcatAgrees(frames: seq<Frame>, i: nat, k: nat, c: string)
    requires i < |frames| && k < |frames[i].rows|
    requires c in AllColumns(frames)
    ensures TotalRows(frames[..i]) + k < |Concat(frames).rows|
    ensures Cell(Concat(frames).rows[TotalRows(frames[..i]) + k], c) == Cell(frames[i].rows[k], c)
  {
    ConcatRowsAgree(frames, AllColumns(frames), i, k, c);
  }

  lemma {:induction false} ConcatRowsAgree(frames: seq<Frame>, cols: set<string>, i: nat, k: nat, c: string)
    requires i < |frames| && k < |frames[i].rows|
    requires c in cols
    ensures TotalRows(frames[..i]) + k < |ConcatRows(frames, cols)|
    ensures Cell(ConcatRows(frames, cols)[TotalRows(frames[..i]) + k], c) == Cell(frames[i].rows[k], c)
  {
    var n := |frames|;
    var init := frames[..n - 1];
    if i < n - 1 {
      ConcatRowsAgree(init, cols, i, k, c);
      assert init[..i] == frames[..i];
      assert init[i] == frames[i];
      PrefixRowsBound(init, i);
    } else {
      assert frames[..i] == init;
    }
  }

  lemma {:induction false} PrefixRowsBound(frames: seq<Frame>, i: nat)
    requires i < |frames|
    ensures TotalRows(frames[..i]) + |frames[i].rows| <= TotalRows(frames)
    decreases |frames|
  {
    var n := |frames|;
    var init := frames[..n - 1];
    if i < n - 1 {
      PrefixRowsBound(init, i);
      assert init[..i] == frames[..i];
    } else {
      assert frames[..i] == init;
    }
  }

  // ---------------------------------------------------------------- sequence facts

  /* Stated once for any element type: proved about sequences of rows, frames or
     strings directly, the same facts make the solver compare the elements too. */

  lemma LastOfAppend<T>(a: seq<T>, b: seq<T>)
    requires |b| > 0
    ensures (a + b)[..|a + b| - 1] == a + b[..|b| - 1]
    ensures (a + b)[|a + b| - 1] == b[|b| - 1]
  {
    assert (a + b)[..|a + b| - 1] == a + b[..|b| - 1];
  }

  lemma SliceOfAppend<T>(a: seq<T>, b: seq<T>, i: nat)
    requires i <= |a|
    ensures (a + b)[..i] == a[..i]
    ensures (a + b)[i..] == a[i..] + b
  {
    assert (a + b)[..i] == a[..i];
    assert (a + b)[i..] == a[i..] + b;
  }

  lemma ConcatAssociates<T>(x: seq<T>, y: seq<T>, z: seq<T>)
    ensures (x + y) + z == x + (y + z)
  {
  }
}
