/** `clean_data` (data/process_data.py): the encoded `categories` column of
    the joined messages/categories frame is split into one integer column
    per category, `related` is coerced to {0, 1}, full-row duplicates are
    dropped and nulls are filled with 0. */
module ProcessData {
  import opened Wrappers
  import opened Tables
  import opened CategoryCodec
  import opened Duplicates
  import opened Frames

  const CategoriesColumn: string := "categories"
  const RelatedColumn: string := "related"
  /** The dictionary passed to `map` for `related`. */
  const RelatedCoding: map<int, int> := map[0 := 0, 1 := 1, 2 := 1]
  /** The value passed to `fillna`. */
  const FillValue: Cell := Num(0)

  /** The exceptions `clean_data` lets through. */
  datatype CleanError =
    | MissingColumn(name: string)     // KeyError on frame[name]
    | AmbiguousColumn(name: string)   // frame[name] selects several columns, which have no .str or .map
    | NoRows                          // iloc[0] of an empty frame
    | UnnamedColumn(position: nat)    // x[:-2] applied to a null of the first row
    | NotConvertible(name: string)    // astype(int) of a column holding a missing, empty or non-digit part

  /** What lines 19-27 produce: where `categories` was, the derived column
      names and the converted cells. */
  datatype Decoded = Decoded(position: nat, names: seq<string>, values: seq<Row>)

  /** `row.apply(lambda x: x[:-2])` on the first expanded row: the name of
      every column, or the first position holding no string. */
  function NamesOf(row: Row): (r: Result<seq<string>, CleanError>)
    ensures r.Ok? <==> forall j :: 0 <= j < |row| ==> row[j].Text?
    ensures r.Ok? ==> |r.value| == |row|
    ensures r.Ok? ==> forall j :: 0 <= j < |row| ==> row[j].Text? && r.value[j] == ColumnName(row[j].s)
    ensures r.Err? ==> r.error.UnnamedColumn? && r.error.position < |row|
    ensures r.Err? ==> !row[r.error.position].Text?
    ensures r.Err? ==> forall j :: 0 <= j < r.error.position ==> row[j].Text?
  {
    if row == [] then Ok([])
    else if !row[0].Text? then Err(UnnamedColumn(0))
    else match NamesOf(row[1..])
      case Ok(rest) => Ok([ColumnName(row[0].s)] + rest)
      case Err(e) => Err(UnnamedColumn(e.position + 1))
  }

  /** Every part of column `c` has a digit as its last character, and the
      column's name selects it alone. */
  predicate ColumnConverts(names: seq<string>, parts: seq<Row>, c: nat)
    requires Rectangular(parts, |names|) && c < |names|
  {
    && Count(names, names[c]) == 1
    && forall i :: 0 <= i < |parts| ==> LastDigit(parts[i][c]).Some?
  }

  /** The exception the loop raises at column `c`. */
  function ColumnError(names: seq<string>, c: nat): CleanError
    requires c < |names|
  {
    if Count(names, names[c]) > 1 then AmbiguousColumn(names[c]) else NotConvertible(names[c])
  }

  /** Every part replaced by the integer of its last character. */
  function Digits(parts: seq<Row>, w: nat): (m: seq<Row>)
    requires Rectangular(parts, w)
    ensures Rectangular(m, w) && |m| == |parts|
  {
    seq(|parts|, i requires 0 <= i < |parts| => seq(w, c requires 0 <= c < w => DigitCell(parts[i][c])))
  }

  /** The loop of lines 23-27 from column `j` on: the first column that
      cannot be converted raises; otherwise every part becomes its digit. */
  function ConvertFrom(names: seq<string>, parts: seq<Row>, j: nat): (r: Result<seq<Row>, CleanError>)
    requires Rectangular(parts, |names|) && j <= |names|
    ensures r.Ok? <==> forall c :: j <= c < |names| ==> ColumnConverts(names, parts, c)
    ensures r.Ok? ==> r.value == Digits(parts, |names|)
    ensures r.Err? ==>
              exists c :: && j <= c < |names|
                          && !ColumnConverts(names, parts, c)
                          && r.error == ColumnError(names, c)
                          && forall b :: j <= b < c ==> ColumnConverts(names, parts, b)
    decreases |names| - j
  {
    if j == |names| then Ok(Digits(parts, |names|))
    else if !ColumnConverts(names, parts, j) then Err(ColumnError(names, j))
    else ConvertFrom(names, parts, j + 1)
  }

  /** The parts once the loop of lines 23-27 has converted the columns
      before `j`. */
  function Stage(parts: seq<Row>, w: nat, j: nat): (m: seq<Row>)
    requires Rectangular(parts, w)
    ensures Rectangular(m, w) && |m| == |parts|
  {
    seq(|parts|, b requires 0 <= b < |parts| =>
      seq(w, c requires 0 <= c < w => if c < j then DigitCell(parts[b][c]) else parts[b][c]))
  }

  /** Lines 25-26 on one column: every part of column `j` replaced by the
      integer of its last character. */
  function ConvertColumn(m: seq<Row>, j: nat): (r: seq<Row>)
    requires forall b :: 0 <= b < |m| ==> j < |m[b]|
    ensures |r| == |m|
    ensures forall b :: 0 <= b < |m| ==> r[b] == m[b][j := DigitCell(m[b][j])]
  {
    seq(|m|, b requires 0 <= b < |m| => m[b][j := DigitCell(m[b][j])])
  }

  lemma StagePending(parts: seq<Row>, w: nat, j: nat)
    requires Rectangular(parts, w) && j < w
    ensures forall b :: 0 <= b < |parts| ==> Stage(parts, w, j)[b][j] == parts[b][j]
  {
  }

  lemma StageNextColumn(parts: seq<Row>, w: nat, j: nat)
    requires Rectangular(parts, w) && j < w
    ensures ConvertColumn(Stage(parts, w, j), j) == Stage(parts, w, j + 1)
  {
    var m := Stage(parts, w, j);
    forall b | 0 <= b < |parts| ensures ConvertColumn(m, j)[b] == Stage(parts, w, j + 1)[b] {
      assert m[b][j] == parts[b][j];
    }
  }

  lemma StageDone(parts: seq<Row>, w: nat)
    requires Rectangular(parts, w)
    ensures Stage(parts, w, w) == Digits(parts, w)
  {
    forall b | 0 <= b < |parts| ensures Stage(parts, w, w)[b] == Digits(parts, w)[b] {
    }
  }

  lemma StageStart(parts: seq<Row>, w: nat)
    requires Rectangular(parts, w)
    ensures Stage(parts, w, 0) == parts
  {
    forall b | 0 <= b < |parts| ensures Stage(parts, w, 0)[b] == parts[b] {
    }
  }

  /** Lines 23-27: for each derived column in turn, every part is replaced
      by the integer value of its last character; the first column that is
      selected ambiguously or holds a part without a final digit raises. */
  method ConvertCategories(names: seq<string>, parts: seq<Row>) returns (res: Result<seq<Row>, CleanError>)
    requires Rectangular(parts, |names|)
    ensures res == ConvertFrom(names, parts, 0)
  {
    var w := |names|;
    var cats := parts;
    StageStart(parts, w);
    var j := 0;
    while j < w
      invariant 0 <= j <= w
      invariant ConvertFrom(names, parts, j) == ConvertFrom(names, parts, 0)
      invariant cats == Stage(parts, w, j)
    {
      var name := names[j];
      if Count(names, name) > 1 {
        assert !ColumnConverts(names, parts, j);
        return Err(AmbiguousColumn(name));
      }
      StagePending(parts, w, j);
      if exists b :: 0 <= b < |cats| && LastDigit(cats[b][j]).None? {
        ghost var b :| 0 <= b < |cats| && LastDigit(cats[b][j]).None?;
        assert LastDigit(parts[b][j]).None?;
        assert !ColumnConverts(names, parts, j);
        return Err(NotConvertible(name));
      }
      assert ColumnConverts(names, parts, j);
      StageNextColumn(parts, w, j);
      cats := ConvertColumn(cats, j);
      j := j + 1;
    }
    StageDone(parts, w);
    return Ok(cats);
  }

  /** Lines 19-22: locate `categories`, split it and name the parts after
      the first row. The result holds the unconverted parts. */
  function SplitCategories(t: Table): (r: Result<Decoded, CleanError>)
    requires WellFormed(t)
    ensures r.Ok? ==> && r.value.position < |t.columns|
                      && t.columns[r.value.position] == CategoriesColumn
                      && |r.value.values| == |t.rows| > 0
                      && Rectangular(r.value.values, |r.value.names|)
  {
    var n := Count(t.columns, CategoriesColumn);
    if n == 0 then Err(MissingColumn(CategoriesColumn))
    else if n > 1 then Err(AmbiguousColumn(CategoriesColumn))
    else
      var k := IndexOf(t.columns, CategoriesColumn);
      var parts := Expand(Column(t, k));
      if parts == [] then Err(NoRows)
      else match NamesOf(parts[0])
        case Err(e) => Err(e)
        case Ok(names) => Ok(Decoded(k, names, parts))
  }

  /** Lines 19-27: the split parts, each converted to its digit. */
  function DecodeCategories(t: Table): (r: Result<Decoded, CleanError>)
    requires WellFormed(t)
    ensures r.Ok? ==> && r.value.position < |t.columns|
                      && t.columns[r.value.position] == CategoriesColumn
                      && |r.value.values| == |t.rows|
                      && Rectangular(r.value.values, |r.value.names|)
  {
    match SplitCategories(t)
    case Err(e) => Err(e)
    case Ok(s) =>
      match ConvertFrom(s.names, s.values, 0)
      case Err(e) => Err(e)
      case Ok(values) => Ok(Decoded(s.position, s.names, values))
  }

  /** Lines 29-30: the frame without `categories`, followed by the derived
      columns. */
  function Assemble(t: Table, d: Decoded): (r: Table)
    requires WellFormed(t) && d.position < |t.columns|
    requires |d.values| == |t.rows| && Rectangular(d.values, |d.names|)
    ensures WellFormed(r)
  {
    Concat(DropColumn(t, d.position), d.names, d.values)
  }

  /** Lines 19-31: the assembled frame with `related` sent through
      {0: 0, 1: 1, 2: 1}. */
  function Coerced(t: Table): (r: Result<Table, CleanError>)
    requires WellFormed(t)
    ensures r.Ok? ==> WellFormed(r.value)
  {
    match DecodeCategories(t)
    case Err(e) => Err(e)
    case Ok(d) =>
      var joined := Assemble(t, d);
      var n := Count(joined.columns, RelatedColumn);
      if n == 0 then Err(MissingColumn(RelatedColumn))
      else if n > 1 then Err(AmbiguousColumn(RelatedColumn))
      else
        var k := IndexOf(joined.columns, RelatedColumn);
        Ok(Table(joined.columns, MapColumn(joined.rows, k, RelatedCoding)))
  }

  /** `clean_data` as written: duplicates are dropped (line 32) before
      nulls are filled (line 33). */
  function Clean(t: Table): (r: Result<Table, CleanError>)
    requires WellFormed(t)
    ensures r.Ok? ==> WellFormed(r.value)
  {
    match Coerced(t)
    case Err(e) => Err(e)
    case Ok(c) => Ok(Table(c.columns, FillNulls(FillValue, Dedup(c.rows))))
  }

  /** `clean_data` with lines 32 and 33 in the other order, so that rows
      made equal by the fill are dropped too. */
  function CleanCorrected(t: Table): (r: Result<Table, CleanError>)
    requires WellFormed(t)
    ensures r.Ok? ==> WellFormed(r.value)
  {
    match Coerced(t)
    case Err(e) => Err(e)
    case Ok(c) =>
      FillKeepsWellFormed(FillValue, c);
      Ok(Table(c.columns, Dedup(FillNulls(FillValue, c.rows))))
  }

  /** Lines 19-27 run on the frame: the decoded categories, or the
      exception raised on the way. */
  method DecodeFrame(df: Frame) returns (res: Result<Decoded, CleanError>)
    requires df.Valid()
    ensures res == DecodeCategories(df.Contents())
  {
    // lines 19-22
    var split := SplitCategories(df.Contents());
    if split.Err? {
      return Err(split.error);
    }
    // lines 23-27
    var s := split.value;
    var values := ConvertCategories(s.names, s.values);
    if values.Err? {
      return Err(values.error);
    }
    return Ok(Decoded(s.position, s.names, values.value));
  }

  /** `clean_data(df)`. The frame passed in loses its `categories` column
      (line 29 drops it in place) once decoding has succeeded, even when
      the `related` lookup then raises; the cleaned frame is a new one. */
  method CleanData(df: Frame) returns (res: Result<Frame, CleanError>)
    requires df.Valid()
    modifies df
    ensures df.Valid()
    ensures res.Ok? ==> fresh(res.value) && res.value.Valid()
    ensures res.Ok? ==> Clean(old(df.Contents())) == Ok(res.value.Contents())
    ensures res.Err? ==> Clean(old(df.Contents())) == Err(res.error)
    ensures df.Contents() == (match DecodeCategories(old(df.Contents()))
                               case Ok(d) => DropColumn(old(df.Contents()), d.position)
                               case Err(_) => old(df.Contents()))
  {
    ghost var t := df.Contents();
    // lines 19-27
    var decoded := DecodeFrame(df);
    if decoded.Err? {
      return Err(decoded.error);
    }
    var d := decoded.value;
    // line 29
    df.DropAt(d.position);
    // line 30
    var out := new Frame(Concat(df.Contents(), d.names, d.values));
    assert out.Contents() == Assemble(t, d);
    // line 31
    var m := Count(out.columns, RelatedColumn);
    if m == 0 {
      return Err(MissingColumn(RelatedColumn));
    }
    if m > 1 {
      return Err(AmbiguousColumn(RelatedColumn));
    }
    out.MapAt(IndexOf(out.columns, RelatedColumn), RelatedCoding);
    ghost var c := out.Contents();
    assert Coerced(t) == Ok(c);
    // line 32
    out.DropDuplicates();
    // line 33
    out.FillNa(FillValue);
    assert Clean(t) == Ok(Table(c.columns, FillNulls(FillValue, Dedup(c.rows))));
    return Ok(out);
  }
}
