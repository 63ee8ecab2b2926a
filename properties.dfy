/** What `clean_data` promises, stated over the specification functions
    of ProcessData. */
module CleanProperties {
  import opened Wrappers
  import opened Tables
  import opened CategoryCodec
  import opened Duplicates
  import opened Frames
  import opened ProcessData

  /** The encoded strings of a categories column all split into the same
      number of pieces as the first one. */
  predicate Uniform(cells: seq<Cell>)
  {
    && |cells| > 0
    && forall i :: 0 <= i < |cells| ==> cells[i].Text? && PartCount(cells[i]) == PartCount(cells[0])
  }

  /** Every piece of every encoded string ends in a decimal digit. */
  predicate Convertible(cells: seq<Cell>)
  {
    forall i, j :: 0 <= i < |cells| && cells[i].Text? && 0 <= j < |Split(cells[i].s)| ==>
      LastDigit(Text(Split(cells[i].s)[j])).Some?
  }

  /** The column names line 21 derives from the first encoded string. */
  function DerivedNames(cells: seq<Cell>): seq<string>
    requires |cells| > 0 && cells[0].Text?
  {
    var ps := Split(cells[0].s);
    seq(|ps|, j requires 0 <= j < |ps| => ColumnName(ps[j]))
  }

  /** The integers the first `n` pieces of an encoded string convert to. */
  function PieceValues(c: Cell, n: nat): (r: Row)
    requires c.Text? && n <= |Split(c.s)|
    requires forall j :: 0 <= j < n ==> LastDigit(Text(Split(c.s)[j])).Some?
    ensures |r| == n
    ensures forall j :: 0 <= j < n ==> r[j] == Num(LastDigit(Text(Split(c.s)[j])).value)
  {
    seq(n, j requires 0 <= j < n => Num(LastDigit(Text(Split(c.s)[j])).value))
  }

  /** The categories column of `t` (meaningful when there is exactly one). */
  function CategoryCells(t: Table): seq<Cell>
    requires WellFormed(t) && CategoriesColumn in t.columns
  {
    Column(t, IndexOf(t.columns, CategoriesColumn))
  }

  /** The input lines 19-27 decode without raising. */
  predicate Decodable(t: Table)
    requires WellFormed(t)
  {
    && Count(t.columns, CategoriesColumn) == 1
    && Uniform(CategoryCells(t))
    && Convertible(CategoryCells(t))
    && Distinct(DerivedNames(CategoryCells(t)))
  }

  /** When every string has as many pieces as the first, the expanded frame
      is exactly that wide. */
  lemma UniformWidth(cells: seq<Cell>)
    requires Uniform(cells)
    ensures Width(cells) == PartCount(cells[0])
  {
    assert cells[0] in cells;
    var c :| c in cells && PartCount(c) == Width(cells);
  }

  /** The expanded frame has a column for every piece of every row, and
      at least one. */
  lemma WidthBounds(cells: seq<Cell>, i: nat)
    requires i < |cells|
    ensures 1 <= PartCount(cells[i]) <= Width(cells)
  {
    assert cells[i] in cells;
  }

  /** A successful conversion found a digit in every part and a distinct
      name for every column. */
  lemma {:induction false} ConvertedEverywhere(names: seq<string>, parts: seq<Row>)
    requires Rectangular(parts, |names|)
    requires ConvertFrom(names, parts, 0).Ok?
    ensures forall i, c :: 0 <= i < |parts| && 0 <= c < |names| ==> LastDigit(parts[i][c]).Some?
    ensures Distinct(names)
  {
    forall i, c | 0 <= i < |parts| && 0 <= c < |names| ensures LastDigit(parts[i][c]).Some? {
      assert ColumnConverts(names, parts, c);
    }
    forall c | 0 <= c < |names| ensures Count(names, names[c]) == 1 {
      assert ColumnConverts(names, parts, c);
    }
    DistinctIffCountsOne(names);
  }

  /** An expansion without nulls comes from a column of strings that all
      split into as many pieces as the expansion is wide. */
  lemma NoNullsMeansUniform(cells: seq<Cell>)
    requires forall i, j :: 0 <= i < |cells| && 0 <= j < Width(cells) ==> Expand(cells)[i][j] != Null
    ensures forall i :: 0 <= i < |cells| ==> cells[i].Text? && PartCount(cells[i]) == Width(cells)
  {
    forall i | 0 <= i < |cells| ensures cells[i].Text? && PartCount(cells[i]) == Width(cells) {
      if !cells[i].Text? || |Split(cells[i].s)| != Width(cells) {
        RaggedRowHasNull(cells, i);
      }
    }
  }

  /** A column whose expansion names and converts without raising. */
  lemma {:induction false} ExpandedDecodes(cells: seq<Cell>, names: seq<string>)
    requires Expand(cells) != []
    requires NamesOf(Expand(cells)[0]) == Ok(names)
    requires ConvertFrom(names, Expand(cells), 0).Ok?
    ensures Uniform(cells) && Convertible(cells)
    ensures names == DerivedNames(cells) && Distinct(names)
  {
    var parts := Expand(cells);
    var w := Width(cells);
    ConvertedEverywhere(names, parts);
    assert forall i, j :: 0 <= i < |cells| && 0 <= j < w ==> parts[i][j] != Null by {
      forall i, j | 0 <= i < |cells| && 0 <= j < w ensures parts[i][j] != Null {
        assert LastDigit(parts[i][j]).Some?;
      }
    }
    NoNullsMeansUniform(cells);
    assert Uniform(cells);
    assert Convertible(cells) by {
      forall i, j | 0 <= i < |cells| && cells[i].Text? && 0 <= j < |Split(cells[i].s)|
        ensures LastDigit(Text(Split(cells[i].s)[j])).Some?
      {
        assert parts[i][j] == Text(Split(cells[i].s)[j]);
      }
    }
    assert names == DerivedNames(cells) by {
      assert parts[0] == ExpandCell(cells[0], w);
    }
  }

  /** A uniform, convertible column with distinct names decodes. */
  lemma {:induction false} DecodableExpands(cells: seq<Cell>)
    requires Uniform(cells) && Convertible(cells) && Distinct(DerivedNames(cells))
    ensures Expand(cells) != [] && NamesOf(Expand(cells)[0]) == Ok(DerivedNames(cells))
    ensures ConvertFrom(DerivedNames(cells), Expand(cells), 0).Ok?
  {
    var parts := Expand(cells);
    var names := DerivedNames(cells);
    UniformWidth(cells);
    var nr := NamesOf(parts[0]);
    assert nr.Ok?;
    assert nr.value == names;
    DistinctIffCountsOne(names);
    forall c | 0 <= c < |names| ensures ColumnConverts(names, parts, c) {
      forall i | 0 <= i < |parts| ensures LastDigit(parts[i][c]).Some? {
        assert parts[i][c] == Text(Split(cells[i].s)[c]);
      }
    }
  }

  /** Lines 19-27 succeed exactly on a frame with one `categories` column
      whose strings all split into the same number of pieces, every piece
      ending in a digit, and whose first string names distinct columns. */
  lemma DecodeSucceedsIff(t: Table)
    requires WellFormed(t)
    ensures DecodeCategories(t).Ok? <==> Decodable(t)
  {
    if Count(t.columns, CategoriesColumn) == 1 {
      var cells := CategoryCells(t);
      if DecodeCategories(t).Ok? {
        ExpandedDecodes(cells, NamesOf(Expand(cells)[0]).value);
      }
      if Decodable(t) {
        DecodableExpands(cells);
      }
    }
  }
}

module CleanOutput {
  import opened Wrappers
  import opened Tables
  import opened CategoryCodec
  import opened Duplicates
  import opened Frames
  import opened ProcessData
  import opened CleanProperties

  /** Row `i`'s encoded string has one convertible piece per derived column. */
  lemma DecodableCell(t: Table, i: nat)
    requires WellFormed(t) && Decodable(t) && i < |t.rows|
    ensures CategoryCells(t)[i].Text?
    ensures |Split(CategoryCells(t)[i].s)| == |DerivedNames(CategoryCells(t))|
    ensures forall j :: 0 <= j < |Split(CategoryCells(t)[i].s)| ==>
              LastDigit(Text(Split(CategoryCells(t)[i].s)[j])).Some?
  {
  }

  /** The columns of the cleaned frame: those of the input without
      `categories`, in their order, then the derived names in split order. */
  function OutputColumns(t: Table): seq<string>
    requires WellFormed(t) && Decodable(t)
  {
    RemoveAt(t.columns, IndexOf(t.columns, CategoriesColumn)) + DerivedNames(CategoryCells(t))
  }

  /** Row `i` after lines 19-30, computed from its own encoded string: the
      other cells of the row, then the value of each piece. */
  function JoinedRow(t: Table, i: nat): Row
    requires WellFormed(t) && Decodable(t) && i < |t.rows|
  {
    var cells := CategoryCells(t);
    DecodableCell(t, i);
    RemoveAt(t.rows[i], IndexOf(t.columns, CategoriesColumn))
      + PieceValues(cells[i], |DerivedNames(cells)|)
  }

  /** A decodable frame decodes where `categories` is, to the derived
      names. */
  lemma DecodedShape(t: Table)
    requires WellFormed(t) && Decodable(t)
    ensures DecodeCategories(t).Ok?
    ensures DecodeCategories(t).value.position == IndexOf(t.columns, CategoriesColumn)
    ensures DecodeCategories(t).value.names == DerivedNames(CategoryCells(t))
  {
    DecodableExpands(CategoryCells(t));
  }

  /** Lines 19-27 decode row `i` into the value of each of its pieces. */
  lemma DecodedContents(t: Table)
    requires WellFormed(t) && Decodable(t)
    ensures DecodeCategories(t).Ok?
    ensures DecodeCategories(t).value.position == IndexOf(t.columns, CategoriesColumn)
    ensures DecodeCategories(t).value.names == DerivedNames(CategoryCells(t))
    ensures forall i :: 0 <= i < |t.rows| ==>
              RemoveAt(t.rows[i], DecodeCategories(t).value.position) + DecodeCategories(t).value.values[i]
              == JoinedRow(t, i)
  {
    var cells := CategoryCells(t);
    DecodedShape(t);
    DecodableExpands(cells);
    UniformWidth(cells);
    var d := DecodeCategories(t).value;
    assert d.values == Digits(Expand(cells), Width(cells));
    forall i | 0 <= i < |t.rows|
      ensures RemoveAt(t.rows[i], d.position) + d.values[i] == JoinedRow(t, i)
    {
      DecodedRow(cells, i);
    }
  }

  /** Row `i` of the converted parts holds the value of each of its pieces. */
  lemma DecodedRow(cells: seq<Cell>, i: nat)
    requires Uniform(cells) && Convertible(cells) && i < |cells|
    ensures Width(cells) == |Split(cells[i].s)|
    ensures Rectangular(Expand(cells), Width(cells))
    ensures Digits(Expand(cells), Width(cells))[i] == PieceValues(cells[i], Width(cells))
  {
    UniformWidth(cells);
    var w := Width(cells);
    var parts := Expand(cells);
    assert Rectangular(parts, w);
    var row := Digits(parts, w)[i];
    forall j | 0 <= j < w ensures row[j] == PieceValues(cells[i], w)[j] {
      assert parts[i][j] == Text(Split(cells[i].s)[j]);
    }
  }

  /** What `related` ends as: 1 for a raw 1 or 2, 0 for anything else (the
      other values map to null, which the fill turns into 0). */
  function RelatedOutcome(c: Cell): Cell
  {
    if c == Num(1) || c == Num(2) then Num(1) else Num(0)
  }

  /** The cleaned row that input row `i` becomes: `related` sent through
      {0: 0, 1: 1, 2: 1}, then every null filled with 0. */
  function ExpectedRow(t: Table, i: nat): Row
    requires WellFormed(t) && Decodable(t) && i < |t.rows|
    requires Count(OutputColumns(t), RelatedColumn) == 1
  {
    Finish(JoinedRow(t, i), IndexOf(OutputColumns(t), RelatedColumn))
  }

  /** Lines 31 and 33 on one row: `related` (at `p`) mapped, nulls filled. */
  function Finish(joined: Row, p: nat): Row
    requires p < |joined|
  {
    FillRow(FillValue, joined[p := MapCell(RelatedCoding, joined[p])])
  }

  /** `clean_data` returns a frame exactly when lines 19-27 decode and the
      assembled frame has a single `related` column; its columns are the
      input's without `categories`, then the derived names. */
  lemma CleanSucceedsIff(t: Table)
    requires WellFormed(t)
    ensures Clean(t).Ok? <==> Decodable(t) && Count(OutputColumns(t), RelatedColumn) == 1
    ensures Clean(t).Ok? ==> Clean(t).value.columns == OutputColumns(t)
  {
    DecodeSucceedsIff(t);
    if Decodable(t) {
      CleanOfDecodable(t);
    } else {
      assert Coerced(t).Err?;
    }
  }

  /** On a decodable frame, cleaning hinges on `related` alone. */
  lemma CleanOfDecodable(t: Table)
    requires WellFormed(t) && Decodable(t)
    ensures Clean(t).Ok? <==> Count(OutputColumns(t), RelatedColumn) == 1
    ensures Clean(t).Ok? ==> Clean(t).value.columns == OutputColumns(t)
  {
    DecodedShape(t);
    var joined := Assemble(t, DecodeCategories(t).value);
    assert joined.columns == OutputColumns(t);
  }

  /** Lines 30-31 on a decoded frame, as a table of joined rows. */
  lemma AssembledRows(t: Table)
    requires WellFormed(t) && Decodable(t)
    ensures DecodeCategories(t).Ok?
    ensures Assemble(t, DecodeCategories(t).value).columns == OutputColumns(t)
    ensures |Assemble(t, DecodeCategories(t).value).rows| == |t.rows|
    ensures forall i :: 0 <= i < |t.rows| ==> Assemble(t, DecodeCategories(t).value).rows[i] == JoinedRow(t, i)
  {
    DecodedContents(t);
  }

  /** The cleaned frame has a `categories` column only when the encoded
      strings themselves name one: the input's own is gone, and every
      other input column is kept. */
  lemma CleanDropsCategories(t: Table)
    requires WellFormed(t) && Clean(t).Ok?
    ensures Decodable(t)
    ensures CategoriesColumn in Clean(t).value.columns <==> CategoriesColumn in DerivedNames(CategoryCells(t))
    ensures forall x :: x in t.columns && x != CategoriesColumn ==> x in Clean(t).value.columns
  {
    CleanSucceedsIff(t);
    var k := IndexOf(t.columns, CategoriesColumn);
    RemoveOnlyOccurrence(t.columns, k);
  }

  /** The rows of the cleaned frame before the fill: lines 19-31 turn input
      row `i` into JoinedRow(t, i) with `related` mapped. */
  lemma CoercedRows(t: Table)
    requires WellFormed(t) && Coerced(t).Ok?
    ensures Decodable(t) && Count(OutputColumns(t), RelatedColumn) == 1
    ensures Coerced(t).value.columns == OutputColumns(t)
    ensures |Coerced(t).value.rows| == |t.rows|
    ensures forall i :: 0 <= i < |t.rows| ==>
              FillRow(FillValue, Coerced(t).value.rows[i]) == ExpectedRow(t, i)
  {
    DecodeSucceedsIff(t);
    AssembledRows(t);
    var joined := Assemble(t, DecodeCategories(t).value);
    var p := IndexOf(joined.columns, RelatedColumn);
    var rows := MapColumn(joined.rows, p, RelatedCoding);
    assert Coerced(t) == Ok(Table(joined.columns, rows));
    forall i | 0 <= i < |t.rows|
      ensures FillRow(FillValue, rows[i]) == ExpectedRow(t, i)
    {
      assert rows[i] == JoinedRow(t, i)[p := MapCell(RelatedCoding, JoinedRow(t, i)[p])];
    }
  }

  /** Every input row survives as its cleaned form, every output row is the
      cleaned form of some input row, and there are no more output rows
      than input rows. */
  lemma CleanRowsCorrespond(t: Table)
    requires WellFormed(t) && Clean(t).Ok?
    ensures Decodable(t) && Count(OutputColumns(t), RelatedColumn) == 1
    ensures |Clean(t).value.rows| <= |t.rows|
    ensures forall i :: 0 <= i < |t.rows| ==> ExpectedRow(t, i) in Clean(t).value.rows
    ensures forall r :: r in Clean(t).value.rows ==>
              exists i :: 0 <= i < |t.rows| && r == ExpectedRow(t, i)
  {
    CoercedRows(t);
    var c := Coerced(t).value.rows;
    var fill := r => FillRow(FillValue, r);
    var out := Clean(t).value.rows;
    assert out == Map(fill, Dedup(c));
    MapDedupMembers(fill, c);
    forall i | 0 <= i < |t.rows| ensures ExpectedRow(t, i) in out {
      assert fill(c[i]) == ExpectedRow(t, i);
    }
    forall r | r in out ensures exists i :: 0 <= i < |t.rows| && r == ExpectedRow(t, i) {
      var i :| 0 <= i < |c| && r == fill(c[i]);
      assert r == ExpectedRow(t, i);
    }
  }

  /** The derived part of a joined row holds the value of each piece. */
  lemma JoinedRowDigits(t: Table, i: nat)
    requires WellFormed(t) && Decodable(t) && i < |t.rows|
    ensures |JoinedRow(t, i)| == |OutputColumns(t)|
    ensures forall j :: |t.columns| - 1 <= j < |JoinedRow(t, i)| ==>
              JoinedRow(t, i)[j].Num? && 0 <= JoinedRow(t, i)[j].n <= 9
  {
    var cells := CategoryCells(t);
    var k := IndexOf(t.columns, CategoriesColumn);
    DecodableCell(t, i);
    var values := PieceValues(cells[i], |DerivedNames(cells)|);
    assert t.rows[i] in t.rows;
    var rest := RemoveAt(t.rows[i], k);
    assert |rest| == |t.columns| - 1;
    var joined := JoinedRow(t, i);
    assert joined == rest + values;
    forall j | |rest| <= j < |joined| ensures joined[j].Num? && 0 <= joined[j].n <= 9 {
      assert joined[j] == values[j - |rest|];
    }
  }

  /** Mapping `related` and filling: no null is left, `related` becomes
      its outcome, and the digits of the other derived columns stay. */
  lemma MappedAndFilled(joined: Row, p: nat, base: nat)
    requires p < |joined|
    requires forall j :: base <= j < |joined| ==> joined[j].Num? && 0 <= joined[j].n <= 9
    ensures |Finish(joined, p)| == |joined|
    ensures forall j :: 0 <= j < |joined| ==> Finish(joined, p)[j] != Null
    ensures Finish(joined, p)[p] == RelatedOutcome(joined[p])
    ensures forall j :: base <= j < |joined| && j != p ==> Finish(joined, p)[j] == joined[j]
  {
  }

  /** The cells of one cleaned row: none is null, `related` is its raw
      value's outcome, and every other derived column holds a digit. */
  lemma ExpectedRowCells(t: Table, i: nat)
    requires WellFormed(t) && Decodable(t) && i < |t.rows|
    requires Count(OutputColumns(t), RelatedColumn) == 1
    ensures |ExpectedRow(t, i)| == |OutputColumns(t)|
    ensures forall j :: 0 <= j < |ExpectedRow(t, i)| ==> ExpectedRow(t, i)[j] != Null
    ensures ExpectedRow(t, i)[IndexOf(OutputColumns(t), RelatedColumn)]
            == RelatedOutcome(JoinedRow(t, i)[IndexOf(OutputColumns(t), RelatedColumn)])
    ensures forall j :: |t.columns| - 1 <= j < |ExpectedRow(t, i)|
                        && j != IndexOf(OutputColumns(t), RelatedColumn) ==>
              ExpectedRow(t, i)[j].Num? && 0 <= ExpectedRow(t, i)[j].n <= 9
  {
    JoinedRowDigits(t, i);
    MappedAndFilled(JoinedRow(t, i), IndexOf(OutputColumns(t), RelatedColumn), |t.columns| - 1);
  }

  /** No cell of the cleaned frame is null. */
  lemma CleanHasNoNulls(t: Table)
    requires WellFormed(t) && Clean(t).Ok?
    ensures forall r, j :: r in Clean(t).value.rows && 0 <= j < |r| ==> r[j] != Null
  {
    CleanRowsCorrespond(t);
    forall r | r in Clean(t).value.rows ensures forall j :: 0 <= j < |r| ==> r[j] != Null {
      var i :| 0 <= i < |t.rows| && r == ExpectedRow(t, i);
      ExpectedRowCells(t, i);
    }
  }

  /** `related` is 0 or 1 in every cleaned row. */
  lemma CleanRelatedIsBinary(t: Table)
    requires WellFormed(t) && Clean(t).Ok?
    ensures Decodable(t) && Count(OutputColumns(t), RelatedColumn) == 1
    ensures forall r :: r in Clean(t).value.rows ==> |r| == |OutputColumns(t)|
    ensures forall r :: r in Clean(t).value.rows ==>
              r[IndexOf(OutputColumns(t), RelatedColumn)] in {Num(0), Num(1)}
  {
    CleanRowsCorrespond(t);
    var p := IndexOf(OutputColumns(t), RelatedColumn);
    forall r | r in Clean(t).value.rows ensures |r| == |OutputColumns(t)| && r[p] in {Num(0), Num(1)} {
      var i :| 0 <= i < |t.rows| && r == ExpectedRow(t, i);
      ExpectedRowCells(t, i);
    }
  }

  /** Every derived column other than `related` holds a digit 0-9 in every
      cleaned row. */
  lemma CleanCategoriesAreDigits(t: Table)
    requires WellFormed(t) && Clean(t).Ok?
    ensures Decodable(t) && Count(OutputColumns(t), RelatedColumn) == 1
    ensures forall r: Row, j :: (r in Clean(t).value.rows && |t.columns| - 1 <= j < |r|
                               && j != IndexOf(OutputColumns(t), RelatedColumn)) ==>
              r[j].Num? && 0 <= r[j].n <= 9
  {
    CleanRowsCorrespond(t);
    var p := IndexOf(OutputColumns(t), RelatedColumn);
    var base := |t.columns| - 1;
    forall r: Row | r in Clean(t).value.rows
      ensures forall j :: base <= j < |r| && j != p ==> r[j].Num? && 0 <= r[j].n <= 9
    {
      var i :| 0 <= i < |t.rows| && r == ExpectedRow(t, i);
      ExpectedRowCells(t, i);
    }
  }
}
