/** The pandas DataFrame operations `clean_data` performs in place, on a
    frame object whose columns and rows are reassigned. */
module Frames {
  import opened Tables
  import opened Duplicates

  /** `Series.map(d)` for one cell: the image of an integer key of `d`,
      null for anything else. */
  function MapCell(d: map<int, int>, c: Cell): (r: Cell)
    ensures !r.Text?
    ensures r.Num? <==> c.Num? && c.n in d
    ensures r.Num? ==> r.n == d[c.n]
  {
    if c.Num? && c.n in d then Num(d[c.n]) else Null
  }

  /** The rows with the cell of column `k` sent through `d`. */
  function MapColumn(rows: seq<Row>, k: nat, d: map<int, int>): (m: seq<Row>)
    requires forall r :: r in rows ==> k < |r|
    ensures |m| == |rows|
    ensures forall i :: 0 <= i < |rows| ==> |m[i]| == |rows[i]| && m[i][k] == MapCell(d, rows[i][k])
    ensures forall i, j :: 0 <= i < |rows| && 0 <= j < |rows[i]| && j != k ==> m[i][j] == rows[i][j]
  {
    seq(|rows|, i requires 0 <= i < |rows| => rows[i][k := MapCell(d, rows[i][k])])
  }

  /** `fillna(value=v)` for one cell. */
  function FillCell(v: Cell, c: Cell): Cell
  {
    if c.Null? then v else c
  }

  function FillRow(v: Cell, r: Row): Row
  {
    seq(|r|, j requires 0 <= j < |r| => FillCell(v, r[j]))
  }

  /** `fillna(value=v)` over all rows. */
  function FillNulls(v: Cell, rows: seq<Row>): seq<Row>
  {
    Map(r => FillRow(v, r), rows)
  }

  /** `fillna` changes the null cells, to `v`, and no other cell. */
  lemma FillReplacesOnlyNulls(v: Cell, rows: seq<Row>)
    ensures |FillNulls(v, rows)| == |rows|
    ensures forall i :: 0 <= i < |rows| ==> |FillNulls(v, rows)[i]| == |rows[i]|
    ensures forall i, j :: 0 <= i < |rows| && 0 <= j < |rows[i]| && rows[i][j].Null? ==>
              FillNulls(v, rows)[i][j] == v
    ensures forall i, j :: 0 <= i < |rows| && 0 <= j < |rows[i]| && !rows[i][j].Null? ==>
              FillNulls(v, rows)[i][j] == rows[i][j]
  {
  }

  /** `fillna` keeps every row as wide as the frame. */
  lemma FillKeepsWellFormed(v: Cell, t: Table)
    requires WellFormed(t)
    ensures WellFormed(Table(t.columns, FillNulls(v, t.rows)))
  {
    var filled := FillNulls(v, t.rows);
    forall r | r in filled ensures |r| == |t.columns| {
      var i :| 0 <= i < |filled| && filled[i] == r;
      assert t.rows[i] in t.rows;
    }
  }

  /** Filling with a non-null value leaves no null, so a second fill
      changes nothing. */
  lemma FillIsIdempotent(v: Cell, rows: seq<Row>)
    requires !v.Null?
    ensures forall r: Row, j :: r in FillNulls(v, rows) && 0 <= j < |r| ==> !r[j].Null?
    ensures FillNulls(v, FillNulls(v, rows)) == FillNulls(v, rows)
  {
    var once := FillNulls(v, rows);
    forall i | 0 <= i < |once| ensures FillRow(v, once[i]) == once[i] {
    }
  }

  class Frame {
    var columns: seq<string>
    var rows: seq<Row>

    ghost predicate Valid()
      reads this
    {
      WellFormed(Table(columns, rows))
    }

    function Contents(): Table
      reads this
    {
      Table(columns, rows)
    }

    constructor (t: Table)
      requires WellFormed(t)
      ensures Valid() && Contents() == t
    {
      columns := t.columns;
      rows := t.rows;
    }

    /** `drop([label], axis=1, inplace=True)` where `label` is the column
        at position `k`. */
    method DropAt(k: nat)
      requires Valid() && k < |columns|
      modifies this
      ensures Valid()
      ensures Contents() == DropColumn(old(Contents()), k)
    {
      var out: seq<Row> := [];
      var i := 0;
      while i < |rows|
        invariant 0 <= i <= |rows|
        invariant |out| == i
        invariant forall m :: 0 <= m < i ==> out[m] == RemoveAt(rows[m], k)
      {
        assert rows[i] in rows;
        out := out + [RemoveAt(rows[i], k)];
        i := i + 1;
      }
      columns := RemoveAt(columns, k);
      rows := out;
    }

    /** `frame[label] = frame[label].map(d)` where `label` is the column at
        position `k`. */
    method MapAt(k: nat, d: map<int, int>)
      requires Valid() && k < |columns|
      modifies this
      ensures Valid() && columns == old(columns)
      ensures rows == MapColumn(old(rows), k, d)
    {
      var out: seq<Row> := [];
      var i := 0;
      while i < |rows|
        invariant 0 <= i <= |rows|
        invariant |out| == i
        invariant forall m :: 0 <= m < i ==> out[m] == rows[m][k := MapCell(d, rows[m][k])]
      {
        assert rows[i] in rows;
        var c := rows[i][k];
        var mapped := MapCell(d, c);
        out := out + [rows[i][k := mapped]];
        i := i + 1;
      }
      rows := out;
    }

    /** `drop_duplicates(inplace=True)`: rows equal in every column to an
        earlier row are removed. */
    method DropDuplicates()
      requires Valid()
      modifies this
      ensures Valid() && columns == old(columns)
      ensures rows == Dedup(old(rows))
    {
      var out: seq<Row> := [];
      var i := 0;
      while i < |rows|
        invariant 0 <= i <= |rows|
        invariant out == Dedup(rows[..i])
      {
        assert rows[..i + 1][..i] == rows[..i];
        if rows[i] !in out {
          out := out + [rows[i]];
        }
        i := i + 1;
      }
      assert rows[..i] == rows;
      rows := out;
    }

    /** `fillna(value=v, inplace=True)`: every null cell becomes `v`. */
    method FillNa(v: Cell)
      requires Valid()
      modifies this
      ensures Valid() && columns == old(columns)
      ensures rows == FillNulls(v, old(rows))
      ensures |rows| == |old(rows)|
      ensures forall i, j :: 0 <= i < |rows| && 0 <= j < |columns| ==>
                rows[i][j] == (if old(rows)[i][j].Null? then v else old(rows)[i][j])
    {
      var out: seq<Row> := [];
      var i := 0;
      while i < |rows|
        invariant 0 <= i <= |rows|
        invariant |out| == i
        invariant forall m :: 0 <= m < i ==> out[m] == FillRow(v, rows[m])
      {
        var row := rows[i];
        var filled: Row := [];
        var j := 0;
        while j < |row|
          invariant 0 <= j <= |row|
          invariant |filled| == j
          invariant forall q :: 0 <= q < j ==> filled[q] == FillCell(v, row[q])
        {
          filled := filled + [FillCell(v, row[j])];
          j := j + 1;
        }
        out := out + [filled];
        i := i + 1;
      }
      forall r | r in out ensures |r| == |columns| {
        var m :| 0 <= m < |out| && out[m] == r;
        assert rows[m] in rows;
      }
      forall i, j | 0 <= i < |out| && 0 <= j < |columns|
        ensures out[i][j] == (if rows[i][j].Null? then v else rows[i][j])
      {
        assert rows[i] in rows;
      }
      rows := out;
    }
  }
}
