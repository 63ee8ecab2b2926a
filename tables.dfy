/** The tabular values the cleaner works on: a pandas DataFrame seen
    positionally, as a sequence of column labels and a sequence of rows. */
module Tables {

  /** One cell. pandas dtypes are abstracted away: a cell is missing
      (None/NaN), a string, or an integer. */
  datatype Cell = Null | Text(s: string) | Num(n: int)

  type Row = seq<Cell>

  /** Column labels (duplicates allowed, as in pandas) and the rows, in
      index order. */
  datatype Table = Table(columns: seq<string>, rows: seq<Row>)

  /** Every row has one cell per column. */
  predicate WellFormed(t: Table)
  {
    forall r :: r in t.rows ==> |r| == |t.columns|
  }

  /** How many columns carry `name`: `frame[name]` is a single column
      exactly when this is 1. */
  function Count(labels: seq<string>, name: string): (n: nat)
    ensures n <= |labels|
    ensures n == 0 <==> name !in labels
  {
    if labels == [] then 0
    else (if labels[0] == name then 1 else 0) + Count(labels[1..], name)
  }

  /** Position of the first column carrying `name`. */
  function IndexOf(labels: seq<string>, name: string): (k: nat)
    requires name in labels
    ensures k < |labels| && labels[k] == name
    ensures name !in labels[..k]
  {
    if labels[0] == name then 0
    else
      var k := 1 + IndexOf(labels[1..], name);
      assert labels[..k] == [labels[0]] + labels[1..][..k - 1];
      k
  }

  /** Labels that each name exactly one column. */
  predicate Distinct(labels: seq<string>)
  {
    forall i, j :: 0 <= i < j < |labels| ==> labels[i] != labels[j]
  }

  /** Distinct labels each select a single column. */
  lemma {:induction false} DistinctCountsOne(labels: seq<string>)
    requires Distinct(labels)
    ensures forall j :: 0 <= j < |labels| ==> Count(labels, labels[j]) == 1
  {
    if labels != [] {
      var tail := labels[1..];
      assert Distinct(tail) by {
        forall i, j | 0 <= i < j < |tail| ensures tail[i] != tail[j] {
          assert tail[i] == labels[i + 1] && tail[j] == labels[j + 1];
        }
      }
      DistinctCountsOne(tail);
      assert labels[0] !in tail by {
        forall j | 0 <= j < |tail| ensures tail[j] != labels[0] {
          assert tail[j] == labels[j + 1];
        }
      }
      forall j | 0 <= j < |labels| ensures Count(labels, labels[j]) == 1 {
        if j > 0 {
          assert labels[j] == tail[j - 1];
          assert labels[j] != labels[0];
        }
      }
    }
  }

  /** Two columns with the same label make that label select both. */
  lemma {:induction false} RepeatedCountsMore(labels: seq<string>, i: nat, j: nat)
    requires 0 <= i < j < |labels| && labels[i] == labels[j]
    ensures Count(labels, labels[i]) > 1
  {
    var tail := labels[1..];
    if i == 0 {
      assert labels[0] in tail by { assert tail[j - 1] == labels[j]; }
    } else {
      assert tail[i - 1] == labels[i] && tail[j - 1] == labels[j];
      RepeatedCountsMore(tail, i - 1, j - 1);
    }
  }

  /** `Distinct` is the same as every name selecting a single column. */
  lemma DistinctIffCountsOne(labels: seq<string>)
    ensures Distinct(labels) <==> forall j :: 0 <= j < |labels| ==> Count(labels, labels[j]) == 1
  {
    if Distinct(labels) {
      DistinctCountsOne(labels);
    } else {
      var i, j :| 0 <= i < j < |labels| && labels[i] == labels[j];
      RepeatedCountsMore(labels, i, j);
    }
  }

  /** `s` without its element at position `k`. */
  function RemoveAt<T>(s: seq<T>, k: nat): seq<T>
    requires k < |s|
  {
    s[..k] + s[k + 1..]
  }

  /** Removing the only column carrying a label removes the label and
      keeps every other label. */
  lemma {:induction false} RemoveOnlyOccurrence(labels: seq<string>, k: nat)
    requires k < |labels| && Count(labels, labels[k]) == 1
    ensures labels[k] !in RemoveAt(labels, k)
    ensures forall x :: x != labels[k] ==> (x in RemoveAt(labels, k) <==> x in labels)
  {
    var r := RemoveAt(labels, k);
    forall m | 0 <= m < |r| ensures r[m] != labels[k] {
      var j := if m < k then m else m + 1;
      assert r[m] == labels[j];
      if labels[j] == labels[k] {
        if j < k {
          RepeatedCountsMore(labels, j, k);
        } else {
          RepeatedCountsMore(labels, k, j);
        }
      }
    }
    forall x | x != labels[k] && x in labels ensures x in r {
      var j :| 0 <= j < |labels| && labels[j] == x;
      assert r[if j < k then j else j - 1] == x;
    }
  }

  /** The frame without the column at position `k` (`drop(..., axis=1)`). */
  function DropColumn(t: Table, k: nat): (r: Table)
    requires WellFormed(t) && k < |t.columns|
    ensures WellFormed(r)
    ensures |r.columns| == |t.columns| - 1 && |r.rows| == |t.rows|
    ensures forall j :: 0 <= j < |r.columns| ==> r.columns[j] == t.columns[if j < k then j else j + 1]
    ensures forall i, j :: 0 <= i < |r.rows| && 0 <= j < |r.columns| ==>
              r.rows[i][j] == t.rows[i][if j < k then j else j + 1]
  {
    Table(RemoveAt(t.columns, k), seq(|t.rows|, i requires 0 <= i < |t.rows| => RemoveAt(t.rows[i], k)))
  }

  /** Every row of `m` has `w` cells. */
  predicate Rectangular(m: seq<Row>, w: nat)
  {
    forall i :: 0 <= i < |m| ==> |m[i]| == w
  }

  /** The cells `values` put after the columns of `t`, row by row
      (`pd.concat(axis=1)` over frames that share the index 0..n-1). */
  function Concat(t: Table, labels: seq<string>, values: seq<Row>): (r: Table)
    requires WellFormed(t) && |values| == |t.rows|
    requires Rectangular(values, |labels|)
    ensures WellFormed(r)
    ensures r.columns == t.columns + labels
    ensures |r.rows| == |t.rows|
    ensures forall i :: 0 <= i < |r.rows| ==>
              && |r.rows[i]| == |t.columns| + |labels|
              && r.rows[i][..|t.columns|] == t.rows[i]
              && r.rows[i][|t.columns|..] == values[i]
  {
    Table(t.columns + labels, seq(|t.rows|, i requires 0 <= i < |t.rows| => t.rows[i] + values[i]))
  }

  /** The cells of column `k`, top to bottom. */
  function Column(t: Table, k: nat): seq<Cell>
    requires WellFormed(t) && k < |t.columns|
  {
    seq(|t.rows|, i requires 0 <= i < |t.rows| => t.rows[i][k])
  }
}
