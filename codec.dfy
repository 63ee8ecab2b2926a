/** The per-cell decoding of the encoded category string
    `name-v;name-v;...`: splitting on `;` (`str.split(';', expand=True)`),
    naming a part (`x[:-2]`) and reading its value (`str[-1]`, then
    `astype(int)`). */
module CategoryCodec {
  import opened Wrappers
  import opened Tables

  const Separator: char := ';'

  /** Python's `s.split(';')`: the pieces between separators, in order.
      There is always at least one piece (`"".split(';') == [""]`), and no
      piece holds a separator. */
  function Split(s: string): (parts: seq<string>)
    ensures |parts| >= 1
    ensures forall p :: p in parts ==> Separator !in p
  {
    if s == [] then [[]]
    else
      var rest := Split(s[1..]);
      if s[0] == Separator then [[]] + rest
      else [[s[0]] + rest[0]] + rest[1..]
  }

  /** `';'.join(parts)`, the inverse of Split. */
  function Join(parts: seq<string>): string
    requires |parts| >= 1
  {
    if |parts| == 1 then parts[0] else parts[0] + [Separator] + Join(parts[1..])
  }

  /** Joining the pieces gives back the string that was split. */
  lemma {:induction false} JoinSplit(s: string)
    ensures Join(Split(s)) == s
  {
    if s != [] {
      var rest := Split(s[1..]);
      JoinSplit(s[1..]);
      if s[0] == Separator {
        assert ([[]] + rest)[1..] == rest;
      } else if |rest| > 1 {
        var parts := [[s[0]] + rest[0]] + rest[1..];
        assert parts[1..] == rest[1..];
        assert Join(rest) == rest[0] + [Separator] + Join(rest[1..]);
      }
    }
  }

  /** A prefix without separators glues onto the first piece of what follows. */
  lemma {:induction false} SplitGlue(a: string, b: string)
    requires Separator !in a
    ensures Split(a + b) == [a + Split(b)[0]] + Split(b)[1..]
  {
    if a == [] {
      assert a + b == b;
      assert a + Split(b)[0] == Split(b)[0];
      assert Split(b) == [Split(b)[0]] + Split(b)[1..];
    } else {
      assert (a + b)[1..] == a[1..] + b;
      SplitGlue(a[1..], b);
      assert [a[0]] + (a[1..] + Split(b)[0]) == a + Split(b)[0];
    }
  }

  /** Splitting joined pieces that hold no separator gives the pieces back. */
  lemma {:induction false} SplitJoin(parts: seq<string>)
    requires |parts| >= 1
    requires forall p :: p in parts ==> Separator !in p
    ensures Split(Join(parts)) == parts
  {
    if |parts| == 1 {
      SplitGlue(parts[0], []);
      assert parts[0] + [] == parts[0];
    } else {
      var tail := Join(parts[1..]);
      SplitJoin(parts[1..]);
      assert Join(parts) == parts[0] + ([Separator] + tail);
      SplitGlue(parts[0], [Separator] + tail);
      assert ([Separator] + tail)[1..] == tail;
      assert parts[0] + [] == parts[0];
      assert parts == [parts[0]] + parts[1..];
    }
  }

  /** A string without separators is its own single piece. */
  lemma SplitWithoutSeparator(s: string)
    requires Separator !in s
    ensures Split(s) == [s]
  {
    SplitGlue(s, []);
    assert s + [] == s;
  }

  /** Python's `x[:-2]`: the part without its last two characters (empty
      when the part is shorter than two). */
  function ColumnName(part: string): (r: string)
    ensures |part| >= 2 ==> part == r + part[|part| - 2..]
    ensures |part| < 2 ==> r == []
  {
    if |part| >= 2 then part[..|part| - 2] else []
  }

  predicate IsDigit(ch: char)
  {
    '0' <= ch <= '9'
  }

  /** `.str[-1]` followed by `astype(int)`: the value of the last character
      of a string cell, None where pandas raises (a missing part, an empty
      part, or a last character that is not a decimal digit). */
  function LastDigit(c: Cell): (d: Option<nat>)
    ensures d.Some? <==> c.Text? && c.s != [] && IsDigit(c.s[|c.s| - 1])
    ensures d.Some? ==> d.value <= 9 && DigitChar(d.value) == c.s[|c.s| - 1]
  {
    if c.Text? && |c.s| > 0 && IsDigit(c.s[|c.s| - 1]) then
      Some((c.s[|c.s| - 1] as int - '0' as int) as nat)
    else None
  }

  /** The integer cell a convertible part becomes. */
  function DigitCell(c: Cell): Cell
  {
    match LastDigit(c)
    case Some(d) => Num(d)
    case None => Null
  }

  /** How many columns one cell asks `split(expand=True)` for: its number
      of pieces, or 1 for a cell that is not a string. */
  function PartCount(c: Cell): nat
  {
    if c.Text? then |Split(c.s)| else 1
  }

  /** The number of columns `split(expand=True)` produces: the largest
      part count over all rows. */
  function Width(cells: seq<Cell>): (w: nat)
    ensures forall c :: c in cells ==> PartCount(c) <= w
    ensures cells != [] ==> exists c :: c in cells && PartCount(c) == w
  {
    if cells == [] then 0
    else
      var rest := Width(cells[1..]);
      assert forall c :: c in cells[1..] ==> c in cells;
      if PartCount(cells[0]) >= rest then PartCount(cells[0]) else rest
  }

  /** One row of `split(expand=True)`: the pieces of a string cell, padded
      with nulls up to `w` columns; all nulls for any other cell. */
  function ExpandCell(c: Cell, w: nat): (r: Row)
    ensures |r| == w
    ensures forall j :: 0 <= j < w ==> r[j].Text? || r[j] == Null
    ensures forall j :: 0 <= j < w ==> (r[j].Text? <==> c.Text? && j < |Split(c.s)|)
    ensures c.Text? ==> forall j :: 0 <= j < w && j < |Split(c.s)| ==> r[j] == Text(Split(c.s)[j])
  {
    seq(w, j requires 0 <= j < w => if c.Text? && j < |Split(c.s)| then Text(Split(c.s)[j]) else Null)
  }

  /** `series.str.split(';', expand=True)` as a matrix of cells. */
  function Expand(cells: seq<Cell>): (m: seq<Row>)
    ensures |m| == |cells| && Rectangular(m, Width(cells))
    ensures forall i :: 0 <= i < |cells| ==> m[i] == ExpandCell(cells[i], Width(cells))
  {
    var w := Width(cells);
    seq(|cells|, i requires 0 <= i < |cells| => ExpandCell(cells[i], w))
  }

  /** A row that splits into fewer pieces than the widest row (or is not a
      string at all) gets a null in the expanded matrix: ragged input
      cannot be converted. */
  lemma RaggedRowHasNull(cells: seq<Cell>, i: nat)
    requires i < |cells|
    requires !cells[i].Text? || |Split(cells[i].s)| != Width(cells)
    ensures exists j :: 0 <= j < Width(cells) && Expand(cells)[i][j] == Null
  {
    var w := Width(cells);
    assert cells[i] in cells;
    var j := if cells[i].Text? then |Split(cells[i].s)| else 0;
    assert Expand(cells)[i][j] == Null;
  }

  /** One label of the encoding: its name and its value. */
  datatype Label = Label(name: string, value: nat)

  /** A label the encoding can carry: no separator in its name, a single
      decimal digit as its value. */
  predicate Encodable(l: Label)
  {
    Separator !in l.name && l.value <= 9
  }

  function DigitChar(v: nat): char
    requires v <= 9
  {
    ('0' as int + v) as char
  }

  /** `name-v` */
  function EncodeLabel(l: Label): string
    requires Encodable(l)
  {
    l.name + "-" + [DigitChar(l.value)]
  }

  /** `name-v;name-v;...` */
  function Encode(labels: seq<Label>): string
    requires |labels| >= 1
    requires forall l :: l in labels ==> Encodable(l)
  {
    Join(seq(|labels|, j requires 0 <= j < |labels| => EncodeLabel(labels[j])))
  }

  /** One encoded label holds no separator, names its label and converts
      back to its value. */
  lemma DecodeLabel(l: Label)
    requires Encodable(l)
    ensures Separator !in EncodeLabel(l)
    ensures ColumnName(EncodeLabel(l)) == l.name
    ensures LastDigit(Text(EncodeLabel(l))) == Some(l.value)
  {
    var e := EncodeLabel(l);
    assert e == l.name + ['-', DigitChar(l.value)];
    assert e[..|e| - 2] == l.name;
  }

  /** Decoding an encoded string splits it into one piece per label, and
      each piece names its label and converts to its value. */
  lemma DecodeEncoded(labels: seq<Label>)
    requires |labels| >= 1
    requires forall l :: l in labels ==> Encodable(l)
    ensures |Split(Encode(labels))| == |labels|
    ensures forall j :: 0 <= j < |labels| ==>
              Split(Encode(labels))[j] == EncodeLabel(labels[j])
              && ColumnName(Split(Encode(labels))[j]) == labels[j].name
              && LastDigit(Text(Split(Encode(labels))[j])) == Some(labels[j].value)
  {
    var parts := seq(|labels|, j requires 0 <= j < |labels| => EncodeLabel(labels[j]));
    forall j | 0 <= j < |labels|
      ensures Separator !in parts[j]
      ensures ColumnName(parts[j]) == labels[j].name
      ensures LastDigit(Text(parts[j])) == Some(labels[j].value)
    {
      assert labels[j] in labels;
      DecodeLabel(labels[j]);
    }
    SplitJoin(parts);
  }
}
