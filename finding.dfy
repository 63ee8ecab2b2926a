/** Lines 32 and 33 run in the wrong order: `drop_duplicates` compares rows
    before `fillna` turns nulls into 0, so two rows that differ only in a
    null against a 0 both survive and are equal in the returned frame. */
module FillAfterDedup {
  import opened Wrappers
  import opened Tables
  import opened CategoryCodec
  import opened Duplicates
  import opened Frames
  import opened ProcessData
  import opened CleanProperties
  import opened CleanOutput

  /** Two joined rows for message 1 whose `related` values are 3 and 0. */
  function OutOfRangeRelated(): Table
  {
    Table(["id", "categories"], [[Num(1), Text("related-3")], [Num(1), Text("related-0")]])
  }

  lemma ExampleLocatesCategories()
    ensures Count(OutOfRangeRelated().columns, CategoriesColumn) == 1
    ensures IndexOf(OutOfRangeRelated().columns, CategoriesColumn) == 1
  {
    var cols := OutOfRangeRelated().columns;
    assert cols[0] != CategoriesColumn;
    assert cols[1..] == [CategoriesColumn];
    assert cols[1..][1..] == [];
  }

  lemma ExampleSplits()
    ensures Split("related-3") == ["related-3"]
    ensures Split("related-0") == ["related-0"]
    ensures ColumnName("related-3") == "related"
  {
    SplitWithoutSeparator("related-3");
    SplitWithoutSeparator("related-0");
  }

  lemma ExampleCells()
    ensures WellFormed(OutOfRangeRelated())
    ensures Column(OutOfRangeRelated(), 1) == [Text("related-3"), Text("related-0")]
  {
  }

  lemma ExampleWidth()
    ensures Width([Text("related-3"), Text("related-0")]) == 1
  {
    ExampleSplits();
    var cells := [Text("related-3"), Text("related-0")];
    assert PartCount(cells[0]) == 1 && PartCount(cells[1]) == 1;
    assert Width(cells[1..][1..]) == 0;
  }

  lemma SinglePieceExpands(s: string)
    requires Split(s) == [s]
    ensures ExpandCell(Text(s), 1) == [Text(s)]
  {
    assert ExpandCell(Text(s), 1)[0] == Text(s);
  }

  lemma ExampleExpands()
    ensures WellFormed(OutOfRangeRelated())
    ensures Expand(Column(OutOfRangeRelated(), 1)) == [[Text("related-3")], [Text("related-0")]]
  {
    ExampleCells();
    ExampleWidth();
    ExampleSplits();
    SinglePieceExpands("related-3");
    SinglePieceExpands("related-0");
    var cells := [Text("related-3"), Text("related-0")];
    var m := Expand(cells);
    assert m[0] == ExpandCell(cells[0], 1);
    assert m[1] == ExpandCell(cells[1], 1);
  }

  lemma ExampleNames()
    ensures NamesOf([Text("related-3")]) == Ok(["related"])
  {
    ExampleSplits();
    var first: Row := [Text("related-3")];
    assert first[1..] == [];
    assert NamesOf(first[1..]) == Ok([]);
    assert first[0].Text? && ColumnName(first[0].s) == "related";
    assert NamesOf(first) == Ok([ColumnName(first[0].s)] + []);
    assert [ColumnName(first[0].s)] + [] == ["related"];
  }

  lemma ExampleConverts()
    ensures NamesOf([Text("related-3")]) == Ok(["related"])
    ensures Rectangular([[Text("related-3")], [Text("related-0")]], 1)
    ensures ConvertFrom(["related"], [[Text("related-3")], [Text("related-0")]], 0) == Ok([[Num(3)], [Num(0)]])
  {
    ExampleNames();
    var parts: seq<Row> := [[Text("related-3")], [Text("related-0")]];
    assert LastDigit(parts[0][0]) == Some(3);
    assert LastDigit(parts[1][0]) == Some(0);
    var names := ["related"];
    assert names[1..] == [];
    assert Count(names, names[0]) == 1;
    assert ColumnConverts(names, parts, 0);
    assert ConvertFrom(names, parts, 1) == Ok(Digits(parts, 1));
    assert ConvertFrom(names, parts, 0) == Ok(Digits(parts, 1));
    assert DigitCell(parts[0][0]) == Num(3);
    assert DigitCell(parts[1][0]) == Num(0);
    var m := Digits(parts, 1);
    assert m[0] == [Num(3)];
    assert m[1] == [Num(0)];
    assert m == [[Num(3)], [Num(0)]];
  }

  /** Lines 19-27 on the example: one derived column `related`, holding 3
      and 0. */
  lemma ExampleDecodes()
    ensures WellFormed(OutOfRangeRelated())
    ensures DecodeCategories(OutOfRangeRelated()) == Ok(Decoded(1, ["related"], [[Num(3)], [Num(0)]]))
  {
    ExampleLocatesCategories();
    ExampleExpands();
    ExampleConverts();
  }

  /** Line 29 on the example: only `id` is left. */
  lemma ExampleDrops()
    ensures WellFormed(OutOfRangeRelated())
    ensures DropColumn(OutOfRangeRelated(), 1) == Table(["id"], [[Num(1)], [Num(1)]])
  {
    var t := OutOfRangeRelated();
    var dropped := DropColumn(t, 1);
    assert RemoveAt(t.columns, 1) == ["id"];
    assert RemoveAt(t.rows[0], 1) == [Num(1)];
    assert RemoveAt(t.rows[1], 1) == [Num(1)];
    assert dropped.rows[0] == [Num(1)];
    assert dropped.rows[1] == [Num(1)];
  }

  /** Line 30 on the example: the derived `related` after `id`. */
  lemma ExampleConcats()
    ensures Concat(Table(["id"], [[Num(1)], [Num(1)]]), ["related"], [[Num(3)], [Num(0)]])
         == Table(["id", "related"], [[Num(1), Num(3)], [Num(1), Num(0)]])
  {
    var values: seq<Row> := [[Num(3)], [Num(0)]];
    var joined := Concat(Table(["id"], [[Num(1)], [Num(1)]]), ["related"], values);
    assert joined.rows[0] == [Num(1)] + values[0] == [Num(1), Num(3)];
    assert joined.rows[1] == [Num(1)] + values[1] == [Num(1), Num(0)];
  }

  /** Lines 29-30 on the example: `id`, then the derived `related`. */
  lemma ExampleAssembles()
    ensures WellFormed(OutOfRangeRelated())
    ensures Assemble(OutOfRangeRelated(), Decoded(1, ["related"], [[Num(3)], [Num(0)]]))
         == Table(["id", "related"], [[Num(1), Num(3)], [Num(1), Num(0)]])
  {
    ExampleDrops();
    ExampleConcats();
  }

  /** Line 31 on the example rows: 3 is not a key of the mapping. */
  lemma ExampleMapsRelated()
    ensures MapColumn([[Num(1), Num(3)], [Num(1), Num(0)]], 1, RelatedCoding) == [[Num(1), Null], [Num(1), Num(0)]]
  {
    var m := MapColumn([[Num(1), Num(3)], [Num(1), Num(0)]], 1, RelatedCoding);
    assert 3 !in RelatedCoding && 0 in RelatedCoding;
    assert m[0] == [Num(1), Null];
    assert m[1] == [Num(1), Num(0)];
  }

  /** Lines 19-31 on the example: `related` 3 has become null. */
  lemma ExampleCoerced()
    ensures WellFormed(OutOfRangeRelated())
    ensures Coerced(OutOfRangeRelated()) == Ok(Table(["id", "related"], [[Num(1), Null], [Num(1), Num(0)]]))
  {
    ExampleDecodes();
    ExampleAssembles();
    ExampleMapsRelated();
    var cols := ["id", "related"];
    assert cols[0] != RelatedColumn && cols[1..] == [RelatedColumn] && cols[1..][1..] == [];
    assert Count(cols, RelatedColumn) == 1;
    assert IndexOf(cols, RelatedColumn) == 1;
  }

  /** Dropping duplicates from two rows keeps both when they differ. */
  lemma DedupPairOfDistinct(a: Row, b: Row)
    requires a != b
    ensures Dedup([a, b]) == [a, b]
  {
    var s := [a, b];
    assert s[..1] == [a] && s[..1][..0] == [];
  }

  /** Dropping duplicates from two equal rows keeps one. */
  lemma DedupPairOfEqual(a: Row)
    ensures Dedup([a, a]) == [a]
  {
    var s := [a, a];
    assert s[..1] == [a] && s[..1][..0] == [];
  }

  /** Line 33 on the coerced example rows: the null becomes 0. */
  lemma ExampleFills()
    ensures FillNulls(FillValue, [[Num(1), Null], [Num(1), Num(0)]]) == [[Num(1), Num(0)], [Num(1), Num(0)]]
  {
    var m := FillNulls(FillValue, [[Num(1), Null], [Num(1), Num(0)]]);
    assert m[0] == [Num(1), Num(0)];
    assert m[1] == [Num(1), Num(0)];
  }

  /** As written, the cleaned frame holds the same row twice: 3 maps to
      null, which differs from 0 when duplicates are dropped and becomes 0
      only afterwards. */
  lemma CleanMayKeepDuplicates()
    ensures WellFormed(OutOfRangeRelated())
    ensures Clean(OutOfRangeRelated()) == Ok(Table(["id", "related"], [[Num(1), Num(0)], [Num(1), Num(0)]]))
    ensures !NoDuplicates(Clean(OutOfRangeRelated()).value.rows)
  {
    ExampleCoerced();
    DedupPairOfDistinct([Num(1), Null], [Num(1), Num(0)]);
    ExampleFills();
    var rows: seq<Row> := [[Num(1), Num(0)], [Num(1), Num(0)]];
    assert rows[0] == rows[1];
  }

  /** With the fill done first, the example keeps a single row. */
  lemma CleanCorrectedCollapsesExample()
    ensures WellFormed(OutOfRangeRelated())
    ensures CleanCorrected(OutOfRangeRelated()) == Ok(Table(["id", "related"], [[Num(1), Num(0)]]))
  {
    ExampleCoerced();
    ExampleFills();
    DedupPairOfEqual([Num(1), Num(0)]);
  }

  /** The corrected cleaner succeeds on the same inputs, returns the rows of
      the frame as written with the duplicates the fill created removed, and
      so keeps every property of it while never holding two equal rows. */
  lemma CleanCorrectedDropsFilledDuplicates(t: Table)
    requires WellFormed(t)
    ensures CleanCorrected(t).Ok? <==> Clean(t).Ok?
    ensures Clean(t).Ok? ==>
              CleanCorrected(t).value == Table(Clean(t).value.columns, Dedup(Clean(t).value.rows))
    ensures CleanCorrected(t).Ok? ==> NoDuplicates(CleanCorrected(t).value.rows)
    ensures CleanCorrected(t).Ok? ==>
              forall r :: r in CleanCorrected(t).value.rows ==> r in Clean(t).value.rows
  {
    if Coerced(t).Ok? {
      var c := Coerced(t).value.rows;
      DedupAfterMap(c, r => FillRow(FillValue, r));
    }
  }
}
