/** Rectangular tables stored row by row (`table[row][column]`), as the
    timetable keeps one row of slots per group and the allocation one row of
    professors per group. */
module Tables {
  import opened Seqs

  /** Every row has at least `width` cells. */
  ghost predicate Wide<T>(table: seq<seq<T>>, width: nat)
  {
    forall r :: 0 <= r < |table| ==> width <= |table[r]|
  }

  /** Column `c` of the table, read top to bottom. */
  function Column<T>(table: seq<seq<T>>, c: nat): (col: seq<T>)
    requires forall r :: 0 <= r < |table| ==> c < |table[r]|
    ensures |col| == |table|
    ensures forall r :: 0 <= r < |table| ==> col[r] == table[r][c]
  {
    seq(|table|, r requires 0 <= r < |table| => table[r][c])
  }

  /** The first `width` columns, left to right. */
  function Columns<T>(table: seq<seq<T>>, width: nat): (cols: seq<seq<T>>)
    requires Wide(table, width)
    ensures |cols| == width
    ensures forall c :: 0 <= c < width ==> cols[c] == Column(table, c)
  {
    seq(width, c requires 0 <= c < width => Column(table, c))
  }

  /** Every row cut down to its first `width` cells. */
  function Crop<T>(table: seq<seq<T>>, width: nat): (r: seq<seq<T>>)
    requires Wide(table, width)
    ensures |r| == |table|
    ensures forall i :: 0 <= i < |table| ==> r[i] == table[i][..width]
  {
    seq(|table|, i requires 0 <= i < |table| => table[i][..width])
  }

  /** Peeling the last column off a table of width `width + 1`: the cells
      are those of the narrower table plus that column. */
  lemma {:induction false} PeelColumn<T>(table: seq<seq<T>>, width: nat)
    requires forall r :: 0 <= r < |table| ==> |table[r]| == width + 1
    ensures multiset(Flatten(table)) == multiset(Flatten(Crop(table, width))) + multiset(Column(table, width))
  {
    if |table| > 0 {
      var head, rest := table[0], table[1..];
      var cells, cut := multiset(head[..width]), multiset{head[width]};
      calc {
        multiset(Flatten(table));
        multiset(head) + multiset(Flatten(rest));
        { assert head == head[..width] + [head[width]]; }
        cells + cut + multiset(Flatten(rest));
        { PeelColumn(rest, width); }
        cells + cut + multiset(Flatten(Crop(rest, width))) + multiset(Column(rest, width));
        cells + multiset(Flatten(Crop(rest, width))) + (cut + multiset(Column(rest, width)));
        { CropFirstRow(table, width); ColumnFirstRow(table, width); }
        multiset(Flatten(Crop(table, width))) + multiset(Column(table, width));
      }
    }
  }

  /** Cropping a table crops its first row and then the rest. */
  lemma CropFirstRow<T>(table: seq<seq<T>>, width: nat)
    requires |table| > 0 && Wide(table, width)
    ensures multiset(Flatten(Crop(table, width)))
            == multiset(table[0][..width]) + multiset(Flatten(Crop(table[1..], width)))
  {
    var cropped := Crop(table, width);
    assert cropped[0] == table[0][..width] && cropped[1..] == Crop(table[1..], width);
  }

  /** A column holds the first row's cell and then the rest of the column. */
  lemma ColumnFirstRow<T>(table: seq<seq<T>>, c: nat)
    requires |table| > 0 && forall r :: 0 <= r < |table| ==> c < |table[r]|
    ensures multiset(Column(table, c)) == multiset{table[0][c]} + multiset(Column(table[1..], c))
  {
    assert Column(table, c) == [table[0][c]] + Column(table[1..], c);
  }

  /** Reading a rectangular table row by row or column by column meets the
      same cells. */
  lemma {:induction false} RowsColumnsSameCells<T>(table: seq<seq<T>>, width: nat)
    requires forall r :: 0 <= r < |table| ==> |table[r]| == width
    ensures multiset(Flatten(table)) == multiset(Flatten(Columns(table, width)))
    decreases width, 0
  {
    if width == 0 {
      EmptyRows(table);
    } else {
      RowsColumnsStep(table, width - 1);
    }
  }

  /** The inductive step: the cells of the table cut to `width` columns read
      column by column, then the last column. */
  lemma {:induction false} RowsColumnsStep<T>(table: seq<seq<T>>, width: nat)
    requires forall r :: 0 <= r < |table| ==> |table[r]| == width + 1
    ensures multiset(Flatten(table)) == multiset(Flatten(Columns(table, width + 1)))
    decreases width, 1
  {
    var narrow := Crop(table, width);
    RowsColumnsSameCells(narrow, width);
    PeelColumn(table, width);
    CropColumns(table, width);
    ColumnsSnoc(table, width);
    FlattenSnoc(Columns(narrow, width), Column(table, width));
  }

  /** One more column at the right. */
  lemma ColumnsSnoc<T>(table: seq<seq<T>>, width: nat)
    requires Wide(table, width + 1)
    ensures Columns(table, width + 1) == Columns(table, width) + [Column(table, width)]
  {
  }

  /** Cropping keeps the columns it keeps. */
  lemma CropColumns<T>(table: seq<seq<T>>, width: nat)
    requires Wide(table, width)
    ensures Columns(Crop(table, width), width) == Columns(table, width)
  {
    var narrow := Crop(table, width);
    forall c | 0 <= c < width
      ensures Column(narrow, c) == Column(table, c)
    {
    }
  }

  lemma {:induction false} EmptyRows<T>(table: seq<seq<T>>)
    requires forall r :: 0 <= r < |table| ==> |table[r]| == 0
    ensures Flatten(table) == []
  {
    if |table| > 0 {
      EmptyRows(table[1..]);
    }
  }
}
