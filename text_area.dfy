/**
  The text area's selection and scrolling arithmetic: which buffer rows are on
  screen, which columns of a row fall inside the marked region between mark and
  cursor, and which characters of a row are emitted at all.
*/
module TextArea {
  import opened Wrappers
  import opened RustStr

  /** A buffer position; positions compare by row first, then by column. */
  datatype TextPosition = TextPosition(row: Usize, col: Usize)

  predicate LessEq(a: TextPosition, b: TextPosition)
  {
    a.row < b.row || (a.row == b.row && a.col <= b.col)
  }

  /** The earlier and the later of mark and cursor, whichever order they come in. */
  function SelectionBounds(mark: TextPosition, cursor: TextPosition): (r: (TextPosition, TextPosition))
    ensures LessEq(r.0, r.1)
    ensures (r.0 == mark && r.1 == cursor) || (r.0 == cursor && r.1 == mark)
  {
    if LessEq(mark, cursor) then (mark, cursor) else (cursor, mark)
  }

  /**
    `calculate_line_marked_region`: the half-open column span `[start, end)` of
    row `lineRow` inside the selection, `usize::MAX` standing for "to the end of
    the line"; `None` when the row is outside the selection or the span is empty.
  */
  function CalculateLineMarkedRegion(mark: TextPosition, cursor: TextPosition, lineRow: Usize): (r: Option<(Usize, Usize)>)
    ensures r.Some? ==> r.value.0 < r.value.1
    ensures r.Some? ==> SelectionBounds(mark, cursor).0.row <= lineRow <= SelectionBounds(mark, cursor).1.row
  {
    var (start, end) := SelectionBounds(mark, cursor);
    if lineRow < start.row || lineRow > end.row then None
    else
      var startCol := if lineRow == start.row then start.col else 0;
      var endCol := if lineRow == end.row then end.col else USIZE_MAX;
      if startCol < endCol then Some((startCol, endCol)) else None
  }

  /** Swapping mark and cursor does not change any row's region. */
  lemma MarkedRegionSymmetric(mark: TextPosition, cursor: TextPosition, lineRow: Usize)
    ensures CalculateLineMarkedRegion(mark, cursor, lineRow) == CalculateLineMarkedRegion(cursor, mark, lineRow)
  {
    if mark != cursor {
      assert SelectionBounds(mark, cursor) == SelectionBounds(cursor, mark);
    }
  }

  /** With mark on the cursor nothing is marked, on any row. */
  lemma EmptySelectionMarksNothing(p: TextPosition, lineRow: Usize)
    ensures CalculateLineMarkedRegion(p, p, lineRow).None?
  {
  }

  /** Rows outside the selection have no region. */
  lemma MarkedRegionOutsideRows(mark: TextPosition, cursor: TextPosition, lineRow: Usize)
    requires lineRow < SelectionBounds(mark, cursor).0.row || lineRow > SelectionBounds(mark, cursor).1.row
    ensures CalculateLineMarkedRegion(mark, cursor, lineRow).None?
  {
  }

  /**
    The span starts at the selection's start column on its first row and at 0
    below it, and ends at the selection's end column on its last row and at
    `usize::MAX` above it; rows strictly inside are marked whole.
  */
  lemma MarkedRegionColumns(mark: TextPosition, cursor: TextPosition, lineRow: Usize)
    ensures
      var (start, end) := SelectionBounds(mark, cursor);
      var r := CalculateLineMarkedRegion(mark, cursor, lineRow);
      && (start.row < lineRow < end.row ==> r == Some((0, USIZE_MAX)))
      && (r.Some? && lineRow == start.row ==> r.value.0 == start.col)
      && (r.Some? && lineRow != start.row ==> r.value.0 == 0)
      && (r.Some? && lineRow == end.row ==> r.value.1 == end.col)
      && (r.Some? && lineRow != end.row ==> r.value.1 == USIZE_MAX)
  {
  }

  /** Whether column `col` falls in a row's region. */
  predicate IsMarked(region: Option<(Usize, Usize)>, col: Usize)
  {
    region.Some? && region.value.0 <= col < region.value.1
  }

  /** A position lies in the selection when it is at or after its start and strictly before its end. */
  predicate InSelection(mark: TextPosition, cursor: TextPosition, pos: TextPosition)
  {
    var (start, end) := SelectionBounds(mark, cursor);
    LessEq(start, pos) && !LessEq(end, pos)
  }

  /**
    A character is drawn marked exactly when its position lies in the selection
    in row-major order; the last column `usize::MAX` is never marked, as it is
    the span's exclusive bound.
  */
  lemma MarkedIffInSelection(mark: TextPosition, cursor: TextPosition, lineRow: Usize, col: Usize)
    requires col < USIZE_MAX
    ensures IsMarked(CalculateLineMarkedRegion(mark, cursor, lineRow), col) <==> InSelection(mark, cursor, TextPosition(lineRow, col))
  {
  }

  // ----------------------------------------------------------------------
  // Rows and columns drawn

  /**
    The row loop of `render`: the buffer rows drawn, from the viewport's first
    row up to the screen height or the buffer's end, and the number of empty
    lines that fill the rest of the screen.
  */
  method VisibleRows(startRow: nat, availableRows: nat, textLen: nat) returns (drawn: seq<nat>, filler: nat)
    ensures |drawn| == (if startRow + availableRows <= textLen then availableRows
                        else if startRow < textLen then textLen - startRow
                        else 0)
    ensures forall k :: 0 <= k < |drawn| ==> drawn[k] == startRow + k && drawn[k] < textLen
    ensures |drawn| + filler == availableRows
  {
    var endRow := if startRow + availableRows < textLen then startRow + availableRows else textLen;
    drawn := [];
    var row := startRow;
    while row < endRow
      invariant if startRow <= endRow then startRow <= row <= endRow else row == startRow
      invariant |drawn| == row - startRow
      invariant forall k :: 0 <= k < |drawn| ==> drawn[k] == startRow + k && drawn[k] < textLen
    {
      drawn := drawn + [row];
      row := row + 1;
    }
    var rendered := if endRow > startRow then endRow - startRow else 0;
    filler := 0;
    var screenRow := rendered;
    assert rendered <= availableRows;
    while screenRow < availableRows
      invariant rendered <= screenRow <= availableRows
      invariant filler == screenRow - rendered
    {
      filler := filler + 1;
      screenRow := screenRow + 1;
    }
  }

  /** One character as drawn: its display column, the character, and whether it shows as marked. */
  datatype DrawnChar = DrawnChar(col: Usize, ch: char, marked: bool)

  /** The characters `render_line` emits: those at or right of the viewport's left column, in order. */
  function Emitted(cells: seq<(Usize, char)>, startCol: Usize, region: Option<(Usize, Usize)>): seq<DrawnChar>
  {
    if cells == [] then []
    else
      var init := cells[..|cells| - 1];
      var (col, ch) := cells[|cells| - 1];
      Emitted(init, startCol, region) + (if col >= startCol then [DrawnChar(col, ch, IsMarked(region, col))] else [])
  }

  /** Number of cells at or right of the left column. */
  function CountFrom(cells: seq<(Usize, char)>, startCol: Usize): nat
  {
    if cells == [] then 0
    else CountFrom(cells[..|cells| - 1], startCol) + (if cells[|cells| - 1].0 >= startCol then 1 else 0)
  }

  /** Emitted characters come from the line, lie at or right of the left column, and carry their marking. */
  lemma {:induction false} EmittedSpec(cells: seq<(Usize, char)>, startCol: Usize, region: Option<(Usize, Usize)>)
    ensures |Emitted(cells, startCol, region)| == CountFrom(cells, startCol)
    ensures forall k :: 0 <= k < |Emitted(cells, startCol, region)| ==>
      var d := Emitted(cells, startCol, region)[k];
      d.col >= startCol && (d.col, d.ch) in cells && d.marked == IsMarked(region, d.col)
  {
    if cells != [] {
      var init := cells[..|cells| - 1];
      EmittedSpec(init, startCol, region);
      forall k | 0 <= k < |Emitted(init, startCol, region)|
        ensures Emitted(init, startCol, region)[k].col >= startCol
        ensures (Emitted(init, startCol, region)[k].col, Emitted(init, startCol, region)[k].ch) in cells
      {
        var d := Emitted(init, startCol, region)[k];
        assert (d.col, d.ch) in init;
      }
    }
  }

  /** Emission keeps the line's order, one character per cell: the cells of `a + b` emit those of `a`, then those of `b`. */
  lemma {:induction false} EmittedAppend(a: seq<(Usize, char)>, b: seq<(Usize, char)>, startCol: Usize, region: Option<(Usize, Usize)>)
    ensures Emitted(a + b, startCol, region) == Emitted(a, startCol, region) + Emitted(b, startCol, region)
    decreases |b|
  {
    if b == [] {
      assert a + b == a;
    } else {
      var init := b[..|b| - 1];
      var (col, ch) := b[|b| - 1];
      var tail := if col >= startCol then [DrawnChar(col, ch, IsMarked(region, col))] else [];
      assert (a + b)[..|a + b| - 1] == a + init;
      assert (a + b)[|a + b| - 1] == (col, ch);
      assert Emitted(a + b, startCol, region) == Emitted(a + init, startCol, region) + tail;
      EmittedAppend(a, init, startCol, region);
      assert Emitted(b, startCol, region) == Emitted(init, startCol, region) + tail;
    }
  }

  /** A single cell is emitted, with its marking, exactly when it lies at or right of the left column. */
  lemma EmittedOne(col: Usize, ch: char, startCol: Usize, region: Option<(Usize, Usize)>)
    ensures Emitted([(col, ch)], startCol, region)
      == (if col >= startCol then [DrawnChar(col, ch, IsMarked(region, col))] else [])
  {
    assert [(col, ch)][..0] == [];
  }

  /** With the left column at 0 every character of the line is emitted. */
  lemma {:induction false} EmittedAllFromZero(cells: seq<(Usize, char)>)
    ensures CountFrom(cells, 0) == |cells|
  {
    if cells != [] {
      EmittedAllFromZero(cells[..|cells| - 1]);
    }
  }

  /** The character loop of `render_line`: skip what lies left of the viewport, mark what lies in the region. */
  method RenderLine(cells: seq<(Usize, char)>, startCol: Usize, region: Option<(Usize, Usize)>) returns (out: seq<DrawnChar>)
    ensures out == Emitted(cells, startCol, region)
  {
    out := [];
    var i := 0;
    while i < |cells|
      invariant 0 <= i <= |cells|
      invariant out == Emitted(cells[..i], startCol, region)
    {
      var prefix := cells[..i + 1];
      assert prefix[..|prefix| - 1] == cells[..i];
      assert prefix[|prefix| - 1] == cells[i];
      var (col, ch) := cells[i];
      if col >= startCol {
        out := out + [DrawnChar(col, ch, IsMarked(region, col))];
      }
      i := i + 1;
    }
    assert cells[..i] == cells;
  }
}
