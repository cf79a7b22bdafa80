/** What printing, tabs and cursor sequences do to every cell of the grid and to the cursor, from any
screen (os/kernel/src/device/lfb_terminal.rs:194-274, 485-571). */
module TerminalCells {
  import opened Ranges
  import opened Terminal
  import opened TerminalRuns

  // --- scrolling --------------------------------------------------------------------------------

  /** The cell of a grid that has been moved up by `n` rows. */
  function CellAfter(size: Size, cells: seq<char>, n: nat, r: nat, c: nat): char
    requires Grid(size, cells) && r < size.height && c < size.width
  {
    if r + n < size.height then Cell(size, cells, r + n, c) else '\0'
  }

  lemma {:induction false} ScrolledByCell(size: Size, cells: seq<char>, n: nat, r: nat, c: nat)
    requires Grid(size, cells) && r < size.height && c < size.width
    ensures Cell(size, ScrolledBy(cells, size, n), r, c) == CellAfter(size, cells, n, r, c)
    decreases n
  {
    if n > 0 {
      ScrolledByCell(size, Scrolled(cells, size), n - 1, r, c);
      if r + (n - 1) < size.height {
        CellScrolled(size, cells, r + (n - 1), c);
      }
    }
  }

  /** Going to a row below the grid moves the rows up until it is the last one, and blanks the rows
      that come into sight; going elsewhere changes no cell. */
  lemma PositionMovesRows(size: Size, s: Screen, to: Pos)
    requires Fits(size) && |s.cells| == BufferLength(size)
    ensures var p, n := Positioned(size, s, to), (if to.row < size.height then 0 else to.row - size.height + 1);
      && p.pos == Pos(to.column, Min(to.row, size.height - 1)) && p.saved == s.saved && |p.cells| == |s.cells|
      && (n == 0 ==> p.cells == s.cells)
      && forall r: nat, c: nat :: r < size.height && c < size.width ==>
           Cell(size, p.cells, r, c) == CellAfter(size, s.cells, n, r, c)
  {
    var p, n := Positioned(size, s, to), Excess(size, to.row);
    assert Grid(size, s.cells) && Grid(size, p.cells);
    hide Cell, CellAfter, BufferLength, Grid;
    forall r: nat, c: nat | r < size.height && c < size.width
      ensures Cell(size, p.cells, r, c) == CellAfter(size, s.cells, n, r, c)
    {
      ScrolledByCell(size, s.cells, n, r, c);
    }
  }

  /** A tab in the last row with no more than eight columns left moves the rows up by one. No other
      tab changes a cell. */
  lemma TabMovesRows(size: Size, s: Screen)
    requires Safe(size, s)
    ensures var p := Tabbed(size, s);
      var n := if s.pos.column + 8 >= size.width && s.pos.row + 1 == size.height then 1 else 0;
      && p.pos == (if s.pos.column + 8 < size.width then Pos((s.pos.column / 8 + 1) * 8, s.pos.row)
                   else Pos(0, s.pos.row + 1 - n))
      && p.saved == s.saved && |p.cells| == |s.cells| && (n == 0 ==> p.cells == s.cells)
      && forall r: nat, c: nat :: r < size.height && c < size.width ==>
           Cell(size, p.cells, r, c) == CellAfter(size, s.cells, n, r, c)
  {
    assert Grid(size, s.cells);
    hide Cell, CellAfter, BufferLength, Positioned, ScrolledBy;
    var column := s.pos.column;
    assert (column + 8) / 8 == column / 8 + 1;
    var to := if column + 8 >= size.width then Pos(0, s.pos.row + 1) else Pos((column + 8) / 8 * 8, s.pos.row);
    assert Tabbed(size, s) == Positioned(size, s, to);
    PositionMovesRows(size, s, to);
  }

  // --- printing ---------------------------------------------------------------------------------

  /** The cell that a character is written to: the one at the cursor, or the first of the next row if
      the cursor is behind the last column. */
  predicate IsAt(size: Size, pos: Pos, r: nat, c: nat) {
    if pos.column < size.width then r == pos.row && c == pos.column else r == pos.row + 1 && c == 0
  }

  /** What is in a cell before the rows move up. A newline blanks the row from the cursor on; a
      character that is drawn overwrites one cell. */
  function CellTyped(size: Size, s: Screen, x: char, drawn: bool, r: nat, c: nat): char
    requires Safe(size, s) && r < size.height && c < size.width
  {
    if x == '\n' then
      if r == s.pos.row && c >= s.pos.column then '\0' else Cell(size, s.cells, r, c)
    else if drawn && IsAt(size, s.pos, r, c) then x
    else Cell(size, s.cells, r, c)
  }

  lemma TypedCell(size: Size, s: Screen, x: char, drawn: bool, r: nat, c: nat)
    requires Safe(size, s) && r < size.height && c < size.width
    ensures Cell(size, Typed(size, s, x, drawn).cells, r, c) == CellTyped(size, s, x, drawn, r, c)
  {
    assert Grid(size, s.cells);
    if x == '\n' {
      LineEnd(size, s.pos);
      CellFilled(size, s.cells, s.pos.row, s.pos.column, s.pos.row, size.width, BLANK, r, c);
      WithinRow(s.pos.row, s.pos.column, size.width, r, c);
    } else if drawn {
      WrittenCell(size, s, x, r, c);
    }
  }

  lemma WrittenCell(size: Size, s: Screen, x: char, r: nat, c: nat)
    requires Safe(size, s) && r < size.height && c < size.width
    ensures Index(size, s.pos) < |s.cells|
    ensures Cell(size, s.cells[Index(size, s.pos) := x], r, c)
      == if IsAt(size, s.pos, r, c) then x else Cell(size, s.cells, r, c)
  {
    IndexInBounds(size, s.pos);
    if s.pos.column < size.width {
      CellWritten(size, s.cells, s.pos, x, r, c);
    } else {
      var next := Pos(0, s.pos.row + 1);
      CellBelow(size, s.pos.row, 0);
      LineEnd(size, s.pos);
      assert Index(size, s.pos) == Index(size, next);
      if next.row < size.height {
        CellWritten(size, s.cells, next, x, r, c);
      } else {
        CellInGrid(size, r, c);
        assert Index(size, s.pos) == size.height * size.width;
      }
    }
  }

  /** The row and column of the cursor before the rows move up. */
  function ColumnTyped(size: Size, s: Screen, x: char, drawn: bool): nat {
    var column := s.pos.column + (if drawn then 1 else 0);
    if x == '\n' || column >= size.width then 0 else column
  }

  function RowTyped(size: Size, s: Screen, x: char, drawn: bool): nat {
    s.pos.row + (if x == '\n' || s.pos.column + (if drawn then 1 else 0) >= size.width then 1 else 0)
  }

  /** What is in a cell in the end: if the cursor is below the grid, the rows have moved up by one. */
  function CellPrinted(size: Size, s: Screen, x: char, drawn: bool, r: nat, c: nat): char
    requires Safe(size, s) && r < size.height && c < size.width
  {
    if RowTyped(size, s, x, drawn) < size.height then CellTyped(size, s, x, drawn, r, c)
    else if r + 1 < size.height then CellTyped(size, s, x, drawn, r + 1, c)
    else '\0'
  }

  /** Printing a character, on every screen and cell by cell: a newline blanks the row of the cursor
      from there on, a character that is drawn overwrites the cell at the cursor, whatever was there,
      and no other cell changes. If the cursor then is below the grid, the rows move up by one. */
  lemma PrintChangesCells(size: Size, s: Screen, x: char, drawn: bool)
    requires Safe(size, s)
    ensures Safe(size, Printed(size, s, x, drawn)) && Printed(size, s, x, drawn).saved == s.saved
    ensures Printed(size, s, x, drawn).pos
      == Pos(ColumnTyped(size, s, x, drawn), Min(RowTyped(size, s, x, drawn), size.height - 1))
    ensures forall r: nat, c: nat :: r < size.height && c < size.width ==>
      Cell(size, Printed(size, s, x, drawn).cells, r, c) == CellPrinted(size, s, x, drawn, r, c)
  {
    hide Typed, Printed, Cell, CellTyped, BufferLength;
    PrintedIs(size, s, x, drawn);
    var t, p, row := Typed(size, s, x, drawn), Printed(size, s, x, drawn), RowTyped(size, s, x, drawn);
    forall r: nat, c: nat | r < size.height && c < size.width
      ensures Cell(size, p.cells, r, c) == CellPrinted(size, s, x, drawn, r, c)
    {
      TypedCell(size, s, x, drawn, r, c);
      if row >= size.height {
        CellScrolled(size, t.cells, r, c);
        if r + 1 < size.height {
          TypedCell(size, s, x, drawn, r + 1, c);
        }
      }
    }
  }

  lemma PrintedIs(size: Size, s: Screen, x: char, drawn: bool)
    requires Safe(size, s)
    ensures var t, p, row := Typed(size, s, x, drawn), Printed(size, s, x, drawn), RowTyped(size, s, x, drawn);
      && Safe(size, p) && Grid(size, t.cells) && Grid(size, p.cells) && p.saved == s.saved && row <= size.height
      && p.pos == Pos(ColumnTyped(size, s, x, drawn), Min(row, size.height - 1))
      && p.cells == if row < size.height then t.cells else Scrolled(t.cells, size)
  {
    PrintedSafe(size, s, x, drawn);
    hide Scrolled, Fill, Index;
  }

  // --- cursor sequences -------------------------------------------------------------------------

  /** The screen after a cursor sequence, or `None` if the kernel stops. */
  function AfterCursor(size: Size, s: Screen, code: nat, params: seq<U16>): Option<Screen>
    requires Safe(size, s)
  {
    Moved(size, s, Asked(size, code, params, s.pos, s.saved))
  }

  /** The position sequences take the column first. Inside of the grid they go there and change no
      cell. One column behind the last one is a valid place; one row behind the last one moves the
      rows up by one. Coordinates behind that are those of the border. Without two parameters they
      go to the origin. */
  lemma PositionSequence(size: Size, s: Screen, code: nat, params: seq<U16>)
    requires Safe(size, s) && (code == 0x48 || code == 0x66)
    ensures |params| < 2 ==> AfterCursor(size, s, code, params) == Some(s.(pos := Pos(0, 0)))
    ensures |params| >= 2 ==>
      var after := AfterCursor(size, s, code, params);
      && after.Some? && Safe(size, after.value) && after.value.saved == s.saved
      && after.value.pos.column == (if params[0] <= size.width then params[0] else size.width - 1)
      && after.value.pos.row == (if params[1] < size.height then params[1] else size.height - 1)
      && (params[1] != size.height ==> after.value.cells == s.cells)
      && (params[1] == size.height ==> forall r: nat, c: nat :: r < size.height && c < size.width ==>
            Cell(size, after.value.cells, r, c) == CellAfter(size, s.cells, 1, r, c))
  {
    hide Asked, Positioned, Cell, CellAfter, BufferLength, Fits;
    var to := Target(size, params);
    AskedPosition(size, s, code, params);
    PositionMovesRows(size, s, to);
    SettledScreen(size, s, to);
  }

  /** Where the position sequence goes before the rows move. */
  function Target(size: Size, params: seq<U16>): Pos
    requires Fits(size)
  {
    if |params| < 2 then Pos(0, 0)
    else Pos(if params[0] <= size.width then params[0] else size.width - 1,
             if params[1] <= size.height then params[1] else size.height - 1)
  }

  lemma AskedPosition(size: Size, s: Screen, code: nat, params: seq<U16>)
    requires Safe(size, s) && (code == 0x48 || code == 0x66)
    ensures AfterCursor(size, s, code, params) == Some(Positioned(size, s, Target(size, params)))
    ensures size.width >= 1 && size.height >= 1
  {
    hide Positioned;
  }

  lemma SettledScreen(size: Size, s: Screen, to: Pos)
    requires Safe(size, s) && to.column <= size.width
    ensures Safe(size, Positioned(size, s, to))
    ensures to.row < size.height ==> Positioned(size, s, to) == s.(pos := to)
  {
    hide Scrolled;
  }

  /** They clamp to the grid only if neither coordinate is just behind the border. */
  lemma PositionClampsExactlyWhen(size: Size, s: Screen, code: nat, params: seq<U16>)
    requires Safe(size, s) && (code == 0x48 || code == 0x66) && |params| >= 2
    ensures AfterCursor(size, s, code, params).Some?
    ensures AfterCursor(size, s, code, params).value.pos.column < size.width <==> params[0] != size.width
    ensures (AfterCursor(size, s, code, params).value.pos
             == Pos(Clamp(params[0], size.width), Clamp(params[1], size.height))) <==> params[0] != size.width
  {
    PositionSequence(size, s, code, params);
    hide Asked, Moved;
  }

  /** The sequences for moves do nothing without a parameter, and unknown ones never do. */
  lemma NoParameterStays(size: Size, s: Screen, code: nat, params: seq<U16>)
    requires Safe(size, s)
    requires (0x41 <= code <= 0x47 && params == []) || !(0x41 <= code <= 0x48 || code in {0x66, 0x73, 0x75})
    ensures AfterCursor(size, s, code, params) == Some(s)
  {
  }

  /** The moves relative to the cursor, and the one to a column: they change no cell and nothing but
      the cursor, and stop the kernel exactly where a row or column would be negative, or greater
      than 16 bits hold. A distance of zero means one. */
  lemma MoveSequence(size: Size, s: Screen, code: nat, params: seq<U16>)
    requires Safe(size, s) && params != []
    ensures var p, d, row, column := params[0], Max(params[0], 1), s.pos.row, s.pos.column;
      var after := AfterCursor(size, s, code, params);
      match code
      case 0x41 => after == if d <= row then Some(s.(pos := Pos(column, row - d))) else None
      case 0x42 =>
        after == if row + d <= 0xffff then Some(s.(pos := Pos(column, Min(row + d, size.height - 1)))) else None
      case 0x43 =>
        after == if column + d <= 0xffff then Some(s.(pos := Pos(Min(column + d, size.width - 1), row))) else None
      case 0x44 => after == if d <= column then Some(s.(pos := Pos(column - d, row))) else None
      case 0x45 =>
        after == if row + p + 1 <= 0xffff then Some(s.(pos := Pos(0, Min(row + p + 1, size.height - 1)))) else None
      case 0x46 => after == if p + 1 <= row then Some(s.(pos := Pos(0, row - p - 1))) else None
      case 0x47 => after == Some(s.(pos := Pos(Min(p, size.width - 1), row)))
      case _ => true
  {
    hide Asked, Positioned, BufferLength, Fits;
    AskedIsClampedExactlyWhen(size, code, params, s.pos, s.saved);
    InGridStays(size, s);
  }

  lemma InGridStays(size: Size, s: Screen)
    requires Safe(size, s)
    ensures size.width >= 1 && size.height >= 1
    ensures forall to: Pos :: to.row < size.height ==> Positioned(size, s, to) == s.(pos := to)
  {
  }

  /** Saving and restoring. */
  lemma SaveAndRestore(size: Size, s: Screen, params: seq<U16>)
    requires Safe(size, s)
    ensures AfterCursor(size, s, 0x73, params) == Some(s.(saved := s.pos))
    ensures AfterCursor(size, s, 0x75, params) == Some(s.(pos := s.saved))
  {
  }

  /** The screen after `clear`: blank, with the cursor at the origin. */
  lemma ClearBlanks(size: Size, s: Screen)
    requires Safe(size, s)
    ensures Safe(size, Cleared(size, s)) && Cleared(size, s).pos == Pos(0, 0) && Cleared(size, s).saved == s.saved
    ensures forall i :: 0 <= i < |s.cells| ==> Cleared(size, s).cells[i] == '\0'
  {
  }

  /** Erasing, with the missing parameter that means 0: the cells of the part to be erased and no
      others, and no move of the cursor but that to the origin when the whole screen is erased. */
  lemma EraseSequence(size: Size, s: Screen, code: nat, params: seq<U16>)
    requires Safe(size, s)
    ensures var p: U16 := if params == [] then 0 else params[0];
      var after := Erased(size, s, code, params);
      && after.pos == (if code == 0x4a && p == 2 then Pos(0, 0) else s.pos) && after.saved == s.saved
      && Safe(size, after)
      && forall r: nat, c: nat :: r < size.height && c < size.width ==>
           Cell(size, after.cells, r, c)
             == if !IsErased(code, p, s.pos, r, c) then Cell(size, s.cells, r, c)
                else if code == 0x4b && p == 2 then 'a' else '\0'
  {
    var p: U16 := if params == [] then 0 else params[0];
    EraseClears(size, s, code, p);
    ErasedAlike(size, s, code, params, p);
    hide Erased, Cell, IsErased, BufferLength;
    forall r: nat, c: nat | r < size.height && c < size.width
      ensures Cell(size, Erased(size, s, code, params).cells, r, c)
        == if !IsErased(code, p, s.pos, r, c) then Cell(size, s.cells, r, c)
           else if code == 0x4b && p == 2 then 'a' else '\0'
    {
      assert ErasesAt(size, s, code, p, r, c);
    }
  }

  lemma ErasedAlike(size: Size, s: Screen, code: nat, params: seq<U16>, p: U16)
    requires Safe(size, s) && p == if params == [] then 0 else params[0]
    ensures var after := Erased(size, s, code, params);
      && after == Erased(size, s, code, [p]) && Safe(size, after) && after.saved == s.saved
      && after.pos == (if code == 0x4a && p == 2 then Pos(0, 0) else s.pos)
  {
    hide Fill;
  }
}
