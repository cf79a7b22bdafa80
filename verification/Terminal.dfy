/** The character grid and the cursor of the framebuffer terminal
(os/kernel/src/device/lfb_terminal.rs). Colours and pixels are not part of this model. */
module Terminal {
  import opened Ranges

  type U16 = n: nat | n <= 0xffff

  const BLANK := '\0'
  const TAB_SPACES: nat := 8
  /** The buffer is allocated with as many characters as the grid has bytes. */
  const CHARACTER_SIZE: nat := 12

  datatype Pos = Pos(column: U16, row: U16)

  datatype Size = Size(width: U16, height: U16)

  datatype Screen = Screen(cells: seq<char>, pos: Pos, saved: Pos)

  const Origin := Pos(0, 0)

  /** The grid is not empty, and its indices fit in 16 bits. */
  predicate Fits(size: Size) {
    size.width >= 1 && size.height >= 1 && size.width * size.height <= 0xffff && size.width + TAB_SPACES <= 0xffff
  }

  function BufferLength(size: Size): nat {
    size.width * size.height * CHARACTER_SIZE
  }

  /** The cursor may stand behind the last column, but never below the last row. */
  predicate Inside(size: Size, pos: Pos) {
    pos.row < size.height && pos.column <= size.width
  }

  predicate Safe(size: Size, s: Screen) {
    Fits(size) && |s.cells| == BufferLength(size) && Inside(size, s.pos) && Inside(size, s.saved)
  }

  function Index(size: Size, pos: Pos): nat {
    pos.row * size.width + pos.column
  }

  /** Every index that a cursor inside of the grid leads to fits in 16 bits and in the buffer. The
      cursor behind the last column of the last row leads behind the grid. */
  lemma IndexInBounds(size: Size, pos: Pos)
    requires Fits(size) && Inside(size, pos)
    ensures Index(size, pos) <= size.width * size.height <= 0xffff
    ensures Index(size, pos) < BufferLength(size)
    ensures Index(size, pos) < size.width * size.height <==> pos.column < size.width || pos.row + 1 < size.height
  {
    assert (pos.row + 1) * size.width <= size.height * size.width;
    assert pos.row + 1 < size.height ==> (pos.row + 2) * size.width <= size.height * size.width;
  }

  // --- what each operation does -----------------------------------------------------------------

  function Fill(cells: seq<char>, from: nat, to: nat, value: char): (r: seq<char>)
    ensures |r| == |cells|
  {
    seq(|cells|, i requires 0 <= i < |cells| => if from <= i < to then value else cells[i])
  }

  /** Everything moves up by one row, and all that is behind becomes blank. */
  function Scrolled(cells: seq<char>, size: Size): (r: seq<char>)
    requires size.height >= 1 && |cells| >= size.width * size.height
    ensures |r| == |cells|
  {
    seq(|cells|, i requires 0 <= i < |cells| =>
      if i < size.width * (size.height - 1) then cells[i + size.width] else BLANK)
  }

  lemma ScrollBounds(size: Size)
    requires Fits(size)
    ensures size.width * (size.height - 1) + size.width == size.width * size.height <= BufferLength(size)
    ensures size.width * (size.height - 1) >= 0
  {
  }

  /** Rows moved up, with blanks behind them. */
  lemma ScrolledParts(before: seq<char>, moved: seq<char>, size: Size, skip: nat)
    requires size.height >= 1 && |before| >= size.width * size.height && |moved| == |before|
    requires skip == size.width * (size.height - 1) && skip + size.width <= |before|
    requires forall i :: 0 <= i < skip ==> moved[i] == before[i + size.width]
    ensures Fill(moved, skip, |moved|, BLANK) == Scrolled(before, size)
  {
  }

  function ScrolledBy(cells: seq<char>, size: Size, n: nat): (r: seq<char>)
    requires size.height >= 1 && |cells| >= size.width * size.height
    ensures |r| == |cells|
    decreases n
  {
    if n == 0 then cells else ScrolledBy(Scrolled(cells, size), size, n - 1)
  }

  /** How many rows a row is below the last one. */
  function Excess(size: Size, row: nat): nat {
    if row < size.height then 0 else row - size.height + 1
  }

  /** `position`: scroll until the row is on the screen. */
  function Positioned(size: Size, s: Screen, pos: Pos): Screen
    requires size.height >= 1 && |s.cells| >= size.width * size.height
  {
    s.(cells := ScrolledBy(s.cells, size, Excess(size, pos.row)), pos := Pos(pos.column, Min(pos.row, size.height - 1)))
  }

  /** The first half of `print_char`: the character goes into the buffer. */
  function Typed(size: Size, s: Screen, c: char, drawn: bool): (r: Screen)
    requires Safe(size, s)
    ensures |r.cells| == |s.cells| && r.saved == s.saved
    ensures r.pos.row < size.height || r.pos == Pos(0, size.height)
  {
    var i := Index(size, s.pos);
    IndexInBounds(size, s.pos);
    if c == '\n' then
      s.(cells := Fill(s.cells, i, i + size.width - s.pos.column, BLANK), pos := Pos(0, s.pos.row + 1))
    else if drawn then
      s.(cells := s.cells[i := c], pos := Pos(s.pos.column + 1, s.pos.row))
    else s
  }

  /** The second half: wrap the line, then scroll. */
  function Settled(size: Size, s: Screen): Screen
    requires Fits(size) && |s.cells| == BufferLength(size)
    requires s.pos.row < size.height || s.pos == Pos(0, size.height)
  {
    var pos := if s.pos.column >= size.width then Pos(0, s.pos.row + 1) else s.pos;
    if pos.row >= size.height then s.(cells := Scrolled(s.cells, size), pos := Pos(0, size.height - 1))
    else s.(pos := pos)
  }

  function Printed(size: Size, s: Screen, c: char, drawn: bool): Screen
    requires Safe(size, s)
  {
    Settled(size, Typed(size, s, c, drawn))
  }

  function Tabbed(size: Size, s: Screen): Screen
    requires Safe(size, s)
  {
    if s.pos.column + TAB_SPACES >= size.width then Positioned(size, s, Pos(0, s.pos.row + 1))
    else Positioned(size, s, Pos((s.pos.column + TAB_SPACES) / TAB_SPACES * TAB_SPACES, s.pos.row))
  }

  /** What a cursor sequence asks for. `Panic` stands for an arithmetic overflow, which stops the
      kernel in the development profile. */
  datatype Move = Panic | Stay | Goto(pos: Pos) | Save

  /** A parameter of zero means one. */
  function Count(param: U16): nat {
    if param == 0 then 1 else param
  }

  function Sum(a: nat, b: nat): Option<nat> {
    if a + b <= 0xffff then Some(a + b) else None
  }

  function Difference(a: nat, b: nat): Option<nat> {
    if b <= a then Some(a - b) else None
  }

  function GotoRow(column: U16, row: Option<nat>, size: Size): Move
    requires size.height >= 1
  {
    if row.None? then Panic else Goto(Pos(column, Min(row.value, size.height - 1)))
  }

  function GotoColumn(column: Option<nat>, row: U16, size: Size): Move
    requires size.width >= 1
  {
    if column.None? then Panic else Goto(Pos(Min(column.value, size.width - 1), row))
  }

  /** `handle_ansi_cursor_sequence` as written, given the first value of each parameter. */
  function Asked(size: Size, code: nat, params: seq<U16>, pos: Pos, saved: Pos): Move
    requires Fits(size)
  {
    if code == 0x73 then Save
    else if code == 0x75 then Goto(saved)
    else if code == 0x48 || code == 0x66 then
      if |params| >= 2 then
        Goto(Pos(if params[0] > size.width then size.width - 1 else params[0],
                 if params[1] > size.height then size.height - 1 else params[1]))
      else Goto(Origin)
    else if params == [] then Stay
    else
      var p: nat := params[0];
      match code
      case 0x41 =>
        var row := Difference(pos.row, Count(p));
        if row.None? then Panic else Goto(Pos(pos.column, row.value))
      case 0x42 => GotoRow(pos.column, Sum(pos.row, Count(p)), size)
      case 0x43 => GotoColumn(Sum(pos.column, Count(p)), pos.row, size)
      case 0x44 =>
        var column := Difference(pos.column, Count(p));
        if column.None? then Panic else Goto(Pos(column.value, pos.row))
      case 0x45 => GotoRow(0, Sum(pos.row, p + 1), size)
      case 0x46 =>
        var row := Difference(pos.row, p + 1);
        if row.None? then Panic else Goto(Pos(0, row.value))
      case 0x47 => GotoColumn(Some(p), pos.row, size)
      case _ => Stay
  }

  /** The screen after a cursor sequence, or `None` if the kernel has stopped. */
  function Moved(size: Size, s: Screen, move: Move): Option<Screen>
    requires Fits(size) && |s.cells| == BufferLength(size)
  {
    match move
    case Panic => None
    case Stay => Some(s)
    case Goto(pos) => Some(Positioned(size, s, pos))
    case Save => Some(s.(saved := s.pos))
  }

  function Cleared(size: Size, s: Screen): Screen
    requires Fits(size) && |s.cells| == BufferLength(size)
  {
    Positioned(size, s.(cells := Fill(s.cells, 0, |s.cells|, BLANK)), Origin)
  }

  /** `handle_ansi_erase_sequence`. */
  function Erased(size: Size, s: Screen, code: nat, params: seq<U16>): (r: Screen)
    requires Safe(size, s)
  {
    var p := if params == [] then 0 else params[0];
    var i, first := Index(size, s.pos), s.pos.row * size.width;
    match (code, p)
    case (0x4a, 0) => s.(cells := Fill(s.cells, i, |s.cells|, BLANK))
    case (0x4a, 1) => s.(cells := Fill(s.cells, 0, i, BLANK))
    case (0x4a, 2) => Cleared(size, s)
    case (0x4b, 0) => s.(cells := Fill(s.cells, i, i + size.width - s.pos.column, BLANK))
    case (0x4b, 1) => s.(cells := Fill(s.cells, first, first + s.pos.column, BLANK))
    case (0x4b, 2) => s.(cells := Fill(s.cells, first, first + size.width, 'a'))
    case _ => s
  }

  // --- the terminal itself ----------------------------------------------------------------------

  class LfbTerminal {
    const size: Size
    const charBuffer: array<char>
    const hasGlyph: char -> bool
    var pos: Pos
    var savedPos: Pos

    ghost function View(): Screen
      reads this, charBuffer
    {
      Screen(charBuffer[..], pos, savedPos)
    }

    constructor (size: Size, hasGlyph: char -> bool)
      requires Fits(size)
      ensures this.size == size && this.hasGlyph == hasGlyph && fresh(charBuffer)
      ensures Safe(size, View()) && pos == Origin && savedPos == Origin
      ensures charBuffer.Length == size.width * size.height * 12
      ensures forall i :: 0 <= i < charBuffer.Length ==> charBuffer[i] == ' '
    {
      this.size := size;
      this.hasGlyph := hasGlyph;
      charBuffer := new char[BufferLength(size)](i => ' ');
      pos := Origin;
      savedPos := Origin;
    }

    /** The loops over the buffer, all of which replace the characters of a range. */
    method FillCells(from: nat, to: nat, value: char)
      modifies charBuffer
      ensures charBuffer[..] == Fill(old(charBuffer[..]), from, to, value)
    {
      for i := 0 to charBuffer.Length
        invariant forall k :: 0 <= k < i ==> charBuffer[k] == if from <= k < to then value else old(charBuffer[k])
        invariant forall k :: i <= k < charBuffer.Length ==> charBuffer[k] == old(charBuffer[k])
      {
        if from <= i < to {
          charBuffer[i] := value;
        }
      }
    }

    method ScrollUp()
      requires Fits(size) && charBuffer.Length == BufferLength(size)
      modifies charBuffer
      ensures charBuffer[..] == Scrolled(old(charBuffer[..]), size)
    {
      var skip := size.width * (size.height - 1);
      ScrollBounds(size);
      ghost var before := charBuffer[..];
      hide BufferLength, Scrolled;
      forall i | 0 <= i < skip {
        charBuffer[i] := charBuffer[i + size.width];
      }
      ghost var moved := charBuffer[..];
      assert forall i :: 0 <= i < skip ==> moved[i] == before[i + size.width];
      FillCells(skip, charBuffer.Length, BLANK);
      ScrolledParts(before, moved, size, skip);
    }

    method Position(target: Pos)
      requires Fits(size) && charBuffer.Length == BufferLength(size)
      modifies this`pos, charBuffer
      ensures View() == Positioned(size, old(View()), target)
    {
      pos := target;
      while pos.row >= size.height
        invariant pos == target || (pos.column == target.column && size.height - 1 <= pos.row <= target.row)
        invariant ScrolledBy(charBuffer[..], size, Excess(size, pos.row))
          == ScrolledBy(old(charBuffer[..]), size, Excess(size, target.row))
      {
        pos := Pos(pos.column, pos.row - 1);
        ScrollUp();
      }
    }

    method PrintChar(c: char)
      requires Safe(size, View())
      modifies this`pos, charBuffer
      ensures View() == Printed(size, old(View()), c, hasGlyph(c))
    {
      IndexInBounds(size, pos);
      if c == '\n' {
        ClearLineFromCursor();
        pos := Pos(0, pos.row + 1);
      } else if hasGlyph(c) {
        var index: U16 := pos.row * size.width + pos.column;
        charBuffer[index] := c;
        pos := Pos(pos.column + 1, pos.row);
      }
      assert View() == Typed(size, old(View()), c, hasGlyph(c));
      if pos.column >= size.width {
        pos := Pos(0, pos.row + 1);
      }
      if pos.row >= size.height {
        ScrollUp();
        pos := Pos(0, size.height - 1);
      }
    }

    method HandleTab()
      requires Safe(size, View())
      modifies this`pos, charBuffer
      ensures View() == Tabbed(size, old(View()))
    {
      if pos.column + TAB_SPACES >= size.width {
        Position(Pos(0, pos.row + 1));
      } else {
        Position(Pos((pos.column + TAB_SPACES) / TAB_SPACES * TAB_SPACES, pos.row));
      }
    }

    method ClearScreen()
      modifies charBuffer
      ensures charBuffer[..] == Fill(old(charBuffer[..]), 0, charBuffer.Length, BLANK)
    {
      FillCells(0, charBuffer.Length, BLANK);
    }

    method ClearScreenToCursor()
      requires Safe(size, View())
      modifies charBuffer
      ensures View() == Erased(size, old(View()), 0x4a, [1])
    {
      IndexInBounds(size, pos);
      var end: U16 := pos.row * size.width + pos.column;
      FillCells(0, end, BLANK);
    }

    method ClearScreenFromCursor()
      requires Safe(size, View())
      modifies charBuffer
      ensures View() == Erased(size, old(View()), 0x4a, [0])
    {
      IndexInBounds(size, pos);
      var skip: U16 := pos.row * size.width + pos.column;
      FillCells(skip, charBuffer.Length, BLANK);
    }

    method ClearLine()
      requires Safe(size, View())
      modifies charBuffer
      ensures View() == Erased(size, old(View()), 0x4b, [2])
    {
      IndexInBounds(size, pos);
      var skip: U16 := pos.row * size.width;
      FillCells(skip, skip + size.width, 'a');
    }

    method ClearLineToCursor()
      requires Safe(size, View())
      modifies charBuffer
      ensures View() == Erased(size, old(View()), 0x4b, [1])
    {
      IndexInBounds(size, pos);
      var skip: U16 := pos.row * size.width;
      FillCells(skip, skip + pos.column, BLANK);
    }

    method ClearLineFromCursor()
      requires Safe(size, View())
      modifies charBuffer
      ensures View() == Erased(size, old(View()), 0x4b, [0])
    {
      IndexInBounds(size, pos);
      var skip: U16 := pos.row * size.width + pos.column;
      FillCells(skip, skip + (size.width - pos.column), BLANK);
    }

    /** `clear`. */
    method Clear()
      requires Fits(size) && charBuffer.Length == BufferLength(size)
      modifies this`pos, charBuffer
      ensures View() == Cleared(size, old(View()))
    {
      ClearScreen();
      Position(Origin);
    }

    method HandleErase(code: nat, params: seq<U16>)
      requires Safe(size, View())
      modifies this`pos, charBuffer
      ensures View() == Erased(size, old(View()), code, params)
    {
      var eraseCode := if params == [] then 0 else params[0];
      match code {
        case 0x4a =>
          match eraseCode {
            case 0 => ClearScreenFromCursor();
            case 1 => ClearScreenToCursor();
            case 2 => Clear();
            case _ =>
          }
        case 0x4b =>
          match eraseCode {
            case 0 => ClearLineFromCursor();
            case 1 => ClearLineToCursor();
            case 2 => ClearLine();
            case _ =>
          }
        case _ =>
      }
    }

    /** `false` where 16-bit arithmetic overflows and the kernel stops. */
    method HandleCursor(code: nat, params: seq<U16>) returns (ok: bool)
      requires Fits(size) && charBuffer.Length == BufferLength(size)
      modifies this, charBuffer
      ensures var after := Moved(size, old(View()), Asked(size, code, params, old(pos), old(savedPos)));
        if ok then Some(View()) == after else after.None?
    {
      hide Positioned, BufferLength;
      match code {
        case 0x41 =>
          if |params| >= 1 {
            if Count(params[0]) > pos.row {
              return false;
            }
            Position(Pos(pos.column, pos.row - Count(params[0])));
          }
        case 0x42 =>
          if |params| >= 1 {
            if pos.row + Count(params[0]) > 0xffff {
              return false;
            }
            var row: U16 := pos.row + Count(params[0]);
            Position(Pos(pos.column, if row < size.height then row else size.height - 1));
          }
        case 0x43 =>
          if |params| >= 1 {
            if pos.column + Count(params[0]) > 0xffff {
              return false;
            }
            var column: U16 := pos.column + Count(params[0]);
            Position(Pos(if column < size.width then column else size.width - 1, pos.row));
          }
        case 0x44 =>
          if |params| >= 1 {
            if Count(params[0]) > pos.column {
              return false;
            }
            Position(Pos(pos.column - Count(params[0]), pos.row));
          }
        case 0x45 =>
          if |params| >= 1 {
            if pos.row + params[0] + 1 > 0xffff {
              return false;
            }
            var row: U16 := pos.row + params[0] + 1;
            Position(Pos(0, if row < size.height then row else size.height - 1));
          }
        case 0x46 =>
          if |params| >= 1 {
            if params[0] + 1 > pos.row {
              return false;
            }
            Position(Pos(0, pos.row - params[0] - 1));
          }
        case 0x47 =>
          if |params| >= 1 {
            var column := params[0];
            Position(Pos(if column < size.width then column else size.width - 1, pos.row));
          }
        case 0x48 => SetPosition(params);
        case 0x66 => SetPosition(params);
        case 0x73 => savedPos := pos;
        case 0x75 => Position(savedPos);
        case _ =>
      }
      return true;
    }

    method SetPosition(params: seq<U16>)
      requires Fits(size) && charBuffer.Length == BufferLength(size)
      modifies this`pos, charBuffer
      ensures Some(View()) == Moved(size, old(View()), Asked(size, 0x48, params, old(pos), old(savedPos)))
    {
      if |params| >= 2 {
        var column, row := params[0], params[1];
        Position(Pos(if column > size.width then size.width - 1 else column,
                     if row > size.height then size.height - 1 else row));
      } else {
        Position(Origin);
      }
    }
  }
}
