/** What the terminal shows and where its cursor goes over whole runs: the screen is the end of
an unbounded document, and the cursor stays inside of the grid
(os/kernel/src/device/lfb_terminal.rs:194-388, 485-600). */
module TerminalRuns {
  import opened Ranges
  import opened Terminal

  // --- the buffer as a grid -------------------------------------------------------------------

  /** The buffer holds the whole grid, and more. */
  predicate Grid(size: Size, cells: seq<char>) {
    size.width >= 1 && size.height >= 1 && |cells| >= size.width * size.height
  }

  /** The place of the cell in row `r` and column `c` in the buffer. */
  function CellIndex(size: Size, r: nat, c: nat): nat {
    r * size.width + c
  }

  lemma CellInGrid(size: Size, r: nat, c: nat)
    requires r < size.height && c < size.width
    ensures CellIndex(size, r, c) < size.width * size.height
    ensures CellIndex(size, r, c) < size.width * (size.height - 1) <==> r + 1 < size.height
  {
    assert (r + 1) * size.width <= size.height * size.width;
    if r + 1 < size.height {
      assert (r + 2) * size.width <= size.height * size.width;
    }
  }

  lemma CellBelow(size: Size, r: nat, c: nat)
    ensures CellIndex(size, r + 1, c) == CellIndex(size, r, c) + size.width
  {
    assert (r + 1) * size.width == r * size.width + size.width;
  }

  predicate Before(r: nat, c: nat, r1: nat, c1: nat) {
    r < r1 || (r == r1 && c < c1)
  }

  /** The order of the buffer is the reading order of the grid. */
  lemma ReadingOrder(size: Size, r: nat, c: nat, r1: nat, c1: nat)
    requires c < size.width && c1 <= size.width
    ensures CellIndex(size, r, c) < CellIndex(size, r1, c1) <==> Before(r, c, r1, c1)
  {
    if r < r1 {
      assert (r + 1) * size.width <= r1 * size.width;
    } else if r1 < r {
      assert (r1 + 1) * size.width <= r * size.width;
    }
  }

  lemma PosIndex(size: Size, pos: Pos)
    ensures Index(size, pos) == CellIndex(size, pos.row, pos.column)
  {
  }

  /** The character in row `r` and column `c`. */
  function Cell(size: Size, cells: seq<char>, r: nat, c: nat): char
    requires Grid(size, cells) && r < size.height && c < size.width
  {
    CellInGrid(size, r, c);
    cells[CellIndex(size, r, c)]
  }

  lemma CellWritten(size: Size, cells: seq<char>, pos: Pos, value: char, r: nat, c: nat)
    requires Grid(size, cells) && r < size.height && c < size.width
    requires pos.row < size.height && pos.column < size.width
    ensures Index(size, pos) < |cells|
    ensures Cell(size, cells[Index(size, pos) := value], r, c)
      == if r == pos.row && c == pos.column then value else Cell(size, cells, r, c)
  {
    CellInGrid(size, pos.row, pos.column);
    CellInGrid(size, r, c);
    PosIndex(size, pos);
    ReadingOrder(size, r, c, pos.row, pos.column);
    ReadingOrder(size, pos.row, pos.column, r, c);
    hide CellIndex, Index;
  }

  lemma CellScrolled(size: Size, cells: seq<char>, r: nat, c: nat)
    requires Grid(size, cells) && r < size.height && c < size.width
    ensures Cell(size, Scrolled(cells, size), r, c)
      == if r + 1 < size.height then Cell(size, cells, r + 1, c) else BLANK
  {
    CellInGrid(size, r, c);
    CellBelow(size, r, c);
    ScrolledAt(size, cells, CellIndex(size, r, c), size.width * size.height, size.width * (size.height - 1));
    hide CellIndex, Scrolled;
  }

  lemma ScrolledAt(size: Size, cells: seq<char>, i: nat, all: nat, skip: nat)
    requires Grid(size, cells) && all == size.width * size.height && skip == size.width * (size.height - 1) && i < all
    ensures skip + size.width == all && Scrolled(cells, size)[i] == if i < skip then cells[i + size.width] else BLANK
  {
  }

  lemma CellFilled(size: Size, cells: seq<char>, r0: nat, c0: nat, r1: nat, c1: nat, value: char, r: nat, c: nat)
    requires Grid(size, cells) && r < size.height && c < size.width && c0 <= size.width && c1 <= size.width
    ensures Cell(size, Fill(cells, CellIndex(size, r0, c0), CellIndex(size, r1, c1), value), r, c)
      == if !Before(r, c, r0, c0) && Before(r, c, r1, c1) then value else Cell(size, cells, r, c)
  {
    CellInGrid(size, r, c);
    ReadingOrder(size, r, c, r0, c0);
    ReadingOrder(size, r, c, r1, c1);
    hide CellIndex, Before;
  }

  lemma FilledToEnd(size: Size, cells: seq<char>, r0: nat, c0: nat, r: nat, c: nat)
    requires Grid(size, cells) && r < size.height && c < size.width && c0 <= size.width
    ensures Cell(size, Fill(cells, CellIndex(size, r0, c0), |cells|, BLANK), r, c)
      == if !Before(r, c, r0, c0) then BLANK else Cell(size, cells, r, c)
  {
    CellInGrid(size, r, c);
    ReadingOrder(size, r, c, r0, c0);
    hide CellIndex, Before;
  }

  // --- the document ---------------------------------------------------------------------------

  /** A character before the first line. */
  function Prepend(c: char, lines: seq<seq<char>>): (r: seq<seq<char>>)
    requires lines != []
    ensures r != []
  {
    if c == '\n' then [[]] + lines else [[c] + lines[0]] + lines[1..]
  }

  /** The lines of a text. */
  function Lines(text: seq<char>): (r: seq<seq<char>>)
    ensures r != []
  {
    if text == [] then [[]] else Prepend(text[0], Lines(text[1..]))
  }

  /** A line is cut into rows of `w` characters. The last one is shorter, and empty if nothing is left. */
  function Chunks(line: seq<char>, w: nat): (r: seq<seq<char>>)
    requires w >= 1
    ensures r != []
  {
    if |line| < w then [line] else [line[..w]] + Chunks(line[w..], w)
  }

  function Wrap(lines: seq<seq<char>>, w: nat): seq<seq<char>>
    requires w >= 1
  {
    if lines == [] then [] else Chunks(lines[0], w) + Wrap(lines[1..], w)
  }

  /** The unbounded document that a text makes on a screen of width `w`. */
  function Document(text: seq<char>, w: nat): seq<seq<char>>
    requires w >= 1
  {
    Wrap(Lines(text), w)
  }

  function Last<T>(s: seq<T>): T
    requires s != []
  {
    s[|s| - 1]
  }

  function Init<T>(s: seq<T>): seq<T>
    requires s != []
  {
    s[..|s| - 1]
  }

  /** The document after one more character. */
  function Extend(doc: seq<seq<char>>, c: char, w: nat): seq<seq<char>>
    requires doc != []
  {
    if c == '\n' then doc + [[]]
    else if |Last(doc)| + 1 < w then Init(doc) + [Last(doc) + [c]]
    else Init(doc) + [Last(doc) + [c], []]
  }

  lemma PrependSnoc(x: char, lines: seq<seq<char>>, c: char)
    requires lines != []
    ensures Prepend(x, lines + [[]]) == Prepend(x, lines) + [[]]
    ensures Prepend(x, Init(lines) + [Last(lines) + [c]]) == Init(Prepend(x, lines)) + [Last(Prepend(x, lines)) + [c]]
  {
    if |lines| == 1 {
      assert [x] + (lines[0] + [c]) == ([x] + lines[0]) + [c];
    } else {
      assert (Init(lines) + [Last(lines) + [c]])[1..] == Init(lines[1..]) + [Last(lines) + [c]];
    }
  }

  lemma {:induction false} LinesSnoc(text: seq<char>, c: char)
    ensures Lines(text + [c]) == if c == '\n' then Lines(text) + [[]] else Init(Lines(text)) + [Last(Lines(text)) + [c]]
  {
    if text == [] {
      var empty: seq<seq<char>> := [[]];
      assert text + [c] == [c] && [c][1..] == [] && [] + [c] == [c] + [] == [c];
      assert Lines([c]) == Prepend(c, empty) && empty[1..] == Init(empty) == [];
    } else {
      assert (text + [c])[1..] == text[1..] + [c];
      LinesSnoc(text[1..], c);
      PrependSnoc(text[0], Lines(text[1..]), c);
      hide Prepend;
    }
  }

  lemma {:induction false} ChunksSnoc(line: seq<char>, c: char, w: nat)
    requires w >= 1 && c != '\n'
    ensures Chunks(line + [c], w) == Extend(Chunks(line, w), c, w)
    ensures |Last(Chunks(line, w))| < w
  {
    if |line| >= w {
      assert (line + [c])[..w] == line[..w] && (line + [c])[w..] == line[w..] + [c];
      ChunksSnoc(line[w..], c, w);
      ExtendSuffix([line[..w]], Chunks(line[w..], w), c, w);
      hide Extend;
    } else if |line| + 1 == w {
      assert (line + [c])[..w] == line + [c] && (line + [c])[w..] == [];
      assert Chunks([], w) == [[]];
    }
  }

  lemma {:induction false} WrapSnoc(lines: seq<seq<char>>, line: seq<char>, w: nat)
    requires w >= 1
    ensures Wrap(lines + [line], w) == Wrap(lines, w) + Chunks(line, w)
  {
    if lines == [] {
      assert [] + [line] == [line] && [line][1..] == [];
    } else {
      assert (lines + [line])[1..] == lines[1..] + [line];
      WrapSnoc(lines[1..], line, w);
    }
  }

  lemma ExtendSuffix(init: seq<seq<char>>, doc: seq<seq<char>>, c: char, w: nat)
    requires doc != []
    ensures Extend(init + doc, c, w) == init + Extend(doc, c, w)
  {
    assert Init(init + doc) == init + Init(doc);
  }

  /** One more character extends the last row, or adds one. */
  lemma DocumentExtends(text: seq<char>, c: char, w: nat)
    requires w >= 1
    ensures Document(text, w) != [] && |Last(Document(text, w))| < w
    ensures Document(text + [c], w) == Extend(Document(text, w), c, w)
  {
    var lines := Lines(text);
    var init, last := Init(lines), Last(lines);
    assert lines == init + [last];
    WrapSnoc(init, last, w);
    LinesSnoc(text, c);
    ChunksSnoc(last, ' ', w);
    if c == '\n' {
      WrapSnoc(lines, [], w);
    } else {
      WrapSnoc(init, last + [c], w);
      ChunksSnoc(last, c, w);
      ExtendSuffix(Wrap(init, w), Chunks(last, w), c, w);
    }
  }

  lemma EmptyDocument(w: nat)
    requires w >= 1
    ensures Document([], w) == [[]]
  {
    var lines: seq<seq<char>> := [[]];
    assert Lines([]) == lines && lines[1..] == [];
    assert Chunks([], w) == [[]] && Wrap([], w) == [];
  }

  function Concat(rows: seq<seq<char>>): seq<char> {
    if rows == [] then [] else rows[0] + Concat(rows[1..])
  }

  lemma {:induction false} ConcatAppend(a: seq<seq<char>>, b: seq<seq<char>>)
    ensures Concat(a + b) == Concat(a) + Concat(b)
  {
    if a == [] {
      assert a + b == b;
    } else {
      assert (a + b)[1..] == a[1..] + b;
      ConcatAppend(a[1..], b);
    }
  }

  function WithoutNewlines(text: seq<char>): seq<char> {
    if text == [] then [] else (if text[0] == '\n' then [] else [text[0]]) + WithoutNewlines(text[1..])
  }

  lemma {:induction false} WithoutNewlinesSnoc(text: seq<char>, c: char)
    ensures WithoutNewlines(text + [c]) == WithoutNewlines(text) + (if c == '\n' then [] else [c])
  {
    if text == [] {
      assert [c][1..] == [] && text + [c] == [c];
    } else {
      assert (text + [c])[1..] == text[1..] + [c];
      WithoutNewlinesSnoc(text[1..], c);
    }
  }

  /** The document holds every character of the text once and in order. */
  lemma {:induction false} DocumentHoldsText(text: seq<char>, w: nat)
    requires w >= 1
    ensures Concat(Document(text, w)) == WithoutNewlines(text)
  {
    if text == [] {
      EmptyDocument(w);
      assert Document([], w)[1..] == [];
    } else {
      var init, c := Init(text), Last(text);
      assert text == init + [c];
      DocumentHoldsText(init, w);
      DocumentExtends(init, c, w);
      WithoutNewlinesSnoc(init, c);
      ConcatExtend(Document(init, w), c, w);
    }
  }

  lemma ConcatFew(x: seq<char>)
    ensures Concat([x]) == x && Concat([x, []]) == x && Concat([[]]) == []
  {
    var none: seq<char> := [];
    assert [x][1..] == [] && [x, none][1..] == [none] && [none][1..] == [];
    assert Concat([none]) == none + Concat([]);
  }

  lemma ConcatExtend(doc: seq<seq<char>>, c: char, w: nat)
    requires doc != []
    ensures Concat(Extend(doc, c, w)) == Concat(doc) + (if c == '\n' then [] else [c])
  {
    hide Concat;
    var init, last := Init(doc), Last(doc);
    assert doc == init + [last];
    ConcatAppend(init, [last]);
    ConcatFew(last);
    ConcatFew(last + [c]);
    if c == '\n' {
      ConcatAppend(doc, [[]]);
    } else {
      ConcatAppend(init, [last + [c]]);
      ConcatAppend(init, [last + [c], []]);
    }
  }

  // --- the screen shows the end of the document -----------------------------------------------

  /** What the document has at row `i` and column `c`: blank behind the end of a row, and below the last row. */
  function Want(doc: seq<seq<char>>, i: nat, c: nat): char {
    if i < |doc| && c < |doc[i]| then doc[i][c] else BLANK
  }

  /** How many rows have been scrolled off the top. */
  function Top(doc: seq<seq<char>>, height: nat): nat {
    if |doc| > height then |doc| - height else 0
  }

  /** Row r of the grid is row top + r of the document. */
  ghost predicate ShowsFrom(size: Size, cells: seq<char>, doc: seq<seq<char>>, top: nat) {
    && Grid(size, cells)
    && forall r: nat, c: nat :: r < size.height && c < size.width ==> Cell(size, cells, r, c) == Want(doc, top + r, c)
  }

  /** The grid shows the last rows of the document, and the cursor is at its end. */
  ghost predicate Shows(size: Size, s: Screen, doc: seq<seq<char>>) {
    && Safe(size, s) && doc != [] && |Last(doc)| < size.width
    && s.pos.column == |Last(doc)| && s.pos.row == |doc| - 1 - Top(doc, size.height)
    && ShowsFrom(size, s.cells, doc, Top(doc, size.height))
  }

  lemma ScrolledShows(size: Size, cells: seq<char>, doc: seq<seq<char>>, top: nat)
    requires ShowsFrom(size, cells, doc, top) && |doc| == top + size.height + 1 && Last(doc) == []
    ensures ShowsFrom(size, Scrolled(cells, size), doc, top + 1)
  {
    forall r: nat, c: nat | r < size.height && c < size.width
      ensures Cell(size, Scrolled(cells, size), r, c) == Want(doc, top + 1 + r, c)
    {
      CellScrolled(size, cells, r, c);
    }
  }

  lemma LineEnd(size: Size, pos: Pos)
    requires pos.column <= size.width
    ensures Index(size, pos) == CellIndex(size, pos.row, pos.column)
    ensures Index(size, pos) + size.width - pos.column == CellIndex(size, pos.row, size.width)
    ensures pos.row * size.width == CellIndex(size, pos.row, 0)
    ensures pos.row * size.width + pos.column == CellIndex(size, pos.row, pos.column)
    ensures pos.row * size.width + size.width == CellIndex(size, pos.row, size.width)
    ensures CellIndex(size, 0, 0) == 0
  {
  }

  lemma NewlineShows(size: Size, s: Screen, doc: seq<seq<char>>)
    requires Shows(size, s, doc)
    ensures ShowsFrom(size, Typed(size, s, '\n', true).cells, doc + [[]], Top(doc, size.height))
  {
    var top, i := Top(doc, size.height), Index(size, s.pos);
    var cells := Typed(size, s, '\n', true).cells;
    forall r: nat, c: nat | r < size.height && c < size.width
      ensures Cell(size, cells, r, c) == Want(doc + [[]], top + r, c)
    {
      LineEnd(size, s.pos);
      CellFilled(size, s.cells, s.pos.row, s.pos.column, s.pos.row, size.width, BLANK, r, c);
      assert Cell(size, s.cells, r, c) == Want(doc, top + r, c);
    }
  }

  lemma CharacterShows(size: Size, s: Screen, doc: seq<seq<char>>, x: char)
    requires Shows(size, s, doc) && x != '\n'
    ensures ShowsFrom(size, Typed(size, s, x, true).cells, Extend(doc, x, size.width), Top(doc, size.height))
  {
    var top, doc1 := Top(doc, size.height), Extend(doc, x, size.width);
    var cells := Typed(size, s, x, true).cells;
    forall r: nat, c: nat | r < size.height && c < size.width
      ensures Cell(size, cells, r, c) == Want(doc1, top + r, c)
    {
      CellWritten(size, s.cells, s.pos, x, r, c);
      assert Cell(size, s.cells, r, c) == Want(doc, top + r, c);
    }
  }

  lemma SettledShows(size: Size, s: Screen, doc: seq<seq<char>>, x: char)
    requires Shows(size, s, doc)
    requires ShowsFrom(size, Typed(size, s, x, true).cells, Extend(doc, x, size.width), Top(doc, size.height))
    ensures Shows(size, Printed(size, s, x, true), Extend(doc, x, size.width))
  {
    var top, t, doc1 := Top(doc, size.height), Typed(size, s, x, true), Extend(doc, x, size.width);
    if |doc1| == top + size.height + 1 {
      ScrolledShows(size, t.cells, doc1, top);
    }
  }

  lemma PrintShows(size: Size, s: Screen, doc: seq<seq<char>>, x: char)
    requires Shows(size, s, doc)
    ensures Shows(size, Printed(size, s, x, true), Extend(doc, x, size.width))
  {
    if x == '\n' {
      NewlineShows(size, s, doc);
    } else {
      CharacterShows(size, s, doc, x);
    }
    SettledShows(size, s, doc, x);
  }

  /** Characters are printed one after the other; `glyph` tells which of them can be drawn. */
  function PrintAll(size: Size, s: Screen, text: seq<char>, glyph: char -> bool): (r: Screen)
    requires Safe(size, s)
    ensures Safe(size, r)
  {
    if text == [] then s
    else
      var s1 := PrintAll(size, s, Init(text), glyph);
      PrintedSafe(size, s1, Last(text), glyph(Last(text)));
      Printed(size, s1, Last(text), glyph(Last(text)))
  }

  lemma PrintedSafe(size: Size, s: Screen, c: char, drawn: bool)
    requires Safe(size, s)
    ensures Safe(size, Printed(size, s, c, drawn))
  {
  }

  /** Newlines, and the characters that have a glyph. */
  function Drawn(text: seq<char>, glyph: char -> bool): seq<char> {
    if text == [] then []
    else
      var c := Last(text);
      Drawn(Init(text), glyph) + (if c == '\n' || glyph(c) then [c] else [])
  }

  lemma {:induction false} PrintAllShows(size: Size, s: Screen, text: seq<char>, glyph: char -> bool)
    requires size.width >= 1 && Shows(size, s, Document([], size.width))
    ensures Shows(size, PrintAll(size, s, text, glyph), Document(Drawn(text, glyph), size.width))
  {
    if text != [] {
      var init, c := Init(text), Last(text);
      PrintAllShows(size, s, init, glyph);
      var s1, doc := PrintAll(size, s, init, glyph), Document(Drawn(init, glyph), size.width);
      if c == '\n' || glyph(c) {
        hide Shows, Printed, Document, Extend;
        DocumentExtends(Drawn(init, glyph), c, size.width);
        PrintShows(size, s1, doc, c);
        DrawnAlike(size, s1, c, glyph(c));
      } else {
        assert Printed(size, s1, c, false) == s1;
        assert Drawn(init, glyph) + [] == Drawn(init, glyph);
      }
    }
  }

  lemma DrawnAlike(size: Size, s: Screen, c: char, drawn: bool)
    requires Safe(size, s) && (c == '\n' || drawn)
    ensures Printed(size, s, c, drawn) == Printed(size, s, c, true)
  {
  }

  /** Whatever is printed on a cleared screen, and however often it scrolls, the screen shows the
      last rows of the unbounded document. */
  lemma ScreenShowsDocument(size: Size, s: Screen, text: seq<char>, glyph: char -> bool)
    requires Safe(size, s)
    ensures Safe(size, Cleared(size, s))
    ensures Shows(size, PrintAll(size, Cleared(size, s), text, glyph), Document(Drawn(text, glyph), size.width))
  {
    ClearedShows(size, s);
    PrintAllShows(size, Cleared(size, s), text, glyph);
  }

  lemma ClearedShows(size: Size, s: Screen)
    requires Safe(size, s)
    ensures Shows(size, Cleared(size, s), Document([], size.width))
  {
    EmptyDocument(size.width);
    var cells := Cleared(size, s).cells;
    assert forall i :: 0 <= i < |cells| ==> cells[i] == BLANK;
    BlankShows(size, cells);
  }

  lemma BlankShows(size: Size, cells: seq<char>)
    requires Grid(size, cells) && forall i :: 0 <= i < |cells| ==> cells[i] == BLANK
    ensures ShowsFrom(size, cells, [[]], 0)
  {
    forall r: nat, c: nat | r < size.height && c < size.width
      ensures Cell(size, cells, r, c) == BLANK
    {
      CellInGrid(size, r, c);
    }
  }

  // --- the cursor -----------------------------------------------------------------------------

  /** The cell is within the part of the grid that an erase sequence is for. */
  predicate IsErased(code: nat, p: nat, pos: Pos, r: nat, c: nat) {
    match (code, p)
    case (0x4a, 0) => !Before(r, c, pos.row, pos.column)
    case (0x4a, 1) => Before(r, c, pos.row, pos.column)
    case (0x4a, 2) => true
    case (0x4b, 0) => r == pos.row && c >= pos.column
    case (0x4b, 1) => r == pos.row && c < pos.column
    case (0x4b, 2) => r == pos.row
    case _ => false
  }

  ghost predicate ErasesAt(size: Size, s: Screen, code: nat, p: U16, r: nat, c: nat)
    requires Safe(size, s) && r < size.height && c < size.width
  {
    var cells := Erased(size, s, code, [p]).cells;
    && |cells| == |s.cells|
    && Cell(size, cells, r, c)
       == if !IsErased(code, p, s.pos, r, c) then Cell(size, s.cells, r, c)
          else if (code, p) == (0x4b, 2) then 'a' else BLANK
  }

  lemma EraseScreen(size: Size, s: Screen, p: U16, r: nat, c: nat)
    requires Safe(size, s) && r < size.height && c < size.width
    ensures ErasesAt(size, s, 0x4a, p, r, c)
  {
    var row, col, w := s.pos.row, s.pos.column, size.width;
    assert Grid(size, s.cells);
    LineEnd(size, s.pos);
    hide Cell, Fill, Before, Fits, BufferLength, Grid, CellIndex, Index;
    match p
    case 0 => FilledToEnd(size, s.cells, row, col, r, c);
    case 1 =>
      NothingBefore(r, c);
      CellFilled(size, s.cells, 0, 0, row, col, BLANK, r, c);
    case 2 =>
      NothingBefore(r, c);
      FilledToEnd(size, s.cells, 0, 0, r, c);
    case _ =>
  }

  lemma EraseLine(size: Size, s: Screen, p: U16, r: nat, c: nat)
    requires Safe(size, s) && r < size.height && c < size.width
    ensures ErasesAt(size, s, 0x4b, p, r, c)
  {
    var row, col, w := s.pos.row, s.pos.column, size.width;
    assert Grid(size, s.cells);
    LineEnd(size, s.pos);
    hide Cell, Fill, Before, Fits, BufferLength, Grid, CellIndex, Index;
    match p
    case 0 =>
      WithinRow(row, col, w, r, c);
      CellFilled(size, s.cells, row, col, row, w, BLANK, r, c);
    case 1 =>
      WithinRow(row, 0, col, r, c);
      CellFilled(size, s.cells, row, 0, row, col, BLANK, r, c);
    case 2 =>
      WithinRow(row, 0, w, r, c);
      CellFilled(size, s.cells, row, 0, row, w, 'a', r, c);
    case _ =>
  }

  lemma WithinRow(row: nat, from: nat, to: nat, r: nat, c: nat)
    requires from <= to
    ensures !Before(r, c, row, from) && Before(r, c, row, to) <==> r == row && from <= c < to
  {
  }

  /** An erase sequence clears its part of the grid and nothing else; only that for a whole line
      leaves the letter a. */
  lemma EraseClears(size: Size, s: Screen, code: nat, p: U16)
    requires Safe(size, s)
    ensures forall r: nat, c: nat :: r < size.height && c < size.width ==> ErasesAt(size, s, code, p, r, c)
  {
    forall r: nat, c: nat | r < size.height && c < size.width
      ensures ErasesAt(size, s, code, p, r, c)
    {
      if code == 0x4a {
        EraseScreen(size, s, p, r, c);
      } else if code == 0x4b {
        EraseLine(size, s, p, r, c);
      }
    }
  }

  lemma NothingBefore(r: nat, c: nat)
    ensures !Before(r, c, 0, 0)
  {
  }

  /** A tab goes to the next tab stop if there are more than eight columns left, and to the next
      line otherwise. */
  lemma TabGoesToNextStop(size: Size, s: Screen)
    requires Safe(size, s)
    ensures Safe(size, Tabbed(size, s))
    ensures var to := Tabbed(size, s).pos;
      if s.pos.column + TAB_SPACES < size.width
      then to.row == s.pos.row && to.column % TAB_SPACES == 0 && s.pos.column < to.column <= s.pos.column + TAB_SPACES
      else to.column == 0 && to.row == Min(s.pos.row + 1, size.height - 1)
  {
    hide BufferLength, ScrolledBy, Fits;
    NextStop(s.pos.column);
    TabTo(size, s);
    hide *;
  }

  /** The row has a tab stop behind the cursor, and the tab goes neither to it nor to one before. */
  ghost predicate SkipsStop(size: Size, s: Screen, stop: nat)
    requires Safe(size, s)
  {
    var to := Tabbed(size, s).pos;
    && stop % TAB_SPACES == 0 && s.pos.column < stop < size.width
    && !(to.row == s.pos.row && s.pos.column < to.column <= stop)
  }

  lemma SkipsOnlyIf(size: Size, s: Screen, stop: nat)
    requires Safe(size, s) && SkipsStop(size, s, stop)
    ensures size.width % TAB_SPACES != 0 && size.width > TAB_SPACES
  {
    TabGoesToNextStop(size, s);
    hide Tabbed;
    if s.pos.column + TAB_SPACES < size.width {
      StopsApart(stop, Tabbed(size, s).pos.column);
    } else if size.width % TAB_SPACES == 0 {
      StopsApart(stop, size.width);
    }
  }

  lemma LastStop(width: nat) returns (stop: nat)
    requires width % TAB_SPACES != 0 && width > TAB_SPACES
    ensures stop % TAB_SPACES == 0 && TAB_SPACES <= stop < width <= stop - 1 + TAB_SPACES
  {
    stop := width / TAB_SPACES * TAB_SPACES;
  }

  /** Some tab stop is skipped, from a column before it, exactly if the width is no multiple of
      eight, and more than eight. */
  lemma TabSkipsStopExactlyWhen(size: Size)
    requires Fits(size)
    ensures (exists s, stop :: Safe(size, s) && SkipsStop(size, s, stop))
       <==> size.width % TAB_SPACES != 0 && size.width > TAB_SPACES
  {
    hide SkipsStop, BufferLength, Tabbed;
    if s, stop :| Safe(size, s) && SkipsStop(size, s, stop) {
      SkipsOnlyIf(size, s, stop);
    } else if size.width % TAB_SPACES != 0 && size.width > TAB_SPACES {
      var stop := LastStop(size.width);
      LastStopSkipped(size, stop);
    }
  }

  lemma LastStopSkipped(size: Size, stop: nat)
    requires Fits(size) && stop % TAB_SPACES == 0 && TAB_SPACES <= stop < size.width <= stop - 1 + TAB_SPACES
    ensures exists s :: Safe(size, s) && SkipsStop(size, s, stop)
  {
    hide BufferLength;
    var s := Screen(seq(BufferLength(size), _ => BLANK), Pos(stop - 1, 0), Origin);
    TabGoesToNextStop(size, s);
    hide Tabbed;
    assert SkipsStop(size, s, stop);
  }

  lemma TabTo(size: Size, s: Screen)
    requires Safe(size, s)
    ensures Safe(size, Tabbed(size, s))
    ensures var to := Tabbed(size, s).pos;
      if s.pos.column + TAB_SPACES < size.width
      then to.row == s.pos.row && to.column == (s.pos.column + TAB_SPACES) / TAB_SPACES * TAB_SPACES
      else to.column == 0 && to.row == Min(s.pos.row + 1, size.height - 1)
  {
    hide BufferLength, ScrolledBy;
  }

  lemma StopsApart(a: nat, b: nat)
    requires a % TAB_SPACES == 0 && b % TAB_SPACES == 0
    ensures a < b ==> a + TAB_SPACES <= b
  {
  }

  lemma NextStop(column: nat)
    ensures var stop := (column + TAB_SPACES) / TAB_SPACES * TAB_SPACES;
      stop % TAB_SPACES == 0 && column < stop <= column + TAB_SPACES
  {
  }

  function Clamp(x: int, n: U16): U16
    requires n >= 1
  {
    if x < 0 then 0 else if x < n then x else n - 1
  }

  function Max(a: nat, b: nat): nat {
    if a < b then b else a
  }

  /** A coordinate of the position sequence, which may lie one behind the border. */
  function AtMost(x: U16, n: U16): U16
    requires n >= 1
  {
    if x <= n then x else n - 1
  }

  /** The moves as they are meant: on unbounded numbers, and clamped to the grid afterwards. A
      distance of zero means one. */
  function Clamped(size: Size, code: nat, params: seq<U16>, pos: Pos, saved: Pos): Move
    requires Fits(size)
  {
    match code
    case 0x73 => Save
    case 0x75 => Goto(saved)
    case _ =>
      if code == 0x48 || code == 0x66 then
        Goto(if |params| < 2 then Pos(0, 0) else Pos(AtMost(params[0], size.width), AtMost(params[1], size.height)))
      else if params == [] then Stay
      else
        var p := params[0];
        match code
        case 0x41 => Goto(pos.(row := Clamp(pos.row - Max(p, 1), size.height)))
        case 0x42 => Goto(pos.(row := Clamp(pos.row + Max(p, 1), size.height)))
        case 0x43 => Goto(pos.(column := Clamp(pos.column + Max(p, 1), size.width)))
        case 0x44 => Goto(pos.(column := Clamp(pos.column - Max(p, 1), size.width)))
        case 0x45 => Goto(Pos(0, Clamp(pos.row + p + 1, size.height)))
        case 0x46 => Goto(Pos(0, Clamp(pos.row - p - 1, size.height)))
        case 0x47 => Goto(pos.(column := Clamp(p, size.width)))
        case _ => Stay
  }

  /** The move neither leaves the grid at its top or left nor overflows 16 bits. */
  predicate MoveFits(code: nat, params: seq<U16>, pos: Pos) {
    params == [] ||
    match code
    case 0x41 => Max(params[0], 1) <= pos.row
    case 0x42 => pos.row + Max(params[0], 1) <= 0xffff
    case 0x43 => pos.column + Max(params[0], 1) <= 0xffff
    case 0x44 => Max(params[0], 1) <= pos.column
    case 0x45 => pos.row + params[0] + 1 <= 0xffff
    case 0x46 => params[0] + 1 <= pos.row
    case _ => true
  }

  /** The code subtracts before it clamps. It does what is meant if the move fits, and stops the
      kernel otherwise. */
  lemma AskedIsClampedExactlyWhen(size: Size, code: nat, params: seq<U16>, pos: Pos, saved: Pos)
    requires Fits(size) && Inside(size, pos)
    ensures Asked(size, code, params, pos, saved)
      == if MoveFits(code, params, pos) then Clamped(size, code, params, pos, saved) else Panic
  {
  }

  datatype Event =
    | Print(c: char, drawn: bool)
    | Tab
    | Cursor(code: nat, params: seq<U16>)
    | Erase(code: nat, params: seq<U16>)
    | Clear

  /** One event as the code handles it, or `None` if the kernel stops. */
  function Apply(size: Size, s: Screen, e: Event): Option<Screen>
    requires Safe(size, s)
  {
    match e
    case Print(c, drawn) => Some(Printed(size, s, c, drawn))
    case Tab => Some(Tabbed(size, s))
    case Cursor(code, params) => Moved(size, s, Asked(size, code, params, s.pos, s.saved))
    case Erase(code, params) => Some(Erased(size, s, code, params))
    case Clear => Some(Cleared(size, s))
  }

  /** One event with clamped cursor moves. */
  function ApplyClamped(size: Size, s: Screen, e: Event): (r: Screen)
    requires Safe(size, s)
    ensures Safe(size, r)
  {
    match e
    case Cursor(code, params) =>
      ClampedSafe(size, s, code, params);
      Moved(size, s, Clamped(size, code, params, s.pos, s.saved)).value
    case Print(c, drawn) => PrintedSafe(size, s, c, drawn); Apply(size, s, e).value
    case _ => Apply(size, s, e).value
  }

  lemma ClampedSafe(size: Size, s: Screen, code: nat, params: seq<U16>)
    requires Safe(size, s)
    ensures Moved(size, s, Clamped(size, code, params, s.pos, s.saved)).Some?
    ensures Safe(size, Moved(size, s, Clamped(size, code, params, s.pos, s.saved)).value)
  {
  }

  function Run(size: Size, s: Screen, events: seq<Event>): (r: Option<Screen>)
    requires Safe(size, s)
    decreases |events|
  {
    if events == [] then Some(s)
    else
      var next := Apply(size, s, events[0]);
      if next.None? then None
      else
        AppliesExactlyWhen(size, s, events[0]);
        Run(size, next.value, events[1..])
  }

  /** Cursor safety: with clamped moves, every run keeps the cursor inside of the grid. */
  function RunClamped(size: Size, s: Screen, events: seq<Event>): (r: Screen)
    requires Safe(size, s)
    ensures Safe(size, r)
    decreases |events|
  {
    if events == [] then s else RunClamped(size, ApplyClamped(size, s, events[0]), events[1..])
  }

  predicate EventFits(s: Screen, e: Event) {
    e.Cursor? ==> MoveFits(e.code, e.params, s.pos)
  }

  predicate RunFits(size: Size, s: Screen, events: seq<Event>)
    requires Safe(size, s)
    decreases |events|
  {
    events == [] || (EventFits(s, events[0]) && RunFits(size, ApplyClamped(size, s, events[0]), events[1..]))
  }

  lemma AppliesExactlyWhen(size: Size, s: Screen, e: Event)
    requires Safe(size, s)
    ensures Apply(size, s, e) == if EventFits(s, e) then Some(ApplyClamped(size, s, e)) else None
  {
    if e.Cursor? {
      AskedIsClampedExactlyWhen(size, e.code, e.params, s.pos, s.saved);
      ClampedSafe(size, s, e.code, e.params);
    }
  }

  /** A run of the code as written goes through if and only if every move in it fits, and then it
      is the run with clamped moves, which is safe. */
  lemma {:induction false} RunsExactlyWhen(size: Size, s: Screen, events: seq<Event>)
    requires Safe(size, s)
    ensures Run(size, s, events) == if RunFits(size, s, events) then Some(RunClamped(size, s, events)) else None
    decreases |events|
  {
    if events != [] {
      AppliesExactlyWhen(size, s, events[0]);
      if EventFits(s, events[0]) {
        RunsExactlyWhen(size, ApplyClamped(size, s, events[0]), events[1..]);
      }
    }
  }

  /** One line up from the origin is enough to stop the kernel. */
  lemma CursorUpStops(size: Size, s: Screen)
    requires Safe(size, s)
    ensures Safe(size, Cleared(size, s)) && Run(size, Cleared(size, s), [Cursor(0x41, [1])]) == None
  {
    hide Fill, BufferLength;
    assert Cleared(size, s).pos == Origin;
  }

  const SaveCursor := Cursor(0x73, [])
  const RestoreCursor := Cursor(0x75, [])

  lemma {:induction false} SavedStays(size: Size, s: Screen, events: seq<Event>)
    requires Safe(size, s)
    requires forall i :: 0 <= i < |events| && events[i].Cursor? ==> events[i].code != 0x73
    ensures RunClamped(size, s, events).saved == s.saved
    decreases |events|
  {
    if events != [] {
      SavedStays(size, ApplyClamped(size, s, events[0]), events[1..]);
    }
  }

  /** Restoring goes back to where the cursor was saved, whatever has been printed, moved or
      scrolled in between, and scrolls nothing itself. */
  lemma RestoreReturns(size: Size, s: Screen, events: seq<Event>)
    requires Safe(size, s)
    requires forall i :: 0 <= i < |events| && events[i].Cursor? ==> events[i].code != 0x73
    ensures var s1 := RunClamped(size, ApplyClamped(size, s, SaveCursor), events);
      ApplyClamped(size, s1, RestoreCursor) == s1.(pos := s.pos)
  {
    SavedStays(size, ApplyClamped(size, s, SaveCursor), events);
  }
}
