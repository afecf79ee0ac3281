/** A scrolling textbox: text is written into a fixed block of cells that scrolls up when the
    cursor leaves its last row.
    Source: common/gui.cpp (`textbox_t::write`, `text_panel::scroll_render_buffer`,
    `text_panel::clear_no_commit`). */
module Textbox {
  import Grid

  import opened Screen

  /** A byte of a C string, which ends before its first NUL. */
  type byte = x: int | 1 <= x < 256 witness 32

  const NEWLINE: byte := 10
  const RETURN: byte := 13
  const BACKSPACE: byte := 8
  /** The formatting buffer holds 1024 bytes with the terminator. */
  const MAX_MESSAGE: nat := 1023

  /** The horizontal bar of the IBM PC character set becomes a minus sign; other bytes outside
      32..127 become blanks. The program is compiled with `-funsigned-char`. */
  function Printable(b: byte): Glyph {
    if b == 196 then 45
    else if b < 32 || b > 127 then BLANK
    else b
  }

  predicate BreaksLine(b: byte) {
    b == NEWLINE || b == RETURN
  }

  // ---------- the unbounded page ----------

  /** One byte written, and the colour in force. */
  datatype Event = Event(b: byte, colour: Colour)

  datatype Position = Position(row: nat, column: nat)

  /** Where the cursor is after some text, with room for one column of pending wrap. A backspace
      moves it to the cell before, if there is one on the page. */
  function Cursor(events: seq<Event>, columns: nat): (p: Position)
    requires columns > 0
    ensures p.column <= columns
  {
    if events == [] then Position(0, 0)
    else
      var n := |events| - 1;
      var p := Cursor(events[..n], columns);
      if BreaksLine(events[n].b) then Position(p.row + 1, 0)
      else if events[n].b == BACKSPACE then
        if p.column > 0 then Position(p.row, p.column - 1)
        else if p.row > 0 then Position(p.row - 1, columns - 1)
        else p
      else if p.column < columns then Position(p.row, p.column + 1)
      else Position(p.row + 1, 1)
  }

  /** The last row the cursor has reached. */
  function Deepest(events: seq<Event>, columns: nat): (d: nat)
    requires columns > 0
    ensures d >= Cursor(events, columns).row
  {
    if events == [] then 0
    else
      var before, row := Deepest(events[..|events| - 1], columns), Cursor(events, columns).row;
      if row > before then row else before
  }

  predicate IsGlyph(b: byte) {
    !BreaksLine(b) && b != BACKSPACE
  }

  /** Where the next glyph goes. */
  function Spot(events: seq<Event>, columns: nat): (p: Position)
    requires columns > 0
    ensures p.column < columns
  {
    var p := Cursor(events, columns);
    if p.column < columns then p else Position(p.row + 1, 0)
  }

  /** The content of the page: at every spot the last glyph written there, everything else blank,
      in the colour of the cleared box or of the byte that opened the row. */
  function PageCell(events: seq<Event>, rows: nat, columns: nat, cleared: Colour, at: Position): Cell
    requires columns > 0
  {
    if events == [] then Cell(BLANK, cleared)
    else
      var n := |events| - 1;
      var before := events[..n];
      var e := events[n];
      if IsGlyph(e.b) && Spot(before, columns) == at then Cell(Printable(e.b), e.colour)
      else if rows <= at.row && Deepest(before, columns) < at.row <= Deepest(events, columns) then Cell(BLANK, e.colour)
      else PageCell(before, rows, columns, cleared, at)
  }

  ghost predicate Precedes(p: Position, q: Position) {
    p.row < q.row || (p.row == q.row && p.column < q.column)
  }

  predicate NoBackspace(events: seq<Event>) {
    forall i :: 0 <= i < |events| ==> events[i].b != BACKSPACE
  }

  lemma SpotNotDeeper(events: seq<Event>, columns: nat)
    requires columns > 0 && events != [] && IsGlyph(events[|events| - 1].b)
    ensures Spot(events[..|events| - 1], columns).row <= Deepest(events, columns)
  {
  }

  lemma {:induction false} DeepestGrows(events: seq<Event>, columns: nat, i: nat)
    requires columns > 0 && i <= |events|
    ensures Deepest(events[..i], columns) <= Deepest(events, columns)
  {
    if i < |events| {
      var n := |events| - 1;
      assert events[..n][..i] == events[..i];
      DeepestGrows(events[..n], columns, i);
    } else {
      assert events[..i] == events;
    }
  }

  /** Nothing writes to the spot of glyph `i` after it. */
  ghost predicate LastAtSpot(events: seq<Event>, columns: nat, i: nat)
    requires columns > 0 && i < |events|
  {
    forall k :: i < k < |events| && IsGlyph(events[k].b) ==> Spot(events[..k], columns) != Spot(events[..i], columns)
  }

  /** A glyph stays on the page until another one is written to its spot. */
  lemma {:induction false} GlyphsStay(events: seq<Event>, rows: nat, columns: nat, cleared: Colour, i: nat)
    requires columns > 0 && i < |events| && IsGlyph(events[i].b) && LastAtSpot(events, columns, i)
    ensures PageCell(events, rows, columns, cleared, Spot(events[..i], columns)) == Cell(Printable(events[i].b), events[i].colour)
  {
    var n := |events| - 1;
    if i < n {
      var before := events[..n];
      LastAtSpotBefore(events, columns, i);
      GlyphsStay(before, rows, columns, cleared, i);
      SpotIsReached(before, columns, i);
      assert before[..i] == events[..i];
    }
  }

  lemma LastAtSpotBefore(events: seq<Event>, columns: nat, i: nat)
    requires columns > 0 && i < |events| - 1 && LastAtSpot(events, columns, i)
    ensures LastAtSpot(events[..|events| - 1], columns, i)
  {
    var before := events[..|events| - 1];
    assert forall k :: 0 <= k < |before| ==> before[..k] == events[..k] && before[k] == events[k];
  }

  lemma SpotIsReached(events: seq<Event>, columns: nat, i: nat)
    requires columns > 0 && i < |events| && IsGlyph(events[i].b)
    ensures Spot(events[..i], columns).row <= Deepest(events, columns)
  {
    assert events[..i + 1][..i] == events[..i];
    SpotNotDeeper(events[..i + 1], columns);
    DeepestGrows(events, columns, i + 1);
  }

  /** Without backspaces the cursor never moves back: earlier glyphs lie strictly before it. */
  lemma {:induction false} SpotsPrecedeCursor(events: seq<Event>, columns: nat, i: nat)
    requires columns > 0 && i < |events| && IsGlyph(events[i].b) && NoBackspace(events)
    ensures Precedes(Spot(events[..i], columns), Cursor(events, columns))
    ensures Precedes(Spot(events[..i], columns), Spot(events, columns))
  {
    var n := |events| - 1;
    if i < n {
      assert events[..n][..i] == events[..i];
      SpotsPrecedeCursor(events[..n], columns, i);
    }
  }

  /** So without backspaces nothing is ever overwritten. */
  lemma NothingOverwritten(events: seq<Event>, columns: nat, i: nat)
    requires columns > 0 && i < |events| && IsGlyph(events[i].b) && NoBackspace(events)
    ensures LastAtSpot(events, columns, i)
  {
    forall k | i < k < |events| ensures Spot(events[..k], columns) != Spot(events[..i], columns) {
      assert events[..k][..i] == events[..i];
      SpotsPrecedeCursor(events[..k], columns, i);
    }
  }

  /** The byte that makes the text reach a row of the page for the first time. */
  predicate Opens(events: seq<Event>, columns: nat, i: nat, row: nat)
    requires columns > 0 && i < |events|
  {
    Deepest(events[..i], columns) < row <= Deepest(events[..i + 1], columns)
  }

  ghost predicate NoGlyphAt(events: seq<Event>, columns: nat, at: Position)
    requires columns > 0
  {
    forall i :: 0 <= i < |events| && IsGlyph(events[i].b) ==> Spot(events[..i], columns) != at
  }

  lemma NoGlyphBefore(events: seq<Event>, columns: nat, at: Position)
    requires columns > 0 && events != [] && NoGlyphAt(events, columns, at)
    ensures NoGlyphAt(events[..|events| - 1], columns, at)
  {
    var n := |events| - 1;
    assert forall i :: 0 <= i < n ==> events[..n][..i] == events[..i] && events[..n][i] == events[i];
  }

  /** And nothing else is on it: a cell that is no glyph's spot is a blank. Rows of the cleared box, and
      rows not reached yet, have its colour. */
  lemma {:induction false} OnlyGlyphs(events: seq<Event>, rows: nat, columns: nat, cleared: Colour, at: Position)
    requires columns > 0 && NoGlyphAt(events, columns, at)
    ensures PageCell(events, rows, columns, cleared, at).character == 32
    ensures at.row < rows || Deepest(events, columns) < at.row ==> PageCell(events, rows, columns, cleared, at) == Cell(32, cleared)
  {
    if events != [] {
      NoGlyphBefore(events, columns, at);
      OnlyGlyphs(events[..|events| - 1], rows, columns, cleared, at);
    }
  }

  /** A row below the cleared box has the colour of the byte that made the text reach it. */
  lemma {:induction false} OpenedColour(events: seq<Event>, rows: nat, columns: nat, cleared: Colour, at: Position, i: nat)
    requires columns > 0 && NoGlyphAt(events, columns, at) && rows <= at.row && i < |events|
    requires Deepest(events[..i], columns) < at.row <= Deepest(events[..i + 1], columns)
    ensures PageCell(events, rows, columns, cleared, at) == Cell(32, events[i].colour)
  {
    var n := |events| - 1;
    if i < n {
      var before := events[..n];
      NoGlyphBefore(events, columns, at);
      assert before[..i] == events[..i] && before[..i + 1] == events[..i + 1];
      OpenedColour(before, rows, columns, cleared, at, i);
      DeepestGrows(before, columns, i + 1);
    } else {
      assert events[..i + 1] == events;
    }
    LastByteOnRow(events, rows, columns, cleared, at);
  }

  /** What the last byte does to a cell that is no glyph's spot. */
  lemma LastByteOnRow(events: seq<Event>, rows: nat, columns: nat, cleared: Colour, at: Position)
    requires columns > 0 && NoGlyphAt(events, columns, at) && rows <= at.row && events != []
    ensures var before := events[..|events| - 1];
            PageCell(events, rows, columns, cleared, at)
            == if Deepest(before, columns) < at.row <= Deepest(events, columns) then Cell(32, events[|events| - 1].colour)
               else PageCell(before, rows, columns, cleared, at)
  {
  }

  // ---------- where the text goes, in numbers ----------

  /** What is shown of a byte. */
  lemma ShownByte(b: byte)
    ensures 32 <= b <= 127 ==> Printable(b) == b
    ensures b == 196 ==> Printable(b) == 45
    ensures !(32 <= b <= 127) && b != 196 ==> Printable(b) == 32
    ensures IsGlyph(b) <==> b != 8 && b != 10 && b != 13
  {
  }

  /** How each byte moves the cursor. */
  lemma CursorMoves(events: seq<Event>, columns: nat, e: Event)
    requires columns > 0
    ensures var p, q := Cursor(events, columns), Cursor(events + [e], columns);
            && (e.b == 10 || e.b == 13 ==> q == Position(p.row + 1, 0))
            && (e.b == 8 && p.column > 0 ==> q == Position(p.row, p.column - 1))
            && (e.b == 8 && p.column == 0 && p.row > 0 ==> q == Position(p.row - 1, columns - 1))
            && (e.b == 8 && p == Position(0, 0) ==> q == p)
  {
    assert (events + [e])[..|events|] == events;
  }

  /** A line of glyphs wraps every `columns` cells: its glyph number k goes into column k modulo
      `columns` of the row k divided by `columns` below the one it starts in. */
  lemma {:induction false} LineWraps(before: seq<Event>, line: seq<Event>, columns: nat)
    requires columns > 0 && Cursor(before, columns).column == 0
    requires forall i :: 0 <= i < |line| ==> IsGlyph(line[i].b)
    ensures var p, q, s := Cursor(before, columns), Cursor(before + line, columns), Spot(before + line, columns);
            && (q.row - p.row) * columns + q.column == |line|
            && s.row == p.row + |line| / columns && s.column == |line| % columns
  {
    var p := Cursor(before, columns);
    if line == [] {
      assert before + line == before;
    } else {
      var n := |line| - 1;
      LineWraps(before, line[..n], columns);
      assert (before + line)[..|before| + n] == before + line[..n];
      OneMoreColumn(Cursor(before + line[..n], columns).row - p.row, Cursor(before + line[..n], columns).column, columns, n);
    }
    SpotOfCursor(Cursor(before + line, columns).row - p.row, Cursor(before + line, columns).column, columns, |line|);
  }

  lemma OneMoreColumn(row: int, column: nat, columns: nat, n: nat)
    requires row * columns + column == n
    ensures row * columns + (column + 1) == n + 1
    ensures column == columns ==> (row + 1) * columns + 1 == n + 1
  {
  }

  lemma SpotOfCursor(row: int, column: nat, columns: nat, n: nat)
    requires 0 < columns && column <= columns && row * columns + column == n
    ensures column < columns ==> row == n / columns && column == n % columns
    ensures column == columns ==> row + 1 == n / columns && 0 == n % columns
  {
    Grid.OffsetSplits(n, columns);
    if column < columns {
      Grid.PositionUnique(row, column, n / columns, n % columns, columns);
    } else {
      assert (row + 1) * columns == row * columns + columns;
      Grid.PositionUnique(row + 1, 0, n / columns, n % columns, columns);
    }
  }

  // ---------- the box ----------

  /** The state of the box: its cells row by row, and its cursor. */
  datatype Box = Box(cells: seq<Cell>, row: nat, column: nat)

  function Blanks(n: nat, colour: Colour): (s: seq<Cell>)
    ensures |s| == n && forall k :: 0 <= k < n ==> s[k] == Cell(32, colour)
  {
    seq(n, _ => Cell(BLANK, colour))
  }

  predicate WellFormed(s: Box, rows: nat, columns: nat) {
    rows > 0 && columns > 0 && |s.cells| == rows * columns && s.row < rows && s.column <= columns
  }

  function Scrolled(cells: seq<Cell>, columns: nat, n: nat, colour: Colour): (s: seq<Cell>)
    ensures |s| == |cells|
  {
    var gone := if n * columns <= |cells| then n * columns else |cells|;
    cells[gone..] + Blanks(gone, colour)
  }

  function Cleared(rows: nat, columns: nat, colour: Colour): (s: Box)
    requires rows > 0 && columns > 0
    ensures WellFormed(s, rows, columns)
  {
    Box(Blanks(rows * columns, colour), 0, 0)
  }

  function NextRow(s: Box, rows: nat, columns: nat, colour: Colour): (t: Box)
    requires WellFormed(s, rows, columns)
    ensures WellFormed(t, rows, columns) && t.column == 0
  {
    if s.row + 1 >= rows then Box(Scrolled(s.cells, columns, 1, colour), rows - 1, 0)
    else Box(s.cells, s.row + 1, 0)
  }

  function PutGlyph(s: Box, rows: nat, columns: nat, g: Glyph, colour: Colour): (t: Box)
    requires WellFormed(s, rows, columns) && s.column < columns
    ensures WellFormed(t, rows, columns)
  {
    Grid.OffsetInside(rows, columns, s.row, s.column);
    Box(s.cells[s.row * columns + s.column := Cell(g, colour)], s.row, s.column + 1)
  }

  function Backspaced(s: Box, rows: nat, columns: nat): (t: Box)
    requires WellFormed(s, rows, columns)
    ensures WellFormed(t, rows, columns)
  {
    if s.column > 0 then s.(column := s.column - 1)
    else if s.row > 0 then s.(row := s.row - 1, column := columns - 1)
    else s
  }

  function PutByte(s: Box, rows: nat, columns: nat, e: Event): (t: Box)
    requires WellFormed(s, rows, columns)
    ensures WellFormed(t, rows, columns)
  {
    if BreaksLine(e.b) then NextRow(s, rows, columns, e.colour)
    else if e.b == BACKSPACE then Backspaced(s, rows, columns)
    else PutGlyph(if s.column < columns then s else NextRow(s, rows, columns, e.colour), rows, columns, Printable(e.b), e.colour)
  }

  function Typed(s: Box, rows: nat, columns: nat, events: seq<Event>): (t: Box)
    requires WellFormed(s, rows, columns)
    ensures WellFormed(t, rows, columns)
  {
    if events == [] then s
    else PutByte(Typed(s, rows, columns, events[..|events| - 1]), rows, columns, events[|events| - 1])
  }

  lemma {:induction false} TypedAppend(s: Box, rows: nat, columns: nat, a: seq<Event>, b: seq<Event>)
    requires WellFormed(s, rows, columns)
    ensures Typed(s, rows, columns, a + b) == Typed(Typed(s, rows, columns, a), rows, columns, b)
  {
    if b == [] {
      assert a + b == a;
    } else {
      var n := |b| - 1;
      assert (a + b)[..|a| + n] == a + b[..n];
      TypedAppend(s, rows, columns, a, b[..n]);
    }
  }

  // ---------- the box shows the end of the page ----------

  /** The page row shown in the first row of the box. */
  function Top(events: seq<Event>, rows: nat, columns: nat): nat
    requires columns > 0
  {
    var last := Deepest(events, columns);
    if last < rows then 0 else last + 1 - rows
  }

  ghost predicate ShowsAt(s: Box, rows: nat, columns: nat, events: seq<Event>, cleared: Colour, row: nat, column: nat)
    requires WellFormed(s, rows, columns) && row < rows && column < columns
  {
    Grid.OffsetInside(rows, columns, row, column);
    s.cells[row * columns + column] == PageCell(events, rows, columns, cleared, Position(Top(events, rows, columns) + row, column))
  }

  ghost predicate ShowsPage(s: Box, rows: nat, columns: nat, events: seq<Event>, cleared: Colour)
    requires WellFormed(s, rows, columns)
  {
    && Top(events, rows, columns) + s.row == Cursor(events, columns).row
    && s.column == Cursor(events, columns).column
    && forall row: nat, column: nat :: row < rows && column < columns ==> ShowsAt(s, rows, columns, events, cleared, row, column)
  }

  /** Moving to the next row, scrolling if there is none, is what a line break does. */
  lemma BreakShows(s: Box, rows: nat, columns: nat, events: seq<Event>, cleared: Colour, e: Event)
    requires WellFormed(s, rows, columns) && ShowsPage(s, rows, columns, events, cleared) && BreaksLine(e.b)
    ensures ShowsPage(NextRow(s, rows, columns, e.colour), rows, columns, events + [e], cleared)
  {
    var t := NextRow(s, rows, columns, e.colour);
    var longer := events + [e];
    assert longer[..|events|] == events;
    forall row: nat, column: nat | row < rows && column < columns
      ensures ShowsAt(t, rows, columns, longer, cleared, row, column)
    {
      if s.row + 1 < rows {
        assert ShowsAt(s, rows, columns, events, cleared, row, column);
      } else if row + 1 < rows {
        assert ShowsAt(s, rows, columns, events, cleared, row + 1, column);
        ScrolledCell(s, rows, columns, 1, e.colour, row, column);
      } else {
        ScrolledCell(s, rows, columns, 1, e.colour, row, column);
      }
    }
  }

  /** Scrolling moves every row up and blanks the last ones. */
  lemma ScrolledCell(s: Box, rows: nat, columns: nat, n: nat, colour: Colour, row: nat, column: nat)
    requires WellFormed(s, rows, columns) && row < rows && column < columns
    ensures row * columns + column < rows * columns
    ensures row + n < rows ==> (row + n) * columns + column < rows * columns
    ensures Scrolled(s.cells, columns, n, colour)[row * columns + column]
            == if row + n < rows then s.cells[(row + n) * columns + column] else Cell(32, colour)
  {
    Grid.OffsetInside(rows, columns, row, column);
    RowsDown(row, n, columns);
    if row + n < rows {
      Grid.OffsetInside(rows, columns, row + n, column);
    } else {
      RowsDown(rows, row + n - rows, columns);
    }
    ShiftedCell(s.cells, columns, n, colour, row * columns + column);
  }

  lemma RowsDown(row: nat, n: nat, columns: nat)
    ensures (row + n) * columns == row * columns + n * columns >= row * columns
  {
  }

  lemma ShiftedCell(cells: seq<Cell>, columns: nat, n: nat, colour: Colour, k: nat)
    requires k < |cells|
    ensures Scrolled(cells, columns, n, colour)[k] == if k + n * columns < |cells| then cells[k + n * columns] else Cell(32, colour)
  {
  }

  /** A glyph changes one cell of the box. */
  lemma GlyphCell(s: Box, rows: nat, columns: nat, g: Glyph, colour: Colour, row: nat, column: nat)
    requires WellFormed(s, rows, columns) && s.column < columns && row < rows && column < columns
    ensures row * columns + column < rows * columns
    ensures PutGlyph(s, rows, columns, g, colour).cells[row * columns + column]
            == if row == s.row && column == s.column then Cell(g, colour) else s.cells[row * columns + column]
  {
    Grid.OffsetInside(rows, columns, row, column);
    Grid.OffsetInside(rows, columns, s.row, s.column);
    if row * columns + column == s.row * columns + s.column {
      Grid.PositionUnique(row, column, s.row, s.column, columns);
    }
  }

  /** A glyph within the row: the same cell of the page changes. */
  lemma GlyphShows(s: Box, rows: nat, columns: nat, events: seq<Event>, cleared: Colour, e: Event)
    requires WellFormed(s, rows, columns) && ShowsPage(s, rows, columns, events, cleared)
    requires IsGlyph(e.b) && s.column < columns
    ensures ShowsPage(PutGlyph(s, rows, columns, Printable(e.b), e.colour), rows, columns, events + [e], cleared)
  {
    var t := PutGlyph(s, rows, columns, Printable(e.b), e.colour);
    assert (events + [e])[..|events|] == events;
    forall row: nat, column: nat | row < rows && column < columns
      ensures ShowsAt(t, rows, columns, events + [e], cleared, row, column)
    {
      assert ShowsAt(s, rows, columns, events, cleared, row, column);
      GlyphCell(s, rows, columns, Printable(e.b), e.colour, row, column);
    }
  }

  /** A glyph that wraps: it opens a row like a line break and then fills its first cell. */
  lemma WrapShows(s: Box, rows: nat, columns: nat, events: seq<Event>, cleared: Colour, e: Event)
    requires WellFormed(s, rows, columns) && ShowsPage(s, rows, columns, events, cleared)
    requires IsGlyph(e.b) && s.column == columns
    ensures var n := NextRow(s, rows, columns, e.colour);
            ShowsPage(PutGlyph(n, rows, columns, Printable(e.b), e.colour), rows, columns, events + [e], cleared)
  {
    var br := Event(NEWLINE, e.colour);
    var n := NextRow(s, rows, columns, e.colour);
    var t := PutGlyph(n, rows, columns, Printable(e.b), e.colour);
    assert (events + [e])[..|events|] == events && (events + [br])[..|events|] == events;
    BreakShows(s, rows, columns, events, cleared, br);
    forall row: nat, column: nat | row < rows && column < columns
      ensures ShowsAt(t, rows, columns, events + [e], cleared, row, column)
    {
      assert ShowsAt(n, rows, columns, events + [br], cleared, row, column);
      GlyphCell(n, rows, columns, Printable(e.b), e.colour, row, column);
    }
  }

  /** The cursor is in the first cell of a box that has scrolled: the cell before it is on the page
      but not in the box any more. */
  predicate AtLostEdge(events: seq<Event>, rows: nat, columns: nat)
    requires columns > 0
  {
    Top(events, rows, columns) > 0 && Cursor(events, columns) == Position(Top(events, rows, columns), 0)
  }

  /** A backspace in the box is one on the page exactly when it does not have to leave the box. */
  lemma BackspaceShows(s: Box, rows: nat, columns: nat, events: seq<Event>, cleared: Colour, e: Event)
    requires WellFormed(s, rows, columns) && ShowsPage(s, rows, columns, events, cleared) && e.b == BACKSPACE
    ensures ShowsPage(Backspaced(s, rows, columns), rows, columns, events + [e], cleared) <==> !AtLostEdge(events, rows, columns)
  {
    var t := Backspaced(s, rows, columns);
    assert (events + [e])[..|events|] == events;
    forall row: nat, column: nat | row < rows && column < columns
      ensures ShowsAt(t, rows, columns, events + [e], cleared, row, column)
    {
      assert ShowsAt(s, rows, columns, events, cleared, row, column);
    }
  }

  lemma ByteShows(s: Box, rows: nat, columns: nat, events: seq<Event>, cleared: Colour, e: Event)
    requires WellFormed(s, rows, columns) && ShowsPage(s, rows, columns, events, cleared)
    ensures ShowsPage(PutByte(s, rows, columns, e), rows, columns, events + [e], cleared)
            <==> !(e.b == BACKSPACE && AtLostEdge(events, rows, columns))
  {
    if e.b == BACKSPACE {
      BackspaceShows(s, rows, columns, events, cleared, e);
    } else if BreaksLine(e.b) {
      BreakShows(s, rows, columns, events, cleared, e);
    } else if s.column < columns {
      GlyphShows(s, rows, columns, events, cleared, e);
    } else {
      WrapShows(s, rows, columns, events, cleared, e);
    }
  }

  /** No backspace meets the lost edge. */
  predicate StaysInBox(events: seq<Event>, rows: nat, columns: nat)
    requires columns > 0
  {
    forall i :: 0 <= i < |events| && events[i].b == BACKSPACE ==> !AtLostEdge(events[..i], rows, columns)
  }

  ghost predicate ShowsText(rows: nat, columns: nat, cleared: Colour, events: seq<Event>)
    requires rows > 0 && columns > 0
  {
    ShowsPage(Typed(Cleared(rows, columns, cleared), rows, columns, events), rows, columns, events, cleared)
  }

  /** The box shows the page after every byte of the text. */
  ghost predicate ShowsThroughout(rows: nat, columns: nat, cleared: Colour, events: seq<Event>)
    requires rows > 0 && columns > 0
  {
    forall n :: 0 <= n <= |events| ==> ShowsText(rows, columns, cleared, events[..n])
  }

  lemma ClearedShows(rows: nat, columns: nat, cleared: Colour)
    requires rows > 0 && columns > 0
    ensures ShowsPage(Cleared(rows, columns, cleared), rows, columns, [], cleared)
  {
    forall row: nat, column: nat | row < rows && column < columns
      ensures ShowsAt(Cleared(rows, columns, cleared), rows, columns, [], cleared, row, column)
    {
      Grid.OffsetInside(rows, columns, row, column);
    }
  }

  /** A cleared box that had any text written to it shows exactly the last rows of that text laid
      out on an unbounded page, as long as no backspace has to leave the box. */
  lemma {:induction false} BoxShowsEndOfPage(rows: nat, columns: nat, cleared: Colour, events: seq<Event>)
    requires rows > 0 && columns > 0 && StaysInBox(events, rows, columns)
    ensures ShowsText(rows, columns, cleared, events)
  {
    if events == [] {
      ClearedShows(rows, columns, cleared);
    } else {
      var n := |events| - 1;
      var before := events[..n];
      assert forall i :: 0 <= i < n ==> before[..i] == events[..i] && before[i] == events[i];
      BoxShowsEndOfPage(rows, columns, cleared, before);
      ByteShows(Typed(Cleared(rows, columns, cleared), rows, columns, before), rows, columns, before, cleared, events[n]);
      assert events == before + [events[n]];
    }
  }

  /** That is the exact condition for the box to show the page all along: the first backspace at the
      lost edge puts the two cursors apart. */
  lemma ShowsThroughoutExactly(rows: nat, columns: nat, cleared: Colour, events: seq<Event>)
    requires rows > 0 && columns > 0
    ensures ShowsThroughout(rows, columns, cleared, events) <==> StaysInBox(events, rows, columns)
  {
    if StaysInBox(events, rows, columns) {
      forall n | 0 <= n <= |events| ensures ShowsText(rows, columns, cleared, events[..n]) {
        assert forall i :: 0 <= i < n ==> events[..n][..i] == events[..i];
        BoxShowsEndOfPage(rows, columns, cleared, events[..n]);
      }
    } else {
      var i :| 0 <= i < |events| && events[i].b == BACKSPACE && AtLostEdge(events[..i], rows, columns);
      LostEdgeParts(rows, columns, cleared, events[..i], events[i]);
      assert events[..i + 1] == events[..i] + [events[i]];
    }
  }

  lemma LostEdgeParts(rows: nat, columns: nat, cleared: Colour, before: seq<Event>, e: Event)
    requires rows > 0 && columns > 0 && e.b == BACKSPACE && AtLostEdge(before, rows, columns)
    ensures !(ShowsText(rows, columns, cleared, before) && ShowsText(rows, columns, cleared, before + [e]))
  {
    assert (before + [e])[..|before|] == before;
    if ShowsText(rows, columns, cleared, before) {
      ByteShows(Typed(Cleared(rows, columns, cleared), rows, columns, before), rows, columns, before, cleared, e);
    }
  }

  lemma PlainTextStaysInBox(events: seq<Event>, rows: nat, columns: nat)
    requires columns > 0 && NoBackspace(events)
    ensures StaysInBox(events, rows, columns)
  {
  }

  /** A backspace moves the cursor, and the next glyph overwrites the one before it. */
  lemma BackspaceOverwrites(rows: nat, columns: nat, colour: Colour)
    requires rows > 0 && columns > 0
    ensures var s := Typed(Cleared(rows, columns, colour), rows, columns, [Event(65, colour), Event(BACKSPACE, colour), Event(66, colour)]);
            rows * columns > 0 && s.cells[0] == Cell(66, colour) && s.row == 0 && s.column == 1
  {
    var a, back, b := Event(65, colour), Event(BACKSPACE, colour), Event(66, colour);
    var s0 := Cleared(rows, columns, colour);
    Grid.OffsetInside(rows, columns, 0, 0);
    assert [a, back, b][..2] == [a, back] && [a, back][..1] == [a] && [a][..0] == [];
    assert Typed(s0, rows, columns, []) == s0;
    assert Typed(s0, rows, columns, [a]) == PutByte(s0, rows, columns, a);
    assert Typed(s0, rows, columns, [a, back]) == PutByte(PutByte(s0, rows, columns, a), rows, columns, back);
  }

  // ---------- the panel object ----------

  class TextPanel {
    const rows: nat
    const columns: nat
    const renderBuffer: array<Cell>
    var currentCursorRow: nat
    var currentCursorColumn: nat
    var currentColour: Colour

    ghost predicate Valid()
      reads this, renderBuffer
    {
      WellFormed(View(), rows, columns)
    }

    ghost function View(): Box
      reads this, renderBuffer
    {
      Box(renderBuffer[..], currentCursorRow, currentCursorColumn)
    }

    constructor (rows: nat, columns: nat, colour: Colour)
      requires rows > 0 && columns > 0
      ensures this.rows == rows && this.columns == columns && currentColour == colour
      ensures Valid() && View() == Cleared(rows, columns, colour) && fresh(renderBuffer)
    {
      this.rows, this.columns := rows, columns;
      renderBuffer := new Cell[rows * columns](_ => Cell(BLANK, colour));
      currentCursorRow, currentCursorColumn, currentColour := 0, 0, colour;
      new;
      assert renderBuffer[..] == Blanks(rows * columns, colour);
    }

    method ClearNoCommit()
      requires Valid()
      modifies this, renderBuffer
      ensures Valid() && currentColour == old(currentColour) && View() == Cleared(rows, columns, currentColour)
    {
      forall k | 0 <= k < renderBuffer.Length {
        renderBuffer[k] := Cell(BLANK, currentColour);
      }
      currentCursorRow, currentCursorColumn := 0, 0;
      assert renderBuffer[..] == Blanks(rows * columns, currentColour);
    }

    method ScrollRenderBuffer(rowsToScroll: nat)
      requires Valid()
      modifies renderBuffer
      ensures Valid() && renderBuffer[..] == Scrolled(old(renderBuffer[..]), columns, rowsToScroll, currentColour)
    {
      ghost var was := renderBuffer[..];
      if rowsToScroll == 0 { return; }
      Grid.MultipleAtLeast(rowsToScroll, columns);
      var kept := 0;
      if rowsToScroll < rows {
        ShiftInside(rows, columns, rowsToScroll);
        kept := rows * columns - rowsToScroll * columns;
        for counter := 0 to kept
          invariant forall k :: 0 <= k < counter ==> renderBuffer[k] == was[rowsToScroll * columns + k]
          invariant forall k :: counter <= k < renderBuffer.Length ==> renderBuffer[k] == was[k]
        {
          renderBuffer[counter] := renderBuffer[rowsToScroll * columns + counter];
        }
      } else {
        ShiftOutside(rows, columns, rowsToScroll);
      }
      for counter := kept to rows * columns
        invariant forall k :: 0 <= k < kept ==> renderBuffer[k] == was[rowsToScroll * columns + k]
        invariant forall k :: kept <= k < counter ==> renderBuffer[k] == Cell(BLANK, currentColour)
      {
        renderBuffer[counter] := Cell(BLANK, currentColour);
      }
      assert renderBuffer[..] == Scrolled(was, columns, rowsToScroll, currentColour);
    }

    /** `message` is the formatted text, before the formatting buffer cuts it off. */
    method Write(message: seq<byte>)
      requires Valid()
      modifies this, renderBuffer
      ensures Valid() && currentColour == old(currentColour)
      ensures View() == Typed(old(View()), rows, columns, EventsOf(message, currentColour))
    {
      ghost var s0 := View();
      var bytesToPrint := if |message| > MAX_MESSAGE then MAX_MESSAGE else |message|;
      ghost var events := EventsOf(message, currentColour);
      for counter := 0 to bytesToPrint
        invariant Valid() && currentColour == old(currentColour)
        invariant View() == Typed(s0, rows, columns, events[..counter])
      {
        assert events[..counter + 1][..counter] == events[..counter];
        WriteByte(message[counter]);
      }
      assert events[..bytesToPrint] == events;
    }

    method NextLine()
      requires Valid()
      modifies this, renderBuffer
      ensures Valid() && currentColour == old(currentColour)
      ensures View() == NextRow(old(View()), rows, columns, currentColour)
    {
      currentCursorColumn := 0;
      if currentCursorRow + 1 >= rows {
        ScrollRenderBuffer(1);
        currentCursorRow := rows - 1;
      } else {
        currentCursorRow := currentCursorRow + 1;
      }
    }

    method WriteByte(b: byte)
      requires Valid()
      modifies this, renderBuffer
      ensures Valid() && currentColour == old(currentColour)
      ensures View() == PutByte(old(View()), rows, columns, Event(b, currentColour))
    {
      if BreaksLine(b) {
        NextLine();
      } else if b == BACKSPACE {
        if currentCursorColumn > 0 {
          currentCursorColumn := currentCursorColumn - 1;
        } else if currentCursorRow > 0 {
          currentCursorColumn := columns - 1;
          currentCursorRow := currentCursorRow - 1;
        }
      } else {
        if currentCursorColumn >= columns {
          NextLine();
        }
        PlaceGlyph(Printable(b));
      }
    }

    method PlaceGlyph(g: Glyph)
      requires Valid() && currentCursorColumn < columns
      modifies this, renderBuffer
      ensures Valid() && currentColour == old(currentColour)
      ensures View() == PutGlyph(old(View()), rows, columns, g, currentColour)
    {
      Grid.OffsetInside(rows, columns, currentCursorRow, currentCursorColumn);
      renderBuffer[currentCursorRow * columns + currentCursorColumn] := Cell(g, currentColour);
      currentCursorColumn := currentCursorColumn + 1;
    }
  }

  function EventsOf(message: seq<byte>, colour: Colour): (events: seq<Event>)
    ensures |events| == if |message| > 1023 then 1023 else |message|
    ensures forall i :: 0 <= i < |events| ==> events[i] == Event(message[i], colour)
  {
    seq(if |message| > MAX_MESSAGE then MAX_MESSAGE else |message|, i requires 0 <= i < |message| => Event(message[i], colour))
  }

  lemma ShiftInside(rows: nat, columns: nat, n: nat)
    requires n < rows && columns > 0
    ensures 0 < n * columns + (rows * columns - n * columns) == rows * columns && n * columns < rows * columns
  {
    Grid.MultipleAtLeast(rows - n, columns);
    assert rows * columns == n * columns + (rows - n) * columns;
  }

  lemma ShiftOutside(rows: nat, columns: nat, n: nat)
    requires n >= rows
    ensures n * columns >= rows * columns
  {
    assert n * columns == rows * columns + (n - rows) * columns;
  }
}
