/** The copy phase of the repaint thread: panels are sorted by depth and painted over the
    background, clipped to the screen.
    Source: common/gui.cpp (`display_controller::repaint_thread`, `z_sort`). */
module Compositor {
  import opened Common
  import Grid

  import opened Screen

  const INT_LIMIT: int := 0x8000_0000
  const WORD: int := 0x1_0000_0000

  /** A panel as the repaint thread copies it: a block of cells somewhere on or off the screen.
      Origins are 32-bit signed. */
  datatype Panel = Panel(rows: nat, columns: nat, x: int, y: int, z: int, visible: bool, cells: seq<Cell>)

  predicate WellFormed(p: Panel) {
    && p.rows < INT_LIMIT && p.columns < INT_LIMIT && |p.cells| == p.rows * p.columns < WORD
    && -INT_LIMIT <= p.x < INT_LIMIT && -INT_LIMIT <= p.y < INT_LIMIT
  }

  // ---------- what should be on the screen ----------

  /** A position lies inside the panel's block of cells. */
  predicate Inside(p: Panel, row: int, column: int) {
    0 <= row - p.y < p.rows && 0 <= column - p.x < p.columns
  }

  /** A visible panel covers a screen position. */
  predicate Covers(p: Panel, row: int, column: int) {
    p.visible && Inside(p, row, column)
  }

  /** The offset in the panel's own buffer of the cell at a position inside it. */
  function CellIndex(p: Panel, row: int, column: int): (k: nat)
    requires Inside(p, row, column)
    ensures k < p.rows * p.columns
  {
    Grid.OffsetInside(p.rows, p.columns, row - p.y, column - p.x);
    (row - p.y) * p.columns + (column - p.x)
  }

  function ContentAt(p: Panel, row: int, column: int): Cell
    requires WellFormed(p) && Inside(p, row, column)
  {
    p.cells[CellIndex(p, row, column)]
  }

  /** `top` is on top at a position: no covering panel is higher, and among equally high ones it
      is the last in the panel list. */
  ghost predicate OnTop(panels: seq<Panel>, top: nat, row: int, column: int) {
    && top < |panels| && Covers(panels[top], row, column)
    && forall i :: 0 <= i < |panels| && Covers(panels[i], row, column)
                   ==> panels[i].z < panels[top].z || (panels[i].z == panels[top].z && i <= top)
  }

  ghost predicate Uncovered(panels: seq<Panel>, row: int, column: int) {
    forall i :: 0 <= i < |panels| ==> !Covers(panels[i], row, column)
  }

  // ---------- the stable depth sort ----------

  /** `z_sort` compares strictly, so `list::sort` keeps equally deep panels in order. */
  function SortByDepth(panels: seq<Panel>): seq<Panel> {
    if panels == [] then [] else InsertBelow(panels[0], SortByDepth(panels[1..]))
  }

  function InsertBelow(p: Panel, sorted: seq<Panel>): (s: seq<Panel>)
    ensures |s| == |sorted| + 1
  {
    if sorted == [] || p.z <= sorted[0].z then [p] + sorted
    else [sorted[0]] + InsertBelow(p, sorted[1..])
  }

  ghost predicate Ascending(panels: seq<Panel>) {
    forall i, j :: 0 <= i < j < |panels| ==> panels[i].z <= panels[j].z
  }

  lemma {:induction false} InsertAscends(p: Panel, sorted: seq<Panel>)
    requires Ascending(sorted)
    ensures Ascending(InsertBelow(p, sorted))
    ensures forall q :: q in InsertBelow(p, sorted) <==> q == p || q in sorted
  {
    if sorted == [] || p.z <= sorted[0].z {
    } else {
      var rest := InsertBelow(p, sorted[1..]);
      InsertAscends(p, sorted[1..]);
      assert sorted == [sorted[0]] + sorted[1..];
      forall j | 0 <= j < |rest| ensures sorted[0].z <= rest[j].z {
        assert rest[j] in rest;
      }
    }
  }

  lemma {:induction false} SortAscends(panels: seq<Panel>)
    ensures Ascending(SortByDepth(panels))
    ensures forall q :: q in SortByDepth(panels) <==> q in panels
  {
    if panels != [] {
      SortAscends(panels[1..]);
      InsertAscends(panels[0], SortByDepth(panels[1..]));
      assert panels == [panels[0]] + panels[1..];
    }
  }

  /** The sort neither loses nor duplicates a panel. */
  lemma {:induction false} SortPermutes(panels: seq<Panel>)
    ensures multiset(SortByDepth(panels)) == multiset(panels)
  {
    if panels != [] {
      SortPermutes(panels[1..]);
      InsertPermutes(panels[0], SortByDepth(panels[1..]));
      assert panels == [panels[0]] + panels[1..];
    }
  }

  lemma {:induction false} InsertPermutes(p: Panel, sorted: seq<Panel>)
    ensures multiset(InsertBelow(p, sorted)) == multiset{p} + multiset(sorted)
  {
    if sorted != [] && p.z > sorted[0].z {
      InsertPermutes(p, sorted[1..]);
      assert sorted == [sorted[0]] + sorted[1..];
    }
  }

  // ---------- painting in list order ----------

  /** The last panel of a list that covers a position: the one whose paint remains. */
  function LastCovering(panels: seq<Panel>, row: int, column: int): (r: Option<Panel>)
    ensures r.Some? ==> r.value in panels && Covers(r.value, row, column)
  {
    if panels == [] then None
    else
      var later := LastCovering(panels[1..], row, column);
      if later.Some? then later
      else if Covers(panels[0], row, column) then Some(panels[0])
      else None
  }

  lemma {:induction false} LastCoveringOfAppend(panels: seq<Panel>, p: Panel, row: int, column: int)
    ensures LastCovering(panels + [p], row, column)
            == if Covers(p, row, column) then Some(p) else LastCovering(panels, row, column)
  {
    if panels == [] {
      assert panels + [p] == [p];
    } else {
      assert (panels + [p])[1..] == panels[1..] + [p];
      LastCoveringOfAppend(panels[1..], p, row, column);
    }
  }

  /** Inserting into a sorted list changes the outcome only where the new panel is strictly
      higher than everything that covers the position. */
  lemma {:induction false} LastCoveringOfInsert(p: Panel, sorted: seq<Panel>, row: int, column: int)
    requires Ascending(sorted)
    ensures var before := LastCovering(sorted, row, column);
            LastCovering(InsertBelow(p, sorted), row, column)
            == if Covers(p, row, column) && (before.None? || before.value.z < p.z) then Some(p) else before
  {
    if sorted == [] || p.z <= sorted[0].z {
      assert ([p] + sorted)[1..] == sorted;
    } else {
      var rest := sorted[1..];
      LastCoveringOfInsert(p, rest, row, column);
      assert ([sorted[0]] + InsertBelow(p, rest))[1..] == InsertBelow(p, rest);
    }
  }

  /** The panel an earlier one has to beat lies further down the list. */
  lemma FirstOnTop(panels: seq<Panel>, row: int, column: int)
    requires OnTop(panels, 0, row, column)
    ensures var later := LastCovering(SortByDepth(panels[1..]), row, column);
            later.None? || later.value.z < panels[0].z
  {
    var later := LastCovering(SortByDepth(panels[1..]), row, column);
    if later.Some? {
      SortAscends(panels[1..]);
      var i :| 0 <= i < |panels| - 1 && panels[1..][i] == later.value;
      assert panels[i + 1] == later.value;
    }
  }

  lemma LaterOnTop(panels: seq<Panel>, top: nat, row: int, column: int)
    requires top > 0 && OnTop(panels, top, row, column)
    ensures OnTop(panels[1..], top - 1, row, column)
    ensures Covers(panels[0], row, column) ==> panels[0].z <= panels[top].z
  {
    assert forall i :: 0 <= i < |panels| - 1 ==> panels[1..][i] == panels[i + 1];
  }

  /** Sorting by depth and painting in order puts the highest panel on top, the last one of the
      list on ties. */
  lemma {:induction false} SortedPaintingShowsTop(panels: seq<Panel>, top: nat, row: int, column: int)
    requires OnTop(panels, top, row, column)
    ensures LastCovering(SortByDepth(panels), row, column) == Some(panels[top])
  {
    SortAscends(panels[1..]);
    LastCoveringOfInsert(panels[0], SortByDepth(panels[1..]), row, column);
    if top > 0 {
      LaterOnTop(panels, top, row, column);
      SortedPaintingShowsTop(panels[1..], top - 1, row, column);
    } else {
      FirstOnTop(panels, row, column);
    }
  }

  lemma UncoveredShowsNothing(panels: seq<Panel>, row: int, column: int)
    requires Uncovered(panels, row, column)
    ensures LastCovering(SortByDepth(panels), row, column) == None
  {
    SortAscends(panels);
  }

  // ---------- the paint loop ----------

  /** Adding a 32-bit origin to an unsigned offset and reading the sum as signed. */
  function Wrapped(offset: nat, origin: int): int {
    var word := (offset + origin) % WORD;
    if word < INT_LIMIT then word else word - WORD
  }

  /** The wrap-around never matters: where it changes the sum, both are off the screen. */
  lemma WrapIsHarmless(offset: nat, origin: int, size: nat)
    requires offset < INT_LIMIT && -INT_LIMIT <= origin < INT_LIMIT && size < INT_LIMIT
    ensures 0 <= Wrapped(offset, origin) < size <==> 0 <= offset + origin < size
    ensures 0 <= offset + origin < size ==> Wrapped(offset, origin) == offset + origin
  {
  }

  predicate OnScreen(rows: nat, columns: nat, row: int, column: int) {
    0 <= row < rows && 0 <= column < columns
  }

  /** What a position shows after the first `n` cells of `p` were painted over `under`. */
  function Painted(p: Panel, n: nat, row: int, column: int, under: Cell): Cell
    requires WellFormed(p)
  {
    if Inside(p, row, column) && CellIndex(p, row, column) < n then ContentAt(p, row, column) else under
  }

  ghost predicate PaintedAt(buffer: seq<Cell>, under: seq<Cell>, rows: nat, columns: nat, p: Panel, n: nat, row: int, column: int)
    requires |buffer| == |under| == rows * columns && WellFormed(p) && OnScreen(rows, columns, row, column)
  {
    Grid.OffsetInside(rows, columns, row, column);
    buffer[row * columns + column] == Painted(p, n, row, column, under[row * columns + column])
  }

  ghost predicate Paints(buffer: seq<Cell>, under: seq<Cell>, rows: nat, columns: nat, p: Panel, n: nat)
    requires |buffer| == |under| == rows * columns && WellFormed(p)
  {
    forall row, column :: OnScreen(rows, columns, row, column) ==> PaintedAt(buffer, under, rows, columns, p, n, row, column)
  }

  /** The position on the unbounded plane where cell `n` of a panel belongs. */
  lemma PlaceOfCell(p: Panel, n: nat) returns (row: int, column: int)
    requires WellFormed(p) && n < |p.cells|
    ensures p.columns > 0 && row == n / p.columns + p.y && column == n % p.columns + p.x
    ensures Inside(p, row, column) && CellIndex(p, row, column) == n
    ensures forall r, c :: Inside(p, r, c) && CellIndex(p, r, c) == n ==> r == row && c == column
  {
    Grid.RowInside(p.rows, p.columns, n);
    Grid.OffsetSplits(n, p.columns);
    row, column := n / p.columns + p.y, n % p.columns + p.x;
    forall r, c | Inside(p, r, c) && CellIndex(p, r, c) == n ensures r == row && c == column {
      Grid.PositionUnique(r - p.y, c - p.x, n / p.columns, n % p.columns, p.columns);
    }
  }

  /** A cell that is clipped changes nothing on the screen. */
  lemma ClippedStep(buffer: seq<Cell>, under: seq<Cell>, rows: nat, columns: nat, p: Panel, n: nat, row: int, column: int)
    requires |buffer| == |under| == rows * columns && WellFormed(p) && n < |p.cells|
    requires Paints(buffer, under, rows, columns, p, n)
    requires !OnScreen(rows, columns, row, column)
    requires forall r, c :: Inside(p, r, c) && CellIndex(p, r, c) == n ==> r == row && c == column
    ensures Paints(buffer, under, rows, columns, p, n + 1)
  {
    forall r, c | OnScreen(rows, columns, r, c) ensures PaintedAt(buffer, under, rows, columns, p, n + 1, r, c) {
      assert PaintedAt(buffer, under, rows, columns, p, n, r, c);
    }
  }

  lemma PaintedStep(buffer: seq<Cell>, under: seq<Cell>, rows: nat, columns: nat, p: Panel, n: nat, row: int, column: int)
    returns (at: nat)
    requires |buffer| == |under| == rows * columns && WellFormed(p) && n < |p.cells|
    requires Paints(buffer, under, rows, columns, p, n)
    requires OnScreen(rows, columns, row, column) && Inside(p, row, column) && CellIndex(p, row, column) == n
    requires forall r, c :: Inside(p, r, c) && CellIndex(p, r, c) == n ==> r == row && c == column
    ensures at == row * columns + column < rows * columns
    ensures Paints(buffer[at := p.cells[n]], under, rows, columns, p, n + 1)
  {
    Grid.OffsetInside(rows, columns, row, column);
    at := row * columns + column;
    var after := buffer[at := p.cells[n]];
    forall r, c | OnScreen(rows, columns, r, c) ensures PaintedAt(after, under, rows, columns, p, n + 1, r, c) {
      assert PaintedAt(buffer, under, rows, columns, p, n, r, c);
      if r != row || c != column {
        PaintedElsewhere(buffer, after, under, rows, columns, p, n, row, column, r, c);
      }
    }
  }

  lemma PaintedElsewhere(buffer: seq<Cell>, after: seq<Cell>, under: seq<Cell>, rows: nat, columns: nat, p: Panel, n: nat,
                         row: int, column: int, r: int, c: int)
    requires |buffer| == |under| == rows * columns && WellFormed(p) && n < |p.cells|
    requires OnScreen(rows, columns, row, column) && row * columns + column < rows * columns
    requires after == buffer[row * columns + column := p.cells[n]]
    requires OnScreen(rows, columns, r, c) && (r != row || c != column)
    requires !Inside(p, r, c) || CellIndex(p, r, c) != n
    requires PaintedAt(buffer, under, rows, columns, p, n, r, c)
    ensures PaintedAt(after, under, rows, columns, p, n + 1, r, c)
  {
    Grid.OffsetInside(rows, columns, r, c);
    var here, there := row * columns + column, r * columns + c;
    if here == there {
      Grid.PositionUnique(r, c, row, column, columns);
    }
    assert after[there] == buffer[there];
  }

  /** The loop over one panel's cells. */
  method PaintPanel(render: array<Cell>, rows: nat, columns: nat, p: Panel)
    requires WellFormed(p) && rows < INT_LIMIT && columns < INT_LIMIT && render.Length == rows * columns
    modifies render
    ensures Paints(render[..], old(render[..]), rows, columns, p, |p.cells|)
  {
    ghost var under := render[..];
    for counter := 0 to p.rows * p.columns
      invariant Paints(render[..], under, rows, columns, p, counter)
    {
      ghost var buffer := render[..];
      ghost var row, column := PlaceOfCell(p, counter);
      Grid.RowInside(p.rows, p.columns, counter);
      var absX := Wrapped(counter % p.columns, p.x);
      var absY := Wrapped(counter / p.columns, p.y);
      WrapIsHarmless(counter % p.columns, p.x, columns);
      WrapIsHarmless(counter / p.columns, p.y, rows);
      if absX < 0 || absX >= columns || absY < 0 || absY >= rows {
        ClippedStep(buffer, under, rows, columns, p, counter, row, column);
      } else {
        ghost var at := PaintedStep(buffer, under, rows, columns, p, counter, row, column);
        assert absY * columns + absX == at;
        render[absY * columns + absX] := p.cells[counter];
        assert render[..] == buffer[at := p.cells[counter]];
      }
    }
  }

  /** The cell a list of panels, painted in order over the background, leaves at a position. */
  function Composed(panels: seq<Panel>, background: Cell, row: int, column: int): Cell
    requires forall p :: p in panels ==> WellFormed(p)
  {
    var last := LastCovering(panels, row, column);
    if last.Some? then ContentAt(last.value, row, column) else background
  }

  ghost predicate ComposedAt(buffer: seq<Cell>, panels: seq<Panel>, background: seq<Cell>, rows: nat, columns: nat, row: int, column: int)
    requires |buffer| == |background| == rows * columns && OnScreen(rows, columns, row, column)
    requires forall p :: p in panels ==> WellFormed(p)
  {
    Grid.OffsetInside(rows, columns, row, column);
    buffer[row * columns + column] == Composed(panels, background[row * columns + column], row, column)
  }

  ghost predicate Composes(buffer: seq<Cell>, panels: seq<Panel>, background: seq<Cell>, rows: nat, columns: nat)
    requires |buffer| == |background| == rows * columns
    requires forall p :: p in panels ==> WellFormed(p)
  {
    forall row, column :: OnScreen(rows, columns, row, column) ==> ComposedAt(buffer, panels, background, rows, columns, row, column)
  }

  lemma ComposeStep(before: seq<Cell>, after: seq<Cell>, painted: seq<Panel>, p: Panel, background: seq<Cell>, rows: nat, columns: nat)
    requires |before| == |after| == |background| == rows * columns
    requires WellFormed(p) && forall q :: q in painted ==> WellFormed(q)
    requires Composes(before, painted, background, rows, columns)
    requires if p.visible then Paints(after, before, rows, columns, p, |p.cells|) else after == before
    ensures Composes(after, painted + [p], background, rows, columns)
  {
    forall row, column | OnScreen(rows, columns, row, column)
      ensures ComposedAt(after, painted + [p], background, rows, columns, row, column)
    {
      assert ComposedAt(before, painted, background, rows, columns, row, column);
      LastCoveringOfAppend(painted, p, row, column);
      if p.visible {
        assert PaintedAt(after, before, rows, columns, p, |p.cells|, row, column);
      }
    }
  }

  /** The whole copy phase. The panel list comes back sorted. */
  method Compose(render: array<Cell>, background: seq<Cell>, panels: seq<Panel>, rows: nat, columns: nat) returns (sorted: seq<Panel>)
    requires rows < INT_LIMIT && columns < INT_LIMIT && render.Length == |background| == rows * columns
    requires forall p :: p in panels ==> WellFormed(p)
    modifies render
    ensures sorted == SortByDepth(panels)
    ensures forall p :: p in sorted ==> WellFormed(p)
    ensures Composes(render[..], sorted, background, rows, columns)
  {
    sorted := SortByDepth(panels);
    SortAscends(panels);
    forall k | 0 <= k < render.Length {
      render[k] := background[k];
    }
    assert render[..] == background;
    for i := 0 to |sorted|
      invariant Composes(render[..], sorted[..i], background, rows, columns)
    {
      ghost var before := render[..];
      if sorted[i].visible {
        PaintPanel(render, rows, columns, sorted[i]);
      }
      ComposeStep(before, render[..], sorted[..i], sorted[i], background, rows, columns);
      assert sorted[..i + 1] == sorted[..i] + [sorted[i]];
    }
    assert sorted[..|sorted|] == sorted;
  }

  /** Every screen cell shows the highest visible panel covering it (the last one of the list
      among equally high ones), or the background when no panel covers it. */
  lemma CompositionShowsTop(buffer: seq<Cell>, panels: seq<Panel>, background: seq<Cell>, rows: nat, columns: nat, row: int, column: int)
    returns (top: Option<nat>)
    requires |buffer| == |background| == rows * columns && OnScreen(rows, columns, row, column)
    requires (forall p :: p in panels ==> WellFormed(p)) && forall p :: p in SortByDepth(panels) ==> WellFormed(p)
    requires Composes(buffer, SortByDepth(panels), background, rows, columns)
    ensures row * columns + column < rows * columns
    ensures top.Some? ==> OnTop(panels, top.value, row, column) && buffer[row * columns + column] == ContentAt(panels[top.value], row, column)
    ensures top.None? ==> Uncovered(panels, row, column) && buffer[row * columns + column] == background[row * columns + column]
    ensures top.Some? ==>
              var p := panels[top.value];
              var at := (row - p.y) * p.columns + (column - p.x);
              && p.visible && p.y <= row < p.y + p.rows && p.x <= column < p.x + p.columns
              && 0 <= at < |p.cells| && buffer[row * columns + column] == p.cells[at]
    ensures forall i :: 0 <= i < |panels| && panels[i].visible
                        && panels[i].y <= row < panels[i].y + panels[i].rows
                        && panels[i].x <= column < panels[i].x + panels[i].columns
                        ==> top.Some? && (panels[i].z < panels[top.value].z || (panels[i].z == panels[top.value].z && i <= top.value))
  {
    Grid.OffsetInside(rows, columns, row, column);
    var at := row * columns + column;
    assert ComposedAt(buffer, SortByDepth(panels), background, rows, columns, row, column);
    assert buffer[at] == Composed(SortByDepth(panels), background[at], row, column);
    if Uncovered(panels, row, column) {
      UncoveredShowsNothing(panels, row, column);
      top := None;
    } else {
      var k := FindTop(panels, row, column);
      SortedPaintingShowsTop(panels, k, row, column);
      top := Some(k);
    }
  }

  lemma {:induction false} FindTop(panels: seq<Panel>, row: int, column: int) returns (top: nat)
    requires !Uncovered(panels, row, column)
    ensures OnTop(panels, top, row, column)
  {
    var n := |panels| - 1;
    var front := panels[..n];
    if Uncovered(front, row, column) {
      top := n;
      assert forall i :: 0 <= i < n ==> front[i] == panels[i];
    } else {
      top := FindTop(front, row, column);
      if Covers(panels[n], row, column) && panels[n].z >= panels[top].z {
        top := n;
      }
      assert forall i :: 0 <= i < n ==> front[i] == panels[i];
    }
  }
}
