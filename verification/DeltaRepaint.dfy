/** The write phase of the repaint thread: only cells that changed are sent to the terminal, in
    runs of one colour collected in a fixed accumulator.
    Source: common/gui.cpp (`display_controller::repaint_thread`). */
module DeltaRepaint {
  import opened Common
  import Grid

  import opened Screen

  const ACCUMULATOR_SIZE: nat := 2048
  const CURSOR_COLOUR: Colour := 0xaf

  predicate Changed(output: seq<Cell>, render: seq<Cell>, k: nat)
    requires k < |output| == |render|
  {
    output[k] != render[k]
  }

  /** How many characters the accumulator holds after the first `n` cells. */
  function Pending(output: seq<Cell>, render: seq<Cell>, n: nat): (p: nat)
    requires n <= |output| == |render|
    ensures p < ACCUMULATOR_SIZE && p <= n
  {
    if n == 0 || !Changed(output, render, n - 1) then 0
    else
      var before := Pending(output, render, n - 1);
      if before == 0 || render[n - 2].colour != render[n - 1].colour then 1
      else if before + 1 == ACCUMULATOR_SIZE then 0
      else before + 1
  }

  /** Cell `k` extends a run that already fills the accumulator: the run is flushed and the cell
      is forgotten. */
  predicate Dropped(output: seq<Cell>, render: seq<Cell>, k: nat)
    requires k < |output| == |render|
  {
    && Changed(output, render, k)
    && Pending(output, render, k) + 1 == ACCUMULATOR_SIZE
    && render[k - 1].colour == render[k].colour
  }

  /** The terminal after the write phase: the changed cells that were not dropped are new. */
  function Flushed(terminal: seq<Cell>, output: seq<Cell>, render: seq<Cell>): (t: seq<Cell>)
    requires |terminal| == |output| == |render|
    ensures |t| == |render|
  {
    seq(|render|, k requires 0 <= k < |render| => FlushedCell(terminal, output, render, k))
  }

  function FlushedCell(terminal: seq<Cell>, output: seq<Cell>, render: seq<Cell>, k: nat): Cell
    requires k < |terminal| == |output| == |render|
  {
    if Changed(output, render, k) && !Dropped(output, render, k) then render[k] else terminal[k]
  }

  // ---------- the exact condition ----------

  /** `length` consecutive cells from `start` on all change, to one colour. */
  ghost predicate ChangedRun(output: seq<Cell>, render: seq<Cell>, start: nat, length: nat)
    requires |output| == |render|
  {
    && start + length <= |render|
    && (forall k :: start <= k < start + length ==> Changed(output, render, k))
    && (forall k, l :: start <= k < l < start + length ==> render[k].colour == render[l].colour)
  }

  ghost predicate HasLongRun(output: seq<Cell>, render: seq<Cell>)
    requires |output| == |render|
  {
    exists start :: 0 <= start && ChangedRun(output, render, start, ACCUMULATOR_SIZE)
  }

  lemma {:induction false} PendingIsRun(output: seq<Cell>, render: seq<Cell>, n: nat)
    requires n <= |output| == |render|
    ensures ChangedRun(output, render, n - Pending(output, render, n), Pending(output, render, n))
    ensures forall k :: n - Pending(output, render, n) <= k < n ==> !Dropped(output, render, k)
  {
    if n > 0 {
      PendingIsRun(output, render, n - 1);
    }
  }

  /** Inside a run where nothing is dropped, the accumulator fills up. */
  lemma {:induction false} RunFillsAccumulator(output: seq<Cell>, render: seq<Cell>, start: nat, length: nat)
    requires |output| == |render| && 0 < length && ChangedRun(output, render, start, length)
    requires forall k :: start <= k < start + length ==> !Dropped(output, render, k)
    ensures Pending(output, render, start + length) >= length
  {
    var n := start + length;
    assert Changed(output, render, n - 1) && !Dropped(output, render, n - 1);
    if length > 1 {
      RunFillsAccumulator(output, render, start, length - 1);
      assert render[n - 2].colour == render[n - 1].colour;
    }
  }

  lemma DropMeansLongRun(output: seq<Cell>, render: seq<Cell>, k: nat)
    requires k < |output| == |render| && Dropped(output, render, k)
    ensures ChangedRun(output, render, k + 1 - ACCUMULATOR_SIZE, ACCUMULATOR_SIZE)
  {
    PendingIsRun(output, render, k);
  }

  /** On a terminal that shows `output`, delta repaint refines full repaint exactly when no 2048
      consecutive cells change to one colour in one frame. */
  lemma FlushedIsRenderExact(output: seq<Cell>, render: seq<Cell>)
    requires |output| == |render|
    ensures Flushed(output, output, render) == render <==> !HasLongRun(output, render)
  {
    if HasLongRun(output, render) {
      var start :| 0 <= start && ChangedRun(output, render, start, ACCUMULATOR_SIZE);
      if forall k :: start <= k < start + ACCUMULATOR_SIZE ==> !Dropped(output, render, k) {
        RunFillsAccumulator(output, render, start, ACCUMULATOR_SIZE);
        assert false;
      }
      var k :| start <= k < start + ACCUMULATOR_SIZE && Dropped(output, render, k);
      assert Flushed(output, output, render)[k] == output[k] != render[k];
    } else {
      forall k | 0 <= k < |render| ensures !Dropped(output, render, k) {
        if Dropped(output, render, k) {
          DropMeansLongRun(output, render, k);
        }
      }
    }
  }

  /** The default 25x80 screen is small enough for every frame. */
  lemma SmallScreensAreExact(output: seq<Cell>, render: seq<Cell>)
    requires |output| == |render| < 2048
    ensures Flushed(output, output, render) == render
  {
    FlushedIsRenderExact(output, render);
  }

  /** The limit is sharp: on every larger screen some frame loses a cell. */
  lemma LargeScreensLoseCells(n: nat) returns (output: seq<Cell>, render: seq<Cell>)
    requires n >= 2048
    ensures |output| == |render| == n && Flushed(output, output, render) != render
  {
    output := seq(n, _ => Cell(BLANK, 0));
    render := seq(n, _ => Cell(BLANK + 1, 0));
    assert ChangedRun(output, render, 0, ACCUMULATOR_SIZE);
    FlushedIsRenderExact(output, render);
  }

  // ---------- the write phase ----------

  /** `mvprintw` on a terminal addressed by linear offset. */
  method MovePrint(terminal: array<Cell>, columns: nat, row: nat, column: nat, text: array<Glyph>, length: nat, colour: Colour)
    requires length <= text.Length && row * columns + column + length <= terminal.Length
    modifies terminal
    ensures forall k :: 0 <= k < terminal.Length ==>
              terminal[k] == var at := row * columns + column;
                             if at <= k < at + length then Cell(text[k - at], colour) else old(terminal[k])
  {
    var at := row * columns + column;
    forall k | 0 <= k < length {
      terminal[at + k] := Cell(text[k], colour);
    }
  }

  /** The first `n` cells of the terminal are final, the others untouched. */
  ghost predicate UpToDate(terminal: seq<Cell>, t0: seq<Cell>, output: seq<Cell>, render: seq<Cell>, n: nat) {
    && |terminal| == |t0| == |output| == |render| && n <= |render|
    && (forall k :: 0 <= k < n ==> terminal[k] == FlushedCell(t0, output, render, k))
    && (forall k :: n <= k < |render| ==> terminal[k] == t0[k])
  }

  /** The accumulator holds the `index` cells before `n`, of one colour, first one at `at`. */
  ghost predicate Collected(render: seq<Cell>, n: nat, text: seq<Glyph>, index: nat, colour: Colour, at: int) {
    && index <= |text| && index <= n <= |render| && (index > 0 ==> at == n - index)
    && forall k :: n - index <= k < n ==> render[k] == Cell(text[k - (n - index)], colour)
  }

  ghost predicate LoopState(terminal: seq<Cell>, t0: seq<Cell>, output: seq<Cell>, render: seq<Cell>, n: nat,
                            text: seq<Glyph>, index: nat, colour: Colour, at: int)
  {
    && |output| == |render| && n <= |render| && index == Pending(output, render, n)
    && UpToDate(terminal, t0, output, render, n - index)
    && Collected(render, n, text, index, colour, at)
  }

  /** Flushing writes the collected run, which brings the terminal up to date. */
  method FlushRun(terminal: array<Cell>, ghost t0: seq<Cell>, ghost o: seq<Cell>, ghost r: seq<Cell>, ghost n: nat,
                  columns: nat, row: nat, column: nat, text: array<Glyph>, index: nat, colour: Colour)
    requires index > 0 && LoopState(terminal[..], t0, o, r, n, text[..], index, colour, row * columns + column)
    modifies terminal
    ensures UpToDate(terminal[..], t0, o, r, n)
  {
    PendingIsRun(o, r, n);
    ghost var before := terminal[..];
    MovePrint(terminal, columns, row, column, text, index, colour);
    forall k | 0 <= k < |r| ensures terminal[k] == if k < n then FlushedCell(t0, o, r, k) else t0[k] {
      if n - index <= k < n {
        assert r[k] == Cell(text[..][k - (n - index)], colour);
      }
    }
  }

  /** An unchanged cell needs no writing. */
  lemma SkipUnchanged(t: seq<Cell>, t0: seq<Cell>, o: seq<Cell>, r: seq<Cell>, n: nat, text: seq<Glyph>, colour: Colour, at: int)
    requires UpToDate(t, t0, o, r, n) && n < |r| && !Changed(o, r, n)
    ensures LoopState(t, t0, o, r, n + 1, text, 0, colour, at)
  {
  }

  /** A changed cell that cannot join the run so far starts a new one. */
  lemma StartRun(t: seq<Cell>, t0: seq<Cell>, o: seq<Cell>, r: seq<Cell>, n: nat, text: seq<Glyph>)
    requires UpToDate(t, t0, o, r, n) && n < |r| && Changed(o, r, n) && |text| > 0
    requires Pending(o, r, n) == 0 || r[n - 1].colour != r[n].colour
    ensures LoopState(t, t0, o, r, n + 1, text[0 := r[n].character], 1, r[n].colour, n)
  {
  }

  lemma ExtendRun(t: seq<Cell>, t0: seq<Cell>, o: seq<Cell>, r: seq<Cell>, n: nat, text: seq<Glyph>, index: nat, colour: Colour, at: int)
    requires LoopState(t, t0, o, r, n, text, index, colour, at) && 0 < index < |text|
    requires n < |r| && Changed(o, r, n) && index + 1 < ACCUMULATOR_SIZE && colour == r[n].colour
    ensures LoopState(t, t0, o, r, n + 1, text[index := r[n].character], index + 1, colour, at)
  {
  }

  /** A run that fills the accumulator is flushed, and the cell at hand stays as it was. */
  lemma DropCell(t: seq<Cell>, t0: seq<Cell>, o: seq<Cell>, r: seq<Cell>, n: nat, text: seq<Glyph>, colour: Colour, at: int)
    requires UpToDate(t, t0, o, r, n) && n < |r| && Dropped(o, r, n)
    ensures LoopState(t, t0, o, r, n + 1, text, 0, colour, at)
  {
  }

  lemma RunColour(t: seq<Cell>, t0: seq<Cell>, o: seq<Cell>, r: seq<Cell>, n: nat, text: seq<Glyph>, index: nat, colour: Colour, at: int)
    requires LoopState(t, t0, o, r, n, text, index, colour, at) && index > 0
    ensures n > 0 && r[n - 1].colour == colour
  {
  }

  method FlushDelta(terminal: array<Cell>, output: array<Cell>, render: array<Cell>, columns: nat)
    requires terminal != output && terminal != render && columns > 0
    requires terminal.Length == output.Length == render.Length
    modifies terminal
    ensures terminal[..] == Flushed(old(terminal[..]), output[..], render[..])
  {
    ghost var t0, o, r := terminal[..], output[..], render[..];
    var accumulator := new Glyph[ACCUMULATOR_SIZE](_ => BLANK);
    var index: nat := 0;
    var lastRow: nat, lastColumn: nat, lastColour: Colour := 0, 0, 7;
    for counter := 0 to render.Length
      invariant output[..] == o && render[..] == r
      invariant LoopState(terminal[..], t0, o, r, counter, accumulator[..], index, lastColour, lastRow * columns + lastColumn)
    {
      index, lastColour, lastRow, lastColumn :=
        ConsiderCell(terminal, output, render, columns, counter, accumulator, index, lastColour, lastRow, lastColumn, t0);
    }
    if index > 0 {
      FlushRun(terminal, t0, o, r, render.Length, columns, lastRow, lastColumn, accumulator, index, lastColour);
    }
  }

  /** The loop body. `requires_flush` is true exactly when the accumulator is not empty. */
  method ConsiderCell(terminal: array<Cell>, output: array<Cell>, render: array<Cell>, columns: nat, counter: nat,
                      accumulator: array<Glyph>, index0: nat, colour0: Colour, row0: nat, column0: nat, ghost t0: seq<Cell>)
    returns (index: nat, lastColour: Colour, lastRow: nat, lastColumn: nat)
    requires terminal != output && terminal != render && columns > 0 && accumulator.Length == ACCUMULATOR_SIZE
    requires terminal.Length == output.Length == render.Length && counter < render.Length
    requires LoopState(terminal[..], t0, output[..], render[..], counter, accumulator[..], index0, colour0, row0 * columns + column0)
    modifies terminal, accumulator
    ensures LoopState(terminal[..], t0, output[..], render[..], counter + 1, accumulator[..], index, lastColour, lastRow * columns + lastColumn)
  {
    ghost var o, r, text := output[..], render[..], accumulator[..];
    index, lastColour, lastRow, lastColumn := index0, colour0, row0, column0;
    var requiresFlush := index > 0;
    if output[counter] == render[counter] {
      if requiresFlush {
        FlushRun(terminal, t0, o, r, counter, columns, lastRow, lastColumn, accumulator, index, lastColour);
        index := 0;
      }
      SkipUnchanged(terminal[..], t0, o, r, counter, text, lastColour, lastRow * columns + lastColumn);
    } else if !requiresFlush {
      StartRun(terminal[..], t0, o, r, counter, text);
      Grid.OffsetSplits(counter, columns);
      lastColour := render[counter].colour;
      accumulator[index] := render[counter].character;
      index := index + 1;
      lastRow, lastColumn := counter / columns, counter % columns;
      assert accumulator[..] == text[0 := r[counter].character];
    } else if lastColour == render[counter].colour {
      RunColour(terminal[..], t0, o, r, counter, text, index, lastColour, lastRow * columns + lastColumn);
      if index + 1 == ACCUMULATOR_SIZE {
        FlushRun(terminal, t0, o, r, counter, columns, lastRow, lastColumn, accumulator, index, lastColour);
        DropCell(terminal[..], t0, o, r, counter, text, lastColour, lastRow * columns + lastColumn);
        index := 0;
      } else {
        ExtendRun(terminal[..], t0, o, r, counter, text, index, lastColour, lastRow * columns + lastColumn);
        accumulator[index] := render[counter].character;
        assert accumulator[..] == text[index := r[counter].character];
        index := index + 1;
      }
    } else {
      RunColour(terminal[..], t0, o, r, counter, text, index, lastColour, lastRow * columns + lastColumn);
      FlushRun(terminal, t0, o, r, counter, columns, lastRow, lastColumn, accumulator, index, lastColour);
      StartRun(terminal[..], t0, o, r, counter, text);
      Grid.OffsetSplits(counter, columns);
      index := 0;
      lastColour := render[counter].colour;
      accumulator[index] := render[counter].character;
      index := index + 1;
      lastRow, lastColumn := counter / columns, counter % columns;
      assert accumulator[..] == text[0 := r[counter].character];
    }
  }

  // ---------- frames ----------

  /** A cursor position as the focused panel computes it, relative to the screen. */
  datatype Position = Position(x: nat, y: nat)

  /** The screen wrap safety check: positions beyond an edge move onto it. */
  function CursorOffset(p: Position, rows: nat, columns: nat): nat
    requires rows > 0 && columns > 0
  {
    (if p.y >= rows then rows - 1 else p.y) * columns + (if p.x >= columns then columns - 1 else p.x)
  }

  lemma CursorOnScreen(p: Position, rows: nat, columns: nat)
    requires rows > 0 && columns > 0
    ensures CursorOffset(p, rows, columns) < rows * columns
  {
    Grid.OffsetInside(rows, columns, if p.y >= rows then rows - 1 else p.y, if p.x >= columns then columns - 1 else p.x);
  }

  function Highlighted(c: Cell): Cell {
    Cell(c.character, CURSOR_COLOUR)
  }

  /** What a frame should show: the composed buffer with the cursor cell highlighted. */
  function Shown(render: seq<Cell>, cursor: Option<nat>): seq<Cell>
    requires cursor.Some? ==> cursor.value < |render|
  {
    if cursor.Some? then render[cursor.value := Highlighted(render[cursor.value])] else render
  }

  /** A cursor on the screen stays where it is, row by row; one beyond an edge moves onto it. */
  lemma CursorPlace(p: Position, rows: nat, columns: nat)
    requires rows > 0 && columns > 0
    ensures p.x < columns && p.y < rows ==> CursorOffset(p, rows, columns) == p.y * columns + p.x
    ensures p.x >= columns && p.y < rows ==> CursorOffset(p, rows, columns) == p.y * columns + columns - 1
    ensures p.x < columns && p.y >= rows ==> CursorOffset(p, rows, columns) == (rows - 1) * columns + p.x
    ensures p.x >= columns && p.y >= rows ==> CursorOffset(p, rows, columns) == (rows - 1) * columns + columns - 1
  {
  }

  /** The cursor's cell keeps its character and is shown white on green; no other cell changes. */
  lemma CursorShown(render: seq<Cell>, cursor: nat, k: nat)
    requires cursor < |render| && k < |render|
    ensures Shown(render, Some(cursor))[k] == if k == cursor then Cell(render[k].character, 0xaf) else render[k]
    ensures Shown(render, None) == render
  {
  }

  /** The terminal after a frame; the cursor is redrawn from the copied buffer. */
  function FrameTerminal(terminal: seq<Cell>, output: seq<Cell>, render: seq<Cell>, cursor: Option<nat>): (t: seq<Cell>)
    requires |terminal| == |output| == |render| && (cursor.Some? ==> cursor.value < |render|)
    ensures |t| == |render|
  {
    var flushed := Flushed(terminal, output, render);
    if cursor.Some? then flushed[cursor.value := Highlighted(render[cursor.value])] else flushed
  }

  /** One round of the repaint thread, after composition. */
  method RepaintFrame(terminal: array<Cell>, output: array<Cell>, render: array<Cell>, rows: nat, columns: nat, focus: Option<Position>)
    requires terminal != output && terminal != render && output != render && rows > 0 && columns > 0
    requires terminal.Length == output.Length == render.Length == rows * columns
    modifies terminal, output
    ensures var cursor := if focus.Some? then Some(CursorOffset(focus.value, rows, columns)) else None;
            (cursor.Some? ==> cursor.value < rows * columns)
            && output[..] == Shown(render[..], cursor)
            && terminal[..] == FrameTerminal(old(terminal[..]), old(output[..]), render[..], cursor)
  {
    FlushDelta(terminal, output, render, columns);
    ghost var flushed := terminal[..];
    assert output[..] == old(output[..]) && flushed == Flushed(old(terminal[..]), old(output[..]), render[..]);
    ghost var content := render[..];
    forall k | 0 <= k < output.Length {
      output[k] := render[k];
    }
    assert output[..] == content && render[..] == content && terminal[..] == flushed;
    if focus.Some? {
      var x, y := focus.value.x, focus.value.y;
      if x >= columns { x := columns - 1; }
      if y >= rows { y := rows - 1; }
      CursorOnScreen(focus.value, rows, columns);
      var at := y * columns + x;
      assert at == CursorOffset(focus.value, rows, columns);
      terminal[at] := Cell(output[at].character, CURSOR_COLOUR);
      output[at] := Cell(output[at].character, CURSOR_COLOUR);
      assert terminal[..] == flushed[at := Highlighted(content[at])];
      assert output[..] == content[at := Highlighted(content[at])];
    }
  }

  /** If the terminal showed the output buffer and no long run changed, it does so again, and
      both are the composed buffer with its cursor. */
  lemma FrameKeepsTerminalInStep(output: seq<Cell>, render: seq<Cell>, cursor: Option<nat>)
    requires |output| == |render| && (cursor.Some? ==> cursor.value < |render|)
    ensures !HasLongRun(output, render) ==> FrameTerminal(output, output, render, cursor) == Shown(render, cursor)
    ensures HasLongRun(output, render) && cursor.None? ==> FrameTerminal(output, output, render, cursor) != Shown(render, cursor)
  {
    FlushedIsRenderExact(output, render);
  }

  datatype Frame = Frame(render: seq<Cell>, cursor: Option<nat>)

  ghost predicate Fits(f: Frame, size: nat) {
    |f.render| == size && (f.cursor.Some? ==> f.cursor.value < size)
  }

  ghost predicate AllFit(frames: seq<Frame>, size: nat) {
    forall i :: 0 <= i < |frames| ==> Fits(frames[i], size)
  }

  /** The terminal after a sequence of frames, each starting from the output buffer the previous
      one left. */
  ghost function AfterFrames(terminal: seq<Cell>, output: seq<Cell>, frames: seq<Frame>): (t: seq<Cell>)
    requires |terminal| == |output| && AllFit(frames, |output|)
    ensures |t| == |terminal|
    decreases |frames|
  {
    if frames == [] then terminal
    else
      var f := frames[0];
      assert Fits(f, |output|);
      AfterFrames(FrameTerminal(terminal, output, f.render, f.cursor), Shown(f.render, f.cursor), frames[1..])
  }

  /** No frame changes a long run against what the frame before it left on the screen. */
  ghost predicate NoLongRuns(output: seq<Cell>, frames: seq<Frame>)
    requires AllFit(frames, |output|)
    decreases |frames|
  {
    frames == [] ||
    (var f := frames[0];
     assert Fits(f, |output|);
     !HasLongRun(output, f.render) && NoLongRuns(Shown(f.render, f.cursor), frames[1..]))
  }

  /** What the last frame should show, or the initial screen. */
  ghost function ShownLast(output: seq<Cell>, frames: seq<Frame>): (t: seq<Cell>)
    requires AllFit(frames, |output|)
    ensures |t| == |output|
  {
    if frames == [] then output else
    var last := frames[|frames| - 1];
    assert Fits(last, |output|);
    Shown(last.render, last.cursor)
  }

  /** Every such sequence of frames leaves the terminal showing exactly the last one, on a screen of
      any size. */
  lemma {:induction false} FramesRefineFullRepaint(output: seq<Cell>, frames: seq<Frame>)
    requires AllFit(frames, |output|) && NoLongRuns(output, frames)
    ensures AfterFrames(output, output, frames) == ShownLast(output, frames)
    decreases |frames|
  {
    if frames != [] {
      var f := frames[0];
      assert Fits(f, |output|);
      FrameKeepsTerminalInStep(output, f.render, f.cursor);
      FramesRefineFullRepaint(Shown(f.render, f.cursor), frames[1..]);
    }
  }

  /** The first frame with a long run and no cursor breaks it: up to there the terminal was right,
      and after it it is not. */
  lemma {:induction false} LongRunBreaksRefinement(output: seq<Cell>, frames: seq<Frame>, last: Frame)
    requires AllFit(frames, |output|) && NoLongRuns(output, frames) && Fits(last, |output|) && last.cursor.None?
    requires HasLongRun(ShownLast(output, frames), last.render)
    ensures AllFit(frames + [last], |output|) && AfterFrames(output, output, frames + [last]) != last.render
    decreases |frames|
  {
    var longer := frames + [last];
    if frames == [] {
      assert longer == [last] && longer[1..] == [];
      FrameKeepsTerminalInStep(output, last.render, None);
    } else {
      var f := frames[0];
      assert Fits(f, |output|) && longer[0] == f && longer[1..] == frames[1..] + [last];
      FrameKeepsTerminalInStep(output, f.render, f.cursor);
      LongRunBreaksRefinement(Shown(f.render, f.cursor), frames[1..], last);
    }
  }

  /** On a screen below 2048 cells there are no long runs, so every sequence of frames does. */
  lemma SmallScreensRefineFullRepaint(output: seq<Cell>, frames: seq<Frame>)
    requires |output| < 2048 && AllFit(frames, |output|)
    ensures AfterFrames(output, output, frames) == ShownLast(output, frames)
  {
    NoLongRunsWhenSmall(output, frames);
    FramesRefineFullRepaint(output, frames);
  }

  lemma {:induction false} NoLongRunsWhenSmall(output: seq<Cell>, frames: seq<Frame>)
    requires |output| < 2048 && AllFit(frames, |output|)
    ensures NoLongRuns(output, frames)
    decreases |frames|
  {
    if frames != [] {
      var f := frames[0];
      assert Fits(f, |output|);
      NoLongRunsWhenSmall(Shown(f.render, f.cursor), frames[1..]);
    }
  }

  /** A dropped cell is not repaired by later frames that compose the same content there: the
      output buffer believes it is on the terminal already. */
  lemma DroppedCellStaysStale(terminal: seq<Cell>, output: seq<Cell>, first: Frame, second: Frame, k: nat)
    requires |terminal| == |output| && Fits(first, |output|) && Fits(second, |output|) && k < |output|
    requires Dropped(output, first.render, k) && first.cursor != Some(k) && second.cursor != Some(k)
    requires second.render[k] == first.render[k]
    ensures AllFit([first, second], |output|) && AfterFrames(terminal, output, [first, second])[k] == terminal[k]
  {
    var middle := FrameTerminal(terminal, output, first.render, first.cursor);
    var shown := Shown(first.render, first.cursor);
    assert [first, second][1..] == [second];
    assert AfterFrames(terminal, output, [first, second]) == AfterFrames(middle, shown, [second]);
    var end := FrameTerminal(middle, shown, second.render, second.cursor);
    assert AfterFrames(middle, shown, [second]) == AfterFrames(end, Shown(second.render, second.cursor), []);
    assert middle[k] == terminal[k] && !Changed(shown, second.render, k);
  }
}
