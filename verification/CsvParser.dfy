/** Tables of strings written to and read from comma-separated files.
    Source: common/csv_parser.cpp (`csv_parser::load`, `csv_parser::save`). */
module CsvParser {
  import opened Common

  type Row = seq<string>
  type Table = seq<Row>

  const QUOTE: char := '\"'
  const COMMA: char := ','
  const RETURN: char := '\r'
  const NEWLINE: char := '\n'

  predicate EndsLine(c: char) {
    c == RETURN || c == NEWLINE
  }

  // ---------- saving ----------

  function Doubled(cell: string): string {
    if cell == "" then ""
    else (if cell[0] == QUOTE then [QUOTE, QUOTE] else [cell[0]]) + Doubled(cell[1..])
  }

  function SavedCell(cell: string): string {
    if QUOTE in cell then [QUOTE] + Doubled(cell) + [QUOTE] else cell
  }

  function SavedCells(row: Row): string {
    if row == [] then ""
    else if |row| == 1 then SavedCell(row[0])
    else SavedCell(row[0]) + [COMMA] + SavedCells(row[1..])
  }

  function Saved(table: Table): string {
    if table == [] then "" else SavedCells(table[0]) + [RETURN, NEWLINE] + Saved(table[1..])
  }

  // ---------- loading ----------

  function LineLength(s: string): (n: nat)
    ensures n <= |s| && (n < |s| ==> EndsLine(s[n]))
    ensures forall k :: 0 <= k < n ==> !EndsLine(s[k])
  {
    if s == "" || EndsLine(s[0]) then 0 else 1 + LineLength(s[1..])
  }

  function CommaAt(s: string): (n: nat)
    ensures n <= |s| && (n < |s| ==> s[n] == COMMA)
    ensures forall k :: 0 <= k < n ==> s[k] != COMMA
  {
    if s == "" || s[0] == COMMA then 0 else 1 + CommaAt(s[1..])
  }

  /** The words between the commas; a line ends in a word, possibly an empty one. */
  function Split(line: string): (words: Row)
    ensures |words| >= 1
    decreases |line|
  {
    var n := CommaAt(line);
    if n == |line| then [line] else [line[..n]] + Split(line[n + 1..])
  }

  /** Every run of quotes shrinks to one quote. */
  function Squeezed(s: string): string {
    if |s| < 2 then s
    else if s[0] == QUOTE && s[1] == QUOTE then Squeezed(s[1..])
    else [s[0]] + Squeezed(s[1..])
  }

  function Sanitized(word: string): Option<string> {
    if |word| < 2 then Some(word)
    else if (word[0] == QUOTE) != (word[|word| - 1] == QUOTE) then None
    else if word[0] == QUOTE then Some(Squeezed(word[1..|word| - 1]))
    else Some(word)
  }

  function SanitizedRow(words: Row): Option<Row> {
    if words == [] then Some([])
    else
      var first, rest := Sanitized(words[0]), SanitizedRow(words[1..]);
      if first.None? || rest.None? then None else Some([first.value] + rest.value)
  }

  /** `None` is a file with unmatched quotes. A row of a different width ends the loading, and
      empty lines are skipped. */
  function Loaded(s: string, width: Option<nat>): Option<Table>
    decreases |s|
  {
    var n := LineLength(s);
    if n == 0 then
      if s == "" then Some([]) else Loaded(s[1..], width)
    else
      var words := Split(s[..n]);
      if width.Some? && |words| != width.value then Some([])
      else
        var row := SanitizedRow(words);
        var rest := Loaded(if n < |s| then s[n + 1..] else "", Some(|words|));
        if row.None? || rest.None? then None else Some([row.value] + rest.value)
  }

  // ---------- when a table survives ----------

  predicate NoAdjacentQuotes(s: string) {
    forall k :: 0 <= k < |s| - 1 ==> !(s[k] == QUOTE && s[k + 1] == QUOTE)
  }

  /** No comma and no line end. */
  predicate Plain(s: string) {
    forall k :: 0 <= k < |s| ==> s[k] != COMMA && !EndsLine(s[k])
  }

  predicate PlainRow(row: Row) {
    forall i :: 0 <= i < |row| ==> Plain(row[i])
  }

  predicate StableRow(row: Row) {
    forall i :: 0 <= i < |row| ==> NoAdjacentQuotes(row[i])
  }

  /** All rows have the given width, which is not zero. */
  predicate Uniform(table: Table, width: nat) {
    width > 0 && forall i :: 0 <= i < |table| ==> |table[i]| == width
  }

  predicate PlainTable(table: Table) {
    forall i :: 0 <= i < |table| ==> PlainRow(table[i])
  }

  predicate Survives(table: Table) {
    && (table == [] || Uniform(table, |table[0]|))
    && (forall i :: 0 <= i < |table| ==> PlainRow(table[i]) && StableRow(table[i]) && table[i] != [""])
  }

  // ---------- quotes ----------

  lemma {:induction false} SqueezedKeepsPlain(s: string)
    requires Plain(s)
    ensures Plain(Squeezed(s))
    ensures s != "" ==> Squeezed(s) != "" && Squeezed(s)[0] == s[0]
  {
    if |s| >= 2 {
      assert Plain(s[1..]);
      SqueezedKeepsPlain(s[1..]);
    }
  }

  lemma {:induction false} SqueezedFixpoint(s: string)
    ensures |Squeezed(s)| <= |s|
    ensures Squeezed(s) == s <==> NoAdjacentQuotes(s)
  {
    if |s| >= 2 {
      var rest := s[1..];
      SqueezedFixpoint(rest);
      assert s == [s[0]] + rest;
      assert NoAdjacentQuotes(s) <==> !(s[0] == QUOTE && s[1] == QUOTE) && NoAdjacentQuotes(rest) by {
        if NoAdjacentQuotes(s) {
          forall k | 0 <= k < |rest| - 1 ensures !(rest[k] == QUOTE && rest[k + 1] == QUOTE) {
            assert !(s[k + 1] == QUOTE && s[k + 1 + 1] == QUOTE);
          }
        }
      }
    }
  }

  lemma SqueezedHead(c: char, s: string)
    ensures Squeezed([c] + s) == if c == QUOTE && s != "" && s[0] == QUOTE then Squeezed(s) else [c] + Squeezed(s)
  {
    assert ([c] + s)[1..] == s;
  }

  lemma DoubledHead(s: string)
    ensures s != "" ==> Doubled(s) != "" && Doubled(s)[0] == s[0]
    ensures s == "" ==> Doubled(s) == ""
  {
  }

  /** Doubling the quotes is undone by squeezing, up to the runs the cell had itself. */
  lemma {:induction false} SqueezedDoubled(s: string)
    ensures Squeezed(Doubled(s)) == Squeezed(s)
  {
    if s != "" {
      var rest := s[1..];
      SqueezedDoubled(rest);
      DoubledHead(rest);
      SqueezedHead(s[0], rest);
      assert s == [s[0]] + rest;
      SqueezedHead(s[0], Doubled(rest));
      if s[0] == QUOTE {
        assert Doubled(s) == [QUOTE] + ([QUOTE] + Doubled(rest));
        SqueezedHead(QUOTE, [QUOTE] + Doubled(rest));
      }
    }
  }

  lemma {:induction false} DoubledKeepsPlain(s: string)
    requires Plain(s)
    ensures Plain(Doubled(s)) && |Doubled(s)| >= |s|
  {
    if s != "" {
      assert Plain(s[1..]);
      DoubledKeepsPlain(s[1..]);
    }
  }

  lemma {:induction false} SqueezedWithoutQuotes(s: string)
    requires QUOTE !in s
    ensures Squeezed(s) == s
  {
    SqueezedFixpoint(s);
    assert forall k :: 0 <= k < |s| ==> s[k] in s;
  }

  /** A saved cell is never rejected, and comes back with its quote runs squeezed. */
  lemma SavedCellLoads(cell: string)
    ensures Sanitized(SavedCell(cell)) == Some(Squeezed(cell))
  {
    if QUOTE in cell {
      var saved := SavedCell(cell);
      assert saved[1..|saved| - 1] == Doubled(cell);
      SqueezedDoubled(cell);
    } else {
      SqueezedWithoutQuotes(cell);
      assert forall k :: 0 <= k < |cell| ==> cell[k] in cell;
    }
  }

  /** What sanitizing a word does: it fails on a quote at one end only, takes quotes at both ends off
      and leaves no two adjacent quotes inside them, and does not touch anything else. */
  lemma SanitizedExactly(word: string)
    ensures Sanitized(word).None? <==> |word| >= 2 && (word[0] == '\"') != (word[|word| - 1] == '\"')
    ensures |word| < 2 || (word[0] != '\"' && word[|word| - 1] != '\"') ==> Sanitized(word) == Some(word)
    ensures |word| >= 2 && word[0] == '\"' == word[|word| - 1] ==>
              Sanitized(word) == Some(Squeezed(word[1..|word| - 1])) && NoAdjacentQuotes(Sanitized(word).value)
  {
    if |word| >= 2 {
      SqueezedClean(word[1..|word| - 1]);
    }
  }

  lemma {:induction false} SqueezedClean(s: string)
    ensures NoAdjacentQuotes(Squeezed(s))
    ensures s != "" ==> Squeezed(s) != "" && Squeezed(s)[0] == s[0]
  {
    if |s| >= 2 {
      SqueezedClean(s[1..]);
    }
  }

  // ---------- the file as another program reads it ----------

  /** Section 2 of RFC 4180: inside a quoted field, every quote is written twice. */
  function Unpaired(s: string): Option<string> {
    if s == "" then Some("")
    else if s[0] != '\"' then Before(s[0], Unpaired(s[1..]))
    else if |s| >= 2 && s[1] == '\"' then Before('\"', Unpaired(s[2..]))
    else None
  }

  function Before(c: char, rest: Option<string>): Option<string> {
    if rest.None? then None else Some([c] + rest.value)
  }

  function StandardField(field: string): Option<string> {
    if '\"' !in field then Some(field)
    else if |field| >= 2 && field[0] == '\"' == field[|field| - 1] then Unpaired(field[1..|field| - 1])
    else None
  }

  lemma {:induction false} DoubledIsPaired(cell: string)
    ensures Unpaired(Doubled(cell)) == Some(cell)
  {
    if cell != "" {
      var rest := Doubled(cell[1..]);
      DoubledIsPaired(cell[1..]);
      assert cell == [cell[0]] + cell[1..];
      if cell[0] == '\"' {
        UnpairedPair(rest);
      } else {
        UnpairedOther(cell[0], rest);
      }
    }
  }

  lemma UnpairedPair(rest: string)
    ensures Unpaired(['\"', '\"'] + rest) == Before('\"', Unpaired(rest))
  {
    assert (['\"', '\"'] + rest)[2..] == rest;
  }

  lemma UnpairedOther(c: char, rest: string)
    requires c != '\"'
    ensures Unpaired([c] + rest) == Before(c, Unpaired(rest))
  {
    assert ([c] + rest)[1..] == rest;
  }

  lemma {:induction false} DoubledCount(cell: string)
    ensures multiset(Doubled(cell))['\"'] == 2 * multiset(cell)['\"']
  {
    if cell != "" {
      DoubledCount(cell[1..]);
      assert cell == [cell[0]] + cell[1..];
      assert multiset(cell) == multiset{cell[0]} + multiset(cell[1..]);
    }
  }

  /** Every cell, adjacent quotes included, is written as the field a standard reader takes for it,
      with two quotes for each of its quotes and two around it if it has any. */
  lemma StandardReaderAgrees(cell: string)
    ensures StandardField(SavedCell(cell)) == Some(cell)
    ensures multiset(SavedCell(cell))['\"'] == if '\"' in cell then 2 * multiset(cell)['\"'] + 2 else 0
  {
    var saved := SavedCell(cell);
    DoubledIsPaired(cell);
    DoubledCount(cell);
    if '\"' in cell {
      assert saved[1..|saved| - 1] == Doubled(cell);
    }
  }

  /** Cells are separated by commas. */
  lemma {:induction false} CellsAreSeparated(row: Row, i: nat)
    requires i + 1 < |row|
    ensures SavedCells(row) == SavedCells(row[..i + 1]) + "," + SavedCells(row[i + 1..])
  {
    var first := SavedCell(row[0]) + ",";
    if i == 0 {
      assert row[..1] == [row[0]];
    } else {
      var rest := row[1..];
      CellsAreSeparated(rest, i - 1);
      assert row[..i + 1][1..] == rest[..i] && row[i + 1..] == rest[i..];
      assert first + (SavedCells(rest[..i]) + "," + SavedCells(rest[i..])) == (first + SavedCells(rest[..i])) + "," + SavedCells(rest[i..]);
    }
  }

  /** Every row is a line of its own, ended by CR and LF. */
  lemma {:induction false} RowsAreLines(table: Table, i: nat)
    requires i < |table|
    ensures Saved(table) == Saved(table[..i]) + (SavedCells(table[i]) + "\r\n") + Saved(table[i + 1..])
  {
    if i == 0 {
      assert Saved(table[..0]) == "";
    } else {
      var first, rest := SavedCells(table[0]) + "\r\n", table[1..];
      var line, last := SavedCells(table[i]) + "\r\n", Saved(table[i + 1..]);
      RowsAreLines(rest, i - 1);
      assert table[..i][0] == table[0] && table[..i][1..] == rest[..i - 1] && table[i + 1..] == rest[i..];
      Regroup(first, Saved(rest[..i - 1]) + line, last);
      Regroup(first, Saved(rest[..i - 1]), line);
    }
  }

  lemma SavedCellKeepsPlain(cell: string)
    requires Plain(cell)
    ensures Plain(SavedCell(cell))
    ensures SavedCell(cell) == "" <==> cell == ""
  {
    DoubledKeepsPlain(cell);
  }

  // ---------- lines and words ----------

  predicate NoLineEnd(s: string) {
    forall k :: 0 <= k < |s| ==> !EndsLine(s[k])
  }

  lemma {:induction false} LineStops(line: string, rest: string)
    requires NoLineEnd(line) && (rest != "" ==> EndsLine(rest[0]))
    ensures LineLength(line + rest) == |line|
  {
    if line == "" {
      assert line + rest == rest;
    } else {
      assert (line + rest)[1..] == line[1..] + rest;
      assert NoLineEnd(line[1..]);
      LineStops(line[1..], rest);
    }
  }

  lemma {:induction false} CommaStops(word: string, rest: string)
    requires Plain(word) && (rest != "" ==> rest[0] == COMMA)
    ensures CommaAt(word + rest) == |word|
  {
    if word == "" {
      assert word + rest == rest;
    } else {
      assert (word + rest)[1..] == word[1..] + rest;
      assert Plain(word[1..]);
      CommaStops(word[1..], rest);
    }
  }

  function SavedWords(row: Row): (words: Row)
    ensures |words| == |row|
  {
    if row == [] then [] else [SavedCell(row[0])] + SavedWords(row[1..])
  }

  function SqueezedRow(row: Row): (squeezed: Row)
    ensures |squeezed| == |row|
    ensures forall i :: 0 <= i < |row| ==> squeezed[i] == Squeezed(row[i])
  {
    if row == [] then [] else [Squeezed(row[0])] + SqueezedRow(row[1..])
  }

  lemma SplitFirst(first: string, rest: string)
    requires Plain(first)
    ensures Split(first + [COMMA] + rest) == [first] + Split(rest)
  {
    var line := first + [COMMA] + rest;
    assert line == first + ([COMMA] + rest);
    CommaStops(first, [COMMA] + rest);
    assert line[..|first|] == first && line[|first| + 1..] == rest;
  }

  lemma SplitLast(last: string)
    requires Plain(last)
    ensures Split(last) == [last]
  {
    CommaStops(last, "");
    assert last + "" == last;
  }

  /** Splitting a saved line finds the saved cells again. */
  lemma {:induction false} SplitSaved(row: Row)
    requires row != [] && PlainRow(row)
    ensures Split(SavedCells(row)) == SavedWords(row)
  {
    var first, rest := SavedCell(row[0]), row[1..];
    SavedCellKeepsPlain(row[0]);
    if |row| == 1 {
      SplitLast(first);
      assert SavedWords(row) == [first] + SavedWords([]);
    } else {
      assert PlainRow(rest);
      SplitSaved(rest);
      SplitFirst(first, SavedCells(rest));
    }
  }

  lemma {:induction false} SavedLine(row: Row)
    requires row != [] && PlainRow(row)
    ensures NoLineEnd(SavedCells(row))
    ensures SavedCells(row) == "" <==> row == [""]
  {
    SavedCellKeepsPlain(row[0]);
    if |row| > 1 {
      assert PlainRow(row[1..]);
      SavedLine(row[1..]);
    }
  }

  lemma {:induction false} SanitizedSaved(row: Row)
    ensures SanitizedRow(SavedWords(row)) == Some(SqueezedRow(row))
  {
    if row != [] {
      SavedCellLoads(row[0]);
      SanitizedSaved(row[1..]);
      assert SavedWords(row)[1..] == SavedWords(row[1..]);
    }
  }

  /** What loading makes of a non-empty line: the line feed leaves an empty line behind. */
  lemma LoadedLine(line: string, tail: string, width: Option<nat>)
    requires line != "" && NoLineEnd(line) && (width.Some? ==> width.value == |Split(line)|)
    ensures var row, rest := SanitizedRow(Split(line)), Loaded(tail, Some(|Split(line)|));
            Loaded(line + [RETURN, NEWLINE] + tail, width) == if row.None? || rest.None? then None else Some([row.value] + rest.value)
  {
    LineParts(line, tail);
    SkipEmptyLine(NEWLINE, tail, Some(|Split(line)|));
  }

  /** A line at the start of a file, and what is left after its first end character. */
  lemma LineParts(line: string, tail: string)
    requires NoLineEnd(line)
    ensures var s := line + [RETURN, NEWLINE] + tail;
            LineLength(s) == |line| && s[..|line|] == line && s[|line| + 1..] == [NEWLINE] + tail
  {
    var end := [RETURN, NEWLINE] + tail;
    assert line + [RETURN, NEWLINE] + tail == line + end;
    LineStops(line, end);
  }

  lemma LoadedEmptyLine(tail: string, width: Option<nat>)
    ensures Loaded("" + [RETURN, NEWLINE] + tail, width) == Loaded(tail, width)
  {
    assert "" + [RETURN, NEWLINE] + tail == [RETURN] + ([NEWLINE] + tail);
    SkipEmptyLine(RETURN, [NEWLINE] + tail, width);
    SkipEmptyLine(NEWLINE, tail, width);
  }

  lemma SkipEmptyLine(end: char, tail: string, width: Option<nat>)
    requires EndsLine(end)
    ensures Loaded([end] + tail, width) == Loaded(tail, width)
  {
    assert ([end] + tail)[1..] == tail;
  }

  /** The rows that come back from a saved table with plain cells: squeezed, without those that
      were written as empty lines. */
  function Kept(table: Table): Table {
    if table == [] then []
    else (if table[0] == [""] then [] else [SqueezedRow(table[0])]) + Kept(table[1..])
  }

  /** Loading the rows of a saved table, and going on with what follows them in the file. */
  lemma {:induction false} LoadedSavedThen(table: Table, w: nat, width: Option<nat>, tail: string)
    requires Uniform(table, w) && PlainTable(table) && (width.Some? ==> width.value == w)
    ensures Loaded(Saved(table) + tail, width)
            == Prefixed(Kept(table), Loaded(tail, if Kept(table) == [] then width else Some(w)))
  {
    if table == [] {
      assert Saved(table) + tail == tail;
      PrefixedNothing(Loaded(tail, width));
    } else {
      var rest := table[1..];
      assert |table[0]| == w && PlainRow(table[0]);
      assert Uniform(rest, w) && PlainTable(rest);
      assert Saved(table) + tail == SavedCells(table[0]) + [RETURN, NEWLINE] + (Saved(rest) + tail);
      SavedLine(table[0]);
      if table[0] == [""] {
        LoadedSavedThen(rest, w, width, tail);
        LoadedEmptyLine(Saved(rest) + tail, width);
        assert Kept(table) == Kept(rest);
      } else {
        LoadedSavedThen(rest, w, Some(w), tail);
        SplitSaved(table[0]);
        SanitizedSaved(table[0]);
        LoadedLine(SavedCells(table[0]), Saved(rest) + tail, width);
        PrefixedTwice(SqueezedRow(table[0]), Kept(rest), Loaded(tail, Some(w)));
      }
    }
  }

  lemma LoadedSaved(table: Table, w: nat, width: Option<nat>)
    requires Uniform(table, w) && PlainTable(table) && (width.Some? ==> width.value == w)
    ensures Loaded(Saved(table), width) == Some(Kept(table))
  {
    LoadedSavedThen(table, w, width, "");
    assert Saved(table) + "" == Saved(table) && Kept(table) + [] == Kept(table);
  }

  /** CR and LF each end a line, and what is left after it is loaded next; so does the end of the file. */
  lemma AnyLineEnd(line: string, end: char, tail: string, width: Option<nat>)
    requires line != "" && NoLineEnd(line) && (width.Some? ==> width.value == |Split(line)|)
    requires end == '\r' || end == '\n'
    ensures var row, rest := SanitizedRow(Split(line)), Loaded(tail, Some(|Split(line)|));
            Loaded(line + [end] + tail, width) == if row.None? || rest.None? then None else Some([row.value] + rest.value)
  {
    var s := line + [end] + tail;
    assert s == line + ([end] + tail);
    LineStops(line, [end] + tail);
    assert s[..|line|] == line && s[|line| + 1..] == tail;
  }

  lemma LastLine(line: string, width: Option<nat>)
    requires line != "" && NoLineEnd(line) && (width.Some? ==> width.value == |Split(line)|)
    ensures var row := SanitizedRow(Split(line));
            Loaded(line, width) == if row.None? then None else Some([row.value])
  {
    LineStops(line, "");
    assert line + "" == line && line[..|line|] == line;
    if SanitizedRow(Split(line)).Some? {
      assert [SanitizedRow(Split(line)).value] + [] == [SanitizedRow(Split(line)).value];
    }
  }

  /** A row of another width ends the loading: the rows before it are kept, everything from it on is
      ignored, whatever it is. */
  lemma OtherWidthStops(table: Table, w: nat, row: Row, tail: string)
    requires Uniform(table, w) && PlainTable(table) && Kept(table) != []
    requires row != [] && row != [""] && PlainRow(row) && |row| != w
    ensures Loaded(Saved(table) + (SavedCells(row) + "\r\n" + tail), None) == Some(Kept(table))
  {
    LoadedSavedThen(table, w, None, SavedCells(row) + "\r\n" + tail);
    SavedLine(row);
    SplitSaved(row);
    OtherWidthLine(SavedCells(row), tail, w);
    assert Kept(table) + [] == Kept(table);
  }

  lemma OtherWidthLine(line: string, tail: string, w: nat)
    requires line != "" && NoLineEnd(line) && |Split(line)| != w
    ensures Loaded(line + "\r\n" + tail, Some(w)) == Some([])
  {
    LineParts(line, tail);
    assert line + [RETURN, NEWLINE] + tail == line + "\r\n" + tail;
  }

  /** A word with a quote at one end only makes the whole file fail. */
  lemma UnmatchedQuotesFail(line: string, tail: string, width: Option<nat>, i: nat)
    requires line != "" && NoLineEnd(line) && (width.Some? ==> width.value == |Split(line)|)
    requires i < |Split(line)| && Sanitized(Split(line)[i]).None?
    ensures Loaded(line + "\r\n" + tail, width) == None
  {
    LoadedLine(line, tail, width);
    assert line + [RETURN, NEWLINE] + tail == line + "\r\n" + tail;
    UnmatchedRowFails(Split(line), i);
  }

  lemma {:induction false} UnmatchedRowFails(words: Row, i: nat)
    requires i < |words| && Sanitized(words[i]).None?
    ensures SanitizedRow(words) == None
  {
    if i > 0 {
      UnmatchedRowFails(words[1..], i - 1);
    }
  }

  lemma {:induction false} KeptIsWhole(table: Table)
    ensures |Kept(table)| <= |table|
    ensures Kept(table) == table <==> forall i :: 0 <= i < |table| ==> StableRow(table[i]) && table[i] != [""]
  {
    if table != [] {
      var rest := table[1..];
      KeptIsWhole(rest);
      SqueezedRowFixpoint(table[0]);
      assert table == [table[0]] + rest;
      assert forall i :: 0 <= i < |rest| ==> rest[i] == table[i + 1];
      if table[0] == [""] {
        assert |Kept(table)| < |table|;
      } else {
        assert Kept(table)[0] == SqueezedRow(table[0]) && Kept(table)[1..] == Kept(rest);
        assert Kept(table) == table <==> SqueezedRow(table[0]) == table[0] && Kept(rest) == rest;
        assert (forall i :: 0 <= i < |table| ==> StableRow(table[i]) && table[i] != [""])
               <==> StableRow(table[0]) && forall i :: 0 <= i < |rest| ==> StableRow(rest[i]) && rest[i] != [""];
      }
    }
  }

  lemma SqueezedRowFixpoint(row: Row)
    ensures SqueezedRow(row) == row <==> StableRow(row)
  {
    forall i | 0 <= i < |row| ensures SqueezedRow(row)[i] == row[i] <==> NoAdjacentQuotes(row[i]) {
      SqueezedFixpoint(row[i]);
    }
  }

  // ---------- the shape of whatever is loaded ----------

  lemma {:induction false} SplitIsPlain(line: string)
    requires NoLineEnd(line)
    ensures PlainRow(Split(line))
    decreases |line|
  {
    var n := CommaAt(line);
    if n < |line| {
      assert NoLineEnd(line[n + 1..]);
      SplitIsPlain(line[n + 1..]);
    }
  }

  lemma SanitizedIsPlain(word: string)
    requires Plain(word) && Sanitized(word).Some?
    ensures Plain(Sanitized(word).value)
  {
    if |word| >= 2 {
      assert Plain(word[1..|word| - 1]);
      SqueezedKeepsPlain(word[1..|word| - 1]);
    }
  }

  lemma {:induction false} SanitizedRowIsPlain(words: Row)
    requires PlainRow(words) && SanitizedRow(words).Some?
    ensures PlainRow(SanitizedRow(words).value) && |SanitizedRow(words).value| == |words|
  {
    if words != [] {
      SanitizedIsPlain(words[0]);
      assert PlainRow(words[1..]);
      SanitizedRowIsPlain(words[1..]);
    }
  }

  /** Every loaded table has rows of one nonzero width and plain cells. */
  lemma {:induction false} LoadedShape(s: string, width: Option<nat>) returns (w: nat)
    requires Loaded(s, width).Some?
    ensures Shape(Loaded(s, width).value, w) && (width.Some? && Loaded(s, width).value != [] ==> w == width.value)
    decreases |s|
  {
    var n := LineLength(s);
    w := if width.Some? then width.value else 0;
    if n == 0 {
      if s != "" {
        w := LoadedShape(s[1..], width);
      }
    } else {
      var words := Split(s[..n]);
      if !(width.Some? && |words| != width.value) {
        var rest := if n < |s| then s[n + 1..] else "";
        var row, rows := SanitizedRow(words).value, Loaded(rest, Some(|words|)).value;
        SplitIsPlain(s[..n]);
        SanitizedRowIsPlain(words);
        var v := LoadedShape(rest, Some(|words|));
        ShapeOfRows(row, rows, |words|);
        w := |words|;
      }
    }
  }

  /** Rows of one nonzero width with plain cells. */
  predicate Shape(table: Table, w: nat) {
    PlainTable(table) && (table != [] ==> Uniform(table, w))
  }

  lemma ShapeOfRows(row: Row, rows: Table, w: nat)
    requires w > 0 && |row| == w && PlainRow(row) && Shape(rows, w)
    ensures Shape([row] + rows, w)
  {
  }

  /** The exact domain of the round trip: loading a saved table gives the table back if and only
      if its rows have one nonzero width, no row is a single empty cell, and no cell holds a
      comma, a line end or two adjacent quotes. */
  lemma RoundTripExact(table: Table)
    ensures Loaded(Saved(table), None) == Some(table) <==> Survives(table)
  {
    if Loaded(Saved(table), None) == Some(table) {
      var w := LoadedShape(Saved(table), None);
      if table != [] {
        assert w == |table[0]|;
        LoadedSaved(table, w, None);
        KeptIsWhole(table);
      }
    } else if Survives(table) && table != [] {
      LoadedSaved(table, |table[0]|, None);
      KeptIsWhole(table);
      assert false;
    }
  }

  // ---------- the parser object ----------

  class CsvParser {
    var contents: Table

    constructor ()
      ensures contents == []
    {
      contents := [];
    }

    method Clear()
      modifies this
      ensures contents == []
    {
      contents := [];
    }

    method Save() returns (file: string)
      ensures file == Saved(contents)
    {
      file := "";
      for counter := 0 to |contents|
        invariant file + Saved(contents[counter..]) == Saved(contents)
      {
        var line := SaveRow(contents[counter]);
        assert contents[counter..][1..] == contents[counter + 1..];
        file := file + (line + [RETURN, NEWLINE]);
      }
    }

    method SaveRow(row: Row) returns (line: string)
      ensures line == SavedCells(row)
    {
      line := "";
      for counter := 0 to |row|
        invariant line + SavedCells(row[counter..]) == SavedCells(row)
      {
        var cell := SaveCell(row[counter]);
        assert row[counter..][1..] == row[counter + 1..];
        if counter != |row| - 1 {
          cell := cell + [COMMA];
        } else {
          assert row[counter..] == [row[counter]];
        }
        line := line + cell;
      }
    }

    method SaveCell(cell: string) returns (text: string)
      ensures text == SavedCell(cell)
    {
      var hasQuotes := QUOTE in cell;
      text := "";
      for counter := 0 to |cell|
        invariant text + Doubled(cell[counter..]) == Doubled(cell)
        invariant !hasQuotes ==> text == cell[..counter]
      {
        DoubledStep(text, cell[counter..]);
        assert cell[counter..][1..] == cell[counter + 1..];
        if cell[counter] != QUOTE {
          text := text + [cell[counter]];
        } else {
          text := text + [QUOTE, QUOTE];
        }
      }
      if hasQuotes {
        text := [QUOTE] + text + [QUOTE];
      }
    }

    /** Rows are added to what the parser holds already; on unmatched quotes everything is lost. */
    method Load(file: string) returns (ok: bool)
      modifies this
      ensures ok == Loaded(file, None).Some?
      ensures contents == if ok then old(contents) + Loaded(file, None).value else []
    {
      var position := 0;
      var width: Option<nat> := None;
      ghost var rows: Table := [];
      assert file[0..] == file;
      PrefixedNothing(Loaded(file, None));
      while position < |file|
        invariant position <= |file|
        invariant contents == old(contents) + rows
        invariant Loaded(file, None) == Prefixed(rows, Loaded(file[position..], width))
        decreases |file| - position
      {
        var line, next := ReadLine(file, position);
        LoadedUnfolds(file, position, width, line, next);
        if line != "" {
          var words := SplitLine(line);
          if width.None? {
            width := Some(|words|);
          } else if |words| != width.value {
            return true;
          }
          var row := SanitizeRow(words);
          if row.None? {
            contents := [];
            return false;
          }
          contents := contents + [row.value];
          PrefixedStep(rows, row.value, Loaded(file[next..], width));
          rows := rows + [row.value];
        }
        position := next;
      }
      ok := true;
    }

    method ReadLine(file: string, position: nat) returns (line: string, next: nat)
      requires position < |file|
      ensures line == file[position..][..LineLength(file[position..])]
      ensures next == Min(position + |line| + 1, |file|)
    {
      line := "";
      next := position;
      ghost var s := file[position..];
      while next < |file|
        invariant next <= |file| && line == s[..next - position]
        invariant forall k :: 0 <= k < next - position ==> !EndsLine(s[k])
      {
        var current := file[next];
        next := next + 1;
        if EndsLine(current) { return; }
        line := line + [current];
      }
    }

    method SplitLine(line: string) returns (words: Row)
      requires line != ""
      ensures words == Split(line)
    {
      words := [];
      var index := 0;
      while true
        invariant index <= |line|
        invariant words + Split(line[index..]) == Split(line)
        decreases |line| - index
      {
        var n: Option<nat> := FindComma(line, index);
        if n.None? {
          words := words + [line[index..]];
          return;
        }
        var word, next := line[index..n.value], n.value + 1;
        SplitUnfolds(line, index, n.value);
        MoveFirst(words, Split(line[index..]), word, Split(line[next..]));
        words := words + [word];
        index := next;
      }
    }

    method FindComma(line: string, index: nat) returns (n: Option<nat>)
      requires index <= |line|
      ensures n == if CommaAt(line[index..]) == |line| - index then None else Some(index + CommaAt(line[index..]))
    {
      ghost var rest := line[index..];
      for k := index to |line|
        invariant forall i :: 0 <= i < k - index ==> rest[i] != COMMA
      {
        if line[k] == COMMA {
          assert rest[k - index] == COMMA;
          return Some(k);
        }
      }
      n := None;
    }

    method SanitizeRow(words: Row) returns (row: Option<Row>)
      ensures row == SanitizedRow(words)
    {
      var done: Row := [];
      assert words[0..] == words;
      PrefixedRowNothing(SanitizedRow(words));
      for counter := 0 to |words|
        invariant SanitizedRow(words) == PrefixedRow(done, SanitizedRow(words[counter..]))
      {
        assert words[counter..][1..] == words[counter + 1..];
        var word := SanitizeWord(words[counter]);
        if word.None? { return None; }
        PrefixedRowStep(done, word.value, SanitizedRow(words[counter + 1..]));
        done := done + [word.value];
      }
      assert done + [] == done;
      row := Some(done);
    }

    /** The quotes around a word go, and as long as two quotes are next to each other, the first
        of them is erased. */
    method SanitizeWord(word: string) returns (clean: Option<string>)
      ensures clean == Sanitized(word)
    {
      if |word| < 2 { return Some(word); }
      if (word[0] == QUOTE) != (word[|word| - 1] == QUOTE) { return None; }
      if word[0] != QUOTE { return Some(word); }
      var w := word[1..|word| - 1];
      ghost var inner := w;
      var at: Option<nat> := FindAdjacentQuotes(w);
      while at.Some?
        invariant Squeezed(w) == Squeezed(inner)
        invariant at.None? ==> NoAdjacentQuotes(w)
        invariant at.Some? ==> at.value + 1 < |w| && w[at.value] == QUOTE && w[at.value + 1] == QUOTE
        decreases |w|, at.Some?
      {
        EraseKeepsSqueezed(w, at.value);
        w := w[..at.value] + w[at.value + 1..];
        at := FindAdjacentQuotes(w);
      }
      SqueezedFixpoint(w);
      clean := Some(w);
    }

    method FindAdjacentQuotes(s: string) returns (at: Option<nat>)
      ensures at.None? ==> NoAdjacentQuotes(s)
      ensures at.Some? ==> at.value + 1 < |s| && s[at.value] == QUOTE && s[at.value + 1] == QUOTE
    {
      var k := 0;
      while k + 1 < |s|
        invariant forall i :: 0 <= i < k && i < |s| - 1 ==> !(s[i] == QUOTE && s[i + 1] == QUOTE)
      {
        if s[k] == QUOTE && s[k + 1] == QUOTE { return Some(k); }
        k := k + 1;
      }
      at := None;
    }
  }

  function Prefixed(rows: Table, rest: Option<Table>): Option<Table> {
    if rest.None? then None else Some(rows + rest.value)
  }

  function PrefixedRow(done: Row, rest: Option<Row>): Option<Row> {
    if rest.None? then None else Some(done + rest.value)
  }

  /** What loading does with the line at a position of the file. */
  lemma LoadedUnfolds(file: string, position: nat, width: Option<nat>, line: string, next: nat)
    requires position < |file| && line == file[position..][..LineLength(file[position..])]
    requires next == Min(position + |line| + 1, |file|)
    ensures var all, words := Loaded(file[position..], width), Split(line);
            if line == "" then all == Loaded(file[next..], width)
            else if width.Some? && |words| != width.value then all == Some([])
            else if SanitizedRow(words).None? then all == None
            else all == Prefixed([SanitizedRow(words).value], Loaded(file[next..], Some(|words|)))
  {
    var rest := file[position..];
    assert file[next..] == if |line| < |rest| then rest[|line| + 1..] else "";
  }

  lemma PrefixedNothing(rest: Option<Table>)
    ensures Prefixed([], rest) == rest
  {
    if rest.Some? {
      assert [] + rest.value == rest.value;
    }
  }

  lemma PrefixedTwice(row: Row, rows: Table, rest: Option<Table>)
    ensures Prefixed([row], Prefixed(rows, rest)) == Prefixed([row] + rows, rest)
  {
    if rest.Some? {
      Regroup([row], rows, rest.value);
    }
  }

  lemma PrefixedRowNothing(rest: Option<Row>)
    ensures PrefixedRow([], rest) == rest
  {
    if rest.Some? {
      assert [] + rest.value == rest.value;
    }
  }

  lemma SplitUnfolds(line: string, index: nat, n: nat)
    requires index <= n < |line| && n == index + CommaAt(line[index..])
    ensures Split(line[index..]) == [line[index..n]] + Split(line[n + 1..])
  {
    var rest := line[index..];
    assert rest[..n - index] == line[index..n] && rest[n - index + 1..] == line[n + 1..];
  }

  lemma MoveFirst(words: Row, all: Row, first: string, rest: Row)
    requires all == [first] + rest
    ensures words + all == (words + [first]) + rest
  {
  }

  /** One more character of a cell written out. */
  lemma DoubledStep(text: string, rest: string)
    requires rest != ""
    ensures text + Doubled(rest) == text + (if rest[0] == QUOTE then [QUOTE, QUOTE] else [rest[0]]) + Doubled(rest[1..])
  {
    Regroup(text, if rest[0] == QUOTE then [QUOTE, QUOTE] else [rest[0]], Doubled(rest[1..]));
  }

  lemma PrefixedStep(rows: Table, row: Row, rest: Option<Table>)
    ensures Prefixed(rows, Prefixed([row], rest)) == Prefixed(rows + [row], rest)
  {
    if rest.Some? {
      assert rows + ([row] + rest.value) == rows + [row] + rest.value;
    }
  }

  lemma PrefixedRowStep(done: Row, word: string, rest: Option<Row>)
    ensures PrefixedRow(done, PrefixedRow([word], rest)) == PrefixedRow(done + [word], rest)
  {
    if rest.Some? {
      assert done + ([word] + rest.value) == done + [word] + rest.value;
    }
  }

  /** Erasing one of two adjacent quotes leaves the squeezed string alone. */
  lemma {:induction false} EraseKeepsSqueezed(s: string, at: nat)
    requires at + 1 < |s| && s[at] == QUOTE && s[at + 1] == QUOTE
    ensures Squeezed(s[..at] + s[at + 1..]) == Squeezed(s)
  {
    if at == 0 {
      assert s[..0] + s[1..] == s[1..];
    } else {
      var rest := s[1..];
      var erased := rest[..at - 1] + rest[at..];
      EraseKeepsSqueezed(rest, at - 1);
      assert s[..at] + s[at + 1..] == [s[0]] + erased;
      assert s == [s[0]] + rest && erased[0] == rest[0];
      SqueezedHead(s[0], erased);
      SqueezedHead(s[0], rest);
    }
  }
}
