/** A screen is a window on the unbounded transcript of what was written to it. */
module Transcript {
  import opened Memory
  import opened Screens

  type Line = seq<Byte>

  /** What is written to the screen outside line editing. */
  predicate IsText(c: Byte) { c != TAB && c != BACKSPACE }

  /** The transcript after one more character; the last line is the current one. */
  function Typed(lines: seq<Line>, c: Byte): (r: seq<Line>)
    requires |lines| > 0
    ensures |r| > 0
  {
    if IsNewline(c) then lines + [[]] else lines[|lines| - 1 := lines[|lines| - 1] + [c]]
  }

  function TypedAll(lines: seq<Line>, cs: seq<Byte>): (r: seq<Line>)
    requires |lines| > 0
    ensures |r| > 0
    decreases |cs|
  {
    if cs == [] then lines else TypedAll(Typed(lines, cs[0]), cs[1..])
  }

  /** The transcript of a stream, from an empty page. */
  function History(cs: seq<Byte>): seq<Line> { TypedAll([[]], cs) }

  function LineAt(lines: seq<Line>, i: nat): Line { if i < |lines| then lines[i] else [] }

  /** A line as a row of the screen: its characters, then blanks. */
  function Glyphs(line: Line): (r: seq<Byte>)
    ensures |r| == ROW_BYTES
  {
    seq(ROW_BYTES, i requires 0 <= i < ROW_BYTES =>
      if i % 2 == 1 then ATTRIB else if i / 2 < |line| then line[i / 2] else SPACE)
  }

  function Row(cells: seq<Byte>, r: nat): seq<Byte>
    requires |cells| == SCREEN_BYTES && r < ROWS
  {
    cells[ROW_BYTES * r..ROW_BYTES * r + ROW_BYTES]
  }

  /** The number of transcript lines that have left the screen at the top. */
  function Above(s: Screen, lines: seq<Line>): int { |lines| - 1 - s.y }

  /** Column `j` of a line that goes round in its row: the last character that was put there. */
  function LastAt(line: Line, j: nat): Byte
    requires j < COLS
  {
    if |line| <= j then SPACE else line[j + COLS * ((|line| - 1 - j) / COLS)]
  }

  /** What a row holds of a line of any length: after 80 characters it starts over. */
  function Folded(line: Line): (r: Line)
    ensures |r| == if |line| < COLS then |line| else COLS
  {
    seq(if |line| < COLS then |line| else COLS, j requires 0 <= j < COLS => LastAt(line, j))
  }

  /** Every column within the line holds the character that the line has there. */
  predicate Legible(line: Line) { forall j | 0 <= j < COLS && j < |line| :: LastAt(line, j) == line[j] }

  /** The rows are consecutive lines of the transcript, from line `above` on, as far as they fit. */
  ghost predicate RowsShow(cells: seq<Byte>, lines: seq<Line>, above: nat) {
    |cells| == SCREEN_BYTES && forall r: nat | r < ROWS :: Row(cells, r) == Glyphs(LineAt(lines, above + r))
  }

  /** The rows are those lines, folded. */
  ghost predicate RowsFold(cells: seq<Byte>, lines: seq<Line>, above: nat) {
    |cells| == SCREEN_BYTES && forall r: nat | r < ROWS :: Row(cells, r) == Glyphs(Folded(LineAt(lines, above + r)))
  }

  /** The cursor stands behind the last character of the last line; past the bottom that line is still empty. */
  predicate CursorAt(x: int, y: int, last: Line) { x == |last| % COLS && (y == ROWS ==> last == []) }

  /** The window is on the last lines there are. With the cursor past the bottom the new line, still empty, is not
      in it. */
  predicate Placed(s: Screen, lines: seq<Line>) {
    && Ok(s) && |lines| > 0
    && Above(s, lines) >= 0 && (Above(s, lines) > 0 ==> s.y >= ROWS - 1)
    && CursorAt(s.x, s.y, lines[|lines| - 1])
  }

  /** The screen is the window on the lines, folded. */
  ghost predicate Folds(s: Screen, lines: seq<Line>) {
    Placed(s, lines) && RowsFold(s.cells, lines, Above(s, lines))
  }

  /** The screen is the window on the lines themselves. */
  ghost predicate Shows(s: Screen, lines: seq<Line>) {
    Placed(s, lines) && RowsShow(s.cells, lines, Above(s, lines))
  }

  /** The lines in the window are legible. */
  ghost predicate WindowLegible(s: Screen, lines: seq<Line>)
    requires Placed(s, lines)
  {
    AllLegible(lines, Above(s, lines))
  }

  ghost predicate AllLegible(lines: seq<Line>, above: nat) {
    forall i: nat | above <= i < above + ROWS :: Legible(LineAt(lines, i))
  }

  // ----- folding -----

  /** The place of column `j` in a line of one more character. */
  lemma {:induction false} NextTurn(n: nat, j: nat)
    requires j < COLS && j <= n
    ensures j == n % COLS <==> j + COLS * ((n - j) / COLS) == n
    ensures j < n && j != n % COLS ==> (n - j) / COLS == (n - 1 - j) / COLS
  {
    var q, r := (n - j) / COLS, (n - j) % COLS;
    assert n - j == COLS * q + r;
  }

  lemma {:induction false} FoldAppend(line: Line, c: Byte, j: nat)
    requires j < COLS
    ensures LastAt(line + [c], j) == if j == |line| % COLS then c else LastAt(line, j)
  {
    if j <= |line| {
      NextTurn(|line|, j);
    }
  }

  /** A row with the next character of its line stored where the cursor stands. */
  lemma {:induction false} GlyphsFold(line: Line, c: Byte)
    ensures var x := |line| % COLS;
            Glyphs(Folded(line))[2 * x := c][2 * x + 1 := ATTRIB] == Glyphs(Folded(line + [c]))
  {
    var x := |line| % COLS;
    var a, b := Glyphs(Folded(line))[2 * x := c][2 * x + 1 := ATTRIB], Glyphs(Folded(line + [c]));
    forall i | 0 <= i < ROW_BYTES ensures a[i] == b[i] {
      FoldAppend(line, c, i / 2);
      hide LastAt;
    }
  }

  lemma {:induction false} ShortIsLegible(line: Line)
    requires |line| <= COLS
    ensures Legible(line)
  {
  }

  lemma {:induction false} LegibleRow(line: Line)
    ensures Glyphs(Folded(line)) == Glyphs(line) <==> Legible(line)
  {
    hide LastAt;
    if Glyphs(Folded(line)) == Glyphs(line) {
      forall j | 0 <= j < COLS && j < |line| ensures LastAt(line, j) == line[j] {
        assert Glyphs(Folded(line))[2 * j] == Glyphs(line)[2 * j];
      }
    }
  }

  /** Folded rows show their lines exactly when these are legible. */
  lemma {:induction false} FoldedRows(cells: seq<Byte>, lines: seq<Line>, above: nat)
    requires RowsFold(cells, lines, above)
    ensures RowsShow(cells, lines, above) <==> AllLegible(lines, above)
  {
    hide Row, Glyphs, Folded, Legible, LineAt;
    if AllLegible(lines, above) {
      forall r: nat | r < ROWS ensures Row(cells, r) == Glyphs(LineAt(lines, above + r)) {
        LegibleRow(LineAt(lines, above + r));
      }
    }
    if RowsShow(cells, lines, above) {
      forall i: nat | above <= i < above + ROWS ensures Legible(LineAt(lines, i)) {
        LegibleRow(LineAt(lines, i));
        assert Row(cells, i - above) == Glyphs(LineAt(lines, above + (i - above)));
        assert Row(cells, i - above) == Glyphs(Folded(LineAt(lines, above + (i - above))));
      }
    }
  }

  /** A folded window shows its lines exactly when the ones in it are legible. */
  lemma {:induction false} FoldedShows(s: Screen, lines: seq<Line>)
    requires Folds(s, lines)
    ensures Placed(s, lines) && (Shows(s, lines) <==> WindowLegible(s, lines))
  {
    FoldedRows(s.cells, lines, Above(s, lines));
  }

  // ----- one character -----

  lemma {:induction false} RowScrolled(cells: seq<Byte>, r: nat)
    requires |cells| == SCREEN_BYTES && r < ROWS
    ensures Row(ScrolledCells(cells), r) == if r < ROWS - 1 then Row(cells, r + 1) else Glyphs(Folded([]))
  {
    assert BlankRow() == Glyphs(Folded([]));
  }

  lemma {:induction false} RowStored(cells: seq<Byte>, x: nat, y: nat, c: Byte, r: nat)
    requires |cells| == SCREEN_BYTES && x < COLS && y < ROWS && r < ROWS
    ensures Row(Stored(cells, COLS * y + x, c), r) ==
            if r == y then Row(cells, y)[2 * x := c][2 * x + 1 := ATTRIB] else Row(cells, r)
  {
  }

  lemma {:induction false} ScrollShows(s: Screen, lines: seq<Line>)
    requires Folds(s, lines)
    ensures Folds(Ready(s), lines) && Ready(s).y < ROWS
  {
    if s.y == ROWS {
      ScrollBlank(s.cells, lines, Above(s, lines));
    }
    hide RowsFold, ScrolledCells;
  }

  /** The scroll brings in the last line, still empty: the row it gets is blank. */
  lemma {:induction false} ScrollBlank(cells: seq<Byte>, lines: seq<Line>, above: nat)
    requires RowsFold(cells, lines, above) && |lines| == above + ROWS + 1 && lines[|lines| - 1] == []
    ensures RowsFold(ScrolledCells(cells), lines, above + 1)
  {
    hide Row, Glyphs, Folded, ScrolledCells;
    forall r: nat | r < ROWS ensures Row(ScrolledCells(cells), r) == Glyphs(Folded(LineAt(lines, above + 1 + r))) {
      RowScrolled(cells, r);
      if r < ROWS - 1 {
        assert Row(cells, r + 1) == Glyphs(Folded(LineAt(lines, above + (r + 1))));
      }
    }
  }

  lemma {:induction false} NewlineFolds(s: Screen, lines: seq<Line>, c: Byte)
    requires Folds(s, lines) && s.y < ROWS && IsNewline(c)
    ensures Folds(Put(s, c), Typed(lines, c))
  {
    hide Row, Glyphs, Folded;
    var p, after := Put(s, c), Typed(lines, c);
    forall r: nat | r < ROWS ensures Row(p.cells, r) == Glyphs(Folded(LineAt(after, Above(p, after) + r))) {
      assert Row(s.cells, r) == Glyphs(Folded(LineAt(lines, Above(s, lines) + r)));
    }
  }

  /** A printable character behind the last line, row by row. */
  lemma {:induction false} PrintableRow(cells: seq<Byte>, lines: seq<Line>, above: nat, y: nat, c: Byte, r: nat)
    requires |cells| == SCREEN_BYTES && y < ROWS && r < ROWS && |lines| == above + y + 1 && !IsNewline(c)
    requires Row(cells, r) == Glyphs(Folded(LineAt(lines, above + r)))
    ensures Row(Stored(cells, COLS * y + |lines[|lines| - 1]| % COLS, c), r)
            == Glyphs(Folded(LineAt(Typed(lines, c), above + r)))
  {
    var last := lines[|lines| - 1];
    RowStored(cells, |last| % COLS, y, c, r);
    GlyphsFold(last, c);
    hide Row, Glyphs, Folded, Stored;
    if r != y {
      assert LineAt(Typed(lines, c), above + r) == LineAt(lines, above + r);
    }
  }

  lemma {:induction false} PrintablePlaced(s: Screen, lines: seq<Line>, c: Byte)
    requires Placed(s, lines) && s.y < ROWS && IsText(c) && !IsNewline(c)
    ensures Placed(Put(s, c), Typed(lines, c)) && Above(Put(s, c), Typed(lines, c)) == Above(s, lines)
    ensures Put(s, c).cells == Stored(s.cells, COLS * s.y + |lines[|lines| - 1]| % COLS, c)
  {
    hide Stored;
  }

  lemma {:induction false} PrintableRows(cells: seq<Byte>, lines: seq<Line>, above: nat, y: nat, c: Byte)
    requires RowsFold(cells, lines, above) && y < ROWS && |lines| == above + y + 1 && !IsNewline(c)
    ensures RowsFold(Stored(cells, COLS * y + |lines[|lines| - 1]| % COLS, c), Typed(lines, c), above)
  {
    hide Row, Glyphs, Folded, Stored, LineAt, Typed;
    var now := Stored(cells, COLS * y + |lines[|lines| - 1]| % COLS, c);
    forall r: nat | r < ROWS ensures Row(now, r) == Glyphs(Folded(LineAt(Typed(lines, c), above + r))) {
      PrintableRow(cells, lines, above, y, c, r);
    }
  }

  lemma {:induction false} PrintableFolds(s: Screen, lines: seq<Line>, c: Byte)
    requires Folds(s, lines) && s.y < ROWS && IsText(c) && !IsNewline(c)
    ensures Folds(Put(s, c), Typed(lines, c))
  {
    PrintablePlaced(s, lines, c);
    PrintableRows(s.cells, lines, Above(s, lines), s.y, c);
    hide RowsFold, Stored, Put, Typed;
  }

  /** One character, on a line of any length: the window moves with the transcript. */
  lemma {:induction false} PutShows(s: Screen, lines: seq<Line>, c: Byte)
    requires Folds(s, lines) && IsText(c)
    ensures Folds(Put(s, c), Typed(lines, c))
  {
    hide RowsFold, Stored;
    ScrollShows(s, lines);
    assert Put(s, c) == Put(Ready(s), c);
    if IsNewline(c) { NewlineFolds(Ready(s), lines, c); } else { PrintableFolds(Ready(s), lines, c); }
  }

  /** Behind 80 characters or more a character replaces one of its own line, 80 or a multiple of it before. */
  lemma {:induction false} OverlongLineOverwrites(s: Screen, lines: seq<Line>, c: Byte)
    requires Folds(s, lines) && IsText(c) && !IsNewline(c) && |lines[|lines| - 1]| >= COLS
    ensures var last := lines[|lines| - 1];
            && s.y < ROWS
            && Row(Put(s, c).cells, s.y) == Glyphs(Folded(last)[|last| % COLS := c])
  {
    hide RowsFold, Stored, Row, Glyphs;
    var last := lines[|lines| - 1];
    PutShows(s, lines, c);
    LastRow(Put(s, c), Typed(lines, c));
    FoldOver(last, c);
  }

  lemma {:induction false} LastRow(s: Screen, lines: seq<Line>)
    requires Folds(s, lines) && s.y < ROWS
    ensures Row(s.cells, s.y) == Glyphs(Folded(lines[|lines| - 1]))
  {
    hide Row, Glyphs, Folded;
    assert Row(s.cells, s.y) == Glyphs(Folded(LineAt(lines, Above(s, lines) + s.y as nat)));
  }

  lemma {:induction false} FoldOver(line: Line, c: Byte)
    requires |line| >= COLS
    ensures Folded(line + [c]) == Folded(line)[|line| % COLS := c]
  {
    forall j | 0 <= j < COLS ensures Folded(line + [c])[j] == Folded(line)[|line| % COLS := c][j] {
      FoldAppend(line, c, j);
      hide LastAt;
    }
  }

  // ----- backspace -----

  /** The cell at the cursor. */
  lemma {:induction false} GlyphAt(line: Line)
    ensures var x := |line| % COLS;
            && Glyphs(Folded(line))[2 * x] == (if |line| < COLS then SPACE else LastAt(line, x))
            && Glyphs(Folded(line))[2 * x + 1] == ATTRIB
  {
    hide LastAt;
  }

  lemma {:induction false} CellErased(row: seq<Byte>, x: nat)
    requires |row| == ROW_BYTES && x < COLS && row[2 * x + 1] == ATTRIB
    ensures row[2 * x := SPACE][2 * x + 1 := ATTRIB] == row <==> row[2 * x] == SPACE
  {
    if row[2 * x] != SPACE {
      assert row[2 * x := SPACE][2 * x + 1 := ATTRIB][2 * x] == SPACE;
    }
  }

  /** An erased cell of a row: nothing is lost exactly when there was nothing in it. */
  lemma {:induction false} SpaceStored(line: Line)
    ensures var x := |line| % COLS;
            && (Glyphs(Folded(line))[2 * x := SPACE][2 * x + 1 := ATTRIB] == Glyphs(Folded(line))
                <==> |line| < COLS || LastAt(line, x) == SPACE)
  {
    GlyphAt(line);
    hide LastAt, Glyphs, Folded;
    CellErased(Glyphs(Folded(line)), |line| % COLS);
  }

  /** The rows after a character has been typed and erased. */
  lemma {:induction false} ErasedRow(cells: seq<Byte>, x: nat, y: nat, c: Byte, r: nat)
    requires |cells| == SCREEN_BYTES && x < COLS && y < ROWS && r < ROWS
    ensures Row(Stored(Stored(cells, COLS * y + x, c), COLS * y + x, SPACE), r)
            == if r == y then Row(cells, y)[2 * x := SPACE][2 * x + 1 := ATTRIB] else Row(cells, r)
  {
    assert Stored(Stored(cells, COLS * y + x, c), COLS * y + x, SPACE) == Stored(cells, COLS * y + x, SPACE);
    hide Row, Stored;
    RowStored(cells, x, y, SPACE, r);
  }

  lemma {:induction false} ErasedFolds(s: Screen, lines: seq<Line>, c: Byte)
    requires Folds(s, lines) && s.y < ROWS && IsText(c) && !IsNewline(c) && s.x < COLS - 1
    ensures CanPut(Put(s, c), BACKSPACE)
    ensures var last := lines[|lines| - 1];
            Folds(Put(Put(s, c), BACKSPACE), lines) <==> |last| < COLS || LastAt(last, |last| % COLS) == SPACE
  {
    hide Row, Glyphs, Folded, Stored, LastAt;
    var p := Put(Put(s, c), BACKSPACE);
    var last, above := lines[|lines| - 1], Above(s, lines);
    LastRow(s, lines);
    SpaceStored(last);
    assert LineAt(lines, above + s.y as nat) == last;
    ErasedRow(s.cells, s.x, s.y, c, s.y);
    forall r: nat | r < ROWS && r != s.y ensures Row(p.cells, r) == Glyphs(Folded(LineAt(lines, above + r))) {
      ErasedRow(s.cells, s.x, s.y, c, r);
      assert Row(s.cells, r) == Glyphs(Folded(LineAt(lines, above + r)));
    }
    if Folds(p, lines) {
      LastRow(p, lines);
    }
  }

  /** Backspace takes a typed character back from the screen exactly when it was not the last of its row, where the
      cursor has wrapped to column 0 and the erasure goes to the row above, and when it had not replaced another
      one. */
  lemma {:induction false} BackspaceUndoes(s: Screen, lines: seq<Line>, c: Byte)
    requires Folds(s, lines) && IsText(c) && !IsNewline(c)
    ensures var last := lines[|lines| - 1];
            CanPut(Put(s, c), BACKSPACE) && Folds(Put(Put(s, c), BACKSPACE), lines)
            <==> |last| % COLS < COLS - 1 && (|last| < COLS || LastAt(last, |last| % COLS) == SPACE)
  {
    hide LastAt;
    ScrollShows(s, lines);
    assert Put(s, c) == Put(Ready(s), c);
    if |lines[|lines| - 1]| % COLS < COLS - 1 {
      ErasedFolds(Ready(s), lines, c);
    }
    hide RowsFold, Stored;
  }

  // ----- streams -----

  ghost predicate AllText(cs: seq<Byte>) { forall c | c in cs :: IsText(c) }

  lemma {:induction false} FoldsPlaced(s: Screen, lines: seq<Line>)
    requires Folds(s, lines)
    ensures Ok(s) && |lines| > 0
  {
  }

  lemma {:induction false} CanPutText(s: Screen, c: Byte)
    requires Ok(s) && IsText(c)
    ensures CanPut(s, c)
  {
  }

  /** Whatever text is written, with lines of any length, the folded window moves with the transcript. */
  lemma {:induction false} StreamShows(s: Screen, lines: seq<Line>, cs: seq<Byte>)
    requires Folds(s, lines) && AllText(cs)
    ensures CanPutAll(s, cs) && Folds(PutAll(s, cs), TypedAll(lines, cs))
    decreases |cs|
  {
    FoldsPlaced(s, lines);
    if cs == [] {
    } else {
      hide Folds, Put, Placed;
      assert cs[0] in cs;
      CanPutText(s, cs[0]);
      PutShows(s, lines, cs[0]);
      StreamShows(Put(s, cs[0]), Typed(lines, cs[0]), cs[1..]);
    }
  }

  lemma {:induction false} ClearedFolds()
    ensures Folds(Cleared(), [[]])
  {
    hide Row, Glyphs, Folded;
    forall r: nat | r < ROWS ensures Row(Cleared().cells, r) == Glyphs(Folded([])) {
      BlankRows(r);
    }
  }

  lemma {:induction false} BlankRows(r: nat)
    requires r < ROWS
    ensures Row(Cleared().cells, r) == Glyphs(Folded([]))
  {
    var row := Row(Cleared().cells, r);
    forall i | 0 <= i < ROW_BYTES ensures row[i] == Glyphs(Folded([]))[i] {
      assert row[i] == Blank(ROW_BYTES * r + i);
      EvenPlace(r, i);
    }
  }

  lemma {:induction false} EvenPlace(r: nat, i: nat)
    ensures (ROW_BYTES * r + i) % 2 == i % 2
  {
  }

  /** No line of the stream gets longer than a row, when it starts with `filled` characters in the row. */
  predicate FitsRows(cs: seq<Byte>, filled: nat)
    decreases |cs|
  {
    filled <= COLS &&
    (cs == [] ||
     (IsText(cs[0]) && if IsNewline(cs[0]) then FitsRows(cs[1..], 0) else FitsRows(cs[1..], filled + 1)))
  }

  /** That is: the lines of its transcript are no longer than a row. */
  lemma {:induction false} FitsIsShort(lines: seq<Line>, cs: seq<Byte>)
    requires |lines| > 0 && FitsRows(cs, |lines[|lines| - 1]|) && forall line | line in lines :: |line| <= COLS
    ensures AllText(cs) && forall line | line in TypedAll(lines, cs) :: |line| <= COLS
    decreases |cs|
  {
    if cs == [] {
    } else {
      FitsIsShort(Typed(lines, cs[0]), cs[1..]);
      assert cs == [cs[0]] + cs[1..];
    }
  }

  lemma {:induction false} ShortAreLegible(lines: seq<Line>, above: nat)
    requires forall line | line in lines :: |line| <= COLS
    ensures AllLegible(lines, above)
  {
    hide Legible;
    forall i: nat ensures Legible(LineAt(lines, i)) {
      ShortIsLegible(LineAt(lines, i));
    }
  }

  /** From a cleared screen, whatever text is written, of any length and with lines of any length, the rows are the
      last lines of its history, folded. They are those lines themselves exactly when the ones in the window are
      legible, and so whenever no line is longer than a row. */
  lemma {:induction false} WindowOnHistory(cs: seq<Byte>)
    requires AllText(cs)
    ensures CanPutAll(Cleared(), cs) && Folds(PutAll(Cleared(), cs), History(cs))
    ensures var s := PutAll(Cleared(), cs);
            && (Shows(s, History(cs)) <==> WindowLegible(s, History(cs)))
            && (FitsRows(cs, 0) ==> Shows(s, History(cs)))
  {
    ClearedFolds();
    StreamShows(Cleared(), [[]], cs);
    FoldedShows(PutAll(Cleared(), cs), History(cs));
    hide Folds, Shows, Cleared, PutAll, AllLegible;
    if FitsRows(cs, 0) {
      FitsIsShort([[]], cs);
      ShortAreLegible(History(cs), Above(PutAll(Cleared(), cs), History(cs)));
    }
  }
}
