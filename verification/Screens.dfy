/** One text screen of its own: 25 rows of 80 cells, a character and an attribute byte each, and a cursor.
  This is what each of the three terminals should look like to the programs on it. */
module Screens {
  import opened Memory

  const COLS: nat := 80
  const ROWS: nat := 25
  const ROW_BYTES: nat := 160
  const SCREEN_BYTES: nat := 4000
  const ATTRIB: Byte := 7
  const SPACE: Byte := 32
  const BACKSPACE: Byte := 8
  const TAB: Byte := 9
  const NEWLINE: Byte := 10
  const RETURN: Byte := 13
  const TAB_SIZE: nat := 4

  datatype Screen = Screen(cells: seq<Byte>, x: int, y: int)

  /** Cursors that can arise. A backspace at column 0 leaves a negative column in the same row; row 25 means
      that the scroll is still to come. */
  predicate CursorOk(x: int, y: int) {
    && 0 <= y <= ROWS && -(COLS as int) < x < COLS
    && (y == ROWS ==> x == 0) && (y == 0 ==> x >= 0)
  }

  predicate Ok(s: Screen) { |s.cells| == SCREEN_BYTES && CursorOk(s.x, s.y) }

  function Blank(i: int): Byte { if i % 2 == 0 then SPACE else ATTRIB }

  function BlankRow(): (r: seq<Byte>)
    ensures |r| == ROW_BYTES
  {
    seq(ROW_BYTES, i => Blank(i))
  }

  function Cleared(): Screen { Screen(seq(SCREEN_BYTES, i => Blank(i)), 0, 0) }

  function ScrolledCells(cells: seq<Byte>): (r: seq<Byte>)
    requires |cells| == SCREEN_BYTES
    ensures |r| == SCREEN_BYTES
  {
    cells[ROW_BYTES..] + BlankRow()
  }

  /** The screen after the scroll that a character brings about when the cursor is past the last row. */
  function Ready(s: Screen): (r: Screen)
    requires Ok(s)
    ensures Ok(r) && r.y < ROWS
  {
    if s.y == ROWS then Screen(ScrolledCells(s.cells), 0, ROWS - 1) else s
  }

  function Stored(cells: seq<Byte>, position: nat, c: Byte): (r: seq<Byte>)
    requires |cells| == SCREEN_BYTES && position < COLS * ROWS
    ensures |r| == SCREEN_BYTES
  {
    cells[2 * position := c][2 * position + 1 := ATTRIB]
  }

  /** No backspace in the top left corner, where the store would miss the screen. */
  predicate CanPut(s: Screen, c: Byte)
    requires Ok(s)
  {
    c == BACKSPACE ==> Ready(s).y > 0 || Ready(s).x > 0
  }

  predicate IsNewline(c: Byte) { c == NEWLINE || c == RETURN }

  /** One space of a tab: the cursor moves on first, within its row, and the space goes where it then stands. */
  function Spaced(s: Screen): (r: Screen)
    requires Ok(s) && s.y < ROWS
    ensures Ok(r) && r.y == s.y
  {
    var x := if s.x == COLS - 1 then 0 else s.x + 1;
    Screen(Stored(s.cells, COLS * s.y + x, SPACE), x, s.y)
  }

  function Tabbed(s: Screen, n: nat): (r: Screen)
    requires Ok(s) && s.y < ROWS
    ensures Ok(r) && r.y == s.y
    decreases n
  {
    if n == 0 then s else Tabbed(Spaced(s), n - 1)
  }

  function Put(s: Screen, c: Byte): (r: Screen)
    requires Ok(s) && CanPut(s, c)
    ensures Ok(r)
  {
    var n := Ready(s);
    if c == TAB then
      Tabbed(n, TAB_SIZE)
    else if c == BACKSPACE then
      var x := if n.x == 1 - COLS as int then 0 else n.x - 1;
      Screen(Stored(n.cells, COLS * n.y + x, SPACE), x, n.y)
    else if IsNewline(c) then
      Screen(n.cells, 0, n.y + 1)
    else
      Screen(Stored(n.cells, COLS * n.y + n.x, c), if n.x == COLS - 1 then 0 else n.x + 1, n.y)
  }

  /** Cell by cell: a newline only moves the cursor; any other character but a tab goes into one cell, in the
      attribute 7, and the cursor moves on in its row. A backspace goes left first and stores a space, and is the way
      to the negative columns. */
  lemma {:induction false} PutByCell(s: Screen, c: Byte)
    requires Ok(s) && s.y < 25 && CanPut(s, c) && c != 9
    ensures var r := Put(s, c);
            if c == 10 || c == 13 then r == Screen(s.cells, 0, s.y + 1)
            else
              var left := if s.x == -79 then 0 else s.x - 1;
              var at := 80 * s.y + if c == 8 then left else s.x;
              && 0 <= at < 2000 && |r.cells| == 4000 && r.y == s.y
              && r.x == (if c == 8 then left else if s.x == 79 then 0 else s.x + 1)
              && r.cells[2 * at] == (if c == 8 then 32 else c) && r.cells[2 * at + 1] == 7
              && forall i | 0 <= i < 4000 && i != 2 * at && i != 2 * at + 1 :: r.cells[i] == s.cells[i]
  {
  }

  /** Past the last row the rows move up first, and the new last row is blank. */
  lemma {:induction false} ScrollByCell(s: Screen, c: Byte)
    requires Ok(s) && s.y == 25 && CanPut(s, c)
    ensures var up := Ready(s);
            && Put(s, c) == Put(up, c) && up.x == 0 && up.y == 24 && |up.cells| == 4000
            && (forall i | 0 <= i < 3840 :: up.cells[i] == s.cells[i + 160])
            && (forall i | 3840 <= i < 4000 :: up.cells[i] == if i % 2 == 0 then 32 else 7)
  {
  }

  function Column(x: int, k: nat): int { if x + k > 79 then x + k - 80 else x + k }

  lemma {:induction false} SpaceByCell(s: Screen, i: nat)
    requires Ok(s) && s.y < 25 && i < 2000
    ensures var r := Spaced(s);
            var hit := i - 80 * s.y == Column(s.x, 1);
            && r.y == s.y && r.x == Column(s.x, 1) && |r.cells| == 4000
            && r.cells[2 * i] == (if hit then 32 else s.cells[2 * i])
            && r.cells[2 * i + 1] == (if hit then 7 else s.cells[2 * i + 1])
  {
  }

  /** A tab stores four spaces, in the four columns behind the cursor, and ends on the last of them. */
  lemma {:induction false} TabByCell(s: Screen, i: nat)
    requires Ok(s) && s.y < 25 && i < 2000
    ensures var r := Put(s, 9);
            var hit := i - 80 * s.y in [Column(s.x, 1), Column(s.x, 2), Column(s.x, 3), Column(s.x, 4)];
            && r.y == s.y && r.x == Column(s.x, 4) && |r.cells| == 4000
            && r.cells[2 * i] == (if hit then 32 else s.cells[2 * i])
            && r.cells[2 * i + 1] == (if hit then 7 else s.cells[2 * i + 1])
  {
    var a := Spaced(s);
    var b := Spaced(a);
    var c := Spaced(b);
    var d := Spaced(c);
    assert Tabbed(s, 4) == Tabbed(a, 3) == Tabbed(b, 2) == Tabbed(c, 1) == Tabbed(d, 0) == d;
    hide Stored, Spaced, Tabbed;
    SpaceByCell(s, i);
    SpaceByCell(a, i);
    SpaceByCell(b, i);
    SpaceByCell(c, i);
  }

  // ----- tabs on the displayed screen -----

  /** One space of a tab on the displayed screen: when `row_letter_ct` says that the row is full a newline comes
      first. Past the last row that newline leads to the first row, without a scroll. */
  function ShownSpace(s: Screen, letters: Byte): (r: (Screen, Byte))
    requires Ok(s) && s.y < ROWS
    ensures Ok(r.0) && r.0.y < ROWS
  {
    if letters == COLS then (Spaced(Screen(s.cells, 0, (s.y + 1) % ROWS)), 1)
    else (Spaced(s), (letters + 1) % 256)
  }

  function ShownTab(s: Screen, letters: Byte, n: nat): (r: (Screen, Byte))
    requires Ok(s) && s.y < ROWS
    ensures Ok(r.0)
    decreases n
  {
    if n == 0 then (s, letters)
    else
      var next := ShownSpace(s, letters);
      ShownTab(next.0, next.1, n - 1)
  }

  /** The counter reaches the end of a row within the next tab. */
  predicate NearEdge(letters: Byte) { letters <= COLS < letters + TAB_SIZE }

  lemma {:induction false} TabUnfolds(s: Screen, letters: Byte, n: nat)
    requires Ok(s) && s.y < ROWS && n > 0
    ensures Tabbed(s, n) == Tabbed(Spaced(s), n - 1)
    ensures var next := ShownSpace(s, letters); ShownTab(s, letters, n) == ShownTab(next.0, next.1, n - 1)
    ensures letters != COLS ==> ShownSpace(s, letters) == (Spaced(s), (letters + 1) % 256)
    ensures letters == COLS ==> ShownSpace(s, letters).1 == 1 && ShownSpace(s, letters).0.y == (s.y + 1) % ROWS
  {
    hide Stored, Spaced;
  }

  lemma {:induction false} LettersWrap(letters: Byte, n: nat)
    requires 0 < n <= TAB_SIZE && letters != COLS
    ensures var next := (letters + 1) % 256;
            && (next + (n - 1)) % 256 == (letters + n) % 256
            && (letters <= COLS < letters + n <==> next <= COLS < next + (n - 1))
  {
  }

  lemma {:induction false} ShownTabFrom(s: Screen, letters: Byte, n: nat)
    requires Ok(s) && s.y < ROWS && n <= TAB_SIZE
    ensures !(letters <= COLS < letters + n) ==> ShownTab(s, letters, n) == (Tabbed(s, n), (letters + n) % 256)
    ensures letters <= COLS < letters + n ==> ShownTab(s, letters, n).0.y == (s.y + 1) % ROWS
    decreases n
  {
    if n == 0 {
    } else {
      TabUnfolds(s, letters, n);
      hide Ok, Stored, Spaced, Tabbed, ShownTab, ShownSpace;
      var next := ShownSpace(s, letters);
      ShownTabFrom(next.0, next.1, n - 1);
      if letters != COLS {
        LettersWrap(letters, n);
      }
    }
  }

  /** Displayed and hidden screens treat a tab alike exactly when the counter is not within four of the end of a
      row: the counter is shared by all terminals and follows the keyboard, not the cursor. */
  lemma {:induction false} TabIsTransparent(s: Screen, letters: Byte)
    requires Ok(s) && s.y < ROWS
    ensures ShownTab(s, letters, TAB_SIZE).0 == Tabbed(s, TAB_SIZE) <==> !NearEdge(letters)
    ensures !NearEdge(letters) ==> ShownTab(s, letters, TAB_SIZE).1 == (letters + TAB_SIZE) % 256
  {
    ShownTabFrom(s, letters, TAB_SIZE);
  }

  // ----- streams -----

  ghost predicate CanPutAll(s: Screen, cs: seq<Byte>)
    requires Ok(s)
    decreases |cs|
  {
    cs == [] || (CanPut(s, cs[0]) && CanPutAll(Put(s, cs[0]), cs[1..]))
  }

  function PutAll(s: Screen, cs: seq<Byte>): (r: Screen)
    requires Ok(s) && CanPutAll(s, cs)
    ensures Ok(r)
    decreases |cs|
  {
    if cs == [] then s else PutAll(Put(s, cs[0]), cs[1..])
  }

  lemma {:induction false} PutAllConcat(s: Screen, a: seq<Byte>, b: seq<Byte>)
    requires Ok(s)
    ensures CanPutAll(s, a + b) <==> CanPutAll(s, a) && CanPutAll(PutAll(s, a), b)
    ensures CanPutAll(s, a + b) ==> PutAll(s, a + b) == PutAll(PutAll(s, a), b)
    decreases |a|
  {
    if a == [] {
      assert a + b == b;
    } else {
      assert (a + b)[1..] == a[1..] + b;
      if CanPut(s, a[0]) {
        PutAllConcat(Put(s, a[0]), a[1..], b);
      }
    }
  }
}
