/** Three logical screens multiplexed onto one displayed page: 16 KB of video memory, the page shown first and
  then one page for each terminal, with a live cursor and three saved ones. */
module Video {
  import opened Memory
  import opened Screens
  import opened Terminals
  import opened Wrapping

  const PAGE: nat := 4096

  function PageCells(mem: seq<Byte>, page: nat): (cells: seq<Byte>)
    requires |mem| == PAGE * (SCREENS + 1) && page <= SCREENS
    ensures |cells| == SCREEN_BYTES
  {
    mem[PAGE * page..PAGE * page + SCREEN_BYTES]
  }

  /** C's remainder, which takes the sign of the dividend, and its quotient. */
  function Rem(a: int, b: nat): int
    requires b > 0
  {
    if a >= 0 then a % b else -((-a) % b)
  }

  function Quot(a: int, b: nat): int
    requires b > 0
  {
    if a >= 0 then a / b else -((-a) / b)
  }

  /** Bytes of `now` outside the given range are those of `was`. */
  ghost predicate SameOutside(now: seq<Byte>, was: seq<Byte>, at: nat, n: nat) {
    |now| == |was| && forall j | 0 <= j < |now| && !(at <= j < at + n) :: now[j] == was[j]
  }

  ghost predicate MovedUp(now: seq<Byte>, was: seq<Byte>, at: nat, n: nat) {
    && SameOutside(now, was, at, n) && at + n + ROW_BYTES <= |was|
    && forall j | at <= j < at + n :: now[j] == was[j + ROW_BYTES]
  }

  ghost predicate Blanked(now: seq<Byte>, was: seq<Byte>, at: nat, n: nat) {
    && SameOutside(now, was, at, n) && at + n <= |was|
    && forall j | at <= j < at + n :: now[j] == Blank(j)
  }

  lemma {:induction false} ScrolledPage(now: seq<Byte>, mid: seq<Byte>, was: seq<Byte>, page: nat)
    requires |was| == PAGE * (SCREENS + 1) && page <= SCREENS
    requires MovedUp(mid, was, PAGE * page, SCREEN_BYTES - ROW_BYTES)
    requires Blanked(now, mid, PAGE * page + SCREEN_BYTES - ROW_BYTES, ROW_BYTES)
    ensures PageCells(now, page) == ScrolledCells(PageCells(was, page))
    ensures SameOutside(now, was, PAGE * page, SCREEN_BYTES)
  {
    var base := PAGE * page;
    var a, b := PageCells(now, page), ScrolledCells(PageCells(was, page));
    forall k | 0 <= k < SCREEN_BYTES ensures a[k] == b[k] {
      assert a[k] == now[base + k];
      if k < SCREEN_BYTES - ROW_BYTES {
        assert now[base + k] == mid[base + k] == was[base + k + ROW_BYTES];
      } else {
        assert (base + k) % 2 == (k - (SCREEN_BYTES - ROW_BYTES)) % 2;
      }
    }
    forall j | 0 <= j < |now| && !(base <= j < base + SCREEN_BYTES) ensures now[j] == was[j] {
      assert now[j] == mid[j];
    }
  }

  lemma {:induction false} OtherPages(now: seq<Byte>, was: seq<Byte>, page: nat, other: nat)
    requires |was| == PAGE * (SCREENS + 1) && page <= SCREENS && other <= SCREENS && page != other
    requires SameOutside(now, was, PAGE * page, PAGE)
    ensures PageCells(now, other) == PageCells(was, other)
  {
  }

  lemma {:induction false} CopiedPage(now: seq<Byte>, was: seq<Byte>, dest: nat, src: nat, other: nat)
    requires |was| == PAGE * (SCREENS + 1) && dest <= SCREENS && src <= SCREENS && other <= SCREENS
    requires Copied(now, was, PAGE * dest, PAGE * src, PAGE)
    ensures |now| == |was| && PageCells(now, other) == PageCells(was, if other == dest then src else other)
  {
    var a := PageCells(now, other);
    var b := PageCells(was, if other == dest then src else other);
    forall k | 0 <= k < SCREEN_BYTES ensures a[k] == b[k] {
      assert a[k] == now[PAGE * other + k];
    }
  }


  lemma {:induction false} SameTwice(now: seq<Byte>, mid: seq<Byte>, was: seq<Byte>, at: nat, n: nat)
    requires SameOutside(now, mid, at, n) && SameOutside(mid, was, at, n)
    ensures SameOutside(now, was, at, n)
  {
    forall j | 0 <= j < |now| && !(at <= j < at + n) ensures now[j] == was[j] {
      assert now[j] == mid[j];
    }
  }

  lemma {:induction false} ByColumns(a: int)
    ensures -(COLS as int) <= a <= COLS ==>
              Rem(a, COLS) == if a == COLS || a == -(COLS as int) then 0 else a
    ensures -(COLS as int) < a < COLS ==> Quot(a, COLS) == 0
  {
  }

  lemma {:induction false} ByRows(y: int)
    ensures 0 <= y <= ROWS ==> Rem(y, ROWS) == if y == ROWS then 0 else y
  {
  }

  lemma {:induction false} CursorBack(x: int, y: int)
    requires -(COLS as int) < x < COLS && 0 <= y < ROWS
    ensures var b := Rem(x - 1, COLS);
            b == (if x == 1 - COLS as int then 0 else x - 1) && Rem(y + Quot(b, COLS), ROWS) == y
  {
    ByColumns(x - 1);
    ByColumns(if x == 1 - COLS as int then 0 else x - 1);
    ByRows(y);
    hide Rem, Quot;
  }

  lemma {:induction false} CursorForward(x: int, y: int)
    requires -(COLS as int) < x < COLS && 0 <= y <= ROWS
    ensures var f := Rem(x + 1, COLS);
            && f == (if x == COLS - 1 then 0 else x + 1)
            && Rem(y + Quot(f, COLS), ROWS) == (if y == ROWS then 0 else y)
  {
    ByColumns(x + 1);
    ByColumns(if x == COLS - 1 then 0 else x + 1);
    ByRows(y);
    hide Rem, Quot;
  }

  lemma {:induction false} SameAsBefore(was: seq<Byte>, at: nat)
    ensures SameOutside(was, was, at, SCREEN_BYTES)
  {
  }

  /** Giving terminal `t` the emissions still to come takes `k` to `result`. */
  ghost predicate Pending(k: Console, t: nat, es: seq<Emission>, result: Console) {
    ConsoleOk(k) && AllowedRun(k, Sent(t, Characters(es))) && Run(k, Sent(t, Characters(es))) == result
  }

  lemma {:induction false} NothingPending(k: Console, t: nat, lineCt: nat, result: Console)
    requires Pending(k, t, Wrapped([], lineCt), result)
    ensures k == result
  {
  }

  lemma {:induction false} NoNuls()
    ensures WithoutNuls([]) == []
  {
  }

  lemma {:induction false} NulsCounted(buf: seq<Byte>)
    requires |buf| > 0
    ensures buf == [buf[0]] + buf[1..]
    ensures |WithoutNuls(buf)| == (if buf[0] == NUL then 0 else 1) + |WithoutNuls(buf[1..])|
  {
  }

  lemma {:induction false} PendingStep(k: Console, t: nat, e: Emission, es: seq<Emission>, result: Console)
    requires Pending(k, t, [e] + es, result)
    ensures Allowed(k, Char(t, e.c)) && Pending(Apply(k, Char(t, e.c)), t, es, result)
  {
    assert Characters([e] + es)[1..] == Characters(es);
    assert Sent(t, Characters([e] + es))[1..] == Sent(t, Characters(es));
  }

  class Display {
    const mem: array<Byte>
    const saveX: array<int>
    const saveY: array<int>
    var screenX: int
    var screenY: int
    var terminalNum: nat
    var rowLetterCt: Byte

    ghost predicate Sized()
      reads this
    {
      && mem.Length == PAGE * (SCREENS + 1) && saveX.Length == SCREENS && saveY.Length == SCREENS
      && saveX != saveY && terminalNum < SCREENS
    }

    /** The screen of terminal `t`, wherever it is kept at the moment. */
    ghost function Logical(t: nat): Screen
      requires Sized() && t < SCREENS
      reads this, mem, saveX, saveY
    {
      if t == terminalNum then Screen(PageCells(mem[..], 0), screenX, screenY)
      else Screen(PageCells(mem[..], t + 1), saveX[t], saveY[t])
    }

    /** What the display stands for: three screens, one of them displayed. */
    ghost function Abstract(): Console
      requires Sized()
      reads this, mem, saveX, saveY
    {
      Console([Logical(0), Logical(1), Logical(2)], terminalNum, rowLetterCt)
    }

    ghost predicate Valid()
      reads this, mem, saveX, saveY
    {
      Sized() && ConsoleOk(Abstract())
    }

    // ----- scrolling -----

    method MoveRowsUp(base: nat)
      requires Sized() && base + SCREEN_BYTES <= mem.Length
      modifies mem
      ensures MovedUp(mem[..], old(mem[..]), base, SCREEN_BYTES - ROW_BYTES)
    {
      ghost var was := mem[..];
      var idx: nat := 0;
      while idx < (ROWS - 1) * COLS
        invariant idx <= (ROWS - 1) * COLS
        invariant MovedUp(mem[..], was, base, 2 * idx)
      {
        var from := base + 2 * (idx + COLS);
        assert mem[..][from] == was[from] && mem[..][from + 1] == was[from + 1];
        mem[base + 2 * idx] := mem[from];
        mem[base + 2 * idx + 1] := mem[from + 1];
        idx := idx + 1;
      }
    }

    method ClearRow(base: nat, row: nat)
      requires Sized() && base + SCREEN_BYTES <= mem.Length && base % 2 == 0 && row < ROWS
      modifies mem
      ensures Blanked(mem[..], old(mem[..]), base + ROW_BYTES * row, ROW_BYTES)
    {
      ghost var was := mem[..];
      var idx: nat := row * COLS;
      while idx < (row + 1) * COLS
        invariant row * COLS <= idx <= (row + 1) * COLS
        invariant Blanked(mem[..], was, base + ROW_BYTES * row, 2 * (idx - row * COLS))
      {
        mem[base + 2 * idx] := SPACE;
        mem[base + 2 * idx + 1] := ATTRIB;
        idx := idx + 1;
      }
    }

    /** `vertical_scroll`, on the displayed page. */
    method VerticalScroll()
      requires Sized()
      modifies mem, `screenX, `screenY
      ensures PageCells(mem[..], 0) == ScrolledCells(old(PageCells(mem[..], 0)))
      ensures SameOutside(mem[..], old(mem[..]), 0, SCREEN_BYTES)
      ensures screenX == 0 && screenY == ROWS - 1
    {
      ghost var was := mem[..];
      MoveRowsUp(0);
      ghost var mid := mem[..];
      screenX := 0;
      screenY := ROWS - 1;
      ClearRow(0, ROWS - 1);
      ScrolledPage(mem[..], mid, was, 0);
    }

    /** `background_scroll`, on the page of a terminal that is not displayed. */
    method BackgroundScroll(t: nat)
      requires Sized() && t < SCREENS
      modifies mem, saveX, saveY
      ensures PageCells(mem[..], t + 1) == ScrolledCells(old(PageCells(mem[..], t + 1)))
      ensures SameOutside(mem[..], old(mem[..]), PAGE * (t + 1), SCREEN_BYTES)
      ensures saveX[..] == old(saveX[..])[t := 0] && saveY[..] == old(saveY[..])[t := ROWS - 1]
    {
      ghost var was := mem[..];
      MoveRowsUp(PAGE * (t + 1));
      ghost var mid := mem[..];
      saveX[t] := 0;
      saveY[t] := ROWS - 1;
      ClearRow(PAGE * (t + 1), ROWS - 1);
      ScrolledPage(mem[..], mid, was, t + 1);
    }

    // ----- one character -----

    method StoreCell(page: nat, position: nat, c: Byte)
      requires Sized() && page <= SCREENS && position < COLS * ROWS
      modifies mem
      ensures PageCells(mem[..], page) == Stored(old(PageCells(mem[..], page)), position, c)
      ensures SameOutside(mem[..], old(mem[..]), PAGE * page, SCREEN_BYTES)
    {
      ghost var was := mem[..];
      mem[PAGE * page + 2 * position] := c;
      mem[PAGE * page + 2 * position + 1] := ATTRIB;
    }

    ghost function Shown(): Screen
      requires Sized()
      reads this, mem
    {
      Screen(PageCells(mem[..], 0), screenX, screenY)
    }

    ghost function Hidden(t: nat): Screen
      requires Sized() && t < SCREENS
      reads this, mem, saveX, saveY
    {
      Screen(PageCells(mem[..], t + 1), saveX[t], saveY[t])
    }

    /** `putc`: on the displayed page, with the shared counter of row letters for tabs. */
    method Putc(c: Byte)
      requires Sized() && Ok(Shown()) && CanPut(Shown(), c)
      modifies mem, `screenX, `screenY, `rowLetterCt
      ensures c != TAB ==> Shown() == Put(old(Shown()), c) && rowLetterCt == old(rowLetterCt)
      ensures c == TAB ==> (Shown(), rowLetterCt) == ShownTab(Ready(old(Shown())), old(rowLetterCt), TAB_SIZE)
      ensures SameOutside(mem[..], old(mem[..]), 0, 4000)
      decreases if c == TAB then 2 else 0
    {
      hide SameOutside, Stored, ScrolledCells, PageCells, Rem, Quot, ShownTab;
      ghost var was := mem[..];
      SameAsBefore(was, 0);
      if COLS * screenY + screenX >= COLS * ROWS {
        VerticalScroll();
      }
      ghost var mid := mem[..];
      if c == BACKSPACE {
        CursorBack(screenX, screenY);
        screenX := screenX - 1;
        screenX := Rem(screenX, COLS);
        screenY := Rem(screenY + Quot(screenX, COLS), ROWS);
        StoreCell(0, COLS * screenY + screenX, SPACE);
        SameTwice(mem[..], mid, was, 0, SCREEN_BYTES);
      } else if c == TAB {
        PutTab();
        SameTwice(mem[..], mid, was, 0, SCREEN_BYTES);
      } else if IsNewline(c) {
        screenY := screenY + 1;
        screenX := 0;
      } else {
        StoreCell(0, COLS * screenY + screenX, c);
        SameTwice(mem[..], mid, was, 0, SCREEN_BYTES);
        CursorForward(screenX, screenY);
        screenX := screenX + 1;
        screenX := Rem(screenX, COLS);
        screenY := Rem(screenY + Quot(screenX, COLS), ROWS);
      }
    }

    /** The loop of `putc` for a tab. */
    method PutTab()
      requires Sized() && Ok(Shown()) && screenY < ROWS
      modifies mem, `screenX, `screenY, `rowLetterCt
      ensures (Shown(), rowLetterCt) == ShownTab(old(Shown()), old(rowLetterCt), TAB_SIZE)
      ensures SameOutside(mem[..], old(mem[..]), 0, SCREEN_BYTES)
      decreases 1, 1
    {
      hide SameOutside, Stored, ScrolledCells, PageCells, ShownSpace;
      ghost var was := mem[..];
      SameAsBefore(was, 0);
      var i: nat := 0;
      while i < TAB_SIZE
        invariant i <= TAB_SIZE && Ok(Shown()) && screenY < ROWS
        invariant ShownTab(Shown(), rowLetterCt, TAB_SIZE - i) == ShownTab(old(Shown()), old(rowLetterCt), TAB_SIZE)
        invariant SameOutside(mem[..], was, 0, SCREEN_BYTES)
      {
        ghost var mid := mem[..];
        PutSpace();
        SameTwice(mem[..], mid, was, 0, SCREEN_BYTES);
        i := i + 1;
      }
    }

    /** One turn of it, which may call `putc` again for a newline. */
    method PutSpace()
      requires Sized() && Ok(Shown()) && screenY < ROWS
      modifies mem, `screenX, `screenY, `rowLetterCt
      ensures (Shown(), rowLetterCt) == ShownSpace(old(Shown()), old(rowLetterCt))
      ensures SameOutside(mem[..], old(mem[..]), 0, SCREEN_BYTES)
      decreases 1, 0
    {
      hide SameOutside, Stored, ScrolledCells, PageCells, Rem, Quot;
      ghost var was := mem[..];
      SameAsBefore(was, 0);
      if rowLetterCt == COLS {
        Putc(NEWLINE);
        rowLetterCt := 0;
      }
      ghost var mid := mem[..];
      rowLetterCt := (rowLetterCt + 1) % 256;
      CursorForward(screenX, screenY);
      screenX := screenX + 1;
      screenX := Rem(screenX, COLS);
      screenY := Rem(screenY + Quot(screenX, COLS), ROWS);
      StoreCell(0, COLS * screenY + screenX, SPACE);
      SameTwice(mem[..], mid, was, 0, SCREEN_BYTES);
    }

    /** `background_putc`: the same on the page and the saved cursor of terminal `t`, and plain tabs. */
    method BackgroundPutc(c: Byte, t: nat)
      requires Sized() && t < SCREENS && Ok(Hidden(t)) && CanPut(Hidden(t), c)
      modifies mem, saveX, saveY
      ensures Hidden(t) == Put(old(Hidden(t)), c)
      ensures SameOutside(mem[..], old(mem[..]), 4096 * (t + 1), 4000)
      ensures forall u | 0 <= u < SCREENS && u != t :: saveX[u] == old(saveX[u]) && saveY[u] == old(saveY[u])
    {
      hide SameOutside, Stored, ScrolledCells, PageCells, Rem, Quot, Tabbed;
      ghost var was := mem[..];
      SameAsBefore(was, PAGE * (t + 1));
      if COLS * saveY[t] + saveX[t] >= COLS * ROWS {
        BackgroundScroll(t);
      }
      ghost var mid := mem[..];
      if c == BACKSPACE {
        CursorBack(saveX[t], saveY[t]);
        saveX[t] := saveX[t] - 1;
        saveX[t] := Rem(saveX[t], COLS);
        saveY[t] := Rem(saveY[t] + Quot(saveX[t], COLS), ROWS);
        StoreCell(t + 1, COLS * saveY[t] + saveX[t], SPACE);
        SameTwice(mem[..], mid, was, PAGE * (t + 1), SCREEN_BYTES);
      } else if c == TAB {
        BackgroundTab(t);
        SameTwice(mem[..], mid, was, PAGE * (t + 1), SCREEN_BYTES);
      } else if IsNewline(c) {
        saveY[t] := saveY[t] + 1;
        saveX[t] := 0;
      } else {
        StoreCell(t + 1, COLS * saveY[t] + saveX[t], c);
        SameTwice(mem[..], mid, was, PAGE * (t + 1), SCREEN_BYTES);
        CursorForward(saveX[t], saveY[t]);
        saveX[t] := saveX[t] + 1;
        saveX[t] := Rem(saveX[t], COLS);
        saveY[t] := Rem(saveY[t] + Quot(saveX[t], COLS), ROWS);
      }
    }

    /** The loop of `background_putc` for a tab. */
    method BackgroundTab(t: nat)
      requires Sized() && t < SCREENS && Ok(Hidden(t)) && saveY[t] < ROWS
      modifies mem, saveX, saveY
      ensures Hidden(t) == Tabbed(old(Hidden(t)), TAB_SIZE)
      ensures SameOutside(mem[..], old(mem[..]), PAGE * (t + 1), SCREEN_BYTES)
      ensures forall u | 0 <= u < SCREENS && u != t :: saveX[u] == old(saveX[u]) && saveY[u] == old(saveY[u])
    {
      hide SameOutside, Stored, ScrolledCells, PageCells, Rem, Quot;
      ghost var was := mem[..];
      SameAsBefore(was, PAGE * (t + 1));
      var i: nat := 0;
      while i < TAB_SIZE
        invariant i <= TAB_SIZE && Ok(Hidden(t)) && saveY[t] < ROWS
        invariant Tabbed(Hidden(t), TAB_SIZE - i) == Tabbed(old(Hidden(t)), TAB_SIZE)
        invariant SameOutside(mem[..], was, PAGE * (t + 1), SCREEN_BYTES)
        invariant forall u | 0 <= u < SCREENS && u != t :: saveX[u] == old(saveX[u]) && saveY[u] == old(saveY[u])
      {
        ghost var mid := mem[..];
        CursorForward(saveX[t], saveY[t]);
        saveX[t] := saveX[t] + 1;
        saveX[t] := Rem(saveX[t], COLS);
        saveY[t] := Rem(saveY[t] + Quot(saveX[t], COLS), ROWS);
        StoreCell(t + 1, COLS * saveY[t] + saveX[t], SPACE);
        SameTwice(mem[..], mid, was, PAGE * (t + 1), SCREEN_BYTES);
        i := i + 1;
      }
    }

    /** The loop of `clear`, over the displayed page. */
    method Clear()
      requires Sized()
      modifies mem, `screenX, `screenY
      ensures Shown() == Cleared()
      ensures SameOutside(mem[..], old(mem[..]), 0, SCREEN_BYTES)
    {
      ghost var was := mem[..];
      var i: nat := 0;
      while i < ROWS * COLS
        invariant i <= ROWS * COLS
        invariant Blanked(mem[..], was, 0, 2 * i)
      {
        mem[2 * i] := SPACE;
        mem[2 * i + 1] := ATTRIB;
        i := i + 1;
      }
      screenX := 0;
      screenY := 0;
    }

    // ----- the multiplexer -----

    method SwitchVideoMem(previous: nat, next: nat)
      requires Sized() && previous < SCREENS && next < SCREENS
      modifies this`screenX, this`screenY, saveX, saveY
      ensures saveX[..] == old(saveX[..])[previous := old(screenX)]
      ensures saveY[..] == old(saveY[..])[previous := old(screenY)]
      ensures screenX == saveX[next] && screenY == saveY[next]
    {
      saveX[previous] := screenX;
      saveY[previous] := screenY;
      screenX := saveX[next];
      screenY := saveY[next];
    }

    /** `switch_terminals`, as the keyboard handler calls it: no terminal sees it. */
    method SwitchTerminals(next: nat)
      requires Valid() && next < SCREENS
      modifies this, mem, saveX, saveY
      ensures Valid() && Abstract() == Apply(old(Abstract()), Switch(next))
    {
      hide Copied, PageCells, Ok;
      ghost var was := mem[..];
      ghost var previous := terminalNum;
      SwitchVideoMem(terminalNum, next);
      Memcpy(mem, PAGE * (terminalNum + 1), 0, PAGE);
      ghost var mid := mem[..];
      Memcpy(mem, 0, PAGE * (next + 1), PAGE);
      terminalNum := next;
      ghost var last := mem[..];
      CopiedPage(mid, was, previous + 1, 0, next + 1);
      CopiedPage(last, mid, 0, next + 1, 0);
      forall t: nat | t < SCREENS ensures Logical(t) == old(Logical(t)) {
        CopiedPage(mid, was, previous + 1, 0, t + 1);
        CopiedPage(last, mid, 0, next + 1, t + 1);
      }
    }

    /** A character for terminal `t`, as `terminal_write` dispatches it: the screen of `t` takes it, the two
        others stay as they are, displayed or not. */
    method Write(t: nat, c: Byte)
      requires Valid() && Allowed(Abstract(), Char(t, c))
      modifies mem, saveX, saveY, `screenX, `screenY, `rowLetterCt
      ensures Valid() && Abstract() == Apply(old(Abstract()), Char(t, c))
    {
      hide PageCells, ShownTab, Tabbed;
      ghost var was := mem[..];
      ghost var page := if t == terminalNum then 0 else t + 1;
      if t != terminalNum {
        BackgroundPutc(c, t);
      } else {
        Putc(c);
      }
      forall other: nat | other <= SCREENS && other != page ensures PageCells(mem[..], other) == PageCells(was, other) {
        OtherPages(mem[..], was, page, other);
      }
    }

    /** The other places that set `row_letter_ct`. */
    method SetLetters(count: Byte)
      requires Valid()
      modifies `rowLetterCt
      ensures Valid() && Abstract() == Apply(old(Abstract()), Letters(count))
    {
      rowLetterCt := count;
    }

    /** `clear`, as ctrl+L and the boot call it: the displayed terminal's screen becomes blank. */
    method ClearDisplayed()
      requires Valid()
      modifies mem, `screenX, `screenY
      ensures Valid() && Abstract() == Apply(old(Abstract()), Event.Clear)
    {
      hide PageCells, Cleared;
      ghost var was := mem[..];
      Clear();
      forall other: nat | 0 < other <= SCREENS ensures PageCells(mem[..], other) == PageCells(was, other) {
        OtherPages(mem[..], was, 0, other);
      }
    }

    /** Any interleaving of characters for the three terminals, clears and switches of the display does to the three
        logical screens what it does to three independent terminals; the one thing they share is the counter that a
        displayed tab looks at. A terminal that was cleared on the way shows the last lines of the text written to it
        since then. */
    method Serve(es: seq<Event>)
      requires Valid() && AllowedRun(Abstract(), es)
      modifies this, mem, saveX, saveY
      ensures Valid() && Abstract() == Run(old(Abstract()), es)
      ensures forall t: nat | t < SCREENS && PlainTabs(old(Abstract()), es, t) ::
                IsLeftWith(old(Abstract()), es, t, Logical(t))
      ensures forall t: nat | t < SCREENS && IsFreshText(Since(old(terminalNum), es, t)) ::
                IsWindow(Logical(t), Since(old(terminalNum), es, t).cs)
    {
      hide PlainTabs, CanPutAll, PutAll, PageCells, Since, AllowedRun, Run, Apply, Ok;
      hide IsLeftWith, IsFreshText, IsWindow;
      ghost var start := Abstract();
      var i: nat := 0;
      assert es[0..] == es;
      while i < |es|
        invariant i <= |es| && Valid() && AllowedRun(Abstract(), es[i..]) && Run(Abstract(), es[i..]) == Run(start, es)
      {
        assert es[i..][0] == es[i] && es[i..][1..] == es[i + 1..];
        RunStep(Abstract(), es[i..]);
        match es[i] {
          case Char(t, c) => Write(t, c);
          case Switch(next) => SwitchTerminals(next);
          case Clear => ClearDisplayed();
          case Letters(count) => SetLetters(count);
        }
        i := i + 1;
      }
      RunEnds(Abstract(), es[i..]);
      forall t: nat | t < SCREENS && PlainTabs(start, es, t) ensures IsLeftWith(start, es, t, Logical(t)) {
        Isolation(start, es, t);
      }
      forall t: nat | t < SCREENS && IsFreshText(Since(start.displayed, es, t))
        ensures IsWindow(Logical(t), Since(start.displayed, es, t).cs)
      {
        ClearedShows(start, es, t);
      }
    }

    /** `terminal_write` of a process on terminal `t`: its screen takes the wrapped characters, the others none. */
    method TerminalWrite(t: nat, buf: seq<Byte>, start: nat) returns (bytesWritten: nat)
      requires Valid() && t < SCREENS && start <= COLS
      requires AllowedRun(Abstract(), Sent(t, Characters(Wrapped(buf, start))))
      modifies mem, saveX, saveY, `screenX, `screenY, `rowLetterCt
      ensures Valid() && Abstract() == Run(old(Abstract()), Sent(t, Characters(Wrapped(buf, start))))
      ensures PlainTabs(old(Abstract()), Sent(t, Characters(Wrapped(buf, start))), t) ==>
                && CanPutAll(old(Logical(t)), Characters(Wrapped(buf, start)))
                && Logical(t) == PutAll(old(Logical(t)), Characters(Wrapped(buf, start)))
      ensures forall u | 0 <= u < SCREENS && u != t :: Logical(u) == old(Logical(u))
      ensures bytesWritten == |WithoutNuls(buf)|
    {
      hide Wrapped, WithoutNuls, CanPutAll, AllowedRun, PutAll, Run, PageCells, Sent, Characters, PlainTabs;
      ghost var before := Abstract();
      bytesWritten := WriteAll(t, buf, start, Run(before, Sent(t, Characters(Wrapped(buf, start)))));
      OneTerminal(before, t, Characters(Wrapped(buf, start)));
    }

    /** The loop of `terminal_write`. */
    method WriteAll(t: nat, buf: seq<Byte>, start: nat, ghost result: Console) returns (bytesWritten: nat)
      requires Valid() && start <= COLS && Pending(Abstract(), t, Wrapped(buf, start), result)
      modifies mem, saveX, saveY, `screenX, `screenY, `rowLetterCt
      ensures Valid() && Abstract() == result && bytesWritten == |WithoutNuls(buf)|
    {
      hide Wrapped, Pending, WithoutNuls, Apply;
      bytesWritten := 0;
      var lineCt: nat := start;
      var index := 0;
      assert buf[index..] == buf;
      while index < |buf|
        invariant 0 <= index <= |buf| && lineCt <= COLS
        invariant Valid() && Pending(Abstract(), t, Wrapped(buf[index..], lineCt), result)
        invariant bytesWritten + |WithoutNuls(buf[index..])| == |WithoutNuls(buf)|
      {
        assert buf[index..][0] == buf[index] && buf[index..][1..] == buf[index + 1..];
        NulsCounted(buf[index..]);
        if buf[index] != NUL {
          bytesWritten := bytesWritten + 1;
        }
        lineCt := WriteWrapped(t, buf[index], lineCt, buf[index + 1..], result);
        index := index + 1;
      }
      assert buf[index..] == [];
      NothingPending(Abstract(), t, lineCt, result);
      NoNuls();
    }

    /** The body of the loop of `terminal_write`: the new count of the line. */
    method WriteWrapped(t: nat, c: Byte, lineCt: nat, ghost rest: seq<Byte>, ghost result: Console) returns (count: nat)
      requires Valid() && lineCt <= COLS && Pending(Abstract(), t, Wrapped([c] + rest, lineCt), result)
      modifies mem, saveX, saveY, `screenX, `screenY, `rowLetterCt
      ensures Valid() && count <= COLS && Pending(Abstract(), t, Wrapped(rest, count), result)
    {
      hide Pending, Apply, Wrapped, PageCells;
      WrappedCons(c, rest, lineCt);
      count := lineCt;
      if count == COLS && c != NUL && c != NEWLINE {
        assert Emitted(c, lineCt) + Wrapped(rest, 1)
            == [Emission(NEWLINE, true)] + ([Emission(c, false)] + Wrapped(rest, 1));
        PendingStep(Abstract(), t, Emission(NEWLINE, true), [Emission(c, false)] + Wrapped(rest, 1), result);
        Write(t, NEWLINE);
        count := 0;
      } else if c == NEWLINE {
        count := 0;
      }
      if c != NUL {
        count := count + 1;
        PendingStep(Abstract(), t, Emission(c, false), Wrapped(rest, count), result);
        Write(t, c);
      } else {
        assert [] + Wrapped(rest, lineCt) == Wrapped(rest, lineCt);
      }
    }
  }

  /** A stream for one terminal: its screen takes it all, unless a tab in it is near the edge; the others stay. */
  lemma {:induction false} OneTerminal(k: Console, t: nat, cs: seq<Byte>)
    requires ConsoleOk(k) && t < SCREENS && AllowedRun(k, Sent(t, cs))
    ensures PlainTabs(k, Sent(t, cs), t) ==>
              CanPutAll(k.screens[t], cs) && Run(k, Sent(t, cs)).screens[t] == PutAll(k.screens[t], cs)
    ensures forall u | 0 <= u < SCREENS && u != t :: Run(k, Sent(t, cs)).screens[u] == k.screens[u]
  {
    SentIsSent(k.displayed, t, cs);
    if PlainTabs(k, Sent(t, cs), t) {
      Isolation(k, Sent(t, cs), t);
    }
    forall u: nat | u < SCREENS && u != t ensures Run(k, Sent(t, cs)).screens[u] == k.screens[u] {
      OthersPlain(k, t, cs, u);
      Isolation(k, Sent(t, cs), u);
    }
  }
}
