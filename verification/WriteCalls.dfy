/** Whole calls of `terminal_write`: what they do around the loop, as events of the three terminals. */
module WriteCalls {
  import opened Memory
  import opened Screens
  import opened Terminals
  import opened Transcript
  import opened Video
  import opened Wrapping

  /** No comparison looks at more bytes of the buffer. */
  const LOOK: nat := 58
  const HELLO_COUNT: nat := 7
  const NAME_COUNT: nat := 22

  const ASK_NAME: string := "Hi, what's your name? "
  const ASK_NUMBER: string := "Enter the Test Number: " + ("(0): 100, (1): 10000, " + "(2): 100000\n")
  const HELLO: string := "Hello, "
  const EXIT: string := "exit"
  const PROMPT: string := "391OS> "

  /** A literal without NULs, short enough to be compared in full. */
  predicate Literal(text: string) { |text| < LOOK && forall i | 0 <= i < |text| :: 0 < text[i] as int < 128 }

  lemma {:induction false} Literals()
    ensures Literal(ASK_NAME) && Literal(HELLO) && Literal(EXIT) && Literal(PROMPT)
  {
  }

  lemma {:induction false} LongLiteral()
    ensures Literal(ASK_NUMBER)
  {
    var a, b, c := "Enter the Test Number: ", "(0): 100, (1): 10000, ", "(2): 100000\n";
    assert Literal(a) && |a| == 23;
    assert Literal(b) && |b| == 22;
    assert Literal(c) && |c| == 12;
  }


  /** The C string in the buffer is the text. */
  predicate Says(buf: seq<Byte>, text: string) {
    var s := CString(buf);
    |s| == |text| && forall i | 0 <= i < |s| :: s[i] == text[i] as int
  }

  /** `strncmp` with a literal and a size that takes in its terminator. */
  method SameText(buf: seq<Byte>, text: string) returns (same: bool)
    requires |buf| >= LOOK && Literal(text)
    ensures same <==> Says(buf, text)
  {
    var i := 0;
    while true
      invariant 0 <= i <= |text| && forall j | 0 <= j < i :: buf[j] == text[j] as int
      decreases |text| - i
    {
      var c := if i < |text| then text[i] as int else 0;
      if buf[i] != c || buf[i] == 0 {
        same := buf[i] == c;
        return;
      }
      i := i + 1;
    }
  }


  /** The two prompts that set `row_letter_ct`. */
  function Prompted(buf: seq<Byte>): seq<Event> {
    if Says(buf, ASK_NAME) then [Letters(NAME_COUNT)]
    else if Says(buf, ASK_NUMBER) then [Letters(0)]
    else []
  }

  /** What the loop emits; `hello` says that the call before printed "Hello, ". */
  function Text(buf: seq<Byte>, n: nat, hello: bool): seq<Byte>
    requires n <= |buf|
  {
    Characters(Wrapped(buf[..n], if hello then HELLO_COUNT else 0))
  }

  lemma {:induction false} PlainCount(buf: seq<Byte>, lineCt: nat)
    requires lineCt + |buf| <= COLS && forall c | c in buf :: c != NUL && c != NEWLINE
    ensures CountAfter(buf, lineCt) == lineCt + |buf|
    decreases |buf|
  {
    if buf == [] {
    } else {
      assert buf[0] in buf && forall c | c in buf[1..] :: c in buf;
      PlainCount(buf[1..], lineCt + 1);
    }
  }

  /** The call behind "Hello, " counts on from its seven characters, as if both were one text; the counter of the
      keyboard starts behind the 22 characters of the other prompt. */
  lemma {:induction false} HelloGoesOn(greeting: seq<Byte>, name: seq<Byte>)
    requires |greeting| == |"Hello, "| && forall i | 0 <= i < |greeting| :: greeting[i] == "Hello, "[i] as int
    ensures Characters(Wrapped(greeting, 0)) + Text(name, |name|, true) == Characters(Wrapped(greeting + name, 0))
    ensures Says(greeting, HELLO) && NAME_COUNT == |"Hi, what's your name? "|
  {
    assert name[..|name|] == name && greeting[..|greeting|] == greeting;
    assert forall c | c in greeting :: c != NUL && c != NEWLINE;
    PlainCount(greeting, 0);
    WrappedConcat(greeting, name, 0);
    assert Characters(Wrapped(greeting, 0) + Wrapped(name, 7))
           == Characters(Wrapped(greeting, 0)) + Characters(Wrapped(name, 7));
  }

  /** The newlines behind it: one for "exit", one while `cat` runs and the shell has not printed its prompt. */
  function Tail(buf: seq<Byte>, cat: bool): seq<Byte> {
    (if Says(buf, EXIT) then [NEWLINE] else []) + (if cat && !Says(buf, PROMPT) then [NEWLINE] else [])
  }

  /** The call as events: the text goes to terminal `t`, the newlines to the displayed one. */
  function CallEvents(displayed: nat, t: nat, buf: seq<Byte>, n: nat, hello: bool, cat: bool): seq<Event>
    requires n <= |buf|
  {
    Prompted(buf) + (Sent(t, Text(buf, n, hello)) + Sent(displayed, Tail(buf, cat)))
  }

  /** `terminal_write` with the bytes in memory from its buffer on; `hello` is `hello_flag`, `cat` the entry of
      `cat_flag` for the terminal. */
  method TerminalWriteCall(d: Display, t: nat, fd: int, buf: seq<Byte>, n: int, hello: bool, cat: bool)
    returns (result: int, nextHello: bool, nextCat: bool)
    requires d.Valid() && t < SCREENS && |buf| >= LOOK && n <= |buf|
    requires 0 <= n && fd <= 1 ==> AllowedRun(d.Abstract(), CallEvents(d.terminalNum, t, buf, n, hello, cat))
    modifies d.mem, d.saveX, d.saveY, d`screenX, d`screenY, d`rowLetterCt
    ensures d.Valid()
    ensures n < 0 || fd > 1 ==>
              result == -1 && d.Abstract() == old(d.Abstract()) && nextHello == hello && nextCat == cat
    ensures 0 <= n && fd <= 1 ==>
              && d.Abstract() == Run(old(d.Abstract()), CallEvents(d.terminalNum, t, buf, n, hello, cat))
              && result == |WithoutNuls(buf[..n])|
              && nextHello == Says(buf, HELLO) && nextCat == (cat && !Says(buf, PROMPT))
  {
    hide PageCells, Wrapped, Characters, WithoutNuls, AllowedRun, Run, Sent, Apply, Says, Literal;
    hide PlainTabs, CanPutAll, PutAll, Tail, Prompted, HELLO, PROMPT;
    nextHello, nextCat := hello, cat;
    if n < 0 || fd > 1 {
      return -1, hello, cat;
    }
    ghost var k := d.Abstract();
    RunConcat(k, Prompted(buf), Sent(t, Text(buf, n, hello)) + Sent(d.terminalNum, Tail(buf, cat)));
    WritePrompt(d, buf);
    RunConcat(d.Abstract(), Sent(t, Text(buf, n, hello)), Sent(d.terminalNum, Tail(buf, cat)));
    result := d.TerminalWrite(t, buf[..n], if hello then HELLO_COUNT else 0);
    Literals();
    nextHello := SameText(buf, HELLO);
    nextCat := WriteTail(d, buf, cat);
  }

  /** The comparisons before the loop. */
  method WritePrompt(d: Display, buf: seq<Byte>)
    requires d.Valid() && |buf| >= LOOK && AllowedRun(d.Abstract(), Prompted(buf))
    modifies d`rowLetterCt
    ensures d.Valid() && d.Abstract() == Run(old(d.Abstract()), Prompted(buf))
  {
    hide PageCells, Says, Literal, Apply, Run, AllowedRun, ASK_NAME, ASK_NUMBER;
    Literals();
    LongLiteral();
    RunEnds(d.Abstract(), []);
    var same := SameText(buf, ASK_NAME);
    if same {
      OneEvent(d.Abstract(), Letters(NAME_COUNT));
      d.SetLetters(NAME_COUNT);
    } else {
      same := SameText(buf, ASK_NUMBER);
      if same {
        OneEvent(d.Abstract(), Letters(0));
        d.SetLetters(0);
      }
    }
  }

  lemma {:induction false} OneEvent(k: Console, e: Event)
    requires ConsoleOk(k)
    ensures AllowedRun(k, [e]) <==> Allowed(k, e)
    ensures Allowed(k, e) ==> Run(k, [e]) == Apply(k, e)
  {
    assert [e][1..] == [];
  }

  /** The comparisons behind the loop that print. */
  method WriteTail(d: Display, buf: seq<Byte>, cat: bool) returns (nextCat: bool)
    requires d.Valid() && |buf| >= LOOK && AllowedRun(d.Abstract(), Sent(d.terminalNum, Tail(buf, cat)))
    modifies d.mem, d.saveX, d.saveY, d`screenX, d`screenY, d`rowLetterCt
    ensures d.Valid() && d.Abstract() == Run(old(d.Abstract()), Sent(d.terminalNum, Tail(buf, cat)))
    ensures nextCat == (cat && !Says(buf, PROMPT))
  {
    hide PageCells, Says, AllowedRun, Run, Apply, Literal, EXIT, PROMPT;
    Literals();
    ghost var first := if Says(buf, EXIT) then [NEWLINE] else [];
    ghost var second := if cat && !Says(buf, PROMPT) then [NEWLINE] else [];
    SentConcat(d.terminalNum, first, second);
    RunConcat(d.Abstract(), Sent(d.terminalNum, first), Sent(d.terminalNum, second));
    var exits := SameText(buf, EXIT);
    NewlineIf(d, exits);
    var prompts := SameText(buf, PROMPT);
    nextCat := cat && !prompts;
    NewlineIf(d, nextCat);
  }

  lemma {:induction false} SentConcat(t: nat, a: seq<Byte>, b: seq<Byte>)
    ensures Sent(t, a + b) == Sent(t, a) + Sent(t, b)
  {
  }

  method NewlineIf(d: Display, really: bool)
    requires d.Valid()
    modifies d.mem, d.saveX, d.saveY, d`screenX, d`screenY, d`rowLetterCt
    ensures var es := Sent(d.terminalNum, if really then [NEWLINE] else []);
            d.Valid() && AllowedRun(old(d.Abstract()), es) && d.Abstract() == Run(old(d.Abstract()), es)
  {
    hide PageCells;
    OneEvent(d.Abstract(), Char(d.terminalNum, NEWLINE));
    if really {
      assert Sent(d.terminalNum, [NEWLINE]) == [Char(d.terminalNum, NEWLINE)];
      hide Apply, Run, AllowedRun;
      d.Write(d.terminalNum, NEWLINE);
    }
  }

  // ----- what the terminals get -----

  lemma {:induction false} CallStream(displayed: nat, t: nat, buf: seq<Byte>, n: nat, hello: bool, cat: bool, u: nat)
    requires n <= |buf|
    ensures var es := CallEvents(displayed, t, buf, n, hello, cat);
            && NoSwitch(es)
            && Since(displayed, es, u)
               == Stream(false, (if u == t then Text(buf, n, hello) else [])
                                + (if u == displayed then Tail(buf, cat) else []))
  {
    hide Text, Tail, Says;
    var text, tail := Text(buf, n, hello), Tail(buf, cat);
    SinceConcat(displayed, Prompted(buf), Sent(t, text) + Sent(displayed, tail), u);
    SinceConcat(displayed, Sent(t, text), Sent(displayed, tail), u);
    SentIsSent(displayed, t, text);
    SentIsSent(displayed, displayed, tail);
  }


  /** An empty page with the cursor below it: a newline leaves it as it is. */
  function Bottom(): Screen { Screen(Cleared().cells, 0, ROWS) }



  /** Cells that one scroll, or two, leaves as they are. */
  lemma {:induction false} StillIsBlank(cells: seq<Byte>, step: nat, i: nat)
    requires |cells| == SCREEN_BYTES && i < SCREEN_BYTES && (step == ROW_BYTES || step == 2 * ROW_BYTES)
    requires forall j: nat | j < SCREEN_BYTES ::
               cells[j] == if j + step < SCREEN_BYTES then cells[j + step] else Blank(j)
    ensures cells[i] == Blank(i)
    decreases SCREEN_BYTES - i
  {
    assert cells[i] == if i + step < SCREEN_BYTES then cells[i + step] else Blank(i);
    if i + step < SCREEN_BYTES {
      StillIsBlank(cells, step, i + step);
    }
  }


  lemma {:induction false} StillOnce(cells: seq<Byte>)
    requires |cells| == SCREEN_BYTES
    ensures ScrolledCells(cells) == cells <==> cells == Cleared().cells
  {
    forall j: nat | j < SCREEN_BYTES
      ensures ScrolledCells(cells)[j] == if j + ROW_BYTES < SCREEN_BYTES then cells[j + ROW_BYTES] else Blank(j)
    {
    }
    hide ScrolledCells;
    if ScrolledCells(cells) == cells {
      forall i: nat | i < SCREEN_BYTES ensures cells[i] == Blank(i) { StillIsBlank(cells, ROW_BYTES, i); }
    }
  }

  lemma {:induction false} StillTwice(cells: seq<Byte>)
    requires |cells| == SCREEN_BYTES
    ensures ScrolledCells(ScrolledCells(cells)) == cells <==> cells == Cleared().cells
  {
    StillOnce(cells);
    var twice := ScrolledCells(ScrolledCells(cells));
    forall j: nat | j < SCREEN_BYTES
      ensures twice[j] == if j + 2 * ROW_BYTES < SCREEN_BYTES then cells[j + 2 * ROW_BYTES] else Blank(j)
    {
    }
    hide ScrolledCells;
    if twice == cells {
      forall i: nat | i < SCREEN_BYTES ensures cells[i] == Blank(i) { StillIsBlank(cells, 2 * ROW_BYTES, i); }
    }
  }

  /** Newlines change every screen but that one. */
  lemma {:induction false} NewlinesShow(s: Screen, two: bool)
    requires Ok(s)
    ensures var ns := if two then [NEWLINE, NEWLINE] else [NEWLINE];
            CanPutAll(s, ns) && (PutAll(s, ns) == s <==> s == Bottom())
  {
    hide ScrolledCells, Cleared;
    StillOnce(s.cells);
    StillTwice(s.cells);
    var once := Put(s, NEWLINE);
    assert [NEWLINE][1..] == [] && [NEWLINE, NEWLINE][1..] == [NEWLINE];
    assert CanPutAll(once, [NEWLINE]) && PutAll(once, [NEWLINE]) == Put(once, NEWLINE);
    assert CanPutAll(s, [NEWLINE]) && PutAll(s, [NEWLINE]) == once;
    assert CanPutAll(s, [NEWLINE, NEWLINE]) && PutAll(s, [NEWLINE, NEWLINE]) == Put(once, NEWLINE);
  }

  /** The screens of the other terminals stay exactly when there are no newlines behind the text, or the terminal is
      the displayed one, or the displayed one is blank with its cursor below the last row. */
  lemma {:induction false} OthersStay(k: Console, t: nat, buf: seq<Byte>, n: nat, hello: bool, cat: bool)
    requires ConsoleOk(k) && t < SCREENS && n <= |buf|
    requires AllowedRun(k, CallEvents(k.displayed, t, buf, n, hello, cat))
    ensures var after := Run(k, CallEvents(k.displayed, t, buf, n, hello, cat));
            (forall u: nat | u < SCREENS && u != t :: after.screens[u] == k.screens[u])
            <==> || t == k.displayed || k.screens[k.displayed] == Bottom()
                 || (!Says(buf, EXIT) && (!cat || Says(buf, PROMPT)))
  {
    hide Text, Says, Run, AllowedRun, Bottom, CallEvents;
    var es := CallEvents(k.displayed, t, buf, n, hello, cat);
    forall u: nat | u < SCREENS && u != t
      ensures Run(k, es).screens[u] == k.screens[u] <==>
              u != k.displayed || Tail(buf, cat) == [] || k.screens[u] == Bottom()
    {
      OtherStays(k, t, buf, n, hello, cat, u);
    }
  }

  lemma {:induction false} OtherStays(k: Console, t: nat, buf: seq<Byte>, n: nat, hello: bool, cat: bool, u: nat)
    requires ConsoleOk(k) && t < SCREENS && n <= |buf| && u < SCREENS && u != t
    requires AllowedRun(k, CallEvents(k.displayed, t, buf, n, hello, cat))
    ensures var after := Run(k, CallEvents(k.displayed, t, buf, n, hello, cat));
            after.screens[u] == k.screens[u] <==>
            u != k.displayed || Tail(buf, cat) == [] || k.screens[u] == Bottom()
  {
    hide Text, Says, Run, AllowedRun, Bottom, CallEvents, PlainTabs;
    var es := CallEvents(k.displayed, t, buf, n, hello, cat);
    CallStream(k.displayed, t, buf, n, hello, cat, u);
    TextIsPlain(k, es, u);
    Isolation(k, es, u);
    hide Put;
    if u == k.displayed && Tail(buf, cat) != [] {
      NewlinesShow(k.screens[u], |Tail(buf, cat)| == 2);
      assert [] + Tail(buf, cat) == if |Tail(buf, cat)| == 2 then [NEWLINE, NEWLINE] else [NEWLINE];
    }
  }
}
