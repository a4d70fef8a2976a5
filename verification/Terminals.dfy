/** Three independent terminals: what the multiplexed display must look like over any interleaving. */
module Terminals {
  import opened Memory
  import opened Screens
  import opened Transcript

  const SCREENS: nat := 3

  /** A character for a terminal, a switch of the display, `clear`, and whatever else sets `row_letter_ct`. */
  datatype Event = Char(terminal: nat, c: Byte) | Switch(next: nat) | Clear | Letters(count: Byte)

  datatype Console = Console(screens: seq<Screen>, displayed: nat, letters: Byte)

  predicate ConsoleOk(k: Console) {
    |k.screens| == SCREENS && k.displayed < SCREENS && Ok(k.screens[0]) && Ok(k.screens[1]) && Ok(k.screens[2])
  }

  predicate ShowsTab(k: Console, t: nat, c: Byte) { c == TAB && t == k.displayed }

  /** No backspace in the top left corner. */
  predicate Allowed(k: Console, e: Event)
    requires ConsoleOk(k)
  {
    match e
    case Char(t, c) => t < SCREENS && CanPut(k.screens[t], c)
    case Switch(next) => next < SCREENS
    case Clear => true
    case Letters(_) => true
  }

  function Apply(k: Console, e: Event): (r: Console)
    requires ConsoleOk(k) && Allowed(k, e)
    ensures ConsoleOk(r)
  {
    match e
    case Char(t, c) =>
      if ShowsTab(k, t, c) then
        var (screen, letters) := ShownTab(Ready(k.screens[t]), k.letters, TAB_SIZE);
        k.(screens := k.screens[t := screen], letters := letters)
      else k.(screens := k.screens[t := Put(k.screens[t], c)])
    case Switch(next) => k.(displayed := next)
    case Clear => k.(screens := k.screens[k.displayed := Cleared()])
    case Letters(count) => k.(letters := count)
  }

  ghost predicate AllowedRun(k: Console, es: seq<Event>)
    requires ConsoleOk(k)
    decreases |es|
  {
    es == [] || (Allowed(k, es[0]) && AllowedRun(Apply(k, es[0]), es[1..]))
  }

  function Run(k: Console, es: seq<Event>): (r: Console)
    requires ConsoleOk(k) && AllowedRun(k, es)
    ensures ConsoleOk(r)
    decreases |es|
  {
    if es == [] then k else Run(Apply(k, es[0]), es[1..])
  }


  lemma {:induction false} RunStep(k: Console, es: seq<Event>)
    requires ConsoleOk(k) && AllowedRun(k, es) && es != []
    ensures Allowed(k, es[0]) && AllowedRun(Apply(k, es[0]), es[1..]) && Run(k, es) == Run(Apply(k, es[0]), es[1..])
  {
  }

  lemma {:induction false} RunConcat(k: Console, a: seq<Event>, b: seq<Event>)
    requires ConsoleOk(k)
    ensures AllowedRun(k, a + b) <==> AllowedRun(k, a) && AllowedRun(Run(k, a), b)
    ensures AllowedRun(k, a + b) ==> Run(k, a + b) == Run(Run(k, a), b)
    decreases |a|
  {
    hide Apply;
    if a == [] {
      assert a + b == b;
    } else {
      assert (a + b)[0] == a[0] && (a + b)[1..] == a[1..] + b;
      if Allowed(k, a[0]) {
        RunConcat(Apply(k, a[0]), a[1..], b);
      }
    }
  }

  lemma {:induction false} RunEnds(k: Console, es: seq<Event>)
    requires ConsoleOk(k) && AllowedRun(k, es) && es == []
    ensures Run(k, es) == k
  {
  }

  /** A tab for terminal `t` while it is displayed, with the shared counter near the end of a row. */
  predicate EdgeTab(k: Console, e: Event, t: nat) {
    e.Char? && e.terminal == t && ShowsTab(k, t, e.c) && NearEdge(k.letters)
  }

  /** The terminal displayed after an event. */
  function DisplayedAfter(displayed: nat, e: Event): nat { if e.Switch? then e.next else displayed }

  /** What a terminal is left with: whether it was cleared, and the characters sent to it since the last time. */
  datatype Stream = Stream(cleared: bool, cs: seq<Byte>)

  function Since(displayed: nat, es: seq<Event>, t: nat): Stream
    decreases |es|
  {
    if es == [] then Stream(false, [])
    else
      var rest := Since(DisplayedAfter(displayed, es[0]), es[1..], t);
      if rest.cleared then rest
      else if es[0].Clear? && displayed == t then Stream(true, rest.cs)
      else if es[0].Char? && es[0].terminal == t then Stream(false, [es[0].c] + rest.cs)
      else rest
  }

  /** Streams one after the other. */
  function Joined(first: Stream, second: Stream): Stream {
    if second.cleared then second else Stream(first.cleared, first.cs + second.cs)
  }

  predicate NoSwitch(es: seq<Event>) { forall e | e in es :: !e.Switch? }

  lemma {:induction false} SinceConcat(displayed: nat, a: seq<Event>, b: seq<Event>, t: nat)
    requires NoSwitch(a)
    ensures Since(displayed, a + b, t) == Joined(Since(displayed, a, t), Since(displayed, b, t))
    decreases |a|
  {
    if a == [] {
      assert a + b == b;
    } else {
      assert a[0] in a && forall e | e in a[1..] :: e in a;
      assert (a + b)[0] == a[0] && (a + b)[1..] == a[1..] + b;
      SinceConcat(displayed, a[1..], b, t);
    }
  }

  /** None of the tabs for terminal `t` since it was cleared is one of those. */
  ghost predicate PlainTabs(k: Console, es: seq<Event>, t: nat)
    requires ConsoleOk(k) && AllowedRun(k, es)
    decreases |es|
  {
    es == [] ||
    (&& (EdgeTab(k, es[0], t) ==> Since(k.displayed, es[1..], t).cleared)
     && PlainTabs(Apply(k, es[0]), es[1..], t))
  }

  /** A character does to its terminal what it does to a terminal alone, exactly when it is not such a tab. */
  lemma {:induction false} CharIsPut(k: Console, t: nat, c: Byte)
    requires ConsoleOk(k) && Allowed(k, Char(t, c))
    ensures Apply(k, Char(t, c)).screens[t] == Put(k.screens[t], c) <==> !EdgeTab(k, Char(t, c), t)
  {
    TabIsTransparent(Ready(k.screens[t]), k.letters);
  }

  /** A stream of characters for one terminal. */
  function Sent(t: nat, cs: seq<Byte>): (es: seq<Event>)
    ensures |es| == |cs|
  {
    seq(|cs|, i requires 0 <= i < |cs| => Char(t, cs[i]))
  }

  lemma {:induction false} SentIsSent(displayed: nat, t: nat, cs: seq<Byte>)
    ensures Since(displayed, Sent(t, cs), t) == Stream(false, cs)
    ensures forall u: nat | u != t :: Since(displayed, Sent(t, cs), u) == Stream(false, [])
    decreases |cs|
  {
    if cs == [] {
    } else {
      SentIsSent(displayed, t, cs[1..]);
      assert Sent(t, cs)[1..] == Sent(t, cs[1..]);
      assert [cs[0]] + cs[1..] == cs;
    }
  }

  lemma {:induction false} OthersPlain(k: Console, t: nat, cs: seq<Byte>, u: nat)
    requires ConsoleOk(k) && AllowedRun(k, Sent(t, cs)) && u != t
    ensures PlainTabs(k, Sent(t, cs), u)
    decreases |cs|
  {
    if cs == [] {
    } else {
      assert Sent(t, cs)[1..] == Sent(t, cs[1..]);
      OthersPlain(Apply(k, Sent(t, cs)[0]), t, cs[1..], u);
    }
  }

  /** A text without tabs has no such tab. */
  lemma {:induction false} TextIsPlain(k: Console, es: seq<Event>, t: nat)
    requires ConsoleOk(k) && AllowedRun(k, es) && AllText(Since(k.displayed, es, t).cs)
    ensures PlainTabs(k, es, t)
    decreases |es|
  {
    if es == [] {
    } else {
      var next, rest := Apply(k, es[0]), Since(DisplayedAfter(k.displayed, es[0]), es[1..], t);
      forall c | c in rest.cs ensures IsText(c) {
        if !rest.cleared { assert c in Since(k.displayed, es, t).cs; }
      }
      TextIsPlain(next, es[1..], t);
      if es[0].Char? && es[0].terminal == t && !rest.cleared {
        assert es[0].c in Since(k.displayed, es, t).cs;
      }
    }
  }

  /** What the screen of terminal `t` was when the stream began that it is left with. */
  function Origin(k: Console, es: seq<Event>, t: nat): Screen
    requires |k.screens| == SCREENS && t < SCREENS
  {
    if Since(k.displayed, es, t).cleared then Cleared() else k.screens[t]
  }

  /** The screen is what the stream of the terminal makes of a blank screen, or of the one it had. */
  ghost predicate IsLeftWith(k: Console, es: seq<Event>, t: nat, s: Screen)
    requires |k.screens| == SCREENS && t < SCREENS
  {
    var cs := Since(k.displayed, es, t).cs;
    Ok(Origin(k, es, t)) && CanPutAll(Origin(k, es, t), cs) && s == PutAll(Origin(k, es, t), cs)
  }

  ghost predicate IsFreshText(stream: Stream) { stream.cleared && AllText(stream.cs) }

  /** The screen is the window on the transcript of `cs`, folded, and shows its lines exactly when those are legible. */
  ghost predicate IsWindow(s: Screen, cs: seq<Byte>) {
    Folds(s, History(cs)) && (Shows(s, History(cs)) <==> WindowLegible(s, History(cs)))
  }

  /** What one event does to the screen of terminal `t`. */
  lemma {:induction false} ScreenAfter(k: Console, e: Event, t: nat)
    requires ConsoleOk(k) && Allowed(k, e) && t < SCREENS && !EdgeTab(k, e, t)
    ensures Ok(k.screens[t]) && Apply(k, e).displayed == DisplayedAfter(k.displayed, e)
    ensures if e.Clear? && k.displayed == t then Apply(k, e).screens[t] == Cleared()
            else if e.Char? && e.terminal == t then
              CanPut(k.screens[t], e.c) && Apply(k, e).screens[t] == Put(k.screens[t], e.c)
            else Apply(k, e).screens[t] == k.screens[t]
  {
    hide ShownTab, Tabbed, Stored;
    if e.Char? && e.terminal == t {
      CharIsPut(k, t, e.c);
    }
  }


  /** Whatever is written to the others and however often the display switches, a terminal's screen is that of
      a terminal alone that receives only its own characters since it was cleared, unless one of them is a tab near
      the edge. */
  lemma {:induction false} Isolation(k: Console, es: seq<Event>, t: nat)
    requires ConsoleOk(k) && t < SCREENS && AllowedRun(k, es) && PlainTabs(k, es, t)
    ensures IsLeftWith(k, es, t, Run(k, es).screens[t])
    decreases |es|
  {
    if es == [] {
      assert Ok(k.screens[t]);
    } else {
      var next := Apply(k, es[0]);
      var rest := Since(next.displayed, es[1..], t);
      Isolation(next, es[1..], t);
      if !EdgeTab(k, es[0], t) {
        ScreenAfter(k, es[0], t);
        hide Apply, Put, CanPut, Ok, PlainTabs, EdgeTab;
      }
    }
  }

  /** A terminal that has been cleared shows the last lines of the text written to it since, whatever happened before
      and whatever was displayed. */
  lemma {:induction false} ClearedShows(k: Console, es: seq<Event>, t: nat)
    requires ConsoleOk(k) && t < SCREENS && AllowedRun(k, es)
    requires IsFreshText(Since(k.displayed, es, t))
    ensures IsWindow(Run(k, es).screens[t], Since(k.displayed, es, t).cs)
  {
    TextIsPlain(k, es, t);
    Isolation(k, es, t);
    WindowOnHistory(Since(k.displayed, es, t).cs);
  }
}
