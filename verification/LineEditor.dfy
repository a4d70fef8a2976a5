/** The line editor of the keyboard handler: one bounded line for each terminal. */
module LineEditor {
  const TERMINALS: nat := 3
  const LINE_MAX: nat := 127

  // the two character tables, one row of the keyboard after the other
  const PLAIN: string := "..1234567890-=" + "..qwertyuiop[]" + "..asdfghjkl;.`" + "..zxcvbnm,./"
  const SHIFTED: string := "..!@#$%^&*()_+" + "..QWERTYUIOP{}" + "..ASDFGHJKL:.." + "..ZXCVBNM<>?"

  datatype Flags = Flags(shift: bool, ctrl: bool, alt: bool, caps: bool)

  /** What a scan code asks for, given the modifier keys. */
  datatype Action = Enter | Select(terminal: nat) | Wipe | Modify(flags: Flags) | Erase | Insert(c: char) | Nothing

  predicate IsPrintable(code: nat) {
    0x02 <= code <= 0x0D || 0x10 <= code <= 0x1B || 0x1E <= code <= 0x27 || 0x2C <= code <= 0x35
  }

  predicate IsLetter(code: nat) { 0x10 <= code <= 0x19 || 0x1E <= code <= 0x26 || 0x2C <= code <= 0x32 }

  /** The character of a printable key: the shifted table exactly when shift and, for letters, caps lock disagree. */
  function CharOf(f: Flags, code: nat): char
    requires IsPrintable(code)
  {
    if f.shift != (f.caps && IsLetter(code)) then SHIFTED[code] else PLAIN[code]
  }

  function ModifierOf(f: Flags, code: nat): Action {
    if code == 0x2A || code == 0x36 then Modify(f.(shift := true))
    else if code == 0xAA || code == 0xB6 then Modify(f.(shift := false))
    else if code == 0x1D then Modify(f.(ctrl := true))
    else if code == 0x9D then Modify(f.(ctrl := false))
    else if code == 0x38 then Modify(f.(alt := true))
    else if code == 0xB8 then Modify(f.(alt := false))
    else if code == 0x3A then Modify(f.(caps := !f.caps))
    else Nothing
  }

  function KeyOf(f: Flags, code: nat): Action {
    if f.ctrl || f.alt then Nothing
    else if code == 0x0E then Erase
    else if code == 0x39 then Insert(' ')
    else if code == 0x0F then Insert('\t')
    else if code == 0x28 then Insert(if f.shift then '\"' else '\'')
    else if code == 0x29 then Insert(if f.shift then '~' else '`')
    else if code == 0x2B then Insert(if f.shift then '|' else '\\')
    else if IsPrintable(code) then Insert(CharOf(f, code))
    else Nothing
  }

  function ActionOf(f: Flags, code: nat): Action {
    if code == 0x1C then Enter
    else if f.alt && 0x3B <= code <= 0x3D then Select(code - 0x3B)
    else if f.ctrl && code == 0x26 then Wipe
    else if ModifierOf(f, code) != Nothing then ModifierOf(f, code)
    else KeyOf(f, code)
  }

  /** A bounded line: what is typed at the limit is ignored. */
  function Edited(line: string, a: Action): (r: string)
    requires |line| <= LINE_MAX
    ensures |r| <= LINE_MAX
  {
    match a
    case Insert(c) => if |line| < LINE_MAX then line + [c] else line
    case Erase => if line == [] then [] else line[..|line| - 1]
    case _ => line
  }

  // ----- the keys by their scan codes -----

  /** Where the letters are. */
  lemma {:induction false} PlainRows(code: nat)
    ensures 0x10 <= code <= 0x19 ==> code < |PLAIN| && PLAIN[code] == "qwertyuiop"[code - 0x10]
    ensures 0x1E <= code <= 0x26 ==> code < |PLAIN| && PLAIN[code] == "asdfghjkl"[code - 0x1E]
    ensures 0x2C <= code <= 0x32 ==> code < |PLAIN| && PLAIN[code] == "zxcvbnm"[code - 0x2C]
  {
  }

  lemma {:induction false} ShiftedRows(code: nat)
    ensures 0x10 <= code <= 0x19 ==> code < |SHIFTED| && SHIFTED[code] == "QWERTYUIOP"[code - 0x10]
    ensures 0x1E <= code <= 0x26 ==> code < |SHIFTED| && SHIFTED[code] == "ASDFGHJKL"[code - 0x1E]
    ensures 0x2C <= code <= 0x32 ==> code < |SHIFTED| && SHIFTED[code] == "ZXCVBNM"[code - 0x2C]
  {
  }

  /** The capital of a small letter. */
  function Capital(c: char): (r: char)
    requires 'a' <= c <= 'z'
    ensures r as int == c as int - 32
  {
    (c as int - 32) as char
  }

  lemma {:induction false} Capitals(i: nat)
    ensures i < 10 ==> 'a' <= "qwertyuiop"[i] <= 'z' && "QWERTYUIOP"[i] as int == "qwertyuiop"[i] as int - 32
    ensures i < 9 ==> 'a' <= "asdfghjkl"[i] <= 'z' && "ASDFGHJKL"[i] as int == "asdfghjkl"[i] as int - 32
    ensures i < 7 ==> 'a' <= "zxcvbnm"[i] <= 'z' && "ZXCVBNM"[i] as int == "zxcvbnm"[i] as int - 32
  {
  }

  /** A letter key: its plain character is a small letter, and it types the capital exactly when shift and caps lock
      disagree. */
  lemma {:induction false} LetterKeys(f: Flags, code: nat)
    requires 0x10 <= code <= 0x19 || 0x1E <= code <= 0x26 || 0x2C <= code <= 0x32
    ensures IsPrintable(code) && 'a' <= PLAIN[code] <= 'z'
    ensures CharOf(f, code) == if f.shift != f.caps then Capital(PLAIN[code]) else PLAIN[code]
  {
    hide PLAIN, SHIFTED;
    PlainRows(code);
    ShiftedRows(code);
    Capitals(code - if code <= 0x19 then 0x10 else if code <= 0x26 then 0x1E else 0x2C);
  }

  /** The other printable keys, which follow shift alone. */
  lemma {:induction false} OtherKeys(f: Flags, code: nat)
    ensures 0x02 <= code <= 0x0D ==>
              CharOf(f, code) == if f.shift then "!@#$%^&*()_+"[code - 0x02] else "1234567890-="[code - 0x02]
    ensures 0x1A <= code <= 0x1B ==> CharOf(f, code) == if f.shift then "{}"[code - 0x1A] else "[]"[code - 0x1A]
    ensures code == 0x27 ==> CharOf(f, code) == if f.shift then ':' else ';'
    ensures 0x33 <= code <= 0x35 ==> CharOf(f, code) == if f.shift then "<>?"[code - 0x33] else ",./"[code - 0x33]
  {
  }

  datatype Editor = Editor(lines: seq<string>, entered: seq<bool>, shown: nat, flags: Flags)

  predicate Ok(e: Editor) {
    && |e.lines| == TERMINALS && |e.entered| == TERMINALS && e.shown < TERMINALS
    && |e.lines[0]| <= LINE_MAX && |e.lines[1]| <= LINE_MAX && |e.lines[2]| <= LINE_MAX
  }

  function Press(e: Editor, code: nat): (r: Editor)
    requires Ok(e)
    ensures Ok(r)
  {
    var a := ActionOf(e.flags, code);
    match a
    case Enter => e.(entered := e.entered[e.shown := true])
    case Select(t) => e.(shown := t)
    case Modify(f) => e.(flags := f)
    case _ => e.(lines := e.lines[e.shown := Edited(e.lines[e.shown], a)])
  }

  /** What a key does besides editing: enter sets the flag of the displayed terminal, alt with F1 to F3 displays
      another one, each modifier key sets or clears its own flag, and no line but the displayed one changes. */
  lemma {:induction false} PressModes(e: Editor, code: nat)
    requires Ok(e)
    ensures var n, f := Press(e, code), e.flags;
            && n.entered == (if code == 0x1C then e.entered[e.shown := true] else e.entered)
            && n.shown == (if f.alt && 0x3B <= code <= 0x3D then code - 0x3B else e.shown)
            && n.flags.shift == (if code == 0x2A || code == 0x36 then true
                                 else if code == 0xAA || code == 0xB6 then false else f.shift)
            && n.flags.ctrl == (if code == 0x1D then true else if code == 0x9D then false else f.ctrl)
            && n.flags.alt == (if code == 0x38 then true else if code == 0xB8 then false else f.alt)
            && n.flags.caps == (if code == 0x3A then !f.caps else f.caps)
            && forall t | 0 <= t < TERMINALS && t != e.shown :: n.lines[t] == e.lines[t]
  {
    hide IsPrintable, CharOf, Edited;
  }

  /** What a key does to the displayed line, by scan code: nothing while ctrl or alt is held; otherwise backspace drops
      the last character, and the keys that type append theirs below 127 characters. */
  lemma {:induction false} PressKeys(e: Editor, code: nat)
    requires Ok(e)
    ensures var line, now, f := e.lines[e.shown], Press(e, code).lines[e.shown], e.flags;
            var room := |line| < 127;
            && (f.ctrl || f.alt ==> now == line)
            && (!f.ctrl && !f.alt ==>
                  && (code == 0x0E ==> now == if line == "" then "" else line[..|line| - 1])
                  && (code == 0x39 ==> now == if room then line + " " else line)
                  && (code == 0x0F ==> now == if room then line + "\t" else line)
                  && (code == 0x28 ==> now == if room then line + (if f.shift then "\"" else "\'") else line)
                  && (code == 0x29 ==> now == if room then line + (if f.shift then "~" else "`") else line)
                  && (code == 0x2B ==> now == if room then line + (if f.shift then "|" else "\\") else line)
                  && (IsPrintable(code) ==> now == if room then line + [CharOf(f, code)] else line)
                  && (0x36 <= code && code != 0x39 ==> now == line)
                  && (code == 0x00 || code == 0x01 || code == 0x1C || code == 0x1D || code == 0x2A ==> now == line))
  {
    hide CharOf;
    if IsPrintable(code) && !e.flags.ctrl && !e.flags.alt {
      assert ModifierOf(e.flags, code) == Nothing && KeyOf(e.flags, code) == Insert(CharOf(e.flags, code));
    }
  }

  function PressAll(e: Editor, codes: seq<nat>): (r: Editor)
    requires Ok(e)
    ensures Ok(r)
    decreases |codes|
  {
    if codes == [] then e else PressAll(Press(e, codes[0]), codes[1..])
  }

  /** The actions taken while terminal `t` is displayed. */
  function ActionsOn(e: Editor, codes: seq<nat>, t: nat): seq<Action>
    requires Ok(e)
    decreases |codes|
  {
    if codes == [] then []
    else (if e.shown == t then [ActionOf(e.flags, codes[0])] else []) + ActionsOn(Press(e, codes[0]), codes[1..], t)
  }

  function EditedAll(line: string, actions: seq<Action>): (r: string)
    requires |line| <= LINE_MAX
    ensures |r| <= LINE_MAX
    decreases |actions|
  {
    if actions == [] then line else EditedAll(Edited(line, actions[0]), actions[1..])
  }

  /** After any keys, the line of a terminal is the edit of what was typed while it was displayed. */
  lemma {:induction false} LineIsItsEdit(e: Editor, codes: seq<nat>, t: nat)
    requires Ok(e) && t < TERMINALS
    ensures |e.lines[t]| <= LINE_MAX
    ensures PressAll(e, codes).lines[t] == EditedAll(e.lines[t], ActionsOn(e, codes, t))
    decreases |codes|
  {
    assert |e.lines[t]| <= LINE_MAX;
    if codes == [] {
    } else {
      var n := Press(e, codes[0]);
      LineIsItsEdit(n, codes[1..], t);
      var rest := ActionsOn(n, codes[1..], t);
      if e.shown == t {
        var a := ActionOf(e.flags, codes[0]);
        assert ([a] + rest)[1..] == rest;
      } else {
        assert [] + rest == rest;
      }
    }
  }

  lemma {:induction false} KeyIsNoNewline(f: Flags, code: nat, c: char)
    requires KeyOf(f, code) == Insert(c)
    ensures c != '\n'
  {
    assert '\n' !in PLAIN && '\n' !in SHIFTED;
  }

  predicate NoNewlines(e: Editor)
    requires Ok(e)
  {
    '\n' !in e.lines[0] && '\n' !in e.lines[1] && '\n' !in e.lines[2]
  }

  /** No key puts a newline into a line. */
  lemma {:induction false} LinesStayLines(e: Editor, codes: seq<nat>)
    requires Ok(e) && NoNewlines(e)
    ensures NoNewlines(PressAll(e, codes))
    decreases |codes|
  {
    if codes == [] {
    } else {
      var a := ActionOf(e.flags, codes[0]);
      if a.Insert? {
        KeyIsNoNewline(e.flags, codes[0], a.c);
      }
      LinesStayLines(Press(e, codes[0]), codes[1..]);
    }
  }

  /** Typing and erasing: a key that is not ignored is undone by the next backspace. */
  lemma {:induction false} EraseUndoesInsert(line: string, c: char)
    requires |line| <= LINE_MAX
    ensures Edited(Edited(line, Insert(c)), Erase) == line <==> |line| < LINE_MAX
  {
    if |line| < LINE_MAX {
      assert (line + [c])[..|line|] == line;
    }
  }
}
