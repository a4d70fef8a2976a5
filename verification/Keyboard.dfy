/** The keyboard handler and `terminal_read`, over the buffers of the three terminals. */
module Keyboard {
  import opened LineEditor

  const BUFFER_LIM: nat := 128

  /** What cell `i` of a terminal's buffer holds for its line: behind the line there are only NULs. */
  function Cell(line: string, i: nat): char { if i < |line| then line[i] else '\0' }

  class Driver {
    const buffers: array2<char>   // terminal[].keyboard_buffer
    const count: array<nat>       // terminal[].buffer_ct
    const enterRead: array<bool>
    var terminalNum: nat
    var shift: bool
    var ctrl: bool
    var alt: bool
    var caps: bool
    /** The editor this state represents. */
    ghost var editor: Editor

    ghost predicate Valid()
      reads this, count, buffers, enterRead
    {
      && buffers.Length0 == TERMINALS && buffers.Length1 == LINE_MAX && count.Length == TERMINALS
      && enterRead.Length == TERMINALS && Ok(editor)
      && count[..] == [|editor.lines[0]|, |editor.lines[1]|, |editor.lines[2]|]
      && enterRead[..] == editor.entered
      && (forall t, i | 0 <= t < TERMINALS && 0 <= i < LINE_MAX :: buffers[t, i] == Cell(editor.lines[t], i))
      && terminalNum == editor.shown && Flags(shift, ctrl, alt, caps) == editor.flags
    }

    constructor ()
      ensures Valid() && editor == Editor(["", "", ""], [false, false, false], 0, Flags(false, false, false, false))
    {
      buffers := new char[TERMINALS, LINE_MAX]((t, i) => '\0');
      count := new nat[TERMINALS](i => 0);
      enterRead := new bool[TERMINALS](i => false);
      terminalNum := 0;
      shift, ctrl, alt, caps := false, false, false, false;
      editor := Editor(["", "", ""], [false, false, false], 0, Flags(false, false, false, false));
    }

    /** `flag_setters`. */
    method FlagSetters(code: nat) returns (changed: bool)
      modifies `shift, `ctrl, `alt, `caps
      ensures var f := Flags(old(shift), old(ctrl), old(alt), old(caps));
              var m := ModifierOf(f, code);
              changed == m.Modify? && Flags(shift, ctrl, alt, caps) == if changed then m.flags else f
    {
      changed := true;
      if code == 0x2A || code == 0x36 {
        shift := true;
      } else if code == 0xAA || code == 0xB6 {
        shift := false;
      } else if code == 0x1D {
        ctrl := true;
      } else if code == 0x9D {
        ctrl := false;
      } else if code == 0x38 {
        alt := true;
      } else if code == 0xB8 {
        alt := false;
      } else if code == 0x3A {
        caps := !caps;
      } else {
        changed := false;
      }
    }

    /** Backspace, when no modifier holds it off. */
    method EraseLast()
      requires Valid()
      modifies this`editor, count, buffers
      ensures Valid()
      ensures var t := terminalNum;
              editor == old(editor).(lines := old(editor).lines[t := Edited(old(editor).lines[t], Erase)])
    {
      ghost var was := editor.lines[terminalNum];
      if count[terminalNum] != 0 {
        count[terminalNum] := count[terminalNum] - 1;
        buffers[terminalNum, count[terminalNum]] := '\0';
      }
      editor := editor.(lines := editor.lines[terminalNum := Edited(was, Erase)]);
    }

    /** A character, appended unless the buffer is full. */
    method Append(c: char)
      requires Valid()
      modifies this`editor, count, buffers
      ensures Valid()
      ensures var t := terminalNum;
              editor == old(editor).(lines := old(editor).lines[t := Edited(old(editor).lines[t], Insert(c))])
    {
      ghost var was := editor.lines[terminalNum];
      if count[terminalNum] < BUFFER_LIM - 1 {
        buffers[terminalNum, count[terminalNum]] := c;
        count[terminalNum] := count[terminalNum] + 1;
      }
      editor := editor.(lines := editor.lines[terminalNum := Edited(was, Insert(c))]);
    }

    /** The character a printable key stands for, by the six cases of the handler. */
    method Translate(code: nat) returns (c: char)
      requires IsPrintable(code)
      ensures c == CharOf(Flags(shift, ctrl, alt, caps), code)
    {
      if !caps && !shift {
        c := PLAIN[code];
      } else if !shift && IsLetter(code) {
        c := SHIFTED[code];
      } else if !shift {
        c := PLAIN[code];
      } else if !caps {
        c := SHIFTED[code];
      } else if IsLetter(code) {
        c := PLAIN[code];
      } else {
        c := SHIFTED[code];
      }
    }

    /** The editing part of `keyboard_handler`. */
    method EditKey(code: nat)
      requires Valid()
      modifies this`editor, count, buffers
      ensures Valid()
      ensures var t := terminalNum;
              editor == old(editor).(lines :=
                old(editor).lines[t := Edited(old(editor).lines[t], KeyOf(old(editor).flags, code))])
    {
      hide Valid, Edited;
      Unedited();
      var blocked := ctrl || alt;
      FlagsAre();
      if blocked {
        return;
      }
      if code == 0x0E {
        EraseLast();
      } else if code == 0x39 {
        Append(' ');
      } else if code == 0x0F {
        Append('\t');
      } else if code == 0x28 {
        Append(if shift then '\"' else '\'');
      } else if code == 0x29 {
        Append(if shift then '~' else '`');
      } else if code == 0x2B {
        Append(if shift then '|' else '\\');
      } else if IsPrintable(code) {
        var c := Translate(code);
        Append(c);
      }
    }

    lemma FlagsAre()
      requires Valid()
      ensures Flags(shift, ctrl, alt, caps) == editor.flags
    {
    }

    lemma Unedited()
      requires Valid()
      ensures terminalNum < TERMINALS == |editor.lines| && |editor.lines[terminalNum]| <= LINE_MAX
      ensures editor == editor.(lines := editor.lines[terminalNum := Edited(editor.lines[terminalNum], Nothing)])
    {
    }

    method EnterKey()
      requires Valid()
      modifies this`editor, enterRead
      ensures Valid() && editor == old(editor).(entered := old(editor).entered[terminalNum := true])
    {
      enterRead[terminalNum] := true;
      editor := editor.(entered := editor.entered[terminalNum := true]);
    }

    method SelectKey(next: nat)
      requires Valid() && next < TERMINALS
      modifies this`editor, this`terminalNum
      ensures Valid() && editor == old(editor).(shown := next)
    {
      terminalNum := next;
      editor := editor.(shown := next);
    }

    method ModifierKey(code: nat) returns (changed: bool)
      requires Valid()
      modifies this`editor, this`shift, this`ctrl, this`alt, this`caps
      ensures Valid()
      ensures var m := ModifierOf(old(editor).flags, code);
              changed == m.Modify? && editor == if changed then old(editor).(flags := m.flags) else old(editor)
    {
      changed := FlagSetters(code);
      editor := editor.(flags := Flags(shift, ctrl, alt, caps));
    }

    /** `keyboard_handler`, as far as buffers, flags and the displayed terminal go. */
    method Handler(code: nat)
      requires Valid()
      modifies this, count, buffers, enterRead
      ensures Valid() && editor == Press(old(editor), code)
      ensures enterRead[..] == if code == 0x1C then old(enterRead[..])[old(terminalNum) := true] else old(enterRead[..])
      ensures terminalNum == if old(alt) && 0x3B <= code <= 0x3D then code - 0x3B else old(terminalNum)
      ensures shift == if code in {0x2A, 0x36} then true else if code in {0xAA, 0xB6} then false else old(shift)
      ensures ctrl == if code == 0x1D then true else if code == 0x9D then false else old(ctrl)
      ensures alt == if code == 0x38 then true else if code == 0xB8 then false else old(alt)
      ensures caps == if code == 0x3A then !old(caps) else old(caps)
      ensures forall t | 0 <= t < TERMINALS && (t != old(terminalNum) || old(ctrl) || old(alt)) ::
                editor.lines[t] == old(editor).lines[t]
      ensures !old(ctrl) && !old(alt) ==>
                var line, now := old(editor).lines[old(terminalNum)], editor.lines[old(terminalNum)];
                && (code == 0x0E ==> now == if line == "" then "" else line[..|line| - 1])
                && (code == 0x39 ==> now == if |line| < 127 then line + " " else line)
                && (code == 0x0F ==> now == if |line| < 127 then line + "\t" else line)
    {
      PressModes(editor, code);
      PressKeys(editor, code);
      ConcreteState();
      hide Press;
      Pressed(code);
    }

    /** The concrete fields that the editor shows. */
    lemma ConcreteState()
      requires Valid()
      ensures Ok(editor) && enterRead[..] == editor.entered && terminalNum == editor.shown
      ensures editor.flags == Flags(shift, ctrl, alt, caps)
    {
    }

    /** The branches of the handler. */
    method Pressed(code: nat)
      requires Valid()
      modifies this, count, buffers, enterRead
      ensures Valid() && editor == Press(old(editor), code)
    {
      FlagsAre();
      Unedited();
      hide Valid, Edited, KeyOf;
      if code == 0x1C {
        EnterKey();
        return;
      }
      if alt && 0x3B <= code <= 0x3D {
        SelectKey(code - 0x3B);
        return;
      }
      if ctrl && code == 0x26 {
        // the screen is cleared, the line is kept
        return;
      }
      var changed := ModifierKey(code);
      if !changed {
        EditKey(code);
      }
    }

    /** Any keys, over all three terminals: each line is the edit of what was typed while it was displayed. */
    method Type(codes: seq<nat>)
      requires Valid()
      modifies this, count, buffers, enterRead
      ensures Valid() && editor == PressAll(old(editor), codes)
      ensures forall t | 0 <= t < TERMINALS ::
                |old(editor).lines[t]| <= LINE_MAX
                && editor.lines[t] == EditedAll(old(editor).lines[t], ActionsOn(old(editor), codes, t))
    {
      ghost var start := editor;
      var i := 0;
      while i < |codes|
        invariant 0 <= i <= |codes| && Valid() && PressAll(editor, codes[i..]) == PressAll(start, codes)
      {
        assert codes[i..][0] == codes[i] && codes[i..][1..] == codes[i + 1..];
        Handler(codes[i]);
        i := i + 1;
      }
      forall t: nat | t < TERMINALS
        ensures |start.lines[t]| <= LINE_MAX && editor.lines[t] == EditedAll(start.lines[t], ActionsOn(start, codes, t))
      {
        LineIsItsEdit(start, codes, t);
      }
    }

    /** `clear_buffer`, for the displayed terminal. */
    method ClearBuffer()
      requires Valid()
      modifies this`editor, count, buffers
      ensures Valid() && editor == old(editor).(lines := old(editor).lines[terminalNum := ""])
    {
      ghost var e := editor;
      var i := 0;
      while i < BUFFER_LIM - 1
        invariant 0 <= i <= LINE_MAX && editor == e && count[..] == old(count[..])
        invariant forall t, j | 0 <= t < TERMINALS && 0 <= j < LINE_MAX ::
                    buffers[t, j] == if t == terminalNum && j < i then '\0' else Cell(e.lines[t], j)
      {
        buffers[terminalNum, i] := '\0';
        i := i + 1;
      }
      count[terminalNum] := 0;
      editor := editor.(lines := editor.lines[terminalNum := ""]);
    }

    /** The copying part of `terminal_read`. */
    method CopyLine(buf: array<char>, n: nat)
      requires Valid() && n <= buf.Length
      modifies buf
      ensures Valid() && editor == old(editor)
      ensures forall j | 0 <= j < buf.Length ::
                buf[j] == if j < n - 1 && j < LINE_MAX then Cell(editor.lines[terminalNum], j) else old(buf[j])
    {
      ghost var line := editor.lines[terminalNum];
      var limit := if n > BUFFER_LIM then BUFFER_LIM - 1 else n - 1;
      var i := 0;
      while i < limit
        invariant 0 <= i && (i <= limit || i == 0) && Valid() && editor == old(editor)
        invariant forall j | 0 <= j < buf.Length :: buf[j] == if j < i then Cell(line, j) else old(buf[j])
      {
        buf[i] := buffers[terminalNum, i];
        i := i + 1;
      }
    }

    /** `terminal_read` once its wait is over: the process is on the displayed terminal and enter was pressed. */
    method TerminalRead(buf: array<char>, n: nat) returns (result: nat)
      requires Valid() && enterRead[terminalNum]
      requires n <= buf.Length && 6 <= buf.Length && count[terminalNum] < buf.Length
      modifies this`editor, count, buffers, enterRead, buf
      ensures Valid()
      ensures var t := terminalNum;
              editor == old(editor).(lines := old(editor).lines[t := ""], entered := old(editor).entered[t := false])
      ensures var line := old(editor).lines[terminalNum];
              && result == |line| + 1
              && (n > |line| ==> buf[..|line|] == line)
              && buf[|line|] == (if SaysExit(buf[..], |line|) then '\0' else '\n')
              && (n > 6 && '\n' !in line ==> buf[|line|] == if line == "exit" then '\0' else '\n')
      // the line break is stored behind the line even when that is outside the n bytes asked for
      ensures forall j | 0 <= j < buf.Length && j != |old(editor).lines[terminalNum]| ::
                buf[j] == if j < n - 1 && j < 127 then Cell(old(editor).lines[terminalNum], j) else old(buf[j])
    {
      ghost var line := editor.lines[terminalNum];
      var saved := DeliverLine(buf, n);
      hide Cell, IsExit;
      ghost var done := buf[..];
      if n > 6 && '\n' !in line {
        ExitLine(done, line);
      }
      hide SaysExit;
      FinishRead();
      assert buf[..] == done;
      result := saved + 1;
    }

    /** What it puts into the buffer of the process, byte by byte and for every size: the line, NULs behind it, and the
        rest as it was. */
    method DeliverLine(buf: array<char>, n: nat) returns (saved: nat)
      requires Valid() && n <= buf.Length && 6 <= buf.Length && count[terminalNum] < buf.Length
      modifies buf
      ensures Valid() && editor == old(editor)
      ensures var line := editor.lines[terminalNum];
              && saved == |line|
              && (forall j | 0 <= j < buf.Length && j != |line| ::
                    buf[j] == if j < n - 1 && j < 127 then (if j < |line| then line[j] else '\0') else old(buf[j]))
              && buf[|line|] == if SaysExit(buf[..], |line|) then '\0' else '\n'
    {
      hide Valid, IsExit;
      LineIsCounted();
      CopyLine(buf, n);
      saved := count[terminalNum];
      buf[saved] := '\n';
      ghost var was := buf[..];
      ExitBytes(was, saved);
      if IsExit(buf[..]) {
        buf[saved] := '\0';
      }
      ExitBytes(was, saved);
      SameExit(was, buf[..], saved);
    }

    lemma LineIsCounted()
      requires Valid()
      ensures terminalNum < TERMINALS == |editor.lines| == count.Length
      ensures count[terminalNum] == |editor.lines[terminalNum]| <= LINE_MAX
    {
    }

    method FinishRead()
      requires Valid()
      modifies this`editor, count, buffers, enterRead
      ensures Valid()
      ensures var t := terminalNum;
              editor == old(editor).(lines := old(editor).lines[t := ""], entered := old(editor).entered[t := false])
    {
      ClearBuffer();
      enterRead[terminalNum] := false;
      editor := editor.(entered := editor.entered[terminalNum := false]);
    }
  }


  /** `strncmp` with "exit" and a line break, over six bytes. */
  predicate IsExit(buf: seq<char>) { |buf| >= 6 && buf[..6] == "exit\n" + ['\0'] }

  /** Byte `j`, with a line break at `at`. */
  function WithBreak(buf: seq<char>, at: nat, j: nat): char
    requires j < |buf|
  {
    if j == at then '\n' else buf[j]
  }

  /** The six bytes are "exit", a line break and a NUL. */
  predicate SaysExit(buf: seq<char>, at: nat) {
    && |buf| >= 6
    && WithBreak(buf, at, 0) == 'e' && WithBreak(buf, at, 1) == 'x' && WithBreak(buf, at, 2) == 'i'
    && WithBreak(buf, at, 3) == 't' && WithBreak(buf, at, 4) == '\n' && WithBreak(buf, at, 5) == '\0'
  }

  lemma {:induction false} ExitBytes(buf: seq<char>, at: nat)
    requires |buf| >= 6 && at < |buf| && buf[at] == '\n'
    ensures IsExit(buf) <==> SaysExit(buf, at)
  {
    var six, exit := buf[..6], "exit\n" + ['\0'];
    assert six[0] == buf[0] && six[1] == buf[1] && six[2] == buf[2] && six[3] == buf[3];
    assert six[4] == buf[4] && six[5] == buf[5];
    assert exit[0] == 'e' && exit[1] == 'x' && exit[2] == 'i' && exit[3] == 't' && exit[4] == '\n' && exit[5] == '\0';
    if SaysExit(buf, at) {
      assert six == exit;
    }
  }

  lemma {:induction false} SameExit(was: seq<char>, now: seq<char>, at: nat)
    requires |was| == |now| && forall j | 0 <= j < |was| && j != at :: was[j] == now[j]
    ensures SaysExit(was, at) <==> SaysExit(now, at)
  {
  }

  /** The test finds the line "exit" and no other. */
  lemma {:induction false} ExitLine(buf: seq<char>, line: string)
    requires |buf| >= 6 && |line| < |buf| && '\n' !in line
    requires forall j | 0 <= j < 6 && j != |line| :: buf[j] == Cell(line, j)
    ensures SaysExit(buf, |line|) <==> line == "exit"
  {
    var fifth := Cell(line, 4);
    assert |line| > 4 ==> fifth in line;
    assert |line| != 4 ==> buf[4] == fifth;
    assert |line| > 0 ==> buf[0] == line[0];
    assert |line| > 1 ==> buf[1] == line[1];
    assert |line| > 2 ==> buf[2] == line[2];
    assert |line| > 3 ==> buf[3] == line[3];
    assert |line| == 4 ==> buf[5] == '\0';
    if line == "exit" {
      assert SaysExit(buf, 4);
    }
    if SaysExit(buf, |line|) {
      assert |line| == 4;
      assert line == "exit";
    }
  }
}
