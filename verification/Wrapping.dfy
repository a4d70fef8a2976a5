/** The line wrapping of `terminal_write`: the characters its loop hands to the screen. */
module Wrapping {
  import opened Memory
  import opened Screens
  import opened Sequences
  import opened Transcript

  /** A character given to the screen, and whether the loop added it. */
  datatype Emission = Emission(c: Byte, inserted: bool)

  /** What the loop emits for `buf` when `line_ct` characters are counted in the line. */
  function Wrapped(buf: seq<Byte>, lineCt: nat): seq<Emission>
    decreases |buf|
  {
    if buf == [] then []
    else
      var c, rest := buf[0], buf[1..];
      if c == NUL then Wrapped(rest, lineCt)
      else if c == NEWLINE then [Emission(c, false)] + Wrapped(rest, 1)
      else if lineCt == COLS then [Emission(NEWLINE, true), Emission(c, false)] + Wrapped(rest, 1)
      else [Emission(c, false)] + Wrapped(rest, lineCt + 1)
  }

  /** `line_ct` after the loop. */
  function CountAfter(buf: seq<Byte>, lineCt: nat): nat
    decreases |buf|
  {
    if buf == [] then lineCt
    else
      CountAfter(buf[1..],
                 if buf[0] == NUL then lineCt
                 else if buf[0] == NEWLINE || lineCt == COLS then 1
                 else lineCt + 1)
  }

  function Characters(es: seq<Emission>): (cs: seq<Byte>)
    ensures |cs| == |es|
  {
    seq(|es|, i requires 0 <= i < |es| => es[i].c)
  }

  function Kept(es: seq<Emission>): seq<Byte> {
    if es == [] then [] else (if es[0].inserted then [] else [es[0].c]) + Kept(es[1..])
  }

  /** Only newlines are added, and without them the stream is the buffer without its NULs. */
  lemma {:induction false} WrappingIsLossless(buf: seq<Byte>, lineCt: nat)
    ensures Kept(Wrapped(buf, lineCt)) == WithoutNuls(buf)
    ensures forall e | e in Wrapped(buf, lineCt) && e.inserted :: e.c == NEWLINE
    decreases |buf|
  {
    if buf == [] {
    } else {
      var c, rest := buf[0], buf[1..];
      if c == NUL {
        WrappingIsLossless(rest, lineCt);
      } else if c == NEWLINE || lineCt == COLS {
        WrappingIsLossless(rest, 1);
        var w := Wrapped(rest, 1);
        assert ([Emission(c, false)] + w)[1..] == w;
        assert ([Emission(NEWLINE, true), Emission(c, false)] + w)[1..] == [Emission(c, false)] + w;
      } else {
        WrappingIsLossless(rest, lineCt + 1);
        var w := Wrapped(rest, lineCt + 1);
        assert ([Emission(c, false)] + w)[1..] == w;
      }
    }
  }

  lemma {:induction false} FitsPush(c: Byte, w: seq<Emission>, filled: nat)
    requires filled <= COLS && IsText(c) && FitsRows(Characters(w), if IsNewline(c) then 0 else filled + 1)
    ensures FitsRows(Characters([Emission(c, false)] + w), filled)
    ensures c == NEWLINE ==> FitsRows(Characters([Emission(c, true)] + w), filled)
  {
    assert Characters([Emission(c, false)] + w)[1..] == Characters(w);
    assert Characters([Emission(c, true)] + w)[1..] == Characters(w);
  }

  /** No row of the stream overflows, when the count is at least what the row already holds. */
  lemma {:induction false} WrappedFits(buf: seq<Byte>, lineCt: nat, filled: nat)
    requires filled <= lineCt <= COLS
    requires forall c | c in buf :: IsText(c)
    ensures FitsRows(Characters(Wrapped(buf, lineCt)), filled)
    decreases |buf|
  {
    if buf == [] {
    } else {
      var c, rest := buf[0], buf[1..];
      assert c in buf;
      if c == NUL {
        WrappedFits(rest, lineCt, filled);
      } else {
        var next := if c == NEWLINE || lineCt == COLS then 1 else lineCt + 1;
        var start := if c != NEWLINE && lineCt == COLS then 0 else filled;
        var w := Wrapped(rest, next);
        WrappedFits(rest, next, if IsNewline(c) then 0 else start + 1);
        FitsPush(c, w, start);
        if c != NEWLINE && lineCt == COLS {
          FitsPush(NEWLINE, [Emission(c, false)] + w, filled);
          assert [Emission(NEWLINE, true)] + ([Emission(c, false)] + w) == Wrapped(buf, lineCt);
        }
      }
    }
  }

  /** What the loop emits for one character, and the counter after it. */
  function Emitted(c: Byte, lineCt: nat): seq<Emission> {
    if c == NUL then []
    else if c != NEWLINE && lineCt == COLS then [Emission(NEWLINE, true), Emission(c, false)]
    else [Emission(c, false)]
  }

  function NextCount(c: Byte, lineCt: nat): nat {
    if c == NUL then lineCt else if c == NEWLINE || lineCt == COLS then 1 else lineCt + 1
  }

  lemma {:induction false} WrappedCons(c: Byte, rest: seq<Byte>, lineCt: nat)
    ensures Wrapped([c] + rest, lineCt) == Emitted(c, lineCt) + Wrapped(rest, NextCount(c, lineCt))
    ensures CountAfter([c] + rest, lineCt) == CountAfter(rest, NextCount(c, lineCt))
    ensures WithoutNuls([c] + rest) == (if c == NUL then [] else [c]) + WithoutNuls(rest)
  {
    assert ([c] + rest)[0] == c && ([c] + rest)[1..] == rest;
    if c == NUL { assert [] + Wrapped(rest, lineCt) == Wrapped(rest, lineCt); }
  }

  lemma {:induction false} NulsConcat(a: seq<Byte>, b: seq<Byte>)
    ensures WithoutNuls(a + b) == WithoutNuls(a) + WithoutNuls(b)
    decreases |a|
  {
    if a == [] {
      assert a + b == b;
    } else {
      assert (a + b)[1..] == a[1..] + b;
      NulsConcat(a[1..], b);
    }
  }

  /** The loop cut in two, with its counter carried over. */
  lemma {:induction false} WrappedConcat(a: seq<Byte>, b: seq<Byte>, lineCt: nat)
    ensures Wrapped(a + b, lineCt) == Wrapped(a, lineCt) + Wrapped(b, CountAfter(a, lineCt))
    ensures CountAfter(a + b, lineCt) == CountAfter(b, CountAfter(a, lineCt))
    ensures WithoutNuls(a + b) == WithoutNuls(a) + WithoutNuls(b)
    decreases |a|
  {
    NulsConcat(a, b);
    if a == [] {
      assert a + b == b && [] + Wrapped(b, lineCt) == Wrapped(b, lineCt);
    } else {
      hide Wrapped, CountAfter, WithoutNuls, Emitted, NextCount;
      var rest, next := a[1..], NextCount(a[0], lineCt);
      WrappedConcat(rest, b, next);
      WrappedCons(a[0], rest, lineCt);
      WrappedCons(a[0], rest + b, lineCt);
      assert [a[0]] + rest == a;
      Assoc([a[0]], rest, b);
      Assoc(Emitted(a[0], lineCt), Wrapped(rest, next), Wrapped(b, CountAfter(rest, next)));
    }
  }

  // ----- two calls in a row -----

  /** How far a stream fills the row of the cursor, which held `filled` characters. */
  function ColumnAfter(cs: seq<Byte>, filled: nat): nat
    decreases |cs|
  {
    if cs == [] then filled else ColumnAfter(cs[1..], if IsNewline(cs[0]) then 0 else filled + 1)
  }

  /** The characters of a stream before its first newline. */
  function FirstRow(cs: seq<Byte>): nat {
    if cs == [] || IsNewline(cs[0]) then 0 else 1 + FirstRow(cs[1..])
  }

  lemma {:induction false} FitsConcat(a: seq<Byte>, b: seq<Byte>, filled: nat)
    requires filled <= COLS
    ensures FitsRows(a + b, filled) <==> FitsRows(a, filled) && FitsRows(b, ColumnAfter(a, filled))
    decreases |a|
  {
    if a == [] {
      assert a + b == b;
    } else {
      assert (a + b)[0] == a[0] && (a + b)[1..] == a[1..] + b;
      if IsNewline(a[0]) {
        FitsConcat(a[1..], b, 0);
      } else if filled < COLS {
        FitsConcat(a[1..], b, filled + 1);
      }
    }
  }

  /** A stream that fits from column `a` fits from a later column exactly when its first row does. */
  lemma {:induction false} FitsFrom(cs: seq<Byte>, a: nat, b: nat)
    requires a <= b && FitsRows(cs, a)
    ensures FitsRows(cs, b) <==> b + FirstRow(cs) <= COLS
    decreases |cs|
  {
    if cs == [] || IsNewline(cs[0]) {
    } else {
      FitsFrom(cs[1..], a + 1, b + 1);
    }
  }

  /** Each call starts counting at 0, wherever the cursor stands: two calls overflow a row exactly when what the
      first leaves in it and the first row of the second are more than 80 characters. */
  lemma {:induction false} TwoWritesFit(a: seq<Byte>, b: seq<Byte>)
    requires (forall c | c in a :: IsText(c)) && forall c | c in b :: IsText(c)
    ensures var first, second := Characters(Wrapped(a, 0)), Characters(Wrapped(b, 0));
            FitsRows(first + second, 0) <==> ColumnAfter(first, 0) + FirstRow(second) <= COLS
  {
    WrappedFits(a, 0, 0);
    WrappedFits(b, 0, 0);
    var first, second := Characters(Wrapped(a, 0)), Characters(Wrapped(b, 0));
    FitsConcat(first, second, 0);
    FitsFrom(second, 0, ColumnAfter(first, 0));
  }

  // ----- any number of calls -----

  /** What a series of calls emits, each counting from 0. */
  function Writes(bufs: seq<seq<Byte>>): seq<Byte> {
    if bufs == [] then [] else Characters(Wrapped(bufs[0], 0)) + Writes(bufs[1..])
  }

  ghost predicate AllTexts(bufs: seq<seq<Byte>>) { forall b, c | b in bufs && c in b :: IsText(c) }

  /** The first row of every call fits behind what the calls before it left in the row of the cursor. */
  predicate EachFits(bufs: seq<seq<Byte>>, filled: nat) {
    bufs == [] ||
    (var first := Characters(Wrapped(bufs[0], 0));
     filled + FirstRow(first) <= COLS && EachFits(bufs[1..], ColumnAfter(first, filled)))
  }

  lemma {:induction false} WritesFit(bufs: seq<seq<Byte>>, filled: nat)
    requires AllTexts(bufs) && filled <= COLS
    ensures FitsRows(Writes(bufs), filled) <==> EachFits(bufs, filled)
    decreases |bufs|
  {
    if bufs == [] {
    } else {
      var first := Characters(Wrapped(bufs[0], 0));
      assert forall c | c in bufs[0] :: bufs[0] in bufs && IsText(c);
      WrappedFits(bufs[0], 0, 0);
      FitsConcat(first, Writes(bufs[1..]), filled);
      FitsFrom(first, 0, filled);
      if filled + FirstRow(first) <= COLS {
        ColumnBound(first, filled);
        WritesFit(bufs[1..], ColumnAfter(first, filled));
      }
    }
  }

  lemma {:induction false} ColumnBound(cs: seq<Byte>, filled: nat)
    requires FitsRows(cs, filled)
    ensures ColumnAfter(cs, filled) <= COLS
    decreases |cs|
  {
    if cs == [] {
    } else {
      ColumnBound(cs[1..], if IsNewline(cs[0]) then 0 else filled + 1);
    }
  }

  lemma {:induction false} WritesAreText(bufs: seq<seq<Byte>>)
    requires AllTexts(bufs)
    ensures AllText(Writes(bufs))
    decreases |bufs|
  {
    if bufs == [] {
    } else {
      assert forall c | c in bufs[0] :: bufs[0] in bufs && IsText(c);
      WrappedFits(bufs[0], 0, 0);
      FitsIsShort([[]], Characters(Wrapped(bufs[0], 0)));
      WritesAreText(bufs[1..]);
    }
  }

  /** Texts written to a terminal whose screen was cleared: the rows are the last ones of the wrapped history, folded;
      and not folded when every call fits. */
  lemma {:induction false} WritesShow(bufs: seq<seq<Byte>>)
    requires AllTexts(bufs)
    ensures var cs := Writes(bufs);
            && CanPutAll(Cleared(), cs) && Folds(PutAll(Cleared(), cs), History(cs))
            && (EachFits(bufs, 0) ==> Shows(PutAll(Cleared(), cs), History(cs)))
  {
    WritesAreText(bufs);
    WritesFit(bufs, 0);
    WindowOnHistory(Writes(bufs));
  }

  /** Text of one call: its rows are not folded. */
  lemma {:induction false} WrittenTextShows(buf: seq<Byte>)
    requires forall c | c in buf :: IsText(c)
    ensures var cs := Characters(Wrapped(buf, 0));
            CanPutAll(Cleared(), cs) && Shows(PutAll(Cleared(), cs), History(cs))
  {
    WrappedFits(buf, 0, 0);
    FitsIsShort([[]], Characters(Wrapped(buf, 0)));
    WindowOnHistory(Characters(Wrapped(buf, 0)));
  }

  // ----- a line in parts -----

  predicate IsPlain(c: Byte) { IsText(c) && !IsNewline(c) && c != NUL }

  /** A call with no newline and no NUL: its first row has at most 80 characters, and without a second one it is the
      text itself. */
  lemma {:induction false} PlainRow(buf: seq<Byte>, lineCt: nat)
    requires lineCt <= COLS && forall c | c in buf :: IsPlain(c)
    ensures FirstRow(Characters(Wrapped(buf, lineCt))) == if lineCt + |buf| <= COLS then |buf| else COLS - lineCt
    ensures lineCt + |buf| <= COLS ==> Characters(Wrapped(buf, lineCt)) == buf
    decreases |buf|
  {
    if buf == [] {
    } else {
      var c, rest := buf[0], buf[1..];
      assert c in buf && IsPlain(c) && forall d | d in rest :: d in buf;
      assert [c] + rest == buf;
      hide IsText, Wrapped, Characters, FirstRow;
      WrappedCons(c, rest, lineCt);
      if lineCt < COLS {
        PlainRow(rest, lineCt + 1);
        EmissionFirst(c, false, Wrapped(rest, lineCt + 1));
      } else {
      }
    }
  }

  lemma {:induction false} EmissionFirst(c: Byte, inserted: bool, w: seq<Emission>)
    ensures var cs := Characters([Emission(c, inserted)] + w);
            cs == [c] + Characters(w) && FirstRow(cs) == if IsNewline(c) then 0 else 1 + FirstRow(Characters(w))
  {
    assert Characters([Emission(c, inserted)] + w)[1..] == Characters(w);
  }


  lemma {:induction false} PlainColumn(buf: seq<Byte>, filled: nat)
    requires forall c | c in buf :: IsPlain(c)
    ensures ColumnAfter(buf, filled) == filled + |buf|
    decreases |buf|
  {
    if buf == [] {
    } else {
      assert buf[0] in buf && forall c | c in buf[1..] :: c in buf;
      PlainColumn(buf[1..], filled + 1);
    }
  }

  /** The four calls that print a name, a mark, a line and a newline keep within the rows exactly when the whole line
      does; otherwise it overwrites its own beginning, the name. */
  lemma {:induction false} LineInParts(name: seq<Byte>, mark: Byte, line: seq<Byte>)
    requires (forall c | c in name :: IsPlain(c)) && IsPlain(mark) && forall c | c in line :: IsPlain(c)
    requires |name| < COLS
    ensures FitsRows(Writes([name, [mark], line, [NEWLINE]]), 0) <==> |name| + 1 + |line| <= COLS
  {
    var bufs := [name, [mark], line, [NEWLINE]];
    assert AllTexts(bufs);
    WritesFit(bufs, 0);
    PlainRow(name, 0);
    PlainColumn(name, 0);
    PlainRow([mark], 0);
    PlainColumn([mark], |name|);
    PlainRow(line, 0);
    PlainColumn(line, |name| + 1);
    assert bufs[1..] == [[mark], line, [NEWLINE]] && bufs[1..][1..] == [line, [NEWLINE]];
    assert [line, [NEWLINE]][1..] == [[NEWLINE]] && [[NEWLINE]][1..] == [];
    hide FirstRow, ColumnAfter, Characters, Wrapped, FitsRows, AllTexts;
    Unfold(name, bufs[1..], 0);
    Unfold([mark], [line, [NEWLINE]], |name|);
    Unfold(line, [[NEWLINE]], |name| + 1);
  }

  lemma {:induction false} Unfold(first: seq<Byte>, rest: seq<seq<Byte>>, filled: nat)
    ensures var w := Characters(Wrapped(first, 0));
            EachFits([first] + rest, filled) <==> filled + FirstRow(w) <= COLS && EachFits(rest, ColumnAfter(w, filled))
  {
    assert ([first] + rest)[1..] == rest;
  }

}
