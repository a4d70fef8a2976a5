/** What grep should print: every line that contains the pattern, in order. */
module GrepSpec {
  import opened Memory
  import opened Sequences

  const NEWLINE: Byte := 10
  const COLON: Byte := 58
  const BUFSIZE: nat := 1024

  type Text = seq<Byte>

  /** The index of the first newline from `i` on, or the end. */
  function LineEnd(f: Text, i: nat): (e: nat)
    requires i <= |f|
    ensures i <= e <= |f| && (e < |f| ==> f[e] == NEWLINE)
    ensures forall k | i <= k < e :: f[k] != NEWLINE
    decreases |f| - i
  {
    if i == |f| || f[i] == NEWLINE then i else LineEnd(f, i + 1)
  }

  lemma {:induction false} LineEndUnique(f: Text, e: nat)
    requires e <= |f| && (e < |f| ==> f[e] == NEWLINE) && forall k | 0 <= k < e :: f[k] != NEWLINE
    ensures LineEnd(f, 0) == e
  {
  }

  function Lines(f: Text): (lines: seq<Text>)
    ensures |lines| > 0
    decreases |f|
  {
    var e := LineEnd(f, 0);
    if e == |f| then [f] else [f[..e]] + Lines(f[e + 1..])
  }

  function Joined(lines: seq<Text>): Text
    requires |lines| > 0
  {
    if |lines| == 1 then lines[0] else lines[0] + [NEWLINE] + Joined(lines[1..])
  }

  /** The lines are the file cut at its newlines: nothing lost, nothing added. */
  lemma {:induction false} LinesJoin(f: Text)
    ensures Joined(Lines(f)) == f
    ensures forall line | line in Lines(f) :: NEWLINE !in line
    decreases |f|
  {
    var e := LineEnd(f, 0);
    if e < |f| {
      LinesJoin(f[e + 1..]);
      assert Lines(f)[1..] == Lines(f[e + 1..]);
      assert f == f[..e] + [NEWLINE] + f[e + 1..];
    }
  }

  predicate OccursAt(line: Text, s: Text, i: nat) { i + |s| <= |line| && line[i..i + |s|] == s }

  predicate Occurs(line: Text, s: Text) { exists i | 0 <= i <= |line| :: OccursAt(line, s, i) }

  /** The test of the program: its first comparison is between a signed and an unsigned byte. */
  predicate Finds(line: Text, s: Text) {
    |s| > 0 && exists i | 0 <= i < |line| :: Signed(s[0]) == line[i] && OccursAt(line, s, i)
  }

  /** The test is right exactly when the pattern starts with an ASCII byte; otherwise nothing is ever found. */
  lemma {:induction false} FindsIsExact(line: Text, s: Text)
    requires |s| > 0
    ensures s[0] < 128 ==> (Finds(line, s) <==> Occurs(line, s))
    ensures s[0] >= 128 ==> !Finds(line, s)
  {
    if s[0] < 128 && Occurs(line, s) {
      var i :| 0 <= i <= |line| && OccursAt(line, s, i);
      assert line[i..i + |s|][0] == line[i];
    }
  }

  function ReportLine(name: Text, s: Text, line: Text): Text {
    if Finds(line, s) then name + [COLON] + line + [NEWLINE] else []
  }

  function ReportLines(name: Text, s: Text, lines: seq<Text>): Text {
    if lines == [] then [] else ReportLine(name, s, lines[0]) + ReportLines(name, s, lines[1..])
  }

  /** What the naive search prints for one line. */
  function NaiveLine(name: Text, s: Text, line: Text): Text {
    if Occurs(line, s) then name + [COLON] + line + [NEWLINE] else []
  }

  /** The output of a search line by line. */
  function NaiveReport(name: Text, s: Text, lines: seq<Text>): Text {
    if lines == [] then []
    else NaiveLine(name, s, lines[0]) + NaiveReport(name, s, lines[1..])
  }

  /** For a pattern that starts with an ASCII byte the lines printed are those that contain it; for any other
      pattern there are none. */
  lemma {:induction false} ReportIsExact(name: Text, s: Text, lines: seq<Text>)
    requires |s| > 0
    ensures s[0] < 128 ==> ReportLines(name, s, lines) == NaiveReport(name, s, lines)
    ensures s[0] >= 128 ==> ReportLines(name, s, lines) == []
  {
    if lines == [] {
    } else {
      FindsIsExact(lines[0], s);
      ReportIsExact(name, s, lines[1..]);
    }
  }

  predicate LinesFit(f: Text) { forall line | line in Lines(f) :: |line| <= BUFSIZE }

  // ----- what the program searches -----

  /** The pieces the program searches one by one: the lines, but a line is cut after 1024 bytes. */
  function Pieces(f: Text): (pieces: seq<Text>)
    decreases |f|
  {
    var e := LineEnd(f, 0);
    if e < |f| && e < BUFSIZE then [f[..e]] + Pieces(f[e + 1..])
    else if |f| <= BUFSIZE then [f]
    else [f[..BUFSIZE]] + Pieces(f[BUFSIZE..])
  }

  /** The whole output for a file. */
  function Report(name: Text, s: Text, f: Text): Text { ReportLines(name, s, Pieces(f)) }

  lemma {:induction false} OneLine(name: Text, s: Text, line: Text)
    ensures ReportLines(name, s, [line]) == ReportLine(name, s, line)
  {
    assert [line][1..] == [];
    assert ReportLine(name, s, line) + [] == ReportLine(name, s, line);
  }

  lemma {:induction false} NothingToReport(name: Text, s: Text)
    ensures Report(name, s, []) == [] && ReportLine(name, s, []) == []
  {
    assert Pieces([]) == [[]];
    OneLine(name, s, []);
  }

  /** A line ended by a newline within the first 1024 bytes. */
  lemma {:induction false} TakeLine(name: Text, s: Text, f: Text, e: nat)
    requires e < |f| && e < BUFSIZE && f[e] == NEWLINE && forall k | 0 <= k < e :: f[k] != NEWLINE
    ensures Report(name, s, f) == ReportLine(name, s, f[..e]) + Report(name, s, f[e + 1..])
  {
    LineEndUnique(f, e);
    assert Pieces(f)[0] == f[..e] && Pieces(f)[1..] == Pieces(f[e + 1..]);
  }

  /** The last piece, without a newline. */
  lemma {:induction false} TakeLast(name: Text, s: Text, f: Text)
    requires |f| <= BUFSIZE && forall k | 0 <= k < |f| :: f[k] != NEWLINE
    ensures Report(name, s, f) == ReportLine(name, s, f)
  {
    LineEndUnique(f, |f|);
    assert Pieces(f) == [f];
    OneLine(name, s, f);
  }

  /** A piece that fills the buffer. */
  lemma {:induction false} TakeFullBuffer(name: Text, s: Text, f: Text)
    requires |f| >= BUFSIZE && forall k | 0 <= k < BUFSIZE :: f[k] != NEWLINE
    ensures Report(name, s, f) == ReportLine(name, s, f[..BUFSIZE]) + Report(name, s, f[BUFSIZE..])
  {
    if |f| == BUFSIZE {
      TakeLast(name, s, f);
      NothingToReport(name, s);
      assert f[..BUFSIZE] == f && f[BUFSIZE..] == [];
    } else {
      assert LineEnd(f, 0) >= BUFSIZE;
      assert Pieces(f)[0] == f[..BUFSIZE] && Pieces(f)[1..] == Pieces(f[BUFSIZE..]);
    }
  }

  /** When no line is longer than 1024 bytes the pieces report what the lines do: a line of exactly 1024 leaves its
      newline behind, and that is searched as an empty line, which reports nothing. */
  lemma {:induction false} PiecesAreLines(name: Text, s: Text, f: Text)
    requires LinesFit(f)
    ensures Report(name, s, f) == ReportLines(name, s, Lines(f))
    decreases |f|
  {
    var e := LineEnd(f, 0);
    hide Lines, LinesFit, Pieces, ReportLines, ReportLine, Report;
    if e == |f| {
      OnlyLine(name, s, f);
    } else {
      FirstLine(name, s, f);
      PiecesAreLines(name, s, f[e + 1..]);
      if e < BUFSIZE {
        TakeLine(name, s, f, e);
      } else {
        TakeFullLine(name, s, f);
      }
    }
  }

  lemma {:induction false} TakeFullLine(name: Text, s: Text, f: Text)
    requires LineEnd(f, 0) == BUFSIZE < |f|
    ensures Report(name, s, f) == ReportLine(name, s, f[..BUFSIZE]) + Report(name, s, f[BUFSIZE + 1..])
  {
    hide Report, ReportLine;
    TakeFullBuffer(name, s, f);
    var tail := f[BUFSIZE..];
    TakeLine(name, s, tail, 0);
    NothingToReport(name, s);
    assert tail[..0] == [] && tail[1..] == f[BUFSIZE + 1..];
  }

  lemma {:induction false} OnlyLine(name: Text, s: Text, f: Text)
    requires LinesFit(f) && LineEnd(f, 0) == |f|
    ensures Report(name, s, f) == ReportLines(name, s, Lines(f))
  {
    assert f in Lines(f);
    TakeLast(name, s, f);
    OneLine(name, s, f);
  }

  lemma {:induction false} FirstLine(name: Text, s: Text, f: Text)
    requires LinesFit(f) && LineEnd(f, 0) < |f|
    ensures var e := LineEnd(f, 0);
            && e <= BUFSIZE && LinesFit(f[e + 1..])
            && ReportLines(name, s, Lines(f)) == ReportLine(name, s, f[..e]) + ReportLines(name, s, Lines(f[e + 1..]))
  {
    var e := LineEnd(f, 0);
    var rest := Lines(f[e + 1..]);
    assert Lines(f)[0] == f[..e] && Lines(f)[1..] == rest;
    assert f[..e] in Lines(f);
    forall line | line in rest ensures |line| <= BUFSIZE {
      assert line in Lines(f);
    }
  }

  /** Any longer line is cut: its first 1024 bytes are searched as a line, and what follows as the next one. */
  lemma {:induction false} LongLineIsCut(name: Text, s: Text, f: Text)
    requires LineEnd(f, 0) > BUFSIZE
    ensures Report(name, s, f) == ReportLine(name, s, f[..BUFSIZE]) + Report(name, s, f[BUFSIZE..])
    ensures LineEnd(f[BUFSIZE..], 0) == LineEnd(f, 0) - BUFSIZE
  {
    TakeFullBuffer(name, s, f);
    var e := LineEnd(f, 0);
    var tail := f[BUFSIZE..];
    LineEndUnique(tail, e - BUFSIZE);
  }

  lemma {:induction false} PartOccurs(line: Text, s: Text, from: nat, to: nat, i: nat)
    requires from <= to <= |line| && OccursAt(line[from..to], s, i)
    ensures OccursAt(line, s, from + i)
  {
    var part := line[from..to];
    var a, b := line[from + i..from + i + |s|], part[i..i + |s|];
    forall k | 0 <= k < |s| ensures a[k] == b[k] {
      assert part[i + k] == line[from + (i + k)];
    }
  }

  /** What is found in a part of a line is found in the line. */
  lemma {:induction false} PartFinds(line: Text, s: Text, from: nat, to: nat)
    requires from <= to <= |line| && !Finds(line, s)
    ensures !Finds(line[from..to], s)
  {
    var part := line[from..to];
    forall i | 0 <= i < |part| && OccursAt(part, s, i)
      ensures OccursAt(line, s, from + i) && line[from + i] == part[i]
    {
      PartOccurs(line, s, from, to, i);
    }
  }

  /** A line that the test does not find, of any length, is passed over without a report. */
  lemma {:induction false} SilentLine(name: Text, s: Text, f: Text)
    requires !Finds(f[..LineEnd(f, 0)], s)
    ensures var e := LineEnd(f, 0);
            Report(name, s, f) == if e == |f| then [] else Report(name, s, f[e + 1..])
    decreases |f|
  {
    var e := LineEnd(f, 0);
    hide Report, Finds;
    if e == |f| && |f| <= BUFSIZE {
      assert f[..e] == f;
      TakeLast(name, s, f);
    } else if e < BUFSIZE {
      TakeLine(name, s, f, e);
    } else {
      SilentCut(name, s, f);
      hide LineEnd;
      SilentLine(name, s, f[BUFSIZE..]);
    }
  }

  /** The first 1024 bytes of a silent line, and the line that is left. */
  lemma {:induction false} SilentCut(name: Text, s: Text, f: Text)
    requires !Finds(f[..LineEnd(f, 0)], s) && LineEnd(f, 0) >= BUFSIZE
    ensures var e, tail := LineEnd(f, 0), f[BUFSIZE..];
            && Report(name, s, f) == Report(name, s, tail)
            && LineEnd(tail, 0) == e - BUFSIZE && !Finds(tail[..e - BUFSIZE], s)
            && (e < |f| ==> tail[e - BUFSIZE + 1..] == f[e + 1..])
  {
    hide Report, Finds;
    var e, tail := LineEnd(f, 0), f[BUFSIZE..];
    TakeFullBuffer(name, s, f);
    LineEndUnique(tail, e - BUFSIZE);
    hide LineEnd;
    TakeSlice(f, e, 0, BUFSIZE);
    TakeSlice(f, e, BUFSIZE, e);
    DropTake(f, BUFSIZE, e - BUFSIZE);
    if e < |f| { DropDrop(f, BUFSIZE, e - BUFSIZE + 1); }
    assert f[0..BUFSIZE] == f[..BUFSIZE];
    PartFinds(f[..e], s, 0, BUFSIZE);
    PartFinds(f[..e], s, BUFSIZE, e);
    assert [] + Report(name, s, tail) == Report(name, s, tail);
  }

  // ----- when the output is that of the search line by line -----

  /** Every line that contains the pattern fits the buffer, and the pattern starts with an ASCII byte. */
  predicate MatchesFit(s: Text, lines: seq<Text>)
    requires |s| > 0
  {
    forall line | line in lines && Occurs(line, s) :: s[0] < 128 && |line| <= BUFSIZE
  }

  /** Nothing, or the name and then a newline within 1024 bytes: how every output of the program starts. */
  predicate ShortStart(r: Text, name: Text) {
    r == [] || exists q :: 0 <= q <= BUFSIZE && NewlineAfter(r, name, q)
  }

  predicate NewlineAfter(r: Text, name: Text, q: nat) { |name| + 1 + q < |r| && r[|name| + 1 + q] == NEWLINE }

  lemma {:induction false} LineStarts(name: Text, line: Text, rest: Text)
    requires |line| <= BUFSIZE
    ensures ShortStart(name + [COLON] + line + [NEWLINE] + rest, name)
  {
    assert NewlineAfter(name + [COLON] + line + [NEWLINE] + rest, name, |line|);
  }

  lemma {:induction false} ReportStarts(name: Text, s: Text, pieces: seq<Text>, extra: Text)
    requires ShortStart(extra, name) && forall p | p in pieces :: |p| <= BUFSIZE
    ensures ShortStart(ReportLines(name, s, pieces) + extra, name)
  {
    if pieces == [] {
      assert [] + extra == extra;
    } else {
      ReportStarts(name, s, pieces[1..], extra);
      var rest := ReportLines(name, s, pieces[1..]) + extra;
      assert ReportLines(name, s, pieces) + extra == ReportLine(name, s, pieces[0]) + rest;
      if Finds(pieces[0], s) {
        LineStarts(name, pieces[0], rest);
      } else {
        assert [] + rest == rest;
      }
    }
  }

  lemma {:induction false} PiecesAreShort(f: Text)
    ensures forall p | p in Pieces(f) :: |p| <= BUFSIZE
    decreases |f|
  {
    var e := LineEnd(f, 0);
    if e < |f| && e < BUFSIZE {
      PiecesAreShort(f[e + 1..]);
    } else if |f| > BUFSIZE {
      PiecesAreShort(f[BUFSIZE..]);
    }
  }

  /** What starts short is not what starts with a long line. */
  lemma {:induction false} LongStartDiffers(name: Text, line: Text, rest: Text, r: Text)
    requires |line| > BUFSIZE && NEWLINE !in line && ShortStart(r, name)
    ensures r != name + [COLON] + line + [NEWLINE] + rest
  {
    var long := name + [COLON] + line + [NEWLINE] + rest;
    forall q | 0 <= q <= BUFSIZE ensures !NewlineAfter(long, name, q) {
      assert long[|name| + 1 + q] == line[q];
      assert line[q] in line;
    }
  }

  /** A line is reported right when it is printed iff it contains the pattern. */
  predicate Fits(line: Text, s: Text)
    requires |s| > 0
  {
    !Occurs(line, s) || (s[0] < 128 && |line| <= BUFSIZE)
  }

  lemma {:induction false} NaiveLast(name: Text, s: Text, f: Text)
    requires |s| > 0 && LineEnd(f, 0) == |f|
    ensures NaiveReport(name, s, Lines(f)) == NaiveLine(name, s, f) && (MatchesFit(s, Lines(f)) <==> Fits(f, s))
    ensures NEWLINE !in f
  {
    hide Occurs;
    assert Lines(f) == [f] && [f][1..] == [];
    assert f in Lines(f);
    assert NaiveLine(name, s, f) + [] == NaiveLine(name, s, f);
  }

  lemma {:induction false} NaiveMore(name: Text, s: Text, f: Text)
    requires |s| > 0 && LineEnd(f, 0) < |f|
    ensures var e := LineEnd(f, 0);
            && NaiveReport(name, s, Lines(f)) == NaiveLine(name, s, f[..e]) + NaiveReport(name, s, Lines(f[e + 1..]))
            && (MatchesFit(s, Lines(f)) <==> Fits(f[..e], s) && MatchesFit(s, Lines(f[e + 1..])))
            && NEWLINE !in f[..e]
  {
    hide Occurs;
    var e := LineEnd(f, 0);
    var rest := Lines(f[e + 1..]);
    assert Lines(f) == [f[..e]] + rest;
    assert Lines(f)[0] == f[..e] && Lines(f)[1..] == rest;
    assert forall line :: line in Lines(f) <==> line == f[..e] || line in rest;
  }

  /** Whatever short text follows the report, the whole is the naive report exactly when the matching lines fit and
      nothing follows. */
  lemma {:induction false} ExactWithExtra(name: Text, s: Text, f: Text, extra: Text)
    requires |s| > 0 && s[0] < 128 && ShortStart(extra, name)
    ensures Report(name, s, f) + extra == NaiveReport(name, s, Lines(f)) <==> MatchesFit(s, Lines(f)) && extra == []
    decreases |f|
  {
    hide Pieces, Lines, NaiveReport, NaiveLine, MatchesFit, Occurs, ReportLines, ShortStart, Report;
    var e := LineEnd(f, 0);
    if e == |f| {
      assert f[..e] == f;
      ExactLastLine(name, s, f, extra);
    } else {
      var rest := f[e + 1..];
      ExactWithExtra(name, s, rest, extra);
      if e > BUFSIZE && Occurs(f[..e], s) {
        LongMatchDiffers(name, s, f, extra);
      } else {
        ReportMore(name, s, f);
        NaiveMore(name, s, f);
        SameHead(NaiveLine(name, s, f[..e]), Report(name, s, rest), extra, NaiveReport(name, s, Lines(rest)));
      }
    }
  }

  lemma {:induction false} ReportMore(name: Text, s: Text, f: Text)
    requires |s| > 0 && s[0] < 128 && LineEnd(f, 0) < |f| && Fits(f[..LineEnd(f, 0)], s)
    ensures var e := LineEnd(f, 0);
            Report(name, s, f) == NaiveLine(name, s, f[..e]) + Report(name, s, f[e + 1..])
  {
    var e := LineEnd(f, 0);
    FindsIsExact(f[..e], s);
    hide Pieces, Finds, Occurs, Report, ReportLines;
    if !Occurs(f[..e], s) {
      SilentLine(name, s, f);
    } else {
      TakeShortLine(name, s, f);
    }
  }

  lemma {:induction false} ExactLastLine(name: Text, s: Text, f: Text, extra: Text)
    requires |s| > 0 && s[0] < 128 && ShortStart(extra, name) && LineEnd(f, 0) == |f|
    ensures Report(name, s, f) + extra == NaiveReport(name, s, Lines(f)) <==> MatchesFit(s, Lines(f)) && extra == []
  {
    assert f[..|f|] == f;
    if |f| > BUFSIZE && Occurs(f, s) {
      LongMatchDiffers(name, s, f, extra);
    } else {
      NaiveLast(name, s, f);
      FindsIsExact(f, s);
      if !Occurs(f, s) {
        SilentLine(name, s, f);
      } else {
        TakeShortLine(name, s, f);
      }
      hide Pieces, Lines, NaiveReport, MatchesFit, Finds, Occurs, ReportLines, ShortStart, Report;
      SameHead(NaiveLine(name, s, f), [], extra, []);
    }
  }

  /** A line that fits, however it ends. */
  lemma {:induction false} TakeShortLine(name: Text, s: Text, f: Text)
    requires LineEnd(f, 0) <= BUFSIZE
    ensures var e := LineEnd(f, 0);
            Report(name, s, f) == ReportLine(name, s, f[..e]) + (if e == |f| then [] else Report(name, s, f[e + 1..]))
  {
    var e := LineEnd(f, 0);
    if e == |f| {
      assert f[..e] == f;
      TakeLast(name, s, f);
    } else if e < BUFSIZE {
      TakeLine(name, s, f, e);
    } else {
      TakeFullLine(name, s, f);
    }
  }

  lemma {:induction false} SameHead(head: Text, a: Text, extra: Text, b: Text)
    ensures head + a + extra == head + b <==> a + extra == b
  {
    assert head + a + extra == head + (a + extra);
    assert (head + (a + extra))[|head|..] == a + extra && (head + b)[|head|..] == b;
  }

  lemma {:induction false} LongMatchDiffers(name: Text, s: Text, f: Text, extra: Text)
    requires |s| > 0 && ShortStart(extra, name) && LineEnd(f, 0) > BUFSIZE && Occurs(f[..LineEnd(f, 0)], s)
    ensures Report(name, s, f) + extra != NaiveReport(name, s, Lines(f)) && !MatchesFit(s, Lines(f))
  {
    OutputStarts(name, s, f, extra);
    NaiveStarts(name, s, f);
    hide LineEnd, Lines, NaiveReport, MatchesFit, Report, Occurs, ShortStart;
    var e := LineEnd(f, 0);
    var rest :| NaiveReport(name, s, Lines(f)) == name + [COLON] + f[..e] + [NEWLINE] + rest;
    LongStartDiffers(name, f[..e], rest, Report(name, s, f) + extra);
  }

  lemma {:induction false} OutputStarts(name: Text, s: Text, f: Text, extra: Text)
    requires ShortStart(extra, name)
    ensures ShortStart(Report(name, s, f) + extra, name)
  {
    PiecesAreShort(f);
    hide ShortStart;
    ReportStarts(name, s, Pieces(f), extra);
  }

  /** The naive report of a file whose first line contains the pattern starts with that line. */
  lemma {:induction false} NaiveStarts(name: Text, s: Text, f: Text)
    requires |s| > 0 && LineEnd(f, 0) > BUFSIZE && Occurs(f[..LineEnd(f, 0)], s)
    ensures var e := LineEnd(f, 0);
            && NEWLINE !in f[..e] && !MatchesFit(s, Lines(f))
            && exists rest :: NaiveReport(name, s, Lines(f)) == name + [COLON] + f[..e] + [NEWLINE] + rest
  {
    hide NaiveReport, Lines, MatchesFit, Occurs;
    var e := LineEnd(f, 0);
    if e == |f| {
      assert f[..e] == f;
      NaiveLast(name, s, f);
      assert NaiveReport(name, s, Lines(f)) == name + [COLON] + f[..e] + [NEWLINE] + [];
    } else {
      NaiveMore(name, s, f);
      var rest := NaiveReport(name, s, Lines(f[e + 1..]));
      assert NaiveReport(name, s, Lines(f)) == name + [COLON] + f[..e] + [NEWLINE] + rest;
    }
  }

  /** A pattern that does not start with an ASCII byte: nothing is printed, so no line may contain it. */
  lemma {:induction false} NaiveIsEmpty(name: Text, s: Text, lines: seq<Text>)
    requires |s| > 0 && s[0] >= 128
    ensures NaiveReport(name, s, lines) == [] <==> MatchesFit(s, lines)
  {
    if lines == [] {
    } else {
      NaiveIsEmpty(name, s, lines[1..]);
      assert lines == [lines[0]] + lines[1..];
    }
  }

  /** The pieces report what the lines contain exactly when the lines with the pattern fit. */
  lemma {:induction false} PiecesAreExact(name: Text, s: Text, f: Text)
    requires |s| > 0
    ensures Report(name, s, f) == NaiveReport(name, s, Lines(f)) <==> MatchesFit(s, Lines(f))
  {
    if s[0] < 128 {
      ExactWithExtra(name, s, f, []);
      assert Report(name, s, f) + [] == Report(name, s, f);
    } else {
      ReportIsExact(name, s, Pieces(f));
      NaiveIsEmpty(name, s, Lines(f));
    }
  }
}
