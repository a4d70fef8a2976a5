/** grep's buffer as a value: what one pass over it prints and carries, and what the whole search prints when a read
  reports the size that was asked for. */
module GrepBuffer {
  import opened Memory
  import opened GrepSpec
  import opened Sequences

  /** What is printed for a stretch of the buffer: the text up to its first NUL, when the test finds the pattern
      anywhere in the stretch. */
  function RawReport(name: Text, s: Text, raw: Text): Text {
    if Finds(raw, s) then name + [COLON] + CString(raw) + [NEWLINE] else []
  }

  function Zeros(n: nat): (z: Text)
    ensures |z| == n
  {
    seq(n, i => 0)
  }

  /** The buffer once its newlines are overwritten. */
  function Nulled(buf: Text): (r: Text)
    ensures |r| == |buf|
  {
    seq(|buf|, i requires 0 <= i < |buf| => if buf[i] == NEWLINE then 0 else buf[i])
  }

  /** One pass from `from` on: the output, and where the unfinished line starts that is carried (0 for none). A line
      is carried when there is no newline, something was read and it is not at the front. */
  function Scan(name: Text, s: Text, buf: Text, from: nat, something: bool): (r: (Text, nat))
    requires from <= |buf|
    ensures r.1 <= |buf| && (!something ==> r.1 == 0)
    decreases |buf| - from
  {
    var e := LineEnd(buf, from);
    if e == |buf| && something && from != 0 then ([], from)
    else
      var found := RawReport(name, s, buf[from..e]);
      if e + 1 >= |buf| then (found, 0)
      else
        var rest := Scan(name, s, buf, e + 1, something);
        (found + rest.0, rest.1)
  }

  /** The buffer after the carry: the copy ends at the first NUL, and what lies behind it stays. */
  function Carried(buf: Text, from: nat): (r: Text)
    requires 0 < from <= |buf|
    ensures |r| == |buf| - from
  {
    var text := CString(buf[from..]);
    (text + [0] + Nulled(buf)[|text| + 1..])[..|buf| - from]
  }

  /** The whole search, with `buf` carried and `more` of the file to come. A read that is not empty reports the size
      asked for, so the buffer counts as full, and what the file did not fill of it is zero. */
  function Search(name: Text, s: Text, buf: Text, more: Text): Text
    requires |buf| < BUFSIZE
    decreases |more|
  {
    var n := BUFSIZE - |buf|;
    if more == [] then Scan(name, s, buf, 0, false).0
    else
      var count := if |more| < n then |more| else n;
      var full := buf + more[..count] + Zeros(n - count);
      var pass := Scan(name, s, full, 0, true);
      pass.0 + Search(name, s, if pass.1 == 0 then [] else Carried(full, pass.1), more[count..])
  }

  /** What the first read of a file leaves in an empty buffer. */
  function FirstFull(f: Text): (full: Text)
    ensures |full| == BUFSIZE
  {
    var count := if |f| < BUFSIZE then |f| else BUFSIZE;
    f[..count] + Zeros(BUFSIZE - count)
  }

  /** The search with a newline behind the buffer, left there by chance: a pass ends its last line there. That
      overwrites it, unless the buffer itself ends with a newline. */
  function SearchMarked(name: Text, s: Text, more: Text): Text
    decreases |more|
  {
    if more == [] then []
    else
      var full, rest := FirstFull(more), more[if |more| < BUFSIZE then |more| else BUFSIZE..];
      Scan(name, s, full, 0, false).0
      + if full[BUFSIZE - 1] == NEWLINE then SearchMarked(name, s, rest) else Search(name, s, [], rest)
  }

  function SearchFrom(name: Text, s: Text, buf: Text, more: Text, mark: bool): Text
    requires |buf| < BUFSIZE
  {
    if mark then SearchMarked(name, s, more) else Search(name, s, buf, more)
  }

  // ----- where the last line of the file starts, and what is left when the last read falls short -----

  /** The index after the last newline; 0 when there is none. */
  function LastLine(t: Text): (k: nat)
    ensures k <= |t| && forall j | k <= j < |t| :: t[j] != NEWLINE
    ensures k > 0 ==> t[k - 1] == NEWLINE
  {
    if t == [] then 0 else if t[|t| - 1] == NEWLINE then |t| else LastLine(t[..|t| - 1])
  }

  /** Where the part starts that a full buffer leaves for the next one. */
  function Cut(f: Text): (c: nat)
    requires |f| >= BUFSIZE
    ensures 0 < c <= BUFSIZE
  {
    var k := LastLine(f[..BUFSIZE]);
    if k == 0 then BUFSIZE else k
  }

  /** What is left of the file when it no longer fills the buffer. */
  function Remnant(f: Text): (left: Text)
    ensures |left| < BUFSIZE
    decreases |f|
  {
    if |f| < BUFSIZE then f else Remnant(f[Cut(f)..])
  }

  /** What the last pass finds behind the last line: the buffer as it was, its newlines overwritten. */
  function Stale(left: Text): Text
    requires |left| < BUFSIZE
  {
    var k := LastLine(left);
    (Nulled(left) + Zeros(BUFSIZE - |left|))[|left| - k + 1..BUFSIZE - k]
  }

  /** Nothing is searched twice: the file left has one line only, or its last line is printed anyway, or the stale
      bytes behind it do not contain the pattern. */
  predicate Clean(s: Text, left: Text)
    requires |left| < BUFSIZE
  {
    var k := LastLine(left);
    k == 0 || Finds(left[k..], s) || !Finds(Stale(left), s)
  }

  /** The line that is printed although it does not contain the pattern. */
  function Extra(name: Text, s: Text, left: Text): Text
    requires |left| < BUFSIZE
  {
    if Clean(s, left) then [] else name + [COLON] + left[LastLine(left)..] + [NEWLINE]
  }

  // ----- texts with NULs -----

  lemma {:induction false} CStringOf(t: Text, text: Text)
    requires NulFree(text) && |text| <= |t| && t[..|text|] == text && (|text| < |t| ==> t[|text|] == 0)
    ensures CString(t) == text
    decreases |text|
  {
    if text == [] {
    } else {
      assert t[0] == t[..|text|][0] && t[1..][..|text| - 1] == t[..|text|][1..];
      CStringOf(t[1..], text[1..]);
    }
  }

  lemma {:induction false} OccursInPart(line: Text, s: Text, from: nat, to: nat, i: nat)
    requires from <= i && i + |s| <= to <= |line| && OccursAt(line, s, i)
    ensures OccursAt(line[from..to], s, i - from)
  {
    var part := line[from..to];
    var a, b := line[i..i + |s|], part[i - from..i - from + |s|];
    forall k | 0 <= k < |s| ensures a[k] == b[k] {
      assert part[i - from + k] == line[from + (i - from + k)];
    }
  }

  lemma {:induction false} NoOccurrenceAcross(t: Text, s: Text, i: nat, at: nat)
    requires NulFree(s) && i <= at < i + |s| && at < |t| && t[at] == 0
    ensures !OccursAt(t, s, i)
  {
    if i + |s| <= |t| {
      assert t[i..i + |s|][at - i] == t[at];
      assert s[at - i] != 0;
    }
  }

  /** A pattern without NULs is found on one side of a NUL or on the other. */
  lemma {:induction false} FindsAround(a: Text, b: Text, s: Text)
    requires NulFree(s)
    ensures Finds(a + [0] + b, s) <==> Finds(a, s) || Finds(b, s)
  {
    var t := a + [0] + b;
    assert t[0..|a|] == a && t[|a| + 1..|t|] == b && t[|a|] == 0;
    if !Finds(t, s) {
      PartFinds(t, s, 0, |a|);
      PartFinds(t, s, |a| + 1, |t|);
    } else {
      var i: nat :| i < |t| && Signed(s[0]) == t[i] && OccursAt(t, s, i);
      FoundAround(a, b, s, t, i);
    }
  }

  lemma {:induction false} FoundAround(a: Text, b: Text, s: Text, t: Text, i: nat)
    requires NulFree(s) && |s| > 0 && t == a + [0] + b && i < |t| && Signed(s[0]) == t[i] && OccursAt(t, s, i)
    ensures Finds(a, s) || Finds(b, s)
  {
    assert t[0..|a|] == a && t[|a| + 1..|t|] == b && t[|a|] == 0;
    if i + |s| <= |a| {
      OccursInPart(t, s, 0, |a|, i);
      assert a[i] == t[i];
    } else if i <= |a| {
      NoOccurrenceAcross(t, s, i, |a|);
    } else {
      OccursInPart(t, s, |a| + 1, |t|, i);
      assert b[i - |a| - 1] == t[i];
    }
  }

  lemma {:induction false} ZerosHoldNothing(n: nat, s: Text)
    requires NulFree(s)
    ensures !Finds(Zeros(n), s)
  {
  }

  /** Zeros behind a line change nothing. */
  lemma {:induction false} PaddedLine(name: Text, s: Text, line: Text, n: nat)
    requires NulFree(s) && NulFree(line)
    ensures RawReport(name, s, line + Zeros(n)) == ReportLine(name, s, line)
  {
    if n == 0 {
      assert line + Zeros(n) == line;
    } else {
      assert line + Zeros(n) == line + [0] + Zeros(n - 1);
      FindsAround(line, Zeros(n - 1), s);
      ZerosHoldNothing(n - 1, s);
    }
    CStringOf(line + Zeros(n), line);
  }

  lemma {:induction false} PlainLine(name: Text, s: Text, line: Text)
    requires NulFree(s) && NulFree(line)
    ensures RawReport(name, s, line) == ReportLine(name, s, line)
  {
    PaddedLine(name, s, line, 0);
    assert line + Zeros(0) == line;
  }

  // ----- one pass over the buffer -----

  lemma {:induction false} ScanStep(name: Text, s: Text, buf: Text, from: nat, something: bool)
    requires from <= |buf|
    ensures var e := LineEnd(buf, from);
            var pass := Scan(name, s, buf, from, something);
            && (e == |buf| && something && from != 0 ==> pass == ([], from))
            && (e == |buf| && !(something && from != 0) ==> pass == (RawReport(name, s, buf[from..e]), 0))
            && (e + 1 == |buf| ==> pass == (RawReport(name, s, buf[from..e]), 0))
            && (e + 1 < |buf| ==>
                  && pass.0 == RawReport(name, s, buf[from..e]) + Scan(name, s, buf, e + 1, something).0
                  && pass.1 == Scan(name, s, buf, e + 1, something).1)
  {
  }

  lemma {:induction false} LastLineIs(t: Text, k: nat)
    requires k <= |t| && (forall j | k <= j < |t| :: t[j] != NEWLINE) && (k > 0 ==> t[k - 1] == NEWLINE)
    ensures LastLine(t) == k
  {
  }

  /** A pass over a full buffer of the file reports up to the cut. */
  lemma {:induction false} ScanFull(name: Text, s: Text, rest: Text, from: nat)
    requires NulFree(s) && NulFree(rest) && |rest| >= BUFSIZE
    requires from < BUFSIZE && (from == 0 || rest[from - 1] == NEWLINE)
    ensures var pass := Scan(name, s, rest[..BUFSIZE], from, true);
            && Report(name, s, rest[from..]) == pass.0 + Report(name, s, rest[Cut(rest)..])
            && pass.1 == (if Cut(rest) == BUFSIZE then 0 else Cut(rest))
    decreases BUFSIZE - from
  {
    var buf := rest[..BUFSIZE];
    var e := LineEnd(buf, from);
    hide Report, RawReport, ReportLine, LineEnd, LastLine, Scan;
    ScanStep(name, s, buf, from, true);
    if e < BUFSIZE {
      BufferLine(name, s, buf, rest, from);
      if e + 1 < BUFSIZE {
        ScanFull(name, s, rest, e + 1);
        var found, next := RawReport(name, s, buf[from..e]), Scan(name, s, buf, e + 1, true).0;
        Assoc(found, next, Report(name, s, rest[Cut(rest)..]));
      } else {
        LastLineIs(buf, BUFSIZE);
      }
    } else {
      LastLineIs(buf, from);
      if from == 0 {
        WholeBuffer(name, s, rest);
      }
    }
  }

  /** A complete line of the buffer is the next line of the file. */
  lemma {:induction false} BufferLine(name: Text, s: Text, buf: Text, rest: Text, from: nat)
    requires NulFree(s) && NulFree(rest) && from <= |buf| <= BUFSIZE && LineEnd(buf, from) < |buf|
    requires LineEnd(buf, from) < |rest| && forall k | 0 <= k <= LineEnd(buf, from) :: buf[k] == rest[k]
    ensures var e := LineEnd(buf, from);
            Report(name, s, rest[from..]) == RawReport(name, s, buf[from..e]) + Report(name, s, rest[e + 1..])
  {
    hide Report, RawReport, ReportLine;
    var e := LineEnd(buf, from);
    var text := rest[from..];
    assert buf[from..e] == text[..e - from] && text[e - from + 1..] == rest[e + 1..];
    assert forall k | 0 <= k < e - from :: text[k] == buf[from + k];
    TakeLine(name, s, text, e - from);
    PlainLine(name, s, buf[from..e]);
  }

  lemma {:induction false} WholeBuffer(name: Text, s: Text, rest: Text)
    requires NulFree(s) && NulFree(rest) && |rest| >= BUFSIZE && LineEnd(rest[..BUFSIZE], 0) == BUFSIZE
    ensures var buf := rest[..BUFSIZE];
            Report(name, s, rest[0..]) == RawReport(name, s, buf[0..BUFSIZE]) + Report(name, s, rest[BUFSIZE..])
  {
    var buf := rest[..BUFSIZE];
    assert buf[0..BUFSIZE] == buf && rest[0..] == rest;
    assert forall k | 0 <= k < BUFSIZE :: rest[k] == buf[k];
    TakeFullBuffer(name, s, rest);
    PlainLine(name, s, buf);
  }

  /** The buffer `full` holds what is left of the file, and then zeros. */
  predicate Pads(full: Text, left: Text) {
    && |left| < |full| == BUFSIZE && (forall j | 0 <= j < |left| :: full[j] == left[j])
    && forall j | |left| <= j < BUFSIZE :: full[j] == 0
  }

  lemma {:induction false} PadsIs(full: Text, left: Text)
    requires |left| < BUFSIZE
    ensures Pads(full, left) <==> full == left + Zeros(BUFSIZE - |left|)
  {
  }

  /** A pass over a buffer that the rest of the file does not fill: the complete lines are reported, and the last
      one too when it is the only one. */
  lemma {:induction false} ScanShort(name: Text, s: Text, left: Text, full: Text, from: nat)
    requires NulFree(s) && NulFree(left) && Pads(full, left)
    requires from <= |left| && (from == 0 || left[from - 1] == NEWLINE)
    ensures var pass := Scan(name, s, full, from, true);
            && pass.1 == LastLine(left)
            && Report(name, s, left[from..]) == pass.0 + LastReport(name, s, left)
    decreases BUFSIZE - from
  {
    hide Report, RawReport, ReportLine, LineEnd, LastLine, Scan;
    var e := LineEnd(full, from);
    if e < BUFSIZE {
      ScanStep(name, s, full, from, true);
      LineOfLeft(name, s, left, full, from);
      hide Pads;
      ScanShort(name, s, left, full, e + 1);
      Assoc(RawReport(name, s, full[from..e]), Scan(name, s, full, e + 1, true).0, LastReport(name, s, left));
    } else {
      ShortEnd(name, s, left, full, from);
    }
  }

  lemma {:induction false} LineOfLeft(name: Text, s: Text, left: Text, full: Text, from: nat)
    requires NulFree(s) && NulFree(left) && Pads(full, left) && from <= |left| && LineEnd(full, from) < BUFSIZE
    ensures var e := LineEnd(full, from);
            e < |left| && left[e] == NEWLINE
            && Report(name, s, left[from..]) == RawReport(name, s, full[from..e]) + Report(name, s, left[e + 1..])
  {
    BufferLine(name, s, full, left, from);
  }

  /** The report of the last line, when the pass carries it. */
  function LastReport(name: Text, s: Text, left: Text): Text {
    if LastLine(left) == 0 then [] else ReportLine(name, s, left[LastLine(left)..])
  }

  lemma {:induction false} ShortEnd(name: Text, s: Text, left: Text, full: Text, from: nat)
    requires NulFree(s) && NulFree(left) && Pads(full, left)
    requires from <= |left| && (from == 0 || left[from - 1] == NEWLINE) && LineEnd(full, from) == BUFSIZE
    ensures var pass := Scan(name, s, full, from, true);
            pass.1 == LastLine(left) && Report(name, s, left[from..]) == pass.0 + LastReport(name, s, left)
  {
    hide Report, RawReport, ReportLine, LastLine, Scan;
    assert forall j | from <= j < |left| :: left[j] == full[j];
    LastLineIs(left, from);
    ScanStep(name, s, full, from, true);
    OnlyLineLeft(name, s, left, full, from);
  }

  lemma {:induction false} OnlyLineLeft(name: Text, s: Text, left: Text, full: Text, from: nat)
    requires NulFree(s) && NulFree(left) && Pads(full, left) && from <= |left|
    requires forall j | from <= j < |left| :: left[j] != NEWLINE
    ensures Report(name, s, left[from..]) == [] + ReportLine(name, s, left[from..])
    ensures from == 0 ==> Report(name, s, left[from..]) == RawReport(name, s, full[0..BUFSIZE]) + []
  {
    hide Report;
    TakeLast(name, s, left[from..]);
    assert [] + ReportLine(name, s, left[from..]) == ReportLine(name, s, left[from..]);
    if from == 0 {
      PadsIs(full, left);
      assert full[0..BUFSIZE] == full && left[0..] == left;
      PaddedLine(name, s, left, BUFSIZE - |left|);
    }
  }

  /** A pass over a line without a newline. */
  lemma {:induction false} ScanLine(name: Text, s: Text, buf: Text)
    requires NEWLINE !in buf
    ensures Scan(name, s, buf, 0, false).0 == RawReport(name, s, buf)
  {
    assert buf[0..|buf|] == buf;
    assert forall k | 0 <= k < |buf| :: buf[k] in buf;
  }

  lemma {:induction false} CarriedLine(buf: Text, from: nat)
    requires 0 < from <= |buf| && NulFree(buf[from..])
    ensures Carried(buf, from) == buf[from..]
  {
    CStringOf(buf[from..], buf[from..]);
  }

  lemma {:induction false} NulledPadded(left: Text, n: nat)
    ensures Nulled(left + Zeros(n)) == Nulled(left) + Zeros(n)
  {
  }

  lemma {:induction false} CarriedShort(left: Text)
    requires NulFree(left) && |left| < BUFSIZE && LastLine(left) > 0
    ensures var k := LastLine(left);
            Carried(left + Zeros(BUFSIZE - |left|), k) == left[k..] + [0] + Stale(left)
  {
    hide Nulled, Carried, LastLine;
    var k, n := LastLine(left), BUFSIZE - |left|;
    var tail, full, t := left[k..], left + Zeros(n), Nulled(left) + Zeros(n);
    TextBefore(left, k, n);
    NulledPadded(left, n);
    hide Zeros, NulFree;
    CarriedIs(full, k, tail, t);
    TakeMore(tail + [0], t[|tail| + 1..], BUFSIZE - k);
    DropTake(t, |tail| + 1, BUFSIZE - k - |tail| - 1);
  }

  lemma {:induction false} TextBefore(left: Text, k: nat, n: nat)
    requires NulFree(left) && k <= |left| && n > 0
    ensures CString((left + Zeros(n))[k..]) == left[k..]
  {
    var z := Zeros(n);
    assert z[0] == 0;
    DropAppend(left, z, k);
    TakeAppend(left[k..], z);
    CStringOf((left + z)[k..], left[k..]);
  }

  lemma {:induction false} CarriedIs(buf: Text, from: nat, text: Text, nulled: Text)
    requires 0 < from <= |buf| && CString(buf[from..]) == text && nulled == Nulled(buf)
    ensures |text| + 1 <= |nulled| && Carried(buf, from) == (text + [0] + nulled[|text| + 1..])[..|buf| - from]
  {
  }

  /** The pass after the last read: the last line, and the extra one. */
  lemma {:induction false} LastPass(name: Text, s: Text, left: Text)
    requires NulFree(s) && NulFree(left) && |left| < BUFSIZE && LastLine(left) > 0
    ensures var k := LastLine(left);
            Scan(name, s, Carried(left + Zeros(BUFSIZE - |left|), k), 0, false).0
            == ReportLine(name, s, left[k..]) + Extra(name, s, left)
  {
    var tail, stale := left[LastLine(left)..], Stale(left);
    var buf := tail + [0] + stale;
    CarriedShort(left);
    NoNewlineBehind(left);
    ScanLine(name, s, buf);
    FindsAround(tail, stale, s);
    CStringOf(buf, tail);
  }

  lemma {:induction false} NoNewlineBehind(left: Text)
    requires |left| < BUFSIZE
    ensures NEWLINE !in left[LastLine(left)..] + [0] + Stale(left)
  {
    NoneInTail(left);
    NoneStale(left);
    hide Stale, LastLine;
    NotInAppend(NEWLINE, left[LastLine(left)..], [0]);
    NotInAppend(NEWLINE, left[LastLine(left)..] + [0], Stale(left));
  }

  lemma {:induction false} NoneInTail(left: Text)
    ensures NEWLINE !in left[LastLine(left)..]
  {
    var k := LastLine(left);
    var tail := left[k..];
    assert forall j | 0 <= j < |tail| :: tail[j] == left[k + j];
  }

  lemma {:induction false} NoneStale(left: Text)
    requires |left| < BUFSIZE
    ensures forall j | 0 <= j < |Stale(left)| :: Stale(left)[j] != NEWLINE
  {
    hide LastLine;
    var k, behind := LastLine(left), Nulled(left) + Zeros(BUFSIZE - |left|);
    assert forall j | 0 <= j < |behind| :: behind[j] != NEWLINE;
    forall j | 0 <= j < |Stale(left)| ensures Stale(left)[j] != NEWLINE {
      assert Stale(left)[j] == behind[|left| - k + 1 + j];
    }
  }

  // ----- the search -----

  lemma {:induction false} RestFull(buf: Text, more: Text, count: nat)
    requires |buf| + count == BUFSIZE && count <= |more|
    ensures buf + more[..count] + Zeros(0) == (buf + more)[..BUFSIZE]
    ensures forall c | |buf| <= c <= |buf + more| :: (buf + more)[c..] == more[c - |buf|..]
  {
  }

  /** What the search prints: the report of the pieces, and the extra line for what the last read left unfilled. */
  lemma {:induction false} SearchIs(name: Text, s: Text, buf: Text, more: Text)
    requires NulFree(s) && NulFree(buf + more) && NEWLINE !in buf && |buf| < BUFSIZE
    ensures Search(name, s, buf, more) == Report(name, s, buf + more) + Extra(name, s, Remnant(buf + more))
    decreases |more|
  {
    var rest := buf + more;
    if more == [] {
      assert rest == buf;
      SearchEnds(name, s, buf);
    } else if |rest| < BUFSIZE {
      SearchShort(name, s, buf, more);
    } else {
      var n := BUFSIZE - |buf|;
      var c := Cut(rest);
      var carry := rest[c..BUFSIZE];
      hide Search, Report, Extra;
      SearchFull(name, s, buf, more);
      SearchIs(name, s, carry, more[n..]);
      var out :| Report(name, s, rest) == out + Report(name, s, rest[c..])
                 && Search(name, s, buf, more) == out + Search(name, s, carry, more[n..]);
      Assoc(out, Report(name, s, rest[c..]), Extra(name, s, Remnant(rest)));
    }
  }

  lemma {:induction false} SearchEnds(name: Text, s: Text, buf: Text)
    requires NulFree(s) && NulFree(buf) && NEWLINE !in buf && |buf| < BUFSIZE
    ensures Search(name, s, buf, []) == Report(name, s, buf) + Extra(name, s, Remnant(buf))
  {
    ScanLine(name, s, buf);
    PlainLine(name, s, buf);
    assert forall k | 0 <= k < |buf| :: buf[k] in buf;
    TakeLast(name, s, buf);
    hide LastLine;
    LastLineIs(buf, 0);
  }

  lemma {:induction false} SearchShort(name: Text, s: Text, buf: Text, more: Text)
    requires NulFree(s) && NulFree(buf + more) && |buf + more| < BUFSIZE && more != []
    ensures Search(name, s, buf, more) == Report(name, s, buf + more) + Extra(name, s, buf + more)
  {
    hide Report, RawReport, ReportLine, LastLine, Scan, Extra, Carried;
    var left := buf + more;
    var full := left + Zeros(BUFSIZE - |left|);
    assert buf + more[..|more|] + Zeros(BUFSIZE - |buf| - |more|) == full && more[|more|..] == [];
    assert left[0..] == left;
    PadsIs(full, left);
    ScanShort(name, s, left, full, 0);
    var k := LastLine(left);
    if k > 0 {
      LastPass(name, s, left);
    } else {
      NothingLeft(name, s);
      LeftClean(name, s, left);
    }
    SearchStep(name, s, buf, more);
    SearchStep(name, s, if k == 0 then [] else Carried(full, k), []);
  }

  lemma {:induction false} SearchStep(name: Text, s: Text, buf: Text, more: Text)
    requires |buf| < BUFSIZE
    ensures more == [] ==> Search(name, s, buf, more) == Scan(name, s, buf, 0, false).0
    ensures var n := BUFSIZE - |buf|;
            more != [] && |more| <= n ==>
              var pass := Scan(name, s, buf + more[..|more|] + Zeros(n - |more|), 0, true);
              Search(name, s, buf, more) == pass.0
                + Search(name, s, if pass.1 == 0 then []
                                  else Carried(buf + more[..|more|] + Zeros(n - |more|), pass.1), [])
    ensures var n := BUFSIZE - |buf|;
            |more| >= n ==>
              var pass := Scan(name, s, buf + more[..n] + Zeros(0), 0, true);
              Search(name, s, buf, more) == pass.0
                + Search(name, s, if pass.1 == 0 then [] else Carried(buf + more[..n] + Zeros(0), pass.1), more[n..])
  {
    assert more[|more|..] == [];
  }

  lemma {:induction false} NothingLeft(name: Text, s: Text)
    ensures Scan(name, s, [], 0, false).0 == []
  {
    ScanLine(name, s, []);
  }

  lemma {:induction false} LeftClean(name: Text, s: Text, left: Text)
    requires |left| < BUFSIZE && LastLine(left) == 0
    ensures Extra(name, s, left) == []
  {
  }

  /** One full read: what is reported, and what the search goes on with. */
  lemma {:induction false} SearchFull(name: Text, s: Text, buf: Text, more: Text)
    requires NulFree(s) && NulFree(buf + more) && |buf| < BUFSIZE <= |buf + more|
    ensures var rest := buf + more;
            var n, c := BUFSIZE - |buf|, Cut(rest);
            var carry := rest[c..BUFSIZE];
            && n <= |more| && carry + more[n..] == rest[c..] && NEWLINE !in carry && NulFree(rest[c..])
            && exists out :: Report(name, s, rest) == out + Report(name, s, rest[c..])
                          && Search(name, s, buf, more) == out + Search(name, s, carry, more[n..])
  {
    hide Report, Scan, Search, Carried, Cut, NulFree;
    var rest := buf + more;
    var n, c := BUFSIZE - |buf|, Cut(rest);
    var carry, full := rest[c..BUFSIZE], rest[..BUFSIZE];
    FullShape(buf, more);
    assert rest[0..] == rest;
    ScanFull(name, s, rest, 0);
    SearchStep(name, s, buf, more);
    var pass := Scan(name, s, full, 0, true);
    assert Search(name, s, buf, more) == pass.0 + Search(name, s, carry, more[n..]);
  }

  lemma {:induction false} FullShape(buf: Text, more: Text)
    requires NulFree(buf + more) && |buf| < BUFSIZE <= |buf + more|
    ensures var rest := buf + more;
            var n, c := BUFSIZE - |buf|, Cut(rest);
            var carry := rest[c..BUFSIZE];
            && n <= |more| && buf + more[..n] + Zeros(0) == rest[..BUFSIZE]
            && carry + more[n..] == rest[c..] && NEWLINE !in carry && NulFree(rest[c..])
            && if c == BUFSIZE then carry == [] else Carried(rest[..BUFSIZE], c) == carry
  {
    hide Carried, Cut;
    var rest := buf + more;
    var n, c := BUFSIZE - |buf|, Cut(rest);
    var carry, full := rest[c..BUFSIZE], rest[..BUFSIZE];
    RestFull(buf, more, n);
    CutOff(rest);
    assert rest[BUFSIZE..] == more[n..];
    assert full[c..] == carry && rest[c..BUFSIZE] + rest[BUFSIZE..] == rest[c..];
    if c < BUFSIZE {
      CarriedLine(full, c);
    }
  }

  lemma {:induction false} CutOff(rest: Text)
    requires |rest| >= BUFSIZE
    ensures 0 < Cut(rest) <= BUFSIZE && NEWLINE !in rest[Cut(rest)..BUFSIZE]
  {
    var c, full := Cut(rest), rest[..BUFSIZE];
    var carry := rest[c..BUFSIZE];
    assert forall j | 0 <= j < |carry| :: carry[j] == full[c + j] != NEWLINE;
  }

  // ----- when the output is that of the search line by line -----

  lemma {:induction false} ExtraIsShort(name: Text, s: Text, left: Text)
    requires |left| < BUFSIZE
    ensures ShortStart(Extra(name, s, left), name)
    ensures Extra(name, s, left) == [] <==> Clean(s, left)
    ensures |s| > 0 && s[0] >= 128 ==> Clean(s, left)
  {
    var tail := left[LastLine(left)..];
    LineStarts(name, tail, []);
    assert name + [COLON] + tail + [NEWLINE] + [] == name + [COLON] + tail + [NEWLINE];
    if |s| > 0 {
      FindsIsExact(Stale(left), s);
    }
  }

  /** grep is right about a file without NULs exactly when every line that contains the pattern fits the buffer, the
      pattern starts with an ASCII byte, and the last read leaves no stale bytes that contain it. */
  lemma {:induction false} GrepIsExact(name: Text, s: Text, f: Text)
    requires NulFree(s) && |s| > 0 && NulFree(f)
    ensures Search(name, s, [], f) == NaiveReport(name, s, Lines(f)) <==>
            MatchesFit(s, Lines(f)) && Clean(s, Remnant(f))
  {
    assert [] + f == f;
    SearchIs(name, s, [], f);
    ExtraIsShort(name, s, Remnant(f));
    hide Search, Extra, Clean, Remnant, ShortStart, MatchesFit;
    if s[0] < 128 {
      ExactWithExtra(name, s, f, Extra(name, s, Remnant(f)));
    } else {
      PiecesAreExact(name, s, f);
      assert Report(name, s, f) + [] == Report(name, s, f);
    }
  }

  /** For a file shorter than the buffer: the lines fit, and what is left is the whole file. */
  lemma {:induction false} ShortFileIsExact(name: Text, s: Text, f: Text)
    requires NulFree(s) && |s| > 0 && NulFree(f) && |f| < BUFSIZE
    ensures Search(name, s, [], f) == NaiveReport(name, s, Lines(f)) <==>
            (s[0] < 128 || forall line | line in Lines(f) :: !Occurs(line, s)) && Clean(s, f)
  {
    GrepIsExact(name, s, f);
    LinesAreShort(f);
    hide Lines, Occurs, Clean;
  }

  lemma {:induction false} LinesAreShort(f: Text)
    ensures forall line | line in Lines(f) :: |line| <= |f|
    decreases |f|
  {
    var e := LineEnd(f, 0);
    if e == |f| {
    } else {
      LinesAreShort(f[e + 1..]);
      assert Lines(f) == [f[..e]] + Lines(f[e + 1..]);
    }
  }

  /** Every read but the empty one gets all it asks for, with `have` bytes carried at the front of `f`. */
  predicate FullReads(f: Text, have: nat)
    requires have < BUFSIZE
    decreases |f|
  {
    |f| == have || (|f| >= BUFSIZE && FullReads(f[Cut(f)..], BUFSIZE - Cut(f)))
  }

  lemma {:induction false} FullReadsLeaveOneLine(f: Text, have: nat)
    requires have < BUFSIZE && have <= |f| && FullReads(f, have) && NEWLINE !in f[..have]
    ensures LastLine(Remnant(f)) == 0
    decreases |f|
  {
    if |f| == have {
      assert f[..have] == f;
      assert forall k | 0 <= k < |f| :: f[k] in f;
      LastLineIs(f, 0);
    } else {
      var c := Cut(f);
      CutOff(f);
      assert f[c..][..BUFSIZE - c] == f[c..BUFSIZE];
      FullReadsLeaveOneLine(f[c..], BUFSIZE - c);
    }
  }

  /** While every read that is not empty is full, the search reports the pieces and nothing else, so it is right
      exactly when every line with the pattern fits. */
  lemma {:induction false} FullReadsAreRight(name: Text, s: Text, f: Text)
    requires NulFree(s) && |s| > 0 && NulFree(f) && FullReads(f, 0)
    ensures Search(name, s, [], f) == Report(name, s, f)
    ensures Search(name, s, [], f) == NaiveReport(name, s, Lines(f)) <==> MatchesFit(s, Lines(f))
  {
    PiecesAreExact(name, s, f);
    assert [] + f == f && f[..0] == [];
    SearchIs(name, s, [], f);
    FullReadsLeaveOneLine(f, 0);
    LeftClean(name, s, Remnant(f));
    assert Report(name, s, f) + [] == Report(name, s, f);
  }

  /** A short file shows the difference: for the pattern "b" the file "ab" and a newline is reported with an empty
      second line. */
  lemma {:induction false} FalseLine(name: Text, f: Text, s: Text)
    requires f == [97, 98, NEWLINE] && s == [98]
    ensures NaiveReport(name, s, Lines(f)) == name + [COLON, 97, 98, NEWLINE]
    ensures Search(name, s, [], f) == NaiveReport(name, s, Lines(f)) + (name + [COLON, NEWLINE])
  {
    hide Search, Report, NaiveReport, MatchesFit, Lines, Clean, LastLine;
    NaiveOfOne(name, f, s);
    PiecesAreExact(name, s, f);
    LastLineIs(f, 3);
    StaleHolds(f, s);
    OneLineMore(name, s, f);
    assert name + [COLON] + f[3..] + [NEWLINE] == name + [COLON, NEWLINE];
  }

  /** When the last line of a short file does not contain the pattern and the stale bytes do, it is printed. */
  lemma {:induction false} OneLineMore(name: Text, s: Text, f: Text)
    requires NulFree(s) && NulFree(f) && |f| < BUFSIZE && !Clean(s, f)
    ensures Search(name, s, [], f) == Report(name, s, f) + (name + [COLON] + f[LastLine(f)..] + [NEWLINE])
  {
    assert [] + f == f;
    SearchIs(name, s, [], f);
  }

  lemma {:induction false} NaiveOfOne(name: Text, f: Text, s: Text)
    requires f == [97, 98, NEWLINE] && s == [98]
    ensures NaiveReport(name, s, Lines(f)) == name + [COLON, 97, 98, NEWLINE] && MatchesFit(s, Lines(f))
  {
    var line: Text := [97, 98];
    assert line[1..2] == s && OccursAt(line, s, 1);
    assert f[..2] == line && f[3..] == [];
    LineEndUnique(f, 2);
    LineEndUnique([], 0);
    NaiveMore(name, s, f);
    NaiveLast(name, s, []);
    hide NaiveReport, MatchesFit, Lines;
    assert NaiveLine(name, s, line) == name + [COLON, 97, 98, NEWLINE];
  }

  lemma {:induction false} StaleHolds(f: Text, s: Text)
    requires f == [97, 98, NEWLINE] && s == [98] && LastLine(f) == 3
    ensures !Clean(s, f)
  {
    var stale := Stale(f);
    assert stale[0] == 98;
    assert stale[0..1] == s && OccursAt(stale, s, 0) && Finds(stale, s);
    assert f[3..] == [] && !Finds([], s);
  }

  // ----- a newline behind the buffer -----

  lemma {:induction false} ScanMarked(name: Text, s: Text, left: Text, from: nat)
    requires NulFree(s) && NulFree(left) && from <= |left| <= BUFSIZE
    ensures Scan(name, s, left + Zeros(BUFSIZE - |left|), from, false).0 == Report(name, s, left[from..])
    decreases BUFSIZE - from
  {
    var full := left + Zeros(BUFSIZE - |left|);
    var e := LineEnd(full, from);
    hide Report, RawReport, ReportLine, LineEnd, Scan, NulFree, Zeros;
    ScanStep(name, s, full, from, false);
    if e < BUFSIZE {
      MarkedLine(name, s, left, from);
      ScanMarked(name, s, left, e + 1);
      if e + 1 == BUFSIZE {
        assert left[e + 1..] == [];
        NothingToReport(name, s);
      }
    } else {
      MarkedEnd(name, s, left, from);
    }
  }

  lemma {:induction false} MarkedLine(name: Text, s: Text, left: Text, from: nat)
    requires NulFree(s) && NulFree(left) && from <= |left| <= BUFSIZE
    requires LineEnd(left + Zeros(BUFSIZE - |left|), from) < BUFSIZE
    ensures var full := left + Zeros(BUFSIZE - |left|);
            var e := LineEnd(full, from);
            && e < |left|
            && Report(name, s, left[from..]) == RawReport(name, s, full[from..e]) + Report(name, s, left[e + 1..])
  {
    hide Report, RawReport;
    BufferLine(name, s, left + Zeros(BUFSIZE - |left|), left, from);
  }

  lemma {:induction false} TailNulFree(t: Text, from: nat)
    requires NulFree(t) && from <= |t|
    ensures NulFree(t[from..])
  {
  }

  lemma {:induction false} MarkedEnd(name: Text, s: Text, left: Text, from: nat)
    requires NulFree(s) && NulFree(left) && from <= |left| <= BUFSIZE
    requires LineEnd(left + Zeros(BUFSIZE - |left|), from) == BUFSIZE
    ensures var full := left + Zeros(BUFSIZE - |left|);
            Report(name, s, left[from..]) == RawReport(name, s, full[from..BUFSIZE])
  {
    hide Report, RawReport, ReportLine, LineEnd, NulFree;
    var full, line := left + Zeros(BUFSIZE - |left|), left[from..];
    forall k | 0 <= k < |line| ensures line[k] != NEWLINE {
      assert line[k] == full[from + k];
    }
    TakeLast(name, s, line);
    TailNulFree(left, from);
    PaddedLine(name, s, line, BUFSIZE - |left|);
    assert full[from..BUFSIZE] == line + Zeros(BUFSIZE - |left|);
  }

  /** With that newline the first 1024 bytes are searched as a file of their own; a file that has no more is reported
      right exactly when the pattern starts with an ASCII byte or occurs nowhere, whatever its last line. */
  lemma {:induction false} MarkedIsExact(name: Text, s: Text, f: Text)
    requires NulFree(s) && |s| > 0 && NulFree(f) && f != []
    ensures var m := if |f| < BUFSIZE then |f| else BUFSIZE;
            SearchMarked(name, s, f) == Report(name, s, f[..m])
              + if m == BUFSIZE && f[m - 1] == NEWLINE then SearchMarked(name, s, f[m..])
                else Search(name, s, [], f[m..])
    ensures |f| <= BUFSIZE ==>
              (SearchMarked(name, s, f) == NaiveReport(name, s, Lines(f)) <==> MatchesFit(s, Lines(f)))
  {
    hide Search, Scan, Report, Lines, NaiveReport, MatchesFit;
    var m := if |f| < BUFSIZE then |f| else BUFSIZE;
    ScanMarked(name, s, f[..m], 0);
    assert f[..m][0..] == f[..m];
    if |f| <= BUFSIZE {
      assert f[..m] == f && f[m..] == [];
      SearchStep(name, s, [], []);
      NothingLeft(name, s);
      assert Report(name, s, f) + [] == Report(name, s, f);
      PiecesAreExact(name, s, f);
    }
  }
}
