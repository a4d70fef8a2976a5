/** grep's search of one file through a sliding buffer of 1024 bytes, on the reads this kernel gives it. */
module Grep {
  import opened Memory
  import opened FileSystem
  import opened Files
  import opened GrepSpec
  import opened GrepBuffer
  import opened Sequences

  // ----- the string routines -----

  /** The distance from `at` to the first NUL, which is not behind `end`. */
  method Strlen(mem: array<Byte>, at: nat, ghost end: nat) returns (len: nat)
    requires at <= end < mem.Length && mem[end] == 0
    ensures len == |CString(mem[at..end])|
  {
    ghost var text := mem[at..end];
    len := 0;
    while mem[at + len] != 0
      invariant at + len <= end && NulFree(text[..len])
      decreases end - (at + len)
    {
      assert text[..len + 1] == text[..len] + [mem[at + len]];
      len := len + 1;
    }
    assert at + len < end ==> text[len] == mem[at + len];
    CStringOf(text, text[..len]);
  }

  /** `strcpy` down to the start of the buffer: the destination is below the source, so copying forwards is right.
      The copy ends with the first NUL; the bytes behind it stay. */
  method StrcpyDown(mem: array<Byte>, from: nat, ghost end: nat)
    requires 0 < from <= end < mem.Length && mem[end] == 0
    modifies mem
    ensures var text := CString(old(mem[from..end]));
            && (forall j | 0 <= j < |text| :: mem[j] == text[j]) && mem[|text|] == 0
            && forall j | |text| < j < mem.Length :: mem[j] == old(mem[j])
  {
    ghost var was := mem[..];
    var k: nat := 0;
    var c := mem[from];
    mem[0] := c;
    while c != 0
      invariant from + k <= end && c == was[from + k] && CopiedDown(mem[..], was, from, k)
      decreases end - (from + k)
    {
      ghost var now := mem[..];
      k := k + 1;
      assert mem[from + k] == now[from + k];
      c := mem[from + k];
      mem[k] := c;
    }
    CopyEnds(mem[..], was, from, end, k);
    assert was[from..end] == old(mem[from..end]);
    assert forall j | 0 <= j < mem.Length :: mem[j] == mem[..][j] && was[j] == old(mem[j]);
  }

  /** The first bytes, none of them NUL but perhaps the last, have been copied down. */
  ghost predicate CopiedDown(now: Text, was: Text, from: nat, k: nat) {
    && |now| == |was| && from + k < |was|
    && (forall j | 0 <= j <= k :: now[j] == was[from + j])
    && (forall j | 0 <= j < k :: now[j] != 0)
    && forall j | k < j < |now| :: now[j] == was[j]
  }

  lemma {:induction false} CopyEnds(now: Text, was: Text, from: nat, end: nat, k: nat)
    requires CopiedDown(now, was, from, k) && 0 < from <= end < |was| && from + k <= end && was[from + k] == 0
    ensures var text := CString(was[from..end]);
            |text| == k && (forall j | 0 <= j < k :: now[j] == text[j]) && now[k] == 0
            && forall j | k < j < |now| :: now[j] == was[j]
  {
    var line := was[from..end];
    assert forall j | 0 <= j <= k && j < |line| :: line[j] == now[j];
    CStringOf(line, line[..k]);
  }

  /** `strncmp` of the bytes at `at` with the pattern, over the length of the pattern. */
  method Strncmp(mem: array<Byte>, at: nat, s: Text, ghost end: nat) returns (difference: int)
    requires at <= end < mem.Length && mem[end] == 0 && NulFree(s)
    ensures difference == 0 <==> OccursAt(mem[at..end], s, 0)
  {
    ghost var line := mem[at..end];
    if |s| == 0 {
      return 0;
    }
    var n, k := |s|, 0;
    while mem[at + k] == s[k]
      invariant 0 <= k < |s| && n == |s| - k && at + k <= end
      invariant k <= |line| && line[..k] == s[..k]
      decreases n
    {
      assert line[k] == s[k] && line[..k + 1] == line[..k] + [line[k]] && s[..k + 1] == s[..k] + [s[k]];
      n := n - 1;
      if n == 0 {
        assert line[0..0 + |s|] == line[..k + 1] == s[..k + 1] == s;
        return 0;
      }
      k := k + 1;
    }
    difference := mem[at + k] as int - s[k] as int;
    if at + k < end && |s| <= |line| {
      assert line[0..0 + |s|][k] == line[k] == mem[at + k];
    }
  }

  // ----- one line -----

  method FindLineEnd(data: array<Byte>, lineStart: nat, last: nat) returns (lineEnd: nat)
    requires lineStart <= last <= data.Length
    ensures lineEnd == LineEnd(data[..last], lineStart)
  {
    lineEnd := lineStart;
    while lineEnd < last && data[lineEnd] != NEWLINE
      invariant lineStart <= lineEnd <= last
      invariant LineEnd(data[..last], lineStart) == LineEnd(data[..last], lineEnd)
    {
      lineEnd := lineEnd + 1;
    }
  }

  /** Ends the line with a NUL, looks for the pattern from every position and prints the text once. */
  method SearchLine(data: array<Byte>, lineStart: nat, lineEnd: nat, s: Text, name: Text) returns (out: Text)
    requires lineStart <= lineEnd < data.Length && NulFree(s) && |s| > 0
    modifies data
    ensures data[..] == old(data[..])[lineEnd := 0]
    ensures out == RawReport(name, s, old(data[lineStart..lineEnd]))
  {
    ghost var line := data[lineStart..lineEnd];
    data[lineEnd] := 0;
    assert data[lineStart..lineEnd] == line;
    ghost var ended := data[..];
    var check := lineStart;
    while check < lineEnd
      invariant lineStart <= check <= lineEnd && data[..] == ended
      invariant forall i | 0 <= i < check - lineStart :: !(Signed(s[0]) == line[i] && OccursAt(line, s, i))
    {
      ghost var i := check - lineStart;
      assert line[i] == data[check];
      if Signed(s[0]) == data[check] {
        var difference := Strncmp(data, check, s, lineEnd);
        TailOccurs(line, s, i, data[check..lineEnd]);
        if difference == 0 {
          var len := Strlen(data, lineStart, lineEnd);
          out := name + [COLON] + data[lineStart..lineStart + len] + [NEWLINE];
          assert data[lineStart..lineStart + len] == line[..len];
          return;
        }
      }
      check := check + 1;
    }
    out := [];
  }

  lemma {:induction false} TailOccurs(line: Text, s: Text, i: nat, tail: Text)
    requires i <= |line| && |tail| == |line| - i && forall k | 0 <= k < |tail| :: tail[k] == line[i + k]
    ensures OccursAt(tail, s, 0) <==> OccursAt(line, s, i)
  {
    assert tail == line[i..];
    if i + |s| <= |line| {
      assert tail[0..0 + |s|] == line[i..i + |s|];
    }
  }

  // ----- one buffer -----

  /** The buffer with the lines before `from` ended by NULs, and the rest of it as it was. */
  ghost predicate SearchedTo(data: Text, buf: Text, from: nat) {
    && |data| == |buf| && from <= |buf|
    && (forall j | 0 <= j < from :: data[j] == if buf[j] == NEWLINE then 0 else buf[j])
    && forall j | from <= j < |buf| :: data[j] == buf[j]
  }

  lemma {:induction false} SearchedAll(data: Text, buf: Text, from: nat)
    requires SearchedTo(data, buf, from) && LineEnd(buf, from) == |buf|
    ensures data == Nulled(buf) && data[from..] == buf[from..]
  {
  }

  /** The unfinished line is copied down to the front of the buffer. */
  method CarryDown(data: array<Byte>, lineStart: nat, last: nat, ghost buf: Text)
    requires 0 < lineStart < last == |buf| && last < data.Length && LineEnd(buf, lineStart) == last
    requires SearchedTo(data[..last], buf, lineStart)
    modifies data
    ensures data[..last - lineStart] == Carried(buf, lineStart) && data[last] == 0
    ensures forall j | last < j < data.Length :: data[j] == old(data[j])
  {
    SearchedAll(data[..last], buf, lineStart);
    hide SearchedTo;
    assert data[..last][lineStart..] == data[lineStart..last];
    ghost var before := data[..last];
    data[last] := 0;
    assert data[..last] == before && data[lineStart..last] == buf[lineStart..];
    ghost var was := data[..];
    assert was[..last] == before;
    StrcpyDown(data, lineStart, last);
    CarriedBytes(buf, lineStart, data[..last - lineStart], was);
  }

  lemma {:induction false} CarriedBytes(buf: Text, from: nat, now: Text, was: Text)
    requires 0 < from <= |buf| < |was| && was[..|buf|] == Nulled(buf) && |now| == |buf| - from
    requires var text := CString(buf[from..]);
             && (forall j | 0 <= j < |text| && j < |now| :: now[j] == text[j])
             && (|text| < |now| ==> now[|text|] == 0)
             && forall j | |text| < j < |now| :: now[j] == was[j]
    ensures now == Carried(buf, from)
  {
    var text := CString(buf[from..]);
    var c := text + [0] + Nulled(buf)[|text| + 1..];
    assert forall j | 0 <= j < |buf| :: was[..|buf|][j] == was[j];
    forall j | 0 <= j < |now| ensures now[j] == c[j] {
      if j > |text| { assert c[j] == Nulled(buf)[j]; }
    }
  }

  lemma {:induction false} SearchedOn(data: Text, buf: Text, from: nat)
    requires SearchedTo(data, buf, from)
    ensures LineEnd(data, from) == LineEnd(buf, from)
    ensures var e := LineEnd(buf, from);
            data[from..e] == buf[from..e] && (e < |buf| ==> SearchedTo(data[e := 0], buf, e + 1))
  {
    SameLineEnd(data, buf, from);
  }

  lemma {:induction false} SameLineEnd(a: Text, b: Text, from: nat)
    requires |a| == |b| && from <= |a| && forall j | from <= j < |a| :: a[j] == b[j]
    ensures LineEnd(a, from) == LineEnd(b, from)
    decreases |a| - from
  {
    if from < |a| && a[from] != NEWLINE {
      SameLineEnd(a, b, from + 1);
    }
  }

  /** The line at `lineStart` is searched and ended. */
  method SearchNext(data: array<Byte>, lineStart: nat, lineEnd: nat, last: nat, s: Text, name: Text, ghost buf: Text)
    returns (found: Text)
    requires data.Length == BUFSIZE + 1 && lineStart <= last <= BUFSIZE && NulFree(s) && |s| > 0
    requires SearchedTo(data[..last], buf, lineStart) && lineEnd == LineEnd(buf, lineStart)
    modifies data
    ensures found == RawReport(name, s, buf[lineStart..lineEnd])
    ensures data[BUFSIZE] == if lineEnd == BUFSIZE then 0 else old(data[BUFSIZE])
    ensures lineEnd < last ==> SearchedTo(data[..last], buf, lineEnd + 1)
  {
    hide RawReport;
    SearchedOn(data[..last], buf, lineStart);
    hide SearchedTo;
    EndOfLine(data[..], last, lineStart, lineEnd);
    ghost var was := data[..];
    found := SearchLine(data, lineStart, lineEnd, s, name);
    assert lineEnd < last ==> data[..last] == was[..last][lineEnd := 0];
  }

  lemma {:induction false} EndIsNewline(data: Text, last: nat, from: nat)
    requires from <= last < |data|
    ensures LineEnd(data[..last], from) < last ==> data[LineEnd(data[..last], from)] == NEWLINE
  {
  }

  /** One turn of the inner loop: the unfinished line is carried, or a line is searched. */
  method ScanTurn(data: array<Byte>, lineStart: nat, last: nat, count: nat, s: Text, name: Text, ghost buf: Text)
    returns (carry: bool, found: Text, next: nat)
    requires data.Length == BUFSIZE + 1 && last <= BUFSIZE && NulFree(s) && |s| > 0
    requires lineStart <= last && (lineStart > 0 ==> lineStart < last) && SearchedTo(data[..last], buf, lineStart)
    requires count != 0 ==> last == BUFSIZE
    modifies data
    ensures data[BUFSIZE] == if last == BUFSIZE && (carry || next > last) then 0 else old(data[BUFSIZE])
    ensures last > 0 && (carry || next >= last) ==> (buf[last - 1] == NEWLINE <==> !carry && next == last)
    ensures var something := count != 0 && old(data[BUFSIZE]) != NEWLINE;
            var pass := Scan(name, s, buf, lineStart, something);
            if carry then
              0 < lineStart < last && pass == ([], lineStart) && data[..last - lineStart] == Carried(buf, lineStart)
            else if next < last then
              && lineStart < next && SearchedTo(data[..last], buf, next)
              && pass == (found + Scan(name, s, buf, next, something).0, Scan(name, s, buf, next, something).1)
            else
              pass == (found, 0)
  {
    SearchedOn(data[..last], buf, lineStart);
    hide Scan, Carried, RawReport, SearchedTo, NulFree, LineEnd;
    ScanStep(name, s, buf, lineStart, count != 0 && data[BUFSIZE] != NEWLINE);
    var lineEnd := FindLineEnd(data, lineStart, last);
    EndIsNewline(data[..], last, lineStart);
    found, next := [], lineEnd + 1;
    carry := data[lineEnd] != NEWLINE && count != 0 && lineStart != 0;
    if carry {
      CarryDown(data, lineStart, last, buf);
    } else {
      found := SearchNext(data, lineStart, lineEnd, last, s, name, buf);
    }
  }

  /** The inner loop: one pass over the buffer. */
  method ScanBuffer(data: array<Byte>, last: nat, count: nat, s: Text, name: Text) returns (out: Text, carried: nat)
    requires data.Length == BUFSIZE + 1 && last <= BUFSIZE && NulFree(s) && |s| > 0
    // a read that is not empty reports a full buffer
    requires count != 0 ==> last == BUFSIZE
    modifies data
    ensures data[BUFSIZE] == if last == BUFSIZE && old(data[last - 1]) != NEWLINE then 0 else old(data[BUFSIZE])
    ensures var buf := old(data[..last]);
            var pass := Scan(name, s, buf, 0, count != 0 && old(data[BUFSIZE]) != NEWLINE);
            && out == pass.0 && carried < BUFSIZE
            && carried == (if pass.1 == 0 then 0 else last - pass.1)
            && data[..carried] == (if pass.1 == 0 then [] else Carried(buf, pass.1))
  {
    ghost var buf := data[..last];
    ghost var something := count != 0 && data[BUFSIZE] != NEWLINE;
    out, carried := [], 0;
    var lineStart: nat := 0;
    while true
      invariant lineStart <= last && (lineStart > 0 ==> lineStart < last) && data[BUFSIZE] == old(data[BUFSIZE])
      invariant SearchedTo(data[..last], buf, lineStart)
      invariant Scan(name, s, buf, 0, something).0 == out + Scan(name, s, buf, lineStart, something).0
      invariant Scan(name, s, buf, 0, something).1 == Scan(name, s, buf, lineStart, something).1
      decreases last - lineStart
    {
      hide Scan, Carried, SearchedTo;
      var carry, found, next := ScanTurn(data, lineStart, last, count, s, name, buf);
      if carry {
        carried := last - lineStart;
        return;
      }
      if next < last { Assoc(out, found, Scan(name, s, buf, next, something).0); }
      out := out + found;
      lineStart := next;
      if lineStart >= last {
        return;
      }
    }
  }

  lemma {:induction false} EndOfLine(data: Text, last: nat, from: nat, e: nat)
    requires from <= e <= last < |data|
    ensures data[..last][from..e] == data[from..e]
  {
  }

  // ----- the file -----

  /** `do_one_file` on an open file, for a search text of at least one byte. Each read asks for at least one byte,
      and the loop ends. */
  method DoOneFile(img: Image, fd: FileDescriptor, s: Text, name: Text, data: array<Byte>) returns (out: Text)
    requires fd.Valid(img) && fd.open && fd.inode < InodeCount(img) && fd.position == 0
    requires NulFree(s) && |s| > 0
    requires data.Length == BUFSIZE + 1
    modifies fd`position, data
    ensures var file := old(fd.File(img));
            && out == SearchFrom(name, s, [], file, old(data[BUFSIZE]) == NEWLINE)
            && (NulFree(file) && old(data[BUFSIZE]) != NEWLINE ==>
                  (out == NaiveReport(name, s, Lines(file)) <==> MatchesFit(s, Lines(file)) && Clean(s, Remnant(file))))
  {
    ghost var file := fd.File(img);
    ghost var buf, more := data[..0], file[0..];
    ghost var mark := data[BUFSIZE] == NEWLINE;
    hide Search, SearchFrom, Clean, Remnant, NaiveReport, Lines, MatchesFit, FileDescriptor.File;
    out := [];
    var last: nat := 0;
    assert file[0..] == file && data[..0] == [];
    assert [] + SearchFrom(name, s, [], file, mark) == SearchFrom(name, s, [], file, mark);
    while true
      invariant fd.Valid(img) && fd.File(img) == file && fd.position <= |file|
      invariant last < BUFSIZE && (data[BUFSIZE] == NEWLINE ==> last == 0)
      invariant buf == data[..last] && more == file[fd.position..]
      invariant SearchFrom(name, s, [], file, mark) == out + SearchFrom(name, s, buf, more, data[BUFSIZE] == NEWLINE)
      decreases |more|
    {
      var count, found;
      count, found, last, buf, more := FileTurn(img, fd, s, name, data, last, buf, more);
      Assoc(out, found, SearchFrom(name, s, buf, more, data[BUFSIZE] == NEWLINE));
      out := out + found;
      if count == 0 {
        Judged(name, s, file, data[BUFSIZE] == NEWLINE);
        assert out + [] == out;
        return;
      }
    }
  }

  /** One turn of the outer loop. */
  method FileTurn(img: Image, fd: FileDescriptor, s: Text, name: Text, data: array<Byte>, last: nat,
                  ghost buf: Text, ghost more: Text)
    returns (count: nat, found: Text, carried: nat, ghost kept: Text, ghost rest: Text)
    requires fd.Valid(img) && fd.open && fd.inode < InodeCount(img) && fd.position <= |fd.File(img)|
    requires NulFree(s) && |s| > 0 && last < BUFSIZE && data.Length == BUFSIZE + 1
    requires data[BUFSIZE] == NEWLINE ==> last == 0
    requires buf == data[..last] && more == fd.File(img)[fd.position..]
    modifies fd`position, data
    ensures fd.Valid(img) && fd.File(img) == old(fd.File(img)) && fd.position <= |fd.File(img)|
    ensures carried < BUFSIZE && (data[BUFSIZE] == NEWLINE ==> carried == 0)
    ensures kept == data[..carried] && rest == fd.File(img)[fd.position..]
    ensures SearchFrom(name, s, buf, more, old(data[BUFSIZE]) == NEWLINE)
            == found + SearchFrom(name, s, kept, rest, data[BUFSIZE] == NEWLINE)
    ensures if count == 0 then kept == [] && rest == [] else |rest| < |more|
  {
    hide Search, SearchFrom, Scan, Carried, FileBytes, WellFormed, FileLength, InodeCount, NulFree;
    hide FileDescriptor.Valid, FileDescriptor.File;
    count := Refill(img, fd, data, last);
    rest := fd.File(img)[fd.position..];
    ghost var full := data[..last + count];
    found, carried := ScanBuffer(data, last + count, count, s, name);
    kept := data[..carried];
    SearchTurn(name, s, buf, more, full, rest, found, kept, old(data[BUFSIZE]) == NEWLINE, data[BUFSIZE] == NEWLINE);
  }

  /** The read that fills the buffer up behind the carried line: what it reports is the size it was asked for. */
  method Refill(img: Image, fd: FileDescriptor, data: array<Byte>, last: nat) returns (count: nat)
    requires fd.Valid(img) && fd.open && fd.inode < InodeCount(img) && last < BUFSIZE && data.Length == BUFSIZE + 1
    modifies fd`position, data
    ensures fd.Valid(img) && fd.File(img) == old(fd.File(img)) && data[BUFSIZE] == old(data[BUFSIZE])
    ensures var buf, more := old(data[..last]), old(fd.File(img)[fd.position..]);
            var n := BUFSIZE - last;
            var r := if |more| < n then |more| else n;
            && fd.position == old(fd.position) + r <= |fd.File(img)| && fd.File(img)[fd.position..] == more[r..]
            && count == (if more == [] then 0 else n)
            && data[..last + count] == if more == [] then buf else buf + more[..r] + Zeros(n - r)
  {
    ghost var was, position := data[..], fd.position;
    ghost var file := fd.File(img);
    var n := BUFSIZE - last;
    var result := fd.FileRead(img, data, last, n);
    count := ReadResult(result, n);
    assert data[last + n..][0] == was[last + n..][0] == was[BUFSIZE];
    assert data[..last] == was[..last];
    ghost var more := file[position..];
    assert more[..result] == file[position..position + result];
    if result > 0 {
      ghost var now := data[..last + n];
      assert now[..last] == was[..last] && now[last..last + result] == data[last..last + result];
      Filled(data[..last + n], was[..last], more[..result], n);
    }
  }

  lemma {:induction false} Filled(now: Text, buf: Text, part: Text, n: nat)
    requires |now| == |buf| + n && |part| <= n && now[..|buf|] == buf && now[|buf|..|buf| + |part|] == part
    requires forall j | |buf| + |part| <= j < |now| :: now[j] == 0
    ensures now == buf + part + Zeros(n - |part|)
  {
    assert now == now[..|buf|] + now[|buf|..|buf| + |part|] + now[|buf| + |part|..];
  }

  lemma {:induction false} SearchTurn(name: Text, s: Text, buf: Text, more: Text, full: Text, rest: Text, found: Text,
                                      kept: Text, mark: bool, next: bool)
    requires |buf| < BUFSIZE && |kept| < BUFSIZE && (mark ==> buf == [])
    requires next <==> mark && (more == [] || (full != [] && full[|full| - 1] == NEWLINE))
    requires var n := BUFSIZE - |buf|;
             var r := if |more| < n then |more| else n;
             rest == more[r..] && full == if more == [] then buf else buf + more[..r] + Zeros(n - r)
    requires var pass := Scan(name, s, full, 0, more != [] && !mark);
             found == pass.0 && kept == if pass.1 == 0 then [] else Carried(full, pass.1)
    ensures SearchFrom(name, s, buf, more, mark) == found + SearchFrom(name, s, kept, rest, next)
  {
    hide Search, Scan, Carried;
    SearchStep(name, s, buf, more);
    SearchStep(name, s, [], []);
    NothingLeft(name, s);
    ScanEnds(name, s, full);
    if mark && more != [] {
      var r := if |more| < BUFSIZE then |more| else BUFSIZE;
      assert [] + more[..r] + Zeros(BUFSIZE - r) == FirstFull(more);
    }
  }

  /** Without something read, nothing is carried. */
  lemma {:induction false} ScanEnds(name: Text, s: Text, buf: Text)
    ensures Scan(name, s, buf, 0, false).1 == 0
  {
  }

  lemma {:induction false} Judged(name: Text, s: Text, file: Text, mark: bool)
    requires NulFree(s) && |s| > 0
    ensures SearchFrom(name, s, [], [], mark) == []
    ensures NulFree(file) ==>
              (SearchFrom(name, s, [], file, false) == NaiveReport(name, s, Lines(file)) <==>
                 MatchesFit(s, Lines(file)) && Clean(s, Remnant(file)))
  {
    SearchStep(name, s, [], []);
    NothingLeft(name, s);
    if NulFree(file) {
      GrepIsExact(name, s, file);
    }
  }
}
