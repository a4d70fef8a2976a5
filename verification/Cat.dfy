/** `cat`: from the bytes of a file to the screen. */
module Cat {
  import opened FileSystem
  import opened Files
  import opened Memory
  import opened Screens
  import opened Terminals
  import opened Transcript
  import opened Video
  import opened Wrapping
  import opened WriteCalls

  /** The buffer of the program. */
  const CHUNK: nat := 1024

  function Take(rest: seq<Byte>): (n: nat)
    ensures n <= |rest| && (rest != [] ==> n > 0)
  {
    if |rest| < CHUNK then |rest| else CHUNK
  }

  /** What one read leaves in the buffer, and the write is told to print. */
  function Chunk(rest: seq<Byte>): (buf: seq<Byte>)
    ensures |buf| == CHUNK
  {
    rest[..Take(rest)] + seq(CHUNK - Take(rest), i => 0)
  }

  /** The run as events, for what is left of the file. */
  function CatEvents(displayed: nat, t: nat, rest: seq<Byte>, hello: bool, cat: bool): seq<Event>
    decreases |rest|
  {
    if rest == [] then []
    else
      var buf := Chunk(rest);
      CallEvents(displayed, t, buf, CHUNK, hello, cat)
      + CatEvents(displayed, t, rest[Take(rest)..], Says(buf, HELLO), cat && !Says(buf, PROMPT))
  }

  method ShowFile(img: Image, fd: FileDescriptor, buf: array<Byte>, d: Display, t: nat, hello: bool, cat: bool)
    requires fd.Valid(img) && fd.open && fd.inode < InodeCount(img) && buf.Length == CHUNK && buf != d.mem
    requires d.Valid() && t < SCREENS
    requires AllowedRun(d.Abstract(), CatEvents(d.terminalNum, t, fd.File(img)[fd.position..], hello, cat))
    modifies fd`position, buf, d.mem, d.saveX, d.saveY, d`screenX, d`screenY, d`rowLetterCt
    ensures fd.Valid(img) && fd.position == |fd.File(img)| && d.Valid()
    ensures var rest := old(fd.File(img)[fd.position..]);
            d.Abstract() == Run(old(d.Abstract()), CatEvents(d.terminalNum, t, rest, hello, cat))
  {
    ghost var k := d.Abstract();
    ghost var all := CatEvents(d.terminalNum, t, fd.File(img)[fd.position..], hello, cat);
    hide FileBytes, WellFormed, FileLength, InodeCount, FileDescriptor.Valid, FileDescriptor.File;
    hide Display.Valid, Display.Abstract, AllowedRun, Run, CatEvents, CatLeft;
    var hi, on, more := hello, cat, true;
    while more
      invariant fd.Valid(img) && fd.File(img) == old(fd.File(img)) && fd.position <= |fd.File(img)| && d.Valid()
      invariant CatLeft(k, all, d.Abstract(), d.terminalNum, t, fd.File(img)[fd.position..], hi, on)
      invariant !more ==> fd.position == |fd.File(img)| && d.Abstract() == Run(k, all)
      decreases more, |fd.File(img)| - fd.position
    {
      more, hi, on := ShowChunk(img, fd, buf, d, t, hi, on, k, all);
    }
  }


  /** One turn of the loop: a read, and a write of what it says it has read. */
  method ShowChunk(img: Image, fd: FileDescriptor, buf: array<Byte>, d: Display, t: nat, hello: bool, cat: bool,
                   ghost first: Console, ghost all: seq<Event>)
    returns (more: bool, nextHello: bool, nextCat: bool)
    requires fd.Valid(img) && fd.open && fd.inode < InodeCount(img) && buf.Length == CHUNK && buf != d.mem
    requires d.Valid() && t < SCREENS && fd.position <= |fd.File(img)|
    requires CatLeft(first, all, d.Abstract(), d.terminalNum, t, fd.File(img)[fd.position..], hello, cat)
    modifies fd`position, buf, d.mem, d.saveX, d.saveY, d`screenX, d`screenY, d`rowLetterCt
    ensures fd.Valid(img) && fd.File(img) == old(fd.File(img)) && old(fd.position) <= fd.position <= |fd.File(img)|
    ensures d.Valid()
    ensures CatLeft(first, all, d.Abstract(), d.terminalNum, t, fd.File(img)[fd.position..], nextHello, nextCat)
    ensures if more then old(fd.position) < fd.position
            else fd.position == |fd.File(img)| && d.Abstract() == Run(first, all)
  {
    hide FileBytes, WellFormed, FileLength, InodeCount;
    hide Display.Abstract, AllowedRun, Run, CatLeft, CallEvents, Says, WithoutNuls, Chunk;
    nextHello, nextCat := hello, cat;
    ghost var rest, position := fd.File(img)[fd.position..], fd.position;
    CatStep(first, all, d.Abstract(), d.terminalNum, t, rest, hello, cat);
    var count := fd.FileRead(img, buf, 0, CHUNK);
    more := ReadResult(count, CHUNK) != 0;
    assert count == Take(rest);
    assert fd.File(img)[fd.position..] == rest[Take(rest)..];
    if more {
      assert buf[..count] == buf[0..0 + count] == fd.File(img)[position..fd.position] == rest[..count];
      ChunkRead(buf[..], rest, count);
      var written;
      written, nextHello, nextCat := TerminalWriteCall(d, t, 1, buf[..], CHUNK, hello, cat);
    }
  }

  lemma {:induction false} ChunkRead(buf: seq<Byte>, rest: seq<Byte>, count: nat)
    requires |buf| == CHUNK && count == Take(rest) && buf[..count] == rest[..count]
    requires forall j | count <= j < CHUNK :: buf[j] == 0
    ensures buf == Chunk(rest)
  {
    assert buf == buf[..count] + buf[count..];
  }

  /** The events still to come lead where all of them lead. */
  ghost predicate CatLeft(first: Console, all: seq<Event>, k: Console, displayed: nat, t: nat, rest: seq<Byte>,
                          hello: bool, cat: bool)
  {
    && ConsoleOk(first) && ConsoleOk(k) && AllowedRun(first, all)
    && AllowedRun(k, CatEvents(displayed, t, rest, hello, cat))
    && Run(k, CatEvents(displayed, t, rest, hello, cat)) == Run(first, all)
  }

  lemma {:induction false} CatStep(first: Console, all: seq<Event>, k: Console, displayed: nat, t: nat,
                                   rest: seq<Byte>, hello: bool, cat: bool)
    requires CatLeft(first, all, k, displayed, t, rest, hello, cat)
    ensures rest == [] ==> k == Run(first, all)
    ensures rest != [] ==>
              var buf := Chunk(rest);
              var call := CallEvents(displayed, t, buf, CHUNK, hello, cat);
              && AllowedRun(k, call)
              && CatLeft(first, all, Run(k, call), displayed, t, rest[Take(rest)..], Says(buf, HELLO),
                         cat && !Says(buf, PROMPT))
  {
    hide CallEvents, Chunk, Says;
    if rest == [] {
      RunEnds(k, []);
    } else {
      var buf := Chunk(rest);
      RunConcat(k, CallEvents(displayed, t, buf, CHUNK, hello, cat),
                CatEvents(displayed, t, rest[Take(rest)..], Says(buf, HELLO), cat && !Says(buf, PROMPT)));
    }
  }

  // ----- what the terminals get -----

  /** What the loops of the calls emit, with the newlines behind each. */
  function Emitting(rest: seq<Byte>, hello: bool, cat: bool): seq<Emission>
    decreases |rest|
  {
    if rest == [] then []
    else
      var buf := Chunk(rest);
      Wrapped(buf, if hello then HELLO_COUNT else 0) + Plainly(Tail(buf, cat))
      + Emitting(rest[Take(rest)..], Says(buf, HELLO), cat && !Says(buf, PROMPT))
  }

  /** Characters that the wrapping did not add. */
  function Plainly(cs: seq<Byte>): (es: seq<Emission>)
    ensures |es| == |cs|
  {
    seq(|cs|, i requires 0 <= i < |cs| => Emission(cs[i], false))
  }

  /** The file with the newlines behind each write. */
  function Broken(rest: seq<Byte>, cat: bool): seq<Byte>
    decreases |rest|
  {
    if rest == [] then []
    else
      var buf := Chunk(rest);
      WithoutNuls(rest[..Take(rest)]) + Tail(buf, cat) + Broken(rest[Take(rest)..], cat && !Says(buf, PROMPT))
  }

  lemma {:induction false} CharactersJoin(w: seq<Emission>, tail: seq<Byte>, more: seq<Emission>)
    ensures Characters(w + Plainly(tail) + more) == Characters(w) + tail + Characters(more)
  {
  }

  /** The displayed terminal gets it all when `cat` runs on it. */
  lemma {:induction false} CatStream(t: nat, rest: seq<Byte>, hello: bool, cat: bool)
    ensures var es := CatEvents(t, t, rest, hello, cat);
            NoSwitch(es) && Since(t, es, t) == Stream(false, Characters(Emitting(rest, hello, cat)))
    decreases |rest|
  {
    if rest == [] {
    } else {
      var buf := Chunk(rest);
      var more, hi, on := rest[Take(rest)..], Says(buf, HELLO), cat && !Says(buf, PROMPT);
      CatStream(t, more, hi, on);
      hide CallEvents, Chunk, Says, Wrapped, Tail, Plainly, Characters, Since;
      CallStream(t, t, buf, CHUNK, hello, cat, t);
      SinceConcat(t, CallEvents(t, t, buf, CHUNK, hello, cat), CatEvents(t, t, more, hi, on), t);
      assert buf[..CHUNK] == buf;
      var w, tail := Wrapped(buf, if hello then HELLO_COUNT else 0), Tail(buf, cat);
      CharactersJoin(w, tail, Emitting(more, hi, on));
    }
  }

  lemma {:induction false} KeptConcat(a: seq<Emission>, b: seq<Emission>)
    ensures Kept(a + b) == Kept(a) + Kept(b)
    decreases |a|
  {
    if a == [] {
      assert a + b == b;
    } else {
      assert (a + b)[0] == a[0] && (a + b)[1..] == a[1..] + b;
      KeptConcat(a[1..], b);
    }
  }

  lemma {:induction false} KeptPlainly(cs: seq<Byte>)
    ensures Kept(Plainly(cs)) == cs
    decreases |cs|
  {
    if cs == [] {
    } else {
      assert Plainly(cs)[1..] == Plainly(cs[1..]);
      KeptPlainly(cs[1..]);
    }
  }

  /** Nothing of the file is lost, and nothing is added but newlines: those of the wrapping, and those behind each
      write. */
  lemma {:induction false} CatIsLossless(rest: seq<Byte>, hello: bool, cat: bool)
    ensures Kept(Emitting(rest, hello, cat)) == Broken(rest, cat)
    decreases |rest|
  {
    if rest == [] {
    } else {
      var buf := Chunk(rest);
      var more, hi, on := rest[Take(rest)..], Says(buf, HELLO), cat && !Says(buf, PROMPT);
      var start := if hello then HELLO_COUNT else 0;
      CatIsLossless(more, hi, on);
      WrappingIsLossless(buf, start);
      PaddingIsNuls(buf, rest[..Take(rest)]);
      KeptPlainly(Tail(buf, cat));
      hide Wrapped, Tail, Says, Chunk, Kept, Plainly;
      KeptConcat(Wrapped(buf, start), Plainly(Tail(buf, cat)));
      KeptConcat(Wrapped(buf, start) + Plainly(Tail(buf, cat)), Emitting(more, hi, on));
    }
  }

  /** No write is "exit" or the prompt of the shell. */
  predicate Ordinary(rest: seq<Byte>)
    decreases |rest|
  {
    rest == [] || (!Says(Chunk(rest), EXIT) && !Says(Chunk(rest), PROMPT) && Ordinary(rest[Take(rest)..]))
  }

  lemma {:induction false} BrokenLength(rest: seq<Byte>)
    requires Ordinary(rest)
    ensures |Broken(rest, true)| == |WithoutNuls(rest)| + (|rest| + CHUNK - 1) / CHUNK
    decreases |rest|
  {
    if rest == [] {
    } else {
      var n := Take(rest);
      BrokenLength(rest[n..]);
      NulsConcat(rest[..n], rest[n..]);
      assert rest[..n] + rest[n..] == rest;
      hide Says, Chunk, WithoutNuls;
    }
  }

  /** A newline comes behind every 1024 bytes: what `cat` prints is the file and one newline exactly when the file has
      at most that many bytes, and at least one. */
  lemma {:induction false} CatBreaksLines(rest: seq<Byte>)
    requires Ordinary(rest)
    ensures Broken(rest, true) == WithoutNuls(rest) + [NEWLINE] <==> 0 < |rest| <= CHUNK
  {
    BrokenLength(rest);
    if 0 < |rest| <= CHUNK {
      hide Says, Chunk, WithoutNuls;
      assert rest[..Take(rest)] == rest && rest[Take(rest)..] == [] && Broken([], true) == [];
      assert Tail(Chunk(rest), true) == [NEWLINE];
    }
  }

  /** On the displayed terminal, after a clear, the screen is the window on all of it. */
  lemma {:induction false} CatShows(k: Console, rest: seq<Byte>, hello: bool, cat: bool)
    requires ConsoleOk(k) && AllText(rest)
    requires AllowedRun(k, [Clear] + CatEvents(k.displayed, k.displayed, rest, hello, cat))
    ensures var d := k.displayed;
            IsWindow(Run(k, [Clear] + CatEvents(d, d, rest, hello, cat)).screens[d],
                     Characters(Emitting(rest, hello, cat)))
  {
    var d := k.displayed;
    var es := CatEvents(d, d, rest, hello, cat);
    CatStream(d, rest, hello, cat);
    CatIsText(rest, hello, cat);
    assert ([Clear] + es)[0] == Clear && ([Clear] + es)[1..] == es;
    hide CatEvents, Emitting, AllText, IsWindow, Run, AllowedRun;
    ClearedShows(k, [Clear] + es, d);
  }

  lemma {:induction false} WrappedIsText(buf: seq<Byte>, lineCt: nat)
    requires AllText(buf)
    ensures AllText(Characters(Wrapped(buf, lineCt)))
    decreases |buf|
  {
    if buf == [] {
    } else {
      assert buf[0] in buf && forall c | c in buf[1..] :: c in buf;
      var rest := buf[1..];
      WrappedIsText(rest, NextCount(buf[0], lineCt));
      WrappedCons(buf[0], rest, lineCt);
      assert [buf[0]] + rest == buf;
      var e, w := Emitted(buf[0], lineCt), Wrapped(rest, NextCount(buf[0], lineCt));
      assert Characters(e + w) == Characters(e) + Characters(w);
    }
  }

  lemma {:induction false} CatIsText(rest: seq<Byte>, hello: bool, cat: bool)
    requires AllText(rest)
    ensures AllText(Characters(Emitting(rest, hello, cat)))
    decreases |rest|
  {
    if rest == [] {
    } else {
      var buf := Chunk(rest);
      var more, hi, on := rest[Take(rest)..], Says(buf, HELLO), cat && !Says(buf, PROMPT);
      CatIsText(more, hi, on);
      WrappedIsText(buf, if hello then HELLO_COUNT else 0);
      hide Says, Chunk, Wrapped;
      var w, tail := Wrapped(buf, if hello then HELLO_COUNT else 0), Tail(buf, cat);
      CharactersJoin(w, tail, Emitting(more, hi, on));
    }
  }
}
