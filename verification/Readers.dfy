/** Reading a file while other processes run: the descriptor in the PCB table walks through the flat file. */
module Readers {
  import opened Processes
  import opened ProcessTable
  import opened Representation
  import opened KernelState
  import opened Runs

  import Directory
  import FileSystem
  import Files
  import Memory

  /** The request does not end process `p` nor close its descriptor `fd`. */
  predicate Spares(m: Machine, r: Request, p: nat, fd: nat)
    requires Shape(m)
  {
    Running(m).pid == p ==> !(r.Change? && r.event.Halt?) && r != Close(fd)
  }

  ghost predicate SparesAll(m: Machine, rs: seq<Request>, p: nat, fd: nat)
    requires Valid(m)
    decreases |rs|
  {
    rs == [] || (Spares(m, rs[0], p, fd) && SparesAll(After(m, rs[0]), rs[1..], p, fd))
  }

  predicate ReadsNow(m: Machine, r: Request, p: nat, fd: nat)
    requires Shape(m)
  {
    Running(m).pid == p && r.Read? && r.fd == fd && r.n >= 0
  }

  /** The sizes that process `p` asks of its descriptor `fd`, in order. */
  ghost function Asked(m: Machine, rs: seq<Request>, p: nat, fd: nat): seq<nat>
    requires Valid(m)
    decreases |rs|
  {
    if rs == [] then []
    else (if ReadsNow(m, rs[0], p, fd) then [rs[0].n] else []) + Asked(After(m, rs[0]), rs[1..], p, fd)
  }

  lemma {:induction false} StaysLive(m: Machine, r: Request, p: nat, fd: nat)
    requires Valid(m) && p in Live(m.stacks) && Spares(m, r, p, fd)
    ensures p in Live(After(m, r).stacks)
  {
    if r.Change? {
      if r.event.Execute? && Launches(m, r.event.name, r.event.image) {
        PushStaysLive(m, r.event, p);
      } else if r.event.Halt? && |m.stacks[m.current]| > 1 {
        LiveAfterPop(m);
      }
    }
  }

  lemma {:induction false} PushStaysLive(m: Machine, e: Event, p: nat)
    requires Valid(m) && p in Live(m.stacks) && e.Execute? && Launches(m, e.name, e.image)
    ensures p in Live(Step(m, e).stacks)
  {
    LiveAfterPush(m, Frame(NewPid(m), IsShellName(e.name), e.entry));
  }

  /** An open regular file of the disk, at a position inside it. */
  ghost predicate OnFile(img: FileSystem.Image, f: Fd, inode: nat, position: nat) {
    && FileSystem.WellFormed(img) && f.open && f.device == Regular && f.inode == inode < FileSystem.InodeCount(img)
    && f.position == position <= FileSystem.FileLength(img, inode)
  }

  /** One request leaves an open descriptor of a process alone, unless the process reads it. */
  lemma {:induction false} FdAfter(img: FileSystem.Image, files: seq<Fd>, r: Request, fd: nat, f: Fd)
    requires FileSystem.WellFormed(img) && |files| == FILES && FD_MIN <= fd <= FD_MAX && f == files[fd] && f.open
    requires !(r.Change? && r.event.Halt?) && r != Close(fd)
    ensures var after := FilesAfter(img, files, r)[fd];
            after == if r.Read? && r.fd == fd && r.n >= 0 && Readable(img, files, fd) then Moved(img, f, r.n) else f
  {
    hide Moved, FileSystem.WellFormed, Lookup;
  }

  /** What a read of a file yields is the file from the position on. */
  lemma {:induction false} ReadGoesOn(img: FileSystem.Image, f: Fd, inode: nat, position: nat, n: nat)
    requires OnFile(img, f, inode, position)
    ensures FileSystem.InodeOk(img, inode)
    ensures var file := FileSystem.FileBytes(img, inode);
            var r := FileSystem.Available(|file|, position, n);
            && BytesAt(img, f, n) == file[position..position + r]
            && OnFile(img, Moved(img, f, n), inode, position + r)
  {
    assert FileSystem.InodeOk(img, inode);
  }

  /** Process `p` has the file open on `fd`, and none of the requests to come ends that. */
  ghost predicate Reading(img: FileSystem.Image, tab: Table, m: Machine, rs: seq<Request>, p: nat, fd: nat, inode: nat,
                          position: nat)
  {
    && Valid(m) && p in Live(m.stacks) && SparesAll(m, rs, p, fd) && FD_MIN <= fd <= FD_MAX
    && p < |tab| && |tab[p].files| == FILES && OnFile(img, tab[p].files[fd], inode, position)
  }

  ghost function File(img: FileSystem.Image, inode: nat): seq<Memory.Byte>
    requires FileSystem.WellFormed(img) && inode < FileSystem.InodeCount(img)
    ensures |File(img, inode)| == FileSystem.FileLength(img, inode)
  {
    assert FileSystem.InodeOk(img, inode);
    FileSystem.FileBytes(img, inode)
  }

  /** Where a request leaves the position of the descriptor. */
  ghost function PositionAfter(img: FileSystem.Image, m: Machine, r: Request, p: nat, fd: nat, inode: nat,
                               position: nat): nat
    requires FileSystem.WellFormed(img) && inode < FileSystem.InodeCount(img) && Shape(m)
  {
    if ReadsNow(m, r, p, fd) then position + FileSystem.Available(|File(img, inode)|, position, r.n) else position
  }

  lemma {:induction false} ReadingGoesOn(img: FileSystem.Image, was: Table, now: Table, m: Machine, rs: seq<Request>,
                                         p: nat, fd: nat, inode: nat, position: nat)
    requires rs != [] && Reading(img, was, m, rs, p, fd, inode, position)
    requires |now| == |was| && FilesFollow(img, was, now, m, rs[0])
    ensures Reading(img, now, After(m, rs[0]), rs[1..], p, fd, inode,
                    PositionAfter(img, m, rs[0], p, fd, inode, position))
    ensures ReadsNow(m, rs[0], p, fd) ==>
              && Readable(img, was[p].files, fd)
              && BytesAt(img, was[p].files[fd], rs[0].n)
                 == File(img, inode)[position..PositionAfter(img, m, rs[0], p, fd, inode, position)]
  {
    var r, files := rs[0], was[p].files;
    StaysLive(m, r, p, fd);
    if Running(m).pid == p {
      FdAfter(img, files, r, fd, files[fd]);
    }
    ReadGoesOn(img, files[fd], inode, position, if r.Read? && r.n >= 0 then r.n else 0);
    hide Valid, Live, FileSystem.FileBytes, FilesAfter, FileSystem.WellFormed, Step, BytesAt, Moved;
  }

  lemma {:induction false} PositionsAdd(img: FileSystem.Image, m: Machine, rs: seq<Request>, p: nat, fd: nat,
                                        inode: nat, position: nat)
    requires FileSystem.WellFormed(img) && inode < FileSystem.InodeCount(img) && Valid(m)
    requires position <= |File(img, inode)|
    ensures var length := |File(img, inode)|;
            && (rs == [] ==> Files.EndOf(length, position, Asked(m, rs, p, fd)) == position)
            && (rs != [] ==>
                  Files.EndOf(length, PositionAfter(img, m, rs[0], p, fd, inode, position),
                              Asked(After(m, rs[0]), rs[1..], p, fd))
                  == Files.EndOf(length, position, Asked(m, rs, p, fd)))
  {
    if rs == [] {
    } else {
      var asked, rest := Asked(m, rs, p, fd), Asked(After(m, rs[0]), rs[1..], p, fd);
      if ReadsNow(m, rs[0], p, fd) {
        assert asked[1..] == rest;
      } else {
        assert asked == rest;
      }
    }
  }

  /** What was read so far, and that the requests to come lead where the whole stream leads. */
  ghost predicate ReadSoFar(img: FileSystem.Image, first: Machine, all: seq<Request>, m: Machine, rest: seq<Request>,
                            p: nat, fd: nat, inode: nat, start: nat, position: nat, bytes: seq<Memory.Byte>)
    requires FileSystem.WellFormed(img) && inode < FileSystem.InodeCount(img)
  {
    && Valid(first) && Valid(m) && Run(m, Events(rest)) == Run(first, Events(all))
    && start <= position <= |File(img, inode)| && bytes == File(img, inode)[start..position]
    && Files.EndOf(|File(img, inode)|, position, Asked(m, rest, p, fd))
       == Files.EndOf(|File(img, inode)|, start, Asked(first, all, p, fd))
  }

  lemma {:induction false} ReadOn(img: FileSystem.Image, first: Machine, all: seq<Request>, m: Machine,
                                  rest: seq<Request>, p: nat, fd: nat, inode: nat, start: nat, position: nat,
                                  bytes: seq<Memory.Byte>, next: nat, more: seq<Memory.Byte>)
    requires FileSystem.WellFormed(img) && inode < FileSystem.InodeCount(img) && rest != []
    requires ReadSoFar(img, first, all, m, rest, p, fd, inode, start, position, bytes)
    requires next == PositionAfter(img, m, rest[0], p, fd, inode, position) && more == File(img, inode)[position..next]
    ensures ReadSoFar(img, first, all, After(m, rest[0]), rest[1..], p, fd, inode, start, next, bytes + more)
  {
    hide Valid, After, Step, Run, Asked, Files.EndOf, FileSystem.WellFormed, FileSystem.FileBytes;
    PositionsAdd(img, m, rest, p, fd, inode, position);
    RunOne(m, rest);
    var file := File(img, inode);
    assert file[start..position] + file[position..next] == file[start..next];
  }

  lemma {:induction false} ReadToEnd(img: FileSystem.Image, first: Machine, all: seq<Request>, m: Machine, p: nat,
                                     fd: nat, inode: nat, start: nat, position: nat, bytes: seq<Memory.Byte>)
    requires FileSystem.WellFormed(img) && inode < FileSystem.InodeCount(img)
    requires ReadSoFar(img, first, all, m, [], p, fd, inode, start, position, bytes)
    ensures Valid(first) && m == Run(first, Events(all))
    ensures position == Files.EndOf(|File(img, inode)|, start, Asked(first, all, p, fd))
    ensures start <= position <= |File(img, inode)| && bytes == File(img, inode)[start..position]
  {
    PositionsAdd(img, m, [], p, fd, inode, position);
    assert Run(m, Events([])) == m;
  }

  /** The reads of one descriptor put its file together, in order and with nothing missing, whatever other processes
      and other descriptors do in between. */
  method ServeReader(k: Kernel, img: FileSystem.Image, buf: array<Memory.Byte>, rs: seq<Request>, ghost p: nat,
                     ghost fd: nat, ghost inode: nat, ghost start: nat)
    returns (ghost bytes: seq<Memory.Byte>)
    requires k.Steady() && k.pitCount > TERMINALS && forall r | r in rs :: Servable(img, buf.Length, r)
    requires Reading(img, k.pcbs[..], k.machine, rs, p, fd, inode, start)
    modifies k, k.pcbs, k.scheduleArray, k.currPid, k.pageDir, buf
    ensures k.Steady() && k.machine == Run(old(k.machine), Events(rs))
    ensures var end := Files.EndOf(|File(img, inode)|, start, Asked(old(k.machine), rs, p, fd));
            && start <= end <= |File(img, inode)| && bytes == File(img, inode)[start..end]
            && Reading(img, k.pcbs[..], k.machine, [], p, fd, inode, end)
  {
    ghost var first := k.machine;
    ghost var position: nat := start;
    assert rs[0..] == rs && File(img, inode)[start..start] == [];
    bytes := [];
    assert ReadSoFar(img, first, rs, k.machine, rs, p, fd, inode, start, position, bytes);
    hide Kernel.Steady, Valid, Servable, Reading, ReadSoFar, FileSystem.WellFormed, Files.EndOf, File, Asked, Run;
    var i := 0;
    while i < |rs|
      invariant 0 <= i <= |rs| && k.Steady() && k.pitCount > TERMINALS
      invariant Reading(img, k.pcbs[..], k.machine, rs[i..], p, fd, inode, position)
      invariant ReadSoFar(img, first, rs, k.machine, rs[i..], p, fd, inode, start, position, bytes)
    {
      assert rs[i] in rs && rs[i..][0] == rs[i] && rs[i..][1..] == rs[i + 1..];
      position, bytes := ReaderTurn(k, img, buf, rs[i], first, rs, rs[i..], p, fd, inode, start, position, bytes);
      i := i + 1;
    }
    assert rs[i..] == [];
    ReadToEnd(img, first, rs, k.machine, p, fd, inode, start, position, bytes);
  }

  /** From `open` to the last byte: the reads of a file that was just opened by its name yield it from byte 0 on. */
  method OpenAndRead(k: Kernel, img: FileSystem.Image, buf: array<Memory.Byte>, name: seq<Memory.Byte>, stale: int,
                     rs: seq<Request>, ghost free: nat)
    returns (fd: int, ghost bytes: seq<Memory.Byte>)
    requires k.Steady() && k.pitCount > TERMINALS && FileSystem.WellFormed(img) && Memory.NulFree(name)
    requires forall r | r in rs :: Servable(img, buf.Length, r)
    // the first entry with the name is a regular file, and a descriptor is free
    requires var i := Directory.FirstNamed(img, name, 0);
             && i < FileSystem.DirCount(img) && FileSystem.WordAt(img, Directory.EntryAt(i) + 32) == 2
             && FileSystem.WordAt(img, Directory.EntryAt(i) + 36) < FileSystem.InodeCount(img)
    requires 2 <= free <= 7 && !k.RunningFiles()[free].open && forall j | 2 <= j < free :: k.RunningFiles()[j].open
    // and what follows does not end the process or close that descriptor
    requires Valid(k.machine) && k.processNum >= 0 && SparesAll(k.machine, rs, k.processNum, free)
    modifies k, k.pcbs, k.scheduleArray, k.currPid, k.pageDir, buf
    ensures k.Steady() && k.machine == Run(old(k.machine), Events(rs)) && fd == free
    ensures var i := Directory.FirstNamed(img, name, 0);
            var inode := FileSystem.WordAt(img, Directory.EntryAt(i) + 36);
            var asked := Asked(old(k.machine), rs, old(k.processNum), free);
            var end := Files.EndOf(|File(img, inode)|, 0, asked);
            end <= |File(img, inode)| && bytes == File(img, inode)[..end]
  {
    hide FileSystem.WordAt, Directory.FirstNamed, AfterOpen, FileSystem.FileBytes, SparesAll, Asked, Live, Files.EndOf;
    ghost var p := k.processNum;
    ghost var inode := FileSystem.WordAt(img, Directory.EntryAt(Directory.FirstNamed(img, name, 0)) + 36);
    RunningSlot(k.Vars(), k.machine);
    hide Kernel.Steady, Valid, Servable;
    fd := k.Open(img, name, stale);
    assert k.pcbs[..][p].files == k.RunningFiles();
    bytes := ServeReader(k, img, buf, rs, p, free, inode, 0);
  }

  /** One turn of it. */
  method ReaderTurn(k: Kernel, img: FileSystem.Image, buf: array<Memory.Byte>, r: Request, ghost first: Machine,
                    ghost all: seq<Request>, ghost rest: seq<Request>, ghost p: nat, ghost fd: nat, ghost inode: nat,
                    ghost start: nat, ghost position: nat, ghost bytes: seq<Memory.Byte>)
    returns (ghost next: nat, ghost read: seq<Memory.Byte>)
    requires k.Steady() && k.pitCount > TERMINALS && Servable(img, buf.Length, r) && rest != [] && rest[0] == r
    requires inode < FileSystem.InodeCount(img)
    requires Reading(img, k.pcbs[..], k.machine, rest, p, fd, inode, position)
    requires ReadSoFar(img, first, all, k.machine, rest, p, fd, inode, start, position, bytes)
    modifies k, k.pcbs, k.scheduleArray, k.currPid, k.pageDir, buf
    ensures k.Steady() && k.pitCount > TERMINALS
    ensures Reading(img, k.pcbs[..], k.machine, rest[1..], p, fd, inode, next)
    ensures ReadSoFar(img, first, all, k.machine, rest[1..], p, fd, inode, start, next, read)
  {
    ghost var m, was := k.machine, k.pcbs[..];
    hide Kernel.Steady, Valid, After, Servable, Reading, ReadSoFar, FilesFollow, FileSystem.WellFormed, PositionAfter;
    hide BytesAt, Readable, File;
    var delivered := ServeOne(k, img, buf, r);
    ReadingGoesOn(img, was, k.pcbs[..], m, rest, p, fd, inode, position);
    next := PositionAfter(img, m, r, p, fd, inode, position);
    ghost var more := if ReadsNow(m, r, p, fd) then delivered else [];
    if !ReadsNow(m, r, p, fd) { NothingMore(img, m, r, p, fd, inode, position); }
    ReadOn(img, first, all, m, rest, p, fd, inode, start, position, bytes, next, more);
    read := bytes + more;
  }

  lemma {:induction false} NothingMore(img: FileSystem.Image, m: Machine, r: Request, p: nat, fd: nat, inode: nat,
                                       position: nat)
    requires FileSystem.WellFormed(img) && inode < FileSystem.InodeCount(img) && Shape(m)
    requires !ReadsNow(m, r, p, fd) && position <= |File(img, inode)|
    ensures var next := PositionAfter(img, m, r, p, fd, inode, position);
            next == position && File(img, inode)[position..next] == []
  {
  }

}
