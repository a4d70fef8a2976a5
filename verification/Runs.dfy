/** The kernel from power-on and over any stream of interrupts and system calls: the theorems of `Processes.dfy`,
  read off the kernel's own variables. */
module Runs {
  import opened Processes
  import opened ProcessTable
  import opened Representation
  import opened KernelState

  import Directory
  import FileSystem
  import Memory

  /** A timer interrupt, `execute` or `halt`, with what a first shell would find in its stale flag; or a call of the
      running process that leaves the stacks alone, with what `open` would find in its result variable and what the
      routine of the terminal or a clock would return to `read`. */
  datatype Request =
    | Change(event: Event, stale: bool)
    | Open(name: seq<Memory.Byte>, left: int)
    | Close(fd: int)
    | Read(fd: int, n: int, other: int)

  /** The disk, and a buffer that is large enough for the read. */
  ghost predicate Servable(img: FileSystem.Image, size: nat, r: Request) {
    && FileSystem.WellFormed(img)
    && (r.Open? ==> Memory.NulFree(r.name)) && (r.Read? ==> r.n < FileSystem.TWO_31 && r.n <= size && 32 <= size)
  }

  function Events(rs: seq<Request>): seq<Event> {
    if rs == [] then [] else (if rs[0].Change? then [rs[0].event] else []) + Events(rs[1..])
  }

  /** The machine after one request. */
  function After(m: Machine, r: Request): (n: Machine)
    requires Valid(m)
    ensures Valid(n)
  {
    if r.Change? then StepKeepsValid(m, r.event); Step(m, r.event) else m
  }

  lemma {:induction false} RunOne(m: Machine, rs: seq<Request>)
    requires Valid(m) && rs != []
    ensures Run(m, Events(rs)) == Run(After(m, rs[0]), Events(rs[1..]))
  {
    if rs[0].Change? {
      RunCons(m, rs[0].event, Events(rs[1..]));
    } else {
      assert Events(rs) == Events(rs[1..]);
    }
    hide Valid, Step, Run;
  }

  /** The entry point that slot `p` holds after one event, and after a run: that of the last program started in it. */
  function StartAfter(m: Machine, e: Event, p: nat, was: nat): nat
    requires Shape(m) && Running(m).pid <= MAX_PCB
  {
    if e.Execute? && Launches(m, e.name, e.image) && p == NewPid(m) then e.image.value else was
  }

  ghost function StartOf(m: Machine, es: seq<Event>, p: nat, was: nat): nat
    requires Valid(m)
    decreases |es|
  {
    if es == [] then was
    else StepKeepsValid(m, es[0]); StartOf(Step(m, es[0]), es[1..], p, StartAfter(m, es[0], p, was))
  }

  /** Process `p` is alive after every event of the run. */
  ghost predicate LivesOn(m: Machine, es: seq<Event>, p: nat)
    requires Valid(m)
    decreases |es|
  {
    p in Live(m.stacks) && (es == [] || (StepKeepsValid(m, es[0]); LivesOn(Step(m, es[0]), es[1..], p)))
  }

  lemma {:induction false} StartStays(m: Machine, es: seq<Event>, p: nat, was: nat)
    requires Valid(m) && LivesOn(m, es, p)
    ensures StartOf(m, es, p, was) == was
    decreases |es|
  {
    if es == [] {
    } else {
      StepKeepsValid(m, es[0]);
      StartStays(Step(m, es[0]), es[1..], p, was);
      hide Valid, Live, Step;
    }
  }

  /** However many other programs are started and ended, a process holds the entry point that `execute` started it
      with for as long as it lives. */
  lemma {:induction false} StartedWith(m: Machine, e: Event, es: seq<Event>, was: nat)
    requires Valid(m) && e.Execute? && Launches(m, e.name, e.image)
    requires Valid(Step(m, e)) && LivesOn(Step(m, e), es, NewPid(m))
    ensures StartOf(m, [e] + es, NewPid(m), was) == e.image.value
  {
    assert ([e] + es)[1..] == es;
    StartStays(Step(m, e), es, NewPid(m), e.image.value);
  }

  lemma {:induction false} StartOne(m: Machine, rs: seq<Request>, p: nat, was: nat)
    requires Valid(m) && rs != []
    ensures StartOf(m, Events(rs), p, was)
            == StartOf(After(m, rs[0]), Events(rs[1..]), p,
                       if rs[0].Change? then StartAfter(m, rs[0].event, p, was) else was)
  {
    if rs[0].Change? {
      assert Events(rs) == [rs[0].event] + Events(rs[1..]) && Events(rs)[1..] == Events(rs[1..]);
    } else {
      assert Events(rs) == Events(rs[1..]);
    }
    hide Valid, Step, StartAfter;
  }

  /** Every PCB holds the entry point of the program that was started in it last. */
  ghost predicate StartsFollow(was: Table, now: Table, m: Machine, r: Request)
    requires Valid(m)
  {
    && |was| == |now| == SLOTS
    && forall p: nat | p < SLOTS ::
         now[p].entryPoint == if r.Change? then StartAfter(m, r.event, p, was[p].entryPoint) else was[p].entryPoint
  }

  lemma {:induction false} SteadyMachine(k: Kernel)
    requires k.Steady()
    ensures k.Arrays() && Valid(k.machine)
    ensures k.processNum == Running(k.machine).pid && k.scheduleIdx == k.machine.current
    ensures k.currPid[k.scheduleIdx] == k.scheduleArray[k.scheduleIdx] == k.processNum
    ensures UserFrame(k.pageDir[..]) == k.machine.userFrame && k.esp0 == k.machine.esp0
    ensures k.shellProcessCount == k.machine.shells && k.regs == k.machine.regs
  {
    RunningSlot(k.Vars(), k.machine);
    ResumedSlot(k.Vars(), k.machine, k.machine.current);
  }

  /** The PCB table is the three stacks: frame `i` of terminal `t` is linked to the frame below it, the shell at the
      bottom has no parent and the number of its terminal, and the top is what the scheduler array holds. */
  lemma {:induction false} TableShowsStacks(k: Kernel, t: nat, i: nat)
    requires k.Steady() && t < TERMINALS && i < |k.machine.stacks[t]|
    ensures var s := k.machine.stacks[t];
            && s[i].pid < SLOTS && k.pcbs[s[i].pid].active
            && k.pcbs[s[i].pid].pid == s[i].pid && k.pcbs[s[i].pid].terminal == t
            && k.pcbs[s[i].pid].parentId == (if i == 0 then -1 else s[i - 1].pid)
            && k.pcbs[s[i].pid].isBaseShell == (i == 0)
            && (i == 0 ==> s[i].pid == t) && (i > 0 ==> s[i - 1].pid < s[i].pid)
            && k.currPid[t] == k.scheduleArray[t] == Top(s).pid
  {
    var s, p := k.machine.stacks[t], k.machine.stacks[t][i].pid;
    assert StackOk(s, t) && StackIn(k.pcbs[..], t, s);
    assert FrameOk(k.pcbs[..], t, s, i);
    assert p in Live(k.machine.stacks);
    assert SlotOk(k.pcbs[..][p], p in Live(k.machine.stacks));
    ResumedSlot(k.Vars(), k.machine, t);
  }

  /** Every active PCB is a frame of exactly one stack, and a free one has its descriptors 2 to 6 closed. */
  lemma {:induction false} ActiveIsOnAStack(k: Kernel, p: nat)
    requires k.Steady() && p < SLOTS
    ensures k.pcbs[p].active <==>
            exists t, i :: 0 <= t < TERMINALS && 0 <= i < |k.machine.stacks[t]| && k.machine.stacks[t][i].pid == p
    ensures forall t, u, i, j ::
              0 <= t < u < TERMINALS && 0 <= i < |k.machine.stacks[t]| && 0 <= j < |k.machine.stacks[u]| ==>
              k.machine.stacks[t][i].pid != k.machine.stacks[u][j].pid
    ensures !k.pcbs[p].active ==> forall i | FD_MIN <= i < FD_MAX :: !k.pcbs[p].files[i].open
  {
    var m := k.machine;
    assert SlotOk(k.pcbs[..][p], p in Live(m.stacks));
    forall t, u, i, j | 0 <= t < u < TERMINALS && 0 <= i < |m.stacks[t]| && 0 <= j < |m.stacks[u]|
      ensures m.stacks[t][i].pid != m.stacks[u][j].pid
    {
      assert m.stacks[t][i].pid in Pids(m.stacks[t]) && m.stacks[u][j].pid in Pids(m.stacks[u]);
      assert t == 0 || t == 1;
    }
  }

  /** The descriptors of the running process after its request. */
  ghost function FilesAfter(img: FileSystem.Image, files: seq<Fd>, r: Request): (after: seq<Fd>)
    requires FileSystem.WellFormed(img) && |files| == FILES
    ensures |after| == FILES
  {
    match r
    case Change(Halt(_), _) => Closed(files)
    case Change(_, _) => files
    case Open(name, left) => AfterOpen(img, name, files, left).1
    case Close(fd) => AfterClose(files, fd)
    case Read(fd, n, _) => AfterRead(img, files, fd, n)
  }

  /** What a request does to the descriptors of the processes alive before it: those of the running one change as its
      request says, and nobody else's do. */
  ghost predicate FilesFollow(img: FileSystem.Image, was: Table, now: Table, m: Machine, r: Request)
    requires Valid(m) && FileSystem.WellFormed(img)
  {
    forall p: nat | p in Live(m.stacks) && p < |was| && p < |now| && |was[p].files| == FILES ::
      now[p].files == if p == Running(m).pid then FilesAfter(img, was[p].files, r) else was[p].files
  }

  /** A step of the machine: one interrupt, `execute` or `halt`. */
  method ServeChange(k: Kernel, img: FileSystem.Image, r: Request)
    requires k.Steady() && k.pitCount > TERMINALS && r.Change? && FileSystem.WellFormed(img)
    modifies k, k.pcbs, k.scheduleArray, k.currPid, k.pageDir
    ensures k.Steady() && k.pitCount > TERMINALS && Valid(old(k.machine))
    ensures k.machine == Step(old(k.machine), r.event)
    ensures FilesFollow(img, old(k.pcbs[..]), k.pcbs[..], old(k.machine), r)
    ensures StartsFollow(old(k.pcbs[..]), k.pcbs[..], old(k.machine), r)
  {
    hide Kernel.Steady, Represents, TickStep, HaltStep, ExecuteStep, Live, Valid;
    SteadyMachine(k);
    ghost var m := k.machine;
    match r.event {
      case Tick(entry) => k.Tick(entry);
      case Execute(name, image, entry) =>
        var ok := k.Execute(name, image, entry);
        SteadyMachine(k);
        if ok { LaunchedIsNew(m, name, image, entry); }
      case Halt(entry) => k.Halt(entry, r.stale);
    }
  }


  lemma {:induction false} LaunchedIsNew(m: Machine, name: string, image: Option<nat>, entry: Regs)
    requires Valid(m) && Launches(m, name, image)
    ensures var n := ExecuteStep(m, name, image, entry);
            Shape(n) && Running(n).pid == NewPid(m) && NewPid(m) !in Live(m.stacks)
  {
  }

  /** One request, and what it delivers when it is a read. */
  method ServeOne(k: Kernel, img: FileSystem.Image, buf: array<Memory.Byte>, r: Request)
    returns (delivered: seq<Memory.Byte>)
    requires k.Steady() && k.pitCount > TERMINALS && Servable(img, buf.Length, r)
    modifies k, k.pcbs, k.scheduleArray, k.currPid, k.pageDir, buf
    ensures k.Steady() && k.pitCount > TERMINALS && Valid(old(k.machine))
    ensures k.machine == After(old(k.machine), r)
    ensures FilesFollow(img, old(k.pcbs[..]), k.pcbs[..], old(k.machine), r)
    ensures StartsFollow(old(k.pcbs[..]), k.pcbs[..], old(k.machine), r)
    ensures var files := old(k.RunningFiles());
            delivered == if r.Read? then Delivered(img, files, r.fd, r.n) else []
  {
    SteadyMachine(k);
    delivered := [];
    if r.Change? {
      ServeChange(k, img, r);
    } else {
      delivered := ServeCall(k, img, buf, r);
    }
  }

  /** What a read takes from a file or the directory. */
  ghost function Delivered(img: FileSystem.Image, files: seq<Fd>, fd: int, n: int): seq<Memory.Byte>
    requires FileSystem.WellFormed(img) && |files| == FILES
  {
    if n >= 0 && Readable(img, files, fd) then BytesAt(img, files[fd], n) else []
  }

  /** A call of the running process that leaves the machine alone. */
  method ServeCall(k: Kernel, img: FileSystem.Image, buf: array<Memory.Byte>, r: Request)
    returns (delivered: seq<Memory.Byte>)
    requires k.Steady() && k.pitCount > TERMINALS && Servable(img, buf.Length, r)
    requires !r.Change?
    modifies k.pcbs, buf
    ensures k.Steady() && Valid(k.machine) && FilesFollow(img, old(k.pcbs[..]), k.pcbs[..], k.machine, r)
    ensures StartsFollow(old(k.pcbs[..]), k.pcbs[..], k.machine, r)
    ensures var files := old(k.RunningFiles());
            delivered == if r.Read? then Delivered(img, files, r.fd, r.n) else []
  {
    SteadyMachine(k);
    k.Scheduled();
    ghost var was, pid := k.pcbs[..], k.processNum;
    hide Represents, Live, Valid, BytesAt, FileSystem.WellFormed, AfterOpen, AfterClose, AfterRead, Kernel.Steady;
    hide FileSystem.WordAt, Directory.FirstNamed, FileSystem.DirCount, FilesFollow, StartsFollow;
    delivered := [];
    match r {
      case Open(name, left) => var fd := k.Open(img, name, left);
      case Close(fd) => var result := k.Close(fd);
      case Read(fd, n, other) => delivered := ServeRead(k, img, buf, fd, n, other);
    }
    CallFollows(img, was, k.pcbs[..], k.machine, r);
  }

  lemma {:induction false} CallFollows(img: FileSystem.Image, was: Table, now: Table, m: Machine, r: Request)
    requires Valid(m) && FileSystem.WellFormed(img) && !r.Change? && |was| == SLOTS
    requires |was[Running(m).pid].files| == FILES
    requires now == WithFiles(was, Running(m).pid, FilesAfter(img, was[Running(m).pid].files, r))
    ensures FilesFollow(img, was, now, m, r) && StartsFollow(was, now, m, r)
  {
    hide Live, FilesAfter, FileSystem.WellFormed;
  }

  method ServeRead(k: Kernel, img: FileSystem.Image, buf: array<Memory.Byte>, fd: int, n: int, other: int)
    returns (delivered: seq<Memory.Byte>)
    requires k.Steady() && Servable(img, buf.Length, Read(fd, n, other))
    modifies k.pcbs, buf
    ensures k.Steady()
    ensures var files := old(k.RunningFiles());
            && k.pcbs[..] == WithFiles(old(k.pcbs[..]), k.processNum, AfterRead(img, files, fd, n))
            && delivered == Delivered(img, files, fd, n)
  {
    hide Kernel.Steady, Represents, BytesAt, Moved, FileSystem.WellFormed, FileSystem.InodeCount;
    k.Scheduled();
    delivered := [];
    var device := 0 <= fd <= FD_MAX && IsDevice(k.pcbs[k.processNum].files, fd);
    var result, count := k.Read(img, fd, buf, n, other);
    // what the terminal or a clock delivers comes from elsewhere
    if count > 0 && !device { delivered := buf[..count]; }
  }


  /** The requests to come lead every entry point where the whole stream leads it. */
  ghost predicate StartsLead(first: Machine, all: seq<Request>, begun: Table, m: Machine, rest: seq<Request>,
                             tab: Table)
  {
    && Valid(first) && Valid(m) && |begun| == |tab| == SLOTS
    && forall p: nat | p < SLOTS :: StartOf(m, Events(rest), p, tab[p].entryPoint)
                                    == StartOf(first, Events(all), p, begun[p].entryPoint)
  }

  lemma {:induction false} StartsGoOn(first: Machine, all: seq<Request>, begun: Table, m: Machine, rest: seq<Request>,
                                      was: Table, now: Table)
    requires StartsLead(first, all, begun, m, rest, was) && rest != [] && StartsFollow(was, now, m, rest[0])
    ensures StartsLead(first, all, begun, After(m, rest[0]), rest[1..], now)
  {
    hide Valid, StartOf, Step, StartAfter, Events;
    forall p: nat | p < SLOTS
      ensures StartOf(After(m, rest[0]), Events(rest[1..]), p, now[p].entryPoint)
              == StartOf(first, Events(all), p, begun[p].entryPoint)
    {
      StartOne(m, rest, p, was[p].entryPoint);
    }
  }

  /** Any stream of requests takes the variables through the run of the machine they represent, and leaves in every
      PCB the entry point of the program last started in it. */
  method Serve(k: Kernel, img: FileSystem.Image, buf: array<Memory.Byte>, rs: seq<Request>)
    requires k.Steady() && k.pitCount > TERMINALS
    requires forall r | r in rs :: Servable(img, buf.Length, r)
    modifies k, k.pcbs, k.scheduleArray, k.currPid, k.pageDir, buf
    ensures k.Steady() && k.pitCount > TERMINALS
    ensures Valid(old(k.machine)) && k.machine == Run(old(k.machine), Events(rs))
    ensures k.scheduleIdx == Turn(old(k.scheduleIdx), Ticks(Events(rs)))
    ensures k.shellProcessCount - LiveShells(k.machine)
            == old(k.shellProcessCount) - LiveShells(old(k.machine)) + LeakCount(old(k.machine), Events(rs))
    ensures forall p: nat | p < SLOTS ::
              k.pcbs[p].entryPoint == StartOf(old(k.machine), Events(rs), p, old(k.pcbs[p].entryPoint))
  {
    SteadyMachine(k);
    ghost var start := k.machine;
    ghost var first := k.pcbs[..];
    var i := 0;
    while i < |rs|
      invariant 0 <= i <= |rs| && k.Steady() && k.pitCount > TERMINALS && Valid(k.machine)
      invariant Run(k.machine, Events(rs[i..])) == Run(start, Events(rs))
      invariant |first| == |k.pcbs[..]| == SLOTS && StartsLead(start, rs, first, k.machine, rs[i..], k.pcbs[..])
    {
      hide Kernel.Steady, Valid, Step, Servable, StartsFollow, FilesFollow, StartOf, Live;
      ghost var m, was := k.machine, k.pcbs[..];
      assert rs[i] in rs && rs[i..][0] == rs[i] && rs[i..][1..] == rs[i + 1..];
      RunOne(k.machine, rs[i..]);
      var delivered := ServeOne(k, img, buf, rs[i]);
      StartsGoOn(start, rs, first, m, rs[i..], was, k.pcbs[..]);
      i := i + 1;
    }
    SteadyMachine(k);
    assert rs[i..] == [];
    RoundRobin(start, Events(rs));
    ShellCounterDrift(start, Events(rs));
  }

  lemma {:induction false} RunningBound(m: Machine)
    requires Valid(m)
    ensures Shape(m) && Running(m).pid <= MAX_PCB
  {
  }

  /** If the program starts and lives through what follows, its slot holds the entry point. */
  ghost predicate HoldsStart(m: Machine, name: string, image: nat, entry: Regs, es: seq<Event>, tab: Table)
    requires Valid(m)
  {
    Launches(m, name, Some(image)) && LivesOn(After(m, Change(Execute(name, Some(image), entry), false)), es, NewPid(m))
    ==> NewPid(m) < |tab| && tab[NewPid(m)].entryPoint == image
  }

  /** A program that is started holds the entry point of its file for as long as it lives, whatever is started, ended
      and scheduled after it. */
  method StartAndServe(k: Kernel, img: FileSystem.Image, buf: array<Memory.Byte>, name: string, image: nat,
                       entry: Regs, rs: seq<Request>)
    requires k.Steady() && k.pitCount > TERMINALS && FileSystem.WellFormed(img)
    requires forall r | r in rs :: Servable(img, buf.Length, r)
    modifies k, k.pcbs, k.scheduleArray, k.currPid, k.pageDir, buf
    ensures k.Steady() && Valid(old(k.machine))
    ensures HoldsStart(old(k.machine), name, image, entry, Events(rs), k.pcbs[..])
  {
    hide Kernel.Steady, Valid, Servable, Step, NewPid, FilesFollow, StartOf, LivesOn, IsShellName, Represents;
    SteadyMachine(k);
    ghost var m := k.machine;
    RunningBound(m);
    ServeChange(k, img, Change(Execute(name, Some(image), entry), false));
    SteadyMachine(k);
    ghost var n := k.machine;
    Serve(k, img, buf, rs);
    SteadyMachine(k);
    if Launches(m, name, Some(image)) && LivesOn(n, Events(rs), NewPid(m)) {
      StartStays(n, Events(rs), NewPid(m), image);
    }
  }

  /** Power-on: three timer interrupts launch the shells. */
  method LaunchShells(image: nat, entries: seq<Regs>) returns (k: Kernel)
    requires |entries| >= 3
    ensures fresh(k) && fresh(k.pcbs) && fresh(k.scheduleArray) && fresh(k.currPid) && fresh(k.pageDir)
    ensures k.Steady() && k.pitCount == TERMINALS && Disciplined(k.machine) && OwnsAddressSpace(k.machine)
    ensures k.machine.stacks == FirstShells(TERMINALS) && k.machine.current == 2 && k.shellProcessCount == 3
    ensures forall t | 0 <= t < TERMINALS :: k.pcbs[t].entryPoint == image
  {
    hide Kernel.Booting, Kernel.Steady, Disciplined, OwnsAddressSpace;
    k := new Kernel();
    Length(k);
    k.BootTick(image, entries[0]);
    Length(k);
    k.BootTick(image, entries[1]);
    Length(k);
    k.BootTick(image, entries[2]);
  }

  lemma Length(k: Kernel)
    requires k.Booting()
    ensures k.pcbs.Length == SLOTS
  {
  }

  /** The fourth timer interrupt starts the rotation. */
  method Boot(image: nat, entries: seq<Regs>) returns (k: Kernel)
    requires |entries| == 4
    ensures fresh(k) && fresh(k.pcbs) && fresh(k.scheduleArray) && fresh(k.currPid) && fresh(k.pageDir)
    ensures k.Steady() && k.pitCount > TERMINALS && k.scheduleIdx == 0
    ensures k.machine.stacks == FirstShells(TERMINALS) && k.machine.current == 0 && k.shellProcessCount == 3
    ensures Disciplined(k.machine) && OwnsAddressSpace(k.machine)
    ensures forall t | 0 <= t < TERMINALS :: k.pcbs[t].entryPoint == image
  {
    k := LaunchShells(image, entries);
    hide Disciplined, OwnsAddressSpace, Represents;
    ghost var m := k.machine;
    StartsRotation(m, entries[3]);
    k.Tick(entries[3]);
  }

  lemma {:induction false} StartsRotation(m: Machine, entry: Regs)
    requires Disciplined(m) && OwnsAddressSpace(m) && m.current == 2
    ensures var n := TickStep(m, entry);
            && Disciplined(n) && OwnsAddressSpace(n) && n.stacks == m.stacks && n.current == 0
            && n.shells == m.shells
  {
    StepKeepsDiscipline(m, Tick(entry));
    StepKeepsAddressSpace(m, Tick(entry));
  }

  /** Programs that leave `execute` to the shells: after any of their requests, whichever process runs has its own
      4 MB frame mapped, its own kernel stack selected, and a pid of at most 26. */
  method ServeShells(k: Kernel, img: FileSystem.Image, buf: array<Memory.Byte>, rs: seq<Request>)
    requires k.Steady() && k.pitCount > TERMINALS
    requires forall r | r in rs :: Servable(img, buf.Length, r)
    requires Disciplined(k.machine) && OwnsAddressSpace(k.machine) && OnlyShellsRun(k.machine, Events(rs))
    modifies k, k.pcbs, k.scheduleArray, k.currPid, k.pageDir, buf
    ensures k.Steady() && Disciplined(k.machine)
    ensures k.processNum == k.currPid[k.scheduleIdx] == k.scheduleArray[k.scheduleIdx]
    ensures k.pageDir[USER_SLOT] == PdEntry(true, 2 + k.processNum)
    ensures k.esp0 == 0x80_0000 - 0x2000 * k.processNum - 4
    ensures 0 <= k.processNum <= 26 && LiveShells(k.machine) <= k.shellProcessCount <= 6
  {
    AddressSpaceOverRuns(k.machine, Events(rs));
    Serve(k, img, buf, rs);
    SteadyMachine(k);
    PidBound(k.machine, k.machine.current, |k.machine.stacks[k.machine.current]| - 1);
  }
}
