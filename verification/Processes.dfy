/** The process lifecycle seen as a machine of three call stacks, one per terminal.

  A frame stands for one live process: the shell of a terminal is the bottom frame, `execute` pushes,
  `system_halt`/`exception_halt` pop, and the scheduler moves on to the next terminal. This module
  defines the machine and proves what holds over whole runs; `KernelState` proves that the PCB table,
  the scheduler array and the other kernel globals implement it.
 */
module Processes {
  datatype Option<+T> = None | Some(value: T)

  const TERMINALS: nat := 3
  const MAX_PCB: nat := 512
  const SHELL_LIMIT: nat := 6
  const EIGHT_MB: int := 0x800000
  const EIGHT_KB: int := 0x2000
  /** Slot of the page directory that maps the user program (128 MB, in 4 MB pages). */
  const USER_SLOT: nat := 32

  datatype Regs = Regs(esp: int, ebp: int)
  const NO_REGS: Regs := Regs(0, 0)

  /** A live process: whether it was counted as a shell, and the registers its caller had in `execute`. */
  datatype Frame = Frame(pid: nat, shell: bool, caller: Regs)

  type Stack = seq<Frame>

  datatype Machine = Machine(
    stacks: seq<Stack>,
    current: nat,              // schedule_idx
    saved: seq<Regs>,          // registers at the last preemption of each terminal
    shells: int,               // shell_process_count
    regs: Regs,                // registers the last step loaded
    userFrame: Option<int>,    // 4 MB frame mapped by page_dir[32], if present
    esp0: int)                 // tss.esp0

  datatype Event =
    | Tick(entry: Regs)
    | Execute(name: string, image: Option<nat>, entry: Regs)
    | Halt(entry: Regs)

  function BaseFrame(t: nat): Frame { Frame(t, true, NO_REGS) }

  function KernelStackTop(pid: int): int { EIGHT_MB - EIGHT_KB * pid - 4 }

  /** First byte of the 8 KB region that holds the PCB and the kernel stack of `pid`. */
  function PcbRegion(pid: int): int { EIGHT_MB - EIGHT_KB * (pid + 1) }

  predicate IsShellName(name: string) { |name| >= 5 && name[..5] == "shell" }

  predicate Shape(m: Machine) {
    && |m.stacks| == TERMINALS && |m.saved| == TERMINALS && m.current < TERMINALS
    && forall t | 0 <= t < TERMINALS :: |m.stacks[t]| > 0
  }

  function Top(s: Stack): Frame
    requires |s| > 0
  {
    s[|s| - 1]
  }

  function Running(m: Machine): Frame
    requires Shape(m)
  {
    Top(m.stacks[m.current])
  }

  function Pids(s: Stack): set<nat> { set i | 0 <= i < |s| :: s[i].pid }

  function Live(stacks: seq<Stack>): set<nat> {
    set t, i | 0 <= t < |stacks| && 0 <= i < |stacks[t]| :: stacks[t][i].pid
  }

  /** The pid found by the search loop of `execute`; MAX_PCB + 1 when every slot is taken. */
  function LeastFree(live: set<nat>, from: nat): (p: nat)
    requires from <= MAX_PCB + 1
    ensures from <= p <= MAX_PCB + 1
    ensures forall q | from <= q < p :: q in live
    ensures p <= MAX_PCB ==> p !in live
    decreases MAX_PCB + 1 - from
  {
    if from > MAX_PCB || from !in live then from else LeastFree(live, from + 1)
  }

  lemma {:induction false} LeastFreeUnique(live: set<nat>, from: nat, p: nat)
    requires from <= p <= MAX_PCB + 1
    requires forall q | from <= q < p :: q in live
    requires p <= MAX_PCB ==> p !in live
    ensures p == LeastFree(live, from)
  {
    var q := LeastFree(live, from);
    assert q < p ==> q in live;
  }

  // ----- the steps -----

  function TickStep(m: Machine, entry: Regs): Machine
    requires Shape(m)
  {
    var next := if m.current < TERMINALS - 1 then m.current + 1 else 0;
    var saved := m.saved[m.current := entry];
    var pid := Top(m.stacks[next]).pid;
    m.(current := next, saved := saved, regs := saved[next],
       userFrame := Some(2 + pid), esp0 := KernelStackTop(pid))
  }

  /** The machine after `execute`, before any check on the file: shells are counted first. */
  function Counted(m: Machine, name: string, entry: Regs): Machine {
    m.(shells := m.shells + (if IsShellName(name) then 1 else 0), regs := entry)
  }

  predicate Refused(m: Machine, name: string) { IsShellName(name) && m.shells >= SHELL_LIMIT }

  function NewPid(m: Machine): nat
    requires Shape(m) && Running(m).pid <= MAX_PCB
  {
    LeastFree(Live(m.stacks), Running(m).pid + 1)
  }

  predicate Launches(m: Machine, name: string, image: Option<nat>)
    requires Shape(m) && Running(m).pid <= MAX_PCB
  {
    !Refused(m, name) && image.Some? && NewPid(m) <= MAX_PCB
  }

  function ExecuteStep(m: Machine, name: string, image: Option<nat>, entry: Regs): Machine
    requires Shape(m) && Running(m).pid <= MAX_PCB
  {
    if Refused(m, name) then m.(regs := entry)
    else if !Launches(m, name, image) then Counted(m, name, entry)
    else
      var pid := NewPid(m);
      var s := m.stacks[m.current] + [Frame(pid, IsShellName(name), entry)];
      Counted(m, name, entry).(stacks := m.stacks[m.current := s],
                               userFrame := Some(2 + pid), esp0 := KernelStackTop(pid))
  }

  function HaltStep(m: Machine, entry: Regs): Machine
    requires Shape(m)
  {
    var s := m.stacks[m.current];
    var child := Top(s);
    if |s| == 1 then
      m.(regs := entry, esp0 := KernelStackTop(child.pid))
    else
      var parent := Top(s[..|s| - 1]);
      m.(stacks := m.stacks[m.current := s[..|s| - 1]],
         shells := m.shells - (if child.shell then 1 else 0),
         regs := child.caller,
         // the page of the child is cleared by number, at slot pid + 3
         userFrame := if child.pid + 3 == USER_SLOT then None else Some(2 + parent.pid),
         esp0 := KernelStackTop(parent.pid))
  }

  // ----- what every step keeps -----

  predicate Increasing(s: Stack) { forall i, j | 0 <= i < j < |s| :: s[i].pid < s[j].pid }

  /** The call stack of terminal `t`: its shell at the bottom, pids growing upwards. */
  predicate StackOk(s: Stack, t: nat) {
    |s| > 0 && s[0] == BaseFrame(t) && Increasing(s) && Top(s).pid <= MAX_PCB
  }

  /** Three call stacks, and no process on two of them. */
  ghost predicate Valid(m: Machine) {
    && Shape(m)
    && StackOk(m.stacks[0], 0) && StackOk(m.stacks[1], 1) && StackOk(m.stacks[2], 2)
    && Pids(m.stacks[0]) !! Pids(m.stacks[1])
    && Pids(m.stacks[0]) !! Pids(m.stacks[2])
    && Pids(m.stacks[1]) !! Pids(m.stacks[2])
  }

  function Step(m: Machine, e: Event): (n: Machine)
    requires Shape(m) && Running(m).pid <= MAX_PCB
  {
    match e
    case Tick(entry) => TickStep(m, entry)
    case Execute(name, image, entry) => ExecuteStep(m, name, image, entry)
    case Halt(entry) => HaltStep(m, entry)
  }

  lemma {:induction false} LiveIsUnion(m: Machine)
    requires Shape(m)
    ensures Live(m.stacks) == Pids(m.stacks[0]) + Pids(m.stacks[1]) + Pids(m.stacks[2])
  {
    forall p ensures p in Live(m.stacks) <==> p in Pids(m.stacks[0]) + Pids(m.stacks[1]) + Pids(m.stacks[2]) {
      if p in Live(m.stacks) {
        var t, i :| 0 <= t < TERMINALS && 0 <= i < |m.stacks[t]| && m.stacks[t][i].pid == p;
        assert t == 0 || t == 1 || t == 2;
      }
    }
  }

  lemma {:induction false} Pushed(s: Stack, f: Frame, t: nat)
    requires StackOk(s, t) && Top(s).pid < f.pid <= MAX_PCB
    ensures StackOk(s + [f], t) && Pids(s + [f]) == Pids(s) + {f.pid}
  {
    PidsPush(s, f);
  }

  lemma {:induction false} PidsPush(s: Stack, f: Frame)
    ensures Pids(s + [f]) == Pids(s) + {f.pid}
  {
    var n := s + [f];
    forall p | p in Pids(s) + {f.pid} ensures p in Pids(n) {
      if p in Pids(s) {
        var i :| 0 <= i < |s| && s[i].pid == p;
        assert n[i].pid == p;
      } else {
        assert n[|s|].pid == p;
      }
    }
  }

  lemma {:induction false} Popped(s: Stack, t: nat)
    requires StackOk(s, t) && |s| > 1
    ensures StackOk(s[..|s| - 1], t) && Pids(s[..|s| - 1]) == Pids(s) - {Top(s).pid}
  {
    var n := s[..|s| - 1];
    forall p ensures p in Pids(n) <==> p in Pids(s) - {Top(s).pid} {
      if p in Pids(n) {
        var i :| 0 <= i < |n| && n[i].pid == p;
        assert s[i].pid == p && i < |s| - 1;
      }
      if p in Pids(s) - {Top(s).pid} {
        var i :| 0 <= i < |s| && s[i].pid == p;
        assert n[i].pid == p;
      }
    }
  }

  lemma {:induction false} StackReplaced(m: Machine, n: Machine, s: Stack, added: set<nat>)
    requires Valid(m) && Shape(n) && n.stacks == m.stacks[m.current := s]
    requires StackOk(s, m.current) && Pids(s) <= Pids(m.stacks[m.current]) + added && added !! Live(m.stacks)
    ensures Valid(n)
  {
    LiveIsUnion(m);
  }

  lemma {:induction false} StepKeepsValid(m: Machine, e: Event)
    requires Valid(m)
    ensures Valid(Step(m, e))
  {
    var n := Step(m, e);
    var s := m.stacks[m.current];
    assert StackOk(s, m.current);
    if e.Execute? && Launches(m, e.name, e.image) {
      var f := Frame(NewPid(m), IsShellName(e.name), e.entry);
      Pushed(s, f, m.current);
      StackReplaced(m, n, s + [f], {f.pid});
    } else if e.Halt? && |s| > 1 {
      Popped(s, m.current);
      StackReplaced(m, n, s[..|s| - 1], {});
    }
  }

  function Run(m: Machine, es: seq<Event>): (n: Machine)
    requires Valid(m)
    ensures Valid(n)
    decreases |es|
  {
    if es == [] then m else StepKeepsValid(m, es[0]); Run(Step(m, es[0]), es[1..])
  }

  lemma {:induction false} RunCons(m: Machine, e: Event, es: seq<Event>)
    requires Valid(m)
    ensures Valid(Step(m, e)) && Run(m, [e] + es) == Run(Step(m, e), es) && Run(m, []) == m
  {
    StepKeepsValid(m, e);
    hide Valid, Step;
    assert ([e] + es)[0] == e && ([e] + es)[1..] == es;
  }

  // ----- fairness and the round trip of a preempted context -----

  /** The terminal that runs `k` ticks after terminal `c`. */
  function Turn(c: nat, k: nat): nat { (c + k) % TERMINALS }

  function Ticks(es: seq<Event>): nat {
    if es == [] then 0 else (if es[0].Tick? then 1 else 0) + Ticks(es[1..])
  }

  lemma {:induction false} StepLocal(m: Machine, e: Event)
    requires Shape(m) && Running(m).pid <= MAX_PCB
    ensures var n := Step(m, e);
            && Shape(n)
            && n.current == (if e.Tick? then Turn(m.current, 1) else m.current)
            && (forall t | 0 <= t < TERMINALS && t != m.current ::
                  n.stacks[t] == m.stacks[t] && n.saved[t] == m.saved[t])
  {
    hide NewPid;
  }

  lemma {:induction false} TurnLater(c: nat, k: nat)
    requires c < TERMINALS
    ensures Turn(Turn(c, 1), k) == Turn(c, k + 1) && Turn(c, 0) == c
  {
  }

  /** Terminals take turns whatever else happens between two ticks. */
  lemma {:induction false} RoundRobin(m: Machine, es: seq<Event>)
    requires Valid(m)
    ensures Run(m, es).current == Turn(m.current, Ticks(es))
    decreases |es|
  {
    TurnLater(m.current, 0);
    if es == [] {
    } else {
      StepKeepsValid(m, es[0]);
      StepLocal(m, es[0]);
      RoundRobin(Step(m, es[0]), es[1..]);
      TurnLater(m.current, Ticks(es[1..]));
    }
  }

  /** A terminal that is not running is not touched, until its turn comes. */
  lemma {:induction false} OthersUntouched(m: Machine, es: seq<Event>, t: nat)
    requires Valid(m) && t < TERMINALS
    requires forall k | 0 <= k <= Ticks(es) :: Turn(m.current, k) != t
    ensures Run(m, es).stacks[t] == m.stacks[t] && Run(m, es).saved[t] == m.saved[t]
    decreases |es|
  {
    if es == [] {
    } else {
      var n := Step(m, es[0]);
      StepKeepsValid(m, es[0]);
      StepLocal(m, es[0]);
      TurnLater(m.current, 0);
      assert Turn(m.current, 0) != t;
      forall k | 0 <= k <= Ticks(es[1..]) ensures Turn(n.current, k) != t {
        TurnLater(m.current, k);
        assert Turn(m.current, if es[0].Tick? then k + 1 else k) != t;
      }
      OthersUntouched(n, es[1..], t);
    }
  }

  /** How many ticks of the run schedule terminal `t`. */
  function Scheduled(m: Machine, es: seq<Event>, t: nat): nat
    requires Valid(m)
    decreases |es|
  {
    if es == [] then 0
    else
      StepKeepsValid(m, es[0]);
      (if es[0].Tick? && Step(m, es[0]).current == t then 1 else 0) + Scheduled(Step(m, es[0]), es[1..], t)
  }

  function TurnsTo(c: nat, n: nat, t: nat): nat
    decreases n
  {
    if n == 0 then 0 else (if Turn(c, 1) == t then 1 else 0) + TurnsTo(Turn(c, 1), n - 1, t)
  }

  lemma {:induction false} ScheduledByTurns(m: Machine, es: seq<Event>, t: nat)
    requires Valid(m)
    ensures Scheduled(m, es, t) == TurnsTo(m.current, Ticks(es), t)
    decreases |es|
  {
    if es == [] {
    } else {
      StepKeepsValid(m, es[0]);
      StepLocal(m, es[0]);
      ScheduledByTurns(Step(m, es[0]), es[1..], t);
    }
  }

  lemma {:induction false} TurnsToShare(c: nat, k: nat, t: nat)
    requires c < TERMINALS && t < TERMINALS
    ensures TurnsTo(c, TERMINALS * k, t) == k
  {
    if k == 0 {
    } else {
      var d, e, f := Turn(c, 1), Turn(Turn(c, 1), 1), Turn(Turn(Turn(c, 1), 1), 1);
      assert f == c;
      TurnsToShare(c, k - 1, t);
      var n := TERMINALS * (k - 1);
      assert TurnsTo(e, n + 1, t) == (if f == t then 1 else 0) + TurnsTo(f, n, t);
      assert TurnsTo(d, n + 2, t) == (if e == t then 1 else 0) + TurnsTo(e, n + 1, t);
      assert TurnsTo(c, n + 3, t) == (if d == t then 1 else 0) + TurnsTo(d, n + 2, t);
    }
  }

  /** Fairness: a run with 3k ticks schedules every terminal exactly k times, so any three consecutive
      ticks schedule it exactly once, however many programs start and halt in between. */
  lemma {:induction false} FairShare(m: Machine, es: seq<Event>, k: nat, t: nat)
    requires Valid(m) && t < TERMINALS && Ticks(es) == TERMINALS * k
    ensures Scheduled(m, es, t) == k
  {
    ScheduledByTurns(m, es, t);
    TurnsToShare(m.current, k, t);
  }

  /** From the tick that preempts a terminal to the tick that resumes it, any number of programs may start
      and halt on the two other terminals: the registers restored are those saved, on the same stack. */
  lemma {:induction false} PreemptedContextReturns(m: Machine, entry: Regs, between: seq<Event>, last: Regs)
    requires Valid(m)
    requires Ticks(between) == 1
    ensures var before := Run(m, [Tick(entry)] + between);
            var after := TickStep(before, last);
            && after.current == m.current
            && after.regs == entry
            && after.stacks[m.current] == m.stacks[m.current]
            && after.esp0 == KernelStackTop(Running(m).pid)
  {
    var n := TickStep(m, entry);
    StepKeepsValid(m, Tick(entry));
    assert Step(m, Tick(entry)) == n;
    assert ([Tick(entry)] + between)[1..] == between;
    assert Run(m, [Tick(entry)] + between) == Run(n, between);
    forall k | 0 <= k <= Ticks(between) ensures Turn(n.current, k) != m.current {
      assert k == 0 || k == 1;
    }
    OthersUntouched(n, between, m.current);
    RoundRobin(n, between);
  }

  // ----- the round trip of a call -----

  /** After every prefix of the run the stack of `t` holds at least `h` frames. */
  ghost predicate StaysAbove(m: Machine, es: seq<Event>, t: nat, h: nat)
    requires Valid(m) && t < TERMINALS
    decreases |es|
  {
    |m.stacks[t]| >= h &&
    (es == [] || (StepKeepsValid(m, es[0]); StaysAbove(Step(m, es[0]), es[1..], t, h)))
  }

  lemma {:induction false} LowerFramesOneStep(m: Machine, e: Event, t: nat, h: nat)
    requires Valid(m) && t < TERMINALS && |m.stacks[t]| >= h
    ensures Valid(Step(m, e))
    ensures var s := Step(m, e).stacks[t];
            |s| >= h ==> s[..h] == m.stacks[t][..h]
  {
    StepKeepsValid(m, e);
    hide NewPid, StackOk, Pids, ShellsIn;
  }

  lemma {:induction false} LowerFramesStay(m: Machine, es: seq<Event>, t: nat, h: nat)
    requires Valid(m) && t < TERMINALS && StaysAbove(m, es, t, h)
    ensures |Run(m, es).stacks[t]| >= h && Run(m, es).stacks[t][..h] == m.stacks[t][..h]
    decreases |es|
  {
    if es == [] {
    } else {
      LowerFramesOneStep(m, es[0], t, h);
      hide Step, StackOk, Pids;
      LowerFramesStay(Step(m, es[0]), es[1..], t, h);
    }
  }

  /** The halt that matches an `execute` gives the caller its registers and its stack back, whatever the
      program, its descendants and the other terminals did in between. */
  lemma {:induction false} CallReturns(m: Machine, name: string, image: Option<nat>, entry: Regs, during: seq<Event>,
                                       status: Regs)
    requires Valid(m) && Launches(m, name, image)
    requires var called := ExecuteStep(m, name, image, entry);
             && Valid(called)
             && StaysAbove(called, during, m.current, |m.stacks[m.current]| + 1)
             && Run(called, during).current == m.current
             && |Run(called, during).stacks[m.current]| == |m.stacks[m.current]| + 1
    ensures var back := HaltStep(Run(ExecuteStep(m, name, image, entry), during), status);
            && back.stacks[m.current] == m.stacks[m.current]
            && back.regs == entry
            && back.esp0 == KernelStackTop(Running(m).pid)
  {
    var c := m.current;
    var called := ExecuteStep(m, name, image, entry);
    var h := |m.stacks[c]| + 1;
    LowerFramesStay(called, during, c, h);
    var s := Run(called, during).stacks[c];
    assert s == s[..h] == called.stacks[c][..h] == called.stacks[c];
    assert s[..h - 1] == m.stacks[c];
  }

  // ----- the shell counter -----

  function ShellsIn(s: Stack): nat {
    if s == [] then 0 else ShellsIn(s[..|s| - 1]) + (if Top(s).shell then 1 else 0)
  }

  function LiveShells(m: Machine): nat
    requires Shape(m)
  {
    ShellsIn(m.stacks[0]) + ShellsIn(m.stacks[1]) + ShellsIn(m.stacks[2])
  }

  /** Commands named like a shell that were counted and then not started. */
  predicate Leaks(m: Machine, e: Event)
    requires Shape(m) && Running(m).pid <= MAX_PCB
  {
    e.Execute? && IsShellName(e.name) && !Refused(m, e.name) && !Launches(m, e.name, e.image)
  }

  function LeakCount(m: Machine, es: seq<Event>): nat
    requires Valid(m)
    decreases |es|
  {
    if es == [] then 0
    else
      StepKeepsValid(m, es[0]);
      (if Leaks(m, es[0]) then 1 else 0) + LeakCount(Step(m, es[0]), es[1..])
  }

  lemma {:induction false} PushPopShells(s: Stack, f: Frame)
    ensures ShellsIn(s + [f]) == ShellsIn(s) + (if f.shell then 1 else 0)
  {
    assert (s + [f])[..|s|] == s;
  }

  lemma {:induction false} StackShells(m: Machine, n: Machine, s: Stack)
    requires Shape(m) && Shape(n) && n.stacks == m.stacks[m.current := s]
    ensures LiveShells(n) - LiveShells(m) == ShellsIn(s) - ShellsIn(m.stacks[m.current])
  {
    assert m.current == 0 || m.current == 1 || m.current == 2;
  }

  lemma {:induction false} ShellsOneStep(m: Machine, e: Event)
    requires Valid(m)
    ensures var n := Step(m, e);
            Shape(n) && n.shells - LiveShells(n) == m.shells - LiveShells(m) + (if Leaks(m, e) then 1 else 0)
  {
    StepKeepsValid(m, e);
    var n := Step(m, e);
    var s := m.stacks[m.current];
    if e.Execute? && Launches(m, e.name, e.image) {
      var f := Frame(NewPid(m), IsShellName(e.name), e.entry);
      PushPopShells(s, f);
      StackShells(m, n, s + [f]);
    } else if e.Halt? && |s| > 1 {
      StackShells(m, n, s[..|s| - 1]);
    }
  }

  /** Conservation: the counter exceeds the number of live shells by exactly the failed shell commands. */
  lemma {:induction false} ShellCounterDrift(m: Machine, es: seq<Event>)
    requires Valid(m)
    ensures var n := Run(m, es);
            n.shells - LiveShells(n) == m.shells - LiveShells(m) + LeakCount(m, es)
    decreases |es|
  {
    if es == [] {
    } else {
      StepKeepsValid(m, es[0]);
      ShellsOneStep(m, es[0]);
      ShellCounterDrift(Step(m, es[0]), es[1..]);
    }
  }

  /** Three misspelt commands such as "shells" use the limit up with only the three first shells alive. */
  lemma {:induction false} MisspeltShellsLockOut(m: Machine, entry: Regs)
    requires Valid(m) && m.shells == LiveShells(m) == 3
    ensures var e := Execute("shells", None, entry);
            var n := Run(m, [e, e, e]);
            n.stacks == m.stacks && LiveShells(n) == 3 && Refused(n, "shell")
  {
    var e := Execute("shells", None, entry);
    assert IsShellName("shells");
    var a := Step(m, e);
    StepKeepsValid(m, e);
    var b := Step(a, e);
    StepKeepsValid(a, e);
    var c := Step(b, e);
    StepKeepsValid(b, e);
    assert [e, e, e][1..] == [e, e] && [e, e][1..] == [e] && [e][1..] == [];
    assert Run(c, []) == c;
    assert Run(b, [e]) == c;
    assert Run(a, [e, e]) == c;
  }

  // ----- the address space of the running process -----

  /** The running process has its own 4 MB frame mapped and its own kernel stack selected. */
  predicate OwnsAddressSpace(m: Machine)
    requires Shape(m)
  {
    m.userFrame == Some(2 + Running(m).pid) && m.esp0 == KernelStackTop(Running(m).pid)
  }

  /** One step: the running process keeps its address space, except exactly when pid 29 halts. */
  lemma {:induction false} StepKeepsAddressSpace(m: Machine, e: Event)
    requires Shape(m) && Running(m).pid <= MAX_PCB && OwnsAddressSpace(m)
    ensures Shape(Step(m, e))
    ensures OwnsAddressSpace(Step(m, e)) <==>
            !(e.Halt? && |m.stacks[m.current]| > 1 && Running(m).pid == 29)
  {
    hide NewPid;
  }

  /** The programs of this system: only a shell calls `execute`. */
  predicate OnlyShellsExecute(m: Machine, e: Event)
    requires Shape(m)
  {
    e.Execute? ==> Running(m).shell
  }

  ghost predicate OnlyShellsRun(m: Machine, es: seq<Event>)
    requires Valid(m)
    decreases |es|
  {
    es == [] ||
    (OnlyShellsExecute(m, es[0]) && (StepKeepsValid(m, es[0]); OnlyShellsRun(Step(m, es[0]), es[1..])))
  }

  ghost predicate Disciplined(m: Machine) {
    && Valid(m)
    && LiveShells(m) <= m.shells <= SHELL_LIMIT
    && (forall t, i | 0 <= t < TERMINALS && 0 <= i < |m.stacks[t]| - 1 :: m.stacks[t][i].shell)
    && (forall t, i | 0 <= t < TERMINALS && 0 <= i < |m.stacks[t]| :: m.stacks[t][i].pid <= 2 + 6 * i)
  }

  lemma {:induction false} AllShells(s: Stack)
    requires forall i | 0 <= i < |s| :: s[i].shell
    ensures ShellsIn(s) == |s|
  {
    if s == [] {
    } else {
      AllShells(s[..|s| - 1]);
    }
  }

  lemma {:induction false} HeightBound(s: Stack)
    requires |s| > 0 && forall i | 0 <= i < |s| - 1 :: s[i].shell
    ensures |s| - 1 <= ShellsIn(s) <= |s|
    ensures Top(s).shell ==> ShellsIn(s) == |s|
  {
    AllShells(s[..|s| - 1]);
  }

  lemma {:induction false} PidsAtMost(s: Stack)
    ensures |Pids(s)| <= |s|
  {
    if s == [] {
    } else {
      var r := s[..|s| - 1];
      PidsAtMost(r);
      assert Pids(s) == Pids(r) + {Top(s).pid} by {
        assert forall i | 0 <= i < |r| :: s[i] == r[i];
      }
    }
  }

  function Interval(a: nat, b: nat): (s: set<nat>)
    ensures forall x: nat :: x in s <==> a <= x < b
    ensures a <= b ==> |s| == b - a
  {
    if a >= b then {} else Interval(a, b - 1) + {b - 1}
  }

  lemma {:induction false} SubsetSize<T>(a: set<T>, b: set<T>)
    requires a <= b
    ensures |a| <= |b|
  {
    assert b == a + (b - a);
  }

  /** Pigeonhole: the pids the search of `execute` skips above the base shells are all live. */
  lemma {:induction false} NewPidBound(m: Machine)
    requires Valid(m)
    ensures var low := if Running(m).pid > 2 then Running(m).pid else 2;
            NewPid(m) <= low + |m.stacks[0]| + |m.stacks[1]| + |m.stacks[2]| - 2
  {
    var low := if Running(m).pid > 2 then Running(m).pid else 2;
    var pid := NewPid(m);
    if pid > low {
      var a, b, c := m.stacks[0][1..], m.stacks[1][1..], m.stacks[2][1..];
      forall x | x in Interval(low + 1, pid) ensures x in Pids(a) + Pids(b) + Pids(c) {
        assert x in Live(m.stacks);
        var t, i :| 0 <= t < TERMINALS && 0 <= i < |m.stacks[t]| && m.stacks[t][i].pid == x;
        assert i > 0;
        assert m.stacks[t][i] == m.stacks[t][1..][i - 1];
        assert t == 0 || t == 1 || t == 2;
      }
      SubsetSize(Interval(low + 1, pid), Pids(a) + Pids(b) + Pids(c));
      PidsAtMost(a);
      PidsAtMost(b);
      PidsAtMost(c);
    }
  }

  /** With at most six shells counted, a push finds a pid within six of the bound of its caller. */
  lemma {:induction false} NewPidFits(m: Machine, name: string)
    requires Disciplined(m) && Running(m).shell && !Refused(m, name)
    ensures NewPid(m) <= 2 + 6 * |m.stacks[m.current]|
  {
    HeightBound(m.stacks[0]);
    HeightBound(m.stacks[1]);
    HeightBound(m.stacks[2]);
    NewPidBound(m);
    hide NewPid, ShellsIn, StackOk, Pids;
    assert m.current == 0 || m.current == 1 || m.current == 2;
    var s := m.stacks[m.current];
    assert Top(s).pid <= 2 + 6 * (|s| - 1);
    assert |m.stacks[0]| + |m.stacks[1]| + |m.stacks[2]| <= LiveShells(m) + 2;
  }

  lemma {:induction false} PushKeepsDiscipline(m: Machine, e: Event)
    requires Disciplined(m) && OnlyShellsExecute(m, e) && e.Execute? && Launches(m, e.name, e.image)
    ensures Disciplined(Step(m, e))
  {
    StepKeepsValid(m, e);
    ShellsOneStep(m, e);
    NewPidFits(m, e.name);
    hide NewPid, ShellsIn, StackOk, Pids;
    var n := Step(m, e);
    forall t, i | 0 <= t < TERMINALS && 0 <= i < |n.stacks[t]|
      ensures n.stacks[t][i].pid <= 2 + 6 * i && (i < |n.stacks[t]| - 1 ==> n.stacks[t][i].shell)
    {
      if i < |m.stacks[t]| {
        assert n.stacks[t][i] == m.stacks[t][i];
        assert i < |m.stacks[t]| - 1 || (t == m.current ==> m.stacks[t][i] == Running(m));
      }
    }
  }

  lemma {:induction false} PopKeepsDiscipline(m: Machine, e: Event)
    requires Disciplined(m) && e.Halt? && |m.stacks[m.current]| > 1
    ensures Disciplined(Step(m, e))
  {
    StepKeepsValid(m, e);
    ShellsOneStep(m, e);
    hide NewPid, ShellsIn, StackOk, Pids;
    var n := Step(m, e);
    forall t, i | 0 <= t < TERMINALS && 0 <= i < |n.stacks[t]| ensures n.stacks[t][i] == m.stacks[t][i] {}
  }

  lemma {:induction false} StepKeepsDiscipline(m: Machine, e: Event)
    requires Disciplined(m) && OnlyShellsExecute(m, e)
    ensures Disciplined(Step(m, e))
  {
    if e.Execute? && Launches(m, e.name, e.image) {
      PushKeepsDiscipline(m, e);
    } else if e.Halt? && |m.stacks[m.current]| > 1 {
      PopKeepsDiscipline(m, e);
    } else {
      StepKeepsValid(m, e);
      ShellsOneStep(m, e);
    }
    hide NewPid, ShellsIn, StackOk, Pids;
  }

  /** The shell limit keeps every pid at 26 or less, so slot 32 is never the one a halt clears. */
  lemma {:induction false} PidBound(m: Machine, t: nat, i: nat)
    requires Disciplined(m) && t < TERMINALS && i < |m.stacks[t]|
    ensures m.stacks[t][i].pid <= 26
    ensures |m.stacks[t]| <= 5
  {
    HeightBound(m.stacks[0]);
    HeightBound(m.stacks[1]);
    HeightBound(m.stacks[2]);
    assert t == 0 || t == 1 || t == 2;
  }

  /** Two live processes have different 4 MB frames, and their 8 KB regions of PCB and kernel stack do not meet;
      each stack top lies in its own region. */
  lemma {:induction false} RegionsDisjoint(m: Machine, t: nat, i: nat, u: nat, j: nat)
    requires Valid(m) && t < TERMINALS && i < |m.stacks[t]| && u < TERMINALS && j < |m.stacks[u]|
    requires (t, i) != (u, j)
    ensures var p, q := m.stacks[t][i].pid, m.stacks[u][j].pid;
            && 2 + p != 2 + q
            && (PcbRegion(p) + EIGHT_KB <= PcbRegion(q) || PcbRegion(q) + EIGHT_KB <= PcbRegion(p))
            // the stack starts on the last word of the region
            && KernelStackTop(p) + 4 == PcbRegion(p) + EIGHT_KB == EIGHT_MB - EIGHT_KB * p
  {
    var s, r := m.stacks[t], m.stacks[u];
    assert t == 0 || t == 1 || t == 2;
    if t == u {
      assert StackOk(s, t);
    } else {
      assert s[i].pid in Pids(s) && r[j].pid in Pids(r);
    }
  }

  /** Under the shell limit the regions lie in the last 216 KB below 8 MB. */
  lemma {:induction false} RegionsBounded(m: Machine, t: nat, i: nat)
    requires Disciplined(m) && t < TERMINALS && i < |m.stacks[t]|
    ensures EIGHT_MB - 27 * EIGHT_KB <= PcbRegion(m.stacks[t][i].pid)
  {
    PidBound(m, t, i);
  }

  /** In every reachable state the running process owns its address space. */
  lemma {:induction false} AddressSpaceOverRuns(m: Machine, es: seq<Event>)
    requires Disciplined(m) && OwnsAddressSpace(m) && OnlyShellsRun(m, es)
    ensures Disciplined(Run(m, es)) && OwnsAddressSpace(Run(m, es))
    decreases |es|
  {
    if es == [] {
    } else {
      StepKeepsDiscipline(m, es[0]);
      PidBound(m, m.current, |m.stacks[m.current]| - 1);
      StepKeepsAddressSpace(m, es[0]);
      AddressSpaceOverRuns(Step(m, es[0]), es[1..]);
    }
  }
}
