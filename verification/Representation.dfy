/** How the kernel's variables represent the machine of `Processes.dfy`, and that each change of the variables
  represents the step of the machine. */
module Representation {
  import opened Processes
  import opened ProcessTable

  datatype PdEntry = PdEntry(present: bool, base: int)

  /** A directory entry as `read_dentry_by_name` fills it in. */
  datatype Dentry = Dentry(device: Device, inode: nat)

  /** The descriptor of a file that was just opened: at its beginning, with an inode for regular files only. */
  function Opened(d: Dentry): Fd { Fd(true, d.device, if d.device == Regular then d.inode else 0, 0) }

  /** The slot `v` once `execute` has filled it in; inode and position of 0 and 1 are left as they are. */
  function Filled(v: Pcb, pid: int, entryPoint: nat, shell: bool, entry: Regs, parent: int, terminal: nat,
                  base: bool): Pcb
    requires |v.files| == FILES
  {
    var files := v.files[0 := v.files[0].(open := true, device := Stdin)]
                        [1 := v.files[1].(open := true, device := Stdout)];
    Pcb(pid, parent, v.saved, entry, true, entryPoint, shell, base, terminal, files)
  }

  /** The variables `execute` writes, as one value. */
  datatype Globals = Globals(
    tab: Table, schedule: seq<int>, curr: seq<int>, pageDir: seq<PdEntry>, processNum: int, pitCount: nat, esp0: int)

  predicate Sized(g: Globals) {
    |g.tab| == SLOTS && |g.schedule| == TERMINALS && |g.curr| == TERMINALS && |g.pageDir| == 1024
  }

  /** What the last part of `execute` needs of the slot it fills in. */
  predicate CanLaunch(g: Globals, pid: int, restart: bool) {
    && Sized(g) && 0 <= pid < SLOTS && |g.tab[pid].files| == FILES
    && (g.pitCount >= TERMINALS ==>
          if restart || g.tab[pid].isBaseShell then g.tab[pid].terminal < TERMINALS
          else g.tab[pid].parentId != -1 && 0 <= g.processNum < SLOTS && g.processNum != pid
               && g.tab[g.processNum].terminal < TERMINALS)
  }

  function SlotAfter(g: Globals, pid: int, entryPoint: nat, shell: bool, entry: Regs, restart: bool): Pcb
    requires CanLaunch(g, pid, restart)
  {
    var was := g.tab[pid];
    var boot := g.pitCount < TERMINALS;
    Filled(was, pid, if restart then was.entryPoint else entryPoint, shell, entry,
           if boot || restart || was.parentId == -1 then -1 else g.processNum,
           if boot then g.pitCount
           else if restart || was.isBaseShell then was.terminal
           else g.tab[g.processNum].terminal,
           boot || restart || was.isBaseShell)
  }

  function LaunchedGlobals(g: Globals, pid: int, entryPoint: nat, shell: bool, entry: Regs, restart: bool): Globals
    requires CanLaunch(g, pid, restart)
  {
    var v := SlotAfter(g, pid, entryPoint, shell, entry, restart);
    var boot := g.pitCount < TERMINALS;
    var shown := if boot then g.pitCount else pid;
    g.(tab := g.tab[pid := v], schedule := g.schedule[v.terminal := shown], curr := g.curr[v.terminal := shown],
       processNum := pid, pitCount := if boot then g.pitCount + 1 else g.pitCount, esp0 := KernelStackTop(pid))
  }

  function Mapped(g: Globals, pid: int): Globals
    requires Sized(g)
  {
    g.(pageDir := g.pageDir[USER_SLOT := PdEntry(true, 2 + pid)])
  }

  function Tops(stacks: seq<Stack>): seq<int>
    requires |stacks| == TERMINALS && |stacks[0]| > 0 && |stacks[1]| > 0 && |stacks[2]| > 0
  {
    [Top(stacks[0]).pid, Top(stacks[1]).pid, Top(stacks[2]).pid]
  }

  /** A suspended terminal has its registers in the PCB on top of its stack. */
  ghost predicate Suspended(tab: Table, m: Machine, t: nat)
    requires Shape(m) && t < TERMINALS
  {
    var p := Top(m.stacks[t]).pid;
    p < |tab| && (t != m.current ==> tab[p].saved == m.saved[t])
  }

  function UserFrame(pageDir: seq<PdEntry>): Option<int>
    requires |pageDir| > USER_SLOT
  {
    if pageDir[USER_SLOT].present then Some(pageDir[USER_SLOT].base) else None
  }

  ghost predicate TablesMatch(tab: Table, schedule: seq<int>, curr: seq<int>, m: Machine) {
    && Valid(m) && TableOk(tab, m.stacks)
    && schedule == Tops(m.stacks) && curr == Tops(m.stacks)
    && Suspended(tab, m, 0) && Suspended(tab, m, 1) && Suspended(tab, m, 2)
  }

  /** The globals represent the machine. */
  ghost predicate Represents(g: Globals, m: Machine) {
    && Sized(g) && TablesMatch(g.tab, g.schedule, g.curr, m)
    && g.processNum == Running(m).pid
    && UserFrame(g.pageDir) == m.userFrame && g.esp0 == m.esp0
  }

  lemma {:induction false} RunningSlot(g: Globals, m: Machine)
    requires Represents(g, m)
    ensures Shape(m) && 0 <= g.processNum <= MAX_PCB && g.processNum in Live(m.stacks)
    ensures |g.tab| == SLOTS && |g.curr| == TERMINALS && g.curr[m.current] == g.processNum
    ensures var v := g.tab[g.processNum];
            var s := m.stacks[m.current];
            && v.terminal == m.current && v.isBaseShell == (|s| == 1) && FilesOk(v) && v.active
            && v.pid == g.processNum && v.parentId == (if |s| == 1 then -1 else s[|s| - 2].pid)
            && (|s| > 1 ==> v.isShell == Top(s).shell && v.caller == Top(s).caller)
  {
    var s := m.stacks[m.current];
    assert StackIn(g.tab, m.current, s);
    assert FrameOk(g.tab, m.current, s, |s| - 1);
    LiveIsUnion(m);
    assert s[|s| - 1].pid in Pids(s);
    assert SlotOk(g.tab[g.processNum], g.processNum as nat in Live(m.stacks));
  }



  lemma {:induction false} SuspendedElsewhere(tab: Table, m: Machine, n: Machine, p: nat, v: Pcb, t: nat)
    requires Shape(m) && Shape(n) && t < TERMINALS && p < |tab| && Suspended(tab, m, t)
    requires m.current == n.current && m.saved == n.saved
    requires t != m.current ==> n.stacks[t] == m.stacks[t] && p != Top(m.stacks[t]).pid
    requires t == m.current ==> Top(n.stacks[t]).pid < |tab|
    ensures Suspended(tab[p := v], n, t)
  {
  }

  lemma {:induction false} NewSlot(g: Globals, m: Machine, name: string, image: nat, entry: Regs)
    requires Represents(g, m) && g.pitCount >= TERMINALS && Launches(m, name, Some(image))
    ensures CanLaunch(g, NewPid(m), false) && SlotOk(g.tab[NewPid(m)], false)
    ensures Launched(SlotAfter(g, NewPid(m), image, IsShellName(name), entry, false),
                     Frame(NewPid(m), IsShellName(name), entry), Running(m).pid, m.current)
  {
    var pid := NewPid(m);
    assert SlotOk(g.tab[pid], pid in Live(m.stacks));
    RunningSlot(g, m);
  }

  lemma {:induction false} PushedMatches(g: Globals, m: Machine, n: Machine, f: Frame, v: Pcb)
    requires Represents(g, m) && Valid(n)
    requires n.stacks == m.stacks[m.current := m.stacks[m.current] + [f]]
    requires n.current == m.current && n.saved == m.saved
    requires Running(m).pid < f.pid <= MAX_PCB && f.pid !in Live(m.stacks)
    requires Launched(v, f, Running(m).pid, m.current)
    ensures TablesMatch(g.tab[f.pid := v], g.schedule[m.current := f.pid], g.curr[m.current := f.pid], n)
  {
    TablePush(g.tab, m, f, v);
    hide TableOk, StackOk, Pids, Tops;
    var tab := g.tab[f.pid := v];
    forall t: nat | t < TERMINALS ensures Suspended(tab, n, t) {
      SuspendedElsewhere(g.tab, m, n, f.pid, v, t);
    }
  }

  lemma {:induction false} LaunchRepresents(g: Globals, m: Machine, name: string, image: nat, entry: Regs)
    requires Represents(g, m) && g.pitCount >= TERMINALS && Launches(m, name, Some(image))
    ensures CanLaunch(g, NewPid(m), false)
    ensures Represents(LaunchedGlobals(Mapped(g, NewPid(m)), NewPid(m), image, IsShellName(name), entry, false),
                       ExecuteStep(m, name, Some(image), entry))
  {
    var pid := NewPid(m);
    NewSlot(g, m, name, image, entry);
    StepKeepsValid(m, Event.Execute(name, Some(image), entry));
    PushedMatches(g, m, ExecuteStep(m, name, Some(image), entry), Frame(pid, IsShellName(name), entry),
                  SlotAfter(g, pid, image, IsShellName(name), entry, false));
    hide TablesMatch, NewPid;
  }

  /** What a new process finds: the terminal, free descriptors, and the last descriptor of its slot as it was. */
  predicate FreshFiles(before: seq<Fd>, after: seq<Fd>) {
    && |before| == |after| == FILES
    && after[0].open && after[0].device == Stdin && after[1].open && after[1].device == Stdout
    && (forall i | FD_MIN <= i < FD_MAX :: !after[i].open)
    && after[FD_MAX] == before[FD_MAX]
  }

  /** The globals after `execute`, when the search found `pid`, or -1. */
  function ExecutedGlobals(g: Globals, pid: int, name: string, image: Option<nat>, entry: Regs): Globals
    requires pid != -1 ==> image.Some? && CanLaunch(g, pid, false)
  {
    if pid == -1 then g
    else LaunchedGlobals(Mapped(g, pid), pid, image.value, IsShellName(name), entry, false)
  }

  lemma {:induction false} ExecuteRefines(g: Globals, m: Machine, name: string, image: Option<nat>, entry: Regs)
    requires Represents(g, m) && g.pitCount >= TERMINALS
    ensures var pid := if Launches(m, name, image) then NewPid(m) else -1;
            && (pid != -1 ==> CanLaunch(g, pid, false))
            && Represents(ExecutedGlobals(g, pid, name, image, entry), ExecuteStep(m, name, image, entry))
            && (pid != -1 ==> FreshFiles(g.tab[pid].files, ExecutedGlobals(g, pid, name, image, entry).tab[pid].files))
  {
    hide TableOk, Suspended, Tops, StackOk, Pids;
    RunningSlot(g, m);
    if Launches(m, name, image) {
      NewSlot(g, m, name, image.value, entry);
      LaunchRepresents(g, m, name, image.value, entry);
    } else {
      RefusalRepresents(g, m, name, image, entry);
    }
  }

  lemma {:induction false} RefusalRepresents(g: Globals, m: Machine, name: string, image: Option<nat>, entry: Regs)
    requires Represents(g, m) && !Launches(m, name, image)
    ensures Represents(g, ExecuteStep(m, name, image, entry))
  {
  }

  /** What `execute` leaves in the slot, the page directory and the task segment. */
  lemma {:induction false} ExecutedSlot(g: Globals, m: Machine, name: string, image: Option<nat>, entry: Regs)
    requires Represents(g, m) && g.pitCount >= TERMINALS && Launches(m, name, image)
    ensures CanLaunch(g, NewPid(m), false)
    ensures var h := ExecutedGlobals(g, NewPid(m), name, image, entry);
            && h.processNum == NewPid(m) && h.pitCount == g.pitCount && h.tab == g.tab[NewPid(m) := h.tab[NewPid(m)]]
            && h.pageDir == g.pageDir[32 := PdEntry(true, 2 + NewPid(m))]
            && h.esp0 == 0x80_0000 - 0x2000 * NewPid(m) - 4
            && var v := h.tab[NewPid(m)];
               && v.active && v.pid == NewPid(m) && v.parentId == g.processNum && !v.isBaseShell
               && v.caller == entry && v.isShell == IsShellName(name) && v.terminal == m.current
               && v.entryPoint == image.value
  {
    NewSlot(g, m, name, image.value, entry);
    hide Represents, FilesOk, SlotOk;
  }

  function SlotClosed(v: Pcb): Pcb
    requires |v.files| == FILES
  {
    v.(files := Closed(v.files))
  }

  /** The globals after a process that is not a first shell has halted. */
  function PoppedGlobals(g: Globals): Globals
    requires Sized(g) && 0 <= g.processNum <= MAX_PCB && |g.tab[g.processNum].files| == FILES
    requires g.tab[g.processNum].terminal < TERMINALS && 0 <= g.tab[g.processNum].parentId < SLOTS
  {
    var c := g.processNum;
    var p := g.tab[c].parentId;
    var tab := g.tab[c := SlotClosed(g.tab[c]).(active := false)];
    g.(tab := tab[p := tab[p].(active := true)],
       schedule := g.schedule[g.tab[c].terminal := tab[p].pid], curr := g.curr[g.tab[c].terminal := p],
       pageDir := g.pageDir[USER_SLOT := PdEntry(true, 2 + p)][c + 3 := PdEntry(false, c + 3)],
       processNum := p, esp0 := KernelStackTop(p))
  }

  lemma {:induction false} PoppedSlots(g: Globals, m: Machine)
    requires Represents(g, m) && |m.stacks[m.current]| > 1
    ensures var v := g.tab[g.processNum];
            && 0 <= v.parentId < g.processNum && v.terminal < TERMINALS && FilesOk(v)
            && var h := PoppedGlobals(g);
               && h.processNum == v.parentId && h.tab[h.processNum].active && !h.tab[g.processNum].active
               && h.pageDir == g.pageDir[32 := PdEntry(true, 2 + h.processNum)]
                                        [g.processNum + 3 := PdEntry(false, g.processNum + 3)]
               && h.esp0 == 0x80_0000 - 0x2000 * h.processNum - 4
  {
    RunningSlot(g, m);
    assert StackOk(m.stacks[m.current], m.current);
    hide Represents;
  }

  /** The globals after a first shell has halted and starts again; `stale` was never set for it. */
  function RestartedGlobals(g: Globals, stale: bool, entry: Regs): Globals
    requires Sized(g) && 0 <= g.processNum <= MAX_PCB && |g.tab[g.processNum].files| == FILES
    requires g.tab[g.processNum].terminal < TERMINALS
  {
    var c := g.processNum;
    var closed := g.(tab := g.tab[c := SlotClosed(g.tab[c])]);
    LaunchedGlobals(closed, c, 0, stale, entry, true)
  }

  lemma {:induction false} TopsDistinct(m: Machine, t: nat)
    requires Valid(m) && t < TERMINALS && t != m.current
    ensures Top(m.stacks[t]).pid != Running(m).pid
  {
    var s, r := m.stacks[t], m.stacks[m.current];
    assert s[|s| - 1].pid in Pids(s) && r[|r| - 1].pid in Pids(r);
  }

  lemma {:induction false} SuspendedAfter(g: Globals, m: Machine, n: Machine, v: Pcb, t: nat)
    requires Valid(m) && Valid(n) && t < TERMINALS && |g.tab| == SLOTS && g.processNum == Running(m).pid
    requires Suspended(g.tab, m, t)
    requires n.current == m.current && n.saved == m.saved
    requires t != m.current ==> n.stacks[t] == m.stacks[t]
    ensures g.processNum < SLOTS && Suspended(g.tab[g.processNum := v], n, t)
  {
    assert StackOk(n.stacks[t], t) && StackOk(m.stacks[m.current], m.current);
    if t != m.current {
      TopsDistinct(m, t);
    }
  }

  lemma {:induction false} PoppedTable(g: Globals, m: Machine)
    requires Represents(g, m) && |m.stacks[m.current]| > 1
    ensures var v := g.tab[g.processNum];
            !v.isBaseShell && 0 <= v.parentId < SLOTS && v.terminal == m.current && FilesOk(v)
    ensures var s := m.stacks[m.current];
            var p := s[|s| - 2].pid;
            var tab := g.tab[g.processNum := SlotClosed(g.tab[g.processNum]).(active := false)];
            && p == g.tab[g.processNum].parentId && p == Top(s[..|s| - 1]).pid
            && TableOk(tab, m.stacks[m.current := s[..|s| - 1]])
            && p < SLOTS && tab[p].pid == p && tab[p].active
  {
    hide Tops, Suspended, TableOk, StackOk, Pids;
    var s := m.stacks[m.current];
    RunningSlot(g, m);
    var v := SlotClosed(g.tab[g.processNum]).(active := false);
    TablePop(g.tab, m, v);
    TopSlot(g.tab[g.processNum := v], m.stacks[m.current := s[..|s| - 1]], m.current);
  }

  /** The slot of the process on top of a stack. */
  lemma {:induction false} TopSlot(tab: Table, stacks: seq<Stack>, t: nat)
    requires TableOk(tab, stacks) && t < TERMINALS && |stacks[t]| > 0
    ensures var p := Top(stacks[t]).pid;
            p < SLOTS && tab[p].pid == p && tab[p].active
  {
    var s := stacks[t];
    assert StackIn(tab, t, s);
    assert FrameOk(tab, t, s, |s| - 1);
    assert stacks[t][|s| - 1].pid in Live(stacks);
    assert SlotOk(tab[Top(s).pid], Top(s).pid in Live(stacks));
  }

  lemma {:induction false} PoppedMatches(g: Globals, m: Machine, n: Machine)
    requires Represents(g, m) && |m.stacks[m.current]| > 1 && Valid(n)
    requires n.stacks == m.stacks[m.current := m.stacks[m.current][..|m.stacks[m.current]| - 1]]
    requires n.current == m.current && n.saved == m.saved
    ensures var v := g.tab[g.processNum];
            !v.isBaseShell && 0 <= v.parentId < SLOTS && v.terminal == m.current && FilesOk(v)
            && v.parentId == Running(n).pid
    ensures var h := PoppedGlobals(g);
            TablesMatch(h.tab, h.schedule, h.curr, n)
  {
    PoppedTable(g, m);
    var v := SlotClosed(g.tab[g.processNum]).(active := false);
    var tab := g.tab[g.processNum := v];
    var p := g.tab[g.processNum].parentId;
    assert tab[p := tab[p].(active := true)] == tab;
    forall t: nat | t < TERMINALS ensures Suspended(tab, n, t) {
      SuspendedAfter(g, m, n, v, t);
    }
  }

  lemma {:induction false} PopRepresents(g: Globals, m: Machine, entry: Regs)
    requires Represents(g, m) && |m.stacks[m.current]| > 1
    ensures var v := g.tab[g.processNum];
            !v.isBaseShell && 0 <= v.parentId < SLOTS && v.terminal < TERMINALS && FilesOk(v)
    ensures Represents(PoppedGlobals(g), HaltStep(m, entry))
  {
    hide Represents, TablesMatch, Valid, SlotClosed, UserFrame;
    Unpacked(g, m);
    var n := HaltStep(m, entry);
    StepKeepsValid(m, Event.Halt(entry));
    PoppedMatches(g, m, n);
    PoppedPage(g.pageDir, g.processNum, g.tab[g.processNum].parentId);
    Packed(PoppedGlobals(g), n);
  }

  /** The parts of the representation. */
  lemma {:induction false} Unpacked(g: Globals, m: Machine)
    requires Represents(g, m)
    ensures Valid(m) && Sized(g) && TablesMatch(g.tab, g.schedule, g.curr, m)
    ensures 0 <= g.processNum <= MAX_PCB && g.processNum == Running(m).pid
    ensures UserFrame(g.pageDir) == m.userFrame && g.esp0 == m.esp0
  {
    assert StackOk(m.stacks[m.current], m.current);
  }

  lemma {:induction false} Packed(g: Globals, m: Machine)
    requires Valid(m) && Sized(g) && TablesMatch(g.tab, g.schedule, g.curr, m)
    requires g.processNum == Running(m).pid && UserFrame(g.pageDir) == m.userFrame && g.esp0 == m.esp0
    ensures Represents(g, m)
  {
  }

  lemma {:induction false} PoppedPage(pageDir: seq<PdEntry>, c: int, p: int)
    requires |pageDir| == 1024 && 0 <= c <= MAX_PCB
    ensures UserFrame(pageDir[USER_SLOT := PdEntry(true, 2 + p)][c + 3 := PdEntry(false, c + 3)])
            == if c + 3 == USER_SLOT then None else Some(2 + p)
  {
  }

  lemma {:induction false} RestartTable(g: Globals, m: Machine, stale: bool, entry: Regs)
    requires Represents(g, m) && |m.stacks[m.current]| == 1 && g.pitCount >= TERMINALS
    ensures var v := g.tab[g.processNum];
            v.isBaseShell && v.terminal < TERMINALS && FilesOk(v)
    ensures var h := RestartedGlobals(g, stale, entry);
            TableOk(h.tab, m.stacks) && h.schedule == g.schedule && h.curr == g.curr
  {
    hide Suspended;
    var c := g.processNum;
    RunningSlot(g, m);
    var h := RestartedGlobals(g, stale, entry);
    assert StackOk(m.stacks[m.current], m.current);
    TableTouch(g.tab, m, c, h.tab[c]);
    assert h.tab == g.tab[c := h.tab[c]];
  }

  lemma {:induction false} RestartRepresents(g: Globals, m: Machine, stale: bool, entry: Regs)
    requires Represents(g, m) && |m.stacks[m.current]| == 1 && g.pitCount >= TERMINALS
    ensures var v := g.tab[g.processNum];
            v.isBaseShell && v.terminal < TERMINALS && FilesOk(v)
    ensures Represents(RestartedGlobals(g, stale, entry), HaltStep(m, entry))
  {
    hide Represents, Valid, UserFrame;
    Unpacked(g, m);
    RestartMatches(g, m, stale, entry);
    StepKeepsValid(m, Event.Halt(entry));
    hide TablesMatch;
    hide RestartedGlobals;
    Packed(RestartedGlobals(g, stale, entry), HaltStep(m, entry));
  }

  lemma {:induction false} RestartMatches(g: Globals, m: Machine, stale: bool, entry: Regs)
    requires Represents(g, m) && |m.stacks[m.current]| == 1 && g.pitCount >= TERMINALS
    ensures var v := g.tab[g.processNum];
            v.isBaseShell && v.terminal < TERMINALS && FilesOk(v)
    ensures var h := RestartedGlobals(g, stale, entry);
            TablesMatch(h.tab, h.schedule, h.curr, HaltStep(m, entry))
  {
    hide TableOk, StackOk, Pids, Suspended, LaunchedGlobals, SlotClosed;
    RunningSlot(g, m);
    RestartTable(g, m, stale, entry);
    var c, h, n := g.processNum, RestartedGlobals(g, stale, entry), HaltStep(m, entry);
    RestartTab(g, stale, entry);
    StepKeepsValid(m, Event.Halt(entry));
    SuspendedAfter(g, m, n, h.tab[c], 0);
    SuspendedAfter(g, m, n, h.tab[c], 1);
    SuspendedAfter(g, m, n, h.tab[c], 2);
  }

  lemma {:induction false} RestartTab(g: Globals, stale: bool, entry: Regs)
    requires Sized(g) && 0 <= g.processNum <= MAX_PCB && |g.tab[g.processNum].files| == FILES
    requires g.tab[g.processNum].terminal < TERMINALS && g.pitCount >= TERMINALS
    ensures var h := RestartedGlobals(g, stale, entry);
            |h.tab| == |g.tab| && h.tab == g.tab[g.processNum := h.tab[g.processNum]]
  {
  }


  /** The globals after a steady tick: the registers go to the PCB of the running process. */
  function TickedGlobals(g: Globals, next: nat, entry: Regs): Globals
    requires Sized(g) && 0 <= g.processNum < SLOTS && next < TERMINALS && 0 <= g.schedule[next] < SLOTS
  {
    var v := g.tab[g.processNum].(saved := entry);
    var w := if g.pitCount == TERMINALS then v.(isShell := true, isBaseShell := true, parentId := -1, active := true)
             else v;
    var p := g.schedule[next];
    g.(tab := g.tab[g.processNum := w], processNum := p, pitCount := if g.pitCount == TERMINALS then 4 else g.pitCount,
       pageDir := g.pageDir[USER_SLOT := PdEntry(true, 2 + p)], esp0 := KernelStackTop(p))
  }

  /** The PCB that a tick resumes is the one whose registers were saved. */
  lemma {:induction false} ResumedSlot(g: Globals, m: Machine, t: nat)
    requires Represents(g, m) && t < TERMINALS
    ensures var p := Top(m.stacks[t]).pid;
            && g.schedule[t] == p <= MAX_PCB && g.tab[p].pid == p
  {
    assert StackOk(m.stacks[t], t) && StackIn(g.tab, t, m.stacks[t]);
    assert FrameOk(g.tab, t, m.stacks[t], |m.stacks[t]| - 1);
  }

  lemma {:induction false} TickTable(g: Globals, m: Machine, entry: Regs)
    requires Represents(g, m) && (g.pitCount == TERMINALS ==> |m.stacks[m.current]| == 1)
    requires var n := TickStep(m, entry); 0 <= g.schedule[n.current] < SLOTS && 0 <= g.processNum < SLOTS
    ensures var h := TickedGlobals(g, TickStep(m, entry).current, entry);
            TableOk(h.tab, m.stacks)
  {
    hide Tops, Suspended;
    RunningSlot(g, m);
    assert StackOk(m.stacks[m.current], m.current);
    var h := TickedGlobals(g, TickStep(m, entry).current, entry);
    TableTouch(g.tab, m, g.processNum, h.tab[g.processNum]);
  }

  lemma {:induction false} TickRepresents(g: Globals, m: Machine, entry: Regs)
    requires Represents(g, m) && (g.pitCount == TERMINALS ==> |m.stacks[m.current]| == 1)
    ensures var n := TickStep(m, entry);
            && 0 <= g.schedule[n.current] <= MAX_PCB && 0 <= g.processNum <= MAX_PCB
            && Represents(TickedGlobals(g, n.current, entry), n)
            && TickedGlobals(g, n.current, entry).tab[g.schedule[n.current]].pid == g.schedule[n.current]
            && TickedGlobals(g, n.current, entry).tab[g.schedule[n.current]].saved == n.regs
  {
    hide TableOk, StackOk, Pids;
    var n := TickStep(m, entry);
    ResumedSlot(g, m, m.current);
    ResumedSlot(g, m, n.current);
    TickTable(g, m, entry);
    StepKeepsValid(m, Tick(entry));
    TickSuspends(g, m, entry, 0);
    TickSuspends(g, m, entry, 1);
    TickSuspends(g, m, entry, 2);
  }

  lemma {:induction false} TickSuspends(g: Globals, m: Machine, entry: Regs, t: nat)
    requires Valid(m) && t < TERMINALS && Sized(g) && g.processNum == Running(m).pid < SLOTS
    requires Suspended(g.tab, m, t)
    requires var n := TickStep(m, entry); 0 <= g.schedule[n.current] < SLOTS
    ensures var n := TickStep(m, entry);
            var tab := TickedGlobals(g, n.current, entry).tab;
            Suspended(tab, n, t) && tab[Top(m.stacks[t]).pid].saved == n.saved[t]
  {
    if t != m.current {
      TopsDistinct(m, t);
    }
  }

  lemma {:induction false} FilesRepresent(g: Globals, m: Machine, v: Pcb)
    requires Represents(g, m) && v == g.tab[g.processNum].(files := v.files) && FilesOk(v)
    ensures Represents(g.(tab := g.tab[g.processNum := v]), m)
  {
    RunningSlot(g, m);
    FilesTable(g, m, v);
    hide TableOk, Tops;
    SuspendedAfter(g, m, m, v, 0);
    SuspendedAfter(g, m, m, v, 1);
    SuspendedAfter(g, m, m, v, 2);
  }

  lemma {:induction false} FilesTable(g: Globals, m: Machine, v: Pcb)
    requires Represents(g, m) && v == g.tab[g.processNum].(files := v.files) && FilesOk(v)
    ensures TableOk(g.tab[g.processNum := v], m.stacks)
  {
    hide Tops, Suspended;
    RunningSlot(g, m);
    TableTouch(g.tab, m, g.processNum, v);
  }

  /** The stacks while the three shells are being launched. */
  function FirstShells(n: nat): seq<Stack> {
    [if n > 0 then [BaseFrame(0)] else [], if n > 1 then [BaseFrame(1)] else [], if n > 2 then [BaseFrame(2)] else []]
  }

  /** The globals with the first `k` shells launched. */
  ghost predicate Booted(g: Globals, k: nat) {
    && Sized(g) && g.pitCount == k <= TERMINALS && g.processNum == k - 1
    && TableOk(g.tab, FirstShells(k))
    && (forall t | 0 <= t < k :: g.schedule[t] == t && g.curr[t] == t)
  }

  lemma {:induction false} BootLive(k: nat)
    requires k <= TERMINALS
    ensures forall p: nat :: p in Live(FirstShells(k)) <==> p < k
  {
    var stacks: seq<Stack> := FirstShells(k);
    forall p: nat ensures p in Live(stacks) <==> p < k {
      if p < k { assert stacks[p][0].pid == p; }
    }
  }

  lemma {:induction false} BootSlots(g: Globals, k: nat)
    requires Booted(g, k) && k < TERMINALS
    ensures SlotsOk(g.tab, Live(FirstShells(k))) && Sized(g) && g.pitCount == k && g.processNum == k - 1
    ensures CanLaunch(g, k, false) && LeastFree(Live(FirstShells(k)), k) == k
    ensures forall p: nat | p < SLOTS :: CanLaunch(g, p, false)
  {
    hide StackIn;
    var live := Live(FirstShells(k));
    forall p: nat | p < SLOTS ensures CanLaunch(g, p, false) {
      assert SlotOk(g.tab[p], p in live);
    }
    BootLive(k);
    LeastFreeUnique(live, k, k);
  }

  lemma {:induction false} BootLaunch(g: Globals, k: nat, image: nat, entry: Regs)
    requires Booted(g, k) && k < TERMINALS && CanLaunch(g, k, false)
    ensures Booted(LaunchedGlobals(Mapped(g, k), k, image, true, entry, false), k + 1)
  {
    var v := SlotAfter(g, k, image, true, entry, false);
    BootSlotFilled(g, k, image, entry);
    var tab := g.tab[k := v];
    var stacks: seq<Stack>, next: seq<Stack> := FirstShells(k), FirstShells(k + 1);
    forall t: nat | t < TERMINALS ensures StackIn(tab, t, next[t]) {
      if t < k {
        assert StackIn(g.tab, t, stacks[t]);
        assert FrameOk(g.tab, t, stacks[t], 0);
      }
    }
  }

  lemma {:induction false} BootSlotFilled(g: Globals, k: nat, image: nat, entry: Regs)
    requires Booted(g, k) && k < TERMINALS && CanLaunch(g, k, false)
    ensures SlotsOk(g.tab[k := SlotAfter(g, k, image, true, entry, false)], Live(FirstShells(k + 1)))
  {
    hide StackIn;
    var tab := g.tab[k := SlotAfter(g, k, image, true, entry, false)];
    BootLive(k);
    BootLive(k + 1);
    forall p: nat | p < SLOTS ensures SlotOk(tab[p], p in Live(FirstShells(k + 1))) {
      assert SlotOk(g.tab[p], p in Live(FirstShells(k)));
      assert SlotOk(g.tab[k], k in Live(FirstShells(k)));
    }
  }

  lemma {:induction false} BootTouched(g: Globals, k: nat, v: Pcb)
    requires Booted(g, k) && 0 < k
    requires v == g.tab[k - 1].(saved := v.saved, isShell := v.isShell, active := true)
    ensures Booted(g.(tab := g.tab[k - 1 := v]), k)
  {
    var tab := g.tab[k - 1 := v];
    var stacks: seq<Stack> := FirstShells(k);
    assert stacks[k - 1][0].pid == k - 1;
    forall p: nat | p < SLOTS ensures SlotOk(tab[p], p in Live(stacks)) {
      assert SlotOk(g.tab[p], p in Live(stacks));
    }
    forall t: nat | t < TERMINALS ensures StackIn(tab, t, stacks[t]) {
      assert StackIn(g.tab, t, stacks[t]);
      if t < k { assert FrameOk(g.tab, t, stacks[t], 0); }
    }
  }

  lemma {:induction false} OneShell(t: nat)
    requires t < TERMINALS
    ensures StackOk([BaseFrame(t)], t) && Pids([BaseFrame(t)]) == {t} && ShellsIn([BaseFrame(t)]) == 1
  {
    var s: Stack := [BaseFrame(t)];
    assert ShellsIn(s) == 1 by {
      hide Pids;
      assert s[..0] == [] && ShellsIn([]) == 0;
    }
    hide ShellsIn;
    forall p: nat ensures p in Pids(s) <==> p == t {
      if p == t { assert s[0].pid == p; }
    }
  }

  lemma {:induction false} BootedValid(m: Machine)
    requires m.stacks == FirstShells(TERMINALS) && m.current < TERMINALS && |m.saved| == TERMINALS
    ensures Valid(m) && LiveShells(m) == 3
    ensures m.shells == 3 ==> Disciplined(m)
  {
    OneShell(0);
    OneShell(1);
    OneShell(2);
    hide StackOk, Pids, ShellsIn;
  }

  lemma {:induction false} BootRepresents(g: Globals, m: Machine)
    requires Booted(g, TERMINALS) && m.stacks == FirstShells(TERMINALS) && m.current == 2 && |m.saved| == TERMINALS
    requires g.tab[0].saved == m.saved[0] && g.tab[1].saved == m.saved[1]
    requires UserFrame(g.pageDir) == m.userFrame && g.esp0 == m.esp0
    ensures Represents(g, m)
  {
    hide TableOk;
    BootedValid(m);
    assert Tops(m.stacks) == [0, 1, 2];
    assert g.schedule == [0, 1, 2] && g.curr == [0, 1, 2];
  }
}
