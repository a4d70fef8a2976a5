/** The table of process control blocks: their fields and descriptors, and how a table holds the call stacks of
  `Processes.dfy`, linked by parent number. */
module ProcessTable {
  import opened Processes

  /** PCBs at 8 MB - 8 KB * (pid + 1); the search of `execute` also reads slot MAX_PCB + 1. */
  const SLOTS: nat := MAX_PCB + 2
  const FILES: nat := 8
  const FD_MIN: nat := 2
  const FD_MAX: nat := 7

  datatype Device = Stdin | Stdout | Rtc | Directory | Regular
  datatype Fd = Fd(open: bool, device: Device, inode: nat, position: nat)

  datatype Pcb = Pcb(
    pid: int, parentId: int, saved: Regs, caller: Regs, active: bool, entryPoint: nat,
    isShell: bool, isBaseShell: bool, terminal: nat, files: seq<Fd>)

  type Table = seq<Pcb>

  // ----- file descriptors of one process -----

  /** No file is longer than its block table allows. */
  const LONGEST: nat := 1023 * 4096

  /** 0 and 1 are the terminal; a free slot has 2..6 closed, but not always 7. */
  predicate FilesOk(p: Pcb) {
    && |p.files| == FILES && (forall i | 0 <= i < FILES :: p.files[i].position <= LONGEST)
    && (p.active ==> p.files[0].open && p.files[0].device == Stdin && p.files[1].open && p.files[1].device == Stdout)
    && (forall i | FD_MIN <= i < FILES && p.files[i].open :: p.files[i].device != Stdin && p.files[i].device != Stdout)
    && (!p.active ==> forall i | FD_MIN <= i < FD_MAX :: !p.files[i].open)
  }

  /** What halt leaves: the close loop stops one short of the last descriptor. */
  function Closed(files: seq<Fd>): (r: seq<Fd>)
    requires |files| == FILES
    ensures |r| == FILES
  {
    seq(FILES, i requires 0 <= i < FILES => if FD_MIN <= i < FD_MAX then files[i].(open := false) else files[i])
  }

  /** The least free descriptor from `i` on; FILES when there is none. */
  function FreeFrom(files: seq<Fd>, i: nat): (fd: nat)
    requires i <= |files| == FILES
    ensures i <= fd <= FILES
    ensures fd < FILES ==> !files[fd].open
    ensures forall j | i <= j < fd :: files[j].open
    decreases FILES - i
  {
    if i == FILES || !files[i].open then i else FreeFrom(files, i + 1)
  }

  /** The table with descriptor `i` of process `p` replaced. */
  function WithFd(tab: Table, p: int, i: int, f: Fd): Table
    requires 0 <= p < |tab| && 0 <= i < |tab[p].files|
  {
    tab[p := tab[p].(files := tab[p].files[i := f])]
  }

  /** The table with the descriptors of process `p` replaced. */
  function WithFiles(tab: Table, p: int, files: seq<Fd>): Table
    requires 0 <= p < |tab|
  {
    tab[p := tab[p].(files := files)]
  }

  // ----- the PCB table -----

  predicate FrameOk(tab: Table, t: nat, s: Stack, i: nat)
    requires i < |s|
  {
    var p := s[i].pid;
    && p < |tab|
    && tab[p].pid == p && tab[p].terminal == t && tab[p].isBaseShell == (i == 0)
    && tab[p].parentId == (if i == 0 then -1 else s[i - 1].pid)
    && (i > 0 ==> tab[p].isShell == s[i].shell && tab[p].caller == s[i].caller)
  }

  ghost predicate StackIn(tab: Table, t: nat, s: Stack) { forall i: nat | i < |s| :: FrameOk(tab, t, s, i) }

  predicate SlotOk(p: Pcb, live: bool) {
    FilesOk(p) && p.active == live && (!live ==> !p.isBaseShell && p.parentId != -1)
  }

  ghost predicate SlotsOk(tab: Table, live: set<nat>) {
    forall p: nat | p < |tab| :: SlotOk(tab[p], p in live)
  }

  /** The table holds exactly the processes of the stacks, linked to their parents. */
  ghost predicate TableOk(tab: Table, stacks: seq<Stack>) {
    && |tab| == SLOTS && |stacks| == TERMINALS
    && StackIn(tab, 0, stacks[0]) && StackIn(tab, 1, stacks[1]) && StackIn(tab, 2, stacks[2])
    && SlotsOk(tab, Live(stacks))
  }

  /** Slots that differ at most in what no frame shows. */
  predicate SameLinks(a: Pcb, b: Pcb, base: bool) {
    && a.pid == b.pid && a.parentId == b.parentId && a.terminal == b.terminal && a.isBaseShell == b.isBaseShell
    && a.active == b.active
    && (!base ==> a.isShell == b.isShell && a.caller == b.caller)
  }

  lemma {:induction false} FrameElsewhere(tab: Table, t: nat, s: Stack, p: nat, v: Pcb)
    requires StackIn(tab, t, s) && p < |tab| && p !in Pids(s)
    ensures StackIn(tab[p := v], t, s)
  {
    var n := tab[p := v];
    forall i: nat | i < |s| ensures FrameOk(n, t, s, i) {
      assert FrameOk(tab, t, s, i);
      assert s[i].pid in Pids(s);
    }
  }

  lemma {:induction false} FrameTouched(tab: Table, t: nat, s: Stack, p: nat, v: Pcb)
    requires StackIn(tab, t, s) && p < |tab| && |s| > 0
    requires SameLinks(tab[p], v, p == s[0].pid)
    ensures StackIn(tab[p := v], t, s)
  {
    var n := tab[p := v];
    forall i: nat | i < |s| ensures FrameOk(n, t, s, i) {
      assert FrameOk(tab, t, s, i);
      assert FrameOk(tab, t, s, 0);
    }
  }

  lemma {:induction false} Touched(tab: Table, t: nat, s: Stack, p: nat, v: Pcb)
    requires StackIn(tab, t, s) && StackOk(s, t) && p < |tab|
    requires SameLinks(tab[p], v, p < TERMINALS) && (p in Pids(s) && p < TERMINALS ==> p == t)
    ensures StackIn(tab[p := v], t, s)
  {
    if p in Pids(s) {
      FrameTouched(tab, t, s, p, v);
    } else {
      FrameElsewhere(tab, t, s, p, v);
    }
  }

  lemma {:induction false} TableTouch(tab: Table, m: Machine, p: nat, v: Pcb)
    requires Valid(m) && TableOk(tab, m.stacks) && p < SLOTS
    requires SameLinks(tab[p], v, p < TERMINALS) && FilesOk(v)
    ensures TableOk(tab[p := v], m.stacks)
  {
    assert SlotOk(tab[p], p in Live(m.stacks));
    assert m.stacks[0][0].pid in Pids(m.stacks[0]) && m.stacks[1][0].pid in Pids(m.stacks[1]);
    assert m.stacks[2][0].pid in Pids(m.stacks[2]);
    Touched(tab, 0, m.stacks[0], p, v);
    Touched(tab, 1, m.stacks[1], p, v);
    Touched(tab, 2, m.stacks[2], p, v);
  }

  lemma {:induction false} LiveAfterPush(m: Machine, f: Frame)
    requires Valid(m) && Running(m).pid < f.pid <= MAX_PCB && f.pid !in Live(m.stacks)
    ensures var stacks := m.stacks[m.current := m.stacks[m.current] + [f]];
            Live(stacks) == Live(m.stacks) + {f.pid}
  {
    var s := m.stacks[m.current];
    assert StackOk(s, m.current);
    Pushed(s, f, m.current);
    LiveIsUnion(m);
    LiveIsUnion(m.(stacks := m.stacks[m.current := s + [f]]));
  }

  lemma {:induction false} LiveAfterPop(m: Machine)
    requires Valid(m) && |m.stacks[m.current]| > 1
    ensures var s := m.stacks[m.current];
            Live(m.stacks[m.current := s[..|s| - 1]]) == Live(m.stacks) - {Top(s).pid}
  {
    var s := m.stacks[m.current];
    assert StackOk(s, m.current);
    Popped(s, m.current);
    LiveIsUnion(m);
    LiveIsUnion(m.(stacks := m.stacks[m.current := s[..|s| - 1]]));
    assert Top(s).pid in Pids(s);
  }

  /** What the slot of a new process must hold for the frame it is pushed with. */
  predicate Launched(v: Pcb, f: Frame, parent: nat, terminal: nat) {
    && v.pid == f.pid && v.parentId == parent && v.terminal == terminal && !v.isBaseShell && v.active
    && v.isShell == f.shell && v.caller == f.caller && FilesOk(v)
  }

  lemma {:induction false} StackPush(tab: Table, t: nat, s: Stack, f: Frame, v: Pcb)
    requires StackIn(tab, t, s) && |s| > 0 && f.pid < |tab| && f.pid !in Pids(s)
    requires Launched(v, f, Top(s).pid, t)
    ensures StackIn(tab[f.pid := v], t, s + [f])
  {
    FrameElsewhere(tab, t, s, f.pid, v);
    var n := tab[f.pid := v];
    forall i: nat | i < |s + [f]| ensures FrameOk(n, t, s + [f], i) {
      if i < |s| { assert FrameOk(n, t, s, i); }
    }
  }

  lemma {:induction false} TablePush(tab: Table, m: Machine, f: Frame, v: Pcb)
    requires Valid(m) && TableOk(tab, m.stacks)
    requires Running(m).pid < f.pid <= MAX_PCB && f.pid !in Live(m.stacks)
    requires Launched(v, f, Running(m).pid, m.current)
    ensures TableOk(tab[f.pid := v], m.stacks[m.current := m.stacks[m.current] + [f]])
  {
    var n := tab[f.pid := v];
    LiveIsUnion(m);
    LiveAfterPush(m, f);
    var live := Live(m.stacks);
    forall p: nat | p < |n| ensures SlotOk(n[p], p in live + {f.pid}) {
      assert SlotOk(tab[p], p in live);
    }
    if m.current == 0 { StackPush(tab, 0, m.stacks[0], f, v); } else { FrameElsewhere(tab, 0, m.stacks[0], f.pid, v); }
    if m.current == 1 { StackPush(tab, 1, m.stacks[1], f, v); } else { FrameElsewhere(tab, 1, m.stacks[1], f.pid, v); }
    if m.current == 2 { StackPush(tab, 2, m.stacks[2], f, v); } else { FrameElsewhere(tab, 2, m.stacks[2], f.pid, v); }
  }

  lemma {:induction false} StackPop(tab: Table, t: nat, s: Stack, v: Pcb)
    requires StackIn(tab, t, s) && StackOk(s, t) && |s| > 1 && Top(s).pid < |tab|
    ensures StackIn(tab[Top(s).pid := v], t, s[..|s| - 1])
  {
    var r := s[..|s| - 1];
    forall i: nat | i < |r| ensures FrameOk(tab, t, r, i) {
      assert FrameOk(tab, t, s, i);
    }
    Popped(s, t);
    FrameElsewhere(tab, t, r, Top(s).pid, v);
  }

  lemma {:induction false} TablePop(tab: Table, m: Machine, v: Pcb)
    requires Valid(m) && TableOk(tab, m.stacks) && |m.stacks[m.current]| > 1
    requires !v.active && !v.isBaseShell && v.parentId != -1 && FilesOk(v)
    ensures var s := m.stacks[m.current];
            TableOk(tab[Top(s).pid := v], m.stacks[m.current := s[..|s| - 1]])
  {
    var s := m.stacks[m.current];
    var p := Top(s).pid;
    var n := tab[p := v];
    LiveAfterPop(m);
    LiveIsUnion(m);
    var live := Live(m.stacks);
    assert p in Pids(s);
    forall q: nat | q < |n| ensures SlotOk(n[q], q in live - {p}) {
      assert SlotOk(tab[q], q in live);
    }
    if m.current == 0 { StackPop(tab, 0, m.stacks[0], v); } else { FrameElsewhere(tab, 0, m.stacks[0], p, v); }
    if m.current == 1 { StackPop(tab, 1, m.stacks[1], v); } else { FrameElsewhere(tab, 1, m.stacks[1], p, v); }
    if m.current == 2 { StackPop(tab, 2, m.stacks[2], v); } else { FrameElsewhere(tab, 2, m.stacks[2], p, v); }
  }
}
