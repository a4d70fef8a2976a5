/** How a run reaches the halt that clears the page of the process that then runs. */
module PageLoss {
  import opened Processes
  import opened Representation

  /** The stack of terminal 0 when each program has started the next one, `k` times. */
  function Ladder(k: nat, entry: Regs): (s: Stack)
    ensures |s| == k + 1
  {
    if k == 0 then [BaseFrame(0)] else Ladder(k - 1, entry) + [Frame(2 + k, false, entry)]
  }

  function OnLadder(k: nat, entry: Regs): seq<Stack> { [Ladder(k, entry), [BaseFrame(1)], [BaseFrame(2)]] }

  lemma {:induction false} LadderPids(k: nat, entry: Regs)
    ensures forall p: nat :: p in Pids(Ladder(k, entry)) <==> p == 0 || 3 <= p <= 2 + k
    ensures Top(Ladder(k, entry)).pid == if k == 0 then 0 else 2 + k
  {
    if k == 0 {
      OneShell(0);
    } else {
      LadderPids(k - 1, entry);
      PidsPush(Ladder(k - 1, entry), Frame(2 + k, false, entry));
    }
  }

  lemma {:induction false} LadderLive(m: Machine, k: nat, entry: Regs)
    requires Shape(m) && m.stacks == OnLadder(k, entry)
    ensures forall p: nat :: p in Live(m.stacks) <==> p < 3 + k
  {
    hide Ladder, Live, Pids;
    LadderPids(k, entry);
    LiveIsUnion(m);
    OneShell(1);
    OneShell(2);
  }

  /** One more step up: a program that is not a shell starts the next one. */
  lemma {:induction false} LadderStep(m: Machine, k: nat, image: nat, entry: Regs)
    requires Valid(m) && m.stacks == OnLadder(k, entry) && m.current == 0 && 3 + k <= MAX_PCB
    ensures var n := Step(m, Execute("p", Some(image), entry));
            n.stacks == OnLadder(k + 1, entry) && n.current == 0
  {
    LadderPids(k, entry);
    LadderLive(m, k, entry);
    hide Live, Pids, Valid, LeastFree;
    LeastFreeUnique(Live(m.stacks), Running(m).pid + 1, 3 + k);
    assert NewPid(m) == 3 + k;
    assert |"p"| == 1 && !IsShellName("p");
    hide NewPid, IsShellName;
  }

  function Calls(n: nat, e: Event): (es: seq<Event>)
    ensures |es| == n
  {
    if n == 0 then [] else [e] + Calls(n - 1, e)
  }

  predicate IsCall(e: Event, image: nat, entry: Regs) { e == Execute("p", Some(image), entry) }

  lemma {:induction false} Climb(m: Machine, k: nat, n: nat, e: Event, image: nat, entry: Regs)
    requires Valid(m) && m.stacks == OnLadder(k, entry) && m.current == 0 && k + n < MAX_PCB - 2
    requires IsCall(e, image, entry)
    ensures var up := Run(m, Calls(n, e));
            up.stacks == OnLadder(k + n, entry) && up.current == 0
    decreases n
  {
    hide OnLadder, Ladder;
    if n == 0 {
    } else {
      ClimbOne(m, k, e, image, entry);
      RunCons(m, e, Calls(n - 1, e));
      var next := Step(m, e);
      hide Step, Run, IsCall;
      Climb(next, k + 1, n - 1, e, image, entry);
    }
  }

  lemma {:induction false} ClimbOne(m: Machine, k: nat, e: Event, image: nat, entry: Regs)
    requires Valid(m) && m.stacks == OnLadder(k, entry) && m.current == 0 && 3 + k <= MAX_PCB
    requires IsCall(e, image, entry)
    ensures var n := Step(m, e);
            n.stacks == OnLadder(k + 1, entry) && n.current == 0
  {
    hide OnLadder;
    LadderStep(m, k, image, entry);
    hide Step;
  }

  lemma {:induction false} LadderTop(up: Machine, k: nat, entry: Regs)
    requires Shape(up) && up.stacks == OnLadder(k + 1, entry) && up.current == 0 && k > 0
    ensures var s := up.stacks[0];
            |s| == k + 2 && Top(s).pid == 3 + k && Top(s[..|s| - 1]).pid == 2 + k
  {
    LadderPids(k, entry);
    LadderPids(k + 1, entry);
    assert Ladder(k + 1, entry)[..k + 1] == Ladder(k, entry);
  }

  /** From the machine that `Runs.Boot` leaves: 27 programs that are not shells, each started by the one before,
      bring pid 29 to the top, and its halt leaves its parent without a page in slot 32. */
  lemma {:induction false} SlotIsLost(m: Machine, e: Event, image: nat, entry: Regs, status: Regs)
    requires Valid(m) && m.stacks == FirstShells(TERMINALS) && m.current == 0 && IsCall(e, image, entry)
    ensures var up := Run(m, Calls(27, e));
            && Running(up).pid == 29
            && HaltStep(up, status).userFrame == None && Running(HaltStep(up, status)).pid == 28
  {
    FirstOnLadder(entry);
    hide FirstShells, OnLadder;
    Climb(m, 0, 27, e, image, entry);
    var up := Run(m, Calls(27, e));
    hide Run, Calls, IsCall, Pids;
    LadderTop(up, 26, entry);
    hide StackOk;
  }

  lemma {:induction false} FirstOnLadder(entry: Regs)
    ensures FirstShells(TERMINALS) == OnLadder(0, entry)
  {
  }
}
