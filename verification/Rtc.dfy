/** The virtual real-time clocks: one hardware interrupt stream shared by three terminals. */
module Rtc {
  const CLOCKS: nat := 3
  const MAX_FREQUENCY: nat := 1024
  const TWO_32: nat := 0x1_0000_0000

  /** `desired_virtualized_frequency`, `interrupt_flag` (set while a read has to wait), `interrupt_count`, `rtc_idx`. */
  datatype Clocks = Clocks(frequency: seq<nat>, waiting: seq<bool>, count: seq<nat>, idx: nat)

  predicate Ok(c: Clocks) {
    && |c.frequency| == CLOCKS && |c.waiting| == CLOCKS && |c.count| == CLOCKS && c.idx < CLOCKS
    && forall t | 0 <= t < CLOCKS :: 0 < c.frequency[t] <= MAX_FREQUENCY
  }

  function Threshold(frequency: nat): nat
    requires frequency > 0
  {
    MAX_FREQUENCY / (frequency * 3)
  }

  lemma {:induction false} Multiplied(a: int, b: int, d: nat)
    requires a <= b
    ensures a * d <= b * d
  {
    assert (b - a) * d >= 0;
  }

  /** The threshold is the whole number of 1024 Hz interrupts, counted one in three, in a period of the clock. */
  lemma {:induction false} ThresholdIs(frequency: nat)
    requires frequency > 0
    ensures Threshold(frequency) * (3 * frequency) <= 1024 < (Threshold(frequency) + 1) * (3 * frequency)
  {
    var p, d := Threshold(frequency), 3 * frequency;
    assert 1024 == p * d + 1024 % d;
    assert (p + 1) * d == p * d + d;
  }

  /** One more count, of three interrupts each, would be past 1024 interrupts times the period of the clock. */
  predicate PeriodOver(count: nat, frequency: nat) { (count + 1) * (3 * frequency) > 1024 }

  /** A count reaches the threshold exactly then. */
  lemma {:induction false} Reaches(count: nat, frequency: nat)
    requires frequency > 0
    ensures count >= Threshold(frequency) <==> PeriodOver(count, frequency)
  {
    var p, d := Threshold(frequency), 3 * frequency;
    ThresholdIs(frequency);
    hide Threshold;
    if count >= p {
      Multiplied(p + 1, count + 1, d);
    } else {
      Multiplied(count + 1, p, d);
    }
  }

  /** The hardware interrupt while `running` is scheduled; a read returning, a write and an open on terminal `t`. */
  datatype Event = Interrupt(running: nat) | ReadReturns(t: nat) | Write(t: nat, rate: nat) | Open(t: nat)

  predicate Possible(c: Clocks, e: Event)
    requires Ok(c)
  {
    match e
    case Interrupt(running) => running < CLOCKS
    case ReadReturns(t) => t < CLOCKS && !c.waiting[t]
    case Write(t, rate) => t < CLOCKS && 0 < rate <= MAX_FREQUENCY
    case Open(t) => t < CLOCKS
  }

  /** The counters after the interrupt has counted one, before the test. */
  function Counted(c: Clocks): (count: seq<nat>)
    requires Ok(c)
    ensures |count| == CLOCKS
  {
    c.count[c.idx := (c.count[c.idx] + 1) % TWO_32]
  }

  predicate Fires(c: Clocks, running: nat)
    requires Ok(c) && running < CLOCKS
  {
    Counted(c)[running] >= Threshold(c.frequency[running])
  }

  function Step(c: Clocks, e: Event): (n: Clocks)
    requires Ok(c) && Possible(c, e)
    ensures Ok(n)
  {
    match e
    case Interrupt(running) =>
      var n := c.(count := Counted(c), idx := if c.idx < 2 then c.idx + 1 else 0);
      if Fires(c, running) then n.(waiting := n.waiting[running := false], count := n.count[running := 0]) else n
    case ReadReturns(t) => c.(waiting := c.waiting[t := true])
    case Write(t, rate) => c.(frequency := c.frequency[t := rate])
    case Open(t) =>
      c.(frequency := c.frequency[t := 2], count := c.count[t := 0], waiting := c.waiting[t := true])
  }

  ghost predicate PossibleRun(c: Clocks, es: seq<Event>)
    requires Ok(c)
    decreases |es|
  {
    es == [] || (Possible(c, es[0]) && PossibleRun(Step(c, es[0]), es[1..]))
  }

  function Run(c: Clocks, es: seq<Event>): (n: Clocks)
    requires Ok(c) && PossibleRun(c, es)
    ensures Ok(n)
    decreases |es|
  {
    if es == [] then c else Run(Step(c, es[0]), es[1..])
  }

  function Interrupts(es: seq<Event>): nat {
    if es == [] then 0 else (if es[0].Interrupt? then 1 else 0) + Interrupts(es[1..])
  }

  function FiredNow(c: Clocks, e: Event, t: nat): nat
    requires Ok(c) && Possible(c, e)
  {
    if e == Interrupt(t) && Fires(c, t) then 1 else 0
  }

  /** How often the clock of `t` fires in the run. */
  function FireCount(c: Clocks, es: seq<Event>, t: nat): nat
    requires Ok(c) && PossibleRun(c, es)
    decreases |es|
  {
    if es == [] then 0 else FiredNow(c, es[0], t) + FireCount(Step(c, es[0]), es[1..], t)
  }

  function ReadCount(es: seq<Event>, t: nat): nat {
    if es == [] then 0 else (if es[0] == ReadReturns(t) then 1 else 0) + ReadCount(es[1..], t)
  }

  /** No write and no open of `t` in the run: its frequency stays. */
  predicate SteadyNow(e: Event, t: nat) { e != Open(t) && !(e.Write? && e.t == t) }

  predicate Steady(es: seq<Event>, t: nat) {
    es == [] || (SteadyNow(es[0], t) && Steady(es[1..], t))
  }

  /** Interrupts that count for `t` among the next `n`, when the next one counts for `idx`. */
  function CountsFor(idx: nat, n: nat, t: nat): nat
    decreases n
  {
    if n == 0 then 0 else (if idx == t then 1 else 0) + CountsFor(if idx < 2 then idx + 1 else 0, n - 1, t)
  }

  function NextIdx(idx: nat): nat { if idx < 2 then idx + 1 else 0 }

  lemma {:induction false} EveryThird(idx: nat, n: nat, t: nat)
    requires idx < CLOCKS && t < CLOCKS
    ensures n / 3 <= CountsFor(idx, n, t) <= (n + 2) / 3
    decreases n
  {
    var a := NextIdx(idx);
    var b := NextIdx(a);
    if n >= 3 {
      EveryThird(idx, n - 3, t);
      assert NextIdx(b) == idx;
      assert CountsFor(b, n - 2, t) == (if b == t then 1 else 0) + CountsFor(idx, n - 3, t);
      assert CountsFor(a, n - 1, t) == (if a == t then 1 else 0) + CountsFor(b, n - 2, t);
    } else {
      assert CountsFor(a, 0, t) == CountsFor(b, 0, t) == 0;
      assert CountsFor(a, 1, t) == (if a == t then 1 else 0) + CountsFor(b, 0, t);
    }
  }

  lemma {:induction false} FireUsesCounts(c: Clocks, e: Event, t: nat)
    requires Ok(c) && Possible(c, e) && t < CLOCKS && SteadyNow(e, t)
    ensures var n := Step(c, e);
            && n.frequency[t] == c.frequency[t]
            && n.idx == (if e.Interrupt? then NextIdx(c.idx) else c.idx)
            && FiredNow(c, e, t) * Threshold(c.frequency[t]) + n.count[t]
                 <= c.count[t] + (if e.Interrupt? && c.idx == t then 1 else 0)
  {
    hide Threshold;
  }

  lemma {:induction false} Distribute(a: nat, b: nat, p: nat)
    ensures (a + b) * p == a * p + b * p
  {
  }

  /** Every firing uses up a threshold of counts. */
  lemma {:induction false} FiresUseCounts(c: Clocks, es: seq<Event>, t: nat)
    requires Ok(c) && PossibleRun(c, es) && t < CLOCKS && Steady(es, t)
    ensures FireCount(c, es, t) * Threshold(c.frequency[t]) + Run(c, es).count[t]
              <= c.count[t] + CountsFor(c.idx, Interrupts(es), t)
    decreases |es|
  {
    if es == [] {
    } else {
      hide Threshold;
      var n := Step(c, es[0]);
      FireUsesCounts(c, es[0], t);
      FiresUseCounts(n, es[1..], t);
      Distribute(FiredNow(c, es[0], t), FireCount(n, es[1..], t), Threshold(c.frequency[t]));
    }
  }

  /** Reads return at most once for each firing. */
  lemma {:induction false} ReadsNeedFires(c: Clocks, es: seq<Event>, t: nat)
    requires Ok(c) && PossibleRun(c, es) && t < CLOCKS && Steady(es, t)
    ensures ReadCount(es, t) + (if Run(c, es).waiting[t] then 0 else 1)
              <= FireCount(c, es, t) + (if c.waiting[t] then 0 else 1)
    decreases |es|
  {
    if es == [] {
    } else {
      ReadsNeedFires(Step(c, es[0]), es[1..], t);
    }
  }

  /** The interrupts that find terminal `t` scheduled. */
  function Scheduled(es: seq<Event>, t: nat): nat {
    if es == [] then 0 else (if es[0] == Interrupt(t) then 1 else 0) + Scheduled(es[1..], t)
  }

  /** A clock fires only while its terminal is scheduled, and above 341 Hz, where the threshold is 0, at each of
      those interrupts. */
  lemma {:induction false} FiresScheduled(c: Clocks, es: seq<Event>, t: nat)
    requires Ok(c) && PossibleRun(c, es) && t < CLOCKS && Steady(es, t)
    ensures FireCount(c, es, t) <= Scheduled(es, t)
    ensures c.frequency[t] > 341 ==> FireCount(c, es, t) == Scheduled(es, t)
    decreases |es|
  {
    if es == [] {
    } else {
      ThresholdZero(c.frequency[t]);
      hide Threshold;
      FiresScheduled(Step(c, es[0]), es[1..], t);
    }
  }

  lemma {:induction false} ThresholdZero(frequency: nat)
    requires frequency > 0
    ensures Threshold(frequency) == 0 <==> frequency > 341
  {
  }

  /** The rate bound: in N hardware interrupts from the state an open leaves, the clock of `t` fires, and its
      reads return, at most (N + 2) / 3P times, P being the threshold of its frequency; and not more often than its
      terminal is scheduled, which at 512 and 1024 Hz is how often it fires. */
  lemma {:induction false} RateBound(c: Clocks, es: seq<Event>, t: nat)
    requires Ok(c) && PossibleRun(c, es) && t < CLOCKS && Steady(es, t)
    requires c.count[t] == 0 && c.waiting[t]
    ensures ReadCount(es, t) <= FireCount(c, es, t)
    ensures FireCount(c, es, t) * Threshold(c.frequency[t]) <= (Interrupts(es) + 2) / 3
    ensures FireCount(c, es, t) <= Scheduled(es, t)
    ensures c.frequency[t] > 341 ==> FireCount(c, es, t) == Scheduled(es, t)
    ensures FireCount(c, es, t) * (1025 - 3 * c.frequency[t] as int) <= c.frequency[t] * (Interrupts(es) + 2)
  {
    FiresScheduled(c, es, t);
    FiresUseCounts(c, es, t);
    ReadsNeedFires(c, es, t);
    EveryThird(c.idx, Interrupts(es), t);
    RateInHertz(FireCount(c, es, t), c.frequency[t], Interrupts(es));
  }

  lemma {:induction false} RateInHertz(fires: nat, frequency: nat, n: nat)
    requires frequency > 0
    ensures fires * Threshold(frequency) <= (n + 2) / 3 ==> fires * (1025 - 3 * frequency as int) <= frequency * (n + 2)
  {
    var p := Threshold(frequency);
    ThresholdIs(frequency);
    hide Threshold;
    assert (p + 1) * (3 * frequency) == p * (3 * frequency) + 3 * frequency;
    Multiplied(1025 - 3 * frequency as int, p * (3 * frequency), fires);
    if fires * p <= (n + 2) / 3 {
      Multiplied(3 * (fires * p), n + 2, frequency);
      assert fires * (p * (3 * frequency)) == 3 * (fires * p) * frequency;
    }
  }

  lemma {:induction false} CountsOne(c: Clocks, e: Event, t: nat)
    requires Ok(c) && Possible(c, e) && t < CLOCKS && SteadyNow(e, t) && FiredNow(c, e, t) == 0
    requires c.count[t] + (if e.Interrupt? then 1 else 0) < TWO_32
    ensures var n := Step(c, e);
            && n.frequency[t] == c.frequency[t] && n.idx == (if e.Interrupt? then NextIdx(c.idx) else c.idx)
            && n.count[t] == c.count[t] + (if e.Interrupt? && c.idx == t then 1 else 0)
  {
    hide Threshold;
  }

  /** Without a firing and without a wrap of the counter, the counts of `t` add up. */
  lemma {:induction false} CountsAddUp(c: Clocks, es: seq<Event>, t: nat)
    requires Ok(c) && PossibleRun(c, es) && t < CLOCKS && Steady(es, t) && FireCount(c, es, t) == 0
    requires c.count[t] + Interrupts(es) < TWO_32
    ensures Run(c, es).count[t] == c.count[t] + CountsFor(c.idx, Interrupts(es), t)
    ensures Run(c, es).frequency[t] == c.frequency[t]
    decreases |es|
  {
    if es == [] {
    } else {
      CountsOne(c, es[0], t);
      var n := Step(c, es[0]);
      hide Threshold, Step, Fires, FiredNow, Ok;
      CountsAddUp(n, es[1..], t);
    }
  }

  lemma {:induction false} RunSplits(c: Clocks, a: seq<Event>, b: seq<Event>, t: nat)
    requires Ok(c) && PossibleRun(c, a + b)
    ensures PossibleRun(c, a) && PossibleRun(Run(c, a), b)
    ensures FireCount(c, a + b, t) == FireCount(c, a, t) + FireCount(Run(c, a), b, t)
    ensures Steady(a + b, t) <==> Steady(a, t) && Steady(b, t)
    ensures Interrupts(a + b) == Interrupts(a) + Interrupts(b)
    decreases |a|
  {
    if a == [] {
      assert a + b == b;
    } else {
      assert (a + b)[0] == a[0] && (a + b)[1..] == a[1..] + b;
      RunSplits(Step(c, a[0]), a[1..], b, t);
    }
  }

  /** The gap bound: once 3P interrupts have passed, the clock fires the next time `t` is the one scheduled, at
      the latest. So when `t` is scheduled in any W interrupts, two firings are at most 3P + W apart. */
  lemma {:induction false} GapBound(c: Clocks, long: seq<Event>, rest: seq<Event>, t: nat)
    requires Ok(c) && t < CLOCKS && PossibleRun(c, long + rest) && Steady(long + rest, t)
    requires Interrupts(long) >= 3 * Threshold(c.frequency[t])
    requires exists i :: 0 <= i < |rest| && rest[i] == Interrupt(t)
    requires c.count[t] + Interrupts(long + rest) < TWO_32
    ensures FireCount(c, long + rest, t) >= 1
  {
    var i :| 0 <= i < |rest| && rest[i] == Interrupt(t);
    var a, b := long + rest[..i], rest[i..];
    assert long + rest == a + b;
    RunSplits(c, a, b, t);
    RunSplits(c, long, rest[..i], t);
    hide Threshold, CountsFor, Interrupts, Run, Steady;
    if FireCount(c, a, t) == 0 {
      CountsAddUp(c, a, t);
      EveryThird(c.idx, Interrupts(a), t);
      FiresAtOnce(Run(c, a), b, t);
    }
  }

  lemma {:induction false} FiresAtOnce(c: Clocks, es: seq<Event>, t: nat)
    requires Ok(c) && t < CLOCKS && PossibleRun(c, es) && es != [] && es[0] == Interrupt(t)
    requires Threshold(c.frequency[t]) <= c.count[t] < TWO_32 - 1
    ensures FireCount(c, es, t) >= 1
  {
    hide Threshold;
    assert Counted(c)[t] >= c.count[t];
  }

  /** Terminal `t` is scheduled at least once in any stretch with `w` interrupts. */
  ghost predicate Regular(es: seq<Event>, t: nat, w: nat) {
    forall i, j | 0 <= i <= j <= |es| && Interrupts(es[i..j]) >= w ::
      exists k :: i <= k < j && es[k] == Interrupt(t)
  }

  /** A stretch of exactly `n` interrupts at the front. */
  lemma {:induction false} FirstInterrupts(es: seq<Event>, n: nat) returns (i: nat)
    requires Interrupts(es) >= n
    ensures i <= |es| && Interrupts(es[..i]) == n && Interrupts(es[i..]) == Interrupts(es) - n
  {
    if n == 0 {
      i := 0;
      assert es[0..] == es && es[..0] == [];
    } else {
      var j := FirstInterrupts(es[1..], if es[0].Interrupt? then n - 1 else n);
      i := j + 1;
      assert es[..i] == [es[0]] + es[1..][..j] && es[i..] == es[1..][j..];
      assert es[..i][1..] == es[1..][..j];
    }
  }

  lemma {:induction false} FiringResets(c: Clocks, t: nat)
    requires Ok(c) && t < CLOCKS && Possible(c, Interrupt(t)) && Fires(c, t)
    ensures Step(c, Interrupt(t)).count[t] == 0 && Step(c, Interrupt(t)).frequency[t] == c.frequency[t]
  {
    hide Threshold;
  }

  lemma {:induction false} GapInHertz(gap: int, frequency: nat)
    requires frequency > 0
    ensures gap < 3 * Threshold(frequency) ==> gap * frequency < 1024
  {
    var p := Threshold(frequency);
    ThresholdIs(frequency);
    hide Threshold;
    assert p * (3 * frequency) == (3 * p) * frequency == (3 * p - 1) * frequency + frequency;
    if gap < 3 * p {
      Multiplied(gap, 3 * p - 1, frequency);
    }
  }

  /** The distance of successive firings: from the interrupt at which the clock of `t` fires to its next firing less
      than 3P + W interrupts pass, when `t` is scheduled in any W. */
  lemma {:induction false} FiringsApart(c: Clocks, between: seq<Event>, t: nat, w: nat)
    requires Ok(c) && t < CLOCKS && Possible(c, Interrupt(t)) && Fires(c, t)
    requires var n := Step(c, Interrupt(t)); PossibleRun(n, between) && FireCount(n, between, t) == 0
    requires Steady(between, t) && Regular(between, t, w) && Interrupts(between) < TWO_32
    ensures Interrupts(between) < 3 * Threshold(c.frequency[t]) + w
  {
    var n := Step(c, Interrupt(t));
    var p := 3 * Threshold(c.frequency[t]);
    FiringResets(c, t);
    hide Threshold, Fires, Step, Run, FireCount, PossibleRun, Interrupts, Steady;
    if Interrupts(between) >= p + w {
      var i := FirstInterrupts(between, p);
      var long, rest := between[..i], between[i..];
      assert long + rest == between && between[i..|between|] == rest;
      var k :| i <= k < |between| && between[k] == Interrupt(t);
      assert rest[k - i] == Interrupt(t);
      GapBound(n, long, rest, t);
      assert false;
    }
  }

  /** In terms of the frequency: less than 1024 / f + W hardware interrupts. */
  lemma {:induction false} PeriodBound(c: Clocks, between: seq<Event>, t: nat, w: nat)
    requires Ok(c) && t < CLOCKS && Possible(c, Interrupt(t)) && Fires(c, t)
    requires var n := Step(c, Interrupt(t)); PossibleRun(n, between) && FireCount(n, between, t) == 0
    requires Steady(between, t) && Regular(between, t, w) && Interrupts(between) < TWO_32
    ensures (Interrupts(between) - w) * c.frequency[t] < 1024
  {
    FiringsApart(c, between, t, w);
    GapInHertz(Interrupts(between) - w, c.frequency[t]);
  }

  // ----- the driver -----

  /** The bitwise and of two numbers. */
  function And(a: nat, b: nat): nat
    decreases a
  {
    if a == 0 then 0 else (if a % 2 == 1 && b % 2 == 1 then 1 else 0) + 2 * And(a / 2, b / 2)
  }

  predicate PowerOfTwo(x: nat) { x == 1 || (x > 0 && x % 2 == 0 && PowerOfTwo(x / 2)) }

  lemma {:induction false} AndItself(x: nat)
    ensures And(x, x) == x
  {
    if x == 0 {
    } else {
      AndItself(x / 2);
    }
  }

  /** The bit test accepts the powers of two and nothing else. */
  lemma {:induction false} BitTest(x: nat)
    requires x > 0
    ensures And(x, x - 1) == 0 <==> PowerOfTwo(x)
  {
    if x % 2 == 1 {
      AndItself(x / 2);
      assert (x - 1) / 2 == x / 2;
    } else {
      BitTest(x / 2);
      assert (x - 1) / 2 == x / 2 - 1;
    }
  }

  lemma {:induction false} RatesAre(x: nat)
    requires 0 < x <= 1024
    ensures PowerOfTwo(x) <==> x in {1, 2, 4, 8, 16, 32, 64, 128, 256, 512, 1024}
  {
    if x > 1 && x % 2 == 0 {
      RatesAre(x / 2);
    }
  }

  predicate IsRate(rate: int) { 0 < rate <= MAX_FREQUENCY && PowerOfTwo(rate) }

  class Driver {
    const frequency: array<nat>
    const flag: array<nat>
    const count: array<nat>
    var idx: nat

    ghost predicate Valid()
      reads this, frequency, flag, count
    {
      && frequency.Length == CLOCKS && flag.Length == CLOCKS && count.Length == CLOCKS
      && frequency != flag && frequency != count && flag != count
      && Ok(State())
    }

    ghost function State(): Clocks
      requires frequency.Length == CLOCKS && flag.Length == CLOCKS && count.Length == CLOCKS
      reads this, frequency, flag, count
    {
      Clocks(frequency[..], [flag[0] == 1, flag[1] == 1, flag[2] == 1], count[..], idx)
    }

    /** The counting part of `rtc_handler`: one of the three counters in turn. */
    method CountOne()
      requires Valid()
      modifies this`idx, count
      ensures Valid() && idx == (old(idx) + 1) % 3
      ensures count[..] == old(count[..])[old(idx) := (old(count[idx]) + 1) % 0x1_0000_0000]
    {
      count[idx] := (count[idx] + 1) % TWO_32;
      if idx < 2 {
        idx := idx + 1;
      } else {
        idx := 0;
      }
    }

    /** The test behind it, for the running terminal. */
    method Fire(running: nat)
      requires Valid() && running < CLOCKS
      modifies flag, count
      ensures Valid()
      ensures if PeriodOver(old(count[running]), frequency[running]) then
                flag[..] == old(flag[..])[running := 0] && count[..] == old(count[..])[running := 0]
              else
                flag[..] == old(flag[..]) && count[..] == old(count[..])
    {
      hide PeriodOver;
      Reaches(count[running], frequency[running]);
      var threshold := MAX_FREQUENCY / (frequency[running] * 3);
      assert threshold == Threshold(frequency[running]);
      hide Threshold;
      if count[running] >= threshold {
        flag[running] := 0;
        count[running] := 0;
      }
    }

    /** `rtc_handler`, while terminal `running` is scheduled: counts for the terminal whose turn it is, and lets the
        running terminal's clock fire when its period is over. */
    method Handler(running: nat)
      requires Valid() && running < CLOCKS
      modifies this`idx, flag, count
      ensures Valid() && State() == Step(old(State()), Interrupt(running))
      ensures idx == (old(idx) + 1) % 3
      ensures var counted := old(count[..])[old(idx) := (old(count[idx]) + 1) % 0x1_0000_0000];
              if PeriodOver(counted[running], frequency[running]) then
                flag[..] == old(flag[..])[running := 0] && count[..] == counted[running := 0]
              else
                flag[..] == old(flag[..]) && count[..] == counted
    {
      hide PeriodOver, Threshold;
      CountOne();
      Reaches(count[running], frequency[running]);
      Fire(running);
    }

    /** The end of `rtc_read`, when its wait is over. */
    method ReadEnds(t: nat)
      requires Valid() && t < CLOCKS && flag[t] != 1
      modifies flag
      ensures Valid() && State() == Step(old(State()), ReadReturns(t))
      ensures flag[..] == old(flag[..])[t := 1]
    {
      flag[t] := 1;
    }

    /** `rtc_write`: accepts four bytes that hold a power of two up to 1024. */
    method SetRate(t: nat, rate: int, nbytes: int) returns (result: int)
      requires Valid() && t < CLOCKS
      modifies frequency
      ensures Valid()
      ensures nbytes == 4 && IsRate(rate) ==> result == 0 && State() == Step(old(State()), Write(t, rate))
      ensures !(nbytes == 4 && IsRate(rate)) ==> result == -1 && State() == old(State())
      ensures result == 0 <==> nbytes == 4 && rate in {1, 2, 4, 8, 16, 32, 64, 128, 256, 512, 1024}
      ensures frequency[..] == if result == 0 then old(frequency[..])[t := rate] else old(frequency[..])
    {
      if nbytes != 4 || rate > MAX_FREQUENCY || rate <= 0 {
        return -1;
      }
      BitTest(rate);
      RatesAre(rate);
      if And(rate, rate - 1) != 0 {
        return -1;
      }
      frequency[t] := rate;
      result := 0;
    }

    /** What `rtc_open` does to the clock, whether or not a descriptor is free. */
    method Restart(t: nat)
      requires Valid() && t < CLOCKS
      modifies frequency, flag, count
      ensures Valid() && State() == Step(old(State()), Open(t))
      ensures frequency[..] == old(frequency[..])[t := 2] && count[..] == old(count[..])[t := 0]
      ensures flag[..] == old(flag[..])[t := 1]
    {
      frequency[t] := 2;
      count[t] := 0;
      flag[t] := 1;
    }

    /** Any interleaving of interrupts and calls on the three clocks. */
    method Serve(es: seq<Event>)
      requires Valid() && PossibleRun(State(), es) && forall e | e in es :: e.Write? ==> IsRate(e.rate)
      modifies this`idx, frequency, flag, count
      ensures Valid() && State() == Run(old(State()), es)
    {
      ghost var start := State();
      var i := 0;
      while i < |es|
        invariant 0 <= i <= |es| && Valid() && PossibleRun(State(), es[i..]) && Run(State(), es[i..]) == Run(start, es)
      {
        assert es[i..][0] == es[i] && es[i..][1..] == es[i + 1..];
        match es[i] {
          case Interrupt(running) => Handler(running);
          case ReadReturns(t) => ReadEnds(t);
          case Write(t, rate) => var result := SetRate(t, rate, 4);
          case Open(t) => Restart(t);
        }
        i := i + 1;
      }
    }
  }
}
