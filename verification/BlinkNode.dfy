/** One blinking character: its timer, and when it is lit. */
module BlinkNode {
  import opened Division
  import opened Memory

  type Word = x: int | 0 <= x < 0x1_0000

  const NULL: int := -1
  const CELLS: nat := 2000

  datatype Node = Node(
    location: Word, onChar: Byte, offChar: Byte, onLength: Word, offLength: Word, countdown: Word, status: Word,
    next: int)

  /** The 16-bit decrement, and its sign test. */
  function Decremented(w: Word): Word { (w + 0xFFFF) % 0x1_0000 }

  predicate Positive(w: Word) { 0 < w < 0x8000 }

  predicate Lit(n: Node) { n.status % 2 == 1 }

  predicate Expires(n: Node) { !Positive(Decremented(n.countdown)) }

  /** One call of the tasklet, for one node. */
  function Tick(n: Node): Node {
    if !Expires(n) then n.(countdown := Decremented(n.countdown))
    else if Lit(n) then n.(countdown := n.offLength, status := n.status - 1)
    else n.(countdown := n.onLength, status := n.status + 1)
  }

  function Ticks(n: Node, k: nat): Node { if k == 0 then n else Tick(Ticks(n, k - 1)) }

  /** The number of calls that a length lasts: a length of 0 or above 32768 expires at once. */
  function Lasting(length: Word): nat { if 1 <= length <= 0x8000 then length else 1 }

  /** As `mp1_ioctl_add` starts a node. */
  predicate Started(n: Node) { n.status == 1 && n.countdown == n.onLength }

  lemma {:induction false} NextPhase(k: nat, period: nat)
    requires period > 0
    ensures (k + 1) % period == if k % period + 1 == period then 0 else k % period + 1
  {
    var q, p := k / period, k % period;
    assert k + 1 == q * period + (p + 1);
    if p + 1 == period {
      assert k + 1 == (q + 1) * period + 0;
      DivisionUnique(k + 1, period, q + 1, 0);
    } else {
      DivisionUnique(k + 1, period, q, p + 1);
    }
  }

  /** The node `p` calls into its period: lit for the first part of it, with the matching countdown. */
  function Phase(n: Node, p: nat): Node
    requires p < Lasting(n.onLength) + Lasting(n.offLength)
  {
    var on := Lasting(n.onLength);
    if p < on then n.(status := 1, countdown := n.onLength - p)
    else n.(status := 0, countdown := n.offLength - (p - on))
  }

  lemma {:induction false} PhaseTicks(n: Node, p: nat)
    requires p < Lasting(n.onLength) + Lasting(n.offLength)
    ensures Tick(Phase(n, p)) == Phase(n, if p + 1 == Lasting(n.onLength) + Lasting(n.offLength) then 0 else p + 1)
  {
  }

  /** The place of call `k` in its period. */
  function PlaceIn(k: nat, period: nat): (p: nat)
    requires period > 0
    ensures p < period
  {
    k % period
  }

  lemma {:induction false} PlacesFollow(k: nat, period: nat)
    requires period > 0
    ensures PlaceIn(0, period) == 0
    ensures PlaceIn(k + 1, period) == if PlaceIn(k, period) + 1 == period then 0 else PlaceIn(k, period) + 1
  {
    DivisionUnique(0, period, 0, 0);
    NextPhase(k, period);
  }

  /** After k calls the node is in phase k mod (on + off). */
  lemma {:induction false} BlinkPhase(n: Node, k: nat)
    requires Started(n)
    ensures Ticks(n, k) == Phase(n, PlaceIn(k, Lasting(n.onLength) + Lasting(n.offLength)))
  {
    hide PlaceIn;
    var period := Lasting(n.onLength) + Lasting(n.offLength);
    if k == 0 {
      PlacesFollow(0, period);
      assert n == Phase(n, 0);
    } else {
      BlinkPhase(n, k - 1);
      PlacesFollow(k - 1, period);
      PhaseTicks(n, PlaceIn(k - 1, period));
      hide Phase, Tick, Lasting;
    }
  }

  /** Two nodes run in step. */
  predicate InStep(a: Node, b: Node) {
    a.onLength == b.onLength && a.offLength == b.offLength && a.countdown == b.countdown && a.status == b.status
  }

  lemma {:induction false} InStepForever(a: Node, b: Node, k: nat)
    requires InStep(a, b)
    ensures InStep(Ticks(a, k), Ticks(b, k))
  {
    if k == 0 {
    } else {
      InStepForever(a, b, k - 1);
    }
  }
}
