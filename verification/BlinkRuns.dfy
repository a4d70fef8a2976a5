/** The blink list over any sequence of calls: the pool and its links are a bounded sequence of nodes, until a slot is
  linked twice. */
module BlinkRuns {
  import opened Memory
  import opened BlinkNode
  import opened BlinkList

  /** A node without its link. */
  function Bare(n: Node): Node { n.(next := NULL) }

  /** What the pool holds, in list order. */
  function Contents(pool: Pool, list: seq<nat>): (nodes: seq<Node>)
    requires |pool| == CELLS && forall k | 0 <= k < |list| :: list[k] < CELLS
    ensures |nodes| == |list|
  {
    seq(|list|, k requires 0 <= k < |list| => Bare(pool[list[k]]))
  }

  // ----- the calls on a sequence -----

  datatype Call = Add(user: Node) | Remove(location: Word) | Sync(source: Word, target: Word) | Tasklet

  function FirstAt(nodes: seq<Node>, location: Word, k: nat): (p: nat)
    requires k <= |nodes|
    ensures k <= p <= |nodes|
    decreases |nodes| - k
  {
    if k == |nodes| || nodes[k].location == location then k else FirstAt(nodes, location, k + 1)
  }

  function Begun(user: Node): Node { Bare(user).(countdown := user.onLength, status := 1) }

  function Done(nodes: seq<Node>, c: Call): seq<Node> {
    match c
    case Add(user) => if user.location >= CELLS || |nodes| >= CELLS then nodes else [Begun(user)] + nodes
    case Remove(location) =>
      var p := FirstAt(nodes, location, 0);
      if p == |nodes| then nodes else Without(nodes, p)
    case Sync(source, target) =>
      var p, q := FirstAt(nodes, source, 0), FirstAt(nodes, target, 0);
      if p == |nodes| || q == |nodes| then nodes else nodes[q := Synced(nodes[q], nodes[p])]
    case Tasklet => seq(|nodes|, k requires 0 <= k < |nodes| => Tick(nodes[k]))
  }

  function DoneAll(nodes: seq<Node>, cs: seq<Call>): seq<Node>
    decreases |cs|
  {
    if cs == [] then nodes else DoneAll(Done(nodes, cs[0]), cs[1..])
  }

  // ----- slots, and when a slot is linked twice -----

  /** The nodes with their slots. */
  datatype Held = Held(slots: seq<nat>, nodes: seq<Node>)

  ghost predicate Taken(h: Held, i: nat)
    requires |h.slots| == |h.nodes|
  {
    exists k :: 0 <= k < |h.slots| && h.slots[k] == i && h.nodes[k].location != 0
  }

  /** The first slot from `i` on that no node holds, but for nodes at location 0. */
  ghost function Open(h: Held, i: nat): (slot: nat)
    requires i <= CELLS && |h.slots| == |h.nodes|
    ensures i <= slot <= CELLS && (slot < CELLS ==> !Taken(h, slot))
    decreases CELLS - i
  {
    if i == CELLS || !Taken(h, i) then i else Open(h, i + 1)
  }

  ghost function Next(h: Held, c: Call): (r: Held)
    requires |h.slots| == |h.nodes|
    ensures |r.slots| == |r.nodes|
  {
    var nodes := Done(h.nodes, c);
    Held(if |nodes| > |h.nodes| then [Open(h, 0)] + h.slots
         else if |nodes| < |h.nodes| then Without(h.slots, FirstAt(h.nodes, c.location, 0))
         else h.slots, nodes)
  }

  /** The call links a slot that is linked already. */
  ghost predicate Loops(h: Held, c: Call)
    requires |h.slots| == |h.nodes|
  {
    c.Add? && c.user.location < CELLS && Open(h, 0) < CELLS && Open(h, 0) in h.slots
  }

  /** No call of the sequence does. */
  ghost predicate NeverLoops(h: Held, cs: seq<Call>)
    requires |h.slots| == |h.nodes|
    decreases |cs|
  {
    cs == [] || (!Loops(h, cs[0]) && NeverLoops(Next(h, cs[0]), cs[1..]))
  }

  ghost predicate NoZero(nodes: seq<Node>) { forall k | 0 <= k < |nodes| :: nodes[k].location != 0 }


  lemma {:induction false} DoneAllKeepsNoZero(nodes: seq<Node>, cs: seq<Call>)
    requires NoZero(nodes) && forall c | c in cs :: c.Add? ==> c.user.location != 0
    ensures NoZero(DoneAll(nodes, cs))
    decreases |cs|
  {
    if cs == [] {
    } else {
      assert cs[0] in cs;
      DoneAllKeepsNoZero(Done(nodes, cs[0]), cs[1..]);
    }
  }

  lemma {:induction false} NoZeroIsExact(pool: Pool, list: seq<nat>)
    requires Covered(pool, list) && NoZero(Contents(pool, list))
    ensures Exact(pool, list)
  {
    forall i: nat | i < CELLS && i in list ensures pool[i].location != 0 {
      var k :| 0 <= k < |list| && list[k] == i;
      assert Contents(pool, list)[k].location != 0;
    }
  }

  /** Sequences that put nothing at location 0 never do. */
  lemma {:induction false} NoZeroNeverLoops(h: Held, cs: seq<Call>)
    requires |h.slots| == |h.nodes| && NoZero(h.nodes) && forall c | c in cs :: c.Add? ==> c.user.location != 0
    ensures NeverLoops(h, cs)
    decreases |cs|
  {
    if cs == [] {
    } else {
      assert cs[0] in cs;
      if Loops(h, cs[0]) {
        var k :| 0 <= k < |h.slots| && h.slots[k] == Open(h, 0);
        assert Taken(h, h.slots[k]);
      }
      NoZeroNeverLoops(Next(h, cs[0]), cs[1..]);
    }
  }

  // ----- a full list is a full pool -----

  function Slots(n: nat): (s: set<nat>)
    ensures |s| == n && forall i: nat :: i in s <==> i < n
  {
    if n == 0 then {} else Slots(n - 1) + {n - 1}
  }

  function Members(list: seq<nat>): (s: set<nat>)
    ensures forall i :: i in s <==> i in list
    ensures |s| <= |list|
  {
    if list == [] then {} else Members(list[1..]) + {list[0]}
  }

  lemma {:induction false} DistinctSize(list: seq<nat>)
    requires Distinct(list)
    ensures |Members(list)| == |list|
  {
    if list == [] {
    } else {
      assert list[0] !in list[1..];
      DistinctSize(list[1..]);
    }
  }

  lemma {:induction false} SubsetFills(a: set<nat>, b: set<nat>)
    requires a <= b
    ensures |a| <= |b| && (|a| == |b| ==> a == b)
  {
    assert b == a + (b - a);
  }

  /** Distinct slots below `n` are at most `n`, and `n` only when they are all of them. */
  lemma {:induction false} DistinctBelow(list: seq<nat>, n: nat)
    requires Distinct(list) && Members(list) <= Slots(n)
    ensures |list| <= n && (|list| == n <==> Slots(n) <= Members(list))
  {
    DistinctSize(list);
    hide Distinct, Members, Slots;
    var some, all := Members(list), Slots(n);
    SubsetFills(some, all);
    if all <= some {
      SubsetFills(all, some);
    }
  }

  /** A list of 2000 nodes takes all slots, and without a free slot there are 2000 nodes. */
  lemma {:induction false} FullPool(pool: Pool, head: int, list: seq<nat>)
    requires Linked(pool, head, list) && Covered(pool, list)
    ensures |list| <= CELLS && (FreeSlot(pool, 0) == CELLS ==> |list| == CELLS)
    ensures |list| == CELLS ==> FreeSlot(pool, 0) == CELLS || FreeSlot(pool, 0) in list
  {
    hide Slots, Members, FreeSlot;
    var free := FreeSlot(pool, 0);
    forall i | i in Members(list) ensures i in Slots(CELLS) {
      var k :| 0 <= k < |list| && list[k] == i;
    }
    DistinctBelow(list, CELLS);
    if free == CELLS {
      assert forall i | i in Slots(CELLS) :: i in Members(list);
    } else if free !in list {
      assert free in Slots(CELLS) && free !in Members(list);
    }
  }

  /** What the pool holds, with the slots. */
  ghost function HeldIn(pool: Pool, list: seq<nat>): (h: Held)
    requires |pool| == CELLS && InRangeList(list)
    ensures |h.slots| == |h.nodes|
  {
    Held(list, Contents(pool, list))
  }

  lemma {:induction false} OpenIsFree(pool: Pool, list: seq<nat>, i: nat)
    requires Covered(pool, list) && i <= CELLS
    ensures Open(HeldIn(pool, list), i) == FreeSlot(pool, i)
    decreases CELLS - i
  {
    if i < CELLS {
      OpenIsFree(pool, list, i + 1);
    }
  }


  // ----- each call -----

  lemma {:induction false} SamePlace(pool: Pool, list: seq<nat>, location: Word, k: nat)
    requires |pool| == CELLS && k <= |list| && forall j | 0 <= j < |list| :: list[j] < CELLS
    ensures FirstAt(Contents(pool, list), location, k) == Place(pool, list, location, k)
    decreases |list| - k
  {
    if k == |list| || pool[list[k]].location == location {
    } else {
      SamePlace(pool, list, location, k + 1);
    }
  }

  predicate InRangeList(list: seq<nat>) { forall k | 0 <= k < |list| :: list[k] < CELLS }

  /** What a call of any kind leaves. */
  ghost predicate Follows(h: Held, c: Call, pool: Pool, list: seq<nat>) {
    |h.slots| == |h.nodes| && |pool| == CELLS && InRangeList(list) && HeldIn(pool, list) == Next(h, c)
  }

  /** An add, exactly when it does not link a slot twice. */
  method ServeAdd(b: Blinker, user: Node)
    requires b.Sound() && InRangeList(b.list)
    modifies b`head, b`list, b.pool, b.screen
    ensures var h := old(HeldIn(b.pool[..], b.list));
            if Loops(h, Add(user)) then forall l: seq<nat> :: !Linked(b.pool[..], b.head, l)
            else b.Sound() && Follows(h, Add(user), b.pool[..], b.list)
  {
    ghost var was, list := b.pool[..], b.list;
    FullPool(was, b.head, list);
    OpenIsFree(was, list, 0);
    var result := b.Add(user);
    hide Linked, Covered, FreeSlot, Open;
    if result == 0 && FreeSlot(was, 0) !in list {
      AddedContents(was, list, b.pool[..], b.list, user);
    }
  }

  lemma {:induction false} AddedContents(was: Pool, list: seq<nat>, now: Pool, longer: seq<nat>, user: Node)
    requires |was| == |now| == CELLS && InRangeList(list) && InRangeList(longer) && |longer| > 0
    requires longer == [longer[0]] + list && longer[0] !in list
    requires exists next: int ::
               now == was[longer[0] := user.(countdown := user.onLength, status := 1, next := next)]
    ensures Contents(now, longer) == [Begun(user)] + Contents(was, list)
  {
    var a, c := Contents(now, longer), [Begun(user)] + Contents(was, list);
    forall k | 0 <= k < |longer| ensures a[k] == c[k] {
      if k > 0 { assert longer[k] == list[k - 1] && list[k - 1] in list; }
    }
  }

  method ServeRemove(b: Blinker, location: Word)
    requires b.Sound() && InRangeList(b.list)
    modifies b`head, b`list, b.pool
    ensures b.Sound() && Follows(old(HeldIn(b.pool[..], b.list)), Remove(location), b.pool[..], b.list)
  {
    SamePlace(b.pool[..], b.list, location, 0);
    ghost var was, list, k := b.pool[..], b.list, Place(b.pool[..], b.list, location, 0);
    if k < |list| { DistinctPlaces(was, b.head, list, k); }
    var result := b.Remove(location);
    hide Linked, Exact, Covered;
    if k < |list| {
      RemovedContents(was, list, k, b.pool[..]);
    }
  }

  lemma {:induction false} RemovedContents(was: Pool, list: seq<nat>, k: nat, now: Pool)
    requires |was| == |now| == CELLS && InRangeList(list) && Distinct(list) && k < |list| && Unlinked(now, was, list, k)
    ensures InRangeList(Without(list, k)) && Contents(now, Without(list, k)) == Without(Contents(was, list), k)
  {
    var r := Without(list, k);
    forall j | 0 <= j < |r| ensures r[j] < CELLS && r[j] == list[if j < k then j else j + 1] {
    }
    var a, c := Contents(now, r), Without(Contents(was, list), k);
    forall j | 0 <= j < |r| ensures a[j] == c[j] {
      var i := if j < k then j else j + 1;
      assert list[i] != list[k];
    }
  }

  method ServeSync(b: Blinker, source: Word, target: Word)
    requires b.Sound() && InRangeList(b.list)
    modifies b.pool, b.screen
    ensures b.Sound() && b.list == old(b.list) && b.head == old(b.head)
    ensures Follows(old(HeldIn(b.pool[..], b.list)), Sync(source, target), b.pool[..], b.list)
  {
    SamePlace(b.pool[..], b.list, source, 0);
    SamePlace(b.pool[..], b.list, target, 0);
    ghost var was, list := b.pool[..], b.list;
    hide Linked, Exact, Covered, Place, FirstAt, Contents, Synced, BlinkList.Shown, InStep, Lit, Follows;
    var result := b.Sync(source, target);
  }


  method ServeTasklet(b: Blinker)
    requires b.Sound() && InRangeList(b.list)
    modifies b.pool, b.screen
    ensures b.Sound() && b.list == old(b.list) && b.head == old(b.head)
    ensures Follows(old(HeldIn(b.pool[..], b.list)), Tasklet, b.pool[..], b.list)
  {
    ghost var was := b.pool[..];
    b.Tasklet();
    hide Linked, Exact, Covered;
  }


  method ServeOne(b: Blinker, c: Call)
    requires b.Sound() && InRangeList(b.list)
    modifies b`head, b`list, b.pool, b.screen
    ensures var h := old(HeldIn(b.pool[..], b.list));
            if Loops(h, c) then forall l: seq<nat> :: !Linked(b.pool[..], b.head, l)
            else b.Sound() && Follows(h, c, b.pool[..], b.list)
  {
    hide Blinker.Sound, Contents, Done, Follows, Open, Linked;
    match c {
      case Add(user) => ServeAdd(b, user);
      case Remove(location) => ServeRemove(b, location);
      case Sync(source, target) => ServeSync(b, source, target);
      case Tasklet => ServeTasklet(b);
    }
  }


  /** Any sequence of calls that never links a slot twice does to the pool what it does to a sequence of at most 2000
      nodes; with `ServeOne`, the first call that does leaves no walk that ends. */
  method Serve(b: Blinker, cs: seq<Call>)
    requires b.Sound() && InRangeList(b.list) && NeverLoops(HeldIn(b.pool[..], b.list), cs)
    modifies b`head, b`list, b.pool, b.screen
    ensures b.Sound() && InRangeList(b.list)
    ensures Contents(b.pool[..], b.list) == DoneAll(old(Contents(b.pool[..], b.list)), cs)
  {
    ghost var nodes := Contents(b.pool[..], b.list);
    hide Contents, Done, DoneAll, InRangeList, Next, Loops, NeverLoops, Linked, Covered;
    var i := 0;
    assert cs[0..] == cs;
    while i < |cs|
      invariant 0 <= i <= |cs| && b.Sound() && InRangeList(b.list)
      invariant NeverLoops(HeldIn(b.pool[..], b.list), cs[i..])
      invariant DoneAll(Contents(b.pool[..], b.list), cs[i..]) == DoneAll(nodes, cs)
    {
      ServeOne(b, cs[i]);
      i := i + 1;
    }
  }

  /** In particular any sequence that adds nothing at location 0. */
  method ServeNonZero(b: Blinker, cs: seq<Call>)
    requires b.Valid() && forall c | c in cs :: c.Add? ==> c.user.location != 0
    modifies b`head, b`list, b.pool, b.screen
    ensures b.Valid() && InRangeList(b.list) && InRangeList(old(b.list))
    ensures Contents(b.pool[..], b.list) == DoneAll(old(Contents(b.pool[..], b.list)), cs)
  {
    ghost var h := HeldIn(b.pool[..], b.list);
    forall k | 0 <= k < |h.nodes| ensures h.nodes[k].location != 0 {
      assert b.list[k] in b.list;
    }
    hide Contents, DoneAll, Linked, Covered, Exact;
    NoZeroNeverLoops(h, cs);
    DoneAllKeepsNoZero(h.nodes, cs);
    Serve(b, cs);
    NoZeroIsExact(b.pool[..], b.list);
  }
}
