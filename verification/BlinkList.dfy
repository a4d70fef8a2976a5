/** The blink list: singly linked nodes in a pool of 2000 slots, a slot being free when its location is 0. */
module BlinkList {
  import opened Memory
  import opened BlinkNode

  type Pool = seq<Node>

  const ZERO_NODE: Node := Node(0, 0, 0, 0, 0, 0, 0, NULL)

  function After(list: seq<nat>, k: nat): int { if k < |list| then list[k] else NULL }

  predicate Distinct(list: seq<nat>) { forall i, j | 0 <= i < j < |list| :: list[i] != list[j] }

  predicate LinkAt(pool: Pool, list: seq<nat>, k: nat)
    requires k < |list|
  {
    list[k] < |pool| && pool[list[k]].next == After(list, k + 1)
  }

  /** The links from `head` run through the slots of `list`, each once, and end. */
  ghost predicate Linked(pool: Pool, head: int, list: seq<nat>) {
    && |pool| == CELLS && head == After(list, 0) && Distinct(list)
    && (forall k | 0 <= k < |list| :: list[k] < CELLS)
    && (forall k: nat | k < |list| :: LinkAt(pool, list, k))
  }

  /** The slots in use are the linked ones. */
  ghost predicate Exact(pool: Pool, list: seq<nat>) {
    && |pool| == CELLS && (forall k | 0 <= k < |list| :: list[k] < CELLS)
    && forall i: nat | i < CELLS :: pool[i].location < CELLS && (pool[i].location != 0 <==> i in list)
  }

  /** The slots in use are linked. A linked slot that holds location 0 still counts as free. */
  ghost predicate Covered(pool: Pool, list: seq<nat>) {
    && |pool| == CELLS && (forall k | 0 <= k < |list| :: list[k] < CELLS)
    && forall i: nat | i < CELLS :: pool[i].location < CELLS && (pool[i].location != 0 ==> i in list)
  }

  /** The first slot from `i` on that is free; CELLS when there is none. */
  function FreeSlot(pool: Pool, i: nat): (slot: nat)
    requires i <= |pool| == CELLS
    ensures i <= slot <= CELLS && (slot < CELLS ==> pool[slot].location == 0)
    ensures forall j | i <= j < slot :: pool[j].location != 0
    decreases CELLS - i
  {
    if i == CELLS || pool[i].location == 0 then i else FreeSlot(pool, i + 1)
  }

  /** The place in the list of the first node at `location`; the length when there is none. */
  function Place(pool: Pool, list: seq<nat>, location: Word, k: nat): (p: nat)
    requires |pool| == CELLS && k <= |list| && forall j | 0 <= j < |list| :: list[j] < CELLS
    ensures k <= p <= |list| && (p < |list| ==> pool[list[p]].location == location)
    ensures forall j | k <= j < p :: pool[list[j]].location != location
    decreases |list| - k
  {
    if k == |list| || pool[list[k]].location == location then k else Place(pool, list, location, k + 1)
  }

  function Without<T>(list: seq<T>, k: nat): seq<T>
    requires k < |list|
  {
    list[..k] + list[k + 1..]
  }


  /** The pool after the node at place `k` is taken out and zeroed, with the link of its predecessor changed. */
  ghost predicate Unlinked(now: Pool, was: Pool, list: seq<nat>, k: nat)
    requires |was| == |now| == CELLS && k < |list| && forall j | 0 <= j < |list| :: list[j] < CELLS
  {
    && now[list[k]] == ZERO_NODE
    && forall i: nat | i < CELLS && i != list[k] ::
         now[i] == if k > 0 && i == list[k - 1] then was[i].(next := After(list, k + 1)) else was[i]
  }

  lemma {:induction false} UnlinkLinks(was: Pool, head: int, list: seq<nat>, k: nat, now: Pool, newHead: int)
    requires Linked(was, head, list) && k < |list| && |now| == CELLS && Unlinked(now, was, list, k)
    requires newHead == if k == 0 then After(list, 1) else head
    ensures Linked(now, newHead, Without(list, k))
  {
    var r := Without(list, k);
    forall j: nat | j < |r| ensures LinkAt(now, r, j) {
      if j < k { assert LinkAt(was, list, j); } else { assert LinkAt(was, list, j + 1); }
    }
  }

  lemma {:induction false} UnlinkExact(was: Pool, list: seq<nat>, k: nat, now: Pool)
    requires Exact(was, list) && Distinct(list) && k < |list| && |now| == CELLS && Unlinked(now, was, list, k)
    ensures Exact(now, Without(list, k))
  {
    var r := Without(list, k);
    forall i: nat | i < CELLS ensures now[i].location < CELLS && (now[i].location != 0 <==> i in r) {
    }
    forall j | 0 <= j < |r| ensures r[j] < CELLS {
      if j < k { assert r[j] == list[j]; } else { assert r[j] == list[j + 1]; }
    }
  }

  lemma {:induction false} UnlinkCovered(was: Pool, list: seq<nat>, k: nat, now: Pool)
    requires Covered(was, list) && Distinct(list) && k < |list| && |now| == CELLS && Unlinked(now, was, list, k)
    ensures Covered(now, Without(list, k))
  {
    var r := Without(list, k);
    forall i: nat | i < CELLS ensures now[i].location < CELLS && (now[i].location != 0 ==> i in r) {
    }
    forall j | 0 <= j < |r| ensures r[j] < CELLS {
      if j < k { assert r[j] == list[j]; } else { assert r[j] == list[j + 1]; }
    }
  }

  class Blinker {
    const pool: array<Node>
    const screen: array<Byte>
    var head: int
    ghost var list: seq<nat>

    ghost predicate Shaped()
      reads this, pool
    {
      pool.Length == CELLS && screen.Length == 2 * CELLS && Linked(pool[..], head, list)
    }

    /** Walks end, and the slots in use are linked. */
    ghost predicate Sound()
      reads this, pool
    {
      Shaped() && Covered(pool[..], list)
    }

    /** Besides, no linked slot counts as free. */
    ghost predicate Valid()
      reads this, pool
      ensures Valid() ==> Sound()
    {
      Shaped() && Exact(pool[..], list)
    }

    constructor ()
      ensures Valid() && list == []
    {
      pool := new Node[CELLS](i => ZERO_NODE);
      screen := new Byte[2 * CELLS](i => 0);
      head := NULL;
      list := [];
    }

    method Poke(location: Word, c: Byte)
      requires screen.Length == 2 * CELLS && location < CELLS
      modifies screen
      ensures screen[..] == old(screen[..])[2 * location := c]
    {
      screen[2 * location] := c;
    }

    method Malloc() returns (slot: int)
      requires pool.Length == CELLS
      ensures var free := FreeSlot(pool[..], 0);
              slot == if free < CELLS then free else NULL
    {
      var i: nat := 0;
      while i < CELLS
        invariant i <= CELLS && FreeSlot(pool[..], 0) == FreeSlot(pool[..], i)
      {
        if pool[i].location == 0 {
          return i;
        }
        i := i + 1;
      }
      slot := NULL;
    }

    /** The walk that looks for a location: it ends, at the first match in list order. */
    method FindHelper(location: Word) returns (node: int)
      requires Shaped()
      ensures node == After(list, Place(pool[..], list, location, 0))
    {
      node := head;
      ghost var k: nat := 0;
      while node != NULL
        invariant k <= |list| && node == After(list, k)
        invariant Place(pool[..], list, location, 0) == Place(pool[..], list, location, k)
        decreases |list| - k
      {
        if pool[node].location == location {
          return;
        }
        assert LinkAt(pool[..], list, k);
        node := pool[node].next;
        k := k + 1;
      }
    }

    /** The code of `mp1_ioctl_add`. */
    method Insert(user: Node) returns (result: int)
      requires pool.Length == CELLS && screen.Length == 2 * CELLS
      modifies this`head, pool, screen
      ensures var slot := FreeSlot(old(pool[..]), 0);
              if user.location >= CELLS || slot == CELLS then
                result == -1 && head == old(head) && pool[..] == old(pool[..]) && screen[..] == old(screen[..])
              else
                && result == 0 && head == slot
                && pool[..] == old(pool[..])[slot := user.(countdown := user.onLength, status := 1, next := old(head))]
                && screen[..] == old(screen[..])[2 * user.location := user.onChar]
    {
      if user.location >= CELLS {
        return -1;
      }
      var temp := user.(status := 1, countdown := user.onLength);
      var slot := Malloc();
      if slot == NULL {
        return -1;
      }
      pool[slot] := temp;
      pool[slot] := pool[slot].(next := head);
      head := slot;
      Poke(temp.location, temp.onChar);
      result := 0;
    }

    /** Adding prepends the first free slot. When that slot is linked already, as it can be with a node at location 0
        in it, the links run in a circle and no walk ends. */
    method Add(user: Node) returns (result: int)
      requires Sound()
      modifies this`head, this`list, pool, screen
      ensures var slot := FreeSlot(old(pool[..]), 0);
              if user.location >= CELLS || slot == CELLS then
                result == -1 && list == old(list) && head == old(head)
                && pool[..] == old(pool[..]) && screen[..] == old(screen[..])
              else
                && result == 0 && list == (if slot in old(list) then old(list) else [slot] + old(list)) && head == slot
                && pool[..] == old(pool[..])[slot := user.(countdown := user.onLength, status := 1, next := old(head))]
                && screen[..] == old(screen[..])[2 * user.location := user.onChar]
      ensures var loops := user.location < CELLS && FreeSlot(old(pool[..]), 0) in old(list);
              if loops then forall l: seq<nat> :: !Linked(pool[..], head, l) else Sound()
      ensures Valid() <==> old(Valid()) && (result == -1 || user.location != 0)
    {
      hide Linked, Exact, Covered, FreeSlot;
      ghost var was, before := pool[..], head;
      HeadOf(was, head, list);
      SlotsInRange(was, list);
      result := Insert(user);
      if result == 0 {
        if head in list {
          forall l: seq<nat> ensures !Linked(pool[..], head, l) {
            Circle(was, before, list, pool[..], head, l);
          }
          LinkedTwice(was, pool[..], list, head);
        } else {
          CoveredFront(was, pool[..], list, head);
          ExactFront(was, pool[..], list, head);
          LinkedFront(was, pool[..], list, head);
          list := [head as nat] + list;
        }
      }
    }

    /** A node at location 0, and then any other that is accepted: they share a slot, whose link leads to itself. */
    method AddTwiceAtZero(a: Node, b: Node)
      requires Valid() && a.location == 0 && b.location < CELLS && FreeSlot(pool[..], 0) < CELLS
      modifies this`head, this`list, pool, screen
      ensures head != NULL && 0 <= head < CELLS && pool[head].next == head
      ensures forall l: seq<nat> :: !Linked(pool[..], head, l)
    {
      ghost var slot := FreeSlot(pool[..], 0);
      var r := Add(a);
      assert slot in list;
      FreeSlotUnique(pool[..], 0, slot);
      r := Add(b);
    }

    /** The walk to the cell that points at `node`: the head, or the link of the node before it. */
    method FindPrevious(node: nat, ghost k: nat) returns (previous: int)
      requires Shaped() && k < |list| && list[k] == node
      ensures previous == if k == 0 then NULL else list[k - 1]
    {
      previous := NULL;
      var at := head;
      ghost var j: nat := 0;
      while at != node
        invariant j <= k && at == list[j] && previous == if j == 0 then NULL else list[j - 1]
        decreases k - j
      {
        assert LinkAt(pool[..], list, j);
        previous := at;
        at := pool[at].next;
        j := j + 1;
      }
    }

    /** The removal itself: the cell that points at the node gets its link, and the slot is zeroed. */
    method Unlink(node: nat, previous: int)
      requires pool.Length == CELLS && node < CELLS && (previous == NULL || 0 <= previous < CELLS) && previous != node
      modifies this`head, pool
      ensures head == if previous == NULL then old(pool[node].next) else old(head)
      ensures pool[node] == ZERO_NODE
      ensures forall i | 0 <= i < CELLS && i != node ::
                pool[i] == if i == previous then old(pool[i]).(next := old(pool[node].next)) else old(pool[i])
    {
      var next := pool[node].next;
      if previous == NULL {
        head := next;
      } else {
        pool[previous] := pool[previous].(next := next);
      }
      pool[node] := ZERO_NODE;
    }

    /** `mp1_ioctl_remove`: unlinks and frees the first node at the location, and no other. */
    method Remove(location: Word) returns (result: int)
      requires Sound()
      modifies this`head, this`list, pool
      ensures Sound() && (old(Valid()) ==> Valid())
      ensures var k := Place(old(pool[..]), old(list), location, 0);
              if k == |old(list)| then result == -1 && list == old(list) && pool[..] == old(pool[..])
              else
                && result == 0 && list == Without(old(list), k)
                && Unlinked(pool[..], old(pool[..]), old(list), k)
    {
      HeadOf(pool[..], head, list);
      var node := FindHelper(location);
      if node == NULL {
        return -1;
      }
      ghost var was := pool[..];
      ghost var oldHead := head;
      ghost var k := Place(was, list, location, 0);
      DistinctPlaces(was, head, list, k);
      var previous := FindPrevious(node, k);
      hide Linked, Exact, Covered, Distinct, Place;
      Unlink(node, previous);
      UnlinkLinks(was, oldHead, list, k, pool[..], head);
      UnlinkCovered(was, list, k, pool[..]);
      if Exact(was, list) {
        UnlinkExact(was, list, k, pool[..]);
      }
      list := Without(list, k);
      result := 0;
    }

    /** `mp1_ioctl_find`: a copy of the first node at the location. */
    method Find(location: Word) returns (result: int, copy: Node)
      requires Shaped()
      ensures var k := Place(pool[..], list, location, 0);
              if k == |list| then result == -1 else result == 0 && copy == pool[list[k]]
    {
      copy := ZERO_NODE;
      HeadOf(pool[..], head, list);
      var node := FindHelper(location);
      if node == NULL {
        return -1, copy;
      }
      return 0, pool[node];
    }

    /** `mp1_ioctl_sync`: the timer of the first node at `source` is copied to the first one at `target`. The
        character it pokes is always the one for off. */
    method Sync(source: Word, target: Word) returns (result: int)
      requires Sound()
      modifies pool, screen
      ensures Sound() && (old(Valid()) ==> Valid()) && list == old(list) && head == old(head)
      ensures var p, q := Place(old(pool[..]), list, source, 0), Place(old(pool[..]), list, target, 0);
              if p == |list| || q == |list| then
                result == -1 && pool[..] == old(pool[..]) && screen[..] == old(screen[..])
              else
                && result == 0 && InStep(pool[list[p]], pool[list[q]])
                && pool[..] == old(pool[..])[list[q] := Synced(old(pool[list[q]]), old(pool[list[p]]))]
                // only the timer is copied
                && pool[list[q]].onChar == old(pool[list[q]]).onChar
                && pool[list[q]].offChar == old(pool[list[q]]).offChar
                && pool[list[q]].location == old(pool[list[q]]).location
                && pool[list[q]].next == old(pool[list[q]]).next
                && screen[..] == old(screen[..])[2 * old(pool[list[q]]).location := old(pool[list[q]]).offChar]
                && (screen[2 * pool[list[q]].location] == Shown(pool[list[q]]) <==>
                      !Lit(pool[list[q]]) || pool[list[q]].onChar == pool[list[q]].offChar)
    {
      HeadOf(pool[..], head, list);
      var from := FindHelper(source);
      if from == NULL {
        return -1;
      }
      var to := FindHelper(target);
      if to == NULL {
        return -1;
      }
      ghost var was := pool[..];
      SlotsInRange(was, list);
      pool[to] := Synced(pool[to], pool[from]);
      SyncKeeps(was, head, list, to, pool[to]);
      Poke(pool[to].location, pool[to].offChar);
      result := 0;
    }

    /** The body of the tasklet's loop. */
    method TickNode(node: nat)
      requires pool.Length == CELLS && screen.Length == 2 * CELLS && node < CELLS && pool[node].location < CELLS
      modifies pool, screen
      ensures pool[..] == old(pool[..])[node := Tick(old(pool[node]))]
      ensures screen[..] == Dab(old(screen[..]), old(pool[node]))
    {
      pool[node] := pool[node].(countdown := Decremented(pool[node].countdown));
      if Positive(pool[node].countdown) {
        return;
      }
      var n := pool[node];
      var reload;
      if Lit(n) {
        Poke(n.location, n.offChar);
        reload := n.offLength;
      } else {
        Poke(n.location, n.onChar);
        reload := n.onLength;
      }
      pool[node] := n.(countdown := reload, status := if Lit(n) then n.status - 1 else n.status + 1);
    }

    /** One turn of that loop, at place `k` of the list. */
    method TickPlace(node: nat, ghost was: Pool, ghost k: nat) returns (next: int)
      requires pool.Length == CELLS && screen.Length == 2 * CELLS && Linked(was, head, list) && Covered(was, list)
      requires k < |list| && node == list[k] && pool[..] == TickedTo(was, list, k)
      modifies pool, screen
      ensures next == After(list, k + 1) && pool[..] == TickedTo(was, list, k + 1)
      ensures node < CELLS && was[node].location < CELLS && screen[..] == Dab(old(screen[..]), was[node])
    {
      SlotsInRange(was, list);
      TickOne(was, head, list, k);
      hide Linked, Covered, TickedTo, Tick, Dab;
      TickNode(node);
      next := pool[node].next;
    }

    /** The loop of the tasklet. */
    method TickList()
      requires Sound()
      modifies pool, screen
      ensures pool[..] == TickedTo(old(pool[..]), list, |list|)
      ensures forall i | 0 <= i < |list| :: list[i] < CELLS && old(pool[..])[list[i]].location < CELLS
      ensures screen[..] == Painted(old(screen[..]), old(pool[..]), list, 0)
    {
      ghost var was := pool[..];
      SlotsInRange(was, list);
      TickedNone(was, list);
      HeadOf(was, head, list);
      hide Linked, Exact, Covered, TickedTo, Tick, Dab, Painted;
      var node := head;
      ghost var k: nat := 0;
      while node != NULL
        invariant k <= |list| && node == After(list, k)
        invariant pool[..] == TickedTo(was, list, k)
        invariant Painted(old(screen[..]), was, list, 0) == Painted(screen[..], was, list, k)
        decreases |list| - k
      {
        PaintedNext(screen[..], was, list, k);
        node := TickPlace(node, was, k);
        k := k + 1;
      }
      PaintedAll(screen[..], was, list);
    }

    /** `mp1_rtc_tasklet`: every node of the list ticks once, and those that expire are drawn, in list order. */
    method Tasklet()
      requires Sound()
      modifies pool, screen
      ensures Sound() && (old(Valid()) ==> Valid()) && list == old(list) && head == old(head)
      ensures forall i: nat | i < CELLS :: pool[i] == if i in list then Tick(old(pool[i])) else old(pool[i])
      ensures forall i | 0 <= i < |list| :: list[i] < CELLS && old(pool[..])[list[i]].location < CELLS
      ensures screen[..] == Painted(old(screen[..]), old(pool[..]), list, 0)
    {
      TickedAll(pool[..], head, list);
      hide Linked, Exact, Covered, TickedTo, Tick, Painted;
      TickList();
    }
  }

  /** The loop of the program: the tasklet once for each virtual clock interrupt. */
  method RunTasklets(b: Blinker, n: nat, ghost j: nat)
    requires b.Sound() && j < |b.list| && ShownAt(b.screen[..], b.pool[..], b.list, j)
    modifies b.pool, b.screen
    ensures b.Sound() && b.list == old(b.list) && b.head == old(b.head)
    ensures forall i: nat | i < CELLS :: b.pool[i] == if i in b.list then Ticks(old(b.pool[i]), n) else old(b.pool[i])
    ensures ShownAt(b.screen[..], b.pool[..], b.list, j)
  {
    var k: nat := 0;
    while k < n
      invariant k <= n && b.Sound() && b.list == old(b.list) && b.head == old(b.head)
      invariant forall i: nat | i < CELLS ::
                  b.pool[i] == if i in b.list then Ticks(old(b.pool[i]), k) else old(b.pool[i])
      invariant ShownAt(b.screen[..], b.pool[..], b.list, j)
    {
      ghost var was, shown := b.pool[..], b.screen[..];
      b.Tasklet();
      StaysShown(shown, was, b.pool[..], b.list, j);
      k := k + 1;
    }
  }

  /** The node at place `j` has its location to itself, and the screen shows it. */
  ghost predicate ShownAt(screen: seq<Byte>, pool: Pool, list: seq<nat>, j: nat) {
    && |screen| == 2 * CELLS && |pool| == CELLS && j < |list| && (forall i | 0 <= i < |list| :: list[i] < CELLS)
    && Alone(pool, list, j) && pool[list[j]].location < CELLS
    && screen[2 * pool[list[j]].location] == Shown(pool[list[j]])
  }

  lemma {:induction false} StaysShown(screen: seq<Byte>, pool: Pool, now: Pool, list: seq<nat>, j: nat)
    requires ShownAt(screen, pool, list, j) && |now| == CELLS
    requires forall i | 0 <= i < |list| :: pool[list[i]].location < CELLS
    requires forall i: nat | i < CELLS :: now[i] == if i in list then Tick(pool[i]) else pool[i]
    ensures ShownAt(Painted(screen, pool, list, 0), now, list, j)
  {
    hide Painted, Lit, Expires;
    TaskletShows(screen, pool, list, 0, j);
    forall i | 0 <= i < |list| ensures now[list[i]] == Tick(pool[list[i]]) {}
  }

  /** The life of one blinking character: from the call that adds it, `n` tasklets later its cell shows the
      character of the phase it is in, whatever else blinks elsewhere. */
  method AddAndRun(b: Blinker, user: Node, n: nat)
    requires b.Sound() && user.location < CELLS && FreeSlot(b.pool[..], 0) < CELLS
    requires FreeSlot(b.pool[..], 0) !in b.list
    requires forall i | 0 <= i < |b.list| :: b.list[i] < CELLS && b.pool[b.list[i]].location != user.location
    modifies b`head, b`list, b.pool, b.screen
    ensures b.Sound()
    ensures var on, off := Lasting(user.onLength), Lasting(user.offLength);
            b.screen[2 * user.location] == if n % (on + off) < on then user.onChar else user.offChar
  {
    hide Linked, Covered, Exact, FreeSlot, ShownAt, Lit, Ticks, Lasting;
    HeadOf(b.pool[..], b.head, b.list);
    ghost var was, list := b.pool[..], b.list;
    ghost var slot := FreeSlot(b.pool[..], 0);
    var result := b.Add(user);
    ghost var node := b.pool[slot];
    StartedLit(node);
    forall i | 1 <= i < |b.list| ensures b.list[i] < CELLS && b.pool[b.list[i]].location != user.location {
      assert b.list[i] == list[i - 1] && list[i - 1] in list;
    }
    RunTasklets(b, n, 0);
    assert b.list[0] == slot && slot in b.list;
    RunShows(b.screen[..], b.pool[..], b.list, node, n);
  }

  lemma {:induction false} StartedLit(n: Node)
    requires n.status == 1
    ensures Shown(n) == n.onChar
  {
  }

  /** What the screen shows of a node `n` calls after its start. */
  lemma {:induction false} RunShows(screen: seq<Byte>, pool: Pool, list: seq<nat>, node: Node, n: nat)
    requires ShownAt(screen, pool, list, 0) && Started(node) && pool[list[0]] == Ticks(node, n)
    ensures var on, off := Lasting(node.onLength), Lasting(node.offLength);
            && node.location < CELLS
            && screen[2 * node.location] == if n % (on + off) < on then node.onChar else node.offChar
  {
    BlinkPhase(node, n);
    hide Lasting, Alone, Ticks;
  }


  lemma {:induction false} SlotsInRange(pool: Pool, list: seq<nat>)
    requires Covered(pool, list)
    ensures forall i | 0 <= i < |list| :: list[i] < CELLS && pool[list[i]].location < CELLS
  {
  }

  /** The pool with the first `k` nodes of the list ticked. */
  function TickedTo(pool: Pool, list: seq<nat>, k: nat): (r: Pool)
    requires |pool| == CELLS && k <= |list|
    ensures |r| == CELLS
  {
    seq(CELLS, i requires 0 <= i < CELLS => if i in list[..k] then Tick(pool[i]) else pool[i])
  }

  lemma {:induction false} TickedNone(pool: Pool, list: seq<nat>)
    requires |pool| == CELLS
    ensures TickedTo(pool, list, 0) == pool
  {
  }

  lemma {:induction false} TickOne(pool: Pool, head: int, list: seq<nat>, k: nat)
    requires Linked(pool, head, list) && k < |list|
    ensures var i := list[k];
            && i < CELLS && TickedTo(pool, list, k)[i] == pool[i] && Tick(pool[i]).next == After(list, k + 1)
            && TickedTo(pool, list, k + 1) == TickedTo(pool, list, k)[i := Tick(pool[i])]
  {
    var i := list[k];
    assert LinkAt(pool, list, k);
    assert list[..k + 1] == list[..k] + [i];
    assert i !in list[..k];
  }

  lemma {:induction false} TickedAll(pool: Pool, head: int, list: seq<nat>)
    requires Linked(pool, head, list) && Covered(pool, list)
    ensures var now := TickedTo(pool, list, |list|);
            && Linked(now, head, list) && Covered(now, list) && (Exact(pool, list) ==> Exact(now, list))
            && forall i: nat | i < CELLS :: now[i] == if i in list then Tick(pool[i]) else pool[i]
  {
    assert list[..|list|] == list;
    var now := TickedTo(pool, list, |list|);
    forall k: nat | k < |list| ensures LinkAt(now, list, k) {
      assert LinkAt(pool, list, k);
    }
  }

  lemma {:induction false} FreeSlotUnique(pool: Pool, i: nat, slot: nat)
    requires i <= slot < |pool| == CELLS && pool[slot].location == 0
    requires forall j | i <= j < slot :: pool[j].location != 0
    ensures FreeSlot(pool, i) == slot
  {
  }

  /** The walk from a slot put in front of the list passes the list, up to that slot. */
  lemma {:induction false} FollowsTo(was: Pool, head: int, list: seq<nat>, now: Pool, slot: nat, other: seq<nat>,
                                     j: nat)
    requires Linked(was, head, list) && j < |list| && |now| == CELLS
    requires slot < CELLS && now[slot].next == head && slot !in list[..j]
    requires forall i: nat | i < CELLS && i != slot :: now[i] == was[i]
    ensures Linked(now, slot, other) ==> j + 1 < |other| && other[0] == slot && other[j + 1] == list[j]
    decreases j
  {
    if j == 0 {
      assert Linked(now, slot, other) ==> LinkAt(now, other, 0);
    } else {
      assert slot !in list[..j - 1] by { assert list[..j - 1] == list[..j][..j - 1]; }
      FollowsTo(was, head, list, now, slot, other, j - 1);
      assert list[j - 1] == list[..j][j - 1];
      assert LinkAt(was, list, j - 1);
      assert Linked(now, slot, other) ==> LinkAt(now, other, j);
    }
  }

  /** A linked slot in front of the list: the links lead back to it. */
  lemma {:induction false} Circle(was: Pool, head: int, list: seq<nat>, now: Pool, slot: nat, other: seq<nat>)
    requires Linked(was, head, list) && slot in list && |now| == CELLS && slot < CELLS && now[slot].next == head
    requires forall i: nat | i < CELLS && i != slot :: now[i] == was[i]
    ensures !Linked(now, slot, other)
  {
    var k :| 0 <= k < |list| && list[k] == slot;
    FollowsTo(was, head, list, now, slot, other, k);
  }

  lemma {:induction false} LinkedTwice(was: Pool, now: Pool, list: seq<nat>, slot: nat)
    requires |was| == |now| == CELLS && slot in list && slot < CELLS && was[slot].location == 0
    ensures !Exact(was, list)
  {
  }

  /** The character a node stands for. */
  function Shown(n: Node): Byte { if Lit(n) then n.onChar else n.offChar }

  /** What the tasklet pokes for one node. */
  function Dab(screen: seq<Byte>, n: Node): (r: seq<Byte>)
    requires |screen| == 2 * CELLS && n.location < CELLS
    ensures |r| == |screen|
  {
    if Expires(n) then screen[2 * n.location := if Lit(n) then n.offChar else n.onChar] else screen
  }

  function Painted(screen: seq<Byte>, pool: Pool, list: seq<nat>, k: nat): (r: seq<Byte>)
    requires |screen| == 2 * CELLS && |pool| == CELLS && k <= |list|
    requires forall j | 0 <= j < |list| :: list[j] < CELLS && pool[list[j]].location < CELLS
    ensures |r| == |screen|
    decreases |list| - k
  {
    if k == |list| then screen else Painted(Dab(screen, pool[list[k]]), pool, list, k + 1)
  }

  lemma {:induction false} PaintedNext(screen: seq<Byte>, pool: Pool, list: seq<nat>, k: nat)
    requires |screen| == 2 * CELLS && |pool| == CELLS && k < |list|
    requires forall j | 0 <= j < |list| :: list[j] < CELLS && pool[list[j]].location < CELLS
    ensures Painted(screen, pool, list, k) == Painted(Dab(screen, pool[list[k]]), pool, list, k + 1)
  {
  }

  lemma {:induction false} PaintedAll(screen: seq<Byte>, pool: Pool, list: seq<nat>)
    requires |screen| == 2 * CELLS && |pool| == CELLS
    requires forall j | 0 <= j < |list| :: list[j] < CELLS && pool[list[j]].location < CELLS
    ensures Painted(screen, pool, list, |list|) == screen
  {
  }

  /** No other node of the list has the location of the one at place `j`. */
  predicate Alone(pool: Pool, list: seq<nat>, j: nat)
    requires |pool| == CELLS && j < |list| && forall i | 0 <= i < |list| :: list[i] < CELLS
  {
    forall i | 0 <= i < |list| && i != j :: pool[list[i]].location != pool[list[j]].location
  }

  /** The screen keeps showing every node that has its place to itself. */
  lemma {:induction false} TaskletShows(screen: seq<Byte>, pool: Pool, list: seq<nat>, k: nat, j: nat)
    requires |screen| == 2 * CELLS && |pool| == CELLS && k <= |list| && j < |list|
    requires forall i | 0 <= i < |list| :: list[i] < CELLS && pool[list[i]].location < CELLS
    requires Alone(pool, list, j)
    requires var n := pool[list[j]];
             screen[2 * n.location] == if j < k then Shown(Tick(n)) else Shown(n)
    ensures var n := pool[list[j]];
            Painted(screen, pool, list, k)[2 * n.location] == Shown(Tick(n))
    decreases |list| - k
  {
    if k < |list| {
      var n := pool[list[j]];
      var dabbed := Dab(screen, pool[list[k]]);
      if j != k {
        assert pool[list[k]].location != n.location;
      }
      TaskletShows(dabbed, pool, list, k + 1, j);
    }
  }

  /** A node with the timer of another. */
  function Synced(n: Node, timer: Node): Node {
    n.(onLength := timer.onLength, offLength := timer.offLength, countdown := timer.countdown, status := timer.status)
  }

  lemma {:induction false} DistinctPlaces(pool: Pool, head: int, list: seq<nat>, k: nat)
    requires Linked(pool, head, list) && k < |list|
    ensures Distinct(list) && head == After(list, 0) && pool[list[k]].next == After(list, k + 1)
    ensures k > 0 ==> list[k - 1] != list[k]
  {
    assert LinkAt(pool, list, k);
  }

  lemma {:induction false} SyncKeeps(pool: Pool, head: int, list: seq<nat>, i: nat, n: Node)
    requires Linked(pool, head, list) && Covered(pool, list) && i < CELLS
    requires n.location == pool[i].location && n.next == pool[i].next
    ensures Linked(pool[i := n], head, list) && Covered(pool[i := n], list)
    ensures Exact(pool, list) ==> Exact(pool[i := n], list)
  {
    var now := pool[i := n];
    forall k: nat | k < |list| ensures LinkAt(now, list, k) {
      assert LinkAt(pool, list, k);
    }
  }

  lemma {:induction false} HeadOf(pool: Pool, head: int, list: seq<nat>)
    requires Linked(pool, head, list)
    ensures head == After(list, 0) && forall k | 0 <= k < |list| :: list[k] < CELLS
  {
  }

  lemma {:induction false} LinkedFront(was: Pool, now: Pool, before: seq<nat>, slot: nat)
    requires Linked(was, After(before, 0), before) && slot < CELLS && slot !in before
    requires |now| == CELLS && now[slot].next == After(before, 0)
    requires forall i: nat | i < CELLS && i != slot :: now[i] == was[i]
    ensures Linked(now, slot, [slot] + before)
  {
    var l := [slot] + before;
    forall k: nat | k < |l| ensures LinkAt(now, l, k) {
      if k > 0 { assert l[k] == before[k - 1] && LinkAt(was, before, k - 1); }
    }
    forall i, j | 0 <= i < j < |l| ensures l[i] != l[j] {
      assert l[j] == before[j - 1];
    }
  }


  lemma {:induction false} CoveredFront(was: Pool, now: Pool, before: seq<nat>, slot: nat)
    requires Covered(was, before) && slot < CELLS && |now| == CELLS && now[slot].location < CELLS
    requires forall i: nat | i < CELLS && i != slot :: now[i] == was[i]
    ensures Covered(now, [slot] + before)
  {
    forall i: nat ensures i in [slot] + before <==> i == slot || i in before {
    }
  }

  lemma {:induction false} ExactFront(was: Pool, now: Pool, before: seq<nat>, slot: nat)
    requires Covered(was, before) && slot < CELLS && was[slot].location == 0 && slot !in before
    requires |now| == CELLS && now[slot].location < CELLS
    requires forall i: nat | i < CELLS && i != slot :: now[i] == was[i]
    ensures Exact(now, [slot] + before) <==> Exact(was, before) && now[slot].location != 0
  {
    var l := [slot] + before;
    forall i: nat ensures i in l <==> i == slot || i in before {
    }
    if Exact(now, l) {
      assert slot in l;
      forall i: nat | i < CELLS ensures was[i].location != 0 <==> i in before {
        assert i != slot ==> now[i] == was[i];
      }
    }
  }
}
