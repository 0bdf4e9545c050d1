/**
 The routines of fish/blink.S and the allocator of fish/fish.c, on the pool itself.
 */
module BlinkDriver {
  import opened Bytes
  import opened Blink

  ghost predicate Pokeable(pool: seq<Slot>, chain: seq<int>)
    requires forall k :: 0 <= k < |chain| ==> 0 <= chain[k] < |pool|
  {
    forall k {:trigger pool[chain[k]]} :: 0 <= k < |chain| ==>
      pool[chain[k]].node.location < SLOTS && pool[chain[k]].node.status in {0, 1}
  }

  lemma {:induction false} ListOk(pool: seq<Slot>, head: int, chain: seq<int>, cells: seq<byte>)
    requires Shape(pool, head, chain) && Pokeable(pool, chain) && |cells| == SLOTS
    ensures ViewOk(View(NodesOf(pool, chain), cells))
  {
    PoolFull(pool, head, chain);
    var list := NodesOf(pool, chain);
    forall k | 0 <= k < |list|
      ensures 0 < list[k].location < SLOTS && list[k].status in {0, 1}
    {
      assert list[k] == pool[chain[k]].node && chain[k] in chain;
    }
  }

  class Driver {
    const pool: array<Slot>
    const screen: array<byte>
    var head: int
    ghost var chain: seq<int>

    ghost predicate Valid()
      reads this, pool, screen
    {
      && Shape(pool[..], head, chain) && Pokeable(pool[..], chain)
      && screen.Length == SLOTS
    }

    /** The list the pool stands for, newest node first, and the character cells. */
    ghost function Now(): (v: View)
      requires Valid()
      reads this, pool, screen
      ensures ViewOk(v)
    {
      ListOk(pool[..], head, chain, screen[..]);
      View(NodesOf(pool[..], chain), screen[..])
    }

    /** `main` clears the pool; the list head starts at NULL. */
    constructor (cells: seq<byte>)
      requires |cells| == SLOTS
      ensures Valid() && Now() == View([], cells) && fresh(pool) && fresh(screen)
    {
      pool := new Slot[SLOTS](i => FREE);
      screen := new byte[SLOTS](i requires 0 <= i < SLOTS => cells[i]);
      head := NIL;
      chain := [];
    }

    /** `mp1_malloc`. */
    method Malloc() returns (i: int)
      requires Valid()
      ensures i == if FirstFree(pool[..]) < SLOTS then FirstFree(pool[..]) else NIL
      ensures i == NIL <==> |chain| == SLOTS
      ensures i != NIL ==> 0 <= i < SLOTS && i !in chain
    {
      PoolFull(pool[..], head, chain);
      i := 0;
      while i < SLOTS
        invariant 0 <= i <= SLOTS
        invariant FirstFree(pool[..]) == FirstFree(pool[..], i)
      {
        if pool[i].node.location == 0 {
          return;
        }
        i := i + 1;
      }
      i := NIL;
    }

    /** `mp1_ioctl_add`, for any location: the memory it leaves, and the list when the location is not 0. */
    method Add(n: Node) returns (r: int)
      requires Valid()
      modifies this, pool, screen
      ensures r == if n.location >= SLOTS || |old(chain)| == SLOTS then -1 else 0
      ensures pool[..] == RawAdd(old(pool[..]), old(head), n).0 && head == RawAdd(old(pool[..]), old(head), n).1
      ensures screen[..] == if r == 0 then old(screen[..])[n.location := n.onChar] else old(screen[..])
      ensures n.location != 0 ==> Valid() && Now() == Blink.Step(old(Now()), Blink.Add(n)).0
    {
      PoolFull(pool[..], head, chain);
      if n.location >= SLOTS {
        return -1;
      }
      var copy := n.(status := 1, countdown := n.onLength);
      var i := Malloc();
      if i == NIL {
        return -1;
      }
      ghost var was := pool[..];
      if n.location != 0 {
        AddShape(was, head, chain, n);
      }
      pool[i] := Slot(copy, head);
      head := i;
      chain := [i] + chain;
      screen[n.location] := n.onChar;
      assert pool[..] == was[i := Slot(Started(n), old(head))];
      return 0;
    }

    /** `mp1_find_helper`: walks to the newest node at the location. */
    method FindHelper(location: u16) returns (at: int, ghost k: nat)
      requires Valid()
      ensures k == First(Now().list, location)
      ensures at == At(chain, k)
    {
      at := head;
      k := 0;
      while at != NIL
        invariant k <= |chain| && at == At(chain, k)
        invariant First(Now().list, location) == First(Now().list, location, k)
        decreases |chain| - k
      {
        if pool[at].node.location == location {
          return;
        }
        at := pool[at].next;
        k := k + 1;
      }
    }

    /** The search for the cell that points to `target`: the list head, or a predecessor. */
    method FindPrev(target: int, ghost k: nat) returns (prev: int)
      requires Linked(pool[..], head, chain) && k < |chain| && target == chain[k]
      ensures prev == if k == 0 then NIL else chain[k - 1]
    {
      prev := NIL;
      var at := head;
      ghost var p := 0;
      while at != target
        invariant 0 <= p <= k && at == chain[p] && prev == (if p == 0 then NIL else chain[p - 1])
        decreases k - p
      {
        prev := at;
        at := pool[at].next;
        p := p + 1;
      }
    }

    /** `mp1_ioctl_remove`: the search for the predecessor ends, and only the found node is unlinked. */
    method Remove(arg: nat) returns (r: int)
      requires Valid()
      modifies this, pool
      ensures Valid() && screen[..] == old(screen[..])
      ensures Now() == Blink.Step(old(Now()), Blink.Remove(arg)).0
      ensures r == if Blink.Step(old(Now()), Blink.Remove(arg)).1 == Failed then -1 else 0
    {
      var target, k := FindHelper(arg % 65536);
      if target == NIL {
        return -1;
      }
      TakeOut(target, k);
      return 0;
    }

    /** Node `k` leaves the list. */
    method TakeOut(target: int, ghost k: nat)
      requires Valid() && k < |chain| && target == chain[k]
      modifies this, pool
      ensures Valid() && Now() == View(old(Now()).list[..k] + old(Now()).list[k + 1..], old(screen[..]))
    {
      var prev := FindPrev(target, k);
      ghost var list := NodesOf(pool[..], chain);
      UnlinkShape(pool[..], head, chain, k);
      Unlink(prev, target, k);
      assert Now() == View(list[..k] + list[k + 1..], screen[..]);
    }

    /** Takes the node out of the list and frees its slot. */
    method Unlink(prev: int, target: int, ghost k: nat)
      requires Valid() && k < |chain| && target == chain[k]
      requires prev == if k == 0 then NIL else chain[k - 1]
      modifies this, pool
      ensures pool[..] == Unlinked(old(pool[..]), old(chain), k)
      ensures head == if k == 0 then old(pool[chain[0]]).next else old(head)
      ensures chain == old(chain)[..k] + old(chain)[k + 1..]
    {
      var after := pool[target].next;
      if prev == NIL {
        head := after;
      } else {
        pool[prev] := pool[prev].(next := after);
      }
      pool[target] := FREE;
      chain := chain[..k] + chain[k + 1..];
    }

    /** `mp1_ioctl_find`. */
    method Find(location: u16) returns (reply: Reply)
      requires Valid()
      ensures reply == Blink.Step(Now(), Blink.Find(location)).1
    {
      var at, k := FindHelper(location);
      if at == NIL {
        return Failed;
      }
      return Found(pool[at].node);
    }

    /** `mp1_ioctl_sync`: source in the high half of the argument, target in the low half. */
    method Sync(arg: nat) returns (r: int)
      requires Valid()
      modifies this, pool, screen
      ensures Valid()
      ensures Now() == Blink.Step(old(Now()), Blink.Sync(arg)).0
      ensures r == if Blink.Step(old(Now()), Blink.Sync(arg)).1 == Failed then -1 else 0
    {
      var source, i := FindHelper(arg / 65536 % 65536);
      if source == NIL {
        return -1;
      }
      var target, j := FindHelper(arg % 65536);
      if target == NIL {
        return -1;
      }
      ghost var was := pool[..];
      var n, m := pool[target].node, pool[source].node;
      n := n.(onLength := m.onLength);
      n := n.(offLength := m.offLength);
      n := n.(countdown := m.countdown);
      n := n.(status := m.status);
      ghost var list, cells := NodesOf(was, chain), screen[..];
      assert Now() == View(list, cells) && list[j] == pool[target].node && list[i] == pool[source].node;
      RewriteShape(was, head, chain, j, n);
      pool[target] := pool[target].(node := n);
      screen[n.location] := n.offChar;
      assert pool[..] == was[chain[j] := Slot(n, was[chain[j]].next)];
      assert Valid() && Now() == View(list[j := n], cells[n.location := n.offChar]);
      return 0;
    }

    /** One node's share of a tick. */
    method TickSlot(at: nat)
      requires pool.Length == SLOTS && screen.Length == SLOTS && at < SLOTS
      requires pool[at].node.location < SLOTS
      modifies pool, screen
      ensures pool[..] == old(pool[..])[at := Slot(TickNode(old(pool[at]).node), old(pool[at]).next)]
      ensures screen[..] == if Toggles(old(pool[at]).node)
        then old(screen[..])[old(pool[at]).node.location := Shown(TickNode(old(pool[at]).node))] else old(screen[..])
    {
      var n := pool[at].node;
      n := n.(countdown := (n.countdown + 65535) % 65536);
      if n.countdown == 0 || n.countdown >= 32768 {
        if n.status % 2 == 1 {
          screen[n.location] := n.offChar;
          n := n.(countdown := n.offLength, status := n.status - 1);
        } else {
          screen[n.location] := n.onChar;
          n := n.(countdown := n.onLength, status := n.status + 1);
        }
      }
      pool[at] := pool[at].(node := n);
    }

    /** The walk of `mp1_rtc_tasklet`. */
    method TickWalk(ghost was: seq<Slot>, ghost cells: seq<byte>, ghost list: seq<Node>)
      requires Valid() && was == pool[..] && cells == screen[..] && list == NodesOf(was, chain)
      modifies pool, screen
      ensures TickedTo(was, pool[..], chain, |chain|)
      ensures TickScreens(list, |cells|) && screen[..] == TickScreen(list, cells)
    {
      var at := head;
      ghost var p := 0;
      assert list[p..] == list;
      while at != NIL
        invariant 0 <= p <= |chain| && at == At(chain, p)
        invariant TickedTo(was, pool[..], chain, p)
        invariant TickScreen(list[p..], screen[..]) == TickScreen(list, cells)
        decreases |chain| - p
      {
        assert chain[p] in chain;
        assert list[p..][0] == list[p] && list[p..][1..] == list[p + 1..];
        TickSlot(at);
        at := pool[at].next;
        p := p + 1;
      }
      assert list[p..] == [];
    }

    /** `mp1_rtc_tasklet`: the walk ends and ticks every listed node once. */
    method Tick()
      requires Valid()
      modifies pool, screen
      ensures Valid()
      ensures Now() == Blink.Step(old(Now()), Blink.Tick).0
    {
      ghost var was, cells, list := pool[..], screen[..], NodesOf(pool[..], chain);
      assert Now() == View(list, cells);
      TickWalk(was, cells, list);
      TickedShape(was, pool[..], head, chain);
      assert Valid() && Now() == View(TickList(list), TickScreen(list, cells));
    }

    /** Carries one operation out. */
    method Perform(op: Op)
      requires Valid() && (op.Add? ==> op.node.location != 0)
      modifies this, pool, screen
      ensures Valid() && Now() == Blink.Step(old(Now()), op).0
    {
      match op {
        case Add(n) => var r := Add(n);
        case Remove(arg) => var r := Remove(arg);
        case Find(location) => var reply := Find(location);
        case Sync(arg) => var r := Sync(arg);
        case Tick => Tick();
      }
    }
  }

  ghost predicate TickScreens(list: seq<Node>, cells: nat) {
    forall k :: 0 <= k < |list| ==> list[k].location < cells
  }

  // ----- the pool after each change -----

  /** The pool after taking node `k` of the chain out. */
  ghost function Unlinked(pool: seq<Slot>, chain: seq<int>, k: nat): seq<Slot>
    requires k < |chain| && forall j :: 0 <= j < |chain| ==> 0 <= chain[j] < |pool|
  {
    var next := pool[chain[k]].next;
    var linked := if k == 0 then pool else pool[chain[k - 1] := pool[chain[k - 1]].(next := next)];
    linked[chain[k] := FREE]
  }

  lemma {:induction false} UnlinkShape(pool: seq<Slot>, head: int, chain: seq<int>, k: nat)
    requires Shape(pool, head, chain) && Pokeable(pool, chain) && k < |chain|
    ensures var pool' := Unlinked(pool, chain, k);
      var chain' := chain[..k] + chain[k + 1..];
      && Shape(pool', if k == 0 then pool[chain[0]].next else head, chain')
      && Pokeable(pool', chain')
      && NodesOf(pool', chain') == NodesOf(pool, chain)[..k] + NodesOf(pool, chain)[k + 1..]
  {
    var pool' := Unlinked(pool, chain, k);
    var chain' := chain[..k] + chain[k + 1..];
    UnlinkLinks(pool, head, chain, k);
    UnlinkExact(pool, head, chain, k);
    UnlinkNodes(pool, head, chain, k);
  }

  lemma {:induction false} UnlinkExact(pool: seq<Slot>, head: int, chain: seq<int>, k: nat)
    requires Shape(pool, head, chain) && k < |chain|
    ensures var pool' := Unlinked(pool, chain, k);
      var chain' := chain[..k] + chain[k + 1..];
      forall i :: 0 <= i < SLOTS ==> (i in chain' <==> pool'[i].node.location != 0)
  {
    Skip(chain, k);
    UnlinkLinks(pool, head, chain, k);
  }

  lemma {:induction false} UnlinkNodes(pool: seq<Slot>, head: int, chain: seq<int>, k: nat)
    requires Linked(pool, head, chain) && Pokeable(pool, chain) && k < |chain|
    ensures var pool' := Unlinked(pool, chain, k);
      var chain' := chain[..k] + chain[k + 1..];
      && (forall j :: 0 <= j < |chain'| ==> 0 <= chain'[j] < |pool'|)
      && Pokeable(pool', chain')
      && NodesOf(pool', chain') == NodesOf(pool, chain)[..k] + NodesOf(pool, chain)[k + 1..]
  {
    var pool' := Unlinked(pool, chain, k);
    var chain' := chain[..k] + chain[k + 1..];
    Skip(chain, k);
    UnlinkLinks(pool, head, chain, k);
    var list, list' := NodesOf(pool, chain), NodesOf(pool', chain');
    forall j | 0 <= j < |chain'|
      ensures list'[j] == list[if j < k then j else j + 1]
    {
      assert chain'[j] == chain[if j < k then j else j + 1];
    }
    SkipIs(list, list', k);
  }

  lemma {:induction false} SkipIs(list: seq<Node>, list': seq<Node>, k: nat)
    requires k < |list| && |list'| == |list| - 1
    requires forall j :: 0 <= j < |list'| ==> list'[j] == list[if j < k then j else j + 1]
    ensures list' == list[..k] + list[k + 1..]
  {
  }

  lemma {:induction false} UnlinkLinks(pool: seq<Slot>, head: int, chain: seq<int>, k: nat)
    requires Linked(pool, head, chain) && k < |chain|
    ensures var pool' := Unlinked(pool, chain, k);
      var chain' := chain[..k] + chain[k + 1..];
      && Linked(pool', if k == 0 then pool[chain[0]].next else head, chain')
      && (forall i :: 0 <= i < |pool| && i != chain[k] ==> pool'[i].node == pool[i].node)
  {
    var pool' := Unlinked(pool, chain, k);
    var chain' := chain[..k] + chain[k + 1..];
    Skip(chain, k);
    forall j | 0 <= j < |chain'|
      ensures pool'[chain'[j]].next == At(chain', j + 1)
    {
      assert chain'[j] == chain[if j < k then j else j + 1];
      if j == k - 1 {
        assert chain'[j] == chain[k - 1];
      }
    }
  }

  /** Leaving element `k` out of a sequence without repetitions. */
  lemma {:induction false} Skip(chain: seq<int>, k: nat)
    requires k < |chain| && forall i, j :: 0 <= i < j < |chain| ==> chain[i] != chain[j]
    ensures var chain' := chain[..k] + chain[k + 1..];
      && (forall j :: 0 <= j < |chain'| ==> chain'[j] == chain[if j < k then j else j + 1])
      && (forall i, j :: 0 <= i < j < |chain'| ==> chain'[i] != chain'[j])
      && (forall i :: i in chain' <==> i in chain && i != chain[k])
  {
    var chain' := chain[..k] + chain[k + 1..];
    forall i | i in chain && i != chain[k]
      ensures i in chain'
    {
      var j :| 0 <= j < |chain| && chain[j] == i;
      assert chain'[if j < k then j else j - 1] == i;
    }
  }

  lemma {:induction false} RewriteShape(pool: seq<Slot>, head: int, chain: seq<int>, j: nat, n: Node)
    requires Shape(pool, head, chain) && Pokeable(pool, chain) && j < |chain|
    requires n.location == pool[chain[j]].node.location && n.status in {0, 1}
    ensures var pool' := pool[chain[j] := Slot(n, pool[chain[j]].next)];
      && Shape(pool', head, chain) && Pokeable(pool', chain)
      && NodesOf(pool', chain) == NodesOf(pool, chain)[j := n]
  {
    var pool' := pool[chain[j] := Slot(n, pool[chain[j]].next)];
    assert forall k :: 0 <= k < |chain| ==> pool'[chain[k]].next == pool[chain[k]].next;
  }

  function Ticked(slot: Slot): Slot {
    Slot(TickNode(slot.node), slot.next)
  }

  /** `now` is `was` with the first `p` nodes of the chain ticked. */
  ghost predicate TickedTo(was: seq<Slot>, now: seq<Slot>, chain: seq<int>, p: nat)
    requires forall j :: 0 <= j < |chain| ==> 0 <= chain[j] < |was|
  {
    && |now| == |was|
    && (forall k {:trigger now[chain[k]]} {:trigger was[chain[k]]} :: 0 <= k < |chain| ==>
          now[chain[k]] == if k < p then Ticked(was[chain[k]]) else was[chain[k]])
    && (forall i :: 0 <= i < |was| && i !in chain ==> now[i] == was[i])
  }

  lemma {:induction false} TickedShape(was: seq<Slot>, now: seq<Slot>, head: int, chain: seq<int>)
    requires Shape(was, head, chain) && Pokeable(was, chain) && TickedTo(was, now, chain, |chain|)
    ensures Shape(now, head, chain) && Pokeable(now, chain)
    ensures NodesOf(now, chain) == TickList(NodesOf(was, chain))
  {
    forall i | 0 <= i < |now|
      ensures now[i].node.location == was[i].node.location
    {
      if i in chain {
        var k :| 0 <= k < |chain| && chain[k] == i;
      }
    }
  }

  // ----- whole runs -----

  /** Any run of operations on a view. */
  ghost function Run(v: View, ops: seq<Op>): (r: View)
    requires ViewOk(v) && forall i :: 0 <= i < |ops| && ops[i].Add? ==> ops[i].node.location != 0
    ensures ViewOk(r)
  {
    if ops == [] then v
    else
      var before := Run(v, ops[..|ops| - 1]);
      StepOk(before, ops[|ops| - 1]);
      Blink.Step(before, ops[|ops| - 1]).0
  }

  lemma {:induction false} StepOk(v: View, op: Op)
    requires ViewOk(v) && (op.Add? ==> op.node.location != 0)
    ensures ViewOk(Blink.Step(v, op).0)
  {
  }

  /** Any run of operations with nonzero locations, carried out on the pool: list and screen are
      those of the run on values, and every walk the operations make comes to an end. */
  method RunAll(d: Driver, ops: seq<Op>)
    requires d.Valid()
    requires forall i :: 0 <= i < |ops| && ops[i].Add? ==> ops[i].node.location != 0
    modifies d, d.pool, d.screen
    ensures d.Valid() && d.Now() == Run(old(d.Now()), ops)
  {
    ghost var start := d.Now();
    for i := 0 to |ops|
      invariant d.Valid() && d.Now() == Run(start, ops[..i])
    {
      assert ops[..i + 1][..i] == ops[..i];
      d.Perform(ops[i]);
    }
    assert ops[..|ops|] == ops;
  }
}
