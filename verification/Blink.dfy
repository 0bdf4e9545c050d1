/**
 The blink driver of the fish program: a linked list threaded through a fixed pool of 2000
 structures, in which a zero location means "free" (fish/blink.S, fish/fish.c).
 */
module Blink {
  import opened Bytes

  const SLOTS := 2000
  const NIL := -1

  type u16 = x: int | 0 <= x < 65536

  /** A blink structure without its link. */
  datatype Node = Node(location: u16, onChar: byte, offChar: byte, onLength: u16, offLength: u16,
                       countdown: u16, status: u16)
  datatype Slot = Slot(node: Node, next: int)

  const FREE := Slot(Node(0, 0, 0, 0, 0, 0, 0), NIL)

  // ----- the list as a value -----

  /** The newest node at a location, or the length of the list. */
  function First(list: seq<Node>, location: u16, from: nat := 0): (k: nat)
    requires from <= |list|
    ensures from <= k <= |list|
    ensures k < |list| ==> list[k].location == location
    ensures forall j :: from <= j < k ==> list[j].location != location
    decreases |list| - from
  {
    if from == |list| || list[from].location == location then from else First(list, location, from + 1)
  }

  /** What the screen shows of the list: one character cell per location. */
  datatype View = View(list: seq<Node>, screen: seq<byte>)

  datatype Op = Add(node: Node) | Remove(arg: nat) | Find(location: u16) | Sync(arg: nat) | Tick
  datatype Reply = Done | Failed | Found(node: Node)

  predicate ViewOk(v: View) {
    && |v.screen| == SLOTS && |v.list| <= SLOTS
    && forall k :: 0 <= k < |v.list| ==> 0 < v.list[k].location < SLOTS && v.list[k].status in {0, 1}
  }

  /** A node as `mp1_ioctl_add` stores it: on, with its on time to run. */
  function Started(n: Node): Node {
    n.(status := 1, countdown := n.onLength)
  }

  /** One timer tick: the countdown wraps at 16 bits and is compared as a signed word. */
  function TickNode(n: Node): Node {
    var c := (n.countdown + 65535) % 65536;
    if 0 < c < 32768 then n.(countdown := c)
    else if n.status % 2 == 1 then n.(countdown := n.offLength, status := n.status - 1)
    else n.(countdown := n.onLength, status := n.status + 1)
  }

  predicate Toggles(n: Node) {
    var c := (n.countdown + 65535) % 65536;
    !(0 < c < 32768)
  }

  function Shown(n: Node): byte {
    if n.status % 2 == 1 then n.onChar else n.offChar
  }

  function TickScreen(list: seq<Node>, screen: seq<byte>): (r: seq<byte>)
    requires forall k :: 0 <= k < |list| ==> list[k].location < |screen|
    ensures |r| == |screen|
  {
    if list == [] then screen
    else
      var n := list[0];
      TickScreen(list[1..], if Toggles(n) then screen[n.location := Shown(TickNode(n))] else screen)
  }

  function TickList(list: seq<Node>): seq<Node> {
    seq(|list|, k requires 0 <= k < |list| => TickNode(list[k]))
  }

  function Retimed(target: Node, source: Node): Node {
    target.(onLength := source.onLength, offLength := source.offLength,
            countdown := source.countdown, status := source.status)
  }

  /** What each operation does to the list and the screen. The redraw after a sync always shows
      the off character. */
  function Step(v: View, op: Op): (View, Reply)
    requires ViewOk(v)
  {
    match op
    case Add(n) =>
      if n.location >= SLOTS || |v.list| == SLOTS then (v, Failed)
      else (View([Started(n)] + v.list, v.screen[n.location := n.onChar]), Done)
    case Remove(arg) =>
      var k := First(v.list, arg % 65536);
      if k == |v.list| then (v, Failed) else (v.(list := v.list[..k] + v.list[k + 1..]), Done)
    case Find(location) =>
      var k := First(v.list, location);
      if k == |v.list| then (v, Failed) else (v, Found(v.list[k]))
    case Sync(arg) =>
      var i := First(v.list, arg / 65536 % 65536);
      var j := First(v.list, arg % 65536);
      if i == |v.list| || j == |v.list| then (v, Failed)
      else (View(v.list[j := Retimed(v.list[j], v.list[i])], v.screen[v.list[j].location := v.list[j].offChar]), Done)
    case Tick => (View(TickList(v.list), TickScreen(v.list, v.screen)), Done)
  }

  // ----- the list in the pool -----

  function At(chain: seq<int>, k: nat): int {
    if k < |chain| then chain[k] else NIL
  }

  /** From `head`, the links visit exactly the slots of `chain`, once each, and end. */
  ghost predicate Linked(pool: seq<Slot>, head: int, chain: seq<int>) {
    && (forall k :: 0 <= k < |chain| ==> 0 <= chain[k] < |pool|)
    && (forall j, k :: 0 <= j < k < |chain| ==> chain[j] != chain[k])
    && head == At(chain, 0)
    && (forall k {:trigger pool[chain[k]]} :: 0 <= k < |chain| ==> pool[chain[k]].next == At(chain, k + 1))
  }

  /** The slots in use are exactly those with a nonzero location. */
  ghost predicate Shape(pool: seq<Slot>, head: int, chain: seq<int>) {
    && |pool| == SLOTS
    && Linked(pool, head, chain)
    && forall i {:trigger i in chain} :: 0 <= i < |pool| ==> (i in chain <==> pool[i].node.location != 0)
  }

  ghost function NodesOf(pool: seq<Slot>, chain: seq<int>): (list: seq<Node>)
    requires forall k :: 0 <= k < |chain| ==> 0 <= chain[k] < |pool|
    ensures |list| == |chain|
  {
    seq(|chain|, k requires 0 <= k < |chain| => pool[chain[k]].node)
  }

  /** The slot `mp1_malloc` picks, or 2000. */
  function FirstFree(pool: seq<Slot>, from: nat := 0): (i: nat)
    requires from <= |pool|
    ensures from <= i <= |pool|
    ensures i < |pool| ==> pool[i].node.location == 0
    ensures forall j :: from <= j < i ==> pool[j].node.location != 0
    decreases |pool| - from
  {
    if from == |pool| || pool[from].node.location == 0 then from else FirstFree(pool, from + 1)
  }

  /** The memory after an add, whatever the location. */
  function RawAdd(pool: seq<Slot>, head: int, n: Node): (seq<Slot>, int) {
    var i := FirstFree(pool);
    if n.location >= SLOTS || i == |pool| then (pool, head)
    else (pool[i := Slot(Started(n), head)], i)
  }

  /** Every slot is listed exactly when the list has 2000 nodes. */
  lemma {:induction false} PoolFull(pool: seq<Slot>, head: int, chain: seq<int>)
    requires Shape(pool, head, chain)
    ensures |chain| <= SLOTS
    ensures FirstFree(pool) == SLOTS <==> |chain| == SLOTS
  {
    CoverCount(chain, |pool|);
    var i := FirstFree(pool);
    if i == |pool| {
      assert forall j :: 0 <= j < |pool| ==> j in chain;
    } else {
      assert i !in chain;
    }
  }

  /** Distinct numbers below `n` are at most `n` many, and `n` many exactly when none is missing. */
  lemma {:induction false} CoverCount(chain: seq<int>, n: nat)
    requires forall j, k :: 0 <= j < k < |chain| ==> chain[j] != chain[k]
    requires forall k :: 0 <= k < |chain| ==> 0 <= chain[k] < n
    ensures |chain| <= n
    ensures |chain| == n <==> forall i :: 0 <= i < n ==> i in chain
  {
    var used := set k | 0 <= k < |chain| :: chain[k];
    var all := Upto(n);
    DistinctCount(chain);
    assert used <= all;
    SubsetCount(used, all);
    if forall i :: 0 <= i < n ==> i in chain {
      forall i | i in all
        ensures i in used
      {
        assert i in chain;
      }
      assert used == all;
    } else {
      var i :| 0 <= i < n && i !in chain;
      assert used <= all - {i};
      SubsetCount(used, all - {i});
    }
  }

  lemma {:induction false} DistinctCount(s: seq<int>)
    requires forall j, k :: 0 <= j < k < |s| ==> s[j] != s[k]
    ensures |set k | 0 <= k < |s| :: s[k]| == |s|
    decreases |s|
  {
    if s != [] {
      var t := s[..|s| - 1];
      DistinctCount(t);
      var x := s[|s| - 1];
      assert (set k | 0 <= k < |s| :: s[k]) == (set k | 0 <= k < |t| :: t[k]) + {x};
    }
  }

  ghost function Upto(n: nat): (s: set<int>)
    ensures forall i :: i in s <==> 0 <= i < n
    ensures |s| == n
  {
    if n == 0 then {} else Upto(n - 1) + {n - 1}
  }

  /** Adding keeps the shape if and only if the location is not zero. */
  lemma {:induction false} AddKeepsShapeIff(pool: seq<Slot>, head: int, chain: seq<int>, n: Node)
    requires Shape(pool, head, chain) && n.location < SLOTS && FirstFree(pool) < SLOTS
    ensures var (pool', head') := RawAdd(pool, head, n);
      (exists chain' :: Shape(pool', head', chain')) <==> n.location != 0
  {
    var i := FirstFree(pool);
    var (pool', head') := RawAdd(pool, head, n);
    if n.location != 0 {
      AddShape(pool, head, chain, n);
      assert Shape(pool', head', [i] + chain);
    } else {
      forall chain'
        ensures !Shape(pool', head', chain')
      {
        assert At(chain', 0) != NIL ==> At(chain', 0) in chain';
      }
    }
  }

  lemma {:induction false} AddShape(pool: seq<Slot>, head: int, chain: seq<int>, n: Node)
    requires Shape(pool, head, chain) && 0 < n.location < SLOTS && FirstFree(pool) < SLOTS
    ensures var (pool', head') := RawAdd(pool, head, n);
      && Shape(pool', head', [FirstFree(pool)] + chain)
      && NodesOf(pool', [FirstFree(pool)] + chain) == [Started(n)] + NodesOf(pool, chain)
  {
    var i := FirstFree(pool);
    var slot := Slot(Started(n), head);
    assert i !in chain;
    LinkFront(pool, head, chain, i, slot);
    forall j | 0 <= j < SLOTS
      ensures j in [i] + chain <==> pool[i := slot][j].node.location != 0
    {
      assert j in [i] + chain <==> j == i || j in chain;
    }
  }

  /** Writing a slot that is not in the list and linking it in front of the list. */
  lemma {:induction false} LinkFront(pool: seq<Slot>, head: int, chain: seq<int>, i: nat, slot: Slot)
    requires Linked(pool, head, chain) && i < |pool| && i !in chain && slot.next == head
    ensures Linked(pool[i := slot], i, [i] + chain)
    ensures NodesOf(pool[i := slot], [i] + chain) == [slot.node] + NodesOf(pool, chain)
  {
    var pool' := pool[i := slot];
    var chain' := [i] + chain;
    forall k | 0 <= k < |chain'|
      ensures 0 <= chain'[k] < |pool'| && pool'[chain'[k]].next == At(chain', k + 1)
    {
      LinkFrontAt(pool, head, chain, i, slot, k);
    }
    forall k | 0 <= k < |chain'|
      ensures NodesOf(pool', chain')[k] == ([slot.node] + NodesOf(pool, chain))[k]
    {
      LinkFrontAt(pool, head, chain, i, slot, k);
    }
  }

  lemma {:induction false} LinkFrontAt(pool: seq<Slot>, head: int, chain: seq<int>, i: nat, slot: Slot, k: nat)
    requires Linked(pool, head, chain) && i < |pool| && i !in chain && slot.next == head && k <= |chain|
    ensures var chain' := [i] + chain;
      && 0 <= chain'[k] < |pool|
      && pool[i := slot][chain'[k]].next == At(chain', k + 1)
      && pool[i := slot][chain'[k]].node == if k == 0 then slot.node else pool[chain[k - 1]].node
  {
    if k > 0 {
      assert chain[k - 1] in chain;
      assert pool[chain[k - 1]].next == At(chain, k);
    }
  }

  /** After an add at location 0 the next add takes the same slot again and links it to itself,
      so that walking the list never ends. */
  lemma {:induction false} ZeroLocationLoops(pool: seq<Slot>, head: int, chain: seq<int>, n: Node, m: Node)
    requires Shape(pool, head, chain) && FirstFree(pool) < SLOTS && n.location == 0 && m.location < SLOTS
    ensures var (pool1, head1) := RawAdd(pool, head, n);
      var (pool2, head2) := RawAdd(pool1, head1, m);
      && head2 == FirstFree(pool)
      && pool2[head2].next == head2
      && forall chain' :: !Linked(pool2, head2, chain')
  {
    var i := FirstFree(pool);
    var (pool1, head1) := RawAdd(pool, head, n);
    FirstFreeIs(pool1, i);
    var (pool2, head2) := RawAdd(pool1, head1, m);
    forall chain'
      ensures !Linked(pool2, head2, chain')
    {
      SelfLinkNeverEnds(pool2, head2, chain');
    }
  }

  lemma {:induction false} SelfLinkNeverEnds(pool: seq<Slot>, i: nat, chain: seq<int>)
    requires i < |pool| && pool[i].next == i
    ensures !Linked(pool, i, chain)
  {
    if |chain| > 0 && 0 <= chain[0] < |pool| {
      var link := pool[chain[0]].next;
    }
  }

  lemma {:induction false} FirstFreeIs(pool: seq<Slot>, i: nat)
    requires i < |pool| && pool[i].node.location == 0
    requires forall j :: 0 <= j < i ==> pool[j].node.location != 0
    ensures FirstFree(pool) == i
  {
  }

  lemma {:induction false} FirstIs(list: seq<Node>, location: u16, k: nat)
    requires k <= |list|
    requires k < |list| ==> list[k].location == location
    requires forall j :: 0 <= j < k ==> list[j].location != location
    ensures First(list, location) == k
  {
  }
}
