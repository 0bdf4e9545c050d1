/**
 When a blink is on, over whole runs of the driver (fish/blink.S).
 */
module BlinkTiming {
  import opened Bytes
  import opened Blink
  import BlinkDriver

  /** How many ticks a countdown lasts: as many as it says from 1 to 32768, otherwise one. */
  function Lasts(countdown: u16): nat {
    if 1 <= countdown <= 32768 then countdown else 1
  }

  function After(n: Node, t: nat): Node {
    if t == 0 then n else TickNode(After(n, t - 1))
  }

  lemma {:induction false} ModStep(t: nat, p: nat)
    requires p > 0
    ensures (t + 1) % p == if t % p == p - 1 then 0 else t % p + 1
  {
    var q := t / p;
    if t % p == p - 1 {
      assert t + 1 == (q + 1) * p + 0;
      DivMod(q + 1, p, 0);
    } else {
      assert t + 1 == q * p + (t % p + 1);
      DivMod(q, p, t % p + 1);
    }
  }

  /** Where a node `x`, started as `n`, stands `m` ticks into its period. */
  predicate Stands(n: Node, x: Node, m: nat) {
    var a, b := Lasts(n.onLength), Lasts(n.offLength);
    && m < a + b
    && (x.status == 1 <==> m < a) && x.status in {0, 1}
    && Lasts(x.countdown) == (if m < a then a - m else a + b - m)
    && x == n.(status := x.status, countdown := x.countdown)
  }

  lemma {:induction false} StandsNext(n: Node, x: Node, m: nat)
    requires Stands(n, x, m)
    ensures Stands(n, TickNode(x), if m == Lasts(n.onLength) + Lasts(n.offLength) - 1 then 0 else m + 1)
  {
  }

  /** The closed form: with on and off times of a and b ticks, t ticks after the start the node is
      on iff t mod (a + b) < a, and its countdown lasts to the next change. */
  lemma {:induction false} ClosedForm(n: Node, t: nat)
    requires n == Started(n)
    ensures Stands(n, After(n, t), t % (Lasts(n.onLength) + Lasts(n.offLength)))
  {
    var p := Lasts(n.onLength) + Lasts(n.offLength);
    if t == 0 {
      DivMod(0, p, 0);
    } else {
      ClosedForm(n, t - 1);
      StandsNext(n, After(n, t - 1), (t - 1) % p);
      ModStep(t - 1, p);
    }
  }

  /** With both lengths in 1..32768 the countdown field itself is the distance to the next change. */
  lemma {:induction false} NominalCountdown(n: Node, t: nat)
    requires n == Started(n) && 1 <= n.onLength <= 32768 && 1 <= n.offLength <= 32768
    ensures 1 <= After(n, t).countdown <= 32768
    ensures var m := t % (n.onLength + n.offLength);
      After(n, t).countdown == if m < n.onLength then n.onLength - m else n.onLength + n.offLength - m
  {
    CountdownStays(n, t);
    ClosedForm(n, t);
  }

  lemma {:induction false} CountdownStays(n: Node, t: nat)
    requires n == Started(n) && 1 <= n.onLength <= 32768 && 1 <= n.offLength <= 32768
    ensures 1 <= After(n, t).countdown <= 32768
  {
    if t > 0 {
      CountdownStays(n, t - 1);
      ClosedForm(n, t - 1);
    }
  }

  // ----- what each operation does -----

  /** The node a search from the front finds at a location. */
  ghost predicate Newest(list: seq<Node>, location: u16, k: nat) {
    k < |list| && list[k].location == location && forall j :: 0 <= j < k ==> list[j].location != location
  }

  ghost predicate NoneAt(list: seq<Node>, location: u16) {
    forall j :: 0 <= j < |list| ==> list[j].location != location
  }

  /** An add fails exactly for a location off the screen or a full pool, and then changes nothing. Otherwise it puts in
      front of the list a node with the given location, characters and lengths, on and with its whole on time to run,
      and shows its on character. */
  lemma {:induction false} AddStarts(v: View, n: Node)
    requires ViewOk(v)
    ensures var (v', r) := Blink.Step(v, Blink.Add(n));
      if n.location >= 2000 || |v.list| == 2000 then v' == v && r == Failed
      else
        && r == Done && |v'.list| == |v.list| + 1 && v'.list[1..] == v.list
        && v'.screen == v.screen[n.location := n.onChar]
        && var x := v'.list[0];
        && x.location == n.location && x.onChar == n.onChar && x.offChar == n.offChar
        && x.onLength == n.onLength && x.offLength == n.offLength && x.countdown == n.onLength && x.status == 1
    ensures n.location != 0 ==> ViewOk(Blink.Step(v, Blink.Add(n)).0)
  {
    if n.location != 0 {
      BlinkDriver.StepOk(v, Blink.Add(n));
    }
  }

  /** A find and a remove fail exactly where no node is, and then change nothing; otherwise they hit the newest. */
  lemma {:induction false} FindAndRemove(v: View, arg: nat, k: nat)
    requires ViewOk(v) && (NoneAt(v.list, arg % 65536) || Newest(v.list, arg % 65536, k))
    ensures var (v', r) := Blink.Step(v, Blink.Find(arg % 65536));
      v' == v && r == if NoneAt(v.list, arg % 65536) then Failed else Found(v.list[k])
    ensures Blink.Step(v, Blink.Remove(arg)) ==
      if NoneAt(v.list, arg % 65536) then (v, Failed) else (View(v.list[..k] + v.list[k + 1..], v.screen), Done)
  {
    if !NoneAt(v.list, arg % 65536) {
      FirstIs(v.list, arg % 65536, k);
    }
  }

  /** A sync fails exactly when one of the two locations has no node, and then changes nothing. Otherwise the newest
      node at the low half takes times, countdown and status of the newest at the high half, keeping its place, location
      and characters, no other node changes, and its cell shows its off character. */
  lemma {:induction false} SyncExactly(v: View, arg: nat, i: nat, j: nat)
    requires ViewOk(v)
    requires NoneAt(v.list, arg / 65536 % 65536) || Newest(v.list, arg / 65536 % 65536, i)
    requires NoneAt(v.list, arg % 65536) || Newest(v.list, arg % 65536, j)
    ensures var (v', r) := Blink.Step(v, Blink.Sync(arg));
      if NoneAt(v.list, arg / 65536 % 65536) || NoneAt(v.list, arg % 65536) then v' == v && r == Failed
      else
        && r == Done && |v'.list| == |v.list| && (forall k :: 0 <= k < |v.list| && k != j ==> v'.list[k] == v.list[k])
        && v'.screen == v.screen[arg % 65536 := v.list[j].offChar]
        && var x := v'.list[j];
        && x.location == arg % 65536 && x.onChar == v.list[j].onChar && x.offChar == v.list[j].offChar
        && InPhase(x, v.list[i])
  {
    if !NoneAt(v.list, arg / 65536 % 65536) {
      FirstIs(v.list, arg / 65536 % 65536, i);
    }
    if !NoneAt(v.list, arg % 65536) {
      FirstIs(v.list, arg % 65536, j);
    }
  }

  /** Removing what was just added gives the list back, and a find between the two reports it: the
      newest node at a location is the one found and the one removed. */
  lemma {:induction false} RemoveUndoesAdd(v: View, n: Node)
    requires ViewOk(v) && |v.list| < SLOTS && 0 < n.location < SLOTS
    ensures ViewOk(Blink.Step(v, Blink.Add(n)).0)
    ensures var added := Blink.Step(v, Blink.Add(n)).0;
      && Blink.Step(added, Blink.Find(n.location)).1 == Found(Started(n))
      && Blink.Step(added, Blink.Remove(n.location)).0.list == v.list
  {
    AddStarts(v, n);
    var added := Blink.Step(v, Blink.Add(n)).0;
    assert added.list == [Started(n)] + v.list;
    FrontIsNewest(added);
  }

  lemma {:induction false} FrontIsNewest(v: View)
    requires ViewOk(v) && v.list != []
    ensures var n := v.list[0];
      && Blink.Step(v, Blink.Find(n.location)).1 == Found(n)
      && Blink.Step(v, Blink.Remove(n.location)).0.list == v.list[1..]
  {
    FirstIs(v.list, v.list[0].location, 0);
    assert v.list[..0] + v.list[1..] == v.list[1..];
  }

  // ----- inside any run -----

  const GONE := -1

  ghost predicate Located(ops: seq<Op>) {
    forall i :: 0 <= i < |ops| && ops[i].Add? ==> ops[i].node.location != 0
  }

  /** Where node `k` of the list is after an operation, or `GONE` if that removed or re-timed it. */
  function Track(v: View, op: Op, k: nat): (j: int)
    requires ViewOk(v) && k < |v.list|
    ensures j < |Blink.Step(v, op).0.list|
    ensures j >= 0 ==> Blink.Step(v, op).0.list[j] == if op.Tick? then TickNode(v.list[k]) else v.list[k]
  {
    match op
    case Add(_) => if Blink.Step(v, op).1 == Done then k + 1 else k
    case Remove(arg) =>
      var r := First(v.list, arg % 65536);
      if r == k then GONE else if r < k then k - 1 else k
    case Sync(arg) =>
      if Blink.Step(v, op).1 == Done && First(v.list, arg % 65536) == k then GONE else k
    case Find(_) => k
    case Tick => k
  }

  /** Where node `k` is after a run, or `GONE`. */
  ghost function TrackAll(v: View, ops: seq<Op>, k: nat): (j: int)
    requires ViewOk(v) && Located(ops) && k < |v.list|
    ensures j < |BlinkDriver.Run(v, ops).list|
  {
    if ops == [] then k
    else
      var before := ops[..|ops| - 1];
      var j := TrackAll(v, before, k);
      if j < 0 then GONE else Track(BlinkDriver.Run(v, before), ops[|ops| - 1], j)
  }

  function Ticks(ops: seq<Op>): nat {
    if ops == [] then 0 else Ticks(ops[..|ops| - 1]) + if ops[|ops| - 1].Tick? then 1 else 0
  }

  /** A node that a run does not remove or re-time has aged by exactly the ticks of the run,
      whatever else the run adds, removes and syncs, there or elsewhere. */
  lemma {:induction false} RunAges(v: View, ops: seq<Op>, k: nat)
    requires ViewOk(v) && Located(ops) && k < |v.list| && TrackAll(v, ops, k) >= 0
    ensures BlinkDriver.Run(v, ops).list[TrackAll(v, ops, k)] == After(v.list[k], Ticks(ops))
  {
    if ops != [] {
      RunAges(v, ops[..|ops| - 1], k);
    }
  }

  /** Two nodes never change places. */
  lemma {:induction false} RunKeepsOrder(v: View, ops: seq<Op>, k: nat, m: nat)
    requires ViewOk(v) && Located(ops) && k < m < |v.list|
    requires TrackAll(v, ops, k) >= 0 && TrackAll(v, ops, m) >= 0
    ensures TrackAll(v, ops, k) < TrackAll(v, ops, m)
  {
    if ops != [] {
      RunKeepsOrder(v, ops[..|ops| - 1], k, m);
    }
  }

  lemma {:induction false} AgedStands(start: View, ops: seq<Op>, k: nat)
    requires ViewOk(start) && Located(ops) && k < |start.list| && start.list[k] == Started(start.list[k])
    requires TrackAll(start, ops, k) >= 0
    ensures var n := start.list[k];
      Stands(n, BlinkDriver.Run(start, ops).list[TrackAll(start, ops, k)],
             Ticks(ops) % (Lasts(n.onLength) + Lasts(n.offLength)))
  {
    RunAges(start, ops, k);
    ClosedForm(start.list[k], Ticks(ops));
  }

  /** The closed form inside any run: a blink that was started and not removed or re-timed since is
      on or off by the ticks of the run alone, and a find reports it unless a newer one covers it. */
  lemma {:induction false} BlinkOnTime(start: View, ops: seq<Op>, k: nat)
    requires ViewOk(start) && Located(ops) && k < |start.list| && start.list[k] == Started(start.list[k])
    ensures var n, j, end := start.list[k], TrackAll(start, ops, k), BlinkDriver.Run(start, ops);
      j >= 0 ==>
        && Stands(n, end.list[j], Ticks(ops) % (Lasts(n.onLength) + Lasts(n.offLength)))
        && (Blink.Step(end, Blink.Find(n.location)).1 == Found(end.list[j]) || First(end.list, n.location) < j)
  {
    var j := TrackAll(start, ops, k);
    if j >= 0 {
      AgedStands(start, ops, k);
      FindReports(BlinkDriver.Run(start, ops), j);
    }
  }

  /** The same for a blink just added: all its fields. */
  lemma {:induction false} AddedOnTime(v: View, n: Node, ops: seq<Op>)
    requires ViewOk(v) && |v.list| < SLOTS && 0 < n.location < SLOTS && Located(ops)
    ensures var start := Blink.Step(v, Blink.Add(n)).0;
      && ViewOk(start) && start.list != []
      && var j, end := TrackAll(start, ops, 0), BlinkDriver.Run(start, ops);
         j >= 0 ==> OnTime(n, end.list[j], Ticks(ops))
  {
    AddStarts(v, n);
    var start := Blink.Step(v, Blink.Add(n)).0;
    assert start.list[0] == n.(status := 1, countdown := n.onLength);
    if TrackAll(start, ops, 0) >= 0 {
      StartedOnTime(start, ops, n);
    }
  }

  lemma {:induction false} StartedOnTime(start: View, ops: seq<Op>, n: Node)
    requires ViewOk(start) && Located(ops) && start.list != []
    requires start.list[0] == n.(status := 1, countdown := n.onLength) && TrackAll(start, ops, 0) >= 0
    ensures OnTime(n, BlinkDriver.Run(start, ops).list[TrackAll(start, ops, 0)], Ticks(ops))
  {
    AgedStands(start, ops, 0);
    StandsOnTime(n, BlinkDriver.Run(start, ops).list[TrackAll(start, ops, 0)], Ticks(ops));
  }

  lemma {:induction false} StandsOnTime(n: Node, x: Node, t: nat)
    requires Stands(n.(status := 1, countdown := n.onLength), x, t % (Lasts(n.onLength) + Lasts(n.offLength)))
    ensures OnTime(n, x, t)
  {
  }

  /** What a node handed to an add has become `t` ticks later. */
  predicate OnTime(n: Node, x: Node, t: nat) {
    var a, b := Lasts(n.onLength), Lasts(n.offLength);
    var m := t % (a + b);
    && x.location == n.location && x.onChar == n.onChar && x.offChar == n.offChar
    && x.onLength == n.onLength && x.offLength == n.offLength
    && x.status == (if m < a then 1 else 0)
    && Lasts(x.countdown) == (if m < a then a - m else a + b - m)
  }

  lemma {:induction false} FindReports(v: View, j: nat)
    requires ViewOk(v) && j < |v.list|
    ensures var location := v.list[j].location;
      Blink.Step(v, Blink.Find(location)).1 == Found(v.list[j]) || First(v.list, location) < j
  {
  }

  /** Two nodes with the same times and phase. */
  predicate InPhase(x: Node, y: Node) {
    x.onLength == y.onLength && x.offLength == y.offLength && x.countdown == y.countdown && x.status == y.status
  }

  lemma {:induction false} PhaseStays(x: Node, y: Node, t: nat)
    requires InPhase(x, y)
    ensures InPhase(After(x, t), After(y, t))
  {
    if t > 0 {
      PhaseStays(x, y, t - 1);
    }
  }

  /** After a sync, source and target stay in phase until one of them is removed or re-timed. */
  lemma {:induction false} SyncedStayInPhase(v: View, arg: nat, ops: seq<Op>)
    requires ViewOk(v) && Blink.Step(v, Blink.Sync(arg)).1 == Done && Located(ops)
    ensures ViewOk(Blink.Step(v, Blink.Sync(arg)).0)
    ensures var start := Blink.Step(v, Blink.Sync(arg)).0;
      var source, target := First(v.list, arg / 65536 % 65536), First(v.list, arg % 65536);
      var i, j, end := TrackAll(start, ops, source), TrackAll(start, ops, target), BlinkDriver.Run(start, ops);
      i >= 0 && j >= 0 ==> InPhase(end.list[i], end.list[j])
  {
    BlinkDriver.StepOk(v, Blink.Sync(arg));
    var start := Blink.Step(v, Blink.Sync(arg)).0;
    var source, target := First(v.list, arg / 65536 % 65536), First(v.list, arg % 65536);
    if TrackAll(start, ops, source) >= 0 && TrackAll(start, ops, target) >= 0 {
      RunAges(start, ops, source);
      RunAges(start, ops, target);
      PhaseStays(start.list[source], start.list[target], Ticks(ops));
    }
  }

  // ----- a location nobody else uses -----

  /** The operation neither adds, removes nor re-times a node at the location. */
  predicate Leaves(op: Op, location: u16) {
    match op
    case Add(n) => n.location != 0 && n.location != location
    case Remove(arg) => arg % 65536 != location
    case Sync(arg) => arg % 65536 != location
    case Find(_) => true
    case Tick => true
  }

  ghost predicate AllLeave(ops: seq<Op>, location: u16) {
    forall i :: 0 <= i < |ops| ==> Leaves(ops[i], location)
  }

  lemma {:induction false} FirstCons(list: seq<Node>, m: Node, location: u16)
    requires m.location != location
    ensures First([m] + list, location) == First(list, location) + 1
  {
    var all := [m] + list;
    assert forall j :: 1 <= j < |all| ==> all[j] == list[j - 1];
    FirstIs(all, location, First(list, location) + 1);
  }

  lemma {:induction false} FirstSkip(list: seq<Node>, r: nat, location: u16)
    requires r < |list| && list[r].location != location && First(list, location) < |list|
    ensures var k, rest := First(list, location), list[..r] + list[r + 1..];
      && First(rest, location) == (if k < r then k else k - 1)
      && forall j :: 0 <= j < |rest| ==> rest[j] == list[if j < r then j else j + 1]
  {
    var k := First(list, location);
    FirstIs(list[..r] + list[r + 1..], location, if k < r then k else k - 1);
  }

  lemma {:induction false} FirstSame(list: seq<Node>, list': seq<Node>, location: u16)
    requires |list| == |list'| && forall j :: 0 <= j < |list| ==> list[j].location == list'[j].location
    ensures First(list', location) == First(list, location)
  {
    FirstIs(list', location, First(list, location));
  }

  lemma {:induction false} RemoveLeaves(v: View, arg: nat, location: u16)
    requires ViewOk(v) && arg % 65536 != location && First(v.list, location) < |v.list|
    ensures Track(v, Blink.Remove(arg), First(v.list, location))
      == First(Blink.Step(v, Blink.Remove(arg)).0.list, location)
  {
    if First(v.list, arg % 65536) < |v.list| {
      FirstSkip(v.list, First(v.list, arg % 65536), location);
    }
  }

  lemma {:induction false} StepLeaves(v: View, op: Op, location: u16)
    requires ViewOk(v) && Leaves(op, location) && First(v.list, location) < |v.list|
    ensures Track(v, op, First(v.list, location)) == First(Blink.Step(v, op).0.list, location)
  {
    var list := Blink.Step(v, op).0.list;
    match op
    case Add(m) =>
      FirstCons(v.list, Started(m), location);
    case Remove(arg) => RemoveLeaves(v, arg, location);
    case Sync(arg) => FirstSame(v.list, list, location);
    case Find(l) =>
    case Tick => FirstSame(v.list, list, location);
  }

  /** A run that adds, removes and re-times nothing at a location keeps track of the node a find
      reports there: the same one, aged by the ticks of the run. */
  lemma {:induction false} RunLeaves(v: View, ops: seq<Op>, location: u16)
    requires ViewOk(v) && AllLeave(ops, location) && First(v.list, location) < |v.list|
    ensures TrackAll(v, ops, First(v.list, location)) == First(BlinkDriver.Run(v, ops).list, location)
    ensures Blink.Step(BlinkDriver.Run(v, ops), Blink.Find(location)).1
      == Found(After(v.list[First(v.list, location)], Ticks(ops)))
  {
    LeavesTrack(v, ops, location);
    RunAges(v, ops, First(v.list, location));
  }

  lemma {:induction false} LeavesTrack(v: View, ops: seq<Op>, location: u16)
    requires ViewOk(v) && AllLeave(ops, location) && First(v.list, location) < |v.list|
    ensures TrackAll(v, ops, First(v.list, location)) == First(BlinkDriver.Run(v, ops).list, location)
  {
    if ops != [] {
      var before := ops[..|ops| - 1];
      LeavesTrack(v, before, location);
      StepLeaves(BlinkDriver.Run(v, before), ops[|ops| - 1], location);
    }
  }

  // ----- what the screen shows -----

  /** The location has one node, and its cell shows that node. */
  ghost predicate Displayed(v: View, location: u16) {
    var k := First(v.list, location);
    && k < |v.list| && location < |v.screen|
    && Alone(v.list, k)
    && v.screen[location] == Shown(v.list[k])
  }

  lemma {:induction false} TickElsewhere(list: seq<Node>, screen: seq<byte>, location: u16)
    requires location < |screen|
    requires forall k :: 0 <= k < |list| ==> list[k].location < |screen| && list[k].location != location
    ensures TickScreen(list, screen)[location] == screen[location]
  {
    if list != [] {
      var n := list[0];
      TickElsewhere(list[1..], if Toggles(n) then screen[n.location := Shown(TickNode(n))] else screen, location);
    }
  }

  lemma {:induction false} TickAlone(list: seq<Node>, screen: seq<byte>, k: nat)
    requires k < |list| && forall j :: 0 <= j < |list| ==> list[j].location < |screen|
    requires Alone(list, k)
    ensures TickScreen(list, screen)[list[k].location] ==
      if Toggles(list[k]) then Shown(TickNode(list[k])) else screen[list[k].location]
  {
    var n := list[0];
    var screen' := if Toggles(n) then screen[n.location := Shown(TickNode(n))] else screen;
    if k == 0 {
      TickElsewhere(list[1..], screen', n.location);
    } else {
      TickAlone(list[1..], screen', k - 1);
    }
  }

  /** No other node of the list is at the location of node `k`. */
  ghost predicate Alone(list: seq<Node>, k: nat)
    requires k < |list|
  {
    forall j :: 0 <= j < |list| && j != k ==> list[j].location != list[k].location
  }

  lemma {:induction false} ConsAlone(list: seq<Node>, m: Node, location: u16)
    requires m.location != location && First(list, location) < |list| && Alone(list, First(list, location))
    ensures First([m] + list, location) < |list| + 1 && Alone([m] + list, First([m] + list, location))
  {
    FirstCons(list, m, location);
    var all := [m] + list;
    assert forall j :: 1 <= j < |all| ==> all[j] == list[j - 1];
  }

  lemma {:induction false} SkipAlone(list: seq<Node>, r: nat, location: u16)
    requires r < |list| && list[r].location != location && First(list, location) < |list|
    requires Alone(list, First(list, location))
    ensures var rest := list[..r] + list[r + 1..]; First(rest, location) < |rest| && Alone(rest, First(rest, location))
  {
    FirstSkip(list, r, location);
    var k := First(list, location);
    var rest := list[..r] + list[r + 1..];
    FirstIs(rest, location, if k < r then k else k - 1);
  }

  lemma {:induction false} RemoveAlone(v: View, arg: nat, location: u16)
    requires ViewOk(v) && arg % 65536 != location
    requires First(v.list, location) < |v.list| && Alone(v.list, First(v.list, location))
    ensures var list := Blink.Step(v, Blink.Remove(arg)).0.list;
      First(list, location) < |list| && Alone(list, First(list, location))
  {
    if First(v.list, arg % 65536) < |v.list| {
      SkipAlone(v.list, First(v.list, arg % 65536), location);
    }
  }

  lemma {:induction false} StepAlone(v: View, op: Op, location: u16)
    requires ViewOk(v) && Leaves(op, location) && !op.Tick?
    requires First(v.list, location) < |v.list| && Alone(v.list, First(v.list, location))
    ensures var list := Blink.Step(v, op).0.list;
      First(list, location) < |list| && Alone(list, First(list, location))
  {
    match op
    case Add(m) => ConsAlone(v.list, Started(m), location);
    case Remove(arg) => RemoveAlone(v, arg, location);
    case Sync(arg) => FirstSame(v.list, Blink.Step(v, op).0.list, location);
    case Find(l) =>
  }

  lemma {:induction false} StepDisplays(v: View, op: Op, location: u16)
    requires ViewOk(v) && Leaves(op, location) && Displayed(v, location)
    ensures Displayed(Blink.Step(v, op).0, location)
  {
    var k := First(v.list, location);
    var v' := Blink.Step(v, op).0;
    StepLeaves(v, op, location);
    if op.Tick? {
      FirstSame(v.list, v'.list, location);
      TickAlone(v.list, v.screen, k);
    } else {
      StepAlone(v, op, location);
    }
  }

  /** A cell that shows its only node goes on showing it through any run that leaves it alone. */
  lemma {:induction false} RunDisplays(v: View, ops: seq<Op>, location: u16)
    requires ViewOk(v) && AllLeave(ops, location) && Displayed(v, location)
    ensures Displayed(BlinkDriver.Run(v, ops), location)
  {
    if ops != [] {
      RunDisplays(v, ops[..|ops| - 1], location);
      StepDisplays(BlinkDriver.Run(v, ops[..|ops| - 1]), ops[|ops| - 1], location);
    }
  }

  /** A blink added where no other is, through any run that leaves its location alone: after `t` ticks its cell shows
      its on character if t mod (a + b) < a, and its off character otherwise. */
  lemma {:induction false} AddedShows(v: View, n: Node, ops: seq<Op>)
    requires ViewOk(v) && |v.list| < SLOTS && 0 < n.location < SLOTS
    requires NoneAt(v.list, n.location) && AllLeave(ops, n.location)
    ensures var start := Blink.Step(v, Blink.Add(n)).0;
      && ViewOk(start)
      && BlinkDriver.Run(start, ops).screen[n.location] ==
         if Ticks(ops) % (Lasts(n.onLength) + Lasts(n.offLength)) < Lasts(n.onLength) then n.onChar else n.offChar
  {
    AddStarts(v, n);
    var start := Blink.Step(v, Blink.Add(n)).0;
    AddDisplays(v, start, n);
    RunDisplays(start, ops, n.location);
    AddedOnTime(v, n, ops);
    LeavesTrack(start, ops, n.location);
  }

  lemma {:induction false} AddDisplays(v: View, start: View, n: Node)
    requires ViewOk(start) && NoneAt(v.list, n.location) && n.location < |start.screen|
    requires |start.list| == |v.list| + 1 && start.list[1..] == v.list
    requires start.list[0].location == n.location && start.screen[n.location] == Shown(start.list[0])
    ensures First(start.list, n.location) == 0 && Displayed(start, n.location)
  {
    FirstIs(start.list, n.location, 0);
    assert forall j :: 1 <= j < |start.list| ==> start.list[j] == v.list[j - 1];
  }

  /** A tick redraws exactly the nodes whose status it changes. */
  lemma {:induction false} TogglesIff(n: Node)
    requires n.status in {0, 1}
    ensures Toggles(n) <==> TickNode(n).status != n.status
    ensures Toggles(n) ==> TickNode(n).status == 1 - n.status
    ensures Shown(n) == if n.status == 1 then n.onChar else n.offChar
  {
  }

  /** What a tick leaves in a cell: of the nodes there that change, the oldest is drawn last; if none changes, what was
      shown before. */
  lemma {:induction false} TickShows(list: seq<Node>, screen: seq<byte>, location: u16, k: nat)
    requires location < |screen| && forall j :: 0 <= j < |list| ==> list[j].location < |screen|
    requires forall j :: k <= j < |list| && list[j].location == location ==> !Toggles(list[j])
    requires k <= |list| && (k > 0 ==> list[k - 1].location == location && Toggles(list[k - 1]))
    ensures TickScreen(list, screen)[location] == if k == 0 then screen[location] else Shown(TickNode(list[k - 1]))
    decreases |list|
  {
    if list != [] {
      var n := list[0];
      var screen' := if Toggles(n) then screen[n.location := Shown(TickNode(n))] else screen;
      TickShows(list[1..], screen', location, if k == 0 then 0 else k - 1);
    }
  }

  /** The redraw of a sync leaves the right character in the target's cell exactly when the source
      is off or the target's two characters are the same. */
  lemma {:induction false} SyncRedraw(v: View, arg: nat)
    requires ViewOk(v) && Blink.Step(v, Blink.Sync(arg)).1 == Done
    ensures var source, target := First(v.list, arg / 65536 % 65536), First(v.list, arg % 65536);
      var v' := Blink.Step(v, Blink.Sync(arg)).0;
      (v'.screen[v.list[target].location] == Shown(v'.list[target])) <==>
        v.list[source].status == 0 || v.list[target].onChar == v.list[target].offChar
  {
    assert v.list[First(v.list, arg / 65536 % 65536)].status in {0, 1};
  }
}
