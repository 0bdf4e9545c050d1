/**
 Three terminals behind one screen and one line buffer: the live state is swapped against three
 saved copies (student-distrib/keyboard.c, student-distrib/terminal.c, student-distrib/lib.c).
 */
module Terminals {
  import opened Bytes
  import C = Console
  import L = ScreenLog
  import opened LineEditor

  const COUNT := 3

  // ----- the terminals as values -----

  /** `saved[t]` is what terminal t + 1 had when it was last left. */
  datatype State = State(current: nat, live: C.Console, saved: seq<C.Console>)

  ghost predicate StateOk(st: State) {
    && st.current < COUNT == |st.saved| && C.ConsoleOk(st.live)
    && forall t :: 0 <= t < COUNT ==> C.ConsoleOk(st.saved[t])
  }

  /** What belongs to a terminal: the live state while it is current, its saved copy otherwise. */
  ghost function ViewOf(st: State, t: nat): C.Console
    requires StateOk(st) && t < COUNT
  {
    if t == st.current then st.live else st.saved[t]
  }

  datatype Op = Switch(t: nat) | Local(a: C.Action)

  ghost function Step(st: State, op: Op): (r: State)
    requires StateOk(st) && (op.Switch? ==> op.t < COUNT)
    ensures StateOk(r)
  {
    match op
    case Switch(t) =>
      var saved := st.saved[st.current := st.live];
      State(t, saved[t], saved)
    case Local(a) => st.(live := C.Act(st.live, a))
  }

  ghost predicate Switches(ops: seq<Op>) {
    forall i :: 0 <= i < |ops| && ops[i].Switch? ==> ops[i].t < COUNT
  }

  ghost function Run(st: State, ops: seq<Op>): (r: State)
    requires StateOk(st) && Switches(ops)
    ensures StateOk(r)
    decreases |ops|
  {
    if ops == [] then st else Run(Step(st, ops[0]), ops[1..])
  }

  /** The actions that happened while terminal t was current. */
  ghost function Own(current: nat, ops: seq<Op>, t: nat): seq<C.Action>
    decreases |ops|
  {
    if ops == [] then []
    else match ops[0]
      case Switch(u) => Own(u, ops[1..], t)
      case Local(a) => (if current == t then [a] else []) + Own(current, ops[1..], t)
  }

  /** One console on its own. */
  ghost function Alone(con: C.Console, acts: seq<C.Action>): (r: C.Console)
    requires C.ConsoleOk(con)
    ensures C.ConsoleOk(r)
    decreases |acts|
  {
    if acts == [] then con else Alone(C.Act(con, acts[0]), acts[1..])
  }

  /** A switch, also to the current terminal, changes no terminal. */
  lemma {:induction false} SwitchKeepsViews(st: State, u: nat, t: nat)
    requires StateOk(st) && u < COUNT && t < COUNT
    ensures ViewOf(Step(st, Switch(u)), t) == ViewOf(st, t)
  {
  }

  /** Isolation: after any run, each terminal is what it would be had it been the only one, with
      just the actions that happened while it was current. */
  lemma {:induction false} TerminalsIsolated(st: State, ops: seq<Op>, t: nat)
    requires StateOk(st) && Switches(ops) && t < COUNT
    ensures ViewOf(Run(st, ops), t) == Alone(ViewOf(st, t), Own(st.current, ops, t))
    decreases |ops|
  {
    if ops != [] {
      var st' := Step(st, ops[0]);
      TerminalsIsolated(st', ops[1..], t);
      match ops[0]
      case Switch(u) => SwitchKeepsViews(st, u, t);
      case Local(a) =>
        if st.current == t {
          var rest := Own(st.current, ops[1..], t);
          assert ([a] + rest)[0] == a && ([a] + rest)[1..] == rest;
        } else {
          assert [] + Own(st.current, ops[1..], t) == Own(st.current, ops[1..], t);
        }
    }
  }

  /** The keys since the last read. */
  ghost function KeysSince(acts: seq<C.Action>): seq<Key> {
    if acts == [] then []
    else
      var before := KeysSince(acts[..|acts| - 1]);
      match acts[|acts| - 1]
      case Type(c) => before + [Press(c)]
      case Backspace => before + [Erase]
      case Read(_) => []
      case _ => before
  }

  /** No Enter since the last read: the line is still being typed. */
  ghost predicate Typing(acts: seq<C.Action>) {
    acts == [] || acts[|acts| - 1].Read? || (!acts[|acts| - 1].Enter? && Typing(acts[..|acts| - 1]))
  }

  ghost predicate HasRead(acts: seq<C.Action>) {
    exists i :: 0 <= i < |acts| && acts[i].Read?
  }

  /** A read leaves an empty line, whatever was in the buffer, and does not touch the screen. */
  lemma {:induction false} ReadEmpties(con: C.Console, n: int)
    requires C.ConsoleOk(con)
    ensures var r := C.Act(con, C.Read(n));
      && Holds(C.LineOf(r), Edit([], false)) && C.LineOf(r) == StrikeAll([])
      && r.video == con.video && r.x == con.x && r.y == con.y
  {
  }

  /** The line buffer holds the line edited by the keys since the last read; output and clearing do not touch it, and
      nothing of earlier lines is left. */
  lemma {:induction false} LineOfKeys(con: C.Console, acts: seq<C.Action>)
    requires C.ConsoleOk(con) && (C.LineOf(con) == C.EmptyLine() || HasRead(acts)) && Typing(acts)
    ensures C.LineOf(Alone(con, acts)) == StrikeAll(KeysSince(acts))
    decreases |acts|
  {
    if acts != [] {
      var before, last := acts[..|acts| - 1], acts[|acts| - 1];
      assert before + [last] == acts;
      AloneSnoc(con, before, last);
      if !last.Read? {
        assert HasRead(acts) ==> HasRead(before);
        LineOfKeys(con, before);
        var keys := KeysSince(before);
        assert (keys + [Erase])[..|keys|] == keys;
        if last.Type? {
          assert (keys + [Press(last.c)])[..|keys|] == keys;
        }
      } else {
        ReadEmpties(Alone(con, before), last.n);
      }
    }
  }

  lemma {:induction false} AloneSnoc(con: C.Console, acts: seq<C.Action>, a: C.Action)
    requires C.ConsoleOk(con)
    ensures Alone(con, acts + [a]) == C.Act(Alone(con, acts), a)
    decreases |acts|
  {
    if acts != [] {
      assert (acts + [a])[0] == acts[0] && (acts + [a])[1..] == acts[1..] + [a];
      AloneSnoc(C.Act(con, acts[0]), acts[1..], a);
    } else {
      assert [] + [a] == [a] && [a][1..] == [];
    }
  }

  /** A line typed on one terminal among any activity on all three, earlier lines on it included: Enter and a read on it
      give exactly the line edited since its last read. */
  lemma {:induction false} LineArrives(st: State, ops: seq<Op>, n: nat)
    requires StateOk(st) && Switches(ops)
    requires var t := Run(st, ops).current;
      var own := Own(st.current, ops, t);
      && (C.LineOf(ViewOf(st, t)) == C.EmptyLine() || HasRead(own)) && Typing(own) && Characters(KeysSince(own))
      && (n <= C.KEYS_SIZE || |Submitted(EditAll(KeysSince(own)))| < C.KEYS_SIZE)
    ensures var end := Run(st, ops);
      var e := EditAll(KeysSince(Own(st.current, ops, end.current)));
      C.Taken(C.Act(end.live, C.Enter).keys, n) == Submitted(e)[..Min(n, |Submitted(e)|)]
  {
    var end := Run(st, ops);
    var own := Own(st.current, ops, end.current);
    TerminalsIsolated(st, ops, end.current);
    LineOfKeys(ViewOf(st, end.current), own);
    EnterThenRead(KeysSince(own), n);
  }

  /** Every action is orderly where it happens. */
  ghost predicate AllOrderly(con: C.Console, acts: seq<C.Action>)
    requires C.ConsoleOk(con)
    decreases |acts|
  {
    acts != [] ==> L.Orderly(con, acts[0]) && AllOrderly(C.Act(con, acts[0]), acts[1..])
  }

  /** The log of all that the actions print. */
  ghost function LogOf(con: C.Console, log: L.Log, acts: seq<C.Action>): L.Log
    requires L.Window(con, log) && AllOrderly(con, acts)
    decreases |acts|
  {
    if acts == [] then log
    else
      L.ActShows(con, log, acts[0]);
      LogOf(C.Act(con, acts[0]), L.LogAct(log, con.end, acts[0]), acts[1..])
  }

  lemma {:induction false} AloneShows(con: C.Console, log: L.Log, acts: seq<C.Action>)
    requires L.Window(con, log) && AllOrderly(con, acts)
    ensures L.Window(Alone(con, acts), LogOf(con, log, acts))
    decreases |acts|
  {
    if acts != [] {
      L.ActShows(con, log, acts[0]);
      AloneShows(C.Act(con, acts[0]), L.LogAct(log, con.end, acts[0]), acts[1..]);
    }
  }

  /** After any run each terminal's screen is the window on the log of what was printed on it. */
  lemma {:induction false} TerminalShows(st: State, ops: seq<Op>, t: nat, log: L.Log)
    requires StateOk(st) && Switches(ops) && t < COUNT
    requires L.Window(ViewOf(st, t), log) && AllOrderly(ViewOf(st, t), Own(st.current, ops, t))
    ensures L.Window(ViewOf(Run(st, ops), t), LogOf(ViewOf(st, t), log, Own(st.current, ops, t)))
  {
    TerminalsIsolated(st, ops, t);
    AloneShows(ViewOf(st, t), log, Own(st.current, ops, t));
  }

  // ----- the terminals in memory -----

  /** A video buffer, a line buffer, a cursor and an index: the live set or a saved one. */
  class Tty {
    const video: array<byte>
    const keys: array<byte>
    var x: int
    var y: int
    var end: int

    ghost predicate Valid()
      reads this, video, keys
    {
      video != keys && video.Length == C.VIDEO_SIZE && keys.Length == C.KEYS_SIZE && C.ConsoleOk(Value())
    }

    ghost function Value(): C.Console
      reads this, video, keys
    {
      C.Console(video[..], x, y, keys[..], end)
    }

    ghost function Repr(): set<object> {
      {this, video, keys}
    }

    /** An empty line over the given video memory. */
    constructor (cells: seq<byte>)
      requires |cells| == C.VIDEO_SIZE
      ensures Valid() && fresh(Repr())
      ensures video[..] == cells && x == 0 && y == 0 && C.LineOf(Value()) == C.EmptyLine()
    {
      video := new byte[C.VIDEO_SIZE](i requires 0 <= i < C.VIDEO_SIZE => cells[i]);
      keys := new byte[C.KEYS_SIZE](i => NUL);
      x, y, end := 0, 0, 0;
      new;
      assert video[..] == cells && keys[..] == C.EmptyLine().keys;
    }

    /** The copy loops of a switch: everything of `from`. */
    method CopyFrom(from: Tty)
      requires Valid() && from.Valid() && Repr() !! from.Repr()
      modifies this, video, keys
      ensures Valid() && Value() == from.Value()
    {
      x := from.x;
      y := from.y;
      var i := 0;
      while i < C.KEYS_SIZE
        invariant 0 <= i <= C.KEYS_SIZE
        invariant forall j :: 0 <= j < i ==> keys[j] == from.keys[j]
        modifies keys
      {
        keys[i] := from.keys[i];
        i := i + 1;
      }
      i := 0;
      while i < C.VIDEO_SIZE
        invariant 0 <= i <= C.VIDEO_SIZE
        invariant forall j :: 0 <= j < i ==> video[j] == from.video[j]
        modifies video
      {
        video[i] := from.video[i];
        i := i + 1;
      }
      end := from.end;
      assert video[..] == from.video[..] && keys[..] == from.keys[..];
    }

    /** `scroll_up`: the characters go through a buffer of 24 rows. */
    method ScrollUp()
      requires video.Length == C.VIDEO_SIZE
      modifies this`x, this`y, video
      ensures video[..] == C.Scrolled(old(video[..])) && x == 0 && y == C.ROWS - 1
    {
      var buf := new byte[(C.ROWS - 1) * C.COLS];
      ghost var was := video[..];
      FillBuffer(buf);
      EmptyBuffer(buf, was);
      ghost var mid := video[..];
      assert forall k {:trigger mid[k]} :: 0 <= k < C.VIDEO_SIZE ==>
        mid[k] == if k % 2 == 0 && k < C.CellIndex(0, C.ROWS - 1) then was[k + 2 * C.COLS] else was[k];
      ZeroLastRow();
      forall k | 0 <= k < C.VIDEO_SIZE
        ensures video[k] == C.Scrolled(was)[k]
      {
        assert video[k] ==
          if k % 2 == 0 && C.CellIndex(0, C.ROWS - 1) <= k < C.CellIndex(0, C.ROWS) then NUL else mid[k];
        C.ScrolledAt(was, k);
      }
      x := 0;
      y := C.ROWS - 1;
    }

    method ZeroLastRow()
      requires video.Length == C.VIDEO_SIZE
      modifies video
      ensures forall k {:trigger video[k]} :: 0 <= k < C.VIDEO_SIZE ==>
        video[k] ==
          if k % 2 == 0 && C.CellIndex(0, C.ROWS - 1) <= k < C.CellIndex(0, C.ROWS) then NUL else old(video[k])
    {
      var col := 0;
      while col < C.COLS
        invariant 0 <= col <= C.COLS
        invariant forall k {:trigger video[k]} :: 0 <= k < C.VIDEO_SIZE ==>
          video[k] ==
            if k % 2 == 0 && C.CellIndex(0, C.ROWS - 1) <= k < C.CellIndex(col, C.ROWS - 1) then NUL
            else old(video[k])
      {
        video[C.CellIndex(col, C.ROWS - 1)] := NUL;
        col := col + 1;
      }
    }

    method FillBuffer(buf: array<byte>)
      requires video.Length == C.VIDEO_SIZE && buf.Length == (C.ROWS - 1) * C.COLS && buf != video
      modifies buf
      ensures forall j {:trigger buf[j]} :: 0 <= j < buf.Length ==> buf[j] == video[2 * (C.COLS + j)]
    {
      var i, row := 0, 1;
      while row < C.ROWS
        invariant 1 <= row <= C.ROWS && i == C.COLS * (row - 1)
        invariant forall j {:trigger buf[j]} :: 0 <= j < i ==> buf[j] == video[2 * (C.COLS + j)]
      {
        var col := 0;
        while col < C.COLS
          invariant 0 <= col <= C.COLS && i == C.COLS * (row - 1) + col
          invariant forall j {:trigger buf[j]} :: 0 <= j < i ==> buf[j] == video[2 * (C.COLS + j)]
        {
          buf[i] := video[C.CellIndex(col, row)];
          i := i + 1;
          col := col + 1;
        }
        row := row + 1;
      }
    }

    method EmptyBuffer(buf: array<byte>, ghost was: seq<byte>)
      requires video.Length == C.VIDEO_SIZE && buf.Length == (C.ROWS - 1) * C.COLS && buf != video
      requires was == video[..] && forall j {:trigger buf[j]} :: 0 <= j < buf.Length ==> buf[j] == was[2 * (C.COLS + j)]
      modifies video
      ensures forall k {:trigger video[k]} :: 0 <= k < C.VIDEO_SIZE ==>
        video[k] == if k % 2 == 0 && k < C.CellIndex(0, C.ROWS - 1) then was[k + 2 * C.COLS] else was[k]
    {
      var i, row := 0, 0;
      while row < C.ROWS - 1
        invariant 0 <= row <= C.ROWS - 1 && i == C.COLS * row
        invariant forall k {:trigger video[k]} :: 0 <= k < C.VIDEO_SIZE ==>
          video[k] == if k % 2 == 0 && k < 2 * i then was[k + 2 * C.COLS] else was[k]
      {
        var col := 0;
        while col < C.COLS
          invariant 0 <= col <= C.COLS && i == C.COLS * row + col
          invariant forall k {:trigger video[k]} :: 0 <= k < C.VIDEO_SIZE ==>
          video[k] == if k % 2 == 0 && k < 2 * i then was[k + 2 * C.COLS] else was[k]
        {
          video[C.CellIndex(col, row)] := buf[i];
          i := i + 1;
          col := col + 1;
        }
        row := row + 1;
      }
    }

    /** A character and its attribute at the cursor. Both stores are in video memory, or both before it
        (`stray`): in row 0, left of the margin. */
    method Draw(c: byte) returns (stray: bool)
      requires video.Length == C.VIDEO_SIZE && -C.COLS < x < C.COLS && 0 <= y < C.ROWS
      modifies video
      ensures video[..] == C.Poke(C.Poke(old(video[..]), C.CellIndex(x, y), c), C.CellIndex(x, y) + 1, C.ATTRIB)
      ensures stray <==> y == 0 && x < 0
      ensures stray ==> video[..] == old(video[..])
    {
      var i := C.CellIndex(x, y);
      stray := i < 0;
      if !stray {
        video[i] := c;
        video[i + 1] := C.ATTRIB;
      }
    }

    /** `putc`. */
    method PutC(c: byte)
      requires Valid()
      modifies this, video
      ensures Valid() && Value() == C.PutC(old(Value()), c)
    {
      if c == NEWLINE || c == RETURN {
        if y + 1 >= C.ROWS {
          ScrollUp();
        } else {
          y := y + 1;
          x := 0;
        }
      } else {
        var stray := Draw(c);
        x := x + 1;
        if x >= C.COLS {
          y := y + 1;
        }
        x := C.TruncMod(x, C.COLS);
        y := y % C.ROWS;
      }
    }

    /** `terminal_write`. */
    method Write(text: seq<byte>)
      requires Valid()
      modifies this, video
      ensures Valid() && Value() == C.PutAll(old(Value()), text)
    {
      var i := 0;
      ghost var start := Value();
      while i < |text|
        invariant 0 <= i <= |text| && Valid() && Value() == C.PutAll(start, text[..i])
      {
        assert text[..i + 1][..i] == text[..i];
        PutC(text[i]);
        i := i + 1;
      }
      assert text[..|text|] == text;
    }

    /** The Enter key. */
    method Enter()
      requires Valid()
      modifies this, video, keys
      ensures Valid() && Value() == C.Act(old(Value()), C.Enter)
    {
      keys[end] := NEWLINE;
      if y == C.ROWS - 1 {
        ScrollUp();
      } else {
        y := y + 1;
        x := 0;
      }
    }

    /** The Backspace key. It stores before video memory exactly on a non-empty line whose cursor is in row 0
        at or left of the margin. */
    method Backspace() returns (stray: bool)
      requires Valid()
      modifies this, video, keys
      ensures Valid() && Value() == C.Act(old(Value()), C.Backspace)
      ensures stray <==> old(end) > 0 && old(y) == 0 && -C.COLS + 1 < old(x) <= 0
    {
      stray := false;
      if end > 0 {
        x := C.TruncMod(x - 1, C.COLS);
        stray := Draw(NUL);
        end := end - 1;
        keys[end] := NUL;
      }
    }

    /** A character key. */
    method Type(c: byte)
      requires Valid()
      modifies this, video, keys
      ensures Valid() && Value() == C.Act(old(Value()), C.Type(c))
    {
      if end < C.KEYS_SIZE - 2 {
        keys[end] := c;
        end := end + 1;
      } else if end == C.KEYS_SIZE - 2 {
        keys[end] := c;
        end := end + 1;
        keys[end] := NEWLINE;
      }
      assert keys[..] == C.TypeKey(C.LineOf(old(Value())), c).keys;
      if end > C.KEYS_SIZE - 2 {
        return;
      }
      if x == C.COLS - 1 && y == C.ROWS - 1 {
        ScrollUp();
      }
      PutC(c);
    }

    /** Ctrl-L: `clear`. */
    method Clear()
      requires Valid()
      modifies this, video
      ensures Valid() && Value() == C.Act(old(Value()), C.Clear)
    {
      ghost var was := video[..];
      var i := 0;
      while i < C.ROWS * C.COLS
        invariant 0 <= i <= C.ROWS * C.COLS
        invariant forall k {:trigger video[k]} :: 0 <= k < C.VIDEO_SIZE ==>
          video[k] == if k >= 2 * i then was[k] else if k % 2 == 0 then SPACE else C.ATTRIB
        modifies video
      {
        video[2 * i] := SPACE;
        video[2 * i + 1] := C.ATTRIB;
        i := i + 1;
      }
      forall k | 0 <= k < C.VIDEO_SIZE
        ensures video[k] == C.ClearedVideo(was)[k]
      {
        C.ClearedAt(was, k);
      }
      x := 0;
      y := 0;
    }

    /** The copy loop of `terminal_read`. A read of more than 128 bytes stays in the buffer exactly when that
        holds a NUL. */
    method TakeKeys(buf: array<byte>, n: int) returns (count: nat)
      requires keys.Length == C.KEYS_SIZE && buf != keys && n <= buf.Length && (n <= C.KEYS_SIZE || NUL in keys[..])
      modifies buf
      ensures var got := C.Taken(keys[..], n); count == |got| && buf[..] == Splice(old(buf[..]), 0, got)
    {
      count := 0;
      while count < n && keys[count] != NUL
        invariant 0 <= count <= Min(Max(n, 0), C.KEYS_SIZE) && (count < n ==> count < C.KEYS_SIZE)
        invariant forall j :: 0 <= j < count ==> keys[j] != NUL
        invariant forall j :: 0 <= j < buf.Length ==> buf[j] == if j < count then keys[j] else old(buf[j])
        modifies buf
      {
        buf[count] := keys[count];
        count := count + 1;
        assert count == C.KEYS_SIZE ==> NUL !in keys[..];
      }
      assert count == |C.Taken(keys[..], n)|;
    }

    /** `terminal_read`, once Enter has been pressed. */
    method Read(buf: array<byte>, n: int) returns (count: nat)
      requires Valid() && buf !in Repr() && n <= buf.Length && (n <= C.KEYS_SIZE || NUL in keys[..])
      modifies this, keys, buf
      ensures Valid() && Value() == C.Act(old(Value()), C.Read(n))
      ensures var got := C.Taken(old(keys[..]), n);
        count == |got| && buf[..] == Splice(old(buf[..]), 0, got)
    {
      count := TakeKeys(buf, n);
      var i := 0;
      while i < C.KEYS_SIZE
        invariant 0 <= i <= C.KEYS_SIZE
        invariant forall j :: 0 <= j < i ==> keys[j] == NUL
        modifies keys
      {
        keys[i] := NUL;
        i := i + 1;
      }
      end := 0;
    }

    /** Carries one action out; `buf` receives what a read takes. */
    method Perform(a: C.Action, buf: array<byte>)
      requires Valid() && buf !in Repr()
      requires a.Read? ==> a.n <= buf.Length && (a.n <= C.KEYS_SIZE || NUL in keys[..])
      modifies this, video, keys, buf
      ensures Valid() && Value() == C.Act(old(Value()), a)
      ensures a.Read? ==> var got := C.Taken(old(Value()).keys, a.n); |got| <= buf.Length && buf[..|got|] == got
    {
      match a {
        case Enter => Enter();
        case Backspace => var stray := Backspace();
        case Type(c) => Type(c);
        case Clear => Clear();
        case Write(text) => Write(text);
        case Read(n) => var count := Read(buf, n);
      }
    }
  }

  /** The live set and the three saved ones. */
  class Board {
    const live: Tty
    const one: Tty
    const two: Tty
    const three: Tty
    var current: nat

    ghost function Repr(): set<object> {
      live.Repr() + one.Repr() + two.Repr() + three.Repr()
    }

    ghost predicate Valid()
      reads this, Repr()
    {
      && current < COUNT && this !in Repr()
      && live.Valid() && one.Valid() && two.Valid() && three.Valid()
      && live.Repr() !! one.Repr() !! two.Repr() !! three.Repr()
    }

    ghost function Value(): State
      reads this, Repr()
    {
      State(current, live.Value(), [one.Value(), two.Value(), three.Value()])
    }

    /** The state `terminal_init` starts from, given its four sets of buffers: the first terminal is current. */
    constructor (live: Tty, one: Tty, two: Tty, three: Tty)
      requires live.Valid() && one.Valid() && two.Valid() && three.Valid()
      requires live.Repr() !! one.Repr() !! two.Repr() !! three.Repr()
      ensures Valid() && Value() == State(0, live.Value(), [one.Value(), two.Value(), three.Value()])
    {
      this.live, this.one, this.two, this.three := live, one, two, three;
      current := 0;
    }

    /** `terminal_switch` and then `terminalone`, `terminaltwo` or `terminalthree`. */
    method Switch(t: nat)
      requires Valid() && t < COUNT
      modifies this, Repr()
      ensures Valid() && Value() == Step(old(Value()), Op.Switch(t))
    {
      SaveLive();
      current := t;
      LoadLive();
    }

    method LoadLive()
      requires Valid()
      modifies live.Repr()
      ensures Valid() && Value() == old(Value()).(live := old(Value()).saved[current])
    {
      match current {
        case 0 => live.CopyFrom(one);
        case 1 => live.CopyFrom(two);
        case _ => live.CopyFrom(three);
      }
    }

    method SaveLive()
      requires Valid()
      modifies Repr()
      ensures Valid() && Value() == old(Value()).(saved := old(Value()).saved[current := old(Value()).live])
    {
      match current {
        case 0 => one.CopyFrom(live);
        case 1 => two.CopyFrom(live);
        case _ => three.CopyFrom(live);
      }
    }

    /** Anything but a switch happens on the live set; `buf` receives what a read takes. */
    method Local(a: C.Action, buf: array<byte>)
      requires Valid() && buf !in Repr()
      requires a.Read? ==> a.n <= buf.Length && (a.n <= C.KEYS_SIZE || NUL in live.keys[..])
      modifies live.Repr(), buf
      ensures Valid() && Value() == Step(old(Value()), Op.Local(a))
      ensures a.Read? ==> var got := C.Taken(old(Value()).live.keys, a.n); |got| <= buf.Length && buf[..|got|] == got
    {
      live.Perform(a, buf);
    }

    /** Any run of keys, reads, writes and switches, carried out in memory. */
    method RunAll(ops: seq<Op>, buf: array<byte>)
      requires Valid() && buf !in Repr() && Switches(ops)
      requires forall i :: 0 <= i < |ops| && ops[i].Local? && ops[i].a.Read? ==>
        ops[i].a.n <= buf.Length && ops[i].a.n <= C.KEYS_SIZE
      modifies this, Repr(), buf
      ensures Valid() && Value() == Run(old(Value()), ops)
    {
      var i := 0;
      ghost var start := Value();
      assert ops[0..] == ops;
      while i < |ops|
        invariant 0 <= i <= |ops| && Valid() && Run(Value(), ops[i..]) == Run(start, ops)
      {
        assert ops[i..][0] == ops[i] && ops[i..][1..] == ops[i + 1..];
        match ops[i] {
          case Switch(t) => Switch(t);
          case Local(a) => Local(a, buf);
        }
        i := i + 1;
      }
    }
  }
}
