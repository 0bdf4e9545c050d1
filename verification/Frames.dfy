/**
 `add_frames` of the fish program: two picture files merged into blinks (fish/fish.c).
 */
module Frames {
  import opened Bytes
  import opened Blink
  import BlinkDriver

  const OFFSET := 40
  const ZERO_CHAR: byte := 48

  /** Character `col` of a row; past its end, the newline the program holds there. */
  function CharAt(line: seq<byte>, col: nat): byte {
    if col < |line| then line[col] else NEWLINE
  }

  predicate Blank(c: byte) {
    c == SPACE || c == NEWLINE
  }

  function Ink(c: byte): byte {
    if c == NEWLINE then SPACE else c
  }

  /** The structure handed to the driver for one cell; its location field has 16 bits. */
  function Cell(c0: byte, c1: byte, row: nat, col: nat): Node {
    Node((row * 80 + col + OFFSET) % 65536, Ink(c0), Ink(c1), 15, 15, 0, 0)
  }

  /** The adds for one row from column `col` on: the two lines side by side, the shorter padded,
      cells that are blank in both left out. */
  function RowAdds(l0: seq<byte>, l1: seq<byte>, row: nat, col: nat): seq<Node>
    decreases Max(|l0|, |l1|) - col
  {
    if col >= |l0| && col >= |l1| then []
    else
      var c0, c1 := CharAt(l0, col), CharAt(l1, col);
      (if Blank(c0) && Blank(c1) then [] else [Cell(c0, c1, row, col)]) + RowAdds(l0, l1, row, col + 1)
  }

  function Head(lines: seq<seq<byte>>): seq<byte> {
    if lines == [] then [] else lines[0]
  }

  function Tail(lines: seq<seq<byte>>): seq<seq<byte>> {
    if lines == [] then [] else lines[1..]
  }

  /** The adds for all rows, until both files are used up. */
  function FrameAdds(lines0: seq<seq<byte>>, lines1: seq<seq<byte>>, row: nat): seq<Node>
    decreases |lines0| + |lines1|
  {
    if lines0 == [] && lines1 == [] then []
    else RowAdds(Head(lines0), Head(lines1), row, 0) + FrameAdds(Tail(lines0), Tail(lines1), row + 1)
  }

  /** One file as the program sees it: position, last character, end-of-file flag. */
  datatype Reader = Reader(p: nat, c: byte, eof: bool)

  ghost predicate InFile(f: seq<byte>, r: Reader) {
    r.p <= |f|
  }

  /** The end of the line that starts at `s`. */
  function EndOf(f: seq<byte>, s: nat): nat
    requires s <= |f|
  {
    IndexOf(f, NEWLINE, s)
  }

  /** Where the reader stands after its read for column `col` of the line at `s`. */
  ghost predicate ReadTo(f: seq<byte>, s: Reader, col: nat, r: Reader)
    requires InFile(f, s)
  {
    if s.eof then r == Reader(s.p, NEWLINE, true)
    else
      var e := EndOf(f, s.p);
      if s.p + col < e then r == Reader(s.p + col + 1, f[s.p + col], false)
      else if e < |f| then r == Reader(e + 1, NEWLINE, false)
      else r == Reader(|f|, NEWLINE, true)
  }

  /** At the start of a row: a used-up file holds a newline, any other a character that is not one. */
  ghost predicate RowStart(f: seq<byte>, s: Reader) {
    InFile(f, s) && (s.eof <==> s.c == NEWLINE)
  }

  ghost predicate Before(f: seq<byte>, s: Reader, col: nat, r: Reader)
    requires InFile(f, s)
  {
    if col == 0 then r == s else ReadTo(f, s, col - 1, r)
  }

  /** One guarded one-byte read. */
  method NextChar(f: seq<byte>, r: Reader, ghost s: Reader, ghost col: nat) returns (r': Reader)
    requires RowStart(f, s) && Before(f, s, col, r)
    ensures ReadTo(f, s, col, r')
  {
    r' := r;
    if r.c != NEWLINE {
      if r.p < |f| {
        r' := r.(c := f[r.p], p := r.p + 1);
      } else {
        r' := r.(c := NEWLINE, eof := true);
      }
    }
  }

  /** The line a reader is about to read, and the lines it has left. */
  ghost function LineOf(f: seq<byte>, s: Reader): seq<byte>
    requires InFile(f, s)
  {
    if s.eof then [] else f[s.p..EndOf(f, s.p)]
  }

  ghost function LinesLeft(f: seq<byte>, s: Reader): seq<seq<byte>>
    requires InFile(f, s)
  {
    if s.eof then [] else Lines(f[s.p..])
  }

  lemma {:induction false} ReadChar(f: seq<byte>, s: Reader, col: nat, r: Reader)
    requires RowStart(f, s) && ReadTo(f, s, col, r)
    ensures r.c == CharAt(LineOf(f, s), col)
    ensures r.c == NEWLINE <==> col >= |LineOf(f, s)|
  {
  }

  /** A line read to its end leaves the reader at the start of the next one. */
  lemma {:induction false} NextRow(f: seq<byte>, s: Reader, col: nat, r: Reader)
    requires RowStart(f, s) && ReadTo(f, s, col, r) && r.c == NEWLINE
    ensures var next := if r.eof then r else r.(c := ZERO_CHAR);
      && RowStart(f, next)
      && Head(LinesLeft(f, s)) == LineOf(f, s)
      && LinesLeft(f, next) == Tail(LinesLeft(f, s))
  {
    if !s.eof {
      LinesFrom(f, s.p);
    }
  }

  lemma {:induction false} LinesFrom(f: seq<byte>, p: nat)
    requires p <= |f|
    ensures var e := EndOf(f, p);
      Lines(f[p..]) == if e == |f| then [f[p..e]] else [f[p..e]] + Lines(f[e + 1..])
  {
    var e, rest := EndOf(f, p), f[p..];
    IndexOfIs(rest, NEWLINE, e - p);
    assert rest[..e - p] == f[p..e];
    if e < |f| {
      assert rest[e - p + 1..] == f[e + 1..];
    } else {
      assert rest == f[p..e];
    }
  }

  /** One row of the picture. */
  method MergeRow(f0: seq<byte>, f1: seq<byte>, s0: Reader, s1: Reader, row: nat)
    returns (r0: Reader, r1: Reader, adds: seq<Node>)
    requires RowStart(f0, s0) && RowStart(f1, s1)
    ensures r0.c == NEWLINE && r1.c == NEWLINE
    ensures exists col: nat :: ReadTo(f0, s0, col, r0) && ReadTo(f1, s1, col, r1)
    ensures adds == RowAdds(LineOf(f0, s0), LineOf(f1, s1), row, 0)
  {
    ghost var l0, l1 := LineOf(f0, s0), LineOf(f1, s1);
    r0, r1 := s0, s1;
    adds := [];
    var col := 0;
    while true
      invariant col <= Max(|l0|, |l1|)
      invariant Before(f0, s0, col, r0) && Before(f1, s1, col, r1)
      invariant adds + RowAdds(l0, l1, row, col) == RowAdds(l0, l1, row, 0)
      decreases Max(|l0|, |l1|) - col
    {
      r0 := NextChar(f0, r0, s0, col);
      r1 := NextChar(f1, r1, s1, col);
      ReadChar(f0, s0, col, r0);
      ReadChar(f1, s1, col, r1);
      if r0.c == NEWLINE && r1.c == NEWLINE {
        return;
      }
      ghost var rest := RowAdds(l0, l1, row, col + 1);
      if (r0.c != SPACE && r0.c != NEWLINE) || (r1.c != SPACE && r1.c != NEWLINE) {
        var cell := Cell(r0.c, r1.c, row, col);
        assert adds + ([cell] + rest) == (adds + [cell]) + rest;
        adds := adds + [cell];
      } else {
        assert [] + rest == rest;
      }
      col := col + 1;
    }
  }

  /** One pass of the outer loop: a row, and the readers at the start of the next. */
  method OneRow(f0: seq<byte>, f1: seq<byte>, s0: Reader, s1: Reader, row: nat)
    returns (r0: Reader, r1: Reader, cells: seq<Node>)
    requires RowStart(f0, s0) && RowStart(f1, s1)
    ensures RowStart(f0, r0) && RowStart(f1, r1)
    ensures cells == RowAdds(Head(LinesLeft(f0, s0)), Head(LinesLeft(f1, s1)), row, 0)
    ensures LinesLeft(f0, r0) == Tail(LinesLeft(f0, s0)) && LinesLeft(f1, r1) == Tail(LinesLeft(f1, s1))
  {
    r0, r1, cells := MergeRow(f0, f1, s0, s1, row);
    ghost var col: nat :| ReadTo(f0, s0, col, r0) && ReadTo(f1, s1, col, r1);
    NextRow(f0, s0, col, r0);
    NextRow(f1, s1, col, r1);
    if !r0.eof {
      r0 := r0.(c := ZERO_CHAR);
    }
    if !r1.eof {
      r1 := r1.(c := ZERO_CHAR);
    }
  }

  /** `add_frames`: it ends on any two files, and the adds it issues are those of the two files'
      lines merged row by row. */
  method AddFrames(f0: seq<byte>, f1: seq<byte>) returns (adds: seq<Node>)
    ensures adds == FrameAdds(Lines(f0), Lines(f1), 0)
  {
    var r0, r1 := Reader(0, ZERO_CHAR, false), Reader(0, ZERO_CHAR, false);
    var row := 0;
    adds := [];
    assert f0[0..] == f0 && f1[0..] == f1;
    ghost var left0, left1 := Lines(f0), Lines(f1);
    while !r0.eof || !r1.eof
      invariant RowStart(f0, r0) && RowStart(f1, r1)
      invariant left0 == LinesLeft(f0, r0) && left1 == LinesLeft(f1, r1)
      invariant adds + FrameAdds(left0, left1, row) == FrameAdds(Lines(f0), Lines(f1), 0)
      decreases |left0| + |left1|
    {
      var cells;
      r0, r1, cells := OneRow(f0, f1, r0, r1, row);
      Associative(adds, cells, FrameAdds(Tail(left0), Tail(left1), row + 1));
      left0, left1 := Tail(left0), Tail(left1);
      adds := adds + cells;
      row := row + 1;
    }
  }

  // ----- the picture, cell by cell -----

  function LineAt(lines: seq<seq<byte>>, r: nat): seq<byte> {
    if r < |lines| then lines[r] else []
  }

  /** The character of a picture's line in a column; a space past its end. */
  function Pixel(line: seq<byte>, c: nat): byte {
    if c < |line| then line[c] else SPACE
  }

  /** A cell is drawn unless both pictures have a space there. */
  predicate Drawn(l0: seq<byte>, l1: seq<byte>, c: nat) {
    Pixel(l0, c) != SPACE || Pixel(l1, c) != SPACE
  }

  /** `n` blinks at row `r`, column `c`, between the first picture's character and the second's. */
  predicate BlinksAt(l0: seq<byte>, l1: seq<byte>, r: nat, c: nat, n: Node) {
    && n.location == (r * 80 + c + 40) % 65536
    && n.onChar == Pixel(l0, c) && n.offChar == Pixel(l1, c)
    && n.onLength == 15 && n.offLength == 15
  }

  ghost predicate LineFree(lines: seq<seq<byte>>) {
    forall i :: 0 <= i < |lines| ==> Free(lines[i], NEWLINE)
  }

  lemma {:induction false} LinesLineFree(f: seq<byte>)
    ensures LineFree(Lines(f))
    decreases |f|
  {
    var k := IndexOf(f, NEWLINE);
    if k < |f| {
      LinesLineFree(f[k + 1..]);
    }
  }

  /** `cols` are the drawn columns of a row from `col` on, in order, and `adds` their blinks. */
  ghost predicate RowDrawn(l0: seq<byte>, l1: seq<byte>, row: nat, col: nat, cols: seq<nat>, adds: seq<Node>) {
    && |cols| == |adds|
    && (forall i :: 0 <= i < |cols| ==>
          col <= cols[i] && Drawn(l0, l1, cols[i]) && BlinksAt(l0, l1, row, cols[i], adds[i]))
    && (forall i, j :: 0 <= i < j < |cols| ==> cols[i] < cols[j])
    && (forall c: nat :: col <= c && Drawn(l0, l1, c) ==> c in cols)
  }

  lemma {:induction false} RowAddsAre(l0: seq<byte>, l1: seq<byte>, row: nat, col: nat) returns (cols: seq<nat>)
    requires Free(l0, NEWLINE) && Free(l1, NEWLINE)
    ensures RowDrawn(l0, l1, row, col, cols, RowAdds(l0, l1, row, col))
    decreases Max(|l0|, |l1|) - col
  {
    cols := [];
    if col < |l0| || col < |l1| {
      var later := RowAddsAre(l0, l1, row, col + 1);
      var c0, c1, rest := CharAt(l0, col), CharAt(l1, col), RowAdds(l0, l1, row, col + 1);
      assert Blank(c0) && Blank(c1) <==> !Drawn(l0, l1, col);
      if Drawn(l0, l1, col) {
        cols := [col] + later;
        RowGrows(l0, l1, row, col, later, rest, Cell(c0, c1, row, col));
      } else {
        cols := later;
        RowSkips(l0, l1, row, col, later, rest);
        EmptyConcat(rest);
      }
    }
  }

  lemma {:induction false} RowGrows(l0: seq<byte>, l1: seq<byte>, row: nat, col: nat, later: seq<nat>, rest: seq<Node>,
                                    n: Node)
    requires RowDrawn(l0, l1, row, col + 1, later, rest) && Drawn(l0, l1, col) && BlinksAt(l0, l1, row, col, n)
    ensures RowDrawn(l0, l1, row, col, [col] + later, [n] + rest)
  {
    var cols, adds := [col] + later, [n] + rest;
    assert forall i :: 0 < i < |cols| ==> cols[i] == later[i - 1] && adds[i] == rest[i - 1];
    forall c: nat | col <= c && Drawn(l0, l1, c)
      ensures c in cols
    {
      assert c == cols[0] || c in later;
    }
  }

  lemma {:induction false} RowSkips(l0: seq<byte>, l1: seq<byte>, row: nat, col: nat, later: seq<nat>, rest: seq<Node>)
    requires RowDrawn(l0, l1, row, col + 1, later, rest) && !Drawn(l0, l1, col)
    ensures RowDrawn(l0, l1, row, col, later, rest)
  {
  }

  /** Row by row, and from left to right in a row. */
  predicate Precedes(p: (nat, nat), q: (nat, nat)) {
    p.0 < q.0 || (p.0 == q.0 && p.1 < q.1)
  }

  /** `cell` is a drawn cell of the pictures, the first line in row `row`, and `n` its blink. */
  predicate CellDrawn(lines0: seq<seq<byte>>, lines1: seq<seq<byte>>, row: nat, cell: (nat, nat), n: Node) {
    && row <= cell.0
    && var l0, l1 := LineAt(lines0, cell.0 - row), LineAt(lines1, cell.0 - row);
    Drawn(l0, l1, cell.1) && BlinksAt(l0, l1, cell.0, cell.1, n)
  }

  /** `cells` are the drawn cells of the pictures, the first line in row `row`, in order, and `adds` their blinks. */
  ghost predicate PictureDrawn(lines0: seq<seq<byte>>, lines1: seq<seq<byte>>, row: nat, cells: seq<(nat, nat)>,
                               adds: seq<Node>) {
    && |cells| == |adds|
    && (forall i :: 0 <= i < |cells| ==> CellDrawn(lines0, lines1, row, cells[i], adds[i]))
    && (forall i, j :: 0 <= i < j < |cells| ==> Precedes(cells[i], cells[j]))
    && (forall r: nat, c: nat :: Drawn(LineAt(lines0, r), LineAt(lines1, r), c) ==> (row + r, c) in cells)
  }

  function InRowOf(row: nat, cols: seq<nat>): (cells: seq<(nat, nat)>)
    ensures |cells| == |cols|
  {
    seq(|cols|, i requires 0 <= i < |cols| => (row, cols[i]))
  }

  lemma {:induction false} FrameAddsAre(lines0: seq<seq<byte>>, lines1: seq<seq<byte>>, row: nat)
    returns (cells: seq<(nat, nat)>)
    requires LineFree(lines0) && LineFree(lines1)
    ensures PictureDrawn(lines0, lines1, row, cells, FrameAdds(lines0, lines1, row))
    decreases |lines0| + |lines1|
  {
    cells := [];
    if lines0 != [] || lines1 != [] {
      var cols := RowAddsAre(Head(lines0), Head(lines1), row, 0);
      var later := FrameAddsAre(Tail(lines0), Tail(lines1), row + 1);
      cells := InRowOf(row, cols) + later;
      PictureGrows(lines0, lines1, row, cols, later, RowAdds(Head(lines0), Head(lines1), row, 0),
                   FrameAdds(Tail(lines0), Tail(lines1), row + 1));
    }
  }

  lemma {:induction false} PictureGrows(lines0: seq<seq<byte>>, lines1: seq<seq<byte>>, row: nat, cols: seq<nat>,
                                        later: seq<(nat, nat)>, adds: seq<Node>, rest: seq<Node>)
    requires RowDrawn(Head(lines0), Head(lines1), row, 0, cols, adds)
    requires PictureDrawn(Tail(lines0), Tail(lines1), row + 1, later, rest)
    ensures PictureDrawn(lines0, lines1, row, InRowOf(row, cols) + later, adds + rest)
  {
    var cells, all := InRowOf(row, cols) + later, adds + rest;
    forall i | 0 <= i < |cells|
      ensures CellDrawn(lines0, lines1, row, cells[i], all[i])
    {
      if i < |cols| {
        assert cells[i] == (row, cols[i]) && all[i] == adds[i];
      } else {
        assert cells[i] == later[i - |cols|] && all[i] == rest[i - |cols|];
        LaterDrawn(lines0, lines1, row, cells[i], all[i]);
      }
    }
    RowsInOrder(row, cols, later);
    forall r: nat, c: nat | Drawn(LineAt(lines0, r), LineAt(lines1, r), c)
      ensures (row + r, c) in cells
    {
      CellListed(lines0, lines1, row, cols, later, adds, rest, r, c);
    }
  }

  lemma {:induction false} LaterDrawn(lines0: seq<seq<byte>>, lines1: seq<seq<byte>>, row: nat, cell: (nat, nat),
                                      n: Node)
    requires CellDrawn(Tail(lines0), Tail(lines1), row + 1, cell, n)
    ensures CellDrawn(lines0, lines1, row, cell, n)
  {
    TailLine(lines0, lines1, cell.0 - row);
  }

  lemma {:induction false} RowsInOrder(row: nat, cols: seq<nat>, later: seq<(nat, nat)>)
    requires forall i, j :: 0 <= i < j < |cols| ==> cols[i] < cols[j]
    requires forall i, j :: 0 <= i < j < |later| ==> Precedes(later[i], later[j])
    requires forall i :: 0 <= i < |later| ==> row < later[i].0
    ensures var cells := InRowOf(row, cols) + later;
      forall i, j :: 0 <= i < j < |cells| ==> Precedes(cells[i], cells[j])
  {
    var cells := InRowOf(row, cols) + later;
    assert forall i :: 0 <= i < |cells| ==> cells[i] == if i < |cols| then (row, cols[i]) else later[i - |cols|];
  }

  lemma {:induction false} CellListed(lines0: seq<seq<byte>>, lines1: seq<seq<byte>>, row: nat, cols: seq<nat>,
                                      later: seq<(nat, nat)>, adds: seq<Node>, rest: seq<Node>, r: nat, c: nat)
    requires RowDrawn(Head(lines0), Head(lines1), row, 0, cols, adds)
    requires PictureDrawn(Tail(lines0), Tail(lines1), row + 1, later, rest)
    requires Drawn(LineAt(lines0, r), LineAt(lines1, r), c)
    ensures (row + r, c) in InRowOf(row, cols) + later
  {
    var cells := InRowOf(row, cols) + later;
    if r == 0 {
      var k :| 0 <= k < |cols| && cols[k] == c;
      assert cells[k] == (row, c);
    } else {
      TailLine(lines0, lines1, r);
      assert (row + 1 + (r - 1), c) in later;
    }
  }

  lemma {:induction false} TailLine(lines0: seq<seq<byte>>, lines1: seq<seq<byte>>, r: nat)
    requires r > 0
    ensures LineAt(lines0, r) == LineAt(Tail(lines0), r - 1) && LineAt(lines1, r) == LineAt(Tail(lines1), r - 1)
  {
  }

  /** The adds of two picture files: one for each cell in which not both have a space, in reading order, blinking
      between the first file's character and the second's, at row*80+column+40. */
  lemma {:induction false} PictureAdds(f0: seq<byte>, f1: seq<byte>) returns (cells: seq<(nat, nat)>)
    ensures PictureDrawn(Lines(f0), Lines(f1), 0, cells, FrameAdds(Lines(f0), Lines(f1), 0))
  {
    LinesLineFree(f0);
    LinesLineFree(f1);
    cells := FrameAddsAre(Lines(f0), Lines(f1), 0);
  }

  // ----- the picture on the driver -----

  /** Some drawn cell has a location that is 0 in its 16-bit field. */
  ghost predicate ZeroCell(lines0: seq<seq<byte>>, lines1: seq<seq<byte>>) {
    exists r: nat, c: nat ::
      Drawn(LineAt(lines0, r), LineAt(lines1, r), c) && (r * 80 + c + OFFSET) % 65536 == 0
  }

  /** The picture adds nothing at location 0, where the driver's pool would break, if and only if no drawn cell has a
      location divisible by 65536. */
  lemma {:induction false} FramesAvoidZero(f0: seq<byte>, f1: seq<byte>)
    ensures (forall n :: n in FrameAdds(Lines(f0), Lines(f1), 0) ==> n.location != 0)
      <==> !ZeroCell(Lines(f0), Lines(f1))
  {
    var cells := PictureAdds(f0, f1);
    AvoidsZero(Lines(f0), Lines(f1), cells, FrameAdds(Lines(f0), Lines(f1), 0));
  }

  lemma {:induction false} AvoidsZero(lines0: seq<seq<byte>>, lines1: seq<seq<byte>>, cells: seq<(nat, nat)>,
                                      adds: seq<Node>)
    requires PictureDrawn(lines0, lines1, 0, cells, adds)
    ensures (forall n :: n in adds ==> n.location != 0) <==> !ZeroCell(lines0, lines1)
  {
    if ZeroCell(lines0, lines1) {
      var i := ZeroListed(lines0, lines1, cells, adds);
      assert adds[i] in adds;
    } else {
      forall n | n in adds
        ensures n.location != 0
      {
        var i :| 0 <= i < |adds| && adds[i] == n;
        ZeroShows(lines0, lines1, cells[i], n);
      }
    }
  }

  lemma {:induction false} ZeroListed(lines0: seq<seq<byte>>, lines1: seq<seq<byte>>, cells: seq<(nat, nat)>,
                                      adds: seq<Node>) returns (i: nat)
    requires PictureDrawn(lines0, lines1, 0, cells, adds) && ZeroCell(lines0, lines1)
    ensures i < |adds| && adds[i].location == 0
  {
    var r: nat, c: nat :| Drawn(LineAt(lines0, r), LineAt(lines1, r), c) && (r * 80 + c + OFFSET) % 65536 == 0;
    i := DrawnListed(lines0, lines1, cells, adds, r, c);
  }

  lemma {:induction false} DrawnListed(lines0: seq<seq<byte>>, lines1: seq<seq<byte>>, cells: seq<(nat, nat)>,
                                       adds: seq<Node>, r: nat, c: nat) returns (i: nat)
    requires PictureDrawn(lines0, lines1, 0, cells, adds) && Drawn(LineAt(lines0, r), LineAt(lines1, r), c)
    ensures i < |adds| && BlinksAt(LineAt(lines0, r), LineAt(lines1, r), r, c, adds[i])
  {
    assert (0 + r, c) in cells;
    i :| 0 <= i < |cells| && cells[i] == (r, c);
    assert CellDrawn(lines0, lines1, 0, cells[i], adds[i]);
  }

  lemma {:induction false} ZeroShows(lines0: seq<seq<byte>>, lines1: seq<seq<byte>>, cell: (nat, nat), n: Node)
    requires CellDrawn(lines0, lines1, 0, cell, n)
    ensures n.location == 0 ==> ZeroCell(lines0, lines1)
  {
    assert Drawn(LineAt(lines0, cell.0), LineAt(lines1, cell.0), cell.1);
  }

  function AddOps(adds: seq<Node>): seq<Op> {
    seq(|adds|, i requires 0 <= i < |adds| => Add(adds[i]))
  }

  /** The fish program's picture, put on the driver: its pool and list stay consistent and hold what
      the run of these adds gives. */
  method ShowFrames(d: BlinkDriver.Driver, f0: seq<byte>, f1: seq<byte>)
    requires d.Valid() && !ZeroCell(Lines(f0), Lines(f1))
    modifies d, d.pool, d.screen
    ensures forall n :: n in FrameAdds(Lines(f0), Lines(f1), 0) ==> n.location != 0
    ensures d.Valid() && d.Now() == BlinkDriver.Run(old(d.Now()), AddOps(FrameAdds(Lines(f0), Lines(f1), 0)))
  {
    var adds := AddFrames(f0, f1);
    FramesAvoidZero(f0, f1);
    assert forall i :: 0 <= i < |adds| ==> adds[i] in adds;
    BlinkDriver.RunAll(d, AddOps(adds));
  }
}
