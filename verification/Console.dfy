/**
 One text console: video memory, cursor and line buffer, and what keys, reads and writes do to them
 (student-distrib/lib.c, student-distrib/keyboard.c, student-distrib/terminal.c).
 */
module Console {
  import opened Bytes

  const COLS := 80
  const ROWS := 25
  const ATTRIB: byte := 7
  const VIDEO_SIZE := 4096
  const KEYS_SIZE := 128

  /** `video` has a character and an attribute byte per cell; `end` is `end_buf_idx`. */
  datatype Console = Console(video: seq<byte>, x: int, y: int, keys: seq<byte>, end: int)

  /** The column can be negative after a backspace at the left margin. */
  predicate ConsoleOk(con: Console) {
    && |con.video| == VIDEO_SIZE && |con.keys| == KEYS_SIZE
    && -COLS < con.x < COLS && 0 <= con.y < ROWS && 0 <= con.end < KEYS_SIZE
  }

  /** A store to video memory; one before its start hits no console. */
  function Poke(video: seq<byte>, i: int, b: byte): (r: seq<byte>)
    ensures |r| == |video|
  {
    if 0 <= i < |video| then video[i := b] else video
  }

  /** The remainder of C, with the sign of the dividend. */
  function TruncMod(a: int, m: int): (r: int)
    requires m > 0
    ensures -m < r < m && (a >= 0 ==> r >= 0) && (a <= 0 ==> r <= 0)
  {
    if a >= 0 then a % m else -((-a) % m)
  }

  function CellIndex(x: int, y: int): int {
    2 * (COLS * y + x)
  }

  function Draw(con: Console, c: byte): Console {
    con.(video := Poke(Poke(con.video, CellIndex(con.x, con.y), c), CellIndex(con.x, con.y) + 1, ATTRIB))
  }

  /** The characters move up one row and the last row is emptied; attributes stay. */
  function Scrolled(video: seq<byte>): (r: seq<byte>)
    requires |video| == VIDEO_SIZE
    ensures |r| == VIDEO_SIZE
  {
    seq(VIDEO_SIZE, i requires 0 <= i < VIDEO_SIZE =>
      if i % 2 == 1 || i >= CellIndex(0, ROWS) then video[i]
      else if i < CellIndex(0, ROWS - 1) then video[i + 2 * COLS]
      else NUL)
  }

  lemma {:induction false} ScrolledAt(video: seq<byte>, i: nat)
    requires |video| == VIDEO_SIZE && i < VIDEO_SIZE
    ensures Scrolled(video)[i] == if i % 2 == 1 || i >= CellIndex(0, ROWS) then video[i]
      else if i < CellIndex(0, ROWS - 1) then video[i + 2 * COLS] else NUL
  {
  }

  function ScrollUp(con: Console): Console
    requires |con.video| == VIDEO_SIZE
  {
    con.(video := Scrolled(con.video), x := 0, y := ROWS - 1)
  }

  predicate LineBreak(c: byte) {
    c == NEWLINE || c == RETURN
  }

  /** `putc`. The row wraps to 0 after the last cell: the test for scrolling comes after the remainder. */
  function PutC(con: Console, c: byte): (r: Console)
    requires ConsoleOk(con)
    ensures ConsoleOk(r) && r.keys == con.keys && r.end == con.end
  {
    if LineBreak(c) then
      if con.y + 1 >= ROWS then ScrollUp(con) else con.(y := con.y + 1, x := 0)
    else
      var y := if con.x + 1 >= COLS then con.y + 1 else con.y;
      Draw(con, c).(x := TruncMod(con.x + 1, COLS), y := y % ROWS)
  }

  function PutAll(con: Console, text: seq<byte>): (r: Console)
    requires ConsoleOk(con)
    ensures ConsoleOk(r) && r.keys == con.keys && r.end == con.end
  {
    if text == [] then con else PutC(PutAll(con, text[..|text| - 1]), text[|text| - 1])
  }

  function ClearedVideo(video: seq<byte>): (r: seq<byte>)
    requires |video| == VIDEO_SIZE
    ensures |r| == VIDEO_SIZE
  {
    seq(VIDEO_SIZE, i requires 0 <= i < VIDEO_SIZE =>
      if i >= CellIndex(0, ROWS) then video[i] else if i % 2 == 0 then SPACE else ATTRIB)
  }

  lemma {:induction false} ClearedAt(video: seq<byte>, i: nat)
    requires |video| == VIDEO_SIZE && i < VIDEO_SIZE
    ensures ClearedVideo(video)[i] == if i >= CellIndex(0, ROWS) then video[i] else if i % 2 == 0 then SPACE else ATTRIB
  {
  }

  // ----- the line buffer -----

  datatype Line = Line(keys: seq<byte>, end: int)

  predicate LineOk(l: Line) {
    |l.keys| == KEYS_SIZE && 0 <= l.end < KEYS_SIZE
  }

  /** A typed character: filling the last free place also stores a newline behind it. */
  function TypeKey(l: Line, c: byte): Line
    requires LineOk(l)
  {
    if l.end < KEYS_SIZE - 2 then Line(l.keys[l.end := c], l.end + 1)
    else if l.end == KEYS_SIZE - 2 then Line(l.keys[l.end := c][l.end + 1 := NEWLINE], l.end + 1)
    else l
  }

  function EraseKey(l: Line): Line
    requires LineOk(l)
  {
    if l.end > 0 then Line(l.keys[l.end - 1 := NUL], l.end - 1) else l
  }

  function EnterKey(l: Line): Line
    requires LineOk(l)
  {
    l.(keys := l.keys[l.end := NEWLINE])
  }

  function EmptyLine(): (l: Line)
    ensures LineOk(l)
  {
    Line(seq(KEYS_SIZE, i => NUL), 0)
  }

  /** What a read takes from the buffer: up to the first NUL, or `n` bytes. */
  function Taken(keys: seq<byte>, n: int): seq<byte> {
    if n <= 0 then [] else keys[..Min(n, IndexOf(keys, NUL))]
  }

  // ----- what can happen on a console -----

  datatype Action = Enter | Backspace | Type(c: byte) | Clear | Write(text: seq<byte>) | Read(n: int)

  function WithLine(con: Console, l: Line): Console {
    con.(keys := l.keys, end := l.end)
  }

  function LineOf(con: Console): Line {
    Line(con.keys, con.end)
  }

  function Act(con: Console, a: Action): (r: Console)
    requires ConsoleOk(con)
    ensures ConsoleOk(r)
  {
    match a
    case Enter =>
      var typed := WithLine(con, EnterKey(LineOf(con)));
      if con.y == ROWS - 1 then ScrollUp(typed) else typed.(y := con.y + 1, x := 0)
    case Backspace =>
      if con.end > 0 then
        var moved := con.(x := TruncMod(con.x - 1, COLS));
        WithLine(Draw(moved, NUL), EraseKey(LineOf(con)))
      else con
    case Type(c) =>
      var typed := WithLine(con, TypeKey(LineOf(con), c));
      if typed.end > KEYS_SIZE - 2 then typed
      else if con.x == COLS - 1 && con.y == ROWS - 1 then PutC(ScrollUp(typed), c)
      else PutC(typed, c)
    case Clear => con.(video := ClearedVideo(con.video), x := 0, y := 0)
    case Write(text) => PutAll(con, text)
    case Read(n) => WithLine(con, EmptyLine())
  }
}
