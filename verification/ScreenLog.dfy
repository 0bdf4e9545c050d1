/**
 The screen as a window on an unbounded log of rows (student-distrib/lib.c, student-distrib/keyboard.c).
 */
module ScreenLog {
  import opened Bytes
  import opened Console

  /** Everything ever printed, one row of 80 characters per line, with the cursor in it. */
  datatype Log = Log(rows: seq<seq<byte>>, row: nat, col: nat)

  ghost predicate LogOk(log: Log) {
    && |log.rows| >= ROWS && |log.rows| - ROWS <= log.row < |log.rows| && log.col < COLS
    && forall r :: 0 <= r < |log.rows| ==> |log.rows[r]| == COLS
  }

  function ZeroRow(): (r: seq<byte>)
    ensures |r| == COLS
  {
    seq(COLS, i => NUL)
  }

  /** To the start of the next row, which is added when there is none. */
  function NextRow(log: Log): Log {
    Log(if log.row + 1 == |log.rows| then log.rows + [ZeroRow()] else log.rows, log.row + 1, 0)
  }

  function Written(row: seq<byte>, col: nat, c: byte): (r: seq<byte>)
    requires col < |row|
    ensures |r| == |row|
  {
    row[..col] + [c] + row[col + 1..]
  }

  function LogPut(log: Log, c: byte): Log
    requires LogOk(log)
  {
    if LineBreak(c) then NextRow(log)
    else
      var written := log.(rows := log.rows[log.row := Written(log.rows[log.row], log.col, c)]);
      if log.col + 1 == COLS then NextRow(written) else written.(col := log.col + 1)
  }

  /** The character at a cell of the screen. */
  function Cell(con: Console, r: nat, c: nat): byte
    requires |con.video| == VIDEO_SIZE && r < ROWS && c < COLS
  {
    con.video[CellIndex(c, r)]
  }

  /** The screen shows the last 25 rows of the log and the cursor where the log has it. */
  ghost predicate Window(con: Console, log: Log) {
    && ConsoleOk(con) && 0 <= con.x && LogOk(log)
    && con.x == log.col && con.y == log.row - (|log.rows| - ROWS)
    && forall r, c :: 0 <= r < ROWS && 0 <= c < COLS ==> Cell(con, r, c) == log.rows[|log.rows| - ROWS + r][c]
  }

  /** A printable character in the last cell of the screen. */
  predicate LastCell(con: Console, c: byte) {
    !LineBreak(c) && con.x == COLS - 1 && con.y == ROWS - 1
  }

  lemma {:induction false} ScrollShows(con: Console, log: Log)
    requires Window(con, log) && con.y == ROWS - 1
    ensures Window(ScrollUp(con), NextRow(log))
  {
    var con', log' := ScrollUp(con), NextRow(log);
    forall r, c | 0 <= r < ROWS && 0 <= c < COLS
      ensures Cell(con', r, c) == log'.rows[|log'.rows| - ROWS + r][c]
    {
      if r < ROWS - 1 {
        assert Cell(con', r, c) == Cell(con, r + 1, c);
      }
    }
  }

  lemma {:induction false} DrawnCell(con: Console, c: byte, r: nat, k: nat)
    requires ConsoleOk(con) && 0 <= con.x && r < ROWS && k < COLS
    ensures Cell(Draw(con, c), r, k) == if r == con.y && k == con.x then c else Cell(con, r, k)
  {
    assert CellIndex(k, r) == CellIndex(con.x, con.y) <==> r == con.y && k == con.x;
    assert CellIndex(k, r) % 2 == 0 && (CellIndex(con.x, con.y) + 1) % 2 == 1;
  }

  lemma {:induction false} DrawShows(con: Console, log: Log, c: byte)
    requires Window(con, log)
    ensures Window(Draw(con, c), log.(rows := log.rows[log.row := Written(log.rows[log.row], log.col, c)]))
  {
    var con' := Draw(con, c);
    var rows' := log.rows[log.row := Written(log.rows[log.row], log.col, c)];
    forall r, k | 0 <= r < ROWS && 0 <= k < COLS
      ensures Cell(con', r, k) == rows'[|rows'| - ROWS + r][k]
    {
      DrawnCell(con, c, r, k);
      assert Cell(con, r, k) == log.rows[|log.rows| - ROWS + r][k];
    }
  }

  /** Moving the cursor on both sides, whatever the line buffer holds. */
  lemma {:induction false} CursorMoves(con: Console, con': Console, log: Log, log': Log)
    requires Window(con, log) && ConsoleOk(con') && con'.video == con.video && log'.rows == log.rows
    requires LogOk(log') && 0 <= con'.x == log'.col && con'.y == log'.row - (|log.rows| - ROWS)
    ensures Window(con', log')
  {
    forall r, c | 0 <= r < ROWS && 0 <= c < COLS
      ensures Cell(con', r, c) == log'.rows[|log'.rows| - ROWS + r][c]
    {
      assert Cell(con', r, c) == Cell(con, r, c);
    }
  }

  /** One `putc` keeps the screen a window on the log if and only if it does not print in the last
      cell, where the cursor goes back to the top instead. */
  lemma {:induction false} PutShowsIff(con: Console, log: Log, c: byte)
    requires Window(con, log)
    ensures Window(PutC(con, c), LogPut(log, c)) <==> !LastCell(con, c)
  {
    if LineBreak(c) {
      if con.y + 1 >= ROWS {
        ScrollShows(con, log);
      } else {
        CursorMoves(con, PutC(con, c), log, NextRow(log));
      }
    } else if !LastCell(con, c) {
      var written := log.(rows := log.rows[log.row := Written(log.rows[log.row], log.col, c)]);
      DrawShows(con, log, c);
      CursorMoves(Draw(con, c), PutC(con, c), written, LogPut(log, c));
    }
  }

  /** Newline and carriage return alike go to the start of the next row, or scroll in the last row; every other byte
      moves the cursor on by one cell, from the last cell to the first. */
  lemma {:induction false} CursorAfter(con: Console, c: byte)
    requires ConsoleOk(con) && 0 <= con.x
    ensures var r := PutC(con, c);
      if c == 10 || c == 13 then r.x == 0 && r.y == Min(con.y + 1, 24)
      else r.y * 80 + r.x == (con.y * 80 + con.x + 1) % 2000
  {
  }

  /** No character of the text is printed in the last cell. */
  ghost predicate Clears(con: Console, text: seq<byte>)
    requires ConsoleOk(con)
  {
    forall i :: 0 <= i < |text| ==> !LastCell(PutAll(con, text[..i]), text[i])
  }

  ghost function LogPutAll(log: Log, text: seq<byte>): (r: Log)
    requires LogOk(log)
    ensures LogOk(r)
  {
    if text == [] then log
    else
      var before := LogPutAll(log, text[..|text| - 1]);
      LogPutOk(before, text[|text| - 1]);
      LogPut(before, text[|text| - 1])
  }

  lemma {:induction false} LogPutOk(log: Log, c: byte)
    requires LogOk(log)
    ensures LogOk(LogPut(log, c))
  {
  }

  /** Any text that stays clear of the last cell: the screen is the window on the log of all of it. */
  lemma {:induction false} PutAllShows(con: Console, log: Log, text: seq<byte>)
    requires Window(con, log) && Clears(con, text)
    ensures Window(PutAll(con, text), LogPutAll(log, text))
  {
    if text != [] {
      var before := text[..|text| - 1];
      assert forall i :: 0 <= i < |before| ==> before[..i] == text[..i];
      PutAllShows(con, log, before);
      PutShowsIff(PutAll(con, before), LogPutAll(log, before), text[|text| - 1]);
    }
  }

  /** Whatever is printed, from a cursor on the screen the cursor stays on the screen, and nothing
      behind the 2000 cells is written. */
  lemma {:induction false} PutAllStays(con: Console, text: seq<byte>)
    requires ConsoleOk(con) && 0 <= con.x
    ensures var r := PutAll(con, text);
      && 0 <= r.x < COLS && 0 <= r.y < ROWS
      && r.video[CellIndex(0, ROWS)..] == con.video[CellIndex(0, ROWS)..]
  {
    if text != [] {
      PutAllStays(con, text[..|text| - 1]);
      var before := PutAll(con, text[..|text| - 1]);
      PutStays(before, text[|text| - 1]);
    }
  }

  lemma {:induction false} PutStays(con: Console, c: byte)
    requires ConsoleOk(con) && 0 <= con.x
    ensures var r := PutC(con, c);
      && 0 <= r.x < COLS && 0 <= r.y < ROWS
      && r.video[CellIndex(0, ROWS)..] == con.video[CellIndex(0, ROWS)..]
  {
    var r := PutC(con, c);
    assert forall i :: CellIndex(0, ROWS) <= i < VIDEO_SIZE ==> r.video[i] == con.video[i];
  }

  /** Typing echoes safely: at the last cell the keyboard driver breaks the line first. */
  lemma {:induction false} EchoShows(con: Console, log: Log, c: byte)
    requires Window(con, log) && con.end < KEYS_SIZE - 2
    ensures Window(Act(con, Type(c)),
                   if con.x == COLS - 1 && con.y == ROWS - 1 then LogPut(NextRow(log), c) else LogPut(log, c))
  {
    var typed := WithLine(con, TypeKey(LineOf(con), c));
    CursorMoves(con, typed, log, log);
    if con.x == COLS - 1 && con.y == ROWS - 1 {
      ScrollShows(typed, log);
      PutShowsIff(ScrollUp(typed), NextRow(log), c);
    } else {
      PutShowsIff(typed, log, c);
    }
  }

  // ----- everything that happens on a console -----

  function BlankLog(): (log: Log)
    ensures LogOk(log)
  {
    Log(seq(ROWS, r => seq<byte>(COLS, c => SPACE)), 0, 0)
  }

  /** What an action adds to the log; `end` is how many characters the line being typed has. */
  ghost function LogAct(log: Log, end: int, a: Action): Log
    requires LogOk(log)
  {
    match a
    case Enter => NextRow(log)
    case Backspace => log
    case Type(c) =>
      if end >= KEYS_SIZE - 2 then log
      else if log.col == COLS - 1 && log.row == |log.rows| - 1 then LogNext(log); LogPut(NextRow(log), c)
      else LogPut(log, c)
    case Clear => BlankLog()
    case Write(text) => LogPutAll(log, text)
    case Read(_) => log
  }

  lemma {:induction false} LogNext(log: Log)
    requires LogOk(log)
    ensures LogOk(NextRow(log))
  {
  }

  /** The action prints nothing in the last cell, and erases nothing. */
  ghost predicate Orderly(con: Console, a: Action)
    requires ConsoleOk(con)
  {
    match a
    case Backspace => con.end == 0
    case Write(text) => Clears(con, text)
    case _ => true
  }

  lemma {:induction false} BreakShows(con: Console, con': Console, log: Log)
    requires Window(con, log) && con.y < ROWS - 1 && ConsoleOk(con')
    requires con'.video == con.video && con'.x == 0 && con'.y == con.y + 1
    ensures Window(con', NextRow(log))
  {
    CursorMoves(con, con', log, NextRow(log));
  }

  lemma {:induction false} ClearShows(con: Console)
    requires ConsoleOk(con)
    ensures Window(Act(con, Clear), BlankLog())
    ensures forall r, c :: 0 <= r < ROWS && 0 <= c < COLS ==> Act(con, Clear).video[CellIndex(c, r) + 1] == 7
  {
    var con' := Act(con, Clear);
    forall r, c | 0 <= r < ROWS && 0 <= c < COLS
      ensures Cell(con', r, c) == SPACE && con'.video[CellIndex(c, r) + 1] == 7
    {
      assert CellIndex(c, r) % 2 == 0 && (CellIndex(c, r) + 1) % 2 == 1;
      ClearedAt(con.video, CellIndex(c, r));
      ClearedAt(con.video, CellIndex(c, r) + 1);
    }
  }

  /** Keys, output, clearing and reading all keep the screen a window on the log of what they print. */
  lemma {:induction false} ActShows(con: Console, log: Log, a: Action)
    requires Window(con, log) && Orderly(con, a)
    ensures Window(Act(con, a), LogAct(log, con.end, a))
  {
    match a
    case Enter =>
      var typed := WithLine(con, EnterKey(LineOf(con)));
      if con.y == ROWS - 1 {
        CursorMoves(con, typed, log, log);
        ScrollShows(typed, log);
      } else {
        BreakShows(con, Act(con, a), log);
      }
    case Backspace =>
    case Type(c) =>
      if con.end < KEYS_SIZE - 2 {
        EchoShows(con, log, c);
      } else {
        CursorMoves(con, Act(con, a), log, log);
      }
    case Clear => ClearShows(con);
    case Write(text) => PutAllShows(con, log, text);
    case Read(n) => CursorMoves(con, Act(con, a), log, log);
  }

  /** `putc` sets the attribute of the cell it prints in to 7 and leaves every other attribute alone. */
  lemma {:induction false} PutAttribute(con: Console, c: byte, r: nat, k: nat)
    requires ConsoleOk(con) && 0 <= con.x && r < ROWS && k < COLS
    ensures PutC(con, c).video[CellIndex(k, r) + 1] ==
      if !LineBreak(c) && r == con.y && k == con.x then 7 else con.video[CellIndex(k, r) + 1]
  {
    assert (CellIndex(k, r) + 1) % 2 == 1 && CellIndex(con.x, con.y) % 2 == 0;
    if LineBreak(c) && con.y + 1 >= ROWS {
      ScrolledAt(con.video, CellIndex(k, r) + 1);
    }
  }

  /** A backspace takes back the character typed before it, also across the end of a row: the line is as before, the
      cursor is at the same cell, and only that cell has changed, to a NUL. */
  lemma {:induction false} BackspaceUndoes(con: Console, c: byte)
    requires ConsoleOk(con) && 0 <= con.x && !LineBreak(c) && !LastCell(con, c)
    requires con.end < KEYS_SIZE - 2 && con.keys[con.end] == NUL
    ensures var r, i := Act(Act(con, Type(c)), Backspace), 2 * (80 * con.y + con.x);
      && LineOf(r) == LineOf(con) && 80 * r.y + r.x == 80 * con.y + con.x
      && r.video == con.video[i := NUL][i + 1 := 7]
  {
    var typed := Act(con, Type(c));
    assert 80 * typed.y + typed.x == 80 * con.y + con.x + 1;
    var r, i := Act(typed, Backspace), 2 * (80 * con.y + con.x);
    assert r.keys == con.keys;
    assert CellIndex(r.x, r.y) == i;
    assert typed.video == con.video[i := c][i + 1 := 7];
  }
}
