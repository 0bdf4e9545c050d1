/**
 `grep` over the kernel's read path: lines are cut out of a sliding 1024-byte buffer and matched
 in place (syscalls/ece391grep.c, syscalls/ece391support.c).
 */
module Grep {
  import opened Bytes
  import opened FileSystem
  import opened Directory
  import opened Descriptors

  const BUFSIZE := 1024

  // ----- what grep is for: a report over the whole file -----

  function Ascii(text: string): seq<byte> {
    seq(|text|, i requires 0 <= i < |text| => text[i] as int % 256)
  }

  ghost predicate OccursAt(s: seq<byte>, line: seq<byte>, k: nat) {
    k + |s| <= |line| && line[k..k + |s|] == s
  }

  /** A line matches when it contains the pattern; the empty pattern matches nothing. */
  ghost predicate Matches(s: seq<byte>, line: seq<byte>) {
    s != [] && exists k: nat :: OccursAt(s, line, k)
  }

  ghost function LineReport(fname: seq<byte>, s: seq<byte>, line: seq<byte>): seq<byte> {
    if Matches(s, line) then fname + [COLON] + line + [NEWLINE] else []
  }

  ghost function ReportLines(fname: seq<byte>, s: seq<byte>, lines: seq<seq<byte>>): seq<byte> {
    if lines == [] then [] else LineReport(fname, s, lines[0]) + ReportLines(fname, s, lines[1..])
  }

  /** Whole-file grep: every matching line, once, in order. */
  ghost function WholeReport(fname: seq<byte>, s: seq<byte>, f: seq<byte>): seq<byte> {
    ReportLines(fname, s, Lines(f))
  }

  /** The pieces the buffer can hold: a line, or 1024 bytes when no newline comes earlier. */
  function Pieces(f: seq<byte>): seq<seq<byte>> {
    var k := IndexOf(f, NEWLINE);
    if k < BUFSIZE && k < |f| then [f[..k]] + Pieces(f[k + 1..])
    else if BUFSIZE <= |f| then [f[..BUFSIZE]] + Pieces(f[BUFSIZE..])
    else [f]
  }

  ghost function StreamReport(fname: seq<byte>, s: seq<byte>, f: seq<byte>): seq<byte> {
    ReportLines(fname, s, Pieces(f))
  }

  // ----- what the program prints, for any content of file and buffer -----

  /** The test of the search loop. It covers a line beyond an embedded NUL, and such a NUL is what an
      empty pattern finds. */
  ghost predicate Hits(s: seq<byte>, line: seq<byte>) {
    if s == [] then NUL in line else Matches(s, line)
  }

  /** The printed text stops at the first NUL. */
  ghost function LineOutput(fname: seq<byte>, s: seq<byte>, line: seq<byte>): seq<byte> {
    if Hits(s, line) then fname + [COLON] + line[..IndexOf(line, NUL)] + [NEWLINE] else []
  }

  ghost function Output(fname: seq<byte>, s: seq<byte>, lines: seq<seq<byte>>): seq<byte> {
    if lines == [] then [] else LineOutput(fname, s, lines[0]) + Output(fname, s, lines[1..])
  }

  /** Where the unfinished last line of a full buffer begins. */
  function LineStart(w: seq<byte>, from: nat := 0): (u: nat)
    requires from <= |w|
    ensures from <= u <= |w| && forall j :: u <= j < |w| ==> w[j] != NEWLINE
    ensures u > from ==> w[u - 1] == NEWLINE
    decreases |w| - from
  {
    var k := IndexOf(w, NEWLINE, from);
    if k == |w| then from else LineStart(w, k + 1)
  }

  /** The lines of the buffer that end in it. */
  function Finished(w: seq<byte>, from: nat := 0): seq<seq<byte>>
    requires from <= |w|
    decreases |w| - from
  {
    var k := IndexOf(w, NEWLINE, from);
    if k == |w| then [] else [w[from..k]] + Finished(w, k + 1)
  }

  function Blanked(b: byte): byte {
    if b == NEWLINE then NUL else b
  }

  /** What the downward copy leaves of the line from `u` on: the copy stops at the line's first NUL, and
      the bytes after it are those that were at the front of the buffer, their newlines overwritten. */
  function CarriedFrom(w: seq<byte>, u: nat): (r: seq<byte>)
    requires u <= |w|
    ensures |r| == |w| - u
  {
    var z := IndexOf(w, NUL, u);
    seq(|w| - u, j requires 0 <= j < |w| - u => if u + j <= z then w[u + j] else Blanked(w[j]))
  }

  function CarriedOver(w: seq<byte>): (r: seq<byte>)
    ensures |r| == |w| - LineStart(w)
  {
    CarriedFrom(w, LineStart(w))
  }

  /** Where the uninitialised buffer held a newline behind the bytes of the first read: in its last
      byte, or just behind a file that does not fill it. */
  datatype Stale = Stale(full: bool, short: bool)

  /** After a read that filled the buffer with `w`, the unfinished line is moved to the front. */
  predicate Carries(w: seq<byte>, stale: Stale) {
    0 < LineStart(w) < |w| && !(if |w| == BUFSIZE then stale.full else stale.short)
  }

  /** The last byte is overwritten when a full buffer ends in an unfinished line. */
  function StaleAfter(w: seq<byte>, stale: Stale): Stale {
    Stale(stale.full && LineStart(w) == |w| == BUFSIZE, false)
  }

  function Room(carry: seq<byte>, rest: seq<byte>): nat
    requires |carry| < BUFSIZE
  {
    Min(BUFSIZE - |carry|, |rest|)
  }

  /** The pieces that are searched one after the other: `carry` is at the front of the buffer and
      `rest` is still to be read. */
  function Searched(carry: seq<byte>, rest: seq<byte>, stale: Stale): seq<seq<byte>>
    requires |carry| < BUFSIZE
    decreases |rest|
  {
    if rest == [] then [carry]
    else
      var n := Room(carry, rest);
      var w := carry + rest[..n];
      if Carries(w, stale) then Finished(w) + Searched(CarriedOver(w), rest[n..], StaleAfter(w, stale))
      else Finished(w) + LastPiece(w) + Searched([], rest[n..], StaleAfter(w, stale))
  }

  function LastPiece(w: seq<byte>): seq<seq<byte>> {
    if LineStart(w) == |w| then [] else [w[LineStart(w)..]]
  }

  lemma {:induction false} OutputCons(fname: seq<byte>, s: seq<byte>, line: seq<byte>, lines: seq<seq<byte>>)
    ensures Output(fname, s, [line] + lines) == LineOutput(fname, s, line) + Output(fname, s, lines)
  {
    assert ([line] + lines)[1..] == lines;
  }

  lemma {:induction false} OutputOne(fname: seq<byte>, s: seq<byte>, line: seq<byte>)
    ensures Output(fname, s, [line]) == LineOutput(fname, s, line)
    ensures LineOutput(fname, s, []) == []
  {
    OutputCons(fname, s, line, []);
    assert [line] + [] == [line];
  }

  lemma {:induction false} OutputAppend(fname: seq<byte>, s: seq<byte>, a: seq<seq<byte>>, b: seq<seq<byte>>)
    ensures Output(fname, s, a + b) == Output(fname, s, a) + Output(fname, s, b)
  {
    if a == [] {
      assert a + b == b;
    } else {
      assert a + b == [a[0]] + (a[1..] + b);
      OutputCons(fname, s, a[0], a[1..] + b);
      OutputAppend(fname, s, a[1..], b);
      Associative(LineOutput(fname, s, a[0]), Output(fname, s, a[1..]), Output(fname, s, b));
    }
  }

  // ----- the string routines grep uses, on its buffer -----

  /** `ece391_strcpy(data, data + src)`: an overlapping copy downwards, up to and including the NUL. */
  method StrCpyDown(data: array<byte>, src: nat, ghost end: nat)
    requires 0 < src && StringIn(data, src, end)
    modifies data
    ensures data[..] == Splice(old(data[..]), 0, old(data[src..end + 1]))
  {
    var i := 0;
    ghost var was := data[..];
    while data[src + i] != NUL
      invariant 0 <= i <= end - src
      invariant forall j :: 0 <= j < i ==> data[j] == was[src + j]
      invariant forall j :: i <= j < data.Length ==> data[j] == was[j]
      decreases end - src - i
    {
      data[i] := data[src + i];
      i := i + 1;
    }
    data[i] := data[src + i];
  }

  /** `ece391_strncmp(data + at, s, strlen(s)) == 0` with a NUL somewhere at or after `at`. */
  method PrefixEqual(data: array<byte>, at: nat, s: seq<byte>, ghost end: nat) returns (r: bool)
    requires at <= end < data.Length && data[end] == NUL && NulFree(s)
    ensures r <==> OccursAt(s, data[at..end], 0)
  {
    ghost var line := data[at..end];
    if |s| == 0 {
      return true;
    }
    var i := 0;
    while data[at + i] == s[i]
      invariant 0 <= i < |s| && i <= |line|
      invariant forall j :: 0 <= j < i ==> line[j] == s[j]
      decreases |s| - i
    {
      assert at + i != end;
      assert line[i] == data[at + i];
      if data[at + i] == NUL || i + 1 == |s| {
        assert line[0..|s|] == s;
        return true;
      }
      i := i + 1;
    }
    return false;
  }

  /** `ece391_fdputs` of a string in the buffer: the bytes before its NUL. */
  method StringAt(data: array<byte>, at: nat, ghost end: nat) returns (t: seq<byte>)
    requires StringIn(data, at, end)
    ensures t == data[at..end]
  {
    var len := StrLen(data, at, end);
    t := data[at..at + len];
  }

  /** Puts the report of a line that was hit. */
  method PutLine(data: array<byte>, start: nat, end: nat, fname: seq<byte>) returns (out: seq<byte>)
    requires start <= end < data.Length && data[end] == NUL
    ensures out == fname + [COLON] + data[start..end][..IndexOf(data[start..end], NUL)] + [NEWLINE]
  {
    ghost var line := data[start..end];
    ghost var z := IndexOf(line, NUL);
    assert forall k :: start <= k < start + z ==> data[k] == line[k - start];
    assert z < |line| ==> data[start + z] == line[z];
    assert data[start..start + z] == line[..z];
    var text := StringAt(data, start, start + z);
    return fname + [COLON] + text + [NEWLINE];
  }

  /** The search loop: one report for a line that is hit anywhere. */
  method SearchLine(data: array<byte>, start: nat, end: nat, s: seq<byte>, fname: seq<byte>)
    returns (out: seq<byte>)
    requires start <= end < data.Length && data[end] == NUL && NulFree(s)
    ensures out == LineOutput(fname, s, data[start..end])
  {
    ghost var line := data[start..end];
    var check := start;
    while check < end
      invariant start <= check <= end
      invariant forall k: nat :: k < check - start ==> !HitAt(s, line, k)
    {
      assert data[check..end] == line[check - start..] && line[check - start] == data[check];
      OccursShift(s, line, check - start);
      if data[check] == if s == [] then NUL else s[0] {
        var same := PrefixEqual(data, check, s, end);
        if same {
          HitIs(s, line, check - start);
          out := PutLine(data, start, end, fname);
          return;
        }
      }
      check := check + 1;
    }
    if Hits(s, line) {
      ghost var k := HitSomewhere(s, line);
    }
    return [];
  }

  /** The test of the search loop at one byte of the line. */
  ghost predicate HitAt(s: seq<byte>, line: seq<byte>, k: nat) {
    k < |line| && line[k] == (if s == [] then NUL else s[0]) && OccursAt(s, line[k..], 0)
  }

  lemma {:induction false} OccursShift(s: seq<byte>, line: seq<byte>, k: nat)
    requires k <= |line|
    ensures OccursAt(s, line, k) <==> OccursAt(s, line[k..], 0)
  {
    if k + |s| <= |line| {
      assert line[k..][0..|s|] == line[k..k + |s|];
    }
  }

  lemma {:induction false} HitIs(s: seq<byte>, line: seq<byte>, k: nat)
    requires HitAt(s, line, k)
    ensures Hits(s, line)
  {
    OccursShift(s, line, k);
  }

  lemma {:induction false} HitSomewhere(s: seq<byte>, line: seq<byte>) returns (k: nat)
    requires Hits(s, line)
    ensures HitAt(s, line, k)
  {
    if s == [] {
      k :| 0 <= k < |line| && line[k] == NUL;
      assert line[k..][0..0] == [];
    } else {
      k :| OccursAt(s, line, k);
      assert line[k..k + |s|][0] == line[k];
      OccursShift(s, line, k);
    }
  }

  // ----- the buffer loop -----

  /** The scan for the end of the line: a newline or the end of what was read. */
  method FindEnd(data: array<byte>, start: nat, last: nat, ghost w: seq<byte>) returns (end: nat)
    requires start <= last == |w| < data.Length && forall k :: start <= k < last ==> data[k] == w[k]
    ensures end == IndexOf(w, NEWLINE, start)
  {
    end := start;
    while end < last && data[end] != NEWLINE
      invariant start <= end <= last && forall k :: start <= k < end ==> w[k] != NEWLINE
    {
      end := end + 1;
    }
    IndexOfIs(w, NEWLINE, end, start);
  }

  /** The buffer after the lines of `w` before `start` were cut: their newlines are overwritten. */
  ghost predicate CutUpTo(data: array<byte>, w: seq<byte>, start: nat)
    requires |w| <= data.Length
    reads data
  {
    && (forall k :: 0 <= k < |w| && k < start ==> data[k] == Blanked(w[k]))
    && (forall k :: start <= k < |w| ==> data[k] == w[k])
  }

  /** Moves the unfinished line to the front of the buffer, as far as its first NUL. */
  method CarryDown(data: array<byte>, start: nat, last: nat, ghost w: seq<byte>)
    requires 0 < start < last == |w| < data.Length && CutUpTo(data, w, start)
    requires forall k :: start <= k < |w| ==> w[k] != NEWLINE
    modifies data
    ensures data[..last - start] == CarriedFrom(w, start)
    ensures forall k :: 0 <= k < last ==> data[k] != NEWLINE
    ensures data[last] == NUL && forall k :: last < k < data.Length ==> data[k] == old(data[k])
  {
    data[last] := NUL;
    ghost var z := IndexOf(w, NUL, start);
    ghost var was := data[..];
    StrCpyDown(data, start, z);
    AfterCarry(w, start, z, was, data[..]);
    CarriedIs(w, start, data[..last - start]);
  }

  lemma {:induction false} CarriedIs(w: seq<byte>, u: nat, r: seq<byte>)
    requires u <= |w| && |r| == |w| - u
    requires forall k {:trigger r[k]} :: 0 <= k < |r| ==>
      r[k] == if u + k <= IndexOf(w, NUL, u) then w[u + k] else Blanked(w[k])
    ensures r == CarriedFrom(w, u)
  {
    assert forall k :: 0 <= k < |r| ==> r[k] == CarriedFrom(w, u)[k];
  }

  lemma {:induction false} AfterCarry(w: seq<byte>, u: nat, z: nat, was: seq<byte>, now: seq<byte>)
    requires 0 < u <= z <= |w| < |was| == |now| && forall k :: u <= k < |w| ==> w[k] != NEWLINE
    requires was[|w|] == NUL && forall k :: 0 <= k < |w| ==> was[k] == if k < u then Blanked(w[k]) else w[k]
    requires now == Splice(was, 0, was[u..z + 1])
    ensures forall k {:trigger now[k]} :: 0 <= k < |w| - u ==>
      now[k] == if u + k <= z then w[u + k] else Blanked(w[k])
    ensures forall k :: 0 <= k < |w| ==> now[k] != NEWLINE
    ensures now[|w|] == NUL && forall k :: |w| < k < |now| ==> now[k] == was[k]
  {
    assert forall k :: 0 <= k < |now| ==> now[k] == if k <= z - u then was[u + k] else was[k];
    forall k | 0 <= k < |w| - u
      ensures now[k] == if u + k <= z then w[u + k] else Blanked(w[k])
    {
      assert k >= u ==> w[k] != NEWLINE;
    }
  }

  /** Terminates the line `start..end` in place and searches it. */
  method CutLine(data: array<byte>, start: nat, end: nat, s: seq<byte>, fname: seq<byte>, ghost w: seq<byte>)
    returns (report: seq<byte>)
    requires start <= end <= |w| < data.Length && NulFree(s) && CutUpTo(data, w, start)
    requires (forall k :: start <= k < end ==> w[k] != NEWLINE) && (end < |w| ==> w[end] == NEWLINE)
    modifies data
    ensures report == LineOutput(fname, s, w[start..end]) && CutUpTo(data, w, end + 1)
    ensures forall k :: |w| <= k < data.Length ==> data[k] == if k == end then NUL else old(data[k])
  {
    data[end] := NUL;
    assert data[start..end] == w[start..end];
    report := SearchLine(data, start, end, s, fname);
  }

  /** What the line from `start` on contributes: `due` stands for `Output(fname, s, Finished(w, start))`. */
  ghost predicate LineLaw(due: nat -> seq<byte>, fname: seq<byte>, s: seq<byte>, w: seq<byte>, start: nat)
    requires start <= |w|
  {
    var end := IndexOf(w, NEWLINE, start);
    due(start) == if end == |w| then [] else LineOutput(fname, s, w[start..end]) + due(end + 1)
  }

  ghost predicate LineLaws(due: nat -> seq<byte>, fname: seq<byte>, s: seq<byte>, w: seq<byte>) {
    forall start {:trigger LineLaw(due, fname, s, w, start)} :: 0 <= start <= |w| ==> LineLaw(due, fname, s, w, start)
  }

  ghost function Due(fname: seq<byte>, s: seq<byte>, w: seq<byte>): nat -> seq<byte> {
    (start: nat) => if start <= |w| then Output(fname, s, Finished(w, start)) else []
  }

  ghost predicate Counts(due: nat -> seq<byte>, fname: seq<byte>, s: seq<byte>, w: seq<byte>, start: nat)
    requires start <= |w|
  {
    due(start) == Output(fname, s, Finished(w, start))
  }

  lemma {:induction false} DueAt(fname: seq<byte>, s: seq<byte>, w: seq<byte>, start: nat)
    requires start <= |w|
    ensures Counts(Due(fname, s, w), fname, s, w, start)
  {
  }

  lemma {:induction false} LineLawsHold(fname: seq<byte>, s: seq<byte>, w: seq<byte>)
    ensures LineLaws(Due(fname, s, w), fname, s, w)
    ensures Due(fname, s, w)(0) == Output(fname, s, Finished(w))
  {
    DueAt(fname, s, w, 0);
    forall start | 0 <= start <= |w|
      ensures LineLaw(Due(fname, s, w), fname, s, w, start)
    {
      DueAt(fname, s, w, start);
      DueAt(fname, s, w, Min(IndexOf(w, NEWLINE, start) + 1, |w|));
      LineLawHolds(Due(fname, s, w), fname, s, w, start);
    }
  }

  lemma {:induction false} LineLawHolds(due: nat -> seq<byte>, fname: seq<byte>, s: seq<byte>, w: seq<byte>, start: nat)
    requires start <= |w| && Counts(due, fname, s, w, start)
    requires Counts(due, fname, s, w, Min(IndexOf(w, NEWLINE, start) + 1, |w|))
    ensures LineLaw(due, fname, s, w, start)
  {
    var end := IndexOf(w, NEWLINE, start);
    if end < |w| {
      OutputCut(fname, s, w, start, end);
    } else {
      assert Finished(w, start) == [];
    }
  }

  lemma {:induction false} OutputCut(fname: seq<byte>, s: seq<byte>, w: seq<byte>, start: nat, end: nat)
    requires start <= |w| && end == IndexOf(w, NEWLINE, start) < |w|
    ensures Output(fname, s, Finished(w, start))
      == LineOutput(fname, s, w[start..end]) + Output(fname, s, Finished(w, end + 1))
  {
    var later := Finished(w, end + 1);
    assert Finished(w, start) == [w[start..end]] + later;
    OutputCons(fname, s, w[start..end], later);
  }

  /** The unfinished line of `w` begins at `u`. */
  ghost predicate LastLine(w: seq<byte>, u: nat) {
    u <= |w| && (forall j :: u <= j < |w| ==> w[j] != NEWLINE) && (u > 0 ==> w[u - 1] == NEWLINE)
  }

  lemma {:induction false} Shifted(a: seq<byte>, b: seq<byte>, c: seq<byte>, bc: seq<byte>, abc: seq<byte>)
    requires bc == b + c && abc == a + bc
    ensures abc == a + b + c
  {
  }

  /** The inner loop: cuts the buffer into lines and searches them, up to an unfinished line that is to be
      carried. */
  method CutLines(data: array<byte>, filled: nat, cnt: nat, s: seq<byte>, fname: seq<byte>,
                  ghost w: seq<byte>, ghost due: nat -> seq<byte>, ghost u: nat)
    returns (out: seq<byte>, start: nat)
    requires filled < data.Length && w == data[..filled] && NulFree(s)
    requires LineLaws(due, fname, s, w) && LastLine(w, u)
    modifies data
    ensures start < filled <==> 0 < u < filled && old(data[filled]) != NEWLINE && cnt != 0
    ensures start < filled ==> start == u && out == due(0)
    ensures start >= filled ==> out == if u == filled then due(0) else due(0) + LineOutput(fname, s, w[u..])
    ensures CutUpTo(data, w, start)
    ensures forall k :: filled <= k < data.Length ==>
      data[k] == if k == filled && start > filled then NUL else old(data[k])
    ensures start > filled <==> filled == 0 || (start >= filled && u < filled)
  {
    out := [];
    start := 0;
    while true
      invariant 0 <= start <= u <= filled && (start < filled || start == 0)
      invariant CutUpTo(data, w, start) && (start > 0 ==> w[start - 1] == NEWLINE)
      invariant forall k :: filled <= k < data.Length ==> data[k] == old(data[k])
      invariant out + due(start) == due(0)
      decreases filled - start
    {
      var end := FindEnd(data, start, filled, w);
      assert LineLaw(due, fname, s, w, start);
      assert end == filled ==> u == start;
      if data[end] != NEWLINE && cnt != 0 && start != 0 {
        EmptyConcat(out);
        return;
      }
      var report := CutLine(data, start, end, s, fname, w);
      if end < filled {
        Shifted(out, report, due(end + 1), due(start), due(0));
        assert end + 1 == |w| ==> LineLaw(due, fname, s, w, end + 1);
        EmptyConcat(out + report);
      } else {
        EmptyConcat(out);
        assert w[start..end] == w[start..];
      }
      out := out + report;
      start := end + 1;
      if start >= filled {
        return;
      }
    }
  }

  /** Searches the lines of the buffer; an unfinished line is moved to the front. */
  method ScanLines(data: array<byte>, filled: nat, cnt: nat, s: seq<byte>, fname: seq<byte>,
                   ghost due: nat -> seq<byte>, ghost u: nat)
    returns (out: seq<byte>, last: nat)
    requires data.Length == BUFSIZE + 1 && filled <= BUFSIZE && NulFree(s)
    requires LineLaws(due, fname, s, data[..filled]) && LastLine(data[..filled], u)
    modifies data
    ensures var w := old(data[..filled]);
      var carries := 0 < u < filled && old(data[filled]) != NEWLINE && cnt != 0;
      && last <= filled
      && out == (if carries || u == filled then due(0) else due(0) + LineOutput(fname, s, w[u..]))
      && data[..last] == (if carries then CarriedFrom(w, u) else [])
      && data[BUFSIZE] == if u < filled == BUFSIZE then NUL else old(data[BUFSIZE])
    ensures forall k :: 0 <= k < filled ==> data[k] != NEWLINE
  {
    ghost var w := data[..filled];
    var start;
    out, start := CutLines(data, filled, cnt, s, fname, w, due, u);
    if start < filled {
      CarryDown(data, start, filled, w);
      last := filled - start;
    } else {
      assert forall k :: 0 <= k < filled ==> data[k] == Blanked(w[k]);
      last := 0;
    }
  }

  /** What the inner loop does to a buffer that starts with `w`: the pieces searched, and what is carried. */
  method ScanBuffer(data: array<byte>, filled: nat, cnt: nat, s: seq<byte>, fname: seq<byte>)
    returns (out: seq<byte>, last: nat)
    requires data.Length == BUFSIZE + 1 && filled <= BUFSIZE && NulFree(s)
    modifies data
    ensures var w := old(data[..filled]);
      var carries := 0 < LineStart(w) < |w| && old(data[filled]) != NEWLINE && cnt != 0;
      && out == Output(fname, s, Finished(w) + if carries then [] else LastPiece(w))
      && last <= filled && data[..last] == (if carries then CarriedOver(w) else [])
      && data[BUFSIZE] == if LineStart(w) < |w| == BUFSIZE then NUL else old(data[BUFSIZE])
    ensures forall k :: 0 <= k < filled ==> data[k] != NEWLINE
  {
    ghost var w := data[..filled];
    LineLawsHold(fname, s, w);
    OutputLast(fname, s, w);
    out, last := ScanLines(data, filled, cnt, s, fname, Due(fname, s, w), LineStart(w));
  }

  /** The report of the unfinished line completes the output. */
  lemma {:induction false} OutputLast(fname: seq<byte>, s: seq<byte>, w: seq<byte>)
    ensures Output(fname, s, Finished(w) + []) == Output(fname, s, Finished(w))
    ensures Output(fname, s, Finished(w) + LastPiece(w)) ==
      if LineStart(w) == |w| then Output(fname, s, Finished(w))
      else Output(fname, s, Finished(w)) + LineOutput(fname, s, w[LineStart(w)..])
  {
    assert Finished(w) + [] == Finished(w);
    OutputOne(fname, s, w[LineStart(w)..]);
    OutputAppend(fname, s, Finished(w), LastPiece(w));
  }

  // ----- one file -----

  /** What reading a descriptor to the end gives: the file's bytes, or nothing from the clock. */
  ghost function Content(img: Image, fname: seq<byte>): seq<byte>
    requires WellFormed(img) && Lookup(img, fname) < img.dirCount
  {
    var d := img.entries[Lookup(img, fname)];
    if d.filetype == FILE_TYPE then
      assert SoundInode(img, d.inode);
      File(img, d.inode)
    else []
  }

  /** The name, if present, is that of a regular file or the clock. */
  ghost predicate Searchable(img: Image, fname: seq<byte>)
    requires WellFormed(img)
  {
    var k := Lookup(img, fname);
    k < img.dirCount ==> img.entries[k].filetype in {FILE_TYPE, RTC_TYPE}
  }

  /** Descriptor `f` is open on content `c` and has delivered `pos` bytes of it. */
  ghost predicate Streaming(img: Image, f: Fd, c: seq<byte>, pos: nat)
    requires WellFormed(img)
  {
    && f.flags == 1 && pos <= |c| && f.position == pos
    && ( || (f.ops == RtcOps && c == [])
         || (f.ops == FileOps && 0 <= f.inode < |img.inodes| && SoundInode(img, f.inode) && c == File(img, f.inode)))
  }

  /** Table `fds` is `start` but for the position of `fd`, which streams `c` and is at `pos`. */
  ghost predicate Ready(img: Image, start: seq<Fd>, fds: seq<Fd>, fd: nat, c: seq<byte>, pos: nat) {
    && WellFormed(img) && TableOk(img, fds) && 2 <= fd < PCB_LENGTH == |start|
    && Streaming(img, fds[fd], c, pos)
    && fds == start[fd := start[fd].(position := pos)]
  }

  /** A read on a streaming descriptor delivers the next bytes of the content. */
  lemma {:induction false} ReadStreams(img: Image, start: seq<Fd>, fds: seq<Fd>, fd: nat, c: seq<byte>, pos: nat,
                                       n: nat)
    requires Ready(img, start, fds, fd, c, pos)
    ensures var cnt := Min(n, |c| - pos);
      && ReadStep(img, fds, fd, n).1 == Ret(cnt)
      && Ready(img, start, ReadStep(img, fds, fd, n).0, fd, c, pos + cnt)
      && Stored(img, fds, fd, n) == c[pos..pos + cnt]
  {
    StepKeepsTable(img, fds, Read(fd, n));
    if fds[fd].ops == FileOps {
      SoundFileRead(img, fds[fd], n);
    }
    assert ReadStep(img, fds, fd, n).0 == start[fd := start[fd].(position := pos + Min(n, |c| - pos))];
  }

  /** Between two rounds: an unfinished line of `last` bytes, and behind it and the next of `left` bytes
      newlines only as `stale` says. */
  ghost predicate Carrying(data: array<byte>, last: nat, left: nat, stale: Stale)
    reads data
  {
    && data.Length == BUFSIZE + 1 && last < BUFSIZE
    && (forall k :: 0 <= k < last ==> data[k] != NEWLINE)
    && (last + left >= BUFSIZE ==> (data[BUFSIZE] == NEWLINE <==> stale.full))
    && (left != 0 && last + left < BUFSIZE ==> (data[last + left] == NEWLINE <==> stale.short))
  }

  /** `read` on a streaming descriptor. */
  method ReadStream(pcb: Pcb, img: Image, fd: nat, data: array<byte>, base: nat, n: nat,
                    ghost start: seq<Fd>, ghost c: seq<byte>, ghost pos: nat)
    returns (cnt: nat)
    requires Ready(img, start, pcb.fds, fd, c, pos) && base + n <= data.Length
    modifies pcb, data
    ensures cnt == Min(n, |c| - pos) && Ready(img, start, pcb.fds, fd, c, pos + cnt)
    ensures data[..] == Splice(old(data[..]), base, c[pos..pos + cnt])
  {
    ReadStreams(img, start, pcb.fds, fd, c, pos, n);
    var a := pcb.SysRead(img, fd, data, base, n);
    cnt := a.value;
  }

  /** One `read` into the free part of the buffer. */
  method Fill(pcb: Pcb, img: Image, fd: nat, data: array<byte>, last: nat,
              ghost start: seq<Fd>, ghost c: seq<byte>, ghost pos: nat)
    returns (cnt: nat)
    requires Ready(img, start, pcb.fds, fd, c, pos) && data.Length == BUFSIZE + 1 && last < BUFSIZE
    modifies pcb, data
    ensures cnt == Min(BUFSIZE - last, |c| - pos) && Ready(img, start, pcb.fds, fd, c, pos + cnt)
    ensures data[..last + cnt] == old(data[..last]) + c[pos..][..cnt]
    ensures forall k :: last + cnt <= k < data.Length ==> data[k] == old(data[k])
  {
    ghost var was := data[..];
    assert data[..last] == was[..last];
    cnt := ReadStream(pcb, img, fd, data, last, BUFSIZE - last, start, c, pos);
    ghost var now := data[..];
    AfterFill(was, now, last, c, pos, cnt);
    assert data[..last + cnt] == now[..last + cnt];
  }

  lemma {:induction false} AfterFill(was: seq<byte>, now: seq<byte>, last: nat, c: seq<byte>, pos: nat, cnt: nat)
    requires |was| == |now| == BUFSIZE + 1 && pos + cnt <= |c| && last + cnt <= BUFSIZE
    requires now == Splice(was, last, c[pos..pos + cnt])
    ensures now[..last + cnt] == was[..last] + c[pos..][..cnt]
    ensures forall k :: last + cnt <= k < |now| ==> now[k] == was[k]
  {
    assert c[pos..][..cnt] == c[pos..pos + cnt];
  }

  /** The output still owed when `carry` is in the buffer and `rest` is to be read. */
  type Debt = (seq<byte>, seq<byte>, Stale) -> seq<byte>

  ghost function Owed(fname: seq<byte>, s: seq<byte>): Debt {
    (carry: seq<byte>, rest: seq<byte>, stale: Stale) =>
      if |carry| < BUFSIZE then Output(fname, s, Searched(carry, rest, stale)) else []
  }

  /** What one round contributes to the debt, and what it leaves owed. */
  ghost predicate RoundLaw(owe: Debt, fname: seq<byte>, s: seq<byte>, carry: seq<byte>, rest: seq<byte>, stale: Stale)
    requires |carry| < BUFSIZE
  {
    var n := Room(carry, rest);
    var w := carry + rest[..n];
    var carries := rest != [] && Carries(w, stale);
    owe(carry, rest, stale) == Output(fname, s, Finished(w) + if carries then [] else LastPiece(w)) +
      if rest == [] then [] else owe(if carries then CarriedOver(w) else [], rest[n..], StaleAfter(w, stale))
  }

  ghost predicate RoundLaws(owe: Debt, fname: seq<byte>, s: seq<byte>) {
    forall carry, rest, stale :: |carry| < BUFSIZE && Free(carry, NEWLINE) ==>
      RoundLaw(owe, fname, s, carry, rest, stale)
  }

  lemma {:induction false} OwedLaws(fname: seq<byte>, s: seq<byte>)
    ensures RoundLaws(Owed(fname, s), fname, s)
  {
    forall carry, rest, stale | |carry| < BUFSIZE && Free(carry, NEWLINE)
      ensures RoundLaw(Owed(fname, s), fname, s, carry, rest, stale)
    {
      OwedLaw(fname, s, carry, rest, stale);
    }
  }

  lemma {:induction false} OwedOn(fname: seq<byte>, s: seq<byte>, carry: seq<byte>, rest: seq<byte>, stale: Stale)
    requires |carry| < BUFSIZE
    ensures Owed(fname, s)(carry, rest, stale) == Output(fname, s, Searched(carry, rest, stale))
  {
  }

  lemma {:induction false} OwedLaw(fname: seq<byte>, s: seq<byte>, carry: seq<byte>, rest: seq<byte>, stale: Stale)
    requires |carry| < BUFSIZE && Free(carry, NEWLINE)
    ensures RoundLaw(Owed(fname, s), fname, s, carry, rest, stale)
  {
    var n := Room(carry, rest);
    var w := carry + rest[..n];
    OwedOn(fname, s, carry, rest, stale);
    if rest == [] {
      assert w == carry;
      IndexOfIs(w, NEWLINE, |w|);
      OutputOne(fname, s, carry);
      assert Finished(w) + LastPiece(w) == if carry == [] then [] else [carry];
    } else {
      var next := if Carries(w, stale) then CarriedOver(w) else [];
      OwedOn(fname, s, next, rest[n..], StaleAfter(w, stale));
      assert Finished(w) + [] == Finished(w);
      OutputAppend(fname, s, Finished(w) + if Carries(w, stale) then [] else LastPiece(w),
                   Searched(next, rest[n..], StaleAfter(w, stale)));
    }
  }

  lemma {:induction false} RoundOwes(owe: Debt, fname: seq<byte>, s: seq<byte>, carry: seq<byte>, rest: seq<byte>,
                                     stale: Stale, w: seq<byte>, n: nat, report: seq<byte>, next: seq<byte>)
    requires RoundLaws(owe, fname, s) && |carry| < BUFSIZE && Free(carry, NEWLINE)
    requires n == Room(carry, rest) && w == carry + rest[..n]
    requires var carries := n != 0 && Carries(w, stale);
      && report == Output(fname, s, Finished(w) + if carries then [] else LastPiece(w))
      && next == if carries then CarriedOver(w) else []
    ensures n == 0 ==> owe(carry, rest, stale) == report
    ensures n != 0 ==> owe(carry, rest, stale) == report + owe(next, rest[n..], StaleAfter(w, stale))
  {
    assert RoundLaw(owe, fname, s, carry, rest, stale);
  }

  /** The buffer loop after a read, for a buffer that held `stale` newlines before it. */
  method ScanRead(data: array<byte>, filled: nat, cnt: nat, s: seq<byte>, fname: seq<byte>,
                  ghost carry: seq<byte>, ghost rest: seq<byte>, ghost stale: Stale, ghost owe: Debt)
    returns (report: seq<byte>, last: nat, ghost stale': Stale)
    requires data.Length == BUFSIZE + 1 && filled <= BUFSIZE && NulFree(s) && RoundLaws(owe, fname, s)
    requires |carry| < BUFSIZE && Free(carry, NEWLINE)
    requires cnt == Room(carry, rest) && data[..filled] == carry + rest[..cnt]
    requires cnt != 0 ==> (data[filled] == NEWLINE <==> if filled == BUFSIZE then stale.full else stale.short)
    modifies data
    ensures data[BUFSIZE] == NEWLINE ==> old(data[BUFSIZE]) == NEWLINE
    ensures cnt == 0 ==> owe(carry, rest, stale) == report
    ensures cnt != 0 ==>
      && Carrying(data, last, |rest| - cnt, stale')
      && owe(carry, rest, stale) == report + owe(data[..last], rest[cnt..], stale')
  {
    ghost var w := data[..filled];
    assert filled == |carry| + cnt;
    report, last := ScanBuffer(data, filled, cnt, s, fname);
    stale' := StaleAfter(w, stale);
    RoundOwes(owe, fname, s, carry, rest, stale, w, cnt, report, data[..last]);
  }

  /** One pass of the outer loop: a read and the lines it completes. */
  method Round(pcb: Pcb, img: Image, fd: nat, data: array<byte>, last: nat, s: seq<byte>, fname: seq<byte>,
               ghost start: seq<Fd>, ghost c: seq<byte>, ghost pos: nat, ghost stale: Stale, ghost owe: Debt)
    returns (cnt: nat, report: seq<byte>, last': nat, ghost stale': Stale)
    requires Ready(img, start, pcb.fds, fd, c, pos) && NulFree(s) && Carrying(data, last, |c| - pos, stale)
    requires RoundLaws(owe, fname, s)
    modifies pcb, data
    ensures Ready(img, start, pcb.fds, fd, c, pos + cnt)
    ensures data[BUFSIZE] == NEWLINE ==> old(data[BUFSIZE]) == NEWLINE
    ensures cnt == 0 ==> pos == |c| && owe(old(data[..last]), c[pos..], stale) == report
    ensures cnt != 0 ==>
      && Carrying(data, last', |c| - (pos + cnt), stale')
      && owe(old(data[..last]), c[pos..], stale) == report + owe(data[..last'], c[pos + cnt..], stale')
  {
    ghost var carry := data[..last];
    cnt := Fill(pcb, img, fd, data, last, start, c, pos);
    report, last', stale' := ScanRead(data, last + cnt, cnt, s, fname, carry, c[pos..], stale, owe);
    SliceRest(c, pos, cnt);
  }

  lemma {:induction false} SliceRest(c: seq<byte>, pos: nat, n: nat)
    requires pos + n <= |c|
    ensures c[pos..][n..] == c[pos + n..]
  {
  }

  /** The outer loop, from a freshly opened descriptor to the end of its content. */
  method GrepStream(pcb: Pcb, img: Image, fd: nat, data: array<byte>, s: seq<byte>, fname: seq<byte>,
                    ghost c: seq<byte>, ghost stale: Stale, ghost owe: Debt)
    returns (out: seq<byte>)
    requires Ready(img, pcb.fds, pcb.fds, fd, c, 0) && Carrying(data, 0, |c|, stale) && NulFree(s)
    requires RoundLaws(owe, fname, s)
    modifies pcb, data
    ensures Ready(img, old(pcb.fds), pcb.fds, fd, c, |c|)
    ensures data[BUFSIZE] == NEWLINE ==> old(data[BUFSIZE]) == NEWLINE
    ensures out == owe([], c, stale)
  {
    ghost var pos, now := 0, stale;
    var last := 0;
    out := [];
    assert data[..0] == [] && c[0..] == c;
    while true
      invariant Ready(img, old(pcb.fds), pcb.fds, fd, c, pos)
      invariant 0 <= last < BUFSIZE && Carrying(data, last, |c| - pos, now)
      invariant data[BUFSIZE] == NEWLINE ==> old(data[BUFSIZE]) == NEWLINE
      invariant out + owe(data[..last], c[pos..], now) == owe([], c, stale)
      decreases |c| - pos
    {
      ghost var owed := owe(data[..last], c[pos..], now);
      var cnt, report;
      cnt, report, last, now := Round(pcb, img, fd, data, last, s, fname, old(pcb.fds), c, pos, now, owe);
      if cnt == 0 {
        out := out + report;
        break;
      }
      pos := pos + cnt;
      Associative(out, report, owe(data[..last], c[pos..], now));
      out := out + report;
    }
  }

  /** The newlines of an arbitrary buffer that matter to a content of `n` bytes. */
  function StaleIn(data: seq<byte>, n: nat): Stale
    requires |data| == BUFSIZE + 1
  {
    Stale(data[BUFSIZE] == NEWLINE, n < BUFSIZE && data[n] == NEWLINE)
  }

  /** `do_one_file`, on any content of the file and of the uninitialised buffer. The error returns
      after a failed read or close are not reached: `StreamsDoNotInterfere`. */
  method DoOneFile(pcb: Pcb, img: Image, s: seq<byte>, fname: seq<byte>, data: array<byte>)
    returns (ret: int, out: seq<byte>)
    requires WellFormed(img) && TableOk(img, pcb.fds) && NulFree(s) && NulFree(fname)
    requires Searchable(img, fname) && data.Length == BUFSIZE + 1
    modifies pcb, data
    ensures TableOk(img, pcb.fds)
    ensures data[BUFSIZE] == NEWLINE ==> old(data[BUFSIZE]) == NEWLINE
    ensures var (g, a) := OpenStep(img, old(pcb.fds), fname);
      if a == Ret(-1) then ret == -1 && out == Ascii("file open failed\n") && pcb.fds == old(pcb.fds)
      else
        && ret == 0 && Lookup(img, fname) < img.dirCount
        && out == Output(fname, s, Searched([], Content(img, fname), StaleIn(old(data[..]), |Content(img, fname)|)))
        && a.Ret? && 2 <= a.value < PCB_LENGTH && pcb.fds[a.value].flags == 0
        && forall j :: 0 <= j < PCB_LENGTH && j != a.value ==> pcb.fds[j] == old(pcb.fds)[j]
  {
    OpenStreams(img, pcb.fds, fname);
    var fd := pcb.SysOpen(img, fname);
    if fd == -1 {
      return -1, Ascii("file open failed\n");
    }
    ghost var c := Content(img, fname);
    OwedLaws(fname, s);
    OwedOn(fname, s, [], c, StaleIn(data[..], |c|));
    out := GrepStream(pcb, img, fd, data, s, fname, c, StaleIn(data[..], |c|), Owed(fname, s));
    StepKeepsTable(img, pcb.fds, Close(fd));
    ret := pcb.SysClose(fd);
  }

  /** Opening a searchable file leaves a descriptor at the start of its content. */
  lemma {:induction false} OpenStreams(img: Image, fds: seq<Fd>, fname: seq<byte>)
    requires WellFormed(img) && TableOk(img, fds) && Searchable(img, fname)
    ensures var (g, a) := OpenStep(img, fds, fname);
      && TableOk(img, g)
      && (a != Ret(-1) ==>
            && a.Ret? && 2 <= a.value < PCB_LENGTH && Lookup(img, fname) < img.dirCount
            && Ready(img, g, g, a.value, Content(img, fname), 0)
            && forall j :: 0 <= j < PCB_LENGTH && j != a.value ==> g[j] == fds[j])
  {
    StepKeepsTable(img, fds, Open(fname));
    OpenTakesLowest(img, fds, fname);
    var (g, a) := OpenStep(img, fds, fname);
    if a != Ret(-1) {
      var d := img.entries[Lookup(img, fname)];
      assert d.filetype == FILE_TYPE ==> SoundInode(img, d.inode);
    }
  }
}
