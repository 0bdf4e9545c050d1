/**
 When streaming grep is whole-file grep, and the program's walk over the directory
 (syscalls/ece391grep.c).
 */
module GrepProgram {
  import opened Bytes
  import opened FileSystem
  import opened Directory
  import opened Descriptors
  import opened Grep
  import opened GrepExact
  import opened GrepReports

  ghost predicate AtMost(lines: seq<seq<byte>>, n: nat) {
    forall i :: 0 <= i < |lines| ==> |lines[i]| <= n
  }

  ghost predicate ShortLines(f: seq<byte>) {
    AtMost(Lines(f), BUFSIZE)
  }

  // ----- cutting the first piece off -----

  lemma {:induction false} CutAtNewline(fname: seq<byte>, s: seq<byte>, line: seq<byte>, more: seq<byte>)
    requires Free(line, NEWLINE) && |line| < BUFSIZE
    ensures StreamReport(fname, s, line + [NEWLINE] + more) == LineReport(fname, s, line) + StreamReport(fname, s, more)
  {
    var f := line + [NEWLINE] + more;
    assert f == line + ([NEWLINE] + more);
    FirstNewlineAfter(line, [NEWLINE] + more);
    assert f[..|line|] == line && f[|line| + 1..] == more;
    ReportCons(fname, s, line, Pieces(more));
  }

  lemma {:induction false} CutFull(fname: seq<byte>, s: seq<byte>, line: seq<byte>, more: seq<byte>)
    requires Free(line, NEWLINE) && |line| == BUFSIZE
    ensures StreamReport(fname, s, line + more) == LineReport(fname, s, line) + StreamReport(fname, s, more)
  {
    var f := line + more;
    FirstNewlineAfter(line, more);
    assert f[..BUFSIZE] == line && f[BUFSIZE..] == more;
    ReportCons(fname, s, line, Pieces(more));
  }

  lemma {:induction false} CutLast(fname: seq<byte>, s: seq<byte>, line: seq<byte>)
    requires Free(line, NEWLINE) && |line| < BUFSIZE
    ensures StreamReport(fname, s, line) == LineReport(fname, s, line)
    ensures StreamReport(fname, s, []) == []
  {
    assert line[..|line|] == line;
    IndexOfIs(line, NEWLINE, |line|);
    ReportOne(fname, s, line);
    ReportOne(fname, s, []);
  }

  // ----- streaming grep and whole-file grep -----

  /** The lines with a newline between neighbours. */
  function Rejoin(lines: seq<seq<byte>>): seq<byte> {
    if lines == [] then [] else if |lines| == 1 then lines[0] else lines[0] + [NEWLINE] + Rejoin(lines[1..])
  }

  /** The lines of a file are free of newlines, and with newlines between them they are the file. */
  lemma {:induction false} LinesRejoin(f: seq<byte>)
    ensures Lines(f) != [] && Rejoin(Lines(f)) == f
    ensures forall i :: 0 <= i < |Lines(f)| ==> Free(Lines(f)[i], NEWLINE)
    decreases |f|
  {
    var k := IndexOf(f, NEWLINE);
    if k < |f| {
      LinesCut(f);
      LinesRejoin(f[k + 1..]);
      RejoinCons(f[..k], Lines(f[k + 1..]));
      Restored(f, k);
    }
  }

  lemma {:induction false} RejoinCons(line: seq<byte>, lines: seq<seq<byte>>)
    requires lines != []
    ensures Rejoin([line] + lines) == line + [NEWLINE] + Rejoin(lines)
  {
    assert ([line] + lines)[1..] == lines;
  }

  lemma {:induction false} WholeCut(fname: seq<byte>, s: seq<byte>, f: seq<byte>)
    requires IndexOf(f, NEWLINE) < |f|
    ensures var k := IndexOf(f, NEWLINE);
      WholeReport(fname, s, f) == LineReport(fname, s, f[..k]) + WholeReport(fname, s, f[k + 1..])
  {
    LinesCut(f);
    ReportCons(fname, s, f[..IndexOf(f, NEWLINE)], Lines(f[IndexOf(f, NEWLINE) + 1..]));
  }

  lemma {:induction false} LinesCut(f: seq<byte>)
    requires IndexOf(f, NEWLINE) < |f|
    ensures Lines(f) == [f[..IndexOf(f, NEWLINE)]] + Lines(f[IndexOf(f, NEWLINE) + 1..])
  {
  }

  /** A line that just fills the buffer is cut before its newline; the empty piece that
      follows reports nothing. */
  lemma {:induction false} CutFullLine(fname: seq<byte>, s: seq<byte>, line: seq<byte>, more: seq<byte>)
    requires Free(line, NEWLINE) && |line| == BUFSIZE
    ensures StreamReport(fname, s, line + [NEWLINE] + more) == LineReport(fname, s, line) + StreamReport(fname, s, more)
  {
    var tail := [] + [NEWLINE] + more;
    assert line + [NEWLINE] + more == line + tail;
    CutFull(fname, s, line, tail);
    CutAtNewline(fname, s, [], more);
    ReportOne(fname, s, []);
    EmptyConcat(StreamReport(fname, s, more));
  }

  lemma {:induction false} Restored(f: seq<byte>, k: nat)
    requires k < |f| && f[k] == NEWLINE
    ensures f == f[..k] + [NEWLINE] + f[k + 1..]
  {
  }

  /** Cutting the first line off a text whose first line is short. */
  lemma {:induction false} CutShort(fname: seq<byte>, s: seq<byte>, f: seq<byte>)
    requires IndexOf(f, NEWLINE) < |f| && IndexOf(f, NEWLINE) <= BUFSIZE
    ensures var k := IndexOf(f, NEWLINE);
      StreamReport(fname, s, f) == LineReport(fname, s, f[..k]) + StreamReport(fname, s, f[k + 1..])
  {
    var k := IndexOf(f, NEWLINE);
    var line, more := f[..k], f[k + 1..];
    Restored(f, k);
    if k < BUFSIZE {
      CutAtNewline(fname, s, line, more);
    } else {
      CutFullLine(fname, s, line, more);
    }
  }

  lemma {:induction false} AtMostCons(line: seq<byte>, lines: seq<seq<byte>>, n: nat)
    ensures AtMost([line] + lines, n) <==> |line| <= n && AtMost(lines, n)
  {
    var all := [line] + lines;
    assert all[0] == line;
    assert forall i :: 0 <= i < |lines| ==> all[i + 1] == lines[i];
  }

  lemma {:induction false} ShortRest(f: seq<byte>)
    requires IndexOf(f, NEWLINE) < |f|
    ensures ShortLines(f) <==> IndexOf(f, NEWLINE) <= BUFSIZE && ShortLines(f[IndexOf(f, NEWLINE) + 1..])
  {
    var k := IndexOf(f, NEWLINE);
    LinesCut(f);
    AtMostCons(f[..k], Lines(f[k + 1..]), BUFSIZE);
  }

  lemma {:induction false} ShortLinesSame(fname: seq<byte>, s: seq<byte>, f: seq<byte>)
    requires ShortLines(f)
    ensures StreamReport(fname, s, f) == WholeReport(fname, s, f)
    decreases |f|
  {
    var k := IndexOf(f, NEWLINE);
    if k < |f| {
      ShortRest(f);
      CutShort(fname, s, f);
      WholeCut(fname, s, f);
      ShortLinesSame(fname, s, f[k + 1..]);
    } else {
      assert Lines(f) == [f] && Lines(f)[0] == f;
      ReportOne(fname, s, f);
      LastPiece(fname, s, f);
    }
  }

  lemma {:induction false} LastPiece(fname: seq<byte>, s: seq<byte>, f: seq<byte>)
    requires Free(f, NEWLINE) && |f| <= BUFSIZE
    ensures StreamReport(fname, s, f) == LineReport(fname, s, f)
  {
    if |f| == BUFSIZE {
      EmptyConcat(f);
      CutFull(fname, s, f, []);
      CutLast(fname, s, []);
    } else {
      CutLast(fname, s, f);
    }
  }

  /** A text with a longer line has a pattern on which the two reports differ. */
  lemma {:induction false} LongLineDiffers(fname: seq<byte>, f: seq<byte>) returns (s: seq<byte>)
    requires !ShortLines(f)
    ensures |s| == 1 && s[0] in f
    ensures StreamReport(fname, s, f) != WholeReport(fname, s, f)
    decreases |f|
  {
    var k := IndexOf(f, NEWLINE);
    if k < |f| && k <= BUFSIZE {
      ShortRest(f);
      s := LongLineDiffers(fname, f[k + 1..]);
      CutShort(fname, s, f);
      WholeCut(fname, s, f);
      var head := LineReport(fname, s, f[..k]);
      var a, b := StreamReport(fname, s, f[k + 1..]), WholeReport(fname, s, f[k + 1..]);
      assert (head + a)[|head|..] == a && (head + b)[|head|..] == b;
    } else {
      s := [f[0]];
      assert Lines(f)[0] == f[..k];
      if k == |f| {
        assert Lines(f) == [f] && f[..k] == f;
      }
      LongFirstLine(fname, s, f);
    }
  }

  lemma {:induction false} LongFirstLine(fname: seq<byte>, s: seq<byte>, f: seq<byte>)
    requires BUFSIZE < IndexOf(f, NEWLINE) && s == [f[0]]
    ensures StreamReport(fname, s, f) != WholeReport(fname, s, f)
  {
    var k := IndexOf(f, NEWLINE);
    var line, piece := f[..k], f[..BUFSIZE];
    assert OccursAt(s, line, 0) && OccursAt(s, piece, 0);
    var head := fname + [COLON];
    assert f == piece + f[BUFSIZE..];
    assert forall i :: 0 <= i < BUFSIZE ==> piece[i] == line[i];
    CutFull(fname, s, piece, f[BUFSIZE..]);
    var a := StreamReport(fname, s, f);
    var b := WholeReport(fname, s, f);
    assert a[|head| + BUFSIZE] == NEWLINE by {
      assert a == head + piece + [NEWLINE] + StreamReport(fname, s, f[BUFSIZE..]);
    }
    WholeStarts(fname, s, f);
    assert b[|head| + BUFSIZE] == line[BUFSIZE];
  }

  lemma {:induction false} WholeStarts(fname: seq<byte>, s: seq<byte>, f: seq<byte>)
    requires Matches(s, f[..IndexOf(f, NEWLINE)])
    ensures fname + [COLON] + f[..IndexOf(f, NEWLINE)] <= WholeReport(fname, s, f)
  {
    var k := IndexOf(f, NEWLINE);
    if k < |f| {
      ReportCons(fname, s, f[..k], Lines(f[k + 1..]));
    } else {
      assert f[..k] == f;
      ReportOne(fname, s, f);
    }
  }

  /** Streaming grep is whole-file grep, for every name and pattern, if and only if no line is
      longer than the 1024-byte buffer. */
  lemma {:induction false} StreamingIsExact(f: seq<byte>)
    ensures (forall fname, s :: StreamReport(fname, s, f) == WholeReport(fname, s, f)) <==> ShortLines(f)
  {
    if ShortLines(f) {
      forall fname, s
        ensures StreamReport(fname, s, f) == WholeReport(fname, s, f)
      {
        ShortLinesSame(fname, s, f);
      }
    } else {
      var s := LongLineDiffers([], f);
    }
  }

  // ----- the program -----

  const HERE: seq<byte> := [DOT]

  /** "." is the directory, if there is one, and every entry without a leading dot is a file or the clock. */
  ghost predicate FlatDirectory(img: Image)
    requires WellFormed(img)
  {
    && (Lookup(img, HERE) < img.dirCount ==> img.entries[Lookup(img, HERE)].filetype == DIR_TYPE)
    && forall i :: 0 <= i < img.dirCount && NameOf(img.entries[i]) != [] && NameOf(img.entries[i])[0] != DOT ==>
         Searchable(img, NameOf(img.entries[i]))
  }

  /** What grep prints for entry `i`: nothing for a leading dot, otherwise the output for its file in a buffer
      that holds any newlines, one in its last byte only if `full`. */
  ghost predicate EntryReport(img: Image, s: seq<byte>, i: nat, full: bool, r: seq<byte>)
    requires WellFormed(img) && i < img.dirCount
  {
    var name := NameOf(img.entries[i]);
    && name != []
    && if name[0] == DOT then r == []
       else
         && Lookup(img, name) < img.dirCount
         && exists stale: Stale ::
              (stale.full ==> full) && r == Output(name, s, Searched([], Content(img, name), stale))
  }

  /** A file without NULs is reported piece by piece, whatever else is in the directory. */
  lemma {:induction false} EntryReportIs(img: Image, s: seq<byte>, i: nat, r: seq<byte>)
    requires WellFormed(img) && i < img.dirCount && Pattern(s) && EntryReport(img, s, i, false, r)
    ensures var name := NameOf(img.entries[i]);
      name[0] != DOT && NulFree(Content(img, name)) ==>
        && r == StreamReport(name, s, Content(img, name))
        && (ShortLines(Content(img, name)) ==> r == WholeReport(name, s, Content(img, name)))
  {
    var name := NameOf(img.entries[i]);
    if name[0] != DOT && NulFree(Content(img, name)) {
      var c := Content(img, name);
      var stale: Stale :| !stale.full && r == Output(name, s, Searched([], c, stale));
      NulFreeRight(name, s, c, stale);
      if ShortLines(c) {
        ShortLinesSame(name, s, c);
      }
    }
  }

  /** The directory is open on descriptor 2 at entry `i`, and every other descriptor is free. */
  ghost predicate Walking(img: Image, fds: seq<Fd>, i: nat)
    requires Layout(img)
  {
    && TableOk(img, fds)
    && fds[2].flags == 1 && fds[2].ops == DirOps && fds[2].position == i
    && forall j :: 3 <= j < PCB_LENGTH ==> fds[j].flags == 0
  }

  /** One directory read of the walk. */
  method NextName(pcb: Pcb, img: Image, buf: array<byte>, ghost i: nat) returns (cnt: nat)
    requires WellFormed(img) && Walking(img, pcb.fds, i) && buf.Length == NAME_SIZE + 1
    modifies pcb, buf
    ensures Walking(img, pcb.fds, i + 1)
    ensures i >= img.dirCount ==> cnt == 0
    ensures i < img.dirCount ==> cnt == |NameOf(img.entries[i])| <= NAME_SIZE && buf[..cnt] == NameOf(img.entries[i])
  {
    StepKeepsTable(img, pcb.fds, Read(2, NAME_SIZE));
    ghost var stored := Stored(img, pcb.fds, 2, NAME_SIZE);
    var a := pcb.SysRead(img, 2, buf, 0, NAME_SIZE);
    cnt := a.value;
    if i < img.dirCount {
      PaddedName(NameOf(img.entries[i]));
      assert buf[..cnt] == stored[..cnt];
    }
  }

  /** Greps the file whose name the buffer holds, unless the name begins with a dot. */
  method GrepEntry(pcb: Pcb, img: Image, s: seq<byte>, buf: array<byte>, cnt: nat, data: array<byte>, ghost i: nat,
                   ghost full: bool)
    returns (ret: int, out: seq<byte>)
    requires WellFormed(img) && FlatDirectory(img) && Walking(img, pcb.fds, i + 1)
    requires NulFree(s) && buf != data && data.Length == BUFSIZE + 1 && (data[BUFSIZE] == NEWLINE ==> full)
    requires i < img.dirCount && 0 < cnt < buf.Length && buf[..cnt] == NameOf(img.entries[i])
    modifies pcb, buf, data
    ensures Walking(img, pcb.fds, i + 1) && (data[BUFSIZE] == NEWLINE ==> full)
    ensures ret == 0 && EntryReport(img, s, i, full, out)
  {
    ghost var name := NameOf(img.entries[i]);
    assert name[0] == buf[..cnt][0];
    if buf[0] == DOT {
      return 0, [];
    }
    buf[cnt] := NUL;
    assert buf[..cnt] == name;
    LookupFinds(img, name);
    ret, out := DoOneFile(pcb, img, s, buf[..cnt], data);
  }

  /** `main` of grep, in a program just started: `argument` is what `getargs` delivered, and the buffers are
      uninitialised. */
  method RunGrep(pcb: Pcb, img: Image, argument: Option<seq<byte>>, buf: array<byte>, data: array<byte>)
    returns (status: int, out: seq<byte>, ghost reports: seq<seq<byte>>)
    requires WellFormed(img) && FlatDirectory(img) && StartTable(pcb.fds)
    requires argument.Some? ==> NulFree(argument.value)
    requires buf.Length == NAME_SIZE + 1 && buf != data && data.Length == BUFSIZE + 1
    modifies pcb, buf, data
    ensures status == (if argument.None? then 3 else if EntryNamed(img, HERE).None? then 2 else 0)
    ensures status == 3 ==> out == Ascii("could not read argument\n")
    ensures status == 2 ==> out == Ascii("directory open failed\n")
    ensures status == 0 ==>
      && out == Concat(reports) && |reports| == Listed(img)
      && forall i :: 0 <= i < |reports| ==>
           EntryReport(img, argument.value, i, old(data[BUFSIZE]) == NEWLINE, reports[i])
  {
    reports := [];
    if argument.None? {
      return 3, Ascii("could not read argument\n"), [];
    }
    StartTableOk(img, pcb.fds);
    StepKeepsTable(img, pcb.fds, Open(HERE));
    var fd := pcb.SysOpen(img, HERE);
    if fd == -1 {
      return 2, Ascii("directory open failed\n"), [];
    }
    out, status, reports := Walk(pcb, img, argument.value, buf, data, data[BUFSIZE] == NEWLINE);
  }

  /** The loop over the directory, which is open. */
  method Walk(pcb: Pcb, img: Image, s: seq<byte>, buf: array<byte>, data: array<byte>, ghost full: bool)
    returns (out: seq<byte>, status: int, ghost reports: seq<seq<byte>>)
    requires WellFormed(img) && FlatDirectory(img) && Walking(img, pcb.fds, 0) && NulFree(s)
    requires buf.Length == NAME_SIZE + 1 && buf != data && data.Length == BUFSIZE + 1
    requires data[BUFSIZE] == NEWLINE ==> full
    modifies pcb, buf, data
    ensures status == 0 && out == Concat(reports) && |reports| == Listed(img)
    ensures forall i :: 0 <= i < |reports| ==> EntryReport(img, s, i, full, reports[i])
  {
    out, reports := [], [];
    ghost var i := 0;
    while true
      invariant i == |reports| <= img.dirCount && Walking(img, pcb.fds, i) && (data[BUFSIZE] == NEWLINE ==> full)
      invariant out == Concat(reports) && Listed(img) == Listed(img, i)
      invariant forall j :: 0 <= j < i ==> EntryReport(img, s, j, full, reports[j])
      decreases img.dirCount - i
    {
      var cnt := NextName(pcb, img, buf, i);
      if cnt == 0 {
        break;
      }
      var ret, report := GrepEntry(pcb, img, s, buf, cnt, data, i, full);
      ConcatSnoc(reports, report);
      reports := reports + [report];
      i := i + 1;
      out := out + report;
      if ret != 0 {
        return out, 3, reports;
      }
    }
    return out, 0, reports;
  }
}
