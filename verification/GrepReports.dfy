/**
 When what grep prints is the report on the file's pieces: exactly, for any file and any content of
 the uninitialised buffer (syscalls/ece391grep.c).
 */
module GrepReports {
  import opened Bytes
  import opened Grep
  import opened GrepExact

  /** A pattern as grep gets it: `getargs` does not deliver an empty one. */
  predicate Pattern(s: seq<byte>) {
    s != [] && NulFree(s)
  }

  /** Whatever the name and the pattern, grep prints the report on the pieces of the file. */
  ghost predicate Right(c: seq<byte>, stale: Stale) {
    forall fname, s :: NulFree(fname) && Pattern(s) ==>
      Output(fname, s, Searched([], c, stale)) == StreamReport(fname, s, c)
  }

  /** An empty pattern, were it given, would find exactly the lines with a NUL. */
  lemma {:induction false} EmptyPattern(fname: seq<byte>, a: seq<byte>, b: seq<byte>)
    requires NulFree(a)
    ensures LineOutput(fname, [], a) == [] && LineOutput(fname, [], a + [NUL] + b) == fname + [COLON] + a + [NEWLINE]
  {
    var line := a + [NUL] + b;
    assert line[|a|] == NUL && line[..|a|] == a && forall j :: 0 <= j < |a| ==> line[j] == a[j];
    IndexOfIs(line, NUL, |a|);
  }

  // ----- pieces that are printed as they are -----

  predicate AllNul(p: seq<byte>) {
    forall i :: 0 <= i < |p| ==> p[i] == NUL
  }

  /** Printed whole if at all: without a NUL, or nothing but NULs, which no pattern matches. */
  predicate Plain(p: seq<byte>) {
    NulFree(p) || AllNul(p)
  }

  ghost predicate PlainAll(pieces: seq<seq<byte>>) {
    forall i :: 0 <= i < |pieces| ==> Plain(pieces[i])
  }

  lemma {:induction false} PlainLine(fname: seq<byte>, s: seq<byte>, p: seq<byte>)
    requires Plain(p) && Pattern(s)
    ensures LineOutput(fname, s, p) == LineReport(fname, s, p)
  {
    if NulFree(p) {
      IndexOfIs(p, NUL, |p|);
      assert p[..|p|] == p;
    } else {
      forall k: nat
        ensures !OccursAt(s, p, k)
      {
        OccursFirst(s, p, k);
      }
    }
  }

  lemma {:induction false} OccursFirst(s: seq<byte>, p: seq<byte>, k: nat)
    requires s != []
    ensures OccursAt(s, p, k) ==> k < |p| && p[k] == s[0]
  {
    if OccursAt(s, p, k) {
      assert p[k..k + |s|][0] == p[k];
    }
  }

  lemma {:induction false} PlainOutput(fname: seq<byte>, s: seq<byte>, pieces: seq<seq<byte>>)
    requires PlainAll(pieces) && Pattern(s)
    ensures Output(fname, s, pieces) == ReportLines(fname, s, pieces)
  {
    if pieces != [] {
      PlainLine(fname, s, pieces[0]);
      PlainOutput(fname, s, pieces[1..]);
    }
  }

  lemma {:induction false} PlainAppend(a: seq<seq<byte>>, b: seq<seq<byte>>)
    ensures PlainAll(a + b) <==> PlainAll(a) && PlainAll(b)
  {
    var all := a + b;
    assert forall i :: 0 <= i < |a| ==> all[i] == a[i];
    assert forall i :: 0 <= i < |b| ==> all[|a| + i] == b[i];
  }

  lemma {:induction false} PlainSolid(pieces: seq<seq<byte>>)
    ensures PlainAll(Solid(pieces)) <==> PlainAll(pieces)
  {
    if pieces != [] {
      PlainSolid(pieces[1..]);
      PlainAppend(if pieces[0] == [] then [] else [pieces[0]], Solid(pieces[1..]));
      PlainAppend([pieces[0]], pieces[1..]);
      assert pieces == [pieces[0]] + pieces[1..];
      assert Plain([]);
    }
  }

  /** The same pieces, all plain, make the same report. */
  lemma {:induction false} SameRight(fname: seq<byte>, s: seq<byte>, c: seq<byte>, stale: Stale)
    requires Same([], c, stale) && PlainAll(Pieces(c)) && Pattern(s)
    ensures Output(fname, s, Searched([], c, stale)) == StreamReport(fname, s, c)
  {
    EmptyConcat(c);
    OutputSolid(fname, s, Searched([], c, stale));
    OutputSolid(fname, s, Pieces(c));
    PlainOutput(fname, s, Pieces(c));
  }

  // ----- files without NULs -----

  lemma {:induction false} CarriedWhole(w: seq<byte>)
    requires forall j :: LineStart(w) <= j < |w| ==> w[j] != NUL
    ensures CarriedOver(w) == w[LineStart(w)..]
  {
    IndexOfIs(w, NUL, |w|, LineStart(w));
  }

  lemma {:induction false} NulFreeUndisturbed(carry: seq<byte>, rest: seq<byte>, stale: Stale)
    requires |carry| < BUFSIZE && NulFree(carry) && NulFree(rest) && !stale.full
    ensures Undisturbed(carry, rest, stale)
    decreases |rest|
  {
    if rest != [] {
      var n := Room(carry, rest);
      var w := carry + rest[..n];
      CarriedWhole(w);
      NulFreeUndisturbed(if Carries(w, stale) then w[LineStart(w)..] else [], rest[n..], StaleAfter(w, stale));
    }
  }

  lemma {:induction false} NulFreePieces(f: seq<byte>)
    requires NulFree(f)
    ensures PlainAll(Pieces(f))
    decreases |f|
  {
    var k := IndexOf(f, NEWLINE);
    if k < BUFSIZE && k < |f| {
      NulFreePieces(f[k + 1..]);
      assert NulFree(f[..k]);
      PlainAppend([f[..k]], Pieces(f[k + 1..]));
    } else if BUFSIZE <= |f| {
      NulFreePieces(f[BUFSIZE..]);
      assert NulFree(f[..BUFSIZE]);
      PlainAppend([f[..BUFSIZE]], Pieces(f[BUFSIZE..]));
    }
  }

  /** A file without NULs, read into a buffer whose last byte was no newline, is reported right. */
  lemma {:induction false} NulFreeRight(fname: seq<byte>, s: seq<byte>, c: seq<byte>, stale: Stale)
    requires NulFree(c) && !stale.full && Pattern(s)
    ensures Output(fname, s, Searched([], c, stale)) == StreamReport(fname, s, c)
  {
    NulFreeUndisturbed([], c, stale);
    SearchedIff([], c, stale);
    NulFreePieces(c);
    SameRight(fname, s, c, stale);
  }

  // ----- a newline left in the last byte of the buffer -----

  /** The first 1024-byte chunk that does not end in a newline is full, contains a newline, and is followed
      by a byte that is not a newline. */
  predicate SplitsLine(c: seq<byte>)
    decreases |c|
  {
    |c| >= BUFSIZE &&
    if c[BUFSIZE - 1] == NEWLINE then SplitsLine(c[BUFSIZE..])
    else NEWLINE in c[..BUFSIZE] && |c| > BUFSIZE && c[BUFSIZE] != NEWLINE
  }

  lemma {:induction false} LineStartAtEnd(w: seq<byte>)
    requires w != []
    ensures LineStart(w) == |w| <==> w[|w| - 1] == NEWLINE
    ensures LineStart(w) > 0 <==> NEWLINE in w
  {
  }

  /** One round from an empty buffer. */
  lemma {:induction false} UndisturbedRound(c: seq<byte>, stale: Stale)
    requires c != []
    ensures var n := Room([], c);
      var w, later := c[..n], c[n..];
      var u, after := LineStart(w), StaleAfter(w, stale);
      Undisturbed([], c, stale) <==>
        if Carries(w, stale) then CarriedOver(w) == w[u..] && Undisturbed(w[u..], later, after)
        else (0 < u < |w| && later != [] ==> later[0] == NEWLINE) && Undisturbed([], later, after)
  {
    EmptyConcat(c[..Room([], c)]);
  }

  lemma {:induction false} StaleUndisturbedIff(c: seq<byte>, short: bool)
    requires NulFree(c)
    ensures Undisturbed([], c, Stale(true, short)) <==> !SplitsLine(c)
    decreases |c|
  {
    if c != [] {
      var n, stale := Room([], c), Stale(true, short);
      var w, later := c[..n], c[n..];
      UndisturbedRound(c, stale);
      LineStartAtEnd(w);
      if n == BUFSIZE && w[n - 1] == NEWLINE {
        StaleUndisturbedIff(later, false);
      } else {
        CarriedWhole(w);
        NulFreeUndisturbed([], later, StaleAfter(w, stale));
        if Carries(w, stale) {
          NulFreeUndisturbed(w[LineStart(w)..], later, StaleAfter(w, stale));
        }
      }
    }
  }

  // ----- how a difference shows -----

  /** What comes after pieces that are printed as they are decides. */
  lemma {:induction false} TailDiffers(s: seq<byte>, f: seq<seq<byte>>, a: seq<seq<byte>>, b: seq<seq<byte>>)
    requires PlainAll(f) && Pattern(s) && Output([], s, a) != ReportLines([], s, b)
    ensures Output([], s, f + a) != ReportLines([], s, f + b)
  {
    OutputAppend([], s, f, a);
    ReportAppend([], s, f, b);
    PlainOutput([], s, f);
    Cancel(Output([], s, f), Output([], s, a), ReportLines([], s, b));
  }

  /** A piece that ends too early prints a newline where the longer one has a character. */
  lemma {:induction false} ShorterDiffers(t: seq<byte>, a: seq<seq<byte>>, b: seq<seq<byte>>)
    requires t != [] && NulFree(t) && b != [] && t < b[0] && Free(b[0], NEWLINE)
    ensures Output([], [t[0]], [t] + a) != ReportLines([], [t[0]], b)
  {
    var s := [t[0]];
    MatchesByte(t, 0);
    MatchesByte(b[0], 0);
    OutputCons([], s, t, a);
    PlainLine([], s, t);
    var x, y := Output([], s, [t] + a), ReportLines([], s, b);
    assert x == [] + [COLON] + t + [NEWLINE] + Output([], s, a);
    assert y == [] + [COLON] + b[0] + [NEWLINE] + ReportLines([], s, b[1..]);
    assert x[1 + |t|] == NEWLINE && y[1 + |t|] == b[0][|t|];
  }

  lemma {:induction false} MatchesByte(p: seq<byte>, i: nat)
    requires i < |p|
    ensures Matches([p[i]], p)
  {
    assert OccursAt([p[i]], p, i);
  }

  /** With a newline in the last byte of the buffer a line is printed in two parts. */
  lemma {:induction false} SplitDiffers(c: seq<byte>, short: bool) returns (s: seq<byte>)
    requires NulFree(c) && SplitsLine(c)
    ensures Pattern(s) && Output([], s, Searched([], c, Stale(true, short))) != StreamReport([], s, c)
    decreases |c|
  {
    var w, later := c[..BUFSIZE], c[BUFSIZE..];
    var stale := Stale(true, short);
    var a := Searched([], later, StaleAfter(w, stale));
    SplitRound(c, stale);
    if LineStart(w) == |w| {
      s := SplitDiffers(later, false);
      SplitLater(s, w, later, a);
    } else {
      s := [w[LineStart(w)]];
      SplitHere(w, later, a);
    }
  }

  lemma {:induction false} SplitRound(c: seq<byte>, stale: Stale)
    requires NulFree(c) && SplitsLine(c) && stale.full
    ensures var w, later := c[..BUFSIZE], c[BUFSIZE..];
      && PlainAll(Finished(w)) && NulFree(w) && NulFree(later)
      && Searched([], c, stale) == Finished(w) + LastPiece(w) + Searched([], later, StaleAfter(w, stale))
      && Pieces(c) == Finished(w) + Pieces(w[LineStart(w)..] + later)
      && if LineStart(w) == |w| then
           SplitsLine(later) && StaleAfter(w, stale) == Stale(true, false) && Pieces(c) == Finished(w) + Pieces(later)
         else 0 < LineStart(w) && later != [] && later[0] != NEWLINE
  {
    var w := c[..BUFSIZE];
    LineStartAtEnd(w);
    SearchedRound(c, stale);
    PiecesRound(c);
  }

  lemma {:induction false} PiecesRound(c: seq<byte>)
    requires |c| >= BUFSIZE && NulFree(c)
    ensures var w, later := c[..BUFSIZE], c[BUFSIZE..];
      && PlainAll(Finished(w)) && Pieces(c) == Finished(w) + Pieces(w[LineStart(w)..] + later)
      && (LineStart(w) == |w| ==> Pieces(c) == Finished(w) + Pieces(later))
  {
    var w, later := c[..BUFSIZE], c[BUFSIZE..];
    assert w + later == c;
    PiecesStart(w, later);
    NulFreePieces(c);
    PlainAppend(Finished(w), Pieces(w[LineStart(w)..] + later));
    EmptyConcat(later);
  }

  lemma {:induction false} SplitLater(s: seq<byte>, w: seq<byte>, later: seq<byte>, a: seq<seq<byte>>)
    requires LineStart(w) == |w| && PlainAll(Finished(w)) && Pattern(s)
    requires Output([], s, a) != ReportLines([], s, Pieces(later))
    ensures Output([], s, Finished(w) + LastPiece(w) + a) != ReportLines([], s, Finished(w) + Pieces(later))
  {
    EmptyConcat(Finished(w));
    TailDiffers(s, Finished(w), a, Pieces(later));
  }

  lemma {:induction false} SplitHere(w: seq<byte>, later: seq<byte>, a: seq<seq<byte>>)
    requires |w| == BUFSIZE && 0 < LineStart(w) < |w| && NulFree(w) && later != [] && later[0] != NEWLINE
    requires PlainAll(Finished(w))
    ensures Pattern([w[LineStart(w)]])
    ensures Output([], [w[LineStart(w)]], Finished(w) + LastPiece(w) + a)
      != ReportLines([], [w[LineStart(w)]], Finished(w) + Pieces(w[LineStart(w)..] + later))
  {
    var t := w[LineStart(w)..];
    CarriedFree(w);
    PiecesFirst(t + later);
    FirstPieceBegins(t, later);
    ShorterDiffers(t, a, Pieces(t + later));
    Associative(Finished(w), LastPiece(w), a);
    TailDiffers([w[LineStart(w)]], Finished(w), LastPiece(w) + a, Pieces(t + later));
  }

  /** One round from an empty buffer that carries nothing. */
  lemma {:induction false} SearchedRound(c: seq<byte>, stale: Stale)
    requires c != [] && !Carries(c[..Room([], c)], stale)
    ensures var n := Room([], c);
      var w := c[..n];
      Searched([], c, stale) == Finished(w) + LastPiece(w) + Searched([], c[n..], StaleAfter(w, stale))
  {
    EmptyConcat(c[..Room([], c)]);
  }

  /** A file without NULs, read into a buffer whose last byte was a newline: grep prints the report for every
      name and pattern, if and only if no line is split. */
  lemma {:induction false} StaleNewlineIff(c: seq<byte>, short: bool)
    requires NulFree(c)
    ensures Right(c, Stale(true, short)) <==> !SplitsLine(c)
  {
    if SplitsLine(c) {
      var s := SplitDiffers(c, short);
    } else {
      StaleUndisturbedIff(c, short);
      SearchedIff([], c, Stale(true, short));
      NulFreePieces(c);
      forall fname, s | NulFree(fname) && Pattern(s)
        ensures Output(fname, s, Searched([], c, Stale(true, short))) == StreamReport(fname, s, c)
      {
        SameRight(fname, s, c, Stale(true, short));
      }
    }
  }

  /** Such a file: a newline, then 1024 other bytes. */
  lemma {:induction false} SplitExample(x: byte)
    requires x != NEWLINE && x != NUL
    ensures var c := [NEWLINE] + seq<byte>(BUFSIZE, i => x);
      NulFree(c) && SplitsLine(c) && !Right(c, Stale(true, false))
  {
    var c := [NEWLINE] + seq<byte>(BUFSIZE, i => x);
    assert c[..BUFSIZE][0] == NEWLINE;
    StaleNewlineIff(c, false);
  }

  // ----- files with NULs -----

  /** Nothing printed contains a NUL. */
  lemma {:induction false} OutputNoNul(s: seq<byte>, pieces: seq<seq<byte>>)
    ensures NulFree(Output([], s, pieces))
  {
    if pieces != [] {
      OutputNoNul(s, pieces[1..]);
    }
  }

  lemma {:induction false} ReportHas(s: seq<byte>, pieces: seq<seq<byte>>, i: nat, x: byte)
    requires i < |pieces| && Matches(s, pieces[i]) && x in pieces[i]
    ensures x in ReportLines([], s, pieces)
  {
    if i == 0 {
      assert ReportLines([], s, pieces)
        == [] + [COLON] + pieces[0] + [NEWLINE] + ReportLines([], s, pieces[1..]);
    } else {
      ReportHas(s, pieces[1..], i - 1, x);
    }
  }

  lemma {:induction false} NotPlainDiffers(c: seq<byte>, stale: Stale) returns (s: seq<byte>)
    requires !PlainAll(Pieces(c))
    ensures Pattern(s) && Output([], s, Searched([], c, stale)) != StreamReport([], s, c)
  {
    var i :| 0 <= i < |Pieces(c)| && !Plain(Pieces(c)[i]);
    var p := Pieces(c)[i];
    var j :| 0 <= j < |p| && p[j] != NUL;
    s := [p[j]];
    MatchesByte(p, j);
    ReportHas(s, Pieces(c), i, NUL);
    OutputNoNul(s, Searched([], c, stale));
  }

  ghost predicate LineFree(pieces: seq<seq<byte>>) {
    forall i :: 0 <= i < |pieces| ==> Free(pieces[i], NEWLINE)
  }

  lemma {:induction false} LineFreeCons(p: seq<byte>, pieces: seq<seq<byte>>)
    requires Free(p, NEWLINE) && LineFree(pieces)
    ensures LineFree([p] + pieces)
  {
  }

  lemma {:induction false} PiecesLineFree(f: seq<byte>)
    ensures LineFree(Pieces(f))
    decreases |f|
  {
    var k := IndexOf(f, NEWLINE);
    if k < BUFSIZE && k < |f| {
      PiecesLineFree(f[k + 1..]);
      LineFreeCons(f[..k], Pieces(f[k + 1..]));
    } else if BUFSIZE <= |f| {
      PiecesLineFree(f[BUFSIZE..]);
      LineFreeCons(f[..BUFSIZE], Pieces(f[BUFSIZE..]));
    }
  }

  lemma {:induction false} ReportSecond(s: seq<byte>, pieces: seq<seq<byte>>)
    requires Pattern(s) && LineFree(pieces)
    ensures var r := ReportLines([], s, pieces); r == [] || (|r| >= 2 && r[1] != NEWLINE)
  {
    if pieces != [] {
      var rest := ReportLines([], s, pieces[1..]);
      if Matches(s, pieces[0]) {
        var k: nat :| OccursAt(s, pieces[0], k);
        assert ReportLines([], s, pieces) == [] + [COLON] + pieces[0] + [NEWLINE] + rest;
      } else {
        ReportSecond(s, pieces[1..]);
        EmptyConcat(rest);
      }
    }
  }

  /** A line of NULs that other bytes replace when it is carried prints an empty line. */
  lemma {:induction false} AlteredDiffers(w: seq<byte>, later: seq<byte>, after: Stale) returns (s: seq<byte>)
    requires 0 < LineStart(w) < |w| <= BUFSIZE && CarriedOver(w) != w[LineStart(w)..]
    requires PlainAll(Pieces(w[LineStart(w)..] + later))
    ensures Pattern(s)
    ensures Output([], s, Searched(CarriedOver(w), later, after))
      != ReportLines([], s, Pieces(w[LineStart(w)..] + later))
  {
    var u := LineStart(w);
    var t, c := w[u..], CarriedOver(w);
    var pieces := Pieces(t + later);
    CarriedFree(w);
    PiecesFirst(t + later);
    FirstPieceBegins(t, later);
    assert Plain(pieces[0]) && forall j :: 0 <= j < |t| ==> t[j] == pieces[0][j];
    if NulFree(t) {
      CarriedWhole(w);
    }
    assert AllNul(t);
    IndexOfIs(w, NUL, u, u);
    var j := Altered(c, t);
    s := [c[j]];
    PiecesLineFree(t + later);
    ReportSecond(s, pieces);
    SearchedFirst(c, later, after);
    FirstPieceBegins(c, later);
    EmptyLine(s, Searched(c, later, after), j);
  }

  lemma {:induction false} Altered(c: seq<byte>, t: seq<byte>) returns (j: nat)
    requires |c| == |t| && c != t && AllNul(t)
    ensures j < |c| && c[j] != NUL
  {
    assert exists i :: 0 <= i < |c| && c[i] != t[i];
    j :| 0 <= j < |c| && c[j] != t[j];
  }

  lemma {:induction false} EmptyLine(s: seq<byte>, pieces: seq<seq<byte>>, j: nat)
    requires pieces != [] && j < |pieces[0]| && pieces[0][0] == NUL && s == [pieces[0][j]] && Pattern(s)
    ensures var r := Output([], s, pieces); |r| >= 2 && r[1] == NEWLINE
  {
    MatchesByte(pieces[0], j);
    IndexOfIs(pieces[0], NUL, 0);
    assert Output([], s, pieces) == [] + [COLON] + pieces[0][..0] + [NEWLINE] + Output([], s, pieces[1..]);
  }

  lemma {:induction false} DisturbedDiffers(carry: seq<byte>, rest: seq<byte>, stale: Stale) returns (s: seq<byte>)
    requires |carry| < BUFSIZE && Free(carry, NEWLINE) && !stale.full && PlainAll(Pieces(carry + rest))
    requires !Undisturbed(carry, rest, stale)
    ensures Pattern(s)
    ensures Output([], s, Searched(carry, rest, stale)) != ReportLines([], s, Pieces(carry + rest))
    decreases |rest|
  {
    var n := Room(carry, rest);
    var w, later := carry + rest[..n], rest[n..];
    var t, after := w[LineStart(w)..], StaleAfter(w, stale);
    Rejoined(carry, rest, n);
    PiecesStart(w, later);
    PlainAppend(Finished(w), Pieces(t + later));
    CarriedFree(w);
    if Carries(w, stale) {
      if CarriedOver(w) == t {
        s := DisturbedDiffers(t, later, after);
      } else {
        s := AlteredDiffers(w, later, after);
      }
      TailDiffers(s, Finished(w), Searched(CarriedOver(w), later, after), Pieces(t + later));
    } else {
      EmptyConcat(later);
      PlainRest(t, later);
      s := DisturbedDiffers([], later, after);
      UncarriedDiffers(s, w, later, Searched([], later, after));
    }
  }

  lemma {:induction false} PlainRest(t: seq<byte>, later: seq<byte>)
    requires Free(t, NEWLINE) && |t| <= BUFSIZE
    requires |t| == BUFSIZE || t == [] || later == [] || later[0] == NEWLINE
    requires PlainAll(Pieces(t + later))
    ensures Plain(t) && PlainAll(Pieces(later))
  {
    PieceEnds(t, later);
    PlainSolid(Pieces(t + later));
    PlainAppend(Solid([t]), Solid(Pieces(later)));
    PlainSolid(Pieces(later));
    SolidOne(t);
    if t != [] {
      assert Solid([t])[0] == t;
    }
  }

  lemma {:induction false} ReportTail(s: seq<byte>, t: seq<byte>, later: seq<byte>)
    requires Free(t, NEWLINE) && |t| <= BUFSIZE
    requires |t| == BUFSIZE || t == [] || later == [] || later[0] == NEWLINE
    ensures ReportLines([], s, Pieces(t + later)) == ReportLines([], s, (if t == [] then [] else [t]) + Pieces(later))
  {
    var last := if t == [] then [] else [t];
    PieceEnds(t, later);
    SolidOne(t);
    SolidAppend(last, Pieces(later));
    ReportSolid([], s, Pieces(t + later));
    ReportSolid([], s, last + Pieces(later));
  }

  lemma {:induction false} UncarriedDiffers(s: seq<byte>, w: seq<byte>, later: seq<byte>, a: seq<seq<byte>>)
    requires |w| <= BUFSIZE && (later == [] || |w| == BUFSIZE) && Pattern(s)
    requires LineStart(w) == 0 || LineStart(w) == |w| || later == []
    requires PlainAll(Finished(w)) && PlainAll(Pieces(w[LineStart(w)..] + later))
    requires Output([], s, a) != ReportLines([], s, Pieces(later))
    ensures Output([], s, Finished(w) + LastPiece(w) + a)
      != ReportLines([], s, Finished(w) + Pieces(w[LineStart(w)..] + later))
  {
    var t := w[LineStart(w)..];
    CarriedFree(w);
    PlainRest(t, later);
    TailDiffers(s, LastPiece(w), a, Pieces(later));
    ReportTail(s, t, later);
    Associative(Finished(w), LastPiece(w), a);
    TailDiffers(s, Finished(w), LastPiece(w) + a, Pieces(t + later));
  }

  /** A file of four bytes on which grep misses a line: the second line is carried over the first, and the
      byte behind its NUL is lost. */
  lemma {:induction false} NulExample(fname: seq<byte>, x: byte)
    requires x != NUL && x != NEWLINE
    ensures var c, stale := [x, NEWLINE, NUL, x], Stale(false, false);
      && Output(fname, [x], Searched([], c, stale)) == fname + [COLON, x, NEWLINE]
      && StreamReport(fname, [x], c) == fname + [COLON, x, NEWLINE] + fname + [COLON, NUL, x, NEWLINE]
  {
    var c, stale := [x, NEWLINE, NUL, x], Stale(false, false);
    ExampleWindow(x);
    EmptyConcat(c[..4]);
    assert c[..4] == c && c[4..] == [];
    assert Searched([], c, stale) == [[x]] + Searched([NUL, NUL], [], Stale(false, false)) == [[x], [NUL, NUL]];
    ExampleOutput(fname, x);
    ExamplePieces(fname, x);
  }

  lemma {:induction false} ExampleWindow(x: byte)
    requires x != NUL && x != NEWLINE
    ensures var c := [x, NEWLINE, NUL, x];
      Finished(c) == [[x]] && LineStart(c) == 2 && CarriedOver(c) == [NUL, NUL]
  {
    var c := [x, NEWLINE, NUL, x];
    IndexOfIs(c, NEWLINE, 1);
    IndexOfIs(c, NEWLINE, 4, 2);
    IndexOfIs(c, NUL, 2, 2);
    assert c[0..1] == [x] && Finished(c, 2) == [];
  }

  lemma {:induction false} ExampleOutput(fname: seq<byte>, x: byte)
    requires x != NUL && x != NEWLINE
    ensures Output(fname, [x], [[x], [NUL, NUL]]) == fname + [COLON, x, NEWLINE]
  {
    MatchesByte([x], 0);
    IndexOfIs([x], NUL, 1);
    PlainLine(fname, [x], [NUL, NUL]);
    NoMatch(x, [NUL, NUL]);
    OutputCons(fname, [x], [x], [[NUL, NUL]]);
    OutputOne(fname, [x], [NUL, NUL]);
  }

  lemma {:induction false} NoMatch(x: byte, p: seq<byte>)
    requires x !in p
    ensures !Matches([x], p)
  {
    forall k: nat
      ensures !OccursAt([x], p, k)
    {
      OccursFirst([x], p, k);
    }
  }

  lemma {:induction false} ExamplePieces(fname: seq<byte>, x: byte)
    requires x != NUL && x != NEWLINE
    ensures StreamReport(fname, [x], [x, NEWLINE, NUL, x])
      == fname + [COLON, x, NEWLINE] + fname + [COLON, NUL, x, NEWLINE]
  {
    var c := [x, NEWLINE, NUL, x];
    IndexOfIs(c, NEWLINE, 1);
    IndexOfIs([NUL, x], NEWLINE, 2);
    assert c[..1] == [x] && c[2..] == [NUL, x];
    assert Pieces(c) == [[x]] + [[NUL, x]];
    MatchesByte([x], 0);
    MatchesByte([NUL, x], 1);
    ReportCons(fname, [x], [x], [[NUL, x]]);
    ReportOne(fname, [x], [NUL, x]);
  }

  /** Any file, in a buffer whose last byte was no newline: grep prints the report on the file's pieces for
      every name and pattern, if and only if each piece has no NUL or nothing else, and no line is altered when
      it is carried. */
  lemma {:induction false} NulIff(c: seq<byte>, stale: Stale)
    requires !stale.full
    ensures Right(c, stale) <==> PlainAll(Pieces(c)) && Undisturbed([], c, stale)
  {
    EmptyConcat(c);
    if !PlainAll(Pieces(c)) {
      var s := NotPlainDiffers(c, stale);
    } else if !Undisturbed([], c, stale) {
      var s := DisturbedDiffers([], c, stale);
    } else {
      SearchedIff([], c, stale);
      forall fname, s | NulFree(fname) && Pattern(s)
        ensures Output(fname, s, Searched([], c, stale)) == StreamReport(fname, s, c)
      {
        SameRight(fname, s, c, stale);
      }
    }
  }
}
