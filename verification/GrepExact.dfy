/**
 When the pieces grep searches are the pieces of the file: newlines left in the uninitialised buffer
 and NULs in carried lines (syscalls/ece391grep.c).
 */
module GrepExact {
  import opened Bytes
  import opened Grep

  // ----- lists of pieces -----

  /** The non-empty pieces; empty ones never print anything. */
  function Solid(pieces: seq<seq<byte>>): seq<seq<byte>> {
    if pieces == [] then []
    else (if pieces[0] == [] then [] else [pieces[0]]) + Solid(pieces[1..])
  }

  lemma {:induction false} SolidAppend(a: seq<seq<byte>>, b: seq<seq<byte>>)
    ensures Solid(a + b) == Solid(a) + Solid(b)
  {
    if a == [] {
      assert a + b == b;
    } else {
      assert (a + b)[0] == a[0] && (a + b)[1..] == a[1..] + b;
      SolidAppend(a[1..], b);
    }
  }

  lemma {:induction false} SolidOne(p: seq<byte>)
    ensures Solid([p]) == if p == [] then [] else [p]
  {
    assert [p][1..] == [];
  }

  lemma {:induction false} SolidHead(pieces: seq<seq<byte>>)
    requires pieces != [] && pieces[0] != []
    ensures Solid(pieces) != [] && Solid(pieces)[0] == pieces[0]
  {
  }

  lemma {:induction false} OutputSolid(fname: seq<byte>, s: seq<byte>, pieces: seq<seq<byte>>)
    ensures Output(fname, s, Solid(pieces)) == Output(fname, s, pieces)
  {
    if pieces != [] {
      OutputSolid(fname, s, pieces[1..]);
      OutputOne(fname, s, pieces[0]);
      if pieces[0] == [] {
        assert [] + Solid(pieces[1..]) == Solid(pieces[1..]);
      } else {
        OutputCons(fname, s, pieces[0], Solid(pieces[1..]));
      }
    }
  }

  lemma {:induction false} ReportSolid(fname: seq<byte>, s: seq<byte>, pieces: seq<seq<byte>>)
    ensures ReportLines(fname, s, Solid(pieces)) == ReportLines(fname, s, pieces)
  {
    if pieces != [] {
      ReportSolid(fname, s, pieces[1..]);
      ReportOne(fname, s, pieces[0]);
      if pieces[0] == [] {
        assert [] + Solid(pieces[1..]) == Solid(pieces[1..]);
      } else {
        ReportCons(fname, s, pieces[0], Solid(pieces[1..]));
      }
    }
  }

  lemma {:induction false} ReportCons(fname: seq<byte>, s: seq<byte>, line: seq<byte>, lines: seq<seq<byte>>)
    ensures ReportLines(fname, s, [line] + lines) == LineReport(fname, s, line) + ReportLines(fname, s, lines)
  {
    assert ([line] + lines)[1..] == lines;
  }

  lemma {:induction false} ReportOne(fname: seq<byte>, s: seq<byte>, line: seq<byte>)
    ensures ReportLines(fname, s, [line]) == LineReport(fname, s, line)
    ensures LineReport(fname, s, []) == []
  {
    ReportCons(fname, s, line, []);
    assert [line] + [] == [line];
  }

  lemma {:induction false} ReportAppend(fname: seq<byte>, s: seq<byte>, a: seq<seq<byte>>, b: seq<seq<byte>>)
    ensures ReportLines(fname, s, a + b) == ReportLines(fname, s, a) + ReportLines(fname, s, b)
  {
    if a == [] {
      assert a + b == b;
    } else {
      assert a + b == [a[0]] + (a[1..] + b);
      ReportCons(fname, s, a[0], a[1..] + b);
      ReportAppend(fname, s, a[1..], b);
      Associative(LineReport(fname, s, a[0]), ReportLines(fname, s, a[1..]), ReportLines(fname, s, b));
    }
  }

  lemma {:induction false} Cancel<T>(a: seq<T>, b: seq<T>, c: seq<T>)
    ensures a + b == a + c <==> b == c
  {
    assert (a + b)[|a|..] == b && (a + c)[|a|..] == c;
  }

  // ----- the pieces of a file, a buffer at a time -----

  function FirstPiece(f: seq<byte>): seq<byte> {
    f[..Min(IndexOf(f, NEWLINE), Min(BUFSIZE, |f|))]
  }

  lemma {:induction false} FirstNewlineAfter(line: seq<byte>, more: seq<byte>)
    requires Free(line, NEWLINE)
    ensures IndexOf(line + more, NEWLINE) == |line| + IndexOf(more, NEWLINE)
  {
    var f, k := line + more, IndexOf(more, NEWLINE);
    assert f[..|line| + k] == line + more[..k];
    IndexOfIs(f, NEWLINE, |line| + k);
  }

  /** The lines that end inside a buffer are the first pieces of what it begins. */
  lemma {:induction false} PiecesWindow(w: seq<byte>, later: seq<byte>, from: nat)
    requires from <= |w| <= from + BUFSIZE
    ensures Pieces(w[from..] + later) == Finished(w, from) + Pieces(w[LineStart(w, from)..] + later)
    decreases |w| - from
  {
    var k := IndexOf(w, NEWLINE, from);
    if k < |w| {
      PiecesWindow(w, later, k + 1);
      WindowGrows(w, later, from, k);
    } else {
      WindowEnds(w, later, from);
    }
  }

  lemma {:induction false} WindowEnds(w: seq<byte>, later: seq<byte>, from: nat)
    requires from <= |w| && IndexOf(w, NEWLINE, from) == |w|
    ensures Pieces(w[from..] + later) == Finished(w, from) + Pieces(w[LineStart(w, from)..] + later)
  {
    var tail := Pieces(w[from..] + later);
    assert Finished(w, from) == [] && LineStart(w, from) == from;
    EmptyConcat(tail);
  }

  lemma {:induction false} WindowGrows(w: seq<byte>, later: seq<byte>, from: nat, k: nat)
    requires from <= |w| <= from + BUFSIZE && k == IndexOf(w, NEWLINE, from) < |w|
    requires Pieces(w[k + 1..] + later) == Finished(w, k + 1) + Pieces(w[LineStart(w, k + 1)..] + later)
    ensures Pieces(w[from..] + later) == Finished(w, from) + Pieces(w[LineStart(w, from)..] + later)
  {
    PieceCut(w, later, from, k);
    WindowCut(w, from, k);
    Prefixed(Pieces(w[from..] + later), w[from..k], Pieces(w[k + 1..] + later), Finished(w, k + 1),
             Pieces(w[LineStart(w, k + 1)..] + later), Finished(w, from));
  }

  lemma {:induction false} WindowCut(w: seq<byte>, from: nat, k: nat)
    requires from <= |w| && k == IndexOf(w, NEWLINE, from) < |w|
    ensures Finished(w, from) == [w[from..k]] + Finished(w, k + 1) && LineStart(w, from) == LineStart(w, k + 1)
  {
  }

  lemma {:induction false} Prefixed<T>(all: seq<T>, x: T, mid: seq<T>, a: seq<T>, b: seq<T>, xa: seq<T>)
    requires all == [x] + mid && mid == a + b && xa == [x] + a
    ensures all == xa + b
  {
  }

  lemma {:induction false} PieceCut(w: seq<byte>, later: seq<byte>, from: nat, k: nat)
    requires from <= k < |w| <= from + BUFSIZE && w[k] == NEWLINE && forall j :: from <= j < k ==> w[j] != NEWLINE
    ensures Pieces(w[from..] + later) == [w[from..k]] + Pieces(w[k + 1..] + later)
  {
    var f := w[from..] + later;
    IndexOfIs(f, NEWLINE, k - from);
    assert f[..k - from] == w[from..k];
    assert f[k - from + 1..] == w[k + 1..] + later;
  }

  /** The ways an unfinished piece can end where the buffer ends. */
  lemma {:induction false} PieceEnds(t: seq<byte>, later: seq<byte>)
    requires Free(t, NEWLINE) && |t| <= BUFSIZE
    requires |t| == BUFSIZE || t == [] || later == [] || later[0] == NEWLINE
    ensures Solid(Pieces(t + later)) == Solid([t]) + Solid(Pieces(later))
  {
    SolidOne(t);
    FirstNewlineAfter(t, later);
    var f := t + later;
    if t == [] {
      assert f == later;
    } else if |t| == BUFSIZE {
      assert f[..BUFSIZE] == t && f[BUFSIZE..] == later;
      SolidAppend([t], Pieces(later));
    } else if later == [] {
      assert f == t && Pieces(f) == [t] && Pieces(later) == [[]];
      SolidOne([]);
    } else {
      IndexOfIs(later, NEWLINE, 0);
      var more := later[1..];
      assert f[..|t|] == t && f[|t| + 1..] == more;
      assert later[..0] == [];
      SolidAppend([t], Pieces(more));
      SolidAppend([[]], Pieces(more));
      SolidOne([]);
    }
  }

  lemma {:induction false} PiecesFirst(f: seq<byte>)
    ensures Pieces(f) != [] && Pieces(f)[0] == FirstPiece(f)
  {
    assert f[..|f|] == f;
  }

  /** A carried line is the beginning of the next piece searched. */
  lemma {:induction false} SearchedFirst(carry: seq<byte>, rest: seq<byte>, stale: Stale)
    requires carry != [] && |carry| < BUFSIZE && Free(carry, NEWLINE)
    ensures Searched(carry, rest, stale) != [] && Searched(carry, rest, stale)[0] == FirstPiece(carry + rest)
  {
    FirstNewlineAfter(carry, rest);
    var f := carry + rest;
    if rest == [] {
      assert f == carry && f[..|f|] == f;
    } else {
      var n := Room(carry, rest);
      WindowFirst(carry + rest[..n], f);
    }
  }

  lemma {:induction false} WindowFirst(w: seq<byte>, f: seq<byte>)
    requires w != [] && w <= f && (|w| == BUFSIZE || (w == f && |w| < BUFSIZE))
    ensures (Finished(w) + LastPiece(w)) != [] && (Finished(w) + LastPiece(w))[0] == FirstPiece(f)
    ensures LineStart(w) > 0 ==> Finished(w) != []
  {
    var k := IndexOf(w, NEWLINE);
    if k < |w| {
      IndexOfIs(f, NEWLINE, k);
      assert Finished(w) == [w[..k]] + Finished(w, k + 1);
      assert w[..k] == f[..k];
    } else {
      assert Finished(w) == [] && LineStart(w) == 0 && w[0..] == w;
      assert forall j :: 0 <= j < |w| ==> f[j] != NEWLINE;
      assert w == f[..|w|];
    }
  }

  lemma {:induction false} FirstPieceBegins(t: seq<byte>, later: seq<byte>)
    requires Free(t, NEWLINE) && |t| <= BUFSIZE
    ensures t <= FirstPiece(t + later)
    ensures |t| < BUFSIZE && later != [] && later[0] != NEWLINE ==> |FirstPiece(t + later)| > |t|
  {
    FirstNewlineAfter(t, later);
  }

  lemma {:induction false} CarriedFree(w: seq<byte>)
    ensures Free(CarriedOver(w), NEWLINE) && Free(w[LineStart(w)..], NEWLINE)
  {
  }

  // ----- which pieces are searched -----

  /** No line loses bytes when it is carried, and none is cut at a newline the buffer held before. The
      bytes behind a carried line's first NUL are replaced by those the copy did not overwrite. */
  ghost predicate Undisturbed(carry: seq<byte>, rest: seq<byte>, stale: Stale)
    requires |carry| < BUFSIZE
    decreases |rest|
  {
    if rest == [] then true
    else
      var n := Room(carry, rest);
      var w := carry + rest[..n];
      var u := LineStart(w);
      if Carries(w, stale) then CarriedOver(w) == w[u..] && Undisturbed(w[u..], rest[n..], StaleAfter(w, stale))
      else
        && (0 < u < |w| && rest[n..] != [] ==> rest[n..][0] == NEWLINE)
        && Undisturbed([], rest[n..], StaleAfter(w, stale))
  }

  ghost predicate Same(carry: seq<byte>, rest: seq<byte>, stale: Stale)
    requires |carry| < BUFSIZE
  {
    Solid(Searched(carry, rest, stale)) == Solid(Pieces(carry + rest))
  }

  lemma {:induction false} SamePrefix(f: seq<seq<byte>>, a: seq<seq<byte>>, b: seq<seq<byte>>)
    ensures Solid(f + a) == Solid(f + b) <==> Solid(a) == Solid(b)
  {
    SolidAppend(f, a);
    SolidAppend(f, b);
    Cancel(Solid(f), Solid(a), Solid(b));
  }

  lemma {:induction false} HeadsDiffer(a: seq<seq<byte>>, b: seq<seq<byte>>)
    requires a != [] && b != [] && a[0] != [] && b[0] != [] && a[0] != b[0]
    ensures Solid(a) != Solid(b)
  {
    SolidHead(a);
    SolidHead(b);
  }

  /** A line that is altered when it is carried shows in the next piece. */
  lemma {:induction false} AlteredShows(c: seq<byte>, t: seq<byte>, later: seq<byte>, stale: Stale)
    requires c != t && |c| == |t| < BUFSIZE && Free(c, NEWLINE) && Free(t, NEWLINE)
    ensures Solid(Searched(c, later, stale)) != Solid(Pieces(t + later))
  {
    SearchedFirst(c, later, stale);
    PiecesFirst(t + later);
    FirstPieceBegins(c, later);
    FirstPieceBegins(t, later);
    HeadsDiffer(Searched(c, later, stale), Pieces(t + later));
  }

  /** A line cut at a left-over newline shows unless it really ends there. */
  lemma {:induction false} CutShows(t: seq<byte>, later: seq<byte>, a: seq<seq<byte>>)
    requires t != [] && |t| < BUFSIZE && Free(t, NEWLINE) && later != [] && later[0] != NEWLINE
    ensures Solid([t] + a) != Solid(Pieces(t + later))
  {
    PiecesFirst(t + later);
    FirstPieceBegins(t, later);
    HeadsDiffer([t] + a, Pieces(t + later));
  }

  lemma {:induction false} SameTail(t: seq<byte>, later: seq<byte>, a: seq<seq<byte>>)
    requires Free(t, NEWLINE) && |t| <= BUFSIZE
    requires |t| == BUFSIZE || t == [] || later == [] || later[0] == NEWLINE
    ensures Solid((if t == [] then [] else [t]) + a) == Solid(Pieces(t + later)) <==> Solid(a) == Solid(Pieces(later))
  {
    PieceEnds(t, later);
    SolidOne(t);
    SolidAppend(if t == [] then [] else [t], a);
    Cancel(Solid([t]), Solid(a), Solid(Pieces(later)));
  }

  /** For any content and any buffer: the pieces searched are the pieces of the file, if and only if no
      carried line is altered and no line is cut at a left-over newline. */
  lemma {:induction false} SearchedIff(carry: seq<byte>, rest: seq<byte>, stale: Stale)
    requires |carry| < BUFSIZE && Free(carry, NEWLINE)
    ensures Same(carry, rest, stale) <==> Undisturbed(carry, rest, stale)
    decreases |rest|
  {
    if rest == [] {
      assert carry + rest == carry;
      PieceEnds(carry, []);
      SolidOne([]);
      assert Pieces([]) == [[]];
    } else {
      var n := Room(carry, rest);
      var w, later := carry + rest[..n], rest[n..];
      if !Carries(w, stale) {
        SearchedIff([], later, StaleAfter(w, stale));
        UncarriedStep(carry, rest, stale, w, later);
      } else {
        if CarriedOver(w) == w[LineStart(w)..] {
          CarriedFree(w);
          SearchedIff(CarriedOver(w), later, StaleAfter(w, stale));
        }
        CarriedStep(carry, rest, stale, w, later);
      }
    }
  }

  lemma {:induction false} Rejoined(carry: seq<byte>, rest: seq<byte>, n: nat)
    requires n <= |rest|
    ensures carry + rest[..n] + rest[n..] == carry + rest
  {
  }

  lemma {:induction false} PiecesStart(w: seq<byte>, later: seq<byte>)
    requires |w| <= BUFSIZE
    ensures Pieces(w + later) == Finished(w) + Pieces(w[LineStart(w)..] + later)
  {
    assert w[0..] == w;
    PiecesWindow(w, later, 0);
  }

  lemma {:induction false} CarriedStep(carry: seq<byte>, rest: seq<byte>, stale: Stale, w: seq<byte>, later: seq<byte>)
    requires |carry| < BUFSIZE && rest != []
    requires w == carry + rest[..Room(carry, rest)] && later == rest[Room(carry, rest)..] && Carries(w, stale)
    requires var t, after := w[LineStart(w)..], StaleAfter(w, stale);
      CarriedOver(w) == t ==> (Same(t, later, after) <==> Undisturbed(t, later, after))
    ensures Same(carry, rest, stale) <==> Undisturbed(carry, rest, stale)
  {
    Rejoined(carry, rest, Room(carry, rest));
    PiecesStart(w, later);
    CarriedIff(w, later, StaleAfter(w, stale));
    assert Searched(carry, rest, stale) == Finished(w) + Searched(CarriedOver(w), later, StaleAfter(w, stale));
  }

  lemma {:induction false} UncarriedStep(carry: seq<byte>, rest: seq<byte>, stale: Stale, w: seq<byte>,
                                         later: seq<byte>)
    requires |carry| < BUFSIZE && rest != []
    requires w == carry + rest[..Room(carry, rest)] && later == rest[Room(carry, rest)..] && !Carries(w, stale)
    requires Same([], later, StaleAfter(w, stale)) <==> Undisturbed([], later, StaleAfter(w, stale))
    ensures Same(carry, rest, stale) <==> Undisturbed(carry, rest, stale)
  {
    Rejoined(carry, rest, Room(carry, rest));
    EmptyConcat(later);
    PiecesStart(w, later);
    UncarriedIff(w, later, Searched([], later, StaleAfter(w, stale)));
    assert Searched(carry, rest, stale) == Finished(w) + LastPiece(w) + Searched([], later, StaleAfter(w, stale));
  }

  lemma {:induction false} CarriedIff(w: seq<byte>, later: seq<byte>, after: Stale)
    requires 0 < LineStart(w) && |w| <= BUFSIZE
    ensures var t := w[LineStart(w)..];
      Solid(Finished(w) + Searched(CarriedOver(w), later, after)) == Solid(Finished(w) + Pieces(t + later)) <==>
        CarriedOver(w) == t && Same(t, later, after)
  {
    var t := w[LineStart(w)..];
    SamePrefix(Finished(w), Searched(CarriedOver(w), later, after), Pieces(t + later));
    CarriedFree(w);
    if CarriedOver(w) != t {
      AlteredShows(CarriedOver(w), t, later, after);
    }
  }

  lemma {:induction false} UncarriedIff(w: seq<byte>, later: seq<byte>, a: seq<seq<byte>>)
    requires |w| <= BUFSIZE && (later == [] || |w| == BUFSIZE)
    ensures Solid(Finished(w) + LastPiece(w) + a) == Solid(Finished(w) + Pieces(w[LineStart(w)..] + later)) <==>
      (0 < LineStart(w) < |w| && later != [] ==> later[0] == NEWLINE) && Solid(a) == Solid(Pieces(later))
  {
    var u := LineStart(w);
    var t := w[u..];
    Associative(Finished(w), LastPiece(w), a);
    SamePrefix(Finished(w), LastPiece(w) + a, Pieces(t + later));
    CarriedFree(w);
    if 0 < u < |w| && later != [] && later[0] != NEWLINE {
      CutShows(t, later, a);
    } else {
      SameTail(t, later, a);
    }
  }
}
