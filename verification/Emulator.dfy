/**
 Command lines in the Linux emulation layer: cutting a command into the argument vector of the
 new program, and joining that vector again for `getargs` (syscalls/ece391emulate.c).
 */
module Emulator {
  import opened Bytes

  const BUF_SIZE := 1026
  const ARGS_SIZE := 1024
  const MAX_COMMAND := 1023

  // ----- the words of a command -----

  predicate Separator(c: byte) {
    c == SPACE || c == NEWLINE
  }

  /** The end of the word that starts at `from`. */
  function WordEnd(s: seq<byte>, from: nat): (e: nat)
    requires from <= |s|
    ensures from <= e <= |s|
    ensures forall j :: from <= j < e ==> !Separator(s[j])
    ensures e < |s| ==> Separator(s[e])
    decreases |s| - from
  {
    if from == |s| || Separator(s[from]) then from else WordEnd(s, from + 1)
  }

  /** The arguments in a text from `from` on: spaces are skipped, a newline where a word should
      start ends the text, and the byte after a word is dropped. */
  function Words(s: seq<byte>, from: nat := 0): seq<seq<byte>>
    requires from <= |s|
    decreases |s| - from
  {
    if from == |s| then []
    else if s[from] == SPACE then Words(s, from + 1)
    else
      var e := WordEnd(s, from);
      if e == from then [] else if e == |s| then [s[from..e]] else [s[from..e]] + Words(s, e + 1)
  }

  /** The argument vector of a command, without the program name. */
  function Arguments(command: seq<byte>): seq<seq<byte>> {
    var e := WordEnd(command, 0);
    if e < |command| then Words(command, e + 1) else []
  }

  predicate IsWord(w: seq<byte>) {
    w != [] && forall i :: 0 <= i < |w| ==> !Separator(w[i])
  }

  /** Single spaces between the words. */
  function Join(words: seq<seq<byte>>): seq<byte> {
    if words == [] then []
    else if |words| == 1 then words[0]
    else words[0] + [SPACE] + Join(words[1..])
  }

  /** Every argument is a maximal run without separators: not empty and free of them. */
  lemma {:induction false} WordsAreWords(s: seq<byte>, from: nat)
    requires from <= |s|
    ensures forall i :: 0 <= i < |Words(s, from)| ==> IsWord(Words(s, from)[i])
    decreases |s| - from
  {
    if from < |s| {
      if s[from] == SPACE {
        WordsAreWords(s, from + 1);
      } else if from < WordEnd(s, from) < |s| {
        WordsAreWords(s, WordEnd(s, from) + 1);
      }
    }
  }

  /** A maximal run without separators, from `p.0` to `p.1`. */
  ghost predicate Run(s: seq<byte>, from: nat, p: (nat, nat)) {
    && from <= p.0 < p.1 <= |s|
    && (forall k :: p.0 <= k < p.1 ==> !Separator(s[k]))
    && (p.0 == from || Separator(s[p.0 - 1])) && (p.1 == |s| || Separator(s[p.1]))
  }

  /** A newline where a word could start: the text ends there. */
  predicate EndsAt(s: seq<byte>, from: nat, k: nat) {
    from <= k < |s| && s[k] == NEWLINE && (k == from || Separator(s[k - 1]))
  }

  /** `words` are the maximal runs without separators of the text from `from` to `stop`, all of them and in order, and
      `stop` is the first newline where a word could start, or the end. */
  ghost predicate Cut(s: seq<byte>, from: nat, runs: seq<(nat, nat)>, stop: nat, words: seq<seq<byte>>) {
    && from <= stop <= |s| && (stop < |s| ==> EndsAt(s, from, stop))
    && (forall k :: from <= k < stop ==> !EndsAt(s, from, k))
    && |runs| == |words|
    && (forall i :: 0 <= i < |runs| ==> IsRun(s, from, stop, runs[i], words[i]))
    && (forall i, j :: 0 <= i < j < |runs| ==> runs[i].1 < runs[j].0)
    && (forall k :: from <= k < stop && !Separator(s[k]) ==> Covered(runs, k))
  }

  ghost predicate IsRun(s: seq<byte>, from: nat, stop: nat, p: (nat, nat), word: seq<byte>) {
    Run(s, from, p) && p.1 <= stop && word == s[p.0..p.1]
  }

  ghost predicate Covered(runs: seq<(nat, nat)>, k: nat) {
    exists i :: 0 <= i < |runs| && runs[i].0 <= k < runs[i].1
  }

  lemma {:induction false} WordsAre(s: seq<byte>, from: nat) returns (runs: seq<(nat, nat)>, stop: nat)
    requires from <= |s|
    ensures Cut(s, from, runs, stop, Words(s, from))
    decreases |s| - from
  {
    runs, stop := [], from;
    if from < |s| {
      var e := WordEnd(s, from);
      if s[from] == SPACE {
        runs, stop := WordsAre(s, from + 1);
        CutSkips(s, from, runs, stop, Words(s, from + 1));
      } else if e == |s| {
        runs, stop := [(from, e)], e;
        forall k | from <= k < stop
          ensures Covered(runs, k)
        {
          assert runs[0].0 <= k < runs[0].1;
        }
      } else if e > from {
        var later;
        later, stop := WordsAre(s, e + 1);
        runs := [(from, e)] + later;
        CutGrows(s, from, e, later, stop, Words(s, e + 1));
      }
    }
  }

  lemma {:induction false} CutSkips(s: seq<byte>, from: nat, runs: seq<(nat, nat)>, stop: nat, words: seq<seq<byte>>)
    requires from < |s| && s[from] == SPACE && Cut(s, from + 1, runs, stop, words)
    ensures Cut(s, from, runs, stop, words)
  {
    forall i | 0 <= i < |runs|
      ensures IsRun(s, from, stop, runs[i], words[i])
    {
      assert IsRun(s, from + 1, stop, runs[i], words[i]);
    }
    forall k | from <= k < stop
      ensures !EndsAt(s, from, k)
    {
      assert k > from ==> !EndsAt(s, from + 1, k);
    }
  }

  lemma {:induction false} CutGrows(s: seq<byte>, from: nat, e: nat, later: seq<(nat, nat)>, stop: nat,
                                    words: seq<seq<byte>>)
    requires from < e < |s| && e == WordEnd(s, from) && Cut(s, e + 1, later, stop, words)
    ensures Cut(s, from, [(from, e)] + later, stop, [s[from..e]] + words)
  {
    var runs, all := [(from, e)] + later, [s[from..e]] + words;
    forall i | 0 <= i < |runs|
      ensures IsRun(s, from, stop, runs[i], all[i])
    {
      if i > 0 {
        assert runs[i] == later[i - 1] && all[i] == words[i - 1];
        assert IsRun(s, e + 1, stop, runs[i], all[i]);
      }
    }
    RunsInOrder(s, from, e, later, stop, words);
    forall k | from <= k < stop
      ensures !EndsAt(s, from, k) && (!Separator(s[k]) ==> Covered(runs, k))
    {
      NothingMissed(s, from, e, later, stop, words, k);
    }
    assert EndsAt(s, e + 1, stop) ==> EndsAt(s, from, stop);
  }

  lemma {:induction false} RunsInOrder(s: seq<byte>, from: nat, e: nat, later: seq<(nat, nat)>, stop: nat,
                                       words: seq<seq<byte>>)
    requires Cut(s, e + 1, later, stop, words)
    ensures var runs := [(from, e)] + later; forall i, j :: 0 <= i < j < |runs| ==> runs[i].1 < runs[j].0
  {
    var runs := [(from, e)] + later;
    forall i, j | 0 <= i < j < |runs|
      ensures runs[i].1 < runs[j].0
    {
      assert IsRun(s, e + 1, stop, later[j - 1], words[j - 1]);
    }
  }

  lemma {:induction false} NothingMissed(s: seq<byte>, from: nat, e: nat, later: seq<(nat, nat)>, stop: nat,
                                         words: seq<seq<byte>>, k: nat)
    requires from < e < |s| && e == WordEnd(s, from) && Cut(s, e + 1, later, stop, words) && from <= k < stop
    ensures !EndsAt(s, from, k) && (!Separator(s[k]) ==> Covered([(from, e)] + later, k))
  {
    var runs := [(from, e)] + later;
    if k > e {
      assert !EndsAt(s, e + 1, k);
      if !Separator(s[k]) {
        var i :| 0 <= i < |later| && later[i].0 <= k < later[i].1;
        assert runs[i + 1] == later[i];
      }
    } else {
      assert runs[0].0 <= k;
    }
  }

  /** The arguments of a command: the maximal runs without separators behind the first separator, all of them and in
      order, up to a newline where a word could start. The program's name is what stands before that separator. */
  lemma {:induction false} ArgumentsAre(command: seq<byte>, name: seq<byte>, text: seq<byte>)
    returns (runs: seq<(nat, nat)>, stop: nat)
    requires forall i :: 0 <= i < |name| ==> !Separator(name[i])
    requires command == name + text && (text != [] ==> Separator(text[0]))
    ensures command[..WordEnd(command, 0)] == name
    ensures text == [] ==> Arguments(command) == []
    ensures text != [] ==> Cut(command, |name| + 1, runs, stop, Arguments(command))
  {
    runs, stop := [], 0;
    NameEnds(command, name, text);
    if text != [] {
      runs, stop := WordsAre(command, |name| + 1);
    }
  }

  lemma {:induction false} NameEnds(command: seq<byte>, name: seq<byte>, text: seq<byte>)
    requires forall i :: 0 <= i < |name| ==> !Separator(name[i])
    requires command == name + text && (text != [] ==> Separator(text[0]))
    ensures WordEnd(command, 0) == |name| && command[..|name|] == name
  {
    var e := WordEnd(command, 0);
    assert forall j :: 0 <= j < |name| ==> command[j] == name[j];
    assert |name| < |command| ==> command[|name|] == text[0];
  }

  lemma {:induction false} EndShift(c: seq<byte>, n: nat, from: nat)
    requires n + from <= |c|
    ensures WordEnd(c, n + from) == n + WordEnd(c[n..], from)
    decreases |c| - from
  {
    if n + from < |c| {
      EndShift(c, n, from + 1);
    }
  }

  /** What stands before a text does not matter to its words. */
  lemma {:induction false} WordsShift(c: seq<byte>, n: nat, from: nat)
    requires n + from <= |c|
    ensures Words(c, n + from) == Words(c[n..], from)
    decreases |c| - from
  {
    var b := c[n..];
    if from < |b| {
      assert b[from] == c[n + from];
      if b[from] == SPACE {
        WordsShift(c, n, from + 1);
      } else {
        var e := WordEnd(b, from);
        if e < |b| {
          WordsShift(c, n, e + 1);
        }
        ShiftWord(c, n, b, from, e);
      }
    }
  }

  lemma {:induction false} ShiftWord(c: seq<byte>, n: nat, b: seq<byte>, from: nat, e: nat)
    requires n <= |c| && b == c[n..] && from < |b| && b[from] != SPACE && e == WordEnd(b, from)
    requires e < |b| ==> Words(c, n + e + 1) == Words(b, e + 1)
    ensures Words(c, n + from) == Words(b, from)
  {
    EndShift(c, n, from);
    SliceShift(c, n, from, e);
  }

  lemma {:induction false} SliceShift(c: seq<byte>, n: nat, from: nat, e: nat)
    requires n <= |c| && from <= e <= |c| - n
    ensures c[n + from..n + e] == c[n..][from..e]
  {
  }

  lemma {:induction false} FirstWord(w: seq<byte>, rest: seq<byte>)
    requires IsWord(w) && (rest != [] ==> Separator(rest[0]))
    ensures WordEnd(w + rest, 0) == |w|
  {
    var s := w + rest;
    var e := WordEnd(s, 0);
    assert forall j :: 0 <= j < |w| ==> s[j] == w[j];
    assert |w| < |s| ==> s[|w|] == rest[0];
  }

  /** Cutting the joined words gives the same words back. */
  lemma {:induction false} JoinThenCut(words: seq<seq<byte>>)
    requires forall i :: 0 <= i < |words| ==> IsWord(words[i])
    ensures Words(Join(words)) == words
    decreases |words|
  {
    if |words| == 1 {
      OneWord(words[0]);
    } else if |words| > 1 {
      JoinThenCut(words[1..]);
      TwoParts(words[0], Join(words[1..]));
      assert words == [words[0]] + words[1..];
    }
  }

  lemma {:induction false} OneWord(w: seq<byte>)
    requires IsWord(w)
    ensures Words(w) == [w]
  {
    FirstWord(w, []);
    assert w + [] == w && w[0..|w|] == w;
  }

  lemma {:induction false} WordsStep(s: seq<byte>, w: seq<byte>)
    requires IsWord(w) && w < s && WordEnd(s, 0) == |w|
    ensures Words(s) == [w] + Words(s, |w| + 1)
  {
    assert s[0] == w[0] && s[0..|w|] == w;
  }

  lemma {:induction false} TwoParts(w: seq<byte>, more: seq<byte>)
    requires IsWord(w)
    ensures Words(w + [SPACE] + more) == [w] + Words(more)
  {
    var s := w + [SPACE] + more;
    assert s == w + ([SPACE] + more);
    FirstWord(w, [SPACE] + more);
    WordsStep(s, w);
    assert s[|w| + 1..] == more;
    WordsShift(s, |w| + 1, 0);
  }

  /** What a program's `getargs` gives it is a text with the same arguments. */
  lemma {:induction false} ArgumentsSurvive(command: seq<byte>)
    ensures Words(Join(Arguments(command))) == Arguments(command)
  {
    var e := WordEnd(command, 0);
    if e < |command| {
      WordsAreWords(command, e + 1);
    }
    JoinThenCut(Arguments(command));
  }

  // ----- cutting in place -----

  const SLASH: byte := 47
  const NULL := -1

  /** From index `from` on, the buffer still holds the command and its NUL, two bytes in. */
  ghost predicate Intact(buf: array<byte>, command: seq<byte>, from: nat)
    reads buf
  {
    && from <= |command| <= MAX_COMMAND && buf.Length == BUF_SIZE
    && (forall i :: from <= i < |command| ==> buf[2 + i] == command[i])
    && buf[2 + |command|] == NUL
  }

  /** A C string `t` lies at `p` and ends at or before index `limit`. */
  ghost predicate StringAt(buf: seq<byte>, p: int, t: seq<byte>, limit: int) {
    && 0 <= p && p + |t| <= limit < |buf| && buf[p + |t|] == NUL
    && forall j :: 0 <= j < |t| ==> t[j] == buf[p + j]
  }

  /** The first arguments point at the strings `toks`. */
  ghost predicate Pointing(buf: seq<byte>, args: seq<int>, toks: seq<seq<byte>>, limit: int) {
    |toks| <= |args| && forall i :: 0 <= i < |toks| ==> StringAt(buf, args[i], toks[i], limit)
  }

  method CopyCommand(buf: array<byte>, command: seq<byte>)
    requires buf.Length == BUF_SIZE && |command| <= MAX_COMMAND
    modifies buf
    ensures Intact(buf, command, 0) && buf[0] == DOT && buf[1] == SLASH
  {
    buf[0], buf[1] := DOT, SLASH;
    var i := 0;
    while i < |command|
      invariant 0 <= i <= |command| && buf[0] == DOT && buf[1] == SLASH
      invariant forall j :: 0 <= j < i ==> buf[2 + j] == command[j]
    {
      buf[2 + i] := command[i];
      i := i + 1;
    }
    buf[2 + i] := NUL;
  }

  method ScanWord(buf: array<byte>, command: seq<byte>, from: nat) returns (pos: nat)
    requires Intact(buf, command, from) && NulFree(command)
    ensures pos == WordEnd(command, from)
  {
    pos := from;
    while buf[2 + pos] != NUL && buf[2 + pos] != SPACE && buf[2 + pos] != NEWLINE
      invariant from <= pos <= |command|
      invariant WordEnd(command, from) == WordEnd(command, pos)
      decreases |command| - pos
    {
      pos := pos + 1;
    }
  }

  method SkipBlanks(buf: array<byte>, command: seq<byte>, from: nat) returns (pos: nat)
    requires Intact(buf, command, from)
    ensures from <= pos <= |command| && Words(command, pos) == Words(command, from)
    ensures pos < |command| ==> command[pos] != SPACE
  {
    pos := from;
    while buf[2 + pos] == SPACE
      invariant from <= pos <= |command|
      invariant Words(command, from) == Words(command, pos)
      decreases |command| - pos
    {
      pos := pos + 1;
    }
  }

  /** A string put at `from` with its NUL at `e` joins the strings that end by `from`. */
  lemma {:induction false} StringsKept(was: seq<byte>, now: seq<byte>, args: seq<int>, toks: seq<seq<byte>>,
                                       from: nat, e: nat, limit: nat, word: seq<byte>)
    requires from < e <= limit < |was| == |now| && |toks| < |args|
    requires Pointing(was, args, toks, from) && args[|toks|] == from
    requires (forall i :: 0 <= i < |was| && i != e ==> now[i] == was[i]) && now[e] == NUL
    requires word == now[from..e]
    ensures Pointing(now, args, toks + [word], limit)
  {
    forall i | 0 <= i <= |toks|
      ensures StringAt(now, args[i], (toks + [word])[i], limit)
    {
      if i < |toks| {
        assert StringAt(was, args[i], toks[i], from);
      }
    }
  }

  /** One argument: records it, finds its end and puts the NUL there. */
  method TakeWord(buf: array<byte>, args: array<int>, command: seq<byte>, from: nat, n: nat, ghost toks: seq<seq<byte>>)
    returns (pos: nat, ghost word: seq<byte>)
    requires Intact(buf, command, from) && NulFree(command) && args.Length == ARGS_SIZE && n == |toks| < ARGS_SIZE
    requires from < |command| && !Separator(command[from]) && Pointing(buf[..], args[..], toks, 2 + from)
    modifies buf, args
    ensures from < pos <= |command| && Intact(buf, command, pos)
    ensures pos == from + 1 ==> pos == |command|
    ensures Words(command, from) == [word] + Words(command, pos)
    ensures Pointing(buf[..], args[..], toks + [word], 2 + pos)
  {
    ghost var was, old_args := buf[..], args[..];
    args[n] := 2 + from;
    assert forall i :: 0 <= i < |toks| ==> args[..][i] == old_args[i];
    pos := ScanWord(buf, command, from);
    word := command[from..pos];
    ghost var e := pos;
    if buf[2 + pos] != NUL {
      buf[2 + pos] := NUL;
      pos := pos + 1;
    }
    assert word == buf[..][2 + from..2 + e];
    StringsKept(was, buf[..], args[..], toks, 2 + from, 2 + e, 2 + pos, word);
  }

  /** The argument loop. */
  method TakeWords(buf: array<byte>, args: array<int>, command: seq<byte>, from: nat, ghost first: seq<byte>)
    returns (n: nat)
    requires Intact(buf, command, from) && NulFree(command) && args.Length == ARGS_SIZE && 1 <= from
    requires Pointing(buf[..], args[..], [first], 2 + from)
    modifies buf, args
    ensures n == 1 + |Words(command, from)| < ARGS_SIZE
    ensures Pointing(buf[..], args[..], [first] + Words(command, from), 2 + |command|)
  {
    n := 1;
    var pos := from;
    ghost var toks := [first];
    while true
      invariant from <= pos <= |command| && Intact(buf, command, pos)
      invariant n == |toks| && 2 * (n - 1) <= pos && (pos < |command| ==> 2 * (n - 1) < pos)
      invariant Pointing(buf[..], args[..], toks, 2 + pos)
      invariant toks + Words(command, pos) == [first] + Words(command, from)
      decreases |command| - pos
    {
      ghost var before := pos;
      pos := SkipBlanks(buf, command, pos);
      Widen(buf[..], args[..], toks, 2 + before, 2 + pos);
      if buf[2 + pos] == NUL || buf[2 + pos] == NEWLINE {
        ghost var was := buf[..];
        buf[2 + pos] := NUL;
        Ended(was, buf[..], args[..], toks, 2 + pos, 2 + |command|);
        assert Words(command, pos) == [];
        return;
      }
      ghost var word;
      before := pos;
      pos, word := TakeWord(buf, args, command, pos, n, toks);
      Associative(toks, [word], Words(command, pos));
      toks := toks + [word];
      n := n + 1;
    }
  }

  lemma {:induction false} Widen(buf: seq<byte>, args: seq<int>, toks: seq<seq<byte>>, limit: int, limit': int)
    requires Pointing(buf, args, toks, limit) && limit <= limit' < |buf|
    ensures Pointing(buf, args, toks, limit')
  {
    forall i | 0 <= i < |toks|
      ensures StringAt(buf, args[i], toks[i], limit')
    {
      assert StringAt(buf, args[i], toks[i], limit);
    }
  }

  lemma {:induction false} Ended(was: seq<byte>, now: seq<byte>, args: seq<int>, toks: seq<seq<byte>>, limit: int,
                                 limit': int)
    requires Pointing(was, args, toks, limit) && 0 <= limit <= limit' < |was| && now == was[limit := NUL]
    ensures Pointing(now, args, toks, limit')
  {
    forall i | 0 <= i < |toks|
      ensures StringAt(now, args[i], toks[i], limit')
    {
      assert StringAt(was, args[i], toks[i], limit);
    }
  }

  /** The strings of the argument vector: the program, with its directory, and its arguments. */
  function Vector(command: seq<byte>): seq<seq<byte>> {
    [[DOT, SLASH] + command[..WordEnd(command, 0)]] + Arguments(command)
  }

  /** The tokenizer of `ece391_execute`: for any command without NULs, in bounds of its two arrays. */
  method Tokenize(command: seq<byte>, buf: array<byte>, args: array<int>) returns (r: int, n: nat)
    requires NulFree(command) && buf.Length == BUF_SIZE && args.Length == ARGS_SIZE
    modifies buf, args
    ensures r == if |command| > MAX_COMMAND then -1 else 0
    ensures r == 0 ==>
      && n == 1 + |Arguments(command)| < ARGS_SIZE && args[n] == NULL
      && Pointing(buf[..], args[..], [[DOT, SLASH] + command[..WordEnd(command, 0)]] + Arguments(command),
                  2 + |command|)
  {
    n := 0;
    if |command| > MAX_COMMAND {
      return -1, n;
    }
    n := CutCommand(command, buf, args);
    ghost var was := args[..];
    args[n] := NULL;
    Terminated(buf[..], was, args[..], Vector(command), 2 + |command|);
    return 0, n;
  }

  method CutCommand(command: seq<byte>, buf: array<byte>, args: array<int>) returns (n: nat)
    requires NulFree(command) && buf.Length == BUF_SIZE && args.Length == ARGS_SIZE && |command| <= MAX_COMMAND
    modifies buf, args
    ensures n == |Vector(command)| < ARGS_SIZE && Pointing(buf[..], args[..], Vector(command), 2 + |command|)
  {
    CopyCommand(buf, command);
    var pos := ScanWord(buf, command, 0);
    ghost var first := [DOT, SLASH] + command[..pos];
    args[0] := 0;
    n := 1;
    assert forall j :: 0 <= j < |first| ==> first[j] == buf[j];
    if buf[2 + pos] != NUL {
      buf[2 + pos] := NUL;
      pos := pos + 1;
      assert StringAt(buf[..], args[..][0], first, 2 + pos);
      n := TakeWords(buf, args, command, pos, first);
    } else {
      assert StringAt(buf[..], args[..][0], first, 2 + pos);
      assert [first] + [] == [first];
    }
  }

  /** The NULL behind the last argument does not touch the others. */
  lemma {:induction false} Terminated(buf: seq<byte>, was: seq<int>, now: seq<int>, toks: seq<seq<byte>>, limit: int)
    requires Pointing(buf, was, toks, limit) && |toks| < |was| == |now| && now == was[|toks| := NULL]
    ensures Pointing(buf, now, toks, limit)
  {
    forall i | 0 <= i < |toks|
      ensures StringAt(buf, now[i], toks[i], limit)
    {
      assert StringAt(buf, was[i], toks[i], limit);
    }
  }

  // ----- joining again -----

  /** Where word `i` stands in the joined text: behind the words before it, each with one byte for its space. */
  function Offset(words: seq<seq<byte>>, i: nat): nat
    requires i <= |words|
  {
    if i == 0 then 0 else Offset(words, i - 1) + |words[i - 1]| + 1
  }

  lemma {:induction false} JoinSize(words: seq<seq<byte>>)
    requires words != []
    ensures |Join(words)| == Offset(words, |words|) - 1
    decreases |words|
  {
    var n := |words| - 1;
    assert words == words[..n] + [words[n]];
    JoinSnoc(words[..n], words[n]);
    OffsetPrefix(words, n, n);
    if n > 0 {
      JoinSize(words[..n]);
    }
  }

  /** Word `i` stands at its offset, and a space before the next. */
  ghost predicate Placed(words: seq<seq<byte>>, joined: seq<byte>, i: nat)
    requires i < |words|
  {
    var at, n := Offset(words, i), |words[i]|;
    && at + n <= |joined| && joined[at..at + n] == words[i]
    && (i + 1 < |words| ==> at + n < |joined| && joined[at + n] == SPACE)
  }

  /** The joined text is the words with one space between neighbours and nothing else. */
  lemma {:induction false} JoinAt(words: seq<seq<byte>>, i: nat)
    requires i < |words|
    ensures |Join(words)| == Offset(words, |words|) - 1 && Placed(words, Join(words), i)
    decreases |words|
  {
    var n := |words| - 1;
    var before, w := words[..n], words[n];
    assert words == before + [w];
    JoinSize(words);
    JoinSnoc(before, w);
    if n > 0 {
      JoinSize(before);
      OffsetPrefix(words, n, n);
      if i < n {
        JoinAt(before, i);
        OffsetPrefix(words, n, i);
        StaysPlaced(words, before, Join(before), w, i);
      } else {
        JoinedBack(Join(before), w);
      }
    } else {
      assert w[0..|w|] == w;
    }
  }

  lemma {:induction false} StaysPlaced(words: seq<seq<byte>>, before: seq<seq<byte>>, a: seq<byte>, w: seq<byte>,
                                       i: nat)
    requires i < |before| && words == before + [w] && Placed(before, a, i) && Offset(before, i) == Offset(words, i)
    requires |a| == Offset(before, |before|) - 1
    ensures Placed(words, a + [SPACE] + w, i)
  {
    JoinedFront(a, w, Offset(words, i), |words[i]|);
  }

  lemma {:induction false} JoinedBack(a: seq<byte>, w: seq<byte>)
    ensures (a + [SPACE] + w)[|a| + 1..|a| + 1 + |w|] == w
  {
  }

  lemma {:induction false} JoinedFront(a: seq<byte>, w: seq<byte>, at: nat, n: nat)
    requires at + n <= |a|
    ensures (a + [SPACE] + w)[at..at + n] == a[at..at + n]
    ensures at + n < |a| ==> (a + [SPACE] + w)[at + n] == a[at + n]
    ensures (a + [SPACE] + w)[|a|] == SPACE
  {
  }

  lemma {:induction false} OffsetPrefix(words: seq<seq<byte>>, n: nat, i: nat)
    requires i <= |words| && n <= |words|
    ensures i <= n ==> Offset(words[..n], i) == Offset(words, i)
  {
    if 0 < i <= n {
      OffsetPrefix(words, n, i - 1);
    }
  }

  lemma {:induction false} JoinSnoc(words: seq<seq<byte>>, w: seq<byte>)
    ensures Join(words + [w]) == if words == [] then w else Join(words) + [SPACE] + w
    decreases |words|
  {
    if words != [] {
      var all := words + [w];
      assert all[0] == words[0] && all[1..] == words[1..] + [w];
      JoinSnoc(words[1..], w);
      if |words| > 1 {
        assert words[0] + [SPACE] + (Join(words[1..]) + [SPACE] + w)
            == words[0] + [SPACE] + Join(words[1..]) + [SPACE] + w;
      }
    }
  }

  /** The length of the first `k` arguments joined. */
  function Joined(argv: seq<seq<byte>>, k: nat): nat
    requires k <= |argv|
  {
    |Join(argv[..k])|
  }

  lemma {:induction false} JoinedNext(argv: seq<seq<byte>>, k: nat)
    requires k < |argv|
    ensures Join(argv[..k + 1]) == if k == 0 then argv[0] else Join(argv[..k]) + [SPACE] + argv[k]
  {
    assert argv[..k + 1] == argv[..k] + [argv[k]];
    JoinSnoc(argv[..k], argv[k]);
  }

  lemma {:induction false} JoinedGrows(argv: seq<seq<byte>>, i: nat, j: nat)
    requires 1 <= i < j <= |argv|
    ensures Joined(argv, i) < Joined(argv, j)
    decreases j
  {
    JoinedNext(argv, j - 1);
    if i < j - 1 {
      JoinedGrows(argv, i, j - 1);
    }
  }

  /** Some argument's copy ends exactly at the end of the buffer, so that its NUL falls one byte past it. */
  ghost predicate Overruns(argv: seq<seq<byte>>, nbytes: int) {
    exists k :: 1 <= k <= |argv| && Joined(argv, k) == nbytes
  }

  lemma {:induction false} OverrunsOnlyAt(argv: seq<seq<byte>>, k: nat, nbytes: int)
    requires 1 <= k <= |argv|
    requires nbytes <= Joined(argv, k) && (k > 1 ==> Joined(argv, k - 1) < nbytes)
    ensures Overruns(argv, nbytes) <==> Joined(argv, k) == nbytes
    ensures nbytes < Joined(argv, |argv|) + 1
  {
    forall i | 1 <= i <= |argv| && i != k
      ensures Joined(argv, i) != nbytes
    {
      if i < k - 1 {
        JoinedGrows(argv, i, k - 1);
      } else if i > k {
        JoinedGrows(argv, k, i);
      }
    }
    if k < |argv| {
      JoinedGrows(argv, k, |argv|);
    }
  }

  /** `ece391_strcpy` to `buf[at..]`. */
  method StrCpy(buf: array<byte>, at: nat, t: seq<byte>)
    requires at + |t| < buf.Length
    modifies buf
    ensures forall j :: 0 <= j < buf.Length ==>
      buf[j] == if at <= j < at + |t| then t[j - at] else if j == at + |t| then NUL else old(buf[j])
  {
    var i := 0;
    while i < |t|
      invariant 0 <= i <= |t|
      invariant forall j :: 0 <= j < buf.Length ==> buf[j] == if at <= j < at + i then t[j - at] else old(buf[j])
    {
      buf[at + i] := t[i];
      i := i + 1;
    }
    buf[at + i] := NUL;
  }

  /** `ece391_getargs`: it succeeds exactly when the joined arguments and their NUL fit, and then the
      buffer holds them. It may write one byte past the buffer, and does so exactly when some
      argument's copy ends at the buffer's end. */
  method GetArgs(argv: seq<seq<byte>>, buf: array<byte>, nbytes: int) returns (r: int)
    requires nbytes < buf.Length
    modifies buf
    ensures r == if |Join(argv)| + 1 <= nbytes then 0 else -1
    ensures r == 0 ==> buf[..|Join(argv)| + 1] == Join(argv) + [NUL]
    ensures forall j :: 0 <= j < buf.Length && j > nbytes ==> buf[j] == old(buf[j])
    ensures 0 <= nbytes ==> buf[nbytes] == if Overruns(argv, nbytes) then NUL else old(buf[nbytes])
  {
    var idx, at, left := 0, 0, nbytes;
    ghost var text: seq<byte> := [];
    ghost var was := buf[..];
    while idx < |argv|
      invariant 0 <= idx <= |argv| && at + left == nbytes && at == |text| <= buf.Length
      invariant 0 < idx ==> left >= 0
      invariant SoFar(argv, idx, text)
      invariant buf[..at] == text && Outside(was, buf[..], nbytes, 0 < idx == |argv| && left == 0)
    {
      TextGrows(argv, idx, text);
      if |argv[idx]| > left {
        TooLong(argv, idx + 1, nbytes, text + argv[idx]);
        return -1;
      }
      Append(buf, at, argv[idx], nbytes, text, was);
      at, left, text := at + |argv[idx]|, left - |argv[idx]|, text + argv[idx];
      idx := idx + 1;
      if idx >= |argv| {
        break;
      }
      if left < 1 {
        TooLong(argv, idx, nbytes, text);
        return -1;
      }
      PutByte(buf, at, SPACE, nbytes, text, was);
      at, left, text := at + 1, left - 1, text + [SPACE];
    }
    r := EndArgs(argv, buf, at, left, nbytes, text, was);
  }

  /** What has been written before argument `idx`: the earlier ones joined, and a space if another follows. */
  ghost predicate SoFar(argv: seq<seq<byte>>, idx: nat, text: seq<byte>)
    requires idx <= |argv|
  {
    text == if idx == 0 then [] else if idx == |argv| then Join(argv) else Join(argv[..idx]) + [SPACE]
  }

  lemma {:induction false} TextGrows(argv: seq<seq<byte>>, idx: nat, text: seq<byte>)
    requires idx < |argv| && SoFar(argv, idx, text)
    ensures Join(argv[..idx + 1]) == text + argv[idx]
    ensures idx + 1 == |argv| ==> SoFar(argv, idx + 1, text + argv[idx])
    ensures idx + 1 < |argv| ==> SoFar(argv, idx + 1, text + argv[idx] + [SPACE])
    ensures 0 < idx ==> Joined(argv, idx) + 1 == |text|
  {
    JoinedNext(argv, idx);
    assert argv[..|argv|] == argv;
    if idx == 0 {
      EmptyConcat(argv[0]);
    }
  }

  /** The first `k` arguments joined, or with their NUL, do not fit. */
  lemma {:induction false} TooLong(argv: seq<seq<byte>>, k: nat, nbytes: int, text: seq<byte>)
    requires 1 <= k <= |argv| && text == Join(argv[..k]) && nbytes <= |text|
    requires k > 1 ==> Joined(argv, k - 1) < nbytes
    ensures Overruns(argv, nbytes) <==> |text| == nbytes
    ensures nbytes < |Join(argv)| + 1
  {
    OverrunsOnlyAt(argv, k, nbytes);
    assert argv[..|argv|] == argv;
  }

  /** The NUL behind the last argument, if there is room for it. */
  method EndArgs(ghost argv: seq<seq<byte>>, buf: array<byte>, at: nat, left: int, nbytes: int,
                 ghost text: seq<byte>, ghost was: seq<byte>)
    returns (r: int)
    requires at + left == nbytes < buf.Length && at == |text| <= buf.Length && buf[..at] == text
    requires SoFar(argv, |argv|, text) && (argv != [] ==> left >= 0)
    requires Outside(was, buf[..], nbytes, argv != [] && left == 0)
    modifies buf
    ensures r == if |Join(argv)| + 1 <= nbytes then 0 else -1
    ensures r == 0 ==> buf[..|Join(argv)| + 1] == Join(argv) + [NUL]
    ensures Outside(was, buf[..], nbytes, Overruns(argv, nbytes))
  {
    assert argv[..|argv|] == argv;
    if left < 1 {
      NoRoom(argv, nbytes);
      return -1;
    }
    PutByte(buf, at, NUL, nbytes, text, was);
    NoOverrun(argv, nbytes);
    return 0;
  }

  /** Past index `nbytes` nothing has changed; at it, only by a NUL. */
  ghost predicate Outside(was: seq<byte>, now: seq<byte>, nbytes: int, overrun: bool) {
    && |was| == |now|
    && (forall j :: 0 <= j < |now| && j > nbytes ==> now[j] == was[j])
    && (0 <= nbytes < |now| ==> now[nbytes] == if overrun then NUL else was[nbytes])
  }

  method Append(buf: array<byte>, at: nat, t: seq<byte>, nbytes: int, ghost text: seq<byte>, ghost was: seq<byte>)
    requires at + |t| <= nbytes < buf.Length && at == |text| && buf[..at] == text
    requires Outside(was, buf[..], nbytes, false)
    modifies buf
    ensures buf[..at + |t|] == text + t && Outside(was, buf[..], nbytes, at + |t| == nbytes)
  {
    ghost var before := buf[..];
    StrCpy(buf, at, t);
    assert forall j :: 0 <= j < at ==> buf[j] == before[..at][j];
  }

  method PutByte(buf: array<byte>, at: nat, c: byte, nbytes: int, ghost text: seq<byte>, ghost was: seq<byte>)
    requires at < nbytes < buf.Length && at == |text| && buf[..at] == text && Outside(was, buf[..], nbytes, false)
    modifies buf
    ensures buf[..at + 1] == text + [c] && Outside(was, buf[..], nbytes, false)
  {
    ghost var before := buf[..];
    buf[at] := c;
    assert forall j :: 0 <= j < at ==> buf[j] == before[..at][j];
  }

  lemma {:induction false} NoRoom(argv: seq<seq<byte>>, nbytes: int)
    requires nbytes <= Joined(argv, |argv|) && (argv != [] ==> nbytes == Joined(argv, |argv|))
    ensures Overruns(argv, nbytes) <==> argv != []
  {
    if argv != [] {
      assert Joined(argv, |argv|) == nbytes;
    }
  }

  lemma {:induction false} NoOverrun(argv: seq<seq<byte>>, nbytes: int)
    requires Joined(argv, |argv|) < nbytes
    ensures !Overruns(argv, nbytes)
  {
    forall i | 1 <= i <= |argv|
      ensures Joined(argv, i) != nbytes
    {
      if i < |argv| {
        JoinedGrows(argv, i, |argv|);
      }
    }
  }
}
