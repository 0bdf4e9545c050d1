/**
 The keyboard line buffer as an abstract line (student-distrib/keyboard.c, student-distrib/terminal.c).
 */
module LineEditor {
  import opened Bytes
  import opened Console

  const LINE_MAX := 127

  datatype Key = Press(c: byte) | Erase

  /** The line a user sees, and whether it has been full since it was last empty by a read. */
  datatype Edit = Edit(line: seq<byte>, wasFull: bool)

  function Edited(e: Edit, k: Key): Edit {
    match k
    case Press(c) =>
      if |e.line| < LINE_MAX then Edit(e.line + [c], e.wasFull || |e.line| + 1 == LINE_MAX) else e
    case Erase => if e.line == [] then e else e.(line := e.line[..|e.line| - 1])
  }

  function EditAll(keys: seq<Key>): Edit {
    if keys == [] then Edit([], false) else Edited(EditAll(keys[..|keys| - 1]), keys[|keys| - 1])
  }

  function Struck(l: Line, k: Key): (r: Line)
    requires LineOk(l)
    ensures LineOk(r)
  {
    match k
    case Press(c) => TypeKey(l, c)
    case Erase => EraseKey(l)
  }

  function StrikeAll(keys: seq<Key>): (r: Line)
    ensures LineOk(r)
  {
    if keys == [] then EmptyLine() else Struck(StrikeAll(keys[..|keys| - 1]), keys[|keys| - 1])
  }

  ghost predicate Characters(keys: seq<Key>) {
    forall i :: 0 <= i < |keys| && keys[i].Press? ==> keys[i].c != NUL
  }

  /** The buffer holds the line, zeros behind it, and in its last cell a newline once it has been full. */
  ghost predicate Holds(l: Line, e: Edit) {
    && LineOk(l) && l.end == |e.line| && NulFree(e.line)
    && (forall i :: 0 <= i < |e.line| ==> l.keys[i] == e.line[i])
    && (forall i :: |e.line| <= i < LINE_MAX ==> l.keys[i] == NUL)
    && l.keys[LINE_MAX] == (if e.wasFull then NEWLINE else NUL)
    && (|e.line| == LINE_MAX ==> e.wasFull)
  }

  lemma {:induction false} StrikeHolds(l: Line, e: Edit, k: Key)
    requires Holds(l, e) && (k.Press? ==> k.c != NUL)
    ensures Holds(Struck(l, k), Edited(e, k))
  {
  }

  /** After any keys the buffer holds the edited line. */
  lemma {:induction false} EditorRefines(keys: seq<Key>)
    requires Characters(keys)
    ensures Holds(StrikeAll(keys), EditAll(keys))
  {
    if keys != [] {
      EditorRefines(keys[..|keys| - 1]);
      StrikeHolds(StrikeAll(keys[..|keys| - 1]), EditAll(keys[..|keys| - 1]), keys[|keys| - 1]);
    }
  }

  /** What a read can find: the line and its newline, and a second newline when the line has 126
      characters after having been full. */
  function Submitted(e: Edit): seq<byte> {
    e.line + [NEWLINE] + if e.wasFull && |e.line| == LINE_MAX - 1 then [NEWLINE] else []
  }

  lemma {:induction false} EnterShows(l: Line, e: Edit)
    requires Holds(l, e)
    ensures IndexOf(EnterKey(l).keys, NUL) == |Submitted(e)|
    ensures EnterKey(l).keys[..|Submitted(e)|] == Submitted(e)
  {
    var keys, text := EnterKey(l).keys, Submitted(e);
    assert forall i :: 0 <= i < |text| ==> keys[i] == text[i] != NUL;
    IndexOfIs(keys, NUL, |text|);
  }

  /** Any keys, then Enter, then a read of `n` bytes: the first `n` bytes of the submitted line. The
      buffer holds a NUL, so that a longer read does not run past it, exactly when the submitted line
      does not fill it. A long enough read gives the line and one newline if and only if the line did not
      come back from full to 126 characters. */
  lemma {:induction false} EnterThenRead(keys: seq<Key>, n: nat)
    requires Characters(keys) && (n <= KEYS_SIZE || |Submitted(EditAll(keys))| < KEYS_SIZE)
    ensures var after, e := EnterKey(StrikeAll(keys)).keys, EditAll(keys);
      var got := Taken(after, n);
      && (NUL in after <==> |Submitted(e)| < KEYS_SIZE)
      && got == Submitted(e)[..Min(n, |Submitted(e)|)]
      && (n >= KEYS_SIZE ==> (got == e.line + [NEWLINE] <==> !(e.wasFull && |e.line| == LINE_MAX - 1)))
  {
    EditorRefines(keys);
    EnterShows(StrikeAll(keys), EditAll(keys));
    var after, e := EnterKey(StrikeAll(keys)).keys, EditAll(keys);
    NulInside(after);
    if n >= KEYS_SIZE {
      assert Submitted(e)[..|Submitted(e)|] == Submitted(e);
      EmptyConcat(e.line + [NEWLINE]);
    }
  }

  lemma {:induction false} NulInside(s: seq<byte>)
    ensures NUL in s <==> IndexOf(s, NUL) < |s|
  {
  }
}
