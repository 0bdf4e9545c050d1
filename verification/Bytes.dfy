/**
 Bytes and the C-string vocabulary shared by the kernel and its user programs.
 A C string handed over as a value is the sequence of its bytes without the terminator.
 */
module Bytes {
  type byte = x: int | 0 <= x < 256

  const NUL: byte := 0
  const NEWLINE: byte := 10
  const RETURN: byte := 13
  const SPACE: byte := 32
  const DOT: byte := 46
  const COLON: byte := 58

  predicate Free(s: seq<byte>, c: byte) {
    forall i :: 0 <= i < |s| ==> s[i] != c
  }

  predicate NulFree(s: seq<byte>) {
    Free(s, NUL)
  }

  function Min(a: int, b: int): int {
    if a < b then a else b
  }

  function Max(a: int, b: int): int {
    if a < b then b else a
  }

  /** The index of the first `c` in `s` at or after `from`, or `|s|`. */
  function IndexOf(s: seq<byte>, c: byte, from: nat := 0): (k: nat)
    requires from <= |s|
    ensures from <= k <= |s|
    ensures forall j :: from <= j < k ==> s[j] != c
    ensures k < |s| ==> s[k] == c
    decreases |s| - from
  {
    if from == |s| || s[from] == c then from else IndexOf(s, c, from + 1)
  }

  /** Its properties determine `IndexOf`. */
  lemma {:induction false} IndexOfIs(s: seq<byte>, c: byte, k: nat, from: nat := 0)
    requires from <= k <= |s|
    requires forall j :: from <= j < k ==> s[j] != c
    requires k < |s| ==> s[k] == c
    ensures IndexOf(s, c, from) == k
  {
  }

  /** A C string lies in the buffer from `at`, with its NUL at `end`. */
  ghost predicate StringIn(buf: array<byte>, at: nat, end: nat)
    reads buf
  {
    at <= end < buf.Length && buf[end] == NUL && forall k :: at <= k < end ==> buf[k] != NUL
  }

  /** `strlen`. */
  method StrLen(buf: array<byte>, at: nat, ghost end: nat) returns (len: nat)
    requires StringIn(buf, at, end)
    ensures at + len == end
  {
    len := 0;
    while buf[at + len] != NUL
      invariant at + len <= end
      decreases end - at - len
    {
      len := len + 1;
    }
  }

  /** `a` with `s` written over the bytes from `at` on. */
  function Splice(a: seq<byte>, at: nat, s: seq<byte>): (r: seq<byte>)
    requires at + |s| <= |a|
    ensures |r| == |a|
  {
    a[..at] + s + a[at + |s|..]
  }

  /** The lines of a file: what newlines separate, including an unterminated last line. */
  function Lines(f: seq<byte>): seq<seq<byte>> {
    var k := IndexOf(f, NEWLINE);
    if k == |f| then [f] else [f[..k]] + Lines(f[k + 1..])
  }

  lemma {:induction false} SubsetCount<T>(a: set<T>, b: set<T>)
    requires a <= b
    ensures |a| <= |b|
    ensures |a| == |b| ==> a == b
  {
    if a != {} {
      var x :| x in a;
      SubsetCount(a - {x}, b - {x});
      assert a == (a - {x}) + {x} && b == (b - {x}) + {x};
    }
  }

  lemma {:induction false} Associative<T>(a: seq<T>, b: seq<T>, c: seq<T>)
    ensures a + (b + c) == (a + b) + c
  {
  }

  lemma {:induction false} EmptyConcat<T>(a: seq<T>)
    ensures a + [] == a && [] + a == a
  {
  }

  lemma {:induction false} MultipleSize(k: int, r: nat)
    ensures k >= 1 ==> k * r >= r
    ensures k <= -1 ==> k * r <= 0 - r
  {
    if k >= 1 {
      assert (k - 1) * r >= 0;
    } else if k <= -1 {
      assert (k + 1) * r <= 0;
    }
  }

  /** Quotient and remainder are determined. */
  lemma {:induction false} DivMod(p: nat, r: nat, d: nat)
    requires d < r
    ensures (p * r + d) / r == p && (p * r + d) % r == d
  {
    var x := p * r + d;
    var q := x / r;
    assert (q - p) * r == d - x % r;
    MultipleSize(q - p, r);
  }
}
