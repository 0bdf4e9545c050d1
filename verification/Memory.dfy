/**
 The memory routines of the kernel: byte head, dword bulk, byte tail, and the copy that chooses its
 direction (student-distrib/lib.c). Memory is an array and an address is an index into it.
 */
module Memory {
  import opened Bytes

  /** The first `i` of the bytes from `src` have reached `dest`. */
  ghost predicate CopiedTo(was: seq<byte>, now: seq<byte>, dest: nat, src: nat, i: nat)
    requires dest + i <= |was| && src + i <= |was|
  {
    |now| == |was| && forall k {:trigger now[k]} :: 0 <= k < |was| ==>
      now[k] == if dest <= k < dest + i then was[src + (k - dest)] else was[k]
  }

  /** Bytes not yet copied are still what they were. */
  ghost predicate Apart(dest: nat, src: nat, n: nat) {
    dest <= src || src + n <= dest
  }

  /** One byte of a forward copy. */
  method MoveByte(mem: array<byte>, dest: nat, src: nat, i: nat, ghost n: nat, ghost was: seq<byte>)
    requires i < n && dest + n <= mem.Length == |was| && src + n <= mem.Length && Apart(dest, src, n)
    requires CopiedTo(was, mem[..], dest, src, i)
    modifies mem
    ensures CopiedTo(was, mem[..], dest, src, i + 1)
  {
    assert mem[..][src + i] == was[src + i];
    mem[dest + i] := mem[src + i];
  }

  /** One dword of it: four bytes are read before any is written. */
  method MoveDword(mem: array<byte>, dest: nat, src: nat, i: nat, ghost n: nat, ghost was: seq<byte>)
    requires i + 4 <= n && dest + n <= mem.Length == |was| && src + n <= mem.Length && Apart(dest, src, n)
    requires CopiedTo(was, mem[..], dest, src, i)
    modifies mem
    ensures CopiedTo(was, mem[..], dest, src, i + 4)
  {
    var d, s := dest + i, src + i;
    assert mem[..][s] == was[s] && mem[..][s + 1] == was[s + 1];
    assert mem[..][s + 2] == was[s + 2] && mem[..][s + 3] == was[s + 3];
    mem[d], mem[d + 1], mem[d + 2], mem[d + 3] := mem[s], mem[s + 1], mem[s + 2], mem[s + 3];
  }

  /** `memcpy`: for every alignment and length it is the byte-by-byte copy, when the areas do not
      overlap, and also when the destination starts first. */
  method MemCpy(mem: array<byte>, dest: nat, src: nat, n: nat)
    requires dest + n <= mem.Length && src + n <= mem.Length && Apart(dest, src, n)
    modifies mem
    ensures mem[..] == Splice(old(mem[..]), dest, old(mem[src..src + n]))
  {
    ghost var was := mem[..];
    var i := 0;
    while i != n && (dest + i) % 4 != 0
      invariant 0 <= i <= n && CopiedTo(was, mem[..], dest, src, i)
      decreases n - i
    {
      MoveByte(mem, dest, src, i, n, was);
      i := i + 1;
    }
    var dwords, tail := (n - i) / 4, (n - i) % 4;
    while dwords > 0
      invariant 0 <= dwords && 0 <= tail < 4 && i + 4 * dwords + tail == n && CopiedTo(was, mem[..], dest, src, i)
      decreases dwords
    {
      MoveDword(mem, dest, src, i, n, was);
      i := i + 4;
      dwords := dwords - 1;
    }
    while tail > 0
      invariant 0 <= tail && i + tail == n && CopiedTo(was, mem[..], dest, src, i)
      decreases tail
    {
      MoveByte(mem, dest, src, i, n, was);
      i := i + 1;
      tail := tail - 1;
    }
    CopiedIsSplice(was, mem[..], dest, src, n);
  }

  lemma {:induction false} CopiedIsSplice(was: seq<byte>, now: seq<byte>, dest: nat, src: nat, n: nat)
    requires dest + n <= |was| && src + n <= |was| && CopiedTo(was, now, dest, src, n)
    ensures now == Splice(was, dest, was[src..src + n])
  {
  }

  /** `memmove`: upwards from the front or downwards from the back, the old source arrives for
      every overlap. */
  method MemMove(mem: array<byte>, dest: nat, src: nat, n: nat)
    requires dest + n <= mem.Length && src + n <= mem.Length
    modifies mem
    ensures mem[..] == Splice(old(mem[..]), dest, old(mem[src..src + n]))
  {
    ghost var was := mem[..];
    if src >= dest {
      var i := 0;
      while i < n
        invariant 0 <= i <= n && CopiedTo(was, mem[..], dest, src, i)
      {
        MoveByte(mem, dest, src, i, n, was);
        i := i + 1;
      }
      CopiedIsSplice(was, mem[..], dest, src, n);
    } else {
      var i := n;
      while i > 0
        invariant 0 <= i <= n
        invariant forall k {:trigger mem[k]} :: 0 <= k < mem.Length ==>
          mem[k] == if dest + i <= k < dest + n then was[src + (k - dest)] else was[k]
        decreases i
      {
        i := i - 1;
        mem[dest + i] := mem[src + i];
      }
      assert CopiedTo(was, mem[..], dest, src, n);
      CopiedIsSplice(was, mem[..], dest, src, n);
    }
  }

  ghost predicate SetTo(was: seq<byte>, now: seq<byte>, s: nat, c: byte, i: nat) {
    |now| == |was| && forall k {:trigger now[k]} :: 0 <= k < |was| ==> now[k] == if s <= k < s + i then c else was[k]
  }

  /** `memset`: the low byte of `c` in each of the `n` bytes, for every alignment. */
  method MemSet(mem: array<byte>, s: nat, c: int, n: nat)
    requires s + n <= mem.Length
    modifies mem
    ensures forall k :: 0 <= k < mem.Length ==> mem[k] == if s <= k < s + n then c % 256 else old(mem[k])
  {
    ghost var was := mem[..];
    var b: byte := c % 256;
    var i := 0;
    while i != n && (s + i) % 4 != 0
      invariant 0 <= i <= n && SetTo(was, mem[..], s, b, i)
      decreases n - i
    {
      mem[s + i] := b;
      i := i + 1;
    }
    var dwords, tail := (n - i) / 4, (n - i) % 4;
    while dwords > 0
      invariant 0 <= dwords && 0 <= tail < 4 && i + 4 * dwords + tail == n && SetTo(was, mem[..], s, b, i)
      decreases dwords
    {
      mem[s + i], mem[s + i + 1], mem[s + i + 2], mem[s + i + 3] := b, b, b, b;
      i := i + 4;
      dwords := dwords - 1;
    }
    while tail > 0
      invariant 0 <= tail && i + tail == n && SetTo(was, mem[..], s, b, i)
      decreases tail
    {
      mem[s + i] := b;
      i := i + 1;
      tail := tail - 1;
    }
    assert forall k :: 0 <= k < mem.Length ==> mem[k] == mem[..][k];
  }
}
