/**
 The loop of `sys_execute` that copies a program into memory in 100-byte reads
 (student-distrib/system_call.c).
 */
module Loader {
  import opened Bytes
  import opened FileSystem

  const READ_SIZE := 100

  /** On a sound inode the loop ends with the whole file in memory, whatever its length. */
  method LoadProgram(img: Image, n: nat, mem: array<byte>, base: nat) returns (l: int)
    requires Layout(img) && n < |img.inodes| && SoundInode(img, n)
    requires base + img.inodes[n].length <= mem.Length
    modifies mem
    ensures l == |File(img, n)|
    ensures mem[..] == Splice(old(mem[..]), base, File(img, n))
  {
    ghost var file := File(img, n);
    ghost var before := mem[..];
    assert before == Splice(before, base, file[..0]);
    var done := false;
    var k := LoadChunk(img, n, mem, base, 0, before, file);
    l := k;
    while k != 0 || !done
      invariant 0 <= l <= |file|
      invariant mem[..] == Splice(before, base, file[..l])
      invariant done || k == 0 ==> l == |file|
      decreases |file| - l, k != 0 || !done
    {
      k := LoadChunk(img, n, mem, base, l, before, file);
      if k != READ_SIZE {
        done := true;
      }
      l := l + k;
    }
    assert file[..l] == file;
  }

  /** One read of the loop, from position `l` of the file to its place in memory. */
  method LoadChunk(img: Image, n: nat, mem: array<byte>, base: nat, l: nat,
                   ghost before: seq<byte>, ghost file: seq<byte>)
    returns (k: int)
    requires Layout(img) && n < |img.inodes| && SoundInode(img, n) && file == File(img, n)
    requires base + |file| <= mem.Length == |before| && l <= |file|
    requires mem[..] == Splice(before, base, file[..l])
    modifies mem
    ensures k == Min(READ_SIZE, |file| - l)
    ensures mem[..] == Splice(before, base, file[..l + k])
  {
    SpliceExtends(before, base, file, l, l + Min(READ_SIZE, |file| - l));
    k := ReadSlice(img, n, l, mem, base + l, READ_SIZE);
  }

  lemma {:induction false} SpliceExtends(a: seq<byte>, base: nat, file: seq<byte>, l: nat, m: nat)
    requires l <= m <= |file| && base + |file| <= |a|
    ensures Splice(Splice(a, base, file[..l]), base + l, file[l..m]) == Splice(a, base, file[..m])
  {
  }

  /** The loop's variables. */
  datatype Progress = Progress(k: int, l: int, done: bool) {
    predicate Stopped() {
      k == 0 && done
    }
  }

  /** What `read_data` answers to the loop's request at position `l`. */
  ghost function Answer(img: Image, n: nat, l: int): int
    requires Layout(img) && n < |img.inodes|
  {
    if l < 0 || ReadFails(img, n, l, READ_SIZE) then -1 else Wanted(img.inodes[n], l, READ_SIZE)
  }

  /** The variables after `rounds` passes on any image, sound or not. */
  ghost function Iterate(img: Image, n: nat, rounds: nat): Progress
    requires Layout(img) && n < |img.inodes|
  {
    if rounds == 0 then
      var k := Answer(img, n, 0);
      Progress(k, k, false)
    else
      var p := Iterate(img, n, rounds - 1);
      if p.Stopped() then p
      else
        var k := Answer(img, n, p.l);
        Progress(k, p.l + k, p.done || k != READ_SIZE)
  }

  ghost predicate StoppedAfter(img: Image, n: nat, rounds: nat)
    requires Layout(img) && n < |img.inodes|
  {
    Iterate(img, n, rounds).Stopped()
  }

  lemma {:induction false} SoundProgress(img: Image, n: nat, rounds: nat)
    requires Layout(img) && n < |img.inodes| && SoundInode(img, n)
    ensures Iterate(img, n, rounds).l == Min(READ_SIZE * (rounds + 1), img.inodes[n].length)
  {
    if rounds == 0 {
      SoundReads(img, n, 0, READ_SIZE);
    } else {
      SoundProgress(img, n, rounds - 1);
      var p := Iterate(img, n, rounds - 1);
      SoundReads(img, n, p.l, READ_SIZE);
      if p.Stopped() {
        StoppedAtEnd(img, n, rounds - 1);
      }
    }
  }

  lemma {:induction false} StoppedAtEnd(img: Image, n: nat, rounds: nat)
    requires Layout(img) && n < |img.inodes| && SoundInode(img, n)
    requires Iterate(img, n, rounds).Stopped()
    requires 0 <= Iterate(img, n, rounds).l <= img.inodes[n].length
    ensures Iterate(img, n, rounds).l == img.inodes[n].length
  {
    if rounds > 0 {
      var p := Iterate(img, n, rounds - 1);
      if p.Stopped() {
        StoppedAtEnd(img, n, rounds - 1);
      } else {
        SoundReads(img, n, p.l, READ_SIZE);
      }
    }
  }

  /** Stuck before block `b`: the position never passes it and no read is ever empty. */
  lemma {:induction false} NeverStops(img: Image, n: nat, b: nat, rounds: nat)
    requires Layout(img) && n < |img.inodes|
    requires 1 <= b <= img.inodes[n].length / BLOCK_SIZE
    requires AllInRange(img, n, 0, b - 1) && !InRange(img, n, b)
    ensures var p := Iterate(img, n, rounds); p.k != 0 && 0 <= p.l <= b * BLOCK_SIZE
  {
    var ino := img.inodes[n];
    var l := 0;
    if rounds > 0 {
      NeverStops(img, n, b, rounds - 1);
      l := Iterate(img, n, rounds - 1).l;
    }
    assert b * BLOCK_SIZE <= ino.length;
    assert Wanted(ino, l, READ_SIZE) >= Min(READ_SIZE, b * BLOCK_SIZE - l);
    if l + READ_SIZE <= b * BLOCK_SIZE {
      assert LastBlock(ino, l, READ_SIZE) <= b - 1;
      assert !ReadFails(img, n, l, READ_SIZE);
    } else {
      BlockMono(b * BLOCK_SIZE, l + Min(READ_SIZE - 1, Wanted(ino, l, READ_SIZE)));
      assert l / BLOCK_SIZE <= b <= LastBlock(ino, l, READ_SIZE);
      assert ReadFails(img, n, l, READ_SIZE);
    }
  }

  /** For a file whose first block can be read, the loading loop terminates if and only if the
      block numbers up to entry length/4096 inclusive are all in range. */
  lemma {:induction false} LoaderTerminatesIff(img: Image, n: nat)
    requires Layout(img) && n < |img.inodes| && InRange(img, n, 0)
    ensures (exists rounds: nat :: StoppedAfter(img, n, rounds)) <==> SoundInode(img, n)
  {
    var ino := img.inodes[n];
    if SoundInode(img, n) {
      var r: nat := ino.length / READ_SIZE + 1;
      SoundProgress(img, n, r - 1);
      SoundReads(img, n, ino.length, READ_SIZE);
      assert StoppedAfter(img, n, r);
    } else {
      var b := FirstBad(img, n, 1);
      forall rounds: nat
        ensures !StoppedAfter(img, n, rounds)
      {
        NeverStops(img, n, b, rounds);
      }
    }
  }

  lemma {:induction false} FirstBad(img: Image, n: nat, from: nat) returns (b: nat)
    requires Layout(img) && n < |img.inodes| && from >= 1
    requires AllInRange(img, n, 0, from - 1) && !SoundInode(img, n)
    ensures from <= b <= img.inodes[n].length / BLOCK_SIZE
    ensures AllInRange(img, n, 0, b - 1) && !InRange(img, n, b)
    decreases img.inodes[n].length / BLOCK_SIZE - from
  {
    if !InRange(img, n, from) {
      b := from;
    } else {
      b := FirstBad(img, n, from + 1);
    }
  }
}
