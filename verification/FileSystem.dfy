/**
 The read-only disk image: boot block, inodes and 4 KB data blocks, and `read_data`, which
 walks an inode's block table (student-distrib/filesystem.c, student-distrib/filesystem.h).
 */
module FileSystem {
  import opened Bytes

  const BLOCK_SIZE := 4096
  const TABLE_SIZE := 1023
  const DIR_ENTRIES := 63
  const NAME_SIZE := 32

  datatype Dentry = Dentry(filename: seq<byte>, filetype: int, inode: nat)
  datatype Inode = Inode(length: nat, blocks: seq<int>)
  datatype Image = Image(dirCount: nat, entries: seq<Dentry>, inodes: seq<Inode>, data: seq<seq<byte>>)

  /** What the C structures fix: array sizes, and block numbers and lengths that address memory
      inside the image. A block number may still lie beyond the last data block. */
  ghost predicate Layout(img: Image) {
    && |img.entries| == DIR_ENTRIES
    && img.dirCount <= DIR_ENTRIES
    && (forall i :: 0 <= i < DIR_ENTRIES ==> |img.entries[i].filename| == NAME_SIZE)
    && (forall n :: 0 <= n < |img.inodes| ==> InodeLayout(img.inodes[n]))
    && (forall b :: 0 <= b < |img.data| ==> |img.data[b]| == BLOCK_SIZE)
  }

  ghost predicate InodeLayout(ino: Inode) {
    && |ino.blocks| == TABLE_SIZE
    && ino.length / BLOCK_SIZE < TABLE_SIZE
    && forall b :: 0 <= b < TABLE_SIZE ==> 0 <= ino.blocks[b]
  }

  /** Table entry `b` of inode `n` names a data block that exists. */
  ghost predicate InRange(img: Image, n: nat, b: int)
    requires Layout(img) && n < |img.inodes|
  {
    0 <= b < TABLE_SIZE && img.inodes[n].blocks[b] < |img.data|
  }

  ghost predicate AllInRange(img: Image, n: nat, first: int, last: int)
    requires Layout(img) && n < |img.inodes|
  {
    forall b :: first <= b <= last ==> InRange(img, n, b)
  }

  /** Entries 0 through length/4096 inclusive: the last one is entered even when the length is
      a multiple of the block size. */
  ghost predicate SoundInode(img: Image, n: nat)
    requires Layout(img) && n < |img.inodes|
  {
    AllInRange(img, n, 0, img.inodes[n].length / BLOCK_SIZE)
  }

  const RTC_TYPE := 0
  const DIR_TYPE := 1
  const FILE_TYPE := 2

  ghost predicate WellFormed(img: Image) {
    && Layout(img)
    && (forall n :: 0 <= n < |img.inodes| ==> SoundInode(img, n))
    && (forall i :: 0 <= i < img.dirCount && img.entries[i].filetype == FILE_TYPE ==>
          img.entries[i].inode < |img.inodes|)
  }

  /** Byte `p` of the file, wherever its block lies. */
  function ByteAt(img: Image, n: nat, p: nat): byte
    requires Layout(img) && n < |img.inodes| && InRange(img, n, p / BLOCK_SIZE)
  {
    img.data[img.inodes[n].blocks[p / BLOCK_SIZE]][p % BLOCK_SIZE]
  }

  /** The file as one flat byte sequence. */
  ghost function File(img: Image, n: nat): (f: seq<byte>)
    requires Layout(img) && n < |img.inodes| && SoundInode(img, n)
    ensures |f| == img.inodes[n].length
  {
    seq(img.inodes[n].length, p requires 0 <= p < img.inodes[n].length =>
      assert p / BLOCK_SIZE <= img.inodes[n].length / BLOCK_SIZE;
      ByteAt(img, n, p))
  }

  /** The data blocks of the first `count` table entries, one after the other. */
  ghost function Blocks(img: Image, n: nat, count: nat): seq<byte>
    requires Layout(img) && n < |img.inodes| && AllInRange(img, n, 0, count - 1)
  {
    if count == 0 then []
    else
      assert InRange(img, n, count - 1);
      Blocks(img, n, count - 1) + img.data[img.inodes[n].blocks[count - 1]]
  }

  lemma {:induction false} BlocksAt(img: Image, n: nat, count: nat)
    requires Layout(img) && n < |img.inodes| && AllInRange(img, n, 0, count - 1)
    ensures |Blocks(img, n, count)| == count * BLOCK_SIZE
    ensures forall p :: 0 <= p < count * BLOCK_SIZE ==>
      p / BLOCK_SIZE < count && Blocks(img, n, count)[p] == ByteAt(img, n, p)
  {
    if count > 0 {
      BlocksAt(img, n, count - 1);
      assert InRange(img, n, count - 1);
      forall p | 0 <= p < count * BLOCK_SIZE
        ensures p / BLOCK_SIZE < count && Blocks(img, n, count)[p] == ByteAt(img, n, p)
      {
        if p >= (count - 1) * BLOCK_SIZE {
          assert p / BLOCK_SIZE == count - 1 && p % BLOCK_SIZE == p - (count - 1) * BLOCK_SIZE;
        }
      }
    }
  }

  /** The file is the first bytes of its data blocks, joined in the order of the table. */
  lemma {:induction false} FileIsBlocks(img: Image, n: nat)
    requires Layout(img) && n < |img.inodes| && SoundInode(img, n)
    ensures var length := img.inodes[n].length;
      var joined := Blocks(img, n, length / BLOCK_SIZE + 1);
      length <= |joined| && File(img, n) == joined[..length]
  {
    BlocksAt(img, n, img.inodes[n].length / BLOCK_SIZE + 1);
  }

  /** How many bytes a read may deliver: what was asked for, cut at the end of the file. */
  function Wanted(ino: Inode, offset: nat, length: nat): (w: nat)
    ensures w <= length
  {
    if ino.length <= offset then 0 else Min(length, ino.length - offset)
  }

  /** The last block a read enters. A read that runs into the end of the file also enters the
      block of the position after its last byte. */
  function LastBlock(ino: Inode, offset: nat, length: nat): nat {
    if length == 0 then offset / BLOCK_SIZE
    else (offset + Min(length - 1, Wanted(ino, offset, length))) / BLOCK_SIZE
  }

  /** When `read_data` answers -1. */
  ghost predicate ReadFails(img: Image, n: nat, offset: nat, length: nat)
    requires Layout(img)
  {
    n >= |img.inodes| || !AllInRange(img, n, offset / BLOCK_SIZE, LastBlock(img.inodes[n], offset, length))
  }

  /** Byte `i` of the read is copied: it lies in the file and no block up to its own is out of range. */
  ghost predicate Copied(img: Image, n: nat, offset: nat, length: nat, i: int)
    requires Layout(img)
  {
    && n < |img.inodes|
    && 0 <= i < Wanted(img.inodes[n], offset, length)
    && AllInRange(img, n, offset / BLOCK_SIZE, (offset + i) / BLOCK_SIZE)
  }

  lemma {:induction false} BlockMono(p: nat, q: nat)
    requires p <= q
    ensures p / BLOCK_SIZE <= q / BLOCK_SIZE
  {
  }

  /** `read_data`: copies at most `length` bytes from `offset` to `buf[base..]`. */
  method ReadData(img: Image, n: nat, offset: nat, buf: array<byte>, base: nat, length: nat) returns (r: int)
    requires Layout(img)
    requires n < |img.inodes| ==> offset / BLOCK_SIZE < TABLE_SIZE
    requires n < |img.inodes| ==> base + Wanted(img.inodes[n], offset, length) <= buf.Length
    modifies buf
    ensures r == if ReadFails(img, n, offset, length) then -1 else Wanted(img.inodes[n], offset, length)
    ensures forall j :: 0 <= j < buf.Length ==>
      buf[j] == if Copied(img, n, offset, length, j - base) then ByteAt(img, n, offset + (j - base)) else old(buf[j])
  {
    if n >= |img.inodes| {
      return -1;
    }
    var ino := img.inodes[n];
    var dblock := offset / BLOCK_SIZE;
    var dindex := offset % BLOCK_SIZE;
    if ino.blocks[dblock] >= |img.data| {
      assert !InRange(img, n, dblock);
      BlockMono(offset, offset + Min(Max(length - 1, 0), Wanted(ino, offset, length)));
      return -1;
    }
    var source := ino.blocks[dblock];
    ghost var w := Wanted(ino, offset, length);
    var i := 0;
    while i < length
      invariant 0 <= i <= w
      invariant 0 <= dindex <= BLOCK_SIZE
      invariant dblock < TABLE_SIZE && source == ino.blocks[dblock]
      invariant dblock * BLOCK_SIZE + dindex == offset + i
      invariant i == 0 ==> dindex < BLOCK_SIZE
      invariant AllInRange(img, n, offset / BLOCK_SIZE, dblock)
      invariant offset / BLOCK_SIZE <= dblock
      invariant forall j :: 0 <= j < buf.Length ==>
        buf[j] == if base <= j < base + i then ByteAt(img, n, offset + (j - base)) else old(buf[j])
    {
      if dindex >= BLOCK_SIZE {
        dindex := 0;
        dblock := dblock + 1;
        assert dblock == (offset + i) / BLOCK_SIZE;
        BlockMono(offset + i, offset + w);
        assert offset + w <= Max(offset, ino.length);
        BlockMono(offset + w, Max(offset, ino.length));
        if ino.blocks[dblock] >= |img.data| {
          assert !InRange(img, n, dblock);
          BlockMono(offset + i, offset + Min(length - 1, w));
          StopsAt(img, n, offset, length, i, dblock);
          return -1;
        }
        source := ino.blocks[dblock];
      }
      if ino.length <= i + offset {
        Complete(img, n, offset, length, i, dblock);
        return i;
      }
      assert InRange(img, n, dblock);
      buf[base + i] := img.data[source][dindex];
      dindex := dindex + 1;
      i := i + 1;
    }
    Complete(img, n, offset, length, i, dblock);
    return i;
  }

  lemma {:induction false} StopsAt(img: Image, n: nat, offset: nat, length: nat, i: nat, b: nat)
    requires Layout(img) && n < |img.inodes|
    requires i <= Wanted(img.inodes[n], offset, length)
    requires b * BLOCK_SIZE == offset + i && b < TABLE_SIZE
    requires AllInRange(img, n, offset / BLOCK_SIZE, b - 1) && !InRange(img, n, b)
    requires offset / BLOCK_SIZE < b
    ensures forall k :: Copied(img, n, offset, length, k) <==> 0 <= k < i
  {
    forall k: int
      ensures Copied(img, n, offset, length, k) <==> 0 <= k < i
    {
      if 0 <= k < i {
        assert (offset + k) / BLOCK_SIZE <= b - 1;
      } else if i <= k {
        BlockMono(offset + i, offset + k);
      }
    }
  }

  lemma {:induction false} Complete(img: Image, n: nat, offset: nat, length: nat, i: nat, b: nat)
    requires Layout(img) && n < |img.inodes|
    requires i == Wanted(img.inodes[n], offset, length)
    requires AllInRange(img, n, offset / BLOCK_SIZE, b)
    requires b * BLOCK_SIZE <= offset + i <= b * BLOCK_SIZE + BLOCK_SIZE
    requires i < length ==> offset + i < b * BLOCK_SIZE + BLOCK_SIZE
    requires i == 0 ==> b == offset / BLOCK_SIZE
    ensures !ReadFails(img, n, offset, length)
    ensures forall k :: Copied(img, n, offset, length, k) <==> 0 <= k < i
  {
    assert LastBlock(img.inodes[n], offset, length) <= b;
    forall k | 0 <= k < i
      ensures Copied(img, n, offset, length, k)
    {
      assert (offset + k) / BLOCK_SIZE <= b;
    }
  }

  /** On a sound inode every read inside the file succeeds and delivers the flat file's slice. */
  lemma {:induction false} SoundReads(img: Image, n: nat, offset: nat, length: nat)
    requires Layout(img) && n < |img.inodes| && SoundInode(img, n)
    requires offset <= img.inodes[n].length
    ensures !ReadFails(img, n, offset, length)
    ensures Wanted(img.inodes[n], offset, length) == Min(length, |File(img, n)| - offset)
    ensures forall i :: 0 <= i < Wanted(img.inodes[n], offset, length) ==>
      Copied(img, n, offset, length, i) && ByteAt(img, n, offset + i) == File(img, n)[offset + i]
  {
    var ino := img.inodes[n];
    BlockMono(offset, ino.length);
    BlockMono(offset + Min(Max(length - 1, 0), Wanted(ino, offset, length)), ino.length);
    assert !ReadFails(img, n, offset, length);
    forall i | 0 <= i < Wanted(ino, offset, length)
      ensures Copied(img, n, offset, length, i) && ByteAt(img, n, offset + i) == File(img, n)[offset + i]
    {
      BlockMono(offset + i, ino.length);
    }
  }

  /** `read_data` refines the flat file. */
  method ReadSlice(img: Image, n: nat, offset: nat, buf: array<byte>, base: nat, length: nat) returns (r: int)
    requires Layout(img) && n < |img.inodes| && SoundInode(img, n)
    requires offset <= img.inodes[n].length
    requires base + Min(length, img.inodes[n].length - offset) <= buf.Length
    modifies buf
    ensures r == Min(length, |File(img, n)| - offset)
    ensures buf[..] == Splice(old(buf[..]), base, File(img, n)[offset..offset + r])
  {
    BlockMono(offset, img.inodes[n].length);
    SoundReads(img, n, offset, length);
    r := ReadData(img, n, offset, buf, base, length);
  }
}
