/**
 The descriptor table of a process and the calls that work on it
 (student-distrib/system_call.c, student-distrib/filesystem.c).
 */
module Descriptors {
  import opened Bytes
  import opened FileSystem
  import opened Directory

  const PCB_LENGTH := 8

  datatype Ops = NoOps | StdOps | DirOps | FileOps | RtcOps
  datatype Fd = Fd(flags: int, inode: int, position: int, ops: Ops)

  /** What a call comes back with. `Device`: handed to the terminal driver. `Fault`: the kernel
      follows a null or wild pointer. */
  datatype Answer = Ret(value: int) | Device | Fault

  const CLEARED := Fd(0, -1, 0, NoOps)

  /** What `sys_execute` hands to a new program (`Nesting.EnteredTable`): the standard descriptors, and
      six free ones whose inode fields may hold anything. */
  ghost predicate StartTable(fds: seq<Fd>) {
    && |fds| == PCB_LENGTH && fds[0].ops == StdOps && fds[1].ops == StdOps
    && forall fd :: 2 <= fd < PCB_LENGTH ==> fds[fd].flags == 0 && fds[fd].position == 0 && fds[fd].ops == NoOps
  }

  // ----- what each call does, on values -----

  function LowestFree(fds: seq<Fd>, from: nat := 2): (i: nat)
    requires |fds| == PCB_LENGTH && from <= PCB_LENGTH
    ensures from <= i <= PCB_LENGTH
    ensures i < PCB_LENGTH ==> fds[i].flags == 0
    ensures forall j :: from <= j < i ==> fds[j].flags != 0
    decreases PCB_LENGTH - from
  {
    if from == PCB_LENGTH || fds[from].flags == 0 then from else LowestFree(fds, from + 1)
  }

  function OpsFor(filetype: int, old_: Ops): Ops {
    if filetype == RTC_TYPE then RtcOps
    else if filetype == DIR_TYPE then DirOps
    else if filetype == FILE_TYPE then FileOps
    else old_
  }

  function OpenStep(img: Image, fds: seq<Fd>, name: seq<byte>): (seq<Fd>, Answer)
    requires Layout(img) && |fds| == PCB_LENGTH
  {
    var i := LowestFree(fds);
    if i == PCB_LENGTH then (fds, Ret(-1))
    else match EntryNamed(img, name)
      case None => (fds, Ret(-1))
      case Some(d) => (fds[i := Fd(1, d.inode, 0, OpsFor(d.filetype, fds[i].ops))], Ret(i))
  }

  function CloseStep(fds: seq<Fd>, fd: int): (seq<Fd>, Answer)
    requires |fds| == PCB_LENGTH
  {
    if fd < 2 || fd > PCB_LENGTH - 1 then (fds, Ret(-1))
    else if fds[fd].flags == 0 then (fds[fd := fds[fd].(ops := DirOps)], Ret(-1))
    else (fds[fd := fds[fd].(ops := DirOps, flags := 0)], Ret(0))
  }

  /** The inode number or position is no index into the image's tables. */
  predicate Wild(img: Image, f: Fd) {
    f.inode < 0 || f.position < 0 || (f.inode < |img.inodes| && f.position / BLOCK_SIZE >= TABLE_SIZE)
  }

  /** `file_read` on an open descriptor: a failed `read_data` moves the position back by one
      and is reported as 0 bytes. */
  ghost function FileReadStep(img: Image, f: Fd, n: nat): (Fd, Answer, seq<byte>)
    requires Layout(img)
  {
    if Wild(img, f) then
      (f, Fault, [])
    else if ReadFails(img, f.inode, f.position, n) then
      (f.(position := f.position - 1), Ret(0), [])
    else
      var w := Wanted(img.inodes[f.inode], f.position, n);
      (f.(position := f.position + w), Ret(w), Delivered(img, f.inode, f.position, n))
  }

  lemma {:induction false} CopiedDown(img: Image, n: nat, offset: nat, length: nat, i: nat, j: nat)
    requires Layout(img) && i <= j && Copied(img, n, offset, length, j)
    ensures Copied(img, n, offset, length, i)
  {
    BlockMono(offset + i, offset + j);
  }

  lemma {:induction false} CopiedStops(img: Image, n: nat, offset: nat, length: nat, i: nat)
    requires Layout(img) && !Copied(img, n, offset, length, i)
    ensures forall j :: i <= j ==> !Copied(img, n, offset, length, j)
  {
    forall j | i <= j
      ensures !Copied(img, n, offset, length, j)
    {
      if Copied(img, n, offset, length, j) {
        CopiedDown(img, n, offset, length, i, j);
      }
    }
  }

  /** How many bytes `read_data` copies, also when it then fails. */
  ghost function CopiedLen(img: Image, n: nat, offset: nat, length: nat, i: nat := 0): (k: nat)
    requires Layout(img) && (forall j :: 0 <= j < i ==> Copied(img, n, offset, length, j))
    ensures i <= k && forall j :: Copied(img, n, offset, length, j) <==> 0 <= j < k
    decreases length - i
  {
    if Copied(img, n, offset, length, i) then CopiedLen(img, n, offset, length, i + 1)
    else
      CopiedStops(img, n, offset, length, i);
      i
  }

  /** The bytes `read_data` leaves in the buffer. */
  ghost function Delivered(img: Image, n: nat, offset: nat, length: nat): (s: seq<byte>)
    requires Layout(img)
    ensures |s| == CopiedLen(img, n, offset, length)
  {
    var k := CopiedLen(img, n, offset, length);
    seq<byte>(k, i requires 0 <= i < k =>
      assert Copied(img, n, offset, length, i);
      ByteAt(img, n, offset + i))
  }

  /** A read that does not fail copies all it wants. */
  lemma {:induction false} CopiedAll(img: Image, n: nat, offset: nat, length: nat)
    requires Layout(img) && !ReadFails(img, n, offset, length)
    ensures CopiedLen(img, n, offset, length) == Wanted(img.inodes[n], offset, length)
  {
    var w := Wanted(img.inodes[n], offset, length);
    if w > 0 {
      BlockMono(offset + w - 1, offset + Min(length - 1, w));
      assert Copied(img, n, offset, length, w - 1);
    }
    assert !Copied(img, n, offset, length, w);
  }

  function DirReadStep(img: Image, f: Fd): (Fd, Answer, seq<byte>)
    requires Layout(img)
  {
    var g := f.(position := f.position + 1);
    if 0 <= f.position < img.dirCount then
      var name := NameOf(img.entries[f.position]);
      (g, Ret(|name|), name)
    else (g, Ret(0), [])
  }

  ghost function ReadStep(img: Image, fds: seq<Fd>, fd: int, n: int): (seq<Fd>, Answer, seq<byte>)
    requires Layout(img) && |fds| == PCB_LENGTH
  {
    if fd < 0 || n < 0 || fd > PCB_LENGTH - 1 || fd == 1 then (fds, Ret(-1), [])
    else match fds[fd].ops
      case NoOps => (fds, Fault, [])
      case StdOps => (fds, Device, [])
      case RtcOps => (fds, Ret(0), [])
      case DirOps =>
        if fds[fd].flags == 0 then (fds, Ret(-1), [])
        else
          var (g, a, data) := DirReadStep(img, fds[fd]);
          (fds[fd := g], a, data)
      case FileOps =>
        if fds[fd].flags == 0 then (fds, Ret(-1), [])
        else
          var (g, a, data) := FileReadStep(img, fds[fd], n);
          (fds[fd := g], a, data)
  }

  /** The bytes a read leaves in the caller's buffer: a directory read pads its name to 32, and a
      file read that fails leaves what it had copied. */
  ghost function Stored(img: Image, fds: seq<Fd>, fd: int, n: int): seq<byte>
    requires Layout(img) && |fds| == PCB_LENGTH
  {
    if fd < 0 || n < 0 || fd > PCB_LENGTH - 1 || fd == 1 || fds[fd].flags == 0 then []
    else match fds[fd].ops
      case DirOps =>
        if 0 <= fds[fd].position < img.dirCount then Padded(NameOf(img.entries[fds[fd].position])) else []
      case FileOps => if Wild(img, fds[fd]) then [] else Delivered(img, fds[fd].inode, fds[fd].position, n)
      case _ => []
  }

  function WriteStep(fds: seq<Fd>, fd: int, n: int): Answer
    requires |fds| == PCB_LENGTH
  {
    if fd < 1 || n < 0 || fd > PCB_LENGTH - 1 then Ret(-1)
    else match fds[fd].ops
      case NoOps => Fault
      case StdOps => Device
      case RtcOps => Ret(0)
      case DirOps => Ret(-1)
      case FileOps => Ret(-1)
  }

  // ----- the calls themselves, on the process control block -----

  /** What holds of every table a program can reach (`RunKeepsTable`). */
  ghost predicate TableOk(img: Image, fds: seq<Fd>)
    requires Layout(img)
  {
    && |fds| == PCB_LENGTH
    && fds[0].ops == StdOps && fds[1].ops == StdOps
    && forall fd :: 2 <= fd < PCB_LENGTH ==> FdOk(img, fds[fd])
  }

  ghost predicate FdOk(img: Image, f: Fd)
    requires Layout(img)
  {
    && (f.flags == 0 || f.flags == 1)
    && (f.flags == 0 ==> f.ops == NoOps || f.ops == DirOps)
    && 0 <= f.position
    && f.ops != StdOps
    && (f.ops == FileOps ==> 0 <= f.inode < |img.inodes| && f.position <= img.inodes[f.inode].length)
  }

  class Pcb {
    var fds: seq<Fd>

    /** `sys_open`. */
    method SysOpen(img: Image, name: seq<byte>) returns (r: int)
      requires Layout(img) && NulFree(name) && |fds| == PCB_LENGTH
      modifies this
      ensures fds == OpenStep(img, old(fds), name).0 && Ret(r) == OpenStep(img, old(fds), name).1
    {
      var i := 2;
      while i < PCB_LENGTH && fds[i].flags != 0
        invariant 2 <= i <= PCB_LENGTH
        invariant LowestFree(fds) == LowestFree(fds, i)
      {
        i := i + 1;
      }
      if i == PCB_LENGTH {
        return -1;
      }
      var found := ReadDentryByName(img, name);
      match found {
        case None => return -1;
        case Some(d) =>
          if d.filetype == RTC_TYPE {
            fds := fds[i := fds[i].(ops := RtcOps)];
          } else if d.filetype == DIR_TYPE {
            fds := fds[i := fds[i].(ops := DirOps)];
          } else if d.filetype == FILE_TYPE {
            fds := fds[i := fds[i].(ops := FileOps)];
          }
          fds := fds[i := fds[i].(inode := d.inode, position := 0, flags := 1)];
          return i;
      }
    }

    /** `sys_close`. */
    method SysClose(fd: int) returns (r: int)
      requires |fds| == PCB_LENGTH
      modifies this
      ensures fds == CloseStep(old(fds), fd).0 && Ret(r) == CloseStep(old(fds), fd).1
    {
      if fd < 2 || fd > PCB_LENGTH - 1 {
        return -1;
      }
      fds := fds[fd := fds[fd].(ops := DirOps)];
      if fds[fd].flags == 0 {
        return -1;
      }
      fds := fds[fd := fds[fd].(flags := 0)];
      return 0;
    }

    /** `file_read`, on any image: also what happens when a block is out of range. */
    method FileRead(img: Image, fd: nat, buf: array<byte>, base: nat, n: nat) returns (r: int)
      requires Layout(img) && |fds| == PCB_LENGTH && fd < PCB_LENGTH && !Wild(img, fds[fd])
      requires fds[fd].inode < |img.inodes| ==>
        base + Wanted(img.inodes[fds[fd].inode], fds[fd].position, n) <= buf.Length
      modifies this, buf
      ensures old(fds[fd]).flags == 0 ==> r == -1 && fds == old(fds) && buf[..] == old(buf[..])
      ensures old(fds[fd]).flags != 0 ==>
        var (g, a, data) := FileReadStep(img, old(fds[fd]), n);
        var left := Delivered(img, old(fds[fd]).inode, old(fds[fd]).position, n);
        && fds == old(fds)[fd := g] && Ret(r) == a
        && (left != [] ==> base + |left| <= buf.Length && buf[..] == Splice(old(buf[..]), base, left))
        && (left == [] ==> buf[..] == old(buf[..]))
    {
      if fds[fd].flags == 0 {
        return -1;
      }
      ghost var f := fds[fd];
      ghost var before := buf[..];
      var position := ReadData(img, fds[fd].inode, fds[fd].position, buf, base, n);
      AfterReadData(img, f.inode, f.position, n, base, before, buf[..]);
      if !ReadFails(img, f.inode, f.position, n) {
        CopiedAll(img, f.inode, f.position, n);
      }
      fds := fds[fd := fds[fd].(position := fds[fd].position + position)];
      if position < 0 {
        return 0;
      } else {
        return position;
      }
    }

    /** `dir_read`: 32 bytes are written whatever `n` is; the index is compared unsigned. */
    method DirRead(img: Image, fd: nat, buf: array<byte>, base: nat) returns (r: int)
      requires Layout(img) && |fds| == PCB_LENGTH && fd < PCB_LENGTH
      requires base + NAME_SIZE <= buf.Length
      modifies this, buf
      ensures var (g, a, data) := DirReadStep(img, old(fds[fd]));
        && fds == old(fds)[fd := g] && Ret(r) == a
        && buf[..] == if 0 <= old(fds[fd]).position < img.dirCount then Splice(old(buf[..]), base, Padded(data))
                      else old(buf[..])
    {
      var idx := fds[fd].position;
      fds := fds[fd := fds[fd].(position := idx + 1)];
      if idx < 0 || idx >= img.dirCount {
        return 0;
      }
      var d := CopyOut(img.entries[idx]);
      PaddedName(NameOf(img.entries[idx]));
      var length := BoundedLength(d.filename);
      StrNCpy(buf, base, d.filename);
      return length;
    }

    /** `sys_read`, on any table and image. */
    method SysRead(img: Image, fd: int, buf: array<byte>, base: nat, n: int) returns (a: Answer)
      requires Layout(img) && |fds| == PCB_LENGTH
      requires 0 <= fd < PCB_LENGTH && fds[fd].ops == DirOps ==> base + NAME_SIZE <= buf.Length
      requires base <= buf.Length && base + n <= buf.Length
      modifies this, buf
      ensures fds == ReadStep(img, old(fds), fd, n).0 && a == ReadStep(img, old(fds), fd, n).1
      ensures base + |Stored(img, old(fds), fd, n)| <= buf.Length
      ensures buf[..] == Splice(old(buf[..]), base, Stored(img, old(fds), fd, n))
    {
      if fd < 0 || n < 0 || fd > PCB_LENGTH - 1 || fd == 1 {
        a := Ret(-1);
        return;
      }
      match fds[fd].ops {
        case NoOps => a := Fault;
        case StdOps => a := Device;
        case RtcOps => a := Ret(0);
        case DirOps =>
          if fds[fd].flags == 0 {
            a := Ret(-1);
          } else {
            var r := DirRead(img, fd, buf, base);
            a := Ret(r);
          }
        case FileOps =>
          if fds[fd].flags == 0 {
            a := Ret(-1);
          } else if Wild(img, fds[fd]) {
            a := Fault;
          } else {
            var r := FileRead(img, fd, buf, base, n);
            a := Ret(r);
          }
      }
    }

    /** `sys_write`. */
    method SysWrite(fd: int, n: int) returns (a: Answer)
      requires |fds| == PCB_LENGTH
      ensures a == WriteStep(fds, fd, n)
    {
      if fd < 1 || n < 0 || fd > PCB_LENGTH - 1 {
        return Ret(-1);
      }
      match fds[fd].ops {
        case NoOps => return Fault;
        case StdOps => return Device;
        case RtcOps => return Ret(0);
        case DirOps => return Ret(-1);
        case FileOps => return Ret(-1);
      }
    }
  }

  lemma {:induction false} AfterReadData(img: Image, n: nat, offset: nat, length: nat, base: nat,
                                         before: seq<byte>, now: seq<byte>)
    requires Layout(img) && |before| == |now|
    requires n < |img.inodes| ==> base + Wanted(img.inodes[n], offset, length) <= |now|
    requires forall j :: 0 <= j < |now| ==>
      now[j] == if Copied(img, n, offset, length, j - base) then ByteAt(img, n, offset + (j - base)) else before[j]
    ensures var left := Delivered(img, n, offset, length);
      && (left != [] ==> base + |left| <= |now| && now == Splice(before, base, left))
      && (left == [] ==> now == before)
  {
    var left := Delivered(img, n, offset, length);
    if left != [] {
      assert Copied(img, n, offset, length, |left| - 1);
    }
    forall j | 0 <= j < |now|
      ensures now[j] == if base <= j < base + |left| then left[j - base] else before[j]
    {
    }
  }

  // ----- whole runs -----

  datatype Call = Open(name: seq<byte>) | Close(fd: int) | Read(fd: int, n: int) | Write(fd: int, n: int)
  datatype Event = Event(call: Call, answer: Answer, data: seq<byte>)
  datatype History = History(fds: seq<Fd>, trace: seq<Event>)

  ghost function Step(img: Image, fds: seq<Fd>, call: Call): (seq<Fd>, Event)
    requires Layout(img) && |fds| == PCB_LENGTH
  {
    match call
    case Open(name) => var (g, a) := OpenStep(img, fds, name); (g, Event(call, a, []))
    case Close(fd) => var (g, a) := CloseStep(fds, fd); (g, Event(call, a, []))
    case Read(fd, n) => var (g, a, data) := ReadStep(img, fds, fd, n); (g, Event(call, a, data))
    case Write(fd, n) => (fds, Event(call, WriteStep(fds, fd, n), []))
  }

  /** Any interleaving of calls, from any table. */
  ghost function Run(img: Image, start: seq<Fd>, calls: seq<Call>): (h: History)
    requires Layout(img) && |start| == PCB_LENGTH
    ensures |h.fds| == PCB_LENGTH && |h.trace| == |calls|
  {
    if calls == [] then History(start, [])
    else
      var h := Run(img, start, calls[..|calls| - 1]);
      var (g, e) := Step(img, h.fds, calls[|calls| - 1]);
      History(g, h.trace + [e])
  }

  ghost predicate Opens(e: Event, fd: int) {
    e.call.Open? && e.answer == Ret(fd)
  }

  ghost predicate Reads(e: Event, fd: int) {
    e.call.Read? && e.call.fd == fd && e.answer.Ret? && e.answer.value >= 0
  }

  /** What a program has received on `fd` since the open that returned it: the data of each read. */
  ghost function Received(trace: seq<Event>, fd: int): seq<seq<byte>> {
    if trace == [] then []
    else
      var e := trace[|trace| - 1];
      var before := Received(trace[..|trace| - 1], fd);
      if Opens(e, fd) then [] else if Reads(e, fd) then before + [e.data] else before
  }

  function Concat(parts: seq<seq<byte>>): seq<byte> {
    if parts == [] then [] else Concat(parts[..|parts| - 1]) + parts[|parts| - 1]
  }

  lemma {:induction false} StepKeepsTable(img: Image, fds: seq<Fd>, call: Call)
    requires WellFormed(img) && TableOk(img, fds)
    ensures TableOk(img, Step(img, fds, call).0)
  {
    match call
    case Open(name) =>
    case Close(fd) =>
    case Read(fd, n) =>
      if 2 <= fd < PCB_LENGTH && n >= 0 && fds[fd].ops == FileOps {
        var f := fds[fd];
        BlockMono(f.position, img.inodes[f.inode].length);
        SoundReads(img, f.inode, f.position, n);
      }
    case Write(fd, n) =>
  }

  /** Every table reached by any calls keeps the invariant: flags are 0 or 1, a free descriptor
      has null or directory operations, and no file position passes the end of its file. */
  lemma {:induction false} RunKeepsTable(img: Image, start: seq<Fd>, calls: seq<Call>)
    requires WellFormed(img) && TableOk(img, start)
    ensures TableOk(img, Run(img, start, calls).fds)
  {
    if calls != [] {
      RunKeepsTable(img, start, calls[..|calls| - 1]);
      StepKeepsTable(img, Run(img, start, calls[..|calls| - 1]).fds, calls[|calls| - 1]);
    }
  }

  /** The names a directory read sequence must produce: the entries in order, then nothing. */
  ghost function Listing(img: Image, count: nat): (names: seq<seq<byte>>)
    requires Layout(img)
  {
    seq(count, i requires 0 <= i < count => if i < img.dirCount then NameOf(img.entries[i]) else [])
  }

  /** The names before the first empty one. */
  function UntilEmpty(names: seq<seq<byte>>): seq<seq<byte>> {
    if names == [] || names[0] == [] then [] else [names[0]] + UntilEmpty(names[1..])
  }

  lemma {:induction false} UntilEmptyIs(names: seq<seq<byte>>, k: nat)
    requires k < |names| && names[k] == [] && forall i :: 0 <= i < k ==> names[i] != []
    ensures UntilEmpty(names) == names[..k]
  {
    if k > 0 {
      UntilEmptyIs(names[1..], k - 1);
      assert names[..k] == [names[0]] + names[1..][..k - 1];
    }
  }

  /** A walk that stops at the first empty answer gets the names before the first empty one, which
      are all the names if and only if no counted name is empty. */
  lemma {:induction false} WalkListsAll(img: Image, count: nat)
    requires Layout(img) && count > img.dirCount
    ensures UntilEmpty(Listing(img, count)) == Listing(img, Listed(img))
    ensures UntilEmpty(Listing(img, count)) == Listing(img, img.dirCount) <==> NoEmptyName(img)
  {
    var k := Listed(img);
    UntilEmptyIs(Listing(img, count), k);
    assert Listing(img, count)[..k] == Listing(img, k);
    assert |Listing(img, k)| == |Listing(img, img.dirCount)| <==> k == img.dirCount;
  }

  /** What the descriptor's position says about everything received on it. */
  ghost predicate InStep(img: Image, f: Fd, got: seq<seq<byte>>)
    requires WellFormed(img)
  {
    && (f.ops == FileOps && f.flags == 1 ==>
          && 0 <= f.inode < |img.inodes|
          && SoundInode(img, f.inode)
          && 0 <= f.position <= |File(img, f.inode)|
          && Concat(got) == File(img, f.inode)[..f.position])
    && (f.ops == DirOps && f.flags == 1 ==> 0 <= f.position && got == Listing(img, f.position))
  }

  lemma {:induction false} StepKeepsInStep(img: Image, fds: seq<Fd>, trace: seq<Event>, call: Call, fd: int)
    requires WellFormed(img) && TableOk(img, fds) && 2 <= fd < PCB_LENGTH
    requires InStep(img, fds[fd], Received(trace, fd))
    ensures var (g, e) := Step(img, fds, call);
      |g| == PCB_LENGTH && InStep(img, g[fd], Received(trace + [e], fd))
  {
    var (g, e) := Step(img, fds, call);
    var got := Received(trace, fd);
    ReceivedStep(trace, e, fd);
    if call.Open? {
      OpenKeepsInStep(img, fds, call.name, fd, got);
    } else if call.Read? && call.fd == fd && call.n >= 0 {
      ReadKeepsInStep(img, fds, call.n, fd, got);
    } else {
      assert g[fd] == fds[fd] || g[fd].flags == 0;
    }
  }

  lemma {:induction false} ReceivedStep(trace: seq<Event>, e: Event, fd: int)
    ensures Received(trace + [e], fd) ==
      if Opens(e, fd) then [] else if Reads(e, fd) then Received(trace, fd) + [e.data] else Received(trace, fd)
  {
    assert (trace + [e])[..|trace|] == trace;
  }

  lemma {:induction false} OpenKeepsInStep(img: Image, fds: seq<Fd>, name: seq<byte>, fd: int, got: seq<seq<byte>>)
    requires WellFormed(img) && TableOk(img, fds) && 2 <= fd < PCB_LENGTH
    requires InStep(img, fds[fd], got)
    ensures var (g, a) := OpenStep(img, fds, name); InStep(img, g[fd], if a == Ret(fd) then [] else got)
  {
    var (g, a) := OpenStep(img, fds, name);
    if a == Ret(fd) && g[fd].ops == FileOps {
      assert SoundInode(img, g[fd].inode);
      assert File(img, g[fd].inode)[..0] == [];
    }
  }

  lemma {:induction false} ReadKeepsInStep(img: Image, fds: seq<Fd>, n: nat, fd: int, got: seq<seq<byte>>)
    requires WellFormed(img) && TableOk(img, fds) && 2 <= fd < PCB_LENGTH
    requires InStep(img, fds[fd], got)
    ensures var (g, a, data) := ReadStep(img, fds, fd, n);
      InStep(img, g[fd], if a.Ret? && a.value >= 0 then got + [data] else got)
  {
    var (g, a, data) := ReadStep(img, fds, fd, n);
    if fds[fd].flags == 1 && fds[fd].ops == FileOps {
      ReadKeepsPrefix(img, fds[fd], got, n);
    } else if fds[fd].flags == 1 && fds[fd].ops == DirOps {
      assert Listing(img, fds[fd].position + 1) == Listing(img, fds[fd].position) + [data];
    }
  }

  /** On a sound inode `file_read` delivers the next bytes of the flat file. */
  lemma {:induction false} SoundFileRead(img: Image, f: Fd, n: nat)
    requires Layout(img) && 0 <= f.inode < |img.inodes| && SoundInode(img, f.inode)
    requires 0 <= f.position <= img.inodes[f.inode].length
    ensures var file := File(img, f.inode);
      var cnt := Min(n, |file| - f.position);
      && FileReadStep(img, f, n)
         == (f.(position := f.position + cnt), Ret(cnt), file[f.position..f.position + cnt])
      && Delivered(img, f.inode, f.position, n) == file[f.position..f.position + cnt]
  {
    BlockMono(f.position, img.inodes[f.inode].length);
    SoundReads(img, f.inode, f.position, n);
    CopiedAll(img, f.inode, f.position, n);
    assert Delivered(img, f.inode, f.position, n)
      == File(img, f.inode)[f.position..f.position + Min(n, |File(img, f.inode)| - f.position)];
  }

  lemma {:induction false} ReadKeepsPrefix(img: Image, f: Fd, got: seq<seq<byte>>, n: nat)
    requires WellFormed(img) && FdOk(img, f) && f.ops == FileOps && f.flags == 1
    requires InStep(img, f, got)
    ensures var (g, a, data) := FileReadStep(img, f, n); a.Ret? && a.value >= 0 && InStep(img, g, got + [data])
  {
    SoundFileRead(img, f, n);
    ConcatSnoc(got, FileReadStep(img, f, n).2);
    SliceExtends(File(img, f.inode), f.position, Min(n, |File(img, f.inode)| - f.position));
  }

  lemma {:induction false} ConcatSnoc(parts: seq<seq<byte>>, last: seq<byte>)
    ensures Concat(parts + [last]) == Concat(parts) + last
  {
    assert (parts + [last])[..|parts|] == parts;
  }

  lemma {:induction false} SliceExtends(file: seq<byte>, p: nat, n: nat)
    requires p + n <= |file|
    ensures file[..p] + file[p..p + n] == file[..p + n]
  {
  }

  /** Descriptors do not interfere: whatever calls are interleaved, the bytes received on an open
      regular file since its open are the file up to its position, and the names received on an
      open directory are its entries in order. */
  lemma {:induction false} StreamsDoNotInterfere(img: Image, start: seq<Fd>, calls: seq<Call>, fd: int)
    requires WellFormed(img) && TableOk(img, start) && 2 <= fd < PCB_LENGTH && start[fd].flags == 0
    ensures var h := Run(img, start, calls); InStep(img, h.fds[fd], Received(h.trace, fd))
  {
    if calls != [] {
      var before := Run(img, start, calls[..|calls| - 1]);
      StreamsDoNotInterfere(img, start, calls[..|calls| - 1], fd);
      RunKeepsTable(img, start, calls[..|calls| - 1]);
      StepKeepsInStep(img, before.fds, before.trace, calls[|calls| - 1], fd);
    }
  }

  /** The table of a new program is one from which runs start. */
  lemma {:induction false} StartTableOk(img: Image, fds: seq<Fd>)
    requires Layout(img) && StartTable(fds)
    ensures TableOk(img, fds)
  {
  }

  /** At the end of a file every read gives 0 bytes, for as long as the descriptor is not closed. */
  lemma {:induction false} EndOfFileStays(img: Image, start: seq<Fd>, calls: seq<Call>, fd: int)
    requires WellFormed(img) && TableOk(img, start) && 2 <= fd < PCB_LENGTH
    requires start[fd].ops == FileOps && start[fd].position == img.inodes[start[fd].inode].length
    requires Close(fd) !in calls
    ensures Run(img, start, calls).fds[fd] == start[fd]
    ensures forall e :: e in Run(img, start, calls).trace && e.call.Read? && e.call.fd == fd && e.call.n >= 0 ==>
      e.answer == Ret(0) && e.data == []
  {
    if calls != [] {
      var last := calls[|calls| - 1];
      EndOfFileStays(img, start, calls[..|calls| - 1], fd);
      RunKeepsTable(img, start, calls[..|calls| - 1]);
      var f := start[fd];
      if last.Read? && last.n >= 0 {
        SoundFileRead(img, f, last.n);
      }
    }
  }

  /** The events of a run so far, and the next one. */
  lemma {:induction false} TraceAt(img: Image, start: seq<Fd>, calls: seq<Call>, j: nat)
    requires Layout(img) && |start| == PCB_LENGTH && j < |calls|
    ensures var h, before := Run(img, start, calls), Run(img, start, calls[..j]);
      && h.trace[..j] == before.trace
      && h.trace[j] == Step(img, before.fds, calls[j]).1
      && Run(img, start, calls[..j + 1]).fds == Step(img, before.fds, calls[j]).0
  {
    var before := calls[..|calls| - 1];
    assert calls[..j + 1][..j] == calls[..j];
    if j < |calls| - 1 {
      TraceAt(img, start, before, j);
      assert before[..j] == calls[..j] && before[..j + 1] == calls[..j + 1];
    } else {
      assert calls[..j + 1] == calls;
    }
  }

  /** The descriptor is free and has directory operations. */
  predicate Dead(f: Fd) {
    f.flags == 0 && f.ops == DirOps
  }

  /** Whatever the table was, after a close a descriptor of 2..7 stays dead until an open returns it. */
  lemma {:induction false} ClosedIsDead(img: Image, start: seq<Fd>, calls: seq<Call>, i: nat, j: nat, fd: int)
    requires Layout(img) && |start| == PCB_LENGTH && i < j <= |calls| && 2 <= fd < PCB_LENGTH && calls[i] == Close(fd)
    requires forall m :: i < m < j ==> !Opens(Run(img, start, calls).trace[m], fd)
    ensures Dead(Run(img, start, calls[..j]).fds[fd])
    decreases j
  {
    if i < j - 1 {
      ClosedIsDead(img, start, calls, i, j - 1, fd);
    }
    DeadNext(img, start, calls, j - 1, fd);
  }

  lemma {:induction false} DeadNext(img: Image, start: seq<Fd>, calls: seq<Call>, k: nat, fd: int)
    requires Layout(img) && |start| == PCB_LENGTH && k < |calls| && 2 <= fd < PCB_LENGTH
    requires calls[k] == Close(fd)
      || (Dead(Run(img, start, calls[..k]).fds[fd]) && !Opens(Run(img, start, calls).trace[k], fd))
    ensures Dead(Run(img, start, calls[..k + 1]).fds[fd])
  {
    TraceAt(img, start, calls, k);
    var before := Run(img, start, calls[..k]).fds;
    if calls[k] != Close(fd) {
      DeadStep(img, before, calls[k], fd);
    }
  }

  /** After a close of a descriptor of 2..7, every read and write on it answers -1 and delivers nothing, with any
      count and through any other calls, until an open returns it. */
  lemma {:induction false} ClosedStaysDead(img: Image, start: seq<Fd>, calls: seq<Call>, i: nat, j: nat, fd: int)
    requires Layout(img) && |start| == PCB_LENGTH && i < j < |calls| && 2 <= fd < PCB_LENGTH && calls[i] == Close(fd)
    requires forall m :: i < m < j ==> !Opens(Run(img, start, calls).trace[m], fd)
    requires (calls[j].Read? || calls[j].Write?) && calls[j].fd == fd
    ensures Run(img, start, calls).trace[j] == Event(calls[j], Ret(-1), [])
  {
    ClosedIsDead(img, start, calls, i, j, fd);
    TraceAt(img, start, calls, j);
    DeadStep(img, Run(img, start, calls[..j]).fds, calls[j], fd);
  }

  lemma {:induction false} DeadStep(img: Image, fds: seq<Fd>, call: Call, fd: int)
    requires Layout(img) && |fds| == PCB_LENGTH && 2 <= fd < PCB_LENGTH
    requires Dead(fds[fd])
    ensures var (g, e) := Step(img, fds, call);
      && (!Opens(e, fd) ==> g[fd] == fds[fd])
      && ((call.Read? || call.Write?) && call.fd == fd ==> e == Event(call, Ret(-1), []))
  {
  }

  // ----- what an open descriptor answers -----

  /** Open on the first entry of that name, with the operations of its type. */
  ghost predicate OpenAs(img: Image, name: seq<byte>, f: Fd)
    requires Layout(img)
  {
    && Lookup(img, name) < img.dirCount && f.flags == 1
    && var d := img.entries[Lookup(img, name)];
    && f.inode == d.inode
    && (d.filetype == RTC_TYPE ==> f.ops == RtcOps)
    && (d.filetype == DIR_TYPE ==> f.ops == DirOps)
    && (d.filetype == FILE_TYPE ==> f.ops == FileOps)
  }

  /** From its open until its close a descriptor stays open on its entry, in step with what it has delivered. */
  lemma {:induction false} OpenedStays(img: Image, start: seq<Fd>, calls: seq<Call>, i: nat, j: nat, fd: int)
    requires WellFormed(img) && TableOk(img, start) && i < j <= |calls| && 2 <= fd < PCB_LENGTH
    requires calls[i].Open? && Run(img, start, calls).trace[i].answer == Ret(fd)
    requires forall m :: i < m < j ==> calls[m] != Close(fd)
    ensures var h := Run(img, start, calls[..j]);
      && TableOk(img, h.fds) && OpenAs(img, calls[i].name, h.fds[fd])
      && InStep(img, h.fds[fd], Received(h.trace, fd))
    decreases j
  {
    var before := Run(img, start, calls[..j - 1]);
    TraceAt(img, start, calls, j - 1);
    RunKeepsTable(img, start, calls[..j - 1]);
    RunSnoc(img, start, calls, j - 1);
    if i < j - 1 {
      OpenedStays(img, start, calls, i, j - 1, fd);
      StaysOpen(img, before.fds, before.trace, calls[j - 1], fd, calls[i].name);
    } else {
      BecomesOpen(img, before.fds, before.trace, calls[i].name, fd);
    }
  }

  lemma {:induction false} RunSnoc(img: Image, start: seq<Fd>, calls: seq<Call>, j: nat)
    requires Layout(img) && |start| == PCB_LENGTH && j < |calls|
    ensures var before := Run(img, start, calls[..j]);
      var (g, e) := Step(img, before.fds, calls[j]);
      Run(img, start, calls[..j + 1]) == History(g, before.trace + [e])
  {
    assert calls[..j + 1][..j] == calls[..j];
  }

  lemma {:induction false} BecomesOpen(img: Image, fds: seq<Fd>, trace: seq<Event>, name: seq<byte>, fd: int)
    requires WellFormed(img) && TableOk(img, fds) && 2 <= fd < PCB_LENGTH
    requires OpenStep(img, fds, name).1 == Ret(fd)
    ensures var (g, e) := Step(img, fds, Open(name));
      TableOk(img, g) && OpenAs(img, name, g[fd]) && InStep(img, g[fd], Received(trace + [e], fd))
  {
    StepKeepsTable(img, fds, Open(name));
    OpenTakesLowest(img, fds, name);
    StepKeepsInStep(img, fds, trace, Open(name), fd);
  }

  lemma {:induction false} StaysOpen(img: Image, fds: seq<Fd>, trace: seq<Event>, call: Call, fd: int, name: seq<byte>)
    requires WellFormed(img) && TableOk(img, fds) && 2 <= fd < PCB_LENGTH
    requires OpenAs(img, name, fds[fd]) && InStep(img, fds[fd], Received(trace, fd)) && call != Close(fd)
    ensures var (g, e) := Step(img, fds, call);
      TableOk(img, g) && OpenAs(img, name, g[fd]) && InStep(img, g[fd], Received(trace + [e], fd))
  {
    StepKeepsTable(img, fds, call);
    KeepsOpen(img, fds, call, fd, name);
    StepKeepsInStep(img, fds, trace, call, fd);
  }

  lemma {:induction false} KeepsOpen(img: Image, fds: seq<Fd>, call: Call, fd: int, name: seq<byte>)
    requires Layout(img) && |fds| == PCB_LENGTH && 2 <= fd < PCB_LENGTH
    requires OpenAs(img, name, fds[fd]) && call != Close(fd)
    ensures OpenAs(img, name, Step(img, fds, call).0[fd])
  {
  }

  /** What a file that has delivered `parts` answers: to a read the next bytes, as many as were asked for or are left;
      to a write -1. */
  ghost predicate FileAnswer(img: Image, n: nat, parts: seq<seq<byte>>, e: Event)
    requires Layout(img) && n < |img.inodes| && SoundInode(img, n)
  {
    var file, got := File(img, n), |Concat(parts)|;
    && Concat(parts) <= file
    && (e.call.Read? && e.call.n >= 0 ==>
          var cnt := Min(e.call.n, |file| - got);
          e.answer == Ret(cnt) && e.data == file[got..got + cnt])
    && (e.call.Write? ==> e.answer == Ret(-1) && e.data == [])
  }

  /** On an open file every read delivers the next bytes behind all that was delivered since the open. */
  lemma {:induction false} OpenFileReads(img: Image, start: seq<Fd>, calls: seq<Call>, i: nat, j: nat, fd: int)
    requires WellFormed(img) && TableOk(img, start) && i < j < |calls| && 2 <= fd < PCB_LENGTH
    requires calls[i].Open? && Run(img, start, calls).trace[i].answer == Ret(fd)
    requires forall m :: i < m < j ==> calls[m] != Close(fd)
    requires (calls[j].Read? || calls[j].Write?) && calls[j].fd == fd
    requires Lookup(img, calls[i].name) < img.dirCount
    requires img.entries[Lookup(img, calls[i].name)].filetype == FILE_TYPE
    ensures var trace, n := Run(img, start, calls).trace, img.entries[Lookup(img, calls[i].name)].inode;
      SoundInode(img, n) && FileAnswer(img, n, Received(trace[..j], fd), trace[j])
  {
    OpenedStays(img, start, calls, i, j, fd);
    TraceAt(img, start, calls, j);
    var before := Run(img, start, calls[..j]);
    OpenFileAnswers(img, before.fds, calls[i].name, fd, calls[j], Received(before.trace, fd));
  }

  lemma {:induction false} OpenFileAnswers(img: Image, fds: seq<Fd>, name: seq<byte>, fd: int, call: Call,
                                           parts: seq<seq<byte>>)
    requires WellFormed(img) && TableOk(img, fds) && 2 <= fd < PCB_LENGTH && OpenAs(img, name, fds[fd])
    requires img.entries[Lookup(img, name)].filetype == FILE_TYPE && InStep(img, fds[fd], parts)
    requires (call.Read? || call.Write?) && call.fd == fd
    ensures var n := img.entries[Lookup(img, name)].inode;
      SoundInode(img, n) && FileAnswer(img, n, parts, Step(img, fds, call).1)
  {
    var f := fds[fd];
    if call.Read? && call.n >= 0 {
      SoundFileRead(img, f, call.n);
    }
  }

  /** What a directory that has answered `m` reads and the clock answer: the directory the name of the next entry, then
      nothing, and -1 to a write; the clock 0 to both. */
  ghost predicate OtherAnswer(img: Image, kind: int, m: nat, e: Event)
    requires Layout(img)
  {
    var name := if m < img.dirCount then NameOf(img.entries[m]) else [];
    && (kind == DIR_TYPE && e.call.Read? ==> e.answer == Ret(|name|) && e.data == name)
    && (kind == DIR_TYPE && e.call.Write? ==> e.answer == Ret(-1) && e.data == [])
    && (kind == RTC_TYPE ==> e.answer == Ret(0) && e.data == [])
  }

  lemma {:induction false} OpenOthersAnswer(img: Image, start: seq<Fd>, calls: seq<Call>, i: nat, j: nat, fd: int)
    requires WellFormed(img) && TableOk(img, start) && i < j < |calls| && 2 <= fd < PCB_LENGTH
    requires calls[i].Open? && Run(img, start, calls).trace[i].answer == Ret(fd)
    requires forall m :: i < m < j ==> calls[m] != Close(fd)
    requires Lookup(img, calls[i].name) < img.dirCount
    requires (calls[j].Read? || calls[j].Write?) && calls[j].fd == fd && calls[j].n >= 0
    ensures var trace, kind := Run(img, start, calls).trace, img.entries[Lookup(img, calls[i].name)].filetype;
      OtherAnswer(img, kind, |Received(trace[..j], fd)|, trace[j])
  {
    OpenedStays(img, start, calls, i, j, fd);
    TraceAt(img, start, calls, j);
    var before := Run(img, start, calls[..j]);
    OthersAnswer(img, before.fds, calls[i].name, fd, calls[j], Received(before.trace, fd));
  }

  lemma {:induction false} OthersAnswer(img: Image, fds: seq<Fd>, name: seq<byte>, fd: int, call: Call,
                                        parts: seq<seq<byte>>)
    requires WellFormed(img) && TableOk(img, fds) && 2 <= fd < PCB_LENGTH && OpenAs(img, name, fds[fd])
    requires InStep(img, fds[fd], parts) && (call.Read? || call.Write?) && call.fd == fd && call.n >= 0
    ensures OtherAnswer(img, img.entries[Lookup(img, name)].filetype, |parts|, Step(img, fds, call).1)
  {
  }

  /** The standard descriptors go to the terminal driver one way each, and every call with an argument out of range
      answers -1 and changes nothing. */
  lemma {:induction false} StandardCalls(img: Image, fds: seq<Fd>, fd: int, n: int)
    requires Layout(img) && TableOk(img, fds)
    ensures fd == 0 && n >= 0 ==> Step(img, fds, Read(fd, n)) == (fds, Event(Read(fd, n), Device, []))
    ensures fd == 1 && n >= 0 ==> Step(img, fds, Write(fd, n)) == (fds, Event(Write(fd, n), Device, []))
    ensures fd < 0 || fd == 1 || fd > 7 || n < 0 ==>
      Step(img, fds, Read(fd, n)) == (fds, Event(Read(fd, n), Ret(-1), []))
    ensures fd < 1 || fd > 7 || n < 0 ==> Step(img, fds, Write(fd, n)) == (fds, Event(Write(fd, n), Ret(-1), []))
    ensures fd < 2 || fd > 7 ==> Step(img, fds, Close(fd)) == (fds, Event(Close(fd), Ret(-1), []))
  {
  }

  /** Open answers with the lowest free descriptor of 2..7, and -1 exactly when all six are taken
      or no entry has the name; it touches no other descriptor. */
  lemma {:induction false} OpenTakesLowest(img: Image, fds: seq<Fd>, name: seq<byte>)
    requires Layout(img) && |fds| == PCB_LENGTH
    ensures var (g, a) := OpenStep(img, fds, name);
      && a.Ret?
      && (a.value == -1 <==>
            || (forall j :: 2 <= j < PCB_LENGTH ==> fds[j].flags != 0)
            || (forall i :: 0 <= i < img.dirCount ==> NameOf(img.entries[i]) != name))
      && (a.value != -1 ==>
            && 2 <= a.value < PCB_LENGTH && fds[a.value].flags == 0 && g[a.value].flags == 1
            && g[a.value].position == 0
            && OpenAs(img, name, g[a.value])
            && (img.entries[Lookup(img, name)].filetype !in {RTC_TYPE, DIR_TYPE, FILE_TYPE} ==>
                  g[a.value].ops == fds[a.value].ops)
            && (forall j :: 2 <= j < a.value ==> fds[j].flags != 0))
      && (forall j :: 0 <= j < PCB_LENGTH && j != a.value ==> g[j] == fds[j])
  {
    LookupFinds(img, name);
    var i := LowestFree(fds);
  }

  /** Close answers 0 exactly for an open descriptor of 2..7, which is then free; no other descriptor
      changes, and an open that follows gets it or a lower one. */
  lemma {:induction false} CloseReleases(img: Image, fds: seq<Fd>, fd: int, name: seq<byte>)
    requires Layout(img) && |fds| == PCB_LENGTH
    ensures var (g, a) := CloseStep(fds, fd);
      && a.Ret? && (a.value == 0 <==> 2 <= fd < PCB_LENGTH && fds[fd].flags != 0)
      && (a.value != 0 ==> a.value == -1)
      && (forall j :: 0 <= j < PCB_LENGTH && j != fd ==> g[j] == fds[j])
      && (a.value == 0 && EntryNamed(img, name).Some? ==>
            g[fd].flags == 0 && var b := OpenStep(img, g, name).1; b.Ret? && 2 <= b.value <= fd)
  {
    var (g, a) := CloseStep(fds, fd);
    var i := LowestFree(g);
  }

  /** Without a sound block table the stream property fails: a read that ends just before a block
      whose number is out of range is reported as empty and moves the position back. */
  lemma {:induction false} UnsoundReadMovesBack(img: Image, f: Fd, n: nat)
    requires Layout(img) && 0 <= f.inode < |img.inodes|
    requires 0 <= f.position <= img.inodes[f.inode].length
    ensures var (g, a, data) := FileReadStep(img, f, n);
      && a.Ret?
      && (g.position < f.position <==>
            !AllInRange(img, f.inode, f.position / BLOCK_SIZE, LastBlock(img.inodes[f.inode], f.position, n)))
      && (g.position < f.position ==> a == Ret(0) && g.position == f.position - 1)
  {
    BlockMono(f.position, img.inodes[f.inode].length);
  }
}
