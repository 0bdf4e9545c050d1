/**
 Process slots, their address layout, and the nesting of `sys_execute` and `sys_halt`
 (student-distrib/system_call.c).
 */
module Processes {
  import opened Bytes
  import opened FileSystem
  import opened Directory
  import D = Descriptors
  import Loader

  const SLOTS := 6
  const EIGHT_MB := 0x800000
  const EIGHT_KB := 0x2000
  const SET_ENTRY := 0x87
  const ARG_BUFFER_SIZE := 1000
  const ARGUMENT_SIZE := 128
  const HEADER_BUF_SIZE := 40
  const ENTRY_OFFSET := 24
  const ENTRY_SIZE := 4
  const USER_PAGE := 0x400000
  const LOAD_OFFSET := 0x48000

  // ----- the address layout -----

  /** Where the control block of a slot lies: at the bottom of the slot's 8 KB kernel stack. */
  function BlockAddr(slot: int): int {
    EIGHT_MB - EIGHT_KB * (slot + 1)
  }

  /** The top of that stack, as put in `tss.esp0`. */
  function Esp0Of(slot: int): int {
    EIGHT_MB - EIGHT_KB * slot - 4
  }

  /** The page directory entry that maps a slot's 4 MB page; the flag bits are clear in the address. */
  function PageOf(slot: int): int {
    slot * (EIGHT_MB / 2) + EIGHT_MB + SET_ENTRY
  }

  /** `get_pcb`: the stack pointer masked with 0x007FE000, that is, its bits 13 to 22. */
  function GetPcb(esp: nat): int {
    esp / EIGHT_KB % 1024 * EIGHT_KB
  }

  function SlotOf(esp: nat): int {
    (EIGHT_MB - GetPcb(esp)) / EIGHT_KB - 1
  }

  /** Anywhere in a slot's kernel stack, `get_pcb` finds that slot's control block; entering the
      kernel at `esp0` puts the stack pointer there; and no two slots share a stack or a page. */
  lemma {:induction false} StackFindsBlock(slot: int, esp: nat)
    requires 0 <= slot < SLOTS && BlockAddr(slot) <= esp < BlockAddr(slot) + EIGHT_KB
    ensures GetPcb(esp) == BlockAddr(slot) && SlotOf(esp) == slot
    ensures BlockAddr(slot) <= Esp0Of(slot) < BlockAddr(slot) + EIGHT_KB
    ensures forall other :: 0 <= other < SLOTS && PageOf(other) == PageOf(slot) ==> other == slot
  {
    assert esp / EIGHT_KB == 1023 - slot;
  }

  /** Where a 4 MB page entry maps a virtual address; the upper bits of the entry are the physical page. */
  function Translate(entry: nat, address: nat): nat {
    entry / USER_PAGE * USER_PAGE + address % USER_PAGE
  }

  /** While a slot is mapped, the addresses from 0x08048000 on are those of its program in physical memory: the six
      pages lie one after the other from 8 MB on, present, writable and open to user programs. */
  lemma {:induction false} MappedWhereLoaded(slot: nat, i: nat)
    requires slot < SLOTS && LOAD_OFFSET + i < USER_PAGE
    ensures Translate(PageOf(slot), 0x08048000 + i) == 0x800000 + LoadAddr(slot) + i
    ensures PageOf(slot) % USER_PAGE == 0x87 && PageOf(slot) / USER_PAGE == 2 + slot
    ensures 0x08048000 / USER_PAGE == 32
  {
  }

  // ----- commands -----

  /** The first word of a command: what is looked up. */
  function CommandName(command: seq<byte>): seq<byte> {
    command[..IndexOf(command, SPACE)]
  }

  predicate HasArgument(command: seq<byte>) {
    IndexOf(command, SPACE) < |command|
  }

  /** What follows the first space. */
  function ArgumentOf(command: seq<byte>): seq<byte>
    requires HasArgument(command)
  {
    command[IndexOf(command, SPACE) + 1..]
  }

  predicate Fits(command: seq<byte>) {
    && NulFree(command) && |CommandName(command)| < ARG_BUFFER_SIZE
    && (HasArgument(command) ==> |ArgumentOf(command)| < ARGUMENT_SIZE)
  }

  /** The argument field after a command: a command without a space leaves it as it was. */
  function StoredArgument(field: seq<byte>, command: seq<byte>): (r: seq<byte>)
    requires Fits(command) && |field| == ARGUMENT_SIZE
    ensures |r| == ARGUMENT_SIZE
  {
    if HasArgument(command) then Splice(field, 0, ArgumentOf(command) + [NUL]) else field
  }

  /** The C string in an argument field. */
  function FieldString(field: seq<byte>): seq<byte> {
    field[..IndexOf(field, NUL)]
  }

  /** Cutting a command at its first space loses nothing, and the field then holds the argument. A
      command without a space gives its program the argument that was there before, so every program
      finds what its command says if and only if the command has a space or the field was empty. */
  lemma {:induction false} ArgumentArrives(field: seq<byte>, command: seq<byte>)
    requires Fits(command) && |field| == ARGUMENT_SIZE
    ensures Free(CommandName(command), SPACE) && (!HasArgument(command) ==> CommandName(command) == command)
    ensures HasArgument(command) ==>
      && CommandName(command) + [SPACE] + ArgumentOf(command) == command
      && FieldString(StoredArgument(field, command)) == ArgumentOf(command)
    ensures FieldString(StoredArgument(field, command)) == (if HasArgument(command) then ArgumentOf(command) else [])
      <==> HasArgument(command) || FieldString(field) == []
  {
    if HasArgument(command) {
      var k := IndexOf(command, SPACE);
      assert command[..k] + [command[k]] + command[k + 1..] == command;
      StringStored(field, ArgumentOf(command));
    }
  }

  lemma {:induction false} StringStored(field: seq<byte>, text: seq<byte>)
    requires |text| < |field| && NulFree(text)
    ensures FieldString(Splice(field, 0, text + [NUL])) == text
  {
    var stored := Splice(field, 0, text + [NUL]);
    assert forall j :: 0 <= j < |text| ==> stored[j] == text[j];
    assert stored[|text|] == NUL;
    IndexOfIs(stored, NUL, |text|);
  }

  // ----- the state and its two transitions -----

  datatype Frame = Frame(esp: nat, ebp: nat)

  /** A process control block. `frame` is the stack position of the parent inside `sys_execute`. */
  datatype Block = Block(procNum: int, parent: int, frame: Frame, fds: seq<D.Fd>, argument: seq<byte>, terminal: int)

  /** `terminal` is `current_terminal`. */
  datatype State = State(processes: seq<int>, blocks: seq<Block>, page: int, esp0: int, running: int, terminal: int)

  datatype Outcome = Refused | Entered | Resumed(status: int, frame: Frame)

  const SHELL: seq<byte> := [115, 104, 101, 108, 108]
  const ELF: seq<byte> := [0x7F, 0x45, 0x4C, 0x46]

  ghost predicate Runnable(img: Image) {
    WellFormed(img) && forall i :: 0 <= i < img.dirCount ==> img.entries[i].inode < |img.inodes|
  }

  /** The file a name stands for. */
  ghost function Program(img: Image, name: seq<byte>): seq<byte>
    requires Runnable(img) && Lookup(img, name) < img.dirCount
  {
    var n := img.entries[Lookup(img, name)].inode;
    assert SoundInode(img, n);
    File(img, n)
  }

  /** What a read of `n` bytes at `offset` leaves in a buffer that was `stale`. */
  function ReadOver(stale: seq<byte>, file: seq<byte>, offset: nat, n: nat): (r: seq<byte>)
    requires n <= |stale|
    ensures |r| == |stale|
  {
    if offset <= |file| then Splice(stale, 0, file[offset..Min(offset + n, |file|)]) else stale
  }

  /** A read inside the file replaces the buffer; one behind its end leaves it. */
  lemma {:induction false} ReadOverIs(stale: seq<byte>, file: seq<byte>, offset: nat)
    ensures offset + |stale| <= |file| ==>
      ReadOver(stale, file, offset, |stale|) == file[offset..offset + |stale|]
    ensures |file| <= offset ==> ReadOver(stale, file, offset, |stale|) == stale
  {
    if |file| == offset {
      assert file[offset..offset] == [];
    }
  }

  /** The ELF test: the file exists and its first bytes, read over a stale buffer, are the magic number. */
  ghost predicate Loads(img: Image, name: seq<byte>, stale: seq<byte>)
    requires Runnable(img) && |stale| == HEADER_BUF_SIZE
  {
    Lookup(img, name) < img.dirCount && ReadOver(stale, Program(img, name), 0, HEADER_BUF_SIZE)[..4] == ELF
  }

  /** A file of four bytes or more passes exactly when it begins with 0x7F and "ELF". */
  lemma {:induction false} LoadsIff(img: Image, name: seq<byte>, stale: seq<byte>)
    requires Runnable(img) && |stale| == HEADER_BUF_SIZE && Lookup(img, name) < img.dirCount
    requires |Program(img, name)| >= 4
    ensures Loads(img, name, stale) <==> Program(img, name)[..4] == [0x7F, 0x45, 0x4C, 0x46]
  {
    var file := Program(img, name);
    assert ReadOver(stale, file, 0, HEADER_BUF_SIZE)[..4] == file[..4];
  }

  /** The named file, if there is one, fits the user page behind the load address. */
  ghost predicate ProgramFits(img: Image, name: seq<byte>)
    requires Runnable(img)
  {
    Lookup(img, name) < img.dirCount ==> LOAD_OFFSET + |Program(img, name)| <= USER_PAGE
  }

  /** Where a slot's program is loaded, in the memory of the six user pages. */
  function LoadAddr(slot: nat): nat {
    slot * USER_PAGE + LOAD_OFFSET
  }

  function FreeSlot(processes: seq<int>, from: nat := 0): (s: nat)
    requires from <= |processes|
    ensures from <= s <= |processes|
    ensures s < |processes| ==> processes[s] == 0
    ensures forall j :: from <= j < s ==> processes[j] != 0
    decreases |processes| - from
  {
    if from == |processes| || processes[from] == 0 then from else FreeSlot(processes, from + 1)
  }

  predicate Shaped(k: State) {
    && |k.processes| == SLOTS && |k.blocks| == SLOTS && 0 <= k.running < SLOTS
    && forall s :: 0 <= s < SLOTS ==> |k.blocks[s].fds| == D.PCB_LENGTH && |k.blocks[s].argument| == ARGUMENT_SIZE
  }

  function WithStd(fds: seq<D.Fd>): seq<D.Fd>
    requires |fds| == D.PCB_LENGTH
  {
    fds[0 := fds[0].(ops := D.StdOps)][1 := fds[1].(ops := D.StdOps)]
  }

  /** `sys_execute`, for a command whose file passes the ELF test or not: a failed load keeps the
      slot it has claimed. */
  function ExecStep(k: State, command: seq<byte>, frame: Frame, loads: bool): (State, Outcome)
    requires Shaped(k) && Fits(command)
  {
    var slot := FreeSlot(k.processes);
    if slot == SLOTS then (k, Refused)
    else
      var b := k.blocks[slot].(argument := StoredArgument(k.blocks[slot].argument, command));
      var claimed := k.(processes := k.processes[slot := 1], blocks := k.blocks[slot := b]);
      if !loads then (claimed, Refused)
      else
        var parent := if slot == 0 then b.parent else if slot == k.running then slot else k.blocks[k.running].procNum;
        var entered := Block(slot, parent, frame, WithStd(b.fds), b.argument, k.terminal);
        (State(claimed.processes, claimed.blocks[slot := entered], PageOf(slot), Esp0Of(slot), slot, k.terminal),
         Entered)
  }

  function ClearedTable(): seq<D.Fd> {
    seq(D.PCB_LENGTH, i => D.CLEARED)
  }

  /** `sys_halt`: back to the parent's frame; the base shell is started again instead. */
  function HaltStep(k: State, status: nat, frame: Frame, shellLoads: bool): (State, Outcome)
    requires Shaped(k) && 0 <= k.blocks[k.running].procNum < SLOTS
  {
    var b := k.blocks[k.running].(fds := ClearedTable());
    var freed := k.(processes := k.processes[b.procNum := 0], blocks := k.blocks[k.running := b]);
    var (after, entered) := if b.procNum == 0 then ExecStep(freed, SHELL, frame, shellLoads) else (freed, Refused);
    if entered == Entered then (after, Entered)
    else (after.(page := PageOf(b.parent), esp0 := Esp0Of(b.parent), running := SlotOf(b.frame.esp)),
          Resumed(status % 256, b.frame))
  }

  /** `sys_getargs` of the running program: its answer and the caller's buffer. All 128 bytes are copied. */
  function GetArgsStep(k: State, buf: seq<byte>, nbytes: int): (int, seq<byte>)
    requires Shaped(k) && |buf| >= ARGUMENT_SIZE
  {
    var field := k.blocks[k.running].argument;
    if nbytes < 0 || field[0] == NUL then (-1, buf) else (0, Splice(buf, 0, field))
  }

  // ----- the calls themselves -----

  class Kernel {
    var processes: seq<int>
    var blocks: seq<Block>
    var page: int
    var esp0: int
    var running: int
    var terminal: int

    ghost function Value(): State
      reads this
    {
      State(processes, blocks, page, esp0, running, terminal)
    }

    /** The two loops that cut a command at its first space. */
    static method SplitCommand(command: seq<byte>, field: seq<byte>) returns (name: seq<byte>, argument: seq<byte>)
      requires Fits(command) && |field| == ARGUMENT_SIZE
      ensures name == CommandName(command) && argument == StoredArgument(field, command)
    {
      var i := 0;
      name := [];
      argument := field;
      while i < |command| && command[i] != SPACE
        invariant 0 <= i <= |command| && name == command[..i]
        invariant forall j :: 0 <= j < i ==> command[j] != SPACE
      {
        name := name + [command[i]];
        i := i + 1;
      }
      IndexOfIs(command, SPACE, i);
      if i < |command| {
        argument := CopyArgument(command, i + 1, field);
      }
    }

    static method CopyArgument(command: seq<byte>, i: nat, field: seq<byte>) returns (argument: seq<byte>)
      requires i <= |command| && |command| - i < |field|
      ensures argument == Splice(field, 0, command[i..] + [NUL])
    {
      argument := field;
      var j := 0;
      while j < |command| - i
        invariant 0 <= j <= |command| - i && |argument| == |field|
        invariant forall x :: 0 <= x < |field| ==> argument[x] == if x < j then command[i + x] else field[x]
      {
        argument := argument[j := command[j + i]];
        j := j + 1;
      }
      argument := argument[j := NUL];
    }

    /** The search for the lowest free slot, which is claimed. */
    method ClaimSlot() returns (slot: nat)
      requires |processes| == SLOTS
      modifies this`processes
      ensures slot == FreeSlot(old(processes))
      ensures processes == if slot < SLOTS then old(processes)[slot := 1] else old(processes)
    {
      slot := 0;
      while slot < SLOTS && processes[slot] != 0
        invariant 0 <= slot <= SLOTS
        invariant FreeSlot(processes) == FreeSlot(processes, slot)
      {
        slot := slot + 1;
      }
      if slot < SLOTS {
        processes := processes[slot := 1];
      }
    }

    /** `sys_execute`. `header` and `entry` are uninitialised buffers; `memory` is the six user pages. */
    method SysExecute(img: Image, command: seq<byte>, frame: Frame, header: array<byte>, entry: array<byte>,
                      memory: array<byte>)
      returns (o: Outcome)
      requires Runnable(img) && Shaped(Value()) && Fits(command)
      requires header.Length == HEADER_BUF_SIZE && entry.Length == ENTRY_SIZE && memory.Length == SLOTS * USER_PAGE
      requires header != entry && header != memory && entry != memory && ProgramFits(img, CommandName(command))
      modifies this, header, entry, memory
      ensures var loads := Loads(img, CommandName(command), old(header[..]));
        && Value() == ExecStep(old(Value()), command, frame, loads).0
        && o == ExecStep(old(Value()), command, frame, loads).1
      ensures o == Entered ==>
        && Lookup(img, CommandName(command)) < img.dirCount && 0 <= running < SLOTS
        && var file := Program(img, CommandName(command));
           && entry[..] == ReadOver(old(entry[..]), file, ENTRY_OFFSET, ENTRY_SIZE)
           && memory[..] == Splice(old(memory[..]), LoadAddr(running), file)
      ensures o != Entered ==> memory[..] == old(memory[..])
    {
      var slot := ClaimSlot();
      if slot == SLOTS {
        return Refused;
      }
      var name, argument := SplitCommand(command, blocks[slot].argument);
      blocks := blocks[slot := blocks[slot].(argument := argument)];
      var inode := TestHeader(img, name, header);
      if inode == -1 {
        return Refused;
      }
      ReadEntry(img, name, inode, entry);
      page := PageOf(slot);
      LoadSlot(img, name, inode, memory, slot);
      Enter(slot, frame);
      return Entered;
    }

    /** The bytes of the entry point. */
    static method ReadEntry(img: Image, ghost name: seq<byte>, inode: nat, entry: array<byte>)
      requires Runnable(img) && Lookup(img, name) < img.dirCount && inode == img.entries[Lookup(img, name)].inode
      requires entry.Length == ENTRY_SIZE
      modifies entry
      ensures entry[..] == ReadOver(old(entry[..]), Program(img, name), ENTRY_OFFSET, ENTRY_SIZE)
    {
      assert SoundInode(img, inode);
      if ENTRY_OFFSET <= img.inodes[inode].length {
        var r := ReadSlice(img, inode, ENTRY_OFFSET, entry, 0, ENTRY_SIZE);
      } else {
        ghost var before := entry[..];
        var r := ReadData(img, inode, ENTRY_OFFSET, entry, 0, ENTRY_SIZE);
        assert forall j :: !Copied(img, inode, ENTRY_OFFSET, ENTRY_SIZE, j);
        assert entry[..] == before;
      }
    }

    /** The whole program, at its place in the slot's page. */
    static method LoadSlot(img: Image, ghost name: seq<byte>, inode: nat, memory: array<byte>, slot: nat)
      requires Runnable(img) && Lookup(img, name) < img.dirCount && inode == img.entries[Lookup(img, name)].inode
      requires memory.Length == SLOTS * USER_PAGE && slot < SLOTS && ProgramFits(img, name)
      modifies memory
      ensures memory[..] == Splice(old(memory[..]), LoadAddr(slot), Program(img, name))
    {
      assert SoundInode(img, inode);
      var l := Loader.LoadProgram(img, inode, memory, LoadAddr(slot));
    }

    /** Control block and stack of the new program; then the switch to it. */
    method Enter(slot: nat, frame: Frame)
      requires Shaped(Value()) && slot < SLOTS
      modifies this`blocks, this`esp0, this`running
      ensures esp0 == Esp0Of(slot) && running == slot
      ensures var b := old(blocks[slot]);
        blocks == old(blocks)[slot := Block(slot,
          if slot == 0 then b.parent else if slot == old(running) then slot else old(blocks[running]).procNum,
          frame, WithStd(b.fds), b.argument, terminal)]
    {
      blocks := blocks[slot := blocks[slot].(terminal := terminal)];
      blocks := blocks[slot := blocks[slot].(procNum := slot)];
      if slot != 0 {
        blocks := blocks[slot := blocks[slot].(parent := blocks[running].procNum)];
      }
      blocks := blocks[slot := blocks[slot].(fds := WithStd(blocks[slot].fds))];
      blocks := blocks[slot := blocks[slot].(frame := frame)];
      esp0 := Esp0Of(slot);
      running := slot;
    }

    /** Lookup and ELF test: the inode of the program, or -1. */
    static method TestHeader(img: Image, name: seq<byte>, header: array<byte>) returns (inode: int)
      requires Runnable(img) && NulFree(name) && header.Length == HEADER_BUF_SIZE
      modifies header
      ensures Loads(img, name, old(header[..])) ==>
        Lookup(img, name) < img.dirCount && inode == img.entries[Lookup(img, name)].inode
      ensures !Loads(img, name, old(header[..])) ==> inode == -1
    {
      var found := ReadDentryByName(img, name);
      if found.None? {
        return -1;
      }
      inode := found.value.inode;
      assert SoundInode(img, inode);
      var r := ReadSlice(img, inode, 0, header, 0, HEADER_BUF_SIZE);
      assert header[..][..4] == [header[0], header[1], header[2], header[3]];
      if !(header[0] == 0x7F && header[1] == 0x45 && header[2] == 0x4C && header[3] == 0x46) {
        return -1;
      }
    }

    /** `sys_getargs`: 128 bytes are copied whatever `nbytes` is. */
    method SysGetArgs(buf: array<byte>, nbytes: int) returns (r: int)
      requires Shaped(Value()) && buf.Length >= ARGUMENT_SIZE
      modifies buf
      ensures r == if nbytes < 0 || FieldString(blocks[running].argument) == [] then -1 else 0
      ensures buf[..] == if r == 0 then Splice(old(buf[..]), 0, blocks[running].argument) else old(buf[..])
      ensures (r, buf[..]) == GetArgsStep(Value(), old(buf[..]), nbytes)
    {
      var argument := blocks[running].argument;
      if nbytes < 0 || argument[0] == NUL {
        return -1;
      }
      var i := 0;
      while i < ARGUMENT_SIZE
        invariant 0 <= i <= ARGUMENT_SIZE
        invariant forall j :: 0 <= j < buf.Length ==> buf[j] == if j < i then argument[j] else old(buf[j])
      {
        buf[i] := argument[i];
        i := i + 1;
      }
      return 0;
    }

    /** `sys_halt`. */
    method SysHalt(img: Image, status: nat, frame: Frame, header: array<byte>, entry: array<byte>, memory: array<byte>)
      returns (o: Outcome)
      requires Runnable(img) && Shaped(Value()) && 0 <= blocks[running].procNum < SLOTS
      requires header.Length == HEADER_BUF_SIZE && entry.Length == ENTRY_SIZE && memory.Length == SLOTS * USER_PAGE
      requires header != entry && header != memory && entry != memory && ProgramFits(img, SHELL)
      modifies this, header, entry, memory
      ensures var loads := Loads(img, SHELL, old(header[..]));
        && Value() == HaltStep(old(Value()), status, frame, loads).0
        && o == HaltStep(old(Value()), status, frame, loads).1
      ensures o == Entered ==> Lookup(img, SHELL) < img.dirCount && 0 <= running < SLOTS
      ensures memory[..] ==
        if o == Entered then Splice(old(memory[..]), LoadAddr(running), Program(img, SHELL)) else old(memory[..])
    {
      var i := 0;
      var fds := blocks[running].fds;
      while i < D.PCB_LENGTH
        invariant 0 <= i <= |fds| == D.PCB_LENGTH
        invariant forall j :: 0 <= j < i ==> fds[j] == D.CLEARED
      {
        fds := fds[i := D.CLEARED];
        i := i + 1;
      }
      assert fds == ClearedTable();
      blocks := blocks[running := blocks[running].(fds := fds)];
      var b := blocks[running];
      processes := processes[b.procNum := 0];
      if b.procNum == 0 {
        assert IndexOf(SHELL, SPACE) == 5 && CommandName(SHELL) == SHELL;
        var again := SysExecute(img, SHELL, frame, header, entry, memory);
        if again == Entered {
          return Entered;
        }
      }
      page := PageOf(b.parent);
      esp0 := Esp0Of(b.parent);
      running := SlotOf(b.frame.esp);
      return Resumed(status % 256, b.frame);
    }
  }
}
