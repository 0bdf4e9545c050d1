/**
 Safety of whole runs of `sys_execute` and `sys_halt` (student-distrib/system_call.c).
 */
module Nesting {
  import opened Bytes
  import opened Processes
  import FileSystem
  import D = Descriptors

  /** What can happen next: the running program starts another, halts, or uses its descriptors while the
      user may switch terminals. */
  datatype Op =
    | Execute(command: seq<byte>, frame: Frame, loads: bool)
    | Halt(status: nat, frame: Frame, shellLoads: bool)
    | Work(fds: seq<D.Fd>, terminal: int)

  /** The kernel runs on the stack of the running slot, and commands and tables have their sizes. */
  ghost predicate Possible(k: State, op: Op) {
    && Shaped(k) && 0 <= k.blocks[k.running].procNum < SLOTS
    && match op
       case Execute(command, frame, _) => Fits(command) && SlotOf(frame.esp) == k.running
       case Halt(_, frame, _) => SlotOf(frame.esp) == k.running
       case Work(fds, _) => |fds| == D.PCB_LENGTH
  }

  /** One step; what is not possible does not happen. */
  ghost function Step(k: State, op: Op): (State, Outcome)
  {
    if !Possible(k, op) then (k, Refused)
    else match op
      case Execute(command, frame, loads) => ExecStep(k, command, frame, loads)
      case Halt(status, frame, shellLoads) => HaltStep(k, status, frame, shellLoads)
      case Work(fds, terminal) =>
        (k.(blocks := k.blocks[k.running := k.blocks[k.running].(fds := fds)], terminal := terminal), Refused)
  }

  ghost function Run(k: State, ops: seq<Op>): State
    decreases |ops|
  {
    if ops == [] then k else Run(Step(k, ops[0]).0, ops[1..])
  }

  /** A load that failed after claiming a slot. */
  ghost predicate FailedClaim(k: State, op: Op)
  {
    Possible(k, op) && op.Execute? && FreeSlot(k.processes) < SLOTS && Step(k, op).1 == Refused
  }

  ghost function FailedClaims(k: State, ops: seq<Op>): nat
    decreases |ops|
  {
    if ops == [] then 0
    else (if FailedClaim(k, ops[0]) then 1 else 0) + FailedClaims(Step(k, ops[0]).0, ops[1..])
  }

  // ----- the invariant -----

  ghost predicate Distinct(chain: seq<int>) {
    forall i, j :: 0 <= i < j < |chain| ==> chain[i] != chain[j]
  }

  ghost predicate Clean(fds: seq<D.Fd>) {
    forall i :: 0 <= i < |fds| ==> fds[i].flags == 0 && fds[i].position == 0 && fds[i].ops == D.NoOps
  }

  /** The parent links from the running slot pass through `chain` and end at slot 0; each block's
      frame lies in its parent's stack. */
  ghost predicate ParentChain(k: State, chain: seq<int>)
    requires Shaped(k)
  {
    && |chain| >= 1 && chain[0] == k.running && chain[|chain| - 1] == 0
    && Distinct(chain)
    && (forall i :: 0 <= i < |chain| ==> 0 <= chain[i] < SLOTS)
    && (forall i {:trigger k.blocks[chain[i]]} :: 0 <= i < |chain| ==> k.blocks[chain[i]].procNum == chain[i])
    && (forall i {:trigger k.blocks[chain[i]]} :: 0 <= i < |chain| - 1 ==>
          k.blocks[chain[i]].parent == chain[i + 1] && SlotOf(k.blocks[chain[i]].frame.esp) == chain[i + 1])
  }

  /** Slot 0 was entered from its own stack, and its parent field, which nothing writes, is still 0. */
  ghost predicate Grounded(k: State)
    requires Shaped(k)
  {
    k.blocks[0].parent == 0 && SlotOf(k.blocks[0].frame.esp) == 0
  }

  /** The invariant: `Linked`, and a base shell that can be resumed if it cannot be started again. */
  ghost predicate Inv(k: State, chain: seq<int>, lost: set<int>) {
    Linked(k, chain, lost) && Grounded(k)
  }

  /** The occupied slots are the live chain and the slots lost to failed loads, the mapping and the
      kernel stack are those of the running slot, and every slot outside the chain has a clean table. */
  ghost predicate Linked(k: State, chain: seq<int>, lost: set<int>) {
    && Shaped(k) && ParentChain(k, chain)
    && k.page == PageOf(k.running) && k.esp0 == Esp0Of(k.running)
    && (forall s :: s in lost ==> 0 <= s < SLOTS && s !in chain)
    && (forall s :: 0 <= s < SLOTS ==> k.processes[s] == if s in chain || s in lost then 1 else 0)
    && (forall s :: 0 <= s < SLOTS && s !in chain ==> Clean(k.blocks[s].fds))
  }

  /** The chain and the lost slots after a step. */
  ghost function NextChain(k: State, chain: seq<int>, op: Op): seq<int>
  {
    if !Possible(k, op) then chain
    else match op
      case Execute(_, _, _) => if Step(k, op).1 == Entered then [FreeSlot(k.processes)] + chain else chain
      case Halt(_, _, _) => if |chain| > 1 then chain[1..] else chain
      case Work(_, _) => chain
  }

  ghost function NextLost(k: State, lost: set<int>, op: Op): set<int>
  {
    if FailedClaim(k, op) then lost + {FreeSlot(k.processes) as int} else lost
  }

  /** The start of the system: memory is zero, the boot stack lies below 8 MB, and slot 0 runs the shell. */
  lemma {:induction false} BootInv(k: State, frame: Frame)
    requires Shaped(k) && forall s :: 0 <= s < SLOTS ==> k.processes[s] == 0 && Clean(k.blocks[s].fds)
    requires k.blocks[0].parent == 0 && SlotOf(frame.esp) == 0
    ensures Inv(ExecStep(k, SHELL, frame, true).0, [0], {})
  {
    ShellEnters(k, frame);
    BaseInv(ExecStep(k, SHELL, frame, true).0, {});
  }

  /** Starting the shell when slot 0 is free. */
  lemma {:induction false} ShellEnters(k: State, frame: Frame)
    requires Shaped(k) && k.processes[0] == 0
    ensures var b := k.blocks[0];
      var entered := Block(0, b.parent, frame, WithStd(b.fds), b.argument, k.terminal);
      ExecStep(k, SHELL, frame, true) ==
        (State(k.processes[0 := 1], k.blocks[0 := entered], PageOf(0), Esp0Of(0), 0, k.terminal), Entered)
    ensures ExecStep(k, SHELL, frame, false) == (k.(processes := k.processes[0 := 1]), Refused)
  {
    assert IndexOf(SHELL, SPACE) == 5 && CommandName(SHELL) == SHELL;
    assert FreeSlot(k.processes) == 0;
    var b := k.blocks[0];
    assert k.blocks[0 := b.(argument := StoredArgument(b.argument, SHELL))] == k.blocks;
  }

  /** A state in which only slot 0 is live. */
  lemma {:induction false} BaseInv(k: State, lost: set<int>)
    requires Shaped(k) && k.running == 0 && k.page == PageOf(0) && k.esp0 == Esp0Of(0) && k.blocks[0].procNum == 0
    requires forall s :: s in lost ==> 1 <= s < SLOTS
    requires forall s :: 0 <= s < SLOTS ==> k.processes[s] == if s == 0 || s in lost then 1 else 0
    requires forall s :: 1 <= s < SLOTS ==> Clean(k.blocks[s].fds)
    ensures Linked(k, [0], lost)
    ensures Grounded(k) ==> Inv(k, [0], lost)
  {
  }

  lemma {:induction false} ExecuteInv(k: State, chain: seq<int>, lost: set<int>, op: Op)
    requires Inv(k, chain, lost) && op.Execute? && Possible(k, op)
    ensures Inv(Step(k, op).0, NextChain(k, chain, op), NextLost(k, lost, op))
  {
    var slot := FreeSlot(k.processes);
    var (k', o) := Step(k, op);
    if slot < SLOTS {
      assert slot !in chain && slot !in lost;
      assert k.running == chain[0] && k.running in chain;
      assert k.blocks[chain[0]].procNum == chain[0];
      if o == Entered {
        EnterInv(k, k', chain, lost, slot);
      } else {
        LostInv(k, k', chain, lost, slot);
      }
    }
  }

  lemma {:induction false} EnterInv(k: State, k': State, chain: seq<int>, lost: set<int>, slot: int)
    requires Inv(k, chain, lost) && Shaped(k') && 0 <= slot < SLOTS && slot !in chain && slot !in lost
    requires forall s :: 0 <= s < SLOTS && s != slot ==> k'.blocks[s] == k.blocks[s]
    requires k'.processes == k.processes[slot := 1]
    requires k'.running == slot == k'.blocks[slot].procNum && k'.page == PageOf(slot) && k'.esp0 == Esp0Of(slot)
    requires k'.blocks[slot].parent == k.running == SlotOf(k'.blocks[slot].frame.esp)
    ensures Inv(k', [slot] + chain, lost)
  {
    EnterChain(k, k', chain, slot);
    assert forall s :: s in [slot] + chain <==> s == slot || s in chain;
  }

  lemma {:induction false} LostInv(k: State, k': State, chain: seq<int>, lost: set<int>, slot: int)
    requires Inv(k, chain, lost) && Shaped(k') && 0 <= slot < SLOTS && slot !in chain && slot !in lost
    requires forall s :: 0 <= s < SLOTS && s != slot ==> k'.blocks[s] == k.blocks[s]
    requires k'.processes == k.processes[slot := 1] && k'.blocks[slot].fds == k.blocks[slot].fds
    requires k'.running == k.running && k'.page == k.page && k'.esp0 == k.esp0
    ensures Inv(k', chain, lost + {slot})
  {
    assert forall i :: 0 <= i < |chain| ==> chain[i] in chain;
    SameChain(k, k', chain);
  }

  lemma {:induction false} EnterChain(k: State, k': State, chain: seq<int>, slot: int)
    requires Shaped(k) && Shaped(k') && ParentChain(k, chain) && 0 <= slot < SLOTS && slot !in chain
    requires forall s :: 0 <= s < SLOTS && s != slot ==> k'.blocks[s] == k.blocks[s]
    requires k'.running == slot == k'.blocks[slot].procNum
    requires k'.blocks[slot].parent == k.running == SlotOf(k'.blocks[slot].frame.esp)
    ensures ParentChain(k', [slot] + chain)
  {
    var chain' := [slot] + chain;
    forall i | 0 <= i < |chain'|
      ensures 0 <= chain'[i] < SLOTS && k'.blocks[chain'[i]].procNum == chain'[i]
      ensures i > 0 ==> chain'[i] != slot
      ensures i < |chain'| - 1 ==>
        k'.blocks[chain'[i]].parent == chain'[i + 1] && SlotOf(k'.blocks[chain'[i]].frame.esp) == chain'[i + 1]
    {
      if i > 0 {
        assert chain'[i] == chain[i - 1] && chain[i - 1] in chain;
        assert k'.blocks[chain[i - 1]] == k.blocks[chain[i - 1]];
      }
    }
  }

  /** Blocks may change where the chain does not look. */
  lemma {:induction false} SameChain(k: State, k': State, chain: seq<int>)
    requires Shaped(k) && Shaped(k') && ParentChain(k, chain) && k'.running == k.running
    requires forall i {:trigger k'.blocks[chain[i]]} :: 0 <= i < |chain| ==>
      var b, b' := k.blocks[chain[i]], k'.blocks[chain[i]];
      b'.procNum == b.procNum && b'.parent == b.parent && b'.frame == b.frame
    ensures ParentChain(k', chain)
  {
    forall i | 0 <= i < |chain|
      ensures k'.blocks[chain[i]].procNum == chain[i]
      ensures i < |chain| - 1 ==>
        k'.blocks[chain[i]].parent == chain[i + 1] && SlotOf(k'.blocks[chain[i]].frame.esp) == chain[i + 1]
    {
      assert k.blocks[chain[i]].procNum == chain[i];
    }
  }

  lemma {:induction false} HaltInv(k: State, chain: seq<int>, lost: set<int>, op: Op)
    requires Inv(k, chain, lost) && op.Halt? && Possible(k, op)
    ensures Inv(Step(k, op).0, NextChain(k, chain, op), lost)
    ensures |chain| > 1 ==> Step(k, op).1 == Resumed(op.status % 256, k.blocks[k.running].frame)
  {
    var (k', o) := Step(k, op);
    assert k.blocks[chain[0]].procNum == chain[0];
    if |chain| > 1 {
      assert chain[0] != chain[|chain| - 1];
      assert k.blocks[chain[0]].parent == chain[1];
      LeaveInv(k, k', chain, lost);
    } else {
      assert chain == [0];
      RestartInv(k, lost, op);
    }
  }

  /** The state the base shell leaves when it halts, before it is started again. */
  ghost function BaseFreed(k: State): State
    requires Shaped(k)
  {
    k.(processes := k.processes[0 := 0], blocks := k.blocks[0 := k.blocks[0].(fds := ClearedTable())])
  }

  lemma {:induction false} BaseRestarts(k: State, op: Op)
    requires op.Halt? && Possible(k, op) && k.running == 0 == k.blocks[0].procNum
    ensures op.shellLoads ==> Step(k, op) == ExecStep(BaseFreed(k), SHELL, op.frame, true)
    ensures !op.shellLoads ==> var b, freed := k.blocks[0], BaseFreed(k);
      Step(k, op) == (freed.(processes := k.processes[0 := 0][0 := 1], page := PageOf(b.parent),
                             esp0 := Esp0Of(b.parent), running := SlotOf(b.frame.esp)),
                      Resumed(op.status % 256, b.frame))
  {
    ShellEnters(BaseFreed(k), op.frame);
  }

  /** The base shell halts and is started again in slot 0, or resumed there if it cannot be. */
  lemma {:induction false} RestartInv(k: State, lost: set<int>, op: Op)
    requires Inv(k, [0], lost) && op.Halt? && Possible(k, op)
    ensures Inv(Step(k, op).0, [0], lost)
  {
    assert k.blocks[[0][0]].procNum == 0;
    BaseRestarts(k, op);
    ShellEnters(BaseFreed(k), op.frame);
    RestartedInv(k, Step(k, op).0, lost);
  }

  lemma {:induction false} RestartedInv(k: State, k': State, lost: set<int>)
    requires Linked(k, [0], lost) && Shaped(k') && |k'.processes| == |k.processes|
    requires k'.processes == k.processes[0 := 0][0 := 1]
    requires k'.running == 0 == k'.blocks[0].procNum && k'.page == PageOf(0) && k'.esp0 == Esp0Of(0)
    requires forall s :: 1 <= s < SLOTS ==> k'.blocks[s] == k.blocks[s]
    ensures Linked(k', [0], lost)
    ensures Grounded(k') ==> Inv(k', [0], lost)
  {
    assert forall s :: s in [0] <==> s == 0;
    BaseInv(k', lost);
  }

  /** Why the invariant grounds slot 0: when the base shell halts and no shell can be loaded, the state stays
      in order if and only if slot 0 is its own parent and was entered from its own stack. */
  lemma {:induction false} BaseHaltIff(k: State, lost: set<int>, op: Op)
    requires Linked(k, [0], lost) && op.Halt? && Possible(k, op) && !op.shellLoads
    ensures Linked(Step(k, op).0, [0], lost) <==> Grounded(k)
  {
    assert k.blocks[[0][0]].procNum == 0;
    BaseRestarts(k, op);
    var k' := Step(k, op).0;
    if Grounded(k) {
      RestartedInv(k, k', lost);
    }
  }

  lemma {:induction false} LeaveInv(k: State, k': State, chain: seq<int>, lost: set<int>)
    requires Inv(k, chain, lost) && Shaped(k') && |chain| > 1
    requires forall s :: 0 <= s < SLOTS && s != chain[0] ==> k'.blocks[s] == k.blocks[s]
    requires k'.processes == k.processes[chain[0] := 0] && k'.blocks[chain[0]].fds == ClearedTable()
    requires k'.running == chain[1] && k'.page == PageOf(chain[1]) && k'.esp0 == Esp0Of(chain[1])
    ensures Inv(k', chain[1..], lost)
  {
    LeaveChain(k, k', chain);
    assert forall s :: s in chain[1..] <==> s in chain && s != chain[0];
  }

  lemma {:induction false} LeaveChain(k: State, k': State, chain: seq<int>)
    requires Shaped(k) && Shaped(k') && ParentChain(k, chain) && |chain| > 1 && k'.running == chain[1]
    requires forall s :: 0 <= s < SLOTS && s != chain[0] ==> k'.blocks[s] == k.blocks[s]
    ensures ParentChain(k', chain[1..])
  {
    var rest := chain[1..];
    forall i | 0 <= i < |rest|
      ensures k'.blocks[rest[i]].procNum == rest[i]
      ensures i < |rest| - 1 ==>
        k'.blocks[rest[i]].parent == rest[i + 1] && SlotOf(k'.blocks[rest[i]].frame.esp) == rest[i + 1]
    {
      assert rest[i] == chain[i + 1] != chain[0];
      assert k'.blocks[chain[i + 1]] == k.blocks[chain[i + 1]];
    }
  }

  lemma {:induction false} StepInv(k: State, chain: seq<int>, lost: set<int>, op: Op)
    requires Inv(k, chain, lost)
    ensures Inv(Step(k, op).0, NextChain(k, chain, op), NextLost(k, lost, op))
  {
    if Possible(k, op) {
      match op
      case Execute(_, _, _) => ExecuteInv(k, chain, lost, op);
      case Halt(_, _, _) => HaltInv(k, chain, lost, op);
      case Work(_, _) => WorkInv(k, chain, lost, op);
    }
  }

  lemma {:induction false} LostCount(k: State, chain: seq<int>, lost: set<int>, op: Op)
    requires Inv(k, chain, lost)
    ensures lost <= NextLost(k, lost, op)
    ensures |NextLost(k, lost, op)| == |lost| + if FailedClaim(k, op) then 1 else 0
  {
    if FailedClaim(k, op) {
      assert k.processes[FreeSlot(k.processes)] == 0;
    }
  }

  lemma {:induction false} WorkInv(k: State, chain: seq<int>, lost: set<int>, op: Op)
    requires Inv(k, chain, lost) && op.Work? && Possible(k, op)
    ensures Inv(Step(k, op).0, chain, lost)
  {
    assert chain[0] in chain;
    SameChain(k, Step(k, op).0, chain);
  }

  /** Every reachable state keeps the invariant, and exactly one slot is lost for each failed load
      that had claimed one. */
  lemma {:induction false} RunInv(k: State, chain: seq<int>, lost: set<int>, ops: seq<Op>)
    returns (chain': seq<int>, lost': set<int>)
    requires Inv(k, chain, lost)
    ensures Inv(Run(k, ops), chain', lost')
    ensures lost <= lost' && |lost'| == |lost| + FailedClaims(k, ops)
    decreases |ops|
  {
    chain', lost' := chain, lost;
    if ops != [] {
      StepInv(k, chain, lost, ops[0]);
      LostCount(k, chain, lost, ops[0]);
      chain', lost' := RunInv(Step(k, ops[0]).0, NextChain(k, chain, ops[0]), NextLost(k, lost, ops[0]), ops[1..]);
    }
  }

  // ----- the table of a new program -----

  /** In any reachable state a program that is entered has the standard descriptors and six free ones, and belongs
      to the current terminal. */
  lemma {:induction false} EnteredTable(k: State, chain: seq<int>, lost: set<int>, op: Op)
    requires Inv(k, chain, lost) && op.Execute? && Possible(k, op) && Step(k, op).1 == Entered
    ensures Shaped(Step(k, op).0) && D.StartTable(Step(k, op).0.blocks[Step(k, op).0.running].fds)
    ensures Step(k, op).0.blocks[Step(k, op).0.running].terminal == k.terminal == Step(k, op).0.terminal
  {
    var slot := FreeSlot(k.processes);
    assert slot !in chain;
    assert Clean(k.blocks[slot].fds);
    StepInv(k, chain, lost, op);
  }

  /** So its descriptors deliver their files, whatever calls it makes and whatever ran before it. */
  lemma {:induction false} NewProgramReads(img: FileSystem.Image, k: State, chain: seq<int>, lost: set<int>, op: Op,
                                           calls: seq<D.Call>, fd: int)
    requires FileSystem.WellFormed(img) && 2 <= fd < D.PCB_LENGTH
    requires Inv(k, chain, lost) && op.Execute? && Possible(k, op) && Step(k, op).1 == Entered
    ensures var k' := Step(k, op).0;
      && Shaped(k') && var h := D.Run(img, k'.blocks[k'.running].fds, calls);
      && D.TableOk(img, h.fds) && D.InStep(img, h.fds[fd], D.Received(h.trace, fd))
  {
    EnteredTable(k, chain, lost, op);
    var start := Step(k, op).0.blocks[Step(k, op).0.running].fds;
    D.StartTableOk(img, start);
    D.RunKeepsTable(img, start, calls);
    D.StreamsDoNotInterfere(img, start, calls, fd);
  }

  // ----- an execute and its halt -----

  /** The program in `slot` does not halt during the run; programs it starts may. */
  ghost predicate Survives(k: State, ops: seq<Op>, slot: int)
    decreases |ops|
  {
    ops != [] ==> !(ops[0].Halt? && k.running == slot) && Survives(Step(k, ops[0]).0, ops[1..], slot)
  }

  /** What a parent finds again: its whole block but the descriptors, and everything of the programs behind it. */
  ghost predicate Kept(k: State, k': State, base: seq<int>)
    requires Shaped(k) && Shaped(k') && forall i :: 0 <= i < |base| ==> 0 <= base[i] < SLOTS
  {
    forall i {:trigger k'.blocks[base[i]]} :: 0 <= i < |base| ==>
      var b, b' := k.blocks[base[i]], k'.blocks[base[i]];
      b' == b.(fds := b'.fds) && (i > 0 ==> b' == b)
  }

  lemma {:induction false} StepKeepsBase(k: State, top: seq<int>, base: seq<int>, lost: set<int>, op: Op)
    requires Inv(k, top + base, lost) && |base| >= 2
    requires !(op.Halt? && k.running == base[0])
    ensures NextChain(k, top + base, op) == NextTop(k, top, op) + base
    ensures Shaped(Step(k, op).0) && (forall i :: 0 <= i < |base| ==> 0 <= base[i] < SLOTS)
    ensures Kept(k, Step(k, op).0, base)
  {
    var chain := top + base;
    InChain(k, top, base, lost);
    ChainSplits(k, top, base, op);
    StepInv(k, chain, lost, op);
    if Possible(k, op) {
      StepTouches(k, op);
      BaseKept(k, Step(k, op).0, top, base);
    }
  }

  /** The slots of the chain are occupied, and only at its end is slot 0 running. */
  lemma {:induction false} InChain(k: State, top: seq<int>, base: seq<int>, lost: set<int>)
    requires Inv(k, top + base, lost) && |base| >= 2
    ensures forall i :: 0 <= i < |base| ==> 0 <= base[i] < SLOTS && k.processes[base[i]] != 0
    ensures k.processes[k.running] != 0 && k.blocks[k.running].procNum == k.running != 0
    ensures top == [] ==> k.running == base[0]
  {
    var chain := top + base;
    forall i | 0 <= i < |base|
      ensures 0 <= base[i] < SLOTS && k.processes[base[i]] != 0
    {
      assert base[i] == chain[|top| + i] && base[i] in chain;
    }
    assert chain[0] in chain && chain[0] != chain[|chain| - 1];
    assert k.blocks[chain[0]].procNum == chain[0];
  }

  lemma {:induction false} ChainSplits(k: State, top: seq<int>, base: seq<int>, op: Op)
    requires |base| >= 2 && (top == [] && op.Halt? ==> !Possible(k, op))
    ensures NextChain(k, top + base, op) == NextTop(k, top, op) + base
  {
    if Possible(k, op) {
      if op.Halt? {
        assert (top + base)[1..] == top[1..] + base;
      } else if op.Execute? {
        assert [FreeSlot(k.processes) as int] + (top + base) == ([FreeSlot(k.processes) as int] + top) + base;
      }
    }
  }

  /** A step changes the block of the slot it claims, and of the running one only the table. */
  lemma {:induction false} StepTouches(k: State, op: Op)
    requires Possible(k, op) && (op.Halt? ==> k.blocks[k.running].procNum != 0)
    requires k.processes[k.running] != 0 && Shaped(Step(k, op).0)
    ensures var k' := Step(k, op).0;
      && (forall s :: 0 <= s < SLOTS && s != k.running && k.processes[s] != 0 ==> k'.blocks[s] == k.blocks[s])
      && k'.blocks[k.running] == k.blocks[k.running].(fds := k'.blocks[k.running].fds)
      && (op.Execute? ==> k'.blocks[k.running] == k.blocks[k.running])
  {
  }

  lemma {:induction false} BaseKept(k: State, k': State, top: seq<int>, base: seq<int>)
    requires Shaped(k) && Shaped(k') && Distinct(top + base) && |base| >= 1 && (top + base)[0] == k.running
    requires forall i :: 0 <= i < |base| ==> 0 <= base[i] < SLOTS && k.processes[base[i]] != 0
    requires forall s :: 0 <= s < SLOTS && s != k.running && k.processes[s] != 0 ==> k'.blocks[s] == k.blocks[s]
    requires k'.blocks[k.running] == k.blocks[k.running].(fds := k'.blocks[k.running].fds)
    ensures Kept(k, k', base)
  {
    var chain := top + base;
    forall i | 0 <= i < |base|
      ensures var b, b' := k.blocks[base[i]], k'.blocks[base[i]];
        b' == b.(fds := b'.fds) && (i > 0 ==> b' == b)
    {
      assert base[i] == chain[|top| + i];
    }
  }

  ghost function NextTop(k: State, top: seq<int>, op: Op): seq<int>
  {
    if !Possible(k, op) then top
    else match op
      case Execute(_, _, _) => if Step(k, op).1 == Entered then [FreeSlot(k.processes)] + top else top
      case Halt(_, _, _) => if top == [] then [] else top[1..]
      case Work(_, _) => top
  }

  lemma {:induction false} RunKeepsBase(k: State, top: seq<int>, base: seq<int>, lost: set<int>, ops: seq<Op>)
    returns (top': seq<int>, lost': set<int>)
    requires Inv(k, top + base, lost) && |base| >= 2
    requires Survives(k, ops, base[0])
    ensures Inv(Run(k, ops), top' + base, lost')
    ensures lost <= lost' && |lost'| == |lost| + FailedClaims(k, ops)
    ensures (forall i :: 0 <= i < |base| ==> 0 <= base[i] < SLOTS) && Kept(k, Run(k, ops), base)
    decreases |ops|
  {
    var chain := top + base;
    assert forall i :: 0 <= i < |base| ==> base[i] == chain[|top| + i];
    top', lost' := top, lost;
    if ops != [] {
      var k1 := Step(k, ops[0]).0;
      StepInv(k, chain, lost, ops[0]);
      LostCount(k, chain, lost, ops[0]);
      StepKeepsBase(k, top, base, lost, ops[0]);
      top', lost' := RunKeepsBase(k1, NextTop(k, top, ops[0]), base, NextLost(k, lost, ops[0]), ops[1..]);
      KeptTrans(k, k1, Run(k, ops), base);
    }
  }

  lemma {:induction false} KeptTrans(k: State, k1: State, k2: State, base: seq<int>)
    requires Shaped(k) && Shaped(k1) && Shaped(k2) && forall i :: 0 <= i < |base| ==> 0 <= base[i] < SLOTS
    requires Kept(k, k1, base) && Kept(k1, k2, base)
    ensures Kept(k, k2, base)
  {
    forall i | 0 <= i < |base|
      ensures var b, b' := k.blocks[base[i]], k2.blocks[base[i]];
        b' == b.(fds := b'.fds) && (i > 0 ==> b' == b)
    {
      var b1 := k1.blocks[base[i]];
    }
  }

  /** A successful execute, then whatever the new program does, then its halt: the parent is running
      again at the frame it left, with its mapping and kernel stack, every block of the chain as it
      was, and no slot occupied that was not, except one per failed load in between. */
  lemma {:induction false} ExecuteHaltRestores(k: State, k1: State, k2: State, chain: seq<int>, lost: set<int>,
                                               start: Op, ops: seq<Op>, halt: Op) returns (lost': set<int>)
    requires Inv(k, chain, lost)
    requires start.Execute? && Possible(k, start) && Step(k, start) == (k1, Entered)
    requires Survives(k1, ops, k1.running) && k2 == Run(k1, ops) && k2.running == k1.running
    requires halt.Halt? && Possible(k2, halt)
    ensures var (k3, o) := Step(k2, halt);
      && o == Resumed(halt.status % 256, start.frame)
      && k3.running == k.running && k3.page == k.page && k3.esp0 == k.esp0
      && Inv(k3, chain, lost')
      && (forall s :: s in chain ==> k3.blocks[s] == k.blocks[s])
    ensures lost <= lost' && |lost'| == |lost| + FailedClaims(k1, ops)
    ensures FailedClaims(k1, ops) == 0 ==> Step(k2, halt).0.processes == k.processes
  {
    var base := [k1.running] + chain;
    EnteredInv(k, k1, chain, lost, start);
    assert [] + base == base;
    var top;
    top, lost' := RunKeepsBase(k1, [], base, lost, ops);
    TopEmpty(k2, top, base, lost');
    ParentResumes(k, k1, k2, chain, lost, lost', start, halt);
    SubsetCount(lost, lost');
    if |lost| == |lost'| {
      SameProcesses(k, Step(k2, halt).0, chain, lost);
    }
  }

  lemma {:induction false} EnteredInv(k: State, k1: State, chain: seq<int>, lost: set<int>, start: Op)
    requires Inv(k, chain, lost)
    requires start.Execute? && Possible(k, start) && Step(k, start) == (k1, Entered)
    ensures Inv(k1, [k1.running] + chain, lost)
  {
    StepInv(k, chain, lost, start);
  }

  lemma {:induction false} SameProcesses(k: State, k': State, chain: seq<int>, lost: set<int>)
    requires Inv(k, chain, lost) && Inv(k', chain, lost)
    ensures k.processes == k'.processes
  {
  }

  /** The halt of a program that is back on top of the chain its parent had. */
  lemma {:induction false} ParentResumes(k: State, k1: State, k2: State, chain: seq<int>, lost: set<int>,
                                         lost': set<int>, start: Op, halt: Op)
    requires Inv(k, chain, lost)
    requires start.Execute? && Possible(k, start) && Step(k, start) == (k1, Entered)
    requires Inv(k1, [k1.running] + chain, lost) && Inv(k2, [k1.running] + chain, lost')
    requires forall i :: 0 <= i < |chain| + 1 ==> 0 <= ([k1.running] + chain)[i] < SLOTS
    requires Kept(k1, k2, [k1.running] + chain)
    requires halt.Halt? && Possible(k2, halt)
    ensures var (k3, o) := Step(k2, halt);
      && o == Resumed(halt.status % 256, start.frame)
      && k3.running == k.running && k3.page == k.page && k3.esp0 == k.esp0
      && Inv(k3, chain, lost')
      && (forall s :: s in chain ==> k3.blocks[s] == k.blocks[s])
  {
    var base := [k1.running] + chain;
    HaltInv(k2, base, lost', halt);
    assert base[1..] == chain;
    assert k2.blocks[base[0]].frame == k1.blocks[base[0]].frame == start.frame;
    assert k2.blocks[base[0]].procNum == base[0] != base[|base| - 1];
    forall s | s in chain
      ensures Step(k2, halt).0.blocks[s] == k.blocks[s]
    {
      BlockBack(k, k1, k2, chain, lost, start, halt, s);
    }
  }

  lemma {:induction false} BlockBack(k: State, k1: State, k2: State, chain: seq<int>, lost: set<int>, start: Op,
                                     halt: Op, s: int)
    requires Inv(k, chain, lost) && s in chain
    requires start.Execute? && Possible(k, start) && Step(k, start) == (k1, Entered) && Shaped(k1)
    requires Shaped(k2) && k2.running == k1.running && k2.blocks[k2.running].procNum != 0
    requires Distinct([k1.running] + chain)
    requires forall i :: 0 <= i < |chain| + 1 ==> 0 <= ([k1.running] + chain)[i] < SLOTS
    requires Kept(k1, k2, [k1.running] + chain)
    requires halt.Halt? && Possible(k2, halt)
    ensures Step(k2, halt).0.blocks[s] == k.blocks[s]
  {
    var base := [k1.running] + chain;
    var i :| 0 <= i < |chain| && chain[i] == s;
    assert k.processes[s] == 1;
    assert base[i + 1] == s != base[0];
    assert k2.blocks[base[i + 1]] == k1.blocks[base[i + 1]];
    HaltTouches(k2, halt, s);
  }

  lemma {:induction false} HaltTouches(k: State, halt: Op, s: int)
    requires halt.Halt? && Possible(k, halt) && k.blocks[k.running].procNum != 0
    requires 0 <= s < SLOTS && s != k.running
    ensures Step(k, halt).0.blocks[s] == k.blocks[s]
  {
  }

  lemma {:induction false} TopEmpty(k: State, top: seq<int>, base: seq<int>, lost: set<int>)
    requires Inv(k, top + base, lost) && |base| > 0 && k.running == base[0]
    ensures top == [] && top + base == base
  {
    var chain := top + base;
    assert chain[|top|] == base[0];
  }

  // ----- the argument of a program -----

  /** A running program, as long as it has not halted, has the argument field it was entered with. */
  lemma {:induction false} FieldLasts(k: State, k1: State, k2: State, chain: seq<int>, lost: set<int>, start: Op,
                                      ops: seq<Op>)
    requires Inv(k, chain, lost)
    requires start.Execute? && Possible(k, start) && Step(k, start) == (k1, Entered)
    requires Survives(k1, ops, k1.running) && k2 == Run(k1, ops) && k2.running == k1.running
    ensures Shaped(k1) && Shaped(k2) && k1.running == FreeSlot(k.processes)
    ensures k2.blocks[k2.running].argument == k1.blocks[k1.running].argument
  {
    EnteredInv(k, k1, chain, lost, start);
    TopFieldLasts(k1, chain, lost, ops);
  }

  lemma {:induction false} TopFieldLasts(k1: State, chain: seq<int>, lost: set<int>, ops: seq<Op>)
    requires Inv(k1, [k1.running] + chain, lost) && chain != [] && Survives(k1, ops, k1.running)
    ensures var k2 := Run(k1, ops);
      Shaped(k2) && k2.blocks[k1.running].argument == k1.blocks[k1.running].argument
  {
    var base := [k1.running] + chain;
    EmptyConcat(base);
    var top, lost' := RunKeepsBase(k1, [], base, lost, ops);
    assert base[0] == k1.running;
  }

  /** From its start to its halt, whatever it and the programs it starts do, `getargs` gives a program what followed the
      first space of its command, with a NUL behind it, if that is not empty, and otherwise fails. */
  lemma {:induction false} ArgumentDelivered(k: State, k1: State, k2: State, chain: seq<int>, lost: set<int>, start: Op,
                                             ops: seq<Op>, name: seq<byte>, text: seq<byte>, buf: seq<byte>, n: nat)
    requires Inv(k, chain, lost)
    requires start.Execute? && Possible(k, start) && Step(k, start) == (k1, Entered)
    requires Survives(k1, ops, k1.running) && k2 == Run(k1, ops) && k2.running == k1.running
    requires start.command == name + [SPACE] + text && Free(name, SPACE) && |buf| >= ARGUMENT_SIZE
    ensures Shaped(k2)
    ensures var (r, buf') := GetArgsStep(k2, buf, n);
      if text == [] then r == -1 && buf' == buf
      else r == 0 && text + [NUL] <= buf' && buf'[ARGUMENT_SIZE..] == buf[ARGUMENT_SIZE..]
  {
    FieldLasts(k, k1, k2, chain, lost, start, ops);
    SplitsThere(start.command, name, text);
    FieldHolds(k.blocks[k1.running].argument, start.command, text);
    var field := k2.blocks[k2.running].argument;
    assert field[..|text| + 1] == text + [NUL];
    if text != [] {
      assert Splice(buf, 0, field)[..|text| + 1] == field[..|text| + 1];
    }
  }

  lemma {:induction false} SplitsThere(command: seq<byte>, name: seq<byte>, text: seq<byte>)
    requires command == name + [SPACE] + text && Free(name, SPACE)
    ensures HasArgument(command) && ArgumentOf(command) == text && CommandName(command) == name
  {
    assert command[|name|] == SPACE && forall j :: 0 <= j < |name| ==> command[j] == name[j];
    IndexOfIs(command, SPACE, |name|);
  }

  lemma {:induction false} FieldHolds(field: seq<byte>, command: seq<byte>, text: seq<byte>)
    requires Fits(command) && HasArgument(command) && ArgumentOf(command) == text && |field| == ARGUMENT_SIZE
    ensures StoredArgument(field, command)[..|text| + 1] == text + [NUL]
    ensures text != [] ==> StoredArgument(field, command)[0] != NUL
  {
    assert forall j :: 0 <= j < |text| ==> text[j] == command[IndexOf(command, SPACE) + 1 + j];
  }

  /** A command without a space leaves its program what the last program in the slot had. */
  lemma {:induction false} ArgumentLeftOver(k: State, k1: State, k2: State, chain: seq<int>, lost: set<int>, start: Op,
                                            ops: seq<Op>, buf: seq<byte>, n: nat)
    requires Inv(k, chain, lost)
    requires start.Execute? && Possible(k, start) && Step(k, start) == (k1, Entered)
    requires Survives(k1, ops, k1.running) && k2 == Run(k1, ops) && k2.running == k1.running
    requires Free(start.command, SPACE) && |buf| >= ARGUMENT_SIZE
    ensures Shaped(k2)
    ensures var old_ := k.blocks[FreeSlot(k.processes)].argument;
      GetArgsStep(k2, buf, n) == if old_[0] == NUL then (-1, buf) else (0, old_ + buf[ARGUMENT_SIZE..])
  {
    FieldLasts(k, k1, k2, chain, lost, start, ops);
    IndexOfIs(start.command, SPACE, |start.command|);
    var field := k2.blocks[k2.running].argument;
    assert Splice(buf, 0, field) == field + buf[ARGUMENT_SIZE..];
  }
}
