/** analysis.c: `__eval_target`, the emulation of the branch that ends a block, and when it agrees
    with the CPU. */
module Emulation {
  import opened Words
  import opened Registers
  import Keys
  import opened Conditions
  import opened Guest

  /** Fatal: the engine reports and ends the process. Otherwise the address of the next block, the
      saved state and memory, and whether a system call was left for the hardware to run. */
  datatype Outcome = Fatal | Go(target: Word, st: State, mem: Memory, deferred: bool)

  /** The address a memory operand designates; None where a register read fails. */
  function OperandAddress(i: Insn, st: State): Option<Word>
    requires i.op.OpMem?
  {
    var base := ReadReg(i.op.base, st);
    var index := if i.op.index.Some? then ReadReg(i.op.index.value, st) else 0;
    if base != ABSENT && index != ABSENT then
      var base' := if i.op.base == Keys.RIP then Wrap(base + i.size) else base;
      Some(Wrap(base' + index * i.op.scale + i.op.offset))
    else None
  }

  /** The address that the operand yields, or ABSENT (-1) where evaluation fails. A relative operand
      is disassembled at address 0, so its immediate is size + displacement. */
  function EvalOperand(i: Insn, st: State, m: Memory): Word {
    match i.op
    case OpReg(k) => ReadReg(k, st)
    case OpRel(disp) => Wrap(Wrap(0 + i.size + disp) + st.rip)
    case OpMem(_, _, _, _) =>
      var a := OperandAddress(i, st);
      if a.Some? then ReadWord(m, a.value) else ABSENT
    case OpOther => ABSENT
  }

  function Arrive(target: Word, st: State, m: Memory): Outcome {
    if target == ABSENT then Fatal else Go(target, st, m, false)
  }

  /** The effect of the call group: the return address is pushed before the operand is evaluated. */
  function PushReturn(i: Insn, st: State, m: Memory): (State, Memory) {
    (Pushed(st), WriteWord(m, Below(st.regs[RSP]), Wrap(st.rip + i.size)))
  }

  /** The effect of the return group: eight bytes are popped, whatever the instruction's immediate. */
  function PopReturn(st: State, m: Memory): (Word, State) {
    (ReadWord(m, st.regs[RSP]), st.(regs := st.regs[RSP := Above(st.regs[RSP], 8)]))
  }

  /** What one group of the instruction at `at` makes the emulation do; None is "look at the next". */
  function OnGroup(p: Platform, g: Group, i: Insn, at: Word, st: State, m: Memory): Option<Outcome> {
    match g
    case GCall =>
      var (st', m') := PushReturn(i, st, m);
      Some(Arrive(EvalOperand(i, st', m'), st', m'))
    case GRet =>
      var (target, st') := PopReturn(st, m);
      Some(Arrive(target, st', m))
    case GInt =>
      if p.hooked(st.regs[RAX]) then
        var (ret, r, m') := p.callback(st.regs, m);
        Some(Arrive(if ret != 0 then ret else Wrap(at + i.size), st.(regs := r), m'))
      else Some(Go(at, st, m, true))
    case _ =>
      if !g.GJump? && !g.GBranchRelative? then None
      else match IsJmpTaken(i.id, st)
        case None => Some(Fatal)
        case Some(true) => Some(Arrive(EvalOperand(i, st, m), st, m))
        case Some(false) => Some(Arrive(Wrap(at + i.size), st, m))
  }

  /** The whole emulation: the first group it reacts to decides. */
  function Emulate(p: Platform, i: Insn, at: Word, st: State, m: Memory): Outcome {
    match FirstActing(i.groups)
    case None => Fatal
    case Some(g) => OnGroup(p, g, i, at, st, m).value
  }

  /** A deferred outcome has changed nothing and points at the instruction itself. */
  lemma DeferredIsUntouched(p: Platform, i: Insn, at: Word, st: State, m: Memory)
    requires Emulate(p, i, at, st, m).Go? && Emulate(p, i, at, st, m).deferred
    ensures Emulate(p, i, at, st, m) == Go(at, st, m, true)
  {
    hide ReadWord, WriteWord, EvalOperand, IsJmpTaken;
  }

  // ----- the limits within which it is faithful -----

  predicate UsesRsp(k: Key) {
    Home(k) == Of(RSP)
  }

  /** The operand is one the engine can evaluate, and no register it reads holds 2^64 - 1. */
  predicate Readable(i: Insn, st: State) {
    match i.op
    case OpReg(k) => General(k)
    case OpRel(_) => true
    case OpMem(b, x, _, _) =>
      && General(b) && Architectural(b, st) != ABSENT
      && (x.Some? ==> General(x.value) && Architectural(x.value, st) != ABSENT)
    case OpOther => false
  }

  /** The state after a push, without the memory. */
  function Pushed(st: State): State {
    st.(regs := st.regs[RSP := Below(st.regs[RSP])])
  }

  /** The operand of a call still means the same once the return address is pushed: a register is no part
      of rsp, and a memory operand designates the same address, apart from the pushed slot. */
  ghost predicate SurvivesPush(i: Insn, st: State) {
    match i.op
    case OpReg(k) => General(k) && !UsesRsp(k)
    case OpRel(_) => true
    case OpMem(_, _, _, _) =>
      && OperandAddress(i, Pushed(st)) == Some(EffectiveAddress(i, st))
      && Apart(EffectiveAddress(i, st), 8, Below(st.regs[RSP]), 8)
    case OpOther => false
  }

  /** The CPU's destination is not the address the engine takes for an error. */
  predicate Reachable(i: Insn, st: State, m: Memory) {
    Destination(i, st, m).Some? && Destination(i, st, m).value != ABSENT
  }

  predicate Deferred(p: Platform, i: Insn, c: Cpu) {
    i.kind.Syscall? && !p.hooked(c.regs[RAX])
  }

  /** What the engine's hook makes of the system call at `c`. */
  function Hooked(p: Platform, i: Insn, c: Cpu): Cpu {
    var (ret, r, m) := p.callback(c.regs, c.mem);
    Cpu(if ret != 0 then ret else Wrap(c.pc + i.size), r, m)
  }

  ghost predicate Supported(p: Platform, i: Insn, c: Cpu) {
    var st := c.State();
    match i.kind
    case Jump =>
      && i.id != NotAJump
      && if CpuTakes(i.id, st) then Readable(i, st) && Reachable(i, st, c.mem)
         else Wrap(c.pc + i.size) != ABSENT
    case Call => SurvivesPush(i, st) && Reachable(i, st, c.mem)
    case Ret(pop) => pop == 0 && ReadWord(c.mem, c.regs[RSP]) != ABSENT
    case Syscall => Deferred(p, i, c) || (Hooked(p, i, c).pc != ABSENT && Execute(p, i, c) == Some(Hooked(p, i, c)))
    case _ => false
  }

  lemma AddressIsEffective(i: Insn, st: State)
    requires i.op.OpMem? && Readable(i, st)
    ensures OperandAddress(i, st) == Some(EffectiveAddress(i, st))
  {
    ReadRegIsArchitectural(i.op.base, st);
    if i.op.index.Some? {
      ReadRegIsArchitectural(i.op.index.value, st);
    }
    var index := if i.op.index.Some? then ReadReg(i.op.index.value, st) else 0;
    WrapAdd(st.rip + i.size, index * i.op.scale + i.op.offset);
  }

  /** A readable operand evaluates to the CPU's destination: relative and instruction-pointer based
      targets come out right modulo 2^64 because the saved rip is the branch's own address. */
  lemma OperandIsDestination(i: Insn, st: State, m: Memory)
    requires Readable(i, st)
    ensures Destination(i, st, m) == Some(EvalOperand(i, st, m))
  {
    match i.op
    case OpReg(k) => ReadRegIsArchitectural(k, st);
    case OpRel(disp) => WrapAdd(i.size + disp, st.rip);
    case OpMem(_, _, _, _) => AddressIsEffective(i, st);
  }

  lemma PushKeepsRegister(st: State, k: Key)
    requires !UsesRsp(k)
    ensures ReadReg(k, Pushed(st)) == ReadReg(k, st)
  {
    assert Value(Pushed(st), Home(k)) == Value(st, Home(k));
  }

  /** A readable memory operand that does not use rsp designates the same address after a push. */
  lemma WithoutRspSurvives(i: Insn, st: State)
    requires i.op.OpMem? && Readable(i, st)
    requires !UsesRsp(i.op.base) && (i.op.index.Some? ==> !UsesRsp(i.op.index.value))
    ensures OperandAddress(i, Pushed(st)) == Some(EffectiveAddress(i, st))
  {
    hide ReadSlot, Meaning;
    PushKeepsRegister(st, i.op.base);
    if i.op.index.Some? {
      PushKeepsRegister(st, i.op.index.value);
    }
    AddressIsEffective(i, st);
  }

  /** The memory in which the operand of a call is evaluated. */
  function PushedMemory(i: Insn, st: State, m: Memory): Memory {
    WriteWord(m, Below(st.regs[RSP]), Wrap(st.rip + i.size))
  }

  lemma PushKeepsOperand(i: Insn, st: State, m: Memory)
    requires SurvivesPush(i, st)
    ensures Destination(i, st, m) == Some(EvalOperand(i, Pushed(st), PushedMemory(i, st, m)))
  {
    hide ReadSlot, Meaning;
    match i.op
    case OpReg(k) =>
      PushKeepsRegister(st, k);
      ReadRegIsArchitectural(k, st);
    case OpRel(disp) => WrapAdd(i.size + disp, st.rip);
    case OpMem(_, _, _, _) =>
      ReadOtherWord(m, EffectiveAddress(i, st), Below(st.regs[RSP]), Wrap(st.rip + i.size));
  }

  /** What the CPU makes of the instruction, in the form of an emulation outcome. */
  function Executed(p: Platform, i: Insn, c: Cpu): Outcome {
    match Execute(p, i, c)
    case None => Fatal
    case Some(e) => Go(e.pc, State(e.regs, c.pc), e.mem, false)
  }

  lemma JumpIsExecution(p: Platform, i: Insn, c: Cpu)
    requires Coherent(i) && i.kind.Jump? && Supported(p, i, c)
    ensures Emulate(p, i, c.pc, c.State(), c.mem) == Executed(p, i, c)
  {
    hide ReadWord, WriteWord, IsJmpTaken, CpuTakes, ReadReg, Architectural;
    IsJmpTakenIsCpu(i.id, c.State());
    if CpuTakes(i.id, c.State()) {
      OperandIsDestination(i, c.State(), c.mem);
    }
  }

  lemma CallIsExecution(p: Platform, i: Insn, c: Cpu)
    requires FirstActing(i.groups) == Some(GCall) && i.kind.Call?
    requires SurvivesPush(i, c.State()) && Reachable(i, c.State(), c.mem)
    ensures Emulate(p, i, c.pc, c.State(), c.mem) == Executed(p, i, c)
  {
    hide ReadWord, WriteWord, IsJmpTaken, CpuTakes, ReadReg, Architectural, EvalOperand, Destination, SurvivesPush;
    PushKeepsOperand(i, c.State(), c.mem);
  }

  /** Within the limits, emulating the branch is executing it: same next address, registers and
      memory. A system call without a hook is returned untouched, to be run by the hardware. */
  lemma EmulationIsExecution(p: Platform, i: Insn, c: Cpu)
    requires Coherent(i) && Supported(p, i, c)
    ensures Emulate(p, i, c.pc, c.State(), c.mem)
            == if Deferred(p, i, c) then Go(c.pc, c.State(), c.mem, true) else Executed(p, i, c)
    ensures Execute(p, i, c).Some?
  {
    hide ReadWord, WriteWord, IsJmpTaken, CpuTakes, EvalOperand, ReadReg, Architectural;
    match i.kind
    case Jump =>
      JumpIsExecution(p, i, c);
    case Call =>
      CallIsExecution(p, i, c);
    case Ret(_) =>
    case Syscall =>
  }

  // ----- the limits are exact -----

  /** No operand register is the flags register, which no branch can name. */
  predicate NamesNoFlags(op: Operand) {
    match op
    case OpReg(k) => k != Keys.EFLAGS
    case OpMem(b, x, _, _) => b != Keys.EFLAGS && x != Some(Keys.EFLAGS)
    case _ => true
  }

  lemma UnreadableIsAbsent(i: Insn, st: State, m: Memory)
    requires !Readable(i, st) && NamesNoFlags(i.op)
    ensures EvalOperand(i, st, m) == ABSENT
  {
    hide ReadWord, ReadReg, Architectural;
    match i.op
    case OpReg(k) => OneWidthClass(k);
    case OpRel(_) =>
    case OpMem(b, x, _, _) =>
      AbsentOrArchitectural(b, st);
      if x.Some? {
        AbsentOrArchitectural(x.value, st);
      }
    case OpOther =>
  }

  lemma AbsentOrArchitectural(k: Key, st: State)
    requires k != Keys.EFLAGS
    ensures ReadReg(k, st) == if General(k) then Architectural(k, st) else ABSENT
  {
    hide ReadReg, Architectural;
    OneWidthClass(k);
    if General(k) {
      ReadRegIsArchitectural(k, st);
    }
  }

  /** A jump that the CPU can execute, one the engine does not know included, is emulated faithfully exactly within
      the limits. */
  lemma JumpExact(p: Platform, i: Insn, c: Cpu)
    requires Coherent(i) && i.kind.Jump? && NamesNoFlags(i.op) && Execute(p, i, c).Some?
    ensures Emulate(p, i, c.pc, c.State(), c.mem) == Executed(p, i, c) <==> Supported(p, i, c)
  {
    hide ReadWord, WriteWord, IsJmpTaken, CpuTakes, ReadReg, Architectural, EvalOperand, Readable;
    if Supported(p, i, c) {
      JumpIsExecution(p, i, c);
    } else {
      IsJmpTakenIsCpu(i.id, c.State());
      if Readable(i, c.State()) {
        OperandIsDestination(i, c.State(), c.mem);
      } else {
        UnreadableIsAbsent(i, c.State(), c.mem);
      }
    }
  }

  /** A return is emulated faithfully exactly when it pops nothing but the return address (and does not
      go to the address that stands for an error). */
  lemma RetExact(p: Platform, i: Insn, c: Cpu)
    requires Coherent(i) && i.kind.Ret?
    ensures Emulate(p, i, c.pc, c.State(), c.mem) == Executed(p, i, c) <==> Supported(p, i, c)
  {
    assert FirstActing(i.groups) == Some(GRet);
    hide ReadWord, FirstActing, Coherent;
    var rsp := c.regs[RSP];
    var pop: nat := i.kind.pop;
    assert Above(rsp, 8 + pop) == Above(rsp, 8) <==> pop == 0 by {
      PopIsSeen(rsp, pop);
    }
    assert c.regs[RSP := Above(rsp, 8)][RSP] == Above(rsp, 8);
    assert c.regs[RSP := Above(rsp, 8 + pop)][RSP] == Above(rsp, 8 + pop);
  }

  lemma PopIsSeen(rsp: Word, pop: Word)
    ensures Above(rsp, 8 + pop) == Above(rsp, 8) <==> pop == 0
  {
    var d := (rsp + 8 + pop) / TWO64 - (rsp + 8) / TWO64;
    assert Above(rsp, 8 + pop) - Above(rsp, 8) == pop - TWO64 * d;
  }

  /** A call through a register is emulated faithfully exactly when that register is no part of rsp (and
      does not hold the address that stands for an error): the return address is pushed first. */
  lemma CallRegisterExact(p: Platform, i: Insn, c: Cpu)
    requires Coherent(i) && i.kind.Call? && i.op.OpReg? && General(i.op.key)
    ensures Emulate(p, i, c.pc, c.State(), c.mem) == Executed(p, i, c) <==> Supported(p, i, c)
  {
    var st, k := c.State(), i.op.key;
    assert FirstActing(i.groups) == Some(GCall);
    hide ReadWord, WriteWord, ReadReg, Architectural, FirstActing;
    ReadRegIsArchitectural(k, st);
    if !UsesRsp(k) {
      PushKeepsRegister(st, k);
      if Supported(p, i, c) {
        CallIsExecution(p, i, c);
      }
    } else {
      PushChangesRsp(st, k);
    }
  }

  lemma PushChangesRsp(st: State, k: Key)
    requires General(k) && UsesRsp(k)
    ensures ReadReg(k, Pushed(st)) != ReadReg(k, st)
  {
    RspHasNoHighByte(k);
    hide Meaning, ReadSlot;
    var rsp := st.regs[RSP];
    ReadRegIsArchitectural(k, st);
    ReadRegIsArchitectural(k, Pushed(st));
    assert Pushed(st).regs[RSP] == Below(rsp);
    EightIsSeen(Meaning(k).part, rsp);
  }

  lemma RspHasNoHighByte(k: Key)
    requires UsesRsp(k)
    ensures !Stands(k, High8)
  {
  }

  lemma EightIsSeen(part: Part, rsp: Word)
    requires part != High8
    ensures SliceOf(part, Below(rsp)) != SliceOf(part, rsp)
  {
    assert Below(rsp) == if rsp >= 8 then rsp - 8 else rsp - 8 + TWO64;
  }

  // ----- calls through memory -----

  /** A call through memory is emulated faithfully over every memory exactly when pushing the return address
      neither moves the operand nor overlaps it. */
  lemma CallMemoryExact(p: Platform, i: Insn, c: Cpu)
    requires Coherent(i) && i.kind.Call? && i.op.OpMem?
    ensures (forall m: Memory :: Reachable(i, c.State(), m) ==>
               Emulate(p, i, c.pc, c.State(), m) == Executed(p, i, c.(mem := m)))
            <==> SurvivesPush(i, c.State())
  {
    assert FirstActing(i.groups) == Some(GCall);
    hide ReadWord, WriteWord, ReadReg, Architectural, FirstActing, EvalOperand, Coherent, IsJmpTaken;
    var st := c.State();
    if SurvivesPush(i, st) {
      forall m: Memory | Reachable(i, st, m)
        ensures Emulate(p, i, c.pc, st, m) == Executed(p, i, c.(mem := m))
      {
        CallIsExecution(p, i, c.(mem := m));
      }
    } else {
      var m := MovedOrOverlapping(i, st);
      OtherTarget(p, i, c, m);
    }
  }

  lemma OtherTarget(p: Platform, i: Insn, c: Cpu, m: Memory)
    requires Coherent(i) && i.kind.Call? && Reachable(i, c.State(), m)
    requires EvalOperand(i, Pushed(c.State()), PushedMemory(i, c.State(), m)) != Destination(i, c.State(), m).value
    ensures Emulate(p, i, c.pc, c.State(), m) != Executed(p, i, c.(mem := m))
  {
    assert FirstActing(i.groups) == Some(GCall);
    hide ReadWord, WriteWord, FirstActing, EvalOperand, Coherent, IsJmpTaken, Destination;
  }

  /** A memory that holds `v` at `a`, and 2 everywhere else. */
  function Speckled(a: Word, v: Byte): Memory {
    seq(TWO64, i requires 0 <= i < TWO64 => if i == a then v else 2)
  }

  /** Reading at two different addresses, after a word was stored and before, tells them apart. */
  lemma ElsewhereDiffers(a: Word, b: Word, slot: Word, v: Word) returns (m: Memory)
    requires a != b
    ensures ReadWord(m, a) != ABSENT && ReadWord(WriteWord(m, slot, v), b) != ReadWord(m, a)
  {
    hide ReadWord;
    var back := ToBytes(v, 8);
    var stored := if Covers(slot, 8, b) then back[Wrap(b - slot)] else 2;
    m := Speckled(a, if stored == 0 then 1 else 0);
    LowByte(m, a);
    StoredByte(m, slot, back, b);
    LowByte(WriteWord(m, slot, v), b);
  }

  /** So does reading a slot that the stored word overlaps. */
  lemma OverlapDiffers(a: Word, slot: Word, v: Word) returns (m: Memory)
    requires !Apart(a, 8, slot, 8)
    ensures ReadWord(m, a) != ABSENT && ReadWord(WriteWord(m, slot, v), a) != ReadWord(m, a)
  {
    hide ReadWord;
    var x: Word :| Covers(a, 8, x) && Covers(slot, 8, x);
    var back := ToBytes(v, 8);
    var u: Byte := if back[Wrap(x - slot)] == 0 then 1 else 0;
    m := seq(TWO64, _ => u);
    LowByte(m, a);
    StoredByte(m, slot, back, x);
    WordsDiffer(WriteWord(m, slot, v), m, a, x);
  }

  /** A memory in which the operand of a call that does not survive the push yields another target. */
  lemma MovedOrOverlapping(i: Insn, st: State) returns (m: Memory)
    requires i.op.OpMem? && !SurvivesPush(i, st)
    ensures Reachable(i, st, m)
    ensures EvalOperand(i, Pushed(st), PushedMemory(i, st, m)) != Destination(i, st, m).value
  {
    hide ReadReg, Architectural, ReadWord, WriteWord, OperandAddress, EffectiveAddress, Apart;
    var a, slot := EffectiveAddress(i, st), Below(st.regs[RSP]);
    match OperandAddress(i, Pushed(st))
    case None =>
      m := ElsewhereDiffers(a, Wrap(a as int + 1), slot, 0);
    case Some(b) =>
      if b != a {
        m := ElsewhereDiffers(a, b, slot, Wrap(st.rip + i.size));
      } else {
        m := OverlapDiffers(a, slot, Wrap(st.rip + i.size));
      }
  }

  lemma StoredByte(m: Memory, slot: Word, back: seq<Byte>, x: Word)
    requires |back| == 8
    ensures Store(m, slot, back)[x] == if Covers(slot, 8, x) then back[Wrap(x - slot)] else m[x]
  {
  }

  lemma LowByte(m: Memory, a: Word)
    ensures ReadWord(m, a) % 256 == m[a]
    ensures m[a] != 255 ==> ReadWord(m, a) != ABSENT
  {
    assert Load(m, a, 8)[0] == m[a] by { assert Wrap(a + 0) == a; }
    assert ReadWord(m, a) == m[a] + 256 * FromBytes(Load(m, a, 8)[1..]);
  }

  lemma WordsDiffer(m: Memory, m': Memory, a: Word, x: Word)
    requires Covers(a, 8, x) && m[x] != m'[x]
    ensures ReadWord(m, a) != ReadWord(m', a)
  {
    var j := Wrap(x - a);
    assert Wrap(a + j) == x;
    assert Load(m, a, 8)[j] == m[x] && Load(m', a, 8)[j] == m'[x];
    if FromBytes(Load(m, a, 8)) == FromBytes(Load(m', a, 8)) {
      FromBytesInjective(Load(m, a, 8), Load(m', a, 8));
    }
  }

  lemma {:induction false} FromBytesInjective(bs: seq<Byte>, bs': seq<Byte>)
    requires |bs| == |bs'| && FromBytes(bs) == FromBytes(bs')
    ensures bs == bs'
  {
    if bs != [] {
      DivModUnique(FromBytes(bs), 256, FromBytes(bs[1..]), bs[0]);
      DivModUnique(FromBytes(bs'), 256, FromBytes(bs'[1..]), bs'[0]);
      FromBytesInjective(bs[1..], bs'[1..]);
      assert bs == [bs[0]] + bs[1..] && bs' == [bs'[0]] + bs'[1..];
    }
  }

  /** `call [rsp + d]` always reads the slot eight bytes below the one the CPU reads: for every state there is
      a memory over which the emulation goes somewhere else. */
  lemma CallThroughRspDiverges(p: Platform, i: Insn, c: Cpu) returns (m: Memory)
    requires Coherent(i) && i.kind.Call? && i.op.OpMem? && i.op.base == Keys.RSP && i.op.index.None?
    ensures Reachable(i, c.State(), m)
    ensures Emulate(p, i, c.pc, c.State(), m) != Executed(p, i, c.(mem := m))
  {
    RspBaseMoves(i, c.State());
    m := MovedOrOverlapping(i, c.State());
    OtherTarget(p, i, c, m);
  }

  lemma RspBaseMoves(i: Insn, st: State)
    requires i.op.OpMem? && i.op.base == Keys.RSP && i.op.index.None?
    ensures OperandAddress(i, Pushed(st)) != Some(EffectiveAddress(i, st))
  {
    assert General(Keys.RSP) && Home(Keys.RSP) == Of(RSP) && Stands(Keys.RSP, Full64);
    hide Meaning, ReadSlot;
    var rsp, d := st.regs[RSP], i.op.offset;
    ReadRegIsArchitectural(Keys.RSP, Pushed(st));
    assert Pushed(st).regs[RSP] == Below(rsp);
    EightAway(rsp, d);
  }

  lemma EightAway(rsp: Word, d: Word)
    ensures Wrap(Below(rsp) + d) != Wrap(rsp + d)
  {
    WrapAdd(rsp - 8, d);
    var q := (rsp + d) / TWO64 - (rsp + d - 8) / TWO64;
    assert Wrap(rsp + d) - Wrap(rsp + d - 8) == 8 - TWO64 * q;
  }

  // ----- hooked system calls -----

  /** Registers that agree outside `lost`. */
  ghost predicate SameRegs(r: RegFile, r': RegFile, lost: set<Reg>) {
    forall x: Reg :: x !in lost ==> r[x] == r'[x]
  }

  const SCRATCH: set<Reg> := {RCX, R11}

  /** A hook that does what the kernel does, except for the two registers in which the system call instruction
      keeps the return address and the flags (Intel SDM Volume 2, SYSCALL): no hook of the engine writes them. */
  ghost predicate ExactButScratch(p: Platform, i: Insn, c: Cpu) {
    i.kind.Syscall? && p.hooked(c.regs[RAX]) &&
    var h, e := Hooked(p, i, c), Execute(p, i, c).value;
    && h.pc == e.pc && h.pc != ABSENT && h.mem == e.mem && SameRegs(h.regs, e.regs, SCRATCH)
    && e.regs[RCX] == Wrap(c.pc + i.size) && e.regs[R11] == c.regs[RFLAGS]
    && h.regs[RCX] == c.regs[RCX] && h.regs[R11] == c.regs[R11]
  }

  lemma HookedEmulates(p: Platform, i: Insn, t: Cpu)
    requires Coherent(i) && i.kind.Syscall? && p.hooked(t.regs[RAX]) && Hooked(p, i, t).pc != ABSENT
    ensures var e := Hooked(p, i, t);
      Emulate(p, i, t.pc, t.State(), t.mem) == Go(e.pc, State(e.regs, t.pc), e.mem, false)
  {
    assert FirstActing(i.groups) == Some(GInt);
  }

  lemma SyscallExecutes(p: Platform, i: Insn, c: Cpu)
    requires i.kind.Syscall?
    ensures Execute(p, i, c).Some?
  {
  }

  /** Even the hook of a system call that is otherwise faithful leaves other registers than the CPU, unless rcx
      and r11 happen to hold the return address and the flags already. */
  lemma HookedCallExact(p: Platform, i: Insn, c: Cpu)
    requires Coherent(i) && ExactButScratch(p, i, c)
    ensures Emulate(p, i, c.pc, c.State(), c.mem) == Executed(p, i, c)
            <==> c.regs[RCX] == Wrap(c.pc + i.size) && c.regs[R11] == c.regs[RFLAGS]
  {
    hide Execute, Emulate, Hooked, Coherent;
    SyscallExecutes(p, i, c);
    HookedEmulates(p, i, c);
    var h, e := Hooked(p, i, c), Execute(p, i, c).value;
    if c.regs[RCX] == Wrap(c.pc + i.size) && c.regs[R11] == c.regs[RFLAGS] {
      assert h.regs == e.regs;
    }
  }

  // ----- the emulation by its numbers -----

  /** The first group that matters, at `j`, is `g`. */
  predicate Leads(groups: seq<Group>, g: Group, j: nat) {
    j < |groups| && groups[j] == g && !Passive(g) && forall k :: 0 <= k < j ==> Passive(groups[k])
  }

  /** Only the register `x` differs, and holds `v`. */
  predicate OnlyReg(r: RegFile, r': RegFile, x: Reg, v: Word) {
    r' == r[x := v]
  }

  /** A call, whatever its operand: eight bytes below the stack pointer it stores the address after itself, and no
      other byte or register changes. */
  lemma CallByNumber(p: Platform, i: Insn, at: Word, st: State, m: Memory, j: nat)
    requires Leads(i.groups, GCall, j) && Emulate(p, i, at, st, m).Go?
    ensures var e, slot := Emulate(p, i, at, st, m), (st.regs[RSP] as int - 8) % 0x1_0000_0000_0000_0000;
      && e.st.rip == st.rip && !e.deferred && OnlyReg(st.regs, e.st.regs, RSP, slot)
      && ReadWord(e.mem, slot) == (st.rip + i.size) % 0x1_0000_0000_0000_0000
      && forall a: Word :: (a - slot) % 0x1_0000_0000_0000_0000 >= 8 ==> e.mem[a] == m[a]
  {
    FirstActingIs(i.groups, j);
    hide FirstActing, ReadWord, WriteWord, EvalOperand, IsJmpTaken;
    var slot := (st.regs[RSP] as int - 8) % 0x1_0000_0000_0000_0000;
    WordIsLocal(m, slot, Wrap(st.rip + i.size));
  }

  lemma WordIsLocal(m: Memory, slot: Word, v: Word)
    ensures ReadWord(WriteWord(m, slot, v), slot) == v
    ensures forall a: Word :: (a - slot) % 0x1_0000_0000_0000_0000 >= 8 ==> WriteWord(m, slot, v)[a] == m[a]
  {
    hide ReadWord;
    ReadWrittenWord(m, slot, v);
  }

  /** A relative call goes to its own end plus the displacement; only the address 2^64 - 1 is fatal. */
  lemma RelativeCallByNumber(p: Platform, i: Insn, at: Word, st: State, m: Memory, j: nat)
    requires Leads(i.groups, GCall, j) && i.op.OpRel?
    ensures var to := (st.rip + i.size + i.op.disp) % 0x1_0000_0000_0000_0000;
      if to == 0xFFFF_FFFF_FFFF_FFFF then Emulate(p, i, at, st, m).Fatal?
      else Emulate(p, i, at, st, m).Go? && Emulate(p, i, at, st, m).target == to
  {
    FirstActingIs(i.groups, j);
    hide FirstActing, WriteWord, EvalOperand, IsJmpTaken;
    RelativeOperand(i, Pushed(st), PushedMemory(i, st, m));
  }

  lemma RelativeOperand(i: Insn, st: State, m: Memory)
    requires i.op.OpRel?
    ensures EvalOperand(i, st, m) == (st.rip + i.size + i.op.disp) % 0x1_0000_0000_0000_0000
  {
    WrapAdd(i.size + i.op.disp, st.rip);
  }

  /** A return goes where the word at the stack pointer says, and pops that word. */
  lemma ReturnByNumber(p: Platform, i: Insn, at: Word, st: State, m: Memory, j: nat)
    requires Leads(i.groups, GRet, j)
    ensures var to := ReadWord(m, st.regs[RSP]);
      if to == 0xFFFF_FFFF_FFFF_FFFF then Emulate(p, i, at, st, m).Fatal?
      else
        var e := Emulate(p, i, at, st, m);
        && e.Go? && e.target == to && e.mem == m && e.st.rip == st.rip && !e.deferred
        && OnlyReg(st.regs, e.st.regs, RSP, (st.regs[RSP] as int + 8) % 0x1_0000_0000_0000_0000)
  {
    FirstActingIs(i.groups, j);
    hide FirstActing, ReadWord;
  }

  /** A jump changes nothing. Not taken it goes on after itself; taken and relative, to its end plus the displacement;
      taken and through a register, to what that holds. */
  lemma JumpByNumber(p: Platform, i: Insn, at: Word, st: State, m: Memory, j: nat, taken: bool)
    requires (Leads(i.groups, GJump, j) || Leads(i.groups, GBranchRelative, j)) && IsJmpTaken(i.id, st) == Some(taken)
    requires taken ==> i.op.OpRel? || i.op.OpReg?
    ensures var to :=
        if !taken then (at + i.size) % 0x1_0000_0000_0000_0000
        else if i.op.OpRel? then (st.rip + i.size + i.op.disp) % 0x1_0000_0000_0000_0000
        else ReadReg(i.op.key, st);
      Emulate(p, i, at, st, m) == if to == 0xFFFF_FFFF_FFFF_FFFF then Fatal else Go(to, st, m, false)
  {
    FirstActingIs(i.groups, j);
    hide FirstActing, IsJmpTaken, ReadReg, ReadWord, OperandAddress;
    if i.op.OpRel? {
      RelativeOperand(i, st, m);
    }
  }

  /** A memory operand is the word at base plus index times scale plus offset; an instruction-pointer base counts
      from the end of the instruction. */
  lemma MemoryOperandByNumber(i: Insn, st: State, m: Memory, base: int, index: int)
    requires i.op.OpMem? && General(i.op.base) && base == ReadReg(i.op.base, st) != 0xFFFF_FFFF_FFFF_FFFF
    requires index == (if i.op.index.Some? then ReadReg(i.op.index.value, st) else 0) != 0xFFFF_FFFF_FFFF_FFFF
    ensures var from := if i.op.base == Keys.RIP then base + i.size else base;
      EvalOperand(i, st, m) == ReadWord(m, (from + index * i.op.scale + i.op.offset) % 0x1_0000_0000_0000_0000)
  {
    hide ReadReg, ReadWord, Meaning;
    WrapAdd(base + i.size, index * i.op.scale + i.op.offset);
  }

  /** A system call without a hook is left alone; with one, its result is taken and control goes on after it, or where
      the hook says. */
  lemma SyscallByNumber(p: Platform, i: Insn, at: Word, st: State, m: Memory, j: nat)
    requires Leads(i.groups, GInt, j)
    ensures !p.hooked(st.regs[RAX]) ==> Emulate(p, i, at, st, m) == Go(at, st, m, true)
    ensures p.hooked(st.regs[RAX]) ==>
      var (ret, r, m') := p.callback(st.regs, m);
      var to := if ret != 0 then ret else (at + i.size) % 0x1_0000_0000_0000_0000;
      Emulate(p, i, at, st, m) == if to == 0xFFFF_FFFF_FFFF_FFFF then Fatal else Go(to, State(r, st.rip), m', false)
  {
    FirstActingIs(i.groups, j);
    hide FirstActing;
  }
}
