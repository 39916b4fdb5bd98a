/** The guest as the CPU runs it: an abstract instruction set and its plain, uninstrumented
    execution. Nothing in this module knows about the engine. */
module Guest {
  import opened Words
  import opened Registers
  import Keys
  import opened Conditions

  // ----- instructions as the disassembler describes them -----

  datatype Group = GCall | GInt | GJump | GRet | GBranchRelative | GPrivilege | GIret | GVm | GOther(id: nat)

  /** First operand. `base` is an unnamed key when a memory operand has no base register; a relative
      branch holds the displacement from the end of the instruction. */
  datatype Operand =
    | OpReg(key: Key)
    | OpRel(disp: Word)
    | OpMem(base: Key, index: Option<Key>, scale: Word, offset: Word)
    | OpOther

  datatype Kind = Straight | Jump | Call | Ret(pop: Word) | Syscall | Privileged

  datatype Insn = Insn(size: nat, kind: Kind, groups: seq<Group>, id: JumpId, op: Operand)

  const MAX_INSN: nat := 15
  const INSN_BUFFER: nat := 16

  predicate IsCflow(g: Group) {
    !g.GOther?
  }

  predicate HasCflow(groups: seq<Group>) {
    exists i :: 0 <= i < |groups| && IsCflow(groups[i])
  }

  /** Which groups those are, one by one. */
  lemma CflowGroups(groups: seq<Group>)
    ensures HasCflow(groups)
            <==> GCall in groups || GInt in groups || GJump in groups || GRet in groups || GBranchRelative in groups
                 || GPrivilege in groups || GIret in groups || GVm in groups
    ensures (forall k :: 0 <= k < |groups| ==> groups[k].GOther?) ==> !HasCflow(groups)
  {
    if g :| g in groups && !g.GOther? {
      var k :| 0 <= k < |groups| && groups[k] == g;
      assert IsCflow(groups[k]);
    }
  }

  /** Groups that the branch emulation reacts to. */
  predicate Acts(g: Group) {
    g.GJump? || g.GBranchRelative? || g.GCall? || g.GRet? || g.GInt?
  }

  function FirstActing(groups: seq<Group>): (g: Option<Group>)
    ensures g.Some? ==> Acts(g.value)
  {
    if groups == [] then None
    else if Acts(groups[0]) then Some(groups[0])
    else FirstActing(groups[1..])
  }

  /** None of a call, a jump, a return or an interrupt. */
  predicate Passive(g: Group) {
    g.GOther? || g.GPrivilege? || g.GIret? || g.GVm?
  }

  /** The first group that is not passive decides, whatever follows. */
  lemma {:induction false} FirstActingIs(groups: seq<Group>, j: nat)
    requires j < |groups| && (forall k :: 0 <= k < j ==> Passive(groups[k])) && !Passive(groups[j])
    ensures FirstActing(groups) == Some(groups[j])
    decreases j
  {
    if j > 0 {
      FirstActingIs(groups[1..], j - 1);
    }
  }

  lemma {:induction false} NoneActs(groups: seq<Group>)
    requires forall k :: 0 <= k < |groups| ==> Passive(groups[k])
    ensures FirstActing(groups) == None
  {
    if groups != [] {
      NoneActs(groups[1..]);
    }
  }

  /** The disassembler's groups name the instruction's kind; in particular the call group of a
      relative call comes before its relative-branch group. */
  predicate Coherent(i: Insn) {
    && (i.kind.Straight? <==> !HasCflow(i.groups))
    && match FirstActing(i.groups)
       case Some(GJump) => i.kind.Jump?
       case Some(GBranchRelative) => i.kind.Jump?
       case Some(GCall) => i.kind.Call?
       case Some(GRet) => i.kind.Ret?
       case Some(GInt) => i.kind.Syscall?
       case _ => i.kind.Straight? || i.kind.Privileged?
  }

  /** The group lists that the disassembler gives, `mode` being one that says nothing of control flow, are
      coherent with what the instructions are. */
  lemma DisassemblerIsCoherent(size: nat, id: JumpId, op: Operand, pop: Word, mode: nat)
    ensures Coherent(Insn(size, Ret(pop), [GRet, GOther(mode)], id, op))
    ensures Coherent(Insn(size, Call, [GCall, GBranchRelative, GOther(mode)], id, op))
    ensures Coherent(Insn(size, Call, [GCall, GBranchRelative], id, op))
    ensures Coherent(Insn(size, Call, [GCall, GOther(mode)], id, op))
    ensures Coherent(Insn(size, Jump, [GJump, GBranchRelative], id, op))
    ensures Coherent(Insn(size, Jump, [GJump], id, op))
    ensures Coherent(Insn(size, Syscall, [GInt], id, op))
    ensures Coherent(Insn(size, Privileged, [GPrivilege], id, op))
    ensures Coherent(Insn(size, Straight, [GOther(mode)], id, op))
    ensures Coherent(Insn(size, Straight, [], id, op))
  {
    assert IsCflow([GRet, GOther(mode)][0]) && IsCflow([GCall, GBranchRelative, GOther(mode)][0]);
    assert IsCflow([GCall, GBranchRelative][0]) && IsCflow([GCall, GOther(mode)][0]);
    assert IsCflow([GJump, GBranchRelative][0]) && IsCflow([GJump][0]) && IsCflow([GInt][0]) && IsCflow([GPrivilege][0]);
    NoneActs([GPrivilege]);
    NoneActs([GOther(mode)]);
  }

  // ----- the parts of the platform that are taken as given -----

  /** `decode` disassembles the first instruction of a buffer, `step` is a straight-line instruction, `jump` one
      whose mnemonic the engine does not know, such as `loop`: where it goes, with which registers. `kernel` is the system call instruction, and `hooked`/`callback` are the engine's table of
      emulated system calls (`callback` returns a non-zero address to redirect control). */
  datatype Platform = Platform(
    decode: seq<Byte> -> Option<Insn>,
    step: (Insn, Word, RegFile, Memory) -> (RegFile, Memory),
    jump: (Insn, Word, RegFile, Memory) -> (Word, RegFile),
    kernel: (Word, RegFile, Memory) -> (Word, RegFile, Memory),
    hooked: Word -> bool,
    callback: (RegFile, Memory) -> (Word, RegFile, Memory))

  predicate SamePrefix(bs: seq<Byte>, bs': seq<Byte>, n: nat) {
    n <= |bs| && n <= |bs'| && bs[..n] == bs'[..n]
  }

  /** Decoding yields 1 to 15 bytes of the buffer and depends on no others, so it fails on an
      instruction that the end of the buffer cuts off. */
  ghost predicate PrefixDecoder(decode: seq<Byte> -> Option<Insn>) {
    && (forall bs :: decode(bs).Some? ==> 1 <= decode(bs).value.size <= MAX_INSN && decode(bs).value.size <= |bs|)
    && (forall bs, bs', n :: SamePrefix(bs, bs', n) && decode(bs).Some? && decode(bs).value.size <= n
                             ==> decode(bs') == decode(bs))
  }

  ghost predicate CoherentDecoder(decode: seq<Byte> -> Option<Insn>) {
    forall bs :: decode(bs).Some? ==> Coherent(decode(bs).value)
  }

  // ----- native execution -----

  datatype Cpu = Cpu(pc: Word, regs: RegFile, mem: Memory) {
    function State(): State {
      Registers.State(regs, pc)
    }
  }

  function Fetch(p: Platform, m: Memory, pc: Word): Option<Insn> {
    p.decode(Load(m, pc, INSN_BUFFER))
  }

  function RegisterOrZero(k: Key, st: State): Word {
    if General(k) then Architectural(k, st) else 0
  }

  /** Address of a memory operand; an instruction-pointer base is that of the next instruction. */
  function EffectiveAddress(i: Insn, st: State): Word
    requires i.op.OpMem?
  {
    var base := if i.op.base == Keys.RIP then st.rip + i.size else RegisterOrZero(i.op.base, st);
    var index := if i.op.index.Some? then RegisterOrZero(i.op.index.value, st) else 0;
    Wrap(base + index * i.op.scale + i.op.offset)
  }

  function Destination(i: Insn, st: State, m: Memory): Option<Word> {
    match i.op
    case OpReg(k) => if General(k) then Some(Architectural(k, st)) else None
    case OpRel(disp) => Some(Wrap(st.rip + i.size + disp))
    case OpMem(_, _, _, _) => Some(ReadWord(m, EffectiveAddress(i, st)))
    case OpOther => None
  }

  /** Where a push from `rsp` stores. */
  function Below(rsp: Word): Word {
    Wrap(rsp - 8)
  }

  /** Where `rsp` ends up after `n` bytes are popped. */
  function Above(rsp: Word, n: nat): Word {
    Wrap(rsp + n)
  }

  /** One instruction; None is a fault. */
  function Execute(p: Platform, i: Insn, c: Cpu): Option<Cpu> {
    var next := Wrap(c.pc + i.size);
    match i.kind
    case Straight =>
      var (r, m) := p.step(i, c.pc, c.regs, c.mem);
      Some(Cpu(next, r, m))
    case Jump =>
      if i.id == NotAJump then
        var (pc, r) := p.jump(i, c.pc, c.regs, c.mem);
        Some(Cpu(pc, r, c.mem))
      else if !CpuTakes(i.id, c.State()) then Some(c.(pc := next))
      else (match Destination(i, c.State(), c.mem)
            case None => None
            case Some(d) => Some(c.(pc := d)))
    case Call =>
      var rsp := Below(c.regs[RSP]);
      (match Destination(i, c.State(), c.mem)
       case None => None
       case Some(d) => Some(Cpu(d, c.regs[RSP := rsp], WriteWord(c.mem, rsp, next))))
    case Ret(pop) =>
      Some(Cpu(ReadWord(c.mem, c.regs[RSP]), c.regs[RSP := Above(c.regs[RSP], 8 + pop)], c.mem))
    case Syscall =>
      var (pc, r, m) := p.kernel(next, c.regs, c.mem);
      Some(Cpu(pc, r, m))
    case Privileged => None
  }

  function Step(p: Platform, c: Cpu): Option<Cpu> {
    match Fetch(p, c.mem, c.pc)
    case None => None
    case Some(i) => Execute(p, i, c)
  }

  function Steps(p: Platform, c: Cpu, k: nat): Option<Cpu>
    decreases k
  {
    if k == 0 then Some(c)
    else
      match Step(p, c)
      case None => None
      case Some(c') => Steps(p, c', k - 1)
  }

  /** After `k` instructions, and not before, control is at `stop`. */
  ghost predicate FirstHit(p: Platform, c: Cpu, stop: Word, k: nat) {
    && Steps(p, c, k).Some? && Steps(p, c, k).value.pc == stop
    && forall j: nat :: j < k ==> Steps(p, c, j).Some? && Steps(p, c, j).value.pc != stop
  }

  /** What the hardware does on its own from `c`: it runs until control first reaches `stop`. */
  ghost function RunUntil(p: Platform, c: Cpu, stop: Word): Option<Cpu> {
    if exists k: nat :: FirstHit(p, c, stop, k) then
      var k: nat :| FirstHit(p, c, stop, k);
      Steps(p, c, k)
    else None
  }

  lemma FirstHitIsRun(p: Platform, c: Cpu, stop: Word, k: nat)
    requires FirstHit(p, c, stop, k)
    ensures RunUntil(p, c, stop) == Steps(p, c, k)
  {
    forall k': nat | FirstHit(p, c, stop, k')
      ensures k' == k
    {
      assert !(k < k') && !(k' < k);
    }
  }
}
