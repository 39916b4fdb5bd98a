/** A small guest within the engine's limits: `nop; syscall; jmp` back to the `nop`, with a hook for every system
    call. It shows that the conditions of the transparency theorem can be met, by runs of any length; and that the
    registers a hook loses cannot be done without. */
module LoopGuest {
  import opened Words
  import opened Registers
  import opened Conditions
  import opened Guest
  import opened Sweep
  import opened Emulation
  import opened Patching
  import opened NativeRuns
  import opened Transparency
  import S = Stubs

  const ENTRY: Word := 0x40_0000
  const NOP := Insn(1, Straight, [], NotAJump, OpOther)
  const CALL := Insn(2, Syscall, [GInt], NotAJump, OpOther)
  const BACK := Insn(2, Jump, [GJump, GBranchRelative], JMP, OpRel(TWO64 - 5))

  /** 0x90 is a nop, 0x0F 0x05 a system call, 0xEB 0xFB a jump five bytes back from its end. */
  function Decode(bs: seq<Byte>): Option<Insn> {
    if |bs| >= 1 && bs[0] == 0x90 then Some(NOP)
    else if |bs| >= 2 && bs[0] == 0x0F && bs[1] == 0x05 then Some(CALL)
    else if |bs| >= 2 && bs[0] == 0xEB && bs[1] == 0xFB then Some(BACK)
    else None
  }

  /** What the system call instruction itself does to the registers. */
  function Clobbered(next: Word, r: RegFile): RegFile {
    r[RCX := next][R11 := r[RFLAGS]]
  }

  /** The kernel does nothing in this system call, and so does the hook. */
  function Loop(): Platform {
    Platform((bs: seq<Byte>) => Decode(bs), (i, pc, r, m) => (r, m), (i, pc: Word, r, m) => (pc, r),
             (next: Word, r: RegFile, m: Memory) => (next, Clobbered(next, r), m),
             (a: Word) => true, (r, m) => (0, r, m))
  }

  ghost function Code(): Memory {
    seq(TWO64, i requires 0 <= i < TWO64 =>
      if i == ENTRY then 0x90 else if i == ENTRY + 1 then 0x0F else if i == ENTRY + 2 then 0x05
      else if i == ENTRY + 3 then 0xEB else if i == ENTRY + 4 then 0xFB else 0)
  }

  lemma LoopIsSound()
    ensures PrefixDecoder(Loop().decode) && CoherentDecoder(Loop().decode)
  {
    var decode := Loop().decode;
    assert Coherent(NOP);
    assert HasCflow(CALL.groups) by { assert IsCflow(CALL.groups[0]); }
    assert HasCflow(BACK.groups) by { assert IsCflow(BACK.groups[0]); }
    forall bs, bs', n | SamePrefix(bs, bs', n) && decode(bs).Some? && decode(bs).value.size <= n
      ensures decode(bs') == decode(bs)
    {
      assert bs[0] == bs[..n][0] == bs'[0];
      if n >= 2 {
        assert bs[1] == bs[..n][1] == bs'[1];
      }
    }
  }

  // ----- the machine -----

  const HOST: Word := 0x7000_0000
  const HOST_SZ: int := 0x6000
  const STUB_RSP: Word := 0x7000_3000

  /** Each stub stands for its first instruction: `mov rax, rsp`, and `movabs rax` from the field of rbx. */
  function Place(): (l: S.Layout)
    ensures S.WellPlaced(l) && S.StubsApart(l)
    ensures l.state == HOST && l.currHook == 0x7000_2000
    ensures l.dumpStub == 0x7000_4000 && |l.dumpCode| == 3 && l.restoreStub == 0x7000_5000 && |l.restoreCode| == 10
  {
    S.Layout(HOST, 0x7000_1000, 0x7000_2000, 0, 0,
             0x7000_4000, [0x48, 0x89, 0xE0],
             0x7000_5000, [0x48, 0xA1, 0x08, 0x00, 0x00, 0x70, 0x00, 0x00, 0x00, 0x00])
  }

  /** The selectors of a 64-bit process, and its flags: interrupts on, and the bit that is always set. */
  function OwnWords(): S.Regs {
    seq(S.SLOTS, _ => 0)[S.CS := 0x33][S.SS := 0x2B][S.RFLAGS := 0x202]
  }

  ghost function Own(): RegFile {
    S.AsRegFile(OwnWords())
  }

  lemma OwnAt(x: Reg)
    ensures Own()[x] == OwnWords()[S.Index(x)]
    ensures Selector(x) ==> Own()[x] < 0x1_0000
    ensures x == RFLAGS ==> Own()[x] == 0x202
  {
    hide S.Index, S.AsRegFile;
    IndexKinds(x);
    S.AsRegFileAt(OwnWords(), x);
  }

  ghost function Region(): iset<int> {
    iset i | Within(i, HOST, HOST_SZ)
  }

  /** The first `k` fields of the state structure written one after the other. */
  ghost function WriteFields(m: Memory, fs: S.Regs, k: nat): Memory
    requires k <= S.SLOTS
  {
    if k == 0 then m else WriteWord(WriteFields(m, fs, k - 1), S.At(Place(), k - 1), fs[k - 1])
  }

  lemma {:induction false} FieldsWritten(m: Memory, fs: S.Regs, k: nat)
    requires k <= S.SLOTS
    ensures S.Fields(Place(), WriteFields(m, fs, k))[..k] == fs[..k]
    ensures S.SameOutside(m, WriteFields(m, fs, k), HOST, 8 * S.SLOTS)
  {
    hide Place;
    hide S.Fields, WriteWord;
    if k > 0 {
      FieldsWritten(m, fs, k - 1);
      S.FieldWritten(Place(), WriteFields(m, fs, k - 1), k - 1, fs[k - 1]);
      var before, after := S.Fields(Place(), WriteFields(m, fs, k - 1)), S.Fields(Place(), WriteFields(m, fs, k));
      forall j | 0 <= j < k
        ensures after[j] == fs[j]
      {
        if j < k - 1 {
          assert before[j] == before[..k - 1][j] == fs[..k - 1][j];
        }
      }
    }
  }

  ghost function StateWords(st: State): S.Regs {
    S.AsRegs(st.regs)[S.RIP := st.rip]
  }

  ghost function WithState(s: Sys): Memory {
    WriteWord(WriteFields(s.mem, StateWords(s.st), S.SLOTS), Place().currHook, s.currHook)
  }

  ghost function ReadyMemory(s: Sys): Memory {
    Store(Store(WithState(s), Place().dumpStub, Place().dumpCode), Place().restoreStub, Place().restoreCode)
  }

  /** The host's memory holds the engine's state and the stubs; its registers are its own, on its own stack. */
  ghost function Ready(n: nat, s: Sys): S.Core {
    S.Core(OwnWords()[S.RSP := STUB_RSP], ReadyMemory(s), None)
  }

  ghost function TheMachine(): Machine {
    Machine(Loop(), Place(), Region(), Own(), (n: nat, s: Sys) => Ready(n, s))
  }

  lemma MachineIs()
    ensures var w := TheMachine(); w.p == Loop() && w.l == Place() && w.host == Region() && w.own == Own()
    ensures S.WellPlaced(TheMachine().l)
  {
  }

  /** Writing part of the host changes nothing outside it. */
  lemma HostWritten(m: Memory, m': Memory, lo: int, k: int)
    requires S.SameOutside(m, m', lo, k) && HOST <= lo && lo + k <= HOST + HOST_SZ
    ensures AgreeOutside(m', m, Region())
  {
  }

  lemma WithStateIs(s: Sys)
    ensures S.Fields(Place(), WithState(s)) == StateWords(s.st)
    ensures ReadWord(WithState(s), Place().currHook) == s.currHook
    ensures AgreeOutside(WithState(s), s.mem, Region())
  {
    hide Place;
    hide S.Fields, WriteWord, ReadWord, WriteFields, StateWords;
    var fs := StateWords(s.st);
    var m := WriteFields(s.mem, fs, S.SLOTS);
    FieldsWritten(s.mem, fs, S.SLOTS);
    assert S.Fields(Place(), m)[..S.SLOTS] == S.Fields(Place(), m) && fs[..S.SLOTS] == fs;
    S.WriteIsLocal(m, Place().currHook, s.currHook, Place().currHook, 8);
    S.FieldsOutside(Place(), m, WithState(s), Place().currHook, 8);
    ReadWrittenWord(m, Place().currHook, s.currHook);
  }

  lemma StoreIsLocal(m: Memory, a: Word, bs: seq<Byte>)
    requires a + |bs| <= TWO64
    ensures S.SameOutside(m, Store(m, a, bs), a, |bs|) && Load(Store(m, a, bs), a, |bs|) == bs
  {
    StoreAll(m, a, bs);
    LoadStoreSame(m, a, bs);
  }

  /** Storing a stub keeps the state. */
  lemma StubStored(m: Memory, a: Word, bs: seq<Byte>)
    requires 0x7000_4000 <= a && a + |bs| <= HOST + HOST_SZ
    ensures S.Fields(Place(), Store(m, a, bs)) == S.Fields(Place(), m)
    ensures ReadWord(Store(m, a, bs), Place().currHook) == ReadWord(m, Place().currHook)
    ensures AgreeOutside(Store(m, a, bs), m, Region())
  {
    hide Place;
    hide S.Fields, ReadWord, Store, S.SameOutside, AgreeOutside;
    StoreIsLocal(m, a, bs);
    S.FieldsOutside(Place(), m, Store(m, a, bs), a, |bs|);
    S.WordOutside(m, Store(m, a, bs), Place().currHook, a, |bs|);
    HostWritten(m, Store(m, a, bs), a, |bs|);
  }

  lemma AgreeTrans(m: Memory, m': Memory, m'': Memory, X: iset<int>)
    requires AgreeOutside(m, m', X) && AgreeOutside(m', m'', X)
    ensures AgreeOutside(m, m'', X)
  {
  }

  lemma ReadyMemoryIs(s: Sys)
    ensures S.Fields(Place(), ReadyMemory(s)) == StateWords(s.st)
    ensures ReadWord(ReadyMemory(s), Place().currHook) == s.currHook
    ensures AgreeOutside(ReadyMemory(s), s.mem, Region())
    ensures DumpStubIn(Place(), ReadyMemory(s)) && RestoreStubIn(Place(), ReadyMemory(s))
  {
    hide Place;
    hide S.Fields, ReadWord, Store, Load, StateWords, WithState, AgreeOutside, S.SameOutside, Region;
    var m0 := WithState(s);
    var m1 := Store(m0, Place().dumpStub, Place().dumpCode);
    var m2 := ReadyMemory(s);
    WithStateIs(s);
    StubStored(m0, Place().dumpStub, Place().dumpCode);
    StubStored(m1, Place().restoreStub, Place().restoreCode);
    AgreeTrans(m1, m0, s.mem, Region());
    AgreeTrans(m2, m1, s.mem, Region());
    StoreIsLocal(m0, Place().dumpStub, Place().dumpCode);
    StoreIsLocal(m1, Place().restoreStub, Place().restoreCode);
    LoadSeparate(m1, m2, Place().dumpStub, |Place().dumpCode|, Place().restoreStub, |Place().restoreCode|);
  }

  lemma StateWordsBack(st: State)
    ensures S.AsRegFile(StateWords(st)) == st.regs && StateWords(st)[S.RIP] == st.rip
  {
    hide S.AsRegs, S.Index;
    S.AsRegsBack(st.regs);
    assert S.AsRegFile(StateWords(st)) == S.AsRegFile(S.AsRegs(st.regs));
  }

  lemma ReadyCarries(n: nat, s: Sys)
    ensures Carrying(TheMachine(), Ready(n, s), s)
  {
    MachineIs();
    hide S.Fields, ReadWord, ReadyMemory, S.AsRegs, S.AsRegFile, Load, Own, Place, TheMachine, Region, Loop;
    ReadyMemoryIs(s);
    StateWordsBack(s.st);
  }

  /** The host's stack is apart from everything else of the host. */
  lemma StackPlaced()
    ensures S.OnHostStack(Place(), STUB_RSP) && S.Separate(STUB_RSP - 16, 16, Place().currHook, 8)
    ensures S.Separate(STUB_RSP - 16, 16, Place().dumpStub, |Place().dumpCode|)
    ensures S.Separate(STUB_RSP - 16, 16, Place().restoreStub, |Place().restoreCode|)
    ensures forall i :: Within(i, STUB_RSP - 16, 16) ==> i in Region()
  {
  }

  lemma ReadyReg(n: nat, s: Sys, x: Reg)
    requires Selector(x) || x == RFLAGS
    ensures Ready(n, s).regs[S.Index(x)] == Own()[x]
  {
    hide ReadyMemory, Own, OwnWords, S.Index;
    IndexKinds(x);
    OwnAt(x);
  }

  lemma ReadyShape(n: nat, s: Sys)
    ensures Ready(n, s).regs[S.RSP] == STUB_RSP && Ready(n, s).left.None?
  {
    hide ReadyMemory, OwnWords;
  }

  lemma FlagsSlot()
    ensures S.Index(RFLAGS) == S.RFLAGS
  {
  }

  lemma ReadyStands(n: nat, s: Sys)
    ensures Standing(TheMachine(), Ready(n, s))
  {
    MachineIs();
    StackPlaced();
    FlagsSlot();
    ReadyShape(n, s);
    hide Ready, S.Changeable, Own, TheMachine, Loop, S.Index, Place, S.OnHostStack, S.Separate, Region;
    forall x: Reg | Selector(x)
      ensures Ready(n, s).regs[S.Index(x)] == Own()[x]
    {
      ReadyReg(n, s, x);
    }
    ReadyReg(n, s, RFLAGS);
  }

  lemma ReadyIsReady(n: nat, s: Sys)
    ensures TheMachine().ready(n, s) == Ready(n, s)
  {
    hide Ready, Place, Own, Loop, Region;
  }

  lemma HostIsWhole()
    ensures HostHolds(Place(), Region())
  {
  }

  /** A host whose selectors and flags never change. */
  lemma MachineIsSound()
    ensures Sound(TheMachine())
  {
    hide PrefixDecoder, CoherentDecoder, Carrying, Standing, Ready, HostHolds, TheMachine, Place, Loop, Own, Region;
    MachineIs();
    LoopIsSound();
    HostIsWhole();
    forall n: nat, s: Sys
      ensures Standing(TheMachine(), TheMachine().ready(n, s)) && Carrying(TheMachine(), TheMachine().ready(n, s), s)
    {
      ReadyIsReady(n, s);
      ReadyStands(n, s);
      ReadyCarries(n, s);
    }
  }

  // ----- the native run -----

  /** From the entry up to the system call. The guest never looks at the stale bytes. */
  ghost function ToCall(r: RegFile, z: iset<int>): (spots: seq<Spot>)
    ensures |spots| > 0
  {
    [Spot(Cpu(ENTRY, r, Code()), SCRATCH, z), Spot(Cpu(ENTRY + 1, r, Code()), SCRATCH, z)]
  }

  /** After it: the jump is a block of its own. */
  ghost function ToJump(r: RegFile, z: iset<int>): (spots: seq<Spot>)
    ensures |spots| > 0
  {
    [Spot(Cpu(ENTRY + 3, Clobbered(ENTRY + 3, r), Code()), SCRATCH, z)]
  }

  lemma Fetches()
    ensures Fetch(Loop(), Code(), ENTRY) == Some(NOP) && Fetch(Loop(), Code(), ENTRY + 1) == Some(CALL)
    ensures Fetch(Loop(), Code(), ENTRY + 3) == Some(BACK)
  {
    LoadAt(Code(), ENTRY, INSN_BUFFER, 0);
    LoadAt(Code(), ENTRY + 1, INSN_BUFFER, 0);
    LoadAt(Code(), ENTRY + 1, INSN_BUFFER, 1);
    LoadAt(Code(), ENTRY + 3, INSN_BUFFER, 0);
    LoadAt(Code(), ENTRY + 3, INSN_BUFFER, 1);
  }

  ghost predicate Ordinary(r: RegFile) {
    Hosted(Own(), r) && PlainFlags(r[RFLAGS])
  }

  /** Small patches. */
  predicate Small(f: Footprint) {
    f.dump <= 64 && f.restore <= 64
  }

  ghost predicate Here(f: Footprint) {
    Small(f) && f.host == Region() && f.own == Own()
  }

  /** The guest's code, with room for patches around it, is not stale. */
  ghost predicate FarOff(z: iset<int>) {
    forall i :: i in z ==> i >= ENTRY + 0x1000
  }

  lemma ExecuteNop(c: Cpu)
    ensures Execute(Loop(), NOP, c) == Some(c.(pc := Wrap(c.pc + 1)))
  {
  }

  lemma ExecuteCall(c: Cpu)
    ensures var next := Wrap(c.pc + 2);
      && Execute(Loop(), CALL, c) == Some(Cpu(next, Clobbered(next, c.regs), c.mem))
      && Hooked(Loop(), CALL, c) == c.(pc := next)
    ensures Loop().hooked(c.regs[RAX]) && !Deferred(Loop(), CALL, c)
  {
  }

  lemma ExecuteBack(c: Cpu)
    ensures var next := Wrap(Wrap(c.pc + 2) + (TWO64 - 5));
      && Execute(Loop(), BACK, c) == Some(c.(pc := next))
      && (next != ABSENT ==> Supported(Loop(), BACK, c))
    ensures !Deferred(Loop(), BACK, c)
  {
    WrapAdd(c.pc + 2, TWO64 - 5);
    hide Wrap;
    assert Execute(Loop(), BACK, c) == Some(c.(pc := Wrap(c.pc + 2 + (TWO64 - 5))));
  }

  lemma WrapSmall()
    ensures Wrap(ENTRY + 1) == ENTRY + 1 && Wrap(ENTRY + 1 + 2) == ENTRY + 3
    ensures Wrap(Wrap(ENTRY + 3 + 2) + (TWO64 - 5)) == ENTRY
  {
  }

  lemma ClobberedAt(next: Word, r: RegFile, x: Reg)
    ensures Clobbered(next, r)[x] == if x == RCX then next else if x == R11 then r[RFLAGS] else r[x]
  {
  }

  lemma ScratchRegs(next: Word, r: RegFile, r': RegFile)
    requires SameRegs(r', r, SCRATCH)
    ensures SameRegs(r', Clobbered(next, r), SCRATCH)
  {
    hide Clobbered;
    forall x: Reg | x !in SCRATCH
      ensures r'[x] == Clobbered(next, r)[x]
    {
      ClobberedAt(next, r, x);
    }
  }

  lemma NopCarries(r: RegFile, z: iset<int>, X: iset<int>)
    ensures Carries(Loop(), NOP, ToCall(r, z)[0], ToCall(r, z)[1], X)
  {
    hide Loop, Execute, Code, SameRegs, AgreeOutside, Wrap;
    var a, b := ToCall(r, z)[0], ToCall(r, z)[1];
    ExecuteNop(a.cpu);
    assert Wrap(ENTRY + 1) == ENTRY + 1 by { WrapSmall(); }
    forall t: Cpu | Alike(a, t, X)
      ensures Becomes(b, t, Execute(Loop(), NOP, t), X)
    {
      ExecuteNop(t);
    }
  }

  /** The hook loses rcx and r11, and nothing else. */
  lemma CallBranches(r: RegFile, z: iset<int>)
    ensures Branches(Loop(), CALL, Last(ToCall(r, z)), ToJump(r, z)[0], Region())
    ensures !Deferred(Loop(), CALL, Last(ToCall(r, z)).cpu)
  {
    hide Loop, Execute, Hooked, Code, Region, SameRegs, AgreeOutside, Wrap, Clobbered, Deferred;
    var a, b := Last(ToCall(r, z)), ToJump(r, z)[0];
    ExecuteCall(a.cpu);
    WrapSmall();
    forall t: Cpu | Alike(a, t, Region())
      ensures Loop().hooked(t.regs[RAX]) && Hooked(Loop(), CALL, t).pc != ABSENT
      ensures Becomes(b, t, Some(Hooked(Loop(), CALL, t)), Region())
    {
      ExecuteCall(t);
      ScratchRegs(ENTRY + 3, r, t.regs);
    }
  }

  lemma BackBranches(r: RegFile, z: iset<int>)
    ensures Branches(Loop(), BACK, Last(ToJump(r, z)), ToCall(Clobbered(ENTRY + 3, r), z)[0], Region())
    ensures !Deferred(Loop(), BACK, Last(ToJump(r, z)).cpu)
  {
    hide Loop, Execute, Supported, Code, Region, SameRegs, AgreeOutside, Wrap, Clobbered, Deferred;
    var a, b := Last(ToJump(r, z)), ToCall(Clobbered(ENTRY + 3, r), z)[0];
    WrapSmall();
    forall t: Cpu | Alike(a, t, Region())
      ensures Becomes(b, t, Execute(Loop(), BACK, t), Region()) && Supported(Loop(), BACK, t)
    {
      ExecuteBack(t);
    }
    ExecuteBack(a.cpu);
  }

  lemma OneStops(a: Word, n: nat, i: Insn)
    requires PrefixDecoder(Loop().decode) && Fetch(Loop(), Code(), a) == Some(i) && !i.kind.Straight? && n == 0
    ensures Stops(Loop(), Code(), a, n) && StopsFrom(Loop(), Code(), a, n, false)
  {
    hide Loop, Code, Load, PrefixDecoder;
  }

  lemma NopStops()
    requires PrefixDecoder(Loop().decode) && Stops(Loop(), Code(), ENTRY + 1, 0)
    ensures StopsFrom(Loop(), Code(), ENTRY, 1, false)
  {
    Fetches();
    hide Loop, Code, PrefixDecoder, Fetch;
  }

  lemma NopIsQuiet(r: RegFile, z: iset<int>, X: iset<int>)
    requires FarOff(z)
    ensures QuietRun(Loop(), ToCall(r, z), ENTRY + 1, false, X)
  {
    Fetches();
    NopCarries(r, z, X);
    hide Loop, Code, Fetch, Carries;
    assert QuietNext(Loop(), ToCall(r, z)[0], ToCall(r, z)[1], false, X);
  }

  lemma ClearOfHost(a: int, n: int, z: iset<int>)
    requires a + n <= ENTRY + 0x1000 && FarOff(z)
    ensures Clear(a, n, Region()) && Clear(a, n, z)
  {
  }

  lemma ToCallIsBlock(r: RegFile, z: iset<int>, f: Footprint)
    requires Here(f) && Ordinary(r) && FarOff(z)
    ensures PrefixDecoder(Loop().decode) && NativeBlock(Loop(), ToCall(r, z), false, f)
  {
    LoopIsSound();
    Fetches();
    hide Code, Loop, PatchSet, PrefixDecoder, CoherentDecoder, QuietRun, Region, Fetch, StopsFrom, Stops, Hosted, PlainFlags,
      Own, Clear, FarOff;
    OneStops(ENTRY + 1, 0, CALL);
    NopStops();
    NopIsQuiet(r, z, PatchSet(ENTRY, 1, f.dump, f.restore) + f.host);
    ClearOfHost(ENTRY - f.restore, f.restore + 1 + f.dump, z);
    ClearOfHost(ENTRY + 1, INSN_BUFFER, z);
  }

  lemma ToJumpIsBlock(r: RegFile, z: iset<int>, f: Footprint)
    requires Here(f) && Ordinary(r) && FarOff(z)
    ensures PrefixDecoder(Loop().decode) && NativeBlock(Loop(), ToJump(r, z), false, f)
  {
    LoopIsSound();
    Fetches();
    hide Code, Loop, PatchSet, PrefixDecoder, CoherentDecoder, Region, Fetch, StopsFrom, Stops, Hosted, Clobbered, Clear,
      PlainFlags, Own, FarOff;
    ClobberedFits(r);
    OneStops(ENTRY + 3, 0, BACK);
    ClearOfHost(ENTRY + 3 - f.restore, f.restore + f.dump, z);
    ClearOfHost(ENTRY + 3, INSN_BUFFER, z);
  }

  lemma HereIs(f: Footprint)
    requires Here(f)
    ensures f.host == Region()
  {
  }

  lemma JumpFollowsCall(r: RegFile, z: iset<int>, f: Footprint)
    requires Here(f) && Ordinary(r) && FarOff(z)
    ensures PrefixDecoder(Loop().decode) && Follows(Loop(), Last(ToCall(r, z)), ToJump(r, z), f)
  {
    hide Clobbered, Here, Ordinary, FarOff;
    ToJumpIsBlock(r, z, f);
    HereIs(f);
    Fetches();
    CallBranches(r, z);
    hide NativeBlock, Branches, Code, Loop, PrefixDecoder, Region, Fetch, Deferred;
  }

  lemma CallFollowsJump(r: RegFile, z: iset<int>, f: Footprint)
    requires Here(f) && Ordinary(r) && FarOff(z)
    ensures PrefixDecoder(Loop().decode)
    ensures Follows(Loop(), Last(ToJump(r, z)), ToCall(Clobbered(ENTRY + 3, r), z), f)
  {
    hide Clobbered, Here, Ordinary, FarOff;
    ClobberedFits(r);
    ToCallIsBlock(Clobbered(ENTRY + 3, r), z, f);
    HereIs(f);
    Fetches();
    BackBranches(r, z);
    hide NativeBlock, Branches, Code, Loop, PrefixDecoder, Region, Fetch, Deferred;
  }

  /** The registers at the start of the `j`-th block: from the second turn on they do not change any more. */
  ghost function RegsAt(r: RegFile, j: nat): RegFile {
    if j < 2 then r else Clobbered(ENTRY + 3, r)
  }

  ghost function Blocks(r: RegFile, z: iset<int>, n: nat): (blocks: seq<seq<Spot>>)
    ensures |blocks| == n && (n > 0 ==> blocks[0] == ToCall(r, z)) && forall j :: 0 <= j < n ==> |blocks[j]| > 0
  {
    seq(n, j requires 0 <= j < n => if j % 2 == 0 then ToCall(RegsAt(r, j), z) else ToJump(RegsAt(r, j), z))
  }

  lemma ClobberedFits(r: RegFile)
    requires Ordinary(r)
    ensures Ordinary(Clobbered(ENTRY + 3, r))
  {
    hide Clobbered, PlainFlags, S.SamePrivileged, Own;
    ClobberedAt(ENTRY + 3, r, RFLAGS);
    forall x: Reg | Selector(x)
      ensures Clobbered(ENTRY + 3, r)[x] == r[x]
    {
      ClobberedAt(ENTRY + 3, r, x);
    }
  }

  lemma ClobberedTwice(r: RegFile)
    ensures Clobbered(ENTRY + 3, Clobbered(ENTRY + 3, r)) == Clobbered(ENTRY + 3, r)
  {
  }

  lemma BlocksFollow(r: RegFile, z: iset<int>, n: nat, j: nat, f: Footprint)
    requires Here(f) && Ordinary(r) && FarOff(z) && 0 < j < n
    ensures PrefixDecoder(Loop().decode) && |Blocks(r, z, n)[j - 1]| > 0
    ensures Follows(Loop(), Last(Blocks(r, z, n)[j - 1]), Blocks(r, z, n)[j], f)
  {
    hide Follows, PrefixDecoder, Loop, ToCall, ToJump, Here, Ordinary, FarOff;
    hide Clobbered;
    ClobberedFits(r);
    ClobberedTwice(r);
    if j % 2 == 1 {
      JumpFollowsCall(RegsAt(r, j), z, f);
    } else {
      CallFollowsJump(RegsAt(r, j - 1), z, f);
    }
  }

  lemma LoopRunsNatively(r: RegFile, z: iset<int>, n: nat, f: Footprint)
    requires Here(f) && Ordinary(r) && FarOff(z) && n > 0
    ensures PrefixDecoder(Loop().decode) && NativeRun(Loop(), Blocks(r, z, n), f)
  {
    hide NativeBlock, Follows, ToCall, Blocks, Loop, Here, PrefixDecoder, Ordinary, FarOff;
    ToCallIsBlock(r, z, f);
    forall j | 0 < j < n
      ensures Follows(Loop(), Last(Blocks(r, z, n)[j - 1]), Blocks(r, z, n)[j], f)
    {
      BlocksFollow(r, z, n, j, f);
    }
  }

  lemma BlocksStart(r: RegFile, z: iset<int>, n: nat)
    requires n > 0
    ensures |Blocks(r, z, n)[0]| > 0 && Blocks(r, z, n)[0][0] == Spot(Cpu(ENTRY, r, Code()), SCRATCH, z)
  {
    hide Code;
  }

  /** The registers `exec_binary` starts with are those of an ordinary program. */
  lemma FirstIsOrdinary(rsp: Word)
    ensures Ordinary(FirstRegs(Own(), rsp))
  {
    hide FirstRegs, Own;
    var r := FirstRegs(Own(), rsp);
    FirstAt(rsp, CS);
    FirstAt(rsp, SS);
    FirstAt(rsp, GS);
    FirstAt(rsp, ES);
    FirstAt(rsp, DS);
    FirstAt(rsp, FS);
    FirstAt(rsp, RFLAGS);
    hide S.Changeable;
    assert S.SamePrivileged(Own()[RFLAGS], r[RFLAGS]);
  }

  lemma FirstAt(rsp: Word, x: Reg)
    requires Selector(x) || x == RFLAGS
    ensures FirstRegs(Own(), rsp)[x] == Own()[x]
    ensures Selector(x) ==> Own()[x] < 0x1_0000
    ensures x == RFLAGS ==> Own()[x] == 0x202
  {
    hide S.Popped, Own, OwnWords, S.Index;
    OwnAt(x);
    FlagsStay();
  }

  lemma FlagsStay()
    ensures S.Popped(0x202, 0) == 0x202
  {
    assert 0x202 % 2 == 0 && 0x202 / 4 == 128 && 0x202 / 16 == 32 && 0x202 / 64 == 8 && 0x202 / 1024 == 0;
    assert S.Changeable(0x202) == 0;
    assert S.Changeable(0) == 0;
  }

  /** What the first point of the run asks for: a stack between the code and the host. */
  lemma LoopBegins(s: Sys)
    requires s.mem == Code() && !s.currSyscall && ENTRY + 0x2000 <= s.st.regs[RSP] <= HOST
    ensures var rsp := s.st.regs[RSP];
      && FarOff(LaunchBytes(rsp))
      && Begins(TheMachine(), s, Spot(Cpu(ENTRY, FirstRegs(Own(), rsp), Code()), SCRATCH, LaunchBytes(rsp)))
  {
    MachineIs();
    hide Code, FirstRegs, TheMachine, Loop, Place, Own;
  }

  lemma SoundParts()
    ensures Sound(TheMachine()) ==> PrefixDecoder(Loop().decode) && S.WellPlaced(TheMachine().l)
  {
    MachineIs();
    hide TheMachine, PrefixDecoder, Place, Carrying, Standing, CoherentDecoder;
  }

  lemma FeetAreHere(s: Sys)
    requires |s.dump.code| <= 64 && |s.restore.code| <= 64
    ensures Here(Feet(TheMachine(), s))
  {
    hide Loop, Place, Own, Region;
  }

  /** The run from registers and stale bytes that meet the conditions. */
  lemma LoopRunsFrom(s: Sys, r: RegFile, z: iset<int>, n: nat)
    requires Here(Feet(TheMachine(), s)) && Ordinary(r) && FarOff(z)
    requires Begins(TheMachine(), s, Spot(Cpu(ENTRY, r, Code()), SCRATCH, z))
    ensures Sound(TheMachine()) && PrefixDecoder(TheMachine().p.decode) && S.WellPlaced(TheMachine().l)
    ensures EngineRun(TheMachine(), s, ENTRY, n).Some?
    ensures InSync(EngineRun(TheMachine(), s, ENTRY, n).value, Last(Blocks(r, z, n + 1)[n]), s.dump.code, s.restore.code, TheMachine().host)
  {
    hide Code, Sound, InSync, EngineRun, Blocks, Region, Loop, NativeRun, Own, Begins, TheMachine, PrefixDecoder, Here, Ordinary,
      FarOff, Place, Feet, S.WellPlaced;
    MachineIs();
    MachineIsSound();
    SoundParts();
    LoopRunsNatively(r, z, n + 1, Feet(TheMachine(), s));
    BlocksStart(r, z, n + 1);
    Transparent(TheMachine(), s, Blocks(r, z, n + 1), n);
  }

  /** For any number of turns and any patches of at most 64 bytes the engine runs this guest transparently, up to
      rcx and r11, on a host whose selectors and flags are constant. */
  lemma LoopRuns(s: Sys, n: nat)
    requires |s.dump.code| <= 64 && |s.restore.code| <= 64 && s.mem == Code() && !s.currSyscall
    requires ENTRY + 0x2000 <= s.st.regs[RSP] <= HOST
    ensures Sound(TheMachine()) && PrefixDecoder(TheMachine().p.decode) && S.WellPlaced(TheMachine().l)
    ensures EngineRun(TheMachine(), s, ENTRY, n).Some?
    ensures var rsp := s.st.regs[RSP];
      InSync(EngineRun(TheMachine(), s, ENTRY, n).value, Last(Blocks(FirstRegs(Own(), rsp), LaunchBytes(rsp), n + 1)[n]),
             s.dump.code, s.restore.code, TheMachine().host)
  {
    hide Code, Sound, InSync, EngineRun, Blocks, Region, Loop, Own, Begins, TheMachine, PrefixDecoder, Here, Ordinary, FarOff,
      Place, Feet, S.WellPlaced, FirstRegs, LaunchBytes;
    var rsp := s.st.regs[RSP];
    FirstIsOrdinary(rsp);
    LoopBegins(s);
    FeetAreHere(s);
    LoopRunsFrom(s, FirstRegs(Own(), rsp), LaunchBytes(rsp), n);
  }

  /** Exactly, the run is not transparent: at the first system call the CPU puts the return address in rcx, and
      the hook leaves there whatever the guest had. */
  lemma ScratchIsLost(r: RegFile)
    requires r[RCX] != ENTRY + 3 || r[R11] != r[RFLAGS]
    ensures var c := Cpu(ENTRY + 1, r, Code());
      Emulate(Loop(), CALL, c.pc, c.State(), c.mem) != Executed(Loop(), CALL, c)
  {
    var c := Cpu(ENTRY + 1, r, Code());
    ExecuteCall(c);
    assert Coherent(CALL) by { assert IsCflow(CALL.groups[0]); }
    hide Code, Loop, Execute, Hooked, Emulate;
    HookedCallExact(Loop(), CALL, c);
  }
}
