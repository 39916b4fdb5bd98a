/** The instrumented run against the native one, over any number of dispatches: the hardware runs the patched
    blocks, the generated stubs carry the registers over, the dispatcher does the branches. */
module Transparency {
  import opened Words
  import opened Registers
  import opened Guest
  import opened Sweep
  import opened Emulation
  import opened PagedMemory
  import opened Patching
  import opened Engine
  import opened NativeRuns
  import S = Stubs

  // ----- the machine the engine runs on -----

  /** `host` is where the engine itself lives, `own` holds the selectors and privileged flags of the process, and
      `ready` is the core when the engine jumps into the restore stub for the `n`-th time (or first starts the
      guest): the host's other registers and its memory are whatever C left there. */
  datatype Machine = Machine(p: Platform, l: S.Layout, host: iset<int>, own: RegFile, ready: (nat, Sys) -> S.Core)

  ghost predicate Decodes(p: Platform) {
    PrefixDecoder(p.decode) && CoherentDecoder(p.decode)
  }

  /** The state structure, the top of the host stack, the hook cell and both stubs belong to the host. */
  ghost predicate HostHolds(l: S.Layout, host: iset<int>) {
    && S.WellPlaced(l) && S.StubsApart(l)
    && (forall i :: Within(i, l.state, 8 * S.SLOTS) || Within(i, l.hostRsp - 16, 16) || Within(i, l.currHook, 8) ==> i in host)
    && (forall i :: Within(i, l.dumpStub, |l.dumpCode|) || Within(i, l.restoreStub, |l.restoreCode|) ==> i in host)
  }

  ghost predicate DumpStubIn(l: S.Layout, m: Memory) {
    Load(m, l.dumpStub, |l.dumpCode|) == l.dumpCode
  }

  ghost predicate RestoreStubIn(l: S.Layout, m: Memory) {
    Load(m, l.restoreStub, |l.restoreCode|) == l.restoreCode
  }

  /** The core stands on a stack of the host that is apart from all it must not overwrite, with the selectors and
      the privileged flags of the process. */
  ghost predicate Standing(w: Machine, e: S.Core)
    requires S.WellPlaced(w.l)
  {
    var rsp := e.regs[S.RSP];
    && e.left.None? && S.OnHostStack(w.l, rsp) && S.Separate(rsp - 16, 16, w.l.currHook, 8)
    && S.Separate(rsp - 16, 16, w.l.dumpStub, |w.l.dumpCode|) && S.Separate(rsp - 16, 16, w.l.restoreStub, |w.l.restoreCode|)
    && (forall i :: Within(i, rsp - 16, 16) ==> i in w.host)
    && (forall x: Reg :: Selector(x) ==> e.regs[S.Index(x)] == w.own[x])
    && S.SamePrivileged(e.regs[S.RFLAGS], w.own[RFLAGS])
  }

  /** The core carries the engine's state `s`: memory outside the host, the guest's registers in the state structure,
      the hook's address in its cell, and the stubs in their places. */
  ghost predicate Carrying(w: Machine, e: S.Core, s: Sys)
    requires S.WellPlaced(w.l)
  {
    && AgreeOutside(e.mem, s.mem, w.host)
    && S.SavedState(w.l, e.mem) == s.st && ReadWord(e.mem, w.l.currHook) == s.currHook
    && DumpStubIn(w.l, e.mem) && RestoreStubIn(w.l, e.mem)
  }

  /** Whatever state the dispatcher leaves, the host carries it over. */
  ghost predicate Sound(w: Machine) {
    && Decodes(w.p) && HostHolds(w.l, w.host)
    && forall n: nat, s: Sys :: Standing(w, w.ready(n, s)) && Carrying(w, w.ready(n, s), s)
  }

  // ----- the instrumented run -----

  /** The dump hook, if its bytes are in place, jumps to the dump stub, which, if its bytes are in place, enters the
      dispatcher. What the dispatcher then finds. */
  ghost function Caught(w: Machine, s: Sys, u: Cpu): Option<Sys>
    requires S.WellPlaced(w.l)
  {
    var c := S.Core(S.AsRegs(u.regs), u.mem, None);
    var h := S.Run(S.DumpHook(w.l), c);
    if Load(u.mem, s.dump.jmp, |s.dump.code|) != s.dump.code then None
    else if h.left != Some(w.l.dumpStub) || !DumpStubIn(w.l, h.mem) then None
    else
      var d := S.Dump(w.l, c);
      Some(s.(mem := d.mem, st := S.SavedState(w.l, d.mem), currHook := ReadWord(d.mem, w.l.currHook)))
  }

  /** The guest runs on the hardware from `g` to the dump hook. */
  ghost function Enter(w: Machine, s: Sys, g: Cpu): Option<Sys>
    requires S.WellPlaced(w.l)
  {
    match RunUntil(w.p, g, s.dump.jmp)
    case None => None
    case Some(u) => Caught(w, s, u)
  }

  /** `continue_exec`: the restore stub, if its bytes are in place, leaves for the restore hook, which, if its bytes
      are in place, runs and falls through to the block behind it. */
  ghost function Resume(w: Machine, n: nat, s: Sys): Option<Sys>
    requires S.WellPlaced(w.l)
  {
    var e := w.ready(n, s);
    var g := S.Restore(w.l, e);
    if !RestoreStubIn(w.l, e.mem) then None
    else match S.Run(S.RestoreStub(w.l), e).left
      case None => None
      case Some(at) =>
        if Load(g.mem, at, |s.restore.code|) != s.restore.code then None
        else Enter(w, s, Cpu(Wrap(at + |s.restore.code|), S.AsRegFile(g.regs), g.mem))
  }

  /** `instrument`: scan and patch the first block, then start the guest at its entry by way of `exec_binary`. */
  ghost function Start(w: Machine, s: Sys, entry: Word): Option<Sys>
    requires PrefixDecoder(w.p.decode) && S.WellPlaced(w.l)
  {
    match BranchOffset(w.p, s.mem, entry, s.currSyscall)
    case None => None
    case Some(off) =>
      var s' := Instrument(s.(st := s.st.(rip := entry), currSyscall := false), entry, off);
      var x := S.Run(S.ExecProgram(s'.st.rip, s'.st.regs[RSP]), w.ready(0, s'));
      match x.left
      case None => None
      case Some(at) => Enter(w, s', Cpu(at, S.AsRegFile(x.regs), x.mem))
  }

  /** From one dispatch to the next. */
  ghost function Round(w: Machine, n: nat, s: Sys): Option<Sys>
    requires PrefixDecoder(w.p.decode) && S.WellPlaced(w.l)
  {
    match Dispatch(w.p, s)
    case None => None
    case Some(s') => Resume(w, n, s')
  }

  /** The engine at its `n`-th dispatch after the first. */
  ghost function EngineRun(w: Machine, s: Sys, entry: Word, n: nat): Option<Sys>
    requires PrefixDecoder(w.p.decode) && S.WellPlaced(w.l)
  {
    if n == 0 then Start(w, s, entry)
    else
      match EngineRun(w, s, entry, n - 1)
      case None => None
      case Some(s') => Round(w, n, s')
  }

  /** At a dispatch the engine holds the native CPU: registers but for the lost ones, rip, and memory, once its
      patches are off, outside the host and the stale bytes; the three copies of the branch address agree. */
  ghost predicate InSync(s: Sys, a: Spot, dump: seq<Byte>, restore: seq<Byte>, host: iset<int>) {
    && Alike(a, Cpu(s.st.rip, s.st.regs, Undo(s)), host)
    && s.currHook == s.dump.jmp == a.cpu.pc && !s.currSyscall && PatchesInside(s)
    && s.dump.code == dump && s.restore.code == restore
  }

  /** In particular, where nothing is lost or stale it holds exactly the native registers, and the native memory
      outside the host. */
  lemma InSyncIsExact(s: Sys, c: Cpu, dump: seq<Byte>, restore: seq<Byte>, host: iset<int>)
    requires InSync(s, Spot(c, {}, iset{}), dump, restore, host)
    ensures s.st == c.State() && AgreeOutside(Undo(s), c.mem, host)
  {
    assert s.st.regs == c.regs;
  }

  // ----- bytes that stay -----

  lemma LoadAgrees(m: Memory, m': Memory, a: Word, n: nat, X: iset<int>)
    requires a + n <= TWO64 && AgreeOn(m', m, X) && forall i :: Within(i, a, n) ==> i in X
    ensures Load(m', a, n) == Load(m, a, n)
  {
    forall i | 0 <= i < n
      ensures Load(m', a, n)[i] == Load(m, a, n)[i]
    {
      LoadAt(m, a, n, i);
      LoadAt(m', a, n, i);
    }
  }

  lemma LoadAgreesOutside(m: Memory, m': Memory, a: Word, n: nat, X: iset<int>)
    requires a + n <= TWO64 && AgreeOutside(m', m, X) && Clear(a, n, X)
    ensures Load(m', a, n) == Load(m, a, n)
  {
    LoadAgrees(m, m', a, n, iset i | i !in X);
  }

  lemma LoadSeparate(m: Memory, m': Memory, a: Word, n: nat, lo: int, k: int)
    requires a + n <= TWO64 && S.SameOutside(m, m', lo, k) && S.Separate(lo, k, a, n)
    ensures Load(m', a, n) == Load(m, a, n)
  {
    LoadAgreesOutside(m, m', a, n, iset i | Within(i, lo, k));
  }

  lemma CellAgrees(m: Memory, m': Memory, a: Word, X: iset<int>)
    requires a + 8 <= TWO64 && AgreeOn(m', m, X) && forall i :: Within(i, a, 8) ==> i in X
    ensures ReadWord(m', a) == ReadWord(m, a)
  {
    LoadAgrees(m, m', a, 8, X);
  }

  /** What is the host's, the guest leaves alone. */
  lemma HostStays(w: Machine, m: Memory, m': Memory, X: iset<int>)
    requires HostHolds(w.l, w.host) && AgreeOn(m', m, X + w.host)
    ensures ReadWord(m', w.l.currHook) == ReadWord(m, w.l.currHook)
    ensures DumpStubIn(w.l, m) ==> DumpStubIn(w.l, m')
  {
    hide Load, ReadWord;
    CellAgrees(m, m', w.l.currHook, X + w.host);
    LoadAgrees(m, m', w.l.dumpStub, |w.l.dumpCode|, X + w.host);
  }

  // ----- from the hook to the dispatcher -----

  /** The dump hook jumps to the stub, whose bytes its one store does not touch. */
  lemma HookJumps(w: Machine, u: Cpu)
    requires HostHolds(w.l, w.host) && DumpStubIn(w.l, u.mem)
    ensures var h := S.Run(S.DumpHook(w.l), S.Core(S.AsRegs(u.regs), u.mem, None));
      h.left == Some(w.l.dumpStub) && DumpStubIn(w.l, h.mem)
  {
    hide Load, S.Run, S.AsRegs, WriteWord;
    var c := S.Core(S.AsRegs(u.regs), u.mem, None);
    S.DumpHookSteps(w.l, c);
    S.WriteIsLocal(u.mem, S.At(w.l, S.RAX), c.regs[S.RAX], w.l.state, 8 * S.SLOTS);
    LoadSeparate(u.mem, S.Run(S.DumpHook(w.l), c).mem, w.l.dumpStub, |w.l.dumpCode|, w.l.state, 8 * S.SLOTS);
  }

  /** The dump hook and stub turn the guest's registers into the saved state; the rest of memory, outside the
      host, stays as it was. */
  lemma DumpHands(w: Machine, u: Cpu)
    requires HostHolds(w.l, w.host)
    ensures var d := S.Dump(w.l, S.Core(S.AsRegs(u.regs), u.mem, None));
      && S.SavedState(w.l, d.mem).rip == ReadWord(u.mem, w.l.currHook)
      && (forall x: Reg :: x != RFLAGS || PlainFlags(u.regs[x]) ==> S.SavedState(w.l, d.mem).regs[x] == u.regs[x])
      && ReadWord(d.mem, w.l.currHook) == ReadWord(u.mem, w.l.currHook)
      && AgreeOutside(d.mem, u.mem, w.host)
  {
    hide S.Dump, S.SavedState, ReadWord, S.AsRegs, S.AsRegFile, S.SavedRegs;
    var c := S.Core(S.AsRegs(u.regs), u.mem, None);
    S.DumpIsSave(w.l, c);
    forall x: Reg | x != RFLAGS || PlainFlags(u.regs[x])
      ensures S.AsRegFile(S.SavedRegs(c.regs))[x] == u.regs[x]
    {
      S.SavedRegsAt(u.regs, x);
    }
    S.DumpSaves(w.l, c, S.RAX);
    S.HookCellKept(w.l, u.mem, S.Dump(w.l, c).mem);
  }

  /** The dump of a CPU that is like the native one: the saved registers are the native ones, but for the lost. */
  lemma DumpInSync(w: Machine, u: Cpu, b: Spot, X: iset<int>)
    requires HostHolds(w.l, w.host) && Alike(b, u, X + w.host) && PlainFlags(b.cpu.regs[RFLAGS])
    ensures var d := S.Dump(w.l, S.Core(S.AsRegs(u.regs), u.mem, None));
      && S.SavedState(w.l, d.mem).rip == ReadWord(d.mem, w.l.currHook) == ReadWord(u.mem, w.l.currHook)
      && SameRegs(S.SavedState(w.l, d.mem).regs, b.cpu.regs, b.lost)
      && AgreeOutside(d.mem, b.cpu.mem, X + w.host + b.stale)
  {
    hide S.Dump, S.SavedState, ReadWord, S.AsRegs, PlainFlags, S.WellPlaced, S.StubsApart;
    DumpHands(w, u);
  }

  // ----- from the dispatcher to the restore hook -----

  lemma SavedSelectors(l: S.Layout, m: Memory, own: RegFile)
    requires S.WellPlaced(l) && Hosted(own, S.SavedState(l, m).regs)
    ensures forall q: S.Slot :: S.Selector(q) ==> S.Fields(l, m)[q] < 0x1_0000
    ensures S.Fields(l, m)[S.CS] == own[CS] && S.Fields(l, m)[S.GS] == own[GS] && S.Fields(l, m)[S.FS] == own[FS]
    ensures S.SamePrivileged(own[RFLAGS], S.Fields(l, m)[S.RFLAGS])
  {
    hide S.Fields, S.SavedState, S.AsRegFile, S.Index, Hosted;
    S.SelectorIndex();
    SavedSelector(l, m, CS, own);
    SavedSelector(l, m, SS, own);
    SavedSelector(l, m, GS, own);
    SavedSelector(l, m, ES, own);
    SavedSelector(l, m, DS, own);
    SavedSelector(l, m, FS, own);
    SavedFlags(l, m, own);
  }

  lemma SavedSelector(l: S.Layout, m: Memory, x: Reg, own: RegFile)
    requires S.WellPlaced(l) && Hosted(own, S.SavedState(l, m).regs) && Selector(x)
    ensures S.Fields(l, m)[S.Index(x)] < 0x1_0000
    ensures x == CS || x == GS || x == FS ==> S.Fields(l, m)[S.Index(x)] == own[x]
  {
    hide S.Fields, S.SavedState, S.Index, S.SamePrivileged;
    S.SavedAt(l, m, x);
  }

  lemma SavedFlags(l: S.Layout, m: Memory, own: RegFile)
    requires S.WellPlaced(l) && Hosted(own, S.SavedState(l, m).regs)
    ensures S.SamePrivileged(own[RFLAGS], S.Fields(l, m)[S.RFLAGS])
  {
    hide S.Fields, S.SavedState, S.SamePrivileged;
    S.SavedAt(l, m, RFLAGS);
  }

  lemma StandingFacts(w: Machine, e: S.Core)
    requires S.WellPlaced(w.l) && Standing(w, e)
    ensures e.regs[S.CS] == w.own[CS] && e.regs[S.GS] == w.own[GS] && e.regs[S.FS] == w.own[FS]
    ensures e.left.None? && S.OnHostStack(w.l, e.regs[S.RSP])
    ensures S.SamePrivileged(e.regs[S.RFLAGS], w.own[RFLAGS])
  {
    hide S.Index, S.SamePrivileged;
    S.SelectorIndex();
  }

  lemma PrivilegedChain(x: Word, y: Word, z: Word)
    requires S.SamePrivileged(x, y) && S.SamePrivileged(y, z)
    ensures S.SamePrivileged(x, z)
  {
    hide S.Changeable;
  }

  /** The restore stub and hook turn the saved state into the guest's registers, and leave at the saved rip. */
  lemma RestoreHands(w: Machine, e: S.Core, s: Sys)
    requires HostHolds(w.l, w.host) && Standing(w, e) && Carrying(w, e, s) && Hosted(w.own, s.st.regs)
    ensures S.Run(S.RestoreStub(w.l), e).left == Some(s.st.rip)
    ensures S.AsRegFile(S.Restore(w.l, e).regs) == s.st.regs
    ensures S.SameOutside(e.mem, S.Restore(w.l, e).mem, e.regs[S.RSP] - 16, 16)
  {
    hide S.Restore, ReadWord, Load, S.Run, S.RestoreStub, S.Fields, S.RestoredRegs, S.SamePrivileged, S.AsRegFile, S.SameOutside,
      Hosted, Standing, S.StubsApart, S.WellPlaced;
    StandingFacts(w, e);
    SavedSelectors(w.l, e.mem, w.own);
    PrivilegedChain(e.regs[S.RFLAGS], w.own[RFLAGS], S.Fields(w.l, e.mem)[S.RFLAGS]);
    S.RestoreIsLoad(w.l, e);
    S.RestoreRuns(w.l, e);
  }

  /** What the stub pushes on its way is the host's, and neither the hook cell nor a stub. */
  lemma PushesStay(w: Machine, e: S.Core, s: Sys, m: Memory)
    requires HostHolds(w.l, w.host) && Standing(w, e) && Carrying(w, e, s)
    requires S.SameOutside(e.mem, m, e.regs[S.RSP] - 16, 16)
    ensures ReadWord(m, w.l.currHook) == s.currHook && DumpStubIn(w.l, m) && AgreeOutside(m, s.mem, w.host)
  {
    hide ReadWord, Load, S.SavedState, S.SamePrivileged;
    S.WordOutside(e.mem, m, w.l.currHook, e.regs[S.RSP] - 16, 16);
    LoadSeparate(e.mem, m, w.l.dumpStub, |w.l.dumpCode|, e.regs[S.RSP] - 16, 16);
  }

  // ----- one block between two dispatches -----

  /** The engine has patched the block of `spots`: both patches are live over a memory that is the native one
      outside the host and what is stale. */
  ghost predicate Patched(s: Sys, clean: Memory, spots: seq<Spot>, host: iset<int>)
    requires |spots| > 0
  {
    && spots[0].cpu.pc <= Last(spots).cpu.pc
    && Live(s, clean, spots[0].cpu.pc, Last(spots).cpu.pc - spots[0].cpu.pc)
    && AgreeOutside(clean, spots[0].cpu.mem, host + spots[0].stale) && !s.currSyscall
  }

  /** The bytes of the patches of a block. */
  ghost function Patches(s: Sys, spots: seq<Spot>): iset<int>
    requires |spots| > 0 && spots[0].cpu.pc <= Last(spots).cpu.pc
  {
    PatchSet(spots[0].cpu.pc, Last(spots).cpu.pc - spots[0].cpu.pc, |s.dump.code|, |s.restore.code|)
  }

  ghost function Feet(w: Machine, s: Sys): Footprint {
    Footprint(|s.dump.code|, |s.restore.code|, w.host, w.own)
  }

  ghost predicate Block(w: Machine, s: Sys, spots: seq<Spot>, skip: bool)
    requires PrefixDecoder(w.p.decode)
  {
    NativeBlock(w.p, spots, skip, Feet(w, s))
  }

  /** What the native block says of the guest's stretch on the hardware. */
  lemma BlockFacts(w: Machine, s: Sys, spots: seq<Spot>, skip: bool)
    requires PrefixDecoder(w.p.decode) && Block(w, s, spots, skip)
    ensures |spots| > 0 && spots[0].cpu.pc <= Last(spots).cpu.pc
    ensures var base, stop := spots[0].cpu.pc, Last(spots).cpu.pc;
      && HasRoom(base, stop - base, |s.dump.code|, |s.restore.code|)
      && QuietRun(w.p, spots, stop, skip, Patches(s, spots) + w.host)
      && Clear(base, stop - base, Patches(s, spots) + w.host)
      && Hosted(w.own, spots[0].cpu.regs) && Kept(spots[0].lost) && PlainFlags(Last(spots).cpu.regs[RFLAGS])
  {
    hide QuietRun, StopsFrom, Fetch, Hosted, Kept, PlainFlags;
  }

  /** Its patches are neither the host's nor stale. */
  lemma PatchesClear(w: Machine, s: Sys, spots: seq<Spot>, skip: bool)
    requires PrefixDecoder(w.p.decode) && Block(w, s, spots, skip)
    ensures |spots| > 0 && spots[0].cpu.pc <= Last(spots).cpu.pc
    ensures Clear(spots[0].cpu.pc - |s.restore.code|, |s.restore.code|, w.host + spots[0].stale)
    ensures Clear(Last(spots).cpu.pc, |s.dump.code|, w.host + spots[0].stale)
    ensures forall i :: i in Patches(s, spots) ==> i !in w.host + spots[0].stale
  {
    hide QuietRun, StopsFrom, Fetch, Hosted, Kept, PlainFlags;
    var base, stop := spots[0].cpu.pc, Last(spots).cpu.pc;
    forall i | base - |s.restore.code| <= i < stop + |s.dump.code|
      ensures i !in w.host + spots[0].stale
    {
      assert Within(i, base - |s.restore.code|, |s.restore.code| + (stop - base) + |s.dump.code|);
    }
  }

  lemma HostedStays(own: RegFile, a: Spot, r: RegFile)
    requires SameRegs(r, a.cpu.regs, a.lost) && Hosted(own, a.cpu.regs) && Kept(a.lost)
    ensures Hosted(own, r)
  {
    hide S.SamePrivileged;
  }

  lemma AgreeChain(m: Memory, s: Memory, clean: Memory, native: Memory, X: iset<int>, host: iset<int>, stale: iset<int>)
    requires AgreeOutside(m, s, host + stale) && AgreeOutside(s, clean, X) && AgreeOutside(clean, native, host + stale)
    ensures AgreeOutside(m, native, X + host + stale)
  {
  }

  /** The guest's stretch on the hardware: it reaches the hook, with the native registers but for the lost ones,
      and with the patches, the host and all else that is not native as it was. */
  lemma PatchedBlockRuns(w: Machine, s: Sys, clean: Memory, spots: seq<Spot>, skip: bool, g: Cpu) returns (u: Cpu)
    requires PrefixDecoder(w.p.decode) && Block(w, s, spots, skip) && |spots| > 0 && Patched(s, clean, spots, w.host)
    requires g.pc == spots[0].cpu.pc && SameRegs(g.regs, spots[0].cpu.regs, spots[0].lost)
    requires AgreeOutside(g.mem, s.mem, w.host + spots[0].stale)
    ensures RunUntil(w.p, g, s.dump.jmp) == Some(u)
    ensures Becomes(Last(spots), g, Some(u), Patches(s, spots) + w.host)
    ensures AgreeOn(Last(spots).cpu.mem, spots[0].cpu.mem, Patches(s, spots) + w.host)
  {
    hide QuietRun, Steps, Load, Store, PatchSet, HostHolds, PrefixDecoder, CoherentDecoder, Block, Clear, Live,
      AgreeOutside, AgreeOn, SameRegs, RunUntil, FirstHit, Hosted, Kept;
    BlockFacts(w, s, spots, skip);
    PatchBytes(s, clean, spots, w.host);
    var base, stop := spots[0].cpu.pc, Last(spots).cpu.pc;
    var X := Patches(s, spots) + w.host;
    LivePatches(s, clean, base, stop - base);
    AgreeChain(g.mem, s.mem, clean, spots[0].cpu.mem, Patches(s, spots), w.host, spots[0].stale);
    BlockRuns(w.p, spots, g, stop, skip, X);
    BlockKeeps(w.p, spots, stop, skip, X);
    FirstHitIsRun(w.p, g, stop, |spots| - 1);
    u := Steps(w.p, g, |spots| - 1).value;
  }

  lemma PatchBytes(s: Sys, clean: Memory, spots: seq<Spot>, host: iset<int>)
    requires |spots| > 0 && Patched(s, clean, spots, host)
    ensures forall i :: Within(i, s.dump.jmp, |s.dump.code|) ==> i in Patches(s, spots)
    ensures s.dump.jmp == s.currHook == Last(spots).cpu.pc && !s.currSyscall
    ensures s.dump.jmp + |s.dump.code| < TWO64 && s.restore.jmp + |s.restore.code| < TWO64
    ensures PatchesInside(s)
  {
    hide Load, Store;
  }

  /** Undoing the patches over what the guest made of memory gives the native memory, outside the host and what is
      stale. */
  lemma UndoInSync(w: Machine, s: Sys, clean: Memory, spots: seq<Spot>, skip: bool, mem': Memory)
    requires PrefixDecoder(w.p.decode) && Block(w, s, spots, skip) && |spots| > 0 && Patched(s, clean, spots, w.host)
    requires AgreeOutside(mem', Last(spots).cpu.mem, Patches(s, spots) + w.host + Last(spots).stale)
    requires AgreeOn(Last(spots).cpu.mem, spots[0].cpu.mem, Patches(s, spots) + w.host)
    ensures AgreeOutside(Undo(s.(mem := mem')), Last(spots).cpu.mem, w.host + Last(spots).stale)
  {
    hide Undo, Live, PatchSet, Block, PrefixDecoder, Clear;
    var base, stop := spots[0].cpu.pc, Last(spots).cpu.pc;
    PatchesClear(w, s, spots, skip);
    UndoIs(s, clean, base, stop - base, mem');
    forall i | 0 <= i < TWO64 && i !in w.host + Last(spots).stale
      ensures Undo(s.(mem := mem'))[i] == Last(spots).cpu.mem[i]
    {
      if i in Patches(s, spots) {
        assert i !in w.host + spots[0].stale;
        assert i in Patches(s, spots) + w.host;
      } else {
        assert i !in Patches(s, spots) + w.host + Last(spots).stale;
      }
    }
  }

  lemma UndoIgnores(s: Sys, st: State, currHook: Word)
    ensures Undo(s.(st := st, currHook := currHook)) == Undo(s)
  {
  }

  /** The bytes of the dump hook outlast the guest's block. */
  lemma HookStays(w: Machine, s: Sys, clean: Memory, spots: seq<Spot>, skip: bool, g: Cpu, u: Cpu)
    requires PrefixDecoder(w.p.decode) && Block(w, s, spots, skip) && |spots| > 0 && Patched(s, clean, spots, w.host)
    requires AgreeOutside(g.mem, s.mem, w.host + spots[0].stale) && AgreeOn(u.mem, g.mem, Patches(s, spots) + w.host)
    ensures Load(u.mem, s.dump.jmp, |s.dump.code|) == s.dump.code
  {
    hide Load, Store, PrefixDecoder, Block, Live, PatchSet, AgreeOutside, AgreeOn, Clear, Patches;
    PatchesClear(w, s, spots, skip);
    PatchBytes(s, clean, spots, w.host);
    LivePatches(s, clean, spots[0].cpu.pc, Last(spots).cpu.pc - spots[0].cpu.pc);
    LoadAgreesOutside(s.mem, g.mem, s.dump.jmp, |s.dump.code|, w.host + spots[0].stale);
    LoadAgrees(g.mem, u.mem, s.dump.jmp, |s.dump.code|, Patches(s, spots) + w.host);
  }

  lemma CaughtIs(w: Machine, s: Sys, u: Cpu)
    requires HostHolds(w.l, w.host) && DumpStubIn(w.l, u.mem) && Load(u.mem, s.dump.jmp, |s.dump.code|) == s.dump.code
    ensures var d := S.Dump(w.l, S.Core(S.AsRegs(u.regs), u.mem, None));
      Caught(w, s, u) == Some(s.(mem := d.mem, st := S.SavedState(w.l, d.mem), currHook := ReadWord(d.mem, w.l.currHook)))
  {
    hide S.Dump, S.SavedState, S.AsRegs, S.Run, ReadWord, Load, DumpStubIn;
    HookJumps(w, u);
  }

  /** From live patches: the guest runs its block, hook and stub are still in place, and the dispatcher is entered in
      step with the native CPU at the branch. */
  lemma EnterInSync(w: Machine, s: Sys, clean: Memory, spots: seq<Spot>, skip: bool, g: Cpu)
    requires PrefixDecoder(w.p.decode) && HostHolds(w.l, w.host)
    requires Block(w, s, spots, skip) && |spots| > 0 && Patched(s, clean, spots, w.host)
    requires g.pc == spots[0].cpu.pc && SameRegs(g.regs, spots[0].cpu.regs, spots[0].lost)
    requires AgreeOutside(g.mem, s.mem, w.host + spots[0].stale)
    requires ReadWord(g.mem, w.l.currHook) == s.currHook && DumpStubIn(w.l, g.mem)
    ensures Enter(w, s, g).Some?
    ensures InSync(Enter(w, s, g).value, Last(spots), s.dump.code, s.restore.code, w.host)
  {
    hide RunUntil, Caught, Load, ReadWord, PatchSet, PrefixDecoder, Block, Undo, Patched, DumpStubIn, S.StubsApart,
      QuietRun, Clear, Hosted, Kept, PlainFlags, SameRegs, AgreeOutside, AgreeOn, S.Dump, S.SavedState, S.AsRegs, S.WellPlaced;
    BlockFacts(w, s, spots, skip);
    var u := PatchedBlockRuns(w, s, clean, spots, skip, g);
    PatchBytes(s, clean, spots, w.host);
    HookStays(w, s, clean, spots, skip, g, u);
    HostStays(w, g.mem, u.mem, Patches(s, spots));
    CaughtIs(w, s, u);
    DumpInSync(w, u, Last(spots), Patches(s, spots));
    var d := S.Dump(w.l, S.Core(S.AsRegs(u.regs), u.mem, None));
    UndoInSync(w, s, clean, spots, skip, d.mem);
    UndoIgnores(s.(mem := d.mem), S.SavedState(w.l, d.mem), ReadWord(d.mem, w.l.currHook));
  }

  /** The restore stub lands on the restore hook, whose bytes are in place. */
  lemma RestoreLands(w: Machine, e: S.Core, s: Sys, clean: Memory, spots: seq<Spot>, skip: bool)
    requires PrefixDecoder(w.p.decode) && Block(w, s, spots, skip) && |spots| > 0 && Patched(s, clean, spots, w.host)
    requires HostHolds(w.l, w.host) && Standing(w, e) && Carrying(w, e, s) && Hosted(w.own, s.st.regs)
    requires s.st.rip == spots[0].cpu.pc - |s.restore.code|
    ensures S.Run(S.RestoreStub(w.l), e).left == Some(s.restore.jmp)
    ensures Load(S.Restore(w.l, e).mem, s.restore.jmp, |s.restore.code|) == s.restore.code
    ensures s.restore.jmp + |s.restore.code| == spots[0].cpu.pc
  {
    hide Load, ReadWord, PrefixDecoder, Block, Patched, S.Restore, S.RestoreStub, S.Run, S.AsRegFile, Standing, Carrying,
      AgreeOutside, Hosted, S.WellPlaced, S.StubsApart, S.SameOutside, Patches;
    PatchesClear(w, s, spots, skip);
    RestoreHands(w, e, s);
    PushesStay(w, e, s, S.Restore(w.l, e).mem);
    EntryIs(s, clean, spots, w.host);
    LoadAgreesOutside(s.mem, S.Restore(w.l, e).mem, s.restore.jmp, |s.restore.code|, w.host);
  }

  lemma EntryIs(s: Sys, clean: Memory, spots: seq<Spot>, host: iset<int>)
    requires |spots| > 0 && Patched(s, clean, spots, host)
    ensures s.restore.jmp == spots[0].cpu.pc - |s.restore.code|
    ensures Load(s.mem, s.restore.jmp, |s.restore.code|) == s.restore.code
  {
    hide Load, Store;
    LivePatches(s, clean, spots[0].cpu.pc, Last(spots).cpu.pc - spots[0].cpu.pc);
  }

  lemma ResumeIs(w: Machine, n: nat, s: Sys, base: Word)
    requires S.WellPlaced(w.l) && RestoreStubIn(w.l, w.ready(n, s).mem)
    requires S.Run(S.RestoreStub(w.l), w.ready(n, s)).left == Some(s.restore.jmp)
    requires Load(S.Restore(w.l, w.ready(n, s)).mem, s.restore.jmp, |s.restore.code|) == s.restore.code
    requires s.restore.jmp + |s.restore.code| == base
    ensures var g := S.Restore(w.l, w.ready(n, s));
      Resume(w, n, s) == Enter(w, s, Cpu(base, S.AsRegFile(g.regs), g.mem))
  {
    hide Load, S.Restore, S.RestoreStub, S.Run, S.WellPlaced, S.AsRegFile, Enter, RestoreStubIn;
  }

  lemma ReadyIs(w: Machine, n: nat, s: Sys)
    requires Sound(w)
    ensures Standing(w, w.ready(n, s)) && Carrying(w, w.ready(n, s), s) && RestoreStubIn(w.l, w.ready(n, s).mem)
  {
    hide Standing, HostHolds, Decodes, RestoreStubIn;
  }

  lemma AgreeMore(m: Memory, m': Memory, host: iset<int>, stale: iset<int>)
    requires AgreeOutside(m, m', host)
    ensures AgreeOutside(m, m', host + stale)
  {
  }

  /** From the end of a dispatch to the next: the guest goes on behind the restore hook, at the block's base, with
      the registers the dispatcher left, and comes back in step with the native CPU at the branch. */
  lemma ResumeInSync(w: Machine, n: nat, s: Sys, clean: Memory, spots: seq<Spot>, skip: bool)
    requires Sound(w) && Block(w, s, spots, skip) && |spots| > 0 && Patched(s, clean, spots, w.host)
    requires SameRegs(s.st.regs, spots[0].cpu.regs, spots[0].lost)
    requires s.st.rip == spots[0].cpu.pc - |s.restore.code|
    ensures Resume(w, n, s).Some?
    ensures InSync(Resume(w, n, s).value, Last(spots), s.dump.code, s.restore.code, w.host)
  {
    hide Load, ReadWord, PrefixDecoder, CoherentDecoder, Block, Patched, S.Restore, S.RestoreStub, S.Run, S.WellPlaced,
      S.StubsApart, S.SameOutside, Enter, Resume, Standing, Carrying, QuietRun, InSync, AgreeOutside, Clear, Hosted, Kept,
      SameRegs, Patches, HasRoom, DumpStubIn, RestoreStubIn;
    BlockFacts(w, s, spots, skip);
    ReadyIs(w, n, s);
    HostedStays(w.own, spots[0], s.st.regs);
    var e := w.ready(n, s);
    var g := S.Restore(w.l, e);
    RestoreHands(w, e, s);
    PushesStay(w, e, s, g.mem);
    RestoreLands(w, e, s, clean, spots, skip);
    ResumeIs(w, n, s, spots[0].cpu.pc);
    AgreeMore(g.mem, s.mem, w.host, spots[0].stale);
    EnterInSync(w, s, clean, spots, skip, Cpu(spots[0].cpu.pc, S.AsRegFile(g.regs), g.mem));
  }

  // ----- a dispatch -----

  /** What the dispatcher makes of the branch, once in step with the native CPU. */
  lemma BranchInSync(p: Platform, i: Insn, a: Spot, b: Spot, t: Cpu, X: iset<int>) returns (e: Cpu)
    requires Coherent(i) && Branches(p, i, a, b, X) && Alike(a, t, X)
    ensures Emulate(p, i, t.pc, t.State(), t.mem) == Go(e.pc, State(e.regs, t.pc), e.mem, Deferred(p, i, a.cpu))
    ensures Becomes(b, t, Some(e), X)
  {
    hide Execute, Emulate, Supported, Coherent;
    if Deferred(p, i, a.cpu) {
      e := t;
      DeferredEmulates(p, i, t);
    } else if i.kind.Syscall? {
      e := Hooked(p, i, t);
      HookedEmulates(p, i, t);
    } else {
      EmulationIsExecution(p, i, t);
      e := Execute(p, i, t).value;
    }
  }

  lemma DeferredEmulates(p: Platform, i: Insn, t: Cpu)
    requires Coherent(i) && Deferred(p, i, t)
    ensures Emulate(p, i, t.pc, t.State(), t.mem) == Go(t.pc, t.State(), t.mem, true)
  {
    assert FirstActing(i.groups) == Some(GInt);
  }

  ghost predicate Follow(w: Machine, s: Sys, a: Spot, spots: seq<Spot>)
    requires PrefixDecoder(w.p.decode)
  {
    Follows(w.p, a, spots, Feet(w, s)) && Clear(a.cpu.pc, INSN_BUFFER, w.host + a.stale)
  }

  ghost predicate Synced(w: Machine, s: Sys, a: Spot) {
    InSync(s, a, s.dump.code, s.restore.code, w.host)
  }

  /** The branch as the dispatcher reads and emulates it. */
  lemma EmulatedInSync(w: Machine, s: Sys, a: Spot, spots: seq<Spot>) returns (e: Cpu, skip: bool)
    requires Decodes(w.p) && Synced(w, s, a) && Follow(w, s, a, spots)
    ensures Emulated(w.p, s) == Go(e.pc, State(e.regs, a.cpu.pc), e.mem, skip)
    ensures Block(w, s, spots, skip) && |spots| > 0 && Alike(spots[0], e, w.host)
  {
    hide Execute, Emulate, Supported, Store, Load, Undo, NativeBlock, Branches, Coherent;
    var t := Cpu(s.st.rip, s.st.regs, Undo(s));
    var i := Fetch(w.p, a.cpu.mem, a.cpu.pc).value;
    FetchSize(w.p, a.cpu.mem, a.cpu.pc);
    FetchAgrees(w.p, a.cpu.mem, t.mem, a.cpu.pc, w.host + a.stale);
    NonemptyBlock(w, s, spots, Deferred(w.p, i, a.cpu));
    assert Coherent(i);
    e := BranchInSync(w.p, i, a, spots[0], t, w.host);
    skip := Deferred(w.p, i, a.cpu);
  }

  lemma NonemptyBlock(w: Machine, s: Sys, spots: seq<Spot>, skip: bool)
    requires PrefixDecoder(w.p.decode) && Block(w, s, spots, skip)
    ensures |spots| > 0
  {
  }

  /** The scan of the next block finds the native block's branch, over the engine's memory. */
  lemma ScanInSync(w: Machine, s: Sys, spots: seq<Spot>, skip: bool, m: Memory)
    requires PrefixDecoder(w.p.decode) && Block(w, s, spots, skip) && |spots| > 0
    requires AgreeOutside(m, spots[0].cpu.mem, w.host + spots[0].stale)
    ensures spots[0].cpu.pc <= Last(spots).cpu.pc
    ensures var base, off := spots[0].cpu.pc, Last(spots).cpu.pc - spots[0].cpu.pc;
      StopsFrom(w.p, m, base, off, skip) && BranchOffset(w.p, m, base, skip) == Some(off)
      && HasRoom(base, off, |s.dump.code|, |s.restore.code|)
  {
    hide QuietRun, StopsFrom, Fetch, Hosted, Kept, PlainFlags, BranchOffset;
    var base, off := spots[0].cpu.pc, Last(spots).cpu.pc - spots[0].cpu.pc;
    CodeIsClear(w, s, spots, skip);
    StopsFromAgrees(w.p, spots[0].cpu.mem, m, base, off, skip, w.host + spots[0].stale);
    BranchOffsetIs(w.p, m, base, skip, off);
  }

  lemma CodeIsClear(w: Machine, s: Sys, spots: seq<Spot>, skip: bool)
    requires PrefixDecoder(w.p.decode) && Block(w, s, spots, skip) && |spots| > 0
    ensures Clear(spots[0].cpu.pc, Last(spots).cpu.pc - spots[0].cpu.pc + INSN_BUFFER, w.host + spots[0].stale)
  {
    hide QuietRun, StopsFrom, Fetch, Hosted, Kept, PlainFlags;
    var base, stop := spots[0].cpu.pc, Last(spots).cpu.pc;
    forall i | Within(i, base, stop - base + INSN_BUFFER)
      ensures i !in w.host + spots[0].stale
    {
      assert Within(i, base - |s.restore.code|, |s.restore.code| + (stop - base) + |s.dump.code|) || Within(i, stop, INSN_BUFFER);
    }
  }

  /** The dispatcher's part of a round: it emulates the branch as the CPU executes it, and patches the block
      that follows. */
  lemma DispatchInSync(w: Machine, s: Sys, a: Spot, spots: seq<Spot>) returns (clean: Memory, skip: bool)
    requires Decodes(w.p) && Synced(w, s, a) && Follow(w, s, a, spots)
    ensures InRange(w.p, s) && Dispatch(w.p, s).Some?
    ensures var s' := Dispatch(w.p, s).value;
      && s'.dump.code == s.dump.code && s'.restore.code == s.restore.code
      && Block(w, s, spots, skip) && |spots| > 0 && Patched(s', clean, spots, w.host)
      && SameRegs(s'.st.regs, spots[0].cpu.regs, spots[0].lost)
      && s'.st.rip == spots[0].cpu.pc - |s.restore.code|
  {
    hide Emulated, Store, Load, Undo, Block, Follow, StopsFrom, BranchOffset, Alike, PrefixDecoder, CoherentDecoder;
    var e;
    e, skip := EmulatedInSync(w, s, a, spots);
    clean := e.mem;
    AlikeIs(spots[0], e, w.host);
    ScanInSync(w, s, spots, skip, clean);
    var base, off := spots[0].cpu.pc, Last(spots).cpu.pc - spots[0].cpu.pc;
    ScanEndsInRange(w.p, s, off);
    InstrumentIsLive(s.(mem := clean, st := State(e.regs, a.cpu.pc), currSyscall := false), base, off);
  }

  lemma AlikeIs(b: Spot, e: Cpu, X: iset<int>)
    requires Alike(b, e, X)
    ensures e.pc == b.cpu.pc && SameRegs(e.regs, b.cpu.regs, b.lost) && AgreeOutside(e.mem, b.cpu.mem, X + b.stale)
  {
  }

  /** The same of the code that updates its state in place: where a page stops it, it stops for good, and where it
      goes on it is in step. It does go on when its pages are usable. */
  method DispatcherInSync(h: Handler, ghost w: Machine, ghost a: Spot, ghost spots: seq<Spot>)
    returns (ok: bool, ghost clean: Memory)
    requires h.Valid() && w.p == h.p && Synced(w, h.View(), a) && Follow(w, h.View(), a, spots)
    modifies h, h.space, h.dump`jmp, h.dump.origBytes, h.restore`jmp, h.restore.origBytes
    ensures h.Valid() && |spots| > 0
    ensures ok ==> Patched(h.View(), clean, spots, w.host)
    ensures ok ==> SameRegs(h.state.regs, spots[0].cpu.regs, spots[0].lost)
    ensures ok ==> h.state.rip == spots[0].cpu.pc - |h.restore.code|
    ensures old(h.DispatchUsable()) ==> ok
  {
    hide Synced, Follow, Patched, InRange, Dispatch, Block, PrefixDecoder, CoherentDecoder, h.DispatchUsable;
    ghost var skip;
    clean, skip := DispatchInSync(w, h.View(), a, spots);
    HookIsCurrent(w, h.View(), a);
    ok := h.Dispatcher();
  }

  lemma HookIsCurrent(w: Machine, s: Sys, a: Spot)
    requires Synced(w, s, a)
    ensures s.currHook == s.dump.jmp
  {
  }

  // ----- whole runs -----

  lemma RoundInSync(w: Machine, n: nat, s: Sys, a: Spot, spots: seq<Spot>)
    requires Sound(w) && Synced(w, s, a) && Follow(w, s, a, spots)
    ensures Round(w, n, s).Some? && |spots| > 0
    ensures InSync(Round(w, n, s).value, Last(spots), s.dump.code, s.restore.code, w.host)
  {
    hide Synced, Follow, Patched, InSync, Dispatch, Resume, PrefixDecoder, CoherentDecoder, Standing, Carrying, NativeBlock;
    var clean, skip := DispatchInSync(w, s, a, spots);
    var s' := Dispatch(w.p, s).value;
    ResumeInSync(w, n, s', clean, spots, skip);
  }

  /** The registers with which `exec_binary` starts a guest in this process. */
  ghost function FirstRegs(own: RegFile, rsp: Word): RegFile {
    map x: Reg | true ::
      if x == RSP then rsp else if x == RFLAGS then S.Popped(own[x], 0) else if Selector(x) then own[x] else 0
  }

  lemma PoppedOf(x: Word, y: Word, v: Word)
    requires S.SamePrivileged(x, y)
    ensures S.Popped(x, v) == S.Popped(y, v)
  {
    hide S.Changeable;
  }

  lemma LaunchedRegs(w: Machine, e: S.Core, rsp: Word)
    requires S.WellPlaced(w.l) && Standing(w, e)
    ensures S.AsRegFile(S.LaunchRegs(e.regs, rsp)) == FirstRegs(w.own, rsp)
  {
    hide S.LaunchRegs, S.Index, FirstRegs, Standing, S.AsRegFile, S.WellPlaced;
    forall x: Reg
      ensures S.AsRegFile(S.LaunchRegs(e.regs, rsp))[x] == FirstRegs(w.own, rsp)[x]
    {
      LaunchedReg(w, e, rsp, x);
      S.AsRegFileAt(S.LaunchRegs(e.regs, rsp), x);
    }
    SameRegFile(S.AsRegFile(S.LaunchRegs(e.regs, rsp)), FirstRegs(w.own, rsp));
  }

  lemma SameRegFile(r: RegFile, r': RegFile)
    requires forall x: Reg :: r[x] == r'[x]
    ensures r == r'
  {
  }

  lemma LaunchedReg(w: Machine, e: S.Core, rsp: Word, x: Reg)
    requires S.WellPlaced(w.l) && Standing(w, e)
    ensures S.LaunchRegs(e.regs, rsp)[S.Index(x)] == FirstRegs(w.own, rsp)[x]
  {
    hide S.LaunchRegs, S.Popped, S.SamePrivileged, S.WellPlaced;
    S.LaunchRegsAt(e.regs, rsp, S.Index(x));
    PoppedOf(e.regs[S.RFLAGS], w.own[RFLAGS], 0);
    IndexKinds(x);
  }

  lemma IndexKinds(x: Reg)
    ensures S.Index(x) == S.RSP <==> x == RSP
    ensures S.Index(x) == S.RFLAGS <==> x == RFLAGS
    ensures S.Selector(S.Index(x)) <==> Selector(x)
  {
  }

  /** The two words that `exec_binary` leaves below the guest's first stack pointer. */
  ghost function LaunchBytes(rsp: Word): iset<int> {
    var low := rsp - 16;
    iset i | Within(i, low, 16)
  }

  /** The guest's first stack is its own, and the words below it are stale. */
  ghost predicate StackReady(w: Machine, rsp: Word, a: Spot) {
    16 <= rsp && Clear(rsp - 16, 16, w.host) && LaunchBytes(rsp) <= a.stale
  }

  /** `exec_binary` writes nothing but stale bytes. */
  lemma LaunchStays(w: Machine, e: S.Core, s: Sys, rsp: Word, a: Spot)
    requires HostHolds(w.l, w.host) && Carrying(w, e, s) && StackReady(w, rsp, a)
    ensures var m := S.LaunchMemory(e.mem, s.st.rip, rsp);
      && ReadWord(m, w.l.currHook) == s.currHook && DumpStubIn(w.l, m)
      && AgreeOutside(m, s.mem, w.host + a.stale)
  {
    hide ReadWord, Load, S.SavedState, S.LaunchMemory, S.WellPlaced;
    assert w.l.currHook + 8 <= TWO64 by { CellFits(w.l); }
    var m := S.LaunchMemory(e.mem, s.st.rip, rsp);
    S.LaunchWords(e.mem, s.st.rip, rsp);
    assert AgreeOn(m, e.mem, w.host) by {
      forall i | 0 <= i < TWO64 && i in w.host
        ensures m[i] == e.mem[i]
      {
        assert !Within(i, rsp - 16, 16);
      }
    }
    CellAgrees(e.mem, m, w.l.currHook, w.host);
    LoadAgrees(e.mem, m, w.l.dumpStub, |w.l.dumpCode|, w.host);
    forall i | 0 <= i < TWO64 && i !in w.host + a.stale
      ensures m[i] == s.mem[i]
    {
      assert i !in LaunchBytes(rsp);
    }
  }

  lemma CellFits(l: S.Layout)
    requires S.WellPlaced(l)
    ensures l.currHook + 8 <= TWO64
  {
  }

  /** The first block is patched in a memory that is the native one outside the host and what is stale. */
  lemma FirstPatched(w: Machine, s: Sys, spots: seq<Spot>)
    requires PrefixDecoder(w.p.decode) && Block(w, s, spots, false) && |spots| > 0
    requires AgreeOutside(s.mem, spots[0].cpu.mem, w.host + spots[0].stale)
    ensures spots[0].cpu.pc <= Last(spots).cpu.pc
    ensures var base, off := spots[0].cpu.pc, Last(spots).cpu.pc - spots[0].cpu.pc;
      var s' := Instrument(s.(st := s.st.(rip := base), currSyscall := false), base, off);
      && BranchOffset(w.p, s.mem, base, false) == Some(off)
      && Patched(s', s.mem, spots, w.host) && s'.st == s.st.(rip := base)
      && s'.dump.code == s.dump.code && s'.restore.code == s.restore.code
  {
    hide Load, Store, Block, StopsFrom, BranchOffset, PrefixDecoder, AgreeOutside, Live, HasRoom;
    ScanInSync(w, s, spots, false, s.mem);
    var base, off := spots[0].cpu.pc, Last(spots).cpu.pc - spots[0].cpu.pc;
    InstrumentIsLive(s.(st := s.st.(rip := base), currSyscall := false), base, off);
  }

  /** The guest's first stretch: scanned and patched, started by `exec_binary`, and caught in step. */
  lemma StartInSync(w: Machine, s: Sys, spots: seq<Spot>)
    requires Sound(w) && Block(w, s, spots, false) && |spots| > 0 && !s.currSyscall
    requires AgreeOutside(s.mem, spots[0].cpu.mem, w.host + spots[0].stale)
    requires SameRegs(FirstRegs(w.own, s.st.regs[RSP]), spots[0].cpu.regs, spots[0].lost)
    requires StackReady(w, s.st.regs[RSP], spots[0])
    ensures Start(w, s, spots[0].cpu.pc).Some?
    ensures InSync(Start(w, s, spots[0].cpu.pc).value, Last(spots), s.dump.code, s.restore.code, w.host)
  {
    hide Enter, InSync, ReadWord, Load, NativeBlock, BranchOffset, PrefixDecoder, CoherentDecoder, S.WellPlaced, S.StubsApart,
      AgreeOutside, SameRegs, Instrument, Patched, Standing, Carrying, S.Run, S.ExecProgram, S.LaunchMemory,
      S.LaunchRegs, S.AsRegFile, FirstRegs, DumpStubIn, LaunchBytes, RestoreStubIn;
    FirstPatched(w, s, spots);
    var base, off := spots[0].cpu.pc, Last(spots).cpu.pc - spots[0].cpu.pc;
    var rsp := s.st.regs[RSP];
    var s' := Instrument(s.(st := s.st.(rip := base), currSyscall := false), base, off);
    ReadyIs(w, 0, s');
    var e := w.ready(0, s');
    StandingFacts(w, e);
    S.ExecRuns(e, base, rsp);
    LaunchedRegs(w, e, rsp);
    LaunchStays(w, e, s', rsp, spots[0]);
    EnterInSync(w, s', s.mem, spots, false, Cpu(base, S.AsRegFile(S.LaunchRegs(e.regs, rsp)), S.LaunchMemory(e.mem, base, rsp)));
  }

  ghost predicate RunsNatively(w: Machine, s: Sys, blocks: seq<seq<Spot>>)
    requires PrefixDecoder(w.p.decode)
  {
    NativeRun(w.p, blocks, Feet(w, s))
  }

  /** The engine and the native run start alike: the native memory outside the host and what is stale, the registers
      that `exec_binary` sets, and a stack to start on. */
  ghost predicate Begins(w: Machine, s: Sys, a: Spot) {
    && !s.currSyscall && AgreeOutside(s.mem, a.cpu.mem, w.host + a.stale)
    && SameRegs(FirstRegs(w.own, s.st.regs[RSP]), a.cpu.regs, a.lost) && StackReady(w, s.st.regs[RSP], a)
  }

  /** Transparency: along every native run within the engine's limits, the engine reaches each dispatch, through
      its patches and its stubs, and finds there the registers (but for those lost in its system call hooks), the
      branch address and, under its patches, the memory of the native run at that branch. */
  lemma {:induction false} Transparent(w: Machine, s: Sys, blocks: seq<seq<Spot>>, n: nat)
    requires Sound(w) && RunsNatively(w, s, blocks) && n < |blocks| && Begins(w, s, blocks[0][0])
    ensures EngineRun(w, s, blocks[0][0].cpu.pc, n).Some?
    ensures InSync(EngineRun(w, s, blocks[0][0].cpu.pc, n).value, Last(blocks[n]), s.dump.code, s.restore.code, w.host)
  {
    hide Start, Round, InSync, Follows, NativeBlock, Standing, Carrying, PrefixDecoder, CoherentDecoder, AgreeOutside,
      SameRegs, StackReady, FirstRegs;
    if n == 0 {
      StartInSync(w, s, blocks[0]);
    } else {
      Transparent(w, s, blocks, n - 1);
      var s' := EngineRun(w, s, blocks[0][0].cpu.pc, n - 1).value;
      NextFollows(w, s, s', blocks, n);
      RoundInSync(w, n, s', Last(blocks[n - 1]), blocks[n]);
    }
  }

  lemma NextFollows(w: Machine, s: Sys, s': Sys, blocks: seq<seq<Spot>>, n: nat)
    requires PrefixDecoder(w.p.decode) && RunsNatively(w, s, blocks) && 0 < n < |blocks|
    requires InSync(s', Last(blocks[n - 1]), s.dump.code, s.restore.code, w.host)
    ensures s'.dump.code == s.dump.code && s'.restore.code == s.restore.code
    ensures Synced(w, s', Last(blocks[n - 1])) && Follow(w, s', Last(blocks[n - 1]), blocks[n])
  {
    hide NativeBlock, Undo, PrefixDecoder, CoherentDecoder, Follows, Clear, Alike, PatchesInside;
    EndsClear(w, s, blocks, n - 1);
  }

  lemma EndsClear(w: Machine, s: Sys, blocks: seq<seq<Spot>>, n: nat)
    requires PrefixDecoder(w.p.decode) && RunsNatively(w, s, blocks) && n < |blocks|
    ensures |blocks[n]| > 0 && Clear(Last(blocks[n]).cpu.pc, INSN_BUFFER, w.host + Last(blocks[n]).stale)
  {
    hide NativeBlock, Load, PrefixDecoder, CoherentDecoder, Branches, Clear;
    if n == 0 {
      BlockEndsClear(w, s, blocks[0], false);
    } else {
      var a := Last(blocks[n - 1]);
      assert Follows(w.p, a, blocks[n], Feet(w, s));
      BlockEndsClear(w, s, blocks[n], Deferred(w.p, Fetch(w.p, a.cpu.mem, a.cpu.pc).value, a.cpu));
    }
  }

  lemma BlockEndsClear(w: Machine, s: Sys, spots: seq<Spot>, skip: bool)
    requires PrefixDecoder(w.p.decode) && Block(w, s, spots, skip)
    ensures |spots| > 0 && Clear(Last(spots).cpu.pc, INSN_BUFFER, w.host + Last(spots).stale)
  {
    hide QuietRun, StopsFrom, Fetch, Hosted, Kept, PlainFlags;
    var stop := Last(spots).cpu.pc;
    assert Clear(stop, INSN_BUFFER, w.host) && Clear(stop, INSN_BUFFER, Last(spots).stale);
  }
}
