/** Emulated calls and returns over whole call trees: every return goes back to just after its own
    call, as long as nobody overwrites the return slots. */
module CallNesting {
  import opened Words
  import opened Registers
  import opened Guest
  import opened Emulation
  import opened Patching
  import opened NativeRuns
  import opened Transparency
  import S = Stubs

  /** What the guest does between two points of the same function: straight-line work that ends in
      some registers and memory, a stretch with `n` bytes of locals on the stack, or a call at `site`
      whose callee does `body` and returns. Each is followed by `rest`. */
  datatype Activity =
    | Done
    | Work(regs: RegFile, mem: Memory, rest: Activity)
    | Locals(n: nat, body: Activity, rest: Activity)
    | CallRet(site: Word, call: Insn, body: Activity, rest: Activity)

  /** The state in which the callee starts: the branch address is the saved rip at its dispatch. */
  function Called(site: Word, call: Insn, regs: RegFile, m: Memory): (RegFile, Memory) {
    var (st, m') := PushReturn(call, State(regs, site), m);
    (st.regs, m')
  }

  function Lower(regs: RegFile, n: nat): RegFile {
    regs[RSP := Wrap(regs[RSP] as int - n)]
  }

  /** What the emulated return leaves. */
  function Returned(regs: RegFile, m: Memory): RegFile {
    PopReturn(State(regs, 0), m).1.regs
  }

  function Run(a: Activity, regs: RegFile, m: Memory): (RegFile, Memory) {
    match a
    case Done => (regs, m)
    case Work(regs', m', rest) => Run(rest, regs', m')
    case Locals(n, body, rest) =>
      var (regs', m') := Run(body, Lower(regs, n), m);
      Run(rest, regs'[RSP := Above(regs'[RSP], n)], m')
    case CallRet(site, call, body, rest) =>
      var (regs1, m1) := Called(site, call, regs, m);
      var (regs2, m2) := Run(body, regs1, m1);
      Run(rest, Returned(regs2, m2), m2)
  }

  /** Straight-line work leaves rsp where it was and the words of `slots` as they were; the stack never
      runs below address 0. */
  ghost predicate Behaves(a: Activity, regs: RegFile, m: Memory, slots: set<Word>)
    decreases a
  {
    match a
    case Done => true
    case Work(regs', m', rest) =>
      && regs'[RSP] == regs[RSP] && KeepsSlots(m, m', slots)
      && Behaves(rest, regs', m', slots)
    case Locals(n, body, rest) =>
      && n <= regs[RSP] && Behaves(body, Lower(regs, n), m, slots)
      && var (regs', m') := Run(body, Lower(regs, n), m);
         Behaves(rest, regs'[RSP := Above(regs'[RSP], n)], m', slots)
    case CallRet(site, call, body, rest) =>
      8 <= regs[RSP] &&
      var (regs1, m1) := Called(site, call, regs, m);
      var (regs2, m2) := Run(body, regs1, m1);
      && Behaves(body, regs1, m1, slots + {Below(regs[RSP])})
      && Behaves(rest, Returned(regs2, m2), m2, slots)
  }

  ghost predicate KeepsSlots(m: Memory, m': Memory, slots: set<Word>) {
    forall s :: s in slots ==> ReadWord(m', s) == ReadWord(m, s)
  }

  /** Every return of the run goes to the address right after its own call. */
  ghost predicate ReturnsHome(a: Activity, regs: RegFile, m: Memory)
    decreases a
  {
    match a
    case Done => true
    case Work(regs', m', rest) => ReturnsHome(rest, regs', m')
    case Locals(n, body, rest) =>
      && ReturnsHome(body, Lower(regs, n), m)
      && var (regs', m') := Run(body, Lower(regs, n), m);
         ReturnsHome(rest, regs'[RSP := Above(regs'[RSP], n)], m')
    case CallRet(site, call, body, rest) =>
      var (regs1, m1) := Called(site, call, regs, m);
      var (regs2, m2) := Run(body, regs1, m1);
      && ReturnsHome(body, regs1, m1)
      && PopReturn(State(regs2, 0), m2).0 == Wrap(site + call.size)
      && ReturnsHome(rest, Returned(regs2, m2), m2)
  }

  /** The slots lie at or above the stack pointer. */
  ghost predicate SlotsAbove(slots: set<Word>, rsp: Word) {
    forall s :: s in slots ==> rsp <= s && s + 8 <= TWO64
  }

  lemma PushKeepsSlots(m: Memory, rsp: Word, v: Word, slots: set<Word>)
    requires SlotsAbove(slots, rsp) && 8 <= rsp
    ensures KeepsSlots(m, WriteWord(m, rsp - 8, v), slots)
  {
    hide ReadWord, WriteWord;
    forall s | s in slots
      ensures ReadWord(WriteWord(m, rsp - 8, v), s) == ReadWord(m, s)
    {
      forall i: Word | Covers(s, 8, i)
        ensures !Covers(rsp - 8, 8, i)
      {
        assert Within(i, s, 8);
      }
      ReadOtherWord(m, s, rsp - 8, v);
    }
  }

  lemma CalledFacts(site: Word, call: Insn, regs: RegFile, m: Memory, slots: set<Word>)
    requires SlotsAbove(slots, regs[RSP]) && 8 <= regs[RSP]
    ensures var (regs1, m1) := Called(site, call, regs, m);
      && regs1[RSP] == regs[RSP] - 8 == Below(regs[RSP])
      && ReadWord(m1, regs[RSP] - 8) == Wrap(site + call.size)
      && KeepsSlots(m, m1, slots) && SlotsAbove(slots + {Below(regs[RSP])}, regs1[RSP])
  {
    hide ReadWord, WriteWord, KeepsSlots;
    PushKeepsSlots(m, regs[RSP], Wrap(site + call.size), slots);
    ReadWrittenWord(m, Below(regs[RSP]), Wrap(site + call.size));
  }

  lemma ReturnedFacts(regs: RegFile, m: Memory, rsp: Word)
    requires regs[RSP] == rsp - 8
    ensures Returned(regs, m)[RSP] == rsp
  {
  }

  lemma LocalsFacts(regs: RegFile, n: nat)
    requires n <= regs[RSP]
    ensures Lower(regs, n)[RSP] == regs[RSP] - n
    ensures forall r: RegFile :: r[RSP] == regs[RSP] - n ==> Above(r[RSP], n) == regs[RSP]
  {
  }

  /** For every well-nested activity of any depth: rsp ends where it began, the return slots of the
      enclosing calls are intact, and each return finds its own call. */
  lemma {:induction false} CallsNest(a: Activity, regs: RegFile, m: Memory, slots: set<Word>)
    requires Behaves(a, regs, m, slots) && SlotsAbove(slots, regs[RSP])
    ensures Run(a, regs, m).0[RSP] == regs[RSP]
    ensures KeepsSlots(m, Run(a, regs, m).1, slots)
    ensures ReturnsHome(a, regs, m)
    decreases a
  {
    hide ReadWord, WriteWord, Called, Returned, Lower;
    match a
    case Done =>
    case Work(regs', m', rest) =>
      CallsNest(rest, regs', m', slots);
    case Locals(n, body, rest) =>
      LocalsFacts(regs, n);
      CallsNest(body, Lower(regs, n), m, slots);
      var (regs', m') := Run(body, Lower(regs, n), m);
      CallsNest(rest, regs'[RSP := Above(regs'[RSP], n)], m', slots);
    case CallRet(site, call, body, rest) =>
      CalledFacts(site, call, regs, m, slots);
      var (regs1, m1) := Called(site, call, regs, m);
      CallsNest(body, regs1, m1, slots + {Below(regs[RSP])});
      var (regs2, m2) := Run(body, regs1, m1);
      ReturnedFacts(regs2, m2, regs[RSP]);
      assert Below(regs[RSP]) in slots + {Below(regs[RSP])};
      CallsNest(rest, Returned(regs2, m2), m2, slots);
  }

  // ----- over the engine's own dispatches -----

  /** The branch that the dispatcher finds at the hook, once its patches are off. */
  function BranchAt(p: Platform, s: Sys): Option<Insn> {
    Fetch(p, Undo(s), s.currHook)
  }

  predicate IsCall(p: Platform, s: Sys) {
    BranchAt(p, s).Some? && BranchAt(p, s).value.kind.Call?
  }

  predicate IsRet(p: Platform, s: Sys) {
    BranchAt(p, s).Some? && BranchAt(p, s).value.kind.Ret?
  }

  /** The dispatches, among the first `k`, of the calls that have not returned yet; the innermost comes last. */
  ghost function Open(p: Platform, ss: seq<Sys>, k: nat): (open: seq<nat>)
    requires k <= |ss|
    ensures forall j :: 0 <= j < |open| ==> open[j] < k && IsCall(p, ss[open[j]])
  {
    if k == 0 then []
    else
      var open := Open(p, ss, k - 1);
      if IsCall(p, ss[k - 1]) then open + [k - 1]
      else if IsRet(p, ss[k - 1]) && open != [] then open[..|open| - 1]
      else open
  }

  /** Where the call dispatched in `s` stores its return address, and which it is. */
  function SlotOf(s: Sys): Word {
    Below(s.st.regs[RSP])
  }

  function BackOf(p: Platform, s: Sys): Word
    requires BranchAt(p, s).Some?
  {
    Wrap(s.currHook + BranchAt(p, s).value.size)
  }

  /** Every open call's slot reads the same in both memories. */
  ghost predicate SlotsKept(ss: seq<Sys>, open: seq<nat>, m: Memory, m': Memory)
    requires forall j :: 0 <= j < |open| ==> open[j] < |ss|
  {
    forall j :: 0 <= j < |open| ==> ReadWord(m', SlotOf(ss[open[j]])) == ReadWord(m, SlotOf(ss[open[j]]))
  }

  /** What the guest does at dispatch `k`: it calls below the slots of the open calls, returns on the slot of the
      innermost, and no system call writes a slot. */
  ghost predicate Disciplined(p: Platform, ss: seq<Sys>, k: nat)
    requires k < |ss|
  {
    var s, open := ss[k], Open(p, ss, k);
    && Emulated(p, s).Go? && s.st.rip == s.currHook && (forall i :: BranchAt(p, s) == Some(i) ==> Coherent(i))
    && (IsCall(p, s) ==> 8 <= s.st.regs[RSP])
    && (IsCall(p, s) ==>
         forall j :: 0 <= j < |open| ==> s.st.regs[RSP] <= SlotOf(ss[open[j]]) && SlotOf(ss[open[j]]) + 8 <= TWO64)
    && (IsRet(p, s) ==> open != [] && s.st.regs[RSP] == SlotOf(ss[open[|open| - 1]]))
    && (!IsCall(p, s) && !IsRet(p, s) ==> SlotsKept(ss, open, Undo(s), Emulated(p, s).mem))
  }

  /** Between dispatches `k - 1` and `k` the guest's blocks leave the slots of the open calls alone. */
  ghost predicate Undisturbed(p: Platform, ss: seq<Sys>, k: nat)
    requires 0 < k < |ss| && Emulated(p, ss[k - 1]).Go?
  {
    SlotsKept(ss, Open(p, ss, k), Emulated(p, ss[k - 1]).mem, Undo(ss[k]))
  }

  ghost predicate Nested(p: Platform, ss: seq<Sys>) {
    && (forall k :: 0 <= k < |ss| ==> Disciplined(p, ss, k))
    && (forall k :: 0 < k < |ss| ==> Emulated(p, ss[k - 1]).Go? && Undisturbed(p, ss, k))
  }

  lemma EmulateCall(p: Platform, i: Insn, at: Word, st: State, m: Memory)
    requires FirstActing(i.groups) == Some(GCall) && Emulate(p, i, at, st, m).Go?
    ensures Emulate(p, i, at, st, m).mem == WriteWord(m, Below(st.regs[RSP]), Wrap(st.rip + i.size))
  {
    hide WriteWord, EvalOperand, FirstActing;
  }

  lemma EmulateRet(p: Platform, i: Insn, at: Word, st: State, m: Memory)
    requires FirstActing(i.groups) == Some(GRet) && Emulate(p, i, at, st, m).Go?
    ensures Emulate(p, i, at, st, m) == Go(ReadWord(m, st.regs[RSP]), st.(regs := st.regs[RSP := Above(st.regs[RSP], 8)]), m, false)
  {
    hide ReadWord, FirstActing;
  }

  lemma EmulatedCall(p: Platform, s: Sys, i: Insn)
    requires BranchAt(p, s) == Some(i) && i.kind.Call? && Coherent(i) && Emulated(p, s).Go? && s.st.rip == s.currHook
    ensures Emulated(p, s).mem == WriteWord(Undo(s), SlotOf(s), BackOf(p, s))
  {
    hide Undo, WriteWord, Emulate, Fetch, FirstActing;
    EmulateCall(p, i, s.currHook, s.st, Undo(s));
  }

  lemma EmulatedRet(p: Platform, s: Sys, i: Insn)
    requires BranchAt(p, s) == Some(i) && i.kind.Ret? && Coherent(i) && Emulated(p, s).Go?
    ensures Emulated(p, s).mem == Undo(s) && Emulated(p, s).target == ReadWord(Undo(s), s.st.regs[RSP])
    ensures Emulated(p, s).st.regs[RSP] == Above(s.st.regs[RSP], 8)
  {
    hide Undo, ReadWord, Emulate, Fetch, FirstActing;
    EmulateRet(p, i, s.currHook, s.st, Undo(s));
  }

  /** One dispatch: the slot of a call it makes holds its return address, those of the open calls are kept. */
  lemma SlotsAfter(p: Platform, ss: seq<Sys>, k: nat, j: nat)
    requires k < |ss| && Disciplined(p, ss, k) && j < |Open(p, ss, k + 1)|
    ensures var o, s := Open(p, ss, k + 1)[j], ss[k];
      if o == k then ReadWord(Emulated(p, s).mem, SlotOf(ss[o])) == BackOf(p, ss[o])
      else j < |Open(p, ss, k)| && Open(p, ss, k)[j] == o
           && ReadWord(Emulated(p, s).mem, SlotOf(ss[o])) == ReadWord(Undo(s), SlotOf(ss[o]))
  {
    hide Undo, ReadWord, WriteWord, Fetch, Emulated, Coherent;
    var s, open := ss[k], Open(p, ss, k);
    if IsCall(p, s) {
      EmulatedCall(p, s, BranchAt(p, s).value);
      if j < |open| {
        SlotAbove(Undo(s), s.st.regs[RSP], SlotOf(ss[open[j]]), BackOf(p, s));
      } else {
        ReadWrittenWord(Undo(s), SlotOf(s), BackOf(p, s));
      }
    } else if IsRet(p, s) {
      EmulatedRet(p, s, BranchAt(p, s).value);
    }
  }

  lemma SlotAbove(m: Memory, rsp: Word, slot: Word, v: Word)
    requires 8 <= rsp <= slot && slot + 8 <= TWO64
    ensures ReadWord(WriteWord(m, Below(rsp), v), slot) == ReadWord(m, slot)
  {
    hide ReadWord, WriteWord;
    S.WordKept(m, slot, rsp - 8, v);
  }

  lemma DispatchGoes(p: Platform, ss: seq<Sys>, k: nat)
    requires k < |ss| && Disciplined(p, ss, k)
    ensures Emulated(p, ss[k]).Go?
  {
  }

  /** At every dispatch each open call's slot still holds its return address. */
  lemma {:induction false} SlotsHold(p: Platform, ss: seq<Sys>, k: nat, j: nat)
    requires Nested(p, ss) && k < |ss| && j < |Open(p, ss, k)|
    ensures var c := Open(p, ss, k)[j]; ReadWord(Undo(ss[k]), SlotOf(ss[c])) == BackOf(p, ss[c])
    decreases k
  {
    hide Undo, ReadWord, Fetch, Emulated, Disciplined;
    if k > 0 {
      SlotsAfter(p, ss, k - 1, j);
      var c := Open(p, ss, k)[j];
      DispatchGoes(p, ss, k - 1);
      assert Undisturbed(p, ss, k);
      if c != k - 1 {
        SlotsHold(p, ss, k - 1, j);
      }
    }
  }

  /** Over any number of dispatches of a guest that keeps to its stack, each return goes to the address right after
      its own call, and leaves the stack pointer that call found. */
  lemma EachReturnsHome(p: Platform, ss: seq<Sys>, k: nat)
    requires Nested(p, ss) && k < |ss| && IsRet(p, ss[k])
    ensures Open(p, ss, k) != []
    ensures var c := Open(p, ss, k)[|Open(p, ss, k)| - 1];
      && Emulated(p, ss[k]).Go? && Emulated(p, ss[k]).target == BackOf(p, ss[c])
      && Emulated(p, ss[k]).st.regs[RSP] == ss[c].st.regs[RSP]
  {
    hide Undo, ReadWord, BranchAt, Emulated, Open, Disciplined;
    assert Disciplined(p, ss, k);
    ReturnsOnSlot(p, ss, k);
    SlotsHold(p, ss, k, |Open(p, ss, k)| - 1);
  }

  lemma ReturnsOnSlot(p: Platform, ss: seq<Sys>, k: nat)
    requires k < |ss| && Disciplined(p, ss, k) && IsRet(p, ss[k])
    ensures Open(p, ss, k) != [] && Emulated(p, ss[k]).Go?
    ensures var slot := SlotOf(ss[Open(p, ss, k)[|Open(p, ss, k)| - 1]]);
      Emulated(p, ss[k]).target == ReadWord(Undo(ss[k]), slot) && Emulated(p, ss[k]).st.regs[RSP] == Above(slot, 8)
  {
    hide Undo, ReadWord, Fetch, Emulated, Open, Coherent;
    EmulatedRet(p, ss[k], BranchAt(p, ss[k]).value);
  }

  /** `ss` are the engine's dispatches. */
  ghost predicate Dispatches(w: Machine, s: Sys, entry: Word, ss: seq<Sys>)
    requires PrefixDecoder(w.p.decode) && S.WellPlaced(w.l)
  {
    forall k :: 0 <= k < |ss| ==> EngineRun(w, s, entry, k) == Some(ss[k])
  }

  /** In the instrumented run of a guest, the native block after a return starts right after the call that it
      returns from. */
  lemma RunReturnsHome(w: Machine, s: Sys, blocks: seq<seq<Spot>>, ss: seq<Sys>, k: nat)
    requires Sound(w) && RunsNatively(w, s, blocks) && Begins(w, s, blocks[0][0])
    requires Dispatches(w, s, blocks[0][0].cpu.pc, ss) && Nested(w.p, ss)
    requires k < |ss| <= |blocks| && k + 1 < |blocks| && IsRet(w.p, ss[k])
    ensures Open(w.p, ss, k) != []
    ensures var c := Open(w.p, ss, k)[|Open(w.p, ss, k)| - 1];
      && blocks[k + 1][0].cpu.pc == BackOf(w.p, ss[c]) && ss[c].currHook == Last(blocks[c]).cpu.pc
  {
    hide Undo, Emulated, EngineRun, Begins, NativeRun, Sound, Nested, Open, BranchAt, Disciplined;
    EachReturnsHome(w.p, ss, k);
    var c := Open(w.p, ss, k)[|Open(w.p, ss, k)| - 1];
    TargetIsNext(w, s, blocks, ss[k], k);
    CallSite(w, s, blocks, ss[c], c);
  }

  lemma CallSite(w: Machine, s: Sys, blocks: seq<seq<Spot>>, sc: Sys, c: nat)
    requires Sound(w) && RunsNatively(w, s, blocks) && Begins(w, s, blocks[0][0]) && c < |blocks|
    requires EngineRun(w, s, blocks[0][0].cpu.pc, c) == Some(sc)
    ensures |blocks[c]| > 0 && sc.currHook == Last(blocks[c]).cpu.pc
  {
    hide EngineRun, Begins, InSync, NativeBlock, Follows, Standing, Carrying, HostHolds;
    Transparent(w, s, blocks, c);
    HookIs(sc, Last(blocks[c]), s.dump.code, s.restore.code, w.host);
  }

  lemma HookIs(s: Sys, a: Spot, dump: seq<Byte>, restore: seq<Byte>, host: iset<int>)
    requires InSync(s, a, dump, restore, host)
    ensures s.currHook == a.cpu.pc
  {
  }

  /** Where a dispatch leads is where the native run goes on. */
  lemma TargetIsNext(w: Machine, s: Sys, blocks: seq<seq<Spot>>, sk: Sys, k: nat)
    requires Sound(w) && RunsNatively(w, s, blocks) && Begins(w, s, blocks[0][0]) && k + 1 < |blocks|
    requires EngineRun(w, s, blocks[0][0].cpu.pc, k) == Some(sk)
    ensures Emulated(w.p, sk).Go? && |blocks[k + 1]| > 0 && Emulated(w.p, sk).target == blocks[k + 1][0].cpu.pc
  {
    hide Undo, Emulated, EngineRun, Begins, InSync, Follow, Synced, Standing, Carrying, NativeBlock, Follows;
    Transparent(w, s, blocks, k);
    NextFollows(w, s, sk, blocks, k + 1);
    var e, skip := EmulatedInSync(w, sk, Last(blocks[k]), blocks[k + 1]);
  }
}
