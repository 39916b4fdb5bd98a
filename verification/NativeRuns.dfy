/** The native run of a guest, cut into blocks at its branches, and what is asked of it: conditions on the
    guest's instructions alone, not on what the engine does. */
module NativeRuns {
  import opened Words
  import opened Registers
  import opened Guest
  import opened Sweep
  import opened Emulation
  import opened Patching
  import S = Stubs

  /** A native CPU, and the registers and bytes of memory in which the instrumented guest may differ from it
      there. */
  datatype Spot = Spot(cpu: Cpu, lost: set<Reg>, stale: iset<int>)

  /** `t` is like the native CPU of `a`, but for what is lost or stale and the bytes of `X`. */
  ghost predicate Alike(a: Spot, t: Cpu, X: iset<int>) {
    t.pc == a.cpu.pc && SameRegs(t.regs, a.cpu.regs, a.lost) && AgreeOutside(t.mem, a.cpu.mem, X + a.stale)
  }

  /** `t` has become `e`, which is like `b` and holds what `t` held in `X`. */
  ghost predicate Becomes(b: Spot, t: Cpu, e: Option<Cpu>, X: iset<int>) {
    e.Some? && Alike(b, e.value, X) && AgreeOn(e.value.mem, t.mem, X)
  }

  /** The instruction takes the native CPU from `a` to `b`. It neither reads nor writes the bytes of `X`, and what is
      neither lost nor stale at `b` does not depend on what is at `a`. */
  ghost predicate Carries(p: Platform, i: Insn, a: Spot, b: Spot, X: iset<int>) {
    && Execute(p, i, a.cpu) == Some(b.cpu)
    && forall t: Cpu :: Alike(a, t, X) ==> Becomes(b, t, Execute(p, i, t), X)
  }

  /** One native instruction inside a block: straight-line, or (`first`) the system call that the block
      starts with. */
  ghost predicate QuietNext(p: Platform, a: Spot, b: Spot, first: bool, X: iset<int>) {
    match Fetch(p, a.cpu.mem, a.cpu.pc)
    case None => false
    case Some(i) =>
      && (i.kind.Straight? || (first && i.kind.Syscall?))
      && b.cpu.pc == a.cpu.pc + i.size && Clear(a.cpu.pc, i.size, a.stale) && Carries(p, i, a, b, X)
  }

  /** `spots` is the native run of a block up to address `stop`, instruction by instruction. */
  ghost predicate QuietRun(p: Platform, spots: seq<Spot>, stop: Word, first: bool, X: iset<int>) {
    && |spots| > 0 && Last(spots).cpu.pc == stop
    && forall j :: 0 < j < |spots| ==> QuietNext(p, spots[j - 1], spots[j], first && j == 1, X)
  }

  function Last(spots: seq<Spot>): Spot
    requires |spots| > 0
  {
    spots[|spots| - 1]
  }

  /** None of the `n` addresses from `a` on is in `X`. */
  ghost predicate Clear(a: int, n: int, X: iset<int>) {
    forall i :: Within(i, a, n) ==> i !in X
  }

  predicate Selector(x: Reg) {
    x == CS || x == SS || x == GS || x == ES || x == DS || x == FS
  }

  /** What the engine takes up of a machine: the lengths of its patches, the addresses where it lives itself, and the
      selectors and privileged flags with which the process runs. */
  datatype Footprint = Footprint(dump: nat, restore: nat, host: iset<int>, own: RegFile)

  /** Segment selectors hold 16 bits, and the ones that the restore stub does not load are those of the process; so
      are the flags that it cannot change. */
  ghost predicate Hosted(own: RegFile, r: RegFile) {
    && (forall x: Reg :: Selector(x) ==> r[x] < 0x1_0000)
    && r[CS] == own[CS] && r[GS] == own[GS] && r[FS] == own[FS]
    && S.SamePrivileged(own[RFLAGS], r[RFLAGS])
  }

  /** Neither a selector nor the flags are lost. */
  ghost predicate Kept(lost: set<Reg>) {
    RFLAGS !in lost && forall x :: x in lost ==> !Selector(x)
  }

  /** The native run of one block, from its first instruction to the branch that a sweep of the code finds. It
      leaves alone the bytes that the patches would cover and those of the host; neither the block nor the patches
      are there, or stale. */
  ghost predicate NativeBlock(p: Platform, spots: seq<Spot>, skip: bool, f: Footprint)
    requires PrefixDecoder(p.decode)
  {
    |spots| > 0 && spots[0].cpu.pc <= Last(spots).cpu.pc &&
    var base, stop := spots[0].cpu.pc, Last(spots).cpu.pc;
    && StopsFrom(p, spots[0].cpu.mem, base, stop - base, skip)
    && Fetch(p, spots[0].cpu.mem, stop).Some?
    && HasRoom(base, stop - base, f.dump, f.restore)
    && Clear(base - f.restore, f.restore + (stop - base) + f.dump, f.host) && Clear(stop, INSN_BUFFER, f.host)
    && Clear(base - f.restore, f.restore + (stop - base) + f.dump, spots[0].stale) && Clear(stop, INSN_BUFFER, spots[0].stale)
    && Clear(stop, INSN_BUFFER, Last(spots).stale)
    && Hosted(f.own, spots[0].cpu.regs) && Kept(spots[0].lost) && PlainFlags(Last(spots).cpu.regs[RFLAGS])
    && QuietRun(p, spots, stop, skip, PatchSet(base, stop - base, f.dump, f.restore) + f.host)
  }

  /** The branch `i` takes the native CPU from `a` to `b`, within the limits of the emulation. A system call
      without a hook is left to the start of the next block; a hook must do what the kernel does, but for the
      registers lost at `b`. */
  ghost predicate Branches(p: Platform, i: Insn, a: Spot, b: Spot, X: iset<int>) {
    if Deferred(p, i, a.cpu) then
      b.cpu == a.cpu && a.lost <= b.lost && a.stale <= b.stale && forall t: Cpu :: Alike(a, t, X) ==> Deferred(p, i, t)
    else if i.kind.Syscall? then
      && Execute(p, i, a.cpu) == Some(b.cpu)
      && forall t: Cpu :: Alike(a, t, X) ==>
           p.hooked(t.regs[RAX]) && Hooked(p, i, t).pc != ABSENT && Becomes(b, t, Some(Hooked(p, i, t)), X)
    else
      Carries(p, i, a, b, X) && forall t: Cpu :: Alike(a, t, X) ==> Supported(p, i, t)
  }

  /** `spots` is the block that follows the branch at which the native CPU of `a` stands. */
  ghost predicate Follows(p: Platform, a: Spot, spots: seq<Spot>, f: Footprint)
    requires PrefixDecoder(p.decode)
  {
    match Fetch(p, a.cpu.mem, a.cpu.pc)
    case None => false
    case Some(i) =>
      && NativeBlock(p, spots, Deferred(p, i, a.cpu), f)
      && Branches(p, i, a, spots[0], f.host)
  }

  /** A native run of any number of blocks, each one following the branch that ends the one before. */
  ghost predicate NativeRun(p: Platform, blocks: seq<seq<Spot>>, f: Footprint)
    requires PrefixDecoder(p.decode)
  {
    && |blocks| > 0 && NativeBlock(p, blocks[0], false, f)
    && (forall j :: 0 <= j < |blocks| ==> |blocks[j]| > 0)
    && (forall j :: 0 < j < |blocks| ==> Follows(p, Last(blocks[j - 1]), blocks[j], f))
  }

  // ----- the code is the same outside X -----

  lemma FetchAgrees(p: Platform, m: Memory, m': Memory, pc: Word, X: iset<int>)
    requires PrefixDecoder(p.decode) && Fetch(p, m, pc).Some? && AgreeOutside(m', m, X)
    requires pc + Fetch(p, m, pc).value.size <= TWO64 && Clear(pc, Fetch(p, m, pc).value.size, X)
    ensures Fetch(p, m', pc) == Fetch(p, m, pc)
  {
    var k := Fetch(p, m, pc).value.size;
    var bs, bs' := Load(m, pc, INSN_BUFFER), Load(m', pc, INSN_BUFFER);
    forall j | 0 <= j < k
      ensures bs[j] == bs'[j]
    {
      assert Wrap(pc + j) == pc + j && Within(pc + j, pc, k);
    }
    assert SamePrefix(bs, bs', k);
  }

  /** A sweep ends at the same branch over any memory that holds the same code. */
  lemma {:induction false} StopsAgrees(p: Platform, m: Memory, m': Memory, a: Word, n: nat, X: iset<int>)
    requires PrefixDecoder(p.decode) && Stops(p, m, a, n) && Fetch(p, m, Wrap(a + n)).Some? && AgreeOutside(m', m, X)
    requires a + n + INSN_BUFFER <= TWO64 && Clear(a, n + INSN_BUFFER, X)
    ensures Stops(p, m', a, n) && Fetch(p, m', Wrap(a + n)) == Fetch(p, m, Wrap(a + n))
    decreases n
  {
    hide Load, Fetch, PrefixDecoder;
    FetchHere(p, m, m', a, n, X);
    var i := Fetch(p, m, a).value;
    if i.kind.Straight? {
      StopsAgrees(p, m, m', a + i.size, n - i.size, X);
    }
  }

  lemma FetchHere(p: Platform, m: Memory, m': Memory, a: Word, n: nat, X: iset<int>)
    requires PrefixDecoder(p.decode) && Fetch(p, m, Wrap(a + n)).Some? && AgreeOutside(m', m, X)
    requires n == 0 || Fetch(p, m, a).Some?
    requires a + n + INSN_BUFFER <= TWO64 && Clear(a, n + INSN_BUFFER, X)
    ensures Fetch(p, m, a).Some? && Fetch(p, m', a) == Fetch(p, m, a) && 1 <= Fetch(p, m, a).value.size <= MAX_INSN
  {
    assert n == 0 ==> Wrap(a + n) == a;
    FetchSize(p, m, a);
    FetchAgrees(p, m, m', a, X);
  }

  lemma FetchSize(p: Platform, m: Memory, a: Word)
    requires PrefixDecoder(p.decode) && Fetch(p, m, a).Some?
    ensures 1 <= Fetch(p, m, a).value.size <= MAX_INSN
  {
  }

  lemma StopsFromAgrees(p: Platform, m: Memory, m': Memory, a: Word, n: nat, skip: bool, X: iset<int>)
    requires PrefixDecoder(p.decode) && StopsFrom(p, m, a, n, skip) && Fetch(p, m, Wrap(a + n)).Some?
    requires AgreeOutside(m', m, X) && a + n + INSN_BUFFER <= TWO64 && Clear(a, n + INSN_BUFFER, X)
    ensures StopsFrom(p, m', a, n, skip) && Fetch(p, m', Wrap(a + n)) == Fetch(p, m, Wrap(a + n))
  {
    hide Load, Stops;
    FetchHere(p, m, m', a, n, X);
    if skip {
      var size := Fetch(p, m, a).value.size;
      StopsAgrees(p, m, m', a + size, n - size, X);
    } else {
      StopsAgrees(p, m, m', a, n, X);
    }
  }

  // ----- one block -----

  lemma HitAfterStep(p: Platform, t: Cpu, t': Cpu, stop: Word, k: nat)
    requires Step(p, t) == Some(t') && t.pc != stop && FirstHit(p, t', stop, k)
    ensures FirstHit(p, t, stop, k + 1) && Steps(p, t, k + 1) == Steps(p, t', k)
  {
    hide Execute;
    forall j: nat | j < k + 1
      ensures Steps(p, t, j).Some? && Steps(p, t, j).value.pc != stop
    {
      if j > 0 {
        assert Steps(p, t, j) == Steps(p, t', j - 1);
      }
    }
  }

  lemma QuietStep(p: Platform, a: Spot, b: Spot, t: Cpu, first: bool, X: iset<int>) returns (t': Cpu)
    requires PrefixDecoder(p.decode) && QuietNext(p, a, b, first, X) && Alike(a, t, X)
    requires Clear(a.cpu.pc, b.cpu.pc - a.cpu.pc, X)
    ensures Step(p, t) == Some(t') && Becomes(b, t, Some(t'), X)
  {
    hide Execute;
    var i := Fetch(p, a.cpu.mem, a.cpu.pc).value;
    FetchAgrees(p, a.cpu.mem, t.mem, a.cpu.pc, X + a.stale);
    t' := Execute(p, i, t).value;
  }

  /** Running on its own from `t`, the hardware first reaches `stop` after `k` instructions; there it is like
      the native CPU of `b`, and still holds what `t` held in X. */
  ghost predicate RunsInto(p: Platform, t: Cpu, b: Spot, stop: Word, k: nat, X: iset<int>) {
    FirstHit(p, t, stop, k) && Becomes(b, t, Steps(p, t, k), X)
  }

  lemma RunsIntoAfterStep(p: Platform, t: Cpu, t': Cpu, b: Spot, stop: Word, k: nat, X: iset<int>)
    requires Step(p, t) == Some(t') && t.pc != stop && AgreeOn(t'.mem, t.mem, X) && RunsInto(p, t', b, stop, k, X)
    ensures RunsInto(p, t, b, stop, k + 1, X)
  {
    HitAfterStep(p, t, t', stop, k);
  }

  lemma QuietTail(p: Platform, spots: seq<Spot>, stop: Word, first: bool, X: iset<int>)
    requires QuietRun(p, spots, stop, first, X) && |spots| > 1
    ensures QuietNext(p, spots[0], spots[1], first, X) && QuietRun(p, spots[1..], stop, false, X)
  {
    hide Execute, Carries;
    forall j | 0 < j < |spots[1..]|
      ensures QuietNext(p, spots[1..][j - 1], spots[1..][j], false, X)
    {
      assert QuietNext(p, spots[j + 1 - 1], spots[j + 1], false, X);
    }
  }

  lemma NextIsLater(p: Platform, a: Spot, b: Spot, first: bool, X: iset<int>)
    requires PrefixDecoder(p.decode) && QuietNext(p, a, b, first, X)
    ensures a.cpu.pc < b.cpu.pc
  {
    hide Execute, Carries;
  }

  lemma {:induction false} StartsBelow(p: Platform, spots: seq<Spot>, stop: Word, first: bool, X: iset<int>)
    requires PrefixDecoder(p.decode) && QuietRun(p, spots, stop, first, X)
    ensures spots[0].cpu.pc <= stop && (|spots| > 1 ==> spots[0].cpu.pc < stop)
    decreases |spots|
  {
    hide Execute, Carries;
    if |spots| > 1 {
      QuietTail(p, spots, stop, first, X);
      NextIsLater(p, spots[0], spots[1], first, X);
      StartsBelow(p, spots[1..], stop, false, X);
    }
  }

  /** A quiet block runs the same from any CPU that differs inside X and in lost registers. */
  lemma {:induction false} BlockRuns(p: Platform, spots: seq<Spot>, t: Cpu, stop: Word, first: bool, X: iset<int>)
    requires PrefixDecoder(p.decode) && QuietRun(p, spots, stop, first, X) && Alike(spots[0], t, X)
    requires Clear(spots[0].cpu.pc, stop - spots[0].cpu.pc, X)
    ensures RunsInto(p, t, Last(spots), stop, |spots| - 1, X)
    decreases |spots|
  {
    hide Execute, Carries;
    if |spots| > 1 {
      QuietTail(p, spots, stop, first, X);
      NextIsLater(p, spots[0], spots[1], first, X);
      StartsBelow(p, spots[1..], stop, false, X);
      var t' := QuietStep(p, spots[0], spots[1], t, first, X);
      BlockRuns(p, spots[1..], t', stop, false, X);
      RunsIntoAfterStep(p, t, t', Last(spots), stop, |spots| - 2, X);
    }
  }

  // ----- the cut native run is the CPU's own -----

  lemma {:induction false} StepsCompose(p: Platform, c: Cpu, j: nat, k: nat)
    requires Steps(p, c, j).Some?
    ensures Steps(p, c, j + k) == Steps(p, Steps(p, c, j).value, k)
    decreases j
  {
    hide Execute;
    if j > 0 {
      StepsCompose(p, Step(p, c).value, j - 1, k);
    }
  }

  lemma {:induction false} BlockIsSteps(p: Platform, spots: seq<Spot>, stop: Word, first: bool, X: iset<int>)
    requires QuietRun(p, spots, stop, first, X)
    ensures Steps(p, spots[0].cpu, |spots| - 1) == Some(Last(spots).cpu)
    decreases |spots|
  {
    hide Execute;
    if |spots| > 1 {
      QuietTail(p, spots, stop, first, X);
      BlockIsSteps(p, spots[1..], stop, false, X);
    }
  }

  /** The native run of a block holds what it held in X. */
  lemma BlockKeeps(p: Platform, spots: seq<Spot>, stop: Word, first: bool, X: iset<int>)
    requires PrefixDecoder(p.decode) && |spots| > 0 && QuietRun(p, spots, stop, first, X)
    requires Clear(spots[0].cpu.pc, stop - spots[0].cpu.pc, X)
    ensures AgreeOn(Last(spots).cpu.mem, spots[0].cpu.mem, X)
  {
    hide Execute, QuietRun, Steps;
    BlockRuns(p, spots, spots[0].cpu, stop, first, X);
    BlockIsSteps(p, spots, stop, first, X);
  }

  lemma NativeBlockIsSteps(p: Platform, spots: seq<Spot>, skip: bool, f: Footprint)
    requires PrefixDecoder(p.decode) && NativeBlock(p, spots, skip, f)
    ensures |spots| > 0 && Steps(p, spots[0].cpu, |spots| - 1) == Some(Last(spots).cpu)
  {
    hide Steps, QuietRun, StopsFrom, Load, PatchSet, Clear, Hosted;
    var base, stop := spots[0].cpu.pc, Last(spots).cpu.pc;
    BlockIsSteps(p, spots, stop, skip, PatchSet(base, stop - base, f.dump, f.restore) + f.host);
  }

  lemma FollowIsSteps(p: Platform, a: Spot, spots: seq<Spot>, f: Footprint) returns (k: nat)
    requires PrefixDecoder(p.decode) && Follows(p, a, spots, f)
    ensures |spots| > 0 && Steps(p, a.cpu, k) == Some(Last(spots).cpu)
  {
    hide Execute, Supported, Load, NativeBlock;
    var i := Fetch(p, a.cpu.mem, a.cpu.pc).value;
    NativeBlockIsSteps(p, spots, Deferred(p, i, a.cpu), f);
    k := if Deferred(p, i, a.cpu) then |spots| - 1 else |spots|;
  }

  /** Every dispatch point of a cut native run is reached by plain instruction steps from the start. */
  lemma {:induction false} NativeRunIsSteps(p: Platform, blocks: seq<seq<Spot>>, n: nat, f: Footprint)
    returns (k: nat)
    requires PrefixDecoder(p.decode) && NativeRun(p, blocks, f) && n < |blocks|
    ensures Steps(p, blocks[0][0].cpu, k) == Some(Last(blocks[n]).cpu)
  {
    hide Step, Steps, Follows, NativeBlock;
    if n == 0 {
      NativeBlockIsSteps(p, blocks[0], false, f);
      k := |blocks[0]| - 1;
    } else {
      k := NativeRunIsSteps(p, blocks, n - 1, f);
      var k' := FollowIsSteps(p, Last(blocks[n - 1]), blocks[n], f);
      StepsCompose(p, blocks[0][0].cpu, k, k');
      k := k + k';
    }
  }
}
