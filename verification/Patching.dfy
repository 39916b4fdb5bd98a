/** engine.c on values: the two live patches, how a dispatch takes them off and puts them on, and
    the invariant they keep. */
module Patching {
  import opened Words
  import opened Registers
  import opened Guest
  import opened Emulation
  import opened Sweep

  /** A `hook_t`: where the patch is, the bytes it hides, and its own bytes. */
  datatype Patch = Patch(jmp: Word, orig: seq<Byte>, code: seq<Byte>)

  /** Everything a dispatch reads and writes. */
  datatype Sys = Sys(mem: Memory, st: State, dump: Patch, restore: Patch, currHook: Word, currSyscall: bool)

  /** `write_hook` at `at`: save the bytes there, then overwrite them. */
  function Placed(q: Patch, at: Word, m: Memory): Patch {
    q.(jmp := at, orig := Load(m, at, |q.code|))
  }

  /** `instrument_request`: the dump patch over the branch, then the restore patch before the block. */
  function Instrument(s: Sys, base: Word, off: nat): Sys {
    var hook := Wrap(base + off);
    var entry := Wrap(base - |s.restore.code|);
    var m := Store(s.mem, hook, s.dump.code);
    s.(mem := Store(m, entry, s.restore.code),
       dump := Placed(s.dump, hook, s.mem),
       restore := Placed(s.restore, entry, m),
       currHook := hook)
  }

  /** The two `restore_bytes` of a dispatch; the restore patch is skipped when its address is 0. */
  function Undo(s: Sys): Memory {
    var m := if s.restore.jmp != 0 then Store(s.mem, s.restore.jmp, s.restore.orig) else s.mem;
    Store(m, s.dump.jmp, s.dump.orig)
  }

  /** What the dispatcher evaluates once no patch is live. */
  function Emulated(p: Platform, s: Sys): Outcome {
    var m := Undo(s);
    match Fetch(p, m, s.currHook)
    case None => Fatal
    case Some(i) => Emulate(p, i, s.currHook, s.st, m)
  }

  /** `_dispatcher` up to `continue_exec`; None where the engine ends the process. */
  ghost function Dispatch(p: Platform, s: Sys): Option<Sys>
    requires PrefixDecoder(p.decode)
  {
    match Emulated(p, s)
    case Fatal => None
    case Go(base, st, m, deferred) =>
      match BranchOffset(p, m, base, deferred || s.currSyscall)
      case None => None
      case Some(off) =>
        var s' := Instrument(s.(mem := m, st := st, currSyscall := false), base, off);
        Some(s'.(st := st.(rip := Wrap(base - |s.restore.code|))))
  }

  predicate PatchesInside(s: Sys) {
    && s.dump.jmp + |s.dump.code| < TWO64 && s.restore.jmp + |s.restore.code| < TWO64
    && s.currHook + INSN_BUFFER <= TWO64
  }

  /** The addresses of a dispatch stay inside memory: the live patches, and the block that the branch
      leads to, whose sweep stops somewhere. */
  ghost predicate InRange(p: Platform, s: Sys)
    requires PrefixDecoder(p.decode)
  {
    PatchesInside(s) &&
    match Emulated(p, s)
    case Fatal => true
    case Go(base, _, m, deferred) =>
      var skip := deferred || s.currSyscall;
      |s.restore.code| <= base &&
      exists n: nat :: StopsFrom(p, m, base, n, skip) && base + n + |s.dump.code| + PAGE_SZ < TWO64
  }

  lemma ScanEndsInRange(p: Platform, s: Sys, n: nat)
    requires PrefixDecoder(p.decode) && PatchesInside(s) && Emulated(p, s).Go?
    requires var e := Emulated(p, s);
      && |s.restore.code| <= e.target && StopsFrom(p, e.mem, e.target, n, e.deferred || s.currSyscall)
      && e.target + n + |s.dump.code| + PAGE_SZ < TWO64
    ensures InRange(p, s)
  {
  }

  // ----- the patch invariant -----

  predicate InPatch(i: int, base: Word, off: nat, dump: nat, restore: nat) {
    Within(i, base - restore, restore) || Within(i, base + off, dump)
  }

  /** The addresses that the patches of a block cover. */
  ghost function PatchSet(base: Word, off: nat, dump: nat, restore: nat): iset<int> {
    iset i | InPatch(i, base, off, dump, restore)
  }

  predicate HasRoom(base: Word, off: nat, dump: nat, restore: nat) {
    restore < base && base + off + dump + PAGE_SZ < TWO64
  }

  /** Two patches hide `clean`: memory is `clean` with the patch bytes over [base - R, base) and
      [base + off, base + off + D), and each patch holds the bytes it hides. */
  ghost predicate Live(s: Sys, clean: Memory, base: Word, off: nat) {
    && HasRoom(base, off, |s.dump.code|, |s.restore.code|)
    && s.dump.jmp == s.currHook == base + off && s.restore.jmp == base - |s.restore.code|
    && s.dump.orig == Load(clean, s.dump.jmp, |s.dump.code|)
    && s.restore.orig == Load(clean, s.restore.jmp, |s.restore.code|)
    && s.mem == Store(Store(clean, s.dump.jmp, s.dump.code), s.restore.jmp, s.restore.code)
  }

  /** Instrumenting makes both patches live over the memory it started from. */
  lemma InstrumentIsLive(s: Sys, base: Word, off: nat)
    requires HasRoom(base, off, |s.dump.code|, |s.restore.code|)
    ensures Live(Instrument(s, base, off), s.mem, base, off)
  {
    var entry := base - |s.restore.code|;
    var m := Store(s.mem, base + off, s.dump.code);
    assert Wrap(base + off) == base + off && Wrap(entry) == entry;
    StoreAll(s.mem, base + off, s.dump.code);
    forall i | 0 <= i < |s.restore.code|
      ensures Load(m, entry, |s.restore.code|)[i] == Load(s.mem, entry, |s.restore.code|)[i]
    {
      LoadAt(m, entry, |s.restore.code|, i);
      LoadAt(s.mem, entry, |s.restore.code|, i);
    }
    assert Load(m, entry, |s.restore.code|) == Load(s.mem, entry, |s.restore.code|);
  }

  /** The patches are disjoint, memory differs from the clean one only inside them, and the block's
      own bytes are untouched. */
  lemma LivePatches(s: Sys, clean: Memory, base: Word, off: nat)
    requires Live(s, clean, base, off)
    ensures AgreeOutside(s.mem, clean, PatchSet(base, off, |s.dump.code|, |s.restore.code|))
    ensures forall i :: Within(i, base, off) ==> i !in PatchSet(base, off, |s.dump.code|, |s.restore.code|)
    ensures Load(s.mem, s.dump.jmp, |s.dump.code|) == s.dump.code
    ensures Load(s.mem, s.restore.jmp, |s.restore.code|) == s.restore.code
  {
    var m := Store(clean, s.dump.jmp, s.dump.code);
    StoreAll(clean, s.dump.jmp, s.dump.code);
    StoreAll(m, s.restore.jmp, s.restore.code);
    forall i | 0 <= i < |s.dump.code|
      ensures Load(s.mem, s.dump.jmp, |s.dump.code|)[i] == s.dump.code[i]
    {
      LoadAt(s.mem, s.dump.jmp, |s.dump.code|, i);
    }
    LoadStoreSame(m, s.restore.jmp, s.restore.code);
  }

  /** Undoing the patches, whatever has become of memory meanwhile: the patched bytes are the clean ones
      again, all others stay. */
  lemma UndoIs(s: Sys, clean: Memory, base: Word, off: nat, mem': Memory)
    requires Live(s, clean, base, off)
    ensures var X := PatchSet(base, off, |s.dump.code|, |s.restore.code|);
      AgreeOn(Undo(s.(mem := mem')), clean, X) && AgreeOutside(Undo(s.(mem := mem')), mem', X)
  {
    var X := PatchSet(base, off, |s.dump.code|, |s.restore.code|);
    var m := Store(mem', s.restore.jmp, s.restore.orig);
    StoreAll(mem', s.restore.jmp, s.restore.orig);
    StoreAll(m, s.dump.jmp, s.dump.orig);
    forall i | 0 <= i < TWO64
      ensures Store(m, s.dump.jmp, s.dump.orig)[i] == if i in X then clean[i] else mem'[i]
    {
      if Within(i, s.dump.jmp, |s.dump.code|) {
        LoadAt(clean, s.dump.jmp, |s.dump.code|, i - s.dump.jmp);
        assert i in X;
      } else if Within(i, s.restore.jmp, |s.restore.code|) {
        LoadAt(clean, s.restore.jmp, |s.restore.code|, i - s.restore.jmp);
        assert i in X;
      } else {
        assert i !in X;
      }
    }
  }

  /** Undoing the patches after the guest has run gives the memory the guest would have without
      them: `clean'` is what the guest made of the clean memory, `mem'` what it made of the patched
      one, and neither run touched the patched bytes. */
  lemma UndoRestores(s: Sys, clean: Memory, base: Word, off: nat, mem': Memory, clean': Memory)
    requires Live(s, clean, base, off)
    requires AgreeOutside(mem', clean', PatchSet(base, off, |s.dump.code|, |s.restore.code|))
    requires AgreeOn(clean', clean, PatchSet(base, off, |s.dump.code|, |s.restore.code|))
    ensures Undo(s.(mem := mem')) == clean'
  {
    hide Undo, Live, PatchSet;
    UndoIs(s, clean, base, off, mem');
    var X := PatchSet(base, off, |s.dump.code|, |s.restore.code|);
    var m := Undo(s.(mem := mem'));
    forall i | 0 <= i < TWO64
      ensures m[i] == clean'[i]
    {
      if i in X {
        assert m[i] == clean[i];
      }
    }
  }

  /** Where the restore patch would start at address 0 it is never taken off again: instrumenting
      and undoing is the identity on every memory exactly when the block does not start there. */
  lemma UndoIsExact(s: Sys, base: Word, off: nat)
    requires 0 < |s.restore.code| <= base && base + off + |s.dump.code| + PAGE_SZ < TWO64
    ensures (forall m: Memory :: Undo(Instrument(s.(mem := m), base, off)) == m) <==> base != |s.restore.code|
  {
    if base != |s.restore.code| {
      forall m: Memory
        ensures Undo(Instrument(s.(mem := m), base, off)) == m
      {
        var s' := Instrument(s.(mem := m), base, off);
        InstrumentIsLive(s.(mem := m), base, off);
        LivePatches(s', m, base, off);
        UndoRestores(s', m, base, off, s'.mem, m);
      }
    } else {
      var other: Byte := if s.restore.code[0] == 0 then 1 else 0;
      var m: Memory := seq(TWO64, _ => other);
      NotUndoneAtZero(s.(mem := m), base, off);
    }
  }

  lemma NotUndoneAtZero(s: Sys, base: Word, off: nat)
    requires 0 < |s.restore.code| == base && base + off + |s.dump.code| + PAGE_SZ < TWO64
    ensures Undo(Instrument(s, base, off))[0] == s.restore.code[0]
  {
    var m := Store(s.mem, base + off, s.dump.code);
    assert Wrap(base + off) == base + off && Wrap(base - |s.restore.code|) == 0;
    StoreAll(s.mem, base + off, s.dump.code);
    StoreAll(m, 0, s.restore.code);
    StoreAll(Store(m, 0, s.restore.code), base + off, Load(s.mem, base + off, |s.dump.code|));
  }

  lemma InstrumentPlaces(s: Sys, base: Word, off: nat)
    requires |s.restore.code| <= base && base + off < TWO64
    ensures Instrument(s, base, off).dump.jmp == base + off
    ensures Instrument(s, base, off).restore.jmp == base - |s.restore.code|
    ensures Instrument(s, base, off).dump.code == s.dump.code && Instrument(s, base, off).restore.code == s.restore.code
  {
  }

  /** The state a dispatch reaches once the branch leads to `base`, whose block ends `n` bytes on. */
  function Continued(s: Sys, e: Outcome, n: nat): Sys
    requires e.Go?
  {
    Instrument(s.(mem := e.mem, st := e.st, currSyscall := false), e.target, n)
      .(st := e.st.(rip := Wrap(e.target - |s.restore.code|)))
  }

  lemma DispatchIs(p: Platform, s: Sys, n: nat)
    requires PrefixDecoder(p.decode) && Emulated(p, s).Go?
    requires var e := Emulated(p, s);
      StopsFrom(p, e.mem, e.target, n, e.deferred || s.currSyscall) && |s.restore.code| <= e.target && e.target + n < TWO64
    ensures var e := Emulated(p, s);
      Dispatch(p, s) == if Fetch(p, e.mem, Wrap(e.target + n)).Some? then Some(Continued(s, e, n)) else None
    ensures var e, s' := Emulated(p, s), Continued(s, Emulated(p, s), n);
      s'.dump.jmp == e.target + n && s'.restore.jmp == e.target - |s.restore.code| && s'.restore.code == s.restore.code
  {
    hide Emulated, StopsFrom, Fetch, Load, Store, BranchOffset;
    var e := Emulated(p, s);
    BranchOffsetIs(p, e.mem, e.target, e.deferred || s.currSyscall, n);
    InstrumentPlaces(s.(mem := e.mem, st := e.st, currSyscall := false), e.target, n);
  }

  lemma InstrumentHook(s: Sys, base: Word, off: nat)
    ensures Instrument(s, base, off).currHook == Wrap(base + off)
    ensures Instrument(s, base, off).currSyscall == s.currSyscall
  {
  }

  /** A system call that is left to the hardware becomes the base of the next block. The scan steps over
      that one instruction and no other, so the new hook lies strictly after it. */
  lemma DeferredMakesProgress(p: Platform, s: Sys) returns (i: Insn, off: nat)
    requires PrefixDecoder(p.decode) && Emulated(p, s).Go? && Emulated(p, s).deferred && Dispatch(p, s).Some?
    ensures Emulated(p, s).target == s.currHook && Emulated(p, s).mem == Undo(s)
    ensures Fetch(p, Undo(s), s.currHook) == Some(i) && 1 <= i.size <= off
    ensures Dispatch(p, s).value.currHook == Wrap(s.currHook + off)
    ensures Stops(p, Undo(s), Wrap(s.currHook + i.size), off - i.size)
    ensures !Dispatch(p, s).value.currSyscall
  {
    hide Undo, Load, Store, Emulate, Stops, BranchOffset, Instrument;
    i := Fetch(p, Undo(s), s.currHook).value;
    DeferredIsUntouched(p, i, s.currHook, s.st, Undo(s));
    BranchOffsetStops(p, Undo(s), s.currHook, true);
    off := BranchOffset(p, Undo(s), s.currHook, true).value;
    InstrumentHook(s.(mem := Undo(s), currSyscall := false), s.currHook, off);
  }
}
