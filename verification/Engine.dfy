/** engine.c and the scan of analysis.c as they update their state in place, proved against Patching. */
module Engine {
  import opened Words
  import opened Registers
  import opened Conditions
  import opened Guest
  import opened Sweep
  import opened Emulation
  import opened PagedMemory
  import opened Patching

  const ORIG_BYTES: nat := 64

  class Hook {
    const code: seq<Byte>
    const origBytes: array<Byte>
    var jmp: Word

    constructor (code: seq<Byte>)
      requires |code| <= ORIG_BYTES
      ensures this.code == code && fresh(origBytes) && origBytes.Length == ORIG_BYTES && jmp == 0
    {
      this.code := code;
      this.origBytes := new Byte[ORIG_BYTES](_ => 0);
      this.jmp := 0;
    }

    ghost function View(): Patch
      reads this, origBytes
      requires |code| <= origBytes.Length
    {
      Patch(jmp, origBytes[..|code|], code)
    }
  }

  class Handler {
    const p: Platform
    const space: AddressSpace
    const dump: Hook
    const restore: Hook
    var state: State
    var currHook: Word
    var currSyscall: bool

    constructor (p: Platform, space: AddressSpace, dump: Hook, restore: Hook, state: State)
      ensures this.p == p && this.space == space && this.dump == dump && this.restore == restore
      ensures this.state == state && currHook == 0 && !currSyscall
    {
      this.p, this.space, this.dump, this.restore, this.state := p, space, dump, restore, state;
      this.currHook, this.currSyscall := 0, false;
    }

    ghost predicate Valid() {
      && PrefixDecoder(p.decode) && CoherentDecoder(p.decode)
      && dump != restore && dump.origBytes != restore.origBytes
      && 0 < |dump.code| <= dump.origBytes.Length && 0 < |restore.code| <= restore.origBytes.Length
    }

    ghost function View(): Sys
      reads this, space, dump, restore, dump.origBytes, restore.origBytes
      requires Valid()
    {
      Sys(space.mem, state, dump.View(), restore.View(), currHook, currSyscall)
    }

    // ----- the block scan -----

    /** The loop of `opcodes_cflow` over one buffer that holds the code at `addr`. It ends at a branch
        (`found`), at an instruction the buffer cuts off, or past the first `limit` bytes. */
    method SweepChunk(buffer: array<Byte>, limit: int, addr: Word, first: bool, ghost n: nat)
      returns (k: nat, found: bool)
      requires Valid() && buffer.Length == PAGE_SZ && addr + n + PAGE_SZ <= TWO64
      requires 0 < limit ==> buffer[..] == Load(space.mem, addr, PAGE_SZ)
      requires StopsFrom(p, space.mem, addr, n, first && currSyscall)
      modifies this`currSyscall
      ensures Sweeping(p, space.mem, addr, k, n, first && old(currSyscall))
      ensures found ==> k == n && Fetch(p, space.mem, Wrap(addr + n)).Some?
      ensures !found && k == 0 && 0 < limit ==> n == 0 && Fetch(p, space.mem, addr).None?
      ensures limit <= 0 ==> !found && k == 0
      ensures n < limit && n + MAX_INSN <= PAGE_SZ && Fetch(p, space.mem, Wrap(addr + n)).Some? ==> found
      ensures k > 0 ==> !currSyscall
      ensures k == 0 ==> currSyscall == old(currSyscall) && (found ==> !(first && currSyscall))
    {
      hide Stops, StopsFrom, Fetch, Load, Coherent;
      ghost var skip := first && currSyscall;
      var beg := first;
      k, found := 0, false;
      while k < limit
        invariant k <= PAGE_SZ && Sweeping(p, space.mem, addr, k, n, skip) && (limit <= 0 ==> k == 0)
        invariant k == 0 ==> beg == first && currSyscall == old(currSyscall)
        invariant k > 0 ==> !beg && !currSyscall
        decreases n - k
      {
        DecodeInBuffer(p, space.mem, addr, buffer[..], k);
        SweepInsn(p, space.mem, addr, k, n, skip);
        var insn := p.decode(buffer[k..]);
        if insn.None? { return; }
        var stop := ScanGroups(insn.value.groups, beg && currSyscall);
        if stop { found := true; return; }
        k := k + insn.value.size;
        beg := false;
        currSyscall := false;
      }
    }

    /** `opcodes_cflow`: sweeps a page-sized chunk, and re-reads from the instruction it stopped at. The
        distance `n` at which the plain sweep stops bounds the recursion. The first read goes up to a page beyond
        `addr`: the scan does not survive a page there that cannot be read, whether or not the block reaches it. */
    method OpcodesCflow(addr: Word, first: bool, ghost n: nat) returns (off: Option<nat>)
      requires Valid() && addr + n + PAGE_SZ <= TWO64
      requires StopsFrom(p, space.mem, addr, n, first && currSyscall)
      modifies this`currSyscall, space`reprotected, space`readable, space`writable
      ensures old(space.readable) <= space.readable && old(space.writable) <= space.writable
      ensures off.Some? ==> off == Some(n) && Fetch(p, space.mem, Wrap(addr + n)).Some?
      ensures off.Some? ==> FirstReadable(space.mayProtect, old(space.readable), addr)
      ensures CanScan(space.mayProtect, old(space.readable), addr, n, MAX_INSN) ==>
        Fetch(p, space.mem, Wrap(addr + n)).Some? ==> off == Some(n)
      ensures first && off.Some? ==> !currSyscall
      decreases n
    {
      hide Stops, StopsFrom, Fetch, Load, Coherent, PrefixDecoder, ReadResult, Moved, PageAlign, CanScan, Usable, FirstReadable;
      var buffer := new Byte[PAGE_SZ](_ => 0);
      var mapped := space.IsMapped(addr);
      if !mapped { return None; }
      ghost var open := space.readable;
      ghost var short := addr % PAGE_SZ == 0 && n + MAX_INSN <= PAGE_SZ;
      ScanReads(space.mayProtect, open, addr, n);
      var savedSize := space.MemRead(buffer, addr, PAGE_SZ);
      if savedSize.Fault? || savedSize.r == FAILED { return None; }
      if 0 < savedSize.r {
        space.LoadWhole(buffer, addr, PAGE_SZ);
        assert buffer[..PAGE_SZ] == buffer[..];
      }
      var k, found := SweepChunk(buffer, savedSize.r, addr, first, n);
      if found { return Some(k); }
      mapped := space.IsMapped(Wrap(addr + k));
      if mapped && k > 0 {
        StopsIsFrom(p, space.mem, Wrap(addr + k), n - k);
        WrapAdd(addr + k, n - k);
        if CanScan(space.mayProtect, open, addr, n, MAX_INSN) && !short {
          CanScanRest(space.mayProtect, open, space.readable, addr, n, MAX_INSN, k);
        }
        var rest := OpcodesCflow(Wrap(addr + k), true, n - k);
        return if rest.Some? then Some(k + rest.value) else None;
      }
      off := None;
    }

    /** The first page of a page-sized read is usable, and the page where it ends readable. */
    static predicate FirstReadable(may: Word -> bool, open: set<Word>, addr: Word)
      requires addr + PAGE_SZ <= TWO64
    {
      Usable(may, open)(PageAlign(addr)) && PageAlign(addr + 4095) in open
    }

    /** What such a read says of its pages, and what being able to scan says of the read. */
    static lemma ScanReads(may: Word -> bool, open: set<Word>, addr: Word, n: nat)
      requires addr + PAGE_SZ <= TWO64
      ensures var r := ReadResult(may, open, addr, PAGE_SZ);
        && (r.Returned? && 0 < r.r ==> Moved(may, open, addr, PAGE_SZ) == PAGE_SZ && FirstReadable(may, open, addr))
        && (CanScan(may, open, addr, n, MAX_INSN) ==> r.Returned? && 0 < r.r && (addr % PAGE_SZ == 0 ==> r.r == PAGE_SZ))
    {
      hide PageAlign, PageRoundNext, ReadResult, Moved;
      PageRead(may, open, addr, PAGE_SZ);
      if CanScan(may, open, addr, n, MAX_INSN) {
        assert Usable(may, open)(PageAlign(addr));
        if addr % PAGE_SZ == 0 {
          ReadInOnePage(may, open, addr, PAGE_SZ);
          SamePages(addr, PAGE_SZ);
        } else {
          assert Within(addr + PAGE_SZ - 1, addr, n + PAGE_SZ);
        }
      }
    }

    /** The loop over the groups of one instruction: does the scan end here? */
    method ScanGroups(groups: seq<Group>, skip: bool) returns (stop: bool)
      ensures stop == (HasCflow(groups) && !skip)
      ensures stop <==> !skip && (GCall in groups || GInt in groups || GJump in groups || GRet in groups
                                  || GBranchRelative in groups || GPrivilege in groups || GIret in groups || GVm in groups)
    {
      CflowGroups(groups);
      for i := 0 to |groups|
        invariant skip || forall j :: 0 <= j < i ==> !IsCflow(groups[j])
      {
        if IsCflow(groups[i]) {
          if !skip { return true; }
        }
      }
      stop := false;
    }

    // ----- branch emulation -----

    /** `__eval_target`: looks for the first group it knows how to emulate. False ends the process. */
    method EvalInsn(i: Insn, at: Word) returns (ok: bool, target: Word)
      modifies this`state, this`currSyscall, space`mem
      ensures match Emulate(p, i, at, old(state), old(space.mem))
              case Fatal => !ok
              case Go(t, st, m, deferred) =>
                ok && target == t && state == st && space.mem == m && currSyscall == (old(currSyscall) || deferred)
    {
      hide ReadWord, WriteWord, EvalOperand, IsJmpTaken;
      ok, target := false, 0;
      for k := 0 to |i.groups|
        invariant state == old(state) && space.mem == old(space.mem) && currSyscall == old(currSyscall)
        invariant FirstActing(i.groups) == FirstActing(i.groups[k..])
      {
        var g := i.groups[k];
        assert i.groups[k..][1..] == i.groups[k + 1..];
        if g.GJump? || g.GBranchRelative? || g.GCall? {
          var taken := if g.GCall? then Some(true) else IsJmpTaken(i.id, state);
          if taken.None? { return; }
          target := Wrap(at + i.size);
          if taken.value {
            if g.GCall? {
              state := Pushed(state);
              space.mem := WriteWord(space.mem, state.regs[RSP], Wrap(state.rip + i.size));
            }
            target := EvalOperand(i, state, space.mem);
          }
          ok := target != ABSENT;
          return;
        } else if g.GRet? {
          target := ReadWord(space.mem, state.regs[RSP]);
          state := state.(regs := state.regs[RSP := Above(state.regs[RSP], 8)]);
          ok := target != ABSENT;
          return;
        } else if g.GInt? {
          if p.hooked(state.regs[RAX]) {
            var (ret, r, m) := p.callback(state.regs, space.mem);
            state, space.mem := state.(regs := r), m;
            target := if ret != 0 then ret else Wrap(at + i.size);
            ok := target != ABSENT;
            return;
          }
          currSyscall := true;
          ok, target := true, at;
          return;
        }
      }
    }

    /** `eval_target`: disassemble the branch from memory, then emulate it. It always reads 16 bytes, and does not
        survive a second page that cannot be read. Where the first page is refused nothing is claimed: a branch that
        crosses into another page is disassembled half read. */
    method EvalTarget(at: Word) returns (ok: bool, target: Word)
      requires Valid() && at + INSN_BUFFER <= TWO64
      modifies this`state, this`currSyscall, space
      ensures old(space.readable) <= space.readable && old(space.writable) <= space.writable
      ensures Usable(space.mayProtect, old(space.readable))(PageAlign(at)) ==>
              if PageAlign(at + 15) !in old(space.readable) then !ok
              else match Fetch(p, old(space.mem), at)
              case None => !ok
              case Some(i) =>
                match Emulate(p, i, at, old(state), old(space.mem))
                case Fatal => !ok
                case Go(t, st, m, deferred) =>
                  ok && target == t && state == st && space.mem == m && currSyscall == (old(currSyscall) || deferred)
    {
      hide Emulate, Load, PrefixDecoder, CoherentDecoder, ReadResult, Moved, PageAlign;
      ok, target := false, 0;
      var buffer := new Byte[INSN_BUFFER](_ => 0);
      PageRead(space.mayProtect, space.readable, at, INSN_BUFFER);
      ghost var whole := Moved(space.mayProtect, space.readable, at, INSN_BUFFER) == INSN_BUFFER;
      var r := space.MemRead(buffer, at, INSN_BUFFER);
      if r.Fault? || r.r == FAILED { return; }
      if whole {
        space.LoadWhole(buffer, at, INSN_BUFFER);
        assert buffer[..INSN_BUFFER] == buffer[..];
      }
      var i := p.decode(buffer[..]);
      if i.None? { return; }
      ok, target := EvalInsn(i.value, at);
    }

    // ----- patches -----

    /** The bytes under a patch can be saved and overwritten. */
    ghost predicate CanPlace(q: Patch)
      reads space
    {
      CanPatch(space.mayProtect, space.readable, q.jmp, |q.code|)
    }

    /** They can be put back, where the pages of `extra` are writable too. */
    ghost predicate CanUndo(q: Patch, extra: set<Word>)
      reads space
    {
      CanPatch(space.mayProtect, space.writable + extra, q.jmp, |q.code|)
    }

    /** `write_hook`: save the bytes under the hook, then write its code there. A refused page may go unnoticed
        when the bytes are read, but then the write is refused it too. The write faults on no page: reading has made
        each of them writable, and so they stay for the bytes to be put back. */
    method WriteHook(hook: Hook) returns (ok: bool)
      requires Valid() && (hook == dump || hook == restore) && hook.jmp + |hook.code| < TWO64
      modifies space, hook.origBytes
      ensures old(space.readable) <= space.readable && old(space.writable) <= space.writable
      ensures ok == old(CanPlace(hook.View()))
      ensures ok ==> space.mem == Store(old(space.mem), hook.jmp, hook.code) && CanUndo(hook.View(), {})
      ensures ok ==> hook.origBytes[..|hook.code|] == Load(old(space.mem), hook.jmp, |hook.code|)
    {
      hide Load, Store, PrefixDecoder, CoherentDecoder, ReadResult, WriteResult, Moved, PageAlign, Usable, Granted;
      var at: Word, size := hook.jmp, |hook.code|;
      ghost var open := space.readable;
      ReadThenWrite(at, size, open);
      var r := space.MemRead(hook.origBytes, at, size);
      if r.Fault? || r.r == FAILED { return false; }
      if Moved(space.mayProtect, open, at, size) == size {
        space.LoadWhole(hook.origBytes, at, size);
      }
      ghost var write := space.writable;
      WriteAfterRead(at, size, open, write);
      var w := space.MemWrite(at, hook.code);
      ok := w != Fault && w.r != FAILED;
      if ok {
        UsableGrows(space.mayProtect, write, space.writable + {}, at, at + size - 1, at, at + size - 1);
      }
    }

    lemma ReadThenWrite(at: Word, size: nat, open: set<Word>)
      requires 0 < size && at + size < TWO64
      ensures Granted(Usable(space.mayProtect, open), at, at + size - 1) ==>
        Moved(space.mayProtect, open, at, size) == size && ReadResult(space.mayProtect, open, at, size).Returned?
        && ReadResult(space.mayProtect, open, at, size).r != FAILED
      ensures !Granted(Usable(space.mayProtect, open), at, at + size - 1) ==>
        ReadResult(space.mayProtect, open, at, size) == Fault || exists x: Word :: Within(x, at, size) && !space.mayProtect(PageAlign(x))
    {
      hide PageAlign, PageRoundNext;
      RefusalIs(Usable(space.mayProtect, open), at, at + size - 1);
      if Refusal(Usable(space.mayProtect, open), at, at + size - 1).Some? {
        var x := Refusal(Usable(space.mayProtect, open), at, at + size - 1).value;
        assert Within(x, at, size);
      }
    }

    lemma WriteAfterRead(at: Word, size: nat, open: set<Word>, write: set<Word>)
      requires 0 < size && at + size < TWO64
      ensures WriteResult(space.mayProtect, write, at, size).Returned? ==>
        WriteResult(space.mayProtect, write, at, size).r == size || WriteResult(space.mayProtect, write, at, size).r == FAILED
      ensures WriteResult(space.mayProtect, write, at, size) == Returned(size)
              <==> Granted(Usable(space.mayProtect, write), at, at + size - 1) && space.mayProtect(PageAlign(at + size))
      ensures Granted(Usable(space.mayProtect, open), at, at + size - 1) && AllOpen(write, at, size) ==>
        Granted(Usable(space.mayProtect, write), at, at + size - 1)
      ensures (exists x: Word :: Within(x, at, size) && !space.mayProtect(PageAlign(x))) ==>
        !Granted(Usable(space.mayProtect, write), at, at + size - 1)
    {
      hide PageAlign, PageRoundNext;
      WriteSucceedsIff(space.mayProtect, write, at, size);
    }

    /** `restore_bytes`: put the saved bytes back. */
    method RestoreBytes(hook: Hook) returns (ok: bool)
      requires Valid() && (hook == dump || hook == restore) && hook.jmp + |hook.code| < TWO64
      modifies space
      ensures old(space.readable) <= space.readable && old(space.writable) <= space.writable
      ensures ok == old(CanUndo(hook.View(), {}))
      ensures ok ==> space.mem == Store(old(space.mem), hook.jmp, hook.origBytes[..|hook.code|])
      ensures ok ==> space.writable == old(space.writable) + {PageAlign(Wrap(hook.jmp + |hook.code|))}
      ensures ok ==> Usable(space.mayProtect, space.readable)(PageAlign(hook.jmp))
    {
      hide Store, PrefixDecoder, CoherentDecoder, Moved, WriteResult, PageAlign;
      ghost var at, size := hook.jmp, |hook.code|;
      WriteAfterRead(at, size, space.writable, space.writable);
      assert space.writable + {} == space.writable;
      var w := space.MemWrite(hook.jmp, hook.origBytes[..|hook.code|]);
      ok := w != Fault && w.r != FAILED;
    }

    /** `_instrument_bbl`: scan the block and patch its branch. */
    method InstrumentBbl(base: Word, ghost n: nat) returns (ok: bool)
      requires Valid() && StopsFrom(p, space.mem, base, n, currSyscall) && base + n + |dump.code| + PAGE_SZ < TWO64
      modifies this`currSyscall, space, dump`jmp, dump.origBytes
      ensures old(space.readable) <= space.readable && old(space.writable) <= space.writable
      ensures ok ==> Fetch(p, old(space.mem), Wrap(base + n)).Some? && !currSyscall
      ensures ok ==> dump.View() == Placed(old(dump.View()), base + n, old(space.mem)) && CanUndo(dump.View(), {})
      ensures ok ==> space.mem == Store(old(space.mem), base + n, dump.code)
      ensures Fetch(p, old(space.mem), Wrap(base + n)).Some? ==>
        CanScan(space.mayProtect, old(space.readable), base, n, MAX_INSN) ==>
        CanPatch(space.mayProtect, old(space.readable), base + n, |dump.code|) ==> ok
    {
      hide Load, Store, Stops, StopsFrom, Fetch, PrefixDecoder, CoherentDecoder, PageAlign, CanScan, CanPatch;
      ghost var open := space.readable;
      var off := OpcodesCflow(base, true, n);
      if off.None? { return false; }
      if CanPatch(space.mayProtect, open, base + n, |dump.code|) {
        PatchStays(base + n, |dump.code|, open, space.readable);
      }
      dump.jmp := base + off.value;
      ok := WriteHook(dump);
    }

    /** `instrument_request`: scan the block, patch its branch, then patch the bytes before the block. */
    method InstrumentRequest(base: Word, ghost n: nat) returns (ok: bool)
      requires Valid() && StopsFrom(p, space.mem, base, n, currSyscall)
      requires |restore.code| <= base && base + n + |dump.code| + PAGE_SZ < TWO64
      modifies this`currSyscall, this`currHook, space, dump`jmp, dump.origBytes, restore`jmp, restore.origBytes
      ensures ok ==> Fetch(p, old(space.mem), Wrap(base + n)).Some?
      ensures ok ==> View() == Instrument(old(View()).(currSyscall := false), base, n)
      ensures ok ==> CanUndo(dump.View(), {}) && CanUndo(restore.View(), {})
      ensures old(space.readable) <= space.readable && old(space.writable) <= space.writable
      ensures Fetch(p, old(space.mem), Wrap(base + n)).Some? ==> BlockUsable(base, n, old(space.readable)) ==> ok
    {
      hide Load, Store, Stops, StopsFrom, Fetch, PrefixDecoder, CoherentDecoder, PageAlign, CanScan, CanPatch;
      ghost var open := space.readable;
      ok := InstrumentBbl(base, n);
      if !ok { return; }
      currHook := dump.jmp;
      restore.jmp := base - |restore.code|;
      currHook := dump.jmp;
      if BlockUsable(base, n, open) {
        PatchStays(restore.jmp, |restore.code|, open, space.readable);
      }
      ghost var write := space.writable;
      ok := WriteHook(restore);
      if ok {
        PatchStays(dump.jmp, |dump.code|, write + {}, space.writable + {});
      }
    }

    /** Opening more pages keeps a patch possible. */
    lemma PatchStays(at: Word, size: nat, open: set<Word>, open': set<Word>)
      requires open <= open' && CanPatch(space.mayProtect, open, at, size)
      ensures CanPatch(space.mayProtect, open', at, size)
    {
      hide PageAlign;
    }

    /** No page that scanning and patching a block asks for is refused or closed. */
    ghost predicate BlockUsable(base: Word, n: nat, open: set<Word>) {
      && CanScan(space.mayProtect, open, base, n, MAX_INSN)
      && base + n < TWO64 && |restore.code| <= base
      && CanPatch(space.mayProtect, open, base + n, |dump.code|)
      && CanPatch(space.mayProtect, open, base - |restore.code|, |restore.code|)
    }

    /** Opening more pages does not make it unusable. */
    lemma BlockStaysUsable(base: Word, n: nat, open: set<Word>, open': set<Word>)
      requires open <= open' && BlockUsable(base, n, open)
      ensures BlockUsable(base, n, open')
    {
      hide PageAlign;
      UsableGrows(space.mayProtect, open, open', base, base + n, base, base + n);
    }

    // ----- dispatch -----

    /** Both patches of `s` can be taken off. Taking off the restore patch opens the page right behind it. */
    ghost predicate UndoUsable(s: Sys)
      reads space
    {
      && (s.restore.jmp != 0 ==> CanUndo(s.restore, {}))
      && CanUndo(s.dump, if s.restore.jmp != 0 then {PageAlign(Wrap(s.restore.jmp + |s.restore.code|))} else {})
    }

    /** The first half of `_dispatcher`: both patches come off before anything is evaluated. */
    method TakeOffPatches() returns (ok: bool)
      requires Valid() && InRange(p, View())
      modifies space
      ensures old(space.readable) <= space.readable && old(space.writable) <= space.writable
      ensures ok == old(UndoUsable(View()))
      ensures ok ==> space.mem == Undo(old(View())) && Usable(space.mayProtect, space.readable)(PageAlign(dump.jmp))
    {
      hide Store, Fetch, Emulate, StopsFrom, PrefixDecoder, CoherentDecoder, CanPatch, PageAlign, Usable;
      if restore.jmp != 0 {
        ok := RestoreBytes(restore);
        if !ok { return; }
        assert space.writable + {} == space.writable;
      }
      ok := RestoreBytes(dump);
    }

    /** `_dispatcher`, up to the jump into the restore stub. False ends the process, by a failure the code notices or
        by a fault. Whatever pages are refused or closed, the engine goes on only in the state of `Dispatch`; then
        it can take the new patches off again. It does go on if the old patches can be taken off, the branch and the
        scan of the next block stay within readable pages, and the new patches can be placed. */
    method Dispatcher() returns (ok: bool)
      requires Valid() && InRange(p, View()) && currHook == dump.jmp
      modifies this, space, dump`jmp, dump.origBytes, restore`jmp, restore.origBytes
      ensures ok ==> Dispatch(p, old(View())).Some? && View() == Dispatch(p, old(View())).value
      ensures ok ==> old(UndoUsable(View())) && CanUndo(dump.View(), {}) && CanUndo(restore.View(), {})
      ensures old(DispatchUsable()) ==> ok
    {
      hide Store, Load, Fetch, Emulate, Undo, StopsFrom, PrefixDecoder, CoherentDecoder, Instrument, Dispatch,
        PageAlign, BlockUsable, UndoUsable, CanPatch, CanUndo, Usable;
      ghost var open, usable, s := space.readable, DispatchUsable(), View();
      DispatchNone(p, s);
      ok := TakeOffPatches();
      if !ok { return; }
      var base;
      ok, base := EvalTarget(currHook);
      if !ok { return; }
      ghost var n: nat :| StopsFrom(p, space.mem, base, n, currSyscall) && base + n + |dump.code| + PAGE_SZ < TWO64;
      DispatchIs(p, s, n);
      if usable {
        BlockStaysUsable(base, n, open, space.readable);
      }
      ok := InstrumentRequest(base, n);
      if !ok { return; }
      state := state.(rip := Wrap(base - |restore.code|));
    }

    /** Every page is readable, writable and granted. */
    ghost predicate EveryPage()
      reads space
    {
      forall x: Word :: space.mayProtect(PageAlign(x)) && PageAlign(x) in space.readable && PageAlign(x) in space.writable
    }

    /** Then the dispatcher succeeds exactly when the dispatch does. */
    method DispatchFreely() returns (ok: bool)
      requires Valid() && InRange(p, View()) && currHook == dump.jmp && EveryPage()
      modifies this, space, dump`jmp, dump.origBytes, restore`jmp, restore.origBytes
      ensures ok == Dispatch(p, old(View())).Some?
      ensures ok ==> View() == Dispatch(p, old(View())).value
    {
      hide EveryPage, DispatchUsable, InRange, Dispatch;
      if Dispatch(p, View()).Some? {
        EveryPageSuffices();
      }
      ok := Dispatcher();
    }

    lemma EveryPageSuffices()
      requires Valid() && InRange(p, View()) && EveryPage() && Dispatch(p, View()).Some?
      ensures DispatchUsable()
    {
      hide Store, Load, Fetch, Emulate, Undo, StopsFrom, PrefixDecoder, CoherentDecoder, Instrument, CanScan, CanPatch, Emulated,
        PageAlign;
      var s := View();
      DispatchNone(p, s);
      var e := Emulated(p, s);
      var n: nat :| StopsFrom(p, e.mem, e.target, n, e.deferred || s.currSyscall) && e.target + n + |s.dump.code| + PAGE_SZ < TWO64;
      DispatchIs(p, s, n);
      var may, read, write := space.mayProtect, space.readable, space.writable;
      EveryPageServes(may, read, e.target, n, MAX_INSN);
      EveryPageServes(may, read, e.target + n, |dump.code|, MAX_INSN);
      EveryPageServes(may, read, e.target - |restore.code|, |restore.code|, MAX_INSN);
      UndoServes();
    }

    lemma UndoServes()
      requires Valid() && EveryPage()
      ensures UndoUsable(View())
    {
      hide CanPatch, PageAlign;
      var may, write := space.mayProtect, space.writable;
      var extra := {PageAlign(Wrap(restore.jmp + |restore.code|))};
      EveryPageServes(may, write + {}, restore.jmp, |restore.code|, MAX_INSN);
      EveryPageServes(may, write + {}, dump.jmp, |dump.code|, MAX_INSN);
      EveryPageServes(may, write + extra, dump.jmp, |dump.code|, MAX_INSN);
    }

    /** The pages are such that the dispatch does not fail on them. */
    ghost predicate DispatchUsable()
      reads this, space, dump, restore, dump.origBytes, restore.origBytes
      requires Valid()
    {
      Dispatch(p, View()).Some? && UndoUsable(View())
      && PageAlign(Wrap(currHook + 15)) in space.readable
      && var s' := Dispatch(p, View()).value;
         var base := s'.restore.jmp + |s'.restore.code|;
         base < TWO64 && base <= s'.dump.jmp && BlockUsable(base, s'.dump.jmp - base, space.readable)
    }

    static lemma DispatchNone(p: Platform, s: Sys)
      requires PrefixDecoder(p.decode)
      ensures Emulated(p, s).Fatal? ==> Dispatch(p, s).None?
    {
    }
  }
}
