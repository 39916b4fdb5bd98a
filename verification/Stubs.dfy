/** engine.c: the generated code that moves the guest's registers into the state structure and back,
    as programs for a small interpreter over the flat memory. */
module Stubs {
  import opened Words
  import Registers

  // ----- registers -----

  const SLOTS := 24

  /** A register, named by the position of its field in the state structure (include/dryadalis_x86.h). */
  type Slot = i: nat | i < SLOTS

  const RAX: Slot := 0
  const RBX: Slot := 1
  const RCX: Slot := 2
  const RDX: Slot := 3
  const RSI: Slot := 4
  const RDI: Slot := 5
  const RBP: Slot := 6
  const RSP: Slot := 7
  const RIP: Slot := 8
  const RFLAGS: Slot := 9
  const CS: Slot := 10
  const SS: Slot := 11
  const GS: Slot := 12
  const ES: Slot := 13
  const DS: Slot := 14
  const FS: Slot := 15
  const R8: Slot := 16
  const R9: Slot := 17
  const R10: Slot := 18
  const R11: Slot := 19
  const R12: Slot := 20
  const R13: Slot := 21
  const R14: Slot := 22
  const R15: Slot := 23

  /** The CPU's registers, at the positions of their fields; the one of rip is not used. */
  type Regs = rs: seq<Word> | |rs| == SLOTS witness seq(SLOTS, _ => 0)

  // ----- the interpreter -----

  datatype Op =
    | Move(dst: Slot, src: Slot)
    | MoveImm(dst: Slot, v: Word)
    | StoreRax(a: Word)
    | LoadRax(a: Word)
    | Push(r: Slot)
    | PushImm(v: Word)
    | Pop(r: Slot)
    | JumpRax
    | Return

  /** `left` is where control went once a program has jumped out. */
  datatype Core = Core(regs: Regs, mem: Memory, left: Option<Word>)

  predicate Selector(r: Slot) {
    r == CS || r == SS || r == GS || r == ES || r == DS || r == FS
  }

  /** A segment selector holds 16 bits. */
  function Assign(regs: Regs, r: Slot, v: Word): Regs {
    regs[r := if Selector(r) then v % 0x1_0000 else v]
  }

  /** What `pushfq` pushes: RF and VM are cleared in the image. */
  function Image(v: Word): Word {
    v - v / 0x1_0000 % 4 * 0x1_0000
  }

  /** The flags that a program can change: CF, PF, AF, ZF, SF, TF, DF, OF, NT, AC and ID, which are bits 0, 2, 4, 6 to
      8, 10, 11, 14, 18 and 21. */
  function Changeable(v: Word): nat {
    v % 2 + v / 4 % 2 * 4 + v / 16 % 2 * 16 + v / 64 % 8 * 64 + v / 1024 % 4 * 1024 + v / 0x4000 % 2 * 0x4000
    + v / 0x4_0000 % 2 * 0x4_0000 + v / 0x20_0000 % 2 * 0x20_0000
  }

  /** What `popfq` of `v` leaves in the flags: the privileged bits stay. */
  function Popped(was: Word, v: Word): Word {
    Wrap(was - Changeable(was) + Changeable(v))
  }

  /** The two have the same privileged bits. */
  predicate SamePrivileged(x: Word, y: Word) {
    x - Changeable(x) == y - Changeable(y)
  }

  lemma FlagsBack(was: Word, v: Word)
    ensures SamePrivileged(was, v) ==> Popped(was, v) == v
    ensures Registers.PlainFlags(v) ==> Image(v) == v
  {
    hide Changeable;
  }

  /** The other bits: 1, 3, 5 and 15, which are reserved, IF (9), IOPL (12 and 13), RF and VM (16 and 17), VIF and VIP
      (19 and 20), and all from 22 on. */
  function Privileged(v: Word): nat {
    v / 2 % 2 * 2 + v / 8 % 2 * 8 + v / 32 % 2 * 32 + v / 512 % 2 * 512 + v / 4096 % 4 * 4096 + v / 0x8000 % 2 * 0x8000
    + v / 0x1_0000 % 4 * 0x1_0000 + v / 0x8_0000 % 4 * 0x8_0000 + v / 0x40_0000 * 0x40_0000
  }

  lemma FlagsSplit(v: Word)
    ensures v == Changeable(v) + Privileged(v)
  {
    LowFlags(v);
    HighFlags(v);
  }

  lemma LowFlags(v: Word)
    ensures v == v % 2 + v / 2 % 2 * 2 + v / 4 % 2 * 4 + v / 8 % 2 * 8 + v / 16 % 2 * 16 + v / 32 % 2 * 32 + v / 64 % 8 * 64
                 + v / 512 % 2 * 512 + v / 1024 * 1024
  {
    DivModUnique(v, 2, v / 2, v % 2);
    DivModUnique(v, 4, v / 2 / 2, 2 * (v / 2 % 2) + v % 2);
    DivModUnique(v, 8, v / 4 / 2, 4 * (v / 4 % 2) + v % 4);
    DivModUnique(v, 16, v / 8 / 2, 8 * (v / 8 % 2) + v % 8);
    DivModUnique(v, 32, v / 16 / 2, 16 * (v / 16 % 2) + v % 16);
    DivModUnique(v, 64, v / 32 / 2, 32 * (v / 32 % 2) + v % 32);
    DivModUnique(v, 512, v / 64 / 8, 64 * (v / 64 % 8) + v % 64);
    DivModUnique(v, 1024, v / 512 / 2, 512 * (v / 512 % 2) + v % 512);
  }

  lemma HighFlags(v: Word)
    ensures v / 1024 * 1024
            == v / 1024 % 4 * 1024 + v / 4096 % 4 * 4096 + v / 0x4000 % 2 * 0x4000 + v / 0x8000 % 2 * 0x8000
               + v / 0x1_0000 % 4 * 0x1_0000 + v / 0x4_0000 % 2 * 0x4_0000 + v / 0x8_0000 % 4 * 0x8_0000
               + v / 0x20_0000 % 2 * 0x20_0000 + v / 0x40_0000 * 0x40_0000
  {
    DivModUnique(v, 4096, v / 1024 / 4, 1024 * (v / 1024 % 4) + v % 1024);
    DivModUnique(v, 0x4000, v / 4096 / 4, 4096 * (v / 4096 % 4) + v % 4096);
    DivModUnique(v, 0x8000, v / 0x4000 / 2, 0x4000 * (v / 0x4000 % 2) + v % 0x4000);
    DivModUnique(v, 0x1_0000, v / 0x8000 / 2, 0x8000 * (v / 0x8000 % 2) + v % 0x8000);
    DivModUnique(v, 0x4_0000, v / 0x1_0000 / 4, 0x1_0000 * (v / 0x1_0000 % 4) + v % 0x1_0000);
    DivModUnique(v, 0x8_0000, v / 0x4_0000 / 2, 0x4_0000 * (v / 0x4_0000 % 2) + v % 0x4_0000);
    DivModUnique(v, 0x20_0000, v / 0x8_0000 / 4, 0x8_0000 * (v / 0x8_0000 % 4) + v % 0x8_0000);
    DivModUnique(v, 0x40_0000, v / 0x20_0000 / 2, 0x20_0000 * (v / 0x20_0000 % 2) + v % 0x20_0000);
  }

  /** Flags words that agree on the bits a program cannot change have the same privileged bits. */
  lemma PrivilegedByNumber(x: Word, y: Word)
    requires x / 2 % 2 == y / 2 % 2 && x / 8 % 2 == y / 8 % 2 && x / 32 % 2 == y / 32 % 2  // reserved
    requires x / 512 % 2 == y / 512 % 2 && x / 4096 % 4 == y / 4096 % 4  // IF, IOPL
    requires x / 0x8000 % 2 == y / 0x8000 % 2 && x / 0x1_0000 % 4 == y / 0x1_0000 % 4  // reserved, RF and VM
    requires x / 0x8_0000 % 4 == y / 0x8_0000 % 4 && x / 0x40_0000 == y / 0x40_0000  // VIF and VIP, reserved
    ensures SamePrivileged(x, y)
  {
    FlagsSplit(x);
    FlagsSplit(y);
    hide Changeable;
  }

  /** The flags that a popped word sets: CF, PF, ZF, SF and OF are its own, IF and IOPL are as they were. */
  lemma PoppedByNumber(was: Word, v: Word)
    ensures Popped(was, v) % 2 == v % 2 && Popped(was, v) / 4 % 2 == v / 4 % 2
    ensures Popped(was, v) / 64 % 8 == v / 64 % 8 && Popped(was, v) / 1024 % 4 == v / 1024 % 4
    ensures Popped(was, v) / 512 % 2 == was / 512 % 2 && Popped(was, v) / 4096 % 4 == was / 4096 % 4
  {
    hide Popped;
    PoppedIs(was, v);
    PoppedFields(Popped(was, v), v % 2, was / 2 % 2, v / 4 % 2, was / 8 % 2 + v / 16 % 2 * 2 + was / 32 % 2 * 4, v / 64 % 8,
                 was / 512 % 2, v / 1024 % 4, was / 4096 % 4, PoppedHigh(was, v));
  }

  /** Its bits from 14 on. */
  function PoppedHigh(was: Word, v: Word): int {
    v / 0x4000 % 2 + 2 * (was / 0x8000 % 2) + 4 * (was / 0x1_0000 % 4) + 16 * (v / 0x4_0000 % 2)
    + 32 * (was / 0x8_0000 % 4) + 128 * (v / 0x20_0000 % 2) + 256 * (was / 0x40_0000)
  }

  lemma PoppedIs(was: Word, v: Word)
    ensures Popped(was, v) == Privileged(was) + Changeable(v)
  {
    FlagsSplit(was);
    PoppedFits(was, v);
    hide Changeable, Privileged;
  }

  /** The sum that `popfq` leaves does not wrap. */
  lemma PoppedFits(was: Word, v: Word)
    ensures Privileged(was) + Changeable(v) < TWO64
  {
    ChangeableBound(v);
    PrivilegedBound(was);
    hide Changeable, Privileged;
    var h := was / 0x40_0000;
    assert h <= 0x3FF_FFFF_FFFF;
  }

  lemma ChangeableBound(v: Word)
    ensures Changeable(v) <= 0x24_4DD5
  {
    var b0, b2, b4, t6 := v % 2, v / 4 % 2, v / 16 % 2, v / 64 % 8;
    var t10, b14, b18, b21 := v / 1024 % 4, v / 0x4000 % 2, v / 0x4_0000 % 2, v / 0x20_0000 % 2;
    assert b0 <= 1 && b2 <= 1 && b4 <= 1 && t6 <= 7 && t10 <= 3 && b14 <= 1 && b18 <= 1 && b21 <= 1;
    assert Changeable(v) == b0 + b2 * 4 + b4 * 16 + t6 * 64 + t10 * 1024 + b14 * 0x4000 + b18 * 0x4_0000 + b21 * 0x20_0000;
  }

  lemma PrivilegedBound(v: Word)
    ensures Privileged(v) <= 0x1B_B22A + v / 0x40_0000 * 0x40_0000
  {
    var b1, b3, b5, b9 := v / 2 % 2, v / 8 % 2, v / 32 % 2, v / 512 % 2;
    var t12, b15, t16, t19 := v / 4096 % 4, v / 0x8000 % 2, v / 0x1_0000 % 4, v / 0x8_0000 % 4;
    assert b1 <= 1 && b3 <= 1 && b5 <= 1 && b9 <= 1 && t12 <= 3 && b15 <= 1 && t16 <= 3 && t19 <= 3;
    assert Privileged(v)
        == b1 * 2 + b3 * 8 + b5 * 32 + b9 * 512 + t12 * 4096 + b15 * 0x8000 + t16 * 0x1_0000 + t19 * 0x8_0000 + v / 0x40_0000 * 0x40_0000;
  }

  lemma PoppedFields(x: int, b0: int, b1: int, b2: int, u3: int, t6: int, b9: int, t10: int, t12: int, h: int)
    requires 0 <= b0 < 2 && 0 <= b1 < 2 && 0 <= b2 < 2 && 0 <= u3 < 8 && 0 <= t6 < 8 && 0 <= b9 < 2 && 0 <= t10 < 4 && 0 <= t12 < 4
    requires x == b0 + 2 * b1 + 4 * b2 + 8 * u3 + 64 * t6 + 512 * b9 + 1024 * t10 + 4096 * t12 + 0x4000 * h
    ensures x % 2 == b0 && x / 4 % 2 == b2 && x / 64 % 8 == t6 && x / 512 % 2 == b9 && x / 1024 % 4 == t10 && x / 4096 % 4 == t12
  {
    var h10 := t10 + 4 * (t12 + 4 * h);
    FieldAt(x, 1, 2, 0, b0, b1 + 2 * (b2 + 2 * (u3 + 8 * (t6 + 8 * (b9 + 2 * h10)))));
    FieldAt(x, 4, 2, b0 + 2 * b1, b2, u3 + 8 * (t6 + 8 * (b9 + 2 * h10)));
    FieldAt(x, 64, 8, b0 + 2 * b1 + 4 * b2 + 8 * u3, t6, b9 + 2 * h10);
    FieldAt(x, 512, 2, b0 + 2 * b1 + 4 * b2 + 8 * u3 + 64 * t6, b9, h10);
    FieldAt(x, 1024, 4, b0 + 2 * b1 + 4 * b2 + 8 * u3 + 64 * t6 + 512 * b9, t10, t12 + 4 * h);
    FieldAt(x, 4096, 4, b0 + 2 * b1 + 4 * b2 + 8 * u3 + 64 * t6 + 512 * b9 + 1024 * t10, t12, h);
  }

  /** The image that `pushfq` pushes: RF and VM are clear, and all else is as it was. */
  lemma ImageByNumber(v: Word)
    ensures Image(v) / 0x1_0000 % 4 == 0 && Image(v) % 0x1_0000 == v % 0x1_0000 && Image(v) / 0x4_0000 == v / 0x4_0000
  {
    DivModUnique(v, 0x1_0000, v / 0x1_0000, v % 0x1_0000);
    DivModUnique(v, 0x4_0000, v / 0x1_0000 / 4, 0x1_0000 * (v / 0x1_0000 % 4) + v % 0x1_0000);
    var low, high := v % 0x1_0000, v / 0x4_0000;
    assert Image(v) == low + 0x4_0000 * high;
    FieldAt(Image(v), 0x1_0000, 4, low, 0, high);
    DivModUnique(Image(v), 0x1_0000, 4 * high, low);
    DivModUnique(Image(v), 0x4_0000, high, low);
  }

  function PushWord(c: Core, v: Word): Core {
    var rsp := Wrap(c.regs[RSP] as int - 8);
    c.(regs := c.regs[RSP := rsp], mem := WriteWord(c.mem, rsp, v))
  }

  /** `pushfq` and `popfq` are `Push(RFLAGS)` and `Pop(RFLAGS)`. A pop into rsp keeps the popped value. */
  function Step(op: Op, c: Core): Core {
    match op
    case Move(dst, src) => c.(regs := Assign(c.regs, dst, c.regs[src]))
    case MoveImm(dst, v) => c.(regs := Assign(c.regs, dst, v))
    case StoreRax(a) => c.(mem := WriteWord(c.mem, a, c.regs[RAX]))
    case LoadRax(a) => c.(regs := c.regs[RAX := ReadWord(c.mem, a)])
    case Push(r) => PushWord(c, if r == RFLAGS then Image(c.regs[r]) else c.regs[r])
    case PushImm(v) => PushWord(c, v)
    case Pop(r) =>
      var v := ReadWord(c.mem, c.regs[RSP]);
      c.(regs := Assign(c.regs[RSP := Wrap(c.regs[RSP] as int + 8)], r, if r == RFLAGS then Popped(c.regs[r], v) else v))
    case JumpRax => c.(left := Some(c.regs[RAX]))
    case Return =>
      c.(regs := c.regs[RSP := Wrap(c.regs[RSP] as int + 8)], left := Some(ReadWord(c.mem, c.regs[RSP])))
  }

  function Run(ops: seq<Op>, c: Core): Core {
    if ops == [] || c.left.Some? then c else Run(ops[1..], Step(ops[0], c))
  }

  /** A segment register takes the low 16 bits of what is moved into it; any other register takes all 64. */
  lemma MoveByNumber(c: Core, r: Slot)
    ensures Step(Move(r, RAX), c).regs[r]
            == if r in {CS, SS, GS, ES, DS, FS} then c.regs[RAX] % 65536 else c.regs[RAX]
  {
  }

  lemma {:induction false} RunConcat(a: seq<Op>, b: seq<Op>, c: Core)
    ensures Run(a + b, c) == Run(b, Run(a, c))
  {
    hide Step;
    if a == [] {
      assert a + b == b;
    } else if c.left.None? {
      assert (a + b)[1..] == a[1..] + b;
      RunConcat(a[1..], b, Step(a[0], c));
    }
  }

  // ----- where things are -----

  /** Addresses the generated code is assembled with, and the two stubs: where they are, and their bytes. */
  datatype Layout = Layout(state: Word, hostRsp: Word, currHook: Word, binary: Word, dispatcher: Word,
                           dumpStub: Word, dumpCode: seq<Byte>, restoreStub: Word, restoreCode: seq<Byte>)

  predicate Separate(a: int, n: int, b: int, k: int) {
    a + n <= b || b + k <= a
  }

  /** The state structure, the two top words of the host stack and the hook cell do not overlap. */
  predicate WellPlaced(l: Layout) {
    && l.state + 8 * SLOTS <= TWO64 && 16 <= l.hostRsp && l.currHook + 8 <= TWO64
    && Separate(l.state, 8 * SLOTS, l.hostRsp - 16, 16)
    && Separate(l.state, 8 * SLOTS, l.currHook, 8)
    && Separate(l.hostRsp - 16, 16, l.currHook, 8)
  }

  /** The `n` bytes at `a` are apart from what the stubs write: the state structure and the top of the host stack. */
  predicate ApartFromWrites(l: Layout, a: Word, n: nat) {
    a + n <= TWO64 && Separate(l.state, 8 * SLOTS, a, n) && Separate(l.hostRsp - 16, 16, a, n)
  }

  /** Neither stub overwrites itself or the other. */
  predicate StubsApart(l: Layout) {
    ApartFromWrites(l, l.dumpStub, |l.dumpCode|) && ApartFromWrites(l, l.restoreStub, |l.restoreCode|)
  }

  /** Address of a register's field. */
  function At(l: Layout, r: Slot): Word
    requires WellPlaced(l)
  {
    l.state + 8 * r
  }

  /** The fields of `state_rtime_t`, by their offsets. */
  lemma FieldOffsets(l: Layout)
    requires WellPlaced(l)
    ensures At(l, RAX) == l.state && At(l, RBX) == l.state + 8 && At(l, RCX) == l.state + 16 && At(l, RDX) == l.state + 24
    ensures At(l, RSI) == l.state + 32 && At(l, RDI) == l.state + 40 && At(l, RBP) == l.state + 48 && At(l, RSP) == l.state + 56
    ensures At(l, RIP) == l.state + 64 && At(l, RFLAGS) == l.state + 72 && At(l, CS) == l.state + 80 && At(l, SS) == l.state + 88
    ensures At(l, GS) == l.state + 96 && At(l, ES) == l.state + 104 && At(l, DS) == l.state + 112 && At(l, FS) == l.state + 120
    ensures At(l, R8) == l.state + 128 && At(l, R9) == l.state + 136 && At(l, R10) == l.state + 144 && At(l, R11) == l.state + 152
    ensures At(l, R12) == l.state + 160 && At(l, R13) == l.state + 168 && At(l, R14) == l.state + 176 && At(l, R15) == l.state + 184
  {
  }

  // ----- the programs -----

  function SaveAll(l: Layout, rs: seq<Slot>): seq<Op>
    requires WellPlaced(l)
  {
    if rs == [] then [] else [Move(RAX, rs[0]), StoreRax(At(l, rs[0]))] + SaveAll(l, rs[1..])
  }

  function LoadAll(l: Layout, rs: seq<Slot>): seq<Op>
    requires WellPlaced(l)
  {
    if rs == [] then [] else [LoadRax(At(l, rs[0])), Move(rs[0], RAX)] + LoadAll(l, rs[1..])
  }

  const SAVED: seq<Slot> :=
    [RBX, RCX, RDX, RSI, RDI, RBP, ES, GS, FS, CS, SS, DS, R8, R9, R10, R11, R12, R13, R14, R15]

  const RESTORED: seq<Slot> :=
    [RBX, RCX, RDX, RDI, RSI, RBP, ES, SS, DS, R8, R9, R10, R11, R12, R13, R14, R15]

  /** The trampoline written over the branch. */
  function DumpHook(l: Layout): seq<Op>
    requires WellPlaced(l)
  {
    [StoreRax(At(l, RAX)), MoveImm(RAX, l.dumpStub), JumpRax]
  }

  function DumpHead(l: Layout): seq<Op>
    requires WellPlaced(l)
  {
    [Move(RAX, RSP), StoreRax(At(l, RSP)), MoveImm(RSP, l.hostRsp),
     Push(RFLAGS), Pop(RAX), StoreRax(At(l, RFLAGS))]
  }

  function DumpTail(l: Layout): seq<Op>
    requires WellPlaced(l)
  {
    [MoveImm(RDI, l.binary), MoveImm(RAX, l.dispatcher), PushImm(0), Push(RAX),
     LoadRax(l.currHook), StoreRax(At(l, RIP)), Return]
  }

  function DumpStub(l: Layout): seq<Op>
    requires WellPlaced(l)
  {
    DumpHead(l) + SaveAll(l, SAVED) + DumpTail(l)
  }

  /** rflags and rsp are loaded by way of the stack the stub runs on. */
  function RestorePops(l: Layout): seq<Op>
    requires WellPlaced(l)
  {
    [LoadRax(At(l, RSP)), Push(RAX), LoadRax(At(l, RFLAGS)), Push(RAX), Pop(RFLAGS), Pop(RSP)]
  }

  function JumpToRip(l: Layout): seq<Op>
    requires WellPlaced(l)
  {
    [LoadRax(At(l, RIP)), JumpRax]
  }

  function RestoreProgram(l: Layout, rs: seq<Slot>): seq<Op>
    requires WellPlaced(l)
  {
    LoadAll(l, rs) + RestorePops(l) + JumpToRip(l)
  }

  function RestoreStub(l: Layout): seq<Op>
    requires WellPlaced(l)
  {
    RestoreProgram(l, RESTORED)
  }

  /** The patch before the block, which the restore stub jumps to. */
  function RestoreHook(l: Layout): seq<Op>
    requires WellPlaced(l)
  {
    [LoadRax(At(l, RAX))]
  }

  // ----- words in memory -----

  lemma WordKept(m: Memory, a: Word, b: Word, v: Word)
    requires a + 8 <= TWO64 && b + 8 <= TWO64 && Separate(a, 8, b, 8)
    ensures ReadWord(WriteWord(m, b, v), a) == ReadWord(m, a)
  {
    hide ReadWord, WriteWord;
    forall i: Word | Covers(a, 8, i)
      ensures !Covers(b, 8, i)
    {
      assert Within(i, a, 8);
    }
    ReadOtherWord(m, a, b, v);
  }

  /** Every byte outside [lo, lo + n) is the same in both memories. */
  ghost predicate SameOutside(m: Memory, m': Memory, lo: int, n: int) {
    forall i :: 0 <= i < TWO64 && !Within(i, lo, n) ==> m'[i] == m[i]
  }

  lemma WriteIsLocal(m: Memory, a: Word, v: Word, lo: int, n: int)
    requires lo <= a && a + 8 <= lo + n && a + 8 <= TWO64
    ensures SameOutside(m, WriteWord(m, a, v), lo, n)
  {
    StoreAll(m, a, ToBytes(v, 8));
  }

  lemma WordOutside(m: Memory, m': Memory, a: Word, lo: int, n: int)
    requires SameOutside(m, m', lo, n) && a + 8 <= TWO64 && Separate(a, 8, lo, n)
    ensures ReadWord(m', a) == ReadWord(m, a)
  {
    forall i | 0 <= i < 8
      ensures Load(m', a, 8)[i] == Load(m, a, 8)[i]
    {
      LoadAt(m, a, 8, i);
      LoadAt(m', a, 8, i);
    }
    assert Load(m', a, 8) == Load(m, a, 8);
  }

  /** The words of the state structure. */
  function Fields(l: Layout, m: Memory): Regs
    requires WellPlaced(l)
  {
    seq(SLOTS, i requires 0 <= i < SLOTS => ReadWord(m, At(l, i)))
  }

  lemma FieldWritten(l: Layout, m: Memory, i: Slot, v: Word)
    requires WellPlaced(l)
    ensures Fields(l, WriteWord(m, At(l, i), v)) == Fields(l, m)[i := v]
    ensures SameOutside(m, WriteWord(m, At(l, i), v), l.state, 8 * SLOTS)
  {
    hide ReadWord, WriteWord, SameOutside;
    var m' := WriteWord(m, At(l, i), v);
    WriteIsLocal(m, At(l, i), v, l.state, 8 * SLOTS);
    forall j | 0 <= j < SLOTS
      ensures Fields(l, m')[j] == Fields(l, m)[i := v][j]
    {
      if j == i {
        ReadWrittenWord(m, At(l, i), v);
      } else {
        WordKept(m, At(l, j), At(l, i), v);
      }
    }
  }

  lemma FieldsOutside(l: Layout, m: Memory, m': Memory, lo: int, n: int)
    requires WellPlaced(l) && SameOutside(m, m', lo, n) && Separate(l.state, 8 * SLOTS, lo, n)
    ensures Fields(l, m') == Fields(l, m)
  {
    hide ReadWord, SameOutside;
    forall j | 0 <= j < SLOTS
      ensures Fields(l, m')[j] == Fields(l, m)[j]
    {
      WordOutside(m, m', At(l, j), lo, n);
    }
  }

  // ----- saving and loading a list of registers -----

  /** The fields after the registers of `rs` are stored one after the other. */
  function SaveInto(fs: seq<Word>, regs: Regs, rs: seq<Slot>): (fs': seq<Word>)
    requires |fs| == SLOTS
    ensures |fs'| == SLOTS
    decreases |rs|
  {
    if rs == [] then fs else SaveInto(fs[rs[0] := regs[rs[0]]], regs, rs[1..])
  }

  lemma {:induction false} SaveIntoAt(fs: seq<Word>, regs: Regs, rs: seq<Slot>, r: Slot)
    requires |fs| == SLOTS && (r in rs || fs[r] == regs[r])
    ensures SaveInto(fs, regs, rs)[r] == regs[r]
    decreases |rs|
  {
    if rs != [] {
      SaveIntoAt(fs[rs[0] := regs[rs[0]]], regs, rs[1..], r);
    }
  }

  /** From `c` to `d` the registers of `rs` went to their fields; only rax, as scratch, and the state
      structure changed. */
  ghost predicate Saves(l: Layout, rs: seq<Slot>, c: Core, d: Core)
    requires WellPlaced(l)
  {
    && d.left.None? && d.regs == c.regs[RAX := d.regs[RAX]]
    && SameOutside(c.mem, d.mem, l.state, 8 * SLOTS)
    && Fields(l, d.mem) == SaveInto(Fields(l, c.mem), c.regs, rs)
  }

  lemma SaveOne(l: Layout, r: Slot, c: Core)
    requires WellPlaced(l) && c.left.None? && r != RAX
    ensures var c' := Step(StoreRax(At(l, r)), Step(Move(RAX, r), c));
      && c'.left.None? && c'.regs == c.regs[RAX := c'.regs[RAX]]
      && SameOutside(c.mem, c'.mem, l.state, 8 * SLOTS)
      && Fields(l, c'.mem) == Fields(l, c.mem)[r := c.regs[r]]
  {
    hide Fields, SameOutside, WriteWord;
    FieldWritten(l, c.mem, r, c.regs[r]);
  }

  lemma {:induction false} SaveIntoSameRegs(fs: seq<Word>, regs: Regs, x: Word, rs: seq<Slot>)
    requires |fs| == SLOTS && RAX !in rs
    ensures SaveInto(fs, regs[RAX := x], rs) == SaveInto(fs, regs, rs)
    decreases |rs|
  {
    if rs != [] {
      SaveIntoSameRegs(fs[rs[0] := regs[rs[0]]], regs, x, rs[1..]);
    }
  }

  lemma {:induction false} SaveAllSaves(l: Layout, rs: seq<Slot>, c: Core)
    requires WellPlaced(l) && c.left.None? && RAX !in rs
    ensures Saves(l, rs, c, Run(SaveAll(l, rs), c))
    decreases |rs|
  {
    if rs != [] {
      hide Fields, Step, At;
      var r := rs[0];
      var c' := Step(StoreRax(At(l, r)), Step(Move(RAX, r), c));
      SaveOne(l, r, c);
      RunPair(SaveAll(l, rs), c);
      assert SaveAll(l, rs)[2..] == SaveAll(l, rs[1..]);
      SaveAllSaves(l, rs[1..], c');
      SaveIntoSameRegs(Fields(l, c'.mem), c.regs, c'.regs[RAX], rs[1..]);
    }
  }

  lemma StaysInside(op: Op, c: Core)
    requires !op.JumpRax? && !op.Return?
    ensures Step(op, c).left == c.left
  {
  }

  // ----- the dump stub -----

  /** Nothing changed but the state structure and the two top words of the host stack. */
  ghost predicate OnlyHost(l: Layout, m: Memory, m': Memory) {
    forall i :: 0 <= i < TWO64 && !Within(i, l.state, 8 * SLOTS) && !Within(i, l.hostRsp - 16, 16) ==> m'[i] == m[i]
  }

  lemma FieldIsHost(l: Layout, m: Memory, m': Memory)
    requires SameOutside(m, m', l.state, 8 * SLOTS)
    ensures OnlyHost(l, m, m')
  {
  }

  lemma HookCellKept(l: Layout, m: Memory, m': Memory)
    requires WellPlaced(l) && OnlyHost(l, m, m')
    ensures ReadWord(m', l.currHook) == ReadWord(m, l.currHook)
  {
    forall i | 0 <= i < 8
      ensures Load(m', l.currHook, 8)[i] == Load(m, l.currHook, 8)[i]
    {
      LoadAt(m, l.currHook, 8, i);
      LoadAt(m', l.currHook, 8, i);
    }
    assert Load(m', l.currHook, 8) == Load(m, l.currHook, 8);
  }

  /** A word written to the top of the host stack reads back and disturbs no field. */
  lemma StackWritten(l: Layout, m: Memory, a: Word, v: Word)
    requires WellPlaced(l) && l.hostRsp - 16 <= a <= l.hostRsp - 8
    ensures ReadWord(WriteWord(m, a, v), a) == v
    ensures Fields(l, WriteWord(m, a, v)) == Fields(l, m) && OnlyHost(l, m, WriteWord(m, a, v))
  {
    hide ReadWord, WriteWord, Fields;
    ReadWrittenWord(m, a, v);
    WriteIsLocal(m, a, v, l.hostRsp - 16, 16);
    FieldsOutside(l, m, WriteWord(m, a, v), l.hostRsp - 16, 16);
  }

  /** Memory after the head of the dump stub: rsp and rflags saved, the latter by way of the stack. */
  function HeadMemory(l: Layout, m: Memory, rsp: Word, flags: Word): Memory
    requires WellPlaced(l)
  {
    WriteWord(WriteWord(WriteWord(m, At(l, RSP), rsp), l.hostRsp - 8, flags), At(l, RFLAGS), flags)
  }

  lemma HeadMemoryIs(l: Layout, m: Memory, rsp: Word, flags: Word)
    requires WellPlaced(l)
    ensures Fields(l, HeadMemory(l, m, rsp, flags)) == Fields(l, m)[RSP := rsp][RFLAGS := flags]
    ensures OnlyHost(l, m, HeadMemory(l, m, rsp, flags))
    ensures ReadWord(WriteWord(WriteWord(m, At(l, RSP), rsp), l.hostRsp - 8, flags), l.hostRsp - 8) == flags
  {
    hide ReadWord, WriteWord, Fields, OnlyHost;
    var m1 := WriteWord(m, At(l, RSP), rsp);
    var m2 := WriteWord(m1, l.hostRsp - 8, flags);
    FieldWritten(l, m, RSP, rsp);
    StackWritten(l, m1, l.hostRsp - 8, flags);
    FieldWritten(l, m2, RFLAGS, flags);
    FieldIsHost(l, m, m1);
    FieldIsHost(l, m2, HeadMemory(l, m, rsp, flags));
    OnlyHostTrans(l, m, m1, m2);
    OnlyHostTrans(l, m, m2, HeadMemory(l, m, rsp, flags));
  }

  lemma SaveRspSteps(l: Layout, c: Core)
    requires WellPlaced(l)
    ensures Step(StoreRax(At(l, RSP)), Step(Move(RAX, RSP), c))
            == c.(regs := c.regs[RAX := c.regs[RSP]], mem := WriteWord(c.mem, At(l, RSP), c.regs[RSP]))
  {
    hide WriteWord, At;
  }

  lemma PushFlagsSteps(l: Layout, c: Core)
    requires WellPlaced(l)
    ensures Step(Push(RFLAGS), Step(MoveImm(RSP, l.hostRsp), c))
            == c.(regs := c.regs[RSP := l.hostRsp - 8], mem := WriteWord(c.mem, l.hostRsp - 8, Image(c.regs[RFLAGS])))
  {
    hide WriteWord, Image;
    assert Step(MoveImm(RSP, l.hostRsp), c).regs == c.regs[RSP := l.hostRsp];
    assert c.regs[RSP := l.hostRsp][RSP := l.hostRsp - 8] == c.regs[RSP := l.hostRsp - 8];
  }

  lemma SaveFlagsSteps(l: Layout, c: Core, flags: Word)
    requires WellPlaced(l) && c.regs[RSP] == l.hostRsp - 8 && ReadWord(c.mem, l.hostRsp - 8) == flags
    ensures Step(StoreRax(At(l, RFLAGS)), Step(Pop(RAX), c))
            == c.(regs := c.regs[RSP := l.hostRsp][RAX := flags], mem := WriteWord(c.mem, At(l, RFLAGS), flags))
  {
    hide WriteWord, ReadWord, At;
    assert Step(Pop(RAX), c).regs == c.regs[RSP := l.hostRsp][RAX := flags];
  }

  lemma DumpHeadSteps(l: Layout, c: Core)
    requires WellPlaced(l) && c.left.None?
    ensures var d := Run(DumpHead(l), c);
      && d.left.None? && d.regs == c.regs[RAX := Image(c.regs[RFLAGS])][RSP := l.hostRsp]
      && d.mem == HeadMemory(l, c.mem, c.regs[RSP], Image(c.regs[RFLAGS]))
  {
    hide ReadWord, WriteWord, Fields, OnlyHost, At, Step, Run, Image;
    var ops := DumpHead(l);
    var flags := Image(c.regs[RFLAGS]);
    HeadMemoryIs(l, c.mem, c.regs[RSP], flags);
    RunSix(ops, c);
    SaveRspSteps(l, c);
    var c1 := Step(ops[1], Step(ops[0], c));
    PushFlagsSteps(l, c1);
    var c2 := Step(ops[3], Step(ops[2], c1));
    SaveFlagsSteps(l, c2, flags);
    ScratchOverwritten(c.regs, c.regs[RSP], l.hostRsp - 8, l.hostRsp, flags);
  }

  lemma ScratchOverwritten(regs: Regs, a: Word, b: Word, b': Word, a': Word)
    ensures regs[RAX := a][RSP := b][RSP := b'][RAX := a'] == regs[RAX := a'][RSP := b']
  {
  }

  lemma RunSix(ops: seq<Op>, c: Core)
    requires |ops| == 6 && c.left.None? && forall i :: 0 <= i < 6 ==> !ops[i].JumpRax? && !ops[i].Return?
    ensures Run(ops, c) == Step(ops[5], Step(ops[4], Step(ops[3], Step(ops[2], Step(ops[1], Step(ops[0], c))))))
  {
    hide Step, Run;
    var c1 := Step(ops[1], Step(ops[0], c));
    var c2 := Step(ops[3], Step(ops[2], c1));
    StaysInside(ops[0], c);
    StaysInside(ops[1], Step(ops[0], c));
    StaysInside(ops[2], c1);
    StaysInside(ops[3], Step(ops[2], c1));
    RunPair(ops, c);
    RunPair(ops[2..], c1);
    RunPair(ops[4..], c2);
    assert ops[2..][2..] == ops[4..] && ops[4..][2..] == [];
    RunNothing(Step(ops[5], Step(ops[4], c2)));
  }

  lemma RunNothing(c: Core)
    ensures Run([], c) == c
  {
  }

  lemma RunPair(ops: seq<Op>, c: Core)
    requires |ops| >= 2 && c.left.None? && !ops[0].JumpRax? && !ops[0].Return?
    ensures Run(ops, c) == Run(ops[2..], Step(ops[1], Step(ops[0], c)))
  {
    StaysInside(ops[0], c);
    hide Step;
    assert ops[1..][1..] == ops[2..];
  }

  lemma OnlyHostTrans(l: Layout, m: Memory, m': Memory, m'': Memory)
    requires OnlyHost(l, m, m') && OnlyHost(l, m', m'')
    ensures OnlyHost(l, m, m'')
  {
  }

  /** Memory after the tail: the dispatcher's address on the host stack, the hook's address as rip. */
  function TailMemory(l: Layout, m: Memory): Memory
    requires WellPlaced(l)
  {
    var m2 := WriteWord(WriteWord(m, l.hostRsp - 8, 0), l.hostRsp - 16, l.dispatcher);
    WriteWord(m2, At(l, RIP), ReadWord(m2, l.currHook))
  }

  lemma TailMemoryIs(l: Layout, m: Memory)
    requires WellPlaced(l)
    ensures Fields(l, TailMemory(l, m)) == Fields(l, m)[RIP := ReadWord(m, l.currHook)]
    ensures OnlyHost(l, m, TailMemory(l, m))
    ensures ReadWord(TailMemory(l, m), l.hostRsp - 16) == l.dispatcher
  {
    hide ReadWord, WriteWord, Fields, OnlyHost;
    var m1 := WriteWord(m, l.hostRsp - 8, 0);
    var m2 := WriteWord(m1, l.hostRsp - 16, l.dispatcher);
    var hook := ReadWord(m2, l.currHook);
    StackWritten(l, m, l.hostRsp - 8, 0);
    StackWritten(l, m1, l.hostRsp - 16, l.dispatcher);
    OnlyHostTrans(l, m, m1, m2);
    HookCellKept(l, m, m2);
    FieldWritten(l, m2, RIP, hook);
    FieldIsHost(l, m2, TailMemory(l, m));
    OnlyHostTrans(l, m, m2, TailMemory(l, m));
    WordKept(m2, l.hostRsp - 16, At(l, RIP), hook);
  }

  lemma CallSteps(l: Layout, c: Core)
    requires WellPlaced(l)
    ensures var d := Step(MoveImm(RAX, l.dispatcher), Step(MoveImm(RDI, l.binary), c));
      d.mem == c.mem && d.regs[RSP] == c.regs[RSP] && d.regs[RAX] == l.dispatcher && d.regs[RDI] == l.binary
  {
  }

  lemma PushCallSteps(l: Layout, c: Core)
    requires WellPlaced(l) && c.regs[RSP] == l.hostRsp
    ensures var d := Step(Push(RAX), Step(PushImm(0), c));
      && d.mem == WriteWord(WriteWord(c.mem, l.hostRsp - 8, 0), l.hostRsp - 16, c.regs[RAX])
      && d.regs[RSP] == l.hostRsp - 16 && d.regs[RDI] == c.regs[RDI]
  {
    hide WriteWord;
    assert Step(PushImm(0), c).regs == c.regs[RSP := l.hostRsp - 8];
  }

  lemma SaveRipSteps(l: Layout, c: Core)
    requires WellPlaced(l)
    ensures var d := Step(StoreRax(At(l, RIP)), Step(LoadRax(l.currHook), c));
      && d.mem == WriteWord(c.mem, At(l, RIP), ReadWord(c.mem, l.currHook))
      && d.regs[RSP] == c.regs[RSP] && d.regs[RDI] == c.regs[RDI] && d.left == c.left
  {
    hide WriteWord, ReadWord;
  }

  lemma DumpTailSteps(l: Layout, c: Core)
    requires WellPlaced(l) && c.left.None? && c.regs[RSP] == l.hostRsp
    ensures var d := Run(DumpTail(l), c);
      && d.left == Some(l.dispatcher) && d.regs[RDI] == l.binary && d.regs[RSP] == l.hostRsp - 8
      && d.mem == TailMemory(l, c.mem)
  {
    hide ReadWord, WriteWord, Fields, OnlyHost, Step, Run;
    var ops := DumpTail(l);
    var six := ops[..6];
    assert ops == six + [Return];
    RunConcat(six, [Return], c);
    RunSix(six, c);
    CallSteps(l, c);
    var c1 := Step(six[1], Step(six[0], c));
    PushCallSteps(l, c1);
    var c2 := Step(six[3], Step(six[2], c1));
    SaveRipSteps(l, c2);
    var c3 := Step(six[5], Step(six[4], c2));
    TailMemoryIs(l, c.mem);
    SixStay(six, c);
    ReturnSteps(c3);
  }

  lemma SixStay(ops: seq<Op>, c: Core)
    requires |ops| == 6 && c.left.None? && forall i :: 0 <= i < 6 ==> !ops[i].JumpRax? && !ops[i].Return?
    ensures Run(ops, c).left.None?
  {
    hide Step;
    RunSix(ops, c);
    StaysInside(ops[0], c);
    StaysInside(ops[1], Step(ops[0], c));
    StaysInside(ops[2], Step(ops[1], Step(ops[0], c)));
    StaysInside(ops[3], Step(ops[2], Step(ops[1], Step(ops[0], c))));
    StaysInside(ops[4], Step(ops[3], Step(ops[2], Step(ops[1], Step(ops[0], c)))));
    StaysInside(ops[5], Step(ops[4], Step(ops[3], Step(ops[2], Step(ops[1], Step(ops[0], c))))));
  }

  lemma ReturnSteps(c: Core)
    requires c.left.None?
    ensures var d := Run([Return], c);
      && d.left == Some(ReadWord(c.mem, c.regs[RSP])) && d.mem == c.mem
      && d.regs[RSP] == Wrap(c.regs[RSP] as int + 8) && d.regs[RDI] == c.regs[RDI]
  {
    hide ReadWord;
    assert Run([Return], c) == Run([], Step(Return, c));
  }

  /** What happens when guest control reaches the trampoline: the hook jumps to the dump stub, which
      returns into the dispatcher. */
  function Dump(l: Layout, c: Core): Core
    requires WellPlaced(l)
  {
    Run(DumpStub(l), Run(DumpHook(l), c).(left := None))
  }

  lemma DumpHookSteps(l: Layout, c: Core)
    requires WellPlaced(l) && c.left.None?
    ensures var h := Run(DumpHook(l), c);
      && h.left == Some(l.dumpStub) && h.regs == c.regs[RAX := l.dumpStub]
      && h.mem == WriteWord(c.mem, At(l, RAX), c.regs[RAX])
  {
    hide WriteWord, At;
    var ops := DumpHook(l);
    RunPair(ops, c);
    var c2 := Step(ops[1], Step(ops[0], c));
    assert ops[2..] == [JumpRax];
    assert Run([JumpRax], c2) == Run([], Step(JumpRax, c2));
  }

  /** The three parts of the stub, one after the other. */
  lemma DumpStubParts(l: Layout, h: Core)
    requires WellPlaced(l)
    ensures Run(DumpStub(l), h) == Run(DumpTail(l), Run(SaveAll(l, SAVED), Run(DumpHead(l), h)))
  {
    hide Run, Step, SaveAll;
    RunConcat(DumpHead(l) + SaveAll(l, SAVED), DumpTail(l), h);
    RunConcat(DumpHead(l), SaveAll(l, SAVED), h);
  }

  lemma {:induction false} SaveIntoAgrees(fs: seq<Word>, regs: Regs, regs': Regs, rs: seq<Slot>)
    requires |fs| == SLOTS && forall r :: r in rs ==> regs[r] == regs'[r]
    ensures SaveInto(fs, regs, rs) == SaveInto(fs, regs', rs)
    decreases |rs|
  {
    if rs != [] {
      SaveIntoAgrees(fs[rs[0] := regs[rs[0]]], regs, regs', rs[1..]);
    }
  }

  /** The fields of the state structure after a dump. */
  function DumpedFields(l: Layout, c: Core): seq<Word>
    requires WellPlaced(l)
  {
    var fs := Fields(l, c.mem)[RAX := c.regs[RAX]];
    var fs' := fs[RSP := c.regs[RSP]][RFLAGS := Image(c.regs[RFLAGS])];
    SaveInto(fs', c.regs, SAVED)[RIP := ReadWord(c.mem, l.currHook)]
  }

  lemma DumpRuns(l: Layout, c: Core)
    requires WellPlaced(l) && c.left.None?
    ensures var d := Dump(l, c);
      && d.left == Some(l.dispatcher) && d.regs[RDI] == l.binary && d.regs[RSP] == l.hostRsp - 8
      && OnlyHost(l, c.mem, d.mem) && Fields(l, d.mem) == DumpedFields(l, c)
  {
    hide ReadWord, WriteWord, Fields, OnlyHost, Step, Run, SaveInto, SameOutside, Image;
    var h := Run(DumpHook(l), c).(left := None);
    DumpHookSteps(l, c);
    FieldWritten(l, c.mem, RAX, c.regs[RAX]);
    FieldIsHost(l, c.mem, h.mem);
    DumpStubParts(l, h);
    var c1 := Run(DumpHead(l), h);
    DumpHeadSteps(l, h);
    HeadMemoryIs(l, h.mem, h.regs[RSP], Image(h.regs[RFLAGS]));
    var c2 := Run(SaveAll(l, SAVED), c1);
    SaveAllSaves(l, SAVED, c1);
    SaveIntoAgrees(Fields(l, c1.mem), c1.regs, c.regs, SAVED);
    FieldIsHost(l, c1.mem, c2.mem);
    DumpTailSteps(l, c2);
    TailMemoryIs(l, c2.mem);
    OnlyHostTrans(l, c.mem, h.mem, c1.mem);
    OnlyHostTrans(l, c.mem, c1.mem, c2.mem);
    OnlyHostTrans(l, c.mem, c2.mem, Dump(l, c).mem);
    HookCellKept(l, c.mem, c2.mem);
  }

  lemma SavedOrNot(r: Slot)
    ensures r in SAVED || r == RAX || r == RSP || r == RFLAGS || r == RIP
  {
    assert SAVED[0] == RBX && SAVED[1] == RCX && SAVED[2] == RDX && SAVED[3] == RSI && SAVED[4] == RDI && SAVED[5] == RBP;
    assert SAVED[6] == ES && SAVED[7] == GS && SAVED[8] == FS && SAVED[9] == CS && SAVED[10] == SS && SAVED[11] == DS;
    assert SAVED[12] == R8 && SAVED[13] == R9 && SAVED[14] == R10 && SAVED[15] == R11 && SAVED[16] == R12 && SAVED[17] == R13;
    assert SAVED[18] == R14 && SAVED[19] == R15;
  }

  /** What the structure holds of a register after a dump. */
  function Saved(regs: Regs, r: Slot): Word {
    if r == RFLAGS then Image(regs[r]) else regs[r]
  }

  lemma DumpedFieldsAt(l: Layout, c: Core, r: Slot)
    requires WellPlaced(l) && r != RIP
    ensures DumpedFields(l, c)[r] == Saved(c.regs, r)
  {
    hide ReadWord, Fields, SaveInto, Image;
    SavedOrNot(r);
    FlagsNotSaved();
    ThreeThenSaved(Fields(l, c.mem), c.regs, SAVED, r);
  }

  lemma FlagsNotSaved()
    ensures RFLAGS !in SAVED
  {
  }

  lemma ThreeThenSaved(fs: seq<Word>, regs: Regs, rs: seq<Slot>, r: Slot)
    requires |fs| == SLOTS && (r in rs || r == RAX || r == RSP || r == RFLAGS) && RFLAGS !in rs
    ensures SaveInto(fs[RAX := regs[RAX]][RSP := regs[RSP]][RFLAGS := Image(regs[RFLAGS])], regs, rs)[r]
            == Saved(regs, r)
  {
    hide SaveInto, Image;
    var fs' := fs[RAX := regs[RAX]][RSP := regs[RSP]][RFLAGS := Image(regs[RFLAGS])];
    if r == RFLAGS {
      SaveIntoKeeps(fs', regs, rs, r);
    } else {
      SaveIntoAt(fs', regs, rs, r);
    }
  }

  lemma {:induction false} SaveIntoKeeps(fs: seq<Word>, regs: Regs, rs: seq<Slot>, r: Slot)
    requires |fs| == SLOTS && r !in rs
    ensures SaveInto(fs, regs, rs)[r] == fs[r]
    decreases |rs|
  {
    if rs != [] {
      SaveIntoKeeps(fs[rs[0] := regs[rs[0]]], regs, rs[1..], r);
    }
  }

  /** The dump stub saves every register, the flags as `pushfq` shows them, and the address of the hook as rip. It
      writes nothing but the state structure and the top of the host stack, so the guest's own stack stays as it
      was. */
  lemma DumpSaves(l: Layout, c: Core, r: Slot)
    requires WellPlaced(l) && c.left.None? && r != RIP
    ensures var d := Dump(l, c);
      && Fields(l, d.mem)[r] == Saved(c.regs, r)
      && Fields(l, d.mem)[RIP] == ReadWord(c.mem, l.currHook)
      && OnlyHost(l, c.mem, d.mem)
      && d.left == Some(l.dispatcher) && d.regs[RDI] == l.binary && d.regs[RSP] == l.hostRsp - 8
  {
    hide ReadWord, Fields, OnlyHost, Dump, SaveInto, Saved, Image;
    DumpRuns(l, c);
    DumpedFieldsAt(l, c, r);
  }

  // ----- the restore stub -----

  /** The registers after those of `rs` are loaded one after the other, by way of rax. */
  function LoadInto(fs: seq<Word>, regs: Regs, rs: seq<Slot>): Regs
    requires |fs| == SLOTS
    decreases |rs|
  {
    if rs == [] then regs
    else
      var v := fs[rs[0]];
      LoadInto(fs, Assign(regs[RAX := v], rs[0], v), rs[1..])
  }

  /** What a register holds once `v` is loaded into it. */
  function Loaded(r: Slot, v: Word): Word {
    if Selector(r) then v % 0x1_0000 else v
  }

  lemma {:induction false} LoadIntoAt(fs: seq<Word>, regs: Regs, rs: seq<Slot>, r: Slot)
    requires |fs| == SLOTS && r != RAX
    ensures r !in rs ==> LoadInto(fs, regs, rs)[r] == regs[r]
    ensures r in rs || regs[r] == Loaded(r, fs[r]) ==> LoadInto(fs, regs, rs)[r] == Loaded(r, fs[r])
    decreases |rs|
  {
    if rs != [] {
      hide Selector;
      var v := fs[rs[0]];
      LoadIntoAt(fs, Assign(regs[RAX := v], rs[0], v), rs[1..], r);
    }
  }

  lemma LoadOne(l: Layout, r: Slot, c: Core)
    requires WellPlaced(l)
    ensures Step(Move(r, RAX), Step(LoadRax(At(l, r)), c))
            == c.(regs := Assign(c.regs[RAX := Fields(l, c.mem)[r]], r, Fields(l, c.mem)[r]))
  {
    hide ReadWord;
    assert Fields(l, c.mem)[r] == ReadWord(c.mem, At(l, r));
  }

  lemma {:induction false} LoadAllLoads(l: Layout, rs: seq<Slot>, c: Core)
    requires WellPlaced(l) && c.left.None?
    ensures Run(LoadAll(l, rs), c) == c.(regs := LoadInto(Fields(l, c.mem), c.regs, rs))
    decreases |rs|
  {
    if rs != [] {
      hide Fields, Step, At, Assign;
      var c' := Step(Move(rs[0], RAX), Step(LoadRax(At(l, rs[0])), c));
      LoadOne(l, rs[0], c);
      RunPair(LoadAll(l, rs), c);
      assert LoadAll(l, rs)[2..] == LoadAll(l, rs[1..]);
      LoadAllLoads(l, rs[1..], c');
    }
  }

  /** The stack the restore stub runs on lies apart from the state structure. */
  predicate OnHostStack(l: Layout, rsp: Word) {
    16 <= rsp && Separate(l.state, 8 * SLOTS, rsp - 16, 16)
  }

  function RestoreMemory(m: Memory, rsp: Word, v: Word, flags: Word): Memory
    requires 16 <= rsp
  {
    WriteWord(WriteWord(m, rsp - 8, v), rsp - 16, flags)
  }

  lemma RestoreMemoryIs(l: Layout, m: Memory, rsp: Word, v: Word, flags: Word)
    requires WellPlaced(l) && OnHostStack(l, rsp)
    ensures Fields(l, WriteWord(m, rsp - 8, v)) == Fields(l, m)
    ensures Fields(l, RestoreMemory(m, rsp, v, flags)) == Fields(l, m)
    ensures SameOutside(m, RestoreMemory(m, rsp, v, flags), rsp - 16, 16)
    ensures ReadWord(RestoreMemory(m, rsp, v, flags), rsp - 16) == flags
    ensures ReadWord(RestoreMemory(m, rsp, v, flags), rsp - 8) == v
  {
    hide ReadWord, WriteWord, Fields;
    var m1 := WriteWord(m, rsp - 8, v);
    WriteIsLocal(m, rsp - 8, v, rsp - 16, 16);
    WriteIsLocal(m1, rsp - 16, flags, rsp - 16, 16);
    FieldsOutside(l, m, m1, rsp - 16, 16);
    FieldsOutside(l, m, RestoreMemory(m, rsp, v, flags), rsp - 16, 16);
    ReadWrittenWord(m, rsp - 8, v);
    ReadWrittenWord(m1, rsp - 16, flags);
    WordKept(m1, rsp - 8, rsp - 16, flags);
  }

  lemma PushFieldSteps(l: Layout, r: Slot, c: Core)
    requires WellPlaced(l) && 8 <= c.regs[RSP]
    ensures var v := Fields(l, c.mem)[r];
      Step(Push(RAX), Step(LoadRax(At(l, r)), c))
      == c.(regs := c.regs[RAX := v][RSP := c.regs[RSP] - 8], mem := WriteWord(c.mem, c.regs[RSP] - 8, v))
  {
    hide ReadWord, WriteWord;
    assert Fields(l, c.mem)[r] == ReadWord(c.mem, At(l, r));
  }

  lemma PopPairSteps(c: Core, v: Word, flags: Word)
    requires c.regs[RSP] + 16 < TWO64
    requires ReadWord(c.mem, c.regs[RSP]) == flags && ReadWord(c.mem, c.regs[RSP] + 8) == v
    ensures var d := Step(Pop(RSP), Step(Pop(RFLAGS), c));
      d.mem == c.mem && d.left == c.left && d.regs == c.regs[RFLAGS := Popped(c.regs[RFLAGS], flags)][RSP := v]
  {
    hide ReadWord, Popped;
    assert Step(Pop(RFLAGS), c).regs == c.regs[RSP := c.regs[RSP] + 8][RFLAGS := Popped(c.regs[RFLAGS], flags)];
  }

  lemma JumpToRipSteps(l: Layout, c: Core)
    requires WellPlaced(l) && c.left.None?
    ensures var rip := Fields(l, c.mem)[RIP];
      Run(JumpToRip(l), c) == c.(regs := c.regs[RAX := rip], left := Some(rip))
  {
    hide ReadWord;
    RunPair(JumpToRip(l), c);
    assert JumpToRip(l)[2..] == [];
    assert Fields(l, c.mem)[RIP] == ReadWord(c.mem, At(l, RIP));
  }

  lemma ScratchDropped(regs: Regs, a: Word, b: Word, a': Word, b': Word, v: Word, flags: Word)
    ensures regs[RAX := a][RSP := b][RAX := a'][RSP := b'][RFLAGS := flags][RSP := v]
            == regs[RSP := v][RFLAGS := flags][RAX := a']
  {
  }

  lemma RestorePopsSteps(l: Layout, c: Core)
    requires WellPlaced(l) && c.left.None? && OnHostStack(l, c.regs[RSP])
    ensures var fs, d := Fields(l, c.mem), Run(RestorePops(l), c);
      && d.left.None?
      && d.regs == c.regs[RSP := fs[RSP]][RFLAGS := Popped(c.regs[RFLAGS], fs[RFLAGS])][RAX := fs[RFLAGS]]
      && d.mem == RestoreMemory(c.mem, c.regs[RSP], fs[RSP], fs[RFLAGS])
  {
    hide ReadWord, WriteWord, Fields, Step, Run, At, SameOutside, Popped;
    var fs, h := Fields(l, c.mem), c.regs[RSP];
    var ops := RestorePops(l);
    RunSix(ops, c);
    SixStay(ops, c);
    RestoreMemoryIs(l, c.mem, h, fs[RSP], fs[RFLAGS]);
    PushFieldSteps(l, RSP, c);
    var c1 := Step(ops[1], Step(ops[0], c));
    PushFieldSteps(l, RFLAGS, c1);
    var c2 := Step(ops[3], Step(ops[2], c1));
    PopPairSteps(c2, fs[RSP], fs[RFLAGS]);
    ScratchDropped(c.regs, fs[RSP], h - 8, fs[RFLAGS], h - 16, fs[RSP], Popped(c.regs[RFLAGS], fs[RFLAGS]));
  }

  /** Control comes back to the guest: the restore stub, then the restore hook at the saved rip. */
  function Restore(l: Layout, c: Core): Core
    requires WellPlaced(l)
  {
    Run(RestoreHook(l), Run(RestoreStub(l), c).(left := None))
  }

  lemma RestoreProgramParts(l: Layout, rs: seq<Slot>, c: Core)
    requires WellPlaced(l)
    ensures Run(RestoreProgram(l, rs), c) == Run(JumpToRip(l), Run(RestorePops(l), Run(LoadAll(l, rs), c)))
  {
    hide Run, Step, LoadAll;
    RunConcat(LoadAll(l, rs) + RestorePops(l), JumpToRip(l), c);
    RunConcat(LoadAll(l, rs), RestorePops(l), c);
  }

  lemma RestoreHookSteps(l: Layout, c: Core)
    requires WellPlaced(l) && c.left.None?
    ensures Run(RestoreHook(l), c) == c.(regs := c.regs[RAX := Fields(l, c.mem)[RAX]])
  {
    hide ReadWord;
    assert Fields(l, c.mem)[RAX] == ReadWord(c.mem, At(l, RAX));
    assert Run(RestoreHook(l), c) == Run([], Step(LoadRax(At(l, RAX)), c));
  }

  /** The registers that come back from the fields `fs`, over whatever the host left in `regs`. */
  function RestoredRegs(fs: seq<Word>, regs: Regs, rs: seq<Slot>): Regs
    requires |fs| == SLOTS
  {
    LoadInto(fs, regs, rs)[RSP := fs[RSP]][RFLAGS := Popped(regs[RFLAGS], fs[RFLAGS])][RAX := fs[RAX]]
  }

  lemma RestoreProgramRuns(l: Layout, rs: seq<Slot>, c: Core)
    requires WellPlaced(l) && c.left.None? && OnHostStack(l, c.regs[RSP]) && RSP !in rs && RFLAGS !in rs
    ensures var fs, d := Fields(l, c.mem), Run(RestoreProgram(l, rs), c);
      && d.left == Some(fs[RIP]) && Fields(l, d.mem) == fs
      && d.regs == LoadInto(fs, c.regs, rs)[RSP := fs[RSP]][RFLAGS := Popped(c.regs[RFLAGS], fs[RFLAGS])][RAX := fs[RIP]]
      && SameOutside(c.mem, d.mem, c.regs[RSP] - 16, 16)
  {
    hide ReadWord, WriteWord, Fields, Step, Run, At, SameOutside, LoadInto, LoadAll, RestoreMemory,
      RestoreProgram, RestorePops, JumpToRip, Popped;
    var fs := Fields(l, c.mem);
    RestoreProgramParts(l, rs, c);
    LoadAllLoads(l, rs, c);
    var c1 := Run(LoadAll(l, rs), c);
    LoadIntoAt(fs, c.regs, rs, RSP);
    LoadIntoAt(fs, c.regs, rs, RFLAGS);
    RestorePopsSteps(l, c1);
    var c2 := Run(RestorePops(l), c1);
    RestoreMemoryIs(l, c1.mem, c1.regs[RSP], fs[RSP], fs[RFLAGS]);
    JumpToRipSteps(l, c2);
    RaxOverwritten(c1.regs[RSP := fs[RSP]][RFLAGS := Popped(c.regs[RFLAGS], fs[RFLAGS])], fs[RFLAGS], fs[RIP]);
  }

  lemma RaxOverwritten(regs: Regs, a: Word, b: Word)
    ensures regs[RAX := a][RAX := b] == regs[RAX := b]
  {
  }

  /** Nothing is left of the registers the restore stub started with, but for the three selectors it
      does not load; memory changes only where it pushed. */
  lemma RestoreRuns(l: Layout, c: Core)
    requires WellPlaced(l) && c.left.None? && OnHostStack(l, c.regs[RSP])
    ensures Run(RestoreStub(l), c).left == Some(Fields(l, c.mem)[RIP])
    ensures Restore(l, c).regs == RestoredRegs(Fields(l, c.mem), c.regs, RESTORED)
    ensures SameOutside(c.mem, Restore(l, c).mem, c.regs[RSP] - 16, 16)
  {
    hide ReadWord, WriteWord, Fields, Step, Run, At, SameOutside, LoadInto, RestoreProgram, RestoreHook, Popped;
    RestoreProgramRuns(l, RESTORED, c);
    var d := Run(RestoreStub(l), c);
    RestoreHookSteps(l, d.(left := None));
    var fs := Fields(l, c.mem);
    RaxOverwritten(LoadInto(fs, c.regs, RESTORED)[RSP := fs[RSP]][RFLAGS := Popped(c.regs[RFLAGS], fs[RFLAGS])], fs[RIP], fs[RAX]);
  }

  lemma RestoredOrNot(r: Slot)
    ensures r in RESTORED || r == RAX || r == RSP || r == RFLAGS || r == RIP || r == CS || r == GS || r == FS
  {
    assert RESTORED[0] == RBX && RESTORED[1] == RCX && RESTORED[2] == RDX && RESTORED[3] == RDI && RESTORED[4] == RSI && RESTORED[5] == RBP;
    assert RESTORED[6] == ES && RESTORED[7] == SS && RESTORED[8] == DS && RESTORED[9] == R8 && RESTORED[10] == R9 && RESTORED[11] == R10;
    assert RESTORED[12] == R11 && RESTORED[13] == R12 && RESTORED[14] == R13 && RESTORED[15] == R14 && RESTORED[16] == R15;
  }

  lemma RestoredRegsAt(fs: seq<Word>, regs: Regs, rs: seq<Slot>, r: Slot, v: Word)
    requires |fs| == SLOTS && fs[r] == v && (Selector(r) ==> v < 0x1_0000)
    requires r in rs || r == RAX || r == RSP || r == RFLAGS || (Selector(r) && regs[r] == v)
    requires r == RFLAGS ==> SamePrivileged(regs[r], v)
    ensures RestoredRegs(fs, regs, rs)[r] == v
  {
    hide LoadInto, Popped, SamePrivileged;
    FlagsBack(regs[RFLAGS], v);
    if r != RAX {
      LoadIntoAt(fs, regs, rs, r);
    }
  }

  lemma RestoredBack(fs: seq<Word>, regs: Regs, r: Slot, v: Word)
    requires |fs| == SLOTS && r != RIP && fs[r] == v && (Selector(r) ==> v < 0x1_0000)
    requires r == CS || r == GS || r == FS ==> regs[r] == v
    requires r == RFLAGS ==> SamePrivileged(regs[r], v)
    ensures RestoredRegs(fs, regs, RESTORED)[r] == v
  {
    hide RestoredRegs;
    RestoredOrNot(r);
    RestoredRegsAt(fs, regs, RESTORED, r, v);
  }

  /** Dump, then whatever the host does, then restore: a guest register whose saved field the host left
      alone is back, for every value of every register, and the guest goes on at the saved rip, behind
      the hook. `c` is the guest at the trampoline and `e` the host when it jumps into the restore stub. */
  lemma DumpRestoreIsIdentity(l: Layout, c: Core, e: Core, r: Slot)
    requires WellPlaced(l) && c.left.None? && e.left.None? && OnHostStack(l, e.regs[RSP])
    requires r != RIP && (Selector(r) ==> c.regs[r] < 0x1_0000)
    requires Fields(l, e.mem)[r] == Fields(l, Dump(l, c).mem)[r]
    requires r == CS || r == GS || r == FS ==> e.regs[r] == c.regs[r]
    requires r == RFLAGS ==> Registers.PlainFlags(c.regs[r]) && SamePrivileged(e.regs[r], c.regs[r])
    ensures Restore(l, e).regs[r] == c.regs[r]
    ensures Run(RestoreStub(l), e).left == Some(Fields(l, e.mem)[RIP])
    ensures SameOutside(e.mem, Restore(l, e).mem, e.regs[RSP] - 16, 16)
  {
    hide Fields, Dump, Restore, Run, SameOutside, RestoredRegs, ReadWord, OnlyHost, RestoreStub, SamePrivileged, Image;
    RestoreRuns(l, e);
    DumpSaves(l, c, r);
    FlagsBack(e.regs[RFLAGS], c.regs[RFLAGS]);
    RestoredBack(Fields(l, e.mem), e.regs, r, c.regs[r]);
  }

  // ----- starting the guest -----

  /** The registers that `exec_binary` clears, in its order. */
  const CLEARED: seq<Slot> := [RBX, RCX, RDX, RDI, RSI, R8, R9, R10, R11, R12, R13, R14, R15, RBP]

  function ClearAll(rs: seq<Slot>): seq<Op> {
    if rs == [] then [] else [MoveImm(rs[0], 0)] + ClearAll(rs[1..])
  }

  function SetRipRsp(rip: Word, rsp: Word): seq<Op> {
    [MoveImm(RAX, rip), MoveImm(RSP, rsp)]
  }

  /** The flags are popped from the guest's stack, and the entry is returned to by way of it. */
  function PushAndReturn(): seq<Op> {
    [Push(RAX), MoveImm(RAX, 0), Push(RAX), Pop(RFLAGS), Return]
  }

  /** `exec_binary`. */
  function ExecProgram(rip: Word, rsp: Word): seq<Op> {
    SetRipRsp(rip, rsp) + ClearAll(CLEARED) + PushAndReturn()
  }

  /** The registers with those of `rs` cleared. */
  function Cleared(regs: Regs, rs: seq<Slot>): Regs
    decreases |rs|
  {
    if rs == [] then regs else Cleared(Assign(regs, rs[0], 0), rs[1..])
  }

  lemma {:induction false} ClearedAt(regs: Regs, rs: seq<Slot>, r: Slot)
    ensures Cleared(regs, rs)[r] == if r in rs then 0 else regs[r]
    decreases |rs|
  {
    if rs != [] {
      ClearedAt(Assign(regs, rs[0], 0), rs[1..], r);
    }
  }

  lemma {:induction false} ClearAllClears(rs: seq<Slot>, c: Core)
    requires c.left.None?
    ensures Run(ClearAll(rs), c) == c.(regs := Cleared(c.regs, rs))
    decreases |rs|
  {
    if rs != [] {
      hide Assign;
      assert ClearAll(rs)[1..] == ClearAll(rs[1..]);
      ClearAllClears(rs[1..], Step(MoveImm(rs[0], 0), c));
    }
  }

  /** What `exec_binary` leaves on the guest's stack, below its first rsp: the entry, and the flags it popped. */
  function LaunchMemory(m: Memory, rip: Word, rsp: Word): Memory
    requires 16 <= rsp
  {
    WriteWord(WriteWord(m, rsp - 8, rip), rsp - 16, 0)
  }

  lemma LaunchWords(m: Memory, rip: Word, rsp: Word)
    requires 16 <= rsp
    ensures ReadWord(LaunchMemory(m, rip, rsp), rsp - 8) == rip && ReadWord(LaunchMemory(m, rip, rsp), rsp - 16) == 0
    ensures SameOutside(m, LaunchMemory(m, rip, rsp), rsp - 16, 16)
  {
    hide ReadWord, WriteWord;
    var m1 := WriteWord(m, rsp - 8, rip);
    ReadWrittenWord(m, rsp - 8, rip);
    ReadWrittenWord(m1, rsp - 16, 0);
    WordKept(m1, rsp - 8, rsp - 16, 0);
    WriteIsLocal(m, rsp - 8, rip, rsp - 16, 16);
    WriteIsLocal(m1, rsp - 16, 0, rsp - 16, 16);
  }

  lemma PushTwoSteps(c: Core, rip: Word, rsp: Word)
    requires c.left.None? && 16 <= rsp == c.regs[RSP] && c.regs[RAX] == rip
    ensures Step(Push(RAX), Step(MoveImm(RAX, 0), Step(Push(RAX), c)))
            == c.(regs := c.regs[RAX := 0][RSP := rsp - 16], mem := LaunchMemory(c.mem, rip, rsp))
  {
    hide WriteWord;
    assert Step(Push(RAX), c).regs == c.regs[RSP := rsp - 8];
    assert Step(MoveImm(RAX, 0), Step(Push(RAX), c)).regs == c.regs[RSP := rsp - 8][RAX := 0];
  }

  lemma PopReturnSteps(c: Core, rip: Word, rsp: Word)
    requires c.left.None? && 16 <= rsp && c.regs[RSP] == rsp - 16
    requires ReadWord(c.mem, rsp - 16) == 0 && ReadWord(c.mem, rsp - 8) == rip
    ensures Step(Return, Step(Pop(RFLAGS), c))
            == c.(regs := c.regs[RFLAGS := Popped(c.regs[RFLAGS], 0)][RSP := rsp], left := Some(rip))
  {
    hide ReadWord, Popped;
    assert Step(Pop(RFLAGS), c).regs == c.regs[RSP := rsp - 8][RFLAGS := Popped(c.regs[RFLAGS], 0)];
  }

  lemma PushAndReturnRuns(c: Core, rip: Word, rsp: Word)
    requires c.left.None? && 16 <= rsp == c.regs[RSP] && c.regs[RAX] == rip
    ensures Run(PushAndReturn(), c)
            == Core(c.regs[RAX := 0][RFLAGS := Popped(c.regs[RFLAGS], 0)], LaunchMemory(c.mem, rip, rsp), Some(rip))
  {
    hide Step, Popped, LaunchMemory, Run, ReadWord;
    var ops := PushAndReturn();
    var c1 := Step(ops[1], Step(ops[0], c));
    var c2 := Step(ops[2], c1);
    PushTwoSteps(c, rip, rsp);
    LaunchWords(c.mem, rip, rsp);
    PopReturnSteps(c2, rip, rsp);
    StaysInside(ops[0], c);
    StaysInside(ops[1], Step(ops[0], c));
    RunPair(ops, c);
    StaysInside(ops[2], c1);
    RunPair(ops[2..], c1);
    assert ops[2..][2..] == [Return];
    StaysInside(ops[3], c2);
    RunReturn(Step(ops[3], c2));
    var flags := Popped(c.regs[RFLAGS], 0);
    assert c.regs[RAX := 0][RSP := rsp - 16][RFLAGS := flags][RSP := rsp] == c.regs[RAX := 0][RFLAGS := flags];
  }

  lemma RunReturn(c: Core)
    requires c.left.None?
    ensures Run([Return], c) == Step(Return, c)
  {
    hide Step;
    assert Run([Return], c) == Run([], Step(Return, c));
  }

  /** The registers the guest starts with, over those of the host. */
  function LaunchRegs(regs: Regs, rsp: Word): Regs {
    Cleared(regs[RSP := rsp], CLEARED)[RAX := 0][RFLAGS := Popped(regs[RFLAGS], 0)]
  }

  /** `exec_binary` starts the guest at its entry, with its stack pointer, and leaves two words below that. */
  lemma ExecRuns(c: Core, rip: Word, rsp: Word)
    requires c.left.None? && 16 <= rsp
    ensures Run(ExecProgram(rip, rsp), c) == Core(LaunchRegs(c.regs, rsp), LaunchMemory(c.mem, rip, rsp), Some(rip))
  {
    hide Step, Popped, LaunchMemory, Run, ClearAll, PushAndReturn, Cleared;
    RunConcat(SetRipRsp(rip, rsp) + ClearAll(CLEARED), PushAndReturn(), c);
    RunConcat(SetRipRsp(rip, rsp), ClearAll(CLEARED), c);
    SetRipRspRuns(c, rip, rsp);
    var c1 := Run(SetRipRsp(rip, rsp), c);
    ClearAllClears(CLEARED, c1);
    var c2 := Run(ClearAll(CLEARED), c1);
    NotCleared();
    ClearedAt(c1.regs, CLEARED, RSP);
    ClearedAt(c1.regs, CLEARED, RAX);
    ClearedAt(c1.regs, CLEARED, RFLAGS);
    PushAndReturnRuns(c2, rip, rsp);
    RaxDoesNotMatter(c.regs[RSP := rsp], rip);
  }

  lemma NotCleared()
    ensures RSP !in CLEARED && RAX !in CLEARED && RFLAGS !in CLEARED
    ensures forall q: Slot :: Selector(q) ==> q !in CLEARED
  {
  }

  lemma SetRipRspRuns(c: Core, rip: Word, rsp: Word)
    requires c.left.None?
    ensures Run(SetRipRsp(rip, rsp), c) == c.(regs := c.regs[RSP := rsp][RAX := rip])
  {
    var ops := SetRipRsp(rip, rsp);
    RunPair(ops, c);
    assert ops[2..] == [];
    assert c.regs[RAX := rip][RSP := rsp] == c.regs[RSP := rsp][RAX := rip];
  }

  lemma RaxDoesNotMatter(regs: Regs, v: Word)
    ensures Cleared(regs[RAX := v], CLEARED)[RAX := 0] == Cleared(regs, CLEARED)[RAX := 0]
  {
    var x, y := Cleared(regs[RAX := v], CLEARED)[RAX := 0], Cleared(regs, CLEARED)[RAX := 0];
    forall i | 0 <= i < SLOTS
      ensures x[i] == y[i]
    {
      ClearedAt(regs[RAX := v], CLEARED, i);
      ClearedAt(regs, CLEARED, i);
    }
  }

  lemma ClearedOrNot(r: Slot)
    ensures r in CLEARED || r == RAX || r == RSP || r == RFLAGS || r == RIP || Selector(r)
  {
    assert CLEARED[0] == RBX && CLEARED[1] == RCX && CLEARED[2] == RDX && CLEARED[3] == RDI && CLEARED[4] == RSI;
    assert CLEARED[5] == R8 && CLEARED[6] == R9 && CLEARED[7] == R10 && CLEARED[8] == R11 && CLEARED[9] == R12;
    assert CLEARED[10] == R13 && CLEARED[11] == R14 && CLEARED[12] == R15 && CLEARED[13] == RBP;
  }

  lemma LaunchRegsAt(regs: Regs, rsp: Word, r: Slot)
    requires r != RIP
    ensures LaunchRegs(regs, rsp)[r]
            == if r == RSP then rsp else if r == RFLAGS then Popped(regs[r], 0) else if Selector(r) then regs[r] else 0
  {
    hide Cleared, Popped;
    NotCleared();
    ClearedOrNot(r);
    ClearedAt(regs[RSP := rsp], CLEARED, r);
  }

  // ----- what the stubs are to the rest of the engine -----

  /** Position of a register of the rest of the model. */
  function Index(r: Registers.Reg): (i: Slot)
    ensures i != RIP
  {
    match r
    case RAX => RAX case RBX => RBX case RCX => RCX case RDX => RDX case RSI => RSI case RDI => RDI
    case RBP => RBP case RSP => RSP case RFLAGS => RFLAGS case CS => CS case SS => SS case GS => GS
    case ES => ES case DS => DS case FS => FS case R8 => R8 case R9 => R9 case R10 => R10
    case R11 => R11 case R12 => R12 case R13 => R13 case R14 => R14 case R15 => R15
  }

  ghost function AsRegFile(rs: Regs): Registers.RegFile {
    map r: Registers.Reg | true :: rs[Index(r)]
  }

  lemma AsRegFileAt(rs: Regs, x: Registers.Reg)
    ensures AsRegFile(rs)[x] == rs[Index(x)]
  {
    hide Index;
  }

  /** The register whose field is at `i`. */
  function RegAt(i: Slot): Registers.Reg
    requires i != RIP
  {
    [Registers.RAX, Registers.RBX, Registers.RCX, Registers.RDX, Registers.RSI, Registers.RDI, Registers.RBP, Registers.RSP,
     Registers.RAX, Registers.RFLAGS, Registers.CS, Registers.SS, Registers.GS, Registers.ES, Registers.DS, Registers.FS,
     Registers.R8, Registers.R9, Registers.R10, Registers.R11, Registers.R12, Registers.R13, Registers.R14, Registers.R15][i]
  }

  /** The CPU's registers in the order of their fields. */
  ghost function AsRegs(r: Registers.RegFile): Regs {
    seq(SLOTS, i requires 0 <= i < SLOTS => if i == RIP then 0 else r[RegAt(i)])
  }

  lemma RegAtIndex(x: Registers.Reg)
    ensures RegAt(Index(x)) == x
  {
  }

  lemma AsRegsAt(r: Registers.RegFile, x: Registers.Reg)
    ensures AsRegs(r)[Index(x)] == r[x]
  {
    hide Index, RegAt;
    RegAtIndex(x);
  }

  lemma AsRegsBack(r: Registers.RegFile)
    ensures AsRegFile(AsRegs(r)) == r
  {
    hide Index, AsRegs;
    forall x: Registers.Reg
      ensures AsRegs(r)[Index(x)] == r[x]
    {
      AsRegsAt(r, x);
    }
  }

  /** The guest state that the structure holds. */
  ghost function SavedState(l: Layout, m: Memory): Registers.State
    requires WellPlaced(l)
  {
    Registers.State(AsRegFile(Fields(l, m)), Fields(l, m)[RIP])
  }

  lemma SelectorIndex()
    ensures Index(Registers.CS) == CS && Index(Registers.SS) == SS && Index(Registers.GS) == GS
    ensures Index(Registers.ES) == ES && Index(Registers.DS) == DS && Index(Registers.FS) == FS
  {
  }

  lemma SavedAt(l: Layout, m: Memory, x: Registers.Reg)
    requires WellPlaced(l)
    ensures SavedState(l, m).regs[x] == Fields(l, m)[Index(x)]
  {
    hide Fields, Index;
  }

  /** The registers as a dump shows them. */
  function SavedRegs(regs: Regs): Regs {
    regs[RFLAGS := Image(regs[RFLAGS])]
  }

  lemma SavedRegsAt(r: Registers.RegFile, x: Registers.Reg)
    requires x != Registers.RFLAGS || Registers.PlainFlags(r[x])
    ensures AsRegFile(SavedRegs(AsRegs(r)))[x] == r[x]
  {
    hide AsRegs;
    AsRegsAt(r, x);
    assert Index(x) == RFLAGS <==> x == Registers.RFLAGS;
    hide Index, Image;
    FlagsBack(0, r[x]);
  }

  /** Entering the dispatcher saves the guest's registers together with the hook's address. */
  lemma DumpIsSave(l: Layout, c: Core)
    requires WellPlaced(l) && c.left.None?
    ensures SavedState(l, Dump(l, c).mem) == Registers.State(AsRegFile(SavedRegs(c.regs)), ReadWord(c.mem, l.currHook))
    ensures Registers.PlainFlags(c.regs[RFLAGS]) ==> SavedRegs(c.regs) == c.regs
  {
    hide Fields, Dump, ReadWord, OnlyHost, Index, Image;
    FlagsBack(0, c.regs[RFLAGS]);
    forall r: Registers.Reg
      ensures Fields(l, Dump(l, c).mem)[Index(r)] == SavedRegs(c.regs)[Index(r)]
    {
      DumpSaves(l, c, Index(r));
    }
    DumpSaves(l, c, RAX);
    assert AsRegFile(Fields(l, Dump(l, c).mem)) == AsRegFile(SavedRegs(c.regs));
  }

  /** Leaving it resumes the guest with the registers the structure holds, at the rip it holds. */
  lemma RestoreIsLoad(l: Layout, e: Core)
    requires WellPlaced(l) && e.left.None? && OnHostStack(l, e.regs[RSP])
    requires forall q: Slot :: Selector(q) ==> Fields(l, e.mem)[q] < 0x1_0000
    requires forall q: Slot :: q == CS || q == GS || q == FS ==> e.regs[q] == Fields(l, e.mem)[q]
    requires SamePrivileged(e.regs[RFLAGS], Fields(l, e.mem)[RFLAGS])
    ensures AsRegFile(Restore(l, e).regs) == SavedState(l, e.mem).regs
    ensures Run(RestoreStub(l), e).left == Some(SavedState(l, e.mem).rip)
  {
    hide Fields, Restore, Run, Index, SameOutside, RestoredRegs, RestoreStub, SamePrivileged;
    RestoreRuns(l, e);
    forall r: Registers.Reg
      ensures Restore(l, e).regs[Index(r)] == Fields(l, e.mem)[Index(r)]
    {
      RestoredBack(Fields(l, e.mem), e.regs, Index(r), Fields(l, e.mem)[Index(r)]);
    }
  }
}
