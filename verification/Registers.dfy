/** state_runt.c: the register map that turns a disassembler register key into a slice of a
    64-bit slot of the saved guest state. */
module Registers {
  import opened Words
  import Keys

  /** CPU registers that the state structure has a slot for. */
  datatype Reg =
    | RAX | RBX | RCX | RDX | RSI | RDI | RBP | RSP
    | R8 | R9 | R10 | R11 | R12 | R13 | R14 | R15
    | RFLAGS | CS | SS | GS | ES | DS | FS

  type RegFile = r: map<Reg, Word> | forall x :: x in r
    ghost witness map x: Reg | true :: 0

  /** Registers with byte, word and double-word names. */
  predicate Gpr(r: Reg) {
    r.RAX? || r.RBX? || r.RCX? || r.RDX? || r.RSI? || r.RDI? || r.RBP? || r.RSP?
    || r.R8? || r.R9? || r.R10? || r.R11? || r.R12? || r.R13? || r.R14? || r.R15?
  }

  type Key = Keys.Key

  /** What `hashmap->value[key]` points to. */
  datatype Slot = Of(reg: Reg) | Rip | NullEntry

  datatype State = State(regs: RegFile, rip: Word)

  function Value(st: State, s: Slot): Word {
    match s
    case Of(r) => st.regs[r]
    case Rip => st.rip
    case NullEntry => 0
  }

  /** RF and VM, bits 16 and 17 of the flags, are clear: they always are between two instructions of a 64-bit
      program that is not being stepped over a breakpoint. */
  predicate PlainFlags(v: Word) {
    v / 0x1_0000 % 4 == 0
  }

  // ----- what the names mean -----

  /** The part of a 64-bit register that a name stands for. */
  datatype Part = Low8 | High8 | Low16 | Low32 | Full64

  datatype Denoted = Name(slot: Slot, part: Part) | Unnamed

  /** The architecture's register names (Intel SDM Volume 1, sections 3.4 and 3.5). */
  function Meaning(k: Key): Denoted {
    if k == Keys.AL then Name(Of(RAX), Low8)
    else if k == Keys.AH then Name(Of(RAX), High8)
    else if k == Keys.AX then Name(Of(RAX), Low16)
    else if k == Keys.EAX then Name(Of(RAX), Low32)
    else if k == Keys.RAX then Name(Of(RAX), Full64)
    else if k == Keys.BL then Name(Of(RBX), Low8)
    else if k == Keys.BH then Name(Of(RBX), High8)
    else if k == Keys.BX then Name(Of(RBX), Low16)
    else if k == Keys.EBX then Name(Of(RBX), Low32)
    else if k == Keys.RBX then Name(Of(RBX), Full64)
    else if k == Keys.CL then Name(Of(RCX), Low8)
    else if k == Keys.CH then Name(Of(RCX), High8)
    else if k == Keys.CX then Name(Of(RCX), Low16)
    else if k == Keys.ECX then Name(Of(RCX), Low32)
    else if k == Keys.RCX then Name(Of(RCX), Full64)
    else if k == Keys.DL then Name(Of(RDX), Low8)
    else if k == Keys.DH then Name(Of(RDX), High8)
    else if k == Keys.DX then Name(Of(RDX), Low16)
    else if k == Keys.EDX then Name(Of(RDX), Low32)
    else if k == Keys.RDX then Name(Of(RDX), Full64)
    else if k == Keys.DIL then Name(Of(RDI), Low8)
    else if k == Keys.DI then Name(Of(RDI), Low16)
    else if k == Keys.EDI then Name(Of(RDI), Low32)
    else if k == Keys.RDI then Name(Of(RDI), Full64)
    else if k == Keys.SIL then Name(Of(RSI), Low8)
    else if k == Keys.SI then Name(Of(RSI), Low16)
    else if k == Keys.ESI then Name(Of(RSI), Low32)
    else if k == Keys.RSI then Name(Of(RSI), Full64)
    else if k == Keys.BPL then Name(Of(RBP), Low8)
    else if k == Keys.BP then Name(Of(RBP), Low16)
    else if k == Keys.EBP then Name(Of(RBP), Low32)
    else if k == Keys.RBP then Name(Of(RBP), Full64)
    else if k == Keys.SPL then Name(Of(RSP), Low8)
    else if k == Keys.SP then Name(Of(RSP), Low16)
    else if k == Keys.ESP then Name(Of(RSP), Low32)
    else if k == Keys.RSP then Name(Of(RSP), Full64)
    else if k == Keys.R8B then Name(Of(R8), Low8)
    else if k == Keys.R8W then Name(Of(R8), Low16)
    else if k == Keys.R8D then Name(Of(R8), Low32)
    else if k == Keys.R8 then Name(Of(R8), Full64)
    else if k == Keys.R9B then Name(Of(R9), Low8)
    else if k == Keys.R9W then Name(Of(R9), Low16)
    else if k == Keys.R9D then Name(Of(R9), Low32)
    else if k == Keys.R9 then Name(Of(R9), Full64)
    else if k == Keys.R10B then Name(Of(R10), Low8)
    else if k == Keys.R10W then Name(Of(R10), Low16)
    else if k == Keys.R10D then Name(Of(R10), Low32)
    else if k == Keys.R10 then Name(Of(R10), Full64)
    else if k == Keys.R11B then Name(Of(R11), Low8)
    else if k == Keys.R11W then Name(Of(R11), Low16)
    else if k == Keys.R11D then Name(Of(R11), Low32)
    else if k == Keys.R11 then Name(Of(R11), Full64)
    else if k == Keys.R12B then Name(Of(R12), Low8)
    else if k == Keys.R12W then Name(Of(R12), Low16)
    else if k == Keys.R12D then Name(Of(R12), Low32)
    else if k == Keys.R12 then Name(Of(R12), Full64)
    else if k == Keys.R13B then Name(Of(R13), Low8)
    else if k == Keys.R13W then Name(Of(R13), Low16)
    else if k == Keys.R13D then Name(Of(R13), Low32)
    else if k == Keys.R13 then Name(Of(R13), Full64)
    else if k == Keys.R14B then Name(Of(R14), Low8)
    else if k == Keys.R14W then Name(Of(R14), Low16)
    else if k == Keys.R14D then Name(Of(R14), Low32)
    else if k == Keys.R14 then Name(Of(R14), Full64)
    else if k == Keys.R15B then Name(Of(R15), Low8)
    else if k == Keys.R15W then Name(Of(R15), Low16)
    else if k == Keys.R15D then Name(Of(R15), Low32)
    else if k == Keys.R15 then Name(Of(R15), Full64)
    else if k == Keys.EFLAGS then Name(Of(RFLAGS), Low32)
    else if k == Keys.EIP then Name(Rip, Low32)
    else if k == Keys.RIP then Name(Rip, Full64)
    else Unnamed
  }

  /** The key names a register that exists. */
  predicate Named(k: Key) {
    Meaning(k).Name?
  }

  /** The slot of the register that a key names. */
  function Home(k: Key): Slot {
    if Named(k) then Meaning(k).slot else NullEntry
  }

  predicate Stands(k: Key, part: Part) {
    Named(k) && Meaning(k).part == part
  }

  // ----- width classes, as the engine lists them -----

  predicate Is8Right(k: Key) {
    k == Keys.AL || k == Keys.BL || k == Keys.CL || k == Keys.DL || k == Keys.DIL || k == Keys.SIL || k == Keys.BPL || k == Keys.SPL
    || k == Keys.R8B || k == Keys.R9B || k == Keys.R10B || k == Keys.R11B || k == Keys.R12B || k == Keys.R13B || k == Keys.R14B || k == Keys.R15B
  }

  predicate Is8Left(k: Key) {
    k == Keys.AH || k == Keys.BH || k == Keys.CH || k == Keys.DH
  }

  predicate Is16(k: Key) {
    k == Keys.AX || k == Keys.BX || k == Keys.CX || k == Keys.DX || k == Keys.SI || k == Keys.DI || k == Keys.BP || k == Keys.SP
    || k == Keys.R8W || k == Keys.R9W || k == Keys.R10W || k == Keys.R11W || k == Keys.R12W || k == Keys.R13W || k == Keys.R14W || k == Keys.R15W
  }

  predicate Is32(k: Key) {
    k == Keys.EAX || k == Keys.EBX || k == Keys.ECX || k == Keys.EDX || k == Keys.ESI || k == Keys.EDI || k == Keys.EBP || k == Keys.ESP
    || k == Keys.R8D || k == Keys.R9D || k == Keys.R10D || k == Keys.R11D || k == Keys.R12D || k == Keys.R13D || k == Keys.R14D || k == Keys.R15D
    || k == Keys.EIP || k == Keys.EFLAGS
  }

  predicate Is64(k: Key) {
    k == Keys.RAX || k == Keys.RBX || k == Keys.RCX || k == Keys.RDX || k == Keys.RSI || k == Keys.RDI || k == Keys.RBP || k == Keys.RSP
    || k == Keys.R8 || k == Keys.R9 || k == Keys.R10 || k == Keys.R11 || k == Keys.R12 || k == Keys.R13 || k == Keys.R14 || k == Keys.R15
    || k == Keys.RIP
  }

  /** The answer of `read_reg` for a key in no width class. */
  const ABSENT: Word := TWO64 - 1

  /** `read_reg`, where `value` is what the key's slot holds. */
  function ReadSlot(k: Key, value: Word): Word {
    if k == Keys.EFLAGS then value % 0x1_0000 + value / 0x4_0000 % 64 * 0x4_0000  // & 0xFCFFFF
    else if Is8Right(k) then value % 0x100
    else if Is8Left(k) then value % 0x1_0000 / 0x100
    else if Is16(k) then value % 0x1_0000
    else if Is32(k) then value % 0x1_0000_0000
    else if Is64(k) then value
    else ABSENT
  }

  function ReadReg(k: Key, st: State): Word {
    ReadSlot(k, Value(st, Home(k)))
  }

  // ----- the architecture's own view -----

  function SliceOf(part: Part, v: Word): Word {
    match part
    case Low8 => v % 0x100
    case High8 => v / 0x100 % 0x100
    case Low16 => v % 0x1_0000
    case Low32 => v % 0x1_0000_0000
    case Full64 => v
  }

  /** The part of a 64-bit register that a key names. */
  function Slice(k: Key, v: Word): Word {
    if Named(k) then SliceOf(Meaning(k).part, v) else v
  }

  /** The value the CPU gives to the register named by `k`. */
  function Architectural(k: Key, st: State): Word {
    Slice(k, Value(st, Home(k)))
  }

  predicate General(k: Key) {
    Named(k) && k != Keys.EFLAGS
  }

  /** The engine reads every named register as the CPU defines it. */
  lemma ReadRegIsArchitectural(k: Key, st: State)
    requires General(k)
    ensures ReadReg(k, st) == Architectural(k, st)
  {
    hide Meaning, Is8Right, Is8Left, Is16, Is32, Is64;
    OneWidthClass(k);
    SliceOfSlice(Value(st, Home(k)));
  }

  /** The engine reads the flags without bits 16 and 17 and those from 24 on. */
  lemma FlagsByNumber(st: State, low: int, u: int, high: int, h: int)
    requires 0 <= low < 0x1_0000 && 0 <= u < 4 && 0 <= high < 64
    requires st.regs[RFLAGS] == low + 0x1_0000 * u + 0x4_0000 * high + 0x100_0000 * h
    ensures ReadReg(Keys.EFLAGS, st) == low + 0x4_0000 * high
  {
    var v := st.regs[RFLAGS];
    DivModUnique(v, 0x1_0000, u + 4 * (high + 64 * h), low);
    FieldAt(v, 0x4_0000, 64, low + 0x1_0000 * u, high, h);
  }

  lemma SliceOfSlice(v: Word)
    ensures v % 0x1_0000 / 0x100 == v / 0x100 % 0x100
    ensures v % 0x1_0000 % 0x100 == v % 0x100 == v % 0x1_0000_0000 % 0x100
    ensures v % 0x1_0000_0000 % 0x1_0000 == v % 0x1_0000
    ensures v % 0x1_0000_0000 / 0x100 % 0x100 == v / 0x100 % 0x100
  {
    var b, b0 := v / 0x100, v % 0x100;
    var w, b1 := b / 0x100, b % 0x100;
    var h, w1 := w / 0x1_0000, w % 0x1_0000;
    var low := 0x100 * b1 + b0;
    var dword := 0x1_0000 * w1 + low;
    DivModUnique(low, 0x100, b1, b0);
    DivModUnique(v, 0x1_0000, w, low);
    DivModUnique(dword, 0x100, 0x100 * w1 + b1, b0);
    DivModUnique(0x100 * w1 + b1, 0x100, w1, b1);
    DivModUnique(dword, 0x1_0000, w1, low);
    DivModUnique(v, 0x1_0000_0000, h, dword);
  }

  function Count(b: bool): nat {
    if b then 1 else 0
  }

  /** The engine's five lists sort the names as the architecture does: each named key is in exactly
      one of them, that of the part it stands for, and any other key in none. */
  lemma OneWidthClass(k: Key)
    ensures Is8Right(k) <==> Stands(k, Low8)
    ensures Is8Left(k) <==> Stands(k, High8)
    ensures Is16(k) <==> Stands(k, Low16)
    ensures Is32(k) <==> Stands(k, Low32)
    ensures Is64(k) <==> Stands(k, Full64)
    ensures Count(Is8Right(k)) + Count(Is8Left(k)) + Count(Is16(k)) + Count(Is32(k)) + Count(Is64(k))
            == Count(Named(k))
    ensures !Named(k) ==> forall st :: ReadReg(k, st) == ABSENT
  {
    Right8(k);
    Left8(k);
    Word16(k);
    Dword32(k);
    Qword64(k);
    assert k == Keys.EFLAGS ==> Named(k);
    hide Meaning, Is8Right, Is8Left, Is16, Is32, Is64;
  }

  lemma Right8(k: Key)
    ensures Is8Right(k) <==> Stands(k, Low8)
  {
  }

  lemma Left8(k: Key)
    ensures Is8Left(k) <==> Stands(k, High8)
  {
  }

  lemma Word16(k: Key)
    ensures Is16(k) <==> Stands(k, Low16)
  {
  }

  lemma Dword32(k: Key)
    ensures Is32(k) <==> Stands(k, Low32)
  {
  }

  lemma Qword64(k: Key)
    ensures Is64(k) <==> Stands(k, Full64)
  {
  }

  function Bits(part: Part): nat {
    match part
    case Low8 => 8
    case High8 => 8
    case Low16 => 16
    case Low32 => 32
    case Full64 => 64
  }

  /** The bits of `x` are among those of `y`. */
  predicate PartOf(x: Part, y: Part) {
    Bits(x) <= Bits(y) && (x == High8 || y == High8 ==> x == y || Bits(y) > 8)
  }

  /** All aliases of one register are slices of one value: a narrower key reads its part of what
      any wider key reads. */
  lemma AliasesAreCoherent(x: Key, y: Key, st: State)
    requires General(x) && General(y) && Home(x) == Home(y)
    requires PartOf(Meaning(x).part, Meaning(y).part) && !Stands(y, High8)
    ensures ReadReg(x, st) == Slice(x, ReadReg(y, st))
  {
    hide Meaning;
    ReadRegIsArchitectural(x, st);
    ReadRegIsArchitectural(y, st);
    SliceIn(Meaning(x).part, Meaning(y).part, Value(st, Home(x)));
  }

  lemma SliceIn(x: Part, y: Part, v: Word)
    requires PartOf(x, y) && y != High8
    ensures SliceOf(x, v) == SliceOf(x, SliceOf(y, v))
  {
    match y
    case Low8 =>
    case Low16 => SliceInWord(x, v);
    case Low32 => SliceInDword(x, v);
    case Full64 =>
  }

  lemma SliceInWord(x: Part, v: Word)
    requires PartOf(x, Low16)
    ensures SliceOf(x, v) == SliceOf(x, v % 0x1_0000)
  {
    SliceOfSlice(v);
    DivModUnique(v % 0x1_0000 / 0x100, 0x100, 0, v % 0x1_0000 / 0x100);
  }

  lemma SliceInDword(x: Part, v: Word)
    requires PartOf(x, Low32)
    ensures SliceOf(x, v) == SliceOf(x, v % 0x1_0000_0000)
  {
    SliceOfSlice(v);
  }

  /** AX is AL and AH side by side, and so for every register whose second byte has a name. */
  lemma WordIsTwoBytes(word: Key, low: Key, high: Key, st: State)
    requires Home(word) == Home(low) == Home(high)
    requires Stands(word, Low16) && Stands(low, Low8) && Stands(high, High8)
    ensures ReadReg(word, st) == ReadReg(low, st) + 0x100 * ReadReg(high, st)
  {
    hide Meaning;
    ReadPart(word, Low16, st);
    ReadPart(low, Low8, st);
    ReadPart(high, High8, st);
    SliceOfSlice(Value(st, Home(word)));
  }

  lemma ReadPart(k: Key, part: Part, st: State)
    requires Stands(k, part) && part != Low32
    ensures ReadReg(k, st) == SliceOf(part, Value(st, Home(k)))
  {
    assert k != Keys.EFLAGS;
    hide Meaning;
    ReadRegIsArchitectural(k, st);
  }

  /** `update_reg` stores the whole 64-bit slot, whatever the width of the key. */
  function UpdateReg(k: Key, v: Word, st: State): State {
    match Home(k)
    case Of(r) => st.(regs := st.regs[r := v])
    case Rip => st.(rip := v)
    case NullEntry => st
  }

  predicate Fits(part: Part, v: Word) {
    match part
    case Low8 => v < 0x100
    case High8 => v == 0
    case Low16 => v < 0x1_0000
    case Low32 => v < 0x1_0000_0000
    case Full64 => true
  }

  lemma SliceFits(part: Part, v: Word)
    ensures SliceOf(part, v) == v <==> Fits(part, v)
  {
  }

  lemma NamedHasSlot(k: Key)
    ensures Named(k) <==> Home(k) != NullEntry
  {
  }

  /** No other register changes, every alias reads its slice of the new value, and the key itself
      reads back what was written exactly when the value fits it. */
  lemma UpdateRegEffect(k: Key, v: Word, st: State, y: Key)
    requires General(k)
    ensures Home(y) != Home(k) ==> ReadReg(y, UpdateReg(k, v, st)) == ReadReg(y, st)
    ensures General(y) && Home(y) == Home(k) ==> ReadReg(y, UpdateReg(k, v, st)) == Slice(y, v)
    ensures ReadReg(k, UpdateReg(k, v, st)) == v <==> Fits(Meaning(k).part, v)
  {
    NamedHasSlot(k);
    hide Meaning, ReadSlot, SliceOf, Fits;
    assert Value(UpdateReg(k, v, st), Home(y)) == if Home(y) == Home(k) then v else Value(st, Home(y));
    assert Value(UpdateReg(k, v, st), Home(k)) == v;
    if General(y) {
      ReadRegIsArchitectural(y, UpdateReg(k, v, st));
    }
    ReadRegIsArchitectural(k, UpdateReg(k, v, st));
    SliceFits(Meaning(k).part, v);
  }

  // ----- the map itself -----

  /** Where a register's group comes in `init_hashmap`. */
  function Order(s: Slot): nat {
    match s
    case Rip => 17
    case NullEntry => 18
    case Of(r) =>
      match r
      case RAX => 0
      case RBX => 1
      case RCX => 2
      case RDX => 3
      case RDI => 4
      case RSI => 5
      case RBP => 6
      case RSP => 7
      case R8 => 8
      case R9 => 9
      case R10 => 10
      case R11 => 11
      case R12 => 12
      case R13 => 13
      case R14 => 14
      case R15 => 15
      case RFLAGS => 16
      case _ => 18
  }

  class RegisterMap {
    var value: map<Key, Slot>

    /** The first `n` groups are linked; the other named keys still lead to the null entry. */
    ghost predicate Linked(n: nat)
      reads this
    {
      forall k :: Named(k) ==> k in value && value[k] == if Order(Home(k)) < n then Home(k) else NullEntry
    }

    /** `group_make_link`. */
    method GroupMakeLink(group: seq<Key>, slot: Slot)
      modifies this
      ensures value.Keys >= old(value.Keys)
      ensures forall k :: k in old(value) ==> value[k] == if k in group then slot else old(value)[k]
    {
      for i := 0 to |group|
        invariant value.Keys >= old(value.Keys)
        invariant forall k :: k in old(value) ==> value[k] == if k in group[..i] then slot else old(value)[k]
      {
        value := value[group[i] := slot];
      }
    }

    /** The group that `init_hashmap` lists for a general register. */
    static function Group(r: Reg): seq<Key>
      requires Gpr(r)
    {
      match r
      case RAX => [Keys.AL, Keys.AH, Keys.AX, Keys.EAX, Keys.RAX]
      case RBX => [Keys.BL, Keys.BH, Keys.BX, Keys.EBX, Keys.RBX]
      case RCX => [Keys.CL, Keys.CH, Keys.CX, Keys.ECX, Keys.RCX]
      case RDX => [Keys.DL, Keys.DH, Keys.DX, Keys.EDX, Keys.RDX]
      case RDI => [Keys.DIL, Keys.DI, Keys.EDI, Keys.RDI]
      case RSI => [Keys.SIL, Keys.SI, Keys.ESI, Keys.RSI]
      case RBP => [Keys.BPL, Keys.BP, Keys.EBP, Keys.RBP]
      case RSP => [Keys.SPL, Keys.SP, Keys.ESP, Keys.RSP]
      case R8 => [Keys.R8B, Keys.R8W, Keys.R8D, Keys.R8]
      case R9 => [Keys.R9B, Keys.R9W, Keys.R9D, Keys.R9]
      case R10 => [Keys.R10B, Keys.R10W, Keys.R10D, Keys.R10]
      case R11 => [Keys.R11B, Keys.R11W, Keys.R11D, Keys.R11]
      case R12 => [Keys.R12B, Keys.R12W, Keys.R12D, Keys.R12]
      case R13 => [Keys.R13B, Keys.R13W, Keys.R13D, Keys.R13]
      case R14 => [Keys.R14B, Keys.R14W, Keys.R14D, Keys.R14]
      case R15 => [Keys.R15B, Keys.R15W, Keys.R15D, Keys.R15]
    }

    static lemma InGroup(r: Reg, k: Key)
      requires Gpr(r)
      ensures k in Group(r) <==> Home(k) == Of(r)
    {
      hide Group, Home;
      if r.RAX? || r.RBX? || r.RCX? || r.RDX? {
        InFirstGroups(r, k);
      } else if r.RDI? || r.RSI? || r.RBP? || r.RSP? {
        InSecondGroups(r, k);
      } else if r.R8? || r.R9? || r.R10? || r.R11? {
        InThirdGroups(r, k);
      } else {
        InFourthGroups(r, k);
      }
    }

    static lemma InFirstGroups(r: Reg, k: Key)
      requires r.RAX? || r.RBX? || r.RCX? || r.RDX?
      ensures k in Group(r) <==> Home(k) == Of(r)
    {
      var g := Group(r);
      assert k in g <==> k == g[0] || k == g[1] || k == g[2] || k == g[3] || (|g| == 5 && k == g[4]);
    }

    static lemma InSecondGroups(r: Reg, k: Key)
      requires r.RDI? || r.RSI? || r.RBP? || r.RSP?
      ensures k in Group(r) <==> Home(k) == Of(r)
    {
      var g := Group(r);
      assert k in g <==> k == g[0] || k == g[1] || k == g[2] || k == g[3];
    }

    static lemma InThirdGroups(r: Reg, k: Key)
      requires r.R8? || r.R9? || r.R10? || r.R11?
      ensures k in Group(r) <==> Home(k) == Of(r)
    {
      var g := Group(r);
      assert k in g <==> k == g[0] || k == g[1] || k == g[2] || k == g[3];
    }

    static lemma InFourthGroups(r: Reg, k: Key)
      requires r.R12? || r.R13? || r.R14? || r.R15?
      ensures k in Group(r) <==> Home(k) == Of(r)
    {
      var g := Group(r);
      assert k in g <==> k == g[0] || k == g[1] || k == g[2] || k == g[3];
    }

    static lemma OrderIsInjective(r: Reg, s: Slot)
      requires Gpr(r) && Order(s) == Order(Of(r))
      ensures s == Of(r)
    {
    }

    method LinkGpr(r: Reg)
      requires Gpr(r) && Linked(Order(Of(r)))
      modifies this
      ensures Linked(Order(Of(r)) + 1)
      ensures forall k :: k in old(value) && !Named(k) ==> k in value && value[k] == old(value)[k]
    {
      hide Group, Home, Order, Named;
      OutsideGroup(r);
      GroupMakeLink(Group(r), Of(r));
      forall k | Named(k)
        ensures k in value && value[k] == if Order(Home(k)) < Order(Of(r)) + 1 then Home(k) else NullEntry
      {
        InGroup(r, k);
        if Order(Home(k)) == Order(Of(r)) {
          OrderIsInjective(r, Home(k));
        }
      }
    }

    static lemma OutsideGroup(r: Reg)
      requires Gpr(r)
      ensures forall k :: k in Group(r) ==> Named(k)
    {
    }

    method LinkLegacy()
      requires Linked(0)
      modifies this
      ensures Linked(8)
      ensures forall k :: k in old(value) && !Named(k) ==> k in value && value[k] == old(value)[k]
    {
      hide Linked, Home;
      LinkGpr(RAX);
      LinkGpr(RBX);
      LinkGpr(RCX);
      LinkGpr(RDX);
      LinkGpr(RDI);
      LinkGpr(RSI);
      LinkGpr(RBP);
      LinkGpr(RSP);
    }

    method LinkNumbered()
      requires Linked(8)
      modifies this
      ensures Linked(16)
      ensures forall k :: k in old(value) && !Named(k) ==> k in value && value[k] == old(value)[k]
    {
      hide Linked, Home;
      LinkGpr(R8);
      LinkGpr(R9);
      LinkGpr(R10);
      LinkGpr(R11);
      LinkGpr(R12);
      LinkGpr(R13);
      LinkGpr(R14);
      LinkGpr(R15);
    }

    method LinkFlagsAndIp()
      requires Linked(16)
      modifies this
      ensures Linked(18)
      ensures forall k :: k in old(value) && !Named(k) ==> k in value && value[k] == old(value)[k]
    {
      FlagsAndIp();
      hide Home, Named;
      GroupMakeLink([Keys.EFLAGS], Of(RFLAGS));
      GroupMakeLink([Keys.EIP, Keys.RIP], Rip);
    }

    static lemma NamedHasPlace(k: Key)
      ensures Order(Home(k)) < 18 <==> Named(k)
    {
    }

    static lemma FlagsAndIp()
      ensures Named(Keys.EFLAGS) && Named(Keys.EIP) && Named(Keys.RIP)
      ensures forall k :: k == Keys.EFLAGS <==> Home(k) == Of(RFLAGS)
      ensures forall k :: k == Keys.EIP || k == Keys.RIP <==> Home(k) == Rip
    {
    }

    method LinkAll()
      requires Linked(0)
      modifies this
      ensures Linked(18)
      ensures forall k :: k in old(value) && !Named(k) ==> k in value && value[k] == old(value)[k]
    {
      hide Linked, Home, Order;
      LinkLegacy();
      LinkNumbered();
      LinkFlagsAndIp();
    }

    /** `init_hashmap`: every key starts at the null entry, then the groups are linked. */
    constructor (keys: set<Key>)
      requires forall k :: Named(k) ==> k in keys
      ensures forall k :: Named(k) ==> k in value && value[k] == Home(k)
      ensures forall k :: k in keys && !Named(k) ==> k in value && value[k] == NullEntry
    {
      value := map k | k in keys :: NullEntry;
      new;
      hide Home, Named, Order;
      forall k: Key
        ensures Order(Home(k)) < 18 <==> Named(k)
      {
        NamedHasPlace(k);
      }
      LinkAll();
    }
  }
}
