/** analysis.c: `is_set` and `is_jmp_taken`, against the condition codes of the architecture
    (Intel SDM Volume 1, Appendix B) and against the orders that a comparison decides. */
module Conditions {
  import opened Words
  import opened Registers
  import Keys

  datatype JumpId =
    | JE | JNE | JA | JAE | JB | JBE | JCXZ | JECXZ | JRCXZ | JG | JGE | JL | JLE
    | JO | JNO | JP | JNP | JS | JNS | JMP | NotAJump

  datatype Flag = CF | PF | ZF | SF | OF

  /** `x & flag` is not zero, for the mask of each flag: bits 0, 2, 6, 7 and 11. */
  predicate Bit(f: Flag, x: Word) {
    match f
    case CF => x % 2 == 1
    case PF => x / 4 % 2 == 1
    case ZF => x / 64 % 2 == 1
    case SF => x / 128 % 2 == 1
    case OF => x / 2048 % 2 == 1
  }

  predicate IsSet(st: State, f: Flag) {
    Bit(f, ReadReg(Keys.EFLAGS, st))
  }

  /** `is_jmp_taken`; the mnemonic it does not know ends the process. */
  function IsJmpTaken(id: JumpId, st: State): Option<bool> {
    match id
    case JE => Some(IsSet(st, ZF))
    case JNE => Some(!IsSet(st, ZF))
    case JA => Some(!IsSet(st, CF) && !IsSet(st, ZF))
    case JAE => Some(!IsSet(st, CF))
    case JB => Some(IsSet(st, CF))
    case JBE => Some(IsSet(st, CF) || IsSet(st, ZF))
    case JCXZ => Some(ReadReg(Keys.CX, st) == 0)
    case JECXZ => Some(ReadReg(Keys.ECX, st) == 0)
    case JRCXZ => Some(ReadReg(Keys.RCX, st) == 0)
    case JG => Some(!IsSet(st, ZF) && IsSet(st, SF) == IsSet(st, OF))
    case JGE => Some(IsSet(st, SF) == IsSet(st, OF))
    case JL => Some(IsSet(st, SF) != IsSet(st, OF))
    case JLE => Some(IsSet(st, ZF) || IsSet(st, SF) != IsSet(st, OF))
    case JO => Some(IsSet(st, OF))
    case JNO => Some(!IsSet(st, OF))
    case JP => Some(IsSet(st, PF))
    case JNP => Some(!IsSet(st, PF))
    case JS => Some(IsSet(st, SF))
    case JNS => Some(!IsSet(st, SF))
    case JMP => Some(true)
    case NotAJump => None
  }

  // ----- the architecture's own definition -----

  /** The four-bit condition code in the opcode of a conditional jump (0x70 + code). */
  function ConditionCode(id: JumpId): Option<nat> {
    match id
    case JO => Some(0) case JNO => Some(1) case JB => Some(2) case JAE => Some(3)
    case JE => Some(4) case JNE => Some(5) case JBE => Some(6) case JA => Some(7)
    case JS => Some(8) case JNS => Some(9) case JP => Some(10) case JNP => Some(11)
    case JL => Some(12) case JGE => Some(13) case JLE => Some(14) case JG => Some(15)
    case _ => None
  }

  /** The upper three bits of the code select a test, the lowest bit negates it. */
  predicate ConditionHolds(code: nat, rflags: Word) {
    var test :=
      match code / 2
      case 0 => Bit(OF, rflags)
      case 1 => Bit(CF, rflags)
      case 2 => Bit(ZF, rflags)
      case 3 => Bit(CF, rflags) || Bit(ZF, rflags)
      case 4 => Bit(SF, rflags)
      case 5 => Bit(PF, rflags)
      case 6 => Bit(SF, rflags) != Bit(OF, rflags)
      case _ => Bit(ZF, rflags) || Bit(SF, rflags) != Bit(OF, rflags);
    test == (code % 2 == 0)
  }

  /** Whether the CPU takes the jump. */
  predicate CpuTakes(id: JumpId, st: State)
    requires id != NotAJump
  {
    match ConditionCode(id)
    case Some(code) => ConditionHolds(code, st.regs[RFLAGS])
    case None =>
      match id
      case JCXZ => Architectural(Keys.CX, st) == 0
      case JECXZ => Architectural(Keys.ECX, st) == 0
      case JRCXZ => st.regs[RCX] == 0
      case _ => true
  }

  /** The mask of `read_reg` keeps every flag that a jump tests. */
  lemma MaskKeepsFlags(st: State, f: Flag)
    ensures IsSet(st, f) == Bit(f, st.regs[RFLAGS])
  {
    hide Bit;
    var v := st.regs[RFLAGS];
    var kept := v / 0x4_0000 % 64;
    var masked := v % 0x1_0000 + kept * 0x4_0000;
    assert ReadReg(Keys.EFLAGS, st) == masked;
    DivModUnique(masked, 0x1_0000, 4 * kept, v % 0x1_0000);
    BitOfLow(f, v);
    BitOfLow(f, masked);
  }

  lemma BitOfLow(f: Flag, v: Word)
    ensures Bit(f, v) == Bit(f, v % 0x1_0000)
  {
    match f
    case CF =>
    case PF => LowPF(v);
    case ZF => LowZF(v);
    case SF => LowSF(v);
    case OF => LowOF(v);
  }

  lemma LowPF(v: Word)
    ensures v / 4 % 2 == v % 0x1_0000 / 4 % 2
  {
    var h, low := v / 0x1_0000, v % 0x1_0000;
    var q, r := low / 4, low % 4;
    DivModUnique(v, 4, 0x4000 * h + q, r);
    DivModUnique(0x4000 * h + q, 2, 0x2000 * h + q / 2, q % 2);
  }

  lemma LowZF(v: Word)
    ensures v / 64 % 2 == v % 0x1_0000 / 64 % 2
  {
    var h, low := v / 0x1_0000, v % 0x1_0000;
    var q, r := low / 64, low % 64;
    DivModUnique(v, 64, 0x400 * h + q, r);
    DivModUnique(0x400 * h + q, 2, 0x200 * h + q / 2, q % 2);
  }

  lemma LowSF(v: Word)
    ensures v / 128 % 2 == v % 0x1_0000 / 128 % 2
  {
    var h, low := v / 0x1_0000, v % 0x1_0000;
    var q, r := low / 128, low % 128;
    DivModUnique(v, 128, 0x200 * h + q, r);
    DivModUnique(0x200 * h + q, 2, 0x100 * h + q / 2, q % 2);
  }

  lemma LowOF(v: Word)
    ensures v / 2048 % 2 == v % 0x1_0000 / 2048 % 2
  {
    var h, low := v / 0x1_0000, v % 0x1_0000;
    var q, r := low / 2048, low % 2048;
    DivModUnique(v, 2048, 0x20 * h + q, r);
    DivModUnique(0x20 * h + q, 2, 0x10 * h + q / 2, q % 2);
  }

  lemma CountersRead(st: State)
    ensures ReadReg(Keys.CX, st) == Architectural(Keys.CX, st) && ReadReg(Keys.ECX, st) == Architectural(Keys.ECX, st)
    ensures ReadReg(Keys.RCX, st) == st.regs[RCX]
  {
    assert General(Keys.CX) && General(Keys.ECX) && Stands(Keys.RCX, Full64) && Home(Keys.RCX) == Of(RCX);
    hide Meaning, ReadReg;
    ReadRegIsArchitectural(Keys.CX, st);
    ReadRegIsArchitectural(Keys.ECX, st);
    ReadRegIsArchitectural(Keys.RCX, st);
  }

  /** For every jump and every register file the engine decides as the CPU does. */
  lemma IsJmpTakenIsCpu(id: JumpId, st: State)
    ensures IsJmpTaken(id, st) == if id == NotAJump then None else Some(CpuTakes(id, st))
  {
    hide IsSet, Bit, ReadReg, Architectural;
    CountersRead(st);
    MaskKeepsFlags(st, CF);
    MaskKeepsFlags(st, PF);
    MaskKeepsFlags(st, ZF);
    MaskKeepsFlags(st, SF);
    MaskKeepsFlags(st, OF);
  }

  // ----- the flags by their numbers -----

  /** CF is bit 0, PF bit 2, ZF bit 6, SF bit 7 and OF bit 11, whatever the others are. */
  lemma FlagPositions(x: Word, cf: int, u1: int, pf: int, u3: int, zf: int, sf: int, u8: int, of: int, h: int)
    requires 0 <= cf < 2 && 0 <= u1 < 2 && 0 <= pf < 2 && 0 <= u3 < 8 && 0 <= zf < 2 && 0 <= sf < 2 && 0 <= u8 < 8 && 0 <= of < 2
    requires x == cf + 2 * u1 + 4 * pf + 8 * u3 + 64 * zf + 128 * sf + 256 * u8 + 2048 * of + 4096 * h
    ensures Bit(CF, x) == (cf == 1) && Bit(PF, x) == (pf == 1) && Bit(ZF, x) == (zf == 1)
    ensures Bit(SF, x) == (sf == 1) && Bit(OF, x) == (of == 1)
  {
    var h11 := of + 2 * h;
    var h7 := sf + 2 * (u8 + 8 * h11);
    var h2 := pf + 2 * (u3 + 8 * (zf + 2 * h7));
    FieldAt(x, 1, 2, 0, cf, u1 + 2 * h2);
    FieldAt(x, 4, 2, cf + 2 * u1, pf, u3 + 8 * (zf + 2 * h7));
    FieldAt(x, 64, 2, cf + 2 * u1 + 4 * pf + 8 * u3, zf, h7);
    FieldAt(x, 128, 2, cf + 2 * u1 + 4 * pf + 8 * u3 + 64 * zf, sf, u8 + 8 * h11);
    FieldAt(x, 2048, 2, cf + 2 * u1 + 4 * pf + 8 * u3 + 64 * zf + 128 * sf + 256 * u8, of, h);
  }

  /** Every conditional jump, over every flags word, by the digits of that word. */
  lemma JumpsByNumber(st: State, cf: int, u1: int, pf: int, u3: int, zf: int, sf: int, u8: int, of: int, h: int)
    requires 0 <= cf < 2 && 0 <= u1 < 2 && 0 <= pf < 2 && 0 <= u3 < 8 && 0 <= zf < 2 && 0 <= sf < 2 && 0 <= u8 < 8 && 0 <= of < 2
    requires st.regs[RFLAGS] == cf + 2 * u1 + 4 * pf + 8 * u3 + 64 * zf + 128 * sf + 256 * u8 + 2048 * of + 4096 * h
    ensures IsJmpTaken(JB, st) == Some(cf == 1) && IsJmpTaken(JAE, st) == Some(cf == 0)
    ensures IsJmpTaken(JE, st) == Some(zf == 1) && IsJmpTaken(JNE, st) == Some(zf == 0)
    ensures IsJmpTaken(JBE, st) == Some(cf == 1 || zf == 1) && IsJmpTaken(JA, st) == Some(cf == 0 && zf == 0)
    ensures IsJmpTaken(JS, st) == Some(sf == 1) && IsJmpTaken(JNS, st) == Some(sf == 0)
    ensures IsJmpTaken(JP, st) == Some(pf == 1) && IsJmpTaken(JNP, st) == Some(pf == 0)
    ensures IsJmpTaken(JO, st) == Some(of == 1) && IsJmpTaken(JNO, st) == Some(of == 0)
    ensures IsJmpTaken(JL, st) == Some(sf != of) && IsJmpTaken(JGE, st) == Some(sf == of)
    ensures IsJmpTaken(JLE, st) == Some(zf == 1 || sf != of) && IsJmpTaken(JG, st) == Some(zf == 0 && sf == of)
    ensures IsJmpTaken(JMP, st) == Some(true)
  {
    hide IsJmpTaken;
    FlagsRead(st, cf, u1, pf, u3, zf, sf, u8, of, h);
    JumpTable(st, cf == 1, pf == 1, zf == 1, sf == 1, of == 1);
  }

  lemma FlagsRead(st: State, cf: int, u1: int, pf: int, u3: int, zf: int, sf: int, u8: int, of: int, h: int)
    requires 0 <= cf < 2 && 0 <= u1 < 2 && 0 <= pf < 2 && 0 <= u3 < 8 && 0 <= zf < 2 && 0 <= sf < 2 && 0 <= u8 < 8 && 0 <= of < 2
    requires st.regs[RFLAGS] == cf + 2 * u1 + 4 * pf + 8 * u3 + 64 * zf + 128 * sf + 256 * u8 + 2048 * of + 4096 * h
    ensures IsSet(st, CF) == (cf == 1) && IsSet(st, PF) == (pf == 1) && IsSet(st, ZF) == (zf == 1)
    ensures IsSet(st, SF) == (sf == 1) && IsSet(st, OF) == (of == 1)
  {
    hide IsSet, Bit;
    FlagPositions(st.regs[RFLAGS], cf, u1, pf, u3, zf, sf, u8, of, h);
    MaskKeepsFlags(st, CF);
    MaskKeepsFlags(st, PF);
    MaskKeepsFlags(st, ZF);
    MaskKeepsFlags(st, SF);
    MaskKeepsFlags(st, OF);
  }

  lemma JumpTable(st: State, cf: bool, pf: bool, zf: bool, sf: bool, of: bool)
    requires IsSet(st, CF) == cf && IsSet(st, PF) == pf && IsSet(st, ZF) == zf && IsSet(st, SF) == sf && IsSet(st, OF) == of
    ensures IsJmpTaken(JB, st) == Some(cf) && IsJmpTaken(JAE, st) == Some(!cf)
    ensures IsJmpTaken(JE, st) == Some(zf) && IsJmpTaken(JNE, st) == Some(!zf)
    ensures IsJmpTaken(JBE, st) == Some(cf || zf) && IsJmpTaken(JA, st) == Some(!cf && !zf)
    ensures IsJmpTaken(JS, st) == Some(sf) && IsJmpTaken(JNS, st) == Some(!sf)
    ensures IsJmpTaken(JP, st) == Some(pf) && IsJmpTaken(JNP, st) == Some(!pf)
    ensures IsJmpTaken(JO, st) == Some(of) && IsJmpTaken(JNO, st) == Some(!of)
    ensures IsJmpTaken(JL, st) == Some(sf != of) && IsJmpTaken(JGE, st) == Some(sf == of)
    ensures IsJmpTaken(JLE, st) == Some(zf || sf != of) && IsJmpTaken(JG, st) == Some(!zf && sf == of)
    ensures IsJmpTaken(JMP, st) == Some(true)
  {
    UnsignedTable(st);
    FlagTable(st);
    SignedTable(st);
    hide IsSet, IsJmpTaken;
  }

  lemma UnsignedTable(st: State)
    ensures IsJmpTaken(JB, st) == Some(IsSet(st, CF)) && IsJmpTaken(JAE, st) == Some(!IsSet(st, CF))
    ensures IsJmpTaken(JBE, st) == Some(IsSet(st, CF) || IsSet(st, ZF))
    ensures IsJmpTaken(JA, st) == Some(!IsSet(st, CF) && !IsSet(st, ZF))
    ensures IsJmpTaken(JE, st) == Some(IsSet(st, ZF)) && IsJmpTaken(JNE, st) == Some(!IsSet(st, ZF))
  {
    hide IsSet;
  }

  lemma FlagTable(st: State)
    ensures IsJmpTaken(JS, st) == Some(IsSet(st, SF)) && IsJmpTaken(JNS, st) == Some(!IsSet(st, SF))
    ensures IsJmpTaken(JP, st) == Some(IsSet(st, PF)) && IsJmpTaken(JNP, st) == Some(!IsSet(st, PF))
    ensures IsJmpTaken(JO, st) == Some(IsSet(st, OF)) && IsJmpTaken(JNO, st) == Some(!IsSet(st, OF))
    ensures IsJmpTaken(JMP, st) == Some(true)
  {
    hide IsSet;
  }

  lemma SignedTable(st: State)
    ensures IsJmpTaken(JL, st) == Some(IsSet(st, SF) != IsSet(st, OF))
    ensures IsJmpTaken(JGE, st) == Some(IsSet(st, SF) == IsSet(st, OF))
    ensures IsJmpTaken(JLE, st) == Some(IsSet(st, ZF) || IsSet(st, SF) != IsSet(st, OF))
    ensures IsJmpTaken(JG, st) == Some(!IsSet(st, ZF) && IsSet(st, SF) == IsSet(st, OF))
  {
    hide IsSet;
  }

  /** The counter jumps test the low 16, 32 and 64 bits of rcx. */
  lemma CounterJumpsByNumber(st: State)
    ensures IsJmpTaken(JCXZ, st) == Some(st.regs[RCX] % 0x1_0000 == 0)
    ensures IsJmpTaken(JECXZ, st) == Some(st.regs[RCX] % 0x1_0000_0000 == 0)
    ensures IsJmpTaken(JRCXZ, st) == Some(st.regs[RCX] == 0)
  {
    assert Stands(Keys.CX, Low16) && Stands(Keys.ECX, Low32) && Home(Keys.CX) == Home(Keys.ECX) == Of(RCX);
    hide Meaning, ReadReg;
    CountersRead(st);
  }

  /** After `cmp a, b` the flags word has 1 for a borrow, 64 for equality, 128 for a difference whose top bit is
      set and 2048 for a signed difference out of range; `sa` and `sb` are the operands as signed numbers. */
  lemma CompareByNumber(st: State, a: Word, b: Word, sa: int, sb: int, u1: int, pf: int, u3: int, u8: int, h: int)
    requires 0 <= u1 < 2 && 0 <= pf < 2 && 0 <= u3 < 8 && 0 <= u8 < 8
    requires sa == (if a < 0x8000_0000_0000_0000 then a else a - 0x1_0000_0000_0000_0000)
    requires sb == (if b < 0x8000_0000_0000_0000 then b else b - 0x1_0000_0000_0000_0000)
    requires st.regs[RFLAGS]
             == (if a < b then 1 else 0) + 2 * u1 + 4 * pf + 8 * u3 + (if a == b then 64 else 0)
                + (if (a - b) % 0x1_0000_0000_0000_0000 >= 0x8000_0000_0000_0000 then 128 else 0) + 256 * u8
                + (if -0x8000_0000_0000_0000 <= sa - sb < 0x8000_0000_0000_0000 then 0 else 2048) + 4096 * h
    ensures IsJmpTaken(JE, st) == Some(a == b) && IsJmpTaken(JNE, st) == Some(a != b)
    ensures IsJmpTaken(JB, st) == Some(a < b) && IsJmpTaken(JAE, st) == Some(a >= b)
    ensures IsJmpTaken(JBE, st) == Some(a <= b) && IsJmpTaken(JA, st) == Some(a > b)
    ensures IsJmpTaken(JL, st) == Some(sa < sb) && IsJmpTaken(JGE, st) == Some(sa >= sb)
    ensures IsJmpTaken(JLE, st) == Some(sa <= sb) && IsJmpTaken(JG, st) == Some(sa > sb)
  {
    hide IsJmpTaken;
    var sf := if (a - b) % 0x1_0000_0000_0000_0000 >= 0x8000_0000_0000_0000 then 1 else 0;
    var of := if -0x8000_0000_0000_0000 <= sa - sb < 0x8000_0000_0000_0000 then 0 else 1;
    JumpsByNumber(st, if a < b then 1 else 0, u1, pf, u3, if a == b then 1 else 0, sf, u8, of, h);
    assert (a - b) % 0x1_0000_0000_0000_0000 == if a >= b then a - b else a - b + 0x1_0000_0000_0000_0000;
  }

  function Opposite(id: JumpId): JumpId {
    match id
    case JE => JNE case JNE => JE case JA => JBE case JBE => JA case JAE => JB case JB => JAE
    case JG => JLE case JLE => JG case JGE => JL case JL => JGE
    case JO => JNO case JNO => JO case JP => JNP case JNP => JP case JS => JNS case JNS => JS
    case _ => NotAJump
  }

  /** Exactly one jump of each opposite pair is taken, whatever the flags. */
  lemma OppositesAreComplements(id: JumpId, st: State)
    requires Opposite(id) != NotAJump
    ensures IsJmpTaken(id, st).Some? && IsJmpTaken(Opposite(id), st).Some?
    ensures IsJmpTaken(id, st).value != IsJmpTaken(Opposite(id), st).value
  {
    hide IsSet, ReadReg;
  }

  // ----- what a comparison decides -----

  const TWO63: int := 0x8000_0000_0000_0000

  function Signed(x: Word): int {
    if x < TWO63 then x else x - TWO64
  }

  /** The flags after `cmp a, b`: those of the 64-bit subtraction `a - b`. */
  ghost predicate FlagsOfCompare(rflags: Word, a: Word, b: Word) {
    var d := Wrap(a - b);
    && Bit(CF, rflags) == (a < b)
    && Bit(ZF, rflags) == (d == 0)
    && Bit(SF, rflags) == (d >= TWO63)
    && Bit(OF, rflags) == (Signed(a) - Signed(b) != Signed(d))
  }

  /** After a comparison every conditional jump decides the order it is named after. */
  lemma CompareThenJump(st: State, a: Word, b: Word)
    requires FlagsOfCompare(st.regs[RFLAGS], a, b)
    ensures IsJmpTaken(JE, st) == Some(a == b) && IsJmpTaken(JNE, st) == Some(a != b)
    ensures IsJmpTaken(JB, st) == Some(a < b) && IsJmpTaken(JAE, st) == Some(a >= b)
    ensures IsJmpTaken(JBE, st) == Some(a <= b) && IsJmpTaken(JA, st) == Some(a > b)
    ensures IsJmpTaken(JL, st) == Some(Signed(a) < Signed(b)) && IsJmpTaken(JGE, st) == Some(Signed(a) >= Signed(b))
    ensures IsJmpTaken(JLE, st) == Some(Signed(a) <= Signed(b)) && IsJmpTaken(JG, st) == Some(Signed(a) > Signed(b))
  {
    hide IsSet, Bit, Wrap;
    MaskKeepsFlags(st, CF);
    MaskKeepsFlags(st, ZF);
    MaskKeepsFlags(st, SF);
    MaskKeepsFlags(st, OF);
    SignOfDifference(a, b);
  }

  lemma SignOfDifference(a: Word, b: Word)
    ensures Wrap(a - b) == 0 <==> a == b
    ensures Signed(a) < Signed(b) <==> ((Wrap(a - b) >= TWO63) != (Signed(a) - Signed(b) != Signed(Wrap(a - b))))
  {
    assert Wrap(a - b) == if a >= b then a - b else a - b + TWO64;
  }
}
