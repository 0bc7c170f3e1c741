/** Instructions and their 32-bit encodings: an assembler by the manual's bit positions, the
    transcoder's decoder, and one step of a decoded instruction at its true address. */
module Encodings {
  import opened Words
  import opened Isa
  import opened Machines
  import opened Rv32c

  // ---- formats (section 2.2 and 2.3 of the unprivileged ISA manual) ----

  type Funct3 = n: nat | n < 8
  type Funct7 = n: nat | n < 128
  type Opcode = n: nat | n < 128

  function RType(f7: Funct7, rs2: Reg, rs1: Reg, f3: Funct3, rd: Reg, opc: Opcode): Word {
    f7 * 0x200_0000 + rs2 * 0x10_0000 + rs1 * 0x8000 + f3 * 0x1000 + rd * 0x80 + opc
  }

  /** Bits 31-20 hold imm[11:0]. */
  function IType(imm: Word, rs1: Reg, f3: Funct3, rd: Reg, opc: Opcode): Word {
    imm % 0x1000 * 0x10_0000 + rs1 * 0x8000 + f3 * 0x1000 + rd * 0x80 + opc
  }

  /** Bits 31-25 hold imm[11:5], bits 11-7 imm[4:0]. */
  function SType(imm: Word, rs2: Reg, rs1: Reg, f3: Funct3, opc: Opcode): Word {
    imm / 0x20 % 0x80 * 0x200_0000 + rs2 * 0x10_0000 + rs1 * 0x8000 + f3 * 0x1000 + imm % 0x20 * 0x80 + opc
  }

  /** Bit 31 holds imm[12], bits 30-25 imm[10:5], bits 11-8 imm[4:1], bit 7 imm[11]. */
  function BType(imm: Word, rs2: Reg, rs1: Reg, f3: Funct3, opc: Opcode): Word {
    imm / 0x1000 % 2 * 0x8000_0000 + imm / 0x20 % 0x40 * 0x200_0000 + rs2 * 0x10_0000 + rs1 * 0x8000 + f3 * 0x1000
    + imm / 2 % 0x10 * 0x100 + imm / 0x800 % 2 * 0x80 + opc
  }

  /** Bits 31-12 hold the immediate's upper 20 bits. */
  function UType(upper: nat, rd: Reg, opc: Opcode): Word
    requires upper < 0x10_0000
  {
    upper * 0x1000 + rd * 0x80 + opc
  }

  /** Bit 31 holds imm[20], bits 30-21 imm[10:1], bit 20 imm[11], bits 19-12 imm[19:12]. */
  function JType(imm: Word, rd: Reg, opc: Opcode): Word {
    imm / 0x10_0000 % 2 * 0x8000_0000 + imm / 2 % 0x400 * 0x20_0000 + imm / 0x800 % 2 * 0x10_0000
    + imm / 0x1000 % 0x100 * 0x1000 + rd * 0x80 + opc
  }

  // ---- the assembler (chapter 24, instruction set listings) ----

  /** funct7 and funct3 of a register-register operation. */
  function Functs(op: AluOp): (Funct7, Funct3) {
    match op
    case Add => (0, 0) case Sub => (0x20, 0) case Sll => (0, 1) case Slt => (0, 2) case Sltu => (0, 3)
    case Xor => (0, 4) case Srl => (0, 5) case Sra => (0x20, 5) case Or => (0, 6) case And => (0, 7)
    case Mul => (1, 0) case Mulh => (1, 1) case Mulhsu => (1, 2) case Mulhu => (1, 3)
    case Div => (1, 4) case Divu => (1, 5) case Rem => (1, 6) case Remu => (1, 7)
  }

  function LoadFunct(k: LoadKind): Funct3 {
    match k case LB => 0 case LH => 1 case LW => 2 case LBU => 4 case LHU => 5
  }

  function StoreFunct(k: StoreKind): Funct3 {
    match k case SB => 0 case SH => 1 case SW => 2
  }

  function CondFunct(c: Cond): Funct3 {
    match c case BEQ => 0 case BNE => 1 case BLT => 4 case BGE => 5 case BLTU => 6 case BGEU => 7
  }

  /** An even offset of at most `half` either way. */
  predicate Reaches(pc: Word, target: Word, half: nat) {
    var off := Wrap(target - pc);
    off % 2 == 0 && (off < half || off + half >= 0x1_0000_0000)
  }

  /** d has an encoding at pc. */
  predicate Fits(d: Insn, pc: Word) {
    && Encodable(d) && !d.Illegal?
    && (d.Branch? ==> Reaches(pc, d.target, 0x1000))
    && (d.Jal? ==> Reaches(pc, d.target, 0x10_0000))
  }

  function Assemble(d: Insn, pc: Word): Word
    requires Fits(d, pc)
  {
    match d
    case RegReg(op, rd, rs1, rs2) => RType(Functs(op).0, rs2, rs1, Functs(op).1, rd, 0x33)
    case RegImm(op, rd, rs1, imm) =>
      if op in {Sll, Srl, Sra} then RType(Functs(op).0, imm, rs1, Functs(op).1, rd, 0x13)
      else IType(imm, rs1, Functs(op).1, rd, 0x13)
    case Load(k, rd, rs1, imm) => IType(imm, rs1, LoadFunct(k), rd, 0x03)
    case Store(k, rs2, rs1, imm) => SType(imm, rs2, rs1, StoreFunct(k), 0x23)
    case Branch(c, rs1, rs2, target) => BType(Wrap(target - pc), rs2, rs1, CondFunct(c), 0x63)
    case Jal(rd, target) => JType(Wrap(target - pc), rd, 0x6f)
    case Jalr(rd, rs1, imm) => IType(imm, rs1, 0, rd, 0x67)
    case Lui(rd, uimm) => UType(uimm, rd, 0x37)
    case Auipc(rd, uimm) => UType(uimm, rd, 0x17)
    case Memop(f3, rd, rs1, rs2) => RType(0, rs2, rs1, f3, rd, 0x0b)
    case Nop => 0x0ff0_000f
    case Ecall => 0x73
    case Ebreak => 0x10_0073
  }

  // ---- the transcoder's decoder ----

  function Decode(w: Word, off: Word): Insn {
    var opc, rd, rs1, rs2, f3, f7 := w % 128, RdOf(w), Rs1Of(w), Rs2Of(w), F3Of(w), F7Of(w);
    if opc == 0x13 then
      if f3 == 1 then RegImm(Sll, rd, rs1, rs2)
      else if f3 == 5 then RegImm(if f7 == 0x20 then Sra else Srl, rd, rs1, rs2)
      else RegImm(AluOfF3(f3, 0), rd, rs1, ImmI(w))
    else if opc == 0x33 then
      RegReg(if f7 == 1 then MulOfF3(f3) else if f7 == 0x20 then (if f3 == 0 then Sub else Sra) else AluOfF3(f3, 0), rd, rs1, rs2)
    else if opc == 0x03 then
      (match LoadOfF3(f3) case Some(k) => Load(k, rd, rs1, ImmI(w)) case None => Illegal)
    else if opc == 0x23 then
      (match StoreOfF3(f3) case Some(k) => Store(k, rs2, rs1, ImmS(w)) case None => Illegal)
    else if opc == 0x63 then
      (match CondOfF3(f3) case Some(c) => Branch(c, rs1, rs2, Wrap(off + ImmB(w))) case None => Illegal)
    else if opc == 0x6f then Jal(rd, Wrap(off + ImmJ(w)))
    else if opc == 0x67 then Jalr(rd, rs1, ImmI(w))
    else if opc == 0x37 then Lui(rd, w / 0x1000)
    else if opc == 0x17 then Auipc(rd, w / 0x1000)
    else if opc == 0x0b then (if f7 == 0 then Memop(f3, rd, rs1, rs2) else Illegal)
    else if opc == 0x0f then (if rd != 0 || rs1 != 0 || (f3 != 0 && f3 != 1) then Illegal else Nop)
    else if opc == 0x73 then
      if f3 == 0 && rd == 0 && rs1 == 0 && w / 0x10_0000 == 0 then Ecall
      else if f3 == 0 && rd == 0 && rs1 == 0 && w / 0x10_0000 == 1 then Ebreak
      else Illegal
    else Illegal
  }

  // ---- fields come back ----

  lemma RTypeFields(f7: Funct7, rs2: Reg, rs1: Reg, f3: Funct3, rd: Reg, opc: Opcode)
    ensures var w := RType(f7, rs2, rs1, f3, rd, opc);
            w % 128 == opc && RdOf(w) == rd && F3Of(w) == f3 && Rs1Of(w) == rs1 && Rs2Of(w) == rs2 && F7Of(w) == f7
  {
    var w := RType(f7, rs2, rs1, f3, rd, opc);
    var q4 := f7 * 32 + rs2;
    var q3 := q4 * 32 + rs1;
    var q2 := q3 * 8 + f3;
    var q1 := q2 * 32 + rd;
    QuotientIs(w, 128, q1, opc);
    QuotientIs(q1, 32, q2, rd);
    QuotientIs(w, 0x1000, q2, rd * 0x80 + opc);
    QuotientIs(q2, 8, q3, f3);
    QuotientIs(w, 0x8000, q3, f3 * 0x1000 + rd * 0x80 + opc);
    QuotientIs(q3, 32, q4, rs1);
    QuotientIs(w, 0x10_0000, q4, rs1 * 0x8000 + f3 * 0x1000 + rd * 0x80 + opc);
    QuotientIs(q4, 32, f7, rs2);
    QuotientIs(w, 0x200_0000, f7, rs2 * 0x10_0000 + rs1 * 0x8000 + f3 * 0x1000 + rd * 0x80 + opc);
  }

  /** The immediate fields that are not whole register or function fields. */
  lemma Fields(w: Word)
    ensures w / 0x8000_0000 == F7Of(w) / 64 && w / 0x200_0000 % 64 == F7Of(w) % 64
    ensures w / 0x80 % 2 == RdOf(w) % 2 && w / 0x100 % 16 == RdOf(w) / 2
    ensures w / 0x10_0000 == F7Of(w) * 32 + Rs2Of(w) && w / 0x10_0000 % 2 == Rs2Of(w) % 2
    ensures w / 0x20_0000 % 1024 == F7Of(w) % 64 * 16 + Rs2Of(w) / 2
    ensures w / 0x1000 % 256 == Rs1Of(w) * 8 + F3Of(w)
  {
    Whole(w);
    var f7, rs2, rs1, f3, rd, opc := F7Of(w), Rs2Of(w), Rs1Of(w), F3Of(w), RdOf(w), w % 128;
    FieldsOf(f7, rs2, rs1, f3, rd, opc);
  }

  lemma FieldsOf(f7: Funct7, rs2: Reg, rs1: Reg, f3: Funct3, rd: Reg, opc: Opcode)
    ensures var w := RType(f7, rs2, rs1, f3, rd, opc);
            w / 0x8000_0000 == f7 / 64 && w / 0x200_0000 % 64 == f7 % 64 && w / 0x80 % 2 == rd % 2 && w / 0x100 % 16 == rd / 2 &&
            w / 0x10_0000 == f7 * 32 + rs2 && w / 0x10_0000 % 2 == rs2 % 2 && w / 0x20_0000 % 1024 == f7 % 64 * 16 + rs2 / 2 &&
            w / 0x1000 % 256 == rs1 * 8 + f3
  {
    var w := RType(f7, rs2, rs1, f3, rd, opc);
    var low := rs1 * 0x8000 + f3 * 0x1000 + rd * 0x80 + opc;
    var q := ((f7 * 32 + rs2) * 32 + rs1) * 8 + f3;
    QuotientIs(w, 0x8000_0000, f7 / 64, f7 % 64 * 0x200_0000 + rs2 * 0x10_0000 + low);
    QuotientIs(w, 0x200_0000, f7, rs2 * 0x10_0000 + low);
    QuotientIs(w, 0x80, q * 32 + rd, opc);
    QuotientIs(q * 32 + rd, 2, q * 16 + rd / 2, rd % 2);
    QuotientIs(w, 0x100, q * 16 + rd / 2, rd % 2 * 0x80 + opc);
    QuotientIs(q * 16 + rd / 2, 16, q, rd / 2);
    QuotientIs(w, 0x10_0000, f7 * 32 + rs2, low);
    QuotientIs(f7 * 32 + rs2, 2, f7 * 16 + rs2 / 2, rs2 % 2);
    QuotientIs(w, 0x20_0000, f7 * 16 + rs2 / 2, rs2 % 2 * 0x10_0000 + low);
    QuotientIs(f7 * 16 + rs2 / 2, 1024, f7 / 64, f7 % 64 * 16 + rs2 / 2);
    QuotientIs(w, 0x1000, q, rd * 0x80 + opc);
    QuotientIs(q, 256, f7 * 32 + rs2, rs1 * 8 + f3);
  }

  /** A word is made up of its fields. */
  lemma Whole(w: Word)
    ensures w == RType(F7Of(w), Rs2Of(w), Rs1Of(w), F3Of(w), RdOf(w), w % 128)
  {
    var q1 := w / 0x80;
    var q2 := q1 / 32;
    var q3 := q2 / 8;
    var q4 := q3 / 32;
    RTypeFields(q4 / 32, q4 % 32, q3 % 32, q2 % 8, q1 % 32, w % 128);
  }

  /** Sign extension brings back a number from its low bits. */
  lemma LowBack(imm: Word, half: nat, turns: nat)
    requires half > 0 && turns * (2 * half) == 0x1_0000_0000 && (imm < half || imm + half >= 0x1_0000_0000)
    ensures SignExtend(imm % (2 * half), half) == imm
  {
    hide SignExtend;
    if imm < half {
      QuotientIs(imm, 2 * half, 0, imm);
    } else {
      assert (turns - 1) * (2 * half) == turns * (2 * half) - 2 * half;
      QuotientIs(imm, 2 * half, turns - 1, imm + 2 * half - 0x1_0000_0000);
    }
    Extended(imm, imm % (2 * half), half);
  }

  /** Sign extension brings back the number whose low bits were kept. */
  lemma Extended(imm: Word, v: nat, half: nat)
    requires 0 < half <= 0x8000_0000 && v < 2 * half
    requires if imm < half then v == imm else imm + half >= 0x1_0000_0000 && v == imm - 0x1_0000_0000 + 2 * half
    ensures SignExtend(v, half) == imm
  {
    hide Wrap;
    QuotientIs(v, 2 * half, 0, v);
    if imm >= half { WrapNear(v - 2 * half); }
  }

  lemma ITypeReads(imm: Word, rs1: Reg, f3: Funct3, rd: Reg, opc: Opcode)
    requires Imm12(imm)
    ensures var w := IType(imm, rs1, f3, rd, opc);
            w % 128 == opc && RdOf(w) == rd && F3Of(w) == f3 && Rs1Of(w) == rs1 && ImmI(w) == imm
  {
    var v := imm % 0x1000;
    assert IType(imm, rs1, f3, rd, opc) == RType(v / 32, v % 32, rs1, f3, rd, opc);
    hide IType, RType, RdOf, F3Of, Rs1Of, Rs2Of, F7Of;
    RTypeFields(v / 32, v % 32, rs1, f3, rd, opc);
    Fields(IType(imm, rs1, f3, rd, opc));
    LowBack(imm, 0x800, 0x10_0000);
  }

  lemma STypeReads(imm: Word, rs2: Reg, rs1: Reg, f3: Funct3, opc: Opcode)
    requires Imm12(imm)
    ensures var w := SType(imm, rs2, rs1, f3, opc);
            w % 128 == opc && F3Of(w) == f3 && Rs1Of(w) == rs1 && Rs2Of(w) == rs2 && ImmS(w) == imm
  {
    var v := imm % 0x1000;
    assert imm / 0x20 % 0x80 * 32 + imm % 0x20 == v;
    assert SType(imm, rs2, rs1, f3, opc) == RType(imm / 0x20 % 0x80, rs2, rs1, f3, imm % 0x20, opc);
    hide SType, RType, F3Of, Rs1Of, Rs2Of;
    RTypeFields(imm / 0x20 % 0x80, rs2, rs1, f3, imm % 0x20, opc);
    LowBack(imm, 0x800, 0x10_0000);
  }

  lemma BTypeReads(imm: Word, rs2: Reg, rs1: Reg, f3: Funct3, opc: Opcode)
    requires imm % 2 == 0 && (imm < 0x1000 || imm >= 0xffff_f000)
    ensures var w := BType(imm, rs2, rs1, f3, opc);
            w % 128 == opc && F3Of(w) == f3 && Rs1Of(w) == rs1 && Rs2Of(w) == rs2 && ImmB(w) == imm
  {
    var e, x, y, b := imm / 0x1000 % 2, imm / 0x20 % 0x40, imm / 2 % 0x10, imm / 0x800 % 2;
    var f7, rd := e * 64 + x, y * 2 + b;
    assert BType(imm, rs2, rs1, f3, opc) == RType(f7, rs2, rs1, f3, rd, opc);
    hide BType, RType, F3Of, Rs1Of, Rs2Of, RdOf, F7Of, SignExtend;
    RTypeFields(f7, rs2, rs1, f3, rd, opc);
    FieldsOf(f7, rs2, rs1, f3, rd, opc);
    QuotientIs(f7, 64, e, x);
    QuotientIs(rd, 2, y, b);
    BDigits(imm);
    LowBack(imm, 0x1000, 0x8_0000);
  }

  lemma BDigits(imm: Word)
    requires imm % 2 == 0
    ensures imm / 0x1000 % 2 * 0x1000 + imm / 0x800 % 2 * 0x800 + imm / 0x20 % 0x40 * 0x20 + imm / 2 % 0x10 * 2 == imm % 0x2000
  {
    DivideTwice(imm, 2, 0x10);
    DivideTwice(imm, 0x20, 0x40);
    DivideTwice(imm, 0x800, 2);
    DivideTwice(imm, 0x1000, 2);
  }

  lemma JDigits(imm: Word)
    requires imm % 2 == 0
    ensures imm / 0x10_0000 % 2 * 0x10_0000 + imm / 0x1000 % 0x100 * 0x1000 + imm / 0x800 % 2 * 0x800 + imm / 2 % 0x400 * 2 == imm % 0x20_0000
  {
    DivideTwice(imm, 2, 0x400);
    DivideTwice(imm, 0x800, 2);
    DivideTwice(imm, 0x1000, 0x100);
    DivideTwice(imm, 0x10_0000, 2);
  }

  lemma UTypeReads(upper: nat, rd: Reg, opc: Opcode)
    requires upper < 0x10_0000
    ensures var w := UType(upper, rd, opc);
            w % 128 == opc && RdOf(w) == rd && w / 0x1000 == upper && ImmU(w) == upper * 0x1000
  {
    QuotientIs(UType(upper, rd, opc), 0x1000, upper, rd * 0x80 + opc);
    QuotientIs(UType(upper, rd, opc), 0x80, upper * 32 + rd, opc);
    QuotientIs(upper * 32 + rd, 32, upper, rd);
  }

  lemma JFields(e: nat, x: nat, b: nat, y: nat, rd: Reg, opc: Opcode)
    requires e < 2 && x < 0x400 && b < 2 && y < 0x100
    ensures var w := e * 0x8000_0000 + x * 0x20_0000 + b * 0x10_0000 + y * 0x1000 + rd * 0x80 + opc;
            w % 128 == opc && RdOf(w) == rd && ImmJ(w) == SignExtend(e * 0x10_0000 + y * 0x1000 + b * 0x800 + x * 2, 0x10_0000)
  {
    hide SignExtend;
    var low := rd * 0x80 + opc;
    var w := e * 0x8000_0000 + x * 0x20_0000 + b * 0x10_0000 + y * 0x1000 + low;
    var q3 := e * 0x400 + x;
    var q2 := q3 * 2 + b;
    var q1 := q2 * 0x100 + y;
    QuotientIs(w, 0x80, q1 * 32 + rd, opc);
    QuotientIs(q1 * 32 + rd, 32, q1, rd);
    QuotientIs(w, 0x1000, q1, low);
    QuotientIs(q1, 0x100, q2, y);
    QuotientIs(w, 0x10_0000, q2, y * 0x1000 + low);
    QuotientIs(q2, 2, q3, b);
    QuotientIs(w, 0x20_0000, q3, b * 0x10_0000 + y * 0x1000 + low);
    QuotientIs(q3, 0x400, e, x);
    QuotientIs(w, 0x8000_0000, e, x * 0x20_0000 + b * 0x10_0000 + y * 0x1000 + low);
  }

  lemma JTypeReads(imm: Word, rd: Reg, opc: Opcode)
    requires imm % 2 == 0 && (imm < 0x10_0000 || imm >= 0xfff0_0000)
    ensures var w := JType(imm, rd, opc); w % 128 == opc && RdOf(w) == rd && ImmJ(w) == imm
  {
    hide SignExtend, ImmJ, RdOf;
    JFields(imm / 0x10_0000 % 2, imm / 2 % 0x400, imm / 0x800 % 2, imm / 0x1000 % 0x100, rd, opc);
    JDigits(imm);
    LowBack(imm, 0x10_0000, 0x800);
  }

  // ---- and the instruction ----

  /** Adding an offset to pc reaches the target it was taken to. */
  lemma OffsetBack(pc: Word, target: Word)
    ensures Wrap(pc + Wrap(target - pc)) == target
  {
    WrapNear(target - pc);
    WrapNear(pc + Wrap(target - pc));
  }

  lemma DecodesAlu(d: Insn, pc: Word)
    requires Fits(d, pc) && (d.RegReg? || d.RegImm?)
    ensures Decode(Assemble(d, pc), pc) == d
  {
    hide RType, IType, RdOf, F3Of, Rs1Of, Rs2Of, F7Of, ImmI;
    match d
    case RegReg(op, rd, rs1, rs2) => RTypeFields(Functs(op).0, rs2, rs1, Functs(op).1, rd, 0x33);
    case RegImm(op, rd, rs1, imm) =>
      if op in {Sll, Srl, Sra} {
        RTypeFields(Functs(op).0, imm, rs1, Functs(op).1, rd, 0x13);
      } else {
        ITypeReads(imm, rs1, Functs(op).1, rd, 0x13);
      }
  }

  lemma DecodesMemory(d: Insn, pc: Word)
    requires Fits(d, pc) && (d.Load? || d.Store? || d.Branch?)
    ensures Decode(Assemble(d, pc), pc) == d
  {
    hide IType, SType, BType, RdOf, F3Of, Rs1Of, Rs2Of, F7Of, ImmI, ImmS, ImmB, Wrap;
    match d
    case Load(k, rd, rs1, imm) => ITypeReads(imm, rs1, LoadFunct(k), rd, 0x03);
    case Store(k, rs2, rs1, imm) => STypeReads(imm, rs2, rs1, StoreFunct(k), 0x23);
    case Branch(c, rs1, rs2, target) =>
      BTypeReads(Wrap(target - pc), rs2, rs1, CondFunct(c), 0x63);
      OffsetBack(pc, target);
  }

  /** What the transcoder decodes from an assembled instruction is that instruction. */
  lemma DecodeBack(d: Insn, pc: Word)
    requires Fits(d, pc)
    ensures Decode(Assemble(d, pc), pc) == d
  {
    hide RType, IType, JType, UType, RdOf, F3Of, Rs1Of, Rs2Of, F7Of, ImmI, ImmJ, ImmU, Wrap;
    match d
    case RegReg(_, _, _, _) => DecodesAlu(d, pc);
    case RegImm(_, _, _, _) => DecodesAlu(d, pc);
    case Load(_, _, _, _) => DecodesMemory(d, pc);
    case Store(_, _, _, _) => DecodesMemory(d, pc);
    case Branch(_, _, _, _) => DecodesMemory(d, pc);
    case Jal(rd, target) =>
      JTypeReads(Wrap(target - pc), rd, 0x6f);
      OffsetBack(pc, target);
    case Jalr(rd, rs1, imm) => ITypeReads(imm, rs1, 0, rd, 0x67);
    case Lui(rd, uimm) => UTypeReads(uimm, rd, 0x37);
    case Auipc(rd, uimm) => UTypeReads(uimm, rd, 0x17);
    case Memop(f3, rd, rs1, rs2) => RTypeFields(0, rs2, rs1, f3, rd, 0x0b);
    case _ => Zeros();
  }

  lemma Zeros()
    ensures var f, c, b: Word := 0x0ff0_000f, 0x73, 0x10_0073;
            RdOf(f) == RdOf(c) == RdOf(b) == 0 && Rs1Of(f) == Rs1Of(c) == Rs1Of(b) == 0 && F3Of(f) == F3Of(c) == F3Of(b) == 0
  {
  }

  lemma LowEven(v: nat, half: nat)
    requires half > 0
    ensures v % (2 * half) < 2 * half && v % (2 * half) % 2 == v % 2
  {
    var t, low := v / (2 * half), v % (2 * half);
    assert v == t * (2 * half) + low;
    assert t * (2 * half) == 2 * (t * half);
  }

  /** Sign extension lands within half of zero and keeps what it is a multiple of. */
  lemma ExtendedNear(v: nat, half: nat)
    requires 0 < half <= 0x8000_0000
    ensures var r := SignExtend(v, half); (r < half || r + half >= 0x1_0000_0000) && (half % 2 == 0 && v % 2 == 0 ==> r % 2 == 0)
  {
    hide Wrap;
    LowEven(v, half);
    WrapNear(v % (2 * half) - 2 * half);
  }

  /** An even number's sign extension is even and near zero. */
  lemma EvenNear(t: nat, half: nat)
    requires 0 < half <= 0x8000_0000 && half % 2 == 0
    ensures var r := SignExtend(2 * t, half); (r < half || r + half >= 0x1_0000_0000) && r % 2 == 0
  {
    ExtendedNear(2 * t, half);
  }

  lemma FieldsFit(w: Word)
    ensures Imm12(ImmI(w)) && Imm12(ImmS(w)) && w / 0x1000 < 0x10_0000
    ensures ImmB(w) % 2 == ImmJ(w) % 2 == 0 && (ImmB(w) < 0x1000 || ImmB(w) >= 0xffff_f000) && (ImmJ(w) < 0x10_0000 || ImmJ(w) >= 0xfff0_0000)
  {
    hide SignExtend;
    var r: nat, b: nat, f: nat, j: nat := w / 0x80 % 2, w / 0x100 % 16, w / 0x200_0000 % 64, w / 0x8000_0000;
    var x: nat, y: nat, z: nat := w / 0x1000 % 256, w / 0x10_0000 % 2, w / 0x20_0000 % 1024;
    ExtendedNear(w / 0x10_0000, 0x800);
    ExtendedNear(w / 0x200_0000 * 32 + w / 0x80 % 32, 0x800);
    EvenNear(j * 0x800 + r * 0x400 + f * 16 + b, 0x1000);
    EvenNear(j * 0x8_0000 + x * 0x800 + y * 0x400 + z, 0x10_0000);
  }

  /** Whatever word it is given, what it decodes has fields the rest of the transcoder may rely on. */
  lemma DecodeFits(w: Word, pc: Word)
    ensures Decode(w, pc).Illegal? || Fits(Decode(w, pc), pc)
  {
    hide Wrap, ImmI, ImmS, ImmB, ImmJ, RdOf, Rs1Of, Rs2Of, F7Of;
    FieldsFit(w);
    BackAt(pc, ImmB(w));
    BackAt(pc, ImmJ(w));
  }

  lemma BackAt(pc: Word, off: Word)
    ensures Wrap(Wrap(pc + off) - pc) == off
  {
    WrapNear(pc + off);
    WrapNear(Wrap(pc + off) - pc);
  }

  // ---- one decoded instruction at its true address ----

  /** Where a trap leaves the engine: at the instruction if the handler stops it, else after it. */
  function Trap<H>(r: (Machine<H>, bool), pc: Word, width: nat): Stepped<H> {
    var (m', stop) := r;
    if stop then Off(pc, m') else On(Wrap(pc + width), m')
  }

  /** Instruction d, `width` bytes long, at pc; its handlers see the word it was decoded from.
      The bulk instruction is the illegal hook's to serve. */
  function InsnStep<H>(env: Env<H>, d: Insn, pc: Word, width: nat, raw: Word, m: Machine<H>): Stepped<H> {
    var next := Wrap(pc + width);
    match d
    case RegReg(op, rd, rs1, rs2) => On(next, SetReg(m, rd, Alu(op, m.x[rs1], m.x[rs2])))
    case RegImm(op, rd, rs1, imm) => On(next, SetReg(m, rd, Alu(op, m.x[rs1], imm)))
    case Load(k, rd, rs1, imm) => On(next, DoLoad(env, m, k, rd, Wrap(m.x[rs1] + imm)))
    case Store(k, rs2, rs1, imm) => On(next, DoStore(env, m, k, Wrap(m.x[rs1] + imm), m.x[rs2]))
    case Branch(c, rs1, rs2, target) => On(if Taken(c, m.x[rs1], m.x[rs2]) then target else next, m)
    case Jal(rd, target) => On(target, SetReg(m, rd, next))
    case Jalr(rd, rs1, imm) => On(ClearBit0(Wrap(m.x[rs1] + imm)), SetReg(m, rd, next))
    case Lui(rd, uimm) => On(next, SetReg(m, rd, Wrap(uimm * 0x1000)))
    case Auipc(rd, uimm) => On(next, SetReg(m, rd, Wrap(pc + uimm * 0x1000)))
    case Nop => On(next, m)
    case Ecall => Trap(env.ecall(m, raw), pc, width)
    case Ebreak => Trap(env.ebreak(m, raw), pc, width)
    case Memop(_, _, _, _) => Trap(env.illegal(m, raw), pc, width)
    case Illegal => Trap(env.illegal(m, raw), pc, width)
  }

  lemma UpperIs(w: Word)
    ensures Wrap(w / 0x1000 * 0x1000) == w / 0x1000 * 0x1000 == ImmU(w)
  {
    WrapNear(ImmU(w));
  }

  lemma MeansAlu<H>(env: Env<H>, w: Word, pc: Word, m: Machine<H>)
    requires w % 128 == 0x13 || w % 128 == 0x33
    ensures InsnStep(env, Decode(w, pc), pc, 4, w, m) == RecStep(env, Leaf32(w, pc), pc, 4, m)
  {
    hide Alu, Wrap, ImmI, RdOf, Rs1Of, Rs2Of, F7Of;
    assert F3Of(w) < 8;
  }

  lemma MeansMemory<H>(env: Env<H>, w: Word, pc: Word, m: Machine<H>)
    requires w % 128 == 0x03 || w % 128 == 0x23 || w % 128 == 0x63
    ensures InsnStep(env, Decode(w, pc), pc, 4, w, m) == RecStep(env, Leaf32(w, pc), pc, 4, m)
  {
    hide Wrap, Taken, ImmI, ImmS, ImmB, RdOf, Rs1Of, Rs2Of, F7Of, DoLoad, DoStore;
    assert F3Of(w) < 8;
  }

  /** Every word there is means to the transcoder's decoder what it means to the decode-ahead engine. */
  lemma DecodeMeans<H>(env: Env<H>, w: Word, pc: Word, m: Machine<H>)
    ensures InsnStep(env, Decode(w, pc), pc, 4, w, m) == RecStep(env, Leaf32(w, pc), pc, 4, m)
  {
    if w % 128 == 0x13 || w % 128 == 0x33 {
      MeansAlu(env, w, pc, m);
    } else if w % 128 == 0x03 || w % 128 == 0x23 || w % 128 == 0x63 {
      MeansMemory(env, w, pc, m);
    } else {
      hide Wrap, ImmI, ImmJ, ImmU, RdOf, Rs1Of, Rs2Of, F7Of, F3Of, ClearBit0;
      UpperIs(w);
    }
  }
}
