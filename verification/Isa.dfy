/** RV32IM instructions in decoded form and what one instruction computes. */
module Isa {
  import opened Words

  type Reg = r: nat | r < 32

  datatype AluOp =
    | Add | Sll | Slt | Sltu | Xor | Srl | Or | And | Sub | Sra
    | Mul | Mulh | Mulhsu | Mulhu | Div | Divu | Rem | Remu

  datatype LoadKind = LB | LH | LW | LBU | LHU
  datatype StoreKind = SB | SH | SW
  datatype Cond = BEQ | BNE | BLT | BGE | BLTU | BGEU

  /** A decoded instruction; `imm` is the sign-extended immediate as a word and
      `target` an absolute byte address. Memop is the custom-0 bulk memory instruction. */
  datatype Insn =
    | RegReg(op: AluOp, rd: Reg, rs1: Reg, rs2: Reg)
    | RegImm(op: AluOp, rd: Reg, rs1: Reg, imm: Word)
    | Load(lk: LoadKind, rd: Reg, rs1: Reg, imm: Word)
    | Store(sk: StoreKind, rs2: Reg, rs1: Reg, imm: Word)
    | Branch(cond: Cond, rs1: Reg, rs2: Reg, target: Word)
    | Jal(rd: Reg, target: Word)
    | Jalr(rd: Reg, rs1: Reg, imm: Word)
    | Lui(rd: Reg, uimm: Word)
    | Auipc(rd: Reg, uimm: Word)
    | Memop(f3: nat, rd: Reg, rs1: Reg, rs2: Reg)
    | Nop | Ecall | Ebreak | Illegal

  function Alu(op: AluOp, a: Word, b: Word): Word {
    match op
    case Add => Wrap(a + b)
    case Sub => Wrap(a - b)
    case Sll => ShiftLeft(a, b % 32)
    case Slt => if Signed(a) < Signed(b) then 1 else 0
    case Sltu => if a < b then 1 else 0
    case Xor => Bits32(BitXor, a, b)
    case Srl => ShiftRight(a, b % 32)
    case Sra => ShiftRightSigned(a, b % 32)
    case Or => Bits32(BitOr, a, b)
    case And => Bits32(BitAnd, a, b)
    case Mul => Wrap(a * b)
    case Mulh => Wrap((Signed(a) * Signed(b)) / TWO32)
    case Mulhsu => Wrap((Signed(a) * b) / TWO32)
    case Mulhu => Wrap((a * b) / TWO32)
    case Div =>
      if b == 0 then 0xffff_ffff
      else if a == 0x8000_0000 && b == 0xffff_ffff then a
      else Wrap(TruncDiv(Signed(a), Signed(b)))
    case Divu => if b == 0 then 0xffff_ffff else Wrap(a / b)
    case Rem =>
      if b == 0 then a
      else if a == 0x8000_0000 && b == 0xffff_ffff then 0
      else Wrap(TruncMod(Signed(a), Signed(b)))
    case Remu => if b == 0 then a else Wrap(a % b)
  }

  predicate Taken(c: Cond, a: Word, b: Word) {
    match c
    case BEQ => a == b
    case BNE => a != b
    case BLT => Signed(a) < Signed(b)
    case BGE => Signed(a) >= Signed(b)
    case BLTU => a < b
    case BGEU => a >= b
  }

  function LoadSize(k: LoadKind): Size {
    match k
    case LB => 1 case LBU => 1
    case LH => 2 case LHU => 2
    case LW => 4
  }

  function StoreSize(k: StoreKind): Size {
    match k
    case SB => 1 case SH => 2 case SW => 4
  }

  /** The register value a load of kind k makes of the word it read: narrowing, then
      sign or zero extension. */
  function Extend(k: LoadKind, v: Word): Word {
    match k
    case LB => SignExtend(v, 0x80)
    case LH => SignExtend(v, 0x8000)
    case LW => v
    case LBU => v % 0x100
    case LHU => v % 0x1_0000
  }

  predicate IsImmOp(op: AluOp) {
    op in {Add, Sll, Slt, Sltu, Xor, Srl, Or, And, Sra}
  }

  /** A 12-bit signed immediate, as a word. */
  predicate Imm12(imm: Word) {
    imm < 0x800 || imm >= 0xffff_f800
  }

  /** What the decoder guarantees of every instruction's fields. */
  predicate Encodable(d: Insn) {
    match d
    case RegImm(op, _, _, imm) => IsImmOp(op) && (if op in {Sll, Srl, Sra} then imm < 32 else Imm12(imm))
    case Load(_, _, _, imm) => Imm12(imm)
    case Store(_, _, _, imm) => Imm12(imm)
    case Jalr(_, _, imm) => Imm12(imm)
    case Lui(_, uimm) => uimm < 0x10_0000
    case Auipc(_, uimm) => uimm < 0x10_0000
    case Memop(f3, _, _, _) => f3 < 8
    case _ => true
  }
}
