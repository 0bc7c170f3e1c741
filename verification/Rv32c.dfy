/** The two engines' decoders, 32-bit and compressed, and their agreement instruction by instruction. */
module Rv32c {
  import opened Words
  import opened Isa
  import opened Machines
  import opened OpWords

  // ---- fields of a 32-bit instruction (section 2.3 of the unprivileged ISA manual) ----

  function RdOf(w: Word): Reg { w / 0x80 % 32 }
  function F3Of(w: Word): nat { w / 0x1000 % 8 }
  function Rs1Of(w: Word): Reg { w / 0x8000 % 32 }
  function Rs2Of(w: Word): Reg { w / 0x10_0000 % 32 }
  function F7Of(w: Word): nat { w / 0x200_0000 }
  function ImmI(w: Word): Word { SignExtend(w / 0x10_0000, 0x800) }
  function ImmS(w: Word): Word { SignExtend(w / 0x200_0000 * 32 + w / 0x80 % 32, 0x800) }
  function ImmB(w: Word): Word {
    SignExtend(w / 0x8000_0000 * 0x1000 + w / 0x80 % 2 * 0x800 + w / 0x200_0000 % 64 * 32 + w / 0x100 % 16 * 2, 0x1000)
  }
  function ImmU(w: Word): Word { w - w % 0x1000 }
  function ImmJ(w: Word): Word {
    SignExtend(w / 0x8000_0000 * 0x10_0000 + w / 0x1000 % 256 * 0x1000 + w / 0x10_0000 % 2 * 0x800 + w / 0x20_0000 % 1024 * 2, 0x10_0000)
  }

  // ---- fields of a compressed instruction (section 16.8) ----

  type Half = x: int | 0 <= x < 0x1_0000

  function Sel(c: Half): nat { c / 0x2000 % 8 * 4 + c % 4 }
  function RdC(c: Half): Reg { c / 0x80 % 32 }
  function Rs2C(c: Half): Reg { c / 4 % 32 }
  function RdP(c: Half): Reg { c / 4 % 8 + 8 }
  function RsP(c: Half): Reg { c / 0x80 % 8 + 8 }
  function Bit12(c: Half): nat { c / 0x1000 % 2 }
  function Shamt(c: Half): nat { c / 4 % 32 + Bit12(c) * 32 }
  function ImmCI(c: Half): Word { SignExtend(Shamt(c), 32) }
  function Imm4Spn(c: Half): Word {
    c / 0x800 % 4 * 16 + c / 0x80 % 16 * 64 + c / 0x40 % 2 * 4 + c / 0x20 % 2 * 8
  }
  function ImmLw(c: Half): Word { c / 0x400 % 8 * 8 + c / 0x40 % 2 * 4 + c / 0x20 % 2 * 64 }
  function ImmCJ(c: Half): Word {
    SignExtend(Bit12(c) * 0x800 + c / 0x800 % 2 * 16 + c / 0x200 % 4 * 0x100 + c / 0x100 % 2 * 0x400 + c / 0x80 % 2 * 64 +
               c / 0x40 % 2 * 128 + c / 8 % 8 * 2 + c / 4 % 2 * 32, 0x800)
  }
  function Imm16Sp(c: Half): Word {
    SignExtend(c / 0x40 % 2 * 16 + c / 4 % 2 * 32 + c / 0x20 % 2 * 64 + c / 8 % 4 * 128 + Bit12(c) * 0x200, 0x200)
  }
  function ImmCLui(c: Half): Word { SignExtend(c / 4 % 32 * 0x1000 + Bit12(c) * 0x2_0000, 0x2_0000) }
  function ImmCB(c: Half): Word {
    SignExtend(Bit12(c) * 0x100 + c / 0x400 % 4 * 8 + c / 0x20 % 4 * 64 + c / 8 % 4 * 2 + c / 4 % 2 * 32, 0x100)
  }
  function ImmLwsp(c: Half): Word { c / 0x10 % 8 * 4 + c / 4 % 4 * 64 + Bit12(c) * 32 }
  function ImmSwsp(c: Half): Word { c / 0x200 % 16 * 4 + c / 0x80 % 4 * 64 }

  // ---- the interpreter: decode fused with the action it jumps to ----

  datatype Operand = FromReg(r: Reg) | Const(v: Word)

  /** The shared action bodies and the operands a decode case leaves for them. */
  datatype Action =
    | DoAlu(f3: nat, f7: nat, rd: Reg, a: Operand, b: Operand)
    | DoMul(f3: nat, rd: Reg, rs1: Reg, rs2: Reg)
    | DoLoadAt(f3: nat, rd: Reg, base: Reg, imm: Word)
    | DoStoreAt(f3: nat, rs2: Reg, base: Reg, imm: Word)
    | DoBranch(f3: nat, ra: Reg, cmp: Operand, imm: Word)
    | DoJal(rd: Reg, imm: Word)
    | DoJalr(rd: Reg, rs1: Reg, imm: Word)
    | DoLui(rd: Reg, imm: Word)
    | DoAuipc(rd: Reg, imm: Word)
    | DoNothing
    | DoSystem(f3: nat, rd: Reg, rs1: Reg, imm: Word)
    | DoEbreak
    | DoIllegal

  function Fused32(w: Word): Action {
    var opc, rd, rs1, rs2, f3, f7 := w % 128, RdOf(w), Rs1Of(w), Rs2Of(w), F3Of(w), F7Of(w);
    if opc == 0x13 then
      if f3 == 1 || f3 == 5 then DoAlu(f3, f7, rd, FromReg(rs1), Const(rs2))
      else DoAlu(f3, 0, rd, FromReg(rs1), Const(ImmI(w)))
    else if opc == 0x33 then
      if f7 == 1 then DoMul(f3, rd, rs1, rs2) else DoAlu(f3, f7, rd, FromReg(rs1), FromReg(rs2))
    else if opc == 0x03 then DoLoadAt(f3, rd, rs1, ImmI(w))
    else if opc == 0x23 then DoStoreAt(f3, rs2, rs1, ImmS(w))
    else if opc == 0x63 then DoBranch(f3, rs1, FromReg(rs2), ImmB(w))
    else if opc == 0x6f then DoJal(rd, ImmJ(w))
    else if opc == 0x67 then DoJalr(rd, rs1, ImmI(w))
    else if opc == 0x37 then DoLui(rd, ImmU(w))
    else if opc == 0x17 then DoAuipc(rd, ImmU(w))
    else if opc == 0x0f then (if rd != 0 || rs1 != 0 || (f3 != 0 && f3 != 1) then DoIllegal else DoNothing)
    else if opc == 0x73 then DoSystem(f3, rd, rs1, w / 0x10_0000)
    else DoIllegal
  }

  function Fused16(c: Half): Action {
    var sel, rd := Sel(c), RdC(c);
    if sel == 0 then
      (if Imm4Spn(c) == 0 then DoIllegal else DoAlu(0, 0, RdP(c), FromReg(2), Const(Imm4Spn(c))))
    else if sel == 8 then DoLoadAt(2, RdP(c), RsP(c), ImmLw(c))
    else if sel == 24 then DoStoreAt(2, RdP(c), RsP(c), ImmLw(c))
    else if sel == 1 then DoAlu(0, 0, rd, FromReg(rd), Const(ImmCI(c)))
    else if sel == 5 then DoJal(1, ImmCJ(c))
    else if sel == 21 then DoJal(0, ImmCJ(c))
    else if sel == 9 then DoAlu(0, 0, rd, Const(0), Const(ImmCI(c)))
    else if sel == 13 then
      if rd == 2 then (if Imm16Sp(c) == 0 then DoIllegal else DoAlu(0, 0, 2, FromReg(2), Const(Imm16Sp(c))))
      else (if ImmCLui(c) == 0 then DoIllegal else DoLui(rd, ImmCLui(c)))
    else if sel == 17 then
      var r, k := RsP(c), c / 0x400 % 4;
      if k == 0 then DoAlu(5, 0, r, FromReg(r), Const(Shamt(c)))
      else if k == 1 then DoAlu(5, 0x20, r, FromReg(r), Const(Shamt(c)))
      else if k == 2 then DoAlu(7, 0, r, FromReg(r), Const(ImmCI(c)))
      else if Bit12(c) == 1 then DoIllegal
      else
        var j := c / 0x20 % 4;
        if j == 0 then DoAlu(0, 0x20, r, FromReg(r), FromReg(RdP(c)))
        else if j == 1 then DoAlu(4, 0, r, FromReg(r), FromReg(RdP(c)))
        else if j == 2 then DoAlu(6, 0, r, FromReg(r), FromReg(RdP(c)))
        else DoAlu(7, 0, r, FromReg(r), FromReg(RdP(c)))
    else if sel == 25 then DoBranch(0, RsP(c), Const(0), ImmCB(c))
    else if sel == 29 then DoBranch(1, RsP(c), Const(0), ImmCB(c))
    else if sel == 2 then DoAlu(1, 0, rd, FromReg(rd), Const(Shamt(c)))
    else if sel == 10 then DoLoadAt(2, rd, 2, ImmLwsp(c))
    else if sel == 18 then
      var rs2 := Rs2C(c);
      if Bit12(c) == 0 then
        if rs2 == 0 then DoJalr(0, rd, 0) else DoAlu(0, 0, rd, Const(0), FromReg(rs2))
      else if rd == 0 && rs2 == 0 then DoEbreak
      else if rs2 == 0 then DoJalr(1, rd, 0)
      else DoAlu(0, 0, rd, FromReg(rd), FromReg(rs2))
    else if sel == 26 then DoStoreAt(2, Rs2C(c), 2, ImmSwsp(c))
    else DoIllegal
  }

  function ValueOf<H>(m: Machine<H>, o: Operand): Word {
    match o
    case FromReg(r) => m.x[r]
    case Const(v) => v
  }

  function AluOfF3(f3: nat, f7: nat): AluOp {
    if f3 == 0 then (if f7 == 0x20 then Sub else Add)
    else if f3 == 1 then Sll else if f3 == 2 then Slt else if f3 == 3 then Sltu
    else if f3 == 4 then AluOp.Xor
    else if f3 == 5 then (if f7 == 0x20 then Sra else Srl)
    else if f3 == 6 then AluOp.Or else AluOp.And
  }

  function MulOfF3(f3: nat): AluOp {
    if f3 == 0 then Mul else if f3 == 1 then Mulh else if f3 == 2 then Mulhsu else if f3 == 3 then Mulhu
    else if f3 == 4 then Div else if f3 == 5 then Divu else if f3 == 6 then Rem else Remu
  }

  function LoadOfF3(f3: nat): Option<LoadKind> {
    if f3 == 0 then Some(LB) else if f3 == 1 then Some(LH) else if f3 == 2 then Some(LW)
    else if f3 == 4 then Some(LBU) else if f3 == 5 then Some(LHU) else None
  }

  function StoreOfF3(f3: nat): Option<StoreKind> {
    if f3 == 0 then Some(SB) else if f3 == 1 then Some(SH) else if f3 == 2 then Some(SW) else None
  }

  function CondOfF3(f3: nat): Option<Cond> {
    if f3 == 0 then Some(BEQ) else if f3 == 1 then Some(BNE) else if f3 == 4 then Some(BLT)
    else if f3 == 5 then Some(BGE) else if f3 == 6 then Some(BLTU) else if f3 == 7 then Some(BGEU) else None
  }

  /** Where an instruction leaves the engine: on at pc, or stopped by a handler at pc. */
  datatype Stepped<H> = On(pc: Word, m: Machine<H>) | Off(pc: Word, m: Machine<H>)

  function AfterTrap<H>(r: (Machine<H>, bool), pc: Word, width: nat): Stepped<H> {
    if r.1 then Off(pc, r.0) else On(Wrap(pc + width), r.0)
  }

  /** One instruction of the interpreter: the action at pc. Handlers get the raw instruction. */
  function Act<H>(env: Env<H>, act: Action, pc: Word, width: nat, inst: Word, m: Machine<H>): Stepped<H> {
    var next := Wrap(pc + width);
    match act
    case DoAlu(f3, f7, rd, a, b) => On(next, SetReg(m, rd, Alu(AluOfF3(f3, f7), ValueOf(m, a), ValueOf(m, b))))
    case DoMul(f3, rd, rs1, rs2) => On(next, SetReg(m, rd, Alu(MulOfF3(f3), m.x[rs1], m.x[rs2])))
    case DoLoadAt(f3, rd, base, imm) =>
      (match LoadOfF3(f3)
       case None => AfterTrap(env.illegal(m, inst), pc, width)
       case Some(k) => On(next, DoLoad(env, m, k, rd, Wrap(m.x[base] + imm))))
    case DoStoreAt(f3, rs2, base, imm) =>
      (match StoreOfF3(f3)
       case None => AfterTrap(env.illegal(m, inst), pc, width)
       case Some(k) => On(next, DoStore(env, m, k, Wrap(m.x[base] + imm), m.x[rs2])))
    case DoBranch(f3, ra, cmp, imm) =>
      (match CondOfF3(f3)
       case None => AfterTrap(env.illegal(m, inst), pc, width)
       case Some(c) => On(if Taken(c, m.x[ra], ValueOf(m, cmp)) then Wrap(pc + imm) else next, m))
    case DoJal(rd, imm) => On(Wrap(pc + imm), SetReg(m, rd, next))
    case DoJalr(rd, rs1, imm) => On(ClearBit0(Wrap(m.x[rs1] + imm)), SetReg(m, rd, next))
    case DoLui(rd, imm) => On(next, SetReg(m, rd, imm))
    case DoAuipc(rd, imm) => On(next, SetReg(m, rd, Wrap(pc + imm)))
    case DoNothing => On(next, m)
    case DoSystem(f3, rd, rs1, imm) =>
      if f3 == 0 && rd == 0 && rs1 == 0 && imm == 0 then AfterTrap(env.ecall(m, inst), pc, width)
      else if f3 == 0 && rd == 0 && rs1 == 0 && imm == 1 then AfterTrap(env.ebreak(m, inst), pc, width)
      else AfterTrap(env.illegal(m, inst), pc, width)
    case DoEbreak => AfterTrap(env.ebreak(m, inst), pc, width)
    case DoIllegal => AfterTrap(env.illegal(m, inst), pc, width)
  }

  // ---- the decode-ahead engine: one flat record per instruction ----

  const OP_JAL := 41
  const OP_JALR := 42
  const OP_LUI := 43
  const OP_NOP := 44
  const OP_ECALL := 45
  const OP_EBREAK := 46
  const OP_ILLEGAL := 47
  const OP_END := 48

  type OpNo = c: nat | c < 49

  /** A leaf op number, register indices, and the immediate slot's value when there is one. */
  datatype Rec = Rec(op: OpNo, rd: Reg, rs1: Reg, rs2: Reg, imm: Word)

  function LoadNo(f3: nat): OpNo {
    if f3 == 0 then 27 else if f3 == 1 then 28 else if f3 == 2 then 29 else if f3 == 4 then 30 else if f3 == 5 then 31 else OP_ILLEGAL
  }

  function StoreNo(f3: nat): OpNo {
    if f3 == 0 then 32 else if f3 == 1 then 33 else if f3 == 2 then 34 else OP_ILLEGAL
  }

  function BranchNo(f3: nat): OpNo {
    if f3 == 0 then 35 else if f3 == 1 then 36 else if f3 == 4 then 37 else if f3 == 5 then 38
    else if f3 == 6 then 39 else if f3 == 7 then 40 else OP_ILLEGAL
  }

  /** Trap records carry the raw word in their immediate slot. */
  function Stow(r: Rec, raw: Word): Rec {
    if OP_ECALL <= r.op <= OP_ILLEGAL then r.(imm := raw) else r
  }

  /** A decoded 32-bit instruction, pc-relative results baked in. */
  function Leaf32(w: Word, off: Word): Rec {
    var opc, rd, rs1, rs2, f3, f7 := w % 128, RdOf(w), Rs1Of(w), Rs2Of(w), F3Of(w), F7Of(w);
    if opc == 0x13 then
      if f3 == 1 || f3 == 5 then Rec(if f3 == 5 && f7 == 0x20 then 18 else 10 + f3, rd, rs1, 0, rs2)
      else Rec(10 + f3, rd, rs1, 0, ImmI(w))
    else if opc == 0x33 then
      Rec(if f7 == 1 then 19 + f3 else if f7 == 0x20 then (if f3 == 0 then 8 else 9) else f3, rd, rs1, rs2, 0)
    else if opc == 0x03 then Stow(Rec(LoadNo(f3), rd, rs1, 0, ImmI(w)), w)
    else if opc == 0x23 then Stow(Rec(StoreNo(f3), rd, rs1, rs2, ImmS(w)), w)
    else if opc == 0x63 then Stow(Rec(BranchNo(f3), rd, rs1, rs2, Wrap(off + ImmB(w))), w)
    else if opc == 0x6f then Rec(OP_JAL, rd, rs1, 0, Wrap(off + ImmJ(w)))
    else if opc == 0x67 then Rec(OP_JALR, rd, rs1, 0, ImmI(w))
    else if opc == 0x37 then Rec(OP_LUI, rd, rs1, 0, ImmU(w))
    else if opc == 0x17 then Rec(OP_LUI, rd, rs1, 0, Wrap(off + ImmU(w)))
    else if opc == 0x0f then
      Stow(Rec(if rd != 0 || rs1 != 0 || (f3 != 0 && f3 != 1) then OP_ILLEGAL else OP_NOP, rd, rs1, 0, 0), w)
    else if opc == 0x73 then
      Stow(Rec(if f3 == 0 && rd == 0 && rs1 == 0 && w / 0x10_0000 == 0 then OP_ECALL
               else if f3 == 0 && rd == 0 && rs1 == 0 && w / 0x10_0000 == 1 then OP_EBREAK
               else OP_ILLEGAL, rd, rs1, 0, 0), w)
    else Stow(Rec(OP_ILLEGAL, rd, rs1, 0, 0), w)
  }

  function Leaf16(c: Half, off: Word): Rec {
    var sel, rd := Sel(c), RdC(c);
    if sel == 0 then Stow(Rec(if Imm4Spn(c) != 0 then 10 else OP_ILLEGAL, RdP(c), 2, 0, Imm4Spn(c)), c)
    else if sel == 8 then Rec(29, RdP(c), RsP(c), 0, ImmLw(c))
    else if sel == 24 then Rec(34, rd, RsP(c), RdP(c), ImmLw(c))
    else if sel == 1 then Rec(10, rd, rd, 0, ImmCI(c))
    else if sel == 5 then Rec(OP_JAL, 1, 0, 0, Wrap(off + ImmCJ(c)))
    else if sel == 21 then Rec(OP_JAL, 0, 0, 0, Wrap(off + ImmCJ(c)))
    else if sel == 9 then Rec(10, rd, 0, 0, ImmCI(c))
    else if sel == 13 then
      if rd == 2 then Stow(Rec(if Imm16Sp(c) != 0 then 10 else OP_ILLEGAL, 2, 2, 0, Imm16Sp(c)), c)
      else Stow(Rec(if ImmCLui(c) != 0 then OP_LUI else OP_ILLEGAL, rd, 0, 0, ImmCLui(c)), c)
    else if sel == 17 then
      var r, k := RsP(c), c / 0x400 % 4;
      if k == 0 then Rec(15, r, r, 0, Shamt(c))
      else if k == 1 then Rec(18, r, r, 0, Shamt(c))
      else if k == 2 then Rec(17, r, r, 0, ImmCI(c))
      else if Bit12(c) == 1 then Stow(Rec(OP_ILLEGAL, r, r, 0, 0), c)
      else
        var j := c / 0x20 % 4;
        Rec(if j == 0 then 8 else if j == 1 then 4 else if j == 2 then 6 else 7, r, r, RdP(c), 0)
    else if sel == 25 then Rec(35, rd, RsP(c), 0, Wrap(off + ImmCB(c)))
    else if sel == 29 then Rec(36, rd, RsP(c), 0, Wrap(off + ImmCB(c)))
    else if sel == 2 then Rec(11, rd, rd, 0, Shamt(c))
    else if sel == 10 then Rec(29, rd, 2, 0, ImmLwsp(c))
    else if sel == 18 then
      var rs2 := Rs2C(c);
      if Bit12(c) == 0 then
        if rs2 == 0 then Rec(OP_JALR, 0, rd, 0, 0) else Rec(0, rd, 0, rs2, 0)
      else if rd == 0 && rs2 == 0 then Stow(Rec(OP_EBREAK, rd, 0, 0, 0), c)
      else if rs2 == 0 then Rec(OP_JALR, 1, rd, 0, 0)
      else Rec(0, rd, rd, rs2, 0)
    else if sel == 26 then Rec(34, rd, 2, Rs2C(c), ImmSwsp(c))
    else Stow(Rec(OP_ILLEGAL, rd, 0, 0, 0), c)
  }

  /** What one record's handler does; `pc` is the preset fall-through it may read or replace. */
  function Handle<H>(env: Env<H>, r: Rec, pc: Word, m: Machine<H>): (Word, Machine<H>) {
    if r.op <= 9 || 19 <= r.op <= 26 then (pc, SetReg(m, r.rd, Alu(AluOf(r.op), m.x[r.rs1], m.x[r.rs2])))
    else if r.op <= 18 then (pc, SetReg(m, r.rd, Alu(ImmOf(r.op), m.x[r.rs1], r.imm)))
    else if r.op <= 31 then (pc, DoLoad(env, m, LoadOf(r.op), r.rd, Wrap(m.x[r.rs1] + r.imm)))
    else if r.op <= 34 then (pc, DoStore(env, m, StoreOf(r.op), Wrap(m.x[r.rs1] + r.imm), m.x[r.rs2]))
    else if r.op <= 40 then (if Taken(CondOf(r.op), m.x[r.rs1], m.x[r.rs2]) then r.imm else pc, m)
    else if r.op == OP_JAL then (r.imm, SetReg(m, r.rd, pc))
    else if r.op == OP_JALR then (ClearBit0(Wrap(m.x[r.rs1] + r.imm)), SetReg(m, r.rd, pc))
    else if r.op == OP_LUI then (pc, SetReg(m, r.rd, r.imm))
    else (pc, m)
  }

  predicate Terminator(op: nat) {
    35 <= op <= 42 || OP_ECALL <= op <= OP_ILLEGAL
  }

  predicate Traps(op: nat) {
    OP_ECALL <= op <= OP_ILLEGAL
  }

  function CallHandler<H>(env: Env<H>, op: nat, m: Machine<H>, inst: Word): (Machine<H>, bool) {
    if op == OP_ECALL then env.ecall(m, inst) else if op == OP_EBREAK then env.ebreak(m, inst) else env.illegal(m, inst)
  }

  /** The record at pc run on its own, as the engine would with its run ending there. */
  function RecStep<H>(env: Env<H>, r: Rec, pc: Word, width: nat, m: Machine<H>): Stepped<H> {
    var next := Wrap(pc + width);
    if Traps(r.op) then AfterTrap(CallHandler(env, r.op, m, r.imm), pc, width)
    else var (pc', m') := Handle(env, r, next, m); On(pc', m')
  }

  // ---- agreement ----

  /** The reserved OP encodings the two engines read differently. */
  predicate Reserved(w: Word) {
    w % 128 == 0x33 && F7Of(w) == 0x20 && F3Of(w) != 0 && F3Of(w) != 5
  }

  /** Where reading a reserved encoding as an arithmetic shift changes the result: the result is
      kept, and the sources are not ones on which the two operations coincide. */
  predicate Clash(w: Word) {
    && Reserved(w) && RdOf(w) != 0
    && (F3Of(w) == 1 ==> Rs1Of(w) != 0 && Rs2Of(w) != 0)
    && (F3Of(w) == 2 || F3Of(w) == 3 ==> Rs1Of(w) != 0 || Rs2Of(w) != 0)
    && (F3Of(w) == 4 || F3Of(w) == 6 ==> Rs2Of(w) != 0)
    && (F3Of(w) == 7 ==> Rs1Of(w) != 0)
  }

  lemma {:induction false} ZeroShifted(k: nat)
    ensures ShiftLeft(0, k) == 0 && ShiftRightSigned(0, k) == 0
  {
    if k > 0 { ZeroShifted(k - 1); }
  }

  lemma {:induction false} BitsOfZero(n: nat, a: nat)
    ensures Bitwise(BitAnd, n, 0, a) == Bitwise(BitAnd, n, a, 0) == 0
    ensures a < Pow2(n) ==> Bitwise(BitXor, n, a, 0) == Bitwise(BitXor, n, 0, a) == a
    ensures a < Pow2(n) ==> Bitwise(BitOr, n, a, 0) == Bitwise(BitOr, n, 0, a) == a
    decreases n
  {
    if n > 0 { BitsOfZero(n - 1, a / 2); }
  }

  /** The bitwise operations on a zero, and on equal operands. */
  lemma BitsFacts(a: Word)
    ensures Alu(And, 0, a) == Alu(And, a, 0) == 0
    ensures Alu(AluOp.Xor, a, 0) == Alu(AluOp.Xor, 0, a) == Alu(AluOp.Or, a, 0) == Alu(AluOp.Or, 0, a) == a
    ensures Alu(AluOp.Xor, a, a) == 0 && Alu(And, a, a) == Alu(AluOp.Or, a, a) == a
  {
    Pow2Of32();
    var n: nat := 32;
    hide Pow2, Bitwise;
    BitsOfZero(n, a);
    BitsOfSame(n, a);
  }

  lemma ShiftFacts(a: Word)
    ensures Alu(Sll, 0, a) == Alu(Sra, 0, a) == 0 && Alu(Sll, a, 0) == Alu(Sra, a, 0) == a
    ensures Alu(Sll, 1, 1) == 2 && Alu(Sra, 1, 1) == 0 && Alu(Sra, 32, 32) == 32
  {
    ZeroShifted(a % 32);
  }

  lemma CompareFacts()
    ensures Alu(Slt, 0, 1) == Alu(Sltu, 0, 1) == 1 && Alu(Slt, 1, 0) == Alu(Sltu, 1, 0) == 0
    ensures Alu(Slt, 0, 0) == Alu(Sltu, 0, 0) == 0 && Alu(Slt, 32, 32) == Alu(Sltu, 32, 32) == 0
  {
  }

  /** Where the two readings of a reserved encoding coincide on the values. */
  lemma HarmlessValue(f3: nat, a: Word, b: Word)
    requires 1 <= f3 <= 7 && f3 != 5
    requires (f3 == 1 ==> a == 0 || b == 0) && (f3 == 2 || f3 == 3 ==> a == 0 && b == 0)
    requires (f3 == 4 || f3 == 6 ==> b == 0) && (f3 == 7 ==> a == 0)
    ensures Alu(AluOfF3(f3, 0x20), a, b) == Alu(Sra, a, b)
  {
    hide Alu;
    BitsFacts(a);
    BitsFacts(b);
    ShiftFacts(a);
    ShiftFacts(b);
    CompareFacts();
  }

  /** Source values on which the two readings differ. */
  function Telling(f3: nat, same: bool, first: bool): (Word, Word) {
    if f3 == 1 then (1, 1)
    else if same then (if f3 <= 4 then (32, 32) else (1, 1))
    else if f3 == 7 || (f3 <= 3 && first) then (1, 0)
    else (0, 1)
  }

  lemma TellingTells(f3: nat, same: bool, first: bool)
    requires 1 <= f3 <= 7 && f3 != 5
    ensures var (a, b) := Telling(f3, same, first); Alu(AluOfF3(f3, 0x20), a, b) != Alu(Sra, a, b)
  {
    hide Alu;
    BitsFacts(1);
    BitsFacts(32);
    ShiftFacts(1);
    CompareFacts();
  }

  lemma ReservedReads<H>(env: Env<H>, w: Word, pc: Word, m: Machine<H>)
    requires Reserved(w)
    ensures var rd, a, b := RdOf(w), m.x[Rs1Of(w)], m.x[Rs2Of(w)];
            Act(env, Fused32(w), pc, 4, w, m) == On(Wrap(pc + 4), SetReg(m, rd, Alu(AluOfF3(F3Of(w), 0x20), a, b))) &&
            RecStep(env, Leaf32(w, pc), pc, 4, m) == On(Wrap(pc + 4), SetReg(m, rd, Alu(Sra, a, b)))
  {
    hide Alu, Wrap, RdOf, Rs1Of, Rs2Of;
  }

  lemma HarmlessAgrees<H>(env: Env<H>, w: Word, pc: Word, m: Machine<H>)
    requires Reserved(w) && !Clash(w) && m.x[0] == 0
    ensures RecStep(env, Leaf32(w, pc), pc, 4, m) == Act(env, Fused32(w), pc, 4, w, m)
  {
    hide Act, RecStep, Leaf32, Fused32, Alu, RdOf, Rs1Of, Rs2Of, F7Of;
    ReservedReads(env, w, pc, m);
    if RdOf(w) != 0 {
      assert 1 <= F3Of(w) <= 7;
      HarmlessValue(F3Of(w), m.x[Rs1Of(w)], m.x[Rs2Of(w)]);
    }
  }

  /** Every clashing encoding differs in some state, whatever the memory and the host. */
  lemma ClashDiffers<H>(env: Env<H>, w: Word, pc: Word, mem: Mem, h: H) returns (m: Machine<H>)
    requires Clash(w)
    ensures m.x[0] == 0 && m.mem == mem && m.host == h
    ensures RecStep(env, Leaf32(w, pc), pc, 4, m) != Act(env, Fused32(w), pc, 4, w, m)
  {
    hide Act, RecStep, Leaf32, Fused32, Alu, RdOf, Rs1Of, Rs2Of, F7Of;
    var r, s := Rs1Of(w), Rs2Of(w);
    assert 1 <= F3Of(w) <= 7;
    var (a, b) := Telling(F3Of(w), r == s, r != 0 && s == 0);
    var x: Regs := seq(32, i => if i == 0 then 0 else if i == r then a else if i == s then b else 0);
    m := Machine(x, mem, h);
    TellingTells(F3Of(w), r == s, r != 0 && s == 0);
    assert x[r] == a && x[s] == b;
    ReservedReads(env, w, pc, m);
    var v, v' := Alu(AluOfF3(F3Of(w), 0x20), a, b), Alu(Sra, a, b);
    assert x[RdOf(w) := v][RdOf(w)] == v && x[RdOf(w) := v'][RdOf(w)] == v';
  }

  /** The two decoders give a 32-bit encoding the same meaning in every state exactly when it
      does not clash. */
  lemma DecodersAgreeIff<H(!new)>(env: Env<H>, w: Word, pc: Word, mem: Mem, h: H)
    ensures (forall m: Machine<H> :: m.x[0] == 0 ==> RecStep(env, Leaf32(w, pc), pc, 4, m) == Act(env, Fused32(w), pc, 4, w, m))
            <==> !Clash(w)
  {
    hide Act, RecStep, Leaf32, Fused32, Clash;
    if Clash(w) {
      var m := ClashDiffers(env, w, pc, mem, h);
    } else {
      forall m: Machine<H> | m.x[0] == 0
        ensures RecStep(env, Leaf32(w, pc), pc, 4, m) == Act(env, Fused32(w), pc, 4, w, m)
      {
        Agree32(env, w, pc, m);
      }
    }
  }

  lemma AgreeAlu<H>(env: Env<H>, w: Word, pc: Word, m: Machine<H>)
    requires !Reserved(w) && m.x[0] == 0 && (w % 128 == 0x13 || w % 128 == 0x33)
    ensures RecStep(env, Leaf32(w, pc), pc, 4, m) == Act(env, Fused32(w), pc, 4, w, m)
  {
    hide Alu, Wrap, SignExtend, ImmI, RdOf, Rs1Of, Rs2Of, F7Of;
    assert F3Of(w) < 8;
  }

  lemma AgreeMemory<H>(env: Env<H>, w: Word, pc: Word, m: Machine<H>)
    requires m.x[0] == 0 && (w % 128 == 0x03 || w % 128 == 0x23 || w % 128 == 0x63)
    ensures RecStep(env, Leaf32(w, pc), pc, 4, m) == Act(env, Fused32(w), pc, 4, w, m)
  {
    hide Alu, Wrap, SignExtend, Taken, ImmI, ImmS, ImmB, RdOf, Rs1Of, Rs2Of, F7Of, DoLoad, DoStore;
    assert F3Of(w) < 8;
  }

  lemma AgreeRest<H>(env: Env<H>, w: Word, pc: Word, m: Machine<H>)
    requires m.x[0] == 0 && w % 128 !in {0x13, 0x33, 0x03, 0x23, 0x63}
    ensures RecStep(env, Leaf32(w, pc), pc, 4, m) == Act(env, Fused32(w), pc, 4, w, m)
  {
    hide Alu, Wrap, SignExtend, ImmI, ImmJ, ImmU, RdOf, Rs1Of, Rs2Of, F7Of;
  }

  /** Every 32-bit encoding that does not clash means the same to both engines. */
  lemma Agree32<H>(env: Env<H>, w: Word, pc: Word, m: Machine<H>)
    requires !Clash(w) && m.x[0] == 0
    ensures RecStep(env, Leaf32(w, pc), pc, 4, m) == Act(env, Fused32(w), pc, 4, w, m)
  {
    hide Act, RecStep, Leaf32, Fused32, Clash, Reserved;
    if Reserved(w) {
      HarmlessAgrees(env, w, pc, m);
    } else if w % 128 == 0x13 || w % 128 == 0x33 {
      AgreeAlu(env, w, pc, m);
    } else if w % 128 == 0x03 || w % 128 == 0x23 || w % 128 == 0x63 {
      AgreeMemory(env, w, pc, m);
    } else {
      AgreeRest(env, w, pc, m);
    }
  }

  /** So does every compressed encoding. */
  lemma Agree16<H>(env: Env<H>, c: Half, pc: Word, m: Machine<H>)
    requires m.x[0] == 0
    ensures RecStep(env, Leaf16(c, pc), pc, 2, m) == Act(env, Fused16(c), pc, 2, c, m)
  {
    hide Alu, Wrap, SignExtend, Taken, ImmCI, ImmCJ, ImmCB, ImmCLui, Imm16Sp, Imm4Spn, ImmLw, ImmLwsp, ImmSwsp, Shamt, Sel,
      RdC, Rs2C, RdP, RsP, Bit12, DoLoad, DoStore;
  }
}
