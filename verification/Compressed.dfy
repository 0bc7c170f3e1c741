/** The compressed instructions: their 16-bit encodings by the manual's bit positions, the
    instructions they stand for, and what the engines make of every halfword. */
module Compressed {
  import opened Words
  import opened Isa
  import opened Machines
  import opened Rv32c
  import opened Encodings

  /** The compressed instructions of RV32IC (sections 16.3 to 16.5). Immediates are the
      sign-extended words, targets absolute addresses; shift amounts have six bits. */
  datatype Short =
    | CAddi4spn(rd: Reg, imm: Word) | CLw(rd: Reg, rs1: Reg, imm: Word) | CSw(rs2: Reg, rs1: Reg, imm: Word)
    | CAddi(rd: Reg, imm: Word) | CJal(target: Word) | CLi(rd: Reg, imm: Word) | CAddi16sp(imm: Word)
    | CLui(rd: Reg, uimm: Word) | CShift(op: AluOp, rd: Reg, shamt: nat) | CAndi(rd: Reg, imm: Word)
    | CAlu(op: AluOp, rd: Reg, rs2: Reg) | CJ(target: Word) | CBz(cond: Cond, rs1: Reg, target: Word)
    | CSlli(rd: Reg, shamt: nat) | CLwsp(rd: Reg, imm: Word) | CJr(rs1: Reg) | CMv(rd: Reg, rs2: Reg)
    | CEbreak | CJalr(rs1: Reg) | CAdd(rd: Reg, rs2: Reg) | CSwsp(rs2: Reg, imm: Word)

  /** The instruction it stands for. A shift takes the low five bits of its amount, of which
      RV32 reserves those with the sixth bit set. */
  function Expand(s: Short): Insn {
    match s
    case CAddi4spn(rd, imm) => RegImm(Add, rd, 2, imm)
    case CLw(rd, rs1, imm) => Load(LW, rd, rs1, imm)
    case CSw(rs2, rs1, imm) => Store(SW, rs2, rs1, imm)
    case CAddi(rd, imm) => RegImm(Add, rd, rd, imm)
    case CJal(target) => Jal(1, target)
    case CLi(rd, imm) => RegImm(Add, rd, 0, imm)
    case CAddi16sp(imm) => RegImm(Add, 2, 2, imm)
    case CLui(rd, uimm) => Lui(rd, uimm)
    case CShift(op, rd, shamt) => RegImm(op, rd, rd, shamt % 32)
    case CAndi(rd, imm) => RegImm(And, rd, rd, imm)
    case CAlu(op, rd, rs2) => RegReg(op, rd, rd, rs2)
    case CJ(target) => Jal(0, target)
    case CBz(cond, rs1, target) => Branch(cond, rs1, 0, target)
    case CSlli(rd, shamt) => RegImm(Sll, rd, rd, shamt % 32)
    case CLwsp(rd, imm) => Load(LW, rd, 2, imm)
    case CJr(rs1) => Jalr(0, rs1, 0)
    case CMv(rd, rs2) => RegReg(Add, rd, 0, rs2)
    case CEbreak => Ebreak
    case CJalr(rs1) => Jalr(1, rs1, 0)
    case CAdd(rd, rs2) => RegReg(Add, rd, rd, rs2)
    case CSwsp(rs2, imm) => Store(SW, rs2, 2, imm)
  }

  /** x8 to x15, the registers a three-bit field names. */
  predicate Popular(r: Reg) {
    8 <= r < 16
  }

  /** A six-bit signed immediate. */
  predicate Imm6(imm: Word) {
    imm < 32 || imm >= 0xffff_ffe0
  }

  /** s has an encoding at pc. */
  predicate FitsShort(s: Short, pc: Word) {
    match s
    case CAddi4spn(rd, imm) => Popular(rd) && 0 < imm < 0x400 && imm % 4 == 0
    case CLw(rd, rs1, imm) => Popular(rd) && Popular(rs1) && imm < 0x80 && imm % 4 == 0
    case CSw(rs2, rs1, imm) => Popular(rs2) && Popular(rs1) && imm < 0x80 && imm % 4 == 0
    case CAddi(_, imm) => Imm6(imm)
    case CJal(target) => Reaches(pc, target, 0x800)
    case CLi(_, imm) => Imm6(imm)
    case CAddi16sp(imm) => imm != 0 && imm % 16 == 0 && (imm < 0x200 || imm >= 0xffff_fe00)
    case CLui(rd, uimm) => rd != 2 && (0 < uimm < 0x20 || 0xf_ffe0 <= uimm < 0x10_0000)
    case CShift(op, rd, shamt) => (op == Srl || op == Sra) && Popular(rd) && shamt < 64
    case CAndi(rd, imm) => Popular(rd) && Imm6(imm)
    case CAlu(op, rd, rs2) => op in {Sub, AluOp.Xor, AluOp.Or, AluOp.And} && Popular(rd) && Popular(rs2)
    case CJ(target) => Reaches(pc, target, 0x800)
    case CBz(cond, rs1, target) => (cond == BEQ || cond == BNE) && Popular(rs1) && Reaches(pc, target, 0x100)
    case CSlli(_, shamt) => shamt < 64
    case CLwsp(_, imm) => imm < 0x100 && imm % 4 == 0
    case CMv(_, rs2) => rs2 != 0
    case CJalr(rs1) => rs1 != 0
    case CAdd(_, rs2) => rs2 != 0
    case CSwsp(_, imm) => imm < 0x100 && imm % 4 == 0
    case _ => true
  }

  // ---- formats: funct3 in bits 15-13, then bit 12, bits 11-7, bits 6-2, and the quadrant ----

  type Bit = n: nat | n < 2
  type Two = n: nat | n < 4
  type Three = n: nat | n < 8

  function CType(f3: Three, b: Bit, hi: Reg, lo: Reg, quadrant: Two): Half {
    f3 * 0x2000 + b * 0x1000 + hi * 0x80 + lo * 4 + quadrant
  }

  /** Bits 12-2 hold offset[11|4|9:8|10|6|7|3:1|5]. */
  function CJType(f3: Three, off: Word): Half {
    CType(f3, off / 0x800 % 2, off / 0x10 % 2 * 16 + off / 0x100 % 4 * 4 + off / 0x400 % 2 * 2 + off / 0x40 % 2,
      off / 0x80 % 2 * 16 + off / 2 % 8 * 2 + off / 0x20 % 2, 1)
  }

  /** Bits 12-10 hold offset[8|4:3], bits 6-2 offset[7:6|2:1|5]. */
  function CBType(f3: Three, rs1: Reg, off: Word): Half
    requires Popular(rs1)
  {
    CType(f3, off / 0x100 % 2, off / 8 % 4 * 8 + (rs1 - 8), off / 0x40 % 4 * 8 + off / 2 % 4 * 2 + off / 0x20 % 2, 1)
  }

  /** Bits 12-10 hold uimm[5:3], bit 6 uimm[2], bit 5 uimm[6]. */
  function CLType(f3: Three, r: Reg, rs1: Reg, imm: Word): Half
    requires Popular(r) && Popular(rs1)
  {
    CType(f3, imm / 0x20 % 2, imm / 8 % 4 * 8 + (rs1 - 8), imm / 4 % 2 * 16 + imm / 0x40 % 2 * 8 + (r - 8), 0)
  }

  /** Bit 12 holds imm[5], bits 6-2 imm[4:0]. */
  function CIType(f3: Three, rd: Reg, imm: Word, quadrant: Two): Half {
    CType(f3, imm / 0x20 % 2, rd, imm % 0x20, quadrant)
  }

  function AssembleShort(s: Short, pc: Word): Half
    requires FitsShort(s, pc)
  {
    match s
    case CAddi4spn(rd, imm) =>
      CType(0, imm / 0x20 % 2, imm / 0x10 % 2 * 16 + imm / 0x40 % 16, imm / 4 % 2 * 16 + imm / 8 % 2 * 8 + (rd - 8), 0)
    case CLw(rd, rs1, imm) => CLType(2, rd, rs1, imm)
    case CSw(rs2, rs1, imm) => CLType(6, rs2, rs1, imm)
    case CAddi(rd, imm) => CIType(0, rd, imm, 1)
    case CJal(target) => CJType(1, Wrap(target - pc))
    case CLi(rd, imm) => CIType(2, rd, imm, 1)
    case CAddi16sp(imm) =>
      CType(3, imm / 0x200 % 2, 2, imm / 0x10 % 2 * 16 + imm / 0x40 % 2 * 8 + imm / 0x80 % 4 * 2 + imm / 0x20 % 2, 1)
    case CLui(rd, uimm) => CIType(3, rd, uimm, 1)
    case CShift(op, rd, shamt) => CType(4, shamt / 0x20, (if op == Srl then 0 else 8) + (rd - 8), shamt % 0x20, 1)
    case CAndi(rd, imm) => CType(4, imm / 0x20 % 2, 16 + (rd - 8), imm % 0x20, 1)
    case CAlu(op, rd, rs2) =>
      CType(4, 0, 24 + (rd - 8), (if op == Sub then 0 else if op == AluOp.Xor then 8 else if op == AluOp.Or then 16 else 24) + (rs2 - 8), 1)
    case CJ(target) => CJType(5, Wrap(target - pc))
    case CBz(cond, rs1, target) => CBType(if cond == BEQ then 6 else 7, rs1, Wrap(target - pc))
    case CSlli(rd, shamt) => CType(0, shamt / 0x20, rd, shamt % 0x20, 2)
    case CLwsp(rd, imm) => CType(2, imm / 0x20 % 2, rd, imm / 4 % 8 * 4 + imm / 0x40 % 4, 2)
    case CJr(rs1) => CType(4, 0, rs1, 0, 2)
    case CMv(rd, rs2) => CType(4, 0, rd, rs2, 2)
    case CEbreak => CType(4, 1, 0, 0, 2)
    case CJalr(rs1) => CType(4, 1, rs1, 0, 2)
    case CAdd(rd, rs2) => CType(4, 1, rd, rs2, 2)
    case CSwsp(rs2, imm) => CType(6, imm / 0x20 % 2, imm / 4 % 8 * 4 + imm / 0x40 % 4, rs2, 2)
  }

  // ---- fields come back ----

  /** A field of width n from position m up. */
  lemma Slice(c: int, m: nat, n: nat, top: int, mid: nat, low: nat)
    requires c == (top * n + mid) * m + low && low < m && mid < n
    ensures c / m % n == mid
  {
    QuotientIs(c, m, top * n + mid, low);
    QuotientIs(top * n + mid, n, top, mid);
  }

  lemma ShortFields(f3: Three, b: Bit, hi: Reg, lo: Reg, q: Two)
    ensures var c := CType(f3, b, hi, lo, q);
            Sel(c) == f3 * 4 + q && c % 4 == q && Bit12(c) == b && RdC(c) == hi && Rs2C(c) == lo &&
            RdP(c) == lo % 8 + 8 && RsP(c) == hi % 8 + 8 && Shamt(c) == b * 32 + lo
  {
    var c, q2 := CType(f3, b, hi, lo, q), f3 * 2 + b;
    var q1 := q2 * 32 + hi;
    QuotientIs(c, 4, q1 * 32 + lo, q);
    Slice(c, 4, 32, q1, lo, q);
    Slice(c, 4, 8, q1 * 4 + lo / 8, lo % 8, q);
    Slice(c, 0x80, 32, q2, hi, lo * 4 + q);
    Slice(c, 0x80, 8, q2 * 4 + hi / 8, hi % 8, lo * 4 + q);
    Slice(c, 0x1000, 2, f3, b, hi * 0x80 + lo * 4 + q);
    Slice(c, 0x2000, 8, 0, f3, b * 0x1000 + hi * 0x80 + lo * 4 + q);
  }

  /** The five bits of a field and what they make up. */
  lemma FiveBits(v: Reg) returns (e: nat, d: nat, c: nat, b: nat, a: nat)
    ensures e < 2 && d < 2 && c < 2 && b < 2 && a < 2
    ensures v == 16 * e + 8 * d + 4 * c + 2 * b + a
    ensures v / 16 == e && v / 8 == 2 * e + d && v / 4 == 4 * e + 2 * d + c && v / 2 == 8 * e + 4 * d + 2 * c + b
    ensures v / 8 % 2 == d && v / 4 % 4 == 2 * d + c && v / 2 % 8 == 4 * d + 2 * c + b && v / 2 % 4 == 2 * c + b && v / 2 % 2 == b
    ensures v % 2 == a && v % 4 == 2 * b + a && v % 16 == v - 16 * e
  {
    var v1: nat := v / 2;
    var v2 := v1 / 2;
    var v3 := v2 / 2;
    e, d, c, b, a := v3 / 2, v3 % 2, v2 % 2, v1 % 2, v % 2;
    DivideTwice(v, 2, 2);
    DivideTwice(v, 4, 2);
    DivideTwice(v, 8, 2);
    QuotientIs(v2, 4, e, 2 * d + c);
    QuotientIs(v1, 8, e, 4 * d + 2 * c + b);
    QuotientIs(v1, 4, 2 * e + d, 2 * c + b);
    QuotientIs(v, 4, v2, 2 * b + a);
    QuotientIs(v, 16, e, v - 16 * e);
  }

  /** The parts of bits 12-7 that the formats tell apart. */
  lemma HighParts(f3: Three, b: Bit, hi: Reg, lo: Reg, q: Two)
    ensures var c := CType(f3, b, hi, lo, q);
            c / 0x800 % 2 == hi / 16 && c / 0x800 % 4 == b * 2 + hi / 16 && c / 0x400 % 8 == b * 4 + hi / 8 && c / 0x400 % 4 == hi / 8 &&
            c / 0x200 % 4 == hi / 4 % 4 && c / 0x200 % 16 == b * 8 + hi / 4 && c / 0x100 % 2 == hi / 2 % 2 && c / 0x80 % 2 == hi % 2 &&
            c / 0x80 % 4 == hi % 4 && c / 0x80 % 16 == hi % 16
  {
    var c, low, q2 := CType(f3, b, hi, lo, q), lo * 4 + q, f3 * 2 + b;
    var h4, h3, h2, h1, h0 := FiveBits(hi);
    Slice(c, 0x800, 2, q2, h4, (hi - 16 * h4) * 0x80 + low);
    Slice(c, 0x800, 4, f3, b * 2 + h4, (hi - 16 * h4) * 0x80 + low);
    Slice(c, 0x400, 8, f3, b * 4 + 2 * h4 + h3, (4 * h2 + 2 * h1 + h0) * 0x80 + low);
    Slice(c, 0x400, 4, q2, 2 * h4 + h3, (4 * h2 + 2 * h1 + h0) * 0x80 + low);
    Slice(c, 0x200, 4, q2 * 2 + h4, 2 * h3 + h2, (2 * h1 + h0) * 0x80 + low);
    Slice(c, 0x200, 16, f3, b * 8 + 4 * h4 + 2 * h3 + h2, (2 * h1 + h0) * 0x80 + low);
    Slice(c, 0x100, 2, q2 * 8 + 4 * h4 + 2 * h3 + h2, h1, h0 * 0x80 + low);
    Slice(c, 0x80, 2, q2 * 16 + 8 * h4 + 4 * h3 + 2 * h2 + h1, h0, low);
    Slice(c, 0x80, 4, q2 * 8 + 4 * h4 + 2 * h3 + h2, 2 * h1 + h0, low);
    Slice(c, 0x80, 16, q2 * 2 + h4, hi - 16 * h4, low);
  }

  /** The parts of bits 6-2. */
  lemma LowParts(f3: Three, b: Bit, hi: Reg, lo: Reg, q: Two)
    ensures var c := CType(f3, b, hi, lo, q);
            c / 0x40 % 2 == lo / 16 && c / 0x20 % 2 == lo / 8 % 2 && c / 0x20 % 4 == lo / 8 && c / 0x10 % 8 == lo / 4 && c / 8 % 8 == lo / 2 % 8 &&
            c / 8 % 4 == lo / 2 % 4 && c / 4 % 2 == lo % 2 && c / 4 % 4 == lo % 4
  {
    var c, high := CType(f3, b, hi, lo, q), (f3 * 2 + b) * 32 + hi;
    var l4, l3, l2, l1, l0 := FiveBits(lo);
    Slice(c, 0x40, 2, high, l4, (lo - 16 * l4) * 4 + q);
    Slice(c, 0x20, 2, high * 2 + l4, l3, (4 * l2 + 2 * l1 + l0) * 4 + q);
    Slice(c, 0x20, 4, high, 2 * l4 + l3, (4 * l2 + 2 * l1 + l0) * 4 + q);
    Slice(c, 0x10, 8, high, 4 * l4 + 2 * l3 + l2, (2 * l1 + l0) * 4 + q);
    Slice(c, 8, 8, high * 2 + l4, 4 * l3 + 2 * l2 + l1, l0 * 4 + q);
    Slice(c, 8, 4, high * 4 + 2 * l4 + l3, 2 * l2 + l1, l0 * 4 + q);
    Slice(c, 4, 2, high * 16 + 8 * l4 + 4 * l3 + 2 * l2 + l1, l0, q);
    Slice(c, 4, 4, high * 8 + 4 * l4 + 2 * l3 + l2, 2 * l1 + l0, q);
  }

  // ---- immediates come back ----

  /** A field is its low part and the rest. */
  lemma Cut(v: nat, m: nat, d: nat, n: nat)
    requires m > 0 && d > 0 && n > 0
    ensures d * n > 0 && v / m % (d * n) == v / m % d + d * (v / (d * m) % n)
  {
    var q := v / m;
    DivideTwice(v, m, d);
    var u, a := q / d, q % d;
    Regroup(u / n, u % n, d, n);
    QuotientIs(q, n * d, u / n, u % n * d + a);
  }

  lemma CIReads(imm: Word, f3: Three, hi: Reg, q: Two)
    requires Imm6(imm)
    ensures ImmCI(CType(f3, imm / 0x20 % 2, hi, imm % 0x20, q)) == imm
  {
    hide SignExtend, CType, Shamt;
    ShortFields(f3, imm / 0x20 % 2, hi, imm % 0x20, q);
    Cut(imm, 1, 0x20, 2);
    LowBack(imm, 0x20, 0x400_0000);
  }

  lemma CLuiReads(uimm: Word, rd: Reg)
    requires 0 < uimm < 0x20 || 0xf_ffe0 <= uimm < 0x10_0000
    ensures ImmCLui(CIType(3, rd, uimm, 1)) == uimm * 0x1000
  {
    hide SignExtend, CType, Shamt;
    ShortFields(3, uimm / 0x20 % 2, rd, uimm % 0x20, 1);
    Cut(uimm, 1, 0x20, 2);
    QuotientIs(uimm * 0x1000, 0x4_0000, uimm / 0x40, uimm % 0x40 * 0x1000);
    LowBack(uimm * 0x1000, 0x2_0000, 0x4000);
  }

  lemma Addi4spnFields(b5: Bit, b4: Bit, b9: nat, b2: Bit, b3: Bit, p: Three)
    requires b9 < 16
    ensures var c := CType(0, b5, b4 * 16 + b9, b2 * 16 + b3 * 8 + p, 0);
            Imm4Spn(c) == b9 * 64 + b5 * 32 + b4 * 16 + b3 * 8 + b2 * 4 && Sel(c) == c % 4 == 0 && RdP(c) == p + 8
  {
    var hi, lo := b4 * 16 + b9, b2 * 16 + b3 * 8 + p;
    hide CType;
    ShortFields(0, b5, hi, lo, 0);
    HighParts(0, b5, hi, lo, 0);
    LowParts(0, b5, hi, lo, 0);
    QuotientIs(lo, 8, b2 * 2 + b3, p);
    QuotientIs(hi, 16, b4, b9);
    QuotientIs(lo, 16, b2, b3 * 8 + p);
    Slice(lo, 8, 2, b2, b3, p);
  }

  lemma TenDigits(v: nat)
    requires v < 0x400 && v % 4 == 0
    ensures v == v / 0x40 % 16 * 64 + v / 0x20 % 2 * 32 + v / 0x10 % 2 * 16 + v / 8 % 2 * 8 + v / 4 % 2 * 4
  {
    QuotientIs(v, 0x400, 0, v);
    Cut(v, 1, 4, 0x100);
    Cut(v, 4, 2, 0x80);
    Cut(v, 8, 2, 0x40);
    Cut(v, 0x10, 2, 0x20);
    Cut(v, 0x20, 2, 0x10);
  }

  lemma Addi4spnReads(imm: Word, p: Three)
    requires imm < 0x400 && imm % 4 == 0
    ensures var c := CType(0, imm / 0x20 % 2, imm / 0x10 % 2 * 16 + imm / 0x40 % 16, imm / 4 % 2 * 16 + imm / 8 % 2 * 8 + p, 0);
            Imm4Spn(c) == imm && Sel(c) == c % 4 == 0 && RdP(c) == p + 8
  {
    hide CType, Imm4Spn, Sel, RdP;
    Addi4spnFields(imm / 0x20 % 2, imm / 0x10 % 2, imm / 0x40 % 16, imm / 4 % 2, imm / 8 % 2, p);
    TenDigits(imm);
  }

  lemma LwFields(f3: Three, b5: Bit, b43: Two, b2: Bit, b6: Bit, r: Three, p: Three)
    ensures var c := CType(f3, b5, b43 * 8 + r, b2 * 16 + b6 * 8 + p, 0);
            ImmLw(c) == b6 * 64 + b5 * 32 + b43 * 8 + b2 * 4 && Sel(c) == f3 * 4 && c % 4 == 0 && RsP(c) == r + 8 && RdP(c) == p + 8
  {
    var hi, lo := b43 * 8 + r, b2 * 16 + b6 * 8 + p;
    hide CType;
    ShortFields(f3, b5, hi, lo, 0);
    HighParts(f3, b5, hi, lo, 0);
    LowParts(f3, b5, hi, lo, 0);
    QuotientIs(hi, 8, b43, r);
    QuotientIs(lo, 16, b2, b6 * 8 + p);
    Slice(lo, 8, 2, b2, b6, p);
    QuotientIs(lo, 8, b2 * 2 + b6, p);
  }

  lemma LwDigits(v: nat)
    requires v < 0x80 && v % 4 == 0
    ensures v == v / 0x40 % 2 * 64 + v / 0x20 % 2 * 32 + v / 8 % 4 * 8 + v / 4 % 2 * 4
  {
    QuotientIs(v, 0x80, 0, v);
    Cut(v, 1, 4, 0x20);
    Cut(v, 4, 2, 0x10);
    Cut(v, 8, 4, 4);
    Cut(v, 0x20, 2, 2);
  }

  lemma LwReads(f3: Three, imm: Word, r: Reg, rs1: Reg)
    requires Popular(r) && Popular(rs1) && imm < 0x80 && imm % 4 == 0
    ensures var c := CLType(f3, r, rs1, imm);
            ImmLw(c) == imm && Sel(c) == f3 * 4 && c % 4 == 0 && RsP(c) == rs1 && RdP(c) == r
  {
    hide CType, ImmLw, Sel, RsP, RdP;
    LwFields(f3, imm / 0x20 % 2, imm / 8 % 4, imm / 4 % 2, imm / 0x40 % 2, rs1 - 8, r - 8);
    LwDigits(imm);
  }

  lemma SpDigits(v: nat)
    requires v < 0x100 && v % 4 == 0
    ensures v == v / 0x40 % 4 * 64 + v / 0x20 % 2 * 32 + v / 4 % 8 * 4
  {
    QuotientIs(v, 0x100, 0, v);
    Cut(v, 1, 4, 0x40);
    Cut(v, 4, 8, 8);
    Cut(v, 0x20, 2, 4);
  }

  lemma LwspFields(b5: Bit, rd: Reg, b42: Three, b76: Two)
    ensures ImmLwsp(CType(2, b5, rd, b42 * 4 + b76, 2)) == b76 * 64 + b5 * 32 + b42 * 4
  {
    var lo := b42 * 4 + b76;
    hide CType;
    ShortFields(2, b5, rd, lo, 2);
    LowParts(2, b5, rd, lo, 2);
    QuotientIs(lo, 4, b42, b76);
  }

  lemma LwspReads(rd: Reg, imm: Word)
    requires imm < 0x100 && imm % 4 == 0
    ensures ImmLwsp(CType(2, imm / 0x20 % 2, rd, imm / 4 % 8 * 4 + imm / 0x40 % 4, 2)) == imm
  {
    hide CType, ImmLwsp;
    LwspFields(imm / 0x20 % 2, rd, imm / 4 % 8, imm / 0x40 % 4);
    SpDigits(imm);
  }

  lemma SwspFields(b5: Bit, b42: Three, b76: Two, rs2: Reg)
    ensures ImmSwsp(CType(6, b5, b42 * 4 + b76, rs2, 2)) == b76 * 64 + b5 * 32 + b42 * 4
  {
    var hi := b42 * 4 + b76;
    hide CType;
    HighParts(6, b5, hi, rs2, 2);
    QuotientIs(hi, 4, b42, b76);
  }

  lemma SwspReads(rs2: Reg, imm: Word)
    requires imm < 0x100 && imm % 4 == 0
    ensures ImmSwsp(CType(6, imm / 0x20 % 2, imm / 4 % 8 * 4 + imm / 0x40 % 4, rs2, 2)) == imm
  {
    hide CType, ImmSwsp;
    SwspFields(imm / 0x20 % 2, imm / 4 % 8, imm / 0x40 % 4, rs2);
    SpDigits(imm);
  }

  lemma Addi16spFields(b9: Bit, b4: Bit, b6: Bit, b87: Two, b5: Bit)
    ensures Imm16Sp(CType(3, b9, 2, b4 * 16 + b6 * 8 + b87 * 2 + b5, 1)) == SignExtend(b9 * 0x200 + b87 * 0x80 + b6 * 64 + b5 * 32 + b4 * 16, 0x200)
  {
    var lo := b4 * 16 + b6 * 8 + b87 * 2 + b5;
    hide CType, SignExtend;
    ShortFields(3, b9, 2, lo, 1);
    LowParts(3, b9, 2, lo, 1);
    QuotientIs(lo, 16, b4, b6 * 8 + b87 * 2 + b5);
    Slice(lo, 8, 2, b4, b6, b87 * 2 + b5);
    Slice(lo, 2, 4, b4 * 2 + b6, b87, b5);
    Slice(lo, 1, 2, b4 * 8 + b6 * 4 + b87, b5, 0);
  }

  lemma Addi16spDigits(v: nat)
    ensures v % 0x400 == v / 0x200 % 2 * 0x200 + v / 0x80 % 4 * 0x80 + v / 0x40 % 2 * 64 + v / 0x20 % 2 * 32 + v / 0x10 % 2 * 16 + v % 16
  {
    Cut(v, 1, 0x10, 0x40);
    Cut(v, 0x10, 2, 0x20);
    Cut(v, 0x20, 2, 0x10);
    Cut(v, 0x40, 2, 8);
    Cut(v, 0x80, 4, 2);
  }

  lemma Addi16spReads(imm: Word)
    requires imm % 16 == 0 && (imm < 0x200 || imm >= 0xffff_fe00)
    ensures Imm16Sp(CType(3, imm / 0x200 % 2, 2, imm / 0x10 % 2 * 16 + imm / 0x40 % 2 * 8 + imm / 0x80 % 4 * 2 + imm / 0x20 % 2, 1)) == imm
  {
    hide CType, Imm16Sp, SignExtend;
    Addi16spFields(imm / 0x200 % 2, imm / 0x10 % 2, imm / 0x40 % 2, imm / 0x80 % 4, imm / 0x20 % 2);
    Addi16spDigits(imm);
    LowBack(imm, 0x200, 0x40_0000);
  }

  lemma CBFields(f3: Three, b8: Bit, b43: Two, r: Three, b76: Two, b21: Two, b5: Bit)
    ensures var c := CType(f3, b8, b43 * 8 + r, b76 * 8 + b21 * 2 + b5, 1);
            ImmCB(c) == SignExtend(b8 * 0x100 + b76 * 64 + b5 * 32 + b43 * 8 + b21 * 2, 0x100) &&
            Sel(c) == f3 * 4 + 1 && c % 4 == 1 && RsP(c) == r + 8
  {
    var hi, lo := b43 * 8 + r, b76 * 8 + b21 * 2 + b5;
    hide CType, SignExtend;
    ShortFields(f3, b8, hi, lo, 1);
    HighParts(f3, b8, hi, lo, 1);
    LowParts(f3, b8, hi, lo, 1);
    QuotientIs(hi, 8, b43, r);
    QuotientIs(lo, 8, b76, b21 * 2 + b5);
    Slice(lo, 2, 4, b76, b21, b5);
    Slice(lo, 1, 2, b76 * 4 + b21, b5, 0);
  }

  lemma CBDigits(v: nat)
    ensures v % 0x200 == v / 0x100 % 2 * 0x100 + v / 0x40 % 4 * 64 + v / 0x20 % 2 * 32 + v / 8 % 4 * 8 + v / 2 % 4 * 2 + v % 2
  {
    Cut(v, 1, 2, 0x100);
    Cut(v, 2, 4, 0x40);
    Cut(v, 8, 4, 0x10);
    Cut(v, 0x20, 2, 8);
    Cut(v, 0x40, 4, 2);
  }

  lemma CBReads(f3: Three, rs1: Reg, off: Word)
    requires Popular(rs1) && off % 2 == 0 && (off < 0x100 || off >= 0xffff_ff00)
    ensures var c := CBType(f3, rs1, off); ImmCB(c) == off && Sel(c) == f3 * 4 + 1 && c % 4 == 1 && RsP(c) == rs1
  {
    hide CType, ImmCB, SignExtend, Sel, RsP;
    CBFields(f3, off / 0x100 % 2, off / 8 % 4, rs1 - 8, off / 0x40 % 4, off / 2 % 4, off / 0x20 % 2);
    CBDigits(off);
    LowBack(off, 0x100, 0x80_0000);
  }

  lemma CJFields(f3: Three, b11: Bit, b4: Bit, b98: Two, b10: Bit, b6: Bit, b7: Bit, b31: Three, b5: Bit)
    ensures var c := CType(f3, b11, b4 * 16 + b98 * 4 + b10 * 2 + b6, b7 * 16 + b31 * 2 + b5, 1);
            ImmCJ(c) == SignExtend(b11 * 0x800 + b10 * 0x400 + b98 * 0x100 + b7 * 0x80 + b6 * 64 + b5 * 32 + b4 * 16 + b31 * 2, 0x800) &&
            Sel(c) == f3 * 4 + 1 && c % 4 == 1
  {
    var hi, lo := b4 * 16 + b98 * 4 + b10 * 2 + b6, b7 * 16 + b31 * 2 + b5;
    hide CType, SignExtend;
    ShortFields(f3, b11, hi, lo, 1);
    HighParts(f3, b11, hi, lo, 1);
    LowParts(f3, b11, hi, lo, 1);
    CJHigh(b4, b98, b10, b6);
    CJLow(b7, b31, b5);
  }

  lemma CJLow(b7: Bit, b31: Three, b5: Bit)
    ensures var lo := b7 * 16 + b31 * 2 + b5; lo / 16 == b7 && lo / 2 % 8 == b31 && lo % 2 == b5
  {
    var lo := b7 * 16 + b31 * 2 + b5;
    QuotientIs(lo, 16, b7, b31 * 2 + b5);
    Slice(lo, 2, 8, b7, b31, b5);
    Slice(lo, 1, 2, b7 * 8 + b31, b5, 0);
  }

  lemma CJHigh(b4: Bit, b98: Two, b10: Bit, b6: Bit)
    ensures var hi := b4 * 16 + b98 * 4 + b10 * 2 + b6; hi / 16 == b4 && hi / 4 % 4 == b98 && hi / 2 % 2 == b10 && hi % 2 == b6
  {
    var hi := b4 * 16 + b98 * 4 + b10 * 2 + b6;
    QuotientIs(hi, 16, b4, b98 * 4 + b10 * 2 + b6);
    Slice(hi, 4, 4, b4, b98, b10 * 2 + b6);
    Slice(hi, 2, 2, b4 * 4 + b98, b10, b6);
    Slice(hi, 1, 2, b4 * 8 + b98 * 2 + b10, b6, 0);
  }

  lemma CJDigits(v: nat)
    ensures v % 0x1000 == v / 0x800 % 2 * 0x800 + v / 0x400 % 2 * 0x400 + v / 0x100 % 4 * 0x100 + v / 0x80 % 2 * 0x80 + v / 0x40 % 2 * 64
                          + v / 0x20 % 2 * 32 + v / 0x10 % 2 * 16 + v / 2 % 8 * 2 + v % 2
  {
    Cut(v, 1, 2, 0x800);
    Cut(v, 2, 8, 0x100);
    Cut(v, 0x10, 2, 0x80);
    Cut(v, 0x20, 2, 0x40);
    Cut(v, 0x40, 2, 0x20);
    Cut(v, 0x80, 2, 0x10);
    Cut(v, 0x100, 4, 4);
    Cut(v, 0x400, 2, 2);
  }

  lemma CJReads(f3: Three, off: Word)
    requires off % 2 == 0 && (off < 0x800 || off >= 0xffff_f800)
    ensures var c := CJType(f3, off); ImmCJ(c) == off && Sel(c) == f3 * 4 + 1 && c % 4 == 1
  {
    hide CType, ImmCJ, SignExtend, Sel;
    CJFields(f3, off / 0x800 % 2, off / 0x10 % 2, off / 0x100 % 4, off / 0x400 % 2, off / 0x40 % 2, off / 0x80 % 2, off / 2 % 8, off / 0x20 % 2);
    CJDigits(off);
    LowBack(off, 0x800, 0x10_0000);
  }

  // ---- and the instruction ----

  /** The action body and operands an encoded instruction needs. */
  function ActionFor(s: Short, pc: Word): Action
    requires FitsShort(s, pc)
  {
    match s
    case CAddi4spn(rd, imm) => DoAlu(0, 0, rd, FromReg(2), Const(imm))
    case CLw(rd, rs1, imm) => DoLoadAt(2, rd, rs1, imm)
    case CSw(rs2, rs1, imm) => DoStoreAt(2, rs2, rs1, imm)
    case CAddi(rd, imm) => DoAlu(0, 0, rd, FromReg(rd), Const(imm))
    case CJal(target) => DoJal(1, Wrap(target - pc))
    case CLi(rd, imm) => DoAlu(0, 0, rd, Const(0), Const(imm))
    case CAddi16sp(imm) => DoAlu(0, 0, 2, FromReg(2), Const(imm))
    case CLui(rd, uimm) => DoLui(rd, uimm * 0x1000)
    case CShift(op, rd, shamt) => DoAlu(5, if op == Srl then 0 else 0x20, rd, FromReg(rd), Const(shamt))
    case CAndi(rd, imm) => DoAlu(7, 0, rd, FromReg(rd), Const(imm))
    case CAlu(op, rd, rs2) =>
      DoAlu(if op == Sub then 0 else if op == AluOp.Xor then 4 else if op == AluOp.Or then 6 else 7, if op == Sub then 0x20 else 0,
        rd, FromReg(rd), FromReg(rs2))
    case CJ(target) => DoJal(0, Wrap(target - pc))
    case CBz(cond, rs1, target) => DoBranch(if cond == BEQ then 0 else 1, rs1, Const(0), Wrap(target - pc))
    case CSlli(rd, shamt) => DoAlu(1, 0, rd, FromReg(rd), Const(shamt))
    case CLwsp(rd, imm) => DoLoadAt(2, rd, 2, imm)
    case CJr(rs1) => DoJalr(0, rs1, 0)
    case CMv(rd, rs2) => DoAlu(0, 0, rd, Const(0), FromReg(rs2))
    case CEbreak => DoEbreak
    case CJalr(rs1) => DoJalr(1, rs1, 0)
    case CAdd(rd, rs2) => DoAlu(0, 0, rd, FromReg(rd), FromReg(rs2))
    case CSwsp(rs2, imm) => DoStoreAt(2, rs2, 2, imm)
  }

  lemma JumpMeans<H>(env: Env<H>, s: Short, pc: Word, raw: Word, m: Machine<H>)
    requires FitsShort(s, pc) && m.x[0] == 0 && (s.CJal? || s.CJ? || s.CBz?)
    ensures Act(env, ActionFor(s, pc), pc, 2, raw, m) == InsnStep(env, Expand(s), pc, 2, raw, m)
  {
    hide Wrap;
    OffsetBack(pc, Expand(s).target);
  }

  lemma ShiftMeans<H>(env: Env<H>, s: Short, pc: Word, raw: Word, m: Machine<H>)
    requires FitsShort(s, pc) && (s.CShift? || s.CSlli?)
    ensures Act(env, ActionFor(s, pc), pc, 2, raw, m) == InsnStep(env, Expand(s), pc, 2, raw, m)
  {
    hide Wrap, ShiftLeft, ShiftRight, ShiftRightSigned;
  }

  lemma PlainMeans<H>(env: Env<H>, s: Short, pc: Word, raw: Word, m: Machine<H>)
    requires FitsShort(s, pc) && m.x[0] == 0 && !(s.CJal? || s.CJ? || s.CBz? || s.CShift? || s.CSlli? || s.CLui?)
    ensures Act(env, ActionFor(s, pc), pc, 2, raw, m) == InsnStep(env, Expand(s), pc, 2, raw, m)
  {
    hide Wrap, Alu, DoLoad, DoStore, ClearBit0, Reaches;
  }

  /** An action for it does what the instruction it stands for does. */
  lemma ActionMeans<H>(env: Env<H>, s: Short, pc: Word, raw: Word, m: Machine<H>)
    requires FitsShort(s, pc) && m.x[0] == 0
    ensures Act(env, ActionFor(s, pc), pc, 2, raw, m) == InsnStep(env, Expand(s), pc, 2, raw, m)
  {
    if s.CJal? || s.CJ? || s.CBz? {
      JumpMeans(env, s, pc, raw, m);
    } else if s.CShift? || s.CSlli? {
      ShiftMeans(env, s, pc, raw, m);
    } else if s.CLui? {
      WrapNear(s.uimm * 0x1000);
    } else {
      PlainMeans(env, s, pc, raw, m);
    }
  }

  ghost predicate Decodes(s: Short, pc: Word)
    requires FitsShort(s, pc)
  {
    var c := AssembleShort(s, pc);
    c % 4 != 3 && Fused16(c) == ActionFor(s, pc)
  }

  lemma DecodesMemory(s: Short, pc: Word)
    requires FitsShort(s, pc) && (s.CLw? || s.CSw? || s.CLwsp? || s.CSwsp?)
    ensures Decodes(s, pc)
  {
    hide CLType, CType, Sel, RdC, Rs2C, RdP, RsP, Bit12, Shamt, ImmLw, ImmLwsp, ImmSwsp, Wrap;
    match s
    case CLw(rd, rs1, imm) => LwReads(2, imm, rd, rs1);
    case CSw(rs2, rs1, imm) => LwReads(6, imm, rs2, rs1);
    case CLwsp(rd, imm) =>
      ShortFields(2, imm / 0x20 % 2, rd, imm / 4 % 8 * 4 + imm / 0x40 % 4, 2);
      LwspReads(rd, imm);
    case CSwsp(rs2, imm) =>
      ShortFields(6, imm / 0x20 % 2, imm / 4 % 8 * 4 + imm / 0x40 % 4, rs2, 2);
      SwspReads(rs2, imm);
  }

  lemma DecodesJump(s: Short, pc: Word)
    requires FitsShort(s, pc) && (s.CJal? || s.CJ? || s.CBz?)
    ensures Decodes(s, pc)
  {
    hide CJType, CBType, CType, Sel, RdC, Rs2C, RdP, RsP, Bit12, Shamt, ImmCJ, ImmCB, Wrap;
    match s
    case CJal(target) => CJReads(1, Wrap(target - pc));
    case CJ(target) => CJReads(5, Wrap(target - pc));
    case CBz(cond, rs1, target) => CBReads(if cond == BEQ then 6 else 7, rs1, Wrap(target - pc));
  }

  lemma DecodesStack(s: Short, pc: Word)
    requires FitsShort(s, pc) && (s.CAddi4spn? || s.CAddi16sp?)
    ensures Decodes(s, pc)
  {
    hide CType, Sel, RdC, Rs2C, RdP, RsP, Bit12, Shamt, ImmCI, Imm4Spn, Imm16Sp, Wrap;
    match s
    case CAddi4spn(rd, imm) => Addi4spnReads(imm, rd - 8);
    case CAddi16sp(imm) =>
      ShortFields(3, imm / 0x200 % 2, 2, imm / 0x10 % 2 * 16 + imm / 0x40 % 2 * 8 + imm / 0x80 % 4 * 2 + imm / 0x20 % 2, 1);
      Addi16spReads(imm);
  }

  lemma DecodesImmediate(s: Short, pc: Word)
    requires FitsShort(s, pc) && (s.CAddi? || s.CLi? || s.CLui? || s.CSlli?)
    ensures Decodes(s, pc)
  {
    hide CType, Sel, RdC, Rs2C, RdP, RsP, Bit12, Shamt, ImmCI, ImmCLui, Wrap;
    match s
    case CAddi(rd, imm) =>
      ShortFields(0, imm / 0x20 % 2, rd, imm % 0x20, 1);
      CIReads(imm, 0, rd, 1);
    case CLi(rd, imm) =>
      ShortFields(2, imm / 0x20 % 2, rd, imm % 0x20, 1);
      CIReads(imm, 2, rd, 1);
    case CLui(rd, uimm) =>
      ShortFields(3, uimm / 0x20 % 2, rd, uimm % 0x20, 1);
      CLuiReads(uimm, rd);
    case CSlli(rd, shamt) => ShortFields(0, shamt / 0x20, rd, shamt % 0x20, 2);
  }

  lemma MiscFields(k: Two, b: Bit, r: Three, lo: Reg)
    ensures var c := CType(4, b, k * 8 + r, lo, 1);
            Sel(c) == 17 && c % 4 == 1 && c / 0x400 % 4 == k && RsP(c) == r + 8 && Bit12(c) == b && Shamt(c) == b * 32 + lo &&
            c / 0x20 % 4 == lo / 8 && RdP(c) == lo % 8 + 8
  {
    hide CType;
    ShortFields(4, b, k * 8 + r, lo, 1);
    HighParts(4, b, k * 8 + r, lo, 1);
    LowParts(4, b, k * 8 + r, lo, 1);
    QuotientIs(k * 8 + r, 8, k, r);
  }

  lemma DecodesAlu(s: Short, pc: Word)
    requires FitsShort(s, pc) && s.CAlu?
    ensures Decodes(s, pc)
  {
    hide CType, Sel, RdC, Rs2C, RdP, RsP, Bit12, Shamt, ImmCI, Wrap, CIType, CJType, CBType, CLType, Reaches;
    var j := if s.op == Sub then 0 else if s.op == AluOp.Xor then 1 else if s.op == AluOp.Or then 2 else 3;
    MiscFields(3, 0, s.rd - 8, j * 8 + (s.rs2 - 8));
    QuotientIs(j * 8 + (s.rs2 - 8), 8, j, s.rs2 - 8);
  }

  lemma DecodesMisc(s: Short, pc: Word)
    requires FitsShort(s, pc) && (s.CShift? || s.CAndi?)
    ensures Decodes(s, pc)
  {
    hide CType, Sel, RdC, Rs2C, RdP, RsP, Bit12, Shamt, ImmCI, Wrap;
    match s
    case CShift(op, rd, shamt) => MiscFields(if op == Srl then 0 else 1, shamt / 0x20, rd - 8, shamt % 0x20);
    case CAndi(rd, imm) =>
      MiscFields(2, imm / 0x20 % 2, rd - 8, imm % 0x20);
      CIReads(imm, 4, 16 + (rd - 8), 1);
  }

  lemma DecodesQuadrant2(s: Short, pc: Word)
    requires FitsShort(s, pc) && (s.CJr? || s.CMv? || s.CEbreak? || s.CJalr? || s.CAdd?)
    ensures Decodes(s, pc)
  {
    hide CType, Sel, RdC, Rs2C, RdP, RsP, Bit12, Shamt, Wrap;
    match s
    case CJr(rs1) => ShortFields(4, 0, rs1, 0, 2);
    case CMv(rd, rs2) => ShortFields(4, 0, rd, rs2, 2);
    case CEbreak => ShortFields(4, 1, 0, 0, 2);
    case CJalr(rs1) => ShortFields(4, 1, rs1, 0, 2);
    case CAdd(rd, rs2) => ShortFields(4, 1, rd, rs2, 2);
  }

  /** Every compressed instruction is decoded as the instruction it stands for. */
  lemma ShortMeans<H>(env: Env<H>, s: Short, pc: Word, m: Machine<H>)
    requires FitsShort(s, pc) && m.x[0] == 0
    ensures var c := AssembleShort(s, pc);
            c % 4 != 3 && Act(env, Fused16(c), pc, 2, c, m) == InsnStep(env, Expand(s), pc, 2, c, m)
  {
    hide AssembleShort, Fused16, ActionFor, Act, InsnStep, Expand;
    ActionMeans(env, s, pc, AssembleShort(s, pc), m);
    ShortDecodes(s, pc);
  }

  lemma ShortDecodes(s: Short, pc: Word)
    requires FitsShort(s, pc)
    ensures Decodes(s, pc)
  {
    hide Decodes, FitsShort;
    if s.CLw? || s.CSw? || s.CLwsp? || s.CSwsp? {
      DecodesMemory(s, pc);
    } else if s.CJal? || s.CJ? || s.CBz? {
      DecodesJump(s, pc);
    } else if s.CAddi4spn? || s.CAddi16sp? {
      DecodesStack(s, pc);
    } else if s.CAddi? || s.CLi? || s.CLui? || s.CSlli? {
      DecodesImmediate(s, pc);
    } else if s.CShift? || s.CAndi? {
      DecodesMisc(s, pc);
    } else if s.CAlu? {
      DecodesAlu(s, pc);
    } else {
      DecodesQuadrant2(s, pc);
    }
  }

  // ---- every accepted halfword is one of these ----

  lemma HalfWhole(c: Half)
    ensures var f3, q := c / 0x2000, c % 4;
            f3 < 8 && Bit12(c) < 2 && c == CType(f3, Bit12(c), RdC(c), Rs2C(c), q) && Sel(c) == f3 * 4 + q
  {
    var q1: nat := c / 4;
    var q2 := q1 / 32;
    var q3 := q2 / 32;
    ShortFields(q3 / 2, q3 % 2, q2 % 32, q1 % 32, c % 4);
    QuotientIs(c, 0x2000, q3 / 2, q3 % 2 * 0x1000 + q2 % 32 * 0x80 + q1 % 32 * 4 + c % 4);
  }

  lemma ShamtIs(c: Half)
    ensures Shamt(c) == Bit12(c) * 32 + Rs2C(c) && ImmCI(c) == SignExtend(Shamt(c), 32)
  {
  }

  /** The halfword is the encoding of s. */
  predicate Encodes(s: Short, pc: Word, c: Half) {
    FitsShort(s, pc) && AssembleShort(s, pc) == c
  }

  lemma SixBits(b: Bit, lo: Reg)
    ensures var imm := SignExtend(b * 32 + lo, 32); Imm6(imm) && imm / 0x20 % 2 == b && imm % 0x20 == lo
  {
    var v := b * 32 + lo;
    QuotientIs(v, 64, 0, v);
    if b == 1 { WrapNear(v - 64); }
    Slice(SignExtend(v, 32), 0x20, 2, b * 0x3ff_ffff, b, lo);
    Slice(SignExtend(v, 32), 1, 0x20, b * 0x7ff_ffff, lo, 0);
  }

  lemma LwParts(b5: Bit, b43: Two, b2: Bit, b6: Bit)
    ensures var imm := b43 * 8 + b5 * 32 + b2 * 4 + b6 * 64;
            imm < 0x80 && imm % 4 == 0 && imm / 0x20 % 2 == b5 && imm / 8 % 4 == b43 && imm / 4 % 2 == b2 && imm / 0x40 % 2 == b6
  {
    var imm := b43 * 8 + b5 * 32 + b2 * 4 + b6 * 64;
    Slice(imm, 0x20, 2, b6, b5, b43 * 8 + b2 * 4);
    Slice(imm, 8, 4, b6 * 2 + b5, b43, b2 * 4);
    Slice(imm, 4, 2, b6 * 8 + b5 * 4 + b43, b2, 0);
    Slice(imm, 0x40, 2, 0, b6, b5 * 32 + b43 * 8 + b2 * 4);
    QuotientIs(imm, 4, b6 * 16 + b5 * 8 + b43 * 2 + b2, 0);
  }

  /** The instruction whose fields these are, format by format. */
  lemma LwEncodes(f3: Three, b5: Bit, b43: Two, r: Three, b2: Bit, b6: Bit, p: Three)
    ensures var c := CType(f3, b5, b43 * 8 + r, b2 * 16 + b6 * 8 + p, 0); var imm := ImmLw(c);
            imm < 0x80 && imm % 4 == 0 && Popular(RdP(c)) && Popular(RsP(c)) && CLType(f3, RdP(c), RsP(c), imm) == c
  {
    hide CType, ImmLw, RdP, RsP;
    LwFields(f3, b5, b43, b2, b6, r, p);
    LwParts(b5, b43, b2, b6);
  }

  lemma Addi4spnEncodes(b5: Bit, b4: Bit, b9: nat, b2: Bit, b3: Bit, p: Three)
    requires b9 < 16
    ensures var c := CType(0, b5, b4 * 16 + b9, b2 * 16 + b3 * 8 + p, 0); var imm := Imm4Spn(c);
            imm < 0x400 && imm % 4 == 0 && Popular(RdP(c)) && (imm != 0 ==> AssembleShort(CAddi4spn(RdP(c), imm), 0) == c)
  {
    var imm := b9 * 64 + b5 * 32 + b4 * 16 + b3 * 8 + b2 * 4;
    Slice(imm, 0x40, 16, 0, b9, b5 * 32 + b4 * 16 + b3 * 8 + b2 * 4);
    Slice(imm, 0x20, 2, b9, b5, b4 * 16 + b3 * 8 + b2 * 4);
    Slice(imm, 0x10, 2, b9 * 2 + b5, b4, b3 * 8 + b2 * 4);
    Slice(imm, 8, 2, b9 * 4 + b5 * 2 + b4, b3, b2 * 4);
    Slice(imm, 4, 2, b9 * 8 + b5 * 4 + b4 * 2 + b3, b2, 0);
    QuotientIs(imm, 4, b9 * 16 + b5 * 8 + b4 * 4 + b3 * 2 + b2, 0);
    hide CType, Imm4Spn, RdP;
    Addi4spnFields(b5, b4, b9, b2, b3, p);
  }

  lemma SpParts(b5: Bit, b42: Three, b76: Two)
    ensures var imm := b76 * 64 + b5 * 32 + b42 * 4;
            imm < 0x100 && imm % 4 == 0 && imm / 0x20 % 2 == b5 && imm / 4 % 8 == b42 && imm / 0x40 % 4 == b76
  {
    var imm := b76 * 64 + b5 * 32 + b42 * 4;
    Slice(imm, 0x20, 2, b76, b5, b42 * 4);
    Slice(imm, 4, 8, b76 * 2 + b5, b42, 0);
    Slice(imm, 0x40, 4, 0, b76, b5 * 32 + b42 * 4);
    QuotientIs(imm, 4, b76 * 16 + b5 * 8 + b42, 0);
  }

  /** A sign-extended immediate is v or v less twice half, modulo 2^32. */
  lemma ExtendedIs(v: nat, half: nat, sign: Bit)
    requires 0 < half <= 0x8000_0000 && (if sign == 1 then half <= v < 2 * half else v < half)
    ensures SignExtend(v, half) == v + sign * (0x1_0000_0000 - 2 * half)
  {
    hide Wrap;
    QuotientIs(v, 2 * half, 0, v);
    if sign == 1 { WrapNear(v - 2 * half); }
  }

  lemma Addi16spEncodes(b9: Bit, b4: Bit, b6: Bit, b87: Two, b5: Bit)
    ensures var c := CType(3, b9, 2, b4 * 16 + b6 * 8 + b87 * 2 + b5, 1); var imm := Imm16Sp(c);
            imm % 16 == 0 && (imm < 0x200 || imm >= 0xffff_fe00) && (imm != 0 ==> AssembleShort(CAddi16sp(imm), 0) == c)
  {
    var v := b9 * 0x200 + b87 * 0x80 + b6 * 64 + b5 * 32 + b4 * 16;
    ExtendedIs(v, 0x200, b9);
    var imm := SignExtend(v, 0x200);
    var t := b9 * 0x3f_ffff;
    Slice(imm, 0x200, 2, t, b9, b87 * 0x80 + b6 * 64 + b5 * 32 + b4 * 16);
    Slice(imm, 0x80, 4, t * 2 + b9, b87, b6 * 64 + b5 * 32 + b4 * 16);
    Slice(imm, 0x40, 2, t * 8 + b9 * 4 + b87, b6, b5 * 32 + b4 * 16);
    Slice(imm, 0x20, 2, t * 16 + b9 * 8 + b87 * 2 + b6, b5, b4 * 16);
    Slice(imm, 0x10, 2, t * 32 + b9 * 16 + b87 * 4 + b6 * 2 + b5, b4, 0);
    QuotientIs(imm, 16, t * 64 + b9 * 32 + b87 * 8 + b6 * 4 + b5 * 2 + b4, 0);
    hide CType, Imm16Sp, SignExtend;
    Addi16spFields(b9, b4, b6, b87, b5);
  }

  lemma CLuiFields(b: Bit, rd: Reg, lo: Reg)
    ensures ImmCLui(CType(3, b, rd, lo, 1)) == SignExtend(lo * 0x1000 + b * 0x2_0000, 0x2_0000)
  {
    hide CType, SignExtend, Sel, Shamt, RdP, RsP;
    ShortFields(3, b, rd, lo, 1);
  }

  lemma CLuiEncodes(b: Bit, rd: Reg, lo: Reg)
    ensures var c := CType(3, b, rd, lo, 1); var u := ImmCLui(c) / 0x1000;
            ImmCLui(c) == u * 0x1000 && (u < 0x20 || 0xf_ffe0 <= u < 0x10_0000) && CIType(3, rd, u, 1) == c
  {
    hide SignExtend, ImmCLui;
    var u := b * 0xf_ffe0 + lo;
    CLuiFields(b, rd, lo);
    ExtendedIs(lo * 0x1000 + b * 0x2_0000, 0x2_0000, b);
    QuotientIs(u * 0x1000, 0x1000, u, 0);
    QuotientIs(u, 0x20, b * 0x7fff, lo);
    QuotientIs(b * 0x7fff, 2, b * 0x3fff, b);
  }

  lemma CBEncodes(f3: Three, b8: Bit, b43: Two, r: Three, b76: Two, b21: Two, b5: Bit)
    ensures var c := CType(f3, b8, b43 * 8 + r, b76 * 8 + b21 * 2 + b5, 1); var off := ImmCB(c);
            off % 2 == 0 && (off < 0x100 || off >= 0xffff_ff00) && Popular(RsP(c)) && CBType(f3, RsP(c), off) == c
  {
    var v := b8 * 0x100 + b76 * 64 + b5 * 32 + b43 * 8 + b21 * 2;
    ExtendedIs(v, 0x100, b8);
    var off := SignExtend(v, 0x100);
    var t := b8 * 0x7f_ffff;
    Slice(off, 0x100, 2, t, b8, b76 * 64 + b5 * 32 + b43 * 8 + b21 * 2);
    Slice(off, 0x40, 4, t * 2 + b8, b76, b5 * 32 + b43 * 8 + b21 * 2);
    Slice(off, 0x20, 2, t * 8 + b8 * 4 + b76, b5, b43 * 8 + b21 * 2);
    Slice(off, 8, 4, t * 16 + b8 * 8 + b76 * 2 + b5, b43, b21 * 2);
    Slice(off, 2, 4, t * 64 + b8 * 32 + b76 * 8 + b5 * 4 + b43, b21, 0);
    QuotientIs(off, 2, t * 256 + b8 * 128 + b76 * 32 + b5 * 16 + b43 * 4 + b21, 0);
    hide CType, ImmCB, SignExtend, RsP;
    CBFields(f3, b8, b43, r, b76, b21, b5);
  }

  lemma CJEncodes(f3: Three, b11: Bit, b4: Bit, b98: Two, b10: Bit, b6: Bit, b7: Bit, b31: Three, b5: Bit)
    ensures var c := CType(f3, b11, b4 * 16 + b98 * 4 + b10 * 2 + b6, b7 * 16 + b31 * 2 + b5, 1); var off := ImmCJ(c);
            off % 2 == 0 && (off < 0x800 || off >= 0xffff_f800) && CJType(f3, off) == c
  {
    var v := b11 * 0x800 + b10 * 0x400 + b98 * 0x100 + b7 * 0x80 + b6 * 64 + b5 * 32 + b4 * 16 + b31 * 2;
    ExtendedIs(v, 0x800, b11);
    var off := SignExtend(v, 0x800);
    var t := b11 * 0xf_ffff;
    Slice(off, 0x800, 2, t, b11, v - b11 * 0x800);
    var t1 := t * 2 + b11;
    Slice(off, 0x400, 2, t1, b10, b98 * 0x100 + b7 * 0x80 + b6 * 64 + b5 * 32 + b4 * 16 + b31 * 2);
    var t2 := t1 * 2 + b10;
    Slice(off, 0x100, 4, t2, b98, b7 * 0x80 + b6 * 64 + b5 * 32 + b4 * 16 + b31 * 2);
    var t3 := t2 * 4 + b98;
    Slice(off, 0x80, 2, t3, b7, b6 * 64 + b5 * 32 + b4 * 16 + b31 * 2);
    var t4 := t3 * 2 + b7;
    Slice(off, 0x40, 2, t4, b6, b5 * 32 + b4 * 16 + b31 * 2);
    var t5 := t4 * 2 + b6;
    Slice(off, 0x20, 2, t5, b5, b4 * 16 + b31 * 2);
    var t6 := t5 * 2 + b5;
    Slice(off, 0x10, 2, t6, b4, b31 * 2);
    Slice(off, 2, 8, t6 * 2 + b4, b31, 0);
    QuotientIs(off, 2, (t6 * 2 + b4) * 8 + b31, 0);
    hide CType, ImmCJ, SignExtend;
    CJFields(f3, b11, b4, b98, b10, b6, b7, b31, b5);
  }

  lemma ReachedBy(pc: Word, off: Word, half: nat)
    requires off % 2 == 0 && (off < half || off + half >= 0x1_0000_0000)
    ensures Reaches(pc, Wrap(pc + off), half) && Wrap(Wrap(pc + off) - pc) == off
  {
    BackAt(pc, off);
  }

  lemma LwEncoded(c: Half, pc: Word) returns (s: Short)
    requires Sel(c) == 8 || Sel(c) == 24
    ensures Encodes(s, pc, c)
  {
    hide CType, CLType, Sel, RdP, RsP, RdC, Rs2C, Bit12, ImmLw;
    HalfWhole(c);
    var h4, h3, h2, h1, h0 := FiveBits(RdC(c));
    var l4, l3, l2, l1, l0 := FiveBits(Rs2C(c));
    LwEncodes(c / 0x2000, Bit12(c), 2 * h4 + h3, 4 * h2 + 2 * h1 + h0, l4, l3, 4 * l2 + 2 * l1 + l0);
    s := if Sel(c) == 8 then CLw(RdP(c), RsP(c), ImmLw(c)) else CSw(RdP(c), RsP(c), ImmLw(c));
  }

  lemma LwspEncoded(c: Half, pc: Word) returns (s: Short)
    requires Sel(c) == 10
    ensures Encodes(s, pc, c)
  {
    hide CType, Sel, RdC, Rs2C, Bit12, ImmLwsp, CIType, CJType, CBType, CLType, Reaches;
    HalfWhole(c);
    var l4, l3, l2, l1, l0 := FiveBits(Rs2C(c));
    LwspFields(Bit12(c), RdC(c), 4 * l4 + 2 * l3 + l2, 2 * l1 + l0);
    SpParts(Bit12(c), 4 * l4 + 2 * l3 + l2, 2 * l1 + l0);
    s := CLwsp(RdC(c), ImmLwsp(c));
  }

  lemma SwspEncoded(c: Half, pc: Word) returns (s: Short)
    requires Sel(c) == 26
    ensures Encodes(s, pc, c)
  {
    hide CType, Sel, RdC, Rs2C, Bit12, ImmSwsp, CIType, CJType, CBType, CLType, Reaches;
    HalfWhole(c);
    var h4, h3, h2, h1, h0 := FiveBits(RdC(c));
    SwspFields(Bit12(c), 4 * h4 + 2 * h3 + h2, 2 * h1 + h0, Rs2C(c));
    SpParts(Bit12(c), 4 * h4 + 2 * h3 + h2, 2 * h1 + h0);
    s := CSwsp(Rs2C(c), ImmSwsp(c));
  }

  lemma JumpEncoded(c: Half, pc: Word) returns (s: Short)
    requires Sel(c) == 5 || Sel(c) == 21
    ensures Encodes(s, pc, c)
  {
    hide CType, CJType, Sel, RdC, Rs2C, Bit12, ImmCJ, Reaches;
    HalfWhole(c);
    var h4, h3, h2, h1, h0 := FiveBits(RdC(c));
    var l4, l3, l2, l1, l0 := FiveBits(Rs2C(c));
    CJEncodes(c / 0x2000, Bit12(c), h4, 2 * h3 + h2, h1, h0, l4, 4 * l3 + 2 * l2 + l1, l0);
    ReachedBy(pc, ImmCJ(c), 0x800);
    s := if Sel(c) == 5 then CJal(Wrap(pc + ImmCJ(c))) else CJ(Wrap(pc + ImmCJ(c)));
  }

  lemma BranchEncoded(c: Half, pc: Word) returns (s: Short)
    requires Sel(c) == 25 || Sel(c) == 29
    ensures Encodes(s, pc, c)
  {
    hide CType, CBType, Sel, RdC, Rs2C, RsP, Bit12, ImmCB, Reaches;
    HalfWhole(c);
    var h4, h3, h2, h1, h0 := FiveBits(RdC(c));
    var l4, l3, l2, l1, l0 := FiveBits(Rs2C(c));
    CBEncodes(c / 0x2000, Bit12(c), 2 * h4 + h3, 4 * h2 + 2 * h1 + h0, 2 * l4 + l3, 2 * l2 + l1, l0);
    ReachedBy(pc, ImmCB(c), 0x100);
    s := CBz(if Sel(c) == 25 then BEQ else BNE, RsP(c), Wrap(pc + ImmCB(c)));
  }

  lemma StackEncoded(c: Half, pc: Word) returns (s: Short)
    requires (Sel(c) == 0 && Imm4Spn(c) != 0) || (Sel(c) == 13 && if RdC(c) == 2 then Imm16Sp(c) != 0 else ImmCLui(c) != 0)
    ensures Encodes(s, pc, c)
  {
    hide CType, CIType, Sel, RdC, Rs2C, RdP, Bit12, Imm4Spn, Imm16Sp, ImmCLui;
    HalfWhole(c);
    var b := Bit12(c);
    var h4, h3, h2, h1, h0 := FiveBits(RdC(c));
    var l4, l3, l2, l1, l0 := FiveBits(Rs2C(c));
    if Sel(c) == 0 {
      Addi4spnEncodes(b, h4, 8 * h3 + 4 * h2 + 2 * h1 + h0, l4, l3, 4 * l2 + 2 * l1 + l0);
      s := CAddi4spn(RdP(c), Imm4Spn(c));
    } else if RdC(c) == 2 {
      Addi16spEncodes(b, l4, l3, 2 * l2 + l1, l0);
      s := CAddi16sp(Imm16Sp(c));
    } else {
      CLuiEncodes(b, RdC(c), Rs2C(c));
      s := CLui(RdC(c), ImmCLui(c) / 0x1000);
    }
  }

  lemma ImmediateEncoded(c: Half, pc: Word) returns (s: Short)
    requires Sel(c) in {1, 9, 2}
    ensures Encodes(s, pc, c)
  {
    hide CType, Sel, RdC, Rs2C, Bit12, Shamt, ImmCI, SignExtend;
    HalfWhole(c);
    ShamtIs(c);
    var b, lo := Bit12(c), Rs2C(c);
    SixBits(b, lo);
    QuotientIs(b * 32 + lo, 0x20, b, lo);
    s := if Sel(c) == 1 then CAddi(RdC(c), ImmCI(c)) else if Sel(c) == 9 then CLi(RdC(c), ImmCI(c)) else CSlli(RdC(c), b * 32 + lo);
  }

  lemma MiscEncoded(c: Half, pc: Word) returns (s: Short)
    requires Sel(c) == 17 && (c / 0x400 % 4 == 3 ==> Bit12(c) != 1)
    ensures Encodes(s, pc, c)
  {
    hide CType, Sel, RdC, Rs2C, RdP, RsP, Bit12, Shamt, ImmCI, SignExtend, CIType, CJType, CBType, CLType, Reaches;
    HalfWhole(c);
    ShamtIs(c);
    var b, lo := Bit12(c), Rs2C(c);
    var h4, h3, h2, h1, h0 := FiveBits(RdC(c));
    MiscFields(2 * h4 + h3, b, 4 * h2 + 2 * h1 + h0, lo);
    if 2 * h4 + h3 == 3 {
      s := AluEncoded(c, pc);
    } else if 2 * h4 + h3 == 2 {
      SixBits(b, lo);
      s := CAndi(RsP(c), ImmCI(c));
    } else {
      QuotientIs(b * 32 + lo, 0x20, b, lo);
      s := CShift(if h3 == 0 then Srl else Sra, RsP(c), b * 32 + lo);
    }
  }

  lemma AluEncoded(c: Half, pc: Word) returns (s: Short)
    requires Sel(c) == 17 && c / 0x400 % 4 == 3 && Bit12(c) == 0
    ensures Encodes(s, pc, c)
  {
    hide CType, Sel, RdC, Rs2C, RdP, RsP, Bit12, Shamt, ImmCI, SignExtend, CIType, CJType, CBType, CLType, Reaches;
    HalfWhole(c);
    var h4, h3, h2, h1, h0 := FiveBits(RdC(c));
    var l4, l3, l2, l1, l0 := FiveBits(Rs2C(c));
    MiscFields(2 * h4 + h3, 0, 4 * h2 + 2 * h1 + h0, Rs2C(c));
    QuotientIs(Rs2C(c), 8, 2 * l4 + l3, 4 * l2 + 2 * l1 + l0);
    var j := 2 * l4 + l3;
    s := CAlu(if j == 0 then Sub else if j == 1 then AluOp.Xor else if j == 2 then AluOp.Or else AluOp.And, RsP(c), RdP(c));
  }

  lemma Quadrant2Encoded(c: Half, pc: Word) returns (s: Short)
    requires Sel(c) == 18
    ensures Encodes(s, pc, c)
  {
    hide CType, Sel, RdC, Rs2C, Bit12;
    HalfWhole(c);
    var hi, lo := RdC(c), Rs2C(c);
    s := if Bit12(c) == 0 then (if lo == 0 then CJr(hi) else CMv(hi, lo))
         else if lo != 0 then CAdd(hi, lo) else if hi == 0 then CEbreak else CJalr(hi);
  }

  /** A halfword is accepted exactly when it is the encoding of a compressed instruction. */
  lemma AcceptedIff(c: Half, pc: Word)
    requires c % 4 != 3
    ensures Fused16(c) != DoIllegal <==> exists s :: Encodes(s, pc, c)
  {
    hide Encodes, Sel, RdC, Rs2C, RdP, RsP, Bit12, Shamt, ImmCI, ImmCJ, ImmCB, ImmLw, ImmLwsp, ImmSwsp, Imm4Spn, Imm16Sp, ImmCLui;
    if Fused16(c) != DoIllegal { var s := Encoded(c, pc); }
    forall s | Encodes(s, pc, c)
      ensures Fused16(c) != DoIllegal
    {
      EncodedAccepted(s, pc, c);
    }
  }

  lemma EncodedAccepted(s: Short, pc: Word, c: Half)
    requires Encodes(s, pc, c)
    ensures Fused16(c) != DoIllegal
  {
    hide Fused16, AssembleShort;
    ShortDecodes(s, pc);
  }

  lemma Encoded(c: Half, pc: Word) returns (s: Short)
    requires Fused16(c) != DoIllegal && c % 4 != 3
    ensures Encodes(s, pc, c)
  {
    hide Encodes, RdC, Rs2C, RdP, RsP, Bit12, Shamt, ImmCI, ImmCJ, ImmCB, ImmLw, ImmLwsp, ImmSwsp, Imm4Spn, Imm16Sp, ImmCLui, Sel;
    var sel := Sel(c);
    if sel == 8 || sel == 24 {
      s := LwEncoded(c, pc);
    } else if sel == 10 {
      s := LwspEncoded(c, pc);
    } else if sel == 26 {
      s := SwspEncoded(c, pc);
    } else if sel == 5 || sel == 21 {
      s := JumpEncoded(c, pc);
    } else if sel == 25 || sel == 29 {
      s := BranchEncoded(c, pc);
    } else if sel == 0 || sel == 13 {
      s := StackEncoded(c, pc);
    } else if sel == 1 || sel == 9 || sel == 2 {
      s := ImmediateEncoded(c, pc);
    } else if sel == 17 {
      s := MiscEncoded(c, pc);
    } else {
      assert sel == 18;
      s := Quadrant2Encoded(c, pc);
    }
  }
}
