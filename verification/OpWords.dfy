/** Packed 32-bit op words: what emission packs, the evaluator's field accessors recover.
    The fields of a word are disjoint, so packing is a sum of shifted fields. */
module OpWords {
  import opened Words
  import opened Isa
  import opened Fusion

  type Code = c: nat | c < 64
  type Bits11 = x: nat | x < 0x800
  type Bits16 = x: nat | x < 0x1_0000
  type Bits21 = x: nat | x < 0x20_0000

  // ---- op numbers, in the order the jump table fixes ----

  function AluCode(op: AluOp): Code {
    match op
    case Add => 0 case Sll => 1 case Slt => 2 case Sltu => 3
    case Xor => 4 case Srl => 5 case Or => 6 case And => 7
    case Sub => 8 case Sra => 9
    case Mul => 19 case Mulh => 20 case Mulhsu => 21 case Mulhu => 22
    case Div => 23 case Divu => 24 case Rem => 25 case Remu => 26
  }

  function AluOf(c: nat): AluOp {
    if c == 0 then Add else if c == 1 then Sll else if c == 2 then Slt else if c == 3 then Sltu
    else if c == 4 then AluOp.Xor else if c == 5 then Srl else if c == 6 then AluOp.Or else if c == 7 then AluOp.And
    else if c == 8 then Sub else if c == 9 then Sra
    else if c == 19 then Mul else if c == 20 then Mulh else if c == 21 then Mulhsu else if c == 22 then Mulhu
    else if c == 23 then Div else if c == 24 then Divu else if c == 25 then Rem else Remu
  }

  function ImmCode(op: AluOp): Code {
    if op == Sra then 18 else 10 + AluCode(op)
  }

  function ImmOf(c: nat): AluOp {
    if c == 18 || c < 10 then Sra else AluOf(c - 10)
  }

  function LoadCode(k: LoadKind): Code {
    match k
    case LB => 27 case LH => 28 case LW => 29 case LBU => 30 case LHU => 31
  }

  function LoadOf(c: nat): LoadKind {
    if c == 27 then LB else if c == 28 then LH else if c == 29 then LW else if c == 30 then LBU else LHU
  }

  function StoreCode(k: StoreKind): Code {
    match k
    case SB => 32 case SH => 33 case SW => 34
  }

  function StoreOf(c: nat): StoreKind {
    if c == 32 then SB else if c == 33 then SH else SW
  }

  function CondCode(c: Cond): Code {
    match c
    case BEQ => 35 case BNE => 36 case BLT => 37 case BGE => 38 case BLTU => 39 case BGEU => 40
  }

  function CondOf(c: nat): Cond {
    if c == 35 then BEQ else if c == 36 then BNE else if c == 37 then BLT
    else if c == 38 then BGE else if c == 39 then BLTU else BGEU
  }

  // ---- packing ----

  function Pack(c: Code, a: Reg, b: Reg, low: Bits16): Word {
    c * 0x400_0000 + a * 0x20_0000 + b * 0x1_0000 + low
  }

  /** op, one register, and 21 bits of immediate. */
  function Pack21(c: Code, a: Reg, low: Bits21): Word {
    c * 0x400_0000 + a * 0x20_0000 + low
  }

  /** A third register above eleven bits of immediate. */
  function Low16(c: Reg, x: Bits11): Bits16 {
    c * 0x800 + x
  }

  /** A byte displacement: 4 times the distance in ops. */
  function Disp(at: nat, target: nat): (d: Word)
    ensures d % 4 == 0
  {
    WrapMod(4 * (target - at));
    Wrap(4 * (target - at))
  }

  function MaskNumber(mask: seq<bool>): (n: nat)
    ensures n < Pow2(|mask|)
  {
    if mask == [] then 0 else (if mask[0] then 1 else 0) + 2 * MaskNumber(mask[1..])
  }

  function MaskOf(n: nat, k: nat): (s: seq<bool>)
    ensures |s| == k
    decreases n, k
  {
    if k == 0 then [] else [n % 2 == 1] + MaskOf(n / 2, k - 1)
  }

  /** Field ranges the packed layouts have room for. */
  predicate Packable(op: Op) {
    match op
    case One(d) => Encodable(d)
    case Prologue(_, frame) => frame <= 0x1fff
    case Epilogue(_, frame) => frame <= 0x1fff
    case LiLo(_, v) => v < 0x20_0000
    case LiHi(_, v) => v < 0x20_0000
    case Shadd(_, _, _, sh) => sh < 32
    case Lwx(_, _, _, off) => Fits(off, 1024)
    case Lwlw(_, _, o1, o2) => Fits(o1, 128) && Fits(o2, 128)
    case Vcall(_, _, o1, o2) => Fits(o1, 128) && Fits(o2, 128)
    case Lwsw(_, _, _, o1, o2) => o1 < 128 && o1 % 4 == 0 && o2 < 256 && o2 % 4 == 0
    case LoadBz(_, _, _, off, _, _) => Imm12(off)
  }

  function FrameWord(c: Code, mask: Mask, frame: nat): Word {
    Powers();
    c * 0x400_0000 + MaskNumber(mask) * 0x2000 + frame % 0x2000
  }

  lemma Powers()
    ensures Pow2(6) == 64 && Pow2(8) == 0x100 && Pow2(11) == 0x800 && Pow2(13) == 0x2000
    ensures Pow2(16) == 0x1_0000 && Pow2(21) == 0x20_0000 && Pow2(26) == 0x400_0000
  {
    assert Pow2(8) == 0x100;
    assert Pow2(16) == 0x1_0000;
  }

  function EncodeOne(d: Insn, at: nat): seq<Word> {
    match d
    case RegReg(op, rd, rs1, rs2) => [Pack(AluCode(op), rd, rs1, Low16(rs2, 0))]
    case RegImm(op, rd, rs1, imm) => [Pack(ImmCode(op), rd, rs1, imm % 0x1_0000)]
    case Load(k, rd, rs1, imm) => [Pack(LoadCode(k), rd, rs1, imm % 0x1_0000)]
    case Store(k, rs2, rs1, imm) => [Pack(StoreCode(k), rs2, rs1, imm % 0x1_0000)]
    case Branch(c, rs1, rs2, t) => [Pack(CondCode(c), rs1, rs2, Disp(at, t) % 0x1_0000)]
    case Jal(rd, t) => [Pack21(41, rd, Disp(at, t) % 0x20_0000)]
    case Jalr(rd, rs1, imm) => [Pack(42, rd, rs1, imm % 0x1_0000)]
    case Lui(rd, uimm) => [Pack21(43, rd, uimm % 0x10_0000)]
    case Auipc(rd, uimm) => [Pack21(44, rd, uimm % 0x10_0000)]
    case Memop(f3, rd, rs1, rs2) => [Pack(60, rd, rs1, Low16(rs2, f3 % 8))]
    case Nop => []
    case Ecall => [Pack(46, 0, 0, 0)]
    case Ebreak => [Pack(47, 0, 0, 0)]
    case Illegal => [Pack(48, 0, 0, 0)]
  }

  /** The op word or words emitted for an op at index `at`; targets are op indices. */
  function Encode(op: Op, at: nat): (ws: seq<Word>)
    ensures |ws| == WordCount(op)
  {
    match op
    case One(d) => EncodeOne(d, at)
    case Prologue(mask, frame) => [FrameWord(49, mask, frame)]
    case Epilogue(mask, frame) => [FrameWord(50, mask, frame)]
    case LiLo(rd, v) => [Pack21(51, rd, v % 0x20_0000)]
    case LiHi(rd, v) => [Pack21(52, rd, v % 0x20_0000)]
    case Shadd(rd, rs1, rs2, sh) => [Pack(53, rd, rs1, Low16(rs2, sh % 32 * 64))]
    case Lwx(rd, rs1, rs2, off) => [Pack(54, rd, rs1, Low16(rs2, off % 0x800))]
    case Lwlw(rd, rs1, o1, o2) => [Pack(55, rd, rs1, o1 % 0x100 * 0x100 + o2 % 0x100)]
    case Vcall(rd, rs1, o1, o2) => [Pack(59, rd, rs1, o1 % 0x100 * 0x100 + o2 % 0x100)]
    case Lwsw(rd, rs1, rs2, o1, o2) => [Pack(58, rd, rs1, Low16(rs2, (o1 / 4 * 64 + o2 / 4) % 0x800))]
    case LoadBz(byte, rd, rs1, off, t, onZero) =>
      [Pack(if byte then 57 else 56, rd, rs1, off % 0x1_0000), Disp(at, t) + (if onZero then 1 else 0)]
  }

  // ---- the evaluator's accessors ----

  function FieldOp(w: Word): nat { ShiftRight(w, 26) }
  function FieldA(w: Word): Reg { ShiftRight(w, 21) % 32 }
  function FieldB(w: Word): Reg { ShiftRight(w, 16) % 32 }
  function FieldC(w: Word): Reg { ShiftRight(w, 11) % 32 }
  function FieldImm(w: Word): Word { SignExtend(w, 0x8000) }
  function FieldUimm(w: Word): Word { w % 0x10_0000 }
  function FieldSh(w: Word): nat { ShiftRight(w, 6) % 32 }
  function FieldOff11(w: Word): Word { SignExtend(w, 0x400) }
  function FieldO1(w: Word): Word { SignExtend(ShiftRight(w, 8), 0x80) }
  function FieldO2(w: Word): Word { SignExtend(w, 0x80) }
  function FieldW1(w: Word): Word { ShiftRight(w, 6) % 32 * 4 }
  function FieldW2(w: Word): Word { w % 64 * 4 }

  /** The op index a displacement word leads to: an arithmetic shift by 2, added to the cursor. */
  function Follow(at: nat, disp: Word): Word {
    Wrap(at + Signed(disp) / 4)
  }

  /** The op the evaluator sees in word w (and w2 after it) at index q. */
  function Fetch(w: Word, w2: Word, q: nat): Op {
    var c := FieldOp(w);
    if c <= 9 || 19 <= c <= 26 then One(RegReg(AluOf(c), FieldA(w), FieldB(w), FieldC(w)))
    else if c <= 18 then One(RegImm(ImmOf(c), FieldA(w), FieldB(w), FieldImm(w)))
    else if c <= 31 then One(Load(LoadOf(c), FieldA(w), FieldB(w), FieldImm(w)))
    else if c <= 34 then One(Store(StoreOf(c), FieldA(w), FieldB(w), FieldImm(w)))
    else if c <= 40 then One(Branch(CondOf(c), FieldA(w), FieldB(w), Follow(q, FieldImm(w))))
    else if c == 41 then One(Jal(FieldA(w), Follow(q, SignExtend(w, 0x10_0000))))
    else if c == 42 then One(Jalr(FieldA(w), FieldB(w), FieldImm(w)))
    else if c == 43 then One(Lui(FieldA(w), FieldUimm(w)))
    else if c == 44 then One(Auipc(FieldA(w), FieldUimm(w)))
    else if c == 45 then One(Nop)
    else if c == 46 then One(Ecall)
    else if c == 47 then One(Ebreak)
    else if c == 49 then Prologue(MaskOf(ShiftRight(w, 13), RANKS), w % 0x2000)
    else if c == 50 then Epilogue(MaskOf(ShiftRight(w, 13), RANKS), w % 0x2000)
    else if c == 51 then LiLo(FieldA(w), w % 0x20_0000)
    else if c == 52 then LiHi(FieldA(w), w % 0x20_0000)
    else if c == 53 then Shadd(FieldA(w), FieldB(w), FieldC(w), FieldSh(w))
    else if c == 54 then Lwx(FieldA(w), FieldB(w), FieldC(w), FieldOff11(w))
    else if c == 55 then Lwlw(FieldA(w), FieldB(w), FieldO1(w), FieldO2(w))
    else if c == 56 || c == 57 then
      LoadBz(c == 57, FieldA(w), FieldB(w), FieldImm(w), Follow(q, w2), w2 % 2 == 1)
    else if c == 58 then Lwsw(FieldA(w), FieldB(w), FieldC(w), FieldW1(w), FieldW2(w))
    else if c == 59 then Vcall(FieldA(w), FieldB(w), FieldO1(w), FieldO2(w))
    else if c == 60 then One(Memop(w % 8, FieldA(w), FieldB(w), FieldC(w)))
    else One(Illegal)
  }

  // ---- round trips ----

  /** How far a control transfer may reach in its layout: 16 bits of byte displacement for a
      branch, 21 for a jal, 32 for a load-and-branch. */
  predicate Reachable(op: Op, at: nat) {
    match op
    case One(Branch(_, _, _, t)) => -0x2000 <= t - at < 0x2000
    case One(Jal(_, t)) => -0x4_0000 <= t - at < 0x4_0000
    case LoadBz(_, _, _, _, t, _) => -0x2000_0000 <= t - at < 0x2000_0000
    case _ => true
  }

  /** The fields of a packed word. */
  lemma PackFields(c: Code, a: Reg, b: Reg, low: Bits16, w: Word)
    requires w == Pack(c, a, b, low)
    ensures FieldOp(w) == c && FieldA(w) == a && FieldB(w) == b && w % 0x1_0000 == low
  {
    hide ShiftRight, Pow2;
    Powers();
    ShiftDivides(w, 26, 0x400_0000);
    ShiftDivides(w, 21, 0x20_0000);
    ShiftDivides(w, 16, 0x1_0000);
    assert w / 0x1_0000 == (c * 32 + a) * 32 + b;
    assert w / 0x20_0000 == c * 32 + a;
  }

  lemma Pack21Fields(c: Code, a: Reg, low: Bits21, w: Word)
    requires w == Pack21(c, a, low)
    ensures FieldOp(w) == c && FieldA(w) == a && w % 0x20_0000 == low
  {
    hide ShiftRight, Pow2;
    Powers();
    ShiftDivides(w, 26, 0x400_0000);
    ShiftDivides(w, 21, 0x20_0000);
    assert w / 0x20_0000 == c * 32 + a;
  }

  lemma Low16Fields(c: Code, a: Reg, b: Reg, r: Reg, x: Bits11, w: Word)
    requires w == Pack(c, a, b, Low16(r, x))
    ensures FieldC(w) == r && w % 0x800 == x
  {
    hide ShiftRight, Pow2;
    Powers();
    ShiftDivides(w, 11, 0x800);
    assert w / 0x800 == (c * 1024 + a * 32 + b) * 32 + r;
  }

  lemma {:induction false} MaskRoundTrip(mask: seq<bool>, high: nat)
    ensures MaskOf(MaskNumber(mask) + Pow2(|mask|) * high, |mask|) == mask
    decreases |mask|
  {
    if mask != [] {
      var low := if mask[0] then 1 else 0;
      var rest := MaskNumber(mask[1..]) + Pow2(|mask| - 1) * high;
      assert 2 * Pow2(|mask| - 1) * high == 2 * (Pow2(|mask| - 1) * high);
      LowBit(rest, low);
      MaskRoundTrip(mask[1..], high);
    }
  }

  lemma LowBit(h: int, bit: nat)
    requires bit <= 1
    ensures (2 * h + bit) / 2 == h && (2 * h + bit) % 2 == bit
  {
  }

  lemma FrameFields(c: Code, mask: Mask, frame: nat, w: Word)
    requires w == FrameWord(c, mask, frame) && frame < 0x2000
    ensures FieldOp(w) == c && MaskOf(ShiftRight(w, 13), RANKS) == mask && w % 0x2000 == frame
  {
    hide ShiftRight, Pow2, MaskOf;
    Powers();
    MaskRoundTrip(mask, c);
    ShiftDivides(w, 26, 0x400_0000);
    ShiftDivides(w, 13, 0x2000);
    assert w / 0x2000 == MaskNumber(mask) + 0x2000 * c;
  }

  /** Sign extension of a field that holds the low bits of a near-zero number. */
  lemma FieldExtends(w: nat, half: nat, x: int)
    requires half in {0x80, 0x400, 0x8000, 0x10_0000} && 0 <= x + half < 2 * half
    requires w % (2 * half) == Wrap(x) % (2 * half)
    ensures SignExtend(w, half) == Wrap(x)
  {
    assert Wrap(x) == if x < 0 then x + 0x1_0000_0000 else x;
    assert Wrap(x) % (2 * half) == if x < 0 then x + 2 * half else x;
  }

  /** The same for a field holding the low bits of a word. */
  lemma WordExtends(w: nat, half: nat, v: Word)
    requires half in {0x80, 0x400, 0x8000, 0x10_0000} && 0 <= Signed(v) + half < 2 * half
    requires w % (2 * half) == v % (2 * half)
    ensures SignExtend(w, half) == v
  {
    assert Wrap(Signed(v)) == v;
    FieldExtends(w, half, Signed(v));
  }

  // ---- displacements ----

  /** Following a displacement that carries a bit in its low end. */
  lemma FollowLong(at: nat, t: Word, bit: nat)
    requires -0x2000_0000 <= t - at < 0x2000_0000 && bit <= 1
    ensures Disp(at, t) + bit < 0x1_0000_0000
    ensures Follow(at, Disp(at, t) + bit) == t && (Disp(at, t) + bit) % 2 == bit
  {
    var d := t - at;
    WrapNear(4 * d);
    assert Signed(Disp(at, t) + bit) == 4 * d + bit && (4 * d + bit) / 4 == d;
    LowBit(if d < 0 then 2 * d + 0x8000_0000 else 2 * d, bit);
    assert at + d == t;
  }

  // ---- each kind of op reads back ----

  /** The accessors recover from the emitted words exactly the op that was emitted. */
  predicate ReadsBack(op: Op, at: nat, w2: Word) {
    var ws := Encode(op, at);
    |ws| >= 1 && Fetch(ws[0], if |ws| == 2 then ws[1] else w2, at) == op
  }

  lemma AluCodeBack(op: AluOp)
    ensures (AluCode(op) <= 9 || 19 <= AluCode(op) <= 26) && AluOf(AluCode(op)) == op
  {
  }

  lemma RegRegBack(op: AluOp, rd: Reg, rs1: Reg, rs2: Reg, at: nat, w2: Word)
    ensures ReadsBack(One(RegReg(op, rd, rs1, rs2)), at, w2)
  {
    hide Pack, Pack21, Low16, FieldOp, FieldA, FieldB, FieldC;
    var w := Pack(AluCode(op), rd, rs1, Low16(rs2, 0));
    AluCodeBack(op);
    PackFields(AluCode(op), rd, rs1, Low16(rs2, 0), w);
    Low16Fields(AluCode(op), rd, rs1, rs2, 0, w);
  }

  lemma ImmFields(c: Code, a: Reg, b: Reg, imm: Word, w: Word)
    requires w == Pack(c, a, b, imm % 0x1_0000) && (Imm12(imm) || imm < 32)
    ensures FieldOp(w) == c && FieldA(w) == a && FieldB(w) == b && FieldImm(w) == imm
  {
    PackFields(c, a, b, imm % 0x1_0000, w);
    WordExtends(w, 0x8000, imm);
  }

  lemma ImmediateBack(d: Insn, at: nat, w2: Word)
    requires Encodable(d) && (d.RegImm? || d.Load? || d.Store? || d.Jalr?)
    ensures ReadsBack(One(d), at, w2)
  {
    hide Pack, FieldOp, FieldA, FieldB, FieldImm;
    var w := EncodeOne(d, at)[0];
    match d
    case RegImm(op, rd, rs1, imm) => ImmFields(ImmCode(op), rd, rs1, imm, w);
    case Load(k, rd, rs1, imm) => ImmFields(LoadCode(k), rd, rs1, imm, w);
    case Store(k, rs2, rs1, imm) => ImmFields(StoreCode(k), rs2, rs1, imm, w);
    case Jalr(rd, rs1, imm) => ImmFields(42, rd, rs1, imm, w);
  }

  lemma BranchBack(c: Cond, rs1: Reg, rs2: Reg, t: Word, at: nat, w2: Word)
    requires -0x2000 <= t - at < 0x2000
    ensures ReadsBack(One(Branch(c, rs1, rs2, t)), at, w2)
  {
    hide Pack, FieldOp, FieldA, FieldB, SignExtend, Follow, Wrap;
    var low := Disp(at, t) % 0x1_0000;
    var w := Pack(CondCode(c), rs1, rs2, low);
    PackFields(CondCode(c), rs1, rs2, low, w);
    FieldExtends(w, 0x8000, 4 * (t - at));
    FollowLong(at, t, 0);
  }

  lemma JalBack(rd: Reg, t: Word, at: nat, w2: Word)
    requires -0x4_0000 <= t - at < 0x4_0000
    ensures ReadsBack(One(Jal(rd, t)), at, w2)
  {
    hide Pack21, FieldOp, FieldA, SignExtend, Follow, Wrap;
    var low := Disp(at, t) % 0x20_0000;
    var w := Pack21(41, rd, low);
    Pack21Fields(41, rd, low, w);
    FieldExtends(w, 0x10_0000, 4 * (t - at));
    FollowLong(at, t, 0);
  }

  lemma UpperBack(d: Insn, at: nat, w2: Word)
    requires Encodable(d) && (d.Lui? || d.Auipc?)
    ensures ReadsBack(One(d), at, w2)
  {
    hide Pack21, FieldOp, FieldA;
    var w := EncodeOne(d, at)[0];
    Pack21Fields(if d.Lui? then 43 else 44, d.rd, d.uimm, w);
    QuotientIs(w, 0x10_0000, w / 0x20_0000 * 2, d.uimm);
  }

  lemma MemopBack(f3: nat, rd: Reg, rs1: Reg, rs2: Reg, at: nat, w2: Word)
    requires f3 < 8
    ensures ReadsBack(One(Memop(f3, rd, rs1, rs2)), at, w2)
  {
    hide Pack, Pack21, Low16, FieldOp, FieldA, FieldB, FieldC;
    var w := Pack(60, rd, rs1, Low16(rs2, f3));
    PackFields(60, rd, rs1, Low16(rs2, f3), w);
    Low16Fields(60, rd, rs1, rs2, f3, w);
    QuotientIs(w, 8, w / 0x800 * 0x100, f3);
  }

  lemma TrapBack(d: Insn, at: nat, w2: Word)
    requires d.Ecall? || d.Ebreak? || d.Illegal?
    ensures ReadsBack(One(d), at, w2)
  {
    hide Pack, FieldOp, FieldA, FieldB;
    PackFields(if d.Ecall? then 46 else if d.Ebreak? then 47 else 48, 0, 0, 0, EncodeOne(d, at)[0]);
  }

  /** An emitted plain instruction reads back as itself. */
  lemma OneBack(d: Insn, at: nat, w2: Word)
    requires Encodable(d) && !d.Nop? && Reachable(One(d), at)
    ensures ReadsBack(One(d), at, w2)
  {
    hide ReadsBack;
    match d
    case RegReg(op, rd, rs1, rs2) => RegRegBack(op, rd, rs1, rs2, at, w2);
    case Branch(c, rs1, rs2, t) => BranchBack(c, rs1, rs2, t, at, w2);
    case Jal(rd, t) => JalBack(rd, t, at, w2);
    case Lui(_, _) => UpperBack(d, at, w2);
    case Auipc(_, _) => UpperBack(d, at, w2);
    case Memop(f3, rd, rs1, rs2) => MemopBack(f3, rd, rs1, rs2, at, w2);
    case Ecall => TrapBack(d, at, w2);
    case Ebreak => TrapBack(d, at, w2);
    case Illegal => TrapBack(d, at, w2);
    case _ => ImmediateBack(d, at, w2);
  }

  /** The two fields in the low 11 bits: five bits above six. */
  lemma LowParts(w: Word, hi: nat, lo: nat)
    requires hi < 32 && lo < 64 && w % 0x800 == hi * 64 + lo
    ensures FieldSh(w) == hi && w % 64 == lo
  {
    hide ShiftRight, Pow2;
    Powers();
    ShiftDivides(w, 6, 64);
    var q := w / 0x800;
    assert w == (q * 32 + hi) * 64 + lo;
    assert w / 64 == q * 32 + hi;
  }

  /** Three registers and eleven bits. */
  lemma ScaledBack(op: Op, at: nat, w2: Word)
    requires Packable(op) && (op.Shadd? || op.Lwx? || op.Lwsw?)
    ensures ReadsBack(op, at, w2)
  {
    hide Pack, Pack21, Low16, FieldOp, FieldA, FieldB, FieldC, SignExtend, ShiftRight;
    var w := Encode(op, at)[0];
    match op
    case Shadd(rd, rs1, rs2, sh) =>
      PackFields(53, rd, rs1, Low16(rs2, sh * 64), w);
      Low16Fields(53, rd, rs1, rs2, sh * 64, w);
      LowParts(w, sh, 0);
    case Lwx(rd, rs1, rs2, off) =>
      PackFields(54, rd, rs1, Low16(rs2, off % 0x800), w);
      Low16Fields(54, rd, rs1, rs2, off % 0x800, w);
      WordExtends(w, 0x400, off);
    case Lwsw(rd, rs1, rs2, o1, o2) =>
      var x := o1 / 4 * 64 + o2 / 4;
      PackFields(58, rd, rs1, Low16(rs2, x), w);
      Low16Fields(58, rd, rs1, rs2, x, w);
      LowParts(w, o1 / 4, o2 / 4);
  }

  /** The two bytes in the low half word. */
  lemma TwoBytes(w: Word, hi: nat, lo: nat)
    requires hi < 0x100 && lo < 0x100 && w % 0x1_0000 == hi * 0x100 + lo
    ensures ShiftRight(w, 8) % 0x100 == hi && w % 0x100 == lo
  {
    hide ShiftRight, Pow2;
    Powers();
    ShiftDivides(w, 8, 0x100);
    var q := w / 0x1_0000;
    assert w == (q * 0x100 + hi) * 0x100 + lo;
    assert w / 0x100 == q * 0x100 + hi;
  }

  lemma TwoLoadsBack(op: Op, at: nat, w2: Word)
    requires Packable(op) && (op.Lwlw? || op.Vcall?)
    ensures ReadsBack(op, at, w2)
  {
    hide Pack, FieldOp, FieldA, FieldB, SignExtend, ShiftRight;
    var w := Encode(op, at)[0];
    PackFields(if op.Lwlw? then 55 else 59, op.rd, op.rs1, op.o1 % 0x100 * 0x100 + op.o2 % 0x100, w);
    TwoBytes(w, op.o1 % 0x100, op.o2 % 0x100);
    WordExtends(ShiftRight(w, 8), 0x80, op.o1);
    WordExtends(w, 0x80, op.o2);
  }

  lemma FrameBack(op: Op, at: nat, w2: Word)
    requires Packable(op) && (op.Prologue? || op.Epilogue?)
    ensures ReadsBack(op, at, w2)
  {
    hide FrameWord, FieldOp, MaskOf, ShiftRight;
    FrameFields(if op.Prologue? then 49 else 50, op.mask, op.frame, Encode(op, at)[0]);
  }

  lemma LiBack(op: Op, at: nat, w2: Word)
    requires Packable(op) && (op.LiLo? || op.LiHi?)
    ensures ReadsBack(op, at, w2)
  {
    hide Pack21, FieldOp, FieldA;
    Pack21Fields(if op.LiLo? then 51 else 52, op.rd, op.imm21, Encode(op, at)[0]);
  }

  lemma LoadBzBack(op: Op, at: nat, w2: Word)
    requires Packable(op) && op.LoadBz? && Reachable(op, at)
    ensures ReadsBack(op, at, w2)
  {
    hide Pack, FieldOp, FieldA, FieldB, FieldImm, Disp, Follow;
    ImmFields(if op.byte then 57 else 56, op.rd, op.rs1, op.off, Encode(op, at)[0]);
    FollowLong(at, op.target, if op.onZero then 1 else 0);
  }

  lemma FetchBack(op: Op, at: nat, w2: Word)
    requires Packable(op) && Reachable(op, at) && WordCount(op) >= 1
    ensures ReadsBack(op, at, w2)
  {
    hide ReadsBack;
    match op
    case One(d) => OneBack(d, at, w2);
    case Prologue(_, _) => FrameBack(op, at, w2);
    case Epilogue(_, _) => FrameBack(op, at, w2);
    case LiLo(_, _) => LiBack(op, at, w2);
    case LiHi(_, _) => LiBack(op, at, w2);
    case Lwlw(_, _, _, _) => TwoLoadsBack(op, at, w2);
    case Vcall(_, _, _, _) => TwoLoadsBack(op, at, w2);
    case LoadBz(_, _, _, _, _, _) => LoadBzBack(op, at, w2);
    case _ => ScaledBack(op, at, w2);
  }
}
