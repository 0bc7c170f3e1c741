/** The transcoder's decisions: which instructions fall together into one op. */
module Fusion {
  import opened Words
  import opened Isa
  import opened Layout

  /** Code at address 0, one instruction per 4 bytes; `hot[i]` when instruction i is a
      possible jump target. `fix` holds the immediates rewritten by code relocations, and
      `plan` the layout the first pass computed. */
  datatype Prog = Prog(code: seq<Insn>, hot: seq<bool>, fix: map<nat, Word>, plan: Plan) {
    predicate Valid() {
      && |hot| == |code|
      && 4 * |code| <= 0x8000_0000
      && (forall i :: 0 <= i < |code| ==> Encodable(code[i]))
    }
  }

  /** What the op stream holds for one unit. Branch and jump targets are byte addresses
      here; the evaluator reads the same form with op addresses. */
  datatype Op =
    | One(insn: Insn)
    | Prologue(mask: Mask, frame: nat)
    | Epilogue(mask: Mask, frame: nat)
    | LiLo(rd: Reg, imm21: nat)
    | LiHi(rd: Reg, imm21: nat)
    | Shadd(rd: Reg, rs1: Reg, rs2: Reg, sh: nat)
    | Lwx(rd: Reg, rs1: Reg, rs2: Reg, off: Word)
    | Lwlw(rd: Reg, rs1: Reg, o1: Word, o2: Word)
    | Vcall(rd: Reg, rs1: Reg, o1: Word, o2: Word)
    | Lwsw(rd: Reg, rs1: Reg, rs2: Reg, o1: Word, o2: Word)
    | LoadBz(byte: bool, rd: Reg, rs1: Reg, off: Word, target: Word, onZero: bool)

  datatype Unit = Unit(width: nat, op: Op)

  /** A register write to x0 has no effect, so the decoder makes it a nop. */
  function Fold(d: Insn): Insn {
    match d
    case RegReg(_, rd, _, _) => if rd == 0 then Nop else d
    case RegImm(_, rd, _, _) => if rd == 0 then Nop else d
    case Lui(rd, _) => if rd == 0 then Nop else d
    case Auipc(rd, _) => if rd == 0 then Nop else d
    case _ => d
  }

  /** Instruction i as decoded; past the code there is nothing legal. */
  function D(p: Prog, i: nat): Insn {
    if i < |p.code| then Fold(p.code[i]) else Illegal
  }

  predicate Hot(p: Prog, i: nat) {
    i < |p.hot| && p.hot[i]
  }

  function WordCount(op: Op): nat {
    match op
    case One(d) => if d.Nop? then 0 else 1
    case LoadBz(_, _, _, _, _, _) => 2
    case _ => 1
  }

  // ---- the callee-saved registers, in save order ----

  const RANKS := 13
  type RankNo = k: nat | k < 13

  /** The registers a fused frame op keeps: bit k set when the one of rank k is kept. */
  type Mask = s: seq<bool> | |s| == 13 witness seq(13, k => false)

  function Rank(r: Reg): int {
    if r == 1 then 0
    else if r == 8 then 1
    else if r == 9 then 2
    else if 18 <= r <= 27 then 3 + (r - 18)
    else -1
  }

  function RankReg(k: RankNo): Reg {
    if k == 0 then 1 else if k == 1 then 8 else if k == 2 then 9 else 18 + (k - 3)
  }

  // ---- prologue and epilogue runs ----

  predicate IsSave(d: Insn) {
    d.Store? && d.sk == SW && d.rs1 == 2 && Rank(d.rs2) >= 0
  }

  predicate IsRestore(d: Insn) {
    d.Load? && d.lk == LW && d.rs1 == 2 && Rank(d.rd) >= 0
  }

  /** How many saves follow at o, stopping at a jump target and after k of them. */
  function SaveCount(p: Prog, o: nat, k: nat): (n: nat)
    ensures n <= k && (n > 0 ==> o + n <= |p.code|)
    ensures forall c :: o <= c < o + n ==> IsSave(D(p, c)) && !Hot(p, c)
    decreases k, o
  {
    if k == 0 || o >= |p.code| || Hot(p, o) || !IsSave(D(p, o)) then 0
    else 1 + SaveCount(p, o + 1, k - 1)
  }

  /** The same for restores; the first one may itself be a jump target. */
  function RestoreCount(p: Prog, o: nat, first: bool, k: nat): (n: nat)
    ensures n <= k && (n > 0 ==> o + n <= |p.code|)
    ensures forall c :: o <= c < o + n ==> IsRestore(D(p, c)) && (!(first && c == o) ==> !Hot(p, c))
    decreases k, o
  {
    if k == 0 || o >= |p.code| || (!first && Hot(p, o)) || !IsRestore(D(p, o)) then 0
    else 1 + RestoreCount(p, o + 1, false, k - 1)
  }

  /** The first position of `want` in offs, from c on; |offs| when there is none. */
  function FindOff(offs: seq<int>, want: int, c: nat): (f: nat)
    requires c <= |offs|
    ensures c <= f <= |offs|
    ensures f < |offs| ==> offs[f] == want
    ensures forall j :: c <= j < f ==> offs[j] != want
    decreases |offs| - c
  {
    if c == |offs| || offs[c] == want then c else FindOff(offs, want, c + 1)
  }

  function Slot(frame: int, q: nat): int {
    frame - 4 - 4 * q
  }

  /** The canonical-layout check from the q-th slot down: every slot is saved by a
      register ranked strictly above the previous one. */
  function CanonFrom(regs: seq<Reg>, offs: seq<int>, frame: int, q: nat, prev: int, mask: Mask): Option<Mask>
    requires |regs| == |offs| && q <= |regs|
    requires prev >= -1
    decreases |regs| - q
  {
    if q == |regs| then Some(mask)
    else
      var f := FindOff(offs, Slot(frame, q), 0);
      if f == |offs| then None
      else
        var rk := Rank(regs[f]);
        if rk <= prev then None else CanonFrom(regs, offs, frame, q + 1, rk, mask[rk := true])
  }

  function NoBits(): Mask {
    seq(RANKS, k => false)
  }

  function Canonical(regs: seq<Reg>, offs: seq<int>, frame: int): Option<Mask>
    requires |regs| == |offs|
  {
    CanonFrom(regs, offs, frame, 0, -1, NoBits())
  }

  function Run(p: Prog, o: nat, n: nat): (s: seq<Insn>)
    ensures |s| == n && forall c :: 0 <= c < n ==> s[c] == D(p, o + c)
  {
    seq(n, c requires 0 <= c < n => D(p, o + c))
  }

  function SavedReg(d: Insn): Reg {
    match d
    case Store(_, rs2, _, _) => rs2
    case Load(_, rd, _, _) => rd
    case _ => 0
  }

  function FrameOff(d: Insn): int {
    match d
    case Store(_, _, _, imm) => Signed(imm)
    case Load(_, _, _, imm) => Signed(imm)
    case _ => 0
  }

  function RegsOf(run: seq<Insn>): (s: seq<Reg>)
    ensures |s| == |run| && forall c :: 0 <= c < |run| ==> s[c] == SavedReg(run[c])
  {
    if run == [] then [] else [SavedReg(run[0])] + RegsOf(run[1..])
  }

  function OffsOf(run: seq<Insn>): (s: seq<int>)
    ensures |s| == |run| && forall c :: 0 <= c < |run| ==> s[c] == FrameOff(run[c])
  {
    if run == [] then [] else [FrameOff(run[0])] + OffsOf(run[1..])
  }

  predicate IsSpAdjust(d: Insn) {
    d.RegImm? && d.op == Add && d.rd == 2 && d.rs1 == 2
  }

  predicate IsRet(d: Insn) {
    d.Jalr? && d.rd == 0 && d.rs1 == 1 && d.imm == 0
  }

  /** The mask of a run's canonical layout, if it has one. */
  function FrameMask(run: seq<Insn>, frame: int): Option<Mask> {
    Canonical(RegsOf(run), OffsOf(run), frame)
  }

  function TryPrologue(p: Prog, i: nat): Option<Unit> {
    var a := D(p, i);
    if !IsSpAdjust(a) || Signed(a.imm) >= 0 then None
    else
      var frame := -Signed(a.imm);
      if frame > 0x1fff then None
      else
        var n := SaveCount(p, i + 1, RANKS);
        if n == 0 then None
        else match FrameMask(Run(p, i + 1, n), frame)
          case None => None
          case Some(mask) => Some(Unit(1 + n, Prologue(mask, frame)))
  }

  function TryEpilogue(p: Prog, i: nat): Option<Unit> {
    var n := RestoreCount(p, i, true, RANKS);
    var o := i + n;
    if n == 0 || o + 2 > |p.code| || Hot(p, o) || Hot(p, o + 1) then None
    else
      var a := D(p, o);
      if !IsSpAdjust(a) || Signed(a.imm) <= 0 || a.imm > 0x1fff || !IsRet(D(p, o + 1)) then None
      else match FrameMask(Run(p, i, n), a.imm)
        case None => None
        case Some(mask) => Some(Unit(n + 2, Epilogue(mask, a.imm)))
  }

  // ---- constants ----

  predicate NearZero(v: Word) {
    -0x10_0000 <= Signed(v) < 0x10_0000
  }

  predicate NearHalf(v: Word) {
    -0x10_0000 <= Signed(Wrap(v - 0x8000_0000)) < 0x10_0000
  }

  function LiLoOf(rd: Reg, v: Word): Op {
    LiLo(rd, v % 0x20_0000)
  }

  function LiHiOf(rd: Reg, v: Word): Op {
    LiHi(rd, Wrap(v - 0x8000_0000) % 0x20_0000)
  }

  /** The value an auipc at instruction i leaves, at its true address. */
  function AuipcValue(i: nat, uimm: Word): Word {
    Wrap(4 * i + uimm * 0x1000)
  }

  /** What auipc then addi leave. */
  function LaValue(i: nat, uimm: Word, imm: Word): Word {
    Wrap(AuipcValue(i, uimm) + imm)
  }

  function TryLa(p: Prog, i: nat): Option<Unit> {
    if i + 2 > |p.code| || Hot(p, i + 1) || !D(p, i).Auipc? then None
    else
      var a, b := D(p, i), D(p, i + 1);
      if !(b.RegImm? && b.op == Add && b.rd == a.rd && b.rs1 == a.rd) then None
      else
        var v := LaValue(i, a.uimm, b.imm);
        if v < 4 * |p.code| then None
        else if NearZero(v) then Some(Unit(2, LiLoOf(a.rd, v)))
        else if NearHalf(v) then Some(Unit(2, LiHiOf(a.rd, v)))
        else None
  }

  // ---- pairs and triples ----

  predicate Fits(imm: Word, bound: int) {
    -bound <= Signed(imm) < bound
  }

  predicate IsWordLoad(d: Insn) {
    d.Load? && d.lk == LW && d.rd != 0
  }

  /** The other addend of `add T,..` when exactly one of its operands is t. */
  function OtherAddend(b: Insn, t: Reg): Option<Reg> {
    if !b.RegReg? then None
    else if b.rs1 == t then (if b.rs2 != t then Some(b.rs2) else None)
    else if b.rs2 == t then Some(b.rs1)
    else None
  }

  predicate ShaddPair(a: Insn, b: Insn) {
    a.RegImm? && a.op == Sll && b.RegReg? && b.op == Add && b.rd == a.rd && OtherAddend(b, a.rd).Some?
  }

  predicate LwxPair(a: Insn, b: Insn) {
    a.RegReg? && a.op == Add && a.rd != 0 && b.Load? && b.lk == LW && b.rd == a.rd && b.rs1 == a.rd && Fits(b.imm, 1024)
  }

  predicate LwlwPair(a: Insn, b: Insn) {
    IsWordLoad(a) && b.Load? && b.lk == LW && b.rd == a.rd && b.rs1 == a.rd && Fits(a.imm, 128) && Fits(b.imm, 128)
  }

  predicate LwswPair(a: Insn, b: Insn) {
    IsWordLoad(a) && b.Store? && b.sk == SW && b.rs2 == a.rd &&
    a.imm < 128 && a.imm % 4 == 0 && b.imm < 256 && b.imm % 4 == 0
  }

  predicate BzPair(a: Insn, b: Insn) {
    a.Load? && (a.lk == LW || a.lk == LBU) && a.rd != 0 &&
    b.Branch? && (b.cond == BEQ || b.cond == BNE) &&
    ((b.rs1 == a.rd && b.rs2 == 0) || (b.rs2 == a.rd && b.rs1 == 0))
  }

  predicate VcallTail(c: Insn, t: Reg) {
    c.Jalr? && c.rd == 1 && c.rs1 == t && c.imm == 0
  }

  /** The op two neighbours fuse into. */
  function PairOp(a: Insn, b: Insn): Option<Op> {
    if ShaddPair(a, b) then Some(Shadd(a.rd, OtherAddend(b, a.rd).value, a.rs1, a.imm))
    else if LwxPair(a, b) then Some(Lwx(a.rd, a.rs1, a.rs2, b.imm))
    else if LwlwPair(a, b) then Some(Lwlw(a.rd, a.rs1, a.imm, b.imm))
    else if LwswPair(a, b) then Some(Lwsw(a.rd, a.rs1, b.rs1, a.imm, b.imm))
    else if BzPair(a, b) then Some(LoadBz(a.lk == LBU, a.rd, a.rs1, a.imm, b.target, b.cond == BEQ))
    else None
  }

  /** The pairs that are fused, form by form, for all registers and offsets in range; the add may
      have its operands either way round. */
  lemma PairsFuse(t: Reg, r: Reg, s: Reg, sh: Word, o1: Word, o2: Word, target: Word)
    ensures s != t ==> PairOp(RegImm(Sll, t, r, sh), RegReg(Add, t, t, s)) == Some(Shadd(t, s, r, sh)) == PairOp(RegImm(Sll, t, r, sh), RegReg(Add, t, s, t))
    ensures t != 0 && -1024 <= Signed(o1) < 1024 ==> PairOp(RegReg(Add, t, r, s), Load(LW, t, t, o1)) == Some(Lwx(t, r, s, o1))
    ensures t != 0 && -128 <= Signed(o1) < 128 && -128 <= Signed(o2) < 128 ==> PairOp(Load(LW, t, r, o1), Load(LW, t, t, o2)) == Some(Lwlw(t, r, o1, o2))
    ensures t != 0 && o1 < 128 && o1 % 4 == 0 && o2 < 256 && o2 % 4 == 0 ==> PairOp(Load(LW, t, r, o1), Store(SW, t, s, o2)) == Some(Lwsw(t, r, s, o1, o2))
    ensures t != 0 ==> PairOp(Load(LW, t, r, o1), Branch(BEQ, t, 0, target)) == Some(LoadBz(false, t, r, o1, target, true)) == PairOp(Load(LW, t, r, o1), Branch(BEQ, 0, t, target))
    ensures t != 0 ==> PairOp(Load(LBU, t, r, o1), Branch(BNE, t, 0, target)) == Some(LoadBz(true, t, r, o1, target, false)) == PairOp(Load(LBU, t, r, o1), Branch(BNE, 0, t, target))
  {
  }

  /** A double indirection that a call through its result completes is a virtual call. */
  predicate Calls(p: Prog, i: nat, op: Op) {
    op.Lwlw? && i + 3 <= |p.code| && !Hot(p, i + 2) && VcallTail(D(p, i + 2), op.rd)
  }

  function TryPair(p: Prog, i: nat): Option<Unit> {
    if i + 2 > |p.code| || Hot(p, i + 1) then None
    else
      match PairOp(D(p, i), D(p, i + 1))
      case None => None
      case Some(op) => if Calls(p, i, op) then Some(Unit(3, Vcall(op.rd, op.rs1, op.o1, op.o2))) else Some(Unit(2, op))
  }

  /** An instruction on its own; an auipc whose value is certainly data becomes a load-immediate. */
  function Single(i: nat, d: Insn): Op {
    if d.Auipc? then
      var v := AuipcValue(i, d.uimm);
      if -0x10_0000 <= Signed(v) <= -2049 then LiLoOf(d.rd, v)
      else if NearHalf(v) then LiHiOf(d.rd, v)
      else One(d)
    else One(d)
  }

  function Alone(p: Prog, i: nat): Unit {
    Unit(1, Single(i, D(p, i)))
  }

  /** The unit that starts at instruction i. Both passes call this. */
  function Step(p: Prog, i: nat): Unit {
    match TryPrologue(p, i)
    case Some(u) => u
    case None =>
      match TryEpilogue(p, i)
      case Some(u) => u
      case None =>
        match TryLa(p, i)
        case Some(u) => u
        case None =>
          match TryPair(p, i)
          case Some(u) => u
          case None => Alone(p, i)
  }

  function Width(p: Prog, i: nat): (w: nat)
    ensures 1 <= w && (i < |p.code| ==> i + w <= |p.code|)
  {
    Step(p, i).width
  }

  function WordsAt(p: Prog, i: nat): nat {
    WordCount(Step(p, i).op)
  }

  /** No unit hides a possible jump target behind its head. */
  lemma InteriorCold(p: Prog, i: nat, q: nat)
    requires i < q < i + Width(p, i)
    ensures !Hot(p, q)
  {
    hide Canonical;
    assert i < q < i + 1 + SaveCount(p, i + 1, RANKS) ==> IsSave(D(p, q));
    assert q < i + RestoreCount(p, i, true, RANKS) ==> IsRestore(D(p, q));
    assert Width(p, i) <= 3 ==> q == i + 1 || q == i + 2;
  }

  predicate EndsBlock(d: Insn) {
    d.Jal? || d.Jalr? || d.Branch? || d.Ecall? || d.Ebreak? || d.Illegal?
  }

  /** A unit's control transfer is its last instruction. */
  lemma TransferLast(p: Prog, i: nat, q: nat)
    requires i <= q < i + Width(p, i) && EndsBlock(D(p, q))
    ensures q == i + Width(p, i) - 1
  {
    hide Canonical;
    assert i < q < i + 1 + SaveCount(p, i + 1, RANKS) ==> IsSave(D(p, q));
    assert q < i + RestoreCount(p, i, true, RANKS) ==> IsRestore(D(p, q));
  }

  /** An op stream is never longer than the instructions it came from. */
  lemma WordsWithin(p: Prog, i: nat)
    ensures WordsAt(p, i) <= Width(p, i)
  {
  }
}
