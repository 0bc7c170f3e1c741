/** Address rewriting once the map exists: code auipc pairs re-split for the op space, and
    data auipcs left over turned into load-immediates. */
module Linking {
  import opened Words
  import opened Isa
  import opened Fusion
  import opened Layout
  import opened SourceMachine
  import opened Simulation
  import opened OpWords
  import opened Transcoding
  import opened Transcoder

  /** One auipc at byte `hi` whose result the instruction at byte `lo` completes to the
      address of a code symbol plus an addend. */
  datatype Fixup = Fixup(hi: Word, lo: Word, sym: Word, addend: int, loIsStore: bool)

  /** The instruction at a byte address. */
  function InsnOf(a: Word): nat {
    a / 4
  }

  /** The map's entry for a byte address; none past the map. */
  function MapAt(m: seq<Word>, a: Word): Word {
    if a / 2 < |m| then m[a / 2] else SENTINEL
  }

  // ---- op words, one at a time ----

  function WordIn(ops: seq<Word>, at: nat): Word {
    if at < |ops| then ops[at] else 0
  }

  function Put(ops: seq<Word>, at: nat, w: Word): seq<Word> {
    if at < |ops| then ops[at := w] else ops
  }

  /** w with its low k bits replaced by v's. */
  function SetLow(w: nat, v: nat, k: nat): nat {
    if k == 0 then w else 2 * SetLow(w / 2, v / 2, k - 1) + v % 2
  }

  lemma LowHalf(w: nat, h: nat)
    requires h > 0
    ensures w % (2 * h) == 2 * (w / 2 % h) + w % 2
  {
    var q, r := w / 2 / h, w / 2 % h;
    assert w / 2 == q * h + r;
    assert 2 * (q * h) == q * (2 * h);
    QuotientIs(w, 2 * h, q, 2 * r + w % 2);
  }

  lemma {:induction false} SetLowIs(w: nat, v: nat, k: nat, d: nat)
    requires d == Pow2(k)
    ensures SetLow(w, v, k) == w - w % d + v % d
    decreases k
  {
    if k > 0 {
      SetLowIs(w / 2, v / 2, k - 1, d / 2);
      LowHalf(w, d / 2);
      LowHalf(v, d / 2);
    }
  }

  lemma LowFits(w: Word, v: nat, d: nat)
    requires d == 0x1_0000 || d == 0x10_0000
    ensures w - w % d + v % d < 0x1_0000_0000
  {
    var q := w / d;
    assert w == q * d + w % d;
  }

  function SetLow16(w: Word, v: Word): Word {
    Powers();
    SetLowIs(w, v, 16, 0x1_0000);
    LowFits(w, v, 0x1_0000);
    SetLow(w, v, 16)
  }

  lemma PowerOf20()
    ensures Pow2(20) == 0x10_0000
  {
    assert Pow2(8) == 0x100;
    assert Pow2(16) == 0x1_0000;
  }

  function SetLow20(w: Word, v: Word): Word {
    PowerOf20();
    SetLowIs(w, v, 20, 0x10_0000);
    LowFits(w, v, 0x10_0000);
    SetLow(w, v, 20)
  }

  function Low20(v: Word): Word {
    v % 0x10_0000
  }

  lemma SetLow16Packs(c: Code, a: Reg, b: Reg, low: Bits16, v: Word, low': Bits16)
    requires low' == v % 0x1_0000
    ensures SetLow16(Pack(c, a, b, low), v) == Pack(c, a, b, low')
  {
    hide SetLow, Pow2;
    Powers();
    SetLowIs(Pack(c, a, b, low), v, 16, 0x1_0000);
    assert Pack(c, a, b, low) % 0x1_0000 == low;
  }

  lemma SetLow20Packs(a: Reg, low: Bits21, v: Word, low': Bits21)
    requires low < 0x10_0000 && low' == Low20(v)
    ensures SetLow20(Pack21(44, a, low), v) == Pack21(44, a, low')
  {
    hide SetLow, Pow2;
    PowerOf20();
    SetLowIs(Pack21(44, a, low), v, 20, 0x10_0000);
    assert Pack21(44, a, low) == (44 * 64 + a * 2) * 0x10_0000 + low;
  }

  /** Ops that keep their immediate in the low 16 bits. */
  predicate Imm16Low(c: nat) {
    10 <= c <= 18 || 27 <= c <= 34 || c == 42 || c == 56 || c == 57
  }

  // ---- the hi20/lo12 split ----

  /** Distance in op space from the auipc to symbol plus addend. */
  function Delta(atHi: nat, atSym: nat, addend: int): int {
    4 * atSym + addend - 4 * atHi
  }

  function Hi20(delta: int): int {
    (delta + 0x800) / 0x1000
  }

  function Lo12(delta: int): (r: int)
    ensures -0x800 <= r < 0x800
  {
    delta - Hi20(delta) * 0x1000
  }

  // ---- patching ----

  /** The fixup's three places lie within the map. */
  ghost predicate InCode(f: Fixup, m: seq<Word>) {
    f.hi / 2 < |m| && f.lo / 2 < |m| && f.sym / 2 < |m|
  }

  predicate Entries(m: seq<Word>, n: nat) {
    forall k :: 0 <= k < |m| ==> m[k] == SENTINEL || m[k] < n
  }

  /** The tool's guards: all three places mapped, an auipc at the first, and at the second an op
      that keeps its immediate in the low 16 bits, a store if one is called for. */
  predicate CanPatch(ops: seq<Word>, m: seq<Word>, f: Fixup) {
    var hi, lo, sym := MapAt(m, f.hi), MapAt(m, f.lo), MapAt(m, f.sym);
    && hi != SENTINEL && lo != SENTINEL && sym != SENTINEL
    && (f.loIsStore ==> FieldOp(WordIn(ops, lo)) == 34) && Imm16Low(FieldOp(WordIn(ops, lo))) && FieldOp(WordIn(ops, hi)) == 44
  }

  /** The two words rewritten. */
  function Patch(ops: seq<Word>, m: seq<Word>, f: Fixup): seq<Word> {
    var hi, lo, d := MapAt(m, f.hi), MapAt(m, f.lo), Delta(MapAt(m, f.hi), MapAt(m, f.sym), f.addend);
    var ops1 := Put(ops, hi, SetLow20(WordIn(ops, hi), Wrap(Hi20(d))));
    Put(ops1, lo, SetLow16(WordIn(ops1, lo), Wrap(Lo12(d))))
  }

  /** Every fixup applied in turn; None when the tool refuses one. */
  function PatchAll(ops: seq<Word>, m: seq<Word>, fx: seq<Fixup>): Option<seq<Word>>
    decreases |fx|
  {
    if fx == [] then Some(ops)
    else if !CanPatch(ops, m, fx[0]) then None
    else PatchAll(Patch(ops, m, fx[0]), m, fx[1..])
  }

  /** Replacing the bits below d leaves those from bit 26 up alone. */
  lemma LowKept(q: nat, r: nat, v: nat, d: nat)
    requires r < 0x400_0000 && (d == 0x1_0000 || d == 0x10_0000)
    ensures var w := q * 0x400_0000 + r; (w - w % d + v % d) / 0x400_0000 == q
  {
    assert r - r % d + v % d < 0x400_0000;
    assert (q * 0x400_0000 + r) % d == r % d;
  }

  /** Rewriting an immediate leaves the op's number alone. */
  lemma NumberKept(w: Word, v: Word)
    ensures FieldOp(SetLow16(w, v)) == FieldOp(w) && FieldOp(SetLow20(w, v)) == FieldOp(w)
  {
    hide ShiftRight, Pow2, SetLow;
    Powers();
    PowerOf20();
    SetLowIs(w, v, 16, 0x1_0000);
    SetLowIs(w, v, 20, 0x10_0000);
    ShiftDivides(w, 26, 0x400_0000);
    ShiftDivides(SetLow16(w, v), 26, 0x400_0000);
    ShiftDivides(SetLow20(w, v), 26, 0x400_0000);
    var q, r := w / 0x400_0000, w % 0x400_0000;
    LowKept(q, r, v, 0x1_0000);
    LowKept(q, r, v, 0x10_0000);
  }

  /** The same op numbers at every place, so the same guards hold. */
  predicate SameNumbers(ops: seq<Word>, ops': seq<Word>) {
    |ops'| == |ops| && forall k :: 0 <= k < |ops| ==> FieldOp(ops'[k]) == FieldOp(ops[k])
  }

  /** Re-encodes one pair in place, unless a guard fails. */
  method ApplyFixup(f: Fixup, map_: array<Word>, ops: array<Word>) returns (ok: bool)
    requires InCode(f, map_[..]) && Entries(map_[..], ops.Length) && ops != map_
    modifies ops
    ensures ok <==> CanPatch(old(ops[..]), map_[..], f)
    ensures ops[..] == if ok then Patch(old(ops[..]), map_[..], f) else old(ops[..])
    ensures SameNumbers(old(ops[..]), ops[..])
  {
    hide SetLow16, SetLow20, FieldOp, Hi20, Lo12, Wrap, Imm16Low;
    ghost var m := map_[..];
    assert m[f.hi / 2] == map_[f.hi / 2] && m[f.lo / 2] == map_[f.lo / 2] && m[f.sym / 2] == map_[f.sym / 2];
    var hi, lo, sym := map_[f.hi / 2], map_[f.lo / 2], map_[f.sym / 2];
    if hi == SENTINEL || lo == SENTINEL || sym == SENTINEL { return false; }
    if f.loIsStore && FieldOp(ops[lo]) != 34 { return false; }
    if !Imm16Low(FieldOp(ops[lo])) { return false; }
    if FieldOp(ops[hi]) != 44 { return false; }
    var d := Delta(hi, sym, f.addend);
    NumberKept(ops[hi], Wrap(Hi20(d)));
    ops[hi] := SetLow20(ops[hi], Wrap(Hi20(d)));
    NumberKept(ops[lo], Wrap(Lo12(d)));
    ops[lo] := SetLow16(ops[lo], Wrap(Lo12(d)));
    return true;
  }

  /** Re-encodes every pair in place. It refuses exactly when the guards of some fixup fail on the
      ops it was given: no fixup changes what another finds. */
  method ApplyFixups(fx: seq<Fixup>, map_: array<Word>, ops: array<Word>) returns (ok: bool)
    requires (forall f :: f in fx ==> InCode(f, map_[..])) && Entries(map_[..], ops.Length)
    requires ops != map_
    modifies ops
    ensures ok <==> forall f :: f in fx ==> CanPatch(old(ops[..]), map_[..], f)
    ensures ok <==> PatchAll(old(ops[..]), map_[..], fx).Some?
    ensures ok ==> PatchAll(old(ops[..]), map_[..], fx) == Some(ops[..])
  {
    hide CanPatch, Patch, InCode, FieldOp;
    ghost var m, ops0 := map_[..], ops[..];
    var k := 0;
    while k < |fx|
      invariant 0 <= k <= |fx| && map_[..] == m && SameNumbers(ops0, ops[..])
      invariant forall j :: 0 <= j < k ==> CanPatch(ops0, m, fx[j])
      invariant PatchAll(ops[..], m, fx[k..]) == PatchAll(ops0, m, fx)
    {
      assert fx[k..][0] == fx[k] && fx[k..][1..] == fx[k + 1..];
      SameGuards(ops0, ops[..], m, fx[k]);
      ok := ApplyFixup(fx[k], map_, ops);
      if !ok { return; }
      k := k + 1;
    }
    return true;
  }

  lemma SameGuards(ops: seq<Word>, ops': seq<Word>, m: seq<Word>, f: Fixup)
    requires SameNumbers(ops, ops') && InCode(f, m) && Entries(m, |ops|)
    ensures CanPatch(ops, m, f) <==> CanPatch(ops', m, f)
  {
    hide FieldOp;
  }

  // ---- op numbers tell ops apart ----

  function OpCode(op: Op): nat {
    match op
    case One(d) =>
      (match d
       case RegReg(a, _, _, _) => AluCode(a)
       case RegImm(a, _, _, _) => ImmCode(a)
       case Load(k, _, _, _) => LoadCode(k)
       case Store(k, _, _, _) => StoreCode(k)
       case Branch(c, _, _, _) => CondCode(c)
       case Jal(_, _) => 41
       case Jalr(_, _, _) => 42
       case Lui(_, _) => 43
       case Auipc(_, _) => 44
       case Memop(_, _, _, _) => 60
       case Nop => 45
       case Ecall => 46
       case Ebreak => 47
       case Illegal => 48)
    case Prologue(_, _) => 49
    case Epilogue(_, _) => 50
    case LiLo(_, _) => 51
    case LiHi(_, _) => 52
    case Shadd(_, _, _, _) => 53
    case Lwx(_, _, _, _) => 54
    case Lwlw(_, _, _, _) => 55
    case LoadBz(byte, _, _, _, _, _) => if byte then 57 else 56
    case Lwsw(_, _, _, _, _) => 58
    case Vcall(_, _, _, _) => 59
  }

  function FirstWord(op: Op, at: nat): Word {
    WordIn(Encode(op, at), 0)
  }

  lemma PlainCode(d: Insn, at: nat)
    requires !d.Nop?
    ensures FieldOp(FirstWord(One(d), at)) == OpCode(One(d))
  {
    hide Pack, Pack21, Low16, FieldOp, FieldA, FieldB, Disp;
    var w := FirstWord(One(d), at);
    match d
    case RegReg(op, rd, rs1, rs2) => PackFields(AluCode(op), rd, rs1, Low16(rs2, 0), w);
    case RegImm(op, rd, rs1, imm) => PackFields(ImmCode(op), rd, rs1, imm % 0x1_0000, w);
    case Load(k, rd, rs1, imm) => PackFields(LoadCode(k), rd, rs1, imm % 0x1_0000, w);
    case Store(k, rs2, rs1, imm) => PackFields(StoreCode(k), rs2, rs1, imm % 0x1_0000, w);
    case Branch(c, rs1, rs2, t) => PackFields(CondCode(c), rs1, rs2, Disp(at, t) % 0x1_0000, w);
    case Jal(rd, t) => Pack21Fields(41, rd, Disp(at, t) % 0x20_0000, w);
    case Jalr(rd, rs1, imm) => PackFields(42, rd, rs1, imm % 0x1_0000, w);
    case Lui(rd, uimm) => Pack21Fields(43, rd, uimm % 0x10_0000, w);
    case Auipc(rd, uimm) => Pack21Fields(44, rd, uimm % 0x10_0000, w);
    case Memop(f3, rd, rs1, rs2) => PackFields(60, rd, rs1, Low16(rs2, f3 % 8), w);
    case Ecall => PackFields(46, 0, 0, 0, w);
    case Ebreak => PackFields(47, 0, 0, 0, w);
    case Illegal => PackFields(48, 0, 0, 0, w);
  }

  lemma FusedCode(op: Op, at: nat)
    requires Packable(op) && !op.One?
    ensures FieldOp(FirstWord(op, at)) == OpCode(op)
  {
    hide Pack, Pack21, Low16, FieldOp, FieldA, FieldB, FrameWord, MaskOf, Disp;
    var w := FirstWord(op, at);
    match op
    case Prologue(mask, frame) => FrameFields(49, mask, frame, w);
    case Epilogue(mask, frame) => FrameFields(50, mask, frame, w);
    case LiLo(rd, v) => Pack21Fields(51, rd, v, w);
    case LiHi(rd, v) => Pack21Fields(52, rd, v, w);
    case Shadd(rd, rs1, rs2, sh) => PackFields(53, rd, rs1, Low16(rs2, sh * 64), w);
    case Lwx(rd, rs1, rs2, off) => PackFields(54, rd, rs1, Low16(rs2, off % 0x800), w);
    case Lwlw(rd, rs1, o1, o2) => PackFields(55, rd, rs1, o1 % 0x100 * 0x100 + o2 % 0x100, w);
    case Vcall(rd, rs1, o1, o2) => PackFields(59, rd, rs1, o1 % 0x100 * 0x100 + o2 % 0x100, w);
    case Lwsw(rd, rs1, rs2, o1, o2) => PackFields(58, rd, rs1, Low16(rs2, (o1 / 4 * 64 + o2 / 4) % 0x800), w);
    case LoadBz(byte, rd, rs1, off, t, onZero) => PackFields(if byte then 57 else 56, rd, rs1, off % 0x1_0000, w);
  }

  /** An emitted word's op number is its op's. */
  lemma EncodedCode(op: Op, at: nat)
    requires Packable(op) && WordCount(op) >= 1
    ensures FieldOp(FirstWord(op, at)) == OpCode(op)
  {
    hide FieldOp, FirstWord, OpCode;
    if op.One? {
      PlainCode(op.insn, at);
    } else {
      FusedCode(op, at);
    }
  }

  /** Only ops with a 12-bit immediate in the low 16 bits pass the tool's guard. */
  predicate HasLow(op: Op) {
    op.LoadBz? || (op.One? && (op.insn.RegImm? || op.insn.Load? || op.insn.Store? || op.insn.Jalr?))
  }

  lemma CodeTells(op: Op)
    ensures OpCode(op) == 44 ==> op.One? && op.insn.Auipc?
    ensures Imm16Low(OpCode(op)) && Packable(op) ==> HasLow(op)
  {
  }

  // ---- what each head's words are, stage by stage ----

  /** The op of unit i with its code relocation applied, if it has one. */
  function FixedOp(p: Prog, i: nat): Option<Op> {
    var op := Step(p, i).op;
    if i !in p.fix then Some(op)
    else
      match op
      case One(d) =>
        (match WithImm(d, p.fix[i])
         case Some(d') => Some(One(d'))
         case None => None)
      case LoadBz(byte, rd, rs1, _, target, onZero) => Some(LoadBz(byte, rd, rs1, p.fix[i], target, onZero))
      case _ => None
  }

  /** The op of unit i once the data references in `done` are resolved. */
  function StageOp(p: Prog, i: nat, done: set<nat>): Option<Op> {
    if i in done then FinalOp(p, i) else FixedOp(p, i)
  }

  /** The words at unit i's map entry are op's, its target resolved. */
  predicate HeadHolds(p: Prog, ops: seq<Word>, i: nat, op: Op) {
    var at := OpAt(p.plan, i);
    Packable(op) && WordCount(op) == WordsAt(p, i) && StandsAt(ops, Placed(p, op, at), at)
  }

  predicate HeadIs(p: Prog, ops: seq<Word>, i: nat, o: Option<Op>) {
    match o
    case Some(op) => HeadHolds(p, ops, i, op)
    case None => false
  }

  /** With every code fixup applied and the data references in `done` resolved: relocated
      instructions head units that emit an op, and every head's words are its op's. */
  ghost predicate Staged(p: Prog, ops: seq<Word>, done: set<nat>) {
    && Planned(p)
    && (forall i :: i in p.fix ==> i < |p.code| && Head(p.plan, i) && !D(p, i).Nop?)
    && (forall i {:trigger StageOp(p, i, done)} :: 0 <= i < |p.code| && Head(p.plan, i) ==> HeadIs(p, ops, i, StageOp(p, i, done)))
  }

  /** Resolving an op's target keeps its kind, its room and its number. */
  lemma PlacedKeeps(p: Prog, op: Op, at: nat)
    ensures WordCount(Placed(p, op, at)) == WordCount(op) && OpCode(Placed(p, op, at)) == OpCode(op)
    ensures Packable(Placed(p, op, at)) <==> Packable(op)
  {
    hide OpTarget, Wrap, Fits, Imm12;
  }

  /** A head's op is not touched by writing another head's first word. */
  lemma HeadsApart(p: Prog, i: nat, j: nat)
    requires Planned(p) && i < |p.code| && j < |p.code| && i != j && Head(p.plan, i) && Head(p.plan, j) && WordsAt(p, i) >= 1
    ensures !(OpAt(p.plan, j) <= OpAt(p.plan, i) < OpAt(p.plan, j) + WordsAt(p, j))
  {
    hide Step;
    if i < j {
      UnitEndsBefore(p, i, j);
    } else {
      UnitEndsBefore(p, j, i);
    }
    PlacedKeeps(p, Step(p, i).op, OpAt(p.plan, i));
    PlacedKeeps(p, Step(p, j).op, OpAt(p.plan, j));
  }

  lemma HoldsAside(p: Prog, ops: seq<Word>, at: nat, w: Word, j: nat, op: Op)
    requires HeadHolds(p, ops, j, op) && !(OpAt(p.plan, j) <= at < OpAt(p.plan, j) + WordsAt(p, j))
    ensures HeadHolds(p, Put(ops, at, w), j, op)
  {
    hide Step, Encode, Placed;
    var from, n := OpAt(p.plan, j), WordCount(op);
    PlacedKeeps(p, op, from);
    assert Put(ops, at, w)[from..from + n] == ops[from..from + n];
  }

  /** The same code, targets and layout. */
  predicate Alike(p: Prog, q: Prog) {
    p.code == q.code && p.hot == q.hot && p.plan == q.plan
  }

  lemma AlikeUnits(p: Prog, q: Prog, ops: seq<Word>, i: nat, op: Op)
    requires Alike(p, q)
    ensures Step(p, i) == Step(q, i) && (HeadHolds(p, ops, i, op) <==> HeadHolds(q, ops, i, op))
  {
    hide Step, StandsAt;
    StepShared(p, q, i);
    assert forall at :: Placed(p, op, at) == Placed(q, op, at);
  }

  lemma AlikePlanned(p: Prog, q: Prog)
    requires Alike(p, q) && Planned(p)
    ensures Planned(q)
  {
    hide Step;
    forall j | 0 <= j < |q.code|
      ensures q.plan.width[j] == Step(q, j).width && q.plan.words[j] == WordCount(Step(q, j).op)
    {
      StepShared(p, q, j);
    }
  }

  lemma StandsCode(p: Prog, ops: seq<Word>, i: nat, op: Op)
    requires HeadHolds(p, ops, i, op) && WordCount(op) >= 1
    ensures OpAt(p.plan, i) < |ops| && FieldOp(WordIn(ops, OpAt(p.plan, i))) == OpCode(op)
  {
    hide Step, Encode, FieldOp, Placed, OpCode, Packable;
    var at := OpAt(p.plan, i);
    PlacedKeeps(p, op, at);
    EncodedCode(Placed(p, op, at), at);
    assert ops[at..at + WordCount(op)][0] == ops[at];
  }

  /** A head's current word carries its current op's number. */
  lemma HeadCode(p: Prog, ops: seq<Word>, done: set<nat>, i: nat) returns (op: Op)
    requires Staged(p, ops, done) && i < |p.code| && Head(p.plan, i) && !D(p, i).Nop?
    ensures StageOp(p, i, done) == Some(op) && HeadHolds(p, ops, i, op) && WordCount(op) >= 1
    ensures OpAt(p.plan, i) < |ops| && FieldOp(WordIn(ops, OpAt(p.plan, i))) == OpCode(op)
  {
    hide Step, Encode, FieldOp, StageOp, Placed, OpCode, Packable;
    NopAlone(p, i);
    op := StageOp(p, i, done).value;
    StandsCode(p, ops, i, op);
  }

  /** Writing one head's first word for its new stage. */
  lemma Rewritten(p: Prog, q: Prog, ops: seq<Word>, i: nat, w: Word, done: set<nat>, done': set<nat>)
    requires Staged(p, ops, done) && Alike(p, q) && i < |p.code| && Head(p.plan, i) && !D(p, i).Nop?
    requires forall j :: j in q.fix ==> j in p.fix || j == i
    requires forall j: nat :: j != i ==> StageOp(q, j, done') == StageOp(p, j, done)
    requires HeadIs(q, Put(ops, OpAt(p.plan, i), w), i, StageOp(q, i, done'))
    ensures Staged(q, Put(ops, OpAt(p.plan, i), w), done')
  {
    hide Step, HeadHolds, StageOp, Put, Planned;
    AlikePlanned(p, q);
    NopAlone(p, i);
    forall j | 0 <= j < |q.code| && Head(q.plan, j)
      ensures HeadIs(q, Put(ops, OpAt(p.plan, i), w), j, StageOp(q, j, done'))
    {
      if j != i {
        assert StageOp(q, j, done') == StageOp(p, j, done);
        var op := StageOp(p, j, done).value;
        HeadsApart(p, i, j);
        HoldsAside(p, ops, OpAt(p.plan, i), w, j, op);
        AlikeUnits(p, q, Put(ops, OpAt(p.plan, i), w), j, op);
      }
    }
  }

  // ---- code fixups ----

  /** Instruction i relocated to immediate v. */
  function Relocated(p: Prog, i: nat, v: Word): Prog {
    p.(fix := p.fix[i := v])
  }

  lemma RelocatedStage(p: Prog, i: nat, v: Word, j: nat)
    ensures Step(Relocated(p, i, v), j) == Step(p, j)
    ensures j != i ==> StageOp(Relocated(p, i, v), j, {}) == StageOp(p, j, {})
  {
    hide Step;
    StepShared(p, Relocated(p, i, v), j);
  }

  /** One head's word rewritten for a new immediate. */
  lemma PatchHead(p: Prog, ops: seq<Word>, i: nat, v: Word, w: Word)
    requires Staged(p, ops, {}) && i < |p.code| && Head(p.plan, i) && !D(p, i).Nop?
    requires HeadIs(p, Put(ops, OpAt(p.plan, i), w), i, FixedOp(Relocated(p, i, v), i))
    ensures Staged(Relocated(p, i, v), Put(ops, OpAt(p.plan, i), w), {})
  {
    hide Step, HeadHolds, Put, Staged, FixedOp;
    var q := Relocated(p, i, v);
    forall j: nat
      ensures j != i ==> StageOp(q, j, {}) == StageOp(p, j, {})
    {
      RelocatedStage(p, i, v, j);
    }
    AlikeUnits(p, q, Put(ops, OpAt(p.plan, i), w), i, FixedOp(q, i).value);
    Rewritten(p, q, ops, i, w, {}, {});
  }

  /** The low 20 bits of a standing auipc rewritten. */
  lemma UpperStands(ops: seq<Word>, rd: Reg, u: Word, at: nat, v: Word, u': Word)
    requires StandsAt(ops, One(Auipc(rd, u)), at) && u' == Low20(v)
    ensures StandsAt(Put(ops, at, SetLow20(WordIn(ops, at), v)), One(Auipc(rd, u')), at)
  {
    hide SetLow20, Pack21;
    assert ops[at..at + 1] == [ops[at]];
    SetLow20Packs(rd, u % 0x10_0000, v, u');
    var ops' := Put(ops, at, SetLow20(ops[at], v));
    assert ops'[at..at + 1] == [ops'[at]];
  }

  lemma PatchHi(p: Prog, ops: seq<Word>, i: nat, v: Word, u: Word)
    requires Staged(p, ops, {}) && i < |p.code| && Head(p.plan, i) && !D(p, i).Nop? && u == Low20(v)
    requires FieldOp(WordIn(ops, OpAt(p.plan, i))) == 44
    ensures Staged(Relocated(p, i, u), Put(ops, OpAt(p.plan, i), SetLow20(WordIn(ops, OpAt(p.plan, i)), v)), {})
  {
    hide Step, FieldOp, SetLow20, Put, StandsAt, Staged, WordIn;
    var op := HeadCode(p, ops, {}, i);
    CodeTells(op);
    UpperStands(ops, op.insn.rd, op.insn.uimm, OpAt(p.plan, i), v, u);
    RelocatedStage(p, i, u, i);
    PatchHead(p, ops, i, u, SetLow20(WordIn(ops, OpAt(p.plan, i)), v));
  }

  predicate IsShift(d: Insn) {
    d.RegImm? && d.op in {Sll, Srl, Sra}
  }

  /** An op whose low immediate is no shift amount. */
  predicate LowFree(op: Op) {
    HasLow(op) && (op.One? ==> !IsShift(op.insn))
  }

  /** An op with a low-16 immediate, that immediate replaced. */
  function WithLow(op: Op, v: Word): Op {
    match op
    case One(d) => (match WithImm(d, v) case Some(d') => One(d') case None => op)
    case LoadBz(byte, rd, rs1, _, target, onZero) => LoadBz(byte, rd, rs1, v, target, onZero)
    case _ => op
  }

  lemma LowWord(op: Op, at: nat, v: Word)
    requires LowFree(op)
    ensures FirstWord(WithLow(op, v), at) == SetLow16(FirstWord(op, at), v)
    ensures op.LoadBz? ==> WordIn(Encode(WithLow(op, v), at), 1) == WordIn(Encode(op, at), 1)
  {
    hide Pack, SetLow16, Disp;
    match op
    case LoadBz(byte, rd, rs1, off, _, _) => SetLow16Packs(if byte then 57 else 56, rd, rs1, off % 0x1_0000, v, v % 0x1_0000);
    case One(RegImm(a, rd, rs1, imm)) => SetLow16Packs(ImmCode(a), rd, rs1, imm % 0x1_0000, v, v % 0x1_0000);
    case One(Load(k, rd, rs1, imm)) => SetLow16Packs(LoadCode(k), rd, rs1, imm % 0x1_0000, v, v % 0x1_0000);
    case One(Store(k, rs2, rs1, imm)) => SetLow16Packs(StoreCode(k), rs2, rs1, imm % 0x1_0000, v, v % 0x1_0000);
    case One(Jalr(rd, rs1, imm)) => SetLow16Packs(42, rd, rs1, imm % 0x1_0000, v, v % 0x1_0000);
  }

  /** The low 16 bits of a standing op rewritten. */
  lemma LowStands(ops: seq<Word>, op: Op, at: nat, v: Word)
    requires StandsAt(ops, op, at) && LowFree(op)
    ensures StandsAt(Put(ops, at, SetLow16(WordIn(ops, at), v)), WithLow(op, v), at)
  {
    hide SetLow16, Encode;
    LowWord(op, at, v);
    var n, ops' := WordCount(op), Put(ops, at, SetLow16(WordIn(ops, at), v));
    var ws, ws' := ops[at..at + n], ops'[at..at + n];
    assert n >= 1 && WordCount(WithLow(op, v)) == n && (n == 2 <==> op.LoadBz?);
    assert ws'[0] == SetLow16(ws[0], v) && (n == 2 ==> ws'[1] == ws[1]);
    assert ws' == Encode(WithLow(op, v), at);
  }

  /** Rewriting the low immediate commutes with resolving the target. */
  lemma LowPlaced(p: Prog, op: Op, v: Word, at: nat)
    requires LowFree(op) && Packable(op) && Imm12(v)
    ensures Placed(p, WithLow(op, v), at) == WithLow(Placed(p, op, at), v) && LowFree(Placed(p, op, at))
    ensures Packable(WithLow(op, v)) && WordCount(WithLow(op, v)) == WordCount(op)
  {
  }

  lemma FixedLow(p: Prog, i: nat, op: Op, v: Word)
    requires FixedOp(p, i) == Some(op) && HasLow(op) && !IsShift(D(p, i))
    ensures FixedOp(Relocated(p, i, v), i) == Some(WithLow(op, v)) && LowFree(op)
  {
    hide SaveCount, RestoreCount, FrameMask, Run, Hot, Signed;
    StepShared(p, Relocated(p, i, v), i);
  }

  lemma PatchLo(p: Prog, ops: seq<Word>, i: nat, v: Word)
    requires Staged(p, ops, {}) && i < |p.code| && Head(p.plan, i) && !D(p, i).Nop? && !IsShift(D(p, i)) && Imm12(v)
    requires Imm16Low(FieldOp(WordIn(ops, OpAt(p.plan, i))))
    ensures Staged(Relocated(p, i, v), Put(ops, OpAt(p.plan, i), SetLow16(WordIn(ops, OpAt(p.plan, i)), v)), {})
  {
    hide FieldOp, SetLow16, Put, Placed, WithLow, StandsAt, Staged, WordIn, OpCode, Step, FixedOp, LowFree, Packable, Imm16Low;
    var op := HeadCode(p, ops, {}, i);
    var at := OpAt(p.plan, i);
    CodeTells(op);
    FixedLow(p, i, op, v);
    LowPlaced(p, op, v, at);
    LowStands(ops, Placed(p, op, at), at, v);
    PatchHead(p, ops, i, v, SetLow16(WordIn(ops, at), v));
  }

  /** A fixup's two sites are instructions that emit an op, and its lo12 user takes a 12-bit immediate. */
  predicate Sited(code: seq<Insn>, f: Fixup) {
    && f.hi % 4 == 0 && f.hi / 4 < |code| && f.lo / 4 < |code| && f.sym / 4 < |code|
    && !Fold(code[f.hi / 4]).Nop? && !Fold(code[f.lo / 4]).Nop? && !IsShift(code[f.lo / 4])
  }

  function FixDelta(p: Prog, f: Fixup): int {
    Delta(OpAt(p.plan, f.hi / 4), OpAt(p.plan, f.sym / 4), f.addend)
  }

  function HiImm(p: Prog, f: Fixup): Word {
    Low20(Wrap(Hi20(FixDelta(p, f))))
  }

  function LoImm(p: Prog, f: Fixup): Word {
    Wrap(Lo12(FixDelta(p, f)))
  }

  /** The program with one fixup's two immediates rewritten. */
  function WithFix(p: Prog, f: Fixup): Prog {
    Relocated(Relocated(p, f.hi / 4, HiImm(p, f)), f.lo / 4, LoImm(p, f))
  }

  function WithFixes(p: Prog, fx: seq<Fixup>): (q: Prog)
    ensures Alike(p, q)
    decreases |fx|
  {
    if fx == [] then p else WithFixes(WithFix(p, fx[0]), fx[1..])
  }

  /** m is p's map, and its entries lie within the op words. */
  ghost predicate MapFits(p: Prog, m: seq<Word>, ops: seq<Word>) {
    |p.code| < 0xffff_ffff && MapOf(m, p.plan) && Entries(m, |ops|)
  }

  lemma MapHead(m: seq<Word>, pl: Plan, a: Word)
    requires MapOf(m, pl) && MapAt(m, a) != SENTINEL
    ensures InsnOf(a) < |pl.width| && Head(pl, InsnOf(a)) && MapAt(m, a) == OpAt(pl, InsnOf(a))
  {
    assert a / 2 / 2 == a / 4;
    assert m[a / 2] == MapEntry(pl, a / 2);
  }

  lemma Lo12Imm(d: int)
    ensures Imm12(Wrap(Lo12(d)))
  {
    WrapNear(Lo12(d));
  }

  /** The map has an entry for byte address a. */
  ghost predicate HasEntry(p: Prog, a: Word) {
    a % 4 < 2 && a / 4 < |p.plan.width| && Head(p.plan, a / 4)
  }

  /** Where the map has an entry for an address. */
  lemma EntryIs(p: Prog, m: seq<Word>, ops: seq<Word>, a: Word)
    requires Planned(p) && MapFits(p, m, ops) && InsnOf(a) < |p.code|
    ensures MapAt(m, a) != SENTINEL <==> HasEntry(p, a)
    ensures HasEntry(p, a) ==> MapAt(m, a) == OpAt(p.plan, InsnOf(a))
  {
    hide Step;
    assert a / 2 / 2 == a / 4;
    assert m[a / 2] == MapEntry(p.plan, a / 2);
    if HasEntry(p, a) { OpAtBound(p.plan, a / 4); }
  }

  /** The two words of a fixup, one after the other. */
  lemma PatchBoth(p: Prog, ops: seq<Word>, m: seq<Word>, f: Fixup)
    requires Staged(p, ops, {}) && Sited(p.code, f) && CanPatch(ops, m, f)
    requires MapAt(m, f.hi) == OpAt(p.plan, InsnOf(f.hi)) && MapAt(m, f.lo) == OpAt(p.plan, InsnOf(f.lo))
    requires MapAt(m, f.sym) == OpAt(p.plan, InsnOf(f.sym)) && Head(p.plan, InsnOf(f.hi)) && Head(p.plan, InsnOf(f.lo))
    ensures Staged(WithFix(p, f), Patch(ops, m, f), {})
  {
    hide FieldOp, SetLow16, SetLow20, Hi20, Lo12, Imm12, Wrap, MapAt, Staged, Delta;
    var d := FixDelta(p, f);
    PatchHi(p, ops, InsnOf(f.hi), Wrap(Hi20(d)), HiImm(p, f));
    var ops1 := Put(ops, MapAt(m, f.hi), SetLow20(WordIn(ops, MapAt(m, f.hi)), Wrap(Hi20(d))));
    assert MapAt(m, f.hi) != MapAt(m, f.lo);
    Lo12Imm(d);
    PatchLo(Relocated(p, InsnOf(f.hi), HiImm(p, f)), ops1, InsnOf(f.lo), LoImm(p, f));
  }

  lemma PatchIs(p: Prog, ops: seq<Word>, m: seq<Word>, f: Fixup)
    requires Staged(p, ops, {}) && MapFits(p, m, ops) && Sited(p.code, f) && CanPatch(ops, m, f)
    ensures Staged(WithFix(p, f), Patch(ops, m, f), {}) && MapFits(WithFix(p, f), m, Patch(ops, m, f))
  {
    hide FieldOp, SetLow16, SetLow20, Fold, Hi20, Lo12, Imm12, Wrap, Imm16Low, MapOf, Entries, MapAt;
    MapHead(m, p.plan, f.hi);
    MapHead(m, p.plan, f.lo);
    MapHead(m, p.plan, f.sym);
    assert |p.plan.width| == |p.code|;
    PatchBoth(p, ops, m, f);
  }

  lemma FixAlike(p: Prog, f: Fixup)
    ensures Alike(p, WithFix(p, f)) && WithFix(p, f).code == p.code
  {
  }

  /** When the tool accepts every fixup, each head's word is its op with the relocation applied. */
  lemma {:induction false} PatchAllIs(p: Prog, ops: seq<Word>, m: seq<Word>, fx: seq<Fixup>, ops': seq<Word>)
    requires Staged(p, ops, {}) && MapFits(p, m, ops) && PatchAll(ops, m, fx) == Some(ops')
    requires forall f :: f in fx ==> Sited(p.code, f)
    ensures Staged(WithFixes(p, fx), ops', {})
    decreases |fx|
  {
    hide Staged, MapFits, Patch, CanPatch, Sited, WithFix, Alike;
    if fx != [] {
      PatchIs(p, ops, m, fx[0]);
      FixAlike(p, fx[0]);
      PatchAllIs(WithFix(p, fx[0]), Patch(ops, m, fx[0]), m, fx[1..], ops');
    }
  }

  // ---- data auipcs ----

  /** A pc-relative reference: the auipc's offset and the symbol it forms the address of. */
  datatype DataRef = DataRef(off: Word, sym: Word)

  function LiWord(op: Op): Word {
    match op
    case LiLo(rd, v) => Pack21(51, rd, v % 0x20_0000)
    case LiHi(rd, v) => Pack21(52, rd, v % 0x20_0000)
    case _ => 0
  }

  /** The constant an auipc word at byte `off` forms. */
  function ConstantAt(w: Word, off: Word): Option<Op> {
    ConstantOp(FieldA(w), Wrap(off + FieldUimm(w) * 0x1000))
  }

  function ResolveOne(ops: seq<Word>, m: seq<Word>, len: int, r: DataRef): Option<seq<Word>> {
    var at := MapAt(m, r.off);
    if r.sym < len || at == SENTINEL || FieldOp(WordIn(ops, at)) != 44 then Some(ops)
    else
      match ConstantAt(WordIn(ops, at), r.off)
      case None => None
      case Some(op) => Some(Put(ops, at, LiWord(op)))
  }

  function ResolveAll(ops: seq<Word>, m: seq<Word>, len: int, refs: seq<DataRef>): Option<seq<Word>>
    decreases |refs|
  {
    if refs == [] then Some(ops)
    else
      match ResolveOne(ops, m, len, refs[0])
      case None => None
      case Some(ops1) => ResolveAll(ops1, m, len, refs[1..])
  }

  /** Rewrites in place every auipc of a data symbol that pass 2 left as one. */
  method ResolveDataAuipc(refs: seq<DataRef>, len: nat, map_: array<Word>, ops: array<Word>) returns (ok: bool)
    requires (forall r :: r in refs ==> r.off / 2 < map_.Length) && Entries(map_[..], ops.Length)
    requires ops != map_
    modifies ops
    ensures ok <==> ResolveAll(old(ops[..]), map_[..], len, refs).Some?
    ensures ok ==> ResolveAll(old(ops[..]), map_[..], len, refs) == Some(ops[..])
  {
    ghost var m := map_[..];
    var k := 0;
    while k < |refs|
      invariant 0 <= k <= |refs| && map_[..] == m
      invariant ResolveAll(ops[..], m, len, refs[k..]) == ResolveAll(old(ops[..]), m, len, refs)
    {
      hide FieldOp, FieldA, FieldUimm, ConstantOp, LiWord, Wrap;
      var r := refs[k];
      assert refs[k..][0] == r && refs[k..][1..] == refs[k + 1..];
      assert m[r.off / 2] == map_[r.off / 2];
      ghost var before := ops[..];
      var at := map_[r.off / 2];
      if r.sym >= len && at != SENTINEL && FieldOp(ops[at]) == 44 {
        var op := ConstantOp(FieldA(ops[at]), Wrap(r.off + FieldUimm(ops[at]) * 0x1000));
        if op.None? { return false; }
        ops[at] := LiWord(op.value);
      }
      assert ResolveOne(before, m, len, r) == Some(ops[..]);
      k := k + 1;
    }
    return true;
  }

  /** A data reference's site: an instruction that emits an op and has no code fixup. */
  predicate DataSited(p: Prog, r: DataRef) {
    r.off % 4 == 0 && r.off / 4 < |p.code| && !D(p, r.off / 4).Nop? && r.off / 4 !in p.fix
  }

  /** What the reference asks for: a data symbol's auipc that heads a unit. */
  ghost predicate Asks(p: Prog, r: DataRef) {
    r.sym >= 4 * |p.code| && Head(p.plan, r.off / 4)
  }

  /** A load-immediate stands alone in its word. */
  lemma ConstantStands(p: Prog, ops: seq<Word>, at: nat, rd: Reg, v: Word, op: Op)
    requires ConstantOp(rd, v) == Some(op) && at < |ops|
    ensures OpCode(op) != 44 && Packable(op) && WordCount(op) == 1 && StandsAt(Put(ops, at, LiWord(op)), Placed(p, op, at), at)
  {
    hide Pack21, Signed, Wrap;
    var ops' := Put(ops, at, LiWord(op));
    assert ops'[at..at + 1] == [LiWord(op)];
  }

  /** The fields of a standing auipc. */
  lemma UpperFields(ops: seq<Word>, rd: Reg, u: Word, at: nat)
    requires StandsAt(ops, One(Auipc(rd, u)), at) && u < 0x10_0000
    ensures FieldA(WordIn(ops, at)) == rd && FieldUimm(WordIn(ops, at)) == u
  {
    hide Pack21, FieldOp, FieldA;
    assert ops[at..at + 1] == [ops[at]];
    Pack21Fields(44, rd, u, ops[at]);
  }

  /** A unit that is no longer an auipc needs no resolving. */
  lemma NotAuipc(p: Prog, done: set<nat>, i: nat, op: Op)
    requires StageOp(p, i, done) == Some(op) && OpCode(op) != 44
    ensures FinalOp(p, i) == Some(op)
  {
    hide Step;
  }

  /** The constant an auipc at i forms. */
  function ConstantOf(i: nat, op: Op): Option<Op> {
    match op
    case One(Auipc(rd, u)) => DataConstant(i, rd, u)
    case _ => None
  }

  /** An auipc still standing is unresolved: its final op is its constant. */
  lemma BareAuipc(p: Prog, done: set<nat>, i: nat, op: Op)
    requires StageOp(p, i, done) == Some(op) && OpCode(op) == 44 && i !in p.fix
    ensures FinalOp(p, i) == ConstantOf(i, op)
  {
    hide Step, Signed, Wrap;
    CodeTells(op);
  }

  /** One head's word written over with its final op, or its final op already standing. */
  lemma ResolveHead(p: Prog, ops: seq<Word>, done: set<nat>, i: nat, w: Word)
    requires Staged(p, ops, done) && i < |p.code| && Head(p.plan, i) && !D(p, i).Nop?
    requires HeadIs(p, Put(ops, OpAt(p.plan, i), w), i, FinalOp(p, i))
    ensures Staged(p, Put(ops, OpAt(p.plan, i), w), done + {i})
  {
    hide Step, HeadHolds, FinalOp, FixedOp, Staged, Put;
    Rewritten(p, p, ops, i, w, done, done + {i});
  }

  /** What resolving finds at the reference's unit. */
  ghost function Found(p: Prog, ops: seq<Word>, r: DataRef): Option<Op> {
    var w := WordIn(ops, OpAt(p.plan, InsnOf(r.off)));
    if FieldOp(w) == 44 then ConstantAt(w, r.off) else FinalOp(p, InsnOf(r.off))
  }

  lemma FoundIsFinal(p: Prog, ops: seq<Word>, done: set<nat>, r: DataRef)
    requires Staged(p, ops, done) && DataSited(p, r) && Asks(p, r)
    ensures Found(p, ops, r) == FinalOp(p, InsnOf(r.off)) && OpAt(p.plan, InsnOf(r.off)) < |ops|
    ensures FieldOp(WordIn(ops, OpAt(p.plan, InsnOf(r.off)))) != 44 ==> HeadIs(p, ops, InsnOf(r.off), FinalOp(p, InsnOf(r.off)))
  {
    hide Step, FieldOp, FieldA, FieldUimm, ConstantOp, Staged, StageOp, StandsAt, WordIn, FinalOp, OpCode;
    var i := InsnOf(r.off);
    var op := HeadCode(p, ops, done, i);
    if OpCode(op) != 44 {
      NotAuipc(p, done, i, op);
    } else {
      BareAuipc(p, done, i, op);
      CodeTells(op);
      UpperFields(ops, op.insn.rd, op.insn.uimm, OpAt(p.plan, i));
    }
  }

  /** The heads resolved once r is. */
  ghost function DoneWith(p: Prog, done: set<nat>, r: DataRef): set<nat> {
    if Asks(p, r) then done + {InsnOf(r.off)} else done
  }

  lemma ConstantHolds(p: Prog, ops: seq<Word>, i: nat, w: Word, off: Word, op: Op)
    requires i < |p.code| && !D(p, i).Nop? && OpAt(p.plan, i) < |ops| && i !in p.fix
    requires FinalOp(p, i) == ConstantAt(w, off) == Some(op)
    ensures HeadIs(p, Put(ops, OpAt(p.plan, i), LiWord(op)), i, Some(op))
  {
    hide Step, FieldA, FieldUimm, ConstantOp, StandsAt, Wrap;
    ConstantStands(p, ops, OpAt(p.plan, i), FieldA(w), Wrap(off + FieldUimm(w) * 0x1000), op);
    NopAlone(p, i);
  }

  lemma ResolveOneIs(p: Prog, ops: seq<Word>, done: set<nat>, m: seq<Word>, r: DataRef, ops': seq<Word>)
    requires Staged(p, ops, done) && MapFits(p, m, ops) && DataSited(p, r) && ResolveOne(ops, m, 4 * |p.code|, r) == Some(ops')
    ensures Staged(p, ops', DoneWith(p, done, r)) && MapFits(p, m, ops')
  {
    hide FieldOp, ConstantAt, LiWord, Encode, HeadHolds, StageOp, FinalOp, StandsAt, MapOf, Entries;
    var i := InsnOf(r.off);
    EntryIs(p, m, ops, r.off);
    if Asks(p, r) {
      FoundIsFinal(p, ops, done, r);
      var at := OpAt(p.plan, i);
      if FieldOp(WordIn(ops, at)) == 44 {
        ConstantHolds(p, ops, i, WordIn(ops, at), r.off, ConstantAt(WordIn(ops, at), r.off).value);
        ResolveHead(p, ops, done, i, LiWord(ConstantAt(WordIn(ops, at), r.off).value));
      } else {
        assert Put(ops, at, WordIn(ops, at)) == ops;
        ResolveHead(p, ops, done, i, WordIn(ops, at));
      }
    }
  }

  /** The heads whose data reference is resolved by the list. */
  ghost function DoneAll(p: Prog, done: set<nat>, refs: seq<DataRef>): set<nat>
    decreases |refs|
  {
    if refs == [] then done else DoneAll(p, DoneWith(p, done, refs[0]), refs[1..])
  }

  lemma {:induction false} ResolveAllIs(p: Prog, ops: seq<Word>, done: set<nat>, m: seq<Word>, refs: seq<DataRef>, ops': seq<Word>)
    requires Staged(p, ops, done) && MapFits(p, m, ops) && ResolveAll(ops, m, 4 * |p.code|, refs) == Some(ops')
    requires forall r :: r in refs ==> DataSited(p, r)
    ensures Staged(p, ops', DoneAll(p, done, refs))
    decreases |refs|
  {
    hide Staged, ResolveOne, DataSited, MapFits, DoneWith;
    if refs != [] {
      var ops1 := ResolveOne(ops, m, 4 * |p.code|, refs[0]).value;
      ResolveOneIs(p, ops, done, m, refs[0], ops1);
      ResolveAllIs(p, ops1, DoneWith(p, done, refs[0]), m, refs[1..], ops');
    }
  }
}
