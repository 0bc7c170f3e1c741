/** The record stream: heads and trailing immediates in one slot buffer, and the walk that
    recovers a pc from a record count. */
module PurvsSlots {
  import opened Words
  import opened Isa
  import opened Machines
  import opened Rv32c
  import opened PurvMachine
  import opened PurvsTrace

  // ---- which ops carry an immediate slot ----

  /** n ones starting at bit s: ((1 << n) - 1) << s. */
  function Ones(n: nat, s: nat): nat
    decreases s, n
  {
    if s > 0 then 2 * Ones(n, s - 1) else if n > 0 then 1 + 2 * Ones(n - 1, 0) else 0
  }

  lemma {:induction false} OnesBit(n: nat, s: nat, k: nat)
    ensures BitAt(Ones(n, s), k) <==> s <= k < s + n
    decreases s, n
  {
    if s > 0 {
      if k > 0 { OnesBit(n, s - 1, k - 1); }
    } else if n > 0 {
      if k > 0 { OnesBit(n - 1, 0, k - 1); }
    } else {
      ZeroBit(k);
    }
  }

  lemma {:induction false} ZeroBit(k: nat)
    ensures !BitAt(0, k)
  {
    if k > 0 { ZeroBit(k - 1); }
  }

  /** The bit-per-op stride mask. */
  function ImmMask(): nat {
    Bitwise(BitOr, 64, Bitwise(BitOr, 64, Ones(9, 10), Ones(17, 27)), Ones(3, 45))
  }

  predicate HasImm(op: nat) {
    BitAt(ImmMask(), op)
  }

  /** The mask names exactly the reg-imm forms, loads to upper immediates, and the traps. */
  lemma ImmMaskExact(op: OpNo)
    ensures HasImm(op) <==> 10 <= op <= 18 || 27 <= op <= 43 || 45 <= op <= 47
  {
    BitwiseAt(BitOr, 64, Bitwise(BitOr, 64, Ones(9, 10), Ones(17, 27)), Ones(3, 45), op);
    BitwiseAt(BitOr, 64, Ones(9, 10), Ones(17, 27), op);
    OnesBit(9, 10, op);
    OnesBit(17, 27, op);
    OnesBit(3, 45, op);
  }

  // ---- the slot stream ----

  datatype Slot = Head(op: OpNo, rd: Reg, rs1: Reg, rs2: Reg) | Imm(v: Word)

  function SlotsOf1(r: Rec): seq<Slot> {
    [Head(r.op, r.rd, r.rs1, r.rs2)] + if HasImm(r.op) then [Imm(r.imm)] else []
  }

  function SlotsOf(recs: seq<Rec>): (s: seq<Slot>)
    ensures |recs| <= |s| <= 2 * |recs|
  {
    if recs == [] then [] else SlotsOf1(recs[0]) + SlotsOf(recs[1..])
  }

  /** A run's stream ends in the sentinel. */
  function Stream(recs: seq<Rec>): seq<Slot> {
    SlotsOf(recs) + [Head(OP_END, 0, 0, 0)]
  }

  /** A block never overflows: at most 64 records fill at most 128 of the 129 slots before END. */
  lemma BlockFits(code: seq<Byte>, pc: Word, max: nat)
    ensures var t := TraceFrom(code, pc, Limit(max)); |t.recs| <= BLOCK_MAX && |Stream(t.recs)| <= 2 * BLOCK_MAX + 1
  {
    hide TraceFrom, SlotsOf;
  }

  /** Whether an op's handler reads the slot after its head. */
  predicate Consumes(op: nat) {
    10 <= op <= 18 || 27 <= op <= 43
  }

  /** What the handler of a head at d computes from the slots it reads. */
  function RecAt(s: seq<Slot>, d: nat): Option<Rec>
    requires d < |s|
  {
    match s[d]
    case Imm(_) => None
    case Head(op, rd, rs1, rs2) =>
      if !Consumes(op) then Some(Rec(op, rd, rs1, rs2, 0))
      else if d + 1 < |s| && s[d + 1].Imm? then Some(Rec(op, rd, rs1, rs2, s[d + 1].v))
      else None
  }

  /** The threaded walk: from head to head until the sentinel or a trap. None when the cursor
      misses a head. The first component is the evaluator's result. */
  function Thread<H>(env: Env<H>, s: seq<Slot>, d: nat, pc: Word, m: Machine<H>): Option<(nat, Word, Machine<H>)>
    decreases |s| - d
  {
    if d >= |s| then None
    else
      match RecAt(s, d)
      case None => None
      case Some(r) =>
        if r.op == OP_END then Some((d, pc, m))
        else if Traps(r.op) then Some((d + 1, pc, m))
        else
          var (pc', m') := Handle(env, r, pc, m);
          Thread(env, s, d + (if Consumes(r.op) then 2 else 1), pc', m')
  }

  predicate NoEnd(recs: seq<Rec>) {
    forall k :: 0 <= k < |recs| ==> recs[k].op != OP_END
  }

  /** Only a last record may transfer control or trap. */
  predicate Straight(recs: seq<Rec>) {
    forall k :: 0 <= k < |recs| - 1 ==> !Terminator(recs[k].op)
  }

  /** A record's immediate field only matters when its op carries an immediate slot. */
  lemma ImmUnused<H>(env: Env<H>, r: Rec, pc: Word, m: Machine<H>)
    requires !Consumes(r.op)
    ensures Handle(env, r.(imm := 0), pc, m) == Handle(env, r, pc, m)
  {
    hide Alu, Wrap, DoLoad, DoStore;
  }

  lemma HeadReads(r: Rec, rest: seq<Slot>, before: seq<Slot>)
    requires r.op != OP_END
    ensures var s := before + (SlotsOf1(r) + rest);
            RecAt(s, |before|) == Some(if Consumes(r.op) then r else r.(imm := 0))
  {
    hide HasImm;
    ImmMaskExact(r.op);
    var s := before + (SlotsOf1(r) + rest);
    assert s[|before|] == Head(r.op, r.rd, r.rs1, r.rs2);
    if Consumes(r.op) {
      assert s[|before| + 1] == Imm(r.imm);
    }
  }

  /** The evaluator visits exactly the heads in order, does what the records say, and returns at
      least the record count. */
  lemma {:induction false} ThreadVisits<H>(env: Env<H>, before: seq<Slot>, recs: seq<Rec>, after: seq<Slot>, pc: Word, m: Machine<H>)
    requires NoEnd(recs) && Straight(recs)
    ensures var s := before + (Stream(recs) + after);
            var r := Thread(env, s, |before|, pc, m);
            r.Some? && r.value.0 >= |before| + |recs| && (r.value.1, r.value.2) == EvalAll(env, recs, pc, m)
    decreases |recs|
  {
    hide HasImm, Handle, SlotsOf1;
    var s := before + (Stream(recs) + after);
    if recs == [] {
      assert s[|before|] == Head(OP_END, 0, 0, 0);
    } else {
      var r, rest := recs[0], recs[1..];
      assert SlotsOf1(r) + SlotsOf(rest) + [Head(OP_END, 0, 0, 0)] + after == SlotsOf1(r) + (Stream(rest) + after);
      HeadReads(r, Stream(rest) + after, before);
      if !Traps(r.op) {
        if !Consumes(r.op) { ImmUnused(env, r, pc, m); }
        var (pc', m') := Handle(env, r, pc, m);
        StrideMatches(r);
        assert before + SlotsOf1(r) + (Stream(rest) + after) == before + (SlotsOf1(r) + (Stream(rest) + after));
        assert forall k :: 0 <= k < |rest| ==> rest[k] == recs[k + 1];
        ThreadVisits(env, before + SlotsOf1(r), rest, after, pc', m');
      }
    }
  }

  /** The decoder's stride is what the handler consumes. */
  lemma StrideMatches(r: Rec)
    requires !Traps(r.op) && r.op != OP_END
    ensures |SlotsOf1(r)| == if Consumes(r.op) then 2 else 1
  {
    hide HasImm;
    ImmMaskExact(r.op);
  }

  lemma {:induction false} TraceRecords(code: seq<Byte>, pc: Word, lim: nat)
    ensures NoEnd(TraceFrom(code, pc, lim).recs) && Straight(TraceFrom(code, pc, lim).recs)
    decreases lim
  {
    hide DecodeOne, CanFetch, WidthAt, Wrap, TraceFrom;
    if lim > 0 && CanFetch(code, pc) {
      TraceShape(code, pc, lim);
      NeverEnd(code, pc);
      var r, next := DecodeOne(code, pc), Wrap(pc + WidthAt(code, pc));
      if r.op == OP_JAL {
        TraceRecords(code, r.imm, lim - 1);
        PrependRecord(r.(op := OP_LUI, imm := next), TraceFrom(code, r.imm, lim - 1).recs);
        assert [] + TraceFrom(code, r.imm, lim - 1).recs == TraceFrom(code, r.imm, lim - 1).recs;
      } else if !Terminator(r.op) {
        TraceRecords(code, next, lim - 1);
        PrependRecord(r, TraceFrom(code, next, lim - 1).recs);
      }
    } else {
      TraceStuck(code, pc, lim);
    }
  }

  lemma PrependRecord(r: Rec, recs: seq<Rec>)
    requires NoEnd(recs) && Straight(recs) && r.op != OP_END && !Terminator(r.op)
    ensures NoEnd([r] + recs) && Straight([r] + recs)
  {
    assert forall k :: 0 <= k < |recs| ==> ([r] + recs)[k + 1] == recs[k];
  }

  lemma NeverEnd(code: seq<Byte>, pc: Word)
    requires CanFetch(code, pc)
    ensures DecodeOne(code, pc).op != OP_END
  {
    hide SignExtend, Wrap, ImmI, ImmS, ImmB, ImmJ, ImmU;
    if Wide(code, pc) {
      assert F3Of(WordAt(code, pc)) < 8;
    }
  }

  // ---- recovering a pc from a record count ----

  /** The lean step: width, and for an unconditional jump its target and whether it links. */
  datatype Lean = Lean(width: nat, jump: bool, link: bool, target: Word)

  function LeanStep(code: seq<Byte>, pc: Word): Lean
    requires CanFetch(code, pc)
  {
    if Wide(code, pc) then
      var w := WordAt(code, pc);
      if w % 128 == 0x6f then Lean(4, true, RdOf(w) != 0, Wrap(pc + ImmJ(w))) else Lean(4, false, false, 0)
    else
      var c := HalfAt(code, pc);
      if Sel(c) == 5 || Sel(c) == 21 then Lean(2, true, Sel(c) == 5, Wrap(pc + ImmCJ(c))) else Lean(2, false, false, 0)
  }

  /** The lean step advances exactly as the decoder does. */
  lemma LeanAgrees(code: seq<Byte>, pc: Word)
    requires CanFetch(code, pc)
    ensures var r, s := DecodeOne(code, pc), LeanStep(code, pc);
            s.width == WidthAt(code, pc) && (s.jump <==> r.op == OP_JAL) &&
            (s.jump ==> s.target == r.imm && (s.link <==> r.rd != 0))
  {
    hide SignExtend, Wrap, ImmI, ImmS, ImmB, ImmJ, ImmU, ImmCI, ImmCJ, ImmCB, ImmCLui, Imm16Sp, Imm4Spn, ImmLw, ImmLwsp,
      ImmSwsp, Shamt, RdC, Rs2C, RdP, RsP, Bit12, Rs1Of, Rs2Of, F7Of;
    if Wide(code, pc) {
      assert F3Of(WordAt(code, pc)) < 8;
    }
  }

  /** Tracing j instructions from pc gives rs and reaches `at`, with more to come: any longer
      trace is this one continued from there. */
  ghost predicate Open(code: seq<Byte>, pc: Word, j: nat, rs: seq<Rec>, at: Word) {
    forall k: nat :: Continues(code, pc, j, rs, at, k)
  }

  ghost predicate Continues(code: seq<Byte>, pc: Word, j: nat, rs: seq<Rec>, at: Word, k: nat) {
    var t := TraceFrom(code, at, k);
    TraceFrom(code, pc, j + k) == Trace(rs + t.recs, t.end, j + t.insns)
  }

  lemma OpenStart(code: seq<Byte>, pc: Word)
    ensures Open(code, pc, 0, [], pc)
  {
    hide TraceFrom;
    forall k: nat
      ensures Continues(code, pc, 0, [], pc, k)
    {
      assert [] + TraceFrom(code, pc, k).recs == TraceFrom(code, pc, k).recs;
    }
  }

  /** The records an instruction that does not end a run contributes, and where it leads. */
  function Contributes(r: Rec, next: Word): seq<Rec> {
    if r.op == OP_JAL then LinkRecord(r, next) else [r]
  }

  /** One more instruction traced. */
  lemma OpenStep(code: seq<Byte>, pc: Word, j: nat, rs: seq<Rec>, at: Word)
    requires Open(code, pc, j, rs, at) && CanFetch(code, at)
    requires var r := DecodeOne(code, at); r.op == OP_JAL || !Terminator(r.op)
    ensures var r, next := DecodeOne(code, at), Wrap(at + WidthAt(code, at));
            Open(code, pc, j + 1, rs + Contributes(r, next), if r.op == OP_JAL then r.imm else next)
  {
    hide TraceFrom, DecodeOne, CanFetch, WidthAt, Wrap, Terminator;
    var r, next := DecodeOne(code, at), Wrap(at + WidthAt(code, at));
    var at', more := if r.op == OP_JAL then r.imm else next, Contributes(r, next);
    var rs', j' := rs + more, j + 1;
    forall k: nat
      ensures Continues(code, pc, j', rs', at', k)
    {
      assert Continues(code, pc, j, rs, at, k + 1);
      TraceShape(code, at, k + 1);
      var t := TraceFrom(code, at', k);
      assert rs + (more + t.recs) == rs + more + t.recs;
    }
  }

  /** Where the trace stops: a terminator contributes the last record. */
  lemma OpenLast(code: seq<Byte>, pc: Word, j: nat, rs: seq<Rec>, at: Word, lim: nat)
    requires Open(code, pc, j, rs, at) && CanFetch(code, at) && j < lim
    requires var r := DecodeOne(code, at); r.op != OP_JAL && Terminator(r.op)
    ensures TraceFrom(code, pc, lim) == Trace(rs + [DecodeOne(code, at)], Wrap(at + WidthAt(code, at)), j + 1)
  {
    hide TraceFrom, DecodeOne, CanFetch, WidthAt, Wrap, Terminator;
    assert Continues(code, pc, j, rs, at, lim - j);
    TraceShape(code, at, lim - j);
  }

  /** Or the budget or the code runs out. */
  lemma OpenEnd(code: seq<Byte>, pc: Word, j: nat, rs: seq<Rec>, at: Word, lim: nat)
    requires Open(code, pc, j, rs, at) && j <= lim && (j == lim || !CanFetch(code, at))
    ensures TraceFrom(code, pc, lim) == Trace(rs, at, j)
  {
    hide TraceFrom, CanFetch;
    assert Continues(code, pc, j, rs, at, lim - j);
    TraceStuck(code, at, lim - j);
    assert rs + [] == rs;
  }

  /** With records still to come, the instruction at hand can be fetched and ends no run. */
  lemma OpenMore(code: seq<Byte>, pc: Word, j: nat, rs: seq<Rec>, at: Word, lim: nat)
    requires Open(code, pc, j, rs, at) && j <= lim && |TraceFrom(code, pc, lim).recs| > |rs| + 1
    ensures j < lim && CanFetch(code, at)
    ensures var r := DecodeOne(code, at); r.op == OP_JAL || !Terminator(r.op)
    ensures rs <= TraceFrom(code, pc, lim).recs
  {
    hide TraceFrom, CanFetch, DecodeOne, Terminator;
    assert Continues(code, pc, j, rs, at, lim - j);
    if j == lim || !CanFetch(code, at) {
      OpenEnd(code, pc, j, rs, at, lim);
    } else {
      var r := DecodeOne(code, at);
      if r.op != OP_JAL && Terminator(r.op) {
        OpenLast(code, pc, j, rs, at, lim);
      }
    }
  }

  lemma OpenPrefix(code: seq<Byte>, pc: Word, j: nat, rs: seq<Rec>, at: Word, lim: nat)
    requires Open(code, pc, j, rs, at) && j <= lim
    ensures rs <= TraceFrom(code, pc, lim).recs
  {
    hide TraceFrom;
    assert Continues(code, pc, j, rs, at, lim - j);
  }

  /** The address of a run after its m-th record: tracing exactly j instructions yields exactly
      the first m records and ends there, and one instruction fewer yields fewer records. */
  ghost predicate AfterRecord(code: seq<Byte>, pc: Word, recs: seq<Rec>, m: nat, at: Word, j: nat)
    requires m <= |recs|
  {
    TraceFrom(code, pc, j) == Trace(recs[..m], at, j) &&
    (m > 0 ==> j > 0 && |TraceFrom(code, pc, j - 1).recs| == m - 1)
  }

  /** Resuming there is sound: the first m records do what the interpreter does in j instructions. */
  lemma ResumeSound<H(!new)>(env: Env<H>, pc: Word, m: Machine<H>, lim: nat, k: nat, at: Word, j: nat)
    requires GoodEnv(env) && m.Valid() && LegalRun(env, pc, m)
    requires k < |TraceFrom(m.mem.rom, pc, lim).recs| && AfterRecord(m.mem.rom, pc, TraceFrom(m.mem.rom, pc, lim).recs, k, at, j)
    ensures var recs := TraceFrom(m.mem.rom, pc, lim).recs;
            Checked(env, j, pc, m) == Batch(at, EvalAll(env, recs[..k], at, m).1, j, false)
  {
    hide TraceFrom, EvalAll, Checked, GoodEnv, LegalRun;
    var recs := TraceFrom(m.mem.rom, pc, lim).recs;
    RunMatches(env, j, pc, m);
    TraceRecords(m.mem.rom, pc, lim);
    StraightKeepsPc(env, recs[..k], at, m);
  }

  /** Records before the last leave the preset address alone. */
  lemma {:induction false} StraightKeepsPc<H>(env: Env<H>, recs: seq<Rec>, pc: Word, m: Machine<H>)
    requires forall k :: 0 <= k < |recs| ==> !Terminator(recs[k].op)
    ensures EvalAll(env, recs, pc, m).0 == pc && !EndsInTrap(recs)
    decreases |recs|
  {
    hide Handle;
    if recs != [] {
      HandleStraight(env, recs[0], pc, pc, m);
      StraightKeepsPc(env, recs[1..], pc, Handle(env, recs[0], pc, m).1);
    }
  }
}
