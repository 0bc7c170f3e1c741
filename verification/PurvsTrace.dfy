/** The decode-ahead engine: runs traced through jumps, and batches of them, refine the interpreter. */
module PurvsTrace {
  import opened Words
  import opened Isa
  import opened Machines
  import opened Rv32c
  import opened PurvMachine

  const BLOCK_MAX := 64

  function DecodeOne(code: seq<Byte>, pc: Word): Rec
    requires CanFetch(code, pc)
  {
    if Wide(code, pc) then Leaf32(WordAt(code, pc), pc) else Leaf16(HalfAt(code, pc), pc)
  }

  /** A decoded run: its records, the address execution falls through to, and the guest
      instructions it covers. */
  datatype Trace = Trace(recs: seq<Rec>, end: Word, insns: nat)

  /** A linking jump leaves only its link write; a plain one leaves nothing. */
  function LinkRecord(r: Rec, next: Word): seq<Rec> {
    if r.rd != 0 then [r.(op := OP_LUI, imm := next)] else []
  }

  /** Decode ahead from pc, following unconditional jumps, up to `lim` instructions. */
  function TraceFrom(code: seq<Byte>, pc: Word, lim: nat): (t: Trace)
    ensures |t.recs| <= t.insns <= lim
    decreases lim
  {
    hide DecodeOne, CanFetch, WidthAt, Wrap;
    if lim == 0 || !CanFetch(code, pc) then Trace([], pc, 0)
    else
      var r, next := DecodeOne(code, pc), Wrap(pc + WidthAt(code, pc));
      if r.op == OP_JAL then
        var t := TraceFrom(code, r.imm, lim - 1);
        Trace(LinkRecord(r, next) + t.recs, t.end, t.insns + 1)
      else if Terminator(r.op) then Trace([r], next, 1)
      else
        var t := TraceFrom(code, next, lim - 1);
        Trace([r] + t.recs, t.end, t.insns + 1)
  }

  /** The evaluator over a run's records; a trap record stops it. */
  function EvalAll<H>(env: Env<H>, recs: seq<Rec>, pc: Word, m: Machine<H>): (Word, Machine<H>)
    decreases |recs|
  {
    if recs == [] || Traps(recs[0].op) then (pc, m)
    else
      var (pc', m') := Handle(env, recs[0], pc, m);
      EvalAll(env, recs[1..], pc', m')
  }

  predicate EndsInTrap(recs: seq<Rec>) {
    recs != [] && Traps(recs[|recs| - 1].op)
  }

  /** One run executed. The handler of a trap is called after the run; a stopping one leaves
      the run's first address, not the trap's. */
  function RunOnce<H>(env: Env<H>, t: Trace, pc: Word, m: Machine<H>): Batch<H> {
    var (pc1, m1) := EvalAll(env, t.recs, t.end, m);
    if EndsInTrap(t.recs) then
      var last := t.recs[|t.recs| - 1];
      var (m2, stop) := CallHandler(env, last.op, m1, last.imm);
      if stop then Batch(pc, m2, t.insns, true) else Batch(t.end, m2, t.insns, false)
    else Batch(pc1, m1, t.insns, false)
  }

  /** A run's share of the budget: all of it, but at most the buffer's 64 records. */
  function Limit(max: nat): (r: nat)
    ensures r <= max && r <= 64 && (r == max || r == 64)
  {
    if max < BLOCK_MAX then max else BLOCK_MAX
  }

  /** Runs until the budget is spent, the code ends, or a handler stops. */
  function PurvsBatch<H>(env: Env<H>, max: nat, pc: Word, m: Machine<H>): Batch<H> {
    var t := TraceFrom(m.mem.rom, pc, Limit(max));
    if t.insns == 0 then Batch(pc, m, 0, false)
    else
      var r := RunOnce(env, t, pc, m);
      if r.stopped then r else Then(r, PurvsBatch(env, max - t.insns, r.pc, r.m))
  }

  // ---- refinement ----

  /** The same registers, memory, host state (so the same callbacks and traps in the same order)
      and instruction count; the same address unless a handler stopped the batch. */
  predicate SameBatch<H(==)>(a: Batch<H>, b: Batch<H>) {
    a.m == b.m && a.count == b.count && a.stopped == b.stopped && (!a.stopped ==> a.pc == b.pc)
  }

  /** The instruction reached after n steps is one the two decoders read alike. */
  ghost predicate LegalAt<H>(env: Env<H>, pc: Word, m: Machine<H>, n: nat) {
    var r := Checked(env, n, pc, m);
    !r.stopped && CanFetch(r.m.mem.rom, r.pc) && Wide(r.m.mem.rom, r.pc) ==> !Clash(WordAt(r.m.mem.rom, r.pc))
  }

  ghost predicate LegalRun<H>(env: Env<H>, pc: Word, m: Machine<H>) {
    forall n: nat :: LegalAt(env, pc, m, n)
  }

  lemma LegalLater<H>(env: Env<H>, pc: Word, m: Machine<H>, a: nat)
    requires LegalRun(env, pc, m) && !Checked(env, a, pc, m).stopped
    ensures var r := Checked(env, a, pc, m); LegalRun(env, r.pc, r.m)
  {
    hide PurvStep, CanFetch;
    var r := Checked(env, a, pc, m);
    forall n: nat
      ensures LegalAt(env, r.pc, r.m, n)
    {
      CheckedSplit(env, a, n, pc, m);
      assert LegalAt(env, pc, m, a + n);
    }
  }

  /** At a legal pc the record means what the interpreter does. */
  lemma StepAgrees<H>(env: Env<H>, pc: Word, m: Machine<H>)
    requires CanFetch(m.mem.rom, pc) && m.x[0] == 0
    requires Wide(m.mem.rom, pc) ==> !Clash(WordAt(m.mem.rom, pc))
    ensures RecStep(env, DecodeOne(m.mem.rom, pc), pc, WidthAt(m.mem.rom, pc), m) == PurvStep(env, pc, m)
  {
    hide Act, RecStep, Leaf32, Leaf16, Fused32, Fused16;
    if Wide(m.mem.rom, pc) {
      Agree32(env, WordAt(m.mem.rom, pc), pc, m);
    } else {
      Agree16(env, HalfAt(m.mem.rom, pc), pc, m);
    }
  }

  /** A record that ends no run leaves the preset address alone and does not look at it. */
  lemma HandleStraight<H>(env: Env<H>, r: Rec, pc: Word, pc': Word, m: Machine<H>)
    requires !Terminator(r.op)
    ensures Handle(env, r, pc, m).0 == pc && Handle(env, r, pc, m).1 == Handle(env, r, pc', m).1
  {
    hide Alu, Wrap, DoLoad, DoStore;
  }

  lemma EvalFirst<H>(env: Env<H>, r: Rec, rest: seq<Rec>, pc: Word, m: Machine<H>)
    requires !Terminator(r.op)
    ensures EvalAll(env, [r] + rest, pc, m) == EvalAll(env, rest, pc, Handle(env, r, pc, m).1)
    ensures EndsInTrap([r] + rest) <==> EndsInTrap(rest)
    ensures EndsInTrap(rest) ==> ([r] + rest)[|rest|] == rest[|rest| - 1]
  {
    hide Handle;
    HandleStraight(env, r, pc, pc, m);
    assert ([r] + rest)[1..] == rest;
  }

  lemma JumpEval<H>(env: Env<H>, r: Rec, next: Word, rest: seq<Rec>, pc: Word, m: Machine<H>)
    requires r.op == OP_JAL
    ensures EvalAll(env, LinkRecord(r, next) + rest, pc, m) == EvalAll(env, rest, pc, SetReg(m, r.rd, next))
    ensures EndsInTrap(LinkRecord(r, next) + rest) <==> EndsInTrap(rest)
    ensures EndsInTrap(rest) ==> (LinkRecord(r, next) + rest)[|LinkRecord(r, next) + rest| - 1] == rest[|rest| - 1]
  {
    if r.rd == 0 {
      assert [] + rest == rest;
    } else {
      EvalFirst(env, r.(op := OP_LUI, imm := next), rest, pc, m);
    }
  }

  /** A run from one step on, given the rest of it. */
  lemma StepThenRun<H>(env: Env<H>, pc: Word, m: Machine<H>, pc1: Word, m1: Machine<H>, t: Trace, t1: Trace)
    requires CanFetch(m.mem.rom, pc) && PurvStep(env, pc, m) == On(pc1, m1) && t.insns == t1.insns + 1
    requires SameBatch(RunOnce(env, t1, pc1, m1), Checked(env, t1.insns, pc1, m1))
    requires t.end == t1.end && EvalAll(env, t.recs, t.end, m) == EvalAll(env, t1.recs, t1.end, m1)
    requires (EndsInTrap(t.recs) <==> EndsInTrap(t1.recs))
    requires EndsInTrap(t.recs) ==> t.recs[|t.recs| - 1] == t1.recs[|t1.recs| - 1]
    ensures SameBatch(RunOnce(env, t, pc, m), Checked(env, t.insns, pc, m))
  {
    hide PurvStep, CanFetch, CallHandler, EvalAll;
  }

  /** The step at pc, and what the trace makes of it. */
  lemma TraceStep<H(!new)>(env: Env<H>, pc: Word, m: Machine<H>)
    requires GoodEnv(env) && m.Valid() && LegalRun(env, pc, m) && CanFetch(m.mem.rom, pc)
    ensures var r, next := DecodeOne(m.mem.rom, pc), Wrap(pc + WidthAt(m.mem.rom, pc));
            PurvStep(env, pc, m) ==
            if Traps(r.op) then AfterTrap(CallHandler(env, r.op, m, r.imm), pc, WidthAt(m.mem.rom, pc))
            else On(Handle(env, r, next, m).0, Handle(env, r, next, m).1)
    ensures Keeps(m, PurvStep(env, pc, m).m)
  {
    hide Act, Handle, GoodEnv, CallHandler, DecodeOne, CanFetch, LegalRun;
    var code := m.mem.rom;
    LegalHere(env, pc, m);
    StepAgrees(env, pc, m);
    ActKeeps(env, ActionAt(code, pc), pc, WidthAt(code, pc), RawAt(code, pc), m);
  }

  /** The first three shapes of a trace. */
  lemma TraceShape(code: seq<Byte>, pc: Word, lim: nat)
    requires lim > 0 && CanFetch(code, pc)
    ensures var r, next := DecodeOne(code, pc), Wrap(pc + WidthAt(code, pc));
            var t := TraceFrom(code, pc, lim);
            if r.op == OP_JAL then
              var t1 := TraceFrom(code, r.imm, lim - 1); t == Trace(LinkRecord(r, next) + t1.recs, t1.end, t1.insns + 1)
            else if Terminator(r.op) then t == Trace([r], next, 1)
            else var t1 := TraceFrom(code, next, lim - 1); t == Trace([r] + t1.recs, t1.end, t1.insns + 1)
  {
    hide DecodeOne, CanFetch, WidthAt, Wrap;
  }

  lemma Empty<H>(env: Env<H>, pc: Word, m: Machine<H>)
    ensures SameBatch(RunOnce(env, Trace([], pc, 0), pc, m), Checked(env, 0, pc, m))
  {
  }

  lemma TraceStuck(code: seq<Byte>, pc: Word, lim: nat)
    requires lim == 0 || !CanFetch(code, pc)
    ensures TraceFrom(code, pc, lim) == Trace([], pc, 0)
  {
    hide CanFetch;
  }

  /** A traced run does what the interpreter does over the same instructions. */
  lemma {:induction false} RunMatches<H(!new)>(env: Env<H>, lim: nat, pc: Word, m: Machine<H>)
    requires GoodEnv(env) && m.Valid() && LegalRun(env, pc, m)
    ensures var t := TraceFrom(m.mem.rom, pc, lim); SameBatch(RunOnce(env, t, pc, m), Checked(env, t.insns, pc, m))
    decreases lim
  {
    hide PurvStep, Handle, GoodEnv, CallHandler, DecodeOne, CanFetch, LegalRun, TraceFrom, RunOnce, Checked, WidthAt, EvalAll, SameBatch, Wrap;
    var code := m.mem.rom;
    if lim > 0 && CanFetch(code, pc) {
      TraceStep(env, pc, m);
      TraceShape(code, pc, lim);
      var r, next := DecodeOne(code, pc), Wrap(pc + WidthAt(code, pc));
      var t := TraceFrom(code, pc, lim);
      if r.op == OP_JAL {
        JalHandled(env, r, next, m);
        var m1 := SetReg(m, r.rd, next);
        LegalNext(env, pc, m, r.imm, m1);
        RunMatches(env, lim - 1, r.imm, m1);
        JumpEval(env, r, next, TraceFrom(code, r.imm, lim - 1).recs, t.end, m);
        StepThenRun(env, pc, m, r.imm, m1, t, TraceFrom(code, r.imm, lim - 1));
      } else if Terminator(r.op) {
        SameLast(env, r, next, pc, WidthAt(code, pc), m);
      } else {
        HandleStraight(env, r, next, t.end, m);
        var m1 := Handle(env, r, next, m).1;
        LegalNext(env, pc, m, next, m1);
        RunMatches(env, lim - 1, next, m1);
        EvalFirst(env, r, TraceFrom(code, next, lim - 1).recs, t.end, m);
        StepThenRun(env, pc, m, next, m1, t, TraceFrom(code, next, lim - 1));
      }
    } else {
      TraceStuck(code, pc, lim);
      Empty(env, pc, m);
    }
  }

  /** A run of one terminator is one step of the interpreter. */
  lemma SameLast<H>(env: Env<H>, r: Rec, next: Word, pc: Word, width: nat, m: Machine<H>)
    requires Terminator(r.op) && CanFetch(m.mem.rom, pc) && next == Wrap(pc + width)
    requires PurvStep(env, pc, m) ==
             if Traps(r.op) then AfterTrap(CallHandler(env, r.op, m, r.imm), pc, width)
             else On(Handle(env, r, next, m).0, Handle(env, r, next, m).1)
    ensures SameBatch(RunOnce(env, Trace([r], next, 1), pc, m), Checked(env, 1, pc, m))
  {
    hide PurvStep, Handle, CallHandler, CanFetch, Wrap, RunOnce, Checked;
    LastRecord(env, r, next, pc, m);
    OneStep(env, pc, m);
  }

  lemma LegalHere<H>(env: Env<H>, pc: Word, m: Machine<H>)
    requires LegalRun(env, pc, m) && CanFetch(m.mem.rom, pc)
    ensures Wide(m.mem.rom, pc) ==> !Clash(WordAt(m.mem.rom, pc))
  {
    hide Clash, WordAt;
    assert LegalAt(env, pc, m, 0);
  }

  lemma OneStep<H>(env: Env<H>, pc: Word, m: Machine<H>)
    requires CanFetch(m.mem.rom, pc)
    ensures Checked(env, 1, pc, m) ==
            match PurvStep(env, pc, m)
            case Off(pc', m') => Batch(pc', m', 1, true)
            case On(pc', m') => Batch(pc', m', 1, false)
  {
    hide PurvStep;
  }

  lemma LegalNext<H>(env: Env<H>, pc: Word, m: Machine<H>, pc1: Word, m1: Machine<H>)
    requires LegalRun(env, pc, m) && CanFetch(m.mem.rom, pc) && PurvStep(env, pc, m) == On(pc1, m1)
    ensures LegalRun(env, pc1, m1)
  {
    hide PurvStep, LegalRun;
    OneStep(env, pc, m);
    LegalLater(env, pc, m, 1);
  }

  lemma JalHandled<H>(env: Env<H>, r: Rec, next: Word, m: Machine<H>)
    requires r.op == OP_JAL
    ensures Handle(env, r, next, m) == (r.imm, SetReg(m, r.rd, next)) && !Traps(r.op)
  {
  }

  lemma LastRecord<H>(env: Env<H>, r: Rec, next: Word, pc: Word, m: Machine<H>)
    requires Terminator(r.op)
    ensures RunOnce(env, Trace([r], next, 1), pc, m) ==
            if Traps(r.op) then
              var h := CallHandler(env, r.op, m, r.imm);
              if h.1 then Batch(pc, h.0, 1, true) else Batch(next, h.0, 1, false)
            else
              var h := Handle(env, r, next, m);
              Batch(h.0, h.1, 1, false)
  {
    hide Handle, CallHandler;
    assert [r][1..] == [];
    var h := Handle(env, r, next, m);
    assert !Traps(r.op) ==> EvalAll(env, [r], next, m) == EvalAll(env, [], h.0, h.1);
  }

  lemma FetchableRuns(code: seq<Byte>, pc: Word, lim: nat)
    requires lim > 0
    ensures TraceFrom(code, pc, lim).insns == 0 <==> !CanFetch(code, pc)
  {
    hide DecodeOne, CanFetch;
  }

  /** Decode-ahead refines the interpreter batch by batch. */
  lemma {:induction false} Refines<H(!new)>(env: Env<H>, max: nat, pc: Word, m: Machine<H>)
    requires GoodEnv(env) && m.Valid() && LegalRun(env, pc, m)
    ensures SameBatch(PurvsBatch(env, max, pc, m), Checked(env, max, pc, m))
    decreases max
  {
    hide TraceFrom, RunOnce, PurvStep, GoodEnv, CanFetch, LegalRun;
    var t := TraceFrom(m.mem.rom, pc, Limit(max));
    RunMatches(env, Limit(max), pc, m);
    if max > 0 {
      FetchableRuns(m.mem.rom, pc, Limit(max));
    }
    if t.insns == 0 {
      if max > 0 {
        StuckStays(env, max, pc, m);
      }
    } else {
      CheckedSplit(env, t.insns, max - t.insns, pc, m);
      var r := RunOnce(env, t, pc, m);
      if !r.stopped {
        LegalLater(env, pc, m, t.insns);
        CheckedKeeps(env, t.insns, pc, m);
        Refines(env, max - t.insns, r.pc, r.m);
      }
    }
  }
}
