/** Where a stopping trap leaves the decode-ahead engine: at the start of its last run, which is
    the trap's own address exactly when the run begins with the trap. */
module PurvsStops {
  import opened Words
  import opened Isa
  import opened Machines
  import opened Rv32c
  import opened PurvMachine
  import opened PurvsTrace

  /** The interpreter stops at the trap itself. */
  lemma {:induction false} StopsAtTrap<H(!new)>(env: Env<H>, n: nat, pc: Word, m: Machine<H>)
    requires GoodEnv(env) && m.Valid() && LegalRun(env, pc, m) && Checked(env, n, pc, m).stopped
    ensures CanFetch(m.mem.rom, Checked(env, n, pc, m).pc)
    ensures Traps(DecodeOne(m.mem.rom, Checked(env, n, pc, m).pc).op)
    decreases n
  {
    hide PurvStep, GoodEnv, CanFetch, LegalRun, DecodeOne, CallHandler, Handle, WidthAt, Wrap;
    TraceStep(env, pc, m);
    match PurvStep(env, pc, m)
    case Off(_, _) =>
    case On(pc1, m1) => {
      LegalNext(env, pc, m, pc1, m1);
      StopsAtTrap(env, n - 1, pc1, m1);
    }
  }

  /** A run a handler stopped leaves its own first address; the interpreter's is the trap's. */
  lemma RunStop<H(!new)>(env: Env<H>, lim: nat, pc: Word, m: Machine<H>)
    requires GoodEnv(env) && m.Valid() && LegalRun(env, pc, m)
    requires RunOnce(env, TraceFrom(m.mem.rom, pc, lim), pc, m).stopped
    ensures var t := TraceFrom(m.mem.rom, pc, lim);
            CanFetch(m.mem.rom, pc) && RunOnce(env, t, pc, m).pc == pc &&
            (RunOnce(env, t, pc, m).pc == Checked(env, t.insns, pc, m).pc <==> Traps(DecodeOne(m.mem.rom, pc).op))
  {
    hide PurvStep, GoodEnv, CanFetch, LegalRun, DecodeOne, CallHandler, Handle, WidthAt, Wrap, TraceFrom, Checked, EvalAll;
    var t := TraceFrom(m.mem.rom, pc, lim);
    RunMatches(env, lim, pc, m);
    StopsAtTrap(env, t.insns, pc, m);
    if lim == 0 || !CanFetch(m.mem.rom, pc) {
      TraceStuck(m.mem.rom, pc, lim);
    }
    TraceShape(m.mem.rom, pc, lim);
    if Traps(DecodeOne(m.mem.rom, pc).op) {
      TraceStep(env, pc, m);
      OneStep(env, pc, m);
    }
  }

  /** Where the last run of a batch started, and the machine it started from. */
  function LastRun<H>(env: Env<H>, max: nat, pc: Word, m: Machine<H>): (Word, Machine<H>) {
    var t := TraceFrom(m.mem.rom, pc, Limit(max));
    if t.insns == 0 then (pc, m)
    else
      var r := RunOnce(env, t, pc, m);
      if r.stopped then (pc, m) else LastRun(env, max - t.insns, r.pc, r.m)
  }

  /** A batch a handler stopped leaves the address its last run started at: the interpreter's
      address if and only if the instruction there is the trap. */
  lemma {:induction false} BatchStop<H(!new)>(env: Env<H>, max: nat, pc: Word, m: Machine<H>)
    requires GoodEnv(env) && m.Valid() && LegalRun(env, pc, m) && PurvsBatch(env, max, pc, m).stopped
    ensures var start := LastRun(env, max, pc, m).0;
            CanFetch(m.mem.rom, start) && PurvsBatch(env, max, pc, m).pc == start &&
            (PurvsBatch(env, max, pc, m).pc == Checked(env, max, pc, m).pc <==> Traps(DecodeOne(m.mem.rom, start).op))
    decreases max
  {
    hide TraceFrom, RunOnce, PurvStep, GoodEnv, CanFetch, LegalRun, DecodeOne, Limit;
    var t := TraceFrom(m.mem.rom, pc, Limit(max));
    RunMatches(env, Limit(max), pc, m);
    WithinLimit(max);
    CheckedSplit(env, t.insns, max - t.insns, pc, m);
    var r := RunOnce(env, t, pc, m);
    if r.stopped {
      RunStop(env, Limit(max), pc, m);
    } else {
      LegalLater(env, pc, m, t.insns);
      CheckedKeeps(env, t.insns, pc, m);
      BatchStop(env, max - t.insns, r.pc, r.m);
    }
  }

  lemma WithinLimit(max: nat)
    ensures Limit(max) <= max
  {
  }

  /** addi x1, x0, 1 and then ecall. */
  const AddThenEcall: seq<Byte> := [0x93, 0x00, 0x10, 0x00, 0x73, 0x00, 0x00, 0x00]

  /** There a stopping ecall leaves the decode-ahead engine at 0 and the interpreter at 4. */
  lemma StopsEarly<H>(env: Env<H>, m: Machine<H>)
    requires m.mem.rom == AddThenEcall && forall s: Machine<H>, w: Word :: env.ecall(s, w) == (s, true)
    ensures PurvsBatch(env, 2, 0, m).stopped && PurvsBatch(env, 2, 0, m).pc == 0
    ensures Checked(env, 2, 0, m).stopped && Checked(env, 2, 0, m).pc == 4
  {
    hide PurvStep, DecodeOne, TraceFrom, EvalAll, Handle, Wide, WordAt, Alu;
    var two: nat, one: nat, four: Word := 2, 1, 4;
    var code, m1 := m.mem.rom, SetReg(m, 1, Wrap(m.x[0] as int + 1));
    FirstWord(env, m);
    SecondWord(env, m1);
    var r, last := DecodeOne(code, 0), DecodeOne(code, four);
    TraceShape(code, 0, two);
    TraceShape(code, four, one);
    assert TraceFrom(code, 0, two) == Trace([r] + [last], Wrap(8), 2);
    HandleStraight(env, r, Wrap(8), Wrap(8), m);
    EvalFirst(env, r, [last], Wrap(8), m);
    assert EvalAll(env, [last], Wrap(8), Handle(env, r, Wrap(8), m).1).1 == Handle(env, r, Wrap(8), m).1 by {
      LastTrap(env, last, Wrap(8), Handle(env, r, Wrap(8), m).1);
    }
    assert RunOnce(env, TraceFrom(code, 0, two), 0, m).stopped;
    assert PurvsBatch(env, two, 0, m) == RunOnce(env, TraceFrom(code, 0, two), 0, m);
    OneStep(env, four, m1);
    assert Checked(env, two, 0, m).stopped && Checked(env, two, 0, m).pc == 4;
  }

  lemma LastTrap<H>(env: Env<H>, r: Rec, pc: Word, m: Machine<H>)
    requires Traps(r.op)
    ensures EvalAll(env, [r], pc, m) == (pc, m)
  {
  }

  lemma FirstWord<H>(env: Env<H>, m: Machine<H>)
    requires m.mem.rom == AddThenEcall
    ensures CanFetch(AddThenEcall, 0) && WidthAt(AddThenEcall, 0) == 4
    ensures DecodeOne(AddThenEcall, 0) == Rec(10, 1, 0, 0, 1)
    ensures PurvStep(env, 0, m) == On(4, SetReg(m, 1, Wrap(m.x[0] as int + 1)))
  {
    assert WordAt(AddThenEcall, 0) == 0x10_0093;
  }

  lemma SecondWord<H>(env: Env<H>, m: Machine<H>)
    requires m.mem.rom == AddThenEcall && forall s: Machine<H>, w: Word :: env.ecall(s, w) == (s, true)
    ensures CanFetch(AddThenEcall, 4) && WidthAt(AddThenEcall, 4) == 4
    ensures DecodeOne(AddThenEcall, 4).op == OP_ECALL
    ensures PurvStep(env, 4, m) == Off(4, m)
  {
    assert WordAt(AddThenEcall, 4) == 0x73;
  }
}
