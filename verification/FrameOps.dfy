/** The fused prologue and epilogue against the source machine. */
module FrameOps {
  import opened Words
  import opened Isa
  import opened Machines
  import opened BulkOps
  import opened Fusion
  import opened Layout
  import opened SourceMachine
  import opened Evaluator
  import opened Simulation
  import opened PairSimulation
  import opened FrameStores
  import opened FrameSimulation
  import opened FrameAgreement

  /** The stack pointer moved by imm. */
  function SpMoved<H>(m: Machine<H>, imm: nat): Machine<H> {
    m.(x := m.x[2 := Wrap(m.x[2] + imm)])
  }

  lemma StepSpAdjust<H>(p: Prog, env: Env<H>, i: nat, m: Machine<H>, d: Insn, imm: nat)
    requires i < |p.code| && Cur(p, i) == d && IsSpAdjust(d) && imm == Imm(d)
    ensures SrcStep(p, env, i, m) == Onward(i, SpMoved(m, imm))
  {
    hide Bulk, Land, Goto, DoLoad, DoStore, Taken, Cur, Wrap;
  }

  function Imm(d: Insn): Word {
    match d
    case RegImm(_, _, _, imm) => imm
    case _ => 0
  }

  lemma {:induction false} ValuesSkip(x: Regs, y: Regs, rd: Reg, regs: seq<Reg>)
    requires rd !in regs && forall r: Reg :: r != rd ==> x[r] == y[r]
    ensures ValuesOf(x, regs) == ValuesOf(y, regs)
    decreases |regs|
  {
    if regs != [] {
      assert regs[0] in regs;
      ValuesSkip(x, y, rd, regs[1..]);
    }
  }

  lemma SpNotSaved(run: seq<Insn>)
    requires AllSaves(run) || AllRestores(run)
    ensures 2 !in RegsOf(run)
  {
    var regs := RegsOf(run);
    forall k | 0 <= k < |regs|
      ensures regs[k] != 2
    {
      assert regs[k] == SavedReg(run[k]);
    }
  }

  // ---- prologues ----

  /** The unit at i allocates the frame and saves `run` in a canonical layout. */
  ghost predicate PrologueAt(p: Prog, i: nat, run: seq<Insn>, frame: nat) {
    && UnitAt(p, i, 1 + |run|, 1) && IsSpAdjust(Cur(p, i)) && frame == -Signed(Imm(Cur(p, i)))
    && RunsAt(p, i + 1, run) && AllSaves(run)
  }

  /** What the whole prologue run leaves: its saves are based at the new stack pointer. */
  function SavedBelow<H>(env: Env<H>, m: Machine<H>, sp: Word, run: seq<Insn>): Machine<H> {
    var m1 := SavedAll(env, m, m.x, sp, run);
    Machine(m.x[2 := sp], m1.mem, m1.host)
  }

  lemma PrologueSource<H>(p: Prog, env: Env<H>, i: nat, m: Machine<H>, run: seq<Insn>, frame: nat)
    requires PrologueAt(p, i, run, frame)
    ensures UnitLeaves(p, env, i, m, SavedBelow(env, m, Wrap(Sp(m) - frame), run))
  {
    hide SrcStep, Puts, TextAddrs, Cur, FrameMask, Wrap;
    var d := Cur(p, i);
    var m1 := SpMoved(m, Imm(d));
    StepSpAdjust(p, env, i, m, d, Imm(d));
    SignedImm(Sp(m), Imm(d));
    SavesRun(p, env, i + 1, run, m1, Sp(m1));
    SpNotSaved(run);
    ValuesSkip(m.x, m1.x, 2, RegsOf(run));
    assert SrcRun(p, env, 1 + |run|, i, m) == SrcRun(p, env, |run|, i + 1, m1);
  }

  /** What the fused op leaves, whichever path it takes. */
  function SavedSlowly<H>(env: Env<H>, m: Machine<H>, frame: nat, mask: Mask): Machine<H> {
    var (h, mem) := SlowSave(env, m.host, m.mem, m.x, RanksOf(mask), m.x[2]);
    Machine(m.x[2 := Wrap(m.x[2] - frame)], mem, h)
  }

  ghost predicate SavesSlowly<H>(env: Env<H>, m: Machine<H>, frame: nat, mask: Mask, q: nat) {
    Ready(m.mem) &&
    var e := Exec(env, Prologue(mask, frame), q, m);
    e.m == SavedSlowly(env, m, frame, mask) && e.flow == Fall(q + 1)
  }

  lemma ExecPrologue<H>(env: Env<H>, m: Machine<H>, frame: nat, mask: Mask, q: nat)
    requires Ready(m.mem)
    ensures SavesSlowly(env, m, frame, mask, q)
  {
    hide RanksOf, SaveAll, SlowSave, ExecOne, DoEpilogue;
    FastAgreesWithSlow(env, m.host, m.mem, m.x, RanksOf(mask), m.x[2]);
  }

  lemma PrologueAgrees<H(!new)>(p: Prog, env: Env<H>, i: nat, m: Machine<H>, run: seq<Insn>, frame: nat, mask: Mask)
    requires PrologueAt(p, i, run, frame) && FrameMask(run, frame) == Some(mask) && run != [] && GoodEnv(env) && Ready(m.mem)
    requires SavesFree(m.mem, run, Wrap(Sp(m) - frame))
    ensures RunsAs(p, env, Prologue(mask, frame), i, m)
  {
    hide SrcRun, FrameMask, Wrap, Exec, SlowSave, Puts, RanksOf, GoodEnv, SavesFree;
    assert SavedBelow(env, m, Wrap(Sp(m) - frame), run) == SavedSlowly(env, m, frame, mask) by {
      SavesAgree(env, m.host, m.mem, m.x, run, frame, mask, m.x[2]);
    }
    PrologueSource(p, env, i, m, run, frame);
    ExecPrologue(env, m, frame, mask, OpAt(p.plan, i));
    hide SavedBelow, SavedSlowly, RunsAt, AllSaves, Cur;
    Passed(p, env, Prologue(mask, frame), i, 1 + |run|, 1, m);
  }

  // ---- epilogues ----

  /** The unit at i restores `run` from a canonical layout, releases the frame and returns. */
  ghost predicate EpilogueAt(p: Prog, i: nat, run: seq<Insn>, frame: nat) {
    && UnitAt(p, i, |run| + 2, 1) && RunsAt(p, i, run) && AllRestores(run)
    && IsSpAdjust(Cur(p, i + |run|)) && Imm(Cur(p, i + |run|)) == frame && Cur(p, i + |run| + 1) == Jalr(0, 1, 0)
  }

  /** A return from a machine. */
  ghost function Returned<H>(p: Prog, m: Machine<H>): Outcome<H> {
    match Land(p, ClearBit0(m.x[1]))
    case Some(j) => Next(j, m)
    case None => Wild
  }

  /** What the whole epilogue run leaves. */
  function RestoredAbove<H>(env: Env<H>, m: Machine<H>, run: seq<Insn>, frame: nat): Machine<H> {
    SpMoved(RestoredAll(env, m, run), frame)
  }

  lemma EpilogueSource<H>(p: Prog, env: Env<H>, i: nat, m: Machine<H>, run: seq<Insn>, frame: nat)
    requires EpilogueAt(p, i, run, frame)
    ensures UnitRun(p, env, i, m) == Returned(p, RestoredAbove(env, m, run, frame))
    ensures Sp(RestoredAll(env, m, run)) == Sp(m)
  {
    hide SrcStep, Gets, TextAddrs, Cur, FrameMask, Wrap, ClearBit0, RestoredAll, Land;
    var n := |run|;
    var m1 := RestoredAll(env, m, run);
    var m2 := SpMoved(m1, frame);
    RestoresRun(p, env, i, run, m, Sp(m), m1);
    SrcRunSplit(p, env, n, 2, i, m);
    StepSpAdjust(p, env, i + n, m1, Cur(p, i + n), frame);
    Run2(p, env, i + n, m1);
    JumpAndLink(p, env, i + n + 1, m2, 0, 1, 0);
    WrapWord(m2.x[1]);
  }

  function RestoredSlowly<H>(env: Env<H>, m: Machine<H>, frame: nat, mask: Mask): Machine<H> {
    var top := Wrap(m.x[2] + frame);
    var m1 := SlowRestore(env, m, RanksOf(mask), top);
    m1.(x := m1.x[2 := top])
  }

  ghost predicate RestoresSlowly<H>(env: Env<H>, m: Machine<H>, frame: nat, mask: Mask, q: nat) {
    Ready(m.mem) &&
    var e := Exec(env, Epilogue(mask, frame), q, m);
    e.m == RestoredSlowly(env, m, frame, mask) && e.flow == JumpReg(ClearBit0(e.m.x[1]))
  }

  lemma ExecEpilogue<H>(env: Env<H>, m: Machine<H>, frame: nat, mask: Mask, q: nat)
    requires Ready(m.mem)
    ensures RestoresSlowly(env, m, frame, mask, q)
  {
    hide RanksOf, RestoreAll, SlowRestore, ExecOne, DoPrologue, Wrap, ClearBit0;
    FastRestoreAgrees(env, m, RanksOf(mask), Wrap(m.x[2] + frame));
  }

  lemma AddThenSubtract(a: Word, b: Word)
    ensures Wrap(Wrap(a + b) - b) == a
  {
    WrapNear(a + b);
    WrapNear(Wrap(a + b) - b);
  }

  lemma EpilogueAgrees<H(!new)>(p: Prog, env: Env<H>, i: nat, m: Machine<H>, run: seq<Insn>, frame: nat, mask: Mask)
    requires EpilogueAt(p, i, run, frame) && FrameMask(run, frame) == Some(mask) && run != [] && GoodEnv(env) && Ready(m.mem)
    requires RestoresFree(m.mem, run, Sp(m))
    ensures RunsAs(p, env, Epilogue(mask, frame), i, m)
  {
    hide SrcRun, Wrap, FrameMask, ClearBit0, Exec, SlowRestore, Gets, RanksOf, GoodEnv, RestoresFree;
    var top := Wrap(m.x[2] + frame);
    EpilogueSource(p, env, i, m, run, frame);
    AddThenSubtract(m.x[2], frame);
    RestoresAgree(env, m, run, frame, mask, top);
    ExecEpilogue(env, m, frame, mask, OpAt(p.plan, i));
  }
}
