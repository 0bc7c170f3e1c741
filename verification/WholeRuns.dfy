/** Meaning preservation over every run of the transcoded program. */
module WholeRuns {
  import opened Words
  import opened Isa
  import opened Machines
  import opened BulkOps
  import opened Fusion
  import opened Layout
  import opened SourceMachine
  import opened Evaluator
  import opened Simulation
  import opened SingleSimulation
  import opened UnitSimulation
  import opened Transcoding
  import opened FuelCharges
  import opened SourceFuel

  // ---- the op machine ----

  /** Running: about to execute the op at q. Halted: a handler stopped there. Left: an
      indirect jump went outside the op stream. Lost: the cursor ran off the ops. */
  datatype OpState<H> = Running(q: nat, m: Machine<H>) | Halted(q: nat, m: Machine<H>) | Left(t: Word, m: Machine<H>) | Lost

  /** What the op at q does; nothing when there is none or the host is not ready. */
  function OpEffect<H>(ops: seq<Word>, env: Env<H>, q: nat, m: Machine<H>): Option<Effect<H>> {
    if q < |ops| && Ready(m.mem) then Some(Exec(env, OpIn(ops, q), q, m)) else None
  }

  function Continue<H>(ops: seq<Word>, q: nat, e: Effect<H>): OpState<H> {
    match e.flow
    case Fall(n) => Running(n, e.m)
    case Jump(n) => Running(n, e.m)
    case Resume(n) => Running(n, e.m)
    case JumpReg(t) => if t >= 4 * |ops| then Left(t, e.m) else Running(t / 4, e.m)
    case Halt => Halted(q, e.m)
  }

  /** One op. */
  function OpStep<H>(ops: seq<Word>, env: Env<H>, q: nat, m: Machine<H>): OpState<H> {
    match OpEffect(ops, env, q, m)
    case Some(e) => Continue(ops, q, e)
    case None => Lost
  }

  /** Up to k ops. */
  function OpRun<H>(ops: seq<Word>, env: Env<H>, k: nat, q: nat, m: Machine<H>): OpState<H> {
    if k == 0 then Running(q, m)
    else
      match OpStep(ops, env, q, m)
      case Running(q', m') => OpRun(ops, env, k - 1, q', m')
      case Halted(q', m') => Halted(q', m')
      case Left(t, m') => Left(t, m')
      case Lost => Lost
  }

  /** What the op at q charges. */
  function OpCharge<H>(ops: seq<Word>, env: Env<H>, q: nat, m: Machine<H>): nat {
    match OpEffect(ops, env, q, m)
    case Some(e) => e.charge
    case None => 0
  }

  /** The fuel k ops charge. */
  function OpFuel<H>(ops: seq<Word>, env: Env<H>, k: nat, q: nat, m: Machine<H>): nat {
    if k == 0 then 0
    else
      OpCharge(ops, env, q, m) +
      match OpStep(ops, env, q, m)
      case Running(q', m') => OpFuel(ops, env, k - 1, q', m')
      case _ => 0
  }

  // ---- what source steps keep ----

  /** The machine the outcome leaves is sound and keeps m's regions. */
  predicate KeptFrom<H>(m: Machine<H>, o: Outcome<H>) {
    match o
    case Next(_, m') => Keeps(m, m')
    case Stopped(_, m') => Keeps(m, m')
    case Wild => true
  }

  lemma StepKeeps<H(!new)>(p: Prog, env: Env<H>, i: nat, m: Machine<H>)
    requires Accepted(p) && GoodEnv(env) && m.Valid()
    ensures KeptFrom(m, SrcStep(p, env, i, m))
  {
    hide Planned, Marked, Linked, Alu, Bulk, DoLoad, DoStore, Taken, Land, TargetNear, Wrap;
    if i < |p.code| {
      match Cur(p, i)
      case Load(k, rd, rs1, imm) => LoadKeeps(env, m, k, rd, Wrap(m.x[rs1] + imm));
      case Store(k, rs2, rs1, imm) => StoreKeeps(env, m, k, Wrap(m.x[rs1] + imm), m.x[rs2]);
      case Memop(f3, rd, rs1, rs2) => BulkKeeps(env, m, f3, rd, rs1, rs2);
      case _ =>
    }
  }

  lemma {:induction false} RunKeeps<H(!new)>(p: Prog, env: Env<H>, n: nat, i: nat, m: Machine<H>)
    requires Accepted(p) && GoodEnv(env) && m.Valid()
    ensures KeptFrom(m, SrcRun(p, env, n, i, m))
  {
    hide Accepted, GoodEnv, SrcStep;
    if n > 0 {
      StepKeeps(p, env, i, m);
      match SrcStep(p, env, i, m)
      case Next(j, m') => RunKeeps(p, env, n - 1, j, m');
      case _ =>
    }
  }

  // ---- the correspondence ----

  /** The source state and the op state are the same machine, x0 zero and its regions in place,
      at corresponding places. */
  ghost predicate Corresponds<H>(p: Prog, src: Outcome<H>, op: OpState<H>) {
    match src
    case Next(j, m) => op == Running(OpAt(p.plan, j), m) && Head(p.plan, j) && j < |p.code| && m.Valid() && Ready(m.mem)
    case Stopped(j, m) => op == Halted(OpAt(p.plan, j), m) && Head(p.plan, j) && j < |p.code| && m.Valid()
    case Wild => false
  }

  /** What is asked of one source run: it never leaves the program it was transcoded from,
      and the units it reaches are safe. */
  ghost predicate SafeAt<H>(p: Prog, env: Env<H>, i: nat, m: Machine<H>, n: nat) {
    match SrcRun(p, env, n, i, m)
    case Next(j, m') => j < |p.code| && (Head(p.plan, j) ==> UnitSafe(p, env, j, m'))
    case Stopped(_, _) => true
    case Wild => false
  }

  ghost predicate SafeRun<H>(p: Prog, env: Env<H>, i: nat, m: Machine<H>) {
    forall n: nat :: SafeAt(p, env, i, m, n)
  }

  lemma SafeLater<H>(p: Prog, env: Env<H>, i: nat, m: Machine<H>, n: nat, j: nat, m': Machine<H>)
    requires SafeRun(p, env, i, m) && SrcRun(p, env, n, i, m) == Next(j, m')
    ensures SafeRun(p, env, j, m')
  {
    hide SrcStep, UnitSafe;
    forall b: nat
      ensures SafeAt(p, env, j, m', b)
    {
      SrcRunSplit(p, env, n, b, i, m);
      assert SafeAt(p, env, i, m, n + b);
    }
  }

  /** A safe run starts inside the code, at a safe unit if at one. */
  lemma Inside<H>(p: Prog, env: Env<H>, i: nat, m: Machine<H>)
    requires SafeRun(p, env, i, m)
    ensures i < |p.code| && (Head(p.plan, i) ==> UnitSafe(p, env, i, m))
  {
    hide SrcStep, UnitSafe;
    assert SafeAt(p, env, i, m, 0);
  }

  /** A dropped nop: one instruction, no op word, no fuel. */
  lemma NopUnit<H>(p: Prog, env: Env<H>, i: nat, m: Machine<H>, j: nat)
    requires Accepted(p) && i < |p.code| && Head(p.plan, i) && D(p, i).Nop? && j == i + 1
    ensures SrcRun(p, env, 1, i, m) == Next(j, m) && FuelOf(p, env, 1, i, m) == 0
    ensures Head(p.plan, j) && OpAt(p.plan, j) == OpAt(p.plan, i)
  {
    hide Marked, SrcStep, SrcRun, FuelOf, Step, FinalOp, TargetNear;
    NopAlone(p, i);
    assert p.plan.width[i] == Width(p, i) && p.plan.words[i] == WordsAt(p, i);
    AfterUnit(p.plan, i);
    NopStutters(p, env, i, m);
    Run1(p, env, i, m);
    FuelOne(p, env, i, m);
  }

  /** Dropped nops are finite stutters: the run comes to a unit that emits an op, the op
      cursor not moving. */
  lemma {:induction false} SkipNops<H>(p: Prog, env: Env<H>, i: nat, m: Machine<H>) returns (n: nat, j: nat)
    requires Accepted(p) && Head(p.plan, i) && SafeRun(p, env, i, m) && i <= |p.code|
    ensures SrcRun(p, env, n, i, m) == Next(j, m) && j < |p.code| && !D(p, j).Nop? && FuelOf(p, env, n, i, m) == 0
    ensures Head(p.plan, j) && OpAt(p.plan, j) == OpAt(p.plan, i)
    decreases |p.code| - i
  {
    hide Accepted, SafeRun, SrcStep, UnitSafe, SrcRun, FuelOf;
    FuelOne(p, env, i, m);
    Run1(p, env, i, m);
    Inside(p, env, i, m);
    if D(p, i).Nop? {
      NopUnit(p, env, i, m, i + 1);
      SafeLater(p, env, i, m, 1, i + 1, m);
      var n', j' := SkipNops(p, env, i + 1, m);
      SrcRunSplit(p, env, 1, n', i, m);
      FuelSplit(p, env, 1, n', i, m);
      n, j := 1 + n', j';
    } else {
      n, j := 0, i;
    }
  }

  /** After w instructions, no fewer than one, the source is where one op leads, at the same cost. */
  ghost predicate Advances<H>(p: Prog, ops: seq<Word>, env: Env<H>, i: nat, m: Machine<H>, w: nat) {
    && w >= 1 && Corresponds(p, SrcRun(p, env, w, i, m), OpStep(ops, env, OpAt(p.plan, i), m))
    && FuelOf(p, env, w, i, m) == OpCharge(ops, env, OpAt(p.plan, i), m)
  }

  /** What a run is asked to start from. */
  ghost predicate Started<H(!new)>(p: Prog, ops: seq<Word>, env: Env<H>, i: nat, m: Machine<H>) {
    && Accepted(p) && Emitted(p, ops) && GoodEnv(env) && m.Valid() && Ready(m.mem)
    && Head(p.plan, i) && SafeRun(p, env, i, m)
  }

  /** What the op of a unit does and charges. */
  lemma UnitOp<H(!new)>(p: Prog, ops: seq<Word>, env: Env<H>, i: nat, m: Machine<H>)
    requires Started(p, ops, env, i, m) && !D(p, i).Nop?
    ensures OpAt(p.plan, i) < |ops| && RunsAs(p, env, OpIn(ops, OpAt(p.plan, i)), i, m)
    ensures FuelOf(p, env, Width(p, i), i, m) == OpCharge(ops, env, OpAt(p.plan, i), m)
    ensures UnitRun(p, env, i, m) == SrcRun(p, env, Width(p, i), i, m)
  {
    hide Emitted, GoodEnv, SafeRun, SrcRun, Exec, OpIn, OpOf, FuelOf, UnitCharge, UnitSafe, RunsAs, Marked, Linked, TargetNear;
    Inside(p, env, i, m);
    UnitSimulates(p, env, i, m);
    FetchesUnit(p, ops, i);
    ChargeExact(p, env, i, m);
    UnitFuel(p, env, i, m, Step(p, i));
    assert p.plan.width[i] == Width(p, i);
  }

  lemma SafeOnce<H>(p: Prog, env: Env<H>, i: nat, m: Machine<H>, n: nat)
    requires SafeRun(p, env, i, m)
    ensures SafeAt(p, env, i, m, n)
  {
    hide SafeAt;
  }

  /** Wherever a safe run comes to a head, there is an op to execute. */
  lemma Landed<H>(p: Prog, ops: seq<Word>, env: Env<H>, j: nat, m: Machine<H>)
    requires Accepted(p) && Emitted(p, ops) && SafeRun(p, env, j, m) && Head(p.plan, j)
    ensures j < |p.code| && OpAt(p.plan, j) < |ops|
  {
    hide Accepted, Emitted, SafeRun, SrcStep, UnitSafe, FuelOf, SrcRun;
    Inside(p, env, j, m);
    var s, t := SkipNops(p, env, j, m);
    FetchesUnit(p, ops, t);
  }

  /** One op step from a unit head that emits an op. */
  lemma OneOp<H(!new)>(p: Prog, ops: seq<Word>, env: Env<H>, i: nat, m: Machine<H>)
    requires Started(p, ops, env, i, m) && !D(p, i).Nop?
    ensures Advances(p, ops, env, i, m, Width(p, i))
  {
    hide Accepted, Emitted, GoodEnv, SafeRun, SrcRun, Exec, OpIn, FuelOf, Step;
    UnitOp(p, ops, env, i, m);
    var w := Width(p, i);
    RunKeeps(p, env, w, i, m);
    match SrcRun(p, env, w, i, m)
    case Next(j, m') =>
      SafeLater(p, env, i, m, w, j, m');
      Landed(p, ops, env, j, m');
    case Stopped(_, _) => Inside(p, env, i, m);
    case Wild => SafeOnce(p, env, i, m, w);
  }

  /** One op from any unit head: nops skipped, then the unit's instructions. */
  lemma Advance<H(!new)>(p: Prog, ops: seq<Word>, env: Env<H>, i: nat, m: Machine<H>) returns (w: nat)
    requires Started(p, ops, env, i, m)
    ensures Advances(p, ops, env, i, m, w)
  {
    hide Accepted, Emitted, GoodEnv, SafeRun, SrcRun, OpStep, OpCharge, FuelOf, Step, Corresponds;
    Inside(p, env, i, m);
    var s, j := SkipNops(p, env, i, m);
    SafeLater(p, env, i, m, s, j, m);
    OneOp(p, ops, env, j, m);
    SrcRunSplit(p, env, s, Width(p, j), i, m);
    FuelSplit(p, env, s, Width(p, j), i, m);
    w := s + Width(p, j);
  }

  /** Up to k more ops. */
  function OpRunFrom<H>(ops: seq<Word>, env: Env<H>, k: nat, s: OpState<H>): OpState<H> {
    match s
    case Running(q, m) => OpRun(ops, env, k, q, m)
    case _ => s
  }

  /** The fuel they charge. */
  function OpFuelFrom<H>(ops: seq<Word>, env: Env<H>, k: nat, s: OpState<H>): nat {
    match s
    case Running(q, m) => OpFuel(ops, env, k, q, m)
    case _ => 0
  }

  lemma OpRunOn<H>(ops: seq<Word>, env: Env<H>, n: nat, k: nat, q: nat, m: Machine<H>)
    requires n == k + 1
    ensures OpRun(ops, env, 0, q, m) == Running(q, m) && OpFuel(ops, env, 0, q, m) == 0
    ensures OpRun(ops, env, n, q, m) == OpRunFrom(ops, env, k, OpStep(ops, env, q, m))
    ensures OpFuel(ops, env, n, q, m) == OpCharge(ops, env, q, m) + OpFuelFrom(ops, env, k, OpStep(ops, env, q, m))
  {
    hide OpStep, OpCharge;
  }

  /** Transcoding preserves meaning over every run: after any number of ops, the op machine
      is where the source machine is after at least that many instructions, with the same
      registers (x0 zero), memory and host state, and has charged what they cost. */
  lemma {:induction false} Preserves<H(!new)>(p: Prog, ops: seq<Word>, env: Env<H>, i: nat, m: Machine<H>, k: nat) returns (n: nat)
    requires Started(p, ops, env, i, m)
    ensures n >= k || SrcRun(p, env, n, i, m).Stopped?
    ensures Corresponds(p, SrcRun(p, env, n, i, m), OpRun(ops, env, k, OpAt(p.plan, i), m))
    ensures OpFuel(ops, env, k, OpAt(p.plan, i), m) == FuelOf(p, env, n, i, m)
    decreases k
  {
    hide Accepted, Emitted, GoodEnv, SafeRun, SrcRun, OpStep, OpCharge, FuelOf, Step, OpRun, OpFuel, SrcStep;
    FuelOne(p, env, i, m);
    Run1(p, env, i, m);
    if k == 0 {
      Inside(p, env, i, m);
      OpRunOn(ops, env, 1, 0, OpAt(p.plan, i), m);
      n := 0;
    } else {
      OpRunOn(ops, env, k, k - 1, OpAt(p.plan, i), m);
      n := Advance(p, ops, env, i, m);
      match SrcRun(p, env, n, i, m)
      case Next(j, m') =>
        SafeLater(p, env, i, m, n, j, m');
        var n' := Preserves(p, ops, env, j, m', k - 1);
        SrcRunSplit(p, env, n, n', i, m);
        FuelSplit(p, env, n, n', i, m);
        n := n + n';
      case _ =>
    }
  }
}
