/** The evaluator's loop under a fuel budget. */
module Batches {
  import opened Words
  import opened Isa
  import opened Machines
  import opened Transcoding
  import opened Evaluator
  import opened WholeRuns

  /** How a batch ends. Paused: back to the caller with the address to resume at. Ended: a
      handler stopped. Lost: the cursor ran past the ops. */
  datatype How = Paused | Ended | Lost

  /** A batch's end: `k` is the fuel charged, `pc` the address it ended with. */
  datatype End<H> = End(how: How, k: nat, pc: Word, m: Machine<H>)

  /** The effect charges fuel, and unless it jumps or stops it moves the cursor forward. */
  predicate MovesOn<H>(e: Effect<H>, q: nat) {
    e.charge >= 1 &&
    match e.flow
    case Fall(n) => n > q
    case Resume(n) => n > q
    case _ => true
  }

  predicate Progresses<H>(ops: seq<Word>, env: Env<H>, q: nat, m: Machine<H>) {
    match OpEffect(ops, env, q, m)
    case Some(e) => q < |ops| && MovesOn(e, q)
    case None => true
  }

  /** Every op charges fuel, and an op that neither jumps nor stops moves the cursor forward:
      a batch ends by (fuel left, ops to the end of the code). */
  lemma Progress<H>(ops: seq<Word>, env: Env<H>, q: nat, m: Machine<H>)
    ensures Progresses(ops, env, q, m)
  {
    hide OpIn, Alu, Taken, SaveAll, RestoreAll, DoLwlw, LoadInto, DoShadd, DoLwsw, Wrap, RanksOf;
  }

  /** The op a batch goes on at after the effect e, k fuel charged so far: only jumps, returns
      and serviced traps look at the budget. */
  function GoesOnAt<H>(ops: seq<Word>, e: Effect<H>, k: nat, max: nat): Option<nat> {
    match e.flow
    case Fall(n) => Some(n)
    case Jump(n) => if k >= max then None else Some(n)
    case JumpReg(t) => if t >= 4 * |ops| || k >= max then None else Some(t / 4)
    case Resume(n) => if k >= max then None else Some(n)
    case Halt => None
  }

  /** How it ends when it does not go on. */
  function EndsWith<H>(q: nat, e: Effect<H>, k: nat): End<H> {
    match e.flow
    case Fall(n) => End(Paused, k, Wrap(4 * n), e.m)
    case Jump(n) => End(Paused, k, Wrap(4 * n), e.m)
    case JumpReg(t) => End(Paused, k, t, e.m)
    case Resume(n) => End(Paused, k, Wrap(4 * n), e.m)
    case Halt => End(Ended, k, Wrap(4 * q), e.m)
  }

  /** Ops from q on, k fuel already charged. */
  function Batch<H>(ops: seq<Word>, env: Env<H>, q: nat, m: Machine<H>, k: nat, max: nat): End<H>
    decreases if k < max then max - k else 0, |ops| - q
  {
    match OpEffect(ops, env, q, m)
    case None => End(How.Lost, k, 0, m)
    case Some(e) =>
      Progress(ops, env, q, m);
      match GoesOnAt(ops, e, k + e.charge, max)
      case Some(n) => Batch(ops, env, n, e.m, k + e.charge, max)
      case None => EndsWith(q, e, k + e.charge)
  }

  /** One call of the engine: nothing runs when the resume address is outside the code. */
  function Loop<H>(ops: seq<Word>, env: Env<H>, pc: Word, m: Machine<H>, max: nat): End<H> {
    if pc >= 4 * |ops| then End(Paused, 0, pc, m) else Batch(ops, env, pc / 4, m, 0, max)
  }

  function Later<H>(r: End<H>, j: nat): End<H> {
    r.(k := r.k + j)
  }

  /** Fuel already charged only shifts the count. */
  lemma {:induction false} BatchShift<H>(ops: seq<Word>, env: Env<H>, q: nat, m: Machine<H>, k: nat, max: nat, j: nat, k': nat, max': nat)
    requires k' == k + j && max' == max + j
    ensures Batch(ops, env, q, m, k', max') == Later(Batch(ops, env, q, m, k, max), j)
    decreases if k < max then max - k else 0, |ops| - q
  {
    hide OpEffect, Wrap;
    Progress(ops, env, q, m);
    match OpEffect(ops, env, q, m)
    case None =>
    case Some(e) =>
      match GoesOnAt(ops, e, k + e.charge, max)
      case Some(n) => BatchShift(ops, env, n, e.m, k + e.charge, max, j, k' + e.charge, max');
      case None =>
  }

  /** The op words are addressable. */
  predicate Addressable(ops: seq<Word>) {
    4 * |ops| < 0x1_0000_0000
  }

  /** The batch ended for good: stopped, lost, or at an address outside the code. */
  predicate Over<H>(ops: seq<Word>, r: End<H>) {
    !r.how.Paused? || r.pc >= 4 * |ops|
  }

  /** Without a stop or a jump out of the code, a batch that pauses would have gone on at the op
      its resume address names. */
  predicate PausesRight<H>(ops: seq<Word>, q: nat, e: Effect<H>, k: nat, b: nat) {
    match GoesOnAt(ops, e, k, b)
    case Some(n) => n < |ops| ==> !Over(ops, EndsWith(q, e, k)) && EndsWith(q, e, k).pc / 4 == n
    case None => k < b ==> Over(ops, EndsWith(q, e, k))
  }

  lemma Pausing<H>(ops: seq<Word>, q: nat, e: Effect<H>, k: nat, b: nat)
    requires Addressable(ops)
    ensures PausesRight(ops, q, e, k, b)
  {
  }

  lemma LostIsOver<H>(ops: seq<Word>, r: End<H>)
    requires r.how.Lost?
    ensures Over(ops, r)
  {
  }

  /** Past the ops a batch is lost. */
  lemma InsideCode<H>(ops: seq<Word>, env: Env<H>, e: Effect<H>, k: nat, b: nat)
    ensures match GoesOnAt(ops, e, k, b)
            case Some(n) => n >= |ops| ==> Batch(ops, env, n, e.m, k, b).how.Lost?
            case None => true
  {
    hide Exec;
  }

  /** A batch that ends before its budget is looked at ends the same way under any larger one. */
  lemma {:induction false} BatchEnds<H>(ops: seq<Word>, env: Env<H>, q: nat, m: Machine<H>, k: nat, a: nat, b: nat)
    requires a <= b && Addressable(ops) && Over(ops, Batch(ops, env, q, m, k, a)) && !Batch(ops, env, q, m, k, b).how.Lost?
    ensures Batch(ops, env, q, m, k, b) == Batch(ops, env, q, m, k, a)
    decreases if k < a then a - k else 0, |ops| - q
  {
    hide OpEffect, EndsWith, Over;
    Progress(ops, env, q, m);
    match OpEffect(ops, env, q, m)
    case None =>
    case Some(e) =>
      Pausing(ops, q, e, k + e.charge, b);
      match GoesOnAt(ops, e, k + e.charge, a)
      case Some(n) => BatchEnds(ops, env, n, e.m, k + e.charge, a, b);
      case None => InsideCode(ops, env, e, k + e.charge, b);
  }

  /** Pausing inside the code at one budget and going on with a larger one is running with the
      larger one. */
  lemma {:induction false} BatchSplit<H>(ops: seq<Word>, env: Env<H>, q: nat, m: Machine<H>, k: nat, a: nat, b: nat, r: End<H>, q': nat)
    requires r == Batch(ops, env, q, m, k, a) && !Over(ops, r) && q' == r.pc / 4
    requires a <= b && r.k < b && Addressable(ops) && !Batch(ops, env, q, m, k, b).how.Lost?
    ensures Batch(ops, env, q, m, k, b) == Batch(ops, env, q', r.m, r.k, b)
    decreases if k < a then a - k else 0, |ops| - q
  {
    hide OpEffect, Wrap, Over;
    Progress(ops, env, q, m);
    match OpEffect(ops, env, q, m)
    case None => LostIsOver(ops, r);
    case Some(e) =>
      Pausing(ops, q, e, k + e.charge, b);
      match GoesOnAt(ops, e, k + e.charge, a)
      case Some(n) => BatchSplit(ops, env, n, e.m, k + e.charge, a, b, r, q');
      case None => InsideCode(ops, env, e, k + e.charge, b);
  }

  /** A batch from inside the code charges something, and a pause inside the code has used up
      its budget. */
  lemma {:induction false} BatchCharges<H>(ops: seq<Word>, env: Env<H>, q: nat, m: Machine<H>, k: nat, max: nat, r: End<H>)
    requires Addressable(ops) && r == Batch(ops, env, q, m, k, max)
    ensures !r.how.Lost? ==> r.k > k
    ensures !Over(ops, r) ==> r.k >= max
    decreases if k < max then max - k else 0, |ops| - q
  {
    hide OpEffect, Over;
    Progress(ops, env, q, m);
    match OpEffect(ops, env, q, m)
    case None => LostIsOver(ops, r);
    case Some(e) =>
      Pausing(ops, q, e, k + e.charge, max);
      match GoesOnAt(ops, e, k + e.charge, max)
      case Some(n) => BatchCharges(ops, env, n, e.m, k + e.charge, max, r);
      case None =>
  }

  /** A batch is a run of some number of ops: it stops where that run is. */
  ghost predicate EndsAs<H>(r: End<H>, s: OpState<H>) {
    match s
    case Running(q, m) => r.how.Paused? && r.m == m && (r.pc == Wrap(4 * q) || r.pc / 4 == q)
    case Left(t, m) => r.how.Paused? && r.m == m && r.pc == t
    case Halted(q, m) => r.how.Ended? && r.m == m && r.pc == Wrap(4 * q)
    case Lost => r.how.Lost?
  }

  lemma {:induction false} BatchIsRun<H>(ops: seq<Word>, env: Env<H>, q: nat, m: Machine<H>, k: nat, max: nat) returns (n: nat)
    ensures EndsAs(Batch(ops, env, q, m, k, max), OpRun(ops, env, n, q, m))
    ensures Batch(ops, env, q, m, k, max).k == k + OpFuel(ops, env, n, q, m)
    decreases if k < max then max - k else 0, |ops| - q
  {
    hide OpEffect, Wrap;
    Progress(ops, env, q, m);
    n := 1;
    OpRunOn(ops, env, 1, 0, q, m);
    match OpEffect(ops, env, q, m)
    case None =>
    case Some(e) =>
      OpRunOn(ops, env, 1, 0, q, e.m);
      match GoesOnAt(ops, e, k + e.charge, max)
      case Some(next) =>
        var n' := BatchIsRun(ops, env, next, e.m, k + e.charge, max);
        OpRunOn(ops, env, n' + 1, n', q, m);
        n := n' + 1;
      case None =>
  }

  // ---- overshoot ----

  /** What the ops from q on charge up to the first that does not simply fall through. */
  function StraightFuel<H>(ops: seq<Word>, env: Env<H>, q: nat, m: Machine<H>): nat
    decreases |ops| - q
  {
    match OpEffect(ops, env, q, m)
    case None => 0
    case Some(e) =>
      Progress(ops, env, q, m);
      if e.flow.Fall? then e.charge + StraightFuel(ops, env, e.flow.next, e.m) else e.charge
  }

  /** The batch went over `max`, if at all, only by the last of its straight-line runs: n ops
      charged less than the budget, and what they led to ran straight on to the batch's end. */
  ghost predicate Overshoots<H>(ops: seq<Word>, env: Env<H>, q: nat, m: Machine<H>, k: nat, max: nat, used: nat, n: nat) {
    k + OpFuel(ops, env, n, q, m) < max &&
    match OpRun(ops, env, n, q, m)
    case Running(q', m') => used == k + OpFuel(ops, env, n, q, m) + StraightFuel(ops, env, q', m')
    case _ => false
  }

  lemma {:induction false} OpRunSplit<H>(ops: seq<Word>, env: Env<H>, a: nat, b: nat, c: nat, q: nat, m: Machine<H>)
    requires c == a + b
    ensures OpRun(ops, env, c, q, m) == OpRunFrom(ops, env, b, OpRun(ops, env, a, q, m))
    ensures OpFuel(ops, env, c, q, m) == OpFuel(ops, env, a, q, m) + OpFuelFrom(ops, env, b, OpRun(ops, env, a, q, m))
    decreases a
  {
    hide OpStep, OpCharge;
    if a > 0 {
      match OpStep(ops, env, q, m)
      case Running(q', m') => OpRunSplit(ops, env, a - 1, b, c - 1, q', m');
      case _ =>
    }
  }

  /** n ops from q on make up one straight-line run, after which the batch is over or looks at
      its budget with some of it left. */
  ghost predicate RunsStraight<H>(ops: seq<Word>, env: Env<H>, q: nat, m: Machine<H>, k: nat, max: nat, n: nat) {
    var f, r := StraightFuel(ops, env, q, m), Batch(ops, env, q, m, k, max);
    r.k == k + f ||
    (f >= 1 && k + f < max && OpFuel(ops, env, n, q, m) == f &&
     match OpRun(ops, env, n, q, m)
     case Running(q', m') => r == Batch(ops, env, q', m', k + f, max)
     case _ => false)
  }

  lemma {:induction false} StraightRun<H>(ops: seq<Word>, env: Env<H>, q: nat, m: Machine<H>, k: nat, max: nat) returns (n: nat)
    ensures RunsStraight(ops, env, q, m, k, max, n)
    decreases |ops| - q
  {
    hide OpEffect, Wrap, OpRun, OpFuel;
    Progress(ops, env, q, m);
    n := 1;
    OpRunOn(ops, env, 1, 0, q, m);
    match OpEffect(ops, env, q, m)
    case None =>
    case Some(e) =>
      match GoesOnAt(ops, e, k + e.charge, max)
      case None =>
      case Some(next) =>
        OpRunOn(ops, env, 1, 0, next, e.m);
        if e.flow.Fall? {
          var n' := StraightRun(ops, env, next, e.m, k + e.charge, max);
          OpRunOn(ops, env, n' + 1, n', q, m);
          n := n' + 1;
        }
  }

  /** A batch goes over its budget by at most one straight-line run. */
  lemma {:induction false} Overshoot<H>(ops: seq<Word>, env: Env<H>, q: nat, m: Machine<H>, k: nat, max: nat) returns (n: nat)
    requires k < max
    ensures Overshoots(ops, env, q, m, k, max, Batch(ops, env, q, m, k, max).k, n)
    decreases max - k
  {
    hide Batch, StraightFuel, OpRun, OpFuel;
    n := StraightRun(ops, env, q, m, k, max);
    var f := StraightFuel(ops, env, q, m);
    OpRunOn(ops, env, 1, 0, q, m);
    if Batch(ops, env, q, m, k, max).k == k + f {
      n := 0;
    } else {
      var s := OpRun(ops, env, n, q, m);
      var n' := Overshoot(ops, env, s.q, s.m, k + f, max);
      OpRunSplit(ops, env, n, n', n + n', q, m);
      n := n + n';
    }
  }
}
