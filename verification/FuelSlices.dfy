/** The embedding run loop: how fuel is sliced does not show in the guest. */
module FuelSlices {
  import opened Words
  import opened Isa
  import opened Machines
  import opened BulkOps
  import opened Fusion
  import opened Transcoding
  import opened Evaluator
  import opened WholeRuns
  import opened Batches

  datatype Status = Done | Runnable | Trapped

  /** An embedded guest: the machine, its resume address, and whether the run loop itself
      declared it trapped. The hooks' own verdict is read from the host state. */
  datatype Guest<H> = Guest(m: Machine<H>, pc: Word, trapped: bool)

  function StatusOf<H>(verdict: H -> Status, g: Guest<H>): Status {
    if g.trapped then Trapped else verdict(g.m.host)
  }

  /** What a slice leaves: the guest, the fuel used, and whether the cursor was lost. */
  datatype Ran<H> = Ran(g: Guest<H>, used: nat, astray: bool)

  /** The slice loop, `total` fuel already used of `fuel`. */
  function RunLoop<H>(ops: seq<Word>, env: Env<H>, verdict: H -> Status, g: Guest<H>, fuel: nat, total: nat): Ran<H>
    decreases if total < fuel then fuel - total else 0
  {
    if total >= fuel then Ran(g, total, false)
    else
      var r := Loop(ops, env, g.pc, g.m, fuel - total);
      if r.how.Lost? then Ran(g, total, true)
      else
        var g' := Guest(r.m, r.pc, g.trapped);
        if StatusOf(verdict, g') != Runnable then Ran(g', total + r.k, false)
        else if r.pc >= 4 * |ops| || r.k == 0 then Ran(g'.(trapped := true), total + r.k, false)
        else RunLoop(ops, env, verdict, g', fuel, total + r.k)
  }

  /** One call with a slice of fuel. */
  function RunSlice<H>(ops: seq<Word>, env: Env<H>, verdict: H -> Status, g: Guest<H>, fuel: nat): Ran<H> {
    if StatusOf(verdict, g) != Runnable then Ran(g, 0, false) else RunLoop(ops, env, verdict, g, fuel, 0)
  }

  // ---- hooks report honestly ----

  /** Only a stopping trap handler ends the guest: callbacks and serviced traps leave it runnable. */
  ghost predicate Honest<H(!new)>(env: Env<H>, verdict: H -> Status) {
    && (forall h, mem, a :: verdict(h).Runnable? ==> verdict(env.load(h, mem, a).0).Runnable?)
    && (forall h, mem, a, v :: verdict(h).Runnable? ==> verdict(env.store(h, mem, a, v).0).Runnable?)
    && (forall m: Machine<H>, pc :: verdict(m.host).Runnable? ==> (env.ecall(m, pc).1 <==> !verdict(env.ecall(m, pc).0.host).Runnable?))
    && (forall m: Machine<H>, pc :: verdict(m.host).Runnable? ==> (env.ebreak(m, pc).1 <==> !verdict(env.ebreak(m, pc).0.host).Runnable?))
    && (forall m: Machine<H>, pc :: verdict(m.host).Runnable? ==> (env.illegal(m, pc).1 <==> !verdict(env.illegal(m, pc).0.host).Runnable?))
  }

  /** The host state is one of a runnable guest. */
  predicate Live<H>(verdict: H -> Status, h: H) {
    verdict(h).Runnable?
  }

  lemma ReadHonest<H(!new)>(env: Env<H>, verdict: H -> Status, h: H, mem: Mem, a: Word, n: Size)
    requires Honest(env, verdict) && Live(verdict, h)
    ensures Live(verdict, Read(env, h, mem, a, n).0)
  {
  }

  lemma WriteHonest<H(!new)>(env: Env<H>, verdict: H -> Status, h: H, mem: Mem, a: Word, n: Size, v: Word)
    requires Honest(env, verdict) && Live(verdict, h)
    ensures Live(verdict, Write(env, h, mem, a, n, v).0)
  {
  }

  lemma CopyByteHonest<H(!new)>(env: Env<H>, verdict: H -> Status, h: H, mem: Mem, to: Word, from: Word)
    requires Honest(env, verdict) && Live(verdict, h)
    ensures Live(verdict, CopyByte(env, h, mem, to, from).0)
  {
    hide Rel;
  }

  lemma {:induction false} CopyHonest<H(!new)>(env: Env<H>, verdict: H -> Status, h: H, mem: Mem, to: Word, from: Word, n: nat, i: nat)
    requires Honest(env, verdict) && Live(verdict, h) && i <= n
    ensures Live(verdict, CopySteps(env, h, mem, to, from, n, i).0)
    decreases n - i
  {
    hide Honest, Live, CopyByte, Wrap;
    if i < n {
      var j := CopyIndex(to, from, n, i);
      var (h1, mem1) := CopyByte(env, h, mem, Wrap(to + j), Wrap(from + j));
      CopyByteHonest(env, verdict, h, mem, Wrap(to + j), Wrap(from + j));
      CopyHonest(env, verdict, h1, mem1, to, from, n, i + 1);
    }
  }

  lemma {:induction false} FillHonest<H(!new)>(env: Env<H>, verdict: H -> Status, h: H, mem: Mem, to: Word, v: Word, n: nat, i: nat)
    requires Honest(env, verdict) && Live(verdict, h) && i <= n
    ensures Live(verdict, FillSteps(env, h, mem, to, v, n, i).0)
    decreases n - i
  {
    if i < n {
      var w := Rel(Wrap(to + i), mem.wbase);
      var (h1, mem1) :=
        if w < |mem.ram| then (h, mem.(ram := mem.ram[w := v % 0x100]))
        else env.store(h, mem, Wrap(to + i), v);
      FillHonest(env, verdict, h1, mem1, to, v, n, i + 1);
    }
  }

  lemma BulkHonest<H(!new)>(env: Env<H>, verdict: H -> Status, m: Machine<H>, f3: nat, rd: Reg, rs1: Reg, rs2: Reg)
    requires Honest(env, verdict) && Live(verdict, m.host)
    ensures Live(verdict, Bulk(env, m, f3, rd, rs1, rs2).0.host)
  {
    hide Honest, Live, Wrap;
    CopyHonest(env, verdict, m.host, m.mem, m.x[rd], m.x[rs1], m.x[rs2], 0);
    FillHonest(env, verdict, m.host, m.mem, m.x[rd], m.x[rs1], m.x[rs2], 0);
  }

  lemma {:induction false} SlowSaveHonest<H(!new)>(env: Env<H>, verdict: H -> Status, h: H, mem: Mem, x: Regs, ranks: seq<RankNo>, a: Word)
    requires Honest(env, verdict) && Live(verdict, h)
    ensures Live(verdict, SlowSave(env, h, mem, x, ranks, a).0)
    decreases |ranks|
  {
    hide Honest, Live, Wrap, Write;
    if ranks != [] {
      var (h1, mem1) := WriteWord(env, h, mem, Wrap(a - 4), x[RankReg(ranks[0])]);
      WriteHonest(env, verdict, h, mem, Wrap(a - 4), 4, x[RankReg(ranks[0])]);
      SlowSaveHonest(env, verdict, h1, mem1, x, ranks[1..], Wrap(a - 4));
    }
  }

  lemma {:induction false} SlowRestoreHonest<H(!new)>(env: Env<H>, verdict: H -> Status, m: Machine<H>, ranks: seq<RankNo>, a: Word)
    requires Honest(env, verdict) && Live(verdict, m.host)
    ensures Live(verdict, SlowRestore(env, m, ranks, a).host)
    decreases |ranks|
  {
    hide Honest, Live, Wrap, Read;
    if ranks != [] {
      var (h1, mem1, v) := ReadWord(env, m.host, m.mem, Wrap(a - 4));
      ReadHonest(env, verdict, m.host, m.mem, Wrap(a - 4), 4);
      SlowRestoreHonest(env, verdict, Machine(m.x[RankReg(ranks[0]) := v], mem1, h1), ranks[1..], Wrap(a - 4));
    }
  }

  /** The effect ends the guest exactly when it halts the loop. */
  predicate HonestEffect<H>(verdict: H -> Status, e: Effect<H>) {
    e.flow.Halt? <==> !Live(verdict, e.m.host)
  }

  lemma PlainHonest<H(!new)>(env: Env<H>, verdict: H -> Status, d: Insn, q: nat, m: Machine<H>)
    requires Honest(env, verdict) && Live(verdict, m.host)
    ensures HonestEffect(verdict, ExecOne(env, d, q, m))
  {
    hide Alu, Taken, Extend, Wrap, Bulk, Read, Write;
    match d
    case Load(k, rd, rs1, imm) => ReadHonest(env, verdict, m.host, m.mem, Wrap(m.x[rs1] + imm), LoadSize(k));
    case Store(k, rs2, rs1, imm) => WriteHonest(env, verdict, m.host, m.mem, Wrap(m.x[rs1] + imm), StoreSize(k), m.x[rs2]);
    case Memop(f3, rd, rs1, rs2) => BulkHonest(env, verdict, m, f3, rd, rs1, rs2);
    case _ =>
  }

  lemma TwoReadsHonest<H(!new)>(env: Env<H>, verdict: H -> Status, m: Machine<H>, rd: Reg, rs1: Reg, o1: Word, o2: Word)
    requires Honest(env, verdict) && Live(verdict, m.host)
    ensures Live(verdict, DoLwlw(env, m, rd, rs1, o1, o2).host)
  {
    hide Honest, Live, Wrap, Read;
    var (h, mem, v) := ReadWord(env, m.host, m.mem, Wrap(m.x[rs1] + o1));
    ReadHonest(env, verdict, m.host, m.mem, Wrap(m.x[rs1] + o1), 4);
    ReadHonest(env, verdict, h, mem, Wrap(v + o2), 4);
  }

  lemma LoadStoreHonest<H(!new)>(env: Env<H>, verdict: H -> Status, m: Machine<H>, rd: Reg, rs1: Reg, rs2: Reg, o1: Word, o2: Word)
    requires Honest(env, verdict) && Live(verdict, m.host)
    ensures Live(verdict, DoLwsw(env, m, rd, rs1, rs2, o1, o2).host)
  {
    hide Honest, Live, Wrap, Read, Write;
    var (h, mem, v) := ReadWord(env, m.host, m.mem, Wrap(m.x[rs1] + o1));
    ReadHonest(env, verdict, m.host, m.mem, Wrap(m.x[rs1] + o1), 4);
    WriteHonest(env, verdict, h, mem, Wrap(m.x[rd := v][rs2] + o2), 4, v);
  }

  /** On a ready host the op ends the guest exactly when it halts the loop. */
  ghost predicate HonestOp<H>(verdict: H -> Status, env: Env<H>, op: Op, q: nat, m: Machine<H>) {
    Ready(m.mem) ==> HonestEffect(verdict, Exec(env, op, q, m))
  }

  lemma ExecHonest<H(!new)>(env: Env<H>, verdict: H -> Status, op: Op, q: nat, m: Machine<H>)
    requires Honest(env, verdict) && Live(verdict, m.host)
    ensures HonestOp(verdict, env, op, q, m)
  {
    hide ExecOne, Honest, Extend, Wrap, SlowSave, SlowRestore, FrameTop, Live, Read, Write, DoLwlw, DoLwsw, ClearBit0, SignExtend;
    match op
    case One(d) => PlainHonest(env, verdict, d, q, m);
    case Prologue(mask, frame) => SlowSaveHonest(env, verdict, m.host, m.mem, m.x, RanksOf(mask), m.x[2]);
    case Epilogue(mask, frame) => SlowRestoreHonest(env, verdict, m, RanksOf(mask), Wrap(m.x[2] + frame));
    case Lwx(rd, rs1, rs2, off) => ReadHonest(env, verdict, m.host, m.mem, Wrap(m.x[rs1] + m.x[rs2] + off), 4);
    case Lwlw(rd, rs1, o1, o2) => TwoReadsHonest(env, verdict, m, rd, rs1, o1, o2);
    case Vcall(rd, rs1, o1, o2) => TwoReadsHonest(env, verdict, m, rd, rs1, o1, o2);
    case Lwsw(rd, rs1, rs2, o1, o2) => LoadStoreHonest(env, verdict, m, rd, rs1, rs2, o1, o2);
    case LoadBz(byte, rd, rs1, off, t, z) =>
      ReadHonest(env, verdict, m.host, m.mem, Wrap(m.x[rs1] + off), LoadSize(if byte then LBU else LW));
    case _ =>
  }

  /** The batch ended the guest exactly when a handler stopped it. */
  predicate HonestEnd<H>(verdict: H -> Status, r: End<H>) {
    r.how.Lost? || (r.how.Ended? <==> !Live(verdict, r.m.host))
  }

  lemma {:induction false} BatchHonest<H(!new)>(ops: seq<Word>, env: Env<H>, verdict: H -> Status, q: nat, m: Machine<H>, k: nat, max: nat)
    requires Honest(env, verdict) && Live(verdict, m.host)
    ensures HonestEnd(verdict, Batch(ops, env, q, m, k, max))
    decreases if k < max then max - k else 0, |ops| - q
  {
    hide Exec, OpIn, Wrap, Honest, Live;
    Progress(ops, env, q, m);
    ExecHonest(env, verdict, OpIn(ops, q), q, m);
    match OpEffect(ops, env, q, m)
    case None =>
    case Some(e) =>
      match GoesOnAt(ops, e, k + e.charge, max)
      case Some(n) => BatchHonest(ops, env, verdict, n, e.m, k + e.charge, max);
      case None =>
  }

  // ---- slices ----

  /** The program never sends the cursor off the ops, whatever the budget. */
  ghost predicate Contained<H(!new)>(ops: seq<Word>, env: Env<H>, pc: Word, m: Machine<H>) {
    Addressable(ops) && forall max: nat :: !Loop(ops, env, pc, m, max).how.Lost?
  }

  lemma NeverLost<H(!new)>(ops: seq<Word>, env: Env<H>, pc: Word, m: Machine<H>, max: nat)
    requires Contained(ops, env, pc, m)
    ensures Addressable(ops) && !Loop(ops, env, pc, m, max).how.Lost?
  {
    hide Loop;
  }

  /** A call that pauses inside the code charged its budget, and no call from inside it charges nothing. */
  lemma LoopCharges<H(!new)>(ops: seq<Word>, env: Env<H>, pc: Word, m: Machine<H>, a: nat, r: End<H>)
    requires Contained(ops, env, pc, m) && r == Loop(ops, env, pc, m, a) && !Over(ops, r)
    ensures r.k >= a && r.k >= 1
  {
    hide Batch, Contained;
    NeverLost(ops, env, pc, m, a);
    if pc < 4 * |ops| {
      BatchCharges(ops, env, pc / 4, m, 0, a, r);
    }
  }

  /** Going on from a pause with b more. */
  lemma LoopSplit<H(!new)>(ops: seq<Word>, env: Env<H>, pc: Word, m: Machine<H>, a: nat, b: nat, c: nat, r: End<H>)
    requires Contained(ops, env, pc, m) && r == Loop(ops, env, pc, m, a) && !Over(ops, r) && b >= 1 && c == r.k + b
    ensures Loop(ops, env, pc, m, c) == Later(Loop(ops, env, r.pc, r.m, b), r.k)
  {
    hide Batch, Contained;
    LoopCharges(ops, env, pc, m, a, r);
    NeverLost(ops, env, pc, m, c);
    if pc < 4 * |ops| {
      BatchSplit(ops, env, pc / 4, m, 0, a, c, r, r.pc / 4);
      BatchShift(ops, env, r.pc / 4, r.m, 0, b, r.k, r.k, c);
    }
  }

  /** A batch looks at its budget only after charging, so budgets 0 and 1 are the same. */
  lemma {:induction false} SameBatch<H>(ops: seq<Word>, env: Env<H>, q: nat, m: Machine<H>, k: nat, a: nat, b: nat)
    requires a == 0 && b == 1
    ensures Batch(ops, env, q, m, k, a) == Batch(ops, env, q, m, k, b)
    decreases if q < |ops| then |ops| - q else 0
  {
    hide OpEffect, Wrap;
    Progress(ops, env, q, m);
    match OpEffect(ops, env, q, m)
    case None =>
    case Some(e) =>
      if e.flow.Fall? {
        SameBatch(ops, env, e.flow.next, e.m, k + e.charge, a, b);
      }
  }

  lemma SameLowBudget<H>(ops: seq<Word>, env: Env<H>, pc: Word, m: Machine<H>, a: nat, b: nat)
    requires a == b || (a == 0 && b == 1)
    ensures Loop(ops, env, pc, m, a) == Loop(ops, env, pc, m, b)
  {
    hide Batch;
    if a != b {
      SameBatch(ops, env, pc / 4, m, 0, a, b);
    }
  }

  lemma StaysContained<H(!new)>(ops: seq<Word>, env: Env<H>, pc: Word, m: Machine<H>, a: nat, r: End<H>)
    requires Contained(ops, env, pc, m) && r == Loop(ops, env, pc, m, a) && !Over(ops, r)
    ensures Contained(ops, env, r.pc, r.m)
  {
    hide Loop;
    forall b: nat
      ensures !Loop(ops, env, r.pc, r.m, b).how.Lost?
    {
      var b' := if b == 0 then 1 else b;
      LoopSplit(ops, env, pc, m, a, b', r.k + b', r);
      assert !Loop(ops, env, pc, m, r.k + b').how.Lost?;
      SameLowBudget(ops, env, r.pc, r.m, b, b');
    }
  }

  /** A guest that may run: honest hooks, a contained cursor, not finished. */
  ghost predicate Runs<H(!new)>(ops: seq<Word>, env: Env<H>, verdict: H -> Status, g: Guest<H>) {
    Honest(env, verdict) && Contained(ops, env, g.pc, g.m) && !g.trapped && Live(verdict, g.m.host)
  }

  /** What a slice that was one call leaves: a pc outside the code is a trap. */
  function AsRan<H>(ops: seq<Word>, r: End<H>): Ran<H> {
    Ran(Guest(r.m, r.pc, r.how.Paused? && r.pc >= 4 * |ops|), r.k, false)
  }

  lemma LoopHonest<H(!new)>(ops: seq<Word>, env: Env<H>, verdict: H -> Status, pc: Word, m: Machine<H>, max: nat)
    requires Honest(env, verdict) && Live(verdict, m.host)
    ensures HonestEnd(verdict, Loop(ops, env, pc, m, max))
  {
    hide Batch, Honest;
    BatchHonest(ops, env, verdict, pc / 4, m, 0, max);
  }

  /** Under honest hooks a slice is one call: it pauses full, leaves the code, or was stopped. */
  lemma SliceIsBatch<H(!new)>(ops: seq<Word>, env: Env<H>, verdict: H -> Status, g: Guest<H>, fuel: nat)
    requires Runs(ops, env, verdict, g) && fuel >= 1
    ensures var r := Loop(ops, env, g.pc, g.m, fuel);
            !r.how.Lost? && RunSlice(ops, env, verdict, g, fuel) == AsRan(ops, r) && HonestEnd(verdict, r)
  {
    hide Loop, Honest, Contained;
    var r := Loop(ops, env, g.pc, g.m, fuel);
    NeverLost(ops, env, g.pc, g.m, fuel);
    LoopHonest(ops, env, verdict, g.pc, g.m, fuel);
    if r.how.Paused? && r.pc < 4 * |ops| {
      LoopCharges(ops, env, g.pc, g.m, fuel, r);
      assert RunLoop(ops, env, verdict, Guest(r.m, r.pc, false), fuel, r.k) == Ran(Guest(r.m, r.pc, false), r.k, false);
    }
  }

  /** The slice left the guest runnable. */
  predicate Unfinished<H>(verdict: H -> Status, r: Ran<H>) {
    StatusOf(verdict, r.g).Runnable?
  }

  /** The status a slice reports: Trapped when the pc left the code, else what the hooks say of the
      host, which is Runnable when the slice paused and final when a handler stopped it. */
  lemma SliceStatus<H(!new)>(ops: seq<Word>, env: Env<H>, verdict: H -> Status, g: Guest<H>, fuel: nat, r: End<H>)
    requires Runs(ops, env, verdict, g) && fuel >= 1 && r == Loop(ops, env, g.pc, g.m, fuel)
    ensures var status := StatusOf(verdict, RunSlice(ops, env, verdict, g, fuel).g);
            if r.how.Paused? && r.pc >= 4 * |ops| then status == Trapped
            else status == verdict(r.m.host) && (status == Runnable <==> r.how.Paused?)
  {
    hide Loop, Honest, Contained, RunSlice;
    SliceIsBatch(ops, env, verdict, g, fuel);
  }

  /** r, then what a later slice ran to. */
  function And<H>(r: Ran<H>, later: Ran<H>): Ran<H> {
    later.(used := r.used + later.used)
  }

  /** A slice that leaves the guest runnable, then more fuel, is one slice of both. */
  lemma SliceSplit<H(!new)>(ops: seq<Word>, env: Env<H>, verdict: H -> Status, g: Guest<H>, a: nat, b: nat, c: nat, r: Ran<H>)
    requires Runs(ops, env, verdict, g) && a >= 1 && b >= 1
    requires r == RunSlice(ops, env, verdict, g, a) && Unfinished(verdict, r) && c == r.used + b
    ensures r.used >= a && Runs(ops, env, verdict, r.g)
    ensures RunSlice(ops, env, verdict, g, c) == And(r, RunSlice(ops, env, verdict, r.g, b))
  {
    hide Loop, Honest, Contained, RunSlice;
    SliceIsBatch(ops, env, verdict, g, a);
    var e := Loop(ops, env, g.pc, g.m, a);
    LoopCharges(ops, env, g.pc, g.m, a, e);
    LoopSplit(ops, env, g.pc, g.m, a, b, c, e);
    StaysContained(ops, env, g.pc, g.m, a, e);
    SliceIsBatch(ops, env, verdict, g, c);
    SliceIsBatch(ops, env, verdict, r.g, b);
  }

  /** A slice that finishes the guest finishes it the same way with more fuel. */
  lemma SliceFinishes<H(!new)>(ops: seq<Word>, env: Env<H>, verdict: H -> Status, g: Guest<H>, a: nat, b: nat)
    requires Runs(ops, env, verdict, g) && 1 <= a <= b && !Unfinished(verdict, RunSlice(ops, env, verdict, g, a))
    ensures RunSlice(ops, env, verdict, g, b) == RunSlice(ops, env, verdict, g, a)
  {
    hide Batch, Honest, RunSlice, Contained;
    SliceIsBatch(ops, env, verdict, g, a);
    SliceIsBatch(ops, env, verdict, g, b);
    NeverLost(ops, env, g.pc, g.m, b);
    if g.pc < 4 * |ops| {
      BatchEnds(ops, env, g.pc / 4, g.m, 0, a, b);
    }
  }

  /** The slice went over its fuel, if at all, by the last of its straight-line runs alone. */
  ghost predicate OvershootsBy<H>(ops: seq<Word>, env: Env<H>, g: Guest<H>, fuel: nat, used: nat, n: nat) {
    g.pc >= 4 * |ops| || Overshoots(ops, env, g.pc / 4, g.m, 0, fuel, used, n)
  }

  /** A slice uses less than its fuel before its last straight-line run, and nothing after it. */
  lemma SliceOvershoot<H(!new)>(ops: seq<Word>, env: Env<H>, verdict: H -> Status, g: Guest<H>, fuel: nat) returns (n: nat)
    requires Runs(ops, env, verdict, g) && fuel >= 1
    ensures OvershootsBy(ops, env, g, fuel, RunSlice(ops, env, verdict, g, fuel).used, n)
  {
    hide Honest, Contained, RunSlice, Batch, Overshoots;
    SliceIsBatch(ops, env, verdict, g, fuel);
    n := Overshoot(ops, env, g.pc / 4, g.m, 0, fuel);
  }

  /** Slices one after another. */
  function RunSlices<H>(ops: seq<Word>, env: Env<H>, verdict: H -> Status, g: Guest<H>, slices: seq<nat>): Ran<H>
    decreases |slices|
  {
    if slices == [] then Ran(g, 0, false)
    else
      var r := RunSlice(ops, env, verdict, g, slices[0]);
      if r.astray then r else And(r, RunSlices(ops, env, verdict, r.g, slices[1..]))
  }

  function Sum(s: seq<nat>): nat {
    if s == [] then 0 else s[0] + Sum(s[1..])
  }

  /** There are slices, and each offers fuel. */
  predicate Positive(slices: seq<nat>) {
    slices != [] && forall n :: n in slices ==> n >= 1
  }

  /** Nothing ran. */
  ghost predicate Idle<H>(g: Guest<H>, r: Ran<H>) {
    r == Ran(g, 0, false)
  }

  lemma {:induction false} FinishedStays<H>(ops: seq<Word>, env: Env<H>, verdict: H -> Status, g: Guest<H>, slices: seq<nat>)
    requires !StatusOf(verdict, g).Runnable?
    ensures Idle(g, RunSlices(ops, env, verdict, g, slices))
    decreases |slices|
  {
    hide RunLoop;
    if slices != [] {
      FinishedStays(ops, env, verdict, g, slices[1..]);
    }
  }

  /** Positive slices amount to one slice of at least their sum. */
  lemma {:induction false} SlicesAsOne<H(!new)>(ops: seq<Word>, env: Env<H>, verdict: H -> Status, g: Guest<H>, slices: seq<nat>)
      returns (fuel: nat)
    requires Runs(ops, env, verdict, g) && Positive(slices)
    ensures fuel >= Sum(slices) && fuel >= 1
    ensures RunSlices(ops, env, verdict, g, slices) == RunSlice(ops, env, verdict, g, fuel)
    decreases |slices|
  {
    hide RunSlice, Runs, StatusOf;
    var a, rest := slices[0], slices[1..];
    assert a in slices && forall n :: n in rest ==> n in slices;
    SliceIsBatch(ops, env, verdict, g, a);
    var r := RunSlice(ops, env, verdict, g, a);
    fuel := Sum(slices);
    if !Unfinished(verdict, r) {
      FinishedStays(ops, env, verdict, r.g, rest);
      SliceFinishes(ops, env, verdict, g, a, fuel);
    } else if rest != [] {
      SliceSplit(ops, env, verdict, g, a, 1, r.used + 1, r);
      var b := SlicesAsOne(ops, env, verdict, r.g, rest);
      SliceSplit(ops, env, verdict, g, a, b, r.used + b, r);
      fuel := r.used + b;
    } else {
      assert slices == [a] && Sum(rest) == 0;
    }
  }

  /** Fuel slicing is invisible: once one budget finishes the guest, every list of positive
      slices that offers as much ends with the same state, status and fuel used. */
  lemma SlicingInvisible<H(!new)>(ops: seq<Word>, env: Env<H>, verdict: H -> Status, g: Guest<H>, fuel: nat, slices: seq<nat>)
    requires Runs(ops, env, verdict, g) && fuel >= 1 && !Unfinished(verdict, RunSlice(ops, env, verdict, g, fuel))
    requires Positive(slices) && Sum(slices) >= fuel
    ensures RunSlices(ops, env, verdict, g, slices) == RunSlice(ops, env, verdict, g, fuel)
  {
    hide RunSlice, Runs, StatusOf;
    var all := SlicesAsOne(ops, env, verdict, g, slices);
    SliceFinishes(ops, env, verdict, g, fuel, all);
  }
}
