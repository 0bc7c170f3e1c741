/** The transcoder's source machine against the interpreter, on the same code bytes. */
module EnginesAgree {
  import opened Words
  import opened Isa
  import opened Machines
  import opened BulkOps
  import opened Fusion
  import opened SourceMachine
  import opened Rv32c
  import opened Encodings
  import opened PurvMachine
  import opened Programs
  import opened PurvsTrace
  import opened Layout
  import opened Simulation
  import opened Transcoding
  import opened UnitSimulation
  import opened WholeRuns

  /** The handlers do not look at the word or address they are told, and the illegal hook serves
      the bulk instruction, at least where it does not name x0. */
  ghost predicate Alike<H(!new)>(env: Env<H>) {
    && (forall m, a, b :: env.ecall(m, a) == env.ecall(m, b))
    && (forall m, a, b :: env.ebreak(m, a) == env.ebreak(m, b))
    && (forall m, f3: Funct3, rd, rs1, rs2 {:trigger RType(0, rs2, rs1, f3, rd, 0x0b), env.illegal(m, RType(0, rs2, rs1, f3, rd, 0x0b))} ::
          rd != 0 ==> env.illegal(m, RType(0, rs2, rs1, f3, rd, 0x0b)) == (Bulk(env, m, f3, rd, rs1, rs2).0, false))
  }

  /** An instruction whose effect names no code address (no link, no indirect jump) and that keeps
      x0 zero. */
  predicate Plain(d: Insn) {
    !d.Jalr? && !d.Illegal? && (d.Jal? ==> d.rd == 0) && (d.Memop? ==> d.rd != 0)
  }

  // ---- such a host ----

  /** A host's handlers with an illegal hook that serves the bulk instruction by its fields. */
  function Hosting<H>(base: Env<H>): Env<H> {
    base.(illegal := (m: Machine<H>, w: Word) =>
      if w % 128 == 0x0b && F7Of(w) == 0 && RdOf(w) != 0 then (Bulk(base, m, F3Of(w), RdOf(w), Rs1Of(w), Rs2Of(w)).0, false)
      else base.illegal(m, w))
  }

  lemma SameByte<H>(env: Env<H>, env': Env<H>, h: H, mem: Mem, to: Word, from: Word)
    requires env.load == env'.load && env.store == env'.store
    ensures CopyByte(env, h, mem, to, from) == CopyByte(env', h, mem, to, from)
  {
  }

  lemma {:induction false} SameCopy<H>(env: Env<H>, env': Env<H>, h: H, mem: Mem, to: Word, from: Word, n: nat, i: nat)
    requires i <= n && env.load == env'.load && env.store == env'.store
    ensures CopySteps(env, h, mem, to, from, n, i) == CopySteps(env', h, mem, to, from, n, i)
    decreases n - i
  {
    hide Wrap, CopyByte;
    if i < n {
      var j := CopyIndex(to, from, n, i);
      SameByte(env, env', h, mem, Wrap(to + j), Wrap(from + j));
      var (h1, mem1) := CopyByte(env, h, mem, Wrap(to + j), Wrap(from + j));
      SameCopy(env, env', h1, mem1, to, from, n, i + 1);
    }
  }

  lemma {:induction false} SameFill<H>(env: Env<H>, env': Env<H>, h: H, mem: Mem, to: Word, v: Word, n: nat, i: nat)
    requires i <= n && env.store == env'.store
    ensures FillSteps(env, h, mem, to, v, n, i) == FillSteps(env', h, mem, to, v, n, i)
    decreases n - i
  {
    hide Wrap;
    if i < n {
      var w := Rel(Wrap(to + i), mem.wbase);
      var (h1, mem1) :=
        if w < |mem.ram| then (h, mem.(ram := mem.ram[w := v % 0x100])) else env.store(h, mem, Wrap(to + i), v);
      SameFill(env, env', h1, mem1, to, v, n, i + 1);
    }
  }

  lemma SameBulk<H>(env: Env<H>, env': Env<H>, m: Machine<H>, f3: nat, rd: Reg, rs1: Reg, rs2: Reg)
    requires env.load == env'.load && env.store == env'.store
    ensures Bulk(env, m, f3, rd, rs1, rs2) == Bulk(env', m, f3, rd, rs1, rs2)
  {
    hide CopySteps, FillSteps, Wrap;
    SameCopy(env, env', m.host, m.mem, m.x[rd], m.x[rs1], m.x[rs2], 0);
    SameFill(env, env', m.host, m.mem, m.x[rd], m.x[rs1], m.x[rs2], 0);
  }

  /** With that hook any good host whose calls and breakpoints ignore the word is one. */
  lemma HookServes<H(!new)>(base: Env<H>)
    requires GoodEnv(base) && (forall m, a, b :: base.ecall(m, a) == base.ecall(m, b)) && (forall m, a, b :: base.ebreak(m, a) == base.ebreak(m, b))
    ensures GoodEnv(Hosting(base)) && Alike(Hosting(base))
  {
    hide Bulk, RType, F7Of, F3Of, RdOf, Rs1Of, Rs2Of;
    var env := Hosting(base);
    forall m: Machine<H>, w | m.Valid()
      ensures Keeps(m, env.illegal(m, w).0)
    {
      if RdOf(w) != 0 { BulkKeeps(base, m, F3Of(w), RdOf(w), Rs1Of(w), Rs2Of(w)); }
    }
    forall m, f3: Funct3, rd: Reg, rs1: Reg, rs2: Reg | rd != 0
      ensures env.illegal(m, RType(0, rs2, rs1, f3, rd, 0x0b)) == (Bulk(env, m, f3, rd, rs1, rs2).0, false)
    {
      RTypeFields(0, rs2, rs1, f3, rd, 0x0b);
      SameBulk(base, env, m, f3, rd, rs1, rs2);
    }
  }

  // ---- one step ----

  /** The source machine goes where the interpreter's pc says, or is lost where the pc is no
      instruction's address. */
  ghost predicate Follows<H>(p: Prog, i: nat, o: Outcome<H>, s: Stepped<H>) {
    match s
    case On(pc, m) => if pc % 4 == 0 && pc / 4 < |p.code| then o == Next(pc / 4, m) else o == Wild || (pc == 4 * i + 4 && o == Next(i + 1, m))
    case Off(pc, m) => pc == 4 * i && o == Stopped(i, m)
  }

  /** A source step is the instruction's step at its true address. */
  lemma StepAlike<H(!new)>(p: Prog, env: Env<H>, i: nat, m: Machine<H>)
    requires p.Valid() && i < |p.code| && i !in p.fix && Plain(p.code[i]) && Encodings.Fits(p.code[i], 4 * i) && Alike(env)
    ensures Follows(p, i, SrcStep(p, env, i, m), InsnStep(env, p.code[i], 4 * i, 4, Assemble(p.code[i], 4 * i), m))
  {
    hide Alu, Taken, DoLoad, DoStore, Bulk, RType, IType, SType, BType, UType, JType, Reaches;
    WrapNear(4 * i + 4);
  }

  /** A call differs in its link alone: the renumbered address in place of the true one. */
  lemma CallAlike<H(!new)>(p: Prog, env: Env<H>, i: nat, raw: Word, m: Machine<H>, rd: Reg, j: nat)
    requires p.Valid() && i < |p.code| && i !in p.fix && j < |p.code| && p.code[i] == Jal(rd, 4 * j)
    ensures SrcStep(p, env, i, m) == Next(j, SetReg(m, rd, Rho(p, i + 1)))
    ensures InsnStep(env, p.code[i], 4 * i, 4, raw, m) == On(4 * j, SetReg(m, rd, 4 * (i + 1)))
  {
    WrapNear(4 * i + 4);
  }

  // ---- whole runs ----

  /** The code is assembled at address 0. */
  ghost predicate Assembled(p: Prog, rom: seq<Byte>) {
    p.Valid() && forall i :: 0 <= i < |p.code| ==> LineAt(rom, 4 * i, Long(p.code[i]))
  }

  /** The interpreter's batch is where n source instructions lead. */
  ghost predicate SameRun<H>(o: Outcome<H>, r: Batch<H>, n: nat) {
    match o
    case Next(j, m) => r.pc == 4 * j && r.m == m && r.count == n && !r.stopped
    case Stopped(j, m) => r.pc == 4 * j && r.m == m && r.stopped && r.count <= n
    case Wild => true
  }

  /** On code without links and indirect jumps the interpreter, on the bytes, and the source machine
      run alike, and so, with WholeRuns.Preserves, does the transcoded program. */
  lemma {:induction false} RunsAlike<H(!new)>(p: Prog, env: Env<H>, n: nat, i: nat, m: Machine<H>)
    requires GoodEnv(env) && Alike(env) && m.Valid() && Assembled(p, m.mem.rom) && i <= |p.code|
    requires p.fix == map[] && forall k :: 0 <= k < |p.code| ==> Plain(p.code[k])
    ensures SameRun(SrcRun(p, env, n, i, m), Checked(env, n, 4 * i, m), n)
    decreases n
  {
    hide SrcStep, InsnStep, PurvStep, CanFetch, GoodEnv, Alike, LineAt, Plain;
    if n > 0 && i < |p.code| {
      OneAlike(p, env, i, m);
      match PurvStep(env, 4 * i, m)
      case Off(_, _) =>
      case On(pc', m') =>
        if SrcStep(p, env, i, m).Next? { RunsAlike(p, env, n - 1, SrcStep(p, env, i, m).at, m'); }
    } else if n > 0 {
      OffEnd(p, env, i, m);
    }
  }

  lemma OffEnd<H>(p: Prog, env: Env<H>, i: nat, m: Machine<H>)
    requires i >= |p.code|
    ensures SrcStep(p, env, i, m).Wild?
  {
  }

  lemma OneAlike<H(!new)>(p: Prog, env: Env<H>, i: nat, m: Machine<H>)
    requires GoodEnv(env) && Alike(env) && m.Valid() && Assembled(p, m.mem.rom) && i < |p.code|
    requires p.fix == map[] && Plain(p.code[i])
    ensures CanFetch(m.mem.rom, 4 * i)
    ensures var s, o := PurvStep(env, 4 * i, m), SrcStep(p, env, i, m);
            match o
            case Next(j, m') => j <= |p.code| && s == On(4 * j, m') && m'.Valid() && m'.mem.rom == m.mem.rom
            case Stopped(j, m') => s == Off(4 * j, m')
            case Wild => true
  {
    hide InsnStep, SrcStep, PurvStep, CanFetch, GoodEnv, Alike, Plain, WordAt, HalfAt, Assemble;
    var d := p.code[i];
    assert LineAt(m.mem.rom, 4 * i, Long(d));
    StepOnLine(env, Long(d), 4 * i, m);
    StepAlike(p, env, i, m);
    CheckedKeeps(env, 1, 4 * i, m);
    NotZero(env, 4 * i, m);
  }

  lemma NotZero<H>(env: Env<H>, pc: Word, m: Machine<H>)
    requires CanFetch(m.mem.rom, pc)
    ensures Checked(env, 1, pc, m).m == PurvStep(env, pc, m).m
  {
    hide PurvStep, CanFetch;
  }

  // ---- the three engines ----

  /** One program, assembled, transcoded and started. */
  ghost predicate Prepared<H(!new)>(p: Prog, ops: seq<Word>, env: Env<H>, m: Machine<H>) {
    && Started(p, ops, env, 0, m) && Alike(env) && Assembled(p, m.mem.rom)
    && p.fix == map[] && forall k :: 0 <= k < |p.code| ==> Plain(p.code[k])
  }

  /** The op machine has stopped or goes on with machine m. */
  predicate OpIs<H(==)>(s: OpState<H>, m: Machine<H>, stopped: bool) {
    match s
    case Running(_, m') => m' == m && !stopped
    case Halted(_, m') => m' == m && stopped
    case _ => false
  }

  /** The run reads no encoding on which the two decoders differ. */
  lemma AlwaysLegal<H(!new)>(p: Prog, ops: seq<Word>, env: Env<H>, m: Machine<H>)
    requires Prepared(p, ops, env, m)
    ensures LegalRun(env, 0, m)
  {
    hide Accepted, Emitted, GoodEnv, Alike, LineAt, Plain, SrcRun, Checked, CanFetch, UnitSafe;
    forall n: nat
      ensures LegalAt(env, 0, m, n)
    {
      RunsAlike(p, env, n, 0, m);
      CheckedKeeps(env, n, 0, m);
      assert SafeAt(p, env, 0, m, n);
      match SrcRun(p, env, n, 0, m)
      case Next(j, m') =>
        assert LineAt(m'.mem.rom, 4 * j, Long(p.code[j]));
        StepOnLine(env, Long(p.code[j]), 4 * j, m');
      case _ =>
    }
  }

  /** Code without links and indirect jumps, run from its start: after any number of ops the
      transcoded program has the registers, memory and host state the interpreter has after some
      number of instructions, at least as many, and the decode-ahead engine the same. */
  lemma ThreeEngines<H(!new)>(p: Prog, ops: seq<Word>, env: Env<H>, m: Machine<H>, k: nat) returns (n: nat)
    requires Prepared(p, ops, env, m)
    ensures var r := Checked(env, n, 0, m);
            (n >= k || r.stopped) && OpIs(OpRun(ops, env, k, OpAt(p.plan, 0), m), r.m, r.stopped) && SameBatch(PurvsBatch(env, n, 0, m), r)
  {
    hide Accepted, Emitted, GoodEnv, Alike, LineAt, Plain, SafeRun, SrcRun, OpRun, Checked, PurvsBatch, LegalRun;
    n := Preserves(p, ops, env, 0, m, k);
    RunsAlike(p, env, n, 0, m);
    AlwaysLegal(p, ops, env, m);
    Refines(env, n, 0, m);
  }
}
