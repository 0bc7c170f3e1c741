/** Programs assembled into the code bytes: both engines run them instruction by instruction. */
module Programs {
  import opened Words
  import opened Isa
  import opened Machines
  import opened Rv32c
  import opened Encodings
  import opened Compressed
  import opened PurvMachine
  import opened PurvsTrace

  /** One line of a program: an instruction in its 32-bit or its compressed form. */
  datatype Line = Long(d: Insn) | Brief(s: Short)

  function Width(l: Line): nat {
    if l.Long? then 4 else 2
  }

  function Meaning(l: Line): Insn {
    match l
    case Long(d) => d
    case Brief(s) => Expand(s)
  }

  predicate FitsLine(l: Line, pc: Word) {
    match l
    case Long(d) => Fits(d, pc)
    case Brief(s) => FitsShort(s, pc)
  }

  function Encoded(l: Line, pc: Word): Word
    requires FitsLine(l, pc)
  {
    match l
    case Long(d) => Assemble(d, pc)
    case Brief(s) => AssembleShort(s, pc)
  }

  /** A program by address. */
  type Listing = map<Word, Line>

  /** The line's bytes are at pc, the least significant first. */
  predicate LineAt(rom: seq<Byte>, pc: Word, l: Line) {
    && FitsLine(l, pc) && pc + Width(l) <= |rom|
    && var w := Encoded(l, pc);
       rom[pc] == w % 0x100 && rom[pc + 1] == w / 0x100 % 0x100 &&
       (l.Long? ==> rom[pc + 2] == w / 0x1_0000 % 0x100 && rom[pc + 3] == w / 0x100_0000)
  }

  predicate Fitting(prog: Listing) {
    forall pc <- prog :: FitsLine(prog[pc], pc)
  }

  predicate Loaded(rom: seq<Byte>, prog: Listing) {
    Fitting(prog) && forall pc <- prog :: LineAt(rom, pc, prog[pc])
  }

  /** A run of the program itself, up to n instructions or until it leaves the listing. */
  function ListRun<H>(env: Env<H>, prog: Listing, n: nat, pc: Word, m: Machine<H>): Batch<H>
    requires Fitting(prog)
  {
    if n == 0 || pc !in prog then Batch(pc, m, 0, false)
    else
      var l := prog[pc];
      match InsnStep(env, Meaning(l), pc, Width(l), Encoded(l, pc), m)
      case Off(pc', m') => Batch(pc', m', 1, true)
      case On(pc', m') => var r := ListRun(env, prog, n - 1, pc', m'); r.(count := r.count + 1)
  }

  // ---- one line ----

  lemma LegalOpcode(w: Word, pc: Word)
    requires !Decode(w, pc).Illegal?
    ensures w % 4 == 3 && (w % 128 == 0x33 <==> Decode(w, pc).RegReg?)
  {
    hide RdOf, Rs1Of, Rs2Of, F7Of, ImmI, ImmS, ImmB, ImmJ, Wrap;
    assert w % 4 == w % 128 % 4;
  }

  /** An assembled word has the low bits of a 32-bit instruction and is no reserved encoding. */
  lemma AssembledWide(d: Insn, pc: Word)
    requires Fits(d, pc)
    ensures Assemble(d, pc) % 4 == 3 && !Clash(Assemble(d, pc))
  {
    hide Decode, RType, RdOf, Rs1Of, Rs2Of, F7Of, F3Of, Assemble;
    DecodeBack(d, pc);
    LegalOpcode(Assemble(d, pc), pc);
    if d.RegReg? { AssembledOp(d, pc); }
  }

  lemma AssembledOp(d: Insn, pc: Word)
    requires Fits(d, pc) && d.RegReg?
    ensures var w := Assemble(d, pc); F7Of(w) == 0x20 ==> F3Of(w) == 0 || F3Of(w) == 5
  {
    hide RType, RdOf, Rs1Of, Rs2Of, F7Of, F3Of;
    RTypeFields(Functs(d.op).0, d.rs2, d.rs1, Functs(d.op).1, d.rd, 0x33);
  }

  lemma LowTwo(w: int)
    ensures (w % 0x100 + 0x100 * (w / 0x100 % 0x100)) % 4 == w % 4
  {
    var q, r := w / 4, w % 4;
    QuotientIs(w, 0x100, w / 0x100, w % 0x100);
  }

  /** A placed line is fetched whole, the word read is the one assembled, and the transcoder
      decodes it to the instruction. */
  lemma FetchesLong(rom: seq<Byte>, pc: Word, d: Insn)
    requires LineAt(rom, pc, Long(d))
    ensures CanFetch(rom, pc) && Wide(rom, pc) && WordAt(rom, pc) == Assemble(d, pc) && Decode(WordAt(rom, pc), pc) == d
  {
    hide Fits, Assemble, Decode;
    DecodeBack(d, pc);
    var w := Assemble(d, pc);
    AssembledWide(d, pc);
    BytesMakeWord(w);
    LowTwo(w);
  }

  lemma FetchesBrief(rom: seq<Byte>, pc: Word, s: Short)
    requires LineAt(rom, pc, Brief(s))
    ensures CanFetch(rom, pc) && !Wide(rom, pc) && HalfAt(rom, pc) == AssembleShort(s, pc)
  {
    hide FitsShort, AssembleShort, Fused16, ActionFor;
    ShortDecodes(s, pc);
    var c := AssembleShort(s, pc);
    assert c / 0x100 % 0x100 == c / 0x100;
  }

  ghost predicate StepsAlike<H>(env: Env<H>, l: Line, pc: Word, m: Machine<H>)
    requires FitsLine(l, pc) && CanFetch(m.mem.rom, pc)
  {
    PurvStep(env, pc, m) == InsnStep(env, Meaning(l), pc, Width(l), Encoded(l, pc), m)
  }

  /** One checked step on a placed line does what the line says. */
  lemma StepOnLine<H>(env: Env<H>, l: Line, pc: Word, m: Machine<H>)
    requires m.x[0] == 0 && LineAt(m.mem.rom, pc, l)
    ensures CanFetch(m.mem.rom, pc) && StepsAlike(env, l, pc, m)
    ensures Wide(m.mem.rom, pc) ==> !Clash(WordAt(m.mem.rom, pc))
  {
    hide Act, InsnStep, Fits, FitsShort, Fused32, Fused16, Leaf32, RecStep, Clash, Assemble, AssembleShort, Expand, HalfAt, WordAt;
    match l
    case Long(d) =>
      FetchesLong(m.mem.rom, pc, d);
      AssembledWide(d, pc);
      DecodeBack(d, pc);
      DecodeMeans(env, Assemble(d, pc), pc, m);
      Agree32(env, Assemble(d, pc), pc, m);
    case Brief(s) =>
      FetchesBrief(m.mem.rom, pc, s);
      ShortMeans(env, s, pc, m);
  }

  // ---- whole runs ----

  /** The interpreter runs a loaded program as it is written, and goes on where it leaves it. */
  lemma {:induction false} RunsListing<H(!new)>(env: Env<H>, prog: Listing, n: nat, pc: Word, m: Machine<H>)
    requires GoodEnv(env) && m.Valid() && Loaded(m.mem.rom, prog)
    ensures var r := ListRun(env, prog, n, pc, m);
            r.count <= n && Checked(env, n, pc, m) == if r.stopped then r else Then(r, Checked(env, n - r.count, r.pc, r.m))
    decreases n
  {
    hide PurvStep, InsnStep, CanFetch, GoodEnv, LineAt, FitsLine, Encoded;
    if n > 0 && pc in prog {
      StepOnLine(env, prog[pc], pc, m);
      CheckedKeeps(env, 1, pc, m);
      match PurvStep(env, pc, m)
      case Off(_, _) =>
      case On(pc', m') =>
        assert Checked(env, 1, pc, m).m == m';
        RunsListing(env, prog, n - 1, pc', m');
    }
  }

  /** The program never leaves its listing, save where a handler stops it. */
  ghost predicate Confined<H(!new)>(env: Env<H>, prog: Listing, pc: Word, m: Machine<H>)
    requires Fitting(prog)
  {
    forall n: nat :: var r := ListRun(env, prog, n, pc, m); r.stopped || r.pc in prog
  }

  lemma ConfinedRun<H(!new)>(env: Env<H>, prog: Listing, n: nat, pc: Word, m: Machine<H>)
    requires GoodEnv(env) && m.Valid() && Loaded(m.mem.rom, prog) && Confined(env, prog, pc, m)
    ensures Checked(env, n, pc, m) == ListRun(env, prog, n, pc, m)
  {
    hide ListRun, GoodEnv, LineAt, Fitting, PurvStep, CanFetch;
    RunsListing(env, prog, n, pc, m);
    FullCount(env, prog, n, pc, m);
    var r := ListRun(env, prog, n, pc, m);
    assert r.stopped || r.pc in prog;
  }

  /** A run that ends in the listing has used its steps. */
  lemma {:induction false} FullCount<H(!new)>(env: Env<H>, prog: Listing, n: nat, pc: Word, m: Machine<H>)
    requires Fitting(prog)
    ensures var r := ListRun(env, prog, n, pc, m); r.stopped || r.pc !in prog || r.count == n
    decreases n
  {
    hide InsnStep, FitsLine, Encoded;
    if n > 0 && pc in prog {
      var l := prog[pc];
      match InsnStep(env, Meaning(l), pc, Width(l), Encoded(l, pc), m)
      case Off(_, _) =>
      case On(pc', m') => FullCount(env, prog, n - 1, pc', m');
    }
  }

  /** The decode-ahead engine runs a program that stays in its listing as it is written, too. */
  lemma AheadRunsListing<H(!new)>(env: Env<H>, prog: Listing, max: nat, pc: Word, m: Machine<H>)
    requires GoodEnv(env) && m.Valid() && Loaded(m.mem.rom, prog) && Confined(env, prog, pc, m)
    ensures SameBatch(PurvsBatch(env, max, pc, m), ListRun(env, prog, max, pc, m))
  {
    hide LineAt, Fitting, GoodEnv, PurvsBatch, Checked, ListRun, CanFetch;
    forall n: nat
      ensures LegalAt(env, pc, m, n)
    {
      var r := Checked(env, n, pc, m);
      ConfinedRun(env, prog, n, pc, m);
      CheckedKeeps(env, n, pc, m);
      if !r.stopped {
        assert r == ListRun(env, prog, n, pc, m);
        StepOnLine(env, prog[r.pc], r.pc, r.m);
      }
    }
    ConfinedRun(env, prog, max, pc, m);
    Refines(env, max, pc, m);
  }
}
