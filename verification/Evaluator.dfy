/** The ahead-of-time engine's semantics: what one op does, straight from its fields. */
module Evaluator {
  import opened Words
  import opened Isa
  import opened Machines
  import opened BulkOps
  import opened Fusion

  /** Where control goes after an op. Fall and Resume name the next op, Jump a direct
      target, JumpReg the raw byte address of an indirect one; Halt is a stopping trap. */
  datatype Flow = Fall(next: nat) | Jump(next: nat) | JumpReg(t: Word) | Resume(next: nat) | Halt

  /** The machine after an op, its fuel charge, and where control goes. */
  datatype Effect<H> = Effect(m: Machine<H>, charge: nat, flow: Flow)

  // ---- the fused frame ops ----

  /** The ranks whose bit is set, for the mask bits from rank b up. */
  function SetBits(bits: seq<bool>, b: nat): (s: seq<RankNo>)
    requires b + |bits| == RANKS
    ensures |s| <= |bits|
  {
    if bits == [] then []
    else (if bits[0] then [b] else []) + SetBits(bits[1..], b + 1)
  }

  function RanksOf(mask: Mask): (s: seq<RankNo>)
    ensures |s| <= RANKS
  {
    SetBits(mask, 0)
  }

  const SAVE_SPAN := 52

  /** What the engine demands of the host: the fused frame ops check one 52-byte band, so
      the writable region holds at least that much. */
  predicate Ready(mem: Mem) {
    mem.Valid() && SAVE_SPAN <= |mem.ram|
  }

  /** The fast-path test: is the 52-byte band below `top` writable? The offset of `top` if so. */
  function FrameTop(mem: Mem, top: Word): (r: Option<Word>)
    requires Ready(mem)
    ensures r.Some? <==> SAVE_SPAN <= Rel(top, mem.wbase) <= |mem.ram|
    ensures r.Some? ==> r.value == Rel(top, mem.wbase)
  {
    var rel := Rel(top, mem.wbase);
    WrapNear(rel - SAVE_SPAN);
    WrapNear(|mem.ram| - SAVE_SPAN);
    if Wrap(rel - SAVE_SPAN) <= Wrap(|mem.ram| - SAVE_SPAN) then Some(rel) else None
  }

  /** Saves walking down from offset q of the writable region, unchecked. */
  function FastSave(ram: seq<Byte>, x: Regs, ranks: seq<RankNo>, q: nat): (r: seq<Byte>)
    requires 4 * |ranks| <= q <= |ram|
    ensures |r| == |ram|
    decreases |ranks|
  {
    if ranks == [] then ram
    else FastSave(WriteLE(ram, q - 4, 4, x[RankReg(ranks[0])]), x, ranks[1..], q - 4)
  }

  /** Saves walking down from address a, each checked and routed on its own. */
  function SlowSave<H>(env: Env<H>, h: H, mem: Mem, x: Regs, ranks: seq<RankNo>, a: Word): (H, Mem)
    decreases |ranks|
  {
    if ranks == [] then (h, mem)
    else
      var a' := Wrap(a - 4);
      var (h1, mem1) := WriteWord(env, h, mem, a', x[RankReg(ranks[0])]);
      SlowSave(env, h1, mem1, x, ranks[1..], a')
  }

  function FastRestore(ram: seq<Byte>, x: Regs, ranks: seq<RankNo>, q: nat): Regs
    requires 4 * |ranks| <= q <= |ram|
    decreases |ranks|
  {
    if ranks == [] then x
    else FastRestore(ram, x[RankReg(ranks[0]) := ReadLE(ram, q - 4, 4)], ranks[1..], q - 4)
  }

  function SlowRestore<H>(env: Env<H>, m: Machine<H>, ranks: seq<RankNo>, a: Word): Machine<H>
    decreases |ranks|
  {
    if ranks == [] then m
    else
      var a' := Wrap(a - 4);
      var (h1, mem1, v) := ReadWord(env, m.host, m.mem, a');
      SlowRestore(env, Machine(m.x[RankReg(ranks[0]) := v], mem1, h1), ranks[1..], a')
  }

  /** The saves of a fused prologue: the fast band when it is writable, else one by one. */
  function SaveAll<H>(env: Env<H>, h: H, mem: Mem, x: Regs, ranks: seq<RankNo>, top: Word): (H, Mem)
    requires Ready(mem) && |ranks| <= RANKS
  {
    match FrameTop(mem, top)
    case Some(q) => (h, mem.(ram := FastSave(mem.ram, x, ranks, q)))
    case None => SlowSave(env, h, mem, x, ranks, top)
  }

  function RestoreAll<H>(env: Env<H>, m: Machine<H>, ranks: seq<RankNo>, top: Word): Machine<H>
    requires Ready(m.mem) && |ranks| <= RANKS
  {
    match FrameTop(m.mem, top)
    case Some(q) => m.(x := FastRestore(m.mem.ram, m.x, ranks, q))
    case None => SlowRestore(env, m, ranks, top)
  }

  function DoPrologue<H>(env: Env<H>, m: Machine<H>, mask: Mask, frame: nat, next: nat): Effect<H>
    requires Ready(m.mem)
  {
    var ranks := RanksOf(mask);
    var (h, mem) := SaveAll(env, m.host, m.mem, m.x, ranks, m.x[2]);
    Effect(Machine(m.x[2 := Wrap(m.x[2] - frame)], mem, h), |ranks| + 1, Fall(next))
  }

  function DoEpilogue<H>(env: Env<H>, m: Machine<H>, mask: Mask, frame: nat): Effect<H>
    requires Ready(m.mem)
  {
    var ranks := RanksOf(mask);
    var top := Wrap(m.x[2] + frame);
    var m1 := RestoreAll(env, m, ranks, top);
    Effect(m1.(x := m1.x[2 := top]), |ranks| + 2, JumpReg(ClearBit0(m1.x[1])))
  }

  // ---- all ops ----

  function Trap<H>(r: (Machine<H>, bool), next: nat): Effect<H> {
    Effect(r.0, 1, if r.1 then Halt else Resume(next))
  }

  /** A plain instruction as an op at index q. Targets are op indices here. */
  function ExecOne<H>(env: Env<H>, d: Insn, q: nat, m: Machine<H>): Effect<H> {
    match d
    case RegReg(op, rd, rs1, rs2) => Effect(m.(x := m.x[rd := Alu(op, m.x[rs1], m.x[rs2])]), 1, Fall(q + 1))
    case RegImm(op, rd, rs1, imm) => Effect(m.(x := m.x[rd := Alu(op, m.x[rs1], imm)]), 1, Fall(q + 1))
    case Load(k, rd, rs1, imm) => Effect(DoLoad(env, m, k, rd, Wrap(m.x[rs1] + imm)), 1, Fall(q + 1))
    case Store(k, rs2, rs1, imm) => Effect(DoStore(env, m, k, Wrap(m.x[rs1] + imm), m.x[rs2]), 1, Fall(q + 1))
    case Branch(c, rs1, rs2, target) =>
      Effect(m, 1, if Taken(c, m.x[rs1], m.x[rs2]) then Jump(target) else Fall(q + 1))
    case Jal(rd, target) => Effect(SetReg(m, rd, Wrap(4 * q + 4)), 1, Jump(target))
    case Jalr(rd, rs1, imm) =>
      Effect(SetReg(m, rd, Wrap(4 * q + 4)), 1, JumpReg(ClearBit0(Wrap(m.x[rs1] + imm))))
    case Lui(rd, uimm) => Effect(m.(x := m.x[rd := Wrap(uimm * 0x1000)]), 1, Fall(q + 1))
    case Auipc(rd, uimm) => Effect(m.(x := m.x[rd := Wrap(4 * q + uimm * 0x1000)]), 1, Fall(q + 1))
    case Memop(f3, rd, rs1, rs2) =>
      var (m1, charge) := Bulk(env, m, f3, rd, rs1, rs2);
      Effect(m1, charge + 1, Fall(q + 1))
    case Nop => Effect(m, 1, Fall(q + 1))
    case Ecall => Trap(env.ecall(m, Wrap(4 * q)), q + 1)
    case Ebreak => Trap(env.ebreak(m, Wrap(4 * q)), q + 1)
    case Illegal => Trap(env.illegal(m, Wrap(4 * q)), q + 1)
  }

  // ---- the fused pairs and triples ----

  function DoShadd<H>(m: Machine<H>, rd: Reg, rs1: Reg, rs2: Reg, sh: nat): Machine<H> {
    m.(x := m.x[rd := Wrap(m.x[rs1] + ShiftLeft(m.x[rs2], sh))])
  }

  function DoLwx<H>(env: Env<H>, m: Machine<H>, rd: Reg, rs1: Reg, rs2: Reg, off: Word): Machine<H> {
    LoadInto(env, m, LW, rd, Wrap(m.x[rs1] + m.x[rs2] + off))
  }

  function DoLwlw<H>(env: Env<H>, m: Machine<H>, rd: Reg, rs1: Reg, o1: Word, o2: Word): Machine<H> {
    var (h, mem, v) := ReadWord(env, m.host, m.mem, Wrap(m.x[rs1] + o1));
    var (h2, mem2, v2) := ReadWord(env, h, mem, Wrap(v + o2));
    Machine(m.x[rd := v2], mem2, h2)
  }

  function DoLwsw<H>(env: Env<H>, m: Machine<H>, rd: Reg, rs1: Reg, rs2: Reg, o1: Word, o2: Word): Machine<H> {
    var (h, mem, v) := ReadWord(env, m.host, m.mem, Wrap(m.x[rs1] + o1));
    var x := m.x[rd := v];
    var (h2, mem2) := WriteWord(env, h, mem, Wrap(x[rs2] + o2), v);
    Machine(x, mem2, h2)
  }

  /** The loaded slot is the jump target; it stays in its register, bit 0 cleared. */
  function DoVcall<H>(env: Env<H>, m: Machine<H>, rd: Reg, rs1: Reg, o1: Word, o2: Word, q: nat): Effect<H> {
    var m1 := DoLwlw(env, m, rd, rs1, o1, o2);
    var t := ClearBit0(m1.x[rd]);
    Effect(m1.(x := m1.x[rd := t][1 := Wrap(4 * q + 4)]), 3, JumpReg(t))
  }

  function DoLoadBz<H>(env: Env<H>, m: Machine<H>, k: LoadKind, rd: Reg, rs1: Reg, off: Word, target: Word, onZero: bool, q: nat): Effect<H> {
    var m1 := LoadInto(env, m, k, rd, Wrap(m.x[rs1] + off));
    Effect(m1, 2, if (m1.x[rd] == 0) == onZero then Jump(target) else Fall(q + 2))
  }

  /** One op at index q. */
  function Exec<H>(env: Env<H>, op: Op, q: nat, m: Machine<H>): Effect<H>
    requires Ready(m.mem)
  {
    match op
    case One(d) => ExecOne(env, d, q, m)
    case Prologue(mask, frame) => DoPrologue(env, m, mask, frame, q + 1)
    case Epilogue(mask, frame) => DoEpilogue(env, m, mask, frame)
    case LiLo(rd, v) => Effect(m.(x := m.x[rd := SignExtend(v, 0x10_0000)]), 1, Fall(q + 1))
    case LiHi(rd, v) => Effect(m.(x := m.x[rd := Wrap(SignExtend(v, 0x10_0000) + 0x8000_0000)]), 1, Fall(q + 1))
    case Shadd(rd, rs1, rs2, sh) => Effect(DoShadd(m, rd, rs1, rs2, sh), 2, Fall(q + 1))
    case Lwx(rd, rs1, rs2, off) => Effect(DoLwx(env, m, rd, rs1, rs2, off), 2, Fall(q + 1))
    case Lwlw(rd, rs1, o1, o2) => Effect(DoLwlw(env, m, rd, rs1, o1, o2), 2, Fall(q + 1))
    case Vcall(rd, rs1, o1, o2) => DoVcall(env, m, rd, rs1, o1, o2, q)
    case Lwsw(rd, rs1, rs2, o1, o2) => Effect(DoLwsw(env, m, rd, rs1, rs2, o1, o2), 2, Fall(q + 1))
    case LoadBz(byte, rd, rs1, off, target, onZero) =>
      DoLoadBz(env, m, if byte then LBU else LW, rd, rs1, off, target, onZero, q)
  }
}
