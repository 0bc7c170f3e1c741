/** The guest machine every engine shares: registers, the two memory regions, and the
    host's handlers. */
module Machines {
  import opened Words
  import opened Isa

  /** The writable and the read-only region, each with its own base address. */
  datatype Mem = Mem(wbase: Word, ram: seq<Byte>, rbase: Word, rom: seq<Byte>) {
    predicate Valid() {
      |ram| < 0x1_0000_0000 && |rom| < 0x1_0000_0000
    }
    /** Same regions, same read-only bytes; only writable bytes may differ. */
    predicate SameShape(other: Mem) {
      wbase == other.wbase && rbase == other.rbase && |ram| == |other.ram| && rom == other.rom
    }
  }

  /** The register file x0..x31. */
  type Regs = s: seq<Word> | |s| == 32 witness seq(32, i => 0)

  datatype Machine<H> = Machine(x: Regs, mem: Mem, host: H) {
    predicate Valid() {
      x[0] == 0 && mem.Valid()
    }
  }

  /** The host: the memory callback for accesses the regions cannot satisfy, and the
      three trap handlers, which say whether to stop. A callback sees memory and the
      host's own state; a trap handler sees the whole machine. */
  datatype Env<!H> = Env(
    load: (H, Mem, Word) -> (H, Mem, Word),
    store: (H, Mem, Word, Word) -> (H, Mem),
    ecall: (Machine<H>, Word) -> (Machine<H>, bool),
    ebreak: (Machine<H>, Word) -> (Machine<H>, bool),
    illegal: (Machine<H>, Word) -> (Machine<H>, bool))

  /** Handlers keep x0 zero, keep the regions in place, and never write read-only bytes. */
  ghost predicate GoodEnv<H(!new)>(env: Env<H>) {
    && (forall h, mem: Mem, a :: mem.Valid() ==> mem.SameShape(env.load(h, mem, a).1))
    && (forall h, mem: Mem, a, v :: mem.Valid() ==> mem.SameShape(env.store(h, mem, a, v).1))
    && (forall m: Machine<H>, pc :: m.Valid() ==> Keeps(m, env.ecall(m, pc).0))
    && (forall m: Machine<H>, pc :: m.Valid() ==> Keeps(m, env.ebreak(m, pc).0))
    && (forall m: Machine<H>, pc :: m.Valid() ==> Keeps(m, env.illegal(m, pc).0))
  }

  predicate Keeps<H>(m: Machine<H>, m': Machine<H>) {
    m'.Valid() && m.mem.SameShape(m'.mem)
  }

  function Rel(a: Word, base: Word): Word {
    Wrap(a - base)
  }

  predicate Inside(rel: Word, len: nat, n: nat) {
    rel < len && n <= len - rel
  }

  /** A read of n bytes at a: the writable region, else the read-only one, else the callback. */
  function Read<H>(env: Env<H>, h: H, mem: Mem, a: Word, n: Size): (H, Mem, Word) {
    var w := Rel(a, mem.wbase);
    var r := Rel(a, mem.rbase);
    if Inside(w, |mem.ram|, n) then (h, mem, ReadLE(mem.ram, w, n))
    else if Inside(r, |mem.rom|, n) then (h, mem, ReadLE(mem.rom, r, n))
    else env.load(h, mem, a)
  }

  /** A write of the low n bytes of v at a: the writable region, else the callback. */
  function Write<H>(env: Env<H>, h: H, mem: Mem, a: Word, n: Size, v: Word): (H, Mem) {
    var w := Rel(a, mem.wbase);
    if Inside(w, |mem.ram|, n) then (h, mem.(ram := WriteLE(mem.ram, w, n, v)))
    else env.store(h, mem, a, v)
  }

  function ReadWord<H>(env: Env<H>, h: H, mem: Mem, a: Word): (H, Mem, Word) {
    Read(env, h, mem, a, 4)
  }

  function WriteWord<H>(env: Env<H>, h: H, mem: Mem, a: Word, v: Word): (H, Mem) {
    Write(env, h, mem, a, 4, v)
  }

  /** A register write; x0 stays zero. */
  function SetReg<H>(m: Machine<H>, rd: Reg, v: Word): Machine<H> {
    if rd == 0 then m else m.(x := m.x[rd := v])
  }

  /** A load that writes its register, whichever it is. */
  function LoadInto<H>(env: Env<H>, m: Machine<H>, k: LoadKind, rd: Reg, a: Word): Machine<H> {
    var (h, mem, v) := Read(env, m.host, m.mem, a, LoadSize(k));
    Machine(m.x[rd := Extend(k, v)], mem, h)
  }

  /** A load instruction; into x0 it does not touch memory. */
  function DoLoad<H>(env: Env<H>, m: Machine<H>, k: LoadKind, rd: Reg, a: Word): Machine<H> {
    if rd == 0 then m else LoadInto(env, m, k, rd, a)
  }

  function DoStore<H>(env: Env<H>, m: Machine<H>, k: StoreKind, a: Word, v: Word): Machine<H> {
    var (h, mem) := Write(env, m.host, m.mem, a, StoreSize(k), v);
    Machine(m.x, mem, h)
  }

  lemma ReadKeeps<H(!new)>(env: Env<H>, h: H, mem: Mem, a: Word, n: Size)
    requires GoodEnv(env) && mem.Valid()
    ensures mem.SameShape(Read(env, h, mem, a, n).1)
  {
  }

  lemma WriteKeeps<H(!new)>(env: Env<H>, h: H, mem: Mem, a: Word, n: Size, v: Word)
    requires GoodEnv(env) && mem.Valid()
    ensures mem.SameShape(Write(env, h, mem, a, n, v).1)
  {
  }

  lemma LoadKeeps<H(!new)>(env: Env<H>, m: Machine<H>, k: LoadKind, rd: Reg, a: Word)
    requires GoodEnv(env) && m.Valid()
    ensures Keeps(m, DoLoad(env, m, k, rd, a))
  {
    ReadKeeps(env, m.host, m.mem, a, LoadSize(k));
  }

  lemma StoreKeeps<H(!new)>(env: Env<H>, m: Machine<H>, k: StoreKind, a: Word, v: Word)
    requires GoodEnv(env) && m.Valid()
    ensures Keeps(m, DoStore(env, m, k, a, v))
  {
    WriteKeeps(env, m.host, m.mem, a, StoreSize(k), v);
  }
}
