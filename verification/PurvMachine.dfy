/** The interpreter: a window of unchecked fetches refines the machine that checks every one. */
module PurvMachine {
  import opened Words
  import opened Isa
  import opened Machines
  import opened Rv32c

  function HalfAt(code: seq<Byte>, pc: nat): Half
    requires pc + 2 <= |code|
  {
    code[pc] as int + 0x100 * code[pc + 1] as int
  }

  predicate Wide(code: seq<Byte>, pc: nat)
    requires pc + 2 <= |code|
  {
    HalfAt(code, pc) % 4 == 3
  }

  function WordAt(code: seq<Byte>, pc: nat): Word
    requires pc + 4 <= |code|
  {
    ReadLE(code, pc, 4)
  }

  /** The instruction at pc lies wholly in the code. */
  predicate CanFetch(code: seq<Byte>, pc: nat) {
    pc + 2 <= |code| && (Wide(code, pc) ==> pc + 4 <= |code|)
  }

  function WidthAt(code: seq<Byte>, pc: nat): nat
    requires CanFetch(code, pc)
  {
    if Wide(code, pc) then 4 else 2
  }

  function RawAt(code: seq<Byte>, pc: nat): Word
    requires CanFetch(code, pc)
  {
    if Wide(code, pc) then WordAt(code, pc) else HalfAt(code, pc)
  }

  function ActionAt(code: seq<Byte>, pc: nat): Action
    requires CanFetch(code, pc)
  {
    if Wide(code, pc) then Fused32(WordAt(code, pc)) else Fused16(HalfAt(code, pc))
  }

  /** One instruction, fetched from the read-only bytes. */
  function PurvStep<H>(env: Env<H>, pc: Word, m: Machine<H>): Stepped<H>
    requires CanFetch(m.mem.rom, pc)
  {
    Act(env, ActionAt(m.mem.rom, pc), pc, WidthAt(m.mem.rom, pc), RawAt(m.mem.rom, pc), m)
  }

  /** Where a batch leaves the machine: resume address, state, instructions counted, and
      whether a handler ended it. */
  datatype Batch<H> = Batch(pc: Word, m: Machine<H>, count: nat, stopped: bool)

  /** The reference: every instruction checked against the code before it is fetched. */
  function Checked<H>(env: Env<H>, n: nat, pc: Word, m: Machine<H>): Batch<H> {
    if n == 0 || !CanFetch(m.mem.rom, pc) then Batch(pc, m, 0, false)
    else
      match PurvStep(env, pc, m)
      case Off(pc', m') => Batch(pc', m', 1, true)
      case On(pc', m') => var r := Checked(env, n - 1, pc', m'); r.(count := r.count + 1)
  }

  function Then<H>(first: Batch<H>, rest: Batch<H>): Batch<H> {
    rest.(count := first.count + rest.count)
  }

  function Adds<H>(r: Batch<H>, k: nat): Batch<H> {
    r.(count := r.count + k)
  }

  /** Running a then b instructions is running a + b, unless a handler stopped the first batch. */
  lemma {:induction false} CheckedSplit<H>(env: Env<H>, a: nat, b: nat, pc: Word, m: Machine<H>)
    ensures var r := Checked(env, a, pc, m);
            Checked(env, a + b, pc, m) == if r.stopped then r else Then(r, Checked(env, b, r.pc, r.m))
    decreases a
  {
    hide PurvStep, CanFetch;
    if a > 0 && CanFetch(m.mem.rom, pc) {
      match PurvStep(env, pc, m)
      case Off(_, _) =>
      case On(pc', m') => CheckedSplit(env, a - 1, b, pc', m');
    } else if a > 0 {
      StuckStays(env, b, pc, m);
      StuckStays(env, a + b, pc, m);
    }
  }

  lemma StuckStays<H>(env: Env<H>, n: nat, pc: Word, m: Machine<H>)
    requires !CanFetch(m.mem.rom, pc)
    ensures Checked(env, n, pc, m) == Batch(pc, m, 0, false)
  {
  }

  // ---- what instructions keep ----

  lemma ActKeeps<H(!new)>(env: Env<H>, act: Action, pc: Word, width: nat, inst: Word, m: Machine<H>)
    requires GoodEnv(env) && m.Valid()
    ensures Keeps(m, Act(env, act, pc, width, inst, m).m)
  {
    hide Alu, Taken, Wrap, DoLoad, DoStore;
    match act
    case DoLoadAt(f3, rd, base, imm) =>
      if LoadOfF3(f3).Some? { LoadKeeps(env, m, LoadOfF3(f3).value, rd, Wrap(m.x[base] + imm)); }
    case DoStoreAt(f3, rs2, base, imm) =>
      if StoreOfF3(f3).Some? { StoreKeeps(env, m, StoreOfF3(f3).value, Wrap(m.x[base] + imm), m.x[rs2]); }
    case _ =>
  }

  /** No instruction changes the code: decoding ahead is safe. */
  lemma {:induction false} CheckedKeeps<H(!new)>(env: Env<H>, n: nat, pc: Word, m: Machine<H>)
    requires GoodEnv(env) && m.Valid()
    ensures Keeps(m, Checked(env, n, pc, m).m)
    decreases n
  {
    hide Act, CanFetch, GoodEnv;
    if n > 0 && CanFetch(m.mem.rom, pc) {
      ActKeeps(env, ActionAt(m.mem.rom, pc), pc, WidthAt(m.mem.rom, pc), RawAt(m.mem.rom, pc), m);
      match PurvStep(env, pc, m)
      case Off(_, _) =>
      case On(pc', m') => CheckedKeeps(env, n - 1, pc', m');
    }
  }
}
