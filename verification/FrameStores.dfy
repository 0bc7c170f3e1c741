/** Runs of word stores and loads, and the same straight on the writable bytes. */
module FrameStores {
  import opened Words
  import opened Isa
  import opened Machines

  // ---- stores ----

  /** Word stores of vals[k] at addrs[k], in order. */
  function Puts<H>(env: Env<H>, h: H, mem: Mem, addrs: seq<Word>, vals: seq<Word>): (H, Mem)
    decreases |addrs|
  {
    if addrs == [] || vals == [] then (h, mem)
    else
      var (h1, mem1) := WriteWord(env, h, mem, addrs[0], vals[0]);
      Puts(env, h1, mem1, addrs[1..], vals[1..])
  }

  /** The same stores straight into the writable bytes. */
  function PutRam(ram: seq<Byte>, rels: seq<nat>, vals: seq<Word>): (r: seq<Byte>)
    requires |rels| == |vals|
    requires forall k :: 0 <= k < |rels| ==> rels[k] + 4 <= |ram|
    ensures |r| == |ram|
    decreases |rels|
  {
    if rels == [] then ram
    else PutRam(WriteLE(ram, rels[0], 4, vals[0]), rels[1..], vals[1..])
  }

  /** All of these word addresses are in the writable region, at these offsets. */
  predicate MappedAt(mem: Mem, addrs: seq<Word>, rels: seq<nat>) {
    && |rels| == |addrs|
    && forall k :: 0 <= k < |addrs| ==> Rel(addrs[k], mem.wbase) == rels[k] && rels[k] + 4 <= |mem.ram|
  }

  lemma {:induction false} PutsMapped<H>(env: Env<H>, h: H, mem: Mem, addrs: seq<Word>, vals: seq<Word>, rels: seq<nat>)
    requires |addrs| == |vals| && MappedAt(mem, addrs, rels)
    ensures Puts(env, h, mem, addrs, vals) == (h, mem.(ram := PutRam(mem.ram, rels, vals)))
    decreases |addrs|
  {
    if addrs != [] {
      var mem1 := mem.(ram := WriteLE(mem.ram, rels[0], 4, vals[0]));
      assert Inside(rels[0], |mem.ram|, 4);
      PutsMapped(env, h, mem1, addrs[1..], vals[1..], rels[1..]);
    }
  }

  // ---- loads ----

  function GetWord<H>(env: Env<H>, m: Machine<H>, r: Reg, a: Word): Machine<H> {
    var (h, mem, v) := ReadWord(env, m.host, m.mem, a);
    Machine(m.x[r := v], mem, h)
  }

  /** Word loads into regs[k] from addrs[k], in order. */
  function Gets<H>(env: Env<H>, m: Machine<H>, regs: seq<Reg>, addrs: seq<Word>): Machine<H>
    decreases |regs|
  {
    if regs == [] || addrs == [] then m
    else Gets(env, GetWord(env, m, regs[0], addrs[0]), regs[1..], addrs[1..])
  }

  function GetRam(ram: seq<Byte>, x: Regs, regs: seq<Reg>, rels: seq<nat>): Regs
    requires |regs| == |rels|
    requires forall k :: 0 <= k < |rels| ==> rels[k] + 4 <= |ram|
    decreases |regs|
  {
    if regs == [] then x
    else GetRam(ram, x[regs[0] := ReadLE(ram, rels[0], 4)], regs[1..], rels[1..])
  }

  lemma {:induction false} GetsMapped<H>(env: Env<H>, m: Machine<H>, regs: seq<Reg>, addrs: seq<Word>, rels: seq<nat>)
    requires |addrs| == |regs| && MappedAt(m.mem, addrs, rels)
    ensures Gets(env, m, regs, addrs) == m.(x := GetRam(m.mem.ram, m.x, regs, rels))
    decreases |regs|
  {
    if regs != [] {
      assert Inside(rels[0], |m.mem.ram|, 4);
      var m1 := m.(x := m.x[regs[0] := ReadLE(m.mem.ram, rels[0], 4)]);
      GetsMapped(env, m1, regs[1..], addrs[1..], rels[1..]);
    }
  }

  predicate Different(regs: seq<Reg>) {
    forall j, k :: 0 <= j < k < |regs| ==> regs[j] != regs[k]
  }
}
