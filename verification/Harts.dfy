/** The emulated hart every engine drives: registers and guest memory updated in place, with
    accesses the regions cannot satisfy routed to the host. */
module Harts {
  import opened Words
  import opened Isa
  import opened Machines

  /** Callbacks and handlers keep the regions in place, whatever the registers hold. */
  ghost predicate KeepsShape<H(!new)>(env: Env<H>) {
    && (forall h, mem: Mem, a :: mem.Valid() ==> mem.SameShape(env.load(h, mem, a).1))
    && (forall h, mem: Mem, a, v :: mem.Valid() ==> mem.SameShape(env.store(h, mem, a, v).1))
    && (forall m: Machine<H>, pc :: m.mem.Valid() ==> m.mem.SameShape(env.ecall(m, pc).0.mem))
    && (forall m: Machine<H>, pc :: m.mem.Valid() ==> m.mem.SameShape(env.ebreak(m, pc).0.mem))
    && (forall m: Machine<H>, pc :: m.mem.Valid() ==> m.mem.SameShape(env.illegal(m, pc).0.mem))
  }

  class Hart<H(!new)> {
    const env: Env<H>
    const x: array<Word>
    const wbase: Word
    const ram: array<Byte>
    const rbase: Word
    const rom: seq<Byte>
    var host: H

    ghost predicate Valid()
      reads this
    {
      KeepsShape(env) && x.Length == 32 && x as object != ram && ram.Length < 0x1_0000_0000 && |rom| < 0x1_0000_0000
    }

    function MemNow(): Mem
      reads ram
    {
      Mem(wbase, ram[..], rbase, rom)
    }

    function Snapshot(): Machine<H>
      requires x.Length == 32
      reads this, x, ram
    {
      Machine(x[..], MemNow(), host)
    }

    /** Registers zero but sp, which starts at the stack/heap boundary. */
    constructor (env: Env<H>, wbase: Word, ram: array<Byte>, rom: seq<Byte>, rbase: Word, host: H)
      requires KeepsShape(env) && ram.Length < 0x1_0000_0000 && |rom| < 0x1_0000_0000
      ensures Valid() && fresh(x) && this.env == env && this.ram == ram && this.rom == rom
      ensures Snapshot() == Machine(seq(32, i => 0)[2 := 0x8000_0000], Mem(wbase, ram[..], rbase, rom), host)
    {
      this.env, this.wbase, this.ram, this.rom, this.rbase, this.host := env, wbase, ram, rom, rbase, host;
      var regs := new Word[32](i => 0);
      regs[2] := HALF;
      x := regs;
      new;
      assert x[..] == seq(32, i => 0)[2 := HALF];
    }

    // ---- memory ----

    method LoadBytes(rel: nat, n: Size) returns (v: Word)
      requires rel + n <= ram.Length
      ensures v == ReadLE(ram[..], rel, n)
    {
      var sum: int := ram[rel];
      if n > 1 { sum := sum + 0x100 * ram[rel + 1] as int; }
      if n > 2 { sum := sum + 0x1_0000 * ram[rel + 2] as int + 0x100_0000 * ram[rel + 3] as int; }
      v := sum;
    }

    method StoreBytes(rel: nat, n: Size, v: Word)
      requires rel + n <= ram.Length
      modifies ram
      ensures ram[..] == WriteLE(old(ram[..]), rel, n, v)
    {
      ram[rel] := ByteOf(v, 0);
      if n > 1 { ram[rel + 1] := ByteOf(v, 1); }
      if n > 2 { ram[rel + 2], ram[rel + 3] := ByteOf(v, 2), ByteOf(v, 3); }
    }

    /** Takes over what a callback or handler left in host state and memory. */
    method Absorb(h: H, mem: Mem)
      requires Valid() && MemNow().SameShape(mem)
      modifies this`host, ram
      ensures Valid() && host == h && MemNow() == mem
    {
      host := h;
      forall i | 0 <= i < ram.Length {
        ram[i] := mem.ram[i];
      }
      assert ram[..] == mem.ram;
    }

    method CallLoad(a: Word) returns (v: Word)
      requires Valid()
      modifies this`host, ram
      ensures Valid() && (host, MemNow(), v) == old(env.load(host, MemNow(), a))
    {
      var (h, mem, w) := env.load(host, MemNow(), a);
      assert MemNow().Valid();
      Absorb(h, mem);
      v := w;
    }

    method CallStore(a: Word, v: Word)
      requires Valid()
      modifies this`host, ram
      ensures Valid() && (host, MemNow()) == old(env.store(host, MemNow(), a, v))
    {
      var (h, mem) := env.store(host, MemNow(), a, v);
      assert MemNow().Valid();
      Absorb(h, mem);
    }

    method MemRead(a: Word, n: Size) returns (v: Word)
      requires Valid()
      modifies this`host, ram
      ensures Valid() && (host, MemNow(), v) == old(Read(env, host, MemNow(), a, n))
    {
      hide ReadLE, WriteLE, KeepsShape;
      var w, r := Rel(a, wbase), Rel(a, rbase);
      if Inside(w, ram.Length, n) {
        v := LoadBytes(w, n);
      } else if Inside(r, |rom|, n) {
        v := ReadLE(rom, r, n);
      } else {
        v := CallLoad(a);
      }
    }

    method MemWrite(a: Word, n: Size, v: Word)
      requires Valid()
      modifies this`host, ram
      ensures Valid() && (host, MemNow()) == old(Write(env, host, MemNow(), a, n, v))
    {
      hide ReadLE, WriteLE, KeepsShape;
      var w := Rel(a, wbase);
      if Inside(w, ram.Length, n) {
        StoreBytes(w, n, v);
      } else {
        CallStore(a, v);
      }
    }

    /** The state after a handler returned r. */
    method Adopt(r: (Machine<H>, bool))
      requires Valid() && MemNow().SameShape(r.0.mem)
      modifies this`host, ram, x
      ensures Valid() && Snapshot() == r.0
    {
      forall k | 0 <= k < 32 {
        x[k] := r.0.x[k];
      }
      assert x[..] == r.0.x;
      Absorb(r.0.host, r.0.mem);
    }

    /** A register write; x0 stays zero. */
    method Put(rd: Reg, v: Word)
      requires Valid()
      modifies x
      ensures Snapshot() == SetReg(old(Snapshot()), rd, v)
    {
      if rd != 0 { x[rd] := v; }
    }

    method LoadTo(k: LoadKind, rd: Reg, a: Word)
      requires Valid()
      modifies this`host, ram, x
      ensures Valid() && Snapshot() == DoLoad(env, old(Snapshot()), k, rd, a)
    {
      hide KeepsShape, Read, Extend;
      if rd != 0 {
        var v := MemRead(a, LoadSize(k));
        x[rd] := Extend(k, v);
      }
    }

    method StoreFrom(k: StoreKind, a: Word, v: Word)
      requires Valid()
      modifies this`host, ram
      ensures Valid() && Snapshot() == DoStore(env, old(Snapshot()), k, a, v)
    {
      hide KeepsShape, Write;
      MemWrite(a, StoreSize(k), v);
    }
  }
}
