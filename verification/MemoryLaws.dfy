/** What one load or store does, in terms of the bytes at its address. */
module MemoryLaws {
  import opened Words
  import opened Isa
  import opened Machines

  /** The number these bytes make, the least significant first. */
  function Number(bs: seq<Byte>): nat {
    if bs == [] then 0 else bs[0] + 0x100 * Number(bs[1..])
  }

  lemma NumberIs(s: seq<Byte>, at: nat, n: Size)
    requires at + n <= |s|
    ensures Number(s[at..at + n]) == ReadLE(s, at, n)
    ensures Number(s[at..at + n]) < Limit(n)
  {
    FirstByte(s, at, at + n);
    if n > 1 { FirstByte(s, at + 1, at + n); }
    if n > 2 {
      FirstByte(s, at + 2, at + n);
      FirstByte(s, at + 3, at + n);
    }
    assert s[at + n..at + n] == [];
  }

  lemma FirstByte(s: seq<Byte>, i: nat, j: nat)
    requires i < j <= |s|
    ensures Number(s[i..j]) == s[i] + 0x100 * Number(s[i + 1..j])
  {
    assert s[i..j][1..] == s[i + 1..j];
  }

  /** The numbers of n bytes. */
  function Limit(n: Size): nat {
    if n == 1 then 0x100 else if n == 2 then 0x1_0000 else 0x1_0000_0000
  }

  /** v is the low n bytes of c, as a word: sign-extended or filled with zeros. */
  predicate Narrowed(v: Word, c: nat, n: Size, signed: bool) {
    if signed then (Signed(v) - c) % Limit(n) == 0 && 0 <= 2 * Signed(v) + Limit(n) < 2 * Limit(n)
    else v == c % Limit(n)
  }

  /** Bytes and signedness of a load, and bytes of a store (section 2.6). */
  function LoadForm(k: LoadKind): (Size, bool) {
    match k case LB => (1, true) case LH => (2, true) case LW => (4, true) case LBU => (1, false) case LHU => (2, false)
  }

  function StoreForm(k: StoreKind): Size {
    match k case SB => 1 case SH => 2 case SW => 4
  }

  /** The n bytes at a lie wholly in the region. */
  predicate Lies(s: seq<Byte>, base: Word, a: Word, n: nat) {
    Rel(a, base) + n <= |s|
  }

  lemma Narrows(k: LoadKind, c: Word)
    ensures Narrowed(Extend(k, c), c, LoadForm(k).0, LoadForm(k).1)
  {
    if LoadForm(k).1 {
      var l := Limit(LoadForm(k).0);
      var q, low := c / l, c % l;
      assert c == q * l + low;
      if k != LW { SignExtended(c, l / 2); }
      QuotientIs(Signed(Extend(k, c)) - c, l, if 2 * low < l then 0 - q else -1 - q, 0);
    }
  }

  lemma SignExtended(c: Word, half: nat)
    requires half == 0x80 || half == 0x8000
    ensures var low := c % (2 * half); Signed(SignExtend(c, half)) == if low < half then low else low - 2 * half
  {
    WrapNear(c % (2 * half) - 2 * half);
  }

  /** A load takes its bytes from the writable region, else from the read-only one, else, when
      neither holds them all, the callback's answer; it extends them into its register and
      changes nothing else. Into x0 it does nothing at all. */
  lemma LoadResult<H>(env: Env<H>, m: Machine<H>, k: LoadKind, rd: Reg, a: Word)
    ensures var (n, signed) := LoadForm(k); var m' := DoLoad(env, m, k, rd, a); var v := m'.x[rd];
            if rd == 0 then m' == m
            else if Lies(m.mem.ram, m.mem.wbase, a, n) then
              var w := Rel(a, m.mem.wbase); m' == m.(x := m.x[rd := v]) && Narrowed(v, Number(m.mem.ram[w..w + n]), n, signed)
            else if Lies(m.mem.rom, m.mem.rbase, a, n) then
              var r := Rel(a, m.mem.rbase); m' == m.(x := m.x[rd := v]) && Narrowed(v, Number(m.mem.rom[r..r + n]), n, signed)
            else
              var (h, mem, c) := env.load(m.host, m.mem, a); m' == Machine(m.x[rd := v], mem, h) && Narrowed(v, c, n, signed)
  {
    hide Rel, Narrowed, Number, ReadLE, Extend;
    var n := LoadForm(k).0;
    var w, r := Rel(a, m.mem.wbase), Rel(a, m.mem.rbase);
    if Lies(m.mem.ram, m.mem.wbase, a, n) {
      NumberIs(m.mem.ram, w, n);
      Narrows(k, ReadLE(m.mem.ram, w, n));
    } else if Lies(m.mem.rom, m.mem.rbase, a, n) {
      NumberIs(m.mem.rom, r, n);
      Narrows(k, ReadLE(m.mem.rom, r, n));
    } else {
      Narrows(k, env.load(m.host, m.mem, a).2);
    }
  }

  lemma LowBytes(s: seq<Byte>, at: nat, n: Size, v: Word)
    requires at + n <= |s|
    ensures Number(WriteLE(s, at, n, v)[at..at + n]) == v % Limit(n)
  {
    var r := WriteLE(s, at, n, v);
    NumberIs(r, at, n);
    BytesMakeWord(v);
    assert r[at] == ByteOf(v, 0) && (n > 1 ==> r[at + 1] == ByteOf(v, 1)) && (n > 2 ==> r[at + 2] == ByteOf(v, 2) && r[at + 3] == ByteOf(v, 3));
  }

  /** A store leaves the low bytes of its value where the writable region holds them all, and
      there alone; else it is one callback with the whole value. */
  lemma StoreResult<H>(env: Env<H>, m: Machine<H>, k: StoreKind, a: Word, v: Word)
    ensures var n := StoreForm(k); var m' := DoStore(env, m, k, a, v); var w := Rel(a, m.mem.wbase);
            if Lies(m.mem.ram, m.mem.wbase, a, n) then
              && m'.x == m.x && m'.host == m.host && m.mem.SameShape(m'.mem) && Number(m'.mem.ram[w..w + n]) == v % Limit(n)
              && (forall j :: 0 <= j < |m.mem.ram| && !(w <= j < w + n) ==> m'.mem.ram[j] == m.mem.ram[j])
            else
              var (h, mem) := env.store(m.host, m.mem, a, v); m' == Machine(m.x, mem, h)
  {
    hide Rel, Number, ByteOf;
    if Lies(m.mem.ram, m.mem.wbase, a, StoreForm(k)) { LowBytes(m.mem.ram, Rel(a, m.mem.wbase), StoreForm(k), v); }
  }

  /** An address relative to a base is the distance up to it, modulo 2^32. */
  lemma RelativeIs(a: Word, base: Word)
    ensures (base + Rel(a, base)) % 0x1_0000_0000 == a
  {
    WrapNear(a - base);
  }

  /** An indirect jump goes to the even address at or just below the sum. */
  lemma IndirectTarget(x: Word)
    ensures ClearBit0(x) % 2 == 0 && ClearBit0(x) <= x <= ClearBit0(x) + 1
  {
  }
}
