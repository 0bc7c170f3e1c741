/** The custom-0 bulk memory instruction: one mem or str routine as one instruction. */
module BulkOps {
  import opened Words
  import opened Isa
  import opened Machines

  /** The bytes from guest address a to the end of its region, writable region first;
      empty on a miss. */
  function Tail(mem: Mem, a: Word): seq<Byte> {
    var w := Rel(a, mem.wbase);
    var r := Rel(a, mem.rbase);
    if w < |mem.ram| then mem.ram[w..]
    else if r < |mem.rom| then mem.rom[r..]
    else []
  }

  /** How many writable bytes there are from a to the end of the region. */
  function WritableFrom(mem: Mem, a: Word): nat {
    var w := Rel(a, mem.wbase);
    if w < |mem.ram| then |mem.ram| - w else 0
  }

  function Min(a: nat, b: nat): nat {
    if a < b then a else b
  }

  /** One byte of the fallback copy: read at `from`, write at `to`, callbacks on a miss. */
  function CopyByte<H>(env: Env<H>, h: H, mem: Mem, to: Word, from: Word): (H, Mem) {
    var src := Tail(mem, from);
    var (h1, mem1, v) := if src != [] then (h, mem, src[0] as Word) else env.load(h, mem, from);
    var w := Rel(to, mem1.wbase);
    if w < |mem1.ram| then (h1, mem1.(ram := mem1.ram[w := v % 0x100]))
    else env.store(h1, mem1, to, v)
  }

  /** The byte the fallback copy moves at its i-th step: from the top when moving up. */
  function CopyIndex(to: Word, from: Word, n: nat, i: nat): nat
    requires i < n
  {
    if to > from then n - 1 - i else i
  }

  /** Steps i..n of the fallback copy. */
  function CopySteps<H>(env: Env<H>, h: H, mem: Mem, to: Word, from: Word, n: nat, i: nat): (H, Mem)
    requires i <= n
    decreases n - i
  {
    if i == n then (h, mem)
    else
      var j := CopyIndex(to, from, n, i);
      var (h1, mem1) := CopyByte(env, h, mem, Wrap(to + j), Wrap(from + j));
      CopySteps(env, h1, mem1, to, from, n, i + 1)
  }

  function Copy<H>(env: Env<H>, h: H, mem: Mem, to: Word, from: Word, n: nat): (H, Mem) {
    var src := Tail(mem, from);
    if 0 < WritableFrom(mem, to) && src != [] && n <= WritableFrom(mem, to) && n <= |src| then
      var w := Rel(to, mem.wbase);
      (h, mem.(ram := mem.ram[..w] + src[..n] + mem.ram[w + n..]))
    else CopySteps(env, h, mem, to, from, n, 0)
  }

  /** Steps i..n of the fallback fill. */
  function FillSteps<H>(env: Env<H>, h: H, mem: Mem, to: Word, v: Word, n: nat, i: nat): (H, Mem)
    requires i <= n
    decreases n - i
  {
    if i == n then (h, mem)
    else
      var w := Rel(Wrap(to + i), mem.wbase);
      var (h1, mem1) :=
        if w < |mem.ram| then (h, mem.(ram := mem.ram[w := v % 0x100]))
        else env.store(h, mem, Wrap(to + i), v);
      FillSteps(env, h1, mem1, to, v, n, i + 1)
  }

  function Fill<H>(env: Env<H>, h: H, mem: Mem, to: Word, v: Word, n: nat): (H, Mem) {
    if 0 < WritableFrom(mem, to) && n <= WritableFrom(mem, to) then
      var w := Rel(to, mem.wbase);
      (h, mem.(ram := mem.ram[..w] + seq(n, i => v % 0x100) + mem.ram[w + n..]))
    else FillSteps(env, h, mem, to, v, n, 0)
  }

  /** The first i in [i, n) where the bytes differ, or where x ends a string if `str`; else n. */
  function Mismatch(x: seq<Byte>, y: seq<Byte>, n: nat, str: bool, i: nat): (r: nat)
    requires i <= n <= |x| && n <= |y|
    ensures i <= r <= n
    ensures forall j :: i <= j < r ==> x[j] == y[j] && (str ==> x[j] != 0)
    ensures r < n ==> x[r] != y[r] || (str && x[r] == 0)
    decreases n - i
  {
    if i == n || x[i] != y[i] || (str && x[i] == 0) then i else Mismatch(x, y, n, str, i + 1)
  }

  /** The first i in [i, n) holding c, or, if `str`, a terminator; else n. */
  function Seek(x: seq<Byte>, c: Byte, n: nat, str: bool, i: nat): (r: nat)
    requires i <= n <= |x|
    ensures i <= r <= n
    ensures forall j :: i <= j < r ==> x[j] != c && (str ==> x[j] != 0)
    ensures r < n ==> x[r] == c || (str && x[r] == 0)
    decreases n - i
  {
    if i == n || x[i] == c || (str && x[i] == 0) then i else Seek(x, c, n, str, i + 1)
  }

  function Charge(i: nat, n: nat): nat {
    if i < n then i + 1 else n
  }

  /** The comparison result: the difference at the first mismatch, 0 if there is none. */
  function Difference(x: seq<Byte>, y: seq<Byte>, n: nat, i: nat): Word
    requires i <= n <= |x| && n <= |y|
  {
    if i < n then Wrap(x[i] as int - y[i] as int) else 0
  }

  /** One bulk instruction: the machine after it and the fuel of the loop it replaced. */
  function Bulk<H>(env: Env<H>, m: Machine<H>, f3: nat, rd: Reg, rs1: Reg, rs2: Reg): (Machine<H>, nat) {
    var a, b, n := m.x[rd], m.x[rs1], m.x[rs2];
    var x, y := Tail(m.mem, a), Tail(m.mem, b);
    if f3 == 0 then
      var (h, mem) := Copy(env, m.host, m.mem, a, b, n);
      (Machine(m.x, mem, h), n / 4)
    else if f3 == 1 then
      var (h, mem) := Fill(env, m.host, m.mem, a, b, n);
      (Machine(m.x, mem, h), n / 4)
    else if f3 == 2 || f3 == 5 || f3 == 7 then
      var len := Min(Min(if f3 == 5 then 0xffff_ffff else n, |x|), |y|);
      var i := Mismatch(x, y, len, f3 != 2, 0);
      (m.(x := m.x[rd := Difference(x, y, len, i)]), Charge(i, len))
    else if f3 == 3 then
      var len := Min(n, |x|);
      var i := Seek(x, b % 0x100, len, false, 0);
      (m.(x := m.x[rd := if i < len then Wrap(a + i) else 0]), Charge(i, len))
    else if f3 == 4 then
      var i := Seek(x, 0, |x|, false, 0);
      (m.(x := m.x[rd := Wrap(i)]), i + 1)
    else if f3 == 6 then
      var i := Seek(x, b % 0x100, |x|, true, 0);
      (m.(x := m.x[rd := if i < |x| && x[i] == b % 0x100 then Wrap(a + i) else 0]), Charge(i, |x|))
    else (m, 0)
  }

  lemma CopyByteKeeps<H(!new)>(env: Env<H>, h: H, mem: Mem, to: Word, from: Word)
    requires GoodEnv(env) && mem.Valid()
    ensures mem.SameShape(CopyByte(env, h, mem, to, from).1)
  {
  }

  lemma {:induction false} CopyStepsKeep<H(!new)>(env: Env<H>, h: H, mem: Mem, to: Word, from: Word, n: nat, i: nat)
    requires GoodEnv(env) && mem.Valid() && i <= n
    ensures mem.SameShape(CopySteps(env, h, mem, to, from, n, i).1)
    decreases n - i
  {
    hide CopyByte, Wrap;
    if i < n {
      var j := CopyIndex(to, from, n, i);
      var (h1, mem1) := CopyByte(env, h, mem, Wrap(to + j), Wrap(from + j));
      CopyByteKeeps(env, h, mem, Wrap(to + j), Wrap(from + j));
      CopyStepsKeep(env, h1, mem1, to, from, n, i + 1);
    }
  }

  lemma {:induction false} FillStepsKeep<H(!new)>(env: Env<H>, h: H, mem: Mem, to: Word, v: Word, n: nat, i: nat)
    requires GoodEnv(env) && mem.Valid() && i <= n
    ensures mem.SameShape(FillSteps(env, h, mem, to, v, n, i).1)
    decreases n - i
  {
    hide Wrap;
    if i < n {
      var w := Rel(Wrap(to + i), mem.wbase);
      var (h1, mem1) :=
        if w < |mem.ram| then (h, mem.(ram := mem.ram[w := v % 0x100]))
        else env.store(h, mem, Wrap(to + i), v);
      FillStepsKeep(env, h1, mem1, to, v, n, i + 1);
    }
  }

  /** A bulk instruction keeps the machine well formed, provided it does not name x0 as its result. */
  lemma BulkKeeps<H(!new)>(env: Env<H>, m: Machine<H>, f3: nat, rd: Reg, rs1: Reg, rs2: Reg)
    requires GoodEnv(env) && m.Valid() && rd != 0
    ensures Keeps(m, Bulk(env, m, f3, rd, rs1, rs2).0)
  {
    CopyStepsKeep(env, m.host, m.mem, m.x[rd], m.x[rs1], m.x[rs2], 0);
    FillStepsKeep(env, m.host, m.mem, m.x[rd], m.x[rs1], m.x[rs2], 0);
  }

  // ---- what the scans find ----

  /** The first n bytes are equal, or, of strings, all up to a common terminator. */
  predicate SameText(x: seq<Byte>, y: seq<Byte>, n: nat, str: bool)
    requires n <= |x| && n <= |y|
  {
    exists k :: 0 <= k <= n && (k == n || (str && x[k] == 0 && y[k] == 0)) && forall j :: 0 <= j < k ==> x[j] == y[j]
  }

  /** A comparison ends at k: the first bytes that differ, or a common terminator of strings, or n. */
  predicate StopsAt(x: seq<Byte>, y: seq<Byte>, n: nat, str: bool, k: nat)
    requires n <= |x| && n <= |y|
  {
    k <= n && (forall j :: 0 <= j < k ==> x[j] == y[j] && (str ==> x[j] != 0)) && (k < n ==> x[k] != y[k] || (str && x[k] == 0))
  }

  /** v is 0 for equal texts, and else the difference of the first bytes that differ; the charge
      is the bytes looked at. */
  ghost predicate Compared(x: seq<Byte>, y: seq<Byte>, n: nat, str: bool, v: Word, charge: nat)
    requires n <= |x| && n <= |y|
  {
    && (v == 0 <==> SameText(x, y, n, str))
    && exists k: nat {:trigger StopsAt(x, y, n, str, k)} :: StopsAt(x, y, n, str, k) &&
         v == (if k < n then Wrap(x[k] as int - y[k] as int) else 0) && charge == if k < n then k + 1 else n
  }

  /** Nothing but register rd may differ. */
  ghost predicate OnlySets<H>(m: Machine<H>, rd: Reg, m': Machine<H>) {
    m' == m.(x := m.x[rd := m'.x[rd]])
  }

  /** memcmp, strcmp and strncmp leave 0 exactly for equal texts, and else the difference of the
      first bytes that differ. They charge one for every byte looked at. */
  lemma CompareResult<H>(env: Env<H>, m: Machine<H>, f3: nat, rd: Reg, rs1: Reg, rs2: Reg)
    requires f3 == 2 || f3 == 5 || f3 == 7
    ensures var x, y := Tail(m.mem, m.x[rd]), Tail(m.mem, m.x[rs1]);
            var len := Min(Min(if f3 == 5 then 0xffff_ffff else m.x[rs2], |x|), |y|);
            var r := Bulk(env, m, f3, rd, rs1, rs2);
            Compared(x, y, len, f3 != 2, r.0.x[rd], r.1) && OnlySets(m, rd, r.0)
  {
    hide SameText, Mismatch, Wrap;
    var x, y := Tail(m.mem, m.x[rd]), Tail(m.mem, m.x[rs1]);
    DifferenceIs(x, y, Min(Min(if f3 == 5 then 0xffff_ffff else m.x[rs2], |x|), |y|), f3 != 2);
  }

  lemma DifferenceIs(x: seq<Byte>, y: seq<Byte>, n: nat, str: bool)
    requires n <= |x| && n <= |y|
    ensures var v := Difference(x, y, n, Mismatch(x, y, n, str, 0));
            (v == 0 <==> SameText(x, y, n, str)) && StopsAt(x, y, n, str, Mismatch(x, y, n, str, 0))
  {
    hide Mismatch, Wrap;
    var i := Mismatch(x, y, n, str, 0);
    if i < n { WrapNear(x[i] as int - y[i] as int); }
    if SameText(x, y, n, str) {
      var k :| 0 <= k <= n && (k == n || (str && x[k] == 0 && y[k] == 0)) && forall j :: 0 <= j < k ==> x[j] == y[j];
      assert i < k ==> x[i] == y[i];
    }
  }

  /** strlen leaves the number of bytes before the first terminator, or all there are, and charges
      one more. */
  lemma StrlenResult<H>(env: Env<H>, m: Machine<H>, rd: Reg, rs1: Reg, rs2: Reg)
    requires m.mem.Valid()
    ensures var x, r := Tail(m.mem, m.x[rd]), Bulk(env, m, 4, rd, rs1, rs2);
            var n := r.0.x[rd];
            n <= |x| && (forall j :: 0 <= j < n ==> x[j] != 0) && (n < |x| ==> x[n] == 0) && r.1 == n + 1 && OnlySets(m, rd, r.0)
  {
    WrapNear(Seek(Tail(m.mem, m.x[rd]), 0, |Tail(m.mem, m.x[rd])|, false, 0));
  }

  /** k is the first of the n bytes that is c. */
  predicate FirstOf(x: seq<Byte>, c: Byte, n: nat, k: nat) {
    k < n <= |x| && x[k] == c && c !in x[..k]
  }

  /** memchr leaves the address of the first of n bytes that is c, and 0 when there is none; it
      charges the bytes looked at. */
  lemma MemchrResult<H>(env: Env<H>, m: Machine<H>, rd: Reg, rs1: Reg, rs2: Reg)
    ensures var x, c, (m', charge) := Tail(m.mem, m.x[rd]), m.x[rs1] % 0x100, Bulk(env, m, 3, rd, rs1, rs2);
            var len, v := Min(m.x[rs2], |x|), m'.x[rd];
            OnlySets(m, rd, m') &&
            ((exists k: nat :: FirstOf(x, c, len, k) && v == Wrap(m.x[rd] as int + k) && charge == k + 1) || (c !in x[..len] && v == 0 && charge == len))
  {
    hide Wrap, Seek, FirstOf;
    var x := Tail(m.mem, m.x[rd]);
    SeekIs(x, m.x[rs1] % 0x100, Min(m.x[rs2], |x|));
  }

  lemma SeekIs(x: seq<Byte>, c: Byte, n: nat)
    requires n <= |x|
    ensures var i := Seek(x, c, n, false, 0); if i < n then FirstOf(x, c, n, i) else c !in x[..n]
  {
    hide Seek;
  }

  /** A string scan for c ends at k: the first byte that is c or a terminator, or the end. */
  predicate ScanEnds(x: seq<Byte>, c: Byte, k: nat) {
    k <= |x| && (forall j :: 0 <= j < k ==> x[j] != c && x[j] != 0) && (k < |x| ==> x[k] == c || x[k] == 0)
  }

  /** strchr leaves the address of the first byte of the string that is c, its terminator
      included, and 0 when there is none; it charges the bytes looked at. */
  lemma StrchrResult<H>(env: Env<H>, m: Machine<H>, rd: Reg, rs1: Reg, rs2: Reg)
    ensures var x, c, (m', charge) := Tail(m.mem, m.x[rd]), m.x[rs1] % 0x100, Bulk(env, m, 6, rd, rs1, rs2);
            var v := m'.x[rd];
            OnlySets(m, rd, m') &&
            exists k: nat :: ScanEnds(x, c, k) && v == (if k < |x| && x[k] == c then Wrap(m.x[rd] as int + k) else 0) &&
                        charge == if k < |x| then k + 1 else |x|
  {
    hide Wrap, Seek;
    var x, c := Tail(m.mem, m.x[rd]), m.x[rs1] % 0x100;
    assert ScanEnds(x, c, Seek(x, c, |x|, true, 0));
  }

  // ---- a bulk instruction that names x0 ----

  /** What a scan whose result register is x0 would write is zero. */
  predicate ScansZero<H>(m: Machine<H>, f3: nat, rs1: Reg, rs2: Reg) {
    var x, y, c, n := Tail(m.mem, m.x[0]), Tail(m.mem, m.x[rs1]), m.x[rs1] % 0x100, m.x[rs2];
    if f3 == 2 || f3 == 5 || f3 == 7 then SameText(x, y, Min(Min(if f3 == 5 then 0xffff_ffff else n, |x|), |y|), f3 != 2)
    else if f3 == 3 then Seek(x, c, Min(n, |x|), false, 0) in {0, Min(n, |x|)}
    else if f3 == 4 then x == [] || x[0] == 0
    else f3 == 6 ==> var i := Seek(x, c, |x|, true, 0); i == 0 || i == |x| || x[i] != c
  }

  /** The instruction writes its result register unguarded: naming x0 keeps x0 zero exactly when
      it copies, fills, or its scan comes out as zero. */
  lemma NamingZeroIff<H(!new)>(env: Env<H>, m: Machine<H>, f3: nat, rs1: Reg, rs2: Reg)
    requires GoodEnv(env) && m.Valid()
    ensures Keeps(m, Bulk(env, m, f3, 0, rs1, rs2).0) <==> f3 < 2 || f3 > 7 || ScansZero(m, f3, rs1, rs2)
  {
    if f3 < 2 {
      CopyStepsKeep(env, m.host, m.mem, m.x[0], m.x[rs1], m.x[rs2], 0);
      FillStepsKeep(env, m.host, m.mem, m.x[0], m.x[rs1], m.x[rs2], 0);
    } else if f3 == 2 || f3 == 5 || f3 == 7 {
      CompareResult(env, m, f3, 0, rs1, rs2);
    } else if f3 == 4 {
      StrlenResult(env, m, 0, rs1, rs2);
    } else if f3 <= 7 {
      NamingZeroSearch(env, m, f3, rs1, rs2);
    }
  }

  lemma NamingZeroSearch<H(!new)>(env: Env<H>, m: Machine<H>, f3: nat, rs1: Reg, rs2: Reg)
    requires m.Valid() && (f3 == 3 || f3 == 6)
    ensures Keeps(m, Bulk(env, m, f3, 0, rs1, rs2).0) <==> ScansZero(m, f3, rs1, rs2)
  {
    var x, c := Tail(m.mem, m.x[0]), m.x[rs1] % 0x100;
    WrapNear(Seek(x, c, Min(m.x[rs2], |x|), false, 0));
    WrapNear(Seek(x, c, |x|, true, 0));
  }

  /** strlen into x0 of a one-byte string at address 0. */
  lemma NamingZeroBreaks<H>(env: Env<H>, m: Machine<H>)
    requires m.x[0] == 0 && m.mem == Mem(0, [1, 0], 0x8000_0000, [])
    ensures Bulk(env, m, 4, 0, 0, 0).0.x[0] == 1
  {
    assert Tail(m.mem, 0) == [1, 0];
    StrlenResult(env, m, 0, 0, 0);
  }
}
