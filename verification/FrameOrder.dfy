/** Runs of word stores and loads in another order: which pairs may change places. */
module FrameOrder {
  import opened Words
  import opened Isa
  import opened Machines
  import opened FrameStores
  import opened Reorderings

  /** The word at a is in the writable region. */
  predicate Hit(mem: Mem, a: Word) {
    Inside(Rel(a, mem.wbase), |mem.ram|, 4)
  }

  /** The word at a is read from the read-only region. */
  predicate HitRom(mem: Mem, a: Word) {
    !Hit(mem, a) && Inside(Rel(a, mem.rbase), |mem.rom|, 4)
  }

  /** Two stores nothing can tell the order of: neither goes to the callback. */
  predicate StoresFree(mem: Mem, a: Word, b: Word) {
    Hit(mem, a) && Hit(mem, b)
  }

  /** Two loads nothing can tell the order of: neither goes to the callback, or one reads bytes
      no callback may change. */
  predicate LoadsFree(mem: Mem, a: Word, b: Word) {
    HitRom(mem, a) || HitRom(mem, b) || (Hit(mem, a) && Hit(mem, b))
  }

  predicate WordsApart(a: Word, b: Word) {
    4 <= Wrap(a - b) <= 0xffff_fffc
  }

  /** The words of the list do not overlap. */
  predicate AllApart(addrs: seq<Word>) {
    forall i, j :: 0 <= i < j < |addrs| ==> WordsApart(addrs[i], addrs[j])
  }

  lemma ApartOffsets(mem: Mem, a: Word, b: Word)
    requires mem.Valid() && Hit(mem, a) && Hit(mem, b) && WordsApart(a, b)
    ensures Rel(a, mem.wbase) + 4 <= Rel(b, mem.wbase) || Rel(b, mem.wbase) + 4 <= Rel(a, mem.wbase)
  {
    WrapNear(a - b);
    WrapNear(a - mem.wbase);
    WrapNear(b - mem.wbase);
  }

  // ---- stores ----

  function PutStep<H>(env: Env<H>, addrs: seq<Word>, vals: seq<Word>): ((H, Mem), nat) -> (H, Mem)
    requires |addrs| == |vals|
  {
    (s: (H, Mem), q: nat) => if q < |addrs| then WriteWord(env, s.0, s.1, addrs[q], vals[q]) else s
  }

  /** Stores listed in some order are the steps of a list taken in that order. */
  lemma {:induction false} PutsAreSteps<H>(env: Env<H>, h: H, mem: Mem, addrs: seq<Word>, vals: seq<Word>,
                                          addrs2: seq<Word>, vals2: seq<Word>, order: seq<nat>)
    requires |addrs| == |vals| == |order| && |addrs2| == |vals2|
    requires forall c :: 0 <= c < |order| ==> order[c] < |addrs2| && addrs[c] == addrs2[order[c]] && vals[c] == vals2[order[c]]
    ensures Puts(env, h, mem, addrs, vals) == Steps(PutStep(env, addrs2, vals2), (h, mem), order)
    decreases |order|
  {
    hide Write;
    if order != [] {
      var (h1, mem1) := WriteWord(env, h, mem, addrs[0], vals[0]);
      PutsAreSteps(env, h1, mem1, addrs[1..], vals[1..], addrs2, vals2, order[1..]);
    }
  }

  /** Host and memory states with the regions of mem0. */
  function ShapeOf<H>(mem0: Mem): ((H, Mem)) -> bool {
    (s: (H, Mem)) => s.1.Valid() && mem0.SameShape(s.1)
  }

  lemma PutKeeps<H(!new)>(env: Env<H>, mem0: Mem, addrs: seq<Word>, vals: seq<Word>)
    requires GoodEnv(env) && |addrs| == |vals|
    ensures Reorderings.Keeps(PutStep(env, addrs, vals), ShapeOf(mem0))
  {
    hide Write, GoodEnv;
    forall s: (H, Mem), q: nat | ShapeOf(mem0)(s)
      ensures ShapeOf(mem0)(PutStep(env, addrs, vals)(s, q))
    {
      if q < |addrs| { WriteKeeps(env, s.0, s.1, addrs[q], 4, vals[q]); }
    }
  }

  lemma WritesCommute<H>(env: Env<H>, h: H, mem: Mem, a: Word, v: Word, b: Word, u: Word)
    requires mem.Valid() && StoresFree(mem, a, b) && WordsApart(a, b)
    ensures var (h1, mem1) := WriteWord(env, h, mem, a, v); var (h2, mem2) := WriteWord(env, h, mem, b, u);
            WriteWord(env, h1, mem1, b, u) == WriteWord(env, h2, mem2, a, v)
  {
    ApartOffsets(mem, a, b);
    var w, r := Rel(a, mem.wbase), Rel(b, mem.wbase);
    assert WriteLE(WriteLE(mem.ram, w, 4, v), r, 4, u) == WriteLE(WriteLE(mem.ram, r, 4, u), w, 4, v);
  }

  /** Stores whose free pairs alone changed places leave the same memory and host. */
  lemma PutsReorder<H(!new)>(env: Env<H>, h: H, mem: Mem, addrs: seq<Word>, vals: seq<Word>,
                             addrs2: seq<Word>, vals2: seq<Word>, order: seq<nat>)
    requires GoodEnv(env) && mem.Valid() && |addrs| == |vals| == |addrs2| == |vals2| == |order| && AllApart(addrs2)
    requires Reorderings.Different(order) && forall x: nat :: x in order <==> x < |order|
    requires forall c :: 0 <= c < |order| ==> order[c] < |addrs2| && addrs[c] == addrs2[order[c]] && vals[c] == vals2[order[c]]
    requires forall c, d :: 0 <= c < d < |order| && order[d] < order[c] ==> StoresFree(mem, addrs[c], addrs[d])
    ensures Puts(env, h, mem, addrs, vals) == Puts(env, h, mem, addrs2, vals2)
  {
    hide Write, GoodEnv, Hit, WordsApart, ShapeOf;
    var step := PutStep(env, addrs2, vals2);
    PutsAreSteps(env, h, mem, addrs, vals, addrs2, vals2, order);
    PutsAreSteps(env, h, mem, addrs2, vals2, addrs2, vals2, Upto(|order|));
    PutKeeps(env, mem, addrs2, vals2);
    forall c, d | 0 <= c < d < |order| && order[d] < order[c]
      ensures Commute(step, ShapeOf(mem), order[d], order[c])
    {
      PutsCommute(env, mem, addrs2, vals2, order[d], order[c]);
    }
    assert ShapeOf(mem)((h, mem)) by { ShapeSelf(h, mem); }
    OrderIrrelevant(step, ShapeOf(mem), (h, mem), order);
  }

  lemma ShapeSelf<H>(h: H, mem: Mem)
    requires mem.Valid()
    ensures ShapeOf(mem)((h, mem))
  {
  }

  lemma PutsCommute<H(!new)>(env: Env<H>, mem0: Mem, addrs: seq<Word>, vals: seq<Word>, i: nat, j: nat)
    requires |addrs| == |vals| && AllApart(addrs) && i < j < |addrs| && StoresFree(mem0, addrs[j], addrs[i])
    ensures Commute(PutStep(env, addrs, vals), ShapeOf(mem0), i, j)
  {
    hide Write, WordsApart;
    var step := PutStep(env, addrs, vals);
    forall s: (H, Mem) | ShapeOf(mem0)(s)
      ensures step(step(s, i), j) == step(step(s, j), i)
    {
      WritesCommute(env, s.0, s.1, addrs[i], vals[i], addrs[j], vals[j]);
    }
  }

  // ---- loads ----

  function GetStep<H>(env: Env<H>, regs: seq<Reg>, addrs: seq<Word>): (Machine<H>, nat) -> Machine<H>
    requires |addrs| == |regs|
  {
    (m: Machine<H>, q: nat) => if q < |addrs| then GetWord(env, m, regs[q], addrs[q]) else m
  }

  lemma {:induction false} GetsAreSteps<H>(env: Env<H>, m: Machine<H>, regs: seq<Reg>, addrs: seq<Word>,
                                          regs2: seq<Reg>, addrs2: seq<Word>, order: seq<nat>)
    requires |addrs| == |regs| == |order| && |addrs2| == |regs2|
    requires forall c :: 0 <= c < |order| ==> order[c] < |addrs2| && addrs[c] == addrs2[order[c]] && regs[c] == regs2[order[c]]
    ensures Gets(env, m, regs, addrs) == Steps(GetStep(env, regs2, addrs2), m, order)
    decreases |order|
  {
    hide Read;
    if order != [] {
      GetsAreSteps(env, GetWord(env, m, regs[0], addrs[0]), regs[1..], addrs[1..], regs2, addrs2, order[1..]);
    }
  }

  function ShapedLike<H>(mem0: Mem): Machine<H> -> bool {
    (m: Machine<H>) => m.mem.Valid() && mem0.SameShape(m.mem)
  }

  lemma GetKeeps<H(!new)>(env: Env<H>, mem0: Mem, regs: seq<Reg>, addrs: seq<Word>)
    requires GoodEnv(env) && |addrs| == |regs|
    ensures Reorderings.Keeps(GetStep(env, regs, addrs), ShapedLike(mem0))
  {
    hide Read, GoodEnv;
    forall m: Machine<H>, q: nat | ShapedLike(mem0)(m)
      ensures ShapedLike(mem0)(GetStep(env, regs, addrs)(m, q))
    {
      if q < |addrs| { ReadKeeps(env, m.host, m.mem, addrs[q], 4); }
    }
  }

  lemma LoadsCommute<H(!new)>(env: Env<H>, m: Machine<H>, r: Reg, a: Word, s: Reg, b: Word)
    requires GoodEnv(env) && m.mem.Valid() && LoadsFree(m.mem, a, b) && r != s
    ensures GetWord(env, GetWord(env, m, r, a), s, b) == GetWord(env, GetWord(env, m, s, b), r, a)
  {
    ReadKeeps(env, m.host, m.mem, a, 4);
    ReadKeeps(env, m.host, m.mem, b, 4);
    var v, u := ReadWord(env, m.host, m.mem, a).2, ReadWord(env, m.host, m.mem, b).2;
    assert m.x[r := v][s := u] == m.x[s := u][r := v];
  }

  lemma GetsCommute<H(!new)>(env: Env<H>, mem0: Mem, regs: seq<Reg>, addrs: seq<Word>, i: nat, j: nat)
    requires GoodEnv(env) && |addrs| == |regs| && FrameStores.Different(regs) && i < j < |addrs|
    requires LoadsFree(mem0, addrs[j], addrs[i])
    ensures Commute(GetStep(env, regs, addrs), ShapedLike(mem0), i, j)
  {
    hide Read, GetWord, GoodEnv;
    var step := GetStep(env, regs, addrs);
    forall m: Machine<H> | ShapedLike(mem0)(m)
      ensures step(step(m, i), j) == step(step(m, j), i)
    {
      LoadsCommute(env, m, regs[i], addrs[i], regs[j], addrs[j]);
    }
  }

  /** Loads whose free pairs alone changed places leave the same machine. */
  lemma GetsReorder<H(!new)>(env: Env<H>, m: Machine<H>, regs: seq<Reg>, addrs: seq<Word>,
                             regs2: seq<Reg>, addrs2: seq<Word>, order: seq<nat>)
    requires GoodEnv(env) && m.mem.Valid() && |addrs| == |regs| == |addrs2| == |regs2| == |order|
    requires FrameStores.Different(regs2) && Reorderings.Different(order) && forall x: nat :: x in order <==> x < |order|
    requires forall c :: 0 <= c < |order| ==> order[c] < |addrs2| && addrs[c] == addrs2[order[c]] && regs[c] == regs2[order[c]]
    requires forall c, d :: 0 <= c < d < |order| && order[d] < order[c] ==> LoadsFree(m.mem, addrs[c], addrs[d])
    ensures Gets(env, m, regs, addrs) == Gets(env, m, regs2, addrs2)
  {
    hide Read, GetWord, GoodEnv, Hit, HitRom, LoadsFree, ShapedLike;
    var step := GetStep(env, regs2, addrs2);
    GetsAreSteps(env, m, regs, addrs, regs2, addrs2, order);
    GetsAreSteps(env, m, regs2, addrs2, regs2, addrs2, Upto(|order|));
    GetKeeps(env, m.mem, regs2, addrs2);
    forall c, d | 0 <= c < d < |order| && order[d] < order[c]
      ensures Commute(step, ShapedLike(m.mem), order[d], order[c])
    {
      GetsCommute(env, m.mem, regs2, addrs2, order[d], order[c]);
    }
    assert ShapedLike(m.mem)(m) by { ShapedSelf(m); }
    OrderIrrelevant(step, ShapedLike(m.mem), m, order);
  }

  lemma ShapedSelf<H>(m: Machine<H>)
    requires m.mem.Valid()
    ensures ShapedLike(m.mem)(m)
  {
  }
}
