/** From a canonical layout to the equality of the fused frame op and its run. */
module FrameAgreement {
  import opened Words
  import opened Isa
  import opened Machines
  import opened Fusion
  import opened Evaluator
  import opened Frames
  import opened FrameStores
  import opened FrameSimulation
  import opened FrameOrder
  import Reorderings

  /** Which instruction of the run holds each slot, from the top slot down. */
  function Holders(run: seq<Insn>, frame: int, q: nat): (s: seq<nat>)
    requires q <= |run|
    ensures |s| == |run| - q
    ensures forall k :: 0 <= k < |s| ==> s[k] == SlotHolder(OffsOf(run), frame, q + k)
    decreases |run| - q
  {
    if q == |run| then [] else [SlotHolder(OffsOf(run), frame, q)] + Holders(run, frame, q + 1)
  }

  predicate Distinct(s: seq<nat>) {
    forall j, k :: 0 <= j < k < |s| ==> s[j] != s[k]
  }

  function Elements(s: seq<nat>): set<nat> {
    set k | 0 <= k < |s| :: s[k]
  }

  lemma {:induction false} DistinctCount(s: seq<nat>)
    requires Distinct(s)
    ensures |Elements(s)| == |s|
  {
    if s != [] {
      var last := |s| - 1;
      DistinctCount(s[..last]);
      assert Elements(s) == Elements(s[..last]) + {s[last]};
      assert s[last] !in Elements(s[..last]);
    }
  }

  function Below(n: nat): (s: set<nat>)
    ensures |s| == n && forall k: nat :: k in s <==> k < n
  {
    if n == 0 then {} else Below(n - 1) + {n - 1}
  }

  /** n different numbers below n are all the numbers below n. */
  lemma Pigeonhole(s: seq<nat>, c: nat)
    requires Distinct(s) && (forall k :: 0 <= k < |s| ==> s[k] < |s|) && c < |s|
    ensures c in s
  {
    DistinctCount(s);
    var all := Below(|s|);
    assert Elements(s) <= all;
    if c !in s {
      assert c !in Elements(s);
      assert Elements(s) <= all - {c};
      Smaller(Elements(s), all - {c});
    }
  }

  lemma Smaller(a: set<nat>, b: set<nat>)
    requires a <= b
    ensures |a| <= |b|
  {
    assert b == a + (b - a);
  }

  /** A rearrangement of n positions. */
  predicate Rearranges(to: seq<nat>, n: nat) {
    && |to| == n
    && Distinct(to)
    && (forall q :: 0 <= q < n ==> to[q] < n)
    && (forall c :: 0 <= c < n ==> c in to)
  }

  /** In a canonical layout the holders are a permutation of the run. */
  lemma HoldersPermute(run: seq<Insn>, frame: int)
    requires Laid(run, frame)
    ensures Rearranges(Holders(run, frame, 0), |run|)
    ensures forall q :: 0 <= q < |run| ==> FrameOff(run[Holders(run, frame, 0)[q]]) == Slot(frame, q)
  {
    var to := Holders(run, frame, 0);
    forall q | 0 <= q < |run|
      ensures to[q] < |run| && FrameOff(run[to[q]]) == Slot(frame, q)
    {
      assert to[q] == SlotHolder(OffsOf(run), frame, q);
    }
    assert Distinct(to);
    forall c | 0 <= c < |run|
      ensures c in to
    {
      Pigeonhole(to, c);
    }
  }

  /** The q-th set bit names the register saved in the q-th slot from the top. */
  predicate NamesSlot(run: seq<Insn>, frame: int, mask: Mask, q: nat) {
    q < |RanksOf(mask)| && SlotHolder(OffsOf(run), frame, q) < |run| &&
    RankReg(RanksOf(mask)[q]) == RegsOf(run)[SlotHolder(OffsOf(run), frame, q)]
  }

  lemma BitNamesSlot(run: seq<Insn>, frame: int, mask: Mask, q: nat)
    requires FrameMask(run, frame) == Some(mask) && q < |run|
    ensures |RanksOf(mask)| == |run| && NamesSlot(run, frame, mask, q)
  {
    hide FrameMask, RanksOf;
    CanonicalExact(run, frame);
    LayoutRankAt(RegsOf(run), OffsOf(run), frame, 0, q);
  }

  /** The slot's address, seen from below through the frame and from its top. */
  lemma SlotAddress(top: Word, frame: int, q: nat)
    ensures Wrap(Wrap(top - frame) + Slot(frame, q)) == Wrap(top - 4 - 4 * q)
  {
    WrapAdd(top - frame, Slot(frame, q));
  }

  /** b lists what a lists, rearranged by `to`. */
  predicate Permuted<T(==)>(a: seq<T>, b: seq<T>, to: seq<nat>) {
    && |a| == |b| == |to|
    && forall q :: 0 <= q < |to| ==> to[q] < |a| && b[q] == a[to[q]]
  }

  lemma AddrsPermuted(run: seq<Insn>, frame: int, top: Word, to: seq<nat>)
    requires |to| == |run| && forall q :: 0 <= q < |run| ==> to[q] < |run| && FrameOff(run[to[q]]) == Slot(frame, q)
    ensures Permuted(TextAddrs(run, Wrap(top - frame)), DownAddrs(top, |run|), to)
  {
    hide Wrap, Slot, FrameOff;
    forall q | 0 <= q < |to|
      ensures TextAddrs(run, Wrap(top - frame))[to[q]] == DownAddrs(top, |run|)[q]
    {
      MatchAt(run, frame, top, q, to[q]);
    }
  }

  lemma RegsPermuted(run: seq<Insn>, frame: int, mask: Mask, to: seq<nat>)
    requires |to| == |run| && run != [] && FrameMask(run, frame) == Some(mask) && to == Holders(run, frame, 0)
    ensures |RanksOf(mask)| == |run| && Permuted(RegsOf(run), RankRegs(RanksOf(mask)), to)
  {
    hide FrameMask, SlotHolder, RanksOf;
    BitNamesSlot(run, frame, mask, 0);
    forall q | 0 <= q < |to|
      ensures to[q] < |run| && RankRegs(RanksOf(mask))[q] == RegsOf(run)[to[q]]
    {
      BitNamesSlot(run, frame, mask, q);
    }
  }

  /** Slot by slot, the run's addresses and registers are the evaluator's, permuted. */
  lemma LayoutMatches(run: seq<Insn>, frame: int, mask: Mask, top: Word) returns (to: seq<nat>)
    requires FrameMask(run, frame) == Some(mask) && run != []
    ensures |RanksOf(mask)| == |run| && Different(RankRegs(RanksOf(mask)))
    ensures Rearranges(to, |run|)
    ensures Permuted(TextAddrs(run, Wrap(top - frame)), DownAddrs(top, |run|), to)
    ensures Permuted(RegsOf(run), RankRegs(RanksOf(mask)), to)
    ensures forall q :: 0 <= q < |run| ==> FrameOff(run[to[q]]) == Slot(frame, q)
  {
    hide Wrap, Slot, FrameOff, Permuted, FrameMask, CanonicalLayout, RanksOf, SlotHolder;
    CanonicalExact(run, frame);
    HoldersPermute(run, frame);
    to := Holders(run, frame, 0);
    AddrsPermuted(run, frame, top, to);
    RegsPermuted(run, frame, mask, to);
    RanksDifferent(run, frame, mask);
  }

  lemma MatchAt(run: seq<Insn>, frame: int, top: Word, q: nat, f: nat)
    requires q < |run| && f < |run| && FrameOff(run[f]) == Slot(frame, q)
    ensures TextAddrs(run, Wrap(top - frame))[f] == DownAddrs(top, |run|)[q]
  {
    TextAddrAt(run, Wrap(top - frame), f);
    SlotAddress(top, frame, q);
    DownAddrAt(top, |run|, q);
  }

  /** The registers a mask names are different. */
  lemma RanksDifferent(run: seq<Insn>, frame: int, mask: Mask)
    requires FrameMask(run, frame) == Some(mask)
    ensures Different(RankRegs(RanksOf(mask)))
  {
    hide FrameMask, RanksOf;
    CanonicalExact(run, frame);
    var ranks := RanksOf(mask);
    forall j, k | 0 <= j < k < |ranks|
      ensures RankReg(ranks[j]) != RankReg(ranks[k])
    {
      LayoutRankAt(RegsOf(run), OffsOf(run), frame, 0, j);
      LayoutRankAt(RegsOf(run), OffsOf(run), frame, 0, k);
      assert ranks[j] < ranks[k];
    }
  }

  // ---- the order of the run's accesses, slot by slot ----

  function IndexOf(to: seq<nat>, c: nat): (q: nat)
    requires c in to
    ensures q < |to| && to[q] == c
  {
    if to[0] == c then 0 else 1 + IndexOf(to[1..], c)
  }

  /** The slot each instruction of the run touches, counted from the top. */
  function SlotOrder(to: seq<nat>): (order: seq<nat>)
    requires Rearranges(to, |to|)
    ensures |order| == |to|
    ensures forall c :: 0 <= c < |order| ==> order[c] < |to| && to[order[c]] == c
  {
    seq(|to|, c requires 0 <= c < |to| => assert c in to; IndexOf(to, c))
  }

  lemma SlotOrderAll(to: seq<nat>)
    requires Rearranges(to, |to|)
    ensures Reorderings.Different(SlotOrder(to))
    ensures forall x: nat :: x in SlotOrder(to) <==> x < |to|
  {
    var order := SlotOrder(to);
    forall x: nat | x < |to|
      ensures x in order
    {
      var c := to[x];
      assert to[order[c]] == c;
    }
  }

  /** The slots below `top` are words that do not overlap. */
  lemma DownApart(top: Word, n: nat)
    requires n <= 13
    ensures AllApart(DownAddrs(top, n))
  {
    forall i, j | 0 <= i < j < n
      ensures WordsApart(DownAddrs(top, n)[i], DownAddrs(top, n)[j])
    {
      DownAddrAt(top, n, i);
      DownAddrAt(top, n, j);
      WrapNear(top - 4 - 4 * i);
      WrapNear(top - 4 - 4 * j);
      WrapNear(DownAddrs(top, n)[i] as int - DownAddrs(top, n)[j]);
    }
  }

  /** Two instructions of the run that touch their slots out of order, the lower slot first. */
  predicate Inverted(run: seq<Insn>, c: nat, d: nat) {
    c < d < |run| && FrameOff(run[c]) < FrameOff(run[d])
  }

  /** Every two saves out of slot order are writes nothing can tell the order of. */
  predicate SavesFree(mem: Mem, run: seq<Insn>, sp: Word) {
    forall c, d :: 0 <= c < |run| && 0 <= d < |run| && Inverted(run, c, d) ==> StoresFree(mem, Wrap(sp + FrameOff(run[c])), Wrap(sp + FrameOff(run[d])))
  }

  /** Every two restores out of slot order are reads nothing can tell the order of. */
  predicate RestoresFree(mem: Mem, run: seq<Insn>, sp: Word) {
    forall c, d :: 0 <= c < |run| && 0 <= d < |run| && Inverted(run, c, d) ==> LoadsFree(mem, Wrap(sp + FrameOff(run[c])), Wrap(sp + FrameOff(run[d])))
  }

  lemma OutOfOrder(run: seq<Insn>, frame: int, to: seq<nat>, c: nat, d: nat)
    requires Rearranges(to, |run|) && c < |run| && d < |run|
    requires forall q :: 0 <= q < |run| ==> FrameOff(run[to[q]]) == Slot(frame, q)
    ensures FrameOff(run[c]) < FrameOff(run[d]) <==> SlotOrder(to)[d] < SlotOrder(to)[c]
  {
    var order := SlotOrder(to);
    assert FrameOff(run[to[order[c]]]) == Slot(frame, order[c]) && FrameOff(run[to[order[d]]]) == Slot(frame, order[d]);
  }

  /** Slots touched out of order are instructions out of order. */
  lemma InversionsAre(run: seq<Insn>, frame: int, to: seq<nat>, sp: Word, c: nat, d: nat)
    requires Rearranges(to, |run|) && c < d < |run| && SlotOrder(to)[d] < SlotOrder(to)[c]
    requires forall q :: 0 <= q < |run| ==> FrameOff(run[to[q]]) == Slot(frame, q)
    ensures Inverted(run, c, d)
    ensures TextAddrs(run, sp)[c] == Wrap(sp + FrameOff(run[c])) && TextAddrs(run, sp)[d] == Wrap(sp + FrameOff(run[d]))
  {
    hide Wrap, Slot, FrameOff;
    OutOfOrder(run, frame, to, c, d);
    TextAddrAt(run, sp, c);
    TextAddrAt(run, sp, d);
  }

  /** So the inversions of the slots touched are free when those of the run are. */
  lemma TextStoresFree(mem: Mem, run: seq<Insn>, frame: int, to: seq<nat>, sp: Word)
    requires Rearranges(to, |run|) && SavesFree(mem, run, sp)
    requires forall q :: 0 <= q < |run| ==> FrameOff(run[to[q]]) == Slot(frame, q)
    ensures SlotsStoresFree(mem, TextAddrs(run, sp), to)
  {
    hide Wrap, Slot, FrameOff, StoresFree, Inverted;
    forall c, d | 0 <= c < d < |to| && SlotOrder(to)[d] < SlotOrder(to)[c]
      ensures StoresFree(mem, TextAddrs(run, sp)[c], TextAddrs(run, sp)[d])
    {
      InversionsAre(run, frame, to, sp, c, d);
    }
  }

  lemma TextLoadsFree(mem: Mem, run: seq<Insn>, frame: int, to: seq<nat>, sp: Word)
    requires Rearranges(to, |run|) && RestoresFree(mem, run, sp)
    requires forall q :: 0 <= q < |run| ==> FrameOff(run[to[q]]) == Slot(frame, q)
    ensures SlotsLoadsFree(mem, TextAddrs(run, sp), to)
  {
    hide Wrap, Slot, FrameOff, LoadsFree, Inverted;
    forall c, d | 0 <= c < d < |to| && SlotOrder(to)[d] < SlotOrder(to)[c]
      ensures LoadsFree(mem, TextAddrs(run, sp)[c], TextAddrs(run, sp)[d])
    {
      InversionsAre(run, frame, to, sp, c, d);
    }
  }

  predicate SlotsStoresFree(mem: Mem, addrs: seq<Word>, to: seq<nat>)
    requires Rearranges(to, |addrs|)
  {
    forall c, d :: 0 <= c < d < |to| && SlotOrder(to)[d] < SlotOrder(to)[c] ==> StoresFree(mem, addrs[c], addrs[d])
  }

  predicate SlotsLoadsFree(mem: Mem, addrs: seq<Word>, to: seq<nat>)
    requires Rearranges(to, |addrs|)
  {
    forall c, d :: 0 <= c < d < |to| && SlotOrder(to)[d] < SlotOrder(to)[c] ==> LoadsFree(mem, addrs[c], addrs[d])
  }

  lemma SavesMatch<H(!new)>(env: Env<H>, h: H, mem: Mem, x: Regs, regs: seq<Reg>, addrs: seq<Word>,
                            ranks: seq<RankNo>, top: Word, to: seq<nat>)
    requires GoodEnv(env) && mem.Valid() && |regs| == |addrs| == |ranks| <= RANKS && Rearranges(to, |regs|)
    requires Permuted(addrs, DownAddrs(top, |ranks|), to) && Permuted(regs, RankRegs(ranks), to)
    requires SlotsStoresFree(mem, addrs, to)
    ensures Puts(env, h, mem, addrs, ValuesOf(x, regs)) == SlowSave(env, h, mem, x, ranks, top)
  {
    hide GoodEnv, Puts, SlowSave, StoresFree;
    var order := SlotOrder(to);
    SlotOrderAll(to);
    DownApart(top, |ranks|);
    SlowSaveIsPuts(env, h, mem, x, ranks, top);
    forall c | 0 <= c < |order|
      ensures addrs[c] == DownAddrs(top, |ranks|)[order[c]] && regs[c] == RankRegs(ranks)[order[c]]
    {
      assert to[order[c]] == c;
    }
    PutsReorder(env, h, mem, addrs, ValuesOf(x, regs), DownAddrs(top, |ranks|), ValuesOf(x, RankRegs(ranks)), order);
  }

  lemma RestoresMatch<H(!new)>(env: Env<H>, m: Machine<H>, regs: seq<Reg>, addrs: seq<Word>,
                               ranks: seq<RankNo>, top: Word, to: seq<nat>)
    requires GoodEnv(env) && m.mem.Valid() && |regs| == |addrs| == |ranks| && Rearranges(to, |regs|)
    requires Different(RankRegs(ranks))
    requires Permuted(addrs, DownAddrs(top, |ranks|), to) && Permuted(regs, RankRegs(ranks), to)
    requires SlotsLoadsFree(m.mem, addrs, to)
    ensures Gets(env, m, regs, addrs) == SlowRestore(env, m, ranks, top)
  {
    hide GoodEnv, Gets, SlowRestore, LoadsFree;
    var order := SlotOrder(to);
    SlotOrderAll(to);
    SlowRestoreIsGets(env, m, ranks, top);
    forall c | 0 <= c < |order|
      ensures addrs[c] == DownAddrs(top, |ranks|)[order[c]] && regs[c] == RankRegs(ranks)[order[c]]
    {
      assert to[order[c]] == c;
    }
    GetsReorder(env, m, regs, addrs, RankRegs(ranks), DownAddrs(top, |ranks|), order);
  }

  /** The run's stores and the fused op's stores leave the same memory and host, as long as
      stores out of slot order do not go to the callback. */
  lemma SavesAgree<H(!new)>(env: Env<H>, h: H, mem: Mem, x: Regs, run: seq<Insn>, frame: int, mask: Mask, top: Word)
    requires GoodEnv(env) && mem.Valid() && FrameMask(run, frame) == Some(mask) && run != []
    requires SavesFree(mem, run, Wrap(top - frame))
    ensures |RanksOf(mask)| == |run|
    ensures Puts(env, h, mem, TextAddrs(run, Wrap(top - frame)), ValuesOf(x, RegsOf(run)))
            == SlowSave(env, h, mem, x, RanksOf(mask), top)
  {
    hide Wrap, Slot, FrameOff, FrameMask, RanksOf, GoodEnv, Puts, SlowSave, SavesFree, SlotsStoresFree, Rearranges, Permuted, Different;
    var sp := Wrap(top - frame);
    var to := LayoutMatches(run, frame, mask, top);
    TextStoresFree(mem, run, frame, to, sp);
    SavesMatch(env, h, mem, x, RegsOf(run), TextAddrs(run, sp), RanksOf(mask), top, to);
  }

  /** The same for the loads of an epilogue. */
  lemma RestoresAgree<H(!new)>(env: Env<H>, m: Machine<H>, run: seq<Insn>, frame: int, mask: Mask, top: Word)
    requires GoodEnv(env) && m.mem.Valid() && FrameMask(run, frame) == Some(mask) && run != []
    requires RestoresFree(m.mem, run, Wrap(top - frame))
    ensures |RanksOf(mask)| == |run|
    ensures Gets(env, m, RegsOf(run), TextAddrs(run, Wrap(top - frame)))
            == SlowRestore(env, m, RanksOf(mask), top)
  {
    hide Wrap, Slot, FrameOff, FrameMask, RanksOf, GoodEnv, Gets, SlowRestore, RestoresFree, SlotsLoadsFree, Rearranges, Permuted, Different;
    var sp := Wrap(top - frame);
    var to := LayoutMatches(run, frame, mask, top);
    TextLoadsFree(m.mem, run, frame, to, sp);
    RestoresMatch(env, m, RegsOf(run), TextAddrs(run, sp), RanksOf(mask), top, to);
  }
}
