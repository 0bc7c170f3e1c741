/** The fused frame ops: what the canonical-layout check accepts, and why the order in
    which its slots are walked is a permutation of the text. */
module Frames {
  import opened Words
  import opened Isa
  import opened Fusion
  import opened Evaluator

  // ---- the canonical layout ----

  /** The q-th slot from the top of the frame is saved by the instruction at this position. */
  function SlotHolder(offs: seq<int>, frame: int, q: nat): nat {
    FindOff(offs, Slot(frame, q), 0)
  }

  function HolderRank(regs: seq<Reg>, offs: seq<int>, frame: int, q: nat): int
    requires |regs| == |offs|
  {
    var f := SlotHolder(offs, frame, q);
    if f < |regs| then Rank(regs[f]) else -1
  }

  /** Every slot has a holder, and from the top slot down the ranks strictly rise. */
  predicate CanonicalLayout(regs: seq<Reg>, offs: seq<int>, frame: int, from: nat, prev: int)
    requires |regs| == |offs|
  {
    && (forall q :: from <= q < |regs| ==> SlotHolder(offs, frame, q) < |regs|)
    && (forall q :: from <= q < |regs| ==> prev < HolderRank(regs, offs, frame, q))
    && (forall q, r :: from <= q < r < |regs| ==> HolderRank(regs, offs, frame, q) < HolderRank(regs, offs, frame, r))
  }

  /** The ranks of the saved registers, from the top slot down. */
  function LayoutRanks(regs: seq<Reg>, offs: seq<int>, frame: int, from: nat): (s: seq<int>)
    requires |regs| == |offs| && from <= |regs|
    ensures |s| == |regs| - from
    decreases |regs| - from
  {
    if from == |regs| then []
    else [HolderRank(regs, offs, frame, from)] + LayoutRanks(regs, offs, frame, from + 1)
  }

  lemma {:induction false} LayoutRankAt(regs: seq<Reg>, offs: seq<int>, frame: int, from: nat, k: nat)
    requires |regs| == |offs| && from <= |regs| && k < |regs| - from
    ensures LayoutRanks(regs, offs, frame, from)[k] == HolderRank(regs, offs, frame, from + k)
    decreases k
  {
    if k > 0 {
      LayoutRankAt(regs, offs, frame, from + 1, k - 1);
    }
  }

  /** No bit of rank r or above is set in bits, which start at rank b. */
  predicate NoBitsFrom(bits: seq<bool>, b: nat, r: int) {
    forall k :: 0 <= k < |bits| && r <= b + k ==> !bits[k]
  }

  lemma {:induction false} SetBitsNone(bits: seq<bool>, b: nat)
    requires b + |bits| == RANKS && NoBitsFrom(bits, b, b)
    ensures SetBits(bits, b) == []
    decreases |bits|
  {
    if bits != [] {
      assert forall k :: 0 <= k < |bits[1..]| ==> bits[1..][k] == bits[k + 1];
      SetBitsNone(bits[1..], b + 1);
    }
  }

  /** Setting a bit above all others appends its rank. */
  lemma {:induction false} SetBitsAppend(bits: seq<bool>, b: nat, rk: RankNo)
    requires b + |bits| == RANKS && b <= rk && NoBitsFrom(bits, b, rk)
    ensures SetBits(bits[rk - b := true], b) == SetBits(bits, b) + [rk]
    decreases |bits|
  {
    var rest := bits[1..];
    assert forall k :: 0 <= k < |rest| ==> rest[k] == bits[k + 1];
    var set' := bits[rk - b := true];
    if b == rk {
      SetBitsNone(bits, b);
      SetBitsNone(rest, b + 1);
      assert set'[1..] == rest;
    } else {
      SetBitsAppend(rest, b + 1, rk);
      assert set'[1..] == rest[rk - (b + 1) := true];
      var first: seq<RankNo> := if bits[0] then [b] else [];
      assert first + (SetBits(rest, b + 1) + [rk]) == (first + SetBits(rest, b + 1)) + [rk];
    }
  }

  /** The check itself, one slot at a time, without the mask. */
  predicate Rising(regs: seq<Reg>, offs: seq<int>, frame: int, q: nat, prev: int)
    requires |regs| == |offs| && q <= |regs|
    decreases |regs| - q
  {
    q == |regs| ||
    (SlotHolder(offs, frame, q) < |regs| && prev < HolderRank(regs, offs, frame, q) &&
     Rising(regs, offs, frame, q + 1, HolderRank(regs, offs, frame, q)))
  }

  lemma {:induction false} RisingIsLayout(regs: seq<Reg>, offs: seq<int>, frame: int, q: nat, prev: int)
    requires |regs| == |offs| && q <= |regs|
    ensures Rising(regs, offs, frame, q, prev) <==> CanonicalLayout(regs, offs, frame, q, prev)
    decreases |regs| - q
  {
    if q < |regs| {
      RisingIsLayout(regs, offs, frame, q + 1, HolderRank(regs, offs, frame, q));
    }
  }

  lemma {:induction false} CanonFromRising(regs: seq<Reg>, offs: seq<int>, frame: int, q: nat, prev: int, mask: Mask)
    requires |regs| == |offs| && q <= |regs| && -1 <= prev
    ensures CanonFrom(regs, offs, frame, q, prev, mask).Some? <==> Rising(regs, offs, frame, q, prev)
    decreases |regs| - q
  {
    if q < |regs| {
      var f := SlotHolder(offs, frame, q);
      if f < |regs| && Rank(regs[f]) > prev {
        CanonFromRising(regs, offs, frame, q + 1, Rank(regs[f]), mask[Rank(regs[f]) := true]);
      }
    }
  }

  /** The set bits of the mask the check builds name the registers from the top slot down. */
  lemma {:induction false} CanonFromBits(regs: seq<Reg>, offs: seq<int>, frame: int, q: nat, prev: int, mask: Mask, mask': Mask)
    requires |regs| == |offs| && q <= |regs| && -1 <= prev < RANKS && NoBitsFrom(mask, 0, prev + 1)
    requires CanonFrom(regs, offs, frame, q, prev, mask) == Some(mask')
    ensures RanksOf(mask') == RanksOf(mask) + LayoutRanks(regs, offs, frame, q)
    decreases |regs| - q
  {
    var before: seq<int> := RanksOf(mask);
    if q == |regs| {
      assert before + [] == before;
    } else {
      var rk := HolderRank(regs, offs, frame, q);
      SetBitsAppend(mask, 0, rk);
      CanonFromBits(regs, offs, frame, q + 1, rk, mask[rk := true], mask');
      AppendAssoc(before, rk, LayoutRanks(regs, offs, frame, q + 1));
    }
  }

  lemma AppendAssoc(a: seq<int>, k: int, b: seq<int>)
    ensures (a + [k]) + b == a + ([k] + b)
  {
  }

  predicate Laid(run: seq<Insn>, frame: int) {
    CanonicalLayout(RegsOf(run), OffsOf(run), frame, 0, -1)
  }

  function RanksLaid(run: seq<Insn>, frame: int): seq<int> {
    LayoutRanks(RegsOf(run), OffsOf(run), frame, 0)
  }

  /** frame_canonical accepts exactly the canonical layouts, and its mask names their registers
      from the top slot down. */
  lemma CanonicalExact(run: seq<Insn>, frame: int)
    ensures FrameMask(run, frame).Some? <==> Laid(run, frame)
    ensures forall mask :: FrameMask(run, frame) == Some(mask) ==> RanksOf(mask) == RanksLaid(run, frame)
  {
    var regs, offs := RegsOf(run), OffsOf(run);
    CanonFromRising(regs, offs, frame, 0, -1, NoBits());
    RisingIsLayout(regs, offs, frame, 0, -1);
    if FrameMask(run, frame).Some? {
      CanonFromBits(regs, offs, frame, 0, -1, NoBits(), FrameMask(run, frame).value);
      SetBitsNone(NoBits(), 0);
      assert [] + RanksLaid(run, frame) == RanksLaid(run, frame);
    }
  }
}
