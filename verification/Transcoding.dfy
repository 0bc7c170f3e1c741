/** The emitted op words: every final op fits its layout, and the evaluator fetches it at its map entry. */
module Transcoding {
  import opened Words
  import opened Isa
  import opened Fusion
  import opened Layout
  import opened SourceMachine
  import opened Simulation
  import opened UnitSimulation
  import opened OpWords

  // ---- the emitted words ----

  /** Every unit's fields fit their packed layout. */
  lemma StepPackable(p: Prog, i: nat)
    requires p.Valid() && i < |p.code|
    ensures Packable(Step(p, i).op)
  {
    hide SaveCount, RestoreCount, FrameMask, Run, Hot;
    assert Encodable(p.code[i]) && (i + 1 < |p.code| ==> Encodable(p.code[i + 1]));
  }

  /** The instructions a direct transfer's unit is made of. */
  predicate TransferAt(p: Prog, i: nat, op: Op) {
    match op
    case LoadBz(_, _, _, _, t, _) => i + 1 < |p.code| && p.code[i].Load? && p.code[i + 1].Branch? && p.code[i + 1].target == t
    case One(d) => d.Branch? || d.Jal? ==> i < |p.code| && p.code[i] == d
    case _ => true
  }

  lemma TransferHead(p: Prog, i: nat)
    ensures TransferAt(p, i, Step(p, i).op)
  {
    hide SaveCount, RestoreCount, FrameMask, Run, Hot, Signed;
  }

  /** A unit emits nothing exactly when it is a lone nop. */
  lemma NopAlone(p: Prog, i: nat)
    ensures WordsAt(p, i) == 0 <==> D(p, i).Nop?
    ensures D(p, i).Nop? ==> Width(p, i) == 1
  {
    hide SaveCount, RestoreCount, FrameMask, Run, Hot, Signed;
  }

  lemma FixedPackable(p: Prog, i: nat, op: Op)
    requires Packable(Step(p, i).op) && TransferAt(p, i, Step(p, i).op) && FinalOp(p, i) == Some(op)
    requires i in p.fix ==> i < |p.code| && Encodable(Cur(p, i))
    ensures Packable(op) && WordCount(op) == WordsAt(p, i)
  {
  }

  /** The final op of an accepted unit fits its packed layout, in the words the map reserved. */
  lemma FinalPackable(p: Prog, i: nat)
    requires Accepted(p) && i < |p.code| && Head(p.plan, i)
    ensures Packable(OpOf(p, i)) && WordCount(OpOf(p, i)) == WordsAt(p, i)
    ensures D(p, i).Nop? <==> WordCount(OpOf(p, i)) == 0
  {
    hide Step, TargetNear;
    StepPackable(p, i);
    TransferHead(p, i);
    NopAlone(p, i);
    assert FinalOp(p, i).Some?;
    assert i in p.fix ==> Encodable(Cur(p, i));
    FixedPackable(p, i, FinalOp(p, i).value);
  }

  lemma NearDistance(c: nat, t: Word, bound: int)
    requires 4 * c < 0x8000_0000 && t < 0x8000_0000 && Near(c, t, bound)
    requires bound == 0x1000 || bound == 0x10_0000
    ensures -(bound / 4) <= t / 4 - c < bound / 4
  {
    WrapNear(t - 4 * c);
  }

  /** A transfer at instruction c, encoded from the head i, reaches at most the distance its
      instruction form allows. */
  lemma TargetReach(p: Prog, c: nat, i: nat, t: Word, bound: int)
    requires Planned(p) && Head(p.plan, i) && i <= c <= i + 1 && c < |p.code|
    requires Near(c, t, bound) && (bound == 0x1000 || bound == 0x10_0000)
    ensures -bound - 4 <= 4 * (OpTarget(p, t, OpAt(p.plan, i)) - OpAt(p.plan, i)) <= bound
    ensures c == i ==> -bound <= 4 * (OpTarget(p, t, OpAt(p.plan, i)) - OpAt(p.plan, i)) < bound
    ensures OpTarget(p, t, OpAt(p.plan, i)) <= |p.code|
  {
    hide Step;
    OpAtBound(p.plan, i);
    if t / 2 % 2 == 0 && t / 4 < |p.code| && Head(p.plan, t / 4) {
      OpAtBound(p.plan, t / 4);
      NearDistance(c, t, bound);
      if i <= t / 4 {
        MapMonotone(p.plan, i, t / 4);
      } else {
        MapMonotone(p.plan, t / 4, i);
      }
    }
  }

  /** Branch and jump displacements always fit: op distance never exceeds instruction distance. */
  lemma FinalReachable(p: Prog, i: nat)
    requires Accepted(p) && i < |p.code| && Head(p.plan, i)
    ensures Reachable(OpOf(p, i), OpAt(p.plan, i))
  {
    hide Step, Near, OpTarget, Encodable, Marked;
    TransferHead(p, i);
    assert TargetNear(i, p.code[i]) && (i + 1 < |p.code| ==> TargetNear(i + 1, p.code[i + 1]));
    match Step(p, i).op
    case LoadBz(_, _, _, _, t, _) => TargetReach(p, i + 1, i, t, 0x1000);
    case One(Branch(_, _, _, t)) => TargetReach(p, i, i, t, 0x1000);
    case One(Jal(_, t)) => TargetReach(p, i, i, t, 0x10_0000);
    case _ =>
  }

  /** The words of `op` stand at index `at`. */
  predicate StandsAt(ops: seq<Word>, op: Op, at: nat) {
    at + WordCount(op) <= |ops| && ops[at..at + WordCount(op)] == Encode(op, at)
  }

  /** The op stream: every unit head's words stand at its map entry. */
  ghost predicate Emitted(p: Prog, ops: seq<Word>) {
    && |ops| == OpCount(p.plan)
    && forall i {:trigger OpOf(p, i)} :: 0 <= i < |p.code| && Head(p.plan, i) ==> StandsAt(ops, OpOf(p, i), OpAt(p.plan, i))
  }

  /** The word after index q, or 0 past the end. */
  function After(ops: seq<Word>, q: nat): Word {
    if q + 1 < |ops| then ops[q + 1] else 0
  }

  /** The op the evaluator fetches at index q; past the words there is none. */
  function OpIn(ops: seq<Word>, q: nat): Op {
    if q < |ops| then Fetch(ops[q], After(ops, q), q) else One(Illegal)
  }

  lemma StandsFetches(ops: seq<Word>, op: Op, at: nat)
    requires StandsAt(ops, op, at) && Packable(op) && Reachable(op, at) && WordCount(op) >= 1
    ensures at < |ops| && OpIn(ops, at) == op
  {
    hide Packable, Reachable, Fetch;
    var ws := ops[at..at + WordCount(op)];
    assert ws[0] == ops[at] && (|ws| == 2 ==> ws[1] == ops[at + 1]);
    FetchBack(op, at, After(ops, at));
  }

  /** At a unit's map entry the evaluator fetches the unit's op. */
  lemma FetchesUnit(p: Prog, ops: seq<Word>, i: nat)
    requires Accepted(p) && i < |p.code| && Head(p.plan, i) && !D(p, i).Nop? && Emitted(p, ops)
    ensures OpAt(p.plan, i) < |ops| && OpIn(ops, OpAt(p.plan, i)) == OpOf(p, i)
  {
    hide Accepted, Packable, Reachable, Fetch, OpOf;
    FinalPackable(p, i);
    FinalReachable(p, i);
    StandsFetches(ops, OpOf(p, i), OpAt(p.plan, i));
  }

}
