/** Where each unit's op words land, and which instructions head a unit. */
module Layout {
  /** For every instruction, the width and op-word count of the unit that would start there. */
  datatype Sizing = Sizing(width: seq<nat>, words: seq<nat>) {
    predicate Valid() {
      && |width| == |words|
      && (forall i :: 0 <= i < |width| ==> 1 <= width[i] && i + width[i] <= |width|)
      && (forall i :: 0 <= i < |width| ==> words[i] <= width[i])
    }
  }

  /** A layout: units stay within the code and take no more op words than instructions. */
  type Plan = s: Sizing | s.Valid() witness Sizing([], [])

  /** j is met when walking the code unit by unit from instruction i. */
  predicate Reach(p: Plan, i: nat, j: nat)
    decreases |p.width| - i
  {
    if i >= j then i == j else i < |p.width| && Reach(p, i + p.width[i], j)
  }

  predicate Head(p: Plan, j: nat) {
    Reach(p, 0, j)
  }

  /** Op words emitted by the units from i up to j. */
  function WordsBetween(p: Plan, i: nat, j: nat): nat
    decreases |p.width| - i
  {
    if i >= j || i >= |p.width| then 0 else p.words[i] + WordsBetween(p, i + p.width[i], j)
  }

  /** The op index of the unit headed by j: the map's entry for it. */
  function OpAt(p: Plan, j: nat): nat {
    WordsBetween(p, 0, j)
  }

  function OpCount(p: Plan): nat {
    OpAt(p, |p.width|)
  }

  lemma {:induction false} ReachStep(p: Plan, i: nat, j: nat)
    requires Reach(p, i, j) && j < |p.width|
    ensures Reach(p, i, j + p.width[j])
    ensures WordsBetween(p, i, j + p.width[j]) == WordsBetween(p, i, j) + p.words[j]
    decreases j - i
  {
    if i < j {
      ReachStep(p, i + p.width[i], j);
      ReachForward(p, i + p.width[i], j);
    } else {
      assert WordsBetween(p, i + p.width[i], i + p.width[i]) == 0;
    }
  }

  lemma {:induction false} ReachForward(p: Plan, i: nat, j: nat)
    requires Reach(p, i, j)
    ensures i <= j && (j <= |p.width| || i == j)
    decreases |p.width| - i
  {
    if i < j {
      ReachForward(p, i + p.width[i], j);
    }
  }

  /** The unit after a head starts right where that head's words end. */
  lemma NextHead(p: Plan, j: nat)
    requires Head(p, j) && j < |p.width|
    ensures Head(p, j + p.width[j])
    ensures OpAt(p, j + p.width[j]) == OpAt(p, j) + p.words[j]
  {
    ReachStep(p, 0, j);
  }

  /** Heads are totally ordered by the walk. */
  lemma {:induction false} ReachBetween(p: Plan, i: nat, j: nat, k: nat)
    requires Reach(p, i, j) && Reach(p, i, k) && j <= k
    ensures Reach(p, j, k)
    ensures WordsBetween(p, i, k) == WordsBetween(p, i, j) + WordsBetween(p, j, k)
    decreases j - i
  {
    if i < j {
      ReachForward(p, i + p.width[i], j);
      ReachBetween(p, i + p.width[i], j, k);
    }
  }

  /** Between two heads there are never more op words than instructions. */
  lemma {:induction false} DistanceShrinks(p: Plan, j: nat, k: nat)
    requires Reach(p, j, k)
    ensures WordsBetween(p, j, k) <= k - j
    decreases |p.width| - j
  {
    ReachForward(p, j, k);
    if j < k {
      ReachForward(p, j + p.width[j], k);
      DistanceShrinks(p, j + p.width[j], k);
    }
  }

  /** The map is monotone and op distance never exceeds instruction distance. */
  lemma MapMonotone(p: Plan, j: nat, k: nat)
    requires Head(p, j) && Head(p, k) && j <= k
    ensures 0 <= OpAt(p, k) - OpAt(p, j) <= k - j
  {
    ReachBetween(p, 0, j, k);
    DistanceShrinks(p, j, k);
  }

  /** Walking never skips over an instruction q that no unit hides behind its head. */
  lemma {:induction false} ReachExposed(p: Plan, i: nat, q: nat)
    requires i <= q <= |p.width|
    requires forall h :: i <= h < q && Reach(p, i, h) ==> h + p.width[h] <= q
    ensures Reach(p, i, q)
    decreases q - i
  {
    if i < q {
      assert Reach(p, i, i);
      var n := i + p.width[i];
      forall h | n <= h < q && Reach(p, n, h)
        ensures h + p.width[h] <= q
      {
        assert Reach(p, i, h);
      }
      ReachExposed(p, n, q);
    }
  }

  lemma EndIsHead(p: Plan)
    ensures Head(p, |p.width|)
  {
    ReachExposed(p, 0, |p.width|);
  }

  lemma OpAtBound(p: Plan, j: nat)
    requires Head(p, j)
    ensures OpAt(p, j) <= j <= |p.width|
    ensures OpAt(p, j) <= OpCount(p)
    ensures j < |p.width| ==> OpAt(p, j) + p.words[j] <= OpCount(p)
  {
    ReachForward(p, 0, j);
    EndIsHead(p);
    MapMonotone(p, 0, j);
    MapMonotone(p, j, |p.width|);
    if j < |p.width| {
      NextHead(p, j);
      ReachForward(p, 0, j + p.width[j]);
      MapMonotone(p, j + p.width[j], |p.width|);
    }
  }
}
