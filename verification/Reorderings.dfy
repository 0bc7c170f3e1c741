/** Steps taken in another order: the end is the same when every pair that changed places commutes. */
module Reorderings {
  /** Steps order[0], order[1], ... taken from s. */
  function Steps<S>(step: (S, nat) -> S, s: S, order: seq<nat>): S
    decreases |order|
  {
    if order == [] then s else Steps(step, step(s, order[0]), order[1..])
  }

  /** On states satisfying `ok`, which every step keeps, the two steps may change places. */
  ghost predicate Commute<S(!new)>(step: (S, nat) -> S, ok: S -> bool, i: nat, j: nat) {
    forall s :: ok(s) ==> step(step(s, i), j) == step(step(s, j), i)
  }

  ghost predicate Keeps<S(!new)>(step: (S, nat) -> S, ok: S -> bool) {
    forall s, i :: ok(s) ==> ok(step(s, i))
  }

  function Insert(t: nat, l: seq<nat>): (r: seq<nat>)
    ensures |r| == |l| + 1
    decreases |l|
  {
    if l == [] || t <= l[0] then [t] + l else [l[0]] + Insert(t, l[1..])
  }

  function Sort(order: seq<nat>): (r: seq<nat>)
    ensures |r| == |order|
    decreases |order|
  {
    if order == [] then [] else Insert(order[0], Sort(order[1..]))
  }

  predicate Rises(l: seq<nat>) {
    forall a, b :: 0 <= a < b < |l| ==> l[a] < l[b]
  }

  predicate Different(l: seq<nat>) {
    forall a, b :: 0 <= a < b < |l| ==> l[a] != l[b]
  }

  lemma {:induction false} InsertRises(t: nat, l: seq<nat>)
    requires Rises(l) && t !in l
    ensures Rises(Insert(t, l)) && forall x :: x in Insert(t, l) <==> x == t || x in l
    decreases |l|
  {
    if l != [] && t > l[0] {
      assert l == [l[0]] + l[1..];
      InsertRises(t, l[1..]);
      var r := Insert(t, l[1..]);
      forall b | 0 <= b < |r|
        ensures l[0] < r[b]
      {
        assert r[b] in r;
      }
    }
  }

  lemma {:induction false} SortRises(order: seq<nat>)
    requires Different(order)
    ensures Rises(Sort(order)) && forall x :: x in Sort(order) <==> x in order
    decreases |order|
  {
    if order != [] {
      assert order == [order[0]] + order[1..];
      SortRises(order[1..]);
      InsertRises(order[0], Sort(order[1..]));
    }
  }

  /** A step moved back past the smaller ones, with each of which it commutes. */
  lemma {:induction false} InsertSteps<S(!new)>(step: (S, nat) -> S, ok: S -> bool, s: S, t: nat, l: seq<nat>)
    requires Keeps(step, ok) && ok(s) && forall x :: x in l && x < t ==> Commute(step, ok, x, t)
    ensures Steps(step, s, [t] + l) == Steps(step, s, Insert(t, l))
    decreases |l|
  {
    if l != [] && t > l[0] {
      var x := l[0];
      assert x in l;
      InsertSteps(step, ok, step(s, x), t, l[1..]);
      assert ([t] + l)[1..] == l && ([t] + l[1..])[1..] == l[1..];
      assert Steps(step, s, [t] + l) == Steps(step, step(step(s, t), x), l[1..]);
      assert Steps(step, step(s, x), [t] + l[1..]) == Steps(step, step(step(s, x), t), l[1..]);
      assert Insert(t, l)[0] == x && Insert(t, l)[1..] == Insert(t, l[1..]);
    }
  }

  /** Every pair out of order commutes. */
  ghost predicate Sortable<S(!new)>(step: (S, nat) -> S, ok: S -> bool, order: seq<nat>) {
    forall a, b :: 0 <= a < b < |order| && order[b] < order[a] ==> Commute(step, ok, order[b], order[a])
  }

  lemma {:induction false} SortSteps<S(!new)>(step: (S, nat) -> S, ok: S -> bool, s: S, order: seq<nat>)
    requires Keeps(step, ok) && ok(s) && Sortable(step, ok, order) && Different(order)
    ensures Steps(step, s, order) == Steps(step, s, Sort(order))
    decreases |order|
  {
    if order != [] {
      hide Commute, Keeps;
      var t, rest := order[0], order[1..];
      forall a, b | 0 <= a < b < |rest| && rest[b] < rest[a]
        ensures Commute(step, ok, rest[b], rest[a])
      {
        assert rest[a] == order[a + 1] && rest[b] == order[b + 1];
      }
      SortSteps(step, ok, step(s, t), rest);
      SortRises(rest);
      forall x | x in Sort(rest) && x < t
        ensures Commute(step, ok, x, t)
      {
        var b :| 0 <= b < |rest| && rest[b] == x;
        assert order[b + 1] == x;
      }
      InsertSteps(step, ok, s, t, Sort(rest));
      assert ([t] + Sort(rest))[1..] == Sort(rest);
    }
  }

  /** A rising list of the numbers below n is 0, 1, ... */
  lemma {:induction false} AllInOrder(l: seq<nat>, n: nat, k: nat)
    requires |l| == n && Rises(l) && (forall x: nat :: x in l <==> x < n) && k < n
    ensures forall i :: 0 <= i <= k ==> l[i] == i
  {
    if k > 0 { AllInOrder(l, n, k - 1); }
    assert k in l;
    var a :| 0 <= a < n && l[a] == k;
    assert k == 0 || (l[k - 1] == k - 1 && l[k - 1] < l[k]);
  }

  function Upto(n: nat): (l: seq<nat>)
    ensures |l| == n && forall i :: 0 <= i < n ==> l[i] == i
  {
    seq(n, i => i)
  }

  /** Any order of 0, 1, ..., n-1 whose inversions commute ends as the order 0, 1, ..., n-1 does. */
  lemma OrderIrrelevant<S(!new)>(step: (S, nat) -> S, ok: S -> bool, s: S, order: seq<nat>)
    requires Keeps(step, ok) && ok(s) && Sortable(step, ok, order) && Different(order)
    requires forall x: nat :: x in order <==> x < |order|
    ensures Steps(step, s, order) == Steps(step, s, Upto(|order|))
  {
    SortSteps(step, ok, s, order);
    SortRises(order);
    if order != [] { AllInOrder(Sort(order), |order|, |order| - 1); }
    assert Sort(order) == Upto(|order|);
  }
}
