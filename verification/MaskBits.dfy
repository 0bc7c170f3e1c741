/** A register mask walked from its lowest bit, clearing as it goes. */
module MaskBits {
  import opened Words
  import opened Fusion
  import opened OpWords
  import opened Evaluator

  /** The number of trailing zero bits. */
  function Trailing(n: nat): nat
    requires n > 0
  {
    if n % 2 == 1 then 0 else 1 + Trailing(n / 2)
  }

  function ClearLowest(n: nat): nat
    requires n > 0
  {
    Bitwise(BitAnd, RANKS, n, n - 1)
  }

  /** n & (n - 1), one bit at a time. */
  lemma ClearStep(n: nat, k: nat)
    requires 0 < n < Pow2(k)
    ensures k > 0 && (n % 2 == 0 ==> 0 < n / 2 < Pow2(k - 1))
    ensures Bitwise(BitAnd, k, n, n - 1) == if n % 2 == 1 then n - 1 else 2 * Bitwise(BitAnd, k - 1, n / 2, n / 2 - 1)
  {
    if n % 2 == 1 {
      assert (n - 1) / 2 == n / 2;
      BitsOfSame(k - 1, n / 2);
    } else {
      assert (n - 1) / 2 == n / 2 - 1;
    }
  }

  /** Clearing n's lowest bit takes its rank off the front and leaves the others. */
  lemma {:induction false} LowestBit(n: nat, k: nat, b: nat)
    requires 0 < n < Pow2(k) && b + k == RANKS
    ensures var rest := Bitwise(BitAnd, k, n, n - 1);
            rest < n && b + Trailing(n) < RANKS &&
            SetBits(MaskOf(n, k), b) == [b + Trailing(n)] + SetBits(MaskOf(rest, k), b)
    decreases k
  {
    hide Bitwise, SetBits, MaskOf, Pow2;
    ClearStep(n, k);
    var rest := Bitwise(BitAnd, k, n, n - 1);
    MaskFirst(n, k, b);
    MaskFirst(rest, k, b);
    if n % 2 == 0 {
      LowestBit(n / 2, k - 1, b + 1);
      assert Trailing(n) == 1 + Trailing(n / 2);
      assert rest / 2 == Bitwise(BitAnd, k - 1, n / 2, n / 2 - 1);
    }
  }

  lemma MaskFirst(n: nat, k: nat, b: nat)
    requires b + k == RANKS && k > 0
    ensures SetBits(MaskOf(n, k), b) == (if n % 2 == 1 then [b] else []) + SetBits(MaskOf(n / 2, k - 1), b + 1)
  {
    assert MaskOf(n, k)[1..] == MaskOf(n / 2, k - 1);
  }

  lemma {:induction false} NoneLeft(k: nat, b: nat)
    requires b + k == RANKS
    ensures SetBits(MaskOf(0, k), b) == []
    decreases k
  {
    if k > 0 {
      assert MaskOf(0, k)[1..] == MaskOf(0, k - 1);
      NoneLeft(k - 1, b + 1);
    }
  }
}
