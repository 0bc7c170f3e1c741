/** 64-bit division by restoring subtraction, and the signed operations built on it. */
module Division {
  import opened Words

  type U64 = x: int | 0 <= x < 0x1_0000_0000_0000_0000
  type I64 = x: int | -0x8000_0000_0000_0000 <= x < 0x8000_0000_0000_0000

  /** The machine's 64-bit wrap, and a word read as signed. */
  function Wrap64(x: int): U64 {
    x % 0x1_0000_0000_0000_0000
  }

  function Signed64(x: U64): I64 {
    if x < 0x8000_0000_0000_0000 then x else x - 0x1_0000_0000_0000_0000
  }

  lemma Pow2Of64()
    ensures Pow2(63) == 0x8000_0000_0000_0000 && Pow2(64) == 0x1_0000_0000_0000_0000
  {
    Pow2Of32();
    assert Pow2(40) == 0x100_0000_0000;
    assert Pow2(48) == 0x1_0000_0000_0000;
    assert Pow2(56) == 0x100_0000_0000_0000;
  }

  /** The bits of n above position i, one more of them taken in. */
  lemma HalfAgain(n: nat, p: nat)
    requires p > 0
    ensures n / p == 2 * (n / (2 * p)) + n / p % 2
  {
    DivideTwice(n, p, 2);
  }

  lemma Scale(a: nat, b: nat, d: nat)
    requires a <= b
    ensures a * d <= b * d
  {
  }

  /** One step of the loop: the remainder takes in the next bit and gives up d if it can. */
  lemma StepKeeps(n: nat, d: nat, p: nat, q: nat, r: nat, take: nat)
    requires p > 0 && n / (2 * p) == q * d + r && r < d
    requires take == if 2 * r + n / p % 2 >= d then 1 else 0
    ensures n / p == (2 * q + take) * d + (2 * r + n / p % 2 - take * d)
    ensures 0 <= 2 * r + n / p % 2 - take * d < d
  {
    HalfAgain(n, p);
    Twice(q, take, d);
  }

  lemma Twice(q: nat, take: nat, d: nat)
    ensures (2 * q + take) * d == 2 * (q * d) + take * d
  {
  }

  /** The remainder never exceeds the bits taken in so far, so its shift fits 64 bits even when
      d is above 2^63. */
  lemma ShiftFits(n: U64, p: nat, r: nat)
    requires p > 0 && r <= n / (2 * p)
    ensures 2 * r + n / p % 2 < 0x1_0000_0000_0000_0000 && 2 * r + n / p % 2 <= n / p
  {
    HalfAgain(n, p);
    Scale(1, p, n / p);
  }

  /** Setting the quotient's next bit. */
  lemma BitSet(q: nat, p: nat, take: nat, limit: nat)
    requires take <= 1 && p > 0 && (q + 1) * (2 * p) <= limit
    ensures (2 * q + take) * p == q * (2 * p) + take * p
    ensures (2 * q + take + 1) * p <= limit && (2 * q + take) * p < limit
    ensures take == 1 && (q + 1) * (2 * p) == limit ==> (2 * q + take + 1) * p == limit
  {
    Twice(q, take, p);
    Twice(q, 2, p);
    Scale(2 * q + take + 1, 2 * q + 2, p);
    assert (q + 1) * (2 * p) == (2 * q + 2) * p;
    assert (2 * q + take + 1) * p == (2 * q + take) * p + p;
  }

  lemma Pow2Step(i: nat)
    ensures Pow2(i + 1) == 2 * Pow2(i) && Pow2(0) == 1
  {
  }

  lemma SmallQuotient(n: nat, p: nat)
    requires n < p
    ensures n / p == 0
  {
  }

  lemma ByOne(n: nat)
    ensures n / 1 == n && n * 1 == n
  {
  }

  /** What the loop keeps: `part` is the quotient's bits from position i up, p being 2^i. */
  ghost predicate Dividing(n: U64, d: U64, p: nat, part: nat, q: nat, r: nat) {
    && p > 0 && q == part * p && (part + 1) * p <= 0x1_0000_0000_0000_0000 && r <= n / p
    && (d != 0 ==> n / p == part * d + r && r < d)
    && (d == 0 ==> (part + 1) * p == 0x1_0000_0000_0000_0000 && r == n / p)
  }

  lemma DividesOn(n: U64, d: U64, p: nat, part: nat, q: nat, r: nat)
    requires p > 0 && Dividing(n, d, 2 * p, part, q, r)
    ensures var r1 := 2 * r + n / p % 2;
            r1 < 0x1_0000_0000_0000_0000 &&
            (r1 >= d ==> q + p < 0x1_0000_0000_0000_0000 && Dividing(n, d, p, 2 * part + 1, q + p, r1 - d)) &&
            (r1 < d ==> Dividing(n, d, p, 2 * part, q, r1))
  {
    var take := if 2 * r + n / p % 2 >= d then 1 else 0;
    ShiftFits(n, p, r);
    BitSet(part, p, take, 0x1_0000_0000_0000_0000);
    if d != 0 {
      StepKeeps(n, d, p, part, r, take);
    } else {
      HalfAgain(n, p);
    }
  }

  /** The remainder shifted left in 64 bits, taking in bit i of n. */
  function TakeIn(r: U64, n: U64, i: nat): U64 {
    Wrap64(2 * r + n / Pow2(i) % 2)
  }

  lemma DividesAt(n: U64, d: U64, i: nat, part: nat, q: nat, r: U64)
    requires Dividing(n, d, Pow2(i + 1), part, q, r)
    ensures var r1 := TakeIn(r, n, i);
            (r1 >= d ==> q + Pow2(i) < 0x1_0000_0000_0000_0000 && Dividing(n, d, Pow2(i), 2 * part + 1, q + Pow2(i), r1 - d)) &&
            (r1 < d ==> Dividing(n, d, Pow2(i), 2 * part, q, r1))
  {
    hide Dividing;
    DividesOn(n, d, Pow2(i), part, q, r);
  }

  lemma DividingStarts(n: U64, d: U64)
    ensures Dividing(n, d, 0x1_0000_0000_0000_0000, 0, 0, 0)
  {
    SmallQuotient(n, 0x1_0000_0000_0000_0000);
  }

  lemma DividingEnds(n: U64, d: U64, part: nat, q: nat, r: nat)
    requires Dividing(n, d, 1, part, q, r)
    ensures d != 0 ==> n == q * d + r && r < d
    ensures d == 0 ==> q == 0xffff_ffff_ffff_ffff && r == n
  {
    ByOne(n);
    ByOne(part);
    ByOne(part + 1);
  }

  /** q and r with n = q*d + r and r < d; dividing by zero gives all ones and n. */
  method Udivmod(n: U64, d: U64) returns (q: U64, r: U64)
    ensures d != 0 ==> n == q * d + r && r < d
    ensures d == 0 ==> q == 0xffff_ffff_ffff_ffff && r == n
  {
    hide Pow2, Dividing, TakeIn;
    Pow2Of64();
    q, r := 0, 0;
    ghost var part: nat := 0;
    var i := 64;
    DividingStarts(n, d);
    while i > 0
      invariant 0 <= i <= 64
      invariant Dividing(n, d, Pow2(i), part, q, r)
    {
      i := i - 1;
      DividesAt(n, d, i, part, q, r);
      r := TakeIn(r, n, i);
      part := 2 * part;
      if r >= d {
        r := r - d;
        q := q + Pow2(i);
        part := part + 1;
      }
    }
    Pow2Step(0);
    DividingEnds(n, d, part, q, r);
  }

  method Udivdi3(n: U64, d: U64) returns (q: U64)
    ensures d != 0 ==> q == n / d
  {
    var r;
    q, r := Udivmod(n, d);
    if d != 0 { QuotientIs(n, d, q, r); }
  }

  method Umoddi3(n: U64, d: U64) returns (r: U64)
    ensures d != 0 ==> r == n % d
  {
    var q;
    q, r := Udivmod(n, d);
    if d != 0 { QuotientIs(n, d, q, r); }
  }

  // ---- signed ----

  /** Division truncating toward zero, by its defining property. */
  predicate Truncates(a: int, b: int, q: int, r: int)
    requires b != 0
  {
    && a == q * b + r
    && (if r < 0 then -r else r) < (if b < 0 then -b else b)
    && (r == 0 || (r < 0) == (a < 0))
  }

  /** At most one quotient and remainder truncate. */
  lemma TruncatesOnce(a: int, b: int, q: int, r: int, q': int, r': int)
    requires b != 0 && Truncates(a, b, q, r) && Truncates(a, b, q', r')
    ensures q == q' && r == r'
  {
    assert (q - q') * b == r' - r;
    if q > q' { Large(q - q', b); }
    if q < q' { Large(q' - q, b); Negated(q' - q, b); }
  }

  lemma Large(k: int, b: int)
    requires k >= 1
    ensures b > 0 ==> k * b >= b
    ensures b < 0 ==> k * b <= b
  {
  }

  lemma Negated(k: int, b: int)
    ensures (-k) * b == -(k * b) && k * (-b) == -(k * b)
  {
  }

  function Magnitude(a: I64): (m: U64)
    ensures m as int == if a < 0 then -(a as int) else a
  {
    if a < 0 then Wrap64(-(Wrap64(a) as int)) else a
  }

  /** The sign of the magnitude's quotient and remainder put back. */
  function Signify(neg: bool, q: U64): I64 {
    if neg then Signed64(Wrap64(-(Signed64(q) as int))) else Signed64(q)
  }

  lemma SignsBack(a: int, b: int, q: nat, r: nat)
    requires b != 0 && (if a < 0 then -a else a) == q * (if b < 0 then -b else b) + r
    requires r < if b < 0 then -b else b
    ensures Truncates(a, b, if (a < 0) != (b < 0) then -(q as int) else q, if a < 0 then -(r as int) else r)
  {
    Negated(q, b);
  }

  /** The quotient's magnitude fits, save for the one quotient that is not representable. */
  lemma QuotientFits(a: I64, b: I64, q: nat, r: nat)
    requires b != 0 && Magnitude(a) == q * Magnitude(b) + r
    ensures q <= 0x8000_0000_0000_0000
    ensures q == 0x8000_0000_0000_0000 ==> a == -0x8000_0000_0000_0000 && (b == 1 || b == -1)
  {
    Scale(1, Magnitude(b), q);
    if Magnitude(b) >= 2 { Scale(2, Magnitude(b), q); }
  }

  /** Signed division truncates toward zero, exactly when the quotient is representable. */
  method Divdi3(a: I64, b: I64) returns (s: I64)
    ensures b != 0 ==> ((exists r :: Truncates(a, b, s, r)) <==> !(a == -0x8000_0000_0000_0000 && b == -1))
  {
    var neg := (a < 0) != (b < 0);
    var q, r := Udivmod(Magnitude(a), Magnitude(b));
    s := Signify(neg, q);
    if b != 0 {
      QuotientFits(a, b, q, r);
      SignsBack(a, b, q, r);
      SignifyIs(neg, q);
      var s', r' := if neg then -(q as int) else q, if a < 0 then -(r as int) else r;
      assert Truncates(a, b, s', r');
      forall r'' | Truncates(a, b, s, r'') ensures s == s' {
        TruncatesOnce(a, b, s, r'', s', r');
      }
    }
  }

  lemma SignifyIs(neg: bool, q: U64)
    requires q <= 0x8000_0000_0000_0000
    ensures Signify(neg, q) as int == (if neg then -(q as int) else q) <==> q < 0x8000_0000_0000_0000 || neg
  {
  }

  /** The signed remainder, for every nonzero divisor. */
  method Moddi3(a: I64, b: I64) returns (s: I64)
    ensures b != 0 ==> exists q :: Truncates(a, b, q, s)
  {
    var q, r := Udivmod(Magnitude(a), Magnitude(b));
    s := Signify(a < 0, r);
    if b != 0 {
      SignsBack(a, b, q, r);
      SignifyIs(a < 0, r);
      assert Truncates(a, b, if (a < 0) != (b < 0) then -(q as int) else q, s);
    }
  }
}
