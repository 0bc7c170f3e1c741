/** What the shared arithmetic computes, in the integers' own terms. */
module AluLaws {
  import opened Words
  import opened Isa
  import opened Division

  /** A word read as signed is the number congruent to it in [-2^31, 2^31). */
  lemma SignedIs(x: Word)
    ensures -0x8000_0000 <= Signed(x) < 0x8000_0000 && (Signed(x) - x) % 0x1_0000_0000 == 0
  {
  }

  lemma SignedBack(v: int)
    requires -0x8000_0000 <= v < 0x8000_0000
    ensures Signed(Wrap(v)) == v
  {
    WrapNear(v);
  }

  // ---- sums and products ----

  /** Addition is exact up to one turn of 2^32, and subtraction is what addition undoes. */
  lemma AddSub(a: Word, b: Word)
    ensures Alu(Add, a, b) == a + b || Alu(Add, a, b) == a + b - 0x1_0000_0000
    ensures Alu(Add, Alu(Sub, a, b), b) == a
  {
    WrapNear(a + b);
    WrapNear(a - b);
    WrapNear(Alu(Sub, a, b) + b);
  }

  /** A product's high part, itself in range, and its low word. */
  lemma Halves(p: int)
    ensures p / 0x1_0000_0000 * 0x1_0000_0000 + Wrap(p) == p
  {
    WrapMod(p);
  }

  lemma TurnedProduct(x: int, u: int, y: int)
    ensures Wrap((x + u * 0x1_0000_0000) * y) == Wrap(x * y)
  {
    assert (x + u * 0x1_0000_0000) * y == x * y + (u * y) * 0x1_0000_0000;
    WrapTurns(x * y, u * y);
  }

  /** The low word of a product does not depend on the signedness. */
  lemma SameLow(a: Word, b: Word)
    ensures Wrap(Signed(a) * Signed(b)) == Wrap(a * b) == Wrap(Signed(a) * b)
  {
    hide Wrap;
    TurnedProduct(Signed(a), if a < 0x8000_0000 then 0 else 1, b);
    TurnedProduct(Signed(b), if b < 0x8000_0000 then 0 else 1, Signed(a));
    assert Signed(b) * Signed(a) == Signed(a) * Signed(b) && b * Signed(a) == Signed(a) * b;
  }

  /** p / 2^32 is in range when p is. */
  lemma HighRange(p: int)
    ensures -0x8000_0000 * 0x1_0000_0000 <= p < 0x8000_0000 * 0x1_0000_0000 ==> -0x8000_0000 <= p / 0x1_0000_0000 < 0x8000_0000
    ensures 0 <= p < 0x1_0000_0000 * 0x1_0000_0000 ==> 0 <= p / 0x1_0000_0000 < 0x1_0000_0000
  {
  }

  lemma ProductGrows(s: nat, t: nat, m: nat, n: nat)
    requires s <= m && t < n && m > 0
    ensures 0 <= s * t < m * n
  {
    assert s * t <= m * t < m * n;
  }

  /** The high and the low product word make up the product, for all three signednesses. */
  lemma Products(a: Word, b: Word)
    ensures Signed(Alu(Mulh, a, b)) * 0x1_0000_0000 + Alu(Mul, a, b) == Signed(a) * Signed(b)
    ensures Signed(Alu(Mulhsu, a, b)) * 0x1_0000_0000 + Alu(Mul, a, b) == Signed(a) * b
    ensures Alu(Mulhu, a, b) * 0x1_0000_0000 + Alu(Mul, a, b) == a * b
  {
    hide Wrap, Signed;
    SameLow(a, b);
    SignedIs(a);
    SignedIs(b);
    HighWord(Signed(a), b);
    HighWord(Signed(a), Signed(b));
    Halves(a * b);
    ProductGrows(a, b, 0x1_0000_0000, 0x1_0000_0000);
    HighRange(a * b);
    WrapNear(a * b / 0x1_0000_0000);
  }

  /** The high word of a signed number's product with a word, signed or not, is exact. */
  lemma HighWord(s: int, t: int)
    requires -0x8000_0000 <= s < 0x8000_0000 && -0x1_0000_0000 < t < 0x1_0000_0000
    ensures Signed(Wrap(s * t / 0x1_0000_0000)) * 0x1_0000_0000 + Wrap(s * t) == s * t
  {
    hide Wrap, Signed;
    var s', t' := if s < 0 then -s else s, if t < 0 then -t else t;
    ProductGrows(s', t', 0x8000_0000, 0x1_0000_0000);
    assert s * t == s' * t' || s * t == -(s' * t');
    HighRange(s * t);
    SignedBack(s * t / 0x1_0000_0000);
    Halves(s * t);
  }

  // ---- division ----

  /** The signed quotient and remainder truncate toward zero; dividing by zero gives -1 and the
      dividend, and the one quotient that does not fit gives the dividend and 0. */
  lemma SignedDivision(a: Word, b: Word)
    ensures b != 0 && !(a == 0x8000_0000 && b == 0xffff_ffff) ==>
              Truncates(Signed(a), Signed(b), Signed(Alu(Div, a, b)), Signed(Alu(Rem, a, b)))
    ensures b == 0 ==> Signed(Alu(Div, a, b)) == -1 && Alu(Rem, a, b) == a
    ensures a == 0x8000_0000 && b == 0xffff_ffff ==> Alu(Div, a, b) == a && Alu(Rem, a, b) == 0
  {
    if b != 0 && !(a == 0x8000_0000 && b == 0xffff_ffff) {
      TruncatesBy(Signed(a), Signed(b));
      SignedBack(TruncDiv(Signed(a), Signed(b)));
      SignedBack(TruncMod(Signed(a), Signed(b)));
    }
  }

  lemma TruncatesBy(a: int, b: int)
    requires b != 0 && -0x8000_0000 <= a < 0x8000_0000 && -0x8000_0000 <= b < 0x8000_0000 && !(a == -0x8000_0000 && b == -1)
    ensures Truncates(a, b, TruncDiv(a, b), TruncMod(a, b))
    ensures -0x8000_0000 <= TruncDiv(a, b) < 0x8000_0000 && -0x8000_0000 <= TruncMod(a, b) < 0x8000_0000
  {
    var m: nat, n: nat := if a < 0 then -a else a, if b < 0 then -b else b;
    var q, r := m / n, m % n;
    QuotientSmall(m, n);
    SignsBack(a, b, q, r);
  }

  lemma QuotientSmall(m: nat, n: nat)
    requires n > 0
    ensures m == m / n * n + m % n && m % n < n
    ensures 0 <= m / n <= m && (n > 1 && m > 0 ==> m / n < m)
  {
    Scale(1, n, m / n);
    if n > 1 { Scale(2, n, m / n); }
  }

  lemma UnsignedDivision(a: Word, b: Word)
    ensures b != 0 ==> a == Alu(Divu, a, b) * b + Alu(Remu, a, b) && Alu(Remu, a, b) < b
    ensures b == 0 ==> Alu(Divu, a, b) == 0xffff_ffff && Alu(Remu, a, b) == a
  {
    if b != 0 {
      hide Wrap;
      QuotientSmall(a, b);
      WrapNear(a / b);
      WrapNear(a % b);
    }
  }

  // ---- shifts ----

  lemma {:induction false} LeftIs(a: Word, k: nat)
    ensures ShiftLeft(a, k) == Wrap(a * Pow2(k))
    decreases k
  {
    hide Wrap;
    if k > 0 {
      LeftIs(a, k - 1);
      var p := a * Pow2(k - 1);
      assert a * (2 * Pow2(k - 1)) == p + p;
      WrapAdd(p, Wrap(p));
      WrapAdd(p, p);
    } else {
      WrapWord(a);
    }
  }

  lemma {:induction false} RightSignedIs(a: Word, k: nat)
    ensures Signed(ShiftRightSigned(a, k)) == Signed(a) / Pow2(k)
    decreases k
  {
    if k > 0 {
      RightSignedIs(a, k - 1);
      DivideTwice(Signed(a), Pow2(k - 1), 2);
      SignedBack(Signed(ShiftRightSigned(a, k - 1)) / 2);
    }
  }

  /** A left shift multiplies by 2^k modulo 2^32, a right shift divides rounding down, the
      arithmetic one its operand read as signed; k is the low five bits of the second operand. */
  lemma Shifts(a: Word, b: Word)
    ensures var p := Pow2(b % 32);
            Alu(Sll, a, b) == a * p % 0x1_0000_0000 && Alu(Srl, a, b) == a / p && Signed(Alu(Sra, a, b)) == Signed(a) / p
  {
    LeftIs(a, b % 32);
    WrapMod(a * Pow2(b % 32));
    ShiftDivides(a, b % 32, Pow2(b % 32));
    RightSignedIs(a, b % 32);
  }

  // ---- bits ----

  lemma Bits(a: Word, b: Word, k: nat)
    requires k < 32
    ensures BitAt(Alu(And, a, b), k) <==> BitAt(a, k) && BitAt(b, k)
    ensures BitAt(Alu(AluOp.Or, a, b), k) <==> BitAt(a, k) || BitAt(b, k)
    ensures BitAt(Alu(AluOp.Xor, a, b), k) <==> BitAt(a, k) != BitAt(b, k)
  {
    hide Bitwise, BitAt;
    BitwiseAt(BitAnd, 32, a, b, k);
    BitwiseAt(BitOr, 32, a, b, k);
    BitwiseAt(BitXor, 32, a, b, k);
  }

  /** And 32 bits are a whole word. */
  lemma {:induction false} BitsTell(n: nat, a: nat, b: nat)
    requires a < Pow2(n) && b < Pow2(n) && forall k: nat :: k < n ==> (BitAt(a, k) <==> BitAt(b, k))
    ensures a == b
    decreases n
  {
    if n > 0 {
      assert BitAt(a, 0) <==> BitAt(b, 0);
      forall k: nat | k < n - 1
        ensures BitAt(a / 2, k) <==> BitAt(b / 2, k)
      {
        assert BitAt(a, k + 1) <==> BitAt(b, k + 1);
      }
      BitsTell(n - 1, a / 2, b / 2);
    }
  }

  // ---- order ----

  lemma Orders(a: Word, b: Word)
    ensures Alu(Sltu, a, b) == if a < b then 1 else 0
    ensures Alu(Slt, a, b) == 1 <==> Signed(a) < Signed(b)
    ensures Alu(Slt, a, b) <= 1
  {
  }

  /** The branch conditions: equality and the two orders, each with its negation. */
  lemma Branches(a: Word, b: Word)
    ensures Taken(BEQ, a, b) <==> a == b
    ensures Taken(BLT, a, b) <==> Alu(Slt, a, b) == 1
    ensures Taken(BLTU, a, b) <==> Alu(Sltu, a, b) == 1
    ensures Taken(BNE, a, b) == !Taken(BEQ, a, b) && Taken(BGE, a, b) == !Taken(BLT, a, b) && Taken(BGEU, a, b) == !Taken(BLTU, a, b)
  {
  }
}
