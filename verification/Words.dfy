/** 32-bit words, bytes and little-endian access, with wrap-around written out. */
module Words {
  const TWO32: int := 0x1_0000_0000
  /** RISCV_HALF: the stack/heap boundary, where the writable region is anchored. */
  const HALF: int := 0x8000_0000

  type Word = x: int | 0 <= x < 0x1_0000_0000
  type Byte = x: int | 0 <= x < 256

  /** Bytes of one access. */
  type Size = n: nat | n == 1 || n == 2 || n == 4 witness 1

  datatype Option<+T> = None | Some(value: T)

  /** x modulo 2^32, a turn at a time. */
  function Wrap(x: int): Word
    decreases x < 0, if x < 0 then -x else x
  {
    if x < 0 then Wrap(x + 0x1_0000_0000)
    else if x >= 0x1_0000_0000 then Wrap(x - 0x1_0000_0000)
    else x
  }

  lemma {:induction false} WrapOnce(x: int)
    ensures Wrap(x + 0x1_0000_0000) == Wrap(x)
  {
  }

  lemma {:induction false} WrapTurns(x: int, k: int)
    ensures Wrap(x + k * 0x1_0000_0000) == Wrap(x)
    decreases k < 0, if k < 0 then -k else k
  {
    if k > 0 {
      WrapTurns(x, k - 1);
      WrapOnce(x + (k - 1) * 0x1_0000_0000);
    } else if k < 0 {
      WrapTurns(x, k + 1);
      WrapOnce(x + k * 0x1_0000_0000);
    }
  }

  lemma WrapMod(x: int)
    ensures Wrap(x) == x % 0x1_0000_0000
  {
    WrapTurns(x % 0x1_0000_0000, x / 0x1_0000_0000);
  }

  lemma WrapNear(x: int)
    requires -0x1_0000_0000 <= x < 0x2_0000_0000
    ensures Wrap(x) == if x < 0 then x + 0x1_0000_0000 else if x < 0x1_0000_0000 then x else x - 0x1_0000_0000
  {
  }

  lemma WrapWord(x: Word)
    ensures Wrap(x + 0) == x
  {
  }

  lemma WrapAdd(x: int, y: int)
    ensures Wrap(Wrap(x) + y) == Wrap(x + y)
  {
    WrapMod(x);
    WrapTurns(Wrap(x) + y, x / 0x1_0000_0000);
  }

  function Signed(x: Word): int {
    if x < 0x8000_0000 then x else x - 0x1_0000_0000
  }

  /** Clears bit 0, as an indirect jump does to its target. */
  function ClearBit0(x: Word): Word {
    x - x % 2
  }

  /** Sign extension of the low `bits` bits, for the field widths the engines use. */
  function SignExtend(v: nat, half: nat): Word
    requires 0 < half <= 0x8000_0000
  {
    var low := v % (2 * half);
    if low < half then low else Wrap(low - 2 * half)
  }

  function Pow2(n: nat): (r: nat)
    ensures r >= 1
  {
    if n == 0 then 1 else 2 * Pow2(n - 1)
  }

  datatype BitOp = BitAnd | BitOr | BitXor

  function BitOf(op: BitOp, a: nat, b: nat): nat {
    match op
    case BitAnd => (if a % 2 == 1 && b % 2 == 1 then 1 else 0)
    case BitOr => (if a % 2 == 1 || b % 2 == 1 then 1 else 0)
    case BitXor => (if a % 2 != b % 2 then 1 else 0)
  }

  /** The low n bits of a bitwise operation, least significant bit first. */
  function Bitwise(op: BitOp, n: nat, a: nat, b: nat): (r: nat)
    ensures r < Pow2(n)
  {
    if n == 0 then 0 else 2 * Bitwise(op, n - 1, a / 2, b / 2) + BitOf(op, a, b)
  }

  lemma {:induction false} BitsOfSame(n: nat, a: nat)
    ensures Bitwise(BitXor, n, a, a) == 0
    ensures a < Pow2(n) ==> Bitwise(BitAnd, n, a, a) == Bitwise(BitOr, n, a, a) == a
    decreases n
  {
    if n > 0 { BitsOfSame(n - 1, a / 2); }
  }

  lemma Pow2Of32()
    ensures Pow2(32) == 0x1_0000_0000
  {
    assert Pow2(8) == 0x100;
    assert Pow2(16) == 0x1_0000;
    assert Pow2(24) == 0x100_0000;
  }

  function Bits32(op: BitOp, a: Word, b: Word): Word {
    Pow2Of32();
    Bitwise(op, 32, a, b)
  }

  // Shifts, one bit at a time.

  function ShiftLeft(a: Word, k: nat): Word {
    if k == 0 then a else Wrap(2 * ShiftLeft(a, k - 1))
  }

  function ShiftRight(a: Word, k: nat): Word {
    if k == 0 then a else ShiftRight(a, k - 1) / 2
  }

  /** The arithmetic shift: each step halves the signed value, rounding down. */
  function ShiftRightSigned(a: Word, k: nat): Word {
    if k == 0 then a else Wrap(Signed(ShiftRightSigned(a, k - 1)) / 2)
  }

  // ---- division by a power of two ----

  /** Quotient and remainder are determined by their equation. */
  lemma QuotientIs(w: int, m: nat, q: int, r: nat)
    requires w == q * m + r && r < m
    ensures w / m == q && w % m == r
  {
    var e := w / m - q;
    assert w == (q + e) * m + w % m;
    assert (q + e) * m == q * m + e * m;
    assert e > 0 ==> e * m >= m;
    assert e < 0 ==> e * m + m <= 0;
  }

  lemma {:induction false} Regroup(h: int, s: nat, d: nat, e: nat)
    requires s < e
    ensures (h * e + s) * d == h * (e * d) + s * d && 0 <= s * d <= e * d - d
  {
    assert h * e * d == h * (e * d) && (e - 1 - s) * d >= 0;
  }

  /** Dividing twice is dividing by the product. */
  lemma DivideTwice(w: int, d: nat, e: nat)
    requires d > 0 && e > 0
    ensures w / d / e == w / (e * d)
  {
    var q, r := w / d, w % d;
    Regroup(q / e, q % e, d, e);
    QuotientIs(w, e * d, q / e, q % e * d + r);
  }

  /** A right shift by k divides by Pow2(k). */
  lemma {:induction false} ShiftDivides(w: Word, k: nat, d: nat)
    requires d == Pow2(k)
    ensures ShiftRight(w, k) == w / d
    decreases k
  {
    if k > 0 {
      ShiftDivides(w, k - 1, d / 2);
      DivideTwice(w, d / 2, 2);
    }
  }

  // ---- bits ----

  function BitAt(x: nat, k: nat): bool {
    if k == 0 then x % 2 == 1 else BitAt(x / 2, k - 1)
  }

  /** Bit k of a bitwise operation is that operation on the operands' bits k. */
  lemma {:induction false} BitwiseAt(op: BitOp, n: nat, a: nat, b: nat, k: nat)
    requires k < n
    ensures BitAt(Bitwise(op, n, a, b), k) <==>
            match op
            case BitAnd => BitAt(a, k) && BitAt(b, k)
            case BitOr => BitAt(a, k) || BitAt(b, k)
            case BitXor => BitAt(a, k) != BitAt(b, k)
    decreases n
  {
    if k > 0 { BitwiseAt(op, n - 1, a / 2, b / 2, k - 1); }
  }

  /** C's signed division, which truncates toward zero. */
  function TruncDiv(a: int, b: int): int
    requires b != 0
  {
    var q := (if a < 0 then -a else a) / (if b < 0 then -b else b);
    if (a < 0) != (b < 0) then -q else q
  }

  function TruncMod(a: int, b: int): int
    requires b != 0
  {
    var r := (if a < 0 then -a else a) % (if b < 0 then -b else b);
    if a < 0 then -r else r
  }

  // ---- little-endian access to a byte sequence ----

  function ReadLE(s: seq<Byte>, at: nat, n: Size): Word
    requires at + n <= |s|
  {
    if n == 1 then s[at]
    else if n == 2 then s[at] as int + 0x100 * s[at + 1] as int
    else s[at] as int + 0x100 * s[at + 1] as int + 0x1_0000 * s[at + 2] as int + 0x100_0000 * s[at + 3] as int
  }

  function ByteOf(v: Word, k: nat): Byte
    requires k < 4
  {
    if k == 0 then v % 0x100
    else if k == 1 then v / 0x100 % 0x100
    else if k == 2 then v / 0x1_0000 % 0x100
    else v / 0x100_0000
  }

  function WriteLE(s: seq<Byte>, at: nat, n: Size, v: Word): (r: seq<Byte>)
    requires at + n <= |s|
    ensures |r| == |s|
    ensures forall j :: 0 <= j < |s| ==> r[j] == if at <= j < at + n then ByteOf(v, j - at) else s[j]
  {
    if n == 1 then s[at := ByteOf(v, 0)]
    else if n == 2 then s[at := ByteOf(v, 0)][at + 1 := ByteOf(v, 1)]
    else s[at := ByteOf(v, 0)][at + 1 := ByteOf(v, 1)][at + 2 := ByteOf(v, 2)][at + 3 := ByteOf(v, 3)]
  }

  lemma ReadBack(s: seq<Byte>, at: nat, v: Word)
    requires at + 4 <= |s|
    ensures ReadLE(WriteLE(s, at, 4, v), at, 4) == v
  {
    var r := WriteLE(s, at, 4, v);
    assert r[at] == ByteOf(v, 0) && r[at + 1] == ByteOf(v, 1) && r[at + 2] == ByteOf(v, 2) && r[at + 3] == ByteOf(v, 3);
    BytesMakeWord(v);
  }

  lemma BytesMakeWord(v: Word)
    ensures ByteOf(v, 0) as int + 0x100 * ByteOf(v, 1) as int + 0x1_0000 * ByteOf(v, 2) as int
            + 0x100_0000 * ByteOf(v, 3) as int == v
  {
    assert v / 0x1_0000 == v / 0x100 / 0x100;
    assert v / 0x100_0000 == v / 0x100 / 0x100 / 0x100;
  }

  lemma ReadOther(s: seq<Byte>, at: nat, n: Size, v: Word, other: nat)
    requires at + n <= |s| && other + 4 <= |s|
    requires other + 4 <= at || at + n <= other
    ensures ReadLE(WriteLE(s, at, n, v), other, 4) == ReadLE(s, other, 4)
  {
  }
}
