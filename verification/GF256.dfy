/**
 The field of 256 elements: bytes with exclusive-or as addition and
 multiplication of binary polynomials modulo x^8 + x^4 + x^3 + x^2 + 1.

 Multiplication is defined here without any table. That the table lookups of
 the program compute it is proved in module GaloisTables.
 */
module GF256 {
  import opened Bits

  type Byte = x: int | 0 <= x < 256

  const POLY := 0x11D

  /** Multiply by the polynomial x: shift left, and reduce when digit 8 is set. */
  function XTime(a: Byte): (r: Byte) {
    XorTop(2 * a, POLY, 8);
    if 2 * a >= 256 then Xor(2 * a, POLY) else 2 * a
  }

  /** The sum of a * x^i over the set digits i of b. */
  function Mul(a: Byte, b: nat): (r: Byte)
    decreases b
  {
    if b == 0 then 0 else XorByte(if b % 2 == 1 then a else 0, XTime(Mul(a, b / 2)))
  }

  function XorByte(a: Byte, b: Byte): (r: Byte) {
    XorTop(a, b, 7);
    Xor(a, b)
  }

  // ----- multiplication is bilinear

  lemma XTimeAdd(a: Byte, b: Byte)
    ensures XTime(XorByte(a, b)) == XorByte(XTime(a), XTime(b))
  {
    XorTop(a, b, 7);
    XorDouble(a, b);
    var p, q := 2 * a, 2 * b;
    XorCommutes(q, POLY);
    XorAssociates(p, POLY, q);
    XorAssociates(p, q, POLY);
    XorInterchange(p, POLY, q, POLY);
    XorSelf(POLY);
  }

  lemma MulDigits(a: Byte, b: nat)
    ensures Mul(a, b) == Xor(if b % 2 == 1 then a else 0, XTime(Mul(a, b / 2)))
  {
  }

  /** Selecting a by the last digit of b is additive in b. */
  lemma SelectAdd(a: nat, b: nat, c: nat)
    ensures (if Xor(b, c) % 2 == 1 then a else 0)
            == Xor(if b % 2 == 1 then a else 0, if c % 2 == 1 then a else 0)
  {
    hide Xor;
    XorDigits(b, c);
    assert Xor(b, c) % 2 == (b % 2 + c % 2) % 2;
    XorSelf(a);
    XorWithNone(a);
    XorWithNone(0);
  }

  lemma XorWithNone(a: nat)
    ensures Xor(a, 0) == a && Xor(0, a) == a
  {
  }

  lemma {:induction false} MulAddRight(a: Byte, b: nat, c: nat)
    ensures Mul(a, Xor(b, c)) == XorByte(Mul(a, b), Mul(a, c))
    decreases b + c
  {
    if b != 0 && c != 0 {
      MulAddRight(a, b / 2, c / 2);
      var mb, mc := Mul(a, b / 2), Mul(a, c / 2);
      assert Mul(a, Xor(b, c) / 2) == XorByte(mb, mc) by {
        XorDigits(b, c);
      }
      XTimeAdd(mb, mc);
      SelectAdd(a, b, c);
      MulDigits(a, b);
      MulDigits(a, c);
      MulDigits(a, Xor(b, c));
      XorInterchange(if b % 2 == 1 then a else 0, if c % 2 == 1 then a else 0, XTime(mb), XTime(mc));
    }
  }

  lemma {:induction false} MulAddLeft(a: Byte, b: Byte, c: nat)
    ensures Mul(XorByte(a, b), c) == XorByte(Mul(a, c), Mul(b, c))
    decreases c
  {
    if c != 0 {
      MulAddLeft(a, b, c / 2);
      XTimeAdd(Mul(a, c / 2), Mul(b, c / 2));
      XorInterchange(if c % 2 == 1 then a else 0, XTime(Mul(a, c / 2)),
                     if c % 2 == 1 then b else 0, XTime(Mul(b, c / 2)));
    }
  }

  lemma {:induction false} MulXTimeLeft(a: Byte, b: nat)
    ensures Mul(XTime(a), b) == XTime(Mul(a, b))
    decreases b
  {
    if b != 0 {
      MulXTimeLeft(a, b / 2);
      XTimeAdd(if b % 2 == 1 then a else 0, XTime(Mul(a, b / 2)));
    }
  }

  lemma MulDouble(a: Byte, b: nat)
    ensures Mul(a, 2 * b) == XTime(Mul(a, b))
  {
    assert 2 * b / 2 == b;
  }

  lemma SplitLastDigit(a: nat)
    ensures Xor(a % 2, 2 * (a / 2)) == a
  {
    XorDigits(a % 2, 2 * (a / 2));
    SameDigits(Xor(a % 2, 2 * (a / 2)), a);
  }

  lemma {:induction false} MulOneLeft(b: Byte)
    ensures Mul(1, b) == b
  {
    if b != 0 {
      MulOneLeft(b / 2);
      SplitLastDigit(b);
    }
  }

  lemma XorSuccessor(h: nat)
    ensures Xor(2 * h, 2 * h + 1) == 1
    ensures Xor(1, 1) == 0
  {
    XorSelf(h);
    XorSelf(1);
    XorDigits(2 * h, 2 * h + 1);
    assert (2 * h + 1) / 2 == h && 2 * h / 2 == h;
  }

  lemma OneTimesModulus(a: Byte, h: Byte)
    requires a == 1 && 2 * h + 1 == POLY
    ensures Mul(a, 2 * h + 1) == 0
  {
    MulOneLeft(h);
    XorSuccessor(h);
  }

  /** The modulus itself multiplies everything to zero. */
  lemma {:induction false} MulByModulus(a: Byte, m: nat)
    requires m == POLY
    ensures Mul(a, m) == 0
    decreases a
  {
    if a == 0 {
      MulZeroLeft(m);
    } else if a == 1 {
      OneTimesModulus(a, m / 2);
    } else {
      var low, high: Byte := a % 2, a / 2;
      MulByModulus(low, m);
      MulByModulus(high, m);
      MulXTimeLeft(high, m);
      MulAddLeft(low, XTime(high), m);
      SplitLastDigit(a);
    }
  }

  lemma {:induction false} MulZeroLeft(b: nat)
    ensures Mul(0, b) == 0
  {
    if b != 0 {
      MulZeroLeft(b / 2);
    }
  }

  lemma MulXTimeRight(a: Byte, b: Byte)
    ensures Mul(a, XTime(b)) == XTime(Mul(a, b))
  {
    MulDouble(a, b);
    if 2 * b >= 256 {
      MulAddRight(a, 2 * b, POLY);
      MulByModulus(a, POLY);
    }
  }

  // ----- multiplication is carry-less multiplication modulo POLY

  /** The product of two binary polynomials, without reduction. */
  function Carryless(a: nat, b: nat): nat
    decreases b
  {
    if b == 0 then 0 else Xor(if b % 2 == 1 then a else 0, 2 * Carryless(a, b / 2))
  }

  /** Mul(a, b) is what remains of the carry-less product after dividing by POLY. */
  lemma {:induction false} MulIsRemainder(a: Byte, b: nat) returns (quotient: nat)
    ensures Carryless(a, b) == Xor(Carryless(POLY, quotient), Mul(a, b))
    decreases b
  {
    if b == 0 {
      quotient := 0;
    } else {
      var q := MulIsRemainder(a, b / 2);
      var m: nat := Mul(a, b / 2);
      var bit: nat := if b % 2 == 1 then a else 0;
      XorDouble(Carryless(POLY, q), m);
      assert Carryless(POLY, 2 * q) == 2 * Carryless(POLY, q) by {
        assert 2 * q / 2 == q;
      }
      if 2 * m >= 256 {
        quotient := 2 * q + 1;
        assert quotient / 2 == q;
        XorCancel(2 * m, POLY);
        XorCommutes(POLY, 2 * Carryless(POLY, q));
        XorAssociates(2 * Carryless(POLY, q), POLY, XTime(m));
        XorCommutes(POLY, XTime(m));
      } else {
        quotient := 2 * q;
      }
      var c := Carryless(POLY, quotient);
      assert 2 * Carryless(a, b / 2) == Xor(c, XTime(m));
      XorAssociates(bit, c, XTime(m));
      XorCommutes(bit, c);
      XorAssociates(c, bit, XTime(m));
    }
  }

  lemma {:induction false} XorKeepsHigh(a: nat, b: nat, n: nat)
    requires a < Pow2(n) <= b
    ensures Xor(a, b) >= Pow2(n)
  {
    XorDigits(a, b);
    if n > 0 {
      XorKeepsHigh(a / 2, b / 2, n - 1);
    }
  }

  /** A nonzero multiple of POLY has degree at least eight. */
  lemma {:induction false} MultiplesAreLarge(q: nat)
    requires q != 0
    ensures Carryless(POLY, q) >= 256
  {
    if q / 2 != 0 {
      MultiplesAreLarge(q / 2);
      assert Pow2(9) == 512;
      XorKeepsHigh(if q % 2 == 1 then POLY else 0, 2 * Carryless(POLY, q / 2), 9);
    }
  }

  lemma {:induction false} CarrylessAdd(a: nat, b: nat, c: nat)
    ensures Carryless(a, Xor(b, c)) == Xor(Carryless(a, b), Carryless(a, c))
    decreases b + c
  {
    if b != 0 && c != 0 {
      CarrylessAdd(a, b / 2, c / 2);
      var m, n := Carryless(a, b / 2), Carryless(a, c / 2);
      assert Carryless(a, Xor(b, c) / 2) == Xor(m, n) by {
        XorDigits(b, c);
      }
      XorDouble(m, n);
      SelectAdd(a, b, c);
      CarrylessDigits(a, b);
      CarrylessDigits(a, c);
      CarrylessDigits(a, Xor(b, c));
      XorInterchange(if b % 2 == 1 then a else 0, if c % 2 == 1 then a else 0, 2 * m, 2 * n);
    }
  }

  lemma CarrylessDigits(a: nat, b: nat)
    ensures Carryless(a, b) == Xor(if b % 2 == 1 then a else 0, 2 * Carryless(a, b / 2))
  {
  }

  /** Division by POLY leaves one remainder only, so MulIsRemainder determines Mul. */
  lemma RemainderIsUnique(q: nat, r: Byte, q': nat, r': Byte)
    requires Xor(Carryless(POLY, q), r) == Xor(Carryless(POLY, q'), r')
    ensures q == q' && r == r'
  {
    var c, c' := Carryless(POLY, q), Carryless(POLY, q');
    XorSelf(Xor(c, r));
    XorInterchange(c, r, c', r');
    XorZero(Xor(c, c'), Xor(r, r'));
    CarrylessAdd(POLY, q, q');
    XorTop(r, r', 7);
    if Xor(q, q') != 0 {
      MultiplesAreLarge(Xor(q, q'));
      assert false;
    }
    XorZero(q, q');
    XorSelf(c);
    XorZero(r, r');
  }

  // ----- the powers of x

  /** x^n reduced modulo POLY. */
  function Power(n: nat): Byte {
    if n == 0 then 1 else XTime(Power(n - 1))
  }

  lemma {:induction false} PowerAdd(i: nat, j: nat)
    ensures Mul(Power(i), Power(j)) == Power(i + j)
  {
    if j == 0 {
      MulDigits(Power(i), 1);
    } else {
      PowerAdd(i, j - 1);
      MulXTimeRight(Power(i), Power(j - 1));
    }
  }

  lemma {:induction false} PowerIsNonzero(n: nat)
    ensures Power(n) != 0
  {
    if n != 0 {
      PowerIsNonzero(n - 1);
      if XTime(Power(n - 1)) == 0 {
        XorZero(2 * Power(n - 1), POLY);
      }
    }
  }

  lemma PowerPeriod(n: nat, p: nat)
    requires Power(p) == 1
    ensures Power(n + p) == Power(n)
  {
    PowerAdd(p, n);
    MulOneLeft(Power(n));
  }

  /** A power that is 1 stays 1 when its exponent is multiplied. */
  lemma {:induction false} PowerOfOne(n: nat, m: nat, e: nat)
    requires Power(n) == 1 && e == n * m
    ensures Power(e) == 1
    decreases m
  {
    if m == 0 {
      assert e == 0;
    } else {
      var k := n * (m - 1);
      assert e == k + n;
      PowerOfOne(n, m - 1, k);
      PowerPeriod(k, n);
    }
  }

  /** Whole periods drop out of an exponent. */
  lemma PowerReduce(p: nat, m: nat, r: nat, e: nat)
    requires Power(p) == 1 && e == r + p * m
    ensures Power(e) == Power(r)
  {
    hide Power;
    var k := p * m;
    PowerOfOne(p, m, k);
    PowerPeriod(r, k);
    assert r + k == e;
  }
}
