/** Bitwise exclusive-or on natural numbers, defined on their binary digits. */
module Bits {

  function Xor(a: nat, b: nat): nat
    decreases a + b
  {
    if a == 0 then b
    else if b == 0 then a
    else (a + b) % 2 + 2 * Xor(a / 2, b / 2)
  }

  /** Pow2(n) == 2^n, the value of binary digit n. */
  function Pow2(n: nat): nat {
    if n == 0 then 1 else 2 * Pow2(n - 1)
  }

  lemma {:induction false} XorDigits(a: nat, b: nat)
    ensures Xor(a, b) % 2 == (a + b) % 2
    ensures Xor(a, b) / 2 == Xor(a / 2, b / 2)
  {
    if a != 0 && b != 0 {
      hide Xor;
      assert Xor(a, b) == (a + b) % 2 + 2 * Xor(a / 2, b / 2) by {
        XorStep(a, b);
      }
    } else {
      assert Xor(0, b / 2) == b / 2 && Xor(a / 2, 0) == a / 2;
    }
  }

  lemma XorStep(a: nat, b: nat)
    requires a != 0 && b != 0
    ensures Xor(a, b) == (a + b) % 2 + 2 * Xor(a / 2, b / 2)
  {
  }

  lemma {:induction false} XorCommutes(a: nat, b: nat)
    ensures Xor(a, b) == Xor(b, a)
    decreases a + b
  {
    if a != 0 && b != 0 {
      XorCommutes(a / 2, b / 2);
    }
  }

  lemma SameDigits(m: nat, n: nat)
    requires m / 2 == n / 2 && m % 2 == n % 2
    ensures m == n
  {
  }

  /** The last digit of a sum depends on the last digits of its terms only. */
  lemma ParityOfSum(p: nat, q: nat, a: nat, b: nat, c: nat)
    requires p % 2 == (a + b) % 2 && q % 2 == (b + c) % 2
    ensures (p + c) % 2 == (a + q) % 2
  {
  }

  lemma {:induction false} XorAssociates(a: nat, b: nat, c: nat)
    ensures Xor(Xor(a, b), c) == Xor(a, Xor(b, c))
    decreases a + b + c
  {
    if a != 0 && b != 0 && c != 0 {
      var p, q := Xor(a, b), Xor(b, c);
      XorDigits(a, b);
      XorDigits(b, c);
      XorDigits(p, c);
      XorDigits(a, q);
      ParityOfSum(p, q, a, b, c);
      XorAssociates(a / 2, b / 2, c / 2);
      SameDigits(Xor(p, c), Xor(a, q));
    }
  }

  lemma {:induction false} XorSelf(a: nat)
    ensures Xor(a, a) == 0
  {
    if a != 0 {
      XorSelf(a / 2);
    }
  }

  /** Two numbers whose exclusive-or is zero are equal. */
  lemma {:induction false} XorZero(a: nat, b: nat)
    requires Xor(a, b) == 0
    ensures a == b
    decreases a + b
  {
    if a != 0 && b != 0 {
      XorZero(a / 2, b / 2);
    }
  }

  /** Adding the same number twice cancels. */
  lemma XorCancel(a: nat, b: nat)
    ensures Xor(Xor(a, b), b) == a
    ensures Xor(b, Xor(b, a)) == a
  {
    XorAssociates(a, b, b);
    XorAssociates(b, b, a);
    XorSelf(b);
  }

  lemma XorInterchange(a: nat, b: nat, c: nat, d: nat)
    ensures Xor(Xor(a, b), Xor(c, d)) == Xor(Xor(a, c), Xor(b, d))
  {
    XorAssociates(a, b, Xor(c, d));
    XorAssociates(b, c, d);
    XorCommutes(b, c);
    XorAssociates(c, b, d);
    XorAssociates(a, c, Xor(b, d));
  }

  lemma XorDouble(a: nat, b: nat)
    ensures Xor(2 * a, 2 * b) == 2 * Xor(a, b)
  {
    assert 2 * a / 2 == a && 2 * b / 2 == b;
    assert (2 * a + 2 * b) % 2 == 0;
  }

  /** Below 2^n the result stays below 2^n, and digit n is the sum of the two digits n. */
  lemma {:induction false} XorTop(a: nat, b: nat, n: nat)
    requires a < 2 * Pow2(n) && b < 2 * Pow2(n)
    ensures Xor(a, b) < 2 * Pow2(n)
    ensures Xor(a, b) >= Pow2(n) <==> ((a >= Pow2(n)) != (b >= Pow2(n)))
  {
    XorDigits(a, b);
    if n > 0 {
      XorTop(a / 2, b / 2, n - 1);
    }
  }
}
