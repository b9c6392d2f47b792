/**
 The element x has order 255: its powers run through every nonzero byte once
 before they repeat. From this follow the remaining field laws.
 */
module PrimitiveElement {
  import opened Collections
  import opened Bits
  import opened GF256

  // ----- evaluating powers digit by digit

  /** One binary digit in front of a number's digits. */
  function Cons(b: bool, n: nat): nat {
    (if b then 1 else 0) + 2 * n
  }

  datatype Digits = Digits(b7: bool, b6: bool, b5: bool, b4: bool, b3: bool, b2: bool, b1: bool, b0: bool) {
    function Value(): Byte {
      Cons(b0, Cons(b1, Cons(b2, Cons(b3, Cons(b4, Cons(b5, Cons(b6, Cons(b7, 0))))))))
    }

    /** XTime on digits. */
    function Shift(): Digits {
      Digits(b6, b5, b4, b3 != b7, b2 != b7, b1 != b7, b0, b7)
    }

    /** Four times XTime on digits. */
    function Shift4(): Digits {
      Digits(b3 != b7, (b2 != b6) != b7, ((b1 != b5) != b6) != b7, ((b0 != b4) != b5) != b6,
             (b4 != b5) != b7, b4 != b6, b5, b4)
    }

    function Shift16(): Digits {
      Shift4().Shift4().Shift4().Shift4()
    }
  }

  lemma ConsDigits(b: bool, n: nat)
    ensures Cons(b, n) / 2 == n && Cons(b, n) % 2 == if b then 1 else 0
  {
  }

  lemma ConsOfDigits(r: nat, x: nat, y: nat, b: bool, m: nat, c: bool, n: nat, h: nat)
    requires x == Cons(b, m) && y == Cons(c, n)
    requires r % 2 == (x + y) % 2 && r / 2 == h
    ensures r == Cons(b != c, h)
  {
  }

  lemma XorCons(b: bool, m: nat, c: bool, n: nat)
    ensures Xor(Cons(b, m), Cons(c, n)) == Cons(b != c, Xor(m, n))
  {
    var x, y := Cons(b, m), Cons(c, n);
    XorDigits(x, y);
    ConsDigits(b, m);
    ConsDigits(c, n);
    ConsOfDigits(Xor(x, y), x, y, b, m, c, n, Xor(m, n));
  }

  lemma XorCons4(a3: bool, a2: bool, a1: bool, a0: bool, m: nat, b3: bool, b2: bool, b1: bool, b0: bool, n: nat)
    ensures Xor(Cons(a0, Cons(a1, Cons(a2, Cons(a3, m)))), Cons(b0, Cons(b1, Cons(b2, Cons(b3, n)))))
            == Cons(a0 != b0, Cons(a1 != b1, Cons(a2 != b2, Cons(a3 != b3, Xor(m, n)))))
  {
    XorCons(a3, m, b3, n);
    XorCons(a2, Cons(a3, m), b2, Cons(b3, n));
    XorCons(a1, Cons(a2, Cons(a3, m)), b1, Cons(b2, Cons(b3, n)));
    XorCons(a0, Cons(a1, Cons(a2, Cons(a3, m))), b0, Cons(b1, Cons(b2, Cons(b3, n))));
  }

  lemma XTimeHigh(a: Byte, b6: bool, b5: bool, b4: bool, b3: bool, b2: bool, b1: bool, b0: bool, top: nat)
    requires top == 1
    requires a == Cons(b0, Cons(b1, Cons(b2, Cons(b3, Cons(b4, Cons(b5, Cons(b6, top)))))))
    ensures XTime(a) == Cons(true, Cons(b0, Cons(!b1, Cons(!b2, Cons(!b3, Cons(b4, Cons(b5, Cons(b6, 0))))))))
  {
    var m := Cons(b3, Cons(b4, Cons(b5, Cons(b6, top))));
    var n := Cons(true, Cons(false, Cons(false, Cons(false, top))));
    XorCons4(b6, b5, b4, b3, top, false, false, false, true, top);
    XorCons4(b2, b1, b0, false, m, true, true, false, true, n);
    XorSelf(top);
    assert Cons(true, Cons(false, Cons(true, Cons(true, n)))) == POLY;
    assert Cons(false, Cons(b0, Cons(b1, Cons(b2, m)))) == 2 * a;
  }

  lemma XTimeLow(a: Byte, b6: bool, b5: bool, b4: bool, b3: bool, b2: bool, b1: bool, b0: bool, top: nat)
    requires top == 0
    requires a == Cons(b0, Cons(b1, Cons(b2, Cons(b3, Cons(b4, Cons(b5, Cons(b6, top)))))))
    ensures XTime(a) == Cons(false, a)
  {
    var low := Cons(b0, Cons(b1, Cons(b2, 0)));
    var high := Cons(b3, Cons(b4, Cons(b5, Cons(b6, top))));
    assert a == low + 8 * high;
    assert low < 8 && high < 16;
  }

  lemma ShiftIsXTimeHigh(d: Digits)
    requires d.b7
    ensures XTime(d.Value()) == d.Shift().Value()
  {
    XTimeHigh(d.Value(), d.b6, d.b5, d.b4, d.b3, d.b2, d.b1, d.b0, Cons(true, 0));
  }

  lemma ShiftIsXTimeLow(d: Digits)
    requires !d.b7
    ensures XTime(d.Value()) == d.Shift().Value()
  {
    XTimeLow(d.Value(), d.b6, d.b5, d.b4, d.b3, d.b2, d.b1, d.b0, Cons(false, 0));
  }

  lemma ShiftIsXTime(d: Digits)
    ensures XTime(d.Value()) == d.Shift().Value()
  {
    if d.b7 {
      ShiftIsXTimeHigh(d);
    } else {
      ShiftIsXTimeLow(d);
    }
  }

  lemma ShiftPower(n: nat, d: Digits)
    requires Power(n) == d.Value()
    ensures Power(n + 1) == d.Shift().Value()
  {
    ShiftIsXTime(d);
  }

  lemma Shift4Power(n: nat, d: Digits)
    requires Power(n) == d.Value()
    ensures Power(n + 4) == d.Shift4().Value()
  {
    hide Power;
    ShiftPower(n, d);
    ShiftPower(n + 1, d.Shift());
    ShiftPower(n + 2, d.Shift().Shift());
    ShiftPower(n + 3, d.Shift().Shift().Shift());
    Shift4IsFourShifts(d);
  }

  lemma Shift4IsFourShifts(d: Digits)
    ensures d.Shift4() == d.Shift().Shift().Shift().Shift()
  {
  }

  lemma Shift16Power(n: nat, d: Digits)
    requires Power(n) == d.Value()
    ensures Power(n + 16) == d.Shift16().Value()
  {
    hide Power;
    Shift4Power(n, d);
    Shift4Power(n + 4, d.Shift4());
    Shift4Power(n + 8, d.Shift4().Shift4());
    Shift4Power(n + 12, d.Shift4().Shift4().Shift4());
  }

  // The digits of x^0, x^16, ..., x^240.
  const ONE := Digits(false, false, false, false, false, false, false, true)
  const X16 := Digits(false, true, false, false, true, true, false, false)
  const X32 := Digits(true, false, false, true, true, true, false, true)
  const X48 := Digits(false, true, false, false, false, true, true, false)
  const X64 := Digits(false, true, false, true, true, true, true, true)
  const X80 := Digits(true, true, true, true, true, true, false, true)
  const X96 := Digits(true, true, false, true, true, false, false, true)
  const X112 := Digits(true, false, false, false, false, false, false, true)
  const X128 := Digits(true, false, false, false, false, true, false, true)
  const X144 := Digits(true, false, true, false, true, false, false, false)
  const X160 := Digits(true, true, true, false, false, true, true, false)
  const X176 := Digits(true, true, true, false, false, false, true, true)
  const X192 := Digits(true, false, false, false, false, false, true, false)
  const X208 := Digits(false, true, false, true, false, false, false, true)
  const X224 := Digits(false, false, false, true, false, false, true, false)
  const X240 := Digits(false, false, true, false, true, true, false, false)

  lemma TurnsTo80(n: nat)
    requires Power(n) == ONE.Value()
    ensures Power(n + 80) == X80.Value()
    ensures Power(n + 48) == X48.Value()
  {
    hide Power, Digits.Value;
    Shift16Power(n, ONE);
    Shift16Power(n + 16, X16);
    Shift16Power(n + 32, X32);
    Shift16Power(n + 48, X48);
    Shift16Power(n + 64, X64);
  }

  lemma TurnsTo160(n: nat)
    requires Power(n) == X80.Value()
    ensures Power(n + 80) == X160.Value()
  {
    hide Power, Digits.Value;
    Shift16Power(n, X80);
    Shift16Power(n + 16, X96);
    Shift16Power(n + 32, X112);
    Shift16Power(n + 48, X128);
    Shift16Power(n + 64, X144);
  }

  lemma TurnsTo240(n: nat)
    requires Power(n) == X160.Value()
    ensures Power(n + 80) == X240.Value()
  {
    hide Power, Digits.Value;
    Shift16Power(n, X160);
    Shift16Power(n + 16, X176);
    Shift16Power(n + 32, X192);
    Shift16Power(n + 48, X208);
    Shift16Power(n + 64, X224);
  }

  lemma ConsIsOne(b: bool, n: nat)
    requires Cons(b, n) <= 1
    ensures n == 0
  {
  }

  lemma OneIsOne(d: Digits)
    ensures d.Value() == 1 <==> d == ONE
  {
    if d.Value() == 1 {
      var n := Cons(d.b4, Cons(d.b5, Cons(d.b6, Cons(d.b7, 0))));
      ConsIsOne(d.b0, Cons(d.b1, Cons(d.b2, Cons(d.b3, n))));
      assert n == 0;
    }
  }

  // ----- the order of x

  // In the next lemmas exponents are held between two bounds, not equated with
  // a literal: the verifier would evaluate a power with a literal exponent.

  /** x^255 is fifteen shifts after x^240. */
  lemma PeriodIs255(period: nat)
    requires 254 < period < 256
    ensures Power(period) == 1
  {
    var zero: nat :| zero < 1;
    TurnsTo80(zero);
    TurnsTo160(zero + 80);
    TurnsTo240(zero + 160);
    FifteenShifts(zero + 240, X240);
    assert X240.Shift4().Shift4().Shift4().Shift().Shift().Shift() == ONE;
    assert zero + 255 == period;
  }

  lemma FifteenShifts(n: nat, d: Digits)
    requires Power(n) == d.Value()
    ensures Power(n + 15) == d.Shift4().Shift4().Shift4().Shift().Shift().Shift().Value()
  {
    hide Power;
    Shift4Power(n, d);
    Shift4Power(n + 4, d.Shift4());
    Shift4Power(n + 8, d.Shift4().Shift4());
    ThreeShifts(n + 12, d.Shift4().Shift4().Shift4());
  }

  lemma ThreeShifts(n: nat, d: Digits)
    requires Power(n) == d.Value()
    ensures Power(n + 3) == d.Shift().Shift().Shift().Value()
  {
    hide Power;
    ShiftPower(n, d);
    ShiftPower(n + 1, d.Shift());
    ShiftPower(n + 2, d.Shift().Shift());
  }

  lemma PartTurns()
    ensures ONE.Shift4().Shift4().Shift4().Shift().Shift().Shift() != ONE
    ensures X48.Shift().Shift().Shift() != ONE
    ensures X80.Shift4().Shift() != ONE
  {
  }

  lemma NoShorterPeriod(c: nat)
    requires 14 < c < 16 || 50 < c < 52 || 84 < c < 86
    ensures Power(c) != 1
  {
    PartTurns();
    var zero: nat :| zero < 1;
    TurnsTo80(zero);
    if c < 16 {
      FifteenShifts(zero, ONE);
      OneIsOne(ONE.Shift4().Shift4().Shift4().Shift().Shift().Shift());
      assert c == zero + 15;
    } else if c < 52 {
      ThreeShifts(zero + 48, X48);
      OneIsOne(X48.Shift().Shift().Shift());
      assert c == zero + 51;
    } else {
      Shift4Power(zero + 80, X80);
      ShiftPower(zero + 84, X80.Shift4());
      OneIsOne(X80.Shift4().Shift());
      assert c == zero + 85;
    }
  }

  lemma Regroup(n: nat, u: nat, p: nat, w: nat, c: nat)
    requires n * u == 1 + p * w
    ensures n * (u * c) == c + (p * c) * w
  {
    calc {
      n * (u * c);
      (n * u) * c;
      (1 + p * w) * c;
      c + (p * w) * c;
      c + (p * c) * w;
    }
  }

  lemma LiftInverse(n: nat, p: nat, r: nat, u: nat) returns (w: nat)
    requires 0 < p && r == n % p && r * u % p == 1
    ensures n * u == 1 + p * w
  {
    var q, s := n / p, r * u / p;
    w := q * u + s;
    calc {
      n * u;
      (p * q + r) * u;
      p * q * u + r * u;
      p * (q * u) + (1 + p * s);
      1 + p * (q * u + s);
    }
  }

  /** If x^n = 1 and n has the inverse u modulo p, then already x^c = 1, where p * c is a period. */
  lemma OrderStep(n: nat, p: nat, r: nat, u: nat, c: nat, period: nat)
    requires Power(n) == 1 && Power(period) == 1 && p * c == period
    requires 0 < p && r == n % p && r * u % p == 1
    ensures Power(c) == 1
  {
    hide Power;
    var w := LiftInverse(n, p, r, u);
    var e := n * (u * c);
    PowerOfOne(n, u * c, e);
    Regroup(n, u, p, w, c);
    PowerReduce(period, w, c, e);
  }

  /** An inverse of r modulo 17. */
  function Inverse17(r: nat): nat
    requires 0 < r < 17
  {
    [0, 1, 9, 6, 13, 7, 3, 5, 15, 2, 12, 14, 10, 4, 11, 8, 16][r]
  }

  lemma Inverse17Works(r: nat)
    requires 0 < r < 17
    ensures r * Inverse17(r) % 17 == 1
  {
  }

  lemma NotAMultiple(n: nat)
    requires 0 < n < 255
    ensures n % 3 != 0 || n % 5 != 0 || n % 17 != 0
  {
  }

  /** An inverse of r modulo 3, 5 or 17. */
  function Inverse(p: nat, r: nat): nat
    requires (p == 3 || p == 5 || p == 17) && 0 < r < p
  {
    if p == 3 then r else if p == 5 then [0, 1, 3, 2, 4][r] else Inverse17(r)
  }

  lemma InverseWorks(p: nat, r: nat)
    requires (p == 3 || p == 5 || p == 17) && 0 < r < p
    ensures r * Inverse(p, r) % p == 1
  {
    if p == 3 {
      assert r == 1 || r == 2;
    } else if p == 5 {
      assert r == 1 || r == 2 || r == 3 || r == 4;
    } else {
      Inverse17Works(r);
    }
  }

  /** A period that the prime p does not divide would leave x^(255 / p) = 1. */
  lemma NotDivided(n: nat, p: nat, c: nat, period: nat)
    requires Power(n) == 1 && 254 < period < 256
    requires (p == 3 || p == 5 || p == 17) && n % p != 0 && p * c == period
    ensures Power(c) == 1
  {
    hide Power;
    PeriodIs255(period);
    InverseWorks(p, n % p);
    OrderStep(n, p, n % p, Inverse(p, n % p), c, period);
  }

  /** 255 = 3 * 5 * 17; a smaller period would miss one of the three primes. */
  lemma NoPeriodBelow255(n: nat, period: nat)
    requires 0 < n < period && 254 < period < 256
    ensures Power(n) != 1
  {
    hide Power;
    if Power(n) == 1 {
      NotAMultiple(n);
      var p := if n % 3 != 0 then 3 else if n % 5 != 0 then 5 else 17;
      var c := period / p;
      assert p * c == period;
      NotDivided(n, p, c, period);
      NoShorterPeriod(c);
    }
  }

  // ----- discrete logarithms

  lemma PowersDiffer(i: nat, j: nat, period: nat)
    requires i < j < period && 254 < period < 256
    ensures Power(i) != Power(j)
  {
    hide Power;
    if Power(i) == Power(j) {
      PeriodIs255(period);
      PowerAdd(i, period - i);
      PowerAdd(j, period - i);
      assert j + (period - i) == (j - i) + period;
      PowerPeriod(j - i, period);
      NoPeriodBelow255(j - i, period);
    }
  }

  ghost function Powers(k: nat): set<Byte> {
    if k == 0 then {} else Powers(k - 1) + {Power(k - 1)}
  }

  lemma {:induction false} PowersMember(k: nat, a: Byte)
    ensures a in Powers(k) <==> exists i: nat :: i < k && Power(i) == a
  {
    if k > 0 {
      hide Power;
      PowersMember(k - 1, a);
      assert Powers(k) == Powers(k - 1) + {Power(k - 1)};
      if a in Powers(k - 1) {
        var i: nat :| i < k - 1 && Power(i) == a;
        assert i < k && Power(i) == a;
      }
      if a == Power(k - 1) {
        assert k - 1 < k && Power(k - 1) == a;
      }
      if i: nat :| i < k && Power(i) == a {
        assert i < k - 1 || a == Power(k - 1);
      }
    }
  }

  lemma {:induction false} PowersCount(k: nat, period: nat)
    requires k <= period && 254 < period < 256
    ensures |Powers(k)| == k && 0 !in Powers(k)
  {
    if k > 0 {
      PowersCount(k - 1, period);
      PowersMember(k - 1, Power(k - 1));
      PowerIsNonzero(k - 1);
      if i: nat :| i < k - 1 && Power(i) == Power(k - 1) {
        PowersDiffer(i, k - 1, period);
      }
    }
  }

  ghost function NonzeroUpTo(k: Byte): (s: set<Byte>)
    ensures |s| == k
    ensures forall a: Byte :: a in s <==> 0 < a <= k
  {
    if k == 0 then {} else NonzeroUpTo(k - 1) + {k}
  }

  /** Every nonzero byte is exactly one of the first 255 powers. */
  lemma LogExists(a: Byte, period: nat)
    requires a != 0 && 254 < period < 256
    ensures exists i: nat :: i < period && Power(i) == a
  {
    PowersCount(period, period);
    SubsetOfSameSize(Powers(period), NonzeroUpTo(period));
    PowersMember(period, a);
  }

  ghost function Log(a: Byte): (i: nat)
    requires a != 0
    ensures i < 255 && Power(i) == a
  {
    var period: nat :| 254 < period < 256;
    LogExists(a, period);
    var i: nat :| i < period && Power(i) == a;
    i
  }

  lemma LogOfPower(i: nat, period: nat)
    requires i < period && 254 < period < 256
    ensures Power(i) != 0 && Log(Power(i)) == i
  {
    PowerIsNonzero(i);
    var j := Log(Power(i));
    if i < j {
      PowersDiffer(i, j, period);
    } else if j < i {
      PowersDiffer(j, i, period);
    }
  }

  // ----- the field laws

  lemma MulCommutes(a: Byte, b: Byte)
    ensures Mul(a, b) == Mul(b, a)
  {
    hide Power, XTime, Xor;
    if a == 0 {
      MulZeroLeft(b);
    } else if b == 0 {
      MulZeroLeft(a);
    } else {
      PowerAdd(Log(a), Log(b));
      PowerAdd(Log(b), Log(a));
    }
  }

  lemma MulAssociates(a: Byte, b: Byte, c: Byte)
    ensures Mul(Mul(a, b), c) == Mul(a, Mul(b, c))
  {
    hide Power, XTime, Xor;
    if a == 0 || b == 0 || c == 0 {
      MulZeroLeft(b);
      MulZeroLeft(c);
      MulZeroLeft(Mul(b, c));
    } else {
      var i, j, k := Log(a), Log(b), Log(c);
      PowerAdd(i, j);
      PowerAdd(i + j, k);
      PowerAdd(j, k);
      PowerAdd(i, j + k);
      assert i + j + k == i + (j + k);
    }
  }

  lemma MulIsNonzero(a: Byte, b: Byte)
    requires a != 0 && b != 0
    ensures Mul(a, b) != 0
  {
    hide Power, XTime, Xor;
    PowerAdd(Log(a), Log(b));
    PowerIsNonzero(Log(a) + Log(b));
  }

  /** Division has exactly one result. */
  lemma QuotientIsUnique(q: Byte, r: Byte, b: Byte)
    requires b != 0 && Mul(q, b) == Mul(r, b)
    ensures q == r
  {
    hide Power, XTime, Xor;
    MulAddLeft(q, r, b);
    XorSelf(Mul(q, b));
    if XorByte(q, r) != 0 {
      MulIsNonzero(XorByte(q, r), b);
    }
    XorZero(q, r);
  }

  lemma QuotientExists(a: Byte, b: Byte, period: nat) returns (q: Byte)
    requires b != 0 && 254 < period < 256
    ensures Mul(q, b) == a
  {
    hide Power, XTime, Xor;
    if a == 0 {
      MulZeroLeft(b);
      q := 0;
    } else {
      var k := if Log(a) < Log(b) then Log(a) + period - Log(b) else Log(a) - Log(b);
      PowerAdd(k, Log(b));
      PeriodIs255(period);
      PowerPeriod(Log(a), period);
      q := Power(k);
    }
  }

  lemma DivisionExists(a: Byte, b: Byte)
    requires b != 0
    ensures exists q: Byte :: Mul(q, b) == a
  {
    var period: nat :| 254 < period < 256;
    var q := QuotientExists(a, b, period);
  }

  /** The quotient: the byte whose product with b is a. */
  ghost function Div(a: Byte, b: Byte): (q: Byte)
    requires b != 0
    ensures Mul(q, b) == a
  {
    DivisionExists(a, b);
    var q: Byte :| Mul(q, b) == a;
    q
  }
}
