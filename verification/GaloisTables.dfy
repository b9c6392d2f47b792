/** The exponent and logarithm tables, and arithmetic by table lookup (crypto/recovery.py). */
module GaloisTables {
  import opened Bits
  import opened GF256
  import opened PrimitiveElement
  import opened Wrappers

  /** The first i entries of exp are the powers of x. */
  ghost predicate PowersUpTo(exp: seq<int>, i: int) {
    i <= |exp| == 512 && forall j {:trigger exp[j]} :: 0 <= j < i ==> exp[j] == Power(j)
  }

  lemma PowersUpToNext(exp: seq<int>, i: nat, x: int)
    requires PowersUpTo(exp, i) && i < 512 && x == Power(i)
    ensures PowersUpTo(exp[i := x], i + 1)
  {
  }

  /** The table log knows the first i powers. */
  ghost predicate LogsOf(log: seq<int>, i: int) {
    |log| == 256 && forall j: nat :: j < i ==> log[Power(j)] == j
  }

  lemma LogsOfNext(log: seq<int>, i: nat, period: nat)
    requires LogsOf(log, i) && i < period && 254 < period < 256
    ensures LogsOf(log[Power(i) := i], i + 1)
  {
    forall j: nat | j < i
      ensures Power(j) != Power(i)
    {
      PowersDiffer(j, i, period);
    }
  }

  lemma LogsComplete(log: seq<int>, i: int)
    requires LogsOf(log, i) && i == 255
    ensures forall a: Byte :: a != 0 ==> log[a] == Log(a)
  {
    forall a: Byte | a != 0
      ensures log[a] == Log(a)
    {
      assert log[Power(Log(a))] == Log(a);
    }
  }

  lemma PowerRepeats(i: nat, period: nat)
    requires period <= i && 254 < period < 256
    ensures Power(i) == Power(i - period)
  {
    PeriodIs255(period);
    PowerPeriod(i - period, period);
  }

  lemma NextPower(x: Byte, i: nat)
    requires x == Power(i)
    ensures (if 2 * x / 0x100 % 2 == 1 then Xor(2 * x, 0x11D) else 2 * x) == Power(i + 1)
  {
    hide Xor;
  }

  class Tables {
    const exp: array<int>
    const log: array<int>

    /** The tables hold the powers of x and their logarithms. */
    ghost predicate Valid()
      reads this, exp, log
    {
      && exp.Length == 512 && log.Length == 256
      && PowersUpTo(exp[..], 512)
      && (forall a: Byte :: a != 0 ==> log[a] == Log(a))
    }

    constructor ()
      ensures Valid() && fresh(exp) && fresh(log)
    {
      exp := new int[512](_ => 0);
      log := new int[256](_ => 0);
      new;
      FillPeriod();
      RepeatPeriod();
      LogsComplete(log[..], 255);
    }

    /** The first loop of the table construction. */
    method FillPeriod()
      requires exp.Length == 512 && log.Length == 256 && exp != log
      modifies exp, log
      ensures PowersUpTo(exp[..], 255)
      ensures LogsOf(log[..], 255)
    {
      var x := 1;
      for i := 0 to 255
        invariant 0 <= x < 256 && x == Power(i)
        invariant PowersUpTo(exp[..], i)
        invariant LogsOf(log[..], i)
      {
        PowersUpToNext(exp[..], i, x);
        exp[i] := x;
        LogsOfNext(log[..], i, 255);
        log[x] := i;
        NextPower(x, i);
        x := 2 * x;
        if x / 0x100 % 2 == 1 {
          x := Xor(x, 0x11D);
        }
      }
    }

    /** The second loop: the powers repeat after 255. */
    method RepeatPeriod()
      requires exp.Length == 512 && exp != log
      requires PowersUpTo(exp[..], 255)
      modifies exp
      ensures PowersUpTo(exp[..], 512)
    {
      for i := 255 to 512
        invariant PowersUpTo(exp[..], i)
      {
        PowerRepeats(i, 255);
        PowersUpToNext(exp[..], i, exp[i - 255]);
        exp[i] := exp[i - 255];
      }
    }

    /** _gf_mul: the sum of logarithms stays inside the doubled table. */
    function GfMul(a: Byte, b: Byte): (r: Byte)
      requires Valid()
      reads this, exp, log
      ensures r == Mul(a, b)
    {
      if a == 0 || b == 0 then
        MulZeroLeft(b);
        0
      else
        PowerAdd(Log(a), Log(b));
        assert exp[log[a] + log[b]] == exp[..][Log(a) + Log(b)];
        exp[log[a] + log[b]]
    }

    /** _gf_div: fails on a zero divisor only, and otherwise undoes multiplication. */
    function GfDiv(a: Byte, b: Byte): (r: Option<Byte>)
      requires Valid()
      reads this, exp, log
      ensures r.None? <==> b == 0
      ensures r.Some? ==> r.value == Div(a, b)
    {
      if b == 0 then None
      else if a == 0 then
        MulZeroLeft(b);
        QuotientIsUnique(0, Div(a, b), b);
        Some(0)
      else
        QuotientByLogs(a, b);
        assert exp[(log[a] - log[b]) % 255] == exp[..][(Log(a) - Log(b)) % 255];
        Some(exp[(log[a] - log[b]) % 255])
    }
  }

  lemma DifferenceOfLogs(i: nat, j: nat, k: nat)
    requires i < 255 && j < 255 && k == (i - j) % 255
    ensures k + j == if i < j then i + 255 else i
  {
  }

  lemma QuotientByLogs(a: Byte, b: Byte)
    requires a != 0 && b != 0
    ensures Power((Log(a) - Log(b)) % 255) == Div(a, b)
  {
    var i: int, j: int := Log(a), Log(b);
    var k := (i - j) % 255;
    DifferenceOfLogs(i, j, k);
    PowerAdd(k, j);
    if i < j {
      PowerRepeats(k + j, 255);
    }
    QuotientIsUnique(Power(k), Div(a, b), b);
  }
}
