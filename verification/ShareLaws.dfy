/**
 What shares and the key's text say byte by byte: the layout of a share, the
 part that chance plays in it, and every reason for which shares are refused
 (crypto/recovery.py).
 */
module ShareLaws {
  import opened Wrappers
  import opened Collections
  import opened HexText
  import opened Bits
  import opened GF256
  import opened PrimitiveElement
  import opened Polynomials
  import opened KeyRecovery

  // ----- polynomials

  function PowerOf(x: Byte, n: nat): Byte {
    if n == 0 then 1 else Mul(PowerOf(x, n - 1), x)
  }

  /** Evaluation adds up the coefficients times the powers of x. */
  lemma {:induction false} EvalTerms(c: Coeffs, a: Byte, x: Byte)
    ensures Eval([], x) == 0
    ensures Eval(c + [a], x) == XorByte(Eval(c, x), Mul(a, PowerOf(x, |c|)))
  {
    hide Mul, XorByte;
    if c == [] {
      MulOneRight(a);
      ConstantTerm(a, x);
      assert c + [a] == [a];
    } else {
      assert (c + [a])[1..] == c[1..] + [a] && (c + [a])[0] == c[0];
      EvalTerms(c[1..], a, x);
      var p := PowerOf(x, |c| - 1);
      MulAssociates(a, p, x);
      MulAddBoth(Eval(c[1..], x), Mul(a, p), x);
      XorSwap(Mul(Eval(c[1..], x), x), Mul(Mul(a, p), x), c[0]);
    }
  }

  lemma ConstantTerm(a: Byte, x: Byte)
    ensures Eval([a], x) == XorByte(0, a)
  {
    assert [a][1..] == [];
    MulZeroLeft(x);
  }

  lemma XorSwap(a: Byte, b: Byte, c: Byte)
    ensures XorByte(XorByte(a, b), c) == XorByte(XorByte(a, c), b)
  {
    XorAssociates(a, b, c);
    XorCommutes(b, c);
    XorAssociates(a, c, b);
  }

  // ----- shares

  /** The bytes that a share's text carries after its prefix. */
  function RawOf(lib: KeyRecovery.Library, text: string): Bytes {
    if "REFINET-SHARE-" <= text then lib.decode(text[|"REFINET-SHARE-"|..]).GetOr([]) else []
  }

  /** The random bytes that go with byte b of the key, in order. */
  function Coefficients(threshold: nat, random: (nat, nat) -> Byte, b: nat): (c: Coeffs)
    requires threshold >= 1
    ensures |c| == threshold - 1 && forall j :: 0 <= j < |c| ==> c[j] == random(b, j)
  {
    seq(threshold - 1, j requires 0 <= j => random(b, j))
  }

  /** The share's text carries v for byte b of the key. */
  predicate Carries(lib: KeyRecovery.Library, text: string, b: nat, v: Byte) {
    6 + b < |RawOf(lib, text)| && RawOf(lib, text)[6 + b] == v
  }

  /**
   Share i carries the numbers i + 1 and threshold, the four bytes of the
   fingerprint, and for each byte b of the key the value at i + 1 of the
   polynomial whose coefficients are b and the random bytes, in order.
   */
  lemma ShareCarries(
      lib: KeyRecovery.Library, key: string, threshold: int, numShares: int, random: (nat, nat) -> Byte, i: nat)
    requires lib.Ideal() && SplitError(key, threshold, numShares) == None && i < numShares
    ensures var text := SplitShares(lib, key, threshold, numShares, random)[i];
      && |RawOf(lib, text)| == 6 + |FromHex(key).value|
      && RawOf(lib, text)[..6] == [i + 1, threshold] + lib.fingerprint(key)
      && forall b: nat :: b < |FromHex(key).value| ==>
           Carries(lib, text, b, Eval([FromHex(key).value[b]] + Coefficients(threshold, random, b), i + 1))
  {
    hide Eval, FromHex;
    var secret := SecretBytes(key);
    var s := ShareOf(secret, threshold, random, lib.fingerprint(key), i);
    var text := SplitShares(lib, key, threshold, numShares, random)[i];
    var raw: Bytes := [s.x, s.threshold] + s.fingerprint + s.ys;
    assert text == PREFIX + lib.encode(raw);
    assert text[|PREFIX|..] == lib.encode(raw) && lib.decode(lib.encode(raw)) == Some(raw);
    assert raw[..6] == [s.x, s.threshold] + s.fingerprint;
    forall b: nat | b < |secret|
      ensures Carries(lib, text, b, Eval([secret[b]] + Coefficients(threshold, random, b), i + 1))
    {
      assert raw[6 + b] == s.ys[b];
      assert Hiding(secret[b], threshold, j => random(b, j)) == [secret[b]] + Coefficients(threshold, random, b);
    }
  }

  /** The x coordinates of the shares numbered by picks. */
  function NumbersOf(picks: seq<nat>): (xs: seq<Byte>)
    requires forall k :: 0 <= k < |picks| ==> picks[k] < 255
    ensures |xs| == |picks| && forall k :: 0 <= k < |xs| ==> xs[k] == picks[k] + 1
  {
    seq(|picks|, k requires 0 <= k < |picks| => picks[k] + 1)
  }

  lemma NumbersDistinct(picks: seq<nat>)
    requires Distinct(picks) && forall k :: 0 <= k < |picks| ==> picks[k] < 255
    ensures Distinct([0] + NumbersOf(picks))
  {
  }

  /** What shares carry for one byte of the key, in terms of the values of its polynomial. */
  lemma ShareValuesCarried(
      lib: KeyRecovery.Library, key: string, threshold: int, numShares: int, random: (nat, nat) -> Byte,
      picks: seq<nat>, b: nat)
    requires lib.Ideal() && SplitError(key, threshold, numShares) == None && b < |FromHex(key).value|
    requires forall k :: 0 <= k < |picks| ==> picks[k] < numShares
    ensures forall k :: 0 <= k < |picks| ==>
      Carries(lib, SplitShares(lib, key, threshold, numShares, random)[picks[k]], b,
              ShareValues(FromHex(key).value[b], Coefficients(threshold, random, b), NumbersOf(picks))[k])
  {
    hide Eval, FromHex, Carries, SplitShares, SplitError;
    SplitErrorMeans(key, threshold, numShares);
    forall k | 0 <= k < |picks|
      ensures Carries(lib, SplitShares(lib, key, threshold, numShares, random)[picks[k]], b,
                      ShareValues(FromHex(key).value[b], Coefficients(threshold, random, b), NumbersOf(picks))[k])
    {
      ShareCarries(lib, key, threshold, numShares, random, picks[k]);
    }
  }

  /**
   The random bytes are used: what any threshold - 1 different shares carry for
   a byte of the key determines them.
   */
  lemma SharesDetermineChance(
      lib: KeyRecovery.Library, key: string, threshold: int, numShares: int,
      random: (nat, nat) -> Byte, random': (nat, nat) -> Byte, picks: seq<nat>, b: nat, j: nat)
    requires lib.Ideal() && SplitError(key, threshold, numShares) == None && b < |FromHex(key).value|
    requires |picks| == threshold - 1 && Distinct(picks) && forall k :: 0 <= k < |picks| ==> picks[k] < numShares
    requires forall k :: 0 <= k < |picks| ==> exists v ::
      && Carries(lib, SplitShares(lib, key, threshold, numShares, random)[picks[k]], b, v)
      && Carries(lib, SplitShares(lib, key, threshold, numShares, random')[picks[k]], b, v)
    requires j < threshold - 1
    ensures random(b, j) == random'(b, j)
  {
    hide Eval, FromHex, RawOf, SplitShares, SplitError, ShareValues;
    SplitErrorMeans(key, threshold, numShares);
    var c, c' := Coefficients(threshold, random, b), Coefficients(threshold, random', b);
    var secret, xs := FromHex(key).value[b], NumbersOf(picks);
    ShareValuesCarried(lib, key, threshold, numShares, random, picks, b);
    ShareValuesCarried(lib, key, threshold, numShares, random', picks, b);
    assert ShareValues(secret, c, xs) == ShareValues(secret, c', xs);
    NumbersDistinct(picks);
    ShareValuesInjective(secret, c, c', xs);
    assert c[j] == c'[j];
  }

  /** Coefficients for each byte of the secret under which the holders of xs see the values. */
  lemma {:induction false} ChanceFor(secret: Bytes, xs: seq<Byte>, values: (nat, nat) -> Byte) returns (cs: seq<Coeffs>)
    requires Distinct([0] + xs)
    ensures |cs| == |secret| && forall b :: 0 <= b < |cs| ==> |cs[b]| == |xs|
    ensures forall b, k :: 0 <= b < |cs| && 0 <= k < |xs| ==> ShareValues(secret[b], cs[b], xs)[k] == values(b, k)
  {
    hide ShareValues;
    cs := [];
    if secret != [] {
      var n := |secret| - 1;
      var before := ChanceFor(secret[..n], xs, values);
      var ys: seq<Byte> := seq(|xs|, k requires 0 <= k => values(n, k));
      var c := ShareValuesSurjective(secret[n], ys, xs);
      cs := before + [c];
    }
  }

  /** The random bytes that a table of coefficients stands for. */
  function ChanceOf(cs: seq<Coeffs>): (nat, nat) -> Byte {
    (b: nat, j: nat) => if b < |cs| && j < |cs[b]| then cs[b][j] else 0
  }

  /**
   Fewer shares than the threshold say nothing: for every key and every choice
   of values there are random bytes under which any threshold - 1 different
   shares of the key carry exactly those values.
   */
  lemma EveryKeyFits(
      lib: KeyRecovery.Library, key: string, threshold: int, numShares: int, picks: seq<nat>,
      values: (nat, nat) -> Byte)
    returns (random: (nat, nat) -> Byte)
    requires lib.Ideal() && SplitError(key, threshold, numShares) == None
    requires |picks| == threshold - 1 && Distinct(picks) && forall k :: 0 <= k < |picks| ==> picks[k] < numShares
    ensures forall b: nat, k: nat :: b < |FromHex(key).value| && k < |picks| ==>
      Carries(lib, SplitShares(lib, key, threshold, numShares, random)[picks[k]], b, values(b, k))
  {
    hide Eval, FromHex, Carries, SplitShares, ShareValues, SplitError;
    SplitErrorMeans(key, threshold, numShares);
    var secret, xs := FromHex(key).value, NumbersOf(picks);
    NumbersDistinct(picks);
    var cs := ChanceFor(secret, xs, values);
    random := ChanceOf(cs);
    forall b: nat, k: nat | b < |secret| && k < |picks|
      ensures Carries(lib, SplitShares(lib, key, threshold, numShares, random)[picks[k]], b, values(b, k))
    {
      ShareValuesCarried(lib, key, threshold, numShares, random, picks, b);
      assert Coefficients(threshold, random, b) == cs[b];
    }
  }

  // ----- refusals

  /** When a key is split, and why not. */
  lemma SplitErrorMeans(key: string, threshold: int, numShares: int)
    ensures SplitError(key, threshold, numShares) == None <==>
      2 <= threshold <= numShares <= 255 && FromHex(key).Some? && FromHex(key) != Some([])
    ensures SplitError(key, threshold, numShares) == Some(ThresholdTooSmall) <==> threshold < 2
    ensures SplitError(key, threshold, numShares) == Some(FewerSharesThanThreshold) <==>
      2 <= threshold && numShares < threshold
    ensures SplitError(key, threshold, numShares) == Some(TooManyShares) <==>
      2 <= threshold <= numShares && 255 < numShares
    ensures SplitError(key, threshold, numShares) == Some(NotHex) <==>
      2 <= threshold <= numShares <= 255 && FromHex(key) == None
    ensures SplitError(key, threshold, numShares) == Some(EmptyKey) <==>
      2 <= threshold <= numShares <= 255 && FromHex(key) == Some([])
  {
    hide FromHex;
  }

  /** A share's text parses exactly when it is the prefix and the base64 of at least seven bytes. */
  lemma ParseShareMeans(lib: KeyRecovery.Library, text: string, s: Share)
    ensures ParseShare(lib, text) == Ok(s) <==>
      && "REFINET-SHARE-" <= text && |s.fingerprint| == 4 && s.ys != []
      && lib.decode(text[|"REFINET-SHARE-"|..]) == Some([s.x, s.threshold] + s.fingerprint + s.ys)
    ensures ParseShare(lib, text) == Err(MissingPrefix) <==> !("REFINET-SHARE-" <= text)
    ensures ParseShare(lib, text) == Err(NotBase64) <==>
      "REFINET-SHARE-" <= text && lib.decode(text[|"REFINET-SHARE-"|..]) == None
  {
    if "REFINET-SHARE-" <= text {
      var decoded := lib.decode(text[|"REFINET-SHARE-"|..]);
      if decoded.Some? {
        var raw := decoded.value;
        if |raw| >= 7 {
          assert raw == [raw[0], raw[1]] + raw[2..6] + raw[6..];
        }
        var joined: Bytes := [s.x, s.threshold] + s.fingerprint + s.ys;
        if raw == joined && |s.fingerprint| == 4 && s.ys != [] {
          assert joined[2..6] == s.fingerprint && joined[6..] == s.ys;
        }
      }
    }
  }

  /** The share agrees with the first in threshold, fingerprint and length. */
  predicate Fits(s: Share, first: Share) {
    s.threshold == first.threshold && s.fingerprint == first.fingerprint && |s.ys| == |first.ys|
  }

  predicate AllFit(parsed: seq<Share>, n: nat)
    requires n <= |parsed|
  {
    forall i :: 0 <= i < n ==> Fits(parsed[i], parsed[0])
  }

  /** Share i is the first that does not fit. */
  predicate Misfit(parsed: seq<Share>, i: int) {
    0 <= i < |parsed| && AllFit(parsed, i) && !Fits(parsed[i], parsed[0])
  }

  predicate NoRepeatedX(parsed: seq<Share>) {
    forall i, j :: 0 <= i < j < |parsed| ==> parsed[i].x != parsed[j].x
  }

  lemma {:induction false} FirstMismatchIs(rest: seq<Share>, first: Share, i: nat)
    requires i < |rest| && !Fits(rest[i], first) && forall k :: 0 <= k < i ==> Fits(rest[k], first)
    ensures FirstMismatch(rest, first) == Some(
      if rest[i].threshold != first.threshold then MismatchedThresholds
      else if rest[i].fingerprint != first.fingerprint then MismatchedFingerprints
      else MismatchedLengths)
    decreases i
  {
    if i > 0 {
      FirstMismatchIs(rest[1..], first, i - 1);
    }
  }

  lemma {:induction false} FirstMisfit(parsed: seq<Share>, n: nat) returns (i: int)
    requires n <= |parsed| && !AllFit(parsed, n)
    ensures Misfit(parsed, i)
  {
    if n > 0 && AllFit(parsed, n - 1) {
      i := n - 1;
    } else {
      i := FirstMisfit(parsed, n - 1);
    }
  }

  /** Why parsed shares are refused. */
  lemma RecoverErrorMeans(parsed: seq<Share>)
    requires parsed != []
    ensures var first, e := parsed[0], RecoverError(parsed);
      && (e == Some(NotEnoughShares) <==> |parsed| < first.threshold)
      && (e == None <==> first.threshold <= |parsed| && AllFit(parsed, |parsed|) && NoRepeatedX(parsed))
      && (e == Some(DuplicateShares) <==>
            first.threshold <= |parsed| && AllFit(parsed, |parsed|) && !NoRepeatedX(parsed))
    ensures forall i :: parsed[0].threshold <= |parsed| && Misfit(parsed, i) ==> RecoverError(parsed) == Some(
      if parsed[i].threshold != parsed[0].threshold then MismatchedThresholds
      else if parsed[i].fingerprint != parsed[0].fingerprint then MismatchedFingerprints
      else MismatchedLengths)
  {
    hide Distinct;
    var xs := Coordinates(parsed);
    assert Distinct(xs) <==> NoRepeatedX(parsed) by {
      DistinctMeans(parsed);
    }
    forall i | Misfit(parsed, i)
      ensures FirstMismatch(parsed, parsed[0]) == Some(
        if parsed[i].threshold != parsed[0].threshold then MismatchedThresholds
        else if parsed[i].fingerprint != parsed[0].fingerprint then MismatchedFingerprints
        else MismatchedLengths)
    {
      FirstMismatchIs(parsed, parsed[0], i);
    }
    if !AllFit(parsed, |parsed|) {
      var i := FirstMisfit(parsed, |parsed|);
    }
  }

  lemma DistinctMeans(parsed: seq<Share>)
    ensures Distinct(Coordinates(parsed)) <==> NoRepeatedX(parsed)
  {
    var xs := Coordinates(parsed);
    assert forall i :: 0 <= i < |parsed| ==> xs[i] == parsed[i].x;
  }

  /**
   What consistent shares recover, whoever made them: of each byte, the constant
   coefficient of the one polynomial through the points of the first threshold
   shares.
   */
  lemma RecoveredIsConstant(parsed: seq<Share>, b: nat, c: Coeffs)
    requires parsed != [] && RecoverError(parsed) == None && b < |parsed[0].ys|
    requires |c| == parsed[0].threshold > 0
    requires forall i :: 0 <= i < parsed[0].threshold ==> b < |parsed[i].ys| && Eval(c, parsed[i].x) == parsed[i].ys[b]
    ensures b < |RecoveredBytes(parsed)| && RecoveredBytes(parsed)[b] == c[0]
  {
    hide Eval, Lagrange, Distinct, RecoverError;
    SameLengths(parsed);
    var threshold := parsed[0].threshold;
    var points := PointsFor(parsed, threshold, b);
    PointsDistinct(parsed, threshold, b);
    InterpolationRecovers(c, points, 0);
    EvalAtZero(c);
  }

  // ----- the key's text

  function DigitChar(i: nat, upper: bool): char
    requires i < 16
  {
    if upper then "0123456789ABCDEF"[i] else "0123456789abcdef"[i]
  }

  /** bytes.fromhex skips white space between bytes. */
  lemma SpaceMeans(c: char, rest: string)
    requires c in [' ', '\t', '\n', '\U{000B}', '\U{000C}', '\r']
    ensures FromHex([c] + rest) == FromHex(rest) && FromHex("") == Some([])
  {
    assert ([c] + rest)[1..] == rest;
  }

  /** It reads two digits of either case as a byte, the first counting sixteen. */
  lemma PairMeans(i: nat, j: nat, upper: bool, upper': bool, rest: string)
    requires i < 16 && j < 16
    ensures FromHex([DigitChar(i, upper), DigitChar(j, upper')] + rest) == Prepended(16 * i + j, FromHex(rest))
  {
    hide DigitChar, HexValue, IsHexSpace;
    DigitValues(i, upper);
    DigitValues(j, upper');
    assert ([DigitChar(i, upper), DigitChar(j, upper')] + rest)[2..] == rest;
  }

  /** It refuses half a byte, and any other character, on its own or after a digit. */
  lemma OtherMeans(i: nat, upper: bool, c: char, rest: string)
    requires i < 16 && c !in "0123456789abcdefABCDEF"
    ensures FromHex([DigitChar(i, upper)]) == None && FromHex([DigitChar(i, upper), c] + rest) == None
    ensures c !in [' ', '\t', '\n', '\U{000B}', '\U{000C}', '\r'] ==> FromHex([c] + rest) == None
  {
    hide DigitChar, HexValue;
    DigitValues(i, upper);
    OtherCharacters(c);
    assert ([DigitChar(i, upper), c] + rest)[0] == DigitChar(i, upper);
    if IsHexSpace(c) {
      Spaces(c);
    }
  }

  lemma Spaces(c: char)
    requires IsHexSpace(c)
    ensures c in [' ', '\t', '\n', '\U{000B}', '\U{000C}', '\r']
  {
    var spaces := ['\t', '\n', '\U{000B}', '\U{000C}', '\r'];
    if c != ' ' {
      assert c == spaces[c as int - '\t' as int];
    }
  }

  function Prepended(b: Byte, rest: Option<Bytes>): Option<Bytes> {
    if rest.Some? then Some([b] + rest.value) else None
  }

  lemma DigitValues(i: nat, upper: bool)
    requires i < 16
    ensures HexValue(DigitChar(i, upper)) == i && !IsHexSpace(DigitChar(i, upper))
  {
  }

  lemma OtherCharacters(c: char)
    ensures HexValue(c) < 16 ==> c in "0123456789abcdefABCDEF"
  {
    var digits := "0123456789abcdefABCDEF";
    if '0' <= c <= '9' {
      assert c == digits[c as int - '0' as int];
    } else if 'a' <= c <= 'f' {
      assert c == digits[10 + c as int - 'a' as int];
    } else if 'A' <= c <= 'F' {
      assert c == digits[16 + c as int - 'A' as int];
    }
  }

  /** How bytes.hex prints a byte. */
  lemma ToHexMeans(b: Byte, rest: Bytes)
    ensures ToHex([]) == ""
    ensures ToHex([b] + rest) == ["0123456789abcdef"[b / 16], "0123456789abcdef"[b % 16]] + ToHex(rest)
  {
    assert ([b] + rest)[1..] == rest;
    DigitOf(b / 16);
    DigitOf(b % 16);
  }

  lemma DigitOf(i: nat)
    requires i < 16
    ensures HexDigit(i) == "0123456789abcdef"[i]
  {
  }

  /** Doubling a byte in the field reduces by 0x11D. */
  lemma DoubleMeans(a: Byte)
    ensures Mul(a, 2) == if a < 128 then 2 * a else Xor(2 * a, 0x11D)
  {
    MulDouble(a, 1);
    MulOneRight(a);
  }
}
