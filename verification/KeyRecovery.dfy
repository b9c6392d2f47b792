/** Splitting a key into shares and recovering it from them (crypto/recovery.py). */
module KeyRecovery {
  import opened Wrappers
  import opened Collections
  import opened HexText
  import opened GF256
  import opened GaloisTables
  import opened Polynomials

  type Bytes = seq<Byte>

  datatype Error =
    | ThresholdTooSmall
    | FewerSharesThanThreshold
    | TooManyShares
    | NotHex
    | EmptyKey
    | NoShares
    | MissingPrefix
    | NotBase64
    | TooShort
    | NotEnoughShares
    | MismatchedThresholds
    | MismatchedFingerprints
    | MismatchedLengths
    | DuplicateShares

  // ----- hexadecimal text

  predicate IsHexSpace(c: char) {
    c == ' ' || '\t' <= c <= '\r'
  }

  /** bytes.fromhex: pairs of digits, with white space allowed between pairs. */
  function FromHex(s: string): Option<Bytes>
    decreases |s|
  {
    if s == "" then Some([])
    else if IsHexSpace(s[0]) then FromHex(s[1..])
    else if |s| >= 2 && HexValue(s[0]) < 16 && HexValue(s[1]) < 16 then
      match FromHex(s[2..])
      case None => None
      case Some(rest) => Some([16 * HexValue(s[0]) + HexValue(s[1])] + rest)
    else None
  }

  function ToHex(b: Bytes): string {
    if b == [] then "" else [HexDigit(b[0] / 16), HexDigit(b[0] % 16)] + ToHex(b[1..])
  }

  predicate IsLowerHex(s: string) {
    |s| % 2 == 0 && forall c :: c in s ==> '0' <= c <= '9' || 'a' <= c <= 'f'
  }

  lemma HexDigitRoundTrip(c: char, d: char)
    requires ('0' <= c <= '9' || 'a' <= c <= 'f') && ('0' <= d <= '9' || 'a' <= d <= 'f')
    ensures HexValue(c) < 16 && HexValue(d) < 16 && !IsHexSpace(c)
    ensures HexDigit((16 * HexValue(c) + HexValue(d)) / 16) == c
    ensures HexDigit((16 * HexValue(c) + HexValue(d)) % 16) == d
  {
    var h, l := HexValue(c), HexValue(d);
    assert (16 * h + l) / 16 == h && (16 * h + l) % 16 == l;
  }

  lemma {:induction false} HexRoundTrip(s: string)
    requires IsLowerHex(s)
    ensures FromHex(s).Some? && 2 * |FromHex(s).value| == |s|
    ensures ToHex(FromHex(s).value) == s
    decreases |s|
  {
    hide HexValue, HexDigit, IsHexSpace;
    if s != "" {
      var c, d, rest := s[0], s[1], s[2..];
      assert c in s && d in s;
      HexDigitRoundTrip(c, d);
      assert IsLowerHex(rest) by {
        assert forall e :: e in rest ==> e in s;
      }
      HexRoundTrip(rest);
      var b: Byte := 16 * HexValue(c) + HexValue(d);
      assert FromHex(s).value == [b] + FromHex(rest).value;
      assert ToHex([b] + FromHex(rest).value) == [c, d] + rest;
    }
  }

  // ----- the library functions the program calls

  /** base64 and the first four bytes of SHA-256 of the key's text. */
  datatype Library = Library(
    encode: Bytes -> string,
    decode: string -> Option<Bytes>,
    fingerprint: string -> Bytes)
  {
    /** Decoding undoes encoding, and a fingerprint has four bytes. */
    ghost predicate Ideal() {
      && (forall b: Bytes :: decode(encode(b)) == Some(b))
      && (forall k: string :: |fingerprint(k)| == 4)
    }
  }

  const PREFIX := "REFINET-SHARE-"

  // ----- arithmetic loops

  /** _eval_polynomial: Horner's rule from the last coefficient. */
  method EvalPolynomial(t: Tables, coeffs: Coeffs, x: Byte) returns (result: Byte)
    requires t.Valid()
    ensures result == Eval(coeffs, x)
  {
    result := 0;
    var i := |coeffs|;
    while i > 0
      invariant 0 <= i <= |coeffs|
      invariant result == Eval(coeffs[i..], x)
    {
      i := i - 1;
      assert coeffs[i..][1..] == coeffs[i + 1..];
      result := XorByte(t.GfMul(result, x), coeffs[i]);
    }
    assert coeffs[0..] == coeffs;
  }

  /** The inner loop of _lagrange_interpolate; None where the program divides by zero. */
  method LagrangeTerm(t: Tables, points: seq<Point>, i: nat, x: Byte) returns (r: Option<Byte>)
    requires t.Valid() && i < |points|
    ensures r.Some? ==> r.value == Term(points, i, x, |points|)
    ensures r.Some? <==> forall j :: 0 <= j < |points| && j != i ==> points[i].x != points[j].x
  {
    hide Mul, XorByte, Quotient;
    var num := points[i].y;
    for j := 0 to |points|
      invariant num == Term(points, i, x, j)
      invariant forall l :: 0 <= l < j && i != l ==> points[i].x != points[l].x
    {
      if i != j {
        var gap := XorByte(points[i].x, points[j].x);
        XorZeroOnlyIfEqual(points[i].x, points[j].x);
        var factor := t.GfDiv(XorByte(x, points[j].x), gap);
        if factor.None? {
          return None;
        }
        num := t.GfMul(num, factor.value);
      }
    }
    return Some(num);
  }

  /** _lagrange_interpolate. */
  method LagrangeInterpolate(t: Tables, points: seq<Point>, x: Byte) returns (r: Option<Byte>)
    requires t.Valid()
    ensures Distinct(Xs(points)) ==> r == Some(Lagrange(points, x, |points|))
    ensures !Distinct(Xs(points)) ==> r.None?
  {
    hide Mul, XorByte, Term;
    var result: Byte := 0;
    for i := 0 to |points|
      invariant result == Lagrange(points, x, i)
      invariant forall k, l :: 0 <= k < i && 0 <= l < |points| && k != l ==> Xs(points)[k] != Xs(points)[l]
    {
      var num := LagrangeTerm(t, points, i, x);
      if num.None? {
        var j :| 0 <= j < |points| && j != i && points[i].x == points[j].x;
        assert Xs(points)[i] == Xs(points)[j];
        return None;
      }
      result := XorByte(result, num.value);
    }
    return Some(result);
  }

  // ----- splitting

  datatype Share = Share(x: Byte, threshold: Byte, fingerprint: Bytes, ys: Bytes)

  function ShareText(lib: Library, s: Share): string {
    PREFIX + lib.encode([s.x, s.threshold] + s.fingerprint + s.ys)
  }

  /** The polynomial hiding one secret byte; random gives its other coefficients. */
  function Hiding(secret: Byte, threshold: nat, random: nat -> Byte): (c: Coeffs)
    requires threshold >= 1
    ensures |c| == threshold && c[0] == secret
  {
    [secret] + seq(threshold - 1, j requires 0 <= j => random(j))
  }

  /** Share i (counting from 0) of a secret: every byte's polynomial at i + 1. */
  function ShareOf(secret: Bytes, threshold: nat, random: (nat, nat) -> Byte, fingerprint: Bytes, i: nat): (s: Share)
    requires 1 <= threshold < 256 && i < 255
    ensures |s.ys| == |secret|
  {
    Share(i + 1, threshold, fingerprint,
          seq(|secret|, b requires 0 <= b < |secret| => Eval(Hiding(secret[b], threshold, j => random(b, j)), i + 1)))
  }

  /** What split_key raises, or None. */
  function SplitError(key: string, threshold: int, numShares: int): Option<Error> {
    if threshold < 2 then Some(ThresholdTooSmall)
    else if numShares < threshold then Some(FewerSharesThanThreshold)
    else if numShares > 255 then Some(TooManyShares)
    else if FromHex(key) == None then Some(NotHex)
    else if FromHex(key) == Some([]) then Some(EmptyKey)
    else None
  }

  /** The points of one secret byte, one for each share. */
  predicate Columns(points: seq<Point>, secret: Byte, threshold: nat, numShares: nat, random: nat -> Byte)
    requires threshold >= 1 && numShares <= 255
  {
    && |points| == numShares
    && forall i :: 0 <= i < numShares ==> points[i] == Point(i + 1, Eval(Hiding(secret, threshold, random), i + 1))
  }

  /** _split_byte. */
  method SplitByte(t: Tables, secret: Byte, threshold: nat, numShares: nat, random: nat -> Byte)
    returns (points: seq<Point>)
    requires t.Valid() && threshold >= 1 && numShares <= 255
    ensures Columns(points, secret, threshold, numShares, random)
  {
    var coeffs := Hiding(secret, threshold, random);
    points := [];
    for i := 0 to numShares
      invariant |points| == i
      invariant forall k :: 0 <= k < i ==> points[k] == Point(k + 1, Eval(coeffs, k + 1))
    {
      var y := EvalPolynomial(t, coeffs, i + 1);
      points := points + [Point(i + 1, y)];
    }
  }

  function SecretBytes(key: string): Bytes {
    match FromHex(key)
    case None => []
    case Some(secret) => secret
  }

  /** The texts of all the shares of a key. */
  function SplitShares(
      lib: Library, key: string, threshold: int, numShares: int, random: (nat, nat) -> Byte): (texts: seq<string>)
    requires 2 <= threshold <= numShares <= 255
    ensures |texts| == numShares
  {
    seq(numShares, i requires 0 <= i < numShares =>
      ShareText(lib, ShareOf(SecretBytes(key), threshold, random, lib.fingerprint(key), i)))
  }

  /** split_key: all the shares' texts, or the first error. */
  method SplitKey(t: Tables, lib: Library, key: string, threshold: int, numShares: int, random: (nat, nat) -> Byte)
    returns (r: Result<seq<string>, Error>)
    requires t.Valid()
    ensures match SplitError(key, threshold, numShares)
      case Some(e) => r == Err(e)
      case None => r == Ok(SplitShares(lib, key, threshold, numShares, random))
  {
    hide Eval, Hiding, FromHex, ShareText;
    if threshold < 2 {
      return Err(ThresholdTooSmall);
    }
    if numShares < threshold {
      return Err(FewerSharesThanThreshold);
    }
    if numShares > 255 {
      return Err(TooManyShares);
    }
    var secretBytes := FromHex(key);
    if secretBytes.None? {
      return Err(NotHex);
    }
    var secret := secretBytes.value;
    if |secret| == 0 {
      return Err(EmptyKey);
    }
    var fingerprint := lib.fingerprint(key);
    var allShares: seq<seq<Point>> := [];
    for b := 0 to |secret|
      invariant |allShares| == b
      invariant forall k :: 0 <= k < b ==> Columns(allShares[k], secret[k], threshold, numShares, j => random(k, j))
    {
      var points := SplitByte(t, secret[b], threshold, numShares, j => random(b, j));
      allShares := allShares + [points];
    }
    var result: seq<string> := [];
    for i := 0 to numShares
      invariant |result| == i
      invariant result == SplitShares(lib, key, threshold, numShares, random)[..i]
    {
      assert Columns(allShares[0], secret[0], threshold, numShares, j => random(0, j));
      var x := allShares[0][i].x;
      var ys := seq(|secret|, b requires 0 <= b < |secret| => allShares[b][i].y);
      assert ys == ShareOf(secret, threshold, random, fingerprint, i).ys;
      result := result + [ShareText(lib, Share(x, threshold, fingerprint, ys))];
    }
    var texts := SplitShares(lib, key, threshold, numShares, random);
    assert texts[..numShares] == texts;
    return Ok(result);
  }

  // ----- recovering

  /** One share's text, taken apart. */
  function ParseShare(lib: Library, text: string): Result<Share, Error> {
    if !(PREFIX <= text) then Err(MissingPrefix)
    else
      match lib.decode(text[|PREFIX|..])
      case None => Err(NotBase64)
      case Some(raw) =>
        if |raw| < 7 then Err(TooShort)
        else Ok(Share(raw[0], raw[1], raw[2..6], raw[6..]))
  }

  /** All shares parsed, or the error of the first that does not parse. */
  function ParseAll(lib: Library, texts: seq<string>): (r: Result<seq<Share>, Error>)
    ensures r.Ok? ==> |r.value| == |texts|
  {
    if texts == [] then Ok([])
    else
      match ParseAll(lib, texts[..|texts| - 1])
      case Err(e) => Err(e)
      case Ok(parsed) =>
        match ParseShare(lib, texts[|texts| - 1])
        case Err(e) => Err(e)
        case Ok(s) => Ok(parsed + [s])
  }

  /** Why s cannot belong together with the first share. */
  function Mismatch(s: Share, first: Share): Option<Error> {
    if s.threshold != first.threshold then Some(MismatchedThresholds)
    else if s.fingerprint != first.fingerprint then Some(MismatchedFingerprints)
    else if |s.ys| != |first.ys| then Some(MismatchedLengths)
    else None
  }

  function FirstMismatch(parsed: seq<Share>, first: Share): (r: Option<Error>)
    ensures r.None? <==> forall i :: 0 <= i < |parsed| ==> Mismatch(parsed[i], first).None?
  {
    if parsed == [] then None
    else if Mismatch(parsed[0], first).Some? then Mismatch(parsed[0], first)
    else FirstMismatch(parsed[1..], first)
  }

  function Coordinates(parsed: seq<Share>): (xs: seq<Byte>)
    ensures |xs| == |parsed|
  {
    seq(|parsed|, i requires 0 <= i < |parsed| => parsed[i].x)
  }

  /** What recover_key raises after parsing, or None. */
  function RecoverError(parsed: seq<Share>): Option<Error>
    requires parsed != []
  {
    if |parsed| < parsed[0].threshold then Some(NotEnoughShares)
    else if FirstMismatch(parsed, parsed[0]).Some? then FirstMismatch(parsed, parsed[0])
    else if !Distinct(Coordinates(parsed)) then Some(DuplicateShares)
    else None
  }

  /** The points that the first threshold shares give for one byte of the key. */
  function PointsFor(parsed: seq<Share>, threshold: nat, b: nat): (ps: seq<Point>)
    requires threshold <= |parsed|
    requires forall i :: 0 <= i < |parsed| ==> b < |parsed[i].ys|
    ensures |ps| == threshold
  {
    seq(threshold, i requires 0 <= i < threshold => Point(parsed[i].x, parsed[i].ys[b]))
  }

  lemma {:induction false} ParseAllFails(lib: Library, texts: seq<string>, n: nat)
    requires n <= |texts| && ParseAll(lib, texts[..n]).Err?
    ensures ParseAll(lib, texts) == ParseAll(lib, texts[..n])
    decreases |texts|
  {
    if n < |texts| {
      assert texts[..|texts| - 1][..n] == texts[..n];
      ParseAllFails(lib, texts[..|texts| - 1], n);
    } else {
      assert texts[..n] == texts;
    }
  }

  lemma PointsDistinct(parsed: seq<Share>, threshold: nat, b: nat)
    requires threshold <= |parsed| && Distinct(Coordinates(parsed))
    requires forall i :: 0 <= i < |parsed| ==> b < |parsed[i].ys|
    ensures Distinct(Xs(PointsFor(parsed, threshold, b)))
  {
    var xs, ys := Xs(PointsFor(parsed, threshold, b)), Coordinates(parsed);
    assert forall i :: 0 <= i < threshold ==> xs[i] == ys[i];
  }

  lemma SameLengths(parsed: seq<Share>)
    requires parsed != [] && RecoverError(parsed).None?
    ensures parsed[0].threshold <= |parsed|
    ensures forall i :: 0 <= i < |parsed| ==> |parsed[i].ys| == |parsed[0].ys|
    ensures forall i :: 0 <= i < |parsed| ==> Mismatch(parsed[i], parsed[0]).None?
    ensures Distinct(Coordinates(parsed))
  {
    forall i | 0 <= i < |parsed|
      ensures |parsed[i].ys| == |parsed[0].ys| && Mismatch(parsed[i], parsed[0]).None?
    {
      assert Mismatch(parsed[i], parsed[0]).None?;
    }
  }

  /** The recovered bytes: the interpolants' values at zero. */
  ghost function RecoveredBytes(parsed: seq<Share>): Bytes
    requires parsed != [] && RecoverError(parsed).None?
  {
    SameLengths(parsed);
    var threshold := parsed[0].threshold;
    seq(|parsed[0].ys|, b requires 0 <= b < |parsed[0].ys| =>
      Lagrange(PointsFor(parsed, threshold, b), 0, threshold))
  }

  /** The first loop of recover_key. */
  method ParseShares(lib: Library, shares: seq<string>) returns (r: Result<seq<Share>, Error>)
    ensures r == ParseAll(lib, shares)
  {
    var parsed: seq<Share> := [];
    for i := 0 to |shares|
      invariant ParseAll(lib, shares[..i]) == Ok(parsed)
    {
      assert shares[..i + 1][..i] == shares[..i];
      var s := ParseShare(lib, shares[i]);
      if s.Err? {
        ParseAllFails(lib, shares, i + 1);
        return Err(s.error);
      }
      parsed := parsed + [s.value];
    }
    assert shares[..|shares|] == shares;
    return Ok(parsed);
  }

  /** The consistency tests of recover_key. */
  method CheckShares(parsed: seq<Share>) returns (e: Option<Error>)
    requires parsed != []
    ensures e == RecoverError(parsed)
  {
    hide Distinct, Mismatch;
    var first := parsed[0];
    if |parsed| < first.threshold {
      return Some(NotEnoughShares);
    }
    for i := 0 to |parsed|
      invariant FirstMismatch(parsed, first) == FirstMismatch(parsed[i..], first)
    {
      if Mismatch(parsed[i], first).Some? {
        return Mismatch(parsed[i], first);
      }
      assert parsed[i..][1..] == parsed[i + 1..];
    }
    var xs := Coordinates(parsed);
    DistinctByCount(xs);
    if |Elements(xs)| != |xs| {
      return Some(DuplicateShares);
    }
    return None;
  }

  /** The last loop of recover_key. */
  method InterpolateBytes(t: Tables, parsed: seq<Share>) returns (recovered: Bytes)
    requires t.Valid() && parsed != [] && RecoverError(parsed).None?
    ensures recovered == RecoveredBytes(parsed)
  {
    hide Lagrange, Distinct, RecoverError;
    SameLengths(parsed);
    var threshold := parsed[0].threshold;
    recovered := [];
    for b := 0 to |parsed[0].ys|
      invariant |recovered| == b
      invariant forall k :: 0 <= k < b ==> recovered[k] == Lagrange(PointsFor(parsed, threshold, k), 0, threshold)
    {
      var points := PointsFor(parsed, threshold, b);
      PointsDistinct(parsed, threshold, b);
      var byte := LagrangeInterpolate(t, points, 0);
      recovered := recovered + [byte.value];
    }
  }

  /** recover_key. */
  method RecoverKey(t: Tables, lib: Library, shares: seq<string>) returns (r: Result<string, Error>)
    requires t.Valid()
    ensures r == Recovered(lib, shares)
  {
    hide RecoverError, ParseAll, RecoveredBytes, ToHex;
    if shares == [] {
      return Err(NoShares);
    }
    var parsed := ParseShares(lib, shares);
    if parsed.Err? {
      return Err(parsed.error);
    }
    var error := CheckShares(parsed.value);
    if error.Some? {
      return Err(error.value);
    }
    var recovered := InterpolateBytes(t, parsed.value);
    return Ok(ToHex(recovered));
  }

  /** The outcome of recover_key. */
  ghost function Recovered(lib: Library, shares: seq<string>): Result<string, Error> {
    if shares == [] then Err(NoShares)
    else
      match ParseAll(lib, shares)
      case Err(e) => Err(e)
      case Ok(parsed) =>
        match RecoverError(parsed)
        case Some(e) => Err(e)
        case None => Ok(ToHex(RecoveredBytes(parsed)))
  }

  // ----- any threshold shares of one split recover the key

  lemma ParseShareText(lib: Library, s: Share)
    requires lib.Ideal() && |s.fingerprint| == 4 && s.ys != []
    ensures ParseShare(lib, ShareText(lib, s)) == Ok(s)
  {
    var raw: Bytes := [s.x, s.threshold] + s.fingerprint + s.ys;
    var text := ShareText(lib, s);
    assert text[|PREFIX|..] == lib.encode(raw);
    assert lib.decode(lib.encode(raw)) == Some(raw);
    assert raw[2..6] == s.fingerprint && raw[6..] == s.ys;
  }

  lemma {:induction false} ParseAllTexts(lib: Library, texts: seq<string>, shares: seq<Share>)
    requires lib.Ideal() && |texts| == |shares|
    requires forall i :: 0 <= i < |texts| ==>
      texts[i] == ShareText(lib, shares[i]) && |shares[i].fingerprint| == 4 && shares[i].ys != []
    ensures ParseAll(lib, texts) == Ok(shares)
  {
    if texts != [] {
      var n := |texts| - 1;
      ParseAllTexts(lib, texts[..n], shares[..n]);
      ParseShareText(lib, shares[n]);
      assert shares == shares[..n] + [shares[n]];
    }
  }

  predicate Below(picks: seq<nat>, n: int) {
    forall i :: 0 <= i < |picks| ==> picks[i] < n
  }

  function Select<T>(all: seq<T>, picks: seq<nat>): (s: seq<T>)
    requires Below(picks, |all|)
    ensures |s| == |picks|
    ensures forall i :: 0 <= i < |picks| ==> s[i] == all[picks[i]]
  {
    if picks == [] then [] else [all[picks[0]]] + Select(all, picks[1..])
  }

  /** The shares numbered by picks; pick i is the share with x coordinate i + 1. */
  function Picked(
      secret: Bytes, threshold: nat, random: (nat, nat) -> Byte, fingerprint: Bytes, picks: seq<nat>): (s: seq<Share>)
    requires 1 <= threshold < 256 && Below(picks, 255)
    ensures |s| == |picks|
    ensures forall i :: 0 <= i < |s| ==> s[i] == ShareOf(secret, threshold, random, fingerprint, picks[i])
  {
    if picks == [] then []
    else [ShareOf(secret, threshold, random, fingerprint, picks[0])]
         + Picked(secret, threshold, random, fingerprint, picks[1..])
  }

  lemma PickedErrors(secret: Bytes, threshold: nat, random: (nat, nat) -> Byte, fingerprint: Bytes, picks: seq<nat>)
    requires 1 <= threshold < 256 && picks != [] && Below(picks, 255)
    ensures RecoverError(Picked(secret, threshold, random, fingerprint, picks)) ==
            if |picks| < threshold then Some(NotEnoughShares)
            else if !Distinct(picks) then Some(DuplicateShares)
            else None
  {
    hide Eval, Hiding, Picked;
    var s := Picked(secret, threshold, random, fingerprint, picks);
    forall i | 0 <= i < |s|
      ensures Mismatch(s[i], s[0]).None?
    {
    }
    var xs := Coordinates(s);
    if Distinct(picks) {
      assert Distinct(xs);
    } else {
      var i, j :| 0 <= i < j < |picks| && picks[i] == picks[j];
      assert xs[i] == xs[j];
    }
  }

  /** One byte of the key from the first threshold shares. */
  lemma PickedRecoverByte(
      secret: Bytes, threshold: nat,
      random: (nat, nat) -> Byte, fingerprint: Bytes, s: seq<Share>, picks: seq<nat>, b: nat)
    requires 1 <= threshold < 256 && threshold <= |picks| == |s|
    requires forall i :: 0 <= i < |s| ==>
      picks[i] < 255 && s[i] == ShareOf(secret, threshold, random, fingerprint, picks[i])
    requires forall i :: 0 <= i < |s| ==> |s[i].ys| == |secret|
    requires b < |secret| && Distinct(Coordinates(s))
    ensures Lagrange(PointsFor(s, threshold, b), 0, threshold) == secret[b]
  {
    hide Eval, Lagrange, Distinct;
    var c := Hiding(secret[b], threshold, j => random(b, j));
    var points := PointsFor(s, threshold, b);
    PointsDistinct(s, threshold, b);
    forall i | 0 <= i < |points|
      ensures points[i].y == Eval(c, points[i].x)
    {
      assert s[i].ys[b] == Eval(c, picks[i] + 1);
    }
    InterpolationRecovers(c, points, 0);
    EvalAtZero(c);
  }

  lemma PickedRecoverSecret(
      secret: Bytes, threshold: nat, random: (nat, nat) -> Byte, fingerprint: Bytes, picks: seq<nat>)
    requires 1 <= threshold < 256 && Below(picks, 255)
    requires |picks| > 0 && RecoverError(Picked(secret, threshold, random, fingerprint, picks)) == None
    ensures RecoveredBytes(Picked(secret, threshold, random, fingerprint, picks)) == secret
  {
    hide Eval, Lagrange, RecoverError, Picked;
    var s := Picked(secret, threshold, random, fingerprint, picks);
    SameLengths(s);
    forall b | 0 <= b < |secret|
      ensures Lagrange(PointsFor(s, threshold, b), 0, threshold) == secret[b]
    {
      PickedRecoverByte(secret, threshold, random, fingerprint, s, picks, b);
    }
  }

  lemma {:induction false} PrintedIsLower(b: Bytes)
    ensures IsLowerHex(ToHex(b))
  {
    if b != [] {
      PrintedIsLower(b[1..]);
    }
  }

  /** The bytes of a text are printed as that text exactly when it is lower-case hexadecimal. */
  lemma ReadBackIff(key: string)
    requires FromHex(key).Some?
    ensures ToHex(FromHex(key).value) == key <==> IsLowerHex(key)
  {
    hide FromHex, ToHex, IsLowerHex;
    PrintedIsLower(FromHex(key).value);
    if IsLowerHex(key) {
      HexRoundTrip(key);
    }
  }

  lemma LowerHexSplits(key: string, threshold: int, numShares: int)
    requires IsLowerHex(key) && key != "" && 2 <= threshold <= numShares <= 255
    ensures SplitError(key, threshold, numShares) == None
  {
    HexRoundTrip(key);
  }

  /**
   What recover_key makes of any selection of the shares of one split: the key
   when the selection has threshold shares or more and repeats none.
   */
  lemma RecoverFromSplit(
      lib: Library, key: string, threshold: int, numShares: int, random: (nat, nat) -> Byte, picks: seq<nat>)
    requires lib.Ideal() && SplitError(key, threshold, numShares) == None
    requires picks != [] && Below(picks, numShares)
    ensures Recovered(lib, Select(SplitShares(lib, key, threshold, numShares, random), picks)) ==
            if |picks| < threshold then Err(NotEnoughShares)
            else if !Distinct(picks) then Err(DuplicateShares)
            else Ok(ToHex(SecretBytes(key)))
  {
    hide Eval, Hiding, Lagrange, RecoverError, RecoveredBytes, ShareText, Distinct, ToHex, Select, Picked,
         ParseAll;
    var secret, fingerprint := SecretBytes(key), lib.fingerprint(key);
    var texts := Select(SplitShares(lib, key, threshold, numShares, random), picks);
    var shares := Picked(secret, threshold, random, fingerprint, picks);
    ParseAllTexts(lib, texts, shares);
    PickedErrors(secret, threshold, random, fingerprint, picks);
    if threshold <= |picks| && Distinct(picks) {
      PickedRecoverSecret(secret, threshold, random, fingerprint, picks);
    }
  }

  /** The numbers of the shares in a selection. */
  lemma Locate(texts: seq<string>, selection: seq<string>) returns (picks: seq<nat>)
    requires forall s :: s in selection ==> s in texts
    ensures |picks| == |selection| && Below(picks, |texts|)
    ensures forall i :: 0 <= i < |picks| ==> texts[picks[i]] == selection[i]
  {
    picks := [];
    for i := 0 to |selection|
      invariant |picks| == i && Below(picks, |texts|)
      invariant forall j :: 0 <= j < i ==> texts[picks[j]] == selection[j]
    {
      assert selection[i] in texts;
      var p :| 0 <= p < |texts| && texts[p] == selection[i];
      picks := picks + [p];
    }
  }

  /**
   Any threshold different shares of a split, in any order, recover the key's
   bytes, and so the key itself exactly when it is lower-case hexadecimal text.
   */
  lemma RecoverUndoesSplit(
      lib: Library, key: string, threshold: int, numShares: int,
      random: (nat, nat) -> Byte, selection: seq<string>)
    requires lib.Ideal() && SplitError(key, threshold, numShares) == None
    requires forall s :: s in selection ==> s in SplitShares(lib, key, threshold, numShares, random)
    requires |selection| >= threshold && Distinct(selection)
    ensures Recovered(lib, selection) == Ok(ToHex(SecretBytes(key)))
    ensures Recovered(lib, selection) == Ok(key) <==> IsLowerHex(key)
  {
    hide Recovered, IsLowerHex, SplitShares, Select, FromHex, ToHex;
    ReadBackIff(key);
    var texts := SplitShares(lib, key, threshold, numShares, random);
    var picks := Locate(texts, selection);
    RecoverFromSplit(lib, key, threshold, numShares, random, picks);
    assert selection == Select(texts, picks);
  }
}
