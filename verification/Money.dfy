/** Amounts in base units: folding them by asset and printing them as decimals (db/money.py). */
module Money {
  import opened Wrappers
  import opened JsonText

  /** A row's amount: its column is missing, null, text or an integer. */
  datatype Amount = Missing | Null | Text(text: string) | Units(units: int)

  datatype Row = Row(chainId: Option<int>, address: Option<string>, decimals: Option<int>, amount: Amount)

  /** What asset_key makes of a row. */
  datatype Asset = Asset(chainId: Option<int>, address: string, decimals: Option<int>)

  /** The library calls: int() of a text, and str.lower. */
  datatype Texts = Texts(readInt: string -> Option<int>, lower: string -> string)

  datatype Reading = Skipped | Unreadable | Value(units: int)

  /** to_units of the amount, with what becomes of a row without one. */
  function Read(t: Texts, a: Amount): Reading {
    match a
    case Missing => Skipped
    case Null => Value(0)
    case Units(n) => Value(n)
    case Text(s) => if s == "" then Value(0) else match t.readInt(s) case None => Unreadable case Some(n) => Value(n)
  }

  function AssetKey(t: Texts, row: Row): Asset {
    Asset(row.chainId, t.lower(row.address.GetOr("")), row.decimals)
  }

  predicate Readable(t: Texts, rows: seq<Row>) {
    forall i :: 0 <= i < |rows| ==> !Read(t, rows[i].amount).Unreadable?
  }

  /** What a row adds to a total. */
  function Worth(t: Texts, row: Row): int {
    match Read(t, row.amount)
    case Value(n) => n
    case _ => 0
  }

  function Total(t: Texts, rows: seq<Row>): int {
    if rows == [] then 0 else Total(t, rows[..|rows| - 1]) + Worth(t, rows[|rows| - 1])
  }

  function Add(totals: map<Asset, int>, key: Asset, units: int): map<Asset, int> {
    totals[key := (if key in totals then totals[key] else 0) + units]
  }

  function Totals(t: Texts, rows: seq<Row>): map<Asset, int> {
    if rows == [] then map[]
    else
      var before, last := Totals(t, rows[..|rows| - 1]), rows[|rows| - 1];
      if Read(t, last.amount).Value? then Add(before, AssetKey(t, last), Worth(t, last)) else before
  }

  /** fold_units; None where an amount does not parse. */
  method FoldUnits(t: Texts, rows: seq<Row>) returns (total: Option<int>)
    ensures total == if Readable(t, rows) then Some(Total(t, rows)) else None
  {
    var sum := 0;
    for i := 0 to |rows|
      invariant Readable(t, rows[..i]) && sum == Total(t, rows[..i])
    {
      assert rows[..i + 1][..i] == rows[..i];
      match Read(t, rows[i].amount)
      case Skipped =>
      case Unreadable => return None;
      case Value(n) => sum := sum + n;
    }
    assert rows[..|rows|] == rows;
    total := Some(sum);
  }

  /** fold_by_asset; None where an amount does not parse. */
  method FoldByAsset(t: Texts, rows: seq<Row>) returns (totals: Option<map<Asset, int>>)
    ensures totals == if Readable(t, rows) then Some(Totals(t, rows)) else None
  {
    var sums: map<Asset, int> := map[];
    for i := 0 to |rows|
      invariant Readable(t, rows[..i]) && sums == Totals(t, rows[..i])
    {
      assert rows[..i + 1][..i] == rows[..i];
      match Read(t, rows[i].amount)
      case Skipped =>
      case Unreadable => return None;
      case Value(n) =>
        var key := AssetKey(t, rows[i]);
        sums := sums[key := (if key in sums then sums[key] else 0) + n];
    }
    assert rows[..|rows|] == rows;
    totals := Some(sums);
  }

  // ----- one asset's rows

  function RowsOf(t: Texts, rows: seq<Row>, key: Asset): seq<Row> {
    if rows == [] then []
    else
      var last := rows[|rows| - 1];
      RowsOf(t, rows[..|rows| - 1], key) + (if AssetKey(t, last) == key then [last] else [])
  }

  /** Whether some row of the asset has an amount. */
  predicate HasAsset(t: Texts, rows: seq<Row>, key: Asset) {
    exists i :: 0 <= i < |rows| && AssetKey(t, rows[i]) == key && Read(t, rows[i].amount).Value?
  }

  lemma TotalAppended(t: Texts, rows: seq<Row>, row: Row)
    ensures Total(t, rows + [row]) == Total(t, rows) + Worth(t, row)
  {
    assert (rows + [row])[..|rows|] == rows;
  }

  lemma HasAssetNext(t: Texts, rows: seq<Row>, key: Asset)
    requires rows != []
    ensures var last := rows[|rows| - 1];
      HasAsset(t, rows, key) <==>
        HasAsset(t, rows[..|rows| - 1], key) || (AssetKey(t, last) == key && Read(t, last.amount).Value?)
  {
    var init := rows[..|rows| - 1];
    if HasAsset(t, init, key) {
      var i :| 0 <= i < |init| && AssetKey(t, init[i]) == key && Read(t, init[i].amount).Value?;
      assert rows[i] == init[i];
    }
    if HasAsset(t, rows, key) {
      var i :| 0 <= i < |rows| && AssetKey(t, rows[i]) == key && Read(t, rows[i].amount).Value?;
      assert i < |init| ==> init[i] == rows[i];
    }
  }

  /** Each asset has a total exactly when it has an amount, and the total is the fold of its own rows. */
  lemma {:induction false} TotalsArePerAsset(t: Texts, rows: seq<Row>, key: Asset)
    ensures key in Totals(t, rows) <==> HasAsset(t, rows, key)
    ensures (if key in Totals(t, rows) then Totals(t, rows)[key] else 0) == Total(t, RowsOf(t, rows, key))
  {
    hide AssetKey, HasAsset, Read;
    if rows == [] {
      NoAsset(t, key);
    } else {
      var init, last := rows[..|rows| - 1], rows[|rows| - 1];
      TotalsArePerAsset(t, init, key);
      HasAssetNext(t, rows, key);
      TotalAppended(t, RowsOf(t, init, key), last);
      assert RowsOf(t, init, key) + [] == RowsOf(t, init, key);
    }
  }

  lemma NoAsset(t: Texts, key: Asset)
    ensures !HasAsset(t, [], key)
  {
  }

  // ----- the totals add up

  ghost function Sum(totals: map<Asset, int>): int {
    if totals == map[] then 0
    else
      var key :| key in totals;
      totals[key] + Sum(totals - {key})
  }

  lemma {:induction false} SumWithout(totals: map<Asset, int>, key: Asset)
    requires key in totals
    ensures Sum(totals) == totals[key] + Sum(totals - {key})
    decreases |totals|
  {
    var first :| first in totals && Sum(totals) == totals[first] + Sum(totals - {first});
    if first != key {
      SumWithout(totals - {first}, key);
      SumWithout(totals - {key}, first);
      assert totals - {first} - {key} == totals - {key} - {first};
    }
  }

  lemma SumAdd(totals: map<Asset, int>, key: Asset, units: int)
    ensures Sum(Add(totals, key, units)) == Sum(totals) + units
  {
    var after := Add(totals, key, units);
    SumWithout(after, key);
    assert after - {key} == totals - {key};
    if key in totals {
      SumWithout(totals, key);
    } else {
      assert totals - {key} == totals;
    }
  }

  /** The totals per asset add up to the total of all rows. */
  lemma {:induction false} TotalsAddUp(t: Texts, rows: seq<Row>)
    ensures Sum(Totals(t, rows)) == Total(t, rows)
  {
    hide AssetKey, Add, Sum, Read;
    if rows == [] {
      SumNone();
    } else {
      var init, last := rows[..|rows| - 1], rows[|rows| - 1];
      TotalsAddUp(t, init);
      SumAdd(Totals(t, init), AssetKey(t, last), Worth(t, last));
    }
  }

  lemma SumNone()
    ensures Sum(map[]) == 0
  {
  }

  // ----- in any order

  lemma {:induction false} TotalWithout(t: Texts, rows: seq<Row>, i: nat)
    requires i < |rows|
    ensures Total(t, rows) == Total(t, rows[..i] + rows[i + 1..]) + Worth(t, rows[i])
  {
    var n := |rows| - 1;
    if i < n {
      TotalWithout(t, rows[..n], i);
      assert rows[..n][..i] + rows[..n][i + 1..] == rows[..i] + rows[i + 1..n];
      assert rows[..i] + rows[i + 1..] == rows[..i] + rows[i + 1..n] + [rows[n]];
      TotalAppended(t, rows[..i] + rows[i + 1..n], rows[n]);
    } else {
      assert rows[..i] + rows[i + 1..] == rows[..i];
    }
  }

  /** The total does not depend on the order of the rows. */
  lemma {:induction false} TotalInAnyOrder(t: Texts, rows: seq<Row>, others: seq<Row>)
    requires multiset(rows) == multiset(others)
    ensures Total(t, rows) == Total(t, others)
    decreases |rows|
  {
    hide Worth;
    assert |rows| == |multiset(rows)| == |multiset(others)| == |others|;
    if rows != [] {
      var n := |rows| - 1;
      assert rows[n] in multiset(others);
      var i :| 0 <= i < |others| && others[i] == rows[n];
      TotalWithout(t, others, i);
      assert rows == rows[..n] + [rows[n]];
      assert others == others[..i] + [others[i]] + others[i + 1..];
      assert multiset(others[..i] + others[i + 1..]) == multiset(others) - multiset{others[i]};
      TotalInAnyOrder(t, rows[..n], others[..i] + others[i + 1..]);
    }
  }

  lemma {:induction false} RowsOfCount(t: Texts, rows: seq<Row>, key: Asset, row: Row)
    ensures multiset(RowsOf(t, rows, key))[row] == if AssetKey(t, row) == key then multiset(rows)[row] else 0
  {
    hide AssetKey;
    if rows != [] {
      var n := |rows| - 1;
      RowsOfCount(t, rows[..n], key, row);
      assert rows == rows[..n] + [rows[n]];
    }
  }

  /** Nor does one asset's total. */
  lemma AssetInAnyOrder(t: Texts, rows: seq<Row>, others: seq<Row>, key: Asset)
    requires multiset(rows) == multiset(others)
    ensures Total(t, RowsOf(t, rows, key)) == Total(t, RowsOf(t, others, key))
    ensures HasAsset(t, rows, key) ==> HasAsset(t, others, key)
  {
    hide AssetKey, Read;
    forall row
      ensures multiset(RowsOf(t, rows, key))[row] == multiset(RowsOf(t, others, key))[row]
    {
      RowsOfCount(t, rows, key, row);
      RowsOfCount(t, others, key, row);
    }
    TotalInAnyOrder(t, RowsOf(t, rows, key), RowsOf(t, others, key));
    if HasAsset(t, rows, key) {
      var i :| 0 <= i < |rows| && AssetKey(t, rows[i]) == key && Read(t, rows[i].amount).Value?;
      assert rows[i] in multiset(others);
      var j :| 0 <= j < |others| && others[j] == rows[i];
    }
  }

  /** Nor do the totals per asset. */
  lemma TotalsInAnyOrder(t: Texts, rows: seq<Row>, others: seq<Row>)
    requires multiset(rows) == multiset(others)
    ensures Totals(t, rows) == Totals(t, others)
  {
    hide Totals, RowsOf, HasAsset, Total;
    forall key
      ensures key in Totals(t, rows) <==> key in Totals(t, others)
      ensures key in Totals(t, rows) ==> Totals(t, rows)[key] == Totals(t, others)[key]
    {
      TotalsArePerAsset(t, rows, key);
      TotalsArePerAsset(t, others, key);
      AssetInAnyOrder(t, rows, others, key);
      AssetInAnyOrder(t, others, rows, key);
    }
  }

  // ----- printing

  function Power10(k: nat): (p: nat)
    ensures p > 0
  {
    if k == 0 then 1 else 10 * Power10(k - 1)
  }

  predicate Digits(t: string) {
    forall c :: c in t ==> IsDigit(c)
  }

  /** t.rjust(width, "0"). */
  function PadZeros(t: string, width: nat): string
    decreases width - |t|
  {
    if |t| >= width then t else PadZeros("0" + t, width)
  }

  /** t.rstrip("0"). */
  function StripZeros(t: string): string {
    if t != "" && t[|t| - 1] == '0' then StripZeros(t[..|t| - 1]) else t
  }

  /** t[:n]. */
  function Cut(t: string, n: int): string {
    if n >= |t| then t else if n >= 0 then t[..n] else if |t| + n >= 0 then t[..|t| + n] else ""
  }

  function Decimal(whole: nat, fracText: string): string {
    if fracText != "" then PrintNat(whole) + "." + fracText else PrintNat(whole)
  }

  function FractionText(frac: nat, decimals: nat, precision: int): string {
    StripZeros(Cut(PadZeros(PrintNat(frac), decimals), precision))
  }

  /** divmod of natural numbers. */
  function DivMod(n: nat, unit: nat): (qr: (nat, nat))
    requires unit > 0
    ensures qr.0 == n / unit && qr.1 == n % unit && qr.1 < unit
  {
    (n / unit, n % unit)
  }

  /** format_units of an integer amount. */
  function FormatUnits(units: int, decimals: int, precision: int): string {
    if decimals <= 0 then PrintInt(units)
    else
      var sign := if units < 0 then "-" else "";
      var size: nat := if units < 0 then -units else units;
      var (whole, frac) := DivMod(size, Power10(decimals));
      sign + Decimal(whole, FractionText(frac, decimals, precision))
  }

  /** A decimal text of at most places fractional digits, read in units of 10 to the minus places. */
  function ReadDecimal(t: string, places: nat): Option<int> {
    if t != "" && t[0] == '-' then
      match ReadMagnitude(t[1..], places)
      case None => None
      case Some(n) => Some(-n)
    else ReadMagnitude(t, places)
  }

  function ReadMagnitude(t: string, places: nat): Option<int> {
    var whole := LeadingDigits(t);
    var rest := t[|whole|..];
    if whole == "" then None
    else if rest == "" then Some(NatValue(whole) * Power10(places))
    else if rest[0] != '.' then None
    else
      var frac := LeadingDigits(rest[1..]);
      if frac != rest[1..] || frac == "" || |frac| > places then None
      else Some(NatValue(whole) * Power10(places) + NatValue(frac) * Power10(places - |frac|))
  }

  // ----- what the digits say

  lemma NatValueAppended(t: string, c: char)
    requires Digits(t) && IsDigit(c)
    ensures Digits(t + [c]) && NatValue(t + [c]) == 10 * NatValue(t) + (c as int - '0' as int)
  {
    assert (t + [c])[..|t|] == t;
  }

  lemma {:induction false} ZeroInFront(t: string)
    requires Digits(t)
    ensures Digits("0" + t) && NatValue("0" + t) == NatValue(t)
  {
    if t == "" {
      assert "0" + t == "" + ['0'];
      NatValueAppended("", '0');
    } else {
      var init, c := t[..|t| - 1], t[|t| - 1];
      assert c in t && forall d :: d in init ==> d in t;
      ZeroInFront(init);
      assert "0" + t == ("0" + init) + [c];
      NatValueAppended("0" + init, c);
    }
  }

  lemma {:induction false} PadZerosValue(t: string, width: nat)
    requires Digits(t)
    ensures Digits(PadZeros(t, width)) && NatValue(PadZeros(t, width)) == NatValue(t)
    ensures |PadZeros(t, width)| == if |t| >= width then |t| else width
    decreases width - |t|
  {
    if |t| < width {
      ZeroInFront(t);
      PadZerosValue("0" + t, width);
    }
  }

  lemma {:induction false} StripZerosValue(t: string)
    requires Digits(t)
    ensures StripZeros(t) <= t && Digits(StripZeros(t))
    ensures NatValue(t) == NatValue(StripZeros(t)) * Power10(|t| - |StripZeros(t)|)
    decreases |t|
  {
    if t != "" && t[|t| - 1] == '0' {
      var init := t[..|t| - 1];
      assert forall d :: d in init ==> d in t;
      StripZerosValue(init);
      var k := |init| - |StripZeros(init)|;
      assert Power10(k + 1) == 10 * Power10(k);
      TimesTen(NatValue(StripZeros(init)), Power10(k));
    }
  }

  lemma TimesTen(a: int, b: int)
    ensures 10 * (a * b) == a * (10 * b)
  {
  }

  /** The first n digits are the value cut off at them. */
  lemma {:induction false} PrefixValue(t: string, n: nat)
    requires Digits(t) && n <= |t|
    ensures Digits(t[..n]) && NatValue(t[..n]) == NatValue(t) / Power10(|t| - n)
    decreases |t|
  {
    assert forall d :: d in t[..n] ==> d in t;
    if n < |t| {
      var init := t[..|t| - 1];
      assert forall d :: d in init ==> d in t;
      assert t[|t| - 1] in t;
      PrefixValue(init, n);
      assert init[..n] == t[..n];
      var k := |init| - n;
      assert Power10(k + 1) == 10 * Power10(k);
      DivTen(NatValue(init), t[|t| - 1] as int - '0' as int, Power10(k));
    } else {
      assert t[..n] == t;
    }
  }

  lemma DivTen(a: nat, d: nat, m: nat)
    requires d < 10 && m > 0
    ensures (10 * a + d) / (10 * m) == a / m
  {
    var q, r := a / m, a % m;
    assert a == q * m + r;
    assert 10 * a + d == q * (10 * m) + (10 * r + d) && 0 <= 10 * r + d < 10 * m;
    DivUnique(10 * a + d, 10 * m, q, 10 * r + d);
  }

  lemma DivUnique(n: nat, m: nat, q: nat, r: nat)
    requires m > 0 && n == q * m + r && r < m
    ensures n / m == q
  {
    var q', r' := n / m, n % m;
    assert n == q' * m + r' && 0 <= r' < m;
    TimesMonotone(q, q', m);
    TimesMonotone(q', q, m);
  }

  lemma TimesMonotone(a: nat, b: nat, m: nat)
    ensures a < b ==> a * m + m <= b * m
  {
    if a < b {
      assert b * m >= (a + 1) * m == a * m + m;
    }
  }

  lemma DivAdd(q: nat, m: nat, r: nat)
    requires m > 0
    ensures (q * m + r) / m == q + r / m
  {
    assert r == (r / m) * m + r % m;
    assert q * m + r == (q + r / m) * m + r % m;
    DivUnique(q * m + r, m, q + r / m, r % m);
  }

  lemma {:induction false} PrintNatLength(n: nat, width: nat)
    requires width >= 1 && n < Power10(width)
    ensures |PrintNat(n)| <= width
    decreases n
  {
    if n >= 10 {
      assert Power10(1) == 10 * Power10(0);
      PrintNatLength(n / 10, width - 1);
    }
  }

  lemma {:induction false} Power10Adds(a: nat, b: nat)
    ensures Power10(a + b) == Power10(a) * Power10(b)
  {
    if a > 0 {
      Power10Adds(a - 1, b);
      TimesTen(Power10(a - 1), Power10(b));
    }
  }

  /** What the fractional digits say: the fraction cut off at places, in units of 10 to the minus places. */
  lemma FractionValue(frac: nat, decimals: nat, precision: int)
    requires decimals >= 1 && frac < Power10(decimals)
    ensures var text, places := FractionText(frac, decimals, precision), Places(decimals, precision);
      && |text| <= places && Digits(text)
      && NatValue(text) * Power10(places - |text|) == frac / Power10(decimals - places)
  {
    hide PrintNat, PadZeros, StripZeros, NatValue, Power10, IsDigit;
    var places := Places(decimals, precision);
    PrintNatLength(frac, decimals);
    NatValueOfPrint(frac);
    var padded := PadZeros(PrintNat(frac), decimals);
    PadZerosValue(PrintNat(frac), decimals);
    assert Cut(padded, precision) == padded[..places];
    PrefixValue(padded, places);
    StripZerosValue(padded[..places]);
  }

  lemma ReadParts(whole: nat, frac: string, places: nat)
    requires Digits(frac) && |frac| <= places
    ensures ReadMagnitude(Decimal(whole, frac), places)
            == Some(whole * Power10(places) + NatValue(frac) * Power10(places - |frac|))
    ensures Decimal(whole, frac) != "" && Decimal(whole, frac)[0] != '-'
  {
    hide PrintNat, Power10, LeadingDigits;
    NatValueOfPrint(whole);
    assert PrintNat(whole)[0] in PrintNat(whole);
    if frac != "" {
      var text := PrintNat(whole) + "." + frac;
      assert text == PrintNat(whole) + ("." + frac);
      LeadingDigitsOf(PrintNat(whole), "." + frac);
      assert text[|PrintNat(whole)|..] == "." + frac && ("." + frac)[1..] == frac;
      LeadingDigitsOf(frac, "");
      assert frac + "" == frac;
    } else {
      LeadingDigitsOf(PrintNat(whole), "");
      assert PrintNat(whole) + "" == PrintNat(whole);
    }
  }

  /** How many fractional digits are kept; a negative precision counts back from the last, as slices do. */
  function Places(decimals: int, precision: int): (places: nat)
    ensures decimals >= 0 ==> places <= decimals
  {
    if decimals <= 0 then 0
    else if precision >= decimals then decimals
    else if precision >= 0 then precision
    else if decimals + precision >= 0 then decimals + precision
    else 0
  }

  /** With digits to print, the text reads as the amount cut off at the places kept. */
  lemma DigitsRead(units: int, decimals: nat, precision: int)
    requires decimals >= 1
    ensures var size := if units < 0 then -units else units;
      var cut := size / Power10(decimals - Places(decimals, precision));
      ReadDecimal(FormatUnits(units, decimals, precision), Places(decimals, precision))
      == Some(if units < 0 then -cut else cut)
  {
    hide FractionText, Decimal, NatValue, Power10, ReadMagnitude, Digits, PrintInt, DivMod, Places;
    var size: nat := if units < 0 then -units else units;
    var places := Places(decimals, precision);
    var (whole, frac) := DivMod(size, Power10(decimals));
    var text := FractionText(frac, decimals, precision);
    var magnitude := Decimal(whole, text);
    FractionValue(frac, decimals, precision);
    ReadParts(whole, text, places);
    CutMagnitude(size, places, decimals - places);
    SignRead(units < 0, magnitude, places);
  }

  /** Without digits to print, it reads as the amount. */
  lemma WholeRead(units: int)
    ensures ReadDecimal(PrintInt(units), 0) == Some(units)
  {
    hide PrintNat, ReadMagnitude, LeadingDigits;
    var size: nat := if units < 0 then -units else units;
    PowerOfNone();
    ReadParts(size, "", 0);
    SignRead(units < 0, PrintNat(size), 0);
    assert PrintInt(units) == (if units < 0 then "-" else "") + PrintNat(size);
  }

  /**
   The printed amount is the amount truncated toward zero at the places kept,
   for any decimals and precision, and exactly the amount when precision is at
   least decimals.
   */
  lemma FormatTruncates(units: int, decimals: int, precision: int)
    ensures var size := if units < 0 then -units else units;
      var places := Places(decimals, precision);
      var cut := size / Power10((if decimals < 0 then 0 else decimals) - places);
      && ReadDecimal(FormatUnits(units, decimals, precision), places) == Some(if units < 0 then -cut else cut)
      && (precision >= decimals ==> ReadDecimal(FormatUnits(units, decimals, precision), places) == Some(units))
  {
    hide Power10, ReadDecimal, PrintInt, DivMod, Decimal, FractionText;
    PowerOfNone();
    if decimals >= 1 {
      DigitsRead(units, decimals, precision);
    } else {
      WholeRead(units);
      assert FormatUnits(units, decimals, precision) == PrintInt(units);
    }
  }

  lemma SignRead(negative: bool, magnitude: string, places: nat)
    requires magnitude != "" && magnitude[0] != '-' && ReadMagnitude(magnitude, places).Some?
    ensures ReadDecimal((if negative then "-" else "") + magnitude, places)
            == Some(if negative then -ReadMagnitude(magnitude, places).value
                    else ReadMagnitude(magnitude, places).value)
  {
    hide ReadMagnitude;
    assert ("-" + magnitude)[1..] == magnitude && "" + magnitude == magnitude;
  }

  lemma PowerOfNone()
    ensures Power10(0) == 1
  {
  }

  lemma CutMagnitude(size: nat, places: nat, dropped: nat)
    ensures var (whole, frac) := DivMod(size, Power10(places + dropped));
      whole * Power10(places) + frac / Power10(dropped) == size / Power10(dropped)
  {
    hide Power10;
    Power10Adds(places, dropped);
    WholeAndFraction(size, Power10(places), Power10(dropped));
  }

  lemma WholeAndFraction(size: nat, a: nat, b: nat)
    requires a > 0 && b > 0 && a * b > 0
    ensures size / b == (size / (a * b)) * a + (size % (a * b)) / b
  {
    var whole, frac := size / (a * b), size % (a * b);
    assert size == whole * (a * b) + frac == (whole * a) * b + frac;
    DivAdd(whole * a, b, frac);
  }
}
