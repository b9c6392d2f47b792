/** What counts as one asset, what an amount is worth, and the exact form of a printed amount (db/money.py). */
module MoneyLaws {
  import opened Wrappers
  import opened JsonText
  import opened Money

  /** Two rows are in one asset exactly when chain, decimals and address agree, in lower case and blank if missing. */
  lemma OneAsset(t: Texts, a: Row, b: Row)
    ensures AssetKey(t, a) == AssetKey(t, b) <==>
      && a.chainId == b.chainId && a.decimals == b.decimals
      && t.lower(if a.address.Some? then a.address.value else "")
         == t.lower(if b.address.Some? then b.address.value else "")
  {
  }

  /** The amount n can be stored as. */
  predicate Stores(t: Texts, a: Amount, n: int) {
    || a == Units(n)
    || (a.Text? && a.text != "" && t.readInt(a.text) == Some(n))
    || (a in {Amount.Null, Text(""), Missing} && n == 0)
  }

  /** One row more adds the number that its amount stands for: blank, null and missing amounts are zero. */
  lemma TotalMeans(t: Texts, rows: seq<Row>, row: Row, n: int)
    requires Stores(t, row.amount, n)
    ensures Total(t, []) == 0 && Total(t, rows + [row]) == Total(t, rows) + n
  {
    TotalAppended(t, rows, row);
  }

  /** Only a text that is no number spoils a total. */
  lemma ReadableMeans(t: Texts, rows: seq<Row>)
    ensures Readable(t, rows) <==>
      forall row, s :: row in rows && row.amount == Text(s) && s != "" ==> t.readInt(s).Some?
  {
    if Readable(t, rows) {
      forall row, s | row in rows && row.amount == Text(s) && s != ""
        ensures t.readInt(s).Some?
      {
        var i :| 0 <= i < |rows| && rows[i] == row;
        assert !Read(t, rows[i].amount).Unreadable?;
      }
    } else {
      var i :| 0 <= i < |rows| && Read(t, rows[i].amount).Unreadable?;
      assert rows[i] in rows;
    }
  }

  /** A row whose amount is missing gives its asset no total; any other readable row does. */
  lemma HasTotal(t: Texts, rows: seq<Row>, row: Row)
    requires row in rows && row.amount != Missing && Readable(t, rows)
    ensures AssetKey(t, row) in Totals(t, rows)
  {
    hide Totals, AssetKey;
    var i :| 0 <= i < |rows| && rows[i] == row;
    assert Read(t, rows[i].amount).Value?;
    TotalsArePerAsset(t, rows, AssetKey(t, row));
  }

  lemma OnlyMissing(t: Texts, rows: seq<Row>, key: Asset)
    requires forall row :: row in rows && AssetKey(t, row) == key ==> row.amount == Missing
    ensures key !in Totals(t, rows)
  {
    hide Totals, AssetKey;
    assert forall i :: 0 <= i < |rows| ==> rows[i] in rows;
    TotalsArePerAsset(t, rows, key);
  }

  // ----- printing

  lemma PowerMeans(k: nat)
    ensures Power10(0) == 1 && Power10(k + 1) == 10 * Power10(k)
  {
  }

  /** How many digits are kept. */
  lemma PlacesMeans(decimals: nat, precision: nat)
    ensures Places(decimals, precision) == if precision < decimals then precision else decimals
  {
  }

  lemma {:induction false} StripZerosMeans(s: string)
    ensures StripZeros(s) <= s && (StripZeros(s) != "" ==> StripZeros(s)[|StripZeros(s)| - 1] != '0')
  {
    if s != "" && s[|s| - 1] == '0' {
      StripZerosMeans(s[..|s| - 1]);
    }
  }

  /**
   A printed amount has a minus sign exactly when it is negative, its whole part,
   and a point only before a fraction, which does not end in a zero.
   */
  lemma FormatMeans(units: int, decimals: int, precision: int) returns (frac: string)
    ensures var size: nat := if units < 0 then -units else units;
      FormatUnits(units, decimals, precision) ==
        (if units < 0 then "-" else "") + PrintInt(size / Power10(if decimals < 0 then 0 else decimals))
        + (if frac == "" then "" else "." + frac)
    ensures Digits(frac) && |frac| <= Places(decimals, precision)
    ensures frac != "" ==> frac[|frac| - 1] != '0'
  {
    hide PrintNat, Power10, Digits, StripZeros, Cut, PadZeros, Places;
    var size: nat := if units < 0 then -units else units;
    frac := "";
    if decimals <= 0 {
      PowerOfNone();
      NoDigits();
    } else {
      var (whole, rest) := DivMod(size, Power10(decimals));
      frac := FractionText(rest, decimals, precision);
      FractionValue(rest, decimals, precision);
      StripZerosMeans(Cut(PadZeros(PrintNat(rest), decimals), precision));
    }
  }

  lemma NoDigits()
    ensures Digits("")
  {
  }
}
