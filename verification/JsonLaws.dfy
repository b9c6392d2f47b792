/** The texts that canonical JSON consists of (sdk/js/src/index.js, crypto/signing.py). */
module JsonLaws {
  import opened Collections
  import opened HexText
  import opened CodePoints
  import opened JsonText
  import opened CanonicalJson

  // ----- numbers and strings

  /** Decimal numbers: a digit, a number and one more digit, or a minus sign in front. */
  lemma NumberMeans(n: nat, d: nat)
    requires d < 10
    ensures PrintInt(d) == ["0123456789"[d]]
    ensures n > 0 ==> PrintInt(10 * n + d) == PrintInt(n) + ["0123456789"[d]]
    ensures n > 0 ==> PrintInt(0 - n) == "-" + PrintInt(n)
  {
    assert Digit(d) == "0123456789"[d];
    assert (10 * n + d) / 10 == n && (10 * n + d) % 10 == d;
  }

  /** The escapes of RFC 8259, section 7, in the forms that JSON.stringify chooses. */
  lemma EscapeMeans(c: char)
    ensures EscapeChar('"') == ['\\', '"'] && EscapeChar('\\') == ['\\', '\\']
    ensures EscapeChar('\U{0008}') == ['\\', 'b'] && EscapeChar('\U{000C}') == ['\\', 'f']
    ensures EscapeChar('\n') == ['\\', 'n'] && EscapeChar('\r') == ['\\', 'r'] && EscapeChar('\t') == ['\\', 't']
    ensures c < '\U{0020}' && c !in ['\U{0008}', '\U{000C}', '\n', '\r', '\t'] ==>
      EscapeChar(c) == ['\\', 'u', '0', '0', "01"[c as int / 16], "0123456789abcdef"[c as int % 16]]
    ensures c >= '\U{0020}' && c != '"' && c != '\\' ==> EscapeChar(c) == [c]
  {
    if c < '\U{0020}' {
      assert HexDigit(c as int / 16) == "01"[c as int / 16];
      HexDigitMeans(c as int % 16);
    }
  }

  lemma HexDigitMeans(i: nat)
    requires i < 16
    ensures HexDigit(i) == "0123456789abcdef"[i]
  {
  }

  /** A string is its characters' escapes between quotation marks. */
  lemma {:induction false} StringMeans(s: string, c: char)
    ensures Print(Str("")) == "\"\""
    ensures Print(Str([c] + s)) == "\"" + EscapeChar(c) + Print(Str(s))[1..]
  {
    hide EscapeChar;
    assert ([c] + s)[1..] == s;
    assert Print(Str(s))[1..] == EscapeAll(s) + "\"";
  }

  // ----- documents

  function Commas(parts: seq<string>): string {
    if parts == [] then "" else if |parts| == 1 then parts[0] else parts[0] + "," + Commas(parts[1..])
  }

  /** The canonical texts of the items. */
  function ItemTexts(items: seq<Json>): (texts: seq<string>)
    ensures |texts| == |items| && forall i :: 0 <= i < |items| ==> texts[i] == Canonical(items[i])
  {
    seq(|items|, i requires 0 <= i < |items| => Canonical(items[i]))
  }

  /** The members' texts, in the order of the keys. */
  function MemberTexts(fields: seq<Field>, keys: seq<string>): (texts: seq<string>)
    requires forall k :: k in keys ==> k in Keys(fields)
    ensures |texts| == |keys|
    ensures forall i :: 0 <= i < |keys| ==> texts[i] == Print(Str(keys[i])) + ":" + Canonical(Lookup(fields, keys[i]))
  {
    seq(|keys|, i requires 0 <= i < |keys| => Print(Str(keys[i])) + ":" + Canonical(Lookup(fields, keys[i])))
  }

  /** The keys of an object come in ascending order of their characters, each once. */
  lemma KeysAscend(fields: seq<Field>)
    requires DistinctKeys(fields)
    ensures var keys := SortedKeys(fields);
      && |keys| == |fields|
      && (forall i, j :: 0 <= i < j < |keys| ==> Before(keys[i], keys[j]))
      && forall k :: k in keys <==> exists i :: 0 <= i < |fields| && fields[i].key == k
  {
    hide Leq, Sort;
    var keys := SortedKeys(fields);
    assert |keys| == |multiset(keys)| == |multiset(Keys(fields))| == |fields|;
    assert Distinct(Keys(fields));
    PermutedDistinct(Keys(fields), keys);
    forall i, j | 0 <= i < j < |keys|
      ensures Before(keys[i], keys[j])
    {
      assert Leq(keys[i], keys[j]);
      LeqMeans(keys[i], keys[j]);
    }
    forall k
      ensures k in keys <==> exists i :: 0 <= i < |fields| && fields[i].key == k
    {
      assert k in keys <==> k in multiset(Keys(fields));
      if i :| 0 <= i < |fields| && fields[i].key == k {
        assert Keys(fields)[i] == k;
      }
    }
  }

  lemma LeqMeans(a: string, b: string)
    ensures Leq(a, b) <==> a == b || Before(a, b)
  {
    CompareMeans(a, b);
  }

  lemma PermutedDistinct(a: seq<string>, b: seq<string>)
    requires multiset(a) == multiset(b) && Distinct(a)
    ensures Distinct(b)
  {
    DistinctByCount(a);
    DistinctByCount(b);
    assert |a| == |multiset(a)| == |multiset(b)| == |b|;
    forall x
      ensures x in Elements(a) <==> x in Elements(b)
    {
      assert x in a <==> x in multiset(a);
      assert x in b <==> x in multiset(b);
    }
    assert Elements(a) == Elements(b);
  }

  /** What the canonical text of each kind of document consists of. */
  lemma CanonicalMeans(v: Json)
    ensures v == Null ==> Canonical(v) == "null"
    ensures v.Bool? ==> Canonical(v) == if v.b then "true" else "false"
    ensures v.Int? ==> Canonical(v) == PrintInt(v.n)
    ensures v.Str? ==> Canonical(v) == Print(v)
    ensures v.Arr? ==> Canonical(v) == "[" + Commas(ItemTexts(v.items)) + "]"
    ensures v.Obj? ==> Canonical(v) == "{" + Commas(MemberTexts(v.fields, SortedKeys(v.fields))) + "}"
  {
    match v
    case Arr(items) => CanonicalItemsMean(items);
    case Obj(fields) => CanonicalFieldsMean(v, SortedKeys(fields));
    case _ =>
  }

  lemma {:induction false} CanonicalItemsMean(items: seq<Json>)
    ensures CanonicalItems(items) == Commas(ItemTexts(items))
  {
    if items != [] {
      CanonicalItemsMean(items[1..]);
      assert ItemTexts(items)[1..] == ItemTexts(items[1..]);
    }
  }

  lemma {:induction false} CanonicalFieldsMean(v: Json, keys: seq<string>)
    requires v.Obj? && forall k :: k in keys ==> k in Keys(v.fields)
    ensures CanonicalFields(v, keys) == Commas(MemberTexts(v.fields, keys))
  {
    if keys != [] {
      assert forall k :: k in keys[1..] ==> k in keys;
      CanonicalFieldsMean(v, keys[1..]);
      assert MemberTexts(v.fields, keys)[1..] == MemberTexts(v.fields, keys[1..]);
    }
  }

  /** Looking up a member's key finds that member's value. */
  lemma LookupMeans(fields: seq<Field>, i: nat)
    requires DistinctKeys(fields) && i < |fields|
    ensures fields[i].key in Keys(fields) && Lookup(fields, fields[i].key) == fields[i].value
  {
    assert Keys(fields)[i] == fields[i].key;
  }
}
