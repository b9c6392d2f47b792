/**
 JSON text without white space: printing, and reading it back. Strings are
 sequences of Unicode code points and numbers are integers (RFC 8259,
 sections 2 to 7).
 */
module JsonText {
  import opened HexText

  datatype Json =
    | Null
    | Bool(b: bool)
    | Int(n: int)
    | Str(s: string)
    | Arr(items: seq<Json>)
    | Obj(fields: seq<Field>)

  datatype Field = Field(key: string, value: Json)

  datatype Parsed<+T> = Fail | Done(value: T, rest: string)

  // ----- integers

  predicate IsDigit(c: char) {
    '0' <= c <= '9'
  }

  function Digit(d: nat): char
    requires d < 10
  {
    ('0' as int + d) as char
  }

  function PrintNat(n: nat): (t: string)
    ensures t != "" && forall c :: c in t ==> IsDigit(c)
  {
    if n < 10 then [Digit(n)] else PrintNat(n / 10) + [Digit(n % 10)]
  }

  function PrintInt(n: int): string {
    if n < 0 then "-" + PrintNat(-n) else PrintNat(n)
  }

  function NatValue(t: string): nat
    requires forall c :: c in t ==> IsDigit(c)
  {
    if t == "" then 0
    else
      var last := |t| - 1;
      assert IsDigit(t[last]);
      assert forall c :: c in t[..last] ==> c in t;
      10 * NatValue(t[..last]) + (t[last] as int - '0' as int)
  }

  /** The longest prefix of digits. */
  function LeadingDigits(t: string): (d: string)
    ensures d <= t && forall c :: c in d ==> IsDigit(c)
  {
    if t == "" || !IsDigit(t[0]) then "" else [t[0]] + LeadingDigits(t[1..])
  }

  function ParseNat(t: string): Parsed<nat> {
    var d := LeadingDigits(t);
    if d == "" then Fail else Done(NatValue(d), t[|d|..])
  }

  function ParseInt(t: string): Parsed<int> {
    if t != "" && t[0] == '-' then
      match ParseNat(t[1..])
      case Fail => Fail
      case Done(n, rest) => (var m: int := n; Done(-m, rest))
    else
      match ParseNat(t)
      case Fail => Fail
      case Done(n, rest) => Done(n, rest)
  }

  /** Whether a text can follow a number without changing how the number is read. */
  predicate EndsNumber(rest: string) {
    rest == "" || !IsDigit(rest[0])
  }

  lemma {:induction false} NatValueOfPrint(n: nat)
    ensures NatValue(PrintNat(n)) == n
  {
    if n >= 10 {
      NatValueOfPrint(n / 10);
      var t := PrintNat(n);
      assert t[..|t| - 1] == PrintNat(n / 10);
    }
  }

  lemma {:induction false} LeadingDigitsOf(d: string, rest: string)
    requires (forall c :: c in d ==> IsDigit(c)) && EndsNumber(rest)
    ensures LeadingDigits(d + rest) == d
  {
    if d == "" {
      assert d + rest == rest;
    } else {
      assert d[0] in d && forall c :: c in d[1..] ==> c in d;
      LeadingDigitsOf(d[1..], rest);
      assert (d + rest)[1..] == d[1..] + rest;
    }
  }

  lemma ParsePrintNat(n: nat, rest: string)
    requires EndsNumber(rest)
    ensures ParseNat(PrintNat(n) + rest) == Done(n, rest)
  {
    LeadingDigitsOf(PrintNat(n), rest);
    NatValueOfPrint(n);
  }

  lemma ParsePrintInt(n: int, rest: string)
    requires EndsNumber(rest)
    ensures ParseInt(PrintInt(n) + rest) == Done(n, rest)
    ensures PrintInt(n) != "" && (IsDigit(PrintInt(n)[0]) || PrintInt(n)[0] == '-')
  {
    hide ParseNat, PrintNat;
    if n < 0 {
      ParsePrintNat(-n, rest);
      assert (PrintInt(n) + rest)[1..] == PrintNat(-n) + rest;
    } else {
      ParsePrintNat(n, rest);
      assert PrintInt(n)[0] in PrintNat(n);
    }
  }

  // ----- strings

  const BACKSPACE := '\U{0008}'
  const FORMFEED := '\U{000C}'

  /** One code point inside a string literal. */
  function EscapeChar(c: char): (t: string)
    ensures t != "" && t[0] != '"'
  {
    if c == '"' then "\\\""
    else if c == '\\' then "\\\\"
    else if c == BACKSPACE then "\\b"
    else if c == FORMFEED then "\\f"
    else if c == '\n' then "\\n"
    else if c == '\r' then "\\r"
    else if c == '\t' then "\\t"
    else if c < ' ' then "\\u00" + [HexDigit(c as int / 16), HexDigit(c as int % 16)]
    else [c]
  }

  function EscapeAll(s: string): string {
    if s == "" then "" else EscapeChar(s[0]) + EscapeAll(s[1..])
  }

  function Quote(s: string): string {
    "\"" + EscapeAll(s) + "\""
  }

  function ParseChar(t: string): (p: Parsed<char>)
    ensures p.Done? ==> |p.rest| < |t|
  {
    if t == "" then Fail
    else if t[0] != '\\' then Done(t[0], t[1..])
    else if |t| < 2 then Fail
    else if t[1] == '"' then Done('"', t[2..])
    else if t[1] == '\\' then Done('\\', t[2..])
    else if t[1] == 'b' then Done(BACKSPACE, t[2..])
    else if t[1] == 'f' then Done(FORMFEED, t[2..])
    else if t[1] == 'n' then Done('\n', t[2..])
    else if t[1] == 'r' then Done('\r', t[2..])
    else if t[1] == 't' then Done('\t', t[2..])
    else if |t| >= 6 && t[1..4] == "u00" && HexValue(t[4]) < 8 && HexValue(t[5]) < 16 then
      Done((16 * HexValue(t[4]) + HexValue(t[5])) as char, t[6..])
    else Fail
  }

  /** The code points up to the closing quotation mark. */
  function ParseChars(t: string): (p: Parsed<string>)
    ensures p.Done? ==> |p.rest| < |t|
    decreases |t|
  {
    if t == "" then Fail
    else if t[0] == '"' then Done("", t[1..])
    else
      match ParseChar(t)
      case Fail => Fail
      case Done(c, rest) =>
        match ParseChars(rest)
        case Fail => Fail
        case Done(s, end) => Done([c] + s, end)
  }

  lemma ParseUnicodeEscape(c: char, h: char, l: char, rest: string)
    requires c < ' ' && h == HexDigit(c as int / 16) && l == HexDigit(c as int % 16)
    ensures ParseChar(['\\', 'u', '0', '0', h, l] + rest) == Done(c, rest)
  {
    var t := ['\\', 'u', '0', '0', h, l] + rest;
    assert t[1..4] == ['u', '0', '0'] == "u00";
    assert t[6..] == rest;
    assert 16 * HexValue(h) + HexValue(l) == c as int;
  }

  lemma ParseEscapedChar(c: char, rest: string)
    ensures ParseChar(EscapeChar(c) + rest) == Done(c, rest)
  {
    hide HexDigit, HexValue;
    var t := EscapeChar(c) + rest;
    if |EscapeChar(c)| == 1 {
      assert t[1..] == rest;
    } else if |EscapeChar(c)| == 2 {
      assert t[2..] == rest;
    } else {
      var h, l := HexDigit(c as int / 16), HexDigit(c as int % 16);
      assert EscapeChar(c) == ['\\', 'u', '0', '0', h, l];
      ParseUnicodeEscape(c, h, l, rest);
    }
  }

  lemma EscapeAllTail(s: string, rest: string)
    requires s != ""
    ensures EscapeAll(s) + "\"" + rest == EscapeChar(s[0]) + (EscapeAll(s[1..]) + "\"" + rest)
  {
    hide EscapeChar;
  }

  lemma {:induction false} ParseEscaped(s: string, rest: string)
    ensures ParseChars(EscapeAll(s) + "\"" + rest) == Done(s, rest)
  {
    hide EscapeChar, ParseChar;
    var t := EscapeAll(s) + "\"" + rest;
    if s == "" {
      assert t[0] == '"' && t[1..] == rest;
    } else {
      hide EscapeAll;
      var tail := EscapeAll(s[1..]) + "\"" + rest;
      EscapeAllTail(s, rest);
      assert t[0] == EscapeChar(s[0])[0];
      ParseEscapedChar(s[0], tail);
      ParseEscaped(s[1..], rest);
      assert [s[0]] + s[1..] == s;
    }
  }

  // ----- documents

  function Print(v: Json): string
    decreases v, 0
  {
    match v
    case Null => "null"
    case Bool(b) => if b then "true" else "false"
    case Int(n) => PrintInt(n)
    case Str(s) => Quote(s)
    case Arr(items) => "[" + PrintItems(items) + "]"
    case Obj(fields) => "{" + PrintFields(fields) + "}"
  }

  function PrintItems(items: seq<Json>): string
    decreases items, 1
  {
    if items == [] then ""
    else if |items| == 1 then Print(items[0])
    else Print(items[0]) + "," + PrintItems(items[1..])
  }

  function PrintFields(fields: seq<Field>): string
    decreases fields, 1
  {
    if fields == [] then ""
    else if |fields| == 1 then PrintField(fields[0])
    else PrintField(fields[0]) + "," + PrintFields(fields[1..])
  }

  function PrintField(f: Field): string
    decreases f, 0
  {
    Quote(f.key) + ":" + Print(f.value)
  }

  function ParseValue(t: string): (p: Parsed<Json>)
    ensures p.Done? ==> |p.rest| < |t|
    decreases |t|, 0
  {
    if t == "" then Fail
    else if t[0] == 'n' then (if "null" <= t then Done(Null, t[4..]) else Fail)
    else if t[0] == 't' then (if "true" <= t then Done(Bool(true), t[4..]) else Fail)
    else if t[0] == 'f' then (if "false" <= t then Done(Bool(false), t[5..]) else Fail)
    else if t[0] == '"' then
      match ParseChars(t[1..])
      case Fail => Fail
      case Done(s, rest) => Done(Str(s), rest)
    else if "[]" <= t then Done(Arr([]), t[2..])
    else if t[0] == '[' then
      match ParseItems(t[1..])
      case Fail => Fail
      case Done(items, rest) => Done(Arr(items), rest)
    else if "{}" <= t then Done(Obj([]), t[2..])
    else if t[0] == '{' then
      match ParseFields(t[1..])
      case Fail => Fail
      case Done(fields, rest) => Done(Obj(fields), rest)
    else
      match ParseInt(t)
      case Fail => Fail
      case Done(n, rest) => Done(Int(n), rest)
  }

  /** One or more values separated by commas, and the closing bracket. */
  function ParseItems(t: string): (p: Parsed<seq<Json>>)
    ensures p.Done? ==> |p.rest| < |t|
    decreases |t|, 1
  {
    match ParseValue(t)
    case Fail => Fail
    case Done(v, rest) =>
      if rest != "" && rest[0] == ']' then Done([v], rest[1..])
      else if rest != "" && rest[0] == ',' then
        match ParseItems(rest[1..])
        case Fail => Fail
        case Done(items, end) => Done([v] + items, end)
      else Fail
  }

  /** One or more members separated by commas, and the closing brace. */
  function ParseFields(t: string): (p: Parsed<seq<Field>>)
    ensures p.Done? ==> |p.rest| < |t|
    decreases |t|, 1
  {
    match ParseField(t)
    case Fail => Fail
    case Done(f, rest) =>
      if rest != "" && rest[0] == '}' then Done([f], rest[1..])
      else if rest != "" && rest[0] == ',' then
        match ParseFields(rest[1..])
        case Fail => Fail
        case Done(fields, end) => Done([f] + fields, end)
      else Fail
  }

  function ParseField(t: string): (p: Parsed<Field>)
    ensures p.Done? ==> |p.rest| < |t|
    decreases |t|, 0
  {
    if t == "" || t[0] != '"' then Fail
    else
      match ParseChars(t[1..])
      case Fail => Fail
      case Done(key, rest) =>
        if rest == "" || rest[0] != ':' then Fail
        else
          match ParseValue(rest[1..])
          case Fail => Fail
          case Done(v, end) => Done(Field(key, v), end)
  }

  lemma ParseQuoted(s: string, rest: string)
    ensures Quote(s) + rest == "\"" + (EscapeAll(s) + "\"" + rest)
    ensures ParseChars((Quote(s) + rest)[1..]) == Done(s, rest)
  {
    hide EscapeAll, ParseChars;
    ParseEscaped(s, rest);
    assert (Quote(s) + rest)[1..] == EscapeAll(s) + "\"" + rest;
  }

  /** A printed value does not begin like the end of an array or object. */
  lemma PrintStart(v: Json)
    ensures Print(v) != "" && Print(v)[0] != ']' && Print(v)[0] != '}'
  {
    if v.Int? {
      ParsePrintInt(v.n, "");
    }
  }

  lemma ParseBracketed(items: seq<Json>, rest: string)
    requires items != [] ==> ParseItems(PrintItems(items) + "]" + rest) == Done(items, rest)
    ensures ParseValue(Print(Arr(items)) + rest) == Done(Arr(items), rest)
  {
    hide PrintItems, ParseItems;
    var t := Print(Arr(items)) + rest;
    if items == [] {
      assert PrintItems(items) == "" by {
        EmptyPrints();
      }
      assert t == "[]" + rest && t[2..] == rest;
    } else {
      PrintItemsStart(items);
      assert t[1..] == PrintItems(items) + "]" + rest;
      assert t[1] == PrintItems(items)[0];
    }
  }

  lemma ParseBraced(fields: seq<Field>, rest: string)
    requires fields != [] ==> ParseFields(PrintFields(fields) + "}" + rest) == Done(fields, rest)
    ensures ParseValue(Print(Obj(fields)) + rest) == Done(Obj(fields), rest)
  {
    hide PrintFields, ParseFields;
    var t := Print(Obj(fields)) + rest;
    if fields == [] {
      assert PrintFields(fields) == "" by {
        EmptyPrints();
      }
      assert t == "{}" + rest && t[2..] == rest;
    } else {
      PrintFieldsStart(fields);
      assert t[1..] == PrintFields(fields) + "}" + rest;
      assert t[1] == PrintFields(fields)[0];
    }
  }

  lemma EmptyPrints()
    ensures PrintItems([]) == "" && PrintFields([]) == ""
  {
  }

  lemma ParseLeaf(v: Json, rest: string)
    requires EndsNumber(rest) && !v.Arr? && !v.Obj?
    ensures ParseValue(Print(v) + rest) == Done(v, rest)
  {
    hide EscapeAll, PrintInt, ParseInt, ParseChars, PrintNat;
    var t := Print(v) + rest;
    match v {
      case Null =>
        assert t[4..] == rest;
      case Bool(b) =>
        assert t[if b then 4 else 5..] == rest;
      case Int(n) =>
        ParsePrintInt(n, rest);
      case Str(s) =>
        ParseQuoted(s, rest);
    }
  }

  /** Reading a printed value gives the value back, whatever follows. */
  lemma {:induction false} ParsePrint(v: Json, rest: string)
    requires EndsNumber(rest)
    ensures ParseValue(Print(v) + rest) == Done(v, rest)
    decreases v, 0
  {
    hide Print, ParseValue, PrintItems, ParseItems, PrintFields, ParseFields;
    match v {
      case Arr(items) =>
        if items != [] {
          ParsePrintItems(items, rest);
        }
        ParseBracketed(items, rest);
      case Obj(fields) =>
        if fields != [] {
          ParsePrintFields(fields, rest);
        }
        ParseBraced(fields, rest);
      case _ =>
        ParseLeaf(v, rest);
    }
  }

  lemma PrintItemsStart(items: seq<Json>)
    requires items != []
    ensures PrintItems(items) != "" && PrintItems(items)[0] != ']'
  {
    PrintStart(items[0]);
  }

  lemma PrintFieldsStart(fields: seq<Field>)
    requires fields != []
    ensures PrintFields(fields) != "" && PrintFields(fields)[0] == '"'
  {
  }

  lemma {:induction false} ParsePrintItems(items: seq<Json>, rest: string)
    requires items != []
    ensures ParseItems(PrintItems(items) + "]" + rest) == Done(items, rest)
    decreases items, 1
  {
    hide Print, ParseValue;
    if |items| == 1 {
      assert PrintItems(items) + "]" + rest == Print(items[0]) + ("]" + rest);
      ParsePrint(items[0], "]" + rest);
      assert items == [items[0]];
    } else {
      var tail := PrintItems(items[1..]) + "]" + rest;
      assert PrintItems(items) + "]" + rest == Print(items[0]) + ("," + tail);
      ParsePrint(items[0], "," + tail);
      assert ("," + tail)[1..] == tail;
      ParsePrintItems(items[1..], rest);
      assert items == [items[0]] + items[1..];
    }
  }

  lemma {:induction false} ParsePrintField(f: Field, rest: string)
    requires EndsNumber(rest)
    ensures ParseField(PrintField(f) + rest) == Done(f, rest)
    decreases f, 0
  {
    hide Print, ParseValue, ParseChars, EscapeAll;
    var tail := ":" + (Print(f.value) + rest);
    assert PrintField(f) + rest == Quote(f.key) + tail;
    ParseQuoted(f.key, tail);
    assert tail[1..] == Print(f.value) + rest;
    ParsePrint(f.value, rest);
  }

  lemma {:induction false} ParsePrintFields(fields: seq<Field>, rest: string)
    requires fields != []
    ensures ParseFields(PrintFields(fields) + "}" + rest) == Done(fields, rest)
    decreases fields, 1
  {
    hide PrintField, ParseField;
    if |fields| == 1 {
      assert PrintFields(fields) + "}" + rest == PrintField(fields[0]) + ("}" + rest);
      ParsePrintField(fields[0], "}" + rest);
      assert fields == [fields[0]];
    } else {
      var tail := PrintFields(fields[1..]) + "}" + rest;
      assert PrintFields(fields) + "}" + rest == PrintField(fields[0]) + ("," + tail);
      ParsePrintField(fields[0], "," + tail);
      assert ("," + tail)[1..] == tail;
      ParsePrintFields(fields[1..], rest);
      assert fields == [fields[0]] + fields[1..];
    }
  }

  /** Printing is injective. */
  lemma PrintInjective(v: Json, w: Json)
    requires Print(v) == Print(w)
    ensures v == w
  {
    ParsePrint(v, "");
    ParsePrint(w, "");
    assert Print(v) + "" == Print(v) && Print(w) + "" == Print(w);
  }
}
