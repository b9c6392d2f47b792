/**
 Domain-separated signatures and the signature trailer of a served response
 (crypto/signing.py, mesh/admission.py). Text stands for its UTF-8 bytes.
 */
module Envelopes {
  import opened Wrappers
  import opened PythonText
  import opened JsonText

  /** The library calls: hashing, Ed25519 and int(). */
  datatype Library = Library(
    sha256: string -> string,
    publicKey: string -> string,
    keyHash: string -> Option<string>,
    sign: (string, string) -> string,
    verify: (string, string, string) -> bool,
    readInt: string -> Option<int>)
  {
    /** What the proofs need of them: verification accepts signatures, and hexadecimal text has one line. */
    ghost predicate Ideal() {
      && (forall key, message :: verify(message, sign(key, message), publicKey(key)))
      && (forall key, message :: OneLine(sign(key, message)))
      && (forall message :: OneLine(sha256(message)))
      && (forall key ::
            OneLine(publicKey(key)) && keyHash(publicKey(key)).Some? && OneLine(keyHash(publicKey(key)).value))
      && (forall n :: readInt(PrintInt(n)) == Some(n))
    }

    /** pid_matches_key. */
    predicate PidMatchesKey(pid: string, publicKeyHex: string) {
      keyHash(publicKeyHex) == Some(pid)
    }
  }

  // ----- domain separation

  const RESPONSE := "REFINET-RESPONSE-v1"

  /** Every domain the program signs under. */
  const DOMAINS := [
    RESPONSE, "REFINET-BINDING-v1", "REFINET-IDENTITY-v3", "REFINET-WITNESS-v1",
    "REFINET-ANNOUNCE-v1", "REFINET-PROXY-TOKEN-v1", "REFINET-WELL-KNOWN-v1"]

  /** domain_preimage: the fields follow the domain directly. */
  function Preimage(domain: string, fields: seq<string>): string {
    domain + Join(fields)
  }

  /** Within one domain, one preimage stands for one list of line-free fields. */
  lemma {:induction false} JoinInjective(f: seq<string>, g: seq<string>)
    requires |f| == |g| && Join(f) == Join(g)
    requires forall t :: t in f || t in g ==> Lacks(t, '\n')
    ensures f == g
    decreases |f|
  {
    if |f| >= 2 {
      hide Lacks;
      SplitAtFirst('\n', f[0], g[0], Join(f[1..]), Join(g[1..]));
      assert forall t :: t in f[1..] ==> t in f;
      assert forall t :: t in g[1..] ==> t in g;
      JoinInjective(f[1..], g[1..]);
      assert f == [f[0]] + f[1..] && g == [g[0]] + g[1..];
    }
  }

  lemma DomainMarks(i: nat)
    requires i < |DOMAINS|
    ensures |DOMAINS[i]| >= 10
    ensures (DOMAINS[i][8], DOMAINS[i][9]) ==
            [('R', 'E'), ('B', 'I'), ('I', 'D'), ('W', 'I'), ('A', 'N'), ('P', 'R'), ('W', 'E')][i]
  {
  }

  /** A statement signed under one domain is never a statement of another, whatever the fields. */
  lemma DomainsSeparate(i: nat, j: nat, fields: seq<string>, fields': seq<string>)
    requires i < j < |DOMAINS|
    ensures Preimage(DOMAINS[i], fields) != Preimage(DOMAINS[j], fields')
  {
    DomainMarks(i);
    DomainMarks(j);
    var t, t' := Preimage(DOMAINS[i], fields), Preimage(DOMAINS[j], fields');
    assert t[8] == DOMAINS[i][8] && t[9] == DOMAINS[i][9];
    assert t'[8] == DOMAINS[j][8] && t'[9] == DOMAINS[j][9];
  }

  // ----- the trailer

  const SIG_BEGIN := "---BEGIN REFINET SIGNATURE---"
  const SIG_END := "---END REFINET SIGNATURE---"
  const MARKER := "\r\n" + SIG_BEGIN

  function EnvelopeFields(pid: string, selector: string, time: int, bodyHash: string): seq<string> {
    [pid, selector, PrintInt(time), bodyHash]
  }

  /** The names of the trailer's fields, in order. */
  const NAMES := ["pid", "pubkey", "sig", "hash", "v", "selector", "time", "sig1"]

  /** The values of the trailer's fields, in the same order. */
  function TrailerValues(
      lib: Library, body: string, key: string, pid: string, publicKeyHex: string, selector: string, time: int)
    : (values: seq<string>)
    ensures |values| == |NAMES|
  {
    var bodyHash := lib.sha256(body);
    var envelope := lib.sign(key, Preimage(RESPONSE, EnvelopeFields(pid, selector, time, bodyHash)));
    [pid, publicKeyHex, lib.sign(key, body), bodyHash, "1", selector, PrintInt(time), envelope]
  }

  function NamedLines(names: seq<string>, values: seq<string>): (lines: seq<string>)
    requires |names| == |values|
    ensures |lines| == |names|
    ensures forall i :: 0 <= i < |names| ==> lines[i] == names[i] + ":" + values[i]
  {
    if names == [] then [] else [names[0] + ":" + values[0]] + NamedLines(names[1..], values[1..])
  }

  /** Every line followed by "\r\n". */
  function Unlines(lines: seq<string>): string {
    if lines == [] then "" else lines[0] + "\r\n" + Unlines(lines[1..])
  }

  /** build_signature_trailer. */
  function Trailer(
      lib: Library, body: string, key: string, pid: string, publicKeyHex: string, selector: string, time: int)
    : string {
    var values := TrailerValues(lib, body, key, pid, publicKeyHex, selector, time);
    MARKER + Unlines([""] + NamedLines(NAMES, values) + [SIG_END])
  }

  lemma {:induction false} SplitUnlines(lines: seq<string>)
    requires forall i :: 0 <= i < |lines| ==> OneLine(lines[i])
    ensures SplitLines(Unlines(lines)) == lines
  {
    if lines != [] {
      hide OneLine, SplitLines;
      SplitCRLF(lines[0], Unlines(lines[1..]));
      SplitUnlines(lines[1..]);
      assert lines == [lines[0]] + lines[1..];
    }
  }

  // ----- reading a trailer

  type Fields = map<string, string>

  function Get(fields: Fields, key: string): Option<string> {
    if key in fields then Some(fields[key]) else None
  }

  function GetOr(fields: Fields, key: string): string {
    if key in fields then fields[key] else ""
  }

  /** One line's effect on the fields read so far. */
  function AddLine(fields: Fields, line: string): Fields {
    var colon := Find(line, ":");
    if colon < 0 then fields else fields[Strip(line[..colon]) := RStripCR(line[colon + 1..])]
  }

  /** The fields of the lines before the end marker. */
  function ReadFields(fields: Fields, lines: seq<string>): Fields
    decreases |lines|
  {
    if lines == [] || Strip(lines[0]) == SIG_END then fields
    else ReadFields(AddLine(fields, lines[0]), lines[1..])
  }

  datatype Verdict =
    | Unsigned
    | Checked(
        body: string, pid: string, selector: Option<string>, time: Option<string>,
        pidValid: bool, hashValid: bool, legacyValid: bool, envelopeValid: Option<bool>)
  {
    /** Every signature present verifies. */
    predicate Valid() {
      Checked? && pidValid && hashValid && legacyValid && envelopeValid != Some(false)
    }
  }

  /** The verdict on a body and the fields of its trailer. */
  function Judge(lib: Library, body: string, fields: Fields): Verdict {
    var pid, publicKeyHex := GetOr(fields, "pid"), GetOr(fields, "pubkey");
    var bodyHash := lib.sha256(body);
    var envelope :=
      if Get(fields, "v") != Some("1") then None
      else
        match lib.readInt(GetOr(fields, "time"))
        case None => Some(false)
        case Some(time) =>
          var message := Preimage(RESPONSE, EnvelopeFields(pid, GetOr(fields, "selector"), time, bodyHash));
          Some(lib.verify(message, GetOr(fields, "sig1"), publicKeyHex));
    Checked(body, pid, Get(fields, "selector"), Get(fields, "time"),
            lib.PidMatchesKey(pid, publicKeyHex), Get(fields, "hash") == Some(bodyHash),
            lib.verify(body, GetOr(fields, "sig"), publicKeyHex), envelope)
  }

  function Verified(lib: Library, text: string): Verdict {
    var at := Find(text, MARKER);
    if at < 0 then Unsigned
    else Judge(lib, text[..at], ReadFields(map[], SplitLines(text[at + |MARKER|..])))
  }

  /** verify_response_block. */
  method VerifyResponseBlock(lib: Library, text: string) returns (v: Verdict)
    ensures v == Verified(lib, text)
  {
    hide Strip, AddLine, SplitLines, Judge, MARKER, SIG_END;
    var at := Find(text, MARKER);
    if at < 0 {
      return Unsigned;
    }
    var lines := SplitLines(text[at + |MARKER|..]);
    var fields: Fields := map[];
    var i := 0;
    while i < |lines| && Strip(lines[i]) != SIG_END
      invariant 0 <= i <= |lines|
      invariant ReadFields(map[], lines) == ReadFields(fields, lines[i..])
    {
      fields := AddLine(fields, lines[i]);
      assert lines[i..][1..] == lines[i + 1..];
      i := i + 1;
    }
    return Judge(lib, text[..at], fields);
  }

  // ----- a served response verifies

  lemma MarkerStart()
    ensures MARKER != "" && MARKER[0] == '\r' && '\r' !in MARKER[1..] && '\r' !in SIG_BEGIN
  {
  }

  /** The first marker of a response is the trailer's own exactly when the body has none. */
  lemma MarkerAtBodyEnd(body: string, rest: string)
    ensures var at := Find(body + MARKER + rest, MARKER);
      if Contains(body, MARKER) then 0 <= at < |body| else at == |body|
  {
    hide Find, Contains, MARKER;
    MarkerStart();
    assert body + "" + MARKER + rest == body + MARKER + rest && "" + MARKER == MARKER;
    FindAfter(body, "", MARKER, rest);
  }

  lemma {:induction false} RStripKeepsFirst(t: string)
    requires t != "" && !IsSpace(t[0])
    ensures RStrip(t) != "" && RStrip(t)[0] == t[0]
  {
    hide IsSpace;
    if IsSpace(t[|t| - 1]) {
      RStripKeepsFirst(t[..|t| - 1]);
    }
  }

  /** A field's name as the trailer writes it. */
  predicate IsName(name: string) {
    name != "" && Trimmed(name) && name[0] != '-' && ':' !in name && OneLine(name)
  }

  lemma Names(i: nat)
    requires i < |NAMES|
    ensures IsName(NAMES[i])
  {
  }

  lemma NamesDiffer(i: nat, j: nat)
    requires i < j < |NAMES|
    ensures NAMES[i] != NAMES[j]
  {
    assert NAMES[i][0] != NAMES[j][0] || |NAMES[i]| != |NAMES[j]|;
  }

  lemma NameEnds(name: string, value: string)
    requires ':' !in name
    ensures Find(name + ":" + value, ":") == |name|
  {
    hide Find;
    var line := name + ":" + value;
    OccursAt(name, ":", value);
    var at := Find(line, ":");
    assert forall i :: 0 <= i < |name| ==> line[i] == name[i] && name[i] in name;
    assert line[at..at + 1] == [line[at]];
  }

  lemma ValueKept(value: string)
    requires OneLine(value)
    ensures RStripCR(value) == value
  {
    hide IsLineBreak;
    if value != "" {
      assert value[|value| - 1] in value;
      BreakCharacters();
    }
  }

  lemma NotTheEnd(name: string, value: string)
    requires IsName(name)
    ensures Strip(name + ":" + value) != SIG_END
  {
    hide IsSpace, OneLine;
    var line := name + ":" + value;
    assert line[0] == name[0];
    RStripKeepsFirst(line);
  }

  /** A line "name:value" sets the field name to value. */
  lemma ReadNamed(fields: Fields, name: string, value: string, rest: seq<string>)
    requires IsName(name) && OneLine(value)
    ensures ReadFields(fields, [name + ":" + value] + rest) == ReadFields(fields[name := value], rest)
  {
    hide IsSpace, Find, Strip, RStripCR, OneLine, SIG_END;
    var line := name + ":" + value;
    NotTheEnd(name, value);
    NameEnds(name, value);
    assert line[..|name|] == name && line[|name| + 1..] == value;
    StripTrimmed(name);
    ValueKept(value);
    assert ([line] + rest)[1..] == rest;
  }

  lemma ReadBlank(fields: Fields, rest: seq<string>)
    ensures ReadFields(fields, [""] + rest) == ReadFields(fields, rest)
  {
    assert ([""] + rest)[1..] == rest;
  }

  lemma ReadEnd(fields: Fields)
    ensures ReadFields(fields, [SIG_END]) == fields
  {
    StripTrimmed(SIG_END);
  }

  /** fields with names set to values, the last setting first in effect. */
  function SetAll(fields: Fields, names: seq<string>, values: seq<string>): Fields
    requires |names| == |values|
    decreases |names|
  {
    if names == [] then fields else SetAll(fields[names[0] := values[0]], names[1..], values[1..])
  }

  lemma {:induction false} ReadNamedLines(fields: Fields, names: seq<string>, values: seq<string>)
    requires |names| == |values|
    requires forall i :: 0 <= i < |names| ==> IsName(names[i]) && OneLine(values[i])
    ensures ReadFields(fields, NamedLines(names, values) + [SIG_END]) == SetAll(fields, names, values)
    decreases |names|
  {
    hide ReadFields, OneLine, IsName;
    if names == [] {
      assert NamedLines(names, values) + [SIG_END] == [SIG_END];
      ReadEnd(fields);
    } else {
      var rest := NamedLines(names[1..], values[1..]) + [SIG_END];
      assert NamedLines(names, values) + [SIG_END] == [names[0] + ":" + values[0]] + rest;
      ReadNamed(fields, names[0], values[0], rest);
      ReadNamedLines(fields[names[0] := values[0]], names[1..], values[1..]);
    }
  }

  lemma {:induction false} SetAllGet(fields: Fields, names: seq<string>, values: seq<string>, name: string)
    requires |names| == |values|
    requires forall i, j :: 0 <= i < j < |names| ==> names[i] != names[j]
    ensures forall i :: 0 <= i < |names| && names[i] == name ==>
      name in SetAll(fields, names, values) && SetAll(fields, names, values)[name] == values[i]
    ensures name !in names && name in fields ==>
      name in SetAll(fields, names, values) && SetAll(fields, names, values)[name] == fields[name]
    decreases |names|
  {
    if names != [] {
      SetAllGet(fields[names[0] := values[0]], names[1..], values[1..], name);
    }
  }

  /** Reading the trailer's lines finds each field's value under its name. */
  lemma ReadTrailer(values: seq<string>, i: nat)
    requires |values| == |NAMES| && i < |NAMES|
    requires forall j :: 0 <= j < |values| ==> OneLine(values[j])
    ensures var fields := ReadFields(map[], [""] + NamedLines(NAMES, values) + [SIG_END]);
      Get(fields, NAMES[i]) == Some(values[i])
  {
    hide OneLine, IsName, ReadFields, NAMES, NamedLines, SetAll;
    var lines := NamedLines(NAMES, values) + [SIG_END];
    forall j | 0 <= j < |NAMES|
      ensures IsName(NAMES[j])
    {
      Names(j);
    }
    forall j, k | 0 <= j < k < |NAMES|
      ensures NAMES[j] != NAMES[k]
    {
      NamesDiffer(j, k);
    }
    assert [""] + NamedLines(NAMES, values) + [SIG_END] == [""] + lines;
    ReadBlank(map[], lines);
    ReadNamedLines(map[], NAMES, values);
    SetAllGet(map[], NAMES, values, NAMES[i]);
  }

  lemma PrintIntOneLine(n: int)
    ensures OneLine(PrintInt(n))
  {
    forall c | c in PrintInt(n)
      ensures !IsLineBreak(c)
    {
      assert c == '-' || IsDigit(c);
    }
  }

  /** What a Pillar sends for a body: the body and its trailer. */
  function Served(lib: Library, body: string, key: string, selector: string, time: int): string
    requires lib.keyHash(lib.publicKey(key)).Some?
  {
    body + Trailer(lib, body, key, lib.keyHash(lib.publicKey(key)).value, lib.publicKey(key), selector, time)
  }

  lemma ValuesOneLine(lib: Library, body: string, key: string, pid: string, selector: string, time: int)
    requires lib.Ideal() && OneLine(selector) && OneLine(pid)
    ensures var values := TrailerValues(lib, body, key, pid, lib.publicKey(key), selector, time);
      forall i :: 0 <= i < |values| ==> OneLine(values[i])
  {
    hide Preimage, PrintInt, IsLineBreak;
    PrintIntOneLine(time);
    assert OneLine("1") by {
      DigitOneIsNoBreak();
    }
  }

  lemma DigitOneIsNoBreak()
    ensures !IsLineBreak('1') && !IsLineBreak(':') && OneLine("") && OneLine(SIG_END)
  {
  }

  lemma LinesOneLine(values: seq<string>, lines: seq<string>)
    requires |values| == |NAMES| && forall i :: 0 <= i < |values| ==> OneLine(values[i])
    requires lines == [""] + NamedLines(NAMES, values) + [SIG_END]
    ensures forall i :: 0 <= i < |lines| ==> OneLine(lines[i])
  {
    hide IsLineBreak, NAMES, NamedLines;
    DigitOneIsNoBreak();
    forall i | 0 <= i < |NAMES|
      ensures OneLine(NamedLines(NAMES, values)[i])
    {
      Names(i);
    }
  }

  /** The verdict on the fields of a trailer made by the key's holder. */
  lemma JudgeTrailer(lib: Library, body: string, fields: Fields, key: string, selector: string, time: int)
    requires lib.Ideal()
    requires forall i: nat :: i < |NAMES| ==> Get(fields, NAMES[i]) == Some(
      TrailerValues(lib, body, key, lib.keyHash(lib.publicKey(key)).value, lib.publicKey(key), selector, time)[i])
    ensures Judge(lib, body, fields) ==
            Checked(body, lib.keyHash(lib.publicKey(key)).value, Some(selector), Some(PrintInt(time)),
                    true, true, true, Some(true))
  {
    hide Preimage, PrintInt;
    assert NAMES[0] == "pid" && NAMES[1] == "pubkey" && NAMES[2] == "sig" && NAMES[3] == "hash";
    assert NAMES[4] == "v" && NAMES[5] == "selector" && NAMES[6] == "time" && NAMES[7] == "sig1";
  }

  /** A served response verifies, and the verifier reads back its body, PID, selector and time. */
  lemma ServedVerifies(lib: Library, body: string, key: string, selector: string, time: int)
    requires lib.Ideal() && OneLine(selector) && !Contains(body, MARKER)
    ensures Verified(lib, Served(lib, body, key, selector, time)) ==
            Checked(body, lib.keyHash(lib.publicKey(key)).value, Some(selector), Some(PrintInt(time)),
                    true, true, true, Some(true))
  {
    hide ReadFields, NamedLines, OneLine, PrintInt, Preimage, Unlines, SplitLines, Find, Contains, MARKER,
         SIG_END, Judge;
    var publicKeyHex := lib.publicKey(key);
    var pid := lib.keyHash(publicKeyHex).value;
    var values := TrailerValues(lib, body, key, pid, publicKeyHex, selector, time);
    var lines := [""] + NamedLines(NAMES, values) + [SIG_END];
    var text := Served(lib, body, key, selector, time);
    ValuesOneLine(lib, body, key, pid, selector, time);
    LinesOneLine(values, lines);
    assert text == body + MARKER + Unlines(lines);
    MarkerAtBodyEnd(body, Unlines(lines));
    assert text[..|body|] == body && text[|body| + |MARKER|..] == Unlines(lines);
    SplitUnlines(lines);
    forall i: nat | i < |NAMES|
      ensures Get(ReadFields(map[], lines), NAMES[i]) == Some(values[i])
    {
      ReadTrailer(values, i);
    }
    JudgeTrailer(lib, body, ReadFields(map[], lines), key, selector, time);
  }

  // ----- the JSON body of a response

  /** parse_signed_json up to json.loads: the body without trailer and terminator. */
  function JsonBody(text: string): string {
    var at := Find(text, SIG_BEGIN);
    Unterminated(RStrip(if at >= 0 then text[..at] else text))
  }

  /** A response without its terminator. */
  function Unterminated(body: string): string {
    if EndsWith(body, "\r\n.") then body[..|body| - 3]
    else if EndsWith(body, "\n.") then body[..|body| - 2]
    else if EndsWith(body, ".") then body[..|body| - 1]
    else body
  }

  lemma {:induction false} RStripShortens(t: string)
    ensures |RStrip(t)| <= |t|
  {
    if t != "" && IsSpace(t[|t| - 1]) {
      RStripShortens(t[..|t| - 1]);
    }
  }

  const TERMINATOR := "\r\n.\r\n"

  lemma FirstBeginMark(doc: string, rest: string)
    ensures var at := Find(doc + TERMINATOR + "\r\n" + SIG_BEGIN + rest, SIG_BEGIN);
      if Contains(doc, SIG_BEGIN) then 0 <= at < |doc| else at == |doc| + 7
  {
    hide Find, Contains, SIG_BEGIN;
    MarkerStart();
    var gap := TERMINATOR + "\r\n";
    BeginStart();
    assert (gap + SIG_BEGIN)[0] == '\r';
    assert doc + gap + SIG_BEGIN + rest == doc + TERMINATOR + "\r\n" + SIG_BEGIN + rest;
    FindAfter(doc, gap, SIG_BEGIN, rest);
  }

  lemma BeginStart()
    ensures SIG_BEGIN != "" && SIG_BEGIN[0] == '-' && '-' !in TERMINATOR + "\r\n"
    ensures '\r' !in SIG_BEGIN[1..]
  {
    MarkerStart();
    assert forall c :: c in SIG_BEGIN[1..] ==> c in SIG_BEGIN;
    assert TERMINATOR + "\r\n" == ['\r', '\n', '.', '\r', '\n', '\r', '\n'];
  }

  lemma StripTerminator(doc: string)
    ensures RStrip(doc + TERMINATOR + "\r\n") == doc + "\r\n."
  {
    var text := doc + "\r\n.";
    assert doc + TERMINATOR + "\r\n" == text + "\r\n\r\n";
    RStripAppended(text, "\r\n\r\n");
    assert !IsSpace(text[|text| - 1]);
  }

  /**
   A document served with its terminator and a trailer is recovered exactly
   when it does not itself contain the trailer's first line.
   */
  lemma JsonBodyRecovers(doc: string, rest: string)
    ensures JsonBody(doc + TERMINATOR + MARKER + rest) == doc <==> !Contains(doc, SIG_BEGIN)
  {
    hide Find, RStrip, Contains, SIG_BEGIN, TERMINATOR;
    var text := doc + TERMINATOR + MARKER + rest;
    assert text == doc + TERMINATOR + "\r\n" + SIG_BEGIN + rest;
    FirstBeginMark(doc, rest);
    if Contains(doc, SIG_BEGIN) {
      RStripShortens(text[..Find(text, SIG_BEGIN)]);
    } else {
      assert text[..|doc| + 7] == doc + TERMINATOR + "\r\n" by {
        assert |TERMINATOR + "\r\n"| == 7 by {
          TerminatorLength();
        }
      }
      StripTerminator(doc);
      var body := doc + "\r\n.";
      assert body[|body| - 3..] == "\r\n.";
      assert body[..|body| - 3] == doc;
    }
  }

  lemma TerminatorLength()
    ensures |TERMINATOR| == 5
  {
  }

  /** parse_signed_json, for bodies in printed form; None where it raises. */
  function ReadDocument(text: string): Option<Json> {
    match ParseValue(JsonBody(text))
    case Done(v, "") => Some(v)
    case _ => None
  }

  /** A printed document is read back from its served form when its text does not contain the begin line. */
  lemma DocumentRecovers(v: Json, rest: string)
    requires !Contains(Print(v), SIG_BEGIN)
    ensures ReadDocument(Print(v) + TERMINATOR + MARKER + rest) == Some(v)
  {
    hide Contains, ParseValue, Print, JsonBody;
    JsonBodyRecovers(Print(v), rest);
    ParsePrint(v, "");
    assert Print(v) + "" == Print(v);
  }
}
