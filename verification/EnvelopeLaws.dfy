/**
 What a signature trailer says, when one is accepted, and what it takes to
 alter a served response unnoticed (crypto/signing.py).
 */
module EnvelopeLaws {
  import opened Wrappers
  import opened PythonText
  import opened JsonText
  import opened Envelopes
  import opened Gopherholes

  // ----- texts

  /** What the envelope signature of a response is made over. */
  lemma ResponsePreimage(pid: string, selector: string, time: int, bodyHash: string)
    ensures Preimage(RESPONSE, EnvelopeFields(pid, selector, time, bodyHash))
            == "REFINET-RESPONSE-v1" + pid + "\n" + selector + "\n" + PrintInt(time) + "\n" + bodyHash
  {
    FourFields("REFINET-RESPONSE-v1", pid, selector, PrintInt(time), bodyHash);
  }

  /** A domain and four fields. */
  lemma FourFields(domain: string, a: string, b: string, c: string, d: string)
    ensures Preimage(domain, [a, b, c, d]) == domain + a + "\n" + b + "\n" + c + "\n" + d
  {
    Joined(a, b, c, d);
  }

  lemma Joined(a: string, b: string, c: string, d: string)
    ensures Join([a, b, c, d]) == a + "\n" + b + "\n" + c + "\n" + d
  {
    assert [a, b, c, d][1..] == [b, c, d] && [b, c, d][1..] == [c, d] && [c, d][1..] == [d];
    assert Join([c, d]) == c + "\n" + d;
    assert Join([b, c, d]) == b + "\n" + Join([c, d]);
    assert Join([a, b, c, d]) == a + "\n" + Join([b, c, d]);
  }

  /** The trailer's lines for the given values. */
  function Lines(values: seq<string>): (lines: seq<string>)
    requires |values| == 8
  {
    [""] + NamedLines(NAMES, values) + [SIG_END]
  }

  /** A trailer's lines. */
  lemma TrailerLines(values: seq<string>)
    requires |values| == 8
    ensures Lines(values) == [
      "", "pid:" + values[0], "pubkey:" + values[1], "sig:" + values[2], "hash:" + values[3], "v:" + values[4],
      "selector:" + values[5], "time:" + values[6], "sig1:" + values[7], "---END REFINET SIGNATURE---"]
  {
    hide NamedLines, SIG_END;
    assert SIG_END == "---END REFINET SIGNATURE---" by {
      EndIs();
    }
    var n := NAMES;
    assert n[0] == "pid" && n[1] == "pubkey" && n[2] == "sig" && n[3] == "hash";
    assert n[4] == "v" && n[5] == "selector" && n[6] == "time" && n[7] == "sig1";
    assert n[0] + ":" == "pid:" && n[1] + ":" == "pubkey:" && n[2] + ":" == "sig:" && n[3] + ":" == "hash:";
    assert n[4] + ":" == "v:" && n[5] + ":" == "selector:" && n[6] + ":" == "time:" && n[7] + ":" == "sig1:";
  }

  lemma EndIs()
    ensures SIG_END == "---END REFINET SIGNATURE---"
  {
  }

  /** Each line ends in "\r\n". */
  lemma UnlinesMeans(line: string, rest: seq<string>)
    ensures Unlines([]) == "" && Unlines([line] + rest) == line + "\r\n" + Unlines(rest)
  {
    assert ([line] + rest)[1..] == rest;
  }

  /** What a Pillar puts into the trailer of a body. */
  lemma ServedText(lib: Library, body: string, key: string, selector: string, time: int)
    requires lib.Ideal()
    ensures var publicKeyHex := lib.publicKey(key);
      var pid, bodyHash := lib.keyHash(publicKeyHex).value, lib.sha256(body);
      var envelope := "REFINET-RESPONSE-v1" + pid + "\n" + selector + "\n" + PrintInt(time) + "\n" + bodyHash;
      Served(lib, body, key, selector, time) == body + MARKER + Unlines(Lines([
        pid, publicKeyHex, lib.sign(key, body), bodyHash, "1", selector, PrintInt(time), lib.sign(key, envelope)]))
  {
    hide PrintInt, Unlines, NamedLines, MARKER;
    ResponsePreimage(lib.keyHash(lib.publicKey(key)).value, selector, time, lib.sha256(body));
  }

  // ----- reading

  /** A line with a colon sets the field named before its first colon; any other line sets none. */
  lemma AddLineMeans(fields: Fields, name: string, value: string, other: string)
    requires ':' !in name && ':' !in other
    ensures AddLine(fields, name + ":" + value) == fields[Strip(name) := RStripCR(value)]
    ensures AddLine(fields, other) == fields
  {
    hide Strip, RStripCR, Find;
    NameEnds(name, value);
    var line := name + ":" + value;
    assert line[..|name|] == name && line[|name| + 1..] == value;
    if Find(other, ":") >= 0 {
      ColonFound(other);
    }
  }

  lemma ColonFound(t: string)
    requires Find(t, ":") >= 0
    ensures ':' in t
  {
    var at := Find(t, ":");
    assert t[at..at + 1][0] == t[at];
  }

  /** Lines are read one after the other up to the end marker, whatever white space is around that. */
  lemma {:induction false} ReadFieldsMeans(fields: Fields, line: string, rest: seq<string>)
    ensures ReadFields(fields, []) == fields
    ensures Strip(line) == "---END REFINET SIGNATURE---" ==> ReadFields(fields, [line] + rest) == fields
    ensures Strip(line) != "---END REFINET SIGNATURE---" ==>
      ReadFields(fields, [line] + rest) == ReadFields(AddLine(fields, line), rest)
  {
    hide Strip, AddLine;
    assert ([line] + rest)[1..] == rest;
  }

  /** The fields that a text after the marker sets. */
  function FieldsOf(rest: string): Fields {
    ReadFields(map[], SplitLines(rest))
  }

  /**
   Each part of the verdict on a text whose first marker follows body. The text
   is valid exactly when the named key hashes to the PID, the hash is the body's,
   sig verifies on the body and, for version 1, the time is a number and sig1
   verifies on the PID, selector, time and hash, each under the named key.
   */
  lemma VerdictMeans(lib: Library, body: string, rest: string)
    requires !Contains(body, "\r\n---BEGIN REFINET SIGNATURE---")
    ensures var fields := FieldsOf(rest);
      var v := Verified(lib, body + "\r\n---BEGIN REFINET SIGNATURE---" + rest);
      var pid, publicKeyHex := GetOr(fields, "pid"), GetOr(fields, "pubkey");
      var time := lib.readInt(GetOr(fields, "time"));
      && v.Checked? && v.body == body && v.pid == pid
      && v.selector == Get(fields, "selector") && v.time == Get(fields, "time")
      && (v.pidValid <==> lib.keyHash(publicKeyHex) == Some(pid))
      && (v.hashValid <==> Get(fields, "hash") == Some(lib.sha256(body)))
      && (v.legacyValid <==> lib.verify(body, GetOr(fields, "sig"), publicKeyHex))
      && (v.envelopeValid.Some? <==> Get(fields, "v") == Some("1"))
      && (v.envelopeValid == Some(true) <==>
          && Get(fields, "v") == Some("1") && time.Some?
          && lib.verify("REFINET-RESPONSE-v1" + pid + "\n" + GetOr(fields, "selector") + "\n" + PrintInt(time.value)
                        + "\n" + lib.sha256(body), GetOr(fields, "sig1"), publicKeyHex))
      && (v.Valid() <==>
          && lib.keyHash(publicKeyHex) == Some(pid)
          && Get(fields, "hash") == Some(lib.sha256(body))
          && lib.verify(body, GetOr(fields, "sig"), publicKeyHex)
          && (Get(fields, "v") == Some("1") ==>
              && time.Some?
              && lib.verify("REFINET-RESPONSE-v1" + pid + "\n" + GetOr(fields, "selector") + "\n"
                            + PrintInt(time.value) + "\n" + lib.sha256(body), GetOr(fields, "sig1"), publicKeyHex)))
  {
    hide ReadFields, SplitLines, Find, Contains, PrintInt, Judge, MARKER;
    assert MARKER == "\r\n---BEGIN REFINET SIGNATURE---" by {
      MarkerIs();
    }
    var text := body + MARKER + rest;
    MarkerAtBodyEnd(body, rest);
    assert text[..|body|] == body && text[|body| + |MARKER|..] == rest;
    assert Verified(lib, text) == Judge(lib, body, FieldsOf(rest));
    JudgeMeans(lib, body, FieldsOf(rest));
  }

  lemma JudgeMeans(lib: Library, body: string, fields: Fields)
    ensures var v, pid, publicKeyHex := Judge(lib, body, fields), GetOr(fields, "pid"), GetOr(fields, "pubkey");
      var time := lib.readInt(GetOr(fields, "time"));
      && v.Checked? && v.body == body && v.pid == pid
      && v.selector == Get(fields, "selector") && v.time == Get(fields, "time")
      && (v.pidValid <==> lib.keyHash(publicKeyHex) == Some(pid))
      && (v.hashValid <==> Get(fields, "hash") == Some(lib.sha256(body)))
      && (v.legacyValid <==> lib.verify(body, GetOr(fields, "sig"), publicKeyHex))
      && (v.envelopeValid.Some? <==> Get(fields, "v") == Some("1"))
      && (v.envelopeValid == Some(true) <==>
          && Get(fields, "v") == Some("1") && time.Some?
          && lib.verify("REFINET-RESPONSE-v1" + pid + "\n" + GetOr(fields, "selector") + "\n" + PrintInt(time.value)
                        + "\n" + lib.sha256(body), GetOr(fields, "sig1"), publicKeyHex))
    ensures var v := Judge(lib, body, fields);
      v.Valid() <==>
        v.pidValid && v.hashValid && v.legacyValid && (v.envelopeValid.Some? ==> v.envelopeValid == Some(true))
  {
    hide PrintInt, Preimage;
    var time := lib.readInt(GetOr(fields, "time"));
    if time.Some? {
      ResponsePreimage(GetOr(fields, "pid"), GetOr(fields, "selector"), time.value, lib.sha256(body));
    }
  }

  /** A text is unsigned exactly when it has no marker, and any other text is a body, the marker and a rest. */
  lemma SplitAtMarker(lib: Library, text: string) returns (body: string, rest: string)
    ensures Verified(lib, text) == Unsigned <==> !Contains(text, "\r\n---BEGIN REFINET SIGNATURE---")
    ensures Verified(lib, text) != Unsigned ==>
      && text == body + "\r\n---BEGIN REFINET SIGNATURE---" + rest
      && !Contains(body, "\r\n---BEGIN REFINET SIGNATURE---")
  {
    hide ReadFields, SplitLines, Find, MARKER;
    MarkerStart();
    assert MARKER == "\r\n---BEGIN REFINET SIGNATURE---" by {
      MarkerIs();
    }
    var at := Find(text, MARKER);
    body, rest := "", "";
    if at >= 0 {
      body, rest := text[..at], text[at + |MARKER|..];
      assert text == body + MARKER + rest;
      assert Occurs(text, MARKER, at);
      MarkerAtBodyEnd(body, rest);
    }
  }

  lemma MarkerIs()
    ensures MARKER == "\r\n---BEGIN REFINET SIGNATURE---"
  {
  }

  // ----- altered responses

  /** The fields of a trailer printed from one-line values. */
  lemma PrintedFields(values: seq<string>, i: nat)
    requires |values| == 8 && i < 8 && forall j :: 0 <= j < |values| ==> OneLine(values[j])
    ensures Get(FieldsOf(Unlines(Lines(values))),
                ["pid", "pubkey", "sig", "hash", "v", "selector", "time", "sig1"][i]) == Some(values[i])
  {
    hide OneLine, ReadFields, NamedLines, Unlines, SplitLines;
    LinesOneLine(values, Lines(values));
    SplitUnlines(Lines(values));
    ReadTrailer(values, i);
  }

  /**
   The signatures of a served response keep their force only with what they were
   made for: behind any body, with any PID, hash, version, selector and time in
   the trailer, the text is valid exactly when body, PID and hash are the
   original ones and, if the version is still 1, so are selector and time.
   */
  lemma AlteredIsRefused(
      lib: Library, key: string, body: string, selector: string, time: int,
      body': string, pid': string, bodyHash': string, version': string, selector': string, time': string)
    requires lib.Ideal() && OneMessage(lib) && !Contains(body', "\r\n---BEGIN REFINET SIGNATURE---")
    requires OneLine(selector) && OneLine(pid') && OneLine(bodyHash') && OneLine(version')
    requires OneLine(selector') && OneLine(time')
    ensures var publicKeyHex := lib.publicKey(key);
      var pid := lib.keyHash(publicKeyHex).value;
      var envelope :=
        "REFINET-RESPONSE-v1" + pid + "\n" + selector + "\n" + PrintInt(time) + "\n" + lib.sha256(body);
      var values := [
        pid', publicKeyHex, lib.sign(key, body), bodyHash', version', selector', time', lib.sign(key, envelope)];
      Verified(lib, body' + "\r\n---BEGIN REFINET SIGNATURE---" + Unlines(Lines(values))).Valid() <==>
        && body' == body && pid' == pid && bodyHash' == lib.sha256(body)
        && (version' == "1" ==> selector' == selector && lib.readInt(time') == Some(time))
  {
    hide OneLine, FieldsOf, Lines, Unlines, Verified, Contains, PrintInt, OneMessage;
    var publicKeyHex := lib.publicKey(key);
    var pid := lib.keyHash(publicKeyHex).value;
    var envelope := "REFINET-RESPONSE-v1" + pid + "\n" + selector + "\n" + PrintInt(time) + "\n" + lib.sha256(body);
    var sig, sig1 := lib.sign(key, body), lib.sign(key, envelope);
    var values := [pid', publicKeyHex, sig, bodyHash', version', selector', time', sig1];
    var rest := Unlines(Lines(values));
    var names := ["pid", "pubkey", "sig", "hash", "v", "selector", "time", "sig1"];
    forall i | 0 <= i < 8
      ensures Get(FieldsOf(rest), names[i]) == Some(values[i])
    {
      PrintedFields(values, i);
    }
    FieldsNamed(FieldsOf(rest), values);
    VerdictMeans(lib, body', rest);
    assert lib.verify(body, sig, publicKeyHex) && lib.verify(envelope, sig1, publicKeyHex);
    OnlyItsMessage(lib, body, body', sig, publicKeyHex);
    var read := lib.readInt(time');
    if read.Some? {
      var envelope' :=
        "REFINET-RESPONSE-v1" + pid' + "\n" + selector' + "\n" + PrintInt(read.value) + "\n" + lib.sha256(body');
      OnlyItsMessage(lib, envelope, envelope', sig1, publicKeyHex);
      if envelope == envelope' {
        EnvelopeInjective(lib, pid, selector, time, lib.sha256(body), pid', selector', read.value, lib.sha256(body'));
      }
    }
  }

  lemma OnlyItsMessage(lib: Library, message: string, message': string, signature: string, publicKeyHex: string)
    requires OneMessage(lib) && lib.verify(message, signature, publicKeyHex)
    ensures lib.verify(message', signature, publicKeyHex) <==> message' == message
  {
  }

  lemma FieldsNamed(fields: Fields, values: seq<string>)
    requires |values| == 8
    requires forall i :: 0 <= i < 8 ==>
      Get(fields, ["pid", "pubkey", "sig", "hash", "v", "selector", "time", "sig1"][i]) == Some(values[i])
    ensures Get(fields, "pid") == Some(values[0]) && Get(fields, "pubkey") == Some(values[1])
    ensures Get(fields, "sig") == Some(values[2]) && Get(fields, "hash") == Some(values[3])
    ensures Get(fields, "v") == Some(values[4]) && Get(fields, "selector") == Some(values[5])
    ensures Get(fields, "time") == Some(values[6]) && Get(fields, "sig1") == Some(values[7])
  {
    var names := ["pid", "pubkey", "sig", "hash", "v", "selector", "time", "sig1"];
    assert names[0] == "pid" && names[1] == "pubkey" && names[2] == "sig" && names[3] == "hash";
    assert names[4] == "v" && names[5] == "selector" && names[6] == "time" && names[7] == "sig1";
  }

  /** The statement that an envelope signs determines PID, selector, time and hash. */
  lemma EnvelopeInjective(
      lib: Library, pid: string, selector: string, time: int, bodyHash: string,
      pid': string, selector': string, time': int, bodyHash': string)
    requires lib.Ideal()
    requires OneLine(pid) && OneLine(selector) && OneLine(bodyHash)
    requires OneLine(pid') && OneLine(selector') && OneLine(bodyHash')
    requires "REFINET-RESPONSE-v1" + pid + "\n" + selector + "\n" + PrintInt(time) + "\n" + bodyHash
             == "REFINET-RESPONSE-v1" + pid' + "\n" + selector' + "\n" + PrintInt(time') + "\n" + bodyHash'
    ensures pid == pid' && selector == selector' && time == time' && bodyHash == bodyHash'
  {
    hide OneLine, PrintInt, Join;
    var f, g := EnvelopeFields(pid, selector, time, bodyHash), EnvelopeFields(pid', selector', time', bodyHash');
    ResponsePreimage(pid, selector, time, bodyHash);
    ResponsePreimage(pid', selector', time', bodyHash');
    assert Preimage(RESPONSE, f)[|RESPONSE|..] == Join(f) && Preimage(RESPONSE, g)[|RESPONSE|..] == Join(g);
    forall t | t in f || t in g
      ensures Lacks(t, '\n')
    {
      PrintIntOneLine(time);
      PrintIntOneLine(time');
      OneLineLacks(t);
    }
    JoinInjective(f, g);
    assert f[0] == g[0] && f[1] == g[1] && f[2] == g[2] && f[3] == g[3];
    assert lib.readInt(PrintInt(time)) == Some(time) && lib.readInt(PrintInt(time')) == Some(time');
  }

  lemma OneLineLacks(t: string)
    requires OneLine(t)
    ensures Lacks(t, '\n')
  {
    forall i | 0 <= i < |t|
      ensures t[i] != '\n'
    {
      assert t[i] in t;
    }
  }

  // ----- the JSON body

  /** The endings that a response's document is cut off at. */
  predicate IsEnding(doc: string, end: string) {
    || end == "\r\n."
    || (end == "\n." && !EndsWith(doc, "\r"))
    || (end == "." && !EndsWith(doc, "\n"))
    || (end == "" && (doc == "" || (!IsSpace(doc[|doc| - 1]) && doc[|doc| - 1] != '.')))
  }

  /** Of an unsigned response, the ending and the white space after it are not part of the document. */
  lemma JsonBodyMeans(doc: string, end: string, space: string)
    requires !Contains(doc + end + space, "---BEGIN REFINET SIGNATURE---") && forall c :: c in space ==> IsSpace(c)
    requires IsEnding(doc, end)
    ensures JsonBody(doc + end + space) == doc
  {
    hide IsSpace, Find, SIG_BEGIN, RStrip, Unterminated;
    assert SIG_BEGIN == "---BEGIN REFINET SIGNATURE---" by {
      BeginIs();
    }
    assert Find(doc + end + space, SIG_BEGIN) < 0;
    RStripAppended(doc + end, space);
    if end != "" {
      DotIsNoSpace();
      assert (doc + end)[|doc + end| - 1] == '.';
    } else {
      assert doc + end == doc;
    }
    NotStripped(doc + end);
    UnterminatedMeans(doc, end);
  }

  lemma BeginIs()
    ensures SIG_BEGIN == "---BEGIN REFINET SIGNATURE---"
  {
  }

  lemma NotStripped(t: string)
    requires t == "" || !IsSpace(t[|t| - 1])
    ensures RStrip(t) == t
  {
  }

  lemma DotIsNoSpace()
    ensures !IsSpace('.')
  {
  }

  lemma UnterminatedMeans(doc: string, end: string)
    requires IsEnding(doc, end)
    ensures Unterminated(doc + end) == doc
  {
    hide IsSpace, EndsWith, Unterminated;
    if end == "\r\n." {
      CutThree(doc);
    } else if end == "\n." {
      CutTwo(doc);
    } else if end == "." {
      CutOne(doc);
    } else {
      assert doc + end == doc;
      CutNone(doc);
    }
  }

  /** Where a text ends with another, their characters agree. */
  lemma EndMeans(t: string, pat: string, k: nat)
    requires EndsWith(t, pat) && k < |pat|
    ensures |pat| <= |t| && t[|t| - |pat| + k] == pat[k]
  {
    assert t[|t| - |pat|..][k] == pat[k];
  }

  lemma EndIsLast(t: string, c: char)
    ensures EndsWith(t, [c]) <==> t != "" && t[|t| - 1] == c
  {
    if t != "" {
      assert t[|t| - 1..] == [t[|t| - 1]];
    }
  }

  lemma CutThree(doc: string)
    ensures Unterminated(doc + "\r\n.") == doc
  {
    var body := doc + "\r\n.";
    assert body[|doc|..] == "\r\n." && body[..|doc|] == doc;
  }

  lemma CutTwo(doc: string)
    requires !EndsWith(doc, "\r")
    ensures Unterminated(doc + "\n.") == doc
  {
    hide EndsWith;
    var body := doc + "\n.";
    assert EndsWith(body, "\n.") && body[..|doc|] == doc by {
      EndAppended(doc, "\n.");
    }
    EndIsLast(doc, '\r');
    if EndsWith(body, "\r\n.") {
      EndMeans(body, "\r\n.", 0);
    }
  }

  lemma CutOne(doc: string)
    requires !EndsWith(doc, "\n")
    ensures Unterminated(doc + ".") == doc
  {
    hide EndsWith;
    var body := doc + ".";
    assert EndsWith(body, ".") && body[..|doc|] == doc by {
      EndAppended(doc, ".");
    }
    EndIsLast(doc, '\n');
    assert doc != "" ==> body[|doc| - 1] == doc[|doc| - 1];
    if EndsWith(body, "\n.") {
      EndMeans(body, "\n.", 0);
    }
    if EndsWith(body, "\r\n.") {
      EndMeans(body, "\r\n.", 1);
    }
  }

  lemma CutNone(doc: string)
    requires doc == "" || doc[|doc| - 1] != '.'
    ensures Unterminated(doc) == doc
  {
    hide EndsWith;
    EndIsLast(doc, '.');
    if EndsWith(doc, "\n.") {
      EndMeans(doc, "\n.", 1);
    }
    if EndsWith(doc, "\r\n.") {
      EndMeans(doc, "\r\n.", 2);
    }
  }

  lemma EndAppended(doc: string, end: string)
    ensures EndsWith(doc + end, end) && (doc + end)[..|doc|] == doc
  {
    assert (doc + end)[|doc|..] == end;
  }
}
