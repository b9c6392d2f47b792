/** The text of a challenge, and which of a text's lines each reader goes by (auth/siwe.py). */
module SiweLaws {
  import opened Wrappers
  import opened PythonText
  import opened JsonText
  import opened SiweMessages

  // ----- building

  /** The lines that open a challenge. */
  lemma OpeningLines(c: Clockwork, m: Challenge)
    ensures Lines(c, m)[0] == FirstLine(m.authority)
    ensures FirstLine(m.authority) == m.authority + " wants you to sign in with your Ethereum account:"
    ensures Lines(c, m)[1..5] == [m.address, "", m.statement, ""]
  {
    hide WANTS, PrintInt, PillarUri;
    assert WANTS == " wants you to sign in with your Ethereum account:" by {
      WantsIs();
    }
  }

  /** The lines with its fields. */
  lemma FieldLines(c: Clockwork, m: Challenge)
    ensures Lines(c, m)[5] == "URI: " + ("refinet://pillar/" + m.pid) && Lines(c, m)[6] == "Version: 1"
    ensures Lines(c, m)[7] == "Chain ID: " + PrintInt(m.chainId) && Lines(c, m)[8] == "Nonce: " + m.nonce
    ensures Lines(c, m)[9] == "Issued At: " + c.iso(m.issuedAt)
    ensures Lines(c, m)[10] == "Expiration Time: " + c.iso(m.expiresAt)
  {
    hide PrintInt, FirstLine;
  }

  lemma WantsIs()
    ensures WANTS == " wants you to sign in with your Ethereum account:"
  {
  }

  /** The lines are joined by newlines, and resources follow as a list. */
  lemma BuildMeans(c: Clockwork, m: Challenge, resource: string, rest: seq<string>)
    ensures Build(c, m, []) == Join(Lines(c, m))
    ensures Build(c, m, [resource] + rest) == Join(Lines(c, m)) + "\nResources:" + Listed([resource] + rest)
    ensures Listed([]) == "" && Listed([resource] + rest) == "\n- " + resource + Listed(rest)
  {
    hide Join, Lines;
    assert ([resource] + rest)[1..] == rest;
    assert Join(Lines(c, m)) + "" == Join(Lines(c, m));
  }

  function Listed(resources: seq<string>): string {
    ResourceLines(resources)
  }

  lemma JoinMeans(line: string, rest: seq<string>)
    ensures Join([]) == "" && Join([line]) == line
    ensures rest != [] ==> Join([line] + rest) == line + "\n" + Join(rest)
  {
    assert ([line] + rest)[1..] == rest;
  }

  /** The statements of the two purposes, and the resource that names a Pillar. */
  lemma StatementsMean(pid: string, role: string)
    ensures LoginStatement(pid) == "Sign in to REFInet Pillar " + pid
    ensures BindingStatement(pid, role) == "I bind this wallet to REFINET Pillar " + pid + " as its " + role
    ensures PillarUri(pid) == "refinet://pillar/" + pid
    ensures role in ROLES <==> role == "deployer" || role == "operator"
  {
    assert ROLES[0] == "deployer" && ROLES[1] == "operator";
  }

  // ----- reading

  /** Line i is the first that starts with name. */
  predicate FirstWith(lines: seq<string>, name: string, i: int) {
    0 <= i < |lines| && name <= lines[i] && NoneWith(lines[..i], name)
  }

  predicate NoneWith(lines: seq<string>, name: string) {
    forall i :: 0 <= i < |lines| ==> !(name <= lines[i])
  }

  /** A field is what the first line with its label says besides the label. */
  lemma {:induction false} FieldMeans(lines: seq<string>, name: string, i: int)
    requires name != ""
    ensures NoneWith(lines, name) ==> SiweMessages.Field(lines, name) == None
    ensures FirstWith(lines, name, i) ==> SiweMessages.Field(lines, name) == Some(Strip(Remove(lines[i], name)))
  {
    hide Strip, Remove;
    if lines != [] && !(name <= lines[0]) {
      FieldMeans(lines[1..], name, i - 1);
      if FirstWith(lines, name, i) {
        assert lines[1..][..i - 1] == lines[..i][1..];
      }
    }
  }

  /** The nonce, the expiry and the chain are those of the first line with their label. */
  lemma ReadersMean(c: Clockwork, text: string, default: int, i: int)
    ensures var lines := SplitLines(text);
      && (NoneWith(lines, "Nonce: ") ==> ParseNonce(text) == "")
      && (FirstWith(lines, "Nonce: ", i) ==> ParseNonce(text) == Strip(Remove(lines[i], "Nonce: ")))
      && (NoneWith(lines, "Expiration Time: ") ==> ParseExpiry(c, text) == None)
      && (FirstWith(lines, "Expiration Time: ", i) ==>
            ParseExpiry(c, text) == c.fromIso(Strip(Remove(lines[i], "Expiration Time: "))))
      && (NoneWith(lines, "Chain ID: ") ==> ParseChainId(c, text, default) == default)
      && (FirstWith(lines, "Chain ID: ", i) ==>
            var read := c.readInt(Strip(Remove(lines[i], "Chain ID: ")));
            ParseChainId(c, text, default) == if read.Some? then read.value else default)
  {
    hide Strip, Remove, SiweMessages.Field, FirstWith, NoneWith, SplitLines;
    var lines := SplitLines(text);
    FieldMeans(lines, "Nonce: ", i);
    FieldMeans(lines, "Expiration Time: ", i);
    FieldMeans(lines, "Chain ID: ", i);
  }

  lemma {:induction false} UriInMeans(lines: seq<string>, i: int)
    ensures NoneWith(lines, "URI:") ==> UriIn(lines) == ""
    ensures FirstWith(lines, "URI:", i) ==> UriIn(lines) == Strip(lines[i][4..])
  {
    hide Strip;
    if lines != [] && !("URI:" <= lines[0]) {
      UriInMeans(lines[1..], i - 1);
      if FirstWith(lines, "URI:", i) {
        assert lines[1..][..i - 1] == lines[..i][1..];
      }
    }
  }

  /** A message names the Pillar that its first "URI:" line names, and none without one. */
  lemma NamesMeans(text: string, pid: string, i: int)
    ensures var lines := SplitLines(text);
      && (NoneWith(lines, "URI:") ==> !NamesPid(text, pid))
      && (FirstWith(lines, "URI:", i) ==> (NamesPid(text, pid) <==> Strip(lines[i][4..]) == "refinet://pillar/" + pid))
  {
    hide Strip, SplitLines, FirstWith, NoneWith, UriIn;
    UriInMeans(SplitLines(text), i);
    assert |PillarUri(pid)| >= 17;
  }

  /** No line before i opens the fields. */
  predicate NoFieldBefore(lines: seq<string>, i: int) {
    forall j :: 0 <= j < i && j < |lines| ==> !("URI:" <= lines[j]) && !("URI " <= lines[j])
  }

  /** Line i is the last before end with more than white space. */
  predicate LastText(lines: seq<string>, end: int, i: int) {
    0 <= i < end <= |lines| && Strip(lines[i]) != "" && BlankFrom(lines, i + 1, end)
  }

  predicate BlankFrom(lines: seq<string>, i: int, end: int) {
    forall j :: 0 <= i <= j < end && j < |lines| ==> Strip(lines[j]) == ""
  }

  /** The statement is the last line with text before the first one that starts with "URI:" or "URI ". */
  lemma StatementMeans(text: string, end: int, i: int)
    ensures var lines := SplitLines(text);
      && (NoFieldBefore(lines, |lines|) ==> ParseStatement(text) == "")
      && (0 <= end < |lines| && NoFieldBefore(lines, end) && ("URI:" <= lines[end] || "URI " <= lines[end]) ==>
            && (BlankFrom(lines, 0, end) ==> ParseStatement(text) == "")
            && (LastText(lines, end, i) ==> ParseStatement(text) == Strip(lines[i])))
  {
    hide SplitLines, Strip, LastNonBlank, LastText, BlankFrom;
    var lines := SplitLines(text);
    if NoFieldBefore(lines, |lines|) {
      NoStatement(lines, 0);
    } else if 0 <= end < |lines| && NoFieldBefore(lines, end) && ("URI:" <= lines[end] || "URI " <= lines[end]) {
      StatementAt(lines, 0, end);
      LastNonBlankMeans(lines, end, i);
    }
  }

  lemma {:induction false} NoStatement(lines: seq<string>, i: nat)
    requires i <= |lines| && NoFieldBefore(lines, |lines|)
    ensures StatementIn(lines, i) == ""
    decreases |lines| - i
  {
    if i < |lines| {
      NoStatement(lines, i + 1);
    }
  }

  lemma {:induction false} LastNonBlankMeans(lines: seq<string>, end: nat, i: int)
    requires end <= |lines|
    ensures BlankFrom(lines, 0, end) ==> LastNonBlank(lines[..end]) == ""
    ensures LastText(lines, end, i) ==> LastNonBlank(lines[..end]) == Strip(lines[i])
  {
    hide Strip;
    if end > 0 {
      assert lines[..end][..end - 1] == lines[..end - 1];
      LastNonBlankMeans(lines, end - 1, i);
    }
  }

  /** A binding message is one whose statement starts as binding statements do. */
  lemma IsBindingMeans(text: string)
    ensures IsBindingMessage(text) <==> "I bind this wallet to REFINET Pillar " <= ParseStatement(text)
    ensures !IsBindingMessage(text) ==> ParseBinding(text) == None
  {
    hide ParseStatement, Find, Strip;
  }

  /** It binds to the PID and role around the first " as its ", when the role is one of the two. */
  lemma BindingMeans(text: string, pid: string, role: string)
    requires ParseStatement(text) == "I bind this wallet to REFINET Pillar " + (pid + " as its " + role)
    requires Find(pid + " as its " + role, " as its ") == |pid|
    ensures ParseBinding(text) ==
      if Strip(role) == "deployer" || Strip(role) == "operator" then Some((Strip(pid), Strip(role))) else None
  {
    hide ParseStatement, Find, Strip, BINDING_PREFIX, AS_ITS, ROLES;
    assert BINDING_PREFIX == "I bind this wallet to REFINET Pillar " && AS_ITS == " as its " by {
      PrefixIs();
    }
    var rest := pid + " as its " + role;
    PrefixDropped(BINDING_PREFIX, rest);
    PrefixDropped(pid, AS_ITS + role);
    assert rest == pid + (AS_ITS + role);
    PrefixDropped(pid + AS_ITS, role);
    StatementsMean(pid, Strip(role));
  }

  lemma PrefixIs()
    ensures BINDING_PREFIX == "I bind this wallet to REFINET Pillar " && AS_ITS == " as its "
  {
  }

  /** Without " as its " it binds to nothing. */
  lemma NoRole(text: string, rest: string)
    requires ParseStatement(text) == "I bind this wallet to REFINET Pillar " + rest && Find(rest, " as its ") < 0
    ensures ParseBinding(text) == None
  {
    hide ParseStatement, Find, Strip, BINDING_PREFIX, AS_ITS;
    assert BINDING_PREFIX == "I bind this wallet to REFINET Pillar " && AS_ITS == " as its " by {
      PrefixIs();
    }
    PrefixDropped(BINDING_PREFIX, rest);
  }
}
