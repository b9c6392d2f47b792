/** EIP-4361 challenges: building them and reading them back (auth/siwe.py). */
module SiweMessages {
  import opened Wrappers
  import opened PythonText
  import opened JsonText

  /** The library calls: int(), datetime.isoformat() and datetime.fromisoformat(), on times in seconds. */
  datatype Clockwork = Clockwork(readInt: string -> Option<int>, iso: int -> string, fromIso: string -> Option<int>)
  {
    ghost predicate Ideal() {
      && (forall n :: readInt(PrintInt(n)) == Some(n))
      && (forall t :: Token(iso(t)) && fromIso(iso(t)) == Some(t))
    }
  }

  datatype Purpose = ForLogin | ForBinding

  const LOGIN_PREFIX := "Sign in to REFInet Pillar "
  const BINDING_PREFIX := "I bind this wallet to REFINET Pillar "
  const AS_ITS := " as its "
  const ROLES := ["deployer", "operator"]

  function PillarUri(pid: string): string {
    "refinet://pillar/" + pid
  }

  function LoginStatement(pid: string): string {
    LOGIN_PREFIX + pid
  }

  function BindingStatement(pid: string, role: string): string {
    BINDING_PREFIX + pid + AS_ITS + role
  }

  /** What a challenge says. */
  datatype Challenge = Challenge(authority: string, address: string, statement: string, pid: string,
                                 chainId: int, nonce: string, issuedAt: int, expiresAt: int)

  const WANTS := " wants you to sign in" + " with your Ethereum account:"

  function FirstLine(authority: string): string {
    authority + WANTS
  }

  /** The lines before the resources. */
  function Lines(c: Clockwork, m: Challenge): (lines: seq<string>)
    ensures |lines| == 11
  {
    [ FirstLine(m.authority), m.address, "", m.statement, "",
      "URI: " + PillarUri(m.pid), "Version: 1", "Chain ID: " + PrintInt(m.chainId), "Nonce: " + m.nonce,
      "Issued At: " + c.iso(m.issuedAt), "Expiration Time: " + c.iso(m.expiresAt) ]
  }

  function ResourceLines(resources: seq<string>): string {
    if resources == [] then "" else "\n- " + resources[0] + ResourceLines(resources[1..])
  }

  /** _build_message. */
  function Build(c: Clockwork, m: Challenge, resources: seq<string>): string {
    Join(Lines(c, m)) + (if resources == [] then "" else "\nResources:" + ResourceLines(resources))
  }

  // ----- the parsers

  /** The value of the first line with this label, the label removed. */
  function Field(lines: seq<string>, name: string): Option<string>
    requires name != ""
  {
    if lines == [] then None
    else if StartsWith(lines[0], name) then Some(Strip(Remove(lines[0], name)))
    else Field(lines[1..], name)
  }

  /** parse_nonce. */
  function ParseNonce(text: string): string {
    Field(SplitLines(text), "Nonce: ").GetOr("")
  }

  /** parse_expiry; None where it raises. */
  function ParseExpiry(c: Clockwork, text: string): Option<int> {
    match Field(SplitLines(text), "Expiration Time: ")
    case None => None
    case Some(value) => c.fromIso(value)
  }

  /** parse_chain_id. */
  function ParseChainId(c: Clockwork, text: string, default: int): int {
    match Field(SplitLines(text), "Chain ID: ")
    case None => default
    case Some(value) => c.readInt(value).GetOr(default)
  }

  function UriIn(lines: seq<string>): string {
    if lines == [] then ""
    else if StartsWith(lines[0], "URI:") then Strip(lines[0][4..])
    else UriIn(lines[1..])
  }

  /** parse_uri. */
  function ParseUri(text: string): string {
    UriIn(SplitLines(text))
  }

  predicate OpensFields(line: string) {
    StartsWith(line, "URI:") || StartsWith(line, "URI ")
  }

  /** The last line with more than white space, stripped. */
  function LastNonBlank(lines: seq<string>): string {
    if lines == [] then ""
    else
      var s := Strip(lines[|lines| - 1]);
      if s != "" then s else LastNonBlank(lines[..|lines| - 1])
  }

  /** The statement of the lines from i on, those before i holding no field. */
  function StatementIn(lines: seq<string>, i: nat): string
    requires i <= |lines|
    decreases |lines| - i
  {
    if i == |lines| then ""
    else if OpensFields(lines[i]) then LastNonBlank(lines[..i])
    else StatementIn(lines, i + 1)
  }

  /** parse_statement. */
  function ParseStatement(text: string): string {
    StatementIn(SplitLines(text), 0)
  }

  /** is_binding_message. */
  predicate IsBindingMessage(text: string) {
    StartsWith(ParseStatement(text), BINDING_PREFIX)
  }

  /** parse_binding_statement. */
  function ParseBinding(text: string): Option<(string, string)> {
    var statement := ParseStatement(text);
    if !StartsWith(statement, BINDING_PREFIX) then None
    else
      var rest := statement[|BINDING_PREFIX|..];
      var i := Find(rest, AS_ITS);
      if i < 0 then None
      else
        var pid, role := Strip(rest[..i]), Strip(rest[i + |AS_ITS|..]);
        if role in ROLES then Some((pid, role)) else None
  }

  /** message_names_pid. */
  predicate NamesPid(text: string, pid: string) {
    ParseUri(text) == PillarUri(pid)
  }

  // ----- labels

  const LABELS := ["URI:", "URI ", "Chain ID: ", "Nonce: ", "Expiration Time: "]

  predicate Unlabelled(line: string) {
    forall i :: 0 <= i < |LABELS| ==> !StartsWith(line, LABELS[i])
  }

  /** The authorities whose first line reads as a field. */
  const NEARLY_LABELS := ["URI", "Chain ID:", "Nonce:", "Expiration Time:"]

  lemma StartsWithAppended(a: string, b: string, name: string)
    requires |name| <= |a|
    ensures StartsWith(a + b, name) <==> StartsWith(a, name)
  {
    assert forall i :: 0 <= i < |name| ==> (a + b)[i] == a[i];
  }

  lemma NoW(i: nat)
    requires i < |LABELS|
    ensures LABELS[i] != "" && forall j :: 0 <= j < |LABELS[i]| ==> LABELS[i][j] != 'w'
  {
  }

  /** A label that ends after the authority ends at the space that follows it. */
  lemma LabelStraddles(a: string, tail: string, i: nat)
    requires i < |LABELS| && |a| < |LABELS[i]| <= |a + tail| && |tail| > 1 && tail[0] == ' ' && tail[1] == 'w'
    ensures StartsWith(a + tail, LABELS[i]) <==> a + " " == LABELS[i]
  {
    var name := LABELS[i];
    NoW(i);
    assert a + tail == (a + " ") + tail[1..];
    if StartsWith(a + tail, name) {
      assert forall k :: 0 <= k < |name| ==> name[k] == (a + tail)[k];
      assert (a + tail)[|a| + 1] == 'w';
      assert name == (a + tail)[..|a| + 1] == a + " ";
    }
  }

  lemma NearlyLabel(a: string)
    ensures (exists i :: 0 <= i < |LABELS| && a + " " == LABELS[i]) <==> a in NEARLY_LABELS
  {
    forall i | 0 <= i < |LABELS| && a + " " == LABELS[i]
      ensures a in NEARLY_LABELS
    {
      assert a == LABELS[i][..|LABELS[i]| - 1];
      assert LABELS[i] != "URI:" by {
        assert (a + " ")[|a|] == ' ';
      }
      assert LABELS[1][..3] == "URI" && LABELS[2][..9] == "Chain ID:";
      assert LABELS[3][..6] == "Nonce:" && LABELS[4][..16] == "Expiration Time:";
    }
    assert "URI" + " " == LABELS[1] && "Chain ID:" + " " == LABELS[2];
    assert "Nonce:" + " " == LABELS[3] && "Expiration Time:" + " " == LABELS[4];
    if a in NEARLY_LABELS {
      assert exists i :: 0 <= i < |LABELS| && a + " " == LABELS[i];
    }
  }

  lemma LabelsAreShort(i: nat)
    requires i < |LABELS|
    ensures 4 <= |LABELS[i]| <= 17
  {
  }

  lemma WantsFacts()
    ensures |WANTS| >= 17 && WANTS[0] == ' ' && WANTS[1] == 'w'
  {
  }

  /** When the first line does not read as a field. */
  lemma FirstLineUnlabelled(authority: string)
    ensures Unlabelled(FirstLine(authority)) <==> Unlabelled(authority) && authority !in NEARLY_LABELS
  {
    WantsFacts();
    NearlyLabel(authority);
    forall i | 0 <= i < |LABELS|
      ensures StartsWith(FirstLine(authority), LABELS[i]) <==>
        StartsWith(authority, LABELS[i]) || authority + " " == LABELS[i]
    {
      hide StartsWith, WANTS, LABELS;
      LabelsAreShort(i);
      if |LABELS[i]| <= |authority| {
        StartsWithAppended(authority, WANTS, LABELS[i]);
      } else {
        LabelStraddles(authority, WANTS, i);
      }
    }
  }

  // ----- reading a built message back

  /** The field at index i is found when no line before it has the label. */
  lemma {:induction false} FieldAt(lines: seq<string>, name: string, value: string, i: nat)
    requires i < |lines| && lines[i] == name + value
    requires forall j :: 0 <= j < i ==> !StartsWith(lines[j], name)
    requires name != "" && ' ' in name && Token(value)
    ensures Field(lines, name) == Some(value)
    decreases i
  {
    hide Remove, Token;
    if i == 0 {
      RemoveLabel(name, value);
      TokenFacts(value);
    } else {
      FieldAt(lines[1..], name, value, i - 1);
    }
  }

  lemma {:induction false} UriAt(lines: seq<string>, value: string, i: nat)
    requires i < |lines| && lines[i] == "URI: " + value && Token(value)
    requires forall j :: 0 <= j < i ==> !StartsWith(lines[j], "URI:")
    ensures UriIn(lines) == value
    decreases i
  {
    hide Token;
    if i == 0 {
      assert lines[0][4..] == " " + value;
      SpaceIsSpace();
      TokenFacts(value);
      assert (" " + value)[1..] == value;
      TrimmedAfterSpace(value);
    } else {
      UriAt(lines[1..], value, i - 1);
    }
  }

  lemma TrimmedAfterSpace(t: string)
    requires Trimmed(t)
    ensures Strip(" " + t) == t
  {
    SpaceIsSpace();
    StripTrimmed(t);
    assert (" " + t)[1..] == t;
    assert LStrip(" " + t) == LStrip(t);
  }

  lemma {:induction false} StatementAt(lines: seq<string>, i: nat, at: nat)
    requires i <= at < |lines| && OpensFields(lines[at])
    requires forall j :: i <= j < at ==> !OpensFields(lines[j])
    ensures StatementIn(lines, i) == LastNonBlank(lines[..at])
    decreases at - i
  {
    if i < at {
      StatementAt(lines, i + 1, at);
    }
  }

  lemma LastNonBlankBefore(lines: seq<string>, statement: string)
    requires statement != "" && Trimmed(statement)
    ensures LastNonBlank(lines + [statement, ""]) == statement
  {
    hide IsSpace;
    StripTrimmed(statement);
    StripTrimmed("");
    assert (lines + [statement, ""])[..|lines| + 1] == lines + [statement];
  }

  /** The parts of a challenge that a message can carry, whatever its authority and address. */
  ghost predicate Carried(m: Challenge) {
    && OneLine(m.authority) && OneLine(m.address) && OneLine(m.statement)
    && Unlabelled(m.statement) && m.statement != "" && Trimmed(m.statement)
    && Token(m.pid) && Token(m.nonce)
  }

  /** Nor does the first line or the address read as a field. */
  ghost predicate WellFormed(m: Challenge) {
    Carried(m) && Unlabelled(FirstLine(m.authority)) && Unlabelled(m.address)
  }

  lemma PrintIntToken(n: int)
    ensures Token(PrintInt(n))
  {
    forall c | c in PrintInt(n)
      ensures !IsSpace(c)
    {
      assert c == '-' || IsDigit(c);
    }
  }

  lemma OneLineAppended(a: string, b: string)
    requires OneLine(a) && OneLine(b)
    ensures OneLine(a + b)
  {
  }

  /** Printable ASCII. */
  predicate Printable(t: string) {
    forall i :: 0 <= i < |t| ==> ' ' <= t[i] <= '~'
  }

  lemma PrintableIsOneLine(t: string)
    requires Printable(t)
    ensures OneLine(t)
  {
  }

  lemma PrintableWants()
    ensures Printable("") && Printable(" wants you to sign in") && Printable(" with your Ethereum account:")
  {
  }

  lemma PrintableLabels()
    ensures Printable("URI: ") && Printable("Version: 1") && Printable("Chain ID: ") && Printable("Nonce: ")
    ensures Printable("Issued At: ") && Printable("Expiration Time: ")
  {
  }

  lemma UriIsToken()
    ensures Token("refinet://pillar/")
  {
    assert forall c :: '!' <= c <= '~' ==> !IsSpace(c);
    hide IsSpace;
  }

  lemma TokenField(name: string, value: string)
    requires Printable(name) && Token(value)
    ensures OneLine(name + value)
  {
    hide Token, OneLine, Printable;
    PrintableIsOneLine(name);
    TokenFacts(value);
    OneLineAppended(name, value);
  }

  lemma LinesOneLine(c: Clockwork, m: Challenge)
    requires c.Ideal() && Carried(m)
    ensures forall t :: t in Lines(c, m) ==> OneLine(t)
    ensures Token(PillarUri(m.pid)) && Token(PrintInt(m.chainId))
  {
    hide OneLine, Token, Unlabelled, PrintInt, Printable, Trimmed;
    PrintableWants();
    PrintableLabels();
    PrintableIsOneLine("");
    PrintableIsOneLine("Version: 1");
    PrintableIsOneLine(" wants you to sign in");
    PrintableIsOneLine(" with your Ethereum account:");
    OneLineAppended(" wants you to sign in", " with your Ethereum account:");
    OneLineAppended(m.authority, WANTS);
    UriIsToken();
    TokenAppended("refinet://pillar/", m.pid);
    TokenField("URI: ", PillarUri(m.pid));
    PrintIntToken(m.chainId);
    TokenField("Chain ID: ", PrintInt(m.chainId));
    TokenField("Nonce: ", m.nonce);
    TokenField("Issued At: ", c.iso(m.issuedAt));
    TokenField("Expiration Time: ", c.iso(m.expiresAt));
    forall t | t in Lines(c, m)
      ensures OneLine(t)
    {
      var i :| 0 <= i < 11 && Lines(c, m)[i] == t;
    }
  }

  lemma TokenAppended(a: string, b: string)
    requires Token(a) && Token(b)
    ensures Token(a + b)
  {
  }

  lemma BlankUnlabelled()
    ensures Unlabelled("")
  {
  }

  lemma UnlabelledMeans(t: string)
    requires Unlabelled(t)
    ensures !OpensFields(t) && !StartsWith(t, "URI:") && !StartsWith(t, "Chain ID: ")
    ensures !StartsWith(t, "Nonce: ") && !StartsWith(t, "Expiration Time: ")
  {
    assert LABELS[0] == "URI:" && LABELS[1] == "URI " && LABELS[2] == "Chain ID: ";
    assert LABELS[3] == "Nonce: " && LABELS[4] == "Expiration Time: ";
  }

  /** No line before the URI has a label. */
  lemma OpeningUnlabelled(c: Clockwork, m: Challenge, j: nat)
    requires WellFormed(m) && j < 5
    ensures Unlabelled(Lines(c, m)[j])
  {
    hide Unlabelled, FirstLine;
    BlankUnlabelled();
  }

  /** No line before a field has its label. */
  lemma FieldsInOrder(c: Clockwork, m: Challenge)
    requires WellFormed(m)
    ensures forall j :: 0 <= j < 5 ==> !OpensFields(Lines(c, m)[j]) && !StartsWith(Lines(c, m)[j], "URI:")
    ensures OpensFields(Lines(c, m)[5])
    ensures forall j :: 0 <= j < 7 ==> !StartsWith(Lines(c, m)[j], "Chain ID: ")
    ensures forall j :: 0 <= j < 8 ==> !StartsWith(Lines(c, m)[j], "Nonce: ")
    ensures forall j :: 0 <= j < 10 ==> !StartsWith(Lines(c, m)[j], "Expiration Time: ")
  {
    hide WellFormed, PrintInt, FirstLine, Unlabelled;
    var l := Lines(c, m);
    forall j | 0 <= j < 5
      ensures Unlabelled(l[j])
    {
      OpeningUnlabelled(c, m, j);
    }
    forall j | 0 <= j < 5
      ensures !OpensFields(l[j]) && !StartsWith(l[j], "URI:") && !StartsWith(l[j], "Chain ID: ")
      ensures !StartsWith(l[j], "Nonce: ") && !StartsWith(l[j], "Expiration Time: ")
    {
      UnlabelledMeans(l[j]);
    }
    assert l[5][0] == 'U' && l[6][0] == 'V' && l[7][0] == 'C' && l[8][0] == 'N' && l[9][0] == 'I';
    assert l[5][..4] == "URI:";
  }

  /**
   A built message is read back exactly, whatever text its resources carry,
   when neither its first line nor its address begins with a field label.
   */
  lemma BuiltReadsBack(c: Clockwork, m: Challenge, resources: seq<string>, default: int)
    requires c.Ideal() && WellFormed(m)
    ensures var text := Build(c, m, resources);
      && ParseNonce(text) == m.nonce && ParseChainId(c, text, default) == m.chainId
      && ParseUri(text) == PillarUri(m.pid) && ParseExpiry(c, text) == Some(m.expiresAt)
      && ParseStatement(text) == m.statement
  {
    hide OneLine, Token, Unlabelled, Trimmed, PrintInt, Field, Join, ResourceLines, FirstLine, OpensFields,
         StartsWith, UriIn, StatementIn, LastNonBlank, SplitLines;
    var lines, text := Lines(c, m), Build(c, m, resources);
    LinesOneLine(c, m);
    FieldsInOrder(c, m);
    var tail := if resources == [] then "" else "\nResources:" + ResourceLines(resources);
    SplitJoined(lines, tail);
    var all := SplitLines(text);
    assert forall j :: 0 <= j < 11 ==> all[j] == lines[j];
    FieldAt(all, "Chain ID: ", PrintInt(m.chainId), 7);
    FieldAt(all, "Nonce: ", m.nonce, 8);
    FieldAt(all, "Expiration Time: ", c.iso(m.expiresAt), 10);
    UriAt(all, PillarUri(m.pid), 5);
    StatementAt(all, 0, 5);
    assert all[..5] == lines[..5] == lines[..3] + [m.statement, ""];
    LastNonBlankBefore(lines[..3], m.statement);
  }

  // ----- exactly when a field is read back

  const NONCE := "Nonce: "
  const CHAIN := "Chain ID: "
  const EXPIRY := "Expiration Time: "

  lemma LabelsEnd()
    ensures EndsLikeLabel(NONCE) && EndsLikeLabel(CHAIN) && EndsLikeLabel(EXPIRY)
    ensures ' ' in NONCE && ' ' in CHAIN && ' ' in EXPIRY
  {
    assert NONCE[6] == ' ' && CHAIN[9] == ' ' && EXPIRY[16] == ' ';
  }

  /** What follows the first space of WANTS. */
  function Asking(): string {
    WANTS[1..]
  }

  lemma AskingFacts()
    ensures WANTS == " " + Asking() && Asking() != "" && ' ' in Asking()
    ensures Asking()[0] == 'w' && Asking()[|Asking()| - 1] == ':' && !IsSpace('w') && !IsSpace(':')
  {
    assert Asking() == "wants you to sign in" + " with your Ethereum account:";
    assert Asking()[5] == ' ';
  }

  lemma ColonlessParts(k: nat)
    ensures k < |"wants you to sign in"| ==> "wants you to sign in"[k] != ':'
    ensures k < |" with your Ethereum account"| ==> " with your Ethereum account"[k] != ':'
  {
  }

  lemma AskingParts()
    ensures Asking() == "wants you to sign in" + " with your Ethereum account" + ":"
  {
    assert Asking() == "wants you to sign in" + " with your Ethereum account:";
    assert " with your Ethereum account:" == " with your Ethereum account" + ":";
  }

  /** Its only colon comes last. */
  lemma AskingColon(k: nat)
    requires k + 1 < |Asking()|
    ensures Asking()[k] != ':'
  {
    hide Asking;
    var a, b := "wants you to sign in", " with your Ethereum account";
    AskingParts();
    ColonlessParts(if k < |a| then k else k - |a|);
    assert Asking()[k] == if k < |a| then a[k] else b[k - |a|];
  }

  lemma OccursInStart(t: string, tail: string, name: string, i: int)
    requires 0 <= i && i + |name| <= |t|
    ensures Occurs(t + tail, name, i) <==> Occurs(t, name, i)
  {
    assert t[i..i + |name|] == (t + tail)[i..i + |name|];
  }

  /** No occurrence of name in t and its tail ends in the tail. */
  ghost predicate StaysBefore(t: string, tail: string, name: string) {
    forall i :: 0 <= i && Occurs(t + tail, name, i) ==> i + |name| <= |t|
  }

  lemma SameFind(t: string, tail: string, name: string)
    requires StaysBefore(t, tail, name)
    ensures Find(t + tail, name) == Find(t, name)
  {
    hide Find, Occurs;
    var i, j := Find(t + tail, name), Find(t, name);
    if i >= 0 {
      OccursInStart(t, tail, name, i);
    }
    if j >= 0 {
      FitsIn(t, name, j);
      OccursInStart(t, tail, name, j);
    }
  }

  lemma FitsIn(t: string, name: string, i: int)
    requires Occurs(t, name, i)
    ensures 0 <= i && i + |name| <= |t|
  {
  }

  lemma StaysBeforeRest(t: string, tail: string, name: string, n: nat)
    requires StaysBefore(t, tail, name) && n <= |t|
    ensures StaysBefore(t[n..], tail, name) && (t + tail)[n..] == t[n..] + tail
  {
    var rest := t[n..];
    assert (t + tail)[n..] == rest + tail;
    forall k | 0 <= k && Occurs(rest + tail, name, k)
      ensures k + |name| <= |rest|
    {
      assert (t + tail)[n + k..n + k + |name|] == (rest + tail)[k..k + |name|];
      assert Occurs(t + tail, name, n + k);
    }
  }

  /** Removing a label that never ends in the tail keeps the tail. */
  lemma {:induction false} RemoveKeepsTail(t: string, tail: string, name: string)
    requires name != "" && StaysBefore(t, tail, name)
    ensures Remove(t + tail, name) == Remove(t, name) + tail
    decreases |t|
  {
    hide Find, Occurs, StaysBefore;
    SameFind(t, tail, name);
    var i := Find(t, name);
    if i >= 0 {
      FitsIn(t, name, i);
      var n := i + |name|;
      StaysBeforeRest(t, tail, name, n);
      RemoveKeepsTail(t[n..], tail, name);
      assert (t + tail)[..i] == t[..i];
    }
  }

  /** Stripping keeps a tail that neither begins nor ends with white space. */
  lemma {:induction false} StripKeepsTail(t: string, tail: string)
    requires tail != "" && !IsSpace(tail[0]) && !IsSpace(tail[|tail| - 1])
    ensures forall c :: c in tail ==> c in Strip(t + tail)
    decreases |t|
  {
    hide IsSpace;
    if t == "" {
      assert t + tail == tail;
    } else {
      assert (t + tail)[0] == t[0];
      if IsSpace(t[0]) {
        assert (t + tail)[1..] == t[1..] + tail;
        StripKeepsTail(t[1..], tail);
      } else {
        assert (t + tail)[|t + tail| - 1] == tail[|tail| - 1];
      }
    }
  }

  /** A label that ends with a colon and a space. */
  predicate EndsLikeLabel(name: string) {
    |name| >= 2 && name[|name| - 2] == ':' && name[|name| - 1] == ' '
  }

  /** Removed from the first line, such a label leaves all of what the line asks, words and spaces. */
  lemma FirstLineKept(authority: string, name: string)
    requires EndsLikeLabel(name)
    ensures 'w' in Strip(Remove(FirstLine(authority), name)) && !Token(Strip(Remove(FirstLine(authority), name)))
  {
    hide Remove, Strip, IsSpace, WANTS, Asking, Find;
    AskingFacts();
    var t := authority + " ";
    assert FirstLine(authority) == t + Asking();
    forall i | 0 <= i && Occurs(t + Asking(), name, i)
      ensures i + |name| <= |t|
    {
      LabelEnds(t + Asking(), name, i);
      var last := i + |name| - 1;
      if last > |t| {
        AskingColon(last - 1 - |t|);
      }
    }
    RemoveKeepsTail(t, Asking(), name);
    StripKeepsTail(Remove(t, name), Asking());
    SpaceIsSpace();
    assert Asking()[0] in Asking();
  }

  lemma LabelEnds(t: string, name: string, i: int)
    requires Occurs(t, name, i) && EndsLikeLabel(name)
    ensures 0 <= i && i + |name| <= |t| && t[i + |name| - 2] == ':' && t[i + |name| - 1] == ' '
  {
    assert t[i..i + |name|][|name| - 2] == t[i + |name| - 2] && t[i..i + |name|][|name| - 1] == t[i + |name| - 1];
  }

  /** A URI label in front of the first line leaves text with a space in it, too. */
  lemma FirstLineUri(authority: string)
    requires StartsWith(FirstLine(authority), "URI:")
    ensures !Token(Strip(FirstLine(authority)[4..]))
  {
    hide Strip, IsSpace, WANTS, Asking;
    AskingFacts();
    var t := authority + " ";
    var line := FirstLine(authority);
    assert line == t + Asking();
    assert forall k :: 0 <= k < 4 ==> line[k] == "URI:"[k];
    assert line[|t|] == 'w';
    assert line[4..] == t[4..] + Asking();
    StripKeepsTail(t[4..], Asking());
    SpaceIsSpace();
  }

  /** The lines that a built message is read from begin with its own. */
  lemma BuiltLines(c: Clockwork, m: Challenge, resources: seq<string>)
    requires c.Ideal() && Carried(m)
    ensures Lines(c, m) <= SplitLines(Build(c, m, resources)) && Token(PillarUri(m.pid))
  {
    hide OneLine, Token, Unlabelled, Trimmed, PrintInt, Join, ResourceLines, FirstLine, SplitLines, Carried;
    LinesOneLine(c, m);
    SplitJoined(Lines(c, m), if resources == [] then "" else "\nResources:" + ResourceLines(resources));
  }

  lemma LaterLines(c: Clockwork, m: Challenge)
    requires Carried(m)
    ensures Lines(c, m)[0] == FirstLine(m.authority) && Lines(c, m)[1] == m.address
    ensures forall j :: 2 <= j < 5 ==> !OpensFields(Lines(c, m)[j]) && !StartsWith(Lines(c, m)[j], "URI:")
    ensures OpensFields(Lines(c, m)[5]) && Lines(c, m)[5] == "URI: " + PillarUri(m.pid)
    ensures forall j :: 2 <= j < 8 ==> !StartsWith(Lines(c, m)[j], NONCE)
    ensures Lines(c, m)[8] == NONCE + m.nonce
    ensures forall j :: 2 <= j < 7 ==> !StartsWith(Lines(c, m)[j], CHAIN)
    ensures Lines(c, m)[7] == CHAIN + PrintInt(m.chainId)
    ensures forall j :: 2 <= j < 10 ==> !StartsWith(Lines(c, m)[j], EXPIRY)
    ensures Lines(c, m)[10] == EXPIRY + c.iso(m.expiresAt)
  {
    hide PrintInt, FirstLine, Unlabelled;
    var l := Lines(c, m);
    BlankUnlabelled();
    UnlabelledMeans("");
    UnlabelledMeans(m.statement);
    assert l[5][0] == 'U' && l[6][0] == 'V' && l[7][0] == 'C' && l[8][0] == 'N' && l[9][0] == 'I';
    assert l[5][..4] == "URI:";
  }

  /** int() and fromisoformat() refuse a text with words in it. */
  ghost predicate RefusesWords(c: Clockwork) {
    forall t :: 'w' in t ==> c.readInt(t) == None && c.fromIso(t) == None
  }

  /** The first field of a built message with the label: of its first line, its address or its own. */
  lemma FieldOfBuilt(c: Clockwork, m: Challenge, resources: seq<string>, name: string, value: string, at: nat)
    requires c.Ideal() && Carried(m) && EndsLikeLabel(name) && ' ' in name && Token(value) && 2 <= at < 11
    requires Lines(c, m)[at] == name + value && forall j :: 2 <= j < at ==> !StartsWith(Lines(c, m)[j], name)
    ensures Field(SplitLines(Build(c, m, resources)), name) == Some(
      if StartsWith(FirstLine(m.authority), name) then Strip(Remove(FirstLine(m.authority), name))
      else if StartsWith(m.address, name) then Strip(Remove(m.address, name))
      else value)
  {
    hide Build, SplitLines, Lines, FirstLine, StartsWith, Remove, Strip, Token, OpensFields, PillarUri;
    BuiltLines(c, m, resources);
    LaterLines(c, m);
    var l, all := Lines(c, m), SplitLines(Build(c, m, resources));
    assert forall j :: 0 <= j < 11 ==> all[j] == l[j];
    if StartsWith(l[0], name) {
    } else if StartsWith(l[1], name) {
      assert Field(all, name) == Field(all[1..], name);
    } else {
      FieldAt(all, name, value, at);
    }
  }

  /**
   The chain id is read back exactly when no earlier line has its label, but
   that a labelled first line gives the default, and a labelled address what it
   says.
   */
  lemma ChainIdReadsBackIff(c: Clockwork, m: Challenge, resources: seq<string>, default: int)
    requires c.Ideal() && RefusesWords(c) && Carried(m)
    ensures ParseChainId(c, Build(c, m, resources), default) == m.chainId <==>
      if StartsWith(FirstLine(m.authority), CHAIN) then default == m.chainId
      else StartsWith(m.address, CHAIN) ==> c.readInt(Strip(Remove(m.address, CHAIN))).GetOr(default) == m.chainId
  {
    hide Build, SplitLines, Lines, FirstLine, StartsWith, Remove, Strip, Token, OpensFields, PillarUri, Field, PrintInt;
    LabelsEnd();
    LaterLines(c, m);
    PrintIntToken(m.chainId);
    FirstLineKept(m.authority, CHAIN);
    FieldOfBuilt(c, m, resources, CHAIN, PrintInt(m.chainId), 7);
  }

  /** The expiry is read back exactly when no earlier line has its label, or the address has and says the same. */
  lemma ExpiryReadsBackIff(c: Clockwork, m: Challenge, resources: seq<string>)
    requires c.Ideal() && RefusesWords(c) && Carried(m)
    ensures ParseExpiry(c, Build(c, m, resources)) == Some(m.expiresAt) <==>
      && !StartsWith(FirstLine(m.authority), EXPIRY)
      && (StartsWith(m.address, EXPIRY) ==> c.fromIso(Strip(Remove(m.address, EXPIRY))) == Some(m.expiresAt))
  {
    hide Build, SplitLines, Lines, FirstLine, StartsWith, Remove, Strip, Token, OpensFields, PillarUri, Field;
    LabelsEnd();
    LaterLines(c, m);
    FirstLineKept(m.authority, EXPIRY);
    FieldOfBuilt(c, m, resources, EXPIRY, c.iso(m.expiresAt), 10);
  }

  /** The nonce is read back exactly when no earlier line has its label, or the address has and says the same. */
  lemma NonceReadsBackIff(c: Clockwork, m: Challenge, resources: seq<string>)
    requires c.Ideal() && Carried(m)
    ensures ParseNonce(Build(c, m, resources)) == m.nonce <==>
      && !StartsWith(FirstLine(m.authority), NONCE)
      && (StartsWith(m.address, NONCE) ==> Strip(Remove(m.address, NONCE)) == m.nonce)
  {
    hide Build, SplitLines, Lines, FirstLine, StartsWith, Remove, Strip, Token, OpensFields, PillarUri, Field;
    LabelsEnd();
    LaterLines(c, m);
    NonceIsToken(m);
    FirstLineKept(m.authority, NONCE);
    FieldOfBuilt(c, m, resources, NONCE, m.nonce, 8);
  }

  lemma NonceIsToken(m: Challenge)
    requires Carried(m)
    ensures Token(m.nonce)
  {
  }

  /** So is the URI. */
  lemma UriReadsBackIff(c: Clockwork, m: Challenge, resources: seq<string>)
    requires c.Ideal() && Carried(m)
    ensures NamesPid(Build(c, m, resources), m.pid) <==>
      && !StartsWith(FirstLine(m.authority), "URI:")
      && (StartsWith(m.address, "URI:") ==> Strip(m.address[4..]) == PillarUri(m.pid))
  {
    hide Build, SplitLines, Lines, FirstLine, Strip, Token, OpensFields, PillarUri;
    BuiltLines(c, m, resources);
    LaterLines(c, m);
    var l, all := Lines(c, m), SplitLines(Build(c, m, resources));
    assert forall j :: 0 <= j < 11 ==> all[j] == l[j];
    if StartsWith(l[0], "URI:") {
      FirstLineUri(m.authority);
    } else if StartsWith(l[1], "URI:") {
      assert UriIn(all) == UriIn(all[1..]);
    } else {
      UriAt(all, PillarUri(m.pid), 5);
    }
  }

  /** And the statement, unless the address opens the fields and the first line is the statement. */
  lemma StatementReadsBackIff(c: Clockwork, m: Challenge, resources: seq<string>)
    requires c.Ideal() && Carried(m)
    ensures ParseStatement(Build(c, m, resources)) == m.statement <==>
      && !OpensFields(FirstLine(m.authority))
      && (OpensFields(m.address) ==> Strip(FirstLine(m.authority)) == m.statement)
  {
    hide Build, SplitLines, Lines, FirstLine, Strip, Token, OpensFields, PillarUri, Unlabelled, Trimmed,
         OneLine;
    BuiltLines(c, m, resources);
    LaterLines(c, m);
    var l, all := Lines(c, m), SplitLines(Build(c, m, resources));
    assert forall j :: 0 <= j < 11 ==> all[j] == l[j];
    if OpensFields(l[0]) {
      StatementAt(all, 0, 0);
    } else if OpensFields(l[1]) {
      StatementAt(all, 0, 1);
      assert all[..1] == [l[0]];
      OnlyLine(l[0]);
    } else {
      StatementAt(all, 0, 5);
      assert all[..5] == l[..5] == l[..3] + [m.statement, ""] by {
        StatementLines(c, m);
      }
      LastNonBlankBefore(l[..3], m.statement);
    }
  }

  lemma OnlyLine(line: string)
    ensures LastNonBlank([line]) == Strip(line)
  {
    hide Strip;
    assert [line][..0] == [];
    assert LastNonBlank([]) == "";
  }

  lemma StatementLines(c: Clockwork, m: Challenge)
    ensures Lines(c, m)[..5] == Lines(c, m)[..3] + [m.statement, ""]
  {
  }

  lemma FirstLineSplits(lines: seq<string>, tail: string)
    requires |lines| >= 2 && OneLine(lines[0])
    ensures SplitLines(Join(lines) + tail) == [lines[0]] + SplitLines(Join(lines[1..]) + tail)
  {
    hide OneLine, SplitLines;
    assert Join(lines) + tail == lines[0] + "\n" + (Join(lines[1..]) + tail);
    SplitLF(lines[0], Join(lines[1..]) + tail);
  }

  lemma LinesFirst(c: Clockwork, m: Challenge)
    ensures Lines(c, m)[0] == FirstLine(m.authority)
  {
  }

  /** An authority whose first line opens the fields hides every statement. */
  lemma StatementHidden(c: Clockwork, m: Challenge, resources: seq<string>)
    requires OneLine(FirstLine(m.authority)) && OpensFields(FirstLine(m.authority))
    ensures ParseStatement(Build(c, m, resources)) == ""
  {
    hide OneLine, FirstLine, OpensFields, SplitLines, Lines, Join, ResourceLines;
    LinesFirst(c, m);
    FirstLineSplits(Lines(c, m), if resources == [] then "" else "\nResources:" + ResourceLines(resources));
    StatementAt(SplitLines(Build(c, m, resources)), 0, 0);
  }

  // ----- the two kinds of statement

  lemma LoginPrefix()
    ensures Printable(LOGIN_PREFIX) && LOGIN_PREFIX[0] == 'S' && !IsSpace('S')
  {
  }

  lemma BindingPrefix()
    ensures Printable(BINDING_PREFIX) && Printable(AS_ITS)
    ensures BINDING_PREFIX[0] == 'I' && AS_ITS[0] == ' ' && !IsSpace('I')
  {
  }

  lemma Roles(role: string)
    requires role in ROLES
    ensures Printable(role) && Trimmed(role) && role != ""
  {
  }

  lemma UnlabelledByFirst(t: string)
    requires t != "" && t[0] !in ['U', 'C', 'N', 'E']
    ensures Unlabelled(t)
  {
    assert forall i :: 0 <= i < |LABELS| ==> LABELS[i][0] in ['U', 'C', 'N', 'E'];
  }

  /** A challenge for this Pillar with this statement, as generate_challenge makes it. */
  ghost predicate Issued(m: Challenge) {
    && OneLine(m.authority) && OneLine(m.address)
    && Unlabelled(FirstLine(m.authority)) && Unlabelled(m.address)
    && Token(m.pid) && m.pid != "" && Token(m.nonce)
  }

  lemma BindingIsWellFormed(m: Challenge, role: string)
    requires Issued(m) && role in ROLES && m.statement == BindingStatement(m.pid, role)
    ensures WellFormed(m)
  {
    hide Unlabelled, IsSpace, Printable, OneLine, Token;
    BindingPrefix();
    Roles(role);
    PrintableIsOneLine(BINDING_PREFIX);
    PrintableIsOneLine(AS_ITS);
    PrintableIsOneLine(role);
    TokenFacts(m.pid);
    OneLineAppended(BINDING_PREFIX, m.pid);
    OneLineAppended(BINDING_PREFIX + m.pid, AS_ITS);
    OneLineAppended(BINDING_PREFIX + m.pid + AS_ITS, role);
    assert m.statement[0] == 'I' && m.statement[|m.statement| - 1] == role[|role| - 1];
    UnlabelledByFirst(m.statement);
  }

  lemma LoginIsWellFormed(m: Challenge)
    requires Issued(m) && m.statement == LoginStatement(m.pid)
    ensures WellFormed(m)
  {
    hide Unlabelled, IsSpace, Printable, OneLine, Token;
    LoginPrefix();
    PrintableIsOneLine(LOGIN_PREFIX);
    TokenFacts(m.pid);
    OneLineAppended(LOGIN_PREFIX, m.pid);
    assert m.statement[0] == 'S' && m.statement[|m.statement| - 1] == m.pid[|m.pid| - 1];
    UnlabelledByFirst(m.statement);
  }

  lemma FindAsIts(pid: string, role: string)
    requires Token(pid)
    ensures Find(pid + AS_ITS + role, AS_ITS) == |pid|
  {
    hide Find, IsSpace;
    var rest := pid + AS_ITS + role;
    OccursAt(pid, AS_ITS, role);
    SpaceIsSpace();
    var i := Find(rest, AS_ITS);
    assert rest[i..i + |AS_ITS|][0] == rest[i];
    assert rest[i] == ' ';
    forall k | 0 <= k < |pid|
      ensures rest[k] != ' '
    {
      assert rest[k] == pid[k];
      assert pid[k] in pid;
    }
  }

  /** A URI names one PID. */
  lemma NamesOnlyPid(text: string, pid: string, other: string)
    requires ParseUri(text) == PillarUri(pid)
    ensures NamesPid(text, other) <==> other == pid
  {
    hide ParseUri;
    assert PillarUri(pid)[17..] == pid && PillarUri(other)[17..] == other;
  }

  lemma PrefixDropped(a: string, b: string)
    ensures StartsWith(a + b, a) && (a + b)[|a|..] == b && (a + b)[..|a|] == a
  {
  }

  lemma ParsedBinding(text: string, pid: string, role: string)
    requires ParseStatement(text) == BindingStatement(pid, role) && Token(pid) && role in ROLES
    ensures ParseBinding(text) == Some((pid, role)) && IsBindingMessage(text)
  {
    hide ParseStatement, Find, Token, Printable, Strip, Trimmed, StartsWith, BINDING_PREFIX, AS_ITS, ROLES;
    FindAsIts(pid, role);
    TokenFacts(pid);
    Roles(role);
    StripTrimmed(role);
    var rest := pid + AS_ITS + role;
    assert BindingStatement(pid, role) == BINDING_PREFIX + rest;
    PrefixDropped(BINDING_PREFIX, rest);
    PrefixDropped(pid, AS_ITS + role);
    assert rest == pid + (AS_ITS + role);
    PrefixDropped(pid + AS_ITS, role);
  }

  /** A binding challenge is read back as this Pillar's binding, with its role, and nobody else's. */
  lemma BindingReadsBack(c: Clockwork, m: Challenge, role: string, resources: seq<string>, other: string)
    requires c.Ideal() && Issued(m) && role in ROLES && m.statement == BindingStatement(m.pid, role)
    ensures var text := Build(c, m, resources);
      && ParseBinding(text) == Some((m.pid, role)) && IsBindingMessage(text)
      && (NamesPid(text, other) <==> other == m.pid)
      && ParseNonce(text) == m.nonce && ParseExpiry(c, text) == Some(m.expiresAt)
      && ParseChainId(c, text, 1) == m.chainId
  {
    hide *;
    BindingIsWellFormed(m, role);
    BuiltReadsBack(c, m, resources, 1);
    NamesOnlyPid(Build(c, m, resources), m.pid, other);
    PidIsToken(m);
    ParsedBinding(Build(c, m, resources), m.pid, role);
  }

  lemma PidIsToken(m: Challenge)
    requires Issued(m)
    ensures Token(m.pid)
  {
  }

  /** A login challenge is read back as this Pillar's, and is not a binding. */
  lemma LoginReadsBack(c: Clockwork, m: Challenge, resources: seq<string>, other: string)
    requires c.Ideal() && Issued(m) && m.statement == LoginStatement(m.pid)
    ensures var text := Build(c, m, resources);
      && !IsBindingMessage(text) && ParseBinding(text) == None
      && (NamesPid(text, other) <==> other == m.pid)
      && ParseNonce(text) == m.nonce && ParseExpiry(c, text) == Some(m.expiresAt)
      && ParseChainId(c, text, 1) == m.chainId
  {
    hide Build, ParseNonce, ParseUri, ParseStatement, ParseExpiry, ParseChainId, Find, Token, IsSpace, Issued,
         WellFormed;
    LoginIsWellFormed(m);
    BuiltReadsBack(c, m, resources, 1);
    NamesOnlyPid(Build(c, m, resources), m.pid, other);
    LoginPrefix();
    BindingPrefix();
    assert m.statement[0] == 'S';
  }

  /** No text at all passes the statement gates of both a login and a binding. */
  lemma GatesDisjoint(text: string)
    ensures ParseBinding(text).Some? ==> IsBindingMessage(text)
  {
    hide ParseStatement;
  }
}
