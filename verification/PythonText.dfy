/** The string operations of Python that the program's parsers are written with. */
module PythonText {

  // ----- searching

  /** pat stands at position i of t. */
  predicate Occurs(t: string, pat: string, i: int) {
    0 <= i <= i + |pat| <= |t| && t[i..i + |pat|] == pat
  }

  predicate Contains(t: string, pat: string) {
    exists i :: 0 <= i <= |t| && Occurs(t, pat, i)
  }

  /** t.find(pat): the first position of pat, or -1. */
  function Find(t: string, pat: string): (r: int)
    ensures -1 <= r
    ensures r >= 0 ==> Occurs(t, pat, r)
    ensures forall i :: 0 <= i && Occurs(t, pat, i) ==> 0 <= r <= i
    decreases |t|
  {
    if pat <= t then
      assert Occurs(t, pat, 0);
      0
    else if t == "" then -1
    else
      var r := Find(t[1..], pat);
      assert forall i :: 1 <= i && Occurs(t, pat, i) ==> Occurs(t[1..], pat, i - 1);
      assert !Occurs(t, pat, 0);
      if r < 0 then -1
      else
        assert t[1..][r..r + |pat|] == t[r + 1..r + 1 + |pat|];
        r + 1
  }

  /** An occurrence begun in t does not reach what follows it, when that is not inside pat. */
  lemma NoStraddle(t: string, next: char, rest: string, pat: string, i: int)
    requires pat != "" && next !in pat[1..] && Occurs(t + [next] + rest, pat, i) && i < |t|
    ensures Occurs(t, pat, i)
  {
    var text, k := t + [next] + rest, |t| - i;
    assert text[i + k] == next;
    assert forall j :: 0 <= j < |pat| ==> pat[j] == text[i..i + |pat|][j];
    assert forall j :: 1 <= j < |pat| ==> pat[1..][j - 1] == pat[j];
    assert |pat| <= k;
    assert text[i..i + |pat|] == t[i..i + |pat|];
  }

  lemma OccursInside(t: string, end: string, pat: string)
    requires Contains(t, pat)
    ensures exists i :: 0 <= i <= |t| && Occurs(t, pat, i) && Occurs(t + end, pat, i)
  {
    var i :| 0 <= i <= |t| && Occurs(t, pat, i);
    assert (t + end)[i..i + |pat|] == t[i..i + |pat|];
  }

  lemma FindFirst(t: string, end: string, pat: string)
    requires pat != "" && Contains(t, pat)
    ensures 0 <= Find(t + end, pat) < |t|
  {
    hide Find;
    OccursInside(t, end, pat);
  }

  lemma NotInGap(t: string, gap: string, pat: string, rest: string, i: int)
    requires pat != "" && pat[0] !in gap && Occurs(t + gap + pat + rest, pat, i)
    ensures !(|t| <= i < |t| + |gap|)
  {
    var text := t + gap + pat + rest;
    assert text[i..i + |pat|][0] == text[i];
    assert forall j :: |t| <= j < |t| + |gap| ==> text[j] in gap;
  }

  /**
   Searching for pat in t, gap, pat: t's own occurrences come first, and none
   straddles, when the gap avoids pat's first character and what follows t
   avoids its others.
   */
  lemma FindAfter(t: string, gap: string, pat: string, rest: string)
    requires pat != "" && pat[0] !in gap && (gap + pat)[0] !in pat[1..]
    ensures var at := Find(t + gap + pat + rest, pat);
      if Contains(t, pat) then 0 <= at < |t| else at == |t| + |gap|
  {
    hide Find, Occurs;
    var text, n := t + gap + pat + rest, |t| + |gap|;
    var next, end := (gap + pat)[0], (gap + pat)[1..] + rest;
    assert text == t + [next] + end == t + ([next] + end);
    assert Occurs(text, pat, n) by {
      OccursAt(t + gap, pat, rest);
    }
    var at := Find(text, pat);
    assert 0 <= at <= n && Occurs(text, pat, at);
    if Contains(t, pat) {
      FindFirst(t, [next] + end, pat);
    } else {
      NotInGap(t, gap, pat, rest, at);
      if at < |t| {
        NoStraddle(t, next, end, pat, at);
      }
    }
  }

  lemma OccursAt(t: string, pat: string, rest: string)
    ensures Occurs(t + pat + rest, pat, |t|)
  {
    assert (t + pat + rest)[|t|..|t| + |pat|] == pat;
  }

  predicate Lacks(t: string, c: char) {
    c !in t
  }

  /** The first c of a text divides it in one way. */
  lemma SplitAtFirst(c: char, a: string, b: string, rest: string, rest': string)
    requires Lacks(a, c) && Lacks(b, c) && a + [c] + rest == b + [c] + rest'
    ensures a == b && rest == rest'
  {
    var t, t' := a + [c] + rest, b + [c] + rest';
    assert t[|a|] == c && t'[|b|] == c;
    assert forall i :: 0 <= i < |a| ==> t[i] == a[i] && a[i] in a;
    assert forall i :: 0 <= i < |b| ==> t'[i] == b[i] && b[i] in b;
    assert |a| == |b|;
    assert t[..|a|] == a && t'[..|b|] == b;
    assert t[|a| + 1..] == rest && t'[|b| + 1..] == rest';
  }

  /** So does the last. */
  lemma SplitAtLast(c: char, a: string, b: string, rest: string, rest': string)
    requires Lacks(rest, c) && Lacks(rest', c) && a + [c] + rest == b + [c] + rest'
    ensures a == b && rest == rest'
  {
    var t, t' := a + [c] + rest, b + [c] + rest';
    assert t[|a|] == c && t'[|b|] == c;
    assert forall i :: |a| < i < |t| ==> t[i] == rest[i - |a| - 1] && t[i] in rest;
    assert forall i :: |b| < i < |t'| ==> t'[i] == rest'[i - |b| - 1] && t'[i] in rest';
    assert |a| == |b|;
    assert t[..|a|] == a && t'[..|b|] == b;
    assert t[|a| + 1..] == rest && t'[|b| + 1..] == rest';
  }

  predicate StartsWith(t: string, pat: string) {
    pat <= t
  }

  predicate EndsWith(t: string, pat: string) {
    |pat| <= |t| && t[|t| - |pat|..] == pat
  }

  // ----- white space

  /** str.isspace for one code point. */
  predicate IsSpace(c: char) {
    || '\t' <= c <= '\r'
    || '\U{001C}' <= c <= ' '
    || c == '\U{0085}' || c == '\U{00A0}' || c == '\U{1680}'
    || '\U{2000}' <= c <= '\U{200A}'
    || c == '\U{2028}' || c == '\U{2029}' || c == '\U{202F}' || c == '\U{205F}' || c == '\U{3000}'
  }

  /** The characters at which str.splitlines breaks; "\r\n" counts as one break. */
  predicate IsLineBreak(c: char) {
    || '\n' <= c <= '\r'
    || '\U{001C}' <= c <= '\U{001E}'
    || c == '\U{0085}' || c == '\U{2028}' || c == '\U{2029}'
  }

  function LStrip(t: string): string {
    if t != "" && IsSpace(t[0]) then LStrip(t[1..]) else t
  }

  function RStrip(t: string): string {
    if t != "" && IsSpace(t[|t| - 1]) then RStrip(t[..|t| - 1]) else t
  }

  function Strip(t: string): string {
    RStrip(LStrip(t))
  }

  /** t.rstrip("\r"). */
  function RStripCR(t: string): string {
    if t != "" && t[|t| - 1] == '\r' then RStripCR(t[..|t| - 1]) else t
  }

  /** No white space at either end. */
  predicate Trimmed(t: string) {
    t == "" || (!IsSpace(t[0]) && !IsSpace(t[|t| - 1]))
  }

  lemma StripTrimmed(t: string)
    requires Trimmed(t)
    ensures Strip(t) == t
  {
  }

  lemma {:induction false} RStripAppended(t: string, space: string)
    requires forall c :: c in space ==> IsSpace(c)
    ensures RStrip(t + space) == RStrip(t)
    decreases |space|
  {
    hide IsSpace;
    if space == "" {
      assert t + space == t;
    } else {
      var n := |space| - 1;
      assert space[n] in space && forall c :: c in space[..n] ==> c in space;
      assert (t + space)[..|t| + n] == t + space[..n];
      RStripAppended(t, space[..n]);
    }
  }

  // ----- lines

  predicate OneLine(t: string) {
    forall c :: c in t ==> !IsLineBreak(c)
  }

  /** The length of the first line. */
  function FirstBreak(t: string): (n: nat)
    ensures n <= |t| && OneLine(t[..n]) && (n < |t| ==> IsLineBreak(t[n]))
  {
    if t == "" || IsLineBreak(t[0]) then 0
    else
      var n := FirstBreak(t[1..]) + 1;
      assert t[..n] == [t[0]] + t[1..][..n - 1];
      n
  }

  /** t.splitlines(). */
  function SplitLines(t: string): seq<string>
    decreases |t|
  {
    if t == "" then []
    else
      var n := FirstBreak(t);
      if n == |t| then [t]
      else if "\r\n" <= t[n..] then [t[..n]] + SplitLines(t[n + 2..])
      else [t[..n]] + SplitLines(t[n + 1..])
  }

  lemma FirstBreakAfter(line: string, rest: string)
    requires OneLine(line) && rest != "" && IsLineBreak(rest[0])
    ensures FirstBreak(line + rest) == |line|
  {
    hide IsLineBreak;
    var t := line + rest;
    var n := FirstBreak(t);
    assert forall i :: 0 <= i < |line| ==> t[i] == line[i] && line[i] in line;
    assert forall i :: 0 <= i < n ==> t[i] in t[..n];
    assert t[|line|] == rest[0];
  }

  /** A line followed by "\r\n" is split off. */
  lemma SplitCRLF(line: string, rest: string)
    requires OneLine(line)
    ensures SplitLines(line + "\r\n" + rest) == [line] + SplitLines(rest)
  {
    hide IsLineBreak, FirstBreak;
    var t := line + "\r\n" + rest;
    assert t == line + ("\r\n" + rest);
    BreakCharacters();
    FirstBreakAfter(line, "\r\n" + rest);
    assert t[|line|..] == "\r\n" + rest;
    assert t[..|line|] == line && t[|line| + 2..] == rest;
  }

  /** A line followed by "\n" is split off. */
  lemma SplitLF(line: string, rest: string)
    requires OneLine(line)
    ensures SplitLines(line + "\n" + rest) == [line] + SplitLines(rest)
  {
    hide IsLineBreak, FirstBreak;
    var t := line + "\n" + rest;
    assert t == line + ("\n" + rest);
    BreakCharacters();
    FirstBreakAfter(line, "\n" + rest);
    assert t[|line|..] == "\n" + rest;
    assert t[..|line|] == line && t[|line| + 1..] == rest;
  }

  lemma BreakCharacters()
    ensures IsLineBreak('\r') && IsLineBreak('\n')
  {
  }

  /** "\n".join(lines). */
  function Join(lines: seq<string>): string {
    if lines == [] then ""
    else if |lines| == 1 then lines[0]
    else lines[0] + "\n" + Join(lines[1..])
  }

  lemma SplitLastLine(line: string)
    requires OneLine(line) && line != ""
    ensures SplitLines(line) == [line]
  {
    hide IsLineBreak;
    assert forall i :: 0 <= i < |line| ==> line[i] in line;
    assert FirstBreak(line) == |line|;
  }

  /** The lines before a text's remainder are the first it splits into. */
  lemma {:induction false} SplitJoined(lines: seq<string>, tail: string)
    requires lines != [] && lines[|lines| - 1] != "" && forall t :: t in lines ==> OneLine(t)
    requires tail == "" || tail[0] == '\n'
    ensures lines <= SplitLines(Join(lines) + tail)
    decreases |lines|
  {
    hide OneLine, SplitLines;
    if |lines| == 1 {
      if tail == "" {
        assert Join(lines) + tail == lines[0];
        SplitLastLine(lines[0]);
      } else {
        assert Join(lines) + tail == lines[0] + "\n" + tail[1..];
        SplitLF(lines[0], tail[1..]);
      }
    } else {
      assert Join(lines) + tail == lines[0] + "\n" + (Join(lines[1..]) + tail);
      SplitLF(lines[0], Join(lines[1..]) + tail);
      assert forall t :: t in lines[1..] ==> t in lines;
      SplitJoined(lines[1..], tail);
    }
  }

  // ----- replacing

  /** t.replace(pat, ""). */
  function Remove(t: string, pat: string): string
    requires pat != ""
    decreases |t|
  {
    var i := Find(t, pat);
    if i < 0 then t else t[..i] + Remove(t[i + |pat|..], pat)
  }

  /** No white space anywhere. */
  predicate Token(t: string) {
    forall c :: c in t ==> !IsSpace(c)
  }

  lemma SpaceFound(t: string, name: string, i: int)
    requires Occurs(t, name, i) && ' ' in name
    ensures !Token(t)
  {
    hide IsSpace;
    SpaceIsSpace();
    var j :| 0 <= j < |name| && name[j] == ' ';
    assert t[i..i + |name|][j] == t[i + j];
    assert t[i + j] in t;
  }

  /** A label that contains a space is removed from in front of a token, and nothing else is. */
  lemma RemoveLabel(name: string, value: string)
    requires name != "" && ' ' in name && Token(value)
    ensures Remove(name + value, name) == value
  {
    hide IsSpace, Find;
    assert Occurs(name + value, name, 0);
    assert Find(name + value, name) == 0;
    assert (name + value)[|name|..] == value;
    if Find(value, name) >= 0 {
      SpaceFound(value, name, Find(value, name));
      assert false;
    }
    assert Remove(value, name) == value;
  }

  lemma SpaceIsSpace()
    ensures IsSpace(' ')
  {
  }

  lemma TokenFacts(t: string)
    requires Token(t)
    ensures OneLine(t) && Trimmed(t) && Strip(t) == t
  {
    assert forall c :: IsLineBreak(c) ==> IsSpace(c);
    assert t != "" ==> t[0] in t && t[|t| - 1] in t;
    StripTrimmed(t);
  }
}
