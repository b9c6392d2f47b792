/** What the string operations of Python come to, in terms of their texts alone. */
module TextLaws {
  import opened PythonText

  predicate Spaces(t: string) {
    forall c :: c in t ==> IsSpace(c)
  }

  /** Python's white space: 29 characters. */
  lemma SpaceMeans(c: char)
    ensures IsSpace(c) <==> c in [
      '\t', '\n', '\U{000B}', '\U{000C}', '\r', '\U{001C}', '\U{001D}', '\U{001E}', '\U{001F}', ' ', '\U{0085}',
      '\U{00A0}', '\U{1680}', '\U{2000}', '\U{2001}', '\U{2002}', '\U{2003}', '\U{2004}', '\U{2005}', '\U{2006}',
      '\U{2007}', '\U{2008}', '\U{2009}', '\U{200A}', '\U{2028}', '\U{2029}', '\U{202F}', '\U{205F}', '\U{3000}']
  {
  }

  /** The ten of them that end a line. */
  lemma LineBreakMeans(c: char)
    ensures IsLineBreak(c) <==> c in [
      '\n', '\U{000B}', '\U{000C}', '\r', '\U{001C}', '\U{001D}', '\U{001E}', '\U{0085}', '\U{2028}', '\U{2029}']
  {
  }

  /** A text is what stripping leaves of it between white space, and that begins and ends with other characters. */
  lemma StripMeans(t: string) returns (left: string, right: string)
    ensures t == left + Strip(t) + right && Spaces(left) && Spaces(right) && Trimmed(Strip(t))
  {
    hide IsSpace;
    left := LStripMeans(t);
    right := RStripMeans(LStrip(t));
    assert t == left + (Strip(t) + right);
    if Strip(t) != "" {
      assert Strip(t)[0] == LStrip(t)[0];
    }
  }

  lemma {:induction false} LStripMeans(t: string) returns (left: string)
    ensures t == left + LStrip(t) && Spaces(left) && (LStrip(t) == "" || !IsSpace(LStrip(t)[0]))
  {
    hide IsSpace;
    left := "";
    if t != "" && IsSpace(t[0]) {
      var rest := LStripMeans(t[1..]);
      left := [t[0]] + rest;
      assert t == [t[0]] + t[1..];
    }
  }

  lemma {:induction false} RStripMeans(t: string) returns (right: string)
    ensures t == RStrip(t) + right && Spaces(right)
    ensures RStrip(t) == "" || !IsSpace(RStrip(t)[|RStrip(t)| - 1])
  {
    hide IsSpace;
    right := "";
    if t != "" && IsSpace(t[|t| - 1]) {
      var rest := RStripMeans(t[..|t| - 1]);
      right := rest + [t[|t| - 1]];
      assert t == t[..|t| - 1] + [t[|t| - 1]];
    }
  }

  /** Carriage returns are stripped from the end alone, and all of them. */
  lemma {:induction false} RStripCRMeans(t: string) returns (right: string)
    ensures t == RStripCR(t) + right && forall c :: c in right ==> c == '\r'
    ensures RStripCR(t) == "" || RStripCR(t)[|RStripCR(t)| - 1] != '\r'
  {
    right := "";
    if t != "" && t[|t| - 1] == '\r' {
      var rest := RStripCRMeans(t[..|t| - 1]);
      right := rest + ['\r'];
      assert t == t[..|t| - 1] + ['\r'];
    }
  }

  /** Lines end at each line break; "\r\n" is one, as PythonText.SplitCRLF says. */
  lemma SplitMeans(line: string, c: char, rest: string)
    requires OneLine(line) && IsLineBreak(c) && (c == '\r' ==> rest == "" || rest[0] != '\n')
    ensures SplitLines(line + [c] + rest) == [line] + SplitLines(rest)
  {
    hide IsLineBreak, FirstBreak;
    var t, tail := line + [c] + rest, [c] + rest;
    assert t == line + tail;
    FirstBreakAfter(line, tail);
    assert t[|line|..] == tail && t[..|line|] == line && t[|line| + 1..] == rest;
    assert !("\r\n" <= tail);
  }

  /** The last line needs no break; no text has no lines. */
  lemma LastLineMeans(line: string)
    requires OneLine(line) && line != ""
    ensures SplitLines("") == [] && SplitLines(line) == [line]
  {
    SplitLastLine(line);
  }

  /** Removing a text drops its first occurrence and those after it, and changes nothing else. */
  lemma RemoveMeans(before: string, pat: string, rest: string)
    requires pat != ""
    ensures !Contains(before, pat) ==> Remove(before, pat) == before
    ensures Find(before + pat + rest, pat) == |before| ==>
      Remove(before + pat + rest, pat) == before + Remove(rest, pat)
  {
    hide Find;
    var t := before + pat + rest;
    assert t[..|before|] == before && t[|before| + |pat|..] == rest;
    assert Find(before, pat) >= 0 ==> Contains(before, pat);
  }
}
