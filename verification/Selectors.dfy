/** The selectors of gopherholes: /holes/<slug>, or /holes/<PID's first 16 digits>/<slug> (core/gopherhole.py). */
module Selectors {
  import opened Wrappers

  predicate IsSlugChar(c: char) {
    'a' <= c <= 'z' || 'A' <= c <= 'Z' || '0' <= c <= '9' || c == '_' || c == '-'
  }

  predicate IsSlug(t: string) {
    1 <= |t| <= 64 && forall c :: c in t ==> IsSlugChar(c)
  }

  predicate IsNamespace(t: string) {
    |t| == 16 && forall c :: c in t ==> '0' <= c <= '9' || 'a' <= c <= 'f'
  }

  const HOLES := "/holes/"

  /** SELECTOR_PATTERN.match: the namespace, if there is one; its end also matches before a final newline. */
  function Match(selector: string): Option<Option<string>> {
    var s := if selector != "" && selector[|selector| - 1] == '\n' then selector[..|selector| - 1] else selector;
    if !(HOLES <= s) then None
    else if |s| > 23 && IsNamespace(s[7..23]) && s[23] == '/' && IsSlug(s[24..]) then Some(Some(s[7..23]))
    else if IsSlug(s[7..]) then Some(None)
    else None
  }

  function Prefix16(pid: string): string {
    if |pid| <= 16 then pid else pid[..16]
  }

  /** A namespaced selector names this PID; any other selector, matching or not, is nobody's. */
  predicate NamespaceFits(selector: string, pid: string) {
    var m := Match(selector);
    m.Some? && m.value.Some? ==> m.value.value == Prefix16(pid)
  }

  /** validate_selector accepts. */
  predicate ValidSelector(selector: string, pid: string) {
    Match(selector).Some? && NamespaceFits(selector, pid)
  }

  // ----- what is accepted

  /** One to 64 letters, digits, underscores and dashes. */
  predicate SlugText(t: string) {
    && 1 <= |t| <= 64
    && forall c :: c in t ==> 'a' <= c <= 'z' || 'A' <= c <= 'Z' || '0' <= c <= '9' || c == '_' || c == '-'
  }

  /** Sixteen lower-case hexadecimal digits. */
  predicate NamespaceText(t: string) {
    |t| == 16 && forall c :: c in t ==> '0' <= c <= '9' || 'a' <= c <= 'f'
  }

  /** Nothing, or the newline that the pattern's end lets pass. */
  predicate EndText(t: string) {
    t == "" || t == "\n"
  }

  /** The selector is the slug's, in no namespace. */
  predicate IsPlain(selector: string, slug: string, end: string) {
    SlugText(slug) && EndText(end) && selector == "/holes/" + slug + end
  }

  predicate IsIn(selector: string, ns: string, slug: string, end: string) {
    NamespaceText(ns) && SlugText(slug) && EndText(end) && selector == "/holes/" + ns + "/" + slug + end
  }

  /** The selector lies in a namespace that is not the PID's. */
  ghost predicate Foreign(selector: string, pid: string) {
    exists ns, slug, end :: IsIn(selector, ns, slug, end) && !(ns <= pid)
  }

  lemma Ended(body: string, end: string)
    requires EndText(end) && body != "" && body[|body| - 1] != '\n'
    ensures (if body + end != "" && (body + end)[|body + end| - 1] == '\n' then (body + end)[..|body + end| - 1]
             else body + end) == body
  {
    if end == "" {
      assert body + end == body;
    } else {
      assert (body + end)[..|body|] == body;
    }
  }

  lemma LastOf(start: string, slug: string)
    requires SlugText(slug)
    ensures (start + slug)[|start + slug| - 1] != '\n'
  {
    assert slug[|slug| - 1] in slug;
  }

  /** A selector with no namespace matches, with nobody's name. */
  lemma PlainMatches(selector: string, slug: string, end: string)
    requires IsPlain(selector, slug, end)
    ensures Match(selector) == Some(None)
  {
    LastOf("/holes/", slug);
    Ended("/holes/" + slug, end);
    var s := "/holes/" + slug;
    assert s[7..] == slug;
    if |s| > 23 {
      assert s[23] == slug[16] && slug[16] in slug;
    }
  }

  lemma NamespacedMatches(selector: string, ns: string, slug: string, end: string)
    requires IsIn(selector, ns, slug, end)
    ensures Match(selector) == Some(Some(ns))
  {
    var start := "/holes/" + ns + "/";
    LastOf(start, slug);
    Ended(start + slug, end);
    var s := start + slug;
    assert s[7..23] == ns && s[24..] == slug && s[23] == '/' && s[..7] == HOLES;
  }

  /** Nothing else matches. */
  lemma MatchedForms(selector: string) returns (ns: string, slug: string, end: string)
    requires Match(selector).Some?
    ensures IsPlain(selector, slug, end) || IsIn(selector, ns, slug, end)
  {
    end := if selector[|selector| - 1] == '\n' then "\n" else "";
    var s := if selector[|selector| - 1] == '\n' then selector[..|selector| - 1] else selector;
    assert selector == s + end;
    ns, slug := "", s[7..];
    PlainText(s);
    if |s| > 23 && IsNamespace(s[7..23]) && s[23] == '/' && IsSlug(s[24..]) {
      ns, slug := s[7..23], s[24..];
      NamespacedText(s);
    }
  }

  lemma PlainText(s: string)
    requires HOLES <= s
    ensures s == "/holes/" + s[7..]
  {
  }

  lemma NamespacedText(s: string)
    requires HOLES <= s && |s| > 23 && s[23] == '/'
    ensures s == "/holes/" + s[7..23] + "/" + s[24..]
  {
    assert s == s[..7] + s[7..23] + [s[23]] + s[24..];
  }

  /** A selector with no namespace is valid for every PID. */
  lemma PlainIsValid(selector: string, slug: string, end: string, pid: string)
    requires IsPlain(selector, slug, end)
    ensures ValidSelector(selector, pid)
  {
    hide Match;
    PlainMatches(selector, slug, end);
  }

  /** One in a namespace is valid exactly for the PIDs that begin with it. */
  lemma NamespacedIsValid(selector: string, ns: string, slug: string, end: string, pid: string)
    requires IsIn(selector, ns, slug, end)
    ensures ValidSelector(selector, pid) <==> ns <= pid
  {
    hide Match;
    NamespacedMatches(selector, ns, slug, end);
    if ns <= pid {
      assert pid[..16] == ns;
    }
  }

  /** No other selector is valid. */
  lemma ValidForms(selector: string, pid: string) returns (ns: string, slug: string, end: string)
    requires ValidSelector(selector, pid)
    ensures IsPlain(selector, slug, end) || (IsIn(selector, ns, slug, end) && ns <= pid)
  {
    hide Match;
    ns, slug, end := MatchedForms(selector);
    if !IsPlain(selector, slug, end) {
      NamespacedIsValid(selector, ns, slug, end, pid);
    }
  }

  /** The check that importers make: only a foreign namespace fails. */
  lemma FitsUnlessForeign(selector: string, pid: string)
    ensures NamespaceFits(selector, pid) <==> !Foreign(selector, pid)
  {
    hide Match, IsIn, IsPlain;
    if ns, slug, end :| IsIn(selector, ns, slug, end) && !(ns <= pid) {
      NamespacedMatches(selector, ns, slug, end);
      assert ns == Prefix16(pid) ==> ns <= pid;
    }
    if !NamespaceFits(selector, pid) {
      var ns, slug, end := MatchedForms(selector);
      if IsPlain(selector, slug, end) {
        PlainMatches(selector, slug, end);
      } else {
        NamespacedMatches(selector, ns, slug, end);
        if ns <= pid {
          NamespaceIsPrefix(selector, ns, slug, end, pid);
        }
      }
    }
  }

  lemma NamespaceIsPrefix(selector: string, ns: string, slug: string, end: string, pid: string)
    requires IsIn(selector, ns, slug, end) && ns <= pid
    ensures Prefix16(pid) == ns
  {
  }

  lemma ForeignIsInvalid(selector: string, pid: string)
    requires Foreign(selector, pid)
    ensures !ValidSelector(selector, pid)
  {
    hide Match, Foreign;
    FitsUnlessForeign(selector, pid);
  }
}
