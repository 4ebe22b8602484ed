/** The id a table-of-contents heading gets when it has none:
    `text.toLowerCase().replace(/[^\w\s-]/g, "").replace(/\s+/g, "-")`,
    over the ASCII character classes of JavaScript regular expressions. */
module Slug {
  import opened Wrappers

  predicate IsUpper(c: char) { 'A' <= c <= 'Z' }

  predicate IsLower(c: char) { 'a' <= c <= 'z' }

  /** `\w` without the `u` flag: `[A-Za-z0-9_]`. */
  predicate IsWordChar(c: char) {
    IsUpper(c) || IsLower(c) || '0' <= c <= '9' || c == '_'
  }

  /** `\s` on ASCII: tab, line feed, vertical tab, form feed, carriage return, space. */
  predicate IsSpace(c: char) {
    c == ' ' || '\t' <= c <= '\r'
  }

  /** What a derived id is made of: `[a-z0-9_-]`. */
  predicate IsSlugChar(c: char) {
    IsLower(c) || '0' <= c <= '9' || c == '_' || c == '-'
  }

  predicate AllSlugChars(s: string) {
    forall i :: 0 <= i < |s| ==> IsSlugChar(s[i])
  }

  function ToLowerChar(c: char): char {
    if IsUpper(c) then (c as int + 32) as char else c
  }

  /** `toLowerCase()` restricted to ASCII letters. */
  function ToLower(s: string): (r: string)
    ensures |r| == |s|
    ensures forall i :: 0 <= i < |s| ==> r[i] == ToLowerChar(s[i])
  {
    if s == [] then [] else [ToLowerChar(s[0])] + ToLower(s[1..])
  }

  /** The characters that `/[^\w\s-]/g` leaves in place. */
  predicate Kept(c: char) {
    IsWordChar(c) || IsSpace(c) || c == '-'
  }

  /** `replace(/[^\w\s-]/g, "")`: delete every character that is not kept. */
  function StripDisallowed(s: string): (r: string)
    ensures |r| <= |s|
  {
    if s == [] then []
    else if Kept(s[0]) then [s[0]] + StripDisallowed(s[1..])
    else StripDisallowed(s[1..])
  }

  /** The rest of `s` after its leading whitespace run. */
  function DropSpaces(s: string): (r: string)
    ensures |r| <= |s|
    ensures r == [] || !IsSpace(r[0])
  {
    if s != [] && IsSpace(s[0]) then DropSpaces(s[1..]) else s
  }

  /** `replace(/\s+/g, "-")`: every maximal whitespace run becomes one `-`. */
  function CollapseSpaces(s: string): (r: string)
    ensures |r| <= |s|
    decreases |s|
  {
    if s == [] then []
    else if IsSpace(s[0]) then "-" + CollapseSpaces(DropSpaces(s[1..]))
    else [s[0]] + CollapseSpaces(s[1..])
  }

  /** The derived id of a heading whose text content is `text`. */
  function Slugify(text: string): (r: string)
    ensures |r| <= |text|
  {
    CollapseSpaces(StripDisallowed(ToLower(text)))
  }

  /** `heading.textContent?.toLowerCase()...|| ""`: null text gives the empty id,
      and an empty slug is already `""`. */
  function DerivedId(textContent: Option<string>): (id: string)
    ensures textContent.None? ==> id == ""
    ensures textContent.Some? ==> |id| <= |textContent.value|
    ensures forall i :: 0 <= i < |id| ==> IsSlugChar(id[i])
  {
    match textContent
    case None => ""
    case Some(t) => SlugChars(t); Slugify(t)
  }

  // ---------------------------------------------------------------------------
  // Character-class bounds

  lemma {:induction false} StripKeepsOnlyKept(s: string)
    ensures forall i :: 0 <= i < |StripDisallowed(s)| ==> Kept(StripDisallowed(s)[i])
  {
    if s != [] {
      StripKeepsOnlyKept(s[1..]);
    }
  }

  /** Collapsing removes all whitespace and brings in no other character but `-`. */
  lemma {:induction false} CollapseOutput(s: string)
    ensures forall i :: 0 <= i < |CollapseSpaces(s)| ==>
      !IsSpace(CollapseSpaces(s)[i]) &&
      (CollapseSpaces(s)[i] == '-' || CollapseSpaces(s)[i] in s)
    decreases |s|
  {
    if s != [] {
      if IsSpace(s[0]) {
        var t := DropSpaces(s[1..]);
        DropSpacesIsSuffix(s[1..]);
        CollapseOutput(t);
        forall c | c in t ensures c in s {
          var k :| 0 <= k < |t| && t[k] == c;
          assert s[1..][|s[1..]| - |t| + k] == c;
        }
      } else {
        CollapseOutput(s[1..]);
      }
    }
  }

  lemma {:induction false} DropSpacesIsSuffix(s: string)
    ensures DropSpaces(s) == s[|s| - |DropSpaces(s)|..]
  {
    if s != [] && IsSpace(s[0]) {
      DropSpacesIsSuffix(s[1..]);
    }
  }

  /** A derived id has no upper-case letter and no whitespace: every character
      is one of `[a-z0-9_-]`. */
  lemma SlugChars(text: string)
    ensures AllSlugChars(Slugify(text))
  {
    var lowered := ToLower(text);
    var stripped := StripDisallowed(lowered);
    StripKeepsOnlyKept(lowered);
    CollapseOutput(stripped);
    var r := CollapseSpaces(stripped);
    forall i | 0 <= i < |r| ensures IsSlugChar(r[i]) {
      if r[i] != '-' {
        var k :| 0 <= k < |stripped| && stripped[k] == r[i];
        StripIsSubset(lowered, k);
      }
    }
  }

  /** Every character left by stripping is a lowered character of the input. */
  lemma {:induction false} StripIsSubset(s: string, k: nat)
    requires forall i :: 0 <= i < |s| ==> !IsUpper(s[i])
    requires k < |StripDisallowed(s)|
    ensures Kept(StripDisallowed(s)[k]) && !IsUpper(StripDisallowed(s)[k])
  {
    if s != [] {
      if Kept(s[0]) {
        if k > 0 { StripIsSubset(s[1..], k - 1); }
      } else {
        StripIsSubset(s[1..], k);
      }
    }
  }

  // ---------------------------------------------------------------------------
  // Idempotence

  lemma {:induction false} ToLowerFixesSlug(s: string)
    requires AllSlugChars(s)
    ensures ToLower(s) == s
  {
    if s != [] { ToLowerFixesSlug(s[1..]); }
  }

  lemma {:induction false} StripFixesSlug(s: string)
    requires AllSlugChars(s)
    ensures StripDisallowed(s) == s
  {
    if s != [] { StripFixesSlug(s[1..]); }
  }

  lemma {:induction false} CollapseFixesSlug(s: string)
    requires AllSlugChars(s)
    ensures CollapseSpaces(s) == s
  {
    if s != [] { CollapseFixesSlug(s[1..]); }
  }

  /** A string already made of `[a-z0-9_-]` is its own derived id. */
  lemma SlugOfSlugChars(s: string)
    requires AllSlugChars(s)
    ensures Slugify(s) == s
  {
    ToLowerFixesSlug(s);
    StripFixesSlug(s);
    CollapseFixesSlug(s);
  }

  /** Deriving an id from a derived id returns it unchanged. */
  lemma SlugIdempotent(text: string)
    ensures Slugify(Slugify(text)) == Slugify(text)
  {
    SlugChars(text);
    SlugOfSlugChars(Slugify(text));
  }

  // ---------------------------------------------------------------------------
  // Whitespace runs

  /** A non-empty whitespace run in front of text that does not start with
      whitespace becomes exactly one `-`. */
  lemma {:induction false} CollapseRun(run: string, rest: string)
    requires |run| > 0 && forall i :: 0 <= i < |run| ==> IsSpace(run[i])
    requires rest == [] || !IsSpace(rest[0])
    ensures CollapseSpaces(run + rest) == "-" + CollapseSpaces(rest)
  {
    DropAllSpaces(run[1..], rest);
    assert (run + rest)[1..] == run[1..] + rest;
  }

  lemma {:induction false} DropAllSpaces(run: string, rest: string)
    requires forall i :: 0 <= i < |run| ==> IsSpace(run[i])
    requires rest == [] || !IsSpace(rest[0])
    ensures DropSpaces(run + rest) == rest
  {
    if run != [] {
      assert (run + rest)[1..] == run[1..] + rest;
      DropAllSpaces(run[1..], rest);
    } else {
      assert run + rest == rest;
    }
  }

  /** A character that is not whitespace is copied as it is. */
  lemma CollapseNonSpace(c: char, rest: string)
    requires !IsSpace(c)
    ensures CollapseSpaces([c] + rest) == [c] + CollapseSpaces(rest)
  {
    assert ([c] + rest)[1..] == rest;
  }

  // ---------------------------------------------------------------------------
  // Building blocks for worked examples

  lemma {:induction false} StripAppend(a: string, b: string)
    ensures StripDisallowed(a + b) == StripDisallowed(a) + StripDisallowed(b)
  {
    if a == [] {
      assert a + b == b;
    } else {
      assert (a + b)[1..] == a[1..] + b;
      StripAppend(a[1..], b);
    }
  }

  lemma {:induction false} ToLowerAppend(a: string, b: string)
    ensures ToLower(a + b) == ToLower(a) + ToLower(b)
  {
  }

  lemma {:induction false} ToLowerFixesLower(s: string)
    requires forall i :: 0 <= i < |s| ==> !IsUpper(s[i])
    ensures ToLower(s) == s
  {
  }

  lemma {:induction false} StripFixesKept(s: string)
    requires forall i :: 0 <= i < |s| ==> Kept(s[i])
    ensures StripDisallowed(s) == s
  {
    if s != [] { StripFixesKept(s[1..]); }
  }

  lemma LowerStep(head: string, tail: string)
    requires |head| == 1 && IsUpper(head[0])
    requires forall i :: 0 <= i < |tail| ==> !IsUpper(tail[i])
    ensures ToLower(head + tail) == [ToLowerChar(head[0])] + tail
  {
    ToLowerAppend(head, tail);
    ToLowerFixesLower(tail);
  }

  lemma StripStep(keep: string, drop: string)
    requires forall i :: 0 <= i < |keep| ==> Kept(keep[i])
    requires forall i :: 0 <= i < |drop| ==> !Kept(drop[i])
    ensures StripDisallowed(keep + drop) == keep
  {
    StripAppend(keep, drop);
    StripFixesKept(keep);
    StripDropsAll(drop);
  }

  lemma {:induction false} StripDropsAll(s: string)
    requires forall i :: 0 <= i < |s| ==> !Kept(s[i])
    ensures StripDisallowed(s) == []
  {
    if s != [] { StripDropsAll(s[1..]); }
  }

  /** `word + run + rest` collapses to `word + "-" + Collapse(rest)`. */
  lemma {:induction false} CollapseWords(word: string, run: string, rest: string)
    requires AllSlugChars(word)
    requires |run| > 0 && forall i :: 0 <= i < |run| ==> IsSpace(run[i])
    requires rest == [] || !IsSpace(rest[0])
    ensures CollapseSpaces(word + run + rest) == word + "-" + CollapseSpaces(rest)
  {
    if word == [] {
      assert word + run + rest == run + rest;
      CollapseRun(run, rest);
    } else {
      assert word + run + rest == [word[0]] + (word[1..] + run + rest);
      CollapseNonSpace(word[0], word[1..] + run + rest);
      CollapseWords(word[1..], run, rest);
    }
  }
}

/** Worked examples of id derivation. */
module SlugExamples {
  import opened Wrappers
  import opened Slug

  /** Punctuation is deleted and each space becomes one hyphen. */
  lemma ExampleSectionResults(text: string)
    requires text == "Section 2: Results!"
    ensures Slugify(text) == "section-2-results"
  {
    SectionLowered(text);
    SectionStripped(ToLower(text));
    SectionCollapsed(StripDisallowed(ToLower(text)));
  }

  lemma SectionLowered(text: string)
    requires text == "Section 2: Results!"
    ensures ToLower(text) == "section 2: results!"
  {
    assert text == "S" + "ection 2: " + ("R" + "esults!");
    SectionLower("S", "ection 2: ", "R", "esults!");
  }

  lemma SectionStripped(lowered: string)
    requires lowered == "section 2: results!"
    ensures StripDisallowed(lowered) == "section 2 results"
  {
    assert lowered == "section 2" + ":" + (" results" + "!");
    SectionStrip("section 2", ":", " results", "!");
  }

  lemma SectionCollapsed(stripped: string)
    requires stripped == "section 2 results"
    ensures CollapseSpaces(stripped) == "section-2-results"
  {
    assert stripped == "section" + " " + ("2" + " " + "results");
    SectionCollapse("section", " ", "2", "results");
  }

  lemma SectionLower(s1: string, a: string, r1: string, b: string)
    requires s1 == "S" && a == "ection 2: " && r1 == "R" && b == "esults!"
    ensures ToLower(s1 + a + (r1 + b)) == "section 2: results!"
  {
    assert "s" + a + ("r" + b) == "section 2: results!";
    LowerStep(s1, a);
    LowerStep(r1, b);
    ToLowerAppend(s1 + a, r1 + b);
  }

  lemma SectionStrip(a: string, c: string, b: string, d: string)
    requires a == "section 2" && c == ":" && b == " results" && d == "!"
    ensures StripDisallowed(a + c + (b + d)) == "section 2 results"
  {
    assert a + b == "section 2 results";
    StripStep(a, c);
    StripStep(b, d);
    StripAppend(a + c, b + d);
  }

  lemma SectionCollapse(w1: string, sp: string, w2: string, w3: string)
    requires w1 == "section" && sp == " " && w2 == "2" && w3 == "results"
    ensures CollapseSpaces(w1 + sp + (w2 + sp + w3)) == "section-2-results"
  {
    assert w1 + "-" + (w2 + "-" + w3) == "section-2-results";
    CollapseWords(w1, sp, w2 + sp + w3);
    CollapseWords(w2, sp, w3);
    CollapseFixesSlug(w3);
  }

  /** A whitespace run becomes exactly one hyphen and existing hyphens stay. */
  lemma ExampleHyphens(text: string)
    requires text == "a - b"
    ensures Slugify(text) == "a---b"
  {
    assert text == "a" + " " + ("-" + " " + "b");
    HyphensCollapse("a", " ", "-", "b");
  }

  lemma HyphensCollapse(a: string, sp: string, h: string, b: string)
    requires a == "a" && sp == " " && h == "-" && b == "b"
    ensures Slugify(a + sp + (h + sp + b)) == "a---b"
  {
    var t := a + sp + (h + sp + b);
    assert forall i :: 0 <= i < |t| ==> !IsUpper(t[i]) && Kept(t[i]);
    ToLowerFixesLower(t);
    StripFixesKept(t);
    CollapseWords(a, sp, h + sp + b);
    CollapseWords(h, sp, b);
    CollapseFixesSlug(b);
    assert a + "-" + (h + "-" + b) == "a---b";
  }

  /** Empty or missing text content derives the empty id. */
  lemma ExampleEmpty()
    ensures DerivedId(None) == ""
    ensures DerivedId(Some("")) == ""
  {
  }
}
