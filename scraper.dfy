/**
 * The string logic of the help-center scraper: how an article's title becomes
 * its slug, what record is produced for each saved article, and which fetched
 * articles are saved at all. Fetching, HTML cleaning, Markdown conversion and
 * file writes are outside the model; the conversion is the parameter `md`.
 */
module Scraper {
  import opened Options

  // ---------------------------------------------------------------------------
  // Character classes
  // ---------------------------------------------------------------------------

  /** Python's `str.isspace()`; it is also what `\s` matches in a `str` pattern. */
  predicate IsSpace(c: char) {
    var n := c as int;
    || 9 <= n <= 13
    || 28 <= n <= 32
    || n == 0x85 || n == 0xA0 || n == 0x1680
    || 0x2000 <= n <= 0x200A
    || n == 0x2028 || n == 0x2029 || n == 0x202F || n == 0x205F || n == 0x3000
  }

  predicate IsUpper(c: char) { 'A' <= c <= 'Z' }
  predicate IsLower(c: char) { 'a' <= c <= 'z' }
  predicate IsDigit(c: char) { '0' <= c <= '9' }

  /** The class `[a-zA-Z0-9\s-]` that the first substitution keeps. */
  predicate IsKept(c: char) {
    IsUpper(c) || IsLower(c) || IsDigit(c) || IsSpace(c) || c == '-'
  }

  /** The class `[-\s]` whose runs the second substitution collapses. */
  predicate IsSeparator(c: char) { c == '-' || IsSpace(c) }

  /** The characters a slug is made of. */
  predicate IsSlugChar(c: char) { IsLower(c) || IsDigit(c) || c == '-' }

  /** A well-formed slug: slug characters only, never two hyphens in a row. */
  predicate IsSlug(s: string) {
    && (forall i :: 0 <= i < |s| ==> IsSlugChar(s[i]))
    && (forall i :: 0 <= i < |s| - 1 ==> !(s[i] == '-' && s[i + 1] == '-'))
  }

  // ---------------------------------------------------------------------------
  // The stages of slug normalisation
  // ---------------------------------------------------------------------------

  /** `re.sub(r'[^a-zA-Z0-9\s-]', '', s)`: drops every character outside the kept class. */
  function RemoveDisallowed(s: string): (r: string)
    ensures |r| <= |s|
    ensures forall c :: c in r <==> c in s && IsKept(c)
  {
    if s == [] then []
    else
      assert s == [s[0]] + s[1..];
      (if IsKept(s[0]) then [s[0]] else []) + RemoveDisallowed(s[1..])
  }

  /** `str.lstrip()`: a suffix of `s`, everything cut off is whitespace. */
  function TrimStart(s: string): (r: string)
    ensures |r| <= |s| && r == s[|s| - |r|..]
    ensures forall i :: 0 <= i < |s| - |r| ==> IsSpace(s[i])
    ensures r == [] || !IsSpace(r[0])
  {
    if s != [] && IsSpace(s[0]) then TrimStart(s[1..]) else s
  }

  /** `str.rstrip()`: a prefix of `s`, everything cut off is whitespace. */
  function TrimEnd(s: string): (r: string)
    ensures |r| <= |s| && r == s[..|r|]
    ensures forall i :: |r| <= i < |s| ==> IsSpace(s[i])
    ensures r == [] || !IsSpace(r[|r| - 1])
  {
    if s != [] && IsSpace(s[|s| - 1]) then TrimEnd(s[..|s| - 1]) else s
  }

  /** The number of whitespace characters `s` starts with. */
  function LeadingSpaces(s: string): (n: nat)
    ensures n <= |s|
    ensures forall i :: 0 <= i < n ==> IsSpace(s[i])
    ensures n == |s| || !IsSpace(s[n])
  {
    if s != [] && IsSpace(s[0]) then 1 + LeadingSpaces(s[1..]) else 0
  }

  /** `str.strip()`: text with no whitespace at either end, made of
      characters of `s`; `StripIsMiddle` says which part of `s` it is. */
  function Strip(s: string): (r: string)
    ensures r == [] || (!IsSpace(r[0]) && !IsSpace(r[|r| - 1]))
    ensures forall c :: c in r ==> c in s
  {
    var t := TrimStart(s);
    var r := TrimEnd(t);
    SliceChars(s, |s| - |t|, |s|);
    SliceChars(t, 0, |r|);
    r
  }

  /** `Strip(s)` is the contiguous part of `s` between its leading and its
      trailing whitespace. */
  lemma StripIsMiddle(s: string)
    ensures LeadingSpaces(s) + |Strip(s)| <= |s|
    ensures forall i :: 0 <= i < |Strip(s)| ==> Strip(s)[i] == s[LeadingSpaces(s) + i]
    ensures forall i :: LeadingSpaces(s) + |Strip(s)| <= i < |s| ==> IsSpace(s[i])
  {
    var t := TrimStart(s);
    var r := TrimEnd(t);
    var lo := LeadingSpaces(s);
    assert Strip(s) == r;
    TrimStartSkipsLeading(s);
    forall i | 0 <= i < |r| ensures r[i] == s[lo + i] {
      assert r[i] == t[i];
    }
    TrailingOfSuffix(s, lo, t, |r|);
  }

  /** `TrimStart` cuts off exactly the leading whitespace. */
  lemma {:induction false} TrimStartSkipsLeading(s: string)
    ensures TrimStart(s) == s[LeadingSpaces(s)..]
  {
    if s != [] && IsSpace(s[0]) {
      TrimStartSkipsLeading(s[1..]);
      assert s[1..][LeadingSpaces(s[1..])..] == s[LeadingSpaces(s)..];
    }
  }

  lemma TrailingOfSuffix(s: string, lo: int, t: string, n: int)
    requires 0 <= lo <= |s| && t == s[lo..] && 0 <= n <= |t|
    requires forall i :: n <= i < |t| ==> IsSpace(t[i])
    ensures forall i :: lo + n <= i < |s| ==> IsSpace(s[i])
  {
    forall i | lo + n <= i < |s| ensures IsSpace(s[i]) {
      assert s[i] == t[i - lo];
    }
  }

  lemma SliceChars(s: string, lo: int, hi: int)
    requires 0 <= lo <= hi <= |s|
    ensures forall c :: c in s[lo..hi] ==> c in s
  {
    forall c | c in s[lo..hi] ensures c in s {
      var j :| 0 <= j < hi - lo && s[lo..hi][j] == c;
      assert s[lo + j] == c;
    }
  }

  /** Text that neither starts nor ends with whitespace is left alone by `Strip`. */
  lemma StripKeepsTrimmed(s: string)
    requires s == [] || (!IsSpace(s[0]) && !IsSpace(s[|s| - 1]))
    ensures Strip(s) == s
  {
    assert TrimStart(s) == s;
    assert TrimEnd(s) == s;
  }

  /** Text without whitespace is left alone by `Strip`. */
  lemma StripKeepsUnspaced(s: string)
    requires forall i :: 0 <= i < |s| ==> !IsSpace(s[i])
    ensures Strip(s) == s
  {
    assert TrimStart(s) == s;
  }

  /** The lower case of one character as `str.lower()` computes it for the
      characters left after `RemoveDisallowed`: ASCII letters shift, the rest
      (digits, whitespace, hyphen) are not cased. */
  function LowerChar(c: char): (d: char)
    ensures IsKept(c) ==> IsLower(d) || IsDigit(d) || IsSeparator(d)
    ensures IsUpper(c) || IsLower(c) || IsDigit(c) ==> IsLower(d) || IsDigit(d)
    ensures IsUpper(c) ==> IsLower(d) && d as int - 'a' as int == c as int - 'A' as int
    ensures !IsUpper(c) ==> d == c
  {
    if IsUpper(c) then (c as int + 32) as char else c
  }

  /** `str.lower()` on text made only of kept characters. */
  function Lower(s: string): (r: string)
    ensures |r| == |s|
    ensures forall i :: 0 <= i < |s| ==> r[i] == LowerChar(s[i])
  {
    if s == [] then [] else [LowerChar(s[0])] + Lower(s[1..])
  }

  /** The scan behind `re.sub(r'[-\s]+', '-', s)`: `inRun` says that the
      character just before `s` was a separator, whose run already gave one `-`. */
  function CollapseFrom(s: string, inRun: bool): (r: string)
    ensures forall c :: c in r ==> c == '-' || (c in s && !IsSeparator(c))
    ensures inRun ==> r == [] || r[0] != '-'
    ensures forall i :: 0 <= i < |r| - 1 ==> !(r[i] == '-' && r[i + 1] == '-')
  {
    if s == [] then []
    else
      assert s == [s[0]] + s[1..];
      if IsSeparator(s[0]) then (if inRun then [] else ['-']) + CollapseFrom(s[1..], true)
      else [s[0]] + CollapseFrom(s[1..], false)
  }

  /** `re.sub(r'[-\s]+', '-', s)`: every maximal run of hyphens and whitespace becomes one `-`. */
  function Collapse(s: string): string {
    CollapseFrom(s, false)
  }

  /** The slug computed in `save_as_markdown` from an article's title. */
  function Slugify(title: string): (slug: string)
    ensures IsSlug(slug)
  {
    var kept := RemoveDisallowed(title);
    var lowered := Lower(Strip(kept));
    LowerKeptChars(Strip(kept), kept);
    Collapse(lowered)
  }

  lemma LowerKeptChars(s: string, kept: string)
    requires forall c :: c in kept ==> IsKept(c)
    requires forall c :: c in s ==> c in kept
    ensures forall c :: c in Lower(s) ==> IsLower(c) || IsDigit(c) || IsSeparator(c)
  {
    forall c | c in Lower(s) ensures IsLower(c) || IsDigit(c) || IsSeparator(c) {
      var i :| 0 <= i < |s| && Lower(s)[i] == c;
      assert s[i] in s;
    }
  }

  /** Text without upper-case letters is left alone by `Lower`. */
  lemma LowerKeepsNonUpper(s: string)
    requires forall i :: 0 <= i < |s| ==> !IsUpper(s[i])
    ensures Lower(s) == s
  {
  }

  // ---------------------------------------------------------------------------
  // Properties of slug normalisation
  // ---------------------------------------------------------------------------

  lemma {:induction false} RemoveDisallowedKeepsKept(s: string)
    requires forall i :: 0 <= i < |s| ==> IsKept(s[i])
    ensures RemoveDisallowed(s) == s
  {
    if s != [] {
      RemoveDisallowedKeepsKept(s[1..]);
    }
  }

  lemma {:induction false} CollapseKeepsSlug(s: string, inRun: bool)
    requires IsSlug(s)
    requires inRun ==> s == [] || s[0] != '-'
    ensures CollapseFrom(s, inRun) == s
  {
    if s != [] {
      assert IsSlug(s[1..]);
      if IsSeparator(s[0]) {
        assert s[0] == '-';
        CollapseKeepsSlug(s[1..], true);
      } else {
        CollapseKeepsSlug(s[1..], false);
      }
    }
  }

  /** The first substitution works character by character: filtering a
      concatenation filters each part, so the kept characters stay in order. */
  lemma {:induction false} RemoveDisallowedAppend(a: string, b: string)
    ensures RemoveDisallowed(a + b) == RemoveDisallowed(a) + RemoveDisallowed(b)
  {
    if a != [] {
      var head := if IsKept(a[0]) then [a[0]] else [];
      assert (a + b)[0] == a[0];
      assert (a + b)[1..] == a[1..] + b;
      assert RemoveDisallowed(a + b) == head + RemoveDisallowed(a[1..] + b);
      assert RemoveDisallowed(a) == head + RemoveDisallowed(a[1..]);
      RemoveDisallowedAppend(a[1..], b);
      assert head + (RemoveDisallowed(a[1..]) + RemoveDisallowed(b))
        == (head + RemoveDisallowed(a[1..])) + RemoveDisallowed(b);
    } else {
      assert a + b == b;
    }
  }

  /** On one character the first substitution keeps it exactly when it is in the kept class. */
  lemma RemoveDisallowedChar(c: char)
    ensures RemoveDisallowed([c]) == if IsKept(c) then [c] else []
  {
    assert [c][1..] == [];
  }

  /** The characters of `s` that are not separators, in order. */
  function NonSeparators(s: string): (r: string)
    ensures forall c :: c in r ==> !IsSeparator(c)
  {
    if s == [] then [] else (if IsSeparator(s[0]) then [] else [s[0]]) + NonSeparators(s[1..])
  }

  /** Collapsing rewrites only separators: every other character stays, in order. */
  lemma {:induction false} CollapseKeepsNonSeparators(s: string, inRun: bool)
    ensures NonSeparators(CollapseFrom(s, inRun)) == NonSeparators(s)
  {
    if s != [] {
      var sep := IsSeparator(s[0]);
      var rest := CollapseFrom(s[1..], sep);
      CollapseKeepsNonSeparators(s[1..], sep);
      if !sep {
        var r := [s[0]] + rest;
        assert CollapseFrom(s, inRun) == r;
        assert r[0] == s[0] && r[1..] == rest;
        assert NonSeparators(r) == [s[0]] + NonSeparators(rest);
        assert NonSeparators(s) == [s[0]] + NonSeparators(s[1..]);
      } else if !inRun {
        var r := ['-'] + rest;
        assert CollapseFrom(s, inRun) == r;
        assert r[0] == '-' && r[1..] == rest;
        assert NonSeparators(r) == NonSeparators(rest);
        assert NonSeparators(s) == NonSeparators(s[1..]);
      } else {
        assert CollapseFrom(s, inRun) == rest;
        assert NonSeparators(s) == NonSeparators(s[1..]);
      }
    }
  }

  /** A stretch without separators passes through the collapse unchanged. */
  lemma {:induction false} CollapseWord(w: string, rest: string, inRun: bool)
    requires forall i :: 0 <= i < |w| ==> !IsSeparator(w[i])
    ensures CollapseFrom(w + rest, inRun) == w + CollapseFrom(rest, if w == [] then inRun else false)
  {
    if w != [] {
      assert CollapseFrom(w + rest, inRun) == [w[0]] + CollapseFrom(w[1..] + rest, false) by {
        assert (w + rest)[0] == w[0];
        assert (w + rest)[1..] == w[1..] + rest;
      }
      CollapseWord(w[1..], rest, false);
      assert [w[0]] + (w[1..] + CollapseFrom(rest, false)) == w + CollapseFrom(rest, false) by {
        assert w == [w[0]] + w[1..];
      }
    } else {
      assert w + rest == rest;
    }
  }

  /** A run of hyphens and whitespace becomes one `-`, or nothing when it
      continues a run that already gave its `-`. */
  lemma {:induction false} CollapseRun(run: string, rest: string, inRun: bool)
    requires |run| > 0 && forall i :: 0 <= i < |run| ==> IsSeparator(run[i])
    ensures CollapseFrom(run + rest, inRun) == (if inRun then [] else "-") + CollapseFrom(rest, true)
  {
    assert (run + rest)[0] == run[0];
    assert (run + rest)[1..] == run[1..] + rest;
    if |run| > 1 {
      CollapseRun(run[1..], rest, true);
    } else {
      assert run[1..] + rest == rest;
    }
  }

  /** Two words separated by any run of hyphens and whitespace are joined by one `-`. */
  lemma CollapseBetweenWords(w1: string, run: string, w2: string)
    requires forall i :: 0 <= i < |w1| ==> !IsSeparator(w1[i])
    requires forall i :: 0 <= i < |w2| ==> !IsSeparator(w2[i])
    requires |run| > 0 && forall i :: 0 <= i < |run| ==> IsSeparator(run[i])
    ensures Collapse(w1 + run + w2) == w1 + "-" + w2
  {
    assert w1 + run + w2 == w1 + (run + w2);
    CollapseWord(w1, run + w2, false);
    CollapseRun(run, w2, false);
    CollapseWord(w2, [], true);
    assert w2 + [] == w2;
  }

  /** `Lower` works character by character. */
  lemma LowerAppend(a: string, b: string)
    ensures Lower(a + b) == Lower(a) + Lower(b)
  {
    assert forall i :: 0 <= i < |a + b| ==> Lower(a + b)[i] == (Lower(a) + Lower(b))[i];
  }

  /** Two words of ASCII letters and digits separated by a run of hyphens and
      whitespace give their lower cases joined by one `-`: the spaces of a
      title become hyphens. */
  lemma SlugifyTwoWords(w1: string, run: string, w2: string)
    requires |w1| > 0 && forall i :: 0 <= i < |w1| ==> IsUpper(w1[i]) || IsLower(w1[i]) || IsDigit(w1[i])
    requires |w2| > 0 && forall i :: 0 <= i < |w2| ==> IsUpper(w2[i]) || IsLower(w2[i]) || IsDigit(w2[i])
    requires |run| > 0 && forall i :: 0 <= i < |run| ==> IsSeparator(run[i])
    ensures Slugify(w1 + run + w2) == Lower(w1) + "-" + Lower(w2)
  {
    var title := w1 + run + w2;
    LoweredTwoWords(w1, run, w2);
    LowerAlphanumeric(w1);
    LowerAlphanumeric(w2);
    CollapseBetweenWords(Lower(w1), run, Lower(w2));
  }

  /** The first substitution, strip and lower leave two words and the run between them in place. */
  lemma LoweredTwoWords(w1: string, run: string, w2: string)
    requires |w1| > 0 && forall i :: 0 <= i < |w1| ==> IsUpper(w1[i]) || IsLower(w1[i]) || IsDigit(w1[i])
    requires |w2| > 0 && forall i :: 0 <= i < |w2| ==> IsUpper(w2[i]) || IsLower(w2[i]) || IsDigit(w2[i])
    requires forall i :: 0 <= i < |run| ==> IsSeparator(run[i])
    ensures Lower(Strip(RemoveDisallowed(w1 + run + w2))) == Lower(w1) + run + Lower(w2)
  {
    var title := w1 + run + w2;
    TwoWordsKept(w1, run, w2);
    RemoveDisallowedKeepsKept(title);
    assert title[0] == w1[0] && title[|title| - 1] == w2[|w2| - 1];
    StripKeepsTrimmed(title);
    LowerAppend(w1 + run, w2);
    LowerAppend(w1, run);
    LowerSeparators(run);
  }

  lemma LowerSeparators(run: string)
    requires forall i :: 0 <= i < |run| ==> IsSeparator(run[i])
    ensures Lower(run) == run
  {
    LowerKeepsNonUpper(run);
  }

  lemma TwoWordsKept(w1: string, run: string, w2: string)
    requires forall i :: 0 <= i < |w1| ==> IsUpper(w1[i]) || IsLower(w1[i]) || IsDigit(w1[i])
    requires forall i :: 0 <= i < |w2| ==> IsUpper(w2[i]) || IsLower(w2[i]) || IsDigit(w2[i])
    requires forall i :: 0 <= i < |run| ==> IsSeparator(run[i])
    ensures forall i :: 0 <= i < |w1 + run + w2| ==> IsKept((w1 + run + w2)[i])
  {
    var title := w1 + run + w2;
    forall i | 0 <= i < |title| ensures IsKept(title[i]) {
      if i < |w1| {
        assert title[i] == w1[i];
      } else if i < |w1| + |run| {
        assert title[i] == run[i - |w1|];
      } else {
        assert title[i] == w2[i - |w1| - |run|];
      }
    }
  }

  /** A well-formed slug is its own slug. */
  lemma SlugifyFixesSlug(s: string)
    requires IsSlug(s)
    ensures Slugify(s) == s
  {
    RemoveDisallowedKeepsKept(s);
    StripKeepsUnspaced(s);
    LowerKeepsNonUpper(s);
    CollapseKeepsSlug(s, false);
  }

  /** Normalising a slug a second time changes nothing. */
  lemma SlugifyIdempotent(title: string)
    ensures Slugify(Slugify(title)) == Slugify(title)
  {
    SlugifyFixesSlug(Slugify(title));
  }

  /** The default title of an article without one. */
  const DefaultTitle: string := "Untitled"

  /** A title made only of ASCII letters and digits gives its own lower case. */
  lemma AlphanumericTitleSlug(title: string)
    requires forall i :: 0 <= i < |title| ==> IsUpper(title[i]) || IsLower(title[i]) || IsDigit(title[i])
    ensures Slugify(title) == Lower(title)
  {
    RemoveDisallowedKeepsKept(title);
    StripKeepsUnspaced(title);
    LowerAlphanumeric(title);
    CollapseKeepsSlug(Lower(title), false);
  }

  lemma LowerAlphanumeric(s: string)
    requires forall i :: 0 <= i < |s| ==> IsUpper(s[i]) || IsLower(s[i]) || IsDigit(s[i])
    ensures forall i :: 0 <= i < |s| ==> IsLower(Lower(s)[i]) || IsDigit(Lower(s)[i])
    ensures forall i :: 0 <= i < |s| ==> !IsSeparator(Lower(s)[i])
    ensures IsSlug(Lower(s))
  {
    var lowered := Lower(s);
    forall i | 0 <= i < |lowered| ensures IsLower(lowered[i]) || IsDigit(lowered[i]) {
      assert lowered[i] == LowerChar(s[i]);
    }
  }

  lemma DefaultTitleSlug()
    ensures Slugify(DefaultTitle) == "untitled"
  {
    AlphanumericTitleSlug(DefaultTitle);
    LowerDefaultTitle();
  }

  lemma LowerDefaultTitle()
    ensures Lower(DefaultTitle) == "untitled"
  {
  }

  /** A title with no ASCII letter, digit, whitespace or hyphen gives the empty slug. */
  lemma NothingKeptGivesEmptySlug(title: string)
    requires forall i :: 0 <= i < |title| ==> !IsKept(title[i])
    ensures Slugify(title) == ""
  {
    RemoveDisallowedDropsAll(title);
  }

  lemma {:induction false} RemoveDisallowedDropsAll(s: string)
    requires forall i :: 0 <= i < |s| ==> !IsKept(s[i])
    ensures RemoveDisallowed(s) == []
  {
    if s != [] {
      RemoveDisallowedDropsAll(s[1..]);
    }
  }

  // ---------------------------------------------------------------------------
  // Articles and saved records
  // ---------------------------------------------------------------------------

  /** The fields of a fetched article that the scraper reads; `None` is an absent key. */
  datatype RawArticle = RawArticle(
    title: Option<string>,
    body: Option<string>,
    htmlUrl: Option<string>,
    draft: Option<bool>)

  /** The record `save_as_markdown` returns. */
  datatype SavedArticle = SavedArticle(
    slug: string,
    filePath: string,
    markdownContent: string,
    url: string)

  /** The default output directory. */
  const OutputDir: string := "scraped_articles"

  /** `os.path.join(directory, name)` on POSIX for two components. */
  function PathJoin(directory: string, name: string): string {
    if name != [] && name[0] == '/' then name
    else if directory == [] || directory[|directory| - 1] == '/' then directory + name
    else directory + "/" + name
  }

  /** A joined path ends with the name and, for a relative name, starts with the directory. */
  lemma PathJoinParts(directory: string, name: string)
    ensures var path := PathJoin(directory, name);
      && |name| <= |path| && path[|path| - |name|..] == name
      && ((name == [] || name[0] != '/') ==> |directory| <= |path| && path[..|directory|] == directory)
  {
  }

  /** The document written for an article: a URL line, a blank line, the title
      as a level-1 heading, then the converted body. */
  function Document(url: string, title: string, markdown: string): string {
    "**Article URL:** " + url + "\n\n# " + title + "\n" + markdown
  }

  /** Where the URL, the title and the converted body sit in a document. */
  lemma DocumentLayout(url: string, title: string, markdown: string)
    ensures var doc := Document(url, title, markdown);
      && |doc| == 17 + |url| + 4 + |title| + 1 + |markdown|
      && doc[..17] == "**Article URL:** "
      && doc[17..17 + |url|] == url
      && doc[17 + |url|..21 + |url|] == "\n\n# "
      && doc[21 + |url|..21 + |url| + |title|] == title
      && doc[21 + |url| + |title|] == '\n'
      && doc[|doc| - |markdown|..] == markdown
  {
  }

  /** `save_as_markdown` without the file write; `md` stands for HTML cleaning
      followed by Markdown conversion. */
  function SaveAsMarkdown(article: RawArticle, outputDir: string, md: string -> string): (r: SavedArticle)
    ensures r.slug == Slugify(article.title.GetOr(DefaultTitle)) && IsSlug(r.slug)
    ensures r.filePath == PathJoin(outputDir, r.slug + ".md")
    ensures r.url == article.htmlUrl.GetOr("")
    ensures r.markdownContent == Document(r.url, article.title.GetOr(DefaultTitle), md(article.body.GetOr("")))
  {
    var title := article.title.GetOr(DefaultTitle);
    var bodyHtml := article.body.GetOr("");
    var htmlUrl := article.htmlUrl.GetOr("");
    var slug := Slugify(title);
    SavedArticle(slug, PathJoin(outputDir, slug + ".md"), Document(htmlUrl, title, md(bodyHtml)), htmlUrl)
  }

  /** An article without a title is saved under the slug `untitled`. */
  lemma UntitledArticle(article: RawArticle, outputDir: string, md: string -> string)
    requires article.title == None
    ensures SaveAsMarkdown(article, outputDir, md).slug == "untitled"
  {
    DefaultTitleSlug();
  }

  /** An article that `run_scraper` saves: not `draft is True`, and with a body that is present and non-empty. */
  predicate IsSaved(a: RawArticle) {
    a.draft != Some(true) && a.body.Some? && a.body.value != ""
  }

  /** The articles `run_scraper` saves, in input order. */
  function Kept(articles: seq<RawArticle>): (r: seq<RawArticle>)
    ensures |r| <= |articles|
    ensures forall k :: 0 <= k < |r| ==> IsSaved(r[k])
  {
    if articles == [] then []
    else
      var n := |articles| - 1;
      Kept(articles[..n]) + (if IsSaved(articles[n]) then [articles[n]] else [])
  }

  /** The input positions of the articles `Kept` picks, in increasing order. */
  function KeptPositions(articles: seq<RawArticle>): (idx: seq<nat>)
    ensures |idx| == |Kept(articles)|
    ensures forall k :: 0 <= k < |idx| ==> idx[k] < |articles|
  {
    if articles == [] then []
    else
      var n := |articles| - 1;
      KeptPositions(articles[..n]) + (if IsSaved(articles[n]) then [n] else [])
  }

  /** `Kept` picks the articles at `KeptPositions`, in increasing order of position. */
  lemma {:induction false} KeptAtPositions(articles: seq<RawArticle>)
    ensures var idx := KeptPositions(articles);
      && (forall k :: 0 <= k < |idx| ==> Kept(articles)[k] == articles[idx[k]])
      && (forall k, l :: 0 <= k < l < |idx| ==> idx[k] < idx[l])
  {
    if articles != [] {
      var n := |articles| - 1;
      var prefix := articles[..n];
      KeptAtPositions(prefix);
      var idx, before := KeptPositions(articles), KeptPositions(prefix);
      var kept, keptPrefix := Kept(articles), Kept(prefix);
      forall k | 0 <= k < |idx| ensures kept[k] == articles[idx[k]] {
        if k < |before| {
          assert idx[k] == before[k] && kept[k] == keptPrefix[k];
          assert prefix[before[k]] == articles[before[k]];
        }
      }
      forall k, l | 0 <= k < l < |idx| ensures idx[k] < idx[l] {
        if l >= |before| {
          assert before[k] < n;
        }
      }
    }
  }

  /** Every article that `run_scraper` saves is picked by `Kept`. */
  lemma {:induction false} KeptPositionsComplete(articles: seq<RawArticle>, i: int)
    requires 0 <= i < |articles| && IsSaved(articles[i])
    ensures i in KeptPositions(articles)
  {
    var n := |articles| - 1;
    if i < n {
      var prefix := articles[..n];
      assert prefix[i] == articles[i];
      KeptPositionsComplete(prefix, i);
    }
  }

  /** `f` applied to each element in turn. */
  function MapSeq<A, B>(f: A -> B, s: seq<A>): (r: seq<B>)
    ensures |r| == |s|
    ensures forall k :: 0 <= k < |s| ==> r[k] == f(s[k])
  {
    if s == [] then []
    else
      var n := |s| - 1;
      var before := MapSeq(f, s[..n]);
      assert forall k :: 0 <= k < n ==> s[..n][k] == s[k];
      before + [f(s[n])]
  }

  /** `save_as_markdown` with the output directory and the conversion fixed. */
  function Saver(outputDir: string, md: string -> string): RawArticle -> SavedArticle {
    a => SaveAsMarkdown(a, outputDir, md)
  }

  /** `run_scraper` after the fetch: saves every kept article, in order. */
  method RunScraper(articles: seq<RawArticle>, outputDir: string, md: string -> string)
    returns (saved: seq<SavedArticle>)
    ensures saved == MapSeq(Saver(outputDir, md), Kept(articles))
    ensures |saved| <= |articles|
  {
    var save := Saver(outputDir, md);
    saved := [];
    for i := 0 to |articles|
      invariant saved == MapSeq(save, Kept(articles[..i]))
    {
      KeptStep(articles, i);
      var article := articles[i];
      if article.draft == Some(true) || article.body.GetOr("") == "" {
        continue;
      }
      MapSeqStep(save, Kept(articles[..i]), article);
      var savedInfo := SaveAsMarkdown(article, outputDir, md);
      saved := saved + [savedInfo];
    }
    assert articles[..|articles|] == articles;
  }

  lemma KeptStep(articles: seq<RawArticle>, i: int)
    requires 0 <= i < |articles|
    ensures Kept(articles[..i + 1]) == Kept(articles[..i]) + (if IsSaved(articles[i]) then [articles[i]] else [])
  {
    assert articles[..i + 1][..i] == articles[..i];
  }

  lemma MapSeqStep<A, B>(f: A -> B, s: seq<A>, x: A)
    ensures MapSeq(f, s + [x]) == MapSeq(f, s) + [f(x)]
  {
    assert (s + [x])[..|s|] == s;
  }
}
