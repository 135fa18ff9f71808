/** The second crawler (GW2Walls2.py): it reads pages as text, condenses their HTML,
    cleans titles and links, and queues `(url, path)` jobs for the download threads.
    Links and headings are given already extracted from the page text. */
module GW2Walls2 {
  import opened Text

  const MainSiteUrl: string := "https://www.guildwars2.com"

  // ---------------------------------------------------------------------------
  // cleanup_url

  /** Restores the site to root-relative links and the scheme to protocol-relative
      ones; anything else is left as it is. */
  function CleanupUrl(url: string): string {
    if |url| >= 2 && url[0] == '/' && url[1] == '/' then "https:" + url
    else if |url| >= 1 && url[0] == '/' then MainSiteUrl + url
    else url
  }

  /** The three cases of `cleanup_url`, stated on prefixes. */
  lemma CleanupUrlCases(url: string)
    ensures StartsWith(url, "//") ==> CleanupUrl(url) == "https:" + url
    ensures !StartsWith(url, "//") && StartsWith(url, "/") ==> CleanupUrl(url) == MainSiteUrl + url
    ensures !StartsWith(url, "/") ==> CleanupUrl(url) == url
  {
    if |url| >= 2 && url[0] == '/' && url[1] == '/' {
      assert url[..2] == "//";
    } else if |url| >= 2 && url[0] == '/' {
      assert url[..1] == "/";
      assert url[..2] != "//" by { assert url[..2][1] != '/'; }
    } else if |url| == 1 && url[0] == '/' {
      assert url[..1] == "/";
    } else if url != [] {
      assert url[..1] != "/" by { assert url[..1][0] != '/'; }
    }
  }

  /** A cleaned URL never starts with `/`. */
  lemma CleanupUrlNotRooted(url: string)
    ensures !StartsWith(CleanupUrl(url), "/")
  {
    var r := CleanupUrl(url);
    assert r == [] || r[0] != '/';
    if r != [] {
      assert r[..1][0] != '/';
    }
  }

  /** Cleaning a cleaned URL changes nothing. */
  lemma CleanupUrlIdempotent(url: string)
    ensures CleanupUrl(CleanupUrl(url)) == CleanupUrl(url)
  {
    var r := CleanupUrl(url);
    assert r == [] || r[0] != '/';
  }

  /** The link itself always ends the cleaned URL. */
  lemma CleanupUrlKeepsLink(url: string)
    ensures var r := CleanupUrl(url); |url| <= |r| && r[|r| - |url|..] == url
  {
  }

  // ---------------------------------------------------------------------------
  // cleanup_html (the text after decoding)

  function NewlineToSpace(c: char): char {
    if c == '\r' || c == '\n' then ' ' else c
  }

  function TabToSpace(c: char): char {
    if c == '\t' then ' ' else c
  }

  /** The length of the whitespace run that starts `s`. */
  function SpaceRun(s: string): (n: nat)
    ensures n <= |s|
    ensures forall i :: 0 <= i < n ==> IsSpace(s[i])
    ensures n < |s| ==> !IsSpace(s[n])
  {
    if s != [] && IsSpace(s[0]) then 1 + SpaceRun(s[1..]) else 0
  }

  /** `re.sub(r'\s{2,}', '', s)`: scanning left to right, a run of two or more
      whitespace characters is matched whole (the quantifier is greedy) and deleted;
      a whitespace character on its own is kept. */
  function DeleteSpaceRuns(s: string): (r: string)
    ensures |r| <= |s|
    decreases |s|
  {
    if s == [] then []
    else
      var n := SpaceRun(s);
      if n >= 2 then DeleteSpaceRuns(s[n..]) else [s[0]] + DeleteSpaceRuns(s[1..])
  }

  /** `cleanup_html` on the decoded text: newlines, then tabs, become spaces; then every
      run of two or more whitespace characters is deleted. */
  function CleanupHtml(html: string): (r: string)
    ensures |r| <= |html|
    ensures forall i :: 0 <= i < |r| ==> r[i] != '\r' && r[i] != '\n' && r[i] != '\t'
  {
    var spaced := MapSeq(MapSeq(html, NewlineToSpace), TabToSpace);
    var r := DeleteSpaceRuns(spaced);
    DeleteSpaceRunsMembers(spaced);
    forall i | 0 <= i < |r| ensures r[i] != '\r' && r[i] != '\n' && r[i] != '\t' {
      assert r[i] in spaced;
    }
    r
  }

  predicate IsVisible(c: char) { !IsSpace(c) }

  /** No two whitespace characters stand next to each other. */
  predicate NoAdjacentSpaces(s: string) {
    forall i :: 0 <= i < |s| - 1 ==> !(IsSpace(s[i]) && IsSpace(s[i + 1]))
  }

  /** Deleting runs only removes characters. */
  lemma {:induction false} DeleteSpaceRunsMembers(s: string)
    ensures forall c :: c in DeleteSpaceRuns(s) ==> c in s
    decreases |s|
  {
    if s != [] {
      var n := SpaceRun(s);
      if n >= 2 {
        DeleteSpaceRunsMembers(s[n..]);
      } else {
        DeleteSpaceRunsMembers(s[1..]);
      }
    }
  }

  /** Deleting runs only removes whitespace: the visible characters stay, in order. */
  lemma {:induction false} DeleteSpaceRunsKeepsVisible(s: string)
    ensures Keep(DeleteSpaceRuns(s), IsVisible) == Keep(s, IsVisible)
    decreases |s|
  {
    if s != [] {
      var n := SpaceRun(s);
      if n >= 2 {
        DeleteSpaceRunsKeepsVisible(s[n..]);
        assert s == s[..n] + s[n..];
        KeepConcat(s[..n], s[n..], IsVisible);
        KeepNone(s[..n], IsVisible);
      } else {
        DeleteSpaceRunsKeepsVisible(s[1..]);
        KeepConcat([s[0]], DeleteSpaceRuns(s[1..]), IsVisible);
      }
    }
  }

  /** A string none of whose characters is kept filters to nothing. */
  lemma {:induction false} KeepNone(s: string, keep: char -> bool)
    requires forall i :: 0 <= i < |s| ==> !keep(s[i])
    ensures Keep(s, keep) == []
  {
    if s != [] {
      KeepNone(s[1..], keep);
    }
  }

  /** The result starts with the input's first visible character, if the input starts
      with one. */
  lemma DeleteSpaceRunsHead(s: string)
    requires s != [] && !IsSpace(s[0])
    ensures DeleteSpaceRuns(s) != [] && DeleteSpaceRuns(s)[0] == s[0]
  {
  }

  /** After the deletion no two whitespace characters are adjacent: a run is deleted
      whole, and a lone whitespace character is followed by a visible one. */
  lemma {:induction false} DeleteSpaceRunsNoAdjacent(s: string)
    ensures NoAdjacentSpaces(DeleteSpaceRuns(s))
    decreases |s|
  {
    if s != [] {
      var n := SpaceRun(s);
      if n >= 2 {
        DeleteSpaceRunsNoAdjacent(s[n..]);
      } else {
        var rest := DeleteSpaceRuns(s[1..]);
        DeleteSpaceRunsNoAdjacent(s[1..]);
        var r := [s[0]] + rest;
        if IsSpace(s[0]) && rest != [] {
          assert n == 1;
          DeleteSpaceRunsHead(s[1..]);
          assert !IsSpace(r[1]);
        }
        assert forall i :: 1 <= i < |r| - 1 ==> r[i] == rest[i - 1] && r[i + 1] == rest[i];
      }
    }
  }

  /** Text with no two adjacent whitespace characters has no run to delete. */
  lemma {:induction false} DeleteSpaceRunsNoop(s: string)
    requires NoAdjacentSpaces(s)
    ensures DeleteSpaceRuns(s) == s
    decreases |s|
  {
    if s != [] {
      assert SpaceRun(s) < 2 by {
        if |s| >= 2 && IsSpace(s[0]) { assert !IsSpace(s[1]); }
      }
      DeleteSpaceRunsNoop(s[1..]);
    }
  }

  lemma MapSeqIdentity(s: string, f: char -> char)
    requires forall i :: 0 <= i < |s| ==> f(s[i]) == s[i]
    ensures MapSeq(s, f) == s
  {
  }

  /** Turning whitespace into spaces keeps the visible characters. */
  lemma {:induction false} MapSpacesKeepsVisible(s: string, f: char -> char)
    requires forall c :: (IsSpace(c) ==> IsSpace(f(c))) && (!IsSpace(c) ==> f(c) == c)
    ensures Keep(MapSeq(s, f), IsVisible) == Keep(s, IsVisible)
  {
    if s != [] {
      MapSpacesKeepsVisible(s[1..], f);
      assert MapSeq(s, f) == [f(s[0])] + MapSeq(s[1..], f);
    }
  }

  /** The condensed text holds no two adjacent whitespace characters. */
  lemma CleanupHtmlNoAdjacentSpaces(html: string)
    ensures NoAdjacentSpaces(CleanupHtml(html))
  {
    DeleteSpaceRunsNoAdjacent(MapSeq(MapSeq(html, NewlineToSpace), TabToSpace));
  }

  /** Condensing keeps every visible character, in order: only whitespace is deleted. */
  lemma CleanupHtmlKeepsVisible(html: string)
    ensures Keep(CleanupHtml(html), IsVisible) == Keep(html, IsVisible)
  {
    var lines := MapSeq(html, NewlineToSpace);
    var spaced := MapSeq(lines, TabToSpace);
    MapSpacesKeepsVisible(html, NewlineToSpace);
    MapSpacesKeepsVisible(lines, TabToSpace);
    DeleteSpaceRunsKeepsVisible(spaced);
  }

  /** Condensing condensed text changes nothing. */
  lemma CleanupHtmlIdempotent(html: string)
    ensures CleanupHtml(CleanupHtml(html)) == CleanupHtml(html)
  {
    var r := CleanupHtml(html);
    MapSeqIdentity(r, NewlineToSpace);
    MapSeqIdentity(r, TabToSpace);
    CleanupHtmlNoAdjacentSpaces(html);
    DeleteSpaceRunsNoop(r);
  }

  /** Two spaces between words are deleted, not collapsed into one. */
  lemma CleanupHtmlDeletesDoubleSpace(a: string, b: string)
    requires NoSpace(a) && NoSpace(b)
    ensures CleanupHtml(a + "  " + b) == a + b
  {
    var s := a + "  " + b;
    assert forall i :: 0 <= i < |s| ==> s[i] == ' ' || !IsSpace(s[i]);
    MapSeqIdentity(s, NewlineToSpace);
    MapSeqIdentity(s, TabToSpace);
    assert AllSpace("  ");
    DeleteAcross(a, "  ", b);
  }

  /** Visible text, a run of two or more whitespace characters, then more visible text:
      the run goes. */
  lemma {:induction false} DeleteAcross(a: string, run: string, b: string)
    requires |run| >= 2 && AllSpace(run) && NoSpace(a) && NoSpace(b)
    ensures DeleteSpaceRuns(a + run + b) == a + b
    decreases |a|
  {
    if a == [] {
      DeleteLeadingRun(a, run, b);
    } else {
      NoSpaceTail(a);
      DeleteAcross(a[1..], run, b);
      DeleteAcrossStep(a[0], a[1..], run, b);
      assert [a[0]] + a[1..] == a;
    }
  }

  /** The step of `DeleteAcross`: a visible first character is kept in front. */
  lemma DeleteAcrossStep(c: char, a: string, run: string, b: string)
    requires !IsSpace(c) && DeleteSpaceRuns(a + run + b) == a + b
    ensures DeleteSpaceRuns([c] + a + run + b) == [c] + a + b
  {
    DeleteKeepsVisibleHead(c, a + run + b);
    ConcatAssoc([c], a, run);
    ConcatAssoc([c], a + run, b);
    ConcatAssoc([c], a, b);
  }

  /** A leading run of two or more whitespace characters before visible text goes. */
  lemma DeleteLeadingRun(a: string, run: string, b: string)
    requires a == [] && |run| >= 2 && AllSpace(run) && NoSpace(b)
    ensures DeleteSpaceRuns(a + run + b) == a + b
  {
    assert a + run + b == run + b;
    SpaceRunPrefix(run, b);
    assert (run + b)[|run|..] == b;
    DeleteSpaceRunsNoop(b);
  }

  /** A visible first character is kept. */
  lemma DeleteKeepsVisibleHead(c: char, rest: string)
    requires !IsSpace(c)
    ensures DeleteSpaceRuns([c] + rest) == [c] + DeleteSpaceRuns(rest)
  {
    assert ([c] + rest)[1..] == rest;
  }

  lemma {:induction false} SpaceRunPrefix(run: string, b: string)
    requires forall i :: 0 <= i < |run| ==> IsSpace(run[i])
    requires b != [] ==> !IsSpace(b[0])
    ensures SpaceRun(run + b) == |run|
  {
    if run != [] {
      assert (run + b)[1..] == run[1..] + b;
      SpaceRunPrefix(run[1..], b);
    } else {
      assert run + b == b;
    }
  }

  // ---------------------------------------------------------------------------
  // cleanup_title

  predicate NotNewline(c: char) { c != '\r' && c != '\n' }

  /** What `[^\w\s\-]` leaves: word characters, whitespace and `-`. */
  predicate IsTitleChar(c: char) { IsWordChar(c) || IsSpace(c) || c == '-' }

  /** `t` is a whole match of `<[/]?\w+>`. */
  predicate IsTag(t: string) {
    && 3 <= |t| && t[0] == '<' && t[|t| - 1] == '>'
    && var k := if t[1] == '/' then 2 else 1;
       k < |t| - 1 && forall i :: k <= i < |t| - 1 ==> IsWordChar(t[i])
  }

  /** The length of a tag `<\w+>` or `</\w+>` at the start of `s`, or 0. */
  function TagLength(s: string): (n: nat)
    ensures n == 0 || (n <= |s| && IsTag(s[..n]))
  {
    if |s| < 3 || s[0] != '<' then 0
    else
      var k := if s[1] == '/' then 2 else 1;
      var w := WordRun(s[k..]);
      if w >= 1 && k + w < |s| && s[k + w] == '>' then k + w + 1 else 0
  }

  /** The length of the word-character run that starts `s`. */
  function WordRun(s: string): (n: nat)
    ensures n <= |s|
    ensures forall i :: 0 <= i < n ==> IsWordChar(s[i])
    ensures n < |s| ==> !IsWordChar(s[n])
  {
    if s != [] && IsWordChar(s[0]) then 1 + WordRun(s[1..]) else 0
  }

  /** A `WordRun` is the longest run: a run of word characters ended by the end of `s`
      or by another character has exactly its length. */
  lemma WordRunExact(s: string, w: nat)
    requires w <= |s| && forall i :: 0 <= i < w ==> IsWordChar(s[i])
    requires w < |s| ==> !IsWordChar(s[w])
    ensures WordRun(s) == w
  {
  }

  /** `TagLength` finds every tag: when `s` starts with one, it measures that one. */
  lemma TagLengthComplete(s: string, m: nat)
    requires m <= |s| && IsTag(s[..m])
    ensures TagLength(s) == m
  {
    var t := s[..m];
    assert t[0] == s[0] && t[1] == s[1];
    var k := if s[1] == '/' then 2 else 1;
    assert forall i :: k <= i < m - 1 ==> IsWordChar(t[i]);
    assert s[m - 1] == t[m - 1] == '>';
    WordRunExact(s[k..], m - 1 - k);
  }

  /** The tags `<w>` and `</w>` of a nonempty word `w` are measured whole, whatever
      follows them. */
  lemma TagLengthOfTag(slash: string, w: string, rest: string)
    requires slash == "" || slash == "/"
    requires w != [] && forall i :: 0 <= i < |w| ==> IsWordChar(w[i])
    ensures TagLength("<" + slash + w + ">" + rest) == |slash| + |w| + 2
  {
    var s := "<" + slash + w + ">" + rest;
    var m := |slash| + |w| + 2;
    var t := s[..m];
    assert t == "<" + slash + w + ">";
    assert t[1] == if slash == "/" then '/' else w[0];
    assert forall i :: 1 + |slash| <= i < m - 1 ==> t[i] == w[i - 1 - |slash|];
    TagLengthComplete(s, m);
  }

  /** `re.sub(r'<[/]?\w+>', '', s)`: tags are found left to right and deleted. */
  function StripTags(s: string): (r: string)
    ensures |r| <= |s|
    decreases |s|
  {
    if s == [] then []
    else
      var n := TagLength(s);
      if n > 0 then StripTags(s[n..]) else [s[0]] + StripTags(s[1..])
  }

  lemma {:induction false} StripTagsMembers(s: string)
    ensures forall c :: c in StripTags(s) ==> c in s
    decreases |s|
  {
    if s != [] {
      var n := TagLength(s);
      if n > 0 { StripTagsMembers(s[n..]); } else { StripTagsMembers(s[1..]); }
    }
  }

  /** Text without `<` holds no tag. */
  lemma {:induction false} StripTagsNoop(s: string)
    requires '<' !in s
    ensures StripTags(s) == s
    decreases |s|
  {
    if s != [] {
      StripTagsNoop(s[1..]);
    }
  }

  /** A tag at the front is deleted. */
  lemma StripTagsDeletesTag(t: string, rest: string)
    requires IsTag(t)
    ensures StripTags(t + rest) == StripTags(rest)
  {
    assert (t + rest)[..|t|] == t;
    TagLengthComplete(t + rest, |t|);
    assert (t + rest)[|t|..] == rest;
  }

  /** Text without `<` in front of the rest is kept as it is. */
  lemma {:induction false} StripTagsPlain(a: string, rest: string)
    requires '<' !in a
    ensures StripTags(a + rest) == a + StripTags(rest)
    decreases |a|
  {
    if a != [] {
      assert (a + rest)[0] == a[0] && (a + rest)[1..] == a[1..] + rest;
      StripTagsPlain(a[1..], rest);
      assert a == [a[0]] + a[1..];
    } else {
      assert a + rest == rest;
    }
  }

  /** `cleanup_title`: newlines are removed, then tags, then every character that is not
      a word character, whitespace or `-`. */
  function CleanupTitle(title: string): (r: string)
    ensures forall i :: 0 <= i < |r| ==> IsTitleChar(r[i]) && NotNewline(r[i])
  {
    var oneLine := Keep(title, NotNewline);
    var untagged := StripTags(oneLine);
    StripTagsMembers(oneLine);
    var r := Keep(untagged, IsTitleChar);
    KeepMembers(untagged, IsTitleChar);
    forall i | 0 <= i < |r| ensures NotNewline(r[i]) {
      SubsequenceMembers(r, untagged);
      assert r[i] in untagged;
    }
    r
  }

  lemma {:induction false} SubsequenceMembers(a: string, b: string)
    requires IsSubsequence(a, b)
    ensures forall c :: c in a ==> c in b
    decreases |b|
  {
    if a != [] {
      if a[0] == b[0] && IsSubsequence(a[1..], b[1..]) {
        SubsequenceMembers(a[1..], b[1..]);
        assert a == [a[0]] + a[1..];
      } else {
        SubsequenceMembers(a, b[1..]);
      }
    }
  }

  /** Cleaning a clean title changes nothing. */
  lemma CleanupTitleIdempotent(title: string)
    ensures CleanupTitle(CleanupTitle(title)) == CleanupTitle(title)
  {
    var r := CleanupTitle(title);
    KeepAllKept(r, NotNewline);
    assert forall i :: 0 <= i < |r| ==> r[i] != '<';
    StripTagsNoop(r);
    KeepAllKept(r, IsTitleChar);
  }

  /** Newlines are removed before anything else, so a title with a newline cleans
      exactly as the title without it: the two halves are joined, not spaced. */
  lemma CleanupTitleIgnoresNewline(a: string, nl: char, b: string)
    requires nl == '\r' || nl == '\n'
    ensures CleanupTitle(a + [nl] + b) == CleanupTitle(a + b)
  {
    KeepConcat(a + [nl], b, NotNewline);
    KeepConcat(a, [nl], NotNewline);
    KeepConcat(a, b, NotNewline);
    assert [nl][1..] == [];
    assert Keep([nl], NotNewline) == [];
    assert Keep(a + [nl] + b, NotNewline) == Keep(a + b, NotNewline);
  }

  /** What `cleanup_title` keeps of a title without tags: the title characters that are
      not newlines. */
  predicate IsCleanTitleChar(c: char) { IsTitleChar(c) && NotNewline(c) }

  /** A title with no `<` in it holds no tag, so cleaning it is one character filter. */
  lemma CleanupTitleWithoutTags(title: string)
    requires '<' !in title
    ensures CleanupTitle(title) == Keep(title, IsCleanTitleChar)
  {
    var oneLine := Keep(title, NotNewline);
    KeepMembers(title, NotNewline);
    StripTagsNoop(oneLine);
    KeepBoth(title, NotNewline, IsTitleChar, IsCleanTitleChar);
  }

  /** A word between `<` and `>`, or between `</` and `>`, is a tag. */
  lemma TagPair(w: string)
    requires w != [] && forall i :: 0 <= i < |w| ==> IsWordChar(w[i])
    ensures IsTag("<" + w + ">") && IsTag("</" + w + ">")
  {
    TagLengthOfTag("", w, []);
    assert ("<" + "" + w + ">" + [])[..|w| + 2] == "<" + w + ">";
    TagLengthOfTag("/", w, []);
    assert ("<" + "/" + w + ">" + [])[..|w| + 3] == "</" + w + ">";
  }

  /** A tag holds no newline. */
  lemma TagOneLine(t: string)
    requires IsTag(t)
    ensures Keep(t, NotNewline) == t
  {
    KeepAllKept(t, NotNewline);
  }

  /** Text without `<` between two tags is all that is left when both are deleted. */
  lemma StripTagsBetween(open: string, mid: string, close: string)
    requires IsTag(open) && IsTag(close) && '<' !in mid
    ensures StripTags(open + mid + close) == mid
  {
    assert open + mid + close == open + (mid + close);
    StripTagsDeletesTag(open, mid + close);
    StripTagsPlain(mid, close);
    assert close + [] == close;
    StripTagsDeletesTag(close, []);
  }

  /** A title between two tags cleans as the bare title does: both tags are deleted,
      their words included. */
  lemma CleanupTitleBetweenTags(open: string, title: string, close: string)
    requires IsTag(open) && IsTag(close) && '<' !in title
    ensures CleanupTitle(open + title + close) == CleanupTitle(title)
  {
    var mid := Keep(title, NotNewline);
    TagOneLine(open);
    TagOneLine(close);
    KeepConcat(open + title, close, NotNewline);
    KeepConcat(open, title, NotNewline);
    KeepMembers(title, NotNewline);
    StripTagsBetween(open, mid, close);
    StripTagsNoop(mid);
  }

  /** A title wrapped in an opening and a closing tag, as in `<b>title</b>`, cleans as
      the bare title does. */
  lemma CleanupTitleDropsTagPair(w: string, title: string)
    requires w != [] && forall i :: 0 <= i < |w| ==> IsWordChar(w[i])
    requires '<' !in title
    ensures CleanupTitle("<" + w + ">" + title + "</" + w + ">") == CleanupTitle(title)
  {
    var open := "<" + w + ">";
    var close := "</" + w + ">";
    TagPair(w);
    assert "<" + w + ">" + title + "</" + w + ">" == open + title + close;
    CleanupTitleBetweenTags(open, title, close);
  }

  // ---------------------------------------------------------------------------
  // urlsplit(url)[2] and os.path.basename

  predicate IsSchemeChar(c: char) { IsAsciiLetter(c) || IsAsciiDigit(c) || c == '+' || c == '-' || c == '.' }

  /** Every character of `s` may appear in a scheme. */
  predicate AllSchemeChars(s: string) {
    s == [] || (IsSchemeChar(s[0]) && AllSchemeChars(s[1..]))
  }

  /** The URL after its scheme: a scheme is the text before the first `:` when that
      text starts with a letter and holds only scheme characters. */
  function AfterScheme(url: string): string {
    if ':' !in url then url
    else
      var i := IndexOf(url, ':');
      if i > 0 && IsAsciiLetter(url[0]) && AllSchemeChars(url[..i]) then url[i + 1..] else url
  }

  /** The characters that end a network location. */
  predicate EndsNetloc(c: char) { c == '/' || c == '?' || c == '#' }

  /** Where the network location that starts at index 2 ends: the first `/`, `?` or
      `#` from index `i` on, or the end. */
  function NetlocEnd(s: string, i: nat): (e: nat)
    requires 2 <= i <= |s|
    ensures i <= e <= |s|
    decreases |s| - i
  {
    if i == |s| || EndsNetloc(s[i]) then i else NetlocEnd(s, i + 1)
  }

  /** The text before the first `c` (`s.split(c, 1)[0]`). */
  function Before(s: string, c: char): (r: string)
    ensures c !in r
  {
    if c in s then s[..IndexOf(s, c)] else s
  }

  /** Cutting at a character keeps only characters of the input. */
  lemma BeforeMembers(s: string, c: char)
    ensures forall d :: d in Before(s, c) ==> d in s
  {
    if c in s {
      var i := IndexOf(s, c);
      assert forall k :: 0 <= k < i ==> s[..i][k] == s[k];
    }
  }

  /** `urlsplit(url)[2]`, the path, or `None` for the ValueError urlsplit raises when
      the network location has one square bracket without the other. This is the one
      check of urlsplit modelled: it also strips leading control characters and spaces,
      deletes tabs and line breaks, and rejects a bracketed host that is not an IP
      address and a non-ASCII network location whose NFKC form gains one of `/?#@:`. */
  function UrlPath(url: string): (p: Option<string>)
    ensures p.Some? ==> '#' !in p.value && '?' !in p.value
  {
    var rest := AfterScheme(url);
    var (netloc, tail) :=
      if StartsWith(rest, "//") then
        var e := NetlocEnd(rest, 2); (rest[2..e], rest[e..])
      else ("", rest);
    if ('[' in netloc) != (']' in netloc) then None
    else
      var r := Before(Before(tail, '#'), '?');
      BeforeMembers(Before(tail, '#'), '?');
      Some(r)
  }

  /** `os.path.basename`: the text after the last `/` (`p[p.rfind('/') + 1:]`). */
  function Basename(path: string): (r: string)
    ensures '/' !in r
    decreases |path|
  {
    if path == [] || path[|path| - 1] == '/' then []
    else Basename(path[..|path| - 1]) + [path[|path| - 1]]
  }

  /** The base name is what follows the last `/`. */
  lemma {:induction false} BasenameOfJoin(dir: string, name: string)
    requires '/' !in name
    ensures Basename(dir + "/" + name) == name
    decreases |name|
  {
    var p := dir + "/" + name;
    if name == [] {
      assert p[|p| - 1] == '/';
    } else {
      var n := |name| - 1;
      assert p[..|p| - 1] == dir + "/" + name[..n];
      assert name[n] in name;
      BasenameOfJoin(dir, name[..n]);
      assert name == name[..n] + [name[n]];
    }
  }

  /** An absolute URL whose host has no `/`, `?`, `#` or bracket keeps its path, up to
      any query or fragment. */
  lemma UrlPathOfAbsolute(scheme: string, host: string, path: string)
    requires scheme != [] && IsAsciiLetter(scheme[0])
    requires forall k :: 0 <= k < |scheme| ==> IsSchemeChar(scheme[k]) && scheme[k] != ':'
    requires forall k :: 0 <= k < |host| ==> !EndsNetloc(host[k]) && host[k] != '[' && host[k] != ']'
    requires (path == [] || path[0] == '/') && '?' !in path && '#' !in path
    ensures UrlPath(scheme + "://" + host + path) == Some(path)
  {
    var rest := "//" + host + path;
    assert scheme + "://" + host + path == scheme + ":" + rest;
    AfterSchemeOf(scheme, rest);
    UrlPathOfNetloc(scheme + ":" + rest, host, path);
  }

  lemma AfterSchemeOf(scheme: string, rest: string)
    requires scheme != [] && IsAsciiLetter(scheme[0])
    requires forall k :: 0 <= k < |scheme| ==> IsSchemeChar(scheme[k]) && scheme[k] != ':'
    ensures AfterScheme(scheme + ":" + rest) == rest
  {
    var url := scheme + ":" + rest;
    var i := |scheme|;
    assert url[..i] == scheme;
    IndexOfPrefixAt(url, ':', i);
    assert url[i + 1..] == rest;
    AllSchemeCharsOf(scheme);
  }

  lemma {:induction false} AllSchemeCharsOf(s: string)
    requires forall k :: 0 <= k < |s| ==> IsSchemeChar(s[k])
    ensures AllSchemeChars(s)
  {
    if s != [] {
      AllSchemeCharsOf(s[1..]);
    }
  }

  lemma UrlPathOfNetloc(url: string, host: string, path: string)
    requires AfterScheme(url) == "//" + host + path
    requires forall k :: 0 <= k < |host| ==> !EndsNetloc(host[k]) && host[k] != '[' && host[k] != ']'
    requires (path == [] || path[0] == '/') && '?' !in path && '#' !in path
    ensures UrlPath(url) == Some(path)
  {
    var rest := AfterScheme(url);
    assert StartsWith(rest, "//");
    NetlocAfter(rest, host, path);
    assert rest[2..2 + |host|] == host;
    assert rest[2 + |host|..] == path;
  }

  lemma {:induction false} NetlocAfter(rest: string, host: string, path: string)
    requires rest == "//" + host + path
    requires forall k :: 0 <= k < |host| ==> !EndsNetloc(host[k]) && host[k] != '[' && host[k] != ']'
    requires path == [] || path[0] == '/'
    ensures NetlocEnd(rest, 2) == 2 + |host|
  {
    NetlocEndAt(rest, 2, 2 + |host|);
  }

  /** The network location ends at the first `/`, `?` or `#`. */
  lemma {:induction false} NetlocEndAt(s: string, i: nat, e: nat)
    requires 2 <= i <= e <= |s|
    requires forall k :: i <= k < e ==> !EndsNetloc(s[k])
    requires e < |s| ==> EndsNetloc(s[e])
    ensures NetlocEnd(s, i) == e
    decreases e - i
  {
    if i < e {
      NetlocEndAt(s, i + 1, e);
    }
  }

  /** A link on the site itself keeps its path. */
  lemma UrlPathOnSite(path: string)
    requires (path == [] || path[0] == '/') && '?' !in path && '#' !in path
    ensures UrlPath(MainSiteUrl + path) == Some(path)
  {
    var host := "www.guildwars2.com";
    assert MainSiteUrl == "https" + "://" + host;
    UrlPathOfAbsolute("https", host, path);
  }

  lemma IndexOfPrefixAt(s: string, c: char, i: nat)
    requires i < |s| && s[i] == c && c !in s[..i]
    ensures c in s && IndexOf(s, c) == i
  {
    assert s[..i + 1][i] == c;
  }

  // ---------------------------------------------------------------------------
  // The job queue

  /** A link found by `LINK_PATTERN`: its `href` and its text. */
  datatype Link = Link(href: string, text: string)

  /** What the download threads take from the queue: a URL and the components that
      `os.path.join` joins into the file's path. */
  datatype Job = Job(url: string, path: seq<string>)

  /** The queue the gathering code fills; jobs leave it only in the download threads,
      which are not part of this model. */
  class JobQueue {
    var jobs: seq<Job>

    constructor()
      ensures jobs == []
    {
      jobs := [];
    }

    method Put(job: Job)
      modifies this
      ensures jobs == old(jobs) + [job]
    {
      jobs := jobs + [job];
    }
  }

  /** The links whose text is exactly the resolution asked for, in page order. */
  function Selected(links: seq<Link>, resolution: string): (sel: seq<Link>)
    ensures |sel| <= |links|
    ensures forall i :: 0 <= i < |sel| ==> sel[i].text == resolution
    decreases |links|
  {
    if links == [] then []
    else
      var last := links[|links| - 1];
      Selected(links[..|links| - 1], resolution) + (if last.text == resolution then [last] else [])
  }

  /** A link is selected exactly when its text is the resolution. */
  lemma {:induction false} SelectedMembers(links: seq<Link>, resolution: string)
    ensures forall l :: l in Selected(links, resolution) <==> l in links && l.text == resolution
    decreases |links|
  {
    if links != [] {
      var init := links[..|links| - 1];
      SelectedMembers(init, resolution);
      assert links == init + [links[|links| - 1]];
    }
  }

  // ---------------------------------------------------------------------------
  // get_media_urls

  /** The job for a wanted media link, or `None` when its URL has an unbalanced bracket
      in the network location, on which `urlsplit` raises. */
  function MediaJob(save: string, url: string): (j: Option<Job>)
    ensures j.None? <==> UrlPath(url).None?
    ensures j.Some? ==> (j.value.url == url && |j.value.path| == 3
      && j.value.path[0] == save && j.value.path[1] == "Media" && '/' !in j.value.path[2])
  {
    match UrlPath(url)
    case None => None
    case Some(p) => Some(Job(url, [save, "Media", Basename(p)]))
  }

  /** What a gathering loop queued, and whether an exception ended it. */
  datatype Gathered = Gathered(jobs: seq<Job>, failed: bool)

  /** One turn of the media loop: a wanted link is queued, or raises. */
  function MediaStep(prev: Gathered, last: Link, resolution: string, save: string): (g: Gathered)
    ensures g.failed <==> prev.failed || (last.text == resolution && Unsplittable(last))
    ensures !g.failed ==> (g.jobs == prev.jobs +
      (if last.text == resolution then [MediaJob(save, CleanupUrl(last.href)).value] else []))
    ensures g.failed ==> g.jobs == prev.jobs
  {
    if prev.failed || last.text != resolution then prev
    else
      match MediaJob(save, CleanupUrl(last.href))
      case None => Gathered(prev.jobs, true)
      case Some(j) => Gathered(prev.jobs + [j], false)
  }

  /** The jobs `get_media_urls` queues from the links of the media page: every wanted
      link in turn, until a URL that does not split raises and ends the function. */
  function MediaJobs(links: seq<Link>, resolution: string, save: string): (g: Gathered)
    decreases |links|
  {
    if links == [] then Gathered([], false)
    else MediaStep(MediaJobs(links[..|links| - 1], resolution, save), links[|links| - 1], resolution, save)
  }

  predicate Unsplittable(l: Link) { UrlPath(CleanupUrl(l.href)).None? }

  /** Some wanted link of `links` has a URL that does not split. */
  predicate SomeRaises(links: seq<Link>, resolution: string) {
    exists i :: 0 <= i < |links| && links[i].text == resolution && Unsplittable(links[i])
  }

  /** The media loop stops exactly when some wanted link's URL does not split. */
  lemma {:induction false} MediaJobsFailure(links: seq<Link>, resolution: string, save: string)
    ensures MediaJobs(links, resolution, save).failed <==> SomeRaises(links, resolution)
    decreases |links|
  {
    if links != [] {
      MediaJobsFailure(links[..|links| - 1], resolution, save);
      RaisingSnoc(links, links[..|links| - 1], links[|links| - 1], resolution);
      MediaJobsSnocFailed(links, resolution, save);
    }
  }

  /** One more link fails the media loop exactly when it was failed or that link raises. */
  lemma MediaJobsSnocFailed(links: seq<Link>, resolution: string, save: string)
    requires links != []
    ensures MediaJobs(links, resolution, save).failed <==>
      MediaJobs(links[..|links| - 1], resolution, save).failed
      || (links[|links| - 1].text == resolution && Unsplittable(links[|links| - 1]))
  {
  }

  /** Some link of `init + [last]` raises exactly when one of `init` does or `last` does. */
  lemma RaisingSnoc(links: seq<Link>, init: seq<Link>, last: Link, resolution: string)
    requires links == init + [last]
    ensures SomeRaises(links, resolution) <==>
      SomeRaises(init, resolution) || (last.text == resolution && Unsplittable(last))
  {
    if SomeRaises(links, resolution) {
      var i :| 0 <= i < |links| && links[i].text == resolution && Unsplittable(links[i]);
      if i < |init| {
        assert init[i] == links[i];
      }
    }
    if SomeRaises(init, resolution) {
      var i :| 0 <= i < |init| && init[i].text == resolution && Unsplittable(init[i]);
      assert links[i] == init[i];
    }
    if last.text == resolution && Unsplittable(last) {
      assert links[|init|] == last;
    }
  }

  /** When no exception occurs, every wanted link is queued, in page order, each as the
      job its cleaned URL gives. */
  lemma {:induction false} MediaJobsComplete(links: seq<Link>, resolution: string, save: string)
    requires !MediaJobs(links, resolution, save).failed
    ensures var g := MediaJobs(links, resolution, save);
      var sel := Selected(links, resolution);
      |g.jobs| == |sel| &&
      forall i :: 0 <= i < |sel| ==> MediaJob(save, CleanupUrl(sel[i].href)) == Some(g.jobs[i])
    decreases |links|
  {
    if links != [] {
      var n := |links| - 1;
      MediaJobsComplete(links[..n], resolution, save);
    }
  }

  /** A root-relative link to a file on the site is saved under its own file name. */
  lemma MediaJobOfSiteLink(save: string, dir: string, name: string)
    requires dir != [] && dir[0] != '/' && '/' !in name
    requires '?' !in dir && '#' !in dir && '?' !in name && '#' !in name
    ensures var href := "/" + dir + "/" + name;
      MediaJob(save, CleanupUrl(href)) == Some(Job(MainSiteUrl + href, [save, "Media", name]))
  {
    var href := "/" + dir + "/" + name;
    assert href[0] == '/' && href[1] == dir[0];
    var url := CleanupUrl(href);
    assert url == MainSiteUrl + href;
    NoQueryInSitePath(dir, name);
    UrlPathOnSite(href);
    assert UrlPath(url) == Some(href);
    assert href == ("/" + dir) + "/" + name;
    BasenameOfJoin("/" + dir, name);
    assert MediaJob(save, url) == Some(Job(url, [save, "Media", Basename(href)]));
  }

  lemma NoQueryInSitePath(dir: string, name: string)
    requires '?' !in dir && '#' !in dir && '?' !in name && '#' !in name
    ensures '?' !in "/" + dir + "/" + name && '#' !in "/" + dir + "/" + name
  {
    var href := "/" + dir + "/" + name;
    forall i | 0 <= i < |href| ensures href[i] != '?' && href[i] != '#' {
      if 1 <= i <= |dir| {
        assert href[i] == dir[i - 1];
      } else if i > |dir| + 1 {
        assert href[i] == name[i - |dir| - 2];
      }
    }
  }

  /** `get_media_urls` on the links of the media page: it queues what `MediaJobs`
      gives and counts it; `failed` is the uncaught ValueError. */
  method GetMediaUrls(links: seq<Link>, resolution: string, save: string, queue: JobQueue)
    returns (found: nat, failed: bool)
    modifies queue
    ensures var g := MediaJobs(links, resolution, save);
      queue.jobs == old(queue.jobs) + g.jobs && found == |g.jobs| && failed == g.failed
  {
    found := 0;
    failed := false;
    for i := 0 to |links|
      invariant var g := MediaJobs(links[..i], resolution, save);
        !g.failed && queue.jobs == old(queue.jobs) + g.jobs && found == |g.jobs|
    {
      PrefixOfPrefix(links, i);
      var added;
      added, failed := GetMediaUrl(links[i], resolution, save, queue, old(queue.jobs),
        MediaJobs(links[..i], resolution, save));
      if failed {
        MediaJobsStaysFailed(links, resolution, save, i + 1);
        return;
      }
      found := found + added;
    }
    WholePrefix(links);
  }

  /** One turn of the media loop: queue the job of `link` when it is wanted, as
      `MediaStep` says, or report the ValueError its URL raises. */
  method GetMediaUrl(link: Link, resolution: string, save: string, queue: JobQueue,
                     ghost base: seq<Job>, ghost prev: Gathered)
    returns (added: nat, failed: bool)
    requires !prev.failed && queue.jobs == base + prev.jobs
    modifies queue
    ensures var g := MediaStep(prev, link, resolution, save);
      failed == g.failed && queue.jobs == base + g.jobs && added == |g.jobs| - |prev.jobs|
  {
    added := 0;
    failed := false;
    var fileUrl := CleanupUrl(link.href);
    if link.text == resolution {
      var job := MediaJob(save, fileUrl);
      if job.None? {
        failed := true;
        return;
      }
      queue.Put(job.value);
      ConcatAssoc(base, prev.jobs, [job.value]);
      added := 1;
    }
  }

  /** Once the media loop has failed, the later links change nothing. */
  lemma {:induction false} MediaJobsStaysFailed(links: seq<Link>, resolution: string, save: string, k: nat)
    requires k <= |links| && MediaJobs(links[..k], resolution, save).failed
    ensures MediaJobs(links, resolution, save) == MediaJobs(links[..k], resolution, save)
    decreases |links| - k
  {
    if k < |links| {
      PrefixOfPrefix(links, k);
      MediaJobsStaysFailed(links, resolution, save, k + 1);
    } else {
      WholePrefix(links);
    }
  }

  // ---------------------------------------------------------------------------
  // get_release_urls

  /** The file name a release wallpaper gets: date, section, release and the URL's
      base name, separated by single spaces. */
  function ReleaseFileName(date: string, section: string, release: string, base: string): (f: string)
    ensures |f| == |date| + |section| + |release| + |base| + 3
    ensures f[..|date|] == date && f[|f| - |base|..] == base
  {
    date + " " + section + " " + release + " " + base
  }

  /** The job for a wanted link on a release page, or `None` when its URL has an
      unbalanced bracket in the network location, on which `urlsplit` raises. */
  function ReleaseJob(save: string, date: string, section: string, release: string, url: string): (j: Option<Job>)
    ensures j.None? <==> UrlPath(url).None?
    ensures j.Some? ==> j.value.url == url && |j.value.path| == 2 && j.value.path[0] == save
  {
    match UrlPath(url)
    case None => None
    case Some(p) => Some(Job(url, [save, ReleaseFileName(date, section, release, Basename(p))]))
  }

  /** One turn of the release-page loop: a wanted link is queued unless its URL does
      not split. */
  function ReleaseStep(prev: seq<Job>, last: Link, resolution: string, save: string,
                       date: string, section: string, release: string): (jobs: seq<Job>)
    ensures last.text == resolution && !Unsplittable(last) ==>
      jobs == prev + [ReleaseJob(save, date, section, release, CleanupUrl(last.href)).value]
    ensures last.text != resolution || Unsplittable(last) ==> jobs == prev
  {
    if last.text != resolution then prev
    else
      match ReleaseJob(save, date, section, release, CleanupUrl(last.href))
      case None => prev
      case Some(j) => prev + [j]
  }

  /** The jobs `get_release_urls` queues from the links of a release page: a wanted link
      whose URL does not split is skipped (the ValueError is caught). */
  function ReleaseJobs(links: seq<Link>, resolution: string, save: string,
                       date: string, section: string, release: string): (jobs: seq<Job>)
    decreases |links|
  {
    if links == [] then []
    else
      ReleaseStep(ReleaseJobs(links[..|links| - 1], resolution, save, date, section, release),
        links[|links| - 1], resolution, save, date, section, release)
  }

  /** `j` is the job of some wanted link of `links`. */
  predicate JobOfWantedLink(j: Job, links: seq<Link>, resolution: string, save: string,
                            date: string, section: string, release: string) {
    exists i :: 0 <= i < |links| && links[i].text == resolution &&
      ReleaseJob(save, date, section, release, CleanupUrl(links[i].href)) == Some(j)
  }

  /** Every job from a release page comes from a wanted link on it. */
  lemma {:induction false} ReleaseJobsFromLinks(links: seq<Link>, resolution: string, save: string,
                                                date: string, section: string, release: string)
    ensures forall j :: j in ReleaseJobs(links, resolution, save, date, section, release) ==>
      JobOfWantedLink(j, links, resolution, save, date, section, release)
    decreases |links|
  {
    if links != [] {
      var init := links[..|links| - 1];
      ReleaseJobsFromLinks(init, resolution, save, date, section, release);
      forall j | j in ReleaseJobs(links, resolution, save, date, section, release)
        ensures JobOfWantedLink(j, links, resolution, save, date, section, release)
      {
        if j in ReleaseJobs(init, resolution, save, date, section, release) {
          JobOfWantedLinkSnoc(j, links, init, resolution, save, date, section, release);
        } else {
          assert links[|links| - 1].text == resolution;
          assert ReleaseJob(save, date, section, release, CleanupUrl(links[|links| - 1].href)) == Some(j);
        }
      }
    }
  }

  lemma JobOfWantedLinkSnoc(j: Job, links: seq<Link>, init: seq<Link>, resolution: string, save: string,
                            date: string, section: string, release: string)
    requires |init| <= |links| && init == links[..|init|] && JobOfWantedLink(j, init, resolution, save, date, section, release)
    ensures JobOfWantedLink(j, links, resolution, save, date, section, release)
  {
    var i :| 0 <= i < |init| && init[i].text == resolution &&
      ReleaseJob(save, date, section, release, CleanupUrl(init[i].href)) == Some(j);
    assert links[i] == init[i];
  }

  /** `jobs` are the jobs of the links `sel`, one each, in order. */
  predicate ReleaseJobsOf(jobs: seq<Job>, sel: seq<Link>, save: string,
                          date: string, section: string, release: string) {
    |jobs| == |sel| &&
    forall i :: 0 <= i < |sel| ==>
      ReleaseJob(save, date, section, release, CleanupUrl(sel[i].href)) == Some(jobs[i])
  }

  lemma ReleaseJobsOfSnoc(jobs: seq<Job>, sel: seq<Link>, last: Link, save: string,
                          date: string, section: string, release: string)
    requires ReleaseJobsOf(jobs, sel, save, date, section, release)
    requires ReleaseJob(save, date, section, release, CleanupUrl(last.href)).Some?
    ensures ReleaseJobsOf(jobs + [ReleaseJob(save, date, section, release, CleanupUrl(last.href)).value],
      sel + [last], save, date, section, release)
  {
  }

  /** With no unsplittable wanted link, every wanted link is queued, in page order. */
  lemma {:induction false} ReleaseJobsComplete(links: seq<Link>, resolution: string, save: string,
                                               date: string, section: string, release: string)
    requires !SomeRaises(links, resolution)
    ensures ReleaseJobsOf(ReleaseJobs(links, resolution, save, date, section, release),
      Selected(links, resolution), save, date, section, release)
    decreases |links|
  {
    if links != [] {
      var init := links[..|links| - 1];
      RaisingSnoc(links, init, links[|links| - 1], resolution);
      ReleaseJobsComplete(init, resolution, save, date, section, release);
      if links[|links| - 1].text == resolution {
        ReleaseJobsOfSnoc(ReleaseJobs(init, resolution, save, date, section, release),
          Selected(init, resolution), links[|links| - 1], save, date, section, release);
      }
    }
  }

  /** `get_release_urls`: a page that cannot be opened queues nothing; otherwise the
      jobs of `ReleaseJobs` are queued and counted. */
  method GetReleaseUrls(section: string, release: string, date: string, url: string,
                        resolution: string, save: string, web: map<string, seq<Link>>, queue: JobQueue)
    returns (found: nat)
    modifies queue
    ensures queue.jobs == old(queue.jobs) + PageJobs(Target(section, release, date, url), web, resolution, save)
    ensures found == |queue.jobs| - |old(queue.jobs)|
  {
    found := 0;
    if url !in web {
      return;
    }
    var links := web[url];
    for i := 0 to |links|
      invariant var jobs := ReleaseJobs(links[..i], resolution, save, date, section, release);
        queue.jobs == old(queue.jobs) + jobs && found == |jobs|
    {
      PrefixOfPrefix(links, i);
      var fileUrl := CleanupUrl(links[i].href);
      if links[i].text == resolution {
        var job := ReleaseJob(save, date, section, release, fileUrl);
        if job.None? {
          continue;
        }
        ghost var prev := ReleaseJobs(links[..i], resolution, save, date, section, release);
        queue.Put(job.value);
        ConcatAssoc(old(queue.jobs), prev, [job.value]);
        found := found + 1;
      }
    }
    WholePrefix(links);
  }

  // ---------------------------------------------------------------------------
  // get_releases_urls

  /** A `<li>` of a release section: its `<h5>` names, its `datetime` values and its links. */
  datatype ListItem = ListItem(names: seq<string>, dates: seq<string>, links: seq<Link>)

  /** A release section: its `<h4>` titles and its list items. */
  datatype Section = Section(titles: seq<string>, items: seq<ListItem>)

  /** The arguments a release-page thread is started with. */
  datatype Target = Target(section: string, release: string, date: string, url: string)

  /** `xs[0] if xs else ''`. */
  function FirstOr(xs: seq<string>): (r: string)
    ensures xs != [] ==> r == xs[0]
    ensures xs == [] ==> r == ""
  {
    if xs != [] then xs[0] else ""
  }

  /** The threads started for the links of one list item, in order. */
  function LinkTargets(section: string, release: string, date: string, links: seq<Link>): (ts: seq<Target>)
    ensures |ts| == |links|
    ensures forall i :: 0 <= i < |ts| ==>
      ts[i] == Target(section, release, date, CleanupUrl(links[i].href))
    decreases |links|
  {
    if links == [] then []
    else
      var n := |links| - 1;
      LinkTargets(section, release, date, links[..n]) + [Target(section, release, date, CleanupUrl(links[n].href))]
  }

  /** The threads started for one list item. */
  function ItemTargets(section: string, item: ListItem): seq<Target> {
    LinkTargets(section, CleanupTitle(FirstOr(item.names)), FirstOr(item.dates), item.links)
  }

  /** The threads started for the list items of one section. */
  function ItemsTargets(section: string, items: seq<ListItem>): seq<Target>
    decreases |items|
  {
    if items == [] then []
    else
      var n := |items| - 1;
      ItemsTargets(section, items[..n]) + ItemTargets(section, items[n])
  }

  /** The threads started for one section. */
  function SectionTargets(s: Section): seq<Target> {
    ItemsTargets(CleanupTitle(FirstOr(s.titles)), s.items)
  }

  /** The threads `get_releases_urls` starts, in the order it starts them. */
  function IndexTargets(sections: seq<Section>): seq<Target>
    decreases |sections|
  {
    if sections == [] then []
    else
      var n := |sections| - 1;
      IndexTargets(sections[..n]) + SectionTargets(sections[n])
  }

  /** What one release-page thread queues. */
  function PageJobs(t: Target, web: map<string, seq<Link>>, resolution: string, save: string): seq<Job> {
    if t.url in web then ReleaseJobs(web[t.url], resolution, save, t.date, t.section, t.release) else []
  }

  /** What the release-page threads queue, run one after another in start order. */
  function CrawlJobs(targets: seq<Target>, web: map<string, seq<Link>>, resolution: string, save: string): seq<Job>
    decreases |targets|
  {
    if targets == [] then []
    else
      var n := |targets| - 1;
      CrawlJobs(targets[..n], web, resolution, save) + PageJobs(targets[n], web, resolution, save)
  }

  lemma {:induction false} CrawlJobsConcat(a: seq<Target>, b: seq<Target>, web: map<string, seq<Link>>,
                                           resolution: string, save: string)
    ensures CrawlJobs(a + b, web, resolution, save) == CrawlJobs(a, web, resolution, save) + CrawlJobs(b, web, resolution, save)
    decreases |b|
  {
    if b != [] {
      var n := |b| - 1;
      assert (a + b)[..|a| + n] == a + b[..n];
      assert (a + b)[|a| + n] == b[n];
      CrawlJobsConcat(a, b[..n], web, resolution, save);
      ConcatAssoc(CrawlJobs(a, web, resolution, save), CrawlJobs(b[..n], web, resolution, save),
        PageJobs(b[n], web, resolution, save));
    } else {
      assert a + b == a;
    }
  }

  /** Every job of `jobs` is saved directly under `save` and downloads from a cleaned URL. */
  predicate SavedUnder(jobs: seq<Job>, save: string) {
    forall j :: j in jobs ==> |j.path| == 2 && j.path[0] == save && CleanupUrl(j.url) == j.url
  }

  /** Every job the release threads queue is saved directly under the save path and
      downloads from a cleaned URL. */
  lemma {:induction false} CrawlJobsUnderSave(targets: seq<Target>, web: map<string, seq<Link>>,
                                              resolution: string, save: string)
    ensures SavedUnder(CrawlJobs(targets, web, resolution, save), save)
    decreases |targets|
  {
    if targets != [] {
      CrawlJobsUnderSave(targets[..|targets| - 1], web, resolution, save);
      PageJobsUnderSave(targets[|targets| - 1], web, resolution, save);
    }
  }

  /** Every job one release thread queues is saved directly under the save path. */
  lemma PageJobsUnderSave(t: Target, web: map<string, seq<Link>>, resolution: string, save: string)
    ensures SavedUnder(PageJobs(t, web, resolution, save), save)
  {
    if t.url in web {
      ReleaseJobsFromLinks(web[t.url], resolution, save, t.date, t.section, t.release);
      forall j | j in PageJobs(t, web, resolution, save)
        ensures |j.path| == 2 && j.path[0] == save && CleanupUrl(j.url) == j.url
      {
        assert JobOfWantedLink(j, web[t.url], resolution, save, t.date, t.section, t.release);
        var i :| 0 <= i < |web[t.url]| && web[t.url][i].text == resolution &&
          ReleaseJob(save, t.date, t.section, t.release, CleanupUrl(web[t.url][i].href)) == Some(j);
        ReleaseJobUnderSave(web[t.url][i].href, j, save, t.date, t.section, t.release);
      }
    }
  }

  /** A release job is saved directly under the save path and downloads from a cleaned URL. */
  lemma ReleaseJobUnderSave(href: string, j: Job, save: string, date: string, section: string, release: string)
    requires ReleaseJob(save, date, section, release, CleanupUrl(href)) == Some(j)
    ensures |j.path| == 2 && j.path[0] == save && CleanupUrl(j.url) == j.url
  {
    CleanupUrlIdempotent(href);
  }

  /** Every thread is started on a cleaned link of the index page. */
  lemma {:induction false} IndexTargetsCleaned(sections: seq<Section>)
    ensures forall t :: t in IndexTargets(sections) ==> CleanupUrl(t.url) == t.url
    decreases |sections|
  {
    if sections != [] {
      var n := |sections| - 1;
      IndexTargetsCleaned(sections[..n]);
      ItemsTargetsCleaned(CleanupTitle(FirstOr(sections[n].titles)), sections[n].items);
    }
  }

  lemma {:induction false} ItemsTargetsCleaned(section: string, items: seq<ListItem>)
    ensures forall t :: t in ItemsTargets(section, items) ==> CleanupUrl(t.url) == t.url
    decreases |items|
  {
    if items != [] {
      var n := |items| - 1;
      ItemsTargetsCleaned(section, items[..n]);
      var ts := ItemTargets(section, items[n]);
      forall t | t in ts ensures CleanupUrl(t.url) == t.url {
        var i :| 0 <= i < |ts| && ts[i] == t;
        CleanupUrlIdempotent(items[n].links[i].href);
      }
    }
  }

  /** Section and release names in a thread's arguments are clean titles. */
  lemma {:induction false} IndexTargetsTitled(sections: seq<Section>)
    ensures forall t :: t in IndexTargets(sections) ==>
      CleanupTitle(t.section) == t.section && CleanupTitle(t.release) == t.release
    decreases |sections|
  {
    if sections != [] {
      var n := |sections| - 1;
      IndexTargetsTitled(sections[..n]);
      ItemsTargetsTitled(FirstOr(sections[n].titles), sections[n].items);
    }
  }

  lemma {:induction false} ItemsTargetsTitled(title: string, items: seq<ListItem>)
    ensures forall t :: t in ItemsTargets(CleanupTitle(title), items) ==>
      CleanupTitle(t.section) == t.section && CleanupTitle(t.release) == t.release
    decreases |items|
  {
    if items != [] {
      var n := |items| - 1;
      ItemsTargetsTitled(title, items[..n]);
      CleanupTitleIdempotent(title);
      CleanupTitleIdempotent(FirstOr(items[n].names));
    }
  }

  /** Starts (and here runs to completion) the thread for every link of a list item. */
  method ItemThreads(section: string, item: ListItem, resolution: string, save: string,
                     web: map<string, seq<Link>>, queue: JobQueue)
    modifies queue
    ensures queue.jobs == old(queue.jobs) + CrawlJobs(ItemTargets(section, item), web, resolution, save)
  {
    var release := CleanupTitle(FirstOr(item.names));
    var date := FirstOr(item.dates);
    var links := item.links;
    for i := 0 to |links|
      invariant queue.jobs == old(queue.jobs) +
        CrawlJobs(LinkTargets(section, release, date, links[..i]), web, resolution, save)
    {
      PrefixOfPrefix(links, i);
      var url := CleanupUrl(links[i].href);
      ghost var before := queue.jobs;
      var _ := GetReleaseUrls(section, release, date, url, resolution, save, web, queue);
      ghost var ts := LinkTargets(section, release, date, links[..i + 1]);
      assert ts[..i] == LinkTargets(section, release, date, links[..i]);
      assert ts[i] == Target(section, release, date, url);
      ConcatAssoc(old(queue.jobs), CrawlJobs(ts[..i], web, resolution, save),
        PageJobs(ts[i], web, resolution, save));
    }
    WholePrefix(links);
  }

  /** Starts the threads for every list item of a section. */
  method SectionThreads(s: Section, resolution: string, save: string,
                        web: map<string, seq<Link>>, queue: JobQueue)
    modifies queue
    ensures queue.jobs == old(queue.jobs) + CrawlJobs(SectionTargets(s), web, resolution, save)
  {
    var title := CleanupTitle(FirstOr(s.titles));
    var items := s.items;
    for i := 0 to |items|
      invariant queue.jobs == old(queue.jobs) + CrawlJobs(ItemsTargets(title, items[..i]), web, resolution, save)
    {
      PrefixOfPrefix(items, i);
      ghost var done := ItemsTargets(title, items[..i]);
      ItemThreads(title, items[i], resolution, save, web, queue);
      CrawlJobsConcat(done, ItemTargets(title, items[i]), web, resolution, save);
      ConcatAssoc(old(queue.jobs), CrawlJobs(done, web, resolution, save),
        CrawlJobs(ItemTargets(title, items[i]), web, resolution, save));
    }
    WholePrefix(items);
  }

  /** `get_releases_urls` on the sections of the releases page. */
  method GetReleasesUrls(sections: seq<Section>, resolution: string, save: string,
                         web: map<string, seq<Link>>, queue: JobQueue)
    modifies queue
    ensures queue.jobs == old(queue.jobs) + CrawlJobs(IndexTargets(sections), web, resolution, save)
  {
    for i := 0 to |sections|
      invariant queue.jobs == old(queue.jobs) + CrawlJobs(IndexTargets(sections[..i]), web, resolution, save)
    {
      PrefixOfPrefix(sections, i);
      ghost var done := IndexTargets(sections[..i]);
      SectionThreads(sections[i], resolution, save, web, queue);
      CrawlJobsConcat(done, SectionTargets(sections[i]), web, resolution, save);
      ConcatAssoc(old(queue.jobs), CrawlJobs(done, web, resolution, save),
        CrawlJobs(SectionTargets(sections[i]), web, resolution, save));
    }
    WholePrefix(sections);
  }

  // ---------------------------------------------------------------------------
  // The script's gathering phase

  /** The jobs the download threads find once gathering is over, or `None` when the
      script dies first: the releases page or the media page cannot be opened, or a
      wanted media link does not split. Release threads run in start order, and all
      of them before the media page is read. */
  function Gather(index: Option<seq<Section>>, media: Option<seq<Link>>, web: map<string, seq<Link>>,
                  resolution: string, save: string): Option<seq<Job>>
  {
    if index.None? || media.None? then None
    else
      var releases := CrawlJobs(IndexTargets(index.value), web, resolution, save);
      var m := MediaJobs(media.value, resolution, save);
      if m.failed then None else Some(releases + m.jobs)
  }

  /** The gathering phase: release threads first, then the media page. */
  method GatherUrls(index: Option<seq<Section>>, media: Option<seq<Link>>, web: map<string, seq<Link>>,
                    resolution: string, save: string)
    returns (queued: Option<seq<Job>>)
    ensures queued == Gather(index, media, web, resolution, save)
  {
    if index.None? {
      return None;
    }
    var queue := new JobQueue();
    GetReleasesUrls(index.value, resolution, save, web, queue);
    ghost var releases := CrawlJobs(IndexTargets(index.value), web, resolution, save);
    assert [] + releases == releases;
    assert queue.jobs == releases;
    if media.None? {
      return None;
    }
    var _, failed := GetMediaUrls(media.value, resolution, save, queue);
    if failed {
      assert MediaJobs(media.value, resolution, save).failed;
      return None;
    }
    queued := Some(queue.jobs);
  }

  /** The script reaches its downloads exactly when both pages open and every wanted
      media link splits. */
  lemma GatherSucceeds(index: Option<seq<Section>>, media: Option<seq<Link>>, web: map<string, seq<Link>>,
                       resolution: string, save: string)
    ensures Gather(index, media, web, resolution, save).Some? <==>
      index.Some? && media.Some? &&
      forall i :: 0 <= i < |media.value| && media.value[i].text == resolution ==> !Unsplittable(media.value[i])
  {
    if media.Some? {
      MediaJobsFailure(media.value, resolution, save);
    }
  }

  /** Every job reaching the downloads is saved under the save path and downloads from a
      cleaned URL; the last jobs are the media page's, one per wanted link. */
  lemma GatherJobs(index: Option<seq<Section>>, media: Option<seq<Link>>, web: map<string, seq<Link>>,
                   resolution: string, save: string)
    requires Gather(index, media, web, resolution, save).Some?
    ensures var q := Gather(index, media, web, resolution, save).value;
      (forall j :: j in q ==> |j.path| >= 2 && j.path[0] == save && CleanupUrl(j.url) == j.url) &&
      |Selected(media.value, resolution)| <= |q|
  {
    var releases := CrawlJobs(IndexTargets(index.value), web, resolution, save);
    var m := MediaJobs(media.value, resolution, save);
    CrawlJobsUnderSave(IndexTargets(index.value), web, resolution, save);
    MediaJobsComplete(media.value, resolution, save);
    var sel := Selected(media.value, resolution);
    forall j | j in m.jobs ensures |j.path| >= 2 && j.path[0] == save && CleanupUrl(j.url) == j.url {
      var i :| 0 <= i < |m.jobs| && m.jobs[i] == j;
      CleanupUrlIdempotent(sel[i].href);
      assert MediaJob(save, CleanupUrl(sel[i].href)) == Some(j);
    }
  }
}
