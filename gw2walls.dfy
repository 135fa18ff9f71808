/** The first crawler (GW2Walls.py): wallpaper records found on the media page and on
    each release page, their file names, and the command-line filter that picks which
    of them to write. Pages are given already parsed; `web` maps a URL to what the
    site answers for it. */
module GW2Walls {
  import opened Text
  import opened Dates

  const UrlMainSite: string := "https://www.guildwars2.com"
  const UrlMedia: string := UrlMainSite + "/en/media/wallpapers/"
  const UrlReleases: string := UrlMainSite + "/en/the-game/releases/"
  const TrimFromTitle: string := " | GuildWars2.com"

  // ---------------------------------------------------------------------------
  // Records

  datatype Kind = Media | Release

  /** The `type` field's text, which is also the folder the file goes in. */
  function KindName(k: Kind): (s: string)
    ensures s == "media" || s == "release"
    ensures (s == "media") <==> k == Media
  {
    match k
    case Media => "media"
    case Release => "release"
  }

  /** A found wallpaper; `date` and `num` are empty for media wallpapers. */
  datatype Wallpaper = Wallpaper(
    name: string, dimensions: string, url: string, kind: Kind, date: string, num: string)

  /** `f"{date} {name} {num} {dimensions}.jpg"`: four fields and three spaces, with no
      field dropped when it is empty. */
  function FileName(w: Wallpaper): (r: string)
    ensures |r| == |w.date| + |w.name| + |w.num| + |w.dimensions| + 7
    ensures StartsWith(r, w.date + " ") && r[|r| - 4..] == ".jpg"
  {
    w.date + " " + w.name + " " + w.num + " " + w.dimensions + ".jpg"
  }

  /** `root / type / FileName`, a path as a sequence of segments. */
  function GetPath(w: Wallpaper, root: seq<string>): (p: seq<string>)
    ensures |p| == |root| + 2 && p[..|root|] == root
    ensures p[|root|] == KindName(w.kind) && p[|root| + 1] == FileName(w)
  {
    root + [KindName(w.kind), FileName(w)]
  }

  /** A media record has no date and no number, so its file name starts with a space
      and has two spaces before the dimensions. */
  lemma MediaFileName(name: string, dims: string, url: string)
    ensures FileName(Wallpaper(name, dims, url, Media, "", "")) == " " + name + "  " + dims + ".jpg"
  {
  }

  // ---------------------------------------------------------------------------
  // Names

  /** `"".replace(TRIM_FROM_TITLE, "").join(c for c in name if c in ALLOWED_CHARACTERS)`:
      the `replace` acts on the empty separator, not on the name, so the name is only
      filtered. */
  function CleanName(name: string): (r: string)
    ensures forall i :: 0 <= i < |r| ==> IsFilenameChar(r[i])
  {
    var separator := ReplaceAll("", TrimFromTitle, "");
    var kept := Keep(name, IsFilenameChar);
    assert separator + kept == kept;
    separator + kept
  }

  lemma CleanNameIsKeep(name: string)
    ensures CleanName(name) == Keep(name, IsFilenameChar)
  {
    var kept := Keep(name, IsFilenameChar);
    assert ReplaceAll("", TrimFromTitle, "") + kept == kept;
  }

  /** Cleaning only drops characters: the rest keep their order, and every allowed
      character occurs as often as in the input. */
  lemma CleanNameDropsOnlyForbidden(name: string)
    ensures IsSubsequence(CleanName(name), name)
    ensures forall c :: multiset(CleanName(name))[c] == if IsFilenameChar(c) then multiset(name)[c] else 0
  {
    CleanNameIsKeep(name);
    KeepMembers(name, IsFilenameChar);
    KeepCounts(name, IsFilenameChar);
  }

  lemma CleanNameIdempotent(name: string)
    ensures CleanName(CleanName(name)) == CleanName(name)
  {
    CleanNameIsKeep(name);
    CleanNameIsKeep(CleanName(name));
    KeepIdempotent(name, IsFilenameChar);
  }

  /** A name made only of allowed characters is kept as it is. */
  lemma CleanNameKeepsClean(name: string)
    requires forall i :: 0 <= i < |name| ==> IsFilenameChar(name[i])
    ensures CleanName(name) == name
  {
    CleanNameIsKeep(name);
    KeepAllKept(name, IsFilenameChar);
  }

  lemma KeepBar()
    ensures Keep(" | ", IsFilenameChar) == "  "
  {
    assert " | "[1..] == "| " && "| "[1..] == " " && " "[1..] == "";
  }

  lemma KeepSiteName()
    ensures Keep("GuildWars2.com", IsFilenameChar) == "GuildWars2.com"
  {
    KeepAllKept("GuildWars2.com", IsFilenameChar);
  }

  lemma KeepSiteSuffix(suffix: string)
    requires suffix == " | " + "GuildWars2.com"
    ensures Keep(suffix, IsFilenameChar) == "  " + "GuildWars2.com"
  {
    KeepConcat(" | ", "GuildWars2.com", IsFilenameChar);
    KeepBar();
    KeepSiteName();
  }

  lemma CleanNameAppendSiteSuffix(title: string, suffix: string)
    requires suffix == " | " + "GuildWars2.com"
    ensures CleanName(title + suffix) == CleanName(title) + "  " + "GuildWars2.com"
  {
    CleanNameIsKeep(title + suffix);
    CleanNameIsKeep(title);
    KeepConcat(title, suffix, IsFilenameChar);
    KeepSiteSuffix(suffix);
  }

  /** The site's title suffix survives cleaning with only its `|` dropped: two spaces
      and the site's name stay at the end. */
  lemma CleanNameKeepsSiteSuffix(title: string)
    ensures CleanName(title + TrimFromTitle) == CleanName(title) + "  " + "GuildWars2.com"
  {
    CleanNameAppendSiteSuffix(title, TrimFromTitle);
  }

  /** `__prepend_str("https:", href)` on a root-relative `/x` gives `https:/x`, which
      has only one slash after the scheme. */
  lemma HttpsPrefixOnRootPath(path: string)
    requires StartsWith(path, "/") && !StartsWith(path, "//")
    ensures EnsurePrefix("https:", path) == "https:" + path
    ensures !StartsWith(EnsurePrefix("https:", path), "https://")
  {
    assert !StartsWith(path, "https:") by {
      if |path| >= 6 { assert path[..6][0] == path[0]; }
      assert path[..1] == "/";
    }
    var r := EnsurePrefix("https:", path);
    if |path| >= 2 {
      assert r[6..8] == path[..2];
      assert path[..2] != "//" by { assert !StartsWith(path, "//"); }
    }
  }

  /** A release URL built from the site's address always holds a `/`, so the segment
      before its last `/` exists. */
  lemma MainSiteUrlHasSlash(href: string)
    ensures '/' in EnsurePrefix(UrlMainSite, href)
  {
    var r := EnsurePrefix(UrlMainSite, href);
    assert r[..|UrlMainSite|] == UrlMainSite;
    assert r[6] == '/';
  }

  // ---------------------------------------------------------------------------
  // Release dates

  /** `url.split("/")[-2]` parsed by each of `DATE_FORMATS` in turn: the ISO text of
      the first that matches, or `""` when none does. `None` stands for the IndexError
      raised when the URL has no `/`. */
  method ExtractReleaseDate(url: string) returns (r: Option<string>)
    ensures r.None? <==> '/' !in url
    ensures '/' in url ==> r == Some(DateText(FirstParse(DateFormats, SecondToLastSegment(url, '/'))))
  {
    if '/' !in url {
      return None;
    }
    var segment := SecondToLastSegment(url, '/');
    for i := 0 to |DateFormats|
      invariant forall k :: 0 <= k < i ==> Parse(DateFormats[k], segment).None?
    {
      var d := Parse(DateFormats[i], segment);
      if d.Some? {
        FirstParseFirstSuccess(DateFormats, segment, i);
        return Some(Iso(d.value));
      }
    }
    return Some("");
  }

  /** The date text of a release URL that holds a `/`, as `__extract_release_date`
      computes it. */
  function ReleaseDate(url: string): (r: string)
    ensures r == "" || |r| == 10
  {
    if '/' in url then DateText(FirstParse(DateFormats, SecondToLastSegment(url, '/'))) else ""
  }

  /** The date of a release is read from the segment before the last `/` alone: what
      stands before that segment and after it does not change it. */
  lemma ReleaseDateOfSlug(prefix: string, slug: string, rest: string)
    requires '/' !in slug && '/' !in rest
    ensures ReleaseDate(prefix + "/" + slug + "/" + rest) == DateText(FirstParse(DateFormats, slug))
  {
    var url := prefix + "/" + slug + "/" + rest;
    SecondToLastAfter(prefix, slug, rest, '/');
  }

  lemma {:induction false} SecondToLastAfter(a: string, b: string, c: string, sep: char)
    requires sep !in b && sep !in c
    ensures sep in a + [sep] + b + [sep] + c
    ensures SecondToLastSegment(a + [sep] + b + [sep] + c, sep) == b
    decreases |a|, 1
  {
    if sep !in a {
      SecondToLastOfThree(a, b, c, sep);
    } else {
      SecondToLastAfterFirst(a, b, c, sep);
    }
  }

  lemma SecondToLastOfThree(a: string, b: string, c: string, sep: char)
    requires sep !in a && sep !in b && sep !in c
    ensures sep in a + [sep] + b + [sep] + c
    ensures SecondToLastSegment(a + [sep] + b + [sep] + c, sep) == b
  {
    assert (a + [sep] + b + [sep] + c)[|a|] == sep;
    assert Join([a, b, c], sep) == a + [sep] + b + [sep] + c by {
      assert [a, b, c][1..] == [b, c];
      assert Join([b, c], sep) == b + [sep] + c;
    }
    SplitJoin([a, b, c], sep);
  }

  lemma {:induction false} SecondToLastAfterFirst(a: string, b: string, c: string, sep: char)
    requires sep in a && sep !in b && sep !in c
    ensures sep in a + [sep] + b + [sep] + c
    ensures SecondToLastSegment(a + [sep] + b + [sep] + c, sep) == b
    decreases |a|, 0
  {
    var t := [sep] + b + [sep] + c;
    assert a + [sep] + b + [sep] + c == a + t;
    IndexOfPrefix(a, t, sep);
    DropPastFirst(a, t, sep);
    assert a[IndexOf(a, sep) + 1..] + t == a[IndexOf(a, sep) + 1..] + [sep] + b + [sep] + c;
    SecondToLastAfter(a[IndexOf(a, sep) + 1..], b, c, sep);
    SecondToLastOfRest(a + t, sep);
  }

  lemma DropPastFirst(a: string, t: string, sep: char)
    requires sep in a
    ensures sep in a + t && (a + t)[IndexOf(a, sep) + 1..] == a[IndexOf(a, sep) + 1..] + t
  {
    assert (a + t)[IndexOf(a, sep)] == sep;
  }

  // ---------------------------------------------------------------------------
  // Parsed pages

  datatype Anchor = Anchor(href: string, text: string)

  /** An `<li class="wallpaper">` on the media page: its image and its size links. */
  datatype MediaItem = MediaItem(imgSrc: string, anchors: seq<Anchor>)

  /** A `<ul>` with its classes and the links inside it. */
  datatype Ul = Ul(classes: seq<string>, anchors: seq<Anchor>)

  /** What the crawler reads from a page: the title, the media items, the `href` of the
      first link of each `<li>` in each `<section class="release-canvas">`, and the
      `<ul>` blocks, all in document order. */
  datatype Page = Page(title: string, items: seq<MediaItem>, canvases: seq<seq<string>>, uls: seq<Ul>)

  datatype Response = Response(status: int, page: Page)

  /** `status_code // 100 != 2` is an error. */
  predicate IsSuccess(status: int) {
    status / 100 == 2
  }

  lemma IsSuccessRange(status: int)
    ensures IsSuccess(status) <==> 200 <= status <= 299
  {
  }

  /** `__get_url`: the page at `url`, or `None` when the request fails (no answer in
      `web`) or the status is not 2xx; both raise in the crawler. */
  function GetUrl(web: map<string, Response>, url: string): (r: Option<Page>)
    ensures r.Some? <==> url in web && IsSuccess(web[url].status)
    ensures r.Some? ==> r.value == web[url].page
  {
    if url in web && IsSuccess(web[url].status) then Some(web[url].page) else None
  }

  // ---------------------------------------------------------------------------
  // Media wallpapers

  /** `src.split("/")[-1].replace("-crop.jpg", "")`. */
  function MediaName(src: string): string {
    ReplaceAll(LastSegment(src, '/'), "-crop.jpg", "")
  }

  /** The name is a plain file name: it has no `/`. */
  lemma MediaNameIsFileName(src: string)
    ensures '/' !in MediaName(src)
  {
    LastSegmentFree(src, '/');
    ReplaceKeepsAbsent(LastSegment(src, '/'), "-crop.jpg", "", '/');
  }

  /** The image `.../<stem>-crop.jpg` names the wallpaper `<stem>` when the stem holds
      no `/` and no `.`. */
  lemma MediaNameOfCrop(dir: string, stem: string)
    requires '/' !in stem && '.' !in stem
    ensures MediaName(dir + "/" + stem + "-crop.jpg") == stem
  {
    assert '/' !in "-crop.jpg";
    assert dir + "/" + stem + "-crop.jpg" == dir + ['/'] + (stem + "-crop.jpg");
    LastSegmentAfter(dir, stem + "-crop.jpg", '/');
    ReplaceSuffix(stem, "-crop.jpg", "", 5);
  }

  function MediaWall(name: string, a: Anchor): Wallpaper {
    Wallpaper(name, a.text, EnsurePrefix("https:", a.href), Media, "", "")
  }

  /** One media record per size link, in order. */
  function MediaLinks(name: string, links: seq<Anchor>): (r: seq<Wallpaper>)
    ensures |r| == |links| && forall i :: 0 <= i < |links| ==> r[i] == MediaWall(name, links[i])
  {
    if links == [] then [] else MediaLinks(name, links[..|links| - 1]) + [MediaWall(name, links[|links| - 1])]
  }

  function ItemRecords(item: MediaItem): seq<Wallpaper> {
    MediaLinks(MediaName(item.imgSrc), item.anchors)
  }

  /** Every record `__get_media_walls` yields for the given items, in order. */
  function MediaRecords(items: seq<MediaItem>): (r: seq<Wallpaper>)
    ensures forall w :: w in r ==> w.kind == Media && w.date == "" && w.num == ""
    ensures forall w :: w in r ==> StartsWith(w.url, "https:")
  {
    if items == [] then [] else MediaRecords(items[..|items| - 1]) + ItemRecords(items[|items| - 1])
  }

  function MediaAnchorCount(items: seq<MediaItem>): nat {
    if items == [] then 0 else MediaAnchorCount(items[..|items| - 1]) + |items[|items| - 1].anchors|
  }

  /** One record per size link. */
  lemma {:induction false} MediaRecordsCount(items: seq<MediaItem>)
    ensures |MediaRecords(items)| == MediaAnchorCount(items)
  {
    if items != [] {
      MediaRecordsCount(items[..|items| - 1]);
    }
  }

  /** Each record comes from one size link of one item: its name from the item's image,
      its dimensions from the link's text and its URL from the link's `href`. */
  lemma {:induction false} MediaRecordsFromItems(items: seq<MediaItem>, w: Wallpaper)
    requires w in MediaRecords(items)
    ensures exists i, j :: (0 <= i < |items| && 0 <= j < |items[i].anchors| &&
      w == MediaWall(MediaName(items[i].imgSrc), items[i].anchors[j]))
  {
    var last := |items| - 1;
    if w in MediaRecords(items[..last]) {
      MediaRecordsFromItems(items[..last], w);
      var i, j :| 0 <= i < |items[..last]| && 0 <= j < |items[..last][i].anchors| &&
        w == MediaWall(MediaName(items[..last][i].imgSrc), items[..last][i].anchors[j]);
      assert items[..last][i] == items[i];
    } else {
      var rs := ItemRecords(items[last]);
      assert w in rs;
      var j :| 0 <= j < |rs| && rs[j] == w;
      assert w == MediaWall(MediaName(items[last].imgSrc), items[last].anchors[j]);
    }
  }

  /** `__get_media_walls` over the parsed items of the media page. */
  method MediaWalls(items: seq<MediaItem>) returns (walls: seq<Wallpaper>)
    ensures walls == MediaRecords(items)
  {
    walls := [];
    for i := 0 to |items|
      invariant walls == MediaRecords(items[..i])
    {
      var name := MediaName(items[i].imgSrc);
      walls := ItemWalls(walls, name, items[i].anchors);
      PrefixOfPrefix(items, i);
    }
    WholePrefix(items);
  }

  /** The records of one media item, appended in link order. */
  method ItemWalls(walls: seq<Wallpaper>, name: string, anchors: seq<Anchor>) returns (out: seq<Wallpaper>)
    ensures out == walls + MediaLinks(name, anchors)
  {
    out := walls;
    for j := 0 to |anchors|
      invariant out == walls + MediaLinks(name, anchors[..j])
    {
      PrefixOfPrefix(anchors, j);
      var url := EnsurePrefix("https:", anchors[j].href);
      out := out + [Wallpaper(name, anchors[j].text, url, Media, "", "")];
    }
    WholePrefix(anchors);
  }

  // ---------------------------------------------------------------------------
  // Release wallpapers

  /** The class keywords searched for, in order. */
  const Keywords: seq<string> := ["wallpaper", "resolutions"]

  /** `soup.find_all("ul", keyword)`: the blocks carrying that class, in order. */
  function FindAll(uls: seq<Ul>, keyword: string): (r: seq<Ul>)
    ensures forall u :: u in r <==> u in uls && keyword in u.classes
  {
    KeepMembers(uls, (u: Ul) => keyword in u.classes);
    Keep(uls, (u: Ul) => keyword in u.classes)
  }

  /** The blocks of every keyword, keyword by keyword. */
  function BlocksFor(uls: seq<Ul>, keywords: seq<string>): seq<Ul> {
    if keywords == [] then []
    else BlocksFor(uls, keywords[..|keywords| - 1]) + FindAll(uls, keywords[|keywords| - 1])
  }

  /** The blocks `__get_specified_release` numbers: the `wallpaper` blocks, then the
      `resolutions` blocks. */
  function Blocks(uls: seq<Ul>): (r: seq<Ul>)
    ensures r == FindAll(uls, "wallpaper") + FindAll(uls, "resolutions")
  {
    assert Keywords[..1] == ["wallpaper"];
    assert Keywords[..1][..0] == [];
    assert BlocksFor(uls, Keywords[..1]) == FindAll(uls, "wallpaper");
    BlocksFor(uls, Keywords)
  }

  /** A block with both classes is found once for each keyword and so numbered twice. */
  lemma BlockWithBothClassesCountsTwice(links: seq<Anchor>)
    ensures Blocks([Ul(["wallpaper", "resolutions"], links)]) ==
      [Ul(["wallpaper", "resolutions"], links), Ul(["wallpaper", "resolutions"], links)]
  {
    var u := Ul(["wallpaper", "resolutions"], links);
    assert FindAll([u], "wallpaper") == [u];
    assert FindAll([u], "resolutions") == [u];
  }

  /** The record for one size link of the `number`-th block. */
  function ReleaseWall(name: string, date: string, number: nat, a: Anchor): Wallpaper {
    Wallpaper(name, a.text, EnsurePrefix("https:", a.href), Release, date, NatStr(number))
  }

  /** One release record per size link, in order, all with the same number. */
  function ReleaseLinks(name: string, date: string, number: nat, links: seq<Anchor>): (r: seq<Wallpaper>)
    ensures |r| == |links| && forall i :: 0 <= i < |links| ==> r[i] == ReleaseWall(name, date, number, links[i])
  {
    if links == [] then []
    else ReleaseLinks(name, date, number, links[..|links| - 1]) + [ReleaseWall(name, date, number, links[|links| - 1])]
  }

  function BlockRecords(name: string, date: string, number: nat, b: Ul): seq<Wallpaper> {
    ReleaseLinks(name, date, number, b.anchors)
  }

  /** The records of the given blocks, the k-th block (from 0) numbered `k + 1`. */
  function ReleaseRecords(name: string, date: string, blocks: seq<Ul>): (r: seq<Wallpaper>)
    ensures forall w :: w in r ==> w.name == name && w.date == date && w.kind == Release
  {
    if blocks == [] then []
    else
      ReleaseRecords(name, date, blocks[..|blocks| - 1]) +
      BlockRecords(name, date, |blocks|, blocks[|blocks| - 1])
  }

  lemma ReleaseRecordsSnoc(name: string, date: string, blocks: seq<Ul>, b: Ul)
    ensures ReleaseRecords(name, date, blocks + [b]) ==
      ReleaseRecords(name, date, blocks) + BlockRecords(name, date, |blocks| + 1, b)
  {
    assert (blocks + [b])[..|blocks|] == blocks;
  }

  lemma BlocksForSnoc(uls: seq<Ul>, keywords: seq<string>, k: nat)
    requires k < |keywords|
    ensures BlocksFor(uls, keywords[..k + 1]) == BlocksFor(uls, keywords[..k]) + FindAll(uls, keywords[k])
  {
    assert keywords[..k + 1][..k] == keywords[..k];
  }

  /** Every link of the blocks, block by block. */
  function AllAnchors(blocks: seq<Ul>): seq<Anchor> {
    if blocks == [] then [] else AllAnchors(blocks[..|blocks| - 1]) + blocks[|blocks| - 1].anchors
  }

  /** The number of the block each link of `AllAnchors(blocks)` comes from. */
  function Numbers(blocks: seq<Ul>): (ns: seq<nat>)
    ensures |ns| == |AllAnchors(blocks)|
    ensures forall i :: 0 <= i < |ns| ==> 1 <= ns[i] <= |blocks|
    ensures forall i, j :: 0 <= i <= j < |ns| ==> ns[i] <= ns[j]
  {
    if blocks == [] then []
    else
      var pre := Numbers(blocks[..|blocks| - 1]);
      var r := pre + Repeat(|blocks|, |blocks[|blocks| - 1].anchors|);
      assert forall i :: 0 <= i < |pre| ==> r[i] == pre[i];
      r
  }

  /** The k-th block's links are numbered `k + 1`: the number `k + 1` occurs exactly as
      often as the block has links, so a block without links leaves a gap. */
  lemma {:induction false} NumbersCount(blocks: seq<Ul>, k: nat)
    requires k < |blocks|
    ensures multiset(Numbers(blocks))[k + 1] == |blocks[k].anchors|
    decreases |blocks|, 1
  {
    if k < |blocks| - 1 {
      NumbersCountEarlier(blocks, k);
    } else {
      NumbersCountLast(blocks);
    }
  }

  lemma {:induction false} NumbersCountEarlier(blocks: seq<Ul>, k: nat)
    requires k < |blocks| - 1
    ensures multiset(Numbers(blocks))[k + 1] == |blocks[k].anchors|
    decreases |blocks|, 0
  {
    NumbersSnoc(blocks);
    NumbersCount(blocks[..|blocks| - 1], k);
    assert blocks[..|blocks| - 1][k] == blocks[k];
    RepeatOther(|blocks|, |blocks[|blocks| - 1].anchors|, k + 1);
  }

  lemma NumbersCountLast(blocks: seq<Ul>)
    requires blocks != []
    ensures multiset(Numbers(blocks))[|blocks|] == |blocks[|blocks| - 1].anchors|
  {
    NumbersSnoc(blocks);
    NumbersBelow(blocks[..|blocks| - 1]);
    RepeatCount(|blocks|, |blocks[|blocks| - 1].anchors|);
  }

  lemma NumbersSnoc(blocks: seq<Ul>)
    requires blocks != []
    ensures multiset(Numbers(blocks)) ==
      multiset(Numbers(blocks[..|blocks| - 1])) + multiset(Repeat(|blocks|, |blocks[|blocks| - 1].anchors|))
  {
    assert Numbers(blocks) == Numbers(blocks[..|blocks| - 1]) + Repeat(|blocks|, |blocks[|blocks| - 1].anchors|);
  }

  lemma RepeatOther(v: nat, n: nat, w: nat)
    requires w != v
    ensures multiset(Repeat(v, n))[w] == 0
  {
    assert w !in Repeat(v, n);
  }

  lemma NumbersBelow(blocks: seq<Ul>)
    ensures multiset(Numbers(blocks))[|blocks| + 1] == 0
  {
    var ns := Numbers(blocks);
    assert |blocks| + 1 !in ns;
  }

  /** `n` copies of `v`. */
  function Repeat(v: nat, n: nat): (r: seq<nat>)
    ensures |r| == n && forall i :: 0 <= i < n ==> r[i] == v
  {
    if n == 0 then [] else Repeat(v, n - 1) + [v]
  }

  lemma {:induction false} RepeatCount(v: nat, n: nat)
    ensures multiset(Repeat(v, n))[v] == n
  {
    if n > 0 {
      RepeatCount(v, n - 1);
      assert multiset(Repeat(v, n)) == multiset(Repeat(v, n - 1)) + multiset{v};
    }
  }

  /** Record `i` is made from the `i`-th link of the blocks and carries the number of
      the block that link is in: one record per link, in order. */
  lemma {:induction false} ReleaseRecordsByLink(name: string, date: string, blocks: seq<Ul>)
    ensures |ReleaseRecords(name, date, blocks)| == |AllAnchors(blocks)|
    ensures forall i :: 0 <= i < |AllAnchors(blocks)| ==>
      ReleaseRecords(name, date, blocks)[i] ==
        ReleaseWall(name, date, Numbers(blocks)[i], AllAnchors(blocks)[i])
  {
    if blocks != [] {
      var last := |blocks| - 1;
      var pre := blocks[..last];
      ReleaseRecordsByLink(name, date, pre);
      var n := |AllAnchors(pre)|;
      var r := ReleaseRecords(name, date, blocks);
      var links := AllAnchors(blocks);
      var ns := Numbers(blocks);
      assert r == ReleaseRecords(name, date, pre) + BlockRecords(name, date, |blocks|, blocks[last]);
      assert links == AllAnchors(pre) + blocks[last].anchors;
      assert ns == Numbers(pre) + Repeat(|blocks|, |blocks[last].anchors|);
      forall i | 0 <= i < |links|
        ensures r[i] == ReleaseWall(name, date, ns[i], links[i])
      {
        if i >= n {
          assert links[i] == blocks[last].anchors[i - n];
        }
      }
    }
  }

  /** `__get_specified_release`: the records of a release page, numbered by a counter
      that goes up once per block. The URL holds a `/`, as every URL built from the
      site's address does (`MainSiteUrlHasSlash`). */
  method SpecifiedRelease(url: string, page: Page) returns (walls: seq<Wallpaper>)
    requires '/' in url
    ensures walls == ReleaseRecords(CleanName(page.title), ReleaseDate(url), Blocks(page.uls))
  {
    var name := CleanName(page.title);
    var number := 0;
    var extracted := ExtractReleaseDate(url);
    var date := extracted.value;
    walls := [];
    for k := 0 to |Keywords|
      invariant number == |BlocksFor(page.uls, Keywords[..k])|
      invariant walls == ReleaseRecords(name, date, BlocksFor(page.uls, Keywords[..k]))
    {
      var found := FindAll(page.uls, Keywords[k]);
      walls, number := KeywordWalls(walls, name, date, number, found, BlocksFor(page.uls, Keywords[..k]));
      BlocksForSnoc(page.uls, Keywords, k);
    }
    assert Keywords[..|Keywords|] == Keywords;
  }

  /** The blocks one keyword finds, each numbered one more than the last block before
      it; `done` are the blocks already numbered. */
  method KeywordWalls(walls: seq<Wallpaper>, name: string, date: string, number: nat, found: seq<Ul>,
                      ghost done: seq<Ul>)
    returns (out: seq<Wallpaper>, next: nat)
    requires number == |done| && walls == ReleaseRecords(name, date, done)
    ensures next == |done| + |found|
    ensures out == ReleaseRecords(name, date, done + found)
  {
    out, next := walls, number;
    assert found[..0] == [] && done + [] == done;
    for j := 0 to |found|
      invariant next == |done| + j
      invariant out == ReleaseRecords(name, date, done + found[..j])
    {
      next := next + 1;
      out := BlockWalls(out, name, date, next, found[j].anchors);
      ReleaseRecordsSnoc(name, date, done + found[..j], found[j]);
      SnocPrefix(found, j);
      ConcatAssoc(done, found[..j], [found[j]]);
    }
    WholePrefix(found);
  }

  /** The records of one block, appended in link order. */
  method BlockWalls(walls: seq<Wallpaper>, name: string, date: string, number: nat, anchors: seq<Anchor>)
    returns (out: seq<Wallpaper>)
    ensures out == walls + ReleaseLinks(name, date, number, anchors)
  {
    out := walls;
    for m := 0 to |anchors|
      invariant out == walls + ReleaseLinks(name, date, number, anchors[..m])
    {
      PrefixOfPrefix(anchors, m);
      var link := EnsurePrefix("https:", anchors[m].href);
      out := out + [Wallpaper(name, anchors[m].text, link, Release, date, NatStr(number))];
    }
    WholePrefix(anchors);
  }

  // ---------------------------------------------------------------------------
  // The whole crawl

  /** What a crawl yields before it ends: the records in order, and the URL whose
      request failed if one did (the exception ends the crawl). */
  datatype Crawl = Crawl(walls: seq<Wallpaper>, failed: Option<string>)

  /** `__prepend_str(URL_MAIN_SITE, href)`: a release link made absolute. */
  function ReleaseUrl(href: string): (u: string)
    ensures StartsWith(u, UrlMainSite) && '/' in u
  {
    MainSiteUrlHasSlash(href);
    EnsurePrefix(UrlMainSite, href)
  }

  /** The release link of every release of every canvas, made absolute, in order. */
  function ReleaseUrls(canvases: seq<seq<string>>): (r: seq<string>)
    ensures forall u :: u in r ==> StartsWith(u, UrlMainSite) && '/' in u
  {
    if canvases == [] then []
    else ReleaseUrls(canvases[..|canvases| - 1]) + MapSeq(canvases[|canvases| - 1], ReleaseUrl)
  }

  /** The records of one fetched release page. */
  function PageRecords(url: string, page: Page): seq<Wallpaper> {
    ReleaseRecords(CleanName(page.title), ReleaseDate(url), Blocks(page.uls))
  }

  /** The pages at `urls` in turn, each giving its `records`, up to the first that
      cannot be fetched. */
  function CrawlPages(urls: seq<string>, web: map<string, Response>, records: (string, Page) -> seq<Wallpaper>): Crawl
    decreases |urls|
  {
    if urls == [] then Crawl([], None)
    else
      match GetUrl(web, urls[0])
      case None => Crawl([], Some(urls[0]))
      case Some(page) =>
        var rest := CrawlPages(urls[1..], web, records);
        Crawl(records(urls[0], page) + rest.walls, rest.failed)
  }

  /** The crawl fails exactly when some page cannot be fetched, and then at the first
      such page. */
  lemma {:induction false} CrawlPagesFailure(urls: seq<string>, web: map<string, Response>,
                                             records: (string, Page) -> seq<Wallpaper>)
    ensures CrawlPages(urls, web, records).failed.None? <==>
      forall k :: 0 <= k < |urls| ==> GetUrl(web, urls[k]).Some?
    ensures CrawlPages(urls, web, records).failed.Some? ==> exists i :: (0 <= i < |urls| &&
      urls[i] == CrawlPages(urls, web, records).failed.value && GetUrl(web, urls[i]).None? &&
      forall k :: 0 <= k < i ==> GetUrl(web, urls[k]).Some?)
    decreases |urls|
  {
    if urls != [] && GetUrl(web, urls[0]).Some? {
      var rest := urls[1..];
      CrawlPagesFailure(rest, web, records);
      assert forall k :: 1 <= k < |urls| ==> urls[k] == rest[k - 1];
      var c := CrawlPages(urls, web, records);
      assert c.failed == CrawlPages(rest, web, records).failed;
      if c.failed.Some? {
        var i :| 0 <= i < |rest| && rest[i] == c.failed.value &&
          GetUrl(web, rest[i]).None? && forall k :: 0 <= k < i ==> GetUrl(web, rest[k]).Some?;
        assert urls[i + 1] == c.failed.value;
      }
    }
  }

  /** A crawl of `a + b` where `a` goes through is the crawl of `a` followed by the
      crawl of `b`. */
  lemma {:induction false} CrawlPagesConcat(a: seq<string>, b: seq<string>, web: map<string, Response>,
                                            records: (string, Page) -> seq<Wallpaper>)
    requires CrawlPages(a, web, records).failed.None?
    ensures CrawlPages(a + b, web, records) ==
      Crawl(CrawlPages(a, web, records).walls + CrawlPages(b, web, records).walls,
            CrawlPages(b, web, records).failed)
    decreases |a|
  {
    if a == [] {
      assert a + b == b;
    } else {
      var head := records(a[0], GetUrl(web, a[0]).value);
      var ra := CrawlPages(a[1..], web, records);
      var rb := CrawlPages(b, web, records);
      assert (a + b)[0] == a[0];
      assert (a + b)[1..] == a[1..] + b;
      CrawlPagesConcat(a[1..], b, web, records);
      ConcatAssoc(head, ra.walls, rb.walls);
    }
  }

  lemma CrawlPagesOne(u: string, web: map<string, Response>, records: (string, Page) -> seq<Wallpaper>)
    ensures CrawlPages([u], web, records) ==
      if GetUrl(web, u).None? then Crawl([], Some(u)) else Crawl(records(u, web[u].page), None)
  {
    assert [u][1..] == [];
  }

  /** A crawl that fails at `urls[i]`, every page before it fetched, holds the records
      of exactly those earlier pages. */
  lemma CrawlPagesStopsAt(urls: seq<string>, web: map<string, Response>,
                          records: (string, Page) -> seq<Wallpaper>, i: nat)
    requires i < |urls| && GetUrl(web, urls[i]).None?
    requires forall k :: 0 <= k < i ==> GetUrl(web, urls[k]).Some?
    ensures CrawlPages(urls[..i], web, records).failed.None?
    ensures CrawlPages(urls, web, records) == Crawl(CrawlPages(urls[..i], web, records).walls, Some(urls[i]))
  {
    var pre := urls[..i];
    assert forall k :: 0 <= k < |pre| ==> pre[k] == urls[k];
    CrawlPagesFailure(pre, web, records);
    PrefixSuffix(urls, i);
    CrawlPagesConcat(pre, urls[i..], web, records);
    var pw := CrawlPages(pre, web, records).walls;
    assert pw + [] == pw;
  }

  /** `__get_release_walls` over the release index page: every listed release page in
      turn; a page that cannot be fetched raises and ends the crawl. */
  method ReleaseWalls(index: Page, web: map<string, Response>) returns (c: Crawl)
    ensures c == CrawlPages(ReleaseUrls(index.canvases), web, PageRecords)
  {
    var urls := ReleaseUrls(index.canvases);
    var walls := [];
    for i := 0 to |urls|
      invariant CrawlPages(urls[..i], web, PageRecords) == Crawl(walls, None)
    {
      var url := urls[i];
      SnocPrefix(urls, i);
      CrawlPagesConcat(urls[..i], [url], web, PageRecords);
      CrawlPagesOne(url, web, PageRecords);
      var page := GetUrl(web, url);
      if page.None? {
        CrawlPagesConcat(urls[..i], urls[i..], web, PageRecords);
        PrefixSuffix(urls, i);
        return Crawl(walls, Some(url));
      }
      var more := SpecifiedRelease(url, page.value);
      assert more == PageRecords(url, page.value);
      walls := walls + more;
    }
    WholePrefix(urls);
    return Crawl(walls, None);
  }

  /** The whole crawl of `get_wallpapers`: the media page's records, then every
      release's; the first page that cannot be fetched ends it. */
  function Wallpapers(web: map<string, Response>): Crawl {
    match GetUrl(web, UrlMedia)
    case None => Crawl([], Some(UrlMedia))
    case Some(media) =>
      match GetUrl(web, UrlReleases)
      case None => Crawl(MediaRecords(media.items), Some(UrlReleases))
      case Some(index) =>
        var releases := CrawlPages(ReleaseUrls(index.canvases), web, PageRecords);
        Crawl(MediaRecords(media.items) + releases.walls, releases.failed)
  }

  /** The crawl succeeds exactly when the media page, the release index and every
      release page can be fetched, and then holds every record. */
  lemma WallpapersComplete(web: map<string, Response>)
    ensures Wallpapers(web).failed.None? <==>
      GetUrl(web, UrlMedia).Some? && GetUrl(web, UrlReleases).Some? &&
      forall u :: u in ReleaseUrls(web[UrlReleases].page.canvases) ==> GetUrl(web, u).Some?
  {
    if GetUrl(web, UrlMedia).Some? && GetUrl(web, UrlReleases).Some? {
      CrawlPagesFetchedAll(ReleaseUrls(web[UrlReleases].page.canvases), web, PageRecords);
    }
  }

  lemma CrawlPagesFetchedAll(urls: seq<string>, web: map<string, Response>,
                             records: (string, Page) -> seq<Wallpaper>)
    ensures CrawlPages(urls, web, records).failed.None? <==> forall u :: u in urls ==> GetUrl(web, u).Some?
  {
    CrawlPagesFailure(urls, web, records);
    assert forall u :: u in urls ==> exists k :: 0 <= k < |urls| && urls[k] == u;
  }

  /** When the media page and the release index are fetched but the release page
      `urls[i]` is not, the crawl holds the media records and those of the release pages
      before it, and fails at it. */
  lemma WallpapersStopAt(web: map<string, Response>, urls: seq<string>, i: nat)
    requires GetUrl(web, UrlMedia).Some? && GetUrl(web, UrlReleases).Some?
    requires urls == ReleaseUrls(web[UrlReleases].page.canvases)
    requires i < |urls| && GetUrl(web, urls[i]).None?
    requires forall k :: 0 <= k < i ==> GetUrl(web, urls[k]).Some?
    ensures Wallpapers(web) ==
      Crawl(MediaRecords(web[UrlMedia].page.items) + CrawlPages(urls[..i], web, PageRecords).walls, Some(urls[i]))
  {
    CrawlPagesStopsAt(urls, web, PageRecords, i);
  }

  /** `get_wallpapers`. */
  method GetWallpapers(web: map<string, Response>) returns (c: Crawl)
    ensures c == Wallpapers(web)
  {
    var media := GetUrl(web, UrlMedia);
    if media.None? {
      return Crawl([], Some(UrlMedia));
    }
    var walls := MediaWalls(media.value.items);
    var index := GetUrl(web, UrlReleases);
    if index.None? {
      return Crawl(walls, Some(UrlReleases));
    }
    var releases := ReleaseWalls(index.value, web);
    return Crawl(walls + releases.walls, releases.failed);
  }

  // ---------------------------------------------------------------------------
  // Selection

  /** The command line: `--release` (repeatable), `--type` and the resolution. An absent
      option is empty, as Python's truth test treats `None` and `""` alike. */
  datatype Options = Options(releases: seq<string>, kind: string, resolution: string)

  /** A wallpaper is written when its release is asked for (or none is named), its type
      is asked for (or none is named) and its dimensions are the resolution. */
  predicate Wanted(w: Wallpaper, opts: Options) {
    && (opts.releases == [] || w.name in opts.releases)
    && (opts.kind == "" || KindName(w.kind) == opts.kind)
    && w.dimensions == opts.resolution
  }

  /** A file to write: where, and the URL of its content. */
  datatype Write = Write(path: seq<string>, url: string)

  function WriteOf(w: Wallpaper, root: seq<string>): Write {
    Write(GetPath(w, root), w.url)
  }

  /** The main loop: each wallpaper in turn, skipped unless wanted, else written. */
  method Download(walls: seq<Wallpaper>, opts: Options, root: seq<string>) returns (writes: seq<Write>)
    ensures writes == MapSeq(Keep(walls, w => Wanted(w, opts)), w => WriteOf(w, root))
  {
    writes := [];
    for i := 0 to |walls|
      invariant writes == MapSeq(Keep(walls[..i], w => Wanted(w, opts)), w => WriteOf(w, root))
    {
      var w := walls[i];
      DownloadStep(walls, i, opts, root);
      if opts.releases != [] && w.name !in opts.releases {
        continue;
      }
      if opts.kind != "" && KindName(w.kind) != opts.kind {
        continue;
      }
      if w.dimensions != opts.resolution {
        continue;
      }
      var path := GetPath(w, root);
      writes := writes + [Write(path, w.url)];
    }
    assert walls[..|walls|] == walls;
  }

  lemma DownloadStep(walls: seq<Wallpaper>, i: nat, opts: Options, root: seq<string>)
    requires i < |walls|
    ensures MapSeq(Keep(walls[..i + 1], w => Wanted(w, opts)), w => WriteOf(w, root)) ==
      MapSeq(Keep(walls[..i], w => Wanted(w, opts)), w => WriteOf(w, root)) +
      (if Wanted(walls[i], opts) then [WriteOf(walls[i], root)] else [])
  {
    SnocPrefix(walls, i);
    KeepConcat(walls[..i], [walls[i]], w => Wanted(w, opts));
    MapSeqConcat(Keep(walls[..i], w => Wanted(w, opts)), Keep([walls[i]], w => Wanted(w, opts)),
      w => WriteOf(w, root));
  }

  /** The wallpapers written are exactly the wanted ones, in the order found. */
  lemma SelectedExactlyWanted(walls: seq<Wallpaper>, opts: Options)
    ensures forall w :: w in Keep(walls, w => Wanted(w, opts)) <==> w in walls && Wanted(w, opts)
    ensures IsSubsequence(Keep(walls, w => Wanted(w, opts)), walls)
  {
    KeepMembers(walls, w => Wanted(w, opts));
  }

  /** A write goes to `root/<type>/...jpg` for a wallpaper of the requested
      resolution. */
  lemma WritesAreWanted(walls: seq<Wallpaper>, opts: Options, root: seq<string>, i: nat)
    requires i < |Keep(walls, w => Wanted(w, opts))|
    ensures var w := Keep(walls, w => Wanted(w, opts))[i];
      var wr := MapSeq(Keep(walls, w => Wanted(w, opts)), w => WriteOf(w, root))[i];
      w in walls && w.dimensions == opts.resolution &&
      wr.path == root + [KindName(w.kind), FileName(w)] && wr.url == w.url
  {
    KeepMembers(walls, w => Wanted(w, opts));
  }

  /** The main block. `get_wallpapers` is a generator, so each wallpaper is filtered and
      written as soon as it is found: when a page cannot be fetched, the files already
      written are those of the wanted wallpapers found before it, and the error then
      ends the script. */
  method DownloadAll(web: map<string, Response>, opts: Options, root: seq<string>)
    returns (writes: seq<Write>, failed: Option<string>)
    ensures writes == MapSeq(Keep(Wallpapers(web).walls, w => Wanted(w, opts)), w => WriteOf(w, root))
    ensures failed == Wallpapers(web).failed
  {
    var c := GetWallpapers(web);
    writes := Download(c.walls, opts, root);
    failed := c.failed;
  }

  /** The writes of two runs of wallpapers, one after the other, are those of the first
      followed by those of the second. */
  lemma WritesConcat(a: seq<Wallpaper>, b: seq<Wallpaper>, opts: Options, root: seq<string>)
    ensures MapSeq(Keep(a + b, w => Wanted(w, opts)), w => WriteOf(w, root)) ==
      MapSeq(Keep(a, w => Wanted(w, opts)), w => WriteOf(w, root)) +
      MapSeq(Keep(b, w => Wanted(w, opts)), w => WriteOf(w, root))
  {
    KeepConcat(a, b, w => Wanted(w, opts));
    MapSeqConcat(Keep(a, w => Wanted(w, opts)), Keep(b, w => Wanted(w, opts)), w => WriteOf(w, root));
  }

  /** A release page that cannot be fetched stops the script after the media
      wallpapers and those of the release pages before it have been written. */
  lemma WritesBeforeFailure(web: map<string, Response>, opts: Options, root: seq<string>, urls: seq<string>, i: nat)
    requires GetUrl(web, UrlMedia).Some? && GetUrl(web, UrlReleases).Some?
    requires urls == ReleaseUrls(web[UrlReleases].page.canvases)
    requires i < |urls| && GetUrl(web, urls[i]).None?
    requires forall k :: 0 <= k < i ==> GetUrl(web, urls[k]).Some?
    ensures MapSeq(Keep(Wallpapers(web).walls, w => Wanted(w, opts)), w => WriteOf(w, root)) ==
      MapSeq(Keep(MediaRecords(web[UrlMedia].page.items), w => Wanted(w, opts)), w => WriteOf(w, root)) +
      MapSeq(Keep(CrawlPages(urls[..i], web, PageRecords).walls, w => Wanted(w, opts)), w => WriteOf(w, root))
  {
    WallpapersStopAt(web, urls, i);
    WritesConcat(MediaRecords(web[UrlMedia].page.items), CrawlPages(urls[..i], web, PageRecords).walls, opts, root);
  }
}
