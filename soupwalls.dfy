/** The third crawler, in both of its variants (GW2Walls-Threads.py, which starts a
    thread per download, and GW2Walls-Async.py, which schedules a task per download;
    their naming, numbering and link handling are the same line for line). The site's
    pages are values given by `web`; parsing one builds fresh `Tag` objects whose
    `href` the crawler rewrites in place. A download is described by its arguments,
    a `Task`, listed in the order the crawler starts them. */
module SoupWalls {
  import opened Text
  import opened Dates
  import opened GW2Walls

  // ---------------------------------------------------------------------------
  // File names

  /** `get_filename_friendly`: the characters of `s` a file name may keep, in order. */
  function FilenameFriendly(s: string): (r: string)
    ensures forall i :: 0 <= i < |r| ==> IsFilenameChar(r[i])
    ensures IsSubsequence(r, s)
  {
    KeepMembers(s, IsFilenameChar);
    Keep(s, IsFilenameChar)
  }

  /** Only forbidden characters are dropped: each allowed one occurs as often as in
      the input. */
  lemma FilenameFriendlyCounts(s: string)
    ensures forall c :: multiset(FilenameFriendly(s))[c] == if IsFilenameChar(c) then multiset(s)[c] else 0
  {
    KeepCounts(s, IsFilenameChar);
  }

  lemma FilenameFriendlyIdempotent(s: string)
    ensures FilenameFriendly(FilenameFriendly(s)) == FilenameFriendly(s)
  {
    KeepIdempotent(s, IsFilenameChar);
  }

  /** A name comes back unchanged exactly when it holds only allowed characters. */
  lemma FilenameFriendlyFixpoint(s: string)
    ensures FilenameFriendly(s) == s <==> forall i :: 0 <= i < |s| ==> IsFilenameChar(s[i])
  {
    if forall i :: 0 <= i < |s| ==> IsFilenameChar(s[i]) {
      KeepAllKept(s, IsFilenameChar);
    }
  }

  /** The first crawler's `clean_name` keeps the same characters. */
  lemma FilenameFriendlyIsCleanName(s: string)
    ensures FilenameFriendly(s) == CleanName(s)
  {
    CleanNameIsKeep(s);
  }

  /** The release name: every `" | GuildWars2.com"` removed from the page title, then
      the forbidden characters dropped. */
  function ReleaseName(title: string): (r: string)
    ensures forall i :: 0 <= i < |r| ==> IsFilenameChar(r[i])
  {
    FilenameFriendly(ReplaceAll(title, TrimFromTitle, ""))
  }

  /** Removing the site suffix from a title that ends in it, and has no bar of its
      own, leaves the title. */
  lemma ReleaseNameOfTitle(title: string)
    requires '|' !in title
    ensures ReplaceAll(title + TrimFromTitle, TrimFromTitle, "") == title
  {
    assert TrimFromTitle[1] == '|';
    assert forall k :: 0 <= k < |TrimFromTitle| && k != 1 ==> TrimFromTitle[k] != '|';
    ReplaceSuffix(title, TrimFromTitle, "", 1);
    assert title + "" == title;
  }

  /** A page titled `<title> | GuildWars2.com` is named after `<title>` alone; the
      first crawler's name of the same page keeps two spaces and the site's name. */
  lemma ReleaseNameOfSiteTitle(title: string)
    requires '|' !in title
    ensures ReleaseName(title + TrimFromTitle) == FilenameFriendly(title)
    ensures CleanName(title + TrimFromTitle) == ReleaseName(title + TrimFromTitle) + "  " + "GuildWars2.com"
  {
    ReleaseNameOfTitle(title);
    CleanNameKeepsSiteSuffix(title);
    FilenameFriendlyIsCleanName(title);
  }

  /** `f'{release_date}_{release_name}_{wall_number}.jpg'`. */
  function WallFileName(date: string, name: string, number: nat): string {
    date + "_" + name + "_" + NatStr(number) + ".jpg"
  }

  /** A file name built from a date and a name without `/` has none either. */
  lemma WallFileNameHasNoSlash(date: string, name: string, number: nat)
    requires '/' !in date && '/' !in name
    ensures '/' !in WallFileName(date, name, number)
  {
    var digits := NatStr(number);
    assert '/' !in digits by {
      assert forall i :: 0 <= i < |digits| ==> IsAsciiDigit(digits[i]);
    }
  }

  /** Blocks with different numbers never share a file name. */
  lemma WallFileNameInjective(date: string, name: string, m: nat, n: nat)
    requires WallFileName(date, name, m) == WallFileName(date, name, n)
    ensures m == n
  {
    var head := date + "_" + name + "_";
    var a := WallFileName(date, name, m);
    var b := WallFileName(date, name, n);
    assert a == head + (NatStr(m) + ".jpg");
    assert b == head + (NatStr(n) + ".jpg");
    assert a[|head|..] == NatStr(m) + ".jpg";
    assert b[|head|..] == NatStr(n) + ".jpg";
    var x := NatStr(m) + ".jpg";
    assert |NatStr(m)| == |NatStr(n)|;
    assert NatStr(m) == x[..|NatStr(m)|];
    NatStrInjective(m, n);
  }

  /** The release date as the file name writes it: `str(date)` or `""`. */
  lemma DateTextHasNoSlash(d: Option<Date>)
    ensures '/' !in DateText(d)
  {
    if d.Some? && ValidDate(d.value) {
      var v := d.value;
      var y, m, day := Digits(v.year, 4), Digits(v.month, 2), Digits(v.day, 2);
      assert Iso(v) == y + "-" + m + "-" + day;
      assert '/' !in y && '/' !in m && '/' !in day by {
        assert AllDigits(y) && AllDigits(m) && AllDigits(day);
      }
    }
  }

  /** `src.split('/')[-1].replace('-crop.jpg', '.jpg')`. */
  function MediaWallName(src: string): string {
    ReplaceAll(LastSegment(src, '/'), "-crop.jpg", ".jpg")
  }

  /** The name is a plain file name: it has no `/`. */
  lemma MediaWallNameIsFileName(src: string)
    ensures '/' !in MediaWallName(src)
  {
    LastSegmentFree(src, '/');
    ReplaceKeepsAbsent(LastSegment(src, '/'), "-crop.jpg", ".jpg", '/');
  }

  /** The image `.../<stem>-crop.jpg` names the wallpaper `<stem>.jpg`. */
  lemma MediaWallNameOfCrop(dir: string, stem: string)
    requires '/' !in stem && '.' !in stem
    ensures MediaWallName(dir + "/" + stem + "-crop.jpg") == stem + ".jpg"
  {
    assert '/' !in "-crop.jpg";
    assert dir + "/" + stem + "-crop.jpg" == dir + ['/'] + (stem + "-crop.jpg");
    LastSegmentAfter(dir, stem + "-crop.jpg", '/');
    ReplaceSuffix(stem, "-crop.jpg", ".jpg", 5);
  }

  // ---------------------------------------------------------------------------
  // Destinations

  /** `os.path.join(a, b)` on POSIX: an absolute `b` replaces the path; otherwise the
      two are joined by one `/`, none when `a` is empty or already ends in `/`. */
  function PathJoin(a: string, b: string): (r: string)
    ensures |b| > 0 && b[0] == '/' ==> r == b
    ensures (|b| == 0 || b[0] != '/') ==> |a| + |b| <= |r| && r[..|a|] == a && r[|r| - |b|..] == b
  {
    if |b| > 0 && b[0] == '/' then b
    else if a == [] || a[|a| - 1] == '/' then a + b
    else a + "/" + b
  }

  /** The arguments of one `download_wallpaper` call. */
  datatype Task = Task(url: string, name: string, kind: Kind, savePath: string)

  /** `os.path.join(save_path, kind, name)`, before the user's home and environment
      variables are expanded. */
  function Destination(t: Task): string {
    PathJoin(PathJoin(t.savePath, KindName(t.kind)), t.name)
  }

  /** A file name without `/` lands in the kind's folder under the save path: it is
      the last segment of the destination and the kind the one before it. */
  lemma DestinationSegments(t: Task)
    requires '/' !in t.name
    ensures StartsWith(Destination(t), t.savePath)
    ensures LastSegment(Destination(t), '/') == t.name
    ensures '/' in Destination(t) && SecondToLastSegment(Destination(t), '/') == KindName(t.kind)
  {
    var kind := KindName(t.kind);
    KindNameIsSegment(t.kind);
    if t.name != [] {
      assert t.name[0] in t.name;
    }
    if t.savePath == [] {
      DestinationAtRoot(kind, t.name);
    } else {
      DestinationUnderSave(t.savePath, kind, t.name);
    }
  }

  lemma DestinationAtRoot(kind: string, name: string)
    requires kind != [] && kind[0] != '/' && kind[|kind| - 1] != '/' && '/' !in kind
    requires '/' !in name && (name == [] || name[0] != '/')
    ensures var d := PathJoin(PathJoin([], kind), name);
            LastSegment(d, '/') == name && '/' in d && SecondToLastSegment(d, '/') == kind
  {
    assert PathJoin([], kind) == kind;
    var _ := PathJoinRelative(kind, name);
    LastSegmentAfter(kind, name, '/');
    SecondToLastOfTwo(kind, name, '/');
  }

  lemma DestinationUnderSave(save: string, kind: string, name: string)
    requires save != []
    requires kind != [] && kind[0] != '/' && kind[|kind| - 1] != '/' && '/' !in kind
    requires '/' !in name && (name == [] || name[0] != '/')
    ensures var d := PathJoin(PathJoin(save, kind), name);
            StartsWith(d, save) && LastSegment(d, '/') == name && '/' in d && SecondToLastSegment(d, '/') == kind
  {
    var p := PathJoin(save, kind);
    var dir := PathJoinRelative(save, kind);
    assert p[|p| - 1] == kind[|kind| - 1];
    var _ := PathJoinRelative(p, name);
    var d := p + ['/'] + name;
    LastSegmentAfter(p, name, '/');
    assert d == dir + ['/'] + kind + ['/'] + name;
    SecondToLastAfter(dir, kind, name, '/');
    assert d[..|save|] == save;
  }

  lemma KindNameIsSegment(k: Kind)
    ensures var n := KindName(k); n != [] && n[0] != '/' && n[|n| - 1] != '/' && '/' !in n
  {
    if k == Media { assert KindName(k) == "media"; } else { assert KindName(k) == "release"; }
  }

  /** Joining a relative `b` to a non-empty `a` puts one `/` between `dir` and `b`,
      where `dir` is `a` without a trailing `/`. */
  lemma PathJoinRelative(a: string, b: string) returns (dir: string)
    requires a != [] && (b == [] || b[0] != '/')
    ensures PathJoin(a, b) == dir + ['/'] + b
    ensures dir == if a[|a| - 1] == '/' then a[..|a| - 1] else a
  {
    dir := if a[|a| - 1] == '/' then a[..|a| - 1] else a;
    if a[|a| - 1] == '/' {
      assert a == dir + ['/'];
    }
  }

  lemma SecondToLastOfTwo(a: string, b: string, sep: char)
    requires sep !in a && sep !in b
    ensures sep in a + [sep] + b && SecondToLastSegment(a + [sep] + b, sep) == a
  {
    assert (a + [sep] + b)[|a|] == sep;
    assert Join([a, b], sep) == a + [sep] + b by {
      assert [a, b][1..] == [b];
    }
    SplitJoin([a, b], sep);
  }

  // ---------------------------------------------------------------------------
  // Size links

  /** `wall_size_item.text.strip() == dimensions`: a link is taken exactly when its
      text, stripped of surrounding whitespace, is the requested size. */
  predicate Wanted(a: Anchor, dims: string) {
    Strip(a.text) == dims
  }

  /** The download of a wanted link: its `href` with `https:` made sure of. */
  function SizeTask(a: Anchor, name: string, kind: Kind, save: string): (t: Task)
    ensures StartsWith(t.url, "https:")
  {
    Task(EnsurePrefix("https:", a.href), name, kind, save)
  }

  /** The downloads one block of size links starts: the wanted links, in link order,
      each made a download. */
  function LinkTasks(links: seq<Anchor>, dims: string, name: string, kind: Kind, save: string): (r: seq<Task>)
    ensures r == MapSeq(Keep(links, a => Wanted(a, dims)), a => SizeTask(a, name, kind, save))
  {
    if links == [] then []
    else
      var init := links[..|links| - 1];
      var a := links[|links| - 1];
      SelectedTasksSnoc(links, init, a, dims, name, kind, save);
      var pre := LinkTasks(init, dims, name, kind, save);
      if Wanted(a, dims) then pre + [SizeTask(a, name, kind, save)] else pre
  }

  /** One more link adds its download exactly when it is wanted. */
  lemma SelectedTasksSnoc(links: seq<Anchor>, init: seq<Anchor>, a: Anchor, dims: string, name: string,
                          kind: Kind, save: string)
    requires links == init + [a]
    ensures MapSeq(Keep(links, a => Wanted(a, dims)), a => SizeTask(a, name, kind, save)) ==
      MapSeq(Keep(init, a => Wanted(a, dims)), a => SizeTask(a, name, kind, save)) +
      (if Wanted(a, dims) then [SizeTask(a, name, kind, save)] else [])
  {
    var p := (a: Anchor) => Wanted(a, dims);
    var f := (a: Anchor) => SizeTask(a, name, kind, save);
    KeepConcat(init, [a], p);
    assert Keep([a], p) == if Wanted(a, dims) then [a] else [] by {
      assert [a][1..] == [];
    }
    MapSeqConcat(Keep(init, p), Keep([a], p), f);
  }

  /** `t` is the download of some wanted link of `links`. */
  predicate TaskOfLink(t: Task, links: seq<Anchor>, dims: string, name: string, kind: Kind, save: string) {
    exists a :: a in links && Wanted(a, dims) && t == SizeTask(a, name, kind, save)
  }

  /** A download is started for a link of the block exactly when that link is wanted. */
  lemma {:induction false} LinkTasksMembers(links: seq<Anchor>, dims: string, name: string, kind: Kind, save: string)
    ensures forall t :: t in LinkTasks(links, dims, name, kind, save) <==> TaskOfLink(t, links, dims, name, kind, save)
  {
    if links != [] {
      LinkTasksMembers(links[..|links| - 1], dims, name, kind, save);
      forall t ensures t in LinkTasks(links, dims, name, kind, save) <==> TaskOfLink(t, links, dims, name, kind, save) {
        TaskOfLinkSnoc(t, links, dims, name, kind, save);
      }
    }
  }

  lemma TaskOfLinkSnoc(t: Task, links: seq<Anchor>, dims: string, name: string, kind: Kind, save: string)
    requires links != []
    ensures TaskOfLink(t, links, dims, name, kind, save) <==>
      TaskOfLink(t, links[..|links| - 1], dims, name, kind, save) ||
      (Wanted(links[|links| - 1], dims) && t == SizeTask(links[|links| - 1], name, kind, save))
  {
    assert links == links[..|links| - 1] + [links[|links| - 1]];
    if TaskOfLink(t, links, dims, name, kind, save) {
      var a :| a in links && Wanted(a, dims) && t == SizeTask(a, name, kind, save);
      if a != links[|links| - 1] {
        assert a in links[..|links| - 1];
      }
    }
  }

  // ---------------------------------------------------------------------------
  // Media and release downloads

  /** `get_media_walls` on the items of the media page: each item's wanted links, the
      item's image naming them all. */
  function MediaTasks(items: seq<MediaItem>, dims: string, save: string): (r: seq<Task>)
  {
    if items == [] then []
    else
      var item := items[|items| - 1];
      MediaTasks(items[..|items| - 1], dims, save) +
      LinkTasks(item.anchors, dims, MediaWallName(item.imgSrc), Media, save)
  }

  lemma MediaTasksSnoc(items: seq<MediaItem>, item: MediaItem, dims: string, save: string)
    ensures MediaTasks(items + [item], dims, save) ==
      MediaTasks(items, dims, save) + LinkTasks(item.anchors, dims, MediaWallName(item.imgSrc), Media, save)
  {
    assert (items + [item])[..|items|] == items;
  }

  /** `t` is the download of a wanted link of some item, named after that item's image. */
  predicate MediaTaskOf(t: Task, items: seq<MediaItem>, dims: string, save: string) {
    exists item :: item in items && TaskOfLink(t, item.anchors, dims, MediaWallName(item.imgSrc), Media, save)
  }

  /** A media download comes from a wanted link of some item and is named after that
      item's image, and every wanted link gives one. */
  lemma {:induction false} MediaTasksMembers(items: seq<MediaItem>, dims: string, save: string)
    ensures forall t :: t in MediaTasks(items, dims, save) <==> MediaTaskOf(t, items, dims, save)
  {
    if items != [] {
      var last := items[|items| - 1];
      MediaTasksMembers(items[..|items| - 1], dims, save);
      LinkTasksMembers(last.anchors, dims, MediaWallName(last.imgSrc), Media, save);
      forall t ensures t in MediaTasks(items, dims, save) <==> MediaTaskOf(t, items, dims, save) {
        MediaTaskOfSnoc(t, items, dims, save);
      }
    }
  }

  lemma MediaTaskOfSnoc(t: Task, items: seq<MediaItem>, dims: string, save: string)
    requires items != []
    ensures MediaTaskOf(t, items, dims, save) <==>
      MediaTaskOf(t, items[..|items| - 1], dims, save) ||
      TaskOfLink(t, items[|items| - 1].anchors, dims, MediaWallName(items[|items| - 1].imgSrc), Media, save)
  {
    assert items == items[..|items| - 1] + [items[|items| - 1]];
    if MediaTaskOf(t, items, dims, save) {
      var item :| item in items && TaskOfLink(t, item.anchors, dims, MediaWallName(item.imgSrc), Media, save);
      if item != items[|items| - 1] {
        assert item in items[..|items| - 1];
      }
    }
  }

  /** `get_release_walls` on the blocks of a release page, in search order: the
      `k`-th block (from 0) has number `k + 1`, whether or not any of its links is
      wanted. */
  function ReleaseTasks(blocks: seq<Ul>, dims: string, save: string, name: string, date: string): (r: seq<Task>)
  {
    if blocks == [] then []
    else
      var n := |blocks|;
      ReleaseTasks(blocks[..n - 1], dims, save, name, date) +
      LinkTasks(blocks[n - 1].anchors, dims, WallFileName(date, name, n), Release, save)
  }

  lemma ReleaseTasksSnoc(blocks: seq<Ul>, b: Ul, dims: string, save: string, name: string, date: string)
    ensures ReleaseTasks(blocks + [b], dims, save, name, date) ==
      ReleaseTasks(blocks, dims, save, name, date) +
      LinkTasks(b.anchors, dims, WallFileName(date, name, |blocks| + 1), Release, save)
  {
    assert (blocks + [b])[..|blocks|] == blocks;
  }

  /** A release download comes from a wanted link of block `k` and carries the file
      name numbered `k + 1`, and every wanted link gives one. */
  /** `t` is the download of a wanted link of some block, named after that block's number. */
  predicate ReleaseTaskOf(t: Task, blocks: seq<Ul>, dims: string, save: string, name: string, date: string) {
    exists k :: 0 <= k < |blocks| &&
      TaskOfLink(t, blocks[k].anchors, dims, WallFileName(date, name, k + 1), Release, save)
  }

  lemma {:induction false} ReleaseTasksMembers(blocks: seq<Ul>, dims: string, save: string, name: string, date: string)
    ensures forall t :: t in ReleaseTasks(blocks, dims, save, name, date) <==>
      ReleaseTaskOf(t, blocks, dims, save, name, date)
  {
    if blocks != [] {
      ReleaseTasksMembers(blocks[..|blocks| - 1], dims, save, name, date);
      LinkTasksMembers(blocks[|blocks| - 1].anchors, dims, WallFileName(date, name, |blocks|), Release, save);
      forall t ensures t in ReleaseTasks(blocks, dims, save, name, date) <==>
        ReleaseTaskOf(t, blocks, dims, save, name, date) {
        ReleaseTaskOfSnoc(t, blocks, dims, save, name, date);
      }
    }
  }

  lemma ReleaseTaskOfSnoc(t: Task, blocks: seq<Ul>, dims: string, save: string, name: string, date: string)
    requires blocks != []
    ensures ReleaseTaskOf(t, blocks, dims, save, name, date) <==>
      ReleaseTaskOf(t, blocks[..|blocks| - 1], dims, save, name, date) ||
      TaskOfLink(t, blocks[|blocks| - 1].anchors, dims, WallFileName(date, name, |blocks|), Release, save)
  {
    if ReleaseTaskOf(t, blocks, dims, save, name, date) {
      var k :| 0 <= k < |blocks| &&
        TaskOfLink(t, blocks[k].anchors, dims, WallFileName(date, name, k + 1), Release, save);
      if k < |blocks| - 1 {
        assert blocks[..|blocks| - 1][k] == blocks[k];
      }
    }
    if ReleaseTaskOf(t, blocks[..|blocks| - 1], dims, save, name, date) {
      var k :| 0 <= k < |blocks| - 1 &&
        TaskOfLink(t, blocks[..|blocks| - 1][k].anchors, dims, WallFileName(date, name, k + 1), Release, save);
      assert blocks[..|blocks| - 1][k] == blocks[k];
    }
  }

  /** A block none of whose links is wanted starts nothing. */
  lemma {:induction false} LinkTasksNoneWanted(links: seq<Anchor>, dims: string, name: string, kind: Kind, save: string)
    requires forall a :: a in links ==> !Wanted(a, dims)
    ensures LinkTasks(links, dims, name, kind, save) == []
  {
    if links != [] {
      var pre := links[..|links| - 1];
      assert forall a :: a in pre ==> a in links;
      assert links[|links| - 1] in links;
      LinkTasksNoneWanted(pre, dims, name, kind, save);
    }
  }

  /** A block none of whose links is wanted still takes a number: the next block is
      numbered 2. */
  lemma SkippedBlockKeepsNumber(first: Ul, second: Ul, dims: string, save: string, name: string, date: string)
    requires forall a :: a in first.anchors ==> !Wanted(a, dims)
    ensures ReleaseTasks([first, second], dims, save, name, date) ==
      LinkTasks(second.anchors, dims, WallFileName(date, name, 2), Release, save)
  {
    LinkTasksNoneWanted(first.anchors, dims, WallFileName(date, name, 1), Release, save);
    ReleaseTasksSnoc([first], second, dims, save, name, date);
    ReleaseTasksSnoc([], first, dims, save, name, date);
    assert [] + [first] == [first];
    assert [first] + [second] == [first, second];
  }

  /** The downloads of one release page, reached at `url`. */
  function ReleasePageTasks(url: string, page: Page, dims: string, save: string): seq<Task> {
    ReleaseTasks(Blocks(page.uls), dims, save, ReleaseName(page.title), ReleaseDate(url))
  }

  /** A download of the given kind, to a file directly in that kind's folder under
      the save path, from an `https:` address. */
  predicate InFolder(t: Task, kind: Kind, save: string) {
    t.kind == kind && t.savePath == save && '/' !in t.name && StartsWith(t.url, "https:")
  }

  lemma MediaTasksInFolder(items: seq<MediaItem>, dims: string, save: string)
    ensures forall t :: t in MediaTasks(items, dims, save) ==> InFolder(t, Media, save)
  {
    MediaTasksMembers(items, dims, save);
    forall t | t in MediaTasks(items, dims, save) ensures InFolder(t, Media, save) {
      var item :| item in items && TaskOfLink(t, item.anchors, dims, MediaWallName(item.imgSrc), Media, save);
      MediaWallNameIsFileName(item.imgSrc);
    }
  }

  lemma ReleasePageTasksInFolder(url: string, page: Page, dims: string, save: string)
    ensures forall t :: t in ReleasePageTasks(url, page, dims, save) ==> InFolder(t, Release, save)
  {
    var date := ReleaseDate(url);
    var name := ReleaseName(page.title);
    assert '/' !in date by {
      if '/' in url {
        DateTextHasNoSlash(FirstParse(DateFormats, SecondToLastSegment(url, '/')));
      }
    }
    assert '/' !in name by {
      assert forall i :: 0 <= i < |name| ==> IsFilenameChar(name[i]);
    }
    var blocks := Blocks(page.uls);
    ReleaseTasksMembers(blocks, dims, save, name, date);
    forall t | t in ReleasePageTasks(url, page, dims, save) ensures InFolder(t, Release, save) {
      var k :| 0 <= k < |blocks| &&
        TaskOfLink(t, blocks[k].anchors, dims, WallFileName(date, name, k + 1), Release, save);
      WallFileNameHasNoSlash(date, name, k + 1);
    }
  }

  /** Every release page in the order the index lists it, each read from `web`. */
  function ReleasesTasks(urls: seq<string>, web: string -> Page, dims: string, save: string): seq<Task> {
    if urls == [] then []
    else
      var u := urls[|urls| - 1];
      ReleasesTasks(urls[..|urls| - 1], web, dims, save) + ReleasePageTasks(u, web(u), dims, save)
  }

  lemma ReleasesTasksSnoc(urls: seq<string>, u: string, web: string -> Page, dims: string, save: string)
    ensures ReleasesTasks(urls + [u], web, dims, save) ==
      ReleasesTasks(urls, web, dims, save) + ReleasePageTasks(u, web(u), dims, save)
  {
    assert (urls + [u])[..|urls|] == urls;
    assert (urls + [u])[|urls|] == u;
  }

  lemma {:induction false} ReleasesTasksConcat(a: seq<string>, b: seq<string>, web: string -> Page, dims: string, save: string)
    ensures ReleasesTasks(a + b, web, dims, save) == ReleasesTasks(a, web, dims, save) + ReleasesTasks(b, web, dims, save)
  {
    if b == [] {
      assert a + b == a;
    } else {
      var pre := b[..|b| - 1];
      var u := b[|b| - 1];
      ReleasesTasksConcat(a, pre, web, dims, save);
      SnocPrefix(b, |b| - 1);
      WholePrefix(b);
      ConcatAssoc(a, pre, [u]);
      ReleasesTasksSnoc(a + pre, u, web, dims, save);
      ConcatAssoc(ReleasesTasks(a, web, dims, save), ReleasesTasks(pre, web, dims, save),
                  ReleasePageTasks(u, web(u), dims, save));
    }
  }

  lemma {:induction false} ReleasesTasksInFolder(urls: seq<string>, web: string -> Page, dims: string, save: string)
    ensures forall t :: t in ReleasesTasks(urls, web, dims, save) ==> InFolder(t, Release, save)
  {
    if urls != [] {
      var u := urls[|urls| - 1];
      ReleasesTasksInFolder(urls[..|urls| - 1], web, dims, save);
      ReleasePageTasksInFolder(u, web(u), dims, save);
    }
  }

  /** `get_wall_urls`: every release's downloads, then the media page's, with the
      release index and the media page read from `web`. */
  function WallTasks(web: string -> Page, dims: string, save: string): seq<Task> {
    ReleasesTasks(ReleaseUrls(web(UrlReleases).canvases), web, dims, save) +
    MediaTasks(web(UrlMedia).items, dims, save)
  }

  /** Every download goes to a file directly in its kind's folder under the save path,
      from an `https:` address, and all release downloads are started before any
      media download. */
  lemma WallTasksOrdered(web: string -> Page, dims: string, save: string)
    ensures forall t :: t in WallTasks(web, dims, save) ==> InFolder(t, t.kind, save)
    ensures forall i, j :: 0 <= i < j < |WallTasks(web, dims, save)| && WallTasks(web, dims, save)[i].kind == Media ==>
      WallTasks(web, dims, save)[j].kind == Media
  {
    var rs := ReleasesTasks(ReleaseUrls(web(UrlReleases).canvases), web, dims, save);
    var ms := MediaTasks(web(UrlMedia).items, dims, save);
    ReleasesTasksInFolder(ReleaseUrls(web(UrlReleases).canvases), web, dims, save);
    MediaTasksInFolder(web(UrlMedia).items, dims, save);
    var r := rs + ms;
    forall i | 0 <= i < |r| ensures (i < |rs| ==> r[i].kind == Release) && (i >= |rs| ==> r[i].kind == Media) {
      if i < |rs| {
        assert r[i] == rs[i] && rs[i] in rs;
      } else {
        assert r[i] == ms[i - |rs|] && ms[i - |rs|] in ms;
      }
    }
  }

  // ---------------------------------------------------------------------------
  // The parsed pages

  /** A parsed `<a>` tag. The crawler rewrites its `href` in place; `source` is the
      value the parser read. */
  class Tag {
    var href: string
    const text: string
    ghost const source: string

    /** Rewritten or not, the address stands for the same download as the parsed one. */
    ghost predicate Valid()
      reads this
    {
      EnsurePrefix("https:", href) == EnsurePrefix("https:", source)
    }

    constructor (href: string, text: string)
      ensures this.href == href && this.text == text && source == href
      ensures Valid()
    {
      this.href := href;
      this.text := text;
      source := href;
    }

    /** `if not tag['href'].startswith('https:'): tag['href'] = 'https:' + tag['href']`,
        which a second time changes nothing. */
    method EnsureHttps()
      requires Valid()
      modifies this
      ensures href == EnsurePrefix("https:", old(href))
      ensures href == EnsurePrefix("https:", source) && Valid()
    {
      if !StartsWith(href, "https:") {
        href := "https:" + href;
      }
      EnsurePrefixIdempotent("https:", source);
    }
  }

  /** An `<li class="wallpaper">` of the parsed media page. */
  datatype SoupItem = SoupItem(src: string, links: seq<Tag>)

  /** A `<ul>` of a parsed release page. */
  datatype SoupUl = SoupUl(classes: seq<string>, links: seq<Tag>)

  /** The links as the parser read them. */
  ghost function Parsed(tags: seq<Tag>): (r: seq<Anchor>)
    ensures |r| == |tags| && forall i :: 0 <= i < |tags| ==> r[i] == Anchor(tags[i].source, tags[i].text)
  {
    if tags == [] then []
    else Parsed(tags[..|tags| - 1]) + [Anchor(tags[|tags| - 1].source, tags[|tags| - 1].text)]
  }

  ghost function ParsedItem(item: SoupItem): MediaItem {
    MediaItem(item.src, Parsed(item.links))
  }

  ghost function ParsedUl(u: SoupUl): Ul {
    Ul(u.classes, Parsed(u.links))
  }

  ghost function ParsedUls(us: seq<SoupUl>): (r: seq<Ul>)
    ensures |r| == |us| && forall i :: 0 <= i < |us| ==> r[i] == ParsedUl(us[i])
  {
    if us == [] then [] else [ParsedUl(us[0])] + ParsedUls(us[1..])
  }

  /** `soup.find_all('ul', keyword)` on the parsed page. */
  function FindSoup(us: seq<SoupUl>, keyword: string): seq<SoupUl> {
    Keep(us, (u: SoupUl) => keyword in u.classes)
  }

  /** Searching the parsed page finds the blocks that searching the page's value
      finds, each one's parsed links being that block's links. */
  lemma {:induction false} FindSoupParsed(us: seq<SoupUl>, keyword: string)
    ensures ParsedUls(FindSoup(us, keyword)) == FindAll(ParsedUls(us), keyword)
    ensures forall u :: u in FindSoup(us, keyword) ==> u in us
  {
    KeepMembers(us, (u: SoupUl) => keyword in u.classes);
    if us != [] {
      FindSoupParsed(us[1..], keyword);
      FindSoupStep(us, keyword);
    }
  }

  lemma FindSoupStep(us: seq<SoupUl>, keyword: string)
    requires us != []
    requires ParsedUls(FindSoup(us[1..], keyword)) == FindAll(ParsedUls(us[1..]), keyword)
    ensures ParsedUls(FindSoup(us, keyword)) == FindAll(ParsedUls(us), keyword)
  {
    var head: seq<SoupUl> := if keyword in us[0].classes then [us[0]] else [];
    assert FindSoup(us, keyword) == head + FindSoup(us[1..], keyword);
    ParsedUlsConcat(head, FindSoup(us[1..], keyword));
    assert ParsedUls(us)[1..] == ParsedUls(us[1..]);
    assert ParsedUls(head) == if keyword in us[0].classes then [ParsedUl(us[0])] else [];
  }

  lemma {:induction false} ParsedUlsConcat(a: seq<SoupUl>, b: seq<SoupUl>)
    ensures ParsedUls(a + b) == ParsedUls(a) + ParsedUls(b)
  {
    if a == [] {
      assert a + b == b;
    } else {
      assert (a + b)[1..] == a[1..] + b;
      ParsedUlsConcat(a[1..], b);
      ConcatAssoc([ParsedUl(a[0])], ParsedUls(a[1..]), ParsedUls(b));
    }
  }

  /** `find_all('a')` on freshly parsed HTML: a new tag per link. */
  method NewTags(anchors: seq<Anchor>) returns (tags: seq<Tag>)
    ensures Parsed(tags) == anchors
    ensures forall t :: t in tags ==> fresh(t) && t.Valid()
  {
    tags := [];
    for i := 0 to |anchors|
      invariant Parsed(tags) == anchors[..i]
      invariant forall t :: t in tags ==> fresh(t) && t.Valid()
    {
      var tag := new Tag(anchors[i].href, anchors[i].text);
      assert (tags + [tag])[..|tags|] == tags;
      tags := tags + [tag];
      SnocPrefix(anchors, i);
    }
    WholePrefix(anchors);
  }

  /** `BeautifulSoup` on the media page: the items with fresh tags. */
  method ParseItems(items: seq<MediaItem>) returns (soup: seq<SoupItem>)
    ensures |soup| == |items| && forall i :: 0 <= i < |items| ==> ParsedItem(soup[i]) == items[i]
    ensures forall t :: t in ItemTagsOf(soup) ==> fresh(t) && t.Valid()
  {
    soup := [];
    for i := 0 to |items|
      invariant |soup| == i && forall k :: 0 <= k < i ==> ParsedItem(soup[k]) == items[k]
      invariant forall t :: t in ItemTagsOf(soup) ==> fresh(t) && t.Valid()
    {
      var tags := NewTags(items[i].anchors);
      var item := SoupItem(items[i].imgSrc, tags);
      ItemTagsOfSnoc(soup, item);
      assert forall k :: 0 <= k < |soup| ==> (soup + [item])[k] == soup[k];
      soup := soup + [item];
    }
  }

  /** `BeautifulSoup` on a release page: its blocks with fresh tags. */
  method ParseUls(uls: seq<Ul>) returns (soup: seq<SoupUl>)
    ensures ParsedUls(soup) == uls
    ensures forall t :: t in TagsOf(soup) ==> fresh(t) && t.Valid()
  {
    soup := [];
    for i := 0 to |uls|
      invariant |soup| == i && forall k :: 0 <= k < i ==> ParsedUl(soup[k]) == uls[k]
      invariant forall t :: t in TagsOf(soup) ==> fresh(t) && t.Valid()
    {
      var tags := NewTags(uls[i].anchors);
      var block := SoupUl(uls[i].classes, tags);
      TagsOfSnoc(soup, block);
      assert forall k :: 0 <= k < |soup| ==> (soup + [block])[k] == soup[k];
      soup := soup + [block];
    }
    assert ParsedUls(soup) == uls;
  }

  /** The tags of the given media items. */
  ghost function ItemTagsOf(items: seq<SoupItem>): set<Tag> {
    set u, t | u in items && t in u.links :: t
  }

  lemma ItemTagsOfSnoc(items: seq<SoupItem>, item: SoupItem)
    ensures ItemTagsOf(items + [item]) == ItemTagsOf(items) + set t | t in item.links
  {
    var l := ItemTagsOf(items + [item]);
    var r := ItemTagsOf(items) + set t | t in item.links;
    forall t | t in l ensures t in r {
      var u :| u in items + [item] && t in u.links;
      if u in items { assert t in ItemTagsOf(items); }
    }
    forall t | t in r ensures t in l {
      if t in ItemTagsOf(items) {
        var u :| u in items && t in u.links;
        assert u in items + [item];
      } else {
        assert item in items + [item];
      }
    }
  }

  // ---------------------------------------------------------------------------
  // The crawl

  /** `get_release_date_from_url`: segment `[-2]` of the URL read by `'%B-%Y'`, then
      by `'%B-%d-%Y'`; the first that parses gives the date, and `None` stands for the
      `''` returned when neither does. */
  method ReleaseDateFromUrl(url: string) returns (d: Option<Date>)
    requires '/' in url
    ensures d == FirstParse(DateFormats, SecondToLastSegment(url, '/'))
  {
    var date := SecondToLastSegment(url, '/');
    for i := 0 to |DateFormats|
      invariant forall k :: 0 <= k < i ==> Parse(DateFormats[k], date).None?
    {
      var parsed := Parse(DateFormats[i], date);
      if parsed.Some? {
        FirstParseFirstSuccess(DateFormats, date, i);
        return parsed;
      }
    }
    return None;
  }

  /** The inner loop of both page walks: every size link gets `https:` made sure of
      in place, and a download is added for each wanted one. */
  method AddSizeLinks(tasks: seq<Task>, links: seq<Tag>, dims: string, name: string, kind: Kind, save: string)
    returns (out: seq<Task>)
    requires forall t :: t in links ==> t.Valid()
    modifies set t | t in links
    ensures out == tasks + LinkTasks(Parsed(links), dims, name, kind, save)
    ensures forall t :: t in links ==> t.href == EnsurePrefix("https:", t.source) && t.Valid()
  {
    ghost var parsed := Parsed(links);
    out := tasks;
    for j := 0 to |links|
      invariant out == tasks + LinkTasks(parsed[..j], dims, name, kind, save)
      invariant forall t :: t in links ==> t.Valid()
      invariant forall t :: t in links[..j] ==> t.href == EnsurePrefix("https:", t.source)
    {
      out := SizeLinkTurn(out, links, j, dims, name, kind, save, tasks);
    }
    WholePrefix(parsed);
    WholePrefix(links);
  }

  /** The turn of that loop on `links[j]`, stated on the whole block. */
  method SizeLinkTurn(tasks: seq<Task>, links: seq<Tag>, j: nat, dims: string, name: string, kind: Kind,
                      save: string, ghost base: seq<Task>)
    returns (out: seq<Task>)
    requires j < |links| && forall t :: t in links ==> t.Valid()
    requires forall t :: t in links[..j] ==> t.href == EnsurePrefix("https:", t.source)
    requires tasks == base + LinkTasks(Parsed(links)[..j], dims, name, kind, save)
    modifies links[j]
    ensures forall t :: t in links ==> t.Valid()
    ensures forall t :: t in links[..j + 1] ==> t.href == EnsurePrefix("https:", t.source)
    ensures out == base + LinkTasks(Parsed(links)[..j + 1], dims, name, kind, save)
  {
    out := AddSizeLink(tasks, links[j], dims, name, kind, save, base, Parsed(links)[..j]);
    SnocPrefix(Parsed(links), j);
    SnocPrefix(links, j);
  }

  /** One turn of that loop, on the tag `tag`: its address is made `https:`, and its
      download is added when it is wanted. */
  method AddSizeLink(tasks: seq<Task>, tag: Tag, dims: string, name: string, kind: Kind, save: string,
                     ghost base: seq<Task>, ghost pre: seq<Anchor>)
    returns (out: seq<Task>)
    requires tag.Valid() && tasks == base + LinkTasks(pre, dims, name, kind, save)
    modifies tag
    ensures tag.href == EnsurePrefix("https:", tag.source) && tag.Valid()
    ensures out == base + LinkTasks(pre + [Anchor(tag.source, tag.text)], dims, name, kind, save)
  {
    tag.EnsureHttps();
    assert (pre + [Anchor(tag.source, tag.text)])[..|pre|] == pre;
    out := tasks;
    if Strip(tag.text) == dims {
      ConcatAssoc(base, LinkTasks(pre, dims, name, kind, save), [Task(tag.href, name, kind, save)]);
      out := out + [Task(tag.href, name, kind, save)];
    }
  }

  /** `get_media_walls` on the media page's items. */
  method GetMediaWalls(dims: string, save: string, items: seq<MediaItem>) returns (tasks: seq<Task>)
    ensures tasks == MediaTasks(items, dims, save)
  {
    var soup := ParseItems(items);
    tasks := [];
    for i := 0 to |soup|
      invariant tasks == MediaTasks(items[..i], dims, save)
      invariant forall t :: t in ItemTagsOf(soup) ==> fresh(t) && t.Valid()
    {
      var item := soup[i];
      var name := MediaWallName(item.src);
      assert ParsedItem(item) == items[i];
      assert item in soup;
      forall t | t in item.links ensures fresh(t) && t.Valid() {
        assert t in ItemTagsOf(soup);
      }
      tasks := AddSizeLinks(tasks, item.links, dims, name, Media, save);
      SnocPrefix(items, i);
      MediaTasksSnoc(items[..i], items[i], dims, save);
    }
    WholePrefix(items);
  }

  /** `get_release_walls` on one release page reached at `url`: the blocks of each
      keyword in turn, numbered by a counter that goes up once per block. Every caller
      passes a URL starting with the site's address, which holds a `/`. */
  method GetReleaseWalls(dims: string, url: string, save: string, page: Page) returns (tasks: seq<Task>)
    requires '/' in url
    ensures tasks == ReleasePageTasks(url, page, dims, save)
  {
    var soup := ParseUls(page.uls);
    var name := ReleaseName(page.title);
    var date := ReleaseDateFromUrl(url);
    var dateText := DateText(date);
    var number := 0;
    tasks := [];
    for k := 0 to |Keywords|
      invariant number == |BlocksFor(page.uls, Keywords[..k])|
      invariant tasks == ReleaseTasks(BlocksFor(page.uls, Keywords[..k]), dims, save, name, dateText)
      invariant forall t :: t in TagsOf(soup) ==> fresh(t) && t.Valid()
    {
      var found := FindSoup(soup, Keywords[k]);
      FindSoupParsed(soup, Keywords[k]);
      TagsOfSub(found, soup);
      tasks, number := NumberedBlocks(tasks, number, found, dims, save, name, dateText,
                                      BlocksFor(page.uls, Keywords[..k]));
      BlocksForSnoc(page.uls, Keywords, k);
    }
    assert Keywords[..|Keywords|] == Keywords;
  }

  /** The tags of the given blocks. */
  ghost function TagsOf(us: seq<SoupUl>): set<Tag> {
    set u, t | u in us && t in u.links :: t
  }

  lemma TagsOfSnoc(us: seq<SoupUl>, u: SoupUl)
    ensures TagsOf(us + [u]) == TagsOf(us) + set t | t in u.links
  {
    var l := TagsOf(us + [u]);
    var r := TagsOf(us) + set t | t in u.links;
    forall t | t in l ensures t in r {
      var v :| v in us + [u] && t in v.links;
      if v in us { assert t in TagsOf(us); }
    }
    forall t | t in r ensures t in l {
      if t in TagsOf(us) {
        var v :| v in us && t in v.links;
        assert v in us + [u];
      } else {
        assert u in us + [u];
      }
    }
  }

  lemma TagsOfSub(sub: seq<SoupUl>, us: seq<SoupUl>)
    requires forall u :: u in sub ==> u in us
    ensures TagsOf(sub) <= TagsOf(us)
  {
  }

  /** The blocks one keyword finds, each numbered one more than the last block before
      it; `done` are the blocks already numbered. */
  method NumberedBlocks(tasks: seq<Task>, number: nat, found: seq<SoupUl>, dims: string, save: string,
                        name: string, date: string, ghost done: seq<Ul>)
    returns (out: seq<Task>, next: nat)
    requires number == |done| && tasks == ReleaseTasks(done, dims, save, name, date)
    requires forall t :: t in TagsOf(found) ==> t.Valid()
    modifies TagsOf(found)
    ensures next == |done + ParsedUls(found)|
    ensures out == ReleaseTasks(done + ParsedUls(found), dims, save, name, date)
    ensures forall t :: t in TagsOf(found) ==> t.Valid()
  {
    ghost var blocks := ParsedUls(found);
    out, next := tasks, number;
    assert blocks[..0] == [] && done + [] == done;
    for j := 0 to |found|
      invariant next == |done| + j
      invariant out == ReleaseTasks(done + blocks[..j], dims, save, name, date)
      invariant forall t :: t in TagsOf(found) ==> t.Valid()
    {
      ghost var seen := done + blocks[..j];
      assert found[j] in found;
      assert forall t :: t in found[j].links ==> t in TagsOf(found);
      out, next := NumberedBlock(out, next, found[j], dims, save, name, date, seen);
      SnocPrefix(blocks, j);
      ConcatAssoc(done, blocks[..j], [blocks[j]]);
    }
    WholePrefix(blocks);
  }

  /** One block: its wanted links under the file name numbered one more than the
      blocks `done` before it. */
  method NumberedBlock(tasks: seq<Task>, number: nat, u: SoupUl, dims: string, save: string,
                       name: string, date: string, ghost done: seq<Ul>)
    returns (out: seq<Task>, next: nat)
    requires number == |done| && tasks == ReleaseTasks(done, dims, save, name, date)
    requires forall t :: t in u.links ==> t.Valid()
    modifies set t | t in u.links
    ensures next == |done| + 1
    ensures out == ReleaseTasks(done + [ParsedUl(u)], dims, save, name, date)
    ensures forall t :: t in u.links ==> t.Valid()
  {
    next := number + 1;
    ReleaseTasksSnoc(done, ParsedUl(u), dims, save, name, date);
    out := AddSizeLinks(tasks, u.links, dims, WallFileName(date, name, next), Release, save);
  }

  /** One `<section class="release-canvas">` of the index: each listed release page in
      turn, its link made absolute unless it already starts with the site's address. */
  method CanvasReleases(tasks: seq<Task>, dims: string, save: string, canvas: seq<string>, web: string -> Page)
    returns (out: seq<Task>)
    ensures out == tasks + ReleasesTasks(MapSeq(canvas, ReleaseUrl), web, dims, save)
  {
    ghost var urls := MapSeq(canvas, ReleaseUrl);
    out := tasks;
    for j := 0 to |canvas|
      invariant out == tasks + ReleasesTasks(urls[..j], web, dims, save)
    {
      var href := canvas[j];
      var url := if StartsWith(href, UrlMainSite) then href else UrlMainSite + href;
      assert url == urls[j];
      var walls := GetReleaseWalls(dims, url, save, web(url));
      SnocPrefix(urls, j);
      ReleasesTasksSnoc(urls[..j], url, web, dims, save);
      ConcatAssoc(tasks, ReleasesTasks(urls[..j], web, dims, save), walls);
      out := out + walls;
    }
    WholePrefix(urls);
  }

  /** `get_releases` on the release index. */
  method GetReleases(dims: string, save: string, index: Page, web: string -> Page) returns (tasks: seq<Task>)
    ensures tasks == ReleasesTasks(ReleaseUrls(index.canvases), web, dims, save)
  {
    var canvases := index.canvases;
    tasks := [];
    for i := 0 to |canvases|
      invariant tasks == ReleasesTasks(ReleaseUrls(canvases[..i]), web, dims, save)
    {
      PrefixOfPrefix(canvases, i);
      ReleasesTasksConcat(ReleaseUrls(canvases[..i]), MapSeq(canvases[i], ReleaseUrl), web, dims, save);
      tasks := CanvasReleases(tasks, dims, save, canvases[i], web);
    }
    WholePrefix(canvases);
  }

  /** `get_wall_urls`: the releases' downloads, then the media page's. */
  method GetWallUrls(dims: string, save: string, web: string -> Page) returns (tasks: seq<Task>)
    ensures tasks == WallTasks(web, dims, save)
  {
    var releases := GetReleases(dims, save, web(UrlReleases), web);
    var media := GetMediaWalls(dims, save, web(UrlMedia).items);
    tasks := releases + media;
  }
}
