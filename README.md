# GW2Walls in Dafny

GW2Walls finds the wallpapers that guildwars2.com publishes and downloads them. There are several sizes of each. Wallpapers come from two places:

- the media page;
- every release page listed on the releases index.

Four historical variants of the script exist. They share one idea but keep their own copy of the string and record rules. This project models those rules and proves what they guarantee: sanitised file names, normalised links, release dates, condensed HTML, numbered records, destination paths and the download filter.

The project consists of five modules:

- **`Text`** (`text.dfy`): the Python string operations the scripts rely on, written out over `string`:
  - `startswith`;
  - the `"prefix unless present"` rule;
  - character filters;
  - `split('/')[-1]` and `[-2]`;
  - `replace`, `strip` and `str(int)`;
  - list filtering and mapping.
- **`Dates`** (`dates.dfy`): a calendar date, and the two `strptime` formats `%B-%Y` and `%B-%d-%Y`. Month names come from a fixed English table:
  - `%B` is case-insensitive;
  - `%d` takes one or two digits;
  - `%Y` takes exactly four digits;
  - an impossible day fails.

  The module also holds the ISO text `str(date)` and its inverse.
- **`GW2Walls`** (`gw2walls.dfy`): GW2Walls.py.
  - The `Wallpaper` record and `get_path`.
  - `__clean_name`, `__prepend_str` and `__extract_release_date`.
  - The 2xx rule of `__get_url`.
  - The media and release record generators, with the block numbering.
  - `get_wallpapers`, including its stop on the first failed request.
  - The command-line filter of the main loop.
- **`GW2Walls2`** (`gw2walls2.dfy`): GW2Walls2.py.
  - `cleanup_url`, `cleanup_html` (after decoding) and `cleanup_title`.
  - The part of `urlsplit` the script uses: the path, and the `ValueError` on an unbalanced `[`/`]`.
  - `os.path.basename`.
  - The jobs that `get_media_urls` and `get_release_urls` put on the shared queue (a `JobQueue` class).
  - `get_releases_urls`, with its threads run in start order.
  - The gathering phase of the main block.
- **`SoupWalls`** (`soupwalls.dfy`): GW2Walls-Threads.py and GW2Walls-Async.py. Their naming, numbering and link handling are the same line for line, so one model covers both.
  - `get_filename_friendly` and `get_release_date_from_url`.
  - The media and release walks. A parsed `<a>` is a `Tag` object whose `href` the walk rewrites in place.
  - `get_releases` and `get_wall_urls`.
  - Each started download is a `Task` holding the arguments of `download_wallpaper`, with the destination `os.path.join(save_path, kind, name)`.

Pages are given already parsed: `Page`, `MediaItem`, `Ul`, `Anchor`, `Link`, `Section` and `ListItem` hold exactly the pieces the scripts read. What the site answers for a URL is a parameter (`web`).

## How the model follows the code

The code and a plain description of the tool disagree in three places. In each, the model follows the code.

- GW2Walls.py:69 calls `replace` on `""`, so `__clean_name` never removes `" | GuildWars2.com"`. `CleanNameKeepsSiteSuffix` proves the name ends in `"  GuildWars2.com"`. The later variants do remove the suffix (`ReleaseNameOfSiteTitle`).
- GW2Walls.py:145 prefixes `https:` onto every link that lacks it. A site-relative `/x` becomes `https:/x`, not an address on the site (`HttpsPrefixOnRootPath`).
- GW2Walls.py:53 does not collapse empty fields. A media file name starts with a space and has two spaces before the size (`MediaFileName`).

GW2Walls.py:142 removes `-crop.jpg` altogether, while the Threads and Async variants replace it with `.jpg`. Each module models its own file.

## Model

| member | source | states |
|---|---|---|
| Text.EnsurePrefix | GW2Walls.py:89-99 | The result starts with the stem; a value that already starts with it is returned unchanged, any other gets the stem in front |
| Text.EnsurePrefixIdempotent | GW2Walls.py:89-99 | Prefixing a second time changes nothing |
| Text.EnsurePrefixKeepsValue | GW2Walls.py:99 | The original value is either the whole result or exactly what follows the added stem |
| Text.Keep | GW2Walls.py:69 | The join over `c for c in s if keep(c)` (and, on any sequence, the `if` filter of a generator): no longer than the input, every element kept satisfies the filter |
| Text.KeepMembers | GW2Walls.py:69 | An element is kept exactly when it is in the input and passes the test, and the kept elements keep their order (an order-preserving subsequence) |
| Text.KeepCounts | GW2Walls.py:69 | Each admitted character occurs as often as in the input, every other one not at all |
| Text.KeepAllKept | GW2Walls.py:69 | A string made only of admitted characters comes back unchanged |
| Text.KeepIdempotent | GW2Walls.py:69 | Filtering twice equals filtering once |
| Text.KeepConcat | GW2Walls.py:69 | Filtering distributes over concatenation |
| Text.KeepBoth | GW2Walls2.py:97-99 | Two filters in a row keep what one filter by both tests keeps |
| Text.IndexOf | GW2Walls.py:81 | The position of the first occurrence of the separator |
| Text.Split | GW2Walls.py:81 | `str.split(sep)` yields at least one piece |
| Text.SplitUnfold | GW2Walls.py:81 | Splitting at the first separator gives the piece before it followed by the split of the rest |
| Text.SplitPieces | GW2Walls.py:81 | No piece contains the separator, and there are two or more pieces exactly when the string contains it |
| Text.JoinSplit | GW2Walls.py:81 | Joining the pieces with the separator gives back the string |
| Text.SplitJoin | GW2Walls.py:81 | Splitting a join of separator-free pieces gives back the pieces |
| Text.LastSegment | GW2Walls.py:142 | `s.split(sep)[-1]`, defined as the last piece of `Split`; what it is (free of `sep`, a suffix of `s`, what follows the last `sep`) is stated by `LastSegmentFree`, `LastSegmentIsSuffix` and `LastSegmentAfter` |
| Text.LastSegmentFree | GW2Walls.py:142 | `split(sep)[-1]` holds no separator |
| Text.LastSegmentIsSuffix | GW2Walls.py:142 | `split(sep)[-1]` is a suffix of the string |
| Text.LastSegmentAfter | GW2Walls.py:142 | After a separator followed by a separator-free tail, the last segment is that tail |
| Text.SecondToLastSegment | GW2Walls.py:81 | `split(sep)[-2]`, defined when the separator occurs, holds no separator |
| Text.ReplaceAll | GW2Walls.py:142 | `s.replace(pat, rep)`: occurrences found left to right, without overlap, each replaced; its effect is stated by `ReplaceAbsent`, `ReplaceKeepsAbsent` and `ReplaceSuffix` |
| Text.ReplaceAbsent | GW2Walls.py:142 | `replace` on a string that cannot contain the pattern changes nothing |
| Text.ReplaceKeepsAbsent | GW2Walls.py:142 | A character in neither the input nor the replacement is not in the result |
| Text.ReplaceSuffix | GW2Walls.py:142 | A pattern at the end of a string, with a character found nowhere else, is replaced there |
| Text.TrimStart | GW2Walls-Threads.py:34 | `lstrip()` is no longer than its input |
| Text.TrimEnd | GW2Walls-Threads.py:34 | `rstrip()` is no longer than its input |
| Text.Strip | GW2Walls-Threads.py:34 | `strip()` is no longer than its input |
| Text.TrimStartSplits | GW2Walls-Threads.py:34 | `lstrip()` cuts off all-whitespace leading characters and leaves a result that does not start with whitespace |
| Text.TrimEndSplits | GW2Walls-Threads.py:34 | `rstrip()` cuts off all-whitespace trailing characters and leaves a result that does not end with whitespace |
| Text.StripSplits | GW2Walls-Threads.py:34 | The input is whitespace + the stripped text + whitespace, and the stripped text has no whitespace at either end |
| Text.StripEdges | GW2Walls-Threads.py:34 | The stripped text neither starts nor ends with whitespace |
| Text.StripCuts | GW2Walls-Threads.py:34 | The input is the stripped text between two all-whitespace strings |
| Text.TrimStartPadded | GW2Walls-Threads.py:34 | Leading whitespace before a non-space start is exactly what `lstrip()` removes |
| Text.TrimEndPadded | GW2Walls-Threads.py:34 | Trailing whitespace after a non-space end is exactly what `rstrip()` removes |
| Text.StripPadded | GW2Walls-Threads.py:34 | Whitespace around a core with non-space ends is exactly what `strip()` removes |
| Text.NatStr | GW2Walls.py:198 | `str(number)` is a nonempty string of decimal digits |
| Text.DecimalValueNatStr | GW2Walls.py:198 | Reading `str(n)` as a decimal gives back `n` |
| Text.NatStrInjective | GW2Walls.py:198 | Distinct numbers have distinct `str` |
| Text.MapSeq | GW2Walls.py:277 | One result per element, each the image of the element at the same index |
| Text.MapSeqConcat | GW2Walls.py:277 | Mapping distributes over concatenation |
| Dates.Lower | GW2Walls.py:26 | Lower-casing keeps the length and lowers each character on its own: an ASCII capital becomes its small letter, every other character stays |
| Dates.MonthFrom | GW2Walls.py:26 | The search of the month table finds the month whose name matches, or proves none from there on does |
| Dates.MonthNumber | GW2Walls.py:26 | `%B` accepts a token exactly when its lower-case form is an English month name, and that month is returned |
| Dates.MonthNumberOfName | GW2Walls.py:26 | Every month name is read back as its own month |
| Dates.MonthNameIsLower | GW2Walls.py:26 | The month table is in lower case |
| Dates.YearToken | GW2Walls.py:26 | `%Y` gives a year of at most four digits |
| Dates.YearTokenOfDigits | GW2Walls.py:26 | A four-digit year is read back as itself |
| Dates.DayToken | GW2Walls.py:26 | `%d` gives a day from 1 to 31 |
| Dates.DayTokenOfDigits | GW2Walls.py:26 | A two-digit day is read back as itself |
| Dates.DecimalValueBound | GW2Walls.py:26 | A string of `k` digits stands for a number below `10^k` |
| Dates.Parse | GW2Walls.py:26 | A successful `strptime` gives a valid calendar date |
| Dates.FirstParse | GW2Walls.py:82-84 | The first format that parses decides; the result is valid, comes from some format, and is absent exactly when no format parses |
| Dates.FirstParseFirstSuccess | GW2Walls.py:82-84 | When the formats before `i` fail and format `i` parses, its date is the result |
| Dates.FormatsExclusive | GW2Walls.py:26 | No segment parses under both `%B-%Y` and `%B-%d-%Y` |
| Dates.Digits | GW2Walls.py:84 | Zero-padded decimal of fixed width |
| Dates.DigitsValue | GW2Walls.py:84 | A zero-padded decimal is read back as its number |
| Dates.Iso | GW2Walls.py:84 | `str(date)` is ten characters in the form `YYYY-MM-DD` |
| Dates.IsoRoundTrip | GW2Walls.py:84 | Reading the ISO text back gives the same date |
| Dates.DateText | GW2Walls-Threads.py:99-106 | The text a file name carries for a parsed date: the ISO `str(date)` of a valid date, and empty when no format matched; `SoupWalls.DateTextHasNoSlash` states it holds no `/` |
| Dates.SplitThree | GW2Walls.py:26 | A `-`-joined month, day and year splits into exactly those three tokens |
| Dates.ParseMonthDayYearTokens | GW2Walls.py:26 | `%B-%d-%Y` succeeds on three tokens that read as a month, a day and a year of a valid date |
| Dates.MonthYearRoundTrip | GW2Walls.py:26 | `%B-%Y` reads back the first of any month |
| Dates.MonthDayYearRoundTrip | GW2Walls.py:26 | `%B-%d-%Y` reads back any valid date |
| Dates.FirstParseFindsBoth | GW2Walls.py:82-84 | Trying the formats in order finds both kinds of slug |
| Dates.SlugMonthDayYear | GW2Walls.py:82-84 | `august-12-2014` is 12 August 2014 |
| Dates.SlugMonthYear | GW2Walls.py:82-84 | `August-2014` is 1 August 2014 (month-year gives day 1) |
| Dates.SlugNotADate | GW2Walls.py:85-86 | `not-a-date` parses under neither format |
| GW2Walls.KindName | GW2Walls.py:38 | The type field is `"media"` or `"release"`, and `"media"` exactly for media records |
| GW2Walls.FileName | GW2Walls.py:53 | `"{date} {name} {num} {dimensions}.jpg"`: date first, a space, `.jpg` last, and the length of the four fields plus seven |
| GW2Walls.GetPath | GW2Walls.py:42-53 | The root's segments, then the type, then the file name |
| GW2Walls.MediaFileName | GW2Walls.py:39-40 | A media record's empty date and number are not collapsed: `" " + name + "  " + dims + ".jpg"` |
| GW2Walls.CleanName | GW2Walls.py:60-69 | Only ASCII letters, digits and `_-.() ` remain |
| GW2Walls.CleanNameIsKeep | GW2Walls.py:69 | `__clean_name` is the character filter over `ALLOWED_CHARACTERS`; the suffix replacement has no effect |
| GW2Walls.CleanNameAppendSiteSuffix | GW2Walls.py:69 | Cleaning a title followed by the site suffix (space, bar, space, `GuildWars2.com`) gives the cleaned title followed by two spaces and `GuildWars2.com` |
| GW2Walls.CleanNameDropsOnlyForbidden | GW2Walls.py:69 | The result is an order-preserving subsequence, and each allowed character keeps its count |
| GW2Walls.CleanNameIdempotent | GW2Walls.py:69 | Cleaning twice equals cleaning once |
| GW2Walls.CleanNameKeepsClean | GW2Walls.py:69 | A name of allowed characters comes back unchanged |
| GW2Walls.CleanNameKeepsSiteSuffix | GW2Walls.py:25 | The same for `TRIM_FROM_TITLE`: the suffix stays in the name, only its bar dropped |
| GW2Walls.HttpsPrefixOnRootPath | GW2Walls.py:145 | A root-relative link becomes `https:` + link, which is not an `https://` address |
| GW2Walls.MainSiteUrlHasSlash | GW2Walls.py:165 | A release URL made absolute contains a `/` |
| GW2Walls.ExtractReleaseDate | GW2Walls.py:72-86 | The ISO text of the first format that parses segment `[-2]`, `""` when none does, and the IndexError exactly when the URL has no `/` |
| GW2Walls.ReleaseDate | GW2Walls.py:72-86 | The date text is empty or ten characters |
| GW2Walls.ReleaseDateOfSlug | GW2Walls.py:81 | Only the segment before the last `/` is read |
| GW2Walls.SecondToLastOfThree | GW2Walls.py:81 | In `a/b/c` with no `/` in any part, segment `[-2]` is `b` |
| GW2Walls.IsSuccessRange | GW2Walls.py:122 | `code // 100 == 2` exactly for codes 200 to 299 |
| GW2Walls.GetUrl | GW2Walls.py:102-130 | A page comes back exactly when the URL answers with a 2xx code, and it is the answered page |
| GW2Walls.MediaName | GW2Walls.py:142 | The last `/`-segment of the image source with `-crop.jpg` removed; `MediaNameIsFileName` and `MediaNameOfCrop` state what it gives |
| GW2Walls.MediaNameIsFileName | GW2Walls.py:142 | A media wallpaper name holds no `/`, so the record names a file and not a directory |
| GW2Walls.MediaNameOfCrop | GW2Walls.py:142 | The name of `dir/stem-crop.jpg` is `stem` |
| GW2Walls.MediaLinks | GW2Walls.py:144-152 | One record per size link, in link order |
| GW2Walls.MediaRecords | GW2Walls.py:141-152 | Every media record has type media, empty date and number, and an `https:` URL |
| GW2Walls.MediaRecordsCount | GW2Walls.py:141-152 | Exactly one record per size link of every item |
| GW2Walls.MediaRecordsFromItems | GW2Walls.py:141-152 | Every record comes from one size link of one item, named after that item's image |
| GW2Walls.MediaWalls | GW2Walls.py:133-152 | The loop over items yields exactly the media records |
| GW2Walls.ItemWalls | GW2Walls.py:144-152 | The loop over one item's links appends its records |
| GW2Walls.FindAll | GW2Walls.py:186 | `find_all("ul", keyword)`: a block is found exactly when it is on the page and carries the class, in page order |
| GW2Walls.Blocks | GW2Walls.py:185-186 | The `wallpaper` blocks, then the `resolutions` blocks |
| GW2Walls.BlockWithBothClassesCountsTwice | GW2Walls.py:185-187 | A list with both classes is found under both keywords and numbered twice |
| GW2Walls.BlocksForSnoc | GW2Walls.py:185-186 | Each further keyword appends the blocks it finds |
| GW2Walls.ReleaseLinks | GW2Walls.py:189-199 | One record per size link of a block, in order |
| GW2Walls.ReleaseRecords | GW2Walls.py:181-199 | Every release record carries the page's name and date and type release |
| GW2Walls.ReleaseRecordsSnoc | GW2Walls.py:187-199 | A further block adds its records with the next number |
| GW2Walls.Numbers | GW2Walls.py:182-187 | The per-record numbers: one per link, each between 1 and the number of blocks, never decreasing |
| GW2Walls.NumbersCount | GW2Walls.py:187 | Number `k` appears exactly as often as block `k` has links |
| GW2Walls.NumbersBelow | GW2Walls.py:187 | No number goes beyond the block count |
| GW2Walls.Repeat | GW2Walls.py:187 | `n` copies of one value |
| GW2Walls.RepeatCount | GW2Walls.py:187 | `n` copies occur `n` times |
| GW2Walls.ReleaseRecordsByLink | GW2Walls.py:182-199 | Record `i` is link `i` of all blocks with the number of the block it came from |
| GW2Walls.SpecifiedRelease | GW2Walls.py:170-199 | The generator yields exactly the release records of the page, numbered over both keywords |
| GW2Walls.KeywordWalls | GW2Walls.py:186-199 | The loop over one keyword's blocks numbers them on from the count so far |
| GW2Walls.BlockWalls | GW2Walls.py:189-199 | The loop over one block's links appends its records |
| GW2Walls.ReleaseUrl | GW2Walls.py:165 | A release link made absolute starts with the site and contains `/` |
| GW2Walls.ReleaseUrls | GW2Walls.py:163-165 | Every release URL of every canvas starts with the site |
| GW2Walls.CrawlPages | GW2Walls.py:163-167 | Release pages crawled in order, each adding its records, up to the first that cannot be fetched; `CrawlPagesFailure`, `CrawlPagesConcat` and `CrawlPagesStopsAt` state where it stops and what it holds |
| GW2Walls.CrawlPagesFailure | GW2Walls.py:122-124 | The crawl fails exactly when some page does not answer 2xx, and it names the first such URL |
| GW2Walls.CrawlPagesConcat | GW2Walls.py:163-167 | Crawling a list after a clean crawl appends its records and its outcome |
| GW2Walls.CrawlPagesOne | GW2Walls.py:167 | One page: its records, or a failure naming it |
| GW2Walls.CrawlPagesFetchedAll | GW2Walls.py:122-124 | The crawl succeeds exactly when every URL answers 2xx |
| GW2Walls.CrawlPagesStopsAt | GW2Walls.py:122-124 | A crawl failing at `urls[i]`, every earlier page fetched, holds exactly the records of `urls[..i]` and reports `urls[i]` |
| GW2Walls.ReleaseWalls | GW2Walls.py:155-167 | The loop over canvases and releases crawls every release URL in order |
| GW2Walls.Wallpapers | GW2Walls.py:206-213 | The media records, then every release page's, with the first unfetchable page ending the stream; `WallpapersComplete` and `WallpapersStopAt` state when it fails and what it holds then |
| GW2Walls.WallpapersComplete | GW2Walls.py:206-213 | All wallpapers are found exactly when the media page, the releases page and every release page answer 2xx |
| GW2Walls.WallpapersStopAt | GW2Walls.py:163-167 | When release page `urls[i]` is the first that cannot be fetched, the stream is the media records and those of the pages before it, and it fails at `urls[i]` |
| GW2Walls.GetWallpapers | GW2Walls.py:206-213 | Media records, then release records, stopping at the first failed request |
| GW2Walls.Wanted | GW2Walls.py:264-275 | The three tests of the main loop: release named or none named, type named or none named, dimensions equal to the resolution; `SelectedExactlyWanted` states that exactly these are written |
| GW2Walls.Download | GW2Walls.py:264-282 | The writes are the wanted wallpapers, in discovery order, each at its `get_path` with its URL |
| GW2Walls.DownloadStep | GW2Walls.py:264-277 | One more wallpaper adds its write exactly when it is wanted |
| GW2Walls.SelectedExactlyWanted | GW2Walls.py:264-277 | A wallpaper is written exactly when its release is listed or none is, its type is asked for or none is, and its dimensions are the resolution; order is kept |
| GW2Walls.WritesAreWanted | GW2Walls.py:273-282 | Each write is for a wallpaper of the requested dimensions, at `root/type/file name`, from its URL |
| GW2Walls.DownloadAll | GW2Walls.py:264-284 | The main loop over the lazy `get_wallpapers`: the writes are those of the wanted wallpapers of `Wallpapers(web)`, also when a request fails, and the failure is `Wallpapers(web)`'s |
| GW2Walls.WritesConcat | GW2Walls.py:264-284 | The writes of one run of wallpapers followed by another are the writes of the first, then of the second |
| GW2Walls.WritesBeforeFailure | GW2Walls.py:264-284 | When a release page cannot be fetched, what was written before the script dies is the wanted media wallpapers, then the wanted wallpapers of the release pages before it |
| GW2Walls2.CleanupUrl | GW2Walls2.py:116-120 | `cleanup_url`: a protocol-relative link gains `https:`, a root-relative one the site address, any other is kept; `CleanupUrlCases` states the three cases |
| GW2Walls2.CleanupUrlCases | GW2Walls2.py:116-120 | `//x` becomes `https://x`, another `/x` becomes the site + `/x`, anything else is unchanged |
| GW2Walls2.CleanupUrlNotRooted | GW2Walls2.py:116-120 | A cleaned URL never starts with `/` |
| GW2Walls2.CleanupUrlIdempotent | GW2Walls2.py:116-120 | Cleaning twice equals cleaning once |
| GW2Walls2.CleanupUrlKeepsLink | GW2Walls2.py:116-120 | The original link is a suffix of the cleaned one |
| GW2Walls2.SpaceRun | GW2Walls2.py:69 | The length of the whitespace run at the start |
| GW2Walls2.DeleteSpaceRuns | GW2Walls2.py:75 | `re.sub(r'\s{2,}', '', s)` is no longer than its input |
| GW2Walls2.DeleteSpaceRunsMembers | GW2Walls2.py:75 | It adds no character |
| GW2Walls2.DeleteSpaceRunsKeepsVisible | GW2Walls2.py:75 | It keeps every non-whitespace character, in order |
| GW2Walls2.DeleteSpaceRunsNoAdjacent | GW2Walls2.py:75 | No two whitespace characters are left side by side |
| GW2Walls2.DeleteSpaceRunsNoop | GW2Walls2.py:75 | A string without adjacent whitespace is unchanged |
| GW2Walls2.DeleteAcross | GW2Walls2.py:75 | A run of two or more spaces between non-space text is deleted entirely, not collapsed |
| GW2Walls2.CleanupHtml | GW2Walls2.py:54-77 | No `\r`, `\n` or `\t` remains, and the result is no longer than the input |
| GW2Walls2.MapSpacesKeepsVisible | GW2Walls2.py:73-74 | Turning newlines and tabs into spaces keeps every non-whitespace character |
| GW2Walls2.CleanupHtmlNoAdjacentSpaces | GW2Walls2.py:75 | No two whitespace characters are adjacent in the result |
| GW2Walls2.CleanupHtmlKeepsVisible | GW2Walls2.py:73-75 | The non-whitespace characters are exactly the input's, in order |
| GW2Walls2.CleanupHtmlIdempotent | GW2Walls2.py:54-77 | Cleaning twice equals cleaning once |
| GW2Walls2.CleanupHtmlDeletesDoubleSpace | GW2Walls2.py:75 | `a + "  " + b` with non-space `a` and `b` becomes `a + b` |
| GW2Walls2.TagLength | GW2Walls2.py:93 | A nonzero length is that of a whole tag `<[/]?\w+>` at the start of the text |
| GW2Walls2.WordRun | GW2Walls2.py:93 | The length of the word-character run at the start |
| GW2Walls2.TagLengthComplete | GW2Walls2.py:93 | When the text starts with a tag of length `m`, `TagLength` is `m`: every tag is found, and measured whole |
| GW2Walls2.TagLengthOfTag | GW2Walls2.py:93 | `<w>` and `</w>` for a nonempty word `w` are measured as tags, whatever follows |
| GW2Walls2.TagPair | GW2Walls2.py:93 | `<w>` and `</w>` for a nonempty word `w` are tags |
| GW2Walls2.StripTags | GW2Walls2.py:98 | Removing tags does not lengthen the string; which text goes is stated by `StripTagsDeletesTag`, `StripTagsPlain` and `StripTagsBetween` |
| GW2Walls2.StripTagsMembers | GW2Walls2.py:98 | Removing tags adds no character |
| GW2Walls2.StripTagsNoop | GW2Walls2.py:98 | A string without `<` is unchanged |
| GW2Walls2.StripTagsDeletesTag | GW2Walls2.py:98 | A tag at the front is deleted and the rest cleaned on its own |
| GW2Walls2.StripTagsPlain | GW2Walls2.py:98 | Text without `<` in front of the rest is kept as it is |
| GW2Walls2.StripTagsBetween | GW2Walls2.py:98 | Of two tags around text without `<`, only the text is left |
| GW2Walls2.CleanupTitle | GW2Walls2.py:80-101 | Only word characters, whitespace other than `\r`/`\n`, and `-` remain |
| GW2Walls2.CleanupTitleIdempotent | GW2Walls2.py:97-99 | Cleaning twice equals cleaning once |
| GW2Walls2.CleanupTitleIgnoresNewline | GW2Walls2.py:97 | A newline is removed, not replaced |
| GW2Walls2.CleanupTitleWithoutTags | GW2Walls2.py:97-99 | A title without `<` cleans to exactly its characters that are word characters, whitespace or `-` and not newlines, in order |
| GW2Walls2.CleanupTitleBetweenTags | GW2Walls2.py:97-99 | A title without `<` between two tags cleans as the bare title does: both tags are removed |
| GW2Walls2.CleanupTitleDropsTagPair | GW2Walls2.py:93-99 | `<w>title</w>` cleans as `title` does, for a word `w`: the tags and their words are removed, not merely their brackets |
| GW2Walls2.NetlocEnd | GW2Walls2.py:146 | The network location ends at the first `/`, `?` or `#` |
| GW2Walls2.Before | GW2Walls2.py:146 | The text before a cut holds no cut character |
| GW2Walls2.UrlPath | GW2Walls2.py:146 | `urlsplit(url)[2]` holds no query or fragment, and is absent when the network location has an unbalanced `[` or `]` (the one ValueError of `urlsplit` modelled) |
| GW2Walls2.UrlPathOfAbsolute | GW2Walls2.py:146 | `scheme://host/path` splits to `/path` |
| GW2Walls2.UrlPathOnSite | GW2Walls2.py:146 | A path on the main site splits to itself |
| GW2Walls2.Basename | GW2Walls2.py:146 | `os.path.basename` holds no `/` |
| GW2Walls2.BasenameOfJoin | GW2Walls2.py:146 | The base name of `dir/name` is `name` |
| GW2Walls2.JobQueue.constructor | GW2Walls2.py:330 | A new queue is empty |
| GW2Walls2.JobQueue.Put | GW2Walls2.py:149 | `queue.put` appends one job |
| GW2Walls2.Selected | GW2Walls2.py:144 | The links whose text is exactly the resolution |
| GW2Walls2.SelectedMembers | GW2Walls2.py:144 | A link is selected exactly when it is on the page and its text equals the resolution |
| GW2Walls2.MediaJob | GW2Walls2.py:145-149 | A media job saves the cleaned URL to `save/Media/basename`, and fails exactly when the network location has an unbalanced bracket |
| GW2Walls2.MediaStep | GW2Walls2.py:141-150 | One link: a matching link adds its job, or raises when its URL does not split; any other link is skipped |
| GW2Walls2.MediaJobs | GW2Walls2.py:141-150 | The media loop, link by link through `MediaStep`; `MediaJobsFailure` and `MediaJobsComplete` state when it raises and what it queued |
| GW2Walls2.MediaJobsFailure | GW2Walls2.py:141-150 | The media page raises exactly when some wanted link's URL does not split |
| GW2Walls2.MediaJobsComplete | GW2Walls2.py:141-150 | Without an exception, one job per matching link, in link order |
| GW2Walls2.MediaJobOfSiteLink | GW2Walls2.py:142-147 | The site link `/dir/name` is saved from the main site to `save/Media/name` |
| GW2Walls2.MediaJobsStaysFailed | GW2Walls2.py:141-150 | Once the loop has raised, later links change nothing |
| GW2Walls2.GetMediaUrls | GW2Walls2.py:124-151 | The queue gains the media jobs, `found` counts them, and the failure is reported |
| GW2Walls2.GetMediaUrl | GW2Walls2.py:142-150 | One pass of the loop puts that link's job, if any |
| GW2Walls2.ReleaseFileName | GW2Walls2.py:236-241 | `"{date} {section} {release} {basename}"`: date first, base name last, three spaces between |
| GW2Walls2.ReleaseJob | GW2Walls2.py:233-244 | A release job saves the cleaned URL directly under the save path, and fails exactly when the network location has an unbalanced bracket |
| GW2Walls2.ReleaseStep | GW2Walls2.py:226-247 | One link: a matching link that splits adds its job; a ValueError skips it |
| GW2Walls2.ReleaseJobs | GW2Walls2.py:226-247 | The release-page loop, link by link through `ReleaseStep`, a link that does not split skipped; `ReleaseJobsFromLinks` and `ReleaseJobsComplete` state what it queues |
| GW2Walls2.ReleaseJobsFromLinks | GW2Walls2.py:226-247 | Every release job comes from a matching link of the page |
| GW2Walls2.ReleaseJobsComplete | GW2Walls2.py:226-247 | When every matching link splits, one job per matching link, in order |
| GW2Walls2.GetReleaseUrls | GW2Walls2.py:200-250 | The queue gains the page's jobs, none when the page does not open, and `found` counts them |
| GW2Walls2.FirstOr | GW2Walls2.py:176 | The first heading found, or `""` |
| GW2Walls2.LinkTargets | GW2Walls2.py:191-196 | One release thread per link of a list item, with the cleaned URL |
| GW2Walls2.PageJobs | GW2Walls2.py:218-247 | One release-page thread: the jobs of the page's links, or none when the page cannot be opened (the error is logged and the thread returns) |
| GW2Walls2.CrawlJobs | GW2Walls2.py:191-197 | The release-page threads run in start order, their jobs one after another; `CrawlJobsConcat` and `CrawlJobsUnderSave` state its structure and where the files go |
| GW2Walls2.CrawlJobsConcat | GW2Walls2.py:172-197 | The threads' jobs for two lists of releases are concatenated |
| GW2Walls2.CrawlJobsUnderSave | GW2Walls2.py:234-244 | Every release job is saved directly under the save path from a cleaned URL |
| GW2Walls2.PageJobsUnderSave | GW2Walls2.py:234-244 | The same for one release page |
| GW2Walls2.ReleaseJobUnderSave | GW2Walls2.py:234-244 | The same for one job |
| GW2Walls2.IndexTargetsCleaned | GW2Walls2.py:192 | Every release thread gets a cleaned URL |
| GW2Walls2.ItemsTargetsCleaned | GW2Walls2.py:192 | The same for the list items of one section |
| GW2Walls2.IndexTargetsTitled | GW2Walls2.py:176-184 | Every release thread gets a cleaned section title and release name |
| GW2Walls2.ItemsTargetsTitled | GW2Walls2.py:182-184 | The same for the list items of one section |
| GW2Walls2.ItemThreads | GW2Walls2.py:178-197 | One list item's threads put their jobs in start order |
| GW2Walls2.SectionThreads | GW2Walls2.py:172-197 | One section's threads put their jobs in start order |
| GW2Walls2.GetReleasesUrls | GW2Walls2.py:154-197 | The queue gains the jobs of every release page of every section |
| GW2Walls2.Gather | GW2Walls2.py:337-338 | The gathering phase: every release thread's jobs, then the media jobs, or nothing when a page cannot be opened or a wanted media link does not split; `GatherSucceeds` and `GatherJobs` state both cases |
| GW2Walls2.GatherUrls | GW2Walls2.py:337-338 | Release jobs first, then media jobs; nothing when a page does not open or the media loop raises |
| GW2Walls2.GatherSucceeds | GW2Walls2.py:337-338 | Gathering finishes exactly when both pages open and every wanted media link splits |
| GW2Walls2.GatherJobs | GW2Walls2.py:337-338 | Every queued job is saved under the save path from a cleaned URL, and there is one for each wanted media link at least |
| SoupWalls.FilenameFriendly | GW2Walls-Threads.py:94-96 | Only `-_.() `, ASCII letters and digits remain, as an order-preserving subsequence |
| SoupWalls.FilenameFriendlyCounts | GW2Walls-Threads.py:94-96 | Each allowed character keeps its count, every other is dropped |
| SoupWalls.FilenameFriendlyIdempotent | GW2Walls-Async.py:93-95 | Applying it twice equals applying it once |
| SoupWalls.FilenameFriendlyFixpoint | GW2Walls-Threads.py:94-96 | A name comes back unchanged exactly when it holds only allowed characters |
| SoupWalls.FilenameFriendlyIsCleanName | GW2Walls-Threads.py:95 | It keeps the same characters as GW2Walls.py's `__clean_name` |
| SoupWalls.ReleaseName | GW2Walls-Threads.py:66 | The release name holds only allowed characters |
| SoupWalls.ReleaseNameOfTitle | GW2Walls-Async.py:67 | Removing the site suffix from a title that ends in it and has no bar of its own leaves the title |
| SoupWalls.ReleaseNameOfSiteTitle | GW2Walls-Threads.py:66 | The suffix is removed before sanitising, where `__clean_name` keeps it |
| SoupWalls.WallFileName | GW2Walls-Threads.py:83 | `f'{release_date}_{release_name}_{wall_number}.jpg'`; `WallFileNameHasNoSlash` and `WallFileNameInjective` state that it names a file and tells the blocks apart |
| SoupWalls.WallFileNameHasNoSlash | GW2Walls-Threads.py:83 | `{date}_{name}_{number}.jpg` holds no `/` when its parts hold none |
| SoupWalls.WallFileNameInjective | GW2Walls-Async.py:84 | Different block numbers give different file names |
| SoupWalls.DateTextHasNoSlash | GW2Walls-Threads.py:99-106 | The date text (ISO or empty) holds no `/` |
| SoupWalls.MediaWallName | GW2Walls-Threads.py:28 | The last `/`-segment of the image source with `-crop.jpg` made `.jpg`; `MediaWallNameIsFileName` and `MediaWallNameOfCrop` state what it gives |
| SoupWalls.MediaWallNameIsFileName | GW2Walls-Threads.py:28 | The media file name holds no `/` |
| SoupWalls.MediaWallNameOfCrop | GW2Walls-Async.py:30 | The name of `dir/stem-crop.jpg` is `stem.jpg` |
| SoupWalls.PathJoin | GW2Walls-Threads.py:126 | `os.path.join`: an absolute part replaces the path; otherwise the parts are kept in order around one `/` |
| SoupWalls.Destination | GW2Walls-Threads.py:126 | `os.path.join(save_path, kind, name)` before expansion; `DestinationSegments`, `DestinationAtRoot` and `DestinationUnderSave` state where the file lands |
| SoupWalls.DestinationSegments | GW2Walls-Threads.py:126 | The destination starts with the save path, its last segment is the file name and the one before it the kind |
| SoupWalls.DestinationAtRoot | GW2Walls-Async.py:119 | The same with an empty save path |
| SoupWalls.DestinationUnderSave | GW2Walls-Async.py:119 | The same with a nonempty save path |
| SoupWalls.KindNameIsSegment | GW2Walls-Threads.py:38 | `'media'` and `'release'` are single path segments |
| SoupWalls.PathJoinRelative | GW2Walls-Threads.py:126 | Joining a relative part adds exactly one `/` |
| SoupWalls.SecondToLastOfTwo | GW2Walls-Threads.py:126 | In `a/b` the segment before the last is `a` |
| SoupWalls.Wanted | GW2Walls-Threads.py:34 | A size link is taken exactly when its text, stripped of surrounding whitespace, is the requested size; `LinkTasks` and `LinkTasksMembers` state that exactly these start downloads |
| SoupWalls.SizeTask | GW2Walls-Threads.py:31-38 | Every download starts from an `https:` address |
| SoupWalls.LinkTasks | GW2Walls-Threads.py:30-39 | The downloads are the links whose stripped text is the dimensions, in order, each with `https:` made sure of |
| SoupWalls.SelectedTasksSnoc | GW2Walls-Threads.py:30-39 | One more link adds its download at the end exactly when it is wanted |
| SoupWalls.LinkTasksMembers | GW2Walls-Async.py:32-41 | A download is started exactly for a wanted link |
| SoupWalls.LinkTasksNoneWanted | GW2Walls-Threads.py:80-81 | No wanted link, no download |
| SoupWalls.MediaTasks | GW2Walls-Threads.py:27-39 | The media walk, item by item, each item's wanted links named after its image; `MediaTasksSnoc`, `MediaTasksMembers` and `MediaTasksInFolder` state what it starts |
| SoupWalls.MediaTasksSnoc | GW2Walls-Threads.py:27-39 | A further item adds its downloads under its own name |
| SoupWalls.MediaTasksMembers | GW2Walls-Threads.py:27-39 | A media download is exactly a wanted link of some item, named after its image |
| SoupWalls.ReleaseTasks | GW2Walls-Threads.py:72-88 | The release walk, block by block, the `k`-th block numbered `k + 1`; `ReleaseTasksSnoc`, `ReleaseTasksMembers` and `SkippedBlockKeepsNumber` state the numbering and what it starts |
| SoupWalls.ReleaseTasksSnoc | GW2Walls-Threads.py:73-88 | A further block adds its downloads with the next number |
| SoupWalls.ReleaseTasksMembers | GW2Walls-Async.py:73-87 | A release download is exactly a wanted link of block `k`, named with number `k + 1` |
| SoupWalls.SkippedBlockKeepsNumber | GW2Walls-Threads.py:74 | A block without wanted links still takes a number |
| SoupWalls.MediaTasksInFolder | GW2Walls-Threads.py:37-38 | Every media download goes directly into the media folder under the save path, from `https:` |
| SoupWalls.ReleasePageTasksInFolder | GW2Walls-Threads.py:83-86 | Every release download goes directly into the release folder under the save path, from `https:` |
| SoupWalls.ReleasesTasks | GW2Walls-Threads.py:46-61 | Every release page in index order, each one's downloads after the previous one's; `ReleasesTasksSnoc`, `ReleasesTasksConcat` and `ReleasesTasksInFolder` state it |
| SoupWalls.ReleasesTasksSnoc | GW2Walls-Threads.py:58 | A further release appends its downloads |
| SoupWalls.ReleasesTasksConcat | GW2Walls-Async.py:59 | The downloads of two lists of releases are concatenated |
| SoupWalls.ReleasesTasksInFolder | GW2Walls-Threads.py:46-61 | Every release download of every release goes into the release folder |
| SoupWalls.WallTasks | GW2Walls-Threads.py:111 | Every release's downloads, then the media page's; `WallTasksOrdered` states the order and the folders |
| SoupWalls.WallTasksOrdered | GW2Walls-Threads.py:111 | Every download lands in its kind's folder, and all release downloads come before any media download |
| SoupWalls.Tag.constructor | GW2Walls-Threads.py:30 | A parsed tag holds the `href` read from the page |
| SoupWalls.Tag.EnsureHttps | GW2Walls-Threads.py:31-32 | `href` gets `https:` in front exactly when it lacks it; a second time changes nothing |
| SoupWalls.Parsed | GW2Walls-Threads.py:30 | The links as parsed, one per tag |
| SoupWalls.ParsedUls | GW2Walls-Threads.py:73 | The blocks as parsed, one per list |
| SoupWalls.FindSoupParsed | GW2Walls-Threads.py:73 | Finding lists among the parsed tags finds the same blocks as on the page |
| SoupWalls.ParsedUlsConcat | GW2Walls-Threads.py:72-73 | Parsing distributes over concatenation |
| SoupWalls.NewTags | GW2Walls-Threads.py:30 | Parsing builds fresh tags for the links |
| SoupWalls.ParseItems | GW2Walls-Threads.py:27 | Parsing builds the media items with fresh tags |
| SoupWalls.ParseUls | GW2Walls-Threads.py:73 | Parsing builds the lists with fresh tags |
| SoupWalls.ReleaseDateFromUrl | GW2Walls-Threads.py:99-106 | The first of `'%B-%Y'`, `'%B-%d-%Y'` that parses segment `[-2]`, or none |
| SoupWalls.AddSizeLinks | GW2Walls-Threads.py:76-88 | Every link of a block has `https:` made sure of in place, and a download is added for each wanted one |
| SoupWalls.SizeLinkTurn | GW2Walls-Threads.py:77-88 | One pass of that loop |
| SoupWalls.AddSizeLink | GW2Walls-Async.py:78-87 | One link: rewritten in place, and a download added when wanted |
| SoupWalls.GetMediaWalls | GW2Walls-Threads.py:23-43 | The media walk starts exactly the media downloads, in order |
| SoupWalls.GetReleaseWalls | GW2Walls-Threads.py:64-91 | The release walk starts exactly the release downloads of the page, numbered over both keywords |
| SoupWalls.NumberedBlocks | GW2Walls-Threads.py:73-88 | The loop over one keyword's lists numbers them on from the count so far |
| SoupWalls.NumberedBlock | GW2Walls-Async.py:74-87 | One list takes the next number and adds its downloads |
| SoupWalls.CanvasReleases | GW2Walls-Threads.py:52-58 | Every release of a canvas, with its URL made absolute, adds its downloads in order |
| SoupWalls.GetReleases | GW2Walls-Threads.py:46-61 | The downloads of every release of every canvas, in order |
| SoupWalls.GetWallUrls | GW2Walls-Async.py:108-111 | Release downloads first, then media downloads |

## Left out

- HTTP: `requests`, `urlopen` and the session are not modelled. What a URL answers is the parameter `web`. For GW2Walls.py it carries the status code as well, so the 2xx rule and the stop on the first failure are modelled.
- HTML parsing is not modelled. BeautifulSoup's `find_all` and the regular expressions that pull links, headings, list items and dates out of the page text are both foreign library behaviour. Each page is given already parsed, in the parts the scripts read.
- Concurrency is not modelled:
  - the download worker threads and `queue.join` of GW2Walls2.py;
  - the thread per release page;
  - the thread per download and its polling loop in GW2Walls-Threads.py;
  - the `asyncio` tasks and `asyncio.wait` in GW2Walls-Async.py.

  Threads and tasks are taken to run in the order they are started. Their effect is a list of jobs or tasks, not interleaved writes.
- Downloads and file writes are not modelled: `download_image`, `download_wallpaper`'s fetch and write, `makedirs`, and the overwrite warning are all I/O. Each modelled run ends in the list of writes, jobs or tasks it would perform.
- Path expansion is not modelled: `fix_save_path`, `expanduser`, `expandvars` and `abspath` depend on the environment. GW2Walls.py and GW2Walls2.py paths are lists of segments. The Threads and Async destinations are `os.path.join` on strings, before expansion.
- The UTF-8 `decode` in `cleanup_html`: the condensing works on the decoded text.
- Word characters are ASCII only, for both `\w` and `strptime`'s digits. Whitespace `\s` follows Python's `str.isspace`. Unicode case folding is left out: `%B` is matched against ASCII lower case.
- GW2Walls2.UrlPath: models only the cut of `urlsplit` at the scheme, network location, query and fragment, and its ValueError on an unbalanced `[` or `]` in the network location. Left out, because they are rules of the library and not of the script:
  - the strip of leading C0 control characters and spaces;
  - the deletion of tabs, carriage returns and line feeds anywhere in the URL;
  - the ValueError on a bracketed host that is not a valid IPv6 or IPvFuture address;
  - the ValueError on a non-ASCII network location whose NFKC form gains one of `/`, `?`, `#`, `@` or `:`;
  - the split cache.

  So `UrlPath`, `MediaJob` and `ReleaseJob` fail on fewer URLs than the script does. For example, the model queues a job for a wanted media link `https://[abc]/w.jpg`, where the script's `urlsplit` raises (on Python 3.11.4 and later).
- GW2Walls2.StripTags: its own `ensures` gives only the length bound. What it deletes is stated by lemmas beside it. `StripTagsDeletesTag` deletes a tag at the front, `StripTagsPlain` keeps text without `<`, and `TagLengthComplete` says every tag is found.
- A crash on a missing `<title>`, `<img>` or `<a>` (a `None` dereference in the source) is not modelled. The parsed page always holds these pieces.
- Logging, argparse and the `--threads` count are not modelled.
- GW2Walls.SpecifiedRelease: requires a `/` in the URL. `url.split("/")[-2]` raises IndexError otherwise. Every URL it is called with from the release index begins with the site address and so holds one (`ReleaseUrl`).
- SoupWalls.ReleaseDateFromUrl: requires a `/` in the URL, for the same IndexError.
- SoupWalls.GetReleaseWalls: requires a `/` in the URL, for the same IndexError. Every release URL is prefixed with the site address.
