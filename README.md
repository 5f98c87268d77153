# mangadlmao in Dafny

A model of the decision and formatting logic of mangadlmao, a downloader that
fetches manga chapters from MangaDex, MangaPlus, WeebCentral and MangaSee and
stores each chapter as a `.cbz` archive with a `ComicInfo.xml` manifest.

The model covers:

- **MangaDex:**
  - the request rate limiter, a class over a millisecond clock;
  - the feed paging loop;
  - the page file naming and the three-round retry loop of `download_chapter`;
  - the per-chapter pipeline of `download_manga`: exclusion, `since`, external chapters, guessing of missing numbers, `from_chapter`, the up-to-date check, the download and the removal of duplicates.
- **MangaPlus:**
  - the request spacing;
  - the URL `match`;
  - the chapter-number derivation of `get_details`;
  - the page numbering of `get_pages`;
  - the cyclic-XOR `decrypt`;
  - the file name and outcome of `download_page`;
  - the inclusive filters and the chapter loop of `download_manga`.
- **WeebCentral:**
  - the number regex of `get_chapters`;
  - the reversed chapter loop of `download_manga`;
  - the extension choice and rename of `download`;
  - the page set of `download_chapter`.
- **MangaSee:**
  - the guid number;
  - the reversed entry loop of `download_manga`;
  - the checks, `CurChapter` conversion and page URLs of `download_chapter`.
- **Archives:** `generate_comic_info` and `create_cbz` of `src/mangadlmao/cbz.py`, plus the older `generate_comic_info` of `src/mangadl/cbz.py`.
- **Paths:** `sanitize_path` of `src/mangadlmao/utils.py`.

## How the model is built

- **Chapter numbers** are integers in hundredths (`12.5` is `1250`), taken as the floor of the exact decimal.
  - Every threshold and offset the sources use (0.5, 0.1, 0.01) is exact in hundredths.
  - `from_chapter` is an integer of hundredths too, so comparisons with it are exact only for bounds of at most two decimals; a finer bound is rounded down.
  - `ParseNumber` is Python's `float()` on plain ASCII decimals; it returns None where `float()` raises ValueError.
- **Times** are integer timestamps.
- **Rate-limiter clocks** are integer milliseconds.
- **Given functions.** `Common.Env` holds helpers whose code is not in the modelled files:
  - `format_chapter_number` (default width, and width 4);
  - the `:g` rendering of a number;
  - strftime of a timestamp;
  - the calendar date of a timestamp.
- **A series directory** is a map from file name to `Cbz.CbzFile(mtime, comicInfo)`.
- **Oracles.** A download outcome is an oracle indexed by visit order. So are a page task's result, the at-home server lookups and the file-type guess.
- **Loops as methods.** Each loop of the source is a method proved equal to a fold (`SyncUpTo`, `SyncDir`, `Body`). The lemmas state the properties of those folds.
  - The WeebCentral and MangaSee loops are the same loop. `SeriesLoop` holds it once, and each source decides its filters as a `Visit` per entry.
- **Code over description.** Where the code and the described behaviour differ, the model follows the code:
  - A numberless MangaDex chapter guessed from a *following* chapter gets +0.1. The clamp `max(0.1, 0.1 * distance)` turns the negative distance into 0.1. So the guess lands above the following chapter, not below it.
  - A retried MangaDex page is numbered by its place in the failed list.
  - MangaPlus `since` is inclusive, while the other sources treat it as exclusive.

## Model

| member | source | states |
|---|---|---|
| Sanitize.NoReservedCharacters | src/mangadlmao/utils.py:5-9 | the sanitised name holds none of `/ \ : ? * \| < > "` |
| Sanitize.NoSurroundingWhitespace | src/mangadlmao/utils.py:9 | the final `strip()` leaves no whitespace at either end |
| Sanitize.NeverLonger | src/mangadlmao/utils.py:7-9 | sanitising never lengthens a name |
| Sanitize.CleanNameUnchanged | src/mangadlmao/utils.py:7-9 | a name with no reserved character, no leading `.` and no surrounding whitespace is returned unchanged |
| Sanitize.LeadingDotCanSurvive | src/mangadlmao/utils.py:7 | `lstrip(". ")` runs before the replacements, so `":."` sanitises to `"."` |
| Sanitize.Translate | src/mangadlmao/utils.py:7-9 | per character: `/` and `\` become `-`, `<` and `>` become `_`, `"` becomes `'`, `: ? * \|` are deleted, and any other character is kept |
| Sanitize.ChainIsTranslation | src/mangadlmao/utils.py:7-8 | the chain of nine `replace` calls acts character by character, as `Translate` |
| Sanitize.StripFacts | src/mangadlmao/utils.py:9 | `strip()` keeps a contiguous piece of its input, leaves no whitespace at either end, and changes nothing when neither end is whitespace |
| Cbz.GenerateComicInfo | src/mangadlmao/cbz.py:9-16 | the accumulating loop returns `ComicInfo(entries)`: the header, one element per kept entry in order, and the footer; an empty key of a kept entry raises IndexError |
| Cbz.DocumentFrame | src/mangadlmao/cbz.py:10-15 | the document starts with the XML declaration and `<ComicInfo>` and ends with `</ComicInfo>` |
| Cbz.BodyAppend | src/mangadlmao/cbz.py:11-14 | the elements of a concatenated manifest are the two manifests' elements in insertion order |
| Cbz.EmptyValuesDropped | src/mangadlmao/cbz.py:12 | an entry whose value is None or `""` adds nothing to the document |
| Cbz.ZeroIsKept | src/mangadlmao/cbz.py:12-14 | a value of 0 is kept and gives the element `\t<Key>0</Key>\n` |
| Cbz.Capitalize | src/mangadlmao/cbz.py:13 | the key's first character is upper-cased and the rest is unchanged |
| Cbz.ElementReadsBack | src/mangadlmao/cbz.py:14 | an element line is the open tag, the escaped text and the close tag, and its text unescapes to `str(value)` |
| Cbz.UnescapeEscape | src/mangadlmao/cbz.py:14 | reading the three entities back undoes `escape` |
| Cbz.EscapedHasNoAngles | src/mangadlmao/cbz.py:14 | escaped text holds no raw `<` or `>` |
| Cbz.EscapeIsCharwise | src/mangadlmao/cbz.py:14 | the replacements of `&`, then `>`, then `<` act character by character |
| Cbz.NoRecovery | src/mangadlmao/cbz.py:11-14 | once a prefix of the manifest raises, the whole manifest raises the same exception |
| Cbz.CreateCbz | src/mangadlmao/cbz.py:19-46 | ComicInfo.xml is written before the listing; the archive holds the staged files plus ComicInfo.xml; a rename or EXDEV move places it at the destination; any other rename error raises and leaves temp.cbz; a failing manifest raises first |
| Cbz.ArchiveIsStagingPlusInfo | src/mangadlmao/cbz.py:32-39 | the archive's names are the staging directory's plus ComicInfo.xml; temp.cbz is in it only if it was staged before |
| LegacyCbz.LegacyGenerateComicInfo | src/mangadl/cbz.py:6-13 | the legacy loop returns `LegacyComicInfo(entries)`: only None is left out, an empty key raises IndexError, a non-string value raises AttributeError |
| LegacyCbz.LegacyDocumentFrame | src/mangadl/cbz.py:7-12 | the legacy document has the same first and last lines |
| LegacyCbz.EmptyStringGivesEmptyElement | src/mangadl/cbz.py:9-11 | an empty string gives an empty element `\t<Key></Key>\n` |
| LegacyCbz.NumberRaises | src/mangadl/cbz.py:11 | a number is escaped without `str()`, so the whole call raises |
| LegacyCbz.AgreesWithCurrent | src/mangadl/cbz.py:8-11 | on manifests of non-empty strings and None, the legacy and current serialisers give the same elements in the same order |
| LegacyCbz.LegacyNoRecovery | src/mangadl/cbz.py:8-11 | once a prefix raises, the whole legacy manifest raises the same exception |
| MangaDexLimiter.WakeTime | src/mangadlmao/apis/mangadex.py:41-49 | the wake time is at least now and at least the last request plus the spacing, and is one of the two |
| MangaDexLimiter.RateLimiter.Request | src/mangadlmao/apis/mangadex.py:38-58 | a request is sent no earlier than 500 ms after the last global request, and no earlier than 2000 ms after the last at-home request when its URL contains `/at-home/server/`; afterwards `global` is stamped, the route key is stamped only for at-home URLs, and no other key changes ; no request is sent before a time already recorded, and recorded times never pass the clock |
| MangaDexLimiter.TwoRequests | src/mangadlmao/apis/mangadex.py:41-58 | the second of two requests is sent at least 500 ms after the first one finished, and at least 2000 ms after it when both are at-home requests |
| MangaDexFeed.GetMangaChapters | src/mangadlmao/apis/mangadex.py:128-147 | the loop reads responses up to the first with `limit + offset >= total`; each request's offset is the previous response's `limit + offset`; the result is the responses' data in request order |
| MangaDexFeed.HonestOffsets | src/mangadlmao/apis/mangadex.py:128-145 | against a server that answers as asked, request `i` has offset `500 * i` |
| MangaDexFeed.HonestPageCount | src/mangadlmao/apis/mangadex.py:128-147 | against such a server, the loop reads ceil(total / 500) pages, and at least one |
| MangaDexChapter.PageFileNameReadsBack | src/mangadlmao/apis/mangadex.py:158-165 | a numbered page file is three digits of its position, a `-`, then the page's base name |
| MangaDexChapter.FailedExactly | src/mangadlmao/apis/mangadex.py:264-271 | the failed and succeeded lists together are a permutation of the round's pages, and a page is failed iff its task failed |
| MangaDexChapter.FetchRound | src/mangadlmao/apis/mangadex.py:250-271 | a round submits every page and collects the pages whose task did not return True; every task that opened its file leaves that file under its position in this round's list, a partial one when the task failed after opening it |
| MangaDexChapter.DownloadChapter | src/mangadlmao/apis/mangadex.py:228-290 | at most 3 rounds; round 1 uses the given base URL and all pages; each retry takes exactly the previous round's failed pages from a freshly resolved base URL with the same hash; the chapter is staged iff the last round has no failures, with every file any round left, partial files of failed tasks included; otherwise the call raises, from the lookup or with RetryException after round 3 |
| MangaDexChapter.RetryRenumbers | src/mangadlmao/apis/mangadex.py:253-260 | a retried page is renumbered from its place in the failed list |
| MangaDexChapter.BrokenPageStagedTwice | src/mangadlmao/apis/mangadex.py:164-176 | pages `a.png`, `b.png` where `b` breaks mid-stream in round 1 and arrives in round 2 stage `001-a.png`, the partial `002-b.png` and `001-b.png` |
| MangaDexManga.ApplyTitle | src/mangadlmao/apis/mangadex.py:305-307 | a non-empty user title replaces the fetched one, and nothing else changes |
| MangaDexManga.ResolveSince | src/mangadlmao/apis/mangadex.py:316-325 | "auto" is the newest file time, or the epoch when there is none; no `since` is the epoch |
| MangaDexManga.ScanFacts | src/mangadlmao/apis/mangadex.py:336-370 | a chapter is excluded iff some group or user relationship matches an exclude entry caselessly by name or id; the group is the last group relationship's name |
| MangaDexManga.Guess | src/mangadlmao/apis/mangadex.py:394-430 | a guess exists iff some other chapter has a raw number |
| MangaDexManga.GuessFromPreceding | src/mangadlmao/apis/mangadex.py:396-415 | the nearest earlier numbered chapter is used, with an offset of one tenth per step, at most nine tenths |
| MangaDexManga.GuessFromFollowing | src/mangadlmao/apis/mangadex.py:404-415 | with no earlier number, the nearest later one is used, and the clamp always adds one tenth |
| MangaDexManga.GuessAboveFollowingChapter | src/mangadlmao/apis/mangadex.py:404-415 | a numberless chapter before chapter 2 is guessed as 2.1 |
| MangaDexManga.GuessNumber | src/mangadlmao/apis/mangadex.py:394-430 | the backward and forward search loops compute `Guess` |
| MangaDexManga.OffsetTenths | src/mangadlmao/apis/mangadex.py:413 | the offset is between one and nine tenths, and equals the distance in between |
| MangaDexManga.PlanCandidateIff | src/mangadlmao/apis/mangadex.py:338-465 | a chapter reaches the file check iff it is not excluded, `since < updatedAt`, it has no external URL, it has or can guess a number, and `from_chapter` does not skip it (a number that does not parse is never skipped) |
| MangaDexManga.PlanOf | src/mangadlmao/apis/mangadex.py:338-465 | the filters of the loop body, in the source's order, decide `PlanChapter` |
| MangaDexManga.Visit | src/mangadlmao/apis/mangadex.py:466-494 | an up-to-date archive is skipped; a saved chapter is written with `updatedAt` as mtime and every other `* {id} *.cbz` is deleted; a failed download stops the loop and any other exception propagates; every pass adds one progress update; in particular an up-to-date archive leaves the directory unchanged and the loop running |
| MangaDexManga.DownloadManga | src/mangadlmao/apis/mangadex.py:327-494 | the chapter loop's directory, progress updates and outcome are `SyncUpTo` over all chapters |
| MangaDexManga.OneUpdatePerChapter | src/mangadlmao/apis/mangadex.py:327-494 | after the initial length, one progress update per chapter reached; every chapter is reached unless the loop stopped |
| MangaDexManga.StopsOnlyOnFailedDownload | src/mangadlmao/apis/mangadex.py:470-484 | the loop ends early only at a chapter whose download did not save |
| MangaDexManga.StopIsFinal | src/mangadlmao/apis/mangadex.py:478-484 | after a stop or an exception, later chapters change nothing |
| MangaDexManga.SavedChapterHasNoDuplicates | src/mangadlmao/apis/mangadex.py:470-491 | after a chapter is saved, its archive is there with `updatedAt` as mtime and its own manifest; no other `* {id} *.cbz` file is left; every other file is kept as it was, and nothing else appears |
| MangaDexManga.UpToDateSkipped | src/mangadlmao/apis/mangadex.py:466-469 | an existing archive whose mtime is at least `updatedAt` is skipped: the directory is unchanged and the loop goes on |
| MangaDexManga.SkipLeavesDirectory | src/mangadlmao/apis/mangadex.py:366-445 | a filtered chapter leaves the directory as it was |
| MangaPlusApi.MangaPlusLimiter.Request | src/mangadlmao/apis/mangaplus.py:50-59 | a request is sent no earlier than a second after the last one, and the end of every request is stamped, raising or not |
| MangaPlusApi.Match | src/mangadlmao/apis/mangaplus.py:61-65 | a URL matches iff the case-insensitive prefix is followed by a digit, and the id is the value of the digit run after the prefix |
| MangaPlusApi.MatchTitleUrl | src/mangadlmao/apis/mangaplus.py:61-65 | the id of a title URL reads back, whatever non-digit text follows it |
| MangaPlusApi.DotMatchesAnyCharacter | src/mangadlmao/apis/mangaplus.py:31-33 | the dots of the pattern are unescaped, so they match any character |
| MangaPlusApi.GetDetails | src/mangadlmao/apis/mangaplus.py:87-131 | one chapter per entry of `firstChapterList + lastChapterList`, in order, with its id and time; "ex" chapters get the `"ex "` title prefix; each number follows `NumberAt`, carrying the previous number |
| MangaPlusApi.ExBetweenChapters | src/mangadlmao/apis/mangaplus.py:97-103 | an "ex" chapter between chapters 2 and 3 is numbered 2.5, from the next name minus 0.5 |
| MangaPlusApi.TrailingSpecials | src/mangadlmao/apis/mangaplus.py:104-117 | two trailing specials after chapter 5 are numbered 5.5 and 5.51: the previous name plus 0.5, then the carried number plus 0.01 |
| MangaPlusApi.SubtitleAfterWord | src/mangadlmao/apis/mangaplus.py:94-98 | the subtitle regex reads the number after a word and a space |
| MangaPlusApi.SubtitleDecimal | src/mangadlmao/apis/mangaplus.py:94-96 | a match is a prefix of the subtitle from one of its digits |
| MangaPlusApi.GetPages | src/mangadlmao/apis/mangaplus.py:154-163 | only `mangaPage` entries become pages, in order, numbered 1, 2, … |
| MangaPlusApi.MangaPages | src/mangadlmao/apis/mangaplus.py:155-157 | the kept entries are exactly the `mangaPage` entries |
| MangaPlusApi.MangaPagesAppend | src/mangadlmao/apis/mangaplus.py:155-157 | the filter distributes over concatenation and keeps a single entry iff it is a `mangaPage`, so order and duplicates are kept |
| MangaPlusApi.FromHex | src/mangadlmao/apis/mangaplus.py:166 | `bytearray.fromhex` gives at most one byte per two characters |
| MangaPlusApi.FromHexFacts | src/mangadlmao/apis/mangaplus.py:166 | a result means every character is whitespace or a hex digit, and a text without whitespace has exactly two digits per byte; None means some non-whitespace character does not start a hex pair |
| MangaPlusApi.FromHexToHex | src/mangadlmao/apis/mangaplus.py:166 | the hex text of any bytes, with any whitespace after each pair, decodes back to those bytes |
| MangaPlusApi.CyclicXor | src/mangadlmao/apis/mangaplus.py:172-173 | the output has the input's length, and byte `i` is input byte `i` XOR key byte `i mod |key|` |
| MangaPlusApi.Decrypt | src/mangadlmao/apis/mangaplus.py:165-173 | decryption keeps the length; a malformed key raises ValueError; an empty key raises ZeroDivisionError on a non-empty image |
| MangaPlusApi.DecryptTwice | src/mangadlmao/apis/mangaplus.py:165-173 | decrypting twice with the same key gives the image back |
| MangaPlusApi.Suffix | src/mangadlmao/apis/mangaplus.py:176 | the suffix is empty, or a `.` followed by at least one character |
| MangaPlusApi.SuffixExamples | src/mangadlmao/apis/mangaplus.py:176 | `/a/page.jpg` gives `.jpg`, and a leading-dot name `.hidden` gives no suffix |
| MangaPlusApi.DownloadPage | src/mangadlmao/apis/mangaplus.py:175-188 | the file (number padded to four digits, then the URL path's suffix) is written iff the response is ok and decrypts; a request exception or a non-ok status returns False without writing; a decryption error propagates |
| MangaPlusManga.WithTitle | src/mangadlmao/apis/mangaplus.py:219-220 | a non-empty title replaces the fetched one |
| MangaPlusManga.LastChapter | src/mangadlmao/apis/mangaplus.py:227 | the count is the floor of the last chapter's number, taken before filtering; an empty list raises IndexError |
| MangaPlusManga.Select | src/mangadlmao/apis/mangaplus.py:229-232 | a chapter is kept iff its time is at or after `since` and its number is at or above `from_chapter`, both inclusive |
| MangaPlusManga.SelectAppend | src/mangadlmao/apis/mangaplus.py:229-235 | selection distributes over concatenation and keeps a single chapter iff both bounds admit it, so the loop sees the kept chapters in order with duplicates, and the length update counts them all |
| MangaPlusManga.Take | src/mangadlmao/apis/mangaplus.py:241 | `title[:128]` is a prefix of at most 128 characters |
| MangaPlusManga.Archives | src/mangadlmao/apis/mangaplus.py:237-254 | each selected chapter's archive name and manifest |
| MangaPlusManga.DownloadManga | src/mangadlmao/apis/mangaplus.py:217-267 | an empty chapter list raises before anything happens; otherwise the directory is `SyncDir` over the selected chapters' archives, after one length update and one progress update per chapter |
| MangaPlusManga.SaveArchives | src/mangadlmao/apis/mangaplus.py:237-267 | an existing archive is skipped whatever its age; only a saved download writes; errors are swallowed and the loop goes on |
| MangaPlusManga.ExistingArchivesKept | src/mangadlmao/apis/mangaplus.py:256-258 | an archive that was already there is left exactly as it was |
| MangaPlusManga.SavedChaptersPresent | src/mangadlmao/apis/mangaplus.py:256-265 | every chapter whose download saved has its archive afterwards |
| MangaPlusManga.NewArchivesComeFromSavedChapters | src/mangadlmao/apis/mangaplus.py:259-265 | every new archive belongs to a chapter whose download saved, and holds that chapter's manifest |
| SeriesLoop.SinceTime | src/mangadlmao/apis/weebcentral.py:76-84 | "auto" is the newest file time or none, a date is midnight UTC, a time is itself, and none is none |
| SeriesLoop.MidnightOfEpoch | src/mangadlmao/apis/weebcentral.py:80 | midnight UTC of 1 January 1970 is time 0 |
| SeriesLoop.MidnightBeforeEpoch | src/mangadlmao/apis/weebcentral.py:80 | midnight UTC of 31 December 1969 is one day before the epoch |
| SeriesLoop.MarchYear | src/mangadlmao/apis/weebcentral.py:80 | a year counted from 1 March has 366 days iff the February in it is in a Gregorian leap year |
| SeriesLoop.NextDayNumber | src/mangadlmao/apis/weebcentral.py:80 | consecutive calendar days, across month ends, year ends and leap days, have consecutive day numbers |
| SeriesLoop.NextMidnight | src/mangadlmao/apis/weebcentral.py:80 | midnight UTC of the next calendar day is exactly 86400 seconds later |
| SeriesLoop.Visits | src/mangadlmao/apis/weebcentral.py:96-97 | the `k`-th entry visited is the `k`-th from the end of the list |
| SeriesLoop.DownloadSeries | src/mangadlmao/apis/weebcentral.py:88-153 | the reversed loop's directory, progress updates and outcome are `SyncUpTo` over all entries |
| SeriesLoop.VisitEntry | src/mangadlmao/apis/weebcentral.py:96-151 | one pass: a progress update, then a filtered entry or an archive at least as new is skipped; a save stamps the entry's time; a failure stops the series |
| SeriesLoop.OneUpdatePerEntry | src/mangadlmao/apis/weebcentral.py:88-97 | after the length, one progress update per entry reached, in visiting order and naming its chapter; every entry is reached unless a download fails |
| SeriesLoop.StopsOnlyOnFailedDownload | src/mangadlmao/apis/weebcentral.py:140-151 | the loop ends early only at an entry whose download failed |
| SeriesLoop.StopIsFinal | src/mangadlmao/apis/weebcentral.py:151 | after a failure, later entries change nothing |
| SeriesLoop.ArchivesComeFromSavedEntries | src/mangadlmao/apis/weebcentral.py:137-151 | no archive is removed, and every changed archive was saved by a reached entry whose download succeeded, with that entry's manifest and time |
| SeriesLoop.UpToDateArchiveKept | src/mangadlmao/apis/weebcentral.py:137-139 | an archive at least as new as every entry naming it is left as it is |
| WeebCentral.ChapterNum | src/mangadlmao/apis/weebcentral.py:162-165 | the number is `""` iff the title has no digit; otherwise it is a prefix of the title from its first digit |
| WeebCentral.NumberAfterWord | src/mangadlmao/apis/weebcentral.py:162-163 | after a digit-free word, the number is the digit run that follows |
| WeebCentral.FoundNumberParses | src/mangadlmao/apis/weebcentral.py:99-109 | a found number always parses, so `from_chapter` passes over only the empty number |
| WeebCentral.GetChapters | src/mangadlmao/apis/weebcentral.py:155-174 | one chapter per listed entry, in page order, numbered from its title |
| WeebCentral.VisitOf | src/mangadlmao/apis/weebcentral.py:99-135 | a chapter is a candidate iff `from_chapter` does not skip it and it is newer than `since`; the candidate carries the chapter's time and archive name |
| WeebCentral.DownloadManga | src/mangadlmao/apis/weebcentral.py:61-153 | the directory, progress updates and outcome are the shared loop over the chapters in reverse |
| WeebCentralPages.UrlExtension | src/mangadlmao/apis/weebcentral.py:206 | the extension is the text after the URL's last `.`, or None where there is no `.` |
| WeebCentralPages.Guessed | src/mangadlmao/apis/weebcentral.py:210-214 | only the first chunk's guess counts, and only when it is non-empty |
| WeebCentralPages.DownloadPage | src/mangadlmao/apis/weebcentral.py:204-216 | when the request raises, or the URL has no `.`, nothing is written and the call raises; otherwise the chunks that arrive are written under the bare number; a broken stream raises and leaves the partial data there; a complete file is renamed with the extension, raising and keeping the bare name when `with_suffix` refuses it |
| WeebCentralPages.NamesDistinct | src/mangadlmao/apis/weebcentral.py:192-208 | two pages never share a name, and no page's rename removes another page's file |
| WeebCentralPages.DownloadChapter | src/mangadlmao/apis/weebcentral.py:185-200 | every page whose request gave a response and whose URL has a `.` ends up under its own name with the data that arrived: renamed when complete and accepted, under its bare number when the stream broke or the rename was refused; nothing else is in the directory |
| WeebCentralPages.BrokenStreamKeepsBareNumber | src/mangadlmao/apis/weebcentral.py:208-216 | a page whose stream broke stays under its bare 3-digit number |
| WeebCentralPages.OnlyFirstChunkGuessed | src/mangadlmao/apis/weebcentral.py:210-214 | later chunks never change the extension |
| WeebCentralPages.ExtensionFromHostIsInvalid | src/mangadlmao/apis/weebcentral.py:206-216 | with no guess, a URL whose last `.` is in the host name gives a suffix with a `/`, and the page keeps its bare number |
| MangaSee.GuidNumber | src/mangadlmao/apis/mangasee.py:76 | the number is a prefix of the guid or the text after one of its `-`, and holds no `-`; a guid without `-` is its own number |
| MangaSee.GuidNumberOf | src/mangadlmao/apis/mangasee.py:76 | the number is the guid's last `-`-separated piece |
| MangaSee.VisitOf | src/mangadlmao/apis/mangasee.py:81-114 | an entry is a candidate iff `from_chapter` does not skip it and it is newer than `since`; the candidate carries the entry's time and archive name |
| MangaSee.DownloadManga | src/mangadlmao/apis/mangasee.py:51-132 | the directory, progress updates and outcome are the shared loop over the entries in reverse |
| MangaSee.ChapterDigits | src/mangadlmao/apis/mangasee.py:154-158 | the first character goes; a final `0` is dropped, and any other final character becomes a tenths digit after a `.`; a code of one character raises IndexError |
| MangaSee.ChapterDigitsExamples | src/mangadlmao/apis/mangasee.py:151-158 | `"100010"` gives `"0001"` and `"100165"` gives `"0016.5"` |
| MangaSee.TenthsEncoding | src/mangadlmao/apis/mangasee.py:151-158 | for an all-digit code, the converted number reads as the digits after the first, in tenths |
| MangaSee.DownloadChapter | src/mangadlmao/apis/mangasee.py:134-176 | CurChapter, CurPathName and IndexName are checked in that order; then the `Chapter` key and its conversion, then the `Page` key and `int()`; pages 1 to Page are requested at `https://{domain}/manga/{index}/{number}-{page:03d}.png` and saved as `{page:03d}.png` |
| Common.ParseNumber | src/mangadlmao/apis/weebcentral.py:100 | `float()` of an all-digit string is its value, and None for the empty string |
| Common.IntToString | src/mangadlmao/apis/mangaplus.py:241 | `str()` of an integer, with a `-` for negatives |

## Left out

- HTTP, HTML, RSS and JSON handling:
  - requests and their sessions and headers;
  - BeautifulSoup, feedparser and `json.loads`.
  Responses are inputs. MangaSee's regex scraping of the chapter page becomes three optional script values.
- Threads, `as_completed` and `wait`: page tasks run one after the other in submission order. The failed list is taken in that order (one of the orders `as_completed` allows), and the proof states it as a permutation.
- `time.sleep` and `time.monotonic`: clocks are integer parameters, and the requests' durations are inputs.
- The one-second sleep after each WeebCentral chapter is not modelled.
- Floating point:
  - chapter numbers are exact hundredths;
  - `:g` rendering and `format_chapter_number` are given functions;
  - the float rounding of sums such as `2.0 + 0.1` is not modelled.
- Python `float()` and `int()` extras are not modelled: signs on floats, exponents, underscores, whitespace, `inf`/`nan` and non-ASCII digits.
- Unicode: `casefold`, `lower`, `upper`, `\d` and `re.IGNORECASE` are modelled on ASCII only.
- `urlparse` is modelled for the URLs the code meets, not every edge case of the standard library.
- Paths and `with_suffix`:
  - `with_suffix` follows the POSIX rule: a suffix that is only `.` or holds a `/` is refused.
  - Version differences between Python releases are not modelled.
  - Path joins are plain names in one directory map.
- Zip and file-system effects:
  - zip container bytes, `tempfile`, `os.utime` on the directory, and `mkdir`;
  - the legacy `create_cbz` of src/mangadl/cbz.py, which appends to an existing zip;
  - `shutil.move` is taken as always succeeding.
- Time conversions:
  - MangaDex's `astimezone()` of a plain date is given as a timestamp;
  - MangaSee's `mktime` of `updated_parsed` is the entry's `updated` time;
  - fractional seconds are not modelled;
  - comparing aware with naive datetimes, which can raise TypeError, is not modelled.
- Helpers whose code is not part of this model: `most_recent_modified` (an Option input), `download_cover`, `ProgressCallback`, `format_chapter_number`.
- Other code not modelled:
  - `get_manga_details` beyond the title override;
  - the MangaDex@Home report POST;
  - the command-line program.
- `filetype.guess_extension` is an oracle.
- `xor_cipher.cyclic_xor` is modelled by `decrypt`'s pure-Python fallback (src/mangadlmao/apis/mangaplus.py:171-173). The library's own behaviour on an empty key is not modelled.
- MangaPlus `download_chapter` (its thread pool over `download_page`) is modelled as the oracle `download(k)` of `MangaPlusManga.DownloadManga`. `download_page` itself is modelled.
- MangaPlusApi.SubtitleDecimal: states only that the match comes from a digit of the subtitle. Where the match ends is fixed by `DecimalAt`'s definition and by `SubtitleAfterWord`.
- WeebCentral.ChapterNum: states that the number is a prefix of the title from the first digit. That it is the maximal `\d+\.?\d*` run is in the definition, and `NumberAfterWord` and `FoundNumberParses` prove it for their cases.
- Common.ParseNumber: its contract covers only all-digit input. Dotted forms are covered by `Common.DottedParses` and `MangaSee.TenthsEncoding`.
- MangaDexLimiter.RateLimiter.Request: stamps `global` and the at-home route with one instant. The source reads `time.monotonic()` twice, so its route stamp can be slightly later. The proved lower bounds on the next request's time hold either way.
- MangaDexChapter.FetchRound: the temporary directory is a set of file names. Whether a file is whole or truncated is not modelled, only which names exist.
- MangaSee.DownloadChapter: gives each page's URL and file name. The page downloads themselves are not modelled. Like WeebCentral's, they leave a truncated `NNN.png` when a stream breaks.
