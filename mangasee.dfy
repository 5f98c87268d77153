/**
 * src/mangadlmao/apis/mangasee.py: the chapter number taken from an RSS
 * entry's guid, the reversed download loop, and the chapter page's
 * `CurChapter` encoding and page URLs.
 */
module MangaSee {
  import opened Common
  import Sanitize
  import Cbz
  import SeriesLoop

  /** An RSS entry: `updated` and `published` in seconds, `updated` as the source converts it. */
  datatype Entry = Entry(guid: string, title: string, link: string, updated: int, published: int)

  /** `guid.split("-")[-1]`: the text after the guid's last `-`. */
  function GuidNumber(guid: string): (r: string)
    ensures r <= guid || (exists k :: 0 <= k < |guid| && guid[k] == '-' && r == guid[k + 1..])
    ensures forall i :: 0 <= i < |r| ==> r[i] != '-'
    ensures (forall i :: 0 <= i < |guid| ==> guid[i] != '-') ==> r == guid
  {
    AfterLast(guid, '-')
  }

  /** Whatever precedes it, the number is the guid's last `-`-separated piece. */
  lemma GuidNumberOf(prefix: string, number: string)
    requires forall i :: 0 <= i < |number| ==> number[i] != '-'
    ensures GuidNumber(prefix + "-" + number) == number
  {
    var g := prefix + "-" + number;
    assert g[|prefix|] == '-';
    LastIndexAt(g, '-', |prefix|);
    assert g[|prefix| + 1..] == number;
  }

  /** The archive name: formatted number and publication time. */
  function ArchiveName(env: Env, number: string, e: Entry): string
  {
    Sanitize.SanitizePath(env.formatNumber(number) + " - MangaSee " + env.stamp(e.published) + ".cbz")
  }

  function ComicInfoEntries(env: Env, series: string, number: string, e: Entry): seq<(string, Cbz.Value)>
  {
    var day := env.civil(e.updated);
    [("Title", Cbz.Text(e.title)), ("Number", Cbz.Text(number)), ("Translator", Cbz.Text("MangaSee")),
     ("Series", Cbz.Text(series)), ("LanguageISO", Cbz.Text("en")), ("Year", Cbz.Int(day.year)),
     ("Month", Cbz.Int(day.month)), ("Day", Cbz.Int(day.day))]
  }

  /** The filters for one entry: `from_chapter`, then the exclusive `since`. */
  function VisitOf(env: Env, series: string, since: Option<int>, fromChapter: Option<int>, e: Entry)
    : (v: SeriesLoop.Visit)
    ensures v.number == GuidNumber(e.guid)
    ensures v.plan.Candidate? <==>
      !SeriesLoop.SkippedByFrom(fromChapter, GuidNumber(e.guid)) && !SeriesLoop.SkippedBySince(since, e.updated)
    ensures v.plan.Candidate? ==> v.plan.updated == e.updated && v.plan.filename == ArchiveName(env, GuidNumber(e.guid), e)
  {
    var number := GuidNumber(e.guid);
    if SeriesLoop.SkippedByFrom(fromChapter, number) || SeriesLoop.SkippedBySince(since, e.updated)
    then SeriesLoop.Visit(number, SeriesLoop.Skip)
    else SeriesLoop.Visit(number, SeriesLoop.Candidate(ArchiveName(env, number, e), ComicInfoEntries(env, series, number, e), e.updated))
  }

  /** The filters of one entry as a function, for the shared loop. */
  function Visitor(env: Env, series: string, since: Option<int>, fromChapter: Option<int>): Entry -> SeriesLoop.Visit
  {
    e => VisitOf(env, series, since, fromChapter, e)
  }

  /**
   * `download_manga` after the feed has loaded: the download of the `k`-th
   * entry visited is `download(k)`; the result is the shared loop over the
   * entries in reverse.
   */
  method DownloadManga(entries: seq<Entry>, mangaTitle: string, feedTitle: string, since: SeriesLoop.Since,
                       mostRecent: Option<int>, fromChapter: Option<int>, dir: map<string, Cbz.CbzFile>,
                       download: nat -> SeriesLoop.DownloadResult, env: Env)
    returns (dir': map<string, Cbz.CbzFile>, events: seq<SeriesLoop.Progress>, outcome: SeriesLoop.Outcome)
    ensures var series := if mangaTitle != "" then mangaTitle else feedTitle;
      var visits := SeriesLoop.Visits(entries, Visitor(env, series, SeriesLoop.SinceTime(since, mostRecent), fromChapter));
      var st := SeriesLoop.SyncUpTo(visits, dir, download, |entries|);
      dir' == st.dir && events == st.events && outcome == st.outcome
  {
    var series := if mangaTitle != "" then mangaTitle else feedTitle;
    var sinceTime := SeriesLoop.SinceTime(since, mostRecent);
    dir', events, outcome := SeriesLoop.DownloadSeries(entries, Visitor(env, series, sinceTime, fromChapter), dir, download);
  }

  /**
   * `CurChapter["Chapter"]` to a chapter number: the first character goes,
   * and the last one becomes a tenths digit after a `.` unless it is `0`,
   * in which case it is dropped. None where nothing is left after the first
   * character and `number[-1]` raises IndexError.
   */
  function ChapterDigits(chapter: string): (r: Option<string>)
    ensures r.None? <==> |chapter| <= 1
    ensures r.Some? && chapter[|chapter| - 1] == '0' ==> r.value == chapter[1..|chapter| - 1]
    ensures r.Some? && chapter[|chapter| - 1] != '0' ==> r.value == chapter[1..|chapter| - 1] + "." + [chapter[|chapter| - 1]]
  {
    var number := if chapter == [] then [] else chapter[1..];
    if number == [] then None
    else if number[|number| - 1] != '0' then Some(number[..|number| - 1] + "." + [number[|number| - 1]])
    else Some(number[..|number| - 1])
  }

  lemma ChapterDigitsExamples()
    ensures ChapterDigits("100010") == Some("0001")
    ensures ChapterDigits("100165") == Some("0016.5")
  {
    assert "100010"[1..] == "00010" && "00010"[..4] == "0001";
    assert "100165"[1..] == "00165" && "00165"[..4] == "0016" && "00165"[4] == '5';
    assert "0016" + "." + ['5'] == "0016.5";
  }

  /** The last digit of the code is tenths: the number reads as the digits after the first, divided by ten. */
  lemma TenthsEncoding(chapter: string)
    requires |chapter| >= 3 && AllDigits(chapter)
    ensures ChapterDigits(chapter).Some? && ParseNumber(ChapterDigits(chapter).value) == Some(DigitsValue(chapter[1..]) * 10)
  {
    var t := chapter[1..];
    var w, c := t[..|t| - 1], t[|t| - 1];
    assert AllDigits(t) && AllDigits(w);
    assert DigitsValue(t) == DigitsValue(w) * 10 + DigitValue(c);
    assert chapter[1..|chapter| - 1] == w;
    if c != '0' {
      DottedParses(w, [c]);
    }
  }

  /** What the chapter page's scripts hold, each None where its pattern does not match. */
  datatype ChapterPage = ChapterPage(curChapter: Option<map<string, string>>, curPathName: Option<string>, indexName: Option<string>)

  /** The result of `download_chapter` up to the page downloads: the exception raised, or the pages requested. */
  datatype ChapterFetch =
    | ParseError(what: string)
    | KeyError(key: string)
    | IndexError
    | ValueError
    | Pages(urls: seq<string>, files: seq<string>)

  /** The URL of page `p`. */
  function PageUrl(domain: string, index: string, number: string, p: nat): string
  {
    "https://" + domain + "/manga/" + index + "/" + number + "-" + Padded(p, 3) + ".png"
  }

  /** The file page `p` is saved as. */
  function PageFile(p: nat): string
  {
    Padded(p, 3) + ".png"
  }

  /**
   * `download_chapter` up to the page downloads: the three script values in
   * order, then the chapter code, then the page count; pages 1 to the count
   * are requested.
   */
  method DownloadChapter(page: ChapterPage, env: Env) returns (r: ChapterFetch)
    ensures page.curChapter.None? ==> r == ParseError("CurChapter not found")
    ensures page.curChapter.Some? && page.curPathName.None? ==> r == ParseError("CurPathName not found")
    ensures page.curChapter.Some? && page.curPathName.Some? && page.indexName.None? ==> r == ParseError("IndexName not found")
    ensures page.curChapter.Some? && page.curPathName.Some? && page.indexName.Some? ==>
      var cur := page.curChapter.value;
      && ("Chapter" !in cur ==> r == KeyError("Chapter"))
      && ("Chapter" in cur && ChapterDigits(cur["Chapter"]).None? ==> r == IndexError)
      && ("Chapter" in cur && ChapterDigits(cur["Chapter"]).Some? && "Page" !in cur ==> r == KeyError("Page"))
      && ("Chapter" in cur && ChapterDigits(cur["Chapter"]).Some? && "Page" in cur && ParseInt(cur["Page"]).None? ==>
            r == ValueError)
    ensures r.Pages? <==>
      && page.curChapter.Some? && page.curPathName.Some? && page.indexName.Some?
      && "Chapter" in page.curChapter.value && ChapterDigits(page.curChapter.value["Chapter"]).Some?
      && "Page" in page.curChapter.value && ParseInt(page.curChapter.value["Page"]).Some?
    ensures r.Pages? ==>
      var count := ParseInt(page.curChapter.value["Page"]).value;
      var number := env.formatNumber4(ChapterDigits(page.curChapter.value["Chapter"]).value);
      && |r.urls| == |r.files| == Max(0, count)
      && forall k :: 0 <= k < |r.urls| ==>
           r.urls[k] == PageUrl(page.curPathName.value, page.indexName.value, number, k + 1) && r.files[k] == PageFile(k + 1)
  {
    if page.curChapter.None? {
      return ParseError("CurChapter not found");
    }
    if page.curPathName.None? {
      return ParseError("CurPathName not found");
    }
    if page.indexName.None? {
      return ParseError("IndexName not found");
    }
    var cur, domain, index := page.curChapter.value, page.curPathName.value, page.indexName.value;
    if "Chapter" !in cur {
      return KeyError("Chapter");
    }
    var digits := ChapterDigits(cur["Chapter"]);
    if digits.None? {
      return IndexError;
    }
    var number := env.formatNumber4(digits.value);
    if "Page" !in cur {
      return KeyError("Page");
    }
    var count := ParseInt(cur["Page"]);
    if count.None? {
      return ValueError;
    }
    var urls, files := [], [];
    var p := 1;
    while p <= count.value
      invariant 1 <= p <= Max(1, count.value + 1)
      invariant |urls| == |files| == p - 1
      invariant forall k :: 0 <= k < p - 1 ==> urls[k] == PageUrl(domain, index, number, k + 1) && files[k] == PageFile(k + 1)
    {
      urls, files := urls + [PageUrl(domain, index, number, p)], files + [PageFile(p)];
      p := p + 1;
    }
    return Pages(urls, files);
  }
}
