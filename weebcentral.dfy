/**
 * src/mangadlmao/apis/weebcentral.py: the chapter number taken from a
 * chapter's title, the chapter listing, the reversed download loop and the
 * page download that picks a file extension.
 */
module WeebCentral {
  import opened Common
  import Sanitize
  import Cbz
  import SeriesLoop

  /** A chapter of the full chapter list; `dt` is its time in seconds. */
  datatype Chapter = Chapter(id: string, url: string, title: string, num: string, dt: int)

  /** What one entry of the chapter list page holds. */
  datatype Listing = Listing(id: string, url: string, title: string, dt: int)

  /** Length of the run of digits starting at `i`. */
  function DigitRun(s: string, i: nat): (n: nat)
    requires i <= |s|
    ensures i + n <= |s|
    ensures forall k :: i <= k < i + n ==> IsDigit(s[k])
    ensures i + n == |s| || !IsDigit(s[i + n])
    decreases |s| - i
  {
    if i < |s| && IsDigit(s[i]) then 1 + DigitRun(s, i + 1) else 0
  }

  /** Index of the first digit of `s`, if any. */
  function FirstDigit(s: string): (r: Option<nat>)
    ensures r.None? ==> forall k :: 0 <= k < |s| ==> !IsDigit(s[k])
    ensures r.Some? ==> r.value < |s| && IsDigit(s[r.value]) && forall k :: 0 <= k < r.value ==> !IsDigit(s[k])
  {
    if s == [] then None
    else if IsDigit(s[0]) then Some(0)
    else match FirstDigit(s[1..])
      case None => None
      case Some(k) => Some(k + 1)
  }

  /**
   * The first match of `(\d+\.?\d*)` in the title, or "" when there is
   * none: the leftmost run of digits, then a `.` and the digits after it
   * when the run is followed by a `.`.
   */
  function ChapterNum(title: string): (r: string)
    ensures r == "" <==> forall k :: 0 <= k < |title| ==> !IsDigit(title[k])
    ensures r != "" ==> FirstDigit(title).Some? && r <= title[FirstDigit(title).value..]
  {
    match FirstDigit(title)
    case None => ""
    case Some(i) =>
      var j := i + DigitRun(title, i);
      if j < |title| && title[j] == '.' then title[i..j + 1 + DigitRun(title, j + 1)] else title[i..j]
  }

  /** A number found in a title always reads as a number, so `from_chapter` can only pass over an empty one. */
  lemma FoundNumberParses(title: string)
    requires ChapterNum(title) != ""
    ensures ParseNumber(ChapterNum(title)).Some?
  {
    var i := FirstDigit(title).value;
    var j := i + DigitRun(title, i);
    var whole := title[i..j];
    assert AllDigits(whole);
    if j < |title| && title[j] == '.' {
      var e := j + 1 + DigitRun(title, j + 1);
      var frac := title[j + 1..e];
      assert AllDigits(frac);
      assert ChapterNum(title) == title[i..e] == whole + "." + frac;
      DottedParses(whole, frac);
    } else {
      assert ChapterNum(title) == whole;
    }
  }

  /** A run of exactly `n` digits at `i`. */
  lemma {:induction false} DigitRunExact(s: string, i: nat, n: nat)
    requires i + n <= |s|
    requires forall k :: i <= k < i + n ==> IsDigit(s[k])
    requires i + n == |s| || !IsDigit(s[i + n])
    ensures DigitRun(s, i) == n
    decreases n
  {
    if n > 0 {
      DigitRunExact(s, i + 1, n - 1);
    }
  }

  /** The number after a digit-free word, when nothing numeric follows it. */
  lemma {:induction false} NumberAfterWord(word: string, n: nat, rest: string)
    requires forall k :: 0 <= k < |word| ==> !IsDigit(word[k])
    requires rest == [] || (!IsDigit(rest[0]) && rest[0] != '.')
    ensures ChapterNum(word + NatToString(n) + rest) == NatToString(n)
  {
    var d := NatToString(n);
    var s := word + d + rest;
    var i := FirstDigit(s);
    assert s[|word|] == d[0];
    assert forall k :: 0 <= k < |word| ==> s[k] == word[k];
    assert i == Some(|word|);
    assert forall k :: |word| <= k < |word| + |d| ==> s[k] == d[k - |word|];
    DigitRunExact(s, |word|, |d|);
    assert s[|word|..|word| + |d|] == d;
  }

  /** One chapter per list entry, numbered from its title. */
  function ChapterOf(l: Listing): (c: Chapter)
    ensures c.num == ChapterNum(l.title) && c.title == l.title && c.dt == l.dt
  {
    Chapter(l.id, l.url, l.title, ChapterNum(l.title), l.dt)
  }

  /** `get_chapters`: the listed chapters in page order. */
  method GetChapters(listing: seq<Listing>) returns (chapters: seq<Chapter>)
    ensures |chapters| == |listing|
    ensures forall i :: 0 <= i < |listing| ==> chapters[i] == ChapterOf(listing[i])
  {
    chapters := [];
    for i := 0 to |listing|
      invariant |chapters| == i
      invariant forall k :: 0 <= k < i ==> chapters[k] == ChapterOf(listing[k])
    {
      chapters := chapters + [ChapterOf(listing[i])];
    }
  }

  /** The archive name: formatted number and upload time. */
  function ArchiveName(env: Env, c: Chapter): string
  {
    Sanitize.SanitizePath(env.formatNumber(c.num) + " - WeebCentral " + env.stamp(c.dt) + ".cbz")
  }

  function ComicInfoEntries(env: Env, series: string, c: Chapter): seq<(string, Cbz.Value)>
  {
    var day := env.civil(c.dt);
    [("Title", Cbz.Text(c.title)), ("Number", Cbz.Text(c.num)), ("Translator", Cbz.Text("WeebCentral")),
     ("Series", Cbz.Text(series)), ("LanguageISO", Cbz.Text("en")), ("Year", Cbz.Int(day.year)),
     ("Month", Cbz.Int(day.month)), ("Day", Cbz.Int(day.day))]
  }

  /** The filters for one chapter: `from_chapter`, then the exclusive `since`. */
  function VisitOf(env: Env, series: string, since: Option<int>, fromChapter: Option<int>, c: Chapter)
    : (v: SeriesLoop.Visit)
    ensures v.number == c.num
    ensures v.plan.Candidate? <==> !SeriesLoop.SkippedByFrom(fromChapter, c.num) && !SeriesLoop.SkippedBySince(since, c.dt)
    ensures v.plan.Candidate? ==> v.plan.updated == c.dt && v.plan.filename == ArchiveName(env, c)
  {
    if SeriesLoop.SkippedByFrom(fromChapter, c.num) || SeriesLoop.SkippedBySince(since, c.dt)
    then SeriesLoop.Visit(c.num, SeriesLoop.Skip)
    else SeriesLoop.Visit(c.num, SeriesLoop.Candidate(ArchiveName(env, c), ComicInfoEntries(env, series, c), c.dt))
  }

  /** The filters of one chapter as a function, for the shared loop. */
  function Visitor(env: Env, series: string, since: Option<int>, fromChapter: Option<int>): Chapter -> SeriesLoop.Visit
  {
    e => VisitOf(env, series, since, fromChapter, e)
  }

  /** The series title: the given one, or the page's heading when none is given. */
  function SeriesTitle(mangaTitle: string, heading: string): (t: string)
    ensures t == (if mangaTitle != "" then mangaTitle else heading)
  {
    if mangaTitle != "" then mangaTitle else heading
  }

  /**
   * `download_manga` after the series page has loaded: the download of the
   * `k`-th chapter visited is `download(k)`; the result is the shared loop
   * over the chapters in reverse.
   */
  method DownloadManga(chapters: seq<Chapter>, mangaTitle: string, heading: string, since: SeriesLoop.Since,
                       mostRecent: Option<int>, fromChapter: Option<int>, dir: map<string, Cbz.CbzFile>,
                       download: nat -> SeriesLoop.DownloadResult, env: Env)
    returns (dir': map<string, Cbz.CbzFile>, events: seq<SeriesLoop.Progress>, outcome: SeriesLoop.Outcome)
    ensures var visits := SeriesLoop.Visits(chapters, Visitor(env, SeriesTitle(mangaTitle, heading), SeriesLoop.SinceTime(since, mostRecent), fromChapter));
      var st := SeriesLoop.SyncUpTo(visits, dir, download, |chapters|);
      dir' == st.dir && events == st.events && outcome == st.outcome
  {
    var series := SeriesTitle(mangaTitle, heading);
    var sinceTime := SeriesLoop.SinceTime(since, mostRecent);
    dir', events, outcome := SeriesLoop.DownloadSeries(chapters, Visitor(env, series, sinceTime, fromChapter), dir, download);
  }
}

/**
 * The page download of src/mangadlmao/apis/weebcentral.py: the page is
 * streamed in chunks into a file named by its 3-digit number, and the file
 * is then renamed to carry an extension. The extension is the text after
 * the URL's last `.`, unless the type guessed from the first chunk
 * overrides it.
 */
module WeebCentralPages {
  import opened Common

  /** Every chunk of the response, in order. */
  function Concat(chunks: seq<seq<bv8>>): (r: seq<bv8>)
  {
    if chunks == [] then [] else Concat(chunks[..|chunks| - 1]) + chunks[|chunks| - 1]
  }

  /** `page_url.rsplit(".", maxsplit=1)[1]`; None where the URL has no `.` and indexing raises IndexError. */
  function UrlExtension(url: string): (r: Option<string>)
    ensures r.None? <==> forall k :: 0 <= k < |url| ==> url[k] != '.'
    ensures r.Some? ==> |r.value| < |url| && r.value == url[|url| - |r.value|..] && url[|url| - |r.value| - 1] == '.'
    ensures r.Some? ==> forall k :: 0 <= k < |r.value| ==> r.value[k] != '.'
  {
    match LastIndexOf(url, '.')
    case None => None
    case Some(k) => Some(url[k + 1..])
  }

  /** The type guessed from the first chunk, when there is a first chunk and the guess is a non-empty extension. */
  function Guessed(chunks: seq<seq<bv8>>, guess: seq<bv8> -> Option<string>): (r: Option<string>)
    ensures r.Some? ==> chunks != [] && r == guess(chunks[0]) && r.value != ""
    ensures r.None? ==> chunks == [] || guess(chunks[0]).None? || guess(chunks[0]).value == ""
  {
    if chunks != [] && guess(chunks[0]).Some? && guess(chunks[0]).value != "" then guess(chunks[0]) else None
  }

  /** `Path.with_suffix("." + ext)` on a POSIX path: a suffix that is only `.` or holds a `/` raises ValueError. */
  predicate ValidSuffix(ext: string)
  {
    ext != "" && forall k :: 0 <= k < |ext| ==> ext[k] != '/'
  }

  /** The extension the file ends up with, when the URL has a `.`. */
  function Extension(urlExt: string, chunks: seq<seq<bv8>>, guess: seq<bv8> -> Option<string>): string
  {
    match Guessed(chunks, guess)
    case Some(g) => g
    case None => urlExt
  }

  /**
   * What the request for a page gave: `requests.get` raised before any file
   * was opened, or a response whose chunks arrived; `complete` is false when
   * `iter_content` raised after the chunks listed, so the file was never renamed.
   */
  datatype Response = GetRaised | Streamed(chunks: seq<seq<bv8>>, complete: bool)

  /** What the rename adds to the 3-digit number: `.` and the extension, or nothing when the rename is not reached or refused. */
  function RenameTail(urlExt: string, response: Response, guess: seq<bv8> -> Option<string>): (t: string)
    requires response.Streamed?
    ensures t == [] || (t[0] == '.' && |t| >= 2)
  {
    var ext := Extension(urlExt, response.chunks, guess);
    if response.complete && ValidSuffix(ext) then "." + ext else ""
  }

  /** The name a page's data ends up under. */
  function LandingName(pageNumber: nat, urlExt: string, response: Response, guess: seq<bv8> -> Option<string>): string
    requires response.Streamed?
  {
    Padded(pageNumber, 3) + RenameTail(urlExt, response, guess)
  }

  /**
   * `download`: the result is the temporary directory afterwards and
   * whether the call raised. When the request raises or the URL has no `.`,
   * nothing is written. Otherwise the chunks that arrive are written under
   * the bare page number; when the stream breaks the call raises and the
   * partial data stays there. A complete file is renamed to carry the
   * extension; when `with_suffix` refuses it, the call raises and the data
   * stays under the bare number.
   */
  method DownloadPage(url: string, pageNumber: nat, response: Response, guess: seq<bv8> -> Option<string>,
                      dir: map<string, seq<bv8>>)
    returns (dir': map<string, seq<bv8>>, raised: bool)
    ensures response.GetRaised? || UrlExtension(url).None? ==> raised && dir' == dir
    ensures response.Streamed? && UrlExtension(url).Some? ==>
      && raised == (!response.complete || !ValidSuffix(Extension(UrlExtension(url).value, response.chunks, guess)))
      && dir' == (dir - {Padded(pageNumber, 3)})[LandingName(pageNumber, UrlExtension(url).value, response, guess)
                                                   := Concat(response.chunks)]
  {
    if response.GetRaised? {
      return dir, true;
    }
    var dot := LastIndexOf(url, '.');
    if dot.None? {
      return dir, true;
    }
    var chunks := response.chunks;
    var ext := url[dot.value + 1..];
    var guessed := false;
    var stem := Padded(pageNumber, 3);
    var content: seq<bv8> := [];
    for i := 0 to |chunks|
      invariant guessed <==> i > 0
      invariant ext == if i > 0 then Extension(url[dot.value + 1..], chunks, guess) else url[dot.value + 1..]
      invariant content == Concat(chunks[..i])
    {
      if !guessed {
        guessed := true;
        var g := guess(chunks[i]);
        if g.Some? && g.value != "" {
          ext := g.value;
        }
      }
      assert chunks[..i + 1][..i] == chunks[..i];
      content := content + chunks[i];
    }
    assert chunks[..|chunks|] == chunks;
    if chunks == [] {
      assert Extension(ext, chunks, guess) == ext;
    }
    if !response.complete || !ValidSuffix(ext) {
      assert stem + "" == stem;
      assert (dir - {stem})[stem := content] == dir[stem := content];
      return dir[stem := content], true;
    }
    assert RenameTail(url[dot.value + 1..], response, guess) == "." + ext;
    Concat3(stem, ".", ext);
    dir' := (dir - {stem})[stem + "." + ext := content];
    raised := false;
  }

  /** What one page of a chapter holds: its image URL and what its request gave. */
  datatype PageData = PageData(url: string, response: Response)

  /** A page leaves a file: its request gave a response and its URL has a `.`. */
  predicate Lands(p: PageData)
  {
    p.response.Streamed? && UrlExtension(p.url).Some?
  }

  /** The name page `i` (0-based, numbered `i + 1`) ends up under. */
  function NameOfPage(pages: seq<PageData>, i: nat, guess: seq<bv8> -> Option<string>): string
    requires i < |pages| && Lands(pages[i])
  {
    LandingName(i + 1, UrlExtension(pages[i].url).value, pages[i].response, guess)
  }

  /** Two names made of distinct digit stems, each followed by nothing or by a `.`-led tail, differ. */
  lemma DistinctStems(a: string, ta: string, b: string, tb: string)
    requires AllDigits(a) && AllDigits(b) && a != b
    requires ta == [] || ta[0] == '.'
    requires tb == [] || tb[0] == '.'
    ensures a + ta != b + tb
  {
    var s, t := a + ta, b + tb;
    if |a| == |b| {
      assert s[..|a|] == a && t[..|b|] == b;
    } else if |a| < |b| {
      if |s| > |a| {
        assert s[|a|] == '.' && t[|a|] == b[|a|];
      }
    } else if |t| > |b| {
      assert t[|b|] == '.' && s[|b|] == a[|b|];
    }
  }

  /** Two pages never share a name, and no page's rename removes another page's file. */
  lemma NamesDistinct(pages: seq<PageData>, i: nat, j: nat, guess: seq<bv8> -> Option<string>)
    requires i < |pages| && j < |pages| && i != j && Lands(pages[i])
    ensures NameOfPage(pages, i, guess) != Padded(j + 1, 3)
    ensures Lands(pages[j]) ==> NameOfPage(pages, i, guess) != NameOfPage(pages, j, guess)
  {
    var a, b := Padded(i + 1, 3), Padded(j + 1, 3);
    var ta := RenameTail(UrlExtension(pages[i].url).value, pages[i].response, guess);
    assert DigitsValue(a) != DigitsValue(b);
    DistinctStems(a, ta, b, "");
    assert b + "" == b;
    if Lands(pages[j]) {
      DistinctStems(a, ta, b, RenameTail(UrlExtension(pages[j].url).value, pages[j].response, guess));
    }
  }

  /** The directory holds each of the first `n` pages that land under its name, with the data that arrived. */
  predicate StoresPages(pages: seq<PageData>, guess: seq<bv8> -> Option<string>, dir: map<string, seq<bv8>>, n: nat)
    requires n <= |pages|
  {
    forall i :: 0 <= i < n && Lands(pages[i]) ==>
      NameOfPage(pages, i, guess) in dir && dir[NameOfPage(pages, i, guess)] == Concat(pages[i].response.chunks)
  }

  /** Every name in the directory is the name of one of the first `n` pages. */
  predicate OnlyPages(pages: seq<PageData>, guess: seq<bv8> -> Option<string>, dir: map<string, seq<bv8>>, n: nat)
    requires n <= |pages|
  {
    forall f :: f in dir ==> exists i :: 0 <= i < n && Lands(pages[i]) && f == NameOfPage(pages, i, guess)
  }

  /** The directory holds the first `n` pages under their names, and nothing else. */
  predicate HoldsPages(pages: seq<PageData>, guess: seq<bv8> -> Option<string>, dir: map<string, seq<bv8>>, n: nat)
    requires n <= |pages|
  {
    StoresPages(pages, guess, dir, n) && OnlyPages(pages, guess, dir, n)
  }

  /** What downloading page `n` does to the directory. */
  predicate PageStep(pages: seq<PageData>, guess: seq<bv8> -> Option<string>, before: map<string, seq<bv8>>,
                     after: map<string, seq<bv8>>, n: nat)
    requires n < |pages|
  {
    && (!Lands(pages[n]) ==> after == before)
    && (Lands(pages[n]) ==>
          after == (before - {Padded(n + 1, 3)})[NameOfPage(pages, n, guess) := Concat(pages[n].response.chunks)])
  }

  /** Downloading page `n` keeps the earlier pages' files and adds its own. */
  lemma StoresNextPage(pages: seq<PageData>, guess: seq<bv8> -> Option<string>, before: map<string, seq<bv8>>,
                       after: map<string, seq<bv8>>, n: nat)
    requires n < |pages| && StoresPages(pages, guess, before, n) && PageStep(pages, guess, before, after, n)
    ensures StoresPages(pages, guess, after, n + 1)
  {
    forall i | 0 <= i < n + 1 && Lands(pages[i])
      ensures NameOfPage(pages, i, guess) in after && after[NameOfPage(pages, i, guess)] == Concat(pages[i].response.chunks)
    {
      if i < n {
        NamesDistinct(pages, i, n, guess);
      }
    }
  }

  /** Downloading page `n` adds no file other than its own. */
  lemma OnlyNextPage(pages: seq<PageData>, guess: seq<bv8> -> Option<string>, before: map<string, seq<bv8>>,
                     after: map<string, seq<bv8>>, n: nat)
    requires n < |pages| && OnlyPages(pages, guess, before, n) && PageStep(pages, guess, before, after, n)
    ensures OnlyPages(pages, guess, after, n + 1)
  {
    forall f | f in after
      ensures exists i :: 0 <= i < n + 1 && Lands(pages[i]) && f == NameOfPage(pages, i, guess)
    {
      if f !in before {
        assert f == NameOfPage(pages, n, guess);
      }
    }
  }

  /**
   * `download_chapter`'s page downloads: every image is downloaded as page
   * 1, 2, … of a fresh temporary directory, and a page whose download raises
   * does not stop the others. Every page whose request gave a response and
   * whose URL has a `.` ends up in the directory under its own name with
   * the data that arrived: renamed when its stream completed and the
   * extension is accepted, under its bare number when the stream broke or
   * the rename was refused. Nothing else is there.
   */
  method DownloadChapter(pages: seq<PageData>, guess: seq<bv8> -> Option<string>) returns (dir: map<string, seq<bv8>>)
    ensures forall i :: 0 <= i < |pages| && Lands(pages[i]) ==>
      NameOfPage(pages, i, guess) in dir && dir[NameOfPage(pages, i, guess)] == Concat(pages[i].response.chunks)
    ensures forall f :: f in dir ==> exists i :: 0 <= i < |pages| && Lands(pages[i]) && f == NameOfPage(pages, i, guess)
  {
    dir := map[];
    for n := 0 to |pages|
      invariant HoldsPages(pages, guess, dir, n)
    {
      var raised;
      ghost var before := dir;
      dir, raised := DownloadPage(pages[n].url, n + 1, pages[n].response, guess, dir);
      StoresNextPage(pages, guess, before, dir, n);
      OnlyNextPage(pages, guess, before, dir, n);
    }
  }

  /** A page whose stream broke keeps its partial data under its bare 3-digit number. */
  lemma BrokenStreamKeepsBareNumber(pages: seq<PageData>, i: nat, guess: seq<bv8> -> Option<string>)
    requires i < |pages| && Lands(pages[i]) && !pages[i].response.complete
    ensures NameOfPage(pages, i, guess) == Padded(i + 1, 3)
  {
    assert Padded(i + 1, 3) + "" == Padded(i + 1, 3);
  }

  /** Only the first chunk's guess counts: later chunks never change the extension. */
  lemma OnlyFirstChunkGuessed(urlExt: string, chunks: seq<seq<bv8>>, more: seq<seq<bv8>>, guess: seq<bv8> -> Option<string>)
    requires chunks != []
    ensures Extension(urlExt, chunks + more, guess) == Extension(urlExt, chunks, guess)
  {
    assert (chunks + more)[0] == chunks[0];
  }

  /** With no usable guess, a URL whose last `.` is in the host name gives a suffix with a `/`, and the page keeps its bare number. */
  lemma ExtensionFromHostIsInvalid(host: string, path: string, chunks: seq<seq<bv8>>, guess: seq<bv8> -> Option<string>)
    requires forall k :: 0 <= k < |path| ==> path[k] != '.'
    requires Guessed(chunks, guess).None?
    ensures var url := "https://" + host + ".com/" + path;
      UrlExtension(url) == Some("com/" + path) && !ValidSuffix(Extension(UrlExtension(url).value, chunks, guess))
  {
    var url := "https://" + host + ".com/" + path;
    var k := |"https://" + host|;
    assert url[k] == '.';
    assert url[k + 1..] == "com/" + path;
    LastIndexAt(url, '.', k);
    assert ("com/" + path)[3] == '/';
  }
}
