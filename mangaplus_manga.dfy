/**
 * `MangaPlus.download_manga` (src/mangadlmao/apis/mangaplus.py): the chapter
 * count, the inclusive `since` and `from_chapter` filters, and the chapter
 * loop, which skips any existing archive and swallows download errors.
 * The outcome of downloading selected chapter `k` is the oracle `download(k)`;
 * archives written in this run get the modification time `now`.
 */
module MangaPlusManga {
  import opened Common
  import Sanitize
  import Cbz
  import MangaPlusApi

  /** The series as `get_details` returns it. */
  datatype Details = Details(title: string, author: string, chapters: seq<MangaPlusApi.Chapter>)

  /** A non-empty title given by the user replaces the fetched one. */
  function WithTitle(details: Details, title: string): (d: Details)
    ensures d.title == (if title != "" then title else details.title)
    ensures d.author == details.author && d.chapters == details.chapters
  {
    if title != "" then details.(title := title) else details
  }

  datatype DownloadResult = Saved | Raised

  datatype Progress = Length(n: nat) | Step

  /** `math.floor(chapters[-1].number)`; None where the list is empty and indexing raises IndexError. */
  function LastChapter(chapters: seq<MangaPlusApi.Chapter>): (r: Option<int>)
    ensures r.Some? <==> chapters != []
    ensures r.Some? ==> r.value * 100 <= chapters[|chapters| - 1].number < r.value * 100 + 100
  {
    if chapters == [] then None else Some(chapters[|chapters| - 1].number / 100)
  }

  /** Both filters keep their bound: a chapter exactly at `since` or at `from_chapter` stays. */
  predicate Selects(since: Option<int>, fromChapter: Option<int>, c: MangaPlusApi.Chapter)
  {
    (since.None? || c.time >= since.value) && (fromChapter.None? || c.number >= fromChapter.value)
  }

  /** The chapters the two list comprehensions keep, in order. */
  function Select(chapters: seq<MangaPlusApi.Chapter>, since: Option<int>, fromChapter: Option<int>)
    : (r: seq<MangaPlusApi.Chapter>)
    ensures |r| <= |chapters|
    ensures forall c {:trigger c in r} :: c in r <==> c in chapters && Selects(since, fromChapter, c)
  {
    if chapters == [] then []
    else
      var init := Select(chapters[..|chapters| - 1], since, fromChapter);
      var last := chapters[|chapters| - 1];
      assert chapters == chapters[..|chapters| - 1] + [last];
      if Selects(since, fromChapter, last) then init + [last] else init
  }

  /**
   * The filters keep order and multiplicity: they distribute over
   * concatenation, and one chapter is kept exactly when both bounds admit it.
   */
  lemma {:induction false} SelectAppend(a: seq<MangaPlusApi.Chapter>, b: seq<MangaPlusApi.Chapter>,
                                        since: Option<int>, fromChapter: Option<int>)
    ensures Select(a + b, since, fromChapter) == Select(a, since, fromChapter) + Select(b, since, fromChapter)
    ensures |b| == 1 ==> Select(b, since, fromChapter) == if Selects(since, fromChapter, b[0]) then b else []
    decreases |b|
  {
    if b == [] {
      assert a + b == a;
    } else {
      var init, last := b[..|b| - 1], b[|b| - 1];
      var kept := if Selects(since, fromChapter, last) then [last] else [];
      assert Select(a + b, since, fromChapter) == Select(a, since, fromChapter) + Select(b, since, fromChapter) by {
        SelectAppend(a, init, since, fromChapter);
        SelectLast(b, since, fromChapter);
        assert Select(a + b, since, fromChapter) == Select(a, since, fromChapter) + Select(init, since, fromChapter) + kept by {
          assert (a + b)[..|a + b| - 1] == a + init;
          assert (a + b)[|a + b| - 1] == last;
          SelectLast(a + b, since, fromChapter);
        }
        Concat3(Select(a, since, fromChapter), Select(init, since, fromChapter), kept);
      }
      if |b| == 1 {
        assert init == [];
        SelectLast(b, since, fromChapter);
      }
    }
  }

  /** One step of `Select`: the last chapter is appended when both bounds admit it. */
  lemma SelectLast(s: seq<MangaPlusApi.Chapter>, since: Option<int>, fromChapter: Option<int>)
    requires s != []
    ensures Select(s, since, fromChapter)
      == Select(s[..|s| - 1], since, fromChapter)
         + (if Selects(since, fromChapter, s[|s| - 1]) then [s[|s| - 1]] else [])
  {
  }

  /** `title[:128]`. */
  function Take(s: string, n: nat): (r: string)
    ensures r <= s && |r| == Min(n, |s|)
  {
    if |s| <= n then s else s[..n]
  }

  /** The archive name: formatted number, the first 128 characters of the title, and the chapter id. */
  function ArchiveName(env: Env, c: MangaPlusApi.Chapter): string
  {
    Sanitize.SanitizePath(env.formatNumber(env.render(c.number)) + " - " + Take(c.title, 128)
                          + " [MangaPlus-" + IntToString(c.id) + "].cbz")
  }

  function ComicInfoEntries(env: Env, details: Details, count: int, c: MangaPlusApi.Chapter)
    : seq<(string, Cbz.Value)>
  {
    var day := env.civil(c.time);
    [("Title", Cbz.Text(c.title)), ("Number", Cbz.Text(env.render(c.number))),
     ("Translator", Cbz.Text("MangaPlus")), ("Year", Cbz.Int(day.year)), ("Month", Cbz.Int(day.month)),
     ("Day", Cbz.Int(day.day)), ("Series", Cbz.Text(details.title)), ("Count", Cbz.Int(count)),
     ("Writer", Cbz.Text(details.author))]
  }

  /** The archive name and manifest of one selected chapter. */
  datatype Archive = Archive(filename: string, info: seq<(string, Cbz.Value)>)

  /** The archive of every selected chapter; `count` is the series' last chapter number. */
  function Archives(env: Env, details: Details, count: int, sel: seq<MangaPlusApi.Chapter>): (r: seq<Archive>)
    ensures |r| == |sel|
    ensures forall k :: 0 <= k < |sel| ==>
      r[k] == Archive(ArchiveName(env, sel[k]), ComicInfoEntries(env, details, count, sel[k]))
  {
    seq(|sel|, k requires 0 <= k < |sel| => Archive(ArchiveName(env, sel[k]), ComicInfoEntries(env, details, count, sel[k])))
  }

  /** The directory after the loop's first `n` archives: a name already there is skipped, a failed download leaves nothing. */
  function SyncDir(archives: seq<Archive>, dir: map<string, Cbz.CbzFile>, download: nat -> DownloadResult,
                   now: int, n: nat): map<string, Cbz.CbzFile>
    requires n <= |archives|
  {
    if n == 0 then dir
    else
      var d := SyncDir(archives, dir, download, now, n - 1);
      var a := archives[n - 1];
      if a.filename in d || download(n - 1) != Saved then d
      else d[a.filename := Cbz.CbzFile(now, a.info)]
  }

  /** One progress update per selected chapter after the initial length. */
  function Events(n: nat): (r: seq<Progress>)
    ensures |r| == n + 1 && r[0] == Length(n) && forall k :: 1 <= k <= n ==> r[k] == Step
  {
    [Length(n)] + seq(n, _ => Step)
  }

  /**
   * The loop. `raised` is true when the chapter list is empty (IndexError
   * before anything happens); otherwise the directory is `SyncDir` over the
   * selected chapters' archives and every one of them gets a progress step.
   */
  method DownloadManga(fetched: Details, title: string, since: Option<int>, fromChapter: Option<int>,
                       dir: map<string, Cbz.CbzFile>, download: nat -> DownloadResult, env: Env, now: int)
    returns (dir': map<string, Cbz.CbzFile>, events: seq<Progress>, raised: bool)
    ensures raised <==> fetched.chapters == []
    ensures raised ==> dir' == dir && events == []
    ensures !raised ==>
      var details := WithTitle(fetched, title);
      var sel := Select(details.chapters, since, fromChapter);
      var archives := Archives(env, details, LastChapter(details.chapters).value, sel);
      dir' == SyncDir(archives, dir, download, now, |sel|) && events == Events(|sel|)
  {
    var details := WithTitle(fetched, title);
    var last := LastChapter(details.chapters);
    if last.None? {
      return dir, [], true;
    }
    var sel := Select(details.chapters, since, fromChapter);
    var archives := Archives(env, details, last.value, sel);
    dir', events := SaveArchives(archives, dir, download, now);
    raised := false;
  }

  /** The chapter loop over the selected chapters' archives, after the initial length update. */
  method SaveArchives(archives: seq<Archive>, dir: map<string, Cbz.CbzFile>, download: nat -> DownloadResult, now: int)
    returns (dir': map<string, Cbz.CbzFile>, events: seq<Progress>)
    ensures dir' == SyncDir(archives, dir, download, now, |archives|) && events == Events(|archives|)
  {
    dir', events := dir, [Length(|archives|)];
    var k := 0;
    while k < |archives|
      invariant k <= |archives|
      invariant dir' == SyncDir(archives, dir, download, now, k)
      invariant |events| == k + 1 && events[0] == Length(|archives|)
      invariant forall j :: 1 <= j <= k ==> events[j] == Step
    {
      var a := archives[k];
      if a.filename !in dir' && download(k) == Saved {
        dir' := dir'[a.filename := Cbz.CbzFile(now, a.info)];
      }
      events := events + [Step];
      k := k + 1;
    }
    assert events == Events(|archives|);
  }

  /** An archive that was already there, however old, is left exactly as it was. */
  lemma {:induction false} ExistingArchivesKept(archives: seq<Archive>, dir: map<string, Cbz.CbzFile>,
                                                download: nat -> DownloadResult, now: int, n: nat)
    requires n <= |archives|
    ensures var d := SyncDir(archives, dir, download, now, n);
      forall f :: f in dir ==> f in d && d[f] == dir[f]
  {
    if n > 0 {
      ExistingArchivesKept(archives, dir, download, now, n - 1);
    }
  }

  /** Every chapter whose download saved has its archive in the directory afterwards. */
  lemma {:induction false} SavedChaptersPresent(archives: seq<Archive>, dir: map<string, Cbz.CbzFile>,
                                                download: nat -> DownloadResult, now: int, n: nat)
    requires n <= |archives|
    ensures var d := SyncDir(archives, dir, download, now, n);
      forall k :: 0 <= k < n && download(k) == Saved ==> archives[k].filename in d
  {
    if n > 0 {
      SavedChaptersPresent(archives, dir, download, now, n - 1);
    }
  }

  /**
   * Every new archive belongs to a chapter whose download saved, and holds
   * that chapter's manifest; a failed download leaves nothing behind.
   */
  lemma {:induction false} NewArchivesComeFromSavedChapters(archives: seq<Archive>, dir: map<string, Cbz.CbzFile>,
                                                            download: nat -> DownloadResult, now: int, n: nat)
    requires n <= |archives|
    ensures var d := SyncDir(archives, dir, download, now, n);
      forall f :: f in d && f !in dir ==>
        exists k :: 0 <= k < n && download(k) == Saved && f == archives[k].filename
          && d[f] == Cbz.CbzFile(now, archives[k].info)
  {
    if n > 0 {
      NewArchivesComeFromSavedChapters(archives, dir, download, now, n - 1);
    }
  }
}
