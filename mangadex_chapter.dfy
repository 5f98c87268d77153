/**
 * `MangaDex.at_home_download_page` file naming and the retry rounds of
 * `MangaDex.download_chapter` (src/mangadlmao/apis/mangadex.py).
 *
 * Page downloads are an oracle `task(round, url)`: whether the page task of
 * that round returned True, and whether a failed task had already opened
 * its file. The at-home server lookups after the first are an oracle too:
 * `resolve(k)` is the baseUrl returned by the k-th lookup after the initial
 * one, or None when that request raises. The temporary directory is the
 * set of file names written into it; what a file holds is not modelled.
 */
module MangaDexChapter {
  import opened Common

  const MaxRounds := 3

  /**
   * How one page task ended: it returned True after streaming the whole
   * page; it failed after its file was opened (the stream broke, or
   * something after it raised), leaving what arrived so far; or it failed
   * before the file was opened.
   */
  datatype PageTask = Fetched | FailedAfterOpen | FailedBeforeOpen

  /** `Path(page).name`: the text after the last `/`. */
  function BaseName(page: string): (name: string)
    ensures forall i :: 0 <= i < |name| ==> name[i] != '/'
  {
    AfterLast(page, '/')
  }

  /** The file name a page is saved under: a `NNN-` position prefix when a number is given. */
  function PageFileName(pageNumber: Option<nat>, page: string): string
  {
    match pageNumber
    case None => BaseName(page)
    case Some(n) => Padded(n, 3) + "-" + BaseName(page)
  }

  /** The position prefix reads back as the number, and the base name follows the dash. */
  lemma PageFileNameReadsBack(n: nat, page: string)
    requires n < 1000
    ensures var name := PageFileName(Some(n), page);
      |name| == 4 + |BaseName(page)| && AllDigits(name[..3]) && DigitsValue(name[..3]) == n
      && name[3] == '-' && name[4..] == BaseName(page)
  {
    var name := PageFileName(Some(n), page);
    var p := Padded(n, 3);
    ShortNumeral(n);
    assert name[..3] == p;
  }

  /** A number below 1000 has at most three digits. */
  lemma ShortNumeral(n: nat)
    requires n < 1000
    ensures |NatToString(n)| <= 3
  {
    if n >= 10 {
      assert |NatToString(n)| == |NatToString(n / 10)| + 1;
      if n / 10 >= 10 {
        assert |NatToString(n / 10)| == |NatToString(n / 100)| + 1;
      }
    }
  }

  /** The URL prefix of a round: the hash stays, the base URL may change. */
  function UrlPrefix(baseUrl: string, hash: string): string
  {
    baseUrl + "/data/" + hash + "/"
  }

  /** The pages of one round whose task failed, in submission order. */
  function Failed(round: nat, prefix: string, pages: seq<string>, task: (nat, string) -> PageTask): (r: seq<string>)
    ensures |r| <= |pages|
  {
    if pages == [] then []
    else
      var last := pages[|pages| - 1];
      var init := Failed(round, prefix, pages[..|pages| - 1], task);
      if task(round, prefix + last).Fetched? then init else init + [last]
  }

  /**
   * Every submitted page lands in exactly one of the failed and succeeded
   * lists, and a page is in the failed list iff its task failed.
   */
  lemma {:induction false} FailedExactly(round: nat, prefix: string, pages: seq<string>, task: (nat, string) -> PageTask)
    ensures multiset(Failed(round, prefix, pages, task)) + multiset(Succeeded(round, prefix, pages, task)) == multiset(pages)
    ensures forall p :: p in Failed(round, prefix, pages, task) <==> p in pages && !task(round, prefix + p).Fetched?
  {
    if pages != [] {
      var init, last := pages[..|pages| - 1], pages[|pages| - 1];
      FailedExactly(round, prefix, init, task);
      assert pages == init + [last];
      assert multiset(pages) == multiset(init) + multiset{last};
      var f := Failed(round, prefix, pages, task);
      var fi := Failed(round, prefix, init, task);
      assert f == if task(round, prefix + last).Fetched? then fi else fi + [last];
      forall p ensures p in f <==> p in pages && !task(round, prefix + p).Fetched? {
        assert p in pages <==> p in init || p == last;
      }
    }
  }

  /** The pages of one round whose task succeeded, in submission order. */
  function Succeeded(round: nat, prefix: string, pages: seq<string>, task: (nat, string) -> PageTask): seq<string>
  {
    if pages == [] then []
    else
      var last := pages[|pages| - 1];
      var init := Succeeded(round, prefix, pages[..|pages| - 1], task);
      if task(round, prefix + last).Fetched? then init + [last] else init
  }

  /**
   * The files one round leaves: each page whose task opened its file,
   * numbered by its position in this round's list. A task that failed after
   * opening leaves its partial file too.
   */
  function Written(round: nat, prefix: string, pages: seq<string>, task: (nat, string) -> PageTask): set<string>
  {
    if pages == [] then {}
    else
      var n := |pages|;
      Written(round, prefix, pages[..n - 1], task)
      + (if !task(round, prefix + pages[n - 1]).FailedBeforeOpen? then {PageFileName(Some(n), pages[n - 1])} else {})
  }

  /** One round: every page submitted, the failures collected. */
  method FetchRound(round: nat, prefix: string, pages: seq<string>, task: (nat, string) -> PageTask, dir: set<string>)
    returns (failed: seq<string>, dir': set<string>)
    ensures failed == Failed(round, prefix, pages, task)
    ensures dir' == dir + Written(round, prefix, pages, task)
  {
    failed, dir' := [], dir;
    var i := 0;
    while i < |pages|
      invariant i <= |pages|
      invariant failed == Failed(round, prefix, pages[..i], task)
      invariant dir' == dir + Written(round, prefix, pages[..i], task)
    {
      assert pages[..i + 1][..i] == pages[..i];
      var t := task(round, prefix + pages[i]);
      if !t.FailedBeforeOpen? {
        dir' := dir' + {PageFileName(Some(i + 1), pages[i])};
      }
      if !t.Fetched? {
        failed := failed + [pages[i]];
      }
      i := i + 1;
    }
    assert pages[..i] == pages;
  }

  /** One round of the retry loop as it happened. */
  datatype Round = Round(baseUrl: string, pages: seq<string>, failed: seq<string>)

  datatype ChapterOutcome =
    | Staged(files: set<string>)   // the temporary directory is yielded
    | RetryExhausted               // RetryException
    | ResolveFailed                // the baseUrl lookup after a failed round raised

  /** Everything the rounds left in the temporary directory, partial files of failed tasks included. */
  function StagedFiles(rounds: seq<Round>, hash: string, task: (nat, string) -> PageTask): set<string>
  {
    if rounds == [] then {}
    else
      var k := |rounds| - 1;
      StagedFiles(rounds[..k], hash, task) + Written(k, UrlPrefix(rounds[k].baseUrl, hash), rounds[k].pages, task)
  }

  /** Round `j + 1` retries exactly the pages round `j` failed, from the base URL of lookup `j + 1`. */
  predicate Retried(rounds: seq<Round>, j: nat, resolve: nat -> Option<string>)
    requires j + 1 < |rounds|
  {
    rounds[j].failed != [] && rounds[j + 1].pages == rounds[j].failed && resolve(j + 1) == Some(rounds[j + 1].baseUrl)
  }

  /** Round `j` submitted its pages from its base URL and failed exactly `rounds[j].failed`. */
  predicate Ran(rounds: seq<Round>, j: nat, hash: string, task: (nat, string) -> PageTask)
    requires j < |rounds|
  {
    rounds[j].failed == Failed(j, UrlPrefix(rounds[j].baseUrl, hash), rounds[j].pages, task)
  }

  /** What the rounds so far have in common: each ran as stated, each retry follows its predecessor, only original pages are submitted. */
  predicate History(rounds: seq<Round>, hash: string, pages: seq<string>,
                    resolve: nat -> Option<string>, task: (nat, string) -> PageTask)
  {
    && (forall j :: 0 <= j < |rounds| ==> Ran(rounds, j, hash, task))
    && (forall j :: 0 <= j < |rounds| - 1 ==> Retried(rounds, j, resolve))
    && (forall j, p :: 0 <= j < |rounds| && p in rounds[j].pages ==> p in pages)
  }

  lemma ExtendHistory(rounds: seq<Round>, r: Round, hash: string, pages: seq<string>,
                      resolve: nat -> Option<string>, task: (nat, string) -> PageTask)
    requires History(rounds, hash, pages, resolve, task)
    requires r.failed == Failed(|rounds|, UrlPrefix(r.baseUrl, hash), r.pages, task)
    requires rounds != [] ==> rounds[|rounds| - 1].failed != [] && r.pages == rounds[|rounds| - 1].failed
                              && resolve(|rounds|) == Some(r.baseUrl)
    requires forall p :: p in r.pages ==> p in pages
    ensures History(rounds + [r], hash, pages, resolve, task)
  {
    ExtendRan(rounds, r, hash, task);
    ExtendRetried(rounds, r, resolve);
    var t := rounds + [r];
    forall j, p | 0 <= j < |t| && p in t[j].pages ensures p in pages {
      if j < |rounds| { assert t[j] == rounds[j]; }
    }
  }

  lemma ExtendRan(rounds: seq<Round>, r: Round, hash: string, task: (nat, string) -> PageTask)
    requires forall j :: 0 <= j < |rounds| ==> Ran(rounds, j, hash, task)
    requires r.failed == Failed(|rounds|, UrlPrefix(r.baseUrl, hash), r.pages, task)
    ensures forall j :: 0 <= j < |rounds| + 1 ==> Ran(rounds + [r], j, hash, task)
  {
    var t := rounds + [r];
    forall j | 0 <= j < |t| ensures Ran(t, j, hash, task) {
      if j < |rounds| {
        assert t[j] == rounds[j];
        assert Ran(rounds, j, hash, task);
      }
    }
  }

  lemma ExtendRetried(rounds: seq<Round>, r: Round, resolve: nat -> Option<string>)
    requires forall j :: 0 <= j < |rounds| - 1 ==> Retried(rounds, j, resolve)
    requires rounds != [] ==> rounds[|rounds| - 1].failed != [] && r.pages == rounds[|rounds| - 1].failed
                              && resolve(|rounds|) == Some(r.baseUrl)
    ensures forall j :: 0 <= j < |rounds| ==> Retried(rounds + [r], j, resolve)
  {
    var t := rounds + [r];
    forall j | 0 <= j < |rounds| ensures Retried(t, j, resolve) {
      assert t[j] == rounds[j];
      if j + 1 < |rounds| {
        assert t[j + 1] == rounds[j + 1];
        assert Retried(rounds, j, resolve);
      }
    }
  }

  /** The retry loop of download_chapter. */
  method DownloadChapter(baseUrl: string, hash: string, pages: seq<string>,
                         resolve: nat -> Option<string>, task: (nat, string) -> PageTask)
    returns (rounds: seq<Round>, outcome: ChapterOutcome)
    ensures 1 <= |rounds| <= MaxRounds
    ensures rounds[0].baseUrl == baseUrl && rounds[0].pages == pages
    ensures History(rounds, hash, pages, resolve, task)
    ensures outcome.Staged? <==> rounds[|rounds| - 1].failed == []
    ensures outcome.ResolveFailed? <==> rounds[|rounds| - 1].failed != [] && resolve(|rounds|).None?
    ensures outcome.RetryExhausted? <==>
      |rounds| == MaxRounds && rounds[MaxRounds - 1].failed != [] && resolve(MaxRounds).Some?
    ensures outcome.Staged? ==> outcome.files == StagedFiles(rounds, hash, task)
  {
    rounds := [];
    var base, current, dir := baseUrl, pages, {};
    var k := 0;
    while k < MaxRounds
      invariant k == |rounds| <= MaxRounds
      invariant k == 0 ==> base == baseUrl && current == pages
      invariant k > 0 ==> rounds[0].baseUrl == baseUrl && rounds[0].pages == pages
      invariant k > 0 ==> current == rounds[k - 1].failed != [] && resolve(k) == Some(base)
      invariant History(rounds, hash, pages, resolve, task)
      invariant forall p :: p in current ==> p in pages
      invariant dir == StagedFiles(rounds, hash, task)
    {
      var failed, dir' := FetchRound(k, UrlPrefix(base, hash), current, task, dir);
      var r := Round(base, current, failed);
      ExtendHistory(rounds, r, hash, pages, resolve, task);
      rounds := rounds + [r];
      assert rounds[..k] == rounds[..|rounds| - 1];
      dir := dir';
      if failed == [] {
        return rounds, Staged(dir);
      }
      FailedExactly(k, UrlPrefix(base, hash), current, task);
      var next := resolve(k + 1);
      if next.None? {
        return rounds, ResolveFailed;
      }
      base, current := next.value, failed;
      k := k + 1;
    }
    return rounds, RetryExhausted;
  }

  /** A retried page is numbered by its place in the failed list, not its original place. */
  lemma RetryRenumbers(prefix: string)
    ensures Written(1, prefix, ["b.png"], (r: nat, u: string) => Fetched) == {"001-b.png"}
  {
    var w := Written(1, prefix, ["b.png"], (r: nat, u: string) => Fetched);
    assert PageFileName(Some(1), "b.png") == "001-b.png" by {
      assert NatToString(1) == "1";
      assert Zeros(2) == "00";
      assert BaseName("b.png") == "b.png" by {
        assert LastIndexOf("b.png", '/') == None;
      }
    }
    assert PageFileName(Some(1), ["b.png"][0]) in w;
  }
  /**
   * A page whose stream broke in the first round and that arrived in its
   * retry is staged twice: the partial file under its first number and the
   * whole one under its number in the failed list.
   */
  lemma BrokenPageStagedTwice(base0: string, base1: string, hash: string, task: (nat, string) -> PageTask)
    requires task(0, UrlPrefix(base0, hash) + "a.png") == Fetched
    requires task(0, UrlPrefix(base0, hash) + "b.png") == FailedAfterOpen
    requires task(1, UrlPrefix(base1, hash) + "b.png") == Fetched
    ensures var rounds := [Round(base0, ["a.png", "b.png"], ["b.png"]), Round(base1, ["b.png"], [])];
      StagedFiles(rounds, hash, task) == {"001-a.png", "002-b.png", "001-b.png"}
  {
    var rounds := [Round(base0, ["a.png", "b.png"], ["b.png"]), Round(base1, ["b.png"], [])];
    NumberedNames();
    var first := Written(0, UrlPrefix(base0, hash), ["a.png", "b.png"], task);
    assert first == {"001-a.png", "002-b.png"} by {
      WrittenOne(0, UrlPrefix(base0, hash), "a.png", task);
      assert ["a.png", "b.png"][..1] == ["a.png"];
      assert first == Written(0, UrlPrefix(base0, hash), ["a.png"], task) + {PageFileName(Some(2), "b.png")};
    }
    var second := Written(1, UrlPrefix(base1, hash), ["b.png"], task);
    assert second == {"001-b.png"} by {
      WrittenOne(1, UrlPrefix(base1, hash), "b.png", task);
    }
    assert StagedFiles(rounds, hash, task) == first + second by {
      assert rounds[..1] == [rounds[0]] && rounds[..1][..0] == [];
      assert StagedFiles(rounds[..1], hash, task) == first;
    }
  }

  lemma NumberedNames()
    ensures PageFileName(Some(1), "a.png") == "001-a.png"
    ensures PageFileName(Some(2), "b.png") == "002-b.png"
    ensures PageFileName(Some(1), "b.png") == "001-b.png"
  {
    SmallPadding();
    NumberedName(1, "a.png", "001", "001-a.png");
    NumberedName(2, "b.png", "002", "002-b.png");
    NumberedName(1, "b.png", "001", "001-b.png");
  }

  /** The numbered name of a page without a `/`, given its padded number. */
  lemma NumberedName(n: nat, page: string, digits: string, name: string)
    requires Padded(n, 3) == digits
    requires forall i :: 0 <= i < |page| ==> page[i] != '/'
    requires name == digits + "-" + page
    ensures PageFileName(Some(n), page) == name
  {
    PlainBaseName(page);
  }

  lemma SmallPadding()
    ensures Padded(1, 3) == "001" && Padded(2, 3) == "002"
  {
    assert NatToString(1) == "1" && NatToString(2) == "2";
    assert Zeros(2) == "00" by { assert Zeros(1) == "0"; }
  }

  /** A page name without a `/` is its own base name. */
  lemma PlainBaseName(page: string)
    requires forall i :: 0 <= i < |page| ==> page[i] != '/'
    ensures BaseName(page) == page
  {
  }

  /** A round of one page leaves that page's file under number 1 unless its task failed before opening it. */
  lemma WrittenOne(round: nat, prefix: string, page: string, task: (nat, string) -> PageTask)
    ensures Written(round, prefix, [page], task) ==
      if task(round, prefix + page).FailedBeforeOpen? then {} else {PageFileName(Some(1), page)}
  {
    assert [page][..0] == [];
  }
}
