/**
 * The per-chapter loop of `MangaDex.download_manga`
 * (src/mangadlmao/apis/mangadex.py): exclusion by scanlation group or user,
 * the `since` and external-URL filters, guessing of missing chapter
 * numbers, the `from_chapter` filter, the already-downloaded check, the
 * download itself and the clean-up of duplicates.
 *
 * The series directory is a map from file name to archive; the outcome of
 * downloading chapter `i` is the oracle `download(i)`. Times are integer
 * timestamps; chapter numbers are read in hundredths.
 */
module MangaDexManga {
  import opened Common
  import Sanitize
  import Cbz

  datatype Relationship =
    | Group(id: string, name: string)        // "scanlation_group"
    | User(id: string, username: string)     // "user"
    | OtherRelationship

  /** The fields of one feed entry that the loop reads. */
  datatype Chapter = Chapter(
    id: string,
    title: Cbz.Value,
    number: Option<string>,
    externalUrl: Option<string>,
    updatedAt: int,
    createdAt: int,
    language: string,
    relationships: seq<Relationship>)

  /** Series details, with the user's title override already applied. */
  datatype Details = Details(title: string, lastChapter: Cbz.Value, author: string, artist: string)

  datatype SinceOption = Auto | At(time: int) | NoSince

  /** What the loop is given besides the chapters. */
  datatype Config = Config(
    exclude: seq<string>,
    since: int,
    fromChapter: Option<int>,
    details: Details,
    env: Env)

  datatype DownloadResult =
    | Saved     // download_chapter and create_cbz succeeded
    | Failed    // RetryException or a requests exception
    | Crashed   // any other exception, which propagates

  datatype Outcome = Completed | Stopped | Raised

  datatype Progress = Length(n: nat) | Step(chapter: Option<string>)

  /** The user title overrides the API title when it is not empty. */
  function ApplyTitle(details: Details, mangaTitle: string): (d: Details)
    ensures d.title == if mangaTitle != "" then mangaTitle else details.title
    ensures d.lastChapter == details.lastChapter && d.author == details.author && d.artist == details.artist
  {
    if mangaTitle != "" then details.(title := mangaTitle) else details
  }

  /** The `since` the loop compares against: "auto" is the newest file time, and the epoch stands in for none. */
  function ResolveSince(since: SinceOption, mostRecent: Option<int>): (t: int)
    ensures since.At? ==> t == since.time
    ensures since.NoSince? || (since.Auto? && mostRecent.None?) ==> t == 0
    ensures since.Auto? && mostRecent.Some? ==> t == mostRecent.value
  {
    match since
    case Auto => if mostRecent.Some? then mostRecent.value else 0
    case At(time) => time
    case NoSince => 0
  }

  /** Caseless comparison, as `str.casefold` does on ASCII. */
  function Fold(s: string): string
  {
    LowerString(s)
  }

  /** Some exclude entry equals the name or the id, caselessly. */
  predicate ExcludedBy(exclude: seq<string>, name: string, id: string)
  {
    exists x :: x in exclude && (Fold(x) == Fold(name) || Fold(x) == Fold(id))
  }

  /** Whether one relationship puts the chapter on the exclude list. */
  predicate Flags(exclude: seq<string>, r: Relationship)
  {
    match r
    case Group(id, name) => ExcludedBy(exclude, name, id)
    case User(id, username) => ExcludedBy(exclude, username, id)
    case OtherRelationship => false
  }

  /** The state of the scan over a chapter's relationships. */
  datatype Scan = Scan(group: string, user: string, excluded: bool)

  /** The relationship loop: the last group name, the last username, and whether any of them is excluded. */
  function ScanRelationships(exclude: seq<string>, rels: seq<Relationship>): Scan
  {
    if rels == [] then Scan("", "", false)
    else
      var s := ScanRelationships(exclude, rels[..|rels| - 1]);
      match rels[|rels| - 1]
      case Group(id, name) => Scan(name, s.user, s.excluded || ExcludedBy(exclude, name, id))
      case User(id, username) => Scan(s.group, username, s.excluded || ExcludedBy(exclude, username, id))
      case OtherRelationship => s
  }

  /**
   * The chapter is excluded iff one of its group or user relationships is
   * flagged; the group is the name of the last group relationship, or empty.
   */
  lemma {:induction false} ScanFacts(exclude: seq<string>, rels: seq<Relationship>)
    ensures ScanRelationships(exclude, rels).excluded <==> exists i :: 0 <= i < |rels| && Flags(exclude, rels[i])
    ensures (forall i :: 0 <= i < |rels| ==> !rels[i].Group?) ==> ScanRelationships(exclude, rels).group == ""
    ensures forall i :: 0 <= i < |rels| && rels[i].Group? && (forall k :: i < k < |rels| ==> !rels[k].Group?)
                        ==> ScanRelationships(exclude, rels).group == rels[i].name
  {
    if rels != [] {
      var init, last := rels[..|rels| - 1], rels[|rels| - 1];
      ScanFacts(exclude, init);
      assert forall i :: 0 <= i < |init| ==> init[i] == rels[i];
      if ScanRelationships(exclude, rels).excluded {
        if !ScanRelationships(exclude, init).excluded {
          assert Flags(exclude, rels[|rels| - 1]);
        }
      }
    }
  }

  /** The translator is the group name when it is not empty, else the username. */
  function Translator(s: Scan): string
  {
    if s.group != "" then s.group else s.user
  }

  /** The raw chapter numbers of the feed, in order. */
  function Numbers(chapters: seq<Chapter>): (r: seq<Option<string>>)
    ensures |r| == |chapters| && forall i :: 0 <= i < |r| ==> r[i] == chapters[i].number
  {
    seq(|chapters|, i requires 0 <= i < |chapters| => chapters[i].number)
  }

  /** The closest earlier position with a number. */
  function NearestBefore(numbers: seq<Option<string>>, index: nat): (r: Option<nat>)
    requires index <= |numbers|
    ensures r.Some? ==> r.value < index && numbers[r.value].Some?
                        && forall k :: r.value < k < index ==> numbers[k].None?
    ensures r.None? ==> forall k :: 0 <= k < index ==> numbers[k].None?
  {
    if index == 0 then None
    else if numbers[index - 1].Some? then Some(index - 1)
    else NearestBefore(numbers, index - 1)
  }

  /** The closest position at or after `from` with a number. */
  function NearestFrom(numbers: seq<Option<string>>, from: nat): (r: Option<nat>)
    requires from <= |numbers|
    ensures r.Some? ==> from <= r.value < |numbers| && numbers[r.value].Some?
                        && forall k :: from <= k < r.value ==> numbers[k].None?
    ensures r.None? ==> forall k :: from <= k < |numbers| ==> numbers[k].None?
    decreases |numbers| - from
  {
    if from == |numbers| then None
    else if numbers[from].Some? then Some(from)
    else NearestFrom(numbers, from + 1)
  }

  /** `min(0.9, max(0.1, 0.1 * distance))`, in tenths. */
  function OffsetTenths(distance: int): (t: int)
    ensures 1 <= t <= 9
    ensures 1 <= distance <= 9 ==> t == distance
  {
    Min(9, Max(1, distance))
  }

  /** `f"{float(n) + offset:g}"`, or `n` itself when it is not a number. */
  function Bumped(n: string, tenths: int, env: Env): string
  {
    match ParseNumber(n)
    case Some(h) => env.render(h + 10 * tenths)
    case None => n
  }

  /** The guessed number of a numberless chapter, from its raw neighbours. */
  function Guess(numbers: seq<Option<string>>, index: nat, env: Env): (r: Option<string>)
    requires index < |numbers|
    ensures r.None? <==> forall k :: 0 <= k < |numbers| && k != index ==> numbers[k].None?
  {
    match NearestBefore(numbers, index)
    case Some(j) => Some(Bumped(numbers[j].value, OffsetTenths(index - j), env))
    case None =>
      match NearestFrom(numbers, index + 1)
      case Some(j) => Some(Bumped(numbers[j].value, OffsetTenths(index - j), env))
      case None => None
  }

  /** The nearest earlier numbered chapter is used, offset by a tenth per step up to nine tenths. */
  lemma GuessFromPreceding(numbers: seq<Option<string>>, index: nat, env: Env, j: nat)
    requires j < index < |numbers| && numbers[j].Some?
    requires forall k :: j < k < index ==> numbers[k].None?
    ensures Guess(numbers, index, env) == Some(Bumped(numbers[j].value, Min(9, index - j), env))
  {
    var b := NearestBefore(numbers, index);
    assert b.Some?;
    if b.value != j {
      assert false;
    }
  }

  /** With no earlier number, the nearest later one is used and the clamp always adds one tenth. */
  lemma GuessFromFollowing(numbers: seq<Option<string>>, index: nat, env: Env, j: nat)
    requires index < j < |numbers| && numbers[j].Some?
    requires forall k :: 0 <= k < j && k != index ==> numbers[k].None?
    ensures Guess(numbers, index, env) == Some(Bumped(numbers[j].value, 1, env))
  {
    var a := NearestFrom(numbers, index + 1);
    assert a.Some?;
    if a.value != j {
      assert false;
    }
  }

  /** So a numberless chapter before chapter 2 is guessed as 2.1, after it. */
  lemma GuessAboveFollowingChapter(env: Env)
    ensures Guess([None, Some("2")], 0, env) == Some(env.render(210))
  {
    GuessFromFollowing([None, Some("2")], 0, env, 1);
    assert ParseNumber("2") == Some(200);
  }

  /** The two search loops of the guessing code; the result is `Guess`. */
  method GuessNumber(numbers: seq<Option<string>>, index: nat, env: Env) returns (r: Option<string>)
    requires index < |numbers| && numbers[index].None?
    ensures r == Guess(numbers, index, env)
  {
    var number: Option<string> := None;
    var distance := 0;
    var i: int := index - 1;
    while i >= 0 && number.None?
      invariant -1 <= i < index
      invariant number.None? ==> forall k :: i < k < index ==> numbers[k].None?
      invariant number.Some? ==> NearestBefore(numbers, index) == Some(i + 1) && distance == index - (i + 1)
                                 && number == numbers[i + 1]
    {
      number := numbers[i];
      if number.Some? {
        distance := index - i;
      }
      i := i - 1;
    }
    if number.None? {
      assert NearestBefore(numbers, index).None?;
      i := index + 1;
      while i < |numbers| && number.None?
        invariant index + 1 <= i <= |numbers|
        invariant number.None? ==> NearestFrom(numbers, index + 1) == NearestFrom(numbers, i)
        invariant number.Some? ==> NearestFrom(numbers, index + 1) == Some(i - 1) && distance == index - (i - 1)
                                   && number == numbers[i - 1]
      {
        number := numbers[i];
        if number.Some? {
          distance := index - i;
        }
        i := i + 1;
      }
    }
    if number.Some? {
      r := Some(Bumped(number.value, OffsetTenths(distance), env));
    } else {
      r := None;
    }
  }

  /** The ComicInfo entries of a chapter, in the order the source lists them. */
  function ComicInfoEntries(cfg: Config, c: Chapter, number: string, translator: string): seq<(string, Cbz.Value)>
  {
    var day := cfg.env.civil(c.updatedAt);
    [("Title", c.title), ("Number", Cbz.Text(number)), ("Translator", Cbz.Text(translator)),
     ("LanguageISO", Cbz.Text(c.language)), ("Year", Cbz.Int(day.year)), ("Month", Cbz.Int(day.month)),
     ("Day", Cbz.Int(day.day)), ("Series", Cbz.Text(cfg.details.title)), ("Count", cfg.details.lastChapter),
     ("Writer", Cbz.Text(cfg.details.author)), ("Penciller", Cbz.Text(cfg.details.artist))]
  }

  /** The archive name: formatted number, translator, chapter id and creation time, sanitised. */
  function ArchiveName(env: Env, number: string, translator: string, c: Chapter): string
  {
    Sanitize.SanitizePath(env.formatNumber(number) + " - " + translator + " " + c.id + " "
                          + env.stamp(c.createdAt) + ".cbz")
  }

  /** `name` matches the glob `* {id} *.cbz`. */
  predicate DuplicateName(name: string, id: string)
  {
    |name| >= 4 && name[|name| - 4..] == ".cbz" && Contains(name[..|name| - 4], " " + id + " ")
  }

  /** The directory after the duplicates of chapter `id` other than `keep` are deleted. */
  function RemoveDuplicates(dir: map<string, Cbz.CbzFile>, id: string, keep: string): (r: map<string, Cbz.CbzFile>)
  {
    map f | f in dir && (f == keep || !DuplicateName(f, id)) :: dir[f]
  }

  /** What the filters decide before the file system is looked at. */
  datatype Plan =
    | Skip(shown: Option<string>)
    | Candidate(caption: string, filename: string, info: seq<(string, Cbz.Value)>)

  function PlanChapter(cfg: Config, chapters: seq<Chapter>, i: nat): Plan
    requires i < |chapters|
  {
    var c := chapters[i];
    var scan := ScanRelationships(cfg.exclude, c.relationships);
    var translator := Translator(scan);
    if scan.excluded then Skip(None)
    else if cfg.since >= c.updatedAt then Skip(None)
    else if c.externalUrl.Some? && c.externalUrl.value != "" then Skip(None)
    else
      var number := if c.number.Some? then c.number else Guess(Numbers(chapters), i, cfg.env);
      if number.None? then Skip(Some("None by " + translator))
      else
        var shown := number.value + " by " + translator;
        var parsed := ParseNumber(number.value);
        if cfg.fromChapter.Some? && parsed.Some? && parsed.value < cfg.fromChapter.value then Skip(Some(shown))
        else Candidate(shown, ArchiveName(cfg.env, number.value, translator, c),
                       ComicInfoEntries(cfg, c, number.value, translator))
  }

  /** The filters in order: a chapter is downloaded only when it passes all of them. */
  lemma PlanCandidateIff(cfg: Config, chapters: seq<Chapter>, i: nat)
    requires i < |chapters|
    ensures var c := chapters[i];
      PlanChapter(cfg, chapters, i).Candidate? <==>
        && !(exists k :: 0 <= k < |c.relationships| && Flags(cfg.exclude, c.relationships[k]))
        && cfg.since < c.updatedAt
        && (c.externalUrl.None? || c.externalUrl.value == "")
        && (c.number.Some? || exists k :: 0 <= k < |chapters| && k != i && chapters[k].number.Some?)
        && var n := if c.number.Some? then c.number.value else Guess(Numbers(chapters), i, cfg.env).value;
           (cfg.fromChapter.None? || ParseNumber(n).None? || ParseNumber(n).value >= cfg.fromChapter.value)
  {
    var c := chapters[i];
    ScanFacts(cfg.exclude, c.relationships);
    var numbers := Numbers(chapters);
    if c.number.None? {
      assert Guess(numbers, i, cfg.env).None? <==> forall k :: 0 <= k < |numbers| && k != i ==> numbers[k].None?;
    }
  }

  /** The state of the loop after some chapters. */
  datatype SyncState = SyncState(dir: map<string, Cbz.CbzFile>, events: seq<Progress>, outcome: Outcome, visited: nat)

  /** One pass of the loop body, once the filters have decided. */
  function ApplyPlan(plan: Plan, c: Chapter, i: nat, st: SyncState, download: nat -> DownloadResult): SyncState
  {
    match plan
    case Skip(shown) => st.(events := st.events + [Step(shown)], visited := st.visited + 1)
    case Candidate(caption, filename, info) =>
      var done := st.(events := st.events + [Step(Some(caption))], visited := st.visited + 1);
      if filename in st.dir && st.dir[filename].mtime >= c.updatedAt then done
      else match download(i)
        case Saved => done.(dir := RemoveDuplicates(st.dir[filename := Cbz.CbzFile(c.updatedAt, info)], c.id, filename))
        case Failed => done.(outcome := Stopped)
        case Crashed => done.(outcome := Raised)
  }

  /** Every pass adds one progress update; only a download that does not save ends the loop. */
  lemma ApplyPlanFacts(plan: Plan, c: Chapter, i: nat, st: SyncState, download: nat -> DownloadResult)
    requires st.outcome.Completed?
    ensures var next := ApplyPlan(plan, c, i, st, download);
      && next.events == st.events + [next.events[|next.events| - 1]]
      && next.events[|next.events| - 1].Step?
      && next.visited == st.visited + 1
      && (!next.outcome.Completed? ==> download(i) != Saved)
  {
  }

  /** The filters' decision for every chapter of the feed. */
  function Plans(cfg: Config, chapters: seq<Chapter>): (r: seq<Plan>)
    ensures |r| == |chapters| && forall i :: 0 <= i < |r| ==> r[i] == PlanChapter(cfg, chapters, i)
  {
    seq(|chapters|, i requires 0 <= i < |chapters| => PlanChapter(cfg, chapters, i))
  }

  /** The loop over the first `n` chapters, given the filters' decisions; a stop or an exception ends it. */
  function SyncUpTo(plans: seq<Plan>, chapters: seq<Chapter>, dir: map<string, Cbz.CbzFile>,
                    download: nat -> DownloadResult, n: nat): SyncState
    requires n <= |chapters| && |plans| == |chapters|
  {
    if n == 0 then SyncState(dir, [Length(|chapters|)], Completed, 0)
    else
      var st := SyncUpTo(plans, chapters, dir, download, n - 1);
      if st.outcome.Completed? then ApplyPlan(plans[n - 1], chapters[n - 1], n - 1, st, download)
      else st
  }

  /** The filters of the loop body, in the source's order; the result is `PlanChapter`. */
  method PlanOf(cfg: Config, chapters: seq<Chapter>, numbers: seq<Option<string>>, i: nat) returns (plan: Plan)
    requires i < |chapters| && numbers == Numbers(chapters)
    ensures plan == PlanChapter(cfg, chapters, i)
  {
    var c := chapters[i];
    var scan := ScanRelationships(cfg.exclude, c.relationships);
    if scan.excluded {
      return Skip(None);
    }
    var translator := Translator(scan);
    if cfg.since >= c.updatedAt {
      return Skip(None);
    }
    if c.externalUrl.Some? && c.externalUrl.value != "" {
      return Skip(None);
    }
    var number := c.number;
    if number.None? {
      number := GuessNumber(numbers, i, cfg.env);
      if number.None? {
        return Skip(Some("None by " + translator));
      }
    }
    var shown := number.value + " by " + translator;
    var parsed := ParseNumber(number.value);
    if cfg.fromChapter.Some? && parsed.Some? && parsed.value < cfg.fromChapter.value {
      return Skip(Some(shown));
    }
    var info := ComicInfoEntries(cfg, c, number.value, translator);
    var filename := ArchiveName(cfg.env, number.value, translator, c);
    return Candidate(shown, filename, info);
  }

  /** One pass of the loop body after the filters: the up-to-date check, the download and the duplicate clean-up. */
  method Visit(plan: Plan, c: Chapter, i: nat, dir: map<string, Cbz.CbzFile>, events: seq<Progress>,
               download: nat -> DownloadResult)
    returns (dir': map<string, Cbz.CbzFile>, events': seq<Progress>, outcome: Outcome)
    ensures SyncState(dir', events', outcome, i + 1) == ApplyPlan(plan, c, i, SyncState(dir, events, Completed, i), download)
    ensures plan.Candidate? && plan.filename in dir && dir[plan.filename].mtime >= c.updatedAt ==>
      dir' == dir && outcome == Completed
  {
    dir', outcome := dir, Completed;
    if plan.Skip? {
      events' := events + [Step(plan.shown)];
      return;
    }
    events' := events + [Step(Some(plan.caption))];
    var filename := plan.filename;
    if filename in dir && dir[filename].mtime >= c.updatedAt {
      return;
    }
    var result := download(i);
    if result.Failed? || result.Crashed? {
      outcome := if result.Failed? then Stopped else Raised;
      return;
    }
    dir' := dir[filename := Cbz.CbzFile(c.updatedAt, plan.info)];
    dir' := map f | f in dir' && (f == filename || !DuplicateName(f, c.id)) :: dir'[f];
  }

  /** download_manga's chapter loop; its result is `SyncUpTo` over all chapters. */
  method DownloadManga(cfg: Config, chapters: seq<Chapter>, dir: map<string, Cbz.CbzFile>,
                       download: nat -> DownloadResult)
    returns (dir': map<string, Cbz.CbzFile>, events: seq<Progress>, outcome: Outcome)
    ensures var st := SyncUpTo(Plans(cfg, chapters), chapters, dir, download, |chapters|);
      dir' == st.dir && events == st.events && outcome == st.outcome
  {
    dir', events := dir, [Length(|chapters|)];
    ghost var plans := Plans(cfg, chapters);
    var numbers := Numbers(chapters);
    var i := 0;
    while i < |chapters|
      invariant i <= |chapters|
      invariant SyncUpTo(plans, chapters, dir, download, i) == SyncState(dir', events, Completed, i)
    {
      var d, e, o := Advance(cfg, chapters, numbers, i, dir', events, download, plans, dir);
      if !o.Completed? {
        StopIsFinal(plans, chapters, dir, download, i + 1, |chapters|);
        return d, e, o;
      }
      dir', events, i := d, e, i + 1;
    }
    outcome := Completed;
  }

  /** The loop body for chapter `i`: its filters, then its visit. */
  method Advance(cfg: Config, chapters: seq<Chapter>, numbers: seq<Option<string>>, i: nat,
                 dir: map<string, Cbz.CbzFile>, events: seq<Progress>, download: nat -> DownloadResult,
                 ghost plans: seq<Plan>, ghost start: map<string, Cbz.CbzFile>)
    returns (dir': map<string, Cbz.CbzFile>, events': seq<Progress>, outcome: Outcome)
    requires i < |chapters| && numbers == Numbers(chapters) && plans == Plans(cfg, chapters)
    requires SyncUpTo(plans, chapters, start, download, i) == SyncState(dir, events, Completed, i)
    ensures SyncUpTo(plans, chapters, start, download, i + 1) == SyncState(dir', events', outcome, i + 1)
  {
    var plan := PlanOf(cfg, chapters, numbers, i);
    dir', events', outcome := Visit(plan, chapters[i], i, dir, events, download);
  }

  /** Once the loop has stopped or raised, later chapters change nothing. */
  lemma {:induction false} StopIsFinal(plans: seq<Plan>, chapters: seq<Chapter>, dir: map<string, Cbz.CbzFile>,
                                       download: nat -> DownloadResult, n: nat, m: nat)
    requires n <= m <= |chapters| && |plans| == |chapters|
    requires !SyncUpTo(plans, chapters, dir, download, n).outcome.Completed?
    ensures SyncUpTo(plans, chapters, dir, download, m) == SyncUpTo(plans, chapters, dir, download, n)
    decreases m - n
  {
    if n < m {
      StopIsFinal(plans, chapters, dir, download, n, m - 1);
    }
  }

  /**
   * One progress update per chapter the loop reached, after the initial
   * length; the loop reaches every chapter unless a download stops it.
   */
  lemma {:induction false} OneUpdatePerChapter(plans: seq<Plan>, chapters: seq<Chapter>, dir: map<string, Cbz.CbzFile>,
                                               download: nat -> DownloadResult, n: nat)
    requires n <= |chapters| && |plans| == |chapters|
    ensures var st := SyncUpTo(plans, chapters, dir, download, n);
      && |st.events| == st.visited + 1 && st.visited <= n
      && st.events[0] == Length(|chapters|)
      && (forall k :: 1 <= k < |st.events| ==> st.events[k].Step?)
      && (st.outcome.Completed? ==> st.visited == n)
  {
    if n > 0 {
      OneUpdatePerChapter(plans, chapters, dir, download, n - 1);
      var st := SyncUpTo(plans, chapters, dir, download, n - 1);
      if st.outcome.Completed? {
        ApplyPlanFacts(plans[n - 1], chapters[n - 1], n - 1, st, download);
      }
    }
  }

  /** The loop ends early only at a chapter whose download did not save. */
  lemma {:induction false} StopsOnlyOnFailedDownload(plans: seq<Plan>, chapters: seq<Chapter>, dir: map<string, Cbz.CbzFile>,
                                                     download: nat -> DownloadResult, n: nat)
    requires n <= |chapters| && |plans| == |chapters|
    ensures var st := SyncUpTo(plans, chapters, dir, download, n);
      !st.outcome.Completed? ==> st.visited >= 1 && download(st.visited - 1) != Saved
  {
    if n > 0 {
      StopsOnlyOnFailedDownload(plans, chapters, dir, download, n - 1);
      var st := SyncUpTo(plans, chapters, dir, download, n - 1);
      if st.outcome.Completed? {
        OneUpdatePerChapter(plans, chapters, dir, download, n - 1);
        ApplyPlanFacts(plans[n - 1], chapters[n - 1], n - 1, st, download);
      }
    }
  }

  /** After a chapter is saved, its archive is the only file of that chapter id left. */
  lemma SavedChapterHasNoDuplicates(plans: seq<Plan>, chapters: seq<Chapter>, dir: map<string, Cbz.CbzFile>,
                                    download: nat -> DownloadResult, i: nat)
    requires i < |chapters| == |plans| && download(i) == Saved
    requires SyncUpTo(plans, chapters, dir, download, i).outcome.Completed?
    requires plans[i].Candidate?
    requires var st := SyncUpTo(plans, chapters, dir, download, i); var plan := plans[i];
      !(plan.filename in st.dir && st.dir[plan.filename].mtime >= chapters[i].updatedAt)
    ensures var plan := plans[i];
      var after := SyncUpTo(plans, chapters, dir, download, i + 1).dir;
      && plan.filename in after
      && after[plan.filename].mtime >= chapters[i].updatedAt
      && after[plan.filename] == Cbz.CbzFile(chapters[i].updatedAt, plan.info)
      && (forall f :: f in after && f != plan.filename ==> !DuplicateName(f, chapters[i].id))
      && (forall f :: f in after ==> f == plan.filename || f in SyncUpTo(plans, chapters, dir, download, i).dir)
      && forall f :: f in SyncUpTo(plans, chapters, dir, download, i).dir && f != plan.filename
                     && !DuplicateName(f, chapters[i].id) ==>
           f in after && after[f] == SyncUpTo(plans, chapters, dir, download, i).dir[f]
  {
  }

  /** An archive at least as new as the chapter's `updatedAt` is skipped: nothing is downloaded or removed. */
  lemma UpToDateSkipped(plans: seq<Plan>, chapters: seq<Chapter>, dir: map<string, Cbz.CbzFile>,
                        download: nat -> DownloadResult, i: nat)
    requires i < |chapters| == |plans| && plans[i].Candidate?
    requires SyncUpTo(plans, chapters, dir, download, i).outcome.Completed?
    requires var st := SyncUpTo(plans, chapters, dir, download, i);
      plans[i].filename in st.dir && st.dir[plans[i].filename].mtime >= chapters[i].updatedAt
    ensures var next := SyncUpTo(plans, chapters, dir, download, i + 1);
      next.dir == SyncUpTo(plans, chapters, dir, download, i).dir && next.outcome.Completed?
  {
  }

  /** A skipped chapter leaves the directory as it was. */
  lemma SkipLeavesDirectory(plans: seq<Plan>, chapters: seq<Chapter>, dir: map<string, Cbz.CbzFile>,
                            download: nat -> DownloadResult, i: nat)
    requires i < |chapters| == |plans| && plans[i].Skip?
    ensures SyncUpTo(plans, chapters, dir, download, i + 1).dir == SyncUpTo(plans, chapters, dir, download, i).dir
  {
  }
}
