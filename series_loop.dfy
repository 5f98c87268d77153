/**
 * The chapter loop that `WeebCentral.download_manga` and
 * `MangaSee.download_manga` share: entries are visited newest last, each
 * visit issues one progress update naming the chapter, filtered entries and
 * archives at least as new as the entry are skipped, a saved archive gets
 * the entry's time as its modification time, and the first failed download
 * ends the series. What each source filters on is decided before this loop
 * runs, as one `Visit` per entry.
 */
module SeriesLoop {
  import opened Common
  import Cbz

  /** The `since` argument: "auto", a calendar date, a point in time (seconds), or none. */
  datatype Since = Auto | OnDate(date: Date) | At(time: int) | NoSince

  /**
   * Days from 1 March of year 0 to 1 March of year `y` in the proleptic
   * Gregorian calendar, counted in 400-year eras.
   */
  function MarchDays(y: int): int
  {
    var era := y / 400;
    var yoe := y - era * 400;
    era * 146097 + yoe * 365 + yoe / 4 - yoe / 100
  }

  /** Days from 1 March to the first of month `m`, in a year that starts in March. */
  function MonthStart(m: int): int
  {
    (153 * ((m + 9) % 12) + 2) / 5
  }

  /** Days since the epoch of the date `d`; January and February count with the year before. */
  function DayNumber(d: Date): int
  {
    var y := if d.month <= 2 then d.year - 1 else d.year;
    MarchDays(y) + MonthStart(d.month) + d.day - 1 - 719468
  }

  /** Seconds since the epoch of midnight UTC at the start of `d`. */
  function MidnightUtc(d: Date): int
  {
    DayNumber(d) * 86400
  }

  predicate LeapYear(y: int)
  {
    y % 4 == 0 && (y % 100 != 0 || y % 400 == 0)
  }

  function DaysInMonth(y: int, m: int): int
    requires 1 <= m <= 12
  {
    if m == 2 then (if LeapYear(y) then 29 else 28)
    else if m == 4 || m == 6 || m == 9 || m == 11 then 30
    else 31
  }

  /** A date Python's `date` accepts. */
  predicate ValidDate(d: Date)
  {
    1 <= d.month <= 12 && 1 <= d.day <= DaysInMonth(d.year, d.month)
  }

  /** The calendar day after `d`. */
  function NextDay(d: Date): (n: Date)
    requires ValidDate(d)
    ensures ValidDate(n)
  {
    if d.day < DaysInMonth(d.year, d.month) then d.(day := d.day + 1)
    else if d.month < 12 then Date(d.year, d.month + 1, 1)
    else Date(d.year + 1, 1, 1)
  }

  lemma EraArithmetic(y: int)
    ensures y - (y / 400) * 400 == y % 400
    ensures y % 4 == (y % 400) % 4 && y % 100 == (y % 400) % 100
    ensures (y - 1) / 400 == (if y % 400 == 0 then y / 400 - 1 else y / 400)
    ensures (y - 1) % 400 == (if y % 400 == 0 then 399 else y % 400 - 1)
  {
  }

  lemma YearOfEra(r: int)
    requires 0 < r < 400
    ensures r / 4 - (r - 1) / 4 == (if r % 4 == 0 then 1 else 0)
    ensures r / 100 - (r - 1) / 100 == (if r % 100 == 0 then 1 else 0)
  {
  }

  /** A year running from 1 March has 366 days when its February, in the next calendar year `y`, has 29. */
  lemma {:induction false} MarchYear(y: int)
    ensures MarchDays(y) - MarchDays(y - 1) == if LeapYear(y) then 366 else 365
  {
    EraArithmetic(y);
    EraArithmetic(y - 1);
    var r := y % 400;
    if r != 0 {
      YearOfEra(r);
    }
  }

  /** Consecutive calendar days have consecutive day numbers, across month and year ends and leap days. */
  lemma NextDayNumber(d: Date)
    requires ValidDate(d)
    ensures DayNumber(NextDay(d)) == DayNumber(d) + 1
  {
    if d.day < DaysInMonth(d.year, d.month) {
      assert NextDay(d) == d.(day := d.day + 1);
    } else if d.month == 2 {
      EndOfFebruary(d);
    } else {
      EndOfLongMonth(d);
    }
  }

  /** 1 March follows the last day of February, 28th or 29th. */
  lemma EndOfFebruary(d: Date)
    requires ValidDate(d) && d.month == 2 && d.day == DaysInMonth(d.year, 2)
    ensures DayNumber(NextDay(d)) == DayNumber(d) + 1
  {
    MarchYear(d.year);
    MonthStarts();
    assert NextDay(d) == Date(d.year, 3, 1);
  }

  /** The first of the next month, or 1 January, follows the last day of any other month. */
  lemma EndOfLongMonth(d: Date)
    requires ValidDate(d) && d.month != 2 && d.day == DaysInMonth(d.year, d.month)
    ensures DayNumber(NextDay(d)) == DayNumber(d) + 1
  {
    MonthStarts();
  }

  /** The first of each month, counted in days from 1 March. */
  lemma MonthStarts()
    ensures MonthStart(1) == 306 && MonthStart(2) == 337 && MonthStart(3) == 0 && MonthStart(4) == 31
    ensures MonthStart(5) == 61 && MonthStart(6) == 92 && MonthStart(7) == 122 && MonthStart(8) == 153
    ensures MonthStart(9) == 184 && MonthStart(10) == 214 && MonthStart(11) == 245 && MonthStart(12) == 275
  {
  }

  /** Midnight of the next calendar day is exactly one day of seconds later. */
  lemma NextMidnight(d: Date)
    requires ValidDate(d)
    ensures MidnightUtc(NextDay(d)) == MidnightUtc(d) + 86400
  {
    NextDayNumber(d);
  }

  /** The comparison time: the newest file time for "auto", midnight UTC for a date, none for none. */
  function SinceTime(since: Since, mostRecent: Option<int>): (r: Option<int>)
    ensures since.Auto? ==> r == mostRecent
    ensures since.OnDate? ==> r == Some(MidnightUtc(since.date))
    ensures since.At? ==> r == Some(since.time)
    ensures since.NoSince? ==> r.None?
  {
    match since
    case Auto => mostRecent
    case OnDate(date) => Some(MidnightUtc(date))
    case At(time) => Some(time)
    case NoSince => None
  }

  /** Midnight UTC of 1 January 1970 is the epoch. */
  lemma MidnightOfEpoch()
    ensures MidnightUtc(Date(1970, 1, 1)) == 0
  {
    assert 1969 / 400 == 4 && (1 + 9) % 12 == 10 && (153 * 10 + 2) / 5 == 306;
    assert 369 / 4 == 92 && 369 / 100 == 3;
  }

  /** The day before the epoch starts one day earlier. */
  lemma MidnightBeforeEpoch()
    ensures MidnightUtc(Date(1969, 12, 31)) == -86400
  {
    assert 1969 / 400 == 4 && (12 + 9) % 12 == 9 && (153 * 9 + 2) / 5 == 275;
    assert 369 / 4 == 92 && 369 / 100 == 3;
  }

  /**
   * `from_chapter` skips a chapter only when its number reads as a number
   * below the bound; an empty or non-numeric number is never skipped.
   */
  predicate SkippedByFrom(fromChapter: Option<int>, number: string)
  {
    fromChapter.Some? && ParseNumber(number).Some? && ParseNumber(number).value < fromChapter.value
  }

  /** `since` is exclusive: an entry at or before the comparison time is skipped. */
  predicate SkippedBySince(since: Option<int>, updated: int)
  {
    since.Some? && since.value >= updated
  }

  datatype DownloadResult = Saved | Failed

  datatype Progress = Length(n: nat) | Step(chapter: string)

  datatype Outcome = Completed | Stopped

  /** What the loop does with an entry once the filters have decided. */
  datatype Plan = Skip | Candidate(filename: string, info: seq<(string, Cbz.Value)>, updated: int)

  /** One entry of the loop: the number its progress update names, and its plan. */
  datatype Visit = Visit(number: string, plan: Plan)

  datatype SyncState = SyncState(dir: map<string, Cbz.CbzFile>, events: seq<Progress>, outcome: Outcome, visited: nat)

  /** One pass of the loop body for the `k`-th entry visited. */
  function ApplyVisit(v: Visit, k: nat, st: SyncState, download: nat -> DownloadResult): SyncState
  {
    var done := st.(events := st.events + [Step(v.number)], visited := st.visited + 1);
    match v.plan
    case Skip => done
    case Candidate(filename, info, updated) =>
      if filename in st.dir && st.dir[filename].mtime >= updated then done
      else if download(k) == Saved then done.(dir := st.dir[filename := Cbz.CbzFile(updated, info)])
      else done.(outcome := Stopped)
  }

  /** The loop over the first `n` entries; a failed download ends it. */
  function SyncUpTo(visits: seq<Visit>, dir: map<string, Cbz.CbzFile>, download: nat -> DownloadResult, n: nat): SyncState
    requires n <= |visits|
  {
    if n == 0 then SyncState(dir, [Length(|visits|)], Completed, 0)
    else
      var st := SyncUpTo(visits, dir, download, n - 1);
      if st.outcome.Completed? then ApplyVisit(visits[n - 1], n - 1, st, download) else st
  }

  /** The loop body: the up-to-date check, then the download. */
  method VisitEntry(v: Visit, k: nat, dir: map<string, Cbz.CbzFile>, events: seq<Progress>,
                    download: nat -> DownloadResult)
    returns (dir': map<string, Cbz.CbzFile>, events': seq<Progress>, outcome: Outcome)
    ensures SyncState(dir', events', outcome, k + 1) == ApplyVisit(v, k, SyncState(dir, events, Completed, k), download)
  {
    dir', events', outcome := dir, events + [Step(v.number)], Completed;
    if v.plan.Skip? {
      return;
    }
    var filename := v.plan.filename;
    if filename in dir && dir[filename].mtime >= v.plan.updated {
      return;
    }
    if download(k) == Saved {
      dir' := dir[filename := Cbz.CbzFile(v.plan.updated, v.plan.info)];
    } else {
      outcome := Stopped;
    }
  }

  /** The entries in visiting order, last listed first, each decided by `visitOf`. */
  function Visits<E>(entries: seq<E>, visitOf: E -> Visit): (r: seq<Visit>)
    ensures |r| == |entries|
    ensures forall k :: 0 <= k < |entries| ==> r[k] == visitOf(entries[|entries| - 1 - k])
  {
    if entries == [] then []
    else [visitOf(entries[|entries| - 1])] + Visits(entries[..|entries| - 1], visitOf)
  }

  /**
   * The loop of `download_manga` over `reversed(entries)`: the length
   * first, then one visit per entry until a download fails. The result is
   * `SyncUpTo` over all entries.
   */
  method DownloadSeries<E>(entries: seq<E>, visitOf: E -> Visit, dir: map<string, Cbz.CbzFile>,
                           download: nat -> DownloadResult)
    returns (dir': map<string, Cbz.CbzFile>, events: seq<Progress>, outcome: Outcome)
    ensures var st := SyncUpTo(Visits(entries, visitOf), dir, download, |entries|);
      dir' == st.dir && events == st.events && outcome == st.outcome
  {
    ghost var visits := Visits(entries, visitOf);
    dir', events := dir, [Length(|entries|)];
    var k := 0;
    while k < |entries|
      invariant k <= |entries|
      invariant SyncUpTo(visits, dir, download, k) == SyncState(dir', events, Completed, k)
    {
      var v := visitOf(entries[|entries| - 1 - k]);
      var d, e, o := VisitEntry(v, k, dir', events, download);
      if o.Stopped? {
        StopIsFinal(visits, dir, download, k + 1, |entries|);
        return d, e, o;
      }
      dir', events, k := d, e, k + 1;
    }
    outcome := Completed;
  }

  /** Once the loop has stopped, later entries change nothing. */
  lemma {:induction false} StopIsFinal(visits: seq<Visit>, dir: map<string, Cbz.CbzFile>,
                                       download: nat -> DownloadResult, n: nat, m: nat)
    requires n <= m <= |visits|
    requires SyncUpTo(visits, dir, download, n).outcome.Stopped?
    ensures SyncUpTo(visits, dir, download, m) == SyncUpTo(visits, dir, download, n)
    decreases m - n
  {
    if n < m {
      StopIsFinal(visits, dir, download, n, m - 1);
    }
  }

  /**
   * After the initial length, one progress update per entry reached, in
   * visiting order and naming that entry's chapter; every entry is reached
   * unless a download fails.
   */
  lemma {:induction false} OneUpdatePerEntry(visits: seq<Visit>, dir: map<string, Cbz.CbzFile>,
                                             download: nat -> DownloadResult, n: nat)
    requires n <= |visits|
    ensures var st := SyncUpTo(visits, dir, download, n);
      && st.visited <= n && |st.events| == st.visited + 1
      && st.events[0] == Length(|visits|)
      && (forall k :: 0 <= k < st.visited ==> st.events[k + 1] == Step(visits[k].number))
      && (st.outcome.Completed? ==> st.visited == n)
  {
    if n > 0 {
      OneUpdatePerEntry(visits, dir, download, n - 1);
    }
  }

  /** The loop ends early only at an entry whose download failed, and that entry still gets its update. */
  lemma {:induction false} StopsOnlyOnFailedDownload(visits: seq<Visit>, dir: map<string, Cbz.CbzFile>,
                                                     download: nat -> DownloadResult, n: nat)
    requires n <= |visits|
    ensures var st := SyncUpTo(visits, dir, download, n);
      st.outcome.Stopped? ==> 1 <= st.visited <= n && visits[st.visited - 1].plan.Candidate? && download(st.visited - 1) == Failed
  {
    if n > 0 {
      var st := SyncUpTo(visits, dir, download, n - 1);
      if st.outcome.Completed? {
        OneUpdatePerEntry(visits, dir, download, n - 1);
        StopsAtItsEntry(visits[n - 1], n - 1, st, download);
      } else {
        StopsOnlyOnFailedDownload(visits, dir, download, n - 1);
      }
    }
  }

  /** A visit stops the loop only when its own download fails. */
  lemma StopsAtItsEntry(v: Visit, k: nat, st: SyncState, download: nat -> DownloadResult)
    requires st.outcome.Completed?
    ensures var st' := ApplyVisit(v, k, st, download);
      st'.visited == st.visited + 1 && (st'.outcome.Stopped? ==> v.plan.Candidate? && download(k) == Failed)
  {
  }

  /**
   * No archive is ever removed, and every archive that differs from before
   * was saved by a reached entry whose download succeeded, with that
   * entry's manifest and time.
   */
  lemma {:induction false} ArchivesComeFromSavedEntries(visits: seq<Visit>, dir: map<string, Cbz.CbzFile>,
                                                        download: nat -> DownloadResult, n: nat)
    requires n <= |visits|
    ensures var d := SyncUpTo(visits, dir, download, n).dir;
      && dir.Keys <= d.Keys
      && forall f :: f in d && (f !in dir || d[f] != dir[f]) ==>
           exists k :: 0 <= k < n && visits[k].plan.Candidate? && visits[k].plan.filename == f
             && download(k) == Saved && d[f] == Cbz.CbzFile(visits[k].plan.updated, visits[k].plan.info)
  {
    if n > 0 {
      ArchivesComeFromSavedEntries(visits, dir, download, n - 1);
    }
  }

  /** An archive at least as new as its entry is left as it is. */
  lemma {:induction false} UpToDateArchiveKept(visits: seq<Visit>, dir: map<string, Cbz.CbzFile>,
                                               download: nat -> DownloadResult, n: nat, f: string)
    requires n <= |visits| && f in dir
    requires forall k :: 0 <= k < n && visits[k].plan.Candidate? && visits[k].plan.filename == f ==>
               dir[f].mtime >= visits[k].plan.updated
    ensures var d := SyncUpTo(visits, dir, download, n).dir; f in d && d[f] == dir[f]
  {
    if n > 0 {
      UpToDateArchiveKept(visits, dir, download, n - 1, f);
    }
  }
}
