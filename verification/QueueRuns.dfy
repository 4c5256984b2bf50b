/**
 Runs of the event queue: what every sequence of enqueues leaves on disk, as long
 as file names sort in the order of time and the clock advances before each new file.
 */
module QueueRuns {
  import opened Prelude
  import opened QueueNames
  import opened EventQueue

  /** The files of a directory, oldest first. */
  ghost function FilesOf(dir: Directory): (fs: seq<File>)
    ensures |fs| == |Listing(dir.Keys)|
  {
    var files := Listing(dir.Keys);
    seq(|files|, i requires 0 <= i < |files| => FileAt(dir, files, i))
  }

  ghost function FileAt(dir: Directory, files: seq<nat>, i: nat): File
    requires i < |files| && Elements(files) == dir.Keys
  {
    assert files[i] in Elements(files);
    dir[files[i]]
  }

  ghost function Contents(fs: seq<File>): seq<Line> {
    if fs == [] then [] else Contents(fs[..|fs| - 1]) + fs[|fs| - 1].lines
  }

  // ----- suffixes -----

  ghost predicate Suffix<T>(a: seq<T>, b: seq<T>) {
    |a| <= |b| && a == b[|b| - |a|..]
  }

  lemma SuffixTransitive<T>(a: seq<T>, b: seq<T>, c: seq<T>)
    requires Suffix(a, b) && Suffix(b, c)
    ensures Suffix(a, c)
  {
  }

  lemma SuffixAppend<T>(a: seq<T>, b: seq<T>, x: seq<T>)
    requires Suffix(a, b)
    ensures Suffix(a + x, b + x)
  {
  }

  lemma {:induction false} DropIsSuffix(fs: seq<File>, k: nat)
    requires k <= |fs|
    ensures Suffix(Contents(fs[k..]), Contents(fs))
  {
    if k < |fs| {
      var n := |fs| - 1;
      DropIsSuffix(fs[..n], k);
      assert fs[k..][..|fs[k..]| - 1] == fs[..n][k..];
      SuffixAppend(Contents(fs[..n][k..]), Contents(fs[..n]), fs[n].lines);
    }
  }

  // ----- the invariant of the file list -----

  ghost predicate AllEvents(lines: seq<Line>) {
    forall l :: l in lines ==> l.Event?
  }

  /** At most ten files, all full but the newest, and a tenth file only just begun. */
  ghost predicate ListInv(fs: seq<File>) {
    && |fs| <= MAX_QUEUE_FILES
    && (forall i :: 0 <= i < |fs| ==> AllEvents(fs[i].lines) && 1 <= |fs[i].lines| <= MAX_EVENTS_PER_FILE)
    && (forall i :: 0 <= i < |fs| - 1 ==> |fs[i].lines| == MAX_EVENTS_PER_FILE)
    && (|fs| == MAX_QUEUE_FILES ==> |fs[|fs| - 1].lines| == 1)
  }

  /** The file list after an enqueue that prunes the `k` oldest files. */
  ghost function NextFiles(fs: seq<File>, k: nat, line: Line, now: nat): seq<File>
    requires k <= |fs|
  {
    AppendLine(Newest(fs[k..]), line, now)
  }

  /** The newest files, so that one more fits. */
  ghost function Newest(fs: seq<File>): seq<File> {
    if |fs| >= MAX_QUEUE_FILES then fs[|fs| + 1 - MAX_QUEUE_FILES..] else fs
  }

  ghost function AppendLine(fs: seq<File>, line: Line, now: nat): seq<File> {
    var n := |fs| - 1;
    if fs != [] && |fs[n].lines| < MAX_EVENTS_PER_FILE then fs[n := File(fs[n].lines + [line], now)]
    else fs + [File([line], now)]
  }

  lemma {:induction false} ContentsSize(fs: seq<File>)
    requires forall i :: 0 <= i < |fs| ==> |fs[i].lines| == MAX_EVENTS_PER_FILE
    ensures |Contents(fs)| == |fs| * MAX_EVENTS_PER_FILE
  {
    if fs != [] {
      ContentsSize(fs[..|fs| - 1]);
    }
  }

  /** How many events a file list holds. */
  lemma TotalSize(fs: seq<File>)
    requires ListInv(fs)
    ensures |Contents(fs)| == if fs == [] then 0 else (|fs| - 1) * MAX_EVENTS_PER_FILE + |fs[|fs| - 1].lines|
    ensures |Contents(fs)| <= 9001
  {
    if fs != [] {
      ContentsSize(fs[..|fs| - 1]);
    }
  }

  lemma AppendLineContents(fs: seq<File>, line: Line, now: nat)
    ensures Contents(AppendLine(fs, line, now)) == Contents(fs) + [line]
  {
  }

  lemma DropKeepsInv(fs: seq<File>, k: nat)
    requires ListInv(fs) && k <= |fs|
    ensures ListInv(fs[k..])
  {
  }

  lemma NextKeepsInv(fs: seq<File>, k: nat, line: Line, now: nat)
    requires ListInv(fs) && k <= |fs| && line.Event?
    ensures ListInv(NextFiles(fs, k, line, now))
    ensures Suffix(Contents(NextFiles(fs, k, line, now)), Contents(fs) + [line])
  {
    var pruned := fs[k..];
    var m := if |pruned| >= MAX_QUEUE_FILES then |pruned| + 1 - MAX_QUEUE_FILES else 0;
    var kept := pruned[m..];
    assert m == 0 ==> kept == pruned;
    DropKeepsInv(fs, k);
    DropKeepsInv(pruned, m);
    AppendKeepsInv(kept, line, now);
    DropIsSuffix(fs, k);
    DropIsSuffix(pruned, m);
    SuffixTransitive(Contents(kept), Contents(pruned), Contents(fs));
    SuffixAppend(Contents(kept), Contents(fs), [line]);
    AppendLineContents(kept, line, now);
  }

  lemma AppendKeepsInv(fs: seq<File>, line: Line, now: nat)
    requires ListInv(fs) && |fs| < MAX_QUEUE_FILES && line.Event?
    ensures ListInv(AppendLine(fs, line, now))
  {
    var after := AppendLine(fs, line, now);
    forall i | 0 <= i < |after| ensures AllEvents(after[i].lines) {
      if i < |fs| {
        assert AllEvents(fs[i].lines);
      }
    }
  }

  // ----- what is lost, and when -----

  /** File `j` was last modified when its last event was enqueued. */
  ghost predicate DatedAt(fs: seq<File>, events: seq<(Request, nat)>, j: nat)
    requires j < |fs|
  {
    var later := |Contents(fs[j + 1..])|;
    later < |events| && fs[j].modified == events[|events| - 1 - later].1
  }

  ghost predicate Dated(fs: seq<File>, events: seq<(Request, nat)>) {
    forall j :: 0 <= j < |fs| ==> DatedAt(fs, events, j)
  }

  lemma DropDated(fs: seq<File>, k: nat, events: seq<(Request, nat)>)
    requires k <= |fs| && Dated(fs, events)
    ensures Dated(fs[k..], events)
  {
    hide Contents;
    forall j | 0 <= j < |fs[k..]| ensures DatedAt(fs[k..], events, j) {
      assert fs[k..][j + 1..] == fs[k + j + 1..];
      assert DatedAt(fs, events, k + j);
    }
  }

  lemma AppendDated(fs: seq<File>, line: Line, events: seq<(Request, nat)>, event: (Request, nat))
    requires Dated(fs, events)
    ensures Dated(AppendLine(fs, line, event.1), events + [event])
  {
    hide Contents;
    var after := AppendLine(fs, line, event.1);
    NoContents();
    forall j | 0 <= j < |after| ensures DatedAt(after, events + [event], j) {
      if j == |after| - 1 {
        assert after[j + 1..] == [];
      } else {
        assert after[j + 1..] == AppendLine(fs[j + 1..], line, event.1);
        AppendLineContents(fs[j + 1..], line, event.1);
        assert DatedAt(fs, events, j);
      }
    }
  }

  lemma NextDated(fs: seq<File>, k: nat, line: Line, events: seq<(Request, nat)>, event: (Request, nat))
    requires k <= |fs| && Dated(fs, events)
    ensures Dated(NextFiles(fs, k, line, event.1), events + [event])
  {
    hide Dated, AppendLine;
    var pruned := fs[k..];
    var m := if |pruned| >= MAX_QUEUE_FILES then |pruned| + 1 - MAX_QUEUE_FILES else 0;
    assert m == 0 ==> pruned[m..] == pruned;
    DropDated(fs, k, events);
    DropDated(pruned, m, events);
    AppendDated(pruned[m..], line, events, event);
  }

  /** A run whose age pruning never removed a file. */
  ghost predicate NeverPrunes(events: seq<(Request, nat)>) {
    forall i :: 0 <= i < |events| ==> Pruned(AfterRun(events[..i]), events[i].1) == AfterRun(events[..i])
  }

  /** With `kept` events left: none is lost, or 8002 are left, or the newest lost one is past the pruning age. */
  ghost predicate LossJustified(events: seq<(Request, nat)>, kept: nat) {
    || kept == |events|
    || kept >= 8002
    || (kept < |events| && events[|events| - 1].1 - events[|events| - 1 - kept].1 > PRUNE_AGE && !NeverPrunes(events))
  }

  /** What one enqueue loses is justified, if what was lost before is. */
  lemma {:induction false} NextJustified(fs: seq<File>, k: nat, line: Line, events: seq<(Request, nat)>, event: (Request, nat))
    requires ListInv(fs) && Dated(fs, events) && |Contents(fs)| <= |events| && LossJustified(events, |Contents(fs)|)
    requires k <= |fs| && (k > 0 ==> Stale(fs[k - 1], event.1) && !NeverPrunes(events + [event]))
    requires events != [] ==> events[|events| - 1].1 <= event.1
    requires NeverPrunes(events + [event]) ==> NeverPrunes(events)
    ensures LossJustified(events + [event], |Contents(NextFiles(fs, k, line, event.1))|)
  {
    hide NeverPrunes, Contents, AppendLine;
    var pruned, kept := fs[k..], Newest(fs[k..]);
    AppendLineContents(kept, line, event.1);
    if |pruned| >= MAX_QUEUE_FILES {
      NewestOfTen(fs, k);
    } else if k > 0 {
      assert DatedAt(fs, events, k - 1);
      assert fs[k - 1 + 1..] == pruned;
    } else {
      assert kept == fs;
    }
  }

  /** Dropping the oldest of ten files leaves 8001 events. */
  lemma NewestOfTen(fs: seq<File>, k: nat)
    requires ListInv(fs) && k <= |fs| && |fs[k..]| >= MAX_QUEUE_FILES
    ensures |Contents(Newest(fs[k..]))| == 8001
  {
    hide Contents;
    assert Newest(fs[k..]) == fs[1..];
    DropKeepsInv(fs, 1);
    TotalSize(fs[1..]);
  }

  /** Whatever is recent, both in count and in age, is still there. */
  lemma {:induction false} RecentKept(events: seq<(Request, nat)>, kept: nat, i: nat)
    requires i < |events| && LossJustified(events, kept)
    requires forall i, j :: 0 <= i < j < |events| ==> events[i].1 <= events[j].1
    requires |events| - i <= 8002 && events[|events| - 1].1 <= events[i].1 + 604_800_000
    ensures kept >= |events| - i
  {
    hide NeverPrunes;
  }

  // ----- directories whose listing is chronological -----

  ghost predicate DirInv(dir: Directory, clock: nat, stamps: set<nat>) {
    && (forall s :: s in dir ==> s in stamps && s <= clock && dir[s].modified <= clock)
    && ByTime(FilesOf(dir))
    && ListInv(FilesOf(dir))
  }

  ghost predicate ByTime(fs: seq<File>) {
    forall i, j :: 0 <= i < j < |fs| ==> fs[i].modified <= fs[j].modified
  }

  /** Dropping the oldest files of a listing leaves the rest of the listing. */
  lemma DropListing(dir: Directory, kept: Directory, k: nat)
    requires k <= |Listing(dir.Keys)|
    requires kept == dir - Elements(Listing(dir.Keys)[..k])
    ensures Listing(kept.Keys) == Listing(dir.Keys)[k..]
    ensures FilesOf(kept) == FilesOf(dir)[k..]
  {
    hide Before, Listing, Elements, FilesOf;
    var files := Listing(dir.Keys);
    ListedDistinct(files);
    DropElements(files, k);
    assert kept.Keys == Elements(files[k..]);
    ListingUnique(files[k..], Listing(kept.Keys));
    DropFiles(dir, kept, k);
  }

  lemma DropElements(files: seq<nat>, k: nat)
    requires Distinct(files) && k <= |files|
    ensures Elements(files[k..]) == Elements(files) - Elements(files[..k])
  {
  }

  lemma ElementsMember(files: seq<nat>, i: nat)
    requires i < |files|
    ensures files[i] in Elements(files)
  {
  }

  lemma DropFiles(dir: Directory, kept: Directory, k: nat)
    requires k <= |Listing(dir.Keys)| && Listing(kept.Keys) == Listing(dir.Keys)[k..]
    requires forall s :: s in kept ==> s in dir && kept[s] == dir[s]
    ensures FilesOf(kept) == FilesOf(dir)[k..]
  {
    hide Listing, Elements;
    var files := Listing(kept.Keys);
    forall i | 0 <= i < |files| ensures FilesOf(kept)[i] == FilesOf(dir)[k + i] {
      ElementsMember(files, i);
    }
  }

  /** Files are stamped by age, so pruning removes a prefix of the listing. */
  lemma PrunedFiles(dir: Directory, clock: nat, stamps: set<nat>, now: nat) returns (k: nat)
    requires DirInv(dir, clock, stamps) && clock <= now
    ensures k <= |FilesOf(dir)| && FilesOf(Pruned(dir, now)) == FilesOf(dir)[k..]
    ensures Pruned(dir, now) == dir - Elements(Listing(dir.Keys)[..k])
    ensures k > 0 ==> Stale(FilesOf(dir)[k - 1], now) && Pruned(dir, now) != dir
  {
    hide Before, Listing, ListInv;
    var fs := FilesOf(dir);
    k := 0;
    while k < |fs| && Stale(fs[k], now)
      invariant k <= |fs|
      invariant forall i :: 0 <= i < k ==> Stale(fs[i], now)
    {
      k := k + 1;
    }
    PrunedIsDrop(dir, now, k);
    DropListing(dir, Pruned(dir, now), k);
  }

  lemma PrunedIsDrop(dir: Directory, now: nat, k: nat)
    requires ByTime(FilesOf(dir)) && k <= |FilesOf(dir)|
    requires forall i :: 0 <= i < k ==> Stale(FilesOf(dir)[i], now)
    requires k < |FilesOf(dir)| ==> !Stale(FilesOf(dir)[k], now)
    ensures Pruned(dir, now) == dir - Elements(Listing(dir.Keys)[..k])
  {
    hide Before, Listing;
    var files, fs := Listing(dir.Keys), FilesOf(dir);
    forall s | s in dir ensures Stale(dir[s], now) <==> s in Elements(files[..k]) {
      assert s in Elements(files);
      var i :| 0 <= i < |files| && files[i] == s;
      assert fs[i] == dir[s];
      if i < k {
        assert files[..k][i] == s;
      } else {
        ListedDistinct(files);
        assert s !in files[..k];
        assert !Stale(fs[i], now);
      }
    }
  }

  lemma LimitedFiles(dir: Directory)
    ensures FilesOf(Limited(dir)) == Newest(FilesOf(dir))
  {
    hide Listing;
    var n := |FilesOf(dir)|;
    if n >= MAX_QUEUE_FILES {
      DropListing(dir, Limited(dir), n + 1 - MAX_QUEUE_FILES);
    }
  }

  lemma RewriteFile(dir: Directory, i: nat, f: File)
    requires i < |FilesOf(dir)|
    ensures Listing(dir.Keys)[i] in dir
    ensures FilesOf(dir[Listing(dir.Keys)[i] := f]) == FilesOf(dir)[i := f]
  {
    hide Before, Listing;
    var files := Listing(dir.Keys);
    assert files[i] in Elements(files);
    assert dir[files[i] := f].Keys == dir.Keys;
    ListedDistinct(files);
  }

  lemma NewStampFiles(dir: Directory, stamps: set<nat>, now: nat, f: File)
    requires Chronological(stamps) && now !in dir && now in stamps
    requires forall s :: s in dir ==> s in stamps && s <= now
    ensures FilesOf(dir[now := f]) == FilesOf(dir) + [f]
  {
    hide Before, Listing;
    var files := Listing(dir.Keys);
    var longer := files + [now];
    forall i | 0 <= i < |files| ensures Before(files[i], now) {
      assert files[i] in Elements(files);
    }
    ElementsSnoc(files, now);
    assert Listed(longer);
    assert Elements(longer) == dir[now := f].Keys;
    ListingUnique(longer, Listing(dir[now := f].Keys));
    forall i | 0 <= i < |files| ensures FilesOf(dir[now := f])[i] == FilesOf(dir)[i] {
      assert files[i] in Elements(files);
    }
  }

  lemma {:induction false} EventsNonBlank(lines: seq<Line>)
    requires AllEvents(lines)
    ensures NonBlank(lines) == |lines|
  {
    if lines != [] {
      assert lines[0] in lines;
      EventsNonBlank(lines[1..]);
    }
  }

  // ----- one enqueue -----

  /** Whether an enqueue into `kept` starts a new file. */
  ghost predicate Rotates(kept: Directory) {
    var files := Listing(kept.Keys);
    files == [] || (assert files[|files| - 1] in Elements(files); NonBlank(kept[files[|files| - 1]].lines) >= MAX_EVENTS_PER_FILE)
  }

  /** A new file gets a stamp of its own. */
  ghost predicate ClockAdvances(dir: Directory, now: nat) {
    var kept := Limited(Pruned(dir, now));
    Rotates(kept) ==> now !in kept
  }

  lemma AppendedFiles(kept: Directory, stamps: set<nat>, line: Line, now: nat)
    requires ListInv(FilesOf(kept)) && Chronological(stamps) && now in stamps
    requires forall s :: s in kept ==> s in stamps && s <= now
    requires Rotates(kept) ==> now !in kept
    ensures FilesOf(Appended(kept, Target(kept, now), line, now)) == AppendLine(FilesOf(kept), line, now)
  {
    hide Listing, Before, Chronological;
    var files, fs := Listing(kept.Keys), FilesOf(kept);
    var n := |files| - 1;
    if files != [] {
      assert files[n] in Elements(files);
      assert fs[n] == kept[files[n]] && AllEvents(fs[n].lines);
      EventsNonBlank(fs[n].lines);
    }
    if Rotates(kept) {
      assert Target(kept, now) == now;
      NewStampFiles(kept, stamps, now, File([line], now));
      assert [] + [line] == [line];
    } else {
      assert Target(kept, now) == files[n];
      RewriteFile(kept, n, File(fs[n].lines + [line], now));
    }
  }

  /** An enqueue acts on the list of files, and keeps the directory in order. */
  lemma EnqueueStep(dir: Directory, clock: nat, stamps: set<nat>, request: Request, now: nat) returns (k: nat)
    requires Chronological(stamps) && DirInv(dir, clock, stamps) && clock <= now && now in stamps
    requires ClockAdvances(dir, now)
    ensures k <= |FilesOf(dir)| && (k > 0 ==> Stale(FilesOf(dir)[k - 1], now) && Pruned(dir, now) != dir)
    ensures FilesOf(Enqueued(dir, request, now)) == NextFiles(FilesOf(dir), k, Event(request), now)
    ensures DirInv(Enqueued(dir, request, now), now, stamps)
  {
    hide Listing, Before, Chronological, Stale, ListInv, ByTime, FilesOf, Pruned, Enqueued, ClockAdvances, NextFiles;
    var fs, line := FilesOf(dir), Event(request);
    k := EnqueueFiles(dir, clock, stamps, request, now);
    NextKeepsInv(fs, k, line, now);
    EnqueueTimes(dir, clock, stamps, request, now);
    FileTimes(dir, clock);
    ByTimeNext(fs, k, line, now);
  }

  lemma EnqueueFiles(dir: Directory, clock: nat, stamps: set<nat>, request: Request, now: nat) returns (k: nat)
    requires Chronological(stamps) && DirInv(dir, clock, stamps) && clock <= now && now in stamps
    requires ClockAdvances(dir, now)
    ensures k <= |FilesOf(dir)| && (k > 0 ==> Stale(FilesOf(dir)[k - 1], now) && Pruned(dir, now) != dir)
    ensures FilesOf(Enqueued(dir, request, now)) == NextFiles(FilesOf(dir), k, Event(request), now)
  {
    hide Listing, Before, Chronological, Stale, ListInv, ByTime, AppendLine, FilesOf, Pruned, Limited, Appended, Target, Rotates,
      Newest;
    k := PrunedFiles(dir, clock, stamps, now);
    LimitedFiles(Pruned(dir, now));
    CutKeepsInv(FilesOf(dir), k);
    KeptFiles(dir, now);
    AppendedFiles(Limited(Pruned(dir, now)), stamps, Event(request), now);
  }

  lemma EnqueueTimes(dir: Directory, clock: nat, stamps: set<nat>, request: Request, now: nat)
    requires forall s :: s in dir ==> s in stamps && s <= clock && dir[s].modified <= clock
    requires clock <= now && now in stamps
    ensures var after := Enqueued(dir, request, now);
            forall s :: s in after ==> s in stamps && s <= now && after[s].modified <= now
  {
    hide Pruned, Limited, Appended, Target;
    KeptFiles(dir, now);
    TimesAdvance(Limited(Pruned(dir, now)), clock, stamps, Event(request), now);
  }

  lemma CutKeepsInv(fs: seq<File>, k: nat)
    requires ListInv(fs) && k <= |fs|
    ensures ListInv(Newest(fs[k..]))
  {
    hide ListInv;
    DropKeepsInv(fs, k);
    var pruned := fs[k..];
    if |pruned| >= MAX_QUEUE_FILES {
      DropKeepsInv(pruned, |pruned| + 1 - MAX_QUEUE_FILES);
    }
  }

  /** The files an enqueue keeps are as they were. */
  lemma KeptFiles(dir: Directory, now: nat)
    ensures var kept := Limited(Pruned(dir, now)); forall s :: s in kept ==> s in dir && kept[s] == dir[s]
  {
    hide Listing, Before;
  }

  lemma FileTimes(dir: Directory, clock: nat)
    requires forall s :: s in dir ==> dir[s].modified <= clock
    ensures forall i :: 0 <= i < |FilesOf(dir)| ==> FilesOf(dir)[i].modified <= clock
  {
  }

  lemma ByTimeNext(fs: seq<File>, k: nat, line: Line, now: nat)
    requires k <= |fs| && ByTime(fs) && forall i :: 0 <= i < |fs| ==> fs[i].modified <= now
    ensures ByTime(NextFiles(fs, k, line, now))
  {
  }

  lemma TimesAdvance(kept: Directory, clock: nat, stamps: set<nat>, line: Line, now: nat)
    requires clock <= now && now in stamps
    requires forall s :: s in kept ==> s in stamps && s <= clock && kept[s].modified <= clock
    ensures var after := Appended(kept, Target(kept, now), line, now);
            forall s :: s in after ==> s in stamps && s <= now && after[s].modified <= now
  {
  }

  // ----- runs -----

  /** The directory after enqueuing requests at given times, starting empty. */
  ghost function AfterRun(events: seq<(Request, nat)>): Directory {
    if events == [] then map[]
    else
      var n := |events| - 1;
      Enqueued(AfterRun(events[..n]), events[n].0, events[n].1)
  }

  ghost function History(events: seq<(Request, nat)>): seq<Line> {
    seq(|events|, i requires 0 <= i < |events| => Event(events[i].0))
  }

  /** The clock shows stamps that sort by time, never goes back, and advances before each new file. */
  ghost predicate ClockOk(events: seq<(Request, nat)>, stamps: set<nat>) {
    && Chronological(stamps)
    && (forall i :: 0 <= i < |events| ==> events[i].1 in stamps)
    && (forall i, j :: 0 <= i < j < |events| ==> events[i].1 <= events[j].1)
    && (forall i :: 0 <= i < |events| ==> ClockAdvances(AfterRun(events[..i]), events[i].1))
  }

  ghost predicate RunInv(events: seq<(Request, nat)>, stamps: set<nat>) {
    var dir := AfterRun(events);
    && DirInv(dir, if events == [] then 0 else events[|events| - 1].1, stamps)
    && Suffix(Contents(FilesOf(dir)), History(events))
    && Dated(FilesOf(dir), events)
    && LossJustified(events, |Contents(FilesOf(dir))|)
  }

  lemma NoFiles()
    ensures FilesOf(map[]) == [] && ListInv([])
  {
    ElementsEmpty(Listing({}));
    var empty: Directory := map[];
    assert empty.Keys == {};
  }

  lemma {:induction false} RunKeepsInv(events: seq<(Request, nat)>, stamps: set<nat>)
    requires ClockOk(events, stamps)
    ensures RunInv(events, stamps)
  {
    hide Listing, Before, Chronological, ClockAdvances, DirInv, AfterRun, NeverPrunes;
    if events == [] {
      EmptyRun(stamps);
    } else {
      var n := |events| - 1;
      var before := events[..n];
      forall i | 0 <= i < n ensures before[..i] == events[..i] {
      }
      RunKeepsInv(before, stamps);
      RunStep(events);
      assert events == before + [events[n]];
      StepKeepsInv(before, events[n], stamps);
    }
  }

  lemma {:induction false} StepKeepsInv(events: seq<(Request, nat)>, event: (Request, nat), stamps: set<nat>)
    requires RunInv(events, stamps) && Chronological(stamps) && event.1 in stamps
    requires ClockAdvances(AfterRun(events), event.1)
    requires events != [] ==> events[|events| - 1].1 <= event.1
    requires AfterRun(events + [event]) == Enqueued(AfterRun(events), event.0, event.1)
    requires History(events + [event]) == History(events) + [Event(event.0)]
    ensures RunInv(events + [event], stamps)
  {
    hide Listing, Before, Chronological, ClockAdvances, FilesOf, Enqueued, ListInv, NextFiles, Contents, Suffix, History, Dated,
      LossJustified, NeverPrunes, AfterRun, Stale, Pruned;
    var dir, now, line, longer := AfterRun(events), event.1, Event(event.0), events + [event];
    var fs := FilesOf(dir);
    var k := EnqueueStep(dir, if events == [] then 0 else events[|events| - 1].1, stamps, event.0, now);
    NextKeepsInv(fs, k, line, now);
    SuffixSize(Contents(fs), History(events));
    HistorySize(events);
    SuffixAppend(Contents(fs), History(events), [line]);
    SuffixTransitive(Contents(NextFiles(fs, k, line, now)), Contents(fs) + [line], History(longer));
    NextDated(fs, k, line, events, event);
    NeverPrunesStep(events, event);
    NextJustified(fs, k, line, events, event);
  }

  lemma SuffixSize<T>(a: seq<T>, b: seq<T>)
    requires Suffix(a, b)
    ensures |a| <= |b|
  {
  }

  lemma HistorySize(events: seq<(Request, nat)>)
    ensures |History(events)| == |events|
  {
  }

  lemma NeverPrunesStep(events: seq<(Request, nat)>, event: (Request, nat))
    ensures NeverPrunes(events + [event]) ==> NeverPrunes(events) && Pruned(AfterRun(events), event.1) == AfterRun(events)
  {
    hide Pruned, AfterRun;
    var longer := events + [event];
    forall i | 0 <= i < |events| ensures longer[..i] == events[..i] {
    }
    assert longer[..|events|] == events && longer[|events|] == event;
  }

  lemma {:induction false} RunStep(events: seq<(Request, nat)>)
    requires events != []
    ensures AfterRun(events) == Enqueued(AfterRun(events[..|events| - 1]), events[|events| - 1].0, events[|events| - 1].1)
    ensures History(events) == History(events[..|events| - 1]) + [Event(events[|events| - 1].0)]
  {
    hide Enqueued;
  }

  lemma EmptyRun(stamps: set<nat>)
    ensures RunInv([], stamps)
  {
    NoFiles();
    NoContents();
  }

  lemma NoContents()
    ensures Contents([]) == []
  {
  }

  /** At most 10 files of at most 1000 events each, and at most 9001 events in all. */
  ghost predicate WithinLimits(fs: seq<File>) {
    |fs| <= 10 && |Contents(fs)| <= 9001 && forall i :: 0 <= i < |fs| ==> 1 <= |fs[i].lines| <= 1000
  }

  /** The `kept` latest events include every one among the latest 8002 that is at most seven days older than the last. */
  ghost predicate HoldsRecent(events: seq<(Request, nat)>, kept: nat) {
    forall i: nat :: i < |events| && |events| - i <= 8002 && events[|events| - 1].1 <= events[i].1 + 604_800_000 ==>
                       kept >= |events| - i
  }

  /**
   After every run the queue, read oldest first, is a suffix of what was enqueued,
   in at most 10 files of at most 1000 events and at most 9001 events in all. An
   event among the latest 8002 and within the pruning age is still there; and in a
   run that never pruned a file by age, so are all of the latest 8002.
   */
  lemma {:induction false} QueueHoldsRecentEvents(events: seq<(Request, nat)>, stamps: set<nat>)
    requires ClockOk(events, stamps)
    ensures Suffix(Contents(FilesOf(AfterRun(events))), History(events))
    ensures WithinLimits(FilesOf(AfterRun(events)))
    ensures HoldsRecent(events, |Contents(FilesOf(AfterRun(events)))|)
    ensures NeverPrunes(events) ==> |Contents(FilesOf(AfterRun(events)))| >= Min(|events|, 8002)
  {
    hide Listing, Before, Chronological, ClockAdvances, FilesOf, AfterRun, Suffix, History, Contents, NeverPrunes, Dated, ByTime,
      ListInv, LossJustified;
    RunKeepsInv(events, stamps);
    var fs := FilesOf(AfterRun(events));
    TotalSize(fs);
    FileBounds(fs);
    RecentAllKept(events, |Contents(fs)|);
    if NeverPrunes(events) {
      AllKept(events, |Contents(fs)|);
    }
  }

  lemma FileBounds(fs: seq<File>)
    requires ListInv(fs) && |Contents(fs)| <= 9001
    ensures WithinLimits(fs)
  {
    hide Contents;
  }

  lemma {:induction false} RecentAllKept(events: seq<(Request, nat)>, kept: nat)
    requires LossJustified(events, kept)
    requires forall i, j :: 0 <= i < j < |events| ==> events[i].1 <= events[j].1
    ensures HoldsRecent(events, kept)
  {
    hide LossJustified;
    forall i: nat | i < |events| && |events| - i <= 8002 && events[|events| - 1].1 <= events[i].1 + 604_800_000
      ensures kept >= |events| - i
    {
      RecentKept(events, kept, i);
    }
  }

  lemma {:induction false} AllKept(events: seq<(Request, nat)>, kept: nat)
    requires LossJustified(events, kept) && NeverPrunes(events)
    ensures kept >= Min(|events|, 8002)
  {
    hide NeverPrunes;
  }

  // ----- replay after a run -----

  lemma {:induction false} LinesAreContents(dir: Directory, files: seq<nat>, fs: seq<File>)
    requires |files| == |fs| && forall i :: 0 <= i < |files| ==> files[i] in dir && dir[files[i]] == fs[i]
    ensures Lines(dir, files) == Contents(fs)
  {
    if files == [] {
    } else {
      LinesAreContents(dir, files[1..], fs[1..]);
      ContentsCons(fs);
    }
  }

  lemma {:induction false} ContentsCons(fs: seq<File>)
    requires fs != []
    ensures Contents(fs) == fs[0].lines + Contents(fs[1..])
  {
    var n := |fs| - 1;
    if n == 0 {
      assert Contents(fs[..0]) == [] && Contents(fs[1..]) == [];
    } else {
      ContentsCons(fs[..n]);
      assert fs[..n][1..] == fs[1..][..n - 1];
      AppendAssociative(fs[0].lines, Contents(fs[1..][..n - 1]), fs[n].lines);
    }
  }

  lemma {:induction false} RequestsOfEvents(events: seq<(Request, nat)>, c: nat)
    requires c <= |events|
    ensures Requests(History(events)[c..]) == seq(|events| - c, i requires 0 <= i < |events| - c => events[c + i].0)
    decreases |events| - c
  {
    var lines := History(events)[c..];
    if c < |events| {
      RequestsOfEvents(events, c + 1);
      assert lines[1..] == History(events)[c + 1..];
    }
  }

  /** What a replay after a run reads: the latest requests, oldest first, none malformed. */
  lemma ReplayReadsRecentRequests(events: seq<(Request, nat)>, stamps: set<nat>)
    requires ClockOk(events, stamps)
    ensures var dir := AfterRun(events);
            var c := |events| - |Contents(FilesOf(dir))|;
            && 0 <= c
            && (forall s :: s in Listing(dir.Keys) ==> s in dir)
            && Requests(Lines(dir, Listing(dir.Keys))) == seq(|events| - c, i requires 0 <= i < |events| - c => events[c + i].0)
  {
    var dir := AfterRun(events);
    hide Decimal, Before, Listing, AfterRun, Requests, Lines, Contents, ClockOk;
    var files := Listing(dir.Keys);
    QueueHoldsRecentEvents(events, stamps);
    forall i | 0 <= i < |files| ensures files[i] in dir && dir[files[i]] == FilesOf(dir)[i] {
      assert files[i] in Elements(files);
    }
    LinesAreContents(dir, files, FilesOf(dir));
    RequestsOfEvents(events, |events| - |Contents(FilesOf(dir))|);
  }

  /** After an enqueue no file is older than seven days, and there are at most ten files. */
  lemma EnqueueDropsStale(dir: Directory, request: Request, now: nat)
    ensures var after := Enqueued(dir, request, now);
            && (forall s :: s in after ==> now <= after[s].modified + 604_800_000)
            && |after| <= 10
  {
    hide Listing, Limited, Target, FilesOf, Pruned, Newest;
    var kept := Limited(Pruned(dir, now));
    FreshFiles(dir, now);
    LimitedFiles(Pruned(dir, now));
    NewestFew(FilesOf(Pruned(dir, now)));
    FileCount(kept);
    OneMoreFile(kept, Target(kept, now), Event(request), now);
  }

  lemma FreshFiles(dir: Directory, now: nat)
    ensures var kept := Limited(Pruned(dir, now)); forall s :: s in kept ==> now <= kept[s].modified + 604_800_000
  {
    hide Listing;
  }

  lemma NewestFew(fs: seq<File>)
    ensures |Newest(fs)| < 10
  {
  }

  lemma OneMoreFile(dir: Directory, stamp: nat, line: Line, now: nat)
    requires forall s :: s in dir ==> now <= dir[s].modified + 604_800_000
    ensures var after := Appended(dir, stamp, line, now);
            |after| <= |dir| + 1 && forall s :: s in after ==> now <= after[s].modified + 604_800_000
  {
    var after := Appended(dir, stamp, line, now);
    assert after.Keys == dir.Keys + {stamp};
  }

  lemma FileCount(dir: Directory)
    ensures |FilesOf(dir)| == |dir.Keys| == |dir|
  {
    ListingSize(dir.Keys);
  }

  lemma ListingSize(stamps: set<nat>)
    ensures |Listing(stamps)| == |stamps|
  {
    ListedDistinct(Listing(stamps));
    DistinctCardinality(Listing(stamps));
  }

  // ----- when the clock stands still -----

  /** If the newest file is full and the clock still shows its stamp, the file grows past its limit. */
  lemma StalledClockOverflows(dir: Directory, request: Request, now: nat)
    requires var kept := Limited(Pruned(dir, now)); Rotates(kept) && now in kept && |kept[now].lines| == MAX_EVENTS_PER_FILE
    ensures |Enqueued(dir, request, now)[now].lines| > MAX_EVENTS_PER_FILE
  {
    var kept := Limited(Pruned(dir, now));
    assert Listing(kept.Keys) != [] ==> Listing(kept.Keys)[|Listing(kept.Keys)| - 1] in Elements(Listing(kept.Keys));
    assert Target(kept, now) == now;
  }

  /** While the clock stands still every event goes into one file, however many there are. */
  lemma {:induction false} StalledRun(events: seq<(Request, nat)>, now: nat)
    requires events != [] && forall i :: 0 <= i < |events| ==> events[i].1 == now
    ensures AfterRun(events) == map[now := File(History(events), now)]
  {
    hide Listing, Before, AfterRun, Enqueued, History;
    var n := |events| - 1;
    var before := events[..n];
    RunStep(events);
    if n == 0 {
      NothingBefore(before, now);
      OneFile(map[], [], events[0].0, now);
    } else {
      StalledRun(before, now);
      HistorySize(before);
      OneFile(AfterRun(before), History(before), events[n].0, now);
    }
  }

  lemma NothingBefore(events: seq<(Request, nat)>, now: nat)
    requires events == []
    ensures AfterRun(events) == map[] && History(events) == []
  {
  }

  lemma OneFile(dir: Directory, lines: seq<Line>, request: Request, now: nat)
    requires dir == if lines == [] then map[] else map[now := File(lines, now)]
    ensures Enqueued(dir, request, now) == map[now := File(lines + [Event(request)], now)]
  {
    hide Listing, Before;
    assert Pruned(dir, now) == dir;
    ListingSize(dir.Keys);
    assert Limited(dir) == dir;
    var files := Listing(dir.Keys);
    if files == [] {
      assert dir.Keys == {};
    } else {
      assert files[|files| - 1] in Elements(files);
      assert dir.Keys == {now};
    }
    assert Target(dir, now) == now;
  }

  /** From a directory within the file limit, an enqueue exceeds it exactly when it rotates onto a full file. */
  lemma FileLimitIff(dir: Directory, request: Request, now: nat)
    requires forall s :: s in dir ==> AllEvents(dir[s].lines) && |dir[s].lines| <= MAX_EVENTS_PER_FILE
    ensures var kept := Limited(Pruned(dir, now));
            var after := Enqueued(dir, request, now);
            (forall s :: s in after ==> |after[s].lines| <= MAX_EVENTS_PER_FILE)
            <==> !(Rotates(kept) && now in kept && |kept[now].lines| == MAX_EVENTS_PER_FILE)
  {
    hide Listing, Before;
    var kept := Limited(Pruned(dir, now));
    var files := Listing(kept.Keys);
    KeptFiles(dir, now);
    if Rotates(kept) && now in kept && |kept[now].lines| == MAX_EVENTS_PER_FILE {
      StalledClockOverflows(dir, request, now);
    } else if files != [] {
      var last := files[|files| - 1];
      assert last in Elements(files);
      EventsNonBlank(kept[last].lines);
    }
  }
}
