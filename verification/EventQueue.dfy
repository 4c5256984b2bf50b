/**
 The disk event queue (crates/unimatrix-engine/src/event_queue.rs): appending with
 rotation, age pruning, eviction of the oldest files, and replay. A directory maps
 the stamp of each queue file to its contents; a queue line is blank, malformed or
 an encoded request. Each call sees one reading of the clock, in milliseconds.
 */
module EventQueue {
  import opened Prelude
  import opened QueueNames

  const MAX_EVENTS_PER_FILE: nat := 1000
  const MAX_QUEUE_FILES: nat := 10
  const PRUNE_AGE: nat := 7 * 24 * 60 * 60 * 1000

  type Request = string

  datatype Line = Blank | Malformed | Event(request: Request)

  datatype File = File(lines: seq<Line>, modified: nat)

  type Directory = map<nat, File>

  function NonBlank(lines: seq<Line>): nat {
    if lines == [] then 0 else (if lines[0].Blank? then 0 else 1) + NonBlank(lines[1..])
  }

  // ----- what the operations do to a directory -----

  predicate Stale(f: File, now: nat) {
    now >= f.modified && now - f.modified > PRUNE_AGE
  }

  function Pruned(dir: Directory, now: nat): Directory {
    map s | s in dir && !Stale(dir[s], now) :: dir[s]
  }

  /** The listing cut down to its newest files, so that one more fits. */
  ghost function Limited(dir: Directory): Directory {
    var files := Listing(dir.Keys);
    if |files| >= MAX_QUEUE_FILES then dir - Elements(files[..|files| + 1 - MAX_QUEUE_FILES]) else dir
  }

  /** The newest file if it has room, otherwise a file stamped with the clock. */
  ghost function Target(dir: Directory, now: nat): nat {
    var files := Listing(dir.Keys);
    if files == [] then now
    else
      var last := files[|files| - 1];
      assert last in Elements(files);
      if NonBlank(dir[last].lines) < MAX_EVENTS_PER_FILE then last else now
  }

  function Appended(dir: Directory, stamp: nat, line: Line, now: nat): Directory {
    dir[stamp := File((if stamp in dir then dir[stamp].lines else []) + [line], now)]
  }

  ghost function Enqueued(dir: Directory, request: Request, now: nat): Directory {
    var kept := Limited(Pruned(dir, now));
    Appended(kept, Target(kept, now), Event(request), now)
  }

  /** The lines of the queue, in the order replay reads them. */
  ghost function Lines(dir: Directory, files: seq<nat>): seq<Line>
    requires forall s :: s in files ==> s in dir
  {
    if files == [] then [] else dir[files[0]].lines + Lines(dir, files[1..])
  }

  function Requests(lines: seq<Line>): seq<Request> {
    if lines == [] then []
    else (if lines[0].Event? then [lines[0].request] else []) + Requests(lines[1..])
  }

  function MalformedCount(lines: seq<Line>): nat {
    if lines == [] then 0 else (if lines[0].Malformed? then 1 else 0) + MalformedCount(lines[1..])
  }

  /** Every line is blank, malformed, or one request. */
  lemma {:induction false} LineAccount(lines: seq<Line>)
    ensures NonBlank(lines) == |Requests(lines)| + MalformedCount(lines)
  {
    if lines != [] {
      LineAccount(lines[1..]);
    }
  }

  // ----- the queue object -----

  /** A transport that answers each request with a verdict of its own. */
  class Transport {
    const verdict: nat -> bool
    var log: seq<(Request, bool)>

    constructor (verdict: nat -> bool)
      ensures log == [] && this.verdict == verdict
    {
      this.verdict := verdict;
      log := [];
    }

    method FireAndForget(request: Request) returns (ok: bool)
      modifies this
      ensures ok == verdict(|old(log)|) && log == old(log) + [(request, ok)]
    {
      ok := verdict(|log|);
      log := log + [(request, ok)];
    }
  }

  function AcceptedCount(log: seq<(Request, bool)>): nat {
    if log == [] then 0 else AcceptedCount(log[..|log| - 1]) + if log[|log| - 1].1 then 1 else 0
  }

  /** The positions of the accepted requests. */
  ghost function AcceptedAt(log: seq<(Request, bool)>): set<nat> {
    set i: nat | i < |log| && log[i].1
  }

  function Sent(log: seq<(Request, bool)>): seq<Request> {
    seq(|log|, i requires 0 <= i < |log| => log[i].0)
  }

  class Queue {
    var dir: Directory

    constructor ()
      ensures dir == map[]
    {
      dir := map[];
    }

    method Prune(now: nat)
      modifies this
      ensures dir == Pruned(old(dir), now)
      ensures forall s :: s in dir <==> s in old(dir) && now <= old(dir)[s].modified + 604_800_000
      ensures forall s :: s in dir ==> dir[s] == old(dir)[s]
    {
      var entries := dir.Keys;
      while entries != {}
        invariant entries <= old(dir).Keys
        invariant dir == map s | s in old(dir) && (s in entries || !Stale(old(dir)[s], now)) :: old(dir)[s]
        decreases entries
      {
        var s :| s in entries;
        entries := entries - {s};
        if Stale(dir[s], now) {
          dir := dir - {s};
        }
      }
    }

    method EnforceFileLimit()
      modifies this
      ensures dir == Limited(old(dir))
    {
      hide Listing, Before, Elements;
      var files := ListQueueFiles(dir.Keys);
      ghost var all := files;
      ghost var gone := 0;
      NoneGone(dir, all);
      while |files| >= MAX_QUEUE_FILES
        invariant gone <= |all| && files == all[gone..]
        invariant gone == 0 || |files| >= MAX_QUEUE_FILES - 1
        invariant dir == old(dir) - Elements(all[..gone])
      {
        OneMoreGone(old(dir), all, gone);
        dir := dir - {files[0]};
        files := files[1..];
        gone := gone + 1;
      }
    }

    method FindOrCreateTarget(now: nat) returns (stamp: nat)
      ensures stamp == Target(dir, now)
    {
      hide Listing, Before, NonBlank;
      var files := ListQueueFiles(dir.Keys);
      if files != [] {
        var latest := files[|files| - 1];
        assert latest in Elements(files);
        if NonBlank(dir[latest].lines) < MAX_EVENTS_PER_FILE {
          return latest;
        }
      }
      return now;
    }

    method Enqueue(request: Request, now: nat)
      modifies this
      ensures dir == Enqueued(old(dir), request, now)
    {
      Prune(now);
      EnforceFileLimit();
      var stamp := FindOrCreateTarget(now);
      dir := Appended(dir, stamp, Event(request), now);
    }

    /** Sends every well-formed line oldest first, counts the accepted ones, and deletes every file. */
    method Replay(transport: Transport) returns (replayed: nat)
      modifies this, transport
      ensures dir == map[]
      ensures old(transport.log) <= transport.log
      ensures var (sent, lines) := (transport.log[|old(transport.log)|..], old(Lines(dir, Listing(dir.Keys))));
              && Sent(sent) == Requests(lines)
              && replayed == AcceptedCount(sent) == |AcceptedAt(sent)|
    {
      hide Requests, AcceptedCount, Sent, Before, Listed, Listing, Lines;
      var files := ListQueueFiles(dir.Keys);
      ghost var was, start := dir, transport.log;
      ghost var all := Requests(Lines(was, files));
      ListedDistinct(files);
      replayed := 0;
      ghost var sent: seq<(Request, bool)> := [];
      NothingSent();
      assert files[0..] == files;
      for i := 0 to |files|
        invariant dir == was - Elements(files[..i])
        invariant transport.log == start + sent
        invariant Sent(sent) + Requests(Lines(was, files[i..])) == all
        invariant replayed == AcceptedCount(sent)
      {
        var stamp := files[i];
        StillListed(was, files, i);
        LinesStep(was, files, i);
        var content := dir[stamp].lines;
        ghost var more;
        replayed, more := ReplayFile(content, transport, replayed);
        AppendAssociative(start, sent, more);
        AppendAssociative(Sent(sent), Requests(content), Requests(Lines(was, files[i + 1..])));
        SentAppend(sent, more);
        AcceptedAppend(sent, more);
        sent := sent + more;
        dir := dir - {stamp};
      }
      assert files[..|files|] == files && files[|files|..] == [];
      assert transport.log[|start|..] == sent;
      NothingSent();
      NoLines(was);
      AcceptedIsCount(sent);
    }

    /** The lines of one file. */
    method ReplayFile(content: seq<Line>, transport: Transport, replayed: nat)
      returns (replayed': nat, ghost more: seq<(Request, bool)>)
      modifies transport
      ensures transport.log == old(transport.log) + more
      ensures Sent(more) == Requests(content)
      ensures replayed' == replayed + AcceptedCount(more)
    {
      hide Requests, AcceptedCount, Sent;
      replayed', more := replayed, [];
      NothingSent();
      assert content[0..] == content;
      for i := 0 to |content|
        invariant transport.log == old(transport.log) + more
        invariant Sent(more) + Requests(content[i..]) == Requests(content)
        invariant replayed' == replayed + AcceptedCount(more)
      {
        var line := content[i];
        RequestsStep(content, i);
        if line.Blank? || line.Malformed? {
          continue;
        }
        ghost var start := transport.log;
        var ok := transport.FireAndForget(line.request);
        OneSent(line.request, ok);
        SentAppend(more, [(line.request, ok)]);
        AcceptedAppend(more, [(line.request, ok)]);
        AppendAssociative(old(transport.log), more, [(line.request, ok)]);
        AppendAssociative(Sent(more), [line.request], Requests(content[i + 1..]));
        more := more + [(line.request, ok)];
        if ok {
          replayed' := replayed' + 1;
        }
      }
      assert content[|content|..] == [];
    }
  }

  lemma NoneGone(dir: Directory, all: seq<nat>)
    ensures dir - Elements(all[..0]) == dir
  {
  }

  lemma OneMoreGone(dir: Directory, all: seq<nat>, gone: nat)
    requires gone < |all|
    ensures dir - Elements(all[..gone + 1]) == dir - Elements(all[..gone]) - {all[gone]}
  {
    assert all[..gone + 1] == all[..gone] + [all[gone]];
    ElementsSnoc(all[..gone], all[gone]);
  }

  /** The accepted requests, counted by position. */
  lemma {:induction false} AcceptedIsCount(log: seq<(Request, bool)>)
    ensures AcceptedCount(log) == |AcceptedAt(log)|
  {
    if log == [] {
      assert AcceptedAt(log) == {};
    } else {
      var n := |log| - 1;
      AcceptedIsCount(log[..n]);
      assert AcceptedAt(log) == AcceptedAt(log[..n]) + if log[n].1 then {n} else {};
    }
  }

  lemma OneSent(request: Request, ok: bool)
    ensures Sent([(request, ok)]) == [request] && AcceptedCount([(request, ok)]) == if ok then 1 else 0
  {
  }

  lemma RequestsStep(lines: seq<Line>, i: nat)
    requires i < |lines|
    ensures Requests(lines[i..]) == (if lines[i].Event? then [lines[i].request] else []) + Requests(lines[i + 1..])
    ensures !lines[i].Event? ==> Requests(lines[i..]) == Requests(lines[i + 1..])
  {
  }

  lemma {:induction false} RequestsAppend(a: seq<Line>, b: seq<Line>)
    ensures Requests(a + b) == Requests(a) + Requests(b)
  {
    if a == [] {
      assert a + b == b;
    } else {
      assert (a + b)[1..] == a[1..] + b;
      RequestsAppend(a[1..], b);
    }
  }

  lemma NothingSent()
    ensures Sent([]) == [] && AcceptedCount([]) == 0 && Requests([]) == []
  {
  }

  lemma StillListed(dir: Directory, files: seq<nat>, i: nat)
    requires i < |files| && Distinct(files) && Elements(files) == dir.Keys
    ensures files[i] in dir && files[i] !in Elements(files[..i])
    ensures dir - Elements(files[..i + 1]) == dir - Elements(files[..i]) - {files[i]}
  {
  }

  lemma NoLines(dir: Directory)
    ensures Lines(dir, []) == []
  {
  }

  lemma LinesStep(dir: Directory, files: seq<nat>, i: nat)
    requires i < |files| && forall s :: s in files ==> s in dir
    ensures Requests(Lines(dir, files[i..])) == Requests(dir[files[i]].lines) + Requests(Lines(dir, files[i + 1..]))
  {
    assert files[i..][1..] == files[i + 1..];
    RequestsAppend(dir[files[i]].lines, Lines(dir, files[i + 1..]));
  }

  lemma SentAppend(a: seq<(Request, bool)>, b: seq<(Request, bool)>)
    ensures Sent(a + b) == Sent(a) + Sent(b)
  {
  }

  lemma {:induction false} AcceptedAppend(a: seq<(Request, bool)>, b: seq<(Request, bool)>)
    ensures AcceptedCount(a + b) == AcceptedCount(a) + AcceptedCount(b)
  {
    if b == [] {
      assert a + b == a;
    } else {
      assert (a + b)[..|a + b| - 1] == a + b[..|b| - 1];
      AcceptedAppend(a, b[..|b| - 1]);
    }
  }

  lemma ListedDistinct(s: seq<nat>)
    requires Listed(s)
    ensures Distinct(s)
  {
    hide Before;
    forall i, j | 0 <= i < j < |s| ensures s[i] != s[j] {
      BeforeTotal(s[i], s[j]);
    }
  }
}
