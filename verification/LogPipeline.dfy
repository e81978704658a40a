/**
 The way of a blocked operation into the log: the return handler queues a work item, the worker formats a row of
 at most 255 characters and appends it to the log file.  Items are processed in any order the workqueue likes.
 */
module LogPipeline {
  import opened CStrings
  import opened LogVolume
  import opened LogCapacity
  import opened Password
  import BlacklistStore
  import Lookup
  import Interception
  import Handlers
  import LogFile

  // ---------------------------------------------------------------- rows

  // What write_on_log collects.  The path is a C string.
  datatype Task = Task(tid: int, tgid: int, uid: nat, euid: nat, exe: string)

  function Decimal(n: nat): (s: string)
    ensures s != [] && NUL !in s
  {
    var digit := [('0' as int + n % 10) as char];
    if n < 10 then digit else Decimal(n / 10) + digit
  }

  // %d
  function Signed(n: int): (s: string)
    ensures s != [] && NUL !in s
  {
    if n < 0 then "-" + Decimal(-n) else Decimal(n)
  }

  // The text before the program's path.
  function Ids(t: Task): (s: string)
    ensures NUL !in s
  {
    Signed(t.tid) + ", " + Signed(t.tgid) + ", " + Decimal(t.uid) + ", " + Decimal(t.euid) + ", "
  }

  // The fingerprint is the digest of the path, not of the program's file.
  function FullRow(sha: Sha, t: Task): (s: string) {
    Ids(t) + t.exe + ", " + Hex(sha(t.exe)) + "\n"
  }

  // snprintf into 256 bytes keeps at most 255 characters.
  function Row(sha: Sha, t: Task): (s: string)
    ensures |s| <= ROW_MAX && s <= FullRow(sha, t)
  {
    var s := FullRow(sha, t);
    if |s| <= ROW_MAX then s else s[..ROW_MAX]
  }

  // A row meets the writer's precondition and has no NUL byte; it is complete exactly when the ids and the path
  // leave room for the separator, the 64 digits and the newline.
  lemma RowIsWritable(sha: Sha, t: Task)
    requires NUL !in t.exe
    ensures |Row(sha, t)| <= BLOCK && NUL !in Row(sha, t)
    ensures Row(sha, t) == FullRow(sha, t) <==> |Ids(t)| + |t.exe| <= ROW_MAX - 67
  {
  }

  // ---------------------------------------------------------------- the pipeline

  // An operation that is tried while other threads perform `es`: whether its probe is enabled, and when its handler
  // makes its lookups.
  datatype Attempt = Attempt(
    op: Interception.Operation, enabled: bool, w: Lookup.World, es: seq<Lookup.Event>, a: Lookup.Times, b: Lookup.Times)

  // The entry handler runs and blocks the operation.
  ghost predicate Intercepted(x: Attempt) {
    && BlacklistStore.WellLinked(x.w.store) && Handlers.Sequential(x.a, x.b, |x.es|)
    && x.enabled && Handlers.HandlerBlocks(x.w, x.es, x.a, x.b, x.op)
  }

  // The volume, the queued items, the items given up because the log could not be opened, and the items whose row
  // was handed to the writer, in processing order.
  datatype Pipeline = Pipeline(volume: Volume, pending: seq<Task>, dropped: seq<Task>, processed: seq<Task>)

  datatype Event = Try(attempt: Attempt, task: Task) | Work(item: nat, logOpen: bool)

  ghost predicate WellQueued(p: Pipeline) {
    && LogVolume.Valid(p.volume)
    && forall i :: 0 <= i < |p.pending| ==> NUL !in p.pending[i].exe
  }

  ghost predicate Tasks(e: Event) {
    e.Try? ==> NUL !in e.task.exe
  }

  // The return handler runs for a blocked operation only, and queues; deferred_work takes one item off the queue.
  ghost function Advance(sha: Sha, p: Pipeline, e: Event): (r: Pipeline)
    requires WellQueued(p) && Tasks(e)
    ensures WellQueued(r) && |r.volume.image| == |p.volume.image|
  {
    match e
    case Try(x, t) => if Intercepted(x) then p.(pending := p.pending + [t]) else p
    case Work(i, logOpen) =>
      if i >= |p.pending| then p
      else
        var t := p.pending[i];
        var rest := p.pending[..i] + p.pending[i + 1..];
        if !logOpen then p.(pending := rest, dropped := p.dropped + [t])
        else
          RowIsWritable(sha, t);
          p.(volume := Append(p.volume, Row(sha, t)), pending := rest, processed := p.processed + [t])
  }

  // The tasks whose operation was blocked.
  ghost function BlockedTasks(es: seq<Event>): seq<Task>
    decreases |es|
  {
    if es == [] then []
    else BlockedTasks(es[..|es| - 1])
         + if es[|es| - 1].Try? && Intercepted(es[|es| - 1].attempt) then [es[|es| - 1].task] else []
  }

  ghost function RunEvents(sha: Sha, p: Pipeline, es: seq<Event>): (r: Pipeline)
    requires WellQueued(p) && forall i :: 0 <= i < |es| ==> Tasks(es[i])
    ensures WellQueued(r) && |r.volume.image| == |p.volume.image|
    decreases |es|
  {
    if es == [] then p else Advance(sha, RunEvents(sha, p, es[..|es| - 1]), es[|es| - 1])
  }

  ghost function RowsOf(sha: Sha, ts: seq<Task>): (rows: seq<seq<char>>)
    ensures |rows| == |ts| && forall i :: 0 <= i < |ts| ==> rows[i] == Row(sha, ts[i])
  {
    seq(|ts|, i requires 0 <= i < |ts| => Row(sha, ts[i]))
  }

  // A log right after mkfs and lookup, with nothing queued.
  ghost predicate FreshStart(p: Pipeline) {
    && WellQueued(p) && LogFile.FreshImage(p.volume.image) && p.volume.size == |LogFile.HEADER|
    && p.pending == p.dropped == p.processed == []
  }

  lemma TakeOne(ts: seq<Task>, i: nat)
    requires i < |ts|
    ensures multiset(ts) == multiset(ts[..i] + ts[i + 1..]) + multiset{ts[i]}
  {
    assert ts == ts[..i] + ([ts[i]] + ts[i + 1..]);
  }

  ghost predicate Conserved(blocked: seq<Task>, p: Pipeline) {
    multiset(blocked) == multiset(p.pending) + multiset(p.dropped) + multiset(p.processed)
  }

  // Moving an item from one place to another, or adding one on both sides, keeps the balance.
  lemma Balance(all: multiset<Task>, a: multiset<Task>, b: multiset<Task>, c: multiset<Task>, rest: multiset<Task>,
                t: Task)
    requires all == a + b + c
    ensures all + multiset{t} == (a + multiset{t}) + b + c
    ensures a == rest + multiset{t} ==> all == rest + (b + multiset{t}) + c && all == rest + b + (c + multiset{t})
  {
  }

  lemma Joined(ts: seq<Task>, t: Task)
    ensures multiset(ts + [t]) == multiset(ts) + multiset{t}
  {
  }

  lemma QueueingConserves(p: Pipeline, t: Task, blocked: seq<Task>)
    requires Conserved(blocked, p)
    ensures Conserved(blocked + [t], p.(pending := p.pending + [t]))
  {
    Balance(multiset(blocked), multiset(p.pending), multiset(p.dropped), multiset(p.processed), multiset(p.pending), t);
    Joined(blocked, t);
    Joined(p.pending, t);
  }

  lemma WorkConserves(p: Pipeline, i: nat, blocked: seq<Task>)
    requires Conserved(blocked, p) && i < |p.pending|
    ensures var rest, t := p.pending[..i] + p.pending[i + 1..], p.pending[i];
            && multiset(blocked) == multiset(rest) + multiset(p.dropped + [t]) + multiset(p.processed)
            && multiset(blocked) == multiset(rest) + multiset(p.dropped) + multiset(p.processed + [t])
  {
    var rest, t := p.pending[..i] + p.pending[i + 1..], p.pending[i];
    TakeOne(p.pending, i);
    Balance(multiset(blocked), multiset(p.pending), multiset(p.dropped), multiset(p.processed), multiset(rest), t);
    Joined(p.dropped, t);
    Joined(p.processed, t);
  }

  // Processing moves one item from the queue to one of the two other places.
  lemma WorkMoves(sha: Sha, p: Pipeline, i: nat, logOpen: bool)
    requires WellQueued(p) && i < |p.pending|
    ensures var r, t := Advance(sha, p, Work(i, logOpen)), p.pending[i];
            && r.pending == p.pending[..i] + p.pending[i + 1..]
            && r.dropped == (if logOpen then p.dropped else p.dropped + [t])
            && r.processed == (if logOpen then p.processed + [t] else p.processed)
  {
  }

  lemma AdvanceConserves(sha: Sha, p: Pipeline, e: Event, blocked: seq<Task>)
    requires WellQueued(p) && Tasks(e) && Conserved(blocked, p)
    ensures Conserved(blocked + if e.Try? && Intercepted(e.attempt) then [e.task] else [], Advance(sha, p, e))
  {
    assert blocked + [] == blocked;
    if e.Try? {
      QueueingConserves(p, e.task, blocked);
    } else if e.item < |p.pending| {
      WorkConserves(p, e.item, blocked);
      WorkMoves(sha, p, e.item, e.logOpen);
    }
  }

  // No blocked operation is lost and no other one logged: the operations that handlers blocked are those still
  // queued, those given up because the log could not be opened, and those whose row was handed to the writer.
  lemma {:induction false} Conservation(sha: Sha, p: Pipeline, es: seq<Event>)
    requires FreshStart(p) && forall i :: 0 <= i < |es| ==> Tasks(es[i])
    ensures Conserved(BlockedTasks(es), RunEvents(sha, p, es))
    decreases |es|
  {
    if es == [] {
    } else {
      Conservation(sha, p, es[..|es| - 1]);
      AdvanceConserves(sha, RunEvents(sha, p, es[..|es| - 1]), es[|es| - 1], BlockedTasks(es[..|es| - 1]));
    }
  }

  lemma RowsFacts(sha: Sha, ts: seq<Task>)
    requires forall i :: 0 <= i < |ts| ==> NUL !in ts[i].exe
    ensures Payloads(RowsOf(sha, ts)) && Rows(RowsOf(sha, ts))
    ensures forall i :: 0 <= i < |ts| ==> NUL !in RowsOf(sha, ts)[i]
  {
  }

  lemma RowsSnoc(sha: Sha, ts: seq<Task>, t: Task)
    ensures RowsOf(sha, ts + [t]) == RowsOf(sha, ts) + [Row(sha, t)]
  {
  }

  // The volume is the given one with the rows of the processed items appended in processing order.
  ghost predicate Appended(sha: Sha, v: Volume, p: Pipeline)
    requires LogVolume.Valid(v)
  {
    && (forall i :: 0 <= i < |p.processed| ==> NUL !in p.processed[i].exe)
    && Payloads(RowsOf(sha, p.processed))
    && p.volume == AppendAll(v, RowsOf(sha, p.processed))
  }

  lemma AppendAllSnoc(v: Volume, rows: seq<seq<char>>, row: seq<char>)
    requires LogVolume.Valid(v) && Payloads(rows) && |row| <= BLOCK
    ensures Payloads(rows + [row]) && AppendAll(v, rows + [row]) == Append(AppendAll(v, rows), row)
  {
  }

  lemma AdvanceAppends(sha: Sha, v: Volume, p: Pipeline, e: Event)
    requires LogVolume.Valid(v) && WellQueued(p) && Tasks(e) && Appended(sha, v, p)
    ensures Appended(sha, v, Advance(sha, p, e))
  {
    if e.Work? && e.item < |p.pending| && e.logOpen {
      var t := p.pending[e.item];
      RowIsWritable(sha, t);
      RowsSnoc(sha, p.processed, t);
      AppendAllSnoc(v, RowsOf(sha, p.processed), Row(sha, t));
    }
  }

  lemma {:induction false} VolumeIsAppends(sha: Sha, p: Pipeline, es: seq<Event>)
    requires FreshStart(p) && forall i :: 0 <= i < |es| ==> Tasks(es[i])
    ensures Appended(sha, p.volume, RunEvents(sha, p, es))
    decreases |es|
  {
    if es == [] {
      assert RowsOf(sha, p.processed) == [];
    } else {
      VolumeIsAppends(sha, p, es[..|es| - 1]);
      AdvanceAppends(sha, p.volume, RunEvents(sha, p, es[..|es| - 1]), es[|es| - 1]);
    }
  }

  lemma HeaderText()
    ensures Text(LogFile.HEADER) == LogFile.HEADER
  {
    LogFile.HeaderLine();
    TextPlain(LogFile.HEADER);
  }

  // What a reader of the log sees after any run: the header, then the rows of the processed items in processing
  // order, with none missing while at most 1567 were processed.
  lemma LogHoldsProcessedRows(sha: Sha, p: Pipeline, es: seq<Event>)
    requires FreshStart(p) && forall i :: 0 <= i < |es| ==> Tasks(es[i])
    ensures var r := RunEvents(sha, p, es);
            && Payloads(RowsOf(sha, r.processed))
            && Text(Content(r.volume)) == LogFile.HEADER + Accepted(p.volume, RowsOf(sha, r.processed))
            && (|r.processed| <= GUARANTEED_ROWS ==>
                  Accepted(p.volume, RowsOf(sha, r.processed)) == Flat(RowsOf(sha, r.processed)))
  {
    var r := RunEvents(sha, p, es);
    LogFile.FreshLookup(p.volume.image);
    HeaderText();
    VolumeIsAppends(sha, p, es);
    RowsFacts(sha, r.processed);
    LogText(p.volume, RowsOf(sha, r.processed));
    if |r.processed| <= GUARANTEED_ROWS {
      NothingRefused(p.volume, RowsOf(sha, r.processed));
    }
  }

  ghost function Flat(rows: seq<seq<char>>): seq<char>
    decreases |rows|
  {
    if rows == [] then [] else Flat(rows[..|rows| - 1]) + rows[|rows| - 1]
  }

  lemma {:induction false} NothingRefused(v: Volume, rows: seq<seq<char>>)
    requires LogVolume.Valid(v) && v.size == HEADER_SIZE && |v.image| == IMAGE_BLOCKS * BLOCK
    requires Rows(rows) && Payloads(rows) && |rows| <= GUARANTEED_ROWS
    ensures Accepted(v, rows) == Flat(rows)
    decreases |rows|
  {
    if rows == [] {
    } else {
      NothingRefused(v, rows[..|rows| - 1]);
      CapacityBound(v, rows[..|rows| - 1], rows[|rows| - 1]);
    }
  }

  // ---------------------------------------------------------------- the logger on the heap

  class Logger {
    const log: LogFile.OpenLog
    const sha: Sha
    var pending: seq<Task>
    ghost var dropped: seq<Task>
    ghost var processed: seq<Task>

    ghost function View(): Pipeline
      reads this, log, log.disk
    {
      Pipeline(log.View(), pending, dropped, processed)
    }

    ghost predicate Ready()
      reads this, log, log.disk
    {
      WellQueued(View())
    }

    constructor (log: LogFile.OpenLog, sha: Sha)
      requires log.Valid()
      ensures Ready() && this.log == log && this.sha == sha
      ensures View() == Pipeline(log.View(), [], [], [])
    {
      this.log, this.sha := log, sha;
      pending, dropped, processed := [], [], [];
    }

    // ret_handler and write_on_log, for an operation that was blocked.
    method WriteOnLog(ghost attempt: Attempt, task: Task)
      requires Ready() && NUL !in task.exe && Intercepted(attempt)
      modifies this
      ensures Ready() && View() == old(Advance(sha, View(), Try(attempt, task)))
    {
      pending := pending + [task];
    }

    // deferred_work on a queued item; `logOpen` tells whether filp_open succeeded.
    method DeferredWork(item: nat, logOpen: bool)
      requires Ready() && item < |pending|
      modifies this, log, log.disk
      ensures Ready() && View() == old(Advance(sha, View(), Work(item, logOpen)))
    {
      var task := pending[item];
      pending := pending[..item] + pending[item + 1..];
      if !logOpen {
        dropped := dropped + [task];
        return;
      }
      RowIsWritable(sha, task);
      var ret := log.Write(Row(sha, task));
      processed := processed + [task];
    }
  }
}
