/**
 The interleavings that the theorems about lookups and handlers speak of, as runs of the system calls.  Every moment
 of a run is a moment of its committed events, and every sequence of events can be committed by a run from module
 load: all calls make their checks in REC_ON and take the lock later, in any order.
 */
module ReachableSchedules {
  import opened BlacklistStore
  import opened BlacklistRuns
  import opened PathMatching
  import opened Lookup
  import opened SwitchSchedules
  import opened Interception
  import opened Handlers
  import opened HandlerSchedules
  import opened ProbeLoops
  import opened Password
  import opened Monitor
  import opened MonitorSteps

  // ---------------------------------------------------------------- runs as events

  lemma CommittedSnoc(sha: Sha, s: System, steps: seq<Step>, step: Step)
    requires Good(sha, s)
    ensures Committed(sha, s, steps + [step]) == Committed(sha, s, steps) + CommitOf(RunSteps(sha, s, steps), step)
  {
    assert (steps + [step])[..|steps|] == steps;
  }

  lemma Regroup(x: seq<Event>, y: seq<Event>, z: seq<Event>, xy: seq<Event>, yz: seq<Event>, all: seq<Event>)
    requires xy == x + y && yz == y + z && all == xy + z
    ensures all == x + yz
  {
  }

  // Two runs one after the other: where the whole run ends and what it commits.
  ghost predicate Joins(sha: Sha, s: System, a: seq<Step>, s': System, b: seq<Step>, ab: seq<Step>)
    requires Good(sha, s) && Good(sha, s')
  {
    && RunSteps(sha, s, ab) == RunSteps(sha, s', b)
    && Committed(sha, s, ab) == Committed(sha, s, a) + Committed(sha, s', b)
  }

  lemma JoinsMore(sha: Sha, s: System, a: seq<Step>, s': System, b: seq<Step>, ab: seq<Step>, step: Step)
    requires Good(sha, s) && Good(sha, s') && Joins(sha, s, a, s', b, ab)
    ensures Joins(sha, s, a, s', b + [step], ab + [step])
  {
    StepsSnoc(sha, s, ab, step);
    StepsSnoc(sha, s', b, step);
    CommittedSnoc(sha, s, ab, step);
    CommittedSnoc(sha, s', b, step);
    Regroup(Committed(sha, s, a), Committed(sha, s', b), CommitOf(RunSteps(sha, s', b), step),
            Committed(sha, s, ab), Committed(sha, s', b + [step]), Committed(sha, s, ab + [step]));
  }

  lemma {:induction false} CommittedConcat(sha: Sha, s: System, a: seq<Step>, b: seq<Step>)
    requires Good(sha, s)
    ensures Joins(sha, s, a, RunSteps(sha, s, a), b, a + b)
    decreases |b|
  {
    if b == [] {
      assert a + b == a;
    } else {
      var front, step := b[..|b| - 1], b[|b| - 1];
      assert b == front + [step] && a + b == (a + front) + [step];
      CommittedConcat(sha, s, a, front);
      JoinsMore(sha, s, a, RunSteps(sha, s, a), front, a + front, step);
    }
  }

  // The run after j steps is at the k-th moment of the committed events.
  ghost predicate MomentAt(sha: Sha, s: System, steps: seq<Step>, k: nat, j: nat)
    requires Good(sha, s)
  {
    && k <= |Committed(sha, s, steps)| && j <= |steps|
    && |Committed(sha, s, steps[..j])| == k
    && WorldOf(RunSteps(sha, s, steps[..j])) == At(WorldOf(s), Committed(sha, s, steps), k)
  }

  lemma LastMoment(sha: Sha, s: System, steps: seq<Step>)
    requires Good(sha, s)
    ensures MomentAt(sha, s, steps, |Committed(sha, s, steps)|, |steps|)
  {
    assert steps[..|steps|] == steps;
    RunWorld(sha, s, steps);
    AtEnds(WorldOf(s), Committed(sha, s, steps));
  }

  lemma MomentKept(sha: Sha, s: System, front: seq<Step>, step: Step, k: nat, j: nat)
    requires Good(sha, s) && MomentAt(sha, s, front, k, j)
    ensures MomentAt(sha, s, front + [step], k, j)
  {
    CommittedSnoc(sha, s, front, step);
    var es := Committed(sha, s, front);
    assert (front + [step])[..j] == front[..j];
    assert (es + CommitOf(RunSteps(sha, s, front), step))[..k] == es[..k];
  }

  // Every moment of the committed events is a moment of the run.
  lemma {:induction false} MomentOfRun(sha: Sha, s: System, steps: seq<Step>, k: nat) returns (j: nat)
    requires Good(sha, s) && k <= |Committed(sha, s, steps)|
    ensures MomentAt(sha, s, steps, k, j)
    decreases |steps|
  {
    if k == |Committed(sha, s, steps)| {
      j := |steps|;
      LastMoment(sha, s, steps);
    } else {
      var front, step := steps[..|steps| - 1], steps[|steps| - 1];
      assert steps == front + [step];
      j := MomentOfRun(sha, s, front, k);
      MomentKept(sha, s, front, step, k, j);
    }
  }

  // The path is protected and the monitor on in every state of the run with lo to hi committed events.
  ghost predicate GuardedInRun(sha: Sha, s: System, steps: seq<Step>, lo: nat, hi: nat, p: string)
    requires Good(sha, s)
  {
    forall j :: (0 <= j <= |steps| && lo <= |Committed(sha, s, steps[..j])| <= hi) ==>
      var m := RunSteps(sha, s, steps[..j]).monitor;
      Blocked(Contents(m.store), p) && !Off(m.code)
  }

  lemma GuardedMoments(sha: Sha, s: System, steps: seq<Step>, lo: nat, hi: nat, p: string, k: nat)
    requires Good(sha, s) && lo <= k <= hi && k <= |Committed(sha, s, steps)|
    ensures GuardedInRun(sha, s, steps, lo, hi, p) ==>
              var m := At(WorldOf(s), Committed(sha, s, steps), k); Blocked(Contents(m.store), p) && !Off(m.state)
  {
    var j := MomentOfRun(sha, s, steps, k);
    assert WorldOf(RunSteps(sha, s, steps[..j])) == At(WorldOf(s), Committed(sha, s, steps), k);
  }

  // In every run from module load, an operation is blocked if a path it would change is protected and the monitor on
  // at every moment of its handler, by whichever entries.
  lemma ProtectedInRun(sha: Sha, digest: seq<Byte>, steps: seq<Step>, a: Times, b: Times, op: Operation, p: string)
    requires p in Touched(op)
    ensures Good(sha, Quiet(Initial(digest)))
    ensures var s := Quiet(Initial(digest));
            var es := Committed(sha, s, steps);
            Sequential(a, b, |es|) && GuardedInRun(sha, s, steps, a.size, b.lock, p) ==>
              HandlerBlocks(WorldOf(s), es, a, b, op)
  {
    var s := Quiet(Initial(digest));
    assert Contents(EMPTY) == [];
    var w, es := WorldOf(s), Committed(sha, s, steps);
    if Sequential(a, b, |es|) && GuardedInRun(sha, s, steps, a.size, b.lock, p) {
      forall k | a.size <= k <= b.lock ensures Blocked(Contents(At(w, es, k).store), p) && !Off(At(w, es, k).state) {
        GuardedMoments(sha, s, steps, a.size, b.lock, p, k);
      }
      ProtectedIsBlocked(w, es, a, b, op, p);
    }
  }

  // ---------------------------------------------------------------- events as runs

  // A root caller's request for the event.
  function RequestFor(e: Event, password: Buffer, beyond: seq<char>): (r: Request)
    ensures EventOf(r) == e && r.password == password && r.beyond == beyond && r.euid == 0
  {
    match e
    case ListOp(AddOp(p)) => AddPath(p, password, beyond, 0)
    case ListOp(RemoveOp(p)) => RemovePath(p, password, beyond, 0)
    case SwitchTo(code) => Switch(code, password, beyond, 0)
  }

  predicate ValidCodes(es: seq<Event>) {
    forall i :: 0 <= i < |es| && es[i].SwitchTo? ==> RF_ON <= es[i].state <= RF_REC_OFF
  }

  // Every call has a thread of its own, the i-th event's being i + 1.  The first n calls are waiting, and no thread
  // from n + 1 on does anything.
  ghost predicate Begun(s: System, es: seq<Event>, n: nat) {
    && n <= |es|
    && (forall t :: 1 <= t <= n ==> t in s.waiting && EventOf(s.waiting[t].request) == es[t - 1])
    && (forall t :: t in s.waiting || t in s.writing ==> t <= n)
  }

  lemma NotRefused(sha: Sha, m: State, e: Event, password: Buffer, beyond: seq<char>)
    requires Rec(m.code) && sha(CopiedText(password, beyond)) == m.digest
    requires e.SwitchTo? ==> RF_ON <= e.state <= RF_REC_OFF
    ensures Refusal(sha, m.code, m.digest, RequestFor(e, password, beyond)) == 0
  {
  }

  lemma BegunMore(s: System, es: seq<Event>, n: nat, c: Call)
    requires n < |es| && Begun(s, es, n) && EventOf(c.request) == es[n]
    ensures Begun(s.(waiting := s.waiting[n + 1 := c]), es, n + 1)
  {
  }

  lemma BeginOne(sha: Sha, s: System, es: seq<Event>, n: nat, r: Request)
    requires Good(sha, s) && n < |es| && Begun(s, es, n) && EventOf(r) == es[n]
    requires Refusal(sha, s.monitor.code, s.monitor.digest, r) == 0
    ensures Begun(Advance(sha, s, Begin(n + 1, r)), es, n + 1)
    ensures Advance(sha, s, Begin(n + 1, r)).monitor == s.monitor
  {
    BegunMore(s, es, n, Call(r, s.monitor.code));
  }

  // Steps after which the first n calls are waiting and nothing else has changed.
  ghost predicate Beginning(sha: Sha, s: System, steps: seq<Step>, es: seq<Event>, n: nat)
    requires Good(sha, s)
  {
    && Begun(RunSteps(sha, s, steps), es, n)
    && RunSteps(sha, s, steps).monitor == s.monitor
    && Committed(sha, s, steps) == []
  }

  lemma BeginMore(sha: Sha, s: System, steps: seq<Step>, es: seq<Event>, n: nat, r: Request)
    requires Good(sha, s) && n < |es| && Beginning(sha, s, steps, es, n) && EventOf(r) == es[n]
    requires Refusal(sha, s.monitor.code, s.monitor.digest, r) == 0
    ensures Beginning(sha, s, steps + [Begin(n + 1, r)], es, n + 1)
  {
    StepsSnoc(sha, s, steps, Begin(n + 1, r));
    CommittedSnoc(sha, s, steps, Begin(n + 1, r));
    BeginOne(sha, RunSteps(sha, s, steps), es, n, r);
  }

  lemma {:induction false} BeginAll(sha: Sha, s: System, es: seq<Event>, n: nat, password: Buffer, beyond: seq<char>)
    returns (steps: seq<Step>)
    requires Good(sha, s) && Rec(s.monitor.code) && sha(CopiedText(password, beyond)) == s.monitor.digest
    requires n <= |es| && Begun(s, es, 0) && ValidCodes(es)
    ensures Beginning(sha, s, steps, es, n)
  {
    if n == 0 {
      steps := [];
    } else {
      var r := RequestFor(es[n - 1], password, beyond);
      var before := BeginAll(sha, s, es, n - 1, password, beyond);
      NotRefused(sha, s.monitor, es[n - 1], password, beyond);
      BeginMore(sha, s, before, es, n - 1, r);
      steps := before + [Begin(n, r)];
    }
  }

  // Steps that commit the first n events, while the later calls keep waiting.
  ghost predicate Locking(sha: Sha, s: System, steps: seq<Step>, es: seq<Event>, n: nat)
    requires Good(sha, s) && n <= |es|
  {
    Committed(sha, s, steps) == es[..n] && forall t :: t > n ==> Lock(t) !in steps
  }

  lemma NextCommit(sha: Sha, s: System, steps: seq<Step>, t: nat)
    requires Good(sha, s) && t in s.waiting && Lock(t) !in steps
    ensures Committed(sha, s, steps + [Lock(t)]) == Committed(sha, s, steps) + [EventOf(s.waiting[t].request)]
  {
    StillWaiting(sha, s, steps, t);
    CommittedSnoc(sha, s, steps, Lock(t));
  }

  lemma LockMore(sha: Sha, s: System, steps: seq<Step>, es: seq<Event>, n: nat)
    requires Good(sha, s) && n < |es| && n + 1 in s.waiting && EventOf(s.waiting[n + 1].request) == es[n]
    ensures Locking(sha, s, steps, es, n) ==> Locking(sha, s, steps + [Lock(n + 1)], es, n + 1)
  {
    if Locking(sha, s, steps, es, n) {
      NextCommit(sha, s, steps, n + 1);
      Prefixes(es, n);
    }
  }

  lemma Prefixes(es: seq<Event>, n: nat)
    requires n < |es|
    ensures es[..n + 1] == es[..n] + [es[n]]
  {
  }

  lemma {:induction false} LockAll(sha: Sha, s: System, es: seq<Event>, n: nat) returns (steps: seq<Step>)
    requires Good(sha, s) && n <= |es| && Begun(s, es, |es|)
    ensures Locking(sha, s, steps, es, n)
  {
    if n == 0 {
      steps := [];
    } else {
      var before := LockAll(sha, s, es, n - 1);
      LockMore(sha, s, before, es, n - 1);
      steps := before + [Lock(n)];
    }
  }

  // Thread 0 switches to REC_ON and is still in its probe loop.
  lemma Opened(sha: Sha, digest: seq<Byte>, password: Buffer, beyond: seq<char>) returns (steps: seq<Step>)
    requires sha(CopiedText(password, beyond)) == digest
    ensures Good(sha, Quiet(Initial(digest)))
    ensures Committed(sha, Quiet(Initial(digest)), steps) == [SwitchTo(RF_REC_ON)]
    ensures var s := RunSteps(sha, Quiet(Initial(digest)), steps);
            && s.monitor.code == RF_REC_ON && s.monitor.digest == digest
            && s.waiting == map[] && s.writing == map[0 := Writer(true, 0)]
  {
    var s, r := Quiet(Initial(digest)), Switch(RF_REC_ON, password, beyond, 0);
    var s1 := s.(waiting := map[0 := Call(r, RF_OFF)]);
    StepsSnoc(sha, s, [], Begin(0, r));
    CommittedSnoc(sha, s, [], Begin(0, r));
    assert RunSteps(sha, s, [] + [Begin(0, r)]) == s1;
    StepsSnoc(sha, s, [] + [Begin(0, r)], Lock(0));
    CommittedSnoc(sha, s, [] + [Begin(0, r)], Lock(0));
    steps := [] + [Begin(0, r)] + [Lock(0)];
    assert s1.waiting - {0} == map[];
  }

  lemma BeginsThenLocks(sha: Sha, s: System, es: seq<Event>, password: Buffer, beyond: seq<char>)
    returns (steps: seq<Step>)
    requires Good(sha, s) && Rec(s.monitor.code) && sha(CopiedText(password, beyond)) == s.monitor.digest
    requires Begun(s, es, 0) && ValidCodes(es)
    ensures Committed(sha, s, steps) == es
  {
    var begins := BeginAll(sha, s, es, |es|, password, beyond);
    var locks := LockAll(sha, RunSteps(sha, s, begins), es, |es|);
    CommittedConcat(sha, s, begins, locks);
    steps := begins + locks;
  }

  // Whoever knows the password can have any events, in any order, committed after a first switch to REC_ON.
  lemma EveryScheduleRuns(sha: Sha, digest: seq<Byte>, password: Buffer, beyond: seq<char>, es: seq<Event>)
    returns (steps: seq<Step>)
    requires sha(CopiedText(password, beyond)) == digest && ValidCodes(es)
    ensures Good(sha, Quiet(Initial(digest)))
    ensures Committed(sha, Quiet(Initial(digest)), steps) == [SwitchTo(RF_REC_ON)] + es
  {
    var first := Opened(sha, digest, password, beyond);
    var s := RunSteps(sha, Quiet(Initial(digest)), first);
    var rest := BeginsThenLocks(sha, s, es, password, beyond);
    CommittedConcat(sha, Quiet(Initial(digest)), first, rest);
    steps := first + rest;
  }

  // ---------------------------------------------------------------- failing schedules in runs

  lemma Cut(pre: seq<Event>, es: seq<Event>, a: seq<Event>, b: seq<Event>)
    requires pre + es == a + b && |a| == |pre|
    ensures a == pre && b == es
  {
    assert (pre + es)[..|a|] == pre && (a + b)[..|a|] == a;
    assert (pre + es)[|a|..] == es && (a + b)[|a|..] == b;
  }

  lemma CutRun(sha: Sha, s: System, a: seq<Step>, b: seq<Step>, pre: seq<Event>, es: seq<Event>)
    requires Good(sha, s) && Committed(sha, s, a + b) == pre + es && |Committed(sha, s, a)| == |pre|
    ensures Committed(sha, s, a) == pre && Committed(sha, RunSteps(sha, s, a), b) == es
  {
    CommittedConcat(sha, s, a, b);
    Cut(pre, es, Committed(sha, s, a), Committed(sha, RunSteps(sha, s, a), b));
  }

  // Each step commits at most one event.
  lemma FrontCommits(sha: Sha, s: System, steps: seq<Step>)
    requires Good(sha, s) && steps != []
    ensures |Committed(sha, s, steps)| <= |Committed(sha, s, steps[..|steps| - 1])| + 1
  {
  }

  lemma RejoinSteps(steps: seq<Step>, before: seq<Step>, rest: seq<Step>)
    requires steps != [] && before + rest == steps[..|steps| - 1]
    ensures before + (rest + [steps[|steps| - 1]]) == steps
  {
  }

  // A run can be cut where it has committed k events.
  lemma {:induction false} CutAt(sha: Sha, s: System, steps: seq<Step>, k: nat)
    returns (before: seq<Step>, rest: seq<Step>)
    requires Good(sha, s) && k <= |Committed(sha, s, steps)|
    ensures before + rest == steps && |Committed(sha, s, before)| == k
    decreases |steps|
  {
    if k == |Committed(sha, s, steps)| {
      before, rest := steps, [];
    } else {
      FrontCommits(sha, s, steps);
      var earlier;
      before, earlier := CutAt(sha, s, steps[..|steps| - 1], k);
      RejoinSteps(steps, before, earlier);
      rest := earlier + [steps[|steps| - 1]];
    }
  }

  // There is a run that commits some events after the switch to REC_ON and, from there on, others.
  lemma TwoPartRun(sha: Sha, digest: seq<Byte>, password: Buffer, beyond: seq<char>, pre: seq<Event>, es: seq<Event>)
    returns (before: seq<Step>, rest: seq<Step>)
    requires sha(CopiedText(password, beyond)) == digest && ValidCodes(pre + es)
    ensures Good(sha, Quiet(Initial(digest)))
    ensures Committed(sha, Quiet(Initial(digest)), before) == [SwitchTo(RF_REC_ON)] + pre
    ensures Committed(sha, RunSteps(sha, Quiet(Initial(digest)), before), rest) == es
  {
    var steps := EveryScheduleRuns(sha, digest, password, beyond, pre + es);
    assert [SwitchTo(RF_REC_ON)] + (pre + es) == ([SwitchTo(RF_REC_ON)] + pre) + es;
    before, rest := CutAt(sha, Quiet(Initial(digest)), steps, 1 + |pre|);
    CutRun(sha, Quiet(Initial(digest)), before, rest, [SwitchTo(RF_REC_ON)] + pre, es);
  }

  // The events that list one path and then switch.
  function Listing(path: string, code: int): seq<Event> {
    [SwitchTo(RF_REC_ON)] + [ListOp(AddOp(path))] + [SwitchTo(code)]
  }

  lemma ListingLeaves(path: string, code: int)
    ensures After(World(EMPTY, RF_OFF), Listing(path, code)) == World(Store([Entry(path, Null)], To(0), 1), code)
  {
    var w := World(EMPTY, RF_OFF);
    AfterSnoc(w, [], SwitchTo(RF_REC_ON));
    assert [] + [SwitchTo(RF_REC_ON)] == [SwitchTo(RF_REC_ON)];
    AfterSnoc(w, [SwitchTo(RF_REC_ON)], ListOp(AddOp(path)));
    AfterSnoc(w, [SwitchTo(RF_REC_ON)] + [ListOp(AddOp(path))], SwitchTo(code));
    AddWrites(EMPTY, path);
  }

  lemma ListingWorld(sha: Sha, digest: seq<Byte>, steps: seq<Step>, path: string, code: int)
    requires Good(sha, Quiet(Initial(digest)))
    requires Committed(sha, Quiet(Initial(digest)), steps) == Listing(path, code)
    ensures WorldOf(RunSteps(sha, Quiet(Initial(digest)), steps)) == World(Store([Entry(path, Null)], To(0), 1), code)
  {
    RunWorld(sha, Quiet(Initial(digest)), steps);
    ListingLeaves(path, code);
  }

  // Runs that list one path, switch, and then commit the given events.
  lemma ListingRuns(sha: Sha, digest: seq<Byte>, password: Buffer, beyond: seq<char>, path: string, code: int,
                    es: seq<Event>)
    returns (before: seq<Step>, rest: seq<Step>)
    requires sha(CopiedText(password, beyond)) == digest && RF_ON <= code <= RF_REC_OFF && ValidCodes(es)
    ensures Good(sha, Quiet(Initial(digest)))
    ensures var s := RunSteps(sha, Quiet(Initial(digest)), before);
            WorldOf(s) == World(Store([Entry(path, Null)], To(0), 1), code) && Committed(sha, s, rest) == es
  {
    var pre := [ListOp(AddOp(path)), SwitchTo(code)];
    before, rest := TwoPartRun(sha, digest, password, beyond, pre, es);
    assert [SwitchTo(RF_REC_ON)] + pre == Listing(path, code);
    ListingWorld(sha, digest, before, path, code);
  }

  predicate ValidStates(codes: seq<int>) {
    forall i :: 0 <= i < |codes| ==> RF_ON <= codes[i] <= RF_REC_OFF
  }

  lemma ValidStatesSplit(a: seq<int>, b: seq<int>)
    requires ValidStates(a + b)
    ensures ValidStates(a) && ValidStates(b)
  {
    assert forall i :: 0 <= i < |a| ==> a[i] == (a + b)[i];
    assert forall i :: 0 <= i < |b| ==> b[i] == (a + b)[|a| + i];
  }

  lemma ValidCodesSnoc(front: seq<Event>, e: Event)
    requires ValidCodes(front) && (e.SwitchTo? ==> ValidStates([e.state]))
    ensures ValidCodes(front + [e])
  {
    assert e.SwitchTo? ==> RF_ON <= [e.state][0] <= RF_REC_OFF;
  }

  lemma {:induction false} CodesAreValid(es: seq<Event>)
    requires ValidStates(Codes(es))
    ensures ValidCodes(es)
    decreases |es|
  {
    if es == [] {
    } else {
      var front, e := es[..|es| - 1], es[|es| - 1];
      ValidStatesSplit(Codes(front), if e.SwitchTo? then [e.state] else []);
      CodesAreValid(front);
      ValidCodesSnoc(front, e);
      assert front + [e] == es;
    }
  }

  lemma LateCodesAreValid(code: int, c2: seq<int>, a: seq<int>, b: seq<int>)
    requires ValidStates([code] + c2 + a + b)
    ensures ValidCodes(LateEvents(Prelude(code, c2, a), b))
  {
    LateCodes(Prelude(code, c2, a), b);
    CodesAreValid(LateEvents(Prelude(code, c2, a), b));
  }

  // For every schedule of switches with the monitor off between head read and lock, the system calls have a run in
  // which a positive answer is right at no moment of the lookup.
  lemma LateAnswerRuns(sha: Sha, digest: seq<Byte>, password: Buffer, beyond: seq<char>,
                       code: int, c2: seq<int>, a: seq<int>, b: seq<int>)
    returns (before: seq<Step>, rest: seq<Step>, t: Times)
    requires sha(CopiedText(password, beyond)) == digest && ValidStates([code] + c2 + a + b)
    requires code != RF_REC_OFF && Off(Settled(Settled(code, c2), a))
    ensures Good(sha, Quiet(Initial(digest)))
    ensures var s := RunSteps(sha, Quiet(Initial(digest)), before);
            var w, es := WorldOf(s), Committed(sha, s, rest);
            && InOrder(t, |es|) && Meets(w, es, t, code, c2, a + b)
            && Answer(w, es, t, "/p") && !HasMoment(w, es, t, "/p")
  {
    LateCodesAreValid(code, c2, a, b);
    before, rest :=
      ListingRuns(sha, digest, password, beyond, "/x", RF_REC_ON, LateEvents(Prelude(code, c2, a), b));
    t := LateTimes(code, c2, a, b);
    LateAnswer(code, c2, a, b);
  }

  lemma ScheduleIsValid(w: World, es: seq<Event>, a: Times, b: Times, first: string, second: string,
                        code: int, codes: seq<int>, marks: seq<Mark>)
    requires WellLinked(w.store) && Sequential(a, b, |es|) && a.lock == 0 && b.lock == |es|
    requires Between(w, es, a, b, first, second, code, codes, marks) && ValidStates(codes)
    ensures ValidCodes(es)
  {
    assert es[0..|es|] == es;
    CodesAreValid(es);
  }

  // For every schedule between the walks of a handler with two lookups that adds an entry for the first name before
  // it removes one for the second, while the monitor stays on and the names are unrelated, the system calls have a
  // run in which the operation passes although it is right to pass at no moment of the handler.
  lemma WrongPassRuns(sha: Sha, digest: seq<Byte>, password: Buffer, beyond: seq<char>,
                      op: Operation, code: int, codes: seq<int>, marks: seq<Mark>)
    returns (before: seq<Step>, rest: seq<Step>, a: Times, b: Times)
    requires sha(CopiedText(password, beyond)) == digest && RF_ON <= code <= RF_REC_OFF && ValidStates(codes)
    requires |Tested(op)| == 2 && !Comparable(op) && StaysOn(code, codes) && RaiseThenDrop(marks)
    ensures Good(sha, Quiet(Initial(digest)))
    ensures var s := RunSteps(sha, Quiet(Initial(digest)), before);
            var w, es := WorldOf(s), Committed(sha, s, rest);
            && Sequential(a, b, |es|) && Between(w, es, a, b, First(op), Second(op), code, codes, marks)
            && !HandlerBlocks(w, es, a, b, op) && !RightToPass(w, es, a, b, op)
  {
    var w, es;
    w, es, a, b := WrongPassExists(op, code, codes, marks);
    ScheduleIsValid(w, es, a, b, First(op), Second(op), code, codes, marks);
    before, rest := ListingRuns(sha, digest, password, beyond, Exactly(Second(op)), code, es);
  }
}
