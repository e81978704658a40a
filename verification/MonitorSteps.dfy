/**
 The three system calls run by many threads at once.  Each call makes its checks without the lock, later does its
 work under it, and a switch then writes the ten probes one by one without it.  The theorems hold for every
 interleaving of those steps.
 */
module MonitorSteps {
  import opened BlacklistStore
  import opened BlacklistRuns
  import opened CStrings
  import opened Lookup
  import opened SwitchSchedules
  import opened ProbeLoops
  import opened Password
  import opened Monitor

  // A call that passed its checks, with the state it saw there.
  datatype Call = Call(request: Request, seen: int)

  // The monitor, the calls that passed their checks, and the switches in their probe loops, by thread.
  datatype System = System(monitor: State, waiting: map<nat, Call>, writing: map<nat, Writer>)

  datatype Step = Begin(tid: nat, request: Request) | Lock(tid: nat) | WriteProbe(tid: nat)

  predicate Rec(code: int) {
    code == RF_REC_ON || code == RF_REC_OFF
  }

  // What every step keeps.  A waiting call is authorised, and an edit saw REC_ON or REC_OFF at its own check.
  ghost predicate Good(sha: Sha, s: System) {
    && RF_ON <= s.monitor.code <= RF_REC_OFF
    && WellLinked(s.monitor.store)
    && (forall t :: t in s.waiting ==> Passed(sha, s.monitor.digest, s.waiting[t]))
    && Bounded(LoopsOf(s))
    && s.waiting.Keys !! s.writing.Keys
  }

  ghost predicate Passed(sha: Sha, digest: seq<Byte>, c: Call) {
    && Authorised(sha, digest, c.request)
    && (if c.request.Switch? then RF_ON <= c.request.to <= RF_REC_OFF else Rec(c.seen))
  }

  // The event a call performs under the lock.
  function EventOf(r: Request): Event {
    match r
    case Switch(to, _, _, _) => SwitchTo(to)
    case AddPath(p, _, _, _) => ListOp(AddOp(p))
    case RemovePath(p, _, _, _) => ListOp(RemoveOp(p))
  }

  ghost function WorldOf(s: System): World {
    World(s.monitor.store, s.monitor.code)
  }

  function LoopsOf(s: System): Loops {
    Loops(s.monitor.probes, s.writing)
  }

  ghost function Locked(s: System, t: nat): System
    requires WellLinked(s.monitor.store) && t in s.waiting
  {
    var r := s.waiting[t].request;
    var w := Next(WorldOf(s), EventOf(r));
    System(s.monitor.(store := w.store, code := w.state), s.waiting - {t},
           if r.Switch? then s.writing[t := Writer(!Off(r.to), 0)] else s.writing)
  }

  // A thread has at most one call in progress; a step that no thread can take changes nothing.
  ghost function Advance(sha: Sha, s: System, step: Step): System
    requires Good(sha, s)
  {
    match step
    case Begin(t, r) =>
      if t in s.waiting || t in s.writing || Refusal(sha, s.monitor.code, s.monitor.digest, r) != 0 then s
      else s.(waiting := s.waiting[t := Call(r, s.monitor.code)])
    case Lock(t) => if t in s.waiting then Locked(s, t) else s
    case WriteProbe(t) =>
      var l := Round(LoopsOf(s), t);
      System(s.monitor.(probes := l.probes), s.waiting, l.writing)
  }

  lemma AdvanceKeeps(sha: Sha, s: System, step: Step)
    requires Good(sha, s)
    ensures Good(sha, Advance(sha, s, step)) && Advance(sha, s, step).monitor.digest == s.monitor.digest
  {
    if step.Lock? && step.tid in s.waiting {
      var e := EventOf(s.waiting[step.tid].request);
      if e.ListOp? {
        ApplyWellLinked(s.monitor.store, e.op, Null);
      }
    }
  }

  ghost function RunSteps(sha: Sha, s: System, steps: seq<Step>): (r: System)
    requires Good(sha, s)
    ensures Good(sha, r) && r.monitor.digest == s.monitor.digest
    decreases |steps|
  {
    if steps == [] then s
    else
      var before := RunSteps(sha, s, steps[..|steps| - 1]);
      AdvanceKeeps(sha, before, steps[|steps| - 1]);
      Advance(sha, before, steps[|steps| - 1])
  }

  ghost function Quiet(m: State): System {
    System(m, map[], map[])
  }

  // ---------------------------------------------------------------- authority

  // Every change comes from an authorised call: the list changes only under the lock, by an edit that saw REC_ON
  // or REC_OFF at its check; the state only under the lock, by a switch to that state; the probes only after it.
  lemma ChangesAreAuthorised(sha: Sha, s: System, step: Step)
    requires Good(sha, s)
    ensures var m, m' := s.monitor, Advance(sha, s, step).monitor;
            && (m'.store != m.store || m'.code != m.code ==>
                  && step.Lock? && step.tid in s.waiting
                  && Authorised(sha, m.digest, s.waiting[step.tid].request)
                  && World(m'.store, m'.code) == Next(WorldOf(s), EventOf(s.waiting[step.tid].request)))
            && (m'.store != m.store ==> !s.waiting[step.tid].request.Switch? && Rec(s.waiting[step.tid].seen))
            && (m'.code != m.code ==> s.waiting[step.tid].request.Switch?)
            && (m'.probes != m.probes ==> step.WriteProbe? && step.tid in s.writing)
  {
  }

  // Begin steps of callers without authority.
  predicate Idle(sha: Sha, digest: seq<Byte>, step: Step) {
    step.Begin? && !Authorised(sha, digest, step.request)
  }

  function WithoutIdle(sha: Sha, digest: seq<Byte>, steps: seq<Step>): seq<Step>
    decreases |steps|
  {
    if steps == [] then []
    else WithoutIdle(sha, digest, steps[..|steps| - 1])
         + if Idle(sha, digest, steps[|steps| - 1]) then [] else [steps[|steps| - 1]]
  }

  // Whatever callers without authority try, with whatever bytes for a password, and however their calls
  // interleave with others, the system ends up as if they had not called.
  lemma {:induction false} UnauthorisedCallsDoNothing(sha: Sha, s: System, steps: seq<Step>)
    requires Good(sha, s)
    ensures RunSteps(sha, s, steps) == RunSteps(sha, s, WithoutIdle(sha, s.monitor.digest, steps))
    decreases |steps|
  {
    if steps == [] {
    } else {
      var front, step := steps[..|steps| - 1], steps[|steps| - 1];
      var kept := WithoutIdle(sha, s.monitor.digest, front);
      UnauthorisedCallsDoNothing(sha, s, front);
      if Idle(sha, s.monitor.digest, step) {
        assert WithoutIdle(sha, s.monitor.digest, steps) == kept;
      } else {
        assert (kept + [step])[..|kept + [step]| - 1] == kept;
      }
    }
  }

  lemma WaitingStep(sha: Sha, s: System, step: Step, t: nat)
    requires Good(sha, s) && t in Advance(sha, s, step).waiting
    ensures if t in s.waiting then Advance(sha, s, step).waiting[t] == s.waiting[t] && step != Lock(t)
            else step.Begin? && Advance(sha, s, step).waiting[t] == Call(step.request, s.monitor.code) && step.tid == t
  {
  }

  // `k` is the step at which a call by thread t saw the state it holds.
  ghost predicate CheckedAt(sha: Sha, m: State, steps: seq<Step>, t: nat, c: Call, k: nat)
    requires Good(sha, Quiet(m))
  {
    && k < |steps| && steps[k] == Begin(t, c.request)
    && RunSteps(sha, Quiet(m), steps[..k]).monitor.code == c.seen
    && forall j :: k < j < |steps| ==> steps[j] != Lock(t)
  }

  lemma CheckedLater(sha: Sha, m: State, front: seq<Step>, step: Step, t: nat, c: Call, k: nat)
    requires Good(sha, Quiet(m)) && CheckedAt(sha, m, front, t, c, k) && step != Lock(t)
    ensures CheckedAt(sha, m, front + [step], t, c, k)
  {
    var steps := front + [step];
    assert steps[..k] == front[..k];
  }

  lemma CheckedNow(sha: Sha, m: State, front: seq<Step>, t: nat, r: Request)
    requires Good(sha, Quiet(m))
    ensures CheckedAt(sha, m, front + [Begin(t, r)], t,
                      Call(r, RunSteps(sha, Quiet(m), front).monitor.code), |front|)
  {
    assert (front + [Begin(t, r)])[..|front|] == front;
  }

  // The state a waiting call saw is the one at its own check, and it has not taken the lock since.
  lemma {:induction false} SeenAtCheck(sha: Sha, m: State, steps: seq<Step>, t: nat) returns (k: nat)
    requires Good(sha, Quiet(m)) && t in RunSteps(sha, Quiet(m), steps).waiting
    ensures CheckedAt(sha, m, steps, t, RunSteps(sha, Quiet(m), steps).waiting[t], k)
    decreases |steps|
  {
    if steps == [] {
      assert false;
    } else {
      var front, step := steps[..|steps| - 1], steps[|steps| - 1];
      assert front + [step] == steps;
      var before := RunSteps(sha, Quiet(m), front);
      WaitingStep(sha, before, step, t);
      if t in before.waiting {
        k := SeenAtCheck(sha, m, front, t);
        CheckedLater(sha, m, front, step, t, before.waiting[t], k);
      } else {
        k := |front|;
        CheckedNow(sha, m, front, t, step.request);
        assert step == Begin(t, step.request);
      }
    }
  }

  // ---------------------------------------------------------------- the list and the state

  // What a step does under the lock.
  function CommitOf(s: System, step: Step): seq<Event> {
    if step.Lock? && step.tid in s.waiting then [EventOf(s.waiting[step.tid].request)] else []
  }

  // What the steps did under the lock, in order.
  ghost function Committed(sha: Sha, s: System, steps: seq<Step>): seq<Event>
    requires Good(sha, s)
    decreases |steps|
  {
    if steps == [] then []
    else Committed(sha, s, steps[..|steps| - 1])
         + CommitOf(RunSteps(sha, s, steps[..|steps| - 1]), steps[|steps| - 1])
  }

  lemma StepsSnoc(sha: Sha, s: System, steps: seq<Step>, step: Step)
    requires Good(sha, s)
    ensures RunSteps(sha, s, steps + [step]) == Advance(sha, RunSteps(sha, s, steps), step)
  {
    assert (steps + [step])[..|steps|] == steps;
  }

  lemma {:induction false} RunConcat(sha: Sha, s: System, a: seq<Step>, b: seq<Step>)
    requires Good(sha, s)
    ensures RunSteps(sha, s, a + b) == RunSteps(sha, RunSteps(sha, s, a), b)
    decreases |b|
  {
    if b == [] {
      assert a + b == a;
    } else {
      RunConcat(sha, s, a, b[..|b| - 1]);
      assert (a + b)[..|a + b| - 1] == a + b[..|b| - 1];
    }
  }

  lemma CommitNext(sha: Sha, s: System, step: Step)
    requires Good(sha, s)
    ensures WorldOf(Advance(sha, s, step))
         == if step.Lock? && step.tid in s.waiting then Next(WorldOf(s), EventOf(s.waiting[step.tid].request)) else WorldOf(s)
  {
  }

  // The list and the state are always those of the committed events, one after the other; so what is proved about
  // lookups among such events holds here.
  lemma {:induction false} RunWorld(sha: Sha, s: System, steps: seq<Step>)
    requires Good(sha, s)
    ensures WorldOf(RunSteps(sha, s, steps)) == After(WorldOf(s), Committed(sha, s, steps))
    decreases |steps|
  {
    if steps == [] {
    } else {
      var front, step := steps[..|steps| - 1], steps[|steps| - 1];
      var before, events := RunSteps(sha, s, front), Committed(sha, s, front);
      RunWorld(sha, s, front);
      CommitNext(sha, before, step);
      if step.Lock? && step.tid in before.waiting {
        AfterSnoc(WorldOf(s), events, EventOf(before.waiting[step.tid].request));
      } else {
        assert events + [] == events;
      }
    }
  }

  function Edits(es: seq<Event>): seq<Op>
    decreases |es|
  {
    if es == [] then [] else Edits(es[..|es| - 1]) + if es[|es| - 1].ListOp? then [es[|es| - 1].op] else []
  }

  lemma {:induction false} EditsOnly(w: World, es: seq<Event>)
    requires WellLinked(w.store)
    ensures After(w, es).store == Run(w.store, Edits(es))
    decreases |es|
  {
    if es == [] {
    } else {
      EditsOnly(w, es[..|es| - 1]);
      var ops, earlier := Edits(es), Edits(es[..|es| - 1]);
      assert ops != earlier ==> ops[..|ops| - 1] == earlier;
    }
  }

  // After any interleaving from module load the blacklist is the fold of the committed edits.
  lemma RunBlacklist(sha: Sha, digest: seq<Byte>, steps: seq<Step>)
    ensures Good(sha, Quiet(Initial(digest)))
    ensures Inv(RunSteps(sha, Quiet(Initial(digest)), steps).monitor.store)
    ensures Contents(RunSteps(sha, Quiet(Initial(digest)), steps).monitor.store)
         == ListRun(Edits(Committed(sha, Quiet(Initial(digest)), steps)))
  {
    assert Contents(EMPTY) == [];
    var s := Quiet(Initial(digest));
    var events := Committed(sha, s, steps);
    RunWorld(sha, s, steps);
    EditsOnly(WorldOf(s), events);
    RunRefinesList(Edits(events));
  }

  // ---------------------------------------------------------------- an edit between its check and the lock

  lemma WaitsOn(sha: Sha, s: System, step: Step, t: nat)
    requires Good(sha, s) && t in s.waiting && step != Lock(t)
    ensures t in Advance(sha, s, step).waiting && Advance(sha, s, step).waiting[t] == s.waiting[t]
  {
  }

  lemma {:induction false} StillWaiting(sha: Sha, s: System, steps: seq<Step>, t: nat)
    requires Good(sha, s) && t in s.waiting && Lock(t) !in steps
    ensures t in RunSteps(sha, s, steps).waiting && RunSteps(sha, s, steps).waiting[t] == s.waiting[t]
    decreases |steps|
  {
    if steps == [] {
    } else {
      var front, step := steps[..|steps| - 1], steps[|steps| - 1];
      StillWaiting(sha, s, front, t);
      WaitsOn(sha, RunSteps(sha, s, front), step, t);
    }
  }

  // Thread t may begin the edit r.
  ghost predicate MayBegin(sha: Sha, s: System, t: nat, r: Request) {
    && Good(sha, s) && t !in s.waiting && t !in s.writing
    && !r.Switch? && Refusal(sha, s.monitor.code, s.monitor.digest, r) == 0
  }

  // The last switch of a schedule, if there is one, goes to REC_ON or REC_OFF.
  predicate EndsInRec(codes: seq<int>) {
    codes == [] || Rec(codes[|codes| - 1])
  }

  // An edit sees REC_ON or REC_OFF at its check and is carried out whatever the state is when it gets the lock.
  // It is carried out in REC_ON or REC_OFF if and only if the last switch that took the lock in between, if any,
  // was to one of them.
  lemma EditStateExactly(sha: Sha, s: System, t: nat, r: Request, between: seq<Step>)
    requires MayBegin(sha, s, t, r) && Lock(t) !in between
    ensures Rec(s.monitor.code) && Good(sha, Advance(sha, s, Begin(t, r)))
    ensures var checked := Advance(sha, s, Begin(t, r));
            var atLock := RunSteps(sha, checked, between);
            && Rec(atLock.monitor.code) == EndsInRec(Codes(Committed(sha, checked, between)))
            && Advance(sha, atLock, Lock(t)).monitor
               == atLock.monitor.(store := Apply(atLock.monitor.store, EventOf(r).op))
  {
    AdvanceKeeps(sha, s, Begin(t, r));
    var checked := Advance(sha, s, Begin(t, r));
    StillWaiting(sha, checked, between, t);
    RunWorld(sha, checked, between);
    StateAfter(WorldOf(checked), Committed(sha, checked, between));
  }

  // A thread that passes its checks waits for the lock.
  lemma Waits(sha: Sha, s: System, t: nat, r: Request)
    requires Good(sha, s) && t !in s.waiting && t !in s.writing
    requires Refusal(sha, s.monitor.code, s.monitor.digest, r) == 0
    ensures Advance(sha, s, Begin(t, r)) == s.(waiting := s.waiting[t := Call(r, s.monitor.code)])
  {
  }

  // An edit and a switch make their checks; the switch takes the lock first.
  lemma SwitchBeforeEdit(sha: Sha, s: System, edit: Request, switch: Request) returns (steps: seq<Step>)
    requires Good(sha, s) && s.waiting == map[] && s.writing == map[] && !edit.Switch? && switch.Switch?
    requires Refusal(sha, s.monitor.code, s.monitor.digest, edit) == 0
    requires Refusal(sha, s.monitor.code, s.monitor.digest, switch) == 0
    ensures RunSteps(sha, s, steps).monitor == s.monitor.(code := switch.to)
    ensures RunSteps(sha, s, steps).waiting == map[0 := Call(edit, s.monitor.code)]
  {
    StepsSnoc(sha, s, [], Begin(0, edit));
    Waits(sha, s, 0, edit);
    var begun := RunSteps(sha, s, [] + [Begin(0, edit)]);
    StepsSnoc(sha, s, [] + [Begin(0, edit)], Begin(1, switch));
    Waits(sha, begun, 1, switch);
    StepsSnoc(sha, s, [] + [Begin(0, edit)] + [Begin(1, switch)], Lock(1));
    steps := [] + [Begin(0, edit)] + [Begin(1, switch)] + [Lock(1)];
  }

  // An edit carried out in OFF: a switch to OFF takes the lock between the check and the edit.
  lemma EditWhileOff(sha: Sha) returns (m: State, steps: seq<Step>, last: Step)
    ensures Good(sha, Quiet(m)) && m.code == RF_REC_ON
    ensures RunSteps(sha, Quiet(m), steps).monitor.code == RF_OFF
    ensures Contents(RunSteps(sha, Quiet(m), steps).monitor.store) == []
    ensures Contents(RunSteps(sha, Quiet(m), steps + [last]).monitor.store) == ["/p"]
  {
    var pw: Buffer := seq(PASSW_LEN, _ => NUL);
    m := State(RF_REC_ON, EMPTY, AllProbes(true), sha(CopiedText(pw, [])));
    assert Contents(EMPTY) == [];
    steps := SwitchBeforeEdit(sha, Quiet(m), AddPath("/p", pw, [], 0), Switch(RF_OFF, pw, [], 0));
    last := Lock(0);
    StepsSnoc(sha, Quiet(m), steps, last);
    ListedIffInContents(EMPTY, "/p");
    AddContents(EMPTY, "/p");
  }
}
