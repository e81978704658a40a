/**
 The system with its probes: when they agree with the state although switches overlap, what a call does that runs
 alone, and what is blocked in the end.
 */
module MonitorProbes {
  import opened BlacklistStore
  import opened BlacklistRuns
  import opened CStrings
  import opened Lookup
  import opened SwitchSchedules
  import opened Interception
  import opened Handlers
  import opened ProbeLoops
  import opened Password
  import opened Monitor
  import opened MonitorSteps

  // ---------------------------------------------------------------- the probe loops of a run

  // The threads that took a round of their probe loop.
  function Tids(steps: seq<Step>): seq<nat>
    decreases |steps|
  {
    if steps == [] then []
    else Tids(steps[..|steps| - 1]) + if steps[|steps| - 1].WriteProbe? then [steps[|steps| - 1].tid] else []
  }

  lemma RoundsSnoc(l: Loops, schedule: seq<nat>, t: nat)
    requires Bounded(l)
    ensures Rounds(l, schedule + [t]) == Round(Rounds(l, schedule), t)
  {
    assert (schedule + [t])[..|schedule|] == schedule;
  }

  lemma CodesOfCommit(s: System, step: Step)
    ensures Codes(CommitOf(s, step)) == [] <==>
            !(step.Lock? && step.tid in s.waiting && s.waiting[step.tid].request.Switch?)
  {
    var es := CommitOf(s, step);
    if es != [] {
      assert es[..0] == [];
    }
  }

  lemma LoopsStep(sha: Sha, s: System, step: Step, l: Loops, tids: seq<nat>)
    requires Good(sha, s) && Codes(CommitOf(s, step)) == []
    requires Bounded(l) && LoopsOf(s) == Rounds(l, tids)
    ensures LoopsOf(Advance(sha, s, step)) == Rounds(l, tids + if step.WriteProbe? then [step.tid] else [])
  {
    CodesOfCommit(s, step);
    if step.WriteProbe? {
      RoundsSnoc(l, tids, step.tid);
    } else {
      assert tids + [] == tids;
    }
  }

  lemma CodesSplit(a: seq<Event>, b: seq<Event>)
    requires Codes(a + b) == []
    ensures Codes(a) == [] && Codes(b) == []
  {
    CodesConcat(a, b);
  }

  // While no switch takes the lock, the probe loops are all that touches the probes.
  lemma {:induction false} LoopsRun(sha: Sha, s: System, steps: seq<Step>)
    requires Good(sha, s) && Codes(Committed(sha, s, steps)) == []
    ensures LoopsOf(RunSteps(sha, s, steps)) == Rounds(LoopsOf(s), Tids(steps))
    decreases |steps|
  {
    if steps == [] {
    } else {
      var front, step := steps[..|steps| - 1], steps[|steps| - 1];
      var before := RunSteps(sha, s, front);
      CodesSplit(Committed(sha, s, front), CommitOf(before, step));
      LoopsRun(sha, s, front);
      LoopsStep(sha, before, step, LoopsOf(s), Tids(front));
    }
  }

  // ---------------------------------------------------------------- overlapping switches

  // If no further switch takes the lock, the probes agree with the state once all probe loops are over, whatever
  // else happens and however the loops interleave.
  ghost predicate WillAgree(sha: Sha, s: System)
    requires Good(sha, s)
  {
    forall steps ::
      (Codes(Committed(sha, s, steps)) == [] && RunSteps(sha, s, steps).writing == map[]) ==>
        RunSteps(sha, s, steps).monitor.probes == AllProbes(!Off(s.monitor.code))
  }

  // The steps of a schedule of rounds.
  function RoundSteps(schedule: seq<nat>): (steps: seq<Step>)
    ensures |steps| == |schedule| && forall i :: 0 <= i < |steps| ==> steps[i] == WriteProbe(schedule[i])
  {
    seq(|schedule|, i requires 0 <= i < |schedule| => WriteProbe(schedule[i]))
  }

  lemma {:induction false} RoundTids(schedule: seq<nat>)
    ensures Tids(RoundSteps(schedule)) == schedule
    decreases |schedule|
  {
    if schedule == [] {
    } else {
      RoundTids(schedule[..|schedule| - 1]);
      assert RoundSteps(schedule)[..|schedule| - 1] == RoundSteps(schedule[..|schedule| - 1]);
    }
  }

  lemma {:induction false} RoundsCommitNothing(sha: Sha, s: System, steps: seq<Step>)
    requires Good(sha, s) && forall i :: 0 <= i < |steps| ==> steps[i].WriteProbe?
    ensures Committed(sha, s, steps) == []
    decreases |steps|
  {
    if steps == [] {
    } else {
      RoundsCommitNothing(sha, s, steps[..|steps| - 1]);
    }
  }

  lemma WillAgreeIffLoopsDo(sha: Sha, s: System)
    requires Good(sha, s)
    ensures WillAgree(sha, s) <==> AlwaysAgree(LoopsOf(s), !Off(s.monitor.code))
  {
    if WillAgree(sha, s) {
      forall schedule | Rounds(LoopsOf(s), schedule).writing == map[]
        ensures Rounds(LoopsOf(s), schedule).probes == AllProbes(!Off(s.monitor.code))
      {
        RoundTids(schedule);
        RoundsCommitNothing(sha, s, RoundSteps(schedule));
        LoopsRun(sha, s, RoundSteps(schedule));
      }
    }
    if AlwaysAgree(LoopsOf(s), !Off(s.monitor.code)) {
      forall steps | Codes(Committed(sha, s, steps)) == [] && RunSteps(sha, s, steps).writing == map[]
        ensures RunSteps(sha, s, steps).monitor.probes == AllProbes(!Off(s.monitor.code))
      {
        LoopsRun(sha, s, steps);
      }
    }
  }

  // When a switch takes the lock, the probes are sure to end up in agreement with its state if and only if every
  // switch still in its probe loop writes the same value.
  lemma SwitchAgreement(sha: Sha, s: System, t: nat)
    requires Good(sha, s) && t in s.waiting && s.waiting[t].request.Switch?
    ensures Good(sha, Advance(sha, s, Lock(t)))
    ensures WillAgree(sha, Advance(sha, s, Lock(t))) <==>
            forall u :: u in s.writing ==> s.writing[u].on == !Off(s.waiting[t].request.to)
  {
    AdvanceKeeps(sha, s, Lock(t));
    var s' := Advance(sha, s, Lock(t));
    var on := !Off(s.waiting[t].request.to);
    WillAgreeIffLoopsDo(sha, s');
    AgreementExactly(LoopsOf(s'), t, on);
    assert s'.writing == s.writing[t := Writer(on, 0)] && t !in s.writing;
    assert forall u :: u in s.writing ==> u in s'.writing && s'.writing[u] == s.writing[u];
  }

  // ---------------------------------------------------------------- complete calls

  function Loop(t: nat): (steps: seq<Step>)
    ensures |steps| == NUM_KRETPROBES && forall i :: 0 <= i < |steps| ==> steps[i] == WriteProbe(t)
  {
    seq(NUM_KRETPROBES, _ => WriteProbe(t))
  }

  // A call that runs from start to end with nothing in between is served as a whole.
  lemma CompleteCall(sha: Sha, m: State, t: nat, r: Request)
    requires Invariant(m)
    ensures Good(sha, Quiet(m))
    ensures RunSteps(sha, Quiet(m), [Begin(t, r), Lock(t)] + Loop(t)) == Quiet(Serve(sha, m, r).0)
  {
    var s := Quiet(m);
    var s1 := Advance(sha, s, Begin(t, r));
    AdvanceKeeps(sha, s, Begin(t, r));
    var s2 := Advance(sha, s1, Lock(t));
    AdvanceKeeps(sha, s1, Lock(t));
    StepsSnoc(sha, s, [], Begin(t, r));
    StepsSnoc(sha, s, [] + [Begin(t, r)], Lock(t));
    assert [] + [Begin(t, r)] + [Lock(t)] == [Begin(t, r), Lock(t)];
    RunConcat(sha, s, [Begin(t, r), Lock(t)], Loop(t));
    FullLoop(sha, s2, t);
    if Refusal(sha, m.code, m.digest, r) == 0 {
      assert s1.waiting - {t} == map[];
      if r.Switch? {
        assert RunSteps(sha, s2, Loop(t)).monitor.probes == AllProbes(!Off(r.to));
      }
    }
  }

  lemma {:induction false} LoopSteps(sha: Sha, s: System, t: nat, n: nat)
    requires Good(sha, s) && n <= NUM_KRETPROBES
    ensures var r, l := RunSteps(sha, s, Loop(t)[..n]), Rounds(LoopsOf(s), Copies(t, n));
            r == System(s.monitor.(probes := l.probes), s.waiting, l.writing)
  {
    if n == 0 {
    } else {
      LoopSteps(sha, s, t, n - 1);
      assert Loop(t)[..n][..n - 1] == Loop(t)[..n - 1];
      assert Copies(t, n)[..n - 1] == Copies(t, n - 1);
    }
  }

  lemma {:induction false} NoRounds(l: Loops, t: nat, n: nat)
    requires Bounded(l) && t !in l.writing
    ensures Rounds(l, Copies(t, n)) == l
  {
    if n == 0 {
    } else {
      NoRounds(l, t, n - 1);
      assert Copies(t, n)[..n - 1] == Copies(t, n - 1);
    }
  }

  lemma FullLoop(sha: Sha, s: System, t: nat)
    requires Good(sha, s) && (t in s.writing ==> s.writing[t].next == 0)
    ensures RunSteps(sha, s, Loop(t))
         == if t in s.writing then System(s.monitor.(probes := AllProbes(s.writing[t].on)), s.waiting, s.writing - {t}) else s
  {
    LoopSteps(sha, s, t, NUM_KRETPROBES);
    assert Loop(t)[..NUM_KRETPROBES] == Loop(t);
    if t in s.writing {
      Finish(LoopsOf(s), t, NUM_KRETPROBES);
    } else {
      NoRounds(LoopsOf(s), t, NUM_KRETPROBES);
    }
  }

  lemma BothBegun(sha: Sha, s: System, on: Request, off: Request)
    requires Good(sha, s) && s.waiting == map[] && s.writing == map[] && on.Switch? && off.Switch?
    requires Refusal(sha, s.monitor.code, s.monitor.digest, on) == 0
    requires Refusal(sha, s.monitor.code, s.monitor.digest, off) == 0
    ensures RunSteps(sha, s, [] + [Begin(0, on)] + [Begin(1, off)])
         == s.(waiting := map[0 := Call(on, s.monitor.code), 1 := Call(off, s.monitor.code)])
  {
    StepsSnoc(sha, s, [], Begin(0, on));
    assert RunSteps(sha, s, [] + [Begin(0, on)]) == s.(waiting := map[0 := Call(on, s.monitor.code)]);
    StepsSnoc(sha, s, [] + [Begin(0, on)], Begin(1, off));
  }

  lemma LockSwitch(sha: Sha, s: System, t: nat)
    requires Good(sha, s) && t in s.waiting && s.waiting[t].request.Switch?
    ensures var to := s.waiting[t].request.to;
            Advance(sha, s, Lock(t))
            == System(s.monitor.(code := to), s.waiting - {t}, s.writing[t := Writer(!Off(to), 0)])
  {
  }

  lemma BothLocked(sha: Sha, s: System, on: Request, off: Request)
    requires Good(sha, s) && s.writing == map[] && on.Switch? && off.Switch?
    requires s.waiting == map[0 := Call(on, s.monitor.code), 1 := Call(off, s.monitor.code)]
    ensures RunSteps(sha, s, [] + [Lock(0)] + [Lock(1)])
         == System(s.monitor.(code := off.to), map[], map[0 := Writer(!Off(on.to), 0), 1 := Writer(!Off(off.to), 0)])
  {
    StepsSnoc(sha, s, [], Lock(0));
    LockSwitch(sha, s, 0);
    var one := RunSteps(sha, s, [] + [Lock(0)]);
    assert one.waiting == map[1 := Call(off, s.monitor.code)];
    StepsSnoc(sha, s, [] + [Lock(0)], Lock(1));
    LockSwitch(sha, one, 1);
    assert one.waiting - {1} == map[];
  }

  // Two switches lock one after the other, and then finish their loops in the other order.
  lemma CrossedSwitches(sha: Sha, s: System, on: Request, off: Request) returns (steps: seq<Step>)
    requires Good(sha, s) && s.waiting == map[] && s.writing == map[] && on.Switch? && off.Switch?
    requires Refusal(sha, s.monitor.code, s.monitor.digest, on) == 0 && !Off(on.to)
    requires Refusal(sha, s.monitor.code, s.monitor.digest, off) == 0 && Off(off.to)
    ensures RunSteps(sha, s, steps) == System(s.monitor.(code := off.to, probes := AllProbes(true)), map[], map[])
  {
    var begins, locks, loops := [] + [Begin(0, on)] + [Begin(1, off)], [] + [Lock(0)] + [Lock(1)], Loop(1) + Loop(0);
    BothBegun(sha, s, on, off);
    var begun := RunSteps(sha, s, begins);
    BothLocked(sha, begun, on, off);
    LoopsOneByOne(sha, RunSteps(sha, begun, locks));
    RunConcat(sha, begun, locks, loops);
    RunConcat(sha, s, begins, locks + loops);
    steps := begins + (locks + loops);
  }

  // Probes that end up against the state: a switch to ON and one to OFF lock in that order, and the loop of the first
  // ends last.
  lemma ProbesAgainstState(sha: Sha) returns (m: State, steps: seq<Step>)
    ensures Invariant(m) && Good(sha, Quiet(m))
    ensures var s := RunSteps(sha, Quiet(m), steps);
            && s.waiting == map[] && s.writing == map[]
            && s.monitor.code == RF_OFF && s.monitor.probes == AllProbes(true)
  {
    var pw: Buffer := seq(PASSW_LEN, _ => NUL);
    m := Initial(sha(CopiedText(pw, [])));
    assert Contents(EMPTY) == [];
    steps := CrossedSwitches(sha, Quiet(m), Switch(RF_ON, pw, [], 0), Switch(RF_OFF, pw, [], 0));
  }

  lemma LoopsOneByOne(sha: Sha, s: System)
    requires Good(sha, s) && s.writing == map[0 := Writer(true, 0), 1 := Writer(false, 0)]
    ensures RunSteps(sha, s, Loop(1) + Loop(0)) == System(s.monitor.(probes := AllProbes(true)), s.waiting, map[])
  {
    FullLoop(sha, s, 1);
    RunConcat(sha, s, Loop(1), Loop(0));
    var s1 := RunSteps(sha, s, Loop(1));
    assert s1.writing == map[0 := Writer(true, 0)];
    FullLoop(sha, s1, 0);
    assert s1.writing - {0} == map[];
  }

  // ---------------------------------------------------------------- what is blocked

  // The operation's probe is enabled and its handler, undisturbed, finds a match.
  ghost predicate Blocks(m: State, op: Operation)
    requires WellLinked(m.store) && |m.probes| == NUM_KRETPROBES
  {
    m.probes[Probe(op)] && AtomicBlocks(World(m.store, m.code), op)
  }

  // After any interleaving of calls, an operation whose handler runs undisturbed is blocked exactly when its probe
  // is enabled, the monitor is ON or REC_ON, and the list of the committed edits gives reason to.
  lemma BlockedExactly(sha: Sha, digest: seq<Byte>, steps: seq<Step>, op: Operation)
    ensures Good(sha, Quiet(Initial(digest)))
    ensures var s := RunSteps(sha, Quiet(Initial(digest)), steps);
            var list := ListRun(Edits(Committed(sha, Quiet(Initial(digest)), steps)));
            Blocks(s.monitor, op) <==> s.monitor.probes[Probe(op)] && !Off(s.monitor.code) && Concerns(list, op)
  {
    RunBlacklist(sha, digest, steps);
    var m := RunSteps(sha, Quiet(Initial(digest)), steps).monitor;
    AtomicBlocksExactly(World(m.store, m.code), op);
  }

  // Between complete calls the probes follow the state, so only the state and the list decide.
  lemma BlockedBetweenCalls(m: State, op: Operation)
    requires Invariant(m)
    ensures Blocks(m, op) <==> !Off(m.code) && Concerns(Contents(m.store), op)
  {
    AtomicBlocksExactly(World(m.store, m.code), op);
  }
}
