/**
 The probe loops of enable_kprobes and disable_kprobes when several switches are in them at once.  A switch writes
 the ten probes one after the other without the lock, so the loops of different switches interleave.
 */
module ProbeLoops {
  import opened Interception

  // A loop in progress: what it writes and the probe it writes next.
  datatype Writer = Writer(on: bool, next: nat)

  datatype Loops = Loops(probes: seq<bool>, writing: map<nat, Writer>)

  predicate Bounded(l: Loops) {
    |l.probes| == NUM_KRETPROBES && forall t :: t in l.writing ==> l.writing[t].next < NUM_KRETPROBES
  }

  function AllProbes(on: bool): (p: seq<bool>)
    ensures |p| == NUM_KRETPROBES && forall i :: 0 <= i < |p| ==> p[i] == on
  {
    seq(NUM_KRETPROBES, _ => on)
  }

  // One round of thread t's loop.
  function Round(l: Loops, t: nat): (r: Loops)
    requires Bounded(l)
    ensures Bounded(r)
  {
    if t !in l.writing then l
    else
      var w := l.writing[t];
      Loops(l.probes[w.next := w.on],
            if w.next + 1 == NUM_KRETPROBES then l.writing - {t} else l.writing[t := Writer(w.on, w.next + 1)])
  }

  // The loops after the threads of the schedule each took a round, in order.
  function Rounds(l: Loops, schedule: seq<nat>): (r: Loops)
    requires Bounded(l)
    ensures Bounded(r)
    decreases |schedule|
  {
    if schedule == [] then l else Round(Rounds(l, schedule[..|schedule| - 1]), schedule[|schedule| - 1])
  }

  lemma {:induction false} RoundsConcat(l: Loops, a: seq<nat>, b: seq<nat>)
    requires Bounded(l)
    ensures Rounds(l, a + b) == Rounds(Rounds(l, a), b)
    decreases |b|
  {
    if b == [] {
      assert a + b == a;
    } else {
      RoundsConcat(l, a, b[..|b| - 1]);
      assert (a + b)[..|a + b| - 1] == a + b[..|b| - 1];
    }
  }

  // ---------------------------------------------------------------- when all loops write the same

  // Every loop writes `on`, and thread t's loop has done so up to where it is.
  ghost predicate Uniform(l: Loops, t: nat, on: bool) {
    && Bounded(l)
    && (forall u :: u in l.writing ==> l.writing[u].on == on)
    && (if t in l.writing then forall i :: 0 <= i < l.writing[t].next ==> l.probes[i] == on else l.probes == AllProbes(on))
  }

  lemma UniformRound(l: Loops, t: nat, on: bool, u: nat)
    requires Uniform(l, t, on)
    ensures Uniform(Round(l, u), t, on)
  {
  }

  lemma {:induction false} UniformRounds(l: Loops, t: nat, on: bool, schedule: seq<nat>)
    requires Uniform(l, t, on)
    ensures Uniform(Rounds(l, schedule), t, on)
    decreases |schedule|
  {
    if schedule == [] {
    } else {
      UniformRounds(l, t, on, schedule[..|schedule| - 1]);
      UniformRound(Rounds(l, schedule[..|schedule| - 1]), t, on, schedule[|schedule| - 1]);
    }
  }

  // ---------------------------------------------------------------- when one loop writes the other value

  function Copies(t: nat, n: nat): (s: seq<nat>)
    ensures |s| == n && forall i :: 0 <= i < n ==> s[i] == t
  {
    seq(n, _ => t)
  }

  // Thread t alone finishes its loop: the probes from where it is hold what it writes, the others are as before.
  lemma {:induction false} Finish(l: Loops, t: nat, n: nat)
    requires Bounded(l) && t in l.writing && n == NUM_KRETPROBES - l.writing[t].next
    ensures Rounds(l, Copies(t, n)).writing == l.writing - {t}
    ensures forall i :: 0 <= i < NUM_KRETPROBES ==>
              Rounds(l, Copies(t, n)).probes[i] == if i < l.writing[t].next then l.probes[i] else l.writing[t].on
    decreases n
  {
    var l' := Round(l, t);
    assert [t] + Copies(t, n - 1) == Copies(t, n);
    RoundsConcat(l, [t], Copies(t, n - 1));
    assert [t][..0] == [] && Rounds(l, [t]) == l';
    if n == 1 {
      assert Rounds(l', Copies(t, 0)) == l';
    } else {
      Finish(l', t, n - 1);
      assert l'.writing - {t} == l.writing - {t};
    }
  }

  lemma FewerLoops(writing: map<nat, Writer>, u: nat)
    requires u in writing
    ensures |writing - {u}| < |writing| && forall t :: t in writing && t != u ==> (writing - {u})[t] == writing[t]
  {
    var less := writing - {u};
    assert less.Keys == writing.Keys - {u};
    assert |less.Keys| == |writing.Keys| - 1;
  }

  // Another thread that is in its loop, if there is one.
  lemma AnotherLoop(writing: map<nat, Writer>, t: nat) returns (u: nat)
    requires t in writing && writing - {t} != map[]
    ensures u in writing && u != t
  {
    var rest := writing - {t};
    assert rest.Keys != {};
    u :| u in rest.Keys;
  }

  // All loops finish, with thread t's the last.
  lemma {:induction false} FinishLast(l: Loops, t: nat) returns (schedule: seq<nat>)
    requires Bounded(l) && t in l.writing
    ensures Rounds(l, schedule).writing == map[]
    ensures Rounds(l, schedule).probes[NUM_KRETPROBES - 1] == l.writing[t].on
    decreases |l.writing|
  {
    if l.writing - {t} == map[] {
      schedule := Copies(t, NUM_KRETPROBES - l.writing[t].next);
      Finish(l, t, NUM_KRETPROBES - l.writing[t].next);
    } else {
      var u := AnotherLoop(l.writing, t);
      var first := Copies(u, NUM_KRETPROBES - l.writing[u].next);
      Finish(l, u, NUM_KRETPROBES - l.writing[u].next);
      FewerLoops(l.writing, u);
      var rest := FinishLast(Rounds(l, first), t);
      schedule := first + rest;
      RoundsConcat(l, first, rest);
    }
  }

  // However the rounds interleave, once all loops are over every probe is as `on` says.
  ghost predicate AlwaysAgree(l: Loops, on: bool)
    requires Bounded(l)
  {
    forall schedule :: Rounds(l, schedule).writing == map[] ==> Rounds(l, schedule).probes == AllProbes(on)
  }

  // When a switch enters its loop, the probes are sure to end up as it says if and only if every loop still in
  // progress writes the same value.
  lemma AgreementExactly(l: Loops, t: nat, on: bool)
    requires Bounded(l) && t in l.writing && l.writing[t] == Writer(on, 0)
    ensures AlwaysAgree(l, on) <==> forall u :: u in l.writing ==> l.writing[u].on == on
  {
    if forall u :: u in l.writing ==> l.writing[u].on == on {
      forall schedule | Rounds(l, schedule).writing == map[] ensures Rounds(l, schedule).probes == AllProbes(on) {
        UniformRounds(l, t, on, schedule);
      }
    } else {
      var u :| u in l.writing && l.writing[u].on != on;
      var schedule := FinishLast(l, u);
      assert Rounds(l, schedule).probes[NUM_KRETPROBES - 1] != AllProbes(on)[NUM_KRETPROBES - 1];
    }
  }
}
