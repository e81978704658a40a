/**
 When a positive answer of the lookup can be trusted.  The lookup reads the state before it reads the head, so
 the monitor may be switched off while an entry is listed that only the stale walk sees.  Which schedules of
 switches rule that out is stated exactly.
 */
module SwitchSchedules {
  import opened BlacklistStore
  import opened BlacklistRuns
  import opened PathMatching
  import opened Lookup

  // ---------------------------------------------------------------- the switches of an interleaving

  function Codes(es: seq<Event>): (codes: seq<int>)
    decreases |es|
  {
    if es == [] then []
    else Codes(es[..|es| - 1]) + if es[|es| - 1].SwitchTo? then [es[|es| - 1].state] else []
  }

  // The state that a sequence of switches leaves.
  function Settled(code: int, codes: seq<int>): int {
    if codes == [] then code else codes[|codes| - 1]
  }

  lemma {:induction false} StateAfter(w: World, es: seq<Event>)
    requires WellLinked(w.store)
    ensures After(w, es).state == Settled(w.state, Codes(es))
    decreases |es|
  {
    if es == [] {
    } else {
      StateAfter(w, es[..|es| - 1]);
    }
  }

  lemma {:induction false} CodesConcat(a: seq<Event>, b: seq<Event>)
    ensures Codes(a + b) == Codes(a) + Codes(b)
    decreases |b|
  {
    if b == [] {
      assert a + b == a;
    } else {
      CodesConcat(a, b[..|b| - 1]);
      assert (a + b)[..|a + b| - 1] == a + b[..|b| - 1];
    }
  }

  // The state between two moments.
  lemma StateBetween(w: World, es: seq<Event>, i: nat, j: nat)
    requires WellLinked(w.store) && i <= j <= |es|
    ensures At(w, es, j).state == Settled(At(w, es, i).state, Codes(es[i..j]))
  {
    AfterConcat(w, es[..i], es[i..j]);
    assert es[..i] + es[i..j] == es[..j];
    StateAfter(At(w, es, i), es[i..j]);
  }

  // The monitor is on from the moment the head is read until the lock is taken.
  predicate OnThroughout(code: int, c2: seq<int>, c3: seq<int>) {
    !Off(Settled(code, c2)) && forall i :: 0 <= i < |c3| ==> !Off(c3[i])
  }

  // Some moment of the call at which an atomic lookup answers 1.
  ghost predicate HasMoment(w: World, es: seq<Event>, t: Times, path: string)
    requires WellLinked(w.store) && InOrder(t, |es|)
  {
    exists k :: t.size <= k <= t.lock && AtomicAnswer(At(w, es, k), path)
  }

  // The schedule of switches that a lookup meets: the state when it is read for the second time, the switches
  // from there to the head read, and those from there to the lock.
  ghost predicate Meets(w: World, es: seq<Event>, t: Times, code: int, c2: seq<int>, c3: seq<int>)
    requires WellLinked(w.store) && InOrder(t, |es|)
  {
    At(w, es, t.again).state == code && Codes(es[t.again..t.head]) == c2 && Codes(es[t.head..t.lock]) == c3
  }

  // Whatever list and whatever edits go with the schedule, a positive answer is right at some moment.
  ghost predicate AlwaysAtomic(code: int, c2: seq<int>, c3: seq<int>) {
    forall w: World, es: seq<Event>, t: Times, path: string ::
      (Inv(w.store) && InOrder(t, |es|) && Meets(w, es, t, code, c2, c3) && Answer(w, es, t, path)) ==>
        HasMoment(w, es, t, path)
  }

  // ---------------------------------------------------------------- sufficiency

  lemma OnAtEveryMoment(w: World, es: seq<Event>, i: nat, j: nat, k: nat)
    requires WellLinked(w.store) && i <= k <= j <= |es| && !Off(At(w, es, i).state)
    requires forall n :: 0 <= n < |Codes(es[i..j])| ==> !Off(Codes(es[i..j])[n])
    ensures !Off(At(w, es, k).state)
  {
    StateBetween(w, es, i, k);
    CodesConcat(es[i..k], es[k..j]);
    assert es[i..k] + es[k..j] == es[i..j];
    var codes := Codes(es[i..k]);
    if codes != [] {
      assert codes[|codes| - 1] == Codes(es[i..j])[|codes| - 1];
    }
  }

  lemma OnIsEnough(w: World, es: seq<Event>, t: Times, path: string, code: int, c2: seq<int>, c3: seq<int>)
    requires WellLinked(w.store) && InOrder(t, |es|) && Answer(w, es, t, path)
    requires Meets(w, es, t, code, c2, c3) && OnThroughout(code, c2, c3)
    ensures HasMoment(w, es, t, path)
  {
    StateBetween(w, es, t.again, t.head);
    forall k | t.head <= k <= t.lock ensures !Off(At(w, es, k).state) {
      OnAtEveryMoment(w, es, t.head, t.lock, k);
    }
    var k := PositiveAnswerIsAtomic(w, es, t, path);
  }

  // ---------------------------------------------------------------- necessity

  function Switches(codes: seq<int>): (es: seq<Event>)
    ensures |es| == |codes| && forall i :: 0 <= i < |codes| ==> es[i] == SwitchTo(codes[i])
  {
    seq(|codes|, i requires 0 <= i < |codes| => SwitchTo(codes[i]))
  }

  lemma {:induction false} SwitchesOnly(w: World, codes: seq<int>)
    requires WellLinked(w.store)
    ensures After(w, Switches(codes)) == World(w.store, Settled(w.state, codes))
    ensures Codes(Switches(codes)) == codes
    decreases |codes|
  {
    if codes == [] {
    } else {
      SwitchesOnly(w, codes[..|codes| - 1]);
      assert Switches(codes)[..|codes| - 1] == Switches(codes[..|codes| - 1]);
    }
  }

  // A list with one entry, and what is done to it while the monitor is off: /p is added behind /x, and both are
  // taken out again.
  const ONE := Store([Entry("/x", Null)], To(0), 1)
  const TWO := Store([Entry("/x", To(1)), Entry("/p", Null)], To(0), 2)
  const LAST := Store([Entry("/x", To(1)), Entry("/p", Null)], To(1), 1)
  const NONE := Store([Entry("/x", To(1)), Entry("/p", Null)], Null, 0)
  const EDITS: seq<Event> := [ListOp(AddOp("/p")), ListOp(RemoveOp("/x")), ListOp(RemoveOp("/p"))]

  lemma StoreChains()
    ensures WellLinked(ONE) && Live(ONE) == [0] && Contents(ONE) == ["/x"]
    ensures WellLinked(TWO) && Live(TWO) == [0, 1] && Contents(TWO) == ["/x", "/p"]
    ensures WellLinked(LAST) && Live(LAST) == [1] && Contents(LAST) == ["/p"]
    ensures WellLinked(NONE) && Live(NONE) == [] && Contents(NONE) == []
  {
    assert Chain(TWO.entries, To(1)) == [1];
    assert Chain(TWO.entries, To(0)) == [0, 1];
  }

  lemma StoreEdits()
    ensures WellLinked(ONE) && Add(ONE, "/p") == TWO
    ensures WellLinked(TWO) && Remove(TWO, "/x") == LAST
    ensures WellLinked(LAST) && Remove(LAST, "/p") == NONE
  {
    StoreChains();
    assert "/x"[1] != "/p"[1];
    ListedIffInContents(ONE, "/p");
    AddWrites(ONE, "/p");
    RemoveWrites(TWO, "/x");
    RemoveWrites(LAST, "/p");
  }

  lemma EditsNext(w: World, j: nat)
    requires j < 3 && w.store == [ONE, TWO, LAST, NONE][j]
    ensures WellLinked(w.store) && Next(w, EDITS[j]) == World([ONE, TWO, LAST, NONE][j + 1], w.state)
  {
    StoreEdits();
  }

  lemma {:induction false} EditsRun(w: World, j: nat)
    requires w.store == ONE && j <= 3
    ensures WellLinked(ONE)
    ensures After(w, EDITS[..j]) == World([ONE, TWO, LAST, NONE][j], w.state)
  {
    StoreEdits();
    if j == 0 {
    } else {
      EditsRun(w, j - 1);
      EditsNext(After(w, EDITS[..j - 1]), j - 1);
      assert EDITS[..j] == EDITS[..j - 1] + [EDITS[j - 1]];
      AfterSnoc(w, EDITS[..j - 1], EDITS[j - 1]);
    }
  }

  function LateEvents(a: seq<int>, b: seq<int>): seq<Event> {
    Switches(a) + EDITS + Switches(b)
  }

  lemma {:induction false} NoCodes(es: seq<Event>)
    requires forall i :: 0 <= i < |es| ==> es[i].ListOp?
    ensures Codes(es) == []
    decreases |es|
  {
    if es == [] {
    } else {
      NoCodes(es[..|es| - 1]);
    }
  }

  lemma LateCodes(a: seq<int>, b: seq<int>)
    ensures Codes(LateEvents(a, b)) == a + b
  {
    SwitchesOnly(World(EMPTY, 0), a);
    SwitchesOnly(World(EMPTY, 0), b);
    CodesConcat(Switches(a) + EDITS, Switches(b));
    CodesConcat(Switches(a), EDITS);
    NoCodes(EDITS);
  }

  // At every moment the path is unprotected, or the monitor is off.
  ghost predicate Harmless(m: World) {
    m.store == ONE || m.store == NONE || Off(m.state)
  }

  lemma LateMoment(v: World, a: seq<int>, b: seq<int>, k: nat)
    requires v.store == ONE && WellLinked(ONE) && Off(Settled(v.state, a)) && k <= |LateEvents(a, b)|
    ensures Harmless(At(v, LateEvents(a, b), k))
    ensures k <= |a| ==> At(v, LateEvents(a, b), k) == World(ONE, Settled(v.state, a[..k]))
    ensures k == |LateEvents(a, b)| ==> At(v, LateEvents(a, b), k).store == NONE
  {
    var es, n := LateEvents(a, b), |a|;
    SwitchesOnly(v, a);
    var u := After(v, Switches(a));
    if k <= n {
      assert es[..k] == Switches(a[..k]);
      SwitchesOnly(v, a[..k]);
    } else if k <= n + 3 {
      assert es[..k] == Switches(a) + EDITS[..k - n];
      AfterConcat(v, Switches(a), EDITS[..k - n]);
      EditsRun(u, k - n);
    } else {
      assert es[..k] == Switches(a) + EDITS + Switches(b[..k - n - 3]);
      AfterConcat(v, Switches(a) + EDITS, Switches(b[..k - n - 3]));
      AfterConcat(v, Switches(a), EDITS);
      EditsRun(u, 3);
      assert EDITS[..3] == EDITS;
      SwitchesOnly(After(u, EDITS), b[..k - n - 3]);
    }
  }

  lemma StaleWalkFindsIt()
    ensures WellLinked(NONE) && InRange(NONE.entries, To(0)) && WalkFinds(NONE.entries, To(0), "/p")
  {
    StoreChains();
    assert Chain(NONE.entries, To(1)) == [1];
    assert Chain(NONE.entries, To(0)) == [0, 1];
    ChainAscends(NONE.entries, To(0));
    assert Protects(Paths(NONE.entries, [0, 1])[1], "/p");
  }

  lemma HarmlessIsNotAtomic(m: World)
    requires Harmless(m) && WellLinked(m.store)
    ensures !AtomicAnswer(m, "/p")
  {
    StoreChains();
    assert "/x"[1] != "/p"[1] && Trimmed("/x") == "/x";
  }

  // The switches of a lookup that sees REC_ON first and `code` at its second read, and meets c2 and then a.
  function Prelude(code: int, c2: seq<int>, a: seq<int>): (p: seq<int>)
    ensures |p| == 1 + |c2| + |a|
    ensures p[..1] == [code] && Settled(RF_REC_ON, p[..1 + |c2|]) == Settled(code, c2)
    ensures Settled(RF_REC_ON, p) == Settled(Settled(code, c2), a)
  {
    [code] + c2 + a
  }

  lemma LateSlices(code: int, c2: seq<int>, a: seq<int>, b: seq<int>)
    ensures var es := LateEvents(Prelude(code, c2, a), b);
            es[1..1 + |c2|] == Switches(c2) && es[1 + |c2|..|es|] == LateEvents(a, b)
  {
  }

  lemma LateMeets(code: int, c2: seq<int>, a: seq<int>, b: seq<int>)
    ensures var es := LateEvents(Prelude(code, c2, a), b);
            && Codes(es[1..1 + |c2|]) == c2
            && Codes(es[1 + |c2|..|es|]) == a + b
  {
    LateSlices(code, c2, a, b);
    SwitchesOnly(World(EMPTY, 0), c2);
    LateCodes(a, b);
  }

  function LateTimes(code: int, c2: seq<int>, a: seq<int>, b: seq<int>): (t: Times)
    ensures InOrder(t, |LateEvents(Prelude(code, c2, a), b)|)
  {
    Times(0, 0, 1, 1 + |c2|, |LateEvents(Prelude(code, c2, a), b)|)
  }

  // If the switches have the monitor off at any moment from the head read to the lock, some edits of a list with
  // one entry make a positive answer wrong at every moment of the call.
  lemma LateAnswer(code: int, c2: seq<int>, a: seq<int>, b: seq<int>)
    requires code != RF_REC_OFF && Off(Settled(Settled(code, c2), a))
    ensures Inv(ONE)
    ensures var w, es, t := World(ONE, RF_REC_ON), LateEvents(Prelude(code, c2, a), b), LateTimes(code, c2, a, b);
            && Meets(w, es, t, code, c2, a + b)
            && Answer(w, es, t, "/p")
            && !HasMoment(w, es, t, "/p")
  {
    StoreChains();
    var p := Prelude(code, c2, a);
    var w, es, t := World(ONE, RF_REC_ON), LateEvents(p, b), LateTimes(code, c2, a, b);
    LateMeets(code, c2, a, b);
    assert p[..0] == [];
    LateMoment(w, p, b, 0);
    LateMoment(w, p, b, 1);
    LateMoment(w, p, b, t.head);
    LateMoment(w, p, b, t.lock);
    StaleWalkFindsIt();
    forall k | 0 <= k <= |es| ensures !AtomicAnswer(At(w, es, k), "/p") {
      LateMoment(w, p, b, k);
      HarmlessIsNotAtomic(At(w, es, k));
    }
  }

  lemma OffPrefix(code: int, c2: seq<int>, c3: seq<int>) returns (i: nat)
    requires !OnThroughout(code, c2, c3)
    ensures i <= |c3| && Off(Settled(Settled(code, c2), c3[..i]))
  {
    if Off(Settled(code, c2)) {
      i := 0;
    } else {
      var j :| 0 <= j < |c3| && Off(c3[j]);
      i := j + 1;
    }
  }

  lemma OnSuffices(code: int, c2: seq<int>, c3: seq<int>)
    requires OnThroughout(code, c2, c3)
    ensures AlwaysAtomic(code, c2, c3)
  {
    forall w: World, es: seq<Event>, t: Times, path: string |
      Inv(w.store) && InOrder(t, |es|) && Meets(w, es, t, code, c2, c3) && Answer(w, es, t, path)
      ensures HasMoment(w, es, t, path)
    {
      OnIsEnough(w, es, t, path, code, c2, c3);
    }
  }

  lemma LateFails(code: int, c2: seq<int>, a: seq<int>, b: seq<int>)
    requires code != RF_REC_OFF && Off(Settled(Settled(code, c2), a))
    ensures !AlwaysAtomic(code, c2, a + b)
  {
    LateAnswer(code, c2, a, b);
  }

  lemma OffFails(code: int, c2: seq<int>, c3: seq<int>)
    requires code != RF_REC_OFF && !OnThroughout(code, c2, c3)
    ensures !AlwaysAtomic(code, c2, c3)
  {
    var i := OffPrefix(code, c2, c3);
    var a, b := c3[..i], c3[i..];
    assert a + b == c3;
    LateFails(code, c2, a, b);
  }

  // The exact condition: for a schedule of switches, every positive answer is right at some moment of the call if
  // and only if the monitor is on from the head read to the lock, or the second read finds REC_OFF, so that there
  // is no positive answer.
  lemma ScheduleDecides(code: int, c2: seq<int>, c3: seq<int>)
    ensures AlwaysAtomic(code, c2, c3) <==> code == RF_REC_OFF || OnThroughout(code, c2, c3)
  {
    if code == RF_REC_OFF {
    } else if OnThroughout(code, c2, c3) {
      OnSuffices(code, c2, c3);
    } else {
      OffFails(code, c2, c3);
    }
  }

  // The shortest failing schedule: a single switch to REC_OFF after the state was read.
  lemma PositiveAnswerMayBeLate() returns (w: World, es: seq<Event>, t: Times)
    ensures Inv(w.store) && InOrder(t, |es|) && Meets(w, es, t, RF_ON, [RF_REC_OFF], [])
    ensures Answer(w, es, t, "/p") && !HasMoment(w, es, t, "/p")
  {
    LateAnswer(RF_ON, [RF_REC_OFF], [], []);
    w, es := World(ONE, RF_REC_ON), LateEvents(Prelude(RF_ON, [RF_REC_OFF], []), []);
    t := LateTimes(RF_ON, [RF_REC_OFF], [], []);
  }
}
