/**
 How a handler with two lookups can let an operation pass although at every moment one of its names was protected:
 between the two walks an entry for the first name is added and one for the second removed.  For every schedule in
 which that happens there are edits that do it.
 */
module HandlerSchedules {
  import opened BlacklistStore
  import opened BlacklistRuns
  import opened CStrings
  import opened PathMatching
  import opened Lookup
  import opened SwitchSchedules
  import opened Interception
  import opened Handlers

  // ---------------------------------------------------------------- the edits and the list

  // An entry that protects a path and its extensions, and nothing else.
  function Exactly(path: string): (entry: string)
    ensures Trimmed(entry) == path && entry != path
  {
    path + "/"
  }

  lemma ExactlyProtects(path: string, other: string)
    ensures Blocked([Exactly(path)], other) <==> path <= other
  {
    assert [Exactly(path)][0] == Exactly(path);
  }

  // An edit with the given mark.  Until the first name is raised, only entries that are not listed are removed.
  function Edit(first: string, second: string, front: seq<Mark>, last: Mark): Op {
    if last == Raise then AddOp(Exactly(first))
    else if Raise in front then RemoveOp(Exactly(second))
    else RemoveOp(second)
  }

  lemma EditMark(first: string, second: string, front: seq<Mark>, last: Mark)
    ensures Raises(first, ListOp(Edit(first, second, front, last))) <==> last == Raise
    ensures Drops(second, ListOp(Edit(first, second, front, last))) <==> last == Drop
  {
  }

  // The list that such edits leave behind, starting from an entry for the second name.
  ghost function Expected(first: string, second: string, marks: seq<Mark>): seq<string> {
    if Raise !in marks then [Exactly(second)]
    else if RaiseThenDrop(marks) then [Exactly(first)]
    else [Exactly(second), Exactly(first)]
  }

  lemma RaiseThenDropSnoc(front: seq<Mark>, last: Mark)
    ensures RaiseThenDrop(front + [last]) <==> RaiseThenDrop(front) || (last == Drop && Raise in front)
    ensures Raise in front + [last] <==> Raise in front || last == Raise
  {
    var c := front + [last];
    if RaiseThenDrop(front) {
      var i, j :| 0 <= i < j < |front| && front[i] == Raise && front[j] == Drop;
      assert c[i] == Raise && c[j] == Drop;
    } else if last == Drop && Raise in front {
      var i :| 0 <= i < |front| && front[i] == Raise;
      assert c[i] == Raise && c[|front|] == Drop;
    }
  }

  lemma RemoveFirst(x: string, y: string)
    ensures Without1([x, y], x) == [y]
  {
  }

  lemma RemoveAbsent(x: string, p: string)
    requires x != p
    ensures Without1([x], p) == [x]
  {
  }

  lemma ExpectedStep(first: string, second: string, front: seq<Mark>, last: Mark)
    requires first != second
    ensures ListApply(Expected(first, second, front), Edit(first, second, front, last))
         == Expected(first, second, front + [last])
  {
    var x, y := Exactly(second), Exactly(first);
    assert x[..|second|] == second && y[..|first|] == first;
    RaiseThenDropSnoc(front, last);
    RemoveFirst(x, y);
    RemoveAbsent(y, x);
    RemoveAbsent(x, second);
    if RaiseThenDrop(front) {
      assert Raise in front;
    }
  }

  lemma ExpectedProtects(first: string, second: string, marks: seq<Mark>)
    ensures Blocked(Expected(first, second, marks), first) || Blocked(Expected(first, second, marks), second)
  {
    var l := Expected(first, second, marks);
    assert Protects(l[0], first) || Protects(l[0], second);
  }

  lemma ExpectedMisses(first: string, second: string, marks: seq<Mark>)
    requires !(first <= second) && !(second <= first) && RaiseThenDrop(marks)
    ensures !Blocked([Exactly(second)], first) && !Blocked(Expected(first, second, marks), second)
  {
    ExactlyProtects(second, first);
    ExactlyProtects(first, second);
  }

  // ---------------------------------------------------------------- the race

  // One of the two names is protected, and the monitor is on.
  ghost predicate Guarded(m: World, first: string, second: string)
    requires WellLinked(m.store)
  {
    AtomicAnswer(m, first) || AtomicAnswer(m, second)
  }

  // Where a race stands: the list is the expected one, and the monitor is on.
  ghost predicate Stands(m: World, first: string, second: string, marks: seq<Mark>) {
    Inv(m.store) && Contents(m.store) == Expected(first, second, marks) && !Off(m.state)
  }

  lemma StandsGuarded(m: World, first: string, second: string, marks: seq<Mark>)
    requires Stands(m, first, second, marks)
    ensures Guarded(m, first, second)
  {
    ExpectedProtects(first, second, marks);
  }

  lemma StandsNext(m: World, first: string, second: string, front: seq<Mark>, last: Mark)
    requires Stands(m, first, second, front) && first != second
    ensures Stands(Next(m, ListOp(Edit(first, second, front, last))), first, second, front + [last])
  {
    InvNext(m, ListOp(Edit(first, second, front, last)));
    ExpectedStep(first, second, front, last);
  }

  // Events with the given switches and marks, throughout which one of the names is guarded.
  ghost predicate Racing(w: World, es: seq<Event>, first: string, second: string, codes: seq<int>, marks: seq<Mark>)
    requires WellLinked(w.store)
  {
    && Stands(After(w, es), first, second, marks)
    && Codes(es) == codes && Marks(first, second, es) == marks
    && forall k :: 0 <= k <= |es| ==> Guarded(At(w, es, k), first, second)
  }

  lemma AtSnoc(w: World, es: seq<Event>, e: Event, k: nat)
    requires WellLinked(w.store) && k <= |es| + 1
    ensures At(w, es + [e], k) == if k <= |es| then At(w, es, k) else Next(After(w, es), e)
  {
    if k <= |es| {
      assert (es + [e])[..k] == es[..k];
    } else {
      assert (es + [e])[..k] == es + [e];
      AfterSnoc(w, es, e);
    }
  }

  lemma RacingGuarded(w: World, es: seq<Event>, e: Event, first: string, second: string)
    requires WellLinked(w.store) && forall k :: 0 <= k <= |es| ==> Guarded(At(w, es, k), first, second)
    requires WellLinked(Next(After(w, es), e).store) && Guarded(Next(After(w, es), e), first, second)
    ensures forall k :: 0 <= k <= |es + [e]| ==> Guarded(At(w, es + [e], k), first, second)
  {
    forall k | 0 <= k <= |es + [e]| ensures Guarded(At(w, es + [e], k), first, second) {
      AtSnoc(w, es, e, k);
    }
  }

  lemma SnocSummary(es: seq<Event>, e: Event, first: string, second: string)
    ensures Codes(es + [e]) == Codes(es) + if e.SwitchTo? then [e.state] else []
    ensures Marks(first, second, es + [e])
         == Marks(first, second, es) + if Raises(first, e) then [Raise] else if Drops(second, e) then [Drop] else []
  {
    assert (es + [e])[..|es|] == es;
  }

  lemma RaceEdit(w: World, es: seq<Event>, first: string, second: string, codes: seq<int>, front: seq<Mark>, last: Mark)
    requires WellLinked(w.store) && Racing(w, es, first, second, codes, front) && first != second
    ensures Racing(w, es + [ListOp(Edit(first, second, front, last))], first, second, codes, front + [last])
  {
    var e := ListOp(Edit(first, second, front, last));
    EditMark(first, second, front, last);
    SnocSummary(es, e, first, second);
    AfterSnoc(w, es, e);
    StandsNext(After(w, es), first, second, front, last);
    StandsGuarded(Next(After(w, es), e), first, second, front + [last]);
    RacingGuarded(w, es, e, first, second);
    assert codes + [] == codes;
  }

  // One more switch, so that the switches are the given ones.
  lemma RaceSwitch(w: World, es: seq<Event>, first: string, second: string, codes: seq<int>)
    returns (longer: seq<Event>)
    requires WellLinked(w.store) && codes != [] && !Off(codes[|codes| - 1])
    requires Racing(w, es, first, second, codes[..|codes| - 1], [])
    ensures Racing(w, longer, first, second, codes, [])
  {
    var e := SwitchTo(codes[|codes| - 1]);
    longer := es + [e];
    assert codes == codes[..|codes| - 1] + [codes[|codes| - 1]];
    SnocSummary(es, e, first, second);
    AfterSnoc(w, es, e);
    StandsGuarded(Next(After(w, es), e), first, second, []);
    RacingGuarded(w, es, e, first, second);
  }

  // One more edit, so that the marks are the given ones.
  lemma RaceOn(w: World, es: seq<Event>, first: string, second: string, codes: seq<int>, marks: seq<Mark>)
    returns (longer: seq<Event>)
    requires WellLinked(w.store) && first != second && marks != []
    requires Racing(w, es, first, second, codes, marks[..|marks| - 1])
    ensures Racing(w, longer, first, second, codes, marks)
  {
    var front, last := marks[..|marks| - 1], marks[|marks| - 1];
    longer := es + [ListOp(Edit(first, second, front, last))];
    assert marks == front + [last];
    RaceEdit(w, es, first, second, codes, front, last);
  }

  lemma {:induction false} RaceSwitches(w: World, first: string, second: string, codes: seq<int>)
    returns (es: seq<Event>)
    requires Stands(w, first, second, []) && forall i :: 0 <= i < |codes| ==> !Off(codes[i])
    ensures Racing(w, es, first, second, codes, [])
    decreases |codes|
  {
    if codes == [] {
      es := [];
      StandsGuarded(w, first, second, []);
    } else {
      var before := RaceSwitches(w, first, second, codes[..|codes| - 1]);
      es := RaceSwitch(w, before, first, second, codes);
    }
  }

  // The switches, then the edits.
  lemma {:induction false} Race(w: World, first: string, second: string, codes: seq<int>, marks: seq<Mark>)
    returns (es: seq<Event>)
    requires Stands(w, first, second, []) && first != second && forall i :: 0 <= i < |codes| ==> !Off(codes[i])
    ensures Racing(w, es, first, second, codes, marks)
    decreases |marks|
  {
    if marks == [] {
      es := RaceSwitches(w, first, second, codes);
    } else {
      var before := Race(w, first, second, codes, marks[..|marks| - 1]);
      es := RaceOn(w, before, first, second, codes, marks);
    }
  }

  function Instant(k: nat): Times {
    Times(k, k, k, k, k)
  }

  // With the first lookup before the events of a race and the second one after them, both miss, and no moment is
  // right for that.
  lemma SlipsThrough(w: World, es: seq<Event>, first: string, second: string, codes: seq<int>, marks: seq<Mark>)
    requires Stands(w, first, second, []) && Racing(w, es, first, second, codes, marks)
    requires !(first <= second) && !(second <= first) && RaiseThenDrop(marks)
    ensures !Answer(w, es, Instant(0), first) && !Answer(w, es, Instant(|es|), second)
    ensures NeverRight(w, es, Instant(0), Instant(|es|), first, second)
  {
    AtEnds(w, es);
    ExpectedMisses(first, second, marks);
    UndisturbedAnswer(w, es, 0, first);
    UndisturbedAnswer(w, es, |es|, second);
    forall k | 0 <= k <= |es| ensures AtomicAnswer(At(w, es, k), first) || AtomicAnswer(At(w, es, k), second) {
      assert Guarded(At(w, es, k), first, second);
    }
  }

  // ---------------------------------------------------------------- the exact condition

  // The schedule that a handler with two lookups meets between their walks: the state at the first lock, the
  // switches from there to the second lock, and the marks its two names get.
  ghost predicate Between(w: World, es: seq<Event>, a: Times, b: Times, first: string, second: string,
                          code: int, codes: seq<int>, marks: seq<Mark>)
    requires WellLinked(w.store) && Sequential(a, b, |es|)
  {
    && At(w, es, a.lock).state == code
    && Codes(es[a.lock..b.lock]) == codes
    && Marks(first, second, es[a.lock..b.lock]) == marks
  }

  // What the handler's two lookups are for.
  function First(op: Operation): string
    requires |Tested(op)| == 2
  {
    Seen(Tested(op)[0])
  }

  function Second(op: Operation): string
    requires |Tested(op)| == 2
  {
    Seen(Tested(op)[1])
  }

  // At some moment of the call an atomic handler lets the operation pass.
  ghost predicate RightToPass(w: World, es: seq<Event>, a: Times, b: Times, op: Operation)
    requires WellLinked(w.store) && Sequential(a, b, |es|)
  {
    exists k :: a.size <= k <= b.lock && !AtomicBlocks(At(w, es, k), op)
  }

  // Whatever list, edits and times go with the schedule, a pass is right at some moment.
  ghost predicate PassesAreRight(op: Operation, code: int, codes: seq<int>, marks: seq<Mark>)
    requires |Tested(op)| == 2
  {
    forall w: World, es: seq<Event>, a: Times, b: Times ::
      (&& Inv(w.store) && Sequential(a, b, |es|) && Between(w, es, a, b, First(op), Second(op), code, codes, marks)
       && !HandlerBlocks(w, es, a, b, op)) ==> RightToPass(w, es, a, b, op)
  }

  // The monitor is on throughout the schedule.
  predicate StaysOn(code: int, codes: seq<int>) {
    !Off(code) && forall i :: 0 <= i < |codes| ==> !Off(codes[i])
  }

  predicate Comparable(op: Operation)
    requires |Tested(op)| == 2
  {
    First(op) <= Second(op) || Second(op) <= First(op)
  }

  lemma NeverRightOf(w: World, es: seq<Event>, a: Times, b: Times, op: Operation)
    requires WellLinked(w.store) && Sequential(a, b, |es|) && |Tested(op)| == 2
    ensures NeverRight(w, es, a, b, First(op), Second(op)) <==> !RightToPass(w, es, a, b, op)
  {
    forall k | a.size <= k <= b.lock
      ensures AtomicBlocks(At(w, es, k), op) <==>
              || AtomicAnswer(At(w, es, k), First(op))
              || AtomicAnswer(At(w, es, k), Second(op))
    {
      AtomicTests(At(w, es, k), op);
    }
  }

  lemma StaysOnSnoc(code: int, es: seq<Event>, e: Event)
    requires StaysOn(code, Codes(es)) && (e.SwitchTo? ==> !Off(e.state))
    ensures StaysOn(code, Codes(es + [e]))
  {
    SnocSummary(es, e, "", "");
  }

  lemma SwitchedTo(w: World, es: seq<Event>, k: nat)
    requires WellLinked(w.store) && k < |es| && es[k].SwitchTo?
    ensures At(w, es, k + 1).state == es[k].state
  {
    AtNext(w, es, k);
  }

  lemma SliceSnoc(es: seq<Event>, i: nat, j: nat)
    requires i < j <= |es|
    ensures es[i..j] == es[i..j - 1] + [es[j - 1]]
  {
  }

  lemma {:induction false} CodeIsReached(w: World, es: seq<Event>, i: nat, j: nat)
    requires WellLinked(w.store) && i <= j <= |es|
    requires forall k :: i <= k <= j ==> !Off(At(w, es, k).state)
    ensures StaysOn(At(w, es, i).state, Codes(es[i..j]))
    decreases j - i
  {
    if i == j {
      assert es[i..j] == [];
    } else {
      CodeIsReached(w, es, i, j - 1);
      SliceSnoc(es, i, j);
      if es[j - 1].SwitchTo? {
        SwitchedTo(w, es, j - 1);
      }
      StaysOnSnoc(At(w, es, i).state, es[i..j - 1], es[j - 1]);
    }
  }

  lemma OnWhileNeverRight(w: World, es: seq<Event>, a: Times, b: Times, first: string, second: string)
    requires WellLinked(w.store) && Sequential(a, b, |es|) && NeverRight(w, es, a, b, first, second)
    ensures StaysOn(At(w, es, a.lock).state, Codes(es[a.lock..b.lock]))
  {
    forall k | a.lock <= k <= b.lock ensures !Off(At(w, es, k).state) {
      assert AtomicAnswer(At(w, es, k), first) || AtomicAnswer(At(w, es, k), second);
    }
    CodeIsReached(w, es, a.lock, b.lock);
  }

  // A pass that is right at no moment: the names are unrelated, the monitor stays on between the walks, and an entry
  // for the first name is added before one for the second is removed.
  lemma WrongPass(w: World, es: seq<Event>, a: Times, b: Times, op: Operation)
    requires Inv(w.store) && Sequential(a, b, |es|) && |Tested(op)| == 2
    ensures !HandlerBlocks(w, es, a, b, op) && !RightToPass(w, es, a, b, op) ==>
              && !Comparable(op) && StaysOn(At(w, es, a.lock).state, Codes(es[a.lock..b.lock]))
              && RaiseThenDrop(Marks(First(op), Second(op), es[a.lock..b.lock]))
  {
    var first, second := First(op), Second(op);
    HandlerTests(w, es, a, b, op);
    NeverRightOf(w, es, a, b, op);
    if !HandlerBlocks(w, es, a, b, op) && !RightToPass(w, es, a, b, op) {
      MissesAreMarked(w, es, a, b, first, second);
      OnWhileNeverRight(w, es, a, b, first, second);
      if Comparable(op) {
        ComparableMisses(w, es, a, b, first, second);
        assert false;
      }
    }
  }

  // A list with one entry for the path.
  ghost function OneEntry(path: string): Store {
    Store([Entry(Exactly(path), Null)], To(0), 1)
  }

  lemma OneEntryStands(first: string, second: string, code: int)
    requires !Off(code)
    ensures Stands(World(OneEntry(second), code), first, second, [])
  {
    var st := OneEntry(second);
    assert Chain(st.entries, To(0)) == [0];
    assert Contents(st) == [Exactly(second)];
  }

  // For every such schedule there is a list and there are edits with which the operation slips through.
  lemma WrongPassExists(op: Operation, code: int, codes: seq<int>, marks: seq<Mark>)
    returns (w: World, es: seq<Event>, a: Times, b: Times)
    requires |Tested(op)| == 2 && !Comparable(op) && StaysOn(code, codes) && RaiseThenDrop(marks)
    ensures w == World(OneEntry(Second(op)), code) && Inv(w.store)
    ensures Sequential(a, b, |es|) && Between(w, es, a, b, First(op), Second(op), code, codes, marks)
    ensures a.lock == 0 && b.lock == |es|
    ensures !HandlerBlocks(w, es, a, b, op) && !RightToPass(w, es, a, b, op)
  {
    var first, second := First(op), Second(op);
    w := World(OneEntry(second), code);
    OneEntryStands(first, second, code);
    es := Race(w, first, second, codes, marks);
    a, b := Instant(0), Instant(|es|);
    SlipsThrough(w, es, first, second, codes, marks);
    HandlerTests(w, es, a, b, op);
    NeverRightOf(w, es, a, b, op);
    AtEnds(w, es);
    assert es[0..|es|] == es;
  }

  // The exact condition for a handler with two lookups: for a schedule of switches and edits between its walks, a
  // pass is right at some moment if and only if one of the names extends the other, the monitor is off in between,
  // or no entry for the first name is added before one for the second is removed.
  lemma PassDecides(op: Operation, code: int, codes: seq<int>, marks: seq<Mark>)
    requires |Tested(op)| == 2
    ensures PassesAreRight(op, code, codes, marks) <==>
            Comparable(op) || !StaysOn(code, codes) || !RaiseThenDrop(marks)
  {
    if Comparable(op) || !StaysOn(code, codes) || !RaiseThenDrop(marks) {
      forall w: World, es: seq<Event>, a: Times, b: Times |
        && Inv(w.store) && Sequential(a, b, |es|) && Between(w, es, a, b, First(op), Second(op), code, codes, marks)
        && !HandlerBlocks(w, es, a, b, op)
        ensures RightToPass(w, es, a, b, op)
      {
        if !RightToPass(w, es, a, b, op) {
          WrongPass(w, es, a, b, op);
          assert false;
        }
      }
    } else {
      var w, es, a, b := WrongPassExists(op, code, codes, marks);
    }
  }

  // The shortest failing schedule: while /s is renamed to /d, an entry for /s is added and the one for /d removed.
  lemma RenameSlipsThrough() returns (op: Operation, w: World, es: seq<Event>, a: Times, b: Times)
    ensures op.Rename? && op.source.path == "/s" && op.file.path == "/d"
    ensures Inv(w.store) && Sequential(a, b, |es|) && !HandlerBlocks(w, es, a, b, op)
    ensures forall k :: a.size <= k <= b.lock ==>
              && !Off(At(w, es, k).state)
              && (Blocked(Contents(At(w, es, k).store), "/s") || Blocked(Contents(At(w, es, k).store), "/d"))
  {
    op := Rename(Name("/s", NUL), Name("/d", NUL));
    assert "/s"[1] != "/d"[1];
    var marks := [Raise, Drop];
    assert marks[0] == Raise && marks[1] == Drop;
    w, es, a, b := WrongPassExists(op, RF_ON, [], marks);
    forall k | a.size <= k <= b.lock
      ensures !Off(At(w, es, k).state)
      ensures Blocked(Contents(At(w, es, k).store), "/s") || Blocked(Contents(At(w, es, k).store), "/d")
    {
      AtomicTests(At(w, es, k), op);
    }
  }
}
