/**
 sys_print_blacklist's walk over the list.  It takes no lock at all, so edits may run between any two of its steps;
 and each round reads a node's `next` twice, once to test it and once to move on.
 */
module PrintWalk {
  import opened BlacklistStore
  import opened BlacklistRuns
  import opened Lookup
  import opened SwitchSchedules
  import Blacklist

  // When a round tests `next` and when it reads it to move on, as numbers of events of other threads.
  datatype Round = Round(test: nat, step: nat)

  // The moment at which the walk is after the given rounds, having read the head at `start`.
  function Clock(start: nat, rounds: seq<Round>): nat {
    if rounds == [] then start else rounds[|rounds| - 1].step
  }

  predicate InTurn(start: nat, rounds: seq<Round>)
    decreases |rounds|
  {
    rounds == [] ||
    var front, last := rounds[..|rounds| - 1], rounds[|rounds| - 1];
    InTurn(start, front) && Clock(start, front) <= last.test <= last.step
  }

  ghost predicate Timed(w: World, es: seq<Event>, start: nat, rounds: seq<Round>) {
    WellLinked(w.store) && InTurn(start, rounds) && Clock(start, rounds) <= |es|
  }

  // The `next` pointer of a node as it is after k events.
  ghost function NextAt(w: World, es: seq<Event>, k: nat, x: nat): Link
    requires WellLinked(w.store) && k <= |es| && x < |At(w, es, k).store.entries|
  {
    At(w, es, k).store.entries[x].next
  }

  // Where the walk is after the given rounds.
  ghost function Reached(w: World, es: seq<Event>, start: nat, rounds: seq<Round>): (l: Link)
    requires Timed(w, es, start, rounds)
    ensures InRange(At(w, es, Clock(start, rounds)).store.entries, l)
    decreases |rounds|
  {
    if rounds == [] then At(w, es, start).store.head
    else
      var front, last := rounds[..|rounds| - 1], rounds[|rounds| - 1];
      var l := Reached(w, es, start, front);
      if l.Null? then Null
      else
        LinkSurvives(w, es, Clock(start, front), last.step, l);
        NextAt(w, es, last.step, l.id)
  }

  // The nodes printed in the given rounds.
  ghost function Visited(w: World, es: seq<Event>, start: nat, rounds: seq<Round>): seq<nat>
    requires Timed(w, es, start, rounds)
    decreases |rounds|
  {
    if rounds == [] then []
    else
      var front := rounds[..|rounds| - 1];
      var l := Reached(w, es, start, front);
      Visited(w, es, start, front) + if l.To? then [l.id] else []
  }

  // The walk ends at a node without successor, which it prints last.
  ghost predicate Ends(w: World, es: seq<Event>, start: nat, rounds: seq<Round>, end: nat) {
    && Timed(w, es, start, rounds) && Clock(start, rounds) <= end <= |es|
    && var l := Reached(w, es, start, rounds);
       LinkSurvives(w, es, Clock(start, rounds), end, l);
       l.To? && NextAt(w, es, end, l.id).Null?
  }

  ghost function Printed(w: World, es: seq<Event>, start: nat, rounds: seq<Round>): seq<nat>
    requires Timed(w, es, start, rounds) && Reached(w, es, start, rounds).To?
  {
    Visited(w, es, start, rounds) + [Reached(w, es, start, rounds).id]
  }

  // ---------------------------------------------------------------- what is printed was listed

  lemma ChainOfNext(es: seq<Entry>, x: nat, y: nat)
    requires Forward(es) && x < |es| && InRange(es, es[x].next) && y in Chain(es, es[x].next)
    ensures y in Chain(es, To(x))
  {
    var rest := Chain(es, es[x].next);
    var i :| 0 <= i < |rest| && rest[i] == y;
    assert ([x] + rest)[i + 1] == y;
  }

  lemma {:induction false} ClockStarts(start: nat, rounds: seq<Round>)
    requires InTurn(start, rounds)
    ensures start <= Clock(start, rounds)
    decreases |rounds|
  {
    if rounds == [] {
    } else {
      ClockStarts(start, rounds[..|rounds| - 1]);
    }
  }

  // Where the walk is after its last round, a node can be reached from where it was before.
  lemma AheadBefore(w: World, es: seq<Event>, start: nat, rounds: seq<Round>, y: nat)
    requires Timed(w, es, start, rounds) && rounds != []
    requires y in Chain(At(w, es, Clock(start, rounds)).store.entries, Reached(w, es, start, rounds))
    ensures var l, now := Reached(w, es, start, rounds[..|rounds| - 1]), Clock(start, rounds);
            InRange(At(w, es, now).store.entries, l) && y in Chain(At(w, es, now).store.entries, l)
  {
    var front, last := rounds[..|rounds| - 1], rounds[|rounds| - 1];
    var before := Reached(w, es, start, front);
    LinkSurvives(w, es, Clock(start, front), last.step, before);
    ChainOfNext(At(w, es, last.step).store.entries, before.id, y);
  }

  // Whatever can be reached from where the walk is was listed at some moment since the head was read.
  lemma {:induction false} AheadWasListed(w: World, es: seq<Event>, start: nat, rounds: seq<Round>, y: nat)
    returns (k: nat)
    requires Timed(w, es, start, rounds)
    requires y in Chain(At(w, es, Clock(start, rounds)).store.entries, Reached(w, es, start, rounds))
    ensures start <= k <= Clock(start, rounds) && y in Live(At(w, es, k).store)
    decreases |rounds|
  {
    if rounds == [] {
      k := start;
    } else {
      var front := rounds[..|rounds| - 1];
      var l, i, j := Reached(w, es, start, front), Clock(start, front), Clock(start, rounds);
      ClockStarts(start, front);
      AheadBefore(w, es, start, rounds, y);
      ChainCame(w, es, i, j, l, y);
      if y in Chain(At(w, es, i).store.entries, l) {
        k := AheadWasListed(w, es, start, front, y);
      } else {
        k :| i <= k <= j && y in Live(At(w, es, k).store);
      }
    }
  }

  // Every node the walk comes to was listed at some moment since the head was read.
  lemma ReachedWasListed(w: World, es: seq<Event>, start: nat, rounds: seq<Round>) returns (k: nat)
    requires Timed(w, es, start, rounds) && Reached(w, es, start, rounds).To?
    ensures start <= k <= Clock(start, rounds) && Reached(w, es, start, rounds).id in Live(At(w, es, k).store)
  {
    var l := Reached(w, es, start, rounds);
    assert Chain(At(w, es, Clock(start, rounds)).store.entries, l)[0] == l.id;
    k := AheadWasListed(w, es, start, rounds, l.id);
  }

  // Every printed node was listed at some moment of the walk.
  lemma {:induction false} PrintedWasListed(w: World, es: seq<Event>, start: nat, rounds: seq<Round>, x: nat)
    returns (k: nat)
    requires Timed(w, es, start, rounds) && Reached(w, es, start, rounds).To? && x in Printed(w, es, start, rounds)
    ensures start <= k <= Clock(start, rounds) && x in Live(At(w, es, k).store)
    decreases |rounds|
  {
    if x == Reached(w, es, start, rounds).id {
      k := ReachedWasListed(w, es, start, rounds);
    } else {
      var front := rounds[..|rounds| - 1];
      assert x in Visited(w, es, start, rounds);
      k := PrintedWasListed(w, es, start, front, x);
    }
  }

  // ---------------------------------------------------------------- what stays listed is printed

  // A node with the path is listed and can be reached from `l`.
  ghost predicate Ahead(st: Store, l: Link, path: string)
    requires WellLinked(st) && InRange(st.entries, l)
  {
    exists y :: y in Chain(st.entries, l) && y in Live(st) && y < |st.entries| && st.entries[y].path == path
  }

  lemma AheadAtHead(st: Store, path: string)
    requires WellLinked(st) && path in Contents(st)
    ensures Ahead(st, st.head, path)
  {
    ChainAscends(st.entries, st.head);
    var i :| 0 <= i < |Contents(st)| && Contents(st)[i] == path;
    assert Live(st)[i] in Live(st);
  }

  lemma AheadAfterAdd(st: Store, p: string, l: Link, path: string)
    requires WellLinked(st) && InRange(st.entries, l) && Ahead(st, l, path) && !Listed(st, p)
    ensures WellLinked(Add(st, p)) && InRange(Add(st, p).entries, l) && Ahead(Add(st, p), l, path)
  {
    AddChains(st, p, l);
    ApplyWellLinked(st, AddOp(p), l);
    var y :| y in Chain(st.entries, l) && y in Live(st) && y < |st.entries| && st.entries[y].path == path;
    assert y in Live(Add(st, p)) && y in Chain(Add(st, p).entries, l);
  }

  lemma NodeAfterRemove(st: Store, p: string, l: Link, y: nat)
    requires WellLinked(st) && InRange(st.entries, l) && Listed(st, p)
    requires y in Chain(st.entries, l) && y in Live(st) && y < |st.entries| && st.entries[y].path != p
    ensures WellLinked(Remove(st, p)) && InRange(Remove(st, p).entries, l)
    ensures y in Chain(Remove(st, p).entries, l) && y in Live(Remove(st, p))
  {
    RemoveChains(st, p, l);
  }

  lemma AheadAfterRemove(st: Store, p: string, l: Link, path: string)
    requires WellLinked(st) && InRange(st.entries, l) && Ahead(st, l, path) && Listed(st, p) && p != path
    ensures WellLinked(Remove(st, p)) && InRange(Remove(st, p).entries, l) && Ahead(Remove(st, p), l, path)
  {
    var y :| y in Chain(st.entries, l) && y in Live(st) && y < |st.entries| && st.entries[y].path == path;
    NodeAfterRemove(st, p, l, y);
    ApplyWellLinked(st, RemoveOp(p), l);
  }

  lemma RemovedIsGone(st: Store, path: string)
    requires Inv(st)
    ensures WellLinked(Remove(st, path)) && path !in Contents(Remove(st, path))
  {
    RemoveContents(st, path);
    Without1Distinct(Contents(st), path);
  }

  lemma AheadNext(w: World, e: Event, l: Link, path: string)
    requires Inv(w.store) && InRange(w.store.entries, l) && Ahead(w.store, l, path)
    requires WellLinked(Next(w, e).store) && path in Contents(Next(w, e).store)
    ensures InRange(Next(w, e).store.entries, l) && Ahead(Next(w, e).store, l, path)
  {
    if e.ListOp? && e.op.AddOp? && !Listed(w.store, e.op.path) {
      AheadAfterAdd(w.store, e.op.path, l, path);
    } else if e.ListOp? && e.op.RemoveOp? && Listed(w.store, e.op.path) {
      if e.op.path == path {
        RemovedIsGone(w.store, path);
        assert false;
      }
      AheadAfterRemove(w.store, e.op.path, l, path);
    }
  }

  ghost predicate StaysListed(w: World, es: seq<Event>, i: nat, j: nat, path: string)
    requires WellLinked(w.store) && i <= j <= |es|
  {
    forall k :: i <= k <= j ==> path in Contents(At(w, es, k).store)
  }

  // The node with the path is ahead after k events.
  ghost predicate AheadAt(w: World, es: seq<Event>, k: nat, l: Link, path: string)
    requires WellLinked(w.store) && k <= |es|
  {
    InRange(At(w, es, k).store.entries, l) && Ahead(At(w, es, k).store, l, path)
  }

  lemma AheadAtNext(w: World, es: seq<Event>, k: nat, l: Link, path: string)
    requires Inv(w.store) && k < |es| && AheadAt(w, es, k, l, path) && path in Contents(At(w, es, k + 1).store)
    ensures AheadAt(w, es, k + 1, l, path)
  {
    InvAt(w, es, k);
    AtNext(w, es, k);
    AheadNext(At(w, es, k), es[k], l, path);
  }

  lemma {:induction false} AheadLater(w: World, es: seq<Event>, i: nat, j: nat, l: Link, path: string)
    requires Inv(w.store) && i <= j <= |es| && StaysListed(w, es, i, j, path) && AheadAt(w, es, i, l, path)
    ensures AheadAt(w, es, j, l, path)
    decreases j - i
  {
    if i == j {
    } else {
      AheadLater(w, es, i, j - 1, l, path);
      AheadAtNext(w, es, j - 1, l, path);
    }
  }

  // The path is that of one of the nodes.
  ghost predicate Among(es: seq<Entry>, c: seq<nat>, path: string) {
    exists i :: 0 <= i < |c| && c[i] < |es| && es[c[i]].path == path
  }

  lemma AheadStep(st: Store, x: nat, path: string)
    requires WellLinked(st) && x < |st.entries| && Ahead(st, To(x), path)
    ensures InRange(st.entries, st.entries[x].next)
    ensures st.entries[x].path == path || Ahead(st, st.entries[x].next, path)
  {
    var rest := Chain(st.entries, st.entries[x].next);
    assert Chain(st.entries, To(x)) == [x] + rest;
  }

  lemma AmongLater(w: World, es: seq<Event>, i: nat, j: nat, c: seq<nat>, more: seq<nat>, path: string)
    requires WellLinked(w.store) && i <= j <= |es| && Among(At(w, es, i).store.entries, c, path)
    ensures Among(At(w, es, j).store.entries, c + more, path)
  {
    var entries := At(w, es, i).store.entries;
    var n :| 0 <= n < |c| && c[n] < |entries| && entries[c[n]].path == path;
    LinkSurvives(w, es, i, j, To(c[n]));
    assert (c + more)[n] == c[n];
  }

  // The path has been printed, or the node with it is still ahead.
  ghost predicate Accounted(w: World, es: seq<Event>, start: nat, rounds: seq<Round>, path: string)
    requires Timed(w, es, start, rounds)
  {
    var st := At(w, es, Clock(start, rounds)).store;
    Ahead(st, Reached(w, es, start, rounds), path) || Among(st.entries, Visited(w, es, start, rounds), path)
  }

  lemma AccountedNext(w: World, es: seq<Event>, start: nat, rounds: seq<Round>, path: string)
    requires Inv(w.store) && Timed(w, es, start, rounds) && rounds != []
    requires start <= Clock(start, rounds[..|rounds| - 1]) && StaysListed(w, es, start, Clock(start, rounds), path)
    ensures Accounted(w, es, start, rounds[..|rounds| - 1], path) ==> Accounted(w, es, start, rounds, path)
  {
    var front, last := rounds[..|rounds| - 1], rounds[|rounds| - 1];
    var l, c := Reached(w, es, start, front), Visited(w, es, start, front);
    var i, j := Clock(start, front), last.step;
    if Among(At(w, es, i).store.entries, c, path) {
      AmongLater(w, es, i, j, c, if l.To? then [l.id] else [], path);
    } else if Ahead(At(w, es, i).store, l, path) {
      AheadLater(w, es, i, j, l, path);
      var st := At(w, es, j).store;
      AheadStep(st, l.id, path);
      if st.entries[l.id].path == path {
        assert (c + [l.id])[|c|] == l.id;
      }
    }
  }

  // An entry that stays listed has been printed or is still ahead.
  lemma {:induction false} PrintedOrAhead(w: World, es: seq<Event>, start: nat, rounds: seq<Round>, path: string)
    requires Inv(w.store) && Timed(w, es, start, rounds) && start <= Clock(start, rounds)
    requires StaysListed(w, es, start, Clock(start, rounds), path)
    ensures Accounted(w, es, start, rounds, path)
    decreases |rounds|
  {
    if rounds == [] {
      AheadAtHead(At(w, es, start).store, path);
    } else {
      var front := rounds[..|rounds| - 1];
      ClockStarts(start, front);
      PrintedOrAhead(w, es, start, front, path);
      AccountedNext(w, es, start, rounds, path);
    }
  }

  // A walk that ends has printed every entry that stayed listed, whatever else was added and removed meanwhile.
  lemma StayingEntryIsPrinted(w: World, es: seq<Event>, start: nat, rounds: seq<Round>, end: nat, path: string)
    requires Inv(w.store) && Ends(w, es, start, rounds, end) && start <= end && StaysListed(w, es, start, end, path)
    ensures Among(At(w, es, end).store.entries, Printed(w, es, start, rounds), path)
  {
    var l, c := Reached(w, es, start, rounds), Visited(w, es, start, rounds);
    var i := Clock(start, rounds);
    ClockStarts(start, rounds);
    PrintedOrAhead(w, es, start, rounds, path);
    if Among(At(w, es, i).store.entries, c, path) {
      AmongLater(w, es, i, end, c, [l.id], path);
    } else {
      AheadLater(w, es, i, end, l, path);
      var st := At(w, es, end).store;
      assert Chain(st.entries, l) == [l.id] + Chain(st.entries, Null);
      assert (c + [l.id])[|c|] == l.id;
    }
  }

  // ---------------------------------------------------------------- order, and the undisturbed walk

  // Ascending nodes, all before `l`.
  ghost predicate Rising(c: seq<nat>, l: Link) {
    && (forall i, j :: 0 <= i < j < |c| ==> c[i] < c[j])
    && (l.To? ==> forall i :: 0 <= i < |c| ==> c[i] < l.id)
  }

  lemma RisingNext(c: seq<nat>, x: nat, l: Link)
    requires Rising(c, To(x)) && (l.To? ==> x < l.id)
    ensures Rising(c + [x], l)
  {
  }

  // No node is printed twice: each is a later one than those before.
  lemma {:induction false} VisitedAscends(w: World, es: seq<Event>, start: nat, rounds: seq<Round>)
    requires Timed(w, es, start, rounds)
    ensures Rising(Visited(w, es, start, rounds), Reached(w, es, start, rounds))
    decreases |rounds|
  {
    if rounds == [] {
    } else {
      var front, last := rounds[..|rounds| - 1], rounds[|rounds| - 1];
      VisitedAscends(w, es, start, front);
      var l, c := Reached(w, es, start, front), Visited(w, es, start, front);
      if l.To? {
        LinkSurvives(w, es, Clock(start, front), last.step, l);
        assert Forward(At(w, es, last.step).store.entries);
        RisingNext(c, l.id, Reached(w, es, start, rounds));
      } else {
        assert c + [] == c;
      }
    }
  }

  // With nothing in between, the nodes printed and those ahead are the list.
  lemma {:induction false} QuietWalk(w: World, es: seq<Event>, start: nat, rounds: seq<Round>)
    requires Timed(w, es, start, rounds) && Clock(start, rounds) == start
    ensures var st := At(w, es, start).store;
            Visited(w, es, start, rounds) + Chain(st.entries, Reached(w, es, start, rounds)) == Live(st)
    decreases |rounds|
  {
    var st := At(w, es, start).store;
    if rounds == [] {
    } else {
      var front := rounds[..|rounds| - 1];
      ClockStarts(start, front);
      QuietWalk(w, es, start, front);
      var l := Reached(w, es, start, front);
      if l.To? {
        assert Chain(st.entries, l) == [l.id] + Chain(st.entries, st.entries[l.id].next);
      }
    }
  }

  // An undisturbed walk that ends prints the list.
  lemma QuietWalkPrintsList(w: World, es: seq<Event>, start: nat, rounds: seq<Round>)
    requires Ends(w, es, start, rounds, start)
    ensures Printed(w, es, start, rounds) == Live(At(w, es, start).store)
  {
    ClockStarts(start, rounds);
    QuietWalk(w, es, start, rounds);
    var st, l := At(w, es, start).store, Reached(w, es, start, rounds);
    assert Chain(st.entries, l) == [l.id] + Chain(st.entries, Null);
  }

  // ---------------------------------------------------------------- between the test and the step

  predicate IsRemoval(e: Event) {
    e.ListOp? && e.op.RemoveOp?
  }

  function Removals(es: seq<Event>): (r: seq<bool>)
    ensures |r| == |es| && forall i :: 0 <= i < |es| ==> r[i] == IsRemoval(es[i])
  {
    seq(|es|, i requires 0 <= i < |es| => IsRemoval(es[i]))
  }

  lemma NextStays(w: World, e: Event, x: nat)
    requires WellLinked(w.store) && x < |w.store.entries| && w.store.entries[x].next.To? && !IsRemoval(e)
    ensures WellLinked(Next(w, e).store) && x < |Next(w, e).store.entries| && Next(w, e).store.entries[x].next.To?
  {
    if e.ListOp? {
      ApplyWellLinked(w.store, e.op, To(x));
    }
  }

  lemma {:induction false} NextStaysAll(w: World, es: seq<Event>, k: nat, x: nat)
    requires WellLinked(w.store) && k <= |es| && x < |w.store.entries| && w.store.entries[x].next.To?
    requires true !in Removals(es)
    ensures x < |At(w, es, k).store.entries| && NextAt(w, es, k, x).To?
  {
    AtEnds(w, es);
    if k == 0 {
    } else {
      NextStaysAll(w, es, k - 1, x);
      assert !Removals(es)[k - 1];
      AtNext(w, es, k - 1);
      NextStays(At(w, es, k - 1), es[k - 1], x);
    }
  }

  // With this schedule of removals between the test and the step, the step never leaves the list.
  ghost predicate AlwaysLands(removals: seq<bool>) {
    forall w: World, es: seq<Event>, x: nat ::
      (Inv(w.store) && Removals(es) == removals && x < |w.store.entries| && w.store.entries[x].next.To?) ==>
        x < |After(w, es).store.entries| && After(w, es).store.entries[x].next.To?
  }

  // /p is unlinked behind /x, and the counter is not moved.
  const CUT := Store([Entry("/x", Null), Entry("/p", Null)], To(0), 2)

  lemma CutStore()
    ensures Inv(TWO) && Remove(TWO, "/p") == CUT && WellLinked(CUT) && Remove(CUT, "/p") == CUT
  {
    StoreChains();
    assert "/x"[1] != "/p"[1];
    RemoveWrites(TWO, "/p");
    FindIs(TWO.entries, [0, 1], "/p", 1);
    assert Chain(CUT.entries, To(0)) == [0];
    RemoveWrites(CUT, "/p");
    FindIs(CUT.entries, [0], "/p", 1);
  }

  function Cutting(removals: seq<bool>): (es: seq<Event>)
    ensures |es| == |removals|
    ensures forall i :: 0 <= i < |es| ==> es[i] == if removals[i] then ListOp(RemoveOp("/p")) else SwitchTo(RF_ON)
  {
    seq(|removals|, i requires 0 <= i < |removals| => if removals[i] then ListOp(RemoveOp("/p")) else SwitchTo(RF_ON))
  }

  lemma CuttingNext(m: World, removal: bool)
    requires m.store == TWO || m.store == CUT
    ensures WellLinked(m.store)
    ensures Next(m, if removal then ListOp(RemoveOp("/p")) else SwitchTo(RF_ON)).store
         == if removal then CUT else m.store
  {
    CutStore();
  }

  lemma {:induction false} CuttingCuts(w: World, removals: seq<bool>, k: nat)
    requires w.store == TWO && WellLinked(TWO) && k <= |removals|
    ensures At(w, Cutting(removals), k).store == if true in removals[..k] then CUT else TWO
  {
    if k == 0 {
      AtEnds(w, Cutting(removals));
    } else {
      CuttingCuts(w, removals, k - 1);
      AtNext(w, Cutting(removals), k - 1);
      CuttingNext(At(w, Cutting(removals), k - 1), removals[k - 1]);
      assert removals[..k] == removals[..k - 1] + [removals[k - 1]];
    }
  }

  // The exact condition: the step that follows a successful test lands on a node, for every list and all edits that
  // go with the schedule, if and only if no removal runs in between.
  lemma StepLandsExactly(removals: seq<bool>)
    ensures AlwaysLands(removals) <==> true !in removals
  {
    if true !in removals {
      forall w: World, es: seq<Event>, x: nat |
        Inv(w.store) && Removals(es) == removals && x < |w.store.entries| && w.store.entries[x].next.To?
        ensures x < |After(w, es).store.entries| && After(w, es).store.entries[x].next.To?
      {
        NextStaysAll(w, es, |es|, x);
        AtEnds(w, es);
      }
    } else {
      var w, es := World(TWO, RF_ON), Cutting(removals);
      CutStore();
      CuttingCuts(w, removals, |removals|);
      assert removals[..|removals|] == removals;
      AtEnds(w, es);
      assert Removals(es) == removals;
      assert w.store.entries[0].next.To? && After(w, es).store.entries[0].next.Null?;
    }
  }

  // ---------------------------------------------------------------- the walk on the heap

  lemma {:induction false} InTurnPrefix(start: nat, rounds: seq<Round>, done: seq<Round>)
    requires InTurn(start, rounds) && done <= rounds
    ensures InTurn(start, done) && Clock(start, done) <= Clock(start, rounds)
    ensures |done| < |rounds| ==>
              Clock(start, done) <= rounds[|done|].test <= rounds[|done|].step <= Clock(start, rounds)
    decreases |rounds|
  {
    if |done| == |rounds| {
      assert done == rounds;
    } else {
      InTurnPrefix(start, rounds[..|rounds| - 1], done);
    }
  }

  // The walk of sys_print_blacklist may find the list empty, print its last node, step off the list, or still be under
  // way when the given rounds are over.
  datatype Outcome = Empty | Complete | Lost | UnderWay

  // The path of the node that the walk is at.
  ghost function NameOf(w: World, es: seq<Event>, start: nat, rounds: seq<Round>): string
    requires Timed(w, es, start, rounds) && Reached(w, es, start, rounds).To?
  {
    At(w, es, Clock(start, rounds)).store.entries[Reached(w, es, start, rounds).id].path
  }

  // The paths printed in the given rounds.
  ghost function Names(w: World, es: seq<Event>, start: nat, rounds: seq<Round>): seq<string>
    requires Timed(w, es, start, rounds)
    decreases |rounds|
  {
    if rounds == [] then []
    else
      var front := rounds[..|rounds| - 1];
      Names(w, es, start, front) + if Reached(w, es, start, front).To? then [NameOf(w, es, start, front)] else []
  }

  // They are the paths of the nodes visited, then as at any later moment.
  lemma {:induction false} NamesOfVisited(w: World, es: seq<Event>, start: nat, rounds: seq<Round>, k: nat)
    requires Timed(w, es, start, rounds) && Clock(start, rounds) <= k <= |es|
    ensures var c, names := Visited(w, es, start, rounds), Names(w, es, start, rounds);
            var entries := At(w, es, k).store.entries;
            |names| == |c| && forall i :: 0 <= i < |c| ==> c[i] < |entries| && entries[c[i]].path == names[i]
    decreases |rounds|
  {
    if rounds == [] {
    } else {
      var front := rounds[..|rounds| - 1];
      NamesOfVisited(w, es, start, front, k);
      LinkSurvives(w, es, Clock(start, front), k, Reached(w, es, start, front));
    }
  }

  // How a walk that took the first of the given rounds, `done`, came out.
  ghost predicate CameOut(w: World, es: seq<Event>, start: nat, rounds: seq<Round>, done: seq<Round>,
                          outcome: Outcome)
  {
    && done <= rounds && Timed(w, es, start, done)
    && match outcome
       case Empty => done == [] && Reached(w, es, start, done).Null?
       case Complete => |done| < |rounds| && Ends(w, es, start, done, rounds[|done|].test)
       case Lost => done != [] && Reached(w, es, start, done).Null?
       case UnderWay => done == rounds && Reached(w, es, start, done).To?
  }

  // The walk after some rounds as the heap has it: `curr` is the node it is at.
  ghost predicate Holds(list: Blacklist.List, w: World, es: seq<Event>, start: nat, done: seq<Round>,
                        curr: Blacklist.Node)
    reads list, list.nodes
  {
    && Timed(w, es, start, done) && |list.nodes| == |list.store.entries|
    && var l := Reached(w, es, start, done);
       l.To? && l.id < |list.nodes| && curr == list.nodes[l.id] && curr.path == NameOf(w, es, start, done)
  }

  lemma FirstNode(list: Blacklist.List, w: World, es: seq<Event>, start: nat)
    requires list.Valid() && Timed(w, es, start, []) && list.store == At(w, es, start).store
    ensures list.head == null <==> Reached(w, es, start, []).Null?
    ensures list.head != null ==> Holds(list, w, es, start, [], list.head)
  {
  }

  // The next round is possible.
  ghost predicate MayGoOn(w: World, es: seq<Event>, start: nat, done: seq<Round>, r: Round) {
    Timed(w, es, start, done) && Clock(start, done) <= r.test <= r.step <= |es|
  }

  lemma RoundSnoc(w: World, es: seq<Event>, start: nat, done: seq<Round>, r: Round)
    requires MayGoOn(w, es, start, done, r) && Reached(w, es, start, done).To?
    ensures Timed(w, es, start, done + [r]) && Reached(w, es, start, done).id < |At(w, es, r.step).store.entries|
    ensures Reached(w, es, start, done + [r]) == NextAt(w, es, r.step, Reached(w, es, start, done).id)
    ensures Names(w, es, start, done + [r]) == Names(w, es, start, done) + [NameOf(w, es, start, done)]
  {
    assert (done + [r])[..|done|] == done;
    LinkSurvives(w, es, Clock(start, done), r.step, Reached(w, es, start, done));
  }

  lemma NextNode(list: Blacklist.List, w: World, es: seq<Event>, start: nat, done: seq<Round>, r: Round,
                 curr: Blacklist.Node)
    requires list.Valid() && Holds(list, w, es, start, done, curr) && MayGoOn(w, es, start, done, r)
    requires list.store == At(w, es, r.step).store
    ensures Timed(w, es, start, done + [r])
    ensures curr.next == null <==> Reached(w, es, start, done + [r]).Null?
    ensures curr.next != null ==> Holds(list, w, es, start, done + [r], curr.next)
  {
    RoundSnoc(w, es, start, done, r);
  }

  lemma LastNode(list: Blacklist.List, w: World, es: seq<Event>, start: nat, done: seq<Round>, r: Round,
                 curr: Blacklist.Node)
    requires list.Valid() && Holds(list, w, es, start, done, curr) && MayGoOn(w, es, start, done, r)
    requires curr.next == null && list.store == At(w, es, r.test).store
    ensures Ends(w, es, start, done, r.test)
  {
    LinkSurvives(w, es, Clock(start, done), r.test, Reached(w, es, start, done));
  }

  // Other threads run, and the walk keeps its node.
  method Wait(list: Blacklist.List, state: int, ghost w: World, es: seq<Event>, i: nat, j: nat,
              ghost start: nat, ghost done: seq<Round>, ghost curr: Blacklist.Node)
    returns (next: int)
    requires list.Valid() && WellLinked(w.store) && i <= j <= |es| && World(list.store, state) == At(w, es, i)
    requires Holds(list, w, es, start, done, curr)
    modifies list, list.nodes
    ensures list.Valid() && old(list.nodes) <= list.nodes
    ensures forall k :: |old(list.nodes)| <= k < |list.nodes| ==> fresh(list.nodes[k])
    ensures World(list.store, next) == At(w, es, j)
    ensures Holds(list, w, es, start, done, curr)
  {
    next := Blacklist.PerformAll(list, state, w, es, i, j);
  }

  // The walk has taken the rounds `done`, printed `printed`, and is at `curr`; other threads are at the event `now`.
  ghost predicate InLoop(list: Blacklist.List, state: int, w: World, es: seq<Event>, start: nat, done: seq<Round>,
                         now: nat, printed: seq<string>, curr: Blacklist.Node)
    reads list, list.nodes
  {
    && list.Valid() && Holds(list, w, es, start, done, curr)
    && now == Clock(start, done) && World(list.store, state) == At(w, es, now)
    && printed == Names(w, es, start, done)
  }

  lemma TakenSoFar(w: World, es: seq<Event>, start: nat, rounds: seq<Round>, done: seq<Round>)
    requires Timed(w, es, start, rounds) && done < rounds
    ensures MayGoOn(w, es, start, done, rounds[|done|]) && done + [rounds[|done|]] <= rounds
  {
    InTurnPrefix(start, rounds, done);
  }

  // What the rounds taken so far have led to.
  ghost predicate Output(w: World, es: seq<Event>, start: nat, done: seq<Round>, printed: seq<string>, last: bool) {
    && Timed(w, es, start, done) && (last ==> Reached(w, es, start, done).To?)
    && printed == Names(w, es, start, done) + if last then [NameOf(w, es, start, done)] else []
  }

  // What the walk printed and how it came out.
  ghost predicate Result(w: World, es: seq<Event>, start: nat, rounds: seq<Round>, done: seq<Round>,
                         printed: seq<string>, outcome: Outcome)
  {
    CameOut(w, es, start, rounds, done, outcome) && Output(w, es, start, done, printed, outcome == Complete)
  }

  lemma LoopIsOver(list: Blacklist.List, state: int, w: World, es: seq<Event>, start: nat, rounds: seq<Round>,
                   done: seq<Round>, now: nat, printed: seq<string>, curr: Blacklist.Node)
    requires InLoop(list, state, w, es, start, done, now, printed, curr) && done <= rounds && |done| == |rounds|
    ensures Result(w, es, start, rounds, done, printed, UnderWay)
  {
    assert done == rounds;
  }

  // One round of the loop.  It ends the walk if the node has no successor, or has none any more.
  method TakeRound(list: Blacklist.List, state: int, ghost w: World, es: seq<Event>, ghost start: nat,
                   rounds: seq<Round>, done: seq<Round>, now: nat, curr: Blacklist.Node, before: seq<string>)
    returns (next: int, succ: Blacklist.Node?, outcome: Outcome, printed: seq<string>)
    requires InLoop(list, state, w, es, start, done, now, before, curr) && Timed(w, es, start, rounds) && done < rounds
    modifies list, list.nodes
    ensures list.Valid() && old(list.nodes) <= list.nodes
    ensures forall k :: |old(list.nodes)| <= k < |list.nodes| ==> fresh(list.nodes[k])
    ensures outcome == Complete || outcome == Lost || outcome == UnderWay
    ensures done + [rounds[|done|]] <= rounds
    ensures outcome == Complete ==> Result(w, es, start, rounds, done, printed, Complete)
    ensures outcome == Lost ==> Result(w, es, start, rounds, done + [rounds[|done|]], printed, Lost)
    ensures outcome == UnderWay ==>
              && succ != null
              && InLoop(list, next, w, es, start, done + [rounds[|done|]], rounds[|done|].step, printed, succ)
  {
    var r := rounds[|done|];
    TakenSoFar(w, es, start, rounds, done);
    next := Wait(list, state, w, es, now, r.test, start, done, curr);
    printed := before + [curr.path];
    if curr.next == null {
      LastNode(list, w, es, start, done, r, curr);
      return next, null, Complete, printed;
    }
    next := Wait(list, next, w, es, r.test, r.step, start, done, curr);
    NextNode(list, w, es, start, done, r, curr);
    RoundSnoc(w, es, start, done, r);
    succ, outcome := curr.next, if curr.next == null then Lost else UnderWay;
  }

  // The head is read after the first `start` events.
  method ReadHead(list: Blacklist.List, state: int, es: seq<Event>, start: nat)
    returns (code: int, curr: Blacklist.Node?)
    requires list.Valid() && start <= |es|
    modifies list, list.nodes
    ensures list.Valid() && old(list.nodes) <= list.nodes
    ensures forall k :: |old(list.nodes)| <= k < |list.nodes| ==> fresh(list.nodes[k])
    ensures var w := old(World(list.store, state));
            if curr == null then Reached(w, es, start, []).Null?
            else InLoop(list, code, w, es, start, [], start, [], curr)
  {
    ghost var w := World(list.store, state);
    AtEnds(w, es);
    code := Blacklist.PerformAll(list, state, w, es, 0, start);
    curr := list.head;
    FirstNode(list, w, es, start);
  }

  // The loop, from the first node on.
  method PrintLoop(list: Blacklist.List, state: int, ghost w: World, es: seq<Event>, start: nat, rounds: seq<Round>,
                   head: Blacklist.Node)
    returns (printed: seq<string>, outcome: Outcome, done: seq<Round>)
    requires InLoop(list, state, w, es, start, [], start, [], head) && Timed(w, es, start, rounds)
    modifies list, list.nodes
    ensures list.Valid() && Result(w, es, start, rounds, done, printed, outcome)
  {
    var code, curr: Blacklist.Node, now := state, head, start;
    printed, done := [], [];
    while |done| < |rounds|
      invariant done <= rounds && old(list.nodes) <= list.nodes
      invariant forall k :: |old(list.nodes)| <= k < |list.nodes| ==> fresh(list.nodes[k])
      invariant InLoop(list, code, w, es, start, done, now, printed, curr)
    {
      var succ;
      code, succ, outcome, printed := TakeRound(list, code, w, es, start, rounds, done, now, curr, printed);
      if outcome == Complete {
        return;
      }
      now, done := rounds[|done|].step, done + [rounds[|done|]];
      if outcome == Lost {
        return;
      }
      curr := succ;
    }
    LoopIsOver(list, code, w, es, start, rounds, done, now, printed, curr);
    outcome := UnderWay;
  }

  // The walk of sys_print_blacklist on the real pointers, with other threads' critical sections between its steps.
  method InterleavedPrint(list: Blacklist.List, state: int, es: seq<Event>, start: nat, rounds: seq<Round>)
    returns (printed: seq<string>, outcome: Outcome, done: seq<Round>)
    requires list.Valid() && InTurn(start, rounds) && Clock(start, rounds) <= |es|
    modifies list, list.nodes
    ensures list.Valid() && Result(old(World(list.store, state)), es, start, rounds, done, printed, outcome)
  {
    ghost var w := World(list.store, state);
    ClockStarts(start, rounds);
    var code, head := ReadHead(list, state, es, start);
    if head == null {
      return [], Empty, [];
    }
    printed, outcome, done := PrintLoop(list, code, w, es, start, rounds, head);
  }
}
