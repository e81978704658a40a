/**
 is_blacklisted reads the size, the state (twice, once for each comparison) and the head without the lock, and
 walks the list under it.  Any number of other critical sections may run between those steps, so the walk may
 start at a node that has left the list.  This module gives the lookup as those steps and proves what its answer
 means for every interleaving.
 */
module Lookup {
  import opened BlacklistStore
  import opened BlacklistRuns
  import opened PathMatching

  const RF_ON := 0
  const RF_OFF := 1
  const RF_REC_ON := 2
  const RF_REC_OFF := 3

  datatype World = World(store: Store, state: int)

  // What other threads do while they hold the lock.
  datatype Event = ListOp(op: Op) | SwitchTo(state: int)

  ghost function Next(w: World, e: Event): World
    requires WellLinked(w.store)
  {
    match e
    case ListOp(op) => w.(store := Apply(w.store, op))
    case SwitchTo(s) => w.(state := s)
  }

  ghost function After(w: World, es: seq<Event>): (r: World)
    requires WellLinked(w.store)
    ensures WellLinked(r.store)
    decreases |es|
  {
    if es == [] then w
    else
      var v := After(w, es[..|es| - 1]);
      var e := es[|es| - 1];
      assert e.ListOp? ==> WellLinked(Apply(v.store, e.op)) by {
        if e.ListOp? { ApplyWellLinked(v.store, e.op, Null); }
      }
      Next(v, e)
  }

  // The world after the first k events.
  ghost function At(w: World, es: seq<Event>, k: nat): (r: World)
    requires WellLinked(w.store) && k <= |es|
    ensures WellLinked(r.store)
  {
    After(w, es[..k])
  }

  predicate Off(state: int) {
    state == RF_OFF || state == RF_REC_OFF
  }

  // The locked walk: some node on the chain from `l` protects the path.
  ghost predicate WalkFinds(es: seq<Entry>, l: Link, path: string)
    requires Forward(es) && InRange(es, l)
  {
    ChainAscends(es, l);
    Blocked(Paths(es, Chain(es, l)), path)
  }

  lemma AtNext(w: World, es: seq<Event>, k: nat)
    requires WellLinked(w.store) && k < |es|
    ensures At(w, es, k + 1) == Next(At(w, es, k), es[k])
  {
    assert es[..k + 1][..k] == es[..k];
  }

  lemma AtEnds(w: World, es: seq<Event>)
    requires WellLinked(w.store)
    ensures At(w, es, 0) == w && At(w, es, |es|) == After(w, es)
  {
    assert es[..|es|] == es;
  }

  lemma AfterSnoc(w: World, es: seq<Event>, e: Event)
    requires WellLinked(w.store)
    ensures After(w, es + [e]) == Next(After(w, es), e)
  {
    assert (es + [e])[..|es|] == es;
  }

  lemma {:induction false} AfterConcat(w: World, a: seq<Event>, b: seq<Event>)
    requires WellLinked(w.store)
    ensures After(w, a + b) == After(After(w, a), b)
    decreases |b|
  {
    if b == [] {
      assert a + b == a;
    } else {
      AfterConcat(w, a, b[..|b| - 1]);
      assert (a + b)[..|a + b| - 1] == a + b[..|b| - 1];
    }
  }

  lemma AtConcat(w: World, a: seq<Event>, b: seq<Event>, k: nat)
    requires WellLinked(w.store) && k <= |a + b|
    ensures At(w, a + b, k) == if k <= |a| then At(w, a, k) else At(After(w, a), b, k - |a|)
  {
    if k <= |a| {
      assert (a + b)[..k] == a[..k];
    } else {
      assert (a + b)[..k] == a + b[..k - |a|];
      AfterConcat(w, a, b[..k - |a|]);
    }
  }

  lemma LinkNext(w: World, es: seq<Event>, k: nat, l: Link)
    requires WellLinked(w.store) && k < |es| && InRange(At(w, es, k).store.entries, l)
    ensures InRange(At(w, es, k + 1).store.entries, l)
    ensures l.To? ==> At(w, es, k + 1).store.entries[l.id].path == At(w, es, k).store.entries[l.id].path
  {
    AtNext(w, es, k);
    if es[k].ListOp? {
      ApplyWellLinked(At(w, es, k).store, es[k].op, l);
    }
  }

  // A node that can be named after i events can still be named later, and its path never changes.
  lemma {:induction false} LinkSurvives(w: World, es: seq<Event>, i: nat, j: nat, l: Link)
    requires WellLinked(w.store) && i <= j <= |es| && InRange(At(w, es, i).store.entries, l)
    ensures InRange(At(w, es, j).store.entries, l)
    ensures l.To? ==> At(w, es, j).store.entries[l.id].path == At(w, es, i).store.entries[l.id].path
    decreases j - i
  {
    if i == j {
    } else {
      LinkSurvives(w, es, i, j - 1, l);
      LinkNext(w, es, j - 1, l);
    }
  }

  // ---------------------------------------------------------------- the lookup

  // When a lookup takes its steps, as numbers of events that other threads have performed by then.
  datatype Times = Times(size: nat, state: nat, again: nat, head: nat, lock: nat)

  predicate InOrder(t: Times, end: nat) {
    t.size <= t.state <= t.again <= t.head <= t.lock <= end
  }

  // The state lets a lookup through that compares it with OFF, reads it again and compares it with REC_OFF.
  predicate LetsThrough(state: int, again: int) {
    state != RF_OFF && again != RF_REC_OFF
  }

  // is_blacklisted among the given events.
  ghost predicate Answer(w: World, es: seq<Event>, t: Times, path: string)
    requires WellLinked(w.store) && InOrder(t, |es|)
  {
    var atHead, atLock := At(w, es, t.head), At(w, es, t.lock);
    LinkSurvives(w, es, t.head, t.lock, atHead.store.head);
    && At(w, es, t.size).store.size != 0
    && LetsThrough(At(w, es, t.state).state, At(w, es, t.again).state)
    && WalkFinds(atLock.store.entries, atHead.store.head, path)
  }

  // What a lookup that took the lock for its whole duration would answer.
  ghost predicate AtomicAnswer(w: World, path: string)
    requires WellLinked(w.store)
  {
    !Off(w.state) && Blocked(Contents(w.store), path)
  }

  // ---------------------------------------------------------------- what one operation does to a stale chain

  ghost predicate Covers(st: Store, l: Link)
    requires WellLinked(st) && InRange(st.entries, l)
  {
    forall x :: x in Live(st) ==> x in Chain(st.entries, l)
  }

  ghost predicate Disjoint(st: Store, l: Link)
    requires WellLinked(st) && InRange(st.entries, l)
  {
    forall x :: x in Live(st) ==> x !in Chain(st.entries, l)
  }

  lemma CoversStep(st: Store, op: Op, l: Link)
    requires WellLinked(st) && InRange(st.entries, l)
    requires Covers(st, l) && Live(st) != []
    ensures WellLinked(Apply(st, op)) && InRange(Apply(st, op).entries, l)
    ensures Covers(Apply(st, op), l)
  {
    if op.AddOp? && !Listed(st, op.path) {
      AddChains(st, op.path, l);
      assert Tail(st).id in Live(st);
    } else if op.RemoveOp? && Listed(st, op.path) {
      RemoveChains(st, op.path, l);
    }
  }

  lemma DisjointStep(st: Store, op: Op, l: Link)
    requires WellLinked(st) && InRange(st.entries, l)
    requires Disjoint(st, l)
    ensures WellLinked(Apply(st, op)) && InRange(Apply(st, op).entries, l)
    ensures Disjoint(Apply(st, op), l)
  {
    if op.AddOp? && !Listed(st, op.path) {
      AddChains(st, op.path, l);
      ChainAscends(st.entries, l);
      assert Tail(st).To? ==> Tail(st).id in Live(st);
    } else if op.RemoveOp? && Listed(st, op.path) {
      RemoveChains(st, op.path, l);
    }
  }

  // Nothing enters a stale chain except through the list.
  lemma ChainGrowsFromList(st: Store, op: Op, l: Link, x: nat)
    requires WellLinked(st) && InRange(st.entries, l)
    ensures WellLinked(Apply(st, op)) && InRange(Apply(st, op).entries, l)
    ensures x in Chain(Apply(st, op).entries, l) ==> x in Chain(st.entries, l) || x in Live(Apply(st, op))
  {
    if op.AddOp? && !Listed(st, op.path) {
      AddChains(st, op.path, l);
    } else if op.RemoveOp? && Listed(st, op.path) {
      RemoveChains(st, op.path, l);
    }
  }

  // ---------------------------------------------------------------- stale walks over whole interleavings

  ghost predicate EverEmpty(w: World, es: seq<Event>, i: nat, j: nat)
    requires WellLinked(w.store) && i <= j <= |es|
  {
    exists k :: i <= k <= j && Live(At(w, es, k).store) == []
  }

  // A head read after i events either still leads to every listed node after j events or to none of them,
  // according to whether the list was ever empty in between.
  lemma {:induction false} StaleChain(w: World, es: seq<Event>, i: nat, j: nat)
    requires WellLinked(w.store) && i <= j <= |es|
    ensures InRange(At(w, es, j).store.entries, At(w, es, i).store.head)
    ensures if EverEmpty(w, es, i, j) then Disjoint(At(w, es, j).store, At(w, es, i).store.head)
            else Covers(At(w, es, j).store, At(w, es, i).store.head)
    decreases j - i
  {
    var l := At(w, es, i).store.head;
    LinkSurvives(w, es, i, j, l);
    if i == j {
    } else {
      StaleChain(w, es, i, j - 1);
      StaleStep(w, es, i, j);
    }
  }

  lemma StaleStep(w: World, es: seq<Event>, i: nat, j: nat)
    requires WellLinked(w.store) && i < j <= |es|
    requires InRange(At(w, es, j - 1).store.entries, At(w, es, i).store.head)
    requires if EverEmpty(w, es, i, j - 1) then Disjoint(At(w, es, j - 1).store, At(w, es, i).store.head)
             else Covers(At(w, es, j - 1).store, At(w, es, i).store.head)
    ensures InRange(At(w, es, j).store.entries, At(w, es, i).store.head)
    ensures if EverEmpty(w, es, i, j) then Disjoint(At(w, es, j).store, At(w, es, i).store.head)
            else Covers(At(w, es, j).store, At(w, es, i).store.head)
  {
    var l, v, e := At(w, es, i).store.head, At(w, es, j - 1), es[j - 1];
    AtNext(w, es, j - 1);
    EverEmptyStep(w, es, i, j);
    if e.ListOp? {
      if EverEmpty(w, es, i, j - 1) {
        DisjointStep(v.store, e.op, l);
      } else {
        CoversStep(v.store, e.op, l);
      }
    }
  }

  lemma EverEmptyStep(w: World, es: seq<Event>, i: nat, j: nat)
    requires WellLinked(w.store) && i < j <= |es|
    ensures EverEmpty(w, es, i, j) <==> EverEmpty(w, es, i, j - 1) || Live(At(w, es, j).store) == []
    ensures !EverEmpty(w, es, i, j - 1) ==> Live(At(w, es, j - 1).store) != []
  {
  }

  // The walk sees every path listed when the lock is taken if and only if the list was not emptied since the
  // head was read (or is empty now).
  lemma StaleWalkCoverage(w: World, es: seq<Event>, i: nat, j: nat)
    requires WellLinked(w.store) && i <= j <= |es|
    ensures InRange(At(w, es, j).store.entries, At(w, es, i).store.head)
    ensures Covers(At(w, es, j).store, At(w, es, i).store.head) <==>
            !EverEmpty(w, es, i, j) || Live(At(w, es, j).store) == []
  {
    StaleChain(w, es, i, j);
    var st := At(w, es, j).store;
    if Live(st) != [] {
      assert Live(st)[0] in Live(st);
    }
  }

  // A listed path the walk misses: the only entry is removed after the head was read, and another one is added.
  lemma StaleWalkMisses() returns (w: World, es: seq<Event>)
    ensures Inv(w.store) && EverEmpty(w, es, 0, |es|)
    ensures Contents(After(w, es).store) == ["/p"]
    ensures InRange(After(w, es).store.entries, w.store.head)
    ensures !WalkFinds(After(w, es).store.entries, w.store.head, "/p")
  {
    var one := Store([Entry("/x", Null)], To(0), 1);
    assert Chain(one.entries, To(0)) == [0] && Contents(one) == ["/x"];
    RemoveWrites(one, "/x");
    var none := Remove(one, "/x");
    assert none == Store([Entry("/x", Null)], Null, 0) && Contents(none) == [];
    ListedIffInContents(none, "/p");
    AddContents(none, "/p");
    AddChains(none, "/p", To(0));
    assert "/x"[1] != "/p"[1] && Trimmed("/x") == "/x";
    w, es := World(one, RF_ON), [ListOp(RemoveOp("/x")), ListOp(AddOp("/p"))];
    AtEnds(w, es);
    AtNext(w, es, 0);
    AtNext(w, es, 1);
    assert At(w, es, 1) == World(none, RF_ON);
  }

  lemma GrewFromList(w: World, es: seq<Event>, j: nat, l: Link, x: nat)
    requires WellLinked(w.store) && j < |es| && InRange(At(w, es, j).store.entries, l)
    ensures InRange(At(w, es, j + 1).store.entries, l)
    ensures x in Chain(At(w, es, j + 1).store.entries, l) ==>
              x in Chain(At(w, es, j).store.entries, l) || x in Live(At(w, es, j + 1).store)
  {
    AtNext(w, es, j);
    if es[j].ListOp? {
      ChainGrowsFromList(At(w, es, j).store, es[j].op, l, x);
    }
  }

  // A node that can be reached from `l` after j events could already after i events, or was in the list since.
  ghost predicate Came(w: World, es: seq<Event>, i: nat, j: nat, l: Link, x: nat)
    requires WellLinked(w.store) && i <= j <= |es| && InRange(At(w, es, i).store.entries, l)
  {
    || x in Chain(At(w, es, i).store.entries, l)
    || exists k :: i <= k <= j && x in Live(At(w, es, k).store)
  }

  lemma CameLater(w: World, es: seq<Event>, i: nat, j: nat, l: Link, x: nat)
    requires WellLinked(w.store) && i <= j < |es| && InRange(At(w, es, i).store.entries, l)
    requires Came(w, es, i, j, l, x) || x in Live(At(w, es, j + 1).store)
    ensures Came(w, es, i, j + 1, l, x)
  {
  }

  lemma {:induction false} ChainCame(w: World, es: seq<Event>, i: nat, j: nat, l: Link, x: nat)
    requires WellLinked(w.store) && i <= j <= |es| && InRange(At(w, es, i).store.entries, l)
    ensures InRange(At(w, es, j).store.entries, l)
    ensures x in Chain(At(w, es, j).store.entries, l) ==> Came(w, es, i, j, l, x)
    decreases j - i
  {
    if i == j {
    } else {
      ChainCame(w, es, i, j - 1, l, x);
      GrewFromList(w, es, j - 1, l, x);
      if Came(w, es, i, j - 1, l, x) || x in Live(At(w, es, j).store) {
        CameLater(w, es, i, j - 1, l, x);
      }
    }
  }

  // Every node the walk visits was in the list at some moment since the head was read.
  lemma VisitedWasLive(w: World, es: seq<Event>, i: nat, j: nat, x: nat) returns (k: nat)
    requires WellLinked(w.store) && i <= j <= |es|
    requires InRange(At(w, es, j).store.entries, At(w, es, i).store.head)
    requires x in Chain(At(w, es, j).store.entries, At(w, es, i).store.head)
    ensures i <= k <= j && x in Live(At(w, es, k).store)
  {
    ChainCame(w, es, i, j, At(w, es, i).store.head, x);
    if x in Live(At(w, es, i).store) {
      k := i;
    } else {
      k :| i <= k <= j && x in Live(At(w, es, k).store);
    }
  }

  // ---------------------------------------------------------------- what the answer means

  lemma BlockedIsWitnessed(es: seq<Entry>, c: seq<nat>, path: string)
    requires forall i :: 0 <= i < |c| ==> c[i] < |es|
    ensures Blocked(Paths(es, c), path) <==> exists x :: x in c && Protects(es[x].path, path)
  {
  }

  // A node that was listed and protects the path then makes the path protected.
  lemma ListedProtects(w: World, es: seq<Event>, k: nat, j: nat, x: nat, path: string)
    requires WellLinked(w.store) && k <= j <= |es| && x in Live(At(w, es, k).store)
    requires x < |At(w, es, j).store.entries| && Protects(At(w, es, j).store.entries[x].path, path)
    ensures Blocked(Contents(At(w, es, k).store), path)
  {
    var st := At(w, es, k).store;
    ChainAscends(st.entries, st.head);
    LinkSurvives(w, es, k, j, To(x));
    BlockedIsWitnessed(st.entries, Live(st), path);
  }

  // A positive answer is never invented: the size was not 0, the state was read as other than OFF and then as
  // other than REC_OFF, and at some moment between reading the head and taking the lock a listed entry protected
  // the path.
  lemma AnswerSound(w: World, es: seq<Event>, t: Times, path: string) returns (k: nat)
    requires WellLinked(w.store) && InOrder(t, |es|) && Answer(w, es, t, path)
    ensures At(w, es, t.size).store.size != 0
    ensures LetsThrough(At(w, es, t.state).state, At(w, es, t.again).state)
    ensures t.head <= k <= t.lock && Blocked(Contents(At(w, es, k).store), path)
  {
    var l, entries := At(w, es, t.head).store.head, At(w, es, t.lock).store.entries;
    LinkSurvives(w, es, t.head, t.lock, l);
    ChainAscends(entries, l);
    BlockedIsWitnessed(entries, Chain(entries, l), path);
    var x :| x in Chain(entries, l) && Protects(entries[x].path, path);
    k := VisitedWasLive(w, es, t.head, t.lock, x);
    ListedProtects(w, es, k, t.lock, x, path);
  }

  // What the two reads of the state tell: the monitor was on at one of them, or it was switched from REC_OFF to OFF
  // in between.
  lemma TwoReads(state: int, again: int)
    requires LetsThrough(state, again)
    ensures !Off(state) || !Off(again) || (state == RF_REC_OFF && again == RF_OFF)
  {
  }

  // Two reads are not one: switched from REC_OFF to OFF between them, the monitor is off at every moment, and the
  // lookup answers 1.
  lemma AnswerWhileOff() returns (w: World, es: seq<Event>, t: Times)
    ensures Inv(w.store) && InOrder(t, |es|) && Answer(w, es, t, "/x")
    ensures forall k :: 0 <= k <= |es| ==> Off(At(w, es, k).state)
  {
    var one := Store([Entry("/x", Null)], To(0), 1);
    assert Chain(one.entries, To(0)) == [0] && Contents(one) == ["/x"];
    assert Protects("/x", "/x");
    w, es, t := World(one, RF_REC_OFF), [SwitchTo(RF_OFF)], Times(0, 0, 1, 1, 1);
    AtEnds(w, es);
    AtNext(w, es, 0);
  }

  // The walk finds the path if at every moment from reading the head to taking the lock some listed entry - not
  // necessarily the same one - protects it.
  lemma WalkComplete(w: World, es: seq<Event>, i: nat, j: nat, path: string)
    requires WellLinked(w.store) && i <= j <= |es| && !EverEmpty(w, es, i, j)
    requires Blocked(Contents(At(w, es, j).store), path)
    ensures InRange(At(w, es, j).store.entries, At(w, es, i).store.head)
    ensures WalkFinds(At(w, es, j).store.entries, At(w, es, i).store.head, path)
  {
    var l, st := At(w, es, i).store.head, At(w, es, j).store;
    StaleChain(w, es, i, j);
    ChainAscends(st.entries, st.head);
    BlockedIsWitnessed(st.entries, Live(st), path);
    ChainAscends(st.entries, l);
    BlockedIsWitnessed(st.entries, Chain(st.entries, l), path);
  }

  lemma BlockedIsNotEmpty(st: Store, path: string)
    requires WellLinked(st) && Blocked(Contents(st), path)
    ensures Live(st) != []
  {
  }

  // A protected path is never missed: if at every moment from reading the head to taking the lock some listed
  // entry - not necessarily the same one - protects the path, the walk finds one.
  lemma AnswerComplete(w: World, es: seq<Event>, t: Times, path: string)
    requires WellLinked(w.store) && InOrder(t, |es|) && At(w, es, t.size).store.size != 0
    requires LetsThrough(At(w, es, t.state).state, At(w, es, t.again).state)
    requires forall k :: t.head <= k <= t.lock ==> Blocked(Contents(At(w, es, k).store), path)
    ensures Answer(w, es, t, path)
  {
    forall k | t.head <= k <= t.lock ensures Live(At(w, es, k).store) != [] {
      BlockedIsNotEmpty(At(w, es, k).store, path);
    }
    WalkComplete(w, es, t.head, t.lock, path);
  }

  // ---------------------------------------------------------------- answers as moments of the call

  lemma InvNext(w: World, e: Event)
    requires Inv(w.store)
    ensures Inv(Next(w, e).store)
    ensures Contents(Next(w, e).store) == if e.ListOp? then ListApply(Contents(w.store), e.op) else Contents(w.store)
  {
    match e {
      case ListOp(AddOp(p)) => AddRefines(w.store, p);
      case ListOp(RemoveOp(p)) => RemoveRefines(w.store, p);
      case SwitchTo(_) =>
    }
  }

  lemma {:induction false} InvAt(w: World, es: seq<Event>, k: nat)
    requires Inv(w.store) && k <= |es|
    ensures Inv(At(w, es, k).store)
  {
    if k == 0 {
    } else {
      InvAt(w, es, k - 1);
      InvNext(At(w, es, k - 1), es[k - 1]);
      AtNext(w, es, k - 1);
    }
  }

  // A negative answer is always right at some moment of the call.
  lemma NegativeAnswerIsAtomic(w: World, es: seq<Event>, t: Times, path: string) returns (k: nat)
    requires Inv(w.store) && InOrder(t, |es|) && !Answer(w, es, t, path)
    ensures t.size <= k <= t.lock && !AtomicAnswer(At(w, es, k), path)
  {
    if At(w, es, t.size).store.size == 0 {
      InvAt(w, es, t.size);
      assert Contents(At(w, es, t.size).store) == [];
      k := t.size;
    } else if Off(At(w, es, t.state).state) {
      k := t.state;
    } else if Off(At(w, es, t.again).state) {
      k := t.again;
    } else if forall j :: t.head <= j <= t.lock ==> Blocked(Contents(At(w, es, j).store), path) {
      AnswerComplete(w, es, t, path);
      assert false;
    } else {
      k :| t.head <= k <= t.lock && !Blocked(Contents(At(w, es, k).store), path);
    }
  }

  // A positive answer is right at some moment of the call when the monitor is on from the moment the head is
  // read until the lock is taken.
  lemma PositiveAnswerIsAtomic(w: World, es: seq<Event>, t: Times, path: string) returns (k: nat)
    requires WellLinked(w.store) && InOrder(t, |es|) && Answer(w, es, t, path)
    requires forall j :: t.head <= j <= t.lock ==> !Off(At(w, es, j).state)
    ensures t.head <= k <= t.lock && AtomicAnswer(At(w, es, k), path)
  {
    k := AnswerSound(w, es, t, path);
  }

  // A lookup nothing interferes with gives the atomic answer; in particular the size shortcut is harmless.
  lemma UndisturbedAnswer(w: World, es: seq<Event>, k: nat, path: string)
    requires Inv(w.store) && k <= |es|
    ensures Answer(w, es, Times(k, k, k, k, k), path) <==> AtomicAnswer(At(w, es, k), path)
  {
    InvAt(w, es, k);
  }

  // An entry that stays listed, while the monitor stays on, is found whatever else happens.
  lemma StayingEntryIsFound(w: World, es: seq<Event>, t: Times, path: string, entry: string)
    requires Inv(w.store) && InOrder(t, |es|) && Protects(entry, path)
    requires forall k :: t.size <= k <= t.lock ==>
               entry in Contents(At(w, es, k).store) && !Off(At(w, es, k).state)
    ensures Answer(w, es, t, path)
  {
    forall k | t.size <= k <= t.lock ensures Blocked(Contents(At(w, es, k).store), path) {
      var l := Contents(At(w, es, k).store);
      var i :| 0 <= i < |l| && l[i] == entry;
      assert Protects(l[i], path);
    }
    InvAt(w, es, t.size);
    AnswerComplete(w, es, t, path);
  }
}
