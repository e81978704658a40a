/**
 What the entry handlers decide while other threads edit the list and switch the state.  A handler takes no lock;
 it calls is_blacklisted once or twice, and critical sections may run inside and between those lookups.
 */
module Handlers {
  import opened BlacklistStore
  import opened BlacklistRuns
  import opened PathMatching
  import opened Lookup
  import opened Interception

  // The first lookup is over before the second one starts.
  predicate Sequential(a: Times, b: Times, end: nat) {
    InOrder(a, b.size) && InOrder(b, end)
  }

  // The handler's decision, with its first lookup at the times a and its second, if it makes one, at the times b.
  ghost predicate HandlerBlocks(w: World, es: seq<Event>, a: Times, b: Times, op: Operation)
    requires WellLinked(w.store) && Sequential(a, b, |es|)
  {
    EntryBlocks(p => Answer(w, es, a, p), p => Answer(w, es, b, p), op)
  }

  // What a handler would decide that held the lock for its whole duration.
  ghost predicate AtomicBlocks(m: World, op: Operation)
    requires WellLinked(m.store)
  {
    EntryBlocks(p => AtomicAnswer(m, p), p => AtomicAnswer(m, p), op)
  }

  lemma AtomicBlocksExactly(m: World, op: Operation)
    requires WellLinked(m.store)
    ensures AtomicBlocks(m, op) <==> !Off(m.state) && Concerns(Contents(m.store), op)
  {
    if Off(m.state) {
      TestsInOrder(p => AtomicAnswer(m, p), p => AtomicAnswer(m, p), op);
    } else {
      BlocksExactly(Contents(m.store), p => AtomicAnswer(m, p), op);
    }
  }

  lemma HandlerTests(w: World, es: seq<Event>, a: Times, b: Times, op: Operation)
    requires WellLinked(w.store) && Sequential(a, b, |es|)
    ensures HandlerBlocks(w, es, a, b, op) <==>
            || (|Tested(op)| > 0 && Answer(w, es, a, Seen(Tested(op)[0])))
            || (|Tested(op)| > 1 && Answer(w, es, b, Seen(Tested(op)[1])))
  {
    TestsInOrder(p => Answer(w, es, a, p), p => Answer(w, es, b, p), op);
  }

  lemma AtomicTests(m: World, op: Operation)
    requires WellLinked(m.store)
    ensures AtomicBlocks(m, op) <==>
            || (|Tested(op)| > 0 && AtomicAnswer(m, Seen(Tested(op)[0])))
            || (|Tested(op)| > 1 && AtomicAnswer(m, Seen(Tested(op)[1])))
  {
    TestsInOrder(p => AtomicAnswer(m, p), p => AtomicAnswer(m, p), op);
  }

  // ---------------------------------------------------------------- blocks

  // A block is never invented: at some moment between reading the head and taking the lock in one of the lookups,
  // the list gave reason to block.
  lemma BlockIsSound(w: World, es: seq<Event>, a: Times, b: Times, op: Operation) returns (k: nat)
    requires WellLinked(w.store) && Sequential(a, b, |es|)
    ensures HandlerBlocks(w, es, a, b, op) ==>
              && (a.head <= k <= a.lock || b.head <= k <= b.lock)
              && Concerns(Contents(At(w, es, k).store), op)
  {
    HandlerTests(w, es, a, b, op);
    k := 0;
    if |Tested(op)| > 0 && Answer(w, es, a, Seen(Tested(op)[0])) {
      k := AnswerSound(w, es, a, Seen(Tested(op)[0]));
      FoundConcerns(Contents(At(w, es, k).store), op, Tested(op)[0]);
    } else if |Tested(op)| > 1 && Answer(w, es, b, Seen(Tested(op)[1])) {
      k := AnswerSound(w, es, b, Seen(Tested(op)[1]));
      FoundConcerns(Contents(At(w, es, k).store), op, Tested(op)[1]);
    }
  }

  // A lookup finds a name whose path is protected at every moment while the monitor is on.
  lemma ProtectedNameIsFound(w: World, es: seq<Event>, t: Times, n: Name)
    requires Inv(w.store) && InOrder(t, |es|)
    requires forall k :: t.size <= k <= t.lock ==>
               Blocked(Contents(At(w, es, k).store), n.path) && !Off(At(w, es, k).state)
    ensures Answer(w, es, t, Seen(n))
  {
    forall k | t.size <= k <= t.lock ensures Blocked(Contents(At(w, es, k).store), Seen(n)) {
      SeenBlocks(Contents(At(w, es, k).store), n);
    }
    InvAt(w, es, t.size);
    AnswerComplete(w, es, t, Seen(n));
  }

  // An operation is always blocked if a path it would change is protected at every moment, by whichever entries,
  // while the monitor is on.
  lemma ProtectedIsBlocked(w: World, es: seq<Event>, a: Times, b: Times, op: Operation, p: string)
    requires Inv(w.store) && Sequential(a, b, |es|) && p in Touched(op)
    requires forall k :: a.size <= k <= b.lock ==>
               Blocked(Contents(At(w, es, k).store), p) && !Off(At(w, es, k).state)
    ensures HandlerBlocks(w, es, a, b, op)
  {
    HandlerTests(w, es, a, b, op);
    TouchedInOrder(op, p);
    if p == Tested(op)[0].path {
      ProtectedNameIsFound(w, es, a, Tested(op)[0]);
    } else {
      ProtectedNameIsFound(w, es, b, Tested(op)[1]);
    }
  }

  // ---------------------------------------------------------------- passes

  // A handler with one lookup lets an operation pass only if an atomic handler would at some moment of the call.
  lemma SinglePassIsAtomic(w: World, es: seq<Event>, a: Times, b: Times, op: Operation) returns (k: nat)
    requires Inv(w.store) && Sequential(a, b, |es|) && |Tested(op)| <= 1 && !HandlerBlocks(w, es, a, b, op)
    ensures a.size <= k <= a.lock && !AtomicBlocks(At(w, es, k), op)
  {
    HandlerTests(w, es, a, b, op);
    k := a.size;
    if Tested(op) != [] {
      k := NegativeAnswerIsAtomic(w, es, a, Seen(Tested(op)[0]));
    }
    AtomicTests(At(w, es, k), op);
  }

  // For all handlers but rename and link a pass is right at some moment: the monitor is off, or no path that the
  // operation would change is protected.
  lemma PassIsRight(w: World, es: seq<Event>, a: Times, b: Times, op: Operation) returns (k: nat)
    requires Inv(w.store) && Sequential(a, b, |es|) && !op.Rename? && !op.Link? && !HandlerBlocks(w, es, a, b, op)
    ensures a.size <= k <= a.lock
    ensures Off(At(w, es, k).state) || forall p :: p in Touched(op) ==> !Blocked(Contents(At(w, es, k).store), p)
  {
    HandlerTests(w, es, a, b, op);
    k := a.size;
    if Tested(op) != [] {
      k := NegativeAnswerIsAtomic(w, es, a, Seen(Tested(op)[0]));
      SeenBlocks(Contents(At(w, es, k).store), Tested(op)[0]);
    }
  }

  // ---------------------------------------------------------------- two lookups

  // What an edit may do to the two names of such a handler: an add can put the first under protection, a removal
  // can take the second out of it.
  datatype Mark = Raise | Drop

  predicate Raises(first: string, e: Event) {
    e.ListOp? && e.op.AddOp? && Protects(e.op.path, first)
  }

  predicate Drops(second: string, e: Event) {
    e.ListOp? && e.op.RemoveOp? && Protects(e.op.path, second)
  }

  // The marks of a sequence of events.
  function Marks(first: string, second: string, es: seq<Event>): seq<Mark>
    decreases |es|
  {
    if es == [] then []
    else
      var front, last := es[..|es| - 1], es[|es| - 1];
      Marks(first, second, front) + if Raises(first, last) then [Raise] else if Drops(second, last) then [Drop] else []
  }

  ghost predicate RaiseThenDrop(c: seq<Mark>) {
    exists i, j :: 0 <= i < j < |c| && c[i] == Raise && c[j] == Drop
  }

  lemma {:induction false} MarkIn(first: string, second: string, es: seq<Event>, p: nat) returns (m: nat)
    requires p < |es| && Raises(first, es[p])
    ensures m < |Marks(first, second, es)| && Marks(first, second, es)[m] == Raise
    decreases |es|
  {
    var front := es[..|es| - 1];
    if p == |front| {
      m := |Marks(first, second, front)|;
    } else {
      m := MarkIn(first, second, front, p);
    }
  }

  // An add of an entry for the first name and a later removal of one for the second leave both marks in order.
  lemma {:induction false} MarksInOrder(first: string, second: string, es: seq<Event>, p: nat, q: nat)
    returns (m: nat, n: nat)
    requires p < q < |es| && Raises(first, es[p]) && Drops(second, es[q])
    ensures m < n < |Marks(first, second, es)|
    ensures Marks(first, second, es)[m] == Raise && Marks(first, second, es)[n] == Drop
    decreases |es|
  {
    var front := es[..|es| - 1];
    if q == |front| {
      m := MarkIn(first, second, front, p);
      n := |Marks(first, second, front)|;
    } else {
      m, n := MarksInOrder(first, second, front, p, q);
    }
  }

  lemma MarkedBetween(first: string, second: string, es: seq<Event>, i: nat, j: nat, p: nat, q: nat)
    requires i <= p < q < j <= |es| && Raises(first, es[p]) && Drops(second, es[q])
    ensures RaiseThenDrop(Marks(first, second, es[i..j]))
  {
    var m, n := MarksInOrder(first, second, es[i..j], p - i, q - i);
  }

  lemma BlockedByMember(l: seq<string>, more: seq<string>, path: string)
    requires forall p :: p in l ==> p in more
    ensures Blocked(l, path) ==> Blocked(more, path)
  {
    if i :| 0 <= i < |l| && Protects(l[i], path) {
      assert l[i] in more;
    }
  }

  // Only adding an entry for a path can put it under protection, and only removing one can take it out.
  lemma ProtectionChanges(l: seq<string>, op: Op, path: string)
    requires Distinct(l)
    ensures !Blocked(l, path) && Blocked(ListApply(l, op), path) ==> op.AddOp? && Protects(op.path, path)
    ensures Blocked(l, path) && !Blocked(ListApply(l, op), path) ==> op.RemoveOp? && Protects(op.path, path)
  {
    var l' := ListApply(l, op);
    if op.RemoveOp? {
      Without1Distinct(l, op.path);
      BlockedByMember(l', l, path);
      if i :| 0 <= i < |l| && Protects(l[i], path) && l[i] != op.path {
        assert l[i] in l';
      }
    } else {
      BlockedByMember(l, l', path);
    }
  }

  // What does not hold after i events and holds after j began to hold in between.
  lemma {:induction false} BeganBetween(holds: seq<bool>, i: nat, j: nat) returns (p: nat)
    requires i <= j < |holds| && !holds[i] && holds[j]
    ensures i <= p < j && !holds[p] && holds[p + 1]
    decreases j - i
  {
    if holds[j - 1] {
      p := BeganBetween(holds, i, j - 1);
    } else {
      p := j - 1;
    }
  }

  // If one of two facts holds at every moment, at first only the second and at last only the first, then the first
  // began to hold no later than the second ended.
  lemma {:induction false} Overlap(first: seq<bool>, second: seq<bool>, i: nat, j: nat) returns (p: nat, q: nat)
    requires i <= j < |first| == |second| && !first[i] && !second[j]
    requires forall k :: i <= k <= j ==> first[k] || second[k]
    ensures i <= p <= q < j && !first[p] && first[p + 1] && second[q] && !second[q + 1]
    decreases j - i
  {
    if second[j - 1] {
      q := j - 1;
      p := BeganBetween(first, i, j);
    } else {
      p, q := Overlap(first, second, i, j - 1);
    }
  }

  // Two facts that change only by events that raise the first name or drop the second.
  ghost predicate Tracks(f: seq<bool>, g: seq<bool>, es: seq<Event>, first: string, second: string) {
    && |f| == |g| == |es| + 1
    && (forall k {:trigger es[k]} :: 0 <= k < |es| ==>
          && (!f[k] && f[k + 1] ==> Raises(first, es[k]))
          && (g[k] && !g[k + 1] ==> Drops(second, es[k])))
  }

  // If one of the facts holds at every moment, at first only the second and at last only the first, then the first
  // name was raised before the second was dropped.
  lemma HandedOver(f: seq<bool>, g: seq<bool>, es: seq<Event>, first: string, second: string, i: nat, j: nat)
    returns (p: nat, q: nat)
    requires Tracks(f, g, es, first, second) && i <= j <= |es| && !f[i] && !g[j]
    requires forall k :: i <= k <= j ==> f[k] || g[k]
    ensures i <= p < q < j && Raises(first, es[p]) && Drops(second, es[q])
  {
    p, q := Overlap(f, g, i, j);
    assert Raises(first, es[p]) && Drops(second, es[q]);
  }

  // The moments at which a path is protected.
  ghost function Protected(w: World, es: seq<Event>, path: string): (r: seq<bool>)
    requires WellLinked(w.store)
    ensures |r| == |es| + 1 && forall k :: 0 <= k <= |es| ==> r[k] == Blocked(Contents(At(w, es, k).store), path)
  {
    seq(|es| + 1, k requires 0 <= k <= |es| => Blocked(Contents(At(w, es, k).store), path))
  }

  lemma ProtectionChangesAt(w: World, es: seq<Event>, k: nat, path: string)
    requires Inv(w.store) && k < |es|
    ensures var r := Protected(w, es, path);
            (!r[k] && r[k + 1] ==> Raises(path, es[k])) && (r[k] && !r[k + 1] ==> Drops(path, es[k]))
  {
    AtNext(w, es, k);
    InvAt(w, es, k);
    InvNext(At(w, es, k), es[k]);
    if es[k].ListOp? {
      ProtectionChanges(Contents(At(w, es, k).store), es[k].op, path);
    }
  }

  lemma ProtectionTracks(w: World, es: seq<Event>, first: string, second: string)
    requires Inv(w.store)
    ensures Tracks(Protected(w, es, first), Protected(w, es, second), es, first, second)
  {
    var f, g := Protected(w, es, first), Protected(w, es, second);
    forall k | 0 <= k < |es|
      ensures (!f[k] && f[k + 1] ==> Raises(first, es[k])) && (g[k] && !g[k + 1] ==> Drops(second, es[k]))
    {
      ProtectionChangesAt(w, es, k, first);
      ProtectionChangesAt(w, es, k, second);
    }
  }

  lemma ProtectionHandedOver(w: World, es: seq<Event>, i: nat, j: nat, first: string, second: string)
    requires Inv(w.store) && i <= j <= |es| && !Protected(w, es, first)[i] && !Protected(w, es, second)[j]
    requires forall k :: i <= k <= j ==> Protected(w, es, first)[k] || Protected(w, es, second)[k]
    ensures RaiseThenDrop(Marks(first, second, es[i..j]))
  {
    ProtectionTracks(w, es, first, second);
    var p, q := HandedOver(Protected(w, es, first), Protected(w, es, second), es, first, second, i, j);
    MarkedBetween(first, second, es, i, j, p, q);
  }

  // While the list is never empty and the monitor on, a lookup that misses a path is right when it takes the lock.
  lemma MissedAtLock(w: World, es: seq<Event>, t: Times, path: string)
    requires Inv(w.store) && InOrder(t, |es|) && !Answer(w, es, t, path)
    requires forall k :: t.size <= k <= t.lock ==> Contents(At(w, es, k).store) != [] && !Off(At(w, es, k).state)
    ensures !Blocked(Contents(At(w, es, t.lock).store), path)
  {
    InvAt(w, es, t.size);
    forall k | t.head <= k <= t.lock ensures Live(At(w, es, k).store) != [] {
      assert Contents(At(w, es, k).store) != [];
    }
    if Blocked(Contents(At(w, es, t.lock).store), path) {
      WalkComplete(w, es, t.head, t.lock, path);
      assert false;
    }
  }

  // No moment of the call is right for letting both names pass.
  ghost predicate NeverRight(w: World, es: seq<Event>, a: Times, b: Times, first: string, second: string)
    requires WellLinked(w.store) && Sequential(a, b, |es|)
  {
    forall k :: a.size <= k <= b.lock ==> AtomicAnswer(At(w, es, k), first) || AtomicAnswer(At(w, es, k), second)
  }

  // Two lookups that both miss, although no moment is right for that, have an add of an entry for the first name
  // and a later removal of one for the second between their walks.
  lemma MissesAreMarked(w: World, es: seq<Event>, a: Times, b: Times, first: string, second: string)
    requires Inv(w.store) && Sequential(a, b, |es|) && NeverRight(w, es, a, b, first, second)
    requires !Answer(w, es, a, first) && !Answer(w, es, b, second)
    ensures RaiseThenDrop(Marks(first, second, es[a.lock..b.lock]))
  {
    MissedAtLocks(w, es, a, b, first, second);
    ProtectionHandedOver(w, es, a.lock, b.lock, first, second);
  }

  lemma MissedAtLocks(w: World, es: seq<Event>, a: Times, b: Times, first: string, second: string)
    requires Inv(w.store) && Sequential(a, b, |es|) && NeverRight(w, es, a, b, first, second)
    requires !Answer(w, es, a, first) && !Answer(w, es, b, second)
    ensures !Protected(w, es, first)[a.lock] && !Protected(w, es, second)[b.lock]
    ensures forall k :: a.lock <= k <= b.lock ==> Protected(w, es, first)[k] || Protected(w, es, second)[k]
  {
    forall k | a.size <= k <= b.lock
      ensures Contents(At(w, es, k).store) != [] && !Off(At(w, es, k).state)
      ensures Protected(w, es, first)[k] || Protected(w, es, second)[k]
    {
      assert AtomicAnswer(At(w, es, k), first) || AtomicAnswer(At(w, es, k), second);
    }
    MissedAtLock(w, es, a, first);
    MissedAtLock(w, es, b, second);
  }

  // Misses of two names of which one extends the other are right at a moment of one of the lookups.
  lemma ComparableMisses(w: World, es: seq<Event>, a: Times, b: Times, first: string, second: string)
    requires Inv(w.store) && Sequential(a, b, |es|) && (first <= second || second <= first)
    requires !Answer(w, es, a, first) && !Answer(w, es, b, second)
    ensures !NeverRight(w, es, a, b, first, second)
  {
    var k;
    if first <= second {
      k := NegativeAnswerIsAtomic(w, es, b, second);
      if Blocked(Contents(At(w, es, k).store), first) {
        BlockedExtends(Contents(At(w, es, k).store), first, second);
      }
    } else {
      k := NegativeAnswerIsAtomic(w, es, a, first);
      if Blocked(Contents(At(w, es, k).store), second) {
        BlockedExtends(Contents(At(w, es, k).store), second, first);
      }
    }
    assert !(AtomicAnswer(At(w, es, k), first) || AtomicAnswer(At(w, es, k), second));
  }
}
