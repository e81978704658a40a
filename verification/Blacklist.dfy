/**
 The linked blacklist on the heap: node objects, the head pointer and the size counter, with the loops of
 add_to_blacklist, remove_from_blacklist and the locked walk of is_blacklisted.  Every method is proved against
 the store that the graph theorems are about.
 */
module Blacklist {
  import opened BlacklistStore
  import opened BlacklistRuns
  import opened PathMatching
  import opened Lookup
  import opened Errno

  class Node {
    const path: string
    var next: Node?

    // The source never assigns `next`; a new node is taken to point nowhere.
    constructor (path: string)
      ensures this.path == path && next == null
    {
      this.path := path;
      next := null;
    }
  }

  class List {
    var head: Node?
    var size: int

    // Every node ever linked in, by insertion number, and the graph they form.
    ghost var nodes: seq<Node>
    ghost var store: Store

    ghost function Target(l: Link): Node?
      requires InRange(store.entries, l) && |nodes| == |store.entries|
      reads this
    {
      if l.Null? then null else nodes[l.id]
    }

    // The heap and the graph agree, node by node.
    ghost predicate Mirrors()
      reads this, nodes
    {
      && |nodes| == |store.entries|
      && (forall i, j :: 0 <= i < j < |nodes| ==> nodes[i] != nodes[j])
      && (forall i :: 0 <= i < |nodes| ==>
            && nodes[i].path == store.entries[i].path
            && InRange(store.entries, store.entries[i].next)
            && nodes[i].next == Target(store.entries[i].next))
      && InRange(store.entries, store.head)
      && head == Target(store.head)
      && size == store.size
    }

    // What the loops need.
    ghost predicate Walkable()
      reads this, nodes
    {
      WellLinked(store) && Mirrors()
    }

    ghost predicate Valid()
      reads this, nodes
    {
      Inv(store) && Mirrors()
    }

    constructor ()
      ensures Valid() && store == EMPTY && fresh(nodes)
    {
      head := null;
      size := 0;
      nodes := [];
      store := EMPTY;
    }

    // The k-th node of a chain as the heap has it.
    ghost predicate Thread(chain: seq<nat>, k: nat)
      requires k < |chain|
      reads this, nodes
    {
      && chain[k] < |nodes| == |store.entries|
      && nodes[chain[k]].path == store.entries[chain[k]].path
      && (k + 1 < |chain| ==> chain[k + 1] < |nodes|)
      && nodes[chain[k]].next == if k + 1 < |chain| then nodes[chain[k + 1]] else null
    }

    lemma ChainThreads(from: Link, k: nat)
      requires Walkable() && InRange(store.entries, from) && k < |Chain(store.entries, from)|
      ensures Thread(Chain(store.entries, from), k)
      ensures Target(from) == nodes[Chain(store.entries, from)[0]]
    {
      ChainFrom(store.entries, from, k);
    }

    // A search that has met other paths only, and is at the last node or at one with the path, is decided.
    lemma SearchEnds(path: string, k: nat)
      requires Walkable() && k < |Live(store)|
      requires forall i :: 0 <= i <= k ==> Live(store)[i] < |store.entries|
      requires forall i :: 0 <= i < k ==> store.entries[Live(store)[i]].path != path
      requires k + 1 == |Live(store)| || store.entries[Live(store)[k]].path == path
      ensures Listed(store, path) <==> store.entries[Live(store)[k]].path == path
    {
      ChainAscends(store.entries, store.head);
      FindIs(store.entries, Live(store), path, if store.entries[Live(store)[k]].path == path then k else |Live(store)|);
    }

    // The search of add_to_blacklist: stops at the path if it is listed, at the last node otherwise.
    method FindLast(path: string) returns (last: Node?, found: bool)
      requires Walkable()
      ensures found == Listed(store, path)
      ensures forall i :: 0 <= i < |Live(store)| ==> Live(store)[i] < |nodes|
      ensures !found ==> last == if Live(store) == [] then null else nodes[Live(store)[|Live(store)| - 1]]
    {
      ChainAscends(store.entries, store.head);
      var curr := head;
      ghost var live := Live(store);
      if curr == null {
        return null, false;
      }
      ghost var k := 0;
      ChainThreads(store.head, 0);
      while curr.next != null && curr.path != path
        invariant k < |live| && Thread(live, k) && curr == nodes[live[k]]
        invariant forall i :: 0 <= i < k ==> store.entries[live[i]].path != path
        decreases |live| - k
      {
        curr := curr.next;
        k := k + 1;
        ChainThreads(store.head, k);
      }
      SearchEnds(path, k);
      return curr, curr.path == path;
    }

    // The pointer writes of add_to_blacklist.
    method LinkIn(node: Node, last: Node?, ghost tail: Link)
      requires Mirrors() && InRange(store.entries, tail) && last == Target(tail) && (last == null <==> head == null)
      requires node !in nodes && node.next == null
      modifies this, last
      ensures Mirrors() && nodes == old(nodes) + [node]
      ensures store == old(Store(Linked(store.entries, tail, node.path),
                                 if store.head.Null? then To(|store.entries|) else store.head, store.size + 1))
    {
      store := Store(Linked(store.entries, tail, node.path),
                     if store.head.Null? then To(|store.entries|) else store.head, store.size + 1);
      nodes := nodes + [node];
      if last == null {
        head := node;
      } else {
        last.next := node;
      }
      size := size + 1;
    }

    // add_to_blacklist: append at the tail unless the path is listed.
    method Add(path: string) returns (ret: int)
      requires Valid()
      modifies this, nodes
      ensures Valid() && old(nodes) <= nodes
      ensures forall i :: |old(nodes)| <= i < |nodes| ==> fresh(nodes[i])
      ensures store == old(BlacklistStore.Add(store, path))
      ensures ret == if old(Listed(store, path)) then -EEXIST else 0
    {
      var last, found := FindLast(path);
      if found {
        return -EEXIST;
      }
      AddRefines(store, path);
      AddWrites(store, path);
      var node := new Node(path);
      LinkIn(node, last, Tail(store));
      return 0;
    }

    // The loop of remove_from_blacklist, entered only when the head is another path.
    method FindWithPrevious(path: string) returns (prev: Node, curr: Node?, ghost k: nat)
      requires Walkable() && head != null && head.path != path
      ensures forall i :: 0 <= i < |Live(store)| ==> Live(store)[i] < |store.entries|
      ensures |nodes| == |store.entries|
      ensures k == Find(store.entries, Live(store), path) && 0 < k <= |Live(store)|
      ensures prev == nodes[Live(store)[k - 1]]
      ensures curr == if k < |Live(store)| then nodes[Live(store)[k]] else null
    {
      ChainAscends(store.entries, store.head);
      ghost var live := Live(store);
      ChainThreads(store.head, 0);
      prev, curr := head, head.next;
      k := 1;
      while curr != null && curr.path != path
        invariant 0 < k <= |live| && prev == nodes[live[k - 1]]
        invariant curr == if k < |live| then nodes[live[k]] else null
        invariant forall i :: 0 <= i < k ==> store.entries[live[i]].path != path
        decreases |live| - k
      {
        ChainThreads(store.head, k);
        prev := curr;
        curr := curr.next;
        k := k + 1;
      }
      FindIs(store.entries, live, path, k);
    }

    // The pointer writes of remove_from_blacklist; the unlinked node keeps its own pointer.
    method DropHead(ghost i: nat)
      requires Mirrors() && store.head == To(i)
      modifies this`head, this`size, this`store
      ensures Mirrors()
      ensures store == old(store.(head := store.entries[i].next, size := store.size - 1))
    {
      store := store.(head := store.entries[i].next, size := store.size - 1);
      head := head.next;
      size := size - 1;
    }

    method Bypass(prev: Node, curr: Node, ghost i: nat, ghost j: nat)
      requires Mirrors() && i < |nodes| && j < |nodes| && prev == nodes[i] && curr == nodes[j]
      modifies this`store, prev
      ensures Mirrors()
      ensures store == old(store.(entries := Bypassed(store.entries, i, j)))
    {
      prev.next := curr.next;
      store := store.(entries := Bypassed(store.entries, i, j));
    }

    // The branch of remove_from_blacklist for a path that is not at the head.
    method RemoveInterior(path: string) returns (found: bool)
      requires Walkable() && head != null && head.path != path
      modifies this`store, nodes
      ensures Mirrors() && nodes == old(nodes)
      ensures old(forall i :: 0 <= i < |Live(store)| ==> Live(store)[i] < |store.entries|)
      ensures found == old(Find(store.entries, Live(store), path) < |Live(store)|)
      ensures store == old(var live := Live(store); var k := Find(store.entries, live, path);
                           if 0 < k < |live| then store.(entries := Bypassed(store.entries, live[k - 1], live[k]))
                           else store)
    {
      var prev, curr, k := FindWithPrevious(path);
      if curr == null {
        return false;
      }
      Bypass(prev, curr, Live(store)[k - 1], Live(store)[k]);
      return true;
    }

    // remove_from_blacklist.
    method Remove(path: string) returns (ret: int)
      requires Valid()
      modifies this, nodes
      ensures Valid() && nodes == old(nodes)
      ensures store == old(BlacklistStore.Remove(store, path))
      ensures ret == if old(Listed(store, path)) then 0 else -EINVAL
    {
      RemoveRefines(store, path);
      RemoveWrites(store, path);
      if head == null {
        return -EINVAL;
      }
      if head.path == path {
        DropHead(store.head.id);
        return 0;
      }
      var found := RemoveInterior(path);
      return if found then 0 else -EINVAL;
    }

    // The locked walk of is_blacklisted, from whatever node was read as head before the lock was taken.
    method Walk(start: Node?, ghost from: Link, path: string) returns (found: bool)
      requires Walkable() && InRange(store.entries, from) && start == Target(from)
      ensures found == WalkFinds(store.entries, from, path)
    {
      ChainAscends(store.entries, from);
      ghost var chain := Chain(store.entries, from);
      ghost var k := 0;
      var curr := start;
      while curr != null
        invariant k <= |chain| && curr == if k < |chain| then nodes[chain[k]] else null
        invariant forall i :: 0 <= i < k ==> !Protects(store.entries[chain[i]].path, path)
        decreases |chain| - k
      {
        ChainThreads(from, k);
        if Protects(curr.path, path) {
          assert Protects(Paths(store.entries, chain)[k], path);
          return true;
        }
        curr := curr.next;
        k := k + 1;
      }
      return false;
    }
  }

  // One critical section of another thread.
  method Perform(list: List, state: int, e: Event) returns (next: int)
    requires list.Valid()
    modifies list, list.nodes
    ensures list.Valid() && old(list.nodes) <= list.nodes
    ensures forall i :: |old(list.nodes)| <= i < |list.nodes| ==> fresh(list.nodes[i])
    ensures World(list.store, next) == old(Next(World(list.store, state), e))
  {
    next := state;
    match e {
      case ListOp(AddOp(path)) => var _ := list.Add(path);
      case ListOp(RemoveOp(path)) => var _ := list.Remove(path);
      case SwitchTo(code) => next := code;
    }
  }

  method PerformEach(list: List, state: int, es: seq<Event>) returns (next: int)
    requires list.Valid()
    modifies list, list.nodes
    ensures list.Valid() && old(list.nodes) <= list.nodes
    ensures forall i :: |old(list.nodes)| <= i < |list.nodes| ==> fresh(list.nodes[i])
    ensures World(list.store, next) == old(After(World(list.store, state), es))
    decreases |es|
  {
    if es == [] {
      return state;
    }
    next := PerformEach(list, state, es[..|es| - 1]);
    assert forall i :: 0 <= i < |old(list.nodes)| ==> list.nodes[i] == old(list.nodes)[i];
    next := Perform(list, next, es[|es| - 1]);
  }

  // The critical sections of other threads from the i-th to the j-th.
  method PerformAll(list: List, state: int, ghost w: World, es: seq<Event>, i: nat, j: nat) returns (next: int)
    requires list.Valid() && WellLinked(w.store) && i <= j <= |es| && World(list.store, state) == At(w, es, i)
    modifies list, list.nodes
    ensures list.Valid() && old(list.nodes) <= list.nodes
    ensures forall k :: |old(list.nodes)| <= k < |list.nodes| ==> fresh(list.nodes[k])
    ensures World(list.store, next) == At(w, es, j)
  {
    AfterConcat(w, es[..i], es[i..j]);
    assert es[..i] + es[i..j] == es[..j];
    next := PerformEach(list, state, es[i..j]);
  }

  // The second half of is_blacklisted: the node read as head is held across other threads' critical sections and
  // walked from under the lock.
  method HeadToLock(list: List, state: int, ghost w: World, es: seq<Event>, i: nat, j: nat, path: string)
    returns (found: bool)
    requires list.Valid() && WellLinked(w.store) && i <= j <= |es| && World(list.store, state) == At(w, es, i)
    modifies list, list.nodes
    ensures list.Valid()
    ensures InRange(At(w, es, j).store.entries, At(w, es, i).store.head)
    ensures found == WalkFinds(At(w, es, j).store.entries, At(w, es, i).store.head, path)
  {
    var curr := list.head;
    ghost var from := list.store.head;
    ghost var nodes := list.nodes;
    LinkSurvives(w, es, i, j, from);
    var _ := PerformAll(list, state, w, es, i, j);
    assert from.To? ==> list.nodes[from.id] == nodes[from.id];
    found := list.Walk(curr, from, path);
  }

  // is_blacklisted on the real pointers, with other threads' critical sections between its steps.
  method InterleavedLookup(list: List, state: int, es: seq<Event>, t: Times, path: string) returns (found: bool)
    requires list.Valid() && InOrder(t, |es|)
    modifies list, list.nodes
    ensures list.Valid()
    ensures found == old(Answer(World(list.store, state), es, t, path))
  {
    ghost var w := World(list.store, state);
    var code := PerformAll(list, state, w, es, 0, t.size);
    if list.size == 0 {
      return false;
    }
    code := PerformAll(list, code, w, es, t.size, t.state);
    if code == RF_OFF {
      return false;
    }
    code := PerformAll(list, code, w, es, t.state, t.again);
    if code == RF_REC_OFF {
      return false;
    }
    code := PerformAll(list, code, w, es, t.again, t.head);
    found := HeadToLock(list, code, w, es, t.head, t.lock, path);
  }
}
