/**
 The blacklist as a graph of nodes, exactly as the kernel sees it: a head pointer, a size counter, and one
 record per node that was ever linked in.  A node is named by its insertion number, an unlinked node keeps its
 record and its `next` pointer, and the list itself is whatever can be reached from the head.
 */
module BlacklistStore {

  datatype Link = Null | To(id: nat)

  datatype Entry = Entry(path: string, next: Link)

  datatype Store = Store(entries: seq<Entry>, head: Link, size: int)

  // The state set up by init_module.
  const EMPTY := Store([], Null, 0)

  // ---------------------------------------------------------------- chains

  ghost predicate InRange(es: seq<Entry>, l: Link) {
    l.To? ==> l.id < |es|
  }

  // Every `next` pointer, also that of an unlinked node, leads to a node inserted later.
  ghost predicate Forward(es: seq<Entry>) {
    forall i :: 0 <= i < |es| && es[i].next.To? ==> i < es[i].next.id < |es|
  }

  // The nodes a walk from `l` visits, in order.
  ghost function Chain(es: seq<Entry>, l: Link): (c: seq<nat>)
    requires Forward(es) && InRange(es, l)
    decreases if l.To? then |es| - l.id else 0
  {
    if l.Null? then [] else [l.id] + Chain(es, es[l.id].next)
  }

  lemma {:induction false} ChainAscends(es: seq<Entry>, l: Link)
    requires Forward(es) && InRange(es, l)
    ensures forall i :: 0 <= i < |Chain(es, l)| ==> l.To? && l.id <= Chain(es, l)[i] < |es|
    ensures forall i, j :: 0 <= i < j < |Chain(es, l)| ==> Chain(es, l)[i] < Chain(es, l)[j]
    decreases if l.To? then |es| - l.id else 0
  {
    if l.To? {
      var next := es[l.id].next;
      var rest := Chain(es, next);
      ChainAscends(es, next);
      assert forall i :: 0 <= i < |rest| ==> l.id < rest[i] < |es|;
      assert Chain(es, l) == [l.id] + rest;
    } else {
      assert Chain(es, l) == [];
    }
  }

  // The rest of a chain is the chain of its k-th node, and its last node points nowhere.
  lemma {:induction false} ChainFrom(es: seq<Entry>, l: Link, k: nat)
    requires Forward(es) && InRange(es, l) && k < |Chain(es, l)|
    ensures Chain(es, l)[k] < |es|
    ensures Chain(es, To(Chain(es, l)[k])) == Chain(es, l)[k..]
    ensures es[Chain(es, l)[k]].next == if k + 1 < |Chain(es, l)| then To(Chain(es, l)[k + 1]) else Null
    decreases k
  {
    if k == 0 {
    } else {
      ChainFrom(es, es[l.id].next, k - 1);
    }
  }

  // ---------------------------------------------------------------- pointer updates

  ghost function Without(s: seq<nat>, x: nat): (r: seq<nat>)
    ensures forall y :: y in r <==> y in s && y != x
  {
    if s == [] then [] else (if s[0] == x then [] else [s[0]]) + Without(s[1..], x)
  }

  lemma {:induction false} WithoutAbsent(s: seq<nat>, x: nat)
    requires x !in s
    ensures Without(s, x) == s
  {
    if s == [] {
    } else {
      WithoutAbsent(s[1..], x);
    }
  }

  // A new node that only `tail` points to, or no node at all.
  ghost function Linked(es: seq<Entry>, tail: Link, path: string): seq<Entry>
    requires InRange(es, tail)
  {
    (if tail.To? then es[tail.id := es[tail.id].(next := To(|es|))] else es) + [Entry(path, Null)]
  }

  lemma LinkedForward(es: seq<Entry>, tail: Link, path: string)
    requires Forward(es) && InRange(es, tail)
    ensures Forward(Linked(es, tail, path))
  {
  }

  // The new node is the whole chain from itself, and all there is behind the tail.
  lemma ChainAtTail(es: seq<Entry>, tail: nat, path: string)
    requires Forward(es) && tail < |es| && es[tail].next.Null?
    ensures Forward(Linked(es, To(tail), path))
    ensures Chain(es, To(tail)) == [tail]
    ensures Chain(Linked(es, To(tail), path), To(tail)) == [tail] + [|es|]
  {
    LinkedForward(es, To(tail), path);
    var es' := Linked(es, To(tail), path);
    assert Chain(es', To(|es|)) == [|es|] + Chain(es', Null);
  }

  lemma InCons(x: nat, s: seq<nat>, y: nat)
    requires x != y
    ensures y in [x] + s <==> y in s
  {
  }

  // Appending extends exactly the chains that went through the tail.
  lemma {:induction false} ChainLinked(es: seq<Entry>, tail: Link, path: string, l: Link)
    requires Forward(es) && InRange(es, tail) && InRange(es, l)
    requires tail.To? ==> es[tail.id].next.Null?
    ensures Forward(Linked(es, tail, path))
    ensures Chain(Linked(es, tail, path), l)
         == Chain(es, l) + if tail.To? && tail.id in Chain(es, l) then [|es|] else []
    decreases if l.To? then |es| - l.id else 0
  {
    LinkedForward(es, tail, path);
    if l.Null? {
    } else if tail == l {
      ChainAtTail(es, l.id, path);
    } else {
      var rest, rest' := Chain(es, es[l.id].next), Chain(Linked(es, tail, path), es[l.id].next);
      ChainLinked(es, tail, path, es[l.id].next);
      assert Chain(es, l) == [l.id] + rest && Chain(Linked(es, tail, path), l) == [l.id] + rest';
      if tail.To? {
        InCons(l.id, rest, tail.id);
      }
    }
  }

  ghost function Bypassed(es: seq<Entry>, prev: nat, node: nat): seq<Entry>
    requires prev < |es| && node < |es|
  {
    es[prev := es[prev].(next := es[node].next)]
  }

  lemma {:induction false} ChainElsewhere(es: seq<Entry>, prev: nat, node: nat, l: Link)
    requires Forward(es) && prev < |es| && node < |es| && es[prev].next == To(node) && InRange(es, l)
    requires prev !in Chain(es, l)
    ensures Forward(Bypassed(es, prev, node))
    ensures Chain(Bypassed(es, prev, node), l) == Chain(es, l)
    decreases if l.To? then |es| - l.id else 0
  {
    if l.Null? {
    } else {
      assert Chain(es, l)[0] == l.id;
      forall x | x in Chain(es, es[l.id].next) ensures x in Chain(es, l) {
      }
      ChainElsewhere(es, prev, node, es[l.id].next);
    }
  }

  lemma {:induction false} WithoutCons(x: nat, s: seq<nat>, y: nat)
    ensures Without([x] + s, y) == (if x == y then [] else [x]) + Without(s, y)
  {
  }

  lemma {:induction false} WithoutSecond(x: nat, y: nat, s: seq<nat>)
    requires x != y && y !in s
    ensures Without([x] + ([y] + s), y) == [x] + s
  {
    var rest := [y] + s;
    WithoutCons(x, rest, y);
    assert Without(rest, y) == s by {
      WithoutCons(y, s, y);
      WithoutAbsent(s, y);
    }
  }

  lemma {:induction false} ChainAtPredecessor(es: seq<Entry>, prev: nat, node: nat)
    requires Forward(es) && prev < |es| && node < |es| && es[prev].next == To(node)
    ensures Forward(Bypassed(es, prev, node))
    ensures Chain(Bypassed(es, prev, node), To(prev)) == Without(Chain(es, To(prev)), node)
  {
    var after := es[node].next;
    var rest := Chain(es, after);
    assert prev !in rest && node !in rest by { ChainAscends(es, after); }
    ChainElsewhere(es, prev, node, after);
    WithoutSecond(prev, node, rest);
    assert Chain(es, To(node)) == [node] + rest;
  }

  // Unlinking a node drops it from exactly the chains that went through its predecessor.
  lemma {:induction false} ChainBypassed(es: seq<Entry>, prev: nat, node: nat, l: Link)
    requires Forward(es) && prev < |es| && node < |es| && es[prev].next == To(node) && InRange(es, l)
    ensures Forward(Bypassed(es, prev, node))
    ensures Chain(Bypassed(es, prev, node), l)
         == if prev in Chain(es, l) then Without(Chain(es, l), node) else Chain(es, l)
    decreases if l.To? then |es| - l.id else 0
  {
    if prev !in Chain(es, l) {
      ChainElsewhere(es, prev, node, l);
    } else if l.id == prev {
      ChainAtPredecessor(es, prev, node);
    } else {
      var rest := Chain(es, es[l.id].next);
      assert prev in rest;
      assert l.id < prev by { ChainAscends(es, l); }
      ChainBypassed(es, prev, node, es[l.id].next);
      WithoutCons(l.id, rest, node);
    }
  }

  // ---------------------------------------------------------------- the list

  ghost predicate WellLinked(st: Store) {
    Forward(st.entries) && InRange(st.entries, st.head)
  }

  ghost function Live(st: Store): seq<nat>
    requires WellLinked(st)
  {
    Chain(st.entries, st.head)
  }

  // The position in a chain of the first node that holds `path`, or the chain's length.
  ghost function Find(es: seq<Entry>, c: seq<nat>, path: string): (k: nat)
    requires forall i :: 0 <= i < |c| ==> c[i] < |es|
    ensures k <= |c|
    ensures k < |c| ==> es[c[k]].path == path
    ensures forall i :: 0 <= i < k ==> es[c[i]].path != path
  {
    if c == [] || es[c[0]].path == path then 0 else 1 + Find(es, c[1..], path)
  }

  ghost function Paths(es: seq<Entry>, c: seq<nat>): (r: seq<string>)
    requires forall i :: 0 <= i < |c| ==> c[i] < |es|
    ensures |r| == |c| && forall i :: 0 <= i < |c| ==> r[i] == es[c[i]].path
  {
    if c == [] then [] else [es[c[0]].path] + Paths(es, c[1..])
  }

  ghost function Contents(st: Store): seq<string>
    requires WellLinked(st)
  {
    ChainAscends(st.entries, st.head);
    Paths(st.entries, Live(st))
  }

  ghost predicate Distinct(l: seq<string>) {
    forall i, j :: 0 <= i < j < |l| ==> l[i] != l[j]
  }

  // What the pointers keep through every add and remove: the edges go forward, no path is listed twice,
  // and the counter never falls below the length of the list.
  ghost predicate Inv(st: Store) {
    WellLinked(st) && Distinct(Contents(st)) && st.size >= |Contents(st)|
  }

  ghost predicate Listed(st: Store, path: string)
    requires WellLinked(st)
  {
    ChainAscends(st.entries, st.head);
    Find(st.entries, Live(st), path) < |Live(st)|
  }

  ghost function Tail(st: Store): (l: Link)
    requires WellLinked(st)
    ensures InRange(st.entries, l) && (l.To? ==> st.entries[l.id].next.Null?)
    ensures l.To? <==> Live(st) != []
    ensures l.To? ==> l.id == Live(st)[|Live(st)| - 1]
  {
    var c := Live(st);
    if c == [] then Null else ChainFrom(st.entries, st.head, |c| - 1); To(c[|c| - 1])
  }

  // add_to_blacklist's critical section.
  ghost function Add(st: Store, path: string): Store
    requires WellLinked(st)
  {
    if Listed(st, path) then st
    else Store(Linked(st.entries, Tail(st), path), if Live(st) == [] then To(|st.entries|) else st.head, st.size + 1)
  }

  // Adding, in terms of the pointers alone.
  lemma AddWrites(st: Store, path: string)
    requires WellLinked(st) && !Listed(st, path)
    ensures Tail(st).To? <==> st.head.To?
    ensures Add(st, path) == Store(Linked(st.entries, Tail(st), path),
                                   if st.head.Null? then To(|st.entries|) else st.head, st.size + 1)
  {
  }

  // remove_from_blacklist's critical section; only removal of the head counts down.
  ghost function Remove(st: Store, path: string): Store
    requires WellLinked(st)
  {
    ChainAscends(st.entries, st.head);
    var c := Live(st);
    var k := Find(st.entries, c, path);
    if k == |c| then st
    else if k == 0 then st.(head := st.entries[c[0]].next, size := st.size - 1)
    else st.(entries := Bypassed(st.entries, c[k - 1], c[k]))
  }

  // Removing, in terms of the pointers alone.
  lemma RemoveWrites(st: Store, path: string)
    requires WellLinked(st)
    ensures forall i :: 0 <= i < |Live(st)| ==> Live(st)[i] < |st.entries|
    ensures st.head.Null? ==> !Listed(st, path) && Remove(st, path) == st
    ensures st.head.To? && st.entries[st.head.id].path == path ==>
              Listed(st, path) && Remove(st, path) == st.(head := st.entries[st.head.id].next, size := st.size - 1)
    ensures var k := Find(st.entries, Live(st), path);
            st.head.To? && st.entries[st.head.id].path != path ==>
              && (Listed(st, path) <==> k < |Live(st)|)
              && Remove(st, path) == if k < |Live(st)| then st.(entries := Bypassed(st.entries, Live(st)[k - 1], Live(st)[k])) else st
  {
    ChainAscends(st.entries, st.head);
  }

  lemma FindIs(es: seq<Entry>, c: seq<nat>, path: string, k: nat)
    requires forall i :: 0 <= i < |c| ==> c[i] < |es|
    requires k <= |c| && (k < |c| ==> es[c[k]].path == path)
    requires forall i :: 0 <= i < k ==> es[c[i]].path != path
    ensures Find(es, c, path) == k
  {
  }
}
