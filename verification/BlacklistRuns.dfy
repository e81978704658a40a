/**
 Runs of add_to_blacklist and remove_from_blacklist, one critical section after the other.  The pointer
 updates are shown to compute the insertion-ordered, duplicate-free list a user expects, and the drift of the
 size counter is stated exactly.
 */
module BlacklistRuns {
  import opened BlacklistStore

  datatype Op = AddOp(path: string) | RemoveOp(path: string)

  ghost function Apply(st: Store, op: Op): Store
    requires WellLinked(st)
  {
    match op
    case AddOp(p) => Add(st, p)
    case RemoveOp(p) => Remove(st, p)
  }

  // ---------------------------------------------------------------- one operation

  lemma {:induction false} DropOne(c: seq<nat>, k: nat)
    requires k < |c| && forall i, j :: 0 <= i < j < |c| ==> c[i] < c[j]
    ensures Without(c, c[k]) == c[..k] + c[k + 1..]
  {
    if k == 0 {
      WithoutAbsent(c[1..], c[0]);
    } else {
      DropOne(c[1..], k - 1);
      assert c[1..][..k - 1] == c[1..k] && c[1..][k..] == c[k + 1..];
      assert c[..k] == [c[0]] + c[1..k];
    }
  }

  // Adding a new path appends a fresh node to the list, and to every chain that ended in the list's tail.
  lemma AddChains(st: Store, path: string, l: Link)
    requires WellLinked(st) && !Listed(st, path) && InRange(st.entries, l)
    ensures WellLinked(Add(st, path)) && InRange(Add(st, path).entries, l)
    ensures Live(Add(st, path)) == Live(st) + [|st.entries|]
    ensures Chain(Add(st, path).entries, l)
         == Chain(st.entries, l) + if Tail(st).To? && Tail(st).id in Chain(st.entries, l) then [|st.entries|] else []
  {
    ChainLinked(st.entries, Tail(st), path, l);
    ChainLinked(st.entries, Tail(st), path, st.head);
    var es' := Linked(st.entries, Tail(st), path);
    if Live(st) == [] {
      assert Chain(es', To(|st.entries|)) == [|st.entries|] + Chain(es', Null);
    }
  }

  lemma HeadPointer(st: Store)
    requires WellLinked(st) && Live(st) != []
    ensures Live(st)[0] < |st.entries| && InRange(st.entries, st.entries[Live(st)[0]].next)
    ensures Chain(st.entries, st.entries[Live(st)[0]].next) == Live(st)[1..]
  {
  }

  lemma InteriorPointer(st: Store, k: nat)
    requires WellLinked(st) && 0 < k < |Live(st)|
    ensures Live(st)[k - 1] < |st.entries| && Live(st)[k] < |st.entries|
    ensures Forward(Bypassed(st.entries, Live(st)[k - 1], Live(st)[k]))
    ensures Chain(Bypassed(st.entries, Live(st)[k - 1], Live(st)[k]), st.head) == Without(Live(st), Live(st)[k])
  {
    var c := Live(st);
    ChainAscends(st.entries, st.head);
    ChainFrom(st.entries, st.head, k - 1);
    ChainBypassed(st.entries, c[k - 1], c[k], st.head);
    assert c[k - 1] in c;
  }

  lemma RemoveLive(st: Store, path: string)
    requires WellLinked(st) && Listed(st, path)
    ensures forall i :: 0 <= i < |Live(st)| ==> Live(st)[i] < |st.entries|
    ensures WellLinked(Remove(st, path))
    ensures var c, k := Live(st), Find(st.entries, Live(st), path);
            && Live(Remove(st, path)) == Without(c, c[k])
            && Live(Remove(st, path)) == c[..k] + c[k + 1..]
  {
    ChainAscends(st.entries, st.head);
    var c := Live(st);
    var k := Find(st.entries, c, path);
    DropOne(c, k);
    if k == 0 {
      HeadPointer(st);
      assert c[..0] + c[1..] == c[1..];
    } else {
      InteriorPointer(st, k);
    }
  }

  // Removing a path drops its node from the list, and from every chain through its predecessor in the list.
  lemma RemoveChains(st: Store, path: string, l: Link)
    requires WellLinked(st) && Listed(st, path) && InRange(st.entries, l)
    ensures forall i :: 0 <= i < |Live(st)| ==> Live(st)[i] < |st.entries|
    ensures WellLinked(Remove(st, path)) && InRange(Remove(st, path).entries, l)
    ensures var c, k := Live(st), Find(st.entries, Live(st), path);
            && Live(Remove(st, path)) == Without(c, c[k])
            && Live(Remove(st, path)) == c[..k] + c[k + 1..]
            && Chain(Remove(st, path).entries, l)
               == if k > 0 && c[k - 1] in Chain(st.entries, l) then Without(Chain(st.entries, l), c[k])
                  else Chain(st.entries, l)
  {
    RemoveLive(st, path);
    var c := Live(st);
    var k := Find(st.entries, c, path);
    if k > 0 {
      ChainFrom(st.entries, st.head, k - 1);
      ChainBypassed(st.entries, c[k - 1], c[k], l);
    }
  }

  // A walk's edges never leave the range of nodes, whatever operation runs.
  lemma ApplyWellLinked(st: Store, op: Op, l: Link)
    requires WellLinked(st) && InRange(st.entries, l)
    ensures WellLinked(Apply(st, op)) && InRange(Apply(st, op).entries, l)
    ensures |st.entries| <= |Apply(st, op).entries|
    ensures forall i :: 0 <= i < |st.entries| ==> Apply(st, op).entries[i].path == st.entries[i].path
  {
    if op.AddOp? && !Listed(st, op.path) {
      AddChains(st, op.path, l);
    }
    if op.RemoveOp? && Listed(st, op.path) {
      RemoveChains(st, op.path, l);
    }
  }

  // ---------------------------------------------------------------- the list of paths

  lemma ListedIffInContents(st: Store, path: string)
    requires WellLinked(st)
    ensures Listed(st, path) <==> path in Contents(st)
  {
  }

  // The list a user expects.
  function Without1(l: seq<string>, path: string): (r: seq<string>)
  {
    if l == [] then [] else if l[0] == path then l[1..] else [l[0]] + Without1(l[1..], path)
  }

  function ListApply(l: seq<string>, op: Op): (r: seq<string>)
  {
    match op
    case AddOp(p) => if p in l then l else l + [p]
    case RemoveOp(p) => Without1(l, p)
  }

  // The operations that unlink a node without counting down.
  predicate InteriorRemoval(l: seq<string>, op: Op) {
    op.RemoveOp? && op.path in l && l[0] != op.path
  }

  lemma {:induction false} Without1At(l: seq<string>, path: string, k: nat)
    requires k <= |l| && path !in l[..k] && (k < |l| ==> l[k] == path)
    ensures Without1(l, path) == if k < |l| then l[..k] + l[k + 1..] else l
  {
    if l == [] || k == 0 {
    } else {
      assert l[0] == l[..k][0];
      assert l[1..][..k - 1] == l[..k][1..];
      Without1At(l[1..], path, k - 1);
      if k < |l| {
        assert l[1..][..k - 1] == l[1..k] && l[1..][k..] == l[k + 1..];
        assert l[..k] == [l[0]] + l[1..k];
      }
    }
  }

  lemma PathsKept(es: seq<Entry>, es': seq<Entry>, c: seq<nat>)
    requires |es| <= |es'| && forall i :: 0 <= i < |es| ==> es'[i].path == es[i].path
    requires forall i :: 0 <= i < |c| ==> c[i] < |es|
    ensures Paths(es', c) == Paths(es, c)
  {
  }

  lemma PathsConcat(es: seq<Entry>, c: seq<nat>, d: seq<nat>)
    requires forall i :: 0 <= i < |c| ==> c[i] < |es|
    requires forall i :: 0 <= i < |d| ==> d[i] < |es|
    ensures Paths(es, c + d) == Paths(es, c) + Paths(es, d)
  {
  }

  lemma AddContents(st: Store, path: string)
    requires WellLinked(st) && !Listed(st, path)
    ensures WellLinked(Add(st, path))
    ensures Contents(Add(st, path)) == Contents(st) + [path]
  {
    var es' := Add(st, path).entries;
    AddChains(st, path, st.head);
    ApplyWellLinked(st, AddOp(path), Null);
    ChainAscends(st.entries, st.head);
    PathsConcat(es', Live(st), [|st.entries|]);
    PathsKept(st.entries, es', Live(st));
    assert Paths(es', [|st.entries|]) == [path];
  }

  lemma AddRefines(st: Store, path: string)
    requires Inv(st)
    ensures Inv(Add(st, path))
    ensures Contents(Add(st, path)) == ListApply(Contents(st), AddOp(path))
    ensures Add(st, path).size - st.size == |Contents(Add(st, path))| - |Contents(st)|
  {
    ListedIffInContents(st, path);
    if !Listed(st, path) {
      AddContents(st, path);
    }
  }

  lemma CutPaths(es: seq<Entry>, c: seq<nat>, k: nat)
    requires k < |c| && forall i :: 0 <= i < |c| ==> c[i] < |es|
    ensures Paths(es, c[..k] + c[k + 1..]) == Paths(es, c)[..k] + Paths(es, c)[k + 1..]
  {
  }

  lemma RemoveListedContents(st: Store, path: string)
    requires WellLinked(st) && Listed(st, path)
    ensures forall i :: 0 <= i < |Live(st)| ==> Live(st)[i] < |st.entries|
    ensures WellLinked(Remove(st, path))
    ensures var k := Find(st.entries, Live(st), path);
            k < |Contents(st)| && Contents(Remove(st, path)) == Contents(st)[..k] + Contents(st)[k + 1..]
  {
    ChainAscends(st.entries, st.head);
    var c, es' := Live(st), Remove(st, path).entries;
    RemoveLive(st, path);
    ApplyWellLinked(st, RemoveOp(path), Null);
    CutPaths(es', c, Find(st.entries, c, path));
    PathsKept(st.entries, es', c);
  }

  lemma RemoveContents(st: Store, path: string)
    requires WellLinked(st)
    ensures WellLinked(Remove(st, path))
    ensures Contents(Remove(st, path)) == Without1(Contents(st), path)
    ensures Listed(st, path) ==> |Contents(Remove(st, path))| == |Contents(st)| - 1
  {
    ChainAscends(st.entries, st.head);
    Without1At(Contents(st), path, Find(st.entries, Live(st), path));
    if Listed(st, path) {
      RemoveListedContents(st, path);
    }
  }

  lemma {:induction false} Without1Distinct(l: seq<string>, path: string)
    requires Distinct(l)
    ensures forall p :: p in Without1(l, path) <==> p in l && p != path
    ensures Distinct(Without1(l, path))
  {
    if l == [] {
    } else {
      assert forall i :: 0 <= i < |l[1..]| ==> l[1..][i] == l[i + 1];
      Without1Distinct(l[1..], path);
      if l[0] != path {
        var r := Without1(l[1..], path);
        assert l[0] !in l[1..];
        assert l[0] !in r;
      }
    }
  }

  lemma RemoveRefines(st: Store, path: string)
    requires Inv(st)
    ensures Inv(Remove(st, path))
    ensures Contents(Remove(st, path)) == ListApply(Contents(st), RemoveOp(path))
    ensures Remove(st, path).size - st.size
         == |Contents(Remove(st, path))| - |Contents(st)| + if InteriorRemoval(Contents(st), RemoveOp(path)) then 1 else 0
  {
    var l := Contents(st);
    RemoveContents(st, path);
    ListedIffInContents(st, path);
    Without1Distinct(l, path);
    ChainAscends(st.entries, st.head);
  }

  // ---------------------------------------------------------------- whole runs

  ghost function Run(st: Store, ops: seq<Op>): (r: Store)
    requires WellLinked(st)
    ensures WellLinked(r)
    decreases |ops|
  {
    if ops == [] then st
    else
      ApplyWellLinked(Run(st, ops[..|ops| - 1]), ops[|ops| - 1], Null);
      Apply(Run(st, ops[..|ops| - 1]), ops[|ops| - 1])
  }

  ghost function ListRun(ops: seq<Op>): seq<string>
    decreases |ops|
  {
    if ops == [] then [] else ListApply(ListRun(ops[..|ops| - 1]), ops[|ops| - 1])
  }

  ghost function InteriorRemovals(ops: seq<Op>): nat
    decreases |ops|
  {
    if ops == [] then 0
    else InteriorRemovals(ops[..|ops| - 1])
         + if InteriorRemoval(ListRun(ops[..|ops| - 1]), ops[|ops| - 1]) then 1 else 0
  }

  // After any run from module load the pointers spell the expected list, no path twice, and the counter is
  // ahead of the length by exactly the number of removals that were not at the head.
  lemma {:induction false} RunRefinesList(ops: seq<Op>)
    ensures Inv(Run(EMPTY, ops))
    ensures Contents(Run(EMPTY, ops)) == ListRun(ops)
    ensures Distinct(ListRun(ops))
    ensures Run(EMPTY, ops).size == |ListRun(ops)| + InteriorRemovals(ops)
    decreases |ops|
  {
    if ops == [] {
    } else {
      var before, op := Run(EMPTY, ops[..|ops| - 1]), ops[|ops| - 1];
      RunRefinesList(ops[..|ops| - 1]);
      if op.AddOp? {
        AddRefines(before, op.path);
      } else {
        RemoveRefines(before, op.path);
      }
    }
  }

  // The `size == 0` shortcut of the lookup is taken only when there is nothing to find.
  lemma SizeZeroMeansEmpty(ops: seq<Op>)
    ensures Run(EMPTY, ops).size == 0 ==> ListRun(ops) == []
    ensures Run(EMPTY, ops).size == 0 <==> ListRun(ops) == [] && InteriorRemovals(ops) == 0
  {
    RunRefinesList(ops);
  }

  lemma RunSnoc(ops: seq<Op>, op: Op)
    ensures ListRun(ops + [op]) == ListApply(ListRun(ops), op)
    ensures InteriorRemovals(ops + [op])
         == InteriorRemovals(ops) + if InteriorRemoval(ListRun(ops), op) then 1 else 0
  {
  }

  // The counter is not the length: two adds and a removal of the second leave one entry and a count of two.
  lemma SizeIsNotLength() returns (ops: seq<Op>)
    ensures |Contents(Run(EMPTY, ops))| < Run(EMPTY, ops).size
  {
    RunSnoc([], AddOp("/a"));
    RunSnoc([] + [AddOp("/a")], AddOp("/b"));
    var two := [] + [AddOp("/a")] + [AddOp("/b")];
    var list := ListRun(two);
    assert list == ["/a"] + ["/b"] && list[0][1] != list[1][1];
    RunSnoc(two, RemoveOp("/b"));
    ops := two + [RemoveOp("/b")];
    RunRefinesList(ops);
  }
}
