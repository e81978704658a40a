/**
 The 256-entry system call table: how free entries are acquired, how they are published by the discoverer, and
 how the monitor's calls are installed and taken out again.
 */
module SyscallTable {
  import opened Errno

  type Word = x: int | 0 <= x < 0x1_0000_0000_0000_0000

  const ENTRIES := 256
  const MAX_ACQUIRES := 10
  const MAX_FREE := 15
  const HACKED := 6

  // ---------------------------------------------------------------- occurrences

  // The indices below n that hold v, in ascending order.
  function Occurrences(t: seq<Word>, v: Word, n: nat): (r: seq<nat>)
    requires n <= |t|
    ensures |r| <= n
  {
    if n == 0 then [] else Occurrences(t, v, n - 1) + if t[n - 1] == v then [n - 1] else []
  }

  lemma {:induction false} OccurrencesAre(t: seq<Word>, v: Word, n: nat)
    requires n <= |t|
    ensures forall i :: 0 <= i < |Occurrences(t, v, n)| ==> Occurrences(t, v, n)[i] < n
    ensures forall i :: 0 <= i < |Occurrences(t, v, n)| ==> t[Occurrences(t, v, n)[i]] == v
    ensures forall k :: 0 <= k < n && t[k] == v ==> k in Occurrences(t, v, n)
    ensures forall i, j :: 0 <= i < j < |Occurrences(t, v, n)| ==> Occurrences(t, v, n)[i] < Occurrences(t, v, n)[j]
  {
    if n == 0 {
    } else {
      OccurrencesAre(t, v, n - 1);
    }
  }

  lemma {:induction false} OccurrencesPrefix(t: seq<Word>, v: Word, m: nat, n: nat)
    requires m <= n <= |t|
    ensures Occurrences(t, v, m) <= Occurrences(t, v, n)
    decreases n - m
  {
    if m == n {
    } else {
      OccurrencesPrefix(t, v, m, n - 1);
    }
  }

  lemma {:induction false} NoOccurrence(t: seq<Word>, v: Word, m: nat, n: nat)
    requires m <= n <= |t| && forall k :: m <= k < n ==> t[k] != v
    ensures Occurrences(t, v, n) == Occurrences(t, v, m)
    decreases n - m
  {
    if m == n {
    } else {
      NoOccurrence(t, v, m, n - 1);
    }
  }

  // ---------------------------------------------------------------- the first repeated value

  ghost predicate Repeats(t: seq<Word>, i: nat) {
    i < |t| && exists z :: i < z < |t| && t[z] == t[i]
  }

  ghost predicate FirstRepeated(t: seq<Word>, i: nat) {
    Repeats(t, i) && forall k :: 0 <= k < i ==> !Repeats(t, k)
  }

  // The search that get_entries makes can be answered, and what it must then deliver.
  ghost predicate Acquired(t: seq<Word>, num: int, ids: seq<nat>, addr: Word) {
    && 1 <= num <= MAX_ACQUIRES
    && exists i: nat :: FirstRepeated(t, i) && addr == t[i]
                   && num <= |Occurrences(t, addr, |t|)| && ids == Occurrences(t, addr, |t|)[..num]
  }

  ghost predicate Acquirable(t: seq<Word>, num: int) {
    && 1 <= num <= MAX_ACQUIRES
    && exists i: nat :: FirstRepeated(t, i) && num <= |Occurrences(t, t[i], |t|)|
  }

  lemma AcquiredUnique(t: seq<Word>, num: int, ids: seq<nat>, addr: Word, ids': seq<nat>, addr': Word)
    requires Acquired(t, num, ids, addr) && Acquired(t, num, ids', addr')
    ensures ids == ids' && addr == addr'
  {
  }

  lemma NotBefore(t: seq<Word>, i: nat, z: nat)
    requires i < z < |t| && t[i] == t[z] && forall k :: 0 <= k < i ==> !Repeats(t, k)
    ensures forall k :: 0 <= k < i ==> t[k] != t[i]
  {
    forall k | 0 <= k < i ensures t[k] != t[i] {
      assert !Repeats(t, k);
    }
  }

  lemma OccurrenceStep(t: seq<Word>, v: Word, n: nat)
    requires n < |t|
    ensures Occurrences(t, v, n + 1) == Occurrences(t, v, n) + if t[n] == v then [n] else []
  {
  }

  lemma FirstTwo(t: seq<Word>, i: nat, z: nat)
    requires i < z < |t| && t[i] == t[z]
    requires forall k :: 0 <= k < z && k != i ==> t[k] != t[i]
    ensures Occurrences(t, t[i], z + 1) == [i, z]
  {
    var v := t[i];
    NoOccurrence(t, v, 0, i);
    OccurrenceStep(t, v, i);
    NoOccurrence(t, v, i + 1, z);
    OccurrenceStep(t, v, z);
  }

  // ---------------------------------------------------------------- get_entries

  // The innermost loop: the entries after the second one, while more are wanted.
  method Collect(table: array<Word>, i: nat, z: nat, num: int, restore: array<nat>) returns (count: nat)
    requires i < z < table.Length && 1 <= num <= restore.Length
    requires Occurrences(table[..], table[i], z + 1) == [i, z]
    modifies restore
    ensures count <= num && count <= |Occurrences(table[..], table[i], table.Length)|
    ensures restore[..count] == Occurrences(table[..], table[i], table.Length)[..count]
    ensures count == num <==> num <= |Occurrences(table[..], table[i], table.Length)|
  {
    ghost var t, v := table[..], table[i];
    restore[0] := i;
    count := 1;
    if count < num {
      restore[1] := z;
      count := 2;
    }
    var k := z + 1;
    while k < table.Length && count < num
      invariant z < k <= table.Length && count <= num
      invariant count == if |Occurrences(t, v, k)| < num then |Occurrences(t, v, k)| else num
      invariant restore[..count] == Occurrences(t, v, k)[..count]
      invariant table[..] == t
    {
      if table[k] == table[i] {
        ghost var found := restore[..count];
        restore[count] := k;
        count := count + 1;
        assert restore[..count] == found + [k];
      }
      k := k + 1;
    }
    OccurrencesPrefix(t, v, k, table.Length);
  }

  // get_entries: nothing is written through the two pointers unless all the entries were found.
  method GetEntries(entryIds: array<nat>, num: int, table: array<Word>, ni: Word) returns (ret: int, addr: Word)
    requires table.Length == ENTRIES && num <= entryIds.Length
    modifies entryIds
    ensures Acquirable(table[..], num) ==>
              && ret == num && Acquired(table[..], num, entryIds[..num], addr)
              && entryIds[num..] == old(entryIds[num..])
    ensures !Acquirable(table[..], num) ==> ret == -1 && addr == ni && entryIds[..] == old(entryIds[..])
  {
    if num < 1 || num > MAX_ACQUIRES {
      return -1, ni;
    }
    var i := 0;
    while i < ENTRIES
      invariant i <= ENTRIES && forall k :: 0 <= k < i ==> !Repeats(table[..], k)
    {
      var z := i + 1;
      while z < ENTRIES
        invariant i < z <= ENTRIES && forall k :: i < k < z ==> table[k] != table[i]
      {
        if table[i] == table[z] {
          ghost var t := table[..];
          NotBefore(t, i, z);
          FirstTwo(t, i, z);
          assert t[z] == t[i] && FirstRepeated(t, i);
          var restore := new nat[MAX_ACQUIRES](_ => 0);
          var count := Collect(table, i, z, num, restore);
          if count == num {
            forall k | 0 <= k < count {
              entryIds[k] := restore[k];
            }
            assert table[..] == t && entryIds[..num] == restore[..num];
            assert FirstRepeated(t, i) && num <= |Occurrences(t, t[i], |t|)|;
            return num, table[i];
          }
          OnlyFirst(table[..], num, i);
          return -1, ni;
        }
        z := z + 1;
      }
      i := i + 1;
    }
    return -1, ni;
  }

  lemma OnlyFirst(t: seq<Word>, num: int, i: nat)
    requires FirstRepeated(t, i) && |Occurrences(t, t[i], |t|)| < num
    ensures !Acquirable(t, num)
  {
  }

  // ---------------------------------------------------------------- what the discoverer accepts and publishes

  const FIRST_NI := 134
  const LAST_NI := 236
  const KERNEL_BASE := 0xffffffff00000000

  // The tests validate_page makes on the words at and after a candidate address.
  ghost predicate TablePattern(t: seq<Word>)
    requires |t| > LAST_NI
  {
    var v := t[FIRST_NI];
    && v % 4 == 0 && v != 0 && v > KERNEL_BASE
    && t[174] == v && t[182] == v && t[183] == v && t[214] == v && t[215] == v && t[LAST_NI] == v
    && forall i :: 1 <= i < FIRST_NI ==> t[i] != v
  }

  // The loop of the discoverer's init_module.
  method PublishFree(table: array<Word>, ni: Word, free: array<nat>) returns (j: nat)
    requires table.Length == ENTRIES && free.Length == MAX_FREE
    modifies free
    ensures var all := Occurrences(table[..], ni, ENTRIES);
            && j == (if |all| < MAX_FREE then |all| else MAX_FREE)
            && free[..j] == all[..j] && free[j..] == old(free[j..])
  {
    ghost var t := table[..];
    j := 0;
    var i := 0;
    while i < ENTRIES && j < MAX_FREE
      invariant i <= ENTRIES && table[..] == t
      invariant j <= MAX_FREE && j == |Occurrences(t, ni, i)| && free[..j] == Occurrences(t, ni, i)
      invariant free[j..] == old(free[j..])
    {
      if table[i] == ni {
        free[j] := i;
        j := j + 1;
        assert free[..j] == Occurrences(t, ni, i) + [i];
        assert free[j..] == old(free[j..]);
      }
      i := i + 1;
    }
    OccurrencesPrefix(t, ni, i, ENTRIES);
  }

  lemma OneMore(t: seq<Word>, v: Word, m: nat, k: nat)
    requires m <= k < |t| && t[k] == v
    ensures |Occurrences(t, v, k + 1)| >= |Occurrences(t, v, m)| + 1
  {
    OccurrencesPrefix(t, v, m, k);
  }

  lemma SevenPlaceholders(t: seq<Word>)
    requires |t| == ENTRIES && TablePattern(t)
    ensures |Occurrences(t, t[FIRST_NI], ENTRIES)| >= 7
  {
    var v := t[FIRST_NI];
    OneMore(t, v, 0, 134);
    OneMore(t, v, 135, 174);
    OneMore(t, v, 175, 182);
    OneMore(t, v, 183, 183);
    OneMore(t, v, 184, 214);
    OneMore(t, v, 215, 215);
    OneMore(t, v, 216, 236);
    OccurrencesPrefix(t, v, 237, ENTRIES);
  }

  // The first placeholder slot: 134, unless slot 0 happens to hold the placeholder too.
  function FirstPlaceholder(t: seq<Word>): nat
    requires |t| > LAST_NI
  {
    if t[0] == t[FIRST_NI] then 0 else FIRST_NI
  }

  lemma FirstPlaceholderIs(t: seq<Word>)
    requires |t| == ENTRIES && TablePattern(t)
    ensures Repeats(t, FirstPlaceholder(t))
    ensures forall k :: 0 <= k < FirstPlaceholder(t) ==> t[k] != t[FIRST_NI]
    ensures Occurrences(t, t[FIRST_NI], ENTRIES) != []
            && Occurrences(t, t[FIRST_NI], ENTRIES)[0] == FirstPlaceholder(t)
  {
    var v, p := t[FIRST_NI], FirstPlaceholder(t);
    assert t[174] == t[p];
    NoOccurrence(t, v, 0, p);
    OccurrenceStep(t, v, p);
    OccurrencesPrefix(t, v, p + 1, ENTRIES);
  }

  // On a table the discoverer accepts, acquiring six entries finds the placeholder if and only if no value
  // is repeated from a slot before the first placeholder slot.
  lemma AcquiresPlaceholder(t: seq<Word>)
    requires |t| == ENTRIES && TablePattern(t)
    ensures |Occurrences(t, t[FIRST_NI], ENTRIES)| >= HACKED
    ensures (forall k :: 0 <= k < FirstPlaceholder(t) ==> !Repeats(t, k)) <==>
            Acquired(t, HACKED, Occurrences(t, t[FIRST_NI], ENTRIES)[..HACKED], t[FIRST_NI])
  {
    var v, p := t[FIRST_NI], FirstPlaceholder(t);
    SevenPlaceholders(t);
    FirstPlaceholderIs(t);
    if forall k :: 0 <= k < p ==> !Repeats(t, k) {
      assert FirstRepeated(t, p);
    }
    if Acquired(t, HACKED, Occurrences(t, v, ENTRIES)[..HACKED], v) {
      var i: nat :| FirstRepeated(t, i) && v == t[i];
      assert p <= i;
    }
  }

  // An accepted table from which another value is acquired: slots 1 to 6 share an address of their own.
  function Clashing(): (t: seq<Word>)
    ensures |t| == ENTRIES
    ensures forall i :: 0 <= i < ENTRIES ==>
              t[i] == if i in {134, 174, 182, 183, 214, 215, 236} then KERNEL_BASE + 4096
                      else if 1 <= i <= 6 then 4 else 1000 + i
  {
    seq(ENTRIES, i requires 0 <= i < ENTRIES =>
      if i in {134, 174, 182, 183, 214, 215, 236} then KERNEL_BASE + 4096 else if 1 <= i <= 6 then 4 else 1000 + i)
  }

  lemma OtherValueAcquired() returns (t: seq<Word>, ids: seq<nat>)
    ensures |t| == ENTRIES && TablePattern(t)
    ensures Acquired(t, HACKED, ids, 4) && t[FIRST_NI] != 4
  {
    t := Clashing();
    OneMore(t, 4, 0, 1);
    OneMore(t, 4, 2, 2);
    OneMore(t, 4, 3, 3);
    OneMore(t, 4, 4, 4);
    OneMore(t, 4, 5, 5);
    OneMore(t, 4, 6, 6);
    OccurrencesPrefix(t, 4, 7, ENTRIES);
    assert t[2] == t[1] && !Repeats(t, 0) && FirstRepeated(t, 1);
    ids := Occurrences(t, 4, ENTRIES)[..HACKED];
  }

  // The two modules agree: when the placeholder is the only repeated value, the six acquired entries are the
  // first six published ones, and they start at 134 unless slot 0 is a placeholder.
  lemma ModulesAgree(t: seq<Word>, ids: seq<nat>, addr: Word)
    requires |t| == ENTRIES && TablePattern(t)
    requires forall i, j :: 0 <= i < j < |t| && t[i] == t[j] ==> t[i] == t[FIRST_NI]
    ensures |Occurrences(t, t[FIRST_NI], ENTRIES)| >= HACKED
    ensures Acquirable(t, HACKED)
    ensures Acquired(t, HACKED, ids, addr) ==>
              && addr == t[FIRST_NI]
              && ids == Occurrences(t, t[FIRST_NI], ENTRIES)[..HACKED]
              && |ids| == HACKED && ids[0] == FirstPlaceholder(t)
  {
    var v, p := t[FIRST_NI], FirstPlaceholder(t);
    SevenPlaceholders(t);
    FirstPlaceholderIs(t);
    AcquiresPlaceholder(t);
    forall k | 0 <= k < p ensures !Repeats(t, k) {
    }
    var all := Occurrences(t, v, ENTRIES)[..HACKED];
    assert Acquired(t, HACKED, all, v);
    var i: nat :| FirstRepeated(t, i) && v == t[i];
    if Acquired(t, HACKED, ids, addr) {
      AcquiredUnique(t, HACKED, ids, addr, all, v);
    }
  }

  // ---------------------------------------------------------------- install and restore

  ghost predicate Slots(t: seq<Word>, ids: seq<nat>) {
    && (forall i :: 0 <= i < |ids| ==> ids[i] < |t|)
    && (forall i, j :: 0 <= i < j < |ids| ==> ids[i] != ids[j])
  }

  // `u` is `t` with the given slots holding the given values and every other slot as it was.
  ghost predicate Patched(t: seq<Word>, u: seq<Word>, ids: seq<nat>, values: seq<Word>)
    requires |ids| == |values|
  {
    && |u| == |t|
    && (forall i :: 0 <= i < |ids| ==> ids[i] < |u| && u[ids[i]] == values[i])
    && (forall k :: 0 <= k < |t| && k !in ids ==> u[k] == t[k])
  }

  lemma AcquiredSlots(t: seq<Word>, num: int, ids: seq<nat>, addr: Word)
    requires Acquired(t, num, ids, addr)
    ensures |ids| == num && Slots(t, ids) && forall i :: 0 <= i < num ==> t[ids[i]] == addr
  {
    OccurrencesAre(t, addr, |t|);
  }

  function Copies(v: Word): (r: seq<Word>)
    ensures |r| == HACKED && forall i :: 0 <= i < HACKED ==> r[i] == v
  {
    seq(HACKED, _ => v)
  }

  method Overwrite(table: array<Word>, restore: array<nat>, values: seq<Word>)
    requires |values| == restore.Length && Slots(table[..], restore[..])
    modifies table
    ensures Patched(old(table[..]), table[..], restore[..], values) && restore[..] == old(restore[..])
  {
    var i := 0;
    while i < restore.Length
      invariant i <= restore.Length && restore[..] == old(restore[..])
      invariant forall j :: 0 <= j < i ==> table[restore[j]] == values[j]
      invariant forall k :: 0 <= k < table.Length && k !in restore[..] ==> table[k] == old(table[k])
    {
      assert restore[i] == restore[..][i];
      table[restore[i]] := values[i];
      i := i + 1;
    }
  }

  class Installation {
    const table: array<Word>
    const restore: array<nat>
    var ni: Word

    constructor (table: array<Word>, restore: array<nat>)
      requires table.Length == ENTRIES && restore.Length == HACKED
      ensures this.table == table && this.restore == restore
    {
      this.table, this.restore, ni := table, restore, 0;
    }

    // initialize_syscalls.
    method Install(calls: seq<Word>) returns (ret: int)
      requires table.Length == ENTRIES && restore.Length == HACKED && |calls| == HACKED
      modifies this, table, restore
      ensures ret == if old(Acquirable(table[..], HACKED)) then 0 else -ERANGE
      ensures ret == 0 ==> Acquired(old(table[..]), HACKED, restore[..], ni)
                           && Patched(old(table[..]), table[..], restore[..], calls)
      ensures ret != 0 ==> table[..] == old(table[..])
    {
      var count;
      count, ni := GetEntries(restore, HACKED, table, ni);
      assert table[..] == old(table[..]);
      if count != HACKED {
        return -ERANGE;
      }
      assert restore[..HACKED] == restore[..];
      AcquiredSlots(table[..], HACKED, restore[..], ni);
      Overwrite(table, restore, calls);
      return 0;
    }

    // cleanup_module.
    method Restore()
      requires restore.Length == HACKED && Slots(table[..], restore[..])
      modifies table
      ensures Patched(old(table[..]), table[..], restore[..], Copies(ni))
    {
      Overwrite(table, restore, Copies(ni));
    }

    // Loading and unloading the module leaves the table as it was.
    method LoadAndUnload(calls: seq<Word>) returns (ret: int)
      requires table.Length == ENTRIES && restore.Length == HACKED && |calls| == HACKED
      modifies this, table, restore
      ensures ret == if old(Acquirable(table[..], HACKED)) then 0 else -ERANGE
      ensures table[..] == old(table[..])
    {
      ret := Install(calls);
      if ret == 0 {
        ghost var loaded := table[..];
        AcquiredSlots(old(table[..]), HACKED, restore[..], ni);
        Restore();
        RestoreIsIdentity(old(table[..]), loaded, table[..], restore[..], calls, ni);
      }
    }
  }

  lemma RestoreIsIdentity(t: seq<Word>, loaded: seq<Word>, u: seq<Word>, ids: seq<nat>, calls: seq<Word>, ni: Word)
    requires Acquired(t, HACKED, ids, ni) && |calls| == |ids| == HACKED
    requires Patched(t, loaded, ids, calls)
    requires Patched(loaded, u, ids, Copies(ni))
    ensures u == t
  {
    AcquiredSlots(t, HACKED, ids, ni);
    forall k | 0 <= k < |t| ensures u[k] == t[k] {
      if k in ids {
        var i :| 0 <= i < |ids| && ids[i] == k;
      }
    }
  }
}
