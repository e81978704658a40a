/**
 The discoverer's search for the system call table: a scan of kernel memory, page by page and word by word, in
 which every word that is read has been shown to be mapped.
 */
module TableFinder {
  import opened SyscallTable
  import opened Paging

  const START := 0xffffffff00000000
  const MAX_ADDR := 0xfffffffffff00000
  const WORD := 8

  // Kernel memory by address of each word, and which pages are mapped.
  datatype Memory = Memory(mappedPage: nat -> bool, word: nat -> Word)

  predicate Mapped(m: Memory, a: nat) {
    m.mappedPage(a / PAGE)
  }

  // A load; it faults on an unmapped address.
  function Load(m: Memory, a: nat): Word
    requires Mapped(m, a)
  {
    m.word(a)
  }

  // The words a table at `a` would have, up to the last one the pattern looks at.
  function TableAt(m: Memory, a: nat): (t: seq<Word>)
    ensures |t| == LAST_NI + 1
  {
    seq(LAST_NI + 1, i requires 0 <= i <= LAST_NI => m.word(a + WORD * i))
  }

  ghost predicate Readable(m: Memory, a: nat) {
    forall i :: 0 <= i <= LAST_NI ==> Mapped(m, a + WORD * i)
  }

  ghost predicate Candidate(m: Memory, a: nat) {
    a % WORD == 0 && Readable(m, a) && TablePattern(TableAt(m, a))
  }

  // ---------------------------------------------------------------- readability

  lemma PageOf(page: nat, d: nat)
    requires page % PAGE == 0 && d < 2 * PAGE
    ensures (page + d) / PAGE == if d < PAGE then page / PAGE else page / PAGE + 1
    ensures (page + d) / PAGE * PAGE == if d < PAGE then page else page + PAGE
  {
  }

  // The page itself and, if the table runs into it, the next page decide whether the words can be read.
  lemma ReadableWhen(m: Memory, page: nat, i: nat)
    requires page % PAGE == 0 && i < PAGE && i % WORD == 0 && Mapped(m, page)
    requires i + WORD * LAST_NI < PAGE || Mapped(m, page + i + WORD * LAST_NI)
    ensures Readable(m, page + i)
  {
  }

  // Once the next page is known to be unmapped, no later start in this page is readable.
  lemma UnreadableAfter(m: Memory, page: nat, i: nat, j: nat)
    requires page % PAGE == 0 && i <= j < PAGE && PAGE <= i + WORD * LAST_NI
    requires !Mapped(m, page + i + WORD * LAST_NI)
    ensures !Readable(m, page + j)
  {
  }

  // ---------------------------------------------------------------- the scan

  // good_area.
  method GoodArea(m: Memory, addr: nat) returns (good: bool)
    requires Readable(m, addr)
    ensures good <==> forall i :: 1 <= i < FIRST_NI ==> TableAt(m, addr)[i] != TableAt(m, addr)[FIRST_NI]
  {
    var i := 1;
    while i < FIRST_NI
      invariant 1 <= i <= FIRST_NI
      invariant forall j :: 1 <= j < i ==> TableAt(m, addr)[j] != TableAt(m, addr)[FIRST_NI]
    {
      if Load(m, addr + WORD * i) == Load(m, addr + WORD * FIRST_NI) {
        assert TableAt(m, addr)[i] == TableAt(m, addr)[FIRST_NI];
        return false;
      }
      i := i + 1;
    }
    return true;
  }

  // The pattern test of validate_page.
  method Matches(m: Memory, addr: nat) returns (found: bool)
    requires Readable(m, addr)
    ensures found <==> TablePattern(TableAt(m, addr))
  {
    var v := Load(m, addr + WORD * FIRST_NI);
    if && v % 4 == 0 && v != 0 && v > KERNEL_BASE
       && v == Load(m, addr + WORD * 174) && v == Load(m, addr + WORD * 182) && v == Load(m, addr + WORD * 183)
       && v == Load(m, addr + WORD * 214) && v == Load(m, addr + WORD * 215) && v == Load(m, addr + WORD * LAST_NI)
    {
      found := GoodArea(m, addr);
    } else {
      found := false;
    }
  }

  ghost predicate NoneIn(m: Memory, lo: nat, hi: nat) {
    forall a :: lo <= a < hi ==> !Candidate(m, a)
  }

  lemma NoneJoin(m: Memory, lo: nat, mid: nat, hi: nat)
    requires NoneIn(m, lo, mid) && NoneIn(m, mid, hi)
    ensures NoneIn(m, lo, hi)
  {
  }

  lemma NoneInWord(m: Memory, a: nat)
    requires a % WORD == 0 && !TablePattern(TableAt(m, a))
    ensures NoneIn(m, a, a + WORD)
  {
  }

  lemma NoneInRest(m: Memory, page: nat, i: nat)
    requires page % PAGE == 0 && i < PAGE && PAGE <= i + WORD * LAST_NI
    requires !Mapped(m, page + i + WORD * LAST_NI)
    ensures NoneIn(m, page + i, page + PAGE)
  {
    forall a | page + i <= a < page + PAGE ensures !Candidate(m, a) {
      UnreadableAfter(m, page, i, a - page);
      assert page + (a - page) == a;
    }
  }

  lemma NoneInUnmapped(m: Memory, page: nat)
    requires page % PAGE == 0 && !Mapped(m, page)
    ensures NoneIn(m, page, page + PAGE)
  {
    forall a | page <= a < page + PAGE ensures !Candidate(m, a) {
      PageOf(page, a - page);
      assert !Mapped(m, a + WORD * 0);
    }
  }

  // The guard of validate_page: the table would run into the next page, and that page is not mapped.
  predicate RunsOff(m: Memory, page: nat, i: nat) {
    var last := page + i + LAST_NI * WORD;
    page + PAGE == last / PAGE * PAGE && !Mapped(m, last)
  }

  lemma Aligned(page: nat, i: nat)
    requires page % PAGE == 0 && i % WORD == 0
    ensures (page + i) % WORD == 0
  {
    var n := 512 * (page / PAGE) + i / WORD;
    assert page + i == WORD * n;
    WordMultiple(n);
  }

  lemma WordMultiple(n: nat)
    ensures WORD * n % WORD == 0
  {
  }

  lemma GuardDecides(m: Memory, page: nat, i: nat)
    requires page % PAGE == 0 && Mapped(m, page) && i < PAGE && i % WORD == 0
    ensures (page + i) % WORD == 0
    ensures if RunsOff(m, page, i) then NoneIn(m, page + i, page + PAGE) else Readable(m, page + i)
  {
    Aligned(page, i);
    PageOf(page, i + LAST_NI * WORD);
    if RunsOff(m, page, i) {
      NoneInRest(m, page, i);
    } else {
      ReadableWhen(m, page, i);
    }
  }

  datatype Verdict = Stop | Found | Continue

  // One round of validate_page's loop.
  method TryWord(m: Memory, page: nat, i: nat) returns (verdict: Verdict)
    requires page % PAGE == 0 && Mapped(m, page) && i < PAGE && i % WORD == 0
    ensures verdict == Stop ==> NoneIn(m, page + i, page + PAGE)
    ensures verdict == Found ==> Candidate(m, page + i)
    ensures verdict == Continue ==> NoneIn(m, page + i, page + i + WORD)
  {
    var addr := page + i;
    GuardDecides(m, page, i);
    if RunsOff(m, page, i) {
      return Stop;
    }
    var matched := Matches(m, addr);
    if matched {
      return Found;
    }
    NoneInWord(m, addr);
    return Continue;
  }

  // validate_page, on a mapped page.
  method ValidatePage(m: Memory, page: nat) returns (found: bool, addr: nat)
    requires page % PAGE == 0 && Mapped(m, page)
    ensures found ==> page <= addr < page + PAGE && Candidate(m, addr) && NoneIn(m, page, addr)
    ensures !found ==> NoneIn(m, page, page + PAGE)
  {
    var i := 0;
    while i < PAGE
      invariant i <= PAGE && i % WORD == 0 && NoneIn(m, page, page + i)
    {
      var verdict := TryWord(m, page, i);
      if verdict == Stop {
        NoneJoin(m, page, page + i, page + PAGE);
        return false, 0;
      }
      if verdict == Found {
        return true, page + i;
      }
      NoneJoin(m, page, page + i, page + i + WORD);
      i := i + WORD;
    }
    return false, 0;
  }

  // syscall_table_finder: the lowest candidate in the searched range, or none.
  method FindTable(m: Memory) returns (found: bool, addr: nat)
    ensures found ==> START <= addr < MAX_ADDR && Candidate(m, addr) && NoneIn(m, START, addr)
    ensures !found ==> NoneIn(m, START, MAX_ADDR)
  {
    var k := START;
    while k < MAX_ADDR
      invariant START <= k <= MAX_ADDR && k % PAGE == 0 && NoneIn(m, START, k)
    {
      if Mapped(m, k) {
        found, addr := ValidatePage(m, k);
        if found {
          NoneJoin(m, START, k, addr);
          return;
        }
      } else {
        NoneInUnmapped(m, k);
      }
      NoneJoin(m, START, k, k + PAGE);
      k := k + PAGE;
    }
    return false, 0;
  }

  // ---------------------------------------------------------------- with the page-table walk

  // Memory as sys_vtpmo sees it.
  function Kernel(space: Space, word: nat -> Word): Memory {
    Memory((p: nat) => Vtpmo(space, p * PAGE) != NO_MAP, word)
  }

  // One walk per page tells about every address of the page.
  lemma KernelMapped(space: Space, word: nat -> Word, a: nat)
    ensures Mapped(Kernel(space, word), a) <==> Vtpmo(space, a) != NO_MAP
  {
    assert a / PAGE * PAGE / PAGE == a / PAGE;
    ConstantOnPage(space, a, a / PAGE * PAGE);
  }

  // On tables as the code takes them for granted, the processor does not fault on a word that counts as mapped, so
  // that every load of the search is safe.
  lemma LoadIsSafe(space: Space, word: nat -> Word, a: nat)
    ensures Mapped(Kernel(space, word), a) && Visited(space, a) ==> Translate(space, Physical(space.cr3), 4, a).Some?
  {
    KernelMapped(space, word, a);
    if Visited(space, a) {
      AgreesWithProcessor(space, a);
    }
    ReturnedInt(space, a);
  }

  // The walk finds the word mapped, and on tables as the code takes them for granted so does the processor.
  ghost predicate WordIsSafe(space: Space, a: nat) {
    Vtpmo(space, a) != NO_MAP && (Visited(space, a) ==> Translate(space, Physical(space.cr3), 4, a).Some?)
  }

  lemma TableIsSafe(space: Space, word: nat -> Word, addr: nat)
    requires Readable(Kernel(space, word), addr)
    ensures forall i :: 0 <= i <= LAST_NI ==> WordIsSafe(space, addr + WORD * i)
  {
    forall i | 0 <= i <= LAST_NI ensures WordIsSafe(space, addr + WORD * i) {
      var a := addr + WORD * i;
      KernelMapped(space, word, a);
      LoadIsSafe(space, word, a);
    }
  }

  // The finder over real page tables.
  method FindSyscallTable(space: Space, word: nat -> Word) returns (found: bool, addr: nat, ni: Word)
    ensures found ==> START <= addr < MAX_ADDR && Candidate(Kernel(space, word), addr)
                      && NoneIn(Kernel(space, word), START, addr)
    ensures found ==> forall i :: 0 <= i <= LAST_NI ==> WordIsSafe(space, addr + WORD * i)
    ensures found ==> ni == word(addr + WORD * FIRST_NI)
    ensures !found ==> NoneIn(Kernel(space, word), START, MAX_ADDR)
  {
    found, addr := FindTable(Kernel(space, word));
    ni := 0;
    if found {
      TableIsSafe(space, word, addr);
      ni := word(addr + WORD * FIRST_NI);
    }
  }
}
