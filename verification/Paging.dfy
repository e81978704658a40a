/**
 sys_vtpmo: the page-table walk that tells whether a virtual address is mapped.  Addresses and table entries are
 64-bit numbers; shifts and masks are written as division and remainder.
 */
module Paging {
  import opened SyscallTable

  const NO_MAP := -1
  const PAGE := 4096
  const LARGE := 0x20_0000
  const HUGE := 0x4000_0000

  datatype Option<T> = None | Some(value: T)

  // Physical memory by byte address of each 8-byte entry, and the register that names the top table.
  datatype Space = Space(cr3: Word, mem: nat -> Word)

  predicate Present(e: Word) {
    e % 2 == 1
  }

  // Bit 7, which marks a large mapping.
  predicate PageSize(e: Word) {
    e / 128 % 2 == 1
  }

  // The macros PML4, PDP, PDE and PTE: nine bits of the address from bit 39, 30, 21 or 12 on.
  function Pml4(va: nat): nat { va / 0x80_0000_0000 % 512 }
  function Pdp(va: nat): nat { va / HUGE % 512 }
  function Pde(va: nat): nat { va / LARGE % 512 }
  function Pte(va: nat): nat { va / PAGE % 512 }

  function Entry(s: Space, table: nat, index: nat): Word {
    s.mem(table + 8 * index)
  }

  // PT_ADDRESS_MASK clears the low twelve bits and bit 63.
  function TableAddress(e: Word): nat {
    e % 0x8000_0000_0000_0000 / PAGE * PAGE
  }

  // The frame number, before it is stored in an int.
  function Frame(s: Space, va: nat): Option<nat> {
    var pml4 := s.cr3 / PAGE * PAGE;
    var e4 := Entry(s, pml4, Pml4(va));
    if !Present(e4) then None else
    var e3 := Entry(s, TableAddress(e4), Pdp(va));
    if !Present(e3) then None else
    var e2 := Entry(s, TableAddress(e3), Pde(va));
    if !Present(e2) then None
    else if PageSize(e2) then Some(TableAddress(e2) / PAGE)
    else
      var e1 := Entry(s, TableAddress(e2), Pte(va));
      if !Present(e1) then None else Some(TableAddress(e1) / PAGE)
  }

  // Conversion to a 32-bit signed int.
  function ToInt(x: nat): int {
    var low := x % 0x1_0000_0000;
    if low < 0x8000_0000 then low else low - 0x1_0000_0000
  }

  function Vtpmo(s: Space, va: nat): int {
    match Frame(s, va)
    case None => NO_MAP
    case Some(f) => ToInt(f)
  }

  // ---------------------------------------------------------------- pages

  lemma SamePage(a: nat, b: nat)
    requires a / PAGE == b / PAGE
    ensures a / LARGE == b / LARGE && a / HUGE == b / HUGE && a / 0x80_0000_0000 == b / 0x80_0000_0000
  {
    DivTwice(a);
    DivTwice(b);
  }

  lemma DivTwice(a: nat)
    ensures a / LARGE == a / PAGE / 512 && a / HUGE == a / PAGE / 0x40000 && a / 0x80_0000_0000 == a / PAGE / 0x800_0000
  {
  }

  // The answer is the same for every address of a 4 KiB page.
  lemma ConstantOnPage(s: Space, a: nat, b: nat)
    requires a / PAGE == b / PAGE
    ensures Vtpmo(s, a) == Vtpmo(s, b)
  {
    SamePage(a, b);
  }

  // The third-level entry that a walk reaches, if it gets there.
  function Level2(s: Space, va: nat): Option<Word> {
    var e4 := Entry(s, s.cr3 / PAGE * PAGE, Pml4(va));
    if !Present(e4) then None else
    var e3 := Entry(s, TableAddress(e4), Pdp(va));
    if !Present(e3) then None else Some(Entry(s, TableAddress(e3), Pde(va)))
  }

  lemma LargeTwice(a: nat)
    ensures a / HUGE == a / LARGE / 512 && a / 0x80_0000_0000 == a / LARGE / 0x40000
  {
  }

  // The answer is the same for every address of a 2 MiB mapping.
  lemma ConstantOnLarge(s: Space, a: nat, b: nat)
    requires a / LARGE == b / LARGE
    requires Level2(s, a).Some? && PageSize(Level2(s, a).value)
    ensures Vtpmo(s, a) == Vtpmo(s, b)
  {
    LargeTwice(a);
    LargeTwice(b);
  }

  // ---------------------------------------------------------------- the processor's translation

  function Span(level: nat): nat
    requires 1 <= level <= 4
  {
    if level == 1 then PAGE else if level == 2 then LARGE else if level == 3 then HUGE else 0x80_0000_0000
  }

  // Bits 51 to 12.
  function Physical(e: Word): nat {
    e % 0x10_0000_0000_0000 / PAGE * PAGE
  }

  // 4-level paging as the Intel SDM, volume 3A, section 4.5 has it: the physical address, or a fault.
  function Translate(s: Space, table: nat, level: nat, va: nat): Option<nat>
    requires 1 <= level <= 4
    decreases level
  {
    var e := Entry(s, table, va / Span(level) % 512);
    if !Present(e) then None
    else if level == 1 then Some(Physical(e) + va % PAGE)
    else if level <= 3 && PageSize(e) then Some(Physical(e) / Span(level) * Span(level) + va % Span(level))
    else Translate(s, Physical(e), level - 1, va)
  }

  // Nothing is set in bits 52 to 62.
  predicate Plain(e: Word) {
    e % 0x8000_0000_0000_0000 < 0x10_0000_0000_0000
  }

  lemma PlainAddress(e: Word)
    requires Plain(e)
    ensures TableAddress(e) == Physical(e)
  {
    var q, r := e / 0x8000_0000_0000_0000, e % 0x8000_0000_0000_0000;
    assert e == 0x10_0000_0000_0000 * (2048 * q) + r;
    Remainder(2048 * q, r);
  }

  lemma Remainder(q: nat, r: nat)
    requires r < 0x10_0000_0000_0000
    ensures (0x10_0000_0000_0000 * q + r) % 0x10_0000_0000_0000 == r
  {
  }

  // What the code takes for granted about the entries it visits: nothing in bits 52 to 62, no 1 GiB page, and
  // no attribute bits below bit 21 of a 2 MiB entry.
  ghost predicate Visited(s: Space, va: nat) {
    s.cr3 < 0x10_0000_0000_0000 &&
    var e4 := Entry(s, s.cr3 / PAGE * PAGE, Pml4(va));
    Present(e4) ==>
      Plain(e4) &&
      var e3 := Entry(s, TableAddress(e4), Pdp(va));
      Present(e3) ==>
        Plain(e3) && !PageSize(e3) &&
        var e2 := Entry(s, TableAddress(e3), Pde(va));
        Present(e2) ==>
          Plain(e2) && (PageSize(e2) ==> TableAddress(e2) % LARGE == 0) &&
          (!PageSize(e2) ==>
            var e1 := Entry(s, TableAddress(e2), Pte(va));
            Present(e1) ==> Plain(e1))
  }

  // The number of 4 KiB frames between the start of the mapping that holds `va` and the frame of `va`.
  function FramesInto(s: Space, va: nat): nat {
    if Level2(s, va).Some? && PageSize(Level2(s, va).value) then va / PAGE % 512 else 0
  }

  // On such tables the walk faults exactly when the processor's does, and otherwise gives the first frame of the
  // mapping the processor uses.
  lemma AgreesWithProcessor(s: Space, va: nat)
    requires Visited(s, va)
    ensures Frame(s, va).None? <==> Translate(s, Physical(s.cr3), 4, va).None?
    ensures Frame(s, va).Some? ==>
              Frame(s, va).value + FramesInto(s, va) == Translate(s, Physical(s.cr3), 4, va).value / PAGE
  {
    assert Physical(s.cr3) == s.cr3 / PAGE * PAGE;
    var e4 := Entry(s, s.cr3 / PAGE * PAGE, Pml4(va));
    if Present(e4) {
      PlainAddress(e4);
      assert Translate(s, Physical(s.cr3), 4, va) == Translate(s, Physical(e4), 3, va);
      var e3 := Entry(s, TableAddress(e4), Pdp(va));
      if Present(e3) {
        PlainAddress(e3);
        assert Translate(s, Physical(e4), 3, va) == Translate(s, Physical(e3), 2, va);
        var e2 := Entry(s, TableAddress(e3), Pde(va));
        if Present(e2) {
          PlainAddress(e2);
          if PageSize(e2) {
            LargeFrame(TableAddress(e2), va);
          } else {
            assert Translate(s, Physical(e3), 2, va) == Translate(s, Physical(e2), 1, va);
            var e1 := Entry(s, TableAddress(e2), Pte(va));
            if Present(e1) {
              PlainAddress(e1);
            }
          }
        }
      }
    }
  }

  // The int that is returned: NO_MAP exactly when the processor faults, unless the frame's low 32 bits are all ones,
  // and the frame number itself below 2^31.
  lemma ReturnsFrame(s: Space, va: nat)
    requires Visited(s, va)
    ensures var p := Translate(s, Physical(s.cr3), 4, va);
            && (Vtpmo(s, va) == NO_MAP <==> p.None? || (p.value / PAGE - FramesInto(s, va)) % 0x1_0000_0000 == 0xffff_ffff)
            && (p.Some? && p.value / PAGE - FramesInto(s, va) < 0x8000_0000 ==>
                  Vtpmo(s, va) == p.value / PAGE - FramesInto(s, va))
  {
    AgreesWithProcessor(s, va);
    ReturnedInt(s, va);
  }

  lemma ReturnedInt(s: Space, va: nat)
    ensures match Frame(s, va)
            case None => Vtpmo(s, va) == NO_MAP
            case Some(f) =>
              && (Vtpmo(s, va) == NO_MAP <==> f % 0x1_0000_0000 == 0xffff_ffff)
              && (f < 0x8000_0000 ==> Vtpmo(s, va) == f)
  {
  }

  lemma LargeFrame(base: nat, va: nat)
    requires base % LARGE == 0
    ensures base / LARGE * LARGE == base
    ensures (base + va % LARGE) / PAGE == base / PAGE + va / PAGE % 512
  {
    var q := base / LARGE;
    assert base == PAGE * (512 * q);
    AddFrames(512 * q, va % LARGE);
    AddFrames(512 * q, 0);
    OffsetFrames(va);
  }

  lemma AddFrames(x: nat, r: nat)
    ensures (PAGE * x + r) / PAGE == x + r / PAGE
  {
  }

  lemma OffsetFrames(va: nat)
    ensures va % LARGE / PAGE == va / PAGE % 512
  {
    var q, r := va / LARGE, va % LARGE;
    AddFrames(512 * q, r);
    assert va / PAGE == 512 * q + r / PAGE;
  }
}
