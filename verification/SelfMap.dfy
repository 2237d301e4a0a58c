/**
 The self-map: slot 0x1ff of the PML4 points at the PML4 itself, so that the tables themselves show
 up as pages at the top of the address space.
*/
module SelfMap {
  import opened Words
  import opened PageTree
  import opened TreeWalks
  import opened FlatMaps
  import opened PageMemory
  import opened Addresses

  // ----- what the processor does -----

  datatype Location =
    | Fault
    | Page(frame: Frame, offset: nat)
    /** A 1 GiB or 2 MiB page; `entry` is the one that maps it. */
    | LargePage(entry: Entry, level: nat, offset: nat)

  /** The 4-level walk from a table of the given level on (section 4.5 of Intel SDM Volume 3A). */
  function WalkFrom(mem: Memory, table: Frame, ix: Path, level: nat, addr: nat): Location
    requires |ix| == 4 && level <= 3
    decreases 3 - level
  {
    if table !in mem || ix[level] >= |mem[table]| then Fault else
    var e := mem[table][ix[level]];
    if !Present(e) then Fault
    else if level == 3 then Page(AddressOf(e), addr % 0x1000)
    else if Huge(e) then if level == 0 then Fault else LargePage(e, level, addr % Span(level))
    else WalkFrom(mem, AddressOf(e), ix, level + 1, addr)
  }

  /** Where the processor finds a virtual address. */
  function Translate(mem: Memory, cr3: Frame, addr: nat): Location {
    WalkFrom(mem, cr3, Indices(addr), 0, addr)
  }

  // ----- what PageTable computes -----

  /** Bitwise and with ~7. */
  function DropLow3(x: nat): nat { x - x % 8 }

  /** The address through which GetTableEntry reads and writes a table's slot. */
  function EntryAddress(addr: nat, depth: nat): nat
    requires depth <= 3
  {
    var address := addr % 0x1_0000_0000_0000;
    if depth == 3 then 0xFFFFFF8000000000 + DropLow3(address / 0x200)
    else if depth == 2 then 0xFFFFFFFFC0000000 + DropLow3(address / 0x40000)
    else if depth == 1 then 0xFFFFFFFFFFE00000 + DropLow3(address / 0x8000000)
    else 0xFFFFFFFFFFFFF000 + DropLow3(address / 0x1000000000)
  }

  /** The first entry of the table that holds that slot. */
  function TableAddress(addr: nat, depth: nat): nat
    requires depth <= 3
  {
    EntryAddress(addr, depth) - EntryAddress(addr, depth) % 0x1000
  }

  /** As many turns through slot 0x1ff as the table is levels above the page, then the way to the table. */
  function SelfPath(ix: Path, depth: nat): Path
    requires |ix| == 4 && depth <= 3
  {
    [511, 511, 511, 511][..4 - depth] + ix[..depth]
  }

  lemma DropLow3Is(x: nat)
    ensures DropLow3(x) == 8 * (x / 8)
  {
  }

  /** Eight bytes a slot: division by the span of the slot, times eight. */
  lemma Slots(r: nat)
    ensures DropLow3(r / 0x200) == 8 * (r / 0x1000)
    ensures DropLow3(r / 0x40000) == 8 * (r / 0x200000)
    ensures DropLow3(r / 0x8000000) == 8 * (r / 0x40000000)
    ensures DropLow3(r / 0x1000000000) == 8 * (r / 0x8000000000)
  {
    hide DropLow3;
    DropLow3Is(r / 0x200);
    DropLow3Is(r / 0x40000);
    DropLow3Is(r / 0x8000000);
    DropLow3Is(r / 0x1000000000);
    DivDiv(r, 0x200, 8);
    DivDiv(r, 0x40000, 8);
    DivDiv(r, 0x8000000, 8);
    DivDiv(r, 0x1000000000, 8);
  }

  /** The window holds one eight-byte slot for each page number. */
  lemma WindowDigits(n: nat)
    requires n < 0x1000000000
    ensures var va := 0xFFFFFF8000000000 + 8 * n;
      && Indices(va) == [511, n / 0x8000000, n / 0x40000 % 512, n / 512 % 512]
      && va % 0x1000 == 8 * (n % 512)
  {
    var va := 0xFFFFFF8000000000 + 8 * n;
    WindowTop(n);
    WindowMiddle(n);
    WindowLow(n);
  }

  lemma WindowTop(n: nat)
    requires n < 0x1000000000
    ensures var va := 0xFFFFFF8000000000 + 8 * n;
      va / 0x8000000000 % 512 == 511 && va / 0x40000000 % 512 == n / 0x8000000
  {
    var va := 0xFFFFFF8000000000 + 8 * n;
    assert va / 0x8000000000 == 0x1FFFFFF;
    assert va / 0x40000000 == 0x3FFFFFE00 + n / 0x8000000;
  }

  lemma WindowMiddle(n: nat)
    requires n < 0x1000000000
    ensures var va := 0xFFFFFF8000000000 + 8 * n; va / 0x200000 % 512 == n / 0x40000 % 512
  {
    var va := 0xFFFFFF8000000000 + 8 * n;
    assert va / 0x200000 == 0x7FFFFFC0000 + n / 0x40000;
  }

  lemma WindowLow(n: nat)
    requires n < 0x1000000000
    ensures var va := 0xFFFFFF8000000000 + 8 * n;
      va / 0x1000 % 512 == n / 512 % 512 && va % 0x1000 == 8 * (n % 512)
  {
    var va := 0xFFFFFF8000000000 + 8 * n;
    assert va / 0x1000 == 0xFFFFFF8000000 + n / 512;
    assert va == 0x1000 * (0xFFFFFF8000000 + n / 512) + 8 * (n % 512);
  }

  /** The page number behind each depth's address. */
  function WindowSlot(addr: nat, depth: nat): nat
    requires depth <= 3
  {
    var r := addr % 0x1_0000_0000_0000;
    if depth == 3 then r / 0x1000
    else if depth == 2 then 511 * 0x8000000 + r / 0x200000
    else if depth == 1 then 511 * 0x8000000 + 511 * 0x40000 + r / 0x40000000
    else 511 * 0x8000000 + 511 * 0x40000 + 511 * 0x200 + r / 0x8000000000
  }

  lemma EntryIsInWindow(addr: nat, depth: nat)
    requires depth <= 3
    ensures WindowSlot(addr, depth) < 0x1000000000
    ensures EntryAddress(addr, depth) == 0xFFFFFF8000000000 + 8 * WindowSlot(addr, depth)
  {
    Slots(addr % 0x1_0000_0000_0000);
  }

  lemma Turn1(m: nat)
    requires m < 0x8000000
    ensures var n := 511 * 0x8000000 + m;
      n / 0x8000000 == 511 && n / 0x40000 % 512 == m / 0x40000 && n / 512 % 512 == m / 512 % 512 && n % 512 == m % 512
  {
    var n := 511 * 0x8000000 + m;
    assert n / 0x40000 == 511 * 512 + m / 0x40000;
    assert n / 512 == 511 * 0x40000 + m / 512;
  }

  lemma Turn2(m: nat)
    requires m < 0x40000
    ensures var n := 511 * 0x8000000 + 511 * 0x40000 + m;
      n / 0x8000000 == 511 && n / 0x40000 % 512 == 511 && n / 512 % 512 == m / 512 && n % 512 == m % 512
  {
    var m' := 511 * 0x40000 + m;
    Turn1(m');
    assert m' / 512 == 511 * 512 + m / 512;
  }

  lemma Turn3(m: nat)
    requires m < 512
    ensures var n := 511 * 0x8000000 + 511 * 0x40000 + 511 * 0x200 + m;
      n / 0x8000000 == 511 && n / 0x40000 % 512 == 511 && n / 512 % 512 == 511 && n % 512 == m
  {
    Turn2(511 * 0x200 + m);
  }

  /** Dividing by 512 once more drops one index. */
  lemma Deeper(r: nat)
    ensures r / 0x1000 / 0x40000 == r / 0x40000000 && r / 0x1000 / 0x8000000 == r / 0x8000000000
    ensures r / 0x200000 / 0x40000 == r / 0x8000000000
  {
    DivDiv(r, 0x1000, 0x40000);
    DivDiv(r, 0x1000, 0x8000000);
    DivDiv(r, 0x200000, 0x40000);
  }

  lemma WindowSlotDigits(addr: nat, depth: nat)
    requires depth <= 3
    ensures var n, ix := WindowSlot(addr, depth), Indices(addr);
      && [511, n / 0x8000000, n / 0x40000 % 512, n / 512 % 512] == SelfPath(ix, depth)
      && n % 512 == ix[depth]
  {
    var r := addr % 0x1_0000_0000_0000;
    var n, ix := WindowSlot(addr, depth), Indices(addr);
    IndicesAre(addr);
    SmallEnough(r);
    if depth == 0 {
      Turn3(r / 0x8000000000);
    } else if depth == 1 {
      Turn2(r / 0x40000000);
    } else if depth == 2 {
      Turn1(r / 0x200000);
    }
    hide Indices;
    assert [511, n / 0x8000000, n / 0x40000 % 512, n / 512 % 512] == SelfPath(ix, depth);
  }

  lemma SmallEnough(r: nat)
    requires r < 0x1_0000_0000_0000
    ensures r / 0x8000000000 < 512 && r / 0x40000000 < 0x40000 && r / 0x200000 < 0x8000000
  {
  }

  lemma IndicesAre(addr: nat)
    ensures var r := addr % 0x1_0000_0000_0000; var ix := Indices(addr);
      && ix == [r / 0x8000000000, r / 0x40000000 % 512, r / 0x200000 % 512, r / 0x1000 % 512]
      && r / 0x1000 / 512 == r / 0x200000 && r / 0x200000 / 512 == r / 0x40000000 && r / 0x40000000 / 512 == r / 0x8000000000
      && r / 0x1000 / 0x40000 == r / 0x40000000 && r / 0x1000 / 0x8000000 == r / 0x8000000000
      && r / 0x200000 / 0x40000 == r / 0x8000000000
  {
    Digit0(addr); Digit1(addr); Digit2(addr); Digit3(addr);
    Nested(addr % 0x1_0000_0000_0000);
    Deeper(addr % 0x1_0000_0000_0000);
  }

  /** The address of a slot spells the self-map turns and then the way to the slot's table. */
  lemma SelfIndices(addr: nat, depth: nat)
    requires depth <= 3
    ensures Indices(EntryAddress(addr, depth)) == SelfPath(Indices(addr), depth)
    ensures EntryAddress(addr, depth) % 0x1000 == 8 * Indices(addr)[depth]
  {
    hide Indices, EntryAddress, WindowSlot;
    EntryIsInWindow(addr, depth);
    WindowDigits(WindowSlot(addr, depth));
    WindowSlotDigits(addr, depth);
  }

  // ----- the walk through the self-map -----

  lemma SelfSlot(t: Tree)
    requires Wf(t)
    ensures var e := At(t, [], 511); Present(e) && !Huge(e) && AddressOf(e) == t.tables[[]].frame
  {
    assert PathOk(t, []);
    PointerBits(t.tables[[]].frame, 3);
  }

  /** From the table at p, the walk along the slots of ix comes to the table below. */
  lemma StepDown(mem: Memory, pml4: Frame, pool: set<Frame>, t: Tree, ix: Path, k: nat, path: Path, level: nat, addr: nat)
    requires Sound(mem, pml4, pool, t) && IsAddress(t, ix) && k < 3 && ix[..k + 1] in t.tables && ix[..k] in t.tables
    requires |path| == 4 && level < 3 && path[level] == ix[k]
    ensures WalkFrom(mem, t.tables[ix[..k]].frame, path, level, addr)
      == WalkFrom(mem, t.tables[ix[..k + 1]].frame, path, level + 1, addr)
  {
    hide IsFrame, AddressOf;
    TableIsThere(mem, pml4, pool, t, ix, k);
    EntryIsThere(mem, pml4, pool, t, ix, k);
    assert ix[..k + 1] == ix[..k] + [ix[k]];
    assert PointerOk(t, ix[..k], ix[k]);
  }

  /** The last step of a walk through the self-map ends at the table itself, as a page. */
  lemma StepOut(mem: Memory, pml4: Frame, pool: set<Frame>, t: Tree, ix: Path, k: nat, path: Path, addr: nat)
    requires Sound(mem, pml4, pool, t) && IsAddress(t, ix) && k < 3 && ix[..k + 1] in t.tables && ix[..k] in t.tables
    requires |path| == 4 && path[3] == ix[k]
    ensures WalkFrom(mem, t.tables[ix[..k]].frame, path, 3, addr) == Page(t.tables[ix[..k + 1]].frame, addr % 0x1000)
  {
    hide IsFrame, AddressOf;
    TableIsThere(mem, pml4, pool, t, ix, k);
    EntryIsThere(mem, pml4, pool, t, ix, k);
    assert ix[..k + 1] == ix[..k] + [ix[k]];
    assert PointerOk(t, ix[..k], ix[k]);
  }

  lemma StepSelf(mem: Memory, pml4: Frame, pool: set<Frame>, t: Tree, path: Path, level: nat, addr: nat)
    requires Sound(mem, pml4, pool, t) && |path| == 4 && level <= 3 && path[level] == 511
    ensures WalkFrom(mem, pml4, path, level, addr)
      == if level == 3 then Page(pml4, addr % 0x1000) else WalkFrom(mem, pml4, path, level + 1, addr)
  {
    hide IsFrame, AddressOf, Present, Huge;
    SelfSlot(t);
    assert Stores(mem, t.tables[[]]);
  }

  /**
   The address GetTableEntry computes leads the processor to the slot it means: the physical table
   of that depth, at eight bytes a slot.
  */
  lemma SelfMapShowsEntries(mem: Memory, pml4: Frame, pool: set<Frame>, t: Tree, addr: nat, depth: nat)
    requires Sound(mem, pml4, pool, t) && IsAddress(t, Indices(addr)) && depth <= 3 && Indices(addr)[..depth] in t.tables
    ensures Translate(mem, pml4, EntryAddress(addr, depth))
      == Page(t.tables[Indices(addr)[..depth]].frame, 8 * Indices(addr)[depth])
  {
    hide Indices, EntryAddress, WalkFrom, Wf, Represents;
    var ix, va := Indices(addr), EntryAddress(addr, depth);
    SelfIndices(addr, depth);
    var path := SelfPath(ix, depth);
    SoundIsWf(mem, pml4, pool, t);
    LeafPath(t, ix);
    assert ix[..0] == [];
    StepSelf(mem, pml4, pool, t, path, 0, va);
    if depth == 0 {
      StepSelf(mem, pml4, pool, t, path, 1, va);
      StepSelf(mem, pml4, pool, t, path, 2, va);
      StepSelf(mem, pml4, pool, t, path, 3, va);
    } else if depth == 1 {
      StepSelf(mem, pml4, pool, t, path, 1, va);
      StepSelf(mem, pml4, pool, t, path, 2, va);
      StepOut(mem, pml4, pool, t, ix, 0, path, va);
    } else if depth == 2 {
      StepSelf(mem, pml4, pool, t, path, 1, va);
      StepDown(mem, pml4, pool, t, ix, 0, path, 2, va);
      StepOut(mem, pml4, pool, t, ix, 1, path, va);
    } else {
      StepDown(mem, pml4, pool, t, ix, 0, path, 1, va);
      StepDown(mem, pml4, pool, t, ix, 1, path, 2, va);
      StepOut(mem, pml4, pool, t, ix, 2, path, va);
    }
  }

  /** Rounding down to a page changes no table slot. */
  lemma PageHasSameIndices(a: nat)
    ensures var b := a - a % 0x1000; Indices(b) == Indices(a) && b % 0x1000 == 0
  {
    var q := a / 0x1000;
    var b := a - a % 0x1000;
    assert b == 0x1000 * q;
    DivModUnique(b, 0x1000, q, 0);
    IndicesFromPage(a);
    IndicesFromPage(b);
  }

  lemma IndicesFromPage(a: nat)
    ensures var q := a / 0x1000; Indices(a) == [q / 512 / 512 / 512 % 512, q / 512 / 512 % 512, q / 512 % 512, q % 512]
  {
    Nested(a);
  }

  /** A walk that ends at a page ends there for every offset. */
  lemma {:induction false} WalkIsOfPage(mem: Memory, table: Frame, ix: Path, level: nat, a: nat, b: nat, f: Frame)
    requires |ix| == 4 && level <= 3 && WalkFrom(mem, table, ix, level, a) == Page(f, a % 0x1000)
    ensures WalkFrom(mem, table, ix, level, b) == Page(f, b % 0x1000)
    decreases 3 - level
  {
    if level < 3 {
      WalkIsOfPage(mem, AddressOf(mem[table][ix[level]]), ix, level + 1, a, b, f);
    }
  }

  /** The address GetTableStart computes, through which a new table is cleared, is the table itself. */
  lemma SelfMapShowsTables(mem: Memory, pml4: Frame, pool: set<Frame>, t: Tree, addr: nat, depth: nat)
    requires Sound(mem, pml4, pool, t) && IsAddress(t, Indices(addr)) && depth <= 3 && Indices(addr)[..depth] in t.tables
    ensures Translate(mem, pml4, TableAddress(addr, depth)) == Page(t.tables[Indices(addr)[..depth]].frame, 0)
  {
    hide Indices, EntryAddress, WalkFrom, Sound, SelfPath;
    var va := EntryAddress(addr, depth);
    SelfMapShowsEntries(mem, pml4, pool, t, addr, depth);
    SelfIndices(addr, depth);
    PageHasSameIndices(va);
    WalkIsOfPage(mem, pml4, Indices(va), 0, va, va - va % 0x1000, t.tables[Indices(addr)[..depth]].frame);
  }

  /** What the processor makes of a leaf; a huge entry in the PML4 is reserved and faults. */
  function Seen(leaf: Leaf, addr: nat): Location {
    if leaf.NoLeaf? || !Present(leaf.entry) || leaf.depth == 0 || leaf.depth > 3 then Fault
    else if leaf.depth == 3 then Page(AddressOf(leaf.entry), addr % 0x1000)
    else LargePage(leaf.entry, leaf.depth, addr % Span(leaf.depth))
  }

  lemma {:induction false} WalkIsSeen(mem: Memory, pml4: Frame, pool: set<Frame>, t: Tree, ix: Path, k: nat, addr: nat)
    requires Sound(mem, pml4, pool, t) && IsAddress(t, ix) && k <= LeafDepth(t, ix) && ix[..k] in t.tables
    ensures WalkFrom(mem, t.tables[ix[..k]].frame, ix, k, addr) == Seen(Flat(t, ix), addr)
    decreases 3 - k
  {
    LeafPath(t, ix);
    if k < LeafDepth(t, ix) {
      StepDown(mem, pml4, pool, t, ix, k, ix, k, addr);
      WalkIsSeen(mem, pml4, pool, t, ix, k + 1, addr);
    } else {
      LastStep(mem, pml4, pool, t, ix, addr);
    }
  }

  lemma LastStep(mem: Memory, pml4: Frame, pool: set<Frame>, t: Tree, ix: Path, addr: nat)
    requires Sound(mem, pml4, pool, t) && IsAddress(t, ix) && ix[..LeafDepth(t, ix)] in t.tables
    ensures var d := LeafDepth(t, ix);
      d <= 3 && WalkFrom(mem, t.tables[ix[..d]].frame, ix, d, addr) == Seen(Flat(t, ix), addr)
  {
    hide IsFrame, AddressOf, Span;
    var d := LeafDepth(t, ix);
    LeafPath(t, ix);
    TableIsThere(mem, pml4, pool, t, ix, d);
    LeafStart(t, ix, d);
    SlotMet(t, t, ix, d);
    assert !Present(0);
  }

  /** The flat map is what the processor sees of the tables, at every address of the tree. */
  lemma ProcessorSeesMapping(mem: Memory, pml4: Frame, pool: set<Frame>, t: Tree, addr: nat)
    requires Sound(mem, pml4, pool, t) && IsAddress(t, Indices(addr))
    ensures Indices(addr) in PagesOf(t) && Translate(mem, pml4, addr) == Seen(PagesOf(t)[Indices(addr)], addr)
  {
    hide Indices, WalkFrom, Seen;
    SoundIsWf(mem, pml4, pool, t);
    assert Indices(addr)[..0] == [];
    WalkIsSeen(mem, pml4, pool, t, Indices(addr), 0, addr);
  }

  // ----- kernel memory in user maps -----

  /** Whoever has the kernel's PDPT in slot 0 sees what lies below it at every kernel address. */
  lemma FirstSlotLeadsOn(mem: Memory, pml4: Frame, pdpt: Frame, addr: nat)
    requires IsFrame(pdpt) && pml4 in mem && 0 < |mem[pml4]| && mem[pml4][0] == WithMask(pdpt.base, 3) && IsKernel(addr)
    ensures Translate(mem, pml4, addr) == WalkFrom(mem, pdpt, Indices(addr), 1, addr)
  {
    hide IsFrame, AddressOf, WithMask, Present, Huge;
    PointerBits(pdpt, 3);
    KernelSlot(addr);
  }

  lemma KernelSlot(addr: nat)
    requires IsKernel(addr)
    ensures Indices(addr)[0] == 0 && IsPathFrom(0, Indices(addr))
  {
    ManagedIndices(0, addr);
    assert addr / 0x8000000000 == 0;
  }

  /**
   A root whose slot 0 holds the PDPT of the kernel's page table sees every kernel address as the
   kernel's page table maps it.
  */
  lemma KernelIsShared(mem: Memory, pml4: Frame, kernelPml4: Frame, pool: set<Frame>, t: Tree, addr: nat)
    requires Sound(mem, kernelPml4, pool, t) && t.lo == 0 && [0] in t.tables && IsKernel(addr)
    requires pml4 in mem && 0 < |mem[pml4]| && mem[pml4][0] == WithMask(t.tables[[0]].frame.base, 3)
    ensures Indices(addr) in PagesOf(t) && Translate(mem, pml4, addr) == Seen(PagesOf(t)[Indices(addr)], addr)
  {
    hide Indices, WalkFrom, Seen, IsFrame, WithMask, Represents;
    KernelSlot(addr);
    SoundIsWf(mem, kernelPml4, pool, t);
    assert PathOk(t, [0]);
    FirstSlotLeadsOn(mem, pml4, t.tables[[0]].frame, addr);
    var ix := Indices(addr);
    assert ix[..1] == [0];
    WalkIsSeen(mem, kernelPml4, pool, t, ix, 1, addr);
  }
}
