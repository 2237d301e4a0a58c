/** GlobalMap: kernel space, whose only record of what is free is the page table and FreeFinder's cache. */
module GlobalMaps {
  import opened Words
  import opened PageTree
  import opened TreeWalks
  import opened FlatMaps
  import opened PageLists
  import opened PageMemory
  import opened Addresses
  import opened PageTables
  import opened PageRuns
  import opened PhysicalWords
  import opened TableRuns
  import opened FreeFinders

  /** Every leaf counts as mapped or reserved; a 4 KiB reservation would not. */
  ghost predicate AllOccupied(m: Pages)
    requires Consistent(m)
  {
    forall x | x in m && m[x].Leaf? :: IsOccupied(m[x])
  }

  /** An entry that occupies its page at depth d. */
  predicate Occupies(e: Entry, d: nat) {
    if d < 3 then Huge(e) else Present(e)
  }

  lemma KernelCovered(m: Pages)
    requires Covers(0, m) && Consistent(m)
    ensures CoversKernel(m)
  {
    forall a: nat | IsKernel(a) ensures Indices(a) in m { ManagedIndices(0, a); }
  }

  lemma FreeIsLeaf(m: Pages, a: nat)
    requires Covers(0, m) && CoversKernel(m)
    ensures IsFree(m, a) <==> IsKernel(a) && !IsOccupied(LeafAt(0, m, a))
  {
  }

  lemma PlacesKeepsOccupied(m: Pages, m': Pages, x: nat, d: nat, n: nat, e: Entry)
    requires HasPages(0, m) && Covers(0, m') && Consistent(m') && d <= 3 && Places(0, m, m', x, d, n, e)
    requires AllOccupied(m) && Occupies(e, d)
    ensures AllOccupied(m')
  {
    hide Span, Indices, IsManaged, IsPathFrom, Consistent, MarkedHuge, EntryAt, Huge, Present;
    forall path | path in m' && m'[path].Leaf? ensures IsOccupied(m'[path]) {
      var a := AddressOfPath(0, path);
      PathOf(0, a);
      if x <= a < x + n * Span(d) { EntryFlags(e, d, (a - x) / Span(d)); }
    }
  }

  lemma ClearsKeepsOccupied(m: Pages, m': Pages, x: nat, d: nat, n: nat)
    requires HasPages(0, m) && Covers(0, m') && Consistent(m') && d <= 3 && Clears(0, m, m', x, d, n) && AllOccupied(m)
    ensures AllOccupied(m')
  {
    hide Span, Indices, IsManaged, IsPathFrom, Consistent, MarkedHuge, IsOccupied;
    forall path | path in m' && m'[path].Leaf? ensures IsOccupied(m'[path]) {
      var a := AddressOfPath(0, path);
      PathOf(0, a);
    }
  }

  /** Setting pages elsewhere leaves a free run free. */
  lemma PlacesKeepsFree(m: Pages, m': Pages, x: nat, d: nat, n: nat, e: Entry, y: nat, k: nat)
    requires Covers(0, m) && Covers(0, m') && CoversKernel(m) && CoversKernel(m') && d <= 3
    requires Places(0, m, m', x, d, n, e) && IsFreeRun(m, y, k)
    requires forall a: nat | InRange(a, y, k) :: !InRange(a, x, n * Span(d))
    ensures IsFreeRun(m', y, k)
  {
    hide Span, IsOccupied, LeafAt, Covers, CoversKernel, IsFree, EntryAt;
    forall a: nat | y <= a < y + k ensures IsFree(m', a) {
      assert InRange(a, y, k) && IsFree(m, a);
      FreeIsLeaf(m, a);
      FreeIsLeaf(m', a);
      assert !InRange(a, x, n * Span(d));
    }
  }

  /** Clearing pages leaves free runs free, and frees the cleared run. */
  lemma ClearsFrees(m: Pages, m': Pages, x: nat, d: nat, n: nat, y: nat, k: nat)
    requires Covers(0, m) && Covers(0, m') && CoversKernel(m) && CoversKernel(m') && d <= 3
    requires Clears(0, m, m', x, d, n) && IsFreeRun(m, y, k) && x + n * Span(d) <= KERNEL_END
    ensures IsFreeRun(m', y, k) && IsFreeRun(m', x, n * Span(d))
  {
    hide Span, LeafAt, Covers, CoversKernel, IsFree;
    forall a: nat | y <= a < y + k ensures IsFree(m', a) {
      assert IsFree(m, a);
      FreeIsLeaf(m, a);
      FreeIsLeaf(m', a);
    }
    forall a: nat | x <= a < x + n * Span(d) ensures IsFree(m', a) {
      FreeIsLeaf(m', a);
    }
  }

  /** With every leaf occupied, what Walk takes for free is really vacant. */
  lemma FreeIsVacant(m: Pages, x: nat, n: nat)
    requires HasPages(0, m) && CoversKernel(m) && AllOccupied(m) && IsFreeRun(m, x, n)
    ensures IsRun(0, x, n) && IsVacant(0, m, x, n)
  {
    hide IsOccupied, Consistent, MarkedHuge, CoversKernel, IsFree, Indices;
    forall a: nat | x <= a < x + n ensures LeafAt(0, m, a).NoLeaf? {
      assert IsFree(m, a);
      FreeIsLeaf(m, a);
      PathOf(0, a);
    }
  }

  /** The entry that marks a page as reserved: not present, and huge above the 4 KiB tables. */
  function ReservedEntry(pageSize: nat): Entry
    requires IsMapSize(pageSize)
  {
    if pageSize == 0x1000 then 0x1000 else 0x200000 | 0x80
  }

  /** Walk sees a reservation, at every page of its list, exactly when its pages are 2 MiB ones. */
  lemma ReservationShowsIff(pageSize: nat, i: nat)
    requires IsMapSize(pageSize)
    ensures IsOccupied(Leaf(DepthOf(pageSize), EntryAt(ReservedEntry(pageSize), DepthOf(pageSize), i))) <==> pageSize == 0x200000
  {
    EntryFlags(ReservedEntry(pageSize), DepthOf(pageSize), i);
    ReservedFlags(pageSize);
  }

  lemma ReservedFlags(pageSize: nat)
    requires IsMapSize(pageSize)
    ensures !Present(ReservedEntry(pageSize)) && (Huge(ReservedEntry(pageSize)) <==> pageSize == 0x200000)
  {
  }

  /** A reservation is marked by its page size, with bit 7 for large pages. */
  lemma ReservedEntryIs(pageSize: nat)
    requires IsMapSize(pageSize)
    ensures ReservedEntry(pageSize) == WordOf(pageSize) | (if pageSize == 0x1000 then 0 else 0x80)
  {
    hide WordOf;
    SpanWord(DepthOf(pageSize));
  }

  lemma ReservedAreLeaves(pageSize: nat, n: nat)
    requires IsMapSize(pageSize) && n * pageSize <= KERNEL_END
    ensures AreLeaves(ReservedEntry(pageSize), DepthOf(pageSize), n)
  {
    ReservedFlags(pageSize);
    var e, d := ReservedEntry(pageSize), DepthOf(pageSize);
    hide ReservedEntry, EntryAt, Huge, Present, WordOf;
    if pageSize == 0x200000 {
      MarkedAreLeaves(e, d, n);
    } else {
      forall i: nat | i < n ensures EntryAt(e, d, i) != 0 { SmallReservation(i); }
    }
  }

  /** The i-th entry of a 4 KiB reservation is a multiple of the page size that does not wrap. */
  lemma SmallReservation(i: nat)
    requires i < 0x8000000
    ensures EntryAt(ReservedEntry(0x1000), 3, i) != 0
  {
    hide EntryAt, WordOf;
    SpanWord(3);
    EntryIsWord(0x1000, 3, i);
    WordIsUnique(0x1000 + i * 0x1000, 0);
    ZeroWord();
  }

  /** What is reserved counts as occupied exactly at 2 MiB pages; a 4 KiB reservation still counts as free. */
  lemma ReservedIsFreeIff(m: Pages, m': Pages, x: nat, pageSize: nat, n: nat)
    requires IsMapSize(pageSize) && HasPages(0, m) && HasPages(0, m') && CoversKernel(m) && CoversKernel(m') && AllOccupied(m)
    requires Places(0, m, m', x, DepthOf(pageSize), n, ReservedEntry(pageSize)) && IsFreeRun(m, x, n * pageSize)
    ensures IsFreeRun(m', x, n * pageSize) <==> n == 0 || pageSize == 0x1000
    ensures AllOccupied(m') <==> n == 0 || pageSize == 0x200000
  {
    var e, d := ReservedEntry(pageSize), DepthOf(pageSize);
    ReservedFlags(pageSize);
    ReservedAreLeaves(pageSize, n);
    hide ReservedEntry, EntryAt, Huge, Present, CoversKernel, IsOccupied, Indices, Consistent, MarkedHuge, IsFree, Covers;
    forall a: nat | x <= a < x + n * pageSize
      ensures IsFree(m', a) <==> pageSize == 0x1000
    {
      ReservedAt(m, m', x, pageSize, n, a);
    }
    if n == 0 {
      PlacesKeepsNothing(m, m', x, d, e);
    } else {
      ProductMonotone(pageSize, 1, n);
      assert IsFreeRun(m', x, n * pageSize) ==> IsFree(m', x);
      if pageSize == 0x200000 {
        PlacesKeepsOccupied(m, m', x, d, n, e);
      } else {
        ReservedAt(m, m', x, pageSize, n, x);
        PathOf(0, x);
      }
    }
  }

  /** No address of a reservation is vacant; Walk takes those of a 4 KiB one for free. */
  lemma ReservedAt(m: Pages, m': Pages, x: nat, pageSize: nat, n: nat, a: nat)
    requires IsMapSize(pageSize) && Covers(0, m) && Covers(0, m') && CoversKernel(m')
    requires Places(0, m, m', x, DepthOf(pageSize), n, ReservedEntry(pageSize)) && x + n * pageSize <= KERNEL_END
    requires x <= a < x + n * pageSize
    ensures LeafAt(0, m', a).Leaf? && (IsFree(m', a) <==> pageSize == 0x1000)
    ensures IsOccupied(LeafAt(0, m', a)) <==> pageSize == 0x200000
  {
    var e, d := ReservedEntry(pageSize), DepthOf(pageSize);
    hide ReservedEntry, EntryAt, CoversKernel, IsOccupied, Indices, IsFree, Covers, LeafAt;
    var i := (a - x) / Span(d);
    PageNumberIs(x, pageSize, n, a);
    ReservedAreLeaves(pageSize, n);
    ReservationShowsIff(pageSize, i);
    FreeIsLeaf(m', a);
    assert LeafAt(0, m', a) == AsLeaf(d, EntryAt(e, d, i));
  }

  lemma PageNumberIs(x: nat, pageSize: nat, n: nat, a: nat)
    requires IsMapSize(pageSize) && x <= a < x + n * pageSize
    ensures (a - x) / pageSize < n
  {
  }

  lemma PlacesKeepsNothing(m: Pages, m': Pages, x: nat, d: nat, e: Entry)
    requires HasPages(0, m) && HasPages(0, m') && d <= 3 && Places(0, m, m', x, d, 0, e) && AllOccupied(m)
    ensures AllOccupied(m')
  {
    hide Span, Indices, IsManaged, IsPathFrom, Consistent, MarkedHuge, EntryAt, IsOccupied;
    forall path | path in m' && m'[path].Leaf? ensures IsOccupied(m'[path]) {
      var a := AddressOfPath(0, path);
      PathOf(0, a);
      assert LeafAt(0, m', a) == LeafAt(0, m, a);
    }
  }

  // ----- alignment -----

  /** The page counts with which Map, which aligns to the page count, still gets aligned pages. */
  predicate MapAligns(pageSize: nat, pageCount: nat)
    requires 0 < pageSize && 0 < pageCount
  {
    IsAligned(pageCount, pageSize) || (pageSize == 0x1000 && IsAligned(0x1000, pageCount))
  }

  lemma MultipleAligned(x: nat, m: nat, p: nat)
    requires 0 < m && 0 < p && IsAligned(x, m) && IsAligned(m, p)
    ensures IsAligned(x, p)
  {
    var k, j := x / m, m / p;
    assert x == m * k && m == p * j;
    assert m * k == p * (j * k);
    MultipleMod(p, j * k);
  }

  /** The first multiple of m from 0x1000 on is m itself, or lies below 0x2000. */
  lemma FirstMultiple(m: nat)
    requires 0 < m
    ensures var x := 0x1000 + Chop(0x1000, m); IsAligned(x, m) && (0x1000 <= m ==> x == m) && (m < 0x1000 ==> x < 0x2000)
  {
    hide Chop;
    ChopIsNext(0x1000, m);
    MultipleMod(m, 1);
    ChopBelow(0x1000, m);
    if 0x1000 <= m && 0x1000 + Chop(0x1000, m) < m {
      MultipleIsAtLeast(0x1000 + Chop(0x1000, m), m);
    }
  }

  lemma ChopBelow(x: nat, m: nat)
    requires 0 < m
    ensures Chop(x, m) < m
  {
  }

  lemma MultipleIsAtLeast(x: nat, m: nat)
    requires 0 < x && 0 < m && IsAligned(x, m)
    ensures m <= x
  {
    assert x == m * (x / m);
    ProductMonotone(m, 1, x / m);
  }

  /**
   Wherever the cached interval starts, the run Map is given is page-aligned: exactly for these page
   counts, and for 2 MiB pages that is never below 0x200000 of them.
  */
  lemma MapAlignsIff(pageSize: nat, pageCount: nat)
    requires IsMapSize(pageSize) && 0 < pageCount
    ensures (forall s: nat | IsAligned(s, 0x1000) :: IsAligned(s + Chop(s, pageCount), pageSize)) <==> MapAligns(pageSize, pageCount)
  {
    if MapAligns(pageSize, pageCount) {
      forall s: nat | IsAligned(s, 0x1000) ensures IsAligned(s + Chop(s, pageCount), pageSize) {
        AlignsAt(pageSize, pageCount, s);
      }
    } else {
      FirstMultiple(pageCount);
      assert IsAligned(0x1000, 0x1000);
      MisalignsAt(pageSize, pageCount);
    }
  }

  lemma AlignsAt(pageSize: nat, pageCount: nat, s: nat)
    requires IsMapSize(pageSize) && 0 < pageCount && MapAligns(pageSize, pageCount) && IsAligned(s, 0x1000)
    ensures IsAligned(s + Chop(s, pageCount), pageSize)
  {
    ChopIsNext(s, pageCount);
    if IsAligned(pageCount, pageSize) {
      MultipleAligned(s + Chop(s, pageCount), pageCount, pageSize);
    } else {
      MultipleAligned(s, 0x1000, pageCount);
      assert Chop(s, pageCount) == 0;
    }
  }

  lemma MisalignsAt(pageSize: nat, pageCount: nat)
    requires IsMapSize(pageSize) && 0 < pageCount && !MapAligns(pageSize, pageCount)
    ensures !IsAligned(0x1000 + Chop(0x1000, pageCount), pageSize)
  {
    FirstMultiple(pageCount);
  }

  // ----- the map -----

  /** What every operation keeps of the page table. */
  ghost predicate HasKernelPages(table: PageTable)
    reads table
  {
    && table.Valid() && table.tree.lo == 0 && NoEmpty(table.tree) && KeptMask(table.tree, 3) && table.Lost() == {}
    && HasPages(0, table.Mapping()) && CoversKernel(table.Mapping())
  }

  /** Walk moreover sees all that is mapped or reserved. */
  ghost predicate HasTable(table: PageTable)
    reads table
  {
    HasKernelPages(table) && AllOccupied(table.Mapping())
  }

  ghost predicate IsFreeIn(table: PageTable, x: nat, n: nat)
    reads table
  {
    table.Valid() && CoversKernel(table.Mapping()) && IsFreeRun(table.Mapping(), x, n)
  }

  /** The pages of the run may be set: it is free, or each page is a leaf of its own. */
  ghost predicate IsSettableRun(m: Pages, x: nat, d: nat, n: nat)
    requires d <= 3
  {
    IsRun(0, x, n * Span(d)) && Consistent(m) && Lists(m, x, d, n) && IsPlaceable(m, x, d, n)
  }

  lemma FreeIsSettable(m: Pages, x: nat, d: nat, n: nat)
    requires HasPages(0, m) && CoversKernel(m) && AllOccupied(m) && d <= 3 && IsAligned(x, Span(d)) && IsFreeRun(m, x, n * Span(d))
    ensures IsSettableRun(m, x, d, n)
  {
    hide Span, Consistent, MarkedHuge, CoversKernel, AllOccupied, Lists, IsPlaceable, IsFreeRun, IsVacant, Covers;
    FreeIsVacant(m, x, n * Span(d));
    RunIsListed(0, m, x, d, n);
    VacantIsPlaceable(0, m, x, d, n);
  }

  /** A run of kernel pages, each mapped or reserved at the given size. */
  ghost predicate IsHeldRun(m: Pages, x: nat, pageSize: nat, n: nat)
    requires IsMapSize(pageSize)
  {
    x + n * pageSize <= KERNEL_END && IsAligned(x, pageSize) && IsMappedRun(m, x, DepthOf(pageSize), n)
  }

  /** Exactly the addresses of the run are cleared. */
  ghost predicate IsCleared(m: Pages, m': Pages, x: nat, pageSize: nat, n: nat) {
    IsMapSize(pageSize) && Covers(0, m) && Covers(0, m') && Clears(0, m, m', x, DepthOf(pageSize), n)
  }

  lemma KernelIsRun(x: nat, n: nat)
    requires x + n <= KERNEL_END
    ensures IsRun(0, x, n)
  {
  }

  lemma HeldIsSettable(m: Pages, x: nat, pageSize: nat, n: nat)
    requires IsMapSize(pageSize) && IsHeldRun(m, x, pageSize, n)
    ensures IsSettableRun(m, x, DepthOf(pageSize), n)
  {
    hide Consistent, Lists, PageAt, Apart;
    var d := DepthOf(pageSize);
    KernelIsRun(x, n * pageSize);
    forall i: nat | i < n ensures PageAt(x, d, i) in m && Unsplit(m, PageAt(x, d, i), d) && !IsInside(m[PageAt(x, d, i)], d) {
      ListedPage(m, x, d, n, i);
      assert IsPage(m, PageAt(x, d, i), d);
      PageIsUnsplit(m, PageAt(x, d, i), d);
    }
  }

  lemma PageIsUnsplit(m: Pages, ix: Path, d: nat)
    requires Consistent(m) && ix in m && d <= 3 && IsPage(m, ix, d)
    ensures Unsplit(m, ix, d) && !IsInside(m[ix], d)
  {
  }

  /** No page that counts as free lies in a held run. */
  lemma HeldIsNotFree(m: Pages, x: nat, pageSize: nat, n: nat, a: nat)
    requires HasPages(0, m) && CoversKernel(m) && AllOccupied(m) && IsMapSize(pageSize) && IsHeldRun(m, x, pageSize, n)
    requires InRange(a, x, n * pageSize)
    ensures !IsFree(m, a)
  {
    hide Consistent, Lists, PageAt, Apart, IsOccupied, Span, Indices, MarkedHuge, CoversKernel;
    var d := DepthOf(pageSize);
    KernelIsRun(x, n * pageSize);
    PageOfAddress(0, x, d, n, a);
    var i := (a - x) / Span(d);
    ListedPage(m, x, d, n, i);
    assert IsPage(m, PageAt(x, d, i), d);
    FreeIsLeaf(m, a);
    PathOf(0, a);
    InPageIs(Indices(a), x, d, i);
    SamePageHasLeaf(m, PageAt(x, d, i), Indices(a));
  }

  lemma SamePageHasLeaf(m: Pages, x: Path, y: Path)
    requires Consistent(m) && x in m && y in m && m[x].Leaf? && |x| == 4 && |y| == 4
    requires m[x].depth <= 3 && SamePage(y, x, m[x].depth)
    ensures m[y] == m[x]
  {
  }

  /** No free run has n bytes. */
  ghost predicate HasNoRun(m: Pages, n: nat) {
    CoversKernel(m) && forall y: nat, k: nat | IsFreeRun(m, y, k) :: k < n
  }

  /** The longest free run there is, which the scan has left in the cache, has no aligned place for n bytes. */
  ghost predicate HasNoSpace(m: Pages, start: nat, size: nat, n: nat, align: nat) {
    && 0 < align && CoversKernel(m) && IsFreeRun(m, start, size) && IsLongest(m, KERNEL_END, size)
    && !HasSpace(start, size, n, align)
  }

  lemma AlignedBehind(x: nat, pageSize: nat, n: nat)
    requires IsMapSize(pageSize) && IsAligned(x, pageSize)
    ensures IsAligned(x + n * pageSize, 0x1000)
  {
    AddMultiple(x, pageSize, n);
    PageSizeAligned(x + n * pageSize, pageSize);
  }

  lemma PageSizeAligned(x: nat, pageSize: nat)
    requires IsMapSize(pageSize) && IsAligned(x, pageSize)
    ensures IsAligned(x, 0x1000)
  {
  }

  lemma MaskOccupies(phys: bv64, pageSize: nat, attributes: Attributes)
    requires IsMapSize(pageSize)
    ensures Occupies(WithMask(phys, CalcMask(pageSize, true, attributes)), DepthOf(pageSize))
  {
  }

  lemma EntryIsLeaf(e: Entry, pageSize: nat, n: nat)
    requires IsMapSize(pageSize) && Occupies(e, DepthOf(pageSize))
    ensures AreLeaves(e, DepthOf(pageSize), n)
  {
    hide Huge, Present, AreLeaves;
    MarkedAreLeaves(e, DepthOf(pageSize), n);
  }

  lemma PartIsFree(m: Pages, x: nat, n: nat, y: nat, k: nat)
    requires CoversKernel(m) && IsFreeRun(m, x, n) && forall a: nat | InRange(a, y, k) :: InRange(a, x, n)
    requires k == 0 ==> y <= KERNEL_END
    ensures IsFreeRun(m, y, k)
  {
    hide CoversKernel, IsFree;
    if 0 < k { assert InRange(y + k - 1, y, k); }
    forall a: nat | y <= a < y + k ensures IsFree(m, a) { assert InRange(a, y, k); }
  }

  lemma CacheMissesHeld(m: Pages, x: nat, pageSize: nat, n: nat, y: nat, k: nat)
    requires HasPages(0, m) && CoversKernel(m) && AllOccupied(m) && IsMapSize(pageSize) && IsHeldRun(m, x, pageSize, n)
    requires IsFreeRun(m, y, k)
    ensures forall a: nat | InRange(a, y, k) :: !InRange(a, x, n * pageSize)
  {
    hide CoversKernel, IsFree, HasPages, AllOccupied, IsHeldRun;
    forall a: nat | InRange(a, y, k) ensures !InRange(a, x, n * pageSize) {
      if InRange(a, x, n * pageSize) { HeldIsNotFree(m, x, pageSize, n, a); }
    }
  }

  /** The run that Map is granted is not aligned to its pages. */
  ghost predicate IsGrantedUnaligned(m: Pages, start: nat, size: nat, pageSize: nat, n: nat, start': nat, size': nat)
    requires 0 < n && 0 < pageSize && CoversKernel(m)
  {
    exists addr: nat | !IsAligned(addr, pageSize) :: IsGranted(m, start, size, n * pageSize, n, addr, start', size')
  }

  lemma UnalignedBy(m: Pages, start: nat, size: nat, pageSize: nat, n: nat, addr: nat, start': nat, size': nat)
    requires 0 < n && 0 < pageSize && CoversKernel(m) && !IsAligned(addr, pageSize)
    requires IsGranted(m, start, size, n * pageSize, n, addr, start', size')
    ensures IsGrantedUnaligned(m, start, size, pageSize, n, start', size')
  {
  }

  lemma JoinedIsAligned(start: nat, size: nat, addr: nat, n: nat)
    requires IsAligned(start, 0x1000) && IsAligned(addr, 0x1000)
    ensures IsAligned(JoinedStart(start, size, addr, n), 0x1000)
  {
  }

  lemma NotAligned(x: nat, pageSize: nat)
    requires 0 < pageSize
    ensures IsAligned(x, pageSize) <==> x % pageSize == 0
  {
  }

  /** An aligned empty run counts as free. */
  lemma EmptyGrant(m: Pages, start: nat, size: nat, pageSize: nat, addr: nat, start': nat, size': nat)
    requires IsMapSize(pageSize) && CoversKernel(m) && IsFreeRun(m, start, size)
    requires IsGranted(m, start, size, 0, pageSize, addr, start', size')
    ensures IsFreeRun(m, addr, 0)
  {
    hide CoversKernel, IsGranted, IsFree;
    var s := GrantIsRoundedUp(m, start, size, 0, pageSize, addr, start', size');
  }

  lemma FreeIsBelow(m: Pages, x: nat, n: nat)
    requires CoversKernel(m) && IsFreeRun(m, x, n)
    ensures x + n <= KERNEL_END
  {
  }

  lemma PlacesNothing(m: Pages, m': Pages, x: nat, d: nat, e: Entry, y: nat, k: nat)
    requires Covers(0, m) && Covers(0, m') && CoversKernel(m) && CoversKernel(m') && d <= 3
    requires Places(0, m, m', x, d, 0, e)
    ensures IsFreeRun(m', y, k) <==> IsFreeRun(m, y, k)
  {
    hide Span, IsOccupied, LeafAt, Covers, CoversKernel, EntryAt, IsFree;
    forall a: nat ensures IsFree(m', a) <==> IsFree(m, a) {
      FreeIsLeaf(m, a);
      FreeIsLeaf(m', a);
    }
  }

  lemma StillCovered(table: PageTable)
    requires HasTable(table)
    ensures table.Valid() && table.tree.lo == 0 && CoversKernel(table.Mapping())
  {
  }

  lemma ClearThenPlace(m: Pages, m1: Pages, m2: Pages, x: nat, d: nat, n: nat, e: Entry)
    requires Covers(0, m) && Covers(0, m1) && Covers(0, m2) && d <= 3
    requires Clears(0, m, m1, x, d, n) && Places(0, m1, m2, x, d, n, e)
    ensures Places(0, m, m2, x, d, n, e)
  {
    hide Covers, Span, EntryAt, LeafAt;
  }

  class GlobalMap {
    const pageTable: PageTable
    const freeFinder: FreeFinder
    /** The calls of DistributeInvlpg, which Shootdown is about. */
    var flushes: seq<Flush>

    /** The cached interval never overlaps an occupied page. */
    ghost predicate Valid()
      reads this, pageTable, freeFinder
    {
      freeFinder.pageTable == pageTable && HasTable(pageTable) && freeFinder.Valid()
    }

    constructor (pt: PageTable)
      requires HasTable(pt)
      ensures Valid() && pageTable == pt && fresh(freeFinder) && flushes == []
    {
      pageTable, flushes := pt, [];
      freeFinder := new FreeFinder(pt);
    }

    /** SetList with the kernel's parent mask, on a run where it goes through. */
    method PlaceRun(addr: nat, entry: Entry, pageSize: nat, pageCount: nat) returns (ok: bool)
      requires HasKernelPages(pageTable) && IsMapSize(pageSize) && IsAligned(addr, pageSize)
      requires AreLeaves(entry, DepthOf(pageSize), pageCount)
      requires IsSettableRun(pageTable.Mapping(), addr, DepthOf(pageSize), pageCount)
      modifies pageTable
      ensures pageTable.Frames() == old(pageTable.Frames())
      ensures if ok then HasKernelPages(pageTable) else pageTable.pool == {}
      ensures ok <==> old(pageTable.HasFrames(addr, pageSize, pageCount))
      ensures ok && Occupies(entry, DepthOf(pageSize)) && old(HasTable(pageTable)) ==> HasTable(pageTable)
      ensures ok ==> Places(0, old(pageTable.Mapping()), pageTable.Mapping(), addr, DepthOf(pageSize), pageCount, entry)
    {
      hide Sound, LostOf, Wf, Sized, NoEmpty, KeptMask, PagesOf, Consistent, MarkedHuge, AllOccupied, Places, Covers, CoversKernel,
        IsAligned, ListPages, NoTables, ListStops, ListOverwrites, Lists, EntryAt, Masked, IsTable, IsRun, IsPlaceable, Apart,
        Huge, Present, Occupies, ListIsShort;
      ghost var m, d := pageTable.Mapping(), DepthOf(pageSize);
      SoundIsWf(pageTable.mem, pageTable.pml4, pageTable.pool, pageTable.tree);
      RunIsApart(0, addr, d, pageCount);
      RunIsSettable(pageTable.tree, addr, d, pageCount, entry);
      KeptMaskIs(pageTable.tree, 3);
      var overwrote;
      ok, overwrote := pageTable.SetList(addr, entry, pageSize, pageCount, 3, false);
      if ok {
        KeptMaskIs(pageTable.tree, 3);
        ListPlaces(0, m, addr, d, pageCount, entry);
        CoversSame(0, m, pageTable.Mapping());
        PlacesKeepsMarks(0, m, pageTable.Mapping(), addr, d, pageCount, entry);
        if Occupies(entry, d) && old(HasTable(pageTable)) {
          PlacesKeepsOccupied(m, pageTable.Mapping(), addr, d, pageCount, entry);
        }
        KernelCovered(pageTable.Mapping());
      }
    }

    method DistInvlpg(start: nat, size: nat)
      modifies this`flushes
      ensures flushes == old(flushes) + [Flush(start, size)]
    {
      flushes := flushes + [Flush(start, size)];
    }

    /**
     Takes a run that nothing was mapped or reserved in, and marks its pages reserved; at 4 KiB pages the
     run still counts as free.  Without pages nothing is taken, but the cache may come to overlap occupied
     memory.
    */
    method Reserve(pageSize: nat, pageCount: nat) returns (r: Outcome)
      requires Valid() && IsMapSize(pageSize)
      modifies pageTable, freeFinder
      ensures pageTable.Frames() == old(pageTable.Frames())
      ensures !r.Misaligned? && if r.Panicked? then pageTable.pool == {} else HasKernelPages(pageTable)
      ensures r.Panicked? ==> exists addr: nat ::
        && IsGranted(old(pageTable.Mapping()), old(freeFinder.freeStart), old(freeFinder.freeSize), pageCount * pageSize, pageSize,
          addr, freeFinder.freeStart, freeFinder.freeSize)
        && !old(pageTable.HasFrames(addr, pageSize, pageCount))
      ensures r.Placed? ==> old(pageTable.HasFrames(r.addr, pageSize, pageCount))
      ensures !r.Panicked? ==>
        (freeFinder.Valid() <==> 0 < pageCount || Chop(old(freeFinder.freeStart), pageSize) <= old(freeFinder.freeSize))
      ensures r.NoSpace? ==>
        && HasTable(pageTable) && HasNoRun(pageTable.Mapping(), pageCount * pageSize + pageSize)
        && HasNoSpace(pageTable.Mapping(), freeFinder.freeStart, freeFinder.freeSize, pageCount * pageSize, pageSize)
        && !HasSpace(old(freeFinder.freeStart), old(freeFinder.freeSize), pageCount * pageSize, pageSize)
        && pageTable.Mapping() == old(pageTable.Mapping())
      ensures r.Placed? ==>
        && CoversKernel(old(pageTable.Mapping()))
        && IsAligned(r.addr, pageSize) && IsFreeRun(old(pageTable.Mapping()), r.addr, pageCount * pageSize)
        && Places(0, old(pageTable.Mapping()), pageTable.Mapping(), r.addr, DepthOf(pageSize), pageCount, ReservedEntry(pageSize))
        && IsGranted(old(pageTable.Mapping()), old(freeFinder.freeStart), old(freeFinder.freeSize), pageCount * pageSize, pageSize,
          r.addr, freeFinder.freeStart, freeFinder.freeSize)
        && (HasTable(pageTable) <==> pageCount == 0 || pageSize == 0x200000)
        && (IsFreeIn(pageTable, r.addr, pageCount * pageSize) <==> pageCount == 0 || pageSize == 0x1000)
    {
      hide Sound, LostOf, NoEmpty, KeptMask, PagesOf, Consistent, MarkedHuge, AllOccupied, Places, Covers, CoversKernel, IsAligned,
        Lists, IsPlaceable, Chop, IsSettableRun, IsFree, IsGranted, IsFreeRun, ReservedEntry, ListIsShort;
      ghost var m, d := pageTable.Mapping(), DepthOf(pageSize);
      var ok, addr := freeFinder.Alloc(pageCount * pageSize, pageSize);
      if !ok {
        return NoSpace;
      }
      if pageCount == 0 {
        EmptyGrant(m, old(freeFinder.freeStart), old(freeFinder.freeSize), pageSize, addr,
          freeFinder.freeStart, freeFinder.freeSize);
      }
      FreeIsSettable(m, addr, d, pageCount);
      FreeIsBelow(m, addr, pageCount * pageSize);
      ReservedAreLeaves(pageSize, pageCount);
      ok := PlaceRun(addr, ReservedEntry(pageSize), pageSize, pageCount);
      if !ok {
        return Outcome.Panicked;
      }
      ReservedIsFreeIff(m, pageTable.Mapping(), addr, pageSize, pageCount);
      AlignedBehind(addr, pageSize, pageCount);
      if 0 < pageCount {
        PlacesKeepsFree(m, pageTable.Mapping(), addr, d, pageCount, ReservedEntry(pageSize),
          freeFinder.freeStart, freeFinder.freeSize);
      } else {
        PlacesNothing(m, pageTable.Mapping(), addr, d, ReservedEntry(pageSize), freeFinder.freeStart, freeFinder.freeSize);
      }
      return Placed(addr);
    }

    /**
     Map takes its run aligned to the page count.  For other page counts than those of MapAligns that may
     leave the pages unaligned, which Set refuses; aligning to a count of 0 divides by it.
    */
    method Map(phys: bv64, pageSize: nat, pageCount: nat, attributes: Attributes) returns (r: Outcome)
      requires Valid() && IsMapSize(pageSize) && 0 < pageCount
      modifies pageTable, freeFinder
      ensures pageTable.Frames() == old(pageTable.Frames())
      ensures if r.Panicked? then pageTable.pool == {} else HasTable(pageTable) && (r.Misaligned? || Valid())
      ensures r.Panicked? ==> exists addr: nat ::
        && IsGranted(old(pageTable.Mapping()), old(freeFinder.freeStart), old(freeFinder.freeSize), pageCount * pageSize, pageCount,
          addr, freeFinder.freeStart, freeFinder.freeSize)
        && !old(pageTable.HasFrames(addr, pageSize, pageCount))
      ensures r.Placed? ==> old(pageTable.HasFrames(r.addr, pageSize, pageCount))
      ensures r.Misaligned? ==>
        && !MapAligns(pageSize, pageCount) && pageTable.Mapping() == old(pageTable.Mapping())
        && IsGrantedUnaligned(pageTable.Mapping(), old(freeFinder.freeStart), old(freeFinder.freeSize), pageSize, pageCount,
          freeFinder.freeStart, freeFinder.freeSize)
      ensures r.NoSpace? ==>
        && HasNoRun(pageTable.Mapping(), pageCount * pageSize + pageCount)
        && HasNoSpace(pageTable.Mapping(), freeFinder.freeStart, freeFinder.freeSize, pageCount * pageSize, pageCount)
        && !HasSpace(old(freeFinder.freeStart), old(freeFinder.freeSize), pageCount * pageSize, pageCount)
        && pageTable.Mapping() == old(pageTable.Mapping())
      ensures r.Placed? ==>
        && CoversKernel(old(pageTable.Mapping()))
        && IsAligned(r.addr, pageSize) && IsFreeRun(old(pageTable.Mapping()), r.addr, pageCount * pageSize)
        && Places(0, old(pageTable.Mapping()), pageTable.Mapping(), r.addr, DepthOf(pageSize), pageCount,
          WithMask(phys, CalcMask(pageSize, true, attributes)))
        && IsGranted(old(pageTable.Mapping()), old(freeFinder.freeStart), old(freeFinder.freeSize), pageCount * pageSize, pageCount,
          r.addr, freeFinder.freeStart, freeFinder.freeSize)
    {
      hide Sound, LostOf, NoEmpty, KeptMask, PagesOf, Consistent, MarkedHuge, AllOccupied, Places, Covers, CoversKernel, IsAligned,
        Lists, IsPlaceable, Chop, IsSettableRun, IsFree, MapAligns, CalcMask, Occupies, IsGranted, IsFreeRun, ListIsShort;
      ghost var m, d := pageTable.Mapping(), DepthOf(pageSize);
      ProductMonotone(pageSize, 1, pageCount);
      var ok, addr := freeFinder.Alloc(pageCount * pageSize, pageCount);
      if !ok {
        return NoSpace;
      }
      ghost var s := GrantIsRoundedUp(m, old(freeFinder.freeStart), old(freeFinder.freeSize), pageCount * pageSize, pageCount,
        addr, freeFinder.freeStart, freeFinder.freeSize);
      if MapAligns(pageSize, pageCount) { AlignsAt(pageSize, pageCount, s); }
      if addr % pageSize != 0 {
        NotAligned(addr, pageSize);
        UnalignedBy(m, old(freeFinder.freeStart), old(freeFinder.freeSize), pageSize, pageCount, addr,
          freeFinder.freeStart, freeFinder.freeSize);
        return Misaligned;
      }
      NotAligned(addr, pageSize);
      FreeIsSettable(m, addr, d, pageCount);
      MaskOccupies(phys, pageSize, attributes);
      var entry := WithMask(phys, CalcMask(pageSize, true, attributes));
      EntryIsLeaf(entry, pageSize, pageCount);
      ok := PlaceRun(addr, entry, pageSize, pageCount);
      if !ok {
        return Outcome.Panicked;
      }
      PlacesKeepsFree(m, pageTable.Mapping(), addr, d, pageCount, entry, freeFinder.freeStart, freeFinder.freeSize);
      AlignedBehind(addr, pageSize, pageCount);
      return Placed(addr);
    }

    /** Reserves a free run that the caller names; at 4 KiB pages it still counts as free. */
    method ReserveAt(addr: nat, pageSize: nat, pageCount: nat) returns (ok: bool)
      requires Valid() && IsMapSize(pageSize) && IsAligned(addr, pageSize)
      requires IsFreeRun(pageTable.Mapping(), addr, pageCount * pageSize)
      modifies pageTable, freeFinder
      ensures pageTable.Frames() == old(pageTable.Frames())
      ensures if ok then HasKernelPages(pageTable) && freeFinder.Valid() else pageTable.pool == {}
      ensures ok <==> old(pageTable.HasFrames(addr, pageSize, pageCount))
      ensures ok ==>
        && Places(0, old(pageTable.Mapping()), pageTable.Mapping(), addr, DepthOf(pageSize), pageCount, ReservedEntry(pageSize))
        && (HasTable(pageTable) <==> pageCount == 0 || pageSize == 0x200000)
        && (IsFreeIn(pageTable, addr, pageCount * pageSize) <==> pageCount == 0 || pageSize == 0x1000)
      ensures IsCutOut(old(freeFinder.freeStart), old(freeFinder.freeSize), addr, pageCount * pageSize,
        freeFinder.freeStart, freeFinder.freeSize)
    {
      hide Sound, LostOf, NoEmpty, KeptMask, PagesOf, Consistent, MarkedHuge, AllOccupied, Places, Covers, CoversKernel, IsAligned,
        Lists, IsPlaceable, IsSettableRun, IsFree, ReservedEntry, ListIsShort;
      ghost var m, d := pageTable.Mapping(), DepthOf(pageSize);
      ghost var start, size := freeFinder.freeStart, freeFinder.freeSize;
      freeFinder.Reserve(addr, pageCount * pageSize);
      PartIsFree(m, start, size, freeFinder.freeStart, freeFinder.freeSize);
      FreeIsSettable(m, addr, d, pageCount);
      ReservedAreLeaves(pageSize, pageCount);
      ok := PlaceRun(addr, ReservedEntry(pageSize), pageSize, pageCount);
      if ok {
        ReservedIsFreeIff(m, pageTable.Mapping(), addr, pageSize, pageCount);
        PlacesKeepsFree(m, pageTable.Mapping(), addr, d, pageCount, ReservedEntry(pageSize),
          freeFinder.freeStart, freeFinder.freeSize);
        AlignedBehind(addr, pageSize, pageCount);
      }
    }

    /** Maps over pages that the caller holds, at the size they are held. */
    method MapAt(addr: nat, phys: bv64, pageSize: nat, pageCount: nat, attributes: Attributes) returns (ok: bool)
      requires Valid() && IsMapSize(pageSize) && IsHeldRun(pageTable.Mapping(), addr, pageSize, pageCount)
      modifies this`flushes, pageTable
      ensures pageTable.Frames() == old(pageTable.Frames())
      ensures ok && Valid() && flushes == old(flushes) + [Flush(addr, pageCount * pageSize)]
      ensures
        && Covers(0, old(pageTable.Mapping())) && Covers(0, pageTable.Mapping())
        && Places(0, old(pageTable.Mapping()), pageTable.Mapping(), addr, DepthOf(pageSize), pageCount,
          WithMask(phys, CalcMask(pageSize, true, attributes)))
    {
      hide Sound, LostOf, NoEmpty, KeptMask, PagesOf, Consistent, MarkedHuge, AllOccupied, Places, Covers, CoversKernel, IsAligned,
        Lists, IsPlaceable, IsSettableRun, IsFree, IsMappedRun, CalcMask, Occupies, ListIsShort;
      ghost var m, d := pageTable.Mapping(), DepthOf(pageSize);
      HeldIsSettable(m, addr, pageSize, pageCount);
      RunHasFrames(pageTable, addr, pageSize, pageCount);
      CacheMissesHeld(m, addr, pageSize, pageCount, freeFinder.freeStart, freeFinder.freeSize);
      MaskOccupies(phys, pageSize, attributes);
      var entry := WithMask(phys, CalcMask(pageSize, true, attributes));
      EntryIsLeaf(entry, pageSize, pageCount);
      ok := PlaceRun(addr, entry, pageSize, pageCount);
      if ok {
        PlacesKeepsFree(m, pageTable.Mapping(), addr, d, pageCount, entry, freeFinder.freeStart, freeFinder.freeSize);
        DistInvlpg(addr, pageCount * pageSize);
      }
    }

    /** Unset the pages of a run that the caller holds. */
    method ClearRun(addr: nat, pageSize: nat, pageCount: nat) returns (ok: bool)
      requires Valid() && IsMapSize(pageSize) && IsHeldRun(pageTable.Mapping(), addr, pageSize, pageCount)
      modifies pageTable
      ensures pageTable.Frames() == old(pageTable.Frames())
      ensures ok && Valid()
      ensures IsCleared(old(pageTable.Mapping()), pageTable.Mapping(), addr, pageSize, pageCount)
      ensures IsFreeIn(pageTable, addr, pageCount * pageSize)
      ensures pageTable.HasFrames(addr, pageSize, pageCount)
    {
      hide Sound, LostOf, NoEmpty, KeptMask, PagesOf, Consistent, MarkedHuge, AllOccupied, Clears, Covers, CoversKernel, IsAligned,
        Lists, IsFree, UnlistPages, MappedAt, Apart, ListIsShort;
      ghost var m, d := pageTable.Mapping(), DepthOf(pageSize);
      KernelIsRun(addr, pageCount * pageSize);
      ok := UnsetRun(pageTable, addr, pageSize, pageCount, 0, 3);
      UnlistClears(0, m, addr, d, pageCount);
      CoversSame(0, m, pageTable.Mapping());
      ClearsKeepsMarks(0, m, pageTable.Mapping(), addr, d, pageCount);
      ClearsKeepsOccupied(m, pageTable.Mapping(), addr, d, pageCount);
      KernelCovered(pageTable.Mapping());
      ClearsFrees(m, pageTable.Mapping(), addr, d, pageCount, freeFinder.freeStart, freeFinder.freeSize);
    }

    method Unmap(addr: nat, pageSize: nat, pageCount: nat) returns (ok: bool)
      requires Valid() && IsMapSize(pageSize) && IsHeldRun(pageTable.Mapping(), addr, pageSize, pageCount)
      modifies this`flushes, pageTable, freeFinder
      ensures pageTable.Frames() == old(pageTable.Frames())
      ensures ok && Valid()
      ensures IsCleared(old(pageTable.Mapping()), pageTable.Mapping(), addr, pageSize, pageCount)
      ensures var n, start, size := pageCount * pageSize, old(freeFinder.freeStart), old(freeFinder.freeSize);
        && freeFinder.freeStart == JoinedStart(start, size, addr, n) && freeFinder.freeSize == JoinedSize(start, size, addr, n)
        && flushes == old(flushes) + [Flush(addr, n)]
    {
      hide Sound, Wf, PagesOf, Consistent, MarkedHuge, HasTable, LostOf, CoversKernel, JoinedStart, JoinedSize, IsCleared,
        ListIsShort, IsFreeRun, IsMappedRun, Covers, IsAligned;
      ok := ClearRun(addr, pageSize, pageCount);
      StillCovered(pageTable);
      PageSizeAligned(addr, pageSize);
      freeFinder.Free(addr, pageCount * pageSize);
      JoinedIsAligned(old(freeFinder.freeStart), old(freeFinder.freeSize), addr, pageCount * pageSize);
      DistInvlpg(addr, pageCount * pageSize);
    }

    /** Clears the pages of a run and marks them reserved again; at 4 KiB pages the run then counts as free. */
    method UnmapAndReserve(addr: nat, pageSize: nat, pageCount: nat) returns (ok: bool)
      requires Valid() && IsMapSize(pageSize) && IsHeldRun(pageTable.Mapping(), addr, pageSize, pageCount)
      modifies this`flushes, pageTable
      ensures pageTable.Frames() == old(pageTable.Frames())
      ensures ok && flushes == old(flushes) + [Flush(addr, pageCount * pageSize)]
      ensures HasKernelPages(pageTable) && freeFinder.Valid()
      ensures
        && Covers(0, old(pageTable.Mapping())) && Covers(0, pageTable.Mapping())
        && Places(0, old(pageTable.Mapping()), pageTable.Mapping(), addr, DepthOf(pageSize), pageCount, ReservedEntry(pageSize))
        && (HasTable(pageTable) <==> pageCount == 0 || pageSize == 0x200000)
        && (IsFreeIn(pageTable, addr, pageCount * pageSize) <==> pageCount == 0 || pageSize == 0x1000)
    {
      hide Sound, LostOf, NoEmpty, KeptMask, PagesOf, Consistent, MarkedHuge, AllOccupied, Places, Covers, CoversKernel, IsAligned,
        Lists, IsPlaceable, IsSettableRun, IsFree, Clears, IsMappedRun, ReservedEntry, ListIsShort;
      ghost var m, d := pageTable.Mapping(), DepthOf(pageSize);
      CacheMissesHeld(m, addr, pageSize, pageCount, freeFinder.freeStart, freeFinder.freeSize);
      ok := ClearRun(addr, pageSize, pageCount);
      ghost var m1 := pageTable.Mapping();
      FreeIsSettable(m1, addr, d, pageCount);
      ReservedAreLeaves(pageSize, pageCount);
      ok := PlaceRun(addr, ReservedEntry(pageSize), pageSize, pageCount);
      if ok {
        ReservedIsFreeIff(m1, pageTable.Mapping(), addr, pageSize, pageCount);
        PlacesKeepsFree(m1, pageTable.Mapping(), addr, d, pageCount, ReservedEntry(pageSize),
          freeFinder.freeStart, freeFinder.freeSize);
        ClearThenPlace(m, m1, pageTable.Mapping(), addr, d, pageCount, ReservedEntry(pageSize));
        DistInvlpg(addr, pageCount * pageSize);
      }
    }
  }
}
