/** FreeFinder: one cached interval of free kernel space, refilled by scanning the tables leaf by leaf. */
module FreeFinders {
  import opened Words
  import opened PageTree
  import opened FlatMaps
  import opened PageMemory
  import opened Addresses
  import opened PageTables

  ghost predicate CoversKernel(m: Pages) {
    Consistent(m) && forall a: nat | IsKernel(a) :: Indices(a) in m
  }

  ghost predicate IsFree(m: Pages, a: nat)
    requires CoversKernel(m)
  {
    IsKernel(a) && !IsOccupied(m[Indices(a)])
  }

  /** No address of [x, x + n) is mapped or reserved, as far as Walk can tell. */
  ghost predicate IsFreeRun(m: Pages, x: nat, n: nat)
    requires CoversKernel(m)
  {
    x + n <= KERNEL_END && forall a: nat | x <= a < x + n :: IsFree(m, a)
  }

  // ----- the tiling by leaves -----

  lemma KernelAddress(t: Tree, a: nat)
    requires Wf(t) && t.lo == 0 && IsKernel(a)
    ensures IsAddress(t, Indices(a)) && Indices(a) in PagesOf(t)
  {
    ManagedIndices(0, a);
  }

  lemma KernelIsCovered(t: Tree)
    requires Wf(t) && t.lo == 0
    ensures CoversKernel(PagesOf(t))
  {
    hide Wf, PagesOf, Consistent, Indices;
    PagesAreConsistent(t);
    forall a: nat | IsKernel(a) ensures Indices(a) in PagesOf(t) { KernelAddress(t, a); }
  }

  /** x starts a leaf, or is the end of kernel space. */
  ghost predicate IsBoundary(t: Tree, x: nat) {
    x == KERNEL_END || (x < KERNEL_END && LeafDepth(t, Indices(x)) <= 3 && IsAligned(x, Span(LeafDepth(t, Indices(x)))))
  }

  lemma ZeroIsBoundary(t: Tree)
    ensures IsBoundary(t, 0)
  {
  }

  lemma SpanDivides(d: nat, x: nat)
    requires d <= 3 && IsKernel(x) && IsAligned(x, Span(d))
    ensures x + Span(d) <= KERNEL_END
  {
    EndsAreAligned(d);
    AlignedBelow(x, KERNEL_END, Span(d));
  }

  lemma {:induction false} AlignedDeeper(x: nat, d: nat, d': nat)
    requires d <= d' <= 3 && IsAligned(x, Span(d))
    ensures IsAligned(x, Span(d'))
    decreases d' - d
  {
    if d < d' {
      var s, k := Span(d + 1), x / Span(d);
      assert Span(d) == 512 * s;
      assert x == 512 * s * k;
      assert 512 * s * k == s * (512 * k);
      MultipleMod(s, 512 * k);
      AlignedDeeper(x, d + 1, d');
    }
  }

  /** The start of the depth-d page of x. */
  function PageStartOf(x: nat, d: nat): (b: nat)
    requires d <= 3
    ensures b <= x < b + Span(d) && IsAligned(b, Span(d))
  {
    var b := x - x % Span(d);
    assert b == Span(d) * (x / Span(d));
    MultipleMod(Span(d), x / Span(d));
    b
  }

  /** Kernel addresses of one leaf agree on everything. */
  lemma SameLeaf(t: Tree, x: nat, a: nat)
    requires Wf(t) && t.lo == 0 && IsKernel(x) && IsKernel(a)
    requires LeafDepth(t, Indices(x)) <= 3
    requires var b := PageStartOf(x, LeafDepth(t, Indices(x))); b <= a < b + Span(LeafDepth(t, Indices(x)))
    ensures LeafDepth(t, Indices(a)) == LeafDepth(t, Indices(x))
    ensures Indices(a) in PagesOf(t) && Indices(x) in PagesOf(t) && PagesOf(t)[Indices(a)] == PagesOf(t)[Indices(x)]
  {
    hide Wf, Indices, Span, SamePage, Flat, LeafDepth, IsAddress;
    var d := LeafDepth(t, Indices(x));
    var b := PageStartOf(x, d);
    KernelPage(b, x, d);
    KernelPage(b, a, d);
    SamePageIsEquivalence(Indices(x), Indices(b), Indices(a), d, d);
    SamePageIsEquivalence(Indices(a), Indices(b), Indices(x), d, d);
    SamePageIsEquivalence(Indices(b), Indices(x), Indices(x), d, d);
    SamePageIsEquivalence(Indices(x), Indices(b), Indices(b), d, d);
    KernelAddress(t, x);
    KernelAddress(t, a);
    SameSlot(t, Indices(x), Indices(a));
    PagesAt(t, x);
    PagesAt(t, a);
  }

  lemma PagesAt(t: Tree, a: nat)
    requires Wf(t) && IsAddress(t, Indices(a))
    ensures Indices(a) in PagesOf(t) && PagesOf(t)[Indices(a)] == Flat(t, Indices(a))
  {
  }

  /** A step of the size of the leaf at x leads to the next leaf. */
  lemma NextBoundary(t: Tree, x: nat)
    requires Wf(t) && t.lo == 0 && IsKernel(x) && IsBoundary(t, x)
    ensures var n := Span(LeafDepth(t, Indices(x)));
      && x + n <= KERNEL_END && IsBoundary(t, x + n)
      && CoversKernel(PagesOf(t))
      && forall a: nat | x <= a < x + n :: IsFree(PagesOf(t), a) <==> !IsOccupied(PagesOf(t)[Indices(x)])
  {
    hide Wf, Indices, Span, SamePage, Flat, LeafDepth, IsAddress, PagesOf, IsOccupied, IsAligned, Consistent;
    KernelIsCovered(t);
    var d := LeafDepth(t, Indices(x));
    SpanDivides(d, x);
    AlignedStart(x, d);
    forall a: nat | x <= a < x + Span(d)
      ensures IsFree(PagesOf(t), a) <==> !IsOccupied(PagesOf(t)[Indices(x)])
    {
      SameLeaf(t, x, a);
    }
    var y := x + Span(d);
    if y < KERNEL_END {
      SameLeaf(t, x, y - 1);
      NextAligned(x, d);
      LeafBehind(t, y, d);
    }
  }

  lemma AlignedStart(x: nat, d: nat)
    requires d <= 3 && IsAligned(x, Span(d))
    ensures PageStartOf(x, d) == x
  {
  }

  lemma LeafBehind(t: Tree, y: nat, d: nat)
    requires Wf(t) && t.lo == 0 && 0 < y < KERNEL_END && d <= 3 && LeafDepth(t, Indices(y - 1)) == d && IsAligned(y, Span(d))
    ensures IsBoundary(t, y)
  {
    hide Wf, Indices, Span, SamePage, Flat, LeafDepth, IsAddress, PagesOf, IsAligned;
    LeafDepthIsSmall(t, y);
    var d' := LeafDepth(t, Indices(y));
    if d <= d' {
      AlignedDeeper(y, d, d');
    } else {
      var b := PageStartOf(y, d');
      if b < y {
        SameLeaf(t, y, y - 1);
        assert false;
      }
      assert b == y;
    }
  }

  lemma LeafDepthIsSmall(t: Tree, y: nat)
    ensures LeafDepth(t, Indices(y)) <= 3
  {
  }

  // ----- the search -----

  /** No free run that starts before `upTo` is longer than `size`. */
  ghost predicate IsLongest(m: Pages, upTo: nat, size: nat)
    requires CoversKernel(m)
  {
    forall y: nat, n: nat | y < upTo && IsFreeRun(m, y, n) :: n <= size
  }

  /** No free run that starts below is as long. */
  ghost predicate IsFirst(m: Pages, start: nat, size: nat)
    requires CoversKernel(m)
  {
    forall y: nat, n: nat | y < start && IsFreeRun(m, y, n) :: n < size
  }

  lemma LongestSoFar(m: Pages, upTo: nat, size: nat, larger: nat)
    requires CoversKernel(m) && IsLongest(m, upTo, size) && size < larger
    ensures IsFirst(m, upTo, larger)
  {
    hide CoversKernel, IsFreeRun;
  }

  /** A free stretch followed by an occupied leaf, or by the end, bounds the runs that start in it. */
  lemma StretchEnds(m: Pages, start: nat, end: nat, next: nat, size: nat)
    requires CoversKernel(m) && start <= end <= next <= KERNEL_END && IsLongest(m, start, size)
    requires end < next ==> forall a: nat | end <= a < next :: !IsFree(m, a)
    requires end == next ==> end == KERNEL_END
    ensures IsLongest(m, next, if end - start > size then end - start else size)
  {
    hide CoversKernel, IsFree;
    var best := if end - start > size then end - start else size;
    forall y: nat, n: nat | y < next && IsFreeRun(m, y, n) ensures n <= best {
      FreeWithin(m, y, n, end);
      FreeWithin(m, y, n, y);
    }
  }

  lemma FreeWithin(m: Pages, y: nat, n: nat, a: nat)
    requires CoversKernel(m) && IsFreeRun(m, y, n)
    ensures y <= a < y + n ==> IsFree(m, a)
  {
  }

  // ----- the cache -----

  /**
   A request for n bytes is taken from the interval [s, s + size): the run starts at the first aligned
   address, and the cache is left with what is behind the run.  The size is a 64-bit word: without a check
   it wraps.
  */
  predicate IsTakenFrom(s: nat, size: nat, n: nat, align: nat, addr: nat, start': nat, size': nat)
    requires 0 < align
  {
    addr == s + Chop(s, align) && start' == addr + n && size' == W(size - Chop(s, align) - n)
  }

  /** The request is taken from the old cache if that has room, and else from a longest free run there is. */
  ghost predicate IsSource(m: Pages, start: nat, size: nat, n: nat, align: nat, s: nat, k: nat)
    requires 0 < align && CoversKernel(m)
  {
    if HasSpace(start, size, n, align) then s == start && k == size
    else IsAligned(s, 0x1000) && IsFreeRun(m, s, k) && IsLongest(m, KERNEL_END, k) && HasSpace(s, k, n, align)
  }

  /** The request is granted at addr, and the cache is left as it should be. */
  ghost predicate IsGranted(m: Pages, start: nat, size: nat, n: nat, align: nat, addr: nat, start': nat, size': nat)
    requires 0 < align && CoversKernel(m)
  {
    exists s: nat, k: nat ::
      IsSource(m, start, size, n, align, s, k) && IsAligned(s, 0x1000) && IsTakenFrom(s, k, n, align, addr, start', size')
  }

  lemma GrantedBy(m: Pages, start: nat, size: nat, n: nat, align: nat, s: nat, k: nat, addr: nat, start': nat, size': nat)
    requires 0 < align && CoversKernel(m) && IsAligned(s, 0x1000)
    requires IsSource(m, start, size, n, align, s, k) && IsTakenFrom(s, k, n, align, addr, start', size')
    ensures IsGranted(m, start, size, n, align, addr, start', size')
  {
  }

  lemma GrantIsRoundedUp(m: Pages, start: nat, size: nat, n: nat, align: nat, addr: nat, start': nat, size': nat) returns (s: nat)
    requires 0 < align && CoversKernel(m) && IsFreeRun(m, start, size) && IsGranted(m, start, size, n, align, addr, start', size')
    ensures IsAligned(s, 0x1000) && addr == s + Chop(s, align) && start' == addr + n && s <= KERNEL_END
  {
    hide CoversKernel, IsFree, Chop, IsAligned, W, IsLongest;
    var k: nat;
    s, k :| IsSource(m, start, size, n, align, s, k) && IsAligned(s, 0x1000) && IsTakenFrom(s, k, n, align, addr, start', size');
  }

  /** What CanAllocate says: the aligned run fits, and an empty one always does. */
  predicate HasSpace(start: nat, size: nat, n: nat, align: nat)
    requires 0 < align
  {
    n == 0 || Chop(start, align) + n <= size
  }

  /** Exactly when some aligned run of that length lies in the interval. */
  lemma HasSpaceIff(start: nat, size: nat, n: nat, align: nat)
    requires 0 < align
    ensures HasSpace(start, size, n, align)
      <==> n == 0 || exists x: nat :: start <= x && IsAligned(x, align) && x + n <= start + size
  {
    hide Chop, IsAligned;
    ChopIsNext(start, align);
  }

  lemma TakenIsFree(m: Pages, s: nat, size: nat, n: nat, align: nat)
    requires 0 < align && CoversKernel(m) && IsFreeRun(m, s, size) && Chop(s, align) + n <= size
    ensures IsFreeRun(m, s + Chop(s, align), n)
    ensures IsFreeRun(m, s + Chop(s, align) + n, W(size - Chop(s, align) - n))
  {
    hide CoversKernel, IsFree;
  }

  /**
   An empty request leaves a free interval in the cache if and only if the cached one is not shorter than
   the slice cut off to align it; otherwise the size wraps.
  */
  lemma EmptyRequestKeepsFreeIff(m: Pages, s: nat, size: nat, align: nat)
    requires 0 < align && CoversKernel(m) && IsFreeRun(m, s, size)
    ensures IsFreeRun(m, s + Chop(s, align), W(size - Chop(s, align))) <==> Chop(s, align) <= size
  {
    hide CoversKernel, IsFree, Chop;
    var c := Chop(s, align);
    if c <= size {
      TakenIsFree(m, s, size, 0, align);
    } else {
      assert size - c < 0 && size - c == WORD * ((size - c) / WORD) + W(size - c);
      assert (size - c) / WORD <= -1;
    }
  }

  /** An empty reservation of 2 MiB pages when one page is left: the cache now spans all that lies above. */
  lemma EmptyRequestWraps()
    ensures IsTakenFrom(0x1000, 0x1000, 0, 0x200000, 0x200000, 0x200000, WORD - 0x1FE000)
    ensures Chop(0x1000, 0x200000) > 0x1000
  {
    assert Chop(0x1000, 0x200000) == 0x1FF000;
  }

  /** The cache once a run that touches it is given back; any other run is left for the next scan. */
  function JoinedStart(start: nat, size: nat, addr: nat, n: nat): nat {
    if addr != start + size && addr + n == start then addr else start
  }

  function JoinedSize(start: nat, size: nat, addr: nat, n: nat): nat {
    if addr == start + size || addr + n == start then size + n else size
  }

  /** The cache grows by exactly the run if that touches it, and stays as it is otherwise. */
  lemma JoinedIs(start: nat, size: nat, addr: nat, n: nat, a: nat)
    ensures InRange(a, JoinedStart(start, size, addr, n), JoinedSize(start, size, addr, n))
      <==> InRange(a, start, size) || ((addr == start + size || addr + n == start) && InRange(a, addr, n))
  {
  }

  /** What is left of the cache misses the run, and no part of the old cache that misses it is larger. */
  ghost predicate IsCutOut(start: nat, size: nat, addr: nat, n: nat, start': nat, size': nat) {
    && (forall a: nat | InRange(a, start', size') :: InRange(a, start, size) && !InRange(a, addr, n))
    && (forall y: nat, k: nat | IsPart(y, k, start, size) && (y + k <= addr || addr + n <= y) :: k <= size')
  }

  class FreeFinder {
    const pageTable: PageTable
    var freeStart: nat
    var freeSize: nat

    constructor (pt: PageTable)
      ensures pageTable == pt && freeStart == 0 && freeSize == 0
    {
      pageTable, freeStart, freeSize := pt, 0, 0;
    }

    /** The table is sound and the cached interval is free. */
    ghost predicate Valid()
      reads this, pageTable
    {
      && pageTable.Valid() && pageTable.tree.lo == 0
      && CoversKernel(pageTable.Mapping()) && IsFreeRun(pageTable.Mapping(), freeStart, freeSize)
      && IsAligned(freeStart, 0x1000)
    }

    predicate CanAllocate(size: nat, align: nat)
      requires 0 < align
      reads this
      ensures CanAllocate(size, align) <==> HasSpace(freeStart, freeSize, size, align)
    {
      if size == 0 then true else
      var slice := if freeStart % align != 0 then align - freeStart % align else 0;
      slice < freeSize && freeSize - slice >= size
    }

    /** The scan ends with a longest free run of kernel space in the cache. */
    method UpdateFreeRegion()
      requires Valid()
      modifies this
      ensures Valid() && IsLongest(pageTable.Mapping(), KERNEL_END, freeSize)
      ensures freeSize > old(freeSize) || (freeSize == old(freeSize) && freeStart == old(freeStart))
      ensures freeSize > old(freeSize) ==> IsFirst(pageTable.Mapping(), freeStart, freeSize)
    {
      hide Sound, Wf, Indices, Span, PagesOf, IsOccupied, IsAligned, CoversKernel, IsFree, IsBoundary, LeafDepth, IsLongest;
      ghost var m, t := pageTable.Mapping(), pageTable.tree;
      SoundIsWf(pageTable.mem, pageTable.pml4, pageTable.pool, t);
      ZeroIsBoundary(t);
      NothingBelowZero(m, freeSize);
      var addr := 0;
      while addr < KERNEL_END
        invariant 0 <= addr <= KERNEL_END && IsBoundary(t, addr)
        invariant IsFreeRun(m, freeStart, freeSize) && IsLongest(m, addr, freeSize) && IsAligned(freeStart, 0x1000)
        invariant freeSize > old(freeSize) || (freeSize == old(freeSize) && freeStart == old(freeStart))
        invariant freeSize > old(freeSize) ==> IsFirst(m, freeStart, freeSize)
      {
        var nextStart, nextSize := addr, 0;
        ghost var start, size := freeStart, freeSize;
        assert IsLongest(m, nextStart, size);
        BoundaryIsAligned(t, addr);
        while true
          invariant Valid() && freeStart == start && freeSize == size
          invariant nextStart + nextSize == addr < KERNEL_END && IsBoundary(t, addr)
          invariant forall a: nat | nextStart <= a < addr :: IsFree(m, a)
          decreases KERNEL_END - addr
        {
          KernelAddress(t, addr);
          NextBoundary(t, addr);
          var result, entry, pageSize := pageTable.Walk(nextStart + nextSize);
          addr := addr + pageSize;
          if result >= 0 && entry != 0 {
            break;
          }
          nextSize := nextSize + pageSize;
          if nextStart + nextSize >= KERNEL_END {
            nextSize := KERNEL_END - nextStart;
            break;
          }
        }
        assert nextStart + nextSize <= addr && IsBoundary(t, addr);
        StretchEnds(m, nextStart, nextStart + nextSize, addr, freeSize);
        if nextSize > freeSize {
          LongestSoFar(m, nextStart, freeSize, nextSize);
          freeSize := nextSize;
          freeStart := nextStart;
        }
      }
    }

    /** Cuts the slice before the first aligned address off the cache, and then the run. */
    method Take(size: nat, align: nat) returns (addr: nat)
      requires 0 < align
      modifies this
      ensures IsTakenFrom(old(freeStart), old(freeSize), size, align, addr, freeStart, freeSize)
    {
      hide Chop, W;
      SliceIsChop(freeStart, align);
      WrapsOnce(freeSize, Chop(freeStart, align), size);
      NotSliced(freeSize, size);
      if freeStart % align != 0 {
        freeSize := W(freeSize - (align - freeStart % align));
        freeStart := freeStart + (align - freeStart % align);
      }
      addr := freeStart;
      freeSize := W(freeSize - size);
      freeStart := freeStart + size;
    }

    /**
     Takes an aligned free run out of the cache; fails only when no run of size + align bytes is free.
     An empty request is granted unchecked, and keeps the cache free if and only if that is not shorter
     than the slice cut off.
    */
    method Alloc(size: nat, align: nat) returns (ok: bool, addr: nat)
      requires Valid() && 0 < align
      modifies this
      ensures pageTable.Valid() && pageTable.tree.lo == 0 && CoversKernel(pageTable.Mapping())
      ensures ok ==>
        && IsGranted(pageTable.Mapping(), old(freeStart), old(freeSize), size, align, addr, freeStart, freeSize)
        && IsAligned(addr, align) && freeStart == addr + size
      ensures ok && 0 < size ==>
        IsFreeRun(pageTable.Mapping(), addr, size) && IsFreeRun(pageTable.Mapping(), freeStart, freeSize)
      ensures size == 0 ==>
        ok && (IsFreeRun(pageTable.Mapping(), freeStart, freeSize) <==> Chop(old(freeStart), align) <= old(freeSize))
      ensures !ok ==> Valid() && forall y: nat, n: nat | IsFreeRun(pageTable.Mapping(), y, n) :: n < size + align
      ensures !ok ==> !HasSpace(old(freeStart), old(freeSize), size, align)
      ensures !ok ==> !HasSpace(freeStart, freeSize, size, align) && IsLongest(pageTable.Mapping(), KERNEL_END, freeSize)
    {
      hide Sound, Wf, Indices, PagesOf, IsFree, CoversKernel, IsAligned, Chop, IsFreeRun, W, IsLongest, IsGranted;
      if !CanAllocate(size, align) {
        UpdateFreeRegion();
        if !CanAllocate(size, align) {
          ChopIsSmall(freeStart, align);
          LongestBounds(pageTable.Mapping(), freeStart, freeSize, size, align);
          return false, 0;
        }
      }
      ghost var s, k := freeStart, freeSize;
      ChopIsNext(s, align);
      addr := Take(size, align);
      GrantedBy(pageTable.Mapping(), old(freeStart), old(freeSize), size, align, s, k, addr, freeStart, freeSize);
      if 0 < size {
        TakenIsFree(pageTable.Mapping(), s, k, size, align);
      } else {
        EmptyRequestKeepsFreeIff(pageTable.Mapping(), s, k, align);
      }
      return true, addr;
    }

    /** A chunk next to the cached interval joins it. */
    method Free(addr: nat, size: nat)
      requires pageTable.Valid() && pageTable.tree.lo == 0 && CoversKernel(pageTable.Mapping())
      requires IsFreeRun(pageTable.Mapping(), freeStart, freeSize) && IsFreeRun(pageTable.Mapping(), addr, size)
      modifies this
      ensures CoversKernel(pageTable.Mapping()) && IsFreeRun(pageTable.Mapping(), freeStart, freeSize)
      ensures freeStart == JoinedStart(old(freeStart), old(freeSize), addr, size)
      ensures freeSize == JoinedSize(old(freeStart), old(freeSize), addr, size)
      ensures var touches := addr == old(freeStart + freeSize) || addr + size == old(freeStart);
        forall a: nat ::
          InRange(a, freeStart, freeSize) <==> old(InRange(a, freeStart, freeSize)) || (touches && InRange(a, addr, size))
    {
      if addr == freeStart + freeSize {
        freeSize := freeSize + size;
      } else if addr + size == freeStart {
        freeSize := freeSize + size;
        freeStart := freeStart - size;
      }
    }

    /** Withdraws a run from the cache and keeps the larger of what is left before and behind it. */
    method Reserve(addr: nat, size: nat)
      modifies this
      ensures IsCutOut(old(freeStart), old(freeSize), addr, size, freeStart, freeSize)
      ensures freeStart == old(freeStart) || freeStart == addr + size
      ensures var left, right := addr - old(freeStart), old(freeStart + freeSize) - (addr + size);
        0 < left && 0 < right ==> freeStart == if left > right then old(freeStart) else addr + size
    {
      if addr > freeStart + freeSize || addr + size <= freeStart {
        return;
      }
      var leftSize, rightSize := 0, 0;
      if addr > freeStart {
        leftSize := addr - freeStart;
      }
      if addr + size < freeStart + freeSize {
        rightSize := freeStart + freeSize - (addr + size);
      }
      if leftSize == 0 && rightSize == 0 {
        freeSize := 0;
        return;
      }
      if leftSize > rightSize {
        freeSize := leftSize;
      } else {
        freeStart := freeStart + (freeSize - rightSize);
        freeSize := rightSize;
      }
    }
  }

  lemma NotSliced(k: nat, n: nat)
    ensures W(k - n) == W(k - 0 - n)
  {
  }

  /** Subtracting in two steps or in one leaves the same word. */
  lemma WrapsOnce(k: nat, c: nat, n: nat)
    ensures W(W(k - c) - n) == W(k - c - n)
  {
    var q := (k - c) / WORD;
    assert k - c == WORD * q + W(k - c);
    var r := (W(k - c) - n) / WORD;
    assert W(k - c) - n == WORD * r + W(W(k - c) - n);
    assert k - c - n == WORD * (q + r) + W(W(k - c) - n);
    ModUnique(k - c - n, q + r, W(W(k - c) - n));
  }

  lemma ModUnique(x: int, q: int, r: nat)
    requires x == WORD * q + r && r < WORD
    ensures W(x) == r
  {
  }

  /** When the longest free run is too short for a request, none of size + align bytes is free. */
  lemma LongestBounds(m: Pages, start: nat, size: nat, n: nat, align: nat)
    requires 0 < align && CoversKernel(m) && IsLongest(m, KERNEL_END, size) && !HasSpace(start, size, n, align)
    ensures forall y: nat, k: nat | IsFreeRun(m, y, k) :: k < n + align
  {
    hide CoversKernel, IsFree;
    ChopIsSmall(start, align);
  }

  predicate InRange(a: nat, x: nat, n: nat) { x <= a < x + n }

  /** [y, y + n) lies in [x, x + size). */
  predicate IsPart(y: nat, n: nat, x: nat, size: nat) { x <= y && y + n <= x + size }

  lemma ChopIsSmall(x: nat, align: nat)
    requires 0 < align
    ensures Chop(x, align) < align
  {
  }

  lemma SliceIsChop(x: nat, align: nat)
    requires 0 < align
    ensures (if x % align != 0 then align - x % align else 0) == Chop(x, align)
  {
  }

  lemma BoundaryIsAligned(t: Tree, x: nat)
    requires IsBoundary(t, x)
    ensures IsAligned(x, 0x1000)
  {
    if x < KERNEL_END { AlignedDeeper(x, LeafDepth(t, Indices(x)), 3); }
  }

  lemma NothingBelowZero(m: Pages, size: nat)
    requires CoversKernel(m)
    ensures IsLongest(m, 0, size)
  {
  }
}
