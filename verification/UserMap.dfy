/** UserMap: the free list and the page table of one process, kept in step. */
module UserMaps {
  import opened Words
  import opened FreeLists
  import opened LinkedFreeList
  import opened PageTree
  import opened TreeWalks
  import opened FlatMaps
  import opened PageLists
  import opened PageMemory
  import opened Addresses
  import opened PageTables
  import opened PageRuns
  import opened TableRuns
  import opened SelfMap
  import opened UserSpaces
  import opened UserRuns

  /** The two releases of the constructor build the first free list. */
  lemma FirstReleases()
    ensures FreeOf([], KERNEL_END, 0x8000000000, 0xff) == Changed(KERNEL_END, [LOW_REGION])
    ensures FreeOf([LOW_REGION], HIGH_START, 0x800000000, 0xff) == Changed(HIGH_START, Initial().list)
  {
    FreeFromStop([], LOW_REGION, 0);
    FreeFromSkip([LOW_REGION], HIGH_REGION, 0);
    FreeFromStop([LOW_REGION], HIGH_REGION, 1);
  }

  lemma OpIsSized(s: UserState, op: Op)
    requires Inv(s) && Admits(s, op)
    ensures Covers(1, s.pages) && Consistent(s.pages)
    ensures op.IsSized() && IsPageSize(op.pageSize) && CalcDepth(op.pageSize) == DepthOf(op.pageSize)
  {
    hide MarkedHuge, Taken, Canonical, FreeIsUnheld, MappedIsHeld;
    MapSizeIsPageSize(op.pageSize);
  }

  /** The free list never trips over an assertion, and never answers 0 for a run it has. */
  lemma TakenIsSane(s: UserState, op: Op)
    requires Inv(s) && Admits(s, op) && op.Takes()
    ensures IsPageSize(op.pageSize)
    ensures Taken(s.list, op)
      == if op.ReserveAt? then AllocAtOf(s.list, op.at, op.pageSize, op.pageCount) else AllocOf(s.list, op.pageSize, op.pageCount)
    ensures op.Map? || op.Reserve? ==> !Taken(s.list, op).Panicked?
    ensures Taken(s.list, op).Changed? ==> KERNEL_END <= Taken(s.list, op).addr
    ensures op.ReserveAt? && Taken(s.list, op).Changed? ==> Taken(s.list, op).addr == op.at
    ensures !Taken(s.list, op).Changed? ==> Step(s, op) == s
    ensures Taken(s.list, op).Changed? ==> var r, d := Taken(s.list, op), DepthOf(op.pageSize);
      && Consistent(s.pages) && Lists(s.pages, r.addr, d, op.pageCount)
      && Step(s, op) == UserState(r.list,
        if op.Map? then ListPages(s.pages, r.addr, FirstEntry(op), d, op.pageCount) else s.pages,
        s.held + Bytes(r.addr, op.Length()))
  {
    hide Canonical, AllocOf, AllocAtOf, HasPages, FreeIsUnheld, MappedIsHeld, ListPages, FirstEntry, IsRun, HasUserRoom;
    OpIsSized(s, op);
    ProductMonotone(op.pageSize, 1, op.pageCount);
    if !op.ReserveAt? {
      AllocIsLowestFit(s.list, op.pageSize, op.pageCount);
    }
    if Taken(s.list, op).Changed? {
      if op.ReserveAt? { GivenIs(s.list, op); }
      TakenRunWasFree(s, op);
      HasPagesAre(s.pages);
      RunIsListed(1, s.pages, Taken(s.list, op).addr, DepthOf(op.pageSize), op.pageCount);
      RunIsAboveKernel(Taken(s.list, op).addr, op.Length());
    }
  }

  lemma GivenIs(l: seq<Interval>, op: Op)
    requires Canonical(l) && op.IsSized() && op.ReserveAt? && Taken(l, op).Changed?
    ensures Taken(l, op).addr == op.at
  {
    hide Canonical, AllocOf, AllocAtOf, Serving, Slides, Fits, AllocInRegionOf;
    ServedIs(l, op.Asks());
  }

  lemma RunIsAboveKernel(x: nat, n: nat)
    requires IsRun(1, x, n)
    ensures KERNEL_END <= x
  {
  }

  /** Nothing was mapped in the run, and nobody held any of it. */
  ghost predicate WasVacant(s: UserState, x: nat, n: nat) {
    && IsRun(1, x, n) && Covers(1, s.pages) && IsVacant(1, s.pages, x, n)
    && forall a: nat | x <= a < x + n :: a !in s.held
  }

  lemma TakenWasVacant(s: UserState, op: Op)
    requires Inv(s) && Admits(s, op) && op.Takes() && Taken(s.list, op).Changed?
    ensures WasVacant(s, Taken(s.list, op).addr, op.Length())
  {
    hide Canonical, FreeIsUnheld, Taken, IsVacant, MappedIsHeld;
    TakenRunWasFree(s, op);
  }

  /** What SetList asks for, for a run a new mapping was given. */
  lemma MapIsSettable(s: UserState, op: Op, t: Tree)
    requires Inv(s) && Admits(s, op) && op.Map? && Taken(s.list, op).Changed?
    requires Wf(t) && NoEmpty(t) && t.lo == 1 && s.pages == PagesOf(t)
    ensures IsSettable(t, Taken(s.list, op).addr, op.pageSize, op.pageCount, FirstEntry(op))
  {
    hide Canonical, AllocOf, FreeIsUnheld, MappedIsHeld, ListPages, FirstEntry, IsRun, Present, Huge, Taken, PagesOf, Wf,
      NoEmpty, Lists, IsVacant, IsPlaceable, IsAligned, Apart, NoTables, ListStops, IsTable, EntryAt, HasPages;
    var x, d := Taken(s.list, op).addr, DepthOf(op.pageSize);
    TakenRunWasFree(s, op);
    HasPagesAre(s.pages);
    RunIsListed(1, s.pages, x, d, op.pageCount);
    RunIsApart(1, x, d, op.pageCount);
    VacantIsPlaceable(1, s.pages, x, d, op.pageCount);
    FirstEntryIsHuge(op);
    MarkedAreLeaves(FirstEntry(op), d, op.pageCount);
    RunIsSettable(t, x, d, op.pageCount, FirstEntry(op));
  }

  lemma HasPagesAre(m: Pages)
    requires HasPages(1, m)
    ensures Covers(1, m) && Consistent(m)
  {
  }

  lemma MapAtIsSettable(s: UserState, op: Op, t: Tree)
    requires Inv(s) && Admits(s, op) && op.MapAt?
    requires Wf(t) && NoEmpty(t) && t.lo == 1 && s.pages == PagesOf(t)
    ensures IsSettable(t, op.at, op.pageSize, op.pageCount, FirstEntry(op)) && Covers(1, s.pages)
    ensures Step(s, op) == s.(pages := ListPages(s.pages, op.at, FirstEntry(op), DepthOf(op.pageSize), op.pageCount))
    ensures IsRun(1, op.at, op.Length())
    ensures ListOverwrites(s.pages, op.at, FirstEntry(op), DepthOf(op.pageSize), op.pageCount)
      <==> !IsVacant(1, s.pages, op.at, op.Length())
  {
    hide Canonical, FreeIsUnheld, MappedIsHeld, ListPages, FirstEntry, IsRun, Present, Huge, PagesOf, Wf,
      NoEmpty, Lists, IsPlaceable, IsAligned, Apart, NoTables, ListStops, IsTable, EntryAt, MarkedHuge, Consistent, Covers,
      ListOverwrites, Replaces, IsVacant, FreeOf;
    var d := DepthOf(op.pageSize);
    RunIsListed(1, s.pages, op.at, d, op.pageCount);
    RunIsApart(1, op.at, d, op.pageCount);
    FirstEntryIsHuge(op);
    MarkedAreLeaves(FirstEntry(op), d, op.pageCount);
    RunIsSettable(t, op.at, d, op.pageCount, FirstEntry(op));
    OverwritesIsReplaces(s.pages, op.at, op.pageSize, op.pageCount, FirstEntry(op));
    ReplacesIff(1, s.pages, op.at, op.pageSize, op.pageCount);
  }

  /** What the operations that return or keep addresses do to the state. */
  lemma ReturnIsSane(s: UserState, op: Op)
    requires Inv(s) && Admits(s, op) && (op.Unmap? || op.UnmapAndReserve? || op.Unreserve?)
    ensures !op.Unreserve? ==> var d := DepthOf(op.pageSize);
      && IsAligned(op.at, op.pageSize) && IsRun(1, op.at, op.pageSize * op.pageCount)
      && Covers(1, s.pages) && IsMappedRun(s.pages, op.at, d, op.pageCount)
    ensures !op.UnmapAndReserve? ==> FreeOf(s.list, op.at, op.pageSize, op.pageCount).Changed?
    ensures var d := DepthOf(op.pageSize);
      var pages := if op.Unreserve? then s.pages else UnlistPages(s.pages, op.at, d, op.pageCount);
      Step(s, op) == if op.UnmapAndReserve? then s.(pages := pages)
        else UserState(FreeOf(s.list, op.at, op.pageSize, op.pageCount).list, pages, s.held - Bytes(op.at, op.Length()))
  {
    hide Canonical, FreeIsUnheld, MappedIsHeld, UnlistPages, IsRun, Lists, MappedAt, IsAligned, Apart, MarkedHuge,
      Consistent, Covers, FreeOf, LeafAt, IsHeld;
    if op.Unreserve? {
      ReturnedIsFree(s, op.at, op.pageSize, op.pageCount);
    } else {
      var d := DepthOf(op.pageSize);
      RunIsListed(1, s.pages, op.at, d, op.pageCount);
      RunIsApart(1, op.at, d, op.pageCount);
      if op.Unmap? { ReturnedIsFree(s, op.at, op.pageSize, op.pageCount); }
    }
  }

  /** The free list of a new map: the two regions of user memory are released into it. */
  method FirstFreeList() returns (freeList: FreeList)
    ensures freeList.Valid() && freeList.Contents() == Initial().list
    ensures fresh(freeList) && fresh(freeList.spine)
  {
    hide FreeOf, LinkedFreeList.Linked, Values;
    FirstReleases();
    freeList := new FreeList();
    assert freeList.spine == [];
    var panicked := freeList.Free(KERNEL_END, 0x8000000000, 0xff);
    forall i | 0 <= i < |freeList.spine| ensures fresh(freeList.spine[i]) { assert freeList.spine[i] in freeList.spine; }
    panicked := freeList.Free(HIGH_START, 0x800000000, 0xff);
    forall i | 0 <= i < |freeList.spine| ensures fresh(freeList.spine[i]) { assert freeList.spine[i] in freeList.spine; }
  }

  /** Slot 0 of the PML4 holds the kernel's PDPT, present and writable. */
  predicate HasKernel(mem: Memory, pml4: Frame, pdpt: Frame) {
    pml4 in mem && 0 < |mem[pml4]| && mem[pml4][0] == pdpt.base | 3
  }

  lemma FirstIsKernel(mem: Memory, pml4: Frame, pdpt: Frame)
    requires pml4 in mem && 0 < |mem[pml4]| && mem[pml4][0] == WithMask(pdpt.base, 3)
    ensures HasKernel(mem, pml4, pdpt)
  {
  }

  lemma FirstIsStored(mem: Memory, pml4: Frame, pool: set<Frame>, t: Tree)
    requires Sound(mem, pml4, pool, t) && 0 < t.lo
    ensures pml4 in mem && |mem[pml4]| == 512 && mem[pml4][0] == t.first
  {
    hide IsFrame, AddressOf;
    assert Stores(mem, t.tables[[]]);
  }

  /** Every operation keeps the map valid, so slot 0 holds the kernel's PDPT all along. */
  lemma KernelStays(u: UserMap)
    requires u.Valid()
    ensures HasKernel(u.table.mem, u.table.pml4, u.kernel)
  {
    hide Sound, NoEmpty, KeptMask, LostOf, LinkedFreeList.Linked;
    FirstIsStored(u.table.mem, u.table.pml4, u.table.pool, u.table.tree);
  }

  /**
   In a memory that holds the map's PML4 and the kernel's tables, the processor sees every kernel address
   through the map as the kernel's page table maps it.
  */
  lemma KernelIsSeen(u: UserMap, mem: Memory, kernelPml4: Frame, pool: set<Frame>, t: Tree, addr: nat)
    requires u.Valid() && u.table.pml4 in mem && u.table.pml4 in u.table.mem && mem[u.table.pml4] == u.table.mem[u.table.pml4]
    requires Sound(mem, kernelPml4, pool, t) && t.lo == 0 && [0] in t.tables && t.tables[[0]].frame == u.kernel
    requires IsKernel(addr)
    ensures Indices(addr) in PagesOf(t) && Translate(mem, u.table.pml4, addr) == Seen(PagesOf(t)[Indices(addr)], addr)
  {
    hide Sound, NoEmpty, KeptMask, LostOf, LinkedFreeList.Linked, Wf, PagesOf, Indices, Seen, Translate;
    KernelStays(u);
    KernelIsShared(mem, u.table.pml4, kernelPml4, pool, t, addr);
  }

  class UserMap {
    const table: PageTable
    const freeList: FreeList
    /** The calls of DistributeInvlpg, which Shootdown is about. */
    var flushes: seq<Flush>
    ghost var held: iset<nat>
    /** The kernel's PDPT, which every map has in slot 0. */
    ghost const kernel: Frame

    ghost predicate Valid()
      reads this, table, freeList, freeList.spine
    {
      && freeList.Valid() && table.Valid() && table.tree.lo == 1 && table.tree.first == WithMask(kernel.base, 3)
      && NoEmpty(table.tree) && KeptMask(table.tree, 7) && table.Lost() == {}
    }

    ghost function State(): UserState
      requires Valid()
      reads this, table, freeList, freeList.spine
    {
      UserState(freeList.Contents(), table.Mapping(), held)
    }

    /** The caller's allocator has a page left for the PML4; without one the source panics. */
    constructor (pdpt: Frame, pool: set<Frame>)
      requires pool != {} && forall f | f in pool :: IsFrame(f)
      ensures Valid() && State() == Initial() && table.Frames() == pool && flushes == []
      ensures kernel == pdpt && HasKernel(table.mem, table.pml4, pdpt)
      ensures fresh(table) && fresh(freeList) && fresh(freeList.spine)
    {
      hide Sound, NoEmpty, KeptMask, PagesOf, EmptyPages, NewRoot, FreeOf, LinkedFreeList.Linked, Values, IsFrame, Consistent,
        WithMask, IsAddress, Zeros, LostOf, HasKernel;
      var pml4: Frame :| pml4 in pool;
      RootIsSound(1, WithMask(pdpt.base, 3), pml4, pool, 7);
      var slots := NewRoot(WithMask(pdpt.base, 3), pml4);
      table := new PageTable(pml4, map[pml4 := slots], pool - {pml4}, RootTree(1, WithMask(pdpt.base, 3), pml4));
      var list := FirstFreeList();
      freeList := list;
      held := iset{};
      flushes := [];
      kernel := pdpt;
      new;
      FirstIsStored(table.mem, table.pml4, table.pool, table.tree);
      FirstIsKernel(table.mem, table.pml4, pdpt);
    }

    method Map(phys: bv64, pageSize: nat, pageCount: nat, attributes: Attributes) returns (r: Outcome)
      requires Valid() && Inv(State()) && Admits(State(), Op.Map(phys, pageSize, pageCount, attributes))
      modifies this`held, table, freeList, freeList.spine
      ensures if r.Panicked? then table.pool == {} else Valid()
      ensures var taken := Taken(old(State()).list, Op.Map(phys, pageSize, pageCount, attributes));
        taken.Changed? ==> (r.Placed? <==> old(table.HasFrames(taken.addr, pageSize, pageCount)))
      ensures table.Frames() == old(table.Frames())
      ensures var op := Op.Map(phys, pageSize, pageCount, attributes);
        && (r.NoSpace? <==> Taken(old(State()).list, op).Refused?)
        && (r.NoSpace? ==> State() == old(State()))
        && (r.Placed? ==>
          && State() == Step(old(State()), op)
          && Taken(old(State()).list, op).Changed? && r.addr == Taken(old(State()).list, op).addr
          && WasVacant(old(State()), r.addr, op.Length()))
    {
      hide Sound, Wf, NoEmpty, KeptMask, PagesOf, LinkedFreeList.Linked, Values, Inv, Admits, Step, AllocOf, CalcMask,
        HasPages, ListPages, SetPages, Consistent, Taken, NoTables, ListStops, ListOverwrites, Lists, IsTable, EntryAt,
        IsAligned, Masked, Bytes, LeafDepth, Sized, LostOf, ListIsShort;
      ghost var op, s := Op.Map(phys, pageSize, pageCount, attributes), State();
      TakenIsSane(s, op);
      OpIsSized(s, op);
      var addr, panicked := freeList.Alloc(pageSize, pageCount);
      if addr == 0 {
        return NoSpace;
      }
      assert addr >= KERNEL_END;
      SoundIsWf(table.mem, table.pml4, table.pool, table.tree);
      MapIsSettable(s, op, table.tree);
      TakenWasVacant(s, op);
      KeptMaskIs(table.tree, 7);
      var ok, overwrote := table.SetList(addr, WithMask(phys, CalcMask(pageSize, false, attributes)), pageSize, pageCount, 7, false);
      if !ok {
        return Outcome.Panicked;
      }
      KeptMaskIs(table.tree, 7);
      held := held + Bytes(addr, pageSize * pageCount);
      return Placed(addr);
    }

    /** Flushes the TLBs if it replaced a mapping; without pages the flag that says so is never set. */
    method MapAt(addr: Word, phys: bv64, pageSize: nat, pageCount: nat, attributes: Attributes) returns (ok: bool)
      requires Valid() && Inv(State()) && Admits(State(), Op.MapAt(addr, phys, pageSize, pageCount, attributes))
      modifies this`flushes, table
      ensures if ok then Valid() else table.pool == {}
      ensures table.Frames() == old(table.Frames())
      ensures ok ==> State() == Step(old(State()), Op.MapAt(addr, phys, pageSize, pageCount, attributes))
      ensures ok && 0 < pageCount ==>
        && IsRun(1, addr, pageSize * pageCount) && Covers(1, old(State()).pages)
        && if IsVacant(1, old(State()).pages, addr, pageSize * pageCount) then flushes == old(flushes)
          else flushes == old(flushes) + [Flush(addr, pageSize * pageCount)]
      ensures ok <==> old(table.HasFrames(addr, pageSize, pageCount))
    {
      hide Sound, Wf, NoEmpty, KeptMask, PagesOf, LinkedFreeList.Linked, Values, Inv, Admits, Step, CalcMask,
        HasPages, ListPages, SetPages, Consistent, NoTables, ListStops, ListOverwrites, Lists, IsTable, EntryAt,
        IsAligned, Masked, LeafDepth, Sized, IsVacant, LostOf, ListIsShort;
      ghost var op, s := Op.MapAt(addr, phys, pageSize, pageCount, attributes), State();
      OpIsSized(s, op);
      SoundIsWf(table.mem, table.pml4, table.pool, table.tree);
      MapAtIsSettable(s, op, table.tree);
      KeptMaskIs(table.tree, 7);
      var overwrote: bool := *;
      ok, overwrote := table.SetList(addr, WithMask(phys, CalcMask(pageSize, false, attributes)), pageSize, pageCount, 7, overwrote);
      KeptMaskIs(table.tree, 7);
      if ok && overwrote {
        DistInvlpg(addr, pageSize * pageCount);
      }
    }

    method DistInvlpg(start: nat, size: nat)
      modifies this`flushes
      ensures flushes == old(flushes) + [Flush(start, size)]
    {
      flushes := flushes + [Flush(start, size)];
    }

    method Unmap(addr: Word, pageSize: nat, pageCount: nat) returns (ok: bool)
      requires Valid() && Inv(State()) && Admits(State(), Op.Unmap(addr, pageSize, pageCount))
      modifies this, table, freeList, freeList.spine
      ensures ok && Valid() && State() == Step(old(State()), Op.Unmap(addr, pageSize, pageCount))
      ensures table.Frames() == old(table.Frames()) && flushes == old(flushes) + [Flush(addr, pageSize * pageCount)]
      ensures table.HasFrames(addr, pageSize, pageCount)
    {
      hide Sound, Wf, NoEmpty, KeptMask, PagesOf, LinkedFreeList.Linked, Values, Inv, Admits, Step, UnlistPages, Consistent,
        Lists, MappedAt, IsAligned, Covers, IsRun, IsMappedRun, FreeOf, Bytes, LostOf, ListIsShort;
      ghost var op, s := Op.Unmap(addr, pageSize, pageCount), State();
      OpIsSized(s, op);
      ReturnIsSane(s, op);
      ok := UnsetRun(table, addr, pageSize, pageCount, 1, 7);
      var panicked := freeList.Free(addr, pageSize, pageCount);
      DistInvlpg(addr, pageSize * pageCount);
      held := held - Bytes(addr, pageSize * pageCount);
    }

    method UnmapAndReserve(addr: Word, pageSize: nat, pageCount: nat) returns (ok: bool)
      requires Valid() && Inv(State()) && Admits(State(), Op.UnmapAndReserve(addr, pageSize, pageCount))
      modifies this`flushes, table
      ensures ok && Valid() && State() == Step(old(State()), Op.UnmapAndReserve(addr, pageSize, pageCount))
      ensures table.Frames() == old(table.Frames()) && flushes == old(flushes) + [Flush(addr, pageSize * pageCount)]
      ensures table.HasFrames(addr, pageSize, pageCount)
    {
      hide Sound, Wf, NoEmpty, KeptMask, PagesOf, LinkedFreeList.Linked, Values, Inv, Admits, Step, UnlistPages, Consistent,
        Lists, MappedAt, IsAligned, Covers, IsRun, IsMappedRun, FreeOf, LostOf, ListIsShort;
      ghost var op, s := Op.UnmapAndReserve(addr, pageSize, pageCount), State();
      OpIsSized(s, op);
      ReturnIsSane(s, op);
      ok := UnsetRun(table, addr, pageSize, pageCount, 1, 7);
      DistInvlpg(addr, pageSize * pageCount);
    }

    method Reserve(pageSize: nat, pageCount: nat) returns (r: Outcome)
      requires Valid() && Inv(State()) && Admits(State(), Op.Reserve(pageSize, pageCount))
      modifies this`held, freeList, freeList.spine
      ensures !r.Panicked? && Valid() && State() == Step(old(State()), Op.Reserve(pageSize, pageCount))
      ensures var op := Op.Reserve(pageSize, pageCount);
        && (r.NoSpace? <==> Taken(old(State()).list, op).Refused?)
        && (r.NoSpace? ==> State() == old(State()))
        && (r.Placed? ==>
          && Taken(old(State()).list, op).Changed? && r.addr == Taken(old(State()).list, op).addr
          && WasVacant(old(State()), r.addr, op.Length()))
    {
      hide Sound, NoEmpty, KeptMask, PagesOf, LinkedFreeList.Linked, Values, Inv, Admits, Step, AllocOf, Consistent, Taken,
        Lists, Bytes, LostOf;
      ghost var op, s := Op.Reserve(pageSize, pageCount), State();
      TakenIsSane(s, op);
      OpIsSized(s, op);
      var addr, panicked := freeList.Alloc(pageSize, pageCount);
      if addr == 0 {
        return NoSpace;
      }
      TakenWasVacant(s, op);
      held := held + Bytes(addr, pageSize * pageCount);
      return Placed(addr);
    }

    method ReserveAt(addr: Word, pageSize: nat, pageCount: nat) returns (r: Outcome)
      requires Valid() && Inv(State()) && Admits(State(), Op.ReserveAt(addr, pageSize, pageCount))
      modifies this`held, freeList, freeList.spine
      ensures r.Placed? || r.Panicked?
      ensures r.Placed? <==> Taken(old(State()).list, Op.ReserveAt(addr, pageSize, pageCount)).Changed?
      ensures r.Placed? ==> Valid() && State() == Step(old(State()), Op.ReserveAt(addr, pageSize, pageCount))
      ensures r.Placed? ==> r.addr == addr && WasVacant(old(State()), addr, pageSize * pageCount)
    {
      hide Sound, NoEmpty, KeptMask, PagesOf, LinkedFreeList.Linked, Values, Inv, Admits, Step, AllocAtOf, Consistent, Taken,
        Lists, Bytes, LostOf;
      ghost var op, s := Op.ReserveAt(addr, pageSize, pageCount), State();
      TakenIsSane(s, op);
      OpIsSized(s, op);
      var ok, panicked := freeList.AllocAt(addr, pageSize, pageCount);
      if panicked || !ok {
        return Outcome.Panicked;
      }
      TakenWasVacant(s, op);
      held := held + Bytes(addr, pageSize * pageCount);
      return Placed(addr);
    }

    method Unreserve(addr: Word, pageSize: nat, pageCount: nat) returns (ok: bool)
      requires Valid() && Inv(State()) && Admits(State(), Op.Unreserve(addr, pageSize, pageCount))
      modifies this`held, freeList, freeList.spine
      ensures ok && Valid() && State() == Step(old(State()), Op.Unreserve(addr, pageSize, pageCount))
    {
      hide Sound, NoEmpty, KeptMask, PagesOf, LinkedFreeList.Linked, Values, Inv, Admits, Step, FreeOf, Consistent, Bytes,
        Lists, IsMappedRun, MappedAt, UnlistPages, Covers, LostOf;
      ghost var op, s := Op.Unreserve(addr, pageSize, pageCount), State();
      OpIsSized(s, op);
      ReturnIsSane(s, op);
      var panicked := freeList.Free(addr, pageSize, pageCount);
      held := held - Bytes(addr, pageSize * pageCount);
      return true;
    }

    /** The destructor gives back every page of the table, whatever the free list has become. */
    method Destroy()
      requires Valid() && HasPages(1, table.Mapping())
      modifies table
      ensures table.mem == map[] && table.pool == old(table.Frames())
    {
      table.FreeTable(1);
    }
  }
}
