/** Runs of pages in a page table: when SetList and Unset go through for a whole run. */
module TableRuns {
  import opened Words
  import opened PageTree
  import opened TreeWalks
  import opened FlatMaps
  import opened PageLists
  import opened PageMemory
  import opened Addresses
  import opened PageTables
  import opened PageRuns

  /** `Misaligned` stands for the assertion that fails in PageTable::Set on an unaligned address. */
  datatype Outcome = Placed(addr: nat) | NoSpace | Panicked | Misaligned

  /** A range of which all TLBs were told to drop the translations. */
  datatype Flush = Flush(start: nat, size: nat)

  /** No entry of the list is zero, and none is taken for a table. */
  ghost predicate AreLeaves(e: Entry, d: nat, n: nat)
    requires d <= 3
  {
    (d < 3 ==> Huge(e)) && forall i: nat | i < n :: EntryAt(e, d, i) != 0
  }

  lemma MarkedAreLeaves(e: Entry, d: nat, n: nat)
    requires d <= 3 && if d < 3 then Huge(e) else Present(e)
    ensures AreLeaves(e, d, n)
  {
    hide EntryAt, Huge, Present;
    forall i: nat | i < n ensures EntryAt(e, d, i) != 0 {
      EntryFlags(e, d, i);
      MarkedIsNotZero(EntryAt(e, d, i));
    }
  }

  /** A placeable run can be set: no page of it is a table, and no entry is taken for one. */
  lemma RunIsSettable(t: Tree, x: nat, d: nat, n: nat, e: Entry)
    requires Wf(t) && NoEmpty(t) && Consistent(PagesOf(t)) && 2 <= d <= 3
    requires Lists(PagesOf(t), x, d, n) && IsPlaceable(PagesOf(t), x, d, n)
    requires AreLeaves(e, d, n) && Apart(x, d, n)
    ensures NoTables(t, x, d, n)
    ensures forall i | 0 <= i < n :: EntryAt(e, d, i) != 0 && (d == 3 || !IsTable(EntryAt(e, d, i)))
    ensures !ListStops(PagesOf(t), x, e, d, n)
  {
    hide Unsplit, PageAt, PagesOf, Consistent, MarkedHuge, IsInside, EntryAt;
    var m := PagesOf(t);
    PlaceableIsClear(m, x, d, n);
    forall i | 0 <= i < n ensures LeafDepth(t, PageAt(x, d, i)) <= d {
      ListedPage(m, x, d, n, i);
      PageIsAddress(t, PageAt(x, d, i));
      UnsplitHasNoTable(t, PageAt(x, d, i), d);
    }
    forall i | 0 <= i < n ensures EntryAt(e, d, i) != 0 && (d == 3 || !IsTable(EntryAt(e, d, i))) {
      EntryFlags(e, d, i);
      if d < 3 { MarkedIsNotZero(EntryAt(e, d, i)); }
    }
    forall i: nat | i < n ensures Lists(m, x, d, i + 1) && !StopsAt(m, x, e, d, i) {
      NotYetListed(m, x, e, d, n, i);
    }
  }

  lemma MarkedIsNotZero(e: Entry)
    requires Present(e) || Huge(e)
    ensures e != 0 && (Huge(e) ==> !IsTable(e))
  {
  }

  lemma PageIsAddress(t: Tree, ix: Path)
    requires Wf(t) && ix in PagesOf(t)
    ensures IsAddress(t, ix)
  {
  }

  lemma KeptMaskIs(t: Tree, mask: bv64)
    ensures KeptMask(t, mask) <==> Sized(t) && Masked(t, mask)
  {
  }

  /** SetList may be called and will not be stopped. */
  ghost predicate IsSettable(t: Tree, x: nat, pageSize: nat, n: nat, e: Entry)
    requires Wf(t)
  {
    && Consistent(PagesOf(t)) && IsMapSize(pageSize) && IsAligned(x, pageSize)
    && var d := DepthOf(pageSize);
    && Lists(PagesOf(t), x, d, n) && NoTables(t, x, d, n) && !ListStops(PagesOf(t), x, e, d, n)
    && forall i | 0 <= i < n :: EntryAt(e, d, i) != 0 && (d == 3 || !IsTable(EntryAt(e, d, i)))
  }

  /** Some page of the run was mapped before. */
  ghost predicate Replaces(m: Pages, x: nat, pageSize: nat, n: nat)
    requires IsMapSize(pageSize)
  {
    exists i: nat {:trigger PageAt(x, DepthOf(pageSize), i)} | i < n ::
      var ix := PageAt(x, DepthOf(pageSize), i); ix in m && m[ix].Leaf?
  }

  lemma OverwritesIsReplaces(m: Pages, x: nat, pageSize: nat, n: nat, e: Entry)
    requires Consistent(m) && IsMapSize(pageSize)
    requires var d := DepthOf(pageSize); Lists(m, x, d, n) && IsPlaceable(m, x, d, n) && Apart(x, d, n)
    ensures ListOverwrites(m, x, e, DepthOf(pageSize), n) <==> Replaces(m, x, pageSize, n)
  {
    hide Lists, ListPages, PageAt;
    var d := DepthOf(pageSize);
    PlaceableIsClear(m, x, d, n);
    forall i: nat | i < n
      ensures PageAt(x, d, i) in m && Lists(m, x, d, i + 1) && (OverwritesAt(m, x, e, d, i) <==> m[PageAt(x, d, i)].Leaf?)
    {
      ListedPage(m, x, d, n, i);
      NotYetListed(m, x, e, d, n, i);
      assert Unsplit(m, PageAt(x, d, i), d) && !IsInside(m[PageAt(x, d, i)], d);
    }
  }

  /** Something is replaced exactly when some address of the run was mapped or reserved. */
  lemma ReplacesIff(lo: FirstSlot, m: Pages, x: nat, pageSize: nat, n: nat)
    requires HasPages(lo, m) && IsMapSize(pageSize) && IsRun(lo, x, n * pageSize) && IsAligned(x, pageSize)
    requires var d := DepthOf(pageSize); Lists(m, x, d, n) && IsPlaceable(m, x, d, n)
    ensures Replaces(m, x, pageSize, n) <==> !IsVacant(lo, m, x, n * pageSize)
  {
    hide Lists, Consistent, MarkedHuge, PageAt, IsPlaceable, Indices;
    var d := DepthOf(pageSize);
    if !IsVacant(lo, m, x, n * pageSize) {
      var a: nat :| x <= a < x + n * pageSize && !LeafAt(lo, m, a).NoLeaf?;
      PageOfAddress(lo, x, d, n, a);
      PathOf(lo, a);
      PlaceableLeaf(m, x, d, n, (a - x) / Span(d), Indices(a));
    }
    if i: nat :| i < n && PageAt(x, d, i) in m && m[PageAt(x, d, i)].Leaf? {
      RunPage(lo, x, d, n, i);
      PageAtIs(x, d, i);
      assert LeafAt(lo, m, PageAddress(x, d, i)) == m[PageAt(x, d, i)];
      ProductMonotone(Span(d), i, n);
    }
  }

  lemma PageAtIs(x: nat, d: nat, i: nat)
    requires d <= 3
    ensures PageAt(x, d, i) == Indices(PageAddress(x, d, i))
  {
  }

  /** In a placeable page a leaf anywhere is a leaf at its first address. */
  lemma PlaceableLeaf(m: Pages, x: nat, d: nat, n: nat, i: nat, path: Path)
    requires Consistent(m) && d <= 3 && Lists(m, x, d, n) && IsPlaceable(m, x, d, n) && i < n
    requires path in m && |path| == 4 && InPageAt(path, x, d, i) && m[path].Leaf?
    ensures PageAt(x, d, i) in m && m[PageAt(x, d, i)].Leaf?
  {
    ListedPage(m, x, d, n, i);
    var ix := PageAt(x, d, i);
    InPageIs(path, x, d, i);
    assert Unsplit(m, ix, d);
    hide PageAt, InPageAt, SamePage;
    SamePageIsEquivalence(path, ix, ix, d, m[path].depth);
    SamePageIsEquivalence(path, ix, path, m[path].depth, m[path].depth);
  }

  /** All pages of the run are mapped, each as a leaf of its own. */
  ghost predicate IsMappedRun(m: Pages, x: nat, d: nat, n: nat)
    requires d <= 3
  {
    Consistent(m) && Lists(m, x, d, n) && Apart(x, d, n) && MappedAt(m, x, d, n)
  }

  lemma UnlistStarts(m: Pages, x: nat, d: nat, n: nat)
    requires d <= 3 && IsMappedRun(m, x, d, n)
    ensures Consistent(m) && Lists(m, x, d, 0) && Lists(m, x, d, n) && UnlistPages(m, x, d, 0) == m && PageAddress(x, d, 0) == x
  {
  }

  /** Unset finds the next page, and removes just that. */
  lemma UnlistFinds(lo: FirstSlot, m: Pages, t: Tree, x: nat, pageSize: nat, d: nat, i: nat, n: nat)
    requires IsMapSize(pageSize) && d == DepthOf(pageSize) && IsAligned(x, pageSize) && IsRun(lo, x, pageSize * n)
    requires IsMappedRun(m, x, d, n) && i < n && Wf(t) && Lists(m, x, d, i) && PagesOf(t) == UnlistPages(m, x, d, i)
    ensures Consistent(m) && Lists(m, x, d, i + 1) && IsAddress(t, PageAt(x, d, i)) && Found(t, PageAt(x, d, i))
    ensures PageAt(x, d, i) in PagesOf(t) && Consistent(PagesOf(t))
    ensures UnlistPages(m, x, d, i + 1) == UnsetPages(PagesOf(t), PageAt(x, d, i))
    ensures PageAddress(x, d, i + 1) == PageAddress(x, d, i) + pageSize && PageAddress(x, d, i) % 0x1000 == 0
  {
    hide Consistent, Lists, PagesOf, UnlistPages, UnsetPages, PageAt, Apart, Wf, IsRun, IsAligned;
    NotYetListed(m, x, 0, d, n, i);
    ListedPage(m, x, d, n, i);
    UnlistNext(m, x, d, i);
    ListAdvances(x, 0, d, i);
    assert IsPage(m, PageAt(x, d, i), d);
    PageIsAddress(t, PageAt(x, d, i));
    PageIsFound(t, PageAt(x, d, i), d);
    RunPage(lo, x, d, n, i);
    SmallAligned(PageAddress(x, d, i), pageSize);
  }

  lemma SmallAligned(a: nat, pageSize: nat)
    requires IsMapSize(pageSize) && IsAligned(a, pageSize)
    ensures a % 0x1000 == 0
  {
  }

  lemma PageIsFound(t: Tree, ix: Path, d: nat)
    requires Wf(t) && IsAddress(t, ix) && d <= 3 && Consistent(PagesOf(t)) && IsPage(PagesOf(t), ix, d)
    ensures Found(t, ix)
  {
    WalkEnds(t, ix);
  }

  lemma {:induction false} PrefixesAreTables(t: Tree, x: nat, d: nat, n: nat)
    requires d <= 3 && forall i: nat, k: nat | i < n && k <= d :: PageAt(x, d, i)[..k] in t.tables
    ensures ListPrefixes(x, d, n) <= t.tables.Keys
  {
    hide PageAt;
    if 0 < n { PrefixesAreTables(t, x, d, n - 1); }
  }

  /** All tables above the pages of a mapped run are there. */
  lemma RunHasTables(t: Tree, x: nat, d: nat, n: nat)
    requires Wf(t) && d <= 3 && IsMappedRun(PagesOf(t), x, d, n)
    ensures ListPrefixes(x, d, n) <= t.tables.Keys
  {
    hide Wf, PageAt, Consistent, Apart, LeafDepth, ListPrefixes;
    forall i: nat, k: nat | i < n && k <= d ensures PageAt(x, d, i)[..k] in t.tables {
      assert IsPage(PagesOf(t), PageAt(x, d, i), d);
      LeafPath(t, PageAt(x, d, i));
    }
    PrefixesAreTables(t, x, d, n);
  }

  /** So setting them once more takes no frame. */
  lemma RunHasFrames(table: PageTable, x: nat, pageSize: nat, n: nat)
    requires table.Valid() && IsMapSize(pageSize) && IsMappedRun(table.Mapping(), x, DepthOf(pageSize), n)
    ensures table.HasFrames(x, pageSize, n)
  {
    hide Sound, Wf, ListPrefixes, IsMappedRun, LostOf;
    var d := DepthOf(pageSize);
    SoundIsWf(table.mem, table.pml4, table.pool, table.tree);
    RunHasTables(table.tree, x, d, n);
    assert Missing(table.tree, x, d, n) == {};
  }

  lemma KeepsOn(t0: Tree, t: Tree, t': Tree)
    ensures Keeps(t0, t0)
    ensures Keeps(t0, t) && Keeps(t, t') ==> Keeps(t0, t')
  {
  }

  /** Tables that were dropped have left their frames for new ones. */
  lemma ClearedHasFrames(mem: Memory, pml4: Frame, pool: set<Frame>, t: Tree, mem': Memory, pool': set<Frame>, t': Tree, x: nat,
    d: nat, n: nat)
    requires Sound(mem, pml4, pool, t) && Sound(mem', pml4, pool', t') && d <= 3
    requires mem'.Keys + pool' == mem.Keys + pool && LostOf(mem', t') == LostOf(mem, t)
    requires Keeps(t', t) && ListPrefixes(x, d, n) <= t.tables.Keys
    ensures !ListIsShort(t', pool', x, d, n)
  {
    hide Sound, LostOf, ListPrefixes;
    PoolCount(mem, pml4, pool, t, mem', pool', t');
    UnionCount(t'.tables.Keys, ListPrefixes(x, d, n));
    SubsetCount(t'.tables.Keys + ListPrefixes(x, d, n), t.tables.Keys);
  }

  /** Unset every page of a run. */
  method UnsetRun(table: PageTable, addr: nat, pageSize: nat, pageCount: nat, ghost lo: FirstSlot, ghost mask: bv64)
    returns (ok: bool)
    requires table.Valid() && NoEmpty(table.tree) && KeptMask(table.tree, mask)
    requires IsMapSize(pageSize) && IsAligned(addr, pageSize) && IsRun(lo, addr, pageSize * pageCount)
    requires IsMappedRun(table.Mapping(), addr, DepthOf(pageSize), pageCount)
    modifies table`mem, table`pool, table`tree
    ensures ok && table.Valid() && NoEmpty(table.tree) && KeptMask(table.tree, mask)
    ensures table.tree.lo == old(table.tree.lo) && table.tree.first == old(table.tree.first)
    ensures table.Frames() == old(table.Frames()) && table.Lost() == old(table.Lost())
    ensures table.HasFrames(addr, pageSize, pageCount)
    ensures table.Mapping() == UnlistPages(old(table.Mapping()), addr, DepthOf(pageSize), pageCount)
  {
    hide Sound, Wf, NoEmpty, KeptMask, PagesOf, UnlistPages, UnsetPages, Consistent, Lists,
      MappedAt, IsAligned, Sized, PageAddress, Indices, Found, Keeps, Span, IsRun, IsMappedRun, LostOf,
      ListIsShort, ListPrefixes;
    ghost var m, d, t0 := table.Mapping(), DepthOf(pageSize), table.tree;
    SoundIsWf(table.mem, table.pml4, table.pool, t0);
    RunHasTables(t0, addr, d, pageCount);
    KeepsOn(t0, t0, t0);
    UnlistStarts(m, addr, d, pageCount);
    var next := addr;
    for i := 0 to pageCount
      invariant table.Valid() && NoEmpty(table.tree) && KeptMask(table.tree, mask)
      invariant table.tree.lo == t0.lo && table.tree.first == t0.first && Keeps(table.tree, t0)
      invariant table.Frames() == old(table.Frames()) && table.Lost() == old(table.Lost())
      invariant next == PageAddress(addr, d, i)
      invariant Lists(m, addr, d, i) && table.Mapping() == UnlistPages(m, addr, d, i)
    {
      SoundIsWf(table.mem, table.pml4, table.pool, table.tree);
      UnlistFinds(lo, m, table.tree, addr, pageSize, d, i, pageCount);
      ghost var t := table.tree;
      var found := table.Unset(next);
      if !found {
        assert false;
      }
      KeepsOn(table.tree, t, t0);
      next := next + pageSize;
    }
    ClearedHasFrames(old(table.mem), table.pml4, old(table.pool), t0, table.mem, table.pool, table.tree, addr, d, pageCount);
    return true;
  }

  // ----- a new table -----

  ghost function EmptyPages(lo: FirstSlot): Pages {
    imap ix | IsPathFrom(lo, ix) :: NoLeaf
  }

  /** A root table with nothing between its first and its last slot. */
  function NewRoot(first: Entry, pml4: Frame): (slots: seq<Entry>)
    ensures |slots| == 512 && slots[511] == WithMask(pml4.base, 3)
    ensures slots[0] == first && forall i | 1 <= i < 511 :: slots[i] == 0
  {
    [first] + Zeros(510) + [WithMask(pml4.base, 3)]
  }

  function RootTree(lo: FirstSlot, first: Entry, pml4: Frame): Tree {
    Tree(map[[] := Table(pml4, NewRoot(first, pml4))], lo, first)
  }

  lemma RootIsWf(lo: FirstSlot, first: Entry, pml4: Frame, mask: bv64)
    requires IsFrame(pml4) && (lo == 0 ==> first == 0)
    ensures var t := RootTree(lo, first, pml4); Wf(t) && NoEmpty(t) && KeptMask(t, mask)
  {
    hide IsTable, IsFrame, AddressOf, Carries, WithMask, NewRoot;
    ZeroIsNoTable();
    var t := RootTree(lo, first, pml4);
    forall p, i: nat | p in t.tables && |p| < 3 && IsSlot(t, p, i)
      ensures PointerOk(t, p, i) && MaskedAt(t, p, i, mask)
    {
    }
    forall p | p in t.tables ensures PathOk(t, p) {
    }
  }

  lemma RootIsEmpty(lo: FirstSlot, first: Entry, pml4: Frame)
    requires Wf(RootTree(lo, first, pml4)) && (lo == 0 ==> first == 0)
    ensures PagesOf(RootTree(lo, first, pml4)) == EmptyPages(lo)
  {
    hide Wf, IsFrame, AddressOf, IsTable, NewRoot;
    var t := RootTree(lo, first, pml4);
    forall ix | IsAddress(t, ix) ensures Flat(t, ix) == NoLeaf {
      RootSlot(lo, first, pml4, ix);
    }
    forall ix ensures IsAddress(t, ix) <==> IsPathFrom(lo, ix) {
    }
  }

  lemma RootSlot(lo: FirstSlot, first: Entry, pml4: Frame, ix: Path)
    requires Wf(RootTree(lo, first, pml4)) && (lo == 0 ==> first == 0) && IsAddress(RootTree(lo, first, pml4), ix)
    ensures Flat(RootTree(lo, first, pml4), ix) == NoLeaf
  {
    hide Wf, IsFrame, AddressOf, IsTable;
    assert ix[..0] == [];
    assert |ix[..1]| == 1;
    LeafIsAt(RootTree(lo, first, pml4), ix, 0);
  }

  lemma RootIsSound(lo: FirstSlot, first: Entry, pml4: Frame, pool: set<Frame>, mask: bv64)
    requires (lo == 0 ==> first == 0) && (forall f | f in pool :: IsFrame(f)) && pml4 in pool
    ensures var t := RootTree(lo, first, pml4);
      && Sound(map[pml4 := NewRoot(first, pml4)], pml4, pool - {pml4}, t)
      && LostOf(map[pml4 := NewRoot(first, pml4)], t) == {}
      && NoEmpty(t) && KeptMask(t, mask) && PagesOf(t) == EmptyPages(lo)
  {
    hide Wf, IsFrame, NewRoot, PagesOf, EmptyPages, KeptMask, NoEmpty;
    RootIsWf(lo, first, pml4, mask);
    RootIsEmpty(lo, first, pml4);
    var t := RootTree(lo, first, pml4);
    assert IsTableFrame(t, pml4) by { assert t.tables[[]].frame == pml4; }
  }

  // ----- inputs for which Set and Unset surprise -----

  const PAGE: Path := [0, 0, 0, 0]
  const NEXT_PAGE: Path := [0, 0, 0, 1]
  const NEXT_TABLE: Path := [0, 0, 1, 0]

  lemma ExamplePages()
    ensures Consistent(EmptyPages(0)) && PAGE in EmptyPages(0) && NEXT_PAGE in EmptyPages(0) && NEXT_TABLE in EmptyPages(0)
    ensures SamePage(NEXT_PAGE, PAGE, 2) && !SamePage(NEXT_PAGE, PAGE, 3) && !SamePage(NEXT_TABLE, PAGE, 2)
  {
    assert NEXT_PAGE[..3] == [0, 0, 0] == PAGE[..3];
    assert NEXT_PAGE[..4][3] == 1 && PAGE[..4][3] == 0;
    assert NEXT_TABLE[..3][2] == 1 && PAGE[..3][2] == 0;
  }

  lemma OtherTable(x: Path)
    requires |x| == 4
    ensures SamePage(x, NEXT_TABLE, 2) ==> !SamePage(x, PAGE, 3)
  {
    assert x[..3][2] == x[2] == x[..4][2];
    assert NEXT_TABLE[..3][2] == 1 && PAGE[..4][2] == 0;
  }

  lemma ReservedIsNotPresent()
    ensures !Present(0x200080) && Huge(0x200080)
  {
  }

  /** A 4 KiB Set in a 2 MiB reservation is not refused, and clears the rest of it; Unset does not bring it back. */
  lemma SmallSetClearsReservation(e: Entry)
    requires e != 0
    ensures Consistent(EmptyPages(0)) && PAGE in EmptyPages(0) && NEXT_PAGE in EmptyPages(0)
    ensures var m := SetPages(EmptyPages(0), PAGE, 2, 0x200080);
      && Consistent(m) && m[NEXT_PAGE] == Leaf(2, 0x200080) && !Stops(m[PAGE], 3)
      && var m' := SetPages(m, PAGE, 3, e);
        m'[NEXT_PAGE] == NoLeaf && Consistent(m') && UnsetPages(m', PAGE) != m
  {
    ExamplePages();
    ReservedIsNotPresent();
    var m := SetPages(EmptyPages(0), PAGE, 2, 0x200080);
    SetKeepsConsistent(EmptyPages(0), PAGE, 2, 0x200080);
    SetKeepsConsistent(m, PAGE, 3, e);
    hide Consistent, EmptyPages;
    assert UnsetPages(SetPages(m, PAGE, 3, e), PAGE)[NEXT_PAGE] == NoLeaf;
  }

  /** In a mapped 2 MiB page, whose entry has bits 0 and 7 set, the same Set is refused. */
  lemma SmallSetIsRefused(e: Entry)
    requires e & 0x81 == 0x81
    ensures Consistent(EmptyPages(0)) && PAGE in EmptyPages(0) && NEXT_PAGE in EmptyPages(0)
    ensures var m := SetPages(EmptyPages(0), PAGE, 2, e); Stops(m[PAGE], 3) && Stops(m[NEXT_PAGE], 3) && !Stops(m[PAGE], 2)
  {
    ExamplePages();
    PresentBits(e);
    hide Present, Consistent;
  }

  lemma PresentBits(e: Entry)
    requires e & 0x81 == 0x81
    ensures Present(e) && e != 0
  {
  }

  /** A 2 MiB Set over a 4 KiB leaf loses the table of that leaf, in every tree that maps just this. */
  lemma LargeSetLosesTable(t: Tree, e: Entry)
    requires e != 0 && Consistent(EmptyPages(0)) && PAGE in EmptyPages(0)
    requires Wf(t) && NoEmpty(t) && PagesOf(t) == SetPages(EmptyPages(0), PAGE, 3, e)
    ensures FramesOf(t, Subtree(t, PAGE[..3])) != {}
  {
    hide Wf, NoEmpty, PagesOf, FramesOf, Subtree, EmptyPages, Consistent;
    PageIsAddress(t, PAGE);
    SetLosesTablesIff(t, PAGE, 2);
    assert PagesOf(t)[PAGE] == Leaf(3, e) && SamePage(PAGE, PAGE, 2);
  }

  /** Next to a 4 KiB leaf Unset finds something where nothing is mapped; one table on it panics. */
  lemma UnsetFindsNeighbour(e: Entry)
    requires e != 0
    ensures Consistent(EmptyPages(0)) && PAGE in EmptyPages(0) && NEXT_PAGE in EmptyPages(0) && NEXT_TABLE in EmptyPages(0)
    ensures var m := SetPages(EmptyPages(0), PAGE, 3, e);
      && Consistent(m) && m[NEXT_PAGE] == NoLeaf && Settled(m, NEXT_PAGE) && UnsetPages(m, NEXT_PAGE) == m
      && m[NEXT_TABLE] == NoLeaf && !Settled(m, NEXT_TABLE)
  {
    ExamplePages();
    var m := SetPages(EmptyPages(0), PAGE, 3, e);
    SetKeepsConsistent(EmptyPages(0), PAGE, 3, e);
    SamePageIsEquivalence(PAGE, NEXT_PAGE, PAGE, 2, 2);
    SamePageIsEquivalence(NEXT_PAGE, PAGE, PAGE, 2, 2);
    hide Consistent;
    assert m[PAGE] == Leaf(3, e);
    forall x | x in m && SamePage(x, NEXT_TABLE, 2) ensures m[x].NoLeaf? {
      OtherTable(x);
    }
  }

  /** In the middle of a 2 MiB page Unset does not fail: it removes the whole page. */
  lemma UnsetRemovesWholePage(e: Entry)
    requires Huge(e) && e != 0
    ensures Consistent(EmptyPages(0)) && PAGE in EmptyPages(0) && NEXT_PAGE in EmptyPages(0)
    ensures var m := SetPages(EmptyPages(0), PAGE, 2, e);
      && Consistent(m) && m[PAGE] == Leaf(2, e) && Settled(m, NEXT_PAGE) && UnsetPages(m, NEXT_PAGE)[PAGE] == NoLeaf
  {
    ExamplePages();
    SetKeepsConsistent(EmptyPages(0), PAGE, 2, e);
    SamePageIsEquivalence(NEXT_PAGE, PAGE, PAGE, 2, 2);
    hide Consistent, Huge;
  }
}
