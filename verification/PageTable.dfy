/** PageTable: the table pages in memory, edited in place through the self-map. */
module PageTables {
  import opened PageTree
  import opened TreeWalks
  import opened FlatMaps
  import opened PageLists
  import opened PageMemory
  import opened Addresses
  import opened Words

  /** -1 stands for the panic on an unknown page size. */
  function CalcDepth(size: nat): (d: int)
    ensures 0 <= d ==> 1 <= d <= 3 && Span(d) == size
    ensures d < 0 ==> forall k | 1 <= k <= 3 :: Span(k) != size
  {
    if size == 0x1000 then 3 else if size == 0x200000 then 2 else if size == 0x40000000 then 1 else -1
  }

  /** The page sizes the memory maps offer. */
  predicate IsMapSize(pageSize: nat) { pageSize == 0x1000 || pageSize == 0x200000 }

  function DepthOf(pageSize: nat): (d: nat)
    requires IsMapSize(pageSize)
    ensures 2 <= d <= 3 && Span(d) == pageSize && CalcDepth(pageSize) == d
  {
    if pageSize == 0x1000 then 3 else 2
  }

  datatype Attributes = Attributes(writable: bool, executable: bool)

  function CalcMask(pageSize: nat, kernel: bool, attributes: Attributes): (mask: bv64)
    ensures Present(mask) && (Huge(mask) <==> pageSize != 0x1000) && mask & ADDRESS_BITS == 0
  {
    1 | (if pageSize == 0x1000 then 0 else 0x80) | (if kernel then 0x100 else 4)
    | (if attributes.executable then 0 else 0x8000_0000_0000_0000) | (if attributes.writable then 2 else 0)
  }

  lemma PutKeys(t: Tree, p: Path, i: nat, e: Entry)
    requires Sized(t) && p in t.tables && i < 512
    ensures Put(t, p, i, e).tables.Keys == t.tables.Keys
  {
  }

  lemma LinkedKeys(t: Tree, ix: Path, k: nat, f: Frame, mask: bv64)
    requires Wf(t) && IsAddress(t, ix) && k < 3 && ix[..k] in t.tables
    ensures Sized(t) && Link(t, ix[..k], ix[k], f, mask).tables.Keys == t.tables.Keys + {ix[..k + 1]}
  {
    LinkKeys(t, ix, k, f, mask);
  }

  /** The tables of t and those that lead to the slot of depth d. */
  ghost predicate Builds(t0: Tree, t: Tree, ix: Path, d: nat)
    requires |ix| == 4 && d <= 3
  {
    t.tables.Keys == t0.tables.Keys + Prefixes(ix, d)
  }

  /** The same without those below the slot. */
  ghost predicate IsStored(t0: Tree, t: Tree, ix: Path, d: nat)
    requires |ix| == 4 && d <= 3
  {
    t.tables.Keys == t0.tables.Keys + Prefixes(ix, d) - Subtree(t0, ix[..d + 1])
  }

  /** Fewer frames are left than tables are missing above the slot. */
  ghost predicate IsShort(t: Tree, pool: set<Frame>, ix: Path, d: nat)
    requires |ix| == 4 && d <= 3
  {
    |pool| < |MissingAt(t, ix, d)|
  }

  lemma BuildsNext(t0: Tree, t: Tree, t': Tree, ix: Path, k: nat)
    requires |ix| == 4 && k < 3
    ensures Builds(t0, t0, ix, 0)
    ensures Builds(t0, t, ix, k) && t'.tables.Keys == t.tables.Keys + {ix[..k + 1]} ==> Builds(t0, t', ix, k + 1)
  {
    PrefixesNext(ix, k);
  }

  lemma StoreKeys(t0: Tree, t: Tree, ix: Path, d: nat, e: Entry)
    requires Wf(t) && IsAddress(t, ix) && d <= 3 && ix[..d] in t.tables && Builds(t0, t, ix, d)
    ensures Sized(t) && IsStored(t0, PutCut(t, ix[..d], ix[d], e), ix, d)
  {
    CutKeys(t0, t, ix, d, e);
  }

  /** With the pool empty on the way down, more tables are missing than it held. */
  lemma RunsShort(mem: Memory, pml4: Frame, pool: set<Frame>, t: Tree, mem': Memory, pool': set<Frame>, t': Tree, ix: Path,
    k: nat, d: nat)
    requires Sound(mem, pml4, pool, t) && Sound(mem', pml4, pool', t') && IsAddress(t, ix) && k < d <= 3
    requires mem'.Keys + pool' == mem.Keys + pool && LostOf(mem', t') == LostOf(mem, t) && pool' == {}
    requires Builds(t, t', ix, k) && LeafDepth(t, ix) <= k
    ensures IsShort(t, pool, ix, d)
  {
    hide Sound, LostOf, Prefixes, MissingAt;
    TookMissing(mem, pml4, pool, t, mem', pool', t', ix, k);
    SoundIsWf(mem, pml4, pool, t);
    MissingCount(t, ix, k);
    MissingCount(t, ix, d);
  }

  lemma RunsLongEnough(mem: Memory, pml4: Frame, pool: set<Frame>, t: Tree, mem': Memory, pool': set<Frame>, t': Tree, ix: Path,
    d: nat)
    requires Sound(mem, pml4, pool, t) && Sound(mem', pml4, pool', t') && IsAddress(t, ix) && d <= 3
    requires mem'.Keys + pool' == mem.Keys + pool && LostOf(mem', t') == LostOf(mem, t) && Builds(t, t', ix, d)
    ensures !IsShort(t, pool, ix, d)
  {
    hide Sound, LostOf, Prefixes, MissingAt;
    TookMissing(mem, pml4, pool, t, mem', pool', t', ix, d);
  }

  /** The tables of t0 and those above the pages of a list. */
  ghost predicate ListBuilt(t0: Tree, t: Tree, virt: nat, d: nat, n: nat)
    requires d <= 3
  {
    t.tables.Keys == t0.tables.Keys + ListPrefixes(virt, d, n)
  }

  /** Fewer frames are left than tables are missing above the pages of a list. */
  ghost predicate ListIsShort(t: Tree, pool: set<Frame>, virt: nat, d: nat, n: nat)
    requires d <= 3
  {
    |pool| < |Missing(t, virt, d, n)|
  }

  lemma ListBuildsNext(t0: Tree, t: Tree, t': Tree, virt: nat, d: nat, i: nat)
    requires d <= 3
    ensures ListBuilt(t0, t0, virt, d, 0)
    ensures Wf(t) && IsAddress(t, PageAt(virt, d, i)) && LeafDepth(t, PageAt(virt, d, i)) <= d ==>
      ListBuilt(t0, t, virt, d, i) && IsStored(t, t', PageAt(virt, d, i), d) ==> ListBuilt(t0, t', virt, d, i + 1)
  {
    hide Prefixes, PageAt, LeafDepth, Wf, Subtree;
    if Wf(t) && IsAddress(t, PageAt(virt, d, i)) && LeafDepth(t, PageAt(virt, d, i)) <= d {
      NothingBelow(t, PageAt(virt, d, i), d);
    }
  }

  lemma NothingBelow(t: Tree, ix: Path, d: nat)
    requires Wf(t) && IsAddress(t, ix) && d <= 3 && LeafDepth(t, ix) <= d
    ensures Subtree(t, ix[..d + 1]) == {}
  {
    LeafPath(t, ix);
    if d == 3 { NoDeepTable(t, ix[..4]); }
    NoSubtree(t, ix[..d + 1]);
  }

  /** What setting the first i pages of a list has done to the tables. */
  ghost predicate ListAccounts(t0: Tree, lost0: set<Frame>, t: Tree, lost: set<Frame>, virt: nat, d: nat, i: nat)
    requires d <= 3
  {
    && Sprouts(t0, t, d) && lost0 <= lost && (lost == lost0 <==> NoTables(t0, virt, d, i))
    && (NoTables(t0, virt, d, i) ==> Grows(t0, t, d) && ListBuilt(t0, t, virt, d, i))
  }

  lemma AccountsStart(t: Tree, lost: set<Frame>, virt: nat, d: nat)
    requires d <= 3
    ensures NoTables(t, virt, d, 0) && ListAccounts(t, lost, t, lost, virt, d, 0)
  {
    hide Sprouts, Grows, NoTables, ListBuilt;
    GrowsNone(t, d);
    NoTablesNext(t, virt, d, 0);
    ListBuildsNext(t, t, t, virt, d, 0);
  }

  lemma AccountsNext(t0: Tree, lost0: set<Frame>, t: Tree, lost: set<Frame>, t': Tree, lost': set<Frame>, virt: nat, d: nat,
    i: nat)
    requires d <= 3 && Wf(t0) && Wf(t) && t.lo == t0.lo && IsAddress(t, PageAt(virt, d, i))
    requires ListAccounts(t0, lost0, t, lost, virt, d, i)
    requires Sprouts(t, t', d) && (LeafDepth(t, PageAt(virt, d, i)) <= d ==> Grows(t, t', d))
    requires IsStored(t, t', PageAt(virt, d, i), d)
    requires var below := FramesOf(t, Subtree(t, PageAt(virt, d, i)[..d + 1])); below !! lost && lost' == lost + below
    ensures ListAccounts(t0, lost0, t', lost', virt, d, i + 1)
    ensures NoTables(t0, virt, d, i + 1) <==> NoTables(t0, virt, d, i) && LeafDepth(t, PageAt(virt, d, i)) <= d
  {
    hide Sprouts, Grows, NoTables, ListBuilt, IsStored, Wf, LeafDepth, FramesOf, Subtree, PageAt;
    StillNoTable(t0, t, PageAt(virt, d, i), d);
    CutLosesIff(t, PageAt(virt, d, i), d);
    NoTablesNext(t0, virt, d, i);
    GrowsOn(t0, t, t', d);
    ListBuildsNext(t0, t, t', virt, d, i);
  }

  lemma AccountsLose(t0: Tree, lost0: set<Frame>, t: Tree, lost: set<Frame>, virt: nat, d: nat, i: nat)
    requires d <= 3 && ListAccounts(t0, lost0, t, lost, virt, d, i)
    ensures lost == lost0 <==> NoTables(t0, virt, d, i)
  {
    hide Sprouts, Grows, NoTables, ListBuilt;
  }

  /** When the i-th page finds too few frames, the whole list had too few. */
  lemma ListRunsShort(mem: Memory, pml4: Frame, pool: set<Frame>, t: Tree, mem': Memory, pool': set<Frame>, t': Tree, virt: nat,
    d: nat, i: nat, n: nat)
    requires Sound(mem, pml4, pool, t) && Sound(mem', pml4, pool', t') && d <= 3 && i < n
    requires mem'.Keys + pool' == mem.Keys + pool && NoTables(t, virt, d, n)
    requires ListAccounts(t, LostOf(mem, t), t', LostOf(mem', t'), virt, d, i)
    requires IsShort(t', pool', PageAt(virt, d, i), d)
    ensures ListIsShort(t, pool, virt, d, n)
  {
    hide Sound, LostOf, Prefixes, PageAt, Sprouts, Grows, NoTables;
    NoTablesShorter(t, virt, d, i, n);
    PoolCount(mem, pml4, pool, t, mem', pool', t');
    UnionCount(t.tables.Keys, ListPrefixes(virt, d, i));
    PrefixesGrow(virt, d, i + 1, n);
    TwoPartsCount(t.tables.Keys, ListPrefixes(virt, d, i), Prefixes(PageAt(virt, d, i), d), ListPrefixes(virt, d, n));
  }

  lemma ListRunsLongEnough(mem: Memory, pml4: Frame, pool: set<Frame>, t: Tree, mem': Memory, pool': set<Frame>, t': Tree,
    virt: nat, d: nat, n: nat)
    requires Sound(mem, pml4, pool, t) && Sound(mem', pml4, pool', t') && d <= 3
    requires mem'.Keys + pool' == mem.Keys + pool && NoTables(t, virt, d, n)
    requires ListAccounts(t, LostOf(mem, t), t', LostOf(mem', t'), virt, d, n)
    ensures !ListIsShort(t, pool, virt, d, n)
  {
    hide Sound, LostOf, ListPrefixes, Sprouts, Grows, NoTables;
    PoolCount(mem, pml4, pool, t, mem', pool', t');
    UnionCount(t.tables.Keys, ListPrefixes(virt, d, n));
  }

  lemma TwoPartsCount(keys: set<Path>, a: set<Path>, b: set<Path>, all: set<Path>)
    requires a + b <= all
    ensures |a - keys| + |b - (keys + a)| <= |all - keys|
  {
    var c, e := a - keys, b - (keys + a);
    assert c !! e && |c + e| == |c| + |e|;
    SubsetCount(c + e, all - keys);
  }

  lemma SubsetCount(a: set<Path>, b: set<Path>)
    requires a <= b
    ensures |a| <= |b|
  {
    assert b == a + (b - a);
  }

  datatype SetResult = Done(overwrote: bool) | Stopped | OutOfMemory

  lemma LinkMasks(t: Tree, p: Path, i: nat, f: Frame, mask: bv64)
    requires Sized(t) && p in t.tables && i < 512 && IsFrame(f) && IsParentMask(mask)
    ensures Masked(t, mask) ==> Masked(Link(t, p, i, f, mask), mask)
  {
    assert Carries(WithMask(f.base, mask), mask);
    hide Carries, Masked, Linked, IsParentMask, IsFrame;
    if Masked(t, mask) { LinkKeepsMasked(t, p, i, f, WithMask(f.base, mask), mask); }
  }

  lemma PutMasks(t: Tree, p: Path, i: nat, mask: bv64)
    requires Wf(t) && p in t.tables && |p| < 3 && IsSlot(t, p, i) && IsTable(At(t, p, i)) && IsParentMask(mask)
    ensures Masked(t, mask) ==> Masked(Put(t, p, i, WithMask(At(t, p, i), mask)), mask)
  {
    if Masked(t, mask) {
      assert MaskedAt(t, p, i, mask);
      assert Carries(WithMask(At(t, p, i), mask), mask);
      PutKeepsMasked(t, p, i, WithMask(At(t, p, i), mask), mask);
    }
  }

  lemma EntryMasked(t0: Tree, t: Tree, ix: Path, k: nat, mask: bv64)
    requires Wf(t0) && IsAddress(t0, ix) && k < 3 && Descending(t0, t, ix, k)
    requires IsTable(At(t, ix[..k], ix[k])) && IsParentMask(mask)
    ensures var e := WithMask(At(t, ix[..k], ix[k]), mask);
      && SamePointer(At(t, ix[..k], ix[k]), e)
      && Descending(t0, Put(t, ix[..k], ix[k], e), ix, k + 1)
      && (Masked(t, mask) ==> Masked(Put(t, ix[..k], ix[k], e), mask))
  {
    hide IsTable, IsParentMask, AddressOf, FlatDown, Flat, Grows, Filled, Masked, Injective, Rooted, WithMask;
    MaskedBits(At(t, ix[..k], ix[k]), mask);
    DescendMask(t0, t, ix, k, mask);
    assert |ix[..k]| == k;
    PutMasks(t, ix[..k], ix[k], mask);
  }

  lemma StopIsAbove(t: Tree, ix: Path, d: nat)
    requires Wf(t) && IsAddress(t, ix) && d <= 3
    ensures ix in PagesOf(t)
    ensures Stops(PagesOf(t)[ix], d) <==>
      LeafDepth(t, ix) < d && Present(SlotEntryOf(t, ix)) && Huge(SlotEntryOf(t, ix))
  {
    BlockedIsStop(t, ix, d);
    LeafPath(t, ix);
  }

  lemma DescendingGrows(t0: Tree, t: Tree, ix: Path, k: nat, d: nat)
    requires Wf(t0) && IsAddress(t0, ix) && k <= d <= 3 && Descending(t0, t, ix, k)
    ensures Wf(t) && t.lo == t0.lo && t.first == t0.first && Grows(t0, t, d) && Sprouts(t0, t, d)
  {
  }

  lemma StoppedChangesNothing(t0: Tree, t: Tree, ix: Path, k: nat)
    requires Wf(t0) && IsAddress(t0, ix) && k <= 3 && Descending(t0, t, ix, k) && k <= LeafDepth(t0, ix)
    ensures Wf(t) && t.tables.Keys == t0.tables.Keys && PagesOf(t) == PagesOf(t0)
  {
    StoppedIsWf(t0, t, ix, k);
    hide Wf, Flat, Descending, LeafDepth;
    forall x | IsAddress(t0, x) ensures Flat(t, x) == Flat(t0, x) {
      StoppedFlat(t0, t, ix, k, x);
    }
    PagesAre(t, PagesOf(t0));
  }

  lemma StoppedIsWf(t0: Tree, t: Tree, ix: Path, k: nat)
    requires Wf(t0) && IsAddress(t0, ix) && k <= 3 && Descending(t0, t, ix, k) && k <= LeafDepth(t0, ix)
    ensures Wf(t) && t.lo == t0.lo && t.first == t0.first && t.tables.Keys == t0.tables.Keys
  {
  }

  lemma StoppedFlat(t0: Tree, t: Tree, ix: Path, k: nat, x: Path)
    requires Wf(t0) && IsAddress(t0, ix) && k <= 3 && Descending(t0, t, ix, k) && k <= LeafDepth(t0, ix) && IsAddress(t0, x)
    ensures Wf(t) && t.lo == t0.lo && Flat(t, x) == Flat(t0, x)
  {
    hide Flat, LeafDepth, Grows, Filled;
    assert DownAt(t0, t, ix, k, x);
  }

  /** Set reports an overwrite for a leaf of its size, and for a table where it puts a larger leaf. */
  lemma OverwroteIff(t0: Tree, t: Tree, ix: Path, d: nat)
    requires Wf(t0) && IsAddress(t0, ix) && d <= 3 && Descending(t0, t, ix, d)
    ensures Sized(t) && ix[..d] in t.tables
    ensures At(t, ix[..d], ix[d]) != 0 <==> Overwrites(PagesOf(t0)[ix], d) || d < LeafDepth(t0, ix)
  {
    SlotMet(t0, t, ix, d);
    LeafPath(t0, ix);
    assert !IsTable(0);
  }

  lemma SetIsDone(t0: Tree, t: Tree, ix: Path, d: nat, e: Entry, mask: bv64)
    requires Wf(t0) && IsAddress(t0, ix) && d <= 3 && Descending(t0, t, ix, d)
    requires d == 3 || !IsTable(e)
    ensures Sized(t) && ix[..d] in t.tables
    ensures var t' := PutCut(t, ix[..d], ix[d], e);
      && Wf(t') && Sized(t') && t'.lo == t0.lo && t'.first == t0.first
      && Sprouts(t0, t', d) && (LeafDepth(t0, ix) <= d ==> Grows(t0, t', d))
      && Consistent(PagesOf(t0)) && PagesOf(t') == SetPages(PagesOf(t0), ix, d, e)
      && (NoEmpty(t0) && e != 0 ==> NoEmpty(t'))
      && (Masked(t, mask) ==> Masked(t', mask))
    ensures FramesOf(t, Subtree(t, ix[..d] + [ix[d]])) == FramesOf(t0, Subtree(t0, ix[..d + 1]))
  {
    assert !IsTable(0);
    hide AddressOf, IsFrame, IsTable, PagesOf, SetPages, Consistent, SetFlat, Flat, Grows, Sprouts, Masked, NoEmpty, PointersOk,
      Injective, PathsOk, PutCut, LeafDepth;
    DescendPut(t0, t, ix, d, e);
    CutIsOld(t0, t, ix, d);
    SetFlatIsSetPages(t0, PutCut(t, ix[..d], ix[d], e), ix, d, e);
    if Masked(t, mask) { CutKeepsMasked(t, ix[..d], ix[d], e, mask); }
  }

  lemma BelowIsNotLost(mem: Memory, t: Tree, p: Path)
    ensures FramesOf(t, Subtree(t, p)) !! LostOf(mem, t)
  {
    forall f | f in FramesOf(t, Subtree(t, p)) ensures IsTableFrame(t, f) {
      var q :| q in Subtree(t, p) && t.tables[q].frame == f;
    }
  }

  lemma TablesAreFrames(t: Tree)
    ensures forall f :: f in FramesOf(t, Subtree(t, [])) <==> IsTableFrame(t, f)
  {
    forall f ensures f in FramesOf(t, Subtree(t, [])) <==> IsTableFrame(t, f) {
      if IsTableFrame(t, f) {
        var q :| q in t.tables && t.tables[q].frame == f;
        assert q in Subtree(t, []);
      }
    }
  }

  ghost predicate Unlinked(t: Tree, t': Tree, q: Path) {
    && Sized(t) && q in t.tables && q != [] && Parent(q) in t.tables && Last(q) < 512
    && t' == Unlink(t, q)
  }

  lemma PruneBegins(t0: Tree, ix: Path)
    requires Wf(t0) && IsAddress(t0, ix)
    ensures var d := LeafDepth(t0, ix);
      && d <= 3 && Sized(t0) && ix[..d] in t0.tables && (d == 3 || SamePointer(At(t0, ix[..d], ix[d]), 0))
      && Pruning(t0, Put(t0, ix[..d], ix[d], 0), ix, d)
      && forall mask | KeptMask(t0, mask) :: KeptMask(Put(t0, ix[..d], ix[d], 0), mask)
  {
    assert !IsTable(0);
    hide IsTable, IsFrame, AddressOf;
    PruneStart(t0, ix);
    var d := LeafDepth(t0, ix);
    LeafStart(t0, ix, d);
    SlotMet(t0, t0, ix, d);
    forall mask | KeptMask(t0, mask) ensures KeptMask(Put(t0, ix[..d], ix[d], 0), mask) {
      PutKeepsMasked(t0, ix[..d], ix[d], 0, mask);
    }
  }

  lemma PruneGoesOn(t0: Tree, t: Tree, t': Tree, ix: Path, k: nat)
    requires Wf(t0) && IsAddress(t0, ix) && 0 < k <= 3 && Pruning(t0, t, ix, k)
    requires IsZero(t.tables[ix[..k]].slots) && Unlinked(t, t', ix[..k])
    requires forall mask | KeptMask(t0, mask) :: KeptMask(t, mask)
    ensures Pruning(t0, t', ix, k - 1)
    ensures forall mask | KeptMask(t0, mask) :: KeptMask(t', mask)
  {
    PruneStep(t0, t, ix, k);
    hide Masked, Pruning, Unlink, Wf;
    forall mask | KeptMask(t0, mask) ensures KeptMask(t', mask) {
      UnlinkKeepsMasked(t, ix[..k], mask);
    }
  }

  lemma PruningIsWf(t0: Tree, t: Tree, ix: Path, k: nat)
    requires Wf(t0) && IsAddress(t0, ix) && k <= 3 && Pruning(t0, t, ix, k)
    ensures Wf(t) && Sized(t) && t.lo == t0.lo && t.first == t0.first && IsAddress(t, ix) && ix[..k] in t.tables && Keeps(t, t0)
    ensures Consistent(PagesOf(t0)) && PagesOf(t) == UnsetPages(PagesOf(t0), ix)
    ensures NoEmpty(t0) && (k == 0 || !IsZero(t.tables[ix[..k]].slots)) ==> NoEmpty(t)
  {
    hide Flat, PagesOf, UnsetPages, Consistent, PointersOk, IsFrame, Injective;
    UnsetFlatIsUnsetPages(t0, t, ix);
    if NoEmpty(t0) && (k == 0 || !IsZero(t.tables[ix[..k]].slots)) { PruneEnd(t0, t, ix, k); }
  }

  /** Unset's search ends at a huge entry or in a 4 KiB table. */
  ghost predicate Found(t: Tree, ix: Path)
    requires Wf(t) && IsAddress(t, ix)
  {
    LeafDepth(t, ix) == 3 || Huge(SlotEntryOf(t, ix))
  }

  ghost predicate KeptMask(t: Tree, mask: bv64) {
    Sized(t) && Masked(t, mask)
  }

  lemma FindStart(t: Tree, ix: Path)
    requires Wf(t) && IsAddress(t, ix)
    ensures ix[..0] in t.tables && LeafDepth(t, ix) <= 3 && Keeps(t, t)
  {
    assert ix[..0] == [];
  }

  lemma FindStep(t: Tree, ix: Path, k: nat)
    requires Wf(t) && IsAddress(t, ix) && k < 3 && k <= LeafDepth(t, ix)
    ensures Sized(t) && ix[..k] in t.tables
    ensures var e := At(t, ix[..k], ix[k]);
      && (Huge(e) ==> k == LeafDepth(t, ix) && Found(t, ix))
      && (!Huge(e) && !Present(e) ==> k == LeafDepth(t, ix) && !Found(t, ix))
      && (!Huge(e) && Present(e) ==> k < LeafDepth(t, ix) && ix[..k + 1] in t.tables)
    ensures k + 1 == 3 && k < LeafDepth(t, ix) ==> Found(t, ix)
  {
    hide IsFrame, AddressOf;
    LeafPath(t, ix);
    assert PointerOk(t, ix[..k], ix[k]);
    assert ix[..k + 1] == ix[..k] + [ix[k]];
  }

  /** What Walk reports as mapped or reserved. */
  predicate IsOccupied(leaf: Leaf) {
    leaf.Leaf? && (Huge(leaf.entry) || (leaf.depth == 3 && Present(leaf.entry)))
  }

  lemma WalkStep(t: Tree, ix: Path, k: nat)
    requires Wf(t) && IsAddress(t, ix) && k <= 3 && k <= LeafDepth(t, ix)
    ensures Sized(t) && ix[..k] in t.tables
    ensures var e := At(t, ix[..k], ix[k]);
      && (Huge(e) || !Present(e) || k == 3 ==> k == LeafDepth(t, ix) && e == SlotEntryOf(t, ix))
      && (!Huge(e) && Present(e) && k < 3 ==> k < LeafDepth(t, ix) && ix[..k + 1] in t.tables)
  {
    if k < 3 { FindStep(t, ix, k); }
    LeafPath(t, ix);
  }

  lemma WalkEnds(t: Tree, ix: Path)
    requires Wf(t) && IsAddress(t, ix)
    ensures LeafDepth(t, ix) <= 3 && PagesOf(t)[ix] == AsLeaf(LeafDepth(t, ix), SlotEntryOf(t, ix))
    ensures IsOccupied(PagesOf(t)[ix]) <==>
      Huge(SlotEntryOf(t, ix)) || (LeafDepth(t, ix) == 3 && Present(SlotEntryOf(t, ix)))
    ensures SlotEntryOf(t, ix) == 0 ==> !Huge(0) && !Present(0)
  {
  }

  const LARGE_ADDRESS_BITS: bv64 := 0x7FFF_FFFF_FFE0_0000

  datatype ReadResult =
    | NotMapped
    /** Stands for the failed assertion on 1 GiB and larger leaves. */
    | TooLarge
    | Translation(phys: bv64, attributes: Attributes, size: nat)

  /** What an occupied entry of depth 2 or 3 says. */
  function Decoded(depth: nat, entry: Entry): ReadResult
    requires depth <= 3
  {
    Translation(
      if depth == 3 then entry & ADDRESS_BITS else entry & LARGE_ADDRESS_BITS,
      Attributes(entry & 2 != 0, entry & NO_EXECUTE == 0),
      Span(depth))
  }

  function ReadOf(leaf: Leaf): ReadResult {
    if !IsOccupied(leaf) then NotMapped
    else if leaf.depth < 2 || leaf.depth > 3 then TooLarge
    else Decoded(leaf.depth, leaf.entry)
  }

  lemma NextAligned(a: nat, d: nat)
    requires d <= 3
    ensures IsAligned(a, Span(d)) ==> IsAligned(a + Span(d), Span(d))
  {
    if d == 0 { } else if d == 1 { } else if d == 2 { } else { }
  }

  lemma StillNoTable(t0: Tree, t: Tree, ix: Path, d: nat)
    requires Wf(t0) && Wf(t) && t.lo == t0.lo && IsAddress(t0, ix) && d <= 3 && Sprouts(t0, t, d)
    ensures LeafDepth(t0, ix) <= d ==> LeafDepth(t, ix) <= d
    ensures Grows(t0, t, d) ==> (LeafDepth(t0, ix) <= d <==> LeafDepth(t, ix) <= d)
  {
    LeafPath(t0, ix);
    LeafPath(t, ix);
  }

  lemma GrowsOn(t0: Tree, t: Tree, t': Tree, k: nat)
    requires Sprouts(t0, t, k) && Sprouts(t, t', k)
    ensures Sprouts(t0, t', k) && (Grows(t0, t, k) && Grows(t, t', k) ==> Grows(t0, t', k))
  {
  }

  lemma GrowsNone(t: Tree, k: nat)
    ensures Sprouts(t, t, k) && Grows(t, t, k)
  {
  }

  lemma NextToFree(t: Tree, p: Path, i: nat)
    requires Wf(t) && Consistent(PagesOf(t)) && MarkedHuge(PagesOf(t)) && p in t.tables && |p| < 3
    requires i < 512 && (p == [] ==> t.lo <= i < 511)
    ensures |t.tables[p].slots| == 512
    ensures var e := t.tables[p].slots[i];
      && (e == 0 || Huge(e) ==> p + [i] !in t.tables)
      && (e != 0 && !Huge(e) ==> p + [i] in t.tables && AddressOf(e) == t.tables[p + [i]].frame)
  {
    NoStrays(t, p, i);
  }

  class PageTable {
    var pml4: Frame
    /** The table pages, and the frames the allocator still has. */
    var mem: Memory
    var pool: set<Frame>
    ghost var tree: Tree

    ghost predicate Valid()
      reads this
    {
      Sound(mem, pml4, pool, tree)
    }

    constructor (pml4: Frame, mem: Memory, pool: set<Frame>, ghost tree: Tree)
      requires Sound(mem, pml4, pool, tree)
      ensures Valid() && this.tree == tree && this.pml4 == pml4 && this.mem == mem && this.pool == pool
    {
      this.pml4, this.mem, this.pool, this.tree := pml4, mem, pool, tree;
    }

    /** The pages taken from the allocator and those it still has. */
    ghost function Frames(): set<Frame>
      reads this
    {
      mem.Keys + pool
    }

    /** The pages taken that are no table of the tree: nobody will free them. */
    ghost function Lost(): set<Frame>
      reads this
    {
      LostOf(mem, tree)
    }

    /** The pool holds a frame for every table that is missing above the pages of a list. */
    ghost predicate HasFrames(virt: nat, pageSize: nat, n: nat)
      reads this
    {
      var d := CalcDepth(pageSize);
      0 <= d && !ListIsShort(tree, pool, virt, d, n)
    }

    /** What every address is mapped to. */
    ghost function Mapping(): (m: Pages)
      requires Valid()
      reads this
      ensures Consistent(m) && forall x :: x in m <==> IsAddress(tree, x)
    {
      PagesAreConsistent(tree);
      PagesOf(tree)
    }

    /** The entry for an address in its table of the given depth, as the self-map shows it. */
    function GetTableEntry(ix: Path, depth: nat): (e: Entry)
      requires Valid() && IsAddress(tree, ix) && depth <= 3 && ix[..depth] in tree.tables
      reads this
      ensures e == At(tree, ix[..depth], ix[depth])
    {
      EntryIsThere(mem, pml4, pool, tree, ix, depth);
      mem[FrameOf(mem, pml4, ix, depth)][ix[depth]]
    }

    method SetTableEntry(ix: Path, depth: nat, e: Entry)
      requires Valid() && IsAddress(tree, ix) && depth <= 3 && ix[..depth] in tree.tables
      requires depth == 3 || SamePointer(At(tree, ix[..depth], ix[depth]), e)
      modifies `mem, `tree
      ensures Valid() && mem.Keys == old(mem.Keys) && Lost() == old(Lost())
      ensures tree == Put(old(tree), ix[..depth], ix[depth], e)
    {
      PutIsSound(mem, pml4, pool, tree, ix, depth, e);
      mem := Written(mem, FrameOf(mem, pml4, ix, depth), ix[depth], e);
      tree := Put(tree, ix[..depth], ix[depth], e);
    }

    /** The last store of Set: a leaf over whatever the slot held. */
    method StoreLeaf(ix: Path, depth: nat, e: Entry)
      requires Valid() && IsAddress(tree, ix) && depth <= 3 && ix[..depth] in tree.tables && (depth == 3 || !IsTable(e))
      modifies `mem, `tree
      ensures Valid() && mem.Keys == old(mem.Keys) && tree == PutCut(old(tree), ix[..depth], ix[depth], e)
      ensures Lost() == old(Lost()) + FramesOf(old(tree), Subtree(old(tree), ix[..depth] + [ix[depth]]))
      ensures FramesOf(old(tree), Subtree(old(tree), ix[..depth] + [ix[depth]])) !! old(Lost())
    {
      CutIsSound(mem, pml4, pool, tree, ix, depth, e);
      mem := Written(mem, FrameOf(mem, pml4, ix, depth), ix[depth], e);
      tree := PutCut(tree, ix[..depth], ix[depth], e);
    }

    /** Allocate a table, point the slot at it, and clear it where the new pointer leads. */
    method AddTable(ix: Path, depth: nat, parentMask: bv64) returns (ok: bool, page: Frame)
      requires Valid() && IsAddress(tree, ix) && depth < 3 && ix[..depth] in tree.tables
      requires !Present(At(tree, ix[..depth], ix[depth])) && IsParentMask(parentMask)
      modifies `mem, `pool, `tree
      ensures Valid() && Frames() == old(Frames()) && Lost() == old(Lost()) && (ok <==> old(pool) != {})
      ensures !ok ==> pool == {} && tree == old(tree)
      ensures ok ==> page in old(pool) && IsFrame(page) && pool == old(pool) - {page}
      ensures ok ==> (forall q | q in old(tree).tables :: old(tree).tables[q].frame != page)
      ensures ok ==> tree == Link(old(tree), ix[..depth], ix[depth], page, parentMask)
    {
      hide Sound, FrameOf, Extended, At, Link, Present, IsParentMask, IsAddress, Sized, Wf;
      SoundIsWf(mem, pml4, pool, tree);
      AddressShape(tree, ix);
      if pool == {} {
        return false, Frame(0);
      }
      page :| page in pool;
      AddedIsSound(mem, pml4, pool, tree, ix, depth, page, parentMask);
      pool := pool - {page};
      mem := Extended(mem, FrameOf(mem, pml4, ix, depth), ix[depth], WithMask(page.base, parentMask));
      tree := Link(tree, ix[..depth], ix[depth], page, parentMask);
      return true, page;
    }

    method MaskEntry(ix: Path, depth: nat, parentMask: bv64, ghost t0: Tree)
      requires Valid() && Wf(t0) && IsAddress(t0, ix) && depth < 3 && Descending(t0, tree, ix, depth)
      requires IsTable(At(tree, ix[..depth], ix[depth])) && IsParentMask(parentMask)
      modifies `mem, `tree
      ensures Valid() && Frames() == old(Frames()) && Lost() == old(Lost()) && Descending(t0, tree, ix, depth + 1)
      ensures tree.tables.Keys == old(tree.tables.Keys) && pool == old(pool)
      ensures old(Masked(tree, parentMask)) ==> Masked(tree, parentMask)
    {
      hide Sound, Wf, Sized, At, Put, Present, Huge, IsTable, IsParentMask, IsAddress, Descending, Masked, WithMask;
      DescendingIsWf(t0, tree, ix, depth);
      var nextPage := GetTableEntry(ix, depth);
      EntryMasked(t0, tree, ix, depth, parentMask);
      PutKeys(tree, ix[..depth], ix[depth], WithMask(nextPage, parentMask));
      SetTableEntry(ix, depth, WithMask(nextPage, parentMask));
    }

    method AddTableBelow(ix: Path, depth: nat, parentMask: bv64, ghost t0: Tree) returns (ok: bool)
      requires Valid() && Wf(t0) && IsAddress(t0, ix) && depth < 3 && Descending(t0, tree, ix, depth)
      requires !Present(At(tree, ix[..depth], ix[depth])) && IsParentMask(parentMask)
      modifies `mem, `pool, `tree
      ensures Valid() && Frames() == old(Frames()) && Lost() == old(Lost()) && pool <= old(pool)
      ensures if ok then Descending(t0, tree, ix, depth + 1) else pool == {} && tree == old(tree)
      ensures ok ==> tree.tables.Keys == old(tree.tables.Keys) + {ix[..depth + 1]}
      ensures Sized(tree) && (old(Masked(tree, parentMask)) ==> Masked(tree, parentMask))
    {
      hide Sound, Wf, Sized, At, Link, Present, IsParentMask, IsAddress, Descending, Masked;
      DescendingIsWf(t0, tree, ix, depth);
      var page: Frame;
      ok, page := AddTable(ix, depth, parentMask);
      if ok {
        LinkedKeys(old(tree), ix, depth, page, parentMask);
        DescendLink(t0, old(tree), ix, depth, page, parentMask);
        LinkMasks(old(tree), ix[..depth], ix[depth], page, parentMask);
        DescendingIsWf(t0, tree, ix, depth + 1);
      }
    }

    /** One round of Set's loop: make sure that the table below depth exists. */
    method Descend(ix: Path, depth: nat, parentMask: bv64, ghost t0: Tree) returns (r: SetResult)
      requires Valid() && Wf(t0) && IsAddress(t0, ix) && depth < 3 && Descending(t0, tree, ix, depth)
      requires IsParentMask(parentMask)
      modifies `mem, `pool, `tree
      ensures Valid() && Frames() == old(Frames()) && Lost() == old(Lost()) && pool <= old(pool)
      ensures Sized(tree) && (old(Masked(tree, parentMask)) ==> Masked(tree, parentMask))
      ensures if r.Done? then Descending(t0, tree, ix, depth + 1) else tree == old(tree)
      ensures r.Done? ==> tree.tables.Keys == old(tree.tables.Keys) + {ix[..depth + 1]}
      ensures r.OutOfMemory? ==> pool == {} && LeafDepth(t0, ix) <= depth
      ensures r.Stopped? <==> depth == LeafDepth(t0, ix) && Present(SlotEntryOf(t0, ix)) && Huge(SlotEntryOf(t0, ix))
    {
      hide Sound, Wf, Sized, At, Present, Huge, IsTable, IsParentMask, IsAddress, Descending, Masked, LeafDepth, SlotEntryOf;
      DescendingIsWf(t0, tree, ix, depth);
      SlotDecides(t0, tree, ix, depth);
      var nextPage := GetTableEntry(ix, depth);
      if !Present(nextPage) {
        var ok := AddTableBelow(ix, depth, parentMask, t0);
        return if ok then Done(false) else OutOfMemory;
      } else if Huge(nextPage) {
        return Stopped;
      } else {
        MaskEntry(ix, depth, parentMask, t0);
        DescendingIsWf(t0, tree, ix, depth + 1);
        assert ix[..depth + 1] in tree.tables.Keys;
        return Done(false);
      }
    }

    /** Set's loop: make sure that the tables above depth `theDepth` exist. */
    method DescendAll(ix: Path, theDepth: nat, parentMask: bv64) returns (r: SetResult)
      requires Valid() && theDepth <= 3 && IsAddress(tree, ix) && IsParentMask(parentMask)
      modifies `mem, `pool, `tree
      ensures Valid() && Frames() == old(Frames()) && Lost() == old(Lost()) && pool <= old(pool) && Wf(old(tree))
      ensures Sized(tree) && (old(Masked(tree, parentMask)) ==> Masked(tree, parentMask))
      ensures r.Done? ==> Descending(old(tree), tree, ix, theDepth) && Builds(old(tree), tree, ix, theDepth)
      ensures !r.Done? ==> exists k: nat :: k < theDepth && Descending(old(tree), tree, ix, k)
      ensures r.Stopped? <==> Stops(old(Mapping())[ix], theDepth)
      ensures r.Stopped? ==> Mapping() == old(Mapping()) && tree.tables.Keys == old(tree.tables.Keys)
      ensures r.OutOfMemory? ==> pool == {}
      ensures !r.Stopped? ==> (r.OutOfMemory? <==> IsShort(old(tree), old(pool), ix, theDepth))
    {
      hide Sound, Wf, Sized, At, Link, Put, Present, Huge, IsParentMask, IsAddress, Descending, Masked, Blocked,
        Stops, PagesOf, SetPages, Consistent, LeafDepth, SlotEntryOf, Flat, LostOf, Builds, IsShort;
      ghost var t0 := tree;
      SoundIsWf(mem, pml4, pool, tree);
      AddressShape(tree, ix);
      DescendStart(t0, ix);
      StopIsAbove(t0, ix, theDepth);
      BuildsNext(t0, tree, tree, ix, 0);
      var depth := 0;
      while depth < theDepth
        invariant depth <= theDepth && Valid() && Frames() == old(Frames()) && Lost() == old(Lost()) && pool <= old(pool)
        invariant Descending(t0, tree, ix, depth) && Builds(t0, tree, ix, depth)
        invariant Sized(t0) && Sized(tree)
        invariant Masked(t0, parentMask) ==> Masked(tree, parentMask)
        invariant Stops(PagesOf(t0)[ix], theDepth) ==> depth <= LeafDepth(t0, ix)
      {
        ghost var before := tree;
        var step := Descend(ix, depth, parentMask, t0);
        if !step.Done? {
          if step.Stopped? {
            StoppedChangesNothing(t0, tree, ix, depth);
          } else {
            RunsShort(old(mem), pml4, old(pool), t0, mem, pool, tree, ix, depth, theDepth);
          }
          return step;
        }
        BuildsNext(t0, before, tree, ix, depth);
        depth := depth + 1;
      }
      RunsLongEnough(old(mem), pml4, old(pool), t0, mem, pool, tree, ix, theDepth);
      return Done(false);
    }

    method Set(addr: nat, entry: Entry, parentMask: bv64, theDepth: nat) returns (r: SetResult)
      requires Valid() && theDepth <= 3 && IsAligned(addr, Span(theDepth)) && IsAddress(tree, Indices(addr))
      requires IsParentMask(parentMask) && (theDepth == 3 || !IsTable(entry))
      modifies `mem, `pool, `tree
      ensures Valid() && tree.lo == old(tree.lo) && tree.first == old(tree.first) && Frames() == old(Frames()) && pool <= old(pool)
      ensures Sized(tree) && (old(Masked(tree, parentMask)) ==> Masked(tree, parentMask))
      ensures Sprouts(old(tree), tree, theDepth)
      ensures LeafDepth(old(tree), Indices(addr)) <= theDepth ==> Grows(old(tree), tree, theDepth)
      ensures r.Stopped? <==> Stops(old(Mapping())[Indices(addr)], theDepth)
      ensures r.Stopped? ==> Mapping() == old(Mapping()) && tree.tables.Keys == old(tree.tables.Keys)
      ensures !r.Stopped? ==> (r.OutOfMemory? <==> IsShort(old(tree), old(pool), Indices(addr), theDepth))
      ensures r.OutOfMemory? ==> pool == {}
      ensures r.Done? ==> Mapping() == SetPages(old(Mapping()), Indices(addr), theDepth, entry)
      ensures r.Done? ==>
        (r.overwrote <==> Overwrites(old(Mapping())[Indices(addr)], theDepth) || theDepth < LeafDepth(old(tree), Indices(addr)))
      ensures r.Done? ==> IsStored(old(tree), tree, Indices(addr), theDepth)
      ensures var below := FramesOf(old(tree), Subtree(old(tree), Indices(addr)[..theDepth + 1]));
        below !! old(Lost()) && Lost() == if r.Done? then old(Lost()) + below else old(Lost())
      ensures r.Done? && old(NoEmpty(tree)) && entry != 0 ==> NoEmpty(tree)
    {
      hide Sound, Wf, Sized, At, Link, Put, Present, Huge, IsParentMask, IsAddress, Descending, Masked, Grows, Blocked,
        Stops, PagesOf, SetPages, Consistent, LeafDepth, SlotEntryOf, NoEmpty, Overwrites, Flat, SetFlat, Indices, LostOf, FramesOf,
        Subtree, PutCut, Sprouts, Builds, IsShort, IsStored;
      ghost var t0 := tree;
      var ix := Indices(addr);
      SoundIsWf(mem, pml4, pool, tree);
      AddressShape(tree, ix);
      BelowIsNotLost(mem, t0, ix[..theDepth + 1]);
      r := DescendAll(ix, theDepth, parentMask);
      if !r.Done? {
        ghost var k: nat :| k < theDepth && Descending(t0, tree, ix, k);
        DescendingGrows(t0, tree, ix, k, theDepth);
        return;
      }
      DescendingIsWf(t0, tree, ix, theDepth);
      StoreKeys(t0, tree, ix, theDepth, entry);
      OverwroteIff(t0, tree, ix, theDepth);
      SetIsDone(t0, tree, ix, theDepth, entry, parentMask);
      var was := GetTableEntry(ix, theDepth);
      StoreLeaf(ix, theDepth, entry);
      return Done(was != 0);
    }

    /** Whether every entry of the depth-k table for an address is zero. */
    method TableIsEmpty(ix: Path, depth: nat) returns (empty: bool)
      requires Valid() && IsAddress(tree, ix) && depth <= 3 && ix[..depth] in tree.tables
      ensures empty <==> IsZero(tree.tables[ix[..depth]].slots)
    {
      EntryIsThere(mem, pml4, pool, tree, ix, depth);
      TableIsThere(mem, pml4, pool, tree, ix, depth);
      var table := mem[FrameOf(mem, pml4, ix, depth)];
      hide Sound, FrameOf, Wf;
      for i := 0 to 512
        invariant forall j | 0 <= j < i :: table[j] == 0
      {
        if table[i] != 0 {
          return false;
        }
      }
      return true;
    }

    /** Clear the slot above the depth-k table and hand the table back to the allocator. */
    method RemoveTable(ix: Path, depth: nat)
      requires Valid() && IsAddress(tree, ix) && 0 < depth <= 3 && ix[..depth] in tree.tables
      requires IsZero(tree.tables[ix[..depth]].slots)
      modifies `mem, `pool, `tree
      ensures Valid() && Frames() == old(Frames()) && Lost() == old(Lost()) && old(pool) <= pool
      ensures Unlinked(old(tree), tree, ix[..depth])
    {
      hide Sound, FrameOf, Wf, IsAddress, Unlink, IsZero, AddressOf;
      AddressShape(tree, ix);
      RemovedIsSound(mem, pml4, pool, tree, ix, depth);
      var parent := FrameOf(mem, pml4, ix, depth - 1);
      var memory := AddressOf(mem[parent][ix[depth - 1]]);
      mem := Written(mem, parent, ix[depth - 1], 0);
      // each table is freed once
      assert memory !in pool;
      mem, pool := mem - {memory}, pool + {memory};
      tree := Unlink(tree, ix[..depth]);
    }

    /** False stands for the panic on an address without a mapping. */
    method Unset(addr: nat) returns (found: bool)
      requires Valid() && addr % 0x1000 == 0 && IsAddress(tree, Indices(addr))
      modifies `mem, `pool, `tree
      ensures Valid() && tree.lo == old(tree.lo) && tree.first == old(tree.first)
      ensures Frames() == old(Frames()) && Lost() == old(Lost()) && old(pool) <= pool
      ensures found <==> Found(old(tree), Indices(addr))
      ensures if found then Mapping() == UnsetPages(old(Mapping()), Indices(addr)) else tree == old(tree)
      ensures old(NoEmpty(tree)) ==> NoEmpty(tree)
      ensures Keeps(tree, old(tree)) && forall mask | KeptMask(old(tree), mask) :: KeptMask(tree, mask)
    {
      hide Sound, Wf, Sized, At, Put, Present, Huge, IsAddress, Pruning, Masked, PagesOf, UnsetPages, Consistent,
        LeafDepth, SlotEntryOf, NoEmpty, NoEmptyBut, Flat, Indices, Keeps, IsZero, KeptMask, Found;
      ghost var t0 := tree;
      var ix := Indices(addr);
      SoundIsWf(mem, pml4, pool, tree);
      AddressShape(tree, ix);
      FindStart(t0, ix);
      var depth := 0;
      while depth < 3
        invariant depth <= 3 && depth <= LeafDepth(t0, ix) && ix[..depth] in tree.tables
        invariant Valid() && tree == t0 && mem == old(mem) && pool == old(pool)
        invariant depth == 3 ==> Found(t0, ix) && LeafDepth(t0, ix) == 3
      {
        FindStep(t0, ix, depth);
        var entry := GetTableEntry(ix, depth);
        if Huge(entry) {
          break;
        }
        if !Present(entry) {
          return false;
        }
        depth := depth + 1;
      }
      PruneBegins(t0, ix);
      SetTableEntry(ix, depth, 0);
      while depth > 0
        invariant depth <= 3 && Pruning(t0, tree, ix, depth)
        invariant Valid() && Frames() == old(Frames()) && Lost() == old(Lost()) && old(pool) <= pool
        invariant forall mask | KeptMask(t0, mask) :: KeptMask(tree, mask)
      {
        PruningIsWf(t0, tree, ix, depth);
        var empty := TableIsEmpty(ix, depth);
        if !empty {
          return true;
        }
        ghost var before := tree;
        RemoveTable(ix, depth);
        PruneGoesOn(t0, before, tree, ix, depth);
        depth := depth - 1;
      }
      PruningIsWf(t0, tree, ix, depth);
      return true;
    }

    method Walk(addr: nat) returns (depth: int, entry: Entry, size: nat)
      requires Valid() && IsAddress(tree, Indices(addr))
      ensures LeafDepth(tree, Indices(addr)) <= 3 && size == Span(LeafDepth(tree, Indices(addr)))
      ensures depth >= 0 <==> IsOccupied(Mapping()[Indices(addr)])
      ensures depth >= 0 ==> Mapping()[Indices(addr)] == Leaf(depth, entry) && depth <= 3 && size == Span(depth)
      ensures depth >= 0 || depth == -1
    {
      hide Sound, Wf, Sized, At, Present, Huge, IsAddress, PagesOf, Consistent, LeafDepth, SlotEntryOf, Flat, Indices,
        IsOccupied, Span;
      var ix := Indices(addr);
      SoundIsWf(mem, pml4, pool, tree);
      AddressShape(tree, ix);
      FindStart(tree, ix);
      depth, entry := 0, 0;
      while depth < 4
        invariant 0 <= depth <= 4 && Valid()
        invariant depth <= 3 ==> depth <= LeafDepth(tree, ix) && ix[..depth] in tree.tables
        invariant depth == 4 ==> LeafDepth(tree, ix) == 3 && entry == SlotEntryOf(tree, ix) && Present(entry)
      {
        WalkStep(tree, ix, depth);
        entry := GetTableEntry(ix, depth);
        if Huge(entry) || !Present(entry) {
          break;
        }
        depth := depth + 1;
      }
      WalkEnds(tree, ix);
      if depth == 4 || Huge(entry) {
        if depth == 4 {
          depth := 3;
        }
        size := Span(depth);
      } else {
        size := Span(depth);
        depth := -1;
      }
    }

    method Read(addr: nat) returns (r: ReadResult)
      requires Valid() && IsAddress(tree, Indices(addr))
      ensures r == ReadOf(Mapping()[Indices(addr)])
    {
      hide Sound, Wf, IsAddress, PagesOf, Consistent, LeafDepth, Flat, Indices, Decoded, IsOccupied, Span;
      var depth, entry, size := Walk(addr);
      if depth < 0 {
        return NotMapped;
      }
      if depth < 2 {
        return TooLarge;
      }
      return Decoded(depth, entry);
    }

    /** A panic is a page size or a page that Set refuses, or memory running out. */
    method SetList(virt: nat, phys: Entry, pageSize: nat, pageCount: nat, parentMask: bv64, before: bool)
      returns (ok: bool, overwrote: bool)
      requires Valid() && IsParentMask(parentMask)
      requires var d := CalcDepth(pageSize); d >= 0 ==>
        && IsAligned(virt, pageSize) && Lists(Mapping(), virt, d, pageCount)
        && (d == 3 || forall i | 0 <= i < pageCount :: !IsTable(EntryAt(phys, d, i)))
      modifies `mem, `pool, `tree
      ensures Valid() && tree.lo == old(tree.lo) && tree.first == old(tree.first) && Frames() == old(Frames()) && pool <= old(pool)
      ensures Sized(tree) && (old(Masked(tree, parentMask)) ==> Masked(tree, parentMask))
      ensures ok ==> CalcDepth(pageSize) >= 0 && var d := CalcDepth(pageSize);
        && Mapping() == ListPages(old(Mapping()), virt, phys, d, pageCount)
        && (overwrote <==> if pageCount == 0 then before
          else ListOverwrites(old(Mapping()), virt, phys, d, pageCount) || !NoTables(old(tree), virt, d, pageCount))
        && (Lost() == old(Lost()) <==> NoTables(old(tree), virt, d, pageCount))
        && !ListStops(old(Mapping()), virt, phys, d, pageCount)
      ensures !ok && pool != {} ==>
        CalcDepth(pageSize) < 0 || ListStops(old(Mapping()), virt, phys, CalcDepth(pageSize), pageCount)
      ensures CalcDepth(pageSize) >= 0 ==> var d := CalcDepth(pageSize);
        NoTables(old(tree), virt, d, pageCount) && !ListStops(old(Mapping()), virt, phys, d, pageCount) ==>
          (ok <==> old(HasFrames(virt, pageSize, pageCount)))
      ensures old(NoEmpty(tree)) && ok && (forall i | 0 <= i < pageCount :: EntryAt(phys, CalcDepth(pageSize), i) != 0)
        ==> NoEmpty(tree)
    {
      hide Sound, Wf, Sized, IsAddress, Masked, Grows, Stops, SetPages, Consistent, LeafDepth, NoEmpty, Overwrites,
        Indices, Mapping, ListPages, IsTable, IsParentMask, LostOf, FramesOf, Subtree, NoTables, Sprouts,
        ListStops, ListOverwrites, StopsAt, OverwritesAt, EntryAt, PageAddress, IsAligned, Span, NextEntry,
        IsShort, IsStored, ListAccounts, ListIsShort, Lists;
      SoundIsWf(mem, pml4, pool, tree);
      var depth := CalcDepth(pageSize);
      if depth < 0 {
        return false, before;
      }
      ghost var m0, t0 := Mapping(), tree;
      ListStart(m0, virt, phys, depth);
      AccountsStart(t0, Lost(), virt, depth);
      var curVirt, curPhys, watching := virt, phys, true;
      overwrote := before;
      for i := 0 to pageCount
        invariant Valid() && tree.lo == t0.lo && tree.first == t0.first && Frames() == old(Frames()) && pool <= old(pool)
        invariant curVirt == PageAddress(virt, depth, i) && IsAligned(curVirt, Span(depth)) && curPhys == EntryAt(phys, depth, i)
        invariant Wf(t0) && Sized(t0) && Sized(tree) && (Masked(t0, parentMask) ==> Masked(tree, parentMask))
        invariant ListAccounts(t0, old(Lost()), tree, Lost(), virt, depth, i)
        invariant Lists(m0, virt, depth, i) && Mapping() == ListPages(m0, virt, phys, depth, i)
        invariant overwrote == if i == 0 then before else ListOverwrites(m0, virt, phys, depth, i) || !NoTables(t0, virt, depth, i)
        invariant watching <==> i == 0 || !overwrote
        invariant !ListStops(m0, virt, phys, depth, i)
        invariant NoEmpty(t0) && (forall j | 0 <= j < i :: EntryAt(phys, depth, j) != 0) ==> NoEmpty(tree)
      {
        ListStep(m0, virt, phys, depth, i, pageCount);
        ListAdvances(virt, phys, depth, i);
        ListGoesOn(m0, virt, phys, depth, i, pageCount);
        SoundIsWf(mem, pml4, pool, tree);
        NextAligned(curVirt, depth);
        ghost var before, memBefore, poolBefore := tree, mem, pool;
        var r := Set(curVirt, curPhys, parentMask, depth);
        if !r.Done? {
          if r.OutOfMemory? && NoTables(t0, virt, depth, pageCount) {
            ListRunsShort(old(mem), pml4, old(pool), t0, memBefore, poolBefore, before, virt, depth, i, pageCount);
          }
          return false, overwrote;
        }
        AccountsNext(t0, old(Lost()), before, LostOf(memBefore, before), tree, Lost(), virt, depth, i);
        if watching {
          overwrote := r.overwrote;
          watching := !overwrote;
        }
        curPhys, curVirt := NextEntry(curPhys, depth), curVirt + pageSize;
      }
      AccountsLose(t0, old(Lost()), tree, Lost(), virt, depth, pageCount);
      if NoTables(t0, virt, depth, pageCount) {
        ListRunsLongEnough(old(mem), pml4, old(pool), t0, mem, pool, tree, virt, depth, pageCount);
      }
      return true, overwrote;
    }

    /** Hand a table page back; it must not be free already. */
    method Free(f: Frame)
      requires f in mem && f !in pool
      modifies `mem, `pool
      ensures mem == old(mem) - {f} && pool == old(pool) + {f}
    {
      mem, pool := mem - {f}, pool + {f};
    }

    method FreeTableRecursive(addr: Frame, depth: nat, start: nat, end: nat, ghost p: Path)
      requires Wf(tree) && Consistent(PagesOf(tree)) && MarkedHuge(PagesOf(tree))
      requires p in tree.tables && |p| == depth <= 3 && addr == tree.tables[p].frame
      requires if p == [] then start == tree.lo && end == 511 else start == 0 && end == 512
      requires forall q | q in Subtree(tree, p) :: Stores(mem, tree.tables[q])
      requires mem.Keys !! pool
      modifies `mem, `pool
      ensures mem == old(mem) - FramesOf(tree, Subtree(tree, p))
      ensures pool == old(pool) + FramesOf(tree, Subtree(tree, p))
      decreases 3 - depth
    {
      hide Wf, Sized, Consistent, PagesOf, MarkedHuge, IsSlot, Subtree, SubtreesBefore, FramesOf, IsTable, Huge, AddressOf;
      FreeingStarts(tree, p, start, end);
      assert Stores(mem, tree.tables[p]);
      ghost var table := tree.tables[p];
      if depth != 3 {
        for i := start to end
          invariant mem.Keys !! pool && addr in mem && mem[addr] == table.slots
          invariant mem == old(mem) - FramesOf(tree, SubtreesBefore(tree, p, i))
          invariant pool == old(pool) + FramesOf(tree, SubtreesBefore(tree, p, i))
        {
          FreeingSteps(tree, p, i);
          NextToFree(tree, p, i);
          var entry := mem[addr][i];
          if entry == 0 || Huge(entry) {
            continue;
          }
          var phys := AddressOf(entry);
          forall q | q in Subtree(tree, p + [i]) ensures Stores(mem, tree.tables[q]) {
            assert Stores(old(mem), tree.tables[q]);
          }
          FreeTableRecursive(phys, depth + 1, 0, 512, p + [i]);
        }
      }
      Free(addr);
    }

    /** Frees the PML4 and every table below its own slots; the table is dead afterwards. */
    method FreeTable(start: nat)
      requires Valid() && start == tree.lo && MarkedHuge(Mapping())
      modifies `mem, `pool
      ensures mem.Keys == old(Lost()) && pool == old(Frames()) - old(Lost())
      ensures forall f :: f in pool <==> f in old(pool) || IsTableFrame(old(tree), f)
    {
      TablesAreFrames(tree);
      FreeTableRecursive(pml4, 0, start, 511, []);
    }
  }
}
