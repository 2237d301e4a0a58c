/** MapSetup: the first kernel page table, an identity map of the memory in use, built before paging is on. */
module MapSetups {
  import opened PageTree
  import opened TreeWalks
  import opened FlatMaps
  import opened PageLists
  import opened PageMemory
  import opened Addresses
  import opened PageTables
  import opened PageRuns
  import opened TableRuns
  import opened AccessRights
  import opened PhysicalWords
  import opened FreeFinders
  import opened GlobalMaps

  const IDENTITY_FLAGS: bv64 := 0x183

  /** The entry of the i-th 2 MiB page: present, writable, huge, global, at its own address. */
  function IdentityEntry(i: nat): Entry {
    WithMask(EntryAt(0, 2, i), IDENTITY_FLAGS)
  }

  /** The number of the 2 MiB page a path lies in, below 512 GiB. */
  function PageNumber(ix: Path): nat
    requires |ix| == 4
  {
    512 * ix[1] + ix[2]
  }

  /** The first n pages are mapped to themselves, and nothing else is. */
  function IdentityLeaf(ix: Path, n: nat): Leaf
    requires |ix| == 4
  {
    if ix[0] == 0 && PageNumber(ix) < n then Leaf(2, IdentityEntry(PageNumber(ix))) else NoLeaf
  }

  /** The same by address. */
  function IdentityAt(a: nat, n: nat): Leaf {
    if a < n * 0x200000 then Leaf(2, IdentityEntry(a / 0x200000)) else NoLeaf
  }

  lemma IdentityFlags(p: bv64)
    requires IsPhysical(p, 2)
    ensures var e := WithMask(p, IDENTITY_FLAGS); Huge(e) && e & LARGE_ADDRESS_BITS == p
  {
  }

  lemma IdentityRights(p: bv64)
    requires IsPhysical(p, 2)
    ensures var e := WithMask(p, IDENTITY_FLAGS);
      && RightsOf(e) == Rights(false, true, true) && Decoded(2, e).attributes == Attributes(true, true) && e & GLOBAL != 0
      && e & 0x8000_0000_001F_FFFF == 0x183
  {
  }

  /** An address below the end reads back its own 2 MiB page, writable, executable, global, and not for users. */
  lemma IdentityReadsBack(a: nat, n: nat)
    requires a < n * 0x200000 <= KERNEL_END
    ensures ReadOf(IdentityAt(a, n)) == Translation(WordOf(a - a % 0x200000), Attributes(true, true), 0x200000)
    ensures RightsOf(IdentityAt(a, n).entry) == Rights(false, true, true) && IdentityAt(a, n).entry & GLOBAL != 0
    ensures IdentityAt(a, n).entry & 0x8000_0000_001F_FFFF == 0x183
  {
    hide WordOf, EntryAt, IsPhysical, WithMask, RightsOf, Huge, ADDRESS_BITS, IDENTITY_FLAGS;
    var i := a / 0x200000;
    ZeroWord();
    EntryIsWord(0, 2, i);
    IsPhysicalIff(i * 0x200000, 2);
    IdentityFlags(EntryAt(0, 2, i));
    IdentityRights(EntryAt(0, 2, i));
  }

  /** A page directory for every 512 pages begun. */
  ghost predicate HasDirectories(t: Tree, n: nat) {
    && [0] in t.tables && (forall p | p in t.tables :: |p| <= 2)
    && forall j: nat {:trigger [0, j]} :: [0, j] in t.tables <==> 512 * j < n
  }

  ghost predicate MapsIdentity(t: Tree, n: nat) {
    && Wf(t) && t.lo == 0 && KeptMask(t, 3)
    && forall ix | IsAddress(t, ix) :: Flat(t, ix) == IdentityLeaf(ix, n)
  }

  /** Two cleared pages, with the first and the last slot of the PML4 stored. */
  function StartMemory(pml4: Frame, pdpt: Frame): Memory {
    var mem := map[pml4 := Zeros(512), pdpt := Zeros(512)];
    var mem1 := Written(mem, pml4, 0, WithMask(pdpt.base, 3));
    Written(mem1, pml4, 511, WithMask(pml4.base, 3))
  }

  /** The tree after n pages. */
  ghost predicate IsIdentity(t: Tree, n: nat) {
    MapsIdentity(t, n) && HasDirectories(t, n) && NoEmptyBut(t, [0]) && (0 < n ==> NoEmpty(t))
  }

  /** The tree with a directory for the next page. */
  ghost predicate IsReady(t: Tree, n: nat) {
    MapsIdentity(t, n) && HasDirectories(t, n + 1) && NoEmptyBut(t, [0, n / 512])
  }

  lemma IdentityIsMarked(i: nat)
    ensures Present(IdentityEntry(i)) && Huge(IdentityEntry(i)) && IdentityEntry(i) != 0 && !IsTable(IdentityEntry(i))
  {
    EntryFlags(0, 2, i);
    MaskMarks(EntryAt(0, 2, i));
  }

  lemma MaskMarks(e: Entry)
    ensures var e' := WithMask(e, IDENTITY_FLAGS); Present(e') && Huge(e') && e' != 0 && !IsTable(e')
  {
  }

  lemma ThreeIsMask()
    ensures IsParentMask(3)
  {
  }

  ghost predicate IsUnused(t: Tree, f: Frame) {
    forall q | q in t.tables :: t.tables[q].frame != f
  }

  /** Adding a table under a zero slot changes no address. */
  lemma LinkAdds(t: Tree, p: Path, i: nat, f: Frame)
    requires Wf(t) && t.lo == 0 && KeptMask(t, 3) && NoEmptyBut(t, p)
    requires p in t.tables && |p| < 3 && IsSlot(t, p, i) && At(t, p, i) == 0 && IsFrame(f) && IsUnused(t, f)
    ensures var t' := Link(t, p, i, f, 3);
      && Wf(t') && t'.lo == 0 && KeptMask(t', 3) && NoEmptyBut(t', p + [i])
      && t'.tables.Keys == t.tables.Keys + {p + [i]} && p + [i] !in t.tables
      && (forall ix | IsAddress(t, ix) :: Flat(t', ix) == if Under(ix, p, i) then NoLeaf else Flat(t, ix))
  {
    ZeroIsNoTable();
    ThreeIsMask();
    PointerBits(f, 3);
    var e := WithMask(f.base, 3);
    assert !IsTable(At(t, p, i));
    hide IsTable, IsFrame, AddressOf, Present, WithMask, IsParentMask, Flat, Rooted, Injective, PathsOk, Masked, Huge;
    NoTableBelow(t, p, i);
    LinkIsWf(t, p, i, f, e);
    LinkMasks(t, p, i, f, 3);
    TableIsNotZero(e);
    LinkFills(t, p, i, f, e);
    forall ix | IsAddress(t, ix) ensures Flat(Link(t, p, i, f, 3), ix) == if Under(ix, p, i) then NoLeaf else Flat(t, ix) {
      LinkFlat(t, p, i, f, e, ix);
    }
  }

  lemma TableIsNotZero(e: Entry)
    requires IsTable(e)
    ensures e != 0
  {
  }

  lemma StartSlots(pml4: Frame)
    ensures Sized(RootTree(0, 0, pml4)) && At(RootTree(0, 0, pml4), [], 0) == 0
  {
  }

  lemma NothingIsIdentity(t: Tree, ix: Path)
    requires Wf(t) && PagesOf(t) == EmptyPages(0) && IsAddress(t, ix) && t.lo == 0
    ensures Flat(t, ix) == NoLeaf && IdentityLeaf(ix, 0) == NoLeaf
  {
    assert ix in PagesOf(t);
  }

  /** A PML4 that points at an empty PDPT maps nothing. */
  lemma StartIsIdentity(pml4: Frame, pdpt: Frame)
    requires IsFrame(pml4) && IsFrame(pdpt) && pml4 != pdpt
    ensures var t := RootTree(0, 0, pml4); Wf(t) && At(t, [], 0) == 0 && IsIdentity(Link(t, [], 0, pdpt, 3), 0)
  {
    hide IsTable, IsFrame, Present, NewRoot, Wf, Link, Flat, KeptMask, NoEmptyBut, PagesOf, EmptyPages;
    var t := RootTree(0, 0, pml4);
    RootIsWf(0, 0, pml4, 3);
    RootIsEmpty(0, 0, pml4);
    StartSlots(pml4);
    EmptyBut(t);
    LinkAdds(t, [], 0, pdpt);
    assert [] + [0] == [0];
    var t' := Link(t, [], 0, pdpt, 3);
    forall ix | IsAddress(t', ix) ensures Flat(t', ix) == IdentityLeaf(ix, 0) {
      NothingIsIdentity(t, ix);
    }
    forall j: nat ensures [0, j] !in t'.tables {
      assert |[0, j]| == 2;
    }
  }

  lemma EmptyBut(t: Tree)
    requires NoEmpty(t)
    ensures NoEmptyBut(t, [])
  {
  }

  lemma DirectoryThere(t: Tree, n: nat)
    requires IsIdentity(t, n) && n % 512 != 0
    ensures IsReady(t, n)
  {
    hide MapsIdentity, IsZero;
    forall j: nat ensures 512 * j < n <==> 512 * j < n + 1 { }
  }

  /** The slot for the next directory is still zero. */
  lemma NextSlotIsZero(t: Tree, n: nat)
    requires IsIdentity(t, n) && n % 512 == 0 && n < 512 * 512
    ensures Sized(t) && [0] in t.tables && At(t, [0], n / 512) == 0
  {
    hide IsTable, IsFrame, AddressOf, KeptMask, NoEmptyBut, PointersOk, Injective, PathsOk;
    var ix: Path := [0, n / 512, 0, 0];
    assert ix[..1] == [0] && ix[..2] == [0, n / 512];
    LeafIsAt(t, ix, 1);
    assert PageNumber(ix) == n;
  }

  lemma DirectoryAdded(t: Tree, n: nat, f: Frame)
    requires IsIdentity(t, n) && n % 512 == 0 && n < 512 * 512 && IsFrame(f) && IsUnused(t, f)
    ensures Sized(t) && [0] in t.tables && IsReady(Link(t, [0], n / 512, f, 3), n)
    ensures [0, n / 512] !in t.tables
  {
    NextSlotIsZero(t, n);
    hide IsTable, IsFrame, Present, Wf, Link, Flat, KeptMask, NoEmptyBut, IsUnused, HasDirectories;
    ZeroInDirectories(t, n);
    LinkAdds(t, [0], n / 512, f);
    var t' := Link(t, [0], n / 512, f, 3);
    assert [0] + [n / 512] == [0, n / 512];
    DirectoriesGrow(t, t', n);
    forall ix | IsAddress(t', ix) ensures Flat(t', ix) == IdentityLeaf(ix, n) {
      UnderNext(ix, n);
    }
  }

  lemma ZeroInDirectories(t: Tree, n: nat)
    requires HasDirectories(t, n)
    ensures [0] in t.tables
  {
  }

  lemma DirectoriesGrow(t: Tree, t': Tree, n: nat)
    requires HasDirectories(t, n) && n % 512 == 0 && t'.tables.Keys == t.tables.Keys + {[0, n / 512]}
    ensures HasDirectories(t', n + 1)
  {
    forall j: nat ensures [0, j] in t'.tables <==> 512 * j < n + 1 {
      assert [0, j][1] == j && [0, n / 512][1] == n / 512;
    }
  }

  /** Nothing is mapped under the next directory. */
  lemma UnderNext(ix: Path, n: nat)
    requires |ix| == 4 && n % 512 == 0
    ensures Under(ix, [0], n / 512) ==> IdentityLeaf(ix, n) == NoLeaf
  {
    assert ix[..1] == [ix[0]];
  }

  lemma PageSlotIsZero(t: Tree, n: nat)
    requires IsReady(t, n) && n < 512 * 512
    ensures Sized(t) && [0, n / 512] in t.tables && At(t, [0, n / 512], n % 512) == 0 && IsSlot(t, [0, n / 512], n % 512)
  {
    hide IsTable, IsFrame, AddressOf, KeptMask, NoEmptyBut, PointersOk, Injective, PathsOk;
    var ix: Path := [0, n / 512, n % 512, 0];
    assert ix[..2] == [0, n / 512] && |ix[..3]| == 3;
    LeafIsAt(t, ix, 2);
    assert PageNumber(ix) == n;
  }

  lemma PageAdded(t: Tree, n: nat)
    requires IsReady(t, n) && n < 512 * 512
    ensures Sized(t) && [0, n / 512] in t.tables && At(t, [0, n / 512], n % 512) == 0
    ensures IsIdentity(Put(t, [0, n / 512], n % 512, IdentityEntry(n)), n + 1)
  {
    ZeroIsNoTable();
    IdentityIsMarked(n);
    PageSlotIsZero(t, n);
    hide IsTable, IsFrame, AddressOf, Carries, MaskedAt, NoEmptyBut, IdentityEntry, Flat, Injective, PathsOk, PointersOk, Rooted;
    var p: Path, e := [0, n / 512], IdentityEntry(n);
    var t' := Put(t, p, n % 512, e);
    PutKeepsWf(t, p, n % 512, e);
    PutKeepsMasked(t, p, n % 512, e, 3);
    forall ix | IsAddress(t', ix) ensures Flat(t', ix) == IdentityLeaf(ix, n + 1) {
      PutFlat(t, p, n % 512, e, ix);
      PageIsUnder(ix, n);
    }
    PutFills(t, p, n % 512, e);
    WeakerFill(t');
  }

  lemma PageIsUnder(ix: Path, n: nat)
    requires |ix| == 4 && forall k | 0 <= k < 4 :: ix[k] < 512
    ensures Under(ix, [0, n / 512], n % 512) <==> ix[0] == 0 && PageNumber(ix) == n
  {
    assert ix[..2] == [ix[0], ix[1]];
    if ix[0] == 0 && PageNumber(ix) == n {
      assert n / 512 == ix[1] && n % 512 == ix[2];
    }
  }

  lemma WeakerFill(t: Tree)
    requires NoEmpty(t)
    ensures NoEmptyBut(t, [0])
  {
  }

  // ----- the tables in memory -----

  /** Memory and tree agree, and no page is lost. */
  ghost predicate Intact(mem: Memory, pml4: Frame, pool: set<Frame>, t: Tree) {
    Sound(mem, pml4, pool, t) && LostOf(mem, t) == {}
  }

  lemma LinkPlaced(mem: Memory, pml4: Frame, pool: set<Frame>, t: Tree, p: Path, i: nat, page: Frame)
    requires Intact(mem, pml4, pool, t) && page in pool && p in t.tables && i < 512 && p + [i] !in t.tables
    requires var t' := Link(t, p, i, page, 3); Wf(t')
    ensures IsFrame(page) && IsUnused(t, page)
    ensures var f, cleared := t.tables[p].frame, mem[page := Zeros(512)];
      && f in cleared && |cleared[f]| == 512
      && Intact(Written(cleared, f, i, WithMask(page.base, 3)), pml4, pool - {page}, Link(t, p, i, page, 3))
  {
    hide IsFrame, WithMask, PointersOk, PathsOk, Rooted, LostOf;
    var e := WithMask(page.base, 3);
    FreshIsUnused(mem, t, page);
    LinkRepresents(mem, t, p, i, page, e);
    var f := t.tables[p].frame;
    LinkLoses(mem, Written(mem, f, i, e)[page := Zeros(512)], t, p, i, page, e);
    assert Stores(mem, t.tables[p]);
    assert Written(mem, f, i, e)[page := Zeros(512)] == Written(mem[page := Zeros(512)], f, i, e);
    assert p + [i] != [];
  }

  lemma PutPlaced(mem: Memory, pml4: Frame, pool: set<Frame>, t: Tree, p: Path, i: nat, e: Entry)
    requires Intact(mem, pml4, pool, t) && p in t.tables && i < 512 && Wf(Put(t, p, i, e))
    ensures var f := t.tables[p].frame;
      f in mem && |mem[f]| == 512 && Intact(Written(mem, f, i, e), pml4, pool, Put(t, p, i, e))
  {
    hide IsFrame, PointersOk, PathsOk, Rooted, LostOf;
    assert Stores(mem, t.tables[p]);
    WrittenRepresentsPut(mem, t, p, i, e);
    PutLoses(mem, Written(mem, t.tables[p].frame, i, e), t, p, i, e);
  }

  class MapSetup {
    var pml4: Frame
    var pdpt: Frame
    var currentPDT: Frame
    var pdtOffset: nat
    var pdptOffset: int
    var firstUnmapped: bv64
    var mem: Memory
    var pool: set<Frame>
    ghost var tree: Tree
    ghost var count: nat

    /** The offsets point behind the last page mapped. */
    ghost predicate AreOffsets()
      reads `pdtOffset, `pdptOffset, `count
    {
      -1 <= pdptOffset && pdtOffset <= 512 && count == 512 * pdptOffset + pdtOffset && count <= 512 * 512
    }

    /** The first `count` pages are mapped to themselves. */
    ghost predicate Valid()
      reads this
    {
      && Intact(mem, pml4, pool, tree) && IsIdentity(tree, count) && AreOffsets() && 0 < pdtOffset
      && tree.tables[[0]].frame == pdpt
      && (0 < count ==> tree.tables[[0, pdptOffset]].frame == currentPDT)
      && firstUnmapped == EntryAt(0, 2, count)
    }

    /** A directory has room for the next page. */
    ghost predicate IsPrepared()
      reads this
    {
      && Intact(mem, pml4, pool, tree) && IsReady(tree, count) && AreOffsets() && pdtOffset < 512
      && tree.tables[[0]].frame == pdpt && tree.tables[[0, pdptOffset]].frame == currentPDT
      && firstUnmapped == EntryAt(0, 2, count)
    }

    /** Start a page directory when the last one is full. */
    method NextDirectory() returns (ok: bool)
      requires Valid() && count < 512 * 512
      modifies this
      ensures pml4 == old(pml4) && pdpt == old(pdpt) && count == old(count)
      ensures mem.Keys + pool == old(mem.Keys + pool)
      ensures ok <==> old(count % 512 != 0 || pool != {})
      ensures if ok then IsPrepared() && |pool| == old(|pool|) - NewDirectories(count) else pool == {}
    {
      hide Intact, IsIdentity, IsReady, EntryAt;
      OffsetIsFull(count, pdptOffset, pdtOffset);
      if pdtOffset == 512 {
        if pool == {} {
          return false;
        }
        AddDirectory();
      } else {
        PageOffsets(count, pdptOffset, pdtOffset);
        DirectoryThere(tree, count);
      }
      return true;
    }

    method AddDirectory()
      requires Valid() && count < 512 * 512 && pdtOffset == 512 && pool != {}
      modifies this
      ensures pml4 == old(pml4) && pdpt == old(pdpt) && count == old(count) && IsPrepared()
      ensures mem.Keys + pool == old(mem.Keys + pool) && |pool| == old(|pool|) - 1
    {
      hide Intact, IsIdentity, IsReady, Link, WithMask, EntryAt, IsFrame, IsUnused, Wf, Zeros, Sized;
      var page: Frame :| page in pool;
      DirectoryOffsets(count, pdptOffset);
      DirectoryPlaced(mem, pml4, pool, tree, count, page);
      tree := Link(tree, [0], pdptOffset + 1, page, 3);
      pdtOffset, pdptOffset, currentPDT, pool := 0, pdptOffset + 1, page, pool - {page};
      mem := Written(mem[page := Zeros(512)], pdpt, pdptOffset, WithMask(currentPDT.base, 3));
    }

    /** Write the entry of the next page into the directory, and move on. */
    method StorePage()
      requires IsPrepared() && count < 512 * 512
      modifies `mem, `tree, `pdtOffset, `firstUnmapped, `count
      ensures Valid() && mem.Keys == old(mem.Keys) && count == old(count) + 1
    {
      hide Intact, IsIdentity, IsReady, Put, WithMask, EntryAt, IsFrame, Wf, IdentityEntry, NextEntry, Sized;
      PageOffsets(count, pdptOffset, pdtOffset);
      PagePlaced(mem, pml4, pool, tree, count);
      mem := Written(mem, currentPDT, pdtOffset, WithMask(firstUnmapped, IDENTITY_FLAGS));
      tree := Put(tree, [0, pdptOffset], pdtOffset, WithMask(firstUnmapped, IDENTITY_FLAGS));
      pdtOffset, firstUnmapped, count := pdtOffset + 1, NextEntry(firstUnmapped, 2), count + 1;
    }

    /** Map one more 2 MiB page; false stands for the panic when memory runs out. */
    method MapNext(linearSize: nat) returns (ok: bool, rest: nat)
      requires Valid() && count < 512 * 512
      modifies this
      ensures pml4 == old(pml4) && mem.Keys + pool == old(mem.Keys + pool)
      ensures ok <==> old(count % 512 != 0 || pool != {})
      ensures ok ==> Valid() && pdpt == old(pdpt) && count == old(count) + 1 && |pool| == old(|pool| - NewDirectories(count))
      ensures ok ==> rest == if linearSize <= 0x200000 then 0 else linearSize - 0x200000
      ensures !ok ==> pool == {}
    {
      hide Valid, IsPrepared;
      ok := NextDirectory();
      if !ok {
        return false, linearSize;
      }
      StorePage();
      return true, if linearSize <= 0x200000 then 0 else linearSize - 0x200000;
    }

    /** The PML4, with its first slot and its self-map slot, and an empty PDPT. */
    method StartMap() returns (ok: bool)
      requires firstUnmapped == 0 && forall f | f in pool :: IsFrame(f)
      modifies this
      ensures ok <==> 2 <= |old(pool)|
      ensures if ok then Valid() && count == 0 else pool == old(pool) && mem == old(mem)
      ensures ok ==> mem.Keys + pool == old(pool) && |pool| == |old(pool)| - 2
    {
      hide Intact, IsIdentity, Link, WithMask, EntryAt, IsFrame, Wf, RootTree, NewRoot, Zeros, Sized, LostOf, StartMemory;
      if |pool| <= 1 {
        return false;
      }
      TwoFrames(pool);
      var first: Frame :| first in pool && pool - {first} != {};
      var second: Frame :| second in pool - {first};
      StartPlaced(first, second, pool);
      pml4, pdpt, pool, mem := first, second, pool - {first} - {second}, StartMemory(first, second);
      pdtOffset, pdptOffset, tree, count := 512, -1, Link(RootTree(0, 0, first), [], 0, second, 3), 0;
      return true;
    }

    /**
     Builds the tables and maps the 2 MiB pages that cover [0, reservedEnd) to themselves; false stands
     for the panic when memory runs out, which takes fewer than two frames and one for each directory.
    */
    method GenerateMap(reservedEnd: nat) returns (ok: bool)
      requires 0 < reservedEnd <= KERNEL_END && firstUnmapped == 0 && forall f | f in pool :: IsFrame(f)
      modifies this
      ensures ok <==> 2 + Directories(PagesToCover(reservedEnd)) <= |old(pool)|
      ensures ok ==> Valid() && count == PagesToCover(reservedEnd)
      ensures ok ==> reservedEnd <= count * 0x200000 < reservedEnd + 0x200000
      ensures if |old(pool)| <= 1 then pool == old(pool) && mem == old(mem) else mem.Keys + pool == old(pool)
    {
      hide Valid, PagesToCover, Directories, NewDirectories;
      ok := StartMap();
      if !ok {
        return false;
      }
      NoDirectories();
      var linearSize := reservedEnd;
      while linearSize > 0
        invariant ok && Valid() && mem.Keys + pool == old(pool)
        invariant |pool| + 2 + Directories(count) == |old(pool)| && 2 <= |old(pool)|
        invariant if linearSize > 0 then reservedEnd == count * 0x200000 + linearSize else
          count == PagesToCover(reservedEnd) && reservedEnd <= count * 0x200000 < reservedEnd + 0x200000
        decreases linearSize
      {
        FewPages(reservedEnd, count, linearSize);
        OneMoreDirectory(count, PagesToCover(reservedEnd));
        ok, linearSize := MapNext(linearSize);
        if !ok {
          return false;
        }
      }
      return true;
    }

    /** The page table over the finished map. */
    method GeneratePageTable() returns (table: PageTable)
      requires Valid() && 0 < count
      ensures HasTable(table) && fresh(table) && table.Frames() == mem.Keys + pool
      ensures forall a: nat | IsKernel(a) :: LeafAt(0, table.Mapping(), a) == IdentityAt(a, count)
    {
      hide Sound, LostOf, IsIdentity, HasPages, KeptMask, NoEmpty, AllOccupied, CoversKernel, Covers, LeafAt, IdentityEntry,
        PagesOf, Wf;
      table := new PageTable(pml4, mem, pool, tree);
      SoundIsWf(mem, pml4, pool, tree);
      IdentityIsTable(tree, count);
    }
  }

  function PagesToCover(bytes: nat): nat { (bytes + 0x1FFFFF) / 0x200000 }

  /** The directories that this many pages need, 512 pages each. */
  function Directories(pages: nat): nat { (pages + 511) / 512 }

  /** Whether the next page needs a new one. */
  function NewDirectories(pages: nat): nat { if pages % 512 == 0 then 1 else 0 }

  lemma OneMoreDirectory(n: nat, pages: nat)
    requires n < pages
    ensures Directories(n + 1) == Directories(n) + NewDirectories(n) && Directories(n + 1) <= Directories(pages)
    ensures n % 512 != 0 ==> NewDirectories(n) == 0
    ensures n % 512 == 0 ==> NewDirectories(n) == 1
  {
  }

  lemma NoDirectories()
    ensures Directories(0) == 0
  {
  }

  lemma OffsetIsFull(n: nat, pdptOffset: int, pdtOffset: nat)
    requires n == 512 * pdptOffset + pdtOffset && 0 < pdtOffset <= 512
    ensures pdtOffset == 512 <==> n % 512 == 0
  {
  }

  lemma FewPages(reservedEnd: nat, n: nat, linearSize: nat)
    requires reservedEnd <= KERNEL_END && 0 < linearSize && reservedEnd == n * 0x200000 + linearSize
    ensures n < 512 * 512 && n < PagesToCover(reservedEnd)
    ensures linearSize <= 0x200000 ==> PagesToCover(reservedEnd) == n + 1
    ensures linearSize <= 0x200000 ==> reservedEnd <= (n + 1) * 0x200000 < reservedEnd + 0x200000
    ensures (n + 1) * 0x200000 == n * 0x200000 + 0x200000
  {
  }

  lemma TwoFrames(pool: set<Frame>)
    requires 1 < |pool|
    ensures exists f :: f in pool && pool - {f} != {}
  {
    var f :| f in pool;
    assert |pool - {f}| == |pool| - 1;
  }

  lemma StartPlaced(pml4: Frame, pdpt: Frame, pool: set<Frame>)
    requires (forall f | f in pool :: IsFrame(f)) && pml4 in pool && pdpt in pool && pml4 != pdpt
    ensures Sized(RootTree(0, 0, pml4)) && [] in RootTree(0, 0, pml4).tables
    ensures var root, t := RootTree(0, 0, pml4), Link(RootTree(0, 0, pml4), [], 0, pdpt, 3);
      && IsIdentity(t, 0) && [0] in t.tables && t.tables[[0]].frame == pdpt
      && Intact(StartMemory(pml4, pdpt), pml4, pool - {pml4} - {pdpt}, t) && EntryAt(0, 2, 0) == 0
      && StartMemory(pml4, pdpt).Keys == {pml4, pdpt}
  {
    hide IsFrame, WithMask, Wf, KeptMask, NoEmpty, PagesOf, IsIdentity;
    var root, e := RootTree(0, 0, pml4), WithMask(pdpt.base, 3);
    RootIsSound(0, 0, pml4, pool, 3);
    StartIsIdentity(pml4, pdpt);
    var mem0 := map[pml4 := NewRoot(0, pml4)];
    IdentityIsWf(Link(root, [], 0, pdpt, 3), 0);
    assert [] + [0] == [0];
    LinkPlaced(mem0, pml4, pool - {pml4}, root, [], 0, pdpt);
    StartIsWritten(pml4, pdpt, e);
  }

  /** The stores of GenerateMap leave the new root, with the PDPT in its first slot, and a cleared PDPT. */
  lemma StartIsWritten(pml4: Frame, pdpt: Frame, e: Entry)
    requires pml4 != pdpt
    ensures Written(Written(map[pml4 := Zeros(512), pdpt := Zeros(512)], pml4, 0, e), pml4, 511, WithMask(pml4.base, 3))
      == Written(map[pml4 := NewRoot(0, pml4)][pdpt := Zeros(512)], pml4, 0, e)
  {
    hide WithMask;
    assert Zeros(512)[0 := e][511 := WithMask(pml4.base, 3)] == NewRoot(0, pml4)[0 := e];
  }

  lemma IdentityIsWf(t: Tree, n: nat)
    requires IsIdentity(t, n)
    ensures Wf(t) && t.lo == 0
  {
  }

  /** The finished map is a page table the kernel can start from. */
  lemma IdentityIsTable(t: Tree, n: nat)
    requires IsIdentity(t, n) && 0 < n
    ensures Wf(t) && t.lo == 0 && NoEmpty(t) && KeptMask(t, 3)
    ensures HasPages(0, PagesOf(t)) && AllOccupied(PagesOf(t)) && CoversKernel(PagesOf(t))
    ensures forall a: nat | IsKernel(a) :: LeafAt(0, PagesOf(t), a) == IdentityAt(a, n)
  {
    hide KeptMask, NoEmpty, Flat, Wf, Indices, IdentityEntry, Huge, Present, Consistent;
    PagesAreConsistent(t);
    var m := PagesOf(t);
    forall ix ensures ix in m <==> IsPathFrom(0, ix) { }
    forall x | x in m && m[x].Leaf? ensures m[x].depth == 2 && Huge(m[x].entry) {
      IdentityIsMarked(PageNumber(x));
    }
    KernelCovered(m);
    forall a: nat | IsKernel(a)
      ensures LeafAt(0, m, a) == IdentityAt(a, n)
    {
      PathOf(0, a);
      KernelNumber(a);
      BelowIff(a, n);
    }
  }

  lemma KernelNumber(a: nat)
    requires IsKernel(a)
    ensures Indices(a)[0] == 0 && PageNumber(Indices(a)) == a / 0x200000
  {
    Nested(a);
  }

  lemma BelowIff(a: nat, n: nat)
    ensures a < n * 0x200000 <==> a / 0x200000 < n
  {
  }

  lemma PageOffsets(n: nat, pdptOffset: int, pdtOffset: nat)
    requires n == 512 * pdptOffset + pdtOffset && pdtOffset <= 512 && -1 <= pdptOffset
    ensures pdtOffset < 512 ==> pdptOffset == n / 512 && pdtOffset == n % 512
  {
  }

  lemma DirectoryOffsets(n: nat, pdptOffset: int)
    requires n == 512 * pdptOffset + 512 && -1 <= pdptOffset
    ensures pdptOffset + 1 == n / 512 && n % 512 == 0
  {
  }

  lemma DirectoryPlaced(mem: Memory, pml4: Frame, pool: set<Frame>, t: Tree, n: nat, page: Frame)
    requires Intact(mem, pml4, pool, t) && IsIdentity(t, n) && n % 512 == 0 && n < 512 * 512 && page in pool
    ensures Sized(t) && [0] in t.tables
    ensures var f, cleared, t' := t.tables[[0]].frame, mem[page := Zeros(512)], Link(t, [0], n / 512, page, 3);
      && f in cleared && |cleared[f]| == 512
      && IsReady(t', n) && [0] in t'.tables && t'.tables[[0]].frame == f
      && [0, n / 512] in t'.tables && t'.tables[[0, n / 512]].frame == page
      && Intact(Written(cleared, f, n / 512, WithMask(page.base, 3)), pml4, pool - {page}, t')
  {
    hide IsFrame, WithMask, PointersOk, PathsOk, Rooted, Flat, KeptMask, NoEmptyBut;
    FreshIsUnused(mem, t, page);
    DirectoryAdded(t, n, page);
    assert [0] + [n / 512] == [0, n / 512];
    LinkPlaced(mem, pml4, pool, t, [0], n / 512, page);
  }

  lemma PagePlaced(mem: Memory, pml4: Frame, pool: set<Frame>, t: Tree, n: nat)
    requires Intact(mem, pml4, pool, t) && IsReady(t, n) && n < 512 * 512
    ensures Sized(t) && [0] in t.tables && [0, n / 512] in t.tables
    ensures var f, t' := t.tables[[0, n / 512]].frame, Put(t, [0, n / 512], n % 512, IdentityEntry(n));
      && f in mem && |mem[f]| == 512
      && IsIdentity(t', n + 1) && [0] in t'.tables && t'.tables[[0]] == t.tables[[0]]
      && [0, n / 512] in t'.tables && t'.tables[[0, n / 512]].frame == f
      && Intact(Written(mem, f, n % 512, IdentityEntry(n)), pml4, pool, t')
    ensures IdentityEntry(n) == WithMask(EntryAt(0, 2, n), IDENTITY_FLAGS)
    ensures EntryAt(0, 2, n + 1) == NextEntry(EntryAt(0, 2, n), 2)
  {
    hide IsFrame, WithMask, PointersOk, PathsOk, Rooted, Flat, KeptMask, NoEmptyBut, NextEntry;
    PageAdded(t, n);
    assert |[0, n / 512]| == 2;
    PutPlaced(mem, pml4, pool, t, [0, n / 512], n % 512, IdentityEntry(n));
  }
}
