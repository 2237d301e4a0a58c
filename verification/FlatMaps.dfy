/**
 The flat view of a page table: every address mapped straight to the leaf that covers it, and the
 three changes the memory maps make to it.
*/
module FlatMaps {
  import opened PageTree
  import opened TreeWalks

  type Pages = imap<Path, Leaf>

  ghost function PagesOf(t: Tree): (m: Pages)
    requires Wf(t)
  {
    imap ix | IsAddress(t, ix) :: Flat(t, ix)
  }

  lemma PagesAre(t: Tree, m: Pages)
    requires Wf(t) && (forall x :: x in m <==> IsAddress(t, x)) && forall x | x in m :: m[x] == Flat(t, x)
    ensures PagesOf(t) == m
  {
    hide Wf, Flat;
  }

  /** All keys are full paths, and a leaf covers its whole page. */
  ghost predicate Consistent(m: Pages) {
    && (forall x | x in m :: |x| == 4 && (m[x].Leaf? ==> m[x].depth <= 3 && m[x].entry != 0))
    && (forall x, y | x in m && y in m && m[x].Leaf? && SamePage(y, x, m[x].depth) :: m[y] == m[x])
  }

  /** A leaf of greater size than asked for covers ix. */
  predicate IsInside(leaf: Leaf, d: nat) {
    leaf.Leaf? && leaf.depth < d
  }

  /** Set stops at a present leaf of greater size. */
  predicate Stops(leaf: Leaf, d: nat) {
    IsInside(leaf, d) && Present(leaf.entry)
  }

  /** Set reports that it replaced a leaf of the same size. */
  predicate Overwrites(leaf: Leaf, d: nat) {
    leaf.Leaf? && leaf.depth == d
  }

  ghost function SetPages(m: Pages, ix: Path, d: nat, e: Entry): (m': Pages)
    requires Consistent(m) && ix in m && d <= 3
    ensures forall x :: x in m' <==> x in m
  {
    imap x | x in m ::
      if SamePage(x, ix, d) then AsLeaf(d, e)
      else if IsInside(m[ix], d) && SamePage(x, ix, m[ix].depth) then NoLeaf
      else m[x]
  }

  ghost function UnsetPages(m: Pages, ix: Path): (m': Pages)
    requires Consistent(m) && ix in m
    ensures forall x :: x in m' <==> x in m
  {
    imap x | x in m :: if m[ix].Leaf? && SamePage(x, ix, m[ix].depth) then NoLeaf else m[x]
  }

  lemma PagesAreConsistent(t: Tree)
    requires Wf(t)
    ensures Consistent(PagesOf(t))
  {
    var m := PagesOf(t);
    forall x, y | x in m && y in m && m[x].Leaf? && SamePage(y, x, m[x].depth) ensures m[y] == m[x] {
      SameSlot(t, x, y);
    }
  }

  /** Two addresses under one slot that holds no table have the same leaf. */
  lemma SameSlot(t: Tree, x: Path, y: Path)
    requires Wf(t) && IsAddress(t, x) && IsAddress(t, y) && SamePage(y, x, LeafDepth(t, x))
    ensures LeafDepth(t, y) == LeafDepth(t, x) && Flat(t, y) == Flat(t, x)
  {
    hide IsTable, AddressOf, IsFrame;
    var d := LeafDepth(t, x);
    LeafPath(t, x);
    ShorterPrefix(y, x, d + 1, d);
    assert y[d] == y[..d + 1][d] == x[..d + 1][d] == x[d];
    LeafIsAt(t, y, d);
  }

  /** Blocked says the same of the tree as Stops of its flat view. */
  lemma BlockedIsStop(t: Tree, ix: Path, d: nat)
    requires Wf(t) && IsAddress(t, ix) && d <= 3
    ensures ix[..LeafDepth(t, ix)] in t.tables && (Blocked(t, ix, d) <==> Stops(PagesOf(t)[ix], d))
  {
    LeafPath(t, ix);
    SlotMet(t, t, ix, LeafDepth(t, ix)) by { LeafStart(t, ix, LeafDepth(t, ix)); }
    assert LeafDepth(t, ix) < 3 ==> !IsTable(SlotEntryOf(t, ix));
  }

  lemma LeafDepthOfFlat(t: Tree, ix: Path)
    requires Wf(t) && IsAddress(t, ix)
    ensures Flat(t, ix).Leaf? ==> Flat(t, ix).depth == LeafDepth(t, ix)
    ensures LeafDepth(t, ix) <= 3
  {
  }

  lemma SetFlatAt(t: Tree, ix: Path, d: nat, e: Entry, x: Path)
    requires Wf(t) && Consistent(PagesOf(t)) && IsAddress(t, ix) && IsAddress(t, x) && d <= 3
    ensures SetFlat(t, ix, d, e, x) == SetPages(PagesOf(t), ix, d, e)[x]
  {
    LeafDepthOfFlat(t, ix);
    if SamePage(x, ix, LeafDepth(t, ix)) { SameSlot(t, ix, x); }
    hide Flat, LeafDepth, Wf, Consistent;
  }

  lemma UnsetFlatAt(t: Tree, ix: Path, x: Path)
    requires Wf(t) && Consistent(PagesOf(t)) && IsAddress(t, ix) && IsAddress(t, x)
    ensures UnsetFlat(t, ix, x) == UnsetPages(PagesOf(t), ix)[x]
  {
    LeafDepthOfFlat(t, ix);
    if SamePage(x, ix, LeafDepth(t, ix)) { SameSlot(t, ix, x); }
    hide Flat, LeafDepth, Wf, Consistent;
  }

  lemma SetFlatIsSetPages(t: Tree, t': Tree, ix: Path, d: nat, e: Entry)
    requires Wf(t) && Wf(t') && t'.lo == t.lo && IsAddress(t, ix) && d <= 3
    requires forall x | IsAddress(t, x) :: Flat(t', x) == SetFlat(t, ix, d, e, x)
    ensures Consistent(PagesOf(t)) && PagesOf(t') == SetPages(PagesOf(t), ix, d, e)
  {
    hide Wf, Flat, SetFlat, Consistent, SetPages;
    PagesAreConsistent(t);
    var m' := SetPages(PagesOf(t), ix, d, e);
    forall x | x in m' ensures m'[x] == Flat(t', x) {
      SetFlatAt(t, ix, d, e, x);
    }
    PagesAre(t', m');
  }

  lemma UnsetFlatIsUnsetPages(t: Tree, t': Tree, ix: Path)
    requires Wf(t) && Wf(t') && t'.lo == t.lo && IsAddress(t, ix) && FlatUnset(t, t', ix)
    ensures Consistent(PagesOf(t)) && PagesOf(t') == UnsetPages(PagesOf(t), ix)
  {
    hide Wf, Flat, UnsetFlat, Consistent, UnsetPages;
    PagesAreConsistent(t);
    var m' := UnsetPages(PagesOf(t), ix);
    forall x | x in m' ensures m'[x] == Flat(t', x) {
      UnsetFlatAt(t, ix, x);
    }
    PagesAre(t', m');
  }

  /** A successful Set changes its own page and no other, unless it lands inside a larger reservation. */
  lemma SetChangesOnlyItsPageIff(t: Tree, ix: Path, d: nat, e: Entry)
    requires Wf(t) && IsAddress(t, ix) && d <= 3
    ensures var m := PagesOf(t);
      && Consistent(m)
      && ((forall x | x in m && !SamePage(x, ix, d) :: SetPages(m, ix, d, e)[x] == m[x]) <==> !IsInside(m[ix], d))
  {
    PagesAreConsistent(t);
    var m := PagesOf(t);
    hide Wf, Flat;
    if IsInside(m[ix], d) {
      var j := if ix[d] == 0 then 1 else 0;
      var x := ix[d := j];
      assert SamePage(x, ix, m[ix].depth);
      assert x[..d + 1][d] == j != ix[..d + 1][d];
      assert x in m && m[x] == m[ix];
    }
  }

  /** What Unset needs to find: a leaf, or the table of a neighbouring 4 KiB leaf. */
  ghost predicate Settled(m: Pages, ix: Path)
    requires Consistent(m) && ix in m
  {
    match m[ix]
    case Leaf(d, e) => d == 3 || Huge(e)
    case NoLeaf => exists x :: x in m && SamePage(x, ix, 2) && m[x].Leaf? && m[x].depth == 3
  }

  /** In a tree without empty tables, whether Unset finds something depends on the flat view alone. */
  lemma FoundIffSettled(t: Tree, ix: Path)
    requires Wf(t) && NoEmpty(t) && IsAddress(t, ix)
    ensures Consistent(PagesOf(t))
    ensures LeafDepth(t, ix) == 3 || Huge(SlotEntryOf(t, ix)) <==> Settled(PagesOf(t), ix)
  {
    PagesAreConsistent(t);
    LeafPath(t, ix);
    var m := PagesOf(t);
    if LeafDepth(t, ix) == 3 {
      var x := LeafBelow(t, ix[..3]);
      LeafPath(t, x);
      assert SamePage(x, ix, 2) && x in m && m[x].Leaf? && m[x].depth == 3;
    } else if m[ix].NoLeaf? {
      assert !Huge(0);
      forall x | x in m && SamePage(x, ix, 2) ensures !(m[x].Leaf? && m[x].depth == 3) {
        ShorterPrefix(x, ix, 3, LeafDepth(t, ix) + 1);
        SameSlot(t, ix, x);
      }
    }
  }

  /** No leaf smaller than a depth-d page lies in the page of ix. */
  ghost predicate Unsplit(m: Pages, ix: Path, d: nat)
    requires Consistent(m) && |ix| == 4 && d <= 3
  {
    forall x | x in m && SamePage(x, ix, d) && m[x].Leaf? :: m[x].depth <= d
  }

  lemma UnsplitHasNoTable(t: Tree, ix: Path, d: nat)
    requires Wf(t) && NoEmpty(t) && IsAddress(t, ix) && d <= 3
    requires Consistent(PagesOf(t)) && Unsplit(PagesOf(t), ix, d)
    ensures LeafDepth(t, ix) <= d
  {
    LeafPath(t, ix);
    if LeafDepth(t, ix) > d {
      var x := LeafBelow(t, ix[..d + 1]);
      assert false;
    }
  }

  lemma NoTableIsUnsplit(t: Tree, ix: Path, d: nat, x: Path)
    requires Wf(t) && IsAddress(t, ix) && d <= 3 && LeafDepth(t, ix) <= d
    requires IsAddress(t, x) && SamePage(x, ix, d) && Flat(t, x).Leaf?
    ensures Flat(t, x).depth <= d
  {
    hide Flat, Wf, LeafDepth;
    ShorterPrefix(x, ix, d + 1, LeafDepth(t, ix) + 1);
    SameSlot(t, ix, x);
    LeafDepthOfFlat(t, x);
  }

  /** Set takes tables out of reach, and never frees them, if and only if smaller leaves lie in its page. */
  lemma SetLosesTablesIff(t: Tree, ix: Path, d: nat)
    requires Wf(t) && NoEmpty(t) && IsAddress(t, ix) && d <= 3
    ensures Consistent(PagesOf(t))
    ensures FramesOf(t, Subtree(t, ix[..d + 1])) != {} <==> !Unsplit(PagesOf(t), ix, d)
  {
    hide Wf, Flat, FramesOf, Subtree, NoEmpty, Consistent, LeafDepth, SamePage;
    PagesAreConsistent(t);
    CutLosesIff(t, ix, d);
    if LeafDepth(t, ix) <= d {
      forall x | IsAddress(t, x) && SamePage(x, ix, d) && Flat(t, x).Leaf? ensures Flat(t, x).depth <= d {
        NoTableIsUnsplit(t, ix, d, x);
      }
    } else if Unsplit(PagesOf(t), ix, d) {
      UnsplitHasNoTable(t, ix, d);
    }
  }

  lemma SamePageIsEquivalence(x: Path, y: Path, z: Path, d: nat, k: nat)
    requires |x| == 4 && |y| == 4 && |z| == 4 && d <= 3 && k <= d
    ensures SamePage(x, y, d) <==> SamePage(y, x, d)
    ensures SamePage(x, y, d) ==> SamePage(x, y, k)
    ensures SamePage(x, y, k) && SamePage(y, z, k) ==> SamePage(x, z, k)
  {
    if SamePage(x, y, d) { ShorterPrefix(x, y, d + 1, k + 1); }
  }

  lemma SetKeepsConsistent(m: Pages, ix: Path, d: nat, e: Entry)
    requires Consistent(m) && ix in m && d <= 3
    ensures Consistent(SetPages(m, ix, d, e))
  {
    var m' := SetPages(m, ix, d, e);
    hide SamePage;
    forall x, y | x in m' && y in m' && m'[x].Leaf? && SamePage(y, x, m'[x].depth) ensures m'[y] == m'[x] {
      if SamePage(x, ix, d) {
        SamePageIsEquivalence(y, x, ix, d, d);
      } else {
        SetKeepsOther(m, ix, d, x, y);
      }
    }
  }

  /** A leaf that survives a Set elsewhere survives at all its addresses. */
  lemma SetKeepsOther(m: Pages, ix: Path, d: nat, x: Path, y: Path)
    requires Consistent(m) && ix in m && d <= 3 && x in m && y in m
    requires !SamePage(x, ix, d) && !(IsInside(m[ix], d) && SamePage(x, ix, m[ix].depth))
    requires m[x].Leaf? && SamePage(y, x, m[x].depth)
    ensures !SamePage(y, ix, d) && !(IsInside(m[ix], d) && SamePage(y, ix, m[ix].depth))
  {
    var k := m[x].depth;
    hide SamePage;
    SamePageIsEquivalence(x, y, ix, k, k);
    SamePageIsEquivalence(y, x, ix, k, k);
    if k <= d {
      SamePageIsEquivalence(y, ix, x, d, k);
      SamePageIsEquivalence(ix, y, x, k, k);
      SamePageIsEquivalence(x, ix, y, k, k);
    } else {
      SamePageIsEquivalence(x, y, ix, k, d);
    }
    if IsInside(m[ix], d) {
      var j := m[ix].depth;
      SamePageIsEquivalence(y, ix, ix, j, j);
    }
  }

  lemma UnsetKeepsConsistent(m: Pages, ix: Path)
    requires Consistent(m) && ix in m
    ensures Consistent(UnsetPages(m, ix))
  {
    var m' := UnsetPages(m, ix);
    hide SamePage;
    forall x, y | x in m' && y in m' && m'[x].Leaf? && SamePage(y, x, m'[x].depth) ensures m'[y] == m'[x] {
      if m[ix].Leaf? && SamePage(y, ix, m[ix].depth) {
        SamePageIsEquivalence(y, ix, ix, m[ix].depth, m[ix].depth);
        assert m[y] == m[ix] && m[y] == m[x];
        SamePageIsEquivalence(y, x, ix, m[ix].depth, m[ix].depth);
        SamePageIsEquivalence(x, y, ix, m[ix].depth, m[ix].depth);
      }
    }
  }

  /**
   Unset finds the page just set exactly for entries of 4 KiB pages and huge ones, and then undoes Set
   exactly on pages in which nothing was mapped or reserved.
  */
  lemma UnsetUndoesSetIff(m: Pages, ix: Path, d: nat, e: Entry)
    requires Consistent(m) && ix in m && d <= 3 && e != 0
    ensures Consistent(SetPages(m, ix, d, e))
    ensures Settled(SetPages(m, ix, d, e), ix) <==> d == 3 || Huge(e)
    ensures UnsetPages(SetPages(m, ix, d, e), ix) == m <==> forall x | x in m && SamePage(x, ix, d) :: m[x].NoLeaf?
  {
    SetKeepsConsistent(m, ix, d, e);
    hide Consistent, SamePage;
    var m' := SetPages(m, ix, d, e);
    SamePageIsEquivalence(ix, ix, ix, d, d);
    SameAsItself(ix, d);
    assert m'[ix] == Leaf(d, e);
    forall x | x in m ensures UnsetPages(m', ix)[x] == if SamePage(x, ix, d) then NoLeaf else m'[x] { }
  }

  lemma SameAsItself(ix: Path, d: nat)
    requires |ix| == 4 && d <= 3
    ensures SamePage(ix, ix, d)
  {
  }

  /** So setting and unsetting a page in vacant space restores the tables as well. */
  lemma RoundTripRestoresTables(t: Tree, t': Tree, ix: Path, d: nat, e: Entry)
    requires Wf(t) && NoEmpty(t) && Wf(t') && NoEmpty(t') && t'.lo == t.lo && IsAddress(t, ix) && d <= 3 && e != 0
    requires Consistent(PagesOf(t)) && Consistent(SetPages(PagesOf(t), ix, d, e))
    requires PagesOf(t') == UnsetPages(SetPages(PagesOf(t), ix, d, e), ix)
    requires forall x | x in PagesOf(t) && SamePage(x, ix, d) :: PagesOf(t)[x].NoLeaf?
    ensures t'.tables.Keys == t.tables.Keys
  {
    UnsetUndoesSetIff(PagesOf(t), ix, d, e);
    hide Wf, Flat, NoEmptyBut, Consistent, SamePage;
    forall x | IsAddress(t, x) ensures Flat(t, x) == Flat(t', x) {
      assert PagesOf(t)[x] == PagesOf(t')[x];
    }
    ShapeIsDetermined(t, t');
  }

  /** The tables of a page table without empty ones are those above some leaf. */
  lemma TableIsAboveLeafIff(t: Tree, q: Path)
    requires Wf(t) && NoEmpty(t) && 0 < |q| <= 3
    ensures q in t.tables <==>
      exists x :: x in PagesOf(t) && x[..|q|] == q && PagesOf(t)[x].Leaf? && PagesOf(t)[x].depth >= |q|
  {
    if q in t.tables {
      var x := LeafBelow(t, q);
      assert x in PagesOf(t);
    } else {
      forall x | x in PagesOf(t) && x[..|q|] == q ensures !(PagesOf(t)[x].Leaf? && PagesOf(t)[x].depth >= |q|) {
        LeafPath(t, x);
      }
    }
  }

  /** Larger leaves are marked huge, as all callers of Set do. */
  ghost predicate MarkedHuge(m: Pages)
    requires Consistent(m)
  {
    forall x | x in m && m[x].Leaf? && m[x].depth < 3 :: Huge(m[x].entry)
  }

  /** Then the entries of the upper tables are zero, pointers, or huge. */
  lemma NoStrays(t: Tree, p: Path, i: nat)
    requires Wf(t) && Consistent(PagesOf(t)) && MarkedHuge(PagesOf(t)) && p in t.tables && |p| < 3 && IsSlot(t, p, i)
    ensures At(t, p, i) == 0 || IsTable(At(t, p, i)) || Huge(At(t, p, i))
    ensures IsTable(At(t, p, i)) <==> p + [i] in t.tables
    ensures IsTable(At(t, p, i)) ==> AddressOf(At(t, p, i)) == t.tables[p + [i]].frame && At(t, p, i) != 0
  {
    SlotIsPointer(t, p, i);
    hide IsTable, AddressOf, IsFrame, Wf, Huge, Flat;
    if p + [i] !in t.tables {
      var x := PathUnder(t, p, i);
      LeafIsAt(t, x, |p|);
      assert x in PagesOf(t);
    }
  }

  lemma SlotIsPointer(t: Tree, p: Path, i: nat)
    requires Wf(t) && p in t.tables && |p| < 3 && IsSlot(t, p, i)
    ensures IsTable(At(t, p, i)) <==> p + [i] in t.tables
    ensures IsTable(At(t, p, i)) ==> AddressOf(At(t, p, i)) == t.tables[p + [i]].frame && At(t, p, i) != 0
  {
    assert PointerOk(t, p, i);
    assert !IsTable(0);
  }

  /** Some address lies under every slot. */
  lemma PathUnder(t: Tree, p: Path, i: nat) returns (x: Path)
    requires PathsOk(t) && p in t.tables && |p| < 3 && IsSlot(t, p, i)
    ensures IsAddress(t, x) && x[..|p|] == p && x[|p|] == i && x[..|p| + 1] == p + [i]
  {
    assert PathOk(t, p);
    x := p + [i] + [0, 0, 0][..3 - |p|];
  }
}
