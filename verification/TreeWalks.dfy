/** The walk of PageTable::Set and of PageTable::Unset through the tree, one edit at a time. */
module TreeWalks {
  import opened PageTree

  // ----- a leaf written over whatever the slot held -----

  /** The tables at path p and below. */
  ghost function Subtree(t: Tree, p: Path): set<Path> {
    set q | q in t.tables && p <= q
  }

  lemma {:induction false} PrefixIsTable(t: Tree, p: Path, q: Path)
    requires PathsOk(t) && q in t.tables && p <= q
    ensures p in t.tables
    decreases |q|
  {
    if |p| < |q| {
      assert PathOk(t, q);
      assert p <= Parent(q);
      PrefixIsTable(t, p, Parent(q));
    } else {
      assert p == q;
    }
  }

  lemma NoSubtree(t: Tree, p: Path)
    requires PathsOk(t) && p !in t.tables
    ensures Subtree(t, p) == {}
  {
    forall q | q in t.tables && p <= q ensures false {
      PrefixIsTable(t, p, q);
    }
  }

  /** Slot i of table p holds the leaf e; the tables that the slot led to are out of reach. */
  ghost function PutCut(t: Tree, p: Path, i: nat, e: Entry): Tree
    requires Sized(t) && p in t.tables && i < 512
  {
    var t1 := Put(t, p, i, e);
    t1.(tables := t1.tables - Subtree(t, p + [i]))
  }

  lemma CutIsPut(t: Tree, p: Path, i: nat, e: Entry)
    requires Sized(t) && PathsOk(t) && p in t.tables && i < 512 && p + [i] !in t.tables
    ensures PutCut(t, p, i, e) == Put(t, p, i, e)
  {
    NoSubtree(t, p + [i]);
  }

  lemma NotBelowItself(p: Path, i: nat, q: Path, j: nat)
    ensures !(p + [i] <= p)
    ensures p + [i] <= q + [j] <==> p + [i] <= q || (q == p && j == i)
  {
    if p + [i] <= q + [j] && !(p + [i] <= q) {
      assert |p + [i]| == |q + [j]|;
      assert p + [i] == q + [j];
      ChildIsUnique(p, i, q, j);
    }
  }

  lemma CutKeepsShape(t: Tree, p: Path, i: nat, e: Entry)
    requires Wf(t) && p in t.tables && IsSlot(t, p, i)
    ensures var t' := PutCut(t, p, i, e); Sized(t') && Rooted(t') && PathsOk(t') && Injective(t')
    ensures p in PutCut(t, p, i, e).tables && p + [i] !in PutCut(t, p, i, e).tables
  {
    hide IsFrame;
    PutKeepsShape(t, p, i, e);
    var t1, t' := Put(t, p, i, e), PutCut(t, p, i, e);
    NotBelowItself(p, i, p, i);
    assert [] !in Subtree(t, p + [i]);
    forall q | q in t'.tables ensures PathOk(t', q) {
      assert PathOk(t1, q);
    }
  }

  lemma CutIsWf(t: Tree, p: Path, i: nat, e: Entry)
    requires Wf(t) && p in t.tables && IsSlot(t, p, i) && (|p| == 3 || !IsTable(e))
    ensures Wf(PutCut(t, p, i, e)) && p in PutCut(t, p, i, e).tables && p + [i] !in PutCut(t, p, i, e).tables
  {
    hide IsTable, AddressOf, IsFrame;
    CutKeepsShape(t, p, i, e);
    var t' := PutCut(t, p, i, e);
    forall q, j: nat | q in t'.tables && |q| < 3 && IsSlot(t', q, j)
      ensures PointerOk(t', q, j)
    {
      assert PointerOk(t, q, j);
      NotBelowItself(p, i, q, j);
    }
  }

  /** The leaf shows at exactly the addresses under the slot, whatever was there. */
  lemma CutFlat(t: Tree, p: Path, i: nat, e: Entry, ix: Path)
    requires Wf(t) && p in t.tables && IsSlot(t, p, i) && IsAddress(t, ix) && (|p| == 3 || !IsTable(e))
    ensures Wf(PutCut(t, p, i, e)) && IsAddress(PutCut(t, p, i, e), ix)
    ensures Flat(PutCut(t, p, i, e), ix) == if Under(ix, p, i) then AsLeaf(|p|, e) else Flat(t, ix)
  {
    hide IsTable, AddressOf, IsFrame, Wf, Flat, PathsOk;
    WfHasPaths(t);
    CutIsWf(t, p, i, e);
    var t' := PutCut(t, p, i, e);
    LeafPath(t, ix);
    ShortPath(t, p);
    UnderChild(ix, p, i);
    if Under(ix, p, i) {
      LeafIsAt(t', ix, |p|);
    } else {
      var d := LeafDepth(t, ix);
      NotUnder(ix, p, i, d);
      LeafIsAt(t, ix, d);
      LeafIsAt(t', ix, d);
    }
  }

  lemma NotUnder(ix: Path, p: Path, i: nat, d: nat)
    requires |ix| == 4 && |p| <= 3 && d <= 3 && !Under(ix, p, i)
    ensures !(p + [i] <= ix[..d]) && (ix[..d] == p ==> ix[d] != i)
  {
    assert |ix[..d]| == d;
    if p + [i] <= ix[..d] {
      assert ix[..|p| + 1] == ix[..d][..|p| + 1] == p + [i];
      UnderChild(ix, p, i);
    }
  }

  lemma CutFills(t: Tree, p: Path, i: nat, e: Entry)
    requires Sized(t) && p in t.tables && i < 512 && NoEmptyBut(t, p) && e != 0
    ensures NoEmpty(PutCut(t, p, i, e))
  {
    PutFills(t, p, i, e);
  }

  // ----- Set -----

  /** Set meets a present huge entry above the depth it was asked for. */
  predicate Blocked(t: Tree, ix: Path, d: nat)
    requires Sized(t) && IsAddress(t, ix) && ix[..LeafDepth(t, ix)] in t.tables
  {
    LeafDepth(t, ix) < d && Present(SlotEntry(t, ix)) && Huge(SlotEntry(t, ix))
  }

  /**
   The flat map after Set(ix, e) at depth d.  A non-present entry above depth d is replaced by a
   table, whatever else it says, so everything it covered is gone.
  */
  ghost function SetFlat(t: Tree, ix: Path, d: nat, e: Entry, x: Path): Leaf
    requires Wf(t) && IsAddress(t, ix) && IsAddress(t, x) && d <= 3
  {
    var above := LeafDepth(t, ix);
    if SamePage(x, ix, d) then AsLeaf(d, e)
    else if above < d && SamePage(x, ix, above) then NoLeaf
    else Flat(t, x)
  }

  ghost predicate DownAt(t0: Tree, t: Tree, ix: Path, k: nat, x: Path)
    requires Wf(t0) && Wf(t) && t.lo == t0.lo && IsAddress(t0, ix) && k <= 3 && IsAddress(t0, x)
  {
    var above := LeafDepth(t0, ix);
    Flat(t, x) == if above < k && SamePage(x, ix, above) then NoLeaf else Flat(t0, x)
  }

  /** The flat map once the tables down to depth k exist. */
  ghost predicate FlatDown(t0: Tree, t: Tree, ix: Path, k: nat)
    requires Wf(t0) && Wf(t) && t.lo == t0.lo && IsAddress(t0, ix) && k <= 3
  {
    forall x {:trigger DownAt(t0, t, ix, k, x)} | IsAddress(t0, x) :: DownAt(t0, t, ix, k, x)
  }

  ghost predicate Keeps(t0: Tree, t: Tree) {
    forall p | p in t0.tables :: p in t.tables && t.tables[p].frame == t0.tables[p].frame
  }

  /** The tables of t0 stay where they are, and new ones lie at depth 1 to k. */
  ghost predicate Grows(t0: Tree, t: Tree, k: nat) {
    Keeps(t0, t) && Sprouts(t0, t, k)
  }

  /** New tables lie at depth 1 to k. */
  ghost predicate Sprouts(t0: Tree, t: Tree, k: nat) {
    forall p | p in t.tables && p !in t0.tables :: 0 < |p| <= k
  }

  /** Only the table just added may still be empty. */
  ghost predicate Filled(t0: Tree, t: Tree, ix: Path, k: nat)
    requires |ix| == 4 && k <= 3
  {
    NoEmpty(t0) ==> NoEmptyBut(t, if k > LeafDepth(t0, ix) then ix[..k] else [])
  }

  /** What holds when Set has reached depth k. */
  ghost predicate Descending(t0: Tree, t: Tree, ix: Path, k: nat)
    requires Wf(t0) && IsAddress(t0, ix) && k <= 3
  {
    && Wf(t) && t.lo == t0.lo && t.first == t0.first && ix[..k] in t.tables
    && FlatDown(t0, t, ix, k)
    && Grows(t0, t, k)
    && (k <= LeafDepth(t0, ix) ==> t.tables.Keys == t0.tables.Keys)
    && (k > LeafDepth(t0, ix) ==> IsZero(t.tables[ix[..k]].slots))
    && Filled(t0, t, ix, k)
  }

  lemma DescendStart(t0: Tree, ix: Path)
    requires Wf(t0) && IsAddress(t0, ix)
    ensures Descending(t0, t0, ix, 0)
  {
    assert ix[..0] == [];
  }

  lemma PrefixUnder(x: Path, ix: Path, k: nat)
    requires |x| == 4 && |ix| == 4 && k <= 3
    ensures SamePage(x, ix, k) <==> Under(x, ix[..k], ix[k])
  {
    UnderChild(x, ix[..k], ix[k]);
    assert ix[..k + 1] == ix[..k] + [ix[k]];
  }

  lemma ShorterPrefix(x: Path, ix: Path, k: nat, j: nat)
    requires |x| == 4 && |ix| == 4 && j <= k <= 4 && x[..k] == ix[..k]
    ensures x[..j] == ix[..j]
  {
    assert x[..j] == x[..k][..j] && ix[..j] == ix[..k][..j];
  }

  /** The slot met at depth k: a table pointer above the leaf, the leaf slot, or zero below it. */
  lemma SlotMet(t0: Tree, t: Tree, ix: Path, k: nat)
    requires Wf(t0) && IsAddress(t0, ix) && k <= 3 && Descending(t0, t, ix, k)
    ensures k < LeafDepth(t0, ix) ==> IsTable(At(t, ix[..k], ix[k]))
    ensures k == LeafDepth(t0, ix) ==> At(t, ix[..k], ix[k]) == SlotEntryOf(t0, ix) && (k < 3 ==> !IsTable(SlotEntryOf(t0, ix)))
    ensures k > LeafDepth(t0, ix) ==> At(t, ix[..k], ix[k]) == 0
  {
    hide IsTable, Wf, FlatDown, Grows, Filled, Flat;
    LeafPath(t0, ix);
    if k == LeafDepth(t0, ix) {
      SlotMetAtLeaf(t0, t, ix, k);
    } else {
      SlotMetElsewhere(t0, t, ix, k);
    }
  }

  lemma SlotMetElsewhere(t0: Tree, t: Tree, ix: Path, k: nat)
    requires Wf(t0) && IsAddress(t0, ix) && k <= 3 && Descending(t0, t, ix, k) && k != LeafDepth(t0, ix)
    ensures Sized(t) && if k < LeafDepth(t0, ix) then IsTable(At(t, ix[..k], ix[k])) else At(t, ix[..k], ix[k]) == 0
  {
    hide IsTable, AddressOf, IsFrame, FlatDown, Filled;
    LeafPath(t0, ix);
    if k < 3 {
      assert PointerOk(t, ix[..k], ix[k]);
      assert ix[..k + 1] == ix[..k] + [ix[k]];
    }
  }

  lemma SlotMetAtLeaf(t0: Tree, t: Tree, ix: Path, k: nat)
    requires Wf(t0) && IsAddress(t0, ix) && k <= 3 && Descending(t0, t, ix, k) && k == LeafDepth(t0, ix)
    ensures Sized(t) && At(t, ix[..k], ix[k]) == SlotEntryOf(t0, ix) && (k < 3 ==> !IsTable(SlotEntryOf(t0, ix)))
  {
    hide IsTable, AddressOf, IsFrame, Filled;
    LeafPath(t0, ix);
    assert DownAt(t0, t, ix, k, ix);
    LeafIsAt(t, ix, k);
    LeafIsAt(t0, ix, k);
    if k < 3 {
      assert PointerOk(t0, ix[..k], ix[k]);
      assert ix[..k + 1] == ix[..k] + [ix[k]];
    }
  }

  lemma DescendingIsWf(t0: Tree, t: Tree, ix: Path, k: nat)
    requires Wf(t0) && IsAddress(t0, ix) && k <= 3 && Descending(t0, t, ix, k)
    ensures Wf(t) && Sized(t) && t.lo == t0.lo && t.first == t0.first && ix[..k] in t.tables && IsAddress(t, ix)
    ensures |ix| == 4 && forall j | 0 <= j < 4 :: ix[j] < 512
  {
  }

  /** Where Set's loop stops, goes down, or adds a table. */
  lemma SlotDecides(t0: Tree, t: Tree, ix: Path, k: nat)
    requires Wf(t0) && IsAddress(t0, ix) && k < 3 && Descending(t0, t, ix, k)
    ensures var e := At(t, ix[..k], ix[k]);
      && (Present(e) && Huge(e) <==> k == LeafDepth(t0, ix) && Present(SlotEntryOf(t0, ix)) && Huge(SlotEntryOf(t0, ix)))
      && (Present(e) && !Huge(e) ==> IsTable(e))
      && (!Present(e) ==> LeafDepth(t0, ix) <= k)
  {
    SlotMet(t0, t, ix, k);
  }

  ghost function SlotEntryOf(t: Tree, ix: Path): Entry
    requires Wf(t) && IsAddress(t, ix)
  {
    LeafPath(t, ix);
    SlotEntry(t, ix)
  }

  lemma DescendMask(t0: Tree, t: Tree, ix: Path, k: nat, mask: bv64)
    requires Wf(t0) && IsAddress(t0, ix) && k < 3 && Descending(t0, t, ix, k)
    requires IsTable(At(t, ix[..k], ix[k])) && IsParentMask(mask)
    ensures Descending(t0, Put(t, ix[..k], ix[k], WithMask(At(t, ix[..k], ix[k]), mask)), ix, k + 1)
  {
    var e := WithMask(At(t, ix[..k], ix[k]), mask);
    MaskedBits(At(t, ix[..k], ix[k]), mask);
    SlotMet(t0, t, ix, k);
    assert e != 0;
    DescendSame(t0, t, ix, k, e);
  }

  lemma MaskKeepsFlatDown(t0: Tree, t: Tree, ix: Path, k: nat, e: Entry)
    requires Wf(t0) && IsAddress(t0, ix) && k < 3 && k < LeafDepth(t0, ix)
    requires Wf(t) && t.lo == t0.lo && ix[..k] in t.tables && FlatDown(t0, t, ix, k)
    requires IsTable(At(t, ix[..k], ix[k])) && SamePointer(At(t, ix[..k], ix[k]), e)
    ensures var t' := Put(t, ix[..k], ix[k], e); Wf(t') && FlatDown(t0, t', ix, k + 1)
  {
    hide IsTable, AddressOf, IsFrame;
    var t' := Put(t, ix[..k], ix[k], e);
    PutKeepsWf(t, ix[..k], ix[k], e);
    hide Wf, Flat, At;
    forall x | IsAddress(t0, x) ensures DownAt(t0, t', ix, k + 1, x) {
      MaskFlat(t, ix[..k], ix[k], e, x);
      assert DownAt(t0, t, ix, k, x);
    }
  }

  lemma DescendSame(t0: Tree, t: Tree, ix: Path, k: nat, e: Entry)
    requires Wf(t0) && IsAddress(t0, ix) && k < 3 && Descending(t0, t, ix, k) && k < LeafDepth(t0, ix)
    requires IsTable(At(t, ix[..k], ix[k])) && SamePointer(At(t, ix[..k], ix[k]), e) && e != 0
    ensures Descending(t0, Put(t, ix[..k], ix[k], e), ix, k + 1)
  {
    hide IsTable, AddressOf, IsFrame, FlatDown, Flat, Filled, Grows, PointersOk, Injective, PathsOk, Rooted, LeafDepth;
    MaskKeepsFlatDown(t0, t, ix, k, e);
    LeafPath(t0, ix);
    PutGrows(t0, t, k, ix[..k], ix[k], e);
    PutFilled(t0, t, ix, k, e);
  }

  lemma PutFilled(t0: Tree, t: Tree, ix: Path, k: nat, e: Entry)
    requires Sized(t) && |ix| == 4 && k < 3 && Filled(t0, t, ix, k) && ix[..k] in t.tables && ix[k] < 512 && e != 0
    requires k < LeafDepth(t0, ix)
    ensures Filled(t0, Put(t, ix[..k], ix[k], e), ix, k + 1)
  {
    if NoEmpty(t0) { PutFills(t, ix[..k], ix[k], e); }
  }

  lemma LinkFilled(t0: Tree, t: Tree, ix: Path, k: nat, f: Frame, e: Entry)
    requires Sized(t) && |ix| == 4 && k < 3 && Filled(t0, t, ix, k) && ix[..k] in t.tables && ix[k] < 512 && e != 0
    requires LeafDepth(t0, ix) <= k
    ensures Filled(t0, Linked(t, ix[..k], ix[k], f, e), ix, k + 1)
  {
    assert ix[..k + 1] == ix[..k] + [ix[k]];
    if NoEmpty(t0) { LinkFills(t, ix[..k], ix[k], f, e); }
  }

  lemma PutGrows(t0: Tree, t: Tree, k: nat, p: Path, i: nat, e: Entry)
    requires Grows(t0, t, k) && Sized(t) && p in t.tables && i < 512
    ensures Grows(t0, Put(t, p, i, e), k + 1) && Grows(t0, Put(t, p, i, e), k)
  {
  }

  lemma LinkGrows(t0: Tree, t: Tree, k: nat, p: Path, i: nat, f: Frame, e: Entry)
    requires Grows(t0, t, k) && Sized(t) && p in t.tables && i < 512 && |p| == k && p + [i] !in t.tables
    ensures Grows(t0, Linked(t, p, i, f, e), k + 1)
  {
    PutGrows(t0, t, k, p, i, e);
  }

  lemma DescendLink(t0: Tree, t: Tree, ix: Path, k: nat, f: Frame, mask: bv64)
    requires Wf(t0) && IsAddress(t0, ix) && k < 3 && Descending(t0, t, ix, k)
    requires !Present(At(t, ix[..k], ix[k])) && IsParentMask(mask)
    requires IsFrame(f) && forall q | q in t.tables :: t.tables[q].frame != f
    ensures ix[..k] + [ix[k]] !in t.tables
    ensures Descending(t0, Link(t, ix[..k], ix[k], f, mask), ix, k + 1)
  {
    hide FlatDown, Flat, IsFrame;
    PointerBits(f, mask);
    SlotMet(t0, t, ix, k);
    assert WithMask(f.base, mask) != 0;
    assert PointerOk(t, ix[..k], ix[k]);
    DescendFresh(t0, t, ix, k, f, WithMask(f.base, mask));
  }

  lemma LinkKeepsFlatAt(t0: Tree, t: Tree, ix: Path, k: nat, f: Frame, e: Entry, x: Path)
    requires Wf(t0) && IsAddress(t0, ix) && k < 3 && LeafDepth(t0, ix) <= k && IsAddress(t0, x)
    requires Wf(t) && t.lo == t0.lo && ix[..k] in t.tables && DownAt(t0, t, ix, k, x)
    requires !IsTable(At(t, ix[..k], ix[k])) && IsFrame(f) && IsTable(e) && AddressOf(e) == f
    requires forall q | q in t.tables :: t.tables[q].frame != f
    ensures var t' := Linked(t, ix[..k], ix[k], f, e);
      Wf(t') && t'.lo == t.lo && DownAt(t0, t', ix, k + 1, x)
  {
    hide IsTable, AddressOf, IsFrame, Wf, Flat, At, LeafDepth;
    LinkFlat(t, ix[..k], ix[k], f, e, x);
    PrefixUnder(x, ix, k);
    if SamePage(x, ix, k) { ShorterPrefix(x, ix, k + 1, LeafDepth(t0, ix) + 1); }
  }

  lemma LinkKeepsFlatDown(t0: Tree, t: Tree, ix: Path, k: nat, f: Frame, e: Entry)
    requires Wf(t0) && IsAddress(t0, ix) && k < 3 && LeafDepth(t0, ix) <= k
    requires Wf(t) && t.lo == t0.lo && ix[..k] in t.tables && FlatDown(t0, t, ix, k)
    requires !IsTable(At(t, ix[..k], ix[k])) && IsFrame(f) && IsTable(e) && AddressOf(e) == f
    requires forall q | q in t.tables :: t.tables[q].frame != f
    ensures var t' := Linked(t, ix[..k], ix[k], f, e); Wf(t') && FlatDown(t0, t', ix, k + 1)
  {
    LinkIsWf(t, ix[..k], ix[k], f, e);
    hide IsTable, AddressOf, IsFrame, Wf, DownAt, At, LeafDepth;
    var t' := Linked(t, ix[..k], ix[k], f, e);
    forall x | IsAddress(t0, x) ensures DownAt(t0, t', ix, k + 1, x) {
      LinkKeepsFlatAt(t0, t, ix, k, f, e, x);
    }
  }

  lemma DescendFresh(t0: Tree, t: Tree, ix: Path, k: nat, f: Frame, e: Entry)
    requires Wf(t0) && IsAddress(t0, ix) && k < 3 && Descending(t0, t, ix, k) && LeafDepth(t0, ix) <= k
    requires !IsTable(At(t, ix[..k], ix[k])) && IsFrame(f) && IsTable(e) && AddressOf(e) == f && e != 0
    requires forall q | q in t.tables :: t.tables[q].frame != f
    ensures Descending(t0, Linked(t, ix[..k], ix[k], f, e), ix, k + 1)
  {
    hide IsTable, AddressOf, IsFrame, FlatDown, Flat, Filled, Grows;
    LinkKeepsFlatDown(t0, t, ix, k, f, e);
    assert ix[..k + 1] == ix[..k] + [ix[k]];
    assert PointerOk(t, ix[..k], ix[k]);
    LinkGrows(t0, t, k, ix[..k], ix[k], f, e);
    LinkFilled(t0, t, ix, k, f, e);
  }

  lemma DescendPut(t0: Tree, t: Tree, ix: Path, d: nat, e: Entry)
    requires Wf(t0) && IsAddress(t0, ix) && d <= 3 && Descending(t0, t, ix, d)
    requires d == 3 || !IsTable(e)
    ensures var t' := PutCut(t, ix[..d], ix[d], e);
      && Wf(t') && t'.lo == t0.lo && t'.first == t0.first && Sprouts(t0, t', d) && (LeafDepth(t0, ix) <= d ==> Grows(t0, t', d))
      && (forall x | IsAddress(t0, x) :: Flat(t', x) == SetFlat(t0, ix, d, e, x))
      && (NoEmpty(t0) && e != 0 ==> NoEmpty(t'))
  {
    hide IsTable, Wf, Descending, PutCut, Sprouts, Grows, LeafDepth, Flat, SetFlat, NoEmpty, Sized;
    DescendPutTables(t0, t, ix, d, e);
    forall x | IsAddress(t0, x) ensures Flat(PutCut(t, ix[..d], ix[d], e), x) == SetFlat(t0, ix, d, e, x) {
      DescendPutFlat(t0, t, ix, d, e, x);
    }
  }

  lemma DescendPutTables(t0: Tree, t: Tree, ix: Path, d: nat, e: Entry)
    requires Wf(t0) && IsAddress(t0, ix) && d <= 3 && Descending(t0, t, ix, d)
    requires d == 3 || !IsTable(e)
    ensures Sized(t) && ix[..d] in t.tables
    ensures var t' := PutCut(t, ix[..d], ix[d], e);
      && Wf(t') && t'.lo == t0.lo && t'.first == t0.first && Sprouts(t0, t', d) && (LeafDepth(t0, ix) <= d ==> Grows(t0, t', d))
      && (NoEmpty(t0) && e != 0 ==> NoEmpty(t'))
  {
    hide AddressOf, IsFrame, FlatDown, PointersOk, Injective, PathsOk;
    CutIsWf(t, ix[..d], ix[d], e);
    PutGrows(t0, t, d, ix[..d], ix[d], e);
    if LeafDepth(t0, ix) <= d { CutIsPut(t, ix[..d], ix[d], e) by { SlotIsNoTable(t0, t, ix, d); } }
    if NoEmpty(t0) && e != 0 {
      CutFills(t, ix[..d], ix[d], e);
    }
  }

  lemma DescendPutFlat(t0: Tree, t: Tree, ix: Path, d: nat, e: Entry, x: Path)
    requires Wf(t0) && IsAddress(t0, ix) && d <= 3 && Descending(t0, t, ix, d) && IsAddress(t0, x)
    requires d == 3 || !IsTable(e)
    ensures Sized(t) && ix[..d] in t.tables
    ensures var t' := PutCut(t, ix[..d], ix[d], e); Wf(t') && t'.lo == t0.lo && Flat(t', x) == SetFlat(t0, ix, d, e, x)
  {
    hide AddressOf, IsFrame, Flat, Grows, Filled, PointersOk, Injective, PathsOk, LeafDepth;
    CutFlat(t, ix[..d], ix[d], e, x);
    PrefixUnder(x, ix, d);
    assert DownAt(t0, t, ix, d, x);
  }

  lemma NoDeepTable(t: Tree, p: Path)
    requires PathsOk(t) && 3 < |p|
    ensures p !in t.tables
  {
    assert p in t.tables ==> PathOk(t, p);
  }

  lemma SlotIsNoTable(t0: Tree, t: Tree, ix: Path, d: nat)
    requires Wf(t0) && IsAddress(t0, ix) && d <= 3 && Descending(t0, t, ix, d) && LeafDepth(t0, ix) <= d
    ensures ix[..d] + [ix[d]] !in t.tables
  {
    LeafPath(t0, ix);
    assert ix[..d + 1] == ix[..d] + [ix[d]];
    if d == 3 { NoDeepTable(t, ix[..4]); }
  }

  /** The tables that a Set at depth d takes out of reach are those of the old tree below its slot. */
  lemma CutIsOld(t0: Tree, t: Tree, ix: Path, d: nat)
    requires Wf(t0) && IsAddress(t0, ix) && d <= 3 && Descending(t0, t, ix, d)
    ensures FramesOf(t, Subtree(t, ix[..d] + [ix[d]])) == FramesOf(t0, Subtree(t0, ix[..d + 1]))
    ensures LeafDepth(t0, ix) <= d <==> Subtree(t0, ix[..d + 1]) == {}
  {
    hide FlatDown, Filled, IsFrame;
    LeafPath(t0, ix);
    assert ix[..d + 1] == ix[..d] + [ix[d]];
    if LeafDepth(t0, ix) <= d {
      SlotIsNoTable(t0, t, ix, d);
      NoSubtree(t, ix[..d + 1]);
      if d == 3 { NoDeepTable(t0, ix[..4]); }
      NoSubtree(t0, ix[..d + 1]);
    } else {
      assert ix[..d + 1] in Subtree(t0, ix[..d + 1]);
      assert Subtree(t, ix[..d + 1]) == Subtree(t0, ix[..d + 1]);
    }
  }

  /** A Set loses pages if and only if its slot held a table. */
  lemma CutLosesIff(t: Tree, ix: Path, d: nat)
    requires Wf(t) && IsAddress(t, ix) && d <= 3
    ensures FramesOf(t, Subtree(t, ix[..d + 1])) == {} <==> LeafDepth(t, ix) <= d
  {
    LeafPath(t, ix);
    if LeafDepth(t, ix) <= d {
      if d == 3 { NoDeepTable(t, ix[..4]); }
      NoSubtree(t, ix[..d + 1]);
    } else {
      assert ix[..d + 1] in Subtree(t, ix[..d + 1]);
      assert t.tables[ix[..d + 1]].frame in FramesOf(t, Subtree(t, ix[..d + 1]));
    }
  }

  // ----- parent masks -----

  /** The entry grants what the mask grants, and does not forbid execution. */
  predicate Carries(e: Entry, mask: bv64) { e & mask == mask && e & NO_EXECUTE == 0 }

  predicate MaskedAt(t: Tree, p: Path, i: nat, mask: bv64)
    requires Sized(t) && p in t.tables && i < 512
  {
    IsTable(At(t, p, i)) ==> Carries(At(t, p, i), mask)
  }

  /** Every table pointer grants what the mask grants. */
  ghost predicate Masked(t: Tree, mask: bv64)
    requires Sized(t)
  {
    forall p, i: nat {:trigger MaskedAt(t, p, i, mask)} | p in t.tables && |p| < 3 && IsSlot(t, p, i) ::
      MaskedAt(t, p, i, mask)
  }

  lemma PutKeepsMasked(t: Tree, p: Path, i: nat, e: Entry, mask: bv64)
    requires Sized(t) && Masked(t, mask) && p in t.tables && i < 512
    requires |p| == 3 || !IsTable(e) || Carries(e, mask)
    ensures Masked(Put(t, p, i, e), mask)
  {
    hide IsTable, Carries;
    var t' := Put(t, p, i, e);
    forall q, j: nat | q in t'.tables && |q| < 3 && IsSlot(t', q, j) ensures MaskedAt(t', q, j, mask) {
      assert MaskedAt(t, q, j, mask);
    }
  }

  lemma CutKeepsMasked(t: Tree, p: Path, i: nat, e: Entry, mask: bv64)
    requires Sized(t) && Masked(t, mask) && p in t.tables && i < 512
    requires |p| == 3 || !IsTable(e) || Carries(e, mask)
    ensures Sized(PutCut(t, p, i, e)) && Masked(PutCut(t, p, i, e), mask)
  {
    hide IsTable, Carries;
    PutKeepsMasked(t, p, i, e, mask);
    var t1, t' := Put(t, p, i, e), PutCut(t, p, i, e);
    forall q, j: nat | q in t'.tables && |q| < 3 && IsSlot(t', q, j) ensures MaskedAt(t', q, j, mask) {
      assert MaskedAt(t1, q, j, mask);
    }
  }

  lemma LinkKeepsMasked(t: Tree, p: Path, i: nat, f: Frame, e: Entry, mask: bv64)
    requires Sized(t) && Masked(t, mask) && p in t.tables && i < 512 && Carries(e, mask)
    ensures Masked(Linked(t, p, i, f, e), mask)
  {
    assert !IsTable(0);
    hide IsTable, Carries;
    PutKeepsMasked(t, p, i, e, mask);
    var t1 := Put(t, p, i, e);
    var t' := Linked(t, p, i, f, e);
    forall q, j: nat | q in t'.tables && |q| < 3 && IsSlot(t', q, j) ensures MaskedAt(t', q, j, mask) {
      if q != p + [i] { assert MaskedAt(t1, q, j, mask); }
    }
  }

  lemma UnlinkKeepsMasked(t: Tree, q: Path, mask: bv64)
    requires Sized(t) && Masked(t, mask)
    requires q in t.tables && q != [] && Parent(q) in t.tables && Last(q) < 512
    ensures Masked(Unlink(t, q), mask)
  {
    assert !IsTable(0);
    hide IsTable, Carries;
    var t1 := Put(t, Parent(q), Last(q), 0);
    PutKeepsMasked(t, Parent(q), Last(q), 0, mask);
    var t' := Unlink(t, q);
    forall p, j: nat | p in t'.tables && |p| < 3 && IsSlot(t', p, j) ensures MaskedAt(t', p, j, mask) {
      assert MaskedAt(t1, p, j, mask);
    }
  }

  // ----- Unset -----

  /** The flat map after Unset(ix): the whole leaf that covers ix is gone. */
  ghost function UnsetFlat(t: Tree, ix: Path, x: Path): Leaf
    requires Wf(t) && IsAddress(t, ix) && IsAddress(t, x)
  {
    var d := LeafDepth(t, ix);
    if SamePage(x, ix, d) then NoLeaf else Flat(t, x)
  }

  ghost predicate FlatUnset(t0: Tree, t: Tree, ix: Path)
    requires Wf(t0) && Wf(t) && t.lo == t0.lo && IsAddress(t0, ix)
  {
    forall x | IsAddress(t0, x) :: Flat(t, x) == UnsetFlat(t0, ix, x)
  }

  /** What holds when Unset has pruned up to depth k. */
  ghost predicate Pruning(t0: Tree, t: Tree, ix: Path, k: nat)
    requires Wf(t0) && IsAddress(t0, ix) && k <= 3
  {
    && Wf(t) && t.lo == t0.lo && t.first == t0.first && ix[..k] in t.tables
    && FlatUnset(t0, t, ix)
    && Keeps(t, t0)
    && (NoEmpty(t0) ==> NoEmptyBut(t, ix[..k]))
  }

  lemma PruneStart(t0: Tree, ix: Path)
    requires Wf(t0) && IsAddress(t0, ix)
    ensures var d := LeafDepth(t0, ix); ix[..d] in t0.tables && Pruning(t0, Put(t0, ix[..d], ix[d], 0), ix, d)
  {
    assert !IsTable(0);
    hide IsTable, AddressOf, IsFrame;
    LeafPath(t0, ix);
    var d := LeafDepth(t0, ix);
    var t := Put(t0, ix[..d], ix[d], 0);
    SlotMet(t0, t0, ix, d) by { LeafStart(t0, ix, d); }
    PutKeepsWf(t0, ix[..d], ix[d], 0);
    forall x | IsAddress(t0, x) ensures Flat(t, x) == UnsetFlat(t0, ix, x) {
      PutFlat(t0, ix[..d], ix[d], 0, x);
      PrefixUnder(x, ix, d);
    }
  }

  lemma LeafStart(t0: Tree, ix: Path, d: nat)
    requires Wf(t0) && IsAddress(t0, ix) && d <= LeafDepth(t0, ix)
    ensures Descending(t0, t0, ix, d)
  {
    LeafPath(t0, ix);
  }

  lemma PruneStep(t0: Tree, t: Tree, ix: Path, k: nat)
    requires Wf(t0) && IsAddress(t0, ix) && 0 < k <= 3 && Pruning(t0, t, ix, k)
    requires IsZero(t.tables[ix[..k]].slots)
    ensures Parent(ix[..k]) == ix[..k - 1] && Last(ix[..k]) == ix[k - 1] && ix[..k - 1] in t.tables
    ensures Pruning(t0, Unlink(t, ix[..k]), ix, k - 1)
  {
    hide IsTable, AddressOf, IsFrame;
    var q := ix[..k];
    UnlinkKeepsWf(t, q);
    PruneKeepsFlat(t0, t, ix, k);
    assert Parent(q) == ix[..k - 1];
  }

  lemma PruneKeepsFlat(t0: Tree, t: Tree, ix: Path, k: nat)
    requires Wf(t0) && IsAddress(t0, ix) && 0 < k <= 3 && Pruning(t0, t, ix, k)
    requires IsZero(t.tables[ix[..k]].slots)
    requires Parent(ix[..k]) in t.tables && Last(ix[..k]) < 512
    requires Wf(Unlink(t, ix[..k])) && Unlink(t, ix[..k]).lo == t.lo
    ensures FlatUnset(t0, Unlink(t, ix[..k]), ix)
  {
    hide IsTable, AddressOf, IsFrame, UnsetFlat, Unlink, IsZero;
    forall x | IsAddress(t0, x) ensures Flat(Unlink(t, ix[..k]), x) == UnsetFlat(t0, ix, x) {
      UnlinkFlat(t, ix[..k], x);
    }
  }

  lemma PruneEnd(t0: Tree, t: Tree, ix: Path, k: nat)
    requires Wf(t0) && IsAddress(t0, ix) && k <= 3 && Pruning(t0, t, ix, k) && NoEmpty(t0)
    requires k == 0 || !IsZero(t.tables[ix[..k]].slots)
    ensures NoEmpty(t)
  {
  }

  // ----- FreeTable -----

  /** The tables below the slots of p before slot i. */
  ghost function SubtreesBefore(t: Tree, p: Path, i: nat): set<Path> {
    set q | q in t.tables && p <= q && |p| < |q| && q[|p|] < i
  }

  ghost function FramesOf(t: Tree, s: set<Path>): set<Frame> {
    set q | q in s && q in t.tables :: t.tables[q].frame
  }

  lemma FramesOfUnion(t: Tree, a: set<Path>, b: set<Path>)
    ensures FramesOf(t, a + b) == FramesOf(t, a) + FramesOf(t, b)
  {
  }

  lemma SubtreesStep(t: Tree, p: Path, i: nat)
    ensures SubtreesBefore(t, p, i + 1) == SubtreesBefore(t, p, i) + Subtree(t, p + [i])
    ensures SubtreesBefore(t, p, i) !! Subtree(t, p + [i])
  {
    forall q | q in t.tables && p <= q && |p| < |q| ensures q[|p|] == i <==> p + [i] <= q {
      assert q == p + q[|p|..];
    }
    forall q | q in t.tables && p + [i] <= q ensures p <= q && q[|p|] == i {
      assert q[..|p|] == (p + [i])[..|p|] == p;
    }
  }

  /** What the slots from `start` on leave out: nothing below p, the skipped slots of the root belong to others. */
  lemma SubtreesWhole(t: Tree, p: Path, start: nat, end: nat)
    requires Wf(t) && p in t.tables
    requires if p == [] then start == t.lo && end == 511 else start == 0 && end == 512
    ensures SubtreesBefore(t, p, start) == {} && Subtree(t, p) == SubtreesBefore(t, p, end) + {p}
  {
    forall q | q in t.tables && p <= q && |p| < |q| ensures start <= q[|p|] < end {
      assert PathOk(t, q);
    }
    forall q | q in t.tables && p <= q ensures |p| < |q| || q == p {
    }
  }

  /** What is left to free below p once the slots before i are done, and what is done. */
  lemma FreeingStarts(t: Tree, p: Path, start: nat, end: nat)
    requires Wf(t) && p in t.tables
    requires if p == [] then start == t.lo && end == 511 else start == 0 && end == 512
    ensures start <= end <= 512 && |t.tables[p].slots| == 512
    ensures FramesOf(t, SubtreesBefore(t, p, start)) == {}
    ensures FramesOf(t, Subtree(t, p)) == FramesOf(t, SubtreesBefore(t, p, end)) + {t.tables[p].frame}
    ensures |p| == 3 ==> FramesOf(t, SubtreesBefore(t, p, end)) == {}
    ensures forall i :: t.tables[p].frame !in FramesOf(t, SubtreesBefore(t, p, i))
    ensures p in Subtree(t, p)
  {
    SubtreesWhole(t, p, start, end);
    FramesOfUnion(t, SubtreesBefore(t, p, end), {p});
    assert FramesOf(t, {p}) == {t.tables[p].frame};
    if |p| == 3 {
      forall q | q in t.tables ensures |q| <= 3 { assert PathOk(t, q); }
    }
  }

  lemma FreeingSteps(t: Tree, p: Path, i: nat)
    requires Wf(t) && p in t.tables
    ensures FramesOf(t, SubtreesBefore(t, p, i + 1)) == FramesOf(t, SubtreesBefore(t, p, i)) + FramesOf(t, Subtree(t, p + [i]))
    ensures p + [i] !in t.tables ==> FramesOf(t, Subtree(t, p + [i])) == {}
    ensures forall q | q in Subtree(t, p + [i]) ::
      q in Subtree(t, p) && q in t.tables && t.tables[q].frame !in FramesOf(t, SubtreesBefore(t, p, i))
  {
    SubtreesStep(t, p, i);
    FramesOfUnion(t, SubtreesBefore(t, p, i), Subtree(t, p + [i]));
    if p + [i] !in t.tables { NoSubtree(t, p + [i]); }
    forall q | q in Subtree(t, p + [i])
      ensures q in Subtree(t, p) && t.tables[q].frame !in FramesOf(t, SubtreesBefore(t, p, i))
    {
      assert q[..|p|] == (p + [i])[..|p|] == p;
    }
  }

  // ----- the tables that a page still needs -----

  /** The tables below the root, down to depth d, that lead to an address. */
  ghost function Prefixes(ix: Path, d: nat): set<Path>
    requires |ix| == 4 && d <= 3
  {
    set j: nat | 1 <= j <= d :: ix[..j]
  }

  /** Those of them that do not exist yet. */
  ghost function MissingAt(t: Tree, ix: Path, d: nat): set<Path>
    requires |ix| == 4 && d <= 3
  {
    Prefixes(ix, d) - t.tables.Keys
  }

  lemma {:induction false} PrefixesCount(ix: Path, k: nat, d: nat)
    requires |ix| == 4 && k <= d <= 3
    ensures |Prefixes(ix, d) - Prefixes(ix, k)| == d - k
  {
    if k == d {
      assert Prefixes(ix, d) - Prefixes(ix, k) == {};
    } else {
      PrefixesCount(ix, k, d - 1);
      assert forall j | 1 <= j <= d - 1 :: |ix[..j]| == j;
      assert Prefixes(ix, d) - Prefixes(ix, k) == (Prefixes(ix, d - 1) - Prefixes(ix, k)) + {ix[..d]};
    }
  }

  lemma MissingCount(t: Tree, ix: Path, d: nat)
    requires Wf(t) && IsAddress(t, ix) && d <= 3
    ensures |MissingAt(t, ix, d)| == if LeafDepth(t, ix) < d then d - LeafDepth(t, ix) else 0
  {
    LeafPath(t, ix);
    var k := LeafDepth(t, ix);
    if k < d {
      PrefixesCount(ix, k, d);
      MissingIsBelow(t, ix, k, d);
    } else {
      assert MissingAt(t, ix, d) == {};
    }
  }

  lemma MissingIsBelow(t: Tree, ix: Path, k: nat, d: nat)
    requires |ix| == 4 && k <= d <= 3 && forall j | 0 <= j <= 3 :: ix[..j] in t.tables <==> j <= k
    ensures MissingAt(t, ix, d) == Prefixes(ix, d) - Prefixes(ix, k)
  {
    forall p | p in MissingAt(t, ix, d) ensures p !in Prefixes(ix, k) { }
    forall p | p in Prefixes(ix, d) && p !in Prefixes(ix, k) ensures p !in t.tables {
      var j: nat :| 1 <= j <= d && p == ix[..j];
    }
  }

  lemma PrefixesNext(ix: Path, k: nat)
    requires |ix| == 4 && k < 3
    ensures Prefixes(ix, 0) == {} && Prefixes(ix, k + 1) == Prefixes(ix, k) + {ix[..k + 1]}
  {
  }

  lemma LinkKeys(t: Tree, ix: Path, k: nat, f: Frame, mask: bv64)
    requires Sized(t) && |ix| == 4 && k < 3 && ix[..k] in t.tables && ix[k] < 512
    ensures Link(t, ix[..k], ix[k], f, mask).tables.Keys == t.tables.Keys + {ix[..k + 1]}
  {
    hide WithMask;
    assert ix[..k] + [ix[k]] == ix[..k + 1];
  }

  /** A leaf at depth d over whatever is there: the tables above it exist, and those below it no more. */
  lemma CutKeys(t0: Tree, t: Tree, ix: Path, d: nat, e: Entry)
    requires Sized(t) && |ix| == 4 && d <= 3 && ix[..d] in t.tables && ix[d] < 512
    requires t.tables.Keys == t0.tables.Keys + Prefixes(ix, d)
    ensures PutCut(t, ix[..d], ix[d], e).tables.Keys == t.tables.Keys - Subtree(t0, ix[..d + 1])
  {
    assert ix[..d] + [ix[d]] == ix[..d + 1];
    forall q | q in Prefixes(ix, d) ensures |q| < |ix[..d + 1]| { }
    assert Subtree(t, ix[..d + 1]) == Subtree(t0, ix[..d + 1]);
  }
}
