/**
 The four-level table tree, the flat map it stands for, and the four edits of which PageTable::Set
 and PageTable::Unset consist.
*/
module PageTree {

  type Entry = bv64

  /** A page frame, named by its physical address. */
  datatype Frame = Frame(base: bv64)

  const ADDRESS_BITS: bv64 := 0x7FFF_FFFF_FFFF_F000

  predicate Present(e: Entry) { e & 1 != 0 }
  predicate Huge(e: Entry) { e & 0x80 != 0 }
  function AddressOf(e: Entry): Frame { Frame(e & ADDRESS_BITS) }

  /** A pointer to a lower table, in a table of depth 0 to 2. */
  predicate IsTable(e: Entry) { Present(e) && !Huge(e) }

  predicate IsFrame(f: Frame) { f.base & ADDRESS_BITS == f.base }

  const NO_EXECUTE: bv64 := 0x8000_0000_0000_0000

  /** The masks callers OR into parents (3 and 7) mark an entry as a table pointer and nothing else. */
  predicate IsParentMask(mask: bv64) { mask & 0x81 == 1 && mask & (ADDRESS_BITS | NO_EXECUTE) == 0 }

  /** An entry with the mask ORed in: a new pointer to f, or an old one made to grant more. */
  function WithMask(e: Entry, mask: bv64): Entry { e | mask }

  lemma PointerBits(f: Frame, mask: bv64)
    requires IsFrame(f) && IsParentMask(mask)
    ensures IsTable(WithMask(f.base, mask)) && AddressOf(WithMask(f.base, mask)) == f
  {
  }

  lemma MaskedBits(e: Entry, mask: bv64)
    requires IsTable(e) && IsParentMask(mask)
    ensures IsTable(WithMask(e, mask)) && AddressOf(WithMask(e, mask)) == AddressOf(e)
  {
  }

  /** A position in the tree: the slot indices from the PML4 down. */
  type Path = seq<nat>

  datatype Table = Table(frame: Frame, slots: seq<Entry>)

  /**
   The tables of one page table, by path.  Slots of the root below `lo` belong to somebody else
   (`first`, the kernel's PDPT in a user map), and slot 0x1ff is the self-map.
  */
  datatype Tree = Tree(tables: map<Path, Table>, lo: nat, first: Entry)

  function Zeros(n: nat): (s: seq<Entry>)
    ensures |s| == n && forall i | 0 <= i < n :: s[i] == 0
  {
    if n == 0 then [] else Zeros(n - 1) + [0]
  }

  /** A zeroed table. */
  predicate IsZero(s: seq<Entry>) {
    |s| == 512 && forall i | 0 <= i < 512 :: s[i] == 0
  }

  predicate IsSlot(t: Tree, p: Path, i: nat) {
    i < 512 && (p == [] ==> t.lo <= i < 511)
  }

  predicate IsPath(t: Tree, p: Path) {
    (forall k | 0 <= k < |p| :: p[k] < 512) && (p != [] ==> t.lo <= p[0] < 511)
  }

  /** The four indices of an address this tree is responsible for. */
  predicate IsAddress(t: Tree, ix: Path) {
    |ix| == 4 && IsPath(t, ix)
  }

  predicate Sized(t: Tree) {
    forall p | p in t.tables :: |t.tables[p].slots| == 512
  }

  function At(t: Tree, p: Path, i: nat): Entry
    requires Sized(t) && p in t.tables && i < 512
  {
    t.tables[p].slots[i]
  }

  function Parent(p: Path): Path
    requires p != []
  {
    p[..|p| - 1]
  }

  function Last(p: Path): nat
    requires p != []
  {
    p[|p| - 1]
  }

  ghost predicate Rooted(t: Tree)
    requires Sized(t)
  {
    && t.lo < 511 && [] in t.tables && At(t, [], 511) == WithMask(t.tables[[]].frame.base, 3)
    && (0 < t.lo ==> At(t, [], 0) == t.first)
  }

  predicate PathOk(t: Tree, p: Path)
    requires p in t.tables
  {
    |p| <= 3 && IsPath(t, p) && IsFrame(t.tables[p].frame) && (p != [] ==> Parent(p) in t.tables)
  }

  ghost predicate PathsOk(t: Tree) {
    forall p {:trigger PathOk(t, p)} | p in t.tables :: PathOk(t, p)
  }

  /** No frame is used for two tables. */
  ghost predicate Injective(t: Tree) {
    forall p, q | p in t.tables && q in t.tables && t.tables[p].frame == t.tables[q].frame :: p == q
  }

  predicate PointerOk(t: Tree, p: Path, i: nat)
    requires Sized(t) && p in t.tables && i < 512
  {
    && (IsTable(At(t, p, i)) <==> p + [i] in t.tables)
    && (IsTable(At(t, p, i)) ==> AddressOf(At(t, p, i)) == t.tables[p + [i]].frame)
  }

  ghost predicate PointersOk(t: Tree)
    requires Sized(t)
  {
    forall p, i: nat {:trigger PointerOk(t, p, i)} | p in t.tables && |p| < 3 && IsSlot(t, p, i) :: PointerOk(t, p, i)
  }

  /**
   Every table is reached from the root through exactly one parent entry, and every table pointer
   leads to a table.
  */
  ghost predicate Wf(t: Tree) {
    Sized(t) && Rooted(t) && PathsOk(t) && Injective(t) && PointersOk(t)
  }

  // ----- the flat map -----

  datatype Leaf = NoLeaf | Leaf(depth: nat, entry: Entry)

  /** x and ix lie in the same page of a depth-d leaf. */
  predicate SamePage(x: Path, ix: Path, d: nat)
    requires |x| == 4 && |ix| == 4 && d <= 3
  {
    x[..d + 1] == ix[..d + 1]
  }

  /** Depth of the table whose slot decides the address. */
  function LeafDepth(t: Tree, ix: Path): (d: nat)
    requires |ix| == 4
    ensures d <= 3
  {
    if ix[..1] !in t.tables then 0 else if ix[..2] !in t.tables then 1 else if ix[..3] !in t.tables then 2 else 3
  }

  lemma LeafPath(t: Tree, ix: Path)
    requires Wf(t) && IsAddress(t, ix)
    ensures forall d | 0 <= d <= 3 :: ix[..d] in t.tables <==> d <= LeafDepth(t, ix)
  {
    assert ix[..0] == [];
    if ix[..3] in t.tables { assert PathOk(t, ix[..3]) && Parent(ix[..3]) == ix[..2]; }
    if ix[..2] in t.tables { assert PathOk(t, ix[..2]) && Parent(ix[..2]) == ix[..1]; }
  }

  function SlotEntry(t: Tree, ix: Path): Entry
    requires Sized(t) && IsAddress(t, ix) && ix[..LeafDepth(t, ix)] in t.tables
  {
    At(t, ix[..LeafDepth(t, ix)], ix[LeafDepth(t, ix)])
  }

  /** The non-zero leaf entry that covers the address, with its depth. */
  ghost function Flat(t: Tree, ix: Path): Leaf
    requires Wf(t) && IsAddress(t, ix)
  {
    LeafPath(t, ix);
    var e := SlotEntry(t, ix);
    AsLeaf(LeafDepth(t, ix), e)
  }

  /** What a slot at depth d stands for once it holds e. */
  function AsLeaf(d: nat, e: Entry): Leaf {
    if e == 0 then NoLeaf else Leaf(d, e)
  }

  lemma LeafIsAt(t: Tree, ix: Path, d: nat)
    requires Wf(t) && IsAddress(t, ix) && d <= 3 && ix[..d] in t.tables && (d == 3 || ix[..d + 1] !in t.tables)
    ensures LeafDepth(t, ix) == d && Flat(t, ix) == AsLeaf(d, At(t, ix[..d], ix[d]))
  {
    LeafPath(t, ix);
  }

  // ----- the edits -----

  function Put(t: Tree, p: Path, i: nat, e: Entry): Tree
    requires Sized(t) && p in t.tables && i < 512
  {
    t.(tables := t.tables[p := Table(t.tables[p].frame, t.tables[p].slots[i := e])])
  }

  function Linked(t: Tree, p: Path, i: nat, f: Frame, e: Entry): Tree
    requires Sized(t) && p in t.tables && i < 512
  {
    var t1 := Put(t, p, i, e);
    t1.(tables := t1.tables[p + [i] := Table(f, Zeros(512))])
  }

  /** Point slot i of table p at the fresh, zeroed frame f. */
  function Link(t: Tree, p: Path, i: nat, f: Frame, mask: bv64): Tree
    requires Sized(t) && p in t.tables && i < 512
  {
    Linked(t, p, i, f, WithMask(f.base, mask))
  }

  /** Clear the slot that points at table q and drop q. */
  function Unlink(t: Tree, q: Path): Tree
    requires Sized(t) && q in t.tables && q != [] && Parent(q) in t.tables && Last(q) < 512
  {
    var t1 := Put(t, Parent(q), Last(q), 0);
    t1.(tables := t1.tables - {q})
  }

  lemma SameFramesKeepShape(t: Tree, t': Tree)
    requires PathsOk(t) && Injective(t) && t'.lo == t.lo && t'.tables.Keys == t.tables.Keys
    requires forall q | q in t.tables :: t'.tables[q].frame == t.tables[q].frame
    ensures PathsOk(t') && Injective(t')
  {
    hide IsFrame;
    forall q | q in t'.tables ensures PathOk(t', q) {
      assert PathOk(t, q);
    }
  }

  lemma PutKeepsShape(t: Tree, p: Path, i: nat, e: Entry)
    requires Wf(t) && p in t.tables && IsSlot(t, p, i)
    ensures var t' := Put(t, p, i, e); Sized(t') && Rooted(t') && PathsOk(t') && Injective(t')
  {
    SameFramesKeepShape(t, Put(t, p, i, e));
  }

  /** Both entries point at the same table, or neither points at any. */
  predicate SamePointer(a: Entry, b: Entry) {
    (IsTable(a) <==> IsTable(b)) && (IsTable(a) ==> AddressOf(a) == AddressOf(b))
  }

  lemma PutKeepsWf(t: Tree, p: Path, i: nat, e: Entry)
    requires Wf(t) && p in t.tables && IsSlot(t, p, i)
    requires |p| == 3 || SamePointer(At(t, p, i), e)
    ensures Wf(Put(t, p, i, e))
  {
    hide IsTable, AddressOf;
    var t' := Put(t, p, i, e);
    PutKeepsShape(t, p, i, e);
    forall q, j: nat | q in t'.tables && |q| < 3 && IsSlot(t', q, j)
      ensures PointerOk(t', q, j)
    {
      assert PointerOk(t, q, j);
    }
  }

  lemma ChildIsUnique(p: Path, i: nat, q: Path, j: nat)
    ensures p + [i] == q + [j] <==> p == q && i == j
  {
    if p + [i] == q + [j] {
      assert Parent(p + [i]) == p && Parent(q + [j]) == q;
      assert Last(p + [i]) == i && Last(q + [j]) == j;
    }
  }

  /** A table whose own path is missing has no children. */
  lemma NoOrphans(t: Tree, q: Path, j: nat)
    requires PathsOk(t) && q !in t.tables
    ensures q + [j] !in t.tables
  {
    assert Parent(q + [j]) == q;
    assert q + [j] in t.tables ==> PathOk(t, q + [j]);
  }

  lemma LinkIsWf(t: Tree, p: Path, i: nat, f: Frame, e: Entry)
    requires Wf(t) && p in t.tables && |p| < 3 && IsSlot(t, p, i) && !IsTable(At(t, p, i))
    requires (forall q | q in t.tables :: t.tables[q].frame != f) && IsFrame(f) && IsTable(e) && AddressOf(e) == f
    ensures Wf(Linked(t, p, i, f, e))
  {
    hide IsTable, AddressOf, IsFrame, PointersOk, PathsOk, Injective, Rooted, Sized, Linked;
    LinkKeepsShape(t, p, i, f, e);
    LinkKeepsPointers(t, p, i, f, e);
  }

  lemma LinkKeepsPointers(t: Tree, p: Path, i: nat, f: Frame, e: Entry)
    requires Wf(t) && p in t.tables && |p| < 3 && IsSlot(t, p, i) && !IsTable(At(t, p, i))
    requires IsTable(e) && AddressOf(e) == f && Sized(Linked(t, p, i, f, e))
    ensures PointersOk(Linked(t, p, i, f, e))
  {
    ZeroIsNoTable();
    hide IsTable, AddressOf, IsFrame, Injective, Rooted;
    var t' := Linked(t, p, i, f, e);
    assert PointerOk(t, p, i);
    forall q, j: nat | q in t'.tables && |q| < 3 && IsSlot(t', q, j)
      ensures PointerOk(t', q, j)
    {
      ChildIsUnique(p, i, q, j);
      if q == p + [i] {
        NoOrphans(t, q, j);
      } else {
        assert PointerOk(t, q, j);
      }
    }
  }

  lemma ZeroIsNoTable()
    ensures !IsTable(0)
  {
  }

  lemma ChildPath(t: Tree, p: Path, i: nat)
    requires p in t.tables && PathOk(t, p) && |p| < 3 && IsSlot(t, p, i)
    ensures var q := p + [i]; |q| <= 3 && IsPath(t, q) && Parent(q) == p && Last(q) == i
  {
  }

  lemma LinkKeepsShape(t: Tree, p: Path, i: nat, f: Frame, e: Entry)
    requires Wf(t) && p in t.tables && |p| < 3 && IsSlot(t, p, i) && !IsTable(At(t, p, i))
    requires (forall q | q in t.tables :: t.tables[q].frame != f) && IsFrame(f)
    ensures var t' := Linked(t, p, i, f, e); Sized(t') && Rooted(t') && PathsOk(t') && Injective(t')
  {
    var t1 := Put(t, p, i, e);
    PutKeepsShape(t, p, i, e);
    assert PointerOk(t, p, i) && PathOk(t, p);
    ChildPath(t, p, i);
    AddKeepsShape(t1, p, i, Table(f, Zeros(512)));
  }

  lemma AddKeepsShape(t: Tree, p: Path, i: nat, table: Table)
    requires Sized(t) && Rooted(t) && PathsOk(t) && Injective(t) && p in t.tables && p + [i] !in t.tables
    requires var q := p + [i]; |q| <= 3 && IsPath(t, q) && Parent(q) == p
    requires (forall q | q in t.tables :: t.tables[q].frame != table.frame)
    requires IsFrame(table.frame) && |table.slots| == 512
    ensures var t' := t.(tables := t.tables[p + [i] := table]);
      Sized(t') && Rooted(t') && PathsOk(t') && Injective(t')
  {
    hide IsFrame, IsPath, Injective, PathOk, WithMask;
    var c := p + [i];
    var t' := t.(tables := t.tables[c := table]);
    AddKeepsInjective(t, c, table);
    forall q | q in t'.tables ensures PathOk(t', q) {
      AddKeepsPath(t, c, table, q);
    }
  }

  lemma AddKeepsInjective(t: Tree, c: Path, table: Table)
    requires Injective(t) && c !in t.tables && forall q | q in t.tables :: t.tables[q].frame != table.frame
    ensures Injective(t.(tables := t.tables[c := table]))
  {
  }

  lemma AddKeepsPath(t: Tree, c: Path, table: Table, q: Path)
    requires PathsOk(t) && c != [] && Parent(c) in t.tables && |c| <= 3 && IsPath(t, c) && IsFrame(table.frame)
    requires q in t.tables || q == c
    ensures PathOk(t.(tables := t.tables[c := table]), q)
  {
    if q != c { assert PathOk(t, q); }
  }

  lemma ParentSlot(t: Tree, q: Path)
    requires Wf(t) && q in t.tables && q != []
    ensures Parent(q) in t.tables && |q| <= 3 && IsSlot(t, Parent(q), Last(q)) && q == Parent(q) + [Last(q)]
    ensures IsTable(At(t, Parent(q), Last(q)))
  {
    hide IsTable, AddressOf, IsFrame;
    assert PathOk(t, q);
    assert PointerOk(t, Parent(q), Last(q));
  }

  /** An empty table has no children, so dropping it leaves no orphan. */
  lemma EmptyIsChildless(t: Tree, q: Path, p: Path)
    requires Wf(t) && q in t.tables && IsZero(t.tables[q].slots) && p in t.tables && p != []
    ensures Parent(p) != q
  {
    if Parent(p) == q {
      ParentSlot(t, p);
    }
  }

  lemma UnlinkKeepsWf(t: Tree, q: Path)
    requires Wf(t) && q in t.tables && q != [] && IsZero(t.tables[q].slots)
    ensures Parent(q) in t.tables && Last(q) < 512 && Wf(Unlink(t, q))
  {
    ParentSlot(t, q);
    UnlinkKeepsShape(t, q);
    UnlinkKeepsPointers(t, q);
  }

  lemma UnlinkKeepsShape(t: Tree, q: Path)
    requires Wf(t) && q in t.tables && q != [] && IsZero(t.tables[q].slots)
    requires Parent(q) in t.tables && IsSlot(t, Parent(q), Last(q))
    ensures var t' := Unlink(t, q); Sized(t') && Rooted(t') && PathsOk(t') && Injective(t')
  {
    hide IsTable, AddressOf, IsFrame;
    var t' := Unlink(t, q);
    PutKeepsShape(t, Parent(q), Last(q), 0);
    forall p | p in t'.tables ensures PathOk(t', p) {
      assert PathOk(t, p);
      if p != [] { EmptyIsChildless(t, q, p); }
    }
  }

  lemma UnlinkKeepsPointers(t: Tree, q: Path)
    requires Wf(t) && q in t.tables && q != [] && Parent(q) in t.tables && IsSlot(t, Parent(q), Last(q))
    requires Sized(Unlink(t, q))
    ensures PointersOk(Unlink(t, q))
  {
    assert !IsTable(0);
    hide IsTable, AddressOf, IsFrame;
    var t' := Unlink(t, q);
    forall p, j: nat | p in t'.tables && |p| < 3 && IsSlot(t', p, j)
      ensures PointerOk(t', p, j)
    {
      assert PointerOk(t, p, j);
      assert q == Parent(q) + [Last(q)];
      ChildIsUnique(p, j, Parent(q), Last(q));
    }
  }

  // ----- what the edits do to the flat map -----

  /** The address ix lies under the slot i of the table p. */
  predicate Under(ix: Path, p: Path, i: nat)
    requires |ix| == 4
  {
    |p| <= 3 && ix[..|p|] == p && ix[|p|] == i
  }

  lemma UnderChild(ix: Path, p: Path, i: nat)
    requires |ix| == 4 && |p| <= 3
    ensures Under(ix, p, i) <==> ix[..|p| + 1] == p + [i]
  {
    if ix[..|p| + 1] == p + [i] {
      assert ix[..|p| + 1][..|p|] == ix[..|p|] && ix[..|p| + 1][|p|] == ix[|p|];
    }
  }

  lemma PutFlat(t: Tree, p: Path, i: nat, e: Entry, ix: Path)
    requires Wf(t) && p in t.tables && IsSlot(t, p, i) && IsAddress(t, ix)
    requires |p| == 3 || (!IsTable(At(t, p, i)) && !IsTable(e))
    ensures Wf(Put(t, p, i, e)) && IsAddress(Put(t, p, i, e), ix)
    ensures Flat(Put(t, p, i, e), ix) == if Under(ix, p, i) then AsLeaf(|p|, e) else Flat(t, ix)
  {
    hide IsTable, AddressOf, IsFrame, Wf, Flat, PathsOk;
    WfHasPaths(t);
    ShortPath(t, p);
    PutKeepsWf(t, p, i, e);
    var t' := Put(t, p, i, e);
    LeafPath(t, ix);
    if Under(ix, p, i) {
      if |p| < 3 {
        NoTableBelow(t, p, i);
        UnderChild(ix, p, i);
      }
      LeafIsAt(t', ix, |p|);
    } else {
      var d := LeafDepth(t, ix);
      assert |ix[..d]| == d;
      LeafIsAt(t, ix, d);
      LeafIsAt(t', ix, d);
    }
  }

  lemma MaskFlat(t: Tree, p: Path, i: nat, e: Entry, ix: Path)
    requires Wf(t) && p in t.tables && |p| < 3 && IsSlot(t, p, i) && IsAddress(t, ix)
    requires IsTable(At(t, p, i)) && SamePointer(At(t, p, i), e)
    ensures Wf(Put(t, p, i, e)) && IsAddress(Put(t, p, i, e), ix)
    ensures Flat(Put(t, p, i, e), ix) == Flat(t, ix)
  {
    hide IsTable, AddressOf, IsFrame;
    PutKeepsWf(t, p, i, e);
    LeafPath(t, ix);
    var d := LeafDepth(t, ix);
    assert |ix[..d]| == d;
    assert PointerOk(t, p, i);
    UnderChild(ix, p, i);
    LeafIsAt(Put(t, p, i, e), ix, d);
  }

  lemma NoTableBelow(t: Tree, p: Path, i: nat)
    requires Wf(t) && p in t.tables && |p| < 3 && IsSlot(t, p, i) && !IsTable(At(t, p, i))
    ensures p + [i] !in t.tables
  {
    assert PointerOk(t, p, i);
  }

  lemma ShortPath(t: Tree, p: Path)
    requires PathsOk(t) && p in t.tables
    ensures |p| <= 3
  {
    assert PathOk(t, p);
  }

  lemma WfHasPaths(t: Tree)
    requires Wf(t)
    ensures Sized(t) && PathsOk(t)
  {
  }

  lemma LinkFlat(t: Tree, p: Path, i: nat, f: Frame, e: Entry, ix: Path)
    requires Wf(t) && p in t.tables && |p| < 3 && IsSlot(t, p, i) && !IsTable(At(t, p, i)) && IsAddress(t, ix)
    requires (forall q | q in t.tables :: t.tables[q].frame != f) && IsFrame(f) && IsTable(e) && AddressOf(e) == f
    ensures Wf(Linked(t, p, i, f, e)) && IsAddress(Linked(t, p, i, f, e), ix)
    ensures Flat(Linked(t, p, i, f, e), ix) == if Under(ix, p, i) then NoLeaf else Flat(t, ix)
  {
    hide IsTable, AddressOf, IsFrame, Wf, Flat, LeafDepth, PathsOk;
    WfHasPaths(t);
    NoTableBelow(t, p, i);
    LinkIsWf(t, p, i, f, e);
    UnderChild(ix, p, i);
    if Under(ix, p, i) {
      if |p| < 2 { NoOrphans(t, p + [i], ix[|p| + 1]); }
      assert ix[..|p| + 2] == ix[..|p| + 1] + [ix[|p| + 1]];
      LeafIsAt(Linked(t, p, i, f, e), ix, |p| + 1);
    } else {
      LinkIsElsewhere(t, p, i, f, e, ix);
    }
  }

  lemma LinkIsElsewhere(t: Tree, p: Path, i: nat, f: Frame, e: Entry, ix: Path)
    requires Wf(t) && p in t.tables && |p| < 3 && i < 512 && p + [i] !in t.tables && IsAddress(t, ix) && !Under(ix, p, i)
    requires Wf(Linked(t, p, i, f, e)) && IsAddress(Linked(t, p, i, f, e), ix)
    ensures Flat(Linked(t, p, i, f, e), ix) == Flat(t, ix)
  {
    hide IsTable, AddressOf, IsFrame, Wf, Flat;
    LeafPath(t, ix);
    UnderChild(ix, p, i);
    var d := LeafDepth(t, ix);
    assert |ix[..d]| == d;
    assert |p + [i]| == |p| + 1;
    assert d < 3 && ix[..d + 1] == p + [i] ==> |p| == d;
    WfHasPaths(t);
    LeafIsAt(t, ix, d);
    LeafIsAt(Linked(t, p, i, f, e), ix, d);
  }

  lemma EmptyIsLeaf(t: Tree, q: Path, ix: Path)
    requires Wf(t) && q in t.tables && q != [] && |q| <= 3 && IsZero(t.tables[q].slots) && IsAddress(t, ix) && ix[..|q|] == q
    ensures LeafDepth(t, ix) == |q| && Flat(t, ix) == NoLeaf
  {
    hide IsTable, AddressOf, IsFrame;
    if |q| < 3 && ix[..|q| + 1] in t.tables {
      assert Parent(ix[..|q| + 1]) == ix[..|q|];
      EmptyIsChildless(t, q, ix[..|q| + 1]);
    }
    LeafIsAt(t, ix, |q|);
  }

  lemma ParentOfPrefix(q: Path, ix: Path)
    requires 0 < |q| <= |ix| && ix[..|q|] == q
    ensures ix[..|q| - 1] == Parent(q) && ix[|q| - 1] == Last(q)
  {
  }

  lemma UnlinkFlat(t: Tree, q: Path, ix: Path)
    requires Wf(t) && q in t.tables && q != [] && IsZero(t.tables[q].slots) && IsAddress(t, ix)
    ensures Parent(q) in t.tables && Last(q) < 512 && Wf(Unlink(t, q)) && IsAddress(Unlink(t, q), ix)
    ensures Flat(Unlink(t, q), ix) == Flat(t, ix)
  {
    hide IsTable, AddressOf, IsFrame, Wf, Flat, PathsOk;
    WfHasPaths(t);
    UnlinkKeepsWf(t, q);
    ParentSlot(t, q);
    var t' := Unlink(t, q);
    LeafPath(t, ix);
    var d := LeafDepth(t, ix);
    assert |ix[..d]| == d;
    LeafIsAt(t, ix, d);
    if ix[..|q|] == q {
      EmptyIsLeaf(t, q, ix);
      ParentOfPrefix(q, ix);
      LeafIsAt(t', ix, d - 1);
    } else {
      LeafIsAt(t', ix, d);
    }
  }

  // ----- empty tables -----

  ghost predicate NoEmptyBut(t: Tree, p: Path) {
    forall q | q in t.tables && q != [] && q != p :: !IsZero(t.tables[q].slots)
  }

  /** No table but the root is empty. */
  ghost predicate NoEmpty(t: Tree) {
    NoEmptyBut(t, [])
  }

  lemma PutFills(t: Tree, p: Path, i: nat, e: Entry)
    requires Sized(t) && p in t.tables && i < 512 && NoEmptyBut(t, p) && e != 0
    ensures NoEmpty(Put(t, p, i, e))
  {
    assert Put(t, p, i, e).tables[p].slots[i] == e;
  }

  lemma LinkFills(t: Tree, p: Path, i: nat, f: Frame, e: Entry)
    requires Sized(t) && p in t.tables && i < 512 && NoEmptyBut(t, p) && e != 0
    ensures NoEmptyBut(Linked(t, p, i, f, e), p + [i])
  {
    PutFills(t, p, i, e);
  }

  /** Under every table there is a leaf. */
  lemma {:induction false} LeafBelow(t: Tree, q: Path) returns (ix: Path)
    requires Wf(t) && NoEmpty(t) && q in t.tables && q != []
    ensures |q| <= 3 && IsAddress(t, ix) && ix[..|q|] == q && Flat(t, ix).Leaf? && Flat(t, ix).depth >= |q|
    decreases 3 - |q|
  {
    hide IsTable, AddressOf, IsFrame, Flat, Wf, NoEmpty;
    var i := UsedSlot(t, q);
    if |q| < 3 && q + [i] in t.tables {
      ix := LeafBelow(t, q + [i]);
      assert ix[..|q|] == ix[..|q| + 1][..|q|] == q;
    } else {
      ix := LeafUnder(t, q, i);
    }
  }

  lemma UsedSlot(t: Tree, q: Path) returns (i: nat)
    requires Wf(t) && NoEmpty(t) && q in t.tables && q != []
    ensures i < 512 && t.tables[q].slots[i] != 0 && PathOk(t, q)
  {
    hide IsTable, AddressOf, IsFrame, PointersOk, Injective;
    assert PathOk(t, q);
    assert !IsZero(t.tables[q].slots);
    i :| i < 512 && t.tables[q].slots[i] != 0;
  }

  lemma FirstUnder(q: Path, i: nat) returns (ix: Path)
    requires |q| <= 3
    ensures |ix| == 4 && ix[..|q|] == q && ix[..|q| + 1] == q + [i] && forall k | |q| < k < 4 :: ix[k] == 0
  {
    ix := q + [i] + seq(3 - |q|, _ => 0);
    assert ix[..|q| + 1] == q + [i];
    assert (q + [i])[..|q|] == q;
  }

  lemma LeafUnder(t: Tree, q: Path, i: nat) returns (ix: Path)
    requires Wf(t) && q in t.tables && q != [] && PathOk(t, q) && i < 512 && t.tables[q].slots[i] != 0
    requires |q| < 3 ==> q + [i] !in t.tables
    ensures IsAddress(t, ix) && ix[..|q|] == q && Flat(t, ix).Leaf? && Flat(t, ix).depth >= |q|
  {
    hide IsTable, AddressOf, IsFrame, Flat, PointersOk, PathsOk, Injective;
    ix := FirstUnder(q, i);
    LeafIsAt(t, ix, |q|);
  }

  ghost predicate SameFlat(t: Tree, t': Tree)
    requires Wf(t) && Wf(t') && t.lo == t'.lo
  {
    forall ix | IsAddress(t, ix) :: Flat(t, ix) == Flat(t', ix)
  }

  /** The flat map determines which tables exist. */
  lemma ShapeIsDetermined(t: Tree, t': Tree)
    requires Wf(t) && NoEmpty(t) && Wf(t') && NoEmpty(t') && t.lo == t'.lo && SameFlat(t, t')
    ensures t.tables.Keys == t'.tables.Keys
  {
    forall q | q in t.tables ensures q in t'.tables { TableIsNeeded(t, t', q); }
    forall q | q in t'.tables ensures q in t.tables { TableIsNeeded(t', t, q); }
  }

  lemma TableIsNeeded(t: Tree, t': Tree, q: Path)
    requires Wf(t) && NoEmpty(t) && Wf(t') && t.lo == t'.lo && SameFlat(t, t') && q in t.tables
    ensures q in t'.tables
  {
    if q != [] {
      var ix := LeafBelow(t, q);
      LeafPath(t', ix);
    }
  }

  /** Nothing is mapped or reserved under the depth-d slot of ix. */
  ghost predicate Vacant(t: Tree, ix: Path, d: nat)
    requires Wf(t) && |ix| == 4 && d <= 3
  {
    forall x | IsAddress(t, x) && SamePage(x, ix, d) :: Flat(t, x).NoLeaf?
  }

  /** Where the flat map is vacant the slot is really zero: no empty table is left behind. */
  lemma VacantSlotIsZero(t: Tree, ix: Path, d: nat)
    requires Wf(t) && NoEmpty(t) && IsAddress(t, ix) && d <= 3 && Vacant(t, ix, d)
    ensures LeafDepth(t, ix) <= d
    ensures LeafDepth(t, ix) <= 3 && ix[..LeafDepth(t, ix)] in t.tables && SlotEntry(t, ix) == 0
  {
    LeafPath(t, ix);
    if LeafDepth(t, ix) > d {
      var x := LeafBelow(t, ix[..d + 1]);
    }
  }
}
