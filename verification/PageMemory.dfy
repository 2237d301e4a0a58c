/** The table pages in physical memory, and how they represent a tree. */
module PageMemory {
  import opened PageTree
  import opened TreeWalks

  type Memory = map<Frame, seq<Entry>>

  predicate IsTableFrame(t: Tree, f: Frame) {
    exists p :: p in t.tables && t.tables[p].frame == f
  }

  predicate Stores(mem: Memory, table: Table) {
    table.frame in mem && mem[table.frame] == table.slots
  }

  /** Memory holds every table of the tree. */
  ghost predicate Represents(mem: Memory, t: Tree) {
    forall p | p in t.tables :: Stores(mem, t.tables[p])
  }

  /** The pages taken from the allocator that no entry leads to any more. */
  ghost function LostOf(mem: Memory, t: Tree): set<Frame> {
    set f | f in mem && !IsTableFrame(t, f)
  }

  /** The frame of the depth-d table for an address, found by following the entries above it. */
  function FrameOf(mem: Memory, pml4: Frame, ix: Path, d: nat): Frame
    requires |ix| == 4 && d <= 4
  {
    if d == 0 then pml4 else
    var f := FrameOf(mem, pml4, ix, d - 1);
    if f in mem && ix[d - 1] < |mem[f]| then AddressOf(mem[f][ix[d - 1]]) else Frame(0)
  }

  lemma {:induction false} FrameIsTable(mem: Memory, t: Tree, ix: Path, d: nat)
    requires Wf(t) && Represents(mem, t) && IsAddress(t, ix) && d <= 3 && ix[..d] in t.tables
    ensures FrameOf(mem, t.tables[[]].frame, ix, d) == t.tables[ix[..d]].frame
  {
    hide IsTable, AddressOf, IsFrame;
    if d == 0 {
      assert ix[..0] == [];
    } else {
      assert PathOk(t, ix[..d]) && Parent(ix[..d]) == ix[..d - 1];
      FrameIsTable(mem, t, ix, d - 1);
      assert PointerOk(t, ix[..d - 1], ix[d - 1]);
      assert ix[..d] == ix[..d - 1] + [ix[d - 1]];
    }
  }

  function Written(mem: Memory, f: Frame, i: nat, e: Entry): Memory
    requires f in mem && i < |mem[f]|
  {
    mem[f := mem[f][i := e]]
  }

  lemma WrittenRepresentsPut(mem: Memory, t: Tree, p: Path, i: nat, e: Entry)
    requires Sized(t) && Injective(t) && Represents(mem, t) && p in t.tables && i < 512
    ensures t.tables[p].frame in mem && i < |mem[t.tables[p].frame]|
    ensures Represents(Written(mem, t.tables[p].frame, i, e), Put(t, p, i, e))
  {
    assert Stores(mem, t.tables[p]);
    var mem' := Written(mem, t.tables[p].frame, i, e);
    var t' := Put(t, p, i, e);
    forall q | q in t'.tables ensures Stores(mem', t'.tables[q]) {
      assert Stores(mem, t.tables[q]);
      assert q != p ==> t'.tables[q] == t.tables[q] && t.tables[q].frame != t.tables[p].frame;
    }
  }

  lemma AddRepresents(mem: Memory, t: Tree, c: Path, table: Table)
    requires Represents(mem, t) && c !in t.tables && table.frame !in mem
    ensures Represents(mem[table.frame := table.slots], t.(tables := t.tables[c := table]))
  {
    var mem' := mem[table.frame := table.slots];
    var t' := t.(tables := t.tables[c := table]);
    forall q | q in t'.tables ensures Stores(mem', t'.tables[q]) {
      if q != c {
        assert t'.tables[q] == t.tables[q];
        assert Stores(mem, t.tables[q]);
      }
    }
  }

  lemma LinkRepresents(mem: Memory, t: Tree, p: Path, i: nat, f: Frame, e: Entry)
    requires Sized(t) && Injective(t) && Represents(mem, t) && p in t.tables && i < 512
    requires f !in mem && p + [i] !in t.tables
    ensures t.tables[p].frame in mem && i < |mem[t.tables[p].frame]|
    ensures Represents(Written(mem, t.tables[p].frame, i, e)[f := Zeros(512)], Linked(t, p, i, f, e))
  {
    WrittenRepresentsPut(mem, t, p, i, e);
    AddRepresents(Written(mem, t.tables[p].frame, i, e), Put(t, p, i, e), p + [i], Table(f, Zeros(512)));
  }

  lemma DropRepresents(mem: Memory, t: Tree, q: Path)
    requires Injective(t) && Represents(mem, t) && q in t.tables
    ensures Represents(mem - {t.tables[q].frame}, t.(tables := t.tables - {q}))
  {
    var mem' := mem - {t.tables[q].frame};
    var t' := t.(tables := t.tables - {q});
    forall x | x in t'.tables ensures Stores(mem', t'.tables[x]) {
      assert t'.tables[x] == t.tables[x];
      assert Stores(mem, t.tables[x]);
      assert t.tables[x].frame != t.tables[q].frame;
    }
  }

  lemma UnlinkRepresents(mem: Memory, t: Tree, q: Path)
    requires Sized(t) && Injective(t) && Represents(mem, t)
    requires q in t.tables && q != [] && Parent(q) in t.tables && Last(q) < 512
    ensures t.tables[Parent(q)].frame in mem && Last(q) < |mem[t.tables[Parent(q)].frame]|
    ensures Represents(Written(mem, t.tables[Parent(q)].frame, Last(q), 0) - {t.tables[q].frame}, Unlink(t, q))
  {
    var p := Parent(q);
    WrittenRepresentsPut(mem, t, p, Last(q), 0);
    var t1 := Put(t, p, Last(q), 0);
    assert Injective(t1);
    DropRepresents(Written(mem, t.tables[p].frame, Last(q), 0), t1, q);
  }

  // ----- the frames of the tables, and those lost -----

  lemma PutFrames(t: Tree, p: Path, i: nat, e: Entry, f: Frame)
    requires Sized(t) && p in t.tables && i < 512
    ensures IsTableFrame(Put(t, p, i, e), f) <==> IsTableFrame(t, f)
  {
    var t' := Put(t, p, i, e);
    if IsTableFrame(t, f) {
      var q :| q in t.tables && t.tables[q].frame == f;
      assert t'.tables[q].frame == f;
    }
    if IsTableFrame(t', f) {
      var q :| q in t'.tables && t'.tables[q].frame == f;
      assert t.tables[q].frame == f;
    }
  }

  /** Writing an entry loses no page. */
  lemma PutLoses(mem: Memory, mem': Memory, t: Tree, p: Path, i: nat, e: Entry)
    requires Sized(t) && p in t.tables && i < 512 && mem'.Keys == mem.Keys
    ensures LostOf(mem', Put(t, p, i, e)) == LostOf(mem, t)
  {
    forall f ensures IsTableFrame(Put(t, p, i, e), f) <==> IsTableFrame(t, f) { PutFrames(t, p, i, e, f); }
  }

  /** Nor does adding a table. */
  lemma LinkLoses(mem: Memory, mem': Memory, t: Tree, p: Path, i: nat, g: Frame, e: Entry)
    requires Sized(t) && p in t.tables && i < 512 && p + [i] !in t.tables && mem'.Keys == mem.Keys + {g} && g !in mem
    ensures LostOf(mem', Linked(t, p, i, g, e)) == LostOf(mem, t)
  {
    var t1, t' := Put(t, p, i, e), Linked(t, p, i, g, e);
    assert t'.tables[p + [i]].frame == g;
    forall f ensures IsTableFrame(t', f) <==> IsTableFrame(t, f) || f == g {
      PutFrames(t, p, i, e, f);
      if IsTableFrame(t1, f) {
        var q :| q in t1.tables && t1.tables[q].frame == f;
        assert t'.tables[q].frame == f;
      }
      if IsTableFrame(t', f) && f != g {
        var q :| q in t'.tables && t'.tables[q].frame == f;
        assert t1.tables[q].frame == f;
      }
    }
  }

  lemma DropFrames(t: Tree, s: set<Path>, f: Frame)
    requires Injective(t) && s <= t.tables.Keys
    ensures IsTableFrame(t.(tables := t.tables - s), f) <==> IsTableFrame(t, f) && f !in FramesOf(t, s)
  {
    var t' := t.(tables := t.tables - s);
    if IsTableFrame(t, f) {
      var q :| q in t.tables && t.tables[q].frame == f;
      assert q !in s ==> t'.tables[q].frame == f;
    }
    if IsTableFrame(t', f) {
      var q :| q in t'.tables && t'.tables[q].frame == f;
      assert t.tables[q].frame == f;
    }
  }

  /** Nor does removing a table and handing its page back. */
  lemma UnlinkLoses(mem: Memory, mem': Memory, t: Tree, q: Path)
    requires Sized(t) && Injective(t) && q in t.tables && q != [] && Parent(q) in t.tables && Last(q) < 512
    requires mem'.Keys == mem.Keys - {t.tables[q].frame}
    ensures LostOf(mem', Unlink(t, q)) == LostOf(mem, t)
  {
    var t1 := Put(t, Parent(q), Last(q), 0);
    assert Injective(t1) && Unlink(t, q) == t1.(tables := t1.tables - {q});
    assert FramesOf(t1, {q}) == {t.tables[q].frame};
    assert IsTableFrame(t, t.tables[q].frame);
    forall f ensures IsTableFrame(Unlink(t, q), f) <==> IsTableFrame(t, f) && f != t.tables[q].frame {
      PutFrames(t, Parent(q), Last(q), 0, f);
      DropFrames(t1, {q}, f);
    }
  }

  lemma CutFrames(t: Tree, p: Path, i: nat, e: Entry, f: Frame)
    requires Sized(t) && Injective(t) && p in t.tables && i < 512
    ensures IsTableFrame(PutCut(t, p, i, e), f) <==> IsTableFrame(t, f) && f !in FramesOf(t, Subtree(t, p + [i]))
  {
    hide IsTableFrame;
    var t1, s := Put(t, p, i, e), Subtree(t, p + [i]);
    assert Injective(t1) && FramesOf(t1, s) == FramesOf(t, s);
    PutFrames(t, p, i, e, f);
    DropFrames(t1, s, f);
  }

  lemma FramesAreTaken(mem: Memory, t: Tree, s: set<Path>)
    requires Represents(mem, t)
    ensures forall f | f in FramesOf(t, s) :: f in mem && IsTableFrame(t, f)
  {
    forall f | f in FramesOf(t, s) ensures f in mem && IsTableFrame(t, f) {
      var q :| q in s && q in t.tables && t.tables[q].frame == f;
      assert Stores(mem, t.tables[q]);
    }
  }

  /** Writing a leaf over a pointer loses the table it led to and all tables below. */
  lemma CutLoses(mem: Memory, mem': Memory, t: Tree, p: Path, i: nat, e: Entry)
    requires Sized(t) && Injective(t) && Represents(mem, t) && p in t.tables && i < 512 && mem'.Keys == mem.Keys
    ensures LostOf(mem', PutCut(t, p, i, e)) == LostOf(mem, t) + FramesOf(t, Subtree(t, p + [i]))
    ensures FramesOf(t, Subtree(t, p + [i])) !! LostOf(mem, t)
  {
    hide IsTableFrame, FramesOf, Subtree, PutCut, Injective, Represents;
    FramesAreTaken(mem, t, Subtree(t, p + [i]));
    forall f ensures IsTableFrame(PutCut(t, p, i, e), f) <==> IsTableFrame(t, f) && f !in FramesOf(t, Subtree(t, p + [i])) {
      CutFrames(t, p, i, e, f);
    }
  }

  lemma CutRepresents(mem: Memory, t: Tree, p: Path, i: nat, e: Entry)
    requires Sized(t) && Injective(t) && Represents(mem, t) && p in t.tables && i < 512
    ensures t.tables[p].frame in mem && i < |mem[t.tables[p].frame]|
    ensures Represents(Written(mem, t.tables[p].frame, i, e), PutCut(t, p, i, e))
  {
    WrittenRepresentsPut(mem, t, p, i, e);
    var mem', t1, t' := Written(mem, t.tables[p].frame, i, e), Put(t, p, i, e), PutCut(t, p, i, e);
    forall q | q in t'.tables ensures Stores(mem', t'.tables[q]) {
      assert Stores(mem', t1.tables[q]);
    }
  }

  /** Memory, allocator and tree agree. */
  ghost predicate Sound(mem: Memory, pml4: Frame, pool: set<Frame>, t: Tree) {
    && Wf(t) && Represents(mem, t) && t.tables[[]].frame == pml4
    && pool !! mem.Keys && (forall f | f in pool :: IsFrame(f))
  }

  lemma SoundIsWf(mem: Memory, pml4: Frame, pool: set<Frame>, t: Tree)
    requires Sound(mem, pml4, pool, t)
    ensures Wf(t) && Sized(t) && [] in t.tables
  {
  }

  lemma AddressShape(t: Tree, ix: Path)
    requires IsAddress(t, ix)
    ensures |ix| == 4 && forall k | 0 <= k < 4 :: ix[k] < 512
  {
  }

  /** Memory once slot i of f holds e, with the table cleared that e leads to. */
  function Extended(mem: Memory, f: Frame, i: nat, e: Entry): Memory
    requires f in mem && i < |mem[f]|
  {
    var mem' := Written(mem, f, i, e);
    mem'[AddressOf(mem'[f][i]) := Zeros(512)]
  }

  lemma EntryIsThere(mem: Memory, pml4: Frame, pool: set<Frame>, t: Tree, ix: Path, depth: nat)
    requires Sound(mem, pml4, pool, t) && IsAddress(t, ix) && depth <= 3 && ix[..depth] in t.tables
    ensures var f := FrameOf(mem, pml4, ix, depth);
      f in mem && |mem[f]| == 512 && mem[f][ix[depth]] == At(t, ix[..depth], ix[depth])
    ensures FrameOf(mem, pml4, ix, depth) == t.tables[ix[..depth]].frame
  {
    hide IsTable, AddressOf, IsFrame, FrameOf;
    FrameIsTable(mem, t, ix, depth);
    assert Stores(mem, t.tables[ix[..depth]]);
  }

  lemma PutIsSound(mem: Memory, pml4: Frame, pool: set<Frame>, t: Tree, ix: Path, depth: nat, e: Entry)
    requires Sound(mem, pml4, pool, t) && IsAddress(t, ix) && depth <= 3 && ix[..depth] in t.tables
    requires depth == 3 || SamePointer(At(t, ix[..depth], ix[depth]), e)
    ensures var f := FrameOf(mem, pml4, ix, depth);
      && f in mem && |mem[f]| == 512
      && Sound(Written(mem, f, ix[depth], e), pml4, pool, Put(t, ix[..depth], ix[depth], e))
      && LostOf(Written(mem, f, ix[depth], e), Put(t, ix[..depth], ix[depth], e)) == LostOf(mem, t)
  {
    hide IsTable, AddressOf, IsFrame, FrameOf, Represents, LostOf;
    EntryIsThere(mem, pml4, pool, t, ix, depth);
    WrittenRepresentsPut(mem, t, ix[..depth], ix[depth], e);
    PutKeepsWf(t, ix[..depth], ix[depth], e);
    PutLoses(mem, Written(mem, FrameOf(mem, pml4, ix, depth), ix[depth], e), t, ix[..depth], ix[depth], e);
  }

  /** Memory and tree agree on a leaf written over anything; what the slot led to is lost. */
  lemma CutIsSound(mem: Memory, pml4: Frame, pool: set<Frame>, t: Tree, ix: Path, depth: nat, e: Entry)
    requires Sound(mem, pml4, pool, t) && IsAddress(t, ix) && depth <= 3 && ix[..depth] in t.tables
    requires depth == 3 || !IsTable(e)
    ensures var f, t', below := FrameOf(mem, pml4, ix, depth), PutCut(t, ix[..depth], ix[depth], e), ix[..depth] + [ix[depth]];
      && f in mem && |mem[f]| == 512
      && Sound(Written(mem, f, ix[depth], e), pml4, pool, t')
      && LostOf(Written(mem, f, ix[depth], e), t') == LostOf(mem, t) + FramesOf(t, Subtree(t, below))
      && FramesOf(t, Subtree(t, below)) !! LostOf(mem, t)
  {
    hide IsTable, AddressOf, IsFrame, FrameOf, Represents, LostOf;
    EntryIsThere(mem, pml4, pool, t, ix, depth);
    CutRepresents(mem, t, ix[..depth], ix[depth], e);
    CutIsWf(t, ix[..depth], ix[depth], e);
    CutLoses(mem, Written(mem, FrameOf(mem, pml4, ix, depth), ix[depth], e), t, ix[..depth], ix[depth], e);
  }

  lemma ExtendedIsSound(mem: Memory, pml4: Frame, pool: set<Frame>, t: Tree, ix: Path, depth: nat, page: Frame, e: Entry)
    requires Sound(mem, pml4, pool, t) && IsAddress(t, ix) && depth < 3 && ix[..depth] in t.tables
    requires !IsTable(At(t, ix[..depth], ix[depth])) && page in pool && IsTable(e) && AddressOf(e) == page
    ensures forall q | q in t.tables :: t.tables[q].frame != page
    ensures var f := FrameOf(mem, pml4, ix, depth);
      && f in mem && |mem[f]| == 512
      && Extended(mem, f, ix[depth], e).Keys == mem.Keys + {page}
      && Sound(Extended(mem, f, ix[depth], e), pml4, pool - {page}, Linked(t, ix[..depth], ix[depth], page, e))
      && LostOf(Extended(mem, f, ix[depth], e), Linked(t, ix[..depth], ix[depth], page, e)) == LostOf(mem, t)
  {
    hide IsTable, AddressOf, IsFrame, FrameOf, Represents, Linked, LostOf;
    FreshIsUnused(mem, t, page);
    EntryIsThere(mem, pml4, pool, t, ix, depth);
    ExtendedTree(t, ix, depth, page, e);
    LinkRepresents(mem, t, ix[..depth], ix[depth], page, e);
    LinkLoses(mem, Extended(mem, FrameOf(mem, pml4, ix, depth), ix[depth], e), t, ix[..depth], ix[depth], page, e);
  }

  lemma ExtendedTree(t: Tree, ix: Path, depth: nat, page: Frame, e: Entry)
    requires Wf(t) && IsAddress(t, ix) && depth < 3 && ix[..depth] in t.tables
    requires !IsTable(At(t, ix[..depth], ix[depth])) && IsFrame(page) && IsTable(e) && AddressOf(e) == page
    requires forall q | q in t.tables :: t.tables[q].frame != page
    ensures ix[..depth] + [ix[depth]] !in t.tables
    ensures var t' := Linked(t, ix[..depth], ix[depth], page, e);
      Wf(t') && t'.lo == t.lo && [] in t'.tables && t'.tables[[]].frame == t.tables[[]].frame
  {
    hide IsTable, AddressOf, IsFrame;
    assert PointerOk(t, ix[..depth], ix[depth]);
    LinkIsWf(t, ix[..depth], ix[depth], page, e);
  }

  lemma AddedIsSound(mem: Memory, pml4: Frame, pool: set<Frame>, t: Tree, ix: Path, depth: nat, page: Frame, mask: bv64)
    requires Sound(mem, pml4, pool, t) && IsAddress(t, ix) && depth < 3 && ix[..depth] in t.tables
    requires !Present(At(t, ix[..depth], ix[depth])) && IsParentMask(mask) && page in pool
    ensures IsFrame(page) && (forall q | q in t.tables :: t.tables[q].frame != page)
    ensures var f := FrameOf(mem, pml4, ix, depth); f in mem && |mem[f]| == 512
    ensures var mem' := Extended(mem, FrameOf(mem, pml4, ix, depth), ix[depth], WithMask(page.base, mask));
      && mem'.Keys == mem.Keys + {page} && Sound(mem', pml4, pool - {page}, Link(t, ix[..depth], ix[depth], page, mask))
      && LostOf(mem', Link(t, ix[..depth], ix[depth], page, mask)) == LostOf(mem, t)
  {
    PointerBits(page, mask);
    hide Sound, FrameOf, Linked, IsParentMask, AddressOf, LostOf;
    ExtendedIsSound(mem, pml4, pool, t, ix, depth, page, WithMask(page.base, mask));
  }

  lemma FreshIsUnused(mem: Memory, t: Tree, f: Frame)
    requires Represents(mem, t) && f !in mem
    ensures forall q | q in t.tables :: t.tables[q].frame != f
  {
    forall q | q in t.tables ensures t.tables[q].frame != f {
      assert Stores(mem, t.tables[q]);
    }
  }

  lemma TableIsThere(mem: Memory, pml4: Frame, pool: set<Frame>, t: Tree, ix: Path, depth: nat)
    requires Sound(mem, pml4, pool, t) && IsAddress(t, ix) && depth <= 3 && ix[..depth] in t.tables
    ensures FrameOf(mem, pml4, ix, depth) in mem && mem[FrameOf(mem, pml4, ix, depth)] == t.tables[ix[..depth]].slots
    ensures |t.tables[ix[..depth]].slots| == 512
  {
    hide IsTable, AddressOf, IsFrame, FrameOf;
    FrameIsTable(mem, t, ix, depth);
    assert Stores(mem, t.tables[ix[..depth]]);
  }

  lemma RemovedIsSound(mem: Memory, pml4: Frame, pool: set<Frame>, t: Tree, ix: Path, depth: nat)
    requires Sound(mem, pml4, pool, t) && IsAddress(t, ix) && 0 < depth <= 3 && ix[..depth] in t.tables
    requires IsZero(t.tables[ix[..depth]].slots)
    ensures var f, q := FrameOf(mem, pml4, ix, depth - 1), ix[..depth];
      && f in mem && |mem[f]| == 512
      && Sized(t) && Parent(q) in t.tables && Last(q) < 512
      && var e := AddressOf(mem[f][ix[depth - 1]]);
      && e in mem && e != f && e !in pool
      && Sound(Written(mem, f, ix[depth - 1], 0) - {e}, pml4, pool + {e}, Unlink(t, q))
      && LostOf(Written(mem, f, ix[depth - 1], 0) - {e}, Unlink(t, q)) == LostOf(mem, t)
  {
    hide IsTable, AddressOf, IsFrame, FrameOf, Represents, IsZero, LostOf, Wf, Unlink;
    var q := ix[..depth];
    SoundIsWf(mem, pml4, pool, t);
    ParentSlot(t, q);
    assert Parent(q) == ix[..depth - 1] && Last(q) == ix[depth - 1];
    PointsDown(t, q);
    EntryIsThere(mem, pml4, pool, t, ix, depth - 1);
    EntryIsThere(mem, pml4, pool, t, ix, depth);
    UnlinkKeepsWf(t, q);
    UnlinkKeepsRoot(t, q);
    UnlinkRepresents(mem, t, q);
    var f := FrameOf(mem, pml4, ix, depth - 1);
    UnlinkLoses(mem, Written(mem, f, ix[depth - 1], 0) - {AddressOf(mem[f][ix[depth - 1]])}, t, q);
  }

  lemma PointsDown(t: Tree, q: Path)
    requires Wf(t) && q in t.tables && q != [] && Parent(q) in t.tables && |q| <= 3 && IsSlot(t, Parent(q), Last(q))
    ensures Injective(t) && IsFrame(t.tables[q].frame)
    ensures IsTable(At(t, Parent(q), Last(q))) && AddressOf(At(t, Parent(q), Last(q))) == t.tables[q].frame
    ensures t.tables[Parent(q)].frame != t.tables[q].frame
  {
    hide IsTable, AddressOf, IsFrame;
    assert q == Parent(q) + [Last(q)];
    assert PointerOk(t, Parent(q), Last(q)) && PathOk(t, q);
  }

  lemma UnlinkKeepsRoot(t: Tree, q: Path)
    requires Sized(t) && [] in t.tables && q in t.tables && q != [] && Parent(q) in t.tables && Last(q) < 512
    ensures [] in Unlink(t, q).tables && Unlink(t, q).tables[[]].frame == t.tables[[]].frame
  {
  }

  // ----- counting frames -----

  ghost function FramesUnder(t: Tree, keys: set<Path>): set<Frame>
    requires keys <= t.tables.Keys
  {
    set p | p in keys :: t.tables[p].frame
  }

  lemma {:induction false} FramesCount(t: Tree, keys: set<Path>)
    requires Injective(t) && keys <= t.tables.Keys
    ensures |FramesUnder(t, keys)| == |keys|
  {
    if keys == {} {
      assert FramesUnder(t, keys) == {};
    } else {
      var p :| p in keys;
      FramesCount(t, keys - {p});
      assert FramesUnder(t, keys) == FramesUnder(t, keys - {p}) + {t.tables[p].frame};
    }
  }

  /** Every frame is a table, lost, or with the allocator. */
  lemma CountIs(mem: Memory, pml4: Frame, pool: set<Frame>, t: Tree)
    requires Sound(mem, pml4, pool, t)
    ensures |mem.Keys + pool| == |t.tables.Keys| + |LostOf(mem, t)| + |pool|
  {
    hide Wf, IsFrame, Represents;
    SoundIsWf(mem, pml4, pool, t);
    SoundStores(mem, pml4, pool, t);
    var frames := FramesUnder(t, t.tables.Keys);
    WfIsInjective(t);
    FramesCount(t, t.tables.Keys);
    assert mem.Keys == frames + LostOf(mem, t);
    assert frames !! LostOf(mem, t);
    assert mem.Keys !! pool;
  }

  lemma WfIsInjective(t: Tree)
    requires Wf(t)
    ensures Injective(t)
  {
  }

  lemma SoundStores(mem: Memory, pml4: Frame, pool: set<Frame>, t: Tree)
    requires Sound(mem, pml4, pool, t)
    ensures mem.Keys !! pool && forall p | p in t.tables :: t.tables[p].frame in mem
  {
    forall p | p in t.tables ensures t.tables[p].frame in mem { assert Stores(mem, t.tables[p]); }
  }

  /** Of the frames of two states with the same frames, those that became tables left the pool. */
  lemma PoolCount(mem: Memory, pml4: Frame, pool: set<Frame>, t: Tree, mem': Memory, pool': set<Frame>, t': Tree)
    requires Sound(mem, pml4, pool, t) && Sound(mem', pml4, pool', t')
    requires mem'.Keys + pool' == mem.Keys + pool && LostOf(mem', t') == LostOf(mem, t)
    ensures |pool'| + |t'.tables.Keys| == |pool| + |t.tables.Keys|
  {
    hide Sound, LostOf;
    CountIs(mem, pml4, pool, t);
    CountIs(mem', pml4, pool', t');
  }

  lemma UnionCount(a: set<Path>, b: set<Path>)
    ensures |a + b| == |a| + |b - a|
  {
    assert a + b == a + (b - a);
  }

  /** Making sure that the tables down to depth d exist takes as many frames as tables were missing. */
  lemma TookMissing(mem: Memory, pml4: Frame, pool: set<Frame>, t: Tree, mem': Memory, pool': set<Frame>, t': Tree, ix: Path,
    d: nat)
    requires Sound(mem, pml4, pool, t) && Sound(mem', pml4, pool', t') && |ix| == 4 && d <= 3
    requires mem'.Keys + pool' == mem.Keys + pool && LostOf(mem', t') == LostOf(mem, t)
    requires t'.tables.Keys == t.tables.Keys + Prefixes(ix, d)
    ensures |pool| == |pool'| + |MissingAt(t, ix, d)|
  {
    hide Sound, LostOf, Prefixes;
    PoolCount(mem, pml4, pool, t, mem', pool', t');
    UnionCount(t.tables.Keys, Prefixes(ix, d));
  }
}
