/** Runs of pages: what setting and unsetting a list of pages does to the addresses of a run. */
module PageRuns {
  import opened Words
  import opened PageTree
  import opened FlatMaps
  import opened PageLists
  import opened Addresses

  // ----- runs of pages -----

  /** A run in one half of the address space, from the root slot lo on. */
  predicate IsRun(lo: FirstSlot, x: nat, n: nat) {
    (lo * KERNEL_END <= x && x + n <= LOW_END) || (HIGH_START <= x && x + n <= USER_END)
  }

  lemma RunPage(lo: FirstSlot, x: nat, d: nat, n: nat, i: nat)
    requires d <= 3 && IsRun(lo, x, n * Span(d)) && IsAligned(x, Span(d)) && i < n
    ensures PageAddress(x, d, i) == x + i * Span(d) && x <= PageAddress(x, d, i)
    ensures PageAddress(x, d, i) + Span(d) <= x + n * Span(d)
    ensures IsManaged(lo, PageAddress(x, d, i)) && IsAligned(PageAddress(x, d, i), Span(d))
  {
    hide Span;
    PageAddressIs(x, d, i);
    ProductMonotone(Span(d), 0, i);
    ProductStep(Span(d), i, n);
    AddMultiple(x, Span(d), i);
  }

  /** The addresses of a run are those of its pages. */
  lemma RunIsPages(lo: FirstSlot, x: nat, d: nat, n: nat, a: nat)
    requires d <= 3 && IsRun(lo, x, n * Span(d)) && IsAligned(x, Span(d)) && IsManaged(lo, a)
    ensures x <= a < x + n * Span(d) <==> exists i: nat | i < n :: InPageAt(Indices(a), x, d, i)
  {
    hide Span, Indices, IsManaged, SamePage, PageAddress;
    if x <= a < x + n * Span(d) {
      var i := (a - x) / Span(d);
      assert a - x == Span(d) * i + (a - x) % Span(d);
      ProductMonotone(Span(d), n, if i >= n then i else n);
      RunPage(lo, x, d, n, i);
      PageSpan(lo, PageAddress(x, d, i), a, d);
      assert InPageAt(Indices(a), x, d, i);
    } else {
      forall i: nat | i < n ensures !InPageAt(Indices(a), x, d, i) {
        RunPage(lo, x, d, n, i);
        PageSpan(lo, PageAddress(x, d, i), a, d);
      }
    }
  }

  lemma RunIsApart(lo: FirstSlot, x: nat, d: nat, n: nat)
    requires d <= 3 && IsRun(lo, x, n * Span(d)) && IsAligned(x, Span(d))
    ensures Apart(x, d, n)
  {
    hide Span, Indices, IsManaged, SamePage;
    forall i: nat, j: nat | i < j < n ensures !InPageAt(PageAt(x, d, i), x, d, j) {
      RunPage(lo, x, d, n, i);
      RunPage(lo, x, d, n, j);
      ProductStep(Span(d), i, j);
      PageSpan(lo, PageAddress(x, d, j), PageAddress(x, d, i), d);
    }
  }

  lemma PathOf(lo: FirstSlot, a: nat)
    requires IsManaged(lo, a)
    ensures IsPathFrom(lo, Indices(a))
  {
    ManagedIndices(lo, a);
  }

  lemma RunIsListed(lo: FirstSlot, m: Pages, x: nat, d: nat, n: nat)
    requires Covers(lo, m)
    requires d <= 3 && IsRun(lo, x, n * Span(d)) && IsAligned(x, Span(d))
    ensures Lists(m, x, d, n)
  {
    hide Span, Indices, IsManaged, IsPathFrom;
    forall i | 0 <= i < n ensures PageAt(x, d, i) in m {
      RunPage(lo, x, d, n, i);
      PathOf(lo, PageAddress(x, d, i));
    }
  }

  /** A page is read through any of its addresses: a path of the page belongs to an address of the run. */
  lemma PathInRun(lo: FirstSlot, x: nat, d: nat, n: nat, i: nat, path: Path) returns (a: nat)
    requires d <= 3 && IsRun(lo, x, n * Span(d)) && IsAligned(x, Span(d)) && i < n
    requires IsPathFrom(lo, path) && InPageAt(path, x, d, i)
    ensures IsManaged(lo, a) && Indices(a) == path && x + i * Span(d) <= a < x + i * Span(d) + Span(d)
  {
    hide Span, Indices, IsManaged, SamePage, PageAddress;
    a := AddressOfPath(lo, path);
    RunPage(lo, x, d, n, i);
    PageSpan(lo, PageAddress(x, d, i), a, d);
  }

  ghost predicate Covers(lo: FirstSlot, m: Pages) {
    forall ix :: ix in m <==> IsPathFrom(lo, ix)
  }

  /** What an address is mapped to. */
  ghost function LeafAt(lo: FirstSlot, m: Pages, a: nat): Leaf
    requires Covers(lo, m) && IsManaged(lo, a)
  {
    PathOf(lo, a);
    m[Indices(a)]
  }

  ghost predicate HasPages(lo: FirstSlot, m: Pages) {
    Covers(lo, m) && Consistent(m) && MarkedHuge(m)
  }

  ghost predicate IsVacant(lo: FirstSlot, m: Pages, x: nat, n: nat)
    requires IsRun(lo, x, n) && Covers(lo, m)
  {
    forall a: nat | x <= a < x + n :: LeafAt(lo, m, a).NoLeaf?
  }

  // ----- lists of pages on a run -----

  /** The pages after a list is set on a placeable run: the run holds the list, the rest is as before. */
  ghost predicate Places(lo: FirstSlot, m: Pages, m': Pages, x: nat, d: nat, n: nat, e: Entry)
    requires d <= 3 && Covers(lo, m) && Covers(lo, m')
  {
    forall a: nat | IsManaged(lo, a) ::
      LeafAt(lo, m', a) == if x <= a < x + n * Span(d) then AsLeaf(d, EntryAt(e, d, (a - x) / Span(d))) else LeafAt(lo, m, a)
  }

  ghost predicate Clears(lo: FirstSlot, m: Pages, m': Pages, x: nat, d: nat, n: nat)
    requires d <= 3 && Covers(lo, m) && Covers(lo, m')
  {
    forall a: nat | IsManaged(lo, a) :: LeafAt(lo, m', a) == if x <= a < x + n * Span(d) then NoLeaf else LeafAt(lo, m, a)
  }

  lemma PageOfAddress(lo: FirstSlot, x: nat, d: nat, n: nat, a: nat)
    requires d <= 3 && IsRun(lo, x, n * Span(d)) && IsAligned(x, Span(d)) && x <= a < x + n * Span(d)
    ensures (a - x) / Span(d) < n && InPageAt(Indices(a), x, d, (a - x) / Span(d)) && IsManaged(lo, a)
  {
    hide Span, Indices, SamePage, PageAddress;
    var i := (a - x) / Span(d);
    assert a - x == Span(d) * i + (a - x) % Span(d);
    ProductMonotone(Span(d), n, if i >= n then i else n);
    RunPage(lo, x, d, n, i);
    PageSpan(lo, PageAddress(x, d, i), a, d);
  }

  lemma ListPlaces(lo: FirstSlot, m: Pages, x: nat, d: nat, n: nat, e: Entry)
    requires HasPages(lo, m) && d <= 3 && IsRun(lo, x, n * Span(d)) && IsAligned(x, Span(d))
    requires Lists(m, x, d, n) && IsPlaceable(m, x, d, n)
    ensures Places(lo, m, ListPages(m, x, e, d, n), x, d, n, e)
  {
    hide Span, Indices, IsManaged, Consistent, MarkedHuge, IsPathFrom, InPageAt, ListPages, IsPlaceable, EntryAt;
    RunIsApart(lo, x, d, n);
    PlaceableIsClear(m, x, d, n);
    var m' := ListPages(m, x, e, d, n);
    forall a: nat | IsManaged(lo, a)
      ensures LeafAt(lo, m', a) == if x <= a < x + n * Span(d) then AsLeaf(d, EntryAt(e, d, (a - x) / Span(d))) else LeafAt(lo, m, a)
    {
      PathOf(lo, a);
      ListOnClear(m, x, e, d, n, Indices(a));
      RunIsPages(lo, x, d, n, a);
      if x <= a < x + n * Span(d) { PageOfAddress(lo, x, d, n, a); }
    }
  }

  lemma UnlistClears(lo: FirstSlot, m: Pages, x: nat, d: nat, n: nat)
    requires HasPages(lo, m) && d <= 3 && IsRun(lo, x, n * Span(d)) && IsAligned(x, Span(d))
    requires Lists(m, x, d, n) && MappedAt(m, x, d, n)
    ensures Clears(lo, m, UnlistPages(m, x, d, n), x, d, n)
  {
    hide Span, Indices, IsManaged, Consistent, MarkedHuge, IsPathFrom, InPageAt, UnlistPages, MappedAt;
    RunIsApart(lo, x, d, n);
    var m' := UnlistPages(m, x, d, n);
    forall a: nat | IsManaged(lo, a)
      ensures LeafAt(lo, m', a) == if x <= a < x + n * Span(d) then NoLeaf else LeafAt(lo, m, a)
    {
      PathOf(lo, a);
      UnlistMapped(m, x, d, n, Indices(a));
      RunIsPages(lo, x, d, n, a);
    }
  }

  lemma PathIsVacant(lo: FirstSlot, m: Pages, x: nat, d: nat, n: nat, i: nat, path: Path)
    requires Covers(lo, m) && d <= 3 && IsRun(lo, x, n * Span(d)) && IsAligned(x, Span(d)) && i < n
    requires IsVacant(lo, m, x, n * Span(d)) && path in m && |path| == 4 && SamePage(path, PageAt(x, d, i), d)
    ensures m[path].NoLeaf?
  {
    hide Span, Indices, IsManaged, IsPathFrom, SamePage, PageAt;
    InPageIs(path, x, d, i);
    var a := PathInRun(lo, x, d, n, i, path);
    ProductStep(Span(d), i, n);
    assert LeafAt(lo, m, a).NoLeaf?;
  }

  /** A vacant run is placeable. */
  lemma VacantIsPlaceable(lo: FirstSlot, m: Pages, x: nat, d: nat, n: nat)
    requires HasPages(lo, m) && d <= 3 && IsRun(lo, x, n * Span(d)) && IsAligned(x, Span(d))
    requires Lists(m, x, d, n) && IsVacant(lo, m, x, n * Span(d))
    ensures IsPlaceable(m, x, d, n)
    ensures forall i: nat | i < n :: m[PageAt(x, d, i)].NoLeaf?
  {
    hide Span, Indices, IsManaged, Consistent, MarkedHuge, PageAt, SamePage, IsVacant;
    forall i: nat | i < n
      ensures PageAt(x, d, i) in m && Unsplit(m, PageAt(x, d, i), d) && m[PageAt(x, d, i)].NoLeaf?
    {
      ListedPage(m, x, d, n, i);
      PageStart(x, d, i);
      InPageIs(PageAt(x, d, i), x, d, i);
      forall path | path in m && SamePage(path, PageAt(x, d, i), d) ensures m[path].NoLeaf? {
        PathIsVacant(lo, m, x, d, n, i, path);
      }
    }
  }

  lemma PlacesKeepsMarks(lo: FirstSlot, m: Pages, m': Pages, x: nat, d: nat, n: nat, e: Entry)
    requires HasPages(lo, m) && Consistent(m') && d <= 3 && Covers(lo, m')
    requires Places(lo, m, m', x, d, n, e) && (d == 3 || Huge(e))
    ensures HasPages(lo, m')
  {
    hide Span, Indices, IsManaged, IsPathFrom, Consistent, EntryAt, Huge;
    forall path | path in m' && m'[path].Leaf? && m'[path].depth < 3 ensures Huge(m'[path].entry) {
      var a := AddressOfPath(lo, path);
      PathOf(lo, a);
      if x <= a < x + n * Span(d) { EntryFlags(e, d, (a - x) / Span(d)); }
    }
  }

  lemma ClearsKeepsMarks(lo: FirstSlot, m: Pages, m': Pages, x: nat, d: nat, n: nat)
    requires HasPages(lo, m) && Consistent(m') && d <= 3 && Covers(lo, m')
    requires Clears(lo, m, m', x, d, n)
    ensures HasPages(lo, m')
  {
    hide Span, Indices, IsManaged, IsPathFrom, Consistent, Huge;
    forall path | path in m' && m'[path].Leaf? && m'[path].depth < 3 ensures Huge(m'[path].entry) {
      var a := AddressOfPath(lo, path);
      PathOf(lo, a);
    }
  }

  lemma CoversSame(lo: FirstSlot, m: Pages, m': Pages)
    requires Covers(lo, m) && forall x :: x in m' <==> x in m
    ensures Covers(lo, m')
  {
  }
}
