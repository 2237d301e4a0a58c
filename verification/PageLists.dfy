/** Lists of pages: what SetList and the Unmap loops make of a mapping, page by page. */
module PageLists {
  import opened PageTree
  import opened FlatMaps
  import opened Addresses
  import opened TreeWalks

  function SpanBits(d: nat): bv64
    requires d <= 3
  {
    if d == 0 then 0x8000000000 else if d == 1 then 0x40000000 else if d == 2 then 0x200000 else 0x1000
  }

  function Sum(a: bv64, b: bv64): bv64 { a + b }

  lemma SumSwaps(a: bv64, b: bv64)
    ensures Sum(a, b) == Sum(b, a)
  {
  }

  lemma SumCommutes(a: bv64, b: bv64, c: bv64)
    ensures Sum(Sum(a, b), c) == Sum(Sum(a, c), b)
  {
    calc {
      Sum(Sum(a, b), c);
      Sum(a + b, c);
      (a + b) + c;
      (a + c) + b;
      Sum(a + c, b);
      Sum(Sum(a, c), b);
    }
  }

  lemma SumAssociates(a: bv64, b: bv64, c: bv64)
    ensures Sum(Sum(a, b), c) == Sum(a, Sum(b, c))
  {
    hide Sum;
    calc {
      Sum(Sum(a, b), c);
      { SumSwaps(a, b); }
      Sum(Sum(b, a), c);
      { SumCommutes(b, a, c); }
      Sum(Sum(b, c), a);
      { SumSwaps(Sum(b, c), a); }
      Sum(a, Sum(b, c));
    }
  }

  /** The entry for the page behind: the physical address grows by the page size. */
  function NextEntry(e: Entry, d: nat): Entry
    requires d <= 3
  {
    Sum(e, SpanBits(d))
  }

  /** The i-th entry of a list. */
  function EntryAt(e: Entry, d: nat, i: nat): Entry
    requires d <= 3
  {
    if i == 0 then e else NextEntry(EntryAt(e, d, i - 1), d)
  }

  function PageAddress(virt: nat, d: nat, i: nat): nat
    requires d <= 3
  {
    if i == 0 then virt else PageAddress(virt, d, i - 1) + Span(d)
  }

  lemma {:induction false} PageAddressIs(virt: nat, d: nat, i: nat)
    requires d <= 3
    ensures PageAddress(virt, d, i) == virt + i * Span(d)
  {
    if i > 0 {
      PageAddressIs(virt, d, i - 1);
      assert i * Span(d) == (i - 1) * Span(d) + Span(d);
    }
  }

  /** The path of the i-th page of a list. */
  function PageAt(virt: nat, d: nat, i: nat): (ix: Path)
    requires d <= 3
    ensures |ix| == 4
  {
    Indices(PageAddress(virt, d, i))
  }

  ghost predicate Lists(m: Pages, virt: nat, d: nat, n: nat)
    requires d <= 3
  {
    forall i | 0 <= i < n :: PageAt(virt, d, i) in m
  }

  /** The mapping once n pages of a list are set. */
  ghost function ListPages(m: Pages, virt: nat, e: Entry, d: nat, n: nat): (m': Pages)
    requires Consistent(m) && d <= 3 && Lists(m, virt, d, n)
    ensures Consistent(m') && forall x :: x in m' <==> x in m
  {
    if n == 0 then m else
    var p := ListPages(m, virt, e, d, n - 1);
    SetKeepsConsistent(p, PageAt(virt, d, n - 1), d, EntryAt(e, d, n - 1));
    SetPages(p, PageAt(virt, d, n - 1), d, EntryAt(e, d, n - 1))
  }

  /** The mapping once n pages of a list are unset. */
  ghost function UnlistPages(m: Pages, virt: nat, d: nat, n: nat): (m': Pages)
    requires Consistent(m) && d <= 3 && Lists(m, virt, d, n)
    ensures Consistent(m') && forall x :: x in m' <==> x in m
  {
    if n == 0 then m else
    var p := UnlistPages(m, virt, d, n - 1);
    UnsetKeepsConsistent(p, PageAt(virt, d, n - 1));
    UnsetPages(p, PageAt(virt, d, n - 1))
  }

  /** x lies in the i-th page. */
  predicate InPageAt(x: Path, virt: nat, d: nat, i: nat)
    requires |x| == 4 && d <= 3
  {
    SamePage(x, PageAt(virt, d, i), d)
  }

  ghost predicate Apart(virt: nat, d: nat, n: nat)
    requires d <= 3
  {
    forall i: nat, j: nat | i < j < n :: !InPageAt(PageAt(virt, d, i), virt, d, j)
  }

  /** No page of the list lies inside a larger leaf. */
  ghost predicate IsClear(m: Pages, virt: nat, d: nat, n: nat)
    requires Consistent(m) && d <= 3 && Lists(m, virt, d, n)
  {
    forall i: nat | i < n :: !IsInside(m[PageAt(virt, d, i)], d)
  }

  /** x shows the entry of its page in the list, or what it showed before. */
  ghost predicate IsListed(m: Pages, m': Pages, virt: nat, e: Entry, d: nat, n: nat, x: Path)
    requires |x| == 4 && d <= 3 && x in m && x in m'
  {
    && (forall i: nat | i < n && InPageAt(x, virt, d, i) :: m'[x] == AsLeaf(d, EntryAt(e, d, i)))
    && ((forall i: nat | i < n :: !InPageAt(x, virt, d, i)) ==> m'[x] == m[x])
  }

  lemma ListShorter(m: Pages, virt: nat, d: nat, i: nat, n: nat)
    requires d <= 3 && Lists(m, virt, d, n) && i <= n
    ensures Lists(m, virt, d, i)
  {
  }

  lemma ListNext(m: Pages, virt: nat, e: Entry, d: nat, i: nat)
    requires Consistent(m) && d <= 3 && Lists(m, virt, d, i + 1) && Lists(m, virt, d, i)
    ensures var p, ix := ListPages(m, virt, e, d, i), PageAt(virt, d, i);
      ix in p && ListPages(m, virt, e, d, i + 1) == SetPages(p, ix, d, EntryAt(e, d, i))
  {
    hide SetPages, Consistent, PageAt, EntryAt;
  }

  lemma SetOnClear(p: Pages, ix: Path, d: nat, e: Entry, x: Path)
    requires Consistent(p) && ix in p && x in p && d <= 3 && !IsInside(p[ix], d)
    ensures SetPages(p, ix, d, e)[x] == if SamePage(x, ix, d) then AsLeaf(d, e) else p[x]
  {
  }

  /** The pages of a list do not meet, so x lies in at most one. */
  lemma InOnePage(virt: nat, d: nat, n: nat, i: nat, j: nat, x: Path)
    requires d <= 3 && Apart(virt, d, n) && i < j < n && |x| == 4
    ensures !(InPageAt(x, virt, d, i) && InPageAt(x, virt, d, j))
  {
    hide SamePage, PageAt;
    SamePageIsEquivalence(x, PageAt(virt, d, i), x, d, d);
    SamePageIsEquivalence(PageAt(virt, d, i), x, PageAt(virt, d, j), d, d);
    assert !InPageAt(PageAt(virt, d, i), virt, d, j);
  }

  lemma PageStart(virt: nat, d: nat, i: nat)
    requires d <= 3
    ensures InPageAt(PageAt(virt, d, i), virt, d, i)
  {
  }

  /** A list sets just its own pages when none lies inside a larger leaf. */
  lemma {:induction false} ListOnClear(m: Pages, virt: nat, e: Entry, d: nat, n: nat, x: Path)
    requires Consistent(m) && d <= 3 && Lists(m, virt, d, n) && Apart(virt, d, n) && IsClear(m, virt, d, n) && x in m && |x| == 4
    ensures IsListed(m, ListPages(m, virt, e, d, n), virt, e, d, n, x)
  {
    hide Consistent, SetPages, EntryAt, PageAt, InPageAt, Lists, ListPages;
    if n > 0 {
      var ix := PageAt(virt, d, n - 1);
      ListShorter(m, virt, d, n - 1, n);
      ListedPage(m, virt, d, n, n - 1);
      ClearShorter(m, virt, d, n - 1, n);
      ListOnClear(m, virt, e, d, n - 1, x);
      ListOnClear(m, virt, e, d, n - 1, ix);
      PageStart(virt, d, n - 1);
      forall i: nat | i < n - 1 ensures !InPageAt(ix, virt, d, i) && !(InPageAt(x, virt, d, i) && InPageAt(x, virt, d, n - 1)) {
        InOnePage(virt, d, n, i, n - 1, ix);
        InOnePage(virt, d, n, i, n - 1, x);
      }
      var p := ListPages(m, virt, e, d, n - 1);
      ListNext(m, virt, e, d, n - 1);
      SetOnClear(p, ix, d, EntryAt(e, d, n - 1), x);
      InPageIs(x, virt, d, n - 1);
    } else {
      ListNone(m, virt, e, d);
    }
  }

  lemma ListedPage(m: Pages, virt: nat, d: nat, n: nat, i: nat)
    requires d <= 3 && Lists(m, virt, d, n) && i < n
    ensures PageAt(virt, d, i) in m
  {
  }

  lemma InPageIs(x: Path, virt: nat, d: nat, i: nat)
    requires |x| == 4 && d <= 3
    ensures InPageAt(x, virt, d, i) <==> SamePage(x, PageAt(virt, d, i), d)
  {
  }

  lemma ListNone(m: Pages, virt: nat, e: Entry, d: nat)
    requires Consistent(m) && d <= 3
    ensures Lists(m, virt, d, 0) && ListPages(m, virt, e, d, 0) == m && UnlistPages(m, virt, d, 0) == m
  {
  }

  /** Each page of the list is the leaf of one of its own: mapped at that size, and nothing larger or smaller. */
  ghost predicate MappedAt(m: Pages, virt: nat, d: nat, n: nat)
    requires Consistent(m) && d <= 3 && Lists(m, virt, d, n)
  {
    forall i: nat | i < n :: IsPage(m, PageAt(virt, d, i), d)
  }

  ghost predicate IsPage(m: Pages, ix: Path, d: nat)
    requires Consistent(m) && ix in m && d <= 3
  {
    m[ix].Leaf? && m[ix].depth == d && (d < 3 ==> Huge(m[ix].entry))
  }

  ghost predicate IsUnlisted(m: Pages, m': Pages, virt: nat, d: nat, n: nat, x: Path)
    requires |x| == 4 && d <= 3 && x in m && x in m'
  {
    && (forall i: nat | i < n && InPageAt(x, virt, d, i) :: m'[x] == NoLeaf)
    && ((forall i: nat | i < n :: !InPageAt(x, virt, d, i)) ==> m'[x] == m[x])
  }

  lemma UnlistNext(m: Pages, virt: nat, d: nat, i: nat)
    requires Consistent(m) && d <= 3 && Lists(m, virt, d, i + 1) && Lists(m, virt, d, i)
    ensures var p, ix := UnlistPages(m, virt, d, i), PageAt(virt, d, i);
      ix in p && UnlistPages(m, virt, d, i + 1) == UnsetPages(p, ix)
  {
    hide UnsetPages, Consistent, PageAt;
  }

  lemma UnsetOfSize(p: Pages, ix: Path, d: nat, x: Path)
    requires Consistent(p) && ix in p && x in p && d <= 3 && p[ix].Leaf? && p[ix].depth == d
    ensures UnsetPages(p, ix)[x] == if SamePage(x, ix, d) then NoLeaf else p[x]
  {
  }

  /** Unsetting mapped pages one by one removes just those pages, and finds each of them still there. */
  lemma {:induction false} UnlistMapped(m: Pages, virt: nat, d: nat, n: nat, x: Path)
    requires Consistent(m) && d <= 3 && Lists(m, virt, d, n) && Apart(virt, d, n) && MappedAt(m, virt, d, n) && x in m && |x| == 4
    ensures IsUnlisted(m, UnlistPages(m, virt, d, n), virt, d, n, x)
  {
    hide Consistent, UnsetPages, PageAt, InPageAt, Lists, UnlistPages, Huge;
    if n > 0 {
      var ix := PageAt(virt, d, n - 1);
      ListShorter(m, virt, d, n - 1, n);
      ListedPage(m, virt, d, n, n - 1);
      UnlistMapped(m, virt, d, n - 1, x);
      UnlistMapped(m, virt, d, n - 1, ix);
      forall i: nat | i < n - 1 ensures !InPageAt(ix, virt, d, i) && !(InPageAt(x, virt, d, i) && InPageAt(x, virt, d, n - 1)) {
        PageStart(virt, d, n - 1);
        InOnePage(virt, d, n, i, n - 1, ix);
        InOnePage(virt, d, n, i, n - 1, x);
      }
      var p := UnlistPages(m, virt, d, n - 1);
      UnlistNext(m, virt, d, n - 1);
      assert IsPage(m, ix, d);
      UnsetOfSize(p, ix, d, x);
      InPageIs(x, virt, d, n - 1);
    } else {
      ListNone(m, virt, 0, d);
    }
  }

  /** A page not yet reached by the loop still shows what it showed before. */
  lemma NotYetListed(m: Pages, virt: nat, e: Entry, d: nat, n: nat, i: nat)
    requires Consistent(m) && d <= 3 && Lists(m, virt, d, n) && Apart(virt, d, n) && i < n
    ensures Lists(m, virt, d, i) && Lists(m, virt, d, i + 1) && PageAt(virt, d, i) in m
    ensures IsClear(m, virt, d, n) ==> ListPages(m, virt, e, d, i)[PageAt(virt, d, i)] == m[PageAt(virt, d, i)]
    ensures MappedAt(m, virt, d, n) ==> UnlistPages(m, virt, d, i)[PageAt(virt, d, i)] == m[PageAt(virt, d, i)]
  {
    hide Consistent, PageAt, InPageAt, Lists, UnlistPages, ListPages, IsPage;
    var ix := PageAt(virt, d, i);
    ListShorter(m, virt, d, i, n);
    ListShorter(m, virt, d, i + 1, n);
    ListedPage(m, virt, d, n, i);
    PageStart(virt, d, i);
    forall j: nat | j < i ensures !InPageAt(ix, virt, d, j) { InOnePage(virt, d, n, j, i, ix); }
    if IsClear(m, virt, d, n) { ClearShorter(m, virt, d, i, n); ListOnClear(m, virt, e, d, i, ix); }
    if MappedAt(m, virt, d, n) { MappedShorter(m, virt, d, i, n); UnlistMapped(m, virt, d, i, ix); }
  }

  lemma ClearShorter(m: Pages, virt: nat, d: nat, i: nat, n: nat)
    requires Consistent(m) && d <= 3 && Lists(m, virt, d, n) && i <= n && IsClear(m, virt, d, n)
    ensures Lists(m, virt, d, i) && IsClear(m, virt, d, i)
  {
    hide IsInside, PageAt, Consistent;
  }

  lemma MappedShorter(m: Pages, virt: nat, d: nat, i: nat, n: nat)
    requires Consistent(m) && d <= 3 && Lists(m, virt, d, n) && i <= n && MappedAt(m, virt, d, n)
    ensures Lists(m, virt, d, i) && MappedAt(m, virt, d, i)
  {
    hide IsPage, PageAt, Consistent;
  }

  /** The pages of a list can be set: none lies inside a larger leaf or holds smaller ones. */
  ghost predicate IsPlaceable(m: Pages, virt: nat, d: nat, n: nat)
    requires Consistent(m) && d <= 3 && Lists(m, virt, d, n)
  {
    forall i: nat | i < n :: Unsplit(m, PageAt(virt, d, i), d) && !IsInside(m[PageAt(virt, d, i)], d)
  }

  lemma PlaceableIsClear(m: Pages, virt: nat, d: nat, n: nat)
    requires Consistent(m) && d <= 3 && Lists(m, virt, d, n) && IsPlaceable(m, virt, d, n)
    ensures IsClear(m, virt, d, n)
  {
    hide Unsplit, IsInside, PageAt, Consistent;
  }

  /** Adding whole pages leaves the low flags of an entry alone. */
  lemma {:induction false} EntryFlags(e: Entry, d: nat, i: nat)
    requires d <= 3
    ensures Huge(EntryAt(e, d, i)) <==> Huge(e)
    ensures Present(EntryAt(e, d, i)) <==> Present(e)
  {
    hide Huge, Present, NextEntry;
    if i > 0 {
      EntryFlags(e, d, i - 1);
      NextFlags(EntryAt(e, d, i - 1), d);
    }
  }

  lemma NextFlags(e: Entry, d: nat)
    requires d <= 3
    ensures Huge(NextEntry(e, d)) <==> Huge(e)
    ensures Present(NextEntry(e, d)) <==> Present(e)
  {
  }

  /** No page of the list is a table already. */
  ghost predicate NoTables(t: Tree, virt: nat, d: nat, n: nat)
    requires d <= 3
  {
    forall i | 0 <= i < n :: LeafDepth(t, PageAt(virt, d, i)) <= d
  }

  lemma NoTablesNext(t: Tree, virt: nat, d: nat, i: nat)
    requires d <= 3
    ensures NoTables(t, virt, d, 0)
    ensures NoTables(t, virt, d, i + 1) <==> NoTables(t, virt, d, i) && LeafDepth(t, PageAt(virt, d, i)) <= d
  {
    hide LeafDepth, PageAt;
  }

  /** The tables above the pages of a list. */
  ghost function ListPrefixes(virt: nat, d: nat, n: nat): set<Path>
    requires d <= 3
  {
    if n == 0 then {} else ListPrefixes(virt, d, n - 1) + Prefixes(PageAt(virt, d, n - 1), d)
  }

  /** Those of them that do not exist yet. */
  ghost function Missing(t: Tree, virt: nat, d: nat, n: nat): set<Path>
    requires d <= 3
  {
    ListPrefixes(virt, d, n) - t.tables.Keys
  }

  lemma {:induction false} PrefixesGrow(virt: nat, d: nat, i: nat, n: nat)
    requires d <= 3 && i <= n
    ensures ListPrefixes(virt, d, i) <= ListPrefixes(virt, d, n)
    decreases n
  {
    hide Prefixes;
    if i < n { PrefixesGrow(virt, d, i, n - 1); }
  }

  lemma NoTablesShorter(t: Tree, virt: nat, d: nat, i: nat, n: nat)
    requires d <= 3 && i <= n && NoTables(t, virt, d, n)
    ensures NoTables(t, virt, d, i)
  {
    hide LeafDepth, PageAt;
  }

  /** Setting the i-th page of the list meets a present leaf of greater size. */
  ghost predicate StopsAt(m: Pages, virt: nat, e: Entry, d: nat, i: nat)
    requires Consistent(m) && d <= 3 && Lists(m, virt, d, i + 1)
  {
    Stops(ListPages(m, virt, e, d, i)[PageAt(virt, d, i)], d)
  }

  ghost predicate OverwritesAt(m: Pages, virt: nat, e: Entry, d: nat, i: nat)
    requires Consistent(m) && d <= 3 && Lists(m, virt, d, i + 1)
  {
    Overwrites(ListPages(m, virt, e, d, i)[PageAt(virt, d, i)], d)
  }

  ghost predicate ListStops(m: Pages, virt: nat, e: Entry, d: nat, n: nat)
    requires Consistent(m) && d <= 3 && Lists(m, virt, d, n)
  {
    exists i: nat {:trigger StopsAt(m, virt, e, d, i)} | i < n :: StopsAt(m, virt, e, d, i)
  }

  ghost predicate ListOverwrites(m: Pages, virt: nat, e: Entry, d: nat, n: nat)
    requires Consistent(m) && d <= 3 && Lists(m, virt, d, n)
  {
    exists i: nat {:trigger OverwritesAt(m, virt, e, d, i)} | i < n :: OverwritesAt(m, virt, e, d, i)
  }

  lemma ListStart(m: Pages, virt: nat, e: Entry, d: nat)
    requires Consistent(m) && 0 <= d <= 3
    ensures Lists(m, virt, d, 0) && ListPages(m, virt, e, d, 0) == m && PageAddress(virt, d, 0) == virt && EntryAt(e, d, 0) == e
    ensures !ListStops(m, virt, e, d, 0) && !ListOverwrites(m, virt, e, d, 0)
  {
  }

  lemma ListStep(m: Pages, virt: nat, e: Entry, d: nat, i: nat, n: nat)
    requires Consistent(m) && 0 <= d <= 3 && Lists(m, virt, d, n) && i < n
    ensures Lists(m, virt, d, i) && Lists(m, virt, d, i + 1)
    ensures var p, ix := ListPages(m, virt, e, d, i), PageAt(virt, d, i);
      && ix in p && ListPages(m, virt, e, d, i + 1) == SetPages(p, ix, d, EntryAt(e, d, i))
      && (StopsAt(m, virt, e, d, i) <==> Stops(p[ix], d))
      && (OverwritesAt(m, virt, e, d, i) <==> Overwrites(p[ix], d))
  {
    hide SetPages, Indices, Stops, Overwrites, Consistent, Span, Lists, ListPages;
    ListShorter(m, virt, d, i, n);
    ListShorter(m, virt, d, i + 1, n);
    ListNext(m, virt, e, d, i);
  }

  lemma ListAdvances(virt: nat, e: Entry, d: nat, i: nat)
    requires d <= 3
    ensures PageAddress(virt, d, i + 1) == PageAddress(virt, d, i) + Span(d)
    ensures EntryAt(e, d, i + 1) == NextEntry(EntryAt(e, d, i), d)
  {
    hide Span, NextEntry;
  }

  lemma ListGoesOn(m: Pages, virt: nat, e: Entry, d: nat, i: nat, n: nat)
    requires Consistent(m) && 0 <= d <= 3 && Lists(m, virt, d, n) && i < n && Lists(m, virt, d, i) && Lists(m, virt, d, i + 1)
    ensures ListStops(m, virt, e, d, i + 1) <==> ListStops(m, virt, e, d, i) || StopsAt(m, virt, e, d, i)
    ensures ListOverwrites(m, virt, e, d, i + 1) <==> ListOverwrites(m, virt, e, d, i) || OverwritesAt(m, virt, e, d, i)
    ensures ListStops(m, virt, e, d, i + 1) ==> ListStops(m, virt, e, d, n)
  {
    hide StopsAt, OverwritesAt, Lists, Consistent;
  }
}
