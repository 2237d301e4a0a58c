/** The usable physical memory: two sorted lists of regions, split at 4 GiB. */
module RegionLists {

  /** Half-open: the end is the first address behind the region. */
  datatype Region = Region(start: nat, size: nat) {
    function End(): nat { start + size }
    predicate Contains(a: nat) { start <= a < End() }
  }

  const FOUR_GIB: nat := 0x1_0000_0000
  const ONE_MIB: nat := 0x100000
  const MAXIMUM_COUNT: nat := 8

  /** In order and without overlap. */
  ghost predicate Sorted(l: seq<Region>) {
    && (forall i | 0 <= i < |l| :: 0 < l[i].size)
    && (forall i, j | 0 <= i < j < |l| :: l[i].End() <= l[j].start)
  }

  predicate Denotes(l: seq<Region>, a: nat) {
    exists i :: 0 <= i < |l| && l[i].Contains(a)
  }

  function InsertAt(l: seq<Region>, i: nat, r: Region): seq<Region>
    requires i <= |l|
  {
    l[..i] + [r] + l[i..]
  }

  lemma InsertDenotes(l: seq<Region>, i: nat, r: Region, a: nat)
    requires i <= |l|
    ensures Denotes(InsertAt(l, i, r), a) <==> Denotes(l, a) || r.Contains(a)
  {
    var l' := InsertAt(l, i, r);
    if Denotes(l, a) {
      var j :| 0 <= j < |l| && l[j].Contains(a);
      assert l'[if j < i then j else j + 1] == l[j];
    }
    if r.Contains(a) { assert l'[i] == r; }
    if Denotes(l', a) {
      var j :| 0 <= j < |l'| && l'[j].Contains(a);
      assert j < i ==> l'[j] == l[j];
      assert j > i ==> l'[j] == l[j - 1];
    }
  }

  /** The region overlaps nothing in the list. */
  ghost predicate IsApart(l: seq<Region>, r: Region) {
    forall i | 0 <= i < |l| :: l[i].End() <= r.start || r.End() <= l[i].start
  }

  /** Before the first region that starts behind it, the new region keeps the order. */
  lemma InsertKeepsSorted(l: seq<Region>, i: nat, r: Region)
    requires Sorted(l) && 0 < r.size && IsApart(l, r) && i <= |l|
    requires (forall j | 0 <= j < i :: l[j].start <= r.start) && (i < |l| ==> r.start < l[i].start)
    ensures Sorted(InsertAt(l, i, r))
  {
    var l' := InsertAt(l, i, r);
    forall j | 0 <= j < i ensures l[j].End() <= r.start { }
    forall j | i <= j < |l| ensures r.End() <= l[j].start { }
    forall j, k | 0 <= j < k < |l'| ensures l'[j].End() <= l'[k].start {
      assert j < i ==> l'[j] == l[j];
      assert j > i ==> l'[j] == l[j - 1];
      assert k < i ==> l'[k] == l[k];
      assert k > i ==> l'[k] == l[k - 1];
    }
  }

  /** An entry of the boot loader's memory map; type 1 is usable memory. */
  datatype MapEntry = MapEntry(base: nat, length: nat, kind: nat) {

    /** Memory that ends in the first MiB is dropped. */
    predicate IsKept() { kind == 1 && base + length > ONE_MIB }

    /** A region that starts in the first MiB is taken to start at 0. */
    function Stretched(): Region {
      if base <= ONE_MIB then Region(0, base + length) else Region(base, length)
    }
  }

  /** Usable entries are not empty and do not overlap. */
  ghost predicate AreApart(entries: seq<MapEntry>) {
    && (forall i | 0 <= i < |entries| && entries[i].kind == 1 :: 0 < entries[i].length)
    && (forall i, j | 0 <= i < j < |entries| && entries[i].kind == 1 && entries[j].kind == 1 ::
      entries[i].base + entries[i].length <= entries[j].base || entries[j].base + entries[j].length <= entries[i].base)
  }

  /** Some kept entry, stretched, holds the address. */
  ghost predicate IsUsable(entries: seq<MapEntry>, a: nat) {
    exists i :: 0 <= i < |entries| && entries[i].IsKept() && entries[i].Stretched().Contains(a)
  }

  /** The kept entries that put a region into the lower list, or into the upper one; some do both. */
  function LowerCount(entries: seq<MapEntry>, n: nat): nat
    requires n <= |entries|
  {
    if n == 0 then 0 else
    LowerCount(entries, n - 1)
    + if entries[n - 1].IsKept() && entries[n - 1].Stretched().start < FOUR_GIB then 1 else 0
  }

  function UpperCount(entries: seq<MapEntry>, n: nat): nat
    requires n <= |entries|
  {
    if n == 0 then 0 else
    UpperCount(entries, n - 1)
    + if entries[n - 1].IsKept() && entries[n - 1].Stretched().End() > FOUR_GIB then 1 else 0
  }

  /** The entry holds the address and is usable memory. */
  predicate IsMemory(e: MapEntry, a: nat) { e.kind == 1 && e.base <= a < e.base + e.length }

  /** The entry is usable memory from 1 MiB or below it to some place behind it. */
  predicate ReachesOver(e: MapEntry) { e.kind == 1 && e.base <= 0x100000 < e.base + e.length }

  /**
   What the lists hold, said of the entries as the boot loader reports them: from 1 MiB on the usable
   memory, and below it all or nothing, as a usable entry reaches over 1 MiB or not.
  */
  lemma UsableIff(entries: seq<MapEntry>, a: nat)
    ensures 0x100000 <= a ==> (IsUsable(entries, a) <==> exists i :: 0 <= i < |entries| && IsMemory(entries[i], a))
    ensures a < 0x100000 ==> (IsUsable(entries, a) <==> exists i :: 0 <= i < |entries| && ReachesOver(entries[i]))
  {
    if IsUsable(entries, a) {
      var i :| 0 <= i < |entries| && entries[i].IsKept() && entries[i].Stretched().Contains(a);
      assert 0x100000 <= a ==> IsMemory(entries[i], a);
    }
    if i :| 0x100000 <= a && 0 <= i < |entries| && IsMemory(entries[i], a) {
      assert entries[i].IsKept() && entries[i].Stretched().Contains(a);
    }
    if i :| a < 0x100000 && 0 <= i < |entries| && ReachesOver(entries[i]) {
      assert entries[i].IsKept() && entries[i].Stretched().Contains(a);
    }
  }

  predicate IsLower(e: MapEntry) {
    e.kind == 1 && e.base + e.length > 0x100000 && e.base < 0x1_0000_0000
  }

  predicate IsUpper(e: MapEntry) {
    e.kind == 1 && e.base + e.length > 0x1_0000_0000
  }

  lemma SideIs(e: MapEntry)
    ensures IsLower(e) <==> e.IsKept() && e.Stretched().start < FOUR_GIB
    ensures IsUpper(e) <==> e.IsKept() && e.Stretched().End() > FOUR_GIB
  {
  }

  /** The entries among the first n with usable memory behind 1 MiB, and in front of 4 GiB or behind it. */
  ghost function LowerEntries(entries: seq<MapEntry>, n: nat): set<nat>
    requires n <= |entries|
  {
    set i: nat | i < n && IsLower(entries[i])
  }

  ghost function UpperEntries(entries: seq<MapEntry>, n: nat): set<nat>
    requires n <= |entries|
  {
    set i: nat | i < n && IsUpper(entries[i])
  }

  lemma {:induction false} CountsAre(entries: seq<MapEntry>, n: nat)
    requires n <= |entries|
    ensures LowerCount(entries, n) == |LowerEntries(entries, n)| && UpperCount(entries, n) == |UpperEntries(entries, n)|
  {
    hide IsLower, IsUpper;
    if n == 0 {
      assert LowerEntries(entries, 0) == {} && UpperEntries(entries, 0) == {};
    } else {
      CountsAre(entries, n - 1);
      EntriesStep(entries, n - 1);
      SideIs(entries[n - 1]);
    }
  }

  lemma EntriesStep(entries: seq<MapEntry>, n: nat)
    requires n < |entries|
    ensures |LowerEntries(entries, n + 1)| == |LowerEntries(entries, n)| + if IsLower(entries[n]) then 1 else 0
    ensures |UpperEntries(entries, n + 1)| == |UpperEntries(entries, n)| + if IsUpper(entries[n]) then 1 else 0
  {
    hide IsLower, IsUpper;
    OneMore(LowerEntries(entries, n), LowerEntries(entries, n + 1), n, IsLower(entries[n]));
    OneMore(UpperEntries(entries, n), UpperEntries(entries, n + 1), n, IsUpper(entries[n]));
  }

  lemma OneMore(a: set<nat>, b: set<nat>, n: nat, isMore: bool)
    requires n !in a && forall i: nat :: i in b <==> i in a || (isMore && i == n)
    ensures |b| == |a| + if isMore then 1 else 0
  {
    assert b == if isMore then a + {n} else a;
  }

  /** Loading needs room for eight regions on each side of 4 GiB, and some lower memory. */
  lemma FitsIff(entries: seq<MapEntry>)
    ensures FitsLists(entries) <==>
      && 1 <= |LowerEntries(entries, |entries|)| <= 8 && |UpperEntries(entries, |entries|)| <= 8
  {
    CountsAre(entries, |entries|);
  }

  lemma {:induction false} CountsGrow(entries: seq<MapEntry>, m: nat, n: nat)
    requires m <= n <= |entries|
    ensures LowerCount(entries, m) <= LowerCount(entries, n) && UpperCount(entries, m) <= UpperCount(entries, n)
    decreases n
  {
    if m < n { CountsGrow(entries, m, n - 1); }
  }

  /** The lists have room for what the boot loader reports, and there is some lower memory. */
  predicate FitsLists(entries: seq<MapEntry>) {
    0 < LowerCount(entries, |entries|) <= MAXIMUM_COUNT && UpperCount(entries, |entries|) <= MAXIMUM_COUNT
  }

  lemma UsableStep(entries: seq<MapEntry>, n: nat, a: nat)
    requires n < |entries|
    ensures IsUsable(entries[..n + 1], a)
      <==> IsUsable(entries[..n], a) || (entries[n].IsKept() && entries[n].Stretched().Contains(a))
  {
    var p, q := entries[..n], entries[..n + 1];
    assert forall i | 0 <= i < n :: p[i] == q[i];
    if IsUsable(p, a) {
      var i :| 0 <= i < |p| && p[i].IsKept() && p[i].Stretched().Contains(a);
      assert q[i] == p[i];
    }
    assert q[n] == entries[n];
  }

  lemma StretchedPair(x: MapEntry, y: MapEntry, a: nat)
    requires x.IsKept() && y.IsKept() && (x.base + x.length <= y.base || y.base + y.length <= x.base)
    ensures !(x.Stretched().Contains(a) && y.Stretched().Contains(a))
  {
  }

  /** Stretching keeps kept entries apart: only one of them reaches over the first MiB. */
  lemma StretchedIsApart(entries: seq<MapEntry>, n: nat, a: nat)
    requires AreApart(entries) && n < |entries| && entries[n].IsKept() && entries[n].Stretched().Contains(a)
    ensures !IsUsable(entries[..n], a)
  {
    forall i | 0 <= i < n && entries[i].IsKept() ensures !entries[i].Stretched().Contains(a) {
      StretchedPair(entries[i], entries[n], a);
    }
    assert forall i | 0 <= i < n :: entries[..n][i] == entries[i];
  }

  /** Regions without a common address lie behind one another. */
  lemma DisjointIsApart(l: seq<Region>, r: Region)
    requires (forall i | 0 <= i < |l| :: 0 < l[i].size) && 0 < r.size
    requires forall a: nat | r.Contains(a) :: !Denotes(l, a)
    ensures IsApart(l, r)
  {
    forall i | 0 <= i < |l| ensures l[i].End() <= r.start || r.End() <= l[i].start {
      var a := if l[i].start < r.start then r.start else l[i].start;
      assert l[i].Contains(a) ==> Denotes(l, a);
    }
  }

  lemma DenotesConcat(l: seq<Region>, m: seq<Region>, a: nat)
    ensures Denotes(l + m, a) <==> Denotes(l, a) || Denotes(m, a)
  {
    if Denotes(l, a) {
      var i :| 0 <= i < |l| && l[i].Contains(a);
      assert (l + m)[i] == l[i];
    }
    if Denotes(m, a) {
      var i :| 0 <= i < |m| && m[i].Contains(a);
      assert (l + m)[|l| + i] == m[i];
    }
    if Denotes(l + m, a) {
      var i :| 0 <= i < |l + m| && (l + m)[i].Contains(a);
      assert i < |l| ==> l[i].Contains(a);
      assert i >= |l| ==> m[i - |l|].Contains(a);
    }
  }

  class RegionList {
    var lower: seq<Region>
    var upper: seq<Region>

    /** Sorted lists, and no region crosses 4 GiB. */
    ghost predicate Valid()
      reads this
    {
      && Sorted(lower) && Sorted(upper)
      && (forall i | 0 <= i < |lower| :: lower[i].End() <= FOUR_GIB)
      && (forall i | 0 <= i < |upper| :: FOUR_GIB <= upper[i].start)
    }

    function All(): seq<Region>
      reads this
    {
      lower + upper
    }

    /** The index of the region that holds addr, or -1. */
    method FindRegion(addr: nat) returns (found: int)
      ensures -1 <= found < |All()|
      ensures found >= 0 ==> All()[found].Contains(addr) && forall i | 0 <= i < found :: !All()[i].Contains(addr)
      ensures found < 0 ==> !Denotes(All(), addr)
    {
      for i := 0 to |lower|
        invariant forall j | 0 <= j < i :: !lower[j].Contains(addr)
      {
        if lower[i].Contains(addr) {
          return i;
        }
      }
      for i := 0 to |upper|
        invariant forall j | 0 <= j < |lower| + i :: !All()[j].Contains(addr)
      {
        if upper[i].Contains(addr) {
          return |lower| + i;
        }
      }
      return -1;
    }

    /** The index of the first region that starts behind the given one, or -1. */
    method NextRegion(reg: Region) returns (found: int)
      ensures -1 <= found < |All()|
      ensures found >= 0 ==> All()[found].start > reg.start && forall i | 0 <= i < found :: All()[i].start <= reg.start
      ensures found < 0 ==> forall i | 0 <= i < |All()| :: All()[i].start <= reg.start
    {
      for i := 0 to |lower|
        invariant forall j | 0 <= j < i :: lower[j].start <= reg.start
      {
        if lower[i].start > reg.start {
          return i;
        }
      }
      for i := 0 to |upper|
        invariant forall j | 0 <= j < |lower| + i :: All()[j].start <= reg.start
      {
        if upper[i].start > reg.start {
          return |lower| + i;
        }
      }
      return -1;
    }

    /** Inserts the region in order; false stands for the panic on a full list. */
    method AddRegion(region: Region) returns (ok: bool)
      requires Valid() && 0 < region.size && (region.start < FOUR_GIB ==> region.End() <= FOUR_GIB)
      requires forall a: nat | region.Contains(a) :: !Denotes(All(), a)
      modifies this
      ensures Valid()
      ensures ok <==> |if region.start < FOUR_GIB then old(lower) else old(upper)| < MAXIMUM_COUNT
      ensures ok ==> forall a: nat :: Denotes(All(), a) <==> old(Denotes(All(), a)) || region.Contains(a)
      ensures ok && region.start < FOUR_GIB ==>
        upper == old(upper) && exists i :: 0 <= i <= old(|lower|) && lower == InsertAt(old(lower), i, region)
      ensures ok && region.start >= FOUR_GIB ==>
        lower == old(lower) && exists i :: 0 <= i <= old(|upper|) && upper == InsertAt(old(upper), i, region)
      ensures !ok ==> lower == old(lower) && upper == old(upper)
    {
      hide Denotes, Sorted;
      var list := if region.start < FOUR_GIB then lower else upper;
      var insertIndex := |list|;
      for i := 0 to |list|
        invariant insertIndex == |list| && forall j | 0 <= j < i :: list[j].start <= region.start
      {
        if list[i].start > region.start {
          insertIndex := i;
          break;
        }
      }
      if |list| >= MAXIMUM_COUNT {
        return false;
      }
      forall a: nat
        ensures Denotes(All(), a) <==> Denotes(lower, a) || Denotes(upper, a)
        ensures Denotes(InsertAt(list, insertIndex, region), a) <==> Denotes(list, a) || region.Contains(a)
      {
        DenotesConcat(lower, upper, a);
        InsertDenotes(list, insertIndex, region, a);
      }
      InsertIsSorted(list, insertIndex, region);
      list := InsertAt(list, insertIndex, region);
      if region.start < FOUR_GIB {
        lower := list;
      } else {
        upper := list;
      }
      forall a: nat ensures Denotes(All(), a) <==> Denotes(lower, a) || Denotes(upper, a) { DenotesConcat(lower, upper, a); }
      return true;
    }

    constructor ()
      ensures Valid() && All() == []
    {
      lower, upper := [], [];
    }

    /**
     Reads the boot loader's map.  The lists then hold exactly the kept memory; false stands for the
     panic on a full or an empty list.
    */
    method Load(entries: seq<MapEntry>) returns (ok: bool)
      requires Valid() && All() == [] && AreApart(entries)
      modifies this
      ensures Valid()
      ensures ok <==> 1 <= |LowerEntries(entries, |entries|)| <= 8 && |UpperEntries(entries, |entries|)| <= 8
      ensures ok ==> forall a: nat | 0x100000 <= a ::
        Denotes(All(), a) <==> exists i :: 0 <= i < |entries| && IsMemory(entries[i], a)
      ensures ok ==> forall a: nat | a < 0x100000 ::
        Denotes(All(), a) <==> exists i :: 0 <= i < |entries| && ReachesOver(entries[i])
    {
      hide Denotes, IsUsable, AreApart, Sorted;
      NothingYet(entries);
      FitsIff(entries);
      for n := 0 to |entries|
        invariant Valid() && forall a: nat :: Denotes(All(), a) <==> IsUsable(entries[..n], a)
        invariant |lower| == LowerCount(entries, n) <= MAXIMUM_COUNT && |upper| == UpperCount(entries, n) <= MAXIMUM_COUNT
      {
        var info := entries[n];
        CountsGrow(entries, n + 1, |entries|);
        forall a: nat
          ensures IsUsable(entries[..n + 1], a) <==> IsUsable(entries[..n], a) || (info.IsKept() && info.Stretched().Contains(a))
          ensures info.IsKept() && info.Stretched().Contains(a) ==> !IsUsable(entries[..n], a)
        {
          UsableStep(entries, n, a);
          if info.IsKept() && info.Stretched().Contains(a) { StretchedIsApart(entries, n, a); }
        }
        if info.kind != 1 {
          continue;
        }
        if info.base + info.length <= ONE_MIB {
          continue;
        }
        var start, len := info.base, info.length;
        if start <= ONE_MIB {
          len := len + start;
          start := 0;
        }
        KeptIsNotEmpty(entries, n);
        var region := Region(start, len);
        assert region == info.Stretched();
        if start < FOUR_GIB && start + len > FOUR_GIB {
          var lowSize := FOUR_GIB - start;
          var lowerRegion, upperRegion := Region(start, lowSize), Region(FOUR_GIB, len - lowSize);
          ok := AddRegion(lowerRegion);
          if !ok {
            return false;
          }
          ok := AddRegion(upperRegion);
          if !ok {
            return false;
          }
        } else {
          ok := AddRegion(region);
          if !ok {
            return false;
          }
        }
      }
      assert entries[..|entries|] == entries;
      forall a: nat
        ensures 0x100000 <= a ==> (Denotes(All(), a) <==> exists i :: 0 <= i < |entries| && IsMemory(entries[i], a))
        ensures a < 0x100000 ==> (Denotes(All(), a) <==> exists i :: 0 <= i < |entries| && ReachesOver(entries[i]))
      {
        UsableIff(entries, a);
      }
      return |lower| != 0;
    }
  }

  lemma InsertIsSorted(l: seq<Region>, i: nat, r: Region)
    requires Sorted(l) && 0 < r.size && (forall a: nat | r.Contains(a) :: !Denotes(l, a)) && i <= |l|
    requires (forall j | 0 <= j < i :: l[j].start <= r.start) && (i < |l| ==> r.start < l[i].start)
    ensures Sorted(InsertAt(l, i, r))
  {
    DisjointIsApart(l, r);
    InsertKeepsSorted(l, i, r);
  }

  lemma NothingYet(entries: seq<MapEntry>)
    ensures forall a: nat :: !Denotes([], a) && !IsUsable(entries[..0], a)
  {
  }

  lemma KeptIsNotEmpty(entries: seq<MapEntry>, n: nat)
    requires AreApart(entries) && n < |entries| && entries[n].IsKept()
    ensures 0 < entries[n].Stretched().size
  {
  }
}
