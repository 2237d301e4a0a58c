/** StepAllocator: allocates upwards through the regions and never takes anything back. */
module StepAllocators {
  import opened Words
  import opened RegionLists
  import opened PageTree
  import opened PhysicalWords

  // ----- what Alloc does -----

  /** The first aligned address of the region that is not below `from`. */
  function FirstIn(r: Region, from: nat, align: nat): nat
    requires 0 < align
  {
    var x := if from < r.start then r.start else from;
    x + Chop(x, align)
  }

  /** Where the search comes to in a region: its first aligned address, or, when that lies outside, its last byte. */
  function Reached(r: Region, from: nat, align: nat): nat
    requires 0 < align && 0 < r.size
  {
    if FirstIn(r, from, align) <= r.End() then FirstIn(r, from, align) else r.End() - 1
  }

  /** `from` lies in a region or right behind one. */
  predicate IsWithin(l: seq<Region>, from: nat) {
    Denotes(l, from) || (0 < from && Denotes(l, from - 1))
  }

  /** The region is the one of `from`, or lies behind it. */
  predicate IsAhead(l: seq<Region>, from: nat, i: nat)
    requires i < |l|
  {
    from < l[i].End() || (from == l[i].End() && !Denotes(l, from))
  }

  predicate Takes(l: seq<Region>, from: nat, size: nat, align: nat, i: nat)
    requires Sorted(l) && 0 < align && i < |l|
  {
    IsAhead(l, from, i) && Reached(l[i], from, align) + size <= l[i].End()
  }

  /** The first region, from the i-th on, in which the search ends. */
  ghost function FirstTaking(l: seq<Region>, from: nat, size: nat, align: nat, i: nat): (k: nat)
    requires Sorted(l) && 0 < align && i <= |l|
    ensures i <= k <= |l| && (k < |l| ==> Takes(l, from, size, align, k))
    ensures forall j | i <= j < k :: !Takes(l, from, size, align, j)
    decreases |l| - i
  {
    if i == |l| || Takes(l, from, size, align, i) then i else FirstTaking(l, from, size, align, i + 1)
  }

  /** The answer, and the new lastAddr. */
  datatype Answer = Refused(last: nat) | Granted(addr: nat, last: nat)

  /** What Alloc does when lastAddr is `from`. */
  ghost function AllocOf(l: seq<Region>, from: nat, size: nat, align: nat): Answer
    requires Sorted(l) && 0 < align
  {
    if !IsWithin(l, from) then Refused(from) else
    var k := FirstTaking(l, from, size, align, 0);
    if k < |l| then Granted(Reached(l[k], from, align), Reached(l[k], from, align) + size)
    else if l == [] then Refused(from)
    else Refused(Reached(l[|l| - 1], from, align))
  }

  // ----- what Alloc promises -----

  /** [x, x + n) lies in a region. */
  ghost predicate IsInside(l: seq<Region>, x: nat, n: nat) {
    exists i :: 0 <= i < |l| && l[i].start <= x && x + n <= l[i].End()
  }

  predicate HasRoom(r: Region, from: nat, size: nat, align: nat)
    requires 0 < align
  {
    FirstIn(r, from, align) + size <= r.End()
  }

  /**
   Everything allocated lies below `high`, and so below lastAddr, except that after a failure lastAddr
   may have fallen back to the last byte of a region.
  */
  ghost predicate IsBehind(l: seq<Region>, last: nat, high: nat) {
    high <= last || (high == last + 1 && EndsAt(l, high))
  }

  predicate EndsAt(l: seq<Region>, a: nat) {
    exists i :: 0 <= i < |l| && l[i].End() == a
  }

  /**
   The search falls back below `high`: lastAddr has fallen back already, and rounding up does not take it
   to the end of the region; or it stands at the end of a region, with none behind it, and is not aligned.
  */
  predicate FallsBack(l: seq<Region>, from: nat, high: nat, align: nat)
    requires 0 < align
  {
    || (from + 1 == high && !(1 < align && high % align == 0))
    || (from == high && EndsAt(l, high) && !Denotes(l, high) && high % align != 0)
  }

  lemma Behind(l: seq<Region>, i: nat, j: nat)
    requires Sorted(l)
    ensures i < j < |l| ==> l[i].start < l[i].End() <= l[j].start
  {
  }

  lemma DenotedBy(l: seq<Region>, i: nat, a: nat)
    requires i < |l| && l[i].Contains(a)
    ensures Denotes(l, a)
  {
  }

  /** Of the regions ahead the first is that of lastAddr. */
  lemma AheadIs(l: seq<Region>, from: nat, reg: nat, i: nat)
    requires Sorted(l) && reg < |l| && i < |l| && l[reg].start <= from
    requires l[reg].Contains(from) || (0 < from && l[reg].Contains(from - 1) && !Denotes(l, from))
    ensures IsAhead(l, from, i) <==> reg <= i
  {
    Behind(l, i, reg);
    Behind(l, reg, i);
    if l[reg].Contains(from) { DenotedBy(l, reg, from); }
  }

  lemma WithinHas(l: seq<Region>, from: nat) returns (reg: nat)
    requires IsWithin(l, from)
    ensures reg < |l| && l[reg].start <= from
    ensures l[reg].Contains(from) || (0 < from && l[reg].Contains(from - 1) && !Denotes(l, from))
  {
    if Denotes(l, from) {
      reg :| 0 <= reg < |l| && l[reg].Contains(from);
    } else {
      reg :| 0 <= reg < |l| && l[reg].Contains(from - 1);
    }
  }

  /** What a request is granted is in a region; of two bytes or more it is the first aligned place there. */
  lemma GrantIsAligned(l: seq<Region>, from: nat, size: nat, align: nat)
    requires Sorted(l) && 0 < align && AllocOf(l, from, size, align).Granted?
    ensures var x, k := AllocOf(l, from, size, align).addr, FirstTaking(l, from, size, align, 0);
      && IsInside(l, x, size) && (2 <= size ==> IsAligned(x, align))
      && (IsAligned(x, align) <==> FirstIn(l[k], from, align) <= l[k].End() || IsAligned(l[k].End() - 1, align))
  {
    var k := FirstTaking(l, from, size, align, 0);
    ChopIsNext(if from < l[k].start then l[k].start else from, align);
  }

  /** Of two bytes and more a request is granted the lowest aligned place from lastAddr on that lies in a region. */
  lemma GrantIsLowest(l: seq<Region>, from: nat, size: nat, align: nat)
    requires Sorted(l) && 0 < align && 2 <= size && AllocOf(l, from, size, align).Granted?
    ensures var x := AllocOf(l, from, size, align).addr;
      && from <= x && x % align == 0 && IsInside(l, x, size)
      && forall y: nat | from <= y && y % align == 0 && IsInside(l, y, size) :: x <= y
  {
    var x, k := AllocOf(l, from, size, align).addr, FirstTaking(l, from, size, align, 0);
    GrantIsAligned(l, from, size, align);
    AlignedIs(x, align);
    forall y: nat | from <= y && y % align == 0 && IsInside(l, y, size) ensures x <= y {
      AlignedIs(y, align);
      var i :| 0 <= i < |l| && l[i].start <= y && y + size <= l[i].End();
      PlaceIsTaken(l, from, size, align, i, y);
      if k < i { Behind(l, k, i); }
    }
  }

  /** A place in a region ahead is one the search takes, or has passed. */
  lemma PlaceIsTaken(l: seq<Region>, from: nat, size: nat, align: nat, i: nat, y: nat)
    requires Sorted(l) && 0 < align && 2 <= size && i < |l| && from <= y && IsAligned(y, align)
    requires l[i].start <= y && y + size <= l[i].End()
    ensures Takes(l, from, size, align, i) && Reached(l[i], from, align) <= y
  {
    ChopIsNext(if from < l[i].start then l[i].start else from, align);
  }

  /** And is refused only if there is no such place, or lastAddr has left the regions. */
  lemma RefusedHasNoPlace(l: seq<Region>, from: nat, size: nat, align: nat)
    requires Sorted(l) && 0 < align && 2 <= size && AllocOf(l, from, size, align).Refused? && IsWithin(l, from)
    ensures forall y: nat | from <= y && y % align == 0 :: !IsInside(l, y, size)
  {
    forall y: nat | from <= y && y % align == 0 ensures !IsInside(l, y, size) {
      AlignedIs(y, align);
      if IsInside(l, y, size) {
        var i :| 0 <= i < |l| && l[i].start <= y && y + size <= l[i].End();
        PlaceIsTaken(l, from, size, align, i, y);
      }
    }
  }

  /** A refusal means that lastAddr has left the regions, or that no region ahead has room. */
  lemma RefusedMeansFull(l: seq<Region>, from: nat, size: nat, align: nat)
    requires Sorted(l) && 0 < align && AllocOf(l, from, size, align).Refused?
    ensures !IsWithin(l, from) || forall i | 0 <= i < |l| :: !HasRoom(l[i], from, size, align) || (size == 0 && !IsAhead(l, from, i))
  {
    if IsWithin(l, from) {
      var k := FirstTaking(l, from, size, align, 0);
      forall i | 0 <= i < |l| ensures !HasRoom(l[i], from, size, align) || (size == 0 && !IsAhead(l, from, i)) {
        assert !Takes(l, from, size, align, i);
      }
    }
  }

  /** In the region of lastAddr the search comes below `high` exactly when it falls back. */
  lemma ReachedIsBehindIff(l: seq<Region>, from: nat, high: nat, align: nat, reg: nat)
    requires Sorted(l) && 0 < align && IsBehind(l, from, high) && reg < |l| && l[reg].start <= from
    requires l[reg].Contains(from) || (0 < from && l[reg].Contains(from - 1) && !Denotes(l, from))
    ensures high <= l[reg].End()
    ensures Reached(l[reg], from, align) < high <==> FallsBack(l, from, high, align)
    ensures FallsBack(l, from, high, align) ==> high == l[reg].End()
  {
    if high == from + 1 {
      var k :| 0 <= k < |l| && l[k].End() == high;
      Behind(l, reg, k);
      Behind(l, k, reg);
      assert l[k].Contains(from);
      assert k == reg;
      NextAligned(from, align);
    } else if l[reg].Contains(from) {
      DenotedBy(l, reg, from);
    } else {
      assert l[reg].End() == from;
    }
  }

  lemma NextAligned(x: nat, align: nat)
    requires 0 < align
    ensures Chop(x, align) == 1 <==> 1 < align && (x + 1) % align == 0
  {
    hide IsAligned;
    AlignedIs(x + 1, align);
    AlignedIs(x, align);
    ChopIsNext(x, align);
    if 1 < align && x % align == 0 { NextIsNot(x, align); }
  }

  lemma AlignedIs(x: nat, align: nat)
    requires 0 < align
    ensures IsAligned(x, align) <==> x % align == 0
  {
  }

  lemma NextIsNot(x: nat, align: nat)
    requires 1 < align && x % align == 0
    ensures (x + 1) % align == 1
  {
    assert x == align * (x / align);
    DivModUnique(x + 1, align, x / align, 1);
  }

  lemma LaterIsBehind(l: seq<Region>, from: nat, high: nat, align: nat, reg: nat, i: nat)
    requires Sorted(l) && 0 < align && reg < i < |l| && high <= l[reg].End()
    ensures high <= l[i].start <= Reached(l[i], from, align)
  {
    Behind(l, reg, i);
  }

  /**
   A run comes behind everything allocated before if and only if it is not a single byte (or none) for
   which the search falls back; what comes next still lies behind all of it.
  */
  lemma GrantIsBehindIff(l: seq<Region>, from: nat, high: nat, size: nat, align: nat)
    requires Sorted(l) && 0 < align && IsBehind(l, from, high) && AllocOf(l, from, size, align).Granted?
    ensures var r := AllocOf(l, from, size, align);
      && (high <= r.addr <==> !(size <= 1 && FallsBack(l, from, high, align)))
      && IsBehind(l, r.last, if high <= r.addr then r.last else high)
      && (r.addr < high ==> r.addr == high - 1)
  {
    var k := FirstTaking(l, from, size, align, 0);
    var reg := WithinHas(l, from);
    ReachedIsBehindIff(l, from, high, align, reg);
    AheadIs(l, from, reg, k);
    AheadIs(l, from, reg, reg);
    if reg < k {
      LaterIsBehind(l, from, high, align, reg, k);
      assert !Takes(l, from, size, align, reg);
    }
  }

  lemma RefusalIsBehind(l: seq<Region>, from: nat, high: nat, size: nat, align: nat)
    requires Sorted(l) && 0 < align && IsBehind(l, from, high) && AllocOf(l, from, size, align).Refused?
    ensures IsBehind(l, AllocOf(l, from, size, align).last, high)
  {
    if IsWithin(l, from) {
      var reg := WithinHas(l, from);
      ReachedIsBehindIff(l, from, high, align, reg);
      if reg < |l| - 1 {
        LaterIsBehind(l, from, high, align, reg, |l| - 1);
      }
    }
  }

  // ----- runs of requests -----

  datatype Request = Request(size: nat, align: nat)

  /** A run of physical memory. */
  datatype Extent = Extent(addr: nat, size: nat)

  /** What a sequence of requests is granted. */
  ghost function Serve(l: seq<Region>, from: nat, requests: seq<Request>): seq<Extent>
    requires Sorted(l) && forall i | 0 <= i < |requests| :: 0 < requests[i].align
    decreases |requests|
  {
    if requests == [] then [] else
    match AllocOf(l, from, requests[0].size, requests[0].align)
    case Refused(last) => Serve(l, last, requests[1..])
    case Granted(addr, last) => [Extent(addr, requests[0].size)] + Serve(l, last, requests[1..])
  }

  predicate AreInOrder(s: seq<Extent>) {
    forall i, j | 0 <= i < j < |s| :: s[i].addr + s[i].size <= s[j].addr
  }

  /** Whatever was asked before, runs of two bytes and more come one behind another: no byte is handed out twice. */
  lemma {:induction false} ExtentsAreApart(l: seq<Region>, from: nat, high: nat, requests: seq<Request>)
    requires Sorted(l) && IsBehind(l, from, high)
    requires forall i | 0 <= i < |requests| :: 0 < requests[i].align && 2 <= requests[i].size
    ensures var s := Serve(l, from, requests);
      && (forall i | 0 <= i < |s| :: high <= s[i].addr && IsInside(l, s[i].addr, s[i].size))
      && AreInOrder(s)
    decreases |requests|
  {
    hide AllocOf, IsBehind, IsInside, Serve, Sorted;
    ServeStep(l, from, requests);
    if requests != [] {
      var q := requests[0];
      var r := AllocOf(l, from, q.size, q.align);
      if r.Granted? {
        GrantIsAligned(l, from, q.size, q.align);
        GrantIsBehindIff(l, from, high, q.size, q.align);
        GrantedLast(l, from, q.size, q.align);
        ExtentsAreApart(l, r.last, r.last, requests[1..]);
      } else {
        RefusalIsBehind(l, from, high, q.size, q.align);
        ExtentsAreApart(l, r.last, high, requests[1..]);
      }
    }
  }

  lemma ServeStep(l: seq<Region>, from: nat, requests: seq<Request>)
    requires Sorted(l) && forall i | 0 <= i < |requests| :: 0 < requests[i].align
    ensures Serve(l, from, requests) == if requests == [] then [] else
      var r := AllocOf(l, from, requests[0].size, requests[0].align);
      (if r.Granted? then [Extent(r.addr, requests[0].size)] else []) + Serve(l, r.last, requests[1..])
  {
    hide AllocOf;
  }

  lemma GrantedLast(l: seq<Region>, from: nat, size: nat, align: nat)
    requires Sorted(l) && 0 < align && AllocOf(l, from, size, align).Granted?
    ensures AllocOf(l, from, size, align).last == AllocOf(l, from, size, align).addr + size
  {
  }

  /**
   A region whose end is not aligned: once it is used up, a refused page leaves lastAddr at the last byte,
   and a single byte asked for then is that byte, which is in use.
  */
  lemma LastByteTwice()
    ensures var l := [Region(0, 0x9FC00)];
      && Sorted(l)
      && AllocOf(l, 0, 0x9FC00, 1) == Granted(0, 0x9FC00)
      && AllocOf(l, 0x9FC00, 0x1000, 0x1000) == Refused(0x9FBFF)
      && AllocOf(l, 0x9FBFF, 1, 1) == Granted(0x9FBFF, 0x9FC00)
      && FallsBack(l, 0x9FBFF, 0x9FC00, 1)
  {
    var l := [Region(0, 0x9FC00)];
    assert l[0].Contains(0) && l[0].Contains(0x9FBFF);
    assert Denotes(l, 0) && Denotes(l, 0x9FBFF) && !Denotes(l, 0x9FC00);
    hide Denotes;
    OneRegion(l, 0, 0x9FC00, 1);
    OneRegion(l, 0x9FC00, 0x1000, 0x1000);
    OneRegion(l, 0x9FBFF, 1, 1);
    assert Chop(0x9FC00, 0x1000) == 0x400;
  }

  lemma OneRegion(l: seq<Region>, from: nat, size: nat, align: nat)
    requires |l| == 1 && 0 < l[0].size && 0 < align && IsWithin(l, from) && from <= l[0].End()
    requires from == l[0].End() ==> !Denotes(l, from)
    ensures Sorted(l)
    ensures var x := Reached(l[0], from, align);
      AllocOf(l, from, size, align) == if x + size <= l[0].End() then Granted(x, x + size) else Refused(x)
  {
    hide Reached, IsWithin, Denotes;
  }

  // ----- pages -----

  ghost function FramesOf(s: seq<Extent>): set<Frame> {
    set i | 0 <= i < |s| :: FrameAt(s[i].addr)
  }

  /** Pages below 2^63 that the allocator grants are as many different page frames. */
  lemma {:induction false} PagesAreFrames(l: seq<Region>, from: nat, high: nat, requests: seq<Request>)
    requires Sorted(l) && IsBehind(l, from, high)
    requires forall i | 0 <= i < |requests| :: requests[i] == Request(0x1000, 0x1000)
    requires forall i | 0 <= i < |l| :: l[i].End() <= 0x8000_0000_0000_0000
    ensures var s := Serve(l, from, requests);
      |FramesOf(s)| == |s| && forall f | f in FramesOf(s) :: IsFrame(f)
  {
    hide Serve, IsFrame, WordOf, IsInside, FrameAt;
    var s := Serve(l, from, requests);
    ExtentsAreApart(l, from, high, requests);
    forall i | 0 <= i < |s| ensures s[i].addr + 0x1000 <= 0x8000_0000_0000_0000 && s[i].addr % 0x1000 == 0 && s[i].size == 0x1000 {
      PagesAreAligned(l, from, requests, i);
      InsideIsBelow(l, s[i].addr, s[i].size, 0x8000_0000_0000_0000);
    }
    forall f | f in FramesOf(s) ensures IsFrame(f) {
      var i :| 0 <= i < |s| && f == FrameAt(s[i].addr);
      FrameAtIs(s[i].addr, s[i].addr);
    }
    forall i, j | 0 <= i < j < |s| ensures FrameAt(s[i].addr) != FrameAt(s[j].addr) {
      assert s[i].addr + s[i].size <= s[j].addr && s[i].size == 0x1000;
      assert s[j].addr + 0x1000 <= 0x8000_0000_0000_0000;
      FrameAtIs(s[i].addr, s[j].addr);
    }
    FramesCount(s);
  }

  lemma InsideIsBelow(l: seq<Region>, x: nat, n: nat, end: nat)
    requires IsInside(l, x, n) && forall i | 0 <= i < |l| :: l[i].End() <= end
    ensures x + n <= end
  {
  }

  lemma {:induction false} PagesAreAligned(l: seq<Region>, from: nat, requests: seq<Request>, i: nat)
    requires Sorted(l) && forall j | 0 <= j < |requests| :: requests[j] == Request(0x1000, 0x1000)
    requires i < |Serve(l, from, requests)|
    ensures Serve(l, from, requests)[i].addr % 0x1000 == 0 && Serve(l, from, requests)[i].size == 0x1000
    decreases |requests|
  {
    hide AllocOf;
    var r := AllocOf(l, from, 0x1000, 0x1000);
    if r.Granted? {
      GrantIsAligned(l, from, 0x1000, 0x1000);
      if i > 0 { PagesAreAligned(l, r.last, requests[1..], i - 1); }
    } else {
      PagesAreAligned(l, r.last, requests[1..], i);
    }
  }

  lemma {:induction false} FramesCount(s: seq<Extent>)
    requires forall i, j | 0 <= i < j < |s| :: FrameAt(s[i].addr) != FrameAt(s[j].addr)
    ensures |FramesOf(s)| == |s|
  {
    hide FrameAt;
    if s == [] {
      assert FramesOf(s) == {};
    } else {
      var n := |s| - 1;
      FramesCount(s[..n]);
      assert FramesOf(s) == FramesOf(s[..n]) + {FrameAt(s[n].addr)};
    }
  }

  // ----- the class -----

  lemma AllIsSorted(lower: seq<Region>, upper: seq<Region>)
    requires Sorted(lower) && Sorted(upper)
    requires (forall i | 0 <= i < |lower| :: lower[i].End() <= FOUR_GIB) && forall i | 0 <= i < |upper| :: FOUR_GIB <= upper[i].start
    ensures Sorted(lower + upper)
  {
    var l := lower + upper;
    forall i, j | 0 <= i < j < |l| ensures l[i].End() <= l[j].start {
      assert i < |lower| ==> l[i] == lower[i];
      assert i >= |lower| ==> l[i] == upper[i - |lower|];
      assert j < |lower| ==> l[j] == lower[j];
      assert j >= |lower| ==> l[j] == upper[j - |lower|];
    }
  }

  class StepAllocator {
    const regions: RegionList
    var lastAddr: nat

    constructor (regions: RegionList, start: nat)
      ensures this.regions == regions && lastAddr == start
    {
      this.regions, lastAddr := regions, start;
    }

    /** The region that lastAddr lies in, or has just reached the end of; -1 if there is none. */
    method CurrentRegion() returns (reg: int)
      requires regions.Valid()
      ensures -1 <= reg < |regions.All()|
      ensures reg < 0 <==> !IsWithin(regions.All(), lastAddr)
      ensures reg >= 0 ==> var r := regions.All()[reg];
        && r.start <= lastAddr
        && (r.Contains(lastAddr) || (0 < lastAddr && r.Contains(lastAddr - 1) && !Denotes(regions.All(), lastAddr)))
    {
      reg := regions.FindRegion(lastAddr);
      if reg < 0 && lastAddr > 0 {
        reg := regions.FindRegion(lastAddr - 1);
      }
    }

    /** Rounds lastAddr up, or falls back to the last byte when that leaves the region. */
    method AlignWithin(reg: nat, align: nat, ghost from: nat)
      requires regions.Valid() && reg < |regions.All()| && 0 < align && 0 < regions.All()[reg].size
      requires lastAddr == if from < regions.All()[reg].start then regions.All()[reg].start else from
      modifies `lastAddr
      ensures lastAddr == Reached(regions.All()[reg], from, align)
    {
      if lastAddr % align != 0 {
        lastAddr := lastAddr + (align - lastAddr % align);
      }
      if lastAddr > regions.All()[reg].End() {
        lastAddr := regions.All()[reg].End() - 1;
      }
    }

    method Alloc(size: nat, align: nat) returns (ok: bool, addr: nat)
      requires regions.Valid() && 0 < align
      modifies `lastAddr
      ensures Sorted(regions.All())
      ensures var r := AllocOf(regions.All(), old(lastAddr), size, align);
        lastAddr == r.last && (ok <==> r.Granted?) && (ok ==> addr == r.addr)
    {
      hide Reached, Sorted, IsWithin, Takes, IsAhead;
      AllIsSorted(regions.lower, regions.upper);
      ghost var l, from := regions.All(), lastAddr;
      var reg := CurrentRegion();
      if reg < 0 {
        return false, 0;
      }
      SizesArePositive(l);
      NothingBefore(l, from, size, align, reg);
      AlignWithin(reg, align, from);
      while lastAddr + size > regions.All()[reg].End()
        invariant 0 <= reg < |l| && IsAhead(l, from, reg) && lastAddr == Reached(l[reg], from, align)
        invariant regions.Valid() && regions.All() == l
        invariant forall i | 0 <= i < reg :: !Takes(l, from, size, align, i)
        decreases |l| - reg
      {
        var next := regions.NextRegion(regions.All()[reg]);
        TakesIff(l, from, size, align, reg);
        if next < 0 {
          NoneBehind(l, reg);
          return false, 0;
        }
        NextIsBehind(l, from, reg, next);
        reg := next;
        lastAddr := regions.All()[reg].start;
        AlignWithin(reg, align, from);
      }
      TakesIff(l, from, size, align, reg);
      addr := lastAddr;
      lastAddr := lastAddr + size;
      return true, addr;
    }
  }

  lemma SizesArePositive(l: seq<Region>)
    requires Sorted(l)
    ensures forall i | 0 <= i < |l| :: 0 < l[i].size
  {
  }

  lemma TakesIff(l: seq<Region>, from: nat, size: nat, align: nat, i: nat)
    requires Sorted(l) && 0 < align && i < |l| && IsAhead(l, from, i)
    ensures Takes(l, from, size, align, i) <==> Reached(l[i], from, align) + size <= l[i].End()
  {
  }

  lemma NothingBefore(l: seq<Region>, from: nat, size: nat, align: nat, reg: nat)
    requires Sorted(l) && 0 < align && reg < |l| && l[reg].start <= from
    requires l[reg].Contains(from) || (0 < from && l[reg].Contains(from - 1) && !Denotes(l, from))
    ensures IsAhead(l, from, reg) && forall i | 0 <= i < reg :: !Takes(l, from, size, align, i)
  {
    AheadIs(l, from, reg, reg);
    forall i | 0 <= i < reg ensures !Takes(l, from, size, align, i) { AheadIs(l, from, reg, i); }
  }

  lemma NoneBehind(l: seq<Region>, reg: nat)
    requires Sorted(l) && reg < |l| && forall i | 0 <= i < |l| :: l[i].start <= l[reg].start
    ensures reg == |l| - 1
  {
    Behind(l, reg, reg + 1);
  }

  lemma NextIsBehind(l: seq<Region>, from: nat, reg: nat, next: nat)
    requires Sorted(l) && reg < |l| && next < |l| && l[next].start > l[reg].start
    requires (forall i | 0 <= i < next :: l[i].start <= l[reg].start) && IsAhead(l, from, reg)
    ensures next == reg + 1 && from <= l[next].start && IsAhead(l, from, next)
  {
    Behind(l, next, reg);
    Behind(l, reg, reg + 1);
  }
}
