/**
 What a user memory map does to its address space: the free list, the page table and the addresses
 handed out to callers, changed together by each operation.
*/
module UserSpaces {
  import opened Words
  import opened FreeLists
  import opened PageTree
  import opened FlatMaps
  import opened PageLists
  import opened Addresses
  import opened PageTables
  import opened PageRuns

  /** Free addresses are not handed out, and lie behind kernel memory. */
  ghost predicate FreeIsUnheld(l: seq<Interval>, held: iset<nat>) {
    IsUnused(l, held) && forall a: nat | Has(l, a) :: KERNEL_END <= a
  }

  // ----- states and operations -----

  /** The free list, the page table, and the addresses handed out and not yet returned. */
  datatype UserState = UserState(list: seq<Interval>, pages: Pages, held: iset<nat>)

  /** Only addresses handed out are mapped. */
  ghost predicate MappedIsHeld(m: Pages, held: iset<nat>)
    requires Covers(1, m)
  {
    forall a: nat | IsManaged(1, a) && LeafAt(1, m, a).Leaf? :: a in held
  }

  /** No address is free and in use at once. */
  ghost predicate Inv(s: UserState) {
    && Canonical(s.list) && FreeIsUnheld(s.list, s.held)
    && HasPages(1, s.pages) && MappedIsHeld(s.pages, s.held)
  }

  datatype Op =
    | Map(phys: bv64, pageSize: nat, pageCount: nat, attributes: Attributes)
    | MapAt(at: Word, phys: bv64, pageSize: nat, pageCount: nat, attributes: Attributes)
    | Unmap(at: Word, pageSize: nat, pageCount: nat)
    | UnmapAndReserve(at: Word, pageSize: nat, pageCount: nat)
    | Reserve(pageSize: nat, pageCount: nat)
    | ReserveAt(at: Word, pageSize: nat, pageCount: nat)
    | Unreserve(at: Word, pageSize: nat, pageCount: nat)
  {
    /** A page size the map offers, at least one page where the free list is involved, and a length that fits a word. */
    predicate IsSized() {
      IsMapSize(pageSize) && pageSize * pageCount < WORD && (0 < pageCount || MapAt? || UnmapAndReserve?)
    }

    function Length(): nat { pageSize * pageCount }

    predicate Takes() { Map? || Reserve? || ReserveAt? }

    /** What an operation that needs addresses asks of the free list. */
    function Asks(): (c: Call)
      requires Takes() && IsSized()
      ensures c.IsRequest() && c.pageSize == pageSize && c.pageCount == pageCount && c.Length() == Length()
    {
      MapSizeIsPageSize(pageSize);
      ProductMonotone(pageSize, 1, pageCount);
      if ReserveAt? then CallAllocAt(at, pageSize, pageCount) else CallAlloc(pageSize, pageCount)
    }
  }

  /** What the free list answers to an operation that asks for addresses. */
  function Taken(l: seq<Interval>, op: Op): Change
    requires op.Takes() && op.IsSized()
  {
    Do(l, op.Asks())
  }

  lemma MapSizeIsPageSize(pageSize: nat)
    requires IsMapSize(pageSize)
    ensures IsPageSize(pageSize)
  {
  }

  /**
   Every free run that could be given to the operation is user memory, or comes behind one that is.  A
   region that has slid may reach past the end of user memory.
  */
  ghost predicate HasUserRoom(l: seq<Interval>, op: Op)
    requires op.IsSized()
  {
    var n := op.Length();
    if op.ReserveAt? then Fits(l, op.at, op.pageSize, n) ==> IsRun(1, op.at, n)
    else op.Takes() ==> forall y: nat | Fits(l, y, op.pageSize, n) && !IsRun(1, y, n) ::
      exists x: nat :: x < y && Fits(l, x, op.pageSize, n) && IsRun(1, x, n)
  }

  /** What an operation is given is user memory if and only if user memory has room for it. */
  lemma GrantIsUserIff(l: seq<Interval>, op: Op)
    requires Canonical(l) && op.Takes() && op.IsSized() && Taken(l, op).Changed?
    ensures IsRun(1, Taken(l, op).addr, op.Length()) <==> HasUserRoom(l, op)
  {
    hide AllocOf, AllocAtOf, Canonical, IsRun, Serving, Slides, Run, IsAligned, AllocInRegionOf;
    ServedIs(l, op.Asks());
    AllocIsLowestFit(l, op.pageSize, op.pageCount);
  }

  /** So it is whenever a free aligned run of that length lies in the lower half. */
  lemma RoomBelowIsEnough(l: seq<Interval>, op: Op, x: nat)
    requires op.IsSized() && (op.Map? || op.Reserve?) && forall a: nat | Has(l, a) :: KERNEL_END <= a
    requires Fits(l, x, op.pageSize, op.Length()) && x + op.Length() <= LOW_END
    ensures HasUserRoom(l, op)
  {
    hide Has, IsAligned;
    ProductMonotone(op.pageSize, 1, op.pageCount);
    assert Has(l, x);
    forall y: nat | Fits(l, y, op.pageSize, op.Length()) && !IsRun(1, y, op.Length()) ensures x < y {
      assert Has(l, y);
    }
  }

  /** All n bytes were handed out. */
  ghost predicate IsHeld(held: iset<nat>, x: nat, n: nat) {
    forall a: nat | x <= a < x + n :: a in held
  }

  /** What callers owe: they touch only runs that they hold, with the page size they mapped. */
  ghost predicate Respects(s: UserState, op: Op)
    requires HasPages(1, s.pages)
  {
    && op.IsSized()
    && (!op.Takes() ==> IsRun(1, op.at, op.Length()) && IsHeld(s.held, op.at, op.Length()))
    && (op.MapAt? || op.Unmap? || op.UnmapAndReserve? ==>
      var d := DepthOf(op.pageSize);
      && IsAligned(op.at, op.pageSize)
      && (RunIsListed(1, s.pages, op.at, d, op.pageCount);
          if op.MapAt? then IsPlaceable(s.pages, op.at, d, op.pageCount) else MappedAt(s.pages, op.at, d, op.pageCount)))
    && (op.Unreserve? ==> IsVacant(1, s.pages, op.at, op.Length()))
  }

  /** The first entry of a mapping. */
  function FirstEntry(op: Op): Entry
    requires op.Map? || op.MapAt?
  {
    WithMask(op.phys, CalcMask(op.pageSize, false, op.attributes))
  }

  /** The caller keeps the contract, and user memory has room for what is asked. */
  ghost predicate Admits(s: UserState, op: Op)
    requires HasPages(1, s.pages)
  {
    Respects(s, op) && HasUserRoom(s.list, op)
  }

  /** What a taken run satisfies: it is aligned user memory, was free, and nobody held or mapped any of it. */
  lemma TakenRunWasFree(s: UserState, op: Op)
    requires Inv(s) && Admits(s, op) && op.Takes() && Taken(s.list, op).Changed?
    ensures var x := Taken(s.list, op).addr;
      && 0 < op.Length() && Total(op.pageSize, op.pageCount) == op.Length()
      && IsAligned(x, op.pageSize) && Run(s.list, x, op.Length())
      && IsRun(1, x, op.Length()) && IsVacant(1, s.pages, x, op.Length())
      && (forall a: nat | x <= a < x + op.Length() :: a !in s.held)
  {
    var x := Taken(s.list, op).addr;
    GrantIsUserIff(s.list, op);
    ServedIs(s.list, op.Asks());
    hide Indices, Canonical, Taken, IsPathFrom, Consistent, MarkedHuge, Serving;
    forall a: nat | x <= a < x + op.Length() ensures a !in s.held && LeafAt(1, s.pages, a).NoLeaf? {
      assert Has(s.list, a);
    }
  }

  ghost function Step(s: UserState, op: Op): UserState
    requires Inv(s) && Admits(s, op)
  {
    if op.Takes() then
      match Taken(s.list, op)
      case Changed(addr, l') =>
        TakenRunWasFree(s, op);
        RunIsListed(1, s.pages, addr, DepthOf(op.pageSize), op.pageCount);
        var pages := if op.Map? then ListPages(s.pages, addr, FirstEntry(op), DepthOf(op.pageSize), op.pageCount) else s.pages;
        UserState(l', pages, s.held + Bytes(addr, op.Length()))
      case _ => s
    else if op.Unreserve? then
      var list := FreeOf(s.list, op.at, op.pageSize, op.pageCount);
      if list.Changed? then UserState(list.list, s.pages, s.held - Bytes(op.at, op.Length())) else s
    else
      RunIsListed(1, s.pages, op.at, DepthOf(op.pageSize), op.pageCount);
      if op.MapAt? then
        s.(pages := ListPages(s.pages, op.at, FirstEntry(op), DepthOf(op.pageSize), op.pageCount))
      else
        var pages := UnlistPages(s.pages, op.at, DepthOf(op.pageSize), op.pageCount);
        if op.UnmapAndReserve? then s.(pages := pages) else
        var list := FreeOf(s.list, op.at, op.pageSize, op.pageCount);
        if list.Changed? then UserState(list.list, pages, s.held - Bytes(op.at, op.Length())) else s
  }

  // ----- what the operations keep -----

  /** The one thing the code does not check: that no region slides onto memory in use or free already. */
  ghost predicate Slipped(s: UserState, op: Op)
    requires op.IsSized()
  {
    op.Takes() && SlidesInto(s.list, s.held, op.Asks())
  }

  lemma TakenKeepsApartIff(s: UserState, op: Op)
    requires Inv(s) && op.IsSized() && op.Takes() && Taken(s.list, op).Changed?
    ensures var r := Taken(s.list, op);
      Canonical(r.list) && FreeIsUnheld(r.list, s.held + Bytes(r.addr, op.Length())) <==> !Slipped(s, op)
  {
    hide Canonical, IsUnused, SlidesInto, HasPages, MappedIsHeld, Do, Has;
    ServingKeepsUnusedIff(s.list, s.held, op.Asks());
    ServingStaysAbove(s.list, op.Asks(), KERNEL_END);
  }

  lemma FirstEntryIsHuge(op: Op)
    requires (op.Map? || op.MapAt?) && op.IsSized()
    ensures Present(FirstEntry(op)) && (DepthOf(op.pageSize) < 3 ==> Huge(FirstEntry(op)))
  {
  }

  lemma MapPlaces(s: UserState, op: Op)
    requires Inv(s) && Admits(s, op) && op.Map? && Taken(s.list, op).Changed?
    ensures var d, x := DepthOf(op.pageSize), Taken(s.list, op).addr; var s' := Step(s, op);
      && Covers(1, s'.pages) && Places(1, s.pages, s'.pages, x, d, op.pageCount, FirstEntry(op))
      && HasPages(1, s'.pages)
  {
    hide Taken, Canonical, FreeIsUnheld, FirstEntry, Places, IsVacant, IsPlaceable, Consistent, MarkedHuge, Covers,
      Huge, Present, MappedIsHeld, IsRun, Lists;
    TakenRunWasFree(s, op);
    var d, x := DepthOf(op.pageSize), Taken(s.list, op).addr;
    RunIsListed(1, s.pages, x, d, op.pageCount);
    VacantIsPlaceable(1, s.pages, x, d, op.pageCount);
    ListPlaces(1, s.pages, x, d, op.pageCount, FirstEntry(op));
    FirstEntryIsHuge(op);
    CoversSame(1, s.pages, Step(s, op).pages);
    PlacesKeepsMarks(1, s.pages, Step(s, op).pages, x, d, op.pageCount, FirstEntry(op));
  }

  lemma PlacesKeepsHeld(m: Pages, m': Pages, held: iset<nat>, held': iset<nat>, x: nat, d: nat, n: nat, e: Entry)
    requires Covers(1, m) && Covers(1, m') && d <= 3 && Places(1, m, m', x, d, n, e) && MappedIsHeld(m, held)
    requires (forall a: nat | a in held :: a in held') && IsHeld(held', x, n * Span(d))
    ensures MappedIsHeld(m', held')
  {
    hide Span, IsManaged, Covers, LeafAt, EntryAt;
  }

  lemma ClearsKeepsHeld(m: Pages, m': Pages, held: iset<nat>, held': iset<nat>, x: nat, d: nat, n: nat)
    requires Covers(1, m) && Covers(1, m') && d <= 3 && Clears(1, m, m', x, d, n) && MappedIsHeld(m, held)
    requires forall a: nat | a in held && !(x <= a < x + n * Span(d)) :: a in held'
    ensures MappedIsHeld(m', held')
  {
    hide Span, IsManaged, Covers, LeafAt;
  }

  /**
   An operation that takes addresses keeps free and used memory apart if and only if the free list
   does not slide a region onto memory in use.
  */
  lemma TakeKeepsInvIff(s: UserState, op: Op)
    requires Inv(s) && Admits(s, op) && op.Takes() && Taken(s.list, op).Changed?
    ensures Inv(Step(s, op)) <==> !Slipped(s, op)
  {
    hide Taken, Canonical, FreeIsUnheld, FirstEntry, Places, Slipped, HasPages, ListPages, IsRun, HasUserRoom;
    TakenKeepsApartIff(s, op);
    var s', x := Step(s, op), Taken(s.list, op).addr;
    if op.Map? {
      MapPlaces(s, op);
      PlacesKeepsHeld(s.pages, s'.pages, s.held, s'.held, x, DepthOf(op.pageSize), op.pageCount, FirstEntry(op));
    }
  }

  lemma ReturnedIsFree(s: UserState, at: Word, pageSize: nat, pageCount: nat)
    requires Canonical(s.list) && FreeIsUnheld(s.list, s.held) && IsMapSize(pageSize)
    requires 0 < pageCount && pageSize * pageCount < WORD && IsRun(1, at, pageSize * pageCount)
    requires IsHeld(s.held, at, pageSize * pageCount)
    ensures var r := FreeOf(s.list, at, pageSize, pageCount);
      && r.Changed? && Canonical(r.list)
      && FreeIsUnheld(r.list, s.held - Bytes(at, pageSize * pageCount))
  {
    var n := pageSize * pageCount;
    ProductMonotone(pageSize, 1, pageCount);
    assert Total(pageSize, pageCount) == n;
    assert LeavesOne(s.list, at, n) by { assert !Has(s.list, 0); }
    hide FreeOf, Canonical;
    FreeAdds(s.list, at, pageSize, pageCount);
  }

  lemma MapAtKeepsInv(s: UserState, op: Op)
    requires Inv(s) && Admits(s, op) && op.MapAt?
    ensures var d, s' := DepthOf(op.pageSize), Step(s, op);
      Inv(s') && Places(1, s.pages, s'.pages, op.at, d, op.pageCount, FirstEntry(op))
  {
    hide Canonical, FreeIsUnheld, FirstEntry, Places, IsPlaceable, Consistent, MarkedHuge, Covers, Huge, Present,
      MappedIsHeld, IsRun, Lists, IsAligned;
    var d, s' := DepthOf(op.pageSize), Step(s, op);
    RunIsListed(1, s.pages, op.at, d, op.pageCount);
    ListPlaces(1, s.pages, op.at, d, op.pageCount, FirstEntry(op));
    FirstEntryIsHuge(op);
    CoversSame(1, s.pages, s'.pages);
    PlacesKeepsMarks(1, s.pages, s'.pages, op.at, d, op.pageCount, FirstEntry(op));
    PlacesKeepsHeld(s.pages, s'.pages, s.held, s.held, op.at, d, op.pageCount, FirstEntry(op));
  }

  lemma UnmapKeepsInv(s: UserState, op: Op)
    requires Inv(s) && Admits(s, op) && (op.Unmap? || op.UnmapAndReserve?)
    ensures var d, s' := DepthOf(op.pageSize), Step(s, op);
      && Inv(s') && Clears(1, s.pages, s'.pages, op.at, d, op.pageCount)
      && s'.held == if op.Unmap? then s.held - Bytes(op.at, op.Length()) else s.held
  {
    hide Canonical, FreeIsUnheld, Clears, MappedAt, Consistent, MarkedHuge, Covers, MappedIsHeld, IsRun, Lists,
      IsAligned, FreeOf;
    var d, s' := DepthOf(op.pageSize), Step(s, op);
    RunIsListed(1, s.pages, op.at, d, op.pageCount);
    UnlistClears(1, s.pages, op.at, d, op.pageCount);
    if op.Unmap? { ReturnedIsFree(s, op.at, op.pageSize, op.pageCount); }
    CoversSame(1, s.pages, s'.pages);
    ClearsKeepsMarks(1, s.pages, s'.pages, op.at, d, op.pageCount);
    ClearsKeepsHeld(s.pages, s'.pages, s.held, s'.held, op.at, d, op.pageCount);
  }

  lemma UnreserveKeepsInv(s: UserState, op: Op)
    requires Inv(s) && Admits(s, op) && op.Unreserve?
    ensures Inv(Step(s, op)) && Step(s, op).pages == s.pages && Step(s, op).held == s.held - Bytes(op.at, op.Length())
  {
    hide Canonical, FreeIsUnheld, Consistent, MarkedHuge, Covers, LeafAt, FreeOf;
    ReturnedIsFree(s, op.at, op.pageSize, op.pageCount);
  }

  lemma NothingSlips(op: Op)
    requires op.IsSized() && !op.Takes()
    ensures forall s :: !Slipped(s, op)
  {
  }

  lemma RefusedSlidesNothing(s: UserState, op: Op)
    requires Canonical(s.list) && op.IsSized() && op.Takes() && !Taken(s.list, op).Changed?
    ensures !Slipped(s, op)
  {
    hide Canonical, Do;
    ServedIs(s.list, op.Asks());
  }

  lemma StepKeepsInvIff(s: UserState, op: Op)
    requires Inv(s) && Admits(s, op)
    ensures Inv(Step(s, op)) <==> !Slipped(s, op)
  {
    hide Canonical, FreeIsUnheld, HasPages, MappedIsHeld, Slipped, Taken, Places, Clears;
    if op.Takes() {
      if Taken(s.list, op).Changed? { TakeKeepsInvIff(s, op); } else { RefusedSlidesNothing(s, op); }
    } else {
      NothingSlips(op);
      if op.MapAt? {
        MapAtKeepsInv(s, op);
      } else if op.Unreserve? {
        UnreserveKeepsInv(s, op);
      } else {
        UnmapKeepsInv(s, op);
      }
    }
  }

  // ----- runs -----

  ghost predicate IsSafeRun(s: UserState, ops: seq<Op>)
    requires Inv(s)
    decreases |ops|
  {
    ops == [] || (
      && Admits(s, ops[0]) && !Slipped(s, ops[0])
      && (StepKeepsInvIff(s, ops[0]); IsSafeRun(Step(s, ops[0]), ops[1..])))
  }

  ghost function RunOf(s: UserState, ops: seq<Op>): (s': UserState)
    requires Inv(s) && IsSafeRun(s, ops)
    ensures Inv(s')
    decreases |ops|
  {
    if ops == [] then s else
    StepKeepsInvIff(s, ops[0]);
    RunOf(Step(s, ops[0]), ops[1..])
  }

  /** The operation sets or clears the page of a. */
  predicate Touches(op: Op, a: nat) {
    (op.MapAt? || op.Unmap? || op.UnmapAndReserve?) && op.at <= a < op.at + op.Length()
  }

  /** A mapped page that an operation does not touch keeps its leaf, whatever else the operation does. */
  lemma StepLeavesAlone(s: UserState, op: Op, a: nat)
    requires Inv(s) && Admits(s, op) && !Slipped(s, op) && IsManaged(1, a) && LeafAt(1, s.pages, a).Leaf? && !Touches(op, a)
    ensures Inv(Step(s, op)) && LeafAt(1, Step(s, op).pages, a) == LeafAt(1, s.pages, a)
  {
    hide Canonical, FreeIsUnheld, Consistent, MarkedHuge, Covers, SlidesInto, Taken, LeafAt, FirstEntry, FreeOf, IsManaged,
      ListPages, UnlistPages;
    StepKeepsInvIff(s, op);
    if op.Map? && Taken(s.list, op).Changed? {
      TakenRunWasFree(s, op);
      MapPlaces(s, op);
    } else if op.MapAt? {
      MapAtKeepsInv(s, op);
    } else if op.Unmap? || op.UnmapAndReserve? {
      UnmapKeepsInv(s, op);
    }
  }

  /** Over any safe run a mapped page that nobody touches keeps its leaf. */
  lemma {:induction false} RunLeavesAlone(s: UserState, ops: seq<Op>, a: nat)
    requires Inv(s) && IsSafeRun(s, ops) && IsManaged(1, a) && LeafAt(1, s.pages, a).Leaf?
    requires forall i | 0 <= i < |ops| :: !Touches(ops[i], a)
    ensures LeafAt(1, RunOf(s, ops).pages, a) == LeafAt(1, s.pages, a)
    decreases |ops|
  {
    hide Canonical, FreeIsUnheld, Consistent, MarkedHuge, Covers, Slipped, Taken, LeafAt, IsManaged, Step, Respects, Touches,
      MappedIsHeld;
    if ops != [] {
      assert !Touches(ops[0], a);
      StepLeavesAlone(s, ops[0], a);
      RunLeavesAlone(Step(s, ops[0]), ops[1..], a);
    }
  }
}
