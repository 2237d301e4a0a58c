/** What user memory maps promise over whole runs, from the state their constructor builds. */
module UserRuns {
  import opened Words
  import opened FreeLists
  import opened PageTree
  import opened TreeWalks
  import opened FlatMaps
  import opened PageLists
  import opened Addresses
  import opened PageTables
  import opened PageRuns
  import opened TableRuns
  import opened AccessRights
  import opened PhysicalWords
  import opened UserSpaces

  // ----- the first state -----

  /** The second region stops short of the end of user memory, as its granule says. */
  const LOW_REGION: Interval := Interval(0x8000000000, 0x7F8000000000)
  const HIGH_REGION: Interval := Interval(0xFFFF800000000000, 0x7F800000000)

  ghost function Initial(): UserState {
    UserState([LOW_REGION, HIGH_REGION], EmptyPages(1), iset{})
  }

  lemma InitialIsInv()
    ensures Inv(Initial())
  {
  }

  // ----- exact accounting -----

  predicate IsUsable(a: nat) { LOW_REGION.Holds(a) || HIGH_REGION.Holds(a) }

  /** Every usable address is either free or handed out. */
  ghost predicate Exact(s: UserState) {
    && (forall a: nat :: Has(s.list, a) <==> IsUsable(a) && a !in s.held)
    && (forall a: nat | a in s.held :: IsUsable(a))
  }

  /** All of the lower half behind kernel memory, and a sixteenth of the upper half. */
  lemma UsableIff(a: nat)
    ensures IsUsable(a) <==> 0x8000000000 <= a < 0x800000000000 || 0xFFFF800000000000 <= a < 0xFFFF87F800000000
    ensures 16 * (0xFFFF87F800000000 - 0xFFFF800000000000) == USER_END - 0xFFFF800000000000
  {
  }

  lemma InitialIsExact()
    ensures Exact(Initial())
  {
    HasTwo(LOW_REGION, HIGH_REGION, 0);
    forall a: nat ensures Has(Initial().list, a) <==> IsUsable(a) { HasTwo(LOW_REGION, HIGH_REGION, a); }
  }

  /** The operation slides a free region. */
  ghost predicate SlidesIn(s: UserState, op: Op)
    requires op.IsSized()
  {
    op.Takes() && Slides(s.list, op.Asks())
  }

  /** While the books are exact no free region reaches past user memory. */
  lemma ExactHasRoom(s: UserState, op: Op)
    requires Exact(s) && op.IsSized()
    ensures HasUserRoom(s.list, op)
  {
    hide Has, IsUsable;
    var n := op.Length();
    if op.Takes() {
      ProductMonotone(op.pageSize, 1, op.pageCount);
      forall y: nat | Run(s.list, y, n) ensures IsRun(1, y, n) {
        forall a: nat | y <= a < y + n ensures IsUsable(a) { assert Has(s.list, a); }
        UsableIsRun(y, n);
      }
    }
  }

  /** User memory is two stretches with a hole between them, so a usable run lies in one of them. */
  lemma UsableIsRun(x: nat, n: nat)
    requires 0 < n && forall a: nat | x <= a < x + n :: IsUsable(a)
    ensures IsRun(1, x, n)
  {
    assert IsUsable(x) && IsUsable(x + n - 1);
    assert x < LOW_END < x + n ==> IsUsable(LOW_END);
  }

  /**
   Taking addresses keeps the books exact if and only if the run does not start a larger free region.
  */
  lemma TakeKeepsExactIff(s: UserState, op: Op)
    requires Inv(s) && Exact(s) && Respects(s, op) && op.Takes() && Taken(s.list, op).Changed?
    ensures Admits(s, op) && (Inv(Step(s, op)) && Exact(Step(s, op)) <==> !SlidesIn(s, op))
  {
    hide Taken, SlidesInto, Slides, HasPages, MappedIsHeld, ListPages, FirstEntry, IsRun, IsUsable, HasUserRoom, Canonical;
    ExactHasRoom(s, op);
    var s', r, n := Step(s, op), Taken(s.list, op), op.Length();
    TakenIsRemovedIff(s, op);
    TakeKeepsInvIff(s, op);
    TakenRunWasFree(s, op);
    if !SlidesIn(s, op) {
      SlipsIsSlides(s, op);
      forall a: nat ensures Has(s'.list, a) <==> IsUsable(a) && a !in s'.held { }
      forall a: nat | a in s'.held ensures IsUsable(a) { assert a in s.held || Has(s.list, a); }
    }
  }

  lemma TakenIsRemovedIff(s: UserState, op: Op)
    requires Canonical(s.list) && op.IsSized() && op.Takes() && Taken(s.list, op).Changed?
    ensures var r := Taken(s.list, op);
      Canonical(r.list) && Removed(s.list, r.list, r.addr, op.Length()) <==> !SlidesIn(s, op)
  {
    hide Canonical, Removed, Slides, Do;
    ServingKeepsCanonicalIff(s.list, op.Asks());
  }

  lemma SlipsIsSlides(s: UserState, op: Op)
    requires op.IsSized() && !SlidesIn(s, op)
    ensures !Slipped(s, op)
  {
  }

  /** Giving addresses back keeps the books exact. */
  lemma ReturnKeepsExact(s: UserState, op: Op)
    requires Inv(s) && Exact(s) && Admits(s, op) && (op.Unmap? || op.Unreserve?)
    ensures Exact(Step(s, op))
  {
    hide HasPages, MappedIsHeld, UnlistPages, FreeOf, IsUsable, Canonical;
    var n := op.Length();
    ProductMonotone(op.pageSize, 1, op.pageCount);
    ReturnedIsFree(s, op.at, op.pageSize, op.pageCount);
    assert LeavesOne(s.list, op.at, n) by { assert !Has(s.list, 0); }
    FreeAdds(s.list, op.at, op.pageSize, op.pageCount);
  }

  /** Every operation keeps every usable address free or handed out, never both, if and only if it slides no region. */
  lemma StepKeepsExactIff(s: UserState, op: Op)
    requires Inv(s) && Exact(s) && Respects(s, op)
    ensures Admits(s, op) && (Inv(Step(s, op)) && Exact(Step(s, op)) <==> !SlidesIn(s, op))
  {
    hide Taken, Slides, HasPages, MappedIsHeld, FreeIsUnheld, Canonical, Slipped, IsUsable, HasUserRoom;
    ExactHasRoom(s, op);
    if op.Takes() {
      if Taken(s.list, op).Changed? {
        TakeKeepsExactIff(s, op);
      } else {
        RefusedIsNoSlide(s, op);
      }
    } else {
      NothingSlips(op);
      StepKeepsInvIff(s, op);
      if op.Unmap? || op.Unreserve? {
        ReturnKeepsExact(s, op);
      } else {
        KeepsListAndHeld(s, op);
      }
    }
  }

  lemma RefusedIsNoSlide(s: UserState, op: Op)
    requires Canonical(s.list) && op.IsSized() && op.Takes() && !Taken(s.list, op).Changed?
    ensures !SlidesIn(s, op)
  {
    hide Canonical, Do;
    ServedIs(s.list, op.Asks());
  }

  lemma KeepsListAndHeld(s: UserState, op: Op)
    requires Inv(s) && Admits(s, op) && (op.MapAt? || op.UnmapAndReserve?)
    ensures Step(s, op).list == s.list && Step(s, op).held == s.held
  {
  }

  /** A run in which callers keep their contract and no operation slides a region. */
  ghost predicate IsExactRun(s: UserState, ops: seq<Op>)
    requires Inv(s) && Exact(s)
    decreases |ops|
  {
    ops == [] || (
      && Respects(s, ops[0]) && !SlidesIn(s, ops[0])
      && (StepKeepsExactIff(s, ops[0]); IsExactRun(Step(s, ops[0]), ops[1..])))
  }

  /** Over every such run each usable address stays free or handed out, and mapped ones are handed out. */
  lemma {:induction false} RunKeepsExact(s: UserState, ops: seq<Op>)
    requires Inv(s) && Exact(s) && IsExactRun(s, ops)
    ensures IsSafeRun(s, ops) && Inv(RunOf(s, ops)) && Exact(RunOf(s, ops))
    decreases |ops|
  {
    hide Canonical, FreeIsUnheld, HasPages, MappedIsHeld, Slipped, SlidesIn, Step, Exact, Respects, HasUserRoom;
    if ops != [] {
      UnfoldsExact(s, ops);
      SlipsIsSlides(s, ops[0]);
      StepKeepsExactIff(s, ops[0]);
      RunKeepsExact(Step(s, ops[0]), ops[1..]);
    }
  }

  lemma UnfoldsExact(s: UserState, ops: seq<Op>)
    requires Inv(s) && Exact(s) && ops != [] && IsExactRun(s, ops)
    ensures HasPages(1, s.pages) && Respects(s, ops[0]) && !SlidesIn(s, ops[0])
  {
  }

  /** From a new map on: usable memory is partitioned into free, reserved and mapped addresses. */
  lemma UsableIsPartitioned(ops: seq<Op>, a: nat)
    requires IsUsable(a) && (InitialIsInv(); InitialIsExact(); IsExactRun(Initial(), ops))
    ensures Inv(Initial())
    ensures IsSafeRun(Initial(), ops) && HasPages(1, RunOf(Initial(), ops).pages) && IsManaged(1, a)
    ensures var s := RunOf(Initial(), ops); var mapped := LeafAt(1, s.pages, a).Leaf?;
      && (Has(s.list, a) <==> a !in s.held)
      && (mapped ==> a in s.held)
  {
    hide Canonical, IsExactRun, IsSafeRun, RunOf, LeafAt, Initial, Consistent, MarkedHuge, Covers;
    InitialIsInv();
    InitialIsExact();
    RunKeepsExact(Initial(), ops);
    UsableIsManaged(a);
  }

  lemma UsableIsManaged(a: nat)
    requires IsUsable(a)
    ensures IsManaged(1, a)
  {
  }

  // ----- new maps -----

  /** The free list of a new map once n bytes were taken: the first region has moved on and kept its size. */
  function Behind(n: nat): seq<Interval>
    requires n <= LOW_REGION.size
  {
    [Interval(KERNEL_END + n, LOW_REGION.size), HIGH_REGION]
  }

  lemma TakenBehind(n: nat, op: Op)
    requires op.IsSized() && (op.Map? || op.Reserve?) && n + op.Length() < LOW_REGION.size && IsAligned(KERNEL_END + n, op.pageSize)
    ensures Taken(Behind(n), op) == Changed(KERNEL_END + n, Behind(n + op.Length()))
    ensures Fits(Behind(n), KERNEL_END + n, op.pageSize, op.Length())
    ensures Serving(Behind(n), op.Asks()) == 0
  {
    var l := Behind(n);
    MapSizeIsPageSize(op.pageSize);
    assert l[0].CanHold(op.pageSize, op.pageCount);
    assert FirstHolding(l, op.pageSize, op.pageCount, 0) == 0;
    InsideIsRun(l, 0, KERNEL_END + n, op.Length());
    var r := AllocInRegionOf(l, 0, Interval(KERNEL_END + n, op.Length()));
    assert r.list == Behind(n + op.Length());
  }

  lemma BehindIsAbove(n: nat)
    requires n <= LOW_REGION.size
    ensures forall a: nat | Has(Behind(n), a) :: KERNEL_END + n <= a
  {
  }

  /** A Map or Reserve that starts aligned takes the next addresses and slides onto nothing. */
  lemma TakeBehind(s: UserState, n: nat, op: Op)
    requires op.IsSized() && (op.Map? || op.Reserve?) && n + op.Length() < LOW_REGION.size
    requires Inv(s) && s.list == Behind(n) && s.held == Bytes(KERNEL_END, n) && IsAligned(KERNEL_END + n, op.pageSize)
    ensures Admits(s, op) && !Slipped(s, op) && Inv(Step(s, op))
    ensures Taken(s.list, op).Changed? && Taken(s.list, op).addr == KERNEL_END + n
    ensures Step(s, op).list == Behind(n + op.Length()) && Step(s, op).held == Bytes(KERNEL_END, n + op.Length())
  {
    hide Taken, Canonical, FreeIsUnheld, HasPages, MappedIsHeld, Fits, Serving, HasUserRoom, FirstEntry, ListPages;
    TakenBehind(n, op);
    BehindIsAbove(n);
    RoomBelowIsEnough(s.list, op, KERNEL_END + n);
    StepKeepsInvIff(s, op);
    assert Bytes(KERNEL_END, n) + Bytes(KERNEL_END + n, op.Length()) == Bytes(KERNEL_END, n + op.Length());
  }

  function Lengths(ops: seq<Op>): nat {
    if ops == [] then 0 else ops[0].Length() + Lengths(ops[1..])
  }

  /** Only Map and Reserve, all of one page size. */
  ghost predicate AreTakes(ops: seq<Op>, pageSize: nat) {
    forall i | 0 <= i < |ops| :: (ops[i].Map? || ops[i].Reserve?) && ops[i].IsSized() && ops[i].pageSize == pageSize
  }

  /** In a new map every sequence of Map and Reserve of one page size is safe until the lower half is used up. */
  lemma {:induction false} TakesAreSafe(s: UserState, n: nat, ops: seq<Op>, pageSize: nat)
    requires AreTakes(ops, pageSize) && n + Lengths(ops) < LOW_REGION.size
    requires Inv(s) && s.list == Behind(n) && s.held == Bytes(KERNEL_END, n) && IsMapSize(pageSize) && IsAligned(n, pageSize)
    ensures IsSafeRun(s, ops)
    ensures RunOf(s, ops).list == Behind(n + Lengths(ops)) && RunOf(s, ops).held == Bytes(KERNEL_END, n + Lengths(ops))
    decreases |ops|
  {
    hide Inv, Slipped, Step, Taken, Admits;
    if ops != [] {
      StartsAligned(n, pageSize, ops[0].pageCount);
      TakeBehind(s, n, ops[0]);
      assert AreTakes(ops[1..], pageSize);
      TakesAreSafe(Step(s, ops[0]), n + ops[0].Length(), ops[1..], pageSize);
    }
  }

  lemma StartsAligned(n: nat, pageSize: nat, pageCount: nat)
    requires IsMapSize(pageSize) && IsAligned(n, pageSize)
    ensures IsAligned(KERNEL_END + n, pageSize) && IsAligned(n + pageSize * pageCount, pageSize)
  {
    AddMultiple(n, pageSize, pageCount);
  }

  /** So in a new map one after the other is given the next addresses. */
  lemma NewMapTakesAreSafe(ops: seq<Op>, pageSize: nat)
    requires IsMapSize(pageSize) && AreTakes(ops, pageSize) && Lengths(ops) < LOW_REGION.size
    ensures Inv(Initial()) && IsSafeRun(Initial(), ops)
    ensures RunOf(Initial(), ops).held == Bytes(KERNEL_END, Lengths(ops))
  {
    hide Inv, Slipped, Step, Taken, Admits, IsSafeRun, RunOf;
    InitialIsInv();
    assert Bytes(KERNEL_END, 0) == iset{};
    TakesAreSafe(Initial(), 0, ops, pageSize);
  }

  /** The same with room to round the start up. */
  lemma TakeNext(s: UserState, n: nat, op: Op)
    requires op.IsSized() && (op.Map? || op.Reserve?) && n + op.Length() + 0x200000 <= LOW_REGION.size
    requires Inv(s) && s.list == Behind(n) && s.held == Bytes(KERNEL_END, n)
    ensures Admits(s, op) && !Slipped(s, op) && Inv(Step(s, op))
  {
    hide HasPages, MappedIsHeld, Fits, HasUserRoom, Step, Chop;
    var l := s.list;
    MapSizeIsPageSize(op.pageSize);
    assert l[0].CanHold(op.pageSize, op.pageCount);
    assert Serving(l, op.Asks()) == 0;
    HoldingFits(l, 0, op.pageSize, op.pageCount);
    BehindIsAbove(n);
    RoomBelowIsEnough(l, op, RoundedStart(l[0], op.pageSize));
    assert HasRoomBehind(l, s.held, 0, op.Length());
    StepKeepsInvIff(s, op);
  }

  lemma OneIsSafe(s: UserState, op: Op)
    requires Inv(s) && Admits(s, op) && !Slipped(s, op)
    ensures Inv(Step(s, op)) && IsSafeRun(s, [op]) && RunOf(s, [op]) == Step(s, op)
  {
    hide Inv, Admits, Slipped, Step;
    StepKeepsInvIff(s, op);
    assert [op][1..] == [];
  }

  lemma OneMoreIsSafe(s: UserState, op: Op, ops: seq<Op>)
    requires Inv(s) && Admits(s, op) && !Slipped(s, op) && Inv(Step(s, op)) && IsSafeRun(Step(s, op), ops)
    ensures IsSafeRun(s, [op] + ops) && RunOf(s, [op] + ops) == RunOf(Step(s, op), ops)
  {
    hide Inv, Admits, Slipped, Step;
    assert ([op] + ops)[1..] == ops;
  }

  lemma MapTouchesNothing(op: Op)
    requires op.Map?
    ensures forall a :: !Touches(op, a)
  {
  }

  /** Map, Map and Unmap in a new map, of any sizes: nothing slips. */
  lemma MapMapUnmapIsSafe(first: Op, second: Op)
    requires first.Map? && second.Map? && first.IsSized() && second.IsSized()
    requires first.Length() + second.Length() + 0x200000 <= LOW_REGION.size
    ensures Inv(Initial()) && IsSafeRun(Initial(), [first, second, Unmap(KERNEL_END, first.pageSize, first.pageCount)])
  {
    hide Inv, Slipped, Step, Taken, Admits, RunOf, Touches, IsSafeRun;
    InitialIsInv();
    assert Bytes(KERNEL_END, 0) == iset{};
    TakeBehind(Initial(), 0, first);
    var s1 := Step(Initial(), first);
    TakeNext(s1, first.Length(), second);
    OneIsSafe(s1, second);
    assert LeavesAlone([second], KERNEL_END, first.Length()) by { MapTouchesNothing(second); }
    MappingIsReturnable(Initial(), first, [second]);
    var third := Unmap(KERNEL_END, first.pageSize, first.pageCount);
    NothingSlips(third);
    OneIsSafe(Step(s1, second), third);
    assert [second] + [third] == [second, third] && [first] + [second, third] == [first, second, third];
    OneMoreIsSafe(s1, second, [third]);
    OneMoreIsSafe(Initial(), first, [second, third]);
  }

  // ----- the flaw -----

  const FIRST: Op := ReserveAt(0x8000004000, 0x1000, 1)
  const SECOND: Op := Reserve(0x1000, 1)
  const THIRD: Op := Reserve(0x1000, 4)

  const BEHIND: Interval := Interval(0x8000005000, 0x7F7FFFFFB000)
  const AFTER_FIRST: seq<Interval> := [Interval(0x8000000000, 0x4000), BEHIND, HIGH_REGION]
  /** The first region ends one page too late: it covers 0x8000004000 again. */
  const AFTER_SECOND: seq<Interval> := [Interval(0x8000001000, 0x4000), BEHIND, HIGH_REGION]

  lemma FirstTaken()
    ensures Taken(Initial().list, FIRST) == Changed(0x8000004000, AFTER_FIRST)
  {
    var requested := Interval(0x8000004000, 0x1000);
    assert LOW_REGION.Contains(requested);
    assert FirstContaining(Initial().list, requested, 0) == 0;
    var r := AllocInRegionOf(Initial().list, 0, requested);
    assert r.list == AFTER_FIRST;
  }

  lemma SecondTaken()
    ensures Taken(AFTER_FIRST, SECOND) == Changed(0x8000000000, AFTER_SECOND)
  {
    assert AFTER_FIRST[0].CanHold(0x1000, 1);
    assert FirstHolding(AFTER_FIRST, 0x1000, 1, 0) == 0;
    var r := AllocInRegionOf(AFTER_FIRST, 0, Interval(0x8000000000, 0x1000));
    assert r.list == AFTER_SECOND;
  }

  lemma ThirdTaken()
    ensures Taken(AFTER_SECOND, THIRD).Changed? && Taken(AFTER_SECOND, THIRD).addr == 0x8000001000
  {
    assert AFTER_SECOND[0].CanHold(0x1000, 4);
    assert FirstHolding(AFTER_SECOND, 0x1000, 4, 0) == 0;
  }

  lemma FirstSlidesNothing()
    ensures !SlidesIn(Initial(), FIRST)
  {
  }

  lemma FirstIsFine()
    ensures Inv(Initial()) && Admits(Initial(), FIRST) && !Slipped(Initial(), FIRST)
    ensures Inv(Step(Initial(), FIRST)) && Step(Initial(), FIRST).list == AFTER_FIRST
    ensures Step(Initial(), FIRST).held == Bytes(0x8000004000, 0x1000)
  {
    hide Taken, HasPages, MappedIsHeld, Canonical, FreeIsUnheld, Slipped;
    InitialIsInv();
    FirstTaken();
    FirstSlidesNothing();
    SlipsIsSlides(Initial(), FIRST);
    StepKeepsInvIff(Initial(), FIRST);
    assert iset{} + Bytes(0x8000004000, 0x1000) == Bytes(0x8000004000, 0x1000);
  }

  lemma SecondSlides()
    ensures Slides(AFTER_FIRST, SECOND.Asks()) && Serving(AFTER_FIRST, SECOND.Asks()) == 0
    ensures forall held: iset<nat> | 0x8000004000 in held :: SlidesInto(AFTER_FIRST, held, SECOND.Asks())
  {
    assert AFTER_FIRST[0].CanHold(0x1000, 1);
    assert FirstHolding(AFTER_FIRST, 0x1000, 1, 0) == 0;
  }

  lemma FirstIsExact()
    ensures Inv(Initial()) && Admits(Initial(), FIRST) && Exact(Step(Initial(), FIRST))
  {
    hide Taken, Exact, Step, Inv;
    FirstIsFine();
    InitialIsExact();
    FirstSlidesNothing();
    StepKeepsExactIff(Initial(), FIRST);
  }

  /** Three reservations in a new map: the third is handed the page that the first one holds. */
  lemma SlidingHandsOutTwice()
    ensures Inv(Initial()) && Admits(Initial(), FIRST) && !Slipped(Initial(), FIRST)
    ensures var s1 := Step(Initial(), FIRST);
      && Inv(s1) && Admits(s1, SECOND) && Slipped(s1, SECOND)
      && var s2 := Step(s1, SECOND);
      && Taken(s2.list, THIRD).Changed? && Taken(s2.list, THIRD).addr == 0x8000001000
      && InRun(0x8000004000, 0x8000001000, THIRD.Length()) && 0x8000004000 in s2.held
  {
    hide Taken, Inv, SlidesInto, HasUserRoom, Exact;
    FirstIsFine();
    SecondTaken();
    ThirdTaken();
    SecondSlides();
    FirstIsExact();
    var s1 := Step(Initial(), FIRST);
    ExactHasRoom(s1, SECOND);
    assert InRun(0x8000004000, 0x8000004000, 0x1000);
  }

  /** What is left of the first region behind a small and a large page: the gap between them, and the rest. */
  const GAP_AND_REST: seq<Interval> :=
    [Interval(0x8000001000, 0x1FF000), Interval(0x8000400000, 0x7F7FFFC01000), HIGH_REGION]

  lemma LargeTaken(op: Op)
    requires op.Map? && op.pageSize == 0x200000 && op.pageCount == 1
    ensures Taken(Behind(0x1000), op) == Changed(0x8000200000, GAP_AND_REST)
  {
    var l := Behind(0x1000);
    assert l[0].CanHold(0x200000, 1);
    assert FirstHolding(l, 0x200000, 1, 0) == 0;
    var r := AllocInRegionOf(l, 0, Interval(0x8000200000, 0x200000));
    assert r.list == GAP_AND_REST;
  }

  lemma SmallSlides(op: Op, held: iset<nat>)
    requires op.Map? && op.pageSize == 0x1000 && op.pageCount == 1 && 0x8000200000 in held
    ensures SlidesInto(GAP_AND_REST, held, op.Asks()) && Fits(GAP_AND_REST, 0x8000001000, 0x1000, 0x1000)
    ensures forall a: nat | Has(GAP_AND_REST, a) :: KERNEL_END <= a
  {
    var l := GAP_AND_REST;
    assert l[0].CanHold(0x1000, 1);
    assert FirstHolding(l, 0x1000, 1, 0) == 0;
    InsideIsRun(l, 0, 0x8000001000, 0x1000);
  }

  /** Mapping a small page, a large one and a small one is enough: the gap between them slides onto the large one. */
  lemma ThreeMapsSlip(small: Op, large: Op)
    requires small.Map? && small.pageSize == 0x1000 && small.pageCount == 1
    requires large.Map? && large.pageSize == 0x200000 && large.pageCount == 1
    ensures Inv(Initial()) && IsSafeRun(Initial(), [small, large])
    ensures var s := RunOf(Initial(), [small, large]); Admits(s, small) && Slipped(s, small)
  {
    hide Inv, SlidesInto, Step, Taken, HasUserRoom, RunOf, IsSafeRun;
    InitialIsInv();
    assert Bytes(KERNEL_END, 0) == iset{};
    TakeBehind(Initial(), 0, small);
    var s1 := Step(Initial(), small);
    TakeNext(s1, 0x1000, large);
    OneIsSafe(s1, large);
    assert [small] + [large] == [small, large];
    OneMoreIsSafe(Initial(), small, [large]);
    LargeTaken(large);
    TakenStep(s1, large);
    assert InRun(0x8000200000, 0x8000200000, 0x200000);
    var s2 := Step(s1, large);
    SmallSlides(small, s2.held);
    InvIsCanonical(s2);
    RoomBelowIsEnough(s2.list, small, 0x8000001000);
  }

  lemma TakenStep(s: UserState, op: Op)
    requires Inv(s) && Admits(s, op) && op.Takes() && Taken(s.list, op).Changed?
    ensures Step(s, op).list == Taken(s.list, op).list
    ensures Step(s, op).held == s.held + Bytes(Taken(s.list, op).addr, op.Length())
  {
    hide Taken, Canonical, FreeIsUnheld, MappedIsHeld, HasPages, ListPages, FirstEntry;
  }

  const LONG: Op := Reserve(0x1000, 0x7F7FFFFFC)
  const ACROSS: Op := Reserve(0x1000, 5)

  lemma AcrossTaken()
    ensures Taken(Behind(0x7F7FFFFFC000), ACROSS).Changed? && Taken(Behind(0x7F7FFFFFC000), ACROSS).addr == 0x7FFFFFFFC000
  {
    var l := Behind(0x7F7FFFFFC000);
    assert l[0].CanHold(0x1000, 5);
    assert FirstHolding(l, 0x1000, 5, 0) == 0;
  }

  lemma HoleIsAliased()
    ensures Indices(LOW_END) == Indices(HIGH_START)
  {
    assert LOW_END / 0x8000000000 == 256 && HIGH_START / 0x8000000000 == 0x1FFFF00;
    assert LOW_END / 0x40000000 == 0x20000 && HIGH_START / 0x40000000 == 0x3FFFE0000;
    assert LOW_END / 0x200000 == 0x4000000 && HIGH_START / 0x200000 == 0x7FFFC000000;
    assert LOW_END / 0x1000 == 0x800000000 && HIGH_START / 0x1000 == 0xFFFF800000000;
  }

  /**
   Two reservations in a new map, of which the second is given a run that crosses the canonical hole: its
   fifth page has the table slots of the first page of the upper half.  The slide itself hits nothing.
  */
  lemma SlidingLeavesUserMemory()
    ensures Inv(Initial()) && Admits(Initial(), LONG) && !Slipped(Initial(), LONG)
    ensures var s1 := Step(Initial(), LONG);
      && Inv(s1) && Respects(s1, ACROSS) && !HasUserRoom(s1.list, ACROSS)
      && Taken(s1.list, ACROSS).Changed? && Taken(s1.list, ACROSS).addr + 0x4000 == LOW_END
      && ACROSS.Length() == 0x5000 && !IsManaged(1, LOW_END)
    ensures Indices(LOW_END) == Indices(HIGH_START)
  {
    hide Taken, Inv, Indices, HasUserRoom, Step, Slipped;
    InitialIsInv();
    TakeBehind(Initial(), 0, LONG);
    var s1 := Step(Initial(), LONG);
    AcrossTaken();
    HoleIsAliased();
    InvIsCanonical(s1);
    GrantIsUserIff(s1.list, ACROSS);
  }

  lemma InvIsCanonical(s: UserState)
    requires Inv(s)
    ensures Canonical(s.list) && FreeIsUnheld(s.list, s.held) && HasPages(1, s.pages)
  {
  }

  // ----- what is read back -----

  /** The page of a new mapping that holds a. */
  function PageIndex(x: nat, pageSize: nat, a: nat): nat
    requires x <= a && 0 < pageSize
  {
    (a - x) / pageSize
  }

  /** A Map that is given a run, or a MapAt. */
  predicate IsPlacing(s: UserState, op: Op) {
    op.IsSized() && (op.MapAt? || (op.Map? && Taken(s.list, op).Changed?))
  }

  /** Where it puts its pages. */
  function PlacedAt(s: UserState, op: Op): nat
    requires IsPlacing(s, op)
  {
    if op.Map? then Taken(s.list, op).addr else op.at
  }

  lemma PlacingIs(s: UserState, op: Op)
    requires Inv(s) && Admits(s, op) && IsPlacing(s, op)
    ensures var x, d := PlacedAt(s, op), DepthOf(op.pageSize);
      && x < WORD && IsRun(1, x, op.Length()) && IsAligned(x, op.pageSize) && Covers(1, Step(s, op).pages)
      && Places(1, s.pages, Step(s, op).pages, x, d, op.pageCount, FirstEntry(op))
  {
    hide Canonical, FreeIsUnheld, MappedIsHeld, Taken, FirstEntry, Places, Consistent, MarkedHuge, Covers;
    if op.Map? {
      TakenRunWasFree(s, op);
      MapPlaces(s, op);
    } else {
      MapAtKeepsInv(s, op);
    }
  }

  lemma MappedLeaf(s: UserState, op: Op, a: nat)
    requires Inv(s) && Admits(s, op) && IsPlacing(s, op) && !Slipped(s, op)
    requires InRun(a, PlacedAt(s, op), op.Length())
    ensures Inv(Step(s, op)) && IsManaged(1, a)
    ensures PageIndex(PlacedAt(s, op), op.pageSize, a) < op.pageCount
    ensures LeafAt(1, Step(s, op).pages, a) == Leaf(DepthOf(op.pageSize),
      EntryAt(FirstEntry(op), DepthOf(op.pageSize), PageIndex(PlacedAt(s, op), op.pageSize, a)))
  {
    hide Canonical, FreeIsUnheld, Consistent, MarkedHuge, Covers, Slipped, Taken, LeafAt, FirstEntry, Step, MappedIsHeld,
      Huge, Present, EntryAt, InPageAt;
    var x, d := PlacedAt(s, op), DepthOf(op.pageSize);
    StepKeepsInvIff(s, op);
    PlacingIs(s, op);
    PageOfAddress(1, x, d, op.pageCount, a);
    FirstEntryIsHuge(op);
    EntryFlags(FirstEntry(op), d, PageIndex(x, op.pageSize, a));
    PresentIsNotZero(EntryAt(FirstEntry(op), d, PageIndex(x, op.pageSize, a)));
  }

  lemma PresentIsNotZero(e: Entry)
    requires Present(e)
    ensures e != 0
  {
  }

  /**
   Reading any address of a mapping that Map or MapAt has made, after any further safe run that leaves its page alone, gives the
   physical page, the flags and the size the caller asked for; the leaf grants user access and
   exactly the rights asked for.
  */
  lemma MappingReadsBack(s: UserState, op: Op, a: nat, ops: seq<Op>)
    requires Inv(s) && Admits(s, op) && IsPlacing(s, op) && !Slipped(s, op)
    requires InRun(a, PlacedAt(s, op), op.Length())
    requires ArePhysical(op.phys, DepthOf(op.pageSize), op.pageCount)
    requires Inv(Step(s, op)) && IsSafeRun(Step(s, op), ops) && forall i | 0 <= i < |ops| :: !Touches(ops[i], a)
    ensures IsManaged(1, a)
    ensures var leaf := LeafAt(1, RunOf(Step(s, op), ops).pages, a);
      var i := PageIndex(PlacedAt(s, op), op.pageSize, a);
      && leaf.Leaf?
      && ReadOf(leaf) == Translation(EntryAt(op.phys, DepthOf(op.pageSize), i), op.attributes, op.pageSize)
      && RightsOf(leaf.entry) == Rights(true, op.attributes.writable, op.attributes.executable)
  {
    hide Canonical, FreeIsUnheld, HasPages, Slipped, Taken, LeafAt, Step, MappedIsHeld, RunOf, Touches, EntryAt,
      CalcMask, WithMask, IsPhysical, PageIndex;
    MappedLeaf(s, op, a);
    RunLeavesAlone(Step(s, op), ops, a);
    var d, i := DepthOf(op.pageSize), PageIndex(PlacedAt(s, op), op.pageSize, a);
    EntryKeepsMask(op.phys, CalcMask(op.pageSize, false, op.attributes), d, i);
    assert IsPhysical(EntryAt(op.phys, d, i), d);
    DecodedIs(EntryAt(op.phys, d, i), d, false, op.attributes);
  }

  /** After Unmap or UnmapAndReserve, Read finds nothing at any address of the run. */
  lemma UnmappedReadsNothing(s: UserState, op: Op, a: nat)
    requires Inv(s) && Admits(s, op) && (op.Unmap? || op.UnmapAndReserve?) && InRun(a, op.at, op.Length())
    ensures Inv(Step(s, op)) && IsManaged(1, a) && ReadOf(LeafAt(1, Step(s, op).pages, a)) == NotMapped
  {
    hide Canonical, FreeIsUnheld, MappedIsHeld, Taken, Consistent, MarkedHuge, Covers, Step, HasUserRoom, LeafAt;
    UnmapKeepsInv(s, op);
  }

  /** The physical page behind a, when p is behind x. */
  function PhysicalPage(p: nat, x: nat, pageSize: nat, a: nat): (b: nat)
    requires x <= a && 0 < pageSize
    ensures b + (a - x) % pageSize == p + (a - x)
  {
    p + PageIndex(x, pageSize, a) * pageSize
  }

  lemma PhysicalRun(p: nat, x: nat, pageSize: nat, n: nat, a: nat)
    requires IsMapSize(pageSize) && p % pageSize == 0 && p + pageSize * n <= 0x8000_0000_0000_0000 && x <= a
    ensures ArePhysical(WordOf(p), DepthOf(pageSize), n)
    ensures EntryAt(WordOf(p), DepthOf(pageSize), PageIndex(x, pageSize, a)) == WordOf(PhysicalPage(p, x, pageSize, a))
  {
    hide ArePhysical, EntryAt, WordOf;
    AlignedIsPhysical(p, DepthOf(pageSize), n);
    EntryIsWord(p, DepthOf(pageSize), PageIndex(x, pageSize, a));
  }

  /**
   The same for physical memory by its numbers: an address reads back the page that lies as far behind
   the physical start as the address lies behind the virtual one.
  */
  lemma MappingIsInPlace(s: UserState, op: Op, p: nat, a: nat, ops: seq<Op>)
    requires Inv(s) && Admits(s, op) && IsPlacing(s, op) && !Slipped(s, op)
    requires InRun(a, PlacedAt(s, op), op.Length())
    requires op.phys == WordOf(p) && p % op.pageSize == 0 && p + op.Length() <= 0x8000_0000_0000_0000
    requires Inv(Step(s, op)) && IsSafeRun(Step(s, op), ops) && forall i | 0 <= i < |ops| :: !Touches(ops[i], a)
    ensures IsManaged(1, a)
    ensures var x := PlacedAt(s, op);
      ReadOf(LeafAt(1, RunOf(Step(s, op), ops).pages, a))
        == Translation(WordOf(PhysicalPage(p, x, op.pageSize, a)), op.attributes, op.pageSize)
  {
    hide Canonical, FreeIsUnheld, HasPages, Slipped, Taken, Step, MappedIsHeld, RunOf, Touches, EntryAt, WordOf, RightsOf,
      ReadOf, ArePhysical, LeafAt, PhysicalPage, PageIndex, DepthOf;
    PhysicalRun(p, PlacedAt(s, op), op.pageSize, op.pageCount, a);
    MappingReadsBack(s, op, a, ops);
  }

  // ----- giving back -----

  /** Nothing in the run names an address of the mapping. */
  ghost predicate LeavesAlone(ops: seq<Op>, x: nat, n: nat) {
    forall i, a: nat | 0 <= i < |ops| && InRun(a, x, n) :: !Touches(ops[i], a)
  }

  lemma LeafIsKept(s: UserState, op: Op, a: nat, ops: seq<Op>)
    requires Inv(s) && Admits(s, op) && IsPlacing(s, op) && !Slipped(s, op)
    requires InRun(a, PlacedAt(s, op), op.Length())
    requires Inv(Step(s, op)) && IsSafeRun(Step(s, op), ops) && LeavesAlone(ops, PlacedAt(s, op), op.Length())
    ensures IsManaged(1, a)
    ensures var leaf := LeafAt(1, RunOf(Step(s, op), ops).pages, a);
      leaf.Leaf? && leaf.depth == DepthOf(op.pageSize) && a in RunOf(Step(s, op), ops).held
  {
    hide Canonical, FreeIsUnheld, HasPages, Slipped, Taken, LeafAt, Step, RunOf, Touches, EntryAt, PageIndex, IsSafeRun;
    MappedLeaf(s, op, a);
    RunLeavesAlone(Step(s, op), ops, a);
  }

  /** What Map or MapAt has mapped may be unmapped, after any further safe run that leaves it alone. */
  lemma MappingIsReturnable(s: UserState, op: Op, ops: seq<Op>)
    requires 0 < op.pageCount && Inv(s) && Admits(s, op) && IsPlacing(s, op) && !Slipped(s, op)
    requires Inv(Step(s, op)) && IsSafeRun(Step(s, op), ops) && LeavesAlone(ops, PlacedAt(s, op), op.Length())
    ensures Admits(RunOf(Step(s, op), ops), Unmap(PlacedAt(s, op), op.pageSize, op.pageCount))
  {
    hide Canonical, FreeIsUnheld, MappedIsHeld, Slipped, Taken, Step, RunOf, Touches, LeavesAlone, IsSafeRun, Consistent, MarkedHuge,
      Covers, LeafAt, IsRun, Indices;
    var x, d, s' := PlacedAt(s, op), DepthOf(op.pageSize), RunOf(Step(s, op), ops);
    PlacingIs(s, op);
    RunIsListed(1, s'.pages, x, d, op.pageCount);
    forall a: nat | InRun(a, x, op.Length()) ensures a in s'.held { LeafIsKept(s, op, a, ops); }
    forall i: nat | i < op.pageCount ensures IsPage(s'.pages, PageAt(x, d, i), d) {
      RunPage(1, x, d, op.pageCount, i);
      LeafIsKept(s, op, PageAddress(x, d, i), ops);
      PageIsMarked(s'.pages, PageAddress(x, d, i), d);
    }
  }

  lemma PageIsMarked(m: Pages, a: nat, d: nat)
    requires HasPages(1, m) && IsManaged(1, a) && d <= 3 && LeafAt(1, m, a).Leaf? && LeafAt(1, m, a).depth == d
    ensures Indices(a) in m && IsPage(m, Indices(a), d)
  {
    PathOf(1, a);
  }

  /** Pages with the same leaf at every address are the same. */
  lemma SameLeaves(m: Pages, m': Pages)
    requires Covers(1, m) && Covers(1, m') && forall a: nat | IsManaged(1, a) :: LeafAt(1, m', a) == LeafAt(1, m, a)
    ensures m' == m
  {
    hide Indices, IsManaged, IsPathFrom;
    forall path | path in m ensures path in m' && m'[path] == m[path] {
      var a := AddressOfPath(1, path);
      assert LeafAt(1, m', a) == LeafAt(1, m, a);
    }
  }

  /** The operation that gives back what op was given. */
  function Undo(op: Op, x: Word): Op
    requires op.Takes()
  {
    if op.Map? then Unmap(x, op.pageSize, op.pageCount) else Unreserve(x, op.pageSize, op.pageCount)
  }

  lemma UndoIsAdmitted(s: UserState, op: Op)
    requires Inv(s) && Admits(s, op) && op.Takes() && Taken(s.list, op).Changed? && !Slipped(s, op)
    ensures Inv(Step(s, op)) && Admits(Step(s, op), Undo(op, Taken(s.list, op).addr))
  {
    hide Canonical, FreeIsUnheld, MappedIsHeld, Slipped, Taken, Consistent, MarkedHuge, Covers, LeafAt, IsRun, Indices;
    StepKeepsInvIff(s, op);
    TakenRunWasFree(s, op);
    if op.Map? {
      MappingIsReturnable(s, op, []);
    }
  }

  lemma UndonePages(s: UserState, op: Op)
    requires Inv(s) && Admits(s, op) && op.Map? && Taken(s.list, op).Changed? && !Slipped(s, op)
    requires Inv(Step(s, op)) && Admits(Step(s, op), Undo(op, Taken(s.list, op).addr))
    ensures Step(Step(s, op), Undo(op, Taken(s.list, op).addr)).pages == s.pages
  {
    hide Canonical, FreeIsUnheld, MappedIsHeld, Slipped, Taken, Step, Consistent, MarkedHuge, Covers, LeafAt, IsManaged, Indices,
      EntryAt, HasUserRoom;
    var s1, x := Step(s, op), Taken(s.list, op).addr;
    TakenRunWasFree(s, op);
    MapPlaces(s, op);
    UnmapKeepsInv(s1, Undo(op, x));
    SameLeaves(s.pages, Step(s1, Undo(op, x)).pages);
  }

  lemma UndoneList(s: UserState, op: Op)
    requires Canonical(s.list) && FreeIsUnheld(s.list, s.held) && op.IsSized() && op.Takes() && Taken(s.list, op).Changed?
    ensures var r := Taken(s.list, op);
      FreeOf(r.list, r.addr, op.pageSize, op.pageCount) == Changed(r.addr, s.list) <==> !SlidesIn(s, op)
  {
    hide Canonical, Slides, AllocOf, AllocAtOf, FreeOf;
    assert LeavesOne(s.list, 0, 0) by { assert !Has(s.list, 0); }
    FreeUndoesServingIff(s.list, op.Asks());
  }

  lemma ReturnIs(s: UserState, op: Op)
    requires Inv(s) && Admits(s, op) && (op.Unmap? || op.Unreserve?)
    ensures var r, s' := FreeOf(s.list, op.at, op.pageSize, op.pageCount), Step(s, op);
      && r == Changed(op.at, s'.list) && s'.held == s.held - Bytes(op.at, op.Length())
      && (op.Unreserve? ==> s'.pages == s.pages)
  {
    hide Canonical, FreeIsUnheld, MappedIsHeld, HasPages, UnlistPages, IsRun;
    ReturnedIsFree(s, op.at, op.pageSize, op.pageCount);
  }

  /** Giving back what was just taken restores the whole state if and only if no region slid. */
  lemma UndoRestoresIff(s: UserState, op: Op)
    requires Inv(s) && Admits(s, op) && op.Takes() && Taken(s.list, op).Changed? && !Slipped(s, op)
    ensures Inv(Step(s, op)) && Admits(Step(s, op), Undo(op, Taken(s.list, op).addr))
    ensures Step(Step(s, op), Undo(op, Taken(s.list, op).addr)) == s <==> !SlidesIn(s, op)
  {
    hide Canonical, Slipped, Slides, Taken, MappedIsHeld, HasPages, IsRun, HasUserRoom, AllocOf, AllocAtOf, FreeOf, FirstEntry,
      ListPages, UnlistPages, IsVacant;
    UndoIsAdmitted(s, op);
    TakenRunWasFree(s, op);
    var s1, x := Step(s, op), Taken(s.list, op).addr;
    UndoneList(s, op);
    if op.Map? { UndonePages(s, op); }
    ReturnIs(s1, Undo(op, x));
    assert s.held + Bytes(x, op.Length()) - Bytes(x, op.Length()) == s.held;
  }

  /** In every table tree that maps what the state says, all levels together grant what the leaf grants. */
  lemma LeafGrants(s: UserState, t: Tree, a: nat)
    requires Inv(s) && Wf(t) && t.lo == 1 && Masked(t, 7) && PagesOf(t) == s.pages && IsManaged(1, a)
    requires LeafAt(1, s.pages, a).Leaf?
    ensures IsAddress(t, Indices(a)) && Effective(t, Indices(a), 0) == RightsOf(LeafAt(1, s.pages, a).entry)
  {
    hide Wf, Canonical, FreeIsUnheld, MappedIsHeld, Indices, Effective, RightsOf, Masked;
    PathOf(1, a);
    EffectiveOfLeaf(t, Indices(a));
  }
}
