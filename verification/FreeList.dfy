/**
 The free list of user virtual memory: a singly linked list of intervals, edited in place.
 Addresses and sizes are 64-bit words; an interval that reaches the end of the address space has
 an `End` that wraps to 0.

 The functions `AllocOf`, `AllocAtOf` and `FreeOf` say what each operation does to the list, on
 every list, with the source's own branches and word arithmetic.  The class below is proved against
 them, and the properties the source promises are proved about them.
*/
module FreeLists {
  import opened Words

  /** What the 64-bit product `pageSize * pageCount` evaluates to. */
  function Total(pageSize: nat, pageCount: nat): Word {
    W(pageSize * pageCount)
  }

  /** The page sizes callers pass are powers of two. */
  predicate IsPageSize(pageSize: nat) {
    0 < pageSize < WORD && WORD % pageSize == 0
  }

  /** A total is a whole number of pages, so rounding up to a page never pushes it past 2^64. */
  lemma ChopDoesNotWrap(start: nat, pageSize: nat, pageCount: nat)
    requires IsPageSize(pageSize)
    ensures Chop(start, pageSize) + Total(pageSize, pageCount) < WORD
    ensures IsAligned(Total(pageSize, pageCount), pageSize)
  {
    var q := WORD / pageSize;
    assert WORD == pageSize * q;
    ProductMod(pageSize, pageCount, q);
    MultipleMod(pageSize, pageCount % q);
    ProductStep(pageSize, pageCount % q, q);
  }

  /** A region as the source stores it; the predicates are those of FreeList::Region. */
  datatype Interval = Interval(start: Word, size: Word) {

    /** The interval is non-empty and does not run past 2^64. */
    predicate Ok() {
      0 < size && start + size <= WORD
    }

    predicate Holds(a: nat) {
      start <= a < start + size
    }

    /** What the constructor asserts. */
    predicate Asserted()
      ensures Ok() ==> Asserted()
      ensures 0 < start && Asserted() ==> Ok()
    {
      W(start + size) > start || W(start + size) == 0
    }

    function End(): (e: Word)
      ensures Ok() ==> e == if start + size == WORD then 0 else start + size
    {
      W(start + size)
    }

    predicate CanHold(pageSize: nat, pageCount: nat)
      requires IsPageSize(pageSize)
      ensures CanHold(pageSize, pageCount) <==> Chop(start, pageSize) + Total(pageSize, pageCount) <= size
    {
      ChopDoesNotWrap(start, pageSize, pageCount);
      W(Chop(start, pageSize) + Total(pageSize, pageCount)) <= size
    }

    /** The run Alloc asks of this region. */
    function Request(pageSize: nat, pageCount: nat): Interval
      requires pageSize > 0
    {
      Interval(W(start + Chop(start, pageSize)), Total(pageSize, pageCount))
    }

    predicate IsAdjacentBehind(addr: Word)
      ensures Ok() ==> (IsAdjacentBehind(addr) <==> start + size == addr)
    {
      End() != 0 && End() == addr
    }

    predicate Contains(reg: Interval)
      ensures Ok() && reg.Ok() ==> (Contains(reg) <==> start <= reg.start && reg.start + reg.size <= start + size)
    {
      if start > reg.start then false
      else if End() != 0 then reg.End() != 0 && reg.End() <= End()
      else true
    }

    predicate IsBehind(addr: Word)
      ensures Ok() ==> (IsBehind(addr) <==> start + size <= addr)
    {
      End() != 0 && End() <= addr
    }

    predicate IsFilledBy(reg: Interval) {
      reg.start == start && reg.size == size
    }

    predicate IsEndedBy(reg: Interval)
      ensures Ok() && reg.Ok() ==> (IsEndedBy(reg) <==> reg.start + reg.size == start + size)
    {
      reg.End() == End()
    }

    predicate IsStartedBy(reg: Interval) {
      reg.start == start
    }

    /** The second case of AllocInRegion: the interval moves behind the request and keeps its size. */
    predicate IsMovedBy(reg: Interval) {
      IsStartedBy(reg) && !IsFilledBy(reg)
    }
  }

  // ----- what the operations do -----

  /** `Panicked`: an assertion of the source failed. */
  datatype Change = Panicked | Refused | Changed(addr: Word, list: seq<Interval>)

  /**
   AllocInRegion on the k-th region.  A request at the start of a larger region advances `start`
   and leaves `size` alone, so that region keeps its size and its end moves up with its start.
  */
  function AllocInRegionOf(l: seq<Interval>, k: nat, requested: Interval): Change
    requires k < |l|
  {
    var reg := l[k];
    if reg.IsFilledBy(requested) then
      Changed(requested.start, l[..k] + l[k + 1..])
    else if reg.IsStartedBy(requested) then
      Changed(requested.start, l[k := Interval(W(reg.start + requested.size), reg.size)])
    else if reg.IsEndedBy(requested) then
      Changed(requested.start, l[k := Interval(reg.start, W(reg.size - requested.size))])
    else
      var suffix := Interval(requested.End(), W(reg.End() - requested.End()));
      if suffix.Asserted() then
        Changed(requested.start, l[..k] + [Interval(reg.start, W(requested.start - reg.start)), suffix] + l[k + 1..])
      else
        Panicked
  }

  /** First region, from the i-th on, that Alloc would take. */
  function FirstHolding(l: seq<Interval>, pageSize: nat, pageCount: nat, i: nat): (k: nat)
    requires i <= |l| && IsPageSize(pageSize)
    ensures i <= k <= |l|
    ensures k < |l| ==> l[k].CanHold(pageSize, pageCount)
    ensures forall j | i <= j < k :: !l[j].CanHold(pageSize, pageCount)
    decreases |l| - i
  {
    if i == |l| || l[i].CanHold(pageSize, pageCount) then i else FirstHolding(l, pageSize, pageCount, i + 1)
  }

  /** First region, from the i-th on, that contains the request. */
  function FirstContaining(l: seq<Interval>, requested: Interval, i: nat): (k: nat)
    requires i <= |l|
    ensures i <= k <= |l|
    ensures k < |l| ==> l[k].Contains(requested)
    ensures forall j | i <= j < k :: !l[j].Contains(requested)
    decreases |l| - i
  {
    if i == |l| || l[i].Contains(requested) then i else FirstContaining(l, requested, i + 1)
  }

  function AllocOf(l: seq<Interval>, pageSize: nat, pageCount: nat): Change
    requires IsPageSize(pageSize)
  {
    var k := FirstHolding(l, pageSize, pageCount, 0);
    if k == |l| then Refused else
    var requested := l[k].Request(pageSize, pageCount);
    if requested.Asserted() then AllocInRegionOf(l, k, requested) else Panicked
  }

  function AllocAtOf(l: seq<Interval>, start: Word, pageSize: nat, pageCount: nat): Change
    requires IsPageSize(pageSize)
  {
    if !IsAligned(start, pageSize) then Refused else
    var requested := Interval(start, Total(pageSize, pageCount));
    if !requested.Asserted() then Panicked else
    var k := FirstContaining(l, requested, 0);
    if k == |l| then Refused else AllocInRegionOf(l, k, requested)
  }

  /** The merging loop of Free: v absorbs the regions it has come to touch. */
  function Absorb(v: Interval, rest: seq<Interval>): seq<Interval>
    decreases |rest|
  {
    if rest != [] && v.IsAdjacentBehind(rest[0].start)
    then Absorb(Interval(v.start, W(v.size + rest[0].size)), rest[1..])
    else [v] + rest
  }

  function FreeFrom(l: seq<Interval>, releasing: Interval, i: nat): seq<Interval>
    requires i <= |l|
    decreases |l| - i
  {
    if i == |l| then
      l + [releasing]
    else if l[i].IsAdjacentBehind(releasing.start) then
      l[..i] + Absorb(Interval(l[i].start, W(l[i].size + releasing.size)), l[i + 1..])
    else if releasing.IsAdjacentBehind(l[i].start) then
      l[i := Interval(W(l[i].start - releasing.size), W(l[i].size + releasing.size))]
    else if releasing.IsBehind(l[i].start) then
      l[..i] + [releasing] + l[i..]
    else
      FreeFrom(l, releasing, i + 1)
  }

  // One unfolding of FreeFrom, and its branches, for proofs that hide the recursion.

  lemma FreeFromStep(l: seq<Interval>, releasing: Interval, i: nat)
    requires i < |l|
    ensures FreeFrom(l, releasing, i) ==
      if l[i].IsAdjacentBehind(releasing.start) then
        l[..i] + Absorb(Interval(l[i].start, W(l[i].size + releasing.size)), l[i + 1..])
      else if releasing.IsAdjacentBehind(l[i].start) then
        l[i := Interval(W(l[i].start - releasing.size), W(l[i].size + releasing.size))]
      else if releasing.IsBehind(l[i].start) then
        l[..i] + [releasing] + l[i..]
      else
        FreeFrom(l, releasing, i + 1)
  {
    hide W, Absorb;
  }

  lemma FreeFromExtend(l: seq<Interval>, releasing: Interval, i: nat)
    requires i < |l| && l[i].IsAdjacentBehind(releasing.start)
    ensures FreeFrom(l, releasing, i) ==
      l[..i] + Absorb(Interval(l[i].start, W(l[i].size + releasing.size)), l[i + 1..])
  {
    hide *;
    FreeFromStep(l, releasing, i);
  }

  lemma FreeFromPrepend(l: seq<Interval>, releasing: Interval, i: nat)
    requires i < |l| && !l[i].IsAdjacentBehind(releasing.start) && releasing.IsAdjacentBehind(l[i].start)
    ensures FreeFrom(l, releasing, i) ==
      l[i := Interval(W(l[i].start - releasing.size), W(l[i].size + releasing.size))]
  {
    hide *;
    FreeFromStep(l, releasing, i);
  }

  lemma FreeFromStop(l: seq<Interval>, releasing: Interval, i: nat)
    requires i <= |l|
    requires i < |l| ==> !l[i].IsAdjacentBehind(releasing.start) && !releasing.IsAdjacentBehind(l[i].start)
    requires i < |l| ==> releasing.IsBehind(l[i].start)
    ensures FreeFrom(l, releasing, i) == l[..i] + [releasing] + l[i..]
  {
    hide W, Absorb;
  }

  lemma FreeFromSkip(l: seq<Interval>, releasing: Interval, i: nat)
    requires i < |l| && !l[i].IsAdjacentBehind(releasing.start)
    requires !releasing.IsAdjacentBehind(l[i].start) && !releasing.IsBehind(l[i].start)
    ensures FreeFrom(l, releasing, i) == FreeFrom(l, releasing, i + 1)
  {
    hide *;
    FreeFromStep(l, releasing, i);
  }

  function FreeOf(l: seq<Interval>, addr: Word, pageSize: nat, pageCount: nat): Change {
    var releasing := Interval(addr, Total(pageSize, pageCount));
    if releasing.Asserted() then Changed(addr, FreeFrom(l, releasing, 0)) else Panicked
  }

  datatype Call =
    | CallAlloc(pageSize: nat, pageCount: nat)
    | CallAllocAt(at: Word, pageSize: nat, pageCount: nat)
    | CallFree(at: Word, pageSize: nat, pageCount: nat)
  {
    function Length(): Word { Total(pageSize, pageCount) }

    /** A page-sized request for at least one byte. */
    predicate IsRequest() { !CallFree? && IsPageSize(pageSize) && 0 < Length() }
  }

  function Do(l: seq<Interval>, c: Call): Change
    requires c.CallFree? || IsPageSize(c.pageSize)
  {
    match c
    case CallAlloc(pageSize, pageCount) => AllocOf(l, pageSize, pageCount)
    case CallAllocAt(at, pageSize, pageCount) => AllocAtOf(l, at, pageSize, pageCount)
    case CallFree(at, pageSize, pageCount) => FreeOf(l, at, pageSize, pageCount)
  }

  /** Where Alloc starts its run in region v. */
  function RoundedStart(v: Interval, pageSize: nat): (x: nat)
    requires pageSize > 0
    ensures v.start <= x
  {
    v.start + Chop(v.start, pageSize)
  }

  /** The region that a request is served from, |l| for none. */
  function Serving(l: seq<Interval>, c: Call): (k: nat)
    requires c.IsRequest()
    ensures k <= |l|
  {
    if c.CallAlloc? then FirstHolding(l, c.pageSize, c.pageCount, 0)
    else if IsAligned(c.at, c.pageSize) && Interval(c.at, c.Length()).Ok()
    then FirstContaining(l, Interval(c.at, c.Length()), 0)
    else |l|
  }

  /** Where in region v the run starts. */
  function StartIn(v: Interval, c: Call): nat
    requires c.IsRequest()
  {
    if c.CallAllocAt? then c.at else RoundedStart(v, c.pageSize)
  }

  /**
   The request is served from the start of a region that is not exactly as long: for Alloc the first
   region that can hold it starts on a page boundary, for AllocAt it starts where the caller says.
  */
  predicate Slides(l: seq<Interval>, c: Call)
    requires c.IsRequest()
  {
    var k := Serving(l, c);
    && k < |l| && l[k].size != c.Length()
    && if c.CallAllocAt? then l[k].start == c.at else IsAligned(l[k].start, c.pageSize)
  }

  // ----- what a list of intervals denotes -----

  ghost predicate Has(l: seq<Interval>, a: nat) {
    exists i :: 0 <= i < |l| && l[i].Holds(a)
  }

  /** All n bytes from x on are free. */
  ghost predicate Run(l: seq<Interval>, x: nat, n: nat) {
    forall a: nat | x <= a < x + n :: Has(l, a)
  }

  /** Sorted, disjoint, non-empty, and no two intervals touch. */
  ghost predicate Canonical(l: seq<Interval>) {
    && (forall i | 0 <= i < |l| :: l[i].Ok())
    && (forall i, j | 0 <= i < j < |l| :: l[i].start + l[i].size < l[j].start)
  }

  /** Because no two intervals touch, a free run lies inside one of them. */
  lemma RunIsInsideOne(l: seq<Interval>, x: nat, n: nat) returns (i: nat)
    requires Canonical(l) && 0 < n && Run(l, x, n)
    ensures i < |l| && l[i].start <= x && x + n <= l[i].start + l[i].size
  {
    assert Has(l, x);
    i :| 0 <= i < |l| && l[i].Holds(x);
    var end := l[i].start + l[i].size;
    if end < x + n {
      assert Has(l, end);
      var j :| 0 <= j < |l| && l[j].Holds(end);
      assert false;
    }
  }

  lemma InsideIsRun(l: seq<Interval>, i: nat, x: nat, n: nat)
    requires i < |l| && l[i].start <= x && x + n <= l[i].start + l[i].size
    ensures Run(l, x, n)
  {
    forall a: nat | x <= a < x + n ensures Has(l, a) {
      assert l[i].Holds(a);
    }
  }

  /** The address set of a canonical list determines the list. */
  lemma {:induction false} CanonicalIsUnique(l: seq<Interval>, m: seq<Interval>)
    requires Canonical(l) && Canonical(m)
    requires forall a: nat :: Has(l, a) <==> Has(m, a)
    ensures l == m
  {
    if l == [] || m == [] {
      if l != [] { assert l[0].Holds(l[0].start); assert Has(l, l[0].start); }
      if m != [] { assert m[0].Holds(m[0].start); assert Has(m, m[0].start); }
    } else {
      HeadIsBelow(l, m);
      HeadIsBelow(m, l);
      forall a: nat ensures Has(l[1..], a) <==> Has(m[1..], a) {
        TailHas(l, a);
        TailHas(m, a);
      }
      CanonicalIsUnique(l[1..], m[1..]);
      assert l == [l[0]] + l[1..] && m == [m[0]] + m[1..];
    }
  }

  lemma TailHas(l: seq<Interval>, a: nat)
    requires Canonical(l) && l != []
    ensures Has(l[1..], a) <==> Has(l, a) && !l[0].Holds(a)
  {
    if Has(l[1..], a) {
      var i :| 0 <= i < |l[1..]| && l[1..][i].Holds(a);
      assert l[i + 1].Holds(a);
    }
    if Has(l, a) && !l[0].Holds(a) {
      var i :| 0 <= i < |l| && l[i].Holds(a);
      assert l[1..][i - 1].Holds(a);
    }
  }

  lemma HeadIsBelow(l: seq<Interval>, m: seq<Interval>)
    requires Canonical(l) && Canonical(m) && l != [] && m != []
    requires forall a: nat :: Has(l, a) <==> Has(m, a)
    ensures m[0].start <= l[0].start
    ensures m[0].start == l[0].start ==> l[0].size <= m[0].size
  {
    assert l[0].Holds(l[0].start);
    assert Has(l, l[0].start);
    var i :| 0 <= i < |m| && m[i].Holds(l[0].start);
    if m[0].start == l[0].start {
      InsideIsRun(l, 0, l[0].start, l[0].size);
      assert Run(m, l[0].start, l[0].size);
      var k := RunIsInsideOne(m, l[0].start, l[0].size);
    }
  }

  // ----- the two edits -----

  /** What is left of an interval from which [x, x + n) is taken. */
  function Pieces(v: Interval, x: nat, n: nat): seq<Interval>
    requires 0 < n && v.start <= x && x + n <= v.start + v.size <= WORD
  {
    (if x > v.start then [Interval(v.start, x - v.start)] else [])
    + (if x + n < v.start + v.size then [Interval(x + n, v.start + v.size - (x + n))] else [])
  }

  function Carve(l: seq<Interval>, k: nat, x: nat, n: nat): seq<Interval>
    requires k < |l| && l[k].Ok() && 0 < n && l[k].start <= x && x + n <= l[k].start + l[k].size
  {
    l[..k] + Pieces(l[k], x, n) + l[k + 1..]
  }

  /** l' is l without the addresses of [x, x + n). */
  ghost predicate Removed(l: seq<Interval>, l': seq<Interval>, x: nat, n: nat) {
    forall a: nat :: Has(l', a) <==> Has(l, a) && !(x <= a < x + n)
  }

  /** l' is l together with the addresses of [x, x + n). */
  ghost predicate Added(l: seq<Interval>, l': seq<Interval>, x: nat, n: nat) {
    forall a: nat :: Has(l', a) <==> Has(l, a) || x <= a < x + n
  }

  lemma HasConcat(l: seq<Interval>, m: seq<Interval>, a: nat)
    ensures Has(l + m, a) <==> Has(l, a) || Has(m, a)
  {
    if Has(l, a) {
      var i :| 0 <= i < |l| && l[i].Holds(a);
      assert (l + m)[i].Holds(a);
    }
    if Has(m, a) {
      var i :| 0 <= i < |m| && m[i].Holds(a);
      assert (l + m)[|l| + i].Holds(a);
    }
    if Has(l + m, a) {
      var i :| 0 <= i < |l + m| && (l + m)[i].Holds(a);
      assert if i < |l| then l[i].Holds(a) else m[i - |l|].Holds(a);
    }
  }

  lemma PiecesHas(v: Interval, x: nat, n: nat, a: nat)
    requires 0 < n && v.start <= x && x + n <= v.start + v.size <= WORD
    ensures Has(Pieces(v, x, n), a) <==> v.Holds(a) && !(x <= a < x + n)
  {
    var p := Pieces(v, x, n);
    if v.Holds(a) && a < x { assert p[0].Holds(a); }
    if v.Holds(a) && x + n <= a { assert p[|p| - 1].Holds(a); }
  }

  lemma OnlyOneHolds(l: seq<Interval>, k: nat, a: nat)
    requires Canonical(l) && k < |l|
    ensures Has(l, a) <==> Has(l[..k], a) || l[k].Holds(a) || Has(l[k + 1..], a)
    ensures l[k].Holds(a) ==> !Has(l[..k], a) && !Has(l[k + 1..], a)
  {
    assert l == l[..k] + [l[k]] + l[k + 1..];
    HasConcat(l[..k] + [l[k]], l[k + 1..], a);
    HasConcat(l[..k], [l[k]], a);
    if l[k].Holds(a) { assert [l[k]][0].Holds(a); }
  }

  lemma CarveIsRemoval(l: seq<Interval>, k: nat, x: nat, n: nat)
    requires Canonical(l) && k < |l| && 0 < n && l[k].start <= x && x + n <= l[k].start + l[k].size
    ensures Canonical(Carve(l, k, x, n)) && Removed(l, Carve(l, k, x, n), x, n)
  {
    var c := Carve(l, k, x, n);
    forall a: nat ensures Has(c, a) <==> Has(l, a) && !(x <= a < x + n) {
      HasConcat(l[..k] + Pieces(l[k], x, n), l[k + 1..], a);
      HasConcat(l[..k], Pieces(l[k], x, n), a);
      PiecesHas(l[k], x, n, a);
      OnlyOneHolds(l, k, a);
    }
  }

  /** Free replaces the intervals i..j by one that also covers [x, x + n). */
  function Splice(l: seq<Interval>, i: nat, j: nat, v: Interval): seq<Interval>
    requires i <= j <= |l|
  {
    l[..i] + [v] + l[j..]
  }

  lemma SpliceHas(l: seq<Interval>, i: nat, j: nat, v: Interval, a: nat)
    requires i <= j <= |l|
    ensures Has(Splice(l, i, j, v), a) <==> Has(l[..i], a) || v.Holds(a) || Has(l[j..], a)
    ensures Has(l, a) <==> Has(l[..i], a) || Has(l[i..j], a) || Has(l[j..], a)
  {
    HasConcat(l[..i] + [v], l[j..], a);
    HasConcat(l[..i], [v], a);
    assert [v][0] == v;
    assert l == l[..i] + l[i..j] + l[j..];
    HasConcat(l[..i] + l[i..j], l[j..], a);
    HasConcat(l[..i], l[i..j], a);
  }

  lemma SpliceIsAddition(l: seq<Interval>, i: nat, j: nat, v: Interval, x: nat, n: nat)
    requires Canonical(l) && i <= j <= |l| && v.Ok()
    requires forall a: nat :: Has(l[i..j], a) || x <= a < x + n <==> v.Holds(a)
    requires i > 0 ==> l[i - 1].start + l[i - 1].size < v.start
    requires j < |l| ==> v.start + v.size < l[j].start
    ensures Canonical(Splice(l, i, j, v)) && Added(l, Splice(l, i, j, v), x, n)
  {
    SpliceIsCanonical(l, i, j, v);
    forall a: nat ensures Has(Splice(l, i, j, v), a) <==> Has(l, a) || x <= a < x + n {
      SpliceHas(l, i, j, v, a);
    }
  }

  lemma SpliceIsCanonical(l: seq<Interval>, i: nat, j: nat, v: Interval)
    requires Canonical(l) && i <= j <= |l| && v.Ok()
    requires i > 0 ==> l[i - 1].start + l[i - 1].size < v.start
    requires j < |l| ==> v.start + v.size < l[j].start
    ensures Canonical(Splice(l, i, j, v))
  {
    assert forall k | 0 <= k < i :: l[k].start + l[k].size < v.start;
    assert forall k | j <= k < |l| :: v.start + v.size < l[k].start;
  }

  /** Freeing exactly what was taken restores the list itself, not just its address set. */
  lemma FreeUndoesAlloc(l: seq<Interval>, taken: seq<Interval>, back: seq<Interval>, x: nat, n: nat)
    requires Canonical(l) && Canonical(taken) && Canonical(back)
    requires Run(l, x, n) && Removed(l, taken, x, n) && Added(taken, back, x, n)
    ensures back == l
  {
    forall a: nat ensures Has(back, a) <==> Has(l, a) {
    }
    CanonicalIsUnique(back, l);
  }

  // ----- what the operations promise, on canonical lists -----

  /** x starts a free, page-aligned run of n bytes. */
  ghost predicate Fits(l: seq<Interval>, x: nat, pageSize: nat, n: nat)
    requires pageSize > 0
  {
    IsAligned(x, pageSize) && Run(l, x, n)
  }

  /** Alloc takes the first region that can hold the request, and the lowest aligned start in it. */
  lemma FirstHoldingIsLowest(l: seq<Interval>, pageSize: nat, pageCount: nat, y: nat)
    requires Canonical(l) && IsPageSize(pageSize) && 0 < Total(pageSize, pageCount)
    requires Fits(l, y, pageSize, Total(pageSize, pageCount))
    ensures var k := FirstHolding(l, pageSize, pageCount, 0);
      k < |l| && RoundedStart(l[k], pageSize) <= y
  {
    hide IsAligned, Chop;
    var k := FirstHolding(l, pageSize, pageCount, 0);
    var i := RunIsInsideOne(l, y, Total(pageSize, pageCount));
    ChopIsNext(l[i].start, pageSize);
    assert l[i].CanHold(pageSize, pageCount);
    assert k <= i;
    if k < i {
      assert l[k].CanHold(pageSize, pageCount);
    }
  }

  /** Alloc finds the lowest page-aligned free run there is, and refuses only when there is none. */
  lemma AllocIsLowestFit(l: seq<Interval>, pageSize: nat, pageCount: nat)
    requires Canonical(l) && IsPageSize(pageSize) && 0 < Total(pageSize, pageCount)
    ensures var n := Total(pageSize, pageCount); var r := AllocOf(l, pageSize, pageCount);
      && !r.Panicked?
      && (r.Changed? ==> Fits(l, r.addr, pageSize, n) && forall y: nat | y < r.addr :: !Fits(l, y, pageSize, n))
      && (r.Refused? ==> forall y: nat :: !Fits(l, y, pageSize, n))
  {
    var n := Total(pageSize, pageCount);
    var k := FirstHolding(l, pageSize, pageCount, 0);
    forall y: nat | Fits(l, y, pageSize, n)
      ensures k < |l| && RoundedStart(l[k], pageSize) <= y
    {
      FirstHoldingIsLowest(l, pageSize, pageCount, y);
    }
    if k < |l| {
      HoldingIsTaken(l, k, pageSize, pageCount);
    }
  }

  lemma HoldingFits(l: seq<Interval>, k: nat, pageSize: nat, pageCount: nat)
    requires Canonical(l) && IsPageSize(pageSize) && 0 < Total(pageSize, pageCount)
    requires k < |l| && l[k].CanHold(pageSize, pageCount)
    ensures var n := Total(pageSize, pageCount);
      var x := RoundedStart(l[k], pageSize);
      Fits(l, x, pageSize, n) && x < WORD && Interval(x, n).Ok() && l[k].Contains(Interval(x, n))
  {
    hide IsAligned, Chop;
    ChopIsNext(l[k].start, pageSize);
    InsideIsRun(l, k, RoundedStart(l[k], pageSize), Total(pageSize, pageCount));
  }

  lemma HoldingIsTaken(l: seq<Interval>, k: nat, pageSize: nat, pageCount: nat)
    requires Canonical(l) && IsPageSize(pageSize) && 0 < Total(pageSize, pageCount)
    requires k < |l| && k == FirstHolding(l, pageSize, pageCount, 0)
    ensures var n := Total(pageSize, pageCount);
      var x := RoundedStart(l[k], pageSize);
      && Fits(l, x, pageSize, n) && x < WORD && Interval(x, n).Ok() && l[k].Contains(Interval(x, n))
      && AllocOf(l, pageSize, pageCount) == AllocInRegionOf(l, k, Interval(x, n))
      && AllocOf(l, pageSize, pageCount).Changed? && AllocOf(l, pageSize, pageCount).addr == x
  {
    hide IsAligned, Chop, Total, Fits, AllocInRegionOf, Canonical;
    HoldingFits(l, k, pageSize, pageCount);
    TakingIsDefined(l, k, Interval(RoundedStart(l[k], pageSize), Total(pageSize, pageCount)));
  }

  lemma TakingIsDefined(l: seq<Interval>, k: nat, requested: Interval)
    requires Canonical(l) && k < |l| && requested.Ok() && l[k].Contains(requested)
    ensures AllocInRegionOf(l, k, requested).Changed? && AllocInRegionOf(l, k, requested).addr == requested.start
  {
  }

  /** AllocAt succeeds exactly when the start is aligned and the whole run is free. */
  lemma AllocAtSucceedsIffFree(l: seq<Interval>, start: Word, pageSize: nat, pageCount: nat)
    requires Canonical(l) && IsPageSize(pageSize) && Interval(start, Total(pageSize, pageCount)).Ok()
    ensures var r := AllocAtOf(l, start, pageSize, pageCount);
      && !r.Panicked?
      && (r.Changed? <==> Fits(l, start, pageSize, Total(pageSize, pageCount)))
      && (r.Changed? ==> r.addr == start)
  {
    var n := Total(pageSize, pageCount);
    var requested := Interval(start, n);
    var k := FirstContaining(l, requested, 0);
    if Run(l, start, n) {
      var i := RunIsInsideOne(l, start, n);
      assert l[i].Contains(requested);
    }
    if k < |l| {
      InsideIsRun(l, k, start, n);
      TakingIsDefined(l, k, requested);
    }
  }

  /**
   Taking a run leaves the canonical list of the remaining free addresses exactly when the run does
   not start a larger free interval.
  */
  lemma TakingIsRemovalIff(l: seq<Interval>, k: nat, requested: Interval)
    requires Canonical(l) && k < |l| && requested.Ok() && l[k].Contains(requested)
    ensures var l' := AllocInRegionOf(l, k, requested).list;
      Canonical(l') && Removed(l, l', requested.start, requested.size) <==> !l[k].IsMovedBy(requested)
  {
    hide Removed, W;
    if l[k].IsMovedBy(requested) {
      SlidingIsNoRemoval(l, k, requested);
    } else {
      TakingIsCarving(l, k, requested);
      CarveIsRemoval(l, k, requested.start, requested.size);
    }
  }

  /** The region slides over the first address behind it, which was not free. */
  lemma SlidingIsNoRemoval(l: seq<Interval>, k: nat, requested: Interval)
    requires Canonical(l) && k < |l| && requested.Ok() && l[k].Contains(requested) && l[k].IsMovedBy(requested)
    ensures AllocInRegionOf(l, k, requested).Changed?
    ensures !Removed(l, AllocInRegionOf(l, k, requested).list, requested.start, requested.size)
  {
    var x, n := requested.start, requested.size;
    var l', end := AllocInRegionOf(l, k, requested).list, l[k].start + l[k].size;
    assert l'[k].Holds(end);
    EndIsNotFree(l, k);
    assert Has(l', end);
  }

  lemma TakingIsCarving(l: seq<Interval>, k: nat, requested: Interval)
    requires Canonical(l) && k < |l| && requested.Ok() && l[k].Contains(requested)
    requires !l[k].IsMovedBy(requested)
    ensures l[k].start <= requested.start && requested.start + requested.size <= l[k].start + l[k].size
    ensures AllocInRegionOf(l, k, requested) == Changed(requested.start, Carve(l, k, requested.start, requested.size))
  {
    TakingIsDefined(l, k, requested);
  }

  lemma EndIsNotFree(l: seq<Interval>, k: nat)
    requires Canonical(l) && k < |l|
    ensures !Has(l, l[k].start + l[k].size)
  {
  }

  /** What a request is served with. */
  lemma ServedIs(l: seq<Interval>, c: Call)
    requires Canonical(l) && c.IsRequest()
    ensures Do(l, c).Changed? <==> Serving(l, c) < |l|
    ensures Serving(l, c) < |l| ==> var k := Serving(l, c); var x := StartIn(l[k], c);
      && x < WORD && Interval(x, c.Length()).Ok() && l[k].Contains(Interval(x, c.Length()))
      && Fits(l, x, c.pageSize, c.Length())
      && Do(l, c) == AllocInRegionOf(l, k, Interval(x, c.Length())) && Do(l, c).addr == x
      && (Slides(l, c) <==> l[k].IsMovedBy(Interval(x, c.Length())))
  {
    hide AllocInRegionOf, Canonical, Fits;
    if c.CallAllocAt? {
      AtServedIs(l, c.at, c.pageSize, c.pageCount);
    } else {
      AllocServedIs(l, c.pageSize, c.pageCount);
    }
  }

  lemma AllocServedIs(l: seq<Interval>, pageSize: nat, pageCount: nat)
    requires Canonical(l) && IsPageSize(pageSize) && 0 < Total(pageSize, pageCount)
    ensures var k, n := FirstHolding(l, pageSize, pageCount, 0), Total(pageSize, pageCount);
      && (k == |l| ==> AllocOf(l, pageSize, pageCount) == Refused)
      && (k < |l| ==> var x := RoundedStart(l[k], pageSize);
        && x < WORD && Interval(x, n).Ok() && l[k].Contains(Interval(x, n)) && Fits(l, x, pageSize, n)
        && AllocOf(l, pageSize, pageCount) == AllocInRegionOf(l, k, Interval(x, n))
        && AllocOf(l, pageSize, pageCount).Changed? && AllocOf(l, pageSize, pageCount).addr == x
        && (IsAligned(l[k].start, pageSize) <==> l[k].start == x))
  {
    hide AllocInRegionOf, Canonical, Fits;
    var k := FirstHolding(l, pageSize, pageCount, 0);
    if k < |l| { HoldingIsTaken(l, k, pageSize, pageCount); }
  }

  lemma AtServedIs(l: seq<Interval>, at: Word, pageSize: nat, pageCount: nat)
    requires Canonical(l) && IsPageSize(pageSize) && 0 < Total(pageSize, pageCount)
    ensures var n, r := Total(pageSize, pageCount), AllocAtOf(l, at, pageSize, pageCount);
      if IsAligned(at, pageSize) && Interval(at, n).Ok() then
        var k := FirstContaining(l, Interval(at, n), 0);
        && (r.Changed? <==> k < |l|)
        && (k < |l| ==> Fits(l, at, pageSize, n) && r == AllocInRegionOf(l, k, Interval(at, n)) && r.addr == at)
      else !r.Changed?
  {
    hide AllocInRegionOf, Canonical;
    var requested := Interval(at, Total(pageSize, pageCount));
    AssertedIffOk(requested);
    if requested.Ok() {
      var k := FirstContaining(l, requested, 0);
      if k < |l| {
        AllAreOk(l);
        TakingIsDefined(l, k, requested);
        InsideIsRun(l, k, at, requested.size);
      }
    }
  }

  lemma AllAreOk(l: seq<Interval>)
    requires Canonical(l)
    ensures forall i | 0 <= i < |l| :: l[i].Ok()
  {
  }

  lemma AssertedIffOk(v: Interval)
    requires 0 < v.size
    ensures v.Asserted() <==> v.Ok()
  {
  }

  /** A request leaves the canonical list of the remaining addresses exactly when it slides no region. */
  lemma ServingKeepsCanonicalIff(l: seq<Interval>, c: Call)
    requires Canonical(l) && c.IsRequest() && Do(l, c).Changed?
    ensures var r := Do(l, c); Canonical(r.list) && Removed(l, r.list, r.addr, c.Length()) <==> !Slides(l, c)
  {
    hide AllocInRegionOf, Canonical, Fits, Removed, Serving, Slides;
    ServedIs(l, c);
    var k := Serving(l, c);
    TakingIsRemovalIff(l, k, Interval(StartIn(l[k], c), c.Length()));
  }

  /** Alloc leaves the canonical remainder exactly when the region it takes from starts aligned and is not exactly as long. */
  lemma AllocKeepsCanonicalIff(l: seq<Interval>, pageSize: nat, pageCount: nat)
    requires Canonical(l) && IsPageSize(pageSize) && 0 < Total(pageSize, pageCount)
    requires AllocOf(l, pageSize, pageCount).Changed?
    ensures var n := Total(pageSize, pageCount); var r := AllocOf(l, pageSize, pageCount);
      Canonical(r.list) && Removed(l, r.list, r.addr, n) <==> !Slides(l, CallAlloc(pageSize, pageCount))
  {
    hide Canonical, Removed, Slides, AllocOf;
    ServingKeepsCanonicalIff(l, CallAlloc(pageSize, pageCount));
  }

  lemma AllocAtKeepsCanonicalIff(l: seq<Interval>, start: Word, pageSize: nat, pageCount: nat)
    requires Canonical(l) && IsPageSize(pageSize) && 0 < Total(pageSize, pageCount)
    requires AllocAtOf(l, start, pageSize, pageCount).Changed?
    ensures var n := Total(pageSize, pageCount); var r := AllocAtOf(l, start, pageSize, pageCount);
      Canonical(r.list) && Removed(l, r.list, start, n) <==> !Slides(l, CallAllocAt(start, pageSize, pageCount))
  {
    hide Canonical, Removed, Slides, AllocAtOf;
    ServingKeepsCanonicalIff(l, CallAllocAt(start, pageSize, pageCount));
    ServedIs(l, CallAllocAt(start, pageSize, pageCount));
  }

  // ----- slides that hit nothing -----

  /** No free address is in use. */
  ghost predicate IsUnused(l: seq<Interval>, used: iset<nat>) {
    forall a: nat | Has(l, a) :: a !in used
  }

  /** The n bytes behind the k-th region lie before the next one and are not in use. */
  ghost predicate HasRoomBehind(l: seq<Interval>, used: iset<nat>, k: nat, n: nat)
    requires k < |l|
  {
    var end := l[k].start + l[k].size;
    && end + n <= WORD
    && (k + 1 < |l| ==> end + n < l[k + 1].start)
    && (forall a: nat | end <= a < end + n :: a !in used)
  }

  /** The request slides a region onto addresses that are in use or free already. */
  ghost predicate SlidesInto(l: seq<Interval>, used: iset<nat>, c: Call)
    requires c.IsRequest()
  {
    Slides(l, c) && !HasRoomBehind(l, used, Serving(l, c), c.Length())
  }

  lemma SlideIs(l: seq<Interval>, k: nat, requested: Interval)
    requires Canonical(l) && k < |l| && requested.Ok() && l[k].Contains(requested) && l[k].IsMovedBy(requested)
    ensures requested.size < l[k].size && requested.start + requested.size < WORD
    ensures AllocInRegionOf(l, k, requested).Changed?
    ensures AllocInRegionOf(l, k, requested).list
      == l[k := Interval(requested.start + requested.size, l[k].size)]
  {
  }

  lemma SlidKeepsUnusedIff(l: seq<Interval>, used: iset<nat>, k: nat, x: nat, n: nat)
    requires Canonical(l) && IsUnused(l, used) && k < |l| && l[k].start == x && 0 < n < l[k].size && x + n < WORD
    ensures var l' := l[k := Interval(x + n, l[k].size)];
      Canonical(l') && IsUnused(l', used + Bytes(x, n)) <==> HasRoomBehind(l, used, k, n)
  {
    var l' := l[k := Interval(x + n, l[k].size)];
    var end := x + l[k].size;
    if HasRoomBehind(l, used, k, n) {
      forall a: nat | Has(l', a) ensures a !in used + Bytes(x, n) {
        var i :| 0 <= i < |l'| && l'[i].Holds(a);
        if i != k || a < end {
          assert l[i].Holds(a);
          assert Has(l, a);
        }
      }
    } else if end + n > WORD {
      assert !l'[k].Ok();
    } else if k + 1 < |l| && l[k + 1].start <= end + n {
      assert l'[k + 1] == l[k + 1];
    } else {
      var a: nat :| end <= a < end + n && a in used;
      assert l'[k].Holds(a);
      assert Has(l', a);
    }
  }

  /** A request keeps free and used addresses apart if and only if it slides no region onto either. */
  lemma ServingKeepsUnusedIff(l: seq<Interval>, used: iset<nat>, c: Call)
    requires Canonical(l) && IsUnused(l, used) && c.IsRequest() && Do(l, c).Changed?
    ensures var r := Do(l, c);
      Canonical(r.list) && IsUnused(r.list, used + Bytes(r.addr, c.Length())) <==> !SlidesInto(l, used, c)
  {
    hide AllocInRegionOf, Canonical, Fits, Serving, Slides, StartIn;
    ServedIs(l, c);
    var k, r, n := Serving(l, c), Do(l, c), c.Length();
    if Slides(l, c) {
      SlideIs(l, k, Interval(r.addr, n));
      SlidKeepsUnusedIff(l, used, k, r.addr, n);
    } else {
      ServingKeepsCanonicalIff(l, c);
    }
  }

  /** A slide moves a region up only, and anything else takes addresses away. */
  lemma ServingStaysAbove(l: seq<Interval>, c: Call, low: nat)
    requires Canonical(l) && c.IsRequest() && Do(l, c).Changed? && forall a: nat | Has(l, a) :: low <= a
    ensures forall a: nat | Has(Do(l, c).list, a) :: low <= a
  {
    hide AllocInRegionOf, Canonical, Fits, Serving, Slides, StartIn, Has;
    ServedIs(l, c);
    var k, r, n := Serving(l, c), Do(l, c), c.Length();
    if Slides(l, c) {
      SlideIs(l, k, Interval(r.addr, n));
      SlidStaysAbove(l, r.list, k, r.addr + n, low);
    } else {
      ServingKeepsCanonicalIff(l, c);
    }
  }

  lemma SlidStaysAbove(l: seq<Interval>, l': seq<Interval>, k: nat, x: Word, low: nat)
    requires Canonical(l) && k < |l| && l[k].start <= x && forall a: nat | Has(l, a) :: low <= a
    requires l' == l[k := Interval(x, l[k].size)]
    ensures forall a: nat | Has(l', a) :: low <= a
  {
    forall i: nat | i < |l| ensures low <= l[i].start {
      assert l[i].Holds(l[i].start);
      assert Has(l, l[i].start);
    }
  }

  /** The request covers the bytes asked for exactly when their number fits in a word. */
  lemma TotalIsBytesIff(pageSize: nat, pageCount: nat)
    ensures Total(pageSize, pageCount) == pageSize * pageCount <==> pageSize * pageCount < WORD
  {
  }

  // ----- Free -----

  /** No address of [x, x + n) is free: the caller owns the run it releases. */
  ghost predicate Disjoint(l: seq<Interval>, x: nat, n: nat) {
    forall a: nat | x <= a < x + n :: !Has(l, a)
  }

  /** Some address stays in use; if none did, the length of the whole space would not fit in a word. */
  ghost predicate LeavesOne(l: seq<Interval>, x: nat, n: nat) {
    exists a: nat :: a < WORD && !Has(l, a) && !(x <= a < x + n)
  }

  lemma SliceHas(l: seq<Interval>, i: nat, j: nat, a: nat)
    requires i <= j <= |l|
    ensures Has(l[i..j], a) ==> Has(l, a)
  {
    if Has(l[i..j], a) {
      var k :| 0 <= k < |l[i..j]| && l[i..j][k].Holds(a);
      assert l[i + k].Holds(a);
    }
  }

  lemma NotWholeSpace(l: seq<Interval>, x: nat, n: nat, i: nat, j: nat, start: nat, size: nat)
    requires LeavesOne(l, x, n) && i <= j <= |l| && start + size <= WORD
    requires forall a: nat | start <= a < start + size :: Has(l[i..j], a) || x <= a < x + n
    ensures size < WORD
  {
    var a: nat :| a < WORD && !Has(l, a) && !(x <= a < x + n);
    SliceHas(l, i, j, a);
  }

  lemma DisjointFromEach(l: seq<Interval>, x: nat, n: nat, i: nat)
    requires Canonical(l) && Disjoint(l, x, n) && 0 < n && i < |l|
    ensures l[i].start + l[i].size <= x || x + n <= l[i].start
  {
    if x < l[i].start + l[i].size && l[i].start < x + n {
      var a := if x <= l[i].start then l[i].start else x;
      assert l[i].Holds(a);
      assert Has(l, a);
    }
  }

  lemma HasOne(v: Interval, a: nat)
    ensures Has([v], a) <==> v.Holds(a)
  {
    assert [v][0] == v;
  }

  lemma HasTwo(v: Interval, w: Interval, a: nat)
    ensures Has([v, w], a) <==> v.Holds(a) || w.Holds(a)
  {
    assert [v, w][0] == v && [v, w][1] == w;
  }

  /** Free adds exactly the released run and coalesces it on both sides. */
  lemma {:induction false} FreeFromAdds(l: seq<Interval>, releasing: Interval, i: nat)
    requires Canonical(l) && releasing.Ok() && Disjoint(l, releasing.start, releasing.size)
    requires LeavesOne(l, releasing.start, releasing.size) && i <= |l|
    requires i > 0 ==> l[i - 1].start + l[i - 1].size < releasing.start
    ensures Canonical(FreeFrom(l, releasing, i)) && Added(l, FreeFrom(l, releasing, i), releasing.start, releasing.size)
    decreases |l| - i
  {
    hide FreeFrom, Absorb, W;
    var x, n := releasing.start, releasing.size;
    if i < |l| {
      DisjointFromEach(l, x, n, i);
    }
    if i == |l| || x + n < l[i].start {
      assert l[i..i] == [];
      SpliceIsAddition(l, i, i, releasing, x, n);
      FreeFromStop(l, releasing, i);
    } else if l[i].start + l[i].size == x {
      FreeBehind(l, releasing, i);
    } else if x + n == l[i].start {
      FreeBefore(l, releasing, i);
    } else {
      FreeFromSkip(l, releasing, i);
      FreeFromAdds(l, releasing, i + 1);
    }
  }

  /** Region i grows to v, which also covers the released run. */
  lemma GrowIsAddition(l: seq<Interval>, i: nat, start: nat, x: nat, n: nat)
    requires Canonical(l) && LeavesOne(l, x, n) && i < |l| && 0 < n && x + n <= WORD
    requires (l[i].start + l[i].size == x && start == l[i].start) || (x + n == l[i].start && start == x)
    requires i > 0 ==> l[i - 1].start + l[i - 1].size < start
    requires i + 1 < |l| ==> start + l[i].size + n < l[i + 1].start
    ensures l[i].size + n < WORD && start < WORD
    ensures var v := Interval(start, l[i].size + n);
      Canonical(Splice(l, i, i + 1, v)) && Added(l, Splice(l, i, i + 1, v), x, n)
  {
    assert l[i..i + 1] == [l[i]];
    forall a: nat ensures Has(l[i..i + 1], a) <==> l[i].Holds(a) { HasOne(l[i], a); }
    NotWholeSpace(l, x, n, i, i + 1, start, l[i].size + n);
    SpliceIsAddition(l, i, i + 1, Interval(start, l[i].size + n), x, n);
  }

  lemma FreeBefore(l: seq<Interval>, releasing: Interval, i: nat)
    requires Canonical(l) && releasing.Ok() && LeavesOne(l, releasing.start, releasing.size) && i < |l|
    requires i > 0 ==> l[i - 1].start + l[i - 1].size < releasing.start
    requires releasing.start + releasing.size == l[i].start
    ensures Canonical(FreeFrom(l, releasing, i)) && Added(l, FreeFrom(l, releasing, i), releasing.start, releasing.size)
  {
    hide Absorb, FreeFrom, W;
    var x, n := releasing.start, releasing.size;
    assert i + 1 < |l| ==> x + l[i].size + n < l[i + 1].start;
    GrowIsAddition(l, i, x, x, n);
    FreeBeforeUnfolds(l, releasing, i);
  }

  lemma FreeBeforeUnfolds(l: seq<Interval>, releasing: Interval, i: nat)
    requires i < |l| && l[i].Ok() && releasing.Ok() && l[i].size + releasing.size < WORD
    requires releasing.start + releasing.size == l[i].start
    ensures FreeFrom(l, releasing, i) == Splice(l, i, i + 1, Interval(releasing.start, l[i].size + releasing.size))
  {
    hide FreeFrom;
    FreeFromPrepend(l, releasing, i);
  }

  lemma FreeBehindUnfolds(l: seq<Interval>, releasing: Interval, i: nat)
    requires i < |l| && l[i].Ok() && releasing.Ok() && l[i].size + releasing.size < WORD
    requires l[i].start + l[i].size == releasing.start
    ensures FreeFrom(l, releasing, i) == l[..i] + Absorb(Interval(l[i].start, l[i].size + releasing.size), l[i + 1..])
  {
    hide Absorb, FreeFrom;
    FreeFromExtend(l, releasing, i);
  }

  /** The released run lies right behind region i, and may close the gap to the next one. */
  lemma FreeBehind(l: seq<Interval>, releasing: Interval, i: nat)
    requires Canonical(l) && releasing.Ok() && Disjoint(l, releasing.start, releasing.size)
    requires LeavesOne(l, releasing.start, releasing.size) && i < |l|
    requires l[i].start + l[i].size == releasing.start
    ensures Canonical(FreeFrom(l, releasing, i)) && Added(l, FreeFrom(l, releasing, i), releasing.start, releasing.size)
  {
    hide Absorb, FreeFrom, W, Canonical, Disjoint, LeavesOne, Added, Splice;
    var x, n := releasing.start, releasing.size;
    NextIsBeyond(l, releasing, i);
    if i + 1 < |l| && x + n == l[i + 1].start {
      CloseGap(l, releasing, i);
    } else {
      GrowIsAddition(l, i, l[i].start, x, n);
      AbsorbsNothing(l, Interval(l[i].start, l[i].size + n), i);
      FreeBehindUnfolds(l, releasing, i);
    }
  }

  lemma NextIsBeyond(l: seq<Interval>, releasing: Interval, i: nat)
    requires Canonical(l) && releasing.Ok() && Disjoint(l, releasing.start, releasing.size)
    requires i < |l| && l[i].start + l[i].size == releasing.start
    ensures l[i].Ok() && (i > 0 ==> l[i - 1].start + l[i - 1].size < l[i].start)
    ensures i + 1 < |l| ==> releasing.start + releasing.size <= l[i + 1].start
  {
    if i + 1 < |l| {
      DisjointFromEach(l, releasing.start, releasing.size, i + 1);
    }
  }

  lemma AbsorbTouching(v: Interval, rest: seq<Interval>)
    requires rest != [] && v.IsAdjacentBehind(rest[0].start)
    ensures Absorb(v, rest) == Absorb(Interval(v.start, W(v.size + rest[0].size)), rest[1..])
  {
  }

  lemma AbsorbApart(v: Interval, rest: seq<Interval>)
    requires rest == [] || !v.IsAdjacentBehind(rest[0].start)
    ensures Absorb(v, rest) == [v] + rest
  {
  }

  lemma AbsorbsNothing(l: seq<Interval>, v: Interval, i: nat)
    requires Canonical(l) && i < |l| && v.Ok() && (i + 1 < |l| ==> v.start + v.size < l[i + 1].start)
    ensures l[..i] + Absorb(v, l[i + 1..]) == Splice(l, i, i + 1, v)
  {
    hide Absorb;
    AbsorbApart(v, l[i + 1..]);
  }

  lemma CloseGap(l: seq<Interval>, releasing: Interval, i: nat)
    requires Canonical(l) && releasing.Ok() && LeavesOne(l, releasing.start, releasing.size) && i + 1 < |l|
    requires l[i].start + l[i].size == releasing.start && releasing.start + releasing.size == l[i + 1].start
    ensures Canonical(FreeFrom(l, releasing, i)) && Added(l, FreeFrom(l, releasing, i), releasing.start, releasing.size)
  {
    hide Absorb, FreeFrom, W;
    var x, n := releasing.start, releasing.size;
    assert l[i..i + 2] == [l[i], l[i + 1]];
    forall a: nat ensures Has(l[i..i + 2], a) <==> l[i].Holds(a) || l[i + 1].Holds(a) { HasTwo(l[i], l[i + 1], a); }
    var size := l[i].size + n + l[i + 1].size;
    NotWholeSpace(l, x, n, i, i + 2, l[i].start, size);
    var w := Interval(l[i].start, size);
    SpliceIsAddition(l, i, i + 2, w, x, n);
    AbsorbsNext(l, Interval(l[i].start, l[i].size + n), i);
    FreeBehindUnfolds(l, releasing, i);
    assert Splice(l, i, i + 2, w) == l[..i] + ([w] + l[i + 2..]);
  }

  lemma AbsorbsNext(l: seq<Interval>, v: Interval, i: nat)
    requires Canonical(l) && i + 1 < |l| && 0 < v.size
    requires v.start + v.size == l[i + 1].start && v.size + l[i + 1].size < WORD
    ensures Absorb(v, l[i + 1..]) == [Interval(v.start, v.size + l[i + 1].size)] + l[i + 2..]
  {
    hide Absorb;
    var w := Interval(v.start, v.size + l[i + 1].size);
    assert l[i + 1..][1..] == l[i + 2..];
    AbsorbTouching(v, l[i + 1..]);
    AbsorbApart(w, l[i + 2..]);
  }

  /** Free keeps the list canonical and adds exactly the released run, also when it ends at 2^64. */
  lemma FreeAdds(l: seq<Interval>, addr: Word, pageSize: nat, pageCount: nat)
    requires Canonical(l) && Interval(addr, Total(pageSize, pageCount)).Ok()
    requires Disjoint(l, addr, Total(pageSize, pageCount)) && LeavesOne(l, addr, Total(pageSize, pageCount))
    ensures var r := FreeOf(l, addr, pageSize, pageCount);
      r.Changed? && Canonical(r.list) && Added(l, r.list, addr, Total(pageSize, pageCount))
  {
    FreeFromAdds(l, Interval(addr, Total(pageSize, pageCount)), 0);
  }

  lemma {:induction false} AbsorbKeepsStart(v: Interval, rest: seq<Interval>)
    ensures Absorb(v, rest) != [] && Absorb(v, rest)[0].start == v.start
    decreases |rest|
  {
    if rest != [] && v.IsAdjacentBehind(rest[0].start) {
      AbsorbKeepsStart(Interval(v.start, W(v.size + rest[0].size)), rest[1..]);
    }
  }

  /** After a slide, Free finds the region behind the released run and makes it longer than it was. */
  lemma {:induction false} SlideIsNotUndone(l: seq<Interval>, k: nat, released: Interval, i: nat)
    requires Canonical(l) && i <= k < |l| && l[k].start == released.start && 0 < released.size < l[k].size
    ensures FreeFrom(l[k := Interval(W(released.start + released.size), l[k].size)], released, i) != l
    decreases k - i
  {
    hide FreeFrom, Absorb, W;
    var slid := Interval(W(released.start + released.size), l[k].size);
    var l' := l[k := slid];
    if i < k {
      assert l'[i] == l[i];
      FreeFromSkip(l', released, i);
      SlideIsNotUndone(l, k, released, i + 1);
    } else {
      SlideIsExtended(l, k, released);
    }
  }

  lemma SlideIsExtended(l: seq<Interval>, k: nat, released: Interval)
    requires Canonical(l) && k < |l| && l[k].start == released.start && 0 < released.size < l[k].size
    ensures FreeFrom(l[k := Interval(W(released.start + released.size), l[k].size)], released, k) != l
  {
    hide FreeFrom, Absorb;
    var slid := Interval(W(released.start + released.size), l[k].size);
    var l' := l[k := slid];
    if slid.IsAdjacentBehind(released.start) {
      var v := Interval(slid.start, W(slid.size + released.size));
      AbsorbKeepsStart(v, l'[k + 1..]);
      FreeFromExtend(l', released, k);
      assert FreeFrom(l', released, k)[k].start == slid.start;
    } else {
      FreeFromPrepend(l', released, k);
      assert FreeFrom(l', released, k)[k].size == W(slid.size + released.size);
    }
  }

  lemma TakenIsDisjoint(l: seq<Interval>, l': seq<Interval>, x: nat, n: nat)
    requires Canonical(l) && Run(l, x, n) && Removed(l, l', x, n) && LeavesOne(l, x, n)
    ensures Disjoint(l', x, n) && LeavesOne(l', x, n)
  {
    var a: nat :| a < WORD && !Has(l, a) && !(x <= a < x + n);
    assert !Has(l', a);
  }

  /** Taking a run out of a region and then freeing it restores the list if and only if no region slid. */
  lemma FreeUndoesTakingIff(l: seq<Interval>, k: nat, requested: Interval)
    requires Canonical(l) && k < |l| && requested.Ok() && l[k].Contains(requested) && LeavesOne(l, 0, 0)
    ensures AllocInRegionOf(l, k, requested).Changed?
    ensures FreeFrom(AllocInRegionOf(l, k, requested).list, requested, 0) == l <==> !l[k].IsMovedBy(requested)
  {
    hide FreeFrom, Absorb;
    var x, n := requested.start, requested.size;
    TakingIsDefined(l, k, requested);
    TakingIsRemovalIff(l, k, requested);
    if l[k].IsMovedBy(requested) {
      SlideIsNotUndone(l, k, requested, 0);
    } else {
      var taken := AllocInRegionOf(l, k, requested).list;
      InsideIsRun(l, k, x, n);
      TakenIsDisjoint(l, taken, x, n) by { LeavesOneOutside(l, x, n); }
      FreeFromAdds(taken, requested, 0);
      FreeUndoesAlloc(l, taken, FreeFrom(taken, requested, 0), x, n);
    }
  }

  lemma LeavesOneOutside(l: seq<Interval>, x: nat, n: nat)
    requires LeavesOne(l, 0, 0) && Run(l, x, n)
    ensures LeavesOne(l, x, n)
  {
    var a: nat :| a < WORD && !Has(l, a) && !(0 <= a < 0 + 0);
    assert !(x <= a < x + n);
  }

  /** Freeing the run that a request was given restores exactly the previous list, if and only if no region slid. */
  lemma FreeUndoesServingIff(l: seq<Interval>, c: Call)
    requires Canonical(l) && c.IsRequest() && LeavesOne(l, 0, 0) && Do(l, c).Changed?
    ensures var r := Do(l, c); FreeOf(r.list, r.addr, c.pageSize, c.pageCount) == Changed(r.addr, l) <==> !Slides(l, c)
  {
    hide FreeFrom, Canonical, AllocInRegionOf, Fits, Serving, Slides;
    ServedIs(l, c);
    var k := Serving(l, c);
    FreeUndoesTakingIff(l, k, Interval(StartIn(l[k], c), c.Length()));
  }

  /** Allocating and then freeing the same run restores exactly the previous list, if and only if no region slid. */
  lemma FreeUndoesAllocIff(l: seq<Interval>, pageSize: nat, pageCount: nat)
    requires Canonical(l) && IsPageSize(pageSize) && 0 < Total(pageSize, pageCount) && LeavesOne(l, 0, 0)
    requires AllocOf(l, pageSize, pageCount).Changed?
    ensures var r := AllocOf(l, pageSize, pageCount);
      FreeOf(r.list, r.addr, pageSize, pageCount) == Changed(r.addr, l) <==> !Slides(l, CallAlloc(pageSize, pageCount))
  {
    hide Canonical, Slides, AllocOf, FreeOf;
    FreeUndoesServingIff(l, CallAlloc(pageSize, pageCount));
  }

  /** The same for a run taken at an address. */
  lemma FreeUndoesAllocAtIff(l: seq<Interval>, start: Word, pageSize: nat, pageCount: nat)
    requires Canonical(l) && IsPageSize(pageSize) && 0 < Total(pageSize, pageCount) && LeavesOne(l, 0, 0)
    requires AllocAtOf(l, start, pageSize, pageCount).Changed?
    ensures var r := AllocAtOf(l, start, pageSize, pageCount);
      FreeOf(r.list, start, pageSize, pageCount) == Changed(start, l) <==> !Slides(l, CallAllocAt(start, pageSize, pageCount))
  {
    hide Canonical, Slides, AllocAtOf, FreeOf;
    FreeUndoesServingIff(l, CallAllocAt(start, pageSize, pageCount));
    ServedIs(l, CallAllocAt(start, pageSize, pageCount));
  }

  // ----- runs -----

  /** Requests are page-sized and non-empty; only runs that are in use are freed. */
  ghost predicate IsProper(l: seq<Interval>, c: Call) {
    && (!c.CallFree? ==> c.IsRequest())
    && (!c.CallAlloc? ==> Interval(c.at, c.Length()).Ok())
    && (c.CallFree? ==> Disjoint(l, c.at, c.Length()) && LeavesOne(l, c.at, c.Length()))
  }

  /** The page sizes of all requests are page sizes. */
  ghost predicate AreSized(calls: seq<Call>) {
    forall c | c in calls :: c.CallFree? || IsPageSize(c.pageSize)
  }

  ghost function RunList(l: seq<Interval>, calls: seq<Call>): seq<Interval>
    requires AreSized(calls)
    decreases |calls|
  {
    if calls == [] then l else
    match Do(l, calls[0])
    case Changed(_, l') => RunList(l', calls[1..])
    case Refused => RunList(l, calls[1..])
    case Panicked => l
  }

  predicate InRun(a: nat, x: nat, n: nat) {
    x <= a < x + n
  }

  ghost function Bytes(x: nat, n: nat): iset<nat> {
    iset a: nat | InRun(a, x, n)
  }

  /** Every call respects the contract, and no request slides a region. */
  ghost predicate IsProperRun(l: seq<Interval>, calls: seq<Call>)
    decreases |calls|
  {
    calls == [] || (
      && IsProper(l, calls[0]) && (!calls[0].CallFree? ==> !Slides(l, calls[0]))
      && match Do(l, calls[0])
        case Panicked => false
        case Refused => IsProperRun(l, calls[1..])
        case Changed(_, l') => IsProperRun(l', calls[1..]))
  }

  lemma {:induction false} ProperIsSized(l: seq<Interval>, calls: seq<Call>)
    requires IsProperRun(l, calls)
    ensures AreSized(calls)
    decreases |calls|
  {
    if calls != [] {
      var r := Do(l, calls[0]);
      ProperIsSized(if r.Changed? then r.list else l, calls[1..]);
    }
  }

  /** The free addresses after a run, tracked as a set: requests take their run out, Free puts it back. */
  ghost function RunAddresses(l: seq<Interval>, free: iset<nat>, calls: seq<Call>): iset<nat>
    requires AreSized(calls)
    decreases |calls|
  {
    if calls == [] then free else
    match Do(l, calls[0])
    case Changed(addr, l') =>
      var run := Bytes(addr, calls[0].Length());
      RunAddresses(l', if calls[0].CallFree? then free + run else free - run, calls[1..])
    case Refused => RunAddresses(l, free, calls[1..])
    case Panicked => free
  }

  /** Over runs without a slide the list stays canonical and denotes exactly the addresses the calls leave free. */
  lemma {:induction false} RunKeepsCanonical(l: seq<Interval>, free: iset<nat>, calls: seq<Call>)
    requires Canonical(l) && IsProperRun(l, calls) && forall a: nat :: Has(l, a) <==> a in free
    ensures AreSized(calls) && Canonical(RunList(l, calls))
    ensures forall a: nat :: Has(RunList(l, calls), a) <==> a in RunAddresses(l, free, calls)
    decreases |calls|
  {
    hide Canonical, Slides, AllocOf, AllocAtOf, FreeOf;
    ProperIsSized(l, calls);
    if calls != [] {
      var c, r := calls[0], Do(l, calls[0]);
      if r.Changed? {
        if c.CallFree? { FreeAdds(l, c.at, c.pageSize, c.pageCount); } else { ServingKeepsCanonicalIff(l, c); }
        FreedIs(l, c);
        var run := Bytes(r.addr, c.Length());
        RunKeepsCanonical(r.list, if c.CallFree? then free + run else free - run, calls[1..]);
      } else {
        RunKeepsCanonical(l, free, calls[1..]);
      }
    }
  }

  lemma FreedIs(l: seq<Interval>, c: Call)
    ensures c.CallFree? && Do(l, c).Changed? ==> Do(l, c).addr == c.at
  {
  }

  /** Only used runs are freed, and a region slides only where it has room behind it. */
  ghost predicate IsSafeCall(l: seq<Interval>, used: iset<nat>, c: Call) {
    if c.CallFree? then
      && Interval(c.at, c.Length()).Ok() && LeavesOne(l, c.at, c.Length())
      && forall a: nat | InRun(a, c.at, c.Length()) :: a in used
    else c.IsRequest() && !SlidesInto(l, used, c)
  }

  /** The addresses in use after a call. */
  ghost function UsedAfter(l: seq<Interval>, used: iset<nat>, c: Call): iset<nat>
    requires c.CallFree? || IsPageSize(c.pageSize)
  {
    var r := Do(l, c);
    if !r.Changed? then used
    else if c.CallFree? then used - Bytes(r.addr, c.Length())
    else used + Bytes(r.addr, c.Length())
  }

  ghost predicate AreSafeCalls(l: seq<Interval>, used: iset<nat>, calls: seq<Call>)
    decreases |calls|
  {
    calls == [] || (
      && IsSafeCall(l, used, calls[0]) && !Do(l, calls[0]).Panicked?
      && var r := Do(l, calls[0]);
        AreSafeCalls(if r.Changed? then r.list else l, UsedAfter(l, used, calls[0]), calls[1..]))
  }

  lemma {:induction false} SafeIsSized(l: seq<Interval>, used: iset<nat>, calls: seq<Call>)
    requires AreSafeCalls(l, used, calls)
    ensures AreSized(calls)
    decreases |calls|
  {
    if calls != [] {
      var r := Do(l, calls[0]);
      SafeIsSized(if r.Changed? then r.list else l, UsedAfter(l, used, calls[0]), calls[1..]);
    }
  }

  ghost function RunUsed(l: seq<Interval>, used: iset<nat>, calls: seq<Call>): iset<nat>
    requires AreSized(calls)
    decreases |calls|
  {
    if calls == [] || Do(l, calls[0]).Panicked? then used else
    var r := Do(l, calls[0]);
    RunUsed(if r.Changed? then r.list else l, UsedAfter(l, used, calls[0]), calls[1..])
  }

  lemma CallKeepsUnused(l: seq<Interval>, used: iset<nat>, c: Call)
    requires Canonical(l) && IsUnused(l, used) && IsSafeCall(l, used, c) && Do(l, c).Changed?
    ensures Canonical(Do(l, c).list) && IsUnused(Do(l, c).list, UsedAfter(l, used, c))
  {
    hide Canonical, SlidesInto, AllocOf, AllocAtOf, FreeOf;
    if c.CallFree? {
      FreedIs(l, c);
      forall a: nat | InRun(a, c.at, c.Length()) ensures !Has(l, a) { }
      FreeAdds(l, c.at, c.pageSize, c.pageCount);
    } else {
      ServingKeepsUnusedIff(l, used, c);
    }
  }

  /** Over runs in which regions slide only where they have room the list stays canonical, and no used address is free. */
  lemma {:induction false} RunKeepsUnused(l: seq<Interval>, used: iset<nat>, calls: seq<Call>)
    requires Canonical(l) && IsUnused(l, used) && AreSafeCalls(l, used, calls)
    ensures AreSized(calls) && Canonical(RunList(l, calls)) && IsUnused(RunList(l, calls), RunUsed(l, used, calls))
    decreases |calls|
  {
    hide Canonical, IsUnused, IsSafeCall, Do, UsedAfter;
    SafeIsSized(l, used, calls);
    if calls != [] {
      var r := Do(l, calls[0]);
      if r.Changed? { CallKeepsUnused(l, used, calls[0]); } else { RefusedUsesNone(l, used, calls[0]); }
      RunKeepsUnused(if r.Changed? then r.list else l, UsedAfter(l, used, calls[0]), calls[1..]);
    }
  }

  lemma RefusedUsesNone(l: seq<Interval>, used: iset<nat>, c: Call)
    requires (c.CallFree? || IsPageSize(c.pageSize)) && !Do(l, c).Changed?
    ensures UsedAfter(l, used, c) == used
  {
  }
}
