/** Tlb::Invlpgs: which cached translations one call drops on the processor that runs it. */
module Invlpg {
  import opened Words
  import opened Addresses

  /** A cached translation of a 4 KiB or 2 MiB page. */
  datatype Cached = Cached(page: nat, size: nat, global: bool) {
    predicate Ok() {
      (size == 0x1000 || size == 0x200000) && page % size == 0 && page + size <= WORD
    }

    predicate Meets(start: nat, n: nat) {
      0 < n && page < start + n && start < page + size
    }
  }

  /** Above this many bytes everything is dropped at once. */
  const FLUSH_LIMIT: nat := 0x200000

  predicate ArePages(start: nat, n: nat) {
    start < WORD && n < WORD && start % 0x1000 == 0 && n % 0x1000 == 0
  }

  /** What is still cached after a call. */
  ghost function Kept(tlb: set<Cached>, start: nat, size: nat): set<Cached> {
    var end := (start + size) % WORD;
    if size > FLUSH_LIMIT then
      // toggling CR4.PGE drops everything, reloading CR3 spares the global entries
      if end < KERNEL_END then {} else set c | c in tlb && c.global
    else if end <= start then tlb
    else set c | c in tlb && !c.Meets(start, end - start)
  }

  method Invlpgs(tlb: set<Cached>, start: nat, size: nat) returns (kept: set<Cached>)
    requires ArePages(start, size) && forall c | c in tlb :: c.Ok()
    ensures kept == Kept(tlb, start, size)
  {
    var end := (start + size) % WORD;
    if size > FLUSH_LIMIT {
      if end < KERNEL_END {
        return {};
      } else {
        return set c | c in tlb && c.global;
      }
    }
    EndIsAligned(start, size);
    kept := DropPages(tlb, start, end);
  }

  /** One invlpg for each 4 KiB page. */
  method DropPages(tlb: set<Cached>, start: nat, end: nat) returns (kept: set<Cached>)
    requires start % 0x1000 == 0 && end % 0x1000 == 0 && forall c | c in tlb :: c.Ok()
    ensures kept == if end <= start then tlb else set c | c in tlb && !c.Meets(start, end - start)
  {
    kept := tlb;
    var addr := start;
    while addr < end
      invariant addr % 0x1000 == 0 && start <= addr && (addr <= end || addr == start)
      invariant forall c | c in tlb :: c in kept <==> !c.Meets(start, addr - start)
      invariant kept <= tlb
    {
      forall c | c in tlb
        ensures !c.Meets(start, addr + 0x1000 - start) <==> !c.Meets(start, addr - start) && !(c.page <= addr < c.page + c.size)
      {
        PageHolds(c, start, addr);
      }
      NextPage(addr, end);
      kept := set c | c in kept && !(c.page <= addr < c.page + c.size);
      addr := addr + 0x1000;
    }
  }

  lemma EndIsAligned(start: nat, size: nat)
    requires ArePages(start, size)
    ensures (start + size) % WORD % 0x1000 == 0
  {
    var end := (start + size) % WORD;
    assert end == start + size || end == start + size - WORD;
  }

  lemma NextPage(addr: nat, end: nat)
    requires addr % 0x1000 == 0 && end % 0x1000 == 0 && addr < end
    ensures (addr + 0x1000) % 0x1000 == 0 && addr + 0x1000 <= end
  {
    assert addr == 0x1000 * (addr / 0x1000) && end == 0x1000 * (end / 0x1000);
  }

  /** An entry meets one more 4 KiB page exactly when it translates its first byte. */
  lemma PageHolds(c: Cached, start: nat, addr: nat)
    requires c.Ok() && addr % 0x1000 == 0 && start <= addr
    ensures c.Meets(start, addr + 0x1000 - start) <==> c.Meets(start, addr - start) || c.page <= addr < c.page + c.size
  {
    StartIsAligned(c);
    assert addr == 0x1000 * (addr / 0x1000);
    assert c.page == 0x1000 * (c.page / 0x1000) && c.size == 0x1000 * (c.size / 0x1000);
    WholePages(c.page / 0x1000, c.size / 0x1000, addr / 0x1000);
  }

  lemma WholePages(p: nat, n: nat, a: nat)
    ensures 0x1000 * p < 0x1000 * a + 0x1000 <==> p <= a
    ensures 0x1000 * a < 0x1000 * p + 0x1000 * n <==> a < p + n
  {
  }

  lemma StartIsAligned(c: Cached)
    requires c.Ok()
    ensures c.page % 0x1000 == 0 && c.size % 0x1000 == 0
  {
    if c.size == 0x200000 {
      var k := c.page / 0x200000;
      assert c.page == 0x1000 * (512 * k);
      MultipleMod(0x1000, 512 * k);
    }
  }

  /** Only kernel pages are mapped global. */
  ghost predicate OnlyKernelGlobals(tlb: set<Cached>) {
    forall c | c in tlb :: c.Ok() && (c.global ==> c.page + c.size <= KERNEL_END)
  }

  ghost predicate DropsRange(tlb: set<Cached>, start: nat, size: nat) {
    forall c | c in Kept(tlb, start, size) :: !c.Meets(start, size)
  }

  /** A range that one call drops from every TLB. */
  predicate IsCovered(start: nat, size: nat) {
    || size == 0
    || (size <= FLUSH_LIMIT && start + size < WORD)
    || (size > FLUSH_LIMIT && ((start + size) % WORD < KERNEL_END || KERNEL_END <= start))
  }

  /**
   A call drops its range from every TLB exactly for these ranges.  Large kernel ranges that reach the
   end of kernel space and small ranges that reach the end of the address space are not among them.
  */
  lemma CallCoversIff(start: nat, size: nat)
    requires ArePages(start, size)
    ensures (forall tlb | OnlyKernelGlobals(tlb) :: DropsRange(tlb, start, size)) <==> IsCovered(start, size)
  {
    if IsCovered(start, size) {
      forall tlb | OnlyKernelGlobals(tlb) ensures DropsRange(tlb, start, size) {
        CoveredIsDropped(tlb, start, size);
      }
    } else {
      var c := Cached(start, 0x1000, start < KERNEL_END);
      assert c in Kept({c}, start, size) && c.Meets(start, size);
      assert OnlyKernelGlobals({c}) && !DropsRange({c}, start, size);
    }
  }

  /** The numbers: outside the range everything stays up to 2 MiB, and nothing that is not global above that. */
  lemma OutsideStaysIff(c: Cached, start: nat, size: nat)
    requires !c.Meets(start, size) && !c.global && start + size < WORD
    ensures c in Kept({c}, start, size) <==> size <= 0x200000
  {
  }

  /** A large flush spares the global entries of its range if and only if the range ends at 0x8000000000 or behind. */
  lemma GlobalsStayIff(c: Cached, start: nat, size: nat)
    requires c.Meets(start, size) && c.global && start + size < WORD && 0x200000 < size
    ensures c in Kept({c}, start, size) <==> 0x8000000000 <= start + size
  {
  }

  lemma CoveredIsDropped(tlb: set<Cached>, start: nat, size: nat)
    requires ArePages(start, size) && IsCovered(start, size) && OnlyKernelGlobals(tlb)
    ensures DropsRange(tlb, start, size)
  {
  }
}
