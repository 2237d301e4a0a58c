/** Virtual addresses and the slots they select in the four tables. */
module Addresses {
  import opened PageTree
  import opened Words

  const KERNEL_END: nat := 0x8000000000
  const USER_END: nat := 0xFFFFFF8000000000
  /** The canonical hole: bits 48 to 63 of an address repeat bit 47. */
  const LOW_END: nat := 0x8000_0000_0000
  const HIGH_START: nat := 0xFFFF_8000_0000_0000

  /** The slot indices of an address; bits 48 and up are dropped. */
  function Indices(addr: nat): (ix: Path)
    ensures |ix| == 4 && forall k | 0 <= k < 4 :: ix[k] < 512
  {
    [addr / 0x8000000000 % 512, addr / 0x40000000 % 512, addr / 0x200000 % 512, addr / 0x1000 % 512]
  }

  /** Bytes covered by one slot of a depth-d table. */
  function Span(d: nat): (n: nat)
    requires d <= 3
    ensures n > 0
  {
    if d == 0 then 0x8000000000 else if d == 1 then 0x40000000 else if d == 2 then 0x200000 else 0x1000
  }

  predicate IsKernel(a: nat) { a < KERNEL_END }

  /** The first root slot a page table is responsible for: 0 for the kernel's, 1 for a user's. */
  type FirstSlot = n: nat | n <= 1

  /** Canonical addresses from that slot on, up to the self-map. */
  predicate IsManaged(lo: FirstSlot, a: nat) {
    lo * KERNEL_END <= a < LOW_END || HIGH_START <= a < USER_END
  }

  /** The page number an index prefix spells, in base 512. */
  function Number(ix: Path, d: nat): nat
    requires |ix| == 4 && d <= 3
  {
    if d == 0 then ix[0] else 512 * Number(ix, d - 1) + ix[d]
  }

  lemma {:induction false} NumberDecides(x: Path, y: Path, d: nat)
    requires |x| == 4 && |y| == 4 && d <= 3
    requires forall k | 0 <= k < 4 :: x[k] < 512 && y[k] < 512
    ensures SamePage(x, y, d) <==> Number(x, d) == Number(y, d)
  {
    if d == 0 {
      assert x[..1] == [x[0]] && y[..1] == [y[0]];
    } else {
      NumberDecides(x, y, d - 1);
      assert x[..d + 1] == x[..d] + [x[d]] && y[..d + 1] == y[..d] + [y[d]];
      assert x[..d + 1][..d] == x[..d] && y[..d + 1][..d] == y[..d];
      assert x[..d + 1][d] == x[d] && y[..d + 1][d] == y[d];
    }
  }

  /** Dropping the canonical bits changes no digit. */
  lemma DigitOf(a: nat, s: nat, e: nat)
    requires 0 < s && s * (512 * e) == 0x1_0000_0000_0000
    ensures a / s % 512 == a % 0x1_0000_0000_0000 / s % 512
  {
    var q, r := a / 0x1_0000_0000_0000, a % 0x1_0000_0000_0000;
    var u, v := r / s, r % s;
    assert a == (s * (512 * e)) * q + r && r == s * u + v;
    assert a == s * (u + 512 * (e * q)) + v by {
      assert (s * (512 * e)) * q == s * (512 * (e * q));
      assert s * (u + 512 * (e * q)) == s * u + s * (512 * (e * q));
    }
    DivModUnique(a, s, u + 512 * (e * q), v);
    AddMultiple(u, 512, e * q);
  }

  lemma Digit0(a: nat)
    ensures a / 0x8000000000 % 512 == a % 0x1_0000_0000_0000 / 0x8000000000
  {
    DigitOf(a, 0x8000000000, 1);
    TopDigit(a % 0x1_0000_0000_0000);
  }

  lemma TopDigit(r: nat)
    requires r < 0x1_0000_0000_0000
    ensures r / 0x8000000000 < 512
  {
    var u, v := r / 0x8000000000, r % 0x8000000000;
    assert r == 0x8000000000 * u + v;
  }

  lemma Digit1(a: nat)
    ensures a / 0x40000000 % 512 == a % 0x1_0000_0000_0000 / 0x40000000 % 512
  {
    DigitOf(a, 0x40000000, 512);
  }

  lemma Digit2(a: nat)
    ensures a / 0x200000 % 512 == a % 0x1_0000_0000_0000 / 0x200000 % 512
  {
    DigitOf(a, 0x200000, 512 * 512);
  }

  lemma Digit3(a: nat)
    ensures a / 0x1000 % 512 == a % 0x1_0000_0000_0000 / 0x1000 % 512
  {
    DigitOf(a, 0x1000, 512 * 512 * 512);
  }

  lemma Nested(r: nat)
    ensures r / 0x40000000 / 512 == r / 0x8000000000
    ensures r / 0x200000 / 512 == r / 0x40000000
    ensures r / 0x1000 / 512 == r / 0x200000
  {
    DivDiv(r, 0x40000000, 512);
    DivDiv(r, 0x200000, 512);
    DivDiv(r, 0x1000, 512);
  }

  lemma {:induction false} NumberOf(a: nat, d: nat)
    requires d <= 3
    ensures Number(Indices(a), d) == a % 0x1_0000_0000_0000 / Span(d)
  {
    var r := a % 0x1_0000_0000_0000;
    Nested(r);
    if d > 0 { NumberOf(a, d - 1); }
    if d == 0 { Digit0(a); } else if d == 1 { Digit1(a); } else if d == 2 { Digit2(a); } else { Digit3(a); }
  }

  lemma SamePageIff(x: nat, a: nat, d: nat)
    requires d <= 3
    ensures SamePage(Indices(x), Indices(a), d) <==>
      x % 0x1_0000_0000_0000 / Span(d) == a % 0x1_0000_0000_0000 / Span(d)
  {
    NumberDecides(Indices(x), Indices(a), d);
    NumberOf(x, d);
    NumberOf(a, d);
  }

  lemma PageLow(a: nat, x: nat, d: nat)
    requires a < 0x1_0000_0000_0000 && x < 0x1_0000_0000_0000 && d <= 3 && a % Span(d) == 0
    ensures SamePage(Indices(x), Indices(a), d) <==> a <= x < a + Span(d)
  {
    hide Indices, SamePage, Span;
    SamePageIff(x, a, d);
    InPage(x, a, Span(d));
  }

  /** Addresses in the upper half lose this much to the canonical bits. */
  const HIGH_BITS: nat := 0xFFFF_0000_0000_0000

  lemma DropHigh(a: nat, d: nat)
    requires HIGH_START <= a < USER_END && d <= 3
    ensures a % 0x1_0000_0000_0000 == a - HIGH_BITS
    ensures a % Span(d) == 0 ==> (a - HIGH_BITS) % Span(d) == 0
  {
    AddMultiple(a - HIGH_BITS, 0x1_0000_0000_0000, 0xFFFF);
    SmallMod(a - HIGH_BITS, 0x1_0000_0000_0000);
    AddMultiple(a - HIGH_BITS, Span(d), HighPages(d));
  }

  /** The canonical bits are a whole number of pages of each size. */
  function HighPages(d: nat): (n: nat)
    requires d <= 3
    ensures Span(d) * n == HIGH_BITS
  {
    if d == 0 then 0x1FFFE00 else if d == 1 then 0x3FFFC0000 else if d == 2 then 0x7FFF8000000 else 0xFFFF000000000
  }

  lemma SmallMod(x: nat, m: nat)
    requires x < m
    ensures x % m == x
  {
    DivModUnique(x, m, 0, x);
  }

  lemma PageHigh(a: nat, x: nat, d: nat)
    requires HIGH_START <= a < USER_END && HIGH_START <= x < USER_END && d <= 3 && a % Span(d) == 0
    ensures SamePage(Indices(x), Indices(a), d) <==> a <= x < a + Span(d)
  {
    hide Indices, SamePage, Span;
    SamePageIff(x, a, d);
    DropHigh(a, d);
    DropHigh(x, d);
    InPage(x - HIGH_BITS, a - HIGH_BITS, Span(d));
  }

  lemma InPage(x: nat, a: nat, n: nat)
    requires n > 0 && a % n == 0
    ensures x / n == a / n <==> a <= x < a + n
  {
    var k := a / n;
    assert a == n * k;
    if a <= x < a + n {
      DivModUnique(x, n, k, x - a);
    } else {
      assert x == n * (x / n) + x % n;
    }
  }

  /** The halves of the address space share no slot of the root. */
  lemma PageApart(a: nat, x: nat, d: nat)
    requires a < LOW_END && HIGH_START <= x < USER_END && d <= 3
    ensures !SamePage(Indices(x), Indices(a), d) && !SamePage(Indices(a), Indices(x), d)
  {
    assert Indices(a)[0] < 256 <= Indices(x)[0];
    assert Indices(a)[..d + 1][0] == Indices(a)[0] && Indices(x)[..d + 1][0] == Indices(x)[0];
  }

  /** An aligned page is the addresses that share its slot. */
  lemma PageSpan(lo: FirstSlot, a: nat, x: nat, d: nat)
    requires IsManaged(lo, a) && IsManaged(lo, x) && d <= 3 && a % Span(d) == 0
    ensures SamePage(Indices(x), Indices(a), d) <==> a <= x < a + Span(d)
  {
    hide Indices, SamePage;
    PageEnds(a, d);
    if a < LOW_END && x < LOW_END {
      PageLow(a, x, d);
    } else if a < LOW_END {
      PageApart(a, x, d);
    } else if x < LOW_END {
      PageApart(x, a, d);
    } else {
      PageHigh(a, x, d);
    }
  }

  lemma PageEnds(a: nat, d: nat)
    requires IsManaged(0, a) && d <= 3 && a % Span(d) == 0
    ensures a < LOW_END ==> a + Span(d) <= LOW_END
    ensures HIGH_START <= a ==> a + Span(d) <= USER_END
  {
    EndsAreAligned(d);
    hide Span;
    AlignedBelow(a, if a < LOW_END then LOW_END else USER_END, Span(d));
  }

  lemma EndsAreAligned(d: nat)
    requires d <= 3
    ensures LOW_END % Span(d) == 0 && USER_END % Span(d) == 0 && KERNEL_END % Span(d) == 0
  {
  }

  lemma KernelPage(a: nat, x: nat, d: nat)
    requires IsKernel(a) && IsKernel(x) && d <= 3 && a % Span(d) == 0
    ensures SamePage(Indices(x), Indices(a), d) <==> a <= x < a + Span(d)
  {
    hide Indices, SamePage, Span;
    PageLow(a, x, d);
  }

  /** The managed addresses are those whose first index lies between lo and the self-map's. */
  lemma ManagedIndices(lo: FirstSlot, a: nat)
    requires a < LOW_END || HIGH_START <= a < 0x1_0000_0000_0000_0000
    ensures IsManaged(lo, a) <==> lo <= Indices(a)[0] < 511
  {
    hide Indices;
    TopIndex(a);
    if a < LOW_END {
      TopLow(a);
    } else {
      TopHigh(a - HIGH_BITS);
      assert a % 0x1_0000_0000_0000 == a - HIGH_BITS;
    }
  }

  lemma TopIndex(a: nat)
    ensures Indices(a)[0] == a % 0x1_0000_0000_0000 / 0x8000000000
  {
    Digit0(a);
  }

  lemma TopLow(a: nat)
    requires a < LOW_END
    ensures a % 0x1_0000_0000_0000 == a && a / 0x8000000000 < 256
    ensures 1 <= a / 0x8000000000 <==> 0x8000000000 <= a
  {
  }

  lemma TopHigh(r: nat)
    requires LOW_END <= r < 0x1_0000_0000_0000
    ensures 256 <= r / 0x8000000000 && (r / 0x8000000000 < 511 <==> r < 511 * 0x8000000000)
  {
  }

  /** The paths of the addresses a tree with first slot lo is responsible for. */
  predicate IsPathFrom(lo: FirstSlot, ix: Path) {
    |ix| == 4 && (forall k | 0 <= k < 4 :: ix[k] < 512) && lo <= ix[0] < 511
  }

  lemma NumberBound(ix: Path, d: nat)
    requires |ix| == 4 && d <= 3 && forall k | 0 <= k < 4 :: ix[k] < 512
    ensures 0x8000000 * ix[0] <= Number(ix, 3) < 0x8000000 * (ix[0] + 1)
  {
    assert Number(ix, 1) == 512 * ix[0] + ix[1];
    assert Number(ix, 2) == 512 * Number(ix, 1) + ix[2];
  }

  /** Every path is the path of a canonical address. */
  lemma AddressOfPath(lo: FirstSlot, ix: Path) returns (a: nat)
    requires IsPathFrom(lo, ix)
    ensures IsManaged(lo, a) && Indices(a) == ix
  {
    hide Indices, SamePage;
    NumberBound(ix, 3);
    var low := 0x1000 * Number(ix, 3);
    a := if ix[0] < 256 then low else HIGH_BITS + low;
    LowBits(low);
    NumberOf(a, 3);
    NumberDecides(Indices(a), ix, 3);
    SamePageIsEqual(Indices(a), ix);
  }

  lemma LowBits(low: nat)
    requires low < 0x1_0000_0000_0000
    ensures low % 0x1_0000_0000_0000 == low && (HIGH_BITS + low) % 0x1_0000_0000_0000 == low
  {
    AddMultiple(low, 0x1_0000_0000_0000, 0xFFFF);
  }

  lemma SamePageIsEqual(x: Path, y: Path)
    requires |x| == 4 && |y| == 4 && SamePage(x, y, 3)
    ensures x == y
  {
    assert x[..4] == x && y[..4] == y;
  }
}
