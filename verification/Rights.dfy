/** Access rights and read-back of what the memory maps put into a page table. */
module AccessRights {
  import opened PageTree
  import opened TreeWalks
  import opened PageLists
  import opened FlatMaps
  import opened Addresses
  import opened PageTables
  import opened PhysicalWords
  import opened Words

  datatype Rights = Rights(user: bool, writable: bool, executable: bool) {
    function And(other: Rights): Rights {
      Rights(user && other.user, writable && other.writable, executable && other.executable)
    }
  }

  /** A global translation stays cached over a CR3 load. */
  const GLOBAL: bv64 := 0x100

  function RightsOf(e: Entry): Rights {
    Rights(e & 4 != 0, e & 2 != 0, e & NO_EXECUTE == 0)
  }

  /** An access needs its right at every level from k down to the leaf (section 4.6 of Intel SDM Volume 3A). */
  ghost function Effective(t: Tree, ix: Path, k: nat): Rights
    requires Wf(t) && IsAddress(t, ix) && k <= LeafDepth(t, ix)
    decreases 3 - k
  {
    LeafPath(t, ix);
    if k == LeafDepth(t, ix) then RightsOf(SlotEntryOf(t, ix))
    else RightsOf(At(t, ix[..k], ix[k])).And(Effective(t, ix, k + 1))
  }

  lemma CarriesAll(e: Entry)
    requires Carries(e, 7)
    ensures RightsOf(e) == Rights(true, true, true)
  {
    assert e & 7 == 7 ==> e & 4 != 0 && e & 2 != 0;
  }

  /** With parents that carry mask 7 the rights of a page are those of its leaf. */
  lemma {:induction false} EffectiveIsLeaf(t: Tree, ix: Path, k: nat)
    requires Wf(t) && Masked(t, 7) && IsAddress(t, ix) && k <= LeafDepth(t, ix)
    ensures Effective(t, ix, k) == RightsOf(SlotEntryOf(t, ix))
    decreases 3 - k
  {
    hide RightsOf, Carries, IsTable, IsFrame, AddressOf;
    LeafPath(t, ix);
    if k < LeafDepth(t, ix) {
      assert ix[..k + 1] == ix[..k] + [ix[k]];
      assert PointerOk(t, ix[..k], ix[k]) && MaskedAt(t, ix[..k], ix[k], 7);
      CarriesAll(At(t, ix[..k], ix[k]));
      EffectiveIsLeaf(t, ix, k + 1);
    }
  }

  /** So what the processor grants at an address is what its leaf says. */
  lemma EffectiveOfLeaf(t: Tree, ix: Path)
    requires Wf(t) && Masked(t, 7) && IsAddress(t, ix) && PagesOf(t)[ix].Leaf?
    ensures Effective(t, ix, 0) == RightsOf(PagesOf(t)[ix].entry)
  {
    EffectiveIsLeaf(t, ix, 0);
  }

  // ----- entries of a list -----

  predicate IsPhysical(p: bv64, d: nat) {
    if d == 3 then IsFrame(Frame(p)) else IsLargeFrame(p)
  }

  /** The first n pages from phys on are aligned and lie below 2^63. */
  ghost predicate ArePhysical(phys: bv64, d: nat, n: nat)
    requires d <= 3
  {
    forall j | 0 <= j < n :: IsPhysical(EntryAt(phys, d, j), d)
  }

  lemma IsPhysicalIff(a: nat, d: nat)
    requires a < WORD && 2 <= d <= 3
    ensures IsPhysical(WordOf(a), d) <==> a % Span(d) == 0 && a < 0x8000_0000_0000_0000
  {
    hide WordOf, IsFrame, IsLargeFrame;
    IsFrameIff(a);
  }

  /** Any aligned run of physical memory below 2^63 will do for a list. */
  lemma AlignedIsPhysical(p: nat, d: nat, n: nat)
    requires 2 <= d <= 3 && p % Span(d) == 0 && p + n * Span(d) <= 0x8000_0000_0000_0000
    ensures ArePhysical(WordOf(p), d, n)
  {
    hide WordOf, EntryAt, IsPhysical, Span;
    forall j: nat | j < n ensures IsPhysical(EntryAt(WordOf(p), d, j), d) {
      EntryIsWord(p, d, j);
      ProductStep(Span(d), j, n);
      AddMultiple(p, Span(d), j);
      IsPhysicalIff(p + j * Span(d), d);
    }
  }

  lemma MaskIsSum(p: bv64, mask: bv64, d: nat)
    requires IsPhysical(p, d) && mask & ADDRESS_BITS == 0
    ensures WithMask(p, mask) == Sum(p, mask)
  {
    assert p & mask == 0;
    OrIsSum(p, mask);
  }

  lemma OrIsSum(a: bv64, b: bv64)
    requires a & b == 0
    ensures a | b == a + b
  {
  }

  lemma NextKeepsMask(p: bv64, mask: bv64, d: nat)
    requires 2 <= d <= 3 && IsPhysical(p, d) && IsPhysical(NextEntry(p, d), d) && mask & ADDRESS_BITS == 0
    ensures NextEntry(WithMask(p, mask), d) == WithMask(NextEntry(p, d), mask)
  {
    hide IsPhysical, Sum, SpanBits, WithMask;
    MaskIsSum(p, mask, d);
    MaskIsSum(NextEntry(p, d), mask, d);
    SumCommutes(p, mask, SpanBits(d));
  }

  /** The flags of the first entry reach every entry of the list. */
  lemma {:induction false} EntryKeepsMask(phys: bv64, mask: bv64, d: nat, i: nat)
    requires 2 <= d <= 3 && ArePhysical(phys, d, i + 1) && mask & ADDRESS_BITS == 0
    ensures EntryAt(WithMask(phys, mask), d, i) == WithMask(EntryAt(phys, d, i), mask)
  {
    hide NextEntry, WithMask, IsPhysical;
    if i > 0 {
      EntryKeepsMask(phys, mask, d, i - 1);
      assert IsPhysical(EntryAt(phys, d, i - 1), d) && IsPhysical(EntryAt(phys, d, i), d);
      NextKeepsMask(EntryAt(phys, d, i - 1), mask, d);
    }
  }

  /** The flags of an entry, one by one. */
  predicate HasFlag(e: Entry, flag: bv64) { e & flag != 0 }

  lemma MaskFlags(pageSize: nat, kernel: bool, attributes: Attributes)
    ensures var mask := CalcMask(pageSize, kernel, attributes);
      && HasFlag(mask, 1) && (HasFlag(mask, 2) <==> attributes.writable) && (HasFlag(mask, 4) <==> !kernel)
      && (HasFlag(mask, 0x80) <==> pageSize != 0x1000) && (HasFlag(mask, NO_EXECUTE) <==> !attributes.executable)
  {
  }

  /** Nothing else is set: no cache control, and no address. */
  lemma MaskHasOnly(pageSize: nat, kernel: bool, attributes: Attributes)
    ensures CalcMask(pageSize, kernel, attributes) & 0x7FFF_FFFF_FFFF_FE78 == 0
    ensures HasFlag(CalcMask(pageSize, kernel, attributes), 0x100) <==> kernel
  {
  }

  /**
   What Read finds: nothing at a slot that is zero, nor at an entry above a 4 KiB table without bit 7, nor
   at one in a 4 KiB table with neither bit 7 nor bit 0.
  */
  lemma ReadFindsIff(leaf: Leaf)
    ensures ReadOf(leaf).NotMapped? <==>
      leaf.NoLeaf? || (leaf.entry & 0x80 == 0 && (leaf.depth != 3 || leaf.entry & 1 == 0))
    ensures ReadOf(leaf).TooLarge? <==> !ReadOf(leaf).NotMapped? && (leaf.depth < 2 || 3 < leaf.depth)
  {
  }

  predicate IsFlag(flag: bv64) { flag & ADDRESS_BITS == 0 }

  lemma FlagsAreFlags()
    ensures IsFlag(1) && IsFlag(2) && IsFlag(4) && IsFlag(0x80) && IsFlag(NO_EXECUTE)
  {
  }

  /** An address has no flags of its own. */
  lemma FlagsAreOfMask(p: bv64, d: nat, mask: bv64, flag: bv64)
    requires IsPhysical(p, d) && IsFlag(flag)
    ensures HasFlag(WithMask(p, mask), flag) <==> HasFlag(mask, flag)
  {
    NoFlags(p, d, flag);
    OnlyMask(p, mask, flag);
  }

  lemma NoFlags(p: bv64, d: nat, flag: bv64)
    requires IsPhysical(p, d) && IsFlag(flag)
    ensures p & flag == 0
  {
  }

  lemma OnlyMask(p: bv64, mask: bv64, flag: bv64)
    requires p & flag == 0
    ensures (p | mask) & flag == mask & flag
  {
  }

  /** The physical address in an entry of depth 2 or 3. */
  function AddressIn(d: nat, e: Entry): bv64 {
    if d == 3 then e & ADDRESS_BITS else e & LARGE_ADDRESS_BITS
  }

  lemma SmallAddressIs(p: bv64, mask: bv64)
    requires IsPhysical(p, 3) && IsFlag(mask)
    ensures AddressIn(3, WithMask(p, mask)) == p
  {
  }

  lemma LargeAddressIs(p: bv64, mask: bv64)
    requires IsPhysical(p, 2) && IsFlag(mask)
    ensures AddressIn(2, WithMask(p, mask)) == p
  {
  }

  lemma AddressIs(p: bv64, d: nat, mask: bv64)
    requires 2 <= d <= 3 && IsPhysical(p, d) && IsFlag(mask)
    ensures AddressIn(d, WithMask(p, mask)) == p
  {
    hide IsPhysical, IsFlag, AddressIn, WithMask;
    if d == 3 { SmallAddressIs(p, mask); } else { LargeAddressIs(p, mask); }
  }

  lemma FlagsAre(e: Entry)
    ensures Present(e) <==> HasFlag(e, 1)
    ensures Huge(e) <==> HasFlag(e, 0x80)
    ensures RightsOf(e) == Rights(HasFlag(e, 4), HasFlag(e, 2), !HasFlag(e, NO_EXECUTE))
    ensures HasFlag(e, 1) ==> e != 0
  {
  }

  lemma ReadIs(d: nat, e: Entry)
    requires 2 <= d <= 3 && Present(e) && (d == 2 ==> Huge(e))
    ensures ReadOf(Leaf(d, e))
      == Translation(AddressIn(d, e), Attributes(RightsOf(e).writable, RightsOf(e).executable), Span(d))
  {
    hide Present, Huge;
  }

  lemma MaskIsFlag(pageSize: nat, kernel: bool, attributes: Attributes)
    ensures IsFlag(CalcMask(pageSize, kernel, attributes))
  {
    hide CalcMask;
  }

  lemma FlagsDecide(e: Entry, d: nat, p: bv64, kernel: bool, attributes: Attributes)
    requires 2 <= d <= 3 && AddressIn(d, e) == p
    requires HasFlag(e, 1) && (HasFlag(e, 2) <==> attributes.writable) && (HasFlag(e, 4) <==> !kernel)
    requires (HasFlag(e, 0x80) <==> d == 2) && (HasFlag(e, NO_EXECUTE) <==> !attributes.executable)
    ensures ReadOf(Leaf(d, e)) == Translation(p, attributes, Span(d))
    ensures RightsOf(e) == Rights(!kernel, attributes.writable, attributes.executable)
    ensures Present(e) && (d == 2 ==> Huge(e)) && e != 0
  {
    hide HasFlag, Present, Huge, RightsOf, ReadOf, AddressIn;
    FlagsAre(e);
    ReadIs(d, e);
  }

  lemma DecodedIs(p: bv64, d: nat, kernel: bool, attributes: Attributes)
    requires 2 <= d <= 3 && IsPhysical(p, d)
    ensures var e := WithMask(p, CalcMask(Span(d), kernel, attributes));
      && ReadOf(Leaf(d, e)) == Translation(p, attributes, Span(d))
      && RightsOf(e) == Rights(!kernel, attributes.writable, attributes.executable)
      && Present(e) && (d == 2 ==> Huge(e)) && e != 0
  {
    hide HasFlag, WithMask, CalcMask, Present, Huge, RightsOf, ReadOf, IsPhysical, IsFlag, AddressIn;
    var mask := CalcMask(Span(d), kernel, attributes);
    MaskFlags(Span(d), kernel, attributes);
    MaskIsFlag(Span(d), kernel, attributes);
    FlagsAreFlags();
    FlagsAreOfMask(p, d, mask, 1);
    FlagsAreOfMask(p, d, mask, 2);
    FlagsAreOfMask(p, d, mask, 4);
    FlagsAreOfMask(p, d, mask, 0x80);
    FlagsAreOfMask(p, d, mask, NO_EXECUTE);
    AddressIs(p, d, mask);
    FlagsDecide(WithMask(p, mask), d, p, kernel, attributes);
  }

  /** Kernel pages are global, user pages are not. */
  lemma GlobalIs(p: bv64, d: nat, kernel: bool, attributes: Attributes)
    requires 2 <= d <= 3 && IsPhysical(p, d)
    ensures WithMask(p, CalcMask(Span(d), kernel, attributes)) & GLOBAL != 0 <==> kernel
  {
  }
}
