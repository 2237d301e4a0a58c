/** The free list as the source keeps it: linked nodes, relinked and resized in place. */
module LinkedFreeList {
  import opened Words
  import opened FreeLists

  class Region {
    var start: Word
    var size: Word
    var next: Region?

    constructor (value: Interval)
      requires value.Asserted()
      ensures Value() == value && next == null
    {
      start, size, next := value.start, value.size, null;
    }

    function Value(): Interval
      reads this
    {
      Interval(start, size)
    }
  }

  ghost function Values(spine: seq<Region>): (l: seq<Interval>)
    reads spine
    ensures |l| == |spine| && forall i | 0 <= i < |l| :: l[i] == spine[i].Value()
  {
    seq(|spine|, i requires 0 <= i < |spine| reads spine => spine[i].Value())
  }

  /** The nodes of `spine` are distinct and linked in this order. */
  ghost predicate Linked(spine: seq<Region>)
    reads spine
  {
    && (forall i, j | 0 <= i < j < |spine| :: spine[i] != spine[j])
    && (forall i | 0 <= i < |spine| - 1 :: spine[i].next == spine[i + 1])
    && (spine != [] ==> spine[|spine| - 1].next == null)
  }

  lemma NextIs(spine: seq<Region>, k: nat)
    requires Linked(spine) && k < |spine|
    ensures spine[k].next == if k + 1 < |spine| then spine[k + 1] else null
  {
  }

  lemma DroppedAt(spine: seq<Region>, k: nat)
    requires k + 1 < |spine|
    ensures var s := spine[..k + 1] + spine[k + 2..]; |s| == |spine| - 1 && s[k] == spine[k] && forall r | r in s :: r in spine
  {
  }

  class FreeList {
    var first: Region?
    ghost var spine: seq<Region>

    ghost predicate Valid()
      reads this, spine
    {
      Linked(spine) && first == if spine == [] then null else spine[0]
    }

    ghost function Contents(): seq<Interval>
      reads this, spine
    {
      Values(spine)
    }

    constructor ()
      ensures Valid() && Contents() == [] && spine == []
    {
      first, spine := null, [];
    }

    /** The k-th node of the list, and the node before it. */
    ghost predicate IsAt(reg: Region?, last: Region?, k: nat)
      reads this
    {
      && k <= |spine|
      && reg == (if k < |spine| then spine[k] else null)
      && last == (if k == 0 then null else spine[k - 1])
    }

    method DropFirst(reg: Region)
      requires Valid() && first == reg
      modifies this
      ensures spine == old(spine)[1..] && Valid() && Contents() == old(Contents())[1..]
    {
      assert reg == spine[0];
      first := reg.next;
      spine := spine[1..];
    }

    method UnlinkNext(reg: Region, theNext: Region, ghost k: nat)
      requires Valid() && k + 1 < |spine| && reg == spine[k] && theNext == spine[k + 1]
      modifies this`spine, reg
      ensures spine == old(spine)[..k + 1] + old(spine)[k + 2..]
      ensures Valid()
      ensures Contents() == old(Contents())[..k + 1] + old(Contents())[k + 2..]
    {
      reg.next := theNext.next;
      spine := spine[..k + 1] + spine[k + 2..];
    }

    method Unlink(reg: Region, last: Region?, ghost k: nat)
      requires Valid() && k < |spine| && IsAt(reg, last, k)
      modifies this, last
      ensures spine == old(spine)[..k] + old(spine)[k + 1..]
      ensures Valid()
      ensures Contents() == old(Contents())[..k] + old(Contents())[k + 1..]
    {
      if last != null { UnlinkNext(last, reg, k - 1); } else { DropFirst(reg); }
    }

    method Resize(reg: Region, value: Interval, ghost k: nat)
      requires Valid() && k < |spine| && reg == spine[k]
      modifies reg
      ensures spine == old(spine) && Valid()
      ensures Contents() == old(Contents())[k := value]
    {
      reg.start, reg.size := value.start, value.size;
    }

    /** Shorten `reg` to `value` and link a new region behind it. */
    method SplitOff(reg: Region, value: Interval, behind: Interval, ghost k: nat)
      requires Valid() && k < |spine| && reg == spine[k] && behind.Asserted()
      modifies this, reg
      ensures Valid() && forall r | r in spine :: r in old(spine) || fresh(r)
      ensures Contents() == old(Contents())[..k] + [value, behind] + old(Contents())[k + 1..]
    {
      hide Linked, W, Values;
      ghost var l := Contents();
      var suffix := new Region(behind);
      Resize(reg, value, k);
      InsertAfter(reg, suffix, k);
      assert l[k := value][..k + 1] + [behind] + l[k := value][k + 1..] == l[..k] + [value, behind] + l[k + 1..];
    }

    method AllocInRegion(reg: Region, last: Region?, requested: Interval, ghost k: nat) returns (panicked: bool)
      requires Valid() && k < |spine| && IsAt(reg, last, k)
      modifies this, spine
      ensures Valid() && forall r | r in spine :: r in old(spine) || fresh(r)
      ensures if panicked then AllocInRegionOf(old(Contents()), k, requested).Panicked?
              else AllocInRegionOf(old(Contents()), k, requested) == Changed(requested.start, Contents())
    {
      hide Linked, Values, W;
      var value := reg.Value();
      assert value == Contents()[k];
      panicked := false;
      if value.IsFilledBy(requested) {
        Unlink(reg, last, k);
      } else if value.IsStartedBy(requested) {
        Resize(reg, Interval(W(reg.start + requested.size), reg.size), k);
      } else if value.IsEndedBy(requested) {
        Resize(reg, Interval(reg.start, W(reg.size - requested.size)), k);
      } else {
        var suffixSize := W(value.End() - requested.End());
        panicked := !Interval(requested.End(), suffixSize).Asserted();
        if !panicked {
          SplitOff(reg, Interval(reg.start, W(requested.start - reg.start)), Interval(requested.End(), suffixSize), k);
        }
      }
    }

    method AllocAt(start: Word, pageSize: nat, pageCount: nat) returns (ok: bool, panicked: bool)
      requires Valid() && IsPageSize(pageSize)
      modifies this, spine
      ensures Valid() && forall r | r in spine :: r in old(spine) || fresh(r)
      ensures match AllocAtOf(old(Contents()), start, pageSize, pageCount)
        case Panicked => panicked
        case Refused => !panicked && !ok && Contents() == old(Contents())
        case Changed(_, list) => !panicked && ok && Contents() == list
    {
      if !IsAligned(start, pageSize) {
        return false, false;
      }
      var requested := Interval(start, Total(pageSize, pageCount));
      if !requested.Asserted() {
        return false, true;
      }
      var reg, last := first, null;
      ghost var k := 0;
      while reg != null
        invariant IsAt(reg, last, k)
        invariant forall j | 0 <= j < k :: !Contents()[j].Contains(requested)
        decreases |spine| - k
      {
        if !reg.Value().Contains(requested) {
          last, reg := reg, reg.next;
          k := k + 1;
          continue;
        }
        FirstContainingIs(Contents(), requested, k);
        panicked := AllocInRegion(reg, last, requested, k);
        return true, panicked;
      }
      FirstContainingIs(Contents(), requested, k);
      return false, false;
    }

    /** `addr` is 0 when no region can hold the request. */
    method Alloc(pageSize: nat, pageCount: nat) returns (addr: Word, panicked: bool)
      requires Valid() && IsPageSize(pageSize)
      modifies this, spine
      ensures Valid() && forall r | r in spine :: r in old(spine) || fresh(r)
      ensures match AllocOf(old(Contents()), pageSize, pageCount)
        case Panicked => panicked
        case Refused => !panicked && addr == 0 && Contents() == old(Contents())
        case Changed(at, list) => !panicked && addr == at && Contents() == list
    {
      var reg, last := first, null;
      ghost var k := 0;
      while reg != null
        invariant IsAt(reg, last, k)
        invariant forall j | 0 <= j < k :: !Contents()[j].CanHold(pageSize, pageCount)
        decreases |spine| - k
      {
        if !reg.Value().CanHold(pageSize, pageCount) {
          last, reg := reg, reg.next;
          k := k + 1;
          continue;
        }
        FirstHoldingIs(Contents(), pageSize, pageCount, k);
        var requested := reg.Value().Request(pageSize, pageCount);
        if !requested.Asserted() {
          return 0, true;
        }
        panicked := AllocInRegion(reg, last, requested, k);
        return requested.start, panicked;
      }
      FirstHoldingIs(Contents(), pageSize, pageCount, k);
      return 0, false;
    }

    /** `reg` takes over the size of the node behind it, which is unlinked. */
    method AbsorbOne(reg: Region, theNext: Region, ghost k: nat)
      requires Valid() && k + 1 < |spine| && reg == spine[k] && theNext == spine[k + 1]
      modifies this`spine, reg
      ensures spine == old(spine)[..k + 1] + old(spine)[k + 2..]
      ensures Valid()
      ensures Contents() ==
        old(Contents())[..k] + [Interval(old(reg.start), W(old(reg.size + theNext.size)))] + old(Contents())[k + 2..]
    {
      reg.size := W(reg.size + theNext.size);
      reg.next := theNext.next;
      spine := spine[..k + 1] + spine[k + 2..];
    }

    /** The merging loop: `reg` absorbs the regions it has come to touch. */
    method AbsorbNext(reg: Region, ghost k: nat)
      requires Valid() && k < |spine| && reg == spine[k]
      modifies this`spine, reg
      ensures Valid() && (forall r | r in spine :: r in old(spine))
      ensures Contents() == old(Contents())[..k] + Absorb(old(Contents())[k], old(Contents())[k + 1..])
    {
      hide Absorb, W, Linked, Values;
      ghost var l := Contents();
      ghost var m := l;
      NextIs(spine, k);
      while reg.next != null
        invariant Valid() && k < |spine| && reg == spine[k]
        invariant forall r | r in spine :: r in old(spine)
        invariant Contents() == m && m[..k] == l[..k]
        invariant Absorb(m[k], m[k + 1..]) == Absorb(l[k], l[k + 1..])
        invariant reg.next == if k + 1 < |spine| then spine[k + 1] else null
        decreases |spine|
      {
        var theNext := reg.next;
        assert reg.Value() == m[k] && theNext.Value() == m[k + 1];
        if !reg.Value().IsAdjacentBehind(theNext.start) {
          AbsorbStops(m, k);
          return;
        }
        ghost var before := spine;
        AbsorbOne(reg, theNext, k);
        m := AbsorbStep(m, k);
        DroppedAt(before, k);
        NextIs(spine, k);
      }
      AbsorbStops(m, k);
    }

    method InsertFirst(region: Region)
      requires Valid() && region !in spine
      modifies this, region
      ensures spine == [region] + old(spine) && Valid() && Contents() == [old(region.Value())] + old(Contents())
    {
      region.next := first;
      first := region;
      spine := [region] + spine;
    }

    method InsertAfter(last: Region, region: Region, ghost k: nat)
      requires Valid() && k < |spine| && last == spine[k] && region !in spine
      modifies this, last, region
      ensures spine == old(spine)[..k + 1] + [region] + old(spine)[k + 1..]
      ensures Valid()
      ensures Contents() == old(Contents())[..k + 1] + [old(region.Value())] + old(Contents())[k + 1..]
    {
      region.next := last.next;
      last.next := region;
      spine := spine[..k + 1] + [region] + spine[k + 1..];
    }

    method InsertBefore(value: Interval, last: Region?, reg: Region?, ghost k: nat)
      requires Valid() && IsAt(reg, last, k) && value.Asserted()
      modifies this, last
      ensures Valid() && forall r | r in spine :: r in old(spine) || fresh(r)
      ensures Contents() == old(Contents())[..k] + [value] + old(Contents())[k..]
    {
      var newRegion := new Region(value);
      if last != null { InsertAfter(last, newRegion, k - 1); } else { InsertFirst(newRegion); }
    }

    method Free(addr: Word, pageSize: nat, pageCount: nat) returns (panicked: bool)
      requires Valid()
      modifies this, spine
      ensures Valid() && forall r | r in spine :: r in old(spine) || fresh(r)
      ensures if panicked then FreeOf(old(Contents()), addr, pageSize, pageCount).Panicked?
              else FreeOf(old(Contents()), addr, pageSize, pageCount) == Changed(addr, Contents())
    {
      hide Absorb, FreeFrom, W;
      var releasing := Interval(addr, Total(pageSize, pageCount));
      if !releasing.Asserted() {
        return true;
      }
      ghost var l := Contents();
      var reg, last := first, null;
      ghost var k := 0;
      while reg != null
        invariant Valid() && spine == old(spine) && l == Contents() && IsAt(reg, last, k)
        invariant FreeFrom(l, releasing, k) == FreeFrom(l, releasing, 0)
        decreases |spine| - k
      {
        var value := reg.Value();
        assert reg == spine[k];
        assert value == l[k];
        if value.IsAdjacentBehind(addr) {
          FreeExtending(reg, releasing, k);
          return false;
        } else if releasing.IsAdjacentBehind(reg.start) {
          FreeFromPrepend(l, releasing, k);
          Resize(reg, Interval(W(reg.start - releasing.size), W(reg.size + releasing.size)), k);
          return false;
        } else if releasing.IsBehind(reg.start) {
          break;
        }
        FreeFromSkip(l, releasing, k);
        last, reg := reg, reg.next;
        k := k + 1;
      }
      FreeFromStop(l, releasing, k);
      InsertBefore(releasing, last, reg, k);
      return false;
    }

    method FreeExtending(reg: Region, releasing: Interval, ghost k: nat)
      requires Valid() && k < |spine| && reg == spine[k] && reg.Value().IsAdjacentBehind(releasing.start)
      modifies this`spine, reg
      ensures Valid() && (forall r | r in spine :: r in old(spine))
      ensures Contents() == FreeFrom(old(Contents()), releasing, k)
    {
      hide Linked, Values, W, Absorb, FreeFrom;
      ghost var l := Contents();
      var v := Interval(reg.start, W(reg.size + releasing.size));
      Resize(reg, v, k);
      ReplacedParts(l, k, v);
      AbsorbNext(reg, k);
      FreeFromExtend(l, releasing, k);
    }
  }

  lemma ReplacedParts(l: seq<Interval>, k: nat, v: Interval)
    requires k < |l|
    ensures l[k := v][..k] == l[..k] && l[k := v][k + 1..] == l[k + 1..] && l[k := v][k] == v
  {
  }

  lemma AbsorbStops(m: seq<Interval>, k: nat)
    requires k < |m| && (k + 1 < |m| ==> !m[k].IsAdjacentBehind(m[k + 1].start))
    ensures m == m[..k] + Absorb(m[k], m[k + 1..])
  {
    hide Absorb;
    AbsorbApart(m[k], m[k + 1..]);
  }

  lemma AbsorbStep(m: seq<Interval>, k: nat) returns (m': seq<Interval>)
    requires k + 1 < |m| && m[k].IsAdjacentBehind(m[k + 1].start)
    ensures m' == m[..k] + [Interval(m[k].start, W(m[k].size + m[k + 1].size))] + m[k + 2..]
    ensures k < |m'| && m'[..k] == m[..k] && Absorb(m'[k], m'[k + 1..]) == Absorb(m[k], m[k + 1..])
  {
    hide Absorb;
    var v := Interval(m[k].start, W(m[k].size + m[k + 1].size));
    m' := m[..k] + [v] + m[k + 2..];
    assert m'[k + 1..] == m[k + 2..] && m[k + 1..][1..] == m[k + 2..];
    AbsorbTouching(m[k], m[k + 1..]);
  }

  lemma FirstContainingIs(l: seq<Interval>, requested: Interval, k: nat)
    requires k <= |l| && (forall j | 0 <= j < k :: !l[j].Contains(requested)) && (k < |l| ==> l[k].Contains(requested))
    ensures FirstContaining(l, requested, 0) == k
  {
    var j := FirstContaining(l, requested, 0);
    assert j >= k && j <= k;
  }

  lemma FirstHoldingIs(l: seq<Interval>, pageSize: nat, pageCount: nat, k: nat)
    requires IsPageSize(pageSize)
    requires k <= |l| && forall j | 0 <= j < k :: !l[j].CanHold(pageSize, pageCount)
    requires k < |l| ==> l[k].CanHold(pageSize, pageCount)
    ensures FirstHolding(l, pageSize, pageCount, 0) == k
  {
    var j := FirstHolding(l, pageSize, pageCount, 0);
    assert j >= k && j <= k;
  }
}
