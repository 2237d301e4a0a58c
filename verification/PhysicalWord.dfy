/** Physical addresses as numbers, and the 64-bit words that hold them in page table entries. */
module PhysicalWords {
  import opened PageTree
  import opened PageLists
  import opened Addresses
  import opened Words

  function Bit(b: nat): bv64
    requires b < 2
  {
    if b == 0 then 0 else 1
  }

  function Double(w: bv64): bv64 { Sum(w, w) }

  /** One binary digit more on the right. */
  function Append(w: bv64, b: nat): bv64
    requires b < 2
  {
    Sum(Double(w), Bit(b))
  }

  /** The low 64 binary digits of a number. */
  function WordOf(n: nat): bv64 {
    if n == 0 then 0 else Append(WordOf(n / 2), n % 2)
  }

  /** k ones. */
  function Ones(k: nat): bv64 {
    if k == 0 then 0 else Append(Ones(k - 1), 1)
  }

  function Pow2(k: nat): (p: nat)
    ensures 0 < p
  {
    if k == 0 then 1 else 2 * Pow2(k - 1)
  }

  lemma WordStep(n: nat)
    ensures WordOf(n) == Append(WordOf(n / 2), n % 2)
  {
    if n == 0 { AppendZero(); }
  }

  lemma AppendZero()
    ensures Append(0, 0) == 0
  {
    assert Sum(0, 0) == 0;
  }

  // ----- sums -----

  lemma Rearranged(u: bv64, v: bv64, w: bv64, x: bv64)
    ensures Sum(Sum(u, v), Sum(w, x)) == Sum(Sum(u, w), Sum(v, x))
  {
    hide Sum;
    SumAssociates(Sum(u, v), w, x);
    SumCommutes(u, v, w);
    SumAssociates(Sum(u, w), v, x);
  }

  lemma Digits(w: bv64)
    ensures Sum(w, 0) == w && Sum(0, 0) == 0 && Sum(0, 1) == 1 && Sum(1, 0) == 1 && Sum(1, 1) == Double(1)
  {
  }

  lemma AppendSum(v: bv64, w: bv64, a: nat, b: nat)
    requires a < 2 && b < 2
    ensures Sum(Append(v, a), Append(w, b))
      == if a + b < 2 then Append(Sum(v, w), a + b) else Append(Sum(Sum(v, w), 1), 0)
  {
    hide Sum;
    Rearranged(Double(v), Bit(a), Double(w), Bit(b));
    Rearranged(v, w, v, w);
    Rearranged(Sum(v, w), 1, Sum(v, w), 1);
    Digits(Double(Sum(Sum(v, w), 1)));
  }

  lemma AppendNext(v: bv64)
    ensures Sum(Append(v, 0), 1) == Append(v, 1)
    ensures Sum(Append(v, 1), 1) == Append(Sum(v, 1), 0)
  {
    hide Sum;
    SumAssociates(Double(v), 0, 1);
    SumAssociates(Double(v), 1, 1);
    Rearranged(v, 1, v, 1);
    Digits(Double(Sum(v, 1)));
  }

  lemma {:induction false} WordNext(n: nat)
    ensures WordOf(n + 1) == Sum(WordOf(n), 1)
  {
    hide Append, Sum;
    WordStep(n);
    WordStep(n + 1);
    AppendNext(WordOf(n / 2));
    if n % 2 == 1 {
      assert (n + 1) / 2 == n / 2 + 1;
      WordNext(n / 2);
    }
  }

  /** Words add as numbers do, up to 2^64. */
  lemma {:induction false} WordSum(m: nat, n: nat)
    ensures WordOf(m + n) == Sum(WordOf(m), WordOf(n))
  {
    hide Append, Sum, WordOf;
    WordStep(m);
    WordStep(n);
    WordStep(m + n);
    AppendSum(WordOf(m / 2), WordOf(n / 2), m % 2, n % 2);
    if m + n > 0 {
      WordSum(m / 2, n / 2);
      if m % 2 == 1 && n % 2 == 1 {
        assert (m + n) / 2 == m / 2 + n / 2 + 1;
        WordNext(m / 2 + n / 2);
      } else {
        assert (m + n) / 2 == m / 2 + n / 2;
      }
    } else {
      ZeroWord();
    }
  }

  lemma ZeroWord()
    ensures WordOf(0) == 0 && Sum(0, 0) == 0
  {
  }

  // ----- digits -----

  lemma AppendBits(w: bv64, b: nat)
    requires b < 2
    ensures Append(w, b) == (w << 1) | Bit(b)
  {
  }

  /** A number below 2^k has k digits. */
  lemma WordFits(n: nat, k: nat)
    requires n < Pow2(k)
    ensures LowBits(WordOf(n), k) == WordOf(n)
  {
    hide WordOf, LowBits, Pow2;
    LowDigits(n, k);
    RemainderIs(n, Pow2(k));
  }

  lemma RemainderIs(n: nat, p: nat)
    requires n < p
    ensures n % p == n
  {
    DivModUnique(n, p, 0, n);
  }

  lemma ShiftIsUnique(v: bv64, w: bv64, a: bv64, b: bv64)
    requires a <= 1 && b <= 1 && v & 0x7FFF_FFFF_FFFF_FFFF == v && w & 0x7FFF_FFFF_FFFF_FFFF == w
    ensures (v << 1) | a == (w << 1) | b ==> v == w
    ensures (v << 1) | a == (w << 1) | b ==> a == b
  {
  }

  lemma ShiftInIsUnique(v: bv64, w: bv64, a: bv64, b: bv64)
    requires a <= 1 && b <= 1 && And(v, 0x7FFF_FFFF_FFFF_FFFF) == v && And(w, 0x7FFF_FFFF_FFFF_FFFF) == w
    ensures ShiftIn(v, a) == ShiftIn(w, b) <==> v == w && a == b
  {
    ShiftIsUnique(v, w, a, b);
  }

  lemma AppendIsUnique(v: bv64, w: bv64, a: nat, b: nat)
    requires a < 2 && b < 2 && And(v, 0x7FFF_FFFF_FFFF_FFFF) == v && And(w, 0x7FFF_FFFF_FFFF_FFFF) == w
    ensures Append(v, a) == Append(w, b) <==> v == w && a == b
  {
    hide Append, And, ShiftIn;
    AppendIsShift(v, a);
    AppendIsShift(w, b);
    ShiftInIsUnique(v, w, Bit(a), Bit(b));
  }

  lemma ThreeMore(k: nat)
    ensures Pow2(k + 3) == 8 * Pow2(k) && Ones(k + 3) == (Ones(k) << 3) | 7
  {
    hide Append;
    AppendBits(Ones(k), 1);
    AppendBits(Ones(k + 1), 1);
    AppendBits(Ones(k + 2), 1);
    assert Pow2(k + 2) == 4 * Pow2(k);
  }

  lemma NoDigits()
    ensures Pow2(0) == 1 && Ones(0) == 0
  {
  }

  lemma SmallPowers()
    ensures Pow2(12) == 0x1000 && Ones(12) == 0xFFF
    ensures Pow2(21) == 0x20_0000 && Ones(21) == 0x1F_FFFF
  {
    hide Pow2, Ones;
    NoDigits();
    ThreeMore(0);
    ThreeMore(3);
    ThreeMore(6);
    ThreeMore(9);
    ThreeMore(12);
    ThreeMore(15);
    ThreeMore(18);
  }

  lemma Powers()
    ensures Pow2(63) == 0x8000_0000_0000_0000 && Ones(63) == 0x7FFF_FFFF_FFFF_FFFF
  {
    hide Pow2, Ones;
    SmallPowers();
    ThreeMore(21);
    ThreeMore(24);
    ThreeMore(27);
    ThreeMore(30);
    ThreeMore(33);
    ThreeMore(36);
    ThreeMore(39);
    ThreeMore(42);
    ThreeMore(45);
    ThreeMore(48);
    ThreeMore(51);
    ThreeMore(54);
    ThreeMore(57);
    ThreeMore(60);
  }

  /** Below 2^64 different numbers have different words. */
  lemma {:induction false} WordIsUnique(m: nat, n: nat)
    requires m < WORD && n < WORD
    ensures WordOf(m) == WordOf(n) <==> m == n
  {
    hide Append, WordOf, Ones, Pow2, And;
    WordStep(m);
    WordStep(n);
    Powers();
    WordFits(m / 2, 63);
    WordFits(n / 2, 63);
    AppendIsUnique(WordOf(m / 2), WordOf(n / 2), m % 2, n % 2);
    if m > 0 && n > 0 {
      WordIsUnique(m / 2, n / 2);
    } else if m + n > 0 {
      WordIsUnique(m / 2, n / 2);
    }
  }

  function And(v: bv64, w: bv64): bv64 { v & w }

  function LowBits(w: bv64, k: nat): bv64 { And(w, Ones(k)) }

  function ShiftIn(w: bv64, b: bv64): bv64 { (w << 1) | b }

  lemma AppendIsShift(w: bv64, b: nat)
    requires b < 2
    ensures Append(w, b) == ShiftIn(w, Bit(b))
  {
    AppendBits(w, b);
  }

  lemma ShiftCut(w: bv64, m: bv64, b: bv64)
    requires b <= 1
    ensures And(ShiftIn(w, b), ShiftIn(m, 1)) == ShiftIn(And(w, m), b)
  {
  }

  lemma AppendCut(w: bv64, m: bv64, b: nat)
    requires b < 2
    ensures And(Append(w, b), Append(m, 1)) == Append(And(w, m), b)
  {
    hide Append, And, ShiftIn;
    AppendIsShift(w, b);
    AppendIsShift(m, 1);
    AppendIsShift(And(w, m), b);
    ShiftCut(w, m, Bit(b));
  }

  lemma LowBitsStep(w: bv64, b: nat, k: nat)
    requires b < 2
    ensures LowBits(Append(w, b), k + 1) == Append(LowBits(w, k), b)
  {
    hide Append, And;
    AppendCut(w, Ones(k), b);
  }

  lemma NoLowBits(w: bv64)
    ensures LowBits(w, 0) == 0
  {
  }

  lemma HalfMod(n: nat, p: nat)
    requires 0 < p
    ensures n % (2 * p) / 2 == n / 2 % p && n % (2 * p) % 2 == n % 2
  {
    var q, r := n / 2 / p, n / 2 % p;
    assert n == 2 * p * q + (2 * r + n % 2) by {
      assert n / 2 == p * q + r;
      assert 2 * (p * q) == 2 * p * q;
    }
    DivModUnique(n, 2 * p, q, 2 * r + n % 2);
  }

  /** The last k digits of a word are those of the remainder. */
  lemma {:induction false} LowDigits(n: nat, k: nat)
    ensures LowBits(WordOf(n), k) == WordOf(n % Pow2(k))
  {
    hide Append, WordOf, LowBits;
    if k > 0 {
      LowBitsStep(WordOf(n / 2), n % 2, k - 1);
      WordStep(n);
      WordStep(n % Pow2(k));
      HalfMod(n, Pow2(k - 1));
      LowDigits(n / 2, k - 1);
    } else {
      NoLowBits(WordOf(n));
      ZeroWord();
    }
  }

  // ----- page addresses -----

  predicate IsSmallFrame(w: bv64) { And(w, 0x7FFF_FFFF_FFFF_F000) == w }

  lemma SmallFrameLow(w: bv64)
    requires And(w, 0x7FFF_FFFF_FFFF_F000) == w
    ensures And(w, 0xFFF) == 0
  {
  }

  lemma SmallFrameTop(w: bv64)
    requires And(w, 0x7FFF_FFFF_FFFF_F000) == w
    ensures And(w, 0x7FFF_FFFF_FFFF_FFFF) == w
  {
  }

  lemma SmallFrameOf(w: bv64)
    requires And(w, 0xFFF) == 0 && And(w, 0x7FFF_FFFF_FFFF_FFFF) == w
    ensures And(w, 0x7FFF_FFFF_FFFF_F000) == w
  {
  }

  lemma SmallFrameBits(w: bv64)
    ensures IsSmallFrame(w) <==> And(w, 0xFFF) == 0 && And(w, 0x7FFF_FFFF_FFFF_FFFF) == w
  {
    hide And;
    if IsSmallFrame(w) {
      SmallFrameLow(w);
      SmallFrameTop(w);
    } else if And(w, 0xFFF) == 0 && And(w, 0x7FFF_FFFF_FFFF_FFFF) == w {
      SmallFrameOf(w);
    }
  }

  predicate IsLargeFrame(w: bv64) { And(w, 0x7FFF_FFFF_FFE0_0000) == w }

  lemma LargeFrameLow(w: bv64)
    requires And(w, 0x7FFF_FFFF_FFE0_0000) == w
    ensures And(w, 0x1F_FFFF) == 0
  {
  }

  lemma LargeFrameTop(w: bv64)
    requires And(w, 0x7FFF_FFFF_FFE0_0000) == w
    ensures And(w, 0x7FFF_FFFF_FFFF_FFFF) == w
  {
  }

  lemma LargeFrameOf(w: bv64)
    requires And(w, 0x1F_FFFF) == 0 && And(w, 0x7FFF_FFFF_FFFF_FFFF) == w
    ensures And(w, 0x7FFF_FFFF_FFE0_0000) == w
  {
  }

  lemma LargeFrameBits(w: bv64)
    ensures IsLargeFrame(w) <==> And(w, 0x1F_FFFF) == 0 && And(w, 0x7FFF_FFFF_FFFF_FFFF) == w
  {
    hide And;
    if IsLargeFrame(w) {
      LargeFrameLow(w);
      LargeFrameTop(w);
    } else if And(w, 0x1F_FFFF) == 0 && And(w, 0x7FFF_FFFF_FFFF_FFFF) == w {
      LargeFrameOf(w);
    }
  }

  lemma SmallFrame(w: bv64)
    ensures IsFrame(Frame(w)) <==> IsSmallFrame(w)
  {
  }

  /** What the address masks of the code test: an aligned address below 2^63. */
  lemma IsFrameIff(n: nat)
    requires n < WORD
    ensures IsFrame(Frame(WordOf(n))) <==> n % 0x1000 == 0 && n < 0x8000_0000_0000_0000
    ensures IsLargeFrame(WordOf(n)) <==> n % 0x20_0000 == 0 && n < 0x8000_0000_0000_0000
  {
    hide WordOf, Ones, Pow2, And, IsFrame, IsSmallFrame, IsLargeFrame;
    Powers();
    SmallPowers();
    SmallFrame(WordOf(n));
    SmallFrameBits(WordOf(n));
    LargeFrameBits(WordOf(n));
    LowDigits(n, 12);
    LowDigits(n, 21);
    LowDigits(n, 63);
    ZeroWord();
    WordIsUnique(n % 0x1000, 0);
    WordIsUnique(n % 0x20_0000, 0);
    WordIsUnique(n % 0x8000_0000_0000_0000, n);
  }

  lemma AppendZeroIs(w: bv64)
    ensures Append(w, 0) == w << 1
  {
    hide Append;
    AppendBits(w, 0);
  }

  lemma DoubleWord(n: nat)
    ensures WordOf(2 * n) == WordOf(n) << 1
  {
    hide WordOf, Append;
    WordStep(2 * n);
    AppendZeroIs(WordOf(n));
  }

  lemma Shifted(n: nat)
    ensures WordOf(8 * n) == WordOf(n) << 3
  {
    hide WordOf;
    DoubleWord(n);
    DoubleWord(2 * n);
    DoubleWord(4 * n);
  }

  lemma OneWord()
    ensures WordOf(1) == 1
  {
    assert WordOf(0) == 0;
  }

  lemma SpanWord(d: nat)
    requires d <= 3
    ensures SpanBits(d) == WordOf(Span(d))
  {
    hide WordOf;
    OneWord();
    Shifted(1);
    Shifted(8);
    Shifted(0x40);
    Shifted(0x200);
    Shifted(0x1000);
    Shifted(0x8000);
    Shifted(0x40000);
    Shifted(0x200000);
    Shifted(0x1000000);
    Shifted(0x8000000);
    Shifted(0x40000000);
    Shifted(0x200000000);
    Shifted(0x1000000000);
  }

  /** The i-th entry of a list that starts at a page starts at the i-th page behind it. */
  lemma {:induction false} EntryIsWord(p: nat, d: nat, i: nat)
    requires d <= 3
    ensures EntryAt(WordOf(p), d, i) == WordOf(p + i * Span(d))
  {
    hide WordOf, SpanBits, Sum, Span;
    if i > 0 {
      EntryIsWord(p, d, i - 1);
      SpanWord(d);
      assert p + i * Span(d) == (p + (i - 1) * Span(d)) + Span(d);
      WordSum(p + (i - 1) * Span(d), Span(d));
    }
  }

  /** The frame at a physical address. */
  function FrameAt(a: nat): Frame { Frame(WordOf(a)) }

  /** Page-aligned addresses below 2^63 name frames, different ones different frames. */
  lemma FrameAtIs(a: nat, b: nat)
    requires a < 0x8000_0000_0000_0000 && b < 0x8000_0000_0000_0000
    ensures IsFrame(FrameAt(a)) <==> a % 0x1000 == 0
    ensures FrameAt(a) == FrameAt(b) <==> a == b
  {
    hide WordOf, IsFrame;
    IsFrameIff(a);
    WordIsUnique(a, b);
  }
}
