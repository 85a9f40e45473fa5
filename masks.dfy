/** Letter masks.

    The solver works on u32 bit masks. A mask is modelled here by the set of
    positions of its 1 bits, so that `a & b`, `a | b` and `!a` are set
    intersection, union and complement within the 32 positions of a u32.
    `Value` gives back the unsigned number a mask stands for; the sort step
    orders masks by it. */
module Masks {

  /** A u32, seen as the set of positions of its 1 bits. */
  type Mask = set<nat>

  /** Number of bits in a u32. */
  const WIDTH: nat := 32

  /** Every bit of `m` lies below position `n`. A u32 fits in WIDTH bits. */
  ghost predicate Fits(m: Mask, n: nat) {
    forall i | i in m :: i < n
  }

  /** `1 << i`. */
  function Bit(i: nat): (r: Mask)
    requires i < WIDTH
    ensures i in r && |r| == 1
  {
    {i}
  }

  /** `(1 << t) - 1`: the bits strictly below position `t`. */
  function LowBits(t: nat): (r: Mask)
    requires t < WIDTH
    ensures forall i: nat :: i in r <==> i < t
  {
    if t == 0 then {} else LowBits(t - 1) + {t - 1}
  }

  /** `!m` on a u32: the positions below WIDTH that are not in `m`. */
  function Complement(m: Mask): (r: Mask)
    ensures Fits(r, WIDTH)
    ensures forall i: nat :: i in r <==> i < WIDTH && i !in m
  {
    set i: nat | i < WIDTH && i !in m
  }

  /** `count_ones`: the number of 1 bits. */
  function CountOnes(m: Mask): (r: nat) {
    |m|
  }

  /** `trailing_zeros`: the position of the lowest 1 bit, or WIDTH when `m`
      has no bit below WIDTH. */
  function TrailingZeros(m: Mask): (r: nat)
    ensures r <= WIDTH
    ensures forall j: nat | j < r :: j !in m
    ensures r < WIDTH ==> r in m
  {
    LowestFrom(m, 0)
  }

  /** Scans upwards from position `i` for the first 1 bit. */
  function LowestFrom(m: Mask, i: nat): (r: nat)
    requires i <= WIDTH
    ensures i <= r <= WIDTH
    ensures forall j: nat | i <= j < r :: j !in m
    ensures r < WIDTH ==> r in m
    decreases WIDTH - i
  {
    if i == WIDTH then WIDTH
    else if i in m then i
    else LowestFrom(m, i + 1)
  }

  /** `leading_zeros`: the number of 0 bits above the highest 1 bit, or WIDTH
      when `m` has no bit below WIDTH. So `WIDTH - LeadingZeros(m)` is one
      more than the highest 1 bit. */
  function LeadingZeros(m: Mask): (r: nat)
    ensures r <= WIDTH
    ensures forall j: nat | WIDTH - r <= j < WIDTH :: j !in m
    ensures r < WIDTH ==> WIDTH - 1 - r in m
  {
    WIDTH - TopBelow(m, WIDTH)
  }

  /** One more than the highest 1 bit below position `n`, or 0 if there is none. */
  function TopBelow(m: Mask, n: nat): (r: nat)
    requires n <= WIDTH
    ensures r <= n
    ensures forall j: nat | r <= j < n :: j !in m
    ensures r > 0 ==> r - 1 in m
  {
    if n == 0 then 0
    else if n - 1 in m then n
    else TopBelow(m, n - 1)
  }

  /** The loop idiom `x.trailing_zeros()..32 - x.leading_zeros()` visits every
      1 bit of `x`: it runs from the lowest to the highest 1 bit, inclusive,
      and is empty exactly when `x` is 0. */
  lemma ScanCoversBits(m: Mask)
    requires Fits(m, WIDTH)
    ensures forall j | j in m :: TrailingZeros(m) <= j < WIDTH - LeadingZeros(m)
    ensures m == {} <==> TrailingZeros(m) >= WIDTH - LeadingZeros(m)
  {
    if m != {} {
      var j :| j in m;
      assert TrailingZeros(m) <= j < WIDTH - LeadingZeros(m);
    }
  }

  function Pow2(n: nat): (r: nat)
    ensures r >= 1
  {
    if n == 0 then 1 else 2 * Pow2(n - 1)
  }

  /** The number the bits of `m` below position `n` stand for. */
  function ValueBelow(m: Mask, n: nat): (r: nat)
    ensures r < Pow2(n)
  {
    if n == 0 then 0
    else ValueBelow(m, n - 1) + (if n - 1 in m then Pow2(n - 1) else 0)
  }

  /** The unsigned number a u32 mask stands for. */
  function Value(m: Mask): (r: nat) {
    ValueBelow(m, WIDTH)
  }

  /** Two masks with the same bits below `n` and nothing else stand for the
      same number only if they are equal. */
  lemma {:induction false} ValueBelowInjective(a: Mask, b: Mask, n: nat)
    requires Fits(a, n) && Fits(b, n)
    requires ValueBelow(a, n) == ValueBelow(b, n)
    ensures a == b
  {
    if n > 0 {
      var top := n - 1;
      TopBitDominates(a, b, n);
      TopBitDominates(b, a, n);
      var a', b' := a - {top}, b - {top};
      ValueBelowIgnoresHigh(a, a', top);
      ValueBelowIgnoresHigh(b, b', top);
      ValueBelowInjective(a', b', top);
      assert a == a' + (a * {top}) && b == b' + (b * {top});
    }
  }

  /** The highest bit below `n` outweighs all the bits beneath it. */
  lemma TopBitDominates(a: Mask, b: Mask, n: nat)
    requires n > 0
    ensures n - 1 in a && n - 1 !in b ==> ValueBelow(a, n) > ValueBelow(b, n)
  {
  }

  /** Only the bits below `n` matter to ValueBelow(_, n). */
  lemma {:induction false} ValueBelowIgnoresHigh(a: Mask, b: Mask, n: nat)
    requires forall i: nat | i < n :: i in a <==> i in b
    ensures ValueBelow(a, n) == ValueBelow(b, n)
  {
    if n > 0 {
      ValueBelowIgnoresHigh(a, b, n - 1);
    }
  }

  /** Distinct u32 masks stand for distinct numbers, so ordering masks by
      Value is a total order on them. */
  lemma ValueInjective(a: Mask, b: Mask)
    requires Fits(a, WIDTH) && Fits(b, WIDTH)
    requires Value(a) == Value(b)
    ensures a == b
  {
    ValueBelowInjective(a, b, WIDTH);
  }

  /** Below position `n`, the bits of `!m` and of `m` together stand for
      the all-ones number of `n` bits. */
  lemma {:induction false} ComplementValueBelow(m: Mask, n: nat)
    requires n <= WIDTH
    ensures ValueBelow(Complement(m), n) + ValueBelow(m, n) == Pow2(n) - 1
  {
    if n > 0 {
      ComplementValueBelow(m, n - 1);
    }
  }

  /** `!m` on a u32 is `u32::MAX - m`. */
  lemma ComplementValue(m: Mask)
    ensures Value(Complement(m)) == Pow2(WIDTH) - 1 - Value(m)
  {
    ComplementValueBelow(m, WIDTH);
  }

  /** A subset has no more elements than its superset. */
  lemma {:induction false} SubsetCard(a: Mask, b: Mask)
    requires a <= b
    ensures |a| <= |b|
  {
    if a != {} {
      var x :| x in a;
      SubsetCard(a - {x}, b - {x});
    }
  }

  /** There are exactly `t` positions below `t`. */
  lemma {:induction false} LowBitsCard(t: nat)
    requires t < WIDTH
    ensures |LowBits(t)| == t
  {
    if t > 0 {
      LowBitsCard(t - 1);
    }
  }

  /** A mask that fits in `n` bits has at most `n` of them. */
  lemma FitsCard(m: Mask, n: nat)
    requires n < WIDTH && Fits(m, n)
    ensures |m| <= n
  {
    LowBitsCard(n);
    SubsetCard(m, LowBits(n));
  }

  /** A u32 mask with a bit has its lowest bit at TrailingZeros. */
  lemma LowestBit(m: Mask)
    requires Fits(m, WIDTH) && m != {}
    ensures TrailingZeros(m) < WIDTH && TrailingZeros(m) in m
    ensures forall x | x in m :: TrailingZeros(m) <= x
  {
    var x :| x in m;
  }

  /** Bits of `m` absent from positions `i` to `j` add nothing to its value. */
  lemma {:induction false} ValueBelowSkip(m: Mask, i: nat, j: nat)
    requires i <= j
    requires forall x: nat | i <= x < j :: x !in m
    ensures ValueBelow(m, j) == ValueBelow(m, i)
    decreases j - i
  {
    if i < j {
      ValueBelowSkip(m, i, j - 1);
    }
  }
}
