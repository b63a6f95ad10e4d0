/**
  The 48-bit linear congruential generator of java.util.Random: its step, its
  period, and nextInt with the int32 rejection test.
 */
module Lcg {
  import opened Arithmetic
  import opened FixedWidth
  import opened Iteration
  import opened Wrappers

  const MULTIPLIER := 0x5DEECE66D
  const ADDEND := 0xB

  type State48 = s: int | 0 <= s < TWO48
  type Bound = b: int | 0 < b < TWO31 witness 1

  /** One step of the generator. */
  function Step(s: State48): State48 {
    (s * MULTIPLIER + ADDEND) % TWO48
  }

  function StepN(s: State48, n: nat): State48
    decreases n, s
  {
    if n == 0 then s else StepN(Step(s), n - 1)
  }

  lemma {:induction false} StepNAdd(s: State48, a: nat, b: nat)
    ensures StepN(s, a + b) == StepN(StepN(s, a), b)
    decreases a
  {
    if a > 0 {
      StepNAdd(Step(s), a - 1, b);
    }
  }

  /** The initial scramble: xor the seed with the multiplier and keep 48 bits. */
  function Scramble(seed: int): State48 {
    assert BitXor(seed % TWO48, MULTIPLIER) < TWO48 by {
      Pow2Values();
      BitXorBelow(seed % TWO48, MULTIPLIER, 48);
    }
    BitXor(seed % TWO48, MULTIPLIER)
  }

  /** Two seeds start the same stream exactly when they agree modulo 2^48. */
  lemma ScrambleSeparatesSeeds(a: int, b: int)
    ensures Scramble(a) == Scramble(b) <==> a % TWO48 == b % TWO48
  {
    BitXorUndoes(a % TWO48, MULTIPLIER);
    BitXorUndoes(b % TWO48, MULTIPLIER);
  }

  /** Undoing the exclusive or with 0x5DEECE66D gives the low 48 bits of the seed back. */
  lemma ScrambleIsXor(seed: int)
    ensures BitXor(Scramble(seed), 0x5DEECE66D) == seed % TWO48
    ensures forall k: nat :: k < 48 ==> (Bit(Scramble(seed), k) <==> Bit(seed % TWO48, k) != Bit(0x5DEECE66D, k))
  {
    BitXorUndoes(seed % TWO48, MULTIPLIER);
    forall k: nat | k < 48 {
      BitXorBits(seed % TWO48, MULTIPLIER, k);
    }
  }

  // ----- the period ------------------------------------------------------------

  /** Pow2(k) steps are the affine map with slope Slope(k) and offset Offset(k). */
  function Slope(k: nat): int {
    if k == 0 then MULTIPLIER else Slope(k - 1) * Slope(k - 1)
  }

  function Offset(k: nat): int {
    if k == 0 then ADDEND else Offset(k - 1) * (Slope(k - 1) + 1)
  }

  lemma AffineTwice(s: int, a: int, c: int)
    ensures (s * a + c) * a + c == s * (a * a) + c * (a + 1)
  {
    assert (s * a + c) * a == (s * a) * a + c * a;
    assert (s * a) * a == s * (a * a);
  }

  lemma {:induction false} StepsAreAffine(s: State48, k: nat)
    ensures StepN(s, Pow2(k)) == (s * Slope(k) + Offset(k)) % TWO48
    decreases k
  {
    if k == 0 {
      assert StepN(s, 1) == StepN(Step(s), 0);
    } else {
      var p, a, c := Pow2(k - 1), Slope(k - 1), Offset(k - 1);
      StepNAdd(s, p, p);
      StepsAreAffine(s, k - 1);
      StepsAreAffine(StepN(s, p), k - 1);
      AffineThenAffine(s, a, c);
    }
  }

  lemma AffineThenAffine(s: int, a: int, c: int)
    ensures ((s * a + c) % TWO48 * a + c) % TWO48 == (s * (a * a) + c * (a + 1)) % TWO48
  {
    ModLinear(s * a + c, TWO48, a, c);
    AffineTwice(s, a, c);
  }

  lemma SquareOfSlope(p: int, u: int)
    ensures (1 + 4 * p * u) * (1 + 4 * p * u) == 1 + 8 * p * (u + 2 * (p * u * u))
  {
    var w := p * u;
    assert (1 + 4 * w) * (1 + 4 * w) == 1 + 8 * w + 16 * (w * w);
    assert w * w == p * (p * u * u);
    assert p * (u + 2 * (p * u * u)) == w + 2 * (p * (p * u * u));
  }

  lemma OffsetTimesSlope(p: int, u: int, v: int)
    ensures p * (2 * v + 1) * (1 + 4 * p * u + 1) == 2 * p * (2 * (v + (2 * v + 1) * (p * u)) + 1)
  {
    var w, o := p * u, 2 * v + 1;
    assert o * (2 + 4 * w) == 2 * (o + 2 * (o * w));
    assert p * o * (2 + 4 * w) == p * (o * (2 + 4 * w));
  }

  /** Slopes are 1 modulo Pow2(k+2) and offsets are odd multiples of Pow2(k). */
  lemma {:induction false} SlopeAndOffset(k: nat) returns (u: int, v: int)
    ensures Slope(k) == 1 + 4 * Pow2(k) * u
    ensures Offset(k) == Pow2(k) * (2 * v + 1)
  {
    if k == 0 {
      u, v := (MULTIPLIER - 1) / 4, (ADDEND - 1) / 2;
    } else {
      var u0, v0 := SlopeAndOffset(k - 1);
      var p := Pow2(k - 1);
      SquareOfSlope(p, u0);
      OffsetTimesSlope(p, u0, v0);
      u := u0 + 2 * (p * u0 * u0);
      v := v0 + (2 * v0 + 1) * (p * u0);
    }
  }

  /** The state with its top bit, bit 47, flipped. */
  function FlipTop(s: State48): State48 {
    if s < TWO47 then s + TWO47 else s - TWO47
  }

  lemma HalfTurnIdentity(s: int, half: int, u: int, v: int)
    ensures s * (1 + 4 * half * u) + half * (2 * v + 1) == s + half + (2 * half) * (2 * (s * u) + v)
  {
    assert s * (4 * half * u) == (2 * half) * (2 * (s * u));
  }

  lemma HalfTurn(s: int, half: int, u: int, v: int)
    requires 0 <= s < 2 * half
    ensures (s * (1 + 4 * half * u) + half * (2 * v + 1)) % (2 * half) == if s < half then s + half else s - half
  {
    HalfTurnIdentity(s, half, u, v);
    var t := s + half;
    ModAddMultiple(t, 2 * half, 2 * (s * u) + v);
    DivModUnique(t, 2 * half, if s < half then 0 else 1, if s < half then t else s - half);
  }

  lemma FlipAfterPow2(s: State48, k: nat)
    requires Pow2(k) == TWO47
    ensures StepN(s, Pow2(k)) == FlipTop(s)
  {
    var u, v := SlopeAndOffset(k);
    StepsAreAffine(s, k);
    HalfTurn(s, Pow2(k), u, v);
  }

  /** 2^47 steps from any state give that state with its top bit flipped. */
  lemma HalfPeriodFlipsTopBit(s: State48)
    ensures StepN(s, TWO47) == FlipTop(s)
  {
    Pow2Values();
    FlipAfterPow2(s, 47);
  }

  lemma FlipTwice(s: State48)
    ensures FlipTop(FlipTop(s)) == s != FlipTop(s)
  {
  }

  /** The steps are the iteration of the step function. */
  lemma {:induction false} StepsIterate(s: State48, n: nat)
    ensures StepN(s, n) == Iterate(Step, s, n)
    decreases n, s
  {
    if n > 0 {
      StepsIterate(Step(s), n - 1);
    }
  }

  /** Every state returns after n steps exactly when n is a multiple of 2^48. */
  lemma FullPeriod(s: State48, n: nat)
    ensures StepN(s, n) == s <==> n % TWO48 == 0
  {
    Pow2Values();
    HalfPeriodFlipsTopBit(s);
    HalfPeriodFlipsTopBit(FlipTop(s));
    FlipTwice(s);
    StepsIterate(s, TWO47);
    StepsIterate(FlipTop(s), TWO47);
    StepsIterate(s, n);
    PeriodFromHalf(Step, s, FlipTop(s), 47, TWO47, n);
  }

  // ----- nextInt ---------------------------------------------------------------

  /** The 31 high bits of a state: next(31). */
  function Bits31(s: State48): (b: nat)
    ensures b < TWO31
  {
    s / 0x2_0000
  }

  /** The draw is kept: bits - val + (bound - 1) does not overflow int32. */
  predicate Accepts(bits: nat, bound: Bound) {
    bits - bits % bound + (bound - 1) < TWO31
  }

  lemma AcceptedDraws(bits: nat, bound: Bound)
    ensures Accepts(bits, bound) <==> bits < bound * (TWO31 / bound)
  {
    var q, k := TWO31 / bound, bits / bound;
    assert bits == bound * k + bits % bound;
    if k < q {
      MulLess(k, q, bound);
    } else {
      assert bound * k >= bound * q by {
        if q < k { MulLess(q, k, bound); }
      }
    }
  }

  /** A rejected draw has bit 47 of the state set. */
  lemma RejectedIsHigh(s: State48, bound: Bound)
    requires !Accepts(Bits31(s), bound)
    ensures s >= TWO47
  {
    AcceptedDraws(Bits31(s), bound);
    var q := TWO31 / bound;
    assert TWO31 == bound * q + TWO31 % bound;
    assert q >= 1;
    assert bound * q >= TWO31 / 2 by {
      if bound <= TWO31 / 2 {
      } else {
        assert bound * q >= bound * 1;
      }
    }
  }

  ghost function FirstLowFrom(s: State48, k: nat, n: nat): (r: nat)
    requires k <= n && StepN(s, n) < TWO47
    ensures k <= r <= n && StepN(s, r) < TWO47
    ensures forall i :: k <= i < r ==> StepN(s, i) >= TWO47
    decreases n - k
  {
    if StepN(s, k) < TWO47 then k else FirstLowFrom(s, k + 1, n)
  }

  /** Steps until the top bit is clear. */
  ghost function Wait(s: State48): (r: nat)
    ensures r <= TWO47 && StepN(s, r) < TWO47
    ensures forall i :: 0 <= i < r ==> StepN(s, i) >= TWO47
  {
    HalfPeriodFlipsTopBit(s);
    if s < TWO47 then 0 else FirstLowFrom(s, 0, TWO47)
  }

  lemma WaitShrinks(s: State48)
    requires s >= TWO47
    ensures Wait(Step(s)) == Wait(s) - 1
  {
    var w, w' := Wait(s), Wait(Step(s));
    assert StepN(s, 0) == s;
    assert StepN(s, w) == StepN(Step(s), w - 1);
    assert StepN(s, w' + 1) == StepN(Step(s), w');
  }

  /** The first accepted state after s. */
  function AcceptedState(s: State48, bound: Bound): (t: State48)
    ensures Accepts(Bits31(t), bound)
    decreases Wait(Step(s))
  {
    var t := Step(s);
    if Accepts(Bits31(t), bound) then t
    else
      RejectedIsHigh(t, bound);
      WaitShrinks(t);
      AcceptedState(t, bound)
  }

  /** The rejection loop ends: at most 2^47 draws are rejected, whatever the state and bound. */
  lemma {:induction false} RejectionLoopEnds(s: State48, bound: Bound) returns (rejected: nat)
    ensures rejected <= TWO47
    ensures AcceptedState(s, bound) == StepN(s, rejected + 1)
    ensures forall i :: 1 <= i <= rejected ==> !Accepts(Bits31(StepN(s, i)), bound)
    ensures rejected <= Wait(Step(s))
    decreases Wait(Step(s))
  {
    var t := Step(s);
    assert StepN(s, 1) == StepN(t, 0) == t;
    if Accepts(Bits31(t), bound) {
      rejected := 0;
    } else {
      RejectedIsHigh(t, bound);
      WaitShrinks(t);
      var r := RejectionLoopEnds(t, bound);
      rejected := r + 1;
      forall i | 1 <= i <= rejected
        ensures !Accepts(Bits31(StepN(s, i)), bound)
      {
        assert StepN(s, i) == StepN(t, i - 1);
        if i > 1 {
          assert 1 <= i - 1 <= r;
        }
      }
    }
  }

  /** x & -x: the lowest set bit. */
  function LowestSetBit(x: nat): nat
    requires x > 0
  {
    if x % 2 == 1 then 1 else 2 * LowestSetBit(x / 2)
  }

  lemma {:induction false} LowestSetBitIsPow2(x: nat)
    requires x > 0
    ensures LowestSetBit(x) == x <==> IsPow2(x)
  {
    if x % 2 == 1 {
      if IsPow2(x) {
        var k: nat :| x == Pow2(k);
        assert k == 0;
      } else {
        assert Pow2(0) == 1;
      }
    } else {
      LowestSetBitIsPow2(x / 2);
      if IsPow2(x / 2) {
        var k: nat :| x / 2 == Pow2(k);
        assert x == Pow2(k + 1);
      }
      if IsPow2(x) {
        var k: nat :| x == Pow2(k);
        assert k > 0 && x / 2 == Pow2(k - 1);
      }
    }
  }

  lemma ShiftBelowBound(bits: nat, bound: Bound)
    requires bits < TWO31
    ensures 0 <= bound * bits / TWO31 < bound
  {
    MulLess(bits, TWO31, bound);
  }

  datatype Drawn = Drawn(value: int, state: State48)

  /** nextInt(bound): the value and the state it leaves. */
  function NextInt(s: State48, bound: Bound): (d: Drawn)
    ensures 0 <= d.value < bound
  {
    if LowestSetBit(bound) == bound then
      var t := Step(s);
      ShiftBelowBound(Bits31(t), bound);
      Drawn(bound * Bits31(t) / TWO31, t)
    else
      var t := AcceptedState(s, bound);
      Drawn(Bits31(t) % bound, t)
  }

  // ----- uniformity ------------------------------------------------------------

  /** A contiguous range [lo, lo + n) has n elements. */
  lemma {:induction false} RangeSize(s: set<nat>, lo: nat, n: nat)
    requires forall x: nat :: x in s <==> lo <= x < lo + n
    ensures |s| == n
  {
    if n == 0 {
      assert s == {};
    } else {
      RangeSize(s - {lo + n - 1}, lo, n - 1);
    }
  }

  ghost function AcceptedWith(bound: Bound, value: nat, blocks: nat): set<nat> {
    set b: nat | b < bound * blocks && b % bound == value
  }

  lemma InLastBlock(bound: Bound, value: nat, blocks: nat, b: nat)
    requires value < bound && blocks > 0
    ensures b < bound * blocks && b % bound == value <==>
            (b < bound * (blocks - 1) && b % bound == value) || b == bound * (blocks - 1) + value
    ensures bound * (blocks - 1) + value >= bound * (blocks - 1)
  {
    var base := bound * (blocks - 1);
    assert bound * blocks == base + bound;
    ModAddMultiple(value, bound, blocks - 1);
    DivModUnique(value, bound, 0, value);
    if base <= b < base + bound {
      DivModUnique(b, bound, blocks - 1, b - base);
    }
  }

  lemma NoBlocks(bound: Bound, value: nat)
    ensures AcceptedWith(bound, value, 0) == {}
  {
  }

  /** One more block of the bound's size adds one draw. */
  lemma OneMoreBlock(bound: Bound, value: nat, blocks: nat, x: nat)
    requires value < bound && blocks > 0 && x == bound * (blocks - 1) + value
    ensures AcceptedWith(bound, value, blocks) == AcceptedWith(bound, value, blocks - 1) + {x}
    ensures x !in AcceptedWith(bound, value, blocks - 1)
  {
    forall b: nat
      ensures b in AcceptedWith(bound, value, blocks) <==> b in AcceptedWith(bound, value, blocks - 1) || b == x
    {
      InLastBlock(bound, value, blocks, b);
    }
  }

  lemma {:induction false} AcceptedWithSize(bound: Bound, value: nat, blocks: nat)
    requires value < bound
    ensures |AcceptedWith(bound, value, blocks)| == blocks
  {
    if blocks == 0 {
      NoBlocks(bound, value);
    } else {
      AcceptedWithSize(bound, value, blocks - 1);
      OneMoreBlock(bound, value, blocks, bound * (blocks - 1) + value);
    }
  }

  /** Every value below the bound has the same number of accepted 31-bit draws. */
  lemma RejectionIsUniform(bound: Bound, value: nat)
    requires value < bound
    ensures |set b: nat | b < TWO31 && Accepts(b, bound) && b % bound == value| == TWO31 / bound
  {
    var q := TWO31 / bound;
    AcceptedWithSize(bound, value, q);
    forall b: nat
      ensures Accepts(b, bound) <==> b < bound * q
    {
      AcceptedDraws(b, bound);
    }
    assert (set b: nat | b < TWO31 && Accepts(b, bound) && b % bound == value) == AcceptedWith(bound, value, q);
  }

  /** On the power-of-two path every value has the same number of draws as well. */
  lemma ShiftIsUniform(bound: Bound, value: nat)
    requires IsPow2(bound) && value < bound
    ensures |set b: nat | b < TWO31 && bound * b / TWO31 == value| == TWO31 / bound
  {
    var w := Pow2Divides(bound);
    DivModUnique(TWO31, bound, w, 0);
    var s := set b: nat | b < TWO31 && bound * b / TWO31 == value;
    MulLess(value, bound, w);
    forall b: nat
      ensures b in s <==> value * w <= b < value * w + w
    {
      DivDiv(bound * b, bound, w);
      DivModUnique(bound * b, bound, b, 0);
      QuotientIs(b, w, value);
    }
    RangeSize(s, value * w, w);
  }

  lemma Pow2Divides(bound: Bound) returns (w: nat)
    requires IsPow2(bound)
    ensures w > 0 && bound * w == TWO31
  {
    var k: nat :| bound == Pow2(k);
    Pow2Values();
    Pow2Order(k, 31);
    Pow2Add(k, 31 - k);
    w := Pow2(31 - k);
  }

  lemma QuotientIs(b: nat, w: nat, value: nat)
    requires w > 0
    ensures b / w == value <==> value * w <= b < value * w + w
  {
    if value * w <= b < value * w + w {
      DivModUnique(b, w, value, b - value * w);
    }
  }

  /** What nextInt makes of a 31-bit draw: a result, or nothing when it draws again. */
  function Kept(bits: nat, bound: Bound): Option<int> {
    if LowestSetBit(bound) == bound then Some(bound * bits / TWO31)
    else if Accepts(bits, bound) then Some(bits % bound)
    else None
  }

  /** nextInt returns the result of the first draw that is kept. */
  lemma NextIntIsFirstKept(s: State48, bound: Bound) returns (rejected: nat)
    ensures rejected <= TWO47
    ensures NextInt(s, bound).state == StepN(s, rejected + 1)
    ensures Kept(Bits31(StepN(s, rejected + 1)), bound) == Some(NextInt(s, bound).value)
    ensures forall i :: 1 <= i <= rejected ==> Kept(Bits31(StepN(s, i)), bound) == None
  {
    if LowestSetBit(bound) == bound {
      rejected := 0;
      assert StepN(s, 1) == StepN(Step(s), 0) == Step(s);
    } else {
      rejected := RejectionLoopEnds(s, bound);
    }
  }

  /** For every bound, each result has the same number of draws that are kept for it. */
  lemma NextIntIsUniform(bound: Bound, value: nat)
    requires value < bound
    ensures |set b: nat | b < TWO31 && Kept(b, bound) == Some(value as int)| == TWO31 / bound
  {
    var kept := set b: nat | b < TWO31 && Kept(b, bound) == Some(value as int);
    LowestSetBitIsPow2(bound);
    if LowestSetBit(bound) == bound {
      ShiftIsUniform(bound, value);
      assert kept == set b: nat | b < TWO31 && bound * b / TWO31 == value;
    } else {
      RejectionIsUniform(bound, value);
      assert kept == set b: nat | b < TWO31 && Accepts(b, bound) && b % bound == value;
    }
  }

  // ----- known draws -----------------------------------------------------------------

  /** A draw below 1000 from the state after the step, by the definition of the generator. */
  lemma DrawBelow1000(s: State48, bound: Bound, t: State48, value: nat)
    requires bound == 1000 && t == (s * 0x5DEECE66D + 0xB) % 0x1_0000_0000_0000
    requires value == t / 0x2_0000 % 1000 && t / 0x2_0000 - value + 999 < 0x8000_0000
    ensures NextInt(s, bound) == Drawn(value, t)
  {
    assert LowestSetBit(125) == 1 && LowestSetBit(1000) == 8;
    assert Step(s) == t;
    AcceptedState1(s, t, bound);
  }

  lemma AcceptedState1(s: State48, t: State48, bound: Bound)
    requires t == Step(s) && Accepts(Bits31(t), bound)
    ensures AcceptedState(s, bound) == t
  {
  }

  /**
    Seed 0: the first draws that all engines share, 360, 948 and 29 at bound 1000; at
    bound 1024 the third is 246.
   */
  lemma SeedZeroDraws(s: State48, t: State48, u: State48, v: State48, bound: Bound, power: Bound)
    requires s == 25214903917 // Scramble(0)
    requires t == 205749139540596 && u == 234029835660143 && v == 67704983304270
    requires bound == 1000 && power == 1024
    ensures NextInt(s, bound) == Drawn(360, t)
    ensures NextInt(t, bound) == Drawn(948, u)
    ensures NextInt(u, bound) == Drawn(29, v)
    ensures NextInt(u, power) == Drawn(246, v)
  {
    SeedZeroSteps(s, t, u, v);
    DrawBelow1000(s, bound, t, 360);
    DrawBelow1000(t, bound, u, 948);
    DrawBelow1000(u, bound, v, 29);
    DrawBelow1024(u, power, v, 246);
  }

  lemma SeedZeroSteps(s: int, t: int, u: int, v: int)
    requires s == 25214903917 && t == 205749139540596 && u == 234029835660143 && v == 67704983304270
    ensures t == (s * 0x5DEECE66D + 0xB) % 0x1_0000_0000_0000
    ensures u == (t * 0x5DEECE66D + 0xB) % 0x1_0000_0000_0000
    ensures v == (u * 0x5DEECE66D + 0xB) % 0x1_0000_0000_0000
  {
  }

  lemma DrawBelow1024(s: State48, bound: Bound, t: State48, value: nat)
    requires bound == 1024 && t == (s * 0x5DEECE66D + 0xB) % 0x1_0000_0000_0000
    requires value == 1024 * (t / 0x2_0000) / 0x8000_0000
    ensures NextInt(s, bound) == Drawn(value, t)
  {
    assert LowestSetBit(1024) == 1024;
    assert Step(s) == t;
  }

  lemma ScrambleZero(seed: int)
    requires seed == 0
    ensures Scramble(seed) == 25214903917
  {
    BitXorCommutes(0, MULTIPLIER);
    BitXorZero(MULTIPLIER);
  }
}
