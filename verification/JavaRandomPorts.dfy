/**
  The ports of java.util.Random. Each keeps the state in a field and steps it
  with its own language's arithmetic; each is proved against Lcg.Step and
  Lcg.NextInt, so their streams are one stream.
 */
module JavaRandomPorts {
  import opened Arithmetic
  import opened FixedWidth
  import opened Lcg
  import opened Wrappers

  /** (seed ^ MULTIPLIER) & mask on 64-bit integers, a negative seed in two's complement. */
  function WrappedScramble(seed: int): int {
    BitXor(seed % TWO64, MULTIPLIER) % TWO48
  }

  lemma WrappedScrambleIs(seed: int)
    ensures WrappedScramble(seed) == Scramble(seed)
  {
    var k := FortyEight();
    BitXorLow(seed % TWO64, MULTIPLIER, k);
    ModOfMod(seed, TWO48, 0x1_0000);
    DivModUnique(MULTIPLIER, TWO48, 0, MULTIPLIER);
  }

  /** The same on unbounded integers. */
  lemma ExactScrambleIs(seed: int)
    ensures XorSigned(MULTIPLIER, seed) % TWO48 == Scramble(seed)
  {
    var k := FortyEight();
    XorSignedLow(MULTIPLIER, seed, k);
    DivModUnique(MULTIPLIER, TWO48, 0, MULTIPLIER);
    BitXorCommutes(MULTIPLIER, seed % TWO48);
  }

  lemma FortyEight() returns (k: nat)
    ensures k == 48 && Pow2(k) == TWO48
  {
    k := 48;
    Pow2Values();
  }

  /** Keep the low 32 bits, then read them as signed. */
  function ToInt32(x: int): int {
    var low := x % TWO32;
    if low >= TWO31 then low - TWO32 else low
  }

  /** Masking with 2^48 - 1 after a wrap at 64 bits keeps the low 48 bits of the exact value. */
  lemma WrapKeepsLowBits(x: int)
    ensures WrapInt64(x) % TWO48 == x % TWO48
  {
    var k := (x + TWO63) / TWO64;
    assert WrapInt64(x) == x + TWO48 * (-0x1_0000 * k);
    ModAddMultiple(x, TWO48, -0x1_0000 * k);
  }

  lemma WrappedStep(s: State48)
    ensures WrapInt64(WrapInt64(s * MULTIPLIER) + ADDEND) % TWO48 == Step(s)
  {
    var p := s * MULTIPLIER;
    WrapKeepsLowBits(p);
    WrapKeepsLowBits(WrapInt64(p) + ADDEND);
    ModLinear(WrapInt64(p), TWO48, 1, ADDEND);
    ModLinear(p, TWO48, 1, ADDEND);
  }

  /** The product fits 64 bits for small states only; Go's wrap is needed for all others. */
  lemma ProductFits(s: State48)
    ensures s * MULTIPLIER + ADDEND < TWO63 <==> s <= 365_790_489
    ensures WrapInt64(s * MULTIPLIER + ADDEND) == s * MULTIPLIER + ADDEND <==> s <= 365_790_489
  {
  }

  /** The 24-bit split product: no partial result reaches 2^63, and the low 48 bits are exact. */
  lemma SplitProduct(s: State48)
    ensures var lo, hi := s % TWO24, (s / TWO24) % TWO24;
            && 0 <= lo * MULTIPLIER < TWO63
            && 0 <= hi * MULTIPLIER < TWO63
            && 0 <= lo * MULTIPLIER + (hi * MULTIPLIER) % TWO24 * TWO24 < TWO63
            && (lo * MULTIPLIER + (hi * MULTIPLIER) % TWO24 * TWO24) % TWO48 == (s * MULTIPLIER) % TWO48
  {
    var lo, hi := s % TWO24, s / TWO24;
    assert hi < TWO24 && hi % TWO24 == hi;
    var k := (hi * MULTIPLIER) / TWO24;
    var split := lo * MULTIPLIER + (hi * MULTIPLIER) % TWO24 * TWO24;
    assert s * MULTIPLIER == split + TWO48 * k;
    ModAddMultiple(split, TWO48, k);
  }

  lemma SplitStep(s: State48, product: State48)
    requires product == (s * MULTIPLIER) % TWO48
    ensures (product + ADDEND) % TWO48 == Step(s)
  {
    ModLinear(s * MULTIPLIER, TWO48, 1, ADDEND);
  }

  lemma OverflowTests(bits: int, val: int, bound: Bound)
    requires 0 <= val <= bits < TWO31
    ensures WrapInt32(WrapInt32(bits - val) + (bound - 1)) >= 0 <==> bits - val + (bound - 1) < TWO31
    ensures ToInt32(bits - val + (bound - 1)) >= 0 <==> bits - val + (bound - 1) < TWO31
  {
  }

  /** The accept tests of all ports decide the same thing. */
  lemma AcceptTestsAgree(bits: nat, bound: Bound)
    requires bits < TWO31
    ensures WrapInt32(WrapInt32(bits - bits % bound) + (bound - 1)) >= 0 <==> Accepts(bits, bound)
    ensures ToInt32(bits - bits % bound + (bound - 1)) >= 0 <==> Accepts(bits, bound)
    ensures bits - bits % bound + (bound - 1) <= 2147483647 <==> Accepts(bits, bound)
  {
    var k := bits / bound;
    assert bits == bound * k + bits % bound;
    assert bound * k >= 0;
    OverflowTests(bits, bits % bound, bound);
  }

  // ----- bounds of 2^31 and more ---------------------------------------------------

  /** PHP's test accepts some draw exactly for bounds up to 2^31; above, the rejection loop never ends. */
  lemma SplitAcceptsSome(bound: int)
    requires bound > 0
    ensures (exists bits: nat :: bits < TWO31 && bits - bits % bound + (bound - 1) <= 2147483647) <==> bound <= TWO31
  {
    if bound <= TWO31 {
      assert 0 - 0 % bound + (bound - 1) <= 2147483647;
    } else {
      forall bits: nat | bits < TWO31
        ensures bits - bits % bound + (bound - 1) > 2147483647
      {
        DivModUnique(bits, bound, 0, bits);
      }
    }
  }

  /** The exact-integer ports accept every draw or none, by the low 32 bits of the bound, and return it as it is. */
  lemma ExactAcceptsAllOrNone(bits: nat, bound: int)
    requires bits < TWO31 <= bound
    ensures bits % bound == bits
    ensures ToInt32(bits - bits % bound + (bound - 1)) >= 0 <==> (bound - 1) % TWO32 < TWO31
  {
    DivModUnique(bits, bound, 0, bits);
  }

  /** At powers of two Python shifts instead: it returns the draw times bound / 2^31, past 31 bits. */
  lemma PythonShift(bits: nat, bound: int, k: nat)
    requires bits < TWO31 && bound == TWO31 * k
    ensures bound * bits / TWO31 == k * bits
  {
    assert bound * bits == TWO31 * (k * bits);
    DivModUnique(bound * bits, TWO31, k * bits, 0);
  }

  /** Go's test on a bound truncated to int32; the remainder takes the sign of the draw. */
  predicate GoAccepts(bits: nat, bound: int)
    requires WrapInt32(bound) != 0
  {
    var b := WrapInt32(bound);
    var size := if b < 0 then -b else b;
    WrapInt32(WrapInt32(bits - bits % size) + WrapInt32(bound - 1)) >= 0
  }

  /** The test is on the sum of a multiple of the size and the truncated bound - 1. */
  lemma GoTest(bits: nat, bound: int, size: nat, k: nat)
    requires bits < TWO31 && WrapInt32(bound) != 0
    requires size == (if WrapInt32(bound) < 0 then -WrapInt32(bound) else WrapInt32(bound)) && k == bits / size
    ensures 0 <= k * size <= bits && bits - bits % size == k * size
    ensures GoAccepts(bits, bound) <==> 0 <= k * size + WrapInt32(bound - 1) < TWO31
  {
    DivBounds(bits, size);
    assert bits - bits % size == k * size;
    WrappedSum(k * size, WrapInt32(bound - 1));
  }

  lemma WrappedSum(a: int, b: int)
    requires 0 <= a < TWO31 && -TWO31 <= b < TWO31
    ensures WrapInt32(WrapInt32(a) + b) >= 0 <==> 0 <= a + b < TWO31
  {
  }

  /** Go draws below the bound's low 32 bits when they are positive as an int32. */
  lemma GoTruncatesBound(bits: nat, bound: int)
    requires bits < TWO31 && 0 < WrapInt32(bound) && bound >= TWO31
    ensures GoAccepts(bits, bound) <==> Accepts(bits, WrapInt32(bound))
  {
    var b := WrapInt32(bound);
    WrapBefore(bound);
    GoTest(bits, bound, b, bits / b);
  }

  /** When they are negative, it accepts the draws from twice their size on, and all of them at -2^31. */
  lemma GoNegativeBound(bits: nat, bound: int)
    requires bits < TWO31 && WrapInt32(bound) < 0
    ensures var b := WrapInt32(bound);
            GoAccepts(bits, bound) <==> b == -TWO31 || bits >= -2 * b
  {
    var size := -WrapInt32(bound);
    var k := bits / size;
    WrapBefore(bound);
    GoTest(bits, bound, size, k);
    TwiceOrMore(bits, size, k);
    WholeMultiples(size, k);
  }

  lemma WrapBefore(bound: int)
    ensures WrapInt32(bound - 1) == if WrapInt32(bound) == -TWO31 then TWO31 - 1 else WrapInt32(bound) - 1
  {
  }

  lemma TwiceOrMore(bits: nat, n: nat, k: nat)
    requires n > 0 && k == bits / n
    ensures bits >= 2 * n <==> k >= 2
  {
    DivBounds(bits, n);
    if k >= 2 {
      MulAtLeast(k - 1, n);
      assert k * n == (k - 1) * n + n;
    } else {
      assert k == 0 || k == 1;
    }
  }

  lemma WholeMultiples(n: int, k: nat)
    requires n > 0
    ensures n * k >= 0 && (k < 2 ==> n * k <= n) && (k >= 2 ==> n * k >= 2 * n)
  {
    if k >= 2 {
      assert n * k == n * (k - 2) + 2 * n;
      assert n * (k - 2) >= 0;
    }
  }

  /** So Go's loop can end exactly for positive low halves, and negative ones of size below 2^30 or of 2^31. */
  lemma GoAcceptsSome(bound: int)
    requires WrapInt32(bound) != 0 && bound >= TWO31
    ensures var b := WrapInt32(bound);
            (exists bits: nat :: bits < TWO31 && GoAccepts(bits, bound)) <==> b > 0 || b == -TWO31 || -2 * b < TWO31
  {
    var b, top := WrapInt32(bound), TWO31 - 1;
    if b > 0 {
      GoTruncatesBound(0, bound);
      assert GoAccepts(0, bound);
    } else {
      forall bits: nat | bits < TWO31
        ensures GoAccepts(bits, bound) <==> b == -TWO31 || bits >= -2 * b
      {
        GoNegativeBound(bits, bound);
      }
      assert GoAccepts(top, bound) <==> b == -TWO31 || top >= -2 * b;
    }
  }

  /** For one bound above 2^31 PHP accepts no draw, Python and Node all of them, and Go draws 0. */
  lemma LargeBoundsDiffer(bits: nat, bound: int)
    requires bits < TWO31 && bound == TWO32 + 1
    ensures bits - bits % bound + (bound - 1) > 2147483647
    ensures ToInt32(bits - bits % bound + (bound - 1)) >= 0
    ensures WrapInt32(bound) == 1
  {
    ExactAcceptsAllOrNone(bits, bound);
  }

  lemma ThirtyOneBits(s: State48)
    ensures s / Pow2(48 - 31) == Bits31(s)
    ensures WrapInt32(s / Pow2(48 - 31)) == Bits31(s)
  {
    Pow2Values();
    Pow2Add(16, 1);
  }

  /** One draw of the loop: accepted, or the wait for a low state has shrunk. */
  lemma DrawStep(s: State48, bound: Bound)
    ensures var t := Step(s);
            if Accepts(Bits31(t), bound) then AcceptedState(s, bound) == t
            else AcceptedState(s, bound) == AcceptedState(t, bound) && Wait(Step(t)) < Wait(t)
  {
    var t := Step(s);
    if !Accepts(Bits31(t), bound) {
      RejectedIsHigh(t, bound);
      WaitShrinks(t);
    }
  }

  /** int64 arithmetic with wrap-around (Go, Rust). */
  class WrappingRandom {
    var seed: int

    predicate Valid()
      reads this
    {
      0 <= seed < TWO48
    }

    constructor (s: int)
      ensures Valid() && seed == Scramble(s)
    {
      WrappedScrambleIs(s);
      seed := WrappedScramble(s);
    }

    method SetSeed(s: int)
      modifies this
      ensures Valid() && seed == Scramble(s)
    {
      WrappedScrambleIs(s);
      seed := WrappedScramble(s);
    }

    method Next(bits: nat) returns (r: int)
      requires Valid() && 1 <= bits <= 32
      modifies this
      ensures Valid() && seed == Step(old(seed))
      ensures r == WrapInt32(seed / Pow2(48 - bits))
    {
      WrappedStep(seed);
      seed := WrapInt64(WrapInt64(seed * MULTIPLIER) + ADDEND) % TWO48;
      r := WrapInt32(seed / Pow2(48 - bits));
    }

    method Next31() returns (r: int)
      requires Valid()
      modifies this
      ensures Valid() && seed == Step(old(seed)) && r == Bits31(seed)
    {
      r := Next(31);
      ThirtyOneBits(seed);
    }

    method NextInt(bound: int) returns (r: Result<int>)
      requires Valid() && bound < TWO31
      modifies this
      ensures Valid()
      ensures bound <= 0 ==> r.Err? && seed == old(seed)
      ensures bound > 0 ==> r.Ok? && Lcg.NextInt(old(seed), bound) == Drawn(r.value, seed)
    {
      if bound <= 0 {
        return Err("bound must be positive");
      }
      if LowestSetBit(bound) == bound {
        var bits := Next31();
        return Ok(bound * bits / TWO31);
      }
      var val := DrawUntilAccepted(bound);
      return Ok(val);
    }

    method DrawUntilAccepted(bound: Bound) returns (val: int)
      requires Valid()
      modifies this
      ensures Valid() && seed == AcceptedState(old(seed), bound)
      ensures val == Bits31(seed) % bound
    {
      while true
        invariant Valid() && AcceptedState(seed, bound) == AcceptedState(old(seed), bound)
        decreases Wait(Step(seed))
      {
        DrawStep(seed, bound);
        var accepted;
        val, accepted := TryDraw(bound);
        if accepted {
          return;
        }
      }
    }

    /** One pass of the loop. */
    method TryDraw(bound: Bound) returns (val: int, accepted: bool)
      requires Valid()
      modifies this
      ensures Valid() && seed == Step(old(seed)) && val == Bits31(seed) % bound
      ensures accepted <==> Accepts(Bits31(seed), bound)
    {
      var bits := Next31();
      val := bits % bound;
      AcceptTestsAgree(bits, bound);
      accepted := WrapInt32(WrapInt32(bits - val) + (bound - 1)) >= 0;
    }
  }

  /** 64-bit arithmetic without overflow: the product is split at 24 bits (PHP). */
  class SplitRandom {
    var seed: int

    predicate Valid()
      reads this
    {
      0 <= seed < TWO48
    }

    constructor (s: int)
      ensures Valid() && seed == Scramble(s)
    {
      WrappedScrambleIs(s);
      seed := WrappedScramble(s);
    }

    method SetSeed(s: int)
      modifies this
      ensures Valid() && seed == Scramble(s)
    {
      WrappedScrambleIs(s);
      seed := WrappedScramble(s);
    }

    method NextBits(bits: nat) returns (r: int)
      requires Valid() && 1 <= bits <= 32
      modifies this
      ensures Valid() && seed == Step(old(seed))
      ensures r == seed / Pow2(48 - bits)
    {
      SplitProduct(seed);
      var lo := seed % TWO24;
      var hi := (seed / TWO24) % TWO24;
      var product := (lo * MULTIPLIER + (hi * MULTIPLIER) % TWO24 * TWO24) % TWO48;
      SplitStep(seed, product);
      seed := (product + ADDEND) % TWO48;
      r := seed / Pow2(48 - bits);
    }

    method NextInt(bound: int) returns (r: Result<int>)
      requires Valid() && bound < TWO31
      modifies this
      ensures Valid()
      ensures bound <= 0 ==> r.Err? && seed == old(seed)
      ensures bound > 0 ==> r.Ok? && Lcg.NextInt(old(seed), bound) == Drawn(r.value, seed)
    {
      if bound <= 0 {
        return Err("bound must be positive");
      }
      if LowestSetBit(bound) == bound {
        var bits := NextBits(31);
        ThirtyOneBits(seed);
        return Ok(bound * bits / TWO31);
      }
      var val := DrawUntilAccepted(bound);
      return Ok(val);
    }

    method DrawUntilAccepted(bound: Bound) returns (val: int)
      requires Valid()
      modifies this
      ensures Valid() && seed == AcceptedState(old(seed), bound)
      ensures val == Bits31(seed) % bound
    {
      while true
        invariant Valid() && AcceptedState(seed, bound) == AcceptedState(old(seed), bound)
        decreases Wait(Step(seed))
      {
        DrawStep(seed, bound);
        var accepted;
        val, accepted := TryDraw(bound);
        if accepted {
          return;
        }
      }
    }

    /** One pass of the loop. */
    method TryDraw(bound: Bound) returns (val: int, accepted: bool)
      requires Valid()
      modifies this
      ensures Valid() && seed == Step(old(seed)) && val == Bits31(seed) % bound
      ensures accepted <==> Accepts(Bits31(seed), bound)
    {
      var bits := NextBits(31);
      ThirtyOneBits(seed);
      val := bits % bound;
      AcceptTestsAgree(bits, bound);
      accepted := bits - val + (bound - 1) <= 2147483647;
    }
  }

  /** Exact integers (Python, and Node with BigInt). */
  class ExactRandom {
    var seed: int

    predicate Valid()
      reads this
    {
      0 <= seed < TWO48
    }

    constructor (s: int)
      ensures Valid() && seed == Scramble(s)
    {
      ExactScrambleIs(s);
      seed := XorSigned(MULTIPLIER, s) % TWO48;
    }

    method SetSeed(s: int)
      modifies this
      ensures Valid() && seed == Scramble(s)
    {
      ExactScrambleIs(s);
      seed := XorSigned(MULTIPLIER, s) % TWO48;
    }

    method NextBits(bits: nat) returns (r: int)
      requires Valid() && 1 <= bits <= 32
      modifies this
      ensures Valid() && seed == Step(old(seed))
      ensures r == seed / Pow2(48 - bits)
    {
      seed := (seed * MULTIPLIER + ADDEND) % TWO48;
      r := seed / Pow2(48 - bits);
    }

    method NextInt(bound: int) returns (r: Result<int>)
      requires Valid() && bound < TWO31
      modifies this
      ensures Valid()
      ensures bound <= 0 ==> r.Err? && seed == old(seed)
      ensures bound > 0 ==> r.Ok? && Lcg.NextInt(old(seed), bound) == Drawn(r.value, seed)
    {
      if bound <= 0 {
        return Err("bound must be positive");
      }
      if LowestSetBit(bound) == bound {
        var bits := NextBits(31);
        ThirtyOneBits(seed);
        return Ok(bound * bits / TWO31);
      }
      var val := DrawUntilAccepted(bound);
      return Ok(val);
    }

    method DrawUntilAccepted(bound: Bound) returns (val: int)
      requires Valid()
      modifies this
      ensures Valid() && seed == AcceptedState(old(seed), bound)
      ensures val == Bits31(seed) % bound
    {
      while true
        invariant Valid() && AcceptedState(seed, bound) == AcceptedState(old(seed), bound)
        decreases Wait(Step(seed))
      {
        DrawStep(seed, bound);
        var accepted;
        val, accepted := TryDraw(bound);
        if accepted {
          return;
        }
      }
    }

    /** One pass of the loop. */
    method TryDraw(bound: Bound) returns (val: int, accepted: bool)
      requires Valid()
      modifies this
      ensures Valid() && seed == Step(old(seed)) && val == Bits31(seed) % bound
      ensures accepted <==> Accepts(Bits31(seed), bound)
    {
      var bits := NextBits(31);
      ThirtyOneBits(seed);
      val := bits % bound;
      AcceptTestsAgree(bits, bound);
      accepted := ToInt32(bits - val + (bound - 1)) >= 0;
    }
  }

  /** The values a generator in state s gives for a sequence of bounds. */
  function Stream(s: State48, bounds: seq<Bound>): (values: seq<int>)
    ensures |values| == |bounds|
    decreases |bounds|
  {
    if bounds == [] then []
    else
      var d := Lcg.NextInt(s, bounds[0]);
      [d.value] + Stream(d.state, bounds[1..])
  }

  lemma StreamStep(s: State48, bounds: seq<Bound>, i: nat)
    requires i < |bounds|
    ensures var d := Lcg.NextInt(s, bounds[i]);
            Stream(s, bounds[i..]) == [d.value] + Stream(d.state, bounds[i + 1..])
  {
    assert bounds[i..][1..] == bounds[i + 1..];
  }

  lemma Prepend(values: seq<int>, v: int, rest: seq<int>)
    ensures values + ([v] + rest) == values + [v] + rest
  {
  }

  /** One draw from each port. */
  method DrawFromAll(w: WrappingRandom, p: SplitRandom, e: ExactRandom, bound: Bound) returns (a: int, b: int, c: int)
    requires w.Valid() && p.Valid() && e.Valid() && w.seed == p.seed == e.seed
    modifies w, p, e
    ensures w.Valid() && p.Valid() && e.Valid() && w.seed == p.seed == e.seed
    ensures a == b == c && Lcg.NextInt(old(w.seed), bound) == Drawn(a, w.seed)
  {
    var fromWrapping := w.NextInt(bound);
    var fromSplit := p.NextInt(bound);
    var fromExact := e.NextInt(bound);
    a, b, c := fromWrapping.value, fromSplit.value, fromExact.value;
  }

  /** All ports, seeded alike and asked for the same bounds, give the same values. */
  method PortsGiveOneStream(s: int, bounds: seq<Bound>)
    returns (wrapping: seq<int>, split: seq<int>, exact: seq<int>)
    ensures wrapping == split == exact == Stream(Scramble(s), bounds)
  {
    var w := new WrappingRandom(s);
    var p := new SplitRandom(s);
    var e := new ExactRandom(s);
    wrapping, split, exact := [], [], [];
    for i := 0 to |bounds|
      invariant w.Valid() && p.Valid() && e.Valid() && w.seed == p.seed == e.seed
      invariant wrapping == split == exact
      invariant wrapping + Stream(w.seed, bounds[i..]) == Stream(Scramble(s), bounds)
    {
      StreamStep(w.seed, bounds, i);
      var a, b, c := DrawFromAll(w, p, e, bounds[i]);
      Prepend(wrapping, a, Stream(w.seed, bounds[i + 1..]));
      wrapping, split, exact := wrapping + [a], split + [b], exact + [c];
    }
  }
}
