/** Powers of two, Euclidean division, bit lengths and bitwise "or" on naturals. */
module Arithmetic {

  function Pow2(n: nat): (r: nat)
    ensures r > 0
  {
    if n == 0 then 1 else 2 * Pow2(n - 1)
  }

  function Pow10(n: nat): (r: nat)
    ensures r > 0
  {
    if n == 0 then 1 else 10 * Pow10(n - 1)
  }

  lemma {:induction false} Pow2Add(a: nat, b: nat)
    ensures Pow2(a + b) == Pow2(a) * Pow2(b)
  {
    if a > 0 {
      Pow2Add(a - 1, b);
    }
  }

  lemma {:induction false} Pow2Monotone(a: nat, b: nat)
    requires a <= b
    ensures Pow2(a) <= Pow2(b)
  {
    if a < b {
      Pow2Monotone(a, b - 1);
    }
  }

  lemma Pow2Order(a: nat, b: nat)
    ensures Pow2(a) < Pow2(b) <==> a < b
  {
    if a < b {
      Pow2Monotone(a + 1, b);
    } else {
      Pow2Monotone(b, a);
    }
  }

  lemma Pow2Values()
    ensures Pow2(7) == 0x80 && Pow2(8) == 0x100 && Pow2(16) == 0x1_0000
    ensures Pow2(31) == 0x8000_0000 && Pow2(32) == 0x1_0000_0000
    ensures Pow2(47) == 0x8000_0000_0000 && Pow2(48) == 0x1_0000_0000_0000
    ensures Pow2(63) == 0x8000_0000_0000_0000 && Pow2(64) == 0x1_0000_0000_0000_0000
  {
    assert Pow2(4) == 16;
    Pow2Add(4, 4);
    Pow2Add(8, 8);
    Pow2Add(16, 16);
    Pow2Add(32, 16);
    Pow2Add(32, 32);
    assert Pow2(7) == 0x80;
  }

  /** Quotient and remainder are determined by the division identity. */
  lemma DivModUnique(x: int, m: int, q: int, r: int)
    requires m > 0 && 0 <= r < m && x == m * q + r
    ensures x / m == q && x % m == r
  {
    var d := q - x / m;
    assert m * d == x % m - r;
    assert d > 0 ==> m * d >= m;
    assert d < 0 ==> m * d <= -m;
  }

  lemma ModAddMultiple(x: int, m: int, k: int)
    requires m > 0
    ensures (x + m * k) % m == x % m
    ensures (x + m * k) / m == x / m + k
  {
    DivModUnique(x + m * k, m, x / m + k, x % m);
  }

  /** A linear step modulo m may reduce its argument first. */
  lemma ModLinear(x: int, m: int, k: int, c: int)
    requires m > 0
    ensures ((x % m) * k + c) % m == (x * k + c) % m
  {
    var q := x / m;
    assert x * k + c == (x % m) * k + c + m * (q * k) by {
      assert x == m * q + x % m;
      assert (m * q + x % m) * k == m * (q * k) + (x % m) * k;
    }
    ModAddMultiple((x % m) * k + c, m, q * k);
  }

  lemma ModSum(a: int, b: int, m: int)
    requires m > 0
    ensures (a + b) % m == if a % m + b % m < m then a % m + b % m else a % m + b % m - m
  {
    var c, k := a % m + b % m, a / m + b / m;
    assert a + b == c + m * k by {
      assert a == m * (a / m) + a % m && b == m * (b / m) + b % m;
    }
    if c < m {
      DivModUnique(a + b, m, k, c);
    } else {
      assert a + b == m * (k + 1) + (c - m);
      DivModUnique(a + b, m, k + 1, c - m);
    }
  }

  /** Remainders by a multiple of m determine remainders by m. */
  lemma ModOfMod(x: int, m: int, k: int)
    requires m > 0 && k > 0
    ensures m * k > 0 && (x % (m * k)) % m == x % m
  {
    var q := x / (m * k);
    assert x == x % (m * k) + m * (k * q);
    ModAddMultiple(x % (m * k), m, k * q);
  }

  lemma MulLess(a: int, b: int, m: int)
    requires m > 0 && a < b
    ensures a * m + m <= b * m
  {
    var d := b - a - 1;
    assert d * m >= 0;
    assert b * m == (a + 1 + d) * m == a * m + m + d * m;
  }

  lemma DivMonotone(a: int, b: int, m: int)
    requires m > 0 && a <= b
    ensures a / m <= b / m
  {
    if b / m < a / m {
      MulLess(b / m, a / m, m);
    }
  }

  lemma MulAtLeast(a: int, b: int)
    requires a > 0 && b > 0
    ensures a * b >= b && a * b >= a && (a - 1) * b >= 0
  {
    var c := a - 1;
    assert c * b >= 0 && c * b == a * b - b;
    var d := b - 1;
    assert a * d >= 0 && a * d == a * b - a;
  }

  lemma DivBounds(v: nat, w: nat)
    requires w > 0
    ensures v / w >= 0
    ensures 0 <= v / w * w <= v < v / w * w + w
  {
    assert v == w * (v / w) + v % w;
  }

  lemma DivBelow(v: nat, k: nat, w: nat)
    requires w > 0 && v < k * w
    ensures v / w < k
  {
    var q := v / w;
    assert w * q <= v;
    if k < q {
      MulLess(k, q, w);
    }
  }

  lemma DivAtLeast(v: nat, k: nat, w: nat)
    requires w > 0 && k * w <= v
    ensures v / w >= k
  {
    DivMonotone(k * w, v, w);
    DivModUnique(k * w, w, k, 0);
  }

  // ----- common divisors ---------------------------------------------------------

  function Gcd(a: nat, b: nat): (g: nat)
    requires b > 0
    ensures g > 0
    decreases b
  {
    if a % b == 0 then b else Gcd(b, a % b)
  }

  ghost predicate Divides(d: int, n: int) {
    exists k: int :: n == d * k
  }

  lemma DividesLinear(d: int, a: int, b: int, k: int)
    requires Divides(d, a) && Divides(d, b)
    ensures Divides(d, a + b * k)
  {
    var x :| a == d * x;
    var y :| b == d * y;
    assert a + b * k == d * (x + y * k);
  }

  /** What divides two numbers divides their combinations. */
  lemma DividesCombination(d: int, a: int, b: int, x: int, y: int)
    requires Divides(d, a) && Divides(d, b)
    ensures Divides(d, a * x + b * y)
  {
    assert 0 == d * 0;
    DividesLinear(d, 0, a, x);
    DividesLinear(d, a * x, b, y);
  }

  lemma DividesReduced(d: int, n: int, m: int)
    requires d > 0 && m > 0 && Divides(d, m)
    ensures Divides(d, n) <==> n % m % d == 0
  {
    var w, u := n % m, n / m;
    assert n == w + m * u;
    assert w == d * (w / d) + w % d;
    if w % d == 0 {
      assert Divides(d, w);
      DividesLinear(d, w, m, u);
    } else if Divides(d, n) {
      DividesLinear(d, n, m, -u);
      assert w == n + m * (-u);
      var k :| w == d * k;
      DivModUnique(w, d, k, 0);
    }
  }

  lemma DividesRemainder(g: int, n: int, m: int)
    requires m > 0 && Divides(g, n) && Divides(g, m)
    ensures Divides(g, n % m)
  {
    DividesLinear(g, n, m, -(n / m));
    assert n % m == n + m * (-(n / m));
  }

  lemma DivideEachOther(a: int, b: int)
    requires a > 0 && b > 0 && Divides(a, b) && Divides(b, a)
    ensures a == b
  {
    var x :| b == a * x;
    var y :| a == b * y;
    FactorBounds(a, x);
    FactorBounds(b, y);
  }

  lemma FactorBounds(a: int, x: int)
    requires a > 0 && a * x > 0
    ensures x > 0 && a * x >= a
  {
    assert x <= 0 ==> a * (-x) >= 0;
    MulAtLeast(a, x);
  }

  lemma {:induction false} GcdDivides(a: nat, b: nat)
    requires b > 0
    ensures Divides(Gcd(a, b), a) && Divides(Gcd(a, b), b)
    decreases b
  {
    var r, q := a % b, a / b;
    assert a == r + b * q;
    if r == 0 {
      assert a == b * q && b == b * 1;
    } else {
      GcdDivides(b, r);
      DividesLinear(Gcd(a, b), r, b, q);
    }
  }

  /** The greatest common divisor is a combination of the two numbers. */
  lemma {:induction false} Bezout(a: nat, b: nat) returns (x: int, y: int)
    requires b > 0
    ensures Gcd(a, b) == a * x + b * y
    decreases b
  {
    if a % b == 0 {
      x, y := 0, 1;
    } else {
      var u, v := Bezout(b, a % b);
      BezoutStep(a, b, a / b, a % b, u, v);
      x, y := v, u - a / b * v;
    }
  }

  lemma BezoutStep(a: int, b: int, q: int, r: int, u: int, v: int)
    requires a == b * q + r
    ensures b * u + r * v == a * v + b * (u - q * v)
  {
    assert r == a - b * q;
    assert b * (q * v) == (b * q) * v;
  }

  /** Dividing by a product is dividing twice. */
  lemma DivDiv(x: int, a: int, b: int)
    requires a > 0 && b > 0
    ensures a * b > 0 && x / (a * b) == (x / a) / b
  {
    var q := x / a;
    var r := x % a;
    var q2 := q / b;
    var r2 := q % b;
    assert x == a * (b * q2 + r2) + r;
    assert x == (a * b) * q2 + (a * r2 + r);
    MulLess(r2, b, a);
    assert a * r2 + r < a * b;
    DivModUnique(x, a * b, q2, a * r2 + r);
  }

  /** Number of binary digits: the loop of bitLength halves the value until it is zero. */
  function BitLength(v: nat): nat {
    if v == 0 then 0 else 1 + BitLength(v / 2)
  }

  lemma {:induction false} BitLengthBounds(v: nat)
    ensures v < Pow2(BitLength(v))
    ensures v > 0 ==> BitLength(v) > 0 && Pow2(BitLength(v) - 1) <= v
  {
    if v > 0 {
      BitLengthBounds(v / 2);
    }
  }

  lemma BitLengthUnique(v: nat, n: nat)
    requires n > 0 && Pow2(n - 1) <= v < Pow2(n)
    ensures BitLength(v) == n
  {
    BitLengthBounds(v);
    var b := BitLength(v);
    if b < n {
      Pow2Monotone(b, n - 1);
    } else if n < b {
      Pow2Monotone(n, b - 1);
    }
  }

  lemma BitLengthLe(v: nat, n: nat)
    ensures BitLength(v) <= n <==> v < Pow2(n)
  {
    BitLengthBounds(v);
    if BitLength(v) <= n {
      Pow2Monotone(BitLength(v), n);
    } else {
      Pow2Monotone(n, BitLength(v) - 1);
    }
  }

  /** Bitwise inclusive or. */
  function BitOr(a: nat, b: nat): nat {
    if a == 0 && b == 0 then 0
    else 2 * BitOr(a / 2, b / 2) + (if a % 2 == 1 || b % 2 == 1 then 1 else 0)
  }

  lemma {:induction false} BitOrZero(a: nat)
    ensures BitOr(0, a) == a && BitOr(a, 0) == a
  {
    if a > 0 {
      BitOrZero(a / 2);
    }
  }

  lemma {:induction false} BitLengthOr(a: nat, b: nat)
    ensures BitLength(BitOr(a, b)) == if BitLength(a) >= BitLength(b) then BitLength(a) else BitLength(b)
  {
    if a > 0 || b > 0 {
      BitLengthOr(a / 2, b / 2);
      var o := BitOr(a / 2, b / 2);
      assert BitOr(a, b) / 2 == o;
      assert o == 0 ==> BitLength(a / 2) == 0 && BitLength(b / 2) == 0;
    }
  }

  /** Or-ing in bits above position s adds them. */
  lemma {:induction false} BitOrDisjoint(a: nat, b: nat, s: nat)
    requires a < Pow2(s)
    ensures BitOr(a, b * Pow2(s)) == a + b * Pow2(s)
  {
    if s == 0 {
      BitOrZero(b);
    } else {
      var p := Pow2(s - 1);
      var c := b * p;
      assert b * Pow2(s) == 2 * c;
      BitOrDisjoint(a / 2, b, s - 1);
      assert (2 * c) / 2 == c && (2 * c) % 2 == 0;
      if a == 0 && 2 * c == 0 {
      } else {
        assert BitOr(a, 2 * c) == 2 * BitOr(a / 2, c) + a % 2;
      }
    }
  }

  /** Bitwise exclusive or. */
  function BitXor(a: nat, b: nat): nat {
    if a == 0 && b == 0 then 0
    else 2 * BitXor(a / 2, b / 2) + (if a % 2 == b % 2 then 0 else 1)
  }

  lemma {:induction false} BitXorBelow(a: nat, b: nat, n: nat)
    requires a < Pow2(n) && b < Pow2(n)
    ensures BitXor(a, b) < Pow2(n)
  {
    if n > 0 {
      BitXorBelow(a / 2, b / 2, n - 1);
    }
  }

  lemma {:induction false} BitXorUndoes(a: nat, b: nat)
    ensures BitXor(BitXor(a, b), b) == a
  {
    if a > 0 || b > 0 {
      BitXorUndoes(a / 2, b / 2);
      assert BitXor(a, b) / 2 == BitXor(a / 2, b / 2);
    }
  }

  /** Bit k of a number. */
  predicate Bit(a: nat, k: nat) {
    a / Pow2(k) % 2 == 1
  }

  lemma BitOfHalf(a: nat, k: nat)
    requires k > 0
    ensures Bit(a, k) == Bit(a / 2, k - 1)
  {
    DivDiv(a, 2, Pow2(k - 1));
  }

  /** Bit by bit, exclusive or is inequality. */
  lemma {:induction false} BitXorBits(a: nat, b: nat, k: nat)
    ensures Bit(BitXor(a, b), k) <==> Bit(a, k) != Bit(b, k)
  {
    if k == 0 {
      assert Pow2(0) == 1;
    } else {
      BitOfHalf(a, k);
      BitOfHalf(b, k);
      BitOfHalf(BitXor(a, b), k);
      BitXorBits(a / 2, b / 2, k - 1);
      assert BitXor(a, b) / 2 == BitXor(a / 2, b / 2);
    }
  }

  /** And or is disjunction. */
  lemma {:induction false} BitOrBits(a: nat, b: nat, k: nat)
    ensures Bit(BitOr(a, b), k) <==> Bit(a, k) || Bit(b, k)
  {
    if k == 0 {
      assert Pow2(0) == 1;
    } else {
      BitOfHalf(a, k);
      BitOfHalf(b, k);
      BitOfHalf(BitOr(a, b), k);
      BitOrBits(a / 2, b / 2, k - 1);
      assert BitOr(a, b) / 2 == BitOr(a / 2, b / 2);
    }
  }

  lemma {:induction false} BitXorZero(a: nat)
    ensures BitXor(a, 0) == a
  {
    if a > 0 {
      BitXorZero(a / 2);
    }
  }

  lemma {:induction false} BitXorCommutes(a: nat, b: nat)
    ensures BitXor(a, b) == BitXor(b, a)
  {
    if a > 0 || b > 0 {
      BitXorCommutes(a / 2, b / 2);
    }
  }

  lemma HalvesMod(a: nat, p: nat)
    requires p > 0
    ensures a % (2 * p) == 2 * (a / 2 % p) + a % 2
  {
    var h := a / 2;
    assert a == (2 * p) * (h / p) + (2 * (h % p) + a % 2);
    DivModUnique(a, 2 * p, h / p, 2 * (h % p) + a % 2);
  }

  /** The low bits of an exclusive or are those of its arguments. */
  lemma {:induction false} BitXorLow(a: nat, b: nat, n: nat)
    ensures BitXor(a, b) % Pow2(n) == BitXor(a % Pow2(n), b % Pow2(n))
  {
    if n > 0 {
      BitXorLow(a / 2, b / 2, n - 1);
      var p := Pow2(n - 1);
      HalvesMod(a, p);
      HalvesMod(b, p);
      XorLowStep(a / 2, b / 2, a / 2 % p, b / 2 % p, a % 2, b % 2, p);
    }
  }

  lemma XorLowStep(u: nat, v: nat, lowU: nat, lowV: nat, i: nat, j: nat, p: nat)
    requires p > 0 && i < 2 && j < 2 && BitXor(u, v) % p == BitXor(lowU, lowV)
    ensures BitXor(2 * u + i, 2 * v + j) % (2 * p) == BitXor(2 * lowU + i, 2 * lowV + j)
  {
    XorOfHalves(u, v, i, j);
    XorOfHalves(lowU, lowV, i, j);
    LowOfTwice(BitXor(u, v), if i == j then 0 else 1, p);
  }

  lemma LowOfTwice(x: nat, bit: nat, p: nat)
    requires p > 0 && bit < 2
    ensures (2 * x + bit) % (2 * p) == 2 * (x % p) + bit
  {
    HalvesMod(2 * x + bit, p);
  }

  lemma XorOfHalves(u: nat, v: nat, i: nat, j: nat)
    requires i < 2 && j < 2
    ensures BitXor(2 * u + i, 2 * v + j) == 2 * BitXor(u, v) + if i == j then 0 else 1
  {
  }

  lemma {:induction false} BitXorComplement(a: nat, b: nat, n: nat)
    requires a < Pow2(n) && b < Pow2(n)
    ensures BitXor(a, b) < Pow2(n) && BitXor(Pow2(n) - 1 - a, b) == Pow2(n) - 1 - BitXor(a, b)
  {
    BitXorBelow(a, b, n);
    if n > 0 {
      var c := Pow2(n) - 1 - a;
      assert c / 2 == Pow2(n - 1) - 1 - a / 2 && c % 2 != a % 2;
      BitXorComplement(a / 2, b / 2, n - 1);
      assert BitXor(a, b) / 2 == BitXor(a / 2, b / 2);
    }
  }

  /** Exclusive or of unbounded integers in two's complement, the second one of either sign. */
  function XorSigned(a: nat, b: int): int {
    if b >= 0 then BitXor(a, b)
    else
      var x: int := BitXor(a, -b - 1);
      -x - 1
  }

  /** Its low n bits are those of the low n bits. */
  lemma XorSignedLow(a: nat, b: int, n: nat)
    ensures XorSigned(a, b) % Pow2(n) == BitXor(a % Pow2(n), b % Pow2(n))
  {
    var p := Pow2(n);
    if b >= 0 {
      BitXorLow(a, b, n);
    } else {
      var y := -b - 1;
      BitXorLow(a, y, n);
      MinusOneMinus(y, p);
      MinusOneMinus(BitXor(a, y), p);
      BitXorCommutes(a % p, y % p);
      BitXorCommutes(a % p, p - 1 - y % p);
      BitXorComplement(y % p, a % p, n);
    }
  }

  lemma MinusOneMinus(y: nat, p: nat)
    requires p > 0
    ensures (-(y as int) - 1) % p == p - 1 - y % p
  {
    DivModUnique(-(y as int) - 1, p, -(y / p) - 1, p - 1 - y % p);
  }

  ghost predicate IsPow2(x: int) {
    exists k: nat :: x == Pow2(k)
  }
}
