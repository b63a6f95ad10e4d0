/**
  Strided keys in at most one pass over the key space: exactly when they hit each of the
  first total indices once. Rows are the draws of one round of the active workers; row q
  starts at q * stride modulo the key count.
 */
module OnePass {
  import opened Arithmetic
  import opened Sharing
  import opened StridedKeys

  /** Addition of indices of the key space. */
  function Shift(x: int, y: int, keysCount: int): int {
    if x + y < keysCount then x + y else x + y - keysCount
  }

  predicate InSpace(x: int, keysCount: int) {
    0 <= x < keysCount
  }

  lemma ShiftLaws(x: int, y: int, z: int, keysCount: int)
    requires InSpace(x, keysCount) && InSpace(y, keysCount) && InSpace(z, keysCount)
    ensures InSpace(Shift(x, y, keysCount), keysCount)
    ensures Shift(x, y, keysCount) == Shift(y, x, keysCount)
    ensures Shift(Shift(x, y, keysCount), z, keysCount) == Shift(x, Shift(y, z, keysCount), keysCount)
    ensures Shift(x, z, keysCount) == Shift(y, z, keysCount) ==> x == y
  {
  }

  // ----- rows ----------------------------------------------------------------------------

  /** Where row q starts. */
  function Start(q: nat, w: int, keysCount: int): (x: int)
    requires InSpace(w, keysCount)
    ensures InSpace(x, keysCount)
  {
    if q == 0 then 0 else Shift(Start(q - 1, w, keysCount), w, keysCount)
  }

  lemma {:induction false} StartIsMultiple(q: nat, stride: nat, keysCount: nat)
    requires keysCount > 0
    ensures Start(q, stride % keysCount, keysCount) == q * stride % keysCount
  {
    if q > 0 {
      StartIsMultiple(q - 1, stride, keysCount);
      NextMultiple(q, stride);
      ModSum((q - 1) * stride, stride, keysCount);
    } else {
      DivModUnique(0, keysCount, 0, 0);
    }
  }

  lemma NextMultiple(q: int, stride: int)
    ensures q * stride == (q - 1) * stride + stride
  {
  }

  lemma {:induction false} StartAdd(a: nat, b: nat, w: int, keysCount: int)
    requires InSpace(w, keysCount)
    ensures Start(a + b, w, keysCount) == Shift(Start(a, w, keysCount), Start(b, w, keysCount), keysCount)
  {
    if b > 0 {
      StartAdd(a, b - 1, w, keysCount);
      ShiftLaws(Start(a, w, keysCount), Start(b - 1, w, keysCount), w, keysCount);
    }
  }

  lemma StartCancel(a: nat, b: nat, w: int, keysCount: int)
    requires InSpace(w, keysCount) && Start(a + b, w, keysCount) == Start(a, w, keysCount)
    ensures Start(b, w, keysCount) == 0
  {
    StartAdd(a, b, w, keysCount);
  }

  /** The key at offset j of row q. */
  function Key(q: nat, j: int, w: int, keysCount: int): int
    requires InSpace(w, keysCount)
  {
    Shift(Start(q, w, keysCount), j, keysCount)
  }

  lemma DrawIsKey(q: nat, j: nat, stride: nat, active: nat, keysCount: nat)
    requires j < active <= keysCount
    ensures q * active + j >= 0
    ensures Draw(q * active + j, stride, active, keysCount) == Key(q, j, stride % keysCount, keysCount)
  {
    DivModUnique(q * active + j, active, q, j);
    StartIsMultiple(q, stride, keysCount);
    ModSum(j, q * stride, keysCount);
    DivModUnique(j, keysCount, 0, j);
  }

  // ----- a pass as a tiling ----------------------------------------------------------------

  /** Offset j of row q is drawn: there are full rows of the active count and a last one of rest draws. */
  predicate InRow(q: int, j: int, active: int, full: int, rest: int) {
    0 <= q && 0 <= j && ((q < full && j < active) || (q == full && j < rest))
  }

  ghost predicate Hit(x: int, w: int, active: int, full: int, rest: int, keysCount: int)
    requires InSpace(w, keysCount)
  {
    exists q: nat, j: nat :: InRow(q, j, active, full, rest) && Key(q, j, w, keysCount) == x
  }

  /** No index is drawn twice, and those drawn are the first total ones. */
  ghost predicate Tiles(w: int, active: int, full: int, rest: int, total: int, keysCount: int)
    requires InSpace(w, keysCount)
  {
    && (forall q: nat, j: nat, r: nat, k: nat | InRow(q, j, active, full, rest) && InRow(r, k, active, full, rest) ::
          Key(q, j, w, keysCount) == Key(r, k, w, keysCount) ==> q == r && j == k)
    && (forall x :: 0 <= x < total <==> Hit(x, w, active, full, rest, keysCount))
  }

  predicate Shape(w: int, active: int, full: int, rest: int, keysCount: int) {
    InSpace(w, keysCount) && 0 < active < keysCount && 1 <= full && 0 <= rest < active
  }

  /** Cells with one key are one cell, and so are their successors. */
  lemma SameCellAfter(q: nat, j: nat, r: nat, k: nat, w: int, active: int, full: int, rest: int, keysCount: int)
    requires Shape(w, active, full, rest, keysCount) && Tiles(w, active, full, rest, keysCount, keysCount)
    requires 0 < j <= active && 0 < k <= active
    requires InRow(q, j - 1, active, full, rest) && InRow(r, k - 1, active, full, rest)
    requires Key(q, j, w, keysCount) == Key(r, k, w, keysCount)
    ensures q == r && j == k
  {
    assert Key(q, j - 1, w, keysCount) == Key(r, k - 1, w, keysCount);
  }

  /** In a full pass, where a row ends another starts. */
  lemma RowEnd(q: nat, w: int, active: int, full: int, rest: int, keysCount: int) returns (r: nat)
    requires Shape(w, active, full, rest, keysCount) && Tiles(w, active, full, rest, keysCount, keysCount)
    requires q < full || (q == full && rest > 0)
    ensures InRow(r, 0, active, full, rest)
    ensures Start(r, w, keysCount) == Key(q, if q < full then active else rest, w, keysCount)
  {
    var length := if q < full then active else rest;
    var end := Key(q, length, w, keysCount);
    ShiftLaws(Start(q, w, keysCount), length, 0, keysCount);
    assert Hit(end, w, active, full, rest, keysCount);
    var k: nat;
    r, k :| InRow(r, k, active, full, rest) && Key(r, k, w, keysCount) == end;
    if k > 0 {
      SameCellAfter(q, length, r, k, w, active, full, rest, keysCount);
      assert false;
    }
  }

  /** An offset of the first row at which a row starts is its offset 0. */
  lemma RowInFirstRow(r: nat, j: nat, w: int, active: int, full: int, rest: int, keysCount: int)
    requires Shape(w, active, full, rest, keysCount) && Tiles(w, active, full, rest, keysCount, keysCount)
    requires InRow(r, 0, active, full, rest) && j < active && Start(r, w, keysCount) == j
    ensures r == 0 && j == 0
  {
    assert InRow(0, j, active, full, rest);
    assert Key(r, 0, w, keysCount) == Key(0, j, w, keysCount);
  }

  /** When the active count does not divide the key count, a full pass needs congruent strides. */
  lemma UnevenPass(w: int, active: int, full: int, rest: int, keysCount: int)
    requires Shape(w, active, full, rest, keysCount) && Tiles(w, active, full, rest, keysCount, keysCount)
    requires rest > 0
    ensures w == active
  {
    var q1 := RowEnd(0, w, active, full, rest, keysCount);
    assert Start(q1, w, keysCount) == active;
    assert Start(0, w, keysCount) == 0 && Start(1, w, keysCount) == w;
    NoJump(q1, w, active, full, rest, keysCount);
  }

  lemma NoJump(q1: nat, w: int, active: int, full: int, rest: int, keysCount: int)
    requires Shape(w, active, full, rest, keysCount) && Tiles(w, active, full, rest, keysCount, keysCount)
    requires rest > 0 && 1 <= q1 <= full && Start(q1, w, keysCount) == active
    ensures q1 == 1
  {
    var q := full + 1 - q1;
    if q < full {
      var q3 := RowEnd(q, w, active, full, rest, keysCount);
      StartAdd(q, q1, w, keysCount);
      var m := full + 1 - q3;
      StartCancel(q3, m, w, keysCount);
      NotClosed(w, active, full, rest, keysCount);
      RowInFirstRow(m, 0, w, active, full, rest, keysCount);
      assert false;
    }
  }

  /** The starts do not return to 0 right after the last row. */
  lemma NotClosed(w: int, active: int, full: int, rest: int, keysCount: int)
    requires Shape(w, active, full, rest, keysCount) && Tiles(w, active, full, rest, keysCount, keysCount)
    requires rest > 0
    ensures Start(full + 1, w, keysCount) != 0
  {
    var q4 := RowEnd(full, w, active, full, rest, keysCount);
    var last := Start(full, w, keysCount);
    ShiftLaws(last, rest, w, keysCount);
    ShiftLaws(rest, w, last, keysCount);
    ShiftLaws(last, w, rest, keysCount);
    if Start(full + 1, w, keysCount) == 0 {
      assert Start(q4 + 1, w, keysCount) == rest;
      if q4 < full {
        RowInFirstRow(q4 + 1, rest, w, active, full, rest, keysCount);
      }
      assert false;
    }
  }

  /** When it does, every multiple of the active count starts a row, and only those. */
  lemma {:induction false} MultipleStartsRow(m: nat, w: int, active: int, full: int, keysCount: int) returns (r: nat)
    requires Shape(w, active, full, 0, keysCount) && Tiles(w, active, full, 0, keysCount, keysCount)
    requires m * active < keysCount
    ensures r < full && Start(r, w, keysCount) == m * active
  {
    if m == 0 {
      r := 0;
    } else {
      NextMultiple(m, active);
      var q := MultipleStartsRow(m - 1, w, active, full, keysCount);
      r := RowEnd(q, w, active, full, 0, keysCount);
    }
  }

  lemma StrideIsMultiple(w: int, active: int, full: int, keysCount: int)
    requires Shape(w, active, full, 0, keysCount) && Tiles(w, active, full, 0, keysCount, keysCount)
    requires full >= 2
    ensures w % active == 0
  {
    var m, j := w / active, w % active;
    assert w == m * active + j;
    var r := MultipleStartsRow(m, w, active, full, keysCount);
    assert Start(0, w, keysCount) == 0 && Start(1, w, keysCount) == w;
    assert InRow(r, j, active, full, 0) && InRow(1, 0, active, full, 0);
    assert Key(r, j, w, keysCount) == Key(1, 0, w, keysCount);
  }

  lemma FullRows(w: int, active: int, full: int, keysCount: int) returns (r: nat)
    requires Shape(w, active, full, 0, keysCount) && Tiles(w, active, full, 0, keysCount, keysCount)
    requires full >= 2
    ensures w % active == 0 && Start(r, w, keysCount) == active
  {
    StrideIsMultiple(w, active, full, keysCount);
    r := RowEnd(0, w, active, full, 0, keysCount);
    assert Start(0, w, keysCount) == 0;
  }

  /** When the active count divides the key count, a full pass needs it to be the common divisor. */
  lemma EvenPass(stride: nat, w: int, active: nat, full: nat, keysCount: nat)
    requires keysCount == active * full > 0 && w == stride % keysCount && full >= 2
    requires Shape(w, active, full, 0, keysCount) && Tiles(w, active, full, 0, keysCount, keysCount)
    ensures Gcd(stride, keysCount) == active
  {
    var r := FullRows(w, active, full, keysCount);
    StartIsMultiple(r, stride, keysCount);
    GcdIs(stride, keysCount, active, full, r);
  }

  lemma GcdIs(stride: nat, keysCount: nat, active: nat, full: nat, r: nat)
    requires keysCount > 0 && active > 0 && keysCount == active * full
    requires stride % keysCount % active == 0 && r * stride % keysCount == active
    ensures Gcd(stride, keysCount) == active
  {
    var x, y := Bezout(stride, keysCount);
    assert Divides(active, keysCount);
    DividesReduced(active, stride, keysCount);
    DividesCombination(active, stride, keysCount, x, y);
    var g := Gcd(stride, keysCount);
    GcdDivides(stride, keysCount);
    DividesCombination(g, stride, keysCount, r, 0);
    assert stride * r + keysCount * 0 == r * stride;
    DividesRemainder(g, r * stride, keysCount);
    DivideEachOther(g, active);
  }

  // ----- from draws to tiles -----------------------------------------------------------

  lemma TwiceInSequence(s: seq<int>, i: nat, j: nat)
    requires i < j < |s| && s[i] == s[j]
    ensures multiset(s)[s[i]] >= 2
  {
    assert s == s[..j] + s[j..];
    assert s[i] in s[..j] && s[j] in s[j..];
  }

  lemma {:induction false} OnceInShared(total: nat, keysCount: nat, key: int)
    requires 0 < keysCount && total <= keysCount
    ensures SharedCounterKeys(total, keysCount)[key] == if 0 <= key < total then 1 else 0
  {
    if total > 0 {
      OnceInShared(total - 1, keysCount, key);
      DivModUnique(total - 1, keysCount, 0, total - 1);
    }
  }

  /** Every index below the length occurs once, and nothing else occurs. */
  ghost predicate IsPass(keys: seq<int>) {
    forall key :: multiset(keys)[key] == if 0 <= key < |keys| then 1 else 0
  }

  lemma PassCells(keys: seq<int>)
    requires IsPass(keys)
    ensures forall t :: 0 <= t < |keys| ==> 0 <= keys[t] < |keys|
    ensures forall t, u :: 0 <= t < u < |keys| ==> keys[t] != keys[u]
    ensures forall key :: 0 <= key < |keys| ==> key in keys
  {
    forall t | 0 <= t < |keys|
      ensures 0 <= keys[t] < |keys|
    {
      assert keys[t] in multiset(keys);
      assert multiset(keys)[keys[t]] > 0;
    }
    forall t: nat, u: nat | t < u < |keys|
      ensures keys[t] != keys[u]
    {
      if keys[t] == keys[u] {
        TwiceInSequence(keys, t, u);
      }
    }
    forall key | 0 <= key < |keys|
      ensures key in keys
    {
      assert multiset(keys)[key] == 1;
      assert key in multiset(keys);
    }
  }

  /** In at most one pass, covering the shared counter's keys means hitting each once. */
  lemma CoverIsPass(total: nat, workers: nat, active: nat, keysCount: nat)
    requires active > 0 && total <= keysCount && keysCount > 0
    ensures PhaseKeys(total, workers, active, keysCount) == SharedCounterKeys(total, keysCount) <==>
            IsPass(Draws(total, workers, active, keysCount))
  {
    PhaseKeysAreDraws(total, workers, active, keysCount);
    forall key: int {
      OnceInShared(total, keysCount, key);
    }
    OnceEach(Draws(total, workers, active, keysCount), SharedCounterKeys(total, keysCount));
  }

  lemma OnceEach(keys: seq<int>, shared: multiset<int>)
    requires forall key :: shared[key] == if 0 <= key < |keys| then 1 else 0
    ensures multiset(keys) == shared <==> IsPass(keys)
  {
    if IsPass(keys) {
      forall key
        ensures multiset(keys)[key] == shared[key]
      {
      }
    }
  }

  /** A draw is the draw one row earlier, a stride further. */
  lemma DrawAfterRow(t: nat, stride: nat, active: nat, keysCount: nat)
    requires 0 < active <= t && keysCount > 0
    ensures Draw(t, stride, active, keysCount) ==
            Shift(Draw(t - active, stride, active, keysCount), stride % keysCount, keysCount)
  {
    var q, j := t / active, t % active;
    DivModUnique(t - active, active, q - 1, j);
    var x := j + (q - 1) * stride;
    NextMultiple(q, stride);
    ModSum(x, stride, keysCount);
  }

  /** Draws by position: the first row counts up, and each later draw is a shift of one a row earlier. */
  predicate Shifted(keys: seq<int>, w: int, active: nat, keysCount: int)
  {
    && (forall t: nat :: t < |keys| && t < active ==> keys[t] == t)
    && (forall t: nat :: active <= t < |keys| ==> keys[t] == Shift(keys[t - active], w, keysCount))
  }

  lemma DrawsAreShifted(total: nat, stride: nat, active: nat, keysCount: nat)
    requires 0 < active <= keysCount
    ensures Shifted(Draws(total, stride, active, keysCount), stride % keysCount, active, keysCount)
  {
    forall t: nat | t < total
      ensures t < active ==> Draw(t, stride, active, keysCount) == t
      ensures t >= active ==> Draw(t, stride, active, keysCount) ==
                              Shift(Draw(t - active, stride, active, keysCount), stride % keysCount, keysCount)
    {
      if t < active {
        DrawOfFirst(t, stride, active, keysCount);
        DivModUnique(t, keysCount, 0, t);
      } else {
        DrawAfterRow(t, stride, active, keysCount);
      }
    }
  }

  lemma NotInFirstRow(keys: seq<int>, w: int, active: nat, keysCount: int, t: nat)
    requires t < active < |keys| && IsPass(keys) && Shifted(keys, w, active, keysCount)
    ensures keys[active] != t
  {
    PassCells(keys);
    assert keys[t] == t;
  }

  lemma NeverJustBefore(keys: seq<int>, w: int, active: nat, keysCount: int, t: nat)
    requires 0 < active <= t < |keys| < keysCount && InSpace(w, keysCount)
    requires IsPass(keys) && Shifted(keys, w, active, keysCount)
    ensures keys[t] != w - 1
  {
    PassCells(keys);
    assert 0 <= keys[t - active] < |keys|;
  }

  /** Below a full pass the second row has to start right after the first. */
  lemma PartialPass(keys: seq<int>, w: int, active: nat, keysCount: int)
    requires 0 < active < |keys| < keysCount && InSpace(w, keysCount)
    requires IsPass(keys) && Shifted(keys, w, active, keysCount)
    ensures w == active
  {
    PassCells(keys);
    assert keys[active - active] == 0 && keys[active] == w;
    if w < active {
      NotInFirstRow(keys, w, active, keysCount, w);
    }
    assert keys[active] != keys[0] && 0 <= w - 1 < |keys|;
    assert w - 1 in keys;
    var t: nat :| t < |keys| && keys[t] == w - 1;
    if t >= active {
      NeverJustBefore(keys, w, active, keysCount, t);
    }
  }

  // ----- a full pass -------------------------------------------------------------------

  lemma CellDraw(q: nat, j: nat, stride: nat, active: nat, full: nat, rest: nat, keysCount: nat) returns (t: nat)
    requires 0 < active <= keysCount && keysCount == full * active + rest && rest < active
    requires InRow(q, j, active, full, rest)
    ensures t < keysCount && t / active == q && t % active == j
    ensures Draw(t, stride, active, keysCount) == Key(q, j, stride % keysCount, keysCount)
  {
    t := q * active + j;
    DrawIsKey(q, j, stride, active, keysCount);
    DivModUnique(t, active, q, j);
    RowsFit(q, j, active, full, rest);
  }

  lemma RowsFit(q: nat, j: nat, active: nat, full: nat, rest: nat)
    requires InRow(q, j, active, full, rest) && rest < active
    ensures q * active + j < full * active + rest
  {
    if q < full {
      MulLess(q, full, active);
    }
  }

  lemma DrawCell(t: nat, stride: nat, active: nat, full: nat, rest: nat, keysCount: nat)
    requires 0 < active <= keysCount && keysCount == full * active + rest && rest < active && t < keysCount
    ensures t / active >= 0 && InRow(t / active, t % active, active, full, rest)
    ensures Draw(t, stride, active, keysCount) == Key(t / active, t % active, stride % keysCount, keysCount)
  {
    var q, j := t / active, t % active;
    assert t == q * active + j;
    DrawIsKey(q, j, stride, active, keysCount);
    if q > full {
      MulLess(full, q, active);
    }
  }

  lemma FullPassTiles(stride: nat, active: nat, full: nat, rest: nat, keysCount: nat)
    requires 0 < active <= keysCount && keysCount == full * active + rest && rest < active
    requires IsPass(Draws(keysCount, stride, active, keysCount))
    ensures Tiles(stride % keysCount, active, full, rest, keysCount, keysCount)
  {
    var keys, w := Draws(keysCount, stride, active, keysCount), stride % keysCount;
    PassCells(keys);
    forall q: nat, j: nat, r: nat, k: nat | InRow(q, j, active, full, rest) && InRow(r, k, active, full, rest)
      ensures Key(q, j, w, keysCount) == Key(r, k, w, keysCount) ==> q == r && j == k
    {
      var t := CellDraw(q, j, stride, active, full, rest, keysCount);
      var u := CellDraw(r, k, stride, active, full, rest, keysCount);
      assert keys[t] == Key(q, j, w, keysCount) && keys[u] == Key(r, k, w, keysCount);
    }
    forall x
      ensures 0 <= x < keysCount <==> Hit(x, w, active, full, rest, keysCount)
    {
      if 0 <= x < keysCount {
        assert x in keys;
        var t: nat :| t < keysCount && keys[t] == x;
        DrawCell(t, stride, active, full, rest, keysCount);
      }
      if Hit(x, w, active, full, rest, keysCount) {
        var q: nat, j: nat :| InRow(q, j, active, full, rest) && Key(q, j, w, keysCount) == x;
        var t := CellDraw(q, j, stride, active, full, rest, keysCount);
        assert keys[t] == x;
      }
    }
  }

  function Range(n: nat): (r: set<int>)
    ensures |r| == n && forall x :: x in r <==> 0 <= x < n
  {
    if n == 0 then {} else Range(n - 1) + {n - 1}
  }

  lemma {:induction false} DistinctSize(keys: seq<int>, elements: set<int>)
    requires forall t, u :: 0 <= t < u < |keys| ==> keys[t] != keys[u]
    requires forall x :: x in elements <==> x in keys
    ensures |elements| == |keys|
    ensures forall x :: multiset(keys)[x] == if x in keys then 1 else 0
  {
    if keys == [] {
      assert forall x :: x !in elements;
      assert elements == {};
    } else {
      var front, last := keys[..|keys| - 1], keys[|keys| - 1];
      assert keys == front + [last];
      DistinctSize(front, elements - {last});
    }
  }

  lemma SubsetOfSameSize(a: set<int>, b: set<int>)
    requires a <= b && |a| == |b|
    ensures a == b
  {
    assert |b - a| == |b| - |a|;
  }

  /** Distinct keys below their number are a pass. */
  lemma DistinctIsPass(keys: seq<int>)
    requires forall t :: 0 <= t < |keys| ==> 0 <= keys[t] < |keys|
    requires forall t, u :: 0 <= t < u < |keys| ==> keys[t] != keys[u]
    ensures IsPass(keys)
  {
    var elements := set x | x in keys;
    DistinctSize(keys, elements);
    SubsetOfSameSize(elements, Range(|keys|));
    forall key: int
      ensures multiset(keys)[key] == if 0 <= key < |keys| then 1 else 0
    {
      assert key in elements <==> key in Range(|keys|);
    }
  }

  lemma NoSmallMultiple(q: nat, active: nat, full: nat)
    requires active > 0 && 0 < q < full
    ensures !Divides(active * full, q * active)
  {
    MulLess(q, full, active);
    MulAtLeast(q, active);
    if Divides(active * full, q * active) {
      var k :| q * active == active * full * k;
      FactorBounds(active * full, k);
      assert false;
    }
  }

  /** With the greatest common divisor active, rows start at different multiples of it. */
  lemma CoprimeStarts(q: nat, stride: nat, active: nat, full: nat, keysCount: nat)
    requires keysCount == active * full > 0 && Gcd(stride, keysCount) == active && 0 < q < full
    ensures q * stride % keysCount != 0
  {
    NoSmallMultiple(q, active, full);
    if q * stride % keysCount == 0 {
      ReducedToZero(q * stride, keysCount);
      QTimes(q, stride, keysCount, active);
    }
  }

  lemma ReducedToZero(n: nat, m: nat)
    requires m > 0 && n % m == 0
    ensures Divides(m, n)
  {
    assert n == m * (n / m);
  }

  lemma QTimes(q: nat, stride: nat, keysCount: nat, active: nat)
    requires keysCount > 0 && Gcd(stride, keysCount) == active && Divides(keysCount, q * stride)
    ensures Divides(keysCount, q * active)
  {
    var x, y := Bezout(stride, keysCount);
    assert keysCount == keysCount * 1;
    DividesCombination(keysCount, q * stride, keysCount, x, q * y);
    TimesCombination(q, stride, keysCount, x, y);
  }

  lemma TimesCombination(q: int, a: int, b: int, x: int, y: int)
    ensures q * (a * x + b * y) == (q * a) * x + b * (q * y)
  {
  }

  lemma EvenDrawsDiffer(t: nat, u: nat, stride: nat, active: nat, full: nat, keysCount: nat)
    requires keysCount == active * full > 0 && active > 0 && Gcd(stride, keysCount) == active
    requires t < u < keysCount
    ensures Draw(t, stride, active, keysCount) != Draw(u, stride, active, keysCount)
  {
    GcdDivides(stride, keysCount);
    Remainder0(active, stride);
    Remainder0(active, keysCount);
    DrawModulo(t, stride, active, keysCount, active);
    DrawModulo(u, stride, active, keysCount, active);
    if t % active == u % active {
      RowsDiffer(t, u, stride, active, full, keysCount);
    }
  }

  lemma Remainder0(d: int, n: int)
    requires d > 0 && Divides(d, n)
    ensures n % d == 0
  {
    var k :| n == d * k;
    DivModUnique(n, d, k, 0);
  }

  lemma KeysDiffer(q: nat, r: nat, j: int, w: int, keysCount: int)
    requires InSpace(w, keysCount) && InSpace(j, keysCount) && q < r && Start(r - q, w, keysCount) != 0
    ensures Key(q, j, w, keysCount) != Key(r, j, w, keysCount)
  {
    ShiftLaws(Start(q, w, keysCount), Start(r, w, keysCount), j, keysCount);
    StartAdd(q, r - q, w, keysCount);
  }

  lemma RowsDiffer(t: nat, u: nat, stride: nat, active: nat, full: nat, keysCount: nat)
    requires keysCount == active * full > 0 && active > 0 && Gcd(stride, keysCount) == active
    requires t < u < keysCount && t % active == u % active
    ensures Draw(t, stride, active, keysCount) != Draw(u, stride, active, keysCount)
  {
    var q, r, j := t / active, u / active, t % active;
    MulAtLeast(active, full);
    DrawCell(t, stride, active, full, 0, keysCount);
    DrawCell(u, stride, active, full, 0, keysCount);
    RowsOrdered(t, u, active);
    CoprimeStarts(r - q, stride, active, full, keysCount);
    StartIsMultiple(r - q, stride, keysCount);
    KeysDiffer(q, r, j, stride % keysCount, keysCount);
  }

  lemma RowsOrdered(t: nat, u: nat, active: nat)
    requires active > 0 && t < u && t % active == u % active
    ensures t / active < u / active
  {
    DivMonotone(t, u, active);
    assert t == active * (t / active) + t % active && u == active * (u / active) + u % active;
  }

  // ----- the exact condition -------------------------------------------------------------

  lemma GcdCovers(stride: nat, active: nat, keysCount: nat)
    requires active > 0 && keysCount > 0 && Gcd(stride, keysCount) == active
    ensures IsPass(Draws(keysCount, stride, active, keysCount))
  {
    GcdDivides(stride, keysCount);
    Remainder0(active, keysCount);
    var full := keysCount / active;
    var keys := Draws(keysCount, stride, active, keysCount);
    forall t: nat, u: nat | t < u < keysCount
      ensures keys[t] != keys[u]
    {
      EvenDrawsDiffer(t, u, stride, active, full, keysCount);
    }
    DistinctIsPass(keys);
  }

  lemma FullPass(stride: nat, active: nat, keysCount: nat)
    requires 0 < active < keysCount && IsPass(Draws(keysCount, stride, active, keysCount))
    ensures stride % keysCount == active || Gcd(stride, keysCount) == active
  {
    var full, rest := keysCount / active, keysCount % active;
    assert keysCount == full * active + rest;
    FullPassTiles(stride, active, full, rest, keysCount);
    AtLeastOneRow(active, keysCount);
    if rest > 0 {
      UnevenPass(stride % keysCount, active, full, rest, keysCount);
    } else {
      EvenPass(stride, stride % keysCount, active, full, keysCount);
    }
  }

  lemma AtLeastOneRow(active: nat, keysCount: nat)
    requires 0 < active < keysCount
    ensures keysCount / active >= 1 && (keysCount % active == 0 ==> keysCount / active >= 2)
  {
    DivAtLeast(keysCount, 1, active);
    assert keysCount == active * (keysCount / active) + keysCount % active;
  }

  /**
    In at most one pass over the key space, the strided workers emit what a shared
    counter emits exactly when no worker runs twice, or the worker count is congruent
    to the active count, or a full pass is made and the active count is the greatest
    common divisor of worker count and key count.
   */
  lemma StridesCoverOnePass(total: nat, workers: nat, active: nat, keysCount: nat)
    requires 0 < active && 0 < keysCount && total <= keysCount
    ensures PhaseKeys(total, workers, active, keysCount) == SharedCounterKeys(total, keysCount) <==>
            || total <= active
            || workers % keysCount == active % keysCount
            || (total == keysCount && Gcd(workers, keysCount) == active)
  {
    if total <= active || workers % keysCount == active % keysCount {
      StridesCover(total, workers, active, keysCount);
    } else {
      CoverIsPass(total, workers, active, keysCount);
      DivModUnique(active, keysCount, 0, active);
      if total < keysCount {
        NotBelowFullPass(total, workers, active, keysCount);
      } else if Gcd(workers, keysCount) == active {
        GcdCovers(workers, active, keysCount);
      } else if IsPass(Draws(total, workers, active, keysCount)) {
        FullPass(workers, active, keysCount);
      }
    }
  }

  lemma NotBelowFullPass(total: nat, workers: nat, active: nat, keysCount: nat)
    requires 0 < active < total < keysCount && workers % keysCount != active
    ensures !IsPass(Draws(total, workers, active, keysCount))
  {
    var keys := Draws(total, workers, active, keysCount);
    DrawsAreShifted(total, workers, active, keysCount);
    if IsPass(keys) {
      PartialPass(keys, workers % keysCount, active, keysCount);
    }
  }

  /** One pass over two keys by two connections at one request per second never touches key 1. */
  lemma TwoConnectionsAtOneRps(workers: nat, total: nat, keysCount: nat)
    requires workers == total == keysCount == 2
    ensures ActiveWorkers(1, workers) == 1
    ensures 1 in SharedCounterKeys(total, keysCount) && 1 !in PhaseKeys(total, workers, 1, keysCount)
  {
    IdleKeyMissing(total, workers, 1, keysCount, 2);
    SharedCounterHas(total, keysCount, 1);
  }

  // ----- which keys end up populated -----------------------------------------------------

  ghost predicate Populated(total: nat, workers: nat, active: nat, keysCount: nat)
    requires keysCount > 0
  {
    forall key :: 0 <= key < keysCount ==> key in PhaseKeys(total, workers, active, keysCount)
  }

  /** When the stride's multiples reach everything congruent modulo g, worker key % g emits each key. */
  lemma StepToKey(stride: nat, keysCount: nat, g: nat, key: nat) returns (step: nat)
    requires keysCount > 0 && g == Gcd(stride, keysCount) && key < keysCount
    ensures step < keysCount && (key % g + step * stride) % keysCount == key
  {
    var x, y := Bezout(stride, keysCount);
    var m, i := key / g, key % g;
    var n := x * m;
    step := n % keysCount;
    StepReaches(stride, keysCount, g, x, y, m, i, n / keysCount, step);
    assert i + g * m == key;
    KeyPlusMultiple(key, keysCount, -(y * m + n / keysCount * stride));
  }

  lemma KeyPlusMultiple(key: nat, keysCount: nat, z: int)
    requires key < keysCount
    ensures (key + keysCount * z) % keysCount == key
  {
    DivModUnique(key, keysCount, 0, key);
    ModAddMultiple(key, keysCount, z);
  }

  lemma StepReaches(stride: int, keysCount: int, g: int, x: int, y: int, m: int, i: int, q: int, step: int)
    requires g == stride * x + keysCount * y && x * m == keysCount * q + step
    ensures i + step * stride == i + g * m + keysCount * (-(y * m + q * stride))
  {
    assert step == x * m - keysCount * q;
    assert step * stride == (x * m) * stride - (keysCount * q) * stride;
    assert (x * m) * stride == (stride * x) * m;
    assert (keysCount * q) * stride == keysCount * (q * stride);
    assert g * m == (stride * x) * m + (keysCount * y) * m;
    assert (keysCount * y) * m == keysCount * (y * m);
    assert keysCount * (-(y * m + q * stride)) == -(keysCount * (y * m)) - keysCount * (q * stride);
  }

  lemma KeyIsEmitted(stride: nat, active: nat, keysCount: nat, key: nat)
    requires keysCount > 0 && active >= Gcd(stride, keysCount) && key < keysCount
    ensures keysCount * active >= 0 && key in PhaseKeys(keysCount * active, stride, active, keysCount)
  {
    var g := Gcd(stride, keysCount);
    var step := StepToKey(stride, keysCount, g, key);
    var i, total := key % g, keysCount * active;
    DivModUnique(step * active + i, active, step, i);
    MulLess(step, keysCount, active);
    var t := step * active + i;
    assert Draw(t, stride, active, keysCount) == key;
    PhaseKeysAreDraws(total, stride, active, keysCount);
    assert Draws(total, stride, active, keysCount)[t] == key;
  }

  /**
    Some number of requests populates every key exactly when at least as many workers
    are active as the greatest common divisor of worker count and key count.
   */
  lemma PopulatesEveryKeyIff(workers: nat, active: nat, keysCount: nat)
    requires active > 0 && keysCount > 0
    ensures (exists total: nat :: Populated(total, workers, active, keysCount)) <==> active >= Gcd(workers, keysCount)
  {
    var g := Gcd(workers, keysCount);
    if active >= g {
      assert keysCount * active >= 0;
      forall key: int | 0 <= key < keysCount
        ensures key in PhaseKeys(keysCount * active, workers, active, keysCount)
      {
        KeyIsEmitted(workers, active, keysCount, key);
      }
      assert Populated(keysCount * active, workers, active, keysCount);
    } else {
      GcdDivides(workers, keysCount);
      Remainder0(g, workers);
      Remainder0(g, keysCount);
      DivisorAtMost(g, keysCount);
      forall total: nat
        ensures !Populated(total, workers, active, keysCount)
      {
        IdleKeyMissing(total, workers, active, keysCount, g);
      }
    }
  }

  lemma DivisorAtMost(g: nat, n: nat)
    requires g > 0 && n > 0 && Divides(g, n)
    ensures g <= n
  {
    var k :| n == g * k;
    FactorBounds(g, k);
  }
}
