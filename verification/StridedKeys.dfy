/**
  Strided keys against a shared counter: workers emit i, i + stride, i + 2 stride, ...
  modulo the key count, where the stride is the worker count, while requests are split
  over the active workers only.
 */
module StridedKeys {
  import opened Arithmetic
  import opened Sharing

  /** Worker i of stride workers emits i, i + stride, i + 2 stride, ... modulo keysCount. */
  function StridedKey(i: nat, stride: nat, step: nat, keysCount: nat): int
    requires keysCount > 0
  {
    (i + step * stride) % keysCount
  }

  /** The keys of worker i over its first count requests. */
  function Emitted(i: nat, stride: nat, keysCount: nat, count: nat): multiset<int>
    requires keysCount > 0
  {
    if count == 0 then multiset{}
    else Emitted(i, stride, keysCount, count - 1) + multiset{StridedKey(i, stride, count - 1, keysCount)}
  }

  /** The keys of workers 0 .. n-1, worker i running shares[i] requests. */
  function EmittedByAll(stride: nat, keysCount: nat, shares: seq<nat>, n: nat): multiset<int>
    requires keysCount > 0 && n <= |shares|
  {
    if n == 0 then multiset{}
    else EmittedByAll(stride, keysCount, shares, n - 1) + Emitted(n - 1, stride, keysCount, shares[n - 1])
  }

  /** The request targets of the active workers. */
  function Targets(total: nat, active: nat): (shares: seq<nat>)
    ensures |shares| == active
    ensures forall i :: 0 <= i < active ==> shares[i] == SplitShare(total, active, i)
  {
    seq(active, i requires 0 <= i < active => SplitShare(total, active, i))
  }

  /** All keys of a phase. */
  function PhaseKeys(total: nat, workers: nat, active: nat, keysCount: nat): multiset<int>
    requires keysCount > 0
  {
    EmittedByAll(workers, keysCount, Targets(total, active), active)
  }

  /** The keys of a shared counter after total draws. */
  function SharedCounterKeys(total: nat, keysCount: nat): multiset<int>
    requires keysCount > 0
  {
    if total == 0 then multiset{}
    else SharedCounterKeys(total - 1, keysCount) + multiset{(total - 1) % keysCount}
  }

  // ----- draw by draw --------------------------------------------------------------------

  /** The key of draw number t when the active workers take turns. */
  function Draw(t: nat, stride: nat, active: nat, keysCount: nat): (key: int)
    requires active > 0 && keysCount > 0
    ensures 0 <= key < keysCount
  {
    (t % active + t / active * stride) % keysCount
  }

  function Draws(total: nat, stride: nat, active: nat, keysCount: nat): (keys: seq<int>)
    requires active > 0 && keysCount > 0
    ensures |keys| == total
    ensures forall t: nat :: t < total ==> keys[t] == Draw(t, stride, active, keysCount)
  {
    if total == 0 then []
    else Draws(total - 1, stride, active, keysCount) + [Draw(total - 1, stride, active, keysCount)]
  }

  lemma DrawsLast(t: nat, stride: nat, active: nat, keysCount: nat)
    requires active > 0 && keysCount > 0
    ensures multiset(Draws(t + 1, stride, active, keysCount)) ==
            multiset(Draws(t, stride, active, keysCount)) + multiset{Draw(t, stride, active, keysCount)}
  {
  }

  lemma {:induction false} NothingToEmit(stride: nat, keysCount: nat, shares: seq<nat>, n: nat)
    requires keysCount > 0 && n <= |shares| && forall i :: 0 <= i < |shares| ==> shares[i] == 0
    ensures EmittedByAll(stride, keysCount, shares, n) == multiset{}
  {
    if n > 0 {
      NothingToEmit(stride, keysCount, shares, n - 1);
    }
  }

  lemma AddToSecond(a: multiset<int>, b: multiset<int>, c: multiset<int>)
    ensures a + (b + c) == (a + b) + c
  {
  }

  lemma AddToFirst(a: multiset<int>, b: multiset<int>, c: multiset<int>)
    ensures (a + c) + b == (a + b) + c
  {
  }

  /** One more request for worker r adds one key. */
  lemma {:induction false} OneMore(stride: nat, keysCount: nat, shares: seq<nat>, r: nat, n: nat)
    requires keysCount > 0 && n <= |shares| && r < |shares|
    ensures EmittedByAll(stride, keysCount, shares[r := shares[r] + 1], n) ==
            EmittedByAll(stride, keysCount, shares, n) +
            if r < n then multiset{StridedKey(r, stride, shares[r], keysCount)} else multiset{}
  {
    if n > 0 {
      var key := multiset{StridedKey(r, stride, shares[r], keysCount)};
      var before := EmittedByAll(stride, keysCount, shares, n - 1);
      var own := Emitted(n - 1, stride, keysCount, shares[n - 1]);
      OneMore(stride, keysCount, shares, r, n - 1);
      if r == n - 1 {
        AddToSecond(before, own, key);
      } else {
        AddToFirst(before, own, if r < n then key else multiset{});
      }
    }
  }

  lemma TargetsStep(total: nat, active: nat)
    requires active > 0
    ensures var r, t := total % active, Targets(total, active);
            Targets(total + 1, active) == t[r := t[r] + 1] && t[r] == total / active
  {
    forall i: nat | i < active {
      ShareStep(total, active, i);
    }
    ShareStep(total, active, 0);
  }

  lemma TargetsOfNothing(active: nat)
    requires active > 0
    ensures forall i :: 0 <= i < active ==> Targets(0, active)[i] == 0
  {
    DivModUnique(0, active, 0, 0);
  }

  lemma OneMoreDraw(t: nat, workers: nat, active: nat, keysCount: nat)
    requires keysCount > 0 && active > 0
    ensures PhaseKeys(t + 1, workers, active, keysCount) ==
            PhaseKeys(t, workers, active, keysCount) + multiset{Draw(t, workers, active, keysCount)}
  {
    var r, shares := t % active, Targets(t, active);
    TargetsStep(t, active);
    OneMore(workers, keysCount, shares, r, active);
    KeyOfDraw(t, workers, active, keysCount);
  }

  lemma KeyOfDraw(t: nat, workers: nat, active: nat, keysCount: nat)
    requires keysCount > 0 && active > 0
    ensures StridedKey(t % active, workers, t / active, keysCount) == Draw(t, workers, active, keysCount)
  {
  }

  /** The phase's keys are those of the draws: one more request goes to worker total % active. */
  lemma {:induction false} PhaseKeysAreDraws(total: nat, workers: nat, active: nat, keysCount: nat)
    requires keysCount > 0 && active > 0
    ensures PhaseKeys(total, workers, active, keysCount) == multiset(Draws(total, workers, active, keysCount))
    decreases total
  {
    if total == 0 {
      TargetsOfNothing(active);
      NothingToEmit(workers, keysCount, Targets(0, active), active);
    } else {
      var t := total - 1;
      PhaseKeysAreDraws(t, workers, active, keysCount);
      OneMoreDraw(t, workers, active, keysCount);
      DrawsLast(t, workers, active, keysCount);
    }
  }

  /** With every worker active, draw t has key t. */
  lemma DrawOfAll(t: nat, active: nat, keysCount: nat)
    requires active > 0 && keysCount > 0
    ensures Draw(t, active, active, keysCount) == t % keysCount
  {
    DivBounds(t, active);
    assert t % active == t - t / active * active;
  }

  lemma SharedLast(t: nat, active: nat, keysCount: nat)
    requires keysCount > 0 && active > 0
    ensures SharedCounterKeys(t + 1, keysCount) ==
            SharedCounterKeys(t, keysCount) + multiset{Draw(t, active, active, keysCount)}
  {
    DrawOfAll(t, active, keysCount);
  }

  lemma {:induction false} SharedKeysAreDraws(total: nat, active: nat, keysCount: nat)
    requires keysCount > 0 && active > 0
    ensures SharedCounterKeys(total, keysCount) == multiset(Draws(total, active, active, keysCount))
  {
    if total > 0 {
      var t := total - 1;
      SharedKeysAreDraws(t, active, keysCount);
      SharedLast(t, active, keysCount);
      DrawsLast(t, active, active, keysCount);
    }
  }

  // ----- when the keys are those of a shared counter -----------------------------------------

  /** Strides that are equal modulo the key count draw the same keys. */
  lemma DrawOfCongruent(t: nat, stride: nat, active: nat, keysCount: nat)
    requires active > 0 && keysCount > 0 && stride % keysCount == active % keysCount
    ensures Draw(t, stride, active, keysCount) == t % keysCount
  {
    ModLinear(stride, keysCount, t / active, t % active);
    ModLinear(active, keysCount, t / active, t % active);
    assert t / active * active + t % active == t;
  }

  lemma DrawOfFirst(t: nat, stride: nat, active: nat, keysCount: nat)
    requires keysCount > 0 && t < active
    ensures Draw(t, stride, active, keysCount) == t % keysCount
  {
    DivModUnique(t, active, 0, t);
  }

  lemma {:induction false} CoversWhenDrawsAgree(total: nat, workers: nat, active: nat, keysCount: nat)
    requires keysCount > 0 && active > 0
    requires forall t: nat :: t < total ==> Draw(t, workers, active, keysCount) == t % keysCount
    ensures PhaseKeys(total, workers, active, keysCount) == SharedCounterKeys(total, keysCount)
  {
    PhaseKeysAreDraws(total, workers, active, keysCount);
    SharedKeysAreDraws(total, active, keysCount);
    forall t: nat | t < total
      ensures Draw(t, workers, active, keysCount) == Draw(t, active, active, keysCount)
    {
      DrawOfAll(t, active, keysCount);
    }
    assert Draws(total, workers, active, keysCount) == Draws(total, active, active, keysCount);
  }

  /** With every worker active, the strided workers together emit what one shared counter emits. */
  lemma StridesCoverSharedCounter(total: nat, workers: nat, keysCount: nat)
    requires keysCount > 0 && workers > 0
    ensures PhaseKeys(total, workers, workers, keysCount) == SharedCounterKeys(total, keysCount)
  {
    PhaseKeysAreDraws(total, workers, workers, keysCount);
    SharedKeysAreDraws(total, workers, keysCount);
  }

  lemma StridesCover(total: nat, workers: nat, active: nat, keysCount: nat)
    requires keysCount > 0 && active > 0
    requires total <= active || workers % keysCount == active % keysCount
    ensures PhaseKeys(total, workers, active, keysCount) == SharedCounterKeys(total, keysCount)
  {
    forall t: nat | t < total
      ensures Draw(t, workers, active, keysCount) == t % keysCount
    {
      if total <= active {
        DrawOfFirst(t, workers, active, keysCount);
      } else {
        DrawOfCongruent(t, workers, active, keysCount);
      }
    }
    CoversWhenDrawsAgree(total, workers, active, keysCount);
  }

  /** The keys agree for every number of requests exactly when strides by workers and by active workers agree. */
  lemma CoversEveryTotal(workers: nat, active: nat, keysCount: nat)
    requires keysCount > 0 && active > 0
    ensures (forall total :: PhaseKeys(total, workers, active, keysCount) == SharedCounterKeys(total, keysCount)) <==>
            workers % keysCount == active % keysCount
  {
    if workers % keysCount == active % keysCount {
      forall total
        ensures PhaseKeys(total, workers, active, keysCount) == SharedCounterKeys(total, keysCount)
      {
        StridesCover(total, workers, active, keysCount);
      }
    } else {
      NextKeyDiffers(workers, active, keysCount);
      assert PhaseKeys(active + 1, workers, active, keysCount) != SharedCounterKeys(active + 1, keysCount);
    }
  }

  lemma NextKeyDiffers(workers: nat, active: nat, keysCount: nat)
    requires keysCount > 0 && active > 0 && workers % keysCount != active % keysCount
    ensures PhaseKeys(active + 1, workers, active, keysCount) != SharedCounterKeys(active + 1, keysCount)
  {
    StridesCover(active, workers, active, keysCount);
    OneMoreDraw(active, workers, active, keysCount);
    SecondRow(workers, active, keysCount);
    OneKeyMore(SharedCounterKeys(active, keysCount), workers % keysCount, active % keysCount);
  }

  lemma SecondRow(stride: nat, active: nat, keysCount: nat)
    requires active > 0 && keysCount > 0
    ensures Draw(active, stride, active, keysCount) == stride % keysCount
  {
    DivModUnique(active, active, 1, 0);
  }

  lemma OneKeyMore(keys: multiset<int>, a: int, b: int)
    requires a != b
    ensures keys + multiset{a} != keys + multiset{b}
  {
    assert (keys + multiset{a})[a] == keys[a] + 1 && (keys + multiset{b})[a] == keys[a];
  }

  /** Strided keys of worker i are i modulo any common divisor of the stride and the key count. */
  lemma DrawModulo(t: nat, stride: nat, active: nat, keysCount: nat, g: nat)
    requires 0 < active <= g && keysCount > 0 && stride % g == 0 && keysCount % g == 0
    ensures Draw(t, stride, active, keysCount) % g == t % active
  {
    var i, m := t % active, keysCount / g;
    assert keysCount == g * m;
    ModOfMod(i + t / active * stride, g, m);
    var s := stride / g;
    assert t / active * stride == g * (t / active * s) by {
      assert stride == g * s;
    }
    ModAddMultiple(i, g, t / active * s);
    DivModUnique(i, g, 0, i);
  }

  lemma IdleKeyMissing(total: nat, workers: nat, active: nat, keysCount: nat, g: nat)
    requires 0 < active < g && keysCount > 0 && workers % g == 0 && keysCount % g == 0
    ensures active !in PhaseKeys(total, workers, active, keysCount)
  {
    PhaseKeysAreDraws(total, workers, active, keysCount);
    forall t: nat | t < total
      ensures Draw(t, workers, active, keysCount) != active
    {
      DrawModulo(t, workers, active, keysCount, g);
      DivModUnique(active, g, 0, active);
    }
    assert active !in Draws(total, workers, active, keysCount);
  }

  lemma {:induction false} SharedCounterHas(total: nat, keysCount: nat, key: nat)
    requires key < total && key < keysCount
    ensures key in SharedCounterKeys(total, keysCount)
  {
    if key < total - 1 {
      SharedCounterHas(total - 1, keysCount, key);
    } else {
      DivModUnique(key, keysCount, 0, key);
    }
  }

  /**
    When fewer workers are active than a common divisor of the worker count and the
    key count, key number active is never emitted, however many requests there are.
   */
  lemma FewActiveNeverCover(total: nat, workers: nat, active: nat, keysCount: nat, g: nat)
    requires 0 < active < g && keysCount > 0 && workers % g == 0 && keysCount % g == 0
    ensures PhaseKeys(total, workers, active, keysCount) == SharedCounterKeys(total, keysCount) <==> total <= active
  {
    if total <= active {
      StridesCover(total, workers, active, keysCount);
    } else {
      IdleKeyMissing(total, workers, active, keysCount, g);
      assert keysCount == g * (keysCount / g);
      MulAtLeast(g, keysCount / g);
      SharedCounterHas(total, keysCount, active);
    }
  }
}
