/** How long a client waits before it connects again: mosqdelay multiplies its delay with growing factors up to a
    maximum, in ints of 32 bits. */
module ReconnectDelay {
  import opened Wrappers

  const INT_MAX := 0x7FFF_FFFF

  predicate IsInt(x: int) { -INT_MAX - 1 <= x <= INT_MAX }

  function Factorial(n: nat): (f: nat)
    ensures f >= 1
  {
    if n == 0 then 1 else n * Factorial(n - 1)
  }

  function Minimum(a: int, b: int): int {
    if a < b then a else b
  }

  /** The factor of the n-th call: with backoff the counter counts twice. */
  function Factor(backoff: bool, n: nat): nat {
    if backoff then n * n else n
  }

  /** The product of the factors of the first n calls. */
  function Growth(backoff: bool, n: nat): nat {
    if backoff then Factorial(n) * Factorial(n) else Factorial(n)
  }

  /** The delay of the n-th call as a formula. */
  function Closed(base: int, max: int, backoff: bool, n: nat): int {
    Minimum(max, base * Growth(backoff, n))
  }

  /** The fields of mosqdelay that change. */
  datatype Timer = Timer(count: nat, delay: int)

  /** One call of get: the next fields; the delay is also the result. None stands for undefined behaviour, when the
      counter or the product leaves 32 bits. */
  function Next(t: Timer, max: int, backoff: bool): Option<Timer> {
    if t.delay >= max then Some(Timer(t.count, max))
    else
      var product := t.delay * Factor(backoff, t.count + 1);
      if IsInt(t.count + 1) && IsInt(product) then Some(Timer(t.count + 1, Minimum(max, product))) else None
  }

  /** The fields after n calls. */
  function After(base: int, max: int, backoff: bool, n: nat): Option<Timer> {
    if n == 0 then Some(Timer(0, base))
    else
      match After(base, max, backoff, n - 1)
      case None => None
      case Some(t) => Next(t, max, backoff)
  }

  /** In none of the first n calls that multiply, the counter or the product leaves 32 bits. */
  ghost predicate Fits(base: int, max: int, backoff: bool, n: nat) {
    forall k: nat | k < n && Multiplies(base, max, backoff, k) ::
      IsInt(k + 1) && IsInt(base * Growth(backoff, k + 1))
  }

  /** The call behind the first k multiplies: none does with a base that has reached the maximum. */
  predicate Multiplies(base: int, max: int, backoff: bool, k: nat) {
    base < max && base * Growth(backoff, k) < max
  }

  class MosqDelay {
    var count: nat
    const delayBase: int
    const delayMax: int
    const exponentialBackoff: bool
    var delay: int

    constructor (delayBase: int, delayMax: int, exponentialBackoff: bool)
      ensures this.delayBase == delayBase && this.delayMax == delayMax && this.exponentialBackoff == exponentialBackoff
      ensures Some(Timer(count, delay)) == After(delayBase, delayMax, exponentialBackoff, 0)
    {
      this.delayBase, this.delayMax, this.exponentialBackoff := delayBase, delayMax, exponentialBackoff;
      count, delay := 0, delayBase;
    }

    /** The result is None where a sum or a product leaves 32 bits. */
    method Get() returns (d: Option<int>)
      modifies this
      ensures match Next(Timer(old(count), old(delay)), delayMax, exponentialBackoff) {
          case None => d == None
          case Some(t) => Timer(count, delay) == t && d == Some(delay)
        }
    {
      if delay < delayMax {
        var factor := count + 1;
        if !IsInt(factor) {
          return None;
        }
        var product := delay * factor;
        if exponentialBackoff {
          Square(delay, factor);
          SmallerFactor(delay, factor);
          if !IsInt(product) {
            return None;
          }
          product := product * factor;
        }
        if !IsInt(product) {
          return None;
        }
        delay := product;
        if delay > delayMax {
          delay := delayMax;
        }
        count := count + 1;
      } else {
        delay := delayMax;
      }
      d := Some(delay);
    }
  }

  /** A product that fits with the square of a factor fits with the factor. */
  lemma SmallerFactor(d: int, k: nat)
    requires k >= 1
    ensures IsInt(d * (k * k)) ==> IsInt(d * k)
  {
    Scale(k, 1, k);
    if d >= 0 {
      Scale(d, k, k * k);
    } else {
      Scale(-d, k, k * k);
      assert d * k == -(-d * k) && d * (k * k) == -(-d * (k * k));
    }
  }

  lemma Square(d: int, k: int)
    ensures d * k * k == d * (k * k)
  {
  }

  lemma GrowthStep(backoff: bool, n: nat)
    requires n > 0
    ensures Growth(backoff, n) == Growth(backoff, n - 1) * Factor(backoff, n) && Factor(backoff, n) >= 1
    ensures Growth(backoff, n) >= Growth(backoff, n - 1) >= 1
  {
    var f := Factorial(n - 1);
    assert n * f * (n * f) == f * f * (n * n);
    assert n * f >= f;
    assert (n * f) * (n * f) >= f * f;
  }

  lemma {:induction false} GrowthIsPositive(backoff: bool, n: nat)
    ensures Growth(backoff, n) >= 1
  {
    if n > 0 {
      GrowthStep(backoff, n);
    }
  }

  lemma Grows(base: nat, backoff: bool, n: nat)
    requires n > 0
    ensures base * Growth(backoff, n - 1) <= base * Growth(backoff, n)
  {
    GrowthStep(backoff, n);
    Scale(base, Growth(backoff, n - 1), Growth(backoff, n));
  }

  lemma Scale(a: nat, x: int, y: int)
    requires x <= y
    ensures a * x <= a * y
  {
  }

  /** After n calls the delay is the closed form, or the maximum when the base has reached it, and the counter is n as
      long as the maximum is not reached; all n calls are defined exactly when no sum or product leaves 32 bits. */
  lemma {:induction false} AfterCalls(base: int, max: int, backoff: bool, n: nat)
    ensures After(base, max, backoff, n).Some? <==> Fits(base, max, backoff, n)
    ensures match After(base, max, backoff, n) {
        case None => true
        case Some(t) =>
          && t.delay == (if n == 0 then base else if base >= max then max else Closed(base, max, backoff, n))
          && (t.delay < max <==> Multiplies(base, max, backoff, n))
          && (t.delay < max ==> t.count == n)
      }
  {
    hide Growth, Factor;
    if n == 0 {
      NoGrowth(base, backoff);
    } else {
      AfterCalls(base, max, backoff, n - 1);
      var p, g := After(base, max, backoff, n - 1), Growth(backoff, n - 1);
      GrowthStep(backoff, n);
      Product(base, g, Factor(backoff, n));
      FitsStep(base, max, backoff, n);
      if base < max {
        StaysBeyond(base, max, backoff, n);
      }
      if n == 1 {
        NoGrowth(base, backoff);
      }
    }
  }

  lemma NoGrowth(base: int, backoff: bool)
    ensures Growth(backoff, 0) == 1 && base * Growth(backoff, 0) == base
  {
  }

  lemma FitsStep(base: int, max: int, backoff: bool, n: nat)
    requires n > 0
    ensures Fits(base, max, backoff, n) <==>
      && Fits(base, max, backoff, n - 1)
      && (Multiplies(base, max, backoff, n - 1) ==> IsInt(n) && IsInt(base * Growth(backoff, n)))
  {
    hide Growth;
  }

  /** A product that has reached the maximum stays there. */
  lemma StaysBeyond(base: int, max: int, backoff: bool, n: nat)
    requires n > 0 && (base >= 0 || base < max)
    ensures base * Growth(backoff, n - 1) >= max ==> base * Growth(backoff, n) >= max
  {
    hide Growth;
    GrowthIsPositive(backoff, n - 1);
    if base >= 0 {
      Grows(base, backoff, n);
    } else {
      NotAbove(base, Growth(backoff, n - 1));
    }
  }

  lemma Product(base: int, g: int, f: int)
    ensures base * g * f == base * (g * f)
  {
  }

  lemma {:induction false} FactorialIsLarge(n: nat)
    ensures Factorial(n) >= n
  {
    if n > 0 {
      assert n * Factorial(n - 1) >= n * 1;
    }
  }

  lemma GrowthIsLarge(backoff: bool, n: nat)
    ensures Growth(backoff, n) >= n
  {
    FactorialIsLarge(n);
    assert Factorial(n) * Factorial(n) >= Factorial(n) * 1;
  }

  /** All calls are defined and return the closed form. */
  ghost predicate AlwaysClosed(base: int, max: int, backoff: bool) {
    forall n: nat | n > 0 ::
      After(base, max, backoff, n).Some? && After(base, max, backoff, n).value.delay == Closed(base, max, backoff, n)
  }

  /** Every call returns the closed form exactly when the base is at least 1 and no product of the first max calls
      leaves 32 bits, or the base is 0 and there is nothing to wait for. */
  lemma ClosedForm(base: int, max: int, backoff: bool)
    ensures AlwaysClosed(base, max, backoff) <==>
      if base >= 1 then Fits(base, max, backoff, if max < 0 then 0 else max) else base == 0 >= max
  {
    hide AlwaysClosed, Fits;
    ClosedIfFits(base, max, backoff);
    if base >= 1 {
      FitsForLong(base, max, backoff);
    } else {
      FitsNever(base, max, backoff);
    }
  }

  /** With a base of at least 1 the delay reaches the maximum within max calls, so that no later one multiplies. */
  lemma FitsForLong(base: nat, max: int, backoff: bool)
    requires base >= 1
    ensures (forall n: nat :: Fits(base, max, backoff, n)) <==> Fits(base, max, backoff, if max < 0 then 0 else max)
  {
    hide Growth;
    forall k: nat | base * Growth(backoff, k) < max ensures k < max {
      GrowthIsLarge(backoff, k);
      AtLeast(base, Growth(backoff, k));
    }
  }

  /** Otherwise the delay never reaches a maximum above it, and the counter leaves 32 bits. */
  lemma FitsNever(base: int, max: int, backoff: bool)
    requires base <= 0
    ensures ((base >= 0 || base < max) && forall n: nat :: Fits(base, max, backoff, n)) <==> base == 0 >= max
  {
    hide Growth;
    if base < max {
      GrowthIsPositive(backoff, INT_MAX);
      NotAbove(base, Growth(backoff, INT_MAX));
      assert Multiplies(base, max, backoff, INT_MAX) && !Fits(base, max, backoff, INT_MAX + 1);
    } else if base == 0 {
      forall k: nat ensures base * Growth(backoff, k) == 0 {
      }
    }
  }

  lemma NotAbove(base: int, g: nat)
    requires base <= 0 && g >= 1
    ensures base * g <= base
  {
  }

  /** A base of 2 with backoff and the largest maximum: the eighth call multiplies 50803200 with 64. */
  lemma EighthCall()
    ensures After(2, INT_MAX, true, 7) == Some(Timer(7, 50_803_200)) && After(2, INT_MAX, true, 8) == None
    ensures !AlwaysClosed(2, INT_MAX, true)
  {
    assert After(2, INT_MAX, true, 2) == Some(Timer(2, 8));
    assert After(2, INT_MAX, true, 4) == Some(Timer(4, 1_152));
    assert After(2, INT_MAX, true, 6) == Some(Timer(6, 1_036_800));
  }

  /** The same with a condition on all calls. */
  lemma ClosedIfFits(base: int, max: int, backoff: bool)
    ensures AlwaysClosed(base, max, backoff) <==>
      (base >= 0 || base < max) && forall n: nat :: Fits(base, max, backoff, n)
  {
    hide Closed, Growth, Fits, After;
    if base >= 0 || base < max {
      if n: nat :| !Fits(base, max, backoff, n) {
        AfterCalls(base, max, backoff, n);
        assert n > 0 by { NothingToFit(base, max, backoff); }
      } else {
        forall n: nat | n > 0
          ensures After(base, max, backoff, n).Some?
          ensures After(base, max, backoff, n).value.delay == Closed(base, max, backoff, n)
        {
          AfterCalls(base, max, backoff, n);
          if base >= max {
            ClosedAtMaximum(base, max, backoff, n);
          }
        }
      }
    } else {
      var n := -max + 1;
      AfterCalls(base, max, backoff, n);
      GrowthIsLarge(backoff, n);
      Larger(base, Growth(backoff, n));
      BelowMaximum(base, max, backoff, n);
    }
  }

  lemma ClosedAtMaximum(base: nat, max: int, backoff: bool, n: nat)
    requires base >= max
    ensures Closed(base, max, backoff, n) == max
  {
    hide Growth;
    GrowthIsPositive(backoff, n);
    Scale(base, 1, Growth(backoff, n));
  }

  lemma NothingToFit(base: int, max: int, backoff: bool)
    ensures Fits(base, max, backoff, 0)
  {
  }

  lemma BelowMaximum(base: int, max: int, backoff: bool, n: nat)
    requires base * Growth(backoff, n) < max
    ensures Closed(base, max, backoff, n) < max
  {
  }

  lemma Larger(base: int, g: nat)
    requires base < 0
    ensures base * g + g <= 0
  {
    Scale(g, base, -1);
  }

  /** The n-th result of a timer is the closed form, or the maximum when the base has reached it,
      as long as no sum or product leaves 32 bits. */
  method NthDelay(base: int, max: int, backoff: bool, n: nat) returns (d: Option<int>)
    requires n > 0
    ensures Fits(base, max, backoff, n) ==> d == Some(if base >= max then max else Closed(base, max, backoff, n))
    ensures !Fits(base, max, backoff, n) ==> d == None
  {
    hide Growth, Fits, Closed, Next;
    var timer := new MosqDelay(base, max, backoff);
    d := Some(base);
    AfterCalls(base, max, backoff, n);
    for i := 0 to n
      invariant d.Some? && d.value == timer.delay
        && Some(Timer(timer.count, timer.delay)) == After(base, max, backoff, i)
    {
      d := timer.Get();
      if d.None? {
        StaysUndefined(base, max, backoff, i + 1, n);
        return;
      }
    }
  }

  lemma {:induction false} StaysUndefined(base: int, max: int, backoff: bool, k: nat, n: nat)
    requires k <= n && After(base, max, backoff, k).None?
    ensures After(base, max, backoff, n).None?
  {
    if k < n {
      StaysUndefined(base, max, backoff, k, n - 1);
    }
  }

  /** Delays do not shrink and never exceed the maximum. */
  lemma DelaysGrow(base: nat, max: int, backoff: bool, n: nat)
    requires n > 0 && Fits(base, max, backoff, n + 1)
    ensures After(base, max, backoff, n).Some? && After(base, max, backoff, n + 1).Some?
    ensures After(base, max, backoff, n).value.delay <= After(base, max, backoff, n + 1).value.delay <= max
  {
    hide Growth, After;
    FitsStep(base, max, backoff, n + 1);
    AfterCalls(base, max, backoff, n);
    AfterCalls(base, max, backoff, n + 1);
    Grows(base, backoff, n + 1);
  }

  /** With a base of at least 1 they reach the maximum within max calls, with backoff or without. */
  lemma DelaysReachMaximum(base: nat, max: nat, backoff: bool, n: nat)
    requires base >= 1 && n > 0 && n >= max && Fits(base, max, backoff, n)
    ensures After(base, max, backoff, n).Some? && After(base, max, backoff, n).value.delay == max
  {
    hide Growth, After, Fits;
    AfterCalls(base, max, backoff, n);
    GrowthIsLarge(backoff, n);
    AtLeast(base, Growth(backoff, n));
  }

  lemma AtLeast(base: nat, g: nat)
    requires base >= 1
    ensures base * g >= g
  {
  }

  /** The delays of the client, which asks for 2 seconds, at most 35, with backoff; no product leaves 32 bits. */
  lemma ClientDelays(n: nat)
    ensures n > 0 ==>
      After(2, 35, true, n) == Some(if n == 1 then Timer(1, 2) else if n == 2 then Timer(2, 8) else Timer(3, 35))
    ensures Fits(2, 35, true, n)
  {
    hide Growth, Fits;
    AfterCalls(2, 35, true, n);
    FirstDelays();
    if n > 3 {
      StaysFrom(n);
    }
  }

  lemma FirstDelays()
    ensures After(2, 35, true, 0) == Some(Timer(0, 2)) && After(2, 35, true, 1) == Some(Timer(1, 2))
    ensures After(2, 35, true, 2) == Some(Timer(2, 8)) && After(2, 35, true, 3) == Some(Timer(3, 35))
  {
    assert After(2, 35, true, 0) == Some(Timer(0, 2));
    assert After(2, 35, true, 1) == Some(Timer(1, 2));
    assert After(2, 35, true, 2) == Some(Timer(2, 8));
  }

  lemma {:induction false} StaysFrom(n: nat)
    requires n >= 3
    ensures After(2, 35, true, n) == Some(Timer(3, 35))
  {
    FirstDelays();
    if n > 3 {
      StaysFrom(n - 1);
    }
  }
}
