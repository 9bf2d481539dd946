/**
 loop.c: the delay before each attempt to reconnect. The product is computed in 32 bits.
 */
module Backoff {
  import opened Basics
  import H = HashArithmetic

  const WORD := 0x1_0000_0000

  /** What mosquitto_reconnect_delay_set stores: the delay is never 0. */
  datatype Settings = Settings(delay: nat, delayMax: nat, exponential: bool) {
    predicate Valid() {
      1 <= delay < WORD && delayMax < WORD
    }
  }

  /** The delay of the `k`-th attempt as it is meant, before the maximum is applied. */
  function Product(s: Settings, k: nat): nat {
    if s.exponential then s.delay * k * k else s.delay * k
  }

  /** The delay as it is computed, before the maximum is applied. */
  function Computed(s: Settings, reconnects: nat): nat {
    if s.delayMax > s.delay then Product(s, reconnects + 1) % WORD else s.delay
  }

  function Delay(s: Settings, reconnects: nat): nat {
    Min(Computed(s, reconnects), s.delayMax)
  }

  function NextReconnects(s: Settings, reconnects: nat): nat {
    if Computed(s, reconnects) > s.delayMax then reconnects else (reconnects + 1) % WORD
  }

  /** The counter after `n` failed attempts in a row. */
  function Reconnects(s: Settings, n: nat): nat {
    if n == 0 then 0 else NextReconnects(s, Reconnects(s, n - 1))
  }

  /** The first attempt whose delay is over the maximum. */
  function FirstAbove(s: Settings, k: nat): (r: nat)
    requires s.Valid() && k >= 1
    ensures r >= k && Product(s, r) > s.delayMax
    ensures forall j :: k <= j < r ==> Product(s, j) <= s.delayMax
    decreases s.delayMax + 1 - k
  {
    AtLeast(s, k);
    if Product(s, k) > s.delayMax then k else FirstAbove(s, k + 1)
  }

  lemma AtLeast(s: Settings, k: nat)
    requires s.Valid() && k >= 1
    ensures Product(s, k) >= k && Product(s, k) >= s.delay
  {
    assert s.delay * k >= k && s.delay * k >= s.delay;
    assert s.delay * k * k >= s.delay * k;
  }

  lemma Grows(s: Settings, j: nat, k: nat)
    requires j <= k
    ensures Product(s, j) <= Product(s, k)
  {
    assert s.delay * j <= s.delay * k;
    assert s.delay * j * j <= s.delay * k * j <= s.delay * k * k;
  }

  /** The first product over the maximum still fits in 32 bits. */
  predicate Fits(s: Settings)
    requires s.Valid()
  {
    s.delayMax <= s.delay || Product(s, FirstAbove(s, 1)) < WORD
  }

  /** The counter follows the attempts until the maximum is passed. */
  lemma {:induction false} Counter(s: Settings, n: nat)
    requires s.Valid() && s.delayMax > s.delay && n < FirstAbove(s, 1)
    ensures Reconnects(s, n) == n
  {
    hide FirstAbove, NextReconnects, Product;
    if n > 0 {
      Counter(s, n - 1);
      CounterStep(s, n - 1);
    }
  }

  lemma CounterStep(s: Settings, r: nat)
    requires s.Valid() && s.delayMax > s.delay && r + 1 < FirstAbove(s, 1)
    ensures Computed(s, r) == Product(s, r + 1) <= s.delayMax && NextReconnects(s, r) == r + 1
  {
    hide FirstAbove, Product;
    AtLeast(s, r + 1);
  }

  /** Once a computed delay is over the maximum, the counter does not move any more. */
  lemma {:induction false} Stuck(s: Settings, m: nat, n: nat)
    requires m <= n && Computed(s, Reconnects(s, m)) > s.delayMax
    ensures Reconnects(s, n) == Reconnects(s, m)
  {
    hide Computed;
    if m < n {
      Stuck(s, m, n - 1);
    }
  }

  /** No product of any run of failures wraps exactly when the first one over the maximum does not. */
  lemma NeverWrapsIff(s: Settings)
    requires s.Valid() && s.delayMax > s.delay
    ensures (forall n :: Product(s, Reconnects(s, n) + 1) < WORD) <==> Fits(s)
  {
    hide FirstAbove, Product, Reconnects;
    var k := FirstAbove(s, 1);
    Counter(s, k - 1);
    if Fits(s) {
      forall n ensures Product(s, Reconnects(s, n) + 1) < WORD {
        if n < k {
          Counter(s, n);
        } else {
          Stuck(s, k - 1, n);
        }
        Grows(s, Reconnects(s, n) + 1, k);
      }
    } else {
      assert Product(s, Reconnects(s, k - 1) + 1) >= WORD;
    }
  }

  /** With a maximum below 2^30 nothing wraps, whatever the delay and the flag. */
  lemma SmallMaximumFits(s: Settings)
    requires s.Valid() && s.delayMax < 0x4000_0000
    ensures Fits(s)
  {
    if s.delayMax > s.delay {
      var k := FirstAbove(s, 1);
      assert Product(s, 1) == s.delay;
      assert k >= 2 && Product(s, k - 1) <= s.delayMax;
      Twice(s.delay, k);
    }
  }

  lemma Twice(d: nat, k: nat)
    requires k >= 2
    ensures d * k <= 2 * (d * (k - 1))
    ensures d * k * k <= 4 * (d * (k - 1) * (k - 1))
  {
    var j := k - 1;
    assert d * k == d * j + d && d <= d * j;
    assert d * k * k == d * k * j + d * k;
    assert d * k * j <= 2 * (d * j) * j;
    assert d * k <= d * k * j;
  }

  // ----- When the delays are as meant

  function Wrapped(s: Settings, k: nat): nat {
    Product(s, k) % WORD
  }

  /**
   What the test against the maximum makes of the first product over it: wrapped or not, it
   must still be over the maximum; if it has wrapped to the maximum, that goes for the next one.
   */
  predicate Meant(s: Settings)
    requires s.Valid()
  {
    s.delayMax <= s.delay ||
    var k := FirstAbove(s, 1);
    Wrapped(s, k) > s.delayMax || (Wrapped(s, k) == s.delayMax && Wrapped(s, k + 1) > s.delayMax)
  }

  lemma FitsIsMeant(s: Settings)
    requires s.Valid() && Fits(s)
    ensures Meant(s)
  {
    hide Product;
  }

  /** If an odd multiple of a number is divisible by a power of two, so is the number. */
  lemma {:induction false} OddFactor(d: nat, m: nat, j: nat)
    requires m % 2 == 1 && d * m % H.Pow2(j) == 0
    ensures d % H.Pow2(j) == 0
    decreases j
  {
    if j > 0 {
      var p := H.Pow2(j - 1);
      var q := d * m / (2 * p);
      assert d * m == 2 * p * q;
      EvenFactor(d, m, p * q);
      var e := d / 2;
      assert e * m == p * q;
      Multiple(p, q);
      OddFactor(e, m, j - 1);
      var r := e / p;
      assert d == 2 * p * r;
      Multiple(2 * p, r);
    }
  }

  lemma OddTimesOdd(d: nat, m: nat)
    requires d % 2 == 1 && m % 2 == 1
    ensures d * m % 2 == 1
  {
    var e, i := d / 2, m / 2;
    assert d * m == (2 * e + 1) * m == 2 * (e * m) + m == 2 * (e * m + i) + 1;
  }

  lemma EvenFactor(d: nat, m: nat, half: nat)
    requires m % 2 == 1 && d * m == 2 * half
    ensures d % 2 == 0 && d / 2 * m == half
  {
    var e := d / 2;
    if d % 2 == 1 {
      OddTimesOdd(d, m);
      assert false;
    }
    assert d * m == 2 * e * m == 2 * (e * m);
  }

  lemma Multiple(p: nat, q: nat)
    requires p >= 1
    ensures p * q % p == 0
  {
    H.Remainder(q * p, p, q, 0);
  }

  lemma WordIsPower()
    ensures H.Pow2(32) == WORD
  {
    assert H.Pow2(8) == 256;
    assert H.Pow2(16) == 0x1_0000;
    assert H.Pow2(24) == 0x100_0000;
  }

  /** Two products in a row never agree modulo 2^32. */
  lemma NeighboursDiffer(s: Settings, k: nat)
    requires s.Valid()
    ensures Wrapped(s, k) != Wrapped(s, k + 1)
  {
    hide Product, H.Pow2;
    var m := if s.exponential then 2 * k + 1 else 1;
    Difference(s, k);
    if Wrapped(s, k) == Wrapped(s, k + 1) {
      SameRemainder(Product(s, k), s.delay * m);
      WordIsPower();
      OddFactor(s.delay, m, 32);
      assert false;
    }
  }

  lemma SameRemainder(a: nat, b: nat)
    requires a % WORD == (a + b) % WORD
    ensures b % WORD == 0
  {
  }

  lemma Difference(s: Settings, k: nat)
    ensures Product(s, k + 1) == Product(s, k) + s.delay * if s.exponential then 2 * k + 1 else 1
  {
    var d := s.delay;
    assert d * (k + 1) == d * k + d;
    if s.exponential {
      assert d * (k + 1) * (k + 1) == (d * k + d) * (k + 1) == d * k * (k + 1) + d * (k + 1);
      assert d * k * (k + 1) == d * k * k + d * k;
      assert d * (2 * k + 1) == d * k + d * k + d;
    }
  }

  /** If the first product over the maximum wraps to the maximum, the counter makes one more step. */
  lemma OneMoreStep(s: Settings)
    requires s.Valid() && s.delayMax > s.delay && Wrapped(s, FirstAbove(s, 1)) == s.delayMax
    ensures Reconnects(s, FirstAbove(s, 1)) == FirstAbove(s, 1)
  {
    hide FirstAbove, Product;
    var k := FirstAbove(s, 1);
    Counter(s, k - 1);
    WholeWord(s);
    if k > 1 {
      AtLeast(s, k - 1);
    }
  }

  lemma WholeWord(s: Settings)
    ensures Wrapped(s, WORD) == 0
  {
    if s.exponential {
      Multiple(WORD, s.delay * WORD);
    } else {
      Multiple(WORD, s.delay);
    }
  }

  lemma PastMaximum(s: Settings, n: nat)
    requires s.Valid() && s.delayMax > s.delay && n + 1 >= FirstAbove(s, 1)
    ensures Min(Product(s, n + 1), s.delayMax) == s.delayMax
  {
    hide FirstAbove, Product;
    Grows(s, FirstAbove(s, 1), n + 1);
  }

  /** The delays as they should be, whenever the settings are good. */
  lemma DelaysAsMeant(s: Settings, n: nat)
    requires s.Valid() && Meant(s)
    ensures Delay(s, Reconnects(s, n)) == Min(Product(s, n + 1), s.delayMax)
  {
    hide FirstAbove, Product, Reconnects;
    AtLeast(s, n + 1);
    if s.delayMax > s.delay {
      var k := FirstAbove(s, 1);
      if n + 1 < k {
        Counter(s, n);
        CounterStep(s, n);
      } else {
        PastMaximum(s, n);
        Counter(s, k - 1);
        if Wrapped(s, k) > s.delayMax {
          Stuck(s, k - 1, n);
        } else {
          OneMoreStep(s);
          if n >= k {
            Stuck(s, k, n);
          }
        }
      }
    }
  }

  /**
   Every delay of every run of failures is the intended product, cut off at the maximum,
   exactly when the test against the maximum catches the first product over it.
   */
  lemma DelaysAsMeantIff(s: Settings)
    requires s.Valid()
    ensures (forall n: nat :: Delay(s, Reconnects(s, n)) == Min(Product(s, n + 1), s.delayMax)) <==> Meant(s)
  {
    hide FirstAbove, Product, Reconnects, Wrapped;
    if Meant(s) {
      forall n: nat ensures Delay(s, Reconnects(s, n)) == Min(Product(s, n + 1), s.delayMax) {
        DelaysAsMeant(s, n);
      }
    } else {
      var k := FirstAbove(s, 1);
      NeighboursDiffer(s, k);
      var n := if Wrapped(s, k) < s.delayMax then k - 1 else k;
      PastMaximum(s, n);
      if n < k {
        Counter(s, n);
      } else {
        OneMoreStep(s);
      }
      ComputedWrapped(s, n);
      assert Delay(s, Reconnects(s, n)) < s.delayMax;
    }
  }

  lemma ComputedWrapped(s: Settings, r: nat)
    requires s.delayMax > s.delay
    ensures Computed(s, r) == Wrapped(s, r + 1)
  {
  }

  /** Then they never fall, never pass the maximum, and are at the maximum from some attempt on. */
  lemma DelaysRiseToMaximum(s: Settings)
    requires s.Valid() && Meant(s)
    ensures forall m, n :: 0 <= m <= n ==> Delay(s, Reconnects(s, m)) <= Delay(s, Reconnects(s, n)) <= s.delayMax
    ensures forall n :: n >= FirstAbove(s, 1) - 1 ==> Delay(s, Reconnects(s, n)) == s.delayMax
  {
    hide Meant, Product, Reconnects, Delay;
    forall m, n | 0 <= m <= n ensures Delay(s, Reconnects(s, m)) <= Delay(s, Reconnects(s, n)) <= s.delayMax {
      DelaysAsMeant(s, m);
      DelaysAsMeant(s, n);
      Grows(s, m + 1, n + 1);
    }
    forall n | n >= FirstAbove(s, 1) - 1 ensures Delay(s, Reconnects(s, n)) == s.delayMax {
      DelaysAsMeant(s, n);
      Grows(s, FirstAbove(s, 1), n + 1);
    }
  }

  /** A larger maximum can wrap: the second attempt comes without any delay. */
  lemma LargeMaximumWraps()
    ensures var s := Settings(0x4000_0000, 0xFFFF_FFFF, true);
            && Delay(s, Reconnects(s, 0)) == 0x4000_0000
            && Delay(s, Reconnects(s, 1)) == 0
            && s.Valid() && !Meant(s)
  {
    var s := Settings(0x4000_0000, 0xFFFF_FFFF, true);
    assert Reconnects(s, 0) == 0;
    assert Reconnects(s, 1) == 1;
    DelaysAsMeantIff(s);
    assert Min(Product(s, 2), s.delayMax) == 0xFFFF_FFFF;
  }

  /** Wrapping alone does no harm: here the wrapped product is still over the maximum. */
  lemma WrappedButMeant()
    ensures var s := Settings(0x7FFF_FFFF, 0x8000_0000, true);
            s.Valid() && !Fits(s) && Meant(s)
  {
    var s := Settings(0x7FFF_FFFF, 0x8000_0000, true);
    assert Product(s, 1) == 0x7FFF_FFFF && Product(s, 2) == 0x1_FFFF_FFFC;
    assert FirstAbove(s, 1) == FirstAbove(s, 2) == 2;
  }

  class Connection {
    const settings: Settings
    var reconnects: nat

    constructor (settings: Settings)
      ensures this.settings == settings && reconnects == 0
    {
      this.settings, reconnects := settings, 0;
    }

    /** The delay computation of one turn of the reconnect loop. */
    method NextDelay() returns (delay: nat)
      modifies this
      ensures delay == Delay(settings, old(reconnects))
      ensures settings.delayMax > settings.delay && !settings.exponential ==>
        delay == Min(settings.delay * (old(reconnects) + 1) % 4294967296, settings.delayMax)
      ensures settings.delayMax > settings.delay && settings.exponential ==>
        delay == Min(settings.delay * (old(reconnects) + 1) * (old(reconnects) + 1) % 4294967296, settings.delayMax)
      ensures settings.delayMax <= settings.delay ==> delay == settings.delayMax
      ensures reconnects == NextReconnects(settings, old(reconnects))
    {
      if settings.delayMax > settings.delay {
        var k := reconnects + 1;
        if settings.exponential {
          delay := settings.delay * k * k % WORD;
        } else {
          delay := settings.delay * k % WORD;
        }
      } else {
        delay := settings.delay;
      }
      if delay > settings.delayMax {
        delay := settings.delayMax;
      } else {
        reconnects := (reconnects + 1) % WORD;
      }
    }

    /** The reconnect loop while every attempt fails, with the delays it sleeps. */
    method FailRepeatedly(attempts: nat) returns (slept: seq<nat>)
      requires settings.Valid() && Meant(settings) && reconnects == 0
      modifies this
      ensures |slept| == attempts
      ensures settings.exponential ==>
        forall i :: 0 <= i < attempts ==> slept[i] == Min(settings.delay * (i + 1) * (i + 1), settings.delayMax)
      ensures !settings.exponential ==>
        forall i :: 0 <= i < attempts ==> slept[i] == Min(settings.delay * (i + 1), settings.delayMax)
      ensures reconnects == Reconnects(settings, attempts)
    {
      slept := [];
      while |slept| < attempts
        invariant |slept| <= attempts && reconnects == Reconnects(settings, |slept|)
        invariant forall i :: 0 <= i < |slept| ==> slept[i] == Min(Product(settings, i + 1), settings.delayMax)
      {
        DelaysAsMeant(settings, |slept|);
        var delay := NextDelay();
        slept := slept + [delay];
      }
    }
  }
}
