/** The retry schedule: its total delay, in closed form. */
module BackoffSchedule {
  import opened Entities
  import opened Pipeline

  /** Seconds of delay that the first n failed attempts add up to. */
  function BackoffSum(cfg: Settings, n: nat): (seconds: int)
    ensures seconds >= n
  {
    if n == 0 then 0 else BackoffSum(cfg, n - 1) + Backoff(cfg, n)
  }

  /** How often the delay may double, from base seconds, before it would pass max. */
  function Doublings(base: int, max: int): (u: nat)
    requires base >= 1
    decreases max - base
  {
    if base > max then 0 else 1 + Doublings(2 * base, max)
  }

  lemma {:induction false} DoublingsReach(base: int, max: int, i: nat)
    requires base >= 1
    ensures base * Pow2(i) <= max <==> i < Doublings(base, max)
    decreases i
  {
    Grows(base, i);
    if i > 0 && base <= max {
      DoublingsReach(2 * base, max, i - 1);
      assert base * Pow2(i) == 2 * base * Pow2(i - 1);
    }
  }

  lemma {:induction false} Grows(base: int, i: nat)
    requires base >= 1
    ensures base * Pow2(i) >= base
  {
    if i > 0 {
      Grows(base, i - 1);
      assert base * Pow2(i) == 2 * (base * Pow2(i - 1));
    }
  }

  /** The sum of n delays: geometric up to the cap, and linear after it. */
  function ClosedSum(base: int, max: int, n: nat): int
    requires base >= 1
  {
    var u := Doublings(base, max);
    if n <= u then base * (Pow2(n) - 1) else base * (Pow2(u) - 1) + (n - u) * max
  }

  lemma Doubled(base: int, p: int)
    ensures base * (2 * p - 1) == base * (p - 1) + base * p
  {}

  lemma OneMore(n: int, max: int)
    ensures n * max == (n - 1) * max + max
  {}

  lemma ClosedSumStep(base: int, max: int, n: nat)
    requires base >= 1 && n >= 1
    ensures ClosedSum(base, max, n) - ClosedSum(base, max, n - 1)
         == if n <= Doublings(base, max) then base * Pow2(n - 1) else max
  {
    var u := Doublings(base, max);
    hide Doublings;
    if n <= u {
      assert Pow2(n) == 2 * Pow2(n - 1);
      Doubled(base, Pow2(n - 1));
    } else {
      OneMore(n - u, max);
    }
  }

  lemma BackoffCases(cfg: Settings, n: nat)
    requires n >= 1
    ensures var base, max := cfg.incidentDeliveryBackoffBaseSeconds, cfg.incidentDeliveryBackoffMaxSeconds;
      Backoff(cfg, n) == if n <= Doublings(base, max) then base * Pow2(n - 1) else max
  {
    DoublingsReach(cfg.incidentDeliveryBackoffBaseSeconds, cfg.incidentDeliveryBackoffMaxSeconds, n - 1);
  }

  lemma {:induction false} BackoffClosedForm(cfg: Settings, n: nat)
    ensures BackoffSum(cfg, n)
         == ClosedSum(cfg.incidentDeliveryBackoffBaseSeconds, cfg.incidentDeliveryBackoffMaxSeconds, n)
  {
    if n > 0 {
      BackoffClosedForm(cfg, n - 1);
      BackoffCases(cfg, n);
      ClosedSumStep(cfg.incidentDeliveryBackoffBaseSeconds, cfg.incidentDeliveryBackoffMaxSeconds, n);
    }
  }

  lemma QuotientBound(a: int, d: int, q: int)
    requires d >= 1
    ensures q * d <= a <==> q <= a / d
  {
    if q <= a / d {
      assert q * d <= (a / d) * d;
    } else {
      assert q * d >= (a / d + 1) * d == (a / d) * d + d;
    }
  }

  /** How many delays fit in the given seconds: n do exactly if, up to the cap, 2^n is at most one
      more than the seconds over the base, and if, after the cap, the delays past it are no more than
      what is left of the seconds over max. */
  lemma DelaysFit(base: int, max: int, n: nat, seconds: int)
    requires base >= 1 && max >= 1
    ensures var u := Doublings(base, max);
      ClosedSum(base, max, n) <= seconds
      <==> if n <= u then Pow2(n) <= seconds / base + 1
           else n <= u + (seconds - base * (Pow2(u) - 1)) / max
  {
    var u := Doublings(base, max);
    QuotientBound(seconds, base, Pow2(n) - 1);
    QuotientBound(seconds - base * (Pow2(u) - 1), max, n - u);
    assert base * (Pow2(n) - 1) == (Pow2(n) - 1) * base;
  }
}
