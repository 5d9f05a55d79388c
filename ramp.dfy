/** The arithmetic of the counter animations, with exact rational
    arithmetic in place of JavaScript's floating point: a counter that adds
    `target / steps` at every tick has, after `k` ticks, the value
    `k * (target / steps)`. Both pages run such a counter, with different
    numbers of steps and different suffix rules. */
module Ramp {
  import opened JsText

  /** The running total after `k` ticks: `target / steps` added `k` times. */
  function Total(target: int, steps: nat, k: nat): real
    requires steps > 0
  {
    if k == 0 then 0.0 else Total(target, steps, k - 1) + target as real / steps as real
  }

  /** The total after `k` ticks is `k` times the increment. */
  lemma {:induction false} TotalIsProduct(target: int, steps: nat, k: nat)
    requires steps > 0
    ensures Total(target, steps, k) == k as real * (target as real / steps as real)
  {
    if k > 0 {
      TotalIsProduct(target, steps, k - 1);
      var step := target as real / steps as real;
      assert k as real * step == (k - 1) as real * step + 1.0 * step;
    }
  }

  /** The value shown after `k` ticks: `Math.floor` of the total. */
  function Shown(target: int, steps: nat, k: nat): int
    requires steps > 0
  {
    Total(target, steps, k).Floor
  }

  /** For a positive target the total first reaches the target at tick
      `steps`; before that it is strictly below. */
  lemma {:induction false} Crossing(target: int, steps: nat, k: nat)
    requires steps > 0 && target > 0 && k <= steps
    ensures Total(target, steps, k) >= target as real <==> k == steps
    ensures k < steps ==> Shown(target, steps, k) < target
  {
    TotalIsProduct(target, steps, k);
    var step := target as real / steps as real;
    assert step > 0.0;
    assert steps as real * step == target as real;
    if k < steps {
      assert (steps - k) as real * step > 0.0;
      assert k as real * step + (steps - k) as real * step == steps as real * step;
    }
  }

  /** For a target that is not positive the very first tick already reaches
      it. */
  lemma FirstTickReaches(target: int, steps: nat)
    requires steps > 0 && target <= 0
    ensures Total(target, steps, 1) >= target as real
  {
    assert Total(target, steps, 1) == target as real / steps as real;
    assert target as real / steps as real >= target as real / 1.0 by {
      assert target as real * steps as real <= target as real;
    }
  }

  /** The values shown after ticks 1 to `n`. */
  function Ramped(target: int, steps: nat, n: nat): seq<int>
    requires steps > 0
  {
    seq(n, k requires 0 <= k < n => Shown(target, steps, k + 1))
  }

  /** Before tick `steps` every value shown is below a positive target. */
  lemma RampedBelow(target: int, steps: nat, n: nat)
    requires steps > 0 && target > 0 && n < steps
    ensures forall k | 0 <= k < n :: Ramped(target, steps, n)[k] < target
  {
    forall k | 0 <= k < n ensures Ramped(target, steps, n)[k] < target {
      Crossing(target, steps, k + 1);
    }
  }

  /** For a target that is not negative the values shown never decrease. */
  lemma RampedMonotone(target: int, steps: nat, n: nat)
    requires steps > 0 && target >= 0
    ensures forall j, k | 0 <= j <= k < n :: 0 <= Ramped(target, steps, n)[j] <= Ramped(target, steps, n)[k]
  {
    var r := Ramped(target, steps, n);
    forall j, k | 0 <= j <= k < n ensures 0 <= r[j] <= r[k] {
      TotalIsProduct(target, steps, j + 1);
      TotalIsProduct(target, steps, k + 1);
      var step := target as real / steps as real;
      assert step >= 0.0;
      assert (k + 1) as real * step == (j + 1) as real * step + (k - j) as real * step;
      assert (k - j) as real * step >= 0.0;
      assert (j + 1) as real * step >= 0.0;
    }
  }

  /** The ramp followed by the exact target never decreases, for a positive
      target stopped before tick `steps`, and trivially for a zero target
      that stops at once. */
  lemma RampThenTargetMonotone(target: int, steps: nat, n: nat)
    requires steps > 0 && target >= 0
    requires if target > 0 then n < steps else n == 0
    ensures var r := Ramped(target, steps, n) + [target];
      forall j, k | 0 <= j <= k < |r| :: 0 <= r[j] <= r[k]
  {
    var r := Ramped(target, steps, n) + [target];
    RampedMonotone(target, steps, n);
    if target > 0 {
      RampedBelow(target, steps, n);
    }
    forall j, k | 0 <= j <= k < |r| ensures 0 <= r[j] <= r[k] {
      if k < n {
        assert r[j] == Ramped(target, steps, n)[j] && r[k] == Ramped(target, steps, n)[k];
      } else if j < n {
        assert r[j] == Ramped(target, steps, n)[j];
      }
    }
  }

  /** How many ticks a counter runs: the interval is cleared at the first
      tick whose running total reaches the target, which for a positive
      target is tick `steps` and otherwise the first one. */
  function Ticks(target: int, steps: nat): (n: nat)
    requires steps > 0
    ensures 1 <= n <= steps
    ensures n == 1 <==> target <= 0 || steps == 1
  {
    if target > 0 then steps else 1
  }

  /** The numbers a counter shows: the floored running total after each
      tick before the last, then the exact target. */
  function CounterValues(target: int, steps: nat): (values: seq<int>)
    requires steps > 0
    ensures |values| == Ticks(target, steps) && values[|values| - 1] == target
  {
    Ramped(target, steps, Ticks(target, steps) - 1) + [target]
  }

  /** Every number shown before the last is below the target, and for a
      target that is not negative the numbers never go below 0 and never
      decrease. */
  lemma CounterValuesShape(target: int, steps: nat)
    requires steps > 0
    ensures var values := CounterValues(target, steps);
      (forall k | 0 <= k < |values| - 1 :: values[k] < target) &&
      (target >= 0 ==> forall j, k | 0 <= j <= k < |values| :: 0 <= values[j] <= values[k])
  {
    var n := Ticks(target, steps) - 1;
    var values := CounterValues(target, steps);
    if target > 0 {
      RampedBelow(target, steps, n);
    }
    assert values[..n] == Ramped(target, steps, n);
    if target >= 0 {
      RampThenTargetMonotone(target, steps, n);
    }
  }

  /** The texts showing the given numbers, each followed by `suffix`. */
  function Render(values: seq<int>, suffix: string): (frames: seq<string>)
    ensures |frames| == |values|
  {
    if values == [] then [] else Render(values[..|values| - 1], suffix) + [IntToString(values[|values| - 1]) + suffix]
  }

  lemma RenderSnoc(values: seq<int>, v: int, suffix: string)
    ensures Render(values + [v], suffix) == Render(values, suffix) + [IntToString(v) + suffix]
  {
    assert (values + [v])[..|values|] == values;
  }

  /** Frame `k` is the decimal text of number `k` followed by the suffix. */
  lemma {:induction false} RenderAt(values: seq<int>, suffix: string, k: nat)
    requires k < |values|
    ensures Render(values, suffix)[k] == IntToString(values[k]) + suffix
  {
    if k < |values| - 1 {
      RenderAt(values[..|values| - 1], suffix, k);
    }
  }

  /** Tick `n + 1` of a counter that has shown the first `n` of its
      numbers: the total reaches the target exactly at the last tick, and
      the number shown next is the floored total before it and the target
      at it. */
  lemma TickOutcome(target: int, steps: nat, n: nat)
    requires steps > 0 && n < Ticks(target, steps)
    ensures var values := CounterValues(target, steps);
      (Total(target, steps, n + 1) >= target as real <==> n + 1 == Ticks(target, steps)) &&
      values[n] == (if n + 1 == Ticks(target, steps) then target else Total(target, steps, n + 1).Floor) &&
      values[..n + 1] == values[..n] + [values[n]]
  {
    if target > 0 {
      Crossing(target, steps, n + 1);
    } else {
      FirstTickReaches(target, steps);
    }
  }
}
