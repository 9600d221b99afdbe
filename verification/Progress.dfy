/**
  The progress arithmetic of the migration, with exact rational numbers where the source has
  doubles.
 */
module Progress {

  const MAX_TRIGGER_COUNT := 100
  const EPSILON := 0.5

  /** std::round on non-negative numbers. */
  function Round(x: real): int
  {
    (x + 0.5).Floor
  }

  function Abs(x: real): real
  {
    if x < 0.0 then -x else x
  }

  function Step(totalCount: nat): real
  {
    totalCount as real / 100.0
  }

  predicate IsShouldUpdateProgress(i: nat, totalCount: nat)
  {
    if totalCount <= MAX_TRIGGER_COUNT then true
    else
      var step := Step(totalCount);
      var expectedTriggerIndex := Round(i as real / step);
      var triggerPos := expectedTriggerIndex as real * step;
      Abs(i as real - triggerPos) < EPSILON
  }

  function Percentage(i: nat, size: nat): int
    requires size > 0
  {
    if i == 0 then 0 else (i * MAX_TRIGGER_COUNT + size / 2) / size
  }

  /** i is the strictly nearest integer to k * total / 100. */
  predicate Nearest(i: int, k: int, total: int)
  {
    -50 < 100 * i - k * total < 50
  }

  lemma Half(d: real, step: real)
    requires step > 0.0 && -0.5 <= d < 0.5
    ensures -0.5 * step <= d * step < 0.5 * step
  {
    assert (d + 0.5) * step >= 0.0;
    assert (0.5 - d) * step > 0.0;
  }

  lemma Scaled(x: real, step: real, e: real, product: real, y: real)
    requires step > 0.0 && e - 0.5 <= x < e + 0.5 && product == x * step && y == e * step
    ensures y - 0.5 * step <= product < y + 0.5 * step
  {
    var d := x - e;
    Half(d, step);
    assert d * step == product - y;
  }

  lemma StepProduct(total: nat, e: int)
    ensures e as real * Step(total) == (e * total) as real / 100.0
  {
    assert e as real * Step(total) == (e as real * total as real) / 100.0;
  }

  lemma ToIntegers(i: int, m: int, t: int, y: real)
    requires y == m as real / 100.0
    requires y - 0.5 * (t as real / 100.0) <= i as real < y + 0.5 * (t as real / 100.0)
    ensures 2 * m <= 200 * i + t < 2 * m + 2 * t
  {
    assert (2 * m - t) as real <= (200 * i) as real < (2 * m + t) as real;
  }

  lemma NearQuotient(i: nat, total: nat, e: int, x: real, step: real)
    requires total > 100 && step == Step(total)
    requires x * step == i as real && e as real - 0.5 <= x < e as real + 0.5
    ensures 2 * (e * total) <= 200 * i + total < 2 * (e * total) + 2 * total
  {
    StepProduct(total, e);
    var m, y := e * total, (e * total) as real / 100.0;
    assert y == e as real * step;
    Scaled(x, step, e as real, i as real, y);
    ToIntegers(i, m, total, y);
  }

  /** The rounded quotient, in integers. */
  lemma RoundedIndex(i: nat, total: nat, e: int)
    requires total > 100 && e == Round(i as real / Step(total))
    ensures 2 * (e * total) <= 200 * i + total < 2 * (e * total) + 2 * total
  {
    var x, step := i as real / Step(total), Step(total);
    assert x * step == i as real;
    NearQuotient(i, total, e, x, step);
  }

  lemma DistanceInIntegers(i: nat, total: nat, e: int)
    ensures Abs(i as real - e as real * Step(total)) < EPSILON <==> Nearest(i, e, total)
  {
    StepProduct(total, e);
    assert 100.0 * (i as real - e as real * Step(total)) == (100 * i - e * total) as real;
  }

  lemma MulMono(a: int, b: int, t: nat)
    ensures a <= b ==> a * t <= b * t
  {
  }

  /** Two multiples of total between which there is less than total are the same multiple. */
  lemma CloseMultiples(a: int, b: int, total: nat)
    requires a * total < (b + 1) * total && b * total < (a + 1) * total
    ensures a == b
  {
    MulMono(b + 1, a, total);
    MulMono(a + 1, b, total);
  }

  lemma NearestIsRounded(i: nat, total: nat, e: int, k: int)
    requires total > 100 && e == Round(i as real / Step(total)) && Nearest(i, k, total)
    ensures e == k
  {
    RoundedIndex(i, total, e);
    assert (e + 1) * total == e * total + total && (k + 1) * total == k * total + total;
    CloseMultiples(e, k, total);
  }

  /** An index of a long listing triggers exactly when it is the strictly nearest integer to some k hundredths. */
  lemma TriggerExact(i: nat, total: nat)
    requires MAX_TRIGGER_COUNT < total && i < total
    ensures IsShouldUpdateProgress(i, total) <==> exists k: int :: 0 <= k < 100 && Nearest(i, k, total)
  {
    hide Nearest;
    var e := Round(i as real / Step(total));
    DistanceInIntegers(i, total, e);
    if Nearest(i, e, total) {
      NearestInRange(i, e, total);
    }
    if k: int :| 0 <= k < 100 && Nearest(i, k, total) {
      NearestIsRounded(i, total, e, k);
    }
  }

  /** Every index of a short listing triggers. */
  lemma EveryIndexOfFewTriggers(i: nat, total: nat)
    requires i < total <= 100
    ensures IsShouldUpdateProgress(i, total)
  {
  }

  lemma NearestInRange(i: nat, k: int, total: nat)
    requires 100 < total && i < total && Nearest(i, k, total)
    ensures 0 <= k < 100
  {
    MulMono(100, k, total);
    MulMono(k, -1, total);
  }

  lemma DivisionIs(n: int, d: nat, q: int)
    requires d > 0 && q * d <= n < q * d + d
    ensures n / d == q
  {
    assert n == d * (n / d) + n % d;
    assert (n / d) * d < (q + 1) * d && q * d < (n / d + 1) * d by {
      assert (q + 1) * d == q * d + d && (n / d + 1) * d == (n / d) * d + d;
    }
    CloseMultiples(n / d, q, d);
  }

  /** The percentage reported at a trigger is that k. */
  lemma PercentageIsK(i: nat, total: nat, k: int)
    requires MAX_TRIGGER_COUNT < total && i < total && Nearest(i, k, total)
    ensures Percentage(i, total) == k && 0 <= k < 100
  {
    NearestInRange(i, k, total);
    MulMono(1, k, total);
    if i != 0 {
      DivisionIs(i * 100 + total / 2, total, k);
    }
  }

  /** An index triggers and reports k exactly when it is the strictly nearest integer to k hundredths. */
  lemma ReportsExact(i: nat, total: nat, k: int)
    requires MAX_TRIGGER_COUNT < total && i < total
    ensures IsShouldUpdateProgress(i, total) && Percentage(i, total) == k <==> Nearest(i, k, total)
  {
    hide IsShouldUpdateProgress, Percentage, Nearest;
    TriggerExact(i, total);
    forall j: int | Nearest(i, j, total) ensures Percentage(i, total) == j && 0 <= j < 100 {
      PercentageIsK(i, total, j);
    }
  }

  lemma OffHalf(i: int, m: int)
    ensures -50 < 100 * i - m < 50 ==> m % 100 != 50 && i == (m + 50) / 100
    ensures m % 100 != 50 && i == (m + 50) / 100 ==> -50 < 100 * i - m < 50
  {
  }

  /** A hundredth is reported at some index unless it falls halfway between two indices. */
  lemma WhichHundredthsTrigger(k: nat, total: nat)
    requires MAX_TRIGGER_COUNT < total && k < 100
    ensures (exists i: nat :: i < total && IsShouldUpdateProgress(i, total) && Percentage(i, total) == k) <==>
            (k * total) % 100 != 50
  {
    hide IsShouldUpdateProgress, Percentage;
    var m := k * total;
    MulMono(k, 99, total);
    var at := (m + 50) / 100;
    OffHalf(at, m);
    ReportsExact(at, total, k);
    if i: nat :| i < total && IsShouldUpdateProgress(i, total) && Percentage(i, total) == k {
      ReportsExact(i, total, k);
      OffHalf(i, m);
    }
  }

  /** Whatever the number of files, the percentage is a hundredth nearest to the share of the files before i. */
  lemma PercentageIsNearest(i: nat, total: nat)
    requires i < total
    ensures 200 * i <= 2 * (Percentage(i, total) * total) + total
    ensures 2 * (Percentage(i, total) * total) <= 200 * i + total
  {
    var n := i * 100 + total / 2;
    var q := n / total;
    assert n == total * q + n % total;
    assert q * total == total * q;
  }

  lemma StrictlyUp(i: nat, j: nat, total: nat)
    requires 0 < total <= 100 && i < j < total
    ensures Percentage(i, total) < Percentage(j, total)
  {
    var a, b := i * 100 + total / 2, j * 100 + total / 2;
    assert a / total * total <= a && b < (b / total + 1) * total by {
      assert a == total * (a / total) + a % total && b == total * (b / total) + b % total;
      assert (b / total + 1) * total == (b / total) * total + total;
    }
    assert b >= a + total;
    MulMono(b / total, a / total, total);
    assert (b / total + 1) * total == b / total * total + total;
    if i == 0 {
      DivisionIs(a, total, 0);
    }
  }

  /** Reported percentages strictly increase and stay within 0 to 99, and the 64-bit product does not overflow. */
  lemma PercentagesIncrease(i: nat, j: nat, total: nat)
    requires i < j < total < 0x1_0000_0000
    requires IsShouldUpdateProgress(i, total) && IsShouldUpdateProgress(j, total)
    ensures 0 <= Percentage(i, total) < Percentage(j, total) <= 99
    ensures j * MAX_TRIGGER_COUNT + total / 2 < 0x1_0000_0000_0000_0000
  {
    if total <= MAX_TRIGGER_COUNT {
      StrictlyUp(i, j, total);
      ShortRange(i, total);
      ShortRange(j, total);
    } else {
      TriggerExact(i, total);
      TriggerExact(j, total);
      hide IsShouldUpdateProgress, Percentage;
      var k: int :| 0 <= k < 100 && Nearest(i, k, total);
      var m: int :| 0 <= m < 100 && Nearest(j, m, total);
      PercentageIsK(i, total, k);
      PercentageIsK(j, total, m);
      MulMono(m, k, total);
    }
  }

  lemma ShortRange(i: nat, total: nat)
    requires 0 < total <= 100 && i < total
    ensures 0 <= Percentage(i, total) <= 99
  {
    var a := i * 100 + total / 2;
    MulMono(100, a / total, total);
    assert a == total * (a / total) + a % total;
  }

  function Triggers(total: nat): set<nat>
  {
    set i: nat | i < total && IsShouldUpdateProgress(i, total)
  }

  lemma {:induction false} FewWithSmallPercentage(s: set<nat>, total: nat, n: nat)
    requires total > 0
    requires forall i :: i in s ==> 0 <= Percentage(i, total) < n
    requires forall i, j :: i in s && j in s && i != j ==> Percentage(i, total) != Percentage(j, total)
    ensures |s| <= n
    decreases n
  {
    hide Percentage;
    if n == 0 {
      assert s == {};
    } else if i :| i in s && Percentage(i, total) == n - 1 {
      FewWithSmallPercentage(s - {i}, total, n - 1);
      assert s == (s - {i}) + {i};
    } else {
      FewWithSmallPercentage(s, total, n - 1);
    }
  }

  /** There are at most 100 progress events, whatever the number of files. */
  lemma AtMostHundredTriggers(total: nat)
    requires total < 0x1_0000_0000
    ensures |Triggers(total)| <= 100
  {
    if total == 0 {
      assert Triggers(total) == {};
    } else {
      hide IsShouldUpdateProgress, Percentage;
      forall i, j | i in Triggers(total) && j in Triggers(total) && i != j
        ensures Percentage(i, total) != Percentage(j, total)
      {
        PercentagesIncrease(if i < j then i else j, if i < j then j else i, total);
      }
      forall i | i in Triggers(total) ensures 0 <= Percentage(i, total) < 100 {
        PercentageInRange(i, total);
      }
      FewWithSmallPercentage(Triggers(total), total, 100);
    }
  }

  lemma PercentageInRange(i: nat, total: nat)
    requires i < total && IsShouldUpdateProgress(i, total)
    ensures 0 <= Percentage(i, total) < 100
  {
    if total <= MAX_TRIGGER_COUNT {
      ShortRange(i, total);
    } else {
      TriggerExact(i, total);
      hide IsShouldUpdateProgress, Percentage;
      var k: int :| 0 <= k < 100 && Nearest(i, k, total);
      PercentageIsK(i, total, k);
    }
  }
}
