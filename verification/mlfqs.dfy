/** The arithmetic of the multi-level feedback queue scheduler: 17.14 fixed point numbers
    are integers scaled by 2^14, and C's division truncates toward zero. */
module Mlfqs {
  const ONE := 16384
  const PRI_MIN := 0
  const PRI_MAX := 63
  const NICE_MAX := 20

  function TruncDiv(a: int, b: int): (q: int)
    requires b > 0
  {
    if a >= 0 then a / b else -(-a / b)
  }

  function Mul(x: int, y: int): (r: int) {
    TruncDiv(x * y, ONE)
  }

  function Div(x: int, y: int): (r: int)
    requires y > 0
  {
    TruncDiv(x * ONE, y)
  }

  function ToNearest(x: int): (r: int) {
    if x >= 0 then TruncDiv(x + ONE / 2, ONE) else TruncDiv(x - ONE / 2, ONE)
  }

  /** The load average one second later, given the number of ready or running threads. */
  function NextLoadAvg(load: int, ready: nat): (r: int)
    ensures r >= 0
  {
    var l := Mul(Div(59 * ONE, 60 * ONE), load) + Div(1 * ONE, 60 * ONE) * ready;
    if l < 0 then 0 else l
  }

  function DecayCoefficient(load: int): (c: int)
    requires load >= 0
  {
    Div(load * 2, load * 2 + ONE)
  }

  /** A thread's recent_cpu one second later. */
  function NextRecentCpu(load: int, recent: int, nice: int): (r: int)
    requires load >= 0
  {
    Mul(DecayCoefficient(load), recent) + nice * ONE
  }

  function Priority(recent: int, nice: int): (p: int)
    ensures PRI_MIN <= p <= PRI_MAX
  {
    var p := PRI_MAX - ToNearest(TruncDiv(recent, 4)) - nice * 2;
    if p < PRI_MIN then PRI_MIN else if p > PRI_MAX then PRI_MAX else p
  }

  // ---------------------------------------------------------------- load average

  /** The load average after updates that saw `counts` ready threads, oldest first. */
  function LoadAvg(counts: seq<nat>): (load: int) {
    if counts == [] then 0 else NextLoadAvg(LoadAvg(counts[..|counts| - 1]), counts[|counts| - 1])
  }

  /** The same with exact arithmetic: 59/60 of the old value plus 1/60 of the count. */
  ghost function ExactLoadAvg(counts: seq<nat>): (load: real) {
    if counts == [] then 0.0
    else
      59.0 / 60.0 * ExactLoadAvg(counts[..|counts| - 1]) + (counts[|counts| - 1] * ONE) as real / 60.0
  }

  ghost predicate AtMost(counts: seq<nat>, bound: nat) {
    forall i | 0 <= i < |counts| :: counts[i] <= bound
  }

  lemma NextLoadAvgRange(load: int, ready: nat, bound: nat)
    requires 0 <= load <= bound * ONE && ready <= bound
    ensures NextLoadAvg(load, ready) == 16110 * load / ONE + 273 * ready
    ensures 0 <= NextLoadAvg(load, ready) <= bound * ONE
  {
    assert 16110 * load / ONE <= 16110 * bound;
  }

  /** However long the system runs, the load average stays between 0 and the largest count. */
  lemma {:induction false} LoadAvgRange(counts: seq<nat>, bound: nat)
    requires AtMost(counts, bound)
    ensures 0 <= LoadAvg(counts) <= bound * ONE
    decreases |counts|
  {
    if counts != [] {
      var n := |counts| - 1;
      LoadAvgRange(counts[..n], bound);
      NextLoadAvgRange(LoadAvg(counts[..n]), counts[n], bound);
    }
  }

  lemma LoadAvgLagStep(load: int, ready: nat, bound: nat, exact: real)
    requires 0 <= load <= bound * ONE && ready <= bound
    requires load as real <= exact < load as real + 60.0 * (bound + 1) as real
    ensures var next := 59.0 / 60.0 * exact + (ready * ONE) as real / 60.0;
            var code := NextLoadAvg(load, ready) as real;
            code <= next < code + 60.0 * (bound + 1) as real
  {
    NextLoadAvgRange(load, ready, bound);
    var q := 16110 * load / ONE;
    assert 16110 * load - ONE < q * ONE <= 16110 * load;
    var l, r, b, x := load as real, ready as real, bound as real, q as real;
    assert (ready * ONE) as real == r * 16384.0;
    assert (bound + 1) as real == b + 1.0;
    assert NextLoadAvg(load, ready) as real == x + 273.0 * r;
    assert x * 16384.0 == (q * ONE) as real && 16110.0 * l == (16110 * load) as real;
    assert l <= b * 16384.0 by {
      assert (bound * ONE) as real == b * 16384.0;
    }
  }

  /** Truncation never overshoots the exact average and loses less than 60 * (bound + 1) units,
      over runs of any length. */
  lemma {:induction false} LoadAvgLag(counts: seq<nat>, bound: nat)
    requires AtMost(counts, bound)
    ensures LoadAvg(counts) as real <= ExactLoadAvg(counts)
    ensures ExactLoadAvg(counts) < LoadAvg(counts) as real + 60.0 * (bound + 1) as real
    decreases |counts|
  {
    if counts != [] {
      var n := |counts| - 1;
      LoadAvgLag(counts[..n], bound);
      LoadAvgRange(counts[..n], bound);
      LoadAvgLagStep(LoadAvg(counts[..n]), counts[n], bound, ExactLoadAvg(counts[..n]));
    }
  }

  // ---------------------------------------------------------------- recent_cpu

  /** The decay coefficient stays below 2R / (2R + 1) when the load average is at most R. */
  lemma DecayBound(load: int, bound: nat)
    requires 0 <= load <= bound * ONE
    ensures 0 <= DecayCoefficient(load) < ONE
    ensures DecayCoefficient(load) * (2 * bound + 1) <= 2 * bound * ONE
  {
    var q, w := DecayCoefficient(load), 2 * load;
    assert q == w * ONE / (w + ONE);
    hide *;
    QuotientTimes(w * ONE, w + ONE);
    BelowOne(q, w);
    DecayArithmetic(q, w, bound);
  }

  lemma QuotientTimes(n: int, d: int)
    requires n >= 0 && d > 0
    ensures 0 <= n / d && n / d * d <= n
  {
  }

  lemma BelowOne(q: int, w: int)
    requires 0 <= q && 0 <= w && q * (w + ONE) <= w * ONE
    ensures q < ONE && q * ONE <= w * (ONE - q)
  {
    if q >= ONE {
      MulMonotone(ONE, q, w + ONE);
    }
  }

  lemma DecayArithmetic(q: int, w: int, bound: nat)
    requires 0 <= q < ONE && 0 <= w <= 2 * bound * ONE && q * ONE <= w * (ONE - q)
    ensures q * (2 * bound + 1) <= 2 * bound * ONE
  {
    assert w * (ONE - q) <= (2 * bound * ONE) * (ONE - q) by {
      MulMonotone(w, 2 * bound * ONE, ONE - q);
    }
    assert q <= 2 * bound * (ONE - q) by {
      assert (2 * bound * ONE) * (ONE - q) == (2 * bound * (ONE - q)) * ONE;
    }
    assert q * (2 * bound + 1) == q * (2 * bound) + q;
    assert 2 * bound * (ONE - q) == 2 * bound * ONE - q * (2 * bound);
  }

  lemma MulMonotone(x: int, y: int, k: int)
    requires x <= y && k >= 0
    ensures x * k <= y * k
  {
  }

  /** Upper and lower limit of recent_cpu, `sinceUpdate` ticks after the last update. */
  function RecentMax(bound: nat, sinceUpdate: nat): (m: int) {
    (240 * bound + 20 + sinceUpdate) * ONE
  }

  function RecentMin(bound: nat): (m: int) {
    -(NICE_MAX * (2 * bound + 1)) * ONE
  }

  lemma MulRange(c: int, recent: int, bound: nat, k: nat)
    requires 0 <= c && c * (2 * bound + 1) <= 2 * bound * ONE
    requires recent <= k * (2 * bound + 1) * ONE
    ensures Mul(c, recent) <= k * 2 * bound * ONE
  {
    if recent >= 0 {
      assert c * recent <= c * (k * (2 * bound + 1) * ONE) by {
        MulMonotone(recent, k * (2 * bound + 1) * ONE, c);
      }
      assert c * (k * (2 * bound + 1) * ONE) == (c * (2 * bound + 1)) * (k * ONE);
      assert (c * (2 * bound + 1)) * (k * ONE) <= (2 * bound * ONE) * (k * ONE) by {
        MulMonotone(c * (2 * bound + 1), 2 * bound * ONE, k * ONE);
      }
      assert (2 * bound * ONE) * (k * ONE) == (k * 2 * bound * ONE) * ONE;
      assert c * recent <= (k * 2 * bound * ONE) * ONE;
      assert c * recent >= 0;
    } else {
      assert c * recent <= 0;
      assert k * 2 * bound * ONE >= 0;
    }
  }

  lemma MulNegate(x: int, y: int)
    ensures Mul(x, -y) == -Mul(x, y)
  {
    assert x * -y == -(x * y);
  }

  /** One update pulls recent_cpu back inside its limits. */
  lemma NextRecentCpuRange(load: int, recent: int, nice: int, bound: nat)
    requires 0 <= load <= bound * ONE && -NICE_MAX <= nice <= NICE_MAX
    requires RecentMin(bound) <= recent <= RecentMax(bound, 100)
    ensures RecentMin(bound) <= NextRecentCpu(load, recent, nice) <= RecentMax(bound, 0)
  {
    var c := DecayCoefficient(load);
    DecayBound(load, bound);
    assert RecentMax(bound, 100) == 120 * (2 * bound + 1) * ONE;
    MulRange(c, recent, bound, 120);
    MulRange(c, -recent, bound, NICE_MAX);
    MulNegate(c, recent);
  }

  /** The update without rounding. */
  ghost function ExactRecentCpu(load: int, recent: int, nice: int): (r: real)
    requires load >= 0
  {
    (2 * load) as real / (2 * load + ONE) as real * recent as real + (nice * ONE) as real
  }

  /** The two truncations of an update cost less than one unit and one unit for each tick of
      recent_cpu. */
  lemma NextRecentCpuClose(load: int, recent: int, nice: int)
    requires load >= 0
    ensures var error := NextRecentCpu(load, recent, nice) as real - ExactRecentCpu(load, recent, nice);
            var m := (if recent < 0 then -recent else recent) as real;
            -(1.0 + m / 16384.0) < error < 1.0 + m / 16384.0
  {
    hide Mul;
    hide DecayCoefficient;
    var m := if recent < 0 then -recent else recent;
    var c := DecayCoefficient(load);
    CoefficientClose(load, c);
    MulSigned(c, m);
    var x := (2 * load) as real / (2 * load + ONE) as real;
    var q := c * m / ONE;
    ProductClose(c, m, x, q);
    RealNegate(x, m as real);
    var y := x * m as real;
    assert ExactRecentCpu(load, recent, nice) == (if recent < 0 then -y else y) + (nice * ONE) as real;
    assert NextRecentCpu(load, recent, nice) == (if recent < 0 then -q else q) + nice * ONE;
  }

  lemma MulSigned(c: int, m: int)
    requires c >= 0 && m >= 0
    ensures Mul(c, m) == c * m / ONE && Mul(c, -m) == -(c * m / ONE)
  {
    assert c * m >= 0 && c * -m == -(c * m);
  }

  lemma RealNegate(x: real, y: real)
    ensures x * -y == -(x * y)
  {
  }

  lemma CoefficientClose(load: int, c: int)
    requires load >= 0 && c == DecayCoefficient(load)
    ensures c >= 0 && c as real <= (2 * load) as real / (2 * load + ONE) as real * 16384.0 < c as real + 1.0
  {
    var w, d := 2 * load, 2 * load + ONE;
    assert c == w * ONE / d;
    assert c * d <= w * ONE < (c + 1) * d;
    RatioClose(c, w, d, w as real / d as real);
  }

  lemma RatioClose(c: int, w: int, d: int, r: real)
    requires d > 0 && c * d <= w * ONE < (c + 1) * d && r * d as real == w as real
    ensures c as real <= r * 16384.0 < c as real + 1.0
  {
    var y, z := d as real, c as real;
    assert z * y == (c * d) as real && ((c + 1) * d) as real == z * y + y && (w * ONE) as real == w as real * 16384.0;
    RatioReal(z, w as real, y, r);
  }

  lemma RatioReal(z: real, w: real, y: real, r: real)
    requires y > 0.0 && r * y == w && z * y <= w * 16384.0 < z * y + y
    ensures z <= r * 16384.0 < z + 1.0
  {
    var v := r * 16384.0;
    assert v * y == w * 16384.0;
    if v < z {
      RealLess(v, z, y);
    }
    if v >= z + 1.0 {
      RealScale(z + 1.0, v, y, z * y + y, w * 16384.0);
    }
  }

  lemma RealLess(a: real, b: real, y: real)
    requires a < b && y > 0.0
    ensures a * y < b * y
  {
    assert (b - a) * y > 0.0;
  }

  lemma ProductClose(c: int, m: nat, x: real, q: int)
    requires c >= 0 && c as real <= x * 16384.0 < c as real + 1.0 && q == c * m / ONE
    ensures q as real <= x * m as real < q as real + 1.0 + m as real / 16384.0
  {
    QuotientReal(c, m, q);
    ProductReal(c as real, m as real, x, q as real);
  }

  lemma ProductReal(r: real, n: real, x: real, z: real)
    requires z * 16384.0 <= r * n < z * 16384.0 + 16384.0 && r <= x * 16384.0 <= r + 1.0 && n >= 0.0
    ensures z <= x * n < z + 1.0 + n / 16384.0
  {
    var p, y := r * n, x * n;
    ScaledClose(r, n, x, p, y);
    LossAdds(y, z, p, n);
  }

  lemma QuotientReal(c: int, m: nat, q: int)
    requires q == c * m / ONE
    ensures q as real * 16384.0 <= c as real * m as real < q as real * 16384.0 + 16384.0
  {
    assert q * ONE <= c * m < q * ONE + ONE;
    assert (c * m) as real == c as real * m as real && (q * ONE) as real == q as real * 16384.0;
  }

  lemma ScaledClose(r: real, n: real, x: real, p: real, y: real)
    requires r <= x * 16384.0 <= r + 1.0 && n >= 0.0 && p == r * n && y == x * n
    ensures p <= 16384.0 * y <= p + n
  {
    var v := x * 16384.0;
    assert v * n == 16384.0 * y;
    var u := v * n;
    RealScale(r, v, n, p, u);
    assert (r + 1.0) * n == p + n;
    RealScale(v, r + 1.0, n, u, p + n);
  }

  lemma LossAdds(y: real, z: real, p: real, n: real)
    requires z * 16384.0 <= p < z * 16384.0 + 16384.0 && p <= 16384.0 * y <= p + n
    ensures z <= y < z + 1.0 + n / 16384.0
  {
  }

  lemma RealScale(a: real, b: real, n: real, x: real, y: real)
    requires a <= b && n >= 0.0 && x == a * n && y == b * n
    ensures x <= y
  {
    assert (b - a) * n >= 0.0;
  }

  // ---------------------------------------------------------------- priority

  /** The formula without rounding, cut off at the ends. */
  ghost function ExactPriority(recent: int, nice: int): (p: real) {
    var p := 63.0 - recent as real / 65536.0 - (2 * nice) as real;
    if p < 0.0 then 0.0 else if p > 63.0 then 63.0 else p
  }

  /** The priority is the exact one rounded: off by at most one half and the truncated quarter. */
  lemma PriorityClose(recent: int, nice: int)
    ensures -0.51 < Priority(recent, nice) as real - ExactPriority(recent, nice) < 0.51
  {
    var q := ToNearest(TruncDiv(recent, 4));
    assert -32771 <= 65536 * q - recent <= 32771;
    assert (65536 * q) as real == 65536.0 * q as real;
    var p, e := 63 - q - 2 * nice, 63.0 - recent as real / 65536.0 - (2 * nice) as real;
    assert -0.51 < p as real - e < 0.51;
  }

  /** Using the processor more or being nicer never raises a priority. */
  lemma PriorityMonotone(recent: int, recent': int, nice: int, nice': int)
    requires recent <= recent' && nice <= nice'
    ensures Priority(recent, nice) >= Priority(recent', nice')
  {
    assert TruncDiv(recent, 4) <= TruncDiv(recent', 4);
  }

  // ---------------------------------------------------------------- machine integers

  /** With at most 545 ready threads every value fits the 32-bit `int` it is stored in, and
      every product the 64 bits it is computed in. */
  lemma FitsMachineIntegers(bound: nat, load: int, recent: int)
    requires bound <= 545 && 0 <= load <= bound * ONE
    requires RecentMin(bound) <= recent <= RecentMax(bound, 100)
    ensures -0x8000_0000 <= recent < 0x8000_0000 && load * 2 + ONE < 0x8000_0000
    ensures -0x8000_0000_0000_0000 <= DecayCoefficient(load) * recent < 0x8000_0000_0000_0000
    ensures load * 2 * ONE < 0x8000_0000_0000_0000 && 16110 * load < 0x8000_0000_0000_0000
  {
    DecayBound(load, bound);
    var c := DecayCoefficient(load);
    var m := if recent < 0 then -recent else recent;
    assert c * m <= ONE * m by {
      MulMonotone(c, ONE, m);
    }
    assert c * recent == c * m || c * recent == -(c * m);
    assert c * m >= 0;
  }

  /** A 32-bit `int` after overflow. */
  function Wrapped(n: int): (r: int)
    ensures -0x8000_0000 <= r < 0x8000_0000
  {
    (n + 0x8000_0000) % 0x1_0000_0000 - 0x8000_0000
  }

  lemma Fits(n: int)
    requires -0x8000_0000 <= n < 0x8000_0000
    ensures Wrapped(n) == n
  {
  }

  /** What thread_get_recent_cpu and thread_get_load_avg return: 100 times the value, rounded, with
      product and rounding in 32 bits. */
  function Reported(x: int): (r: int) {
    var y := Wrapped(x * 100);
    TruncDiv(Wrapped(if y >= 0 then y + ONE / 2 else y - ONE / 2), ONE)
  }

  /** The largest magnitude that is reported correctly, about 1310.7. */
  const REPORT_MAX := 21_474_754

  lemma ReportOverflows(x: int)
    requires x > REPORT_MAX || x < -REPORT_MAX
    ensures Reported(x) != ToNearest(x * 100)
  {
    if x < -REPORT_MAX && ToNearest(x * 100) == -0x2_0000 {
      assert x * 100 - ONE / 2 > -0x8000_4000;
    }
  }

  /** The reported number is the rounded one exactly up to that magnitude. */
  lemma ReportedIff(x: int)
    ensures Reported(x) == ToNearest(x * 100) <==> -REPORT_MAX <= x <= REPORT_MAX
  {
    if x > REPORT_MAX || x < -REPORT_MAX {
      ReportOverflows(x);
    } else {
      hide Wrapped;
      hide TruncDiv;
      Fits(x * 100);
      Fits(if x >= 0 then x * 100 + ONE / 2 else x * 100 - ONE / 2);
    }
  }

  /** So with at most four ready threads recent_cpu is always reported correctly, and five are
      enough for a value that is not. */
  lemma ReportsWithinLimits(bound: nat, recent: int)
    requires bound <= 4 && RecentMin(bound) <= recent <= RecentMax(bound, 100)
    ensures Reported(recent) == ToNearest(recent * 100)
    ensures RecentMin(5) <= REPORT_MAX + 1 <= RecentMax(5, 100)
  {
    ReportedIff(recent);
  }
}
