/** The emitter's two time accumulators, over the reals. */
module EmissionClock {

  const MAX_U32: nat := 0xffff_ffff

  /** Rust's `as u32`: towards zero, and held inside the type. */
  function AsU32(x: real): (n: nat)
    ensures n <= MAX_U32
    ensures 0.0 <= x < 4294967296.0 ==> n == x.Floor && n as real <= x < n as real + 1.0
    ensures x >= 0.0 ==> n as real <= x
    ensures x < 0.0 ==> n == 0
    ensures x >= 4294967296.0 ==> n == 0xffff_ffff
  {
    if x < 0.0 then 0 else if x >= 4294967296.0 then MAX_U32 else x.Floor
  }

  predicate NonNegative(ticks: seq<real>) {
    forall k :: 0 <= k < |ticks| ==> ticks[k] >= 0.0
  }

  function Total(ticks: seq<real>): (t: real)
    ensures NonNegative(ticks) ==> t >= 0.0
  {
    if ticks == [] then 0.0 else Total(ticks[..|ticks| - 1]) + ticks[|ticks| - 1]
  }

  // ----- Whole particles and the fraction carried over

  /** One tick of the accumulator: what is requested and what is carried over. */
  function Tick(carry: real, charge: real): (r: (nat, real))
    ensures r.0 as real + r.1 == carry + charge
    ensures carry + charge >= 0.0 ==> r.1 >= 0.0
    ensures 0.0 <= carry + charge < 4294967296.0 ==> r.1 < 1.0
    ensures carry + charge < 0.0 ==> r.0 == 0
    ensures carry + charge >= 4294967296.0 ==> r.0 == 0xffff_ffff
  {
    var whole := AsU32(carry + charge);
    (whole, carry + charge - whole as real)
  }

  /** All requests of a run charged in this order, and its final carry. */
  function Requests(carry: real, charges: seq<real>): (nat, real) {
    if charges == [] then (0, carry) else
    var before := Requests(carry, charges[..|charges| - 1]);
    var now := Tick(before.1, charges[|charges| - 1]);
    (before.0 + now.0, now.1)
  }

  function Charge(rate: real, dt: real): real {
    rate * dt
  }

  lemma ChargeIs(rate: real, dt: real)
    ensures Charge(rate, dt) == rate * dt
  {
  }

  /** What a constant rate charges on each tick. */
  function Charges(rate: real, ticks: seq<real>): (c: seq<real>)
    ensures |c| == |ticks|
  {
    if ticks == [] then [] else
    Charges(rate, ticks[..|ticks| - 1]) + [Charge(rate, ticks[|ticks| - 1])]
  }

  lemma ChargesAppend(rate: real, ticks: seq<real>, dt: real)
    ensures Charges(rate, ticks + [dt]) == Charges(rate, ticks) + [Charge(rate, dt)]
  {
    assert (ticks + [dt])[..|ticks|] == ticks;
  }

  lemma RequestsAppend(carry: real, charges: seq<real>, charge: real)
    ensures
      var before := Requests(carry, charges);
      var now := Tick(before.1, charge);
      Requests(carry, charges + [charge]) == (before.0 + now.0, now.1)
  {
    var all := charges + [charge];
    assert all[..|all| - 1] == charges && all[|all| - 1] == charge;
  }

  lemma Distribute(k: real, a: real, b: real)
    ensures k * (a + b) == k * a + k * b
  {
  }

  lemma ProductNonNegative(a: real, b: real)
    requires a >= 0.0 && b >= 0.0
    ensures a * b >= 0.0
  {
  }

  lemma ChargesExtend(rate: real, ticks: seq<real>)
    requires ticks != []
    ensures
      var before, dt := ticks[..|ticks| - 1], ticks[|ticks| - 1];
      && Total(Charges(rate, ticks)) == Total(Charges(rate, before)) + Charge(rate, dt)
      && Total(ticks) == Total(before) + dt
  {
    var before := ticks[..|ticks| - 1];
    assert Charges(rate, ticks)[..|ticks| - 1] == Charges(rate, before);
  }

  lemma ChargeSum(rate: real, a: real, b: real)
    ensures Charge(rate, a) + Charge(rate, b) == Charge(rate, a + b)
  {
    Distribute(rate, a, b);
  }

  lemma {:induction false} ChargesTotal(rate: real, ticks: seq<real>)
    ensures Total(Charges(rate, ticks)) == Charge(rate, Total(ticks))
  {
    if ticks == [] {
      NoCharge(rate);
    } else {
      var before := ticks[..|ticks| - 1];
      ChargesTotal(rate, before);
      ChargesExtend(rate, ticks);
      ChargeSum(rate, Total(before), ticks[|ticks| - 1]);
    }
  }

  lemma NoCharge(rate: real)
    ensures Charge(rate, 0.0) == 0.0
  {
  }

  lemma {:induction false} ChargesNonNegative(rate: real, ticks: seq<real>)
    requires rate >= 0.0 && NonNegative(ticks)
    ensures NonNegative(Charges(rate, ticks))
  {
    if ticks != [] {
      ChargesNonNegative(rate, ticks[..|ticks| - 1]);
      ProductNonNegative(rate, ticks[|ticks| - 1]);
    }
  }

  /** Nothing is lost: requests and carry together are the charge, even when a tick saturates. */
  lemma {:induction false} RequestsConserve(carry: real, charges: seq<real>)
    ensures Requests(carry, charges).0 as real + Requests(carry, charges).1 == carry + Total(charges)
  {
    if charges != [] {
      RequestsConserve(carry, charges[..|charges| - 1]);
    }
  }

  lemma {:induction false} CarryNonNegative(carry: real, charges: seq<real>)
    requires carry >= 0.0 && NonNegative(charges)
    ensures Requests(carry, charges).1 >= 0.0
  {
    if charges != [] {
      CarryNonNegative(carry, charges[..|charges| - 1]);
    }
  }

  lemma FloorIs(n: int, c: real, x: real)
    requires n as real + c == x && c >= 0.0
    ensures n == x.Floor <==> c < 1.0
  {
  }

  /** The most that can have been requested by the end when only whole particles up to tick k had come
      in by then and every later tick asked for all its type can hold. */
  function Bound(charges: seq<real>, k: nat): int
    requires k <= |charges|
  {
    Total(charges[..k]).Floor + MAX_U32 * (|charges| - k)
  }

  /** One tick: all whole particles that have come in so far, or as many more as the type holds. */
  lemma TickIsLesser(n: nat, carry: real, charge: real, total: real)
    requires n as real + carry + charge == total && carry + charge >= 0.0
    ensures n + Tick(carry, charge).0 == if total.Floor <= n + MAX_U32 then total.Floor else n + MAX_U32
  {
  }

  lemma RequestsStep(charges: seq<real>)
    requires NonNegative(charges) && charges != []
    ensures
      var before := Requests(0.0, charges[..|charges| - 1]).0;
      Requests(0.0, charges).0 ==
        if Total(charges).Floor <= before + MAX_U32 then Total(charges).Floor else before + MAX_U32
  {
    var earlier, charge := charges[..|charges| - 1], charges[|charges| - 1];
    RequestsConserve(0.0, earlier);
    CarryNonNegative(0.0, earlier);
    TickIsLesser(Requests(0.0, earlier).0, Requests(0.0, earlier).1, charge, Total(charges));
  }

  lemma BoundStep(charges: seq<real>, k: nat)
    requires k < |charges|
    ensures Bound(charges, k) == Bound(charges[..|charges| - 1], k) + MAX_U32
    ensures Bound(charges, |charges|) == Total(charges).Floor
  {
    assert charges[..|charges| - 1][..k] == charges[..k];
    assert charges[..|charges|] == charges;
  }

  /** What a run requests, from its charges alone: the least of the bounds, one for each tick. */
  lemma {:induction false} RequestsAreLeastBound(charges: seq<real>) returns (k: nat)
    requires NonNegative(charges)
    ensures k <= |charges| && Requests(0.0, charges).0 == Bound(charges, k)
    ensures forall j :: 0 <= j <= |charges| ==> Requests(0.0, charges).0 <= Bound(charges, j)
  {
    var n := |charges|;
    if n == 0 {
      k := 0;
    } else {
      var earlier := charges[..n - 1];
      var k0 := RequestsAreLeastBound(earlier);
      RequestsStep(charges);
      forall j | 0 <= j <= n ensures Requests(0.0, charges).0 <= Bound(charges, j) {
        if j < n { BoundStep(charges, j); } else { BoundStep(charges, 0); }
      }
      BoundStep(charges, k0);
      k := if Total(charges).Floor <= Requests(0.0, earlier).0 + MAX_U32 then n else k0;
    }
  }

  /** From no moment on does more come in than the remaining ticks can ask for. */
  ghost predicate KeepsUp(rate: real, ticks: seq<real>) {
    forall k {:trigger ticks[..k]} :: 0 <= k <= |ticks| ==>
      Charge(rate, Total(ticks)).Floor <= Charge(rate, Total(ticks[..k])).Floor + MAX_U32 * (|ticks| - k)
  }

  lemma {:induction false} ChargesPrefix(rate: real, ticks: seq<real>, k: nat)
    requires k <= |ticks|
    ensures Charges(rate, ticks)[..k] == Charges(rate, ticks[..k])
    decreases |ticks| - k
  {
    if k == |ticks| {
      assert ticks[..k] == ticks && Charges(rate, ticks)[..k] == Charges(rate, ticks);
    } else {
      ChargesPrefix(rate, ticks, k + 1);
      assert ticks[..k + 1] == ticks[..k] + [ticks[k]];
      ChargesAppend(rate, ticks[..k], ticks[k]);
      assert Charges(rate, ticks)[..k] == Charges(rate, ticks)[..k + 1][..k];
    }
  }

  lemma BoundOfTicks(rate: real, ticks: seq<real>, k: nat)
    requires k <= |ticks|
    ensures Bound(Charges(rate, ticks), k) == Charge(rate, Total(ticks[..k])).Floor + MAX_U32 * (|ticks| - k)
  {
    ChargesPrefix(rate, ticks, k);
    ChargesTotal(rate, ticks[..k]);
  }

  /** Frame-rate independence, exactly: a split of the time requests the whole part of rate times time
      if and only if it keeps up, and then less than one particle is left in the accumulator. */
  lemma FrameRateIndependentIff(rate: real, ticks: seq<real>)
    requires rate >= 0.0 && NonNegative(ticks)
    ensures
      var (n, c) := Requests(0.0, Charges(rate, ticks));
      (n == Charge(rate, Total(ticks)).Floor <==> KeepsUp(rate, ticks)) && (KeepsUp(rate, ticks) <==> 0.0 <= c < 1.0)
  {
    var charges := Charges(rate, ticks);
    ChargesNonNegative(rate, ticks);
    ChargesTotal(rate, ticks);
    var least := RequestsAreLeastBound(charges);
    BoundOfTicks(rate, ticks, least);
    BoundOfTicks(rate, ticks, |ticks|);
    assert ticks[..|ticks|] == ticks;
    forall k | 0 <= k <= |ticks|
      ensures Requests(0.0, charges).0 <= Charge(rate, Total(ticks[..k])).Floor + MAX_U32 * (|ticks| - k)
    {
      BoundOfTicks(rate, ticks, k);
    }
    RequestsConserve(0.0, charges);
    CarryNonNegative(0.0, charges);
    FloorIs(Requests(0.0, charges).0, Requests(0.0, charges).1, Total(charges));
  }

  /** A tick that charges 2^32 or more is such an input, however long the others take: alone it requests
      one type's worth, and its two halves request it all when each fits. */
  lemma LongTickFallsBehind(rate: real, dt: real)
    requires rate >= 0.0 && dt >= 0.0 && 4294967296.0 <= Charge(rate, dt)
    ensures !KeepsUp(rate, [dt]) && Requests(0.0, Charges(rate, [dt])).0 == MAX_U32
  {
    assert [dt][..0] == [] && [dt][..1] == [dt];
    assert Total([dt]) == dt && Total([]) == 0.0;
    NoCharge(rate);
    FrameRateIndependentIff(rate, [dt]);
    assert Charges(rate, [dt]) == [Charge(rate, dt)];
  }

  lemma HalvedTickDoesNot()
    ensures Requests(0.0, Charges(4294967296.0, [1.0])).0 == MAX_U32
    ensures Requests(0.0, Charges(4294967296.0, [0.5, 0.5])).0 == 0x1_0000_0000
  {
    LongTickFallsBehind(4294967296.0, 1.0);
    var halves := Charges(4294967296.0, [0.5, 0.5]);
    assert [0.5, 0.5][..1] == [0.5] && [0.5][..0] == [];
    assert halves == [2147483648.0, 2147483648.0];
    assert halves[..1] == [2147483648.0] && halves[..1][..0] == [];
  }

  lemma {:induction false} ModestSpan(rate: real, ticks: seq<real>, k: nat)
    requires forall j :: 0 <= j < |ticks| ==> Charge(rate, ticks[j]) <= MAX_U32 as real
    requires k <= |ticks|
    ensures Charge(rate, Total(ticks)) <= Charge(rate, Total(ticks[..k])) + (MAX_U32 * (|ticks| - k)) as real
    decreases |ticks|
  {
    if k == |ticks| {
      assert ticks[..k] == ticks;
    } else {
      var before, last := ticks[..|ticks| - 1], ticks[|ticks| - 1];
      ModestSpan(rate, before, k);
      assert before[..k] == ticks[..k];
      ChargeSum(rate, Total(before), last);
    }
  }

  /** Ticks that each charge no more than the type holds always keep up. */
  lemma ModestTicksKeepUp(rate: real, ticks: seq<real>)
    requires forall j :: 0 <= j < |ticks| ==> Charge(rate, ticks[j]) <= MAX_U32 as real
    ensures KeepsUp(rate, ticks)
  {
    forall k | 0 <= k <= |ticks|
      ensures Charge(rate, Total(ticks)).Floor <= Charge(rate, Total(ticks[..k])).Floor + MAX_U32 * (|ticks| - k)
    {
      ModestSpan(rate, ticks, k);
      FloorSum(Charge(rate, Total(ticks)), Charge(rate, Total(ticks[..k])), MAX_U32 * (|ticks| - k));
    }
  }

  lemma FloorSum(x: real, y: real, n: int)
    requires x <= y + n as real
    ensures x.Floor <= y.Floor + n
  {
  }

  /** A split that keeps up requests the whole part and carries the rest. */
  lemma RequestsAreWholePart(rate: real, ticks: seq<real>, t: real)
    requires rate >= 0.0 && NonNegative(ticks) && KeepsUp(rate, ticks) && t == Total(ticks)
    ensures
      var (n, c) := Requests(0.0, Charges(rate, ticks));
      n == Charge(rate, t).Floor && 0.0 <= c < 1.0 && n as real + c == Charge(rate, t)
  {
    ChargesTotal(rate, ticks);
    RequestsConserve(0.0, Charges(rate, ticks));
    FrameRateIndependentIff(rate, ticks);
  }

  /** So two splits of the same time that keep up request the same particles and carry the same
      fraction, and one that keeps up never agrees with one that does not. */
  lemma SplitsAgree(rate: real, ticks: seq<real>, ticks': seq<real>)
    requires rate >= 0.0 && Total(ticks) == Total(ticks') && NonNegative(ticks) && NonNegative(ticks')
    requires KeepsUp(rate, ticks)
    ensures Requests(0.0, Charges(rate, ticks)) == Requests(0.0, Charges(rate, ticks')) <==> KeepsUp(rate, ticks')
  {
    var t := Total(ticks);
    RequestsAreWholePart(rate, ticks, t);
    FrameRateIndependentIff(rate, ticks');
    if KeepsUp(rate, ticks') { RequestsAreWholePart(rate, ticks', t); }
  }

  // ----- Bursts

  /** The schedule never runs faster than a thousand bursts a second. */
  function Interval(configured: real): (i: real)
    ensures i >= 0.001 && i >= configured && (i == 0.001 || i == configured)
  {
    if configured < 0.001 then 0.001 else configured
  }

  function Thousandths(timer: real): nat {
    if timer < 0.0 then 0 else (timer * 1000.0).Floor
  }

  /** How often the burst loop fires from this timer, and what it leaves. */
  function Bursts(timer: real, interval: real): (r: (nat, real))
    requires interval >= 0.001
    ensures r.1 < interval && (timer >= 0.0 ==> r.1 >= 0.0)
    decreases Thousandths(timer)
  {
    if timer < interval then (0, timer) else
    var rest := Bursts(timer - interval, interval);
    (rest.0 + 1, rest.1)
  }

  /** The time n bursts take. */
  function Span(n: nat, interval: real): real {
    if n == 0 then 0.0 else Span(n - 1, interval) + interval
  }

  lemma {:induction false} SpanSum(n: nat, m: nat, interval: real)
    ensures Span(n + m, interval) == Span(n, interval) + Span(m, interval)
  {
    if m > 0 {
      SpanSum(n, m - 1, interval);
    }
  }

  lemma {:induction false} SpanIsProduct(n: nat, interval: real)
    ensures Span(n, interval) == n as real * interval
  {
    if n > 0 {
      SpanIsProduct(n - 1, interval);
      Distribute(interval, (n - 1) as real, 1.0);
    }
  }

  lemma {:induction false} BurstsTakeIntervals(timer: real, interval: real)
    requires interval >= 0.001
    ensures Span(Bursts(timer, interval).0, interval) + Bursts(timer, interval).1 == timer
    decreases Thousandths(timer)
  {
    if timer >= interval {
      BurstsTakeIntervals(timer - interval, interval);
    }
  }

  function BurstRun(timer: real, interval: real, ticks: seq<real>): (nat, real)
    requires interval >= 0.001
  {
    if ticks == [] then (0, timer) else
    var before := BurstRun(timer, interval, ticks[..|ticks| - 1]);
    var now := Bursts(before.1 + ticks[|ticks| - 1], interval);
    (before.0 + now.0, now.1)
  }

  lemma {:induction false} BurstsConserve(interval: real, ticks: seq<real>)
    requires interval >= 0.001 && NonNegative(ticks)
    ensures 0.0 <= BurstRun(0.0, interval, ticks).1 < interval
    ensures Span(BurstRun(0.0, interval, ticks).0, interval) + BurstRun(0.0, interval, ticks).1 == Total(ticks)
  {
    if ticks != [] {
      var k := |ticks| - 1;
      BurstsConserve(interval, ticks[..k]);
      var before := BurstRun(0.0, interval, ticks[..k]);
      BurstsTakeIntervals(before.1 + ticks[k], interval);
      SpanSum(before.0, Bursts(before.1 + ticks[k], interval).0, interval);
    }
  }

  lemma DivideSum(n: nat, t: real, interval: real)
    requires interval > 0.0
    ensures (n as real * interval + t) / interval == n as real + t / interval
  {
  }

  lemma Fraction(t: real, interval: real)
    requires 0.0 <= t < interval
    ensures 0.0 <= t / interval < 1.0
  {
  }

  /** One tick fires the whole intervals that fit the timer and leaves the rest. */
  lemma BurstsAreFloor(timer: real, interval: real)
    requires interval >= 0.001 && timer >= 0.0
    ensures Bursts(timer, interval).0 == (timer / interval).Floor
    ensures Bursts(timer, interval).1 == timer - Bursts(timer, interval).0 as real * interval
  {
    BurstsTakeIntervals(timer, interval);
    SpanIsProduct(Bursts(timer, interval).0, interval);
    WholePart(Bursts(timer, interval).0, Bursts(timer, interval).1, interval, timer);
  }

  /** Over any split of the time, the bursts fired are the whole intervals in it. */
  lemma BurstsAreWholeIntervals(interval: real, ticks: seq<real>)
    requires interval >= 0.001 && NonNegative(ticks)
    ensures BurstRun(0.0, interval, ticks).0 == (Total(ticks) / interval).Floor
    ensures 0.0 <= BurstRun(0.0, interval, ticks).1 < interval
  {
    BurstsConserve(interval, ticks);
    WholePart(BurstRun(0.0, interval, ticks).0, BurstRun(0.0, interval, ticks).1, interval, Total(ticks));
  }

  lemma WholePart(n: nat, t: real, interval: real, total: real)
    requires interval > 0.0 && 0.0 <= t < interval && Span(n, interval) + t == total
    ensures n == (total / interval).Floor
  {
    SpanIsProduct(n, interval);
    DivideSum(n, t, interval);
    Fraction(t, interval);
    FloorIs(n, t / interval, total / interval);
  }
}
