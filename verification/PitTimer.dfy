/** The clock and the programmable interval timer that drives it (os/kernel/src/device/pit.rs). */
module PitTimer {

  const BASE_FREQUENCY: nat := 1193182
  const NS_PER_S: nat := 1000000000
  const NS_PER_MS: nat := 1000000

  // --- the interval -----------------------------------------------------------------------------

  /** The value that the timer counts down from. */
  function Divisor(intervalMs: nat): nat {
    if BASE_FREQUENCY / 1000 * intervalMs > 0xffff then 0xffff else BASE_FREQUENCY / 1000 * intervalMs
  }

  /** The length of a tick, as the clock counts it. */
  function Interval(divisor: nat): nat
    requires 1 <= divisor <= 0xffff
  {
    NS_PER_S / (BASE_FREQUENCY / divisor)
  }

  /** The time that passes during `n` ticks, in nanoseconds. */
  function Elapsed(n: nat, divisor: nat): real {
    (n * divisor) as real * NS_PER_S as real / BASE_FREQUENCY as real
  }

  /** What the two writes to the data port amount to. */
  function Programmed(low: nat, high: nat): nat {
    low + 256 * high
  }

  // --- the interrupt ----------------------------------------------------------------------------

  datatype Clock = Clock(systimeNs: nat, pending: nat)

  /** One interrupt; `free` tells whether the timer could be locked. */
  function Ticked(c: Clock, intervalNs: nat, free: bool): Clock {
    if free then Clock(c.systimeNs + (c.pending + 1) * intervalNs, 0) else c.(pending := c.pending + 1)
  }

  class Timer {
    var intervalNs: nat
    var systimeNs: nat
    /** What has been written to the data port. */
    var ports: seq<nat>

    constructor ()
      ensures intervalNs == 0 && systimeNs == 0 && ports == []
    {
      intervalNs, systimeNs, ports := 0, 0, [];
    }

    /** `false` where the division by zero stops the kernel. */
    method InterruptRate(intervalMs: nat, qemu: bool) returns (ok: bool)
      modifies this`intervalNs, this`ports
      ensures ok <==> intervalMs != 0
      ensures ok ==> intervalNs == Interval(Divisor(intervalMs))
      ensures ok ==> |ports| == |old(ports)| + 2 && old(ports) <= ports
      ensures ok ==> var n := |old(ports)|;
        && ports[n] <= 0xff && ports[n + 1] <= 0xff
        && Programmed(ports[n], ports[n + 1])
           == (if qemu then 2 * Divisor(intervalMs) else Divisor(intervalMs)) % 0x10000
      ensures !ok ==> intervalNs == old(intervalNs) && ports == old(ports)
    {
      var divisor := BASE_FREQUENCY / 1000 * intervalMs;
      if divisor > 0xffff {
        divisor := 0xffff;
      }
      if divisor == 0 {
        return false;
      }
      DivisionDefined(divisor);
      intervalNs := NS_PER_S / (BASE_FREQUENCY / divisor);
      if qemu {
        divisor := divisor * 2;
      }
      BytesOf(divisor);
      ports := ports + [divisor % 256, divisor / 256 % 256];
      return true;
    }

    function SystimeMs(): nat
      reads this
    {
      systimeNs / NS_PER_MS
    }

    method IncSystime()
      modifies this`systimeNs
      ensures systimeNs == old(systimeNs) + intervalNs
    {
      systimeNs := systimeNs + intervalNs;
    }
  }

  class TimerInterruptHandler {
    var pendingIncs: nat

    constructor ()
      ensures pendingIncs == 0
    {
      pendingIncs := 0;
    }

    /** `free` tells whether the timer could be locked, `switching` whether the scheduler is asked
        for another thread. */
    method Trigger(timer: Timer, free: bool) returns (switching: bool)
      modifies this, timer`systimeNs
      ensures Clock(timer.systimeNs, pendingIncs)
        == Ticked(old(Clock(timer.systimeNs, pendingIncs)), timer.intervalNs, free)
      ensures switching <==> free && timer.systimeNs / NS_PER_MS % 10 == 0
    {
      var systime := 1;
      pendingIncs := pendingIncs + 1;
      if free {
        while pendingIncs > 0
          invariant timer.systimeNs + pendingIncs * timer.intervalNs
            == old(timer.systimeNs) + old(pendingIncs + 1) * timer.intervalNs
        {
          timer.IncSystime();
          pendingIncs := pendingIncs - 1;
        }
        systime := timer.SystimeMs();
      }
      switching := systime % 10 == 0;
    }
  }

  lemma DivisionDefined(divisor: nat)
    requires 1 <= divisor <= 0xffff
    ensures BASE_FREQUENCY / divisor >= 18
  {
  }

  lemma BytesOf(n: nat)
    ensures Programmed(n % 256, n / 256 % 256) == n % 0x10000
  {
    var q := n / 256;
    Quotient(n, 256);
    Quotient(q, 256);
    Remainder(n, q / 256, n % 256 + q % 256 * 256);
  }

  lemma Quotient(n: nat, d: nat)
    requires d > 0
    ensures n == n / d * d + n % d && n % d < d
  {
  }

  lemma Remainder(n: nat, q: nat, x: nat)
    requires n == q * 0x10000 + x && x < 0x10000
    ensures n % 0x10000 == x
  {
  }

  /** The divisor counts 1193 periods for each millisecond, up to the most that the counter holds:
      intervals of more than 54 ms are cut. */
  lemma DivisorIsCutExactlyWhen(intervalMs: nat)
    ensures Divisor(intervalMs) == if intervalMs <= 54 then 1193 * intervalMs else 65535
  {
  }

  /** Under QEMU, the doubled divisor fits into the counter only up to 27 ms. */
  lemma QemuDivisorFitsExactlyWhen(intervalMs: nat)
    ensures 2 * Divisor(intervalMs) % 0x10000 == 2 * Divisor(intervalMs) <==> intervalMs <= 27
  {
  }

  // --- whole runs -------------------------------------------------------------------------------

  /** The clock after interrupts of which some find the timer locked. */
  function Ticks(c: Clock, intervalNs: nat, frees: seq<bool>): Clock {
    if frees == [] then c else Ticked(Ticks(c, intervalNs, frees[..|frees| - 1]), intervalNs, frees[|frees| - 1])
  }

  /** The number of interrupts since the timer could last be locked. */
  function Waiting(frees: seq<bool>): nat {
    if frees == [] || frees[|frees| - 1] then 0 else Waiting(frees[..|frees| - 1]) + 1
  }

  /** No tick is lost: those that the clock does not show yet are pending. */
  lemma {:induction false} NoTickLost(intervalNs: nat, frees: seq<bool>)
    ensures var c := Ticks(Clock(0, 0), intervalNs, frees);
      c.systimeNs + c.pending * intervalNs == |frees| * intervalNs && c.pending == Waiting(frees) <= |frees|
  {
    if frees != [] {
      var n := |frees| - 1;
      NoTickLost(intervalNs, frees[..n]);
      var c, c1 := Ticks(Clock(0, 0), intervalNs, frees[..n]), Ticks(Clock(0, 0), intervalNs, frees);
      assert (c.pending + 1) * intervalNs == c.pending * intervalNs + intervalNs;
      assert (n + 1) * intervalNs == n * intervalNs + intervalNs;
    }
  }

  /** A tick of the clock is longer than a real one less one nanosecond, and at most 19/18 of it. */
  lemma IntervalAccuracy(divisor: nat)
    requires 1 <= divisor <= 0xffff
    ensures (Interval(divisor) + 1) * 1193182 > divisor * 1000000000
    ensures 18 * Interval(divisor) * 1193182 <= 19 * divisor * 1000000000
  {
    DivisionDefined(divisor);
    var q, i := BASE_FREQUENCY / divisor, Interval(divisor);
    assert q * divisor <= BASE_FREQUENCY < (q + 1) * divisor;
    assert i * q <= NS_PER_S < (i + 1) * q;
    Scaled(i, q, divisor);
  }

  lemma Scaled(i: nat, q: nat, divisor: nat)
    requires 18 <= q && 1 <= divisor && q * divisor <= BASE_FREQUENCY < (q + 1) * divisor
    requires i * q <= NS_PER_S < (i + 1) * q
    ensures (i + 1) * BASE_FREQUENCY > divisor * NS_PER_S
    ensures 18 * i * BASE_FREQUENCY <= 19 * divisor * NS_PER_S
  {
    ScaledLow(i, q, divisor, BASE_FREQUENCY, NS_PER_S);
    ScaledHigh(i, q, divisor, BASE_FREQUENCY, NS_PER_S);
  }

  lemma ScaledLow(i: nat, q: nat, divisor: nat, frequency: nat, second: nat)
    requires 1 <= divisor && q * divisor <= frequency && second < (i + 1) * q
    ensures (i + 1) * frequency > divisor * second
  {
    Scale(second, (i + 1) * q, divisor);
    assert divisor * ((i + 1) * q) == (i + 1) * (q * divisor);
    ScaleUp(q * divisor, frequency, i + 1);
  }

  lemma ScaledHigh(i: nat, q: nat, divisor: nat, frequency: nat, second: nat)
    requires 18 <= q && frequency < (q + 1) * divisor && i * q <= second
    ensures 18 * i * frequency <= 19 * divisor * second
  {
    var iq := i * q;
    ScaleUp(18, q, i);
    ScaleUp(frequency, (q + 1) * divisor, 18 * i);
    assert 18 * i * ((q + 1) * divisor) == divisor * (18 * iq + 18 * i);
    ScaleUp(18 * iq + 18 * i, 19 * second, divisor);
  }

  lemma Scale(a: nat, b: nat, k: nat)
    requires a < b && k >= 1
    ensures k * a < k * b
  {
  }

  lemma ScaleUp(a: nat, b: nat, k: nat)
    requires a <= b
    ensures k * a <= k * b
  {
  }

  /** Clock accuracy: once nothing is pending after `n` ticks, the clock shows more than the real
      time less `n` nanoseconds, and at most 19/18 of it. */
  lemma ClockAccuracy(intervalMs: nat, frees: seq<bool>)
    requires intervalMs >= 1 && frees != [] && frees[|frees| - 1]
    ensures 1 <= Divisor(intervalMs) <= 0xffff
    ensures var n := |frees|;
      var shown := Ticks(Clock(0, 0), Interval(Divisor(intervalMs)), frees).systimeNs as real;
      Elapsed(n, Divisor(intervalMs)) - n as real < shown <= Elapsed(n, Divisor(intervalMs)) * 19.0 / 18.0
  {
    var d, n := Divisor(intervalMs), |frees|;
    var i := Interval(d);
    NoTickLost(i, frees);
    IntervalAccuracy(d);
    ManyTicks(i, d, n, BASE_FREQUENCY, NS_PER_S);
    InReals(n * i, n * d, n);
  }

  lemma ManyTicks(i: nat, d: nat, n: nat, frequency: nat, second: nat)
    requires n >= 1 && (i + 1) * frequency > d * second && 18 * i * frequency <= 19 * d * second
    ensures n * d * second < (n * i + n) * frequency
    ensures 18 * (n * i) * frequency <= 19 * (n * d) * second
  {
    Scale(d * second, (i + 1) * frequency, n);
    assert n * (d * second) == n * d * second;
    assert n * ((i + 1) * frequency) == (n * (i + 1)) * frequency == (n * i + n) * frequency;
    ScaleUp(18 * i * frequency, 19 * d * second, n);
    Reordered(n, 18, i, frequency);
    Reordered(n, 19, d, second);
  }

  lemma Reordered(n: nat, k: nat, x: nat, y: nat)
    ensures n * (k * x * y) == k * (n * x) * y
  {
    assert n * (k * x * y) == (n * (k * x)) * y;
    assert n * (k * x) == k * (n * x);
  }

  lemma InReals(shown: nat, counted: nat, n: nat)
    requires counted * NS_PER_S < (shown + n) * BASE_FREQUENCY
    requires 18 * shown * BASE_FREQUENCY <= 19 * counted * NS_PER_S
    ensures counted as real * NS_PER_S as real / BASE_FREQUENCY as real - n as real < shown as real
    ensures shown as real <= counted as real * NS_PER_S as real / BASE_FREQUENCY as real * 19.0 / 18.0
  {
  }

  /** With the interval of one millisecond that the kernel chooses, the scheduler is asked for
      another thread at every tenth interrupt, unless that one finds the timer locked. */
  lemma EveryTenthTick(frees: seq<bool>)
    requires frees != [] && frees[|frees| - 1]
    ensures Interval(Divisor(1)) == 1000000
    ensures Ticks(Clock(0, 0), Interval(Divisor(1)), frees).systimeNs / NS_PER_MS % 10 == 0 <==> |frees| % 10 == 0
  {
    assert Divisor(1) == 1193 && Interval(1193) == NS_PER_MS;
    NoTickLost(NS_PER_MS, frees);
  }
}
