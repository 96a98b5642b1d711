/** How market-sim-bin turns a requested rate into connections, ticks and messages per tick. */
module Rate {
  import Bytes

  const SECOND := 1_000_000_000
  const MILLISECOND := 1_000_000

  /** Go's integer division truncates toward zero. */
  function GoDiv(a: int, b: nat): int
    requires 0 < b
  {
    if a >= 0 then a / b else -((-a) / b)
  }

  /** The rate of one connection: an even share, but at least one message per second. */
  function RatePerConn(rate: int, conns: nat): nat
    requires 0 < conns
  {
    var r := GoDiv(rate, conns);
    if r < 1 then 1 else r
  }

  /** The same for numbers that are not negative. */
  function Div(a: nat, b: nat): nat
    requires 0 < b
  {
    a / b
  }

  /** The tick interval in nanoseconds: never shorter than a millisecond. */
  function Interval(rate: nat): (ns: nat)
    requires 0 < rate
    ensures MILLISECOND <= ns
  {
    var ns := Div(SECOND, rate);
    if ns < MILLISECOND then MILLISECOND else ns
  }

  function TicksPerSecond(rate: nat): nat
    requires 0 < rate
  {
    Div(SECOND, Interval(rate))
  }

  function MsgsPerTick(rate: nat): nat
    requires 0 < rate && 0 < TicksPerSecond(rate)
  {
    var m := Div(rate, TicksPerSecond(rate));
    if m < 1 then 1 else m
  }

  lemma DivUnique(n: nat, d: nat, q: nat)
    requires 0 < d && q * d <= n < (q + 1) * d
    ensures n / d == q
  {
    assert (q + 1) * d == q * d + d;
    Bytes.ModUnique(n, d, q, n - q * d);
  }

  lemma DivBounds(n: nat, d: nat)
    requires 0 < d
    ensures n / d * d <= n < n / d * d + d
  {
  }

  lemma ProductOrder(a: int, b: int, c: nat)
    ensures a <= b ==> a * c <= b * c && c * a <= c * b
  {
    if a <= b {
      assert 0 <= (b - a) * c;
    }
  }

  /** From 1 to 1000 messages per second a connection ticks exactly that often, one message a tick. */
  lemma SlowRate(rate: nat)
    requires 1 <= rate <= 1000
    ensures TicksPerSecond(rate) == rate && MsgsPerTick(rate) == 1
  {
    var q := SECOND / rate;
    DivBounds(SECOND, rate);
    ProductOrder(q + 1, MILLISECOND, rate);
    assert (q + 1) * rate == q * rate + rate;
    assert rate * q == q * rate;
    assert (rate + 1) * q == q * rate + q;
    DivUnique(SECOND, q, rate);
    DivUnique(rate, rate, 1);
  }

  /** Above that it ticks once a millisecond, and the nominal rate falls short by less than 1000. */
  lemma FastRate(rate: nat)
    requires rate > 1000
    ensures Interval(rate) == MILLISECOND && TicksPerSecond(rate) == 1000
    ensures rate - 1000 < MsgsPerTick(rate) * TicksPerSecond(rate) <= rate
  {
    DivBounds(SECOND, rate);
    ProductOrder(MILLISECOND, SECOND / rate, rate);
  }

  function Nominal(rate: nat): nat
    requires 0 < rate && 0 < TicksPerSecond(rate)
  {
    MsgsPerTick(rate) * TicksPerSecond(rate)
  }

  lemma NominalBounds(rate: nat)
    requires 0 < rate
    ensures 0 < TicksPerSecond(rate) && rate - 1000 < Nominal(rate) <= rate
    ensures rate <= 1000 ==> Nominal(rate) == rate
  {
    hide TicksPerSecond, MsgsPerTick;
    if rate <= 1000 {
      SlowRate(rate);
    } else {
      FastRate(rate);
    }
  }

  /** The nominal rate is the requested one exactly for slow rates and for multiples of 1000. */
  lemma NominalExactIff(rate: nat)
    requires 0 < rate
    ensures 0 < TicksPerSecond(rate) && (Nominal(rate) == rate <==> rate <= 1000 || rate % 1000 == 0)
  {
    NominalBounds(rate);
    if rate > 1000 {
      FastRate(rate);
    }
  }

  lemma IntervalPositive(rate: nat)
    requires 0 < rate
    ensures 0 < Div(SECOND, Interval(rate))
  {
    NominalBounds(rate);
  }

  /** So raising the messages of a tick to one never happens: there is always at least one. */
  lemma TickFacts(rate: nat)
    requires 0 < rate
    ensures 0 < TicksPerSecond(rate) && 1 <= rate / TicksPerSecond(rate)
    ensures rate <= 1000 ==> TicksPerSecond(rate) == rate && MsgsPerTick(rate) == 1
    ensures rate > 1000 ==> TicksPerSecond(rate) == 1000 && rate - 1000 < 1000 * MsgsPerTick(rate) <= rate
  {
    if rate <= 1000 {
      SlowRate(rate);
      DivBounds(rate, TicksPerSecond(rate));
    } else {
      FastRate(rate);
    }
  }

  lemma PlanMeans(rate: nat, interval: nat, perTick: nat)
    requires 0 < rate && 0 < TicksPerSecond(rate) && interval == Interval(rate) && perTick == MsgsPerTick(rate)
    ensures rate <= 1000 ==> Div(SECOND, interval) == rate && perTick == 1
    ensures rate > 1000 ==> Div(SECOND, interval) == 1000 && rate - 1000 < 1000 * perTick <= rate
    ensures interval == if rate <= 1000 then 1_000_000_000 / rate else 1_000_000
  {
    TickFacts(rate);
    IntervalIs(rate);
  }

  /** The whole nanoseconds in a message's share of a second, or a millisecond if that is longer. */
  lemma IntervalIs(rate: nat)
    requires 0 < rate
    ensures Interval(rate) == if rate <= 1000 then 1_000_000_000 / rate else 1_000_000
  {
    if rate > 1000 {
      FastRate(rate);
    } else {
      DivBounds(SECOND, rate);
      ProductOrder(SECOND / rate + 1, MILLISECOND, rate);
      assert (SECOND / rate + 1) * rate == SECOND / rate * rate + rate;
    }
  }

  /** The interval between ticks and the messages sent at each, as the publisher computes them when it starts. */
  method TickPlan(rate: nat) returns (interval: nat, perTick: nat)
    requires 0 < rate
    ensures 0 < interval == if rate <= 1000 then 1_000_000_000 / rate else 1_000_000
    ensures rate <= 1000 ==> Div(SECOND, interval) == rate && perTick == 1
    ensures rate > 1000 ==> Div(SECOND, interval) == 1000 && rate - 1000 < 1000 * perTick <= rate
    ensures 0 < TicksPerSecond(rate) == Div(SECOND, interval) && perTick == MsgsPerTick(rate)
  {
    hide Div;
    interval := Div(SECOND, rate);
    if interval < MILLISECOND {
      interval := MILLISECOND;
    }
    IntervalPositive(rate);
    var ticks := Div(SECOND, interval);
    perTick := Div(rate, ticks);
    if perTick < 1 {
      perTick := 1;
    }
    PlanMeans(rate, interval, perTick);
  }

  /** The even share, when it is not raised to one: the remainder lost is less than the connections. */
  lemma EvenShare(rate: int, conns: nat)
    requires 0 < conns
    ensures conns <= rate ==> 1 <= RatePerConn(rate, conns) && conns * RatePerConn(rate, conns) <= rate
    ensures conns <= rate ==> rate - conns < conns * RatePerConn(rate, conns)
    ensures rate < conns ==> RatePerConn(rate, conns) == 1
  {
    if conns <= rate {
      DivBounds(rate, conns);
      var q := rate / conns;
      assert conns * q == q * conns;
      ProductOrder(q, 0, conns);
    }
  }

  /**
    All connections together never exceed the requested rate, and fall short of it by less than 1000 per
    connection, exactly when the request is for at least one message per connection and second.
   */
  lemma TotalRate(rate: int, conns: nat)
    requires 0 < conns
    ensures var r := RatePerConn(rate, conns);
            && 0 < TicksPerSecond(r)
            && (conns * Nominal(r) <= rate <==> conns <= rate)
            && (conns <= rate ==> rate - 1000 * conns < conns * Nominal(r))
  {
    var r: int := RatePerConn(rate, conns);
    NominalBounds(r);
    EvenShare(rate, conns);
    hide TicksPerSecond, MsgsPerTick, Nominal, RatePerConn;
    var m := Nominal(r);
    ProductOrder(1, m, conns);
    ProductOrder(m, r, conns);
    ProductOrder(r - 999, m, conns);
    assert conns * (r - 999) == conns * r - 999 * conns;
  }
}
