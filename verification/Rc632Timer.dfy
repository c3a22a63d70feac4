/**
 The RC632 timer: choosing the prescaler and divisor whose period is the shortest one that is
 not below a requested timeout.
 */
module Rc632Timer {
  import opened Common

  const USEC := 1000000
  const U64 := 0x1_0000_0000_0000_0000
  const I64_MAX := 0x7fff_ffff_ffff_ffff
  const PRESCALERS := 21

  /** Timer clock for a prescaler, rounded down. */
  function Clock(i: nat): int { FC / Pow2(i) }

  /** The divisor the search tries, in 64-bit arithmetic. */
  function Divisor(i: nat, timeout: nat): int { Clock(i) * timeout % U64 / USEC + 1 }

  predicate Eligible(i: nat, timeout: nat) { Divisor(i, timeout) <= 0xff && Divisor(i, timeout) <= Clock(i) }

  /** The period in microseconds the driver computes for a candidate. */
  function Period(i: nat, timeout: nat): int
    requires Eligible(i, timeout)
  {
    DivisorPositive(i, timeout);
    AtLeastOne(Clock(i), Divisor(i, timeout));
    USEC / (Clock(i) / Divisor(i, timeout))
  }

  lemma DivisorPositive(i: nat, timeout: nat)
    ensures Divisor(i, timeout) >= 1
  {
  }

  lemma AtLeastOne(a: int, b: int)
    requires 0 < b <= a
    ensures a / b >= 1
  {
    Quotient(a, b);
    if a / b < 1 { MulMono(b, a / b, 0); }
  }

  /** Two's complement reading of a 64-bit word. */
  function Signed(x: int): (s: int)
    ensures -0x8000_0000_0000_0000 <= s < 0x8000_0000_0000_0000 && (x - s) % 0x1_0000_0000_0000_0000 == 0
  {
    var w := x % U64;
    if w > I64_MAX then w - U64 else w
  }

  /** The requested timeout times the fastest clock fits 64 bits. */
  predicate Fits(timeout: nat) { FC * timeout < U64 }

  lemma ClockBounds(i: nat)
    requires i < PRESCALERS
    ensures 12 <= Clock(i) <= FC && (i == 20 ==> Clock(i) == 12)
  {
    assert Pow2(20) == 1048576 by {
      assert Pow2(5) == 32;
      assert Pow2(10) == 1024;
      assert Pow2(15) == 32768;
    }
    Pow2Monotone(i, 20);
    var p := Pow2(i);
    assert 1 <= p <= 1048576;
    DivBounds(FC, p, 1048576);
  }

  lemma DivBounds(a: int, p: int, q: int)
    requires 0 < p <= q && a >= 0
    ensures 0 <= a / q <= a / p <= a
  {
    var x, y := a / q, a / p;
    Quotient(a, p);
    Quotient(a, q);
    if x < 0 { MulMono(q, x, -1); assert false; }
    if y < x {
      MulMono(p, y + 1, x);
      MulMono(x, p, q);
      assert false;
    }
    if y > a {
      MulMono(y, 1, p);
      assert false;
    }
  }

  // ----- which candidates there are -----

  lemma NoWrap(i: nat, timeout: nat)
    requires i < PRESCALERS && Fits(timeout)
    ensures Divisor(i, timeout) == Clock(i) * timeout / USEC + 1
  {
    ClockBounds(i);
    MulMono(timeout, Clock(i), FC);
    assert 0 <= Clock(i) * timeout < U64;
  }

  /** For timeouts below one second the slowest clock always has a candidate; from one second on no
      prescaler has one. */
  lemma EligibleIff(timeout: nat)
    requires Fits(timeout)
    ensures timeout < USEC ==> Eligible(20, timeout)
    ensures timeout >= USEC ==> forall i: nat :: i < PRESCALERS ==> !Eligible(i, timeout)
  {
    if timeout < USEC {
      NoWrap(20, timeout);
      ClockBounds(20);
    } else {
      forall i: nat | i < PRESCALERS ensures !Eligible(i, timeout) {
        NoWrap(i, timeout);
        ClockBounds(i);
        MulMono(Clock(i), USEC, timeout);
        assert Clock(i) * timeout / USEC >= Clock(i);
      }
    }
  }

  /** Every candidate's period is at least the timeout: the three roundings never undershoot. */
  lemma PeriodNotBelow(i: nat, timeout: nat)
    requires i < PRESCALERS && Fits(timeout) && Eligible(i, timeout)
    ensures timeout <= Period(i, timeout) <= USEC
  {
    NoWrap(i, timeout);
    ClockBounds(i);
    RoundingUp(Clock(i), timeout, Divisor(i, timeout));
  }

  /** With d = floor(c t / u) + 1 <= c, the quotient u / (c / d) is not below t. */
  lemma RoundingUp(c: int, t: int, d: int)
    requires c > 0 && t >= 0 && d == c * t / USEC + 1 && d <= c
    ensures c / d >= 1 && t <= USEC / (c / d) <= USEC
  {
    var x := c * t;
    assert x >= 0;
    assert USEC * d > x && d >= 1;
    var q := c / d;
    AtLeastOne(c, d);
    Quotient(c, d);
    // q d <= c and c t < u d, so q t c < u c
    MulMono(USEC, d * q, c);
    assert USEC * (d * q) == (USEC * d) * q;
    MulMono(q, x + 1, USEC * d);
    assert q * (x + 1) == q * x + q;
    assert q * x < USEC * c;
    assert q * x == (q * t) * c;
    if q * t >= USEC {
      MulMono(c, USEC, q * t);
    }
    assert q * t < USEC;
    QuotientAtLeast(USEC, q, t);
  }

  lemma QuotientAtLeast(a: int, q: int, t: int)
    requires q >= 1 && a >= 0 && q * t <= a
    ensures t <= a / q <= a
  {
    Quotient(a, q);
    if a / q < t { MulMono(q, a / q + 1, t); }
    if a / q > a { MulMono(a / q, 1, q); }
  }

  // ----- the search -----

  function Excess(i: nat, timeout: nat): int
    requires Eligible(i, timeout)
  {
    Signed(Period(i, timeout) - timeout)
  }

  /** A candidate the search considers. */
  predicate Candidate(i: nat, timeout: nat) { Eligible(i, timeout) && 0 <= Excess(i, timeout) < I64_MAX }

  /** `p` is the best candidate below `n`: least excess, and the smallest prescaler among equals. */
  ghost predicate Best(p: nat, n: nat, timeout: nat) {
    && p < n && Candidate(p, timeout)
    && forall j: nat :: j < n && Candidate(j, timeout) ==>
         Excess(p, timeout) <= Excess(j, timeout) && (j < p ==> Excess(p, timeout) < Excess(j, timeout))
  }

  lemma ExcessIsReal(i: nat, timeout: nat)
    requires i < PRESCALERS && Fits(timeout) && Eligible(i, timeout)
    ensures Candidate(i, timeout) && Excess(i, timeout) == Period(i, timeout) - timeout
  {
    PeriodNotBelow(i, timeout);
  }

  // ----- what the choice means -----

  /** A timer setting without division: at prescaler `i` the clock runs at `c` Hz; `d` is the least count
      of ticks that takes longer than the timeout, and the counter can hold it; it is reached `q` times
      a second, so the period is `r` microseconds, everything rounded down. */
  ghost predicate Setting(i: nat, timeout: nat, c: int, d: int, q: int, r: int) {
    && i < 21 && c * Pow2(i) <= 13560000 < (c + 1) * Pow2(i)
    && (d - 1) * 1000000 <= c * timeout < d * 1000000 && 1 <= d <= 255 && d <= c
    && q * d <= c < (q + 1) * d
    && r * q <= 1000000 < (r + 1) * q
  }

  ghost predicate Chosen(i: nat, timeout: nat, c: int, d: int, q: int, r: int) {
    && i < PRESCALERS && Eligible(i, timeout) && c == Clock(i) && d == Divisor(i, timeout) >= 1
    && q == c / d >= 1 && r == Period(i, timeout) == USEC / q
  }

  lemma SettingIsChosen(i: nat, timeout: nat, c: int, d: int, q: int, r: int)
    requires Fits(timeout) && Setting(i, timeout, c, d, q, r)
    ensures Chosen(i, timeout, c, d, q, r)
  {
    NoWrap(i, timeout);
    QuotientUnique(FC, Pow2(i), c);
    QuotientUnique(c * timeout, USEC, d - 1);
    SettingPeriod(c, d, q, r);
  }

  lemma ChosenIsSetting(i: nat, timeout: nat, c: int, d: int, q: int, r: int)
    requires Fits(timeout) && Chosen(i, timeout, c, d, q, r)
    ensures Setting(i, timeout, c, d, q, r)
  {
    NoWrap(i, timeout);
    Quotient(FC, Pow2(i));
    Quotient(c * timeout, USEC);
    Quotient(c, d);
    Quotient(USEC, q);
    assert (c + 1) * Pow2(i) == Pow2(i) * c + Pow2(i);
    assert (q + 1) * d == d * q + d && (r + 1) * q == q * r + q;
  }

  /** There is a setting for a prescaler exactly when the search finds it eligible, and only one. */
  lemma SettingIff(i: nat, timeout: nat, c: int, d: int, q: int, r: int)
    requires Fits(timeout)
    ensures Setting(i, timeout, c, d, q, r) <==> Chosen(i, timeout, c, d, q, r)
  {
    if Setting(i, timeout, c, d, q, r) {
      SettingIsChosen(i, timeout, c, d, q, r);
    }
    if Chosen(i, timeout, c, d, q, r) {
      ChosenIsSetting(i, timeout, c, d, q, r);
    }
    hide Setting;
    hide Chosen;
  }

  lemma SettingPeriod(c: int, d: int, q: int, r: int)
    requires 1 <= d <= c && q * d <= c < (q + 1) * d && r * q <= USEC < (r + 1) * q
    ensures q == c / d >= 1 && r == USEC / q
  {
    QuotientUnique(c, d, q);
    AtLeastOne(c, d);
    QuotientUnique(USEC, q, r);
  }

  /** `p` with divisor `d` has the shortest period of all settings, and is the smallest prescaler that has
      it; the period is not below the timeout. */
  ghost predicate Shortest(p: nat, d: int, timeout: nat) {
    exists c, q, r ::
      && Setting(p, timeout, c, d, q, r) && timeout <= r
      && forall j: nat, c': int, d': int, q': int, r': int :: Setting(j, timeout, c', d', q', r') ==> r <= r' && (j < p ==> r < r')
  }

  lemma BestIsShortest(p: nat, timeout: nat)
    requires Fits(timeout) && Best(p, PRESCALERS, timeout)
    ensures Shortest(p, Divisor(p, timeout), timeout)
  {
    var c, d, r := Clock(p), Divisor(p, timeout), Period(p, timeout);
    DivisorPositive(p, timeout);
    AtLeastOne(c, d);
    var q := c / d;
    ChosenIsSetting(p, timeout, c, d, q, r);
    ExcessIsReal(p, timeout);
    PeriodNotBelow(p, timeout);
    hide Setting;
    hide Period;
    hide Excess;
    forall j: nat, c': int, d': int, q': int, r': int | Setting(j, timeout, c', d', q', r') ensures r <= r' && (j < p ==> r < r') {
      SettingIff(j, timeout, c', d', q', r');
      ExcessIsReal(j, timeout);
    }
  }

  lemma NoSettings(timeout: nat)
    requires Fits(timeout) && forall j: nat :: j < PRESCALERS ==> !Candidate(j, timeout)
    ensures forall j: nat, c: int, d: int, q: int, r: int :: !Setting(j, timeout, c, d, q, r)
  {
    hide Candidate;
    forall j: nat, c: int, d: int, q: int, r: int ensures !Setting(j, timeout, c, d, q, r) {
      SettingIff(j, timeout, c, d, q, r);
      if j < PRESCALERS && Eligible(j, timeout) {
        ExcessIsReal(j, timeout);
      }
    }
  }

  lemma Decided(p: nat, divisor: Option<nat>, timeout: nat)
    requires Fits(timeout)
    requires divisor.None? ==> forall j: nat :: j < PRESCALERS ==> !Candidate(j, timeout)
    requires divisor.Some? ==> Best(p, PRESCALERS, timeout) && divisor.value == Divisor(p, timeout)
    ensures divisor.Some? <==> timeout < USEC
    ensures divisor.Some? ==> Shortest(p, divisor.value, timeout)
    ensures divisor.None? ==> forall j: nat, c: int, d: int, q: int, r: int :: !Setting(j, timeout, c, d, q, r)
  {
    EligibleIff(timeout);
    if timeout < USEC {
      ExcessIsReal(20, timeout);
    }
    hide Candidate;
    if divisor.Some? {
      BestIsShortest(p, timeout);
    } else {
      NoSettings(timeout);
    }
  }

  /** For every timeout that fits: a divisor is chosen exactly when the timeout is below one second;
      the period is not below the timeout, no prescaler comes closer, and none smaller as close. */
  method BestPrescaler(timeout: nat) returns (prescaler: nat, divisor: Option<nat>)
    requires timeout < U64
    ensures divisor.None? ==> prescaler == 0 && forall j: nat :: j < PRESCALERS ==> !Candidate(j, timeout)
    ensures divisor.Some? ==> Best(prescaler, PRESCALERS, timeout) && divisor.value == Divisor(prescaler, timeout) <= 0xff
    ensures Fits(timeout) ==> (divisor.Some? <==> timeout < USEC)
    ensures Fits(timeout) && divisor.Some? ==> Shortest(prescaler, divisor.value, timeout)
    ensures Fits(timeout) && divisor.None? ==> forall j: nat, c: int, d: int, q: int, r: int :: !Setting(j, timeout, c, d, q, r)
  {
    var smallest := I64_MAX;
    prescaler, divisor := 0, None;
    for i: nat := 0 to PRESCALERS
      invariant divisor.None? ==> prescaler == 0 && smallest == I64_MAX && forall j: nat :: j < i ==> !Candidate(j, timeout)
      invariant divisor.Some? ==> Best(prescaler, i, timeout) && divisor.value == Divisor(prescaler, timeout)
                                  && smallest == Excess(prescaler, timeout)
    {
      var clk := FC / Pow2(i);
      var div := clk * timeout % U64 / USEC;
      div := div + 1;
      if div > 0xff || div > clk {
        continue;
      }
      DivisorPositive(i, timeout);
      AtLeastOne(clk, div);
      var res := USEC / (clk / div);
      var diff := Signed(res - timeout);
      if diff < 0 {
        continue;
      }
      if diff < smallest {
        prescaler, divisor, smallest := i, Some(div), diff;
      }
    }
    if Fits(timeout) {
      Decided(prescaler, divisor, timeout);
    }
  }
}
