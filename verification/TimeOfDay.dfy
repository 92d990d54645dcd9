/**
  settimeofday and gettimeofday on top of the tick counter. settimeofday works out the microseconds that
  have gone by in 32 bits, gettimeofday in 64; below is shown exactly when that makes no difference.
 */
module TimeOfDay {
  import opened Arithmetic
  import opened TickArithmetic

  const US: nat := 1_000_000
  const ENOTSUP: int := 134
  const ENOSYS: int := 88

  datatype TimeVal = TimeVal(sec: int, usec: int)
  datatype TimeZone = TimeZone(minutesWest: int, dstTime: int)

  function Total(t: TimeVal): int { t.sec * US + t.usec }

  /** A time as a caller gives it: not negative, microseconds below a second, seconds in 32 bits. */
  predicate Proper(t: TimeVal) { 0 <= t.sec < 0x8000_0000 && 0 <= t.usec < US }

  /** The signed 32-bit fields of the stored time. */
  function Signed32(x: int): int { (x + 0x8000_0000) % 0x1_0000_0000 - 0x8000_0000 }

  /** Microseconds of one tick; 0 if there are more than a million ticks in a second. */
  function Step(rate: Word): (s: nat)
    requires rate > 0
    ensures Times(s, rate) <= US < Times(s + 1, rate)
  {
    StepOf(rate);
    Quot(US, rate)
  }

  lemma StepOf(rate: Word)
    requires rate > 0
    ensures Times(Quot(US, rate), rate) <= US < Times(Quot(US, rate) + 1, rate)
  {
    Division(US, rate);
    hide Times, Quot, Rem;
    TimesLaws(Quot(US, rate), 1, rate);
  }

  /** The microseconds beyond full seconds: in a 32-bit product, and in a 64-bit one. */
  function Narrow(n: Word, rate: Word): nat
    requires rate > 0
  {
    Times(n, Step(rate)) % 0x1_0000_0000 % US
  }

  function Wide(n: Word, rate: Word): nat
    requires rate > 0
  {
    Times(n, Step(rate)) % US
  }

  /** What settimeofday stores at tick `n`. */
  function Stored(t: TimeVal, n: Word, rate: Word): TimeVal
    requires rate > 0
  {
    TimeVal(Signed32(t.sec - Quot(n, rate)), Signed32(t.usec - Narrow(n, rate)))
  }

  /** What normalisation is for: the same time with microseconds in range, but nothing before zero when
      microseconds are missing. */
  function Normal(t: TimeVal): (r: TimeVal)
    ensures 0 <= r.usec < US
    ensures t.usec >= 0 || Total(t) >= 0 ==> Total(r) == Total(t)
    ensures t.usec < 0 && Total(t) < 0 ==> r == TimeVal(0, 0)
  {
    if t.usec < 0 && Total(t) < 0 then TimeVal(0, 0) else TimeVal(Total(t) / US, Total(t) % US)
  }

  /** What gettimeofday shows at tick `n`. */
  function Shown(reset: TimeVal, n: Word, rate: Word): TimeVal
    requires rate > 0
  {
    Normal(TimeVal(Signed32(reset.sec + Quot(n, rate)), Signed32(reset.usec + Wide(n, rate))))
  }

  // ---------------------------------------------------------------- the arithmetic

  lemma SameTime(t: TimeVal, u: TimeVal)
    requires 0 <= t.usec < US && 0 <= u.usec < US
    ensures Total(t) == Total(u) <==> t == u
  {
  }

  /** Wrapping in between does no harm when the result is in range. */
  lemma WrapsCancel(a: int, x: int, y: int)
    requires -0x8000_0000 <= a - x + y < 0x8000_0000
    ensures Signed32(Signed32(a - x) + y) == a - x + y
  {
    var b := a - x + 0x8000_0000;
    var q, r := b / 0x1_0000_0000, b % 0x1_0000_0000;
    assert b == q * 0x1_0000_0000 + r;
    var z := a - x + y + 0x8000_0000;
    assert Signed32(a - x) + y + 0x8000_0000 == z - q * 0x1_0000_0000;
    assert 0 <= z < 0x1_0000_0000;
    assert (z - q * 0x1_0000_0000) % 0x1_0000_0000 == z;
  }

  lemma DivModUs(x: int, q: int, r: int)
    requires x == q * US + r && 0 <= r < US
    ensures x / US == q && x % US == r
  {
  }

  /** The 32-bit product leaves the same microseconds just when it has dropped a multiple of 15625 turns:
      2^32 and a million share the factor 2^6 and nothing else. */
  lemma NarrowIsWideWhen(n: Word, rate: Word)
    requires rate > 0
    ensures Narrow(n, rate) == Wide(n, rate) <==> Times(n, Step(rate)) / 0x1_0000_0000 % 15625 == 0
  {
    hide Times, Quot;
    TurnsOfMillion(Times(n, Step(rate)));
  }

  lemma TurnsOfMillion(x: nat)
    ensures x % 0x1_0000_0000 % US == x % US <==> x / 0x1_0000_0000 % 15625 == 0
  {
    var q, r := x / 0x1_0000_0000, x % 0x1_0000_0000;
    var a, w := r / US, r % US;
    var b, w' := x / US, x % US;
    assert x == 0x1_0000_0000 * q + r && r == US * a + w && x == US * b + w';
    if w == w' {
      MillionTurns(q, b - a);
    }
    if q % 15625 == 0 {
      var c := q / 15625;
      DivModUs(x, 67108864 * c + a, w);
    }
  }

  lemma MillionTurns(q: int, d: int)
    requires 0x1_0000_0000 * q == US * d
    ensures q % 15625 == 0
  {
    var c := 12659 * d - 54369991 * q;
    assert q == 15625 * c;
  }

  /** When a tick is a whole number of microseconds, full seconds and microseconds together make up
      exactly the time gone by. */
  lemma WholeTicks(n: Word, rate: Word)
    requires rate > 0 && US % rate == 0
    ensures Quot(n, rate) * US + Wide(n, rate) == Times(n, Step(rate))
  {
    var step, q, r := Step(rate), Quot(n, rate), Rem(n, rate);
    Division(US, rate);
    assert Rem(US, rate) == 0;
    hide Times, Quot, Rem;
    Division(n, rate);
    TimesLaws(q, rate, step);
    TimesLaws(Times(q, rate), r, step);
    TimesLaws(step, rate, 0);
    TimesIs(q, US);
    RemBelow(r, rate, step);
    DivModUs(Times(n, step), q, Times(r, step));
  }

  lemma TimesIs(q: nat, p: nat)
    ensures Times(q, p) == q * p
  {
  }

  lemma RemBelow(r: nat, rate: nat, step: nat)
    requires r < rate && step > 0
    ensures Times(r, step) < Times(rate, step)
  {
    TimesLaws(r, 1, step);
    TimesMono(r + 1, rate, step);
    hide Times;
  }

  // ---------------------------------------------------------------- what the calls promise

  /** Reading the clock at the tick at which it was set gives back what was set, exactly when the 32-bit
      product has dropped nothing that matters, or the time set is zero and what is shown is cut off. */
  lemma ReadBack(t: TimeVal, n: Word, rate: Word)
    requires Proper(t) && rate > 0
    ensures Shown(Stored(t, n, rate), n, rate) == t
      <==> (Times(n, Step(rate)) / 0x1_0000_0000 % 15625 == 0
            || (t == TimeVal(0, 0) && Wide(n, rate) < Narrow(n, rate)))
  {
    NarrowIsWideWhen(n, rate);
    StoredThenShown(t, n, n, rate);
    hide Times, Quot, Stored, Shown, Narrow, Wide, Step;
    var u := TimeVal(t.sec, t.usec - Narrow(n, rate) + Wide(n, rate));
    assert Total(u) == Total(t) <==> Narrow(n, rate) == Wide(n, rate);
    SameTime(Normal(u), t);
  }

  /** An input for which it does not: at 1000 ticks a second, one second set 4294968 ticks after reset reads
      back as nearly two, because the product has just passed 2^32. */
  lemma ReadBackGoesWrong()
    ensures var t, n, rate := TimeVal(1, 0), 4294968, 1000;
      Proper(t) && Shown(Stored(t, n, rate), n, rate) == TimeVal(1, 967296)
  {
    var t, n, rate := TimeVal(1, 0), 4294968, 1000;
    Unique(1000, 0, 1000);
    assert Times(1000, 1000) == 1000000 && Step(rate) == 1000;
    assert Times(n, 1000) == 4294968000;
    assert 4294968000 % 0x1_0000_0000 == 704 && 704 % US == 704 && 4294968000 % US == 968000;
    hide Times, Quot, Normal, Stored, Shown;
    StoredThenShown(t, n, n, rate);
    NormalIs(967296);
  }

  lemma NormalIs(usec: nat)
    requires usec < US
    ensures Normal(TimeVal(1, usec)) == TimeVal(1, usec)
  {
    DivModUs(US + usec, 1, usec);
  }

  lemma StoredThenShown(t: TimeVal, n: Word, m: Word, rate: Word)
    requires Proper(t) && rate > 0 && n <= m && t.sec - Quot(n, rate) + Quot(m, rate) < 0x8000_0000
    ensures Quot(n, rate) <= Quot(m, rate)
    ensures Shown(Stored(t, n, rate), m, rate)
      == Normal(TimeVal(t.sec - Quot(n, rate) + Quot(m, rate), t.usec - Narrow(n, rate) + Wide(m, rate)))
  {
    QuotMono(n, m, rate);
    assert 0 <= Narrow(n, rate) < US && 0 <= Wide(m, rate) < US;
    hide Times, Quot, Narrow, Wide, Normal;
    WrapsCancel(t.sec, Quot(n, rate), Quot(m, rate));
    WrapsCancel(t.usec, Narrow(n, rate), Wide(m, rate));
    hide Signed32;
  }

  lemma QuotMono(n: nat, m: nat, b: nat)
    requires b > 0 && n <= m
    ensures Quot(n, b) <= Quot(m, b)
  {
    hide Times, Quot, Rem;
    var q, q' := Quot(n, b), Quot(m, b);
    Division(n, b);
    Division(m, b);
    if q' < q {
      TimesMono(q' + 1, q, b);
      TimesLaws(q', 1, b);
      assert false;
    }
  }

  /** Afterwards the clock advances by exactly the time of the ticks, as long as a tick is a whole number
      of microseconds, the set time reads back, and neither counter nor seconds run over. */
  lemma RunsExactly(t: TimeVal, n: Word, k: nat, rate: Word)
    requires Proper(t) && rate > 0 && US % rate == 0 && n + k < WRAP
    requires Times(n, Step(rate)) / 0x1_0000_0000 % 15625 == 0
    requires t.sec - Quot(n, rate) + Quot(n + k, rate) < 0x8000_0000
    ensures var now := Shown(Stored(t, n, rate), n + k, rate);
      Total(now) == Total(t) + Times(k, Step(rate)) && 0 <= now.usec < US
  {
    NarrowIsWideWhen(n, rate);
    StoredThenShown(t, n, n + k, rate);
    WholeTicks(n, rate);
    WholeTicks(n + k, rate);
    hide Times, Quot, Stored, Shown, Narrow, Wide, Step;
    TimesLaws(n, k, Step(rate));
    var u := TimeVal(t.sec - Quot(n, rate) + Quot(n + k, rate), t.usec - Narrow(n, rate) + Wide(n + k, rate));
    assert Total(u) == Total(t) + Times(k, Step(rate));
  }

  /** The time since reset is the time of the ticks, at every tick, just when a tick is a whole number of
      microseconds; otherwise a second too much is shown after the first second at the latest. */
  lemma ExactJustForWholeTicks(rate: Word)
    requires rate > 0
    ensures (forall n: Word :: Quot(n, rate) * US + Wide(n, rate) == Times(n, Step(rate))) <==> US % rate == 0
  {
    if US % rate == 0 {
      forall n: Word ensures Quot(n, rate) * US + Wide(n, rate) == Times(n, Step(rate)) {
        WholeTicks(n, rate);
      }
    } else {
      FirstSecond(rate);
    }
  }

  /** For every rate, what is taken as the time of `n` ticks is off by less than a second, at every tick. */
  lemma NeverOffByASecond(n: Word, rate: Word)
    requires rate > 0
    ensures var taken := Quot(n, rate) * US + Wide(n, rate);
      Times(n, US) < Times(taken, rate) + Times(US, rate) && Times(taken, rate) < Times(n, US) + Times(US, rate)
  {
    var q, r, w := Quot(n, rate), Rem(n, rate), Wide(n, rate);
    Division(n, rate);
    hide Quot, Rem, Wide;
    TimesLaws(Times(q, rate), r, US);
    TimesLaws(US, q, rate);
    TimesLaws(q, rate, US);
    TimesLaws(rate, US, 0);
    TimesLaws(q, US, rate);
    TimesLaws(Times(q, US), w, rate);
    assert Times(q, US) == q * US;
    RemBelow(r, rate, US);
    RemBelow(w, US, rate);
  }

  lemma FirstSecond(rate: Word)
    requires rate > 0 && US % rate != 0
    ensures Quot(rate, rate) * US + Wide(rate, rate) == Times(rate, Step(rate)) + US
  {
    var step := Step(rate);
    Division(US, rate);
    assert Rem(US, rate) > 0;
    hide Times, Quot, Rem;
    TimesLaws(step, rate, 0);
    TimesLaws(1, 0, rate);
    Unique(1, 0, rate);
    assert Quot(rate, rate) == 1;
    DivModUs(Times(rate, step), 0, Times(rate, step));
  }

  // ---------------------------------------------------------------- the calls

  class Clock {
    var nticks: Word
    const rate: Word
    var reset: TimeVal
    var zone: TimeZone
    var errno: int

    constructor (tickRate: Word)
      ensures rate == tickRate && nticks == 0 && reset == TimeVal(0, 0) && zone == TimeZone(0, 0) && errno == 0
    {
      nticks, rate := 0, tickRate;
      reset, zone, errno := TimeVal(0, 0), TimeZone(0, 0), 0;
    }

    /** settimeofday. */
    method SetTimeOfDay(t: TimeVal, tz: TimeZone) returns (ret: int)
      modifies this`reset, this`zone, this`errno
      ensures if rate == 0 then ret == -1 && errno == ENOSYS && reset == old(reset) && zone == old(zone)
        else ret == 0 && errno == old(errno) && zone == tz && reset == Stored(t, nticks, rate)
      ensures rate > 0 && Proper(t) && Times(nticks, Step(rate)) < 0x1_0000_0000 ==>
        Shown(reset, nticks, rate) == t
    {
      if rate > 0 {
        ReadBackNow(t);
        hide Times, Quot, Shown;
        var elapsed := Quot(US, rate);
        reset := TimeVal(Signed32(t.sec - Quot(nticks, rate)),
                         Signed32(t.usec - Times(nticks, elapsed) % 0x1_0000_0000 % US));
        zone := TimeZone(tz.minutesWest, tz.dstTime);
        return 0;
      }
      errno := ENOSYS;
      return -1;
    }

    lemma ReadBackNow(t: TimeVal)
      requires rate > 0
      ensures Proper(t) && Times(nticks, Step(rate)) < 0x1_0000_0000 ==>
        Shown(Stored(t, nticks, rate), nticks, rate) == t
    {
      hide Times, Quot, Shown, Stored, Proper;
      if Proper(t) && Times(nticks, Step(rate)) < 0x1_0000_0000 {
        ReadBack(t, nticks, rate);
      }
    }

    /** gettimeofday; nothing is filled in when there is no system clock. */
    method GetTimeOfDay(wantsZone: bool, t0: TimeVal, z0: TimeZone)
      returns (ret: int, t: TimeVal, tz: TimeZone)
      ensures if rate == 0 then ret == -ENOTSUP && t == t0 && tz == z0
        else ret == 0 && t == Shown(reset, nticks, rate) && tz == if wantsZone then zone else z0
    {
      t, tz := t0, z0;
      if rate > 0 {
        hide Times, Quot, Normal, Signed32;
        var sec, usec := Signed32(reset.sec + Quot(nticks, rate)),
                         Signed32(reset.usec + Times(nticks, Quot(US, rate)) % US);
        t := Normalise(sec, usec);
        if wantsZone {
          tz := zone;
        }
        return 0, t, tz;
      }
      return -ENOTSUP, t, tz;
    }
  }

  /** The two normalisation loops. */
  method Normalise(sec0: int, usec0: int) returns (t: TimeVal)
    ensures t == Normal(TimeVal(sec0, usec0))
  {
    var sec, usec := sec0, usec0;
    ghost var total := Total(TimeVal(sec0, usec0));
    while usec < 0
      invariant Total(TimeVal(sec, usec)) == total && (usec0 >= 0 ==> usec >= 0)
      invariant usec0 < 0 ==> usec < US && (usec >= 0 ==> sec >= 0)
      decreases -usec
    {
      if sec <= 0 {
        return TimeVal(0, 0);
      } else {
        sec := sec - 1;
        usec := usec + US;
      }
    }
    while usec >= US
      invariant Total(TimeVal(sec, usec)) == total && usec >= 0
    {
      sec := sec + 1;
      usec := usec - US;
    }
    DivModUs(total, sec, usec);
    return TimeVal(sec, usec);
  }
}
