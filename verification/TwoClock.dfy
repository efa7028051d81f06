/**
 Times on two clocks: a slow one that counts `f` ticks a second in 24 bits, and a fast one that counts microseconds.
 A time is split into ticks and the microseconds behind them. Fractions are avoided: an inequality about times in
 microseconds is written multiplied by `f`.
 */
module TwoClock {

  const MICROS := 1_000_000
  const COUNTER_RANGE := 0x100_0000
  const HALF_RANGE := 0x80_0000
  const WORD_RANGE := 0x1_0000_0000

  /** The crystal of the nRF52. */
  const LFXO := 32768

  /** A value in an unsigned variable of 32 bits. */
  function Word32(x: int): (r: nat)
    ensures r < WORD_RANGE
  {
    x % WORD_RANGE
  }

  // ---- Products ----

  lemma Quotient(a: nat, f: nat)
    requires f > 0
    ensures f * (a / f) <= a < f * (a / f) + f
  {
  }

  lemma LargerProduct(f: nat, a: int, b: int)
    ensures a > b ==> f * a >= f * b + f
  {
    if a > b {
      ProductOfSum(f, b, a - b - 1);
    }
  }

  lemma ProductOfSum(f: nat, b: int, d: nat)
    ensures f * (b + 1 + d) >= f * b + f
  {
  }

  // ---- The split ----

  /** The whole ticks of a time in microseconds. */
  function Ticks(t: nat, f: nat): nat {
    t * f / MICROS
  }

  /** The microseconds that so many ticks take, rounded down. */
  function TickMicros(ticks: nat, f: nat): nat
    requires f > 0
  {
    ticks * MICROS / f
  }

  lemma TicksNotLate(t: nat, f: nat)
    requires f > 0
    ensures TickMicros(Ticks(t, f), f) <= t
  {
  }

  /** The microseconds behind the ticks. */
  function Rest(t: nat, f: nat): nat
    requires f > 0
  {
    TicksNotLate(t, f);
    t - TickMicros(Ticks(t, f), f)
  }

  /** For every time and tick rate: the two parts together are the time, at most one microsecond late and never
      early, and the second part is not longer than one tick rounded up. */
  lemma SplitIsExact(t: nat, f: nat)
    requires f > 0
    ensures 0 <= Ticks(t, f) * MICROS + f * Rest(t, f) - f * t < f
    ensures f * Rest(t, f) < MICROS + f
  {
  }

  // ---- The connection event timer ----

  /** The compare registers: two of the slow clock, with 24 bits, and two of the fast timer, with 32 bits. */
  datatype Registers = Registers(startTicks: nat, startOscillator: nat, startRadio: nat, timeout: nat)

  /** What a compare register of the slow clock keeps of a value of 32 bits. */
  function Compare(x: int): (r: nat)
    ensures r < COUNTER_RANGE
  {
    Word32(x) % COUNTER_RANGE
  }

  lemma CompareIs(x: int)
    ensures Compare(x) == x % COUNTER_RANGE
  {
  }

  /** Less than 2^24 ticks ahead, the counter is at the compare value exactly at the planned tick. */
  lemma ComparedAt(lfAnchor: nat, planned: nat, ticks: nat)
    requires planned < COUNTER_RANGE && ticks < COUNTER_RANGE
    ensures Compare(lfAnchor + planned) == (lfAnchor + ticks) % COUNTER_RANGE <==> ticks == planned
  {
    CompareIs(lfAnchor + planned);
  }

  lemma InRange(x: int)
    requires 0 <= x < WORD_RANGE
    ensures Word32(x) == x
  {
  }

  /** Neither part of a split time leaves 32 bits. */
  lemma PartsInRange(t: nat)
    requires t < WORD_RANGE
    ensures Ticks(t, LFXO) < WORD_RANGE
    ensures LFXO * Rest(t, LFXO) < MICROS + LFXO && Rest(t, LFXO) < MICROS
  {
  }

  /** The second compare value, computed from what the first register kept. */
  lemma OscillatorAhead(ticks: nat, oscillator: nat)
    ensures Compare(Compare(ticks) - oscillator) == (ticks - oscillator) % COUNTER_RANGE
  {
    CompareIs(ticks);
    CompareIs(Compare(ticks) - oscillator);
    SameRemainder(Compare(ticks) - oscillator, ticks / COUNTER_RANGE);
  }

  lemma SameRemainder(x: int, rounds: int)
    ensures (x + COUNTER_RANGE * rounds) % COUNTER_RANGE == x % COUNTER_RANGE
  {
    var m, k := x % COUNTER_RANGE, x / COUNTER_RANGE;
    assert x + COUNTER_RANGE * rounds == COUNTER_RANGE * (k + rounds) + m;
  }

  /** The registers are written one after the other, in unsigned arithmetic of 32 bits. One microsecond is borrowed from
      the start time and given back at the end, so that the compare register of the fast timer is not zero. The radio is
      enabled at the intended time or less than a microsecond later, as long as that time does not wrap around: so many
      `ticks` and microseconds behind the anchor. */
  method SetupLongDistanceTimer(hfAnchor: int, lfAnchor: nat, start: nat, startup: nat, timeout: nat, oscillator: nat)
    returns (r: Registers, ghost ticks: nat)
    ensures r.startTicks == (lfAnchor + ticks) % 0x100_0000
    ensures r.startOscillator == (lfAnchor + ticks - oscillator) % 0x100_0000
    ensures var micros := ticks * 1_000_000 + 32768 * r.startRadio;
            var intended := (hfAnchor + start - startup - 1) % 0x1_0000_0000 + 1;
            0 <= micros - 32768 * intended < 32768
    ensures 1 <= r.startRadio && 32768 * (r.startRadio - 1) < 1_000_000 + 32768
    ensures r.timeout == (r.startRadio + startup + timeout) % 0x1_0000_0000
  {
    var offset := 1;
    var startRadioTime := Word32(hfAnchor + start - startup - offset);
    PartsInRange(startRadioTime);
    TicksNotLate(startRadioTime, LFXO);
    InRange(Ticks(startRadioTime, LFXO));
    InRange(Rest(startRadioTime, LFXO));
    InRange(Rest(startRadioTime, LFXO) + 1);
    SplitIsExact(startRadioTime, LFXO);
    var lfStart := Word32(startRadioTime * LFXO / MICROS);
    var hfStart := Word32(startRadioTime - lfStart * MICROS / LFXO);
    var startTicks := Compare(lfAnchor + lfStart);
    var startRadio := Word32(hfStart + offset);
    ticks := lfStart;
    r := Registers(startTicks, Compare(startTicks - oscillator), startRadio, Word32(startRadio + startup + timeout));
    CompareIs(lfAnchor + ticks);
    OscillatorAhead(lfAnchor + ticks, oscillator);
  }

  // ---- Now ----

  /** The counter of the slow clock, where it has wrapped around since the anchor. */
  function Unwrapped(counter: nat, lfAnchor: nat): nat {
    if counter < lfAnchor then counter + COUNTER_RANGE else counter
  }

  function Now(counter: nat, lfAnchor: nat, hfAnchor: int, f: nat): nat
    requires f > 0
  {
    var anchor := Word32(TickMicros(lfAnchor, f) + hfAnchor);
    var current := Word32(TickMicros(Unwrapped(counter, lfAnchor), f));
    if anchor < current then current - anchor else 0
  }

  lemma UnwrappedIs(ticks: nat, lfAnchor: nat)
    requires lfAnchor < COUNTER_RANGE && lfAnchor <= ticks < lfAnchor + COUNTER_RANGE
    ensures Unwrapped(ticks % COUNTER_RANGE, lfAnchor) == ticks
  {
  }

  /** Fewer than 2^24 ticks after the anchor, whether or not the counter has wrapped around: the result is less than one
      microsecond away from the time since the anchor, except that it is 0 instead of a small or negative time. */
  lemma NowIsClose(ticks: nat, lfAnchor: nat, hfAnchor: int, f: nat)
    requires f > 0 && lfAnchor < COUNTER_RANGE && lfAnchor <= ticks < lfAnchor + COUNTER_RANGE
    requires 0 <= TickMicros(lfAnchor, f) + hfAnchor < WORD_RANGE && TickMicros(ticks, f) < WORD_RANGE
    ensures var now := Now(ticks % COUNTER_RANGE, lfAnchor, hfAnchor, f);
            var elapsed := (ticks - lfAnchor) * MICROS - f * hfAnchor;
            if now > 0 then f * now - elapsed < f && elapsed - f * now < f else elapsed < f
  {
    UnwrappedIs(ticks, lfAnchor);
    var a, c := TickMicros(lfAnchor, f), TickMicros(ticks, f);
    Quotient(lfAnchor * MICROS, f);
    InRange(a + hfAnchor);
    InRange(c);
    Quotient(ticks * MICROS, f);
    Difference(f, c, a, hfAnchor);
  }

  lemma Difference(f: nat, c: int, a: int, h: int)
    ensures f * (c - (a + h)) == f * c - f * a - f * h
    ensures c <= a + h ==> f * c - f * a - f * h <= 0
  {
  }

  // ---- Stopping a planned event ----

  function Distance(counter: nat, plan: nat): int {
    if counter >= plan then COUNTER_RANGE + plan - counter else plan - counter
  }

  /** Whether the event can be stopped, and if so, the time behind which it is stopped for sure. */
  function CanStop(counter: nat, plan: nat, margin: nat, lfAnchor: nat, hfAnchor: int, f: nat): (bool, nat)
    requires f > 0
  {
    var distance := Distance(counter, plan);
    if 0 <= distance <= HALF_RANGE && distance * MICROS / f > margin
    then (true, Word32(Now(counter, lfAnchor, hfAnchor, f) + margin)) else (false, 0)
  }

  /** The distance is exact for a plan 1 to 2^24 ticks ahead, across the wrap of the counter. */
  lemma DistanceIsExact(ticks: nat, ahead: nat)
    requires 1 <= ahead <= COUNTER_RANGE
    ensures Distance(ticks % COUNTER_RANGE, (ticks + ahead) % COUNTER_RANGE) == ahead
  {
  }

  /** For a plan less than half the counter's range away, ahead or in the past: the event can be stopped exactly if it is
      ahead and at least one microsecond more than the margin away. */
  lemma CanStopIff(ticks: nat, ahead: int, margin: nat, lfAnchor: nat, hfAnchor: int, f: nat)
    requires f > 0 && ticks + ahead >= 0 && -HALF_RANGE < ahead <= HALF_RANGE
    ensures CanStop(ticks % COUNTER_RANGE, (ticks + ahead) % COUNTER_RANGE, margin, lfAnchor, hfAnchor, f).0
            <==> ahead >= 1 && ahead * MICROS >= f * (margin + 1)
  {
    if ahead >= 1 {
      DistanceIsExact(ticks, ahead);
      QuotientAbove(ahead * MICROS, f, margin);
    } else {
      DistanceIsExact(ticks, COUNTER_RANGE + ahead);
      assert (ticks + (COUNTER_RANGE + ahead)) % COUNTER_RANGE == (ticks + ahead) % COUNTER_RANGE;
    }
  }

  /** The time that is answered is the margin behind the time since the anchor, less than one microsecond away, except that
      a small or negative time counts as 0. */
  lemma StopTimeIsClose(ticks: nat, ahead: nat, margin: nat, lfAnchor: nat, hfAnchor: int, f: nat)
    requires f > 0 && 1 <= ahead <= HALF_RANGE && ahead * MICROS >= f * (margin + 1)
    requires lfAnchor < COUNTER_RANGE && lfAnchor <= ticks < lfAnchor + COUNTER_RANGE
    requires 0 <= TickMicros(lfAnchor, f) + hfAnchor < WORD_RANGE && TickMicros(ticks, f) + margin < WORD_RANGE
    ensures var (ok, time) := CanStop(ticks % COUNTER_RANGE, (ticks + ahead) % COUNTER_RANGE, margin, lfAnchor, hfAnchor, f);
            var elapsed := (ticks - lfAnchor) * MICROS - f * hfAnchor;
            && ok && time >= margin
            && if time > margin then f * (time - margin) - elapsed < f && elapsed - f * (time - margin) < f else elapsed < f
  {
    CanStopIff(ticks, ahead, margin, lfAnchor, hfAnchor, f);
    NowIsClose(ticks, lfAnchor, hfAnchor, f);
    var now := Now(ticks % COUNTER_RANGE, lfAnchor, hfAnchor, f);
    UnwrappedIs(ticks, lfAnchor);
    InRange(TickMicros(ticks, f));
    InRange(TickMicros(lfAnchor, f) + hfAnchor);
    InRange(now + margin);
  }

  lemma QuotientAbove(a: nat, f: nat, margin: nat)
    requires f > 0
    ensures a / f > margin <==> a >= f * (margin + 1)
  {
    Quotient(a, f);
    LargerProduct(f, a / f, margin);
    LargerProduct(f, margin + 1, a / f);
    assert f * (margin + 1) == f * margin + f;
  }
}
