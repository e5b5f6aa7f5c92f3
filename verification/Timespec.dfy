/** The time arithmetic of dispatcher.c: seconds and nanoseconds, millisecond offsets,
    the narrowing comparison, and the truncating "milliseconds left" count. */
module Timespec {

  const NSEC_PER_SEC: int := 1_000_000_000
  const NSEC_PER_MSEC: int := 1_000_000
  const TWO_31: int := 0x8000_0000

  datatype Timespec = Timespec(sec: int, nsec: int)

  /** Real time, in nanoseconds. */
  function Nanos(t: Timespec): int {
    t.sec * NSEC_PER_SEC + t.nsec
  }

  /** What clock_gettime delivers. */
  predicate Normal(t: Timespec) {
    0 <= t.sec && 0 <= t.nsec < NSEC_PER_SEC
  }

  /** What the timers hold: AddMsec carries with `>` and not `>=`, so nsec may be a whole second. */
  predicate Proper(t: Timespec) {
    0 <= t.sec && 0 <= t.nsec <= NSEC_PER_SEC
  }

  /** Within 2^31 seconds from `base`, so that no difference of two such times is narrowed by the
      comparison. */
  predicate Within(t: Timespec, base: nat) {
    Proper(t) && base <= t.sec < base + TWO_31
  }

  /** Two times whose difference is not narrowed, either way. */
  predicate Near(a: Timespec, b: Timespec) {
    Proper(a) && Proper(b) && -TWO_31 < a.sec - b.sec < TWO_31
  }

  /** Conversion of a C long to a C int. */
  function ToInt32(x: int): int {
    var m := x % 0x1_0000_0000;
    if m < 0x8000_0000 then m else m - 0x1_0000_0000
  }

  /** expiration_compare. */
  function Compare(a: Timespec, b: Timespec): int {
    ToInt32(if a.sec != b.sec then a.sec - b.sec else a.nsec - b.nsec)
  }

  /** C's division, which rounds towards zero. */
  function TruncDiv(a: int, b: int): int
    requires b > 0
  {
    if a >= 0 then a / b else -(-a / b)
  }

  /** expiration_msec, given what the clock said. */
  function MsecLeft(t: Timespec, now: Timespec): int {
    if Compare(t, now) <= 0 then 0
    else (t.sec - now.sec) * 1000 + TruncDiv(t.nsec - now.nsec, NSEC_PER_MSEC)
  }

  predicate Due(t: Timespec, now: Timespec) {
    MsecLeft(t, now) == 0
  }

  /** add_expiration_msec. */
  function AddMsec(t: Timespec, msec: nat): Timespec {
    var sec := t.sec + msec / 1000;
    var nsec := t.nsec + msec % 1000 * NSEC_PER_MSEC;
    if nsec > NSEC_PER_SEC then Timespec(sec + 1, nsec - NSEC_PER_SEC) else Timespec(sec, nsec)
  }

  /** get_expiration_time, given what the clock said. */
  method ExpirationTime(now: Timespec, msec: nat) returns (t: Timespec)
    requires Normal(now)
    ensures Normal(t)
    ensures Nanos(t) == Nanos(now) + msec * NSEC_PER_MSEC
  {
    t := now;
    if msec == 0 {
      return;
    }
    t := Timespec(t.sec + msec / 1000, t.nsec + msec % 1000 * NSEC_PER_MSEC);
    while t.nsec >= NSEC_PER_SEC
      invariant 0 <= t.sec && 0 <= t.nsec
      invariant Nanos(t) == Nanos(now) + msec * NSEC_PER_MSEC
      decreases t.nsec
    {
      t := Timespec(t.sec + 1, t.nsec - NSEC_PER_SEC);
    }
  }

  /** Adding milliseconds is exact, and keeps nsec at most one second. A whole second is not carried: no
      nanoseconds are left only if there were none, and whole seconds are added. */
  lemma AddMsecExact(t: Timespec, msec: nat)
    requires Proper(t)
    ensures Nanos(AddMsec(t, msec)) == Nanos(t) + msec * NSEC_PER_MSEC
    ensures Proper(AddMsec(t, msec))
    ensures AddMsec(t, msec).nsec == 0 <==> t.nsec == 0 && msec % 1000 == 0
  {
    assert msec == msec / 1000 * 1000 + msec % 1000;
  }

  lemma CompareExactly(a: Timespec, b: Timespec)
    requires Near(a, b)
    ensures Compare(a, b) == if a.sec != b.sec then a.sec - b.sec else a.nsec - b.nsec
  {
  }

  /** The comparison orders times as their real values do; the one disagreement is a tie in real
      time between (s, 10^9) and (s + 1, 0), which the representation breaks. */
  lemma CompareFollowsRealTime(a: Timespec, b: Timespec)
    requires Near(a, b)
    ensures Compare(a, b) < 0 <==>
            Nanos(a) < Nanos(b) || (Nanos(a) == Nanos(b) && a.sec < b.sec)
    ensures Compare(a, b) == 0 <==> a == b
    ensures Compare(a, b) > 0 <==> Compare(b, a) < 0
  {
    CompareExactly(a, b);
    CompareExactly(b, a);
  }

  lemma CompareTransitive(a: Timespec, b: Timespec, c: Timespec)
    requires Near(a, b) && Near(b, c) && Near(a, c)
    ensures Compare(a, b) <= 0 && Compare(b, c) <= 0 ==> Compare(a, c) <= 0
    ensures Compare(a, b) <= 0 && Compare(b, c) < 0 ==> Compare(a, c) < 0
    ensures Compare(a, b) < 0 && Compare(b, c) <= 0 ==> Compare(a, c) < 0
  {
    CompareFollowsRealTime(a, b);
    CompareFollowsRealTime(b, c);
    CompareFollowsRealTime(a, c);
  }

  /** Whether the comparison has the sign that the order of two times has, ties apart. */
  predicate Right(a: Timespec, b: Timespec) {
    && (Compare(a, b) < 0 <==> Nanos(a) < Nanos(b) || (Nanos(a) == Nanos(b) && a.sec < b.sec))
    && (Compare(a, b) > 0 <==> Nanos(a) > Nanos(b) || (Nanos(a) == Nanos(b) && a.sec > b.sec))
  }

  /** Exactly when it has: if the difference in seconds, modulo 2^32, is in the half that stands for its
      sign. That is so for all differences from -2^31 to 2^31 - 1; those next to them are wrong. */
  lemma CompareNarrows(a: Timespec, b: Timespec)
    requires Proper(a) && Proper(b)
    ensures var d := (a.sec - b.sec) % 0x1_0000_0000;
            Right(a, b) <==> a.sec == b.sec || (if a.sec > b.sec then 0 < d < TWO_31 else d >= TWO_31)
    ensures -TWO_31 <= a.sec - b.sec < TWO_31 ==> Right(a, b)
    ensures a.sec - b.sec == TWO_31 || b.sec - a.sec == TWO_31 + 1 ==> !Right(a, b)
  {
    if a.sec > b.sec {
      assert Nanos(a) - Nanos(b) == (a.sec - b.sec) * NSEC_PER_SEC + a.nsec - b.nsec;
    } else if a.sec < b.sec {
      assert Nanos(b) - Nanos(a) == (b.sec - a.sec) * NSEC_PER_SEC + b.nsec - a.nsec;
    }
  }

  /** A time that has not passed has a non-negative count of milliseconds left, strictly within one
      millisecond of the true difference. */
  lemma MsecLeftAccurate(t: Timespec, now: Timespec)
    requires Near(t, now) && Normal(now)
    ensures MsecLeft(t, now) >= 0
    ensures Compare(t, now) > 0 ==>
              -NSEC_PER_MSEC < MsecLeft(t, now) * NSEC_PER_MSEC - (Nanos(t) - Nanos(now)) < NSEC_PER_MSEC
  {
    CompareFollowsRealTime(t, now);
    if Compare(t, now) > 0 {
      var d := t.nsec - now.nsec;
      TruncDivBounds(d);
      assert MsecLeft(t, now) == (t.sec - now.sec) * 1000 + TruncDiv(d, NSEC_PER_MSEC);
    }
  }

  /** Which way it is rounded: down, unless nanoseconds have to be borrowed from a second, and then up. */
  lemma MsecLeftRounds(t: Timespec, now: Timespec)
    requires Near(t, now) && Normal(now) && Compare(t, now) > 0
    ensures var left, m := Nanos(t) - Nanos(now), MsecLeft(t, now) * 1_000_000;
            if t.nsec >= now.nsec then m <= left < m + 1_000_000 else m - 1_000_000 < left <= m
  {
    var d := t.nsec - now.nsec;
    TruncDivBounds(d);
    assert MsecLeft(t, now) == (t.sec - now.sec) * 1000 + TruncDiv(d, NSEC_PER_MSEC);
  }

  lemma TruncDivBounds(d: int)
    ensures -NSEC_PER_MSEC < TruncDiv(d, NSEC_PER_MSEC) * NSEC_PER_MSEC - d < NSEC_PER_MSEC
    ensures d > -NSEC_PER_SEC ==> TruncDiv(d, NSEC_PER_MSEC) >= -999
    ensures d >= 0 <==> TruncDiv(d, NSEC_PER_MSEC) > 0 || 0 <= d < NSEC_PER_MSEC
  {
  }

  /** A whole number of milliseconds is left exactly. */
  lemma LeftAtFirst(t: Timespec, now: Timespec, msec: nat)
    requires Near(t, now) && Normal(t) && Normal(now) && Nanos(t) == Nanos(now) + msec * NSEC_PER_MSEC
    ensures MsecLeft(t, now) == msec
  {
    MsecLeftAccurate(t, now);
    CompareFollowsRealTime(t, now);
    if msec > 0 {
      var d := t.nsec - now.nsec;
      assert d == (msec - (t.sec - now.sec) * 1000) * NSEC_PER_MSEC;
      TruncDivExactly(msec - (t.sec - now.sec) * 1000);
    }
  }

  lemma TruncDivExactly(k: int)
    ensures TruncDiv(k * NSEC_PER_MSEC, NSEC_PER_MSEC) == k
  {
  }

  /** A timer is due exactly from one millisecond before its expiry on, except that it is never due
      in the second before the one it expires in. */
  lemma DueExactly(t: Timespec, now: Timespec)
    requires Near(t, now) && Normal(now)
    ensures Due(t, now) <==>
            t.sec < now.sec || (t.sec == now.sec && t.nsec < now.nsec + NSEC_PER_MSEC)
    ensures Due(t, now) ==> Nanos(t) < Nanos(now) + NSEC_PER_MSEC
    ensures !Due(t, now) ==> Nanos(t) > Nanos(now)
  {
    CompareFollowsRealTime(t, now);
    TruncDivBounds(t.nsec - now.nsec);
  }

  /** Being due is closed towards earlier times. */
  lemma DueMonotone(t: Timespec, u: Timespec, now: Timespec)
    requires Near(t, now) && Near(u, now) && Normal(now)
    requires Nanos(t) < Nanos(u) && Due(u, now)
    ensures Due(t, now)
  {
    DueExactly(t, now);
    DueExactly(u, now);
  }

  /** The k-th occurrence of a timer that recurs every `every` milliseconds. */
  function Occurrence(t: Timespec, every: nat, k: nat): Timespec {
    if k == 0 then t else AddMsec(Occurrence(t, every, k - 1), every)
  }

  /** k milliseconds-long steps of `every` each, in nanoseconds. */
  function Span(every: nat, k: nat): nat {
    k * (every * NSEC_PER_MSEC)
  }

  lemma SpanStep(every: nat, k: nat)
    ensures Span(every, k + 1) == Span(every, k) + every * NSEC_PER_MSEC
  {
    var p := every * NSEC_PER_MSEC;
    assert (k + 1) * p == k * p + p;
  }

  lemma {:induction false} OccurrenceExact(t: Timespec, every: nat, k: nat)
    requires Proper(t)
    ensures Proper(Occurrence(t, every, k))
    ensures Nanos(Occurrence(t, every, k)) == Nanos(t) + Span(every, k)
  {
    if k == 0 {
      assert Span(every, 0) == 0;
    } else {
      OccurrenceExact(t, every, k - 1);
      AddMsecExact(Occurrence(t, every, k - 1), every);
      SpanStep(every, k - 1);
    }
  }
}
