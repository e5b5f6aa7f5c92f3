/** The clock that dispatcher.c reads. It never goes back. */
module MonotonicClock {
  import opened Timespec

  /** How many seconds an offset of `msec` adds at most. */
  function Seconds(msec: nat): nat {
    msec / 1000 + 1
  }

  /** A clock that goes on for less than `limit` seconds, and offsets of up to `reach` milliseconds: two can
      be added to any reading without a comparison being narrowed. */
  predicate Fit(limit: nat, reach: nat) {
    limit + 2 * Seconds(reach) <= TWO_31
  }

  class Clock {
    const base: nat                 // in seconds, where it starts
    const limit: nat                // how far it goes from there
    const reach: nat
    var last: Timespec
    var coming: seq<Timespec>       // what it will show, whatever that is

    /** The next reading: what is shown, unless the clock would go back, or there is nothing more. */
    function Next(): Timespec
      reads this
    {
      if coming != [] && Normal(coming[0]) && coming[0].sec < base + limit && Nanos(last) <= Nanos(coming[0]) then
        coming[0]
      else last
    }

    ghost predicate Valid()
      reads this
    {
      Normal(last) && base <= last.sec < base + limit && Fit(limit, reach)
    }

    constructor (base: nat, limit: nat, reach: nat, coming: seq<Timespec>)
      requires limit > 0 && Fit(limit, reach)
      ensures Valid() && this.base == base && this.limit == limit && this.reach == reach && this.coming == coming
    {
      this.base, this.limit, this.reach, this.coming := base, limit, reach, coming;
      last := Timespec(base, 0);
    }

    /** clock_gettime. */
    method Read() returns (now: Timespec)
      requires Valid()
      modifies this
      ensures Valid() && now == last == old(Next()) && Nanos(old(last)) <= Nanos(now)
      ensures coming == if old(coming) == [] then [] else old(coming)[1..]
    {
      now := Next();
      last := now;
      if coming != [] {
        coming := coming[1..];
      }
    }
  }

  /** A clock that stands still goes on to do so. */
  twostate predicate Still(clock: Clock)
    reads clock
  {
    old(clock.coming) == [] ==> clock.coming == [] && clock.last == old(clock.last)
  }
}
