/**
 * Time arithmetic of the daemon: conversions between (sec, nsec) and
 * (sec, usec) pairs, millisecond offsets and a millisecond difference.
 * All of it is C integer arithmetic, whose `/` and `%` truncate toward
 * zero; CDiv and CMod model them explicitly. The unit constants of the
 * source (NSECS_IN_SEC, NSECS_IN_MSEC, NSECS_IN_USEC, USECS_IN_SEC,
 * USECS_IN_MSEC) are written as the numbers they stand for.
 */
module TimeUtils {

  /** C's integer division: the quotient is truncated toward zero. */
  function CDiv(a: int, b: int): (q: int)
    requires b > 0
    ensures a >= 0 ==> q * b <= a < q * b + b
    ensures a < 0 ==> q * b - b < a <= q * b
  {
    if a >= 0 then
      assert a == (a / b) * b + a % b;
      a / b
    else
      var m := (-a) / b;
      assert -a == m * b + (-a) % b;
      assert (-m) * b == -(m * b);
      -m
  }

  /** C's remainder: it has the sign of the dividend. */
  function CMod(a: int, b: int): (r: int)
    requires b > 0
    ensures CDiv(a, b) * b + r == a
    ensures a >= 0 ==> 0 <= r < b
    ensures a < 0 ==> -b < r <= 0
  {
    a - CDiv(a, b) * b
  }

  /** struct timespec */
  datatype Timespec = Timespec(sec: int, nsec: int)

  /** struct timeval */
  datatype Timeval = Timeval(sec: int, usec: int)

  /** The instant a timespec denotes, in nanoseconds. */
  function TotalNs(t: Timespec): int {
    t.sec * 1_000_000_000 + t.nsec
  }

  /** The instant a timeval denotes, in microseconds. */
  function TotalUs(t: Timeval): int {
    t.sec * 1_000_000 + t.usec
  }

  predicate NormalTs(t: Timespec) {
    0 <= t.nsec < 1_000_000_000
  }

  predicate NormalTv(t: Timeval) {
    0 <= t.usec < 1_000_000
  }

  /** time_diff_ts: ts1 - ts2 in milliseconds, meant to round up. */
  function DiffTs(ts1: Timespec, ts2: Timespec): int {
    CDiv(ts1.nsec - ts2.nsec + 1_000_000 - 1, 1_000_000) + (ts1.sec - ts2.sec) * 1000
  }

  /** time_diff_tv: tv1 - tv2 in milliseconds, meant to round up. */
  function DiffTv(tv1: Timeval, tv2: Timeval): int {
    CDiv(tv1.usec - tv2.usec + 1000 - 1, 1000) + (tv1.sec - tv2.sec) * 1000
  }

  /** time_add_ts: add msec milliseconds to ts (the out-pointer becomes the result). */
  function AddTs(ts: Timespec, msec: int): (r: Timespec)
    ensures TotalNs(r) == TotalNs(ts) + msec * 1_000_000
  {
    var nsec := ts.nsec + msec * 1_000_000;
    if nsec >= 1_000_000_000 then
      Timespec(ts.sec + CDiv(nsec, 1_000_000_000), CMod(nsec, 1_000_000_000))
    else
      Timespec(ts.sec, nsec)
  }

  /** Adding a non-negative offset to a normalised timespec gives a
      normalised timespec. */
  lemma AddTsNormal(ts: Timespec, msec: int)
    requires NormalTs(ts) && msec >= 0
    ensures NormalTs(AddTs(ts, msec))
  {
  }

  /** time_tv2ts: convert base to a timespec, msec milliseconds later. */
  function Tv2Ts(base: Timeval, msec: int): (r: Timespec)
    ensures TotalNs(r) == TotalUs(base) * 1000 + msec * 1_000_000
  {
    var nsec := base.usec * 1000 + CMod(msec, 1000) * 1_000_000;
    Timespec(base.sec + CDiv(nsec, 1_000_000_000) + CDiv(msec, 1000), CMod(nsec, 1_000_000_000))
  }

  /** From a timeval with non-negative microseconds and a non-negative
      offset, time_tv2ts produces a normalised timespec. */
  lemma Tv2TsNormal(base: Timeval, msec: int)
    requires base.usec >= 0 && msec >= 0
    ensures NormalTs(Tv2Ts(base, msec))
  {
  }

  /** time_ts2tv: convert base to a timeval, msec milliseconds later;
      the nanoseconds below a microsecond are dropped. */
  function Ts2Tv(base: Timespec, msec: int): (r: Timeval)
    ensures TotalUs(r) == base.sec * 1_000_000 + CDiv(base.nsec, 1000) + msec * 1000
  {
    var usec := CDiv(base.nsec, 1000) + CMod(msec, 1000) * 1000;
    Timeval(base.sec + CDiv(usec, 1_000_000) + CDiv(msec, 1000), CMod(usec, 1_000_000))
  }

  /** From a timespec with non-negative nanoseconds and a non-negative
      offset, time_ts2tv produces a normalised timeval. */
  lemma Ts2TvNormal(base: Timespec, msec: int)
    requires base.nsec >= 0 && msec >= 0
    ensures NormalTv(Ts2Tv(base, msec))
  {
  }

  /** The difference of a timespec with itself is zero. */
  lemma DiffTsSelf(t: Timespec)
    ensures DiffTs(t, t) == 0
  {
  }

  /** time_diff_ts never reports less than the exact difference. */
  lemma DiffTsRoundsUp(ts1: Timespec, ts2: Timespec)
    ensures DiffTs(ts1, ts2) * 1_000_000 >= TotalNs(ts1) - TotalNs(ts2)
  {
    var x := ts1.nsec - ts2.nsec + 1_000_000 - 1;
    var q := CDiv(x, 1_000_000);
    assert q * 1_000_000 >= ts1.nsec - ts2.nsec;
    assert DiffTs(ts1, ts2) * 1_000_000 == q * 1_000_000 + (ts1.sec - ts2.sec) * 1_000_000_000;
  }

  /** When the nanosecond field of ts1 is not a millisecond or more below
      that of ts2 (in particular when it is not below it), time_diff_ts is
      exactly the ceiling of the difference in milliseconds. */
  lemma DiffTsExactCeiling(ts1: Timespec, ts2: Timespec)
    requires ts1.nsec - ts2.nsec > -1_000_000
    ensures var r := DiffTs(ts1, ts2);
      (r - 1) * 1_000_000 < TotalNs(ts1) - TotalNs(ts2) <= r * 1_000_000
  {
    var x := ts1.nsec - ts2.nsec + 1_000_000 - 1;
    var q := CDiv(x, 1_000_000);
    assert (q - 1) * 1_000_000 < ts1.nsec - ts2.nsec <= q * 1_000_000;
    assert DiffTs(ts1, ts2) * 1_000_000 == q * 1_000_000 + (ts1.sec - ts2.sec) * 1_000_000_000;
  }

  /** Otherwise it can report one millisecond more than the ceiling, but
      never more than that. */
  lemma DiffTsAtMostOneOver(ts1: Timespec, ts2: Timespec)
    ensures DiffTs(ts1, ts2) * 1_000_000 < TotalNs(ts1) - TotalNs(ts2) + 2 * 1_000_000
  {
    var x := ts1.nsec - ts2.nsec + 1_000_000 - 1;
    var q := CDiv(x, 1_000_000);
    assert q * 1_000_000 < ts1.nsec - ts2.nsec + 2 * 1_000_000;
    assert DiffTs(ts1, ts2) * 1_000_000 == q * 1_000_000 + (ts1.sec - ts2.sec) * 1_000_000_000;
  }

  /** An instance of the extra millisecond: 500 ms across a second
      boundary is reported as 501 ms. */
  lemma DiffTsOverRoundsAcrossSecond()
    ensures TotalNs(Timespec(1, 0)) - TotalNs(Timespec(0, 500_000_000)) == 500 * 1_000_000
    ensures DiffTs(Timespec(1, 0), Timespec(0, 500_000_000)) == 501
  {
  }

  /** time_diff_tv never reports less than the exact difference. */
  lemma DiffTvRoundsUp(tv1: Timeval, tv2: Timeval)
    ensures DiffTv(tv1, tv2) * 1000 >= TotalUs(tv1) - TotalUs(tv2)
  {
    var x := tv1.usec - tv2.usec + 1000 - 1;
    var q := CDiv(x, 1000);
    assert q * 1000 >= tv1.usec - tv2.usec;
    assert DiffTv(tv1, tv2) * 1000 == q * 1000 + (tv1.sec - tv2.sec) * 1_000_000;
  }

  /** time_diff_tv is the exact ceiling when the microsecond fields do not
      differ by a millisecond or more in the wrong direction. */
  lemma DiffTvExactCeiling(tv1: Timeval, tv2: Timeval)
    requires tv1.usec - tv2.usec > -1000
    ensures var r := DiffTv(tv1, tv2);
      (r - 1) * 1000 < TotalUs(tv1) - TotalUs(tv2) <= r * 1000
  {
    var x := tv1.usec - tv2.usec + 1000 - 1;
    var q := CDiv(x, 1000);
    assert (q - 1) * 1000 < tv1.usec - tv2.usec <= q * 1000;
    assert DiffTv(tv1, tv2) * 1000 == q * 1000 + (tv1.sec - tv2.sec) * 1_000_000;
  }

  /** A press of 999 ms whose end lies in the next second is measured as
      1000 ms. */
  lemma DiffTvOverRoundsAcrossSecond()
    ensures TotalUs(Timeval(1, 0)) - TotalUs(Timeval(0, 1000)) == 999 * 1000
    ensures DiffTv(Timeval(1, 0), Timeval(0, 1000)) == 1000
  {
  }

  lemma MulAtLeast(m: int, u: int)
    requires m >= 1 && u > 0
    ensures m * u >= u
  {
    assert m * u == (m - 1) * u + u;
  }

  /** Multiplying by a positive unit keeps a strict
      order with a gap of at least one unit. */
  lemma MulMono(a: int, b: int, u: int)
    requires u > 0
    ensures a < b ==> a * u + u <= b * u
  {
    if a < b {
      MulAtLeast(b - a, u);
      assert b * u - a * u == (b - a) * u;
    }
  }

  /** C division by a positive divisor is monotone in the dividend. */
  lemma CDivMonotone(a: int, a': int, b: int)
    requires b > 0 && a <= a'
    ensures CDiv(a, b) <= CDiv(a', b)
  {
    var q, q' := CDiv(a, b), CDiv(a', b);
    MulMono(q', q, b);
    MulMono(0, q, b);
    MulMono(q', 0, b);
  }

  /** The only multiple of u strictly between -u and u is 0. */
  lemma MultipleInOpenInterval(k: int, u: int, x: int)
    requires u > 0 && k * u == x && -u < x < u
    ensures k == 0
  {
    if k > 0 {
      MulAtLeast(k, u);
    } else if k < 0 {
      MulAtLeast(-k, u);
    }
  }

  /** Two normalised timevals denoting the same instant are equal. */
  lemma NormalTvUnique(a: Timeval, b: Timeval)
    requires NormalTv(a) && NormalTv(b) && TotalUs(a) == TotalUs(b)
    ensures a == b
  {
    MultipleInOpenInterval(a.sec - b.sec, 1_000_000, b.usec - a.usec);
  }

  /** Two normalised timespecs denoting the same instant are equal. */
  lemma NormalTsUnique(a: Timespec, b: Timespec)
    requires NormalTs(a) && NormalTs(b) && TotalNs(a) == TotalNs(b)
    ensures a == b
  {
    MultipleInOpenInterval(a.sec - b.sec, 1_000_000_000, b.nsec - a.nsec);
  }

  /** Converting a normalised timeval to a timespec and back gives it back. */
  lemma TvTsRoundTrip(tv: Timeval)
    requires NormalTv(tv)
    ensures Ts2Tv(Tv2Ts(tv, 0), 0) == tv
  {
    var ts := Tv2Ts(tv, 0);
    Tv2TsNormal(tv, 0);
    assert TotalNs(ts) == TotalUs(tv) * 1000;
    assert ts.sec * 1_000_000_000 + ts.nsec == (tv.sec * 1_000_000 + tv.usec) * 1000;
    NormalTsUnique(ts, Timespec(tv.sec, tv.usec * 1000));
    var back := Ts2Tv(ts, 0);
    Ts2TvNormal(ts, 0);
    assert CDiv(tv.usec * 1000, 1000) == tv.usec;
    NormalTvUnique(back, tv);
  }

  /** The other way round only the nanoseconds below a microsecond are lost. */
  lemma TsTvRoundTrip(ts: Timespec)
    requires NormalTs(ts)
    ensures TotalNs(Tv2Ts(Ts2Tv(ts, 0), 0)) == TotalNs(ts) - CMod(ts.nsec, 1000)
    ensures NormalTs(Tv2Ts(Ts2Tv(ts, 0), 0))
  {
    var tv := Ts2Tv(ts, 0);
    Ts2TvNormal(ts, 0);
    assert TotalUs(tv) * 1000 == ts.sec * 1_000_000_000 + CDiv(ts.nsec, 1000) * 1000;
    Tv2TsNormal(tv, 0);
  }

  /** A normalised timespec denoting base plus msec is what time_tv2ts
      produces. */
  lemma Tv2TsIs(base: Timeval, msec: int, r: Timespec)
    requires base.usec >= 0 && msec >= 0 && NormalTs(r)
    requires TotalNs(r) == TotalUs(base) * 1000 + msec * 1_000_000
    ensures Tv2Ts(base, msec) == r
  {
    Tv2TsNormal(base, msec);
    NormalTsUnique(Tv2Ts(base, msec), r);
  }

  /** A normalised timeval denoting base (to the microsecond) plus msec is
      what time_ts2tv produces. */
  lemma Ts2TvIs(base: Timespec, msec: int, r: Timeval)
    requires base.nsec >= 0 && msec >= 0 && NormalTv(r)
    requires TotalUs(r) == base.sec * 1_000_000 + CDiv(base.nsec, 1000) + msec * 1000
    ensures Ts2Tv(base, msec) == r
  {
    Ts2TvNormal(base, msec);
    NormalTvUnique(Ts2Tv(base, msec), r);
  }

  /** A normalised timespec denoting ts plus msec is what time_add_ts
      produces. */
  lemma AddTsIs(ts: Timespec, msec: int, r: Timespec)
    requires NormalTs(ts) && msec >= 0 && NormalTs(r)
    requires TotalNs(r) == TotalNs(ts) + msec * 1_000_000
    ensures AddTs(ts, msec) == r
  {
    AddTsNormal(ts, msec);
    NormalTsUnique(AddTs(ts, msec), r);
  }
}
