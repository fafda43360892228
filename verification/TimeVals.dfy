/** struct timeval and the truncating millisecond difference that the power sequencer and the status cache
    share (ccr.origin/cmgrapi.c:1130-1134, cache/hashmap.c:262-266). */
module TimeVals {

  const SECOND := 1_000_000  // us

  datatype TimeVal = TimeVal(sec: int, usec: int)
  {
    ghost predicate Valid()
    {
      0 <= usec < SECOND
    }

    ghost function Us(): (us: int)
    {
      sec * SECOND + usec
    }
  }

  /** gettimeofday at `us` microseconds since the epoch */
  function At(us: int): (tv: TimeVal)
    ensures tv.Valid() && tv.Us() == us
  {
    TimeVal(us / SECOND, us % SECOND)
  }

  /** C's division truncates towards zero. */
  function TruncDiv(a: int, b: int): (q: int)
    requires b > 0
  {
    if a >= 0 then a / b else -(-a / b)
  }

  /** ccr_cal_tvdiff and hash_cal_tvdiff, in milliseconds */
  function TvDiff(newer: TimeVal, older: TimeVal): (ms: int)
  {
    (newer.sec - older.sec) * 1_000 + TruncDiv(newer.usec - older.usec, 1_000)
  }

  lemma TruncatedMs(us: int)
    ensures us - 1_000 < 1_000 * TruncDiv(us, 1_000) < us + 1_000
  {
  }

  /** The truncating difference is off by less than one millisecond. */
  lemma DiffWithinOneMs(newer: TimeVal, older: TimeVal)
    ensures newer.Us() - older.Us() - 1_000 < 1_000 * TvDiff(newer, older) < newer.Us() - older.Us() + 1_000
  {
    TruncatedMs(newer.usec - older.usec);
  }

  /** Truncation rounds up exactly the negative values with a fraction of a millisecond. */
  lemma RoundsUpIff(us: int)
    ensures 1_000 * TruncDiv(us, 1_000) > us <==> us < 0 && -us % 1_000 != 0
  {
  }

  /** Exactly when the truncating difference counts more time than has passed. */
  lemma DiffOvercountsIff(newer: TimeVal, older: TimeVal)
    ensures (1_000 * TvDiff(newer, older) > newer.Us() - older.Us())
        <==> (newer.usec < older.usec && (older.usec - newer.usec) % 1_000 != 0)
  {
    RoundsUpIff(newer.usec - older.usec);
  }

  /** A later instant never counts as less. */
  lemma DiffMonotone(t: TimeVal, t': TimeVal, older: TimeVal)
    requires t.Valid() && t'.Valid() && older.Valid() && t.Us() <= t'.Us()
    ensures TvDiff(t, older) <= TvDiff(t', older)
  {
    assert t.sec < t'.sec || (t.sec == t'.sec && t.usec <= t'.usec);
  }
}
