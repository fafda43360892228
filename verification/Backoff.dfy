/** The randomised back-off before a frame is put on a bus (svsBdpBackoff, src/svsBdp.c:1365-1442). */
module Backoff {
  import opened Binary

  const INTER_FRAME_GAP_US := 2_000
  const MIN_LISTEN_US := 5_000
  const FRAME_AVG_TIME_US := 5_000
  const SPREAD_US := 20_000
  const DELAY_MAX_US := 50_000
  const RETRIES_MAX := 16
  const TOTAL_MAX_US := 1_000_000
  const RAND_MAX := 0x7FFF_FFFF

  type random = x: int | 0 <= x <= RAND_MAX

  datatype Status = Pass | Fail

  function Min(a: int, b: int): (m: int)
  {
    if a < b then a else b
  }

  function Sum(s: seq<int>): (n: int)
  {
    if s == [] then 0 else Sum(s[..|s| - 1]) + s[|s| - 1]
  }

  function Gap(sinceTx: int, sinceRx: int): (gap: int)
  {
    var quiet := Min(sinceTx, sinceRx);
    if quiet < INTER_FRAME_GAP_US then INTER_FRAME_GAP_US - quiet else 0
  }

  /** The delay of back-off number `j` for a random draw. */
  function Delay(j: nat, drawn: random): (delay: int)
  {
    Min(FRAME_AVG_TIME_US + drawn * SPREAD_US / RAND_MAX * Pow2(j), DELAY_MAX_US)
  }

  /** Each delay follows from its turn and its draw, and comes after a listening test that heard activity. */
  ghost predicate Delays(silence: nat -> int, draw: nat -> random, delays: seq<int>)
  {
    forall k :: 0 <= k < |delays| ==> delays[k] == Delay(k, draw(k)) && silence(k) < MIN_LISTEN_US
  }

  /** How a call can end.  `sinceTx` and `sinceRx` are the ages of the last activity at the gap test and
      `silence(k)` the receive silence seen by listening test number `k`.  The sleeps are the inter-frame
      gap, then one back-off delay after each test that heard activity. */
  ghost predicate Outcome(loopback: bool, sinceTx: int, sinceRx: int, silence: nat -> int,
                          draw: nat -> random, rc: Status, gap: int, delays: seq<int>)
  {
    && (loopback ==> rc == Pass && gap == 0 && delays == [])
    && (!loopback ==>
          && gap == Gap(sinceTx, sinceRx)
          && (rc == Pass <==> silence(|delays|) >= MIN_LISTEN_US))
    && |delays| <= RETRIES_MAX
    && (rc == Fail ==> |delays| == RETRIES_MAX)
    && Delays(silence, draw, delays)
  }

  class BusStats {
    var backoffCount: nat
    var backoffErrors: nat
    var delayMaxUs: int

    constructor ()
      ensures backoffCount == 0 && backoffErrors == 0 && delayMaxUs == 0
    {
      backoffCount, backoffErrors, delayMaxUs := 0, 0, 0;
    }

    /** The delay of back-off number `j` for the random draw `draw`. */
    method ComputeDelay(j: nat, draw: random) returns (delay: int)
      ensures delay == Delay(j, draw)
    {
      delay := draw * SPREAD_US / RAND_MAX * Pow2(j);
      delay := delay + FRAME_AVG_TIME_US;
      delay := Min(delay, DELAY_MAX_US);
    }

    /** The delay with its statistics. */
    method NextDelay(j: nat, drawn: random) returns (delay: int)
      modifies this`backoffCount, this`delayMaxUs
      ensures delay == Delay(j, drawn)
      ensures backoffCount == old(backoffCount) + 1
      ensures delayMaxUs == (if delay > old(delayMaxUs) then delay else old(delayMaxUs))
    {
      backoffCount := backoffCount + 1;
      delay := ComputeDelay(j, drawn);
      if delay > delayMaxUs {
        delayMaxUs := delay;
      }
    }

    method InterFrameGap(sinceTx: int, sinceRx: int) returns (gap: int)
      ensures gap == Gap(sinceTx, sinceRx)
    {
      gap := 0;
      var delay := Min(sinceTx, sinceRx);
      if delay < INTER_FRAME_GAP_US {
        gap := INTER_FRAME_GAP_US - delay;
      }
    }

    /** svsBdpBackoff; `draw` is the random source. */
    method Wait(loopback: bool, sinceTx: int, sinceRx: int, silence: nat -> int, draw: nat -> random)
      returns (rc: Status, gap: int, delays: seq<int>)
      modifies this
      ensures Outcome(loopback, sinceTx, sinceRx, silence, draw, rc, gap, delays)
      ensures forall k :: 0 <= k < |delays| ==> delays[k] <= delayMaxUs
      ensures delayMaxUs >= old(delayMaxUs)
      ensures backoffCount == old(backoffCount) + |delays| + (if rc == Fail then 1 else 0)
      ensures backoffErrors == old(backoffErrors) + (if rc == Fail then 1 else 0)
    {
      rc, gap, delays := Pass, 0, [];
      if loopback {
        return;
      }
      gap := InterFrameGap(sinceTx, sinceRx);
      var j := 0;
      while silence(j) < MIN_LISTEN_US
        invariant j == |delays| <= RETRIES_MAX
        invariant Delays(silence, draw, delays)
        invariant forall k :: 0 <= k < j ==> delays[k] <= delayMaxUs
        invariant delayMaxUs >= old(delayMaxUs)
        invariant backoffCount == old(backoffCount) + j && backoffErrors == old(backoffErrors)
        decreases RETRIES_MAX - j
      {
        var delay := NextDelay(j, draw(j));
        if j + 1 > RETRIES_MAX {
          backoffErrors := backoffErrors + 1;
          rc := Fail;
          return;
        }
        j := j + 1;
        delays := delays + [delay];
      }
    }
  }

  lemma Product(a: nat, b: nat, c: nat)
    requires b <= c
    ensures 0 <= a * b <= a * c
  {
  }

  lemma {:induction false} PowersGrow(j: nat, k: nat)
    requires j <= k
    ensures 1 <= Pow2(j) <= Pow2(k)
    decreases k
  {
    if k > j {
      PowersGrow(j, k - 1);
    } else if k > 0 {
      PowersGrow(k - 1, k - 1);
    }
  }

  lemma Spread(drawn: random)
    ensures 0 <= drawn * SPREAD_US / RAND_MAX <= SPREAD_US
  {
  }

  /** Every delay lies between 5 and 50 ms.  The smallest draw gives 5 ms in every turn; the largest gives 25 ms at
      first, 45 ms next and 50 ms from then on. */
  lemma DelayBounds(j: nat, drawn: random)
    ensures 5_000 <= Delay(j, drawn) <= 50_000
    ensures Delay(j, 0) == 5_000
    ensures Delay(j, RAND_MAX) == if j == 0 then 25_000 else if j == 1 then 45_000 else 50_000
  {
    Spread(drawn);
    Product(drawn * SPREAD_US / RAND_MAX, 0, Pow2(j));
    if j >= 2 {
      PowersGrow(2, j);
    }
    assert RAND_MAX * SPREAD_US / RAND_MAX == SPREAD_US;
  }

  lemma SpreadMonotone(a: random, b: random)
    requires a <= b
    ensures a * SPREAD_US / RAND_MAX <= b * SPREAD_US / RAND_MAX
  {
  }

  /** A later turn or a larger draw never gives a shorter delay, and below the limit of 50 ms each further turn
      doubles what exceeds 5 ms. */
  lemma DelayGrows(j: nat, k: nat, a: random, b: random)
    requires j <= k && a <= b
    ensures Delay(j, a) <= Delay(k, b)
    ensures Delay(j + 1, a) < 50_000 ==> Delay(j + 1, a) - 5_000 == 2 * (Delay(j, a) - 5_000)
  {
    var x, y := a * SPREAD_US / RAND_MAX, b * SPREAD_US / RAND_MAX;
    SpreadMonotone(a, b);
    Spread(a);
    PowersGrow(j, k);
    Product(x, Pow2(j), Pow2(k));
    Product(Pow2(k), x, y);
    Doubling(x, Pow2(j));
  }

  lemma Doubling(x: nat, p: nat)
    ensures x * (2 * p) == 2 * (x * p) >= x * p
  {
  }

  // ---------- the total ----------

  /** The gap waits until two milliseconds have passed since both the last sending and the last reception, and no
      longer. */
  lemma GapCompletes(sinceTx: int, sinceRx: int)
    ensures var gap := Gap(sinceTx, sinceRx);
            && gap >= 0 && sinceTx + gap >= 2_000 && sinceRx + gap >= 2_000
            && (gap > 0 ==> sinceTx + gap == 2_000 || sinceRx + gap == 2_000)
  {
  }

  /** The gap stays within its nominal length exactly when neither activity stamp lies in the future. */
  lemma GapWithinLimitIff(sinceTx: int, sinceRx: int)
    ensures (Gap(sinceTx, sinceRx) <= INTER_FRAME_GAP_US) <==> (sinceTx >= 0 && sinceRx >= 0)
  {
  }

  lemma {:induction false} SumBounds(delays: seq<int>)
    requires forall k :: 0 <= k < |delays| ==> FRAME_AVG_TIME_US <= delays[k] <= DELAY_MAX_US
    ensures FRAME_AVG_TIME_US * |delays| <= Sum(delays) <= DELAY_MAX_US * |delays|
    decreases |delays|
  {
    if delays != [] {
      SumBounds(delays[..|delays| - 1]);
    }
  }

  /** Whatever the clock and the random source do, all sleeps of one call stay within 802 ms, under the one
      second limit; outside loopback success needs 5 ms of receive silence, and a call that gives up has heard
      activity 17 times and slept for at least 80 ms. */
  lemma TotalUnderOneSecond(loopback: bool, sinceTx: nat, sinceRx: nat, silence: nat -> int,
                            draw: nat -> random, rc: Status, gap: int, delays: seq<int>)
    requires Outcome(loopback, sinceTx, sinceRx, silence, draw, rc, gap, delays)
    ensures 0 <= gap + Sum(delays) <= 802_000 < TOTAL_MAX_US
    ensures rc == Pass && !loopback ==>
              |delays| <= 16 && silence(|delays|) >= 5_000 && forall k :: 0 <= k < |delays| ==> silence(k) < 5_000
    ensures rc == Fail ==> |delays| == 16 && 80_000 <= gap + Sum(delays)
    ensures if loopback then rc == Pass && gap == 0 && delays == []
            else sinceTx + gap >= 2_000 && sinceRx + gap >= 2_000
    ensures rc == Fail ==> forall k :: 0 <= k <= 16 ==> silence(k) < 5_000
  {
    forall k | 0 <= k < |delays| ensures FRAME_AVG_TIME_US <= delays[k] <= DELAY_MAX_US { DelayBounds(k, draw(k)); }
    SumBounds(delays);
  }
}
