/** The power sequencer of the card reader (ccr.origin/cmgrapi.c:1084-1134, 1153-1315).  Its rules: no power-up
    within five seconds of a power-down, and no power-down within one second of a power-up. */
module CardPower {
  import opened TimeVals

  const POWERON_DELAY := 5_500    // ms
  const POWERDOWN_DELAY := 2_000  // ms

  // ---------- the arithmetic of the code ----------

  /** Conversion to a 32-bit int. */
  function ToInt32(x: int): (r: int)
    ensures -0x8000_0000 <= r < 0x8000_0000
  {
    (x + 0x8000_0000) % 0x1_0000_0000 - 0x8000_0000
  }

  /** How long an operation waits, in ms, when `diff` ms have passed since the opposite one. */
  function WaitMs(diff: int, limit: int): (ms: int)
  {
    if diff >= limit then 0
    else
      var rest := ToInt32(limit - diff);
      if rest <= 0 || rest > limit then limit else rest
  }

  /** Time already passed and time waited together exceed the limit less one millisecond, although the
      difference is truncated twice: to whole milliseconds and to 32 bits. */
  lemma WaitsLongEnough(newer: TimeVal, older: TimeVal, limit: int)
    requires newer.Us() >= older.Us() && 0 < limit < 10_000
    ensures newer.Us() - older.Us() + 1_000 * WaitMs(ToInt32(TvDiff(newer, older)), limit) > 1_000 * (limit - 1)
    ensures 0 <= WaitMs(ToInt32(TvDiff(newer, older)), limit) <= limit
  {
    DiffWithinOneMs(newer, older);
    var diff := TvDiff(newer, older);
    if diff >= 0x8000_0000 {
      assert newer.Us() - older.Us() > 1_000 * limit;
    }
  }

  /** Exactly when time passed and time waited together fall short of the limit: the microseconds of the later
      instant are behind those of the earlier one by other than whole milliseconds, and the limit had not
      passed already. */
  lemma WaitFallsShortIff(newer: TimeVal, older: TimeVal, limit: int)
    requires newer.Us() >= older.Us() && 0 < limit < 10_000
    ensures (newer.Us() - older.Us() + 1_000 * WaitMs(ToInt32(TvDiff(newer, older)), limit) < 1_000 * limit)
        <==> (newer.usec < older.usec && (older.usec - newer.usec) % 1_000 != 0
              && newer.Us() - older.Us() < 1_000 * limit)
  {
    DiffWithinOneMs(newer, older);
    DiffOvercountsIff(newer, older);
    WaitCovers(TvDiff(newer, older), newer.Us() - older.Us(), limit, 0);
  }

  function Min(a: int, b: int): (m: int)
  {
    if a <= b then a else b
  }

  /** The same on numbers, with a sleep that overruns by `extra`: `diff` is the difference counted, `passed` the
      time passed. */
  lemma WaitCovers(diff: int, passed: int, limit: int, extra: nat)
    requires passed - 1_000 < 1_000 * diff < passed + 1_000 && passed >= 0 && 0 < limit < 10_000
    ensures passed + 1_000 * WaitMs(ToInt32(diff), limit) + extra < 1_000 * limit
        <==> passed + extra < 1_000 * Min(diff, limit)
  {
    assert ToInt32(diff) == diff || passed >= 1_000 * limit;
  }

  // ---------- the sequencer as a value ----------

  datatype Act = Up(at: int) | Down(at: int)

  /** The static variables of the module, the system clock and the switch commands issued so far. */
  datatype Power = Power(stampOn: TimeVal, stampOff: TimeVal, onKnown: bool, offKnown: bool, now: int,
                         log: seq<Act>)

  /** Time that passes before the first clock reading, after the sleep, and after the switch command. */
  datatype Delays = Delays(before: nat, asleep: nat, after: nat)

  datatype Op = PowerOn(d: Delays) | PowerOff(portStatus: int, d: Delays)

  function SwitchOn(p: Power, start: int, waitMs: int, d: Delays): (p': Power)
  {
    var up := start + 1_000 * waitMs + d.asleep;
    p.(stampOn := At(up + d.after), now := up + d.after, log := p.log + [Up(up)])
  }

  function SwitchOff(p: Power, start: int, waitMs: int, d: Delays): (p': Power)
  {
    var down := start + 1_000 * waitMs + d.asleep;
    p.(stampOff := At(down + d.after), offKnown := true, now := down + d.after, log := p.log + [Down(down)])
  }

  /** ccr_power_on: the port status it reads is overwritten with 0. */
  function StepOn(p: Power, d: Delays): (p': Power)
  {
    var start := p.now + d.before;
    if !p.offKnown then
      SwitchOn(p.(stampOff := At(start)), start, POWERON_DELAY, d).(offKnown := true)
    else
      var diff := ToInt32(TvDiff(At(start), p.stampOff));
      SwitchOn(p, start, WaitMs(diff, POWERON_DELAY), d).(onKnown := true)
  }

  /** ccr_power_off */
  function StepOff(p: Power, portStatus: int, d: Delays): (p': Power)
  {
    var start := p.now + d.before;
    if portStatus == 1 then
      if !p.onKnown then
        SwitchOff(p.(stampOn := At(start), onKnown := true), start, POWERDOWN_DELAY, d)
      else
        var diff := ToInt32(TvDiff(At(start), p.stampOn));
        SwitchOff(p, start, WaitMs(diff, POWERDOWN_DELAY), d)
    else if !p.onKnown then
      p.(stampOff := At(start), onKnown := true, now := start)
    else
      p.(now := start)
  }

  function Apply(p: Power, op: Op): (p': Power)
  {
    match op
    case PowerOn(d) => StepOn(p, d)
    case PowerOff(portStatus, d) => StepOff(p, portStatus, d)
  }

  function Initial(now: nat): (p: Power)
  {
    Power(TimeVal(0, 0), TimeVal(0, 0), false, false, now, [])
  }

  /** A run of the module loaded at time `boot`. */
  function Run(boot: nat, ops: seq<Op>): (p: Power)
    decreases |ops|
  {
    if ops == [] then Initial(boot) else Apply(Run(boot, ops[..|ops| - 1]), ops[|ops| - 1])
  }

  // ---------- safety ----------

  /** Every power-up keeps its distance from every earlier power-down, and the other way round. */
  ghost predicate Safe(log: seq<Act>)
  {
    && (forall i, j :: 0 <= i < j < |log| && log[i].Down? && log[j].Up? ==> log[j].at - log[i].at > 5_499_000)
    && (forall i, j :: 0 <= i < j < |log| && log[i].Up? && log[j].Down? ==> log[j].at - log[i].at > 1_999_000)
  }

  /** The stamps lie in the past. */
  ghost predicate StampsOk(p: Power)
  {
    && p.stampOn.Valid() && p.stampOff.Valid()
    && 0 <= p.stampOn.Us() <= p.now && 0 <= p.stampOff.Us() <= p.now
  }

  ghost predicate Inv(p: Power)
  {
    && StampsOk(p)
    && (forall i :: 0 <= i < |p.log| && p.log[i].Up? ==> p.log[i].at <= p.stampOn.Us())
    && (forall i :: 0 <= i < |p.log| && p.log[i].Down? ==> p.offKnown && p.log[i].at <= p.stampOff.Us())
    && Safe(p.log)
  }

  lemma SwitchOnKeeps(p: Power, start: int, waitMs: nat, d: Delays)
    requires Inv(p) && start >= p.now
    requires start + 1_000 * waitMs - p.stampOff.Us() > 5_499_000
    ensures Inv(SwitchOn(p, start, waitMs, d))
  {
  }

  lemma SwitchOffKeeps(p: Power, start: int, waitMs: nat, d: Delays)
    requires Inv(p) && start >= p.now
    requires start + 1_000 * waitMs - p.stampOn.Us() > 1_999_000
    ensures Inv(SwitchOff(p, start, waitMs, d))
  {
  }

  lemma StepOnKeeps(p: Power, d: Delays)
    requires Inv(p)
    ensures Inv(StepOn(p, d))
  {
    var start := p.now + d.before;
    if p.offKnown {
      WaitsLongEnough(At(start), p.stampOff, POWERON_DELAY);
      SwitchOnKeeps(p, start, WaitMs(ToInt32(TvDiff(At(start), p.stampOff)), POWERON_DELAY), d);
    } else {
      SwitchOnKeeps(p.(stampOff := At(start), now := start), start, POWERON_DELAY, d);
    }
  }

  /** A power-down after a known power-up. */
  lemma LaterOffKeeps(p: Power, d: Delays)
    requires Inv(p) && p.onKnown
    ensures Inv(StepOff(p, 1, d))
  {
    var start := p.now + d.before;
    WaitsLongEnough(At(start), p.stampOn, POWERDOWN_DELAY);
    SwitchOffKeeps(p, start, WaitMs(ToInt32(TvDiff(At(start), p.stampOn)), POWERDOWN_DELAY), d);
  }

  /** The first power-down waits the full time. */
  lemma FirstOffKeeps(p: Power, d: Delays)
    requires Inv(p) && !p.onKnown
    ensures Inv(StepOff(p, 1, d))
  {
    var start := p.now + d.before;
    SwitchOffKeeps(p.(stampOn := At(start), onKnown := true, now := start), start, POWERDOWN_DELAY, d);
  }

  lemma StepOffKeeps(p: Power, portStatus: int, d: Delays)
    requires Inv(p)
    ensures Inv(StepOff(p, portStatus, d))
  {
    if portStatus == 1 {
      if p.onKnown {
        LaterOffKeeps(p, d);
      } else {
        FirstOffKeeps(p, d);
      }
    }
  }

  lemma {:induction false} RunKeepsInv(boot: nat, ops: seq<Op>)
    ensures Inv(Run(boot, ops))
    decreases |ops|
  {
    if ops != [] {
      var p := Run(boot, ops[..|ops| - 1]);
      RunKeepsInv(boot, ops[..|ops| - 1]);
      match ops[|ops| - 1]
      case PowerOn(d) => StepOnKeeps(p, d);
      case PowerOff(portStatus, d) => StepOffKeeps(p, portStatus, d);
    }
  }

  /** In every run of power-ups and power-downs with a clock that does not run backwards, a power-up comes
      more than 5499 ms after every earlier power-down and a power-down more than 1999 ms after every earlier
      power-up. */
  lemma PowerRulesHold(boot: nat, ops: seq<Op>)
    ensures Safe(Run(boot, ops).log)
  {
    RunKeepsInv(boot, ops);
  }

  /** Exactly when a power-up comes less than the configured 5500 ms after the last power-down was stamped:
      when the sleep overruns by less than the time counted in excess. */
  lemma PowerOnFallsShortIff(p: Power, d: Delays)
    requires StampsOk(p) && p.offKnown
    ensures var log, start := StepOn(p, d).log, At(p.now + d.before);
            && log == p.log + [log[|p.log|]] && log[|p.log|].Up?
            && (log[|p.log|].at - p.stampOff.Us() < 1_000 * POWERON_DELAY
                <==> start.Us() - p.stampOff.Us() + d.asleep < 1_000 * Min(TvDiff(start, p.stampOff), POWERON_DELAY))
  {
    var start := At(p.now + d.before);
    DiffWithinOneMs(start, p.stampOff);
    WaitCovers(TvDiff(start, p.stampOff), start.Us() - p.stampOff.Us(), POWERON_DELAY, d.asleep);
  }

  /** The same for a power-down and its 2000 ms. */
  lemma PowerOffFallsShortIff(p: Power, d: Delays)
    requires StampsOk(p) && p.onKnown
    ensures var log, start := StepOff(p, 1, d).log, At(p.now + d.before);
            && log == p.log + [log[|p.log|]] && log[|p.log|].Down?
            && (log[|p.log|].at - p.stampOn.Us() < 1_000 * POWERDOWN_DELAY
                <==> start.Us() - p.stampOn.Us() + d.asleep < 1_000 * Min(TvDiff(start, p.stampOn), POWERDOWN_DELAY))
  {
    var start := At(p.now + d.before);
    DiffWithinOneMs(start, p.stampOn);
    WaitCovers(TvDiff(start, p.stampOn), start.Us() - p.stampOn.Us(), POWERDOWN_DELAY, d.asleep);
  }

  /** The lost millisecond is real: a run whose power-up follows its power-down after 5499.001 ms. */
  lemma TruncationCutsShort() returns (boot: nat, ops: seq<Op>)
    ensures var log := Run(boot, ops).log;
            log == [Down(2_999_001), Up(8_498_002)] && 8_498_002 - 2_999_001 == 5_499_001 < 1_000 * POWERON_DELAY
  {
    var off, on := Delays(0, 0, 0), Delays(5_499_001, 0, 0);
    boot, ops := 999_001, [PowerOff(1, off), PowerOn(on)];
    assert ops[..1] == [PowerOff(1, off)] && ops[..1][..0] == [];
    var p := StepOff(Initial(boot), 1, off);
    assert p == Power(TimeVal(0, 999_001), TimeVal(2, 999_001), true, true, 2_999_001, [Down(2_999_001)]);
    assert Run(boot, ops[..1]) == p;
    var q := StepOn(p, on);
    assert TvDiff(At(8_498_002), p.stampOff) == POWERON_DELAY;
    assert q.log == p.log + [Up(8_498_002)];
  }

  // ---------- what each operation does ----------

  /** How long a wait can be: never longer than the limit, and, as long as fewer than 2^31 milliseconds have
      passed, less than a millisecond longer than what is missing. */
  lemma WaitsNotTooLong(newer: TimeVal, older: TimeVal, limit: int)
    requires newer.Us() >= older.Us() && 0 < limit < 10_000
    ensures var passed, wait := newer.Us() - older.Us(), 1_000 * WaitMs(ToInt32(TvDiff(newer, older)), limit);
            && 0 <= wait <= 1_000 * limit
            && (passed < 2_147_483_647_000 && wait > 0 ==> passed + wait < 1_000 * (limit + 1))
  {
    WaitsLongEnough(newer, older, limit);
    DiffWithinOneMs(newer, older);
    if newer.Us() - older.Us() < 2_147_483_647_000 {
      WaitBounded(TvDiff(newer, older), newer.Us() - older.Us(), limit);
    }
  }

  lemma WaitBounded(diff: int, passed: int, limit: int)
    requires passed - 1_000 < 1_000 * diff < passed + 1_000 && 0 < limit < 10_000
    requires 0 <= passed < 2_147_483_647_000
    ensures WaitMs(ToInt32(diff), limit) > 0 ==> passed + 1_000 * WaitMs(ToInt32(diff), limit) < 1_000 * (limit + 1)
  {
    assert ToInt32(diff) == diff;
  }

  /** The bound on the time passed is needed, since the difference is kept in 32 bits: when at least the limit
      has passed, there is still a wait exactly when the milliseconds passed, modulo 2^32, lie below the limit or
      from 2^31 on. */
  lemma NeedlessWaitIff(diff: int, limit: int)
    requires 0 < limit <= diff && limit < 10_000
    ensures WaitMs(ToInt32(diff), limit) > 0 <==> !(limit <= diff % 4_294_967_296 < 2_147_483_648)
  {
    ToInt32Parts(diff);
  }

  lemma ToInt32Parts(x: int)
    ensures ToInt32(x) == (if x % 4_294_967_296 < 2_147_483_648 then x % 4_294_967_296
                           else x % 4_294_967_296 - 4_294_967_296)
  {
  }

  /** After 2^31 milliseconds, nearly 25 days, the full time is waited although nothing is missing. */
  lemma LongIdleWaits() returns (newer: TimeVal, older: TimeVal)
    ensures newer.Us() - older.Us() == 2_147_483_648_000
    ensures WaitMs(ToInt32(TvDiff(newer, older)), POWERON_DELAY) == 5_500
  {
    newer, older := TimeVal(2_147_483, 648_000), TimeVal(0, 0);
    var diff := TvDiff(newer, older);
    assert diff == 2_147_483_648;
    assert diff % 4_294_967_296 == diff;
    ToInt32Parts(diff);
  }

  /** ccr_power_on, from any state: the reader is switched on exactly once, at a time `at`.  The first time
      this is the full 5.5 s and the delays given after the call; later it is no sooner than the call, no later
      than 5.5 s and the delays after it, and less than a millisecond and the delays after what was missing.
      The stamp of the power-up is set; a power-down counts as known from then on, and is stamped with the time
      of the call if it was not known; the power-up counts as known if the power-down was. */
  lemma PowerOnEffect(p: Power, d: Delays)
    requires StampsOk(p)
    ensures var p' := StepOn(p, d);
            && |p'.log| == |p.log| + 1 && p'.log[..|p.log|] == p.log && p'.log[|p.log|].Up?
            && p'.now == p'.log[|p.log|].at + d.after
    ensures var at, start := StepOn(p, d).log[|p.log|].at, p.now + d.before;
            && start + d.asleep <= at <= start + 5_500_000 + d.asleep
            && (!p.offKnown ==> at == start + 5_500_000 + d.asleep)
            && (p.offKnown && start - p.stampOff.Us() < 2_147_483_647_000 && at > start + d.asleep ==>
                  at < p.stampOff.Us() + 5_501_000 + d.asleep)
    ensures var p', start := StepOn(p, d), p.now + d.before;
            && p'.stampOn.Us() == p'.now && p'.stampOn.Valid()
            && p'.offKnown
            && p'.stampOff == (if p.offKnown then p.stampOff else At(start))
            && p'.onKnown == (p.onKnown || p.offKnown)
  {
    if p.offKnown {
      WaitsNotTooLong(At(p.now + d.before), p.stampOff, POWERON_DELAY);
    }
  }

  /** ccr_power_off with the port on: the reader is switched off exactly once; the first time after the full 2 s,
      later within the bounds that power-up has.  Both operations count as known from then on. */
  lemma PowerOffEffect(p: Power, d: Delays)
    requires StampsOk(p)
    ensures var p' := StepOff(p, 1, d);
            && |p'.log| == |p.log| + 1 && p'.log[..|p.log|] == p.log && p'.log[|p.log|].Down?
            && p'.now == p'.log[|p.log|].at + d.after
    ensures var at, start := StepOff(p, 1, d).log[|p.log|].at, p.now + d.before;
            && start + d.asleep <= at <= start + 2_000_000 + d.asleep
            && (!p.onKnown ==> at == start + 2_000_000 + d.asleep)
            && (p.onKnown && start - p.stampOn.Us() < 2_147_483_647_000 && at > start + d.asleep ==>
                  at < p.stampOn.Us() + 2_001_000 + d.asleep)
    ensures var p', start := StepOff(p, 1, d), p.now + d.before;
            && p'.stampOff.Us() == p'.now && p'.stampOff.Valid()
            && p'.offKnown && p'.onKnown
            && p'.stampOn == (if p.onKnown then p.stampOn else At(start))
  {
    if p.onKnown {
      WaitsNotTooLong(At(p.now + d.before), p.stampOn, POWERDOWN_DELAY);
    }
  }

  /** ccr_power_off with the port not on switches nothing; the first time it stamps the power-down and marks the
      power-up as known. */
  lemma PowerOffIdle(p: Power, portStatus: int, d: Delays)
    requires portStatus != 1
    ensures var p' := StepOff(p, portStatus, d);
            && p'.log == p.log && p'.now == p.now + d.before && p'.stampOn == p.stampOn
            && p'.offKnown == p.offKnown && p'.onKnown
            && p'.stampOff == (if p.onKnown then p.stampOff else At(p'.now))
  {
  }

  /** The commands the operations of a run are to give. */
  function Commands(ops: seq<Op>): (ups: seq<bool>)
    decreases |ops|
  {
    if ops == [] then []
    else
      Commands(ops[..|ops| - 1]) +
      match ops[|ops| - 1]
      case PowerOn(_) => [true]
      case PowerOff(portStatus, _) => if portStatus == 1 then [false] else []
  }

  /** In every run each power-up is carried out, each power-down exactly if the port is on, in order and nothing
      else. */
  lemma {:induction false} EveryCommandGiven(boot: nat, ops: seq<Op>)
    ensures var log, ups := Run(boot, ops).log, Commands(ops);
            |log| == |ups| && forall i :: 0 <= i < |log| ==> log[i].Up? == ups[i]
    decreases |ops|
  {
    if ops != [] {
      var p := Run(boot, ops[..|ops| - 1]);
      EveryCommandGiven(boot, ops[..|ops| - 1]);
      RunKeepsInv(boot, ops[..|ops| - 1]);
      match ops[|ops| - 1]
      case PowerOn(d) => PowerOnEffect(p, d);
      case PowerOff(portStatus, d) =>
        if portStatus == 1 {
          PowerOffEffect(p, d);
        } else {
          PowerOffIdle(p, portStatus, d);
        }
    }
  }

  // ---------- the code ----------

  class Sequencer {
    var stampOn: TimeVal
    var stampOff: TimeVal
    var onKnown: bool
    var offKnown: bool
    var now: int              // the system clock
    ghost var log: seq<Act>   // the commands given to the power manager

    ghost function State(): (p: Power)
      reads this
    {
      Power(stampOn, stampOff, onKnown, offKnown, now, log)
    }

    constructor (boot: nat)
      ensures State() == Initial(boot)
    {
      stampOn, stampOff := TimeVal(0, 0), TimeVal(0, 0);
      onKnown, offKnown, now, log := false, false, boot, [];
    }

    method GetTimeOfDay(passed: nat) returns (tv: TimeVal)
      modifies this`now
      ensures now == old(now) + passed && tv == At(now)
    {
      now := now + passed;
      tv := At(now);
    }

    /** usleep sleeps at least as long as asked. */
    method Sleep(us: nat, extra: nat)
      modifies this`now
      ensures now == old(now) + us + extra
    {
      now := now + us + extra;
    }

    /** The part both operations share: sleep for what is missing of `limit` milliseconds since `stamp`. */
    method SleepOut(ts: TimeVal, stamp: TimeVal, limit: int, extra: nat)
      requires ts.Us() >= stamp.Us() && 0 < limit < 10_000
      modifies this`now
      ensures now == old(now) + 1_000 * WaitMs(ToInt32(TvDiff(ts, stamp)), limit) + extra
    {
      WaitsLongEnough(ts, stamp, limit);
      var diff := ToInt32(TvDiff(ts, stamp));
      if diff >= limit {
        Sleep(0, extra);
      } else {
        diff := ToInt32(limit - diff);
        if diff <= 0 || diff > limit {
          diff := limit;
        }
        Sleep(diff * 1_000, extra);
      }
    }

    /** The switch command and the stamp behind it. */
    method SwitchUp(passed: nat)
      modifies this`log, this`stampOn, this`now
      ensures log == old(log) + [Up(old(now))]
      ensures now == old(now) + passed && stampOn == At(now)
    {
      log := log + [Up(now)];
      stampOn := GetTimeOfDay(passed);
    }

    method SwitchDown(passed: nat)
      modifies this`log, this`stampOff, this`now
      ensures log == old(log) + [Down(old(now))]
      ensures now == old(now) + passed && stampOff == At(now)
    {
      log := log + [Down(now)];
      stampOff := GetTimeOfDay(passed);
    }

    /** ccr_power_on */
    method TurnOn(d: Delays)
      requires StampsOk(State())
      modifies this
      ensures State() == StepOn(old(State()), d)
    {
      if !offKnown {
        stampOff := GetTimeOfDay(d.before);
        Sleep(POWERON_DELAY * 1_000, d.asleep);
        SwitchUp(d.after);
        offKnown := true;
      } else {
        var ts := GetTimeOfDay(d.before);
        SleepOut(ts, stampOff, POWERON_DELAY, d.asleep);
        SwitchUp(d.after);
        onKnown := true;
      }
    }

    /** ccr_power_off; `portStatus` is what the power manager reports. */
    method TurnOff(portStatus: int, d: Delays)
      requires StampsOk(State())
      modifies this
      ensures State() == StepOff(old(State()), portStatus, d)
    {
      var ts := GetTimeOfDay(d.before);
      if portStatus == 1 {
        if !onKnown {
          stampOn := ts;
          onKnown := true;
          Sleep(POWERDOWN_DELAY * 1_000, d.asleep);
        } else {
          SleepOut(ts, stampOn, POWERDOWN_DELAY, d.asleep);
        }
        SwitchDown(d.after);
        offKnown := true;
      } else if !onKnown {
        stampOff := ts;
        onKnown := true;
      }
    }
  }
}
