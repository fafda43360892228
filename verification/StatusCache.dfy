/** The user-status cache over the intrusive list (cache/hashmap.c). */
module StatusCache {
  import opened TimeVals
  import opened IntrusiveList
  import opened Links
  import opened Sequences

  const MAX_ID_LEN := 32
  const FIN_STATUS := 2
  const EXPIRED_MIN_MS := 120_000

  /** A 32-byte id field: the first 32 characters of a C string. */
  type Id = s: string | |s| <= MAX_ID_LEN

  /** strncpy into an id field; strncmp over 32 bytes compares two such fields for equality. */
  function Key(s: string): (id: Id)
  {
    if |s| <= MAX_ID_LEN then s else s[..MAX_ID_LEN]
  }

  /** _user_status */
  datatype Status = Status(userId: Id, bikeId: Id, timestamp: TimeVal, status: int, updateStatus: int)

  datatype Result = Ok | Failed | NotExpired

  function NewStatus(user: string, bike: string, status: int): (s: Status)
  {
    Status(Key(user), Key(bike), TimeVal(0, 0), status, 0)
  }

  // ---------- the operations on values ----------

  /** Position of the first record that matches, or the number of records. */
  function IndexOf(items: seq<Status>, matches: Status -> bool): (i: nat)
    ensures i <= |items|
    ensures i < |items| ==> matches(items[i])
    ensures forall k :: 0 <= k < i ==> !matches(items[k])
  {
    if items == [] then 0 else if matches(items[0]) then 0 else 1 + IndexOf(items[1..], matches)
  }

  function ByUser(user: string): (matches: Status -> bool)
  {
    (s: Status) => s.userId == Key(user)
  }

  function ByBike(bike: string): (matches: Status -> bool)
  {
    (s: Status) => s.bikeId == Key(bike)
  }

  function Drop(items: seq<Status>, i: nat): (r: seq<Status>)
    requires i <= |items|
  {
    if i == |items| then items else items[..i] + items[i + 1..]
  }

  /** hash_check_and_add_user_stauts on the record found */
  function Recheck(s: Status, bike: string, status: int, updateStatus: int, now: TimeVal, limit: int)
    : (r: (Status, Result))
  {
    if s.status == FIN_STATUS && s.updateStatus == 0 then
      if TvDiff(now, s.timestamp) <= limit then (s.(updateStatus := updateStatus), NotExpired)
      else (s.(bikeId := Key(bike), status := status), Ok)
    else (s, Failed)
  }

  datatype Op =
    | Add(user: string, bike: string, status: int)
    | CheckAndAdd(user: string, bike: string, status: int, updateStatus: int, now: TimeVal)
    | UpdateStatus(user: string, status: int, now: TimeVal)
    | UpdateProcess(user: string, status: int)
    | ForceUpdate(user: string, bike: string, status: int)
    | RemoveUser(user: string)
    | RemoveBike(bike: string)
    | RemoveExpired(clock: nat -> TimeVal)

  /** The records after an operation, `limit` being the expiry time in ms. */
  function Apply(items: seq<Status>, op: Op, limit: int): (result: (seq<Status>, Result))
  {
    match op
    case Add(user, bike, status) => (items + [NewStatus(user, bike, status)], Ok)
    case CheckAndAdd(user, bike, status, updateStatus, now) =>
      var i := IndexOf(items, ByUser(user));
      if i == |items| then (items + [NewStatus(user, bike, status)], Ok)
      else
        var (s, r) := Recheck(items[i], bike, status, updateStatus, now, limit);
        (items[i := s], r)
    case UpdateStatus(user, status, now) =>
      var i := IndexOf(items, ByUser(user));
      if i == |items| then (items, Failed)
      else (items[i := items[i].(status := status, timestamp := now)], Ok)
    case UpdateProcess(user, status) =>
      var i := IndexOf(items, ByUser(user));
      if i == |items| || items[i].status != FIN_STATUS then (items, Failed)
      else (items[i := items[i].(updateStatus := status)], Ok)
    case ForceUpdate(user, bike, status) =>
      var i := IndexOf(items, ByUser(user));
      if i == |items| || items[i].status != FIN_STATUS then (items, Failed)
      else (items[i := items[i].(bikeId := Key(bike), status := status, updateStatus := 0)], Ok)
    case RemoveUser(user) =>
      var i := IndexOf(items, ByUser(user));
      (Drop(items, i), if i == |items| then Failed else Ok)
    case RemoveBike(bike) =>
      var i := IndexOf(items, ByBike(bike));
      (Drop(items, i), if i == |items| then Failed else Ok)
    case RemoveExpired(clock) => (Sweep(items, clock, 0, limit), Ok)
  }

  /** The expiry sweep: finished records are compared with the clock, one reading each; `tick` readings have
      been taken before. */
  function Sweep(items: seq<Status>, clock: nat -> TimeVal, tick: nat, limit: int): (r: seq<Status>)
    decreases |items|
  {
    if items == [] then []
    else if items[0].status != FIN_STATUS then [items[0]] + Sweep(items[1..], clock, tick, limit)
    else if TvDiff(clock(tick), items[0].timestamp) >= limit then Sweep(items[1..], clock, tick + 1, limit)
    else [items[0]] + Sweep(items[1..], clock, tick + 1, limit)
  }

  // ---------- properties ----------

  ghost predicate Distinct(items: seq<Status>)
  {
    forall i, j :: 0 <= i < j < |items| ==> items[i].userId != items[j].userId
  }

  /** `sub` arises from `items` by leaving records out. */
  ghost predicate Subsequence(sub: seq<Status>, items: seq<Status>)
    decreases |items|
  {
    if sub == [] then true
    else if items == [] then false
    else (sub[0] == items[0] && Subsequence(sub[1..], items[1..])) || Subsequence(sub, items[1..])
  }

  predicate Expired(s: Status, now: TimeVal, limit: int)
  {
    s.status == FIN_STATUS && TvDiff(now, s.timestamp) >= limit
  }

  /** The records that are not both finished and expired, in order. */
  function Unexpired(items: seq<Status>, now: TimeVal, limit: int): (r: seq<Status>)
    decreases |items|
  {
    if items == [] then []
    else (if Expired(items[0], now, limit) then [] else [items[0]]) + Unexpired(items[1..], now, limit)
  }

  /** A sweep during which the clock stands still leaves, in order, exactly the records that are not both
      finished and expired at that time. */
  lemma {:induction false} SweepKeepsUnexpired(items: seq<Status>, clock: nat -> TimeVal, tick: nat, limit: int,
                                               now: TimeVal)
    requires forall k: nat :: clock(k) == now
    ensures Sweep(items, clock, tick, limit) == Unexpired(items, now, limit)
    decreases |items|
  {
    if items != [] {
      SweepKeepsUnexpired(items[1..], clock, tick, limit, now);
      SweepKeepsUnexpired(items[1..], clock, tick + 1, limit, now);
    }
  }

  /** Every clock reading lies between two instants. */
  ghost predicate Between(clock: nat -> TimeVal, lo: TimeVal, hi: TimeVal)
  {
    && lo.Valid() && hi.Valid()
    && forall k: nat :: clock(k).Valid() && lo.Us() <= clock(k).Us() <= hi.Us()
  }

  /** A record that has expired stays expired. */
  lemma ExpiredStays(s: Status, t: TimeVal, t': TimeVal, limit: int)
    requires t.Valid() && t'.Valid() && s.timestamp.Valid() && t.Us() <= t'.Us()
    requires Expired(s, t, limit)
    ensures Expired(s, t', limit)
  {
    DiffMonotone(t, t', s.timestamp);
  }

  /** A sweep with a running clock leaves the records in order, keeps all that have not expired when it ends,
      and none that had expired when it began. */
  lemma {:induction false} SweepBounds(items: seq<Status>, clock: nat -> TimeVal, tick: nat, limit: int,
                                       lo: TimeVal, hi: TimeVal)
    requires Between(clock, lo, hi) && forall s :: s in items ==> s.timestamp.Valid()
    ensures var r := Sweep(items, clock, tick, limit);
            && (forall s :: s in r ==> !Expired(s, lo, limit))
            && (forall s :: s in items && !Expired(s, hi, limit) ==> s in r)
    decreases |items|
  {
    if items != [] {
      var s, rest := items[0], items[1..];
      SweepBounds(rest, clock, tick, limit, lo, hi);
      SweepBounds(rest, clock, tick + 1, limit, lo, hi);
      assert s in items;
      if s.status == FIN_STATUS {
        if Expired(s, clock(tick), limit) {
          ExpiredStays(s, clock(tick), hi, limit);
        } else if Expired(s, lo, limit) {
          ExpiredStays(s, lo, clock(tick), limit);
        }
      }
      assert items == [s] + rest;
    }
  }

  lemma {:induction false} UnexpiredMembers(items: seq<Status>, now: TimeVal, limit: int, s: Status)
    ensures s in Unexpired(items, now, limit) <==> s in items && !Expired(s, now, limit)
    decreases |items|
  {
    if items != [] {
      UnexpiredMembers(items[1..], now, limit, s);
      assert items == [items[0]] + items[1..];
    }
  }

  /** The records a sweep at one instant removes. */
  lemma SweptIff(items: seq<Status>, clock: nat -> TimeVal, limit: int, now: TimeVal, s: Status)
    requires s in items && forall k: nat :: clock(k) == now
    ensures s !in Apply(items, RemoveExpired(clock), limit).0 <==> Expired(s, now, limit)
  {
    SweepKeepsUnexpired(items, clock, 0, limit, now);
    UnexpiredMembers(items, now, limit, s);
  }

  /** Check-and-add on a known user decides by the record found. */
  lemma CheckAnswers(items: seq<Status>, i: nat, user: string, bike: string, status: int, updateStatus: int,
                     now: TimeVal, limit: int)
    requires i == IndexOf(items, ByUser(user)) < |items|
    ensures Apply(items, CheckAndAdd(user, bike, status, updateStatus, now), limit).1
         == Recheck(items[i], bike, status, updateStatus, now, limit).1
  {
  }

  /** The two expiry tests compare differently: for a finished, unprocessed record, check-and-add refuses to
      replace it as not expired although a sweep at the same instant removes it, exactly when its age equals
      the limit.  The other way round they never disagree. */
  lemma ExpiryTestsDisagreeIff(items: seq<Status>, i: nat, user: string, bike: string, status: int,
                               updateStatus: int, clock: nat -> TimeVal, now: TimeVal, limit: int)
    requires forall k: nat :: clock(k) == now
    requires i == IndexOf(items, ByUser(user)) < |items|
    requires items[i].status == FIN_STATUS && items[i].updateStatus == 0
    ensures var check := Apply(items, CheckAndAdd(user, bike, status, updateStatus, now), limit).1;
            var swept := items[i] !in Apply(items, RemoveExpired(clock), limit).0;
            && (check == NotExpired && swept <==> TvDiff(now, items[i].timestamp) == limit)
            && !(check == Ok && !swept)
  {
    CheckAnswers(items, i, user, bike, status, updateStatus, now, limit);
    SweptIff(items, clock, limit, now, items[i]);
  }

  /** Whatever the clock does during the sweep, it only leaves records out, and never one that is not
      finished. */
  lemma {:induction false} SweepLeavesOut(items: seq<Status>, clock: nat -> TimeVal, tick: nat, limit: int)
    ensures var r := Sweep(items, clock, tick, limit);
            && Subsequence(r, items)
            && forall s :: s in items && s.status != FIN_STATUS ==> s in r
    decreases |items|
  {
    if items != [] {
      SweepLeavesOut(items[1..], clock, tick, limit);
      SweepLeavesOut(items[1..], clock, tick + 1, limit);
      assert items == [items[0]] + items[1..];
    }
  }

  lemma {:induction false} SubsequenceMembers(sub: seq<Status>, items: seq<Status>, s: Status)
    requires Subsequence(sub, items) && s in sub
    ensures s in items
    decreases |items|
  {
    if sub[0] == items[0] && Subsequence(sub[1..], items[1..]) {
      if s != sub[0] {
        SubsequenceMembers(sub[1..], items[1..], s);
      }
    } else {
      SubsequenceMembers(sub, items[1..], s);
    }
  }

  lemma {:induction false} SubsequenceDistinct(sub: seq<Status>, items: seq<Status>)
    requires Subsequence(sub, items) && Distinct(items)
    ensures Distinct(sub)
    decreases |items|
  {
    if sub != [] {
      assert forall i, j :: 0 <= i < j < |items[1..]| ==> items[1..][i] == items[i + 1] && items[1..][j] == items[j + 1];
      if sub[0] == items[0] && Subsequence(sub[1..], items[1..]) {
        SubsequenceDistinct(sub[1..], items[1..]);
        forall j | 1 <= j < |sub|
          ensures sub[j].userId != sub[0].userId
        {
          assert sub[j] in sub[1..];
          SubsequenceMembers(sub[1..], items[1..], sub[j]);
          var k :| 0 <= k < |items[1..]| && items[1..][k] == sub[j];
          assert items[k + 1] == sub[j];
        }
        assert forall i, j :: 1 <= i < j < |sub| ==> sub[i] == sub[1..][i - 1] && sub[j] == sub[1..][j - 1];
      } else {
        SubsequenceDistinct(sub, items[1..]);
      }
    }
  }

  lemma AppendDistinctIff(items: seq<Status>, s: Status)
    requires Distinct(items)
    ensures Distinct(items + [s]) <==> forall t :: t in items ==> t.userId != s.userId
  {
    var r := items + [s];
    forall i | 0 <= i < |items| && items[i].userId == s.userId
      ensures !Distinct(r)
    {
      assert r[i].userId == r[|items|].userId;
    }
  }

  lemma UpdateKeepsDistinct(items: seq<Status>, i: nat, s: Status)
    requires Distinct(items) && i < |items| && s.userId == items[i].userId
    ensures Distinct(items[i := s])
  {
  }

  lemma DropKeepsDistinct(items: seq<Status>, i: nat)
    requires Distinct(items) && i <= |items|
    ensures Distinct(Drop(items, i))
  {
  }

  /** Every operation but hash_add_user_status keeps the user ids pairwise distinct; that one keeps them
      distinct exactly when its id is new. */
  lemma OperationsKeepDistinct(items: seq<Status>, op: Op, limit: int)
    requires Distinct(items)
    ensures !op.Add? ==> Distinct(Apply(items, op, limit).0)
    ensures op.Add? ==>
              (Distinct(Apply(items, op, limit).0) <==> forall s :: s in items ==> s.userId != Key(op.user))
  {
    match op
    case Add(user, bike, status) =>
      AppendDistinctIff(items, NewStatus(user, bike, status));
    case RemoveExpired(clock) =>
      SweepLeavesOut(items, clock, 0, limit);
      SubsequenceDistinct(Sweep(items, clock, 0, limit), items);
    case RemoveBike(bike) =>
      DropKeepsDistinct(items, IndexOf(items, ByBike(bike)));
    case RemoveUser(user) =>
      DropKeepsDistinct(items, IndexOf(items, ByUser(user)));
    case _ =>
      UserOpKeepsDistinct(items, op, limit);
  }

  lemma UserOpKeepsDistinct(items: seq<Status>, op: Op, limit: int)
    requires Distinct(items)
    requires op.CheckAndAdd? || op.UpdateStatus? || op.UpdateProcess? || op.ForceUpdate?
    ensures Distinct(Apply(items, op, limit).0)
  {
    var i, items' := IndexOf(items, ByUser(op.user)), Apply(items, op, limit).0;
    if i < |items| {
      UpdateKeepsDistinct(items, i, items'[i]);
    } else if op.CheckAndAdd? {
      AppendDistinctIff(items, NewStatus(op.user, op.bike, op.status));
    }
  }

  function Run(items: seq<Status>, ops: seq<Op>, limit: int): (r: seq<Status>)
    decreases |ops|
  {
    if ops == [] then items else Run(Apply(items, ops[0], limit).0, ops[1..], limit)
  }

  // ---------- what an operation makes of the records it is about ----------

  /** The records that match, or those that do not, in order. */
  function Select(items: seq<Status>, matches: Status -> bool, keep: bool): (r: seq<Status>)
    decreases |items|
  {
    if items == [] then []
    else (if matches(items[0]) == keep then [items[0]] else []) + Select(items[1..], matches, keep)
  }

  lemma {:induction false} SelectJoin(a: seq<Status>, b: seq<Status>, matches: Status -> bool, keep: bool)
    ensures Select(a + b, matches, keep) == Select(a, matches, keep) + Select(b, matches, keep)
    decreases |a|
  {
    if a == [] {
      assert a + b == b;
    } else {
      SelectJoin(a[1..], b, matches, keep);
      JoinTail(a, b);
    }
  }

  lemma SelectOne(s: Status, matches: Status -> bool, keep: bool)
    ensures Select([s], matches, keep) == if matches(s) == keep then [s] else []
  {
  }

  lemma SelectAround(front: seq<Status>, s: Status, back: seq<Status>, matches: Status -> bool, keep: bool)
    ensures Select(front + ([s] + back), matches, keep)
         == Select(front, matches, keep) + ((if matches(s) == keep then [s] else []) + Select(back, matches, keep))
  {
    SelectJoin(front, [s] + back, matches, keep);
    SelectJoin([s], back, matches, keep);
    SelectOne(s, matches, keep);
  }

  lemma {:induction false} NoneSelected(items: seq<Status>, matches: Status -> bool)
    requires forall k :: 0 <= k < |items| ==> !matches(items[k])
    ensures Select(items, matches, true) == []
    decreases |items|
  {
    if items != [] {
      NoneSelected(items[1..], matches);
    }
  }

  /** The first match, replaced by another match or dropped. */
  lemma FirstMatch(items: seq<Status>, matches: Status -> bool, i: nat, s: Status)
    requires i == IndexOf(items, matches) < |items| && matches(s)
    ensures var mine := Select(items, matches, true);
            && mine != [] && mine[0] == items[i]
            && Select(items[i := s], matches, true) == [s] + mine[1..]
            && Select(Drop(items, i), matches, true) == mine[1..]
    ensures var others := Select(items, matches, false);
            Select(items[i := s], matches, false) == Select(Drop(items, i), matches, false) == others
  {
    var front, back := items[..i], items[i + 1..];
    SplitAt(items, i);
    SplitAt(items[i := s], i);
    NoneSelected(front, matches);
    SelectAround(front, items[i], back, matches, true);
    SelectAround(front, s, back, matches, true);
    SelectJoin(front, back, matches, true);
    FirstMatchOthers(front, items[i], s, back, matches);
  }

  lemma FirstMatchOthers(front: seq<Status>, t: Status, s: Status, back: seq<Status>, matches: Status -> bool)
    requires matches(s) && matches(t)
    ensures Select(front + ([s] + back), matches, false) == Select(front + ([t] + back), matches, false)
         == Select(front + back, matches, false)
  {
    SelectAround(front, s, back, matches, false);
    SelectAround(front, t, back, matches, false);
    SelectJoin(front, back, matches, false);
  }

  /** Nothing matches, and a new match joins at the end. */
  lemma NoMatch(items: seq<Status>, matches: Status -> bool)
    requires IndexOf(items, matches) == |items|
    ensures Select(items, matches, true) == []
  {
    NoneSelected(items, matches);
  }

  lemma NewMatch(items: seq<Status>, matches: Status -> bool, s: Status)
    requires matches(s)
    ensures Select(items + [s], matches, true) == Select(items, matches, true) + [s]
    ensures Select(items + [s], matches, false) == Select(items, matches, false)
  {
    SelectJoin(items, [s], matches, true);
    SelectJoin(items, [s], matches, false);
    SelectOne(s, matches, true);
    SelectOne(s, matches, false);
  }

  /** The records of one user and those of all others. */
  function Mine(items: seq<Status>, user: string): (r: seq<Status>)
  {
    Select(items, ByUser(user), true)
  }

  function Others(items: seq<Status>, user: string): (r: seq<Status>)
  {
    Select(items, ByUser(user), false)
  }

  /** An id is cut to its first 32 characters. */
  lemma KeyIsCut(s: string)
    ensures Key(s) <= s && |Key(s)| == (if |s| <= 32 then |s| else 32)
  {
  }

  /** hash_add_user_status: one more record, whatever there was. */
  lemma AddEffect(items: seq<Status>, user: string, bike: string, status: int, limit: int)
    ensures var (items', r) := Apply(items, Add(user, bike, status), limit);
            && r == Ok && Others(items', user) == Others(items, user)
            && Mine(items', user) == Mine(items, user) + [Status(Key(user), Key(bike), TimeVal(0, 0), status, 0)]
  {
    NewMatch(items, ByUser(user), NewStatus(user, bike, status));
  }

  /** hash_check_and_add_user_stauts: a new user gets a record.  A known user's first record is replaced if it is
      finished, unprocessed and older than the limit; if it is not older it only takes the process status; and
      otherwise the operation fails and nothing changes. */
  lemma CheckAndAddEffect(items: seq<Status>, user: string, bike: string, status: int, updateStatus: int,
                          now: TimeVal, limit: int)
    ensures var (items', r) := Apply(items, CheckAndAdd(user, bike, status, updateStatus, now), limit);
            var mine := Mine(items, user);
            && Others(items', user) == Others(items, user)
            && (if mine == [] then
                  r == Ok && Mine(items', user) == [Status(Key(user), Key(bike), TimeVal(0, 0), status, 0)]
                else if mine[0].status != 2 || mine[0].updateStatus != 0 then
                  r == Failed && items' == items
                else if TvDiff(now, mine[0].timestamp) <= limit then
                  r == NotExpired && Mine(items', user) == [mine[0].(updateStatus := updateStatus)] + mine[1..]
                else
                  r == Ok && Mine(items', user) == [mine[0].(bikeId := Key(bike), status := status)] + mine[1..])
  {
    var i := IndexOf(items, ByUser(user));
    if i == |items| {
      NoMatch(items, ByUser(user));
      NewMatch(items, ByUser(user), NewStatus(user, bike, status));
    } else {
      var s := Recheck(items[i], bike, status, updateStatus, now, limit).0;
      FirstMatch(items, ByUser(user), i, s);
      assert items[i := items[i]] == items;
    }
  }

  /** hash_update_user_status: the user's first record gets the status and the time. */
  lemma UpdateStatusEffect(items: seq<Status>, user: string, status: int, now: TimeVal, limit: int)
    ensures var (items', r) := Apply(items, UpdateStatus(user, status, now), limit);
            var mine := Mine(items, user);
            && Others(items', user) == Others(items, user)
            && (if mine == [] then r == Failed && items' == items
                else r == Ok && Mine(items', user) == [mine[0].(status := status, timestamp := now)] + mine[1..])
  {
    var i := IndexOf(items, ByUser(user));
    if i == |items| {
      NoMatch(items, ByUser(user));
    } else {
      FirstMatch(items, ByUser(user), i, items[i].(status := status, timestamp := now));
    }
  }

  /** hash_update_process_stauts: a finished first record gets the process status. */
  lemma UpdateProcessEffect(items: seq<Status>, user: string, status: int, limit: int)
    ensures var (items', r) := Apply(items, UpdateProcess(user, status), limit);
            var mine := Mine(items, user);
            && Others(items', user) == Others(items, user)
            && (if mine == [] || mine[0].status != 2 then r == Failed && items' == items
                else r == Ok && Mine(items', user) == [mine[0].(updateStatus := status)] + mine[1..])
  {
    var i := IndexOf(items, ByUser(user));
    if i == |items| {
      NoMatch(items, ByUser(user));
    } else {
      FirstMatch(items, ByUser(user), i, items[i].(updateStatus := status));
    }
  }

  /** hash_force_update_user_stauts: a finished first record is taken over for another bike, unprocessed. */
  lemma ForceUpdateEffect(items: seq<Status>, user: string, bike: string, status: int, limit: int)
    ensures var (items', r) := Apply(items, ForceUpdate(user, bike, status), limit);
            var mine := Mine(items, user);
            && Others(items', user) == Others(items, user)
            && (if mine == [] || mine[0].status != 2 then r == Failed && items' == items
                else
                  && r == Ok
                  && Mine(items', user)
                       == [mine[0].(bikeId := Key(bike), status := status, updateStatus := 0)] + mine[1..])
  {
    var i := IndexOf(items, ByUser(user));
    if i == |items| {
      NoMatch(items, ByUser(user));
    } else {
      FirstMatch(items, ByUser(user), i, items[i].(bikeId := Key(bike), status := status, updateStatus := 0));
    }
  }

  /** hash_remove_user_status: the user's first record goes. */
  lemma RemoveUserEffect(items: seq<Status>, user: string, limit: int)
    ensures var (items', r) := Apply(items, RemoveUser(user), limit);
            var mine := Mine(items, user);
            && Others(items', user) == Others(items, user)
            && (if mine == [] then r == Failed && items' == items
                else r == Ok && Mine(items', user) == mine[1..])
  {
    var i := IndexOf(items, ByUser(user));
    if i == |items| {
      NoMatch(items, ByUser(user));
    } else {
      FirstMatch(items, ByUser(user), i, items[i]);
    }
  }

  /** hash_remove_bike_status: the first record with the bike goes. */
  lemma RemoveBikeEffect(items: seq<Status>, bike: string, limit: int)
    ensures var (items', r) := Apply(items, RemoveBike(bike), limit);
            var mine := Select(items, ByBike(bike), true);
            && Select(items', ByBike(bike), false) == Select(items, ByBike(bike), false)
            && (if mine == [] then r == Failed && items' == items
                else r == Ok && Select(items', ByBike(bike), true) == mine[1..])
  {
    var i := IndexOf(items, ByBike(bike));
    if i == |items| {
      NoMatch(items, ByBike(bike));
    } else {
      FirstMatch(items, ByBike(bike), i, items[i]);
    }
  }

  /** Who owns a record, and which bike it is for. */
  lemma OwnersAndBikes(s: Status, user: string, bike: string)
    ensures ByUser(user)(s) <==> s.userId == Key(user)
    ensures ByBike(bike)(s) <==> s.bikeId == Key(bike)
  {
  }

  /** An operation for one user leaves the records of all other users as they are, in their order. */
  lemma OthersUntouched(items: seq<Status>, op: Op, limit: int)
    requires !op.RemoveBike? && !op.RemoveExpired?
    ensures Others(Apply(items, op, limit).0, op.user) == Others(items, op.user)
  {
    match op
    case Add(user, bike, status) => AddEffect(items, user, bike, status, limit);
    case CheckAndAdd(user, bike, status, updateStatus, now) =>
      CheckAndAddEffect(items, user, bike, status, updateStatus, now, limit);
    case UpdateStatus(user, status, now) => UpdateStatusEffect(items, user, status, now, limit);
    case UpdateProcess(user, status) => UpdateProcessEffect(items, user, status, limit);
    case ForceUpdate(user, bike, status) => ForceUpdateEffect(items, user, bike, status, limit);
    case RemoveUser(user) => RemoveUserEffect(items, user, limit);
  }

  lemma {:induction false} RunKeepsDistinct(items: seq<Status>, ops: seq<Op>, limit: int)
    requires Distinct(items)
    requires forall op :: op in ops ==> !op.Add?
    ensures Distinct(Run(items, ops, limit))
    decreases |ops|
  {
    if ops != [] {
      OperationsKeepDistinct(items, ops[0], limit);
      RunKeepsDistinct(Apply(items, ops[0], limit).0, ops[1..], limit);
    }
  }

  // ---------- the cache in place ----------

  class Cache {
    const list: List<Status>
    var expiredMs: int

    /** The list is sound, and records never expire within two minutes. */
    ghost predicate Valid()
      reads this, list, list.nodes
    {
      list.Valid() && expiredMs >= EXPIRED_MIN_MS
    }

    ghost function Items(): (items: seq<Status>)
      reads this, list
    {
      list.vals
    }

    /** hash_init */
    constructor ()
      ensures Valid() && Items() == [] && fresh(list) && expiredMs == EXPIRED_MIN_MS
    {
      list := new List<Status>();
      expiredMs := EXPIRED_MIN_MS;
    }

    /** hash_setup_expired_time: only more than two minutes are accepted. */
    method SetExpiry(seconds: int)
      requires Valid()
      modifies this`expiredMs
      ensures Valid()
      ensures expiredMs == (if seconds * 1_000 > EXPIRED_MIN_MS then seconds * 1_000 else old(expiredMs))
    {
      if seconds * 1_000 > EXPIRED_MIN_MS {
        expiredMs := seconds * 1_000;
      }
    }

    method Append(s: Status)
      requires Valid()
      modifies list, list.nodes
      ensures Valid() && Items() == old(Items()) + [s]
    {
      var node := new Node(s);
      list.RPush(node);
    }

    method Overwrite(node: Node<Status>, ghost i: nat, s: Status)
      requires Valid() && i < |list.nodes| && list.nodes[i] == node
      modifies node`val, list`vals
      ensures Valid() && Items() == old(Items())[i := s]
    {
      list.SetVal(node, i, s);
    }

    method FindFirst(matches: Status -> bool) returns (node: Node?<Status>, ghost i: nat)
      requires Valid()
      ensures i == IndexOf(Items(), matches)
      ensures node == (if i < |list.nodes| then list.nodes[i] else null)
    {
      node, i := list.Find(matches);
    }

    /** hash_add_user_status */
    method AddUserStatus(user: string, bike: string, status: int) returns (r: Result)
      requires Valid()
      modifies list, list.nodes
      ensures Valid() && (Items(), r) == Apply(old(Items()), Add(user, bike, status), expiredMs)
    {
      Append(NewStatus(user, bike, status));
      r := Ok;
    }

    /** hash_check_and_add_user_stauts */
    method CheckAndAddUserStatus(user: string, bike: string, status: int, updateStatus: int, now: TimeVal)
      returns (r: Result)
      requires Valid()
      modifies list, list.nodes
      ensures Valid()
      ensures (Items(), r) == Apply(old(Items()), CheckAndAdd(user, bike, status, updateStatus, now), expiredMs)
    {
      var node, i := FindFirst(ByUser(user));
      if node == null {
        Append(NewStatus(user, bike, status));
        return Ok;
      }
      var s := node.val;
      assert Items()[i] == s && ByUser(user)(s);
      assert Items()[i := s] == Items();
      if s.status == FIN_STATUS && s.updateStatus == 0 {
        if TvDiff(now, s.timestamp) <= expiredMs {
          Overwrite(node, i, s.(updateStatus := updateStatus));
          r := NotExpired;
        } else {
          Overwrite(node, i, s.(userId := Key(user), bikeId := Key(bike), status := status));
          r := Ok;
        }
      } else {
        r := Failed;
      }
    }

    /** hash_update_user_status */
    method UpdateUserStatus(user: string, status: int, now: TimeVal) returns (r: Result)
      requires Valid()
      modifies list`vals, list.nodes
      ensures Valid() && (Items(), r) == Apply(old(Items()), UpdateStatus(user, status, now), expiredMs)
    {
      var node, i := FindFirst(ByUser(user));
      if node == null {
        return Failed;
      }
      Overwrite(node, i, node.val.(status := status, timestamp := now));
      r := Ok;
    }

    /** hash_update_process_stauts */
    method UpdateProcessStatus(user: string, status: int) returns (r: Result)
      requires Valid()
      modifies list`vals, list.nodes
      ensures Valid() && (Items(), r) == Apply(old(Items()), UpdateProcess(user, status), expiredMs)
    {
      var node, i := FindFirst(ByUser(user));
      if node == null || node.val.status != FIN_STATUS {
        return Failed;
      }
      Overwrite(node, i, node.val.(updateStatus := status));
      r := Ok;
    }

    /** hash_force_update_user_stauts */
    method ForceUpdateUserStatus(user: string, bike: string, status: int) returns (r: Result)
      requires Valid()
      modifies list`vals, list.nodes
      ensures Valid() && (Items(), r) == Apply(old(Items()), ForceUpdate(user, bike, status), expiredMs)
    {
      var node, i := FindFirst(ByUser(user));
      if node == null || node.val.status != FIN_STATUS {
        return Failed;
      }
      Overwrite(node, i, node.val.(userId := Key(user), bikeId := Key(bike), status := status, updateStatus := 0));
      r := Ok;
    }

    method RemoveNode(node: Node<Status>, ghost i: nat)
      requires Valid() && i < |list.nodes| && list.nodes[i] == node
      modifies list, list.nodes
      ensures Valid() && Kept(old(list.nodes))
      ensures list.nodes == old(list.nodes)[..i] + old(list.nodes)[i + 1..]
      ensures Items() == old(Items())[..i] + old(Items())[i + 1..]
    {
      list.Remove(node, i);
    }

    method RemoveFirst(matches: Status -> bool) returns (r: Result)
      requires Valid()
      modifies list, list.nodes
      ensures Valid()
      ensures var i := IndexOf(old(Items()), matches);
              Items() == Drop(old(Items()), i) && r == (if i == |old(Items())| then Failed else Ok)
    {
      var node, i := FindFirst(matches);
      if node == null {
        return Failed;
      }
      RemoveNode(node, i);
      r := Ok;
    }

    /** hash_remove_user_status */
    method RemoveUserStatus(user: string) returns (r: Result)
      requires Valid()
      modifies list, list.nodes
      ensures Valid() && (Items(), r) == Apply(old(Items()), RemoveUser(user), expiredMs)
    {
      r := RemoveFirst(ByUser(user));
    }

    /** hash_remove_bike_status */
    method RemoveBikeStatus(bike: string) returns (r: Result)
      requires Valid()
      modifies list, list.nodes
      ensures Valid() && (Items(), r) == Apply(old(Items()), RemoveBike(bike), expiredMs)
    {
      r := RemoveFirst(ByBike(bike));
    }

    /** What a sweep that has reached record `i` will leave. */
    ghost function Outlook(i: nat, clock: nat -> TimeVal, tick: nat): (items: seq<Status>)
      reads this, list
      requires i <= |list.vals|
    {
      Items()[..i] + Sweep(Items()[i..], clock, tick, expiredMs)
    }

    /** The clock is read for finished records only. */
    method IsExpired(s: Status, clock: nat -> TimeVal, tick: nat) returns (gone: bool, tick': nat)
      ensures tick' == (if s.status == FIN_STATUS then tick + 1 else tick)
      ensures gone == (s.status == FIN_STATUS && TvDiff(clock(tick), s.timestamp) >= expiredMs)
    {
      gone, tick' := false, tick;
      if s.status == FIN_STATUS {
        gone := TvDiff(clock(tick), s.timestamp) >= expiredMs;
        tick' := tick + 1;
      }
    }

    /** The record at position `i`, from which the iterator has already moved on. */
    method SweepNode(node: Node<Status>, clock: nat -> TimeVal, tick: nat, ghost i: nat)
      returns (tick': nat, ghost i': nat)
      requires Valid() && i < |list.nodes| && list.nodes[i] == node
      modifies list, list.nodes
      ensures Valid() && Kept(old(list.nodes)) && i' <= |list.nodes|
      ensures Outlook(i', clock, tick') == old(Outlook(i, clock, tick))
      ensures |list.nodes| - i' == old(|list.nodes|) - i - 1
      ensures i + 1 < old(|list.nodes|) ==> i' < |list.nodes| && list.nodes[i'] == old(list.nodes)[i + 1]
    {
      hide Sweep, TvDiff;
      ghost var items := Items();
      SweepHead(items, i, clock, tick, expiredMs);
      var gone;
      gone, tick' := IsExpired(node.val, clock, tick);
      if gone {
        RemoveNode(node, i);
        CutAt(items, i);
        i' := i;
      } else {
        i' := i + 1;
      }
    }

    ghost predicate Ahead(it: Iterator<Status>, i: nat)
      reads list, it
    {
      i <= |list.nodes| && it.fromHead && it.next == (if i < |list.nodes| then list.nodes[i] else null)
    }

    /** One turn of the sweep: the iterator moves on, then the node it handed out may be freed. */
    method SweepStep(it: Iterator<Status>, clock: nat -> TimeVal, tick: nat, ghost i: nat)
      returns (more: bool, tick': nat, ghost i': nat)
      requires Valid() && Ahead(it, i)
      modifies it, list, list.nodes
      ensures Valid() && Kept(old(list.nodes)) && Ahead(it, i')
      ensures Outlook(i', clock, tick') == old(Outlook(i, clock, tick))
      ensures more ==> |list.nodes| - i' < old(|list.nodes|) - i
      ensures !more ==> i' == |list.nodes|
    {
      tick', i' := tick, i;
      if i < |list.nodes| {
        list.Neighbours(i);
      }
      var node := it.Next();
      more := node != null;
      if node != null {
        ghost var next := it.next;
        tick', i' := SweepNode(node, clock, tick, i);
        assert it.next == next;
      }
    }

    /** The sweeping loop; `goal` is what it is to leave. */
    method SweepAll(it: Iterator<Status>, clock: nat -> TimeVal, ghost goal: seq<Status>)
      requires Valid() && Ahead(it, 0) && Outlook(0, clock, 0) == goal
      modifies it, list, list.nodes
      ensures Valid() && Items() == goal
    {
      var more, tick: nat := true, 0;
      ghost var i: nat := 0;
      while more
        invariant Valid() && Kept(old(list.nodes)) && Ahead(it, i)
        invariant Outlook(i, clock, tick) == goal
        invariant !more ==> i == |list.nodes|
        decreases |list.nodes| - i, more
      {
        more, tick, i := SweepStep(it, clock, tick, i);
      }
      SweepEnd(Items(), clock, tick, expiredMs);
    }

    /** hash_remove_expired_status; `clock` is read once for each finished record. */
    method RemoveExpiredStatus(clock: nat -> TimeVal)
      requires Valid()
      modifies list, list.nodes
      ensures Valid()
      ensures Items() == Apply(old(Items()), RemoveExpired(clock), expiredMs).0
    {
      ghost var goal := Sweep(Items(), clock, 0, expiredMs);
      SweepStart(Items(), goal);
      var it := new Iterator(list.head, true);
      SweepAll(it, clock, goal);
    }

    ghost predicate Kept(before: seq<Node<Status>>)
      reads list
    {
      forall k :: 0 <= k < |list.nodes| ==> list.nodes[k] in before
    }
  }

  lemma SweepStart(items: seq<Status>, rest: seq<Status>)
    ensures items[0..] == items && items[..0] + rest == rest
  {
  }

  lemma SweepEnd(items: seq<Status>, clock: nat -> TimeVal, tick: nat, limit: int)
    ensures items[..|items|] + Sweep(items[|items|..], clock, tick, limit) == items
  {
  }

  lemma CutAt(items: seq<Status>, i: nat)
    requires i < |items|
    ensures (items[..i] + items[i + 1..])[..i] == items[..i]
    ensures (items[..i] + items[i + 1..])[i..] == items[i + 1..]
  {
  }

  /** One record of the sweep. */
  lemma SweepHead(items: seq<Status>, i: nat, clock: nat -> TimeVal, tick: nat, limit: int)
    requires i < |items|
    ensures var s, rest := items[i], items[i + 1..];
            var all := items[..i] + Sweep(items[i..], clock, tick, limit);
            var finished := s.status == FIN_STATUS;
            var gone := finished && TvDiff(clock(tick), s.timestamp) >= limit;
            var tick' := if finished then tick + 1 else tick;
            && (gone ==> all == items[..i] + Sweep(rest, clock, tick', limit))
            && (!gone ==> all == items[..i + 1] + Sweep(rest, clock, tick', limit))
  {
    assert items[i..][1..] == items[i + 1..];
    assert items[..i + 1] == items[..i] + [items[i]];
  }
}
