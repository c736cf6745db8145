/**
 The per-address limiter of outgoing email (src/email/EmailSender.cpp:196-256). Times are ticks of a clock that
 does not run backwards; what is compared are whole elapsed seconds.
 */
module EmailLimiter {

  import opened Chars

  const TICKS := 1_000_000_000

  datatype Settings = Settings(minInterval: int, maxPerIP: int, duration: int)

  datatype Activity = Activity(last: nat, count: nat)

  /** Whole seconds from a to b. */
  function Seconds(a: nat, b: nat): (s: nat)
    requires a <= b
    ensures s * TICKS <= b - a < (s + 1) * TICKS
  {
    (b - a) / TICKS
  }

  lemma SecondsGrow(a: nat, b: nat, c: nat)
    requires a <= b <= c
    ensures Seconds(a, b) <= Seconds(a, c) && Seconds(b, c) <= Seconds(a, c)
  {
  }

  // ----- one address ----------------------------------------------------------------------------

  datatype Decision = Decision(allowed: bool, record: Option<Activity>)

  /** A request at `now` from an address with this record. */
  function Check(s: Settings, record: Option<Activity>, now: nat): Decision
    requires record.Some? ==> record.value.last <= now
  {
    if record.None? then Decision(true, Some(Activity(now, 1)))
    else
      var since := Seconds(record.value.last, now);
      if since < s.minInterval then Decision(false, record)
      else if record.value.count >= s.maxPerIP && since < s.duration then Decision(false, record)
      else Decision(true, Some(Activity(now, if since >= s.duration then 1 else record.value.count + 1)))
  }

  predicate Stale(s: Settings, a: Activity, now: nat)
    requires a.last <= now
  {
    Seconds(a.last, now) > s.duration * 2
  }

  function Cleaned(s: Settings, record: Option<Activity>, now: nat): Option<Activity>
    requires record.Some? ==> record.value.last <= now
  {
    if record.Some? && Stale(s, record.value, now) then None else record
  }

  // ----- whole runs -----------------------------------------------------------------------------

  datatype Event = Request(at: nat) | Cleanup(at: nat)

  datatype Run = Run(record: Option<Activity>, now: nat, accepted: seq<nat>)

  predicate Timely(r: Run) { r.record.Some? ==> r.record.value.last <= r.now }

  function Step(s: Settings, r: Run, e: Event): (next: Run)
    requires Timely(r) && r.now <= e.at
    ensures Timely(next) && next.now == e.at
  {
    match e
    case Request(at) =>
      var d := Check(s, r.record, at);
      Run(d.record, at, if d.allowed then r.accepted + [at] else r.accepted)
    case Cleanup(at) => Run(Cleaned(s, r.record, at), at, r.accepted)
  }

  predicate InTime(now: nat, events: seq<Event>)
  {
    && (forall k :: 0 <= k < |events| ==> now <= events[k].at)
    && (forall j, k :: 0 <= j < k < |events| ==> events[j].at <= events[k].at)
  }

  /** What an address has got through after these events. */
  function Steps(s: Settings, r: Run, events: seq<Event>): Run
    requires Timely(r) && InTime(r.now, events)
    decreases |events|
  {
    if events == [] then r
    else
      InTimeTail(r.now, events);
      Steps(s, Step(s, r, events[0]), events[1..])
  }

  lemma InTimeTail(now: nat, events: seq<Event>)
    requires InTime(now, events) && events != []
    ensures now <= events[0].at && InTime(events[0].at, events[1..])
  {
    var tail := events[1..];
    forall k | 0 <= k < |tail| ensures events[0].at <= tail[k].at {
      assert tail[k] == events[k + 1];
    }
    forall j, k | 0 <= j < k < |tail| ensures tail[j].at <= tail[k].at {
      assert tail[j] == events[j + 1] && tail[k] == events[k + 1];
    }
  }

  function Most(s: Settings): nat { if s.maxPerIP > 1 then s.maxPerIP else 1 }

  predicate Ordered(accepted: seq<nat>, now: nat)
  {
    && (forall k :: 0 <= k < |accepted| ==> accepted[k] <= now)
    && (forall j, k :: 0 <= j < k < |accepted| ==> accepted[j] <= accepted[k])
  }

  /** Accepted requests that span less than the tracking duration are few. */
  predicate Bounded(s: Settings, accepted: seq<nat>, now: nat)
    requires Ordered(accepted, now)
  {
    forall j, k :: 0 <= j <= k < |accepted| && Seconds(accepted[j], accepted[k]) < s.duration ==> k - j + 1 <= Most(s)
  }

  /** Consecutive accepted requests keep their distance. */
  predicate Spaced(s: Settings, accepted: seq<nat>, now: nat)
    requires Ordered(accepted, now)
  {
    forall k :: 0 < k < |accepted| ==> Seconds(accepted[k - 1], accepted[k]) >= s.minInterval
  }

  /** A record lives at least as long as the minimum interval, if there is one. */
  predicate KeepsDistance(s: Settings) { s.minInterval <= 0 || s.minInterval <= 2 * s.duration + 1 }

  /** What the record says about the requests accepted so far. */
  predicate Tells(s: Settings, r: Run)
    requires Ordered(r.accepted, r.now)
  {
    var n := |r.accepted|;
    match r.record
    case None => n > 0 ==> Seconds(r.accepted[n - 1], r.now) > s.duration * 2
    case Some(a) =>
      && n > 0 && a.last == r.accepted[n - 1] && 1 <= a.count <= Most(s)
      && forall j :: 0 <= j < n && Seconds(r.accepted[j], a.last) < s.duration ==> n - j <= a.count
  }

  predicate Good(s: Settings, r: Run)
  {
    && Timely(r) && Ordered(r.accepted, r.now) && Bounded(s, r.accepted, r.now) && Tells(s, r)
    && (KeepsDistance(s) ==> Spaced(s, r.accepted, r.now))
  }

  /** Requests accepted before, seen from a later accepted one. */
  lemma LaterSpan(s: Settings, accepted: seq<nat>, now: nat, at: nat, j: nat)
    requires Ordered(accepted, now) && now <= at && j < |accepted|
    ensures Seconds(accepted[j], at) >= Seconds(accepted[|accepted| - 1], at)
    ensures Seconds(accepted[j], accepted[|accepted| - 1]) <= Seconds(accepted[j], at)
  {
    SecondsGrow(accepted[j], accepted[|accepted| - 1], at);
  }

  lemma AcceptOrdered(accepted: seq<nat>, now: nat, at: nat)
    requires Ordered(accepted, now) && now <= at
    ensures Ordered(accepted + [at], at)
  {
  }

  /** The new record counts every request that the window ending now reaches. */
  lemma AcceptTells(s: Settings, r: Run, at: nat, j: nat)
    requires Good(s, r) && r.now <= at && Check(s, r.record, at).allowed && j < |r.accepted|
    requires Seconds(r.accepted[j], at) < s.duration
    ensures |r.accepted| - j + 1 <= Check(s, r.record, at).record.value.count
  {
    LaterSpan(s, r.accepted, r.now, at, j);
    LaterRecord(s, r, at);
  }

  lemma AcceptCount(s: Settings, r: Run, at: nat)
    requires Good(s, r) && r.now <= at && Check(s, r.record, at).allowed
    ensures var d := Check(s, r.record, at); d.record.Some? && d.record.value.last == at && 1 <= d.record.value.count <= Most(s)
  {
    hide Bounded, Spaced, Ordered;
  }

  lemma AcceptBounded(s: Settings, r: Run, at: nat)
    requires Good(s, r) && r.now <= at && Check(s, r.record, at).allowed && Ordered(r.accepted + [at], at)
    ensures Bounded(s, r.accepted + [at], at) && Tells(s, Step(s, r, Request(at)))
  {
    var acc := r.accepted + [at];
    var n := |r.accepted|;
    AcceptCount(s, r, at);
    var count := Check(s, r.record, at).record.value.count;
    forall j | 0 <= j <= n && Seconds(acc[j], at) < s.duration ensures n - j + 1 <= count {
      if j < n {
        assert acc[j] == r.accepted[j];
        AcceptTells(s, r, at, j);
      }
    }
    hide Tells, Good, Check, Most;
    GoodParts(s, r);
    forall j, k | 0 <= j <= k <= n && Seconds(acc[j], acc[k]) < s.duration ensures k - j + 1 <= Most(s) {
      if k < n {
        assert acc[j] == r.accepted[j] && acc[k] == r.accepted[k];
      }
    }
    StepTells(s, r, at, count);
  }

  lemma GoodParts(s: Settings, r: Run)
    requires Good(s, r)
    ensures Ordered(r.accepted, r.now) && Bounded(s, r.accepted, r.now)
  {
  }

  lemma StepTells(s: Settings, r: Run, at: nat, count: nat)
    requires Good(s, r) && r.now <= at && Ordered(r.accepted + [at], at)
    requires Check(s, r.record, at) == Decision(true, Some(Activity(at, count))) && 1 <= count <= Most(s)
    requires forall j :: 0 <= j <= |r.accepted| && Seconds((r.accepted + [at])[j], at) < s.duration ==> |r.accepted| - j + 1 <= count
    ensures Tells(s, Step(s, r, Request(at)))
  {
    hide Good, Check, Bounded, Spaced;
    GoodIsTimely(s, r);
  }

  lemma AcceptSpaced(s: Settings, r: Run, at: nat)
    requires Good(s, r) && r.now <= at && Check(s, r.record, at).allowed && Ordered(r.accepted + [at], at)
    requires KeepsDistance(s)
    ensures Spaced(s, r.accepted + [at], at)
  {
    var acc := r.accepted + [at];
    var n := |r.accepted|;
    if n > 0 {
      LaterRecord(s, r, at);
    }
    forall k | 0 < k <= n ensures Seconds(acc[k - 1], acc[k]) >= s.minInterval {
      assert acc[k - 1] == r.accepted[k - 1];
      if k < n {
        assert acc[k] == r.accepted[k];
      }
    }
  }

  lemma AcceptGood(s: Settings, r: Run, at: nat)
    requires Good(s, r) && r.now <= at && Check(s, r.record, at).allowed
    ensures Good(s, Step(s, r, Request(at)))
  {
    GoodParts(s, r);
    AcceptOrdered(r.accepted, r.now, at);
    AcceptBounded(s, r, at);
    if KeepsDistance(s) {
      AcceptSpaced(s, r, at);
    }
    GoodIsTimely(s, r);
    hide Tells, Bounded, Spaced, Ordered, Check, Timely, KeepsDistance;
  }

  /** How far a request is from the last accepted one. */
  lemma LaterRecord(s: Settings, r: Run, at: nat)
    requires Good(s, r) && r.now <= at && r.accepted != []
    ensures var last := r.accepted[|r.accepted| - 1];
            && last <= at
            && (r.record.None? ==> Seconds(last, at) > s.duration * 2 && Seconds(last, at) >= s.duration)
            && (r.record.Some? ==> r.record.value.last == last)
  {
    var last := r.accepted[|r.accepted| - 1];
    SecondsGrow(last, r.now, at);
  }

  lemma StepGood(s: Settings, r: Run, e: Event)
    requires Good(s, r) && r.now <= e.at
    ensures Good(s, Step(s, r, e))
  {
    match e
    case Request(at) =>
      if Check(s, r.record, at).allowed {
        AcceptGood(s, r, at);
      }
    case Cleanup(at) =>
      if r.accepted != [] {
        LaterRecord(s, r, at);
      }
  }

  lemma {:induction false} StepsGood(s: Settings, r: Run, events: seq<Event>)
    requires Good(s, r) && InTime(r.now, events)
    ensures Good(s, Steps(s, r, events))
    decreases |events|
  {
    hide Good, Step, InTime;
    if events != [] {
      InTimeTail(r.now, events);
      GoodIsTimely(s, r);
      StepGood(s, r, events[0]);
      StepsGood(s, Step(s, r, events[0]), events[1..]);
    }
  }

  lemma GoodIsTimely(s: Settings, r: Run)
    requires Good(s, r)
    ensures Timely(r)
  {
  }

  /** The run of one address, unknown at first. */
  function RunOf(s: Settings, start: nat, events: seq<Event>): Run
    requires InTime(start, events)
  {
    Steps(s, Run(None, start, []), events)
  }

  /** Over any run, clean-ups included: accepted requests that span less than the tracking duration number at most
      max(1, maxPerIP), and consecutive ones are at least minInterval apart for settings that keep the distance. */
  lemma LimiterHolds(s: Settings, start: nat, events: seq<Event>)
    requires InTime(start, events)
    ensures var r := RunOf(s, start, events);
            && Ordered(r.accepted, r.now) && Bounded(s, r.accepted, r.now)
            && (KeepsDistance(s) ==> Spaced(s, r.accepted, r.now))
  {
    hide Steps;
    StepsGood(s, Run(None, start, []), events);
  }

  ghost predicate AlwaysSpaced(s: Settings)
  {
    forall start: nat, events: seq<Event> :: InTime(start, events) ==>
      var r := RunOf(s, start, events); Ordered(r.accepted, r.now) && Spaced(s, r.accepted, r.now)
  }

  /** A request, a clean-up that forgets it, and a request at the same time as the clean-up. */
  lemma ForgottenTooSoon(s: Settings)
    requires !KeepsDistance(s)
    ensures !AlwaysSpaced(s)
  {
    var since: nat := if s.duration < 0 then 0 else 2 * s.duration + 1;
    var now := since * TICKS;
    assert Seconds(0, now) == since < s.minInterval;
    var events := [Request(0), Cleanup(now), Request(now)];
    var r0 := Run(None, 0, []);
    var r1 := Step(s, r0, events[0]);
    var r2 := Step(s, r1, events[1]);
    var r3 := Step(s, r2, events[2]);
    assert r3 == Run(Some(Activity(now, 1)), now, [0, now]);
    hide Step;
    var last, rest := [events[2]], [events[1], events[2]];
    assert last[1..] == [] && rest[1..] == last && events[1..] == rest;
    assert Steps(s, r2, last) == Steps(s, r3, []);
    assert Steps(s, r1, rest) == r3;
    assert InTime(0, events);
    assert RunOf(s, 0, events) == r3;
    assert r3.accepted[0] == 0 && r3.accepted[1] == now;
  }

  /** Accepted requests keep their distance in every run exactly for these settings. */
  lemma SpacedExactly(s: Settings)
    ensures AlwaysSpaced(s) <==> s.minInterval <= 0 || s.minInterval <= 2 * s.duration + 1
  {
    if KeepsDistance(s) {
      hide RunOf;
      forall start: nat, events: seq<Event> | InTime(start, events)
        ensures var r := RunOf(s, start, events); Ordered(r.accepted, r.now) && Spaced(s, r.accepted, r.now)
      {
        LimiterHolds(s, start, events);
      }
    } else {
      ForgottenTooSoon(s);
    }
  }

  // ----- exactly which requests are accepted ----------------------------------------------------

  /** The last k accepted requests follow each other within the tracking duration, and the one before them does not. */
  predicate StreakIs(s: Settings, accepted: seq<nat>, now: nat, k: nat)
    requires Ordered(accepted, now)
  {
    var n := |accepted|;
    && 1 <= k <= n
    && (forall i :: n - k < i < n ==> Seconds(accepted[i - 1], accepted[i]) < s.duration)
    && (k < n ==> Seconds(accepted[n - k - 1], accepted[n - k]) >= s.duration)
  }

  /** The record holds the last accepted request and the length of the streak it ends; none is held before the first
      request, and after a clean-up more than twice the tracking duration after the last one. */
  predicate RecordIs(s: Settings, r: Run)
  {
    && Timely(r) && Ordered(r.accepted, r.now)
    && var n := |r.accepted|;
       if r.record.None? then n > 0 ==> Seconds(r.accepted[n - 1], r.now) > s.duration * 2
       else n > 0 && r.record.value.last == r.accepted[n - 1] && StreakIs(s, r.accepted, r.now, r.record.value.count)
  }

  lemma StreakGrows(s: Settings, accepted: seq<nat>, now: nat, at: nat, k: nat)
    requires Ordered(accepted, now) && now <= at && StreakIs(s, accepted, now, k)
    ensures Ordered(accepted + [at], at)
    ensures var gap := Seconds(accepted[|accepted| - 1], at);
            StreakIs(s, accepted + [at], at, if gap >= s.duration then 1 else k + 1)
  {
    AcceptOrdered(accepted, now, at);
    var n, all := |accepted|, accepted + [at];
    assert forall i :: 0 <= i < n ==> all[i] == accepted[i];
    assert all[n] == at;
  }

  lemma StepRecord(s: Settings, r: Run, e: Event)
    requires RecordIs(s, r) && r.now <= e.at
    ensures RecordIs(s, Step(s, r, e))
  {
    var n := |r.accepted|;
    if n > 0 {
      SecondsGrow(r.accepted[n - 1], r.now, e.at);
    }
    if e.Request? && Check(s, r.record, e.at).allowed {
      AcceptRecord(s, r, e.at);
    } else {
      hide Seconds, StreakIs;
      KeepRecord(s, r, e);
    }
  }

  lemma KeepRecord(s: Settings, r: Run, e: Event)
    requires RecordIs(s, r) && r.now <= e.at && (e.Request? ==> !Check(s, r.record, e.at).allowed)
    requires r.accepted != [] ==> Seconds(r.accepted[|r.accepted| - 1], r.now) <= Seconds(r.accepted[|r.accepted| - 1], e.at)
    ensures RecordIs(s, Step(s, r, e))
  {
    hide Seconds;
  }

  lemma AcceptRecord(s: Settings, r: Run, at: nat)
    requires RecordIs(s, r) && r.now <= at && Check(s, r.record, at).allowed
    requires r.accepted != [] ==> Seconds(r.accepted[|r.accepted| - 1], r.now) <= Seconds(r.accepted[|r.accepted| - 1], at)
    ensures RecordIs(s, Step(s, r, Request(at)))
  {
    AcceptOrdered(r.accepted, r.now, at);
    if r.record.Some? {
      StreakGrows(s, r.accepted, r.now, at, r.record.value.count);
      hide Seconds, StreakIs, Ordered;
    } else {
      FirstStreak(s, r.accepted, r.now, at);
      hide StreakIs, Ordered;
    }
  }

  lemma FirstStreak(s: Settings, accepted: seq<nat>, now: nat, at: nat)
    requires Ordered(accepted, now) && now <= at && Ordered(accepted + [at], at)
    requires accepted != [] ==> Seconds(accepted[|accepted| - 1], at) > s.duration * 2
    ensures StreakIs(s, accepted + [at], at, 1)
  {
  }

  lemma {:induction false} StepsRecord(s: Settings, r: Run, events: seq<Event>)
    requires RecordIs(s, r) && InTime(r.now, events)
    ensures RecordIs(s, Steps(s, r, events))
    decreases |events|
  {
    hide RecordIs, Step, InTime;
    if events != [] {
      InTimeTail(r.now, events);
      RecordTimely(s, r);
      StepRecord(s, r, events[0]);
      StepsRecord(s, Step(s, r, events[0]), events[1..]);
    }
  }

  lemma RecordTimely(s: Settings, r: Run)
    requires RecordIs(s, r)
    ensures Timely(r)
  {
  }

  /** After any run a request is accepted exactly when its address has no record, or the minimum interval has passed since
      its last accepted request and, within the tracking duration of that, the streak is shorter than the limit. */
  lemma DecisionExactly(s: Settings, start: nat, events: seq<Event>, at: nat, k: nat)
    requires InTime(start, events) && RunOf(s, start, events).now <= at
    ensures var r := RunOf(s, start, events);
            && RecordIs(s, r)
            && (r.record.None? ==> Check(s, r.record, at).allowed)
            && (r.record.Some? && StreakIs(s, r.accepted, r.now, k) ==>
                  var gap := Seconds(r.accepted[|r.accepted| - 1], at);
                  (Check(s, r.record, at).allowed <==> gap >= s.minInterval && (k < s.maxPerIP || gap >= s.duration)))
  {
    hide Steps;
    StepsRecord(s, Run(None, start, []), events);
    var r := RunOf(s, start, events);
    if r.record.Some? && StreakIs(s, r.accepted, r.now, k) {
      StreakUnique(s, r.accepted, r.now, k, r.record.value.count);
    }
  }

  lemma StreakUnique(s: Settings, accepted: seq<nat>, now: nat, j: nat, k: nat)
    requires Ordered(accepted, now) && StreakIs(s, accepted, now, j) && StreakIs(s, accepted, now, k)
    ensures j == k
  {
    StreakLeast(s, accepted, now, j, k);
    StreakLeast(s, accepted, now, k, j);
  }

  lemma StreakLeast(s: Settings, accepted: seq<nat>, now: nat, j: nat, k: nat)
    requires Ordered(accepted, now) && StreakIs(s, accepted, now, j) && StreakIs(s, accepted, now, k)
    ensures j <= k
  {
    hide Seconds;
  }

  // ----- clean-up -------------------------------------------------------------------------------

  /** Nobody can tell whether a clean-up ran: later requests are decided the same way and leave the same record. */
  ghost predicate CleanupInvisible(s: Settings)
  {
    forall a: Activity, now: nat, later: nat :: a.last <= now <= later ==>
      Check(s, Cleaned(s, Some(a), now), later) == Check(s, Some(a), later)
  }

  lemma CleanupShows(s: Settings)
    requires !KeepsDistance(s)
    ensures !CleanupInvisible(s)
  {
    var since: nat := if s.duration < 0 then 0 else 2 * s.duration + 1;
    var a := Activity(0, 1);
    var now := since * TICKS;
    assert Seconds(0, now) == since;
    assert Stale(s, a, now);
    assert Check(s, None, now).allowed && !Check(s, Some(a), now).allowed;
    assert Cleaned(s, Some(a), now) == None;
  }

  /** Clean-up is invisible exactly for these settings. */
  lemma CleanupInvisibleExactly(s: Settings)
    ensures CleanupInvisible(s) <==> s.minInterval <= 0 || s.minInterval <= 2 * s.duration + 1
  {
    if KeepsDistance(s) {
      forall a: Activity, now: nat, later: nat | a.last <= now <= later
        ensures Check(s, Cleaned(s, Some(a), now), later) == Check(s, Some(a), later)
      {
        SecondsGrow(a.last, now, later);
      }
    } else {
      CleanupShows(s);
    }
  }

  // ----- the object -----------------------------------------------------------------------------

  class SpamProtection {
    var ipTracking: map<string, Activity>
    const settings: Settings

    constructor (settings: Settings)
      ensures this.settings == settings && ipTracking == map[]
    {
      this.settings := settings;
      ipTracking := map[];
    }

    ghost function RecordOf(ip: string): Option<Activity>
      reads this
    {
      if ip in ipTracking then Some(ipTracking[ip]) else None
    }

    ghost predicate NotAfter(now: nat)
      reads this
    {
      forall ip :: ip in ipTracking ==> ipTracking[ip].last <= now
    }

    method CheckAndUpdate(ip: string, now: nat) returns (allowed: bool)
      requires NotAfter(now)
      modifies this
      ensures NotAfter(now)
      ensures Decision(allowed, RecordOf(ip)) == Check(settings, old(RecordOf(ip)), now)
      ensures ip !in old(ipTracking) ==> allowed && ipTracking == old(ipTracking)[ip := Activity(now, 1)]
      ensures ip in old(ipTracking) ==>
                var a := old(ipTracking)[ip];
                var gap := Seconds(a.last, now);
                && (allowed <==> gap >= settings.minInterval && (a.count < settings.maxPerIP || gap >= settings.duration))
                && (!allowed ==> ipTracking == old(ipTracking))
                && (allowed ==> ipTracking
                                == old(ipTracking)[ip := Activity(now, if gap >= settings.duration then 1 else a.count + 1)])
      ensures forall other :: other != ip ==> RecordOf(other) == old(RecordOf(other))
    {
      if ip !in ipTracking {
        ipTracking := ipTracking[ip := Activity(now, 1)];
        return true;
      }
      var activity := ipTracking[ip];
      var since := Seconds(activity.last, now);
      if since < settings.minInterval {
        return false;
      }
      if activity.count >= settings.maxPerIP && since < settings.duration {
        return false;
      }
      var count := if since >= settings.duration then 1 else activity.count + 1;
      ipTracking := ipTracking[ip := Activity(now, count)];
      return true;
    }

    /** The records are visited in any order. */
    method CleanupOldRecords(now: nat) returns (removedCount: nat)
      requires NotAfter(now)
      modifies this
      ensures NotAfter(now)
      ensures forall ip :: RecordOf(ip) == Cleaned(settings, old(RecordOf(ip)), now)
      ensures forall ip :: ip in old(ipTracking) ==>
                (ip in ipTracking <==> Seconds(old(ipTracking)[ip].last, now) <= settings.duration * 2)
      ensures removedCount == |old(ipTracking)| - |ipTracking|
    {
      removedCount := 0;
      var left := ipTracking.Keys;
      ghost var before := ipTracking;
      while left != {}
        invariant left <= ipTracking.Keys <= before.Keys
        invariant forall ip :: ip in ipTracking ==> ipTracking[ip] == before[ip]
        invariant forall ip :: ip in before && ip !in left ==>
                    (ip in ipTracking <==> !Stale(settings, before[ip], now))
        invariant removedCount == |before| - |ipTracking|
        decreases |left|
      {
        var ip :| ip in left;
        left := left - {ip};
        if Seconds(ipTracking[ip].last, now) > settings.duration * 2 {
          ghost var was := ipTracking;
          ipTracking := ipTracking - {ip};
          assert ipTracking.Keys == was.Keys - {ip};
          assert |ipTracking.Keys| == |ipTracking| && |was.Keys| == |was|;
          removedCount := removedCount + 1;
        }
      }
    }
  }
}
