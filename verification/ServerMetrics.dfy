/**
 Rolling-hour counters and the latency ring (src/data/ServerMetrics.cpp). Times are parameters; the queue fill and
 the latencies in milliseconds, floating point in the program, are real numbers.
 */
module ServerMetrics {

  const MINUTES := 60
  const LAT_CAP := 10000
  const SCHEMA_VERSION := 1
  const COUNTER_LIMIT := 0x1_0000_0000

  // ----- counters -------------------------------------------------------------------------------

  datatype Counts = Counts(requests: nat, errors4xx: nat, errors5xx: nat, errorsInternal: nat, fills: nat)

  datatype Counter = Requests | Errors4xx | Errors5xx | ErrorsInternal | Fills

  const Zero := Counts(0, 0, 0, 0, 0)

  function Get(c: Counts, k: Counter): nat
  {
    match k
    case Requests => c.requests
    case Errors4xx => c.errors4xx
    case Errors5xx => c.errors5xx
    case ErrorsInternal => c.errorsInternal
    case Fills => c.fills
  }

  function Plus(a: Counts, b: Counts): Counts
  {
    Counts(a.requests + b.requests, a.errors4xx + b.errors4xx, a.errors5xx + b.errors5xx,
           a.errorsInternal + b.errorsInternal, a.fills + b.fills)
  }

  /** A bucket's counters are 32 bits wide. */
  function Wrapped(c: Counts): Counts
  {
    Counts(c.requests % COUNTER_LIMIT, c.errors4xx % COUNTER_LIMIT, c.errors5xx % COUNTER_LIMIT,
           c.errorsInternal % COUNTER_LIMIT, c.fills % COUNTER_LIMIT)
  }

  datatype Bucket = Bucket(epoch: nat, counts: Counts, fill: real)

  datatype Event = Event(minute: nat, amounts: Counts, fill: real)

  const NoBucket := Bucket(0, Zero, 0.0)

  function Recorded(b: Bucket, e: Event): Bucket
  {
    var start := if b.epoch != e.minute then NoBucket else b;
    Bucket(e.minute, Wrapped(Plus(start.counts, e.amounts)), start.fill + e.fill)
  }

  function Apply(buckets: seq<Bucket>, e: Event): (r: seq<Bucket>)
    requires |buckets| == MINUTES
    ensures |r| == MINUTES
  {
    buckets[e.minute % MINUTES := Recorded(buckets[e.minute % MINUTES], e)]
  }

  function NoBuckets(): (r: seq<Bucket>)
    ensures |r| == MINUTES && forall k :: 0 <= k < MINUTES ==> r[k] == NoBucket
  {
    seq(MINUTES, _ => NoBucket)
  }

  /** The buckets after these events. */
  function BucketsOf(history: seq<Event>): (r: seq<Bucket>)
    ensures |r| == MINUTES
  {
    if history == [] then NoBuckets()
    else Apply(BucketsOf(history[..|history| - 1]), history[|history| - 1])
  }

  predicate InHour(b: Bucket, now: nat) { b.epoch > 0 && now >= b.epoch && now - b.epoch < MINUTES }

  /** getWindowMetricsHour over the first n buckets. */
  function Window(buckets: seq<Bucket>, now: nat, n: nat): Counts
    requires n <= |buckets|
  {
    if n == 0 then Zero
    else Plus(Window(buckets, now, n - 1), if InHour(buckets[n - 1], now) then buckets[n - 1].counts else Zero)
  }

  /** The queue fill in the same buckets. */
  function FillWindow(buckets: seq<Bucket>, now: nat, n: nat): real
    requires n <= |buckets|
  {
    if n == 0 then 0.0
    else FillWindow(buckets, now, n - 1) + if InHour(buckets[n - 1], now) then buckets[n - 1].fill else 0.0
  }

  // ----- what was recorded ----------------------------------------------------------------------

  /** Amounts recorded at one minute. */
  function At(history: seq<Event>, minute: int): Counts
  {
    if history == [] then Zero
    else
      var e := history[|history| - 1];
      Plus(At(history[..|history| - 1], minute), if e.minute == minute then e.amounts else Zero)
  }

  /** Queue fill recorded at one minute. */
  function FillAt(history: seq<Event>, minute: int): real
  {
    if history == [] then 0.0
    else
      var e := history[|history| - 1];
      FillAt(history[..|history| - 1], minute) + if e.minute == minute then e.fill else 0.0
  }

  function FillBetween(history: seq<Event>, first: int, last: int): real
  {
    if history == [] then 0.0
    else
      var e := history[|history| - 1];
      FillBetween(history[..|history| - 1], first, last) + if first <= e.minute <= last then e.fill else 0.0
  }

  /** Amounts recorded from `first` to `last`. */
  function Between(history: seq<Event>, first: int, last: int): Counts
  {
    if history == [] then Zero
    else
      var e := history[|history| - 1];
      Plus(Between(history[..|history| - 1], first, last), if first <= e.minute <= last then e.amounts else Zero)
  }

  /** Minute numbers start at 1 and never decrease. */
  predicate Forward(history: seq<Event>)
  {
    && (forall k :: 0 <= k < |history| ==> history[k].minute >= 1)
    && (forall j, k :: 0 <= j < k < |history| ==> history[j].minute <= history[k].minute)
  }

  predicate NotAfter(history: seq<Event>, now: nat) { forall k :: 0 <= k < |history| ==> history[k].minute <= now }

  /** The minute of the hour ending at `now` that bucket b stands for. */
  function MinuteFor(b: nat, now: nat): int
    requires b < MINUTES
  {
    now - (now - b) % MINUTES
  }

  lemma MinuteForIs(b: nat, now: nat)
    requires b < MINUTES
    ensures now - MINUTES < MinuteFor(b, now) <= now && MinuteFor(b, now) % MINUTES == b
  {
    var q := (now - b) / MINUTES;
    assert now - b == q * MINUTES + (now - b) % MINUTES;
    assert MinuteFor(b, now) == q * MINUTES + b;
  }

  lemma SameMinute(x: int, y: int, now: int)
    requires now - MINUTES < x <= now && now - MINUTES < y <= now && x % MINUTES == y % MINUTES
    ensures x == y
  {
    assert x - y == (x / MINUTES - y / MINUTES) * MINUTES;
  }

  lemma {:induction false} NothingAt(history: seq<Event>, minute: int)
    requires forall k :: 0 <= k < |history| ==> history[k].minute != minute
    ensures At(history, minute) == Zero && FillAt(history, minute) == 0.0
  {
    hide Plus;
    if history != [] {
      var front := history[..|history| - 1];
      assert history[|history| - 1].minute != minute;
      NothingAt(front, minute);
      PlusZero(At(front, minute));
    }
  }

  lemma PlusZero(c: Counts)
    ensures Plus(c, Zero) == c && Plus(Zero, c) == c
  {
  }

  /** What bucket b holds: the counts of the last minute recorded in it. */
  ghost predicate Holds(bucket: Bucket, history: seq<Event>, b: nat)
  {
    && (forall k :: 0 <= k < |history| && history[k].minute % MINUTES == b ==> history[k].minute <= bucket.epoch)
    && (bucket.epoch > 0 ==>
          && bucket.epoch % MINUTES == b
          && (exists k :: 0 <= k < |history| && history[k].minute == bucket.epoch)
          && bucket.counts == Wrapped(At(history, bucket.epoch)) && bucket.fill == FillAt(history, bucket.epoch))
  }

  lemma WrapTwice(a: Counts, b: Counts)
    ensures Wrapped(Plus(Wrapped(a), b)) == Wrapped(Plus(a, b))
  {
    WrapSum(a.requests, b.requests);
    WrapSum(a.errors4xx, b.errors4xx);
    WrapSum(a.errors5xx, b.errors5xx);
    WrapSum(a.errorsInternal, b.errorsInternal);
    WrapSum(a.fills, b.fills);
  }

  lemma WrapSum(a: nat, b: nat)
    ensures (a % COUNTER_LIMIT + b) % COUNTER_LIMIT == (a + b) % COUNTER_LIMIT
  {
  }

  lemma AtNext(history: seq<Event>, e: Event, minute: int)
    ensures At(history + [e], minute) == if e.minute == minute then Plus(At(history, minute), e.amounts) else At(history, minute)
    ensures FillAt(history + [e], minute) == FillAt(history, minute) + if e.minute == minute then e.fill else 0.0
  {
    hide Plus;
    assert (history + [e])[..|history|] == history;
    PlusZero(At(history, minute));
  }

  lemma ForwardNext(history: seq<Event>, e: Event)
    requires Forward(history + [e])
    ensures Forward(history) && e.minute >= 1 && forall k :: 0 <= k < |history| ==> history[k].minute <= e.minute
  {
    var all := history + [e];
    assert all[|history|] == e;
    assert forall k :: 0 <= k < |history| ==> all[k] == history[k];
  }

  /** A bucket the event does not go to. */
  lemma HoldsElsewhere(bucket: Bucket, history: seq<Event>, b: nat, e: Event)
    requires b < MINUTES && Holds(bucket, history, b) && e.minute % MINUTES != b
    ensures Holds(bucket, history + [e], b)
  {
    hide At, FillAt, Wrapped;
    var all := history + [e];
    AtNext(history, e, bucket.epoch);
    forall k | 0 <= k < |all| && all[k].minute % MINUTES == b ensures all[k].minute <= bucket.epoch {
      assert all[k] == history[k];
    }
    if bucket.epoch > 0 {
      var k :| 0 <= k < |history| && history[k].minute == bucket.epoch;
      assert all[k].minute == bucket.epoch;
    }
  }

  /** The bucket the event goes to. */
  lemma HoldsHere(bucket: Bucket, history: seq<Event>, b: nat, e: Event)
    requires b < MINUTES && Holds(bucket, history, b) && e.minute % MINUTES == b && e.minute >= 1
    requires forall k :: 0 <= k < |history| ==> history[k].minute <= e.minute
    ensures Holds(Recorded(bucket, e), history + [e], b)
  {
    hide At, FillAt, Wrapped, Plus;
    var all := history + [e];
    AtNext(history, e, e.minute);
    forall k | 0 <= k < |all| ensures all[k].minute <= e.minute {
      if k < |history| {
        assert all[k] == history[k];
      }
    }
    assert all[|history|].minute == e.minute;
    if bucket.epoch == e.minute {
      WrapTwice(At(history, e.minute), e.amounts);
    } else {
      forall k | 0 <= k < |history| ensures history[k].minute != e.minute {
      }
      NothingAt(history, e.minute);
      WrapTwice(Zero, e.amounts);
    }
  }

  lemma {:induction false} BucketsHold(history: seq<Event>, b: nat)
    requires b < MINUTES && Forward(history)
    ensures Holds(BucketsOf(history)[b], history, b)
  {
    if history != [] {
      var n := |history| - 1;
      assert history[..n] + [history[n]] == history;
      ForwardNext(history[..n], history[n]);
      BucketsHold(history[..n], b);
      hide Holds, Forward, Recorded;
      if history[n].minute % MINUTES == b {
        HoldsHere(BucketsOf(history[..n])[b], history[..n], b, history[n]);
      } else {
        HoldsElsewhere(BucketsOf(history[..n])[b], history[..n], b, history[n]);
      }
    }
  }

  /** A bucket's part of the hour is what was recorded at its minute. */
  lemma PartIs(history: seq<Event>, b: nat, now: nat)
    requires b < MINUTES && Forward(history) && NotAfter(history, now)
    ensures (if InHour(BucketsOf(history)[b], now) then BucketsOf(history)[b].counts else Zero)
         == Wrapped(At(history, MinuteFor(b, now)))
    ensures (if InHour(BucketsOf(history)[b], now) then BucketsOf(history)[b].fill else 0.0)
         == FillAt(history, MinuteFor(b, now))
  {
    BucketsHold(history, b);
    MinuteForIs(b, now);
    hide *;
    BucketPart(BucketsOf(history)[b], history, b, now, MinuteFor(b, now));
  }

  lemma BucketPart(bucket: Bucket, history: seq<Event>, b: nat, now: nat, m: int)
    requires Holds(bucket, history, b) && Forward(history) && NotAfter(history, now)
    requires now - MINUTES < m <= now && m % MINUTES == b
    ensures (if InHour(bucket, now) then bucket.counts else Zero) == Wrapped(At(history, m))
    ensures (if InHour(bucket, now) then bucket.fill else 0.0) == FillAt(history, m)
  {
    hide At, FillAt, Wrapped, NotAfter;
    EpochPast(bucket, history, b, now);
    if InHour(bucket, now) {
      SameMinute(bucket.epoch, m, now);
    } else {
      forall k | 0 <= k < |history| ensures history[k].minute != m {
        assert history[k].minute % MINUTES == b ==> history[k].minute <= bucket.epoch;
      }
      NothingAt(history, m);
      WrapZero();
    }
  }

  lemma WrapZero()
    ensures Wrapped(Zero) == Zero
  {
  }

  lemma EpochPast(bucket: Bucket, history: seq<Event>, b: nat, now: nat)
    requires Holds(bucket, history, b) && NotAfter(history, now)
    ensures bucket.epoch <= now
  {
  }

  /** Sum over the first n buckets of what was recorded at their minutes. */
  function Parts(history: seq<Event>, now: nat, n: nat, k: Counter): nat
    requires n <= MINUTES
  {
    if n == 0 then 0 else Parts(history, now, n - 1, k) + Get(At(history, MinuteFor(n - 1, now)), k)
  }

  /** The same, each part as its 32-bit counter keeps it. */
  function KeptParts(history: seq<Event>, now: nat, n: nat, k: Counter): nat
    requires n <= MINUTES
  {
    if n == 0 then 0
    else KeptParts(history, now, n - 1, k) + Get(At(history, MinuteFor(n - 1, now)), k) % COUNTER_LIMIT
  }

  /** No minute of the hour that ends at `now` saw 2^32 or more. */
  ghost predicate NoOverflow(history: seq<Event>, now: nat, k: Counter)
  {
    forall minute: int :: now - MINUTES < minute <= now ==> Get(At(history, minute), k) < COUNTER_LIMIT
  }

  lemma {:induction false} PartsKept(history: seq<Event>, now: nat, n: nat, k: Counter)
    requires n <= MINUTES
    ensures KeptParts(history, now, n, k) <= Parts(history, now, n, k)
    ensures KeptParts(history, now, n, k) == Parts(history, now, n, k) <==>
            forall b: nat :: b < n ==> Get(At(history, MinuteFor(b, now)), k) < COUNTER_LIMIT
    decreases n
  {
    hide MinuteFor, At, Get;
    if n > 0 {
      PartsKept(history, now, n - 1, k);
      Remainder(Get(At(history, MinuteFor(n - 1, now)), k));
    }
  }

  lemma Remainder(a: nat)
    ensures a % COUNTER_LIMIT <= a && (a % COUNTER_LIMIT == a <==> a < COUNTER_LIMIT)
  {
  }

  /** Every minute of the hour has its bucket. */
  lemma HourByBuckets(history: seq<Event>, now: nat, k: Counter)
    ensures NoOverflow(history, now, k) <==>
            forall b: nat :: b < MINUTES ==> Get(At(history, MinuteFor(b, now)), k) < COUNTER_LIMIT
  {
    hide MinuteFor, At, Get;
    if NoOverflow(history, now, k) {
      forall b: nat | b < MINUTES ensures Get(At(history, MinuteFor(b, now)), k) < COUNTER_LIMIT {
        MinuteForIs(b, now);
      }
    }
    if forall b: nat :: b < MINUTES ==> Get(At(history, MinuteFor(b, now)), k) < COUNTER_LIMIT {
      forall minute: int | now - MINUTES < minute <= now ensures Get(At(history, minute), k) < COUNTER_LIMIT {
        var b: nat := minute % MINUTES;
        MinuteForIs(b, now);
        SameMinute(minute, MinuteFor(b, now), now);
      }
    }
  }

  /** One more bucket. */
  lemma WindowStep(history: seq<Event>, now: nat, n: nat, k: Counter)
    requires 0 < n <= MINUTES
    ensures Get(Window(BucketsOf(history), now, n), k)
         == Get(Window(BucketsOf(history), now, n - 1), k)
            + Get(if InHour(BucketsOf(history)[n - 1], now) then BucketsOf(history)[n - 1].counts else Zero, k)
  {
    hide BucketsOf, InHour;
  }

  lemma WrappedGet(c: Counts, k: Counter)
    ensures Get(Wrapped(c), k) == Get(c, k) % COUNTER_LIMIT
  {
  }

  /** For any history: the sums are those of the 32-bit counters of the 60 minutes. */
  lemma {:induction false} WindowIsKept(history: seq<Event>, now: nat, n: nat, k: Counter)
    requires n <= MINUTES && Forward(history) && NotAfter(history, now)
    ensures Get(Window(BucketsOf(history), now, n), k) == KeptParts(history, now, n, k)
    decreases n
  {
    hide Forward, NotAfter, BucketsOf, At, InHour, Get, Window, Wrapped, MinuteFor;
    if n > 0 {
      WindowIsKept(history, now, n - 1, k);
      WindowStep(history, now, n, k);
      PartIs(history, n - 1, now);
      WrappedGet(At(history, MinuteFor(n - 1, now)), k);
    } else {
      WindowNone(history, now, k);
    }
  }

  lemma WindowNone(history: seq<Event>, now: nat, k: Counter)
    ensures Get(Window(BucketsOf(history), now, 0), k) == 0
  {
  }

  /** What one event adds to the first n parts. */
  function Hits(minute: nat, amount: nat, now: nat, n: nat): nat
    requires n <= MINUTES
  {
    if n == 0 then 0 else Hits(minute, amount, now, n - 1) + if minute == MinuteFor(n - 1, now) then amount else 0
  }

  /** An event is counted for exactly one bucket if it is in the hour, for none otherwise. */
  lemma {:induction false} HitsOnce(minute: nat, amount: nat, now: nat, n: nat)
    requires n <= MINUTES && minute <= now
    ensures Hits(minute, amount, now, n) == if now - MINUTES < minute && minute % MINUTES < n then amount else 0
    decreases n
  {
    hide MinuteFor;
    if n > 0 {
      HitsOnce(minute, amount, now, n - 1);
      MinuteForIs(n - 1, now);
      if now - MINUTES < minute && minute % MINUTES == n - 1 {
        SameMinute(minute, MinuteFor(n - 1, now), now);
      }
    }
  }

  lemma AtGrows(history: seq<Event>, e: Event, minute: int, k: Counter)
    ensures Get(At(history + [e], minute), k) == Get(At(history, minute), k) + if e.minute == minute then Get(e.amounts, k) else 0
  {
    AtNext(history, e, minute);
  }

  lemma {:induction false} PartsGrow(history: seq<Event>, e: Event, now: nat, n: nat, k: Counter)
    requires n <= MINUTES
    ensures Parts(history + [e], now, n, k) == Parts(history, now, n, k) + Hits(e.minute, Get(e.amounts, k), now, n)
    decreases n
  {
    hide MinuteFor, At, Get;
    if n > 0 {
      PartsGrow(history, e, now, n - 1, k);
      AtGrows(history, e, MinuteFor(n - 1, now), k);
    }
  }

  lemma {:induction false} NoParts(now: nat, n: nat, k: Counter)
    requires n <= MINUTES
    ensures Parts([], now, n, k) == 0
    decreases n
  {
    if n > 0 {
      NoParts(now, n - 1, k);
    }
  }

  lemma {:induction false} PartsAreBetween(history: seq<Event>, now: nat, k: Counter)
    requires NotAfter(history, now)
    ensures Parts(history, now, MINUTES, k) == Get(Between(history, now - 59, now), k)
    decreases |history|
  {
    if history == [] {
      NoParts(now, MINUTES, k);
    } else {
      var n := |history| - 1;
      hide Parts, Hits;
      PartsAreBetween(history[..n], now, k);
      PartsGrow(history[..n], history[n], now, MINUTES, k);
      HitsOnce(history[n].minute, Get(history[n].amounts, k), now, MINUTES);
      assert history[..n] + [history[n]] == history;
    }
  }

  /** The sums are what was recorded at minutes now-59 to now, exactly when none of those minutes overflowed. */
  lemma RollingHourIsExact(history: seq<Event>, now: nat, k: Counter)
    requires Forward(history) && NotAfter(history, now)
    ensures Get(Window(BucketsOf(history), now, MINUTES), k) == Get(Between(history, now - 59, now), k)
            <==> NoOverflow(history, now, k)
  {
    hide Forward, NotAfter, NoOverflow, Window, Parts, KeptParts, Between, BucketsOf, Get;
    WindowIsKept(history, now, MINUTES, k);
    PartsKept(history, now, MINUTES, k);
    HourByBuckets(history, now, k);
    PartsAreBetween(history, now, k);
  }

  // ----- the queue fill of the rolling hour -----------------------------------------------------

  /** Sum over the first n buckets of the fill recorded at their minutes. */
  function FillParts(history: seq<Event>, now: nat, n: nat): real
    requires n <= MINUTES
  {
    if n == 0 then 0.0 else FillParts(history, now, n - 1) + FillAt(history, MinuteFor(n - 1, now))
  }

  lemma {:induction false} FillWindowIsParts(history: seq<Event>, now: nat, n: nat)
    requires n <= MINUTES && Forward(history) && NotAfter(history, now)
    ensures FillWindow(BucketsOf(history), now, n) == FillParts(history, now, n)
    decreases n
  {
    hide Forward, NotAfter, BucketsOf, FillAt, InHour, MinuteFor;
    if n > 0 {
      FillWindowIsParts(history, now, n - 1);
      PartIs(history, n - 1, now);
    }
  }

  /** The bucket that stands for a minute of the hour. */
  lemma BucketFor(minute: nat, now: nat, b: nat)
    requires minute <= now && b < MINUTES
    ensures minute == MinuteFor(b, now) <==> now - MINUTES < minute && minute % MINUTES == b
  {
    MinuteForIs(b, now);
    hide MinuteFor;
    if now - MINUTES < minute && minute % MINUTES == b {
      SameMinute(minute, MinuteFor(b, now), now);
    }
  }

  predicate Counted(minute: nat, now: nat, n: nat) { now - MINUTES < minute && minute % MINUTES < n }

  lemma CountedStep(minute: nat, now: nat, n: nat)
    requires 0 < n <= MINUTES && minute <= now
    ensures Counted(minute, now, n) <==> Counted(minute, now, n - 1) || minute == MinuteFor(n - 1, now)
    ensures !(Counted(minute, now, n - 1) && minute == MinuteFor(n - 1, now))
    ensures !Counted(minute, now, 0)
  {
    BucketFor(minute, now, n - 1);
  }

  /** One more event is counted for exactly one bucket if it is in the hour, for none otherwise. */
  lemma {:induction false} FillPartsGrow(history: seq<Event>, e: Event, now: nat, n: nat)
    requires n <= MINUTES && e.minute <= now
    ensures FillParts(history + [e], now, n)
         == FillParts(history, now, n) + if Counted(e.minute, now, n) then e.fill else 0.0
    decreases n
  {
    hide MinuteFor, FillAt, Counted;
    CountedStep(e.minute, now, if n > 0 then n else 1);
    if n > 0 {
      FillPartsGrow(history, e, now, n - 1);
      AtNext(history, e, MinuteFor(n - 1, now));
    }
  }

  lemma {:induction false} NoFillParts(now: nat, n: nat)
    requires n <= MINUTES
    ensures FillParts([], now, n) == 0.0
    decreases n
  {
    if n > 0 {
      NoFillParts(now, n - 1);
    }
  }

  lemma {:induction false} FillPartsAreBetween(history: seq<Event>, now: nat)
    requires NotAfter(history, now)
    ensures FillParts(history, now, MINUTES) == FillBetween(history, now - 59, now)
    decreases |history|
  {
    if history == [] {
      NoFillParts(now, MINUTES);
    } else {
      var n := |history| - 1;
      hide FillParts;
      FillPartsAreBetween(history[..n], now);
      FillPartsGrow(history[..n], history[n], now, MINUTES);
      assert Counted(history[n].minute, now, MINUTES) <==> now - MINUTES < history[n].minute;
      assert history[..n] + [history[n]] == history;
    }
  }

  /** The fill summed over the buckets of the hour is what was recorded in its 60 minutes. */
  lemma RollingFillIsExact(history: seq<Event>, now: nat)
    requires Forward(history) && NotAfter(history, now)
    ensures FillWindow(BucketsOf(history), now, MINUTES) == FillBetween(history, now - 59, now)
  {
    hide Forward, NotAfter, FillWindow, FillParts, FillBetween, BucketsOf;
    FillWindowIsParts(history, now, MINUTES);
    FillPartsAreBetween(history, now);
  }

  // ----- the latency ring -----------------------------------------------------------------------

  datatype Sample = Sample(epochS: nat, us: nat)

  /** The stored samples, oldest first. */
  function Ring(samples: seq<Sample>, head: nat, count: nat): seq<Sample>
    requires |samples| == LAT_CAP && head < LAT_CAP && count <= LAT_CAP
  {
    seq(count, i requires 0 <= i < count => samples[(head + LAT_CAP - count + i) % LAT_CAP])
  }

  function LastOf(s: seq<Sample>, n: nat): seq<Sample> { if |s| <= n then s else s[|s| - n..] }

  /** A new sample pushes out the oldest one once the ring is full. */
  lemma RingPush(samples: seq<Sample>, head: nat, count: nat, s: Sample)
    requires |samples| == LAT_CAP && head < LAT_CAP && count <= LAT_CAP
    ensures Ring(samples[head := s], (head + 1) % LAT_CAP, if count < LAT_CAP then count + 1 else count)
         == LastOf(Ring(samples, head, count) + [s], LAT_CAP)
  {
    var n := if count < LAT_CAP then count + 1 else count;
    var h := (head + 1) % LAT_CAP;
    var before := Ring(samples, head, count) + [s];
    var skip := count + 1 - n;
    var after := Ring(samples[head := s], h, n);
    forall i | 0 <= i < n ensures after[i] == before[skip + i] {
      PushAt(head, h, count, n, i);
    }
    assert |LastOf(before, LAT_CAP)| == n;
  }

  lemma PushAt(head: nat, h: nat, count: nat, n: nat, i: nat)
    requires head < LAT_CAP && h == (head + 1) % LAT_CAP && count <= LAT_CAP && i < n
    requires n == if count < LAT_CAP then count + 1 else count
    ensures var j := count + 1 - n + i;
            var at := (h + LAT_CAP - n + i) % LAT_CAP;
            if j == count then at == head else at == (head + LAT_CAP - count + j) % LAT_CAP && at != head
  {
  }

  // ----- save and import ------------------------------------------------------------------------

  function Padded(samples: seq<Sample>): (r: seq<Sample>)
    requires |samples| <= LAT_CAP
    ensures |r| == LAT_CAP
  {
    samples + seq(LAT_CAP - |samples|, _ => Sample(0, 0))
  }

  /** Counts since the very first start. */
  datatype Totals = Totals(requests: nat, errors4xx: nat, errors5xx: nat, errorsInternal: nat, rejections: nat)

  const NoTotals := Totals(0, 0, 0, 0, 0)

  /** `lifetime`: seconds of uptime over all sessions. */
  datatype Saved = Saved(version: int, lifetime: nat, totals: Totals, buckets: seq<Bucket>, count: nat,
                         samples: seq<Sample>)

  predicate Acceptable(saved: Saved)
  {
    && saved.version == SCHEMA_VERSION && |saved.buckets| == MINUTES
    && saved.count <= LAT_CAP && |saved.samples| == saved.count
  }

  /** Importing saved samples gives the same ring. */
  lemma ImportedRing(samples: seq<Sample>)
    requires |samples| <= LAT_CAP
    ensures Ring(Padded(samples), |samples| % LAT_CAP, |samples|) == samples
  {
    var ring := Ring(Padded(samples), |samples| % LAT_CAP, |samples|);
    forall i | 0 <= i < |samples| ensures ring[i] == samples[i] {
      ImportAt(|samples|, i);
    }
  }

  lemma ImportAt(n: nat, i: nat)
    requires i < n <= LAT_CAP
    ensures (n % LAT_CAP + LAT_CAP - n + i) % LAT_CAP == i
  {
  }

  // ----- percentiles ----------------------------------------------------------------------------

  function Relevant(samples: seq<Sample>, cutoff: nat): seq<nat>
  {
    if samples == [] then []
    else
      var last := samples[|samples| - 1];
      Relevant(samples[..|samples| - 1], cutoff) + if last.epochS >= cutoff then [last.us] else []
  }

  lemma RelevantStep(samples: seq<Sample>, i: nat, cutoff: nat)
    requires i < |samples|
    ensures Relevant(samples[..i + 1], cutoff)
         == Relevant(samples[..i], cutoff) + if samples[i].epochS >= cutoff then [samples[i].us] else []
  {
    assert samples[..i + 1][..i] == samples[..i] && samples[..i + 1][i] == samples[i];
  }

  lemma RelevantNone(samples: seq<Sample>, cutoff: nat)
    ensures Relevant(samples[..0], cutoff) == []
  {
  }

  predicate Ascending(s: seq<nat>) { forall i, j :: 0 <= i < j < |s| ==> s[i] <= s[j] }

  predicate SortedFrom(t: seq<nat>, s: seq<nat>) { multiset(t) == multiset(s) && Ascending(t) && |t| == |s| }

  datatype Latencies = Latencies(p50: real, p95: real, p99: real)

  /** v is the element of rank k, in milliseconds. */
  ghost predicate RankIs(s: seq<nat>, k: nat, v: real)
  {
    exists t: seq<nat> {:trigger SortedFrom(t, s)} :: SortedFrom(t, s) && k < |t| && t[k] as real / 1000.0 == v
  }

  ghost predicate StatsOf(relevant: seq<nat>, r: Latencies)
  {
    var n := |relevant|;
    if n == 0 then r == Latencies(0.0, 0.0, 0.0)
    else r.p50 <= r.p95 <= r.p99
         && RankIs(relevant, n * 50 / 100, r.p50) && RankIs(relevant, n * 95 / 100, r.p95)
         && RankIs(relevant, n * 99 / 100, r.p99)
  }

  // ----- ranks by counting ----------------------------------------------------------------------

  /** How many values are less than v, in milliseconds, and how many are not more. */
  function Fewer(s: seq<nat>, v: real): nat
  {
    if s == [] then 0 else Fewer(s[..|s| - 1], v) + if s[|s| - 1] as real / 1000.0 < v then 1 else 0
  }

  function UpTo(s: seq<nat>, v: real): nat
  {
    if s == [] then 0 else UpTo(s[..|s| - 1], v) + if s[|s| - 1] as real / 1000.0 <= v then 1 else 0
  }

  lemma CountStep(s: seq<nat>, x: nat, v: real)
    ensures Fewer(s + [x], v) == Fewer(s, v) + if x as real / 1000.0 < v then 1 else 0
    ensures UpTo(s + [x], v) == UpTo(s, v) + if x as real / 1000.0 <= v then 1 else 0
  {
    assert (s + [x])[..|s|] == s;
  }

  /** One value can be taken out first. */
  lemma {:induction false} CountTakes(s: seq<nat>, k: nat, v: real)
    requires k < |s|
    ensures var rest := s[..k] + s[k + 1..];
            && Fewer(s, v) == Fewer(rest, v) + (if s[k] as real / 1000.0 < v then 1 else 0)
            && UpTo(s, v) == UpTo(rest, v) + (if s[k] as real / 1000.0 <= v then 1 else 0)
    decreases |s|
  {
    var n := |s| - 1;
    var rest := s[..k] + s[k + 1..];
    if k < n {
      var front := s[..n];
      CountTakes(front, k, v);
      assert rest == (front[..k] + front[k + 1..]) + [s[n]];
      CountStep(front[..k] + front[k + 1..], s[n], v);
    } else {
      assert rest == s[..n];
    }
  }

  /** The counts do not depend on the order. */
  lemma {:induction false} CountsAgree(s: seq<nat>, t: seq<nat>, v: real)
    requires multiset(s) == multiset(t) && |s| == |t|
    ensures Fewer(s, v) == Fewer(t, v) && UpTo(s, v) == UpTo(t, v)
    decreases |s|
  {
    if s != [] {
      var n := |s| - 1;
      assert s[n] in multiset(s) && s[n] in t;
      var k :| 0 <= k < |t| && t[k] == s[n];
      var rest := t[..k] + t[k + 1..];
      OneTaken(s, t, k);
      CountsAgree(s[..n], rest, v);
      CountTakes(t, k, v);
    }
  }

  lemma OneTaken(s: seq<nat>, t: seq<nat>, k: nat)
    requires multiset(s) == multiset(t) && |s| == |t| && k < |t| && s[|s| - 1] == t[k]
    ensures multiset(s[..|s| - 1]) == multiset(t[..k] + t[k + 1..])
  {
    var front, x := s[..|s| - 1], s[|s| - 1];
    assert t == t[..k] + [t[k]] + t[k + 1..];
    assert s == front + [x];
    assert multiset(s) == multiset(front) + multiset{x};
    assert multiset(t) == multiset(t[..k]) + multiset{x} + multiset(t[k + 1..]);
    assert multiset(t[..k] + t[k + 1..]) == multiset(t[..k]) + multiset(t[k + 1..]);
    assert multiset(front) == multiset(s) - multiset{x};
  }

  lemma {:induction false} SortedCounts(t: seq<nat>, k: nat)
    requires Ascending(t) && k < |t|
    ensures var v := t[k] as real / 1000.0; Fewer(t, v) <= k < UpTo(t, v)
    decreases |t|
  {
    var n, v := |t| - 1, t[k] as real / 1000.0;
    var front := t[..n];
    if k < n {
      SortedCounts(front, k);
    } else {
      AllUpTo(front, t[n]);
    }
  }

  lemma {:induction false} AllUpTo(s: seq<nat>, x: nat)
    requires forall i :: 0 <= i < |s| ==> s[i] <= x
    ensures var v := x as real / 1000.0; Fewer(s, v) <= |s| && UpTo(s, v) == |s|
    decreases |s|
  {
    if s != [] {
      AllUpTo(s[..|s| - 1], x);
      assert s[|s| - 1] <= x;
    }
  }

  /** At most k values are below the one of rank k, and more than k are not above it. */
  lemma RankByCounting(s: seq<nat>, k: nat, v: real)
    requires RankIs(s, k, v)
    ensures Fewer(s, v) <= k < UpTo(s, v)
  {
    var t: seq<nat> :| SortedFrom(t, s) && k < |t| && t[k] as real / 1000.0 == v;
    SortedCounts(t, k);
    CountsAgree(s, t, v);
  }

  /** What the three figures mean, by counting. */
  predicate Percentiles(relevant: seq<nat>, r: Latencies)
  {
    var n := |relevant|;
    if n == 0 then r.p50 == r.p95 == r.p99 == 0.0
    else
      && Fewer(relevant, r.p50) <= n * 50 / 100 < UpTo(relevant, r.p50)
      && Fewer(relevant, r.p95) <= n * 95 / 100 < UpTo(relevant, r.p95)
      && Fewer(relevant, r.p99) <= n * 99 / 100 < UpTo(relevant, r.p99)
  }

  lemma StatsByCounting(relevant: seq<nat>, r: Latencies)
    requires StatsOf(relevant, r)
    ensures Percentiles(relevant, r)
  {
    hide RankIs, Fewer, UpTo;
    var n := |relevant|;
    if n > 0 {
      RankByCounting(relevant, n * 50 / 100, r.p50);
      RankByCounting(relevant, n * 95 / 100, r.p95);
      RankByCounting(relevant, n * 99 / 100, r.p99);
    }
  }

  /** The samples of the window are those not older than its start, in their order. */
  lemma {:induction false} RelevantExactly(samples: seq<Sample>, cutoff: nat, us: nat)
    ensures us in Relevant(samples, cutoff) <==> exists i :: 0 <= i < |samples| && samples[i].epochS >= cutoff && samples[i].us == us
    decreases |samples|
  {
    if samples != [] {
      var front, last := samples[..|samples| - 1], samples[|samples| - 1];
      RelevantExactly(front, cutoff, us);
      assert Relevant(samples, cutoff) == Relevant(front, cutoff) + if last.epochS >= cutoff then [last.us] else [];
      if i :| 0 <= i < |samples| && samples[i].epochS >= cutoff && samples[i].us == us {
        assert i < |samples| - 1 ==> front[i] == samples[i];
      }
      if i :| 0 <= i < |front| && front[i].epochS >= cutoff && front[i].us == us {
        assert samples[i] == front[i];
      }
    }
  }

  /** std::sort. */
  method Sort(s: seq<nat>) returns (t: seq<nat>)
    ensures SortedFrom(t, s)
  {
    t := [];
    for i := 0 to |s|
      invariant multiset(t) == multiset(s[..i]) && Ascending(t) && |t| == i
    {
      assert s[..i + 1] == s[..i] + [s[i]];
      t := Insert(t, s[i]);
    }
    assert s[..|s|] == s;
  }

  method Insert(t: seq<nat>, v: nat) returns (r: seq<nat>)
    requires Ascending(t)
    ensures multiset(r) == multiset(t) + multiset{v} && Ascending(r) && |r| == |t| + 1
  {
    hide Ascending;
    var k := 0;
    while k < |t| && t[k] <= v
      invariant k <= |t| && (k > 0 ==> t[k - 1] <= v)
    {
      k := k + 1;
    }
    r := t[..k] + [v] + t[k..];
    assert t == t[..k] + t[k..];
    InsertAscending(t, v, k);
  }

  lemma InsertAscending(t: seq<nat>, v: nat, k: nat)
    requires Ascending(t) && k <= |t| && (k > 0 ==> t[k - 1] <= v) && (k < |t| ==> v <= t[k])
    ensures Ascending(t[..k] + [v] + t[k..])
  {
    var r := t[..k] + [v] + t[k..];
    forall i, j | 0 <= i < j < |r| ensures r[i] <= r[j] {
      assert r[i] == if i < k then t[i] else if i == k then v else t[i - 1];
      assert r[j] == if j < k then t[j] else if j == k then v else t[j - 1];
    }
  }

  // ----- the object -----------------------------------------------------------------------------

  class Metrics {
    const minBuckets: array<Bucket>
    const latSamples: array<Sample>
    var latHead: nat
    var latCount: nat
    var totals: Totals
    /** Uptime of the sessions before this one. */
    var lifetimeBaseline: nat

    ghost predicate Valid()
      reads this
    {
      minBuckets.Length == MINUTES && latSamples.Length == LAT_CAP && latHead < LAT_CAP && latCount <= LAT_CAP
    }

    ghost function Buckets(): seq<Bucket>
      reads this, minBuckets
      requires Valid()
    {
      minBuckets[..]
    }

    ghost function Latency(): seq<Sample>
      reads this, latSamples
      requires Valid()
    {
      Ring(latSamples[..], latHead, latCount)
    }

    constructor ()
      ensures Valid() && fresh(minBuckets) && fresh(latSamples)
      ensures Buckets() == BucketsOf([]) && Latency() == [] && totals == NoTotals && lifetimeBaseline == 0
    {
      minBuckets := new Bucket[MINUTES](_ => NoBucket);
      latSamples := new Sample[LAT_CAP](_ => Sample(0, 0));
      latHead, latCount, totals, lifetimeBaseline := 0, 0, NoTotals, 0;
      new;
      assert minBuckets[..] == NoBuckets();
    }

    /** writeBuckets_: one event at its minute. */
    method WriteBuckets(e: Event)
      requires Valid()
      modifies minBuckets
      ensures Valid() && Buckets() == Apply(old(Buckets()), e)
    {
      var i := e.minute % MINUTES;
      var b := minBuckets[i];
      if b.epoch != e.minute {
        b := Bucket(e.minute, Zero, 0.0);
      }
      b := b.(counts := Wrapped(Plus(b.counts, e.amounts)), fill := b.fill + e.fill);
      minBuckets[i] := b;
    }

    /** Sums over the hour, and the average queue fill, 0 if none was recorded. */
    method GetWindowMetricsHour(now: nat) returns (sums: Counts, averageFill: real)
      requires Valid()
      ensures sums == Window(Buckets(), now, MINUTES)
      ensures averageFill
           == if sums.fills > 0 then FillWindow(Buckets(), now, MINUTES) / sums.fills as real else 0.0
    {
      hide Plus;
      sums := Zero;
      var fillSum := 0.0;
      for i := 0 to MINUTES
        invariant sums == Window(Buckets(), now, i) && fillSum == FillWindow(Buckets(), now, i)
      {
        var b := minBuckets[i];
        PlusZero(sums);
        if b.epoch > 0 && now >= b.epoch && now - b.epoch < MINUTES {
          sums := Plus(sums, b.counts);
          fillSum := fillSum + b.fill;
        }
      }
      averageFill := if sums.fills > 0 then fillSum / sums.fills as real else 0.0;
    }

    method RecordLatency(s: Sample)
      requires Valid()
      modifies this, latSamples
      ensures Valid() && Latency() == LastOf(old(Latency()) + [s], 10000)
      ensures totals == old(totals) && lifetimeBaseline == old(lifetimeBaseline)
    {
      RingPush(latSamples[..], latHead, latCount, s);
      ghost var was := latSamples[..];
      latSamples[latHead] := s;
      assert latSamples[..] == was[latHead := s];
      latHead := (latHead + 1) % LAT_CAP;
      if latCount < LAT_CAP {
        latCount := latCount + 1;
      }
    }

    /** What is saved of the ring: the samples, oldest first. */
    method SavedSamples() returns (saved: seq<Sample>)
      requires Valid()
      ensures saved == Latency()
    {
      saved := [];
      var start := (latHead + LAT_CAP - latCount) % LAT_CAP;
      for i := 0 to latCount
        invariant saved == Latency()[..i]
      {
        saved := saved + [latSamples[(start + i) % LAT_CAP]];
      }
    }

    /** Everything that is saved, after this session has lasted `uptime` seconds. */
    method SaveMetrics(uptime: nat) returns (saved: Saved)
      requires Valid()
      ensures saved == Saved(SCHEMA_VERSION, lifetimeBaseline + uptime, totals, Buckets(), |Latency()|, Latency())
      ensures Acceptable(saved)
    {
      var samples := SavedSamples();
      saved := Saved(SCHEMA_VERSION, lifetimeBaseline + uptime, totals, minBuckets[..], latCount, samples);
    }

    /** What is imported replaces everything, unless the version is another one, there are not 60 buckets, or the stored
        count is too large or not that of the samples; then nothing changes. */
    method ImportMetrics(saved: Saved) returns (ok: bool)
      requires Valid()
      modifies this, minBuckets, latSamples
      ensures Valid() && ok == Acceptable(saved)
      ensures ok <==> saved.version == 1 && |saved.buckets| == 60 && saved.count <= 10000 && |saved.samples| == saved.count
      ensures Buckets() == if ok then saved.buckets else old(Buckets())
      ensures Latency() == if ok then saved.samples else old(Latency())
      ensures totals == (if ok then saved.totals else old(totals))
      ensures lifetimeBaseline == if ok then saved.lifetime else old(lifetimeBaseline)
    {
      if saved.version != SCHEMA_VERSION {
        return false;
      }
      if |saved.buckets| != MINUTES {
        return false;
      }
      if saved.count > LAT_CAP {
        return false;
      }
      if |saved.samples| != saved.count {
        return false;
      }
      ImportBuckets(saved.buckets);
      ImportSamples(saved.samples);
      totals, lifetimeBaseline := saved.totals, saved.lifetime;
      ok := true;
    }

    method ImportBuckets(buckets: seq<Bucket>)
      requires Valid() && |buckets| == MINUTES
      modifies minBuckets
      ensures Valid() && Buckets() == buckets
    {
      for i := 0 to MINUTES
        invariant Valid() && minBuckets[..i] == buckets[..i]
      {
        minBuckets[i] := buckets[i];
      }
      assert minBuckets[..] == minBuckets[..MINUTES] == buckets[..MINUTES] == buckets;
    }

    method ImportSamples(samples: seq<Sample>)
      requires Valid() && |samples| <= LAT_CAP
      modifies this`latHead, this`latCount, latSamples
      ensures Valid() && Latency() == samples
    {
      ImportedRing(samples);
      for i := 0 to LAT_CAP
        invariant Valid() && latHead == old(latHead) && latCount == old(latCount)
        invariant latSamples[..i] == Padded(samples)[..i]
      {
        latSamples[i] := if i < |samples| then samples[i] else Sample(0, 0);
      }
      assert latSamples[..] == Padded(samples);
      latCount := |samples|;
      latHead := if |samples| > 0 then |samples| % LAT_CAP else 0;
    }

    method RelevantSamples(cutoff: nat) returns (relevant: seq<nat>)
      requires Valid()
      ensures relevant == Relevant(Latency(), cutoff)
    {
      hide Relevant;
      relevant := [];
      var start := (latHead + LAT_CAP - latCount) % LAT_CAP;
      ghost var all := Latency();
      RelevantNone(all, cutoff);
      for i := 0 to latCount
        invariant relevant == Relevant(all[..i], cutoff)
      {
        var s := latSamples[(start + i) % LAT_CAP];
        assert all[i] == s;
        RelevantStep(all, i, cutoff);
        if s.epochS >= cutoff {
          relevant := relevant + [s.us];
        } else {
          assert relevant + [] == relevant;
        }
      }
      assert all[..latCount] == all;
    }

    /** The values of rank 50, 95 and 99 per cent among the samples of the window, in milliseconds. */
    method GetLatencyStats(now: nat, windowSeconds: nat) returns (r: Latencies)
      requires Valid()
      ensures StatsOf(Relevant(Latency(), if now > windowSeconds then now - windowSeconds else 0), r)
      ensures Percentiles(Relevant(Latency(), if now > windowSeconds then now - windowSeconds else 0), r)
    {
      hide Relevant, Ring, Percentiles;
      var cutoff := if now > windowSeconds then now - windowSeconds else 0;
      var relevant := RelevantSamples(cutoff);
      if relevant == [] {
        r := Latencies(0.0, 0.0, 0.0);
        StatsByCounting(relevant, r);
        return;
      }
      var sorted := Sort(relevant);
      var n := |sorted|;
      r := Latencies(sorted[n * 50 / 100] as real / 1000.0, sorted[n * 95 / 100] as real / 1000.0,
                     sorted[n * 99 / 100] as real / 1000.0);
      StatsByCounting(relevant, r);
    }
  }
}
