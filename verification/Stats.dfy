/**
 The event timeline: `build_bucket_bounds` (services/api/stats_helpers.py) and the loop of `api_stats`
 that counts events per bucket and source (services/api/main.py).  Times are microseconds.
 */
module Stats {
  import opened Wrappers
  import opened Text
  import Counters

  const MINUTE: int := 60_000_000
  const HOUR: int := 60 * MINUTE
  const DAY: int := 24 * HOUR

  /** The bucket size and the number of buckets of a range. */
  datatype RangeSpec = RangeSpec(bucket: int, count: nat)

  const RANGE_SPECS: map<string, RangeSpec> := map[
    "1h" := RangeSpec(5 * MINUTE, 12),
    "1d" := RangeSpec(HOUR, 24),
    "7d" := RangeSpec(6 * HOUR, 28),
    "30d" := RangeSpec(DAY, 30),
    "1y" := RangeSpec(30 * DAY, 12)]

  function NormalizeRange(key: string): (r: string)
    ensures r in RANGE_SPECS
  {
    var k := Lower(Strip(if key == "" then "1h" else key));
    if k in RANGE_SPECS then k else "1h"
  }

  /** A range is known by its name, case and blanks apart; anything else is the last hour. */
  lemma RangeReads(key: string, range: string)
    requires range in ["1h", "1d", "7d", "30d", "1y"]
    ensures Lower(Strip(key)) == range ==> NormalizeRange(key) == range
    ensures Lower(Strip(key)) !in ["1h", "1d", "7d", "30d", "1y"] ==> NormalizeRange(key) == "1h"
  {
    hide Strip, Lower;
    StripIsStripped("1h");
    assert LowerChar('1') == '1' && LowerChar('h') == 'h';
    assert Lower("1h") == "1h";
    StripIsStripped("");
  }

  /** The buckets of a range cover it exactly, except that those of a year cover 360 days. */
  lemma RangesCovered()
    ensures forall key :: key in RANGE_SPECS ==>
              RANGE_SPECS[key].bucket * RANGE_SPECS[key].count ==
                if key == "1h" then HOUR else if key == "1d" then DAY else if key == "7d" then 7 * DAY
                else if key == "30d" then 30 * DAY else 360 * DAY
    ensures RANGE_SPECS["1h"].count == 12 && RANGE_SPECS["1d"].count == 24 && RANGE_SPECS["7d"].count == 28
    ensures RANGE_SPECS["30d"].count == 30 && RANGE_SPECS["1y"].count == 12
    ensures HOUR == 3_600_000_000 && DAY == 86_400_000_000
  {
  }

  datatype Event = Event(source: string, at: int)

  lemma Consecutive(spec: RangeSpec, now: int, j: nat)
    requires j < spec.count
    ensures now - spec.bucket * (spec.count - j - 1) == now - spec.bucket * (spec.count - j) + spec.bucket
  {
    assert spec.bucket * (spec.count - j) == spec.bucket * (spec.count - j - 1) + spec.bucket;
  }

  /** Half-open buckets, in time order. */
  method BuildBucketBounds(spec: RangeSpec, now: int) returns (bounds: seq<(int, int)>)
    ensures |bounds| == spec.count
    ensures forall i :: 0 <= i < spec.count ==>
              bounds[i] == (now - spec.bucket * (spec.count - i), now - spec.bucket * (spec.count - i - 1))
    ensures forall i :: 0 <= i < spec.count ==> bounds[i].1 == bounds[i].0 + spec.bucket
  {
    bounds := [];
    for i := spec.count downto 0
      invariant |bounds| == spec.count - i
      invariant forall j :: 0 <= j < |bounds| ==>
                  bounds[j] == (now - spec.bucket * (spec.count - j), now - spec.bucket * (spec.count - j - 1))
    {
      bounds := bounds + [(now - spec.bucket * (i + 1), now - spec.bucket * i)];
    }
    forall j | 0 <= j < spec.count ensures bounds[j].1 == bounds[j].0 + spec.bucket {
      Consecutive(spec, now, j);
    }
  }

  /** How many of the first `n` events are in [lo, hi), from one source or from all. */
  ghost function Events(events: seq<Event>, source: Option<string>, lo: int, hi: int, n: nat): nat
    requires n <= |events|
  {
    if n == 0 then 0
    else
      var e := events[n - 1];
      Events(events, source, lo, hi, n - 1) + (if lo <= e.at < hi && (source.None? || source.value == e.source) then 1 else 0)
  }

  /** The positions of those events. */
  ghost function Places(events: seq<Event>, source: Option<string>, lo: int, hi: int, n: nat): set<int>
    requires n <= |events|
  {
    set i | 0 <= i < n && lo <= events[i].at < hi && (source.None? || source.value == events[i].source)
  }

  lemma {:induction false} EventsAreCounted(events: seq<Event>, source: Option<string>, lo: int, hi: int, n: nat)
    requires n <= |events|
    ensures Events(events, source, lo, hi, n) == |Places(events, source, lo, hi, n)|
  {
    if n > 0 {
      EventsAreCounted(events, source, lo, hi, n - 1);
      var before, e := Places(events, source, lo, hi, n - 1), events[n - 1];
      assert Places(events, source, lo, hi, n) ==
             if lo <= e.at < hi && (source.None? || source.value == e.source) then before + {n - 1} else before;
    }
  }

  /** SELECT source_type, COUNT(*) ... GROUP BY source_type. */
  method CountBySource(events: seq<Event>, lo: int, hi: int) returns (rows: Counters.Counter)
    ensures Counters.Valid(rows)
    ensures forall s :: Counters.Get(rows, s) == Events(events, Some(s), lo, hi, |events|)
    ensures Counters.Total(rows) == Events(events, None, lo, hi, |events|)
  {
    rows := [];
    for i := 0 to |events|
      invariant Counters.Valid(rows)
      invariant forall s :: Counters.Get(rows, s) == Events(events, Some(s), lo, hi, i)
      invariant Counters.Total(rows) == Events(events, None, lo, hi, i)
    {
      if lo <= events[i].at < hi {
        Counters.AddCountsOne(rows, events[i].source);
        rows := Counters.Add(rows, events[i].source);
      }
    }
  }

  method SumCounts(rows: Counters.Counter) returns (total: nat)
    ensures total == Counters.Total(rows)
  {
    total := 0;
    var rest := rows;
    while rest != []
      invariant total + Counters.Total(rest) == Counters.Total(rows)
      decreases |rest|
    {
      total := total + rest[0].1;
      rest := rest[1..];
    }
  }

  datatype Bucket = Bucket(start: int, count: nat, bySource: Counters.Counter)

  /** The sum of the counts of the first `n` buckets. */
  ghost function CountSum(timeline: seq<Bucket>, n: nat): nat
    requires n <= |timeline|
  {
    if n == 0 then 0 else CountSum(timeline, n - 1) + timeline[n - 1].count
  }

  lemma SpecPositive(key: string)
    ensures RANGE_SPECS[NormalizeRange(key)].bucket > 0
  {
  }

  lemma {:induction false} EventsSplit(events: seq<Event>, lo: int, mid: int, hi: int, n: nat)
    requires n <= |events| && lo <= mid <= hi
    ensures Events(events, None, lo, hi, n) == Events(events, None, lo, mid, n) + Events(events, None, mid, hi, n)
  {
    if n > 0 {
      EventsSplit(events, lo, mid, hi, n - 1);
    }
  }

  lemma {:induction false} NoEvents(events: seq<Event>, at: int, n: nat)
    requires n <= |events|
    ensures Events(events, None, at, at, n) == 0
  {
    if n > 0 {
      NoEvents(events, at, n - 1);
    }
  }

  lemma Ordered(bucket: int, count: nat, n: nat)
    requires bucket > 0 && 0 < n <= count
    ensures bucket * (count - n) <= bucket * (count - (n - 1)) <= bucket * count
  {
  }

  /** Conservation: the counts of the first `n` buckets are the events of their joint span. */
  lemma {:induction false} CountsAddUp(events: seq<Event>, timeline: seq<Bucket>, bounds: seq<(int, int)>, spec: RangeSpec, now: int, n: nat)
    requires |timeline| == |bounds| == spec.count && n <= spec.count && spec.bucket > 0
    requires forall i :: 0 <= i < spec.count ==>
               bounds[i] == (now - spec.bucket * (spec.count - i), now - spec.bucket * (spec.count - i - 1))
    requires forall i :: 0 <= i < spec.count ==> timeline[i].count == Events(events, None, bounds[i].0, bounds[i].1, |events|)
    ensures CountSum(timeline, n) == Events(events, None, now - spec.bucket * spec.count, now - spec.bucket * (spec.count - n), |events|)
  {
    var start := now - spec.bucket * spec.count;
    if n == 0 {
      NoEvents(events, start, |events|);
    } else {
      CountsAddUp(events, timeline, bounds, spec, now, n - 1);
      Ordered(spec.bucket, spec.count, n);
      EventsSplit(events, start, bounds[n - 1].0, bounds[n - 1].1, |events|);
    }
  }

  /** The timeline of a range: one bucket after the other up to `now`, each with the events of its span per
      source; the counts add up to the events of the whole range. */
  method Timeline(events: seq<Event>, key: string, now: int) returns (timeline: seq<Bucket>)
    ensures var spec := RANGE_SPECS[NormalizeRange(key)];
            && |timeline| == spec.count
            && (forall i :: 0 <= i < |timeline| ==>
                  && timeline[i].start == now - spec.bucket * (spec.count - i)
                  && timeline[i].count == Counters.Total(timeline[i].bySource)
                  && forall s :: Counters.Get(timeline[i].bySource, s)
                                 == Events(events, Some(s), timeline[i].start, timeline[i].start + spec.bucket, |events|))
            && CountSum(timeline, spec.count) == Events(events, None, now - spec.bucket * spec.count, now, |events|)
  {
    hide Events, NormalizeRange;
    var spec := RANGE_SPECS[NormalizeRange(key)];
    var bounds := BuildBucketBounds(spec, now);
    timeline := [];
    SpecPositive(key);
    for i := 0 to |bounds|
      invariant |timeline| == i
      invariant forall j :: 0 <= j < i ==>
                  && timeline[j].start == bounds[j].0
                  && timeline[j].count == Counters.Total(timeline[j].bySource)
                  && timeline[j].count == Events(events, None, bounds[j].0, bounds[j].1, |events|)
                  && forall s :: Counters.Get(timeline[j].bySource, s) == Events(events, Some(s), bounds[j].0, bounds[j].1, |events|)
    {
      var (start, end) := bounds[i];
      var rows := CountBySource(events, start, end);
      var count := SumCounts(rows);
      timeline := timeline + [Bucket(start, count, rows)];
    }
    CountsAddUp(events, timeline, bounds, spec, now, spec.count);
  }

  ghost predicate InBucket(spec: RangeSpec, now: int, at: int, i: int) {
    now - spec.bucket * (spec.count - i) <= at < now - spec.bucket * (spec.count - i - 1)
  }

  lemma SmallMultiple(b: int, d: int)
    requires b > 0 && -b < b * d < b
    ensures d == 0
  {
  }

  lemma QuotientUnique(x: int, b: int, i: int)
    requires b > 0
    ensures b * i <= x < b * i + b <==> i == x / b
  {
    var q := x / b;
    assert x == b * q + x % b;
    if b * i <= x < b * i + b {
      var d := i - q;
      assert b * d == b * i - b * q;
      SmallMultiple(b, d);
    }
  }

  lemma BucketIndex(bucket: int, count: int, now: int, at: int, i: int)
    requires bucket > 0
    ensures now - bucket * (count - i) <= at < now - bucket * (count - i - 1) <==> i == (at - (now - bucket * count)) / bucket
  {
    var x := at - (now - bucket * count);
    assert bucket * (count - i) == bucket * count - bucket * i;
    assert bucket * (count - i - 1) == bucket * count - bucket * i - bucket;
    QuotientUnique(x, bucket, i);
  }

  lemma MulMonotone(b: int, x: int, y: int)
    requires b > 0 && x <= y
    ensures b * x <= b * y
  {
  }

  lemma IndexInRange(b: int, x: int, count: nat)
    requires b > 0
    ensures 0 <= x < b * count <==> 0 <= x / b < count
  {
    var q, r := x / b, x % b;
    assert x == b * q + r && 0 <= r < b;
    if q < count {
      MulMonotone(b, q + 1, count);
      assert b * (q + 1) == b * q + b;
    } else {
      MulMonotone(b, count, q);
    }
    if q < 0 {
      MulMonotone(b, q, -1);
    } else {
      MulMonotone(b, 0, q);
    }
  }

  /** Every time of the range is in exactly one bucket, and no other time is in any. */
  lemma ExactlyOneBucket(spec: RangeSpec, now: int, at: int)
    requires spec.bucket > 0
    ensures now - spec.bucket * spec.count <= at < now <==> exists i :: 0 <= i < spec.count && InBucket(spec, now, at, i)
    ensures forall i, j :: InBucket(spec, now, at, i) && InBucket(spec, now, at, j) ==> i == j
  {
    var start := now - spec.bucket * spec.count;
    forall i ensures InBucket(spec, now, at, i) <==> i == (at - start) / spec.bucket {
      BucketIndex(spec.bucket, spec.count, now, at, i);
    }
    var k := (at - start) / spec.bucket;
    IndexInRange(spec.bucket, at - start, spec.count);
    if 0 <= k < spec.count {
      assert InBucket(spec, now, at, k);
    }
  }
}
