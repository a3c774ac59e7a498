/**
 The per-host sliding-window rate limiter and the datagram handler of the syslog listener
 (services/api/syslog_server.py).

 Times are readings of the monotonic clock, in seconds.  `RecentOf` and `CountIn` are the
 reference notions: the accepted times not yet older than the window, and the number of
 accepted times inside a closed interval.
 */
module SyslogServer {
  import opened Wrappers
  import opened Histories

  const MAX_SYSLOG_BYTES: nat := 64 * 1024
  const SYSLOG_RATE_LIMIT: int := 200
  const SYSLOG_RATE_WINDOW_SEC: real := 1.0

  // ---------------------------------------------------------------- reference notions

  /** The times of `s` at or after `cutoff`, in order. */
  function Recent(s: seq<real>, cutoff: real): seq<real> {
    if s == [] then []
    else Recent(s[..|s| - 1], cutoff) + (if s[|s| - 1] >= cutoff then [s[|s| - 1]] else [])
  }

  ghost function RecentOf(h: History<real>, cutoff: real): seq<real> {
    match h
    case Start => []
    case Then(b, x) => RecentOf(b, cutoff) + (if x >= cutoff then [x] else [])
  }

  /** How many of the times lie in the closed interval [lo, hi]. */
  ghost function CountIn(h: History<real>, lo: real, hi: real): nat {
    match h
    case Start => 0
    case Then(b, x) => CountIn(b, lo, hi) + (if lo <= x <= hi then 1 else 0)
  }

  ghost predicate NoneAfter(h: History<real>, now: real) {
    h.Then? ==> h.last <= now && NoneAfter(h.before, now)
  }

  /** No time is earlier than the one before it. */
  ghost predicate Ordered(h: History<real>) {
    h.Then? ==> Ordered(h.before) && (h.before.Then? ==> h.before.last <= h.last)
  }

  function Bucket(buckets: map<string, seq<real>>, key: string): seq<real> {
    if key in buckets then buckets[key] else []
  }

  /** One call of `allow`: the new buckets and the answer. */
  function AllowStep(buckets: map<string, seq<real>>, key: string, now: real, limit: int, window: real)
    : (map<string, seq<real>>, bool)
  {
    var live := Recent(Bucket(buckets, key), now - window);
    if |live| >= limit then (buckets[key := live], false)
    else (buckets[key := live + [now]], true)
  }

  // ---------------------------------------------------------------- the limiter

  ghost predicate Sorted(s: seq<real>) {
    forall i, j :: 0 <= i < j < |s| ==> s[i] <= s[j]
  }

  lemma {:induction false} RecentOfSorted(s: seq<real>, cutoff: real, k: nat)
    requires Sorted(s) && k <= |s|
    requires forall i :: 0 <= i < k ==> s[i] < cutoff
    requires k < |s| ==> s[k] >= cutoff
    ensures Recent(s, cutoff) == s[k..]
  {
    if s == [] {
    } else if k == |s| {
      RecentOfSorted(s[..|s| - 1], cutoff, k - 1);
    } else {
      assert s[|s| - 1] >= cutoff;
      RecentOfSorted(s[..|s| - 1], cutoff, k);
      assert s[..|s| - 1][k..] + [s[|s| - 1]] == s[k..];
    }
  }

  lemma SortedEnds(s: seq<real>, k: nat, now: real)
    requires Sorted(s) && k <= |s| && forall i :: 0 <= i < |s| ==> s[i] <= now
    ensures Sorted(s[k..]) && Sorted(s[k..] + [now])
  {
  }

  class RateLimiter {
    const limit: int
    const window: real
    var buckets: map<string, seq<real>>
    ghost var clock: real  // the last reading of the monotonic clock

    ghost predicate Valid()
      reads this
    {
      forall h :: h in buckets ==> Sorted(buckets[h]) && forall i :: 0 <= i < |buckets[h]| ==> buckets[h][i] <= clock
    }

    constructor (limit: int, window: real, ghost now: real)
      ensures this.limit == limit && this.window == window && clock == now
      ensures Valid() && buckets == map[]
    {
      this.limit, this.window := limit, window;
      buckets := map[];
      clock := now;
    }

    method Allow(key: string, now: real) returns (ok: bool)
      requires Valid() && clock <= now
      modifies this
      ensures Valid() && clock == now
      ensures (buckets, ok) == AllowStep(old(buckets), key, now, limit, window)
    {
      hide Recent;
      var bucket := if key in buckets then buckets[key] else [];
      ghost var start, dropped := bucket, 0;
      var cutoff := now - window;
      while bucket != [] && bucket[0] < cutoff
        invariant dropped <= |start| && bucket == start[dropped..]
        invariant forall i :: 0 <= i < dropped ==> start[i] < cutoff
      {
        bucket, dropped := bucket[1..], dropped + 1;
      }
      RecentOfSorted(start, cutoff, dropped);
      SortedEnds(start, dropped, now);
      clock := now;
      hide Sorted;
      if |bucket| >= limit {
        buckets := buckets[key := bucket];
        return false;
      }
      bucket := bucket + [now];
      buckets := buckets[key := bucket];
      return true;
    }
  }

  // ---------------------------------------------------------------- runs of the limiter

  datatype Call = Call(host: string, at: real)

  ghost predicate ClockOrdered(run: History<Call>) {
    run.Then? ==> ClockOrdered(run.before) && (run.before.Then? ==> run.before.last.at <= run.last.at)
  }

  /** The limiter's buckets after a run, hosts interleaved at will. */
  ghost function BucketsAfter(run: History<Call>, limit: int, window: real): map<string, seq<real>> {
    match run
    case Start => map[]
    case Then(b, c) => AllowStep(BucketsAfter(b, limit, window), c.host, c.at, limit, window).0
  }

  /** The answer to a call made after a run. */
  ghost predicate Allowed(run: History<Call>, c: Call, limit: int, window: real) {
    AllowStep(BucketsAfter(run, limit, window), c.host, c.at, limit, window).1
  }

  /** The times at which `h` was answered true. */
  ghost function Accepted(run: History<Call>, h: string, limit: int, window: real): History<real> {
    match run
    case Start => Start
    case Then(b, c) =>
      var acc := Accepted(b, h, limit, window);
      if c.host == h && Allowed(b, c, limit, window) then Then(acc, c.at) else acc
  }

  ghost function Arrivals(run: History<Call>, h: string): History<real> {
    match run
    case Start => Start
    case Then(b, c) => if c.host == h then Then(Arrivals(b, h), c.at) else Arrivals(b, h)
  }

  lemma {:induction false} NoneAfterLater(h: History<real>, early: real, late: real)
    requires NoneAfter(h, early) && early <= late
    ensures NoneAfter(h, late)
  {
    if h.Then? {
      NoneAfterLater(h.before, early, late);
    }
  }

  lemma {:induction false} ArrivalsOrdered(run: History<Call>, h: string)
    requires ClockOrdered(run)
    ensures Ordered(Arrivals(run, h))
    ensures run.Then? ==> NoneAfter(Arrivals(run, h), run.last.at)
  {
    if run.Then? {
      ArrivalsOrdered(run.before, h);
      if run.before.Then? {
        NoneAfterLater(Arrivals(run.before, h), run.before.last.at, run.last.at);
      }
    }
  }

  lemma {:induction false} AcceptedNoneAfter(run: History<Call>, h: string, limit: int, window: real, now: real)
    requires NoneAfter(Arrivals(run, h), now)
    ensures NoneAfter(Accepted(run, h, limit, window), now)
  {
    if run.Then? {
      AcceptedNoneAfter(run.before, h, limit, window, now);
    }
  }

  lemma {:induction false} RecentIsCount(h: History<real>, lo: real, hi: real)
    requires NoneAfter(h, hi)
    ensures |RecentOf(h, lo)| == CountIn(h, lo, hi)
  {
    if h.Then? {
      RecentIsCount(h.before, lo, hi);
    }
  }

  lemma RecentSnoc(s: seq<real>, x: real, cutoff: real)
    ensures Recent(s + [x], cutoff) == Recent(s, cutoff) + (if x >= cutoff then [x] else [])
  {
    assert (s + [x])[..|s|] == s;
  }

  lemma {:induction false} RecentTwice(h: History<real>, early: real, late: real)
    requires early <= late
    ensures Recent(RecentOf(h, early), late) == RecentOf(h, late)
  {
    if h.Then? {
      RecentTwice(h.before, early, late);
      if h.last >= early {
        RecentSnoc(RecentOf(h.before, early), h.last, late);
      } else {
        assert RecentOf(h, early) == RecentOf(h.before, early);
      }
    }
  }

  lemma {:induction false} NoArrivalsNoneAccepted(run: History<Call>, h: string, limit: int, window: real)
    requires Arrivals(run, h) == Start
    ensures Accepted(run, h, limit, window) == Start
  {
    if run.Then? {
      NoArrivalsNoneAccepted(run.before, h, limit, window);
    }
  }

  /** Exact refinement: a bucket is the host's accepted times still inside the window that ended
      at the host's last call. */
  lemma {:induction false} BucketIsRecentAccepted(run: History<Call>, h: string, limit: int, window: real)
    requires ClockOrdered(run) && window >= 0.0
    ensures var arr := Arrivals(run, h);
            Bucket(BucketsAfter(run, limit, window), h) ==
              if arr == Start then [] else RecentOf(Accepted(run, h, limit, window), arr.last - window)
  {
    hide Recent, Ordered, NoneAfter;
    if run.Then? {
      BucketIsRecentAccepted(run.before, h, limit, window);
      if run.last.host == h {
        ArrivalsOrdered(run, h);
        LiveIsRecentAccepted(run.before, run.last, limit, window);
      }
    }
  }

  /** What a call finds in its bucket once the old times are dropped. */
  lemma {:induction false} LiveIsRecentAccepted(run: History<Call>, c: Call, limit: int, window: real)
    requires ClockOrdered(Then(run, c)) && window >= 0.0
    ensures Recent(Bucket(BucketsAfter(run, limit, window), c.host), c.at - window)
         == RecentOf(Accepted(run, c.host, limit, window), c.at - window)
  {
    BucketIsRecentAccepted(run, c.host, limit, window);
    ArrivalsOrdered(Then(run, c), c.host);
    var arr := Arrivals(run, c.host);
    if arr.Then? {
      RecentTwice(Accepted(run, c.host, limit, window), arr.last - window, c.at - window);
    } else {
      NoArrivalsNoneAccepted(run, c.host, limit, window);
    }
  }

  /** `allow` answers true iff the host has fewer than `limit` accepted times in the closed
      window that ends at the call. */
  lemma AllowedIffFewRecent(run: History<Call>, c: Call, limit: int, window: real)
    requires ClockOrdered(Then(run, c)) && window >= 0.0
    ensures Allowed(run, c, limit, window) <==>
              CountIn(Accepted(run, c.host, limit, window), c.at - window, c.at) < limit
  {
    LiveIsRecentAccepted(run, c, limit, window);
    ArrivalsOrdered(Then(run, c), c.host);
    AcceptedNoneAfter(run, c.host, limit, window, c.at);
    RecentIsCount(Accepted(run, c.host, limit, window), c.at - window, c.at);
  }

  // ---------------------------------------------------------------- greedy selection

  /** The selection that takes an arrival whenever fewer than `limit` taken ones are at most `window` old. */
  ghost function Greedy(ts: History<real>, limit: int, window: real): History<real> {
    match ts
    case Start => Start
    case Then(b, t) =>
      var g := Greedy(b, limit, window);
      if CountIn(g, t - window, t) < limit then Then(g, t) else g
  }

  /** Any other selection: `sel` says of each arrival, by its position, whether it is taken. */
  ghost function Pick(ts: History<real>, sel: nat -> bool): History<real> {
    match ts
    case Start => Start
    case Then(b, t) => if sel(Length(b)) then Then(Pick(b, sel), t) else Pick(b, sel)
  }

  /** No closed interval of length `window`, wherever it is placed, holds more than `limit` times. */
  ghost predicate WithinWindow(h: History<real>, limit: int, window: real) {
    forall lo, hi :: hi == lo + window ==> CountIn(h, lo, hi) <= limit
  }

  /** Per host, the limiter is the greedy selection, whatever the other hosts send. */
  lemma {:induction false} AcceptedIsGreedy(run: History<Call>, h: string, limit: int, window: real)
    requires ClockOrdered(run) && window >= 0.0
    ensures Accepted(run, h, limit, window) == Greedy(Arrivals(run, h), limit, window)
  {
    if run.Then? {
      AcceptedIsGreedy(run.before, h, limit, window);
      if run.last.host == h {
        AllowedIffFewRecent(run.before, run.last, limit, window);
      }
    }
  }

  lemma {:induction false} CountInNarrower(h: History<real>, lo: real, hi: real, lo': real, hi': real)
    requires lo' <= lo && NoneAfter(h, hi')
    ensures CountIn(h, lo, hi) <= CountIn(h, lo', hi')
  {
    if h.Then? {
      CountInNarrower(h.before, lo, hi, lo', hi');
    }
  }

  lemma {:induction false} GreedyNoneAfter(ts: History<real>, limit: int, window: real, now: real)
    requires NoneAfter(ts, now)
    ensures NoneAfter(Greedy(ts, limit, window), now)
  {
    if ts.Then? {
      GreedyNoneAfter(ts.before, limit, window, now);
    }
  }

  lemma {:induction false} OrderedNoneAfterLast(ts: History<real>)
    requires Ordered(ts) && ts.Then?
    ensures NoneAfter(ts.before, ts.last)
  {
    if ts.before.Then? {
      OrderedNoneAfterLast(ts.before);
      NoneAfterLater(ts.before.before, ts.before.last, ts.last);
    }
  }

  /** Window safety of the greedy selection, for every placement of the window. */
  lemma {:induction false} GreedyWithinWindow(ts: History<real>, limit: int, window: real)
    requires Ordered(ts) && limit >= 0
    ensures WithinWindow(Greedy(ts, limit, window), limit, window)
  {
    if ts.Then? {
      var g, t := Greedy(ts.before, limit, window), ts.last;
      GreedyWithinWindow(ts.before, limit, window);
      OrderedNoneAfterLast(ts);
      GreedyNoneAfter(ts.before, limit, window, t);
      forall lo, hi | hi == lo + window ensures CountIn(Greedy(ts, limit, window), lo, hi) <= limit {
        assert CountIn(g, lo, hi) <= limit;
        if lo <= t <= hi {
          CountInNarrower(g, lo, hi, t - window, t);
        }
      }
    }
  }

  /** Window safety of the limiter: over every run, for every host, wherever the window is placed. */
  lemma NoWindowOverLimit(run: History<Call>, h: string, limit: int, window: real)
    requires ClockOrdered(run) && window >= 0.0 && limit >= 0
    ensures WithinWindow(Accepted(run, h, limit, window), limit, window)
  {
    AcceptedIsGreedy(run, h, limit, window);
    ArrivalsOrdered(run, h);
    GreedyWithinWindow(Arrivals(run, h), limit, window);
  }

  /** The k-th item of `early` is never later than the k-th item of `late`, and there are at least as many. */
  ghost predicate Dominates(early: History<real>, late: History<real>) {
    && Length(late) <= Length(early)
    && forall k :: 0 <= k < Length(late) ==> Items(early)[k] <= Items(late)[k]
  }

  lemma {:induction false} LaterHasMoreRecent(early: History<real>, late: History<real>, cutoff: real)
    requires Dominates(early, late) && Length(early) == Length(late)
    ensures |RecentOf(early, cutoff)| <= |RecentOf(late, cutoff)|
  {
    if early.Then? {
      forall k | 0 <= k < Length(late.before) ensures Items(early.before)[k] <= Items(late.before)[k] {
        assert Items(early)[k] == Items(early.before)[k] && Items(late)[k] == Items(late.before)[k];
      }
      assert Items(early)[Length(late) - 1] <= Items(late)[Length(late) - 1];
      LaterHasMoreRecent(early.before, late.before, cutoff);
    }
  }

  lemma {:induction false} NoneAfterItems(h: History<real>, now: real)
    requires NoneAfter(h, now)
    ensures forall k :: 0 <= k < Length(h) ==> Items(h)[k] <= now
  {
    if h.Then? {
      NoneAfterItems(h.before, now);
    }
  }

  lemma {:induction false} PickNoneAfter(ts: History<real>, sel: nat -> bool, now: real)
    requires NoneAfter(ts, now)
    ensures NoneAfter(Pick(ts, sel), now)
  {
    if ts.Then? {
      PickNoneAfter(ts.before, sel, now);
    }
  }

  lemma WithinWindowBefore(ts: History<real>, sel: nat -> bool, limit: int, window: real)
    requires ts.Then? && WithinWindow(Pick(ts, sel), limit, window)
    ensures WithinWindow(Pick(ts.before, sel), limit, window)
  {
    forall lo, hi | hi == lo + window ensures CountIn(Pick(ts.before, sel), lo, hi) <= limit {
      assert CountIn(Pick(ts, sel), lo, hi) <= limit;
    }
  }

  /** Greedy optimality: against any selection that respects the window, the greedy one has taken
      at least as many arrivals, and its k-th taken arrival is never later. */
  lemma {:induction false} GreedyDominates(ts: History<real>, sel: nat -> bool, limit: int, window: real)
    requires Ordered(ts) && window >= 0.0
    requires WithinWindow(Pick(ts, sel), limit, window)
    ensures Dominates(Greedy(ts, limit, window), Pick(ts, sel))
  {
    if ts.Then? {
      var t, p, g := ts.last, Pick(ts.before, sel), Greedy(ts.before, limit, window);
      WithinWindowBefore(ts, sel, limit, window);
      GreedyDominates(ts.before, sel, limit, window);
      OrderedNoneAfterLast(ts);
      GreedyNoneAfter(ts.before, limit, window, t);
      NoneAfterItems(g, t);
      if sel(Length(ts.before)) && Length(p) == Length(g) {
        PickNoneAfter(ts.before, sel, t);
        assert CountIn(Pick(ts, sel), t - window, t) <= limit;
        RecentIsCount(p, t - window, t);
        RecentIsCount(g, t - window, t);
        LaterHasMoreRecent(g, p, t - window);
      }
    }
  }

  /** The limiter is optimal for every host over every run, so in particular at every prefix of a
      run: no way of choosing among the host's arrivals that keeps every window to `limit` has
      more acceptances, or has its k-th acceptance earlier. */
  lemma LimiterIsOptimal(run: History<Call>, h: string, sel: nat -> bool, limit: int, window: real)
    requires ClockOrdered(run) && window >= 0.0
    requires WithinWindow(Pick(Arrivals(run, h), sel), limit, window)
    ensures Dominates(Accepted(run, h, limit, window), Pick(Arrivals(run, h), sel))
  {
    ArrivalsOrdered(run, h);
    AcceptedIsGreedy(run, h, limit, window);
    GreedyDominates(Arrivals(run, h), sel, limit, window);
  }

  // ---------------------------------------------------------------- the datagram handler

  /** A datagram at its arrival: `text` is what decoding and stripping its bytes gives, and
      `raises` says whether the message handler would raise on it. */
  datatype Datagram = Datagram(addr: Option<string>, size: nat, text: string, raises: bool, at: real)

  datatype Protocol = Protocol(buckets: map<string, seq<real>>, dropped: nat, delivered: seq<(string, string)>)

  function HostOf(d: Datagram): string {
    d.addr.GetOr("unknown")
  }

  /** One call of `datagram_received`. */
  function DatagramStep(p: Protocol, d: Datagram): Protocol {
    if d.size > MAX_SYSLOG_BYTES then p.(dropped := p.dropped + 1)
    else
      var (buckets, ok) := AllowStep(p.buckets, HostOf(d), d.at, SYSLOG_RATE_LIMIT, SYSLOG_RATE_WINDOW_SEC);
      if !ok then p.(buckets := buckets, dropped := p.dropped + 1)
      else if d.text == "" || d.raises then p.(buckets := buckets)
      else p.(buckets := buckets, delivered := p.delivered + [(d.text, HostOf(d))])
  }

  class SyslogProtocol {
    const limiter: RateLimiter
    var dropped: nat
    var delivered: seq<(string, string)>  // the messages the handler has taken

    ghost predicate Valid()
      reads this, limiter
    {
      limiter.Valid() && limiter.limit == SYSLOG_RATE_LIMIT && limiter.window == SYSLOG_RATE_WINDOW_SEC
    }

    ghost function State(): Protocol
      reads this, limiter
    {
      Protocol(limiter.buckets, dropped, delivered)
    }

    constructor (ghost now: real)
      ensures Valid() && fresh(limiter) && limiter.clock == now
      ensures State() == Protocol(map[], 0, [])
    {
      limiter := new RateLimiter(SYSLOG_RATE_LIMIT, SYSLOG_RATE_WINDOW_SEC, now);
      dropped, delivered := 0, [];
    }

    method DatagramReceived(d: Datagram)
      requires Valid() && limiter.clock <= d.at
      modifies this, limiter
      ensures Valid() && limiter.clock <= d.at
      ensures State() == DatagramStep(old(State()), d)
    {
      var host := match d.addr case Some(a) => a case None => "unknown";
      if d.size > MAX_SYSLOG_BYTES {
        dropped := dropped + 1;
        return;
      }
      var ok := limiter.Allow(host, d.at);
      if !ok {
        dropped := dropped + 1;
        return;
      }
      if d.text == "" {
        return;
      }
      if !d.raises {
        delivered := delivered + [(d.text, host)];
      }
    }
  }

  ghost function ProtocolAfter(run: History<Datagram>): Protocol {
    match run
    case Start => Protocol(map[], 0, [])
    case Then(b, d) => DatagramStep(ProtocolAfter(b), d)
  }

  /** The calls of the limiter a run of datagrams makes: oversize datagrams make none. */
  ghost function CallsOf(run: History<Datagram>): History<Call> {
    match run
    case Start => Start
    case Then(b, d) =>
      if d.size > 65536 then CallsOf(b) else Then(CallsOf(b), Call(if d.addr.Some? then d.addr.value else "unknown", d.at))
  }

  /** The four ways a datagram can end. */
  datatype Fate = Dropped | Blank | Lost | Delivered

  ghost function FateOf(run: History<Datagram>, d: Datagram): Fate {
    if d.size > 65536
       || !Allowed(CallsOf(run), Call(HostOf(d), d.at), 200, 1.0) then Dropped
    else if d.text == "" then Blank
    else if d.raises then Lost
    else Delivered
  }

  /** What the handler is given, in order: the text and the host of each datagram delivered. */
  ghost function Handed(run: History<Datagram>): seq<(string, string)> {
    match run
    case Start => []
    case Then(b, d) =>
      Handed(b) + if FateOf(b, d) == Delivered then [(d.text, if d.addr.Some? then d.addr.value else "unknown")] else []
  }

  ghost function CountFate(run: History<Datagram>, fate: Fate): nat {
    match run
    case Start => 0
    case Then(b, d) => CountFate(b, fate) + (if FateOf(b, d) == fate then 1 else 0)
  }

  /** Every datagram is delivered, blank, lost to an exception of the handler, or counted once as
      dropped; and the limiter has seen exactly the datagrams that are not oversize. */
  lemma {:induction false} EveryDatagramAccountedFor(run: History<Datagram>)
    ensures var p := ProtocolAfter(run);
            && p.dropped == CountFate(run, Dropped)
            && |p.delivered| == CountFate(run, Delivered) && p.delivered == Handed(run)
            && p.dropped + |p.delivered| + CountFate(run, Blank) + CountFate(run, Lost) == Length(run)
            && p.buckets == BucketsAfter(CallsOf(run), SYSLOG_RATE_LIMIT, SYSLOG_RATE_WINDOW_SEC)
  {
    if run.Then? {
      EveryDatagramAccountedFor(run.before);
    }
  }

  ghost predicate DatagramsOrdered(run: History<Datagram>) {
    run.Then? ==> DatagramsOrdered(run.before) && (run.before.Then? ==> run.before.last.at <= run.last.at)
  }

  ghost function DeliveryTimes(run: History<Datagram>, h: string): History<real> {
    match run
    case Start => Start
    case Then(b, d) =>
      if HostOf(d) == h && FateOf(b, d) == Delivered then Then(DeliveryTimes(b, h), d.at) else DeliveryTimes(b, h)
  }

  lemma {:induction false} DeliveriesAreAccepted(run: History<Datagram>, h: string, lo: real, hi: real)
    ensures CountIn(DeliveryTimes(run, h), lo, hi)
         <= CountIn(Accepted(CallsOf(run), h, SYSLOG_RATE_LIMIT, SYSLOG_RATE_WINDOW_SEC), lo, hi)
  {
    if run.Then? {
      DeliveriesAreAccepted(run.before, h, lo, hi);
    }
  }

  lemma {:induction false} CallsOrdered(run: History<Datagram>)
    requires DatagramsOrdered(run)
    ensures ClockOrdered(CallsOf(run))
    ensures CallsOf(run).Then? ==> run.Then? && CallsOf(run).last.at <= run.last.at
  {
    if run.Then? {
      CallsOrdered(run.before);
    }
  }

  /** No second-long window of any placement holds more than 200 deliveries from one host. */
  lemma NoBurstDelivered(run: History<Datagram>, h: string)
    requires DatagramsOrdered(run)
    ensures WithinWindow(DeliveryTimes(run, h), 200, 1.0)
  {
    CallsOrdered(run);
    NoWindowOverLimit(CallsOf(run), h, SYSLOG_RATE_LIMIT, SYSLOG_RATE_WINDOW_SEC);
    forall lo, hi | hi == lo + SYSLOG_RATE_WINDOW_SEC
      ensures CountIn(DeliveryTimes(run, h), lo, hi) <= SYSLOG_RATE_LIMIT
    {
      DeliveriesAreAccepted(run, h, lo, hi);
    }
  }
}
