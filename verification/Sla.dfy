/**
 Acknowledge and close targets of an alert (services/api/sla.py).  Times are microseconds; the
 at-risk ratio 0.8 is written as 5 * elapsed >= 4 * target.
 */
module Sla {
  import opened Wrappers
  import opened Histories
  import opened Text
  import opened Workflow

  const MINUTE: int := 60_000_000
  const MAX_SLA_MINUTES: int := 10080 * 4
  const SLA_SEVERITIES: seq<string> := ["critical", "high", "medium", "low"]

  type SlaMap = map<string, int>

  const DEFAULT_SLA_ACK_MINUTES: SlaMap := map["critical" := 15, "high" := 30, "medium" := 240, "low" := 1440]
  const DEFAULT_SLA_CLOSE_MINUTES: SlaMap := map["critical" := 120, "high" := 480, "medium" := 1440, "low" := 10080]

  // ---------------------------------------------------------------- normalize_sla_map

  /** What the caller passed: nothing (or blank text), something that is not an object (or not
      JSON), or an object; a member is the integer Python's `int` makes of it, or None if it raises. */
  datatype RawMap = Absent | NotAnObject | Object(members: map<string, Option<int>>)

  predicate GoodMinutes(v: Option<int>) {
    v.Some? && 0 <= v.value <= MAX_SLA_MINUTES
  }

  /** No defaults, or empty ones, stand for the acknowledge targets. */
  function BaseMap(defaults: Option<SlaMap>): SlaMap {
    if defaults.None? || defaults.value == map[] then DEFAULT_SLA_ACK_MINUTES else defaults.value
  }

  ghost predicate IsOverride(members: map<string, Option<int>>, defaults: SlaMap, out: SlaMap) {
    && (forall sev :: sev in out <==> sev in defaults || (sev in ["critical", "high", "medium", "low"] && sev in members))
    && (forall sev :: sev in out ==>
          if sev in ["critical", "high", "medium", "low"] && sev in members then members[sev] == Some(out[sev])
          else sev in defaults && out[sev] == defaults[sev])
  }

  /** The severities of `raw` replace those of the defaults, and nothing else changes; one bad
      member refuses the whole map. */
  method NormalizeSlaMap(raw: RawMap, defaults: Option<SlaMap>) returns (r: Result<SlaMap, string>)
    ensures raw.Absent? ==>
              r == Ok(if defaults.None? || defaults.value == map[] then map["critical" := 15, "high" := 30, "medium" := 240, "low" := 1440]
                      else defaults.value)
    ensures raw.NotAnObject? ==> r.Err?
    ensures raw.Object? ==>
              (r.Ok? <==> forall sev :: sev in ["critical", "high", "medium", "low"] && sev in raw.members ==>
                            raw.members[sev].Some? && 0 <= raw.members[sev].value <= 40320)
    ensures raw.Object? && r.Ok? ==> IsOverride(raw.members, BaseMap(defaults), r.value)
  {
    var base := BaseMap(defaults);
    if raw.Absent? {
      return Ok(base);
    }
    if raw.NotAnObject? {
      return Err("SLA map must be an object of severity -> minutes");
    }
    var out := base;
    for i := 0 to |SLA_SEVERITIES|
      invariant forall j :: 0 <= j < i && SLA_SEVERITIES[j] in raw.members ==> GoodMinutes(raw.members[SLA_SEVERITIES[j]])
      invariant out.Keys == base.Keys + (set sev | sev in SLA_SEVERITIES[..i] && sev in raw.members)
      invariant forall sev :: sev in out ==>
                  (sev in SLA_SEVERITIES[..i] && sev in raw.members && raw.members[sev].Some? && out[sev] == raw.members[sev].value)
                  || ((sev !in SLA_SEVERITIES[..i] || sev !in raw.members) && sev in base && out[sev] == base[sev])
    {
      var sev := SLA_SEVERITIES[i];
      assert SLA_SEVERITIES[..i + 1] == SLA_SEVERITIES[..i] + [sev];
      if sev in raw.members {
        if !GoodMinutes(raw.members[sev]) {
          return Err("SLA minutes out of range");
        }
        out := out[sev := raw.members[sev].value];
      }
    }
    assert SLA_SEVERITIES[..|SLA_SEVERITIES|] == SLA_SEVERITIES;
    return Ok(out);
  }

  // ---------------------------------------------------------------- the SLA of one clock

  datatype SlaStatus = Na | Fine | AtRisk | Breached | Met

  datatype SlaClock = SlaClock(target: int, dueAt: Option<int>, elapsed: int, remaining: Option<int>, status: SlaStatus)

  function StatusFor(target: int, start: int, doneAt: Option<int>, now: int): SlaClock {
    if target <= 0 then SlaClock(0, None, 0, None, Na)
    else
      var due := start + target * MINUTE;
      var end := doneAt.GetOr(now);
      var minutes := (end - start) / MINUTE;
      var elapsed := if minutes < 0 then 0 else minutes;
      if doneAt.Some? then
        SlaClock(target, Some(due), elapsed, None, if doneAt.value <= due then Met else Breached)
      else
        SlaClock(target, Some(due), elapsed, Some((due - now) / MINUTE),
                 if now >= due then Breached
                 else if 5 * (now - start) >= 4 * (target * MINUTE) then AtRisk
                 else Fine)
  }

  function Rank(s: SlaStatus): int {
    match s
    case Fine => 0
    case AtRisk => 1
    case Breached => 2
    case Met => -1
    case Na => -1
  }

  lemma DivisionMonotone(a: int, b: int)
    requires a <= b
    ensures a / MINUTE <= b / MINUTE
  {
  }

  /** While nothing is done, the status only gets worse: ok, then at risk, then breached. */
  lemma PendingOnlyWorsens(target: int, start: int, now: int, later: int)
    requires target > 0 && now <= later
    ensures 0 <= Rank(StatusFor(target, start, None, now).status) <= Rank(StatusFor(target, start, None, later).status)
    ensures StatusFor(target, start, None, now).elapsed <= StatusFor(target, start, None, later).elapsed
    ensures StatusFor(target, start, None, now).remaining.value >= StatusFor(target, start, None, later).remaining.value
  {
    DivisionMonotone(now - start, later - start);
    DivisionMonotone(start + target * MINUTE - later, start + target * MINUTE - now);
  }

  /** What a clock shows: its target and due time; the whole minutes from the start to the end or the present,
      none if that is earlier; and met or breached at its end, or the status and the whole minutes left while
      pending.  A target of zero or less switches it off. */
  lemma ClockReads(target: int, start: int, doneAt: Option<int>, now: int)
    ensures var c, due := StatusFor(target, start, doneAt, now), start + target * 60_000_000;
            var past := (if doneAt.Some? then doneAt.value else now) - start;
            if target <= 0 then c.target == 0 && c.dueAt.None? && c.elapsed == 0 && c.remaining.None? && c.status == Na
            else
              && c.target == target && c.dueAt == Some(due)
              && c.elapsed * 60_000_000 <= (if past < 0 then 0 else past) < (c.elapsed + 1) * 60_000_000
              && (doneAt.Some? ==> c.remaining.None? && c.status == if doneAt.value > due then Breached else Met)
              && (doneAt.None? ==>
                    && c.remaining.Some? && c.remaining.value * 60_000_000 <= due - now < (c.remaining.value + 1) * 60_000_000
                    && c.status == if due <= now then Breached
                                   else if 5 * (due - now) <= target * 60_000_000 then AtRisk else Fine)
  {
  }

  /** A pending clock is breached from its due time on, at risk in the last fifth before it, and the
      whole minutes it shows as elapsed and left agree with the target up to the rounding. */
  lemma RemainingAgreesWithStatus(target: int, start: int, now: int)
    requires target > 0
    ensures var c := StatusFor(target, start, None, now);
            && (c.status == Breached <==> c.remaining.value < 0 || c.dueAt == Some(now))
            && (start <= now ==> c.target - 1 <= c.elapsed + c.remaining.value <= c.target)
            && (c.status == AtRisk <==> now < c.dueAt.value && 5 * (c.dueAt.value - now) <= target * MINUTE)
  {
    var done, left := now - start, start + target * MINUTE - now;
    assert done == MINUTE * (done / MINUTE) + done % MINUTE;
    assert left == MINUTE * (left / MINUTE) + left % MINUTE;
  }

  // ---------------------------------------------------------------- compute_alert_sla

  /** The attributes of an alert that the SLA reads; each may be missing. */
  datatype AlertView = AlertView(
    severity: Option<string>, status: Option<string>,
    createdAt: Option<int>, ackedAt: Option<int>, closedAt: Option<int>)

  datatype AlertSla = AlertSla(ack: SlaClock, close: SlaClock)

  function OrText(s: Option<string>, default: string): string {
    if s.None? || s.value == "" then default else s.value
  }

  function SeverityOf(v: AlertView): string {
    var sev := Lower(Strip(OrText(v.severity, "medium")));
    if sev in SLA_SEVERITIES then sev else "medium"
  }

  /** The target of a severity; an empty map stands for the defaults, and a severity the map lacks
      takes the default of `medium`. */
  function TargetFor(configured: SlaMap, defaults: SlaMap, sev: string): int
    requires "medium" in defaults
  {
    var m := if configured == map[] then defaults else configured;
    if sev in m then m[sev] else defaults["medium"]
  }

  function ComputeAlertSla(v: AlertView, ackMap: SlaMap, closeMap: SlaMap, now: int): AlertSla {
    var created := v.createdAt.GetOr(now);
    var sev := SeverityOf(v);
    var status := Lower(Strip(OrText(v.status, "open")));
    var ackDone := if status == "open" then None else Some(v.ackedAt.GetOr(created));
    var closeDone := if status == "closed" then Some(v.closedAt.GetOr(now)) else None;
    AlertSla(
      StatusFor(TargetFor(ackMap, DEFAULT_SLA_ACK_MINUTES, sev), created, ackDone, now),
      StatusFor(TargetFor(closeMap, DEFAULT_SLA_CLOSE_MINUTES, sev), created, closeDone, now))
  }

  lemma MediumReads()
    ensures Lower(Strip("medium")) == "medium"
  {
    hide Strip, Lower;
    StripIsStripped("medium");
    assert forall i :: 0 <= i < 6 ==> LowerChar("medium"[i]) == "medium"[i];
  }

  lemma SeverityReading(v: AlertView, severity: string)
    ensures severity != "" ==> SeverityOf(v.(severity := Some(severity))) == SeverityOf(v.(severity := Some(Lower(Strip(severity)))))
    ensures Lower(Strip(severity)) !in SLA_SEVERITIES ==>
              SeverityOf(v.(severity := Some(severity))) == SeverityOf(v.(severity := None)) == "medium"
  {
    hide Strip, Lower, Stripped;
    StripIsStripped(severity);
    LowerStrippedStays(Strip(severity));
    StripIsStripped(Lower(Strip(severity)));
    MediumReads();
  }

  /** Only the reading of the severity counts: a severity and its lower-case, stripped form have the same
      clocks, and so have any two outside the four that have targets, or none at all. */
  lemma SeveritySpelling(v: AlertView, severity: string, other: string, ackMap: SlaMap, closeMap: SlaMap, now: int)
    requires severity != ""
    ensures ComputeAlertSla(v.(severity := Some(severity)), ackMap, closeMap, now)
         == ComputeAlertSla(v.(severity := Some(Lower(Strip(severity)))), ackMap, closeMap, now)
    ensures Lower(Strip(severity)) !in SLA_SEVERITIES && Lower(Strip(other)) !in SLA_SEVERITIES ==>
              ComputeAlertSla(v.(severity := Some(severity)), ackMap, closeMap, now)
              == ComputeAlertSla(v.(severity := Some(other)), ackMap, closeMap, now)
              == ComputeAlertSla(v.(severity := None), ackMap, closeMap, now)
  {
    hide StatusFor, SeverityOf;
    SeverityReading(v, severity);
    SeverityReading(v, other);
  }

  // ---------------------------------------------------------------- the SLA over runs of the workflow

  ghost function ViewOf(a: AlertState, severity: Option<string>, created: int): AlertView {
    AlertView(severity, Some(a.status), Some(created), a.ackedAt, a.closedAt)
  }

  /** The severity that counts: the one given, case and blanks apart, if it is one of the four, else medium. */
  ghost function Counted(severity: Option<string>): string {
    var sev := if severity.Some? then Lower(Strip(severity.value)) else "";
    if sev == "critical" || sev == "high" || sev == "low" then sev else "medium"
  }

  /** The acknowledge target of a severity: the map's minutes, if the map has any; where it lacks the severity,
      those of medium by default; and with no map at all the default of the severity. */
  ghost function AckTarget(severity: Option<string>, ackMap: SlaMap): int {
    var sev := Counted(severity);
    if ackMap != map[] then (if sev in ackMap then ackMap[sev] else 240)
    else if sev == "critical" then 15 else if sev == "high" then 30 else if sev == "low" then 1440 else 240
  }

  ghost function CloseTarget(severity: Option<string>, closeMap: SlaMap): int {
    var sev := Counted(severity);
    if closeMap != map[] then (if sev in closeMap then closeMap[sev] else 1440)
    else if sev == "critical" then 120 else if sev == "high" then 480 else if sev == "low" then 10080 else 1440
  }

  lemma SeverityCounted(v: AlertView)
    ensures SeverityOf(v) == Counted(v.severity)
  {
    hide Strip, Lower;
    StripIsStripped("");
    MediumReads();
  }

  /** Each clock runs on its own map's target for the severity, whatever else the alert is. */
  lemma ClocksRunOnTargets(v: AlertView, ackMap: SlaMap, closeMap: SlaMap, now: int)
    ensures var sla, ack, close := ComputeAlertSla(v, ackMap, closeMap, now), AckTarget(v.severity, ackMap), CloseTarget(v.severity, closeMap);
            && sla.ack.target == (if ack > 0 then ack else 0)
            && sla.close.target == (if close > 0 then close else 0)
            && (v.createdAt.Some? && ack > 0 ==> sla.ack.dueAt == Some(v.createdAt.value + ack * 60_000_000))
            && (v.createdAt.Some? && close > 0 ==> sla.close.dueAt == Some(v.createdAt.value + close * 60_000_000))
  {
    hide SeverityOf;
    SeverityCounted(v);
  }

  lemma StatusReadsBack(status: string)
    requires status in ALERT_STATUSES
    ensures Lower(Strip(OrText(Some(status), "open"))) == status
  {
    StripIsStripped(status);
    assert forall i :: 0 <= i < |status| ==> LowerChar(status[i]) == status[i];
    assert Lower(status) == status;
  }

  /** Alerts that miss something: one without a status counts as open, one that has left `open` without a time
      as acknowledged when created, one closed without a time as closed right now. */
  lemma MissingCounts(v: AlertView, ackMap: SlaMap, closeMap: SlaMap, now: int)
    ensures ComputeAlertSla(v.(status := None), ackMap, closeMap, now) == ComputeAlertSla(v.(status := Some("open")), ackMap, closeMap, now)
    ensures ComputeAlertSla(v.(status := Some("")), ackMap, closeMap, now) == ComputeAlertSla(v.(status := Some("open")), ackMap, closeMap, now)
    ensures v.status == Some("acked") && v.ackedAt.None? && v.createdAt.Some? ==>
              ComputeAlertSla(v, ackMap, closeMap, now) == ComputeAlertSla(v.(ackedAt := v.createdAt), ackMap, closeMap, now)
    ensures v.status == Some("closed") && v.closedAt.None? ==>
              ComputeAlertSla(v, ackMap, closeMap, now) == ComputeAlertSla(v.(closedAt := Some(now)), ackMap, closeMap, now)
    ensures v.createdAt.None? ==>
              ComputeAlertSla(v, ackMap, closeMap, now) == ComputeAlertSla(v.(createdAt := Some(now)), ackMap, closeMap, now)
  {
    hide StatusFor, TargetFor, Lower, Strip;
    StatusReadsBack("open");
    StatusReadsBack("acked");
    StatusReadsBack("closed");
  }

  /** For an alert the workflow produced, the SLA never falls back on the creation time or on the
      present for a missing timestamp. */
  lemma SlaOfReachable(created: int, requests: History<Request>, severity: Option<string>,
                       ackMap: SlaMap, closeMap: SlaMap, now: int)
    ensures var a := Run(FRESH, requests);
            var sla := ComputeAlertSla(ViewOf(a, severity, created), ackMap, closeMap, now);
            && (a.status != "open" ==> a.ackedAt.Some?)
            && (a.status == "closed" ==> a.closedAt.Some?)
            && sla.ack == StatusFor(AckTarget(severity, ackMap), created,
                                    if a.status == "open" then None else a.ackedAt, now)
            && sla.close == StatusFor(CloseTarget(severity, closeMap), created,
                                      if a.status == "closed" then a.closedAt else None, now)
  {
    hide StatusFor, SeverityOf, Lower, Strip, PathTo, FirstMove, FirstEntry;
    var a := Run(FRESH, requests);
    SeverityCounted(ViewOf(a, severity, created));
    AuditTrailExplainsAlert(requests);
    StatusAllowed(a.audit, a.status);
    StatusReadsBack(a.status);
  }

  ghost function Join(first: History<Request>, future: History<Request>): History<Request> {
    match future
    case Start => first
    case Then(b, r) => Then(Join(first, b), r)
  }

  lemma {:induction false} RunJoin(a: AlertState, first: History<Request>, future: History<Request>)
    ensures Run(a, Join(first, future)) == Run(Run(a, first), future)
  {
    if future.Then? {
      RunJoin(a, first, future.before);
    }
  }

  lemma {:induction false} TimestampsComeLater(a: AlertState, now: int, future: History<Request>)
    requires TimedFrom(now, future)
    ensures now <= EndOf(now, future)
    ensures var b := Run(a, future);
            && (b.ackedAt.Some? ==> b.ackedAt == a.ackedAt || now <= b.ackedAt.value)
            && (b.closedAt.Some? ==> b.closedAt == a.closedAt || now <= b.closedAt.value)
  {
    if future.Then? {
      TimestampsComeLater(a, now, future.before);
    }
  }

  ghost function AckReading(requests: History<Request>, severity: Option<string>, ackMap: SlaMap, closeMap: SlaMap,
                            created: int, now: int): SlaStatus
  {
    ComputeAlertSla(ViewOf(Run(FRESH, requests), severity, created), ackMap, closeMap, now).ack.status
  }

  ghost function CloseReading(requests: History<Request>, severity: Option<string>, ackMap: SlaMap, closeMap: SlaMap,
                              created: int, now: int): SlaStatus
  {
    ComputeAlertSla(ViewOf(Run(FRESH, requests), severity, created), ackMap, closeMap, now).close.status
  }

  /** Whatever is requested from `now` on, at whatever later time it is read, the reading is `breached`. */
  ghost predicate AckBreachedForGood(requests: History<Request>, severity: Option<string>, ackMap: SlaMap,
                                     closeMap: SlaMap, created: int, now: int)
  {
    forall future, later :: TimedFrom(now, future) && EndOf(now, future) <= later ==>
      AckReading(Join(requests, future), severity, ackMap, closeMap, created, later) == Breached
  }

  ghost predicate CloseBreachedForGood(requests: History<Request>, severity: Option<string>, ackMap: SlaMap,
                                       closeMap: SlaMap, created: int, now: int)
  {
    forall future, later :: TimedFrom(now, future) && EndOf(now, future) <= later ==>
      CloseReading(Join(requests, future), severity, ackMap, closeMap, created, later) == Breached
  }

  /** The readings after a future, from the state before it. */
  lemma ReadingsAfter(requests: History<Request>, future: History<Request>, severity: Option<string>,
                      ackMap: SlaMap, closeMap: SlaMap, created: int, later: int)
    ensures var b := Run(Run(FRESH, requests), future);
            && AckReading(Join(requests, future), severity, ackMap, closeMap, created, later)
               == StatusFor(AckTarget(severity, ackMap), created, if b.status == "open" then None else b.ackedAt, later).status
            && CloseReading(Join(requests, future), severity, ackMap, closeMap, created, later)
               == StatusFor(CloseTarget(severity, closeMap), created, if b.status == "closed" then b.closedAt else None, later).status
            && (b.status != "open" ==> b.ackedAt.Some?)
            && (b.status == "closed" ==> b.closedAt.Some?)
  {
    SlaOfReachable(created, Join(requests, future), severity, ackMap, closeMap, later);
    RunJoin(FRESH, requests, future);
  }

  /** The state after one more request. */
  lemma OneMore(a: AlertState, status: string, now: int)
    requires status in ALERT_STATUSES && a.status in ALERT_STATUSES
    ensures var future := Then(Start, Request(status, "", now));
            && TimedFrom(now, future) && EndOf(now, future) == now
            && Run(a, future) == Apply(a, future.last)
            && Run(a, future).status == status
            && Run(a, future).ackedAt == (if a.status == "open" && status != "open" && a.ackedAt.None? then Some(now) else a.ackedAt)
            && Run(a, future).closedAt == (if status == "closed" && a.closedAt.None? then Some(now) else a.closedAt)
  {
    hide Lower, Strip;
    StatusReadsBack(status);
    var future := Then(Start, Request(status, "", now));
    assert future.before == Start && TimedFrom(now, future.before);
    assert Run(a, future.before) == a;
  }

  /** Late already and not acknowledged in time: whatever comes, the reading is `breached`. */
  lemma AckStaysBreached(requests: History<Request>, severity: Option<string>, ackMap: SlaMap, closeMap: SlaMap,
                         created: int, now: int, future: History<Request>, later: int)
    requires TimedFrom(now, future) && EndOf(now, future) <= later
    requires AckTarget(severity, ackMap) > 0
    requires var due, acked := created + AckTarget(severity, ackMap) * MINUTE, Run(FRESH, requests).ackedAt;
             now > due && (acked.Some? ==> acked.value > due)
    ensures AckReading(Join(requests, future), severity, ackMap, closeMap, created, later) == Breached
  {
    hide Run, AckReading, CloseReading, AckTarget;
    ReadingsAfter(requests, future, severity, ackMap, closeMap, created, later);
    TimestampsComeLater(Run(FRESH, requests), now, future);
  }

  lemma ReachableStatus(requests: History<Request>)
    ensures Run(FRESH, requests).status in ALERT_STATUSES
  {
    AuditTrailExplainsAlert(requests);
    StatusAllowed(Run(FRESH, requests).audit, Run(FRESH, requests).status);
  }

  /** Otherwise acknowledging right now makes the reading something else. */
  lemma AckStillOpen(requests: History<Request>, severity: Option<string>, ackMap: SlaMap, closeMap: SlaMap,
                     created: int, now: int)
    requires TimedFrom(created, requests) && EndOf(created, requests) <= now
    requires var target, acked := AckTarget(severity, ackMap), Run(FRESH, requests).ackedAt;
             var due := created + target * MINUTE;
             !(target > 0 && now > due && (acked.Some? ==> acked.value > due))
    ensures var future := Then(Start, Request("acked", "", now));
            && TimedFrom(now, future) && EndOf(now, future) == now
            && AckReading(Join(requests, future), severity, ackMap, closeMap, created, now) != Breached
  {
    hide Run, AckReading, CloseReading, AckTarget, Consistent;
    var a, future := Run(FRESH, requests), Then(Start, Request("acked", "", now));
    ReachableStatus(requests);
    AckedBeforeClosed(created, requests, now);
    OneMore(a, "acked", now);
    ReadingsAfter(requests, future, severity, ackMap, closeMap, created, now);
  }

  /** An acknowledge breach is permanent, through every later change and reopening, if and only if
      the due time has passed and the alert did not leave `open` by then. */
  lemma AckBreachPermanent(requests: History<Request>, severity: Option<string>, ackMap: SlaMap, closeMap: SlaMap,
                           created: int, now: int)
    requires TimedFrom(created, requests) && EndOf(created, requests) <= now
    ensures var target, acked := AckTarget(severity, ackMap), Run(FRESH, requests).ackedAt;
            var due := created + target * MINUTE;
            AckBreachedForGood(requests, severity, ackMap, closeMap, created, now) <==>
              target > 0 && now > due && (acked.Some? ==> acked.value > due)
  {
    hide Run, AckReading, AckTarget;
    var target, acked := AckTarget(severity, ackMap), Run(FRESH, requests).ackedAt;
    var due := created + target * MINUTE;
    if target > 0 && now > due && (acked.Some? ==> acked.value > due) {
      forall future, later | TimedFrom(now, future) && EndOf(now, future) <= later
        ensures AckReading(Join(requests, future), severity, ackMap, closeMap, created, later) == Breached
      {
        AckStaysBreached(requests, severity, ackMap, closeMap, created, now, future, later);
      }
    } else {
      AckStillOpen(requests, severity, ackMap, closeMap, created, now);
    }
  }

  lemma CloseStaysBreached(requests: History<Request>, severity: Option<string>, ackMap: SlaMap, closeMap: SlaMap,
                           created: int, now: int, future: History<Request>, later: int)
    requires TimedFrom(now, future) && EndOf(now, future) <= later
    requires CloseTarget(severity, closeMap) > 0
    requires var due, closed := created + CloseTarget(severity, closeMap) * MINUTE, Run(FRESH, requests).closedAt;
             now > due && (closed.Some? ==> closed.value > due)
    ensures CloseReading(Join(requests, future), severity, ackMap, closeMap, created, later) == Breached
  {
    hide Run, AckReading, CloseReading, CloseTarget;
    ReadingsAfter(requests, future, severity, ackMap, closeMap, created, later);
    TimestampsComeLater(Run(FRESH, requests), now, future);
  }

  lemma CloseStillOpen(requests: History<Request>, severity: Option<string>, ackMap: SlaMap, closeMap: SlaMap,
                       created: int, now: int)
    requires TimedFrom(created, requests) && EndOf(created, requests) <= now
    requires var target, closed := CloseTarget(severity, closeMap), Run(FRESH, requests).closedAt;
             var due := created + target * MINUTE;
             !(target > 0 && now > due && (closed.Some? ==> closed.value > due))
    ensures var future := Then(Start, Request("closed", "", now));
            && TimedFrom(now, future) && EndOf(now, future) == now
            && CloseReading(Join(requests, future), severity, ackMap, closeMap, created, now) != Breached
  {
    hide Run, AckReading, CloseReading, CloseTarget, Consistent;
    var a, future := Run(FRESH, requests), Then(Start, Request("closed", "", now));
    ReachableStatus(requests);
    AckedBeforeClosed(created, requests, now);
    OneMore(a, "closed", now);
    ReadingsAfter(requests, future, severity, ackMap, closeMap, created, now);
  }

  /** A close breach is permanent if and only if the due time has passed and the alert was not
      closed by then. */
  lemma CloseBreachPermanent(requests: History<Request>, severity: Option<string>, ackMap: SlaMap, closeMap: SlaMap,
                             created: int, now: int)
    requires TimedFrom(created, requests) && EndOf(created, requests) <= now
    ensures var target, closed := CloseTarget(severity, closeMap), Run(FRESH, requests).closedAt;
            var due := created + target * MINUTE;
            CloseBreachedForGood(requests, severity, ackMap, closeMap, created, now) <==>
              target > 0 && now > due && (closed.Some? ==> closed.value > due)
  {
    hide Run, CloseReading, CloseTarget;
    var target, closed := CloseTarget(severity, closeMap), Run(FRESH, requests).closedAt;
    var due := created + target * MINUTE;
    if target > 0 && now > due && (closed.Some? ==> closed.value > due) {
      forall future, later | TimedFrom(now, future) && EndOf(now, future) <= later
        ensures CloseReading(Join(requests, future), severity, ackMap, closeMap, created, later) == Breached
      {
        CloseStaysBreached(requests, severity, ackMap, closeMap, created, now, future, later);
      }
    } else {
      CloseStillOpen(requests, severity, ackMap, closeMap, created, now);
    }
  }
}
