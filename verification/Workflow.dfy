/**
 The alert workflow: `apply_alert_status` in services/api/main.py, the only code that changes an
 alert's status, its two timestamps and its audit trail.  Times are microseconds.
 */
module Workflow {
  import opened Wrappers
  import opened Histories
  import opened Text

  const ALERT_STATUSES: set<string> := {"open", "acked", "in_progress", "closed"}

  datatype AuditRow = AuditRow(actor: string, source: string, target: string, at: int)

  datatype AlertState = AlertState(
    status: string, ackedAt: Option<int>, closedAt: Option<int>, audit: History<AuditRow>)

  /** An alert as the rule engine creates it. */
  const FRESH: AlertState := AlertState("open", None, None, Start)

  datatype Request = Request(status: string, actor: string, at: int)

  function ActorName(actor: string): string {
    var name := Strip(if actor == "" then "analyst" else actor);
    if name == "" then "analyst" else name
  }

  /** One status change; a status that is not allowed is refused and changes nothing. */
  function Apply(a: AlertState, r: Request): AlertState {
    var status := Lower(Strip(r.status));
    if status !in ALERT_STATUSES then a
    else
      var source := if a.status == "" then "open" else a.status;
      AlertState(
        status,
        if source == "open" && status != "open" && a.ackedAt.None? then Some(r.at) else a.ackedAt,
        if status == "closed" && a.closedAt.None? then Some(r.at) else a.closedAt,
        if source != status then Then(a.audit, AuditRow(ActorName(r.actor), source, status, r.at)) else a.audit)
  }

  class Alert {
    var status: string
    var ackedAt: Option<int>
    var closedAt: Option<int>
    var audit: History<AuditRow>  // the alert's rows of the audit table

    function State(): AlertState
      reads this
    {
      AlertState(status, ackedAt, closedAt, audit)
    }

    constructor ()
      ensures State() == FRESH
    {
      status, ackedAt, closedAt, audit := "open", None, None, Start;
    }

    method ApplyAlertStatus(request: string, actor: string, now: int) returns (r: Result<string, string>)
      modifies this
      ensures State() == Apply(old(State()), Request(request, actor, now))
      ensures r.Ok? <==> Lower(Strip(request)) in ALERT_STATUSES
      ensures r.Ok? ==> status == r.value
    {
      var to := Lower(Strip(request));
      if to !in ALERT_STATUSES {
        return Err("Invalid status");
      }
      var source := if status == "" then "open" else status;
      if source != to {
        audit := Then(audit, AuditRow(ActorName(actor), source, to, now));
      }
      status := to;
      if source == "open" && to != "open" && ackedAt == None {
        ackedAt := Some(now);
      }
      if to == "closed" && closedAt == None {
        closedAt := Some(now);
      }
      return Ok(to);
    }
  }

  // ---------------------------------------------------------------- what the audit trail says

  /** The rows lead from `open` to `status`, each starting where the one before it ended, none of
      them a self-loop, all of them between allowed statuses. */
  ghost predicate PathTo(audit: History<AuditRow>, status: string) {
    match audit
    case Start => status == "open"
    case Then(b, row) =>
      && row.target == status && row.source != row.target
      && row.target in ALERT_STATUSES && PathTo(b, row.source)
  }

  /** The time of the first row. */
  ghost function FirstMove(audit: History<AuditRow>): Option<int> {
    match audit
    case Start => None
    case Then(b, row) => if b == Start then Some(row.at) else FirstMove(b)
  }

  /** The time of the first row that enters `status`. */
  ghost function FirstEntry(audit: History<AuditRow>, status: string): Option<int> {
    match audit
    case Start => None
    case Then(b, row) =>
      if FirstEntry(b, status).Some? then FirstEntry(b, status)
      else if row.target == status then Some(row.at) else None
  }

  ghost predicate RowsFrom(start: int, audit: History<AuditRow>, end: int) {
    match audit
    case Start => start <= end
    case Then(b, row) => row.at <= end && RowsFrom(start, b, row.at)
  }

  /** Status and timestamps are what the audit trail says they are. */
  ghost predicate Consistent(a: AlertState) {
    && PathTo(a.audit, a.status)
    && a.ackedAt == FirstMove(a.audit)
    && a.closedAt == FirstEntry(a.audit, "closed")
  }

  // ---------------------------------------------------------------- runs

  ghost function Run(a: AlertState, requests: History<Request>): AlertState {
    match requests
    case Start => a
    case Then(b, r) => Apply(Run(a, b), r)
  }

  ghost function EndOf(start: int, requests: History<Request>): int {
    match requests
    case Start => start
    case Then(_, r) => r.at
  }

  /** The requests come at or after `start`, in time order. */
  ghost predicate TimedFrom(start: int, requests: History<Request>) {
    requests.Then? ==> TimedFrom(start, requests.before) && EndOf(start, requests.before) <= requests.last.at
  }

  lemma {:induction false} StatusAllowed(audit: History<AuditRow>, status: string)
    requires PathTo(audit, status)
    ensures status in ALERT_STATUSES && status != ""
    ensures audit.Start? <==> FirstMove(audit).None?
    ensures status != "open" ==> audit.Then?
    ensures status == "closed" ==> FirstEntry(audit, "closed").Some?
  {
    if audit.Then? {
      StatusAllowed(audit.before, audit.last.source);
    }
  }

  lemma ApplyKeepsConsistent(a: AlertState, r: Request)
    requires Consistent(a)
    ensures Consistent(Apply(a, r))
  {
    StatusAllowed(a.audit, a.status);
  }

  /** The workflow invariant: after every run of requests, allowed or not, the audit trail is a
      path without self-loops from `open` to the current status, `ackedAt` is the time of its first
      row, and `closedAt` is the time `closed` was first entered. */
  lemma {:induction false} AuditTrailExplainsAlert(requests: History<Request>)
    ensures Consistent(Run(FRESH, requests))
  {
    if requests.Then? {
      AuditTrailExplainsAlert(requests.before);
      ApplyKeepsConsistent(Run(FRESH, requests.before), requests.last);
    }
  }

  lemma {:induction false} RowsTimed(created: int, requests: History<Request>, end: int)
    requires TimedFrom(created, requests) && EndOf(created, requests) <= end
    ensures RowsFrom(created, Run(FRESH, requests).audit, end)
  {
    if requests.Then? {
      RowsTimed(created, requests.before, requests.last.at);
    }
  }

  lemma {:induction false} FirstMoveBeforeEntry(created: int, audit: History<AuditRow>, status: string, end: int)
    requires RowsFrom(created, audit, end)
    ensures audit.Then? ==> FirstMove(audit).Some? && created <= FirstMove(audit).value <= end
    ensures FirstEntry(audit, status).Some? ==> audit.Then? && FirstMove(audit).value <= FirstEntry(audit, status).value <= end
  {
    if audit.Then? {
      FirstMoveBeforeEntry(created, audit.before, status, audit.last.at);
    }
  }

  /** With a clock that does not go back, an alert is created, then acknowledged, then closed. */
  lemma AckedBeforeClosed(created: int, requests: History<Request>, now: int)
    requires TimedFrom(created, requests) && EndOf(created, requests) <= now
    ensures var a := Run(FRESH, requests);
            && (a.ackedAt.Some? ==> created <= a.ackedAt.value <= now)
            && (a.closedAt.Some? ==> a.ackedAt.Some? && a.ackedAt.value <= a.closedAt.value <= now)
            && (a.status != "open" ==> a.ackedAt.Some?)
            && (a.status == "closed" ==> a.closedAt.Some?)
  {
    var a := Run(FRESH, requests);
    AuditTrailExplainsAlert(requests);
    StatusAllowed(a.audit, a.status);
    RowsTimed(created, requests, now);
    FirstMoveBeforeEntry(created, a.audit, "closed", now);
  }

  /** Once set, a timestamp never changes, whatever is requested later. */
  lemma {:induction false} TimestampsAreFinal(a: AlertState, requests: History<Request>)
    ensures a.ackedAt.Some? ==> Run(a, requests).ackedAt == a.ackedAt
    ensures a.closedAt.Some? ==> Run(a, requests).closedAt == a.closedAt
  {
    if requests.Then? {
      TimestampsAreFinal(a, requests.before);
    }
  }

  // ---------------------------------------------------------------- what the requests make of an alert

  /** The status a request asks for: blanks and case apart. */
  ghost function Asked(r: Request): string {
    Lower(Strip(r.status))
  }

  ghost predicate Allowed(r: Request) {
    Asked(r) == "open" || Asked(r) == "acked" || Asked(r) == "in_progress" || Asked(r) == "closed"
  }

  /** The status last asked for, `open` at first. */
  ghost function LastAsked(requests: History<Request>): string {
    match requests
    case Start => "open"
    case Then(b, r) => if Allowed(r) then Asked(r) else LastAsked(b)
  }

  /** When something other than `open` was first asked for. */
  ghost function FirstLeft(requests: History<Request>): Option<int> {
    match requests
    case Start => None
    case Then(b, r) =>
      if FirstLeft(b).Some? then FirstLeft(b) else if Allowed(r) && Asked(r) != "open" then Some(r.at) else None
  }

  /** When `closed` was first asked for. */
  ghost function FirstClosed(requests: History<Request>): Option<int> {
    match requests
    case Start => None
    case Then(b, r) => if FirstClosed(b).Some? then FirstClosed(b) else if Asked(r) == "closed" then Some(r.at) else None
  }

  /** One row for each request that asks for another status than the one before, by a stripped name. */
  ghost function Changes(requests: History<Request>): History<AuditRow> {
    match requests
    case Start => Start
    case Then(b, r) =>
      var name := if Strip(r.actor) == "" then "analyst" else Strip(r.actor);
      if Allowed(r) && Asked(r) != LastAsked(b) then Then(Changes(b), AuditRow(name, LastAsked(b), Asked(r), r.at)) else Changes(b)
  }

  lemma ActorShown(actor: string)
    ensures ActorName(actor) == if Strip(actor) == "" then "analyst" else Strip(actor)
  {
    hide Strip;
    StripIsStripped("analyst");
    StripIsStripped("");
  }

  lemma {:induction false} NotLeftIsOpen(requests: History<Request>)
    ensures FirstLeft(requests).None? ==> LastAsked(requests) == "open"
    ensures LastAsked(requests) in ALERT_STATUSES && LastAsked(requests) != ""
  {
    if requests.Then? {
      NotLeftIsOpen(requests.before);
    }
  }

  /** What an alert has become is what was asked for: its status is the one last asked for, its audit trail
      lists the changes and who asked for them, and its timestamps are when it was first asked to leave `open`
      and to be `closed`; requests for anything else leave no trace. */
  lemma {:induction false} AlertIsAsRequested(requests: History<Request>)
    ensures Run(FRESH, requests) == AlertState(LastAsked(requests), FirstLeft(requests), FirstClosed(requests), Changes(requests))
  {
    hide Lower, Strip, ActorName;
    if requests.Then? {
      AlertIsAsRequested(requests.before);
      NotLeftIsOpen(requests.before);
      ActorShown(requests.last.actor);
    }
  }

  /** However a status is spelled, in whatever case and with blanks around it, it asks for the same. */
  lemma SpellingIsNothing(a: AlertState, l: string, status: string, r: string, actor: string, at: int)
    requires AllSpace(l) && AllSpace(r) && Stripped(status)
    ensures Apply(a, Request(l + (status + r), actor, at)) == Apply(a, Request(Lower(status), actor, at))
  {
    StripOff(l, status, r);
    LowerStrippedStays(status);
    StripIsStripped(Lower(status));
  }
}
