/**
 Retention and silent sources: `purge_old_events` and `evaluate_silence_alerts`
 (services/api/maintenance.py), `health_status` (services/api/stats_helpers.py), and the order in which
 the maintenance loop calls them (services/api/main.py).  Times are microseconds.
 */
module Maintenance {
  import opened Wrappers

  const SECOND: int := 1_000_000
  const MINUTE: int := 60 * SECOND
  const DAY: int := 86400 * SECOND
  const KNOWN_SOURCES: seq<string> := ["firewall", "windows", "cloud_auth", "siem_export"]

  datatype Event = Event(tenant: string, source: string, at: int)

  // ---------------------------------------------------------------- purging

  /** The condition of the DELETE; an empty tenant stands for all of them. */
  predicate Purged(e: Event, cutoff: int, tenant: string) {
    e.at < cutoff && (tenant == "" || e.tenant == tenant)
  }

  /** The rows that satisfy the condition, or those that do not. */
  function Select(rows: seq<Event>, cutoff: int, tenant: string, purged: bool): seq<Event> {
    if rows == [] then []
    else (if Purged(rows[0], cutoff, tenant) == purged then [rows[0]] else []) + Select(rows[1..], cutoff, tenant, purged)
  }

  function Cutoff(days: int, now: int): int {
    now - days * DAY
  }

  function Purge(rows: seq<Event>, days: int, tenant: string, now: int): seq<Event> {
    if days <= 0 then rows else Select(rows, Cutoff(days, now), tenant, false)
  }

  /** One purge for each tenant, each at its own reading of the clock. */
  function PurgeAll(rows: seq<Event>, days: int, tenants: seq<string>, clock: seq<int>): seq<Event>
    requires |clock| == |tenants|
    decreases |tenants|
  {
    if tenants == [] then rows else PurgeAll(Purge(rows, days, tenants[0], clock[0]), days, tenants[1..], clock[1..])
  }

  class EventTable {
    var rows: seq<Event>

    method PurgeOldEvents(days: int, tenant: string, now: int) returns (deleted: nat, skipped: bool)
      modifies this
      ensures rows == Purge(old(rows), days, tenant, now)
      ensures skipped <==> days <= 0
      ensures |old(rows)| == |rows| + deleted
    {
      if days <= 0 {
        return 0, true;
      }
      var kept: seq<Event> := [];
      var todo := rows;
      while todo != []
        invariant rows == old(rows)
        invariant kept + Select(todo, Cutoff(days, now), tenant, false) == Select(rows, Cutoff(days, now), tenant, false)
        invariant |kept| + |todo| <= |rows|
        decreases |todo|
      {
        if !Purged(todo[0], Cutoff(days, now), tenant) {
          kept := kept + [todo[0]];
        }
        todo := todo[1..];
      }
      deleted := |rows| - |kept|;
      rows := kept;
      skipped := false;
    }

    method PurgeAllTenants(days: int, tenants: seq<string>, clock: seq<int>)
      requires |clock| == |tenants|
      modifies this
      ensures rows == PurgeAll(old(rows), days, tenants, clock)
    {
      for i := 0 to |tenants|
        invariant PurgeAll(rows, days, tenants[i..], clock[i..]) == PurgeAll(old(rows), days, tenants, clock)
      {
        assert tenants[i..][1..] == tenants[i + 1..] && clock[i..][1..] == clock[i + 1..];
        var deleted, skipped := PurgeOldEvents(days, tenants[i], clock[i]);
      }
    }
  }

  /** Purged and kept events together are the events there were. */
  lemma {:induction false} PurgeConserves(rows: seq<Event>, cutoff: int, tenant: string)
    ensures multiset(Select(rows, cutoff, tenant, true)) + multiset(Select(rows, cutoff, tenant, false)) == multiset(rows)
  {
    hide Purged;
    if rows != [] {
      var e, yes, no := rows[0], Select(rows[1..], cutoff, tenant, true), Select(rows[1..], cutoff, tenant, false);
      PurgeConserves(rows[1..], cutoff, tenant);
      assert rows == [e] + rows[1..];
      assert [] + yes == yes && [] + no == no;
    }
  }

  /** The kept events are those the condition spares, each as often as before; so the events of other
      tenants are all kept. */
  lemma {:induction false} KeptAreSpared(rows: seq<Event>, cutoff: int, tenant: string, e: Event)
    ensures multiset(Select(rows, cutoff, tenant, false))[e] ==
              if e.at < cutoff && (tenant == "" || e.tenant == tenant) then 0 else multiset(rows)[e]
  {
    if rows != [] {
      var no := Select(rows[1..], cutoff, tenant, false);
      KeptAreSpared(rows[1..], cutoff, tenant, e);
      assert rows == [rows[0]] + rows[1..];
      assert [] + no == no;
    }
  }

  /** The event falls to a purge of the tenant, or of all of them, at the time: it is older than the retention. */
  ghost predicate Outdated(e: Event, days: int, tenant: string, now: int) {
    days > 0 && e.at < now - days * 86_400_000_000 && (tenant == "" || e.tenant == tenant)
  }

  /** The purges of a round take exactly the events outdated for one of their tenants, and of nobody else. */
  lemma {:induction false} RoundTakesOutdated(rows: seq<Event>, days: int, tenants: seq<string>, clock: seq<int>, e: Event)
    requires |clock| == |tenants|
    ensures multiset(PurgeAll(rows, days, tenants, clock))[e] ==
              if exists i :: 0 <= i < |tenants| && Outdated(e, days, tenants[i], clock[i]) then 0 else multiset(rows)[e]
    decreases |tenants|
  {
    if tenants != [] {
      if days > 0 {
        KeptAreSpared(rows, Cutoff(days, clock[0]), tenants[0], e);
      }
      RoundTakesOutdated(Purge(rows, days, tenants[0], clock[0]), days, tenants[1..], clock[1..], e);
      assert forall i :: 1 <= i < |tenants| ==> tenants[i] == tenants[1..][i - 1] && clock[i] == clock[1..][i - 1];
      if i :| 1 <= i < |tenants| && Outdated(e, days, tenants[i], clock[i]) {
        assert Outdated(e, days, tenants[1..][i - 1], clock[1..][i - 1]);
      }
    }
  }

  lemma KeptIff(rows: seq<Event>, cutoff: int, tenant: string)
    ensures forall e :: e in Select(rows, cutoff, tenant, false) <==> e in rows && !Purged(e, cutoff, tenant)
  {
    forall e ensures e in Select(rows, cutoff, tenant, false) <==> e in rows && !Purged(e, cutoff, tenant) {
      KeptAreSpared(rows, cutoff, tenant, e);
      assert e in rows <==> e in multiset(rows);
      assert e in Select(rows, cutoff, tenant, false) <==> e in multiset(Select(rows, cutoff, tenant, false));
    }
  }

  // ---------------------------------------------------------------- health of a source

  datatype Health = Fine | Stale | Silent

  function Max(a: int, b: int): int {
    if a < b then b else a
  }

  function HealthStatus(silentFor: Option<int>, stale: int, silent: int): Health {
    if silentFor.None? then Silent
    else
      var staleSec := Max(1, stale) * 60;
      var silentSec := Max(staleSec, silent * 60);
      if silentFor.value < staleSec then Fine else if silentFor.value < silentSec then Stale else Silent
  }

  /** `int(delta.total_seconds())`: whole seconds, rounded toward zero. */
  function WholeSeconds(delta: int): int {
    if delta >= 0 then delta / SECOND else -((-delta) / SECOND)
  }

  /** MAX(timestamp) of the source's events of the tenant. */
  function LastSeen(rows: seq<Event>, tenant: string, source: string): (r: Option<int>)
    ensures r.None? <==> forall e :: e in rows ==> e.tenant != tenant || e.source != source
    ensures r.Some? ==> Event(tenant, source, r.value) in rows
    ensures r.Some? ==> forall e :: e in rows && e.tenant == tenant && e.source == source ==> e.at <= r.value
  {
    if rows == [] then None
    else
      var rest := LastSeen(rows[1..], tenant, source);
      assert rows == [rows[0]] + rows[1..];
      if rows[0].tenant != tenant || rows[0].source != source then rest
      else if rest.None? || rest.value < rows[0].at then
        assert rows[0] == Event(tenant, source, rows[0].at);
        Some(rows[0].at)
      else rest
  }

  function HealthOf(rows: seq<Event>, tenant: string, source: string, stale: int, silent: int, now: int): Health {
    var last := LastSeen(rows, tenant, source);
    HealthStatus(if last.None? then None else Some(WholeSeconds(now - last.value)), stale, silent)
  }

  function Severity(h: Health): nat {
    match h
    case Fine => 0
    case Stale => 1
    case Silent => 2
  }

  lemma SecondsMonotone(a: int, b: int)
    requires a <= b
    ensures WholeSeconds(a) <= WholeSeconds(b)
  {
  }

  lemma SecondsAgainst(age: int, limit: int)
    requires limit > 0
    ensures WholeSeconds(age) < limit <==> age < limit * SECOND
  {
  }

  /** While no event comes in, a source's health only gets worse.  One never heard of is silent; another is fine
      for the stale limit, a minute at least, and silent from the larger of the two limits on, and never before. */
  lemma HealthOnlyWorsens(rows: seq<Event>, tenant: string, source: string, stale: int, silent: int, now: int, later: int)
    requires now <= later
    ensures Severity(HealthOf(rows, tenant, source, stale, silent, now)) <= Severity(HealthOf(rows, tenant, source, stale, silent, later))
    ensures var last, health := LastSeen(rows, tenant, source), HealthOf(rows, tenant, source, stale, silent, now);
            var fine := if stale < 1 then 1 else stale;
            match last
            case None => health == Silent
            case Some(at) =>
              && (health == Fine <==> now - at < fine * 60_000_000)
              && (health == Silent <==> now - at >= (if silent > fine then silent else fine) * 60_000_000)
  {
    var last := LastSeen(rows, tenant, source);
    if last.Some? {
      hide WholeSeconds;
      SecondsMonotone(now - last.value, later - last.value);
      SecondsAgainst(now - last.value, Max(1, stale) * 60);
      SecondsAgainst(now - last.value, Max(Max(1, stale), silent) * 60);
    }
  }

  /** The retention keeps at least what the health limits look back on. */
  predicate RetentionCovers(days: int, stale: int, silent: int) {
    Max(Max(1, stale), silent) <= days * 1440
  }

  /** Purging leaves the newest event of a source, or leaves none of its events. */
  lemma LastSeenAfter(rows: seq<Event>, kept: seq<Event>, cutoff: int, purgedTenant: string, tenant: string, source: string)
    requires forall e :: e in kept <==> e in rows && !Purged(e, cutoff, purgedTenant)
    ensures var before, after := LastSeen(rows, tenant, source), LastSeen(kept, tenant, source);
            after == before || (after.None? && before.Some? && before.value < cutoff)
  {
    hide LastSeen;
    var before, after := LastSeen(rows, tenant, source), LastSeen(kept, tenant, source);
    if before.Some? {
      var newest := Event(tenant, source, before.value);
      if newest in kept {
        assert after.Some? && Event(tenant, source, after.value) in rows;
      }
    }
  }

  lemma OldIsSilent(age: int, days: int, stale: int, silent: int)
    requires days > 0 && age > days * DAY && RetentionCovers(days, stale, silent)
    ensures HealthStatus(Some(WholeSeconds(age)), stale, silent) == Silent
  {
    assert WholeSeconds(age) >= days * 86400;
  }

  /** Purging first leaves the health of every source at any later time as it was. */
  lemma PurgeKeepsHealth(rows: seq<Event>, days: int, purgedTenant: string, now: int,
                         tenant: string, source: string, stale: int, silent: int, later: int)
    requires now <= later && (days > 0 ==> RetentionCovers(days, stale, silent))
    ensures HealthOf(Purge(rows, days, purgedTenant, now), tenant, source, stale, silent, later)
         == HealthOf(rows, tenant, source, stale, silent, later)
  {
    if days > 0 {
      var kept := Purge(rows, days, purgedTenant, now);
      KeptIff(rows, Cutoff(days, now), purgedTenant);
      LastSeenAfter(rows, kept, Cutoff(days, now), purgedTenant, tenant, source);
      var last := LastSeen(rows, tenant, source);
      if last.Some? && LastSeen(kept, tenant, source).None? {
        OldIsSilent(later - last.value, days, stale, silent);
      }
    }
  }

  /** The health limits and the retention are in step if and only if purging can never change what a
      source's health reads. */
  lemma RetentionCoversPrecisely(days: int, stale: int, silent: int)
    requires days > 0
    ensures RetentionCovers(days, stale, silent) <==>
              forall rows, purgedTenant, now, tenant, source, later :: now <= later ==>
                HealthOf(Purge(rows, days, purgedTenant, now), tenant, source, stale, silent, later)
                == HealthOf(rows, tenant, source, stale, silent, later)
  {
    if RetentionCovers(days, stale, silent) {
      forall rows, purgedTenant, now, tenant, source, later | now <= later
        ensures HealthOf(Purge(rows, days, purgedTenant, now), tenant, source, stale, silent, later)
             == HealthOf(rows, tenant, source, stale, silent, later)
      {
        PurgeKeepsHealth(rows, days, purgedTenant, now, tenant, source, stale, silent, later);
      }
    } else {
      var e := Event("lab", "windows", -1 - days * DAY);
      var rows := [e];
      assert rows[1..] == [];
      assert LastSeen(rows, "lab", "windows") == Some(e.at);
      assert Purged(e, Cutoff(days, 0), "") && Select([], Cutoff(days, 0), "", false) == [];
      assert Purge(rows, days, "", 0) == [];
      assert WholeSeconds(0 - e.at) == days * 86400;
      assert HealthOf(rows, "lab", "windows", stale, silent, 0) != Silent;
      assert HealthOf(Purge(rows, days, "", 0), "lab", "windows", stale, silent, 0) == Silent;
    }
  }

  // ---------------------------------------------------------------- silence alerts

  datatype OpsAlert = OpsAlert(tenant: string, source: string, createdAt: int)

  predicate RecentAlert(alerts: seq<OpsAlert>, tenant: string, source: string, since: int) {
    exists i :: 0 <= i < |alerts| && alerts[i].tenant == tenant && alerts[i].source == source && alerts[i].createdAt >= since
  }

  datatype Limits = Limits(enabled: bool, stale: int, silent: int)

  /** The source is silent for the tenant and no alert about it is recent. */
  predicate NeedsAlert(rows: seq<Event>, alerts: seq<OpsAlert>, tenant: string, source: string, limits: Limits, now: int) {
    && limits.enabled
    && HealthOf(rows, tenant, source, limits.stale, limits.silent, now) == Silent
    && !RecentAlert(alerts, tenant, source, now - limits.silent * MINUTE)
  }

  ghost predicate Distinct<T>(s: seq<T>) {
    forall i, j :: 0 <= i < j < |s| ==> s[i] != s[j]
  }

  /** One alert for each silent source of each tenant that has no recent one, and no second. */
  method EvaluateSilenceAlerts(rows: seq<Event>, alerts: seq<OpsAlert>, tenants: seq<string>, limits: Limits, now: int)
    returns (created: seq<OpsAlert>)
    ensures forall a :: a in created <==>
              && a.createdAt == now && a.tenant in tenants && a.source in ["firewall", "windows", "cloud_auth", "siem_export"]
              && limits.enabled && HealthOf(rows, a.tenant, a.source, limits.stale, limits.silent, now) == Silent
              && !exists i :: && 0 <= i < |alerts| && alerts[i].tenant == a.tenant && alerts[i].source == a.source
                              && alerts[i].createdAt >= now - limits.silent * 60_000_000
    ensures Distinct(tenants) ==> Distinct(created)
  {
    created := [];
    if !limits.enabled {
      return;
    }
    for i := 0 to |tenants|
      invariant Distinct(tenants) ==> Distinct(created)
      invariant forall a :: a in created <==>
                  a.createdAt == now && a.tenant in tenants[..i] && a.source in KNOWN_SOURCES
                  && NeedsAlert(rows, alerts, a.tenant, a.source, limits, now)
    {
      ghost var before := created;
      for j := 0 to |KNOWN_SOURCES|
        invariant Distinct(tenants) ==> Distinct(created)
        invariant forall a :: a in created <==>
                    a in before || (a.createdAt == now && a.tenant == tenants[i] && a.source in KNOWN_SOURCES[..j]
                                    && NeedsAlert(rows, alerts, a.tenant, a.source, limits, now))
      {
        var source := KNOWN_SOURCES[j];
        assert KNOWN_SOURCES[..j + 1] == KNOWN_SOURCES[..j] + [source];
        if HealthOf(rows, tenants[i], source, limits.stale, limits.silent, now) == Silent {
          if !RecentAlert(alerts, tenants[i], source, now - limits.silent * MINUTE) {
            assert Distinct(tenants) ==> tenants[i] !in tenants[..i];
            assert source !in KNOWN_SOURCES[..j];
            created := created + [OpsAlert(tenants[i], source, now)];
          }
        }
      }
      assert KNOWN_SOURCES[..|KNOWN_SOURCES|] == KNOWN_SOURCES;
      assert tenants[..i + 1] == tenants[..i] + [tenants[i]];
    }
    assert tenants[..|tenants|] == tenants;
  }

  lemma {:induction false} PurgeAllKeepsHealth(rows: seq<Event>, days: int, tenants: seq<string>, clock: seq<int>,
                                               tenant: string, source: string, stale: int, silent: int, later: int)
    requires |clock| == |tenants| && (forall i :: 0 <= i < |clock| ==> clock[i] <= later)
    requires days > 0 ==> RetentionCovers(days, stale, silent)
    ensures HealthOf(PurgeAll(rows, days, tenants, clock), tenant, source, stale, silent, later)
         == HealthOf(rows, tenant, source, stale, silent, later)
    decreases |tenants|
  {
    if tenants != [] {
      PurgeKeepsHealth(rows, days, tenants[0], clock[0], tenant, source, stale, silent, later);
      PurgeAllKeepsHealth(Purge(rows, days, tenants[0], clock[0]), days, tenants[1..], clock[1..], tenant, source, stale, silent, later);
    }
  }

  /** The maintenance loop purges before it looks for silence: it raises the alerts it would have
      raised without purging, no more and no fewer. */
  lemma PurgeFirstRaisesSameAlerts(rows: seq<Event>, alerts: seq<OpsAlert>, days: int, tenants: seq<string>, clock: seq<int>,
                                   limits: Limits, now: int, tenant: string, source: string)
    requires |clock| == |tenants| && (forall i :: 0 <= i < |clock| ==> clock[i] <= now)
    requires days > 0 ==> RetentionCovers(days, limits.stale, limits.silent)
    ensures NeedsAlert(PurgeAll(rows, days, tenants, clock), alerts, tenant, source, limits, now)
         == NeedsAlert(rows, alerts, tenant, source, limits, now)
  {
    PurgeAllKeepsHealth(rows, days, tenants, clock, tenant, source, limits.stale, limits.silent, now);
  }
}
