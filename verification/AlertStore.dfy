/**
 Merging of rule hits into existing alerts (`_entity_key`, `_find_mergeable`, `_merge_alert`,
 `_finalize_alert` and `run_rules` in services/api/rules_engine.py), over a table of alerts whose
 statuses analysts change meanwhile.

 The database sessions do not flush on a query (services/api/db.py:42), so a hit is merged into an
 alert committed before, while the evidence of that alert is the session's own, as already merged in
 the same pass.  A pass is not atomic: storing a provider's verdict commits its session
 (services/api/enrich_providers.py:256), and with it every hit finalized so far, which then stays even
 if the pass raises and is rolled back.
 */
module AlertStore {
  import opened Wrappers
  import opened Histories
  import opened Workflow

  const MINUTE: int := 60_000_000
  const QUERY_LIMIT: nat := 50
  const MAX_EVENT_IDS: nat := 20

  datatype Sample = Sample(key: Option<string>, srcIp: string, host: string, user: string)

  /** The part of an alert's evidence that merging reads or writes; an absent text is "", an absent
      number is 0 (Python's `or` does not tell them apart). */
  datatype Evidence = Evidence(
    joinKey: string, groupBy: string, sample: Sample, count: int, occurrences: int,
    eventIds: seq<int>, entityKey: string, lastSeen: Option<int>)

  datatype AlertRow = AlertRow(tenant: string, rule: string, createdAt: int, evidence: Evidence, flow: AlertState)

  function EntityKey(rule: string, ev: Evidence): (r: string)
    ensures r != ""
  {
    if ev.joinKey != "" then "join:" + ev.joinKey
    else if ev.groupBy != "" && ev.sample.key.Some? then "group:" + ev.groupBy + "=" + ev.sample.key.value
    else if ev.sample.srcIp != "" then "src_ip:" + ev.sample.srcIp
    else if ev.sample.host != "" then "host:" + ev.sample.host
    else if ev.sample.user != "" then "user:" + ev.sample.user
    else "rule:" + rule
  }

  /** The first of source address, host and user that the sample has, and its value. */
  ghost predicate IsPrincipal(s: Sample, field: string, value: string) {
    value != "" &&
    ( || (field == "src_ip" && value == s.srcIp)
      || (field == "host" && value == s.host && s.srcIp == "")
      || (field == "user" && value == s.user && s.srcIp == "" && s.host == ""))
  }

  ghost predicate SamePrincipal(a: Sample, b: Sample) {
    forall field, value :: IsPrincipal(a, field, value) <==> IsPrincipal(b, field, value)
  }

  lemma PrincipalKey(rule: string, ev: Evidence, field: string, value: string)
    requires ev.joinKey == "" && ev.groupBy == ""
    ensures IsPrincipal(ev.sample, field, value) ==> EntityKey(rule, ev) == field + ":" + value
    ensures (ev.sample.srcIp == "" && ev.sample.host == "" && ev.sample.user == "") ==> EntityKey(rule, ev) == "rule:" + rule
  {
    assert "src_ip" + ":" == "src_ip:" && "host" + ":" == "host:" && "user" + ":" == "user:";
  }

  lemma SameTail(prefix: string, x: string, y: string)
    requires prefix + x == prefix + y
    ensures x == y
  {
    assert (prefix + x)[|prefix|..] == x && (prefix + y)[|prefix|..] == y;
  }

  /** Two hits of a correlation have the same entity iff they joined on the same value; two hits of a
      threshold rule iff the same group won. */
  lemma SameEntityIffSameKey(rule: string, a: Evidence, b: Evidence)
    requires (a.joinKey != "" && b.joinKey != "")
             || (a.joinKey == b.joinKey == "" && a.groupBy == b.groupBy != "" && a.sample.key.Some? && b.sample.key.Some?)
    ensures EntityKey(rule, a) == EntityKey(rule, b) <==>
              if a.joinKey != "" then a.joinKey == b.joinKey else a.sample.key == b.sample.key
  {
    if EntityKey(rule, a) == EntityKey(rule, b) {
      if a.joinKey != "" {
        SameTail("join:", a.joinKey, b.joinKey);
      } else {
        SameTail("group:" + a.groupBy + "=", a.sample.key.value, b.sample.key.value);
      }
    }
  }

  ghost function PrincipalOf(s: Sample): (p: (string, string))
    ensures p.1 != "" ==> IsPrincipal(s, p.0, p.1) && p.0 in ["src_ip", "host", "user"]
    ensures p.1 == "" <==> s.srcIp == "" && s.host == "" && s.user == ""
  {
    if s.srcIp != "" then ("src_ip", s.srcIp) else if s.host != "" then ("host", s.host) else ("user", s.user)
  }

  /** Two hits of a match rule have the same entity iff the first of source address, host and user
      that they have is the same field with the same value. */
  lemma SameEntityIffSamePrincipal(rule: string, a: Evidence, b: Evidence)
    requires a.joinKey == "" && a.groupBy == "" && b.joinKey == "" && b.groupBy == ""
    ensures EntityKey(rule, a) == EntityKey(rule, b) <==> SamePrincipal(a.sample, b.sample)
  {
    var x, y := PrincipalOf(a.sample), PrincipalOf(b.sample);
    PrincipalKey(rule, a, x.0, x.1);
    PrincipalKey(rule, b, y.0, y.1);
    if x.1 != "" && y.1 != "" && EntityKey(rule, a) == EntityKey(rule, b) {
      assert (x.0 + ":" + x.1)[0] == x.0[0] && (y.0 + ":" + y.1)[0] == y.0[0];
      SameTail(x.0 + ":", x.1, y.1);
    }
    if (x.1 == "") != (y.1 == "") {
      assert ("rule:" + rule)[0] == 'r';
      assert x.1 != "" ==> (x.0 + ":" + x.1)[0] == x.0[0];
      assert y.1 != "" ==> (y.0 + ":" + y.1)[0] == y.0[0];
    }
    assert x.1 != "" ==> IsPrincipal(a.sample, x.0, x.1);
    assert y.1 != "" ==> IsPrincipal(b.sample, y.0, y.1);
  }

  // ---------------------------------------------------------------- merging evidence

  function Or(a: int, b: int): int {
    if a != 0 then a else b
  }

  /** `ids` followed by those of the first `n` incoming ids that are not there yet. */
  function AddIds(ids: seq<int>, incoming: seq<int>, n: nat): seq<int>
    requires n <= |incoming|
  {
    if n == 0 then ids
    else
      var rest := AddIds(ids, incoming, n - 1);
      if incoming[n - 1] in rest then rest else rest + [incoming[n - 1]]
  }

  function FirstFew(ids: seq<int>): seq<int> {
    if |ids| <= MAX_EVENT_IDS then ids else ids[..MAX_EVENT_IDS]
  }

  function Merge(held: Evidence, incoming: Evidence, now: int): Evidence {
    var prev := Or(held.occurrences, Or(held.count, 1));
    held.(occurrences := prev + 1,
         count := Or(incoming.count, Or(held.count, prev + 1)),
         lastSeen := Some(now),
         eventIds := FirstFew(AddIds(held.eventIds, incoming.eventIds, |incoming.eventIds|)),
         sample := incoming.sample,
         entityKey := if incoming.entityKey != "" then incoming.entityKey else held.entityKey)
  }

  method MergeAlert(held: Evidence, incoming: Evidence, now: int) returns (ev: Evidence)
    ensures ev == Merge(held, incoming, now)
  {
    var prev := Or(held.occurrences, Or(held.count, 1));
    ev := held.(occurrences := prev + 1, count := Or(incoming.count, Or(held.count, prev + 1)), lastSeen := Some(now));
    var ids := held.eventIds;
    for i := 0 to |incoming.eventIds|
      invariant ids == AddIds(held.eventIds, incoming.eventIds, i)
    {
      if incoming.eventIds[i] !in ids {
        ids := ids + [incoming.eventIds[i]];
      }
    }
    ev := ev.(eventIds := FirstFew(ids), sample := incoming.sample);
    if incoming.entityKey != "" {
      ev := ev.(entityKey := incoming.entityKey);
    }
  }

  ghost predicate NoDuplicates<T>(s: seq<T>) {
    forall i, j :: 0 <= i < j < |s| ==> s[i] != s[j]
  }

  lemma {:induction false} AddIdsKeeps(ids: seq<int>, incoming: seq<int>, n: nat)
    requires n <= |incoming|
    ensures ids <= AddIds(ids, incoming, n)
    ensures NoDuplicates(ids) ==> NoDuplicates(AddIds(ids, incoming, n))
    ensures forall x :: x in AddIds(ids, incoming, n) <==> x in ids || x in incoming[..n]
  {
    if n > 0 {
      AddIdsKeeps(ids, incoming, n - 1);
      assert incoming[..n] == incoming[..n - 1] + [incoming[n - 1]];
    }
  }

  /** Those of the first `n` incoming ids that are not in `ids`, in their order. */
  ghost function Missing(ids: seq<int>, incoming: seq<int>, n: nat): (r: seq<int>)
    requires n <= |incoming|
    ensures forall x :: x in r ==> x in incoming[..n]
  {
    if n == 0 then []
    else
      assert incoming[..n] == incoming[..n - 1] + [incoming[n - 1]];
      Missing(ids, incoming, n - 1) + if incoming[n - 1] in ids then [] else [incoming[n - 1]]
  }

  lemma {:induction false} AddIdsInOrder(ids: seq<int>, incoming: seq<int>, n: nat)
    requires n <= |incoming| && NoDuplicates(incoming)
    ensures AddIds(ids, incoming, n) == ids + Missing(ids, incoming, n)
  {
    if n > 0 {
      AddIdsInOrder(ids, incoming, n - 1);
      assert incoming[n - 1] !in incoming[..n - 1];
    }
  }

  /** Merging keeps the old event ids in front, adds the new ones in their order and no duplicate, keeps the
      first 20, and loses an incoming id only when the 20 places are taken.  It counts one more occurrence, the
      count standing in where there is no number of them, and takes the count of the new hit, or keeps its own
      if the hit has none. */
  lemma MergeIsFaithful(held: Evidence, incoming: Evidence, now: int)
    requires NoDuplicates(held.eventIds) && |held.eventIds| <= MAX_EVENT_IDS
    ensures var ev := Merge(held, incoming, now);
            var seen := if held.occurrences != 0 then held.occurrences else if held.count != 0 then held.count else 1;
            && held.eventIds <= ev.eventIds
            && (NoDuplicates(incoming.eventIds) ==>
                  var ids := held.eventIds + Missing(held.eventIds, incoming.eventIds, |incoming.eventIds|);
                  ev.eventIds == if |ids| <= 20 then ids else ids[..20])
            && NoDuplicates(ev.eventIds) && |ev.eventIds| <= MAX_EVENT_IDS
            && (forall x :: x in ev.eventIds ==> x in held.eventIds || x in incoming.eventIds)
            && (|ev.eventIds| == MAX_EVENT_IDS || forall x :: x in incoming.eventIds ==> x in ev.eventIds)
            && ev.occurrences == seen + 1
            && (incoming.count != 0 ==> ev.count == incoming.count)
            && (incoming.count == 0 ==> ev.count == if held.count != 0 then held.count else ev.occurrences)
            && ev.sample == incoming.sample && ev.lastSeen == Some(now)
            && ev.joinKey == held.joinKey && ev.groupBy == held.groupBy
            && ev.entityKey == (if incoming.entityKey == "" then held.entityKey else incoming.entityKey)
  {
    AddIdsKeeps(held.eventIds, incoming.eventIds, |incoming.eventIds|);
    if NoDuplicates(incoming.eventIds) {
      AddIdsInOrder(held.eventIds, incoming.eventIds, |incoming.eventIds|);
    }
    assert incoming.eventIds[..|incoming.eventIds|] == incoming.eventIds;
  }

  // ---------------------------------------------------------------- finding an alert to merge into

  /** The rows the query of `_find_mergeable` selects. */
  predicate Qualifies(row: AlertRow, tenant: string, rule: string, since: int) {
    row.rule == rule && row.tenant == tenant && row.createdAt >= since && row.flow.status != "closed"
  }

  /** `found` is an answer of the database to the query over the committed rows: at most 50 distinct
      qualifying rows, newest first, and older rows are left out only when 50 are there.  Rows
      created at the same time may come in any order. */
  ghost predicate IsAnswer(rows: seq<AlertRow>, committed: nat, tenant: string, rule: string, since: int, found: seq<nat>)
    requires committed <= |rows|
  {
    && |found| <= QUERY_LIMIT
    && NoDuplicates(found)
    && (forall k :: 0 <= k < |found| ==> found[k] < committed && Qualifies(rows[found[k]], tenant, rule, since))
    && (forall k, l :: 0 <= k < l < |found| ==> rows[found[k]].createdAt >= rows[found[l]].createdAt)
    && (forall j :: 0 <= j < committed && Qualifies(rows[j], tenant, rule, since) && j !in found ==>
          |found| == QUERY_LIMIT && forall k :: 0 <= k < |found| ==> rows[found[k]].createdAt >= rows[j].createdAt)
  }

  lemma InsertedOrdered(rows: seq<AlertRow>, c: nat, found: seq<nat>, p: nat, m: nat, r: seq<nat>)
    requires p <= m <= |found| && r == found[..p] + [c] + found[p..m] && c < |rows|
    requires forall k :: 0 <= k < |found| ==> found[k] < c
    requires forall k, l :: 0 <= k < l < |found| ==> rows[found[k]].createdAt >= rows[found[l]].createdAt
    requires forall k :: 0 <= k < p ==> rows[found[k]].createdAt >= rows[c].createdAt
    requires p < |found| ==> rows[found[p]].createdAt < rows[c].createdAt
    ensures forall k :: 0 <= k < |r| ==> r[k] < |rows|
    ensures forall k, l :: 0 <= k < l < |r| ==> rows[r[k]].createdAt >= rows[r[l]].createdAt
  {
  }

  lemma InsertedDistinct(found: seq<nat>, c: nat, p: nat, m: nat, r: seq<nat>)
    requires p <= m <= |found| && r == found[..p] + [c] + found[p..m]
    requires NoDuplicates(found) && forall k :: 0 <= k < |found| ==> found[k] < c
    ensures NoDuplicates(r)
  {
  }

  lemma LeftOut(rows: seq<AlertRow>, c: nat, found: seq<nat>, p: nat, m: nat, r: seq<nat>, j: nat)
    requires p <= m <= |found| <= QUERY_LIMIT && r == found[..p] + [c] + found[p..m] && c < |rows| && j < c
    requires m == if |found| == QUERY_LIMIT then QUERY_LIMIT - 1 else |found|
    requires forall k :: 0 <= k < |found| ==> found[k] < c
    requires forall k, l :: 0 <= k < l < |found| ==> rows[found[k]].createdAt >= rows[found[l]].createdAt
    requires p < |found| ==> rows[found[p]].createdAt < rows[c].createdAt
    requires j !in found ==> |found| == QUERY_LIMIT && forall k :: 0 <= k < |found| ==> rows[found[k]].createdAt >= rows[j].createdAt
    requires j !in r
    ensures |r| == QUERY_LIMIT && forall k :: 0 <= k < |r| ==> r[k] < |rows| && rows[r[k]].createdAt >= rows[j].createdAt
  {
    if j in found {
      var k :| 0 <= k < |found| && found[k] == j;
      assert forall l :: 0 <= l < p ==> r[l] == found[l];
      assert forall l :: p <= l < m ==> r[l + 1] == found[l];
      assert k == m;
    }
    assert rows[found[m]].createdAt >= rows[j].createdAt;
  }

  lemma InsertedFrom(found: seq<nat>, c: nat, p: nat, m: nat, r: seq<nat>)
    requires p <= m <= |found| && r == found[..p] + [c] + found[p..m]
    ensures c in r && forall k :: 0 <= k < |r| ==> r[k] == c || r[k] in found
  {
    assert c == r[p];
  }

  lemma Inserted(rows: seq<AlertRow>, c: nat, tenant: string, rule: string, since: int, found: seq<nat>, p: nat)
    returns (r: seq<nat>)
    requires c < |rows| && IsAnswer(rows, c, tenant, rule, since, found) && Qualifies(rows[c], tenant, rule, since)
    requires p <= |found| && forall k :: 0 <= k < p ==> rows[found[k]].createdAt >= rows[c].createdAt
    requires p < |found| ==> rows[found[p]].createdAt < rows[c].createdAt
    ensures IsAnswer(rows, c + 1, tenant, rule, since, r)
  {
    hide Qualifies, NoDuplicates;
    if p == QUERY_LIMIT {
      r := found;
    } else {
      var m := if |found| == QUERY_LIMIT then QUERY_LIMIT - 1 else |found|;
      r := found[..p] + [c] + found[p..m];
      InsertedOrdered(rows, c, found, p, m, r);
      InsertedDistinct(found, c, p, m, r);
      InsertedFrom(found, c, p, m, r);
      forall j | 0 <= j < c + 1 && Qualifies(rows[j], tenant, rule, since) && j !in r
        ensures |r| == QUERY_LIMIT && forall k :: 0 <= k < |r| ==> rows[r[k]].createdAt >= rows[j].createdAt
      {
        LeftOut(rows, c, found, p, m, r, j);
      }
    }
  }

  /** The query always has an answer, and so every pass can be run. */
  lemma {:induction false} AnswerExists(rows: seq<AlertRow>, committed: nat, tenant: string, rule: string, since: int)
    returns (found: seq<nat>)
    requires committed <= |rows|
    ensures IsAnswer(rows, committed, tenant, rule, since, found)
  {
    found := [];
    if committed > 0 {
      var c := committed - 1;
      found := AnswerExists(rows, c, tenant, rule, since);
      if Qualifies(rows[c], tenant, rule, since) {
        var p := 0;
        while p < |found| && rows[found[p]].createdAt >= rows[c].createdAt
          invariant p <= |found| && forall k :: 0 <= k < p ==> rows[found[k]].createdAt >= rows[c].createdAt
        {
          p := p + 1;
        }
        found := Inserted(rows, c, tenant, rule, since, found, p);
      }
    }
  }

  /** The alert found at `k` has the entity key, and none found before it. */
  ghost predicate IsFirstFound(rows: seq<AlertRow>, found: seq<nat>, entity: string, k: nat) {
    && k < |found| && found[k] < |rows| && rows[found[k]].evidence.entityKey == entity
    && forall j :: 0 <= j < k && found[j] < |rows| ==> rows[found[j]].evidence.entityKey != entity
  }

  /** The first of the last `|found| - n` rows found that has the entity key. */
  function FirstMatch(rows: seq<AlertRow>, found: seq<nat>, entity: string, n: nat): (r: Option<nat>)
    requires n <= |found|
    ensures r.Some? ==> r.value < |rows| && rows[r.value].evidence.entityKey == entity
    ensures r.Some? ==> r.value in found
    ensures r.None? ==> forall k :: n <= k < |found| && found[k] < |rows| ==> rows[found[k]].evidence.entityKey != entity
    decreases |found| - n
  {
    if n == |found| then None
    else if found[n] < |rows| && rows[found[n]].evidence.entityKey == entity then Some(found[n])
    else FirstMatch(rows, found, entity, n + 1)
  }

  // ---------------------------------------------------------------- passes

  /** A rule that fired for a tenant, what the database answers to its query, and whether a provider's
      verdict was stored, and the session committed, since the hit before it was finalized. */
  datatype Firing = Firing(tenant: string, rule: string, cooldown: int, evidence: Evidence, answer: seq<nat>, fetched: bool)

  /** How a pass ends: it completes, or it raises, having committed since its last hit or not, and its
      session is rolled back. */
  datatype PassEnd = Completes | Raises(committed: bool)

  function EntityOf(f: Firing): string {
    EntityKey(f.rule, f.evidence)
  }

  /** `_finalize_alert`: merge into the alert found, or add a new one. */
  function Finalize(rows: seq<AlertRow>, now: int, f: Firing): seq<AlertRow> {
    var incoming := f.evidence.(entityKey := EntityOf(f));
    match FirstMatch(rows, f.answer, EntityOf(f), 0)
    case Some(i) => rows[i := rows[i].(evidence := Merge(rows[i].evidence, incoming, now))]
    case None => rows + [AlertRow(f.tenant, f.rule, now, incoming, FRESH)]
  }

  function FinalizeAll(rows: seq<AlertRow>, now: int, firings: seq<Firing>, n: nat): seq<AlertRow>
    requires n <= |firings|
  {
    if n == 0 then rows else Finalize(FinalizeAll(rows, now, firings, n - 1), now, firings[n - 1])
  }

  /** How many of the firings are committed when the n-th of them, counting from one, makes its query. */
  function Published(firings: seq<Firing>, n: nat): (m: nat)
    requires n <= |firings|
    ensures n > 0 ==> m < n
    ensures n == 0 ==> m == 0
  {
    if n == 0 then 0 else if firings[n - 1].fetched then n - 1 else Published(firings, n - 1)
  }

  /** How many of the firings stay in the database after the pass. */
  function Kept(firings: seq<Firing>, end: PassEnd): (m: nat)
    ensures m <= |firings|
  {
    match end
    case Completes => |firings|
    case Raises(committed) => if committed then |firings| else Published(firings, |firings|)
  }

  lemma {:induction false} PublishedAreFetched(firings: seq<Firing>, n: nat, i: nat)
    requires n <= |firings|
    ensures i < Published(firings, n) <==> exists j :: i < j < n && firings[j].fetched
  {
    if n > 0 {
      PublishedAreFetched(firings, n - 1, i);
    }
  }

  /** A hit of a pass that raised stays if and only if a commit came after it: at its end, or by a verdict
      fetched for a later hit. */
  lemma KeptAreCommitted(firings: seq<Firing>, committed: bool, i: nat)
    requires i < |firings|
    ensures i < Kept(firings, Raises(committed)) <==> committed || exists j :: i < j < |firings| && firings[j].fetched
  {
    PublishedAreFetched(firings, |firings|, i);
  }

  /** The numbers from `from` up to `to`, in order. */
  function Count(from: nat, to: nat): (r: seq<nat>)
    requires from <= to
    ensures |r| == to - from && forall k :: 0 <= k < |r| ==> r[k] == from + k
  {
    if from == to then [] else Count(from, to - 1) + [to - 1]
  }

  lemma CountHas(from: nat, to: nat)
    requires from <= to
    ensures forall i: nat :: i in Count(from, to) <==> from <= i < to
  {
    forall i: nat | from <= i < to ensures i in Count(from, to) {
      assert Count(from, to)[i - from] == i;
    }
  }

  ghost function Elements(s: seq<nat>): set<nat> {
    set x | x in s
  }

  lemma CountJoin(from: nat, mid: nat, to: nat)
    requires from <= mid <= to
    ensures Count(from, mid) + Count(mid, to) == Count(from, to)
  {
    var whole := Count(from, mid) + Count(mid, to);
    assert forall k :: 0 <= k < to - from ==> whole[k] == Count(from, to)[k];
  }

  /** The table of alerts; an alert's id is its position.  `notified` lists the ids handed to
      `notify_alert_opened`, in order. */
  datatype Store = Store(rows: seq<AlertRow>, notified: seq<nat>)

  function Pass(s: Store, now: int, firings: seq<Firing>, end: PassEnd): Store {
    var rows := FinalizeAll(s.rows, now, firings, Kept(firings, end));
    Store(rows, s.notified + if end.Completes? && |s.rows| <= |rows| then Count(|s.rows|, |rows|) else [])
  }

  /** A request about an alert the tenant does not have is not found, and changes nothing. */
  function ChangeStatus(s: Store, id: nat, tenant: string, r: Request): Store {
    if id < |s.rows| && s.rows[id].tenant == tenant then
      s.(rows := s.rows[id := s.rows[id].(flow := Apply(s.rows[id].flow, r))])
    else s
  }

  /** What the evaluators guarantee of a hit. */
  ghost predicate EvidenceOk(ev: Evidence) {
    ev.occurrences == 1 && NoDuplicates(ev.eventIds) && |ev.eventIds| <= MAX_EVENT_IDS
  }

  /** The firing comes with an answer of the database to the query it makes. */
  ghost predicate FiringOk(rows: seq<AlertRow>, committed: nat, now: int, f: Firing) {
    && EvidenceOk(f.evidence)
    && committed <= |rows|
    && IsAnswer(rows, committed, f.tenant, f.rule, now - f.cooldown * MINUTE, f.answer)
  }

  /** The hit may be merged into the alert: same tenant, rule and entity, not closed, and within the cooldown. */
  ghost predicate Mergeable(row: AlertRow, f: Firing, now: int) {
    && row.tenant == f.tenant && row.rule == f.rule && row.evidence.entityKey == EntityOf(f)
    && row.flow.status != "closed" && row.createdAt >= now - f.cooldown * 60_000_000
  }

  lemma {:induction false} FirstMatchIsFirst(rows: seq<AlertRow>, found: seq<nat>, entity: string, n: nat) returns (k: nat)
    requires n <= |found| && FirstMatch(rows, found, entity, n).Some?
    ensures n <= k < |found| && found[k] == FirstMatch(rows, found, entity, n).value
    ensures forall j :: n <= j < k && found[j] < |rows| ==> rows[found[j]].evidence.entityKey != entity
    decreases |found| - n
  {
    k := n;
    if !(found[n] < |rows| && rows[found[n]].evidence.entityKey == entity) {
      k := FirstMatchIsFirst(rows, found, entity, n + 1);
    }
  }

  /** A hit is merged only into a committed alert it may be merged into, and into a newest one; if it is merged
      into none although there is one, then 50 other open alerts no older than that one hide it. */
  lemma MergesIntoNewest(rows: seq<AlertRow>, committed: nat, now: int, f: Firing, j: nat)
    requires FiringOk(rows, committed, now, f) && j < committed && Mergeable(rows[j], f, now)
    ensures match FirstMatch(rows, f.answer, EntityOf(f), 0)
            case Some(m) => m < committed && Mergeable(rows[m], f, now) && rows[j].createdAt <= rows[m].createdAt
            case None => |f.answer| == 50 && j !in f.answer && forall k :: 0 <= k < 50 ==> rows[f.answer[k]].createdAt >= rows[j].createdAt
  {
    hide EntityKey, EvidenceOk;
    var m := FirstMatch(rows, f.answer, EntityOf(f), 0);
    assert Qualifies(rows[j], f.tenant, f.rule, now - f.cooldown * MINUTE);
    if m.Some? {
      var k := FirstMatchIsFirst(rows, f.answer, EntityOf(f), 0);
      assert Qualifies(rows[f.answer[k]], f.tenant, f.rule, now - f.cooldown * MINUTE);
      if j in f.answer {
        var l :| 0 <= l < |f.answer| && f.answer[l] == j;
        assert l >= k;
      }
    }
  }

  /** No hit is merged into an alert it may not be merged into. */
  lemma MergesOnlyMergeable(rows: seq<AlertRow>, committed: nat, now: int, f: Firing)
    requires FiringOk(rows, committed, now, f)
    ensures var m := FirstMatch(rows, f.answer, EntityOf(f), 0);
            m.Some? ==> m.value < committed && Mergeable(rows[m.value], f, now)
  {
    hide EntityKey, EvidenceOk;
    var m := FirstMatch(rows, f.answer, EntityOf(f), 0);
    if m.Some? {
      var k := FirstMatchIsFirst(rows, f.answer, EntityOf(f), 0);
      assert Qualifies(rows[f.answer[k]], f.tenant, f.rule, now - f.cooldown * MINUTE);
    }
  }

  /** How many alerts are committed when firing `n` makes its query. */
  ghost function CommittedAt(rows: seq<AlertRow>, now: int, firings: seq<Firing>, n: nat): nat
    requires n < |firings|
  {
    |FinalizeAll(rows, now, firings, Published(firings, n + 1))|
  }

  /** The first `n` firings of a pass come with answers, each at its turn and over what is committed then. */
  ghost predicate PassOk(rows: seq<AlertRow>, now: int, firings: seq<Firing>, n: nat)
    requires n <= |firings|
  {
    n == 0 || (PassOk(rows, now, firings, n - 1)
               && FiringOk(FinalizeAll(rows, now, firings, n - 1), CommittedAt(rows, now, firings, n - 1), now, firings[n - 1]))
  }

  lemma {:induction false} PassOkPrefix(rows: seq<AlertRow>, now: int, firings: seq<Firing>, m: nat, n: nat)
    requires m <= n <= |firings| && PassOk(rows, now, firings, n)
    ensures PassOk(rows, now, firings, m)
  {
    if m < n {
      PassOkPrefix(rows, now, firings, m, n - 1);
    }
  }

  ghost predicate WithinCommitted(f: Firing, committed: nat) {
    forall k :: 0 <= k < |f.answer| ==> f.answer[k] < committed
  }

  lemma {:induction false} AnswersWithinCommitted(rows: seq<AlertRow>, now: int, firings: seq<Firing>, n: nat)
    requires n <= |firings| && PassOk(rows, now, firings, n)
    ensures forall m :: 0 <= m < n ==> WithinCommitted(firings[m], CommittedAt(rows, now, firings, m))
  {
    hide FinalizeAll, CommittedAt, Qualifies, EvidenceOk;
    if n > 0 {
      AnswersWithinCommitted(rows, now, firings, n - 1);
    }
  }

  lemma FinalizeNone(rows: seq<AlertRow>, now: int, firings: seq<Firing>)
    ensures FinalizeAll(rows, now, firings, 0) == rows
  {
  }

  lemma CommittedNext(rows: seq<AlertRow>, now: int, firings: seq<Firing>, n: nat)
    requires n < |firings|
    ensures FinalizeAll(rows, now, firings, n + 1) == Finalize(FinalizeAll(rows, now, firings, n), now, firings[n])
    ensures CommittedAt(rows, now, firings, n) == |FinalizeAll(rows, now, firings, Published(firings, n + 1))|
    ensures Published(firings, n + 1) == if firings[n].fetched then n else Published(firings, n)
  {
  }

  class AlertTable {
    var rows: seq<AlertRow>   // as the session has them
    var saved: seq<AlertRow>  // as they are in the database
    var notified: seq<nat>

    function State(): Store
      reads this
    {
      Store(rows, notified)
    }

    constructor ()
      ensures State() == Store([], []) && saved == rows
    {
      rows, saved, notified := [], [], [];
    }

    /** Merge the hit into the alert the query finds for its entity, or add a new alert; a dry run looks
        for none and adds none. */
    method FinalizeAlert(now: int, f: Firing, dryRun: bool) returns (id: nat, created: bool)
      requires |saved| <= |rows| && WithinCommitted(f, |saved|)
      modifies this`rows
      ensures dryRun ==> rows == old(rows) && created && id == |rows|
      ensures !dryRun ==> rows == Finalize(old(rows), now, f)
      ensures !created ==>
                exists k: nat :: && IsFirstFound(old(rows), f.answer, EntityOf(f), k) && id == f.answer[k]
                                 && rows == old(rows)[id := old(rows)[id].(evidence := rows[id].evidence)]
                                 && rows[id].evidence == Merge(old(rows)[id].evidence, f.evidence.(entityKey := EntityOf(f)), now)
      ensures !dryRun && created ==>
                && id == |old(rows)|
                && (forall k :: 0 <= k < |f.answer| ==> old(rows)[f.answer[k]].evidence.entityKey != EntityOf(f))
                && rows == old(rows) + [AlertRow(f.tenant, f.rule, now, f.evidence.(entityKey := EntityOf(f)),
                                                 AlertState("open", None, None, Start))]
    {
      if dryRun {
        return |rows|, true;
      }
      var incoming := f.evidence.(entityKey := EntityOf(f));
      for k := 0 to |f.answer|
        invariant rows == old(rows)
        invariant forall j :: 0 <= j < k ==> rows[f.answer[j]].evidence.entityKey != EntityOf(f)
        invariant FirstMatch(rows, f.answer, EntityOf(f), 0) == FirstMatch(rows, f.answer, EntityOf(f), k)
      {
        var i := f.answer[k];
        if rows[i].evidence.entityKey == EntityOf(f) {
          var ev := MergeAlert(rows[i].evidence, incoming, now);
          assert IsFirstFound(rows, f.answer, EntityOf(f), k);
          rows := rows[i := rows[i].(evidence := ev)];
          return i, false;
        }
      }
      rows := rows + [AlertRow(f.tenant, f.rule, now, incoming, FRESH)];
      return |rows| - 1, true;
    }

    /** One pass: every firing is merged or added, then all is committed and the new alerts are handed to
        notification.  If the pass raises, its session falls back to the last commit, and nothing is handed on. */
    method RunRules(now: int, firings: seq<Firing>, end: PassEnd) returns (created: Option<seq<nat>>)
      requires saved == rows && PassOk(rows, now, firings, |firings|)
      modifies this
      ensures saved == rows && State() == Pass(old(State()), now, firings, end)
      ensures created == if end.Completes? && |old(rows)| <= |rows| then Some(Count(|old(rows)|, |rows|)) else None
      ensures |old(rows)| <= |rows|
    {
      hide PassOk, FinalizeAll, Finalize, WithinCommitted;
      var ids := [];
      assert FinalizeAll(rows, now, firings, 0) == rows by { FinalizeNone(rows, now, firings); }
      AnswersWithinCommitted(rows, now, firings, |firings|);
      for n := 0 to |firings|
        invariant |old(rows)| <= |saved| <= |rows| && notified == old(notified)
        invariant rows == FinalizeAll(old(rows), now, firings, n)
        invariant saved == FinalizeAll(old(rows), now, firings, Published(firings, n))
        invariant ids == Count(|old(rows)|, |rows|)
      {
        if firings[n].fetched {
          saved := rows;
        }
        CommittedNext(old(rows), now, firings, n);
        var id, isNew := FinalizeAlert(now, firings[n], false);
        if isNew {
          ids := ids + [id];
        }
      }
      match end
      case Completes =>
        saved := rows;
        notified := notified + ids;
        return Some(ids);
      case Raises(committed) =>
        if committed {
          saved := rows;
        }
        rows := saved;
        return None;
    }

    /** A request of one of the tenant's analysts on an alert. */
    method SetStatus(id: nat, tenant: string, r: Request) returns (found: bool)
      requires saved == rows
      modifies this
      ensures saved == rows && State() == ChangeStatus(old(State()), id, tenant, r)
      ensures found <==> id < |old(rows)| && old(rows)[id].tenant == tenant
      ensures found ==> rows == old(rows)[id := old(rows)[id].(flow := Apply(old(rows)[id].flow, r))]
      ensures notified == old(notified) && (!found ==> rows == old(rows))
    {
      if id >= |rows| || rows[id].tenant != tenant {
        return false;
      }
      rows := rows[id := rows[id].(flow := Apply(rows[id].flow, r))];
      saved := rows;
      return true;
    }
  }

  // ---------------------------------------------------------------- runs

  datatype Step =
    | RulesPass(now: int, firings: seq<Firing>, end: PassEnd)
    | StatusChange(id: nat, tenant: string, request: Request)

  ghost function StoreAfter(run: History<Step>): Store {
    match run
    case Start => Store([], [])
    case Then(b, RulesPass(now, firings, end)) => Pass(StoreAfter(b), now, firings, end)
    case Then(b, StatusChange(id, tenant, r)) => ChangeStatus(StoreAfter(b), id, tenant, r)
  }

  ghost predicate ValidRun(run: History<Step>) {
    run.Then? ==>
      && ValidRun(run.before)
      && (run.last.RulesPass? ==> PassOk(StoreAfter(run.before).rows, run.last.now, run.last.firings, |run.last.firings|))
  }

  // ---------------------------------------------------------------- identity of an alert

  datatype Key = Key(tenant: string, rule: string, entity: string)

  function KeyOf(row: AlertRow): Key {
    Key(row.tenant, row.rule, row.evidence.entityKey)
  }

  function FiringKey(f: Firing): Key {
    Key(f.tenant, f.rule, EntityOf(f))
  }

  /** `after` extends `before`, and no alert of `before` has changed its tenant, rule, entity key
      or creation time, or lost an occurrence or an event id. */
  ghost predicate Extends(before: seq<AlertRow>, after: seq<AlertRow>) {
    && |before| <= |after|
    && forall i :: 0 <= i < |before| ==>
         && KeyOf(before[i]) == KeyOf(after[i])
         && before[i].createdAt == after[i].createdAt
         && before[i].evidence.occurrences <= after[i].evidence.occurrences
         && before[i].evidence.eventIds <= after[i].evidence.eventIds
  }

  ghost predicate RowOk(row: AlertRow) {
    && row.evidence.occurrences >= 1 && row.evidence.entityKey != ""
    && NoDuplicates(row.evidence.eventIds) && |row.evidence.eventIds| <= MAX_EVENT_IDS
  }

  ghost predicate RowsOk(rows: seq<AlertRow>) {
    forall i :: 0 <= i < |rows| ==> RowOk(rows[i])
  }

  lemma FinalizeKeeps(rows: seq<AlertRow>, committed: nat, now: int, f: Firing)
    requires RowsOk(rows) && FiringOk(rows, committed, now, f)
    ensures RowsOk(Finalize(rows, now, f)) && Extends(rows, Finalize(rows, now, f))
    ensures forall i :: 0 <= i < |rows| ==> Finalize(rows, now, f)[i].flow == rows[i].flow
  {
    match FirstMatch(rows, f.answer, EntityOf(f), 0)
    case Some(i) =>
      MergeIsFaithful(rows[i].evidence, f.evidence.(entityKey := EntityOf(f)), now);
    case None =>
  }

  lemma {:induction false} FinalizeAllKeeps(rows: seq<AlertRow>, now: int, firings: seq<Firing>, n: nat)
    requires RowsOk(rows) && n <= |firings| && PassOk(rows, now, firings, n)
    ensures RowsOk(FinalizeAll(rows, now, firings, n)) && Extends(rows, FinalizeAll(rows, now, firings, n))
    ensures forall i :: 0 <= i < |rows| ==> FinalizeAll(rows, now, firings, n)[i].flow == rows[i].flow
  {
    if n > 0 {
      FinalizeAllKeeps(rows, now, firings, n - 1);
      FinalizeKeeps(FinalizeAll(rows, now, firings, n - 1), CommittedAt(rows, now, firings, n - 1), now, firings[n - 1]);
    }
  }

  /** What a pass leaves in the database, however it ends. */
  lemma PassKeeps(rows: seq<AlertRow>, now: int, firings: seq<Firing>, end: PassEnd)
    requires RowsOk(rows) && PassOk(rows, now, firings, |firings|)
    ensures var kept := Kept(firings, end);
            && PassOk(rows, now, firings, kept)
            && RowsOk(FinalizeAll(rows, now, firings, kept)) && Extends(rows, FinalizeAll(rows, now, firings, kept))
            && forall i :: 0 <= i < |rows| ==> FinalizeAll(rows, now, firings, kept)[i].flow == rows[i].flow
  {
    hide PassOk, RowsOk, Extends, FinalizeAll;
    PassOkPrefix(rows, now, firings, Kept(firings, end), |firings|);
    FinalizeAllKeeps(rows, now, firings, Kept(firings, end));
  }

  /** In every run, every alert has a key and a duplicate-free list of at most 20 event ids. */
  lemma {:induction false} EveryAlertSound(run: History<Step>)
    requires ValidRun(run)
    ensures RowsOk(StoreAfter(run).rows)
  {
    if run.Then? {
      EveryAlertSound(run.before);
      if run.last.RulesPass? {
        PassKeeps(StoreAfter(run.before).rows, run.last.now, run.last.firings, run.last.end);
      }
    }
  }

  /** A pass never changes the key, creation time, status, timestamps or audit trail of an alert, even
      if it raises. */
  lemma PassKeepsAlerts(run: History<Step>, now: int, firings: seq<Firing>, end: PassEnd)
    requires ValidRun(Then(run, RulesPass(now, firings, end)))
    ensures var before, after := StoreAfter(run).rows, StoreAfter(Then(run, RulesPass(now, firings, end))).rows;
            Extends(before, after) && forall i :: 0 <= i < |before| ==> after[i].flow == before[i].flow
  {
    assert ValidRun(Then(run, RulesPass(now, firings, end)).before);
    EveryAlertSound(run);
    PassKeeps(StoreAfter(run).rows, now, firings, end);
  }

  // ---------------------------------------------------------------- notification

  /** The alerts that passes which raised have left in the database. */
  ghost function LeftBehind(run: History<Step>): set<nat> {
    match run
    case Start => {}
    case Then(b, RulesPass(_, _, Raises(_))) =>
      var from, to := |StoreAfter(b).rows|, |StoreAfter(run).rows|;
      LeftBehind(b) + if from <= to then Elements(Count(from, to)) else {}
    case Then(b, _) => LeftBehind(b)
  }

  lemma StepGrows(run: History<Step>)
    requires ValidRun(run) && run.Then?
    ensures |StoreAfter(run.before).rows| <= |StoreAfter(run).rows|
    ensures run.last.StatusChange? ==> |StoreAfter(run.before).rows| == |StoreAfter(run).rows|
  {
    hide PassOk, FinalizeAll, RowsOk;
    EveryAlertSound(run.before);
    if run.last.RulesPass? {
      PassKeeps(StoreAfter(run.before).rows, run.last.now, run.last.firings, run.last.end);
    }
  }

  /** In every run, alerts are handed to notification in creation order, never twice, and an alert is
      handed on unless a pass that raised left it behind; such an alert never is, later passes included. */
  lemma {:induction false} NotifiedUnlessLeftBehind(run: History<Step>)
    requires ValidRun(run)
    ensures var s := StoreAfter(run);
            && (forall k, l :: 0 <= k < l < |s.notified| ==> s.notified[k] < s.notified[l])
            && (forall i: nat :: i in s.notified <==> i < |s.rows| && i !in LeftBehind(run))
            && forall i :: i in LeftBehind(run) ==> i < |s.rows|
  {
    hide PassOk, FinalizeAll;
    if run.Then? {
      NotifiedUnlessLeftBehind(run.before);
      StepGrows(run);
      var before, after := StoreAfter(run.before), StoreAfter(run);
      CountHas(|before.rows|, |after.rows|);
      if run.last.RulesPass? && run.last.end.Completes? {
        assert after.notified == before.notified + Count(|before.rows|, |after.rows|);
        assert forall k :: 0 <= k < |before.notified| ==> before.notified[k] in before.notified;
      }
    }
  }

  /** The n-th firing of the pass creates a new alert. */
  ghost predicate Creates(rows: seq<AlertRow>, now: int, firings: seq<Firing>, n: nat)
    requires n < |firings|
  {
    |FinalizeAll(rows, now, firings, n + 1)| == |FinalizeAll(rows, now, firings, n)| + 1
  }

  /** No pass that raised had committed a hit that creates an alert. */
  ghost predicate NothingPublishedByRaised(run: History<Step>) {
    run.Then? ==>
      && NothingPublishedByRaised(run.before)
      && (run.last.RulesPass? && run.last.end.Raises? ==>
            forall n :: 0 <= n < Kept(run.last.firings, run.last.end) ==>
              !Creates(StoreAfter(run.before).rows, run.last.now, run.last.firings, n))
  }

  /** Finalizing a hit adds at most one alert, of the hit's tenant and rule, at the time of the pass. */
  lemma FinalizeGrows(rows: seq<AlertRow>, now: int, f: Firing)
    ensures var after := Finalize(rows, now, f);
            && |rows| <= |after| <= |rows| + 1
            && (|after| > |rows| ==> after[|rows|].tenant == f.tenant && after[|rows|].rule == f.rule && after[|rows|].createdAt == now)
  {
  }

  lemma {:induction false} GrowsIffCreates(rows: seq<AlertRow>, now: int, firings: seq<Firing>, n: nat)
    requires n <= |firings|
    ensures |FinalizeAll(rows, now, firings, n)| >= |rows|
    ensures |FinalizeAll(rows, now, firings, n)| == |rows| <==> forall m :: 0 <= m < n ==> !Creates(rows, now, firings, m)
  {
    hide Finalize;
    if n > 0 {
      GrowsIffCreates(rows, now, firings, n - 1);
      FinalizeGrows(FinalizeAll(rows, now, firings, n - 1), now, firings[n - 1]);
      assert Creates(rows, now, firings, n - 1) <==>
             |FinalizeAll(rows, now, firings, n)| == |FinalizeAll(rows, now, firings, n - 1)| + 1;
    }
  }

  lemma SameFront(a: seq<nat>, b: seq<nat>, tail: seq<nat>)
    ensures a + tail == b + tail <==> a == b
  {
    if a + tail == b + tail {
      assert |a| == |b| && (a + tail)[..|a|] == a && (b + tail)[..|b|] == b;
    }
  }

  /** Handing on the new ids keeps the list complete or incomplete; not handing on any keeps it complete
      only if there are none. */
  lemma CountOnOrNot(from: nat, to: nat, ids: seq<nat>)
    requires from <= to && forall i :: i in ids ==> i < from
    ensures ids + Count(from, to) == Count(0, to) <==> ids == Count(0, from)
    ensures ids == Count(0, to) <==> from == to && ids == Count(0, from)
  {
    CountJoin(0, from, to);
    SameFront(ids, Count(0, from), Count(from, to));
    CountHas(0, to);
    assert from < to ==> from in Count(0, to);
  }

  /** Every alert has been handed to notification exactly once, in creation order, if and only if no pass
      that raised had committed a new alert. */
  lemma {:induction false} NotifiedOncePrecisely(run: History<Step>)
    requires ValidRun(run)
    ensures StoreAfter(run).notified == Count(0, |StoreAfter(run).rows|) <==> NothingPublishedByRaised(run)
  {
    hide PassOk, FinalizeAll, Creates, Count;
    if run.Then? {
      NotifiedOncePrecisely(run.before);
      NotifiedUnlessLeftBehind(run.before);
      StepGrows(run);
      var before, after := StoreAfter(run.before), StoreAfter(run);
      CountOnOrNot(|before.rows|, |after.rows|, before.notified);
      if run.last.RulesPass? {
        GrowsIffCreates(before.rows, run.last.now, run.last.firings, Kept(run.last.firings, run.last.end));
      }
    }
  }

  lemma OneFiring(rows: seq<AlertRow>, now: int, f: Firing)
    ensures FinalizeAll(rows, now, [f], 1) == Finalize(rows, now, f)
    ensures FiringOk(rows, |rows|, now, f) ==> PassOk(rows, now, [f], 1)
  {
    assert FinalizeAll(rows, now, [f], 0) == rows;
    assert PassOk(rows, now, [f], 0);
  }

  lemma FirstHit(now: int, f: Firing)
    requires EvidenceOk(f.evidence) && f.answer == []
    ensures PassOk([], now, [f], 1)
    ensures FinalizeAll([], now, [f], 1) == [AlertRow(f.tenant, f.rule, now, f.evidence.(entityKey := EntityOf(f)), FRESH)]
  {
    hide EntityKey;
    OneFiring([], now, f);
  }

  lemma NextHit(row: AlertRow, now: int, g: Firing)
    requires EvidenceOk(g.evidence) && g.answer == [0] && row.evidence.occurrences == 1 && row.evidence.entityKey == EntityOf(g)
    requires Qualifies(row, g.tenant, g.rule, now - g.cooldown * MINUTE)
    ensures PassOk([row], now, [g], 1)
    ensures var after := FinalizeAll([row], now, [g], 1); |after| == 1 && after[0].evidence.occurrences == 2
  {
    hide EntityKey;
    OneFiring([row], now, g);
    assert FirstMatch([row], g.answer, EntityOf(g), 0) == Some(0);
  }

  /** A failing run: a hit creates an alert, a fetched verdict commits it, and the pass raises.  The alert
      stays and is not handed on; the next hit is merged into it, and is not handed on either. */
  lemma RaisedPassHidesAlert(now: int, later: int, f: Firing)
    requires EvidenceOk(f.evidence) && f.answer == [] && now <= later <= now + f.cooldown * MINUTE
    ensures var run := Then(Then(Start, RulesPass(now, [f], Raises(true))), RulesPass(later, [f.(answer := [0])], Completes));
            && ValidRun(run)
            && |StoreAfter(run).rows| == 1 && StoreAfter(run).rows[0].evidence.occurrences == 2
            && StoreAfter(run).notified == []
  {
    hide PassOk, FinalizeAll, Merge, EntityKey;
    var row := AlertRow(f.tenant, f.rule, now, f.evidence.(entityKey := EntityOf(f)), FRESH);
    var first, second := RulesPass(now, [f], Raises(true)), RulesPass(later, [f.(answer := [0])], Completes);
    FirstHit(now, f);
    NextHit(row, later, f.(answer := [0]));
    assert StoreAfter(Then(Start, first)) == Store([row], []);
    assert ValidRun(Start) && ValidRun(Then(Start, first));
  }

  // ---------------------------------------------------------------- closed alerts and audit trails

  /** The n-th firing cannot reach an alert that is closed. */
  lemma FinalizeSparesClosed(rows: seq<AlertRow>, committed: nat, now: int, f: Firing, i: nat)
    requires FiringOk(rows, committed, now, f) && i < |rows| && rows[i].flow.status == "closed"
    ensures i < |Finalize(rows, now, f)| && Finalize(rows, now, f)[i] == rows[i]
  {
    var m := FirstMatch(rows, f.answer, EntityOf(f), 0);
    if m.Some? {
      var k :| 0 <= k < |f.answer| && f.answer[k] == m.value;
      assert Qualifies(rows[f.answer[k]], f.tenant, f.rule, now - f.cooldown * MINUTE);
    }
  }

  /** A pass leaves closed alerts exactly as they are: hits are never merged into them. */
  lemma {:induction false} PassSparesClosed(rows: seq<AlertRow>, now: int, firings: seq<Firing>, n: nat, i: nat)
    requires n <= |firings| && PassOk(rows, now, firings, n) && i < |rows| && rows[i].flow.status == "closed"
    ensures i < |FinalizeAll(rows, now, firings, n)| && FinalizeAll(rows, now, firings, n)[i] == rows[i]
  {
    hide FiringOk, Finalize;
    if n > 0 {
      PassSparesClosed(rows, now, firings, n - 1, i);
      FinalizeSparesClosed(FinalizeAll(rows, now, firings, n - 1), CommittedAt(rows, now, firings, n - 1), now, firings[n - 1], i);
    }
  }

  ghost predicate TrailsConsistent(rows: seq<AlertRow>) {
    forall i :: 0 <= i < |rows| ==> Consistent(rows[i].flow)
  }

  lemma {:induction false} FinalizeAllKeepsTrails(rows: seq<AlertRow>, now: int, firings: seq<Firing>, n: nat)
    requires TrailsConsistent(rows) && n <= |firings|
    ensures TrailsConsistent(FinalizeAll(rows, now, firings, n))
  {
    if n > 0 {
      FinalizeAllKeepsTrails(rows, now, firings, n - 1);
    }
  }

  /** In every run, with any interleaving of passes and status changes, the workflow invariant
      holds of every alert. */
  lemma {:induction false} EveryTrailConsistent(run: History<Step>)
    ensures TrailsConsistent(StoreAfter(run).rows)
  {
    if run.Then? {
      var s := StoreAfter(run.before);
      EveryTrailConsistent(run.before);
      match run.last
      case RulesPass(now, firings, end) => FinalizeAllKeepsTrails(s.rows, now, firings, Kept(firings, end));
      case StatusChange(id, _, r) =>
        if id < |s.rows| {
          ApplyKeepsConsistent(s.rows[id].flow, r);
        }
    }
  }

  /** The requests on an alert by analysts of its own tenant, since it was created. */
  ghost function RequestsOn(run: History<Step>, id: nat): History<Request> {
    match run
    case Start => Start
    case Then(b, RulesPass(_, _, _)) => RequestsOn(b, id)
    case Then(b, StatusChange(i, tenant, r)) =>
      var rows := StoreAfter(b).rows;
      if i == id && id < |rows| && rows[id].tenant == tenant then Then(RequestsOn(b, id), r) else RequestsOn(b, id)
  }

  lemma {:induction false} NewAlertsFresh(rows: seq<AlertRow>, now: int, firings: seq<Firing>, n: nat)
    requires n <= |firings|
    ensures |rows| <= |FinalizeAll(rows, now, firings, n)|
    ensures forall i :: |rows| <= i < |FinalizeAll(rows, now, firings, n)| ==> FinalizeAll(rows, now, firings, n)[i].flow == FRESH
    ensures forall i :: 0 <= i < |rows| ==> FinalizeAll(rows, now, firings, n)[i].flow == rows[i].flow
  {
    hide Merge, EntityKey;
    if n > 0 {
      NewAlertsFresh(rows, now, firings, n - 1);
    }
  }

  lemma {:induction false} NoRequestsBefore(run: History<Step>, id: nat)
    ensures id >= |StoreAfter(run).rows| ==> RequestsOn(run, id) == Start
  {
    hide FinalizeAll;
    if run.Then? {
      NoRequestsBefore(run.before, id);
      if run.last.RulesPass? {
        NewAlertsFresh(StoreAfter(run.before).rows, run.last.now, run.last.firings, Kept(run.last.firings, run.last.end));
      }
    }
  }

  /** In every run, the workflow of an alert is what its own tenant's requests on it have made of a fresh one:
      no pass, no other tenant and no request on another alert has a part in it. */
  lemma {:induction false} FlowIsOwnRequests(run: History<Step>, id: nat)
    requires id < |StoreAfter(run).rows|
    ensures StoreAfter(run).rows[id].flow == Run(FRESH, RequestsOn(run, id))
  {
    hide FinalizeAll, Apply;
    var rows := StoreAfter(run.before).rows;
    if id < |rows| {
      FlowIsOwnRequests(run.before, id);
    } else {
      NoRequestsBefore(run.before, id);
    }
    if run.last.RulesPass? {
      NewAlertsFresh(rows, run.last.now, run.last.firings, Kept(run.last.firings, run.last.end));
    }
  }

  // ---------------------------------------------------------------- conservation

  /** The occurrences of the first `n` alerts with the key. */
  ghost function Occurrences(rows: seq<AlertRow>, key: Key, n: nat): int
    requires n <= |rows|
  {
    if n == 0 then 0
    else Occurrences(rows, key, n - 1) + (if KeyOf(rows[n - 1]) == key then rows[n - 1].evidence.occurrences else 0)
  }

  ghost function FiringsIn(firings: seq<Firing>, key: Key, n: nat): nat
    requires n <= |firings|
  {
    if n == 0 then 0 else FiringsIn(firings, key, n - 1) + (if FiringKey(firings[n - 1]) == key then 1 else 0)
  }

  /** How many times the key fired in a run, without the hits that passes which raised had not committed. */
  ghost function TimesFired(run: History<Step>, key: Key): nat {
    match run
    case Start => 0
    case Then(b, RulesPass(_, firings, end)) => TimesFired(b, key) + FiringsIn(firings, key, Kept(firings, end))
    case Then(b, StatusChange(_, _, _)) => TimesFired(b, key)
  }

  lemma {:induction false} OccurrencesOfUpdate(rows: seq<AlertRow>, i: nat, row: AlertRow, key: Key, n: nat)
    requires i < |rows| && n <= |rows| && KeyOf(row) == KeyOf(rows[i])
    ensures Occurrences(rows[i := row], key, n) == Occurrences(rows, key, n)
            + (if i < n && KeyOf(row) == key then row.evidence.occurrences - rows[i].evidence.occurrences else 0)
  {
    if n > 0 {
      OccurrencesOfUpdate(rows, i, row, key, n - 1);
    }
  }

  lemma {:induction false} OccurrencesOfPrefix(rows: seq<AlertRow>, more: seq<AlertRow>, key: Key, n: nat)
    requires n <= |rows| <= |more|
    requires forall i :: 0 <= i < n ==> KeyOf(rows[i]) == KeyOf(more[i])
                                        && rows[i].evidence.occurrences == more[i].evidence.occurrences
    ensures Occurrences(more, key, n) == Occurrences(rows, key, n)
  {
    if n > 0 {
      OccurrencesOfPrefix(rows, more, key, n - 1);
    }
  }

  /** One hit adds one occurrence to its own key, and none to any other. */
  lemma FinalizeAddsOne(rows: seq<AlertRow>, committed: nat, now: int, f: Firing, key: Key)
    requires RowsOk(rows) && FiringOk(rows, committed, now, f)
    ensures var after := Finalize(rows, now, f);
            Occurrences(after, key, |after|) == Occurrences(rows, key, |rows|) + (if FiringKey(f) == key then 1 else 0)
  {
    var after := Finalize(rows, now, f);
    match FirstMatch(rows, f.answer, EntityOf(f), 0)
    case Some(i) =>
      MergeIsFaithful(rows[i].evidence, f.evidence.(entityKey := EntityOf(f)), now);
      OccurrencesOfUpdate(rows, i, after[i], key, |rows|);
    case None =>
      OccurrencesOfPrefix(rows, after, key, |rows|);
  }

  lemma {:induction false} PassAddsFirings(rows: seq<AlertRow>, now: int, firings: seq<Firing>, key: Key, n: nat)
    requires RowsOk(rows) && n <= |firings| && PassOk(rows, now, firings, n)
    ensures var after := FinalizeAll(rows, now, firings, n);
            Occurrences(after, key, |after|) == Occurrences(rows, key, |rows|) + FiringsIn(firings, key, n)
  {
    hide FiringOk, Finalize, RowsOk, Extends, Occurrences;
    if n > 0 {
      PassAddsFirings(rows, now, firings, key, n - 1);
      FinalizeAllKeeps(rows, now, firings, n - 1);
      FinalizeAddsOne(FinalizeAll(rows, now, firings, n - 1), CommittedAt(rows, now, firings, n - 1), now, firings[n - 1], key);
    }
  }

  /** Conservation: over every run of passes and status changes, the occurrences recorded on the alerts
      of a key are the times that key fired; a pass that raises counts with what it had committed. */
  lemma {:induction false} OccurrencesConserved(run: History<Step>, key: Key)
    requires ValidRun(run)
    ensures var rows := StoreAfter(run).rows;
            Occurrences(rows, key, |rows|) == TimesFired(run, key)
  {
    if run.Then? {
      var rows := StoreAfter(run.before).rows;
      OccurrencesConserved(run.before, key);
      EveryAlertSound(run.before);
      match run.last
      case RulesPass(now, firings, end) =>
        PassKeeps(rows, now, firings, end);
        PassAddsFirings(rows, now, firings, key, Kept(firings, end));
      case StatusChange(_, _, _) => OccurrencesOfPrefix(rows, StoreAfter(run).rows, key, |rows|);
    }
  }

  // ---------------------------------------------------------------- spacing

  /** Each rule has one id, so a pass fires a rule at most once for a tenant. */
  ghost predicate RulesUnique(firings: seq<Firing>) {
    forall m, n :: 0 <= m < n < |firings| ==> firings[m].tenant != firings[n].tenant || firings[m].rule != firings[n].rule
  }

  ghost predicate RunRulesUnique(run: History<Step>) {
    run.Then? ==> RunRulesUnique(run.before) && (run.last.RulesPass? ==> RulesUnique(run.last.firings))
  }

  /** The alerts, other than `a`, that compete with it for the 50 places of the query. */
  ghost function Competitors(rows: seq<AlertRow>, a: nat, tenant: string, rule: string, since: int): set<nat>
    requires a < |rows|
  {
    set j | 0 <= j < |rows| && j != a && Qualifies(rows[j], tenant, rule, since) && rows[j].createdAt >= rows[a].createdAt
  }

  lemma {:induction false} DistinctSize(s: seq<nat>)
    requires NoDuplicates(s)
    ensures |Elements(s)| == |s|
  {
    if s != [] {
      var init, last := s[..|s| - 1], s[|s| - 1];
      DistinctSize(init);
      assert s == init + [last] && last !in init;
      assert Elements(s) == Elements(init) + {last};
    }
  }

  lemma SubsetSize(small: set<nat>, large: set<nat>)
    requires small <= large
    ensures |small| <= |large|
  {
    assert large == small + (large - small);
  }

  lemma CreatesUnmatched(rows: seq<AlertRow>, now: int, firings: seq<Firing>, n: nat)
    requires n < |firings| && Creates(rows, now, firings, n)
    ensures FirstMatch(FinalizeAll(rows, now, firings, n), firings[n].answer, EntityOf(firings[n]), 0).None?
  {
    assert FinalizeAll(rows, now, firings, n + 1) == Finalize(FinalizeAll(rows, now, firings, n), now, firings[n]);
  }

  lemma LastFiringOk(rows: seq<AlertRow>, now: int, firings: seq<Firing>, n: nat)
    requires n < |firings| && PassOk(rows, now, firings, n + 1)
    ensures FiringOk(FinalizeAll(rows, now, firings, n), CommittedAt(rows, now, firings, n), now, firings[n])
  {
  }

  /** Dedup spacing, one pass: if a firing creates an alert while a committed alert `a` that is not
      closed has the same tenant, rule and entity key, then `a` is older than the cooldown, or at
      least 50 other open alerts of the rule, no older than `a`, are in the window. */
  lemma CreatedOnlyWhenFarApart(rows: seq<AlertRow>, now: int, firings: seq<Firing>, n: nat, a: nat)
    requires RowsOk(rows) && n < |firings| && PassOk(rows, now, firings, n + 1) && Creates(rows, now, firings, n)
    requires var cur := FinalizeAll(rows, now, firings, n);
             a < CommittedAt(rows, now, firings, n) && a < |cur| && KeyOf(cur[a]) == FiringKey(firings[n]) && cur[a].flow.status != "closed"
    ensures var cur, since := FinalizeAll(rows, now, firings, n), now - firings[n].cooldown * MINUTE;
            || cur[a].createdAt < since
            || |Competitors(cur, a, firings[n].tenant, firings[n].rule, since)| >= QUERY_LIMIT
  {
    hide PassOk, CommittedAt, RowsOk, FinalizeAll, Finalize, Creates, EvidenceOk, Published;
    var f, since, cur := firings[n], now - firings[n].cooldown * MINUTE, FinalizeAll(rows, now, firings, n);
    var committed := CommittedAt(rows, now, firings, n);
    LastFiringOk(rows, now, firings, n);
    CreatesUnmatched(rows, now, firings, n);
    if cur[a].createdAt >= since {
      assert Qualifies(cur[a], f.tenant, f.rule, since);
      assert a !in f.answer;
      DistinctSize(f.answer);
      forall j | j in Elements(f.answer) ensures j in Competitors(cur, a, f.tenant, f.rule, since) {
        var k :| 0 <= k < |f.answer| && f.answer[k] == j;
        assert Qualifies(cur[f.answer[k]], f.tenant, f.rule, since);
      }
      SubsetSize(Elements(f.answer), Competitors(cur, a, f.tenant, f.rule, since));
    }
  }

  /** The alerts of a rule and tenant created at or after `since`. */
  ghost function CreatedSince(rows: seq<AlertRow>, tenant: string, rule: string, since: int): set<nat> {
    set j | 0 <= j < |rows| && rows[j].rule == rule && rows[j].tenant == tenant && rows[j].createdAt >= since
  }

  ghost function PassesSince(run: History<Step>, since: int): nat {
    match run
    case Start => 0
    case Then(b, RulesPass(now, _, _)) => PassesSince(b, since) + (if now >= since then 1 else 0)
    case Then(b, StatusChange(_, _, _)) => PassesSince(b, since)
  }

  ghost predicate FiresIn(firings: seq<Firing>, tenant: string, rule: string, n: nat)
    requires n <= |firings|
  {
    exists m :: 0 <= m < n && firings[m].tenant == tenant && firings[m].rule == rule
  }

  lemma FiresInStep(firings: seq<Firing>, tenant: string, rule: string, n: nat)
    requires 0 < n <= |firings| && RulesUnique(firings)
    ensures FiresIn(firings, tenant, rule, n - 1) ==> FiresIn(firings, tenant, rule, n)
    ensures firings[n - 1].tenant == tenant && firings[n - 1].rule == rule ==>
              FiresIn(firings, tenant, rule, n) && !FiresIn(firings, tenant, rule, n - 1)
  {
  }

  lemma FinalizeCreates(rows: seq<AlertRow>, committed: nat, now: int, f: Firing, tenant: string, rule: string, since: int)
    requires RowsOk(rows) && FiringOk(rows, committed, now, f)
    ensures |CreatedSince(Finalize(rows, now, f), tenant, rule, since)| <= |CreatedSince(rows, tenant, rule, since)|
              + (if now >= since && f.tenant == tenant && f.rule == rule then 1 else 0)
  {
    hide RowsOk, FiringOk, Finalize;
    FinalizeKeeps(rows, committed, now, f);
    FinalizeGrows(rows, now, f);
    var after := Finalize(rows, now, f);
    var was, grown := CreatedSince(rows, tenant, rule, since), CreatedSince(after, tenant, rule, since);
    forall j | j in grown ensures j in was || j == |rows| {
      if j < |rows| {
        assert KeyOf(rows[j]) == KeyOf(after[j]) && rows[j].createdAt == after[j].createdAt;
      }
    }
    if now >= since && f.tenant == tenant && f.rule == rule {
      SubsetSize(grown, was + {|rows|});
    } else {
      SubsetSize(grown, was);
    }
  }

  /** A pass with unique rule ids adds at most one alert per rule and tenant. */
  lemma {:induction false} PassCreatesAtMostOne(rows: seq<AlertRow>, now: int, firings: seq<Firing>, n: nat,
                                                tenant: string, rule: string, since: int)
    requires RowsOk(rows) && n <= |firings| && PassOk(rows, now, firings, n) && RulesUnique(firings)
    ensures |CreatedSince(FinalizeAll(rows, now, firings, n), tenant, rule, since)|
         <= |CreatedSince(rows, tenant, rule, since)| + (if now >= since && FiresIn(firings, tenant, rule, n) then 1 else 0)
  {
    if n > 0 {
      PassCreatesAtMostOne(rows, now, firings, n - 1, tenant, rule, since);
      FinalizeAllKeeps(rows, now, firings, n - 1);
      FinalizeCreates(FinalizeAll(rows, now, firings, n - 1), CommittedAt(rows, now, firings, n - 1), now, firings[n - 1], tenant, rule, since);
      FiresInStep(firings, tenant, rule, n);
    }
  }

  lemma {:induction false} AtMostOnePerPass(run: History<Step>, tenant: string, rule: string, since: int)
    requires ValidRun(run) && RunRulesUnique(run)
    ensures |CreatedSince(StoreAfter(run).rows, tenant, rule, since)| <= PassesSince(run, since)
  {
    if run.Then? {
      var rows := StoreAfter(run.before).rows;
      AtMostOnePerPass(run.before, tenant, rule, since);
      EveryAlertSound(run.before);
      match run.last
      case RulesPass(now, firings, end) =>
        PassKeeps(rows, now, firings, end);
        PassCreatesAtMostOne(rows, now, firings, Kept(firings, end), tenant, rule, since);
      case StatusChange(_, _, _) =>
        assert CreatedSince(StoreAfter(run).rows, tenant, rule, since) == CreatedSince(rows, tenant, rule, since);
    }
  }

  /** An alert that the pass itself has added is of a rule and tenant that have fired in it. */
  lemma {:induction false} AddedByFiring(rows: seq<AlertRow>, now: int, firings: seq<Firing>, n: nat, i: nat)
    requires RowsOk(rows) && n <= |firings| && PassOk(rows, now, firings, n)
    requires |rows| <= i < |FinalizeAll(rows, now, firings, n)|
    ensures var row := FinalizeAll(rows, now, firings, n)[i]; FiresIn(firings, row.tenant, row.rule, n)
  {
    hide FiringOk, Finalize, RowsOk;
    if n > 0 {
      var cur := FinalizeAll(rows, now, firings, n - 1);
      FinalizeAllKeeps(rows, now, firings, n - 1);
      FinalizeGrows(cur, now, firings[n - 1]);
      FinalizeKeeps(cur, CommittedAt(rows, now, firings, n - 1), now, firings[n - 1]);
      if i < |cur| {
        AddedByFiring(rows, now, firings, n - 1, i);
        assert KeyOf(Finalize(cur, now, firings[n - 1])[i]) == KeyOf(cur[i]);
      }
    }
  }

  lemma {:induction false} CommittedCoversStart(rows: seq<AlertRow>, now: int, firings: seq<Firing>, n: nat)
    requires n < |firings|
    ensures |rows| <= CommittedAt(rows, now, firings, n)
  {
    GrowsIffCreates(rows, now, firings, Published(firings, n + 1));
  }

  lemma FiresOnce(firings: seq<Firing>, n: nat)
    requires n < |firings| && RulesUnique(firings)
    ensures !FiresIn(firings, firings[n].tenant, firings[n].rule, n)
  {
  }

  /** The competitors of an alert in the window are among the other alerts created in the window. */
  lemma FewCompetitors(rows: seq<AlertRow>, a: nat, tenant: string, rule: string, since: int)
    requires a < |rows| && rows[a].tenant == tenant && rows[a].rule == rule && rows[a].createdAt >= since
    ensures |Competitors(rows, a, tenant, rule, since)| < |CreatedSince(rows, tenant, rule, since)|
  {
    var others := Competitors(rows, a, tenant, rule, since);
    assert |others + {a}| == |others| + 1;
    SubsetSize(others + {a}, CreatedSince(rows, tenant, rule, since));
  }

  /** Dedup spacing over runs: when at most 50 earlier passes fall in the cooldown window, a pass
      creates a second alert for an entity only if every alert of that entity that is not closed, at
      that moment of the pass, is older than the cooldown. */
  lemma NoDuplicateWithinCooldown(run: History<Step>, now: int, firings: seq<Firing>, n: nat, a: nat)
    requires ValidRun(run) && RunRulesUnique(run) && PassOk(StoreAfter(run).rows, now, firings, |firings|) && RulesUnique(firings)
    requires n < |firings| && Creates(StoreAfter(run).rows, now, firings, n)
    requires var cur := FinalizeAll(StoreAfter(run).rows, now, firings, n);
             a < |cur| && KeyOf(cur[a]) == FiringKey(firings[n]) && cur[a].flow.status != "closed"
    requires PassesSince(run, now - firings[n].cooldown * MINUTE) <= QUERY_LIMIT
    ensures FinalizeAll(StoreAfter(run).rows, now, firings, n)[a].createdAt < now - firings[n].cooldown * MINUTE
  {
    hide PassOk, Creates, RunRulesUnique, RowsOk, FinalizeAll, PassesSince, Competitors, Qualifies, RulesUnique, FiresIn, CommittedAt;
    var rows, f, since := StoreAfter(run).rows, firings[n], now - firings[n].cooldown * MINUTE;
    var cur := FinalizeAll(rows, now, firings, n);
    EveryAlertSound(run);
    PassOkPrefix(rows, now, firings, n + 1, |firings|);
    PassOkPrefix(rows, now, firings, n, |firings|);
    FiresOnce(firings, n);
    if a >= |rows| {
      AddedByFiring(rows, now, firings, n, a);
    }
    CommittedCoversStart(rows, now, firings, n);
    CreatedOnlyWhenFarApart(rows, now, firings, n, a);
    AtMostOnePerPass(run, f.tenant, f.rule, since);
    PassCreatesAtMostOne(rows, now, firings, n, f.tenant, f.rule, since);
    if cur[a].createdAt >= since {
      FewCompetitors(cur, a, f.tenant, f.rule, since);
    }
  }
}
