/**
 Evaluation of rules over events (services/api/rules_engine.py): match filters, match rules,
 threshold rules in memory and in SQL, and correlation rules.
 */
module RulesEngine {
  import opened Wrappers
  import opened Text
  import Counters
  import opened EnrichProviders
  import AlertStore

  /** An event: the attributes that are not None, and its labels. */
  datatype Event = Event(id: int, attrs: map<string, string>, labels: map<string, string>)

  datatype Expected = One(value: string) | AnyOf(values: seq<string>)

  type Filters = map<string, Expected>

  const LABELS := "labels."

  predicate IsLabelKey(key: string) {
    LABELS <= key
  }

  function Attr(e: Event, name: string): Option<string> {
    if name in e.attrs then Some(e.attrs[name]) else None
  }

  function FilteredValue(e: Event, key: string): Option<string> {
    if IsLabelKey(key) then
      var name := key[|LABELS|..];
      if name in e.labels then Some(e.labels[name]) else None
    else Attr(e, key)
  }

  predicate Accepts(expected: Expected, actual: string) {
    match expected
    case One(v) => Lower(actual) == Lower(v)
    case AnyOf(vs) => exists v :: v in vs && Lower(actual) == Lower(v)
  }

  predicate MatchFilters(e: Event, filters: Filters) {
    forall key :: key in filters ==>
      FilteredValue(e, key).Some? && Accepts(filters[key], FilteredValue(e, key).value)
  }

  function LowerValues(m: map<string, string>): map<string, string> {
    map k | k in m :: Lower(m[k])
  }

  function LowerTexts(vs: seq<string>, n: nat): (r: seq<string>)
    requires n <= |vs|
    ensures |r| == n && forall i :: 0 <= i < n ==> r[i] == Lower(vs[i])
  {
    if n == 0 then [] else LowerTexts(vs, n - 1) + [Lower(vs[n - 1])]
  }

  function LowerExpected(x: Expected): Expected {
    match x
    case One(v) => One(Lower(v))
    case AnyOf(vs) => AnyOf(LowerTexts(vs, |vs|))
  }

  lemma LowerLower(s: string)
    ensures Lower(Lower(s)) == Lower(s)
  {
    assert forall i :: 0 <= i < |s| ==> LowerChar(LowerChar(s[i])) == LowerChar(s[i]);
  }

  lemma AcceptsAnyCase(x: Expected, actual: string)
    ensures Accepts(LowerExpected(x), Lower(actual)) == Accepts(x, actual)
  {
    LowerLower(actual);
    match x
    case One(v) => LowerLower(v);
    case AnyOf(vs) =>
      var ls := LowerTexts(vs, |vs|);
      forall i | 0 <= i < |vs| ensures Lower(ls[i]) == Lower(vs[i]) {
        LowerLower(vs[i]);
      }
      if Accepts(x, actual) {
        var i :| 0 <= i < |vs| && Lower(actual) == Lower(vs[i]);
        assert ls[i] in ls;
      }
      if Accepts(LowerExpected(x), Lower(actual)) {
        var i :| 0 <= i < |ls| && Lower(Lower(actual)) == Lower(ls[i]);
        assert vs[i] in vs;
      }
  }

  /** The case of an event's values and of the expected ones never decides a match. */
  lemma MatchAnyCase(e: Event, filters: Filters)
    ensures MatchFilters(e, filters) ==
            MatchFilters(Event(e.id, LowerValues(e.attrs), LowerValues(e.labels)), map k | k in filters :: LowerExpected(filters[k]))
  {
    var low, lowered := Event(e.id, LowerValues(e.attrs), LowerValues(e.labels)), map k | k in filters :: LowerExpected(filters[k]);
    forall k | k in filters
      ensures FilteredValue(e, k).Some? == FilteredValue(low, k).Some?
      ensures FilteredValue(e, k).Some? ==>
                Accepts(filters[k], FilteredValue(e, k).value) == Accepts(lowered[k], FilteredValue(low, k).value)
    {
      if FilteredValue(e, k).Some? {
        AcceptsAnyCase(filters[k], FilteredValue(e, k).value);
      }
    }
  }

  /** A filter on `labels.x` asks the label x, any other the attribute of its name: it must be there, and be
      the expected text, or one of the expected texts, in lower case on both sides. */
  lemma FilterReads(e: Event, name: string, value: string, values: seq<string>)
    ensures MatchFilters(e, map["labels." + name := One(value)]) <==> name in e.labels && Lower(e.labels[name]) == Lower(value)
    ensures MatchFilters(e, map["labels." + name := AnyOf(values)]) <==>
              name in e.labels && exists i :: 0 <= i < |values| && Lower(e.labels[name]) == Lower(values[i])
    ensures !("labels." <= name) ==>
              && (MatchFilters(e, map[name := One(value)]) <==> name in e.attrs && Lower(e.attrs[name]) == Lower(value))
              && (MatchFilters(e, map[name := AnyOf(values)]) <==>
                    name in e.attrs && exists i :: 0 <= i < |values| && Lower(e.attrs[name]) == Lower(values[i]))
  {
    hide Lower;
    assert ("labels." + name)[|LABELS|..] == name;
    forall x: Expected
      ensures MatchFilters(e, map["labels." + name := x]) <==> name in e.labels && Accepts(x, e.labels[name])
      ensures !("labels." <= name) ==> (MatchFilters(e, map[name := x]) <==> name in e.attrs && Accepts(x, e.attrs[name]))
    {
      assert "labels." + name in map["labels." + name := x] && name in map[name := x];
    }
    forall actual: string
      ensures Accepts(AnyOf(values), actual) <==> exists i :: 0 <= i < |values| && Lower(actual) == Lower(values[i])
    {
      assert forall i :: 0 <= i < |values| ==> values[i] in values;
    }
  }

  /** An event meets filters if and only if it meets each of them alone. */
  lemma EachFilterAlone(e: Event, filters: Filters)
    ensures MatchFilters(e, filters) <==> forall key :: key in filters ==> MatchFilters(e, map[key := filters[key]])
  {
    hide Accepts, FilteredValue;
    forall key | key in filters
      ensures MatchFilters(e, map[key := filters[key]]) <==>
                FilteredValue(e, key).Some? && Accepts(filters[key], FilteredValue(e, key).value)
    {
      assert key in map[key := filters[key]];
    }
  }

  /** A denied action is matched in any case, an allowed one, or none, is not. */
  lemma DenyOnly(e: Event)
    ensures "action" in e.attrs && e.attrs["action"] == "DENY" ==> MatchFilters(e, map["action" := One("deny")])
    ensures "action" in e.attrs && e.attrs["action"] == "allow" ==> !MatchFilters(e, map["action" := One("deny")])
    ensures "action" !in e.attrs ==> !MatchFilters(e, map["action" := One("deny")])
  {
    FilterReads(e, "action", "deny", []);
    assert "labels."[0] == 'l' && "action"[0] == 'a';
    assert forall i :: 0 <= i < 4 ==> LowerChar("DENY"[i]) == LowerChar("deny"[i]);
    assert Lower("DENY") == Lower("deny");
    assert |Lower("allow")| == 5 && |Lower("deny")| == 4;
  }

  predicate Blank(v: Option<string>) {
    v.None? || Strip(v.value) == ""
  }

  /** A value is blank if there is none, or nothing but blanks in it. */
  lemma BlankReads(v: Option<string>)
    ensures Blank(v) <==> v.None? || AllSpace(v.value)
  {
    if v.Some? {
      StripEmpty(v.value);
    }
  }

  /** How many of the first `n` events match the filters and have the value. */
  ghost function Hits(events: seq<Event>, filters: Filters, attr: string, value: Option<string>, n: nat): nat
    requires n <= |events|
  {
    if n == 0 then 0
    else Hits(events, filters, attr, value, n - 1) +
         (if MatchFilters(events[n - 1], filters) && Attr(events[n - 1], attr) == value then 1 else 0)
  }

  lemma {:induction false} HitsIffSome(events: seq<Event>, filters: Filters, attr: string, value: Option<string>, n: nat)
    requires n <= |events|
    ensures Hits(events, filters, attr, value, n) > 0 <==>
              exists i :: 0 <= i < n && MatchFilters(events[i], filters) && Attr(events[i], attr) == value
  {
    if n > 0 {
      HitsIffSome(events, filters, attr, value, n - 1);
    }
  }

  /** The positions, below `n`, of the matching events with the value. */
  ghost function HitPlaces(events: seq<Event>, filters: Filters, attr: string, value: Option<string>, n: nat): set<int>
    requires n <= |events|
  {
    set i | 0 <= i < n && MatchFilters(events[i], filters) && Attr(events[i], attr) == value
  }

  /** So there are as many hits as matching events with the value. */
  lemma {:induction false} HitsAreCounted(events: seq<Event>, filters: Filters, attr: string, value: Option<string>, n: nat)
    requires n <= |events|
    ensures Hits(events, filters, attr, value, n) == |HitPlaces(events, filters, attr, value, n)|
  {
    hide MatchFilters, Attr;
    if n > 0 {
      HitsAreCounted(events, filters, attr, value, n - 1);
      var before, now := HitPlaces(events, filters, attr, value, n - 1), HitPlaces(events, filters, attr, value, n);
      if MatchFilters(events[n - 1], filters) && Attr(events[n - 1], attr) == value {
        assert now == before + {n - 1};
      } else {
        assert now == before;
      }
    }
  }

  /** The counting loop: matching events with a value that is not blank, per value. */
  method CountMatching(events: seq<Event>, filters: Filters, attr: string) returns (counts: Counters.Counter)
    ensures Counters.Valid(counts)
    ensures forall k :: Counters.Get(counts, k) == if Strip(k) == "" then 0 else Hits(events, filters, attr, Some(k), |events|)
  {
    counts := [];
    for i := 0 to |events|
      invariant Counters.Valid(counts)
      invariant forall k :: Counters.Get(counts, k) == if Strip(k) == "" then 0 else Hits(events, filters, attr, Some(k), i)
    {
      if MatchFilters(events[i], filters) {
        var key := Attr(events[i], attr);
        if key.Some? && Strip(key.value) != "" {
          Counters.AddCountsOne(counts, key.value);
          counts := Counters.Add(counts, key.value);
        }
      }
    }
  }

  // ---------------------------------------------------------------- match rules

  /** What a sample keeps of an event: source address, host and user, empty if missing. */
  ghost predicate IsSampleOf(s: AlertStore.Sample, e: Event) {
    && s.key.None?
    && s.srcIp == (if "src_ip" in e.attrs then e.attrs["src_ip"] else "")
    && s.host == (if "host" in e.attrs then e.attrs["host"] else "")
    && s.user == (if "user" in e.attrs then e.attrs["user"] else "")
  }

  /** The events of `events`, in order, that match. */
  ghost function Matching(events: seq<Event>, filters: Filters, n: nat): seq<Event>
    requires n <= |events|
  {
    if n == 0 then []
    else Matching(events, filters, n - 1) + (if MatchFilters(events[n - 1], filters) then [events[n - 1]] else [])
  }

  /** The events found are those that match, in their order: `places` says where they were. */
  lemma {:induction false} MatchingIsFilter(events: seq<Event>, filters: Filters, n: nat) returns (places: seq<nat>)
    requires n <= |events|
    ensures var found := Matching(events, filters, n);
            && |places| == |found|
            && (forall k :: 0 <= k < |found| ==> places[k] < n && events[places[k]] == found[k] && MatchFilters(found[k], filters))
            && (forall k, l :: 0 <= k < l < |found| ==> places[k] < places[l])
            && (forall i :: 0 <= i < n && MatchFilters(events[i], filters) ==> i in places)
  {
    hide MatchFilters;
    places := [];
    if n > 0 {
      places := MatchingIsFilter(events, filters, n - 1);
      if MatchFilters(events[n - 1], filters) {
        places := places + [n - 1];
      }
    }
  }

  lemma SomeMatchOrNone(events: seq<Event>, filters: Filters)
    ensures Matching(events, filters, |events|) == [] <==> forall i :: 0 <= i < |events| ==> !MatchFilters(events[i], filters)
  {
    hide MatchFilters;
    var places := MatchingIsFilter(events, filters, |events|);
    if Matching(events, filters, |events|) != [] {
      assert MatchFilters(events[places[0]], filters);
    }
  }

  ghost predicate DistinctIds(events: seq<Event>) {
    forall i, j :: 0 <= i < j < |events| ==> events[i].id != events[j].id
  }

  lemma {:induction false} MatchingDistinct(events: seq<Event>, filters: Filters, n: nat)
    requires n <= |events| && DistinctIds(events)
    ensures DistinctIds(Matching(events, filters, n))
    ensures forall i :: 0 <= i < |Matching(events, filters, n)| ==> exists j :: 0 <= j < n && events[j] == Matching(events, filters, n)[i]
  {
    if n > 0 {
      MatchingDistinct(events, filters, n - 1);
    }
  }

  function TextOr(v: Option<string>): string {
    v.GetOr("")
  }

  /** The part of a sample event that evidence keeps. */
  function SampleOf(e: Event): AlertStore.Sample {
    AlertStore.Sample(None, TextOr(Attr(e, "src_ip")), TextOr(Attr(e, "host")), TextOr(Attr(e, "user")))
  }

  /** A match rule fires iff an event matches; its evidence counts the matching events, samples the first,
      lists the ids of the first ten, and satisfies what merging relies on. */
  method EvaluateMatchRule(events: seq<Event>, filters: Filters) returns (r: Option<AlertStore.Evidence>)
    requires DistinctIds(events)
    ensures r.None? <==> Matching(events, filters, |events|) == []
    ensures r.None? <==> forall i :: 0 <= i < |events| ==> !MatchFilters(events[i], filters)
    ensures r.Some? ==>
              var hits := Matching(events, filters, |events|);
              && AlertStore.EvidenceOk(r.value)
              && r.value.joinKey == r.value.groupBy == ""
              && r.value.count == |hits| && IsSampleOf(r.value.sample, hits[0])
              && forall x :: x in r.value.eventIds <==> x != 0 && exists k :: 0 <= k < |hits| && k < 10 && hits[k].id == x
  {
    hide MatchFilters;
    var hits: seq<Event> := [];
    for i := 0 to |events|
      invariant hits == Matching(events, filters, i)
    {
      if MatchFilters(events[i], filters) {
        hits := hits + [events[i]];
      }
    }
    SomeMatchOrNone(events, filters);
    if hits == [] {
      return None;
    }
    MatchingDistinct(events, filters, |events|);
    var ids: seq<int> := [];
    var few := if |hits| < 10 then |hits| else 10;
    for i := 0 to few
      invariant |ids| <= i
      invariant forall x :: x in ids <==> x != 0 && exists k :: 0 <= k < i && hits[k].id == x
      invariant AlertStore.NoDuplicates(ids)
    {
      if hits[i].id != 0 {
        assert hits[i].id !in ids;
        ids := ids + [hits[i].id];
      }
    }
    return Some(AlertStore.Evidence("", "", SampleOf(hits[0]), |hits|, 1, ids, "", None));
  }

  // ---------------------------------------------------------------- threshold rules

  datatype ThresholdHit = ThresholdHit(rows: seq<(string, nat)>, top: string, evidence: AlertStore.Evidence)

  function OrText(s: string, default: string): string {
    if s == "" then default else s
  }

  /** The threshold of a rule, 5 unless given. */
  function Enough(threshold: int): int {
    if threshold == 0 then 5 else threshold
  }

  /** The in-memory evaluation has a row for group `g` with count `c`. */
  ghost predicate MemoryRow(events: seq<Event>, filters: Filters, groupBy: string, threshold: int, g: Option<string>, c: nat) {
    c > 0 && !Blank(g) && c == Hits(events, filters, groupBy, g, |events|) && c >= threshold
  }

  method AtLeast(counts: Counters.Counter, threshold: int) returns (rows: seq<(string, nat)>)
    ensures forall p :: p in rows <==> p in counts && p.1 >= threshold
  {
    rows := [];
    for i := 0 to |counts|
      invariant forall p :: p in rows <==> p in counts[..i] && p.1 >= threshold
    {
      assert counts[..i + 1] == counts[..i] + [counts[i]];
      if counts[i].1 >= threshold {
        rows := rows + [counts[i]];
      }
    }
    assert counts[..|counts|] == counts;
  }

  method FirstLargest(rows: seq<(string, nat)>) returns (best: nat)
    requires rows != []
    ensures best < |rows|
    ensures forall j :: 0 <= j < |rows| ==> rows[j].1 <= rows[best].1
    ensures forall j :: 0 <= j < best ==> rows[j].1 < rows[best].1
  {
    best := 0;
    for i := 1 to |rows|
      invariant best < i
      invariant forall j :: 0 <= j < i ==> rows[j].1 <= rows[best].1
      invariant forall j :: 0 <= j < best ==> rows[j].1 < rows[best].1
    {
      if rows[i].1 > rows[best].1 {
        best := i;
      }
    }
  }

  lemma CountsAreMemoryRows(events: seq<Event>, filters: Filters, groupBy: string, threshold: int,
                            counts: Counters.Counter, rows: seq<(string, nat)>)
    requires Counters.Valid(counts)
    requires forall k :: Counters.Get(counts, k) == if Strip(k) == "" then 0 else Hits(events, filters, groupBy, Some(k), |events|)
    requires forall p :: p in rows <==> p in counts && p.1 >= threshold
    ensures forall p :: p in rows <==> MemoryRow(events, filters, groupBy, threshold, Some(p.0), p.1)
    ensures rows == [] <==> forall g, c :: !MemoryRow(events, filters, groupBy, threshold, g, c)
  {
    Counters.EntriesAreCounts(counts);
    forall p ensures p in rows <==> MemoryRow(events, filters, groupBy, threshold, Some(p.0), p.1) {
      assert p == (p.0, p.1);
    }
    forall g, c: nat | MemoryRow(events, filters, groupBy, threshold, g, c) ensures rows != [] {
      assert (g.value, c) in rows;
    }
    if rows != [] {
      assert rows[0] in rows;
    }
  }

  /** The in-memory evaluation of a threshold rule: its rows are the groups with enough matching events,
      each with its number of them, it fires iff there is one, and the winner has a largest count.  Its
      evidence is what merging relies on: an entity is a winning group. */
  method EvaluateThresholdRule(events: seq<Event>, filters: Filters, groupBy: string, threshold: int)
    returns (r: Option<ThresholdHit>)
    ensures var column, enough := if groupBy == "" then "user" else groupBy, if threshold == 0 then 5 else threshold;
            r.None? <==> forall g, c :: !MemoryRow(events, filters, column, enough, g, c)
    ensures r.Some? ==>
              var column, enough, hit := if groupBy == "" then "user" else groupBy, if threshold == 0 then 5 else threshold, r.value;
              && (forall p :: p in hit.rows <==> MemoryRow(events, filters, column, enough, Some(p.0), p.1))
              && (exists c: nat :: (hit.top, c) in hit.rows && c == hit.evidence.count)
              && (forall i :: 0 <= i < |hit.rows| ==> hit.rows[i].1 <= hit.evidence.count)
              && AlertStore.EvidenceOk(hit.evidence)
              && hit.evidence.sample.srcIp == (if column == "src_ip" then hit.top else "")
              && forall rule :: AlertStore.EntityKey(rule, hit.evidence) == "group:" + column + "=" + hit.top
  {
    var column, enough := OrText(groupBy, "user"), Enough(threshold);
    var counts := CountMatching(events, filters, column);
    var rows := AtLeast(counts, enough);
    CountsAreMemoryRows(events, filters, column, enough, counts, rows);
    if rows == [] {
      return None;
    }
    var best := FirstLargest(rows);
    assert rows[best] in rows && rows[best] == (rows[best].0, rows[best].1);
    var top := rows[best].0;
    var sample := AlertStore.Sample(Some(top), if column == "src_ip" then top else "", "", "");
    return Some(ThresholdHit(rows, top, AlertStore.Evidence("", column, sample, rows[best].1, 1, [], "", None)));
  }

  // ---- the same rule as a SQL query: WHERE, GROUP BY, HAVING COUNT(*) >= threshold

  /** The columns of the events table a filter can name. */
  const COLUMNS: set<string> := {"tenant_id", "source_type", "vendor", "device", "host", "user", "src_ip", "dst_ip", "action",
                                 "severity", "message", "raw", "ingest_channel", "event_id", "channel", "provider"}

  /** The WHERE clause built from the filters: label filters and unknown columns add no condition, and
      a comparison with NULL is not true. */
  predicate SqlMatches(e: Event, filters: Filters) {
    forall key :: key in filters && !IsLabelKey(key) && key in COLUMNS ==>
      Attr(e, key).Some? && Accepts(filters[key], Attr(e, key).value)
  }

  /** SQL asks a column what matching asks of it, and nothing of labels and of names that are no column; and
      it asks every filter on its own. */
  lemma SqlFilterReads(e: Event, filters: Filters, name: string, expected: Expected)
    ensures var columns := {"tenant_id", "source_type", "vendor", "device", "host", "user", "src_ip", "dst_ip", "action", "severity",
                            "message", "raw", "ingest_channel", "event_id", "channel", "provider"};
            && (!("labels." <= name) && name in columns ==>
                  (SqlMatches(e, map[name := expected]) <==> MatchFilters(e, map[name := expected])))
            && ("labels." <= name || name !in columns ==> SqlMatches(e, map[name := expected]))
    ensures SqlMatches(e, filters) <==> forall key :: key in filters ==> SqlMatches(e, map[key := filters[key]])
  {
    hide Accepts;
    assert name in map[name := expected];
    forall key | key in filters
      ensures SqlMatches(e, map[key := filters[key]]) <==>
                (!IsLabelKey(key) && key in COLUMNS ==> Attr(e, key).Some? && Accepts(filters[key], Attr(e, key).value))
    {
      assert key in map[key := filters[key]];
    }
  }

  /** COUNT(*) of a group; NULL is a group of its own. */
  ghost function GroupSize(events: seq<Event>, filters: Filters, groupBy: string, g: Option<string>, n: nat): nat
    requires n <= |events|
  {
    if n == 0 then 0
    else GroupSize(events, filters, groupBy, g, n - 1) +
         (if SqlMatches(events[n - 1], filters) && Attr(events[n - 1], groupBy) == g then 1 else 0)
  }

  ghost function GroupPlaces(events: seq<Event>, filters: Filters, groupBy: string, g: Option<string>, n: nat): set<int>
    requires n <= |events|
  {
    set i | 0 <= i < n && SqlMatches(events[i], filters) && Attr(events[i], groupBy) == g
  }

  /** It is the number of events selected into the group. */
  lemma {:induction false} GroupIsCounted(events: seq<Event>, filters: Filters, groupBy: string, g: Option<string>, n: nat)
    requires n <= |events|
    ensures GroupSize(events, filters, groupBy, g, n) == |GroupPlaces(events, filters, groupBy, g, n)|
  {
    hide SqlMatches, Attr;
    if n > 0 {
      GroupIsCounted(events, filters, groupBy, g, n - 1);
      var before, now := GroupPlaces(events, filters, groupBy, g, n - 1), GroupPlaces(events, filters, groupBy, g, n);
      if SqlMatches(events[n - 1], filters) && Attr(events[n - 1], groupBy) == g {
        assert now == before + {n - 1};
      } else {
        assert now == before;
      }
    }
  }

  /** The query has a row for group `g` with count `c`; grouping by what is no column finds nothing. */
  ghost predicate SqlRow(events: seq<Event>, filters: Filters, groupBy: string, threshold: int, g: Option<string>, c: nat) {
    groupBy in COLUMNS && c > 0 && c == GroupSize(events, filters, groupBy, g, |events|) && c >= threshold
  }

  lemma {:induction false} GroupSizeIffSome(events: seq<Event>, filters: Filters, groupBy: string, g: Option<string>, n: nat)
    requires n <= |events|
    ensures GroupSize(events, filters, groupBy, g, n) > 0 <==>
              exists i :: 0 <= i < n && SqlMatches(events[i], filters) && Attr(events[i], groupBy) == g
  {
    if n > 0 {
      GroupSizeIffSome(events, filters, groupBy, g, n - 1);
    }
  }

  lemma MatchesInSql(e: Event, filters: Filters)
    ensures MatchFilters(e, filters) ==> SqlMatches(e, filters)
  {
  }

  /** SQL selects at least the events that match, and counts a group alike iff it selects no other of its events. */
  lemma {:induction false} HitsAgainstGroup(events: seq<Event>, filters: Filters, groupBy: string, g: Option<string>, n: nat)
    requires n <= |events|
    ensures Hits(events, filters, groupBy, g, n) <= GroupSize(events, filters, groupBy, g, n)
    ensures Hits(events, filters, groupBy, g, n) == GroupSize(events, filters, groupBy, g, n) <==>
              forall i :: 0 <= i < n && SqlMatches(events[i], filters) && Attr(events[i], groupBy) == g ==> MatchFilters(events[i], filters)
  {
    hide MatchFilters, SqlMatches, Attr;
    if n > 0 {
      HitsAgainstGroup(events, filters, groupBy, g, n - 1);
      MatchesInSql(events[n - 1], filters);
    }
  }

  ghost predicate SameRows(events: seq<Event>, filters: Filters, groupBy: string, threshold: int) {
    forall g, c :: MemoryRow(events, filters, groupBy, threshold, g, c) <==> SqlRow(events, filters, groupBy, threshold, g, c)
  }

  /** An event the two evaluations treat alike.  Grouping by a column: if SQL selects it into a group large
      enough for a row, its group is not blank and it meets the filters SQL ignores.  Grouping by anything
      else, where SQL finds nothing: it does not match into a non-blank group large enough for a row. */
  ghost predicate Undisputed(events: seq<Event>, filters: Filters, groupBy: string, threshold: int, e: Event) {
    var g := Attr(e, groupBy);
    if groupBy in COLUMNS then
      SqlMatches(e, filters) && GroupSize(events, filters, groupBy, g, |events|) >= threshold ==> !Blank(g) && MatchFilters(e, filters)
    else
      MatchFilters(e, filters) && !Blank(g) ==> Hits(events, filters, groupBy, g, |events|) < threshold
  }

  lemma AgreedIsUndisputed(events: seq<Event>, filters: Filters, groupBy: string, threshold: int, i: nat)
    requires SameRows(events, filters, groupBy, threshold) && i < |events|
    ensures Undisputed(events, filters, groupBy, threshold, events[i])
  {
    hide MatchFilters, SqlMatches;
    var g := Attr(events[i], groupBy);
    var c, d := GroupSize(events, filters, groupBy, g, |events|), Hits(events, filters, groupBy, g, |events|);
    GroupSizeIffSome(events, filters, groupBy, g, |events|);
    HitsIffSome(events, filters, groupBy, g, |events|);
    HitsAgainstGroup(events, filters, groupBy, g, |events|);
    assert MemoryRow(events, filters, groupBy, threshold, g, c) <==> SqlRow(events, filters, groupBy, threshold, g, c);
    assert MemoryRow(events, filters, groupBy, threshold, g, d) <==> SqlRow(events, filters, groupBy, threshold, g, d);
  }

  lemma UndisputedAgree(events: seq<Event>, filters: Filters, groupBy: string, threshold: int, g: Option<string>, c: nat)
    requires forall i :: 0 <= i < |events| ==> Undisputed(events, filters, groupBy, threshold, events[i])
    ensures MemoryRow(events, filters, groupBy, threshold, g, c) == SqlRow(events, filters, groupBy, threshold, g, c)
  {
    hide MatchFilters, SqlMatches;
    var size := GroupSize(events, filters, groupBy, g, |events|);
    HitsAgainstGroup(events, filters, groupBy, g, |events|);
    if groupBy !in COLUMNS {
      HitsIffSome(events, filters, groupBy, g, |events|);
    } else if size > 0 && size >= threshold {
      GroupSizeIffSome(events, filters, groupBy, g, |events|);
      assert forall j :: 0 <= j < |events| && SqlMatches(events[j], filters) && Attr(events[j], groupBy) == g ==>
          Undisputed(events, filters, groupBy, threshold, events[j]);
    }
  }

  /** The two implementations of a threshold rule find the same groups with the same counts if and only if
      no event is disputed: null and blank groups, `labels.` filters, filters on no column and grouping by no
      column are all there is between them. */
  lemma ThresholdImplementationsAgree(events: seq<Event>, filters: Filters, groupBy: string, threshold: int)
    ensures SameRows(events, filters, groupBy, threshold) <==>
              forall i :: 0 <= i < |events| ==> Undisputed(events, filters, groupBy, threshold, events[i])
  {
    hide MatchFilters, SqlMatches, MemoryRow, SqlRow, Undisputed;
    if SameRows(events, filters, groupBy, threshold) {
      forall i | 0 <= i < |events| ensures Undisputed(events, filters, groupBy, threshold, events[i]) {
        AgreedIsUndisputed(events, filters, groupBy, threshold, i);
      }
    } else if forall i :: 0 <= i < |events| ==> Undisputed(events, filters, groupBy, threshold, events[i]) {
      forall g, c: nat ensures MemoryRow(events, filters, groupBy, threshold, g, c) == SqlRow(events, filters, groupBy, threshold, g, c) {
        UndisputedAgree(events, filters, groupBy, threshold, g, c);
      }
    }
  }

  /** The filters name columns only. */
  ghost predicate ColumnFilters(filters: Filters) {
    forall key :: key in filters ==> !IsLabelKey(key) && key in COLUMNS
  }

  /** The expected values are not blank, and there are some, as validation leaves them. */
  ghost predicate Meaningful(filters: Filters) {
    forall key :: key in filters ==>
      match filters[key]
      case One(v) => Strip(v) != ""
      case AnyOf(vs) => vs != [] && forall i :: 0 <= i < |vs| ==> Strip(vs[i]) != ""
  }

  ghost predicate AgreeOnGroups(events: seq<Event>, filters: Filters, groupBy: string, threshold: int) {
    forall g, c :: !Blank(g) ==>
      (MemoryRow(events, filters, groupBy, threshold, g, c) <==> SqlRow(events, filters, groupBy, threshold, g, c))
  }

  /** A value that a filter on the column accepts. */
  function Accepted(filters: Filters, column: string): string {
    if column !in filters then "x"
    else match filters[column]
      case One(v) => v
      case AnyOf(vs) => if vs == [] then "x" else vs[0]
  }

  /** An event with an accepted value in every column, and no label. */
  function Unlabelled(filters: Filters): Event {
    Event(1, map c | c in COLUMNS :: Accepted(filters, c), map[])
  }

  lemma UnlabelledSelected(filters: Filters)
    requires Meaningful(filters)
    ensures SqlMatches(Unlabelled(filters), filters)
    ensures MatchFilters(Unlabelled(filters), filters) <==> ColumnFilters(filters)
    ensures forall c :: c in COLUMNS ==> !Blank(Attr(Unlabelled(filters), c))
  {
    hide Strip;
    var e := Unlabelled(filters);
    assert Strip("x") != "" by { StripIsStripped("x"); }
    forall key | key in filters && key in COLUMNS ensures Accepts(filters[key], Accepted(filters, key)) {
      match filters[key]
      case One(v) =>
      case AnyOf(vs) => assert vs[0] in vs;
    }
  }

  lemma ColumnsSelectMatches(events: seq<Event>, filters: Filters)
    requires ColumnFilters(filters)
    ensures forall i :: 0 <= i < |events| && SqlMatches(events[i], filters) ==> MatchFilters(events[i], filters)
  {
    hide Accepts;
  }

  lemma OneEventDisputed(e: Event, filters: Filters)
    requires SqlMatches(e, filters) && !MatchFilters(e, filters) && !Blank(Attr(e, "user"))
    ensures !AgreeOnGroups([e], filters, "user", 1)
  {
    hide MatchFilters, SqlMatches, Blank;
    var g := Attr(e, "user");
    assert Hits([e], filters, "user", g, 0) == 0 == GroupSize([e], filters, "user", g, 0);
    assert SqlRow([e], filters, "user", 1, g, 1) && !MemoryRow([e], filters, "user", 1, g, 1);
  }

  /** On all non-blank groups of every list of events, whatever the column and the threshold, the two
      evaluations agree if and only if the filters name columns only. */
  lemma AgreeEverywherePrecisely(filters: Filters)
    requires Meaningful(filters)
    ensures ColumnFilters(filters) <==>
              forall events, groupBy, threshold :: groupBy in COLUMNS ==> AgreeOnGroups(events, filters, groupBy, threshold)
  {
    hide MatchFilters, SqlMatches, Blank, Unlabelled;
    if ColumnFilters(filters) {
      forall events, groupBy, threshold | groupBy in COLUMNS ensures AgreeOnGroups(events, filters, groupBy, threshold) {
        forall g, c: nat | !Blank(g)
          ensures MemoryRow(events, filters, groupBy, threshold, g, c) <==> SqlRow(events, filters, groupBy, threshold, g, c)
        {
          ColumnsSelectMatches(events, filters);
          HitsAgainstGroup(events, filters, groupBy, g, |events|);
        }
      }
    } else {
      UnlabelledSelected(filters);
      OneEventDisputed(Unlabelled(filters), filters);
    }
  }

  /** So a label filter makes them disagree: SQL ignores it. */
  lemma LabelFilterIgnoredBySql()
    ensures exists events, filters: Filters :: !AgreeOnGroups(events, filters, "user", 1)
  {
    var e := Event(1, map["user" := "bob"], map[]);
    var filters: Filters := map["labels.hash" := One("abc")];
    assert "labels.hash"[..|LABELS|] == LABELS;
    assert IsLabelKey("labels.hash") && FilteredValue(e, "labels.hash") == None;
    assert "labels.hash" in filters && !MatchFilters(e, filters) && SqlMatches(e, filters);
    StripIsStripped("bob");
    OneEventDisputed(e, filters);
  }

  // ---------------------------------------------------------------- correlation rules

  datatype RuleStep =
    | MatchStep(filters: Filters, minCount: int)
    | EnrichStep(providers: seq<string>, verdicts: seq<string>, iocType: string)

  /** The join values of the events. */
  function JoinValues(events: seq<Event>, joinOn: string): set<string> {
    set e | e in events && Attr(e, joinOn).Some? && Attr(e, joinOn).value != "" :: Attr(e, joinOn).value
  }

  /** They are the values that are there and not empty. */
  lemma JoinValuesRead(events: seq<Event>, joinOn: string, k: string)
    ensures k in JoinValues(events, joinOn) <==>
              k != "" && exists i :: 0 <= i < |events| && joinOn in events[i].attrs && events[i].attrs[joinOn] == k
  {
    if k in JoinValues(events, joinOn) {
      var e :| e in events && Attr(e, joinOn) == Some(k);
      var i :| 0 <= i < |events| && events[i] == e;
      assert joinOn in events[i].attrs;
    }
    forall i | 0 <= i < |events| && joinOn in events[i].attrs && events[i].attrs[joinOn] == k && k != ""
      ensures k in JoinValues(events, joinOn)
    {
      assert events[i] in events && Attr(events[i], joinOn).value == k;
    }
  }

  function OrDefault(vs: seq<string>, default: seq<string>): seq<string> {
    if vs == [] then default else vs
  }

  const DEFAULT_PROVIDERS: seq<string> := ["vt"]
  const DEFAULT_VERDICTS: seq<string> := ["malicious", "suspicious"]

  /** The key satisfies the step, whatever the other steps are: enough matching events (at least one),
      or some provider's verdict in force over the cache is wanted. */
  ghost predicate Satisfies(k: string, step: RuleStep, events: seq<Event>, joinOn: string, cache: seq<IocVerdict>, en: Enrichment) {
    match step
    case MatchStep(filters, minCount) =>
      && Strip(k) != ""
      && Hits(events, filters, joinOn, Some(k), |events|) >= 1
      && Hits(events, filters, joinOn, Some(k), |events|) >= minCount
    case EnrichStep(providers, verdicts, iocType) =>
      Wanted(cache, en, if providers == [] then ["vt"] else providers,
             if verdicts == [] then ["malicious", "suspicious"] else verdicts, if iocType == "" then "ip" else iocType, k)
  }

  /** The join values that satisfy each of the first `n` steps taken on its own. */
  ghost function SharedBy(steps: seq<RuleStep>, n: nat, events: seq<Event>, joinOn: string, cache: seq<IocVerdict>, en: Enrichment)
    : set<string>
    requires n <= |steps|
  {
    set k | k in JoinValues(events, joinOn) && forall i :: 0 <= i < n ==> Satisfies(k, steps[i], events, joinOn, cache, en)
  }

  ghost function Shared(steps: seq<RuleStep>, events: seq<Event>, joinOn: string, cache: seq<IocVerdict>, en: Enrichment): set<string> {
    SharedBy(steps, |steps|, events, joinOn, cache, en)
  }

  /** The count a step contributes to the choice of the winning key. */
  ghost function StepCount(step: RuleStep, k: string, events: seq<Event>, joinOn: string): nat {
    match step
    case MatchStep(filters, _) => Hits(events, filters, joinOn, Some(k), |events|)
    case EnrichStep(_, _, _) => 1
  }

  datatype Correlated = Correlated(shared: set<string>, top: string, counts: seq<nat>, evidence: AlertStore.Evidence)

  lemma HitsAreJoinValues(events: seq<Event>, filters: Filters, joinOn: string, k: string)
    requires Strip(k) != "" && Hits(events, filters, joinOn, Some(k), |events|) > 0
    ensures k in JoinValues(events, joinOn)
  {
    HitsIffSome(events, filters, joinOn, Some(k), |events|);
  }

  /** The keys of a match step, found by counting. */
  method MatchStepKeys(events: seq<Event>, step: RuleStep, joinOn: string, ghost cache: seq<IocVerdict>, ghost en: Enrichment)
    returns (kept: set<string>, counts: Counters.Counter)
    requires step.MatchStep?
    ensures kept == set k | k in JoinValues(events, joinOn) && Satisfies(k, step, events, joinOn, cache, en)
    ensures forall k :: k in kept ==> Counters.Get(counts, k) == StepCount(step, k, events, joinOn)
  {
    counts := CountMatching(events, step.filters, joinOn);
    var min := if step.minCount == 0 then 1 else step.minCount;
    kept := set i | 0 <= i < |counts| && counts[i].1 >= min :: counts[i].0;
    Counters.EntriesAreCounts(counts);
    forall k ensures k in kept <==> k in JoinValues(events, joinOn) && Satisfies(k, step, events, joinOn, cache, en) {
      if Strip(k) != "" && Hits(events, step.filters, joinOn, Some(k), |events|) > 0 {
        HitsAreJoinValues(events, step.filters, joinOn, k);
        assert (k, Counters.Get(counts, k)) in counts;
      }
    }
  }

  /** One step over the keys still in play: the keys that satisfy it, with their counts. */
  method EvaluateStep(cache: VerdictCache, events: seq<Event>, step: RuleStep, joinOn: string, en: Enrichment,
                      dryRun: bool, candidates: Option<set<string>>)
    returns (matched: set<string>, counted: map<string, nat>)
    requires candidates.Some? ==> candidates.value != {} && candidates.value <= JoinValues(events, joinOn)
    modifies cache
    ensures SameVerdicts(old(cache.rows), cache.rows, en)
    ensures var inPlay := candidates.GetOr(JoinValues(events, joinOn));
            inPlay * matched == set k | k in inPlay && Satisfies(k, step, events, joinOn, old(cache.rows), en)
    ensures matched <= JoinValues(events, joinOn)
    ensures forall k :: k in matched ==> k in counted && counted[k] == StepCount(step, k, events, joinOn)
  {
    if step.EnrichStep? {
      var pool: set<string>;
      if dryRun {
        pool := if candidates.Some? && candidates.value != {} then candidates.value else JoinValues(events, joinOn);
      } else if candidates.None? {
        pool := JoinValues(events, joinOn);
      } else {
        pool := candidates.value;
      }
      matched := cache.KeysMatchingEnrich(
        pool, OrDefault(step.providers, DEFAULT_PROVIDERS), OrDefault(step.verdicts, DEFAULT_VERDICTS), OrText(step.iocType, "ip"), en);
      counted := map k | k in matched :: 1;
    } else {
      var counts;
      matched, counts := MatchStepKeys(events, step, joinOn, cache.rows, en);
      counted := map k | k in matched :: Counters.Get(counts, k);
    }
  }

  /** A step is satisfied alike over caches with the same verdicts in force. */
  lemma SatisfiesAlike(step: RuleStep, events: seq<Event>, joinOn: string, a: seq<IocVerdict>, b: seq<IocVerdict>, en: Enrichment)
    requires SameVerdicts(a, b, en)
    ensures forall k :: Satisfies(k, step, events, joinOn, a, en) == Satisfies(k, step, events, joinOn, b, en)
  {
    hide VerdictOn, WantedVerdicts, Hits;
  }

  /** A key with a largest count. */
  method Largest(keys: set<string>, counts: map<string, nat>) returns (top: string)
    requires keys != {} && keys <= counts.Keys
    ensures top in keys && forall k :: k in keys ==> counts[k] <= counts[top]
  {
    top :| top in keys;
    var todo := keys;
    while todo != {}
      invariant todo <= keys && top in keys
      invariant forall k :: k in keys - todo ==> counts[k] <= counts[top]
      decreases todo
    {
      var k :| k in todo;
      if counts[k] > counts[top] {
        top := k;
      }
      todo := todo - {k};
    }
  }

  ghost predicate IsFirstWith(events: seq<Event>, joinOn: string, top: string, i: nat) {
    i < |events| && Attr(events[i], joinOn) == Some(top) && forall j :: 0 <= j < i ==> Attr(events[j], joinOn) != Some(top)
  }

  /** The first event with the join value. */
  method FirstWith(events: seq<Event>, joinOn: string, top: string) returns (i: nat)
    requires top in JoinValues(events, joinOn)
    ensures IsFirstWith(events, joinOn, top, i)
  {
    i := 0;
    while Attr(events[i], joinOn) != Some(top)
      invariant i < |events| && forall j :: 0 <= j < i ==> Attr(events[j], joinOn) != Some(top)
      invariant exists j :: i <= j < |events| && Attr(events[j], joinOn) == Some(top)
      decreases |events| - i
    {
      i := i + 1;
    }
  }

  ghost predicate CountsOf(counts: map<string, nat>, keys: set<string>, step: RuleStep, events: seq<Event>, joinOn: string) {
    forall k :: k in keys ==> k in counts && counts[k] == StepCount(step, k, events, joinOn)
  }

  lemma SameVerdictsChain(a: seq<IocVerdict>, b: seq<IocVerdict>, c: seq<IocVerdict>, en: Enrichment)
    ensures SameVerdicts(a, a, en)
    ensures SameVerdicts(a, b, en) && SameVerdicts(b, c, en) ==> SameVerdicts(a, c, en)
  {
    hide VerdictOn;
  }

  lemma NarrowByStep(steps: seq<RuleStep>, i: nat, events: seq<Event>, joinOn: string, cache: seq<IocVerdict>, en: Enrichment,
                     kept: set<string>)
    requires i < |steps|
    requires kept == set k | k in SharedBy(steps, i, events, joinOn, cache, en) && Satisfies(k, steps[i], events, joinOn, cache, en)
    ensures kept == SharedBy(steps, i + 1, events, joinOn, cache, en)
  {
  }

  lemma SharedNarrows(steps: seq<RuleStep>, n: nat, events: seq<Event>, joinOn: string, cache: seq<IocVerdict>, en: Enrichment)
    requires n <= |steps|
    ensures Shared(steps, events, joinOn, cache, en) <= SharedBy(steps, n, events, joinOn, cache, en)
  {
  }

  /** `evaluate_correlation_rule`, on the events of its window: with pools narrowed to the keys still in
      play, an early exit, and a cache that fills on the way, it finds exactly the keys that satisfy every
      step on its own over the cache as it was, and picks one with the largest count in the first step.
      Its evidence is what merging relies on, with the first event of the winning key as its sample. */
  method EvaluateCorrelationRule(cache: VerdictCache, events: seq<Event>, steps: seq<RuleStep>, join: string,
                                 en: Enrichment, dryRun: bool)
    returns (r: Option<Correlated>)
    modifies cache
    ensures SameVerdicts(old(cache.rows), cache.rows, en)
    ensures r.None? <==> |steps| < 2 || Shared(steps, events, if join == "" then "src_ip" else join, old(cache.rows), en) == {}
    ensures r.Some? ==>
              var joinOn, top, ev := if join == "" then "src_ip" else join, r.value.top, r.value.evidence;
              && r.value.shared == Shared(steps, events, joinOn, old(cache.rows), en)
              && top in r.value.shared
              && (forall k :: k in r.value.shared ==> StepCount(steps[0], k, events, joinOn) <= StepCount(steps[0], top, events, joinOn))
              && |r.value.counts| == |steps|
              && (forall i :: 0 <= i < |steps| ==> r.value.counts[i] == StepCount(steps[i], top, events, joinOn))
              && AlertStore.EvidenceOk(ev)
              && (forall rule :: AlertStore.EntityKey(rule, ev) == "join:" + top)
              && exists i: nat :: IsFirstWith(events, joinOn, top, i) && IsSampleOf(ev.sample, events[i])
  {
    hide Satisfies, StepCount, Hits, VerdictOn, SameVerdicts;
    SameVerdictsChain(cache.rows, cache.rows, cache.rows, en);
    var joinOn := OrText(join, "src_ip");
    if |steps| < 2 {
      return None;
    }
    if events == [] {
      assert JoinValues(events, joinOn) == {};
      return None;
    }
    var stepCounts: seq<map<string, nat>> := [];
    var candidates: Option<set<string>> := None;
    ghost var start := cache.rows;
    for i := 0 to |steps|
      invariant SameVerdicts(start, cache.rows, en)
      invariant |stepCounts| == i
      invariant candidates.None? <==> i == 0
      invariant i > 0 ==> candidates.value == SharedBy(steps, i, events, joinOn, start, en) != {}
      invariant forall j :: 0 <= j < i ==> CountsOf(stepCounts[j], candidates.value, steps[j], events, joinOn)
    {
      ghost var rows, inPlay := cache.rows, candidates.GetOr(JoinValues(events, joinOn));
      assert inPlay == SharedBy(steps, i, events, joinOn, start, en);
      var matched, counted := EvaluateStep(cache, events, steps[i], joinOn, en, dryRun, candidates);
      SatisfiesAlike(steps[i], events, joinOn, start, rows, en);
      SameVerdictsChain(start, rows, cache.rows, en);
      stepCounts := stepCounts + [counted];
      candidates := Some(if candidates.None? then matched else candidates.value * matched);
      assert candidates.value == inPlay * matched;
      NarrowByStep(steps, i, events, joinOn, start, en, inPlay * matched);
      if candidates.value == {} {
        SharedNarrows(steps, i + 1, events, joinOn, start, en);
        return None;
      }
    }
    var shared := candidates.value;
    var top := Largest(shared, stepCounts[0]);
    var counts: seq<nat> := [];
    for i := 0 to |steps|
      invariant |counts| == i
      invariant forall j :: 0 <= j < i ==> counts[j] == StepCount(steps[j], top, events, joinOn)
    {
      counts := counts + [stepCounts[i][top]];
    }
    var s := FirstWith(events, joinOn, top);
    return Some(Correlated(shared, top, counts, AlertStore.Evidence(top, "", SampleOf(events[s]), 0, 1, [], "", None)));
  }

  lemma SatisfiesEvery(k: string, steps: seq<RuleStep>, events: seq<Event>, joinOn: string, cache: seq<IocVerdict>, en: Enrichment)
    ensures k in Shared(steps, events, joinOn, cache, en) <==>
              k in JoinValues(events, joinOn) && forall s :: s in steps ==> Satisfies(k, s, events, joinOn, cache, en)
  {
  }

  /** Any order of the steps gives the same keys, over any cache. */
  lemma StepOrderIrrelevant(steps: seq<RuleStep>, permuted: seq<RuleStep>, events: seq<Event>, joinOn: string,
                            cache: seq<IocVerdict>, en: Enrichment)
    requires multiset(steps) == multiset(permuted)
    ensures Shared(steps, events, joinOn, cache, en) == Shared(permuted, events, joinOn, cache, en)
  {
    assert forall s :: s in steps <==> s in permuted by {
      assert forall s :: s in steps <==> s in multiset(steps);
    }
    forall k ensures k in Shared(steps, events, joinOn, cache, en) <==> k in Shared(permuted, events, joinOn, cache, en) {
      SatisfiesEvery(k, steps, events, joinOn, cache, en);
      SatisfiesEvery(k, permuted, events, joinOn, cache, en);
    }
  }
}
