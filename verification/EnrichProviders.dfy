/**
 IOC enrichment with a TTL cache of verdicts (services/api/enrich_providers.py).

 The providers are an oracle: what a fetch gives, or that it fails.  Times are microseconds; a call
 reads the clock once to judge the cached verdict and once more to stamp a fetched one.
 */
module EnrichProviders {
  import opened Wrappers
  import opened Histories
  import opened Text

  const HOUR: int := 3_600_000_000
  const ALLOWED_IOC_TYPES: set<string> := {"ip", "domain", "url"}
  const ALLOWED_PROVIDERS: set<string> := {"vt", "abuseipdb", "otx"}

  datatype CacheKey = CacheKey(tenant: string, provider: string, iocType: string, value: string)

  datatype IocVerdict = IocVerdict(key: CacheKey, verdict: string, malicious: int, fetchedAt: int)

  datatype FetchResult = Failed | Fetched(verdict: string, malicious: int)

  datatype Request = Request(
    tenant: string, provider: string, iocType: string, value: string,
    apiKeys: map<string, string>, fetch: bool, ttlHours: int, checkedAt: int, storedAt: int)

  /** What `enrich_ioc` answers: invalid input, no API key, a cached verdict, a miss when fetching is
      off, a failed fetch, or a fetched verdict. */
  datatype Answer = Invalid | NoApiKey | Hit(row: IocVerdict) | Miss | FetchFailed | Fresh(row: IocVerdict) {
    predicate Available() {
      !Invalid? && !NoApiKey?
    }

    function Verdict(): string {
      match this
      case Hit(row) => row.verdict
      case Fresh(row) => row.verdict
      case FetchFailed => "unknown"
      case _ => ""
    }
  }

  function Ttl(hours: int): int {
    (if hours < 1 then 1 else hours) * HOUR
  }

  function KeyOf(q: Request): CacheKey {
    CacheKey(if q.tenant == "" then "lab" else q.tenant, Lower(Strip(q.provider)), Lower(Strip(q.iocType)), Strip(q.value))
  }

  predicate ValidKey(k: CacheKey) {
    k.provider in ALLOWED_PROVIDERS && k.iocType in ALLOWED_IOC_TYPES && k.value != ""
  }

  predicate HasApiKey(apiKeys: map<string, string>, provider: string) {
    provider in apiKeys && Strip(apiKeys[provider]) != ""
  }

  /** The latest of the first `n` rows with the key. */
  function Latest(rows: seq<IocVerdict>, key: CacheKey, n: nat): (r: Option<IocVerdict>)
    requires n <= |rows|
    ensures r.None? <==> forall i :: 0 <= i < n ==> rows[i].key != key
    ensures r.Some? ==> r.value.key == key && r.value in rows[..n]
    ensures r.Some? ==> forall i :: 0 <= i < n && rows[i].key == key ==> rows[i].fetchedAt <= r.value.fetchedAt
  {
    if n == 0 then None
    else
      var rest := Latest(rows, key, n - 1);
      assert rows[..n] == rows[..n - 1] + [rows[n - 1]];
      if rows[n - 1].key == key && (rest.None? || rest.value.fetchedAt <= rows[n - 1].fetchedAt) then Some(rows[n - 1])
      else rest
  }

  /** `_cache_get`: the latest verdict for the key, unless it is older than the TTL. */
  function CacheGet(rows: seq<IocVerdict>, key: CacheKey, ttl: int, now: int): Option<IocVerdict> {
    var row := Latest(rows, key, |rows|);
    if row.None? || now - row.value.fetchedAt > ttl then None else row
  }

  function Enrich(rows: seq<IocVerdict>, q: Request, outcome: FetchResult): (seq<IocVerdict>, Answer) {
    var key := KeyOf(q);
    if !ValidKey(key) then (rows, Invalid)
    else if !HasApiKey(q.apiKeys, key.provider) then (rows, NoApiKey)
    else
      var cached := CacheGet(rows, key, Ttl(q.ttlHours), q.checkedAt);
      if cached.Some? then (rows, Hit(cached.value))
      else if !q.fetch then (rows, Miss)
      else match outcome
        case Failed => (rows, FetchFailed)
        case Fetched(verdict, malicious) =>
          var row := IocVerdict(key, verdict, malicious, q.storedAt);
          (rows + [row], Fresh(row))
  }

  /** The tenant a call is of; a call without one is a call of `lab`. */
  ghost function TenantOf(q: Request): string {
    if q.tenant == "" then "lab" else q.tenant
  }

  /** The calls are about the same: same tenant, same provider and type but for case and blanks around them,
      same value but for blanks around it. */
  ghost predicate SameAsked(p: Request, q: Request) {
    && TenantOf(p) == TenantOf(q)
    && Lower(Strip(p.provider)) == Lower(Strip(q.provider)) && Lower(Strip(p.iocType)) == Lower(Strip(q.iocType))
    && Strip(p.value) == Strip(q.value)
  }

  /** Calls share a cache entry if and only if they are about the same; spelled as in the entry, they still are. */
  lemma SameKey(p: Request, q: Request)
    ensures KeyOf(p) == KeyOf(q) <==> SameAsked(p, q)
    ensures var k := KeyOf(q);
            SameAsked(q, q.(tenant := k.tenant, provider := k.provider, iocType := k.iocType, value := k.value))
  {
    hide Lower, Strip, Stripped;
    StripIsStripped(q.provider);
    StripIsStripped(q.iocType);
    StripIsStripped(q.value);
    LowerStrippedStays(Strip(q.provider));
    LowerStrippedStays(Strip(q.iocType));
    StripIsStripped(Lower(Strip(q.provider)));
    StripIsStripped(Lower(Strip(q.iocType)));
    StripIsStripped(Strip(q.value));
  }

  /** Which calls are refused, and for what; a failed fetch answers `unknown`, any other with a verdict the row's. */
  lemma Refusals(rows: seq<IocVerdict>, q: Request, outcome: FetchResult)
    ensures var provider, iocType := Lower(Strip(q.provider)), Lower(Strip(q.iocType));
            var good := && (provider == "vt" || provider == "abuseipdb" || provider == "otx")
                        && (iocType == "ip" || iocType == "domain" || iocType == "url") && Strip(q.value) != "";
            var (after, answer) := Enrich(rows, q, outcome);
            && (answer.Invalid? <==> !good)
            && (answer.NoApiKey? <==> good && (provider in q.apiKeys ==> Strip(q.apiKeys[provider]) == ""))
            && (answer.Miss? ==> !q.fetch)
            && (answer.FetchFailed? ==> answer.Verdict() == "unknown" && outcome.Failed?)
            && (!answer.Fresh? ==> after == rows)
  {
    hide CacheGet, Lower, Strip;
  }

  // ---------------------------------------------------------------- runs of the cache

  datatype Call = Call(request: Request, outcome: FetchResult)

  ghost function RowsAfter(run: History<Call>): seq<IocVerdict> {
    match run
    case Start => []
    case Then(b, c) => Enrich(RowsAfter(b), c.request, c.outcome).0
  }

  ghost function LastAnswer(run: History<Call>): Answer
    requires run.Then?
  {
    Enrich(RowsAfter(run.before), run.last.request, run.last.outcome).1
  }

  /** One call after the other, on a clock that does not go back, with one TTL. */
  ghost predicate Sequential(run: History<Call>, ttlHours: int) {
    run.Then? ==>
      && Sequential(run.before, ttlHours)
      && run.last.request.ttlHours == ttlHours
      && run.last.request.checkedAt <= run.last.request.storedAt
      && (run.before.Then? ==> run.before.last.request.storedAt <= run.last.request.checkedAt)
  }

  ghost predicate SpacedOut(rows: seq<IocVerdict>, ttl: int) {
    forall i, j :: 0 <= i < j < |rows| && rows[i].key == rows[j].key ==> rows[j].fetchedAt - rows[i].fetchedAt > ttl
  }

  /** A call stores a row exactly when it answers with a fresh one. */
  lemma EnrichStores(rows: seq<IocVerdict>, q: Request, outcome: FetchResult)
    ensures var (after, answer) := Enrich(rows, q, outcome);
            if answer.Fresh? then
              after == rows + [answer.row] && answer.row.key == KeyOf(q) && answer.row.fetchedAt == q.storedAt
            else after == rows
  {
  }

  lemma {:induction false} NoneStoredLater(run: History<Call>, ttlHours: int)
    requires Sequential(run, ttlHours)
    ensures run.Start? ==> RowsAfter(run) == []
    ensures run.Then? ==> forall i :: 0 <= i < |RowsAfter(run)| ==> RowsAfter(run)[i].fetchedAt <= run.last.request.storedAt
  {
    hide Enrich, KeyOf;
    if run.Then? {
      NoneStoredLater(run.before, ttlHours);
      EnrichStores(RowsAfter(run.before), run.last.request, run.last.outcome);
    }
  }

  /** Two stored verdicts for one key are more than the TTL apart, in every run. */
  lemma {:induction false} StoredVerdictsSpacedOut(run: History<Call>, ttlHours: int)
    requires Sequential(run, ttlHours)
    ensures SpacedOut(RowsAfter(run), Ttl(ttlHours))
  {
    if run.Then? {
      var rows, q := RowsAfter(run.before), run.last.request;
      StoredVerdictsSpacedOut(run.before, ttlHours);
      if LastAnswer(run).Fresh? {
        var latest := Latest(rows, KeyOf(q), |rows|);
        assert forall i :: 0 <= i < |rows| && rows[i].key == KeyOf(q) ==> q.storedAt - rows[i].fetchedAt > Ttl(ttlHours);
      }
    }
  }

  /** The stored verdicts for the key with a time in [lo, hi], among the first `n`. */
  ghost function StoredIn(rows: seq<IocVerdict>, key: CacheKey, lo: int, hi: int, n: nat): nat
    requires n <= |rows|
  {
    if n == 0 then 0
    else StoredIn(rows, key, lo, hi, n - 1) + (if rows[n - 1].key == key && lo <= rows[n - 1].fetchedAt <= hi then 1 else 0)
  }

  /** The k-th stored verdict in the interval is at least k - 1 TTLs after its start. */
  lemma {:induction false} LastStoredIsLate(rows: seq<IocVerdict>, key: CacheKey, lo: int, hi: int, ttl: int, n: nat)
    returns (last: nat)
    requires n <= |rows| && SpacedOut(rows, ttl) && ttl > 0
    requires StoredIn(rows, key, lo, hi, n) > 0
    ensures last < n && rows[last].key == key && lo <= rows[last].fetchedAt <= hi
    ensures rows[last].fetchedAt >= lo + (StoredIn(rows, key, lo, hi, n) - 1) * ttl
  {
    if rows[n - 1].key == key && lo <= rows[n - 1].fetchedAt <= hi {
      var count := StoredIn(rows, key, lo, hi, n - 1);
      if count > 0 {
        var previous := LastStoredIsLate(rows, key, lo, hi, ttl, n - 1);
        assert (count - 1) * ttl + ttl == count * ttl;
      }
      last := n - 1;
    } else {
      last := LastStoredIsLate(rows, key, lo, hi, ttl, n - 1);
    }
  }

  lemma BelowOne(d: int, ttl: int)
    requires ttl > 0 && d * ttl < ttl
    ensures d < 1
  {
  }

  lemma CountFromSpan(count: int, span: int, ttl: int)
    requires ttl > 0 && (count - 1) * ttl <= span && count >= 1
    ensures count <= span / ttl + 1
  {
    var whole, d := span / ttl, count - 1 - span / ttl;
    assert d * ttl == (count - 1) * ttl - whole * ttl;
    assert span == whole * ttl + span % ttl;
    BelowOne(d, ttl);
  }

  /** How many fetches for the key succeeded with a stamp in [lo, hi]. */
  ghost function FetchesIn(run: History<Call>, key: CacheKey, lo: int, hi: int): nat {
    match run
    case Start => 0
    case Then(b, c) =>
      FetchesIn(b, key, lo, hi) +
      (if LastAnswer(run).Fresh? && KeyOf(c.request) == key && lo <= c.request.storedAt <= hi then 1 else 0)
  }

  lemma {:induction false} StoredInPrefix(rows: seq<IocVerdict>, more: seq<IocVerdict>, key: CacheKey, lo: int, hi: int, n: nat)
    requires n <= |rows| && rows <= more
    ensures StoredIn(rows, key, lo, hi, n) == StoredIn(more, key, lo, hi, n)
  {
    if n > 0 {
      StoredInPrefix(rows, more, key, lo, hi, n - 1);
    }
  }

  lemma CallStores(rows: seq<IocVerdict>, q: Request, outcome: FetchResult, key: CacheKey, lo: int, hi: int)
    ensures var (after, answer) := Enrich(rows, q, outcome);
            StoredIn(after, key, lo, hi, |after|) == StoredIn(rows, key, lo, hi, |rows|)
              + (if answer.Fresh? && KeyOf(q) == key && lo <= q.storedAt <= hi then 1 else 0)
  {
    var (after, answer) := Enrich(rows, q, outcome);
    EnrichStores(rows, q, outcome);
    StoredInPrefix(rows, after, key, lo, hi, |rows|);
  }

  lemma {:induction false} FetchesAreStored(run: History<Call>, key: CacheKey, lo: int, hi: int)
    ensures FetchesIn(run, key, lo, hi) == StoredIn(RowsAfter(run), key, lo, hi, |RowsAfter(run)|)
  {
    if run.Then? {
      FetchesAreStored(run.before, key, lo, hi);
      CallStores(RowsAfter(run.before), run.last.request, run.last.outcome, key, lo, hi);
    }
  }

  lemma SpacedOutRate(rows: seq<IocVerdict>, key: CacheKey, lo: int, span: nat, ttl: int)
    requires SpacedOut(rows, ttl) && ttl > 0
    ensures StoredIn(rows, key, lo, lo + span, |rows|) <= span / ttl + 1
  {
    var count := StoredIn(rows, key, lo, lo + span, |rows|);
    if count > 0 {
      var last := LastStoredIsLate(rows, key, lo, lo + span, ttl, |rows|);
      CountFromSpan(count, span, ttl);
    }
  }

  lemma TtlReads(hours: int)
    ensures Ttl(hours) == (if hours < 1 then 1 else hours) * 3_600_000_000
  {
  }

  lemma TtlPositive(hours: int)
    ensures Ttl(hours) >= HOUR > 0
  {
  }

  /** The fetch rate: a span of length `span`, wherever it starts, holds at most
      floor(span / TTL) + 1 successful fetches for a key. */
  lemma FetchRateBounded(run: History<Call>, ttlHours: int, key: CacheKey, lo: int, span: nat)
    requires Sequential(run, ttlHours)
    ensures FetchesIn(run, key, lo, lo + span) <= span / ((if ttlHours < 1 then 1 else ttlHours) * 3_600_000_000) + 1
  {
    hide StoredIn, FetchesIn, SpacedOut, Sequential, RowsAfter;
    StoredVerdictsSpacedOut(run, ttlHours);
    FetchesAreStored(run, key, lo, lo + span);
    TtlPositive(ttlHours);
    SpacedOutRate(RowsAfter(run), key, lo, span, Ttl(ttlHours));
  }

  /** The verdict was fetched in the run: by a call for exactly its key, and as the provider gave it. */
  ghost predicate FetchedIn(run: History<Call>, row: IocVerdict) {
    run.Then? &&
    ( || FetchedIn(run.before, row)
      || (LastAnswer(run) == Fresh(row)
          && run.last.outcome == Fetched(row.verdict, row.malicious)
          && KeyOf(run.last.request) == row.key && run.last.request.storedAt == row.fetchedAt))
  }

  lemma {:induction false} StoredWereFetched(run: History<Call>)
    ensures forall i :: 0 <= i < |RowsAfter(run)| ==> FetchedIn(run, RowsAfter(run)[i])
  {
    if run.Then? {
      StoredWereFetched(run.before);
    }
  }

  /** Freshness: a cached answer is what an earlier fetch for exactly that key gave, at most one TTL ago,
      and no later fetch for the key has been stored since. */
  lemma CachedAnswerIsRecentFetch(run: History<Call>, c: Call, ttlHours: int)
    requires Sequential(Then(run, c), ttlHours) && LastAnswer(Then(run, c)).Hit?
    ensures var row := LastAnswer(Then(run, c)).row;
            && FetchedIn(run, row) && row.key == KeyOf(c.request)
            && 0 <= c.request.checkedAt - row.fetchedAt <= (if ttlHours < 1 then 1 else ttlHours) * 3_600_000_000
            && (forall i :: 0 <= i < |RowsAfter(run)| && RowsAfter(run)[i].key == row.key ==> RowsAfter(run)[i].fetchedAt <= row.fetchedAt)
  {
    assert Sequential(Then(run, c).before, ttlHours);
    StoredWereFetched(run);
    NoneStoredLater(run, ttlHours);
  }

  lemma LatestDecides(rows: seq<IocVerdict>, key: CacheKey, ttl: int, now: int)
    ensures CacheGet(rows, key, ttl, now).None? <==>
              forall i :: 0 <= i < |rows| && rows[i].key == key ==> now - rows[i].fetchedAt > ttl
  {
    var latest := Latest(rows, key, |rows|);
    if latest.Some? {
      var i :| 0 <= i < |rows| && rows[i] == latest.value;
    }
  }

  /** The provider is asked exactly when there is an API key and the last successful fetch for the
      key, if any, is more than the TTL ago; a call that gets no verdict from it stores nothing. */
  lemma FetchOnlyWhenStale(run: History<Call>, c: Call)
    requires ValidKey(KeyOf(c.request)) && HasApiKey(c.request.apiKeys, KeyOf(c.request).provider) && c.request.fetch
    ensures var rows, answer := RowsAfter(run), LastAnswer(Then(run, c));
            && (answer.Fresh? || answer.FetchFailed? <==>
                  forall i :: 0 <= i < |rows| && rows[i].key == KeyOf(c.request) ==>
                    c.request.checkedAt - rows[i].fetchedAt > (if c.request.ttlHours < 1 then 1 else c.request.ttlHours) * 3_600_000_000)
            && (!answer.Fresh? ==> RowsAfter(Then(run, c)) == rows)
  {
    hide Ttl, CacheGet, KeyOf, Lower, Strip;
    TtlReads(c.request.ttlHours);
    var rows := RowsAfter(run);
    EnrichStores(rows, c.request, c.outcome);
    LatestDecides(rows, KeyOf(c.request), Ttl(c.request.ttlHours), c.request.checkedAt);
  }

  // ---------------------------------------------------------------- tenants apart

  /** The calls of one tenant, without those of the others. */
  ghost function OwnCalls(run: History<Call>, tenant: string): History<Call> {
    match run
    case Start => Start
    case Then(b, c) => if TenantOf(c.request) == tenant then Then(OwnCalls(b, tenant), c) else OwnCalls(b, tenant)
  }

  /** The tenant's rows among the first `n`. */
  ghost function OwnRows(rows: seq<IocVerdict>, tenant: string, n: nat): seq<IocVerdict>
    requires n <= |rows|
  {
    if n == 0 then []
    else OwnRows(rows, tenant, n - 1) + if rows[n - 1].key.tenant == tenant then [rows[n - 1]] else []
  }

  lemma {:induction false} LatestPrefix(rows: seq<IocVerdict>, more: seq<IocVerdict>, key: CacheKey, n: nat)
    requires n <= |rows| && rows <= more
    ensures Latest(more, key, n) == Latest(rows, key, n)
  {
    if n > 0 {
      LatestPrefix(rows, more, key, n - 1);
      assert more[n - 1] == rows[n - 1];
    }
  }

  lemma LatestAdded(rows: seq<IocVerdict>, row: IocVerdict, key: CacheKey)
    ensures var more, latest := rows + [row], Latest(rows, key, |rows|);
            Latest(more, key, |more|)
            == if row.key == key && (latest.None? || latest.value.fetchedAt <= row.fetchedAt) then Some(row) else latest
  {
    LatestPrefix(rows, rows + [row], key, |rows|);
  }

  lemma {:induction false} LatestOfOwn(rows: seq<IocVerdict>, key: CacheKey, n: nat)
    requires n <= |rows|
    ensures var own := OwnRows(rows, key.tenant, n); Latest(rows, key, n) == Latest(own, key, |own|)
  {
    if n > 0 {
      LatestOfOwn(rows, key, n - 1);
      var before, row := OwnRows(rows, key.tenant, n - 1), rows[n - 1];
      if row.key.tenant == key.tenant {
        LatestAdded(before, row, key);
        assert OwnRows(rows, key.tenant, n) == before + [row];
      } else {
        assert OwnRows(rows, key.tenant, n) == before + [] == before;
      }
    }
  }

  lemma {:induction false} OwnRowsPrefix(rows: seq<IocVerdict>, more: seq<IocVerdict>, tenant: string, n: nat)
    requires n <= |rows| && rows <= more
    ensures OwnRows(more, tenant, n) == OwnRows(rows, tenant, n)
  {
    if n > 0 {
      OwnRowsPrefix(rows, more, tenant, n - 1);
      assert more[n - 1] == rows[n - 1];
    }
  }

  /** A call answers and stores alike over its tenant's rows alone, and stores no row of another tenant. */
  lemma CallSeesOwnRows(rows: seq<IocVerdict>, q: Request, outcome: FetchResult, tenant: string)
    ensures var own, (after, answer) := OwnRows(rows, tenant, |rows|), Enrich(rows, q, outcome);
            if TenantOf(q) == tenant then Enrich(own, q, outcome) == (OwnRows(after, tenant, |after|), answer)
            else OwnRows(after, tenant, |after|) == own
  {
    hide Latest, Ttl, ValidKey, HasApiKey, Lower, Strip;
    var (after, answer) := Enrich(rows, q, outcome);
    LatestOfOwn(rows, KeyOf(q), |rows|);
    EnrichStores(rows, q, outcome);
    OwnRowsPrefix(rows, after, tenant, |rows|);
  }

  lemma {:induction false} RowsOfOwnCalls(run: History<Call>, tenant: string)
    ensures var rows := RowsAfter(run); RowsAfter(OwnCalls(run, tenant)) == OwnRows(rows, tenant, |rows|)
  {
    hide Enrich;
    if run.Then? {
      RowsOfOwnCalls(run.before, tenant);
      CallSeesOwnRows(RowsAfter(run.before), run.last.request, run.last.outcome, tenant);
    }
  }

  /** The calls of one tenant never change the answer to a call of another. */
  lemma TenantsApart(run: History<Call>, c: Call)
    ensures LastAnswer(Then(run, c)) == LastAnswer(Then(OwnCalls(run, TenantOf(c.request)), c))
  {
    hide Enrich;
    RowsOfOwnCalls(run, TenantOf(c.request));
    CallSeesOwnRows(RowsAfter(run), c.request, c.outcome, TenantOf(c.request));
  }

  /** Some call of the run, about the same as `q`, fetched the verdict. */
  ghost predicate FetchedFor(run: History<Call>, row: IocVerdict, q: Request) {
    run.Then? &&
    ( || FetchedFor(run.before, row, q)
      || (LastAnswer(run) == Fresh(row) && SameAsked(run.last.request, q)
          && run.last.outcome == Fetched(row.verdict, row.malicious) && run.last.request.storedAt == row.fetchedAt))
  }

  lemma {:induction false} FetchedForItsKey(run: History<Call>, row: IocVerdict, q: Request)
    requires FetchedIn(run, row) && row.key == KeyOf(q)
    ensures FetchedFor(run, row, q)
  {
    hide Enrich, KeyOf;
    if FetchedIn(run.before, row) {
      FetchedForItsKey(run.before, row, q);
    } else {
      SameKey(run.last.request, q);
    }
  }

  /** A cached answer was fetched by an earlier call about the same, of the same tenant. */
  lemma HitWasFetchedForSame(run: History<Call>, c: Call, ttlHours: int)
    requires Sequential(Then(run, c), ttlHours) && LastAnswer(Then(run, c)).Hit?
    ensures FetchedFor(run, LastAnswer(Then(run, c)).row, c.request)
  {
    hide KeyOf;
    CachedAnswerIsRecentFetch(run, c, ttlHours);
    FetchedForItsKey(run, LastAnswer(Then(run, c)).row, c.request);
  }

  // ---------------------------------------------------------------- keys_matching_enrich

  /** A provider that answers every call about a value alike. */
  type Oracle = (string, string, string) -> FetchResult

  /** What an evaluation asks the providers and the cache with; one clock reading. */
  datatype Enrichment = Enrichment(oracle: Oracle, apiKeys: map<string, string>, ttlHours: int, tenant: string, now: int)

  function Ask(en: Enrichment, provider: string, iocType: string, value: string): Request {
    Request(en.tenant, provider, iocType, value, en.apiKeys, true, en.ttlHours, en.now, en.now)
  }

  function Answered(en: Enrichment, key: CacheKey): FetchResult {
    en.oracle(key.provider, key.iocType, key.value)
  }

  function VerdictOf(outcome: FetchResult): string {
    if outcome.Failed? then "unknown" else outcome.verdict
  }

  /** What the provider itself says of the value, when it can be asked at all. */
  ghost function ProviderVerdict(en: Enrichment, provider: string, iocType: string, value: string): Option<string> {
    var key := KeyOf(Ask(en, provider, iocType, value));
    if !ValidKey(key) || !HasApiKey(en.apiKeys, key.provider) then None else Some(VerdictOf(Answered(en, key)))
  }

  /** The verdict in force on the value, over a cache: the cached one as long as it is fresh, whatever the
      provider has come to say since, else the provider's. */
  ghost function VerdictOn(rows: seq<IocVerdict>, en: Enrichment, provider: string, iocType: string, value: string): Option<string> {
    var key := KeyOf(Ask(en, provider, iocType, value));
    var cached := CacheGet(rows, key, Ttl(en.ttlHours), en.now);
    if ProviderVerdict(en, provider, iocType, value).Some? && cached.Some? then Some(cached.value.verdict)
    else ProviderVerdict(en, provider, iocType, value)
  }

  /** The same verdicts are in force over both caches. */
  ghost predicate SameVerdicts(a: seq<IocVerdict>, b: seq<IocVerdict>, en: Enrichment) {
    forall provider, iocType, value :: VerdictOn(a, en, provider, iocType, value) == VerdictOn(b, en, provider, iocType, value)
  }

  /** A verdict stored when none was fresh is the one found from then on; other keys are unaffected. */
  lemma CacheGetAfter(rows: seq<IocVerdict>, row: IocVerdict, key: CacheKey, hours: int)
    requires CacheGet(rows, row.key, Ttl(hours), row.fetchedAt).None?
    ensures CacheGet(rows + [row], key, Ttl(hours), row.fetchedAt)
         == if key == row.key then Some(row) else CacheGet(rows, key, Ttl(hours), row.fetchedAt)
  {
    hide Ttl;
    TtlPositive(hours);
    LatestPrefix(rows, rows + [row], key, |rows|);
  }

  /** A call answers with the verdict in force, and leaves every verdict in force as it was. */
  lemma CallKeepsVerdicts(rows: seq<IocVerdict>, en: Enrichment, provider: string, iocType: string, value: string)
    ensures var q := Ask(en, provider, iocType, value);
            var (after, answer) := Enrich(rows, q, Answered(en, KeyOf(q)));
            && rows <= after && SameVerdicts(rows, after, en)
            && VerdictOn(rows, en, provider, iocType, value) == if answer.Available() then Some(answer.Verdict()) else None
  {
    hide CacheGet, KeyOf, ValidKey, HasApiKey, Ttl;
    var q := Ask(en, provider, iocType, value);
    var (after, answer) := Enrich(rows, q, Answered(en, KeyOf(q)));
    if answer.Fresh? {
      forall p, t, v ensures VerdictOn(rows, en, p, t, v) == VerdictOn(after, en, p, t, v) {
        CacheGetAfter(rows, answer.row, KeyOf(Ask(en, p, t, v)), en.ttlHours);
      }
    }
  }

  /** No fresh verdict of the tenant differs from what the provider says now. */
  ghost predicate Steady(rows: seq<IocVerdict>, en: Enrichment) {
    forall key :: CacheGet(rows, key, Ttl(en.ttlHours), en.now).Some? && key.tenant == KeyOf(Ask(en, "", "", "")).tenant ==>
      CacheGet(rows, key, Ttl(en.ttlHours), en.now).value.verdict == VerdictOf(Answered(en, key))
  }

  /** While that is so, cache and providers cannot be told apart. */
  lemma CacheAnswersAsProvider(rows: seq<IocVerdict>, en: Enrichment, provider: string, iocType: string, value: string)
    requires Steady(rows, en)
    ensures VerdictOn(rows, en, provider, iocType, value) == ProviderVerdict(en, provider, iocType, value)
  {
    assert KeyOf(Ask(en, provider, iocType, value)).tenant == KeyOf(Ask(en, "", "", "")).tenant;
  }

  function WantedVerdicts(verdicts: seq<string>): set<string> {
    var lowered := set v | v in verdicts :: Lower(v);
    if lowered == {} then {"malicious", "suspicious"} else lowered
  }

  /** Some provider's verdict in force on the key is wanted. */
  ghost predicate Wanted(rows: seq<IocVerdict>, en: Enrichment, providers: seq<string>, verdicts: seq<string>,
                         iocType: string, key: string)
  {
    exists p :: p in providers && VerdictOn(rows, en, p, iocType, key).Some?
                && Lower(VerdictOn(rows, en, p, iocType, key).value) in WantedVerdicts(verdicts)
  }

  /** Wanting no verdict in particular is wanting the bad ones; otherwise the case of a wanted verdict does not matter. */
  lemma VerdictWanted(verdicts: seq<string>, verdict: string)
    ensures verdict in WantedVerdicts(verdicts) <==>
              if |verdicts| == 0 then verdict == "malicious" || verdict == "suspicious"
              else exists i :: 0 <= i < |verdicts| && Lower(verdicts[i]) == verdict
  {
    hide Lower;
    var lowered := set v | v in verdicts :: Lower(v);
    if |verdicts| > 0 {
      assert verdicts[0] in verdicts && Lower(verdicts[0]) in lowered;
    }
  }

  class VerdictCache {
    var rows: seq<IocVerdict>

    constructor ()
      ensures rows == []
    {
      rows := [];
    }

    method EnrichIoc(q: Request, oracle: Oracle) returns (answer: Answer)
      modifies this
      ensures var key := KeyOf(q);
              (rows, answer) == Enrich(old(rows), q, oracle(key.provider, key.iocType, key.value))
    {
      var key := KeyOf(q);
      if !ValidKey(key) {
        return Invalid;
      }
      if !HasApiKey(q.apiKeys, key.provider) {
        return NoApiKey;
      }
      var cached := CacheGet(rows, key, Ttl(q.ttlHours), q.checkedAt);
      if cached.Some? {
        return Hit(cached.value);
      }
      if !q.fetch {
        return Miss;
      }
      var outcome := oracle(key.provider, key.iocType, key.value);
      if outcome.Failed? {
        return FetchFailed;
      }
      var row := IocVerdict(key, outcome.verdict, outcome.malicious, q.storedAt);
      rows := rows + [row];
      return Fresh(row);
    }

    /** The keys some provider has a wanted verdict on, by the verdicts in force over the cache as it was;
        what is fetched on the way does not change them. */
    method KeysMatchingEnrich(keys: set<string>, providers: seq<string>, verdicts: seq<string>, iocType: string, en: Enrichment)
      returns (matched: set<string>)
      modifies this
      ensures old(rows) <= rows && SameVerdicts(old(rows), rows, en)
      ensures matched == set k | k in keys && Wanted(old(rows), en, providers, verdicts, iocType, k)
    {
      hide Enrich, VerdictOn, WantedVerdicts;
      matched := {};
      var wanted := WantedVerdicts(verdicts);
      var todo := keys;
      while todo != {}
        invariant todo <= keys && old(rows) <= rows && SameVerdicts(old(rows), rows, en)
        invariant matched == set k | k in keys - todo && Wanted(old(rows), en, providers, verdicts, iocType, k)
        decreases todo
      {
        var key :| key in todo;
        var hit := false;
        for i := 0 to |providers|
          invariant old(rows) <= rows && SameVerdicts(old(rows), rows, en)
          invariant !hit && !Wanted(old(rows), en, providers[..i], verdicts, iocType, key)
        {
          CallKeepsVerdicts(rows, en, providers[i], iocType, key);
          var answer := EnrichIoc(Ask(en, providers[i], iocType, key), en.oracle);
          assert providers[..i + 1] == providers[..i] + [providers[i]];
          if answer.Available() && Lower(answer.Verdict()) in wanted {
            hit := true;
            break;
          }
        }
        assert hit <==> Wanted(old(rows), en, providers, verdicts, iocType, key) by {
          assert providers[..|providers|] == providers;
        }
        if hit {
          matched := matched + {key};
        }
        todo := todo - {key};
      }
    }
  }
}
