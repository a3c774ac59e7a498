/**
 Validation of rule payloads (services/api/rule_validate.py).

 A payload and a validated rule are the same kind of record, so that validating can be repeated: an
 absent text is "", an absent number 0, an absent list or dictionary empty.  A dictionary of match
 filters is the sequence of its items in order.
 */
module RuleValidate {
  import opened Wrappers
  import opened Text

  const MAX_RULE_NAME := 256
  const MAX_RULE_TEXT := 4000
  const MAX_WINDOW_MINUTES := 10080
  const MAX_COOLDOWN_MINUTES := 10080
  const MAX_THRESHOLD := 1_000_000
  const MAX_MATCH_KEYS := 20
  const MAX_MATCH_VALUE_LEN := 256
  const MAX_CORRELATION_STEPS := 4
  const MAX_TECHNIQUES := 8

  const ALLOWED_MATCH_KEYS: set<string> := {
    "src_ip", "dst_ip", "user", "host", "action", "severity", "source_type", "vendor", "device", "ingest_channel", "message",
    "event_id", "channel", "provider", "labels.hash", "labels.hash_type", "labels.process", "labels.process_path",
    "labels.cmdline", "labels.parent_process", "labels.technique", "labels.category", "labels.filename", "labels.sensor_id",
    "labels.detection_name", "labels.alert_id"}
  const ALLOWED_GROUP_BY: set<string> := {"user", "src_ip", "host", "action", "source_type", "event_id"}
  const ALLOWED_TYPES: set<string> := {"match", "threshold", "correlation"}
  const ALLOWED_SEVERITIES: set<string> := {"critical", "high", "medium", "low", "info"}
  const ALLOWED_ENRICH_PROVIDERS: set<string> := {"vt", "abuseipdb", "otx"}
  const ALLOWED_ENRICH_VERDICTS: set<string> := {"malicious", "suspicious", "harmless", "undetected", "unknown"}
  const ALLOWED_IOC_TYPES: set<string> := {"ip", "domain", "url"}

  datatype MatchValue = One(text: string) | Many(texts: seq<string>)

  type MatchDict = seq<(string, MatchValue)>

  datatype Enrich = NotAnObject | Enrich(providers: seq<string>, verdicts: seq<string>, iocType: string)

  datatype RuleStep = NotAStep | RuleStep(enrich: Option<Enrich>, filters: MatchDict, minCount: int)

  datatype Mitre = NoMitre | Techniques(text: string) | TechniqueList(items: seq<string>)

  datatype Rule = Rule(
    id: string, name: string, title: string, description: string, threatBrief: string,
    kind: string, severity: string, enabled: Option<bool>, window: int, cooldown: int, mitre: Mitre,
    filters: MatchDict, otherFilters: MatchDict, threshold: int, groupBy: string,
    joinOn: string, steps: Option<seq<RuleStep>>)

  type Checked<T> = Result<T, string>

  // ---------------------------------------------------------------- texts

  function Cut(s: string, max: nat): string {
    if |s| <= max then s else s[..max]
  }

  function Or(s: string, default: string): string {
    if s == "" then default else s
  }

  /** `strip` comes before the cut, so the result starts with a character but may end in a blank. */
  function Clean(s: string, max: nat): string {
    Cut(Strip(s), max)
  }

  function Slug(s: string): string {
    Lower(Strip(s))
  }

  /** What cleaning leaves: short enough, and not starting with a blank. */
  predicate Cleaned(s: string, max: nat) {
    |s| <= max && (s != "" ==> !IsSpace(s[0]))
  }

  lemma CleanIsCleaned(s: string, max: nat)
    requires max > 0
    ensures Cleaned(Clean(s, max), max)
    ensures Clean(s, max) == "" <==> Strip(s) == ""
  {
    StripIsStripped(s);
  }

  /** Cleaning a cleaned text strips it, and it is not emptied by that. */
  lemma CleanAgain(s: string, max: nat)
    requires Cleaned(s, max)
    ensures Clean(s, max) == Strip(s) && Cleaned(Strip(s), max)
    ensures Strip(s) == "" <==> s == ""
    ensures Strip(Strip(s)) == Strip(s)
    ensures Strip(s) == s <==> Stripped(s)
  {
    StripIsStripped(s);
    StripIsStripped(Strip(s));
    StripRightKeepsFirst(s);
    assert s != "" ==> StripLeft(s) == s;
  }

  predicate IsSlug(s: string) {
    Stripped(s) && Lower(s) == s
  }

  lemma SlugIsSlug(s: string)
    ensures IsSlug(Slug(s))
  {
    StripIsStripped(s);
    LowerStrippedStays(Strip(s));
  }

  lemma SlugAgain(s: string)
    requires IsSlug(s)
    ensures Slug(s) == s
  {
    StripIsStripped(s);
  }

  predicate IdChar(c: char, first: bool) {
    'a' <= c <= 'z' || IsDigit(c) || (!first && (c == '_' || c == '-'))
  }

  predicate ValidId(s: string) {
    2 <= |s| <= 63 && IdChar(s[0], true) && forall i :: 1 <= i < |s| ==> IdChar(s[i], false)
  }

  // ---------------------------------------------------------------- match filters

  function CleanTexts(vs: seq<string>, n: nat): seq<string>
    requires n <= |vs|
  {
    if n == 0 then []
    else CleanTexts(vs, n - 1) + (if Strip(vs[n - 1]) == "" then [] else [Clean(vs[n - 1], MAX_MATCH_VALUE_LEN)])
  }

  /** The cleaned value, or None if nothing is left of it. */
  function CleanValue(v: MatchValue): Option<MatchValue> {
    match v
    case One(t) =>
      var c := Clean(t, MAX_MATCH_VALUE_LEN);
      if c == "" then None else Some(One(c))
    case Many(ts) =>
      var cs := CleanTexts(ts, |ts|);
      if cs == [] then None else Some(Many(cs))
  }

  /** Assignment to a key of a dictionary: in place if the key is there, else at the end. */
  function Put(d: MatchDict, k: string, v: MatchValue): MatchDict {
    if d == [] then [(k, v)]
    else if d[0].0 == k then [(k, v)] + d[1..]
    else [d[0]] + Put(d[1..], k, v)
  }

  predicate AllowedKey(k: string) {
    k in ALLOWED_MATCH_KEYS
  }

  function CleanItems(d: MatchDict, n: nat): Checked<MatchDict>
    requires n <= |d|
  {
    if n == 0 then Ok([])
    else
      var rest := CleanItems(d, n - 1);
      var k := Strip(d[n - 1].0);
      if rest.Err? || k == "" then rest
      else if !AllowedKey(k) then Err("match key not allowed")
      else match CleanValue(d[n - 1].1)
        case None => rest
        case Some(v) => Ok(Put(rest.value, k, v))
  }

  function CleanMatch(d: MatchDict): Checked<MatchDict> {
    if d == [] then Err("match filters are required")
    else if |d| > MAX_MATCH_KEYS then Err("too many match keys")
    else
      var r := CleanItems(d, |d|);
      if r.Ok? && r.value == [] then Err("match filters are required") else r
  }

  lemma {:induction false} ErrStays(d: MatchDict, m: nat, n: nat)
    requires m <= n <= |d| && CleanItems(d, m).Err?
    ensures CleanItems(d, n) == CleanItems(d, m)
  {
    hide CleanValue, Put, AllowedKey, Strip;
    if m < n {
      ErrStays(d, m, n - 1);
    }
  }

  method CleanMatchFilters(d: MatchDict) returns (r: Checked<MatchDict>)
    ensures r == CleanMatch(d)
  {
    hide CleanValue, Put, AllowedKey, Strip;
    if d == [] {
      return Err("match filters are required");
    }
    if |d| > MAX_MATCH_KEYS {
      return Err("too many match keys");
    }
    var clean: MatchDict := [];
    for i := 0 to |d|
      invariant CleanItems(d, i) == Ok(clean)
    {
      var k := Strip(d[i].0);
      if k != "" {
        if !AllowedKey(k) {
          ErrStays(d, i + 1, |d|);
          return Err("match key not allowed");
        }
        var v := CleanValue(d[i].1);
        if v.Some? {
          clean := Put(clean, k, v.value);
        }
      }
    }
    return if clean == [] then Err("match filters are required") else Ok(clean);
  }

  // ---- the normal form of match filters

  predicate NormalText(t: string) {
    t != "" && Cleaned(t, MAX_MATCH_VALUE_LEN)
  }

  predicate NormalValue(v: MatchValue) {
    match v
    case One(t) => NormalText(t)
    case Many(ts) => ts != [] && forall i :: 0 <= i < |ts| ==> NormalText(ts[i])
  }

  predicate KeyIn(d: MatchDict, k: string) {
    exists i :: 0 <= i < |d| && d[i].0 == k
  }

  ghost predicate DistinctKeys(d: MatchDict) {
    forall i, j :: 0 <= i < j < |d| ==> d[i].0 != d[j].0
  }

  ghost predicate NormalItem(k: string, v: MatchValue) {
    AllowedKey(k) && Stripped(k) && k != "" && NormalValue(v)
  }

  /** Allowed, stripped, distinct keys with normal values. */
  ghost predicate NormalItems(d: MatchDict) {
    && (forall i :: 0 <= i < |d| ==> NormalItem(d[i].0, d[i].1))
    && DistinctKeys(d)
  }

  ghost predicate NormalMatch(d: MatchDict) {
    d != [] && |d| <= MAX_MATCH_KEYS && NormalItems(d)
  }

  function StripTexts(ts: seq<string>, n: nat): (r: seq<string>)
    requires n <= |ts|
    ensures |r| == n && forall i :: 0 <= i < n ==> r[i] == Strip(ts[i])
  {
    if n == 0 then [] else StripTexts(ts, n - 1) + [Strip(ts[n - 1])]
  }

  function StripValue(v: MatchValue): MatchValue {
    match v
    case One(t) => One(Strip(t))
    case Many(ts) => Many(StripTexts(ts, |ts|))
  }

  function StripMatch(d: MatchDict, n: nat): (r: MatchDict)
    requires n <= |d|
    ensures |r| == n && forall i :: 0 <= i < n ==> r[i] == (d[i].0, StripValue(d[i].1))
  {
    if n == 0 then [] else StripMatch(d, n - 1) + [(d[n - 1].0, StripValue(d[n - 1].1))]
  }

  lemma {:induction false} CleanTextsNormal(vs: seq<string>, n: nat)
    requires n <= |vs|
    ensures forall i :: 0 <= i < |CleanTexts(vs, n)| ==> NormalText(CleanTexts(vs, n)[i])
  {
    if n > 0 {
      CleanTextsNormal(vs, n - 1);
      CleanIsCleaned(vs[n - 1], MAX_MATCH_VALUE_LEN);
    }
  }

  lemma CleanValueNormal(v: MatchValue)
    ensures CleanValue(v).Some? ==> NormalValue(CleanValue(v).value)
  {
    match v
    case One(t) => CleanIsCleaned(t, MAX_MATCH_VALUE_LEN);
    case Many(ts) => CleanTextsNormal(ts, |ts|);
  }

  lemma {:induction false} PutDistinct(d: MatchDict, k: string, v: MatchValue)
    requires DistinctKeys(d)
    ensures DistinctKeys(Put(d, k, v)) && 0 < |Put(d, k, v)| <= |d| + 1
    ensures forall p :: p in Put(d, k, v) ==> p == (k, v) || p in d
  {
    if d != [] && d[0].0 != k {
      var tail := d[1..];
      assert forall i :: 0 <= i < |tail| ==> tail[i] == d[i + 1];
      PutDistinct(tail, k, v);
      var p := Put(tail, k, v);
      forall i | 0 <= i < |p| ensures p[i].0 != d[0].0 {
        assert p[i] in p;
      }
    } else if d != [] {
      var tail := d[1..];
      assert forall i :: 0 <= i < |tail| ==> tail[i] == d[i + 1];
    }
  }

  lemma PutNormal(d: MatchDict, k: string, v: MatchValue)
    requires NormalItems(d) && NormalItem(k, v)
    ensures NormalItems(Put(d, k, v)) && 0 < |Put(d, k, v)| <= |d| + 1
  {
    hide NormalItem;
    PutDistinct(d, k, v);
    forall i | 0 <= i < |Put(d, k, v)| ensures NormalItem(Put(d, k, v)[i].0, Put(d, k, v)[i].1) {
      assert Put(d, k, v)[i] in Put(d, k, v);
    }
  }

  lemma {:induction false} CleanItemsNormal(d: MatchDict, n: nat)
    requires n <= |d| && CleanItems(d, n).Ok?
    ensures NormalItems(CleanItems(d, n).value) && |CleanItems(d, n).value| <= n
  {
    hide AllowedKey, CleanValue, NormalValue, StripValue, Strip, Stripped;
    if n > 0 {
      CleanItemsNormal(d, n - 1);
      StripIsStripped(d[n - 1].0);
      CleanValueNormal(d[n - 1].1);
      var k, v := Strip(d[n - 1].0), CleanValue(d[n - 1].1);
      if k != "" && v.Some? {
        PutNormal(CleanItems(d, n - 1).value, k, v.value);
      }
    }
  }

  lemma {:induction false} CleanTextsAgain(ts: seq<string>, n: nat)
    requires n <= |ts| && forall i :: 0 <= i < |ts| ==> NormalText(ts[i])
    ensures CleanTexts(ts, n) == StripTexts(ts, n)
  {
    if n > 0 {
      CleanTextsAgain(ts, n - 1);
      CleanAgain(ts[n - 1], MAX_MATCH_VALUE_LEN);
    }
  }

  lemma CleanValueAgain(v: MatchValue)
    requires NormalValue(v)
    ensures CleanValue(v) == Some(StripValue(v)) && NormalValue(StripValue(v)) && StripValue(StripValue(v)) == StripValue(v)
  {
    match v
    case One(t) => CleanAgain(t, MAX_MATCH_VALUE_LEN);
    case Many(ts) =>
      CleanTextsAgain(ts, |ts|);
      forall i | 0 <= i < |ts| ensures NormalText(Strip(ts[i])) && Strip(Strip(ts[i])) == Strip(ts[i]) {
        CleanAgain(ts[i], MAX_MATCH_VALUE_LEN);
      }
  }

  lemma {:induction false} PutNew(d: MatchDict, k: string, v: MatchValue)
    requires !KeyIn(d, k)
    ensures Put(d, k, v) == d + [(k, v)]
  {
    if d != [] {
      assert d[0].0 != k;
      forall i | 0 <= i < |d[1..]| ensures d[1..][i].0 != k {
        assert d[1..][i] == d[i + 1];
      }
      PutNew(d[1..], k, v);
    }
  }

  lemma {:induction false} CleanItemsAgain(d: MatchDict, n: nat)
    requires n <= |d| && NormalItems(d)
    ensures CleanItems(d, n) == Ok(StripMatch(d, n))
  {
    hide AllowedKey, CleanValue, NormalValue, StripValue, Strip, Stripped;
    if n > 0 {
      CleanItemsAgain(d, n - 1);
      StripIsStripped(d[n - 1].0);
      CleanValueAgain(d[n - 1].1);
      PutNew(StripMatch(d, n - 1), d[n - 1].0, StripValue(d[n - 1].1));
    }
  }

  /** Match filters once cleaned are accepted again, and cleaning them again only strips their values. */
  lemma CleanMatchAgain(d: MatchDict)
    requires NormalMatch(d)
    ensures CleanMatch(d) == Ok(StripMatch(d, |d|)) && NormalMatch(StripMatch(d, |d|))
    ensures StripMatch(StripMatch(d, |d|), |d|) == StripMatch(d, |d|)
  {
    hide CleanValue, StripValue, NormalValue, AllowedKey, CleanItems, Stripped;
    CleanItemsAgain(d, |d|);
    forall i | 0 <= i < |d| ensures NormalValue(StripValue(d[i].1)) && StripValue(StripValue(d[i].1)) == StripValue(d[i].1) {
      CleanValueAgain(d[i].1);
    }
  }

  lemma CleanMatchNormal(d: MatchDict)
    ensures CleanMatch(d).Ok? ==> NormalMatch(CleanMatch(d).value)
  {
    if CleanMatch(d).Ok? {
      CleanItemsNormal(d, |d|);
    }
  }

  // ---------------------------------------------------------------- MITRE techniques

  /** `^T\d{4}(\.\d{3})?$`, ignoring case. */
  predicate IsTechnique(p: string) {
    && (|p| == 5 || |p| == 9)
    && (p[0] == 'T' || p[0] == 't')
    && (forall i :: 1 <= i < 5 ==> IsDigit(p[i]))
    && (|p| == 9 ==> p[5] == '.' && forall i :: 6 <= i < 9 ==> IsDigit(p[i]))
  }

  function Upper(p: string): string
    requires IsTechnique(p)
  {
    "T" + p[1..]
  }

  /** The first `n` texts, stripped, without the empty ones. */
  function StripAll(ps: seq<string>, n: nat): seq<string>
    requires n <= |ps|
  {
    if n == 0 then [] else StripAll(ps, n - 1) + (if Strip(ps[n - 1]) == "" then [] else [Strip(ps[n - 1])])
  }

  function Parts(m: Mitre): seq<string> {
    match m
    case NoMitre => []
    case Techniques(t) => if t == "" then [] else StripAll(Split(t, ','), |Split(t, ',')|)
    case TechniqueList(items) => StripAll(items, |items|)
  }

  function UpperAll(ps: seq<string>, n: nat): Checked<seq<string>>
    requires n <= |ps|
  {
    if n == 0 then Ok([])
    else
      var rest := UpperAll(ps, n - 1);
      if rest.Err? then rest
      else if !IsTechnique(ps[n - 1]) then Err("mitre technique invalid")
      else Ok(rest.value + [Upper(ps[n - 1])])
  }

  function Join(ps: seq<string>): string {
    if ps == [] then "" else if |ps| == 1 then ps[0] else ps[0] + ([','] + Join(ps[1..]))
  }

  function FirstTechniques(ps: seq<string>): seq<string> {
    if |ps| <= MAX_TECHNIQUES then ps else ps[..MAX_TECHNIQUES]
  }

  function NormalizeMitre(m: Mitre): Checked<Mitre> {
    var ps := FirstTechniques(Parts(m));
    match UpperAll(ps, |ps|)
    case Err(e) => Err(e)
    case Ok(us) => Ok(if us == [] then NoMitre else Techniques(Join(us)))
  }

  lemma {:induction false} UpperErrStays(ps: seq<string>, m: nat, n: nat)
    requires m <= n <= |ps| && UpperAll(ps, m).Err?
    ensures UpperAll(ps, n) == UpperAll(ps, m)
  {
    if m < n {
      UpperErrStays(ps, m, n - 1);
    }
  }

  method NormalizeMitreField(m: Mitre) returns (r: Checked<Mitre>)
    ensures r == NormalizeMitre(m)
  {
    var ps := FirstTechniques(Parts(m));
    var cleaned: seq<string> := [];
    for i := 0 to |ps|
      invariant UpperAll(ps, i) == Ok(cleaned)
    {
      if !IsTechnique(ps[i]) {
        UpperErrStays(ps, i + 1, |ps|);
        return Err("mitre technique invalid");
      }
      cleaned := cleaned + [Upper(ps[i])];
    }
    return Ok(if cleaned == [] then NoMitre else Techniques(Join(cleaned)));
  }

  /** Techniques as validation writes them. */
  predicate Canonical(us: seq<string>) {
    forall i :: 0 <= i < |us| ==> IsTechnique(us[i]) && us[i][0] == 'T'
  }

  ghost predicate NormalMitre(m: Mitre) {
    m == NoMitre || exists us: seq<string> :: 0 < |us| <= MAX_TECHNIQUES && Canonical(us) && m == Techniques(Join(us))
  }

  lemma {:induction false} UpperAllCanonical(ps: seq<string>, n: nat)
    requires n <= |ps|
    ensures UpperAll(ps, n).Ok? ==> Canonical(UpperAll(ps, n).value) && |UpperAll(ps, n).value| == n
    ensures Canonical(ps) ==> UpperAll(ps, n) == Ok(ps[..n])
  {
    if n > 0 {
      UpperAllCanonical(ps, n - 1);
      if Canonical(ps) {
        assert Upper(ps[n - 1]) == ps[n - 1];
        assert ps[..n] == ps[..n - 1] + [ps[n - 1]];
      }
    }
  }

  lemma TechniqueFacts(p: string)
    requires IsTechnique(p)
    ensures ',' !in p && Stripped(p) && p != ""
  {
    forall i | 0 <= i < |p| ensures p[i] != ',' && !IsSpace(p[i]) {
      if i == 0 || i == 5 {
      } else {
        assert IsDigit(p[i]);
      }
    }
  }

  lemma {:induction false} SplitJoin(us: seq<string>)
    requires us != [] && Canonical(us)
    ensures Split(Join(us), ',') == us && Join(us) != ""
  {
    TechniqueFacts(us[0]);
    SplitOne(us[0], ',');
    if |us| == 1 {
    } else {
      SplitJoin(us[1..]);
      SplitJoined(us[0], Join(us[1..]), ',');
      assert [us[0]] + us[1..] == us;
    }
  }

  lemma {:induction false} StripAllSame(us: seq<string>, n: nat)
    requires n <= |us| && Canonical(us)
    ensures StripAll(us, n) == us[..n]
  {
    if n > 0 {
      StripAllSame(us, n - 1);
      TechniqueFacts(us[n - 1]);
      StripIsStripped(us[n - 1]);
      assert us[..n] == us[..n - 1] + [us[n - 1]];
    }
  }

  /** Normalizing gives the normal form, and leaves it alone. */
  lemma NormalizeMitreStable(m: Mitre)
    ensures NormalizeMitre(m).Ok? ==> NormalMitre(NormalizeMitre(m).value)
    ensures NormalMitre(m) ==> NormalizeMitre(m) == Ok(m)
  {
    var ps := FirstTechniques(Parts(m));
    UpperAllCanonical(ps, |ps|);
    if NormalMitre(m) && m != NoMitre {
      var us: seq<string> :| 0 < |us| <= MAX_TECHNIQUES && Canonical(us) && m == Techniques(Join(us));
      SplitJoin(us);
      StripAllSame(us, |us|);
      assert us[..|us|] == us;
      UpperAllCanonical(us, |us|);
    }
  }

  // ---------------------------------------------------------------- correlation steps

  function CleanWords(ws: seq<string>, allowed: set<string>, n: nat): Checked<seq<string>>
    requires n <= |ws|
  {
    if n == 0 then Ok([])
    else
      var rest := CleanWords(ws, allowed, n - 1);
      if rest.Err? then rest
      else if Slug(ws[n - 1]) !in allowed then Err("enrich list invalid")
      else Ok(rest.value + [Slug(ws[n - 1])])
  }

  function OrList(ws: seq<string>, default: seq<string>): seq<string> {
    if ws == [] then default else ws
  }

  function CleanEnrich(e: Enrich): Checked<Enrich> {
    match e
    case NotAnObject => Err("enrich must be an object")
    case Enrich(providers, verdicts, iocType) =>
      var ps := OrList(providers, ["vt"]);
      var vs := OrList(verdicts, ["malicious", "suspicious"]);
      var t := Slug(Or(iocType, "ip"));
      match CleanWords(ps, ALLOWED_ENRICH_PROVIDERS, |ps|)
      case Err(m) => Err(m)
      case Ok(cp) =>
        match CleanWords(vs, ALLOWED_ENRICH_VERDICTS, |vs|)
        case Err(m) => Err(m)
        case Ok(cv) => if t !in ALLOWED_IOC_TYPES then Err("ioc_type invalid") else Ok(Enrich(cp, cv, t))
  }

  function CleanStep(s: RuleStep): Checked<RuleStep> {
    match s
    case NotAStep => Err("step must be an object")
    case RuleStep(enrich, filters, minCount) =>
      if enrich.Some? then
        match CleanEnrich(enrich.value)
        case Err(m) => Err(m)
        case Ok(e) => Ok(RuleStep(Some(e), [], 0))
      else
        match CleanMatch(filters)
        case Err(m) => Err(m)
        case Ok(f) =>
          var n := if minCount == 0 then 1 else minCount;
          if n < 1 || n > MAX_THRESHOLD then Err("min_count out of range") else Ok(RuleStep(None, f, n))
  }

  function CleanSteps(ss: seq<RuleStep>, n: nat): Checked<seq<RuleStep>>
    requires n <= |ss|
  {
    if n == 0 then Ok([])
    else
      var rest := CleanSteps(ss, n - 1);
      if rest.Err? then rest
      else match CleanStep(ss[n - 1])
        case Err(m) => Err(m)
        case Ok(s) => Ok(rest.value + [s])
  }

  lemma {:induction false} StepErrStays(ss: seq<RuleStep>, m: nat, n: nat)
    requires m <= n <= |ss| && CleanSteps(ss, m).Err?
    ensures CleanSteps(ss, n) == CleanSteps(ss, m)
  {
    hide CleanStep;
    if m < n {
      StepErrStays(ss, m, n - 1);
    }
  }

  method CleanStepList(ss: seq<RuleStep>) returns (r: Checked<seq<RuleStep>>)
    ensures r == CleanSteps(ss, |ss|)
  {
    hide CleanStep;
    var clean: seq<RuleStep> := [];
    for i := 0 to |ss|
      invariant CleanSteps(ss, i) == Ok(clean)
    {
      var s := CleanStep(ss[i]);
      if s.Err? {
        StepErrStays(ss, i + 1, |ss|);
        return Err(s.error);
      }
      clean := clean + [s.value];
    }
    return Ok(clean);
  }

  const PLACEHOLDER_MATCH: MatchDict := [("source_type", One("windows"))]

  /** The filters shown for a correlation: those of the first step that has some. */
  function FirstMatch(ss: seq<RuleStep>, i: nat): MatchDict
    requires i <= |ss|
    decreases |ss| - i
  {
    if i == |ss| then PLACEHOLDER_MATCH
    else if ss[i].RuleStep? && ss[i].filters != [] then ss[i].filters
    else FirstMatch(ss, i + 1)
  }

  ghost predicate NormalWords(ws: seq<string>, allowed: set<string>) {
    ws != [] && forall i :: 0 <= i < |ws| ==> ws[i] in allowed && IsSlug(ws[i])
  }

  ghost predicate NormalStep(s: RuleStep) {
    && s.RuleStep?
    && match s.enrich
       case Some(e) =>
         && e.Enrich? && s.filters == [] && s.minCount == 0
         && NormalWords(e.providers, ALLOWED_ENRICH_PROVIDERS) && NormalWords(e.verdicts, ALLOWED_ENRICH_VERDICTS)
         && e.iocType in ALLOWED_IOC_TYPES && IsSlug(e.iocType) && e.iocType != ""
       case None => NormalMatch(s.filters) && 1 <= s.minCount <= MAX_THRESHOLD
  }

  ghost predicate NormalSteps(ss: seq<RuleStep>) {
    forall i :: 0 <= i < |ss| ==> NormalStep(ss[i])
  }

  function StripStep(s: RuleStep): RuleStep {
    if s.RuleStep? then s.(filters := StripMatch(s.filters, |s.filters|)) else s
  }

  function StripSteps(ss: seq<RuleStep>, n: nat): (r: seq<RuleStep>)
    requires n <= |ss|
    ensures |r| == n && forall i :: 0 <= i < n ==> r[i] == StripStep(ss[i])
  {
    if n == 0 then [] else StripSteps(ss, n - 1) + [StripStep(ss[n - 1])]
  }

  lemma {:induction false} CleanWordsNormal(ws: seq<string>, allowed: set<string>, n: nat)
    requires n <= |ws|
    ensures CleanWords(ws, allowed, n).Ok? ==>
              var r := CleanWords(ws, allowed, n).value;
              |r| == n && forall i :: 0 <= i < n ==> r[i] in allowed && IsSlug(r[i])
    ensures NormalWords(ws, allowed) ==> CleanWords(ws, allowed, n) == Ok(ws[..n])
  {
    if n > 0 {
      CleanWordsNormal(ws, allowed, n - 1);
      SlugIsSlug(ws[n - 1]);
      if NormalWords(ws, allowed) {
        SlugAgain(ws[n - 1]);
        assert ws[..n] == ws[..n - 1] + [ws[n - 1]];
      }
    }
  }

  lemma CleanEnrichNormal(e: Enrich)
    ensures CleanEnrich(e).Ok? ==> NormalStep(RuleStep(Some(CleanEnrich(e).value), [], 0))
    ensures NormalStep(RuleStep(Some(e), [], 0)) ==> CleanEnrich(e) == Ok(e)
  {
    hide CleanWords, IsSlug, Slug;
    if e.Enrich? {
      var ps, vs := OrList(e.providers, ["vt"]), OrList(e.verdicts, ["malicious", "suspicious"]);
      CleanWordsNormal(ps, ALLOWED_ENRICH_PROVIDERS, |ps|);
      CleanWordsNormal(vs, ALLOWED_ENRICH_VERDICTS, |vs|);
      SlugIsSlug(Or(e.iocType, "ip"));
      assert ps[..|ps|] == ps && vs[..|vs|] == vs;
      if NormalStep(RuleStep(Some(e), [], 0)) {
        SlugAgain(e.iocType);
      }
    }
  }

  lemma CleanStepNormal(s: RuleStep)
    ensures CleanStep(s).Ok? ==> NormalStep(CleanStep(s).value)
    ensures NormalStep(s) ==> CleanStep(s) == Ok(StripStep(s)) && NormalStep(StripStep(s)) && StripStep(StripStep(s)) == StripStep(s)
  {
    if s.RuleStep? {
      if s.enrich.Some? {
        CleanEnrichNormal(s.enrich.value);
      } else {
        CleanMatchNormal(s.filters);
        if NormalStep(s) {
          CleanMatchAgain(s.filters);
        }
      }
    }
  }

  lemma {:induction false} CleanStepsNormal(ss: seq<RuleStep>, n: nat)
    requires n <= |ss|
    ensures CleanSteps(ss, n).Ok? ==> NormalSteps(CleanSteps(ss, n).value) && |CleanSteps(ss, n).value| == n
    ensures NormalSteps(ss) ==> CleanSteps(ss, n) == Ok(StripSteps(ss, n))
  {
    hide CleanStep, NormalStep, StripStep;
    if n > 0 {
      CleanStepsNormal(ss, n - 1);
      CleanStepNormal(ss[n - 1]);
    }
  }

  lemma NormalIsStep(s: RuleStep)
    requires NormalStep(s)
    ensures s.RuleStep?
  {
  }

  lemma StepFilters(s: RuleStep)
    requires NormalStep(s)
    ensures s.filters != [] ==> NormalMatch(s.filters)
    ensures StripStep(s).RuleStep? && StripStep(s).filters == StripMatch(s.filters, |s.filters|)
  {
  }

  lemma PlaceholderNormal()
    ensures NormalMatch(PLACEHOLDER_MATCH)
    ensures StripMatch(PLACEHOLDER_MATCH, 1) == PLACEHOLDER_MATCH
  {
    StripIsStripped("windows");
  }

  lemma {:induction false} FirstMatchStripped(ss: seq<RuleStep>, i: nat)
    requires i <= |ss| && NormalSteps(ss)
    ensures NormalMatch(FirstMatch(ss, i))
    ensures var f := FirstMatch(ss, i); FirstMatch(StripSteps(ss, |ss|), i) == StripMatch(f, |f|)
    decreases |ss| - i
  {
    hide NormalStep, StripStep, NormalMatch, StripSteps, StripMatch;
    if i == |ss| {
      PlaceholderNormal();
    } else {
      var stripped := StripSteps(ss, |ss|)[i];
      assert stripped == StripStep(ss[i]) && NormalStep(ss[i]);
      StepFilters(ss[i]);
      FirstMatchStripped(ss, i + 1);
      assert ss[i].RuleStep? by { NormalIsStep(ss[i]); }
      if ss[i].filters == [] {
        assert stripped.filters == [];
      }
    }
  }

  // ---------------------------------------------------------------- the payload

  function Clamp(n: int, default: int, max: int): int {
    var v := if n == 0 then default else n;
    if v > max then max else if v < 1 then 1 else v
  }

  function OrMatch(a: MatchDict, b: MatchDict): MatchDict {
    if a == [] then b else a
  }

  /** The fields every kind of rule has. */
  function Common(d: Rule, mitre: Mitre): Rule {
    var name := Strip(d.name);
    Rule(Slug(d.id), name, Or(Clean(Or(d.title, name), MAX_RULE_NAME), name),
         Clean(d.description, MAX_RULE_TEXT), Clean(d.threatBrief, MAX_RULE_TEXT),
         Slug(Or(d.kind, "match")), Slug(Or(d.severity, "medium")), Some(d.enabled.GetOr(true)),
         Clamp(d.window, 10, MAX_WINDOW_MINUTES), Clamp(d.cooldown, 15, MAX_COOLDOWN_MINUTES), mitre,
         [], [], 0, "", "", None)
  }

  function ValidateCorrelation(d: Rule, out: Rule): Checked<Rule> {
    var joinOn := Strip(Or(d.joinOn, "src_ip"));
    if joinOn !in ALLOWED_GROUP_BY then Err("join_on invalid")
    else if d.steps.None? || |d.steps.value| < 2 then Err("correlation requires at least 2 steps")
    else if |d.steps.value| > MAX_CORRELATION_STEPS then Err("too many steps")
    else match CleanSteps(d.steps.value, |d.steps.value|)
      case Err(m) => Err(m)
      case Ok(ss) => Ok(out.(joinOn := joinOn, steps := Some(ss), filters := FirstMatch(ss, 0)))
  }

  function ValidateFiltered(d: Rule, out: Rule): Checked<Rule> {
    match CleanMatch(OrMatch(d.filters, d.otherFilters))
    case Err(m) => Err(m)
    case Ok(f) =>
      var groupBy := Strip(Or(d.groupBy, "user"));
      if out.kind != "threshold" then Ok(out.(filters := f))
      else if d.threshold < 1 || d.threshold > MAX_THRESHOLD then Err("threshold out of range")
      else if groupBy !in ALLOWED_GROUP_BY then Err("group_by invalid")
      else Ok(out.(filters := f, threshold := d.threshold, groupBy := groupBy))
  }

  function Validate(d: Rule): Checked<Rule> {
    var out := Common(d, NoMitre);
    if !ValidId(out.id) then Err("id must be a slug")
    else if out.name == "" then Err("name is required")
    else if |out.name| > MAX_RULE_NAME then Err("name too long")
    else if out.kind !in ALLOWED_TYPES then Err("type invalid")
    else if out.severity !in ALLOWED_SEVERITIES then Err("severity invalid")
    else match NormalizeMitre(d.mitre)
      case Err(m) => Err(m)
      case Ok(mitre) =>
        if out.kind == "correlation" then ValidateCorrelation(d, Common(d, mitre))
        else ValidateFiltered(d, Common(d, mitre))
  }

  method ValidateRulePayload(d: Rule) returns (r: Checked<Rule>)
    ensures r == Validate(d)
  {
    var out := Common(d, NoMitre);
    if !ValidId(out.id) {
      return Err("id must be a slug");
    }
    if out.name == "" {
      return Err("name is required");
    }
    if |out.name| > MAX_RULE_NAME {
      return Err("name too long");
    }
    if out.kind !in ALLOWED_TYPES {
      return Err("type invalid");
    }
    if out.severity !in ALLOWED_SEVERITIES {
      return Err("severity invalid");
    }
    var mitre := NormalizeMitreField(d.mitre);
    if mitre.Err? {
      return Err(mitre.error);
    }
    out := out.(mitre := mitre.value);
    if out.kind == "correlation" {
      var joinOn := Strip(Or(d.joinOn, "src_ip"));
      if joinOn !in ALLOWED_GROUP_BY {
        return Err("join_on invalid");
      }
      if d.steps.None? || |d.steps.value| < 2 {
        return Err("correlation requires at least 2 steps");
      }
      if |d.steps.value| > MAX_CORRELATION_STEPS {
        return Err("too many steps");
      }
      var ss := CleanStepList(d.steps.value);
      if ss.Err? {
        return Err(ss.error);
      }
      return Ok(out.(joinOn := joinOn, steps := Some(ss.value), filters := FirstMatch(ss.value, 0)));
    }
    var f := CleanMatchFilters(OrMatch(d.filters, d.otherFilters));
    if f.Err? {
      return Err(f.error);
    }
    out := out.(filters := f.value);
    if out.kind == "threshold" {
      if d.threshold < 1 || d.threshold > MAX_THRESHOLD {
        return Err("threshold out of range");
      }
      var groupBy := Strip(Or(d.groupBy, "user"));
      if groupBy !in ALLOWED_GROUP_BY {
        return Err("group_by invalid");
      }
      out := out.(threshold := d.threshold, groupBy := groupBy);
    }
    return Ok(out);
  }

  // ---------------------------------------------------------------- the normal form

  /** What the fields of every validated rule satisfy. */
  ghost predicate NormalCommon(r: Rule) {
    && ValidId(r.id) && IsSlug(r.id)
    && r.name != "" && Stripped(r.name) && |r.name| <= MAX_RULE_NAME
    && r.title != "" && Cleaned(r.title, MAX_RULE_NAME)
    && Cleaned(r.description, MAX_RULE_TEXT) && Cleaned(r.threatBrief, MAX_RULE_TEXT)
    && r.kind in ALLOWED_TYPES && IsSlug(r.kind) && r.kind != ""
    && r.severity in ALLOWED_SEVERITIES && IsSlug(r.severity) && r.severity != ""
    && r.enabled.Some?
    && 1 <= r.window <= MAX_WINDOW_MINUTES && 1 <= r.cooldown <= MAX_COOLDOWN_MINUTES
    && NormalMitre(r.mitre) && r.otherFilters == []
  }

  /** What the fields of the rule's own kind satisfy. */
  ghost predicate NormalKind(r: Rule) {
    if r.kind == "correlation" then
      && r.threshold == 0 && r.groupBy == ""
      && r.joinOn in ALLOWED_GROUP_BY && Stripped(r.joinOn) && r.joinOn != ""
      && r.steps.Some? && 2 <= |r.steps.value| <= MAX_CORRELATION_STEPS && NormalSteps(r.steps.value)
      && r.filters == FirstMatch(r.steps.value, 0)
    else
      && r.joinOn == "" && r.steps.None? && NormalMatch(r.filters)
      && if r.kind == "threshold" then
           1 <= r.threshold <= MAX_THRESHOLD && r.groupBy in ALLOWED_GROUP_BY && Stripped(r.groupBy) && r.groupBy != ""
         else r.threshold == 0 && r.groupBy == ""
  }

  ghost predicate Normal(r: Rule) {
    NormalCommon(r) && NormalKind(r)
  }

  /** The rule with every text stripped that validation may have cut. */
  function StripRule(r: Rule): Rule {
    r.(title := Strip(r.title), description := Strip(r.description), threatBrief := Strip(r.threatBrief),
       filters := StripMatch(r.filters, |r.filters|),
       steps := match r.steps case None => None case Some(ss) => Some(StripSteps(ss, |ss|)))
  }

  ghost predicate MatchStripped(d: MatchDict) {
    forall i :: 0 <= i < |d| ==>
      match d[i].1
      case One(t) => Stripped(t)
      case Many(ts) => forall j :: 0 <= j < |ts| ==> Stripped(ts[j])
  }

  /** No text of the rule ends in a blank: none was cut just after one. */
  ghost predicate NoBlankEnds(r: Rule) {
    && Stripped(r.title) && Stripped(r.description) && Stripped(r.threatBrief)
    && MatchStripped(r.filters)
    && (r.steps.Some? ==> forall i :: 0 <= i < |r.steps.value| && r.steps.value[i].RuleStep? ==> MatchStripped(r.steps.value[i].filters))
  }

  /** What the checks of validation establish, step by step. */
  lemma ChecksPassed(d: Rule)
    requires Validate(d).Ok?
    ensures var out := Common(d, NoMitre);
            && ValidId(out.id) && out.name != "" && |out.name| <= MAX_RULE_NAME
            && out.kind in ALLOWED_TYPES && out.severity in ALLOWED_SEVERITIES
    ensures NormalizeMitre(d.mitre).Ok?
    ensures var out := Common(d, NormalizeMitre(d.mitre).value);
            Validate(d) == if out.kind == "correlation" then ValidateCorrelation(d, out) else ValidateFiltered(d, out)
  {
    hide ValidId, NormalizeMitre, ValidateCorrelation, ValidateFiltered, Clean, Slug, Clamp;
  }

  lemma NameCleaned(name: string)
    requires Stripped(name) && |name| <= MAX_RULE_NAME
    ensures Cleaned(name, MAX_RULE_NAME)
  {
  }

  lemma NotEmptySets()
    ensures "" !in ALLOWED_TYPES && "" !in ALLOWED_SEVERITIES && "" !in ALLOWED_GROUP_BY && "" !in ALLOWED_IOC_TYPES
  {
  }

  lemma CommonNormal(d: Rule, mitre: Mitre)
    requires Validate(d).Ok? && NormalMitre(mitre)
    ensures NormalCommon(Common(d, mitre))
  {
    hide Validate, ValidId, NormalMitre, Cleaned, IsSlug, Slug;
    var name := Strip(d.name);
    ChecksPassed(d);
    SlugIsSlug(d.id);
    StripIsStripped(d.name);
    CleanIsCleaned(Or(d.title, name), MAX_RULE_NAME);
    NameCleaned(name);
    CleanIsCleaned(d.description, MAX_RULE_TEXT);
    CleanIsCleaned(d.threatBrief, MAX_RULE_TEXT);
    SlugIsSlug(Or(d.kind, "match"));
    SlugIsSlug(Or(d.severity, "medium"));
    NotEmptySets();
  }

  lemma CorrelationNormal(d: Rule, out: Rule)
    requires out.kind == "correlation" && out.threshold == 0 && out.groupBy == "" && ValidateCorrelation(d, out).Ok?
    ensures NormalKind(ValidateCorrelation(d, out).value)
  {
    hide NormalStep, NormalMatch, CleanSteps, Strip;
    NotEmptySets();
    StripIsStripped(Or(d.joinOn, "src_ip"));
    CleanStepsNormal(d.steps.value, |d.steps.value|);
  }

  lemma FilteredNormal(d: Rule, out: Rule)
    requires out.kind != "correlation" && out.threshold == 0 && out.groupBy == "" && out.joinOn == "" && out.steps.None?
    requires ValidateFiltered(d, out).Ok?
    ensures NormalKind(ValidateFiltered(d, out).value)
  {
    hide NormalMatch, CleanMatch, Strip;
    NotEmptySets();
    CleanMatchNormal(OrMatch(d.filters, d.otherFilters));
    StripIsStripped(Or(d.groupBy, "user"));
  }

  /** The common part of the normal form does not speak of the fields of a rule's own kind. */
  lemma CommonOnly(a: Rule, b: Rule)
    requires NormalCommon(a)
    requires b == a.(filters := b.filters, threshold := b.threshold, groupBy := b.groupBy, joinOn := b.joinOn, steps := b.steps)
    ensures NormalCommon(b)
  {
    hide ValidId, NormalMitre, Cleaned, IsSlug;
  }

  /** Validation only lets through rules in normal form, with all numbers in range. */
  lemma ValidatedIsNormal(d: Rule)
    requires Validate(d).Ok?
    ensures Normal(Validate(d).value)
  {
    hide Validate, NormalizeMitre, NormalMitre, NormalCommon, NormalKind, CleanMatch, CleanSteps, Strip, Clean, Slug, Clamp;
    ChecksPassed(d);
    NormalizeMitreStable(d.mitre);
    var out := Common(d, NormalizeMitre(d.mitre).value);
    CommonNormal(d, out.mitre);
    if out.kind == "correlation" {
      CorrelationNormal(d, out);
    } else {
      FilteredNormal(d, out);
    }
    CommonOnly(out, Validate(d).value);
  }

  lemma CommonAgain(r: Rule)
    requires NormalCommon(r)
    ensures Common(r, r.mitre) == StripRule(r).(filters := [], threshold := 0, groupBy := "", joinOn := "", steps := None)
    ensures Strip(r.title) != ""
  {
    hide ValidId, NormalMitre, Cleaned, IsSlug, Slug, Clean;
    SlugAgain(r.id);
    SlugAgain(r.kind);
    SlugAgain(r.severity);
    StripIsStripped(r.name);
    CleanAgain(r.title, MAX_RULE_NAME);
    CleanAgain(r.description, MAX_RULE_TEXT);
    CleanAgain(r.threatBrief, MAX_RULE_TEXT);
  }

  lemma CommonMitre(r: Rule)
    ensures Common(r, NoMitre) == Common(r, r.mitre).(mitre := NoMitre)
  {
  }

  lemma CorrelationAgain(r: Rule)
    requires Normal(r) && r.kind == "correlation"
    ensures ValidateCorrelation(r, StripRule(r).(filters := [], threshold := 0, groupBy := "", joinOn := "", steps := None))
         == Ok(StripRule(r))
  {
    hide NormalCommon, NormalStep, NormalMatch;
    StripIsStripped(r.joinOn);
    CleanStepsNormal(r.steps.value, |r.steps.value|);
    FirstMatchStripped(r.steps.value, 0);
  }

  lemma FilteredAgain(r: Rule)
    requires Normal(r) && r.kind != "correlation"
    ensures ValidateFiltered(r, StripRule(r).(filters := [], threshold := 0, groupBy := "", joinOn := "", steps := None))
         == Ok(StripRule(r))
  {
    hide NormalCommon, CleanMatch;
    CleanMatchAgain(r.filters);
    if r.kind == "threshold" {
      StripIsStripped(r.groupBy);
    }
  }

  /** Validating a rule in normal form accepts it, and only strips its texts. */
  lemma ValidateNormal(r: Rule)
    requires Normal(r)
    ensures Validate(r) == Ok(StripRule(r))
  {
    hide ValidId, NormalizeMitre, NormalMitre, CleanMatch, NormalMatch, NormalStep, CleanSteps, Cleaned, IsSlug, Common,
      ValidateCorrelation, ValidateFiltered;
    CommonAgain(r);
    NormalizeMitreStable(r.mitre);
    CommonMitre(r);
    if r.kind == "correlation" {
      CorrelationAgain(r);
    } else {
      FilteredAgain(r);
    }
  }

  function Bare(id: string, name: string, filters: MatchDict, otherFilters: MatchDict): Rule {
    Rule(id, name, "", "", "", "", "", None, 0, 0, NoMitre, filters, otherFilters, 0, "", "", None)
  }

  lemma SlugConstants()
    ensures Slug("match") == "match" && Slug("medium") == "medium"
  {
    StripIsStripped("match");
    StripIsStripped("medium");
    assert Lower("match") == "match" && Lower("medium") == "medium";
  }

  /** What validation fills in: a payload of an id, a name and filters is an enabled match rule of medium
      severity with its name as title, a window of 10 and a cooldown of 15 minutes; the filters may come
      under either of their two names. */
  lemma DefaultsFilledIn(id: string, name: string, filters: MatchDict)
    requires ValidId(id) && IsSlug(id) && Stripped(name) && 0 < |name| <= MAX_RULE_NAME && CleanMatch(filters).Ok?
    ensures Validate(Bare(id, name, filters, [])) ==
              Ok(Rule(id, name, name, "", "", "match", "medium", Some(true), 10, 15, NoMitre,
                      CleanMatch(filters).value, [], 0, "", "", None))
    ensures Validate(Bare(id, name, [], filters)) == Validate(Bare(id, name, filters, []))
  {
    hide ValidId, IsSlug, CleanMatch;
    SlugAgain(id);
    StripIsStripped(name);
    SlugConstants();
  }

  lemma StepsStripNormal(ss: seq<RuleStep>)
    requires NormalSteps(ss)
    ensures NormalSteps(StripSteps(ss, |ss|))
    ensures StripSteps(StripSteps(ss, |ss|), |ss|) == StripSteps(ss, |ss|)
  {
    hide NormalStep, StripStep, StripSteps;
    forall i | 0 <= i < |ss| ensures NormalStep(StripStep(ss[i])) && StripStep(StripStep(ss[i])) == StripStep(ss[i]) {
      CleanStepNormal(ss[i]);
    }
  }

  lemma StripRuleNormal(r: Rule)
    requires Normal(r)
    ensures Normal(StripRule(r)) && StripRule(StripRule(r)) == StripRule(r)
  {
    hide ValidId, NormalMitre, NormalMatch, NormalStep, Cleaned, IsSlug;
    CleanAgain(r.title, MAX_RULE_NAME);
    CleanAgain(r.description, MAX_RULE_TEXT);
    CleanAgain(r.threatBrief, MAX_RULE_TEXT);
    if r.kind == "correlation" {
      StepsStripNormal(r.steps.value);
      FirstMatchStripped(r.steps.value, 0);
    }
    CleanMatchAgain(r.filters);
  }

  /** A validated rule is always accepted again, and validating twice always reaches a fixed point. */
  lemma ValidateTwiceIsFixed(d: Rule)
    requires Validate(d).Ok?
    ensures var once := Validate(d).value;
            Validate(once).Ok? && Validate(Validate(once).value) == Validate(once)
  {
    var once := Validate(d).value;
    ValidatedIsNormal(d);
    ValidateNormal(once);
    StripRuleNormal(once);
    ValidateNormal(StripRule(once));
  }

  lemma {:induction false} MatchStrippedIff(d: MatchDict)
    ensures StripMatch(d, |d|) == d <==> MatchStripped(d)
  {
    forall i | 0 <= i < |d|
      ensures StripValue(d[i].1) == d[i].1 <==>
                match d[i].1 case One(t) => Stripped(t) case Many(ts) => forall j :: 0 <= j < |ts| ==> Stripped(ts[j])
    {
      match d[i].1
      case One(t) => StripIsStripped(t);
      case Many(ts) =>
        forall j | 0 <= j < |ts| ensures Strip(ts[j]) == ts[j] <==> Stripped(ts[j]) {
          StripIsStripped(ts[j]);
        }
        assert StripTexts(ts, |ts|) == ts <==> forall j :: 0 <= j < |ts| ==> Stripped(ts[j]);
    }
    if StripMatch(d, |d|) == d {
      forall i | 0 <= i < |d| ensures StripValue(d[i].1) == d[i].1 {
        assert StripMatch(d, |d|)[i] == d[i];
      }
    }
  }

  lemma StepsStrippedIff(ss: seq<RuleStep>)
    ensures StripSteps(ss, |ss|) == ss <==>
              forall i :: 0 <= i < |ss| && ss[i].RuleStep? ==> MatchStripped(ss[i].filters)
  {
    forall i | 0 <= i < |ss| && ss[i].RuleStep? ensures StripStep(ss[i]) == ss[i] <==> MatchStripped(ss[i].filters) {
      MatchStrippedIff(ss[i].filters);
    }
    if StripSteps(ss, |ss|) == ss {
      forall i | 0 <= i < |ss| ensures StripStep(ss[i]) == ss[i] {
        assert StripSteps(ss, |ss|)[i] == ss[i];
      }
    }
  }

  // ---------------------------------------------------------------- texts cut just after a blank

  /** The stripped text is too long, and the last character that stays of it is a blank. */
  predicate CutAfterBlank(s: string, max: nat) {
    |Strip(s)| > max > 0 && IsSpace(Strip(s)[max - 1])
  }

  lemma CutLeavesBlank(s: string, max: nat)
    requires max > 0
    ensures Stripped(Clean(s, max)) <==> !CutAfterBlank(s, max)
  {
    StripIsStripped(s);
  }

  predicate HasText(v: MatchValue) {
    match v
    case One(t) => Strip(t) != ""
    case Many(ts) => exists i :: 0 <= i < |ts| && Strip(ts[i]) != ""
  }

  predicate ValueCut(v: MatchValue) {
    match v
    case One(t) => CutAfterBlank(t, MAX_MATCH_VALUE_LEN)
    case Many(ts) => exists i :: 0 <= i < |ts| && CutAfterBlank(ts[i], MAX_MATCH_VALUE_LEN)
  }

  /** Item `i` is not skipped, and none of the items after it, among the first `n`, replaces it. */
  predicate Survives(d: MatchDict, i: nat, n: nat)
    requires i < n <= |d|
  {
    && Strip(d[i].0) != "" && HasText(d[i].1)
    && forall j :: i < j < n && Strip(d[j].0) == Strip(d[i].0) ==> !HasText(d[j].1)
  }

  predicate MatchCut(d: MatchDict) {
    exists i :: 0 <= i < |d| && Survives(d, i, |d|) && ValueCut(d[i].1)
  }

  predicate StepCut(s: RuleStep) {
    s.RuleStep? && s.enrich.None? && MatchCut(s.filters)
  }

  /** Some text that validation keeps of the payload is cut just after a blank. */
  predicate TextCutAfterBlank(d: Rule) {
    || CutAfterBlank(d.title, MAX_RULE_NAME)
    || CutAfterBlank(d.description, MAX_RULE_TEXT)
    || CutAfterBlank(d.threatBrief, MAX_RULE_TEXT)
    || if Slug(Or(d.kind, "match")) == "correlation" then
         d.steps.Some? && exists i :: 0 <= i < |d.steps.value| && StepCut(d.steps.value[i])
       else MatchCut(OrMatch(d.filters, d.otherFilters))
  }

  predicate AllStripped(texts: seq<string>) {
    forall i :: 0 <= i < |texts| ==> Stripped(texts[i])
  }

  predicate ValueStripped(v: MatchValue) {
    match v
    case One(t) => Stripped(t)
    case Many(ts) => AllStripped(ts)
  }

  lemma NothingToStrip()
    ensures AllStripped([])
  {
  }

  lemma AllStrippedPlus(texts: seq<string>, last: string)
    ensures AllStripped(texts + [last]) <==> AllStripped(texts) && Stripped(last)
  {
    var more := texts + [last];
    assert more[|texts|] == last && forall i :: 0 <= i < |texts| ==> more[i] == texts[i];
  }

  lemma BlankNotCut(t: string)
    ensures Strip(t) == "" ==> !CutAfterBlank(t, MAX_MATCH_VALUE_LEN)
  {
  }

  lemma {:induction false} TextsCut(ts: seq<string>, n: nat)
    requires n <= |ts|
    ensures AllStripped(CleanTexts(ts, n)) <==>
              forall i :: 0 <= i < n ==> !CutAfterBlank(ts[i], MAX_MATCH_VALUE_LEN)
  {
    hide CutAfterBlank, Clean, Strip, Stripped, AllStripped;
    NothingToStrip();
    if n > 0 {
      var rest, last := CleanTexts(ts, n - 1), Clean(ts[n - 1], MAX_MATCH_VALUE_LEN);
      TextsCut(ts, n - 1);
      CutLeavesBlank(ts[n - 1], MAX_MATCH_VALUE_LEN);
      BlankNotCut(ts[n - 1]);
      if Strip(ts[n - 1]) != "" {
        AllStrippedPlus(rest, last);
      } else {
        assert CleanTexts(ts, n) == rest;
      }
    }
  }

  lemma {:induction false} TextsLeft(ts: seq<string>, n: nat)
    requires n <= |ts|
    ensures CleanTexts(ts, n) == [] <==> forall i :: 0 <= i < n ==> Strip(ts[i]) == ""
  {
    hide Strip, Clean;
    if n > 0 {
      TextsLeft(ts, n - 1);
    }
  }

  lemma ValueCutLeavesBlank(v: MatchValue)
    ensures CleanValue(v).Some? <==> HasText(v)
    ensures CleanValue(v).Some? ==> (ValueStripped(CleanValue(v).value) <==> !ValueCut(v))
  {
    match v
    case One(t) =>
      CleanIsCleaned(t, MAX_MATCH_VALUE_LEN);
      CutLeavesBlank(t, MAX_MATCH_VALUE_LEN);
    case Many(ts) =>
      TextsCut(ts, |ts|);
      TextsLeft(ts, |ts|);
  }

  lemma {:induction false} PutHas(d: MatchDict, k: string, v: MatchValue, p: (string, MatchValue))
    requires DistinctKeys(d)
    ensures p in Put(d, k, v) <==> p == (k, v) || (p in d && p.0 != k)
  {
    if d != [] {
      var tail := d[1..];
      assert forall i :: 0 <= i < |tail| ==> tail[i] == d[i + 1];
      assert d == [d[0]] + tail;
      if d[0].0 != k {
        PutHas(tail, k, v, p);
      }
    }
  }

  /** Cleaned filters hold exactly the surviving items, with their cleaned values. */
  lemma {:induction false} SurvivorsKept(d: MatchDict, n: nat, p: (string, MatchValue))
    requires n <= |d| && CleanItems(d, n).Ok?
    ensures p in CleanItems(d, n).value <==>
              exists i :: 0 <= i < n && Survives(d, i, n) && p == (Strip(d[i].0), CleanValue(d[i].1).GetOr(p.1))
  {
    hide AllowedKey, CleanValue, HasText, Strip;
    if n > 0 {
      SurvivorsKept(d, n - 1, p);
      CleanItemsNormal(d, n - 1);
      ValueCutLeavesBlank(d[n - 1].1);
      var k := Strip(d[n - 1].0);
      if k != "" && HasText(d[n - 1].1) {
        var v := CleanValue(d[n - 1].1).value;
        PutHas(CleanItems(d, n - 1).value, k, v, p);
        assert Survives(d, n - 1, n);
        assert forall i :: 0 <= i < n - 1 ==> (Survives(d, i, n) <==> Survives(d, i, n - 1) && Strip(d[i].0) != k);
      } else {
        assert forall i :: 0 <= i < n - 1 ==> (Survives(d, i, n) <==> Survives(d, i, n - 1));
      }
    }
  }

  lemma SurvivorHasText(d: MatchDict, i: nat)
    requires i < |d| && Survives(d, i, |d|)
    ensures HasText(d[i].1)
  {
  }

  lemma MatchCutLeavesBlank(d: MatchDict)
    requires CleanMatch(d).Ok?
    ensures MatchStripped(CleanMatch(d).value) <==> !MatchCut(d)
  {
    hide CleanItems, CleanValue, HasText, ValueCut, Survives, Strip;
    var r := CleanMatch(d).value;
    assert MatchStripped(r) <==> forall i :: 0 <= i < |r| ==> ValueStripped(r[i].1);
    forall i | 0 <= i < |d| && Survives(d, i, |d|) ensures CleanValue(d[i].1).Some? {
      assert HasText(d[i].1) by { SurvivorHasText(d, i); }
      ValueCutLeavesBlank(d[i].1);
    }
    if MatchCut(d) {
      var i :| 0 <= i < |d| && Survives(d, i, |d|) && ValueCut(d[i].1);
      var p := (Strip(d[i].0), CleanValue(d[i].1).value);
      ValueCutLeavesBlank(d[i].1);
      SurvivorsKept(d, |d|, p);
      assert p in r;
    } else {
      forall m | 0 <= m < |r| ensures ValueStripped(r[m].1) {
        SurvivorsKept(d, |d|, r[m]);
        var i :| 0 <= i < |d| && Survives(d, i, |d|) && r[m] == (Strip(d[i].0), CleanValue(d[i].1).GetOr(r[m].1));
        ValueCutLeavesBlank(d[i].1);
      }
    }
  }

  lemma StepCutLeavesBlank(s: RuleStep)
    requires CleanStep(s).Ok?
    ensures CleanStep(s).value.RuleStep? && (MatchStripped(CleanStep(s).value.filters) <==> !StepCut(s))
  {
    hide CleanMatch, CleanEnrich, MatchCut;
    if s.enrich.None? {
      MatchCutLeavesBlank(s.filters);
    }
  }

  lemma {:induction false} StepsCleanedEach(ss: seq<RuleStep>, n: nat)
    requires n <= |ss| && CleanSteps(ss, n).Ok?
    ensures |CleanSteps(ss, n).value| == n
    ensures forall i :: 0 <= i < n ==> CleanStep(ss[i]) == Ok(CleanSteps(ss, n).value[i])
  {
    hide CleanStep;
    if n > 0 {
      StepsCleanedEach(ss, n - 1);
    }
  }

  lemma StepsCutLeaveBlank(ss: seq<RuleStep>)
    requires CleanSteps(ss, |ss|).Ok?
    ensures var r := CleanSteps(ss, |ss|).value;
            (forall i :: 0 <= i < |r| && r[i].RuleStep? ==> MatchStripped(r[i].filters))
            <==> !exists i :: 0 <= i < |ss| && StepCut(ss[i])
  {
    hide CleanStep, CleanSteps, StepCut, MatchStripped;
    StepsCleanedEach(ss, |ss|);
    var r := CleanSteps(ss, |ss|).value;
    forall i | 0 <= i < |ss| ensures r[i].RuleStep? && (MatchStripped(r[i].filters) <==> !StepCut(ss[i])) {
      StepCutLeavesBlank(ss[i]);
    }
  }

  lemma PlaceholderStripped()
    ensures MatchStripped(PLACEHOLDER_MATCH)
  {
  }

  lemma {:induction false} FirstMatchIsStripped(ss: seq<RuleStep>, i: nat)
    requires i <= |ss| && forall j :: 0 <= j < |ss| && ss[j].RuleStep? ==> MatchStripped(ss[j].filters)
    ensures MatchStripped(FirstMatch(ss, i))
    decreases |ss| - i
  {
    hide MatchStripped;
    if i == |ss| {
      PlaceholderStripped();
    } else {
      FirstMatchIsStripped(ss, i + 1);
    }
  }

  lemma TitleCut(d: Rule)
    requires Strip(d.name) != "" && |Strip(d.name)| <= MAX_RULE_NAME
    ensures Stripped(Or(Clean(Or(d.title, Strip(d.name)), MAX_RULE_NAME), Strip(d.name))) <==> !CutAfterBlank(d.title, MAX_RULE_NAME)
  {
    StripIsStripped(d.name);
    StripIsStripped(Strip(d.name));
    StripIsStripped("");
    CutLeavesBlank(d.title, MAX_RULE_NAME);
  }

  lemma BlankEndsAreCuts(d: Rule)
    requires Validate(d).Ok?
    ensures NoBlankEnds(Validate(d).value) <==> !TextCutAfterBlank(d)
  {
    hide Validate, ValidId, Clean, Slug, CutAfterBlank, NormalizeMitre, CleanMatch, CleanSteps, MatchCut, StepCut, MatchStripped, Strip,
      Stripped, Clamp;
    ChecksPassed(d);
    TitleCut(d);
    CutLeavesBlank(d.description, MAX_RULE_TEXT);
    CutLeavesBlank(d.threatBrief, MAX_RULE_TEXT);
    if Slug(Or(d.kind, "match")) == "correlation" {
      StepsCutLeaveBlank(d.steps.value);
      var ss := CleanSteps(d.steps.value, |d.steps.value|).value;
      if forall i :: 0 <= i < |ss| && ss[i].RuleStep? ==> MatchStripped(ss[i].filters) {
        FirstMatchIsStripped(ss, 0);
      }
    } else {
      MatchCutLeavesBlank(OrMatch(d.filters, d.otherFilters));
    }
  }

  lemma StripsNothing(r: Rule)
    ensures StripRule(r) == r <==> NoBlankEnds(r)
  {
    StripIsStripped(r.title);
    StripIsStripped(r.description);
    StripIsStripped(r.threatBrief);
    MatchStrippedIff(r.filters);
    if r.steps.Some? {
      StepsStrippedIff(r.steps.value);
    }
  }

  /** Validating once reaches a fixed point if and only if no text of the payload was cut just after a blank. */
  lemma FixedAfterOncePrecisely(d: Rule)
    requires Validate(d).Ok?
    ensures var once := Validate(d).value;
            Validate(once) == Ok(once) <==> !TextCutAfterBlank(d)
  {
    hide Validate, Normal, NoBlankEnds, TextCutAfterBlank, StripRule;
    var r := Validate(d).value;
    ValidatedIsNormal(d);
    ValidateNormal(r);
    StripsNothing(r);
    BlankEndsAreCuts(d);
  }

  /** 4001 characters, the last but one of them a blank. */
  const LONG_TEXT: string := seq(MAX_RULE_TEXT + 1, i => if i == MAX_RULE_TEXT - 1 then ' ' else 'x')

  lemma LongTextCut(d: Rule)
    ensures TextCutAfterBlank(d.(description := LONG_TEXT))
  {
    StripIsStripped(LONG_TEXT);
  }

  /** Whether a payload is accepted does not depend on its description. */
  lemma DescriptionApart(d: Rule, text: string)
    ensures Validate(d.(description := text)).Ok? <==> Validate(d).Ok?
  {
    hide ValidId, Slug, NormalizeMitre, CleanMatch, CleanSteps, Clamp, Clean, Strip;
  }

  /** A failing input: every payload that is accepted is also accepted with this description, but then
      validating it once more changes it. */
  lemma OneValidationNotEnough(d: Rule)
    requires Validate(d).Ok?
    ensures var cut := Validate(d.(description := LONG_TEXT));
            cut.Ok? && Validate(cut.value).Ok? && Validate(cut.value) != cut
  {
    hide ValidId, Slug, NormalizeMitre, CleanMatch, CleanSteps, Clamp, TextCutAfterBlank, CleanItems;
    var e := d.(description := LONG_TEXT);
    DescriptionApart(d, LONG_TEXT);
    StripIsStripped(LONG_TEXT);
    assert TextCutAfterBlank(e) by { LongTextCut(d); }
    FixedAfterOncePrecisely(e);
    ValidateTwiceIsFixed(e);
  }

  // ---------------------------------------------------------------- what is accepted, and what becomes of it

  predicate IdSymbol(c: char) {
    c in LOWER || c in "0123456789"
  }

  lemma SymbolsRead(c: char)
    ensures IdSymbol(c) <==> 'a' <= c <= 'z' || IsDigit(c)
  {
    hide LOWER;
    LetterAt(0);
    forall k | 0 <= k < 26 ensures LOWER[k] == ('a' as int + k) as char {
      LetterAt(k);
    }
    if 'a' <= c <= 'z' {
      assert LOWER[c as int - 'a' as int] == c;
    } else if IsDigit(c) {
      assert "0123456789"[c as int - '0' as int] == c;
    }
  }

  /** An id is 2 to 63 small letters, digits, underscores and hyphens, with neither of the last two in front. */
  lemma IdsRead(id: string)
    ensures ValidId(id) <==> 2 <= |id| <= 63 && IdSymbol(id[0]) && forall i :: 1 <= i < |id| ==> IdSymbol(id[i]) || id[i] == '_' || id[i] == '-'
  {
    hide IdSymbol;
    forall c: char ensures IdSymbol(c) <==> 'a' <= c <= 'z' || IsDigit(c) {
      SymbolsRead(c);
    }
  }

  lemma {:induction false} UpperAllReads(ps: seq<string>, n: nat)
    requires n <= |ps|
    ensures UpperAll(ps, n).Ok? <==> forall i :: 0 <= i < n ==> IsTechnique(ps[i])
    ensures UpperAll(ps, n).Ok? ==>
              |UpperAll(ps, n).value| == n && forall i :: 0 <= i < n ==> UpperAll(ps, n).value[i] == "T" + ps[i][1..]
  {
    hide IsTechnique;
    if n > 0 {
      UpperAllReads(ps, n - 1);
    }
  }

  /** Techniques are accepted iff the first eight are well formed, and then those are kept, with a capital T. */
  lemma TechniquesRead(m: Mitre)
    ensures var ps := Parts(m);
            var n := if |ps| <= 8 then |ps| else 8;
            && (NormalizeMitre(m).Ok? <==> forall i :: 0 <= i < n ==> IsTechnique(ps[i]))
            && (NormalizeMitre(m).Ok? && n == 0 ==> NormalizeMitre(m).value == NoMitre)
            && (NormalizeMitre(m).Ok? && n > 0 ==>
                  exists us: seq<string> :: && NormalizeMitre(m).value == Techniques(Join(us)) && |us| == n
                                            && forall i :: 0 <= i < n ==> us[i] == "T" + ps[i][1..])
  {
    var ps := FirstTechniques(Parts(m));
    assert forall i :: 0 <= i < |ps| ==> ps[i] == Parts(m)[i];
    UpperAllReads(ps, |ps|);
  }

  lemma {:induction false} CleanItemsAccepts(d: MatchDict, n: nat)
    requires n <= |d|
    ensures CleanItems(d, n).Ok? <==> forall i :: 0 <= i < n && Strip(d[i].0) != "" ==> AllowedKey(Strip(d[i].0))
  {
    hide AllowedKey, CleanValue, Strip, Put;
    if n > 0 {
      CleanItemsAccepts(d, n - 1);
    }
  }

  lemma {:induction false} CleanItemsEmpty(d: MatchDict, n: nat)
    requires n <= |d| && CleanItems(d, n).Ok?
    ensures CleanItems(d, n).value == [] <==> forall i :: 0 <= i < n ==> Strip(d[i].0) == "" || !HasText(d[i].1)
  {
    hide AllowedKey, CleanValue, HasText, Strip;
    if n > 0 {
      CleanItemsEmpty(d, n - 1);
      ValueCutLeavesBlank(d[n - 1].1);
    }
  }

  /** Filters are accepted iff there are 1 to 20 items, every key that is not blank is allowed, and some such item
      has text. */
  lemma MatchAccepted(d: MatchDict)
    ensures CleanMatch(d).Ok? <==>
              && 1 <= |d| <= 20
              && (forall i :: 0 <= i < |d| && Strip(d[i].0) != "" ==> Strip(d[i].0) in ALLOWED_MATCH_KEYS)
              && exists i :: 0 <= i < |d| && Strip(d[i].0) != "" && HasText(d[i].1)
  {
    hide CleanItems, HasText, Strip;
    CleanItemsAccepts(d, |d|);
    if CleanItems(d, |d|).Ok? {
      CleanItemsEmpty(d, |d|);
    }
  }

  ghost function FirstOf(s: string, max: nat): string {
    if |s| > max then s[..max] else s
  }

  lemma {:induction false} TextsRead(ts: seq<string>, n: nat, t: string)
    requires n <= |ts|
    ensures t in CleanTexts(ts, n) <==> exists i :: 0 <= i < n && Strip(ts[i]) != "" && t == FirstOf(Strip(ts[i]), 256)
  {
    hide Strip;
    if n > 0 {
      TextsRead(ts, n - 1, t);
    }
  }

  /** A cleaned value: its text stripped and cut to 256 characters, or those of its texts that are not blank. */
  lemma CleanValueReads(v: MatchValue)
    requires HasText(v)
    ensures CleanValue(v).Some?
    ensures v.One? ==> CleanValue(v).value == One(FirstOf(Strip(v.text), 256))
    ensures v.Many? ==>
              CleanValue(v).value.Many? &&
              forall t :: t in CleanValue(v).value.texts <==>
                            exists i :: 0 <= i < |v.texts| && Strip(v.texts[i]) != "" && t == FirstOf(Strip(v.texts[i]), 256)
  {
    hide Strip;
    match v
    case One(t) =>
    case Many(ts) =>
      TextsLeft(ts, |ts|);
      forall t ensures t in CleanTexts(ts, |ts|) <==> exists i :: 0 <= i < |ts| && Strip(ts[i]) != "" && t == FirstOf(Strip(ts[i]), 256) {
        TextsRead(ts, |ts|, t);
      }
  }

  lemma {:induction false} CleanWordsReads(ws: seq<string>, allowed: set<string>, n: nat)
    requires n <= |ws|
    ensures CleanWords(ws, allowed, n).Ok? <==> forall i :: 0 <= i < n ==> Lower(Strip(ws[i])) in allowed
    ensures CleanWords(ws, allowed, n).Ok? ==>
              |CleanWords(ws, allowed, n).value| == n && forall i :: 0 <= i < n ==> CleanWords(ws, allowed, n).value[i] == Lower(Strip(ws[i]))
  {
    hide Lower, Strip;
    if n > 0 {
      CleanWordsReads(ws, allowed, n - 1);
    }
  }

  /** The words are those given, or the defaults if none are, in lower case and stripped. */
  ghost predicate WordsOf(given: seq<string>, defaults: seq<string>, words: seq<string>) {
    var ws := if given == [] then defaults else given;
    |words| == |ws| && forall i :: 0 <= i < |ws| ==> words[i] == Lower(Strip(ws[i]))
  }

  lemma SmallWord(w: string)
    requires forall i :: 0 <= i < |w| ==> 'a' <= w[i] <= 'z'
    ensures Lower(Strip(w)) == w
  {
    hide Strip;
    StripIsStripped(w);
  }

  lemma DefaultWords()
    ensures Lower(Strip("vt")) == "vt" && Lower(Strip("ip")) == "ip"
    ensures Lower(Strip("malicious")) == "malicious" && Lower(Strip("suspicious")) == "suspicious"
  {
    SmallWord("vt");
    SmallWord("ip");
    SmallWord("malicious");
    SmallWord("suspicious");
  }

  /** A step is accepted iff it asks for known providers, verdicts and a known type, or has accepted filters and a
      count in range; what it leaves out is filled in. */
  lemma StepRead(s: RuleStep)
    ensures s.NotAStep? ==> CleanStep(s).Err?
    ensures s.RuleStep? && s.enrich.None? ==>
              (CleanStep(s).Ok? <==> CleanMatch(s.filters).Ok? && 0 <= s.minCount <= 1_000_000)
    ensures s.RuleStep? && s.enrich.None? && CleanStep(s).Ok? ==>
              CleanStep(s).value == RuleStep(None, CleanMatch(s.filters).value, if s.minCount == 0 then 1 else s.minCount)
    ensures s.RuleStep? && s.enrich == Some(NotAnObject) ==> CleanStep(s).Err?
    ensures s.RuleStep? && s.enrich.Some? && s.enrich.value.Enrich? ==>
              var e := s.enrich.value;
              && (CleanStep(s).Ok? <==>
                    && (forall i :: 0 <= i < |e.providers| ==> Lower(Strip(e.providers[i])) in {"vt", "abuseipdb", "otx"})
                    && (forall i :: 0 <= i < |e.verdicts| ==>
                          Lower(Strip(e.verdicts[i])) in {"malicious", "suspicious", "harmless", "undetected", "unknown"})
                    && (e.iocType == "" || Lower(Strip(e.iocType)) in {"ip", "domain", "url"}))
              && (CleanStep(s).Ok? ==>
                    exists ps, vs :: && WordsOf(e.providers, ["vt"], ps) && WordsOf(e.verdicts, ["malicious", "suspicious"], vs)
                                     && CleanStep(s).value == RuleStep(Some(Enrich(ps, vs, if e.iocType == "" then "ip" else Lower(Strip(e.iocType)))), [], 0))
  {
    hide CleanMatch, Lower, Strip, CleanWords;
    DefaultWords();
    if s.RuleStep? && s.enrich.Some? && s.enrich.value.Enrich? {
      var e := s.enrich.value;
      var ps, vs := OrList(e.providers, ["vt"]), OrList(e.verdicts, ["malicious", "suspicious"]);
      CleanWordsReads(ps, ALLOWED_ENRICH_PROVIDERS, |ps|);
      CleanWordsReads(vs, ALLOWED_ENRICH_VERDICTS, |vs|);
      if CleanStep(s).Ok? {
        assert WordsOf(e.providers, ["vt"], CleanStep(s).value.enrich.value.providers);
        assert WordsOf(e.verdicts, ["malicious", "suspicious"], CleanStep(s).value.enrich.value.verdicts);
      }
    }
  }

  lemma {:induction false} CleanStepsAccepts(ss: seq<RuleStep>, n: nat)
    requires n <= |ss|
    ensures CleanSteps(ss, n).Ok? <==> forall i :: 0 <= i < n ==> CleanStep(ss[i]).Ok?
  {
    hide CleanStep;
    if n > 0 {
      CleanStepsAccepts(ss, n - 1);
    }
  }

  lemma Columns()
    ensures Strip("user") == "user" && Strip("src_ip") == "src_ip"
  {
    StripIsStripped("user");
    StripIsStripped("src_ip");
  }

  /** A payload is accepted if and only if its id, name, type, severity and techniques are good and so is what its
      type asks for: a known join and 2 to 4 good steps, or good filters, and for a threshold rule also a number
      in range and a known group. */
  lemma AcceptedPrecisely(d: Rule)
    ensures var kind, severity := if d.kind == "" then "match" else Lower(Strip(d.kind)), if d.severity == "" then "medium" else Lower(Strip(d.severity));
            var columns := {"user", "src_ip", "host", "action", "source_type", "event_id"};
            Validate(d).Ok? <==>
              && ValidId(Lower(Strip(d.id))) && 1 <= |Strip(d.name)| <= 256
              && kind in {"match", "threshold", "correlation"} && severity in {"critical", "high", "medium", "low", "info"}
              && NormalizeMitre(d.mitre).Ok?
              && if kind == "correlation" then
                   && (d.joinOn == "" || Strip(d.joinOn) in columns)
                   && d.steps.Some? && 2 <= |d.steps.value| <= 4
                   && forall i :: 0 <= i < |d.steps.value| ==> CleanStep(d.steps.value[i]).Ok?
                 else
                   && CleanMatch(if d.filters == [] then d.otherFilters else d.filters).Ok?
                   && (kind == "threshold" ==> 1 <= d.threshold <= 1_000_000 && (d.groupBy == "" || Strip(d.groupBy) in columns))
  {
    hide ValidId, NormalizeMitre, CleanMatch, CleanSteps, CleanStep, Lower, Strip, Clean, Clamp;
    SmallWord("match");
    SmallWord("medium");
    Columns();
    if d.steps.Some? {
      CleanStepsAccepts(d.steps.value, |d.steps.value|);
    }
  }

  lemma TitleReads(d: Rule)
    requires Strip(d.name) != "" && |Strip(d.name)| <= MAX_RULE_NAME
    ensures Or(Clean(Or(d.title, Strip(d.name)), MAX_RULE_NAME), Strip(d.name))
         == if Strip(d.title) == "" then Strip(d.name) else FirstOf(Strip(d.title), 256)
  {
    hide Strip;
    StripIsStripped(d.name);
    StripIsStripped(Strip(d.name));
    StripIsStripped("");
  }

  lemma NumbersClamped(n: int, default: int)
    requires 1 <= default <= 10080
    ensures Clamp(n, default, 10080) == if n == 0 then default else if n < 1 then 1 else if n > 10080 then 10080 else n
  {
  }

  lemma CutReads(text: string)
    ensures Clean(text, MAX_RULE_TEXT) == FirstOf(Strip(text), 4000)
  {
    hide Strip;
  }

  lemma CommonRead(d: Rule, mitre: Mitre)
    requires Strip(d.name) != "" && |Strip(d.name)| <= MAX_RULE_NAME
    ensures var r := Common(d, mitre);
            && r.id == Lower(Strip(d.id)) && r.name == Strip(d.name)
            && r.title == (if Strip(d.title) == "" then Strip(d.name) else FirstOf(Strip(d.title), 256))
            && r.description == FirstOf(Strip(d.description), 4000) && r.threatBrief == FirstOf(Strip(d.threatBrief), 4000)
            && r.kind == (if d.kind == "" then "match" else Lower(Strip(d.kind)))
            && r.severity == (if d.severity == "" then "medium" else Lower(Strip(d.severity)))
            && r.enabled == Some(d.enabled.None? || d.enabled.value)
            && r.window == (if d.window == 0 then 10 else if d.window < 1 then 1 else if d.window > 10080 then 10080 else d.window)
            && r.cooldown == (if d.cooldown == 0 then 15 else if d.cooldown < 1 then 1 else if d.cooldown > 10080 then 10080 else d.cooldown)
  {
    hide Lower, Strip, Clamp, Clean;
    SmallWord("match");
    SmallWord("medium");
    TitleReads(d);
    NumbersClamped(d.window, 10);
    NumbersClamped(d.cooldown, 15);
    CutReads(d.description);
    CutReads(d.threatBrief);
  }

  /** What becomes of the fields of an accepted payload: words and texts cleaned, numbers brought into their range,
      what is left out filled in. */
  lemma FieldsRead(d: Rule)
    requires Validate(d).Ok?
    ensures var r := Validate(d).value;
            && r.id == Lower(Strip(d.id)) && r.name == Strip(d.name)
            && r.title == (if Strip(d.title) == "" then Strip(d.name) else FirstOf(Strip(d.title), 256))
            && r.description == FirstOf(Strip(d.description), 4000) && r.threatBrief == FirstOf(Strip(d.threatBrief), 4000)
            && r.kind == (if d.kind == "" then "match" else Lower(Strip(d.kind)))
            && r.severity == (if d.severity == "" then "medium" else Lower(Strip(d.severity)))
            && r.enabled == Some(d.enabled.None? || d.enabled.value)
            && r.window == (if d.window == 0 then 10 else if d.window < 1 then 1 else if d.window > 10080 then 10080 else d.window)
            && r.cooldown == (if d.cooldown == 0 then 15 else if d.cooldown < 1 then 1 else if d.cooldown > 10080 then 10080 else d.cooldown)
            && Ok(r.mitre) == NormalizeMitre(d.mitre)
            && (r.kind == "threshold" ==> r.threshold == d.threshold && r.groupBy == if d.groupBy == "" then "user" else Strip(d.groupBy))
            && (r.kind != "correlation" ==> Ok(r.filters) == CleanMatch(if d.filters == [] then d.otherFilters else d.filters))
            && (r.kind == "correlation" ==>
                  && r.joinOn == (if d.joinOn == "" then "src_ip" else Strip(d.joinOn))
                  && r.steps.Some? && d.steps.Some? && |r.steps.value| == |d.steps.value|
                  && forall i :: 0 <= i < |r.steps.value| ==> Ok(r.steps.value[i]) == CleanStep(d.steps.value[i]))
  {
    hide Validate, NormalizeMitre, CleanMatch, CleanSteps, CleanStep, Lower, Strip, Clamp, Clean, ValidId;
    ChecksPassed(d);
    var mitre := NormalizeMitre(d.mitre).value;
    CommonRead(d, mitre);
    Columns();
    if Common(d, mitre).kind == "correlation" {
      StepsCleanedEach(d.steps.value, |d.steps.value|);
    }
  }

  ghost predicate IsFirstWithFilters(ss: seq<RuleStep>, i: nat, j: nat)
    requires i <= j < |ss|
  {
    && ss[j].RuleStep? && ss[j].filters != []
    && forall l :: i <= l < j ==> ss[l].NotAStep? || ss[l].filters == []
  }

  /** The filters shown for a correlation are those of its first step that has some, or a placeholder. */
  lemma {:induction false} FirstFiltersShown(ss: seq<RuleStep>, i: nat)
    requires i <= |ss|
    ensures (forall j :: i <= j < |ss| ==> ss[j].NotAStep? || ss[j].filters == []) ==> FirstMatch(ss, i) == [("source_type", One("windows"))]
    ensures forall j :: i <= j < |ss| && IsFirstWithFilters(ss, i, j) ==> FirstMatch(ss, i) == ss[j].filters
    decreases |ss| - i
  {
    if i < |ss| {
      FirstFiltersShown(ss, i + 1);
    }
  }
}
