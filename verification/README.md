# Verification of the DarkGreen SIEM core

A Dafny model of the stateful and parsing parts of the SIEM, with proofs about every run, every
input and every interleaving they can see. One file per source component:

| file | models |
|---|---|
| `SyslogServer.dfy` | the per-host sliding-window limiter and the datagram handler |
| `Workflow.dfy`, `Sla.dfy` | the alert workflow with its audit trail, and the SLA clocks that read it |
| `AlertStore.dfy` | merging of rule hits into alerts, over passes of the rules and status changes |
| `EnrichProviders.dfy` | the TTL cache of provider verdicts |
| `RulesEngine.dfy` (with `Counters.dfy`) | match, threshold and correlation rules over events |
| `QueryParse.dfy`, `Search.dfy` | the query language, LIKE escaping, and the conditions of a search |
| `Parsers.dfy` (with `Scanning.dfy`) | FortiGate key=value lines and the removal of syslog headers |
| `Auth.dfy` | base64url and bearer tokens |
| `RuleValidate.dfy`, `RuleStore.dfy` | the normal form of rules and the directory of rule files |
| `Maintenance.dfy`, `Stats.dfy` | retention against source health, and the event timeline |
| `Histories.dfy`, `Text.dfy`, `Wrappers.dfy` | finite histories, Python's string operations, result types |

Run `dafny verify dfyconfig.toml`.

How it is put together:

- What the source changes in place is a class (`RateLimiter`, `SyslogProtocol`, `Alert`, `AlertTable`,
  `VerdictCache`, `RuleDirectory`, `EventTable`); each method is proved equal to a step function on
  values, and the laws are proved about histories of those steps (`History`, the latest thing last).
- Clocks, provider answers, database answers, message handlers and exceptions are part of a step, so a law over
  all histories is a law over all of their behaviours. The query of `_find_mergeable` may break ties
  between equal creation times in any way; `AnswerExists` shows that it always has an answer.
- Loops of the source are methods with invariants; regular expressions are scanners.
- Times are integer microseconds, except the limiter's monotonic seconds, which are reals. The SLA's
  0.8 is written as 5 * elapsed >= 4 * target.

Where the code and its own text disagree, the model follows the code:

- A dry run of a correlation asks the providers like a live one, although its comment says that it skips
  fetches (services/api/rules_engine.py:358-377 passes through `fetch=True`).
- SQL evaluation of a threshold rule ignores `labels.` filters (`LabelFilterIgnoredBySql`), and counts null
  and blank groups, which the in-memory evaluation skips (`ThresholdImplementationsAgree` and
  `AgreeEverywherePrecisely` say exactly when that matters).
- A pass is not atomic: storing a provider's verdict commits the alerts added so far, and if the pass then
  raises they are never offered to notification (`NotifiedOncePrecisely`, `RaisedPassHidesAlert`).
- Switching a rule of a .yaml file, or of a file not named by its id, writes a second file
  (`SwitchesOneFlagPrecisely`).
- Purging is harmless to source health only while the retention covers the health limits
  (`RetentionCoversPrecisely`); nothing in the settings enforces it.
- One validation is not always enough to reach a fixed point, for texts are stripped before they are cut
  (`FixedAfterOncePrecisely`).

## Model

| member | source | states |
|---|---|---|
| SyslogServer.RateLimiter.Allow | services/api/syslog_server.py:22-31 | popping expired times from the front leaves exactly the host's times still in the window; the call is answered and recorded by their number |
| SyslogServer.BucketIsRecentAccepted | services/api/syslog_server.py:24-30 | in every run, hosts interleaved at will, a bucket is the host's accepted times not older than the window at its last call |
| SyslogServer.AllowedIffFewRecent | services/api/syslog_server.py:28-31 | a call is answered true iff fewer than `limit` of the host's accepted times lie in the closed window ending at it |
| SyslogServer.AcceptedIsGreedy | services/api/syslog_server.py:22-31 | per host the limiter is the greedy selection of its own arrivals, whatever other hosts send |
| SyslogServer.NoWindowOverLimit | services/api/syslog_server.py:22-31 | no closed interval of the window's length, wherever placed, holds more than `limit` acceptances of a host |
| SyslogServer.GreedyDominates | services/api/syslog_server.py:22-31 | greedy takes at least as many arrivals as any selection that respects the window, and its k-th is never later |
| SyslogServer.LimiterIsOptimal | services/api/syslog_server.py:22-31 | the limiter's acceptances dominate every window-respecting choice among a host's arrivals, over every run |
| SyslogServer.SyslogProtocol.DatagramReceived | services/api/syslog_server.py:40-63 | one datagram: size check first, then the limiter, then blank or failing messages, then delivery |
| SyslogServer.EveryDatagramAccountedFor | services/api/syslog_server.py:40-63 | every datagram is delivered, blank, lost to a handler exception, or counted once in `_dropped`; the handler gets the texts and hosts of the delivered ones in order; oversize datagrams never reach the limiter |
| SyslogServer.NoBurstDelivered | services/api/syslog_server.py:40-63 | no second-long window holds more than 200 deliveries from a host, with the configured limits |
| Workflow.Alert.ApplyAlertStatus | services/api/main.py:215-244 | one status request: refused if not allowed, else status, timestamps and audit row change as one step |
| Workflow.AuditTrailExplainsAlert | services/api/main.py:215-244 | after every run the audit rows form a path without self-loops from `open` to the status; `acked_at` is the time of the first row and `closed_at` of the first entry into `closed` |
| Workflow.AckedBeforeClosed | services/api/main.py:240-244 | created <= acked <= closed <= now; an alert not open has `acked_at`, a closed one `closed_at` |
| Workflow.TimestampsAreFinal | services/api/main.py:241-244 | once set, `acked_at` and `closed_at` survive every later request, reopening included |
| Workflow.AlertIsAsRequested | services/api/main.py:215-244 | after every run an alert is exactly what was asked for: the status last asked for, one audit row per change with its actor, `acked_at` when it was first asked to leave `open`, `closed_at` when first asked to be closed; refused requests leave no trace |
| Workflow.SpellingIsNothing | services/api/main.py:222-222 | case and surrounding blanks of the requested status make no difference |
| Text.StripOff | services/api/main.py:222-222 | stripping takes all blanks off both ends and nothing else |
| Text.LowerLetters | services/api/main.py:222-222 | lowering takes each of the 26 capitals to its small letter and leaves other characters alone |
| Sla.NormalizeSlaMap | services/api/sla.py:37-66 | the four severities of a valid object replace the defaults' entries and nothing else; one bad member refuses all |
| Sla.ClockReads | services/api/sla.py:76-113 | what every clock shows: target, due time, whole minutes elapsed and left, and its status, pending or done |
| Sla.PendingOnlyWorsens | services/api/sla.py:92-105 | with nothing done, the status order ok < at_risk < breached never goes back as time passes |
| Sla.RemainingAgreesWithStatus | services/api/sla.py:92-113 | breached from the due time on, at risk in the last fifth before it; elapsed and remaining minutes add up to the target within rounding |
| Sla.SeveritySpelling | services/api/sla.py:126-134 | the clocks do not depend on case and blanks of the severity, and all severities outside the four, or none, have the same clocks |
| Sla.ClocksRunOnTargets | services/api/sla.py:126-148 | for every alert the acknowledge and the close clock run on their own map's minutes for the severity, on the default of medium if the map lacks it, and on the default of the severity with no map |
| Sla.MissingCounts | services/api/sla.py:124-148 | what a missing status, timestamp or creation time counts as |
| Sla.SlaOfReachable | services/api/sla.py:116-155 | for every reachable alert the clocks run on the target of its severity up to its own timestamps, and the fallbacks `acked_at or created` and `closed_at or now` are never taken |
| Sla.AckBreachPermanent | services/api/sla.py:140-152 | an acknowledge breach lasts through every later run, reopening included, iff the due time has passed and the alert did not leave `open` by then |
| Sla.CloseBreachPermanent | services/api/sla.py:145-155 | a close breach lasts through every later run iff the due time has passed and the alert was not closed by then |
| AlertStore.SameEntityIffSameKey | services/api/rules_engine.py:81-85 | correlation hits share an entity iff they share the join key, threshold hits iff the same group won |
| AlertStore.SameEntityIffSamePrincipal | services/api/rules_engine.py:86-90 | match hits share an entity iff their first present field among src_ip, host, user and its value agree |
| AlertStore.MergeAlert | services/api/rules_engine.py:124-140 | the evidence after a merge, ids added in a loop |
| AlertStore.MergeIsFaithful | services/api/rules_engine.py:124-140 | old ids stay in front, new ones follow in order without duplicates, the first 20 are kept, one more occurrence, the new hit's count and sample |
| AlertStore.AnswerExists | services/api/rules_engine.py:102-116 | the query for mergeable alerts has an answer over every table |
| AlertStore.AlertTable.FinalizeAlert | services/api/rules_engine.py:143-177 | a hit changes the evidence of the first alert found with its entity key and nothing else, or is added as a new open alert; a dry run touches nothing |
| AlertStore.MergesIntoNewest | services/api/rules_engine.py:93-121 | among the committed open alerts of the tenant, rule and entity in the cooldown a hit goes to a newest one; it goes to none only if 50 others no older hide them |
| AlertStore.MergesOnlyMergeable | services/api/rules_engine.py:102-121 | a hit is merged only into a committed open alert of its tenant, rule and entity within the cooldown |
| AlertStore.KeptAreCommitted | services/api/rules_engine.py:489-520 | a hit of a raised pass stays iff a commit came after it |
| AlertStore.AlertTable.RunRules | services/api/rules_engine.py:489-520 | a pass finalizes its hits in order against the rows committed by then, a fetched verdict commits on the way; a pass that completes hands exactly the new alerts to notification, one that raises falls back to its last commit and hands on none |
| AlertStore.AlertTable.SetStatus | services/api/main.py:940-955 | on an alert of the tenant, its workflow takes one step and nothing else changes; another id, or another tenant's, is not found and changes nothing |
| AlertStore.EveryAlertSound | services/api/rules_engine.py:124-177 | in every run, raised passes included, event ids stay duplicate-free and at most 20 |
| AlertStore.NotifiedUnlessLeftBehind | services/api/rules_engine.py:514-520 | in every run alerts are offered to notification in creation order and never twice, and exactly those that no raised pass left behind; those never are |
| AlertStore.NotifiedOncePrecisely | services/api/rules_engine.py:514-520 | every alert has been offered exactly once iff no pass that raised had committed a hit that creates an alert |
| AlertStore.RaisedPassHidesAlert | services/api/main.py:275-281 | a raised pass leaves an alert behind, a later pass merges its hit into it, and it has two occurrences and was never offered |
| AlertStore.PassKeepsAlerts | services/api/rules_engine.py:124-177 | a pass, completed or raised, never changes an alert's tenant, rule, entity key, creation time, status, timestamps or audit trail, and loses no id or occurrence |
| AlertStore.PassSparesClosed | services/api/rules_engine.py:104-121 | a pass leaves every closed alert exactly as it is |
| AlertStore.EveryTrailConsistent | services/api/main.py:215-244 | the workflow invariant holds of every alert in every interleaving of passes and status changes |
| AlertStore.FlowIsOwnRequests | services/api/main.py:215-244 | over every run of passes and requests, the workflow of each alert is what its own tenant's requests on it, since it was created, have made of a fresh one |
| AlertStore.OccurrencesConserved | services/api/rules_engine.py:124-177 | over every run, the occurrences on the alerts of a (tenant, rule, entity) sum to the times it fired, a raised pass counting with what it had committed |
| AlertStore.CreatedOnlyWhenFarApart | services/api/rules_engine.py:93-121 | a pass creates a second alert for an entity only if every committed open one, those of the same pass included, is out of the cooldown or has at least 50 others no older than it in the window |
| AlertStore.AtMostOnePerPass | services/api/rules_engine.py:489-512 | with unique rule ids, a rule and tenant gain at most one alert per pass |
| AlertStore.NoDuplicateWithinCooldown | services/api/rules_engine.py:93-177 | with at most 50 earlier passes in the cooldown window, every open alert of the entity is older than the cooldown when a pass creates another |
| EnrichProviders.SameKey | services/api/enrich_providers.py:177-181 | two calls share a cache entry iff tenant (none means `lab`), provider and type (case and blanks apart) and value (blanks apart) agree |
| EnrichProviders.Refusals | services/api/enrich_providers.py:183-242 | exactly which calls are refused as invalid or for want of an API key; a failed fetch answers `unknown`; only a fetched verdict is stored |
| EnrichProviders.TenantsApart | services/api/enrich_providers.py:167-268 | over every run the answer to a call depends on the calls of its own tenant only |
| EnrichProviders.HitWasFetchedForSame | services/api/enrich_providers.py:203-257 | a cached answer was fetched by an earlier call of the same tenant for the same provider, type and value |
| EnrichProviders.VerdictWanted | services/api/enrich_providers.py:312-312 | an empty list of wanted verdicts stands for malicious and suspicious; otherwise a verdict is wanted iff it is the lower-case form of a listed one |
| EnrichProviders.VerdictCache.EnrichIoc | services/api/enrich_providers.py:167-268 | one call: validation, key check, cache, optional fetch, and what is stored |
| EnrichProviders.StoredVerdictsSpacedOut | services/api/enrich_providers.py:46-75 | in every sequential run two stored verdicts for one key are more than the TTL apart |
| EnrichProviders.FetchRateBounded | services/api/enrich_providers.py:203-257 | any span holds at most floor(span / TTL) + 1 successful fetches for a key |
| EnrichProviders.CachedAnswerIsRecentFetch | services/api/enrich_providers.py:203-216 | a cached answer is what an earlier fetch for exactly that key gave, at most one TTL old, with none newer stored |
| EnrichProviders.FetchOnlyWhenStale | services/api/enrich_providers.py:203-257 | the provider is asked iff every stored verdict for the key is older than the TTL; a call without a verdict stores nothing |
| EnrichProviders.CallKeepsVerdicts | services/api/enrich_providers.py:203-268 | over any cache, a call answers with the verdict in force (the fresh cached one, else the provider's) and leaves every verdict in force, of whatever key, as it was |
| EnrichProviders.CacheAnswersAsProvider | services/api/enrich_providers.py:167-268 | while no fresh verdict of the tenant differs from what the provider says now, cache and provider are indistinguishable |
| EnrichProviders.VerdictCache.KeysMatchingEnrich | services/api/enrich_providers.py:300-328 | the result is exactly the keys on which some provider's verdict in force at the start is wanted, whatever the cache holds, though it fills on the way and each key stops at its first hit |
| RulesEngine.MatchAnyCase | services/api/rules_engine.py:53-68 | the case of an event's values and of the expected ones never decides a match |
| RulesEngine.FilterReads | services/api/rules_engine.py:53-68 | a filter on `labels.x` matches iff the label, any other iff the attribute, is there and equals the expected text, or one of them, in lower case |
| RulesEngine.EachFilterAlone | services/api/rules_engine.py:53-68 | an event matches filters iff it matches each alone |
| RulesEngine.DenyOnly | services/api/rules_engine.py:62-67 | `action: deny` matches DENY, and neither allow nor a missing action |
| RulesEngine.BlankReads | services/api/rules_engine.py:257-257 | a group value is blank iff it is missing or has nothing but blanks |
| RulesEngine.HitsAreCounted | services/api/rules_engine.py:253-259 | the number of hits of a value is the number of positions of matching events with it |
| RulesEngine.MatchingIsFilter | services/api/rules_engine.py:199-199 | the events found are exactly the matching ones, in their order |
| RulesEngine.SqlFilterReads | services/api/rules_engine.py:269-279 | SQL asks a column what matching asks of it, ignores labels and unknown names, and asks each filter alone |
| RulesEngine.GroupIsCounted | services/api/rules_engine.py:280-285 | a group's count is the number of events selected into it |
| RulesEngine.JoinValuesRead | services/api/rules_engine.py:364-388 | the pool of join values is the nonempty values of the join attribute among the events |
| RulesEngine.CountMatching | services/api/rules_engine.py:254-259 | the counter holds, per non-blank value, the number of matching events |
| RulesEngine.EvaluateMatchRule | services/api/rules_engine.py:180-228 | fires iff an event matches; count, sample and the first ten ids are those of the matching events; the evidence is what merging relies on |
| RulesEngine.EvaluateThresholdRule | services/api/rules_engine.py:246-315 | its rows are exactly the non-blank groups with enough matches and their counts, it fires iff there is one, the winner's count is maximal; its evidence is what merging relies on and its entity is the winning group |
| RulesEngine.ThresholdImplementationsAgree | services/api/rules_engine.py:252-289 | for all filters, in-memory and SQL evaluation have the same rows iff every event SQL selects into a group with a row has a non-blank group value and matches in full |
| RulesEngine.AgreeEverywherePrecisely | services/api/rules_engine.py:252-289 | for filters as validation leaves them, the two agree on all non-blank groups of every event list, column and threshold iff the filters name columns only |
| RulesEngine.LabelFilterIgnoredBySql | services/api/rules_engine.py:270-272 | a concrete event and label filter on which the two evaluations differ |
| RulesEngine.EvaluateStep | services/api/rules_engine.py:356-417 | one step, on the pool of keys still in play, dry or live, over any cache, keeps exactly the keys that satisfy it on its own, and leaves the verdicts in force as they were |
| RulesEngine.EvaluateCorrelationRule | services/api/rules_engine.py:333-479 | over any cache, with narrowed pools and early exit, the shared keys are exactly those satisfying every step on its own by the verdicts in force at the start; the winner has a largest first-step count; its evidence is what merging relies on, its entity the winning key, its sample the key's first event |
| RulesEngine.StepOrderIrrelevant | services/api/rules_engine.py:356-424 | any permutation of the steps gives the same shared keys, over any cache |
| QueryParse.ParseQuery | services/api/query_parse.py:12-31 | the loop over the matches computes the parse of the query |
| QueryParse.PrintedCleared | services/api/query_parse.py:19-19 | removing the word AND turns a printed query into the same items between blanks |
| QueryParse.KeptIffNoAnd | services/api/query_parse.py:19-19 | a text is left alone iff the word AND, in any case, stands nowhere in it between non-word characters |
| QueryParse.MatchPrintedFilter | services/api/query_parse.py:7-9 | the field alternative matches a printed filter exactly: field, blanks, colon, blanks, value |
| QueryParse.EmptyQuotesRun | services/api/query_parse.py:7-9 | an empty pair of quotes is no quoted value but the start of a run |
| QueryParse.OpenQuoteRun | services/api/query_parse.py:7-9 | a quote that is never closed belongs to the run it starts |
| QueryParse.RunIsTerm | services/api/query_parse.py:7-30 | a run with a colon is one free term unless an identifier and a colon start it, so an address with a port is |
| QueryParse.BareColonIsTerm | services/api/query_parse.py:7-30 | a word and a colon with nothing after them are a free term |
| QueryParse.ParsePrinted | services/api/query_parse.py:12-31 | parsing a printed query, with values and terms quoted or bare and AND or blanks between items, gives back its filters and free terms in order |
| Search.EscapeLikeIsEscapeEach | services/api/input_limits.py:57-59 | the three sequential replacements equal one escape per metacharacter |
| Search.EscapeInjective | services/api/input_limits.py:57-59 | different terms have different escaped patterns |
| Search.LikeMeansContains | services/api/search.py:53-70 | the pattern built from any term matches a text iff the folded text contains the folded term |
| Search.BuildClauses | services/api/search.py:43-82 | all conditions of the built list hold of a row iff the row meets every filter, contains every free term in one of seven columns, and meets the options |
| Search.PrintedQuerySelects | services/api/search.py:48-70 | a search for a printed query selects exactly the rows that meet its items |
| Parsers.ParseKvSyslog | services/normalizers/parsers.py:86-90 | the loop over the matches computes the last-wins map of the pairs |
| Parsers.ParsePrintedLine | services/normalizers/parsers.py:83-90 | a printed line of pairs, quoted or bare, parses to the last-wins map of its pairs |
| Parsers.OtherWordsSkipped | services/normalizers/parsers.py:83-90 | words without an equals sign are passed over |
| Parsers.EmptyValueSkipped | services/normalizers/parsers.py:83-90 | a key with nothing or a blank after its equals sign is passed over |
| Parsers.StripSyslogHeader | services/normalizers/parsers.py:93-107 | the loop over the markers computes the text without its header |
| Parsers.FortiTextCut | services/normalizers/parsers.py:96-103 | a FortiGate-like text is cut at the first occurrence of the first marker that occurs |
| Parsers.OtherTextUnheaded | services/normalizers/parsers.py:104-107 | any other text is what the header expression leaves of it, stripped, or all of it |
| Parsers.HeaderDropped | services/normalizers/parsers.py:86-107 | stripping any header text without `date=` in front of a line that starts with `date` gives back the line, which parses to its own pairs |
| Auth.Base64RoundTrip | services/api/auth.py:55-61 | decoding the re-padded encoding gives back every byte string, and the encoding holds no dot |
| Auth.SymbolIsLetter | services/api/auth.py:55-56 | the symbols are the URL-safe alphabet of RFC 4648, table 2 |
| Auth.GroupIsDigits | services/api/auth.py:55-56 | every three bytes are one number of 24 bits, written in four digits to base 64 |
| Auth.TailIsDigits | services/api/auth.py:55-56 | the last one or two bytes, filled with zeros, are written in the digits they reach into, and pads |
| Auth.SymbolsDecode | services/api/auth.py:59-61 | a text of symbols, of the URL-safe or the standard alphabet, decodes iff it is not one symbol longer than whole groups of four |
| Auth.OthersSkipped | services/api/auth.py:61-61 | a character of no alphabet, no pad either, is skipped wherever it stands |
| Auth.BeyondAsciiRefused | services/api/auth.py:61-61 | a text beyond ASCII is refused |
| Auth.LetInIffSigned | services/api/auth.py:80-106 | for every token, someone is let in iff the part after the first dot decodes to the HMAC, under the server's secret, of what the part before it decodes to, and then it is whom that payload names |
| Auth.ForgedRefused | services/api/auth.py:86-87 | a signature that is not the HMAC of the payload lets nobody in |
| Auth.NobodyNamed | services/api/auth.py:88-102 | which payloads name nobody: wrong number of fields, no username, no number or a past one as expiry |
| Auth.NumbersRead | services/api/auth.py:98-98 | an expiry is a number iff it is digits, with a sign or none and blanks around |
| Auth.SignsRead | services/api/auth.py:98-98 | the number is that of the digits with its sign, blanks around it apart |
| Auth.VerifySigned | services/api/auth.py:80-106 | a token signed with the server's secret reads as its payload |
| Auth.LegacyPayload | services/api/auth.py:90-93 | a signed payload of the old form, a username and an expiry with a bar between them, stands for an analyst of the default tenant until it expires |
| Auth.VerifiedPrincipal | services/api/auth.py:80-106 | whatever token is presented, who is let in has a nonempty name, a known role, a tenant, and no bar in any of them |
| Auth.TokenRoundTrip | services/api/auth.py:64-106 | an issued token verifies to its username, role and tenant iff it is not expired, none holds a bar, the username is not empty, the role is known and the tenant is given |
| Auth.IssuedTokenReads | services/api/auth.py:64-106 | what an issued token is and what it says at any later time, for all fields: unknown roles read as viewer, an empty tenant as the default, a bar, an empty username or the expiry refuse it |
| RuleValidate.ValidateRulePayload | services/api/rule_validate.py:92-222 | the checks in the order of the source, with their errors |
| RuleValidate.AcceptedPrecisely | services/api/rule_validate.py:92-222 | a payload is accepted iff id, name, type, severity, techniques and what its type asks for are good, each condition written out |
| RuleValidate.FieldsRead | services/api/rule_validate.py:92-222 | what becomes of each field of an accepted payload: cleaned, brought into range, or filled in |
| RuleValidate.IdsRead | services/api/rule_validate.py:19-19 | which ids are slugs |
| RuleValidate.MatchAccepted | services/api/rule_validate.py:64-89 | which filters are accepted |
| RuleValidate.CleanValueReads | services/api/rule_validate.py:78-86 | what a filter value is cleaned to |
| RuleValidate.TechniquesRead | services/api/rule_validate.py:39-52 | the first eight techniques decide, and are kept with a capital T |
| RuleValidate.StepRead | services/api/rule_validate.py:144-195 | which correlation steps are accepted, and what is filled in |
| RuleValidate.FirstFiltersShown | services/api/rule_validate.py:196-200 | a correlation shows the filters of its first step that has some, or a placeholder |
| RuleValidate.DefaultsFilledIn | services/api/rule_validate.py:102-129 | what validation fills in for a payload of an id, a name and filters, under either name of the filters |
| RuleValidate.CleanMatchFilters | services/api/rule_validate.py:64-89 | the loop over the filters, later items replacing earlier ones of the same key in place |
| RuleValidate.SurvivorsKept | services/api/rule_validate.py:70-86 | the cleaned filters hold exactly the items that have a key and text and that no later one of the same key replaces |
| RuleValidate.NormalizeMitreField | services/api/rule_validate.py:39-52 | the loop over the first eight techniques |
| RuleValidate.NormalizeMitreStable | services/api/rule_validate.py:39-52 | normalized techniques split back into themselves and are left alone |
| RuleValidate.CleanStepList | services/api/rule_validate.py:144-195 | the loop over the correlation steps |
| RuleValidate.ValidatedIsNormal | services/api/rule_validate.py:92-222 | a validated rule is in normal form: ids, types, techniques, filters and steps canonical, all numbers in range |
| RuleValidate.ValidateNormal | services/api/rule_validate.py:92-222 | a rule in normal form is accepted and only has its cut texts stripped |
| RuleValidate.ValidateTwiceIsFixed | services/api/rule_validate.py:92-222 | a validated rule is always accepted again, and two validations always reach a fixed point |
| RuleValidate.FixedAfterOncePrecisely | services/api/rule_validate.py:79-121 | one validation reaches a fixed point iff no text of the payload (title, description, brief, surviving match and step values) is too long and cut just after a blank |
| RuleValidate.OneValidationNotEnough | services/api/rule_validate.py:112-112 | any accepted payload, given a description of 4001 characters with a blank before the last, is accepted and changed by a second validation |
| RuleStore.RuleDirectory.GetRule | services/api/rule_store.py:13-35 | the first rule loaded with the id, .yml files before .yaml files and each kind in the order of names, nothing if there is none |
| RuleStore.OrderOfFiles | services/api/rule_store.py:18-18 | every .yml file is loaded before every .yaml file, files of a kind in the order of their names, character by character |
| RuleStore.RuleDirectory.SaveRule | services/api/rule_store.py:38-56 | an invalid rule or an existing file without overwrite changes nothing; otherwise exactly the file named by the id is written |
| RuleStore.RuleDirectory.SetRuleEnabled | services/api/rule_store.py:71-77 | in any directory, the first rule with the id is validated with its flag and written to the .yml file of its id; a missing or refused rule changes nothing |
| RuleStore.SwitchesOneFlagPrecisely | services/api/rule_store.py:71-77 | switching changes one flag of one file and nothing else iff that file is a .yml file named by its rule's id whose rule validation leaves alone |
| RuleStore.SwitchInTidy | services/api/rule_store.py:71-77 | in a tidy directory a rule is found in the file of its id, switching changes its flag only, and the directory stays tidy |
| RuleStore.ToggleBack | services/api/rule_store.py:71-77 | switching a rule and back restores the directory |
| Maintenance.EventTable.PurgeOldEvents | services/api/maintenance.py:18-47 | the rows kept, the number deleted, and nothing when retention is off |
| Maintenance.EventTable.PurgeAllTenants | services/api/maintenance.py:50-63 | one purge per tenant, each at its own clock reading |
| Maintenance.PurgeConserves | services/api/maintenance.py:32-36 | purged and kept events together are the events before |
| Maintenance.RoundTakesOutdated | services/api/maintenance.py:28-63 | a round of purges takes exactly the events older than the retention of one of its tenants |
| Maintenance.KeptAreSpared | services/api/maintenance.py:32-36 | exactly the spared events are kept, as often as before; other tenants' events all stay |
| Maintenance.HealthOnlyWorsens | services/api/stats_helpers.py:38-52 | without new events health only gets worse: silent if never heard of, fine below the stale limit (a minute at least), silent from the larger limit on |
| Maintenance.PurgeKeepsHealth | services/api/stats_helpers.py:38-52 | purging first leaves every source's health at every later time unchanged when the retention covers the limits |
| Maintenance.RetentionCoversPrecisely | services/api/stats_helpers.py:38-52 | purging can never change a health reading iff the retention covers the limits |
| Maintenance.EvaluateSilenceAlerts | services/api/maintenance.py:84-159 | an alert is created exactly for the silent sources of each tenant without a recent alert, and only one each |
| Maintenance.PurgeFirstRaisesSameAlerts | services/api/main.py:289-301 | purge-then-silence raises the alerts silence alone would have raised |
| Stats.RangesCovered | services/api/stats_helpers.py:9-15 | the buckets of a range, 12, 24, 28, 30 and 12 of them, cover it exactly, those of a year 360 days |
| Stats.RangeReads | services/api/stats_helpers.py:18-20 | a range is known by its name, case and blanks apart; anything else is the last hour |
| Stats.EventsAreCounted | services/api/main.py:569-573 | a count is the number of positions of events of the source in the span |
| Stats.BuildBucketBounds | services/api/stats_helpers.py:23-35 | the half-open buckets in time order |
| Stats.Timeline | services/api/main.py:567-582 | each bucket counts the events of its span per source, and the counts add up to the events of the range |
| Stats.ExactlyOneBucket | services/api/stats_helpers.py:23-35 | a time is in exactly one bucket if it is in the range and in none otherwise |

## Left out

- React UI, FastAPI routing, HTTP clients, SQLAlchemy sessions, asyncio loops, logging, Docker and nginx: plumbing or foreign code; tables are sequences of rows.
- Password hashing, compression, CSV export, RBAC tables, severity maps and the Windows, cloud and Cynet mappings: settled by reading one branch or by a library.
- Concurrent passes of the rules and concurrent settings patches: the code takes no lock across them, so only sequential steps are modelled.
- `lab_settings.py`: a rejected update is not rolled back and replicas overwrite each other's keys, so no claim is made.
- Silence alerts in the table of `AlertStore`: they carry no entity key and are never merged into; they could only take places of a detection rule's query if a rule had one of their ids.
- The time and tenant windows of the event queries and their row limits (500 and 2000): the evaluators take the selected events as they are.
- Evidence fields that merging does not read (groups, steps, threat brief, technique, titles) and the part of the sample other than key, source address, host and user.
- One clock reading per pass, per status change and per enrichment of a correlation stands for several close ones in the code; database defaults such as `created_at` use the same reading.
- Case folding, the word class and digits are ASCII in `Text.dfy`; `LikeMeansContains` holds for every case folding that leaves the three metacharacters alone.
- Python's integer texts with underscores or non-ASCII digits, and payload values that `int` or `bool` would refuse or convert: numbers and flags come converted.
- The general header expression of `strip_syslog_header` is a parameter; it is only reached when no FortiGate key occurs.
- `search_terms_from_query`: derived from the parse by one loop.
- YAML and UTF-8 and HMAC: files hold what was written, and the codec is a parameter that decodes what it encodes.
- Filtering and grouping by the columns of the events table that are no texts (id, timestamp, labels, created_at).
- Maintenance.RetentionCoversPrecisely: for the switched-off retention (0 days) nothing is purged and health is unchanged, as `PurgeKeepsHealth` states.
