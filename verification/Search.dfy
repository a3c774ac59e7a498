/**
 From a parsed query to SQL conditions: `escape_like` (services/api/input_limits.py) and
 `build_search_query` (services/api/search.py).

 The meaning of LIKE with the escape character \ is section 8.5 of ISO/IEC 9075-2 and section 9.7.1
 of the PostgreSQL documentation.  ILIKE compares case-folded texts; the folding is a parameter.
 */
module Search {
  import Text
  import QueryParse

  // ---------------------------------------------------------------- escaping

  /** `str.replace` of one character. */
  function Replace(s: string, c: char, sub: string): string {
    if s == "" then "" else (if s[0] == c then sub else [s[0]]) + Replace(s[1..], c, sub)
  }

  function EscapeLike(value: string): string {
    Replace(Replace(Replace(value, '\\', "\\\\"), '%', "\\%"), '_', "\\_")
  }

  predicate IsMeta(c: char) {
    c == '\\' || c == '%' || c == '_'
  }

  /** Each metacharacter with a backslash in front. */
  ghost function EscapeEach(s: string): string {
    if s == "" then "" else (if IsMeta(s[0]) then ['\\', s[0]] else [s[0]]) + EscapeEach(s[1..])
  }

  lemma {:induction false} ReplaceSplit(x: string, y: string, c: char, sub: string)
    ensures Replace(x + y, c, sub) == Replace(x, c, sub) + Replace(y, c, sub)
  {
    if x == "" {
      assert x + y == y;
    } else {
      assert (x + y)[1..] == x[1..] + y;
      ReplaceSplit(x[1..], y, c, sub);
    }
  }

  lemma ReplaceOne(a: char, c: char, sub: string)
    ensures Replace([a], c, sub) == if a == c then sub else [a]
  {
    assert Replace([a][1..], c, sub) == "";
  }

  lemma ReplaceTwo(a: char, b: char, c: char, sub: string)
    ensures Replace([a, b], c, sub) == (if a == c then sub else [a]) + (if b == c then sub else [b])
  {
    ReplaceSplit([a], [b], c, sub);
    ReplaceOne(a, c, sub);
    ReplaceOne(b, c, sub);
    assert [a] + [b] == [a, b];
  }

  /** The three replacements, one after the other, escape every metacharacter exactly once. */
  lemma {:induction false} EscapeLikeIsEscapeEach(s: string)
    ensures EscapeLike(s) == EscapeEach(s)
  {
    if s != "" {
      var a, rest := s[0], s[1..];
      EscapeLikeIsEscapeEach(rest);
      var one := Replace([a], '\\', "\\\\");
      var two := Replace(one, '%', "\\%");
      assert s == [a] + rest;
      ReplaceSplit([a], rest, '\\', "\\\\");
      ReplaceSplit(one, Replace(rest, '\\', "\\\\"), '%', "\\%");
      ReplaceSplit(two, Replace(Replace(rest, '\\', "\\\\"), '%', "\\%"), '_', "\\_");
      ReplaceOne(a, '\\', "\\\\");
      ReplaceTwo('\\', '\\', '%', "\\%");
      ReplaceOne(a, '%', "\\%");
      ReplaceTwo('\\', '\\', '_', "\\_");
      ReplaceTwo('\\', '%', '_', "\\_");
      ReplaceOne(a, '_', "\\_");
    }
  }

  // ---------------------------------------------------------------- the meaning of LIKE

  /** A pattern read with the escape character \ : `Bad` when it ends in the middle of an escape. */
  datatype Pattern = Empty | AnyText(rest: Pattern) | AnyChar(rest: Pattern) | Literal(c: char, rest: Pattern) | Bad

  function ReadPattern(p: string): Pattern {
    if p == "" then Empty
    else if p[0] == '%' then AnyText(ReadPattern(p[1..]))
    else if p[0] == '_' then AnyChar(ReadPattern(p[1..]))
    else if p[0] != '\\' then Literal(p[0], ReadPattern(p[1..]))
    else if |p| == 1 then Bad
    else Literal(p[1], ReadPattern(p[2..]))
  }

  /** The text matches the pattern; an error of the pattern is no match. */
  predicate Matches(p: Pattern, t: string)
    decreases p, |t|
  {
    match p
    case Empty => t == ""
    case AnyText(rest) => Matches(rest, t) || (t != "" && Matches(p, t[1..]))
    case AnyChar(rest) => t != "" && Matches(rest, t[1..])
    case Literal(c, rest) => t != "" && t[0] == c && Matches(rest, t[1..])
    case Bad => false
  }

  function FoldText(fold: char -> char, s: string): string {
    if s == "" then "" else [fold(s[0])] + FoldText(fold, s[1..])
  }

  predicate ILike(fold: char -> char, t: string, pattern: string) {
    Matches(ReadPattern(FoldText(fold, pattern)), FoldText(fold, t))
  }

  /** Case folding leaves the metacharacters alone and makes no new ones. */
  ghost predicate FoldsCase(fold: char -> char) {
    forall c: char :: (IsMeta(c) ==> fold(c) == c) && (IsMeta(fold(c)) ==> IsMeta(c))
  }

  ghost predicate Contains(t: string, s: string) {
    exists i :: 0 <= i <= |t| && s <= t[i..]
  }

  function ContainsPattern(term: string): string {
    "%" + EscapeLike(term) + "%"
  }

  lemma {:induction false} FoldSplit(fold: char -> char, x: string, y: string)
    ensures FoldText(fold, x + y) == FoldText(fold, x) + FoldText(fold, y)
  {
    if x == "" {
      assert x + y == y;
    } else {
      assert (x + y)[1..] == x[1..] + y;
      FoldSplit(fold, x[1..], y);
    }
  }

  lemma {:induction false} FoldEscaped(fold: char -> char, s: string)
    requires FoldsCase(fold)
    ensures FoldText(fold, EscapeEach(s)) == EscapeEach(FoldText(fold, s))
  {
    if s != "" {
      var head := if IsMeta(s[0]) then ['\\', s[0]] else [s[0]];
      FoldEscaped(fold, s[1..]);
      FoldSplit(fold, head, EscapeEach(s[1..]));
      assert FoldText(fold, head) == head[..|head| - 1] + [fold(s[0])] by {
        assert head[1..] == if IsMeta(s[0]) then [s[0]] else "";
        assert fold('\\') == '\\';
        assert FoldText(fold, [s[0]]) == [fold(s[0])] by { assert [s[0]][1..] == ""; }
      }
    }
  }

  /** The literal characters of `s`, then the rest of the pattern. */
  ghost function Literals(s: string, rest: Pattern): Pattern {
    if s == "" then rest else Literal(s[0], Literals(s[1..], rest))
  }

  lemma {:induction false} ReadEscaped(s: string, p: string)
    ensures ReadPattern(EscapeEach(s) + p) == Literals(s, ReadPattern(p))
  {
    if s == "" {
      assert EscapeEach(s) + p == p;
    } else {
      var whole, tail := EscapeEach(s) + p, EscapeEach(s[1..]) + p;
      ReadEscaped(s[1..], p);
      if IsMeta(s[0]) {
        assert whole == ['\\', s[0]] + tail;
        assert whole[2..] == tail && whole[0] == '\\' && whole[1] == s[0];
      } else {
        assert whole == [s[0]] + tail;
        assert whole[1..] == tail && whole[0] == s[0];
      }
    }
  }

  lemma {:induction false} MatchesAnything(t: string)
    ensures Matches(AnyText(Empty), t)
  {
    if t != "" {
      MatchesAnything(t[1..]);
    }
  }

  lemma {:induction false} MatchesLiterals(s: string, t: string)
    ensures Matches(Literals(s, AnyText(Empty)), t) <==> s <= t
  {
    if s == "" {
      MatchesAnything(t);
    } else if t != "" {
      MatchesLiterals(s[1..], t[1..]);
      if s[0] == t[0] {
        assert s <= t <==> s[1..] <= t[1..] by {
          assert s == [s[0]] + s[1..] && t == [t[0]] + t[1..];
        }
      }
    }
  }

  lemma {:induction false} MatchesSomewhere(s: string, t: string)
    ensures Matches(AnyText(Literals(s, AnyText(Empty))), t) <==> Contains(t, s)
  {
    MatchesLiterals(s, t);
    assert t[0..] == t;
    if t != "" {
      MatchesSomewhere(s, t[1..]);
      if Contains(t[1..], s) {
        var i :| 0 <= i <= |t[1..]| && s <= t[1..][i..];
        assert t[1..][i..] == t[i + 1..];
      }
      if Contains(t, s) && !(s <= t) {
        var i :| 0 <= i <= |t| && s <= t[i..];
        assert t[i..] == t[1..][i - 1..];
      }
    } else if Contains(t, s) {
      var i :| 0 <= i <= |t| && s <= t[i..];
    }
  }

  lemma FoldPercent(fold: char -> char)
    requires FoldsCase(fold)
    ensures FoldText(fold, "%") == "%"
  {
    assert fold('%') == '%' && "%"[1..] == "";
  }

  /** The escaped pattern means "contains", for every term and text and whatever metacharacters are
      in the term. */
  lemma LikeMeansContains(fold: char -> char, term: string, t: string)
    requires FoldsCase(fold)
    ensures ILike(fold, t, ContainsPattern(term)) <==> Contains(FoldText(fold, t), FoldText(fold, term))
  {
    var s := FoldText(fold, term);
    EscapeLikeIsEscapeEach(term);
    FoldEscaped(fold, term);
    FoldSplit(fold, "%" + EscapeLike(term), "%");
    FoldSplit(fold, "%", EscapeLike(term));
    FoldPercent(fold);
    var p := FoldText(fold, ContainsPattern(term));
    assert p == "%" + (EscapeEach(s) + "%");
    assert p[1..] == EscapeEach(s) + "%";
    ReadEscaped(s, "%");
    assert "%"[1..] == "" && ReadPattern("%") == AnyText(Empty);
    MatchesSomewhere(s, FoldText(fold, t));
  }

  lemma {:induction false} LiteralsInjective(s: string, t: string)
    requires Literals(s, Empty) == Literals(t, Empty)
    ensures s == t
  {
    if s != "" {
      LiteralsInjective(s[1..], t[1..]);
      assert s == [s[0]] + s[1..] && t == [t[0]] + t[1..];
    }
  }

  /** Escaping loses nothing: terms that differ have patterns that differ. */
  lemma EscapeInjective(s: string, t: string)
    requires EscapeLike(s) == EscapeLike(t)
    ensures s == t
  {
    EscapeLikeIsEscapeEach(s);
    EscapeLikeIsEscapeEach(t);
    ReadEscaped(s, "");
    ReadEscaped(t, "");
    LiteralsInjective(s, t);
  }

  // ---------------------------------------------------------------- the conditions of a search

  /** An event as a row: its columns that are not NULL. */
  datatype Row = Row(columns: map<string, string>, timestamp: int)

  datatype Clause =
    | Equals(column: string, value: string)
    | FoldedEquals(column: string, value: string)
    | AnyILike(columns: seq<string>, pattern: string)
    | NotBefore(at: int)

  const FIELD_MAP: set<string> := {"src_ip", "dst_ip", "user", "host", "action", "severity", "source_type", "vendor",
                                   "device", "ingest_channel", "message", "event_id", "channel", "provider"}
  const FREE_TEXT_COLUMNS: seq<string> := ["message", "raw", "user", "host", "src_ip", "dst_ip", "action"]
  const MINUTE: int := 60_000_000

  /** The condition is true of the row; a comparison with NULL is not. */
  predicate Holds(fold: char -> char, c: Clause, r: Row) {
    match c
    case Equals(column, value) => column in r.columns && r.columns[column] == value
    case FoldedEquals(column, value) => column in r.columns && FoldText(fold, r.columns[column]) == value
    case AnyILike(columns, pattern) => exists i :: 0 <= i < |columns| && columns[i] in r.columns && ILike(fold, r.columns[columns[i]], pattern)
    case NotBefore(at) => r.timestamp >= at
  }

  predicate AllHold(fold: char -> char, clauses: seq<Clause>, r: Row) {
    forall i :: 0 <= i < |clauses| ==> Holds(fold, clauses[i], r)
  }

  datatype Options = Options(sourceType: string, severity: string, sinceMinutes: int, tenant: string)

  ghost predicate ColumnContains(fold: char -> char, r: Row, column: string, term: string) {
    column in r.columns && Contains(FoldText(fold, r.columns[column]), FoldText(fold, term))
  }

  /** What a filter asks of a row: fields that are not searchable ask nothing, `message` asks for the
      value somewhere in the text, the others for the value itself, case apart. */
  ghost predicate FilterHolds(fold: char -> char, r: Row, f: (string, string)) {
    f.0 in {"src_ip", "dst_ip", "user", "host", "action", "severity", "source_type", "vendor",
            "device", "ingest_channel", "message", "event_id", "channel", "provider"} ==>
      if f.0 == "message" then ColumnContains(fold, r, "message", f.1)
      else f.0 in r.columns && FoldText(fold, r.columns[f.0]) == FoldText(fold, f.1)
  }

  /** What a free term asks: to be somewhere in one of seven columns. */
  ghost predicate TermHolds(fold: char -> char, r: Row, term: string) {
    || ColumnContains(fold, r, "message", term) || ColumnContains(fold, r, "raw", term) || ColumnContains(fold, r, "user", term)
    || ColumnContains(fold, r, "host", term) || ColumnContains(fold, r, "src_ip", term) || ColumnContains(fold, r, "dst_ip", term)
    || ColumnContains(fold, r, "action", term)
  }

  ghost predicate OptionsHold(fold: char -> char, r: Row, o: Options, now: int) {
    && (o.tenant != "" ==> "tenant_id" in r.columns && r.columns["tenant_id"] == o.tenant)
    && (o.sourceType != "" ==> "source_type" in r.columns && r.columns["source_type"] == o.sourceType)
    && (o.severity != "" ==> "severity" in r.columns && r.columns["severity"] == FoldText(fold, o.severity))
    && (o.sinceMinutes != 0 ==> r.timestamp >= now - o.sinceMinutes * 60_000_000)
  }

  ghost predicate FiltersHold(fold: char -> char, r: Row, filters: seq<(string, string)>) {
    forall i :: 0 <= i < |filters| ==> FilterHolds(fold, r, filters[i])
  }

  ghost predicate TermsHold(fold: char -> char, r: Row, terms: seq<string>) {
    forall i :: 0 <= i < |terms| ==> TermHolds(fold, r, terms[i])
  }

  ghost predicate Selected(fold: char -> char, r: Row, p: QueryParse.Parsed, o: Options, now: int) {
    && FiltersHold(fold, r, p.filters)
    && TermsHold(fold, r, p.terms)
    && OptionsHold(fold, r, o, now)
  }

  function FilterClauses(fold: char -> char, f: (string, string)): seq<Clause> {
    if f.0 !in FIELD_MAP then []
    else if f.0 == "message" then [AnyILike(["message"], ContainsPattern(f.1))]
    else [FoldedEquals(f.0, FoldText(fold, f.1))]
  }

  lemma FilterClausesMean(fold: char -> char, f: (string, string), r: Row)
    requires FoldsCase(fold)
    ensures AllHold(fold, FilterClauses(fold, f), r) <==> FilterHolds(fold, r, f)
  {
    if f.0 == "message" && "message" in r.columns {
      LikeMeansContains(fold, f.1, r.columns["message"]);
      assert ["message"][0] == "message";
    }
    if f.0 in FIELD_MAP {
      assert FilterClauses(fold, f)[0] in FilterClauses(fold, f);
    }
  }

  lemma FreeTextColumns(fold: char -> char, term: string, r: Row)
    ensures TermHolds(fold, r, term) <==>
              exists i :: 0 <= i < |FREE_TEXT_COLUMNS| && ColumnContains(fold, r, FREE_TEXT_COLUMNS[i], term)
  {
    hide ColumnContains;
    var c := FREE_TEXT_COLUMNS;
    assert c[0] == "message" && c[1] == "raw" && c[2] == "user" && c[3] == "host" && c[4] == "src_ip" && c[5] == "dst_ip" && c[6] == "action";
  }

  lemma TermClauseMeans(fold: char -> char, term: string, r: Row)
    requires FoldsCase(fold)
    ensures Holds(fold, AnyILike(FREE_TEXT_COLUMNS, ContainsPattern(term)), r) <==> TermHolds(fold, r, term)
  {
    hide TermHolds, ILike;
    forall i | 0 <= i < |FREE_TEXT_COLUMNS| && FREE_TEXT_COLUMNS[i] in r.columns
      ensures ILike(fold, r.columns[FREE_TEXT_COLUMNS[i]], ContainsPattern(term)) <==>
                ColumnContains(fold, r, FREE_TEXT_COLUMNS[i], term)
    {
      LikeMeansContains(fold, term, r.columns[FREE_TEXT_COLUMNS[i]]);
    }
    FreeTextColumns(fold, term, r);
  }

  lemma AllHoldJoin(fold: char -> char, a: seq<Clause>, b: seq<Clause>)
    ensures forall r :: AllHold(fold, a + b, r) <==> AllHold(fold, a, r) && AllHold(fold, b, r)
  {
    forall r ensures AllHold(fold, a + b, r) <==> AllHold(fold, a, r) && AllHold(fold, b, r) {
      if AllHold(fold, a + b, r) {
        forall i | 0 <= i < |a| ensures Holds(fold, a[i], r) {
          assert (a + b)[i] == a[i];
        }
        forall i | 0 <= i < |b| ensures Holds(fold, b[i], r) {
          assert (a + b)[|a| + i] == b[i];
        }
      }
    }
  }

  lemma FilterStep(fold: char -> char, filters: seq<(string, string)>, i: nat, clauses: seq<Clause>, before: seq<Clause>)
    requires FoldsCase(fold) && i < |filters|
    requires forall r :: AllHold(fold, clauses, r) <==> AllHold(fold, before, r) && FiltersHold(fold, r, filters[..i])
    ensures forall r :: AllHold(fold, clauses + FilterClauses(fold, filters[i]), r) <==>
              AllHold(fold, before, r) && FiltersHold(fold, r, filters[..i + 1])
  {
    AllHoldJoin(fold, clauses, FilterClauses(fold, filters[i]));
    forall r ensures FiltersHold(fold, r, filters[..i + 1]) <==>
                       FiltersHold(fold, r, filters[..i]) && AllHold(fold, FilterClauses(fold, filters[i]), r)
    {
      FilterClausesMean(fold, filters[i], r);
      assert filters[..i + 1][i] == filters[i];
      assert forall j :: 0 <= j < i ==> filters[..i + 1][j] == filters[..i][j];
    }
  }

  lemma AllHoldOne(fold: char -> char, c: Clause, r: Row)
    ensures AllHold(fold, [c], r) <==> Holds(fold, c, r)
  {
    assert [c][0] == c;
  }

  lemma TermsSnoc(fold: char -> char, r: Row, terms: seq<string>, i: nat)
    requires i < |terms|
    ensures TermsHold(fold, r, terms[..i + 1]) <==> TermsHold(fold, r, terms[..i]) && TermHolds(fold, r, terms[i])
  {
    assert terms[..i + 1][i] == terms[i];
    assert forall j :: 0 <= j < i ==> terms[..i + 1][j] == terms[..i][j];
  }

  lemma TermStep(fold: char -> char, terms: seq<string>, i: nat, clauses: seq<Clause>, before: seq<Clause>)
    requires FoldsCase(fold) && i < |terms|
    requires forall r :: AllHold(fold, clauses, r) <==> AllHold(fold, before, r) && TermsHold(fold, r, terms[..i])
    ensures forall r :: AllHold(fold, clauses + [AnyILike(FREE_TEXT_COLUMNS, ContainsPattern(terms[i]))], r) <==>
              AllHold(fold, before, r) && TermsHold(fold, r, terms[..i + 1])
  {
    var clause := AnyILike(FREE_TEXT_COLUMNS, ContainsPattern(terms[i]));
    AllHoldJoin(fold, clauses, [clause]);
    forall r ensures TermsHold(fold, r, terms[..i + 1]) <==> TermsHold(fold, r, terms[..i]) && AllHold(fold, [clause], r) {
      TermsSnoc(fold, r, terms, i);
      TermClauseMeans(fold, terms[i], r);
      AllHoldOne(fold, clause, r);
    }
  }

  method AddFilterClauses(fold: char -> char, filters: seq<(string, string)>, before: seq<Clause>) returns (clauses: seq<Clause>)
    requires FoldsCase(fold)
    ensures forall r :: AllHold(fold, clauses, r) <==>
              AllHold(fold, before, r) && FiltersHold(fold, r, filters)
  {
    clauses := before;
    for i := 0 to |filters|
      invariant forall r :: AllHold(fold, clauses, r) <==>
                  AllHold(fold, before, r) && FiltersHold(fold, r, filters[..i])
    {
      FilterStep(fold, filters, i, clauses, before);
      clauses := clauses + FilterClauses(fold, filters[i]);
    }
    assert filters[..|filters|] == filters;
  }

  method AddTermClauses(fold: char -> char, terms: seq<string>, before: seq<Clause>) returns (clauses: seq<Clause>)
    requires FoldsCase(fold)
    ensures forall r :: AllHold(fold, clauses, r) <==>
              AllHold(fold, before, r) && TermsHold(fold, r, terms)
  {
    clauses := before;
    for i := 0 to |terms|
      invariant forall r :: AllHold(fold, clauses, r) <==>
                  AllHold(fold, before, r) && TermsHold(fold, r, terms[..i])
    {
      var clause := AnyILike(FREE_TEXT_COLUMNS, ContainsPattern(terms[i]));
      TermStep(fold, terms, i, clauses, before);
      clauses := clauses + [clause];
    }
    assert terms[..|terms|] == terms;
  }

  lemma OptionClausesMean(fold: char -> char, r: Row, o: Options, now: int, first: seq<Clause>, last: seq<Clause>)
    requires first == if o.tenant != "" then [Equals("tenant_id", o.tenant)] else []
    requires last == (if o.sourceType != "" then [Equals("source_type", o.sourceType)] else [])
                     + (if o.severity != "" then [Equals("severity", FoldText(fold, o.severity))] else [])
                     + (if o.sinceMinutes != 0 then [NotBefore(now - o.sinceMinutes * MINUTE)] else [])
    ensures AllHold(fold, first, r) && AllHold(fold, last, r) <==> OptionsHold(fold, r, o, now)
  {
    if AllHold(fold, first, r) && AllHold(fold, last, r) {
      assert o.tenant != "" ==> Holds(fold, first[0], r);
      assert o.sourceType != "" ==> last[0] == Equals("source_type", o.sourceType);
      assert o.severity != "" ==> Equals("severity", FoldText(fold, o.severity)) in last;
      assert o.sinceMinutes != 0 ==> last[|last| - 1] == NotBefore(now - o.sinceMinutes * MINUTE);
      assert forall c :: c in last ==> Holds(fold, c, r);
    }
  }

  /** The conditions a search puts on a row, all together, mean what the query says: the same list
      is built for the page of events and for their total. */
  method BuildClauses(fold: char -> char, q: string, o: Options, now: int) returns (clauses: seq<Clause>)
    requires FoldsCase(fold)
    ensures forall r :: AllHold(fold, clauses, r) <==> Selected(fold, r, QueryParse.Parse(q), o, now)
  {
    hide AllHold, Holds, FiltersHold, TermsHold, OptionsHold, QueryParse.Parse;
    var filters, terms := QueryParse.ParseQuery(q);
    clauses := [];
    if o.tenant != "" {
      clauses := clauses + [Equals("tenant_id", o.tenant)];
    }
    ghost var first := clauses;
    clauses := AddFilterClauses(fold, filters, clauses);
    clauses := AddTermClauses(fold, terms, clauses);
    var last: seq<Clause> := [];
    if o.sourceType != "" {
      last := last + [Equals("source_type", o.sourceType)];
    }
    if o.severity != "" {
      last := last + [Equals("severity", FoldText(fold, o.severity))];
    }
    if o.sinceMinutes != 0 {
      last := last + [NotBefore(now - o.sinceMinutes * MINUTE)];
    }
    AllHoldJoin(fold, clauses, last);
    clauses := clauses + last;
    forall r ensures AllHold(fold, clauses, r) <==> Selected(fold, r, QueryParse.Parse(q), o, now) {
      OptionClausesMean(fold, r, o, now, first, last);
    }
  }

  ghost predicate ItemsHold(fold: char -> char, r: Row, parts: QueryParse.Parts) {
    match parts
    case End => true
    case More(p, rest) =>
      && ItemsHold(fold, r, rest)
      && match p.item
         case Filter(field, _, _, value, _) => FilterHolds(fold, r, (Text.Lower(field), value))
         case Term(text, _) => TermHolds(fold, r, text)
  }

  lemma FiltersCons(fold: char -> char, r: Row, f: (string, string), filters: seq<(string, string)>)
    ensures FiltersHold(fold, r, [f] + filters) <==> FilterHolds(fold, r, f) && FiltersHold(fold, r, filters)
  {
    var all := [f] + filters;
    assert all[0] == f;
    assert forall i :: 0 <= i < |filters| ==> all[i + 1] == filters[i];
  }

  lemma TermsCons(fold: char -> char, r: Row, t: string, terms: seq<string>)
    ensures TermsHold(fold, r, [t] + terms) <==> TermHolds(fold, r, t) && TermsHold(fold, r, terms)
  {
    var all := [t] + terms;
    assert all[0] == t;
    assert forall i :: 0 <= i < |terms| ==> all[i + 1] == terms[i];
  }

  lemma {:induction false} MeaningHolds(fold: char -> char, r: Row, parts: QueryParse.Parts)
    ensures var m := QueryParse.Meaning(parts);
            ItemsHold(fold, r, parts) <==> FiltersHold(fold, r, m.filters) && TermsHold(fold, r, m.terms)
  {
    match parts
    case End =>
    case More(p, rest) =>
      var m, tail := QueryParse.Meaning(parts), QueryParse.Meaning(rest);
      MeaningHolds(fold, r, rest);
      if p.item.Filter? {
        FiltersCons(fold, r, (Text.Lower(p.item.field), p.item.value), tail.filters);
        assert m.terms == tail.terms;
      } else {
        TermsCons(fold, r, p.item.text, tail.terms);
        assert m.filters == tail.filters;
      }
  }

  /** Searching for a printed query finds exactly the rows that meet its filters and contain its terms. */
  lemma PrintedQuerySelects(fold: char -> char, parts: QueryParse.Parts, r: Row, o: Options, now: int)
    requires QueryParse.GoodParts(parts, true)
    ensures Selected(fold, r, QueryParse.Parse(QueryParse.Print(parts)), o, now) <==>
              OptionsHold(fold, r, o, now) && ItemsHold(fold, r, parts)
  {
    QueryParse.ParsePrinted(parts);
    MeaningHolds(fold, r, parts);
  }
}
