/**
 The search query language (services/api/query_parse.py).  Its token expression
   (field)\s*:\s*("[^"]+"|\S+) | ("[^"]+"|\S+)
 is written as a scanner: no part of it can usefully give back what it took, so the first way to
 match is the only one.
 */
module QueryParse {
  import opened Wrappers
  import opened Text
  import opened Scanning

  datatype Parsed = Parsed(filters: seq<(string, string)>, terms: seq<string>)

  // ---------------------------------------------------------------- the scanner

  /** The length of an identifier at the start. */
  function FieldLen(s: string): (n: nat)
    ensures n <= |s|
  {
    if s == "" || IsDigit(s[0]) then 0 else SpanLen(s, WordChar)
  }

  /** The length of a value at the start: a nonempty quoted text, else a run without blanks. */
  function ValueLen(s: string): (n: nat)
    ensures n <= |s|
  {
    if s != "" && s[0] == '"' then
      var n := SpanLen(s[1..], NonQuote);
      if 0 < n && n + 1 < |s| then n + 2 else SpanLen(s, NonBlank)
    else SpanLen(s, NonBlank)
  }

  /** A match of the first alternative, and the text after it. */
  datatype FieldMatch = FieldMatch(field: string, value: string, rest: string)

  /** The first alternative of the expression, at the start of the text. */
  function MatchField(s: string): (r: Option<FieldMatch>)
    ensures r.Some? ==> |r.value.rest| < |s|
  {
    var f := FieldLen(s);
    var colon := SkipBlanks(s[f..]);
    if f == 0 || colon == "" || colon[0] != ':' then None
    else
      var text := SkipBlanks(colon[1..]);
      var v := ValueLen(text);
      if v == 0 then None else Some(FieldMatch(s[..f], text[..v], text[v..]))
  }

  /** `\bAND\b` matches at position `i`, ignoring case. */
  predicate AndAt(s: string, i: nat): (b: bool)
    ensures b ==> i + 3 <= |s|
  {
    && i + 3 <= |s|
    && LowerChar(s[i]) == 'a' && LowerChar(s[i + 1]) == 'n' && LowerChar(s[i + 2]) == 'd'
    && (i == 0 || !IsWord(s[i - 1])) && (i + 3 == |s| || !IsWord(s[i + 3]))
  }

  /** The text is the word AND, in any case. */
  predicate IsAnd(s: string) {
    |s| == 3 && AndAt(s, 0)
  }

  function AddTerm(terms: seq<string>, text: string): seq<string> {
    if IsAnd(text) || text == "" then terms else terms + [text]
  }

  function Plus(a: Parsed, b: Parsed): Parsed {
    Parsed(a.filters + b.filters, a.terms + b.terms)
  }

  /** One turn of the scanner: what it finds at the start of the text, and the text after it; a
      character that no alternative matches is skipped. */
  function Turn(s: string): (r: (Parsed, string))
    requires s != ""
    ensures |r.1| < |s|
  {
    var m := MatchField(s);
    if m.Some? then (Parsed([(Lower(m.value.field), StripQuotes(m.value.value))], []), m.value.rest)
    else
      var v := ValueLen(s);
      if v == 0 then (Parsed([], []), s[1..]) else (Parsed([], AddTerm([], StripQuotes(s[..v]))), s[v..])
  }

  /** All matches, from the left. */
  function Scan(s: string): Parsed
    decreases |s|
  {
    if s == "" then Parsed([], [])
    else
      var (found, rest) := Turn(s);
      Plus(found, Scan(rest))
  }

  function RemoveAndFrom(s: string, i: nat): string
    requires i <= |s|
    decreases |s| - i
  {
    if i == |s| then ""
    else if AndAt(s, i) then " " + RemoveAndFrom(s, i + 3)
    else [s[i]] + RemoveAndFrom(s, i + 1)
  }

  /** `re.sub(r"\bAND\b", " ", s)`, ignoring case. */
  function RemoveAnd(s: string): string {
    RemoveAndFrom(s, 0)
  }

  function Parse(q: string): Parsed {
    if Strip(q) == "" then Parsed([], []) else Scan(RemoveAnd(q))
  }

  lemma AddTermAppends(terms: seq<string>, text: string)
    ensures AddTerm(terms, text) == terms + AddTerm([], text)
  {
  }

  /** The body of the loop over the matches. */
  method TakeTurn(filters: seq<(string, string)>, terms: seq<string>, s: string)
    returns (filters': seq<(string, string)>, terms': seq<string>, rest: string)
    requires s != ""
    ensures Parsed(filters', terms') == Plus(Parsed(filters, terms), Turn(s).0) && rest == Turn(s).1
  {
    filters', terms' := filters, terms;
    assert filters + [] == filters && terms + [] == terms;
    var m := MatchField(s);
    if m.Some? {
      filters' := filters + [(Lower(m.value.field), StripQuotes(m.value.value))];
      rest := m.value.rest;
    } else {
      var v := ValueLen(s);
      if v == 0 {
        rest := s[1..];
      } else {
        AddTermAppends(terms, StripQuotes(s[..v]));
        terms' := AddTerm(terms, StripQuotes(s[..v]));
        rest := s[v..];
      }
    }
  }

  /** A scanned text is one turn and the text after it. */
  lemma ScanTurn(s: string)
    requires s != ""
    ensures Scan(s) == Plus(Turn(s).0, Scan(Turn(s).1))
  {
  }

  lemma PlusAssociates(a: Parsed, b: Parsed, c: Parsed)
    ensures Plus(a, Plus(b, c)) == Plus(Plus(a, b), c)
  {
  }

  method ParseQuery(q: string) returns (filters: seq<(string, string)>, terms: seq<string>)
    ensures Parsed(filters, terms) == Parse(q)
  {
    filters, terms := [], [];
    if Strip(q) == "" {
      return;
    }
    var rest := RemoveAnd(q);
    while rest != ""
      invariant Plus(Parsed(filters, terms), Scan(rest)) == Parse(q)
      decreases |rest|
    {
      ScanTurn(rest);
      PlusAssociates(Parsed(filters, terms), Turn(rest).0, Scan(Turn(rest).1));
      filters, terms, rest := TakeTurn(filters, terms, rest);
    }
  }

  // ---------------------------------------------------------------- printing

  /** A filter is printed as `field : value`, its value quoted or bare, with any blanks around the
      colon; a term is printed quoted or bare. */
  datatype Item =
    | Filter(field: string, before: string, after: string, value: string, quoted: bool)
    | Term(text: string, bare: bool)

  /** An item and the separator in front of it: blanks, with the word AND among them or not. */
  datatype Part = Part(blanks: string, conjunction: string, more: string, item: Item)

  function ShowItem(i: Item): string {
    match i
    case Filter(field, before, after, value, quoted) => field + (before + (":" + (after + (if quoted then Quoted(value) else value))))
    case Term(text, bare) => if bare then text else Quoted(text)
  }

  datatype Parts = End | More(part: Part, rest: Parts)

  function Separator(p: Part): string {
    p.blanks + (p.conjunction + p.more)
  }

  function Print(parts: Parts): string {
    match parts
    case End => ""
    case More(p, rest) => Separator(p) + (ShowItem(p.item) + Print(rest))
  }

  function ItemMeaning(i: Item): Parsed {
    match i
    case Filter(field, _, _, value, _) => Parsed([(Lower(field), value)], [])
    case Term(text, _) => Parsed([], [text])
  }

  /** The filters of a printed query, and its free terms, in order. */
  function Meaning(parts: Parts): Parsed {
    match parts
    case End => Parsed([], [])
    case More(p, rest) => Plus(ItemMeaning(p.item), Meaning(rest))
  }

  predicate Identifier(s: string) {
    s != "" && !IsDigit(s[0]) && AllIn(s, WordChar)
  }

  /** The word AND, in any case, stands at `i`, with no part of a word next to it. */
  predicate WordAndAt(s: string, i: nat) {
    && i + 3 <= |s| && Lower(s[i..i + 3]) == "and"
    && (i > 0 ==> !IsWord(s[i - 1])) && (i + 3 < |s| ==> !IsWord(s[i + 3]))
  }

  /** No standalone word AND, in any case, inside the text. */
  predicate NoAnd(s: string) {
    forall i :: 0 <= i < |s| ==> !WordAndAt(s, i)
  }

  predicate GoodItem(i: Item) {
    match i
    case Filter(field, before, after, value, quoted) =>
      && Identifier(field) && Lower(field) != "and" && AllBlank(before) && AllBlank(after)
      && value != "" && QuoteFree(value) && NoAnd(value)
      && (quoted || AllIn(value, NonBlank))
    case Term(text, bare) =>
      && text != "" && QuoteFree(text) && NoAnd(text)
      && (bare ==> AllIn(text, NonBlank) && ':' !in text)
  }

  /** Items are apart: by blanks, or by the word AND with blanks on both sides. */
  predicate GoodPart(p: Part, first: bool) {
    && GoodItem(p.item) && AllBlank(p.blanks) && AllBlank(p.more)
    && (first || p.blanks != "")
    && (p.conjunction == "" || (Lower(p.conjunction) == "and" && p.more != ""))
  }

  predicate GoodParts(parts: Parts, first: bool) {
    parts.More? ==> GoodPart(parts.part, first) && GoodParts(parts.rest, false)
  }

  // ---------------------------------------------------------------- removing AND from a printed query

  /** No word runs across the border of the two texts. */
  predicate Apart(x: string, y: string) {
    x == "" || y == "" || !IsWord(x[|x| - 1]) || !IsWord(y[0])
  }

  lemma AndAtRight(x: string, y: string, i: nat)
    requires Apart(x, y) && i < |y|
    ensures AndAt(x + y, |x| + i) == AndAt(y, i) && (x + y)[|x| + i] == y[i]
  {
    var s := x + y;
    assert forall k :: 0 <= k < |y| ==> s[|x| + k] == y[k];
    assert s[|x| + i] == y[i];
    if i + 3 <= |y| {
      assert s[|x| + i + 1] == y[i + 1] && s[|x| + i + 2] == y[i + 2];
      if i + 3 < |y| {
        assert s[|x| + i + 3] == y[i + 3];
      }
      if i > 0 {
        assert s[|x| + i - 1] == y[i - 1];
      } else if x != "" {
        assert s[|x| - 1] == x[|x| - 1];
      }
    }
  }

  lemma AndAtLeft(x: string, y: string, i: nat)
    requires Apart(x, y) && i < |x|
    ensures AndAt(x + y, i) == AndAt(x, i) && (x + y)[i] == x[i]
  {
    var s := x + y;
    assert forall k :: 0 <= k < |x| ==> s[k] == x[k];
    if y != "" {
      assert s[|x|] == y[0];
    }
  }

  lemma {:induction false} RemoveAndRight(x: string, y: string, i: nat)
    requires Apart(x, y) && i <= |y|
    ensures RemoveAndFrom(x + y, |x| + i) == RemoveAndFrom(y, i)
    decreases |y| - i
  {
    hide AndAt, Apart;
    var s, k := x + y, |x| + i;
    if i < |y| {
      AndAtRight(x, y, i);
      if AndAt(y, i) {
        RemoveAndRight(x, y, i + 3);
        assert RemoveAndFrom(s, k) == " " + RemoveAndFrom(s, k + 3);
      } else {
        RemoveAndRight(x, y, i + 1);
        assert s[k] == y[i] && RemoveAndFrom(s, k) == [s[k]] + RemoveAndFrom(s, k + 1);
      }
    }
  }

  lemma {:induction false} RemoveAndLeft(x: string, y: string, i: nat)
    requires Apart(x, y) && i <= |x|
    ensures RemoveAndFrom(x + y, i) == RemoveAndFrom(x, i) + RemoveAndFrom(x + y, |x|)
    decreases |x| - i
  {
    hide AndAt, Apart;
    if i < |x| {
      AndAtLeft(x, y, i);
      if AndAt(x, i) {
        RemoveAndLeft(x, y, i + 3);
      } else {
        RemoveAndLeft(x, y, i + 1);
      }
    }
  }

  /** Removing AND works piece by piece when no word runs across the border. */
  lemma RemoveAndSplit(x: string, y: string)
    requires Apart(x, y)
    ensures RemoveAnd(x + y) == RemoveAnd(x) + RemoveAnd(y)
  {
    RemoveAndLeft(x, y, 0);
    RemoveAndRight(x, y, 0);
  }

  lemma {:induction false} NoMatchNoChange(s: string, i: nat)
    requires i <= |s| && forall k :: i <= k < |s| ==> !AndAt(s, k)
    ensures RemoveAndFrom(s, i) == s[i..]
    decreases |s| - i
  {
    if i < |s| {
      NoMatchNoChange(s, i + 1);
    }
  }

  lemma AndReads(s: string, i: nat)
    ensures AndAt(s, i) <==> WordAndAt(s, i)
  {
    if i + 3 <= |s| {
      var w := s[i..i + 3];
      assert w[0] == s[i] && w[1] == s[i + 1] && w[2] == s[i + 2];
      assert Lower(w) == "and" <==> Lower(w)[0] == 'a' && Lower(w)[1] == 'n' && Lower(w)[2] == 'd';
    }
  }

  lemma IsAndReads(s: string)
    ensures IsAnd(s) <==> Lower(s) == "and"
  {
    AndReads(s, 0);
    if |s| == 3 {
      assert s[0..3] == s;
    }
  }

  lemma {:induction false} RemovedShortens(s: string, i: nat, k: nat)
    requires i <= |s|
    ensures |RemoveAndFrom(s, i)| <= |s| - i
    ensures i <= k < |s| && AndAt(s, k) ==> |RemoveAndFrom(s, i)| < |s| - i
    decreases |s| - i
  {
    if i < |s| {
      if AndAt(s, i) {
        RemovedShortens(s, i + 3, k);
      } else {
        RemovedShortens(s, i + 1, k);
      }
    }
  }

  /** Removing AND leaves a text alone if and only if the word AND stands nowhere in it. */
  lemma KeptIffNoAnd(s: string)
    ensures RemoveAnd(s) == s <==> NoAnd(s)
  {
    forall k | 0 <= k < |s| ensures AndAt(s, k) <==> WordAndAt(s, k) {
      AndReads(s, k);
    }
    if NoAnd(s) {
      NoMatchNoChange(s, 0);
      assert s[0..] == s;
    } else {
      var k :| 0 <= k < |s| && WordAndAt(s, k);
      RemovedShortens(s, 0, k);
    }
  }

  lemma IdentifierKept(s: string)
    requires Identifier(s) && Lower(s) != "and"
    ensures RemoveAnd(s) == s
  {
    IsAndReads(s);
    forall k | 0 <= k < |s| ensures !AndAt(s, k) {
      if k > 0 {
        assert IsWord(s[k - 1]);
      }
    }
    NoMatchNoChange(s, 0);
  }

  lemma BlanksKept(s: string)
    requires AllBlank(s)
    ensures RemoveAnd(s) == s
    ensures forall i :: 0 <= i < |s| ==> !IsWord(s[i])
  {
    NoMatchNoChange(s, 0);
  }

  lemma MarkKept(s: string)
    requires s == "\"" || s == ":"
    ensures RemoveAnd(s) == s
  {
    NoMatchNoChange(s, 0);
  }

  lemma AndCleared(s: string)
    requires Lower(s) == "and"
    ensures RemoveAnd(s) == " "
  {
    IsAndReads(s);
    assert RemoveAndFrom(s, 3) == "";
  }

  lemma QuotedKept(v: string)
    requires NoAnd(v)
    ensures RemoveAnd(Quoted(v)) == Quoted(v)
  {
    KeptIffNoAnd(v);
    MarkKept("\"");
    RemoveAndSplit("\"", v);
    RemoveAndSplit("\"" + v, "\"");
  }

  lemma ItemKept(i: Item)
    requires GoodItem(i)
    ensures RemoveAnd(ShowItem(i)) == ShowItem(i)
  {
    match i
    case Term(text, bare) =>
      KeptIffNoAnd(text);
      if !bare {
        QuotedKept(text);
      }
    case Filter(field, before, after, value, quoted) =>
      var shown := if quoted then Quoted(value) else value;
      KeptIffNoAnd(value);
      if quoted {
        QuotedKept(value);
      }
      IdentifierKept(field);
      BlanksKept(before);
      BlanksKept(after);
      MarkKept(":");
      RemoveAndSplit(after, shown);
      RemoveAndSplit(":", after + shown);
      RemoveAndSplit(before, ":" + (after + shown));
      RemoveAndSplit(field, before + (":" + (after + shown)));
  }

  /** What the scanner sees of a separator: its AND is a blank now. */
  function ClearedSeparator(p: Part): string {
    p.blanks + ((if p.conjunction == "" then "" else " ") + p.more)
  }

  function Cleared(parts: Parts): string {
    match parts
    case End => ""
    case More(p, rest) => ClearedSeparator(p) + (ShowItem(p.item) + Cleared(rest))
  }

  lemma SeparatorCleared(p: Part, first: bool)
    requires GoodPart(p, first)
    ensures RemoveAnd(Separator(p)) == ClearedSeparator(p)
    ensures AllBlank(ClearedSeparator(p))
  {
    BlanksKept(p.blanks);
    BlanksKept(p.more);
    if p.conjunction != "" {
      AndCleared(p.conjunction);
      RemoveAndSplit(p.conjunction, p.more);
    }
    RemoveAndSplit(p.blanks, p.conjunction + p.more);
    assert p.conjunction == "" ==> p.conjunction + p.more == p.more && "" + p.more == p.more;
  }

  lemma StartsBlank(parts: Parts)
    requires GoodParts(parts, false)
    ensures Print(parts) == "" || IsSpace(Print(parts)[0])
    ensures Cleared(parts) == "" || IsSpace(Cleared(parts)[0])
  {
    if parts.More? {
      var p := parts.part;
      assert Separator(p)[0] == p.blanks[0] == ClearedSeparator(p)[0];
    }
  }

  lemma PieceByPiece(sep: string, item: string, rest: string)
    requires sep == "" || IsSpace(sep[|sep| - 1])
    requires rest == "" || IsSpace(rest[0])
    ensures RemoveAnd(sep + (item + rest)) == RemoveAnd(sep) + (RemoveAnd(item) + RemoveAnd(rest))
  {
    RemoveAndSplit(item, rest);
    RemoveAndSplit(sep, item + rest);
  }

  lemma SeparatorEndsBlank(p: Part, first: bool)
    requires GoodPart(p, first)
    ensures var sep := Separator(p); sep == "" || IsSpace(sep[|sep| - 1])
  {
    var sep := Separator(p);
    if p.more != "" {
      assert sep[|sep| - 1] == p.more[|p.more| - 1];
    } else if p.blanks != "" {
      assert sep == p.blanks;
    }
  }

  lemma {:induction false} PrintedCleared(parts: Parts, first: bool)
    requires GoodParts(parts, first)
    ensures RemoveAnd(Print(parts)) == Cleared(parts)
  {
    if parts.More? {
      var p, rest := parts.part, Print(parts.rest);
      StartsBlank(parts.rest);
      PrintedCleared(parts.rest, false);
      SeparatorCleared(p, first);
      ItemKept(p.item);
      SeparatorEndsBlank(p, first);
      PieceByPiece(Separator(p), ShowItem(p.item), rest);
    }
  }

  // ---------------------------------------------------------------- scanning a printed query

  lemma TurnBlank(s: string)
    requires s != "" && IsSpace(s[0])
    ensures Turn(s) == (Parsed([], []), s[1..])
  {
    assert FieldLen(s) == 0 && ValueLen(s) == 0;
  }

  lemma {:induction false} ScanSkipsBlanks(b: string, s: string)
    requires AllBlank(b)
    ensures Scan(b + s) == Scan(s)
  {
    hide Turn, Scan;
    if b == "" {
      assert b + s == s;
    } else {
      assert (b + s)[1..] == b[1..] + s;
      TurnBlank(b + s);
      ScanTurn(b + s);
      ScanSkipsBlanks(b[1..], s);
    }
  }

  lemma ValueLenQuoted(v: string, rest: string)
    requires v != "" && QuoteFree(v)
    ensures ValueLen(Quoted(v) + rest) == |v| + 2
  {
    var s := Quoted(v) + rest;
    assert s[1..] == v + ("\"" + rest);
    SpanOf(v, "\"" + rest, NonQuote);
  }

  lemma ValueLenBare(v: string, rest: string)
    requires v != "" && QuoteFree(v) && AllIn(v, NonBlank) && (rest == "" || IsSpace(rest[0]))
    ensures ValueLen(v + rest) == |v|
  {
    assert (v + rest)[0] == v[0];
    SpanOf(v, rest, NonBlank);
  }

  /** An empty pair of quotes does not start a quoted text: it belongs to the run of characters it starts. */
  lemma EmptyQuotesRun(v: string, rest: string)
    requires AllIn(v, NonBlank) && (rest == "" || IsSpace(rest[0]))
    ensures ValueLen(("\"\"" + v) + rest) == |v| + 2
  {
    var s := ("\"\"" + v) + rest;
    assert s[0] == '"' && s[1] == '"' && s[1..][0] == '"';
    assert SpanLen(s[1..], NonQuote) == 0;
    assert AllIn("\"\"" + v, NonBlank);
    SpanOf("\"\"" + v, rest, NonBlank);
  }

  /** A quote that is never closed belongs to the run of characters it starts. */
  lemma OpenQuoteRun(v: string, rest: string)
    requires AllIn(v, NonBlank) && QuoteFree(v) && QuoteFree(rest) && (rest == "" || IsSpace(rest[0]))
    ensures ValueLen(("\"" + v) + rest) == |v| + 1
  {
    var s := ("\"" + v) + rest;
    assert s[0] == '"' && s[1..] == v + rest;
    assert forall i :: 0 <= i < |v + rest| ==> In((v + rest)[i], NonQuote);
    assert (v + rest) + "" == v + rest;
    SpanOf(v + rest, "", NonQuote);
    assert AllIn("\"" + v, NonBlank);
    SpanOf("\"" + v, rest, NonBlank);
  }

  lemma RunWithoutField(v: string, rest: string)
    requires v != "" && AllIn(v, NonBlank) && QuoteFree(v) && Lower(v) != "and" && (rest == "" || IsSpace(rest[0]))
    requires MatchField(v + rest).None?
    ensures Turn(v + rest) == (Parsed([], [v]), rest)
  {
    hide MatchField, IsAnd, ValueLen, StripQuotes, Lower;
    IsAndReads(v);
    ValueLenBare(v, rest);
    StripQuotesOff(v);
    SliceOf(v, rest);
    assert AddTerm([], v) == [v];
  }

  /** A run of characters is a free term, colons and all, unless an identifier and a colon start it: so is an
      address with a port. */
  lemma RunIsTerm(v: string, rest: string)
    requires v != "" && AllIn(v, NonBlank) && QuoteFree(v) && Lower(v) != "and" && (rest == "" || IsSpace(rest[0]))
    requires IsDigit(v[0]) || exists i :: 0 <= i < |v| && !IsWord(v[i]) && v[i] != ':' && forall j :: 0 <= j < i ==> v[j] != ':'
    ensures Turn(v + rest) == (Parsed([], [v]), rest)
  {
    hide Turn, Lower;
    var s := v + rest;
    var f := FieldLen(s);
    assert forall i :: 0 <= i < |v| ==> s[i] == v[i];
    if !IsDigit(v[0]) {
      var i :| 0 <= i < |v| && !IsWord(v[i]) && v[i] != ':' && forall j :: 0 <= j < i ==> v[j] != ':';
      assert !In(s[i], WordChar);
      assert f <= i;
      assert In(v[f], NonBlank) && s[f..][0] == v[f] != ':';
      assert SkipBlanks(s[f..]) == s[f..];
    }
    RunWithoutField(v, rest);
  }

  lemma FieldLenOff(field: string, y: string)
    requires Identifier(field) && (y == "" || !IsWord(y[0]))
    ensures FieldLen(field + y) == |field|
  {
    SpanOf(field, y, WordChar);
    assert (field + y)[0] == field[0];
  }

  lemma NothingAfterColon(field: string)
    requires Identifier(field)
    ensures MatchField(field + ":").None?
  {
    FieldLenOff(field, ":");
    SliceOf(field, ":");
    assert SkipBlanks(":") == ":" && SkipBlanks("") == "" && ":"[1..] == "";
  }

  /** A word and a colon with nothing after them are a free term as well. */
  lemma BareColonIsTerm(field: string)
    requires Identifier(field)
    ensures Turn(field + ":") == (Parsed([], [field + ":"]), "")
  {
    hide Turn, MatchField;
    var s := field + ":";
    assert forall i :: 0 <= i < |field| ==> s[i] == field[i] && In(field[i], WordChar);
    assert Lower(s)[|field|] == ':' == s[|field|];
    assert s + "" == s;
    NothingAfterColon(field);
    RunWithoutField(s, "");
  }

  lemma TurnValue(s: string, v: string)
    requires s != "" && s[0] == '"' && 0 < |v| == ValueLen(s) && s[..|v|] == v
    ensures Turn(s) == (Parsed([], AddTerm([], StripQuotes(v))), s[|v|..])
  {
    assert FieldLen(s) == 0;
  }

  lemma NotAnd(text: string)
    requires NoAnd(text)
    ensures !IsAnd(text)
  {
    KeptIffNoAnd(text);
    IsAndReads(text);
    if IsAnd(text) {
      AndCleared(text);
    }
  }

  lemma TurnTerm(text: string, rest: string)
    requires GoodItem(Term(text, false))
    ensures Turn(Quoted(text) + rest) == (Parsed([], [text]), rest)
  {
    ValueLenQuoted(text, rest);
    StripQuotesOff(text);
    NotAnd(text);
    SliceOf(Quoted(text), rest);
    assert Quoted(text)[0] == '"' == (Quoted(text) + rest)[0];
    assert AddTerm([], text) == [text];
    TurnValue(Quoted(text) + rest, Quoted(text));
  }

  /** A bare word without a colon is not the field of a filter, for no colon follows its blanks either. */
  lemma NoFieldInBare(text: string, rest: string)
    requires text != "" && AllIn(text, NonBlank) && ':' !in text
    requires rest == "" || IsSpace(rest[0])
    requires SkipBlanks(rest) == "" || SkipBlanks(rest)[0] != ':'
    ensures MatchField(text + rest).None?
  {
    var s := text + rest;
    var f := FieldLen(s);
    assert forall i :: 0 <= i < |text| ==> s[i] == text[i];
    if rest != "" {
      assert s[|text|] == rest[0] && !In(rest[0], WordChar);
    }
    assert f <= |text|;
    if f < |text| {
      assert In(text[f], NonBlank) && s[f..][0] == text[f];
      assert SkipBlanks(s[f..]) == s[f..];
    } else {
      SliceOf(text, rest);
    }
  }

  lemma TurnBareTerm(text: string, rest: string)
    requires GoodItem(Term(text, true)) && (rest == "" || IsSpace(rest[0]))
    requires SkipBlanks(rest) == "" || SkipBlanks(rest)[0] != ':'
    ensures Turn(text + rest) == (Parsed([], [text]), rest)
  {
    hide MatchField, ValueLen, SkipBlanks;
    NoFieldInBare(text, rest);
    ValueLenBare(text, rest);
    StripQuotesOff(text);
    NotAnd(text);
    SliceOf(text, rest);
    assert AddTerm([], text) == [text];
  }

  lemma ItemStart(i: Item)
    requires GoodItem(i)
    ensures ShowItem(i) != "" && ShowItem(i)[0] != ':' && !IsSpace(ShowItem(i)[0])
  {
    match i
    case Term(text, bare) => assert bare ==> In(text[0], NonBlank) && text[0] in text;
    case Filter(field, _, _, _, _) => assert In(field[0], WordChar) && ShowItem(i)[0] == field[0];
  }

  /** What follows the blanks after an item is not a colon. */
  lemma NextNotColon(parts: Parts)
    requires GoodParts(parts, false)
    ensures var next := SkipBlanks(Cleared(parts)); next == "" || next[0] != ':'
  {
    if parts.More? {
      var p := parts.part;
      var item := ShowItem(p.item);
      SeparatorCleared(p, false);
      ItemStart(p.item);
      assert (item + Cleared(parts.rest))[0] == item[0];
      SkipBlanksOff(ClearedSeparator(p), item + Cleared(parts.rest));
    }
  }

  lemma MatchFieldBy(s: string, f: nat, colon: string, text: string)
    requires FieldLen(s) == f > 0 && SkipBlanks(s[f..]) == colon
    requires colon != "" && colon[0] == ':' && SkipBlanks(colon[1..]) == text && ValueLen(text) > 0
    ensures MatchField(s) == Some(FieldMatch(s[..f], text[..ValueLen(text)], text[ValueLen(text)..]))
  {
  }

  /** The field expression matches a printed filter: field, blanks, colon, blanks, value. */
  lemma MatchPrintedFilter(field: string, before: string, after: string, shown: string, rest: string)
    requires Identifier(field) && AllBlank(before) && AllBlank(after)
    requires shown != "" && !IsSpace(shown[0]) && ValueLen(shown + rest) == |shown|
    ensures MatchField(field + (before + (":" + (after + (shown + rest))))) == Some(FieldMatch(field, shown, rest))
  {
    var tail := shown + rest;
    var colon := ":" + (after + tail);
    BlanksKept(before);
    assert before != "" ==> (before + colon)[0] == before[0];
    FieldLenOff(field, before + colon);
    SliceOf(field, before + colon);
    SkipBlanksOff(before, colon);
    SliceOf(":", after + tail);
    assert tail[0] == shown[0];
    SkipBlanksOff(after, tail);
    SliceOf(shown, rest);
    MatchFieldBy(field + (before + colon), |field|, colon, tail);
  }

  lemma ShownThenRest(a: string, b: string, c: string, shown: string, rest: string)
    ensures (a + (b + (":" + (c + shown)))) + rest == a + (b + (":" + (c + (shown + rest))))
  {
  }

  lemma ShownValue(value: string, quoted: bool, rest: string)
    requires value != "" && QuoteFree(value) && (quoted || AllIn(value, NonBlank)) && (rest == "" || IsSpace(rest[0]))
    ensures var shown := if quoted then Quoted(value) else value;
            && shown != "" && !IsSpace(shown[0])
            && ValueLen(shown + rest) == |shown| && StripQuotes(shown) == value
  {
    StripQuotesOff(value);
    if quoted {
      ValueLenQuoted(value, rest);
    } else {
      ValueLenBare(value, rest);
    }
  }

  lemma TurnMatched(s: string, m: FieldMatch)
    requires s != "" && MatchField(s) == Some(m)
    ensures Turn(s) == (Parsed([(Lower(m.field), StripQuotes(m.value))], []), m.rest)
  {
  }

  lemma TurnFilter(i: Item, rest: string)
    requires i.Filter? && GoodItem(i) && (rest == "" || IsSpace(rest[0]))
    ensures Turn(ShowItem(i) + rest) == (Parsed([(Lower(i.field), i.value)], []), rest)
  {
    var shown := if i.quoted then Quoted(i.value) else i.value;
    ShownValue(i.value, i.quoted, rest);
    MatchPrintedFilter(i.field, i.before, i.after, shown, rest);
    ShownThenRest(i.field, i.before, i.after, shown, rest);
    TurnMatched(ShowItem(i) + rest, FieldMatch(i.field, shown, rest));
  }

  lemma {:induction false} ScanPrinted(parts: Parts, first: bool)
    requires GoodParts(parts, first)
    ensures Scan(Cleared(parts)) == Meaning(parts)
  {
    if parts.More? {
      var p, rest := parts.part, Cleared(parts.rest);
      StartsBlank(parts.rest);
      SeparatorCleared(p, first);
      ScanPrinted(parts.rest, false);
      ScanSkipsBlanks(ClearedSeparator(p), ShowItem(p.item) + rest);
      match p.item
      case Term(text, bare) =>
        if bare {
          NextNotColon(parts.rest);
          TurnBareTerm(text, rest);
        } else {
          TurnTerm(text, rest);
        }
      case Filter(_, _, _, _, _) => TurnFilter(p.item, rest);
      ScanTurn(ShowItem(p.item) + rest);
    }
  }

  lemma PrintNotBlank(parts: Parts)
    requires parts.More? && GoodParts(parts, true)
    ensures Strip(Print(parts)) != ""
  {
    var p := parts.part;
    var item := ShowItem(p.item);
    ItemStart(p.item);
    assert Print(parts)[|Separator(p)|] == item[0];
    StripKeeps(Print(parts), |Separator(p)|);
  }

  /** The round trip: parsing a printed query gives back the filters and the free terms, in order. */
  lemma ParsePrinted(parts: Parts)
    requires GoodParts(parts, true)
    ensures Parse(Print(parts)) == Meaning(parts)
  {
    if parts.More? {
      PrintNotBlank(parts);
      PrintedCleared(parts, true);
      ScanPrinted(parts, true);
    }
  }
}
