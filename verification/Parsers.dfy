/**
 FortiGate key=value syslog (services/normalizers/parsers.py): `parse_kv_syslog`, whose expression
   (\w+)=(".*?"|\S+)
 is written as a scanner, and the marker search of `strip_syslog_header`.
 */
module Parsers {
  import opened Wrappers
  import opened Text
  import opened Scanning

  // ---------------------------------------------------------------- parse_kv_syslog

  /** The length of a value at the start: a quoted text on one line, else a run without blanks. */
  function ValueLen(s: string): (n: nat)
    ensures n <= |s|
  {
    if s != "" && s[0] == '"' then
      var n := SpanLen(s[1..], InQuotes);
      if n + 1 < |s| && s[n + 1] == '"' then n + 2 else SpanLen(s, NonBlank)
    else SpanLen(s, NonBlank)
  }

  datatype PairMatch = PairMatch(key: string, value: string, rest: string)

  /** The expression at the start of the text. */
  function MatchPair(s: string): (r: Option<PairMatch>)
    ensures r.Some? ==> |r.value.rest| < |s|
  {
    var w := SpanLen(s, WordChar);
    if w == 0 || w == |s| || s[w] != '=' then None
    else
      var text := s[w + 1..];
      var v := ValueLen(text);
      if v == 0 then None else Some(PairMatch(s[..w], text[..v], text[v..]))
  }

  /** All pairs, from the left, each with its quotes stripped; the last one of a key wins. */
  function Pairs(s: string): map<string, string>
    decreases |s|
  {
    if s == "" then map[]
    else
      var m := MatchPair(s);
      if m.Some? then map[m.value.key := StripQuotes(m.value.value)] + Pairs(m.value.rest)
      else Pairs(s[1..])
  }

  lemma PairsTurn(s: string)
    requires s != ""
    ensures var m := MatchPair(s);
            if m.Some? then Pairs(s) == map[m.value.key := StripQuotes(m.value.value)] + Pairs(m.value.rest)
            else Pairs(s) == Pairs(s[1..])
  {
  }

  method ParseKvSyslog(message: string) returns (out: map<string, string>)
    ensures out == Pairs(message)
  {
    hide MatchPair, StripQuotes;
    out := map[];
    var rest := message;
    while rest != ""
      invariant out + Pairs(rest) == Pairs(message)
      decreases |rest|
    {
      var m := MatchPair(rest);
      PairsTurn(rest);
      if m.Some? {
        out := out[m.value.key := StripQuotes(m.value.value)];
        rest := m.value.rest;
      } else {
        rest := rest[1..];
      }
    }
  }

  // ---------------------------------------------------------------- printing

  /** A line of pairs: blanks, then key=value with the value quoted or bare. */
  datatype Line = End | Pair(blanks: string, key: string, value: string, quoted: bool, rest: Line)

  function ShowValue(value: string, quoted: bool): string {
    if quoted then Quoted(value) else value
  }

  function Print(line: Line): string {
    match line
    case End => ""
    case Pair(blanks, key, value, quoted, rest) => blanks + (key + ("=" + (ShowValue(value, quoted) + Print(rest))))
  }

  function LastWins(line: Line): map<string, string> {
    match line
    case End => map[]
    case Pair(_, key, value, _, rest) => map[key := value] + LastWins(rest)
  }

  predicate GoodPair(key: string, value: string, quoted: bool) {
    && key != "" && AllIn(key, WordChar)
    && QuoteFree(value)
    && (if quoted then AllIn(value, InQuotes) else value != "" && AllIn(value, NonBlank))
  }

  predicate GoodLine(line: Line, first: bool) {
    line.Pair? ==>
      && GoodPair(line.key, line.value, line.quoted) && GoodLine(line.rest, false)
      && AllBlank(line.blanks) && (first || line.blanks != "")
  }

  lemma ShownValue(value: string, quoted: bool, rest: string)
    requires QuoteFree(value) && (if quoted then AllIn(value, InQuotes) else value != "" && AllIn(value, NonBlank))
    requires rest == "" || IsSpace(rest[0])
    ensures var shown := ShowValue(value, quoted);
            && shown != "" && ValueLen(shown + rest) == |shown|
            && StripQuotes(shown) == value
            && !IsSpace(shown[|shown| - 1])
  {
    StripQuotesOff(value);
    if quoted {
      var s, tail := Quoted(value) + rest, "\"" + rest;
      assert s[1..] == value + tail;
      SpanOf(value, tail, InQuotes);
      assert s[|value| + 1] == '"';
    } else {
      assert (value + rest)[0] == value[0];
      assert In(value[|value| - 1], NonBlank);
      SpanOf(value, rest, NonBlank);
    }
  }

  lemma MatchPrintedPair(key: string, shown: string, rest: string)
    requires key != "" && AllIn(key, WordChar) && shown != "" && ValueLen(shown + rest) == |shown|
    ensures MatchPair(key + ("=" + (shown + rest))) == Some(PairMatch(key, shown, rest))
  {
    var text := shown + rest;
    var tail := "=" + text;
    SpanOf(key, tail, WordChar);
    SliceOf(key, tail);
    assert (key + tail)[|key|] == '=';
    assert (key + tail)[|key| + 1..] == text;
    SliceOf(shown, rest);
  }

  lemma {:induction false} PairsSkipBlanks(b: string, s: string)
    requires AllBlank(b)
    ensures Pairs(b + s) == Pairs(s)
  {
    if b == "" {
      assert b + s == s;
    } else {
      var t := b + s;
      assert t[0] == b[0] && t[1..] == b[1..] + s;
      assert MatchPair(t).None? by {
        assert In(b[0], Blank);
        assert SpanLen(t, WordChar) == 0;
      }
      PairsTurn(t);
      PairsSkipBlanks(b[1..], s);
    }
  }

  /** Text that holds no `=`, up to the next blank, is no pair and is passed over. */
  lemma {:induction false} OtherWordsSkipped(word: string, s: string)
    requires '=' !in word && s != "" && IsSpace(s[0])
    ensures Pairs(word + s) == Pairs(s)
  {
    if word == "" {
      assert word + s == s;
    } else {
      var t, w := word + s, SpanLen(word + s, WordChar);
      assert t[0] == word[0] && t[1..] == word[1..] + s;
      assert forall i :: 0 <= i < |word| ==> t[i] == word[i];
      assert t[|word|] == s[0] && !In(s[0], WordChar);
      assert w <= |word| && t[w] != '=';
      PairsTurn(t);
      OtherWordsSkipped(word[1..], s);
    }
  }

  /** A key and an equals sign with nothing, or a blank, after them are no pair either. */
  lemma {:induction false} EmptyValueSkipped(key: string, s: string)
    requires AllIn(key, WordChar) && (s == "" || IsSpace(s[0]))
    ensures Pairs(key + ("=" + s)) == Pairs(s)
  {
    var tail := "=" + s;
    var t := key + tail;
    SpanOf(key, tail, WordChar);
    assert t[|key|] == '=' && t[|key| + 1..] == s;
    assert ValueLen(s) == 0;
    PairsTurn(t);
    if key == "" {
      assert t[1..] == s;
    } else {
      assert t[1..] == key[1..] + tail;
      EmptyValueSkipped(key[1..], s);
    }
  }

  lemma StartsBlank(line: Line)
    requires GoodLine(line, false)
    ensures Print(line) == "" || IsSpace(Print(line)[0])
  {
    if line.Pair? {
      assert Print(line)[0] == line.blanks[0];
    }
  }

  /** The round trip: a printed line parses to the map of its pairs in which the last pair of a key wins. */
  lemma {:induction false} ParsePrintedLine(line: Line, first: bool)
    requires GoodLine(line, first)
    ensures Pairs(Print(line)) == LastWins(line)
  {
    match line
    case End =>
    case Pair(blanks, key, value, quoted, rest) =>
      var shown, tail := ShowValue(value, quoted), Print(rest);
      StartsBlank(rest);
      ParsePrintedLine(rest, false);
      ShownValue(value, quoted, tail);
      MatchPrintedPair(key, shown, tail);
      var text := key + ("=" + (shown + tail));
      PairsSkipBlanks(blanks, text);
      PairsTurn(text);
  }

  // ---------------------------------------------------------------- strip_syslog_header

  /** `pat` occurs in `s` at position `i`. */
  predicate OccursAt(s: string, pat: string, i: nat) {
    i <= |s| && pat <= s[i..]
  }

  ghost predicate Occurs(s: string, pat: string) {
    exists i :: 0 <= i <= |s| && OccursAt(s, pat, i)
  }

  /** `str.find`: the first occurrence at or after `i`. */
  function Find(s: string, pat: string, i: nat): (r: Option<nat>)
    requires i <= |s|
    ensures r.Some? ==> i <= r.value <= |s| && OccursAt(s, pat, r.value) && forall j :: i <= j < r.value ==> !OccursAt(s, pat, j)
    ensures r.None? ==> forall j :: i <= j <= |s| ==> !OccursAt(s, pat, j)
    decreases |s| - i
  {
    if OccursAt(s, pat, i) then Some(i) else if i == |s| then None else Find(s, pat, i + 1)
  }

  const MARKERS: seq<string> := ["date=", "logid=", "devname=", "devid=", "type=", "srcip="]

  predicate LooksForti(text: string) {
    Find(text, "logid=", 0).Some? || Find(text, "srcip=", 0).Some? || Find(text, "devid=", 0).Some?
  }

  /** The text from the first occurrence of the first marker, of those from number `k` on, that occurs. */
  function FromMarker(text: string, k: nat): Option<string>
    requires k <= |MARKERS|
    decreases |MARKERS| - k
  {
    if k == |MARKERS| then None
    else match Find(text, MARKERS[k], 0)
      case Some(i) => Some(text[i..])
      case None => FromMarker(text, k + 1)
  }

  /** `headerBody` is what the general header expression leaves of a text, if it matches. */
  function Unheaded(raw: string, headerBody: string -> Option<string>): string {
    var text := Strip(raw);
    var cut := FromMarker(text, 0);
    if LooksForti(text) && cut.Some? then cut.value
    else match headerBody(text)
      case Some(b) => if b != "" then Strip(b) else text
      case None => text
  }

  lemma MarkerStep(text: string, k: nat)
    requires k < |MARKERS|
    ensures FromMarker(text, |MARKERS|).None?
    ensures FromMarker(text, k) ==
              if Find(text, MARKERS[k], 0).Some? then Some(text[Find(text, MARKERS[k], 0).value..]) else FromMarker(text, k + 1)
  {
    hide Find;
  }

  method StripSyslogHeader(raw: string, headerBody: string -> Option<string>) returns (body: string)
    ensures body == Unheaded(raw, headerBody)
  {
    hide Strip, Find, LooksForti, FromMarker;
    var text := Strip(raw);
    MarkerStep(text, 0);
    if LooksForti(text) {
      for k := 0 to |MARKERS|
        invariant FromMarker(text, 0) == FromMarker(text, k)
      {
        MarkerStep(text, k);
        var at := Find(text, MARKERS[k], 0);
        if at.Some? {
          return text[at.value..];
        }
      }
    }
    var m := headerBody(text);
    if m.Some? && m.value != "" {
      return Strip(m.value);
    }
    return text;
  }

  /** `body` is the text from the first occurrence, at `i`, of marker `m`, and no marker from `k` on and before `m` occurs. */
  ghost predicate CutAt(text: string, k: nat, m: nat, i: nat, body: string) {
    var markers := ["date=", "logid=", "devname=", "devid=", "type=", "srcip="];
    && k <= m < 6 && i <= |text| && body == text[i..]
    && OccursAt(text, markers[m], i) && (forall j :: 0 <= j < i ==> !OccursAt(text, markers[m], j))
    && (forall l :: k <= l < m ==> !Occurs(text, markers[l]))
  }

  lemma FoundOrNot(text: string, pat: string)
    ensures Find(text, pat, 0).None? <==> !Occurs(text, pat)
  {
  }

  lemma {:induction false} FromMarkerCuts(text: string, k: nat)
    requires k <= |MARKERS|
    ensures FromMarker(text, k).None? ==> forall m :: k <= m < |MARKERS| ==> !Occurs(text, MARKERS[m])
    ensures FromMarker(text, k).Some? ==> exists m: nat, i: nat :: CutAt(text, k, m, i, FromMarker(text, k).value)
    decreases |MARKERS| - k
  {
    hide Occurs, OccursAt;
    if k < |MARKERS| {
      FromMarkerCuts(text, k + 1);
      var at := Find(text, MARKERS[k], 0);
      FoundOrNot(text, MARKERS[k]);
      if at.Some? {
        assert CutAt(text, k, k, at.value, text[at.value..]);
      } else if FromMarker(text, k + 1).Some? {
        var m: nat, i: nat :| CutAt(text, k + 1, m, i, FromMarker(text, k + 1).value);
        assert CutAt(text, k, m, i, FromMarker(text, k).value);
      }
    }
  }

  /** A FortiGate-like text is always cut: at the first occurrence of the first marker that occurs. */
  lemma FortiTextCut(raw: string, headerBody: string -> Option<string>)
    requires Occurs(Strip(raw), "logid=") || Occurs(Strip(raw), "srcip=") || Occurs(Strip(raw), "devid=")
    ensures exists m: nat, i: nat :: CutAt(Strip(raw), 0, m, i, Unheaded(raw, headerBody))
  {
    hide Occurs, OccursAt, Find, CutAt, FromMarker, Strip;
    var text := Strip(raw);
    FromMarkerCuts(text, 0);
    assert MARKERS[1] == "logid=" && MARKERS[3] == "devid=" && MARKERS[5] == "srcip=";
    FoundOrNot(text, "logid=");
    FoundOrNot(text, "devid=");
    FoundOrNot(text, "srcip=");
    assert FromMarker(text, 0).Some? && Unheaded(raw, headerBody) == FromMarker(text, 0).value;
  }

  /** Any other text goes through the header expression: what that leaves of it, stripped, or else all of it. */
  lemma OtherTextUnheaded(raw: string, headerBody: string -> Option<string>)
    requires !Occurs(Strip(raw), "logid=") && !Occurs(Strip(raw), "srcip=") && !Occurs(Strip(raw), "devid=")
    ensures var text := Strip(raw);
            Unheaded(raw, headerBody) ==
              if headerBody(text).None? || headerBody(text).value == "" then text else Strip(headerBody(text).value)
  {
    hide Occurs, Find, FromMarker, Strip;
    FoundOrNot(Strip(raw), "logid=");
    FoundOrNot(Strip(raw), "srcip=");
    FoundOrNot(Strip(raw), "devid=");
  }

  lemma {:induction false} StripLeftSplit(x: string, y: string)
    requires y != "" && !IsSpace(y[0])
    ensures StripLeft(x + y) == StripLeft(x) + y
  {
    if x == "" {
      assert x + y == y;
    } else {
      assert (x + y)[0] == x[0] && (x + y)[1..] == x[1..] + y;
      StripLeftSplit(x[1..], y);
    }
  }

  lemma {:induction false} StripLeftIsSuffix(s: string)
    ensures |StripLeft(s)| <= |s| && StripLeft(s) == s[|s| - |StripLeft(s)|..]
  {
    if s != "" && IsSpace(s[0]) {
      StripLeftIsSuffix(s[1..]);
      assert s[1..][|s| - 1 - |StripLeft(s)|..] == s[|s| - |StripLeft(s)|..];
    }
  }

  lemma {:induction false} PrintEndsNonBlank(line: Line, first: bool)
    requires GoodLine(line, first) && line.Pair?
    ensures Print(line) != "" && !IsSpace(Print(line)[|Print(line)| - 1])
  {
    var s, tail := Print(line), Print(line.rest);
    var shown := ShowValue(line.value, line.quoted);
    StartsBlank(line.rest);
    ShownValue(line.value, line.quoted, tail);
    if line.rest.Pair? {
      PrintEndsNonBlank(line.rest, false);
      assert s[|s| - 1] == tail[|tail| - 1];
    } else {
      assert s[|s| - 1] == shown[|shown| - 1];
    }
  }

  predicate HasKey(line: Line, key: string) {
    line.Pair? && (line.key == key || HasKey(line.rest, key))
  }

  lemma OccursInside(x: string, pat: string, y: string)
    ensures Occurs(x + (pat + y), pat)
  {
    var s := x + (pat + y);
    SliceOf(x, pat + y);
    assert OccursAt(s, pat, |x|);
  }

  lemma OccursLater(x: string, s: string, pat: string)
    requires Occurs(s, pat)
    ensures Occurs(x + s, pat)
  {
    var i :| 0 <= i <= |s| && OccursAt(s, pat, i);
    assert (x + s)[|x| + i..] == s[i..];
    assert OccursAt(x + s, pat, |x| + i);
  }

  lemma {:induction false} KeyOccurs(line: Line, key: string)
    requires HasKey(line, key)
    ensures Occurs(Print(line), key + "=")
  {
    hide Occurs, OccursAt;
    var tail := ShowValue(line.value, line.quoted) + Print(line.rest);
    if line.key == key {
      assert key + ("=" + tail) == (key + "=") + tail;
      OccursInside(line.blanks, key + "=", tail);
    } else {
      KeyOccurs(line.rest, key);
      var before := line.blanks + line.key + "=" + ShowValue(line.value, line.quoted);
      assert Print(line) == before + Print(line.rest);
      OccursLater(before, Print(line.rest), key + "=");
    }
  }

  /** `date=` does not occur across the border, for no proper beginning of it is also an end of it. */
  lemma DateNotAcross(header: string, line: string, i: nat)
    requires "date=" <= line && i < |header| && OccursAt(header + line, "date=", i)
    ensures i + 5 <= |header| && OccursAt(header, "date=", i)
  {
    var s := header + line;
    assert forall k :: 0 <= k < 5 ==> s[i + k] == s[i..][k];
    assert s[|header|] == line[0];
    assert header[i..] == s[i..][..|header| - i];
  }

  lemma DateAtBorder(header: string, line: string)
    requires !Occurs(header, "date=") && "date=" <= line
    ensures Find(header + line, "date=", 0) == Some(|header|)
  {
    SliceOf(header, line);
    assert OccursAt(header + line, "date=", |header|);
    var first := Find(header + line, "date=", 0).value;
    if first < |header| {
      DateNotAcross(header, line, first);
    }
  }

  lemma DateFirst(text: string)
    ensures Find(text, "date=", 0).Some? ==> FromMarker(text, 0) == Some(text[Find(text, "date=", 0).value..])
  {
    assert MARKERS[0] == "date=";
  }

  lemma PrintedDateFirst(line: Line)
    requires line.Pair? && line.key == "date" && line.blanks == ""
    ensures "date=" <= Print(line) && Print(line)[0] == 'd'
  {
    var tail := ShowValue(line.value, line.quoted) + Print(line.rest);
    assert Print(line) == "" + ("date" + ("=" + tail)) == "date=" + tail;
  }

  lemma KeyLooksForti(text: string, key: string)
    requires key in ["logid", "srcip", "devid"] && Occurs(text, key + "=")
    ensures LooksForti(text)
  {
    assert "logid" + "=" == "logid=" && "srcip" + "=" == "srcip=" && "devid" + "=" == "devid=";
  }

  lemma StrippedText(header: string, s: string)
    requires s != "" && !IsSpace(s[0]) && !IsSpace(s[|s| - 1])
    ensures Strip(header + s) == StripLeft(header) + s
  {
    hide StripLeft;
    var h := StripLeft(header);
    StripLeftSplit(header, s);
    assert (h + s)[|h + s| - 1] == s[|s| - 1];
  }

  lemma SuffixHasNone(header: string, h: string)
    requires !Occurs(header, "date=") && h == StripLeft(header)
    ensures !Occurs(h, "date=")
  {
    StripLeftIsSuffix(header);
    var before := header[..|header| - |h|];
    assert before + h == header;
    if Occurs(h, "date=") {
      OccursLater(before, h, "date=");
    }
  }

  /** A PRI, a header text or anything else without `date=` in front of a line whose first pair is
      `date` is dropped exactly, and the line parses to its own pairs. */
  lemma HeaderDropped(header: string, line: Line, headerBody: string -> Option<string>)
    requires !Occurs(header, "date=")
    requires line.Pair? && GoodLine(line, true) && line.key == "date" && line.blanks == ""
    requires HasKey(line, "logid") || HasKey(line, "srcip") || HasKey(line, "devid")
    ensures var body := Unheaded(header + Print(line), headerBody);
            body == Print(line) && Pairs(body) == LastWins(line)
  {
    hide Occurs, GoodLine, FromMarker;
    var s, h := Print(line), StripLeft(header);
    var text := Strip(header + s);
    PrintedDateFirst(line);
    PrintEndsNonBlank(line, true);
    StrippedText(header, s);
    SuffixHasNone(header, h);
    DateAtBorder(h, s);
    SliceOf(h, s);
    var key := if HasKey(line, "logid") then "logid" else if HasKey(line, "srcip") then "srcip" else "devid";
    KeyOccurs(line, key);
    OccursLater(h, s, key + "=");
    KeyLooksForti(text, key);
    DateFirst(text);
    ParsePrintedLine(line, true);
  }
}
