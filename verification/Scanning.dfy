/** Scanning with character classes, and quotes, for the two parsers written as regular expressions. */
module Scanning {
  import opened Text

  /** The character classes \w, \s, \S, [^"], and the dot up to a quote. */
  datatype CharClass = WordChar | Blank | NonBlank | NonQuote | InQuotes

  predicate In(c: char, k: CharClass) {
    match k
    case WordChar => IsWord(c)
    case Blank => IsSpace(c)
    case NonBlank => !IsSpace(c)
    case NonQuote => c != '"'
    case InQuotes => c != '"' && c != '\n'
  }

  predicate AllIn(s: string, k: CharClass) {
    forall i :: 0 <= i < |s| ==> In(s[i], k)
  }

  predicate AllBlank(s: string) {
    AllIn(s, Blank)
  }

  predicate QuoteFree(s: string) {
    AllIn(s, NonQuote)
  }

  /** The length of the longest run of characters of the class at the start. */
  function SpanLen(s: string, k: CharClass): (n: nat)
    ensures n <= |s|
    ensures forall i :: 0 <= i < n ==> In(s[i], k)
    ensures n < |s| ==> !In(s[n], k)
  {
    if s != "" && In(s[0], k) then 1 + SpanLen(s[1..], k) else 0
  }

  lemma SpanOf(x: string, y: string, k: CharClass)
    requires AllIn(x, k)
    requires y == "" || !In(y[0], k)
    ensures SpanLen(x + y, k) == |x|
  {
    var s := x + y;
    assert forall i :: 0 <= i < |x| ==> s[i] == x[i];
    assert y != "" ==> s[|x|] == y[0];
  }

  lemma SliceOf(x: string, y: string)
    ensures (x + y)[..|x|] == x && (x + y)[|x|..] == y
  {
  }

  function SkipBlanks(s: string): (r: string)
    ensures |r| <= |s|
  {
    s[SpanLen(s, Blank)..]
  }

  lemma SkipBlanksOff(b: string, y: string)
    requires AllBlank(b) && (y == "" || !IsSpace(y[0]))
    ensures SkipBlanks(b + y) == y
  {
    SpanOf(b, y, Blank);
    SliceOf(b, y);
  }

  function Quoted(s: string): string {
    "\"" + s + "\""
  }

  /** `str.strip('"')` */
  function StripQuotes(s: string): string {
    if s != "" && s[0] == '"' then StripQuotes(s[1..])
    else if s != "" && s[|s| - 1] == '"' then StripQuotes(s[..|s| - 1])
    else s
  }

  lemma StripQuotesOff(v: string)
    requires QuoteFree(v)
    ensures StripQuotes(v) == v
    ensures StripQuotes(Quoted(v)) == v
  {
    var half := v + "\"";
    assert half[..|half| - 1] == v;
    assert Quoted(v)[1..] == half;
    if v == "" {
      assert half[1..] == "";
    } else {
      assert half[0] == v[0];
      assert StripQuotes(half) == StripQuotes(v);
    }
  }
}
