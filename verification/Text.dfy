/** The string operations the program takes from Python, on sequences of characters. */
module Text {
  /** The characters that `str.strip()` and the regular-expression class \s treat as blank. */
  predicate IsSpace(c: char) {
    var n := c as int;
    || 0x09 <= n <= 0x0D || 0x1C <= n <= 0x20 || n == 0x85 || n == 0xA0 || n == 0x1680
    || 0x2000 <= n <= 0x200A || n == 0x2028 || n == 0x2029 || n == 0x202F || n == 0x205F || n == 0x3000
  }

  predicate IsDigit(c: char) {
    '0' <= c <= '9'
  }

  predicate IsLetter(c: char) {
    'a' <= c <= 'z' || 'A' <= c <= 'Z'
  }

  /** The class \w, on ASCII. */
  predicate IsWord(c: char) {
    IsLetter(c) || IsDigit(c) || c == '_'
  }

  function LowerChar(c: char): char {
    if 'A' <= c <= 'Z' then ((c as int) + 32) as char else c
  }

  function Lower(s: string): (r: string)
    ensures |r| == |s|
    ensures forall i :: 0 <= i < |s| ==> r[i] == LowerChar(s[i])
  {
    if s == "" then "" else [LowerChar(s[0])] + Lower(s[1..])
  }

  function StripLeft(s: string): string {
    if s != "" && IsSpace(s[0]) then StripLeft(s[1..]) else s
  }

  function StripRight(s: string): string {
    if s != "" && IsSpace(s[|s| - 1]) then StripRight(s[..|s| - 1]) else s
  }

  function Strip(s: string): string {
    StripRight(StripLeft(s))
  }

  /** Neither end of the text is a blank. */
  predicate Stripped(s: string) {
    s == "" || (!IsSpace(s[0]) && !IsSpace(s[|s| - 1]))
  }

  lemma {:induction false} StripRightKeepsFirst(s: string)
    ensures StripRight(s) <= s
    ensures StripRight(s) != "" ==> !IsSpace(StripRight(s)[|StripRight(s)| - 1])
    ensures s != "" && !IsSpace(s[0]) ==> StripRight(s) != ""
  {
    if s != "" && IsSpace(s[|s| - 1]) {
      StripRightKeepsFirst(s[..|s| - 1]);
    }
  }

  lemma {:induction false} StripLeftFirst(s: string)
    ensures StripLeft(s) == "" || !IsSpace(StripLeft(s)[0])
  {
    if s != "" && IsSpace(s[0]) {
      StripLeftFirst(s[1..]);
    }
  }

  /** Stripping leaves no blank at either end, and changes exactly the texts that have one. */
  lemma StripIsStripped(s: string)
    ensures Stripped(Strip(s))
    ensures Strip(s) == s <==> Stripped(s)
  {
    StripLeftFirst(s);
    StripRightKeepsFirst(StripLeft(s));
  }

  predicate AllSpace(s: string) {
    forall i :: 0 <= i < |s| ==> IsSpace(s[i])
  }

  lemma {:induction false} StripLeftOff(l: string, y: string)
    requires AllSpace(l)
    ensures StripLeft(l + y) == StripLeft(y)
  {
    if l == "" {
      assert l + y == y;
    } else {
      assert (l + y)[0] == l[0] && (l + y)[1..] == l[1..] + y;
      StripLeftOff(l[1..], y);
    }
  }

  lemma {:induction false} StripRightOff(y: string, r: string)
    requires AllSpace(r)
    ensures StripRight(y + r) == StripRight(y)
  {
    if r == "" {
      assert y + r == y;
    } else {
      var s := y + r;
      assert s[|s| - 1] == r[|r| - 1] && s[..|s| - 1] == y + r[..|r| - 1];
      StripRightOff(y, r[..|r| - 1]);
    }
  }

  /** Stripping takes the blanks off both ends, all of them and nothing else. */
  lemma StripOff(l: string, s: string, r: string)
    requires AllSpace(l) && AllSpace(r) && Stripped(s)
    ensures Strip(l + (s + r)) == s
  {
    StripLeftOff(l, s + r);
    if s == "" {
      StripLeftOff(r, "");
      assert r + "" == r == s + r;
    } else {
      assert (s + r)[0] == s[0];
      StripRightOff(s, r);
    }
  }

  lemma {:induction false} StripKeeps(s: string, i: nat)
    requires i < |s| && !IsSpace(s[i])
    ensures StripLeft(s) != "" && Strip(s) != ""
  {
    if IsSpace(s[0]) {
      StripKeeps(s[1..], i - 1);
    } else {
      StripRightKeepsFirst(s);
    }
  }

  /** A text is stripped to nothing if and only if it is all blanks. */
  lemma {:induction false} StripEmpty(s: string)
    ensures Strip(s) == "" <==> AllSpace(s)
  {
    if AllSpace(s) {
      StripOff(s, "", "");
      assert s + ("" + "") == s;
    } else {
      var i :| 0 <= i < |s| && !IsSpace(s[i]);
      StripKeeps(s, i);
    }
  }

  const UPPER := "ABCDEFGHIJKLMNOPQRSTUVWXYZ"
  const LOWER := "abcdefghijklmnopqrstuvwxyz"

  lemma LetterAt(k: nat)
    requires k < 26
    ensures |UPPER| == |LOWER| == 26
    ensures UPPER[k] == ('A' as int + k) as char && LOWER[k] == ('a' as int + k) as char
  {
  }

  /** Lowering takes each capital to its small letter, and leaves every other character alone. */
  lemma LowerLetters(k: nat, c: char)
    ensures k < 26 ==> LowerChar(UPPER[k]) == LOWER[k]
    ensures !('A' <= c <= 'Z') ==> LowerChar(c) == c
  {
    hide UPPER, LOWER;
    if k < 26 {
      LetterAt(k);
    }
  }

  /** Lowering a stripped text leaves it stripped, and lowering again changes nothing. */
  lemma LowerStrippedStays(s: string)
    requires Stripped(s)
    ensures Stripped(Lower(s)) && Lower(Lower(s)) == Lower(s)
  {
    assert forall i :: 0 <= i < |s| ==> LowerChar(LowerChar(s[i])) == LowerChar(s[i]);
  }

  /** `text.split(c)` */
  function Split(s: string, c: char): (r: seq<string>)
    ensures r != []
  {
    if s == "" then [""]
    else if s[0] == c then [""] + Split(s[1..], c)
    else
      var rest := Split(s[1..], c);
      [[s[0]] + rest[0]] + rest[1..]
  }

  lemma {:induction false} SplitOne(s: string, c: char)
    ensures c !in s ==> Split(s, c) == [s]
    ensures c in s ==> |Split(s, c)| >= 2
  {
    if s != "" {
      SplitOne(s[1..], c);
      assert s == [s[0]] + s[1..];
    }
  }

  lemma {:induction false} SplitPartsFree(s: string, c: char)
    ensures forall i :: 0 <= i < |Split(s, c)| ==> c !in Split(s, c)[i]
  {
    if s != "" {
      SplitPartsFree(s[1..], c);
    }
  }

  lemma {:induction false} SplitJoined(x: string, y: string, c: char)
    ensures Split(x + ([c] + y), c) == Split(x, c) + Split(y, c)
  {
    var s := x + ([c] + y);
    if x == "" {
      assert s == [c] + y && s[1..] == y;
    } else {
      assert s[0] == x[0] && s[1..] == x[1..] + ([c] + y);
      SplitJoined(x[1..], y, c);
    }
  }
}
