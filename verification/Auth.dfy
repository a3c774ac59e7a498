/**
 Bearer tokens (services/api/auth.py): unpadded base64url (sections 3.2 and 5 of RFC 4648) and the
 signed payload `username|role|tenant|expiry`.

 The decoder is the one Python uses, which skips characters outside the alphabet and stops at a
 complete padding.  HMAC and UTF-8 are parameters.
 */
module Auth {
  import opened Wrappers
  import opened Text

  type Byte = b: int | 0 <= b < 256

  // ---------------------------------------------------------------- base64url

  type Sextet = n: int | 0 <= n < 64

  /** The decoder takes the standard alphabet and the URL-safe one. */
  function SextetOf(c: char): Option<Sextet> {
    if 'A' <= c <= 'Z' then Some(c as int - 'A' as int)
    else if 'a' <= c <= 'z' then Some(c as int - 'a' as int + 26)
    else if '0' <= c <= '9' then Some(c as int - '0' as int + 52)
    else if c == '+' || c == '-' then Some(62)
    else if c == '/' || c == '_' then Some(63)
    else None
  }

  function Symbol(n: Sextet): (c: char)
    ensures c != '=' && c != '.' && c as int < 128 && SextetOf(c) == Some(n)
  {
    if n < 26 then ('A' as int + n) as char
    else if n < 52 then ('a' as int + (n - 26)) as char
    else if n < 62 then ('0' as int + (n - 52)) as char
    else if n == 62 then '-'
    else '_'
  }

  /** The URL-safe alphabet, table 2 of RFC 4648. */
  ghost function Letter(n: Sextet): char {
    if n < 26 then UPPER[n] else if n < 52 then LOWER[n - 26] else if n < 62 then "0123456789"[n - 52] else if n == 62 then '-' else '_'
  }

  lemma SymbolIsLetter(n: Sextet)
    ensures Symbol(n) == Letter(n)
  {
    hide UPPER, LOWER;
    if n < 26 {
      LetterAt(n);
    } else if n < 52 {
      LetterAt(n - 26);
    }
  }

  /** Three bytes as four characters. */
  function Group(x: Byte, y: Byte, z: Byte): (r: string)
    ensures |r| == 4 && r[3] != '='
  {
    [Symbol(x / 4), Symbol(x % 4 * 16 + y / 16), Symbol(y % 16 * 4 + z / 64), Symbol(z % 64)]
  }

  function EncodePadded(d: seq<Byte>): string {
    if |d| == 0 then ""
    else if |d| == 1 then [Symbol(d[0] / 4), Symbol(d[0] % 4 * 16), '=', '=']
    else if |d| == 2 then [Symbol(d[0] / 4), Symbol(d[0] % 4 * 16 + d[1] / 16), Symbol(d[1] % 16 * 4), '=']
    else Group(d[0], d[1], d[2]) + EncodePadded(d[3..])
  }

  /** Four digits to base 64, in the alphabet. */
  ghost predicate Digits(s: string, value: int) {
    exists a: Sextet, b: Sextet, c: Sextet, d: Sextet ::
      value == ((a * 64 + b) * 64 + c) * 64 + d && s == [Letter(a), Letter(b), Letter(c), Letter(d)]
  }

  lemma DigitsOf(x: Byte, y: Byte, z: Byte)
    ensures Digits(Group(x, y, z), x * 65536 + y * 256 + z)
  {
    hide Symbol, Letter;
    var a: Sextet, b: Sextet, c: Sextet, d: Sextet := x / 4, x % 4 * 16 + y / 16, y % 16 * 4 + z / 64, z % 64;
    SymbolIsLetter(a);
    SymbolIsLetter(b);
    SymbolIsLetter(c);
    SymbolIsLetter(d);
    assert Group(x, y, z) == [Letter(a), Letter(b), Letter(c), Letter(d)];
    assert x * 65536 + y * 256 + z == ((a * 64 + b) * 64 + c) * 64 + d;
  }

  /** Every three bytes are written as one number of 24 bits, in four digits to base 64. */
  lemma GroupIsDigits(d: seq<Byte>) returns (g: string)
    requires |d| >= 3
    ensures |g| == 4 && Digits(g, d[0] as int * 65536 + d[1] as int * 256 + d[2] as int) && EncodePadded(d) == g + EncodePadded(d[3..])
  {
    hide Digits, Symbol;
    g := Group(d[0], d[1], d[2]);
    DigitsOf(d[0], d[1], d[2]);
  }

  /** Of the last one or two, filled up with zeros, only the digits they reach into, and pads. */
  lemma TailIsDigits(d: seq<Byte>) returns (g: string)
    requires 1 <= |d| <= 2
    ensures |g| == 4 && Digits(g, d[0] as int * 65536 + if |d| == 2 then d[1] as int * 256 else 0)
    ensures EncodePadded(d) == g[..|d| + 1] + if |d| == 2 then "=" else "=="
  {
    hide Digits, Symbol;
    g := Group(d[0], if |d| == 2 then d[1] else 0, 0);
    DigitsOf(d[0], if |d| == 2 then d[1] else 0, 0);
  }

  /** `rstrip("=")` */
  function StripPadding(s: string): string {
    if s != "" && s[|s| - 1] == '=' then StripPadding(s[..|s| - 1]) else s
  }

  function B64Url(d: seq<Byte>): string {
    StripPadding(EncodePadded(d))
  }

  /** The decoder's state: the place in the group of four, the bits left over, the pads seen. */
  datatype Decoder = Decoder(place: nat, left: nat, pads: nat, out: seq<Byte>)

  ghost predicate DecoderOk(s: Decoder) {
    s.place < 4 && (s.place == 0 ==> s.left == 0) && (s.place == 1 ==> s.left < 64)
    && (s.place == 2 ==> s.left < 16) && (s.place == 3 ==> s.left < 4)
  }

  /** One character of the alphabet. */
  function Feed(s: Decoder, n: Sextet): (r: Decoder)
    requires DecoderOk(s)
    ensures DecoderOk(r)
  {
    if s.place == 0 then Decoder(1, n, 0, s.out)
    else if s.place == 1 then Decoder(2, n % 16, 0, s.out + [s.left * 4 + n / 16])
    else if s.place == 2 then Decoder(3, n % 4, 0, s.out + [s.left * 16 + n / 4])
    else Decoder(0, 0, 0, s.out + [s.left * 64 + n])
  }

  function DecodeFrom(s: Decoder, text: string): Option<seq<Byte>>
    requires DecoderOk(s)
    decreases |text|
  {
    if text == "" then (if s.place == 0 then Some(s.out) else None)
    else if text[0] == '=' then
      if s.place >= 2 && s.place + s.pads + 1 >= 4 then Some(s.out)
      else DecodeFrom(if s.place >= 2 then s.(pads := s.pads + 1) else s, text[1..])
    else
      var n := SextetOf(text[0]);
      if n.None? then DecodeFrom(s, text[1..]) else DecodeFrom(Feed(s, n.value), text[1..])
  }

  predicate Ascii(s: string) {
    forall i :: 0 <= i < |s| ==> s[i] as int < 128
  }

  function Pads(n: nat): string {
    if n == 0 then "" else "=" + Pads(n - 1)
  }

  const START := Decoder(0, 0, 0, [])

  /** `_b64url_decode`; None where Python raises. */
  function B64UrlDecode(s: string): Option<seq<Byte>> {
    var text := s + Pads((-|s|) % 4);
    if Ascii(text) then DecodeFrom(START, text) else None
  }

  lemma DecodeSymbol(s: Decoder, n: Sextet, rest: string)
    requires DecoderOk(s)
    ensures DecodeFrom(s, [Symbol(n)] + rest) == DecodeFrom(Feed(s, n), rest)
  {
    assert ([Symbol(n)] + rest)[1..] == rest;
  }

  lemma DecodeTwo(out: seq<Byte>, a: Sextet, b: Sextet, rest: string)
    ensures DecodeFrom(Decoder(0, 0, 0, out), [Symbol(a), Symbol(b)] + rest)
         == DecodeFrom(Decoder(2, b % 16, 0, out + [a * 4 + b / 16]), rest)
  {
    assert [Symbol(a), Symbol(b)] + rest == [Symbol(a)] + ([Symbol(b)] + rest);
    DecodeSymbol(Decoder(0, 0, 0, out), a, [Symbol(b)] + rest);
    DecodeSymbol(Decoder(1, a, 0, out), b, rest);
  }

  lemma DecodeTwoMore(out: seq<Byte>, left: nat, c: Sextet, d: Sextet, rest: string)
    requires left < 16
    ensures DecodeFrom(Decoder(2, left, 0, out), [Symbol(c), Symbol(d)] + rest)
         == DecodeFrom(Decoder(0, 0, 0, out + [left * 16 + c / 4] + [c % 4 * 64 + d]), rest)
  {
    assert [Symbol(c), Symbol(d)] + rest == [Symbol(c)] + ([Symbol(d)] + rest);
    DecodeSymbol(Decoder(2, left, 0, out), c, [Symbol(d)] + rest);
    DecodeSymbol(Decoder(3, c % 4, 0, out + [left * 16 + c / 4]), d, rest);
  }

  lemma DecodePad(s: Decoder, rest: string)
    requires DecoderOk(s) && s.place >= 2
    ensures DecodeFrom(s, "=" + rest) ==
              if s.place + s.pads + 1 >= 4 then Some(s.out) else DecodeFrom(s.(pads := s.pads + 1), rest)
  {
    assert ("=" + rest)[1..] == rest;
  }

  lemma DecodeLastOne(out: seq<Byte>, x: Byte)
    ensures DecodeFrom(Decoder(0, 0, 0, out), EncodePadded([x])) == Some(out + [x])
  {
    var a, b := x / 4, x % 4 * 16;
    assert EncodePadded([x]) == [Symbol(a), Symbol(b)] + ("=" + ("=" + ""));
    DecodeTwo(out, a, b, "=" + ("=" + ""));
    assert a * 4 + b / 16 == x;
    DecodePad(Decoder(2, b % 16, 0, out + [x]), "=" + "");
    DecodePad(Decoder(2, b % 16, 1, out + [x]), "");
  }

  lemma DecodeLastTwo(out: seq<Byte>, x: Byte, y: Byte)
    ensures DecodeFrom(Decoder(0, 0, 0, out), EncodePadded([x, y])) == Some(out + [x] + [y])
  {
    var a, b, c := x / 4, x % 4 * 16 + y / 16, y % 16 * 4;
    assert EncodePadded([x, y]) == [Symbol(a), Symbol(b)] + ([Symbol(c)] + ("=" + ""));
    DecodeTwo(out, a, b, [Symbol(c)] + ("=" + ""));
    assert a * 4 + b / 16 == x && b % 16 * 16 + c / 4 == y;
    DecodeSymbol(Decoder(2, b % 16, 0, out + [x]), c, "=" + "");
    DecodePad(Decoder(3, c % 4, 0, out + [x] + [y]), "");
  }

  lemma GroupBytes(x: Byte, y: Byte, z: Byte)
    ensures var b, c := x % 4 * 16 + y / 16, y % 16 * 4 + z / 64;
            x / 4 * 4 + b / 16 == x && b % 16 * 16 + c / 4 == y && c % 4 * 64 + z % 64 == z
  {
  }

  lemma DecodeGroup(out: seq<Byte>, x: Byte, y: Byte, z: Byte, rest: string)
    ensures DecodeFrom(Decoder(0, 0, 0, out), Group(x, y, z) + rest)
         == DecodeFrom(Decoder(0, 0, 0, out + [x] + [y] + [z]), rest)
  {
    hide DecodeFrom;
    var a, b, c, e := x / 4, x % 4 * 16 + y / 16, y % 16 * 4 + z / 64, z % 64;
    assert Group(x, y, z) + rest == [Symbol(a), Symbol(b)] + ([Symbol(c), Symbol(e)] + rest);
    DecodeTwo(out, a, b, [Symbol(c), Symbol(e)] + rest);
    GroupBytes(x, y, z);
    DecodeTwoMore(out + [x], b % 16, c, e, rest);
  }

  /** Decoding undoes the padded encoding, whatever has been decoded before. */
  lemma {:induction false} DecodeEncoded(out: seq<Byte>, d: seq<Byte>)
    ensures DecodeFrom(Decoder(0, 0, 0, out), EncodePadded(d)) == Some(out + d)
    decreases |d|
  {
    if |d| == 0 {
      assert out + d == out;
    } else if |d| == 1 {
      assert d == [d[0]];
      DecodeLastOne(out, d[0]);
    } else if |d| == 2 {
      assert d == [d[0], d[1]];
      DecodeLastTwo(out, d[0], d[1]);
      assert out + [d[0]] + [d[1]] == out + d;
    } else {
      DecodeGroup(out, d[0], d[1], d[2], EncodePadded(d[3..]));
      DecodeEncoded(out + [d[0]] + [d[1]] + [d[2]], d[3..]);
      assert out + [d[0]] + [d[1]] + [d[2]] + d[3..] == out + d;
    }
  }

  predicate Plain(s: string) {
    forall i :: 0 <= i < |s| ==> s[i] != '.' && s[i] as int < 128
  }

  /** No character of the encoding is a dot or beyond ASCII. */
  lemma {:induction false} EncodedPlain(d: seq<Byte>)
    ensures Plain(EncodePadded(d))
    decreases |d|
  {
    if |d| >= 3 {
      EncodedPlain(d[3..]);
      assert Plain(Group(d[0], d[1], d[2]));
    }
  }

  ghost function PadCount(n: nat): nat {
    if n % 3 == 0 then 0 else 3 - n % 3
  }

  /** The text is a part without pads at its end, and `k` pads. */
  ghost predicate Repad(s: string, k: nat) {
    && k <= |s|
    && s[..|s| - k] + Pads(k) == s
    && (|s| > k ==> s[|s| - k - 1] != '=')
  }

  lemma {:induction false} EncodedLength(d: seq<Byte>)
    ensures |EncodePadded(d)| % 4 == 0
    decreases |d|
  {
    hide Group;
    if |d| >= 3 {
      EncodedLength(d[3..]);
    }
  }

  lemma PadCounts(n: nat)
    ensures n >= 3 ==> PadCount(n) == PadCount(n - 3)
    ensures PadCount(0) == 0 && PadCount(1) == 2 && PadCount(2) == 1
  {
  }

  lemma EncodedNone()
    ensures EncodePadded([]) == "" && Repad("", 0)
  {
    assert Pads(0) == "";
  }

  lemma RepadText(body: string, k: nat, pads: string)
    requires body != "" && body[|body| - 1] != '=' && (k == 1 || k == 2)
    requires pads == if k == 1 then "=" else "=="
    ensures Repad(body + pads, k)
  {
    assert Pads(1) == "=" && Pads(2) == "==";
    assert (body + pads)[..|body|] == body;
  }

  lemma EncodedOne(x: Byte)
    ensures Repad(EncodePadded([x]), 2)
  {
    var body := [Symbol(x / 4), Symbol(x % 4 * 16)];
    assert EncodePadded([x]) == body + "==";
    RepadText(body, 2, "==");
  }

  lemma EncodedTwo(x: Byte, y: Byte)
    ensures Repad(EncodePadded([x, y]), 1)
  {
    var body := [Symbol(x / 4), Symbol(x % 4 * 16 + y / 16), Symbol(y % 16 * 4)];
    assert EncodePadded([x, y]) == body + "=";
    RepadText(body, 1, "=");
  }

  lemma RepadLonger(group: string, rest: string, k: nat)
    requires |group| == 4 && group[3] != '=' && Repad(rest, k)
    ensures Repad(group + rest, k)
  {
    var s := group + rest;
    assert s[..|s| - k] == group + rest[..|rest| - k];
  }

  /** The pads of the encoding are at its end. */
  lemma {:induction false} EncodedShape(d: seq<Byte>)
    ensures Repad(EncodePadded(d), PadCount(|d|))
    decreases |d|
  {
    hide Group, Repad;
    PadCounts(|d|);
    if |d| >= 3 {
      EncodedShape(d[3..]);
      RepadLonger(Group(d[0], d[1], d[2]), EncodePadded(d[3..]), PadCount(|d| - 3));
    } else if |d| == 2 {
      EncodedTwo(d[0], d[1]);
      assert d == [d[0], d[1]];
    } else if |d| == 1 {
      EncodedOne(d[0]);
      assert d == [d[0]];
    } else {
      EncodedNone();
      assert d == [];
    }
  }

  lemma {:induction false} PadsSnoc(k: nat)
    requires k > 0
    ensures Pads(k) == Pads(k - 1) + "=" && |Pads(k)| == k
  {
    if k > 1 {
      PadsSnoc(k - 1);
    }
  }

  lemma {:induction false} StripPaddingOff(body: string, k: nat)
    requires body == "" || body[|body| - 1] != '='
    ensures StripPadding(body + Pads(k)) == body
  {
    if k == 0 {
      assert body + Pads(0) == body;
    } else {
      PadsSnoc(k);
      var s := body + Pads(k);
      assert s[|s| - 1] == '=' && s[..|s| - 1] == body + Pads(k - 1);
      StripPaddingOff(body, k - 1);
    }
  }

  lemma RepadUndone(s: string, k: nat)
    requires Repad(s, k) && Plain(s)
    ensures StripPadding(s) == s[..|s| - k] && Plain(StripPadding(s))
  {
    StripPaddingOff(s[..|s| - k], k);
  }

  lemma PadsNeeded(n: nat, k: nat)
    requires n % 4 == 0 && k <= 2 && k <= n
    ensures (-(n - k)) % 4 == k
  {
  }

  /** Unpadding and padding again by -len % 4 gives the encoding back. */
  lemma Repadded(d: seq<Byte>)
    ensures B64Url(d) + Pads((-|B64Url(d)|) % 4) == EncodePadded(d)
    ensures Plain(B64Url(d))
  {
    hide EncodePadded, StripPadding, Pads;
    var s, k := EncodePadded(d), PadCount(|d|);
    EncodedShape(d);
    EncodedLength(d);
    EncodedPlain(d);
    RepadUndone(s, k);
    PadsNeeded(|s|, k);
    assert |StripPadding(s)| == |s| - k;
  }

  /** The base64url round trip, for every byte string; and the encoding holds no dot. */
  lemma Base64RoundTrip(d: seq<Byte>)
    ensures B64UrlDecode(B64Url(d)) == Some(d)
    ensures '.' !in B64Url(d)
  {
    Repadded(d);
    EncodedPlain(d);
    DecodeEncoded([], d);
    assert [] + d == d;
  }

  // ---------------------------------------------------------------- decoding other texts

  /** A character of either alphabet, the URL-safe one or the standard one. */
  predicate IsSymbol(c: char) {
    IsLetter(c) || IsDigit(c) || c == '-' || c == '_' || c == '+' || c == '/'
  }

  lemma SymbolsRead(c: char)
    ensures SextetOf(c).Some? <==> IsSymbol(c)
    ensures SextetOf('+') == SextetOf('-') && SextetOf('/') == SextetOf('_')
  {
  }

  /** A character of no alphabet, no pad either, is skipped wherever it stands. */
  lemma {:induction false} OthersSkipped(s: Decoder, before: string, c: char, after: string)
    requires DecoderOk(s) && !IsSymbol(c) && c != '='
    ensures DecodeFrom(s, before + ([c] + after)) == DecodeFrom(s, before + after)
    decreases |before|
  {
    SymbolsRead(c);
    var t := before + ([c] + after);
    if before == "" {
      assert t[0] == c && t[1..] == after == before + after;
    } else {
      assert t[0] == before[0] == (before + after)[0];
      assert t[1..] == before[1..] + ([c] + after) && (before + after)[1..] == before[1..] + after;
      var n := SextetOf(before[0]);
      OthersSkipped(if n.Some? then Feed(s, n.value) else if before[0] == '=' && s.place >= 2 then s.(pads := s.pads + 1) else s,
                    before[1..], c, after);
      assert SextetOf('=').None?;
    }
  }

  /** A text beyond ASCII is refused. */
  lemma BeyondAsciiRefused(s: string, i: nat)
    requires i < |s| && s[i] as int >= 128
    ensures B64UrlDecode(s).None?
  {
    var text := s + Pads((-|s|) % 4);
    assert text[i] == s[i];
  }

  lemma FedPlace(s: Decoder, n: Sextet)
    requires DecoderOk(s)
    ensures Feed(s, n).place == (s.place + 1) % 4 && Feed(s, n).pads == 0
  {
  }

  lemma FedNext(s: Decoder, text: string)
    requires DecoderOk(s) && text != "" && SextetOf(text[0]).Some?
    ensures DecodeFrom(s, text) == DecodeFrom(Feed(s, SextetOf(text[0]).value), text[1..])
  {
    assert SextetOf('=').None?;
  }

  lemma {:induction false} SymbolsFed(s: Decoder, text: string, rest: string) returns (r: Decoder)
    requires DecoderOk(s) && s.pads == 0 && forall i :: 0 <= i < |text| ==> IsSymbol(text[i])
    ensures DecoderOk(r) && r.pads == 0 && r.place == (s.place + |text|) % 4
    ensures DecodeFrom(s, text + rest) == DecodeFrom(r, rest)
    decreases |text|
  {
    hide SextetOf, Feed, IsSymbol;
    if text == "" {
      r := s;
      assert text + rest == rest;
    } else {
      SymbolsRead(text[0]);
      assert (text + rest)[0] == text[0] && (text + rest)[1..] == text[1..] + rest;
      FedPlace(s, SextetOf(text[0]).value);
      FedNext(s, text + rest);
      r := SymbolsFed(Feed(s, SextetOf(text[0]).value), text[1..], rest);
    }
  }

  lemma {:induction false} PadsAre(k: nat)
    ensures |Pads(k)| == k && forall i :: 0 <= i < k ==> Pads(k)[i] == '='
  {
    if k > 0 {
      PadsAre(k - 1);
    }
  }

  lemma PadsEnd(r: Decoder, k: nat)
    requires DecoderOk(r) && r.pads == 0 && k == (4 - r.place) % 4
    ensures DecodeFrom(r, Pads(k)).Some? <==> r.place != 1
  {
    if k == 1 {
      assert Pads(1) == "=" + "";
      DecodePad(r, "");
    } else if k == 2 {
      assert Pads(2) == "=" + ("=" + "");
      DecodePad(r, "=" + "");
      DecodePad(r.(pads := 1), "");
    } else if k == 3 {
      assert Pads(3)[1..][1..][1..] == "" && Pads(3)[1..][0] == '=' && Pads(3)[1..][1..][0] == '=';
    }
  }

  /** A text of symbols decodes if and only if it is not one symbol longer than whole groups of four. */
  lemma SymbolsDecode(s: string)
    requires forall i :: 0 <= i < |s| ==> IsSymbol(s[i])
    ensures B64UrlDecode(s).Some? <==> |s| % 4 != 1
  {
    var k := (-|s|) % 4;
    PadsAre(k);
    var text := s + Pads(k);
    assert Ascii(text) by {
      assert forall i :: 0 <= i < |s| ==> text[i] == s[i];
      assert forall i :: |s| <= i < |text| ==> text[i] == '=';
    }
    var r := SymbolsFed(START, s, Pads(k));
    PadsEnd(r, k);
  }

  // ---------------------------------------------------------------- texts of the payload

  function ShowNat(n: nat): string {
    if n < 10 then [('0' as int + n) as char] else ShowNat(n / 10) + [('0' as int + n % 10) as char]
  }

  function ShowInt(n: int): string {
    if n < 0 then "-" + ShowNat(-n) else ShowNat(n)
  }

  function ParseNat(s: string): Option<nat> {
    if s == "" || !IsDigit(s[|s| - 1]) then None
    else
      var last := s[|s| - 1] as int - '0' as int;
      if |s| == 1 then Some(last)
      else match ParseNat(s[..|s| - 1])
        case None => None
        case Some(n) => Some(n * 10 + last)
  }

  function Signed(n: Option<nat>, sign: int): Option<int> {
    if n.None? then None else Some(sign * n.value)
  }

  /** `int(text)`, for ASCII digits with a sign and blanks around. */
  function ParseInt(s: string): Option<int> {
    var t := Strip(s);
    if t == "" then None
    else if t[0] == '-' then Signed(ParseNat(t[1..]), -1)
    else if t[0] == '+' then Signed(ParseNat(t[1..]), 1)
    else Signed(ParseNat(t), 1)
  }

  lemma {:induction false} ParseShownNat(n: nat)
    ensures ParseNat(ShowNat(n)) == Some(n)
    ensures ShowNat(n) != "" && forall i :: 0 <= i < |ShowNat(n)| ==> IsDigit(ShowNat(n)[i])
  {
    if n >= 10 {
      ParseShownNat(n / 10);
      assert ShowNat(n)[..|ShowNat(n)| - 1] == ShowNat(n / 10);
    }
  }

  lemma ParseShownInt(n: int)
    ensures ParseInt(ShowInt(n)) == Some(n)
    ensures '|' !in ShowInt(n)
  {
    hide ShowNat, ParseNat, Strip;
    ParseShownNat(if n < 0 then -n else n);
    StripIsStripped(ShowInt(n));
    if n < 0 {
      assert ShowInt(n)[1..] == ShowNat(-n);
    }
  }

  // ---------------------------------------------------------------- tokens

  const ROLES: set<string> := {"admin", "analyst", "viewer", "ingest"}

  datatype Settings = Settings(secret: string, defaultTenant: string)

  datatype Codec = Codec(encode: string -> seq<Byte>, decode: seq<Byte> -> Option<string>, hmac: (string, seq<Byte>) -> seq<Byte>)

  /** UTF-8 decodes what it encodes. */
  ghost predicate Lawful(codec: Codec) {
    forall s: string :: codec.decode(codec.encode(s)) == Some(s)
  }

  function PayloadText(username: string, role: string, tenant: string, exp: int): string {
    username + ("|" + (role + ("|" + (tenant + ("|" + ShowInt(exp))))))
  }

  function Token(settings: Settings, codec: Codec, payload: seq<Byte>): string {
    B64Url(payload) + ("." + B64Url(codec.hmac(settings.secret, payload)))
  }

  function IssueUserToken(settings: Settings, codec: Codec, username: string, role: string, tenant: string, ttl: int, now: int)
    : (string, int)
  {
    var exp := now + ttl;
    (Token(settings, codec, codec.encode(PayloadText(username, role, tenant, exp))), exp)
  }

  /** `token.split(".", 1)`, when it gives two parts. */
  function SplitOnce(s: string, c: char): Option<(string, string)> {
    if s == "" then None
    else if s[0] == c then Some(("", s[1..]))
    else match SplitOnce(s[1..], c)
      case None => None
      case Some((a, b)) => Some(([s[0]] + a, b))
  }

  /** What the text of a signed payload says at a time: username, role and tenant, if it is well
      formed and not expired. */
  function ReadPayload(settings: Settings, text: string, now: int): Option<(string, string, string)> {
    var parts := Split(text, '|');
    if |parts| != 2 && |parts| != 4 then None
    else
      var username := parts[0];
      var role := if |parts| == 2 then "analyst" else parts[1];
      var tenant := if |parts| == 2 then settings.defaultTenant else parts[2];
      var exp := ParseInt(parts[|parts| - 1]);
      if exp.None? || exp.value < now || username == "" then None
      else Some((username, if role in ROLES then role else "viewer", if tenant == "" then settings.defaultTenant else tenant))
  }

  function VerifyUserToken(settings: Settings, codec: Codec, token: string, now: int): Option<(string, string, string)> {
    match SplitOnce(token, '.')
    case None => None
    case Some((body, sig)) =>
      match B64UrlDecode(body)
      case None => None
      case Some(payload) =>
        if B64UrlDecode(sig) != Some(codec.hmac(settings.secret, payload)) then None
        else match codec.decode(payload)
          case None => None
          case Some(text) => ReadPayload(settings, text, now)
  }

  lemma {:induction false} SplitOnceAt(a: string, c: char, b: string)
    requires c !in a
    ensures SplitOnce(a + ([c] + b), c) == Some((a, b))
  {
    var s := a + ([c] + b);
    if a == "" {
      assert s == [c] + b && s[1..] == b;
    } else {
      assert s[0] == a[0] && s[1..] == a[1..] + ([c] + b);
      SplitOnceAt(a[1..], c, b);
      assert [a[0]] + a[1..] == a;
    }
  }

  lemma {:induction false} SplitOnceParts(s: string, c: char)
    ensures match SplitOnce(s, c)
            case None => c !in s
            case Some((a, b)) => c !in a && s == a + ([c] + b)
  {
    if s != "" && s[0] != c {
      SplitOnceParts(s[1..], c);
    }
  }

  /** The token is `body`, a dot and `sig`; the body decodes to a payload, the signature to the payload's HMAC under
      the server's secret, and the payload to the text. */
  ghost predicate SignedAs(settings: Settings, codec: Codec, token: string, body: string, sig: string, text: string) {
    && token == body + ("." + sig) && '.' !in body
    && B64UrlDecode(body).Some? && codec.decode(B64UrlDecode(body).value) == Some(text)
    && B64UrlDecode(sig) == Some(codec.hmac(settings.secret, B64UrlDecode(body).value))
  }

  /** Whatever token is presented: someone is let in if and only if it is signed with the server's secret, and
      then it is whom the signed payload names. */
  lemma LetInIffSigned(settings: Settings, codec: Codec, token: string, now: int)
    ensures forall who :: VerifyUserToken(settings, codec, token, now) == Some(who) <==>
              exists body, sig, text :: SignedAs(settings, codec, token, body, sig, text) && ReadPayload(settings, text, now) == Some(who)
  {
    hide B64UrlDecode, ReadPayload, SplitOnce;
    SplitOnceParts(token, '.');
    forall who ensures VerifyUserToken(settings, codec, token, now) == Some(who) <==>
                         exists body, sig, text :: SignedAs(settings, codec, token, body, sig, text) && ReadPayload(settings, text, now) == Some(who)
    {
      if VerifyUserToken(settings, codec, token, now) == Some(who) {
        var (body, sig) := SplitOnce(token, '.').value;
        var text := codec.decode(B64UrlDecode(body).value).value;
        assert "." + sig == ['.'] + sig;
        assert SignedAs(settings, codec, token, body, sig, text);
      }
      if exists body, sig, text :: SignedAs(settings, codec, token, body, sig, text) && ReadPayload(settings, text, now) == Some(who) {
        var body, sig, text :| SignedAs(settings, codec, token, body, sig, text) && ReadPayload(settings, text, now) == Some(who);
        assert "." + sig == ['.'] + sig;
        SplitOnceAt(body, '.', sig);
      }
    }
  }

  /** A signature that is not the HMAC of the payload under the server's secret lets nobody in. */
  lemma ForgedRefused(settings: Settings, codec: Codec, payload: seq<Byte>, sig: string, now: int)
    requires B64UrlDecode(sig) != Some(codec.hmac(settings.secret, payload))
    ensures VerifyUserToken(settings, codec, B64Url(payload) + ("." + sig), now) == None
  {
    hide B64UrlDecode, B64Url;
    Base64RoundTrip(payload);
    assert "." + sig == ['.'] + sig;
    SplitOnceAt(B64Url(payload), '.', sig);
  }

  lemma VerifySigned(settings: Settings, codec: Codec, text: string, now: int)
    requires Lawful(codec)
    ensures VerifyUserToken(settings, codec, Token(settings, codec, codec.encode(text)), now) == ReadPayload(settings, text, now)
  {
    var payload := codec.encode(text);
    var sig := codec.hmac(settings.secret, payload);
    Base64RoundTrip(payload);
    Base64RoundTrip(sig);
    SplitOnceAt(B64Url(payload), '.', B64Url(sig));
    assert "." + B64Url(sig) == ['.'] + B64Url(sig);
    assert codec.decode(payload) == Some(text);
  }

  lemma PayloadReads(username: string, role: string, tenant: string, exp: int)
    ensures PayloadText(username, role, tenant, exp) == username + "|" + role + "|" + tenant + "|" + ShowInt(exp)
  {
    hide ShowInt;
  }

  lemma TokenReads(settings: Settings, codec: Codec, payload: seq<Byte>)
    ensures Token(settings, codec, payload) == B64Url(payload) + "." + B64Url(codec.hmac(settings.secret, payload))
  {
    hide B64Url;
  }

  lemma PayloadParts(username: string, role: string, tenant: string, exp: int)
    ensures Split(PayloadText(username, role, tenant, exp), '|')
         == Split(username, '|') + (Split(role, '|') + (Split(tenant, '|') + [ShowInt(exp)]))
  {
    ParseShownInt(exp);
    SplitOne(ShowInt(exp), '|');
    SplitJoined(tenant, ShowInt(exp), '|');
    SplitJoined(role, tenant + ("|" + ShowInt(exp)), '|');
    SplitJoined(username, role + ("|" + (tenant + ("|" + ShowInt(exp)))), '|');
  }

  /** Whatever token is presented: who is let in has a name, a known role and, unless there is no default, a
      tenant, and none of the three holds a bar that could be read as a further field. */
  lemma VerifiedPrincipal(settings: Settings, codec: Codec, token: string, now: int)
    requires '|' !in settings.defaultTenant
    ensures var who := VerifyUserToken(settings, codec, token, now);
            who.Some? ==>
              && who.value.0 != "" && '|' !in who.value.0
              && who.value.1 in ROLES
              && (who.value.2 == "" ==> settings.defaultTenant == "") && '|' !in who.value.2
  {
    hide B64UrlDecode, SplitOnce, Split, ParseInt;
    var who := VerifyUserToken(settings, codec, token, now);
    if who.Some? {
      var parts := SplitOnce(token, '.');
      var payload := B64UrlDecode(parts.value.0).value;
      var text := codec.decode(payload).value;
      SplitPartsFree(text, '|');
    }
  }

  /** A signed payload of the old form `username|expiry` stands for an analyst of the default tenant. */
  lemma LegacyPayload(settings: Settings, codec: Codec, username: string, exp: int, now: int)
    requires Lawful(codec) && '|' !in username && username != ""
    ensures VerifyUserToken(settings, codec, Token(settings, codec, codec.encode(username + ("|" + ShowInt(exp)))), now)
         == if now <= exp then Some((username, "analyst", settings.defaultTenant)) else None
  {
    hide VerifyUserToken, Token, ShowInt, ParseInt, Split;
    VerifySigned(settings, codec, username + ("|" + ShowInt(exp)), now);
    ParseShownInt(exp);
    SplitOne(username, '|');
    SplitOne(ShowInt(exp), '|');
    SplitJoined(username, ShowInt(exp), '|');
    assert ['|'] + ShowInt(exp) == "|" + ShowInt(exp);
  }

  /** Which payloads name nobody: those not of two or four fields, and those whose last field is no number, or
      in the past, or that have no username. */
  lemma NobodyNamed(settings: Settings, text: string, now: int)
    ensures var parts := Split(text, '|');
            ReadPayload(settings, text, now).None? <==>
              || (|parts| != 2 && |parts| != 4) || parts[0] == ""
              || ParseInt(parts[|parts| - 1]).None? || ParseInt(parts[|parts| - 1]).value < now
  {
    hide Split, ParseInt;
  }

  lemma {:induction false} ParseNatDigits(s: string)
    ensures ParseNat(s).Some? <==> s != "" && forall i :: 0 <= i < |s| ==> IsDigit(s[i])
  {
    if s != "" {
      ParseNatDigits(s[..|s| - 1]);
    }
  }

  /** A number is a sign or none, and digits, with blanks around. */
  lemma NumbersRead(s: string)
    ensures ParseInt(s).Some? <==>
              var t := Strip(s);
              var digits := if t != "" && (t[0] == '-' || t[0] == '+') then t[1..] else t;
              digits != "" && forall i :: 0 <= i < |digits| ==> IsDigit(digits[i])
  {
    hide ParseNat, Strip;
    var t := Strip(s);
    ParseNatDigits(t);
    if t != "" {
      ParseNatDigits(t[1..]);
    }
  }

  /** A number may have blanks around it and a sign in front. */
  lemma SignsRead(l: string, n: nat, r: string)
    requires AllSpace(l) && AllSpace(r)
    ensures ParseInt(l + (ShowNat(n) + r)) == ParseInt(l + (("+" + ShowNat(n)) + r)) == Some(n)
    ensures ParseInt(l + (("-" + ShowNat(n)) + r)) == Some(-(n as int))
  {
    hide ShowNat, ParseNat, Strip;
    ParseShownNat(n);
    StripOff(l, ShowNat(n), r);
    StripOff(l, "+" + ShowNat(n), r);
    StripOff(l, "-" + ShowNat(n), r);
    assert ("+" + ShowNat(n))[1..] == ShowNat(n) == ("-" + ShowNat(n))[1..];
  }

  /** What an issued token says at any later time: it names nobody if it has expired, if one of the fields holds a
      bar, or without a username; else the username, the role or `viewer` for an unknown one, and the tenant or the
      default for an empty one. */
  lemma IssuedTokenReads(settings: Settings, codec: Codec, username: string, role: string, tenant: string, ttl: int, now: int, later: int)
    requires Lawful(codec)
    ensures var (token, exp) := IssueUserToken(settings, codec, username, role, tenant, ttl, now);
            var payload := codec.encode(username + "|" + role + "|" + tenant + "|" + ShowInt(exp));
            && exp == now + ttl
            && token == B64Url(payload) + "." + B64Url(codec.hmac(settings.secret, payload))
            && VerifyUserToken(settings, codec, token, later) ==
                 if '|' in username || '|' in role || '|' in tenant || exp < later || username == "" then None
                 else Some((username,
                            if role in {"admin", "analyst", "viewer", "ingest"} then role else "viewer",
                            if tenant == "" then settings.defaultTenant else tenant))
  {
    hide Split, ParseInt, ShowInt, VerifyUserToken, Token, PayloadText, B64Url;
    var exp := now + ttl;
    var text := PayloadText(username, role, tenant, exp);
    PayloadReads(username, role, tenant, exp);
    TokenReads(settings, codec, codec.encode(text));
    VerifySigned(settings, codec, text, later);
    PayloadParts(username, role, tenant, exp);
    ParseShownInt(exp);
    SplitOne(username, '|');
    SplitOne(role, '|');
    SplitOne(tenant, '|');
    if '|' !in username && '|' !in role && '|' !in tenant {
      assert Split(text, '|') == [username, role, tenant, ShowInt(exp)];
    } else {
      assert |Split(text, '|')| >= 5;
    }
  }

  /** The token round trip: an issued token verifies to the same username, role and tenant if and only
      if it has not expired, none of the three holds a bar, the username is not empty, the role is
      known, and the tenant is not empty unless the default is. */
  lemma TokenRoundTrip(settings: Settings, codec: Codec, username: string, role: string, tenant: string, ttl: int, now: int, later: int)
    requires Lawful(codec)
    ensures var (token, exp) := IssueUserToken(settings, codec, username, role, tenant, ttl, now);
            VerifyUserToken(settings, codec, token, later) == Some((username, role, tenant)) <==>
              && later <= exp
              && '|' !in username && '|' !in role && '|' !in tenant
              && username != "" && role in {"admin", "analyst", "viewer", "ingest"} && (tenant == "" ==> settings.defaultTenant == "")
  {
    hide VerifyUserToken, IssueUserToken;
    IssuedTokenReads(settings, codec, username, role, tenant, ttl, now, later);
  }
}
