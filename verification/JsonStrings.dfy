/** String tokens: quoting by the writers, unescaping by the reader, and the UTF-8 encoding of
    \u escapes (section 7 of RFC 8259, section 3 of RFC 3629). */
module JsonStrings {
  import opened Optional

  datatype Message =
    | ValueExpected
    | MissingColon
    | MissingCommaOrBrace
    | MissingBraceOrName
    | MissingCommaOrBracket
    | NotANumber
    | EmptyEscape
    | BadEscape
    | FourDigitsExpected
    | HexDigitExpected
    | SixMoreExpected
    | SecondHalfExpected

  // ---- UTF-8 ----

  function Byte(n: nat): char
    requires n < 256
  {
    n as char
  }

  /** codePointToUTF8; a mask with 0x3f and a shift by 6k are % 64 and / 64^k, and the tag bits
      never overlap the payload, so | is +. Nothing is produced above 0x10FFFF. */
  function CodePointToUtf8(cp: nat): string {
    if cp <= 0x7F then [Byte(cp)]
    else if cp <= 0x7FF then [Byte(0xC0 + cp / 0x40), Byte(0x80 + cp % 0x40)]
    else if cp <= 0xFFFF then
      [Byte(0xE0 + cp / 0x1000), Byte(0x80 + cp / 0x40 % 0x40), Byte(0x80 + cp % 0x40)]
    else if cp <= 0x10FFFF then
      [Byte(0xF0 + cp / 0x40000), Byte(0x80 + cp / 0x1000 % 0x40), Byte(0x80 + cp / 0x40 % 0x40),
       Byte(0x80 + cp % 0x40)]
    else ""
  }

  predicate IsScalar(v: nat) { v < 0xD800 || 0xE000 <= v <= 0x10FFFF }

  /** The value of a continuation byte. */
  function Tail(c: char): Option<nat> {
    if 0x80 <= c as int < 0xC0 then Some(c as int - 0x80) else None
  }

  /** The reader of RFC 3629: exactly one well-formed, shortest-form, non-surrogate sequence. */
  function DecodeUtf8(b: string): Option<nat> {
    if |b| == 1 && b[0] as int < 0x80 then Some(b[0] as int)
    else if |b| == 2 && 0xC2 <= b[0] as int <= 0xDF && Tail(b[1]).Some? then
      Some((b[0] as int - 0xC0) * 0x40 + Tail(b[1]).value)
    else if |b| == 3 && 0xE0 <= b[0] as int <= 0xEF && Tail(b[1]).Some? && Tail(b[2]).Some? then
      var v := (b[0] as int - 0xE0) * 0x1000 + Tail(b[1]).value * 0x40 + Tail(b[2]).value;
      if 0x800 <= v && IsScalar(v) then Some(v) else None
    else if |b| == 4 && 0xF0 <= b[0] as int <= 0xF4 && Tail(b[1]).Some? && Tail(b[2]).Some? && Tail(b[3]).Some? then
      var v := (b[0] as int - 0xF0) * 0x40000 + Tail(b[1]).value * 0x1000 + Tail(b[2]).value * 0x40 + Tail(b[3]).value;
      if 0x10000 <= v <= 0x10FFFF then Some(v) else None
    else None
  }

  /** The encoder's output is the one and only UTF-8 form of each scalar value, and a code point
      that is not a scalar value never encodes to well-formed UTF-8. */
  lemma Utf8IsUnique(b: string, v: nat)
    ensures DecodeUtf8(b) == Some(v) <==> IsScalar(v) && b == CodePointToUtf8(v)
  {
    EncodeThenDecode(v);
    if DecodeUtf8(b) == Some(v) {
      DecodeThenEncode(b);
    }
  }

  lemma EncodeThenDecode(v: nat)
    ensures DecodeUtf8(CodePointToUtf8(v)) == if IsScalar(v) then Some(v) else None
  {
    if 0x7FF < v <= 0xFFFF {
      EncodeThenDecode3(v);
    } else if 0xFFFF < v <= 0x10FFFF {
      EncodeThenDecode4(v);
    }
  }

  lemma EncodeThenDecode3(v: nat)
    requires 0x7FF < v <= 0xFFFF
    ensures DecodeUtf8(CodePointToUtf8(v)) == if IsScalar(v) then Some(v) else None
  {
    var x, y, z := v / 0x1000, v / 0x40 % 0x40, v % 0x40;
    assert v == x * 0x1000 + y * 0x40 + z && x <= 0xF;
    assert CodePointToUtf8(v) == [Byte(0xE0 + x), Byte(0x80 + y), Byte(0x80 + z)];
  }

  lemma EncodeThenDecode4(v: nat)
    requires 0xFFFF < v <= 0x10FFFF
    ensures DecodeUtf8(CodePointToUtf8(v)) == Some(v)
  {
    hide DecodeUtf8;
    var w, x, y, z := v / 0x40000, v / 0x1000 % 0x40, v / 0x40 % 0x40, v % 0x40;
    FourParts(v);
    DecodeFour(w, x, y, z);
  }

  lemma FourParts(v: nat)
    requires v <= 0x10FFFF
    ensures v == v / 0x40000 * 0x40000 + v / 0x1000 % 0x40 * 0x1000 + v / 0x40 % 0x40 * 0x40 + v % 0x40
    ensures v / 0x40000 <= 4
  {
    var u := v / 0x40;
    var t := v / 0x1000;
    assert u / 0x40 == t && t / 0x40 == v / 0x40000;
  }

  lemma DecodeFour(w: nat, x: nat, y: nat, z: nat)
    requires w <= 4 && x < 0x40 && y < 0x40 && z < 0x40
    requires 0x10000 <= w * 0x40000 + x * 0x1000 + y * 0x40 + z <= 0x10FFFF
    ensures DecodeUtf8([Byte(0xF0 + w), Byte(0x80 + x), Byte(0x80 + y), Byte(0x80 + z)])
         == Some(w * 0x40000 + x * 0x1000 + y * 0x40 + z)
  {
    assert Tail(Byte(0x80 + x)) == Some(x) && Tail(Byte(0x80 + y)) == Some(y) && Tail(Byte(0x80 + z)) == Some(z);
  }

  lemma SplitSextets(x: nat, y: nat, z: nat)
    requires y < 0x40 && z < 0x40
    ensures var v := x * 0x1000 + y * 0x40 + z; v % 0x40 == z && v / 0x40 % 0x40 == y && v / 0x1000 == x
  {
    var v := x * 0x1000 + y * 0x40 + z;
    assert v / 0x40 == x * 0x40 + y;
  }

  lemma DecodeThenEncode(b: string)
    requires DecodeUtf8(b).Some?
    ensures IsScalar(DecodeUtf8(b).value) && b == CodePointToUtf8(DecodeUtf8(b).value)
  {
    if |b| == 3 {
      SplitSextets(b[0] as int - 0xE0, Tail(b[1]).value, Tail(b[2]).value);
    } else if |b| == 4 {
      DecodeThenEncode4(b);
    }
  }

  lemma DecodeThenEncode4(b: string)
    requires DecodeUtf8(b).Some? && |b| == 4
    ensures b == CodePointToUtf8(DecodeUtf8(b).value)
  {
    var v := DecodeUtf8(b).value;
    var w, x := b[0] as int - 0xF0, Tail(b[1]).value;
    SplitSextets(w * 0x40 + x, Tail(b[2]).value, Tail(b[3]).value);
    assert v / 0x1000 == w * 0x40 + x;
    assert v / 0x1000 % 0x40 == x && v / 0x40000 == w;
  }

  // ---- \u escapes ----

  function HexValue(c: char): Option<nat> {
    if '0' <= c <= '9' then Some((c - '0') as nat)
    else if 'a' <= c <= 'f' then Some((c - 'a') as nat + 10)
    else if 'A' <= c <= 'F' then Some((c - 'A') as nat + 10)
    else None
  }

  predicate IsHex(c: char) { HexValue(c).Some? }

  function HexOrZero(c: char): nat {
    if IsHex(c) then HexValue(c).value else 0
  }

  /** The number spelled by the first four hexadecimal digits, of either case. */
  function Hex4(s: string): Option<nat>
    requires |s| >= 4
  {
    if IsHex(s[0]) && IsHex(s[1]) && IsHex(s[2]) && IsHex(s[3]) then
      Some(HexOrZero(s[0]) * 0x1000 + HexOrZero(s[1]) * 0x100 + HexOrZero(s[2]) * 0x10 + HexOrZero(s[3]))
    else None
  }

  datatype CodePoint = CodePoint(code: nat, rest: string) | BadCodePoint(message: Message)

  /** decodeUnicodeEscapeSequence: four hexadecimal digits. */
  function DecodeEscapeSequence(c: string): CodePoint {
    if |c| < 4 then BadCodePoint(FourDigitsExpected)
    else match Hex4(c)
      case Some(n) => CodePoint(n, c[4..])
      case None => BadCodePoint(HexDigitExpected)
  }

  /** decodeUnicodeCodePoint: a high surrogate takes a second escape, whatever it spells. */
  function DecodeCodePoint(c: string): CodePoint {
    var first := DecodeEscapeSequence(c);
    if first.BadCodePoint? then first
    else if 0xD800 <= first.code <= 0xDBFF then
      if |first.rest| < 6 then BadCodePoint(SixMoreExpected)
      else if first.rest[0] == '\\' && first.rest[1] == 'u' then
        var second := DecodeEscapeSequence(first.rest[2..]);
        if second.BadCodePoint? then second
        else CodePoint(0x10000 + first.code % 0x400 * 0x400 + second.code % 0x400, second.rest)
      else BadCodePoint(SecondHalfExpected)
    else first
  }

  datatype Decoded = Decoded(text: string) | Malformed(message: Message)

  function Prepend(p: string, d: Decoded): Decoded {
    if d.Decoded? then Decoded(p + d.text) else d
  }

  function SimpleEscape(c: char): Option<char> {
    match c
    case '"' => Some('"')
    case '/' => Some('/')
    case '\\' => Some('\\')
    case 'b' => Some(8 as char)
    case 'f' => Some(12 as char)
    case 'n' => Some('\n')
    case 'r' => Some('\r')
    case 't' => Some('\t')
    case _ => None
  }

  /** Never above the last code point, and the input only shrinks. */
  lemma CodePointBound(c: string)
    requires DecodeCodePoint(c).CodePoint?
    ensures DecodeCodePoint(c).code <= 0x10FFFF
    ensures |DecodeCodePoint(c).rest| < |c|
  {
    hide Hex4;
    Hex4Bound(c);
  }

  lemma Hex4Bound(s: string)
    requires |s| >= 4 && Hex4(s).Some?
    ensures Hex4(s).value < 0x10000
  {
    hide HexOrZero;
    HexBound(s[0]);
    HexBound(s[1]);
    HexBound(s[2]);
    HexBound(s[3]);
  }

  lemma HexBound(c: char)
    ensures HexOrZero(c) < 0x10
  {
  }

  /** decodeString on what lies between the quotes. */
  function Unescape(c: string): Decoded
    decreases |c|
  {
    if c == "" || c[0] == '"' then Decoded("")
    else if c[0] != '\\' then Prepend([c[0]], Unescape(c[1..]))
    else if |c| == 1 then Malformed(EmptyEscape)
    else if c[1] == 'u' then
      var point := DecodeCodePoint(c[2..]);
      if point.BadCodePoint? then Malformed(point.message)
      else
        CodePointBound(c[2..]);
        Prepend(CodePointToUtf8(point.code), Unescape(point.rest))
    else match SimpleEscape(c[1])
      case Some(e) => Prepend([e], Unescape(c[2..]))
      case None => Malformed(BadEscape)
  }

  predicate IsHexDigit(c: char, d: nat) {
    d < 16 && (c == "0123456789abcdef"[d] || c == "0123456789ABCDEF"[d])
  }

  /** Four hexadecimal digits, of either case and the highest first, spell a number. */
  predicate SpellsHex(s: string, v: nat) {
    && |s| == 4 && v < 0x10000
    && IsHexDigit(s[0], v / 0x1000) && IsHexDigit(s[1], v / 0x100 % 0x10)
    && IsHexDigit(s[2], v / 0x10 % 0x10) && IsHexDigit(s[3], v % 0x10)
  }

  lemma HexDigitIs(c: char, d: nat)
    ensures IsHexDigit(c, d) <==> IsHex(c) && HexOrZero(c) == d
  {
    if d < 16 {
      DigitCharacters(d);
    }
  }

  lemma DigitCharacters(d: nat)
    requires d < 16
    ensures "0123456789abcdef"[d] == if d < 10 then '0' + d as char else 'a' + (d - 10) as char
    ensures "0123456789ABCDEF"[d] == if d < 10 then '0' + d as char else 'A' + (d - 10) as char
  {
  }

  /** Exactly the spellings are read. */
  lemma HexIsRead(s: string, v: nat)
    requires |s| >= 4
    ensures SpellsHex(s[..4], v) <==> Hex4(s) == Some(v)
  {
    hide IsHexDigit, IsHex, HexOrZero;
    var x := s[..4];
    HexDigitIs(s[0], v / 0x1000);
    HexDigitIs(s[1], v / 0x100 % 0x10);
    HexDigitIs(s[2], v / 0x10 % 0x10);
    HexDigitIs(s[3], v % 0x10);
    HexBound(s[0]);
    HexBound(s[1]);
    HexBound(s[2]);
    HexBound(s[3]);
    FourDigits(HexOrZero(s[0]), HexOrZero(s[1]), HexOrZero(s[2]), HexOrZero(s[3]), v);
  }

  lemma FourDigits(w: nat, x: nat, y: nat, z: nat, v: nat)
    requires w < 0x10 && x < 0x10 && y < 0x10 && z < 0x10
    ensures v == w * 0x1000 + x * 0x100 + y * 0x10 + z <==>
      v < 0x10000 && w == v / 0x1000 && x == v / 0x100 % 0x10 && y == v / 0x10 % 0x10 && z == v % 0x10
  {
    var p := v / 0x10;
    var q := p / 0x10;
    assert v / 0x100 == q && v / 0x1000 == q / 0x10;
    LastDigit(v, (w * 0x10 + x) * 0x10 + y, z);
    LastDigit(p, w * 0x10 + x, y);
    LastDigit(q, w, x);
  }

  lemma LastDigit(v: nat, q: nat, r: nat)
    requires r < 0x10
    ensures v == q * 0x10 + r <==> v / 0x10 == q && v % 0x10 == r
  {
  }

  /** A JSON escape of a scalar value: one escape below 0x10000, else a surrogate pair. */
  predicate IsEscapeOf(e: string, v: nat) {
    if v < 0x10000 then
      |e| == 6 && e[..2] == "\\u" && SpellsHex(e[2..], v)
    else
      && |e| == 12
      && e[..2] == "\\u" && SpellsHex(e[2..6], 0xD800 + (v - 0x10000) / 0x400)
      && e[6..8] == "\\u" && SpellsHex(e[8..], 0xDC00 + (v - 0x10000) % 0x400)
  }

  /** Every escape of a scalar value is read as the UTF-8 bytes that denote that value. */
  lemma EscapesBecomeUtf8(e: string, v: nat, t: string)
    requires IsScalar(v) && IsEscapeOf(e, v)
    ensures Unescape(e + t) == Prepend(CodePointToUtf8(v), Unescape(t))
    ensures DecodeUtf8(CodePointToUtf8(v)) == Some(v)
  {
    hide SpellsHex, Hex4;
    EncodeThenDecode(v);
    var c := (e + t)[2..];
    assert (e + t)[0] == e[..2][0] && (e + t)[1] == e[..2][1];
    if v < 0x10000 {
      assert c[4..] == t && c[..4] == e[2..];
      HexIsRead(c, v);
      assert DecodeCodePoint(c) == CodePoint(v, t);
    } else {
      PairIsRead(e, v, t);
    }
  }

  /** The other escapes, and that there are no more. */
  lemma SimpleEscapesAre(c: char, t: string)
    ensures var d := Unescape("\\" + [c] + t);
      && (c in {'"', '\\', '/'} ==> d == Prepend([c], Unescape(t)))
      && (c == 'b' ==> d == Prepend([8 as char], Unescape(t)))
      && (c == 'f' ==> d == Prepend([12 as char], Unescape(t)))
      && (c == 'n' ==> d == Prepend([10 as char], Unescape(t)))
      && (c == 'r' ==> d == Prepend([13 as char], Unescape(t)))
      && (c == 't' ==> d == Prepend([9 as char], Unescape(t)))
      && (c !in {'"', '\\', '/', 'b', 'f', 'n', 'r', 't', 'u'} ==> d == Malformed(BadEscape))
  {
    assert ("\\" + [c] + t)[2..] == t;
  }

  /** What is wrong with a malformed escape. */
  lemma MalformedEscapes(t: string)
    ensures Unescape("\\") == Malformed(EmptyEscape)
    ensures |t| < 4 ==> Unescape("\\u" + t) == Malformed(FourDigitsExpected)
    ensures |t| >= 4 && (forall v :: !SpellsHex(t[..4], v)) ==> Unescape("\\u" + t) == Malformed(HexDigitExpected)
    ensures |t| >= 4 && (exists v :: 0xD800 <= v < 0xDC00 && SpellsHex(t[..4], v)) ==>
      && (|t| < 10 ==> Unescape("\\u" + t) == Malformed(SixMoreExpected))
      && (|t| >= 10 && t[4..6] != "\\u" ==> Unescape("\\u" + t) == Malformed(SecondHalfExpected))
  {
    hide SpellsHex, Hex4;
    assert ("\\u" + t)[2..] == t;
    if |t| >= 4 {
      if Hex4(t).Some? {
        HexIsRead(t, Hex4(t).value);
      }
      if v :| 0xD800 <= v < 0xDC00 && SpellsHex(t[..4], v) {
        HexIsRead(t, v);
        assert |t| >= 10 ==> (t[4..6] == "\\u" <==> t[4] == '\\' && t[5] == 'u');
      }
    }
  }

  lemma PairIsRead(e: string, v: nat, t: string)
    requires 0x10000 <= v <= 0x10FFFF && IsEscapeOf(e, v)
    ensures DecodeCodePoint((e + t)[2..]) == CodePoint(v, t)
  {
    hide Hex4, SpellsHex;
    var high, low := 0xD800 + (v - 0x10000) / 0x400, 0xDC00 + (v - 0x10000) % 0x400;
    var c := (e + t)[2..];
    var rest := c[4..];
    assert c[..4] == e[2..6] && rest == e[6..] + t;
    assert rest[0] == e[6..8][0] && rest[1] == e[6..8][1] && rest[2..] == e[8..] + t && rest[2..][..4] == e[8..];
    assert rest[2..][4..] == t;
    HexIsRead(c, high);
    HexIsRead(rest[2..], low);
    assert high % 0x400 == (v - 0x10000) / 0x400 && low % 0x400 == (v - 0x10000) % 0x400;
  }

  // ---- Quoting ----

  predicate IsControl(c: char) { 0 < c as int <= 0x1F }

  function HexDigit(n: nat): char
    requires n < 16
  {
    if n < 10 then '0' + n as char else 'A' + (n - 10) as char
  }

  function EscapeChar(c: char): string {
    if c == '"' then "\\\""
    else if c == '\\' then "\\\\"
    else if c == 8 as char then "\\b"
    else if c == 12 as char then "\\f"
    else if c == '\n' then "\\n"
    else if c == '\r' then "\\r"
    else if c == '\t' then "\\t"
    else if IsControl(c) || c == '\0' then "\\u00" + [HexDigit(c as int / 16), HexDigit(c as int % 16)]
    else [c]
  }

  function QuoteBody(s: string): string {
    if s == "" then "" else EscapeChar(s[0]) + QuoteBody(s[1..])
  }

  function Quote(s: string): string { "\"" + QuoteBody(s) + "\"" }

  predicate NeedsEscape(c: char) {
    c in {'"', '\\', 8 as char, 12 as char, '\n', '\r', '\t'} || IsControl(c) || c == '\0'
  }

  lemma {:induction false} QuoteBodyAppend(s: string, t: string)
    ensures QuoteBody(s + t) == QuoteBody(s) + QuoteBody(t)
  {
    if s == "" {
      assert s + t == t;
    } else {
      assert (s + t)[1..] == s[1..] + t;
      QuoteBodyAppend(s[1..], t);
    }
  }

  lemma {:induction false} PlainQuoteBody(s: string)
    requires forall i :: 0 <= i < |s| ==> !NeedsEscape(s[i])
    ensures QuoteBody(s) == s
  {
    if s != "" {
      PlainQuoteBody(s[1..]);
    }
  }

  lemma QuoteOneMore(s: string, i: nat)
    requires i < |s|
    ensures QuoteBody(s[..i + 1]) == QuoteBody(s[..i]) + EscapeChar(s[i])
    ensures QuoteBody(s[..0]) == ""
  {
    hide EscapeChar;
    assert s[..i + 1] == s[..i] + [s[i]];
    QuoteBodyAppend(s[..i], [s[i]]);
    assert QuoteBody([s[i]]) == EscapeChar(s[i]) + QuoteBody("");
  }

  /** valueToQuotedStringN: copied verbatim when nothing needs an escape, else escaped char by char. */
  method QuotedStringN(value: string) returns (result: string)
    ensures result == Quote(value)
  {
    hide EscapeChar;
    var i := 0;
    while i < |value| && !NeedsEscape(value[i])
      invariant 0 <= i <= |value|
      invariant forall j :: 0 <= j < i ==> !NeedsEscape(value[j])
    {
      i := i + 1;
    }
    if i == |value| {
      PlainQuoteBody(value);
      return "\"" + value + "\"";
    }
    result := "\"";
    i := 0;
    while i < |value|
      invariant 0 <= i <= |value|
      invariant result == "\"" + QuoteBody(value[..i])
    {
      QuoteOneMore(value, i);
      result := result + EscapeChar(value[i]);
      i := i + 1;
    }
    assert value[..i] == value;
    result := result + "\"";
  }

  /** What a NUL-terminated reader sees of a string. */
  function CString(s: string): string {
    if s == "" || s[0] == '\0' then "" else [s[0]] + CString(s[1..])
  }

  lemma {:induction false} CStringIsWhole(s: string)
    ensures CString(s) == s <==> '\0' !in s
  {
    if s != "" && s[0] != '\0' {
      CStringIsWhole(s[1..]);
      assert CString(s)[1..] == CString(s[1..]);
      assert s == [s[0]] + s[1..];
    }
  }

  lemma EscapeCharShape(c: char)
    ensures |EscapeChar(c)| == 1 ==> EscapeChar(c) == [c] && c != '"' && c != '\\'
    ensures |EscapeChar(c)| == 2 ==>
      EscapeChar(c)[0] == '\\' && EscapeChar(c)[1] != 'u' && SimpleEscape(EscapeChar(c)[1]) == Some(c)
    ensures |EscapeChar(c)| > 2 ==> c as int <= 0x1F
    ensures |EscapeChar(c)| > 0
  {
  }

  lemma EscapeCharReadBack(c: char, t: string)
    ensures Unescape(EscapeChar(c) + t) == Prepend([c], Unescape(t))
  {
    var s := EscapeChar(c) + t;
    EscapeCharShape(c);
    if |EscapeChar(c)| == 1 {
      assert s[1..] == t;
    } else if |EscapeChar(c)| == 2 {
      assert s[2..] == t;
    } else {
      ControlEscape(c);
      EscapesBecomeUtf8(EscapeChar(c), c as int, t);
    }
  }

  lemma ControlEscape(c: char)
    requires c as int <= 0x1F && |EscapeChar(c)| > 2
    ensures IsEscapeOf(EscapeChar(c), c as int)
  {
    var e := EscapeChar(c);
    assert e[2..] == "00" + [HexDigit(c as int / 16), HexDigit(c as int % 16)];
  }

  /** The writer escapes what it must and as shortly as it can: with the round trip this fixes every
      character it writes. */
  lemma EscapesAreShortest(c: char)
    ensures var e := EscapeChar(c);
      && |e| == (if c in {'"', '\\', 8 as char, 9 as char, 10 as char, 12 as char, 13 as char} then 2
                 else if c < ' ' then 6 else 1)
      && forall i :: 0 <= i < |e| ==> e[i] >= ' ' && (|e| == 6 ==> e[i] !in "abcdef")
  {
  }

  /** Unescaping undoes quoting, for every string, NUL included. */
  lemma {:induction false} QuoteRoundTrip(s: string)
    ensures Unescape(QuoteBody(s)) == Decoded(s)
  {
    if s != "" {
      QuoteRoundTrip(s[1..]);
      EscapeCharReadBack(s[0], QuoteBody(s[1..]));
    }
  }
}
