/** The tokenizer of the reader. A location in the document is given by the input that remains
    from there; reading at the end of the input gives a NUL. */
module JsonLexer {
  import opened JsonNumbers
  import opened JsonStrings

  datatype TokenKind =
    | EndOfStream
    | ObjectBegin
    | ObjectEnd
    | ArrayBegin
    | ArrayEnd
    | StringToken
    | NumberToken
    | TrueToken
    | FalseToken
    | NullToken
    | ArraySeparator
    | MemberSeparator
    | Comment
    | ErrorToken

  datatype Token = Token(kind: TokenKind, start: string, rest: string) {
    /** The characters between the two locations of the token. */
    function Text(): string
    {
      if |rest| <= |start| then start[..|start| - |rest|] else ""
    }
  }

  function Peek(s: string): char { if s == "" then '\0' else s[0] }

  function Drop(s: string): (r: string)
    ensures |r| <= |s|
  {
    if s == "" then s else s[1..]
  }

  predicate IsSpace(c: char) { c == ' ' || c == '\t' || c == '\r' || c == '\n' }

  function SkipSpaces(s: string): (r: string)
    ensures |r| <= |s|
  {
    if s != "" && IsSpace(s[0]) then SkipSpaces(s[1..]) else s
  }

  lemma {:induction false} SkipSpacesTwice(s: string)
    ensures SkipSpaces(SkipSpaces(s)) == SkipSpaces(s)
  {
    if s != "" && IsSpace(s[0]) {
      SkipSpacesTwice(s[1..]);
    }
  }

  /** The rest of a string token after its opening quote, and whether its closing quote was found. */
  function ScanString(s: string): (r: (bool, string))
    ensures |r.1| <= |s|
  {
    if s == "" then (false, s)
    else if s[0] == '\\' then ScanString(Drop(s[1..]))
    else if s[0] == '"' then (true, s[1..])
    else ScanString(s[1..])
  }

  function SkipDigits(s: string): (r: string)
    ensures |r| <= |s|
  {
    if s != "" && IsDigit(s[0]) then SkipDigits(s[1..]) else s
  }

  function SkipFraction(s: string): (r: string)
    ensures |r| <= |s|
  {
    if Peek(s) == '.' then SkipDigits(s[1..]) else s
  }

  function SkipExponent(s: string): (r: string)
    ensures |r| <= |s|
  {
    if Peek(s) == 'e' || Peek(s) == 'E' then
      var t := s[1..];
      SkipDigits(if Peek(t) == '+' || Peek(t) == '-' then t[1..] else t)
    else s
  }

  /** readNumber, after the first character of the token. */
  function ScanNumber(s: string): (r: string)
    ensures |r| <= |s|
  {
    SkipExponent(SkipFraction(SkipDigits(s)))
  }

  /** The location where the scan for the end of a C comment stops. */
  function SkipCComment(s: string): (r: string)
    ensures |r| <= |s|
  {
    if s == "" then s
    else if s[0] == '*' && Peek(s[1..]) == '/' then s[1..]
    else SkipCComment(s[1..])
  }

  function SkipLineComment(s: string): (r: string)
    ensures |r| <= |s|
  {
    if s == "" then s
    else if s[0] == '\n' then s[1..]
    else if s[0] == '\r' then if Peek(s[1..]) == '\n' then s[2..] else s[1..]
    else SkipLineComment(s[1..])
  }

  /** readComment, after the slash. */
  function ScanComment(s: string): (r: (bool, string))
    ensures |r.1| <= |s|
  {
    if Peek(s) == '*' then
      var t := SkipCComment(s[1..]);
      (Peek(t) == '/', Drop(t))
    else if Peek(s) == '/' then (true, SkipLineComment(s[1..]))
    else (false, Drop(s))
  }

  /** match: the pattern is consumed only as a whole. */
  function ScanWord(s: string, pattern: string): (r: (bool, string))
    ensures |r.1| <= |s|
  {
    if pattern <= s then (true, s[|pattern|..]) else (false, s)
  }

  function Checked(kind: TokenKind, start: string, scan: (bool, string)): Token {
    Token(if scan.0 then kind else ErrorToken, start, scan.1)
  }

  /** The token that starts exactly here. */
  function TokenAt(s: string): (t: Token)
    ensures t.start == s && |t.rest| <= |s|
    ensures t.kind != EndOfStream ==> |t.rest| < |s|
  {
    var r := Drop(s);
    match Peek(s)
    case '{' => Token(ObjectBegin, s, r)
    case '}' => Token(ObjectEnd, s, r)
    case '[' => Token(ArrayBegin, s, r)
    case ']' => Token(ArrayEnd, s, r)
    case '"' => Checked(StringToken, s, ScanString(r))
    case '/' => Checked(Comment, s, ScanComment(r))
    case 't' => Checked(TrueToken, s, ScanWord(r, "rue"))
    case 'f' => Checked(FalseToken, s, ScanWord(r, "alse"))
    case 'n' => Checked(NullToken, s, ScanWord(r, "ull"))
    case ',' => Token(ArraySeparator, s, r)
    case ':' => Token(MemberSeparator, s, r)
    case '\0' => Token(EndOfStream, s, r)
    case c => if IsDigit(c) || c == '-' then Token(NumberToken, s, ScanNumber(r)) else Token(ErrorToken, s, r)
  }

  function ReadToken(s: string): (t: Token)
    ensures |t.rest| <= |t.start| <= |s|
    ensures t.kind != EndOfStream ==> |t.rest| < |s|
  {
    TokenAt(SkipSpaces(s))
  }

  /** The first token that is not a comment. */
  function SkipComments(s: string): (t: Token)
    ensures |t.rest| <= |t.start| <= |s|
    ensures t.kind != EndOfStream ==> |t.rest| < |s|
    ensures t.kind != Comment
    decreases |s|
  {
    var t := ReadToken(s);
    if t.kind == Comment then SkipComments(t.rest) else t
  }

  /** recoverFromError: drop tokens up to and including the given kind, or the end. */
  function Recover(s: string, until: TokenKind): (r: string)
    ensures |r| <= |s|
    decreases |s|
  {
    var t := ReadToken(s);
    if t.kind == until || t.kind == EndOfStream then t.rest else Recover(t.rest, until)
  }

  // ---- Token sequences ----

  predicate IsRealToken(t: Token) { t.kind !in {EndOfStream, Comment, ErrorToken} }

  /** Reading |lexemes| tokens from s gives exactly these texts and leaves r. */
  predicate Reads(s: string, lexemes: seq<string>, r: string)
    decreases lexemes
  {
    if lexemes == [] then s == r
    else
      var t := ReadToken(s);
      && IsRealToken(t)
      && t.Text() == lexemes[0]
      && Reads(t.rest, lexemes[1..], r)
  }

  lemma {:induction false} ReadsAppend(s: string, a: seq<string>, m: string, b: seq<string>, r: string)
    requires Reads(s, a, m) && Reads(m, b, r)
    ensures Reads(s, a + b, r)
    decreases a
  {
    hide ReadToken;
    if a == [] {
      assert a + b == b;
    } else {
      ReadsAppend(ReadToken(s).rest, a[1..], m, b, r);
      assert (a + b)[1..] == a[1..] + b;
    }
  }

  lemma {:induction false} ReadsSplit(s: string, a: seq<string>, b: seq<string>, r: string) returns (m: string)
    requires Reads(s, a + b, r)
    ensures Reads(s, a, m) && Reads(m, b, r)
    decreases a
  {
    hide ReadToken;
    if a == [] {
      assert a + b == b;
      m := s;
    } else {
      assert (a + b)[1..] == a[1..] + b;
      m := ReadsSplit(ReadToken(s).rest, a[1..], b, r);
    }
  }

  /** All tokens up to the end of the stream. */
  function Tokens(s: string): seq<(TokenKind, string)>
    decreases |s|
  {
    var t := ReadToken(s);
    if t.kind == EndOfStream then [] else [(t.kind, t.Text())] + Tokens(t.rest)
  }

  predicate AllSpace(s: string) { forall i :: 0 <= i < |s| ==> IsSpace(s[i]) }

  lemma {:induction false} SpacesVanish(w: string, s: string)
    requires AllSpace(w)
    ensures SkipSpaces(w + s) == SkipSpaces(s)
  {
    if w == "" {
      assert w + s == s;
    } else {
      assert (w + s)[1..] == w[1..] + s;
      SpacesVanish(w[1..], s);
    }
  }

  lemma ReadsAfterSpaces(w: string, s: string, lexemes: seq<string>, r: string)
    requires AllSpace(w) && lexemes != [] && Reads(s, lexemes, r)
    ensures Reads(w + s, lexemes, r)
  {
    SpacesVanish(w, s);
  }

  lemma {:induction false} ReadsTokens(s: string, lexemes: seq<string>, r: string)
    requires Reads(s, lexemes, r) && AllSpace(r)
    ensures Tokens(s) == seq(|lexemes|, i requires 0 <= i < |lexemes| => (TokenAt(lexemes[i]).kind, lexemes[i]))
    decreases lexemes
  {
    if lexemes == [] {
      SpacesVanish(r, "");
      assert r + "" == r;
    } else {
      var t := ReadToken(s);
      ReadsTokens(t.rest, lexemes[1..], r);
      KindByText(t.start);
    }
  }

  /** The kind of a token is determined by its text. */
  lemma KindByText(s: string)
    requires IsRealToken(TokenAt(s))
    ensures TokenAt(TokenAt(s).Text()).kind == TokenAt(s).kind
  {
    hide ScanString, ScanNumber, ScanComment, ScanWord;
    var t := TokenAt(s);
    var x := t.Text();
    assert x != "" && x[0] == s[0];
    assert x[1..] == s[1..][..|s[1..]| - |t.rest|];
    if t.kind == StringToken {
      ScanStringText(s[1..]);
    } else if t.kind in {TrueToken, FalseToken, NullToken} {
      ScanWordText(s[1..], if t.kind == TrueToken then "rue" else if t.kind == FalseToken then "alse" else "ull");
    }
  }

  lemma ScanWordText(s: string, pattern: string)
    requires ScanWord(s, pattern).0
    ensures s[..|s| - |ScanWord(s, pattern).1|] == pattern && ScanWord(pattern, pattern) == (true, "")
  {
  }

  lemma {:induction false} ScanStringText(s: string)
    requires ScanString(s).0
    ensures ScanString(s[..|s| - |ScanString(s).1|]) == (true, "")
    decreases |s|
  {
    var x := s[..|s| - |ScanString(s).1|];
    if s[0] == '\\' {
      assert |s| >= 2;
      ScanStringText(s[2..]);
      assert x[2..] == s[2..][..|s[2..]| - |ScanString(s[2..]).1|];
      assert |x| >= 2 && Drop(x[1..]) == x[2..];
    } else if s[0] != '"' {
      ScanStringText(s[1..]);
      assert x[1..] == s[1..][..|s[1..]| - |ScanString(s[1..]).1|];
    }
  }

  // ---- Lexemes that stand alone ----

  /** What may follow a number token without changing where it ends. */
  predicate EndsNumber(r: string) {
    r == "" || !(IsDigit(r[0]) || r[0] == '.' || r[0] == 'e' || r[0] == 'E')
  }

  predicate NumberStart(x: string) { x != "" && (IsDigit(x[0]) || x[0] == '-') }

  lemma OneTokenReads(x: string, r: string)
    requires x != "" && !IsSpace(x[0])
    requires IsRealToken(TokenAt(x + r)) && TokenAt(x + r).rest == r
    ensures Reads(x + r, [x], r)
  {
    var s := x + r;
    assert SkipSpaces(s) == s;
    assert s[..|s| - |r|] == x;
    assert Reads(r, [], r);
  }

  lemma PunctuationReads(c: char, r: string)
    requires c in "{}[],:"
    ensures Reads([c] + r, [[c]], r)
  {
    assert ([c] + r)[1..] == r;
    OneTokenReads([c], r);
  }

  lemma ScanWordPast(pattern: string, r: string)
    ensures ScanWord(pattern + r, pattern) == (true, r)
  {
    assert (pattern + r)[|pattern|..] == r;
  }

  lemma WordReads(x: string, r: string)
    requires x in {"null", "true", "false"}
    ensures Reads(x + r, [x], r)
  {
    WordToken(x, r);
    OneTokenReads(x, r);
  }

  lemma WordToken(x: string, r: string)
    requires x in {"null", "true", "false"}
    ensures IsRealToken(TokenAt(x + r)) && TokenAt(x + r).rest == r
  {
    hide ScanWord;
    assert Drop(x + r) == x[1..] + r && Peek(x + r) == x[0];
    ScanWordPast(x[1..], r);
    if x == "null" {
      assert x[1..] == "ull";
    } else if x == "true" {
      assert x[1..] == "rue";
    } else {
      assert x[1..] == "alse";
    }
  }

  lemma {:induction false} SkipDigitsPast(d: string, r: string)
    requires AllDigits(d) && (r == "" || !IsDigit(r[0]))
    ensures SkipDigits(d + r) == r
  {
    if d == "" {
      assert d + r == r;
    } else {
      assert (d + r)[1..] == d[1..] + r;
      SkipDigitsPast(d[1..], r);
    }
  }

  lemma IntegerReads(n: int, r: string)
    requires EndsNumber(r)
    ensures Reads(SignedDecimal(n) + r, [SignedDecimal(n)], r)
  {
    var x := SignedDecimal(n);
    DecimalDenotes(if n < 0 then -n else n);
    IntegerTextReads(x, r);
  }

  lemma IntegerTextReads(x: string, r: string)
    requires NumberStart(x) && AllDigits(x[1..]) && EndsNumber(r)
    ensures Reads(x + r, [x], r)
  {
    hide TokenAt, SkipDigits, Reads;
    assert (x + r)[1..] == x[1..] + r;
    SkipDigitsPast(x[1..], r);
    NumberTokenAt(x + r);
    OneTokenReads(x, r);
  }

  lemma NumberTokenAt(s: string)
    requires NumberStart(s)
    ensures TokenAt(s) == Token(NumberToken, s, ScanNumber(s[1..]))
  {
    hide ScanNumber;
  }

  // ---- Quoted strings ----

  lemma EscapeCharScans(c: char, t: string)
    ensures ScanString(EscapeChar(c) + t) == ScanString(t)
  {
    var e := EscapeChar(c);
    EscapeCharShape(c);
    assert (e + t)[1..] == e[1..] + t;
    if |e| == 2 {
      assert Drop((e + t)[1..]) == t;
    } else if |e| > 2 {
      ControlEscapeScans(e, t);
    }
  }

  lemma ControlEscapeScans(e: string, t: string)
    requires |e| == 6 && e[0] == '\\'
    requires forall i :: 2 <= i < 6 ==> e[i] != '"' && e[i] != '\\'
    ensures ScanString(e + t) == ScanString(t)
  {
    var s := e + t;
    assert ScanString(s) == ScanString(s[2..]);
    assert s[2..][1..] == s[3..] && s[3..][1..] == s[4..] && s[4..][1..] == s[5..] && s[5..][1..] == t;
    assert ScanString(s[2..]) == ScanString(s[3..]);
    assert ScanString(s[4..]) == ScanString(s[5..]);
  }

  lemma {:induction false} QuoteBodyScans(s: string, r: string)
    ensures ScanString(QuoteBody(s) + "\"" + r) == (true, r)
  {
    if s == "" {
      assert QuoteBody(s) + "\"" + r == "\"" + r;
      assert ("\"" + r)[1..] == r;
    } else {
      QuoteBodyScans(s[1..], r);
      EscapeCharScans(s[0], QuoteBody(s[1..]) + "\"" + r);
      assert QuoteBody(s) + "\"" + r == EscapeChar(s[0]) + (QuoteBody(s[1..]) + "\"" + r);
    }
  }

  lemma QuoteReads(s: string, r: string)
    ensures Reads(Quote(s) + r, [Quote(s)], r)
  {
    hide ScanString, QuoteBody, Reads;
    QuoteBodyScans(s, r);
    assert (Quote(s) + r)[1..] == QuoteBody(s) + "\"" + r;
    OneTokenReads(Quote(s), r);
  }
}
