/** The texts of numbers, strings and comments as grammars, and that the scanner finds exactly them. */
module JsonTokens {
  import opened JsonNumbers
  import opened JsonLexer

  // ---- Numbers ----

  predicate IsFraction(f: string) { f == "" || (f[0] == '.' && AllDigits(f[1..])) }

  predicate IsExponent(e: string) {
    e == "" || (e[0] in "eE" && (AllDigits(e[1..]) || (|e| >= 2 && e[1] in "+-" && AllDigits(e[2..]))))
  }

  /** A number as the reader takes it: a sign or none, digits, a point with digits, an exponent with
      or without a sign. Digits may be missing everywhere but at an unsigned start. */
  predicate IsNumber(sign: string, d: string, f: string, e: string) {
    && (sign == "" || sign == "-") && AllDigits(d) && (sign == "" ==> d != "")
    && IsFraction(f) && IsExponent(e)
  }

  /** The next character would belong to the number. */
  predicate Continues(f: string, e: string, r: string) {
    && r != ""
    && (IsDigit(r[0])
        || (if e == "" then r[0] in "eE" || (f == "" && r[0] == '.') else |e| == 1 && r[0] in "+-"))
  }

  function NumberText(sign: string, d: string, f: string, e: string): string { sign + d + f + e }

  predicate NoDigitFirst(r: string) { r == "" || !IsDigit(r[0]) }

  /** Which digits a scan of digits takes. */
  lemma {:induction false} DigitsTaken(s: string) returns (d: string)
    ensures s == d + SkipDigits(s) && AllDigits(d) && NoDigitFirst(SkipDigits(s))
  {
    d := "";
    if s != "" && IsDigit(s[0]) {
      var more := DigitsTaken(s[1..]);
      d := [s[0]] + more;
      assert s == [s[0]] + s[1..];
    } else {
      assert s == d + s;
    }
  }

  lemma FractionPast(f: string, r: string)
    requires IsFraction(f) && NoDigitFirst(r) && (f == "" ==> r == "" || r[0] != '.')
    ensures SkipFraction(f + r) == r
  {
    if f == "" {
      assert f + r == r;
    } else {
      assert (f + r)[1..] == f[1..] + r;
      SkipDigitsPast(f[1..], r);
    }
  }

  lemma FractionTaken(s: string) returns (f: string)
    requires NoDigitFirst(s)
    ensures s == f + SkipFraction(s) && IsFraction(f) && NoDigitFirst(SkipFraction(s))
    ensures f == "" ==> SkipFraction(s) == "" || SkipFraction(s)[0] != '.'
  {
    f := "";
    if s != "" && s[0] == '.' {
      var d := DigitsTaken(s[1..]);
      f := "." + d;
      assert f[1..] == d && s == [s[0]] + s[1..];
    } else {
      assert s == f + s;
    }
  }

  lemma ExponentPast(f: string, e: string, r: string)
    requires IsExponent(e) && !Continues(f, e, r)
    ensures SkipExponent(e + r) == r
  {
    if e == "" {
      assert e + r == r;
    } else {
      var t := (e + r)[1..];
      assert t == e[1..] + r;
      if AllDigits(e[1..]) {
        assert t != "" && t[0] in "+-" ==> |e| == 1;
        SkipDigitsPast(e[1..], r);
      } else {
        assert t[1..] == e[2..] + r;
        SkipDigitsPast(e[2..], r);
      }
    }
  }

  lemma ExponentTaken(f: string, s: string) returns (e: string)
    requires NoDigitFirst(s) && (f == "" ==> s == "" || s[0] != '.')
    ensures s == e + SkipExponent(s) && IsExponent(e) && !Continues(f, e, SkipExponent(s))
  {
    e := "";
    if s != "" && s[0] in "eE" {
      var t := s[1..];
      var n := if t != "" && t[0] in "+-" then 1 else 0;
      var d := DigitsTaken(t[n..]);
      e := [s[0]] + (t[..n] + d);
      ExponentOf(s[0], t[..n], d);
      ExponentStop(f, s[0], t[..n], d, SkipDigits(t[n..]));
      assert t == t[..n] + t[n..] && s == [s[0]] + t;
      assert SkipExponent(s) == SkipDigits(t[n..]) by { assert n == 0 ==> t[n..] == t; }
      TwoAndRest(s, [s[0]], t[..n], d, SkipDigits(t[n..]));
    } else {
      assert s == e + s;
    }
  }

  lemma TwoAndRest(s: string, a: string, b: string, d: string, r: string)
    requires s == a + (b + (d + r))
    ensures s == a + (b + d) + r
  {
  }

  lemma ExponentStop(f: string, c: char, sign: string, d: string, r: string)
    requires NoDigitFirst(r) && (sign != "" || d != "" || r == "" || r[0] !in "+-")
    ensures !Continues(f, [c] + (sign + d), r)
  {
  }

  lemma ExponentOf(c: char, sign: string, d: string)
    requires c in "eE" && AllDigits(d) && (sign == "" || sign == "+" || sign == "-")
    ensures IsExponent([c] + (sign + d))
  {
    var e := [c] + (sign + d);
    if sign == "" {
      assert e[1..] == d;
    } else {
      assert e[2..] == d && e[1] == sign[0];
    }
  }

  /** Every number text is one token when what follows does not continue it. */
  lemma NumberIsToken(sign: string, d: string, f: string, e: string, r: string)
    requires IsNumber(sign, d, f, e) && !Continues(f, e, r)
    ensures var x := NumberText(sign, d, f, e); TokenAt(x + r) == Token(NumberToken, x + r, r)
    ensures Reads(NumberText(sign, d, f, e) + r, [NumberText(sign, d, f, e)], r)
  {
    hide TokenAt, SkipDigits, SkipFraction, SkipExponent, Reads;
    var x := NumberText(sign, d, f, e);
    var digits := if sign == "" then d[1..] else d;
    assert (x + r)[1..] == digits + (f + (e + r));
    SkipDigitsPast(digits, f + (e + r));
    FractionPast(f, e + r);
    ExponentPast(f, e, r);
    NumberTokenAt(x + r);
    OneTokenReads(x, r);
  }

  /** And every number token is such a text, as long as possible. */
  lemma TokenIsNumber(s: string) returns (sign: string, d: string, f: string, e: string)
    requires TokenAt(s).kind == NumberToken
    ensures IsNumber(sign, d, f, e) && TokenAt(s).Text() == NumberText(sign, d, f, e)
    ensures s == NumberText(sign, d, f, e) + TokenAt(s).rest && !Continues(f, e, TokenAt(s).rest)
  {
    hide SkipDigits, SkipFraction, SkipExponent, TokenAt, IsFraction, IsExponent, Continues;
    NumberKind(s);
    var minus := s[0] == '-';
    sign := if minus then "-" else "";
    var s1 := SkipDigits(s[1..]);
    var s2 := SkipFraction(s1);
    var s3 := SkipExponent(s2);
    var digits := DigitsTaken(s[1..]);
    d := if minus then digits else [s[0]] + digits;
    f := FractionTaken(s1);
    e := ExponentTaken(f, s2);
    FirstCharacter(s, digits, sign, d);
    Joined(s, [s[0]], digits, f, e, s1, s2, s3);
    TokenText(s, NumberText(sign, d, f, e));
  }

  lemma FirstCharacter(s: string, digits: string, sign: string, d: string)
    requires NumberStart(s) && AllDigits(digits)
    requires sign == (if s[0] == '-' then "-" else "") && d == if s[0] == '-' then digits else [s[0]] + digits
    ensures sign + d == [s[0]] + digits && AllDigits(d) && (sign == "" ==> d != "") && s == [s[0]] + s[1..]
  {
  }

  lemma Joined(s: string, c: string, digits: string, f: string, e: string, s1: string, s2: string, s3: string)
    requires s == c + (digits + s1) && s1 == f + s2 && s2 == e + s3
    ensures s == c + digits + f + e + s3
  {
  }

  lemma TokenText(s: string, x: string)
    requires s == x + TokenAt(s).rest
    ensures TokenAt(s).Text() == x
  {
    assert s[..|s| - |TokenAt(s).rest|] == x;
  }

  lemma NumberKind(s: string)
    requires TokenAt(s).kind == NumberToken
    ensures NumberStart(s) && TokenAt(s).rest == ScanNumber(s[1..])
  {
    hide ScanNumber;
  }

  // ---- Strings ----

  /** What may stand between quotes: no bare quote, and a backslash only with a character behind. */
  predicate IsStringBody(b: string) {
    b == "" || (if b[0] == '\\' then |b| >= 2 && IsStringBody(b[2..]) else b[0] != '"' && IsStringBody(b[1..]))
  }

  function Quoted(b: string): string { "\"" + b + "\"" }

  lemma {:induction false} BodyPast(b: string, r: string)
    requires IsStringBody(b)
    ensures ScanString(b + "\"" + r) == (true, r)
  {
    var s := b + "\"" + r;
    if b == "" {
      assert s[1..] == r;
    } else if b[0] == '\\' {
      BodyPast(b[2..], r);
      assert s[2..] == b[2..] + "\"" + r && Drop(s[1..]) == s[2..];
    } else {
      BodyPast(b[1..], r);
      assert s[1..] == b[1..] + "\"" + r;
    }
  }

  lemma {:induction false} BodyTaken(s: string) returns (b: string)
    requires ScanString(s).0
    ensures IsStringBody(b) && s == b + "\"" + ScanString(s).1
    decreases |s|
  {
    if s[0] == '\\' {
      assert |s| >= 2;
      var more := BodyTaken(s[2..]);
      b := s[..2] + more;
      BodyBehind(s, 2, more, ScanString(s).1);
    } else if s[0] == '"' {
      b := "";
      assert s == "" + "\"" + s[1..];
    } else {
      var more := BodyTaken(s[1..]);
      b := s[..1] + more;
      BodyBehind(s, 1, more, ScanString(s).1);
    }
  }

  lemma BodyBehind(s: string, n: nat, more: string, r: string)
    requires n <= |s| && s[n..] == more + "\"" + r
    ensures s == s[..n] + more + "\"" + r && (s[..n] + more)[n..] == more
  {
    assert s == s[..n] + s[n..];
  }

  /** Every quoted body is one token, whatever follows, and every string token is one. */
  lemma QuotedIsToken(b: string, r: string)
    requires IsStringBody(b)
    ensures TokenAt(Quoted(b) + r) == Token(StringToken, Quoted(b) + r, r)
    ensures Reads(Quoted(b) + r, [Quoted(b)], r)
  {
    hide ScanString, Reads;
    BodyPast(b, r);
    assert (Quoted(b) + r)[1..] == b + "\"" + r;
    OneTokenReads(Quoted(b), r);
  }

  lemma TokenIsQuoted(s: string) returns (b: string)
    requires TokenAt(s).kind == StringToken
    ensures IsStringBody(b) && TokenAt(s).Text() == Quoted(b) && s == Quoted(b) + TokenAt(s).rest
  {
    hide ScanString;
    b := BodyTaken(s[1..]);
    assert s == [s[0]] + s[1..];
    assert s == Quoted(b) + TokenAt(s).rest;
    TokenText(s, Quoted(b));
  }

  // ---- Spaces and comments ----

  /** Spaces, tabs, carriage returns and line feeds are passed over, and nothing else. */
  lemma {:induction false} SpacesTaken(s: string) returns (w: string)
    ensures s == w + SkipSpaces(s) && (forall c :: c in w ==> c in " \t\r\n")
    ensures SkipSpaces(s) != "" ==> SkipSpaces(s)[0] !in " \t\r\n"
  {
    w := "";
    if s != "" && IsSpace(s[0]) {
      var more := SpacesTaken(s[1..]);
      w := [s[0]] + more;
      assert s == [s[0]] + s[1..];
    } else {
      assert s == w + s;
    }
  }

  predicate HoldsEndMark(b: string) { |b| >= 2 && ((b[0] == '*' && b[1] == '/') || HoldsEndMark(b[1..])) }

  /** A comment in the style of C, up to the first end mark, is passed over. */
  lemma CommentVanishes(b: string, s: string)
    requires !HoldsEndMark(b)
    ensures SkipComments("/*" + b + "*/" + s) == SkipComments(s)
  {
    hide SkipCComment;
    var x := "/*" + b + "*/" + s;
    assert SkipSpaces(x) == x && x[1..] == "*" + b + "*/" + s && x[1..][1..] == b + "*/" + s;
    CommentEnds(b, s);
    assert ("/" + s)[1..] == s;
  }

  lemma {:induction false} CommentEnds(b: string, s: string)
    requires !HoldsEndMark(b)
    ensures SkipCComment(b + "*/" + s) == "/" + s
  {
    var x := b + "*/" + s;
    if b == "" {
      assert x[0] == '*' && x[1..] == "/" + s;
    } else {
      assert x[0] == b[0] && x[1..] == b[1..] + "*/" + s && x[1] == if |b| > 1 then b[1] else '*';
      CommentEnds(b[1..], s);
    }
  }

  /** A comment up to the end of its line is passed over. */
  lemma LineCommentVanishes(b: string, s: string)
    requires '\n' !in b && '\r' !in b
    ensures SkipComments("//" + b + "\n" + s) == SkipComments(s)
  {
    hide SkipLineComment;
    var x := "//" + b + "\n" + s;
    assert SkipSpaces(x) == x && x[1..] == "/" + b + "\n" + s && x[1..][1..] == b + "\n" + s;
    LineEnds(b, s);
  }

  lemma {:induction false} LineEnds(b: string, s: string)
    requires '\n' !in b && '\r' !in b
    ensures SkipLineComment(b + "\n" + s) == s
  {
    var x := b + "\n" + s;
    if b == "" {
      assert x[1..] == s;
    } else {
      assert x[1..] == b[1..] + "\n" + s;
      LineEnds(b[1..], s);
    }
  }
}
