/** The offsets the reader records: every value's range re-reads as the value, ranges nest and
    siblings' ranges are disjoint. */
module JsonSlices {
  import opened Optional
  import opened JsonValue
  import opened JsonNumbers
  import opened JsonStrings
  import opened JsonLexer
  import opened JsonParser
  import JsonTokens
  import JsonGrammar

  // ---- Cutting the input behind a token does not change the token ----

  lemma CutHead(x: string, r: string)
    requires x != ""
    ensures (x + r)[0] == x[0] && (x + r)[1..] == x[1..] + r && Drop(x + r) == Drop(x) + r && Peek(x + r) == Peek(x)
  {
  }

  lemma {:induction false} CutSpaces(x: string, r: string)
    requires |SkipSpaces(x + r)| >= |r|
    ensures SkipSpaces(x + r) == SkipSpaces(x) + r
  {
    if x == "" {
      assert x + r == r;
      SpacesShrink(r);
    } else {
      CutHead(x, r);
      if IsSpace(x[0]) {
        CutSpaces(x[1..], r);
      }
    }
  }

  lemma SpacesShrink(r: string)
    ensures |SkipSpaces(r)| >= |r| ==> SkipSpaces(r) == r
  {
    if r != "" && IsSpace(r[0]) {
      assert |SkipSpaces(r[1..])| <= |r[1..]|;
    }
  }

  lemma {:induction false} CutDigits(x: string, r: string)
    requires |SkipDigits(x + r)| >= |r|
    ensures SkipDigits(x + r) == SkipDigits(x) + r
  {
    if x == "" {
      assert x + r == r;
    } else {
      CutHead(x, r);
      if IsDigit(x[0]) {
        CutDigits(x[1..], r);
      }
    }
  }

  lemma CutFraction(x: string, r: string)
    requires |SkipFraction(x + r)| >= |r|
    ensures SkipFraction(x + r) == SkipFraction(x) + r
  {
    if x == "" {
      assert x + r == r;
    } else {
      CutHead(x, r);
      if x[0] == '.' {
        CutDigits(x[1..], r);
      }
    }
  }

  lemma CutExponent(x: string, r: string)
    requires |SkipExponent(x + r)| >= |r|
    ensures SkipExponent(x + r) == SkipExponent(x) + r
  {
    if x == "" {
      assert x + r == r;
    } else {
      CutHead(x, r);
      if x[0] == 'e' || x[0] == 'E' {
        var t := x[1..];
        if t == "" {
          assert t + r == r;
          if Peek(r) != '+' && Peek(r) != '-' {
            CutDigits(t, r);
          }
        } else {
          CutHead(t, r);
          CutDigits(if t[0] == '+' || t[0] == '-' then t[1..] else t, r);
        }
      }
    }
  }

  lemma CutNumber(x: string, r: string)
    requires |ScanNumber(x + r)| >= |r|
    ensures ScanNumber(x + r) == ScanNumber(x) + r
  {
    hide SkipDigits, SkipFraction, SkipExponent;
    CutDigits(x, r);
    CutFraction(SkipDigits(x), r);
    CutExponent(SkipFraction(SkipDigits(x)), r);
  }

  lemma {:induction false} CutString(x: string, r: string)
    requires |ScanString(x + r).1| >= |r|
    ensures ScanString(x + r) == (ScanString(x).0, ScanString(x).1 + r)
    decreases |x|
  {
    if x == "" {
      assert x + r == r;
      StringShrinks(r);
    } else {
      CutHead(x, r);
      if x[0] == '\\' {
        if |x| == 1 {
          assert x[1..] + r == r;
          StringShrinks(Drop(r));
        } else {
          CutHead(x[1..], r);
          CutString(x[2..], r);
        }
      } else if x[0] != '"' {
        CutString(x[1..], r);
      }
    }
  }

  lemma {:induction false} StringShrinks(r: string)
    ensures r != "" ==> |ScanString(r).1| < |r|
    decreases |r|
  {
    if r != "" && r[0] == '\\' {
      StringShrinks(Drop(r[1..]));
    }
  }

  lemma {:induction false} CutCComment(x: string, r: string)
    requires |Drop(SkipCComment(x + r))| >= |r|
    ensures Drop(SkipCComment(x + r)) == Drop(SkipCComment(x)) + r
    ensures Peek(SkipCComment(x + r)) == '/' <==> Peek(SkipCComment(x)) == '/'
    decreases |x|
  {
    if x == "" {
      assert x + r == r;
      CCommentShrinks(r);
    } else {
      CutHead(x, r);
      if x[0] == '*' && |x| > 1 && x[1] == '/' {
        CutHead(x[1..], r);
      } else if |x| == 1 {
        assert x[1..] + r == r;
        CCommentShrinks(r);
      } else {
        CutHead(x[1..], r);
        CutCComment(x[1..], r);
      }
    }
  }

  lemma {:induction false} CCommentShrinks(r: string)
    ensures r != "" ==> |Drop(SkipCComment(r))| < |r|
  {
    if r != "" {
      CCommentShrinks(r[1..]);
    }
  }

  lemma {:induction false} CutLineComment(x: string, r: string)
    requires |SkipLineComment(x + r)| >= |r|
    ensures SkipLineComment(x + r) == SkipLineComment(x) + r
    decreases |x|
  {
    if x == "" {
      assert x + r == r;
      LineCommentShrinks(r);
    } else {
      CutHead(x, r);
      if x[0] == '\r' {
        if |x| > 1 {
          CutHead(x[1..], r);
          assert (x + r)[2..] == x[2..] + r;
        } else {
          assert x[1..] + r == r;
        }
      } else if x[0] != '\n' {
        CutLineComment(x[1..], r);
      }
    }
  }

  lemma {:induction false} LineCommentShrinks(r: string)
    ensures r != "" ==> |SkipLineComment(r)| < |r|
  {
    if r != "" && r[0] != '\n' && r[0] != '\r' {
      LineCommentShrinks(r[1..]);
    }
  }

  lemma CutComment(x: string, r: string)
    requires |ScanComment(x + r).1| >= |r|
    ensures ScanComment(x + r) == (ScanComment(x).0, ScanComment(x).1 + r)
  {
    if x == "" {
      assert x + r == r;
    } else {
      CutHead(x, r);
      if x[0] == '*' {
        CutCComment(x[1..], r);
      } else if x[0] == '/' {
        CutLineComment(x[1..], r);
      }
    }
  }

  lemma CutWord(x: string, r: string, pattern: string)
    requires |ScanWord(x + r, pattern).1| >= |r|
    ensures ScanWord(x + r, pattern) == (ScanWord(x, pattern).0, ScanWord(x, pattern).1 + r)
  {
    if pattern <= x + r {
      assert |pattern| <= |x|;
      assert pattern == (x + r)[..|pattern|] == x[..|pattern|];
      assert (x + r)[|pattern|..] == x[|pattern|..] + r;
    } else {
      assert x <= x + r;
    }
  }

  lemma CutTokenAt(x: string, r: string)
    requires x != "" && |TokenAt(x + r).rest| >= |r|
    ensures TokenAt(x).kind == TokenAt(x + r).kind && TokenAt(x + r).rest == TokenAt(x).rest + r
  {
    hide ScanNumber, ScanString, ScanComment, ScanWord;
    CutHead(x, r);
    var y := x[1..];
    match x[0] {
      case '"' => CutString(y, r);
      case '/' => CutComment(y, r);
      case 't' => CutWord(y, r, "rue");
      case 'f' => CutWord(y, r, "alse");
      case 'n' => CutWord(y, r, "ull");
      case c => if IsDigit(c) || c == '-' { CutNumber(y, r); }
    }
  }

  /** What two readings of a token, with and without the text behind the cut, have in common. */
  ghost predicate SameToken(t: Token, u: Token, r: string) {
    t.kind == u.kind && t.rest == u.rest + r && t.start == u.start + r && t.Text() == u.Text()
  }

  /** A token that ends before the cut stays the same token. */
  lemma CutToken(x: string, r: string)
    requires |ReadToken(x + r).rest| >= |r|
    ensures SameToken(ReadToken(x + r), ReadToken(x), r)
  {
    hide TokenAt;
    CutSpaces(x, r);
    var s := SkipSpaces(x);
    if s != "" {
      CutTokenAt(s, r);
      CutText(s, r, TokenAt(s), TokenAt(s + r));
    } else {
      assert s + r == r;
      AtTheCut(r);
    }
  }

  lemma {:induction false} CutSkipComments(x: string, r: string)
    requires |SkipComments(x + r).rest| >= |r|
    ensures SameToken(SkipComments(x + r), SkipComments(x), r)
    decreases |x|
  {
    hide ReadToken, SameToken;
    var t := ReadToken(x + r);
    CutToken(x, r);
    SameTokenParts(t, ReadToken(x), r);
    if t.kind == Comment {
      CutSkipComments(ReadToken(x).rest, r);
    }
  }

  lemma SameTokenParts(t: Token, u: Token, r: string)
    requires SameToken(t, u, r)
    ensures t.kind == u.kind && t.rest == u.rest + r && t.Text() == u.Text()
  {
  }

  lemma CutText(s: string, r: string, u: Token, t: Token)
    requires u.start == s && t.start == s + r && t.rest == u.rest + r && |u.rest| <= |s|
    ensures t.Text() == u.Text()
  {
    assert (s + r)[..|s + r| - |t.rest|] == s[..|s| - |u.rest|];
  }

  lemma AtTheCut(r: string)
    ensures TokenAt("").kind == EndOfStream && TokenAt("").rest == ""
    ensures |TokenAt(r).rest| >= |r| ==> TokenAt(r).rest == r && r == ""
  {
    if r != "" {
      NonEmptyToken(r);
    }
  }

  lemma NonEmptyToken(r: string)
    requires r != ""
    ensures |TokenAt(r).rest| < |r|
  {
  }

  // ---- Cutting the input behind a value does not change the value ----

  /** The same result, at another depth and without the text behind the cut. */
  ghost predicate SameResult(a: Result, b: Result, r: string, depth: int) {
    && a.Ret? && a.ok && b.Ret? && b.ok && b.rest + r == a.rest
    && Strip(b.value) == Strip(a.value) && b.depth == depth
  }

  lemma {:induction false} CutValue(env: Env, cut: Env, x: string, r: string, cur: Value, cur': Value, depth: int,
                                    depth': int)
    requires cut.toDouble == env.toDouble && depth' <= depth
    requires var res := ReadValue(env, x + r, cur, depth); res.Ret? && res.ok && |res.rest| >= |r|
    ensures SameResult(ReadValue(env, x + r, cur, depth), ReadValue(cut, x, cur', depth'), r, depth')
    decreases |x + r|, 1
  {
    hide SkipComments, ReadObject, ReadArray, Unescape, IntegerOf, Strip, StripEntries;
    CutSkipComments(x, r);
    var t, u := SkipComments(x + r), SkipComments(x);
    if t.kind == ObjectBegin {
      CutObject(env, cut, t, u, r, cur, cur', depth + 1, depth' + 1);
      var a, b := ReadObject(env, t, cur, depth + 1), ReadObject(cut, u, cur', depth' + 1);
      StripLimit(a.value, env.Offset(a.rest));
      StripLimit(b.value, cut.Offset(b.rest));
    } else if t.kind == ArrayBegin {
      CutArray(env, cut, t, u, r, cur, cur', depth + 1, depth' + 1);
      var a, b := ReadArray(env, t, cur, depth + 1), ReadArray(cut, u, cur', depth' + 1);
      StripLimit(a.value, env.Offset(a.rest));
      StripLimit(b.value, cut.Offset(b.rest));
    } else {
      CutScalar(env, cut, t, u, r, cur, cur', depth, depth');
    }
  }

  lemma StripLimit(v: Value, limit: int)
    ensures Strip(v.(limit := limit)) == Strip(v)
  {
  }

  lemma CutScalar(env: Env, cut: Env, t: Token, u: Token, r: string, cur: Value, cur': Value, depth: int, depth': int)
    requires cut.toDouble == env.toDouble && SameToken(t, u, r)
    requires ReadScalar(env, t, cur, depth).ok
    ensures SameResult(ReadScalar(env, t, cur, depth), ReadScalar(cut, u, cur', depth'), r, depth')
  {
    hide Unescape, IntegerOf;
  }

  lemma {:induction false} CutObject(env: Env, cut: Env, t: Token, u: Token, r: string, cur: Value, cur': Value,
                                     depth: int, depth': int)
    requires cut.toDouble == env.toDouble && depth' <= depth && SameToken(t, u, r)
    requires var res := ReadObject(env, t, cur, depth); res.Ret? && res.ok && |res.rest| >= |r|
    ensures SameResult(ReadObject(env, t, cur, depth), ReadObject(cut, u, cur', depth'), r, depth')
    decreases |t.rest|, 3
  {
    hide ReadMembers, Strip;
    var v := Value(Object([]), env.Offset(t.start), cur.limit);
    var w := Value(Object([]), cut.Offset(u.start), cur'.limit);
    CutMembers(env, cut, u.rest, r, v, w, "", depth, depth');
  }

  lemma {:induction false} CutMembers(env: Env, cut: Env, x: string, r: string, v: Value, w: Value, name: string,
                                      depth: int, depth': int)
    requires cut.toDouble == env.toDouble && depth' <= depth
    requires v.payload.Object? && w.payload.Object? && StripEntries(Entries(v)) == StripEntries(Entries(w))
    requires var res := ReadMembers(env, x + r, v, name, depth); res.Ret? && res.ok && |res.rest| >= |r|
    ensures SameResult(ReadMembers(env, x + r, v, name, depth), ReadMembers(cut, x, w, name, depth'), r, depth')
    decreases |x + r|, 2
  {
    hide SkipComments, ReadToken, ReadValue, Unescape, Content, Strip, StripEntries, Put, Find, Recover, Token.Text;
    var t, u := SkipComments(x + r), SkipComments(x);
    CutSkipComments(x, r);
    if t.kind == ObjectEnd {
      StripObject(v);
      StripObject(w);
    } else {
      var key := Unescape(Content(t.Text())).text;
      CutToken(u.rest, r);
      var colon, colon' := ReadToken(u.rest + r), ReadToken(u.rest);
      var a := ReadValue(env, colon.rest, At(Entries(v), Name(key)), depth);
      CutValue(env, cut, colon'.rest, r, At(Entries(v), Name(key)), At(Entries(w), Name(key)), depth, depth');
      var b := ReadValue(cut, colon'.rest, At(Entries(w), Name(key)), depth');
      StripPut(Entries(v), Name(key), a.value);
      StripPut(Entries(w), Name(key), b.value);
      var v', w' := PutMember(v, key, a.value), PutMember(w, key, b.value);
      CutToken(b.rest, r);
      var comma, comma' := ReadToken(a.rest), ReadToken(b.rest);
      if comma.kind == Comment {
        CutSkipComments(comma'.rest, r);
      }
      var last := if comma.kind == Comment then SkipComments(comma.rest) else comma;
      var last' := if comma'.kind == Comment then SkipComments(comma'.rest) else comma';
      if last.kind == ObjectEnd {
        StripObject(v');
        StripObject(w');
      } else {
        CutMembers(env, cut, last'.rest, r, v', w', key, a.depth, b.depth);
      }
    }
  }

  lemma StripObject(v: Value)
    requires v.payload.Object?
    ensures Strip(v) == Value(Object(StripEntries(Entries(v))), 0, 0)
  {
  }

  lemma StripArray(v: Value)
    requires v.payload.Array?
    ensures Strip(v) == Value(Array(StripEntries(Entries(v))), 0, 0)
  {
  }

  lemma {:induction false} CutArray(env: Env, cut: Env, t: Token, u: Token, r: string, cur: Value, cur': Value,
                                    depth: int, depth': int)
    requires cut.toDouble == env.toDouble && depth' <= depth && SameToken(t, u, r)
    requires var res := ReadArray(env, t, cur, depth); res.Ret? && res.ok && |res.rest| >= |r|
    ensures SameResult(ReadArray(env, t, cur, depth), ReadArray(cut, u, cur', depth'), r, depth')
    decreases |t.rest|, 3
  {
    hide ReadElements, Strip, SkipSpaces, TokenAt;
    var v := Value(Array([]), env.Offset(t.start), cur.limit);
    var w := Value(Array([]), cut.Offset(u.start), cur'.limit);
    StripArray(v);
    StripArray(w);
    CutSpaces(u.rest, r);
    var s := SkipSpaces(u.rest);
    if Peek(s + r) == ']' {
      CutToken(s, r);
      ClosingPeek(s, r);
    } else {
      CutElements(env, cut, s, r, v, w, 0, depth, depth');
    }
  }

  lemma ClosingPeek(s: string, r: string)
    requires |ReadToken(s + r).rest| >= |r| && Peek(s + r) == ']'
    ensures Peek(s) == ']'
  {
    CutToken(s, r);
    if s == "" {
      assert s + r == r;
      AtTheCut(r);
    }
  }

  lemma {:induction false} CutElements(env: Env, cut: Env, x: string, r: string, v: Value, w: Value, index: nat,
                                       depth: int, depth': int)
    requires cut.toDouble == env.toDouble && depth' <= depth
    requires v.payload.Array? && w.payload.Array? && StripEntries(Entries(v)) == StripEntries(Entries(w))
    requires var res := ReadElements(env, x + r, v, index, depth); res.Ret? && res.ok && |res.rest| >= |r|
    ensures SameResult(ReadElements(env, x + r, v, index, depth), ReadElements(cut, x, w, index, depth'), r, depth')
    decreases |x + r|, 2
  {
    hide SkipComments, ReadValue, Strip, StripEntries, Put, Find, Recover;
    var a := ReadValue(env, x + r, At(Entries(v), Index(index)), depth);
    CutValue(env, cut, x, r, At(Entries(v), Index(index)), At(Entries(w), Index(index)), depth, depth');
    var b := ReadValue(cut, x, At(Entries(w), Index(index)), depth');
    StripPut(Entries(v), Index(index), a.value);
    StripPut(Entries(w), Index(index), b.value);
    var v', w' := PutElement(v, index, a.value), PutElement(w, index, b.value);
    CutSkipComments(b.rest, r);
    var t, u := SkipComments(a.rest), SkipComments(b.rest);
    if t.kind == ArrayEnd {
      StripArray(v');
      StripArray(w');
    } else {
      CutElements(env, cut, u.rest, r, v', w', index + 1, a.depth, b.depth);
    }
  }

  // ---- Locations are suffixes of the document ----

  ghost predicate Suffix(r: string, s: string) {
    |r| <= |s| && s[|s| - |r|..] == r
  }

  lemma SuffixTransitive(a: string, b: string, c: string)
    requires Suffix(a, b) && Suffix(b, c)
    ensures Suffix(a, c)
  {
    assert c[|c| - |a|..] == c[|c| - |b|..][|b| - |a|..];
  }

  lemma SuffixStep(a: string, s: string)
    requires s != "" && Suffix(a, s[1..])
    ensures Suffix(a, s)
  {
    SuffixTransitive(a, s[1..], s);
  }

  lemma SuffixDrop(s: string)
    ensures Suffix(Drop(s), s) && Suffix(s, s)
  {
  }

  lemma {:induction false} SpacesSuffix(s: string)
    ensures Suffix(SkipSpaces(s), s)
  {
    if s != "" && IsSpace(s[0]) {
      SpacesSuffix(s[1..]);
      SuffixStep(SkipSpaces(s), s);
    }
  }

  lemma {:induction false} DigitsSuffix(s: string)
    ensures Suffix(SkipDigits(s), s)
  {
    if s != "" && IsDigit(s[0]) {
      DigitsSuffix(s[1..]);
      SuffixStep(SkipDigits(s), s);
    }
  }

  lemma NumberSuffix(s: string)
    ensures Suffix(ScanNumber(s), s)
  {
    hide SkipDigits;
    var a := SkipDigits(s);
    DigitsSuffix(s);
    var b := SkipFraction(a);
    if Peek(a) == '.' {
      DigitsSuffix(a[1..]);
      SuffixStep(b, a);
    }
    var c := SkipExponent(b);
    if Peek(b) == 'e' || Peek(b) == 'E' {
      var t := b[1..];
      if Peek(t) == '+' || Peek(t) == '-' {
        DigitsSuffix(t[1..]);
        SuffixStep(c, t);
      } else {
        DigitsSuffix(t);
      }
      SuffixStep(c, b);
    }
    SuffixTransitive(c, b, a);
    SuffixTransitive(c, a, s);
  }

  lemma {:induction false} StringSuffix(s: string)
    ensures Suffix(ScanString(s).1, s)
    decreases |s|
  {
    if s != "" && s[0] == '\\' {
      StringSuffix(Drop(s[1..]));
      SuffixDrop(s[1..]);
      SuffixTransitive(ScanString(s).1, Drop(s[1..]), s[1..]);
      SuffixStep(ScanString(s).1, s);
    } else if s != "" && s[0] != '"' {
      StringSuffix(s[1..]);
      SuffixStep(ScanString(s).1, s);
    }
  }

  lemma {:induction false} CCommentSuffix(s: string)
    ensures Suffix(SkipCComment(s), s)
  {
    if s != "" && !(s[0] == '*' && Peek(s[1..]) == '/') {
      CCommentSuffix(s[1..]);
      SuffixStep(SkipCComment(s), s);
    }
  }

  lemma {:induction false} LineCommentSuffix(s: string)
    ensures Suffix(SkipLineComment(s), s)
  {
    if s != "" && s[0] != '\n' && s[0] != '\r' {
      LineCommentSuffix(s[1..]);
      SuffixStep(SkipLineComment(s), s);
    }
  }

  lemma CommentSuffix(s: string)
    ensures Suffix(ScanComment(s).1, s)
  {
    SuffixDrop(s);
    if Peek(s) == '*' {
      var t := SkipCComment(s[1..]);
      CCommentSuffix(s[1..]);
      SuffixDrop(t);
      SuffixTransitive(Drop(t), t, s[1..]);
      SuffixStep(Drop(t), s);
    } else if Peek(s) == '/' {
      LineCommentSuffix(s[1..]);
      SuffixStep(SkipLineComment(s[1..]), s);
    }
  }

  /** What a token leaves of the text behind its first character. */
  lemma RestCases(s: string)
    ensures var d, rest := Drop(s), TokenAt(s).rest;
      || rest == d || rest == ScanNumber(d) || rest == ScanString(d).1 || rest == ScanComment(d).1
      || rest == ScanWord(d, "rue").1 || rest == ScanWord(d, "alse").1 || rest == ScanWord(d, "ull").1
  {
    hide ScanNumber, ScanString, ScanComment, ScanWord, Drop;
  }

  lemma TokenAtSuffix(s: string)
    ensures Suffix(TokenAt(s).rest, s)
  {
    hide ScanNumber, ScanString, ScanComment, ScanWord, Suffix, TokenAt, Drop;
    var d := Drop(s);
    SuffixDrop(s);
    SuffixDrop(d);
    StringSuffix(d);
    CommentSuffix(d);
    NumberSuffix(d);
    WordSuffix(d, "rue");
    WordSuffix(d, "alse");
    WordSuffix(d, "ull");
    RestCases(s);
    SuffixTransitive(TokenAt(s).rest, d, s);
  }

  lemma WordSuffix(s: string, pattern: string)
    ensures Suffix(ScanWord(s, pattern).1, s)
  {
  }

  lemma TokenSuffix(s: string)
    ensures Suffix(ReadToken(s).start, s) && Suffix(ReadToken(s).rest, ReadToken(s).start)
      && Suffix(ReadToken(s).rest, s)
  {
    hide TokenAt, Suffix;
    var p := SkipSpaces(s);
    SpacesSuffix(s);
    TokenAtSuffix(p);
    SuffixTransitive(TokenAt(p).rest, p, s);
  }

  lemma {:induction false} SkipCommentsSuffix(s: string)
    ensures var t := SkipComments(s); Suffix(t.start, s) && Suffix(t.rest, t.start) && Suffix(t.rest, s)
    decreases |s|
  {
    hide ReadToken, Suffix;
    var t := ReadToken(s);
    TokenSuffix(s);
    if t.kind == Comment {
      SkipCommentsSuffix(t.rest);
      SuffixTransitive(SkipComments(s).start, t.rest, s);
      SuffixTransitive(SkipComments(s).rest, t.rest, s);
    }
  }

  /** Reading from where the first token starts finds the same token. */
  lemma {:induction false} SkipCommentsAgain(s: string)
    ensures SkipComments(SkipComments(s).start) == SkipComments(s)
    decreases |s|
  {
    var t := ReadToken(s);
    SkipSpacesTwice(s);
    if t.kind == Comment {
      SkipCommentsAgain(t.rest);
    }
  }

  // ---- The main result ----

  ghost predicate Disjoint(es: seq<Entry>) {
    forall i, j :: 0 <= i < j < |es| ==> Apart(es[i].value, es[j].value)
  }

  ghost predicate Apart(a: Value, b: Value) { a.limit <= b.start || b.limit <= a.start }

  /** Parsing the characters of the value's range, as a document of its own, uses all of them and
      gives the value. */
  ghost predicate SliceReads(toDouble: string -> Option<real>, doc: string, v: Value)
    requires 0 <= v.start <= v.limit <= |doc|
  {
    var r := Parse(toDouble, doc[v.start..v.limit], NULL_VALUE);
    r.Ret? && r.ok && r.rest == "" && Strip(r.value) == Strip(v)
  }

  /** The ranges of the whole tree: each starts with its token and re-reads as its value, children
      lie strictly inside their parent, and siblings are apart. */
  ghost predicate Faithful(toDouble: string -> Option<real>, doc: string, v: Value)
    decreases v
  {
    && 0 <= v.start < v.limit <= |doc| && SliceReads(toDouble, doc, v) && doc[v.start] !in " \t\r\n/"
    && match v.payload
       case Array(es) => Disjoint(es) && forall e :: e in es ==>
         Faithful(toDouble, doc, e.value) && v.start < e.value.start && e.value.limit < v.limit
       case Object(es) => Disjoint(es) && forall e :: e in es ==>
         Faithful(toDouble, doc, e.value) && v.start < e.value.start && e.value.limit < v.limit
       case _ => true
  }

  /** The children read so far lie between lo and hi. */
  ghost predicate Between(toDouble: string -> Option<real>, doc: string, es: seq<Entry>, lo: int, hi: int) {
    && Disjoint(es)
    && forall e :: e in es ==> Faithful(toDouble, doc, e.value) && lo < e.value.start && e.value.limit <= hi
  }

  lemma DisjointCons(e: Entry, es: seq<Entry>)
    requires Disjoint(es) && forall f :: f in es ==> Apart(e.value, f.value)
    ensures Disjoint([e] + es)
  {
  }

  lemma DisjointTail(es: seq<Entry>)
    requires Disjoint(es) && es != []
    ensures Disjoint(es[1..]) && forall f :: f in es[1..] ==> f in es && Apart(es[0].value, f.value)
  {
    forall f | f in es[1..]
      ensures f in es && Apart(es[0].value, f.value)
    {
      var j :| 0 <= j < |es[1..]| && es[1..][j] == f;
      assert es[j + 1] == f;
    }
  }

  lemma {:induction false} PutBetween(toDouble: string -> Option<real>, doc: string, es: seq<Entry>, lo: int, hi: int,
                                      key: Key, v: Value)
    requires Between(toDouble, doc, es, lo, hi) && Faithful(toDouble, doc, v) && lo < hi <= v.start <= v.limit
    ensures Between(toDouble, doc, Put(es, key, v), lo, v.limit)
    ensures forall e :: e in Put(es, key, v) ==> e in es || e.value == v
  {
    hide Faithful, KeyLess, Disjoint;
    if es == [] {
      DisjointOne(Entry(key, v));
    } else {
      DisjointTail(es);
      assert es[0] in es;
      PutBetween(toDouble, doc, es[1..], lo, hi, key, v);
      DisjointCons(es[0], Put(es[1..], key, v));
      DisjointCons(Entry(key, v), es[1..]);
      DisjointCons(Entry(key, v), es);
    }
  }

  lemma DisjointOne(e: Entry)
    ensures Disjoint([e]) && Disjoint([])
  {
  }

  /** A token that is no comment starts neither with a space nor with a slash. */
  lemma {:induction false} StartsTight(s: string)
    ensures var t := SkipComments(s);
      t.kind !in {EndOfStream, ErrorToken} ==> t.start != "" && t.start[0] !in " \t\r\n/"
    decreases |s|
  {
    hide TokenAt;
    var w := JsonTokens.SpacesTaken(s);
    StartCharacter(SkipSpaces(s));
    var t := ReadToken(s);
    if t.kind == Comment {
      StartsTight(t.rest);
    }
  }

  lemma StartCharacter(s: string)
    ensures TokenAt(s).kind !in {EndOfStream, ErrorToken, Comment} ==> s != "" && s[0] != '/'
  {
    hide ScanNumber, ScanString, ScanComment, ScanWord;
  }

  lemma StartOf(doc: string, p: string, s: string)
    requires Suffix(p, s) && Suffix(s, doc) && p != ""
    ensures |p| <= |doc| && doc[|doc| - |p|] == p[0]
  {
    SuffixTransitive(p, s, doc);
    assert p[0] == doc[|doc| - |p|..][0];
  }

  /** What reading a value from a location of the document yields. */
  ghost predicate ReadWell(toDouble: string -> Option<real>, doc: string, s: string, r: Result) {
    r.Ret? && r.ok ==>
      && Suffix(r.rest, s) && Faithful(toDouble, doc, r.value)
      && |doc| - |s| <= r.value.start < r.value.limit && r.value.limit == |doc| - |r.rest|
  }

  /** The range of a value just read re-reads as that value. */
  lemma RangeReads(toDouble: string -> Option<real>, doc: string, s: string, cur: Value, depth: int)
    requires Suffix(s, doc) && depth >= 0
    requires var r := ReadValue(Env(|doc|, toDouble), s, cur, depth);
      r.Ret? && r.ok && Suffix(r.rest, SkipComments(s).start)
    requires var r := ReadValue(Env(|doc|, toDouble), s, cur, depth);
      r.value.start == |doc| - |SkipComments(s).start| && r.value.limit == |doc| - |r.rest|
    ensures var v := ReadValue(Env(|doc|, toDouble), s, cur, depth).value;
      0 <= v.start <= v.limit <= |doc| && SliceReads(toDouble, doc, v)
  {
    hide SkipComments, ReadValue, Strip, Suffix;
    var env := Env(|doc|, toDouble);
    var r := ReadValue(env, s, cur, depth);
    var p := SkipComments(s).start;
    ReadFromToken(env, s, cur, depth);
    SkipCommentsSuffix(s);
    SuffixTransitive(p, s, doc);
    var x := CutOut(doc, p, r.rest);
    CutValue(env, Env(|x|, toDouble), x, r.rest, cur, NULL_VALUE, depth, 0);
  }

  /** Spaces and comments in front of a value do not matter. */
  lemma ReadFromToken(env: Env, s: string, cur: Value, depth: int)
    ensures ReadValue(env, SkipComments(s).start, cur, depth) == ReadValue(env, s, cur, depth)
  {
    hide SkipComments, ReadObject, ReadArray, ReadScalar;
    SkipCommentsAgain(s);
  }

  lemma CutOut(doc: string, p: string, r: string) returns (x: string)
    requires Suffix(p, doc) && Suffix(r, p)
    ensures |r| <= |p| <= |doc| && p == x + r && x == doc[|doc| - |p|..|doc| - |r|]
  {
    x := p[..|p| - |r|];
  }

  lemma {:induction false} ReadIsFaithful(toDouble: string -> Option<real>, doc: string, s: string, cur: Value,
                                          depth: int)
    requires Suffix(s, doc) && depth >= 0
    ensures ReadWell(toDouble, doc, s, ReadValue(Env(|doc|, toDouble), s, cur, depth))
    decreases |s|, 1
  {
    hide ReadValue, SkipComments, Suffix, Faithful, HasRange, ContainerWell, ReadObject, ReadArray;
    var r := ReadValue(Env(|doc|, toDouble), s, cur, depth);
    var t := SkipComments(s);
    SkipCommentsSuffix(s);
    SuffixTransitive(t.rest, s, doc);
    if r.Ret? && r.ok {
      if t.kind == ObjectBegin || t.kind == ArrayBegin {
        StartIsLonger(s);
        if t.kind == ObjectBegin {
          ObjectIsFaithful(toDouble, doc, t, cur, depth + 1);
        } else {
          ArrayIsFaithful(toDouble, doc, t, cur, depth + 1);
        }
        ContainerRange(toDouble, doc, s, cur, depth);
      } else {
        ScalarRange(toDouble, doc, s, cur, depth);
      }
      RangedIsWell(toDouble, doc, s, cur, depth);
    }
  }

  lemma RangedIsWell(toDouble: string -> Option<real>, doc: string, s: string, cur: Value, depth: int)
    requires Suffix(s, doc) && depth >= 0
    requires var r := ReadValue(Env(|doc|, toDouble), s, cur, depth); r.Ret? && r.ok && HasRange(toDouble, doc, s, r)
    ensures ReadWell(toDouble, doc, s, ReadValue(Env(|doc|, toDouble), s, cur, depth))
  {
    hide ReadValue, SkipComments, Suffix, SliceReads, Faithful, HasRange, ChildrenWithin;
    var r := ReadValue(Env(|doc|, toDouble), s, cur, depth);
    SkipCommentsSuffix(s);
    RangeFits(toDouble, doc, s, r);
    RangeReads(toDouble, doc, s, cur, depth);
    StartsTight(s);
    StartOf(doc, SkipComments(s).start, s);
    Whole(toDouble, doc, r.value);
  }

  lemma StartIsLonger(s: string)
    ensures SkipComments(s).kind != EndOfStream ==> |SkipComments(s).rest| < |SkipComments(s).start|
  {
    hide SkipSpaces, TokenAt;
    SkipCommentsAgain(s);
  }

  /** Where the value just read lies, and what its children do. */
  ghost predicate HasRange(toDouble: string -> Option<real>, doc: string, s: string, r: Result)
    requires r.Ret?
  {
    var t := SkipComments(s);
    && Suffix(r.rest, t.start) && |r.rest| < |t.start| && t.kind !in {EndOfStream, ErrorToken}
    && r.value.start == |doc| - |t.start| && r.value.limit == |doc| - |r.rest|
    && ChildrenWithin(toDouble, doc, r.value)
  }

  ghost predicate ChildrenWithin(toDouble: string -> Option<real>, doc: string, v: Value) {
    v.payload.Array? || v.payload.Object? ==> Between(toDouble, doc, Entries(v), v.start, v.limit - 1)
  }

  lemma ContainerRange(toDouble: string -> Option<real>, doc: string, s: string, cur: Value, depth: int)
    requires SkipComments(s).kind == ObjectBegin || SkipComments(s).kind == ArrayBegin
    requires var r := ReadValue(Env(|doc|, toDouble), s, cur, depth); r.Ret? && r.ok
    requires var t, env := SkipComments(s), Env(|doc|, toDouble);
      var inner := if t.kind == ObjectBegin then ReadObject(env, t, cur, depth + 1)
        else ReadArray(env, t, cur, depth + 1);
      ContainerWell(toDouble, doc, t.rest, |doc| - |t.start|, inner)
    ensures HasRange(toDouble, doc, s, ReadValue(Env(|doc|, toDouble), s, cur, depth))
  {
    hide SkipComments, ReadObject, ReadArray, Suffix, Between;
    var t := SkipComments(s);
    SkipCommentsSuffix(s);
    StartIsLonger(s);
    SuffixTransitive(ReadValue(Env(|doc|, toDouble), s, cur, depth).rest, t.rest, t.start);
    SuffixLength(ReadValue(Env(|doc|, toDouble), s, cur, depth).rest, t.rest, t.start);
  }

  lemma ScalarRange(toDouble: string -> Option<real>, doc: string, s: string, cur: Value, depth: int)
    requires SkipComments(s).kind != ObjectBegin && SkipComments(s).kind != ArrayBegin
    requires var r := ReadValue(Env(|doc|, toDouble), s, cur, depth); r.Ret? && r.ok
    ensures HasRange(toDouble, doc, s, ReadValue(Env(|doc|, toDouble), s, cur, depth))
  {
    hide SkipComments, ReadObject, ReadArray, Suffix, Between, Unescape, IntegerOf, Token.Text, Content;
    SkipCommentsSuffix(s);
    StartIsLonger(s);
    JsonGrammar.IntegerPayload(SkipComments(s).Text());
  }

  lemma RangeFits(toDouble: string -> Option<real>, doc: string, s: string, r: Result)
    requires Suffix(s, doc) && r.Ret? && HasRange(toDouble, doc, s, r)
    ensures Suffix(r.rest, s) && |doc| - |s| <= r.value.start < r.value.limit <= |doc| && 0 <= r.value.start
    ensures var t := SkipComments(s);
      && Suffix(r.rest, t.start) && r.value.start == |doc| - |t.start| && r.value.limit == |doc| - |r.rest|
      && t.kind !in {EndOfStream, ErrorToken} && ChildrenWithin(toDouble, doc, r.value)
  {
    hide SkipComments, Suffix, Between;
    var t := SkipComments(s);
    SkipCommentsSuffix(s);
    SuffixTransitive(r.rest, t.start, s);
    SuffixLength(t.start, s, doc);
  }

  lemma Whole(toDouble: string -> Option<real>, doc: string, v: Value)
    requires 0 <= v.start < v.limit <= |doc| && SliceReads(toDouble, doc, v) && doc[v.start] !in " \t\r\n/"
    requires ChildrenWithin(toDouble, doc, v)
    ensures Faithful(toDouble, doc, v)
  {
    hide Disjoint, SliceReads;
  }

  lemma SuffixLength(a: string, b: string, c: string)
    requires Suffix(a, b) && Suffix(b, c)
    ensures |a| <= |b| <= |c|
  {
  }

  /** What the member and element loops establish about the container being read. */
  ghost predicate ContainerWell(toDouble: string -> Option<real>, doc: string, s: string, start: int, r: Result) {
    r.Ret? && r.ok ==>
      && Suffix(r.rest, s) && r.value.start == start && (r.value.payload.Array? || r.value.payload.Object?)
      && Between(toDouble, doc, Entries(r.value), start, |doc| - |r.rest| - 1)
  }

  lemma {:induction false} ObjectIsFaithful(toDouble: string -> Option<real>, doc: string, t: Token, cur: Value,
                                            depth: int)
    requires Suffix(t.rest, doc) && depth >= 0 && |t.rest| < |t.start|
    ensures ContainerWell(toDouble, doc, t.rest, |doc| - |t.start|, ReadObject(Env(|doc|, toDouble), t, cur, depth))
    decreases |t.rest|, 3
  {
    hide ReadMembers, Faithful;
    var v := Value(Object([]), |doc| - |t.start|, cur.limit);
    MembersAreFaithful(toDouble, doc, t.rest, v, "", depth);
  }

  lemma Wider(toDouble: string -> Option<real>, doc: string, es: seq<Entry>, lo: int, hi: int, hi': int)
    requires Between(toDouble, doc, es, lo, hi) && hi <= hi'
    ensures Between(toDouble, doc, es, lo, hi')
  {
  }

  lemma {:induction false} MembersAreFaithful(toDouble: string -> Option<real>, doc: string, s: string, v: Value,
                                              name: string, depth: int)
    requires Suffix(s, doc) && depth >= 0 && v.payload.Object? && v.start < |doc| - |s|
    requires Between(toDouble, doc, Entries(v), v.start, |doc| - |s|)
    ensures ContainerWell(toDouble, doc, s, v.start, ReadMembers(Env(|doc|, toDouble), s, v, name, depth))
    decreases |s|, 2
  {
    hide SkipComments, ReadToken, ReadValue, Unescape, Content, Suffix, Between, Put, Find, Recover, Faithful,
      Token.Text;
    var env := Env(|doc|, toDouble);
    var all := ReadMembers(env, s, v, name, depth);
    if all.Ret? && all.ok {
      var t := SkipComments(s);
      SkipCommentsSuffix(s);
      if t.kind == ObjectEnd {
        Wider(toDouble, doc, Entries(v), v.start, |doc| - |s|, |doc| - |t.rest| - 1);
      } else {
        var key := Unescape(Content(t.Text())).text;
        var colon := ReadToken(t.rest);
        TokenSuffix(t.rest);
        SuffixTransitive(colon.rest, t.rest, s);
        SuffixTransitive(colon.rest, s, doc);
        var cur := At(Entries(v), Name(key));
        ReadIsFaithful(toDouble, doc, colon.rest, cur, depth);
        var r := ReadValue(env, colon.rest, cur, depth);
        SuffixTransitive(r.rest, colon.rest, s);
        PutBetween(toDouble, doc, Entries(v), v.start, |doc| - |s|, Name(key), r.value);
        var w := PutMember(v, key, r.value);
        var comma := ReadToken(r.rest);
        TokenSuffix(r.rest);
        SkipCommentsSuffix(comma.rest);
        var last := if comma.kind == Comment then SkipComments(comma.rest) else comma;
        if comma.kind == Comment {
          SuffixTransitive(last.rest, comma.rest, r.rest);
        }
        SuffixTransitive(last.rest, r.rest, s);
        SuffixTransitive(last.rest, s, doc);
        if last.kind == ObjectEnd {
          Wider(toDouble, doc, Entries(w), v.start, r.value.limit, |doc| - |last.rest| - 1);
        } else {
          Wider(toDouble, doc, Entries(w), v.start, r.value.limit, |doc| - |last.rest|);
          MembersAreFaithful(toDouble, doc, last.rest, w, key, r.depth);
          SuffixTransitive(all.rest, last.rest, s);
        }
      }
    }
  }

  lemma {:induction false} ArrayIsFaithful(toDouble: string -> Option<real>, doc: string, t: Token, cur: Value,
                                           depth: int)
    requires Suffix(t.rest, doc) && depth >= 0 && |t.rest| < |t.start|
    ensures ContainerWell(toDouble, doc, t.rest, |doc| - |t.start|, ReadArray(Env(|doc|, toDouble), t, cur, depth))
    decreases |t.rest|, 3
  {
    hide ReadElements, Faithful, SkipSpaces, TokenAt, Suffix;
    var v := Value(Array([]), |doc| - |t.start|, cur.limit);
    var s := SkipSpaces(t.rest);
    SpacesSuffix(t.rest);
    SuffixTransitive(s, t.rest, doc);
    if Peek(s) == ']' {
      TokenSuffix(s);
      SuffixTransitive(ReadToken(s).rest, s, t.rest);
      NonEmptyRead(s);
    } else {
      ElementsAreFaithful(toDouble, doc, s, v, 0, depth);
      var all := ReadElements(Env(|doc|, toDouble), s, v, 0, depth);
      if all.Ret? && all.ok {
        SuffixTransitive(all.rest, s, t.rest);
      }
    }
  }

  lemma NonEmptyRead(s: string)
    requires Peek(s) == ']'
    ensures |ReadToken(s).rest| < |s|
  {
  }

  lemma {:induction false} ElementsAreFaithful(toDouble: string -> Option<real>, doc: string, s: string, v: Value,
                                               index: nat, depth: int)
    requires Suffix(s, doc) && depth >= 0 && v.payload.Array? && v.start < |doc| - |s|
    requires Between(toDouble, doc, Entries(v), v.start, |doc| - |s|)
    ensures ContainerWell(toDouble, doc, s, v.start, ReadElements(Env(|doc|, toDouble), s, v, index, depth))
    decreases |s|, 2
  {
    hide SkipComments, ReadValue, Suffix, Between, Put, Find, Recover, Faithful;
    var env := Env(|doc|, toDouble);
    var all := ReadElements(env, s, v, index, depth);
    if all.Ret? && all.ok {
      var cur := At(Entries(v), Index(index));
      ReadIsFaithful(toDouble, doc, s, cur, depth);
      var r := ReadValue(env, s, cur, depth);
      PutBetween(toDouble, doc, Entries(v), v.start, |doc| - |s|, Index(index), r.value);
      var w := PutElement(v, index, r.value);
      var t := SkipComments(r.rest);
      SkipCommentsSuffix(r.rest);
      SuffixTransitive(t.rest, r.rest, s);
      SuffixTransitive(t.rest, s, doc);
      if t.kind == ArrayEnd {
        Wider(toDouble, doc, Entries(w), v.start, r.value.limit, |doc| - |t.rest| - 1);
      } else {
        Wider(toDouble, doc, Entries(w), v.start, r.value.limit, |doc| - |t.rest|);
        ElementsAreFaithful(toDouble, doc, t.rest, w, index + 1, r.depth);
        SuffixTransitive(all.rest, t.rest, s);
      }
    }
  }

  /** After a successful parse the offsets of the whole tree are right. */
  lemma ParseIsFaithful(toDouble: string -> Option<real>, doc: string, root: Value)
    ensures var r := Parse(toDouble, doc, root); r.Ret? && r.ok ==> Faithful(toDouble, doc, r.value)
  {
    hide ReadValue, Faithful;
    SuffixDrop(doc);
    ReadIsFaithful(toDouble, doc, doc, root, 0);
  }
}
