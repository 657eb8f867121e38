/** The reader as it runs: an index that moves over the document, a stack of the values under
    construction, a depth counter and an error list. Each method is proved against the function
    that says what it computes from the remaining input. */
module JsonReader {
  import opened Optional
  import opened JsonValue
  import opened JsonNumbers
  import opened JsonStrings
  import opened JsonLexer
  import opened JsonParser

  /** A token as the two indices the source keeps as pointers. */
  datatype Span = Span(kind: TokenKind, start: nat, end: nat)

  lemma SuffixStep(d: string, i: nat)
    requires i < |d|
    ensures d[i..][1..] == d[i + 1..] && Peek(d[i..]) == d[i] && Drop(d[i..]) == d[i + 1..]
  {
  }

  lemma {:induction false} ScanStringConsumes(s: string)
    requires ScanString(s).0
    ensures |ScanString(s).1| < |s|
    decreases |s|
  {
    if s[0] == '\\' {
      ScanStringConsumes(Drop(s[1..]));
    } else if s[0] != '"' {
      ScanStringConsumes(s[1..]);
    }
  }

  function HexPrefix(s: string, k: nat): nat
    requires k <= |s|
  {
    if k == 0 then 0 else HexPrefix(s, k - 1) * 16 + HexOrZero(s[k - 1])
  }

  lemma HexPrefixIsHex4(s: string)
    requires 4 <= |s| && IsHex(s[0]) && IsHex(s[1]) && IsHex(s[2]) && IsHex(s[3])
    ensures Hex4(s) == Some(HexPrefix(s, 4))
  {
    assert HexPrefix(s, 2) == HexPrefix(s, 1) * 16 + HexOrZero(s[1]);
  }

  lemma SliceStep(document: string, i: nat, end: nat)
    requires i < end <= |document|
    ensures document[i..end] != "" && document[i..end][0] == document[i]
    ensures document[i..end][1..] == document[i + 1..end]
  {
  }

  // ---- One turn of each loop of the specification ----

  lemma OneValue(env: Env, s: string, cur: Value, depth: int)
    ensures var all := ReadValue(env, s, cur, depth);
      var t := SkipComments(s);
      if depth >= STACK_LIMIT then all == Throw
      else if t.kind == ObjectBegin then all == WithLimit(env, ReadObject(env, t, cur, depth + 1))
      else if t.kind == ArrayBegin then all == WithLimit(env, ReadArray(env, t, cur, depth + 1))
      else all == ReadScalar(env, t, cur, depth)
  {
    hide SkipComments, ReadObject, ReadArray, ReadScalar, WithLimit;
  }

  /** What one turn of the loop of readArray comes to, or of readObject after the member's name: the
      end of the array or object, or the state in which the loop goes on. */
  datatype Turn = Done(r: Result) | More(rest: string, v: Value, depth: int)

  function AfterElement(env: Env, s: string, v: Value, index: nat, depth: int): Turn {
    var r := ReadValue(env, s, At(Entries(v), Index(index)), depth);
    if r.Throw? then Done(r)
    else
      var w := PutElement(v, index, r.value);
      if !r.ok then Done(Fail(env, w, r.rest, ArrayEnd, r.depth, r.errors))
      else
        var t := SkipComments(r.rest);
        if t.kind == ArrayEnd then Done(Ret(true, w, t.rest, r.depth, []))
        else if t.kind == ArraySeparator then More(t.rest, w, r.depth)
        else Done(Fail(env, w, t.rest, ArrayEnd, r.depth, ErrorAt(env, MissingCommaOrBracket, t)))
  }

  lemma OneElement(env: Env, s: string, v: Value, index: nat, depth: int)
    ensures ReadElements(env, s, v, index, depth) == match AfterElement(env, s, v, index, depth)
      case Done(r) => r
      case More(rest, w, d) => ReadElements(env, rest, w, index + 1, d)
  {
    hide ReadValue, SkipComments, PutElement, At, Entries, Fail;
  }

  function AfterName(env: Env, s: string, v: Value, key: string, depth: int): Turn {
    var colon := ReadToken(s);
    if colon.kind != MemberSeparator then
      Done(Fail(env, v, colon.rest, ObjectEnd, depth, ErrorAt(env, MissingColon, colon)))
    else
      var r := ReadValue(env, colon.rest, At(Entries(v), Name(key)), depth);
      if r.Throw? then Done(r)
      else
        var w := PutMember(v, key, r.value);
        if !r.ok then Done(Fail(env, w, r.rest, ObjectEnd, r.depth, r.errors))
        else
          var comma := ReadToken(r.rest);
          if comma.kind !in {ObjectEnd, ArraySeparator, Comment} then
            Done(Fail(env, w, comma.rest, ObjectEnd, r.depth, ErrorAt(env, MissingCommaOrBrace, comma)))
          else
            var last := if comma.kind == Comment then SkipComments(comma.rest) else comma;
            if last.kind == ObjectEnd then Done(Ret(true, w, last.rest, r.depth, []))
            else More(last.rest, w, r.depth)
  }

  function Continue(env: Env, turn: Turn, key: string): Result {
    match turn
    case Done(r) => r
    case More(s, v, depth) => ReadMembers(env, s, v, key, depth)
  }

  lemma OneMember(env: Env, s: string, v: Value, name: string, depth: int)
    ensures var all := ReadMembers(env, s, v, name, depth);
      var t := SkipComments(s);
      if t.kind == ObjectEnd && name == "" then all == Ret(true, v, t.rest, depth, [])
      else if t.kind != StringToken then
        all == Fail(env, v, t.rest, ObjectEnd, depth, ErrorAt(env, MissingBraceOrName, t))
      else match Unescape(Content(t.Text()))
        case Malformed(m) => all == Fail(env, v, t.rest, ObjectEnd, depth, ErrorAt(env, m, t))
        case Decoded(key) => all == Continue(env, AfterName(env, t.rest, v, key, depth), key)
  {
    hide ReadValue, SkipComments, ReadToken, PutMember, At, Entries, Fail, Unescape, Content;
  }

  class Reader {
    const toDouble: string -> Option<real>
    var document: string
    var current: nat
    var nodes: seq<Value>
    var errors: seq<Error>
    var stackDepth: int

    constructor (toDouble: string -> Option<real>)
      ensures this.toDouble == toDouble && InBounds()
    {
      this.toDouble := toDouble;
      document, current, nodes, errors, stackDepth := "", 0, [], [], 0;
    }

    /** The position and the ranges of all errors are in the document, and no more readValue calls
        are counted than the limit allows. */
    ghost predicate InBounds()
      reads this
    {
      && current <= |document| && stackDepth <= STACK_LIMIT
      && forall i :: 0 <= i < |errors| ==> IsInside(errors[i])
    }

    ghost predicate IsInside(e: Error)
      reads `document
    {
      0 <= e.start <= e.end <= |document|
    }

    /** The input that remains. */
    ghost function Here(): string
      requires InBounds()
      reads this
    {
      document[current..]
    }

    ghost function TheEnv(): Env
      reads this
    {
      Env(|document|, toDouble)
    }

    /** The token that a span stands for. */
    ghost function Abs(t: Span): Token
      requires t.start <= |document| && t.end <= |document|
      reads this
    {
      Token(t.kind, document[t.start..], document[t.end..])
    }

    ghost predicate Covers(t: Span)
      reads this
    {
      t.start <= t.end <= |document|
    }

    // ---- Characters ----

    method GetNextChar() returns (c: char)
      requires InBounds()
      modifies `current
      ensures InBounds() && c == Peek(old(Here())) && Here() == Drop(old(Here()))
      ensures old(current) <= current
      ensures current == if old(current) < |document| then old(current) + 1 else old(current)
    {
      if current == |document| {
        return '\0';
      }
      SuffixStep(document, current);
      c := document[current];
      current := current + 1;
    }

    method ScanSpaces()
      requires InBounds()
      modifies `current
      ensures InBounds() && Here() == SkipSpaces(old(Here())) && old(current) <= current
    {
      while current != |document|
        invariant InBounds() && SkipSpaces(Here()) == SkipSpaces(old(Here())) && old(current) <= current
        decreases |document| - current
      {
        SuffixStep(document, current);
        var c := document[current];
        if c == ' ' || c == '\t' || c == '\r' || c == '\n' {
          current := current + 1;
        } else {
          break;
        }
      }
    }

    method Match(pattern: string) returns (ok: bool)
      requires InBounds()
      modifies `current
      ensures InBounds() && old(current) <= current
      ensures (ok, Here()) == ScanWord(old(Here()), pattern)
    {
      if |document| - current < |pattern| {
        return false;
      }
      var index := |pattern|;
      ghost var s := Here();
      while index > 0
        invariant 0 <= index <= |pattern|
        invariant forall k :: index <= k < |pattern| ==> s[k] == pattern[k]
      {
        index := index - 1;
        if document[current + index] != pattern[index] {
          assert s[index] != pattern[index];
          return false;
        }
      }
      assert pattern <= s;
      current := current + |pattern|;
      return true;
    }

    method ScanCStyleComment() returns (ok: bool)
      requires InBounds()
      modifies `current
      ensures InBounds() && old(current) <= current
      ensures var t := SkipCComment(old(Here())); ok == (Peek(t) == '/') && Here() == Drop(t)
    {
      ghost var s := Here();
      while current != |document|
        invariant InBounds() && SkipCComment(Here()) == SkipCComment(s) && old(current) <= current
        decreases |document| - current
      {
        SuffixStep(document, current);
        var c := GetNextChar();
        if c == '*' && current < |document| && document[current] == '/' {
          break;
        }
      }
      var c := GetNextChar();
      ok := c == '/';
    }

    method ScanLineComment()
      requires InBounds()
      modifies `current
      ensures InBounds() && old(current) <= current && Here() == SkipLineComment(old(Here()))
    {
      while current != |document|
        invariant InBounds() && SkipLineComment(Here()) == SkipLineComment(old(Here())) && old(current) <= current
        decreases |document| - current
      {
        SuffixStep(document, current);
        var c := GetNextChar();
        if c == '\n' {
          break;
        }
        if c == '\r' {
          if current != |document| && document[current] == '\n' {
            c := GetNextChar();
          }
          break;
        }
      }
    }

    method ScanCommentHere() returns (ok: bool)
      requires InBounds()
      modifies `current
      ensures InBounds() && old(current) <= current && (ok, Here()) == ScanComment(old(Here()))
    {
      var c := GetNextChar();
      ok := false;
      if c == '*' {
        ok := ScanCStyleComment();
      } else if c == '/' {
        ScanLineComment();
        ok := true;
      }
    }

    method ScanStringHere() returns (ok: bool)
      requires InBounds()
      modifies `current
      ensures InBounds() && old(current) <= current && (ok, Here()) == ScanString(old(Here()))
    {
      var c := '\0';
      while current != |document|
        invariant InBounds() && ScanString(Here()) == ScanString(old(Here())) && old(current) <= current
        invariant c != '"'
        decreases |document| - current
      {
        SuffixStep(document, current);
        c := GetNextChar();
        if c == '\\' {
          var skipped := GetNextChar();
        } else if c == '"' {
          break;
        }
      }
      ok := c == '"';
    }

    /** `c = (current_ = p) < end_ ? *p++ : 0` */
    method Fetch(p: nat) returns (c: char, q: nat)
      requires InBounds() && p <= |document|
      modifies `current
      ensures InBounds() && current == p && c == Peek(Here()) && q <= |document|
      ensures q == if p < |document| then p + 1 else p
    {
      current := p;
      q := p;
      c := '\0';
      if p < |document| {
        c := document[p];
        q := p + 1;
      }
    }

    /** The scan stands on character c at `current`, with p just after it. */
    ghost predicate On(c: char, p: nat)
      reads this
    {
      && InBounds() && c == Peek(Here())
      && p == if current < |document| then current + 1 else current
    }

    method FetchDigits(c0: char, p0: nat) returns (c: char, p: nat)
      requires On(c0, p0)
      modifies `current
      ensures On(c, p) && Here() == SkipDigits(old(Here())) && old(current) <= current
    {
      c, p := c0, p0;
      while c >= '0' && c <= '9'
        invariant On(c, p) && SkipDigits(Here()) == SkipDigits(old(Here())) && old(current) <= current
        decreases |document| - current
      {
        SuffixStep(document, current);
        c, p := Fetch(p);
      }
    }

    method ScanExponentHere(c0: char, p0: nat)
      requires On(c0, p0)
      modifies `current
      ensures InBounds() && old(current) <= current && Here() == SkipExponent(old(Here()))
    {
      hide SkipDigits;
      var c, p := c0, p0;
      if c == 'e' || c == 'E' {
        SuffixStep(document, current);
        c, p := Fetch(p);
        if c == '+' || c == '-' {
          SuffixStep(document, current);
          c, p := Fetch(p);
        }
        c, p := FetchDigits(c, p);
      }
    }

    method ScanNumberHere()
      requires InBounds()
      modifies `current
      ensures InBounds() && old(current) <= current && Here() == ScanNumber(old(Here()))
    {
      hide SkipDigits, SkipExponent;
      var c, p := Fetch(current);
      c, p := FetchDigits(c, p);
      if c == '.' {
        SuffixStep(document, current);
        c, p := Fetch(p);
        c, p := FetchDigits(c, p);
      }
      ScanExponentHere(c, p);
    }

    // ---- Tokens ----

    method NextToken() returns (t: Span)
      requires InBounds()
      modifies `current
      ensures InBounds() && Covers(t) && t.end == current && Abs(t) == ReadToken(old(Here()))
      ensures old(current) <= t.start
      ensures t.kind != EndOfStream ==> old(current) < current
    {
      ScanSpaces();
      ghost var s := Here();
      var start := current;
      var c := GetNextChar();
      var ok := true;
      var kind := ErrorToken;
      if c == '{' {
        kind := ObjectBegin;
      } else if c == '}' {
        kind := ObjectEnd;
      } else if c == '[' {
        kind := ArrayBegin;
      } else if c == ']' {
        kind := ArrayEnd;
      } else if c == '"' {
        kind := StringToken;
        ok := ScanStringHere();
      } else if c == '/' {
        kind := Comment;
        ok := ScanCommentHere();
      } else if ('0' <= c && c <= '9') || c == '-' {
        kind := NumberToken;
        ScanNumberHere();
      } else if c == 't' {
        kind := TrueToken;
        ok := Match("rue");
      } else if c == 'f' {
        kind := FalseToken;
        ok := Match("alse");
      } else if c == 'n' {
        kind := NullToken;
        ok := Match("ull");
      } else if c == ',' {
        kind := ArraySeparator;
      } else if c == ':' {
        kind := MemberSeparator;
      } else if c == '\0' {
        kind := EndOfStream;
      } else {
        ok := false;
      }
      if !ok {
        kind := ErrorToken;
      }
      t := Span(kind, start, current);
    }

    method NextNonComment() returns (t: Span)
      requires InBounds()
      modifies `current
      ensures InBounds() && Covers(t) && t.end == current && Abs(t) == SkipComments(old(Here()))
      ensures old(current) <= t.start
      ensures t.kind != EndOfStream ==> old(current) < current
    {
      hide ReadToken;
      t := NextToken();
      while t.kind == Comment
        invariant InBounds() && Covers(t) && t.end == current && old(current) <= t.start
        invariant t.kind != EndOfStream ==> old(current) < current
        invariant SkipComments(old(Here())) == if t.kind == Comment then SkipComments(Here()) else Abs(t)
        decreases |document| - current, if t.kind == EndOfStream then 0 else 1
      {
        t := NextToken();
      }
    }

    method AddError(message: Message, t: Span)
      requires InBounds() && Covers(t)
      modifies `errors
      ensures InBounds()
      ensures errors == old(errors) + ErrorAt(TheEnv(), message, Abs(t))
    {
      errors := errors + [Error(message, t.start, t.end)];
    }

    method RecoverFromError(until: TokenKind)
      requires InBounds()
      modifies `current, `errors
      ensures InBounds() && Here() == Recover(old(Here()), until) && errors == old(errors)
      ensures old(current) <= current
    {
      hide ReadToken;
      var errorCount := |errors|;
      while true
        invariant InBounds() && Recover(Here(), until) == Recover(old(Here()), until) && errors == old(errors)
        invariant old(current) <= current
        decreases |document| - current
      {
        var skip := NextToken();
        if skip.kind == until || skip.kind == EndOfStream {
          break;
        }
      }
      errors := errors[..errorCount];
    }

    // ---- Strings and numbers ----

    method DecodeEscape(t: Span, cur: nat, end: nat) returns (ok: bool, next: nat, unicode: nat)
      requires InBounds() && Covers(t) && cur <= end <= |document|
      modifies `errors
      ensures InBounds()
      ensures var r := DecodeEscapeSequence(document[cur..end]);
        && ok == r.CodePoint?
        && (ok ==> cur <= next <= end && unicode == r.code && document[next..end] == r.rest && errors == old(errors))
        && (!ok ==> errors == old(errors) + ErrorAt(TheEnv(), r.message, Abs(t)))
    {
      next, unicode := cur, 0;
      if end - cur < 4 {
        AddError(FourDigitsExpected, t);
        return false, next, unicode;
      }
      ghost var s := document[cur..end];
      var index := 0;
      while index < 4
        invariant 0 <= index <= 4 && next == cur + index && errors == old(errors)
        invariant forall k :: 0 <= k < index ==> IsHex(s[k])
        invariant unicode == HexPrefix(s, index)
      {
        var c := document[next];
        assert c == s[index];
        next := next + 1;
        unicode := unicode * 16;
        if c >= '0' && c <= '9' {
          unicode := unicode + (c - '0') as nat;
        } else if c >= 'a' && c <= 'f' {
          unicode := unicode + (c - 'a') as nat + 10;
        } else if c >= 'A' && c <= 'F' {
          unicode := unicode + (c - 'A') as nat + 10;
        } else {
          assert !IsHex(s[index]);
          AddError(HexDigitExpected, t);
          return false, next, unicode;
        }
        index := index + 1;
      }
      HexPrefixIsHex4(s);
      assert s[4..] == document[next..end];
      ok := true;
    }

    method DecodeUnicode(t: Span, cur: nat, end: nat) returns (ok: bool, next: nat, unicode: nat)
      requires InBounds() && Covers(t) && cur <= end <= |document|
      modifies `errors
      ensures InBounds()
      ensures var r := DecodeCodePoint(document[cur..end]);
        && ok == r.CodePoint?
        && (ok ==> cur <= next <= end && unicode == r.code && document[next..end] == r.rest && errors == old(errors))
        && (!ok ==> errors == old(errors) + ErrorAt(TheEnv(), r.message, Abs(t)))
    {
      hide DecodeEscapeSequence;
      ok, next, unicode := DecodeEscape(t, cur, end);
      if !ok {
        return;
      }
      if unicode >= 0xD800 && unicode <= 0xDBFF {
        if end - next < 6 {
          AddError(SixMoreExpected, t);
          return false, next, unicode;
        }
        assert document[next..end][0] == document[next] && document[next..end][1] == document[next + 1];
        if document[next] == '\\' && document[next + 1] == 'u' {
          assert document[next..end][2..] == document[next + 2..end];
          var surrogatePair: nat;
          ok, next, surrogatePair := DecodeEscape(t, next + 2, end);
          if !ok {
            return;
          }
          unicode := 0x10000 + unicode % 0x400 * 0x400 + surrogatePair % 0x400;
        } else {
          AddError(SecondHalfExpected, t);
          return false, next, unicode;
        }
      }
    }

    /** What is decoded so far, in front of what the rest decodes to. */
    lemma PrependTwice(p: string, q: string, d: Decoded)
      ensures Prepend(p, Prepend(q, d)) == Prepend(p + q, d)
    {
      if d.Decoded? {
        assert p + (q + d.text) == p + q + d.text;
      }
    }

    /** Where a string ends and what an ordinary character adds. */
    lemma UnescapeStep(s: string)
      ensures s == "" || s[0] == '"' ==> Unescape(s) == Decoded("")
      ensures s != "" && s[0] != '"' && s[0] != '\\' ==> Unescape(s) == Prepend([s[0]], Unescape(s[1..]))
    {
    }

    /** The escape whose backslash stands just before `cur`. */
    method DecodeOneEscape(t: Span, cur: nat, end: nat) returns (ok: bool, next: nat, text: string)
      requires InBounds() && Covers(t) && 0 < cur <= end <= |document| && document[cur - 1] == '\\'
      modifies `errors
      ensures InBounds()
      ensures var d := Unescape(document[cur - 1..end]);
        if ok then
          && cur < next <= end && errors == old(errors)
          && d == Prepend(text, Unescape(document[next..end]))
        else d.Malformed? && errors == old(errors) + ErrorAt(TheEnv(), d.message, Abs(t))
    {
      hide DecodeCodePoint, CodePointToUtf8, SimpleEscape;
      ghost var s := document[cur - 1..end];
      ok, next, text := false, cur, "";
      if cur == end {
        AddError(EmptyEscape, t);
        return;
      }
      var escape := document[cur];
      next := cur + 1;
      assert escape == s[1] && s[2..] == document[next..end];
      if escape == 'u' {
        var unicode: nat;
        ok, next, unicode := DecodeUnicode(t, cur + 1, end);
        if ok {
          CodePointBound(document[cur + 1..end]);
          text := CodePointToUtf8(unicode);
        }
      } else {
        var simple := SimpleEscape(escape);
        if simple.None? {
          AddError(BadEscape, t);
          return;
        }
        ok, text := true, [simple.value];
      }
    }

    /** Decodes the content of a string token. */
    method DecodeStringToken(t: Span) returns (ok: bool, decoded: string)
      requires InBounds() && Covers(t) && t.start + 2 <= t.end
      modifies `errors
      ensures InBounds()
      ensures match Unescape(Content(Abs(t).Text()))
        case Decoded(x) => ok && decoded == x && errors == old(errors)
        case Malformed(m) => !ok && errors == old(errors) + ErrorAt(TheEnv(), m, Abs(t))
    {
      hide Unescape, Content, Token.Text;
      decoded := "";
      var cur := t.start + 1;
      var end := t.end - 1;
      ghost var content := document[cur..end];
      ContentOf(t);
      UnescapeStep("");
      while cur != end
        invariant t.start < cur <= end && errors == old(errors)
        invariant Prepend(decoded, Unescape(document[cur..end])) == Unescape(content)
        decreases end - cur
      {
        ghost var s := document[cur..end];
        ghost var before := decoded;
        var c := document[cur];
        cur := cur + 1;
        SliceStep(document, cur - 1, end);
        UnescapeStep(s);
        if c == '"' {
          break;
        } else if c == '\\' {
          var text;
          ok, cur, text := DecodeOneEscape(t, cur, end);
          if !ok {
            return false, decoded;
          }
          PrependTwice(before, text, Unescape(document[cur..end]));
          decoded := decoded + text;
        } else {
          PrependTwice(before, [c], Unescape(document[cur..end]));
          decoded := decoded + [c];
        }
      }
      ok := true;
    }

    lemma ContentOf(t: Span)
      requires Covers(t) && t.start + 2 <= t.end
      ensures Content(Abs(t).Text()) == document[t.start + 1..t.end - 1]
    {
      TextOf(t);
    }

    lemma TextOf(t: Span)
      requires Covers(t)
      ensures Abs(t).Text() == document[t.start..t.end]
    {
    }

    lemma StringTokenLength(t: Span, s: string)
      requires Covers(t) && t.kind == StringToken && Abs(t) == TokenAt(s)
      ensures t.start + 2 <= t.end
    {
      ScanStringConsumes(s[1..]);
    }

    method DecodeNumberToken(t: Span) returns (ok: bool, payload: Payload)
      requires InBounds() && Covers(t)
      modifies `errors
      ensures InBounds()
      ensures match DecodeNumber(TheEnv(), Abs(t).Text())
        case Some(p) => ok && payload == p && errors == old(errors)
        case None => !ok && errors == old(errors) + ErrorAt(TheEnv(), NotANumber, Abs(t))
    {
      TextOf(t);
      var text := document[t.start..t.end];
      var integer := DecodeInteger(text);
      payload := Null;
      if integer.Some? {
        return true, integer.value;
      }
      var double := toDouble(text);
      if double.None? {
        AddError(NotANumber, t);
        return false, payload;
      }
      return true, Real(double.value);
    }

    // ---- Values ----

    ghost function Top(): Value
      requires nodes != []
      reads this
    {
      nodes[|nodes| - 1]
    }

    ghost function BelowTop(): seq<Value>
      requires nodes != []
      reads this
    {
      nodes[..|nodes| - 1]
    }

    /** `currentValue() = v`: replaces the value on top of the stack. */
    method SetTop(v: Value)
      requires nodes != []
      modifies `nodes
      ensures nodes == old(BelowTop()) + [v] && Top() == v && BelowTop() == old(BelowTop())
    {
      nodes := nodes[..|nodes| - 1] + [v];
    }

    /** The reader's state agrees with the result r, above the given lower part of the stack. */
    ghost predicate Reached(r: Result, ok: bool, thrown: bool, lower: seq<Value>, before: seq<Error>)
      reads this
    {
      && InBounds()
      && thrown == r.Throw?
      && (r.Ret? ==>
            && ok == r.ok && Here() == r.rest && nodes == lower + [r.value]
            && stackDepth == r.depth && errors == before + r.errors)
    }

    method FailAndRecover(message: Message, t: Span, until: TokenKind) returns (ok: bool)
      requires InBounds() && Covers(t)
      modifies `current, `errors
      ensures !ok && InBounds() && old(current) <= current
      ensures Here() == Recover(old(Here()), until) && errors == old(errors) + ErrorAt(TheEnv(), message, Abs(t))
    {
      AddError(message, t);
      RecoverFromError(until);
      ok := false;
    }

    /** readValue. `thrown` is the stack-limit exception, which every caller passes on. */
    method ReadValue() returns (ok: bool, thrown: bool)
      requires InBounds() && nodes != []
      modifies `current, `nodes, `errors, `stackDepth
      ensures var r := JsonParser.ReadValue(TheEnv(), old(Here()), old(Top()), old(stackDepth));
        Reached(r, ok, thrown, old(BelowTop()), old(errors))
      ensures old(current) <= current
      decreases |document| - current, 1
    {
      hide SkipComments, JsonParser.ReadObject, JsonParser.ReadArray, JsonParser.ReadValue, ReadScalar, TokenAt,
        WithLimit;
      OneValue(TheEnv(), Here(), Top(), stackDepth);
      ok, thrown := true, false;
      if stackDepth >= STACK_LIMIT {
        thrown := true;
        return;
      }
      stackDepth := stackDepth + 1;
      ghost var s := Here();
      var token := NextNonComment();
      if token.kind == ObjectBegin || token.kind == ArrayBegin {
        ok, thrown := ReadContainer(token);
      } else {
        TokenStart(s);
        ok := ReadScalarToken(token);
      }
    }

    /** The cases of readValue for objects and arrays, and the end of the function. */
    method ReadContainer(token: Span) returns (ok: bool, thrown: bool)
      requires InBounds() && nodes != [] && Covers(token) && token.end == current
      requires token.kind == ObjectBegin || token.kind == ArrayBegin
      modifies `current, `nodes, `errors, `stackDepth
      ensures var t, cur, depth := old(Abs(token)), old(Top()), old(stackDepth);
        var r := if token.kind == ObjectBegin then JsonParser.ReadObject(TheEnv(), t, cur, depth)
          else JsonParser.ReadArray(TheEnv(), t, cur, depth);
        Reached(WithLimit(TheEnv(), r), ok, thrown, old(BelowTop()), old(errors))
      ensures old(current) <= current
      decreases |document| - current, 5
    {
      hide JsonParser.ReadObject, JsonParser.ReadArray, TokenAt;
      if token.kind == ObjectBegin {
        ok, thrown := ReadObject(token);
      } else {
        ok, thrown := ReadArray(token);
      }
      if thrown {
        return;
      }
      SetTop(nodes[|nodes| - 1].(limit := current));
      stackDepth := stackDepth - 1;
    }

    /** The cases of readValue that read no further value, and the end of the function. */
    method ReadScalarToken(token: Span) returns (ok: bool)
      requires InBounds() && nodes != [] && Covers(token)
      requires token.kind == StringToken ==> Abs(token) == TokenAt(document[token.start..])
      modifies `nodes, `errors, `stackDepth
      ensures InBounds() && current == old(current)
      ensures var r := ReadScalar(TheEnv(), old(Abs(token)), old(Top()), old(stackDepth) - 1);
        ok == r.ok && nodes == old(BelowTop()) + [r.value] && stackDepth == r.depth && errors == old(errors) + r.errors
    {
      hide TokenAt, Unescape, DecodeNumber, Content, Token.Text, ErrorAt;
      ok := true;
      if token.kind == NumberToken {
        var payload;
        ok, payload := DecodeNumberToken(token);
        if ok {
          SetTop(Value(payload, token.start, token.end));
        }
      } else if token.kind == StringToken {
        var text;
        StringTokenLength(token, document[token.start..]);
        ok, text := DecodeStringToken(token);
        if ok {
          SetTop(Value(Str(text), token.start, token.end));
        }
      } else if token.kind == TrueToken {
        SetTop(Value(Bool(true), token.start, token.end));
      } else if token.kind == FalseToken {
        SetTop(Value(Bool(false), token.start, token.end));
      } else if token.kind == NullToken {
        SetTop(Value(Null, token.start, token.end));
      } else {
        SetTop(nodes[|nodes| - 1].(start := token.start, limit := token.end));
        AddError(ValueExpected, token);
        ok := false;
        return;
      }
      stackDepth := stackDepth - 1;
    }

    /** A token found after comments starts where it says. */
    lemma {:induction false} TokenStart(s: string)
      ensures SkipComments(s) == TokenAt(SkipComments(s).start)
      decreases |s|
    {
      var t := JsonLexer.ReadToken(s);
      if t.kind == Comment {
        TokenStart(t.rest);
      }
    }

    /** `currentValue()[key]` is pushed, read and popped; what was read ends up in its parent. */
    method ReadChild(key: Key) returns (ok: bool, thrown: bool)
      requires InBounds() && nodes != []
      modifies `current, `nodes, `errors, `stackDepth
      ensures InBounds() && old(current) <= current
      ensures var r := JsonParser.ReadValue(TheEnv(), old(Here()), At(Entries(old(Top())), key), old(stackDepth));
        && thrown == r.Throw?
        && (r.Ret? ==>
              && ok == r.ok && Here() == r.rest
              && nodes == old(BelowTop()) + [PutChild(old(Top()), key, r.value)]
              && stackDepth == r.depth && errors == old(errors) + r.errors)
      decreases |document| - current, 2
    {
      hide JsonParser.ReadValue, PutElement, PutMember, Find;
      var parent := nodes[|nodes| - 1];
      ghost var lower := nodes;
      nodes := nodes + [At(Entries(parent), key)];
      assert BelowTop() == lower;
      ok, thrown := ReadValue();
      if thrown {
        return;
      }
      var child := nodes[|nodes| - 1];
      nodes := nodes[..|nodes| - 1];
      assert nodes == lower;
      SetTop(PutChild(parent, key, child));
    }

    /** The colon, the value and the comma or brace of one member. */
    method ReadMemberValue(name: string) returns (done: bool, ok: bool, thrown: bool)
      requires InBounds() && nodes != []
      modifies `current, `nodes, `errors, `stackDepth
      ensures InBounds() && old(current) <= current
      ensures match AfterName(TheEnv(), old(Here()), old(Top()), name, old(stackDepth))
        case Done(r) => done && Reached(r, ok, thrown, old(BelowTop()), old(errors))
        case More(rest, v, depth) =>
          && !done && !thrown && Here() == rest && nodes == old(BelowTop()) + [v]
          && stackDepth == depth && errors == old(errors) && old(current) < current
      decreases |document| - current, 3
    {
      hide SkipComments, ReadToken, JsonParser.ReadValue, Recover, PutMember, At, Entries;
      thrown := false;
      done := true;
      var colon := NextToken();
      if colon.kind != MemberSeparator {
        ok := FailAndRecover(MissingColon, colon, ObjectEnd);
        return;
      }
      ok, thrown := ReadChild(Name(name));
      if thrown {
        return;
      }
      if !ok {
        RecoverFromError(ObjectEnd);
        return;
      }
      var comma := NextToken();
      if comma.kind != ObjectEnd && comma.kind != ArraySeparator && comma.kind != Comment {
        ok := FailAndRecover(MissingCommaOrBrace, comma, ObjectEnd);
        return;
      }
      if comma.kind == Comment {
        comma := NextNonComment();
      }
      done := comma.kind == ObjectEnd;
    }

    method ReadObject(tokenStart: Span) returns (ok: bool, thrown: bool)
      requires InBounds() && nodes != [] && Covers(tokenStart) && tokenStart.end == current
      modifies `current, `nodes, `errors, `stackDepth
      ensures var r := JsonParser.ReadObject(TheEnv(), old(Abs(tokenStart)), old(Top()), old(stackDepth));
        Reached(r, ok, thrown, old(BelowTop()), old(errors))
      ensures old(current) <= current
      decreases |document| - current, 4
    {
      hide SkipComments, ReadToken, JsonParser.ReadValue, Unescape, Content, Recover, PutMember, At, Entries,
        ReadMembers, AfterName, TokenAt;
      ghost var lower := BelowTop();
      ghost var env := TheEnv();
      thrown := false;
      var name := "";
      ghost var v := Value(Object([]), tokenStart.start, nodes[|nodes| - 1].limit);
      SetTop(Value(Object([]), tokenStart.start, nodes[|nodes| - 1].limit));
      ghost var r := ReadMembers(env, Here(), v, "", stackDepth);
      var tokenName;
      while true
        invariant InBounds() && nodes == lower + [v] && errors == old(errors)
        invariant old(current) <= current && !thrown
        invariant ReadMembers(env, Here(), v, name, stackDepth) == r
        decreases |document| - current
      {
        ghost var s := Here();
        OneMember(env, s, v, name, stackDepth);
        tokenName := NextNonComment();
        if tokenName.kind == ObjectEnd && name == "" {
          return true, false;
        }
        if tokenName.kind != StringToken {
          break;
        }
        TokenStart(s);
        StringTokenLength(tokenName, document[tokenName.start..]);
        ok, name := DecodeStringToken(tokenName);
        if !ok {
          RecoverFromError(ObjectEnd);
          return false, false;
        }
        ghost var turn := AfterName(env, Here(), v, name, stackDepth);
        var done;
        done, ok, thrown := ReadMemberValue(name);
        if done {
          return;
        }
        v := turn.v;
      }
      ok := FailAndRecover(MissingBraceOrName, tokenName, ObjectEnd);
    }

    /** The value and the comma or bracket of one element. */
    method ReadElement(index: nat) returns (done: bool, ok: bool, thrown: bool)
      requires InBounds() && nodes != []
      modifies `current, `nodes, `errors, `stackDepth
      ensures InBounds() && old(current) <= current
      ensures match AfterElement(TheEnv(), old(Here()), old(Top()), index, old(stackDepth))
        case Done(r) => done && Reached(r, ok, thrown, old(BelowTop()), old(errors))
        case More(rest, v, depth) =>
          && !done && !thrown && Here() == rest && nodes == old(BelowTop()) + [v]
          && stackDepth == depth && errors == old(errors) && old(current) < current
      decreases |document| - current, 3
    {
      hide SkipComments, ReadToken, JsonParser.ReadValue, Recover, PutElement, At, Entries;
      done := true;
      ok, thrown := ReadChild(Index(index));
      if thrown {
        return;
      }
      if !ok {
        RecoverFromError(ArrayEnd);
        return;
      }
      var token := NextNonComment();
      if token.kind != ArraySeparator && token.kind != ArrayEnd {
        ok := FailAndRecover(MissingCommaOrBracket, token, ArrayEnd);
        return;
      }
      done := token.kind == ArrayEnd;
    }

    method ReadArray(tokenStart: Span) returns (ok: bool, thrown: bool)
      requires InBounds() && nodes != [] && Covers(tokenStart) && tokenStart.end == current
      modifies `current, `nodes, `errors, `stackDepth
      ensures var r := JsonParser.ReadArray(TheEnv(), old(Abs(tokenStart)), old(Top()), old(stackDepth));
        Reached(r, ok, thrown, old(BelowTop()), old(errors))
      ensures old(current) <= current
      decreases |document| - current, 4
    {
      hide SkipComments, SkipSpaces, TokenAt, ReadToken, JsonParser.ReadValue, Recover, PutElement, At, Entries,
        ReadElements, AfterElement;
      ghost var lower := BelowTop();
      ghost var env := TheEnv();
      thrown := false;
      ghost var v := Value(Array([]), tokenStart.start, nodes[|nodes| - 1].limit);
      SetTop(Value(Array([]), tokenStart.start, nodes[|nodes| - 1].limit));
      ScanSpaces();
      if current < |document| && document[current] == ']' {
        var endArray := NextToken();
        return true, false;
      }
      ghost var r := ReadElements(env, Here(), v, 0, stackDepth);
      assert r == JsonParser.ReadArray(env, old(Abs(tokenStart)), old(Top()), old(stackDepth));
      var index := 0;
      while true
        invariant InBounds() && nodes == lower + [v] && errors == old(errors)
        invariant old(current) <= current && !thrown
        invariant ReadElements(env, Here(), v, index, stackDepth) == r
        decreases |document| - current
      {
        ghost var turn := AfterElement(env, Here(), v, index, stackDepth);
        OneElement(env, Here(), v, index, stackDepth);
        assert Top() == v && BelowTop() == lower;
        var done;
        done, ok, thrown := ReadElement(index);
        if done {
          assert Reached(r, ok, thrown, lower, old(errors));
          return;
        }
        v := turn.v;
        index := index + 1;
      }
    }

    /** parse: resets the reader, reads one value into the root and skips to the next token. The
        root is the only node left, and there is an error in the list exactly when reading failed. */
    method Parse(doc: string, root: Value) returns (ok: bool, thrown: bool, value: Value)
      modifies this
      ensures document == doc && InBounds()
      ensures var r := JsonParser.Parse(toDouble, doc, root);
        && thrown == r.Throw?
        && (r.Ret? ==>
              && ok == r.ok && value == r.value && nodes == [value] && errors == r.errors
              && (ok <==> errors == []) && |errors| <= 1
              && 0 <= stackDepth <= 1 && Here() == SkipComments(r.rest).rest)
    {
      document := doc;
      current := 0;
      errors := [];
      nodes := [root];
      stackDepth := 0;
      value := root;
      assert document[0..] == doc;
      ok, thrown := ReadValue();
      if thrown {
        return;
      }
      var token := NextNonComment();
      value := nodes[0];
    }
  }
}
