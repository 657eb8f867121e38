/** Which error the reader reports, and for which range of the document. */
module JsonErrors {
  import opened Optional
  import opened JsonValue
  import opened JsonStrings
  import opened JsonLexer
  import opened JsonParser
  import opened JsonGrammar

  /** Reading fails with one error, for the range of a token. */
  ghost predicate FailsAt(env: Env, r: Result, message: Message, t: Token) {
    && r.Ret? && !r.ok
    && r.errors == [Error(message, env.length - |t.start|, env.length - |t.rest|)]
  }

  /** A value is expected and the token starts none. */
  lemma ValueIsMissing(env: Env, s: string, cur: Value, depth: int)
    requires depth < STACK_LIMIT
    requires SkipComments(s).kind !in
      {ObjectBegin, ArrayBegin, StringToken, NumberToken, TrueToken, FalseToken, NullToken}
    ensures FailsAt(env, ReadValue(env, s, cur, depth), ValueExpected, SkipComments(s))
  {
    hide SkipComments, ReadObject, ReadArray;
  }

  /** Neither decoder takes the number. */
  lemma NumberIsBad(env: Env, s: string, cur: Value, depth: int)
    requires depth < STACK_LIMIT && SkipComments(s).kind == NumberToken
    requires DecodeNumber(env, SkipComments(s).Text()) == None
    ensures FailsAt(env, ReadValue(env, s, cur, depth), NotANumber, SkipComments(s))
  {
    hide SkipComments, ReadObject, ReadArray, DecodeNumber;
  }

  /** An escape in the string is malformed. */
  lemma StringIsBad(env: Env, s: string, cur: Value, depth: int)
    requires depth < STACK_LIMIT && SkipComments(s).kind == StringToken
    requires Unescape(Content(SkipComments(s).Text())).Malformed?
    ensures var t := SkipComments(s);
      FailsAt(env, ReadValue(env, s, cur, depth), Unescape(Content(t.Text())).message, t)
  {
    hide SkipComments, ReadObject, ReadArray, Unescape, Content;
  }

  /** Reading an object or an array fails as its loop does. */
  lemma ContainerFails(env: Env, s: string, cur: Value, depth: int, message: Message, t: Token)
    requires depth < STACK_LIMIT
    ensures var first := SkipComments(s);
      var v := Value(Object([]), env.Offset(first.start), cur.limit);
      first.kind == ObjectBegin && FailsAt(env, ReadMembers(env, first.rest, v, "", depth + 1), message, t) ==>
        FailsAt(env, ReadValue(env, s, cur, depth), message, t)
    ensures var first := SkipComments(s);
      var v := Value(Array([]), env.Offset(first.start), cur.limit);
      var p := SkipSpaces(first.rest);
      first.kind == ArrayBegin && Peek(p) != ']' && FailsAt(env, ReadElements(env, p, v, 0, depth + 1), message, t) ==>
        FailsAt(env, ReadValue(env, s, cur, depth), message, t)
  {
    hide SkipComments, ReadMembers, ReadElements, SkipSpaces;
  }

  /** Behind the first element of an array comes neither a comma nor the bracket. */
  lemma BracketIsMissing(env: Env, s: string, tree: Tree, m: string, cur: Value, depth: int)
    requires Reads(s, ["["] + Yield(tree), m) && Meaning(env.toDouble, tree).Some?
    requires depth + 1 + Depth(tree) <= STACK_LIMIT && SkipComments(m).kind !in {ArrayEnd, ArraySeparator}
    ensures FailsAt(env, ReadValue(env, s, cur, depth), MissingCommaOrBracket, SkipComments(m))
  {
    hide Reads, TokenAt, ReadToken, SkipComments, SkipSpaces, Yield, Meaning, Depth, ReadValue, Put, Recover;
    PunctuationTokens();
    var items := [tree];
    FirstToken(s, "[", Yield(tree), m);
    var t := ReadToken(s);
    var p := SkipSpaces(t.rest);
    DepthIsPositive(tree);
    YieldStarts(tree, env.toDouble);
    assert Yield(tree) == [Yield(tree)[0]] + Yield(tree)[1..];
    FirstToken(t.rest, Yield(tree)[0], Yield(tree)[1..], m);
    NotClosing(t.rest);
    ReadsSkipSpaces(t.rest, Yield(tree), m);
    TreeReads(env, tree, p, m, NULL_VALUE, depth + 1);
    NothingFound(Index(0));
    ContainerFails(env, s, cur, depth, MissingCommaOrBracket, SkipComments(m));
  }

  lemma DepthIsPositive(tree: Tree)
    ensures Depth(tree) >= 1
  {
  }

  lemma NothingFound(key: Key)
    ensures At([], key) == NULL_VALUE
  {
  }

  /** Behind the opening brace comes neither a name nor the closing brace. */
  lemma NameIsMissing(env: Env, s: string, m: string, cur: Value, depth: int)
    requires Reads(s, ["{"], m) && depth < STACK_LIMIT && SkipComments(m).kind !in {ObjectEnd, StringToken}
    ensures FailsAt(env, ReadValue(env, s, cur, depth), MissingBraceOrName, SkipComments(m))
  {
    hide Reads, TokenAt, ReadToken, SkipComments, ReadValue, Recover;
    PunctuationTokens();
    OneToken(s, "{", m);
    ContainerFails(env, s, cur, depth, MissingBraceOrName, SkipComments(m));
  }

  /** Behind a name comes no colon. */
  lemma ColonIsMissing(env: Env, s: string, x: string, m: string, cur: Value, depth: int)
    requires Reads(s, ["{"] + [x], m) && NameOf(x).Some? && depth < STACK_LIMIT
    requires ReadToken(m).kind != MemberSeparator
    ensures FailsAt(env, ReadValue(env, s, cur, depth), MissingColon, ReadToken(m))
  {
    hide Reads, TokenAt, ReadToken, SkipComments, ReadValue, Recover, Unescape, Content, NameOf;
    PunctuationTokens();
    FirstToken(s, "{", [x], m);
    var t := ReadToken(s);
    assert [x] == [x] + [];
    NameToken(t.rest, x, [], m);
    OneToken(t.rest, x, m);
    ContainerFails(env, s, cur, depth, MissingColon, ReadToken(m));
  }

  /** Behind a member comes neither a comma nor the brace nor a comment. */
  lemma BraceIsMissing(env: Env, s: string, x: string, tree: Tree, m: string, cur: Value, depth: int)
    requires Reads(s, ["{"] + ([x] + ([":"] + Yield(tree))), m) && NameOf(x).Some? && Meaning(env.toDouble, tree).Some?
    requires depth + 1 + Depth(tree) <= STACK_LIMIT
    requires ReadToken(m).kind !in {ObjectEnd, ArraySeparator, Comment}
    ensures FailsAt(env, ReadValue(env, s, cur, depth), MissingCommaOrBrace, ReadToken(m))
  {
    hide Reads, TokenAt, ReadToken, SkipComments, ReadArray, Recover, Unescape, Content, NameOf, Yield, Meaning,
      Depth, Put, ReadValue;
    PunctuationTokens();
    DepthIsPositive(tree);
    FirstToken(s, "{", [x] + ([":"] + Yield(tree)), m);
    var t := ReadToken(s);
    NameToken(t.rest, x, [":"] + Yield(tree), m);
    FirstToken(t.rest, x, [":"] + Yield(tree), m);
    var s1 := ReadToken(t.rest).rest;
    FirstToken(s1, ":", Yield(tree), m);
    NothingFound(Name(NameOf(x).value));
    TreeReads(env, tree, ReadToken(s1).rest, m, NULL_VALUE, depth + 1);
    ContainerFails(env, s, cur, depth, MissingCommaOrBrace, ReadToken(m));
  }
}
