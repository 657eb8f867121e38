/** Which token texts the reader accepts and what they denote: a grammar of trees, and that reading
    accepts exactly its texts. */
module JsonGrammar {
  import opened Optional
  import opened JsonValue
  import opened JsonNumbers
  import opened JsonStrings
  import opened JsonLexer
  import opened JsonTokens
  import opened JsonParser

  // ---- The grammar ----

  /** A value as written: one token, or the items of an array, or the members of an object. An open
      object has a comma behind its last member. */
  datatype Tree = Leaf(text: string) | List(items: seq<Tree>) | Map(members: seq<Member>, open: bool)

  /** A member's name is the token, with its quotes. */
  datatype Member = Member(name: string, tree: Tree)

  /** The tokens of a tree. */
  function Yield(t: Tree): seq<string> {
    match t
    case Leaf(x) => [x]
    case List(items) => ["["] + YieldItems(items)
    case Map(ms, open) => ["{"] + YieldMembers(ms, open)
  }

  function YieldItems(items: seq<Tree>): seq<string> {
    if items == [] then ["]"]
    else Yield(items[0]) + if |items| == 1 then ["]"] else [","] + YieldItems(items[1..])
  }

  function YieldMembers(ms: seq<Member>, open: bool): seq<string> {
    if ms == [] then ["}"]
    else
      assert ms[0].tree < ms[0];
      [ms[0].name] + ([":"] + (Yield(ms[0].tree) +
        if |ms| == 1 && !open then ["}"] else [","] + YieldMembers(ms[1..], open)))
  }

  /** The payload of a single token. */
  function MeaningOfToken(toDouble: string -> Option<real>, x: string): Option<Payload> {
    if x == "null" then Some(Null)
    else if x == "true" then Some(Bool(true))
    else if x == "false" then Some(Bool(false))
    else if NumberStart(x) then
      (match (IntegerOf(x), toDouble(x))
       case (Some(p), _) => Some(p)
       case (None, Some(r)) => Some(Real(r))
       case _ => None)
    else match NameOf(x)
      case Some(y) => Some(Str(y))
      case None => None
  }

  function NameOf(x: string): Option<string> {
    if x == "" || x[0] != '"' then None
    else match Unescape(Content(x))
      case Decoded(y) => Some(y)
      case Malformed(_) => None
  }

  /** The value of a tree, if all its tokens have one. */
  function Meaning(toDouble: string -> Option<real>, t: Tree): Option<Value> {
    match t
    case Leaf(x) =>
      (match MeaningOfToken(toDouble, x)
       case Some(p) => Some(Value(p, 0, 0))
       case None => None)
    case List(items) =>
      (match MeaningOfItems(toDouble, items, 0)
       case Some(es) => Some(Value(Array(es), 0, 0))
       case None => None)
    case Map(ms, open) =>
      match MeaningOfMembers(toDouble, ms, open, "")
      case Some(es) => Some(Value(Object(Merged([], es)), 0, 0))
      case None => None
  }

  function MeaningOfItems(toDouble: string -> Option<real>, items: seq<Tree>, next: nat): Option<seq<Entry>> {
    if items == [] then Some([])
    else match (Meaning(toDouble, items[0]), MeaningOfItems(toDouble, items[1..], next + 1))
      case (Some(v), Some(es)) => Some([Entry(Index(next), v)] + es)
      case _ => None
  }

  /** The members in order. Nothing may follow a comma but another member, unless the last name is
      empty. */
  function MeaningOfMembers(toDouble: string -> Option<real>, ms: seq<Member>, open: bool, last: string)
    : Option<seq<Entry>>
  {
    if ms == [] then if last == "" then Some([]) else None
    else
      assert ms[0].tree < ms[0];
      match (NameOf(ms[0].name), Meaning(toDouble, ms[0].tree))
      case (Some(name), Some(v)) =>
        var e := Entry(Name(name), v);
        if |ms| == 1 && !open then Some([e])
        else (match MeaningOfMembers(toDouble, ms[1..], open, name)
              case Some(es) => Some([e] + es)
              case None => None)
      case _ => None
  }

  /** How many readValue calls are nested while a tree is read. */
  function Depth(t: Tree): nat {
    match t
    case Leaf(_) => 1
    case List(items) => 1 + DepthOfItems(items)
    case Map(ms, _) => 1 + DepthOfMembers(ms)
  }

  function DepthOfItems(items: seq<Tree>): nat {
    if items == [] then 0 else Max(Depth(items[0]), DepthOfItems(items[1..]))
  }

  function DepthOfMembers(ms: seq<Member>): nat {
    if ms == [] then 0 else
    assert ms[0].tree < ms[0];
    Max(Depth(ms[0].tree), DepthOfMembers(ms[1..]))
  }

  // ---- Tokens as the reader meets them ----

  /** What reading a value of the given height yields: the expected value, or the exception as
      soon as the calls nest deeper than the limit. */
  ghost predicate ReadsAs(r: Result, stripped: Value, height: nat, rest: string, depth: int) {
    if depth + height <= STACK_LIMIT then
      r.Ret? && r.ok && r.rest == rest && Strip(r.value) == stripped
    else r.Throw?
  }

  lemma FirstToken(s: string, x: string, more: seq<string>, r: string)
    requires Reads(s, [x] + more, r)
    ensures var t := ReadToken(s);
      && IsRealToken(t) && t.Text() == x && t.kind == TokenAt(x).kind && Reads(t.rest, more, r)
      && SkipComments(s) == t
  {
    assert ([x] + more)[1..] == more;
    KindByText(ReadToken(s).start);
  }

  lemma OneToken(s: string, x: string, r: string)
    requires Reads(s, [x], r)
    ensures var t := ReadToken(s);
      IsRealToken(t) && t.Text() == x && t.kind == TokenAt(x).kind && t.rest == r && SkipComments(s) == t
  {
    assert [x] == [x] + [];
    FirstToken(s, x, [], r);
  }

  lemma NotClosing(s: string)
    ensures Peek(SkipSpaces(s)) == ']' <==> ReadToken(s).kind == ArrayEnd
  {
  }

  lemma PunctuationTokens()
    ensures TokenAt("{").kind == ObjectBegin && TokenAt("}").kind == ObjectEnd
    ensures TokenAt("[").kind == ArrayBegin && TokenAt("]").kind == ArrayEnd
    ensures TokenAt(",").kind == ArraySeparator && TokenAt(":").kind == MemberSeparator
  {
  }

  lemma WordTokens()
    ensures TokenAt("null").kind == NullToken
    ensures TokenAt("true").kind == TrueToken
    ensures TokenAt("false").kind == FalseToken
  {
    assert "null"[1..] == "ull" && "true"[1..] == "rue" && "false"[1..] == "alse";
  }

  lemma ReadTokenSkips(s: string)
    ensures ReadToken(SkipSpaces(s)) == ReadToken(s)
  {
    SkipSpacesTwice(s);
  }

  lemma ReadsSkipSpaces(s: string, lexemes: seq<string>, r: string)
    requires lexemes != [] && Reads(s, lexemes, r)
    ensures Reads(SkipSpaces(s), lexemes, r)
  {
    SkipSpacesTwice(s);
  }

  /** The kind of a real token that starts like a number or a string. */
  lemma KindByStart(x: string)
    requires IsRealToken(TokenAt(x))
    ensures NumberStart(x) ==> TokenAt(x).kind == NumberToken
    ensures x != "" && x[0] == '"' ==> TokenAt(x).kind == StringToken
  {
    hide ScanNumber, ScanString;
  }

  // ---- Every text of the grammar is read as its meaning ----

  lemma LeafReads(env: Env, x: string, s: string, r: string, cur: Value, depth: int)
    requires MeaningOfToken(env.toDouble, x).Some? && Reads(s, [x], r)
    ensures ReadsAs(ReadValue(env, s, cur, depth), Value(MeaningOfToken(env.toDouble, x).value, 0, 0), 1, r, depth)
  {
    hide TokenAt, Unescape, IntegerOf, Reads, ReadToken, SkipComments, ReadArray, ReadObject, Content;
    WordTokens();
    OneToken(s, x, r);
    KindOfToken(s, x, r);
    IntegerPayload(x);
  }

  lemma IntegerPayload(text: string)
    ensures IntegerOf(text).Some? ==> IntegerOf(text).value.Int? || IntegerOf(text).value.UInt?
  {
  }

  lemma KindOfToken(s: string, x: string, r: string)
    requires Reads(s, [x], r)
    ensures NumberStart(x) ==> ReadToken(s).kind == NumberToken
    ensures x != "" && x[0] == '"' ==> ReadToken(s).kind == StringToken
  {
    hide TokenAt, Reads, ReadToken;
    OneToken(s, x, r);
    RealText(s);
    KindByStart(x);
  }

  lemma RealText(s: string)
    requires IsRealToken(ReadToken(s))
    ensures IsRealToken(TokenAt(ReadToken(s).Text()))
  {
    KindByText(ReadToken(s).start);
  }

  lemma {:induction false} TreeReads(env: Env, t: Tree, s: string, r: string, cur: Value, depth: int)
    requires Meaning(env.toDouble, t).Some? && Reads(s, Yield(t), r)
    ensures ReadsAs(ReadValue(env, s, cur, depth), Meaning(env.toDouble, t).value, Depth(t), r, depth)
    decreases t, 1
  {
    hide Reads, ReadValue, MeaningOfToken;
    match t
    case Leaf(x) => LeafReads(env, x, s, r, cur, depth);
    case List(items) => ListReads(env, items, s, r, cur, depth);
    case Map(ms, open) => MapReads(env, ms, open, s, r, cur, depth);
  }

  lemma {:induction false} ListReads(env: Env, items: seq<Tree>, s: string, r: string, cur: Value, depth: int)
    requires MeaningOfItems(env.toDouble, items, 0).Some? && Reads(s, ["["] + YieldItems(items), r)
    ensures ReadsAs(ReadValue(env, s, cur, depth),
                    Value(Array(MeaningOfItems(env.toDouble, items, 0).value), 0, 0), 1 + DepthOfItems(items), r, depth)
    decreases items, 2
  {
    hide Reads, TokenAt, ReadToken, SkipComments, SkipSpaces, ReadElements, ReadObject, Unescape, Meaning, Depth, Yield;
    PunctuationTokens();
    FirstToken(s, "[", YieldItems(items), r);
    var t := ReadToken(s);
    NotClosing(t.rest);
    if items == [] {
      OneToken(t.rest, "]", r);
      ReadTokenSkips(t.rest);
      NothingBefore([]);
      var empty := Value(Array([]), env.Offset(t.start), cur.limit);
      assert ReadArray(env, t, cur, depth + 1) == Ret(true, empty, r, depth + 1, []);
    } else if depth < STACK_LIMIT {
      FirstItemToken(t.rest, items, r, env.toDouble);
      ReadsSkipSpaces(t.rest, YieldItems(items), r);
      var empty := Value(Array([]), env.Offset(t.start), cur.limit);
      ItemsRead(env, items, 0, SkipSpaces(t.rest), r, empty, depth + 1);
      NothingBefore(MeaningOfItems(env.toDouble, items, 0).value);
    }
  }

  lemma NothingBefore(es: seq<Entry>)
    ensures StripEntries([]) + es == es
  {
  }

  lemma YieldStarts(t: Tree, toDouble: string -> Option<real>)
    requires Meaning(toDouble, t).Some?
    ensures Yield(t) != [] && TokenAt(Yield(t)[0]).kind != ArrayEnd
  {
    hide IntegerOf, Unescape, Content, YieldItems, YieldMembers, ScanNumber, ScanString;
    match t
    case Leaf(x) => WordTokens();
    case _ =>
  }

  lemma FirstItemToken(s: string, items: seq<Tree>, r: string, toDouble: string -> Option<real>)
    requires items != [] && MeaningOfItems(toDouble, items, 0).Some? && Reads(s, YieldItems(items), r)
    ensures ReadToken(s).kind != ArrayEnd && YieldItems(items) != []
  {
    hide Yield, Meaning, TokenAt, ReadToken, Reads;
    var body := YieldItems(items);
    YieldStarts(items[0], toDouble);
    assert body[0] == Yield(items[0])[0];
    assert body == [body[0]] + body[1..];
    FirstToken(s, body[0], body[1..], r);
  }

  /** The state of the loop in readArray before index `next`: the elements so far. */
  ghost predicate Filled(v: Value, next: nat) {
    v.payload.Array? && Below(v.payload.entries, Index(next))
  }

  lemma {:induction false} AtMissing(es: seq<Entry>, key: Key)
    requires Below(es, key)
    ensures Find(es, key) == None
  {
    if es != [] {
      KeyLessTrichotomy(es[0].key, key);
      AtMissing(es[1..], key);
    }
  }

  lemma AppendElement(v: Value, next: nat, child: Value)
    requires Filled(v, next)
    ensures var w := PutElement(v, next, child);
      && Filled(w, next + 1)
      && Strip(w) == Value(Array(StripEntries(w.payload.entries)), 0, 0)
      && StripEntries(w.payload.entries) == StripEntries(v.payload.entries) + [Entry(Index(next), Strip(child))]
  {
    var es := v.payload.entries;
    PutLast(es, Index(next), child);
    StripAppend(es, [Entry(Index(next), child)]);
    assert Below(es + [Entry(Index(next), child)], Index(next + 1));
  }

  ghost predicate ArrayReadsAs(r: Result, v: Value, more: seq<Entry>, height: nat, rest: string, depth: int)
    requires v.payload.Array?
  {
    ReadsAs(r, Value(Array(StripEntries(v.payload.entries) + more), 0, 0), height, rest, depth)
  }

  lemma FirstItem(toDouble: string -> Option<real>, items: seq<Tree>, next: nat) returns (tail: seq<string>)
    requires items != [] && MeaningOfItems(toDouble, items, next).Some?
    ensures tail == (if |items| == 1 then ["]"] else [","] + YieldItems(items[1..]))
    ensures YieldItems(items) == Yield(items[0]) + tail
    ensures Meaning(toDouble, items[0]).Some? && MeaningOfItems(toDouble, items[1..], next + 1).Some?
    ensures MeaningOfItems(toDouble, items, next).value
      == [Entry(Index(next), Meaning(toDouble, items[0]).value)] + MeaningOfItems(toDouble, items[1..], next + 1).value
    ensures DepthOfItems(items) == Max(Depth(items[0]), DepthOfItems(items[1..]))
    ensures |items| == 1 ==> MeaningOfItems(toDouble, items[1..], next + 1).value == [] && DepthOfItems(items[1..]) == 0
  {
    hide Yield, Meaning, Depth;
    tail := if |items| == 1 then ["]"] else [","] + YieldItems(items[1..]);
  }

  lemma {:induction false} ItemsRead(env: Env, items: seq<Tree>, next: nat, s: string, r: string, v: Value, depth: int)
    requires items != [] && MeaningOfItems(env.toDouble, items, next).Some? && Filled(v, next)
    requires Reads(s, YieldItems(items), r)
    ensures ArrayReadsAs(ReadElements(env, s, v, next, depth), v, MeaningOfItems(env.toDouble, items, next).value,
                         DepthOfItems(items), r, depth)
    decreases items, 1
  {
    hide Yield, YieldItems, Meaning, MeaningOfItems, Depth, DepthOfItems, Strip, ReadValue, Reads, TokenAt,
      SkipComments, ReadToken;
    PunctuationTokens();
    AtMissing(v.payload.entries, Index(next));
    var tail := FirstItem(env.toDouble, items, next);
    var m := ReadsSplit(s, Yield(items[0]), tail, r);
    TreeReads(env, items[0], s, m, NULL_VALUE, depth);
    var first := ReadValue(env, s, NULL_VALUE, depth);
    if first.Ret? {
      AppendElement(v, next, first.value);
      var w := PutElement(v, next, first.value);
      var e := Entry(Index(next), Meaning(env.toDouble, items[0]).value);
      var more := MeaningOfItems(env.toDouble, items[1..], next + 1).value;
      AppendTwice(StripEntries(v.payload.entries), e, more);
      if |items| == 1 {
        OneToken(m, "]", r);
      } else {
        FirstToken(m, ",", YieldItems(items[1..]), r);
        ItemsRead(env, items[1..], next + 1, ReadToken(m).rest, r, w, depth);
      }
    }
  }

  lemma AppendTwice(a: seq<Entry>, e: Entry, b: seq<Entry>)
    ensures (a + [e]) + b == a + ([e] + b) && (b == [] ==> (a + [e]) + b == a + [e])
  {
  }

  lemma {:induction false} MapReads(env: Env, ms: seq<Member>, open: bool, s: string, r: string, cur: Value, depth: int)
    requires MeaningOfMembers(env.toDouble, ms, open, "").Some? && Reads(s, ["{"] + YieldMembers(ms, open), r)
    ensures ReadsAs(ReadValue(env, s, cur, depth),
                    Value(Object(Merged([], MeaningOfMembers(env.toDouble, ms, open, "").value)), 0, 0),
                    1 + DepthOfMembers(ms), r, depth)
    decreases ms, 2
  {
    hide Reads, TokenAt, ReadToken, SkipComments, SkipSpaces, ReadMembers, ReadArray, Unescape, MeaningOfMembers,
      DepthOfMembers, YieldMembers;
    PunctuationTokens();
    FirstToken(s, "{", YieldMembers(ms, open), r);
    if depth < STACK_LIMIT {
      var t := ReadToken(s);
      MembersRead(env, ms, open, t.rest, r, Value(Object([]), env.Offset(t.start), cur.limit), "", depth + 1);
    }
  }

  /** The members so far with those still to come assigned on top of them. */
  ghost predicate ObjectReadsAs(r: Result, v: Value, more: seq<Entry>, height: nat, rest: string, depth: int)
    requires v.payload.Object?
  {
    ReadsAs(r, Value(Object(Merged(StripEntries(v.payload.entries), more)), 0, 0), height, rest, depth)
  }

  lemma AssignMember(v: Value, name: string, child: Value, rest: seq<Entry>)
    requires v.payload.Object?
    ensures var w := PutMember(v, name, child);
      && Strip(w) == Value(Object(StripEntries(w.payload.entries)), 0, 0)
      && Merged(StripEntries(w.payload.entries), rest)
        == Merged(StripEntries(v.payload.entries), [Entry(Name(name), Strip(child))] + rest)
  {
    hide Put;
    StripPut(v.payload.entries, Name(name), child);
    assert ([Entry(Name(name), Strip(child))] + rest)[1..] == rest;
  }

  lemma FirstMember(toDouble: string -> Option<real>, ms: seq<Member>, open: bool, last: string)
    returns (name: string, v: Value, more: seq<Entry>, tail: seq<string>)
    requires ms != [] && MeaningOfMembers(toDouble, ms, open, last).Some?
    ensures NameOf(ms[0].name) == Some(name) && Meaning(toDouble, ms[0].tree) == Some(v)
    ensures MeaningOfMembers(toDouble, ms, open, last).value == [Entry(Name(name), v)] + more
    ensures if |ms| == 1 && !open then more == [] && tail == ["}"]
      else MeaningOfMembers(toDouble, ms[1..], open, name) == Some(more) && tail == [","] + YieldMembers(ms[1..], open)
    ensures YieldMembers(ms, open) == [ms[0].name] + ([":"] + (Yield(ms[0].tree) + tail))
    ensures DepthOfMembers(ms) == Max(Depth(ms[0].tree), DepthOfMembers(ms[1..]))
    ensures |ms| == 1 ==> DepthOfMembers(ms[1..]) == 0
  {
    hide Yield, Meaning, Depth, NameOf;
    name, v := NameOf(ms[0].name).value, Meaning(toDouble, ms[0].tree).value;
    more := if |ms| == 1 && !open then [] else MeaningOfMembers(toDouble, ms[1..], open, name).value;
    tail := if |ms| == 1 && !open then ["}"] else [","] + YieldMembers(ms[1..], open);
  }

  lemma NoMembers(env: Env, s: string, v: Value, depth: int, r: string)
    requires v.payload.Object? && Reads(s, ["}"], r)
    ensures ReadMembers(env, s, v, "", depth) == Ret(true, v, r, depth, [])
    ensures Strip(v) == Value(Object(StripEntries(v.payload.entries)), 0, 0)
  {
    hide Reads, TokenAt, ReadToken, SkipComments, Unescape;
    PunctuationTokens();
    OneToken(s, "}", r);
  }

  lemma NameToken(s: string, x: string, more: seq<string>, r: string)
    requires NameOf(x).Some? && Reads(s, [x] + more, r)
    ensures SkipComments(s).kind == StringToken && Unescape(Content(SkipComments(s).Text())) == Decoded(NameOf(x).value)
  {
    hide TokenAt, Reads, ReadToken, SkipComments, Unescape;
    FirstToken(s, x, more, r);
    RealText(s);
    KindByStart(x);
  }

  lemma {:induction false} MembersRead(env: Env, ms: seq<Member>, open: bool, s: string, r: string,
                                       v: Value, last: string, depth: int)
    requires MeaningOfMembers(env.toDouble, ms, open, last).Some? && v.payload.Object? && depth <= STACK_LIMIT
    requires Reads(s, YieldMembers(ms, open), r)
    ensures ObjectReadsAs(ReadMembers(env, s, v, last, depth), v,
                          MeaningOfMembers(env.toDouble, ms, open, last).value, DepthOfMembers(ms), r, depth)
    decreases ms, 1
  {
    hide Yield, Meaning, Depth, Strip, ReadValue, Reads, TokenAt, SkipComments, ReadToken, Unescape, NameOf, Put,
      Content;
    if ms == [] {
      NoMembers(env, s, v, depth, r);
    } else {
      assert ms[0].tree < ms[0];
      MemberReads(env, ms, open, s, r, v, last, depth);
    }
  }

  lemma {:induction false} MemberReads(env: Env, ms: seq<Member>, open: bool, s: string, r: string,
                                       v: Value, last: string, depth: int)
    requires ms != [] && MeaningOfMembers(env.toDouble, ms, open, last).Some?
    requires v.payload.Object? && depth <= STACK_LIMIT && Reads(s, YieldMembers(ms, open), r)
    ensures ObjectReadsAs(ReadMembers(env, s, v, last, depth), v,
                          MeaningOfMembers(env.toDouble, ms, open, last).value, DepthOfMembers(ms), r, depth)
    decreases ms, 0
  {
    hide Yield, YieldMembers, Meaning, MeaningOfMembers, Depth, DepthOfMembers, Strip, ReadValue, Reads, TokenAt,
      SkipComments, ReadToken, Unescape, NameOf, Content;
    PunctuationTokens();
    assert ms[0].tree < ms[0];
    var name, w, more, tail := FirstMember(env.toDouble, ms, open, last);
    var first := Yield(ms[0].tree);
    NameToken(s, ms[0].name, [":"] + (first + tail), r);
    FirstToken(s, ms[0].name, [":"] + (first + tail), r);
    var s1 := ReadToken(s).rest;
    FirstToken(s1, ":", first + tail, r);
    var s2 := ReadToken(s1).rest;
    var m := ReadsSplit(s2, first, tail, r);
    var cur := At(v.payload.entries, Name(name));
    TreeReads(env, ms[0].tree, s2, m, cur, depth);
    var result := ReadValue(env, s2, cur, depth);
    if result.Ret? {
      AssignMember(v, name, result.value, more);
      if |ms| == 1 && !open {
        OneToken(m, "}", r);
      } else {
        FirstToken(m, ",", YieldMembers(ms[1..], open), r);
        MembersRead(env, ms[1..], open, ReadToken(m).rest, r, PutMember(v, name, result.value), name, depth);
      }
    }
  }

  // ---- Every accepted text without comments is a text of the grammar ----

  /** No token up to the end of the stream is a comment. */
  predicate CommentFree(s: string)
    decreases |s|
  {
    var t := ReadToken(s);
    t.kind == EndOfStream || (t.kind != Comment && CommentFree(t.rest))
  }

  lemma NextIsFree(s: string)
    requires CommentFree(s)
    ensures SkipComments(s) == ReadToken(s)
    ensures ReadToken(s).kind != EndOfStream ==> CommentFree(ReadToken(s).rest)
  {
  }

  lemma TokenReads(s: string)
    requires IsRealToken(ReadToken(s))
    ensures Reads(s, [ReadToken(s).Text()], ReadToken(s).rest)
  {
    var t := ReadToken(s);
    assert [t.Text()][1..] == [] && Reads(t.rest, [], t.rest);
  }

  /** The text of a punctuation token is its character. */
  lemma PunctuationText(s: string)
    ensures var t := ReadToken(s);
      && (t.kind == ObjectBegin ==> t.Text() == "{") && (t.kind == ObjectEnd ==> t.Text() == "}")
      && (t.kind == ArrayBegin ==> t.Text() == "[") && (t.kind == ArrayEnd ==> t.Text() == "]")
      && (t.kind == ArraySeparator ==> t.Text() == ",") && (t.kind == MemberSeparator ==> t.Text() == ":")
  {
    hide ScanNumber, ScanString, ScanComment, ScanWord, SkipSpaces;
    var p := ReadToken(s).start;
    if p != "" {
      assert p == [p[0]] + p[1..] && p[..|p| - |p[1..]|] == [p[0]];
    }
  }

  /** The texts of the other tokens that are values. */
  lemma WordText(s: string)
    ensures var t := ReadToken(s);
      && (t.kind == NullToken ==> t.Text() == "null") && (t.kind == TrueToken ==> t.Text() == "true")
      && (t.kind == FalseToken ==> t.Text() == "false")
      && (t.kind == NumberToken ==> NumberStart(t.Text()))
      && (t.kind == StringToken ==> t.Text() != "" && t.Text()[0] == '"')
  {
    hide ScanNumber, ScanString, ScanComment, ScanWord, SkipSpaces;
    var t := ReadToken(s);
    var p := t.start;
    if t.kind in {NullToken, TrueToken, FalseToken} {
      var pattern := if t.kind == TrueToken then "rue" else if t.kind == FalseToken then "alse" else "ull";
      ScanWordText(p[1..], pattern);
      assert p == [p[0]] + p[1..];
      assert t.Text() == [p[0]] + pattern;
    } else if t.kind in {NumberToken, StringToken} {
      assert t.Text()[0] == p[0];
    }
  }

  lemma LeafFound(env: Env, s: string, cur: Value, depth: int) returns (t: Tree)
    requires CommentFree(s) && ReadToken(s).kind !in {ObjectBegin, ArrayBegin} && depth < STACK_LIMIT
    requires var r := ReadValue(env, s, cur, depth); r.Ret? && r.ok
    ensures Meaning(env.toDouble, t).Some? && Depth(t) == 1
    ensures Reads(s, Yield(t), ReadValue(env, s, cur, depth).rest) && CommentFree(ReadValue(env, s, cur, depth).rest)
  {
    hide TokenAt, Unescape, IntegerOf, Reads, ReadToken, CommentFree, SkipComments, Content;
    NextIsFree(s);
    WordText(s);
    TokenReads(s);
    t := Leaf(ReadToken(s).Text());
  }

  lemma {:induction false} TreeFound(env: Env, s: string, cur: Value, depth: int) returns (t: Tree)
    requires CommentFree(s)
    requires var r := ReadValue(env, s, cur, depth); r.Ret? && r.ok
    ensures Meaning(env.toDouble, t).Some? && depth + Depth(t) <= STACK_LIMIT
    ensures var r := ReadValue(env, s, cur, depth); Reads(s, Yield(t), r.rest) && CommentFree(r.rest)
    decreases |s|, 1
  {
    hide Reads, ReadToken, CommentFree, SkipComments, ReadMembers, ReadElements, YieldItems, YieldMembers,
      MeaningOfItems, MeaningOfMembers, DepthOfItems, DepthOfMembers, SkipSpaces, MeaningOfToken;
    NextIsFree(s);
    var first := ReadToken(s);
    if first.kind == ObjectBegin {
      var empty := Value(Object([]), env.Offset(first.start), cur.limit);
      var ms, open := MembersFound(env, first.rest, empty, "", depth + 1);
      t := Map(ms, open);
      PunctuationText(s);
      TokenReads(s);
      ReadsAppend(s, ["{"], first.rest, YieldMembers(ms, open), ReadValue(env, s, cur, depth).rest);
    } else if first.kind == ArrayBegin {
      t := ListFound(env, s, cur, depth);
    } else {
      t := LeafFound(env, s, cur, depth);
    }
  }

  lemma {:induction false} ListFound(env: Env, s: string, cur: Value, depth: int) returns (t: Tree)
    requires CommentFree(s) && ReadToken(s).kind == ArrayBegin && depth < STACK_LIMIT
    requires var r := ReadValue(env, s, cur, depth); r.Ret? && r.ok
    ensures Meaning(env.toDouble, t).Some? && depth + Depth(t) <= STACK_LIMIT
    ensures var r := ReadValue(env, s, cur, depth); Reads(s, Yield(t), r.rest) && CommentFree(r.rest)
    decreases |s|, 0
  {
    hide Reads, ReadToken, CommentFree, SkipComments, ReadElements, MeaningOfItems, DepthOfItems, SkipSpaces,
      YieldItems, Meaning, Depth;
    NextIsFree(s);
    PunctuationText(s);
    TokenReads(s);
    var first := ReadToken(s);
    var rest := ReadValue(env, s, cur, depth).rest;
    var p := SkipSpaces(first.rest);
    var items := [];
    FreeAfterSpaces(first.rest);
    EmptyList(env.toDouble);
    if Peek(p) == ']' {
      ClosingAt(first.rest);
    } else {
      items := ItemsFound(env, p, Value(Array([]), env.Offset(first.start), cur.limit), 0, depth + 1);
      ReadsWithSpaces(first.rest, YieldItems(items), rest);
    }
    ReadsAppend(s, ["["], first.rest, YieldItems(items), rest);
    t := List(items);
    ListOf(env.toDouble, items);
  }

  lemma EmptyList(toDouble: string -> Option<real>)
    ensures YieldItems([]) == ["]"] && MeaningOfItems(toDouble, [], 0) == Some([]) && DepthOfItems([]) == 0
  {
  }

  lemma ListOf(toDouble: string -> Option<real>, items: seq<Tree>)
    ensures Yield(List(items)) == ["["] + YieldItems(items) && Depth(List(items)) == 1 + DepthOfItems(items)
    ensures MeaningOfItems(toDouble, items, 0).Some? ==> Meaning(toDouble, List(items)).Some?
  {
  }

  lemma FreeAfterSpaces(s: string)
    requires CommentFree(s)
    ensures CommentFree(SkipSpaces(s))
  {
    ReadTokenSkips(s);
  }

  lemma ClosingAt(s: string)
    requires Peek(SkipSpaces(s)) == ']' && CommentFree(s)
    ensures Reads(s, ["]"], ReadToken(SkipSpaces(s)).rest) && CommentFree(ReadToken(SkipSpaces(s)).rest)
  {
    hide Reads, TokenAt;
    NotClosing(s);
    PunctuationText(s);
    TokenReads(s);
    ReadTokenSkips(s);
  }

  lemma ReadsWithSpaces(s: string, lexemes: seq<string>, r: string)
    requires lexemes != [] && Reads(SkipSpaces(s), lexemes, r)
    ensures Reads(s, lexemes, r)
  {
    ReadTokenSkips(s);
  }

  lemma {:induction false} ItemsFound(env: Env, s: string, v: Value, index: nat, depth: int) returns (items: seq<Tree>)
    requires CommentFree(s)
    requires var r := ReadElements(env, s, v, index, depth); r.Ret? && r.ok
    ensures items != [] && YieldItems(items) != [] && MeaningOfItems(env.toDouble, items, index).Some?
    ensures depth + DepthOfItems(items) <= STACK_LIMIT
    ensures var r := ReadElements(env, s, v, index, depth); Reads(s, YieldItems(items), r.rest) && CommentFree(r.rest)
    decreases |s|, 2
  {
    hide Reads, ReadToken, CommentFree, SkipComments, ReadValue, Put, At, Yield, YieldItems, Meaning, MeaningOfItems,
      Depth, DepthOfItems;
    var cur := At(Entries(v), Index(index));
    var r := ReadValue(env, s, cur, depth);
    var first := TreeFound(env, s, cur, depth);
    var m := r.rest;
    NextIsFree(m);
    PunctuationText(m);
    TokenReads(m);
    var t := ReadToken(m);
    var rest := ReadElements(env, s, v, index, depth).rest;
    var more := [];
    var tail := ["]"];
    if t.kind == ArraySeparator {
      more := ItemsFound(env, t.rest, PutElement(v, index, r.value), index + 1, r.depth);
      tail := [","] + YieldItems(more);
      ReadsAppend(m, [","], t.rest, YieldItems(more), rest);
    }
    items := [first] + more;
    ItemsOf(env.toDouble, first, more, index);
    ReadsAppend(s, Yield(first), m, tail, rest);
  }

  lemma ItemsOf(toDouble: string -> Option<real>, first: Tree, more: seq<Tree>, next: nat)
    requires Meaning(toDouble, first).Some?
    ensures var items := [first] + more;
      && YieldItems(items) == Yield(first) + (if more == [] then ["]"] else [","] + YieldItems(more))
      && DepthOfItems(items) == Max(Depth(first), if more == [] then 0 else DepthOfItems(more))
      && (more == [] || MeaningOfItems(toDouble, more, next + 1).Some? ==> MeaningOfItems(toDouble, items, next).Some?)
      && YieldItems(items) != []
  {
    hide Yield, Meaning, Depth;
    assert ([first] + more)[1..] == more;
  }

  lemma MembersOf(toDouble: string -> Option<real>, m: Member, more: seq<Member>, open: bool, last: string)
    requires NameOf(m.name).Some? && Meaning(toDouble, m.tree).Some?
    ensures var ms := [m] + more;
      && YieldMembers(ms, open) == [m.name] + ([":"] + (Yield(m.tree) +
           (if more == [] && !open then ["}"] else [","] + YieldMembers(more, open))))
      && DepthOfMembers(ms) == Max(Depth(m.tree), DepthOfMembers(more))
      && ((more == [] && !open) || MeaningOfMembers(toDouble, more, open, NameOf(m.name).value).Some? ==>
            MeaningOfMembers(toDouble, ms, open, last).Some?)
  {
    hide Yield, Meaning, Depth, NameOf;
    assert ([m] + more)[1..] == more;
  }

  lemma ClosedBy(toDouble: string -> Option<real>, open: bool)
    ensures YieldMembers([], open) == ["}"] && MeaningOfMembers(toDouble, [], open, "") == Some([])
    ensures DepthOfMembers([]) == 0
  {
  }

  lemma {:induction false} MembersFound(env: Env, s: string, v: Value, last: string, depth: int)
    returns (ms: seq<Member>, open: bool)
    requires CommentFree(s) && depth <= STACK_LIMIT
    requires var r := ReadMembers(env, s, v, last, depth); r.Ret? && r.ok
    ensures MeaningOfMembers(env.toDouble, ms, open, last).Some? && depth + DepthOfMembers(ms) <= STACK_LIMIT
    ensures ms == [] ==> last == ""
    ensures var r := ReadMembers(env, s, v, last, depth);
      Reads(s, YieldMembers(ms, open), r.rest) && CommentFree(r.rest)
    decreases |s|, 2
  {
    hide Reads, ReadToken, CommentFree, SkipComments, ReadValue, Put, At, Yield, YieldMembers, Meaning,
      MeaningOfMembers, Depth, DepthOfMembers, Unescape, Content;
    ms, open := [], false;
    NextIsFree(s);
    PunctuationText(s);
    TokenReads(s);
    var t := ReadToken(s);
    if t.kind == ObjectEnd && last == "" {
      ClosedBy(env.toDouble, open);
    } else {
      WordText(s);
      var name := Unescape(Content(t.Text())).text;
      var m;
      m, ms, open := MemberFound(env, s, v, last, name, depth);
      ms := [m] + ms;
    }
  }

  lemma {:induction false} MemberFound(env: Env, s: string, v: Value, last: string, name: string, depth: int)
    returns (m: Member, more: seq<Member>, open: bool)
    requires CommentFree(s) && depth <= STACK_LIMIT
    requires var t := ReadToken(s);
      t.kind == StringToken && t.Text() != "" && t.Text()[0] == '"' && Unescape(Content(t.Text())) == Decoded(name)
    requires var r := ReadMembers(env, s, v, last, depth); r.Ret? && r.ok
    ensures MeaningOfMembers(env.toDouble, [m] + more, open, last).Some?
    ensures depth + DepthOfMembers([m] + more) <= STACK_LIMIT
    ensures var r := ReadMembers(env, s, v, last, depth);
      Reads(s, YieldMembers([m] + more, open), r.rest) && CommentFree(r.rest)
    decreases |s|, 1
  {
    hide Reads, ReadToken, CommentFree, SkipComments, ReadValue, Put, At, Yield, YieldMembers, Meaning,
      MeaningOfMembers, Depth, DepthOfMembers, Unescape, Content;
    var t := ReadToken(s);
    NextIsFree(s);
    TokenReads(s);
    var colon := ReadToken(t.rest);
    NextIsFree(t.rest);
    PunctuationText(t.rest);
    TokenReads(t.rest);
    var cur := At(Entries(v), Name(name));
    var r := ReadValue(env, colon.rest, cur, depth);
    var tree := TreeFound(env, colon.rest, cur, depth);
    var comma := ReadToken(r.rest);
    NextIsFree(r.rest);
    PunctuationText(r.rest);
    TokenReads(r.rest);
    var rest := ReadMembers(env, s, v, last, depth).rest;
    m := Member(t.Text(), tree);
    more, open := [], false;
    var tail := ["}"];
    if comma.kind == ArraySeparator {
      more, open := MembersFound(env, comma.rest, PutMember(v, name, r.value), name, r.depth);
      OpenEnd(env.toDouble, more, open, name);
      open := open || more == [];
      tail := [","] + YieldMembers(more, open);
      ReadsAppend(r.rest, [","], comma.rest, YieldMembers(more, open), rest);
    } else {
      ClosedBy(env.toDouble, open);
    }
    MembersOf(env.toDouble, m, more, open, last);
    ReadsAppend(colon.rest, Yield(tree), r.rest, tail, rest);
    ReadsAppend(t.rest, [":"], colon.rest, Yield(tree) + tail, rest);
    ReadsAppend(s, [m.name], t.rest, [":"] + (Yield(tree) + tail), rest);
  }

  /** Whether an object without further members is open does not show in them. */
  lemma OpenEnd(toDouble: string -> Option<real>, ms: seq<Member>, open: bool, last: string)
    ensures ms == [] ==> YieldMembers(ms, open) == YieldMembers(ms, true)
    ensures ms == [] ==> MeaningOfMembers(toDouble, ms, open, last) == MeaningOfMembers(toDouble, ms, true, last)
  {
  }

  // ---- Main results ----

  /** Whatever text is laid out with the tokens of a tree is accepted with its meaning, when the tree
      is no deeper than the limit, and thrown out otherwise. */
  lemma GrammarIsAccepted(toDouble: string -> Option<real>, doc: string, root: Value, t: Tree, r: string)
    requires Meaning(toDouble, t).Some? && Reads(doc, Yield(t), r)
    ensures var result := Parse(toDouble, doc, root);
      if Depth(t) <= STACK_LIMIT then
        result.Ret? && result.ok && result.errors == [] && Strip(result.value) == Meaning(toDouble, t).value
      else result.Throw?
  {
    hide Reads, Yield, Meaning, Depth, ReadValue;
    TreeReads(Env(|doc|, toDouble), t, doc, r, root, 0);
  }

  /** A document without comments is accepted if and only if it starts with the tokens of a tree that
      has a meaning and is no deeper than the limit. */
  lemma AcceptsTheGrammar(toDouble: string -> Option<real>, doc: string, root: Value)
    requires CommentFree(doc)
    ensures var result := Parse(toDouble, doc, root);
      result.Ret? && result.ok <==>
      exists t: Tree, r: string :: Reads(doc, Yield(t), r) && Meaning(toDouble, t).Some? && Depth(t) <= STACK_LIMIT
  {
    hide Reads, Yield, Meaning, Depth, ReadValue;
    var result := Parse(toDouble, doc, root);
    if result.Ret? && result.ok {
      var t := TreeFound(Env(|doc|, toDouble), doc, root, 0);
    }
    if t: Tree, r: string :| Reads(doc, Yield(t), r) && Meaning(toDouble, t).Some? && Depth(t) <= STACK_LIMIT {
      GrammarIsAccepted(toDouble, doc, root, t, r);
    }
  }

  /** Negative numbers and those up to 2^31-1 are signed, larger ones unsigned. */
  function IntegerPayloadOf(sign: string, n: nat): Payload {
    if sign == "-" then Int(0 - n) else if n <= 0x7FFF_FFFF then Int(n) else UInt(n)
  }

  /** What a number text denotes: the integer if it has neither point nor exponent and fits, and else
      whatever the library's conversion makes of the whole text. */
  lemma NumberIsParsed(toDouble: string -> Option<real>, sign: string, d: string, f: string, e: string,
                       r: string, root: Value)
    requires IsNumber(sign, d, f, e) && !Continues(f, e, r)
    ensures var x := NumberText(sign, d, f, e);
      var result := Parse(toDouble, x + r, root);
      var fits := f == "" && e == "" && NumberValue(d) <= if sign == "-" then TWO_63 else TWO_64 - 1;
      && result.Ret?
      && (fits ==> result.ok && Strip(result.value) == Value(IntegerPayloadOf(sign, NumberValue(d)), 0, 0))
      && (!fits ==> match toDouble(x)
                    case Some(v) => result.ok && Strip(result.value) == Value(Real(v), 0, 0)
                    case None => !result.ok)
  {
    hide TokenAt, Reads, ReadToken, SkipComments, IsFraction, IsExponent, Continues;
    var x := NumberText(sign, d, f, e);
    NumberIsToken(sign, d, f, e, r);
    NumberDenotes(sign, d, f, e);
    OneToken(x + r, x, r);
    KindOfToken(x + r, x, r);
  }

  lemma NumberDenotes(sign: string, d: string, f: string, e: string)
    requires IsNumber(sign, d, f, e)
    ensures var x := NumberText(sign, d, f, e);
      var fits := f == "" && e == "" && NumberValue(d) <= if sign == "-" then TWO_63 else TWO_64 - 1;
      && NumberStart(x)
      && IntegerOf(x) == if fits then Some(IntegerPayloadOf(sign, NumberValue(d))) else None
  {
    var x := NumberText(sign, d, f, e);
    var digits := DigitsOf(x);
    assert x[0] == '-' <==> sign == "-";
    assert digits == d + f + e;
    if f == "" && e == "" {
      assert digits == d;
    } else if f != "" {
      assert digits[|d|] == '.';
    } else {
      assert digits[|d|] == e[0];
    }
  }
}
