/** The token texts a value is written with, and what the reader makes of any text that is read
    as those tokens, whatever the layout between them. */
module JsonLexemes {
  import opened Optional
  import opened JsonValue
  import opened JsonNumbers
  import opened JsonStrings
  import opened JsonLexer
  import opened JsonParser
  import opened JsonGrammar

  // ---- Token texts ----

  function Lexemes(v: Value): seq<string> {
    match v.payload
    case Int(i) => [SignedDecimal(i)]
    case UInt(u) => [SignedDecimal(u)]
    case Bool(b) => [if b then "true" else "false"]
    case Str(x) => [Quote(x)]
    case Array(es) => ["["] + (if es == [] then ["]"] else ElementLexemes(es, 0))
    case Object(es) => ["{"] + (if es == [] then ["}"] else MemberLexemes(es))
    case _ => ["null"]
  }

  predicate IsHole(es: seq<Entry>, next: nat) {
    es != [] && es[0].key.Index? && next < es[0].key.index
  }

  /** How far the first entry is from index `next`. */
  function Gap(es: seq<Entry>, next: nat): nat {
    if IsHole(es, next) then es[0].key.index - next else 0
  }

  /** The elements from index `next` on, with the closing bracket. */
  function ElementLexemes(es: seq<Entry>, next: nat): seq<string>
    requires es != []
    decreases es, Gap(es, next)
  {
    if IsHole(es, next) then ["null", ","] + ElementLexemes(es, next + 1)
    else
      assert es[0].value < es[0];
      Lexemes(es[0].value) + (if |es| == 1 then ["]"] else [","] + ElementLexemes(es[1..], next + 1))
  }

  function KeyName(k: Key): string {
    match k
    case Name(n) => n
    case Index(_) => ""
  }

  /** The members with the closing brace. */
  function MemberLexemes(es: seq<Entry>): seq<string>
    requires es != []
  {
    assert es[0].value < es[0];
    [Quote(KeyName(es[0].key)), ":"] + Lexemes(es[0].value) +
    (if |es| == 1 then ["}"] else [","] + MemberLexemes(es[1..]))
  }

  /** Array entries from index `next` on. */
  ghost predicate ElementsFrom(es: seq<Entry>, next: nat) {
    Sorted(es) && (forall e :: e in es ==> e.key.Index? && next <= e.key.index && Loose(e.value) && Plain(e.value))
  }

  ghost predicate MembersOk(es: seq<Entry>) {
    forall e :: e in es ==> e.key.Name? && Loose(e.value) && Plain(e.value)
  }

  // ---- Reading them back ----

  lemma QuoteToken(x: string)
    ensures TokenAt(Quote(x)).kind == StringToken
    ensures Unescape(Content(Quote(x))) == Decoded(x)
  {
    QuoteBodyScans(x, "");
    assert Quote(x)[1..] == QuoteBody(x) + "\"" + "";
    assert Content(Quote(x)) == QuoteBody(x);
    QuoteRoundTrip(x);
  }

  lemma LastMember(es: seq<Entry>)
    requires |es| == 1
    ensures NormalMembers(es) == [Entry(es[0].key, Normal(es[0].value))]
    ensures HeightEntries(es) == Height(es[0].value)
  {
    assert es[1..] == [];
  }

  lemma FirstMember(es: seq<Entry>) returns (tail: seq<string>)
    requires es != []
    ensures tail == if |es| == 1 then ["}"] else [","] + MemberLexemes(es[1..])
    ensures MemberLexemes(es) == [Quote(KeyName(es[0].key))] + ([":"] + (Lexemes(es[0].value) + tail))
    ensures NormalMembers(es)
      == [Entry(es[0].key, Normal(es[0].value))] + if |es| == 1 then [] else NormalMembers(es[1..])
  {
    hide Lexemes, Normal, Quote, KeyName;
    tail := if |es| == 1 then ["}"] else [","] + MemberLexemes(es[1..]);
    if |es| == 1 {
      LastMember(es);
    }
  }

  /** The tree that is written for a value: holes are nulls. */
  function TreeOf(v: Value): Tree {
    match v.payload
    case Array(es) => List(TreesOf(es, 0))
    case Object(es) => Map(MembersOf(es), false)
    case _ => Leaf(Lexemes(v)[0])
  }

  function TreesOf(es: seq<Entry>, next: nat): seq<Tree>
    decreases es, Gap(es, next)
  {
    if es == [] then []
    else if IsHole(es, next) then [Leaf("null")] + TreesOf(es, next + 1)
    else
      assert es[0].value < es[0];
      [TreeOf(es[0].value)] + TreesOf(es[1..], next + 1)
  }

  function MembersOf(es: seq<Entry>): seq<Member> {
    if es == [] then []
    else
      assert es[0].value < es[0];
      [Member(Quote(KeyName(es[0].key)), TreeOf(es[0].value))] + MembersOf(es[1..])
  }

  /** The tree has the lexemes of the value, means its normal form and is as deep as it. */
  ghost predicate Stands(toDouble: string -> Option<real>, t: Tree, v: Value) {
    Yield(t) == Lexemes(v) && Meaning(toDouble, t) == Some(Normal(v)) && Depth(t) == Height(v)
  }

  lemma ScalarStands(toDouble: string -> Option<real>, v: Value)
    requires Loose(v) && Plain(v) && !v.payload.Array? && !v.payload.Object?
    ensures Stands(toDouble, TreeOf(v), v)
  {
    hide Unescape, IntegerOf, Decimal, Content, Quote;
    match v.payload
    case Int(i) => IntegerMeans(toDouble, i);
    case UInt(u) => IntegerMeans(toDouble, u);
    case Str(x) =>
      QuoteToken(x);
      QuoteStarts(x);
    case _ =>
  }

  lemma IntegerMeans(toDouble: string -> Option<real>, n: int)
    requires -TWO_63 <= n < TWO_64
    ensures MeaningOfToken(toDouble, SignedDecimal(n)) == Some(NormalInteger(n))
  {
    hide IntegerOf;
    DecimalDenotes(if n < 0 then -n else n);
    DecimalRoundTrip(n);
    assert NumberStart(SignedDecimal(n));
  }

  lemma QuoteStarts(x: string)
    ensures Quote(x) != "" && Quote(x)[0] == '"' && Quote(x) != "null" && Quote(x) != "true" && Quote(x) != "false"
  {
    assert Quote(x)[0] == '"';
  }

  lemma {:induction false} TreeStands(toDouble: string -> Option<real>, v: Value)
    requires Loose(v) && Plain(v)
    ensures Stands(toDouble, TreeOf(v), v)
    decreases v, 0
  {
    hide YieldItems, YieldMembers, MeaningOfItems, MeaningOfMembers, DepthOfItems, DepthOfMembers, TreesOf, MembersOf,
      ElementLexemes, MemberLexemes, NormalElements, NormalMembers, HeightEntries;
    match v.payload
    case Array(es) => ElementsStand(toDouble, es, 0);
    case Object(es) => MembersStand(toDouble, es, "");
    case _ => ScalarStands(toDouble, v);
  }

  lemma {:induction false} ElementsStand(toDouble: string -> Option<real>, es: seq<Entry>, next: nat)
    requires forall e :: e in es ==> Loose(e.value) && Plain(e.value)
    ensures var ts := TreesOf(es, next);
      && YieldItems(ts) == (if es == [] then ["]"] else ElementLexemes(es, next))
      && MeaningOfItems(toDouble, ts, next) == Some(NormalElements(es, next))
      && DepthOfItems(ts) == HeightEntries(es) && (ts == [] <==> es == [])
    decreases es, 1, Gap(es, next)
  {
    hide Lexemes, Normal, Height, Loose, Plain, TreeOf, Yield, Meaning, Depth, YieldItems, MeaningOfItems, DepthOfItems,
      ElementLexemes, NormalElements, HeightEntries, TreesOf;
    if es == [] {
      EmptyList(toDouble);
      NoItems(toDouble, next);
    } else if IsHole(es, next) {
      HoleUnrolled(es, next);
      ElementsStand(toDouble, es, next + 1);
      NullStands(toDouble);
      HeightPositive(es);
      MeaningOfFirst(toDouble, Leaf("null"), TreesOf(es, next + 1), next);
    } else {
      ElementUnrolled(es, next);
      assert es[0].value < es[0] && es[0] in es;
      TreeStands(toDouble, es[0].value);
      ElementsStand(toDouble, es[1..], next + 1);
      MeaningOfFirst(toDouble, TreeOf(es[0].value), TreesOf(es[1..], next + 1), next);
    }
  }

  lemma HoleUnrolled(es: seq<Entry>, next: nat)
    requires IsHole(es, next)
    ensures ElementLexemes(es, next) == ["null"] + ([","] + ElementLexemes(es, next + 1))
    ensures NormalElements(es, next) == [Entry(Index(next), NULL_VALUE)] + NormalElements(es, next + 1)
    ensures TreesOf(es, next) == [Leaf("null")] + TreesOf(es, next + 1)
  {
  }

  lemma ElementUnrolled(es: seq<Entry>, next: nat)
    requires es != [] && !IsHole(es, next)
    ensures ElementLexemes(es, next)
      == Lexemes(es[0].value) + if |es| == 1 then ["]"] else [","] + ElementLexemes(es[1..], next + 1)
    ensures NormalElements(es, next) == [Entry(Index(next), Normal(es[0].value))] + NormalElements(es[1..], next + 1)
    ensures TreesOf(es, next) == [TreeOf(es[0].value)] + TreesOf(es[1..], next + 1)
    ensures HeightEntries(es) == Max(Height(es[0].value), HeightEntries(es[1..]))
  {
    hide Lexemes, Normal, TreeOf, Height;
  }

  lemma NoItems(toDouble: string -> Option<real>, next: nat)
    ensures MeaningOfItems(toDouble, [], next) == Some([])
    ensures NormalElements([], next) == [] && TreesOf([], next) == [] && HeightEntries([]) == 0
  {
  }

  lemma MeaningOfFirst(toDouble: string -> Option<real>, t: Tree, ts: seq<Tree>, next: nat)
    requires Meaning(toDouble, t).Some? && MeaningOfItems(toDouble, ts, next + 1).Some?
    ensures MeaningOfItems(toDouble, [t] + ts, next)
      == Some([Entry(Index(next), Meaning(toDouble, t).value)] + MeaningOfItems(toDouble, ts, next + 1).value)
    ensures DepthOfItems([t] + ts) == Max(Depth(t), DepthOfItems(ts))
    ensures YieldItems([t] + ts) == Yield(t) + if ts == [] then ["]"] else [","] + YieldItems(ts)
  {
    hide Meaning, Depth, Yield;
    assert ([t] + ts)[1..] == ts;
  }

  lemma NullStands(toDouble: string -> Option<real>)
    ensures Yield(Leaf("null")) == ["null"] && Depth(Leaf("null")) == 1
    ensures Meaning(toDouble, Leaf("null")) == Some(NULL_VALUE)
  {
  }

  lemma HeightPositive(es: seq<Entry>)
    requires es != []
    ensures HeightEntries(es) >= 1
  {
  }

  lemma {:induction false} MembersStand(toDouble: string -> Option<real>, es: seq<Entry>, last: string)
    requires MembersOk(es) && (es == [] ==> last == "")
    ensures var ms := MembersOf(es);
      && YieldMembers(ms, false) == (if es == [] then ["}"] else MemberLexemes(es))
      && MeaningOfMembers(toDouble, ms, false, last) == Some(NormalMembers(es))
      && DepthOfMembers(ms) == HeightEntries(es)
    decreases es, 1
  {
    hide Lexemes, Normal, Height, Loose, Plain, TreeOf, Quote, NameOf, Yield, Meaning, Depth, YieldMembers,
      MeaningOfMembers, DepthOfMembers, MemberLexemes, NormalMembers;
    if es == [] {
      ClosedBy(toDouble, false);
      EmptyElements();
    } else {
      assert es[0].value < es[0] && es[0] in es;
      var key := es[0].key.name;
      TreeStands(toDouble, es[0].value);
      QuotedName(key);
      var tail := FirstMember(es);
      if |es| > 1 {
        MembersStand(toDouble, es[1..], key);
      } else {
        ClosedBy(toDouble, false);
        EmptyElements();
      }
      MeaningOfFirstMember(toDouble, key, TreeOf(es[0].value), MembersOf(es[1..]), last);
    }
  }

  lemma EmptyElements()
    ensures NormalMembers([]) == [] && HeightEntries([]) == 0 && MembersOf([]) == []
  {
  }

  lemma MeaningOfFirstMember(toDouble: string -> Option<real>, key: string, t: Tree, ms: seq<Member>, last: string)
    requires Meaning(toDouble, t).Some? && NameOf(Quote(key)) == Some(key)
    requires ms == [] || MeaningOfMembers(toDouble, ms, false, key).Some?
    ensures var all := [Member(Quote(key), t)] + ms;
      && MeaningOfMembers(toDouble, all, false, last) == Some([Entry(Name(key), Meaning(toDouble, t).value)]
           + if ms == [] then [] else MeaningOfMembers(toDouble, ms, false, key).value)
      && DepthOfMembers(all) == Max(Depth(t), DepthOfMembers(ms))
      && YieldMembers(all, false)
           == [Quote(key)] + ([":"] + (Yield(t) + if ms == [] then ["}"] else [","] + YieldMembers(ms, false)))
  {
    hide Meaning, Depth, Yield, NameOf, Quote;
    assert ([Member(Quote(key), t)] + ms)[1..] == ms;
    var e := Entry(Name(key), Meaning(toDouble, t).value);
    assert [e] + [] == [e];
  }

  lemma QuotedName(x: string)
    ensures NameOf(Quote(x)) == Some(x)
  {
    hide Unescape, Content, Quote;
    QuoteToken(x);
    QuoteStarts(x);
  }

  /** Any text read as the tokens of v is read as the normal form of v. */
  lemma ReadLexemes(env: Env, v: Value, s: string, r: string, cur: Value, depth: int)
    requires Loose(v) && Plain(v) && Reads(s, Lexemes(v), r)
    ensures ReadsAs(ReadValue(env, s, cur, depth), Normal(v), Height(v), r, depth)
  {
    hide Reads, ReadValue, Lexemes, Normal, Height, Loose, Plain, TreeOf;
    TreeStands(env.toDouble, v);
    TreeReads(env, TreeOf(v), s, r, cur, depth);
  }
}
