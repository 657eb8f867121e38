/** The text of the compact writer and of the styled writer, as functions of the value. */
module JsonWriters {
  import opened Optional
  import opened JsonValue
  import opened JsonNumbers
  import opened JsonStrings
  import opened JsonLexer
  import opened JsonParser
  import opened JsonLexemes

  /** Flags of the compact writer, and the library's double printer. */
  datatype Options = Options(yaml: bool, dropNulls: bool, omitLineFeed: bool, realText: real -> string)

  // ---- FastWriter ----

  function ScalarText(o: Options, v: Value): string {
    match v.payload
    case Int(i) => SignedDecimal(i)
    case UInt(u) => SignedDecimal(u)
    case Real(r) => o.realText(r)
    case Bool(b) => if b then "true" else "false"
    case Str(x) => Quote(x)
    case NullStr => ""
    case _ => "null"
  }

  function NullText(o: Options): string { if o.dropNulls then "" else "null" }

  function FastText(o: Options, v: Value): string
    decreases v
  {
    match v.payload
    case Array(es) => "[" + (if es == [] then "]" else FastElements(o, es, 0))
    case Object(es) => "{" + (if es == [] then "}" else FastMembers(o, es))
    case Null => NullText(o)
    case _ => ScalarText(o, v)
  }

  /** The elements from index `next` on, with the closing bracket. */
  function FastElements(o: Options, es: seq<Entry>, next: nat): string
    requires es != []
    decreases es, Gap(es, next)
  {
    if IsHole(es, next) then NullText(o) + "," + FastElements(o, es, next + 1)
    else
      assert es[0].value < es[0];
      FastText(o, es[0].value) + (if |es| == 1 then "]" else "," + FastElements(o, es[1..], next + 1))
  }

  function FastMembers(o: Options, es: seq<Entry>): string
    requires es != []
    decreases es
  {
    assert es[0].value < es[0];
    Quote(KeyName(es[0].key)) + (if o.yaml then ": " else ":") + FastText(o, es[0].value) +
    (if |es| == 1 then "}" else "," + FastMembers(o, es[1..]))
  }

  function FastWrite(o: Options, v: Value): string {
    FastText(o, v) + if o.omitLineFeed then "" else "\n"
  }

  lemma JoinReads(x: string, a: seq<string>, m: string, b: seq<string>, r: string)
    requires Reads(x + m, a, m) && Reads(m, b, r)
    ensures Reads(x + m, a + b, r)
  {
    ReadsAppend(x + m, a, m, b, r);
  }

  lemma PunctuationThen(c: char, m: string, b: seq<string>, r: string)
    requires c in "{}[],:" && Reads(m, b, r)
    ensures Reads([c] + m, [[c]] + b, r)
  {
    PunctuationReads(c, m);
    JoinReads([c], [[c]], m, b, r);
  }

  lemma ScalarTextReads(o: Options, v: Value, r: string)
    requires Plain(v) && !v.payload.Array? && !v.payload.Object? && EndsNumber(r)
    ensures Reads(ScalarText(o, v) + r, Lexemes(v), r)
  {
    hide Reads, Quote, SignedDecimal;
    match v.payload
    case Int(i) => IntegerReads(i, r);
    case UInt(u) => IntegerReads(u, r);
    case Str(x) => QuoteReads(x, r);
    case Bool(b) => WordReads(if b then "true" else "false", r);
    case _ => WordReads("null", r);
  }

  /** The compact text of v is read as the token texts of v. */
  lemma {:induction false} FastReads(o: Options, v: Value, r: string)
    requires Loose(v) && Plain(v) && !o.dropNulls && EndsNumber(r)
    ensures Reads(FastText(o, v) + r, Lexemes(v), r)
    decreases v
  {
    hide Reads, Quote, SignedDecimal, FastElements, FastMembers, ElementLexemes, MemberLexemes;
    match v.payload
    case Array(es) =>
      if es == [] {
        PunctuationReads(']', r);
        PunctuationThen('[', "]" + r, ["]"], r);
        assert "[" + ("]" + r) == FastText(o, v) + r;
      } else {
        FastElementsRead(o, es, 0, r);
        PunctuationThen('[', FastElements(o, es, 0) + r, ElementLexemes(es, 0), r);
        assert "[" + (FastElements(o, es, 0) + r) == FastText(o, v) + r;
      }
    case Object(es) =>
      if es == [] {
        PunctuationReads('}', r);
        PunctuationThen('{', "}" + r, ["}"], r);
        assert "{" + ("}" + r) == FastText(o, v) + r;
      } else {
        FastMembersRead(o, es, r);
        PunctuationThen('{', FastMembers(o, es) + r, MemberLexemes(es), r);
        assert "{" + (FastMembers(o, es) + r) == FastText(o, v) + r;
      }
    case _ => ScalarTextReads(o, v, r);
  }

  lemma {:induction false} FastElementsRead(o: Options, es: seq<Entry>, next: nat, r: string)
    requires es != [] && ElementsFrom(es, next) && !o.dropNulls && EndsNumber(r)
    ensures Reads(FastElements(o, es, next) + r, ElementLexemes(es, next), r)
    decreases es, Gap(es, next)
  {
    hide Reads, FastText, Lexemes, Loose, Plain;
    if IsHole(es, next) {
      FastElementsRead(o, es, next + 1, r);
      var m := FastElements(o, es, next + 1) + r;
      PunctuationThen(',', m, ElementLexemes(es, next + 1), r);
      WordReads("null", "," + m);
      JoinReads("null", ["null"], "," + m, [","] + ElementLexemes(es, next + 1), r);
      assert "null" + ("," + m) == FastElements(o, es, next) + r;
      assert ["null"] + ([","] + ElementLexemes(es, next + 1)) == ElementLexemes(es, next);
    } else {
      assert es[0].value < es[0] && es[0] in es;
      var m := "]" + r;
      var tail := ["]"];
      if |es| == 1 {
        PunctuationReads(']', r);
      } else {
        FastElementsRead(o, es[1..], next + 1, r);
        m := "," + (FastElements(o, es[1..], next + 1) + r);
        tail := [","] + ElementLexemes(es[1..], next + 1);
        PunctuationThen(',', FastElements(o, es[1..], next + 1) + r, ElementLexemes(es[1..], next + 1), r);
      }
      FastReads(o, es[0].value, m);
      JoinReads(FastText(o, es[0].value), Lexemes(es[0].value), m, tail, r);
      assert FastText(o, es[0].value) + m == FastElements(o, es, next) + r;
    }
  }

  lemma LexemesNonEmpty(v: Value)
    ensures Lexemes(v) != []
  {
  }

  lemma {:induction false} FastMembersRead(o: Options, es: seq<Entry>, r: string)
    requires es != [] && MembersOk(es) && !o.dropNulls && EndsNumber(r)
    ensures Reads(FastMembers(o, es) + r, MemberLexemes(es), r)
    decreases es
  {
    hide Reads, FastText, FastMembers, Lexemes, Loose, Plain, Quote, KeyName, ReadToken, TokenAt;
    assert es[0].value < es[0] && es[0] in es;
    var m := "}" + r;
    var tail := ["}"];
    if |es| == 1 {
      PunctuationReads('}', r);
    } else {
      FastMembersRead(o, es[1..], r);
      m := "," + (FastMembers(o, es[1..]) + r);
      tail := [","] + MemberLexemes(es[1..]);
      PunctuationThen(',', FastMembers(o, es[1..]) + r, MemberLexemes(es[1..]), r);
    }
    var first := FastText(o, es[0].value);
    var key := KeyName(es[0].key);
    FastReads(o, es[0].value, m);
    JoinReads(first, Lexemes(es[0].value), m, tail, r);
    LexemesNonEmpty(es[0].value);
    var w := if o.yaml then " " else "";
    KeyThen(key, w, first + m, Lexemes(es[0].value) + tail, r);
    MembersText(o, es, r, m);
    assert [Quote(key)] + ([":"] + (Lexemes(es[0].value) + tail)) == MemberLexemes(es);
  }

  lemma MembersText(o: Options, es: seq<Entry>, r: string, m: string)
    requires es != [] && m == if |es| == 1 then "}" + r else "," + (FastMembers(o, es[1..]) + r)
    ensures Quote(KeyName(es[0].key)) + (":" + ((if o.yaml then " " else "") + (FastText(o, es[0].value) + m)))
         == FastMembers(o, es) + r
  {
    hide Quote, KeyName, FastText, FastMembers;
    var w := if o.yaml then " " else "";
    assert ":" + w == if o.yaml then ": " else ":";
    var rest := MembersCons(o, es);
    assert m == rest + r;
    RegroupMember(Quote(KeyName(es[0].key)), w, FastText(o, es[0].value), rest, r);
  }

  lemma MembersCons(o: Options, es: seq<Entry>) returns (rest: string)
    requires es != []
    ensures rest == if |es| == 1 then "}" else "," + FastMembers(o, es[1..])
    ensures FastMembers(o, es)
      == Quote(KeyName(es[0].key)) + (if o.yaml then ": " else ":") + FastText(o, es[0].value) + rest
  {
    hide Quote, KeyName, FastText;
    rest := if |es| == 1 then "}" else "," + FastMembers(o, es[1..]);
  }

  lemma RegroupMember(q: string, w: string, x: string, rest: string, r: string)
    ensures q + (":" + (w + (x + (rest + r)))) == q + (":" + w) + x + rest + r
  {
  }

  /** A quoted key and a colon in front of a text, with spaces after the colon. */
  lemma KeyThen(key: string, w: string, x: string, b: seq<string>, r: string)
    requires AllSpace(w) && b != [] && Reads(x, b, r)
    ensures Reads(Quote(key) + (":" + (w + x)), [Quote(key)] + ([":"] + b), r)
  {
    hide Quote;
    ReadsAfterSpaces(w, x, b, r);
    PunctuationThen(':', w + x, b, r);
    QuoteReads(key, ":" + (w + x));
    JoinReads(Quote(key), [Quote(key)], ":" + (w + x), [":"] + b, r);
  }

  /** Reading what the compact writer wrote gives the value back in normal form when its nesting
      is within the reader's limit, and the stack-limit exception exactly otherwise. */
  lemma FastRoundTrip(o: Options, toDouble: string -> Option<real>, v: Value, root: Value)
    requires Valid(v) && Plain(v) && !o.dropNulls
    ensures var r := Parse(toDouble, FastWrite(o, v), root);
      if Height(v) <= STACK_LIMIT then r.Ret? && r.ok && r.errors == [] && Strip(r.value) == Normal(v)
      else r.Throw?
  {
    var r := if o.omitLineFeed then "" else "\n";
    ValidIsLoose(v);
    FastReads(o, v, r);
    ReadLexemes(Env(|FastWrite(o, v)|, toDouble), v, FastWrite(o, v), r, root, 0);
  }
}
