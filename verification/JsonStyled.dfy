/** The styled writer's document as a function, and the proof that its layout changes no token. */
module JsonStyled {
  import opened Optional
  import opened JsonValue
  import opened JsonNumbers
  import opened JsonStrings
  import opened JsonLexer
  import opened JsonParser
  import opened JsonLexemes
  import opened JsonWriters

  const RIGHT_MARGIN := 74
  const INDENT := "   "

  // ---- Layout ----

  /** writeIndent: start a new indented line unless the document already ends in a space. */
  function WriteIndent(doc: string, indent: string): string {
    if doc == "" then indent
    else
      var last := doc[|doc| - 1];
      if last == ' ' then doc
      else if last != '\n' then doc + "\n" + indent
      else doc + indent
  }

  function WriteWithIndent(doc: string, indent: string, x: string): string {
    WriteIndent(doc, indent) + x
  }

  /** Array size: highest index + 1. */
  function ArraySize(es: seq<Entry>): nat {
    if es == [] then 0 else match es[|es| - 1].key
      case Index(i) => i + 1
      case Name(_) => 0
  }

  predicate IsContainer(v: Value) { v.payload.Array? || v.payload.Object? }

  /** A value written by one pushValue call: a scalar or an empty container. */
  predicate IsLeaf(v: Value) { !IsContainer(v) || Entries(v) == [] }

  predicate AllLeaves(es: seq<Entry>) { forall e :: e in es ==> IsLeaf(e.value) }

  /** Several lines are needed whatever the widths: too many elements or a non-empty container. */
  predicate SurelyMultiLine(es: seq<Entry>) {
    ArraySize(es) * 3 >= RIGHT_MARGIN || !AllLeaves(es)
  }

  function LeafText(o: Options, v: Value): string {
    if v.payload.Array? then "[]" else if v.payload.Object? then "{}" else ScalarText(o, v)
  }

  /** The texts of the elements from index `next` on, holes written as null. */
  function LeafTexts(o: Options, es: seq<Entry>, next: nat): seq<string>
    decreases es, Gap(es, next)
  {
    if es == [] then []
    else if IsHole(es, next) then ["null"] + LeafTexts(o, es, next + 1)
    else [LeafText(o, es[0].value)] + LeafTexts(o, es[1..], next + 1)
  }

  function TotalLength(xs: seq<string>): nat {
    if xs == [] then 0 else TotalLength(xs[..|xs| - 1]) + |xs[|xs| - 1]|
  }

  predicate IsMultiLine(o: Options, es: seq<Entry>) {
    || SurelyMultiLine(es)
    || 4 + (ArraySize(es) - 1) * 2 + TotalLength(LeafTexts(o, es, 0)) >= RIGHT_MARGIN
  }

  /** One line: the texts from position i on, and the closing bracket. */
  function LineFrom(xs: seq<string>): string {
    if xs == [] then " ]"
    else xs[0] + (if |xs| == 1 then " ]" else ", " + LineFrom(xs[1..]))
  }

  /** writeValue outside the buffering mode: the document afterwards. */
  function StyledDoc(o: Options, v: Value, doc: string, indent: string): string
    decreases v, 1
  {
    match v.payload
    case Array(es) =>
      if es == [] then doc + "[]"
      else if !IsMultiLine(o, es) then doc + "[ " + LineFrom(LeafTexts(o, es, 0))
      else StyledElements(o, es, 0, WriteWithIndent(doc, indent, "["), indent, !SurelyMultiLine(es))
    case Object(es) =>
      if es == [] then doc + "{}"
      else StyledMembers(o, es, WriteWithIndent(doc, indent, "{"), indent)
    case _ => doc + ScalarText(o, v)
  }

  function StyledElement(o: Options, v: Value, doc: string, indent: string, buffered: bool): string
    decreases v, 2
  {
    if buffered then WriteWithIndent(doc, indent + INDENT, LeafText(o, v))
    else StyledDoc(o, v, WriteIndent(doc, indent + INDENT), indent + INDENT)
  }

  function StyledElements(o: Options, es: seq<Entry>, next: nat, doc: string, indent: string, buffered: bool): string
    requires es != []
    decreases es, Gap(es, next)
  {
    if IsHole(es, next) then
      var d := WriteWithIndent(doc, indent + INDENT, "null");
      StyledElements(o, es, next + 1, d + ",", indent, buffered)
    else
      assert es[0].value < es[0];
      var d := StyledElement(o, es[0].value, doc, indent, buffered);
      if |es| == 1 then WriteWithIndent(d, indent, "]")
      else StyledElements(o, es[1..], next + 1, d + ",", indent, buffered)
  }

  function StyledMembers(o: Options, es: seq<Entry>, doc: string, indent: string): string
    requires es != []
    decreases es
  {
    assert es[0].value < es[0];
    var d := StyledDoc(o, es[0].value, StyledKey(es[0].key, doc, indent), indent + INDENT);
    if |es| == 1 then WriteWithIndent(d, indent, "}")
    else StyledMembers(o, es[1..], d + ",", indent)
  }

  /** Keys go through the NUL-terminated printer. */
  function StyledKey(key: Key, doc: string, indent: string): string {
    WriteWithIndent(doc, indent + INDENT, Quote(CString(KeyName(key)))) + " : "
  }

  function StyledWrite(o: Options, v: Value): string {
    StyledDoc(o, v, "", "") + "\n"
  }

  // ---- What the layout writes, token by token ----

  /** The value with every member name cut at its first NUL. */
  function CutKeys(v: Value): Value {
    match v.payload
    case Array(es) => v.(payload := Array(CutEntries(es)))
    case Object(es) => v.(payload := Object(CutEntries(es)))
    case _ => v
  }

  function CutKey(k: Key): Key {
    match k
    case Name(n) => Name(CString(n))
    case Index(_) => k
  }

  function CutEntries(es: seq<Entry>): (r: seq<Entry>)
    ensures |r| == |es|
  {
    if es == [] then [] else
      assert es[0].value < es[0];
      [Entry(CutKey(es[0].key), CutKeys(es[0].value))] + CutEntries(es[1..])
  }

  /** The document grew from d0 to d1 by a text that is read as these tokens, whatever follows
      as long as it cannot extend a number. */
  ghost predicate Writes(d0: string, d1: string, lexemes: seq<string>) {
    d0 <= d1 && forall r :: EndsNumber(r) ==> Reads(d1[|d0|..] + r, lexemes, r)
  }

  /** The text between two documents starts with something that cannot extend a number. */
  ghost predicate Breaks(d0: string, d1: string) {
    d0 < d1 && EndsNumber(d1[|d0|..])
  }

  lemma WritesThen(d0: string, d1: string, d2: string, a: seq<string>, b: seq<string>)
    requires Writes(d0, d1, a) && Writes(d1, d2, b) && Breaks(d1, d2)
    ensures Writes(d0, d2, a + b)
  {
    hide Reads;
    forall r | EndsNumber(r)
      ensures Reads(d2[|d0|..] + r, a + b, r)
    {
      var m := d2[|d1|..] + r;
      assert EndsNumber(m) by { assert m[0] == d2[|d1|..][0]; }
      assert d2[|d0|..] + r == d1[|d0|..] + m;
      ReadsAppend(d1[|d0|..] + m, a, m, b, r);
    }
  }

  /** Whitespace before a text that is read as tokens. */
  lemma SpacesThen(d0: string, w: string, d1: string, a: seq<string>)
    requires AllSpace(w) && a != [] && Writes(d0 + w, d1, a)
    ensures Writes(d0, d1, a)
  {
    hide Reads;
    forall r | EndsNumber(r)
      ensures Reads(d1[|d0|..] + r, a, r)
    {
      assert d1[|d0|..] + r == w + (d1[|d0 + w|..] + r);
      ReadsAfterSpaces(w, d1[|d0 + w|..] + r, a, r);
    }
  }

  lemma IndentIsSpace(doc: string, indent: string) returns (w: string)
    requires AllSpace(indent)
    ensures AllSpace(w) && WriteIndent(doc, indent) == doc + w
    ensures doc != "" && doc[|doc| - 1] != ' ' && doc[|doc| - 1] != '\n' ==> w != ""
  {
    if doc == "" {
      w := indent;
    } else if doc[|doc| - 1] == ' ' {
      w := "";
      assert doc + w == doc;
    } else if doc[|doc| - 1] != '\n' {
      w := "\n" + indent;
    } else {
      w := indent;
    }
  }

  lemma TextWrites(doc: string, x: string, a: seq<string>)
    requires forall r :: EndsNumber(r) ==> Reads(x + r, a, r)
    ensures Writes(doc, doc + x, a)
  {
    assert (doc + x)[|doc|..] == x;
  }

  lemma IndentedWrites(doc: string, indent: string, x: string, a: seq<string>)
    requires AllSpace(indent) && a != []
    requires forall r :: EndsNumber(r) ==> Reads(x + r, a, r)
    ensures Writes(doc, WriteWithIndent(doc, indent, x), a)
  {
    hide Reads;
    var w := IndentIsSpace(doc, indent);
    TextWrites(doc + w, x, a);
    SpacesThen(doc, w, doc + w + x, a);
  }

  lemma PunctuationPrefix(d: string, c: char, end: string, a: seq<string>)
    requires c in "{}[],:" && Writes(d + [c], end, a)
    ensures Writes(d, end, [[c]] + a) && Breaks(d, end)
  {
    hide Reads;
    forall r | EndsNumber(r)
      ensures Reads(end[|d|..] + r, [[c]] + a, r)
    {
      var m := end[|d| + 1..] + r;
      assert end[|d + [c]|..] == end[|d| + 1..];
      PunctuationThen(c, m, a, r);
      assert end[|d|..] + r == [c] + m;
    }
  }

  lemma ClosingWrites(d: string, indent: string, c: char)
    requires AllSpace(indent) && c in "]}"
    ensures Writes(d, WriteWithIndent(d, indent, [c]), [[c]])
    ensures Breaks(d, WriteWithIndent(d, indent, [c]))
  {
    forall r | EndsNumber(r)
      ensures Reads([c] + r, [[c]], r)
    {
      PunctuationReads(c, r);
    }
    IndentedWrites(d, indent, [c], [[c]]);
    var w := IndentIsSpace(d, indent);
  }

  lemma LeafWrites(o: Options, v: Value, r: string)
    requires Plain(v) && IsLeaf(v) && EndsNumber(r)
    ensures Reads(LeafText(o, v) + r, Lexemes(CutKeys(v)), r)
  {
    hide Reads, SignedDecimal, Quote;
    if v.payload.Array? {
      PunctuationReads(']', r);
      PunctuationThen('[', "]" + r, ["]"], r);
      assert "[" + ("]" + r) == LeafText(o, v) + r;
    } else if v.payload.Object? {
      PunctuationReads('}', r);
      PunctuationThen('{', "}" + r, ["}"], r);
      assert "{" + ("}" + r) == LeafText(o, v) + r;
    } else {
      ScalarTextReads(o, v, r);
    }
  }

  lemma NullWrites(r: string)
    requires EndsNumber(r)
    ensures Reads("null" + r, ["null"], r)
  {
    WordReads("null", r);
  }

  ghost predicate AllPlain(es: seq<Entry>) { forall e :: e in es ==> Plain(e.value) }

  /** The rest of a one-line array. */
  lemma {:induction false} LineWrites(o: Options, es: seq<Entry>, next: nat, doc: string)
    requires es != [] && AllPlain(es) && AllLeaves(es)
    ensures LeafTexts(o, es, next) != []
    ensures Writes(doc, doc + LineFrom(LeafTexts(o, es, next)), ElementLexemes(CutEntries(es), next))
    decreases es, Gap(es, next)
  {
    hide Reads, Writes, Plain, IsLeaf, LeafText, Lexemes, CutKeys;
    var xs := LeafTexts(o, es, next);
    var end := doc + LineFrom(xs);
    if IsHole(es, next) {
      var rest := ElementLexemes(CutEntries(es), next + 1);
      forall r | EndsNumber(r) ensures Reads("null" + r, ["null"], r) { NullWrites(r); }
      LineWrites(o, es, next + 1, doc + "null" + ", ");
      assert end == doc + "null" + ", " + LineFrom(xs[1..]);
      LineJoins(doc, "null", ["null"], end, rest);
      assert ["null"] + ([","] + rest) == ElementLexemes(CutEntries(es), next);
    } else {
      assert es[0] in es;
      var first := Lexemes(CutKeys(es[0].value));
      forall r | EndsNumber(r) ensures Reads(xs[0] + r, first, r) { LeafWrites(o, es[0].value, r); }
      if |es| == 1 {
        LineEnds(doc, xs[0], first);
        assert end == doc + xs[0] + " ]";
      } else {
        LineWrites(o, es[1..], next + 1, doc + xs[0] + ", ");
        assert end == doc + xs[0] + ", " + LineFrom(xs[1..]);
        LineJoins(doc, xs[0], first, end, ElementLexemes(CutEntries(es[1..]), next + 1));
      }
    }
  }

  /** An element of a line with a comma and the rest of the line behind it, and the last one. */
  lemma LineJoins(doc: string, x: string, first: seq<string>, end: string, rest: seq<string>)
    requires forall r :: EndsNumber(r) ==> Reads(x + r, first, r)
    requires rest != [] && Writes(doc + x + ", ", end, rest)
    ensures Writes(doc, end, first + ([","] + rest))
  {
    hide Reads, Writes;
    TextWrites(doc, x, first);
    CommaSpace(doc + x, end, rest);
    WritesThen(doc, doc + x, end, first, [","] + rest);
  }

  lemma LineEnds(doc: string, x: string, first: seq<string>)
    requires forall r :: EndsNumber(r) ==> Reads(x + r, first, r)
    ensures Writes(doc, doc + x + " ]", first + ["]"])
  {
    hide Reads, Writes;
    TextWrites(doc, x, first);
    ClosingLine(doc + x);
    WritesThen(doc, doc + x, doc + x + " ]", first, ["]"]);
  }

  lemma ElementLexemesNonEmpty(es: seq<Entry>, next: nat)
    requires es != []
    ensures ElementLexemes(es, next) != []
  {
  }

  lemma CommaSpace(d: string, end: string, a: seq<string>)
    requires a != [] && Writes(d + ", ", end, a)
    ensures Writes(d, end, [","] + a) && Breaks(d, end)
  {
    hide Reads, Writes;
    assert d + "," + " " == d + ", ";
    SpacesThen(d + ",", " ", end, a);
    PunctuationPrefix(d, ',', end, a);
  }

  lemma ClosingLine(d: string)
    ensures Writes(d, d + " ]", ["]"]) && Breaks(d, d + " ]")
  {
    hide Reads;
    forall r | EndsNumber(r) ensures Reads("]" + r, ["]"], r) { PunctuationReads(']', r); }
    TextWrites(d + " ", "]", ["]"]);
    SpacesThen(d, " ", d + " " + "]", ["]"]);
    assert d + " " + "]" == d + " ]";
  }

  /** The document the styled writer produces is read as the token texts of the value. */
  lemma {:induction false} StyledWrites(o: Options, v: Value, doc: string, indent: string)
    requires Plain(v) && AllSpace(indent)
    ensures Writes(doc, StyledDoc(o, v, doc, indent), Lexemes(CutKeys(v)))
    decreases v, 1
  {
    hide Reads, Writes, LeafText, ScalarText, LineFrom, IsMultiLine, SurelyMultiLine, StyledElements, StyledMembers,
      ElementLexemes, MemberLexemes;
    var end := StyledDoc(o, v, doc, indent);
    if IsLeaf(v) {
      forall r | EndsNumber(r) ensures Reads(LeafText(o, v) + r, Lexemes(CutKeys(v)), r) { LeafWrites(o, v, r); }
      TextWrites(doc, LeafText(o, v), Lexemes(CutKeys(v)));
      LeafDoc(o, v, doc, indent);
    } else if v.payload.Array? {
      var es := v.payload.entries;
      var body := ElementLexemes(CutEntries(es), 0);
      ElementLexemesNonEmpty(CutEntries(es), 0);
      if IsMultiLine(o, es) {
        var w := IndentIsSpace(doc, indent);
        Buffering(es);
        StyledElementsWrite(o, es, 0, doc + w + "[", indent, !SurelyMultiLine(es));
        PunctuationPrefix(doc + w, '[', end, body);
        SpacesThen(doc, w, end, ["["] + body);
      } else {
        OneLine(o, es);
        LineWrites(o, es, 0, doc + "[ ");
        assert doc + "[" + " " == doc + "[ ";
        SpacesThen(doc + "[", " ", end, body);
        PunctuationPrefix(doc, '[', end, body);
      }
    } else {
      var es := v.payload.entries;
      var w := IndentIsSpace(doc, indent);
      StyledMembersWrite(o, es, doc + w + "{", indent);
      PunctuationPrefix(doc + w, '{', end, MemberLexemes(CutEntries(es)));
      SpacesThen(doc, w, end, ["{"] + MemberLexemes(CutEntries(es)));
    }
  }

  lemma LeafDoc(o: Options, v: Value, doc: string, indent: string)
    requires IsLeaf(v)
    ensures StyledDoc(o, v, doc, indent) == doc + LeafText(o, v)
  {
  }

  lemma Buffering(es: seq<Entry>)
    ensures !SurelyMultiLine(es) ==> AllLeaves(es)
  {
  }

  lemma OneLine(o: Options, es: seq<Entry>)
    requires !IsMultiLine(o, es)
    ensures AllLeaves(es)
  {
  }

  lemma {:induction false} StyledElementWrites(o: Options, v: Value, doc: string, indent: string, buffered: bool)
    requires Plain(v) && AllSpace(indent) && (buffered ==> IsLeaf(v))
    ensures Writes(doc, StyledElement(o, v, doc, indent, buffered), Lexemes(CutKeys(v)))
    decreases v, 2
  {
    hide Reads, Writes, LeafText, StyledDoc, Lexemes, CutKeys, Plain, IsLeaf;
    LexemesNonEmpty(CutKeys(v));
    if buffered {
      forall r | EndsNumber(r) ensures Reads(LeafText(o, v) + r, Lexemes(CutKeys(v)), r) { LeafWrites(o, v, r); }
      IndentedWrites(doc, indent + INDENT, LeafText(o, v), Lexemes(CutKeys(v)));
    } else {
      var w := IndentIsSpace(doc, indent + INDENT);
      StyledWrites(o, v, doc + w, indent + INDENT);
      SpacesThen(doc, w, StyledDoc(o, v, doc + w, indent + INDENT), Lexemes(CutKeys(v)));
    }
  }

  lemma {:induction false} StyledElementsWrite(o: Options, es: seq<Entry>, next: nat, doc: string, indent: string,
                                               buffered: bool)
    requires es != [] && AllPlain(es) && AllSpace(indent) && (buffered ==> AllLeaves(es))
    ensures Writes(doc, StyledElements(o, es, next, doc, indent, buffered), ElementLexemes(CutEntries(es), next))
    decreases es, Gap(es, next)
  {
    hide Reads, Writes, Plain, IsLeaf, LeafText, Lexemes, CutKeys, StyledElement, WriteWithIndent, Breaks;
    var end := StyledElements(o, es, next, doc, indent, buffered);
    if IsHole(es, next) {
      forall r | EndsNumber(r) ensures Reads("null" + r, ["null"], r) { NullWrites(r); }
      IndentedWrites(doc, indent + INDENT, "null", ["null"]);
      var d := WriteWithIndent(doc, indent + INDENT, "null");
      StyledElementsWrite(o, es, next + 1, d + ",", indent, buffered);
      PunctuationPrefix(d, ',', end, ElementLexemes(CutEntries(es), next + 1));
      WritesThen(doc, d, end, ["null"], [","] + ElementLexemes(CutEntries(es), next + 1));
      assert ["null"] + ([","] + ElementLexemes(CutEntries(es), next + 1)) == ElementLexemes(CutEntries(es), next);
    } else {
      assert es[0].value < es[0] && es[0] in es;
      var d := StyledElement(o, es[0].value, doc, indent, buffered);
      var first := Lexemes(CutKeys(es[0].value));
      StyledElementWrites(o, es[0].value, doc, indent, buffered);
      if |es| == 1 {
        ClosingWrites(d, indent, ']');
        WritesThen(doc, d, end, first, ["]"]);
      } else {
        StyledElementsWrite(o, es[1..], next + 1, d + ",", indent, buffered);
        PunctuationPrefix(d, ',', end, ElementLexemes(CutEntries(es[1..]), next + 1));
        WritesThen(doc, d, end, first, [","] + ElementLexemes(CutEntries(es[1..]), next + 1));
      }
    }
  }

  /** A key line in front of a text that is read as tokens. */
  lemma KeyWrites(key: Key, doc: string, indent: string, end: string, a: seq<string>)
    requires AllSpace(indent) && a != [] && Writes(StyledKey(key, doc, indent), end, a)
    ensures Writes(doc, end, [Quote(KeyName(CutKey(key)))] + ([":"] + a))
  {
    hide Reads, Writes, Quote;
    var w := IndentIsSpace(doc, indent + INDENT);
    var q := Quote(CString(KeyName(key)));
    var d := doc + w + q;
    assert KeyName(CutKey(key)) == CString(KeyName(key));
    assert StyledKey(key, doc, indent) == d + " " + ":" + " ";
    SpacesThen(d + " " + ":", " ", end, a);
    PunctuationPrefix(d + " ", ':', end, a);
    SpacesThen(d, " ", end, [":"] + a);
    forall r | EndsNumber(r) ensures Reads(q + r, [q], r) { QuoteReads(CString(KeyName(key)), r); }
    TextWrites(doc + w, q, [q]);
    SpaceBreaks(d, end);
    WritesThen(doc + w, d, end, [q], [":"] + a);
    SpacesThen(doc, w, end, [q] + ([":"] + a));
  }

  lemma SpaceBreaks(d: string, end: string)
    requires d + " " <= end
    ensures Breaks(d, end)
  {
    assert end[|d|] == (d + " ")[|d|];
  }

  lemma {:induction false} StyledMembersWrite(o: Options, es: seq<Entry>, doc: string, indent: string)
    requires es != [] && AllPlain(es) && AllSpace(indent)
    ensures Writes(doc, StyledMembers(o, es, doc, indent), MemberLexemes(CutEntries(es)))
    decreases es, 0
  {
    hide Reads, Writes, Plain, Lexemes, CutKeys, StyledDoc, StyledKey, WriteWithIndent, Breaks, Quote, CutKey;
    assert es[0].value < es[0] && es[0] in es;
    var start := StyledKey(es[0].key, doc, indent);
    var d := StyledDoc(o, es[0].value, start, indent + INDENT);
    var end := StyledMembers(o, es, doc, indent);
    var first := Lexemes(CutKeys(es[0].value));
    var tail := ["}"];
    StyledWrites(o, es[0].value, start, indent + INDENT);
    LexemesNonEmpty(CutKeys(es[0].value));
    if |es| == 1 {
      ClosingWrites(d, indent, '}');
    } else {
      tail := [","] + MemberLexemes(CutEntries(es[1..]));
      StyledMembersWrite(o, es[1..], d + ",", indent);
      PunctuationPrefix(d, ',', end, MemberLexemes(CutEntries(es[1..])));
    }
    WritesThen(start, d, end, first, tail);
    KeyWrites(es[0].key, doc, indent, end, first + tail);
    assert [Quote(KeyName(CutKey(es[0].key)))] + ([":"] + (first + tail)) == MemberLexemes(CutEntries(es));
  }

  // ---- The main results ----

  /** No member name contains a NUL. */
  ghost predicate NoNulKeys(v: Value) {
    match v.payload
    case Array(es) => forall e :: e in es ==> NoNulKeys(e.value)
    case Object(es) => forall e :: e in es ==> '\0' !in KeyName(e.key) && NoNulKeys(e.value)
    case _ => true
  }

  lemma QuoteInjective(a: string, b: string)
    ensures Quote(a) == Quote(b) <==> a == b
  {
    if Quote(a) == Quote(b) {
      assert QuoteBody(a) == Quote(a)[1..|Quote(a)| - 1];
      assert QuoteBody(b) == Quote(b)[1..|Quote(b)| - 1];
      QuoteRoundTrip(a);
      QuoteRoundTrip(b);
    }
  }

  /** Cutting keys never changes how many tokens there are, and changes some token exactly when
      some key contains a NUL. */
  lemma {:induction false} CutLexemes(v: Value)
    ensures |Lexemes(CutKeys(v))| == |Lexemes(v)|
    ensures Lexemes(CutKeys(v)) == Lexemes(v) <==> NoNulKeys(v)
    decreases v
  {
    hide Quote, SignedDecimal, ElementLexemes, MemberLexemes;
    match v.payload
    case Array(es) =>
      if es != [] {
        CutElementLexemes(es, 0);
        var a, b := ElementLexemes(CutEntries(es), 0), ElementLexemes(es, 0);
        assert (["["] + a)[1..] == a && (["["] + b)[1..] == b;
      }
    case Object(es) =>
      if es != [] {
        CutMemberLexemes(es);
        var a, b := MemberLexemes(CutEntries(es)), MemberLexemes(es);
        assert (["{"] + a)[1..] == a && (["{"] + b)[1..] == b;
      }
    case _ =>
  }

  lemma SplitEqual(a: seq<string>, b: seq<string>, c: seq<string>, d: seq<string>)
    requires |a| == |b|
    ensures a + c == b + d <==> a == b && c == d
  {
    if a + c == b + d {
      assert a == (a + c)[..|a|] && b == (b + d)[..|b|];
      assert c == (a + c)[|a|..] && d == (b + d)[|b|..];
    }
  }

  ghost predicate NoNulBelow(es: seq<Entry>) { forall e :: e in es ==> NoNulKeys(e.value) }

  lemma {:induction false} CutElementLexemes(es: seq<Entry>, next: nat)
    requires es != []
    ensures |ElementLexemes(CutEntries(es), next)| == |ElementLexemes(es, next)|
    ensures ElementLexemes(CutEntries(es), next) == ElementLexemes(es, next) <==> NoNulBelow(es)
    decreases es, Gap(es, next)
  {
    hide Lexemes, CutKeys, NoNulKeys;
    var cut := CutEntries(es);
    if IsHole(es, next) {
      CutElementLexemes(es, next + 1);
      SplitEqual(["null", ","], ["null", ","], ElementLexemes(cut, next + 1), ElementLexemes(es, next + 1));
    } else {
      assert es[0].value < es[0];
      CutLexemes(es[0].value);
      var c, d := ["]"], ["]"];
      if |es| > 1 {
        CutElementLexemes(es[1..], next + 1);
        c, d := [","] + ElementLexemes(CutEntries(es[1..]), next + 1), [","] + ElementLexemes(es[1..], next + 1);
        SplitEqual([","], [","], ElementLexemes(CutEntries(es[1..]), next + 1), ElementLexemes(es[1..], next + 1));
      }
      SplitEqual(Lexemes(CutKeys(es[0].value)), Lexemes(es[0].value), c, d);
      assert NoNulBelow(es) <==> NoNulKeys(es[0].value) && NoNulBelow(es[1..]);
    }
  }

  ghost predicate NoNulMembers(es: seq<Entry>) { forall e :: e in es ==> '\0' !in KeyName(e.key) && NoNulKeys(e.value) }

  lemma CutKeyName(k: Key)
    ensures KeyName(CutKey(k)) == CString(KeyName(k))
  {
  }

  lemma {:induction false} CutMemberLexemes(es: seq<Entry>)
    requires es != []
    ensures |MemberLexemes(CutEntries(es))| == |MemberLexemes(es)|
    ensures MemberLexemes(CutEntries(es)) == MemberLexemes(es) <==> NoNulMembers(es)
    decreases es, 0
  {
    hide Lexemes, CutKeys, NoNulKeys, Quote, CString, KeyName, CutKey;
    assert es[0].value < es[0];
    CutLexemes(es[0].value);
    var key := KeyName(es[0].key);
    CStringIsWhole(key);
    CutKeyName(es[0].key);
    QuoteInjective(CString(key), key);
    var c, d := ["}"], ["}"];
    if |es| > 1 {
      CutMemberLexemes(es[1..]);
      c, d := [","] + MemberLexemes(CutEntries(es[1..])), [","] + MemberLexemes(es[1..]);
      SplitEqual([","], [","], MemberLexemes(CutEntries(es[1..])), MemberLexemes(es[1..]));
    }
    var x, y := Lexemes(CutKeys(es[0].value)), Lexemes(es[0].value);
    SplitEqual(x, y, c, d);
    SplitEqual([Quote(CString(key)), ":"], [Quote(key), ":"], x + c, y + d);
    assert MemberLexemes(es) == [Quote(key), ":"] + (y + d);
    assert MemberLexemes(CutEntries(es)) == [Quote(CString(key)), ":"] + (x + c);
    assert NoNulMembers(es) <==> '\0' !in key && NoNulKeys(es[0].value) && NoNulMembers(es[1..]);
  }

  lemma StyledReads(o: Options, v: Value)
    requires Plain(v)
    ensures Reads(StyledWrite(o, v), Lexemes(CutKeys(v)), "\n")
  {
    hide Reads;
    StyledWrites(o, v, "", "");
    assert StyledDoc(o, v, "", "")[|""|..] + "\n" == StyledWrite(o, v);
  }

  /** The styled and the compact writer produce exactly the same tokens, unless some member name
      contains a NUL, and then they never do. */
  lemma StyledSameTokens(o: Options, v: Value)
    requires Valid(v) && Plain(v) && !o.dropNulls
    ensures Tokens(StyledWrite(o, v)) == Tokens(FastWrite(o, v)) <==> NoNulKeys(v)
  {
    hide Reads, Tokens, TokenAt;
    var a, b := Lexemes(CutKeys(v)), Lexemes(v);
    StyledReads(o, v);
    ReadsTokens(StyledWrite(o, v), a, "\n");
    var r := if o.omitLineFeed then "" else "\n";
    ValidIsLoose(v);
    FastReads(o, v, r);
    ReadsTokens(FastWrite(o, v), b, r);
    CutLexemes(v);
    if a != b {
      var i :| 0 <= i < |a| && a[i] != b[i];
      assert Tokens(StyledWrite(o, v))[i].1 == a[i] && Tokens(FastWrite(o, v))[i].1 == b[i];
    }
  }

  // ---- What comes back ----

  lemma {:induction false} CutEntriesAt(es: seq<Entry>, i: nat)
    requires i < |es|
    ensures CutEntries(es)[i] == Entry(CutKey(es[i].key), CutKeys(es[i].value))
  {
    hide CutKeys, CutKey;
    if i > 0 {
      CutEntriesAt(es[1..], i - 1);
    }
  }

  lemma CutEntryOf(es: seq<Entry>, f: Entry) returns (e: Entry)
    requires f in CutEntries(es)
    ensures e in es && f == Entry(CutKey(e.key), CutKeys(e.value))
  {
    var i :| 0 <= i < |CutEntries(es)| && CutEntries(es)[i] == f;
    CutEntriesAt(es, i);
    e := es[i];
  }

  /** Cutting names keeps a value readable, though not its members in order. */
  lemma {:induction false} CutIsLoose(v: Value)
    requires Valid(v) && Plain(v)
    ensures Loose(CutKeys(v)) && Plain(CutKeys(v)) && NoNulKeys(CutKeys(v))
    decreases v
  {
    if v.payload.Array? || v.payload.Object? {
      var es := v.payload.entries;
      forall f | f in CutEntries(es)
        ensures Loose(f.value) && Plain(f.value) && NoNulKeys(f.value)
        ensures v.payload.Array? ==> f.key.Index?
        ensures v.payload.Object? ==> f.key.Name? && '\0' !in f.key.name
      {
        var e := CutEntryOf(es, f);
        CutIsLoose(e.value);
        CStringHasNoNul(KeyName(e.key));
      }
      if v.payload.Array? {
        forall i, j | 0 <= i < j < |es|
          ensures KeyLess(CutEntries(es)[i].key, CutEntries(es)[j].key)
        {
          CutEntriesAt(es, i);
          CutEntriesAt(es, j);
        }
      }
    }
  }

  lemma {:induction false} CStringHasNoNul(s: string)
    ensures '\0' !in CString(s)
  {
    if s != "" && s[0] != '\0' {
      CStringHasNoNul(s[1..]);
    }
  }

  lemma {:induction false} CutHeight(v: Value)
    ensures Height(CutKeys(v)) == Height(v)
    decreases v, 0
  {
    if v.payload.Array? || v.payload.Object? {
      CutHeights(v.payload.entries);
    }
  }

  lemma {:induction false} CutHeights(es: seq<Entry>)
    ensures HeightEntries(CutEntries(es)) == HeightEntries(es)
    decreases es, 1
  {
    hide Height, CutKeys, CutKey;
    if es != [] {
      assert es[0].value < es[0];
      CutHeight(es[0].value);
      CutHeights(es[1..]);
    }
  }

  lemma {:induction false} NothingToCut(v: Value)
    requires Valid(v) && NoNulKeys(v)
    ensures CutKeys(v) == v
    decreases v
  {
    if v.payload.Array? || v.payload.Object? {
      var es := v.payload.entries;
      forall i | 0 <= i < |es| ensures CutEntries(es)[i] == es[i] {
        assert es[i] in es;
        CutEntriesAt(es, i);
        NothingToCut(es[i].value);
        CStringIsWhole(KeyName(es[i].key));
      }
      assert CutEntries(es) == es;
    }
  }

  /** The normal form has no NUL in a name that the value has not. */
  lemma {:induction false} NormalAddsNoNul(v: Value)
    requires NoNulKeys(v)
    ensures NoNulKeys(Normal(v))
    decreases v, 1
  {
    match v.payload
    case Array(es) => ElementsAddNoNul(es, 0);
    case Object(es) =>
      MembersAddNoNul(es);
      MergedEntries([], NormalMembers(es));
    case _ =>
  }

  lemma {:induction false} ElementsAddNoNul(es: seq<Entry>, next: nat)
    requires NoNulBelow(es)
    ensures NoNulBelow(NormalElements(es, next))
    decreases es, 0, Gap(es, next)
  {
    hide Normal, NoNulKeys;
    if es != [] && IsHole(es, next) {
      ElementsAddNoNul(es, next + 1);
      NullHasNoKeys();
    } else if es != [] {
      assert es[0].value < es[0] && es[0] in es;
      NormalAddsNoNul(es[0].value);
      ElementsAddNoNul(es[1..], next + 1);
    }
  }

  lemma NullHasNoKeys()
    ensures NoNulKeys(NULL_VALUE)
  {
  }

  lemma {:induction false} MembersAddNoNul(es: seq<Entry>)
    requires NoNulMembers(es)
    ensures NoNulMembers(NormalMembers(es))
    decreases es, 0
  {
    hide Normal, NoNulKeys, KeyName;
    if es != [] {
      assert es[0].value < es[0] && es[0] in es;
      NormalAddsNoNul(es[0].value);
      MembersAddNoNul(es[1..]);
    }
  }

  lemma {:induction false} MergedEntries(acc: seq<Entry>, es: seq<Entry>)
    ensures forall e :: e in Merged(acc, es) ==> e in acc || e in es
    decreases es
  {
    if es != [] {
      PutOnly(acc, es[0]);
      MergedEntries(Put(acc, es[0].key, es[0].value), es[1..]);
    }
  }

  lemma {:induction false} PutOnly(es: seq<Entry>, f: Entry)
    ensures forall e :: e in Put(es, f.key, f.value) ==> e in es || e == f
  {
    hide KeyLess;
    if es != [] {
      PutOnly(es[1..], f);
    }
  }

  /** And it has every NUL that the names of a value with ordered members have. */
  lemma {:induction false} NormalShowsNul(v: Value)
    requires Valid(v) && NoNulKeys(Normal(v))
    ensures NoNulKeys(v)
    decreases v, 1
  {
    match v.payload
    case Array(es) => ElementsShowNul(es, 0);
    case Object(es) =>
      MembersShowNul(es);
    case _ =>
  }

  lemma {:induction false} ElementsShowNul(es: seq<Entry>, next: nat)
    requires (forall e :: e in es ==> Valid(e.value)) && NoNulBelow(NormalElements(es, next))
    ensures NoNulBelow(es)
    decreases es, 0, Gap(es, next)
  {
    hide Normal, NoNulKeys, Valid;
    if es != [] && IsHole(es, next) {
      var more := NormalElements(es, next + 1);
      assert NormalElements(es, next) == [Entry(Index(next), NULL_VALUE)] + more;
      assert forall e :: e in more ==> e in NormalElements(es, next);
      ElementsShowNul(es, next + 1);
    } else if es != [] {
      assert es[0].value < es[0] && es[0] in es;
      var more := NormalElements(es[1..], next + 1);
      assert NormalElements(es, next) == [Entry(Index(next), Normal(es[0].value))] + more;
      assert forall e :: e in more ==> e in NormalElements(es, next);
      assert NormalElements(es, next)[0] in NormalElements(es, next);
      NormalShowsNul(es[0].value);
      ElementsShowNul(es[1..], next + 1);
    }
  }

  lemma {:induction false} MembersShowNul(es: seq<Entry>)
    requires Sorted(es) && (forall e :: e in es ==> Valid(e.value))
    requires NoNulMembers(Merged([], NormalMembers(es)))
    ensures NoNulMembers(es)
    decreases es, 0
  {
    hide Normal, NoNulKeys, Valid, KeyName, Merged;
    NormalMembersAt(es);
    var ns := NormalMembers(es);
    assert [] + ns == ns;
    SortedMerge([], ns);
    forall e | e in es ensures '\0' !in KeyName(e.key) && NoNulKeys(e.value) {
      var i :| 0 <= i < |es| && es[i] == e;
      assert ns[i] in ns;
      assert e in es && e.value < e;
      NormalShowsNul(e.value);
    }
  }

  lemma {:induction false} NormalMembersAt(es: seq<Entry>)
    ensures |NormalMembers(es)| == |es|
    ensures forall i :: 0 <= i < |es| ==> NormalMembers(es)[i] == Entry(es[i].key, Normal(es[i].value))
  {
    hide Normal;
    if es != [] {
      NormalMembersAt(es[1..]);
    }
  }

  /** Reading the styled text of any value gives the normal form of the value with its names cut,
      where the last of the members that became namesakes stays. That is the normal form of the
      value itself if and only if no name contains a NUL. */
  lemma StyledRoundTrip(o: Options, toDouble: string -> Option<real>, v: Value, root: Value)
    requires Valid(v) && Plain(v)
    ensures var r := Parse(toDouble, StyledWrite(o, v), root);
      if Height(v) <= STACK_LIMIT then r.Ret? && r.ok && r.errors == [] && Strip(r.value) == Normal(CutKeys(v))
      else r.Throw?
    ensures Normal(CutKeys(v)) == Normal(v) <==> NoNulKeys(v)
  {
    hide Reads, ReadValue, Normal, CutKeys, NoNulKeys, Height;
    StyledReads(o, v);
    CutIsLoose(v);
    CutHeight(v);
    ReadLexemes(Env(|StyledWrite(o, v)|, toDouble), CutKeys(v), StyledWrite(o, v), "\n", root, 0);
    NormalAddsNoNul(CutKeys(v));
    if Normal(CutKeys(v)) == Normal(v) {
      NormalShowsNul(v);
    }
    if NoNulKeys(v) {
      NothingToCut(v);
    }
  }
}
