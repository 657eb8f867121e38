/** The exact texts of both writers: the compact one is its tokens in a row, the styled one is laid
    out by nesting. */
module JsonLayout {
  import opened JsonValue
  import opened JsonNumbers
  import opened JsonStrings
  import opened JsonParser
  import opened JsonLexemes
  import opened JsonWriters
  import opened JsonStyled
  import opened JsonWriterClasses

  // ---- The compact text ----

  /** The tokens in a row, a colon with a space in YAML style and null left out on request. */
  function InARow(o: Options, lexemes: seq<string>): string {
    if lexemes == [] then ""
    else
      var x := lexemes[0];
      var text := if x == ":" && o.yaml then ": " else if x == "null" && o.dropNulls then "" else x;
      text + InARow(o, lexemes[1..])
  }

  lemma {:induction false} InARowAppend(o: Options, a: seq<string>, b: seq<string>)
    ensures InARow(o, a + b) == InARow(o, a) + InARow(o, b)
  {
    if a == [] {
      assert a + b == b;
    } else {
      assert (a + b)[1..] == a[1..] + b;
      InARowAppend(o, a[1..], b);
    }
  }

  lemma InARowCons(o: Options, x: string, b: seq<string>)
    ensures InARow(o, [x] + b)
      == (if x == ":" && o.yaml then ": " else if x == "null" && o.dropNulls then "" else x) + InARow(o, b)
  {
    assert ([x] + b)[1..] == b;
  }

  /** The token of a scalar is its text, and is no colon, and no null unless it is null. */
  lemma ScalarToken(o: Options, v: Value)
    requires Plain(v) && !IsContainer(v)
    ensures Lexemes(v) == [ScalarText(o, v)] && ScalarText(o, v) != ":"
    ensures ScalarText(o, v) == "null" <==> v.payload.Null?
    ensures ScalarText(o, v) != "" && ScalarText(o, v)[|ScalarText(o, v)| - 1] !in " \n"
  {
    match v.payload
    case Int(i) => NumeralEnds(i);
    case UInt(u) => NumeralEnds(u);
    case Str(x) =>
      assert Quote(x)[0] == '"' && Quote(x)[|Quote(x)| - 1] == '"';
    case _ =>
  }

  lemma NumeralEnds(n: int)
    ensures var x := SignedDecimal(n); x != "" && x[0] != 'n' && x[0] != ':' && IsDigit(x[|x| - 1])
  {
    DecimalDenotes(if n < 0 then -n else n);
  }

  lemma {:induction false} FastTextInARow(o: Options, v: Value)
    requires Plain(v)
    ensures FastText(o, v) == InARow(o, Lexemes(v))
    decreases v
  {
    hide InARow, ScalarText, FastElements, FastMembers, ElementLexemes, MemberLexemes;
    InARowNothing(o);
    match v.payload
    case Array(es) =>
      InARowCons(o, "[", if es == [] then ["]"] else ElementLexemes(es, 0));
      InARowOne(o, "]");
      if es != [] {
        ElementsInARow(o, es, 0);
      }
    case Object(es) =>
      InARowCons(o, "{", if es == [] then ["}"] else MemberLexemes(es));
      InARowOne(o, "}");
      if es != [] {
        MembersInARow(o, es);
      }
    case _ =>
      ScalarToken(o, v);
      InARowOne(o, ScalarText(o, v));
  }

  lemma InARowNothing(o: Options)
    ensures InARow(o, []) == ""
  {
  }

  lemma InARowOne(o: Options, x: string)
    ensures InARow(o, [x]) == if x == ":" && o.yaml then ": " else if x == "null" && o.dropNulls then "" else x
  {
    InARowCons(o, x, []);
    assert [x] + [] == [x];
  }

  lemma {:induction false} ElementsInARow(o: Options, es: seq<Entry>, next: nat)
    requires es != [] && forall e :: e in es ==> Plain(e.value)
    ensures FastElements(o, es, next) == InARow(o, ElementLexemes(es, next))
    decreases es, Gap(es, next)
  {
    hide InARow, FastText, Lexemes, Plain;
    if IsHole(es, next) {
      ElementsInARow(o, es, next + 1);
      var rest := ElementLexemes(es, next + 1);
      InARowCons(o, ",", rest);
      InARowCons(o, "null", [","] + rest);
      assert ElementLexemes(es, next) == ["null"] + ([","] + rest);
      assert NullText(o) + ("," + FastElements(o, es, next + 1)) == NullText(o) + "," + FastElements(o, es, next + 1);
    } else {
      assert es[0].value < es[0] && es[0] in es;
      FastTextInARow(o, es[0].value);
      var tail := if |es| == 1 then ["]"] else [","] + ElementLexemes(es[1..], next + 1);
      InARowAppend(o, Lexemes(es[0].value), tail);
      InARowOne(o, "]");
      if |es| > 1 {
        ElementsInARow(o, es[1..], next + 1);
        InARowCons(o, ",", ElementLexemes(es[1..], next + 1));
      }
    }
  }

  lemma {:induction false} MembersInARow(o: Options, es: seq<Entry>)
    requires es != [] && forall e :: e in es ==> Plain(e.value)
    ensures FastMembers(o, es) == InARow(o, MemberLexemes(es))
    decreases es, 0
  {
    hide InARow, FastText, Lexemes, Plain, Quote, KeyName, FastMembers, MemberLexemes;
    assert es[0].value < es[0] && es[0] in es;
    FastTextInARow(o, es[0].value);
    var q := Quote(KeyName(es[0].key));
    var first := Lexemes(es[0].value);
    var tail := FirstMember(es);
    var rest := MembersCons(o, es);
    QuotedKey(KeyName(es[0].key));
    InARowCons(o, q, [":"] + (first + tail));
    InARowCons(o, ":", first + tail);
    InARowAppend(o, first, tail);
    InARowOne(o, "}");
    if |es| > 1 {
      MembersInARow(o, es[1..]);
      InARowCons(o, ",", MemberLexemes(es[1..]));
    }
    var colon := if o.yaml then ": " else ":";
    assert rest == InARow(o, tail);
    RegroupFour(q, colon, FastText(o, es[0].value), rest);
  }

  lemma QuotedKey(x: string)
    ensures Quote(x) != ":" && Quote(x) != "null"
  {
    assert Quote(x)[0] == '"';
  }

  lemma RegroupFour(a: string, b: string, c: string, d: string)
    ensures a + (b + (c + d)) == a + b + c + d
  {
  }

  /** The compact writer writes the tokens in a row and nothing else. */
  lemma FastIsInARow(o: Options, v: Value)
    requires Plain(v)
    ensures FastWrite(o, v) == InARow(o, Lexemes(v)) + if o.omitLineFeed then "" else "\n"
  {
    FastTextInARow(o, v);
  }

  // ---- The styled text ----

  function Spaces(n: nat): string { seq(n, _ => ' ') }

  /** A new line at a nesting depth: three spaces for each level. */
  function NewLine(n: nat): string { "\n" + Spaces(3 * n) }

  function Concatenated(xs: seq<string>): string {
    if xs == [] then "" else xs[0] + Concatenated(xs[1..])
  }

  /** The text of a value without parts. */
  function PlainText(v: Value): string { Concatenated(Lexemes(v)) }

  /** The element texts from index `next` on, holes included, with a comma and a space between. */
  function Listed(es: seq<Entry>, next: nat): string
    requires es != []
    decreases es, Gap(es, next)
  {
    if IsHole(es, next) then "null, " + Listed(es, next + 1)
    else PlainText(es[0].value) + if |es| == 1 then "" else ", " + Listed(es[1..], next + 1)
  }

  function OneLine(es: seq<Entry>): string
    requires es != []
  {
    "[ " + Listed(es, 0) + " ]"
  }

  /** An array is on one line if it has fewer than 25 elements, none of which has parts, and the line
      is shorter than 74 characters. */
  predicate OnOneLine(es: seq<Entry>)
    requires es != []
  {
    && es[|es| - 1].key.Index? && es[|es| - 1].key.index < 24
    && (forall e :: e in es ==> HasNoParts(e.value))
    && |OneLine(es)| < 74
  }

  predicate HasNoParts(v: Value) {
    match v.payload
    case Array(es) => es == []
    case Object(es) => es == []
    case _ => true
  }

  /** A value at a nesting depth. */
  function Layout(v: Value, n: nat): string
    decreases v
  {
    match v.payload
    case Array(es) =>
      if es == [] then "[]" else if OnOneLine(es) then OneLine(es) else "[" + LayoutElements(es, 0, n)
    case Object(es) => if es == [] then "{}" else "{" + LayoutMembers(es, n)
    case _ => PlainText(v)
  }

  /** One line for each element, a level deeper, and one for the bracket. */
  function LayoutElements(es: seq<Entry>, next: nat, n: nat): string
    requires es != []
    decreases es, Gap(es, next)
  {
    if IsHole(es, next) then NewLine(n + 1) + "null," + LayoutElements(es, next + 1, n)
    else
      assert es[0].value < es[0];
      NewLine(n + 1) + Layout(es[0].value, n + 1)
      + if |es| == 1 then NewLine(n) + "]" else "," + LayoutElements(es[1..], next + 1, n)
  }

  /** One line for each member, or for where it starts, a level deeper, and one for the brace. */
  function LayoutMembers(es: seq<Entry>, n: nat): string
    requires es != []
    decreases es
  {
    assert es[0].value < es[0];
    NewLine(n + 1) + Quote(CString(KeyName(es[0].key))) + " : " + Layout(es[0].value, n + 1)
    + if |es| == 1 then NewLine(n) + "}" else "," + LayoutMembers(es[1..], n)
  }

  // ---- The writer's document follows the layout ----

  /** Something after which a new line is started: neither a space nor the end of a line. */
  predicate Solid(doc: string) { doc != "" && doc[|doc| - 1] !in " \n" }

  /** Where a container may start without a new line: at the very start, or behind a space. */
  predicate Ready(doc: string, n: nat) { if doc == "" then n == 0 else doc[|doc| - 1] == ' ' }

  lemma IndentIs(n: nat)
    ensures Spaces(3 * n) + INDENT == Spaces(3 * (n + 1)) && Spaces(0) == ""
  {
  }

  lemma BreaksLine(doc: string, n: nat)
    requires Solid(doc)
    ensures WriteIndent(doc, Spaces(3 * n)) == doc + NewLine(n)
    ensures n > 0 ==> Ready(doc + NewLine(n), n)
  {
    assert doc + "\n" + Spaces(3 * n) == doc + NewLine(n);
    if n > 0 {
      assert (doc + NewLine(n))[|doc + NewLine(n)| - 1] == ' ';
    }
  }

  lemma LeafLayout(o: Options, v: Value, n: nat)
    requires Plain(v) && IsLeaf(v)
    ensures Layout(v, n) == LeafText(o, v) == PlainText(v) && Solid(PlainText(v))
    ensures HasNoParts(v)
  {
    hide ScalarText;
    if !IsContainer(v) {
      ScalarToken(o, v);
      assert Concatenated([ScalarText(o, v)]) == ScalarText(o, v) + Concatenated([]);
    } else if v.payload.Array? {
      BracketText("[", "]");
    } else {
      BracketText("{", "}");
    }
  }

  lemma BracketText(a: string, b: string)
    ensures Concatenated([a] + [b]) == a + b
  {
    var xs := [a] + [b];
    assert xs[1..] == [b] && [b][1..] == [];
    assert Concatenated([b]) == b + Concatenated([]) == b;
  }

  lemma {:induction false} LineIsListed(o: Options, es: seq<Entry>, next: nat)
    requires es != [] && (forall e :: e in es ==> Plain(e.value)) && AllLeaves(es)
    ensures LeafTexts(o, es, next) != []
    ensures LineFrom(LeafTexts(o, es, next)) == Listed(es, next) + " ]"
    ensures |Listed(es, next)| == TotalLength(LeafTexts(o, es, next)) + 2 * (|LeafTexts(o, es, next)| - 1)
    decreases es, Gap(es, next)
  {
    hide LeafText, PlainText, Plain, IsLeaf, Layout, LineFrom, TotalLength;
    if IsHole(es, next) {
      LineIsListed(o, es, next + 1);
      LineCons("null", LeafTexts(o, es, next + 1), Listed(es, next + 1));
      assert "null, " == "null" + ", ";
    } else {
      assert es[0] in es;
      LeafLayout(o, es[0].value, 0);
      var x := LeafText(o, es[0].value);
      if |es| == 1 {
        assert LeafTexts(o, es[1..], next + 1) == [];
        LineLast(x);
      } else {
        LineIsListed(o, es[1..], next + 1);
        LineCons(x, LeafTexts(o, es[1..], next + 1), Listed(es[1..], next + 1));
      }
    }
  }

  lemma LineCons(x: string, xs: seq<string>, rest: string)
    requires xs != [] && LineFrom(xs) == rest + " ]"
    ensures LineFrom([x] + xs) == x + ", " + rest + " ]" == x + (", " + rest) + " ]"
    ensures TotalLength([x] + xs) == |x| + TotalLength(xs)
  {
    hide TotalLength;
    TotalCons(x, xs);
    assert ([x] + xs)[1..] == xs;
    assert x + (", " + (rest + " ]")) == x + ", " + rest + " ]" == x + (", " + rest) + " ]";
  }

  lemma LineLast(x: string)
    ensures LineFrom([x] + []) == x + "" + " ]" && TotalLength([x] + []) == |x|
  {
    TotalCons(x, []);
    assert x + "" == x;
  }

  lemma {:induction false} TotalCons(x: string, xs: seq<string>)
    ensures TotalLength([x] + xs) == |x| + TotalLength(xs)
  {
    var all := [x] + xs;
    if xs == [] {
      assert all[..0] == [];
    } else {
      TotalCons(x, xs[..|xs| - 1]);
      assert all[..|all| - 1] == [x] + xs[..|xs| - 1];
    }
  }

  /** The rule of the layout is the writer's. */
  lemma OneLineRule(o: Options, v: Value, es: seq<Entry>)
    requires Valid(v) && Plain(v) && v.payload == Array(es) && es != []
    ensures OnOneLine(es) <==> !IsMultiLine(o, es)
    ensures OnOneLine(es) ==> OneLine(es) == "[ " + LineFrom(LeafTexts(o, es, 0))
  {
    hide LeafTexts, TotalLength, LineFrom, Listed, Valid, Plain, Height, HeightEntries, KeyLess;
    HeightOfChild(v, es);
    PlainChildren(v, es);
    assert es[|es| - 1] in es && es[|es| - 1].key.Index?;
    assert AllLeaves(es) <==> forall e :: e in es ==> HasNoParts(e.value);
    if AllLeaves(es) {
      LineIsListed(o, es, 0);
      StartCursor(es);
      LeafTextsLength(o, es, 0);
      assert "[ " + (Listed(es, 0) + " ]") == OneLine(es);
    }
  }

  lemma PlainChildren(v: Value, es: seq<Entry>)
    requires Plain(v) && IsContainer(v) && Entries(v) == es
    ensures forall e :: e in es ==> Plain(e.value)
  {
  }

  lemma {:induction false} DocIsLayout(o: Options, v: Value, doc: string, n: nat)
    requires Valid(v) && Plain(v) && Ready(doc, n)
    ensures StyledDoc(o, v, doc, Spaces(3 * n)) == doc + Layout(v, n)
    ensures Solid(Layout(v, n))
    decreases v, 2
  {
    hide LayoutElements, LayoutMembers, StyledElements, StyledMembers, OnOneLine, IsMultiLine, OneLine, LeafTexts,
      LineFrom, Valid, Plain, LeafText, PlainText, Height, HeightEntries, Spaces, WriteIndent, Ready, Solid;
    if IsLeaf(v) {
      LeafLayout(o, v, n);
      LeafDoc(o, v, doc, Spaces(3 * n));
    } else {
      var es := Entries(v);
      HeightOfChild(v, es);
      PlainChildren(v, es);
      Starts(doc, n);
      if v.payload.Array? {
        OneLineRule(o, v, es);
        if OnOneLine(es) {
          OneLineEnds(es);
        } else {
          DocIsElements(o, es, 0, doc + "[", n, !SurelyMultiLine(es));
          Opened(doc, "[", LayoutElements(es, 0, n));
        }
      } else {
        DocIsMembers(o, es, doc + "{", n);
        Opened(doc, "{", LayoutMembers(es, n));
      }
    }
  }

  lemma Opened(doc: string, open: string, rest: string)
    requires Solid(rest)
    ensures doc + open + rest == doc + (open + rest) && Solid(open + rest)
  {
    assert (open + rest)[|open + rest| - 1] == rest[|rest| - 1];
  }

  lemma Starts(doc: string, n: nat)
    requires Ready(doc, n)
    ensures WriteIndent(doc, Spaces(3 * n)) == doc
    ensures Solid(doc + "[") && Solid(doc + "{")
  {
    IndentIs(n);
  }

  lemma OneLineEnds(es: seq<Entry>)
    requires es != []
    ensures Solid(OneLine(es))
  {
    var x := OneLine(es);
    assert x[|x| - 1] == ']';
  }

  /** The line of one element, whichever way the writer produces it. */
  lemma {:induction false} ElementDoc(o: Options, v: Value, doc: string, n: nat, buffered: bool)
    requires Valid(v) && Plain(v) && Solid(doc) && (buffered ==> IsLeaf(v))
    ensures StyledElement(o, v, doc, Spaces(3 * n), buffered) == doc + NewLine(n + 1) + Layout(v, n + 1)
    ensures Solid(Layout(v, n + 1))
    decreases v, 3
  {
    hide Layout, StyledDoc, LeafText, PlainText, Valid, Plain, Spaces, NewLine, WriteIndent, IsLeaf;
    IndentIs(n);
    BreaksLine(doc, n + 1);
    if buffered {
      LeafLayout(o, v, n + 1);
    } else {
      DocIsLayout(o, v, doc + NewLine(n + 1), n + 1);
    }
  }

  lemma {:induction false} DocIsElements(o: Options, es: seq<Entry>, next: nat, doc: string, n: nat, buffered: bool)
    requires es != [] && (forall e :: e in es ==> Valid(e.value) && Plain(e.value))
    requires (buffered ==> AllLeaves(es)) && Solid(doc)
    ensures StyledElements(o, es, next, doc, Spaces(3 * n), buffered) == doc + LayoutElements(es, next, n)
    ensures Solid(LayoutElements(es, next, n))
    decreases es, 0, Gap(es, next)
  {
    hide Layout, StyledElement, Valid, Plain, Spaces, NewLine, WriteIndent, IsLeaf;
    if IsHole(es, next) {
      HoleDoc(doc, n);
      var d := doc + NewLine(n + 1) + "null" + ",";
      DocIsElements(o, es, next + 1, d, n, buffered);
      var rest := LayoutElements(es, next + 1, n);
      Behind(doc, NewLine(n + 1), "null", ",", rest);
    } else {
      assert es[0].value < es[0] && es[0] in es;
      var first := Layout(es[0].value, n + 1);
      ElementDoc(o, es[0].value, doc, n, buffered);
      if |es| == 1 {
        Closes(doc, NewLine(n + 1), first, n, "]");
      } else {
        var rest := LayoutElements(es[1..], next + 1, n);
        DocIsElements(o, es[1..], next + 1, doc + NewLine(n + 1) + first + ",", n, buffered);
        Behind(doc, NewLine(n + 1), first, ",", rest);
      }
    }
  }

  lemma HoleDoc(doc: string, n: nat)
    requires Solid(doc)
    ensures WriteWithIndent(doc, Spaces(3 * n) + INDENT, "null") == doc + NewLine(n + 1) + "null"
    ensures Solid(doc + NewLine(n + 1) + "null" + ",")
  {
    hide Spaces, NewLine, WriteIndent;
    IndentIs(n);
    BreaksLine(doc, n + 1);
  }

  /** A line with a comma, and the lines behind it. */
  lemma Behind(doc: string, line: string, x: string, comma: string, rest: string)
    requires Solid(rest)
    ensures doc + line + x + comma + rest == doc + (line + x + (comma + rest)) == doc + (line + (x + comma) + rest)
    ensures Solid(line + x + (comma + rest)) && Solid(line + (x + comma) + rest)
  {
    assert line + x + (comma + rest) == line + (x + comma) + rest;
    var all := line + x + (comma + rest);
    assert all[|all| - 1] == rest[|rest| - 1];
  }

  /** The last line, and the closing bracket or brace on a line of its own. */
  lemma Closes(doc: string, line: string, x: string, n: nat, end: string)
    requires Solid(x) && |end| == 1 && end[0] in "]}"
    ensures WriteWithIndent(doc + line + x, Spaces(3 * n), end) == doc + (line + x + (NewLine(n) + end))
    ensures Solid(line + x + (NewLine(n) + end))
  {
    hide Spaces, NewLine, WriteIndent;
    var d := doc + line + x;
    assert d[|d| - 1] == x[|x| - 1];
    BreaksLine(d, n);
    assert d + NewLine(n) + end == doc + (line + x + (NewLine(n) + end));
    var all := line + x + (NewLine(n) + end);
    assert all[|all| - 1] == end[0];
  }

  lemma {:induction false} DocIsMembers(o: Options, es: seq<Entry>, doc: string, n: nat)
    requires es != [] && (forall e :: e in es ==> Valid(e.value) && Plain(e.value)) && Solid(doc)
    ensures StyledMembers(o, es, doc, Spaces(3 * n)) == doc + LayoutMembers(es, n)
    ensures Solid(LayoutMembers(es, n))
    decreases es, 1
  {
    hide Layout, StyledDoc, StyledKey, Valid, Plain, Spaces, NewLine, WriteIndent, Quote, CString, KeyName;
    assert es[0].value < es[0] && es[0] in es;
    var q := Quote(CString(KeyName(es[0].key)));
    var line := NewLine(n + 1) + q + " : ";
    var first := Layout(es[0].value, n + 1);
    KeyDoc(es[0].key, doc, n);
    IndentIs(n);
    DocIsLayout(o, es[0].value, doc + line, n + 1);
    if |es| == 1 {
      Closes(doc, line, first, n, "}");
    } else {
      var rest := LayoutMembers(es[1..], n);
      DocIsMembers(o, es[1..], doc + line + first + ",", n);
      Behind(doc, line, first, ",", rest);
    }
  }

  lemma KeyDoc(key: Key, doc: string, n: nat)
    requires Solid(doc)
    ensures var line := NewLine(n + 1) + Quote(CString(KeyName(key))) + " : ";
      StyledKey(key, doc, Spaces(3 * n)) == doc + line && Ready(doc + line, n + 1)
  {
    hide Spaces, NewLine, WriteIndent, Quote, CString, KeyName;
    IndentIs(n);
    BreaksLine(doc, n + 1);
    var q := Quote(CString(KeyName(key)));
    assert doc + NewLine(n + 1) + q + " : " == doc + (NewLine(n + 1) + q + " : ");
  }

  /** The styled writer's text is the layout of the value, with a line feed. */
  lemma StyledIsLayout(o: Options, v: Value)
    requires Valid(v) && Plain(v)
    ensures StyledWrite(o, v) == Layout(v, 0) + "\n"
  {
    hide StyledDoc, Layout;
    IndentIs(0);
    DocIsLayout(o, v, "", 0);
    assert "" + Layout(v, 0) == Layout(v, 0);
  }
}
