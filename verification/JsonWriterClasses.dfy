/** The two writers as they run: a document that grows in place and, in the styled writer, a
    buffer of element texts shared by all nesting levels. */
module JsonWriterClasses {
  import opened Optional
  import opened JsonValue
  import opened JsonNumbers
  import opened JsonStrings
  import opened JsonParser
  import opened JsonLexemes
  import opened JsonWriters
  import opened JsonStyled

  // ---- Iterating over a map ----

  lemma {:induction false} FindEntry(es: seq<Entry>, j: nat)
    requires Sorted(es) && j < |es|
    ensures Find(es, es[j].key) == Some(es[j].value)
  {
    hide KeyLess;
    if j > 0 {
      KeyLessTrichotomy(es[0].key, es[j].key);
      FindEntry(es[1..], j - 1);
    }
  }

  lemma {:induction false} FindNothing(es: seq<Entry>, key: Key)
    requires forall i :: 0 <= i < |es| ==> es[i].key != key
    ensures Find(es, key) == None
  {
    if es != [] {
      FindNothing(es[1..], key);
    }
  }

  lemma {:induction false} EntryHeight(es: seq<Entry>, j: nat)
    requires j < |es|
    ensures Height(es[j].value) <= HeightEntries(es)
  {
    if j > 0 {
      EntryHeight(es[1..], j - 1);
    }
  }

  /** An index loop over a sorted array stands before entry j: all earlier keys are smaller. */
  ghost predicate Cursor(es: seq<Entry>, j: nat, index: nat) {
    && j <= |es|
    && (forall i :: 0 <= i < j ==> es[i].key.Index? && es[i].key.index < index)
    && (forall i :: j <= i < |es| ==> es[i].key.Index? && index <= es[i].key.index)
  }

  /** What `value[index]` yields there, and where the cursor stands afterwards. */
  lemma AtCursor(es: seq<Entry>, j: nat, index: nat)
    requires Sorted(es) && Cursor(es, j, index) && index < ArraySize(es)
    ensures j < |es|
    ensures At(es, Index(index)) == if es[j].key.index == index then es[j].value else NULL_VALUE
    ensures Cursor(es, if es[j].key.index == index then j + 1 else j, index + 1)
    ensures Height(At(es, Index(index))) <= HeightEntries(es)
  {
    EntryHeight(es, j);
    if es[j].key.index == index {
      FindEntry(es, j);
      forall i | j < i < |es|
        ensures index < es[i].key.index
      {
        assert KeyLess(es[j].key, es[i].key);
      }
    } else {
      FindNothing(es, Index(index));
    }
  }

  lemma CursorEnd(es: seq<Entry>, j: nat, index: nat)
    requires Cursor(es, j, index) && es != []
    ensures index == ArraySize(es) ==> j == |es|
    ensures j < |es| ==> index < ArraySize(es)
  {
  }

  // Concatenation regrouped, to compare what is appended piece by piece with the whole text.

  lemma Append2(d: string, a: string, b: string)
    ensures d + (a + b) == d + a + b
  {
  }

  lemma Append3(d: string, a: string, b: string, c: string)
    ensures d + (a + b + c) == d + a + b + c
  {
  }

  lemma Append4(d: string, a: string, b: string, c: string, e: string)
    ensures d + (a + b + c + e) == d + a + b + c + e
  {
  }

  lemma Append5(d: string, a: string, b: string, c: string, e: string, f: string)
    ensures d + (a + b + c + e + f) == d + a + b + c + e + f
  {
  }

  function Comma(index: nat): string { if index > 0 then "," else "" }

  class FastWriter {
    const o: Options
    var document: string

    constructor (o: Options)
      ensures this.o == o
    {
      this.o := o;
      document := "";
    }

    method Write(root: Value) returns (text: string)
      requires Valid(root)
      modifies this
      ensures text == document == FastWrite(o, root)
    {
      document := "";
      WriteValue(root);
      if !o.omitLineFeed {
        document := document + "\n";
      }
      text := document;
    }

    /** What remains to be written of a non-empty array before index `index`. */
    ghost function ElementsLeft(es: seq<Entry>, j: nat, index: nat): string
      requires j <= |es|
    {
      if j == |es| then "]"
      else Comma(index) + FastElements(o, es[j..], index)
    }

    method WriteValue(value: Value)
      requires Valid(value)
      modifies this
      ensures document == old(document) + FastText(o, value)
      decreases Height(value), 1
    {
      hide FastElements, FastMembers;
      match value.payload {
        case Null =>
          if !o.dropNulls {
            document := document + "null";
          }
        case Int(i) =>
          var text := IntToText(i);
          document := document + text;
        case UInt(u) =>
          var text := UIntToText(u);
          assert SignedDecimal(u) == Decimal(u);
          document := document + text;
        case Real(r) => document := document + o.realText(r);
        case Str(x) =>
          var text := QuotedStringN(x);
          document := document + text;
        case NullStr =>
        case Bool(b) => document := document + if b then "true" else "false";
        case Array(es) => WriteArray(value, es);
        case Object(es) => WriteObject(value, es);
      }
    }

    method WriteArray(value: Value, es: seq<Entry>)
      requires Valid(value) && value.payload == Array(es)
      modifies this
      ensures document == old(document) + FastText(o, value)
      decreases Height(value), 0
    {
      hide FastElements, FastText, Height, HeightEntries, Valid, KeyLess, At, Cursor, ElementsLeft;
      ArrayText(value, es);
      StartCursor(es);
      ElementsAreWritten(es, 0, 0, document + "[");
      StartOfElements(es, document);
      document := document + "[";
      ghost var full := ElementsWritten(es, 0, 0, document);
      var size := ArraySize(es);
      var index := 0;
      ghost var j: nat := 0;
      while index < size
        invariant 0 <= index <= size && Cursor(es, j, index) && j <= |es|
        invariant ElementsWritten(es, j, index, document) == full
      {
        AtCursor(es, j, index);
        var child := At(es, Index(index));
        if index > 0 {
          document := document + ",";
        }
        WriteValue(child);
        j := if es[j].key.index == index then j + 1 else j;
        index := index + 1;
      }
      if size > 0 {
        CursorEnd(es, j, index);
      }
      document := document + "]";
    }

    /** The document at the end when the elements from index `index` on are still to be written. */
    ghost function ElementsWritten(es: seq<Entry>, j: nat, index: nat, doc: string): string
      requires j <= |es|
      decreases |es| - j, if j < |es| && es[j].key.Index? then es[j].key.index - index else 0
    {
      var d := if index > 0 then doc + "," else doc;
      if j == |es| then doc + "]"
      else if es[j].key.Index? && es[j].key.index > index then
        ElementsWritten(es, j, index + 1, d + FastText(o, NULL_VALUE))
      else ElementsWritten(es, j + 1, index + 1, d + FastText(o, es[j].value))
    }

    lemma {:induction false} ElementsAreWritten(es: seq<Entry>, j: nat, index: nat, doc: string)
      requires j <= |es|
      ensures ElementsWritten(es, j, index, doc) == doc + ElementsLeft(es, j, index)
      decreases |es| - j, if j < |es| && es[j].key.Index? then es[j].key.index - index else 0
    {
      hide FastText, FastElements;
      if j < |es| {
        var hole := es[j].key.Index? && es[j].key.index > index;
        var text := FastText(o, if hole then NULL_VALUE else es[j].value);
        var k := if hole then j else j + 1;
        ElementsAreWritten(es, k, index + 1, (if index > 0 then doc + "," else doc) + text);
        ElementText(es, j, index);
        Append3(doc, Comma(index), text, ElementsLeft(es, k, index + 1));
        Append2(Comma(index), text, ElementsLeft(es, k, index + 1));
        assert doc + "" == doc;
      }
    }

    lemma StartOfElements(es: seq<Entry>, doc: string)
      ensures doc + "[" + ElementsLeft(es, 0, 0) == doc + ("[" + if es == [] then "]" else FastElements(o, es, 0))
    {
      hide FastElements;
      assert es[0..] == es;
      Append2(doc, "[", ElementsLeft(es, 0, 0));
      assert es != [] ==> "" + FastElements(o, es, 0) == FastElements(o, es, 0);
    }

    lemma ArrayText(value: Value, es: seq<Entry>)
      requires Valid(value) && value.payload == Array(es)
      ensures FastText(o, value) == "[" + (if es == [] then "]" else FastElements(o, es, 0))
      ensures forall e :: e in es ==> e.key.Index? && Valid(e.value)
      ensures Sorted(es) && Valid(NULL_VALUE) && Height(value) == 1 + HeightEntries(es)
      ensures es == [] <==> ArraySize(es) == 0
    {
      if es != [] {
        assert es[|es| - 1] in es;
      }
    }

    lemma ElementText(es: seq<Entry>, j: nat, index: nat)
      requires j < |es|
      ensures var hole := es[j].key.Index? && es[j].key.index > index;
        FastElements(o, es[j..], index) ==
        FastText(o, if hole then NULL_VALUE else es[j].value) + ElementsLeft(es, if hole then j else j + 1, index + 1)
    {
      assert es[j..][1..] == es[j + 1..];
      if IsHole(es[j..], index) {
        NullThen(es, j, index);
      }
    }

    lemma NullThen(es: seq<Entry>, j: nat, index: nat)
      requires j < |es| && IsHole(es[j..], index)
      ensures FastElements(o, es[j..], index) == FastText(o, NULL_VALUE) + ElementsLeft(es, j, index + 1)
    {
      var rest := FastElements(o, es[j..], index + 1);
      Append2(NullText(o), ",", rest);
      assert FastText(o, NULL_VALUE) == NullText(o);
    }

    method WriteObject(value: Value, es: seq<Entry>)
      requires Valid(value) && value.payload == Object(es)
      modifies this
      ensures document == old(document) + FastText(o, value)
      decreases Height(value), 0
    {
      hide FastText, Height, HeightEntries, Valid, Quote, Find, MembersLeft, Colon, KeyLess, KeyName, Sorted;
      ObjectText(value, es);
      MembersAreWritten(es, 0, document + "{");
      Append2(document, "{", MembersLeft(es, 0));
      document := document + "{";
      ghost var full := MembersWritten(es, 0, document);
      var i := 0;
      while i < |es|
        invariant 0 <= i <= |es|
        invariant MembersWritten(es, i, document) == full
      {
        if i > 0 {
          document := document + ",";
        }
        var name := KeyName(es[i].key);
        var key := QuotedStringN(name);
        document := document + key;
        document := document + Colon();
        FindEntry(es, i);
        EntryHeight(es, i);
        assert es[i] in es;
        WriteValue(At(es, es[i].key));
        i := i + 1;
      }
      document := document + "}";
    }

    /** The document at the end when the members from the i-th on are still to be written. */
    ghost function MembersWritten(es: seq<Entry>, i: nat, doc: string): string
      requires i <= |es|
      decreases |es| - i
    {
      if i == |es| then doc + "}"
      else
        var d := if i > 0 then doc + "," else doc;
        MembersWritten(es, i + 1, d + Quote(KeyName(es[i].key)) + Colon() + FastText(o, es[i].value))
    }

    lemma {:induction false} MembersAreWritten(es: seq<Entry>, i: nat, doc: string)
      requires i <= |es|
      ensures MembersWritten(es, i, doc) == doc + MembersLeft(es, i)
      decreases |es| - i
    {
      hide FastText, FastMembers, Quote, KeyName, Colon;
      if i < |es| {
        var key, text := Quote(KeyName(es[i].key)), FastText(o, es[i].value);
        MembersAreWritten(es, i + 1, (if i > 0 then doc + "," else doc) + key + Colon() + text);
        MembersStep(es, i);
        Append5(doc, Comma(i), key, Colon(), text, MembersLeft(es, i + 1));
        assert doc + "" == doc;
      }
    }

    lemma ObjectText(value: Value, es: seq<Entry>)
      requires Valid(value) && value.payload == Object(es)
      ensures FastText(o, value) == "{" + MembersLeft(es, 0)
      ensures forall e :: e in es ==> e.key.Name? && Valid(e.value)
      ensures Sorted(es) && Height(value) == 1 + HeightEntries(es)
    {
      assert es[0..] == es;
    }

    function Colon(): string { if o.yaml then ": " else ":" }

    ghost function MembersLeft(es: seq<Entry>, i: nat): string
      requires i <= |es|
    {
      if i == |es| then "}"
      else Comma(i) + FastMembers(o, es[i..])
    }

    lemma MembersStep(es: seq<Entry>, i: nat)
      requires i < |es|
      ensures MembersLeft(es, i) ==
        Comma(i) + Quote(KeyName(es[i].key)) + Colon() +
        FastText(o, es[i].value) + MembersLeft(es, i + 1)
    {
      hide FastText, Quote, KeyName;
      var left := MembersLeft(es, i + 1);
      assert es[i..][1..] == es[i + 1..];
      var key, text := Quote(KeyName(es[i].key)), FastText(o, es[i].value);
      assert FastMembers(o, es[i..]) == key + Colon() + text + left;
      Append4(Comma(i), key, Colon(), text, left);
    }
  }

  lemma HeightOfChild(value: Value, es: seq<Entry>)
    requires Valid(value) && Entries(value) == es && IsContainer(value)
    ensures Height(value) == 1 + HeightEntries(es) && Sorted(es)
    ensures forall e :: e in es ==> Valid(e.value)
    ensures value.payload.Array? ==> (forall e :: e in es ==> e.key.Index?) && (es == [] <==> ArraySize(es) == 0)
    ensures value.payload.Object? ==> forall e :: e in es ==> e.key.Name?
    ensures Valid(NULL_VALUE) && IsLeaf(NULL_VALUE) && Plain(NULL_VALUE)
  {
    if value.payload.Array? && es != [] {
      assert es[|es| - 1] in es;
    }
  }

  lemma StartCursor(es: seq<Entry>)
    requires Sorted(es) && forall e :: e in es ==> e.key.Index?
    ensures Cursor(es, 0, 0) && es[0..] == es
  {
  }

  function Next(es: seq<Entry>, j: nat, index: nat): nat {
    if j < |es| && es[j].key.Index? && es[j].key.index == index then j + 1 else j
  }

  class StyledWriter {
    const o: Options
    var document: string
    var childValues: seq<string>
    var indentString: string
    var addChildValues: bool

    constructor (o: Options)
      ensures this.o == o
    {
      this.o := o;
      document, childValues, indentString, addChildValues := "", [], "", false;
    }

    method Write(root: Value) returns (text: string)
      requires Valid(root)
      modifies this
      ensures text == document == StyledWrite(o, root)
      ensures indentString == "" && !addChildValues
    {
      document := "";
      addChildValues := false;
      indentString := "";
      WriteValue(root);
      document := document + "\n";
      text := document;
    }

    method PushValue(value: string)
      modifies `document, `childValues
      ensures addChildValues ==> document == old(document) && childValues == old(childValues) + [value]
      ensures !addChildValues ==> document == old(document) + value && childValues == old(childValues)
    {
      if addChildValues {
        childValues := childValues + [value];
      } else {
        document := document + value;
      }
    }

    method AppendIndent()
      modifies `document
      ensures document == WriteIndent(old(document), indentString)
    {
      if document != "" {
        var last := document[|document| - 1];
        if last == ' ' {
          return;
        }
        if last != '\n' {
          document := document + "\n";
        }
      }
      document := document + indentString;
    }

    method AppendWithIndent(value: string)
      modifies `document
      ensures document == WriteWithIndent(old(document), indentString, value)
    {
      AppendIndent();
      document := document + value;
    }

    method Indent()
      modifies `indentString
      ensures indentString == old(indentString) + INDENT
    {
      indentString := indentString + INDENT;
    }

    method Unindent()
      requires |indentString| >= |INDENT|
      modifies `indentString
      ensures indentString == old(indentString)[..|old(indentString)| - |INDENT|]
    {
      indentString := indentString[..|indentString| - |INDENT|];
    }

    /** In the buffering mode only leaves are written, and each adds one text to the buffer. */
    method WriteValue(value: Value)
      requires Valid(value) && (addChildValues ==> IsLeaf(value))
      modifies this
      ensures indentString == old(indentString) && addChildValues == old(addChildValues)
      ensures addChildValues ==> document == old(document) && childValues == old(childValues) + [LeafText(o, value)]
      ensures !addChildValues ==> document == StyledDoc(o, value, old(document), indentString)
      decreases Height(value), 3
    {
      hide StyledElements, StyledMembers, LineFrom, LeafTexts;
      match value.payload {
        case Null => PushValue("null");
        case Int(i) =>
          var text := IntToText(i);
          PushValue(text);
        case UInt(u) =>
          var text := UIntToText(u);
          assert SignedDecimal(u) == Decimal(u);
          PushValue(text);
        case Real(r) => PushValue(o.realText(r));
        case Str(x) =>
          var text := QuotedStringN(x);
          PushValue(text);
        case NullStr => PushValue("");
        case Bool(b) => PushValue(if b then "true" else "false");
        case Array(es) => WriteArrayValue(value, es);
        case Object(es) => WriteObjectValue(value, es);
      }
    }

    method WriteObjectValue(value: Value, es: seq<Entry>)
      requires Valid(value) && value.payload == Object(es) && (addChildValues ==> es == [])
      modifies this
      ensures indentString == old(indentString) && addChildValues == old(addChildValues)
      ensures addChildValues ==> document == old(document) && childValues == old(childValues) + ["{}"]
      ensures !addChildValues ==> document == StyledDoc(o, value, old(document), indentString)
      decreases Height(value), 2
    {
      hide Height, HeightEntries, Valid, Quote, Find, KeyLess, StyledKey, WriteWithIndent;
      HeightOfChild(value, es);
      if es == [] {
        PushValue("{}");
        return;
      }
      ghost var outer := indentString;
      ghost var final := StyledDoc(o, value, document, outer);
      AppendWithIndent("{");
      Indent();
      var i := 0;
      assert es[0..] == es;
      while true
        invariant 0 <= i < |es| && !addChildValues && indentString == outer + INDENT
        invariant StyledMembers(o, es[i..], document, outer) == final
        decreases |es| - i
      {
        ghost var before := document;
        FindEntry(es, i);
        EntryHeight(es, i);
        assert es[i] in es && es[i..][0] == es[i] && es[i..][1..] == es[i + 1..];
        var name := KeyName(es[i].key);
        var key := QuotedStringN(CString(name));
        AppendWithIndent(key);
        document := document + " : ";
        KeyLine(es[i].key, before, outer);
        WriteValue(At(es, es[i].key));
        i := i + 1;
        if i == |es| {
          break;
        }
        document := document + ",";
      }
      Unindent();
      assert indentString == outer;
      AppendWithIndent("}");
    }

    lemma KeyLine(key: Key, doc: string, indent: string)
      ensures StyledKey(key, doc, indent) == WriteWithIndent(doc, indent + INDENT, Quote(CString(KeyName(key)))) + " : "
    {
    }

    method WriteArrayValue(value: Value, es: seq<Entry>)
      requires Valid(value) && value.payload == Array(es) && (addChildValues ==> es == [])
      modifies this
      ensures indentString == old(indentString) && addChildValues == old(addChildValues)
      ensures addChildValues ==> document == old(document) && childValues == old(childValues) + ["[]"]
      ensures !addChildValues ==> document == StyledDoc(o, value, old(document), indentString)
      decreases Height(value), 2
    {
      hide Height, HeightEntries, Valid, KeyLess, SurelyMultiLine, IsMultiLine, LineFrom, LeafTexts, StyledElements,
        WriteWithIndent;
      HeightOfChild(value, es);
      var size := ArraySize(es);
      if size == 0 {
        PushValue("[]");
      } else {
        var isArrayMultiLine := IsMultilineArray(value, es);
        if isArrayMultiLine {
          WriteLines(value, es);
        } else {
          MultiLineCases(o, es);
          WriteOneLine(LeafTexts(o, es, 0));
        }
      }
    }

    lemma MultiLineCases(o: Options, es: seq<Entry>)
      ensures !IsMultiLine(o, es) ==> !SurelyMultiLine(es)
    {
    }

    /** The branch of writeArrayValue that puts every element on its own line. */
    method WriteLines(value: Value, es: seq<Entry>)
      requires Valid(value) && value.payload == Array(es) && es != [] && !addChildValues
      requires childValues == if SurelyMultiLine(es) then [] else LeafTexts(o, es, 0)
      modifies this
      ensures indentString == old(indentString) && !addChildValues
      ensures var start := WriteWithIndent(old(document), indentString, "[");
        document == StyledElements(o, es, 0, start, indentString, !SurelyMultiLine(es))
      decreases Height(value), 1
    {
      hide Height, HeightEntries, Valid, KeyLess, SurelyMultiLine, LeafText, WriteWithIndent, StyledElement, At,
        LinesLeft;
      ghost var outer := indentString;
      ghost var buffered := !SurelyMultiLine(es);
      AppendWithIndent("[");
      ghost var final := StyledElements(o, es, 0, document, outer, buffered);
      HeightOfChild(value, es);
      var hasChildValue := childValues != [];
      var size := ArraySize(es);
      ghost var xs := childValues;
      LinesStart(xs, es, document, outer, buffered);
      Indent();
      var index := 0;
      ghost var j: nat := 0;
      while true
        invariant 0 <= index < size && indentString == outer + INDENT && !addChildValues && hasChildValue == buffered
        invariant buffered ==> childValues == xs
        invariant LinesLeft(xs, es, j, index, document, outer, buffered, final)
        decreases size - index
      {
        LineTurn(xs, es, j, index, document, outer, buffered, final);
        ValidAt(es, index);
        WriteLine(At(es, Index(index)), index, hasChildValue, outer);
        j := Next(es, j, index);
        index := index + 1;
        if index == size {
          break;
        }
        document := document + ",";
      }
      Unindent();
      assert indentString == outer;
      AppendWithIndent("]");
    }

    /** Before the element at `index`: what the buffer xs holds, if it is in use, are the texts of the
        elements from there on, and writing their lines completes the document. */
    ghost predicate LinesLeft(xs: seq<string>, es: seq<Entry>, j: nat, index: nat, doc: string, outer: string,
                              buffered: bool, final: string)
    {
      && j < |es| && index < ArraySize(es) && Cursor(es, j, index)
      && (buffered ==> index <= |xs| == ArraySize(es) && xs[index..] == LeafTexts(o, es[j..], index))
      && StyledElements(o, es[j..], index, doc, outer, buffered) == final
    }

    lemma LinesStart(xs: seq<string>, es: seq<Entry>, doc: string, outer: string, buffered: bool)
      requires es != [] && Sorted(es) && (forall e :: e in es ==> e.key.Index?)
      requires buffered ==> xs == LeafTexts(o, es, 0)
      ensures LinesLeft(xs, es, 0, 0, doc, outer, buffered, StyledElements(o, es, 0, doc, outer, buffered))
      ensures buffered ==> xs != []
    {
      hide LeafTexts, StyledElements, KeyLess;
      StartCursor(es);
      LeafTextsLength(o, es, 0);
      assert xs[0..] == xs;
      CursorEnd(es, 0, 0);
    }

    /** One turn of the loop over lines, whichever way the element is written. */
    lemma LineTurn(xs: seq<string>, es: seq<Entry>, j: nat, index: nat, doc: string, outer: string,
                   buffered: bool, final: string)
      requires Sorted(es) && LinesLeft(xs, es, j, index, doc, outer, buffered, final)
      ensures var child := At(es, Index(index));
        var d := StyledElement(o, child, doc, outer, buffered);
        && Height(child) <= HeightEntries(es)
        && (buffered ==> index < |xs| && xs[index] == LeafText(o, child))
        && if index + 1 == ArraySize(es) then final == WriteWithIndent(d, outer, "]")
           else LinesLeft(xs, es, Next(es, j, index), index + 1, d + ",", outer, buffered, final)
    {
      hide Height, HeightEntries, KeyLess, LeafText, LeafTexts, WriteWithIndent, StyledElement, StyledElements, At,
        Cursor;
      AtCursor(es, j, index);
      ElementTurn(es, j, index, doc, outer, buffered);
      CursorEnd(es, Next(es, j, index), index + 1);
      if buffered {
        assert xs[index] == xs[index..][0] && xs[index + 1..] == xs[index..][1..];
      }
    }

    /** One line of it: the text from the buffer if there is one, else the element itself. */
    method WriteLine(childValue: Value, index: nat, hasChildValue: bool, ghost outer: string)
      requires Valid(childValue) && !addChildValues && indentString == outer + INDENT
      requires hasChildValue ==> index < |childValues| && childValues[index] == LeafText(o, childValue)
      modifies this
      ensures indentString == old(indentString) && !addChildValues
      ensures hasChildValue ==> childValues == old(childValues)
      ensures document == StyledElement(o, childValue, old(document), outer, hasChildValue)
      decreases Height(childValue), 4
    {
      hide StyledDoc, WriteIndent, WriteWithIndent, LeafText, Valid;
      if hasChildValue {
        AppendWithIndent(childValues[index]);
      } else {
        AppendIndent();
        WriteValue(childValue);
      }
    }

    lemma ValidAt(es: seq<Entry>, index: nat)
      requires forall e :: e in es ==> Valid(e.value)
      ensures Valid(At(es, Index(index)))
    {
      FindValid(es, Index(index));
    }

    lemma {:induction false} FindValid(es: seq<Entry>, key: Key)
      requires forall e :: e in es ==> Valid(e.value)
      ensures Find(es, key).Some? ==> Valid(Find(es, key).value)
    {
      if es != [] {
        assert es[0] in es;
        FindValid(es[1..], key);
      }
    }

    /** One turn of the loop over lines: what the element at `index` does to the document. */
    lemma ElementTurn(es: seq<Entry>, j: nat, index: nat, doc: string, indent: string, buffered: bool)
      requires Sorted(es) && Cursor(es, j, index) && index < ArraySize(es) && j < |es|
      requires At(es, Index(index)) == if es[j].key.index == index then es[j].value else NULL_VALUE
      ensures var k := Next(es, j, index);
        var child := At(es, Index(index));
        var d := StyledElement(o, child, doc, indent, buffered);
        && (buffered ==> LeafTexts(o, es[j..], index) == [LeafText(o, child)] + LeafTexts(o, es[k..], index + 1))
        && (k == |es| ==> StyledElements(o, es[j..], index, doc, indent, buffered) == WriteWithIndent(d, indent, "]"))
        && (k < |es| ==>
              StyledElements(o, es[j..], index, doc, indent, buffered)
              == StyledElements(o, es[k..], index + 1, d + ",", indent, buffered))
    {
      hide KeyLess, Sorted, WriteIndent;
      assert es[j..][1..] == es[j + 1..];
      assert IsHole(es[j..], index) <==> es[j].key.index > index;
    }

    /** The branch of writeArrayValue for a single line. */
    method WriteOneLine(ghost xs: seq<string>)
      requires !addChildValues && childValues == xs
      modifies `document
      ensures document == old(document) + "[ " + LineFrom(xs)
    {
      ghost var final := document + "[ " + LineFrom(xs);
      document := document + "[ ";
      var index := 0;
      assert childValues[0..] == xs;
      while index < |childValues|
        invariant 0 <= index <= |childValues|
        invariant document + LineLeft(xs, index) == final
      {
        LineStep(xs, index);
        Append3(document, CommaSpaceIf(index), xs[index], LineLeft(xs, index + 1));
        if index > 0 {
          document := document + ", ";
        } else {
          assert document + "" == document;
        }
        document := document + childValues[index];
        index := index + 1;
      }
      document := document + " ]";
    }

    function CommaSpaceIf(index: nat): string { if index > 0 then ", " else "" }

    ghost function LineLeft(xs: seq<string>, index: nat): string
      requires index <= |xs|
    {
      if index == |xs| then " ]" else CommaSpaceIf(index) + LineFrom(xs[index..])
    }

    lemma LineStep(xs: seq<string>, index: nat)
      requires index < |xs|
      ensures LineLeft(xs, index) == CommaSpaceIf(index) + xs[index] + LineLeft(xs, index + 1)
    {
      assert xs[index..][1..] == xs[index + 1..];
    }

    /** Decides the layout and, unless several lines are certain, fills the buffer with exactly
        one text per index, holes included. */
    method IsMultilineArray(value: Value, es: seq<Entry>) returns (isMultiLine: bool)
      requires Valid(value) && value.payload == Array(es) && es != [] && !addChildValues
      modifies this
      ensures document == old(document) && indentString == old(indentString) && !addChildValues
      ensures isMultiLine == IsMultiLine(o, es)
      ensures childValues == if SurelyMultiLine(es) then [] else LeafTexts(o, es, 0)
      decreases Height(value), 1
    {
      hide Height, HeightEntries, Valid, KeyLess, LeafText, LeafTexts, TotalLength, At, Cursor;
      HeightOfChild(value, es);
      StartCursor(es);
      var size := ArraySize(es);
      isMultiLine := size * 3 >= RIGHT_MARGIN;
      childValues := [];
      var index := 0;
      ghost var j: nat := 0;
      while index < size && !isMultiLine
        invariant 0 <= index <= size && Cursor(es, j, index) && j <= |es|
        invariant document == old(document) && indentString == old(indentString) && !addChildValues && childValues == []
        invariant isMultiLine ==> SurelyMultiLine(es)
        invariant !isMultiLine ==> size * 3 < RIGHT_MARGIN && forall i :: 0 <= i < j ==> IsLeaf(es[i].value)
      {
        AtCursor(es, j, index);
        var childValue := At(es, Index(index));
        isMultiLine := !IsLeaf(childValue);
        assert es[j] in es;
        j := Next(es, j, index);
        index := index + 1;
      }
      if !isMultiLine {
        CursorEnd(es, j, index);
        assert AllLeaves(es) && !SurelyMultiLine(es);
        var lineLength := FillBuffer(value, es);
        isMultiLine := lineLength >= RIGHT_MARGIN;
      }
    }

    /** The second loop of isMultineArray. */
    method FillBuffer(value: Value, es: seq<Entry>) returns (lineLength: int)
      requires Valid(value) && value.payload == Array(es) && es != [] && AllLeaves(es)
      requires !addChildValues && childValues == []
      modifies this
      ensures document == old(document) && indentString == old(indentString) && !addChildValues
      ensures childValues == LeafTexts(o, es, 0)
      ensures lineLength == 4 + (ArraySize(es) - 1) * 2 + TotalLength(childValues)
      decreases Height(value), 0
    {
      hide Height, HeightEntries, Valid, KeyLess, LeafText, LeafTexts, StyledDoc, At, Cursor, IsLeaf;
      HeightOfChild(value, es);
      StartCursor(es);
      addChildValues := true;
      var size := ArraySize(es);
      lineLength := 4 + (size - 1) * 2;
      var index := 0;
      ghost var j: nat := 0;
      while index < size
        invariant 0 <= index <= size && Cursor(es, j, index) && j <= |es|
        invariant addChildValues && document == old(document) && indentString == old(indentString)
        invariant |childValues| == index && childValues + LeafTexts(o, es[j..], index) == LeafTexts(o, es, 0)
        invariant lineLength == 4 + (size - 1) * 2 + TotalLength(childValues)
      {
        AtCursor(es, j, index);
        LeafTurn(es, j, index);
        ValidAt(es, index);
        var childValue := At(es, Index(index));
        ghost var k := Next(es, j, index);
        ghost var before := childValues;
        Shift(before, LeafText(o, childValue), LeafTexts(o, es[k..], index + 1));
        WriteValue(childValue);
        lineLength := lineLength + |childValues[index]|;
        assert childValues[..index] == before;
        j := k;
        index := index + 1;
      }
      CursorEnd(es, j, index);
      NoLeafTexts(es[j..], index);
      assert childValues + [] == childValues;
      addChildValues := false;
    }

    lemma Shift(a: seq<string>, x: string, b: seq<string>)
      ensures a + ([x] + b) == (a + [x]) + b
    {
    }

    lemma NoLeafTexts(es: seq<Entry>, next: nat)
      requires es == []
      ensures LeafTexts(o, es, next) == []
    {
    }

    lemma LeafTurn(es: seq<Entry>, j: nat, index: nat)
      requires Sorted(es) && AllLeaves(es) && Cursor(es, j, index) && index < ArraySize(es) && j < |es|
      requires At(es, Index(index)) == if es[j].key.index == index then es[j].value else NULL_VALUE
      ensures IsLeaf(At(es, Index(index)))
      ensures LeafTexts(o, es[j..], index)
        == [LeafText(o, At(es, Index(index)))] + LeafTexts(o, es[Next(es, j, index)..], index + 1)
    {
      hide StyledElements, StyledDoc;
      assert es[j] in es;
      ElementTurn(es, j, index, "", "", true);
    }
  }

  lemma {:induction false} LeafTextsLength(o: Options, es: seq<Entry>, next: nat)
    requires Sorted(es) && Cursor(es, 0, next)
    ensures es != [] ==> |LeafTexts(o, es, next)| == ArraySize(es) - next
    ensures es == [] ==> LeafTexts(o, es, next) == []
    decreases es, Gap(es, next)
  {
    if es != [] {
      if IsHole(es, next) {
        LeafTextsLength(o, es, next + 1);
      } else if |es| > 1 {
        AtCursor(es, 0, next);
        LeafTextsLength(o, es[1..], next + 1);
      } else {
        assert LeafTexts(o, es[1..], next + 1) == [];
      }
    }
  }
}
