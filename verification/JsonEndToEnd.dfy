/** The writers and the reader together, as objects. */
module JsonEndToEnd {
  import opened Optional
  import opened JsonValue
  import opened JsonParser
  import opened JsonWriters
  import opened JsonStyled
  import opened JsonWriterClasses
  import opened JsonReader

  /** A value written by the compact writer and parsed into some root comes back in normal form
      when it nests no deeper than the reader allows, and is refused by the exception otherwise. */
  method WriteFastAndParse(o: Options, toDouble: string -> Option<real>, v: Value, root: Value)
    returns (ok: bool, thrown: bool, back: Value)
    requires Valid(v) && Plain(v) && !o.dropNulls
    ensures thrown <==> Height(v) > STACK_LIMIT
    ensures !thrown ==> ok && Strip(back) == Normal(v)
  {
    hide FastWrite, Parse, Normal, Strip, Height;
    var writer := new FastWriter(o);
    var text := writer.Write(v);
    var reader := new Reader(toDouble);
    ok, thrown, back := reader.Parse(text, root);
    FastRoundTrip(o, toDouble, v, root);
  }

  /** The same through the styled writer, which cuts member names at NULs: the normal form itself
      comes back if and only if no name holds one. */
  method WriteStyledAndParse(o: Options, toDouble: string -> Option<real>, v: Value, root: Value)
    returns (ok: bool, thrown: bool, back: Value)
    requires Valid(v) && Plain(v)
    ensures thrown <==> Height(v) > STACK_LIMIT
    ensures !thrown ==> ok && Strip(back) == Normal(CutKeys(v)) && (Strip(back) == Normal(v) <==> NoNulKeys(v))
  {
    hide StyledWrite, Parse, Normal, Strip, Height, CutKeys, NoNulKeys;
    var writer := new StyledWriter(o);
    var text := writer.Write(v);
    var reader := new Reader(toDouble);
    ok, thrown, back := reader.Parse(text, root);
    StyledRoundTrip(o, toDouble, v, root);
  }

  // ---- The buffer of a report ----

  /** The array of strings built from a vector of records by appending one after the other. */
  function ArrayOf(records: seq<string>): Value {
    Value(Array(Elements(records)), 0, 0)
  }

  function Elements(records: seq<string>): (es: seq<Entry>)
    ensures |es| == |records|
    ensures forall i :: 0 <= i < |es| ==> es[i] == Entry(Index(i), Value(Str(records[i]), 0, 0))
  {
    seq(|records|, i requires 0 <= i < |records| => Entry(Index(i), Value(Str(records[i]), 0, 0)))
  }

  /** `value.append(text)` for every record, as a loop. */
  method BuildArray(records: seq<string>) returns (v: Value)
    ensures v == ArrayOf(records)
  {
    hide Put;
    v := Value(Array([]), 0, 0);
    var i := 0;
    while i < |records|
      invariant 0 <= i <= |records| && v == ArrayOf(records[..i])
    {
      PutLast(Elements(records[..i]), Index(i), Value(Str(records[i]), 0, 0));
      var size := ArraySize(v.payload.entries);
      v := v.(payload := Array(Put(v.payload.entries, Index(size), Value(Str(records[i]), 0, 0))));
      assert Elements(records[..i + 1]) == Elements(records[..i]) + [Entry(Index(i), Value(Str(records[i]), 0, 0))];
      i := i + 1;
    }
    assert records[..i] == records;
  }

  /** The buffer of a report: the records as an array, written by the styled writer. */
  method JsonDataFromDataVector(o: Options, records: seq<string>) returns (text: string)
    ensures text == StyledWrite(o, ArrayOf(records))
  {
    hide StyledWrite;
    var value := BuildArray(records);
    var writer := new StyledWriter(o);
    text := writer.Write(value);
  }

  lemma {:induction false} FlatHeight(es: seq<Entry>)
    requires forall e :: e in es ==> e.value.payload.Str?
    ensures HeightEntries(es) <= 1
  {
    if es != [] {
      FlatHeight(es[1..]);
    }
  }

  lemma {:induction false} NormalStrings(records: seq<string>, from: nat)
    requires from <= |records|
    ensures NormalElements(Elements(records)[from..], from) == Elements(records)[from..]
    decreases |records| - from
  {
    var es := Elements(records)[from..];
    if es != [] {
      NormalStrings(records, from + 1);
      assert es[1..] == Elements(records)[from + 1..];
      assert Normal(es[0].value) == es[0].value;
      assert es == [es[0]] + es[1..];
    }
  }

  /** The JSON buffer of any batch of records, whatever bytes they hold, reads back as exactly
      those records in order. */
  lemma BufferReadsBack(o: Options, toDouble: string -> Option<real>, records: seq<string>, root: Value)
    ensures var r := Parse(toDouble, StyledWrite(o, ArrayOf(records)), root);
      r.Ret? && r.ok && Strip(r.value) == ArrayOf(records)
  {
    hide Parse, StyledWrite;
    var v := ArrayOf(records);
    FlatHeight(Elements(records));
    NormalStrings(records, 0);
    assert Elements(records)[0..] == Elements(records);
    StyledRoundTrip(o, toDouble, v, root);
  }
}
