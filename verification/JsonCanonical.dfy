/** What the reader can produce: trees that are their own normal form and within the stack limit.
    Writing such a tree and reading it again is therefore the identity. */
module JsonCanonical {
  import opened Optional
  import opened JsonValue
  import opened JsonStrings
  import opened JsonLexer
  import opened JsonParser
  import opened JsonWriters
  import opened JsonStyled

  /** Integers tagged by size, arrays without holes, objects sorted by member name. */
  ghost predicate Canonical(v: Value) {
    match v.payload
    case Int(i) => -TWO_63 <= i <= MAX_INT
    case UInt(u) => MAX_INT < u < TWO_64
    case NullStr => false
    case Array(es) => Dense(es) && forall e :: e in es ==> Canonical(e.value)
    case Object(es) => Sorted(es) && AllNamed(es) && forall e :: e in es ==> Canonical(e.value)
    case _ => true
  }

  ghost predicate AllCanonical(es: seq<Entry>) { forall e :: e in es ==> Canonical(e.value) }

  predicate Dense(es: seq<Entry>) { forall i :: 0 <= i < |es| ==> es[i].key == Index(i) }

  predicate AllNamed(es: seq<Entry>) { forall e :: e in es ==> e.key.Name? }

  // ---- Canonical trees are valid and their own normal form ----

  lemma {:induction false} CanonicalIsNormal(v: Value)
    requires Canonical(v)
    ensures Valid(v) && Normal(v) == Strip(v)
  {
    match v.payload
    case Array(es) =>
      DenseIsNormal(es, 0);
    case Object(es) =>
      NamedIsNormal(es);
      SortedStrip(es);
    case _ =>
  }

  lemma {:induction false} DenseIsNormal(es: seq<Entry>, next: nat)
    requires AllCanonical(es) && forall i :: 0 <= i < |es| ==> es[i].key == Index(next + i)
    ensures NormalElements(es, next) == StripEntries(es)
    ensures Sorted(es) && forall e :: e in es ==> e.key.Index? && Valid(e.value)
  {
    hide Valid, Normal, Strip;
    if es != [] {
      assert es[0].value < es[0];
      CanonicalIsNormal(es[0].value);
      DenseIsNormal(es[1..], next + 1);
    }
  }

  lemma SortedStrip(es: seq<Entry>)
    requires Sorted(es)
    ensures Merged([], StripEntries(es)) == StripEntries(es)
  {
    StripKeys(es);
    assert [] + StripEntries(es) == StripEntries(es);
    SortedMerge([], StripEntries(es));
  }

  lemma {:induction false} StripKeys(es: seq<Entry>)
    ensures |StripEntries(es)| == |es|
    ensures forall i :: 0 <= i < |es| ==> StripEntries(es)[i].key == es[i].key
  {
    hide Strip;
    if es != [] {
      StripKeys(es[1..]);
    }
  }

  lemma {:induction false} NamedIsNormal(es: seq<Entry>)
    requires AllCanonical(es)
    ensures NormalMembers(es) == StripEntries(es)
    ensures forall e :: e in es ==> Valid(e.value)
  {
    hide Valid, Normal, Strip;
    if es != [] {
      assert es[0].value < es[0];
      CanonicalIsNormal(es[0].value);
      NamedIsNormal(es[1..]);
    }
  }

  // ---- What one more child adds ----

  lemma {:induction false} PutEntries(es: seq<Entry>, key: Key, v: Value)
    ensures forall e :: e in Put(es, key, v) ==> e in es || e == Entry(key, v)
    ensures HeightEntries(Put(es, key, v)) <= Max(HeightEntries(es), Height(v))
  {
    hide KeyLess, Height;
    if es != [] {
      PutEntries(es[1..], key, v);
    }
  }

  lemma DensePut(es: seq<Entry>, v: Value)
    requires Dense(es)
    ensures Put(es, Index(|es|), v) == es + [Entry(Index(|es|), v)] && Dense(Put(es, Index(|es|), v))
  {
    PutLast(es, Index(|es|), v);
  }

  // ---- The reader produces canonical trees ----

  /** A successful result is canonical and nests only as deep as the stack still allowed. */
  ghost predicate ReadsCanonical(r: Result, room: int) {
    r.Ret? && r.ok ==> Canonical(r.value) && Height(r.value) <= room
  }

  lemma {:induction false} ReadIsCanonical(env: Env, s: string, cur: Value, depth: int)
    ensures ReadsCanonical(ReadValue(env, s, cur, depth), STACK_LIMIT - depth)
    decreases |s|, 1
  {
    hide ReadObject, ReadArray, ReadScalar, SkipComments, Canonical, Height, WithLimit;
    var t := SkipComments(s);
    if depth < STACK_LIMIT {
      if t.kind == ObjectBegin {
        ObjectIsCanonical(env, t, cur, depth + 1);
        LimitAside(env, ReadObject(env, t, cur, depth + 1), STACK_LIMIT - depth);
      } else if t.kind == ArrayBegin {
        ArrayIsCanonical(env, t, cur, depth + 1);
        LimitAside(env, ReadArray(env, t, cur, depth + 1), STACK_LIMIT - depth);
      } else {
        ScalarIsCanonical(env, t, cur, depth);
      }
    }
  }

  lemma LimitAside(env: Env, r: Result, room: int)
    ensures ReadsCanonical(WithLimit(env, r), room) == ReadsCanonical(r, room)
  {
  }

  lemma ScalarIsCanonical(env: Env, t: Token, cur: Value, depth: int)
    ensures var r := ReadScalar(env, t, cur, depth); r.ok ==> Canonical(r.value) && Height(r.value) == 1
  {
    hide Unescape, Token.Text, Content;
  }

  lemma {:induction false} MembersAreCanonical(env: Env, s: string, v: Value, name: string, depth: int)
    requires v.payload.Object? && Canonical(v) && Height(v) <= STACK_LIMIT - depth + 1
    ensures ReadsCanonical(ReadMembers(env, s, v, name, depth), STACK_LIMIT - depth + 1)
    decreases |s|, 2
  {
    hide ReadValue, SkipComments, ReadToken, Unescape, Content, Put, Canonical, Height, At, Recover;
    var t := SkipComments(s);
    if !(t.kind == ObjectEnd && name == "") && t.kind == StringToken {
      match Unescape(Content(t.Text()))
      case Malformed(_) =>
      case Decoded(key) =>
        var colon := ReadToken(t.rest);
        if colon.kind == MemberSeparator {
          var r := ReadValue(env, colon.rest, At(Entries(v), Name(key)), depth);
          ReadIsCanonical(env, colon.rest, At(Entries(v), Name(key)), depth);
          if r.Ret? && r.ok {
            MemberPut(v, key, r.value, STACK_LIMIT - depth);
            var comma := ReadToken(r.rest);
            if comma.kind in {ObjectEnd, ArraySeparator, Comment} {
              var last := if comma.kind == Comment then SkipComments(comma.rest) else comma;
              if last.kind != ObjectEnd {
                MembersAreCanonical(env, last.rest, PutMember(v, key, r.value), key, r.depth);
              }
            }
          }
        }
    }
  }

  lemma MemberPut(v: Value, name: string, child: Value, room: int)
    requires v.payload.Object? && Canonical(v) && Canonical(child) && Height(v) <= room + 1 && Height(child) <= room
    ensures var w := PutMember(v, name, child); w.payload.Object? && Canonical(w) && Height(w) <= room + 1
  {
    PutEntries(v.payload.entries, Name(name), child);
    PutIsMapUpdate(v.payload.entries, Name(name), child, Name(name));
  }

  lemma {:induction false} ObjectIsCanonical(env: Env, t: Token, cur: Value, depth: int)
    requires depth <= STACK_LIMIT
    ensures ReadsCanonical(ReadObject(env, t, cur, depth), STACK_LIMIT - depth + 1)
    decreases |t.rest|, 3
  {
    hide ReadMembers;
    MembersAreCanonical(env, t.rest, Value(Object([]), env.Offset(t.start), cur.limit), "", depth);
  }

  lemma {:induction false} ArrayIsCanonical(env: Env, t: Token, cur: Value, depth: int)
    requires depth <= STACK_LIMIT
    ensures ReadsCanonical(ReadArray(env, t, cur, depth), STACK_LIMIT - depth + 1)
    decreases |t.rest|, 3
  {
    hide ReadElements, ReadToken, SkipSpaces;
    var v := Value(Array([]), env.Offset(t.start), cur.limit);
    var s := SkipSpaces(t.rest);
    ElementsAreCanonical(env, s, v, 0, depth);
  }

  lemma {:induction false} ElementsAreCanonical(env: Env, s: string, v: Value, index: nat, depth: int)
    requires v.payload.Array? && Canonical(v) && |Entries(v)| == index && Height(v) <= STACK_LIMIT - depth + 1
    ensures ReadsCanonical(ReadElements(env, s, v, index, depth), STACK_LIMIT - depth + 1)
    decreases |s|, 2
  {
    hide ReadValue, SkipComments, Put, Canonical, Height, At, Recover;
    var r := ReadValue(env, s, At(Entries(v), Index(index)), depth);
    ReadIsCanonical(env, s, At(Entries(v), Index(index)), depth);
    if r.Ret? && r.ok {
      ElementPut(v, r.value, STACK_LIMIT - depth);
      var t := SkipComments(r.rest);
      if t.kind == ArraySeparator {
        ElementsAreCanonical(env, t.rest, PutElement(v, index, r.value), index + 1, r.depth);
      }
    }
  }

  lemma ElementPut(v: Value, child: Value, room: int)
    requires v.payload.Array? && Canonical(v) && Canonical(child) && Height(v) <= room + 1 && Height(child) <= room
    ensures var w := PutElement(v, |Entries(v)|, child);
      w.payload.Array? && Canonical(w) && |Entries(w)| == |Entries(v)| + 1 && Height(w) <= room + 1
  {
    var es := v.payload.entries;
    PutEntries(es, Index(|es|), child);
    DensePut(es, child);
  }

  // ---- Main results ----

  /** Whatever document is accepted, its value is canonical and nests at most 1000 deep. */
  lemma ParseIsCanonical(toDouble: string -> Option<real>, doc: string, root: Value)
    ensures var r := Parse(toDouble, doc, root);
      r.Ret? && r.ok ==> Canonical(r.value) && Height(r.value) <= STACK_LIMIT
  {
    hide ReadValue;
    ReadIsCanonical(Env(|doc|, toDouble), doc, root, 0);
  }

  /** Accepted, written by the compact writer and parsed again, a document without reals gives the
      same value: the second reading is never refused and changes nothing. */
  lemma RereadsItself(o: Options, toDouble: string -> Option<real>, doc: string, root: Value, root': Value)
    requires var r := Parse(toDouble, doc, root); r.Ret? && r.ok && Plain(r.value)
    requires !o.dropNulls
    ensures var v := Parse(toDouble, doc, root).value;
      var again := Parse(toDouble, FastWrite(o, v), root');
      again.Ret? && again.ok && again.errors == [] && Strip(again.value) == Strip(v)
  {
    hide Parse, FastWrite, Canonical, Height;
    var v := Parse(toDouble, doc, root).value;
    ParseIsCanonical(toDouble, doc, root);
    CanonicalIsNormal(v);
    FastRoundTrip(o, toDouble, v, root');
  }

  /** The same through the styled writer if and only if no member name holds a NUL; with such names
      the document is accepted too, with the names cut. */
  lemma StyledRereadsItself(o: Options, toDouble: string -> Option<real>, doc: string, root: Value, root': Value)
    requires var r := Parse(toDouble, doc, root); r.Ret? && r.ok && Plain(r.value)
    ensures var v := Parse(toDouble, doc, root).value;
      var again := Parse(toDouble, StyledWrite(o, v), root');
      && again.Ret? && again.ok && again.errors == [] && Strip(again.value) == Normal(CutKeys(v))
      && (Strip(again.value) == Strip(v) <==> NoNulKeys(v))
  {
    hide Parse, StyledWrite, Canonical, Height, CutKeys, NoNulKeys, Normal;
    var v := Parse(toDouble, doc, root).value;
    ParseIsCanonical(toDouble, doc, root);
    CanonicalIsNormal(v);
    StyledRoundTrip(o, toDouble, v, root');
  }
}
