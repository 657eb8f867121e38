/** Which member an object keeps when a name occurs more than once in the document. */
module JsonDuplicates {
  import opened Optional
  import opened JsonValue
  import opened JsonStrings
  import opened JsonLexer
  import opened JsonParser

  // ---- The members of a document text ----

  datatype Member = Member(name: string, value: Value)

  /** The members met behind the opening brace or a comma, in the order of the document, each value
      read by itself. */
  function Members(env: Env, s: string, depth: int): seq<Member>
    decreases |s|
  {
    var t := SkipComments(s);
    if t.kind != StringToken then []
    else match Unescape(Content(t.Text()))
      case Malformed(_) => []
      case Decoded(name) =>
        var colon := ReadToken(t.rest);
        if colon.kind != MemberSeparator then []
        else
          var r := ReadValue(env, colon.rest, NULL_VALUE, depth);
          if r.Throw? || !r.ok then []
          else [Member(name, r.value)] + MembersAfter(env, r.rest, depth)
  }

  /** The members behind a value: none after the closing brace. */
  function MembersAfter(env: Env, s: string, depth: int): seq<Member>
    decreases |s|
  {
    var comma := ReadToken(s);
    if comma.kind !in {ObjectEnd, ArraySeparator, Comment} then []
    else
      var last := if comma.kind == Comment then SkipComments(comma.rest) else comma;
      if last.kind == ObjectEnd then [] else Members(env, last.rest, depth)
  }

  /** The value of the last member with a name. */
  function LastOf(ms: seq<Member>, name: string): Option<Value> {
    if ms == [] then None
    else match LastOf(ms[1..], name)
      case Some(v) => Some(v)
      case None => if ms[0].name == name then Some(ms[0].value) else None
  }

  lemma {:induction false} LastOfMeans(ms: seq<Member>, name: string) returns (i: nat)
    ensures match LastOf(ms, name)
      case Some(v) => i < |ms| && ms[i] == Member(name, v) && forall j :: i < j < |ms| ==> ms[j].name != name
      case None => forall j :: 0 <= j < |ms| ==> ms[j].name != name
  {
    i := 0;
    if ms != [] {
      var k := LastOfMeans(ms[1..], name);
      i := if LastOf(ms[1..], name).Some? then k + 1 else 0;
      forall j | 0 < j < |ms| ensures ms[j] == ms[1..][j - 1] {
      }
    }
  }

  // ---- A successful read does not depend on the value it starts from ----

  function WithLimitSet(r: Result, limit: int): Result {
    if r.Throw? then r else r.(value := r.value.(limit := limit))
  }

  lemma {:induction false} MembersIgnoreLimit(env: Env, s: string, v: Value, limit: int, name: string, depth: int)
    ensures ReadMembers(env, s, v.(limit := limit), name, depth)
      == WithLimitSet(ReadMembers(env, s, v, name, depth), limit)
    decreases |s|
  {
    hide ReadValue, SkipComments, ReadToken, Unescape, Content, Put, Find, Recover;
    var t := SkipComments(s);
    if t.kind == StringToken && Unescape(Content(t.Text())).Decoded? {
      var key := Unescape(Content(t.Text())).text;
      var colon := ReadToken(t.rest);
      if colon.kind == MemberSeparator {
        var r := ReadValue(env, colon.rest, At(Entries(v), Name(key)), depth);
        if r.Ret? && r.ok {
          var comma := ReadToken(r.rest);
          if comma.kind in {ObjectEnd, ArraySeparator, Comment} {
            var last := if comma.kind == Comment then SkipComments(comma.rest) else comma;
            if last.kind != ObjectEnd {
              MembersIgnoreLimit(env, last.rest, PutMember(v, key, r.value), limit, key, r.depth);
            }
          }
        }
      }
    }
  }

  lemma {:induction false} ElementsIgnoreLimit(env: Env, s: string, v: Value, limit: int, index: nat, depth: int)
    ensures ReadElements(env, s, v.(limit := limit), index, depth)
      == WithLimitSet(ReadElements(env, s, v, index, depth), limit)
    decreases |s|
  {
    hide ReadValue, SkipComments, Put, Find, Recover;
    var r := ReadValue(env, s, At(Entries(v), Index(index)), depth);
    if r.Ret? && r.ok {
      var t := SkipComments(r.rest);
      if t.kind == ArraySeparator {
        ElementsIgnoreLimit(env, t.rest, PutElement(v, index, r.value), limit, index + 1, r.depth);
      }
    }
  }

  lemma ReadIgnoresStart(env: Env, s: string, cur: Value, depth: int)
    ensures var r := ReadValue(env, s, cur, depth);
      var r' := ReadValue(env, s, NULL_VALUE, depth);
      r.Throw? == r'.Throw? && (r.Ret? ==> r.ok == r'.ok) && (r.Ret? && r.ok ==> r == r')
  {
    hide SkipComments, ReadMembers, ReadElements, Unescape, Content, DecodeNumber, ReadToken;
    var t := SkipComments(s);
    if t.kind == ObjectBegin {
      MembersIgnoreLimit(env, t.rest, Value(Object([]), env.Offset(t.start), cur.limit), 0, "", depth + 1);
    } else if t.kind == ArrayBegin {
      ElementsIgnoreLimit(env, SkipSpaces(t.rest), Value(Array([]), env.Offset(t.start), cur.limit), 0, 0, depth + 1);
    }
  }

  // ---- The last one is kept ----

  /** From any members read so far: of those to come the last with a name is kept, and a name that
      does not come keeps its value. */
  lemma {:induction false} ReadKeepsLast(env: Env, s: string, v: Value, name: string, depth: int, q: string)
    requires v.payload.Object? && Sorted(Entries(v))
    ensures var r := ReadMembers(env, s, v, name, depth);
      r.Ret? && r.ok ==>
        && r.value.payload.Object? && Sorted(Entries(r.value))
        && Find(Entries(r.value), Name(q)) == match LastOf(Members(env, s, depth), q)
           case Some(x) => Some(x)
           case None => Find(Entries(v), Name(q))
    decreases |s|
  {
    hide ReadValue, SkipComments, ReadToken, Unescape, Content, Put, Find, Recover, Sorted;
    var t := SkipComments(s);
    if t.kind == StringToken && Unescape(Content(t.Text())).Decoded? {
      var key := Unescape(Content(t.Text())).text;
      var colon := ReadToken(t.rest);
      if colon.kind == MemberSeparator {
        var cur := At(Entries(v), Name(key));
        ReadIgnoresStart(env, colon.rest, cur, depth);
        var r := ReadValue(env, colon.rest, cur, depth);
        if r.Ret? && r.ok {
          PutIsMapUpdate(Entries(v), Name(key), r.value, Name(q));
          var w := PutMember(v, key, r.value);
          var more := MembersAfter(env, r.rest, depth);
          assert ([Member(key, r.value)] + more)[1..] == more;
          var comma := ReadToken(r.rest);
          if comma.kind in {ObjectEnd, ArraySeparator, Comment} {
            var last := if comma.kind == Comment then SkipComments(comma.rest) else comma;
            if last.kind != ObjectEnd {
              ReadKeepsLast(env, last.rest, w, key, r.depth, q);
            }
          }
        }
      }
    }
  }

  lemma ObjectKeepsLast(env: Env, t: Token, cur: Value, depth: int, name: string)
    ensures var r := ReadObject(env, t, cur, depth);
      r.Ret? && r.ok ==>
        && r.value.payload.Object?
        && Find(Entries(r.value), Name(name)) == LastOf(Members(env, t.rest, depth), name)
  {
    hide ReadMembers, Members, LastOf;
    ReadKeepsLast(env, t.rest, Value(Object([]), env.Offset(t.start), cur.limit), "", depth, name);
  }

  /** When a document is accepted as an object, its member of any name is the last one of that name
      in the document, and a name that does not occur is not a member. */
  lemma LastDuplicateWins(toDouble: string -> Option<real>, doc: string, root: Value, name: string)
    requires var r := Parse(toDouble, doc, root); r.Ret? && r.ok && r.value.payload.Object?
    ensures var t := SkipComments(doc);
      t.kind == ObjectBegin &&
      Find(Entries(Parse(toDouble, doc, root).value), Name(name))
        == LastOf(Members(Env(|doc|, toDouble), t.rest, 1), name)
  {
    hide ReadValue, Members, SkipComments, ReadObject, Find, LastOf;
    ObjectIsBraced(Env(|doc|, toDouble), doc, root);
    ObjectKeepsLast(Env(|doc|, toDouble), SkipComments(doc), root, 1, name);
  }

  lemma ObjectIsBraced(env: Env, s: string, cur: Value)
    requires var r := ReadValue(env, s, cur, 0); r.Ret? && r.ok && r.value.payload.Object?
    ensures var t := SkipComments(s);
      t.kind == ObjectBegin && ReadValue(env, s, cur, 0) == WithLimit(env, ReadObject(env, t, cur, 1))
  {
    hide SkipComments, ReadObject, ReadArray, ReadScalar;
    var t := SkipComments(s);
    ArrayIsNoObject(env, t, cur, 1);
    ScalarIsNoObject(env, t, cur, 0);
  }

  lemma ScalarIsNoObject(env: Env, t: Token, cur: Value, depth: int)
    ensures var r := ReadScalar(env, t, cur, depth); r.ok ==> !r.value.payload.Object?
  {
    hide Unescape, Content;
  }

  lemma ArrayIsNoObject(env: Env, t: Token, cur: Value, depth: int)
    ensures var r := ReadArray(env, t, cur, depth); r.Ret? ==> !r.value.payload.Object?
  {
    hide ReadElements;
    ElementsStayArray(env, SkipSpaces(t.rest), Value(Array([]), env.Offset(t.start), cur.limit), 0, depth);
  }

  lemma {:induction false} ElementsStayArray(env: Env, s: string, v: Value, index: nat, depth: int)
    requires v.payload.Array?
    ensures var r := ReadElements(env, s, v, index, depth); r.Ret? ==> r.value.payload.Array?
    decreases |s|
  {
    hide ReadValue, SkipComments, Put, Find, Recover;
    var r := ReadValue(env, s, At(Entries(v), Index(index)), depth);
    if r.Ret? && r.ok {
      var t := SkipComments(r.rest);
      if t.kind == ArraySeparator {
        ElementsStayArray(env, t.rest, PutElement(v, index, r.value), index + 1, r.depth);
      }
    }
  }
}
