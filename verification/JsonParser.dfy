/** What the recursive reader computes: the value tree with offsets, the rest of the input, the
    stack depth counter and the error list. Default features; comments are skipped. */
module JsonParser {
  import opened Optional
  import opened JsonValue
  import opened JsonNumbers
  import opened JsonStrings
  import opened JsonLexer

  const STACK_LIMIT := 1000

  /** The length of the document, and the library's text-to-double conversion (None when the
      stream extraction fails). */
  datatype Env = Env(length: int, toDouble: string -> Option<real>) {
    function Offset(location: string): int { length - |location| }
  }

  datatype Error = Error(message: Message, start: int, end: int)

  datatype Result =
    | Throw
    | Ret(ok: bool, value: Value, rest: string, depth: int, errors: seq<Error>)

  function ErrorAt(env: Env, message: Message, t: Token): seq<Error> {
    [Error(message, env.Offset(t.start), env.Offset(t.rest))]
  }

  function Located(env: Env, v: Value, t: Token): Value {
    v.(start := env.Offset(t.start), limit := env.Offset(t.rest))
  }

  /** The payload of a number token, or None when neither decoder accepts it. */
  function DecodeNumber(env: Env, text: string): Option<Payload> {
    match IntegerOf(text)
    case Some(p) => Some(p)
    case None =>
      match env.toDouble(text)
      case Some(r) => Some(Real(r))
      case None => None
  }

  /** The characters between the quotes of a string token. */
  function Content(text: string): string {
    if |text| >= 2 then text[1..|text| - 1] else ""
  }

  function Scalar(env: Env, t: Token, payload: Payload, depth: int): Result {
    Ret(true, Located(env, Value(payload, 0, 0), t), t.rest, depth, [])
  }

  /** Success leaves no error and the depth counter where it was; failure leaves exactly one
      error and the counter at most one too high. */
  predicate Tidy(r: Result, depth: int)
    requires r.Ret?
  {
    if r.ok then r.errors == [] && r.depth == depth
    else |r.errors| == 1 && depth <= r.depth <= depth + 1
  }

  /** The cases of readValue that read no further value. */
  function ReadScalar(env: Env, t: Token, cur: Value, depth: int): (r: Result)
    ensures r.Ret? && r.rest == t.rest && Tidy(r, depth)
  {
    match t.kind
    case NumberToken =>
      (match DecodeNumber(env, t.Text())
       case Some(p) => Scalar(env, t, p, depth)
       case None => Ret(false, cur, t.rest, depth, ErrorAt(env, NotANumber, t)))
    case StringToken =>
      (match Unescape(Content(t.Text()))
       case Decoded(x) => Scalar(env, t, Str(x), depth)
       case Malformed(m) => Ret(false, cur, t.rest, depth, ErrorAt(env, m, t)))
    case TrueToken => Scalar(env, t, Bool(true), depth)
    case FalseToken => Scalar(env, t, Bool(false), depth)
    case NullToken => Scalar(env, t, Null, depth)
    // The early return leaves the depth counter incremented.
    case _ => Ret(false, Located(env, cur, t), t.rest, depth + 1, ErrorAt(env, ValueExpected, t))
  }

  function WithLimit(env: Env, r: Result): Result {
    if r.Throw? then r
    else r.(value := r.value.(limit := env.Offset(r.rest)), depth := r.depth - 1)
  }

  /** readValue: `cur` is the value that the top of the node stack holds on entry. */
  function ReadValue(env: Env, s: string, cur: Value, depth: int): (r: Result)
    ensures r.Ret? ==> |r.rest| <= |s| && Tidy(r, depth)
    decreases |s|, 1
  {
    if depth >= STACK_LIMIT then Throw
    else
      var t := SkipComments(s);
      if t.kind == ObjectBegin then WithLimit(env, ReadObject(env, t, cur, depth + 1))
      else if t.kind == ArrayBegin then WithLimit(env, ReadArray(env, t, cur, depth + 1))
      else ReadScalar(env, t, cur, depth)
  }

  function Fail(env: Env, v: Value, s: string, until: TokenKind, depth: int, errors: seq<Error>): Result {
    Ret(false, v, Recover(s, until), depth, errors)
  }

  function ReadObject(env: Env, t: Token, cur: Value, depth: int): (r: Result)
    ensures r.Ret? ==> |r.rest| <= |t.rest| && Tidy(r, depth)
    decreases |t.rest|, 3
  {
    ReadMembers(env, t.rest, Value(Object([]), env.Offset(t.start), cur.limit), "", depth)
  }

  function Entries(v: Value): seq<Entry> {
    match v.payload
    case Array(es) => es
    case Object(es) => es
    case _ => []
  }

  function PutMember(v: Value, name: string, child: Value): Value {
    v.(payload := Object(Put(Entries(v), Name(name), child)))
  }

  function PutElement(v: Value, index: nat, child: Value): Value {
    v.(payload := Array(Put(Entries(v), Index(index), child)))
  }

  function PutChild(v: Value, key: Key, child: Value): Value {
    match key
    case Name(n) => PutMember(v, n, child)
    case Index(i) => PutElement(v, i, child)
  }

  /** The loop of readObject: `v` is the object so far and `name` the previous member's name. */
  function ReadMembers(env: Env, s: string, v: Value, name: string, depth: int): (r: Result)
    ensures r.Ret? ==> |r.rest| <= |s| && Tidy(r, depth)
    decreases |s|, 2
  {
    var tokenName := SkipComments(s);
    if tokenName.kind == ObjectEnd && name == "" then Ret(true, v, tokenName.rest, depth, [])
    else if tokenName.kind != StringToken then
      Fail(env, v, tokenName.rest, ObjectEnd, depth, ErrorAt(env, MissingBraceOrName, tokenName))
    else
      match Unescape(Content(tokenName.Text()))
      case Malformed(m) => Fail(env, v, tokenName.rest, ObjectEnd, depth, ErrorAt(env, m, tokenName))
      case Decoded(key) =>
        var colon := ReadToken(tokenName.rest);
        if colon.kind != MemberSeparator then
          Fail(env, v, colon.rest, ObjectEnd, depth, ErrorAt(env, MissingColon, colon))
        else
          var r := ReadValue(env, colon.rest, At(Entries(v), Name(key)), depth);
          if r.Throw? then r
          else
            var w := PutMember(v, key, r.value);
            if !r.ok then Fail(env, w, r.rest, ObjectEnd, r.depth, r.errors)
            else
              var comma := ReadToken(r.rest);
              if comma.kind !in {ObjectEnd, ArraySeparator, Comment} then
                Fail(env, w, comma.rest, ObjectEnd, r.depth, ErrorAt(env, MissingCommaOrBrace, comma))
              else
                // After a comment any token but '}' passes for a comma.
                var last := if comma.kind == Comment then SkipComments(comma.rest) else comma;
                if last.kind == ObjectEnd then Ret(true, w, last.rest, r.depth, [])
                else ReadMembers(env, last.rest, w, key, r.depth)
  }

  function ReadArray(env: Env, t: Token, cur: Value, depth: int): (r: Result)
    ensures r.Ret? ==> |r.rest| <= |t.rest| && Tidy(r, depth)
    decreases |t.rest|, 3
  {
    var v := Value(Array([]), env.Offset(t.start), cur.limit);
    var s := SkipSpaces(t.rest);
    if Peek(s) == ']' then Ret(true, v, ReadToken(s).rest, depth, [])
    else ReadElements(env, s, v, 0, depth)
  }

  function ReadElements(env: Env, s: string, v: Value, index: nat, depth: int): (r: Result)
    ensures r.Ret? ==> |r.rest| <= |s| && Tidy(r, depth)
    decreases |s|, 2
  {
    var r := ReadValue(env, s, At(Entries(v), Index(index)), depth);
    if r.Throw? then r
    else
      var w := PutElement(v, index, r.value);
      if !r.ok then Fail(env, w, r.rest, ArrayEnd, r.depth, r.errors)
      else
        var t := SkipComments(r.rest);
        if t.kind == ArrayEnd then Ret(true, w, t.rest, r.depth, [])
        else if t.kind == ArraySeparator then ReadElements(env, t.rest, w, index + 1, r.depth)
        else Fail(env, w, t.rest, ArrayEnd, r.depth, ErrorAt(env, MissingCommaOrBracket, t))
  }

  /** parse: the whole document, starting from the root value handed in. */
  function Parse(toDouble: string -> Option<real>, doc: string, root: Value): Result {
    ReadValue(Env(|doc|, toDouble), doc, root, 0)
  }
}
