/** The comparison operators on values: a strict total order up to offsets. */
module JsonOrder {
  import opened JsonValue

  /** The numeric value of the type tag. */
  function TypeRank(p: Payload): nat {
    match p
    case Null => 0
    case Int(_) => 1
    case UInt(_) => 2
    case Real(_) => 3
    case Str(_) => 4
    case NullStr => 4
    case Bool(_) => 5
    case Array(_) => 6
    case Object(_) => 7
  }

  /** operator<: by type, then by content; maps by size and then lexicographically. */
  predicate Less(a: Value, b: Value)
    decreases Height(a) + Height(b), 0, 0
  {
    if TypeRank(a.payload) != TypeRank(b.payload) then TypeRank(a.payload) < TypeRank(b.payload)
    else match (a.payload, b.payload)
      case (Int(i), Int(j)) => i < j
      case (UInt(i), UInt(j)) => i < j
      case (Real(x), Real(y)) => x < y
      case (Bool(x), Bool(y)) => !x && y
      case (Str(x), Str(y)) => TextLess(x, y)
      case (NullStr, Str(_)) => true
      case (Array(x), Array(y)) => if |x| != |y| then |x| < |y| else EntriesLess(x, y)
      case (Object(x), Object(y)) => if |x| != |y| then |x| < |y| else EntriesLess(x, y)
      case _ => false
  }

  /** operator< on key-value pairs. */
  predicate PairLess(e: Entry, f: Entry)
    decreases Height(e.value) + Height(f.value), 1, 0
  {
    KeyLess(e.key, f.key) || (!KeyLess(f.key, e.key) && Less(e.value, f.value))
  }

  /** std::lexicographical_compare over pairs. */
  predicate EntriesLess(x: seq<Entry>, y: seq<Entry>)
    decreases HeightEntries(x) + HeightEntries(y), 2, |x|
  {
    if y == [] then false
    else if x == [] then true
    else if PairLess(x[0], y[0]) then true
    else if PairLess(y[0], x[0]) then false
    else EntriesLess(x[1..], y[1..])
  }

  /** operator==. */
  predicate Equal(a: Value, b: Value)
    decreases a
  {
    if TypeRank(a.payload) != TypeRank(b.payload) then false
    else match (a.payload, b.payload)
      case (Int(i), Int(j)) => i == j
      case (UInt(i), UInt(j)) => i == j
      case (Real(x), Real(y)) => x == y
      case (Bool(x), Bool(y)) => x == y
      case (Str(x), Str(y)) => |x| == |y| && Memcmp(x, y, |x|) == 0
      case (Array(x), Array(y)) => |x| == |y| && EntriesEqual(x, y)
      case (Object(x), Object(y)) => |x| == |y| && EntriesEqual(x, y)
      case (p, q) => p == q
  }

  predicate KeyEqual(k: Key, l: Key) {
    match (k, l)
    case (Index(i), Index(j)) => i == j
    case (Name(m), Name(n)) => |m| == |n| && Memcmp(m, n, |m|) == 0
    case _ => false
  }

  predicate EntriesEqual(x: seq<Entry>, y: seq<Entry>)
    requires |x| == |y|
    decreases x
  {
    if x == [] then true
    else
      assert x[0].value < x[0];
      KeyEqual(x[0].key, y[0].key) && Equal(x[0].value, y[0].value) && EntriesEqual(x[1..], y[1..])
  }

  /** compare. */
  function Compare(a: Value, b: Value): int {
    if Less(a, b) then -1 else if Less(b, a) then 1 else 0
  }

  // ---- Equality is identity of the stripped trees ----

  lemma TextEqual(x: string, y: string)
    ensures |x| == |y| && Memcmp(x, y, |x|) == 0 <==> x == y
  {
    MemcmpSame(x, |x|);
    if |x| == |y| && Memcmp(x, y, |x|) == 0 {
      MemcmpZero(x, y, |x|);
      assert x[..|x|] == x && y[..|x|] == y;
    }
  }

  lemma {:induction false} EqualIsIdentity(a: Value, b: Value)
    ensures Equal(a, b) <==> Strip(a) == Strip(b)
    decreases a
  {
    hide EntriesEqual, StripEntries, Memcmp;
    match (a.payload, b.payload) {
      case (Str(x), Str(y)) => TextEqual(x, y);
      case (Array(x), Array(y)) => EntriesEqualIsIdentity(x, y);
      case (Object(x), Object(y)) => EntriesEqualIsIdentity(x, y);
      case _ =>
    }
  }

  lemma {:induction false} EntriesEqualIsIdentity(x: seq<Entry>, y: seq<Entry>)
    ensures |x| == |y| && EntriesEqual(x, y) <==> StripEntries(x) == StripEntries(y)
    decreases x
  {
    hide Equal, Strip, KeyEqual;
    StripLength(x);
    StripLength(y);
    if x != [] && |x| == |y| {
      assert x[0].value < x[0];
      KeyEqualIsIdentity(x[0].key, y[0].key);
      EqualIsIdentity(x[0].value, y[0].value);
      EntriesEqualIsIdentity(x[1..], y[1..]);
      assert StripEntries(x)[0] == Entry(x[0].key, Strip(x[0].value)) && StripEntries(x)[1..] == StripEntries(x[1..]);
      assert StripEntries(y)[0] == Entry(y[0].key, Strip(y[0].value)) && StripEntries(y)[1..] == StripEntries(y[1..]);
    }
  }

  lemma KeyEqualIsIdentity(k: Key, l: Key)
    ensures KeyEqual(k, l) <==> k == l
  {
    if k.Name? && l.Name? {
      TextEqual(k.name, l.name);
    }
  }

  lemma {:induction false} StripLength(x: seq<Entry>)
    ensures |StripEntries(x)| == |x|
  {
    if x != [] {
      StripLength(x[1..]);
    }
  }

  // ---- Trichotomy ----

  /** Exactly one of less, greater and equal. */
  ghost predicate One(less: bool, greater: bool, equal: bool) {
    (less || greater || equal) && !(less && greater) && !(less && equal) && !(greater && equal)
  }

  lemma {:induction false} Trichotomy(a: Value, b: Value)
    ensures One(Less(a, b), Less(b, a), Equal(a, b))
    decreases a
  {
    hide EntriesLess, EntriesEqual, TextLess, Memcmp, Height;
    match (a.payload, b.payload) {
      case (Str(x), Str(y)) =>
        TextLessTrichotomy(x, y);
        TextEqual(x, y);
      case (Array(x), Array(y)) => if |x| == |y| { EntriesTrichotomy(x, y); }
      case (Object(x), Object(y)) => if |x| == |y| { EntriesTrichotomy(x, y); }
      case _ =>
    }
  }

  lemma {:induction false} EntriesTrichotomy(x: seq<Entry>, y: seq<Entry>)
    requires |x| == |y|
    ensures One(EntriesLess(x, y), EntriesLess(y, x), EntriesEqual(x, y))
    decreases x
  {
    hide Less, Equal, KeyLess, KeyEqual, Height;
    if x != [] {
      assert x[0].value < x[0];
      KeyLessTrichotomy(x[0].key, y[0].key);
      KeyEqualIsIdentity(x[0].key, y[0].key);
      Trichotomy(x[0].value, y[0].value);
      EntriesTrichotomy(x[1..], y[1..]);
    }
  }

  // ---- Transitivity ----

  /** Comparison does not see offsets. */
  lemma {:induction false} LessIgnoresOffsets(a: Value, b: Value)
    ensures Less(a, b) == Less(Strip(a), Strip(b))
    ensures Less(b, a) == Less(Strip(b), Strip(a))
    decreases a
  {
    hide EntriesLess, TextLess, Height;
    match (a.payload, b.payload) {
      case (Array(x), Array(y)) =>
        EntriesLessIgnoresOffsets(x, y);
        StripLength(x);
        StripLength(y);
      case (Object(x), Object(y)) =>
        EntriesLessIgnoresOffsets(x, y);
        StripLength(x);
        StripLength(y);
      case _ =>
    }
  }

  lemma {:induction false} EntriesLessIgnoresOffsets(x: seq<Entry>, y: seq<Entry>)
    ensures EntriesLess(x, y) == EntriesLess(StripEntries(x), StripEntries(y))
    ensures EntriesLess(y, x) == EntriesLess(StripEntries(y), StripEntries(x))
    decreases x
  {
    hide Less, Strip, KeyLess, Height;
    if x != [] && y != [] {
      assert x[0].value < x[0];
      LessIgnoresOffsets(x[0].value, y[0].value);
      EntriesLessIgnoresOffsets(x[1..], y[1..]);
      assert StripEntries(x)[0] == Entry(x[0].key, Strip(x[0].value)) && StripEntries(x)[1..] == StripEntries(x[1..]);
      assert StripEntries(y)[0] == Entry(y[0].key, Strip(y[0].value)) && StripEntries(y)[1..] == StripEntries(y[1..]);
    }
  }

  lemma EqualLeft(a: Value, b: Value, c: Value)
    requires Equal(a, b)
    ensures Less(a, c) == Less(b, c) && Less(c, a) == Less(c, b)
  {
    hide Less, Equal, Strip;
    EqualIsIdentity(a, b);
    LessIgnoresOffsets(a, c);
    LessIgnoresOffsets(b, c);
  }

  lemma {:induction false} Transitivity(a: Value, b: Value, c: Value)
    requires Less(a, b) && Less(b, c)
    ensures Less(a, c)
    decreases b, 0
  {
    hide EntriesLess, TextLess, Height;
    match (a.payload, b.payload, c.payload) {
      case (Str(x), Str(y), Str(z)) => TextLessTransitive(x, y, z);
      case (Array(x), Array(y), Array(z)) => if |x| == |y| == |z| { EntriesTransitivity(x, y, z); }
      case (Object(x), Object(y), Object(z)) => if |x| == |y| == |z| { EntriesTransitivity(x, y, z); }
      case _ =>
    }
  }

  /** Two adjacent pair comparisons, each less or equal, compose. */
  lemma {:induction false} PairsCompose(e: Entry, f: Entry, g: Entry)
    requires !PairLess(f, e) && !PairLess(g, f)
    ensures !PairLess(g, e)
    ensures PairLess(e, g) <==> PairLess(e, f) || PairLess(f, g)
    decreases f.value, 1
  {
    hide Less, Equal, KeyLess, Height;
    KeyLessTrichotomy(e.key, f.key);
    KeyLessTrichotomy(f.key, g.key);
    KeyLessTrichotomy(e.key, g.key);
    Trichotomy(e.value, f.value);
    Trichotomy(f.value, g.value);
    Trichotomy(e.value, g.value);
    if KeyLess(e.key, f.key) && KeyLess(f.key, g.key) {
      KeyLessTransitive(e.key, f.key, g.key);
    }
    if Equal(e.value, f.value) {
      EqualLeft(e.value, f.value, g.value);
      EqualIsIdentity(e.value, f.value);
      EqualIsIdentity(f.value, g.value);
      EqualIsIdentity(e.value, g.value);
    } else if Equal(f.value, g.value) {
      EqualLeft(f.value, g.value, e.value);
    } else if Less(e.value, f.value) && Less(f.value, g.value) {
      Transitivity(e.value, f.value, g.value);
    }
  }

  lemma {:induction false} EntriesTransitivity(x: seq<Entry>, y: seq<Entry>, z: seq<Entry>)
    requires |x| == |y| == |z|
    requires EntriesLess(x, y) && EntriesLess(y, z)
    ensures EntriesLess(x, z)
    decreases y
  {
    hide PairLess, Height;
    assert y[0].value < y[0];
    PairAsymmetric(x[0], y[0]);
    PairAsymmetric(y[0], z[0]);
    PairsCompose(x[0], y[0], z[0]);
    if !PairLess(x[0], y[0]) && !PairLess(y[0], z[0]) {
      EntriesTransitivity(x[1..], y[1..], z[1..]);
    }
  }

  lemma PairAsymmetric(e: Entry, f: Entry)
    ensures !(PairLess(e, f) && PairLess(f, e))
  {
    hide Less, KeyLess, Equal, Height;
    KeyLessTrichotomy(e.key, f.key);
    Trichotomy(e.value, f.value);
  }

  // ---- The main result ----

  /** operator< is a strict total order whose incomparability is operator==, operator== is
      identity up to offsets, and compare answers accordingly. */
  lemma StrictTotalOrder(a: Value, b: Value, c: Value)
    ensures !Less(a, a)
    ensures Less(a, b) ==> !Less(b, a)
    ensures Less(a, b) && Less(b, c) ==> Less(a, c)
    ensures !Less(a, b) && !Less(b, a) <==> Equal(a, b)
    ensures Equal(a, b) <==> Strip(a) == Strip(b)
    ensures Compare(a, b) == 0 <==> Equal(a, b)
    ensures Compare(a, b) < 0 <==> Less(a, b)
    ensures Compare(b, a) == -Compare(a, b)
    ensures Compare(a, b) <= 0 && Compare(b, c) <= 0 ==> Compare(a, c) <= 0
  {
    hide Less, Equal, Strip;
    EqualIsIdentity(a, a);
    EqualIsIdentity(a, b);
    Trichotomy(a, a);
    Trichotomy(a, b);
    Trichotomy(b, c);
    Trichotomy(a, c);
    if Less(a, b) && Less(b, c) {
      Transitivity(a, b, c);
    }
    if Equal(a, b) {
      EqualLeft(a, b, c);
    }
    if Equal(b, c) {
      EqualLeft(b, c, a);
    }
  }

  // ---- Which order it is ----

  /** The values of different types: null, signed, unsigned, real, string, boolean, array, object. */
  lemma TypesInOrder(a: Value, b: Value)
    ensures var p, q := a.payload, b.payload;
      && (p.Null? && !q.Null? ==> Less(a, b))
      && (p.Int? && !q.Null? && !q.Int? ==> Less(a, b))
      && (p.UInt? && (q.Real? || IsText(q) || q.Bool? || q.Array? || q.Object?) ==> Less(a, b))
      && (p.Real? && (IsText(q) || q.Bool? || q.Array? || q.Object?) ==> Less(a, b))
      && (IsText(p) && (q.Bool? || q.Array? || q.Object?) ==> Less(a, b))
      && (p.Bool? && (q.Array? || q.Object?) ==> Less(a, b))
      && (p.Array? && q.Object? ==> Less(a, b))
  {
  }

  predicate IsText(p: Payload) { p.Str? || p.NullStr? }

  /** Values of one type without parts: numbers by size, false before true, a null string before
      any other, strings by the first byte in which they differ. */
  lemma ScalarsInOrder(a: Value, b: Value)
    ensures var p, q := a.payload, b.payload;
      && (p.Int? && q.Int? ==> (Less(a, b) <==> p.i < q.i))
      && (p.UInt? && q.UInt? ==> (Less(a, b) <==> p.u < q.u))
      && (p.Real? && q.Real? ==> (Less(a, b) <==> p.r < q.r))
      && (p.Bool? && q.Bool? ==> (Less(a, b) <==> p == Bool(false) && q == Bool(true)))
      && (p.NullStr? && IsText(q) ==> (Less(a, b) <==> q.Str?))
      && (p.Str? && q.NullStr? ==> !Less(a, b))
      && (p.Str? && q.Str? ==> (Less(a, b) <==> exists k :: DiffersAt(p.text, q.text, k)))
  {
    hide TextLess;
    if a.payload.Str? && b.payload.Str? {
      TextLessIsDictionary(a.payload.text, b.payload.text);
    }
  }

  /** Arrays and objects: fewer entries first; with as many, the first entry in which they differ
      decides, by its key and then by its value. */
  lemma MapsInOrder(a: Value, b: Value, x: seq<Entry>, y: seq<Entry>)
    requires (a.payload == Array(x) && b.payload == Array(y)) || (a.payload == Object(x) && b.payload == Object(y))
    ensures Less(a, b) <==> |x| < |y| || (|x| == |y| && exists k :: 0 <= k < |x| && DecidedAt(x, y, k))
  {
    hide EntriesLess, DecidedAt, Height;
    if |x| == |y| {
      EntriesInOrder(x, y);
    }
  }

  ghost predicate DecidedAt(x: seq<Entry>, y: seq<Entry>, k: nat)
    requires k < |x| == |y|
  {
    && (forall i :: 0 <= i < k ==> x[i].key == y[i].key && Strip(x[i].value) == Strip(y[i].value))
    && match (x[k].key, y[k].key)
       case (Index(i), Index(j)) => i < j || (i == j && Less(x[k].value, y[k].value))
       case (Name(m), Name(n)) => TextLess(m, n) || (m == n && Less(x[k].value, y[k].value))
       case (i, _) => i.Index?
  }

  lemma FirstDecides(e: Entry, f: Entry)
    ensures DecidedAt([e], [f], 0) <==> PairLess(e, f)
    ensures !PairLess(e, f) && !PairLess(f, e) <==> e.key == f.key && Strip(e.value) == Strip(f.value)
  {
    hide Less, Equal, TextLess, Strip, Height;
    KeyLessTrichotomy(e.key, f.key);
    Trichotomy(e.value, f.value);
    EqualIsIdentity(e.value, f.value);
  }

  lemma {:induction false} EntriesInOrder(x: seq<Entry>, y: seq<Entry>)
    requires |x| == |y|
    ensures EntriesLess(x, y) <==> exists k :: 0 <= k < |x| && DecidedAt(x, y, k)
    decreases x
  {
    hide PairLess, Less, Strip, Height, TextLess;
    if x != [] {
      FirstDecides(x[0], y[0]);
      FirstDecides(y[0], x[0]);
      EntriesInOrder(x[1..], y[1..]);
      assert DecidedAt(x, y, 0) <==> DecidedAt([x[0]], [y[0]], 0);
      forall k | 0 < k < |x|
        ensures DecidedAt(x, y, k) <==>
          x[0].key == y[0].key && Strip(x[0].value) == Strip(y[0].value) && DecidedAt(x[1..], y[1..], k - 1)
      {
        forall i | 0 < i <= k ensures x[i] == x[1..][i - 1] && y[i] == y[1..][i - 1] {
        }
      }
      if k :| 0 <= k < |x[1..]| && DecidedAt(x[1..], y[1..], k) && !PairLess(x[0], y[0]) && !PairLess(y[0], x[0]) {
        assert DecidedAt(x, y, k + 1);
      }
      if k :| 0 <= k < |x| && DecidedAt(x, y, k) && k > 0 {
        assert DecidedAt(x[1..], y[1..], k - 1);
      }
      PairAsymmetric(x[0], y[0]);
    }
  }
}
