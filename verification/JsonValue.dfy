/** The value tree of the JSON library: a tagged payload plus the offsets the reader records.
    A std::map from keys to values is the sequence of its entries in key order. */
module JsonValue {

  import opened Optional

  /** A map key: an array index, or a member name given by its bytes (one char per byte). */
  datatype Key = Index(index: nat) | Name(name: string)

  datatype Entry = Entry(key: Key, value: Value)

  /** The type tag and the payload. NullStr is a string value whose pointer is null. */
  datatype Payload =
    | Null
    | Int(i: int)
    | UInt(u: int)
    | Real(r: real)
    | Str(text: string)
    | NullStr
    | Bool(b: bool)
    | Array(entries: seq<Entry>)
    | Object(entries: seq<Entry>)

  datatype Value = Value(payload: Payload, start: int, limit: int)

  const NULL_VALUE := Value(Null, 0, 0)

  const MAX_INT := 0x7FFF_FFFF
  const TWO_63 := 0x8000_0000_0000_0000
  const TWO_64 := 0x1_0000_0000_0000_0000

  // ---- Key order: memcmp on the common length, then length ----

  /** The sign of memcmp over the first n bytes. */
  function Memcmp(a: string, b: string, n: nat): int
    requires n <= |a| && n <= |b|
    decreases n
  {
    if n == 0 then 0
    else if a[0] < b[0] then -1
    else if a[0] > b[0] then 1
    else Memcmp(a[1..], b[1..], n - 1)
  }

  predicate TextLess(a: string, b: string) {
    var min := if |a| <= |b| then |a| else |b|;
    var comp := Memcmp(a, b, min);
    comp < 0 || (comp == 0 && |a| < |b|)
  }

  /** The maps of one value never mix the two kinds of key; across kinds any fixed order will do. */
  predicate KeyLess(a: Key, b: Key) {
    match (a, b)
    case (Index(i), Index(j)) => i < j
    case (Name(m), Name(n)) => TextLess(m, n)
    case (Index(_), Name(_)) => true
    case (Name(_), Index(_)) => false
  }

  lemma {:induction false} MemcmpSame(a: string, n: nat)
    requires n <= |a|
    ensures Memcmp(a, a, n) == 0
  {
    if n > 0 {
      MemcmpSame(a[1..], n - 1);
    }
  }

  lemma {:induction false} MemcmpZero(a: string, b: string, n: nat)
    requires n <= |a| && n <= |b| && Memcmp(a, b, n) == 0
    ensures a[..n] == b[..n]
  {
    if n > 0 {
      MemcmpZero(a[1..], b[1..], n - 1);
      assert a[..n] == [a[0]] + a[1..][..n - 1];
      assert b[..n] == [b[0]] + b[1..][..n - 1];
    }
  }

  lemma {:induction false} MemcmpSwap(a: string, b: string, n: nat)
    requires n <= |a| && n <= |b|
    ensures Memcmp(b, a, n) == -Memcmp(a, b, n)
  {
    if n > 0 {
      MemcmpSwap(a[1..], b[1..], n - 1);
    }
  }

  lemma {:induction false} TextLessTransitive(a: string, b: string, c: string)
    requires TextLess(a, b) && TextLess(b, c)
    ensures TextLess(a, c)
  {
    if a == "" || b == "" || c == "" {
      assert c != "";
    } else if a[0] == b[0] && b[0] == c[0] {
      assert TextLess(a[1..], b[1..]) && TextLess(b[1..], c[1..]);
      TextLessTransitive(a[1..], b[1..], c[1..]);
      assert TextLess(a[1..], c[1..]);
    }
  }

  lemma TextLessTrichotomy(a: string, b: string)
    ensures TextLess(a, b) ==> !TextLess(b, a)
    ensures TextLess(a, b) || TextLess(b, a) <==> a != b
  {
    var min := if |a| <= |b| then |a| else |b|;
    MemcmpSwap(a, b, min);
    MemcmpSame(a, |a|);
    if Memcmp(a, b, min) == 0 {
      MemcmpZero(a, b, min);
    }
  }

  /** The texts agree on their first k bytes, and there a ends before b or has the smaller byte. */
  predicate DiffersAt(a: string, b: string, k: nat) {
    && k <= |a| && k < |b| && a[..k] == b[..k]
    && (k == |a| || a[k] < b[k])
  }

  /** Which order of names it is: by the first byte in which they differ, a proper beginning first. */
  lemma {:induction false} TextLessIsDictionary(a: string, b: string)
    ensures TextLess(a, b) <==> exists k :: DiffersAt(a, b, k)
  {
    if a != "" && b != "" && a[0] == b[0] {
      var a', b' := a[1..], b[1..];
      TextLessIsDictionary(a', b');
      assert TextLess(a, b) <==> TextLess(a', b');
      forall k: nat ensures DiffersAt(a, b, k + 1) <==> DiffersAt(a', b', k) {
        if k < |a| && k + 1 < |b| {
          assert a[..k + 1] == [a[0]] + a'[..k] && b[..k + 1] == [b[0]] + b'[..k];
          assert a'[..k] == a[..k + 1][1..] && b'[..k] == b[..k + 1][1..];
        }
      }
      assert !DiffersAt(a, b, 0);
      if k: nat :| DiffersAt(a, b, k) {
        assert DiffersAt(a, b, k - 1 + 1) && DiffersAt(a', b', k - 1);
      }
    } else {
      assert DiffersAt(a, b, 0) <==> b != "" && (a == "" || a[0] < b[0]);
      forall k: nat | k > 0 ensures !DiffersAt(a, b, k) {
        if k <= |a| && k < |b| {
          assert a[..k][0] == a[0] && b[..k][0] == b[0];
        }
      }
    }
  }

  lemma KeyLessTransitive(a: Key, b: Key, c: Key)
    requires KeyLess(a, b) && KeyLess(b, c)
    ensures KeyLess(a, c)
  {
    if a.Name? && b.Name? && c.Name? {
      TextLessTransitive(a.name, b.name, c.name);
    }
  }

  lemma KeyLessTrichotomy(a: Key, b: Key)
    ensures KeyLess(a, b) ==> !KeyLess(b, a)
    ensures KeyLess(a, b) || KeyLess(b, a) <==> a != b
  {
    if a.Name? && b.Name? {
      TextLessTrichotomy(a.name, b.name);
    }
  }

  // ---- Maps ----

  predicate Above(es: seq<Entry>, key: Key) {
    forall i :: 0 <= i < |es| ==> KeyLess(key, es[i].key)
  }

  predicate Below(es: seq<Entry>, key: Key) {
    forall i :: 0 <= i < |es| ==> KeyLess(es[i].key, key)
  }

  predicate Sorted(es: seq<Entry>) {
    forall i, j :: 0 <= i < j < |es| ==> KeyLess(es[i].key, es[j].key)
  }

  /** `map[key] = value`: overwrite the entry with this key or insert at lower_bound(key). */
  function Put(es: seq<Entry>, key: Key, value: Value): seq<Entry> {
    if es == [] then [Entry(key, value)]
    else if KeyLess(es[0].key, key) then [es[0]] + Put(es[1..], key, value)
    else if es[0].key == key then [Entry(key, value)] + es[1..]
    else [Entry(key, value)] + es
  }

  function Find(es: seq<Entry>, key: Key): Option<Value> {
    if es == [] then None
    else if es[0].key == key then Some(es[0].value)
    else Find(es[1..], key)
  }

  /** `map[key]` as a reference: the existing value, or a fresh null that gets inserted. */
  function At(es: seq<Entry>, key: Key): Value {
    match Find(es, key)
    case Some(v) => v
    case None => NULL_VALUE
  }

  lemma {:induction false} PutLast(es: seq<Entry>, key: Key, value: Value)
    requires Below(es, key)
    ensures Put(es, key, value) == es + [Entry(key, value)]
  {
    if es != [] {
      PutLast(es[1..], key, value);
    }
  }

  /** Put keeps the order, makes the key map to the value and changes no other key. */
  lemma {:induction false} PutIsMapUpdate(es: seq<Entry>, key: Key, value: Value, other: Key)
    requires Sorted(es)
    ensures Sorted(Put(es, key, value))
    ensures Find(Put(es, key, value), other) == if other == key then Some(value) else Find(es, other)
    ensures forall k :: KeyLess(k, key) && Above(es, k) ==> Above(Put(es, key, value), k)
  {
    if es == [] {
    } else {
      hide KeyLess, TextLess;
      KeyLessTrichotomy(es[0].key, key);
      PutIsMapUpdate(es[1..], key, value, other);
      if KeyLess(es[0].key, key) {
        assert Above(es[1..], es[0].key);
      } else if es[0].key != key {
        forall j | 0 <= j < |es|
          ensures KeyLess(key, es[j].key)
        {
          if j > 0 {
            KeyLessTransitive(key, es[0].key, es[j].key);
          }
        }
      }
    }
  }

  // ---- Value shapes ----

  /** Well-formed: 64-bit integers, sorted maps, array keys indices and object keys names. */
  ghost predicate Valid(v: Value) {
    match v.payload
    case Int(i) => -TWO_63 <= i < TWO_63
    case UInt(u) => 0 <= u < TWO_64
    case Array(es) => Sorted(es) && (forall e :: e in es ==> e.key.Index? && Valid(e.value))
    case Object(es) => Sorted(es) && (forall e :: e in es ==> e.key.Name? && Valid(e.value))
    case _ => true
  }

  /** Like Valid, except that the members of objects may come in any order and more than once. */
  ghost predicate Loose(v: Value) {
    match v.payload
    case Int(i) => -TWO_63 <= i < TWO_63
    case UInt(u) => 0 <= u < TWO_64
    case Array(es) => Sorted(es) && (forall e :: e in es ==> e.key.Index? && Loose(e.value))
    case Object(es) => forall e :: e in es ==> e.key.Name? && Loose(e.value)
    case _ => true
  }

  lemma {:induction false} ValidIsLoose(v: Value)
    requires Valid(v)
    ensures Loose(v)
    decreases v
  {
    match v.payload
    case Array(es) => forall e | e in es ensures Loose(e.value) { ValidIsLoose(e.value); }
    case Object(es) => forall e | e in es ensures Loose(e.value) { ValidIsLoose(e.value); }
    case _ =>
  }

  /** No real numbers and no null string pointers anywhere. */
  ghost predicate Plain(v: Value) {
    match v.payload
    case Real(_) => false
    case NullStr => false
    case Array(es) => forall e :: e in es ==> Plain(e.value)
    case Object(es) => forall e :: e in es ==> Plain(e.value)
    case _ => true
  }

  function Max(a: nat, b: nat): nat { if a >= b then a else b }

  /** How many readValue calls are nested while this value is read. */
  function Height(v: Value): nat {
    match v.payload
    case Array(es) => 1 + HeightEntries(es)
    case Object(es) => 1 + HeightEntries(es)
    case _ => 1
  }

  function HeightEntries(es: seq<Entry>): nat {
    if es == [] then 0 else
    assert es[0].value < es[0];
    Max(Height(es[0].value), HeightEntries(es[1..]))
  }

  /** The value without its offsets. */
  function Strip(v: Value): Value {
    match v.payload
    case Array(es) => Value(Array(StripEntries(es)), 0, 0)
    case Object(es) => Value(Object(StripEntries(es)), 0, 0)
    case p => Value(p, 0, 0)
  }

  function StripEntries(es: seq<Entry>): seq<Entry> {
    if es == [] then [] else
    assert es[0].value < es[0];
    [Entry(es[0].key, Strip(es[0].value))] + StripEntries(es[1..])
  }

  lemma {:induction false} StripAppend(a: seq<Entry>, b: seq<Entry>)
    ensures StripEntries(a + b) == StripEntries(a) + StripEntries(b)
  {
    if a == [] {
      assert a + b == b;
    } else {
      StripAppend(a[1..], b);
      assert (a + b)[1..] == a[1..] + b;
    }
  }

  lemma {:induction false} StripPut(es: seq<Entry>, key: Key, v: Value)
    ensures StripEntries(Put(es, key, v)) == Put(StripEntries(es), key, Strip(v))
  {
    hide Strip, KeyLess;
    if es != [] {
      StripPut(es[1..], key, v);
      StripCons(es[0], es[1..]);
      StripCons(Entry(key, v), es[1..]);
      StripCons(Entry(key, v), es);
      StripCons(es[0], Put(es[1..], key, v));
      assert es == [es[0]] + es[1..];
    } else {
      StripCons(Entry(key, v), []);
      assert [Entry(key, v)] + [] == [Entry(key, v)];
    }
  }

  lemma StripCons(e: Entry, es: seq<Entry>)
    ensures StripEntries([e] + es) == [Entry(e.key, Strip(e.value))] + StripEntries(es)
  {
    assert ([e] + es)[1..] == es;
  }

  // ---- The normal form a written value is read back as ----

  /** How a non-negative integer comes back: signed up to 2^31-1, unsigned above. */
  function NormalInteger(n: int): Payload {
    if n <= MAX_INT then Int(n) else UInt(n)
  }

  /** Integers retagged by size, array holes filled with nulls, of members with one name only the
      last kept, offsets dropped. */
  function Normal(v: Value): Value {
    match v.payload
    case Int(i) => Value(NormalInteger(i), 0, 0)
    case UInt(u) => Value(NormalInteger(u), 0, 0)
    case Array(es) => Value(Array(NormalElements(es, 0)), 0, 0)
    case Object(es) => Value(Object(Merged([], NormalMembers(es))), 0, 0)
    case p => Value(p, 0, 0)
  }

  function NormalElements(es: seq<Entry>, next: nat): seq<Entry>
    decreases es, if es != [] && es[0].key.Index? then es[0].key.index - next else 0
  {
    if es == [] then []
    else if es[0].key.Index? && es[0].key.index > next then
      [Entry(Index(next), NULL_VALUE)] + NormalElements(es, next + 1)
    else
      assert es[0].value < es[0];
      [Entry(Index(next), Normal(es[0].value))] + NormalElements(es[1..], next + 1)
  }

  function NormalMembers(es: seq<Entry>): seq<Entry> {
    if es == [] then [] else
    assert es[0].value < es[0];
    [Entry(es[0].key, Normal(es[0].value))] + NormalMembers(es[1..])
  }

  /** The members assigned one after the other into a map. */
  function Merged(acc: seq<Entry>, es: seq<Entry>): seq<Entry>
    decreases es
  {
    if es == [] then acc else Merged(Put(acc, es[0].key, es[0].value), es[1..])
  }

  /** Members in order of their names are not rearranged. */
  lemma {:induction false} SortedMerge(acc: seq<Entry>, es: seq<Entry>)
    requires Sorted(acc + es)
    ensures Merged(acc, es) == acc + es
    decreases es
  {
    hide KeyLess;
    if es == [] {
      assert acc + es == acc;
    } else {
      assert forall i :: 0 <= i < |acc| ==> (acc + es)[i] == acc[i];
      assert (acc + es)[|acc|] == es[0];
      PutLast(acc, es[0].key, es[0].value);
      assert acc + [Entry(es[0].key, es[0].value)] + es[1..] == acc + es;
      SortedMerge(acc + [Entry(es[0].key, es[0].value)], es[1..]);
    }
  }
}
