/** Printing IP addresses: the contraction of zero groups, and a reader that recovers the address. */
module IpAddress {
  import opened Optional
  import opened JsonNumbers
  import JsonStrings

  predicate IsBytes(a: seq<nat>) { forall i :: 0 <= i < |a| ==> a[i] < 256 }

  /** The eight 16-bit groups of an IPv6 address. */
  function Groups(a: seq<nat>): (g: seq<nat>)
    requires |a| == 16 && IsBytes(a)
    ensures |g| == 8
    ensures forall i :: 0 <= i < 8 ==> g[i] == a[2 * i] * 256 + a[2 * i + 1] < 0x10000
  {
    seq(8, i requires 0 <= i < 8 => a[2 * i] * 256 + a[2 * i + 1])
  }

  // ---- The contraction ----

  /** n zero groups from b on. */
  predicate ZeroRun(g: seq<nat>, b: nat, n: nat) {
    b + n <= |g| && forall i :: b <= i < b + n ==> g[i] == 0
  }

  /** The leftmost longest run of at least two zero groups (section 4.2 of RFC 5952). */
  ghost predicate IsContraction(g: seq<nat>, b: nat, n: nat) {
    && n >= 2 && ZeroRun(g, b, n)
    && forall c: nat, m: nat :: m >= 2 && ZeroRun(g, c, m) ==> m < n || (m == n && b <= c)
  }

  ghost predicate NoContraction(g: seq<nat>) {
    forall c: nat, m: nat :: m >= 2 ==> !ZeroRun(g, c, m)
  }

  /** A byte range; a length of -1 means unset. */
  datatype Component = Component(begin: int, len: int)

  const UNSET := Component(0, -1)

  /** A run of zero groups, or no run. */
  datatype Run = NoRun | Run(b: nat, n: nat)

  /** What to contract: the best run if there is one to contract, else nothing. */
  ghost predicate IsBest(g: seq<nat>, run: Run) {
    match run
    case NoRun => NoContraction(g)
    case Run(b, n) => IsContraction(g, b, n)
  }

  /** The byte range the source keeps for a run. */
  function Bytes(r: Run): Component {
    match r
    case NoRun => UNSET
    case Run(b, n) => Component(2 * b, 2 * n)
  }

  /** The best run of at least two groups among those that end at or before group k. */
  ghost predicate BestUpTo(g: seq<nat>, k: nat, r: Run) {
    match r
    case NoRun => forall c: nat, m: nat :: m >= 2 && c + m <= k ==> !ZeroRun(g, c, m)
    case Run(b, n) =>
      && n >= 2 && b + n <= k && ZeroRun(g, b, n)
      && forall c: nat, m: nat :: m >= 2 && c + m <= k && ZeroRun(g, c, m) ==> m < n || (m == n && b <= c)
  }

  /** The run of zeros that reaches group k, extended to the left as far as it goes. */
  ghost predicate CurrentRun(g: seq<nat>, k: nat, r: Run)
    requires k <= |g|
  {
    match r
    case NoRun => true
    case Run(b, n) => n >= 1 && b + n == k && ZeroRun(g, b, n) && (b == 0 || g[b - 1] != 0)
  }

  /** Where the current run starts, or the position itself. */
  function Start(k: nat, r: Run): nat {
    match r
    case NoRun => k
    case Run(b, _) => b
  }

  function Better(run: Run, best: Run): Run {
    if run.Run? && run.n >= 2 && (best.NoRun? || run.n > best.n) then run else best
  }

  /** Closing the run that reaches `end`: the better of it and the best so far is the best. */
  lemma RunEnds(g: seq<nat>, end: nat, run: Run, best: Run)
    requires end <= |g| && CurrentRun(g, end, run) && BestUpTo(g, Start(end, run), best)
    requires run.NoRun? && end > 0 ==> g[end - 1] != 0
    ensures BestUpTo(g, end, Better(run, best))
  {
    var start := Start(end, run);
    var next := Better(run, best);
    assert start == 0 || g[start - 1] != 0;
    forall c: nat, m: nat | m >= 2 && c + m <= end && ZeroRun(g, c, m)
      ensures next.Run? && (m < next.n || (m == next.n && next.b <= c))
    {
      if c + m > start {
        assert c >= start;
      }
    }
  }

  /** A group that is not zero adds no run. */
  lemma NonZeroEnds(g: seq<nat>, k: nat, best: Run)
    requires k < |g| && g[k] != 0 && BestUpTo(g, k, best)
    ensures BestUpTo(g, k + 1, best)
  {
    forall c: nat, m: nat | m >= 2 && c + m == k + 1
      ensures !ZeroRun(g, c, m)
    {
    }
  }

  method ChooseIPv6ContractionRange(address: seq<nat>) returns (range: Component)
    requires |address| == 16 && IsBytes(address)
    ensures exists run :: IsBest(Groups(address), run) && range == Bytes(run)
  {
    hide BestUpTo, CurrentRun;
    ghost var g := Groups(address);
    var maxRange := UNSET;
    var curRange := UNSET;
    var i := 0;
    ghost var k, best, cur := 0, NoRun, NoRun;
    NothingYet(g);
    while i < 16
      invariant i == 2 * k && k <= 8 && maxRange == Bytes(best) && curRange == Bytes(cur)
      invariant k < 8 ==> CurrentRun(g, k, cur) && BestUpTo(g, Start(k, cur), best)
      invariant k < 8 && cur.NoRun? ==> k == 0 || g[k - 1] != 0
      invariant k == 8 ==> BestUpTo(g, 8, best)
    {
      var isZero := address[i] == 0 && address[i + 1] == 0;
      assert isZero <==> g[k] == 0;
      if isZero {
        if curRange.len == -1 {
          curRange := Component(i, 0);
        }
        curRange := curRange.(len := curRange.len + 2);
        cur := Extend(g, k, cur);
      }
      if !isZero || i == 14 {
        CloseRun(g, k, isZero, cur, best);
        best := Better(cur, best);
        cur := NoRun;
        if curRange.len > 2 && curRange.len > maxRange.len {
          maxRange := curRange;
        }
        curRange := UNSET;
      }
      i := i + 2;
      k := k + 1;
    }
    range := maxRange;
    WholeAddress(g, best);
  }

  ghost function Extend(g: seq<nat>, k: nat, cur: Run): (r: Run)
    requires k < |g| && g[k] == 0 && CurrentRun(g, k, cur) && (cur.NoRun? ==> k == 0 || g[k - 1] != 0)
    ensures r.Run? && CurrentRun(g, k + 1, r) && Start(k + 1, r) == Start(k, cur)
    ensures r == match cur { case NoRun => Run(k, 1) case Run(b, n) => Run(b, n + 1) }
  {
    match cur
    case NoRun => Run(k, 1)
    case Run(b, n) => Run(b, n + 1)
  }

  lemma NothingYet(g: seq<nat>)
    ensures BestUpTo(g, 0, NoRun) && CurrentRun(g, 0, NoRun)
  {
  }

  lemma CloseRun(g: seq<nat>, k: nat, isZero: bool, cur: Run, best: Run)
    requires |g| == 8 && k < 8 && (isZero <==> g[k] == 0)
    requires isZero ==> cur.Run? && CurrentRun(g, k + 1, cur) && BestUpTo(g, Start(k + 1, cur), best)
    requires !isZero ==> CurrentRun(g, k, cur) && BestUpTo(g, Start(k, cur), best)
    requires !isZero && cur.NoRun? ==> k == 0 || g[k - 1] != 0
    ensures BestUpTo(g, k + 1, Better(cur, best)) && CurrentRun(g, k + 1, NoRun)
  {
    if isZero {
      RunEnds(g, k + 1, cur, best);
    } else {
      RunEnds(g, k, cur, best);
      NonZeroEnds(g, k, Better(cur, best));
    }
  }

  lemma WholeAddress(g: seq<nat>, r: Run)
    requires |g| == 8 && BestUpTo(g, 8, r)
    ensures IsBest(g, r)
  {
  }

  // ---- Hexadecimal groups ----

  function HexDigit(d: nat): char
    requires d < 16
  {
    if d < 10 then '0' + d as char else 'a' + (d - 10) as char
  }

  /** printf("%x"). */
  function Hex(n: nat): string {
    if n < 16 then [HexDigit(n)] else Hex(n / 16) + [HexDigit(n % 16)]
  }

  /** The number spelled by hexadecimal digits of either case. */
  function HexValue(s: string): Option<nat> {
    if s == "" then Some(0)
    else
      var high := HexValue(s[..|s| - 1]);
      var low := JsonStrings.HexValue(s[|s| - 1]);
      if high.Some? && low.Some? then Some(high.value * 16 + low.value) else None
  }

  /** A group as section 5 of RFC 5952 wants it: lowercase digits, no leading zeros. */
  predicate IsCanonicalGroup(s: string) {
    && 1 <= |s| <= 4
    && (forall i :: 0 <= i < |s| ==> IsLowerHex(s[i]))
    && (|s| > 1 ==> s[0] != '0')
  }

  predicate IsLowerHex(c: char) { '0' <= c <= '9' || 'a' <= c <= 'f' }

  lemma HexDigitDenotes(d: nat)
    requires d < 16
    ensures JsonStrings.HexValue(HexDigit(d)) == Some(d) && IsLowerHex(HexDigit(d)) && (d > 0 ==> HexDigit(d) != '0')
  {
  }

  lemma {:induction false} HexDenotes(n: nat)
    ensures Hex(n) != "" && HexValue(Hex(n)) == Some(n)
    ensures forall i :: 0 <= i < |Hex(n)| ==> IsLowerHex(Hex(n)[i])
    ensures n > 0 ==> Hex(n)[0] != '0'
  {
    hide HexDigit, JsonStrings.HexValue, IsLowerHex;
    HexDigitDenotes(n % 16);
    if n < 16 {
      assert Hex(n)[..0] == "";
    } else {
      HexDenotes(n / 16);
      assert Hex(n)[..|Hex(n)| - 1] == Hex(n / 16);
    }
  }

  function Pow16(k: nat): nat { if k == 0 then 1 else 16 * Pow16(k - 1) }

  lemma {:induction false} HexLength(n: nat, k: nat)
    requires 1 <= k && n < Pow16(k)
    ensures |Hex(n)| <= k && (|Hex(n)| > 1 ==> n > 0)
  {
    if n >= 16 {
      HexLength(n / 16, k - 1);
    }
  }

  lemma GroupText(n: nat)
    requires n < 0x10000
    ensures IsCanonicalGroup(Hex(n)) && HexValue(Hex(n)) == Some(n) && ':' !in Hex(n)
  {
    hide Hex, HexValue;
    HexDenotes(n);
    assert Pow16(2) == 0x100;
    assert Pow16(4) == 0x10000;
    HexLength(n, 4);
  }

  // ---- The reader of section 2.2 of RFC 4291 (forms 1 and 2) ----

  function FirstColon(s: string): (k: nat)
    ensures k <= |s| && (k < |s| ==> s[k] == ':')
  {
    if s == "" || s[0] == ':' then 0 else 1 + FirstColon(s[1..])
  }

  function ReadGroup(s: string): Option<nat> {
    if 1 <= |s| <= 4 then HexValue(s) else None
  }

  /** Groups separated by single colons, at least one. */
  function ReadGroups(s: string): Option<seq<nat>>
    decreases |s|
  {
    var k := FirstColon(s);
    match ReadGroup(s[..k])
    case None => None
    case Some(x) =>
      if k == |s| then Some([x])
      else match ReadGroups(s[k + 1..])
        case None => None
        case Some(rest) => Some([x] + rest)
  }

  function ReadSide(s: string): Option<seq<nat>> {
    if s == "" then Some([]) else ReadGroups(s)
  }

  /** Where the first "::" is. */
  function DoubleColon(s: string): (r: Option<nat>)
    ensures r.Some? ==> r.value + 2 <= |s|
  {
    if |s| < 2 then None
    else if s[0] == ':' && s[1] == ':' then Some(0)
    else match DoubleColon(s[1..])
      case None => None
      case Some(k) => Some(k + 1)
  }

  function Zeros(n: nat): seq<nat> { seq(n, _ => 0) }

  /** Eight groups, or fewer with one "::" standing for one or more zero groups. */
  function ReadIPv6(s: string): Option<seq<nat>> {
    match DoubleColon(s)
    case None =>
      (match ReadGroups(s)
       case Some(g) => if |g| == 8 then Some(g) else None
       case None => None)
    case Some(k) =>
      match (ReadSide(s[..k]), ReadSide(s[k + 2..]))
      case (Some(l), Some(r)) => if |l| + |r| <= 7 then Some(l + Zeros(8 - |l| - |r|) + r) else None
      case _ => None
  }

  // ---- The text ----

  function Join(g: seq<nat>): string {
    if g == [] then ""
    else if |g| == 1 then Hex(g[0])
    else Hex(g[0]) + ":" + Join(g[1..])
  }

  /** Section 4 of RFC 5952 without its mixed notation. */
  function Text(g: seq<nat>, run: Run): string
    requires run.Run? ==> run.b + run.n <= |g|
  {
    match run
    case NoRun => Join(g)
    case Run(b, n) => Join(g[..b]) + "::" + Join(g[b + n..])
  }

  predicate AreGroups(g: seq<nat>) { forall i :: 0 <= i < |g| ==> g[i] < 0x10000 }

  lemma {:induction false} FirstColonIs(h: string, t: string)
    requires ':' !in h
    ensures FirstColon(h + ":" + t) == |h| && FirstColon(h) == |h|
  {
    if h == "" {
      assert h + ":" + t == ":" + t;
    } else {
      assert (h + ":" + t)[1..] == h[1..] + ":" + t;
      FirstColonIs(h[1..], t);
    }
  }

  lemma ReadFirstGroup(h: string, x: nat, t: string)
    requires ':' !in h && ReadGroup(h) == Some(x)
    ensures ReadGroups(h) == Some([x])
    ensures ReadGroups(t).Some? ==> ReadGroups(h + ":" + t) == Some([x] + ReadGroups(t).value)
  {
    hide ReadGroup;
    FirstColonIs(h, t);
    var s := h + ":" + t;
    assert s[..|h|] == h && s[|h| + 1..] == t && h[..|h|] == h;
  }

  lemma {:induction false} JoinIsRead(g: seq<nat>)
    requires g != [] && AreGroups(g)
    ensures ReadGroups(Join(g)) == Some(g) && Join(g) != ""
  {
    hide Hex, HexValue, ReadGroups;
    GroupText(g[0]);
    if |g| == 1 {
      ReadFirstGroup(Hex(g[0]), g[0], "");
      assert g == [g[0]];
    } else {
      JoinIsRead(g[1..]);
      ReadFirstGroup(Hex(g[0]), g[0], Join(g[1..]));
      assert [g[0]] + g[1..] == g;
    }
  }

  /** No two adjacent colons and no colon at either end. */
  predicate Clean(s: string) {
    && (forall i :: 0 <= i < |s| - 1 ==> s[i] != ':' || s[i + 1] != ':')
    && (s != "" ==> s[0] != ':' && s[|s| - 1] != ':')
  }

  lemma {:induction false} JoinIsClean(g: seq<nat>)
    requires AreGroups(g)
    ensures Clean(Join(g))
  {
    hide Hex, HexValue;
    if g != [] {
      GroupText(g[0]);
      JoinIsClean(g[1..]);
      if |g| > 1 {
        JoinIsRead(g[1..]);
        CleanJoin(Hex(g[0]), Join(g[1..]));
      }
    }
  }

  lemma CleanJoin(h: string, t: string)
    requires ':' !in h && h != "" && t != "" && Clean(t)
    ensures Clean(h + ":" + t)
  {
  }

  lemma {:induction false} CleanHasNoDouble(s: string)
    requires forall i :: 0 <= i < |s| - 1 ==> s[i] != ':' || s[i + 1] != ':'
    ensures DoubleColon(s) == None
  {
    if |s| >= 2 {
      CleanHasNoDouble(s[1..]);
    }
  }

  lemma {:induction false} DoubleAfterClean(s: string, t: string)
    requires forall i :: 0 <= i < |s| - 1 ==> s[i] != ':' || s[i + 1] != ':'
    requires s != "" ==> s[|s| - 1] != ':'
    ensures DoubleColon(s + "::" + t) == Some(|s|)
  {
    if s == "" {
      assert s + "::" + t == "::" + t;
    } else {
      assert (s + "::" + t)[1..] == s[1..] + "::" + t;
      DoubleAfterClean(s[1..], t);
    }
  }

  /** The reader recovers the groups from the text, whichever zero run was contracted. */
  lemma TextIsRead(g: seq<nat>, run: Run)
    requires |g| == 8 && AreGroups(g)
    requires run.Run? ==> run.n >= 1 && ZeroRun(g, run.b, run.n)
    ensures ReadIPv6(Text(g, run)) == Some(g)
  {
    hide ReadGroups, Join;
    match run {
      case NoRun =>
        JoinIsRead(g);
        JoinIsClean(g);
        CleanHasNoDouble(Join(g));
      case Run(b, n) =>
        SidesAreRead(g[..b], g[b + n..]);
        assert g[..b] + Zeros(n) + g[b + n..] == g;
    }
  }

  lemma CutAtDouble(l: string, r: string)
    ensures var s := l + "::" + r; s[..|l|] == l && s[|l| + 2..] == r
  {
  }

  lemma SidesAreRead(l: seq<nat>, r: seq<nat>)
    requires AreGroups(l) && AreGroups(r) && |l| + |r| <= 7
    ensures ReadIPv6(Join(l) + "::" + Join(r)) == Some(l + Zeros(8 - |l| - |r|) + r)
  {
    hide Join, ReadSide, Zeros;
    SideIsRead(l);
    SideIsRead(r);
    DoubleAfterClean(Join(l), Join(r));
    CutAtDouble(Join(l), Join(r));
  }

  lemma SideIsRead(g: seq<nat>)
    requires AreGroups(g)
    ensures ReadSide(Join(g)) == Some(g) && Clean(Join(g))
  {
    JoinIsClean(g);
    if g != [] {
      JoinIsRead(g);
    }
  }

  // ---- The printing loop ----

  /** What the loop still writes when it stands at group i. */
  function Tail(g: seq<nat>, run: Run, i: nat): string
    requires run.Run? ==> run.n >= 1
    decreases |g| - i
  {
    if i >= |g| then ""
    else if run.Run? && i == run.b then (if i == 0 then ":" else "") + ":" + Tail(g, run, i + run.n)
    else Hex(g[i]) + (if i + 1 < |g| then ":" else "") + Tail(g, run, i + 1)
  }

  lemma {:induction false} TailIsJoin(g: seq<nat>, run: Run, i: nat)
    requires i <= |g| && (run.Run? ==> run.n >= 1 && run.b < i)
    ensures Tail(g, run, i) == Join(g[i..])
    decreases |g| - i
  {
    hide Hex;
    if i < |g| {
      TailIsJoin(g, run, i + 1);
      assert g[i..][1..] == g[i + 1..];
    }
  }

  lemma {:induction false} TailBeforeRun(g: seq<nat>, run: Run, i: nat)
    requires run.Run? && run.n >= 1 && run.b + run.n <= |g| && i < run.b
    ensures Tail(g, run, i) == Join(g[i..run.b]) + "::" + Join(g[run.b + run.n..])
    decreases run.b - i
  {
    hide Hex;
    var rest := Join(g[run.b + run.n..]);
    if i + 1 == run.b {
      TailIsJoin(g, run, run.b + run.n);
      assert g[i..run.b] == [g[i]];
      assert Tail(g, run, run.b) == ":" + rest;
      assert Hex(g[i]) + ":" + (":" + rest) == Hex(g[i]) + "::" + rest;
    } else {
      TailBeforeRun(g, run, i + 1);
      var mid := Join(g[i + 1..run.b]);
      assert g[i..run.b][1..] == g[i + 1..run.b];
      assert Hex(g[i]) + ":" + (mid + "::" + rest) == Hex(g[i]) + ":" + mid + "::" + rest;
    }
  }

  lemma TailIsText(g: seq<nat>, run: Run)
    requires g != [] && (run.Run? ==> run.n >= 1 && run.b + run.n <= |g|)
    ensures Tail(g, run, 0) == Text(g, run)
  {
    hide Hex;
    match run {
      case NoRun => NoRunTail(g, 0);
      case Run(b, n) =>
        assert g[0..b] == g[..b];
        if b == 0 {
          TailIsJoin(g, run, n);
          assert Join(g[..0]) == "";
        } else {
          TailBeforeRun(g, run, 0);
        }
    }
  }

  lemma NoRunTail(g: seq<nat>, i: nat)
    requires i <= |g|
    ensures Tail(g, NoRun, i) == Join(g[i..])
    ensures g[0..] == g
  {
    TailIsJoin(g, NoRun, i);
  }

  /** What the loop has written at the end when it stands at group i with `text` written. */
  function Written(g: seq<nat>, run: Run, i: nat, text: string): string
    requires run.Run? ==> run.n >= 1
    decreases |g| - i
  {
    if i >= |g| then text
    else if run.Run? && i == run.b then Written(g, run, i + run.n, (if i == 0 then text + ":" else text) + ":")
    else Written(g, run, i + 1, if i + 1 < |g| then text + Hex(g[i]) + ":" else text + Hex(g[i]))
  }

  lemma {:induction false} WrittenIsTail(g: seq<nat>, run: Run, i: nat, text: string)
    requires run.Run? ==> run.n >= 1
    ensures Written(g, run, i, text) == text + Tail(g, run, i)
    decreases |g| - i
  {
    hide Hex;
    if i >= |g| {
      assert text + "" == text;
    } else if run.Run? && i == run.b {
      WrittenIsTail(g, run, i + run.n, (if i == 0 then text + ":" else text) + ":");
      Regroup(text, if i == 0 then ":" else "", ":", Tail(g, run, i + run.n));
    } else {
      WrittenIsTail(g, run, i + 1, if i + 1 < |g| then text + Hex(g[i]) + ":" else text + Hex(g[i]));
      Regroup(text, Hex(g[i]), if i + 1 < |g| then ":" else "", Tail(g, run, i + 1));
    }
  }

  lemma Regroup(d: string, a: string, b: string, c: string)
    ensures d + (a + b + c) == d + a + b + c
    ensures d + "" == d && d + a + "" == d + a
  {
  }

  lemma BestFits(g: seq<nat>, run: Run)
    requires IsBest(g, run)
    ensures run.Run? ==> run.n >= 2 && run.b + run.n <= |g|
  {
  }

  method AppendIPv6Address(address: seq<nat>, ss: string) returns (text: string)
    requires |address| == 16 && IsBytes(address)
    ensures exists run :: IsBest(Groups(address), run) && text == ss + Text(Groups(address), run)
  {
    hide Hex, IsBest, Text, Tail, Written;
    ghost var g := Groups(address);
    var range := ChooseIPv6ContractionRange(address);
    ghost var run :| IsBest(g, run) && range == Bytes(run);
    BestFits(g, run);
    text := ss;
    var i := 0;
    ghost var k := 0;
    TailIsText(g, run);
    WrittenIsTail(g, run, 0, ss);
    while i <= 14
      invariant i == 2 * k && k <= 8
      invariant Written(g, run, k, text) == ss + Text(g, run)
    {
      WrittenStep(g, run, k, text);
      if i == range.begin && range.len > 0 {
        if i == 0 {
          text := text + ":";
        }
        text := text + ":";
        i := range.begin + range.len;
        k := run.b + run.n;
      } else {
        var x := address[i] * 256 + address[i + 1];
        assert x == g[k];
        i := i + 2;
        k := k + 1;
        text := text + Hex(x);
        if i < 16 {
          text := text + ":";
        }
      }
    }
    WrittenEnd(g, run, text);
  }

  lemma WrittenStep(g: seq<nat>, run: Run, i: nat, text: string)
    requires i < |g| && (run.Run? ==> run.n >= 1)
    ensures Written(g, run, i, text) ==
      if run.Run? && i == run.b then Written(g, run, i + run.n, (if i == 0 then text + ":" else text) + ":")
      else Written(g, run, i + 1, if i + 1 < |g| then text + Hex(g[i]) + ":" else text + Hex(g[i]))
  {
  }

  lemma WrittenEnd(g: seq<nat>, run: Run, text: string)
    requires run.Run? ==> run.n >= 1
    ensures Written(g, run, |g|, text) == text
  {
  }

  // ---- Both address families ----

  function Text4(a: seq<nat>): string
    requires |a| == 4
  {
    Decimal(a[0]) + "." + Decimal(a[1]) + "." + Decimal(a[2]) + "." + Decimal(a[3])
  }

  method AppendIPv4Address(address: seq<nat>, ss: string) returns (text: string)
    requires |address| == 4 && IsBytes(address)
    ensures text == ss + Text4(address)
  {
    hide Decimal;
    text := ss;
    var i := 0;
    while i < 4
      invariant 0 <= i <= 4 && text == ss + Prefix4(address, i)
    {
      assert Prefix4(address, i + 1) == Prefix4(address, i) + Decimal(address[i]) + if i != 3 then "." else "";
      Regroup(ss, Prefix4(address, i), Decimal(address[i]), if i != 3 then "." else "");
      text := text + Decimal(address[i]);
      if i != 3 {
        text := text + ".";
      }
      i := i + 1;
    }
  }

  function Prefix4(a: seq<nat>, i: nat): string
    requires |a| == 4 && i <= 4
  {
    if i == 0 then ""
    else if i == 1 then Decimal(a[0]) + "."
    else if i == 2 then Decimal(a[0]) + "." + Decimal(a[1]) + "."
    else if i == 3 then Decimal(a[0]) + "." + Decimal(a[1]) + "." + Decimal(a[2]) + "."
    else Text4(a)
  }

  /** The text of an IPv6 address, given what is to be contracted in it. */
  ghost predicate IsText6(a: seq<nat>, text: string)
    requires |a| == 16 && IsBytes(a)
  {
    exists run :: IsBest(Groups(a), run) && text == Text(Groups(a), run)
  }

  /** The text of an address of either family. */
  ghost predicate IsAddressText(a: seq<nat>, text: string) {
    && IsBytes(a)
    && (|a| == 4 ==> text == Text4(a))
    && (|a| == 16 ==> IsText6(a, text))
    && (|a| == 4 || |a| == 16)
  }

  // ---- A reader for both families ----

  /** The texts between the separators. */
  function Split(s: string, c: char): (parts: seq<string>)
    ensures parts != []
  {
    if s == "" then [""]
    else
      var rest := Split(s[1..], c);
      if s[0] == c then [""] + rest else [[s[0]] + rest[0]] + rest[1..]
  }

  /** A decimal number below a limit, without leading zeros. */
  function ReadDecimal(s: string, limit: nat): Option<nat> {
    if s == "" || !AllDigits(s) || (s[0] == '0' && |s| > 1) || NumberValue(s) >= limit then None
    else Some(NumberValue(s))
  }

  /** Four numbers below 256 between dots. */
  function ReadIPv4(s: string): Option<seq<nat>> {
    var parts := Split(s, '.');
    if |parts| != 4 then None
    else
      var octet := (i: nat) requires i < 4 => ReadDecimal(parts[i], 256);
      match (octet(0), octet(1), octet(2), octet(3))
      case (Some(a), Some(b), Some(c), Some(d)) => Some([a, b, c, d])
      case _ => None
  }

  /** Each group as its two bytes, the higher one first. */
  function BytesOf(g: seq<nat>): seq<nat> {
    if g == [] then [] else [g[0] / 0x100, g[0] % 0x100] + BytesOf(g[1..])
  }

  function ReadAddress(s: string): Option<seq<nat>> {
    if ':' !in s then ReadIPv4(s)
    else match ReadIPv6(s)
      case Some(g) => Some(BytesOf(g))
      case None => None
  }

  /** An address and a port: the address in brackets if it holds colons. */
  function ReadEndpoint(s: string): Option<(seq<nat>, nat)> {
    var parts := if s != "" && s[0] == '[' then Split(s[1..], ']') else Split(s, ':');
    if |parts| != 2 then None
    else
      var port := if s[0] != '[' then parts[1] else if parts[1] != "" && parts[1][0] == ':' then parts[1][1..] else "";
      match (ReadAddress(parts[0]), ReadDecimal(port, 0x10000))
      case (Some(a), Some(p)) => if (':' in parts[0]) == (s[0] == '[') then Some((a, p)) else None
      case _ => None
  }

  lemma {:induction false} SplitWhole(x: string, c: char)
    requires c !in x
    ensures Split(x, c) == [x]
  {
    if x != "" {
      SplitWhole(x[1..], c);
      assert x == [x[0]] + x[1..];
    }
  }

  lemma {:induction false} SplitFirst(x: string, c: char, y: string)
    requires c !in x
    ensures Split(x + [c] + y, c) == [x] + Split(y, c)
  {
    var s := x + [c] + y;
    if x == "" {
      assert s[1..] == y;
    } else {
      assert s[1..] == x[1..] + [c] + y;
      SplitFirst(x[1..], c, y);
      assert x == [x[0]] + x[1..];
    }
  }

  lemma DecimalIsRead(n: nat, limit: nat)
    requires n < limit
    ensures ReadDecimal(Decimal(n), limit) == Some(n)
    ensures Decimal(n) != "" && forall c :: c in Decimal(n) ==> IsDigit(c)
  {
    DecimalDenotes(n);
  }

  lemma Text4Parts(a: seq<nat>) returns (x: string, y: string)
    requires |a| == 4
    ensures Text4(a) == Decimal(a[0]) + "." + y && y == Decimal(a[1]) + "." + x
    ensures x == Decimal(a[2]) + "." + Decimal(a[3])
  {
    hide Decimal;
    x := Decimal(a[2]) + "." + Decimal(a[3]);
    y := Decimal(a[1]) + "." + x;
  }

  lemma Text4IsRead(a: seq<nat>)
    requires |a| == 4 && IsBytes(a)
    ensures ReadIPv4(Text4(a)) == Some(a)
    ensures ':' !in Text4(a) && Text4(a) != "" && Text4(a)[0] != '['
  {
    hide Decimal, ReadDecimal, Text4, Split;
    var x, y := Text4Parts(a);
    forall i | 0 <= i < 4
      ensures ReadDecimal(Decimal(a[i]), 256) == Some(a[i])
      ensures Decimal(a[i]) != "" && forall c :: c in Decimal(a[i]) ==> IsDigit(c)
    {
      DecimalIsRead(a[i], 256);
    }
    assert Text4(a)[0] == Decimal(a[0])[0] && Decimal(a[0])[0] in Decimal(a[0]);
    SplitFirst(Decimal(a[0]), '.', y);
    SplitFirst(Decimal(a[1]), '.', x);
    SplitFirst(Decimal(a[2]), '.', Decimal(a[3]));
    SplitWhole(Decimal(a[3]), '.');
    assert Split(Text4(a), '.') == [Decimal(a[0]), Decimal(a[1]), Decimal(a[2]), Decimal(a[3])];
    assert a == [a[0], a[1], a[2], a[3]];
  }

  /** An IPv6 text is read back as its address. */
  lemma Text6IsRead(a: seq<nat>, text: string)
    requires |a| == 16 && IsBytes(a) && IsText6(a, text)
    ensures ReadIPv6(text) == Some(Groups(a))
  {
    hide ReadIPv6, Text;
    var run :| IsBest(Groups(a), run) && text == Text(Groups(a), run);
    TextIsRead(Groups(a), run);
  }

  lemma Text6Shape(a: seq<nat>, text: string)
    requires |a| == 16 && IsBytes(a) && IsText6(a, text)
    ensures ':' in text && ']' !in text
  {
    hide Join;
    var g := Groups(a);
    var run :| IsBest(g, run) && text == Text(g, run);
    match run
    case NoRun =>
      JoinChars(g);
      JoinHasColon(g);
    case Run(b, n) =>
      JoinChars(g[..b]);
      JoinChars(g[b + n..]);
      assert text[|Join(g[..b])|] == ':';
  }

  lemma JoinHasColon(g: seq<nat>)
    requires |g| > 1
    ensures ':' in Join(g)
  {
    assert Join(g)[|Hex(g[0])|] == ':';
  }

  lemma {:induction false} JoinChars(g: seq<nat>)
    requires AreGroups(g)
    ensures ']' !in Join(g)
  {
    hide Hex, HexValue;
    if g != [] {
      GroupText(g[0]);
      JoinChars(g[1..]);
    }
  }

  lemma {:induction false} BytesOfGroups(g: seq<nat>, a: seq<nat>)
    requires |a| == 2 * |g| && IsBytes(a) && forall i :: 0 <= i < |g| ==> g[i] == a[2 * i] * 0x100 + a[2 * i + 1]
    ensures BytesOf(g) == a
  {
    if g != [] {
      forall i | 0 <= i < |g| - 1 ensures g[1..][i] == a[2..][2 * i] * 0x100 + a[2..][2 * i + 1] {
        assert g[i + 1] == a[2 * (i + 1)] * 0x100 + a[2 * (i + 1) + 1];
      }
      BytesOfGroups(g[1..], a[2..]);
      assert a == [a[0], a[1]] + a[2..];
    }
  }

  /** Every printed text, of either family, is read back as its address, byte for byte. */
  lemma AddressIsRead(a: seq<nat>, text: string)
    requires IsAddressText(a, text)
    ensures ReadAddress(text) == Some(a)
  {
    hide Text4, IsText6, ReadIPv6, ReadIPv4;
    if |a| == 4 {
      Text4IsRead(a);
    } else {
      Text6IsRead(a, text);
      Text6Shape(a, text);
      BytesOfGroups(Groups(a), a);
    }
  }

  /** IPAddressToString; None stands for the failed CHECK on other lengths. */
  method IPAddressToString(address: seq<nat>) returns (text: Option<string>)
    requires IsBytes(address)
    ensures text.None? <==> |address| != 4 && |address| != 16
    ensures text.Some? ==> IsAddressText(address, text.value) && ReadAddress(text.value) == Some(address)
  {
    hide ReadAddress, Text4, Text;
    if |address| == 4 {
      var t := AppendIPv4Address(address, "");
      text := Some(t);
    } else if |address| == 16 {
      var t := AppendIPv6Address(address, "");
      ghost var run :| IsBest(Groups(address), run) && t == "" + Text(Groups(address), run);
      assert t == Text(Groups(address), run);
      text := Some(t);
    } else {
      text := None;
    }
    if text.Some? {
      AddressIsRead(address, text.value);
    }
  }

  method IPAddressToStringWithPort(address: seq<nat>, port: nat) returns (text: Option<string>)
    requires IsBytes(address) && port < 0x10000
    ensures text.None? <==> |address| != 4 && |address| != 16
    ensures text.Some? ==> ReadEndpoint(text.value) == Some((address, port))
  {
    hide IsAddressText, ReadAddress, Decimal, ReadEndpoint;
    var addressStr := IPAddressToString(address);
    if addressStr.None? {
      return None;
    }
    var s := addressStr.value;
    EndpointIsRead(address, s, port);
    if |address| == 16 {
      text := Some("[" + s + "]:" + Decimal(port));
    } else {
      text := Some(s + ":" + Decimal(port));
    }
  }

  lemma EndpointIsRead(a: seq<nat>, s: string, port: nat)
    requires IsAddressText(a, s) && port < 0x10000
    ensures |a| == 16 ==> ReadEndpoint("[" + s + "]:" + Decimal(port)) == Some((a, port))
    ensures |a| == 4 ==> ReadEndpoint(s + ":" + Decimal(port)) == Some((a, port))
  {
    hide Text4, IsText6, ReadAddress, Decimal, ReadDecimal, Split;
    var p := Decimal(port);
    AddressIsRead(a, s);
    DecimalIsRead(port, 0x10000);
    if |a| == 16 {
      var x := "[" + s + "]:" + p;
      Text6Shape(a, s);
      assert x[1..] == s + "]" + (":" + p) && (":" + p)[1..] == p;
      SplitFirst(s, ']', ":" + p);
      SplitWhole(":" + p, ']');
    } else {
      Text4IsRead(a);
      SplitFirst(s, ':', p);
      SplitWhole(p, ':');
    }
  }

  // ---- Injectivity ----

  /** Different addresses, of either family, never print the same. */
  lemma AddressTextInjective(a: seq<nat>, b: seq<nat>, text: string)
    requires IsAddressText(a, text) && IsAddressText(b, text)
    ensures a == b
  {
    AddressIsRead(a, text);
    AddressIsRead(b, text);
  }
}
