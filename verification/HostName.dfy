/** The host-name check: one pass over the characters, against a grammar of components. */
module HostName {
  import opened JsonNumbers
  import IpAddress

  predicate IsAlphanumeric(c: char) { 'a' <= c <= 'z' || '0' <= c <= '9' }

  predicate IsComponentChar(c: char) { IsAlphanumeric(c) || c == '-' || c == '_' }

  /** A component: one or more letters, digits, hyphens and underscores. */
  predicate IsComponent(s: string) {
    s != "" && forall i :: 0 <= i < |s| ==> IsComponentChar(s[i])
  }

  predicate AreComponents(cs: seq<string>) {
    cs != [] && forall i :: 0 <= i < |cs| ==> IsComponent(cs[i])
  }

  /** The components with a dot after each. */
  function Dotted(cs: seq<string>): string {
    if cs == [] then "" else cs[0] + "." + Dotted(cs[1..])
  }

  /** Components separated by dots, the last one starting with a letter or digit, with an optional
      trailing dot. */
  ghost predicate Spells(cs: seq<string>, host: string) {
    && AreComponents(cs) && IsAlphanumeric(cs[|cs| - 1][0])
    && (host + "." == Dotted(cs) || host == Dotted(cs))
  }

  ghost predicate IsCompliant(host: string) {
    exists cs :: Spells(cs, host)
  }

  // ---- The scan as a function ----

  /** Upper case has been normalised away. */
  predicate IsHostCharAlphanumeric(c: char) { (c >= 'a' && c <= 'z') || (c >= '0' && c <= '9') }

  /** What the scan answers from here on, given its two flags. */
  predicate Scan(s: string, inComponent: bool, started: bool) {
    if s == "" then started
    else
      var alphanumeric := IsHostCharAlphanumeric(s[0]);
      var allowed := alphanumeric || s[0] == '-' || s[0] == '_';
      if !inComponent then allowed && Scan(s[1..], true, alphanumeric)
      else if s[0] == '.' then Scan(s[1..], false, started)
      else allowed && Scan(s[1..], true, started)
  }

  method IsCanonicalizedHostCompliant(host: string) returns (ok: bool)
    ensures ok <==> IsCompliant(host)
  {
    ScanIsGrammar(host);
    if host == "" {
      return false;
    }
    var inComponent := false;
    var started := false;
    var i := 0;
    assert host[0..] == host;
    while i < |host|
      invariant 0 <= i <= |host|
      invariant Scan(host[i..], inComponent, started) == Scan(host, false, false)
    {
      var c := host[i];
      assert host[i..][0] == c && host[i..][1..] == host[i + 1..];
      if !inComponent {
        started := IsHostCharAlphanumeric(c);
        if !started && c != '-' && c != '_' {
          return false;
        }
        inComponent := true;
      } else if c == '.' {
        inComponent := false;
      } else if !IsHostCharAlphanumeric(c) && c != '-' && c != '_' {
        return false;
      }
      i := i + 1;
    }
    return started;
  }

  // ---- The scan accepts exactly the grammar ----

  /** The rest of the current component, as the scan sees it. */
  lemma {:induction false} ScanComponent(c: string, t: string, started: bool)
    requires forall i :: 0 <= i < |c| ==> IsComponentChar(c[i])
    ensures Scan(c + t, true, started) == Scan(t, true, started)
  {
    if c == "" {
      assert c + t == t;
    } else {
      assert (c + t)[1..] == c[1..] + t;
      ScanComponent(c[1..], t, started);
    }
  }

  lemma ScanOneComponent(c: string, t: string, started: bool)
    requires IsComponent(c)
    ensures Scan(c + t, false, started) == Scan(t, true, IsAlphanumeric(c[0]))
  {
    assert (c + t)[1..] == c[1..] + t;
    ScanComponent(c[1..], t, IsAlphanumeric(c[0]));
  }

  /** The first component of a spelling, followed by the end, a trailing dot, or the rest. */
  lemma LastComponent(cs: seq<string>, host: string)
    requires Spells(cs, host) && |cs| == 1
    ensures host == cs[0] + "" || host == cs[0] + "."
  {
    assert cs[1..] == [];
    assert Dotted(cs) == cs[0] + "." + "" == cs[0] + ".";
    if host != Dotted(cs) {
      CancelDot(host, cs[0]);
    }
    assert cs[0] + "" == cs[0];
  }

  lemma CancelDot(a: string, b: string)
    requires a + "." == b + "."
    ensures a == b
  {
    assert a == (a + ".")[..|a|] && b == (b + ".")[..|b|];
    assert |a + "."| == |b + "."|;
  }

  lemma FirstComponent(cs: seq<string>, host: string) returns (rest: string)
    requires Spells(cs, host) && |cs| > 1
    ensures host == cs[0] + ("." + rest) && Spells(cs[1..], rest)
  {
    hide Dotted, IsComponent;
    DottedCons(cs);
    DottedLong(cs[1..]);
    rest := HeadOf(cs[0] + ".", Dotted(cs[1..]), host);
    DotBetween(cs[0], rest);
  }

  lemma DottedCons(cs: seq<string>)
    requires cs != []
    ensures Dotted(cs) == cs[0] + "." + Dotted(cs[1..])
  {
  }

  lemma DotBetween(c: string, rest: string)
    ensures c + ("." + rest) == c + "." + rest
  {
  }

  /** The text behind the head, where the whole is the text with or without its last dot. */
  lemma HeadOf(head: string, tail: string, host: string) returns (rest: string)
    requires |tail| >= 2 && (host + "." == head + tail || host == head + tail)
    ensures host == head + rest && (rest + "." == tail || rest == tail)
  {
    rest := host[|head|..];
    if host == head + tail {
      assert rest == tail;
    } else {
      assert (host + ".")[|head|..] == tail;
      assert rest + "." == tail;
      assert host == (head + tail)[..|host|];
    }
  }

  lemma {:induction false} GrammarIsScanned(cs: seq<string>, host: string, started: bool)
    requires Spells(cs, host)
    ensures Scan(host, false, started)
  {
    hide Scan, Dotted;
    var c := cs[0];
    if |cs| == 1 {
      LastComponent(cs, host);
      ScanOneComponent(c, "", started);
      ScanOneComponent(c, ".", started);
      ScanEnd(IsAlphanumeric(c[0]));
    } else {
      var rest := FirstComponent(cs, host);
      GrammarIsScanned(cs[1..], rest, IsAlphanumeric(c[0]));
      ScanOneComponent(c, "." + rest, started);
      ScanDot(rest, IsAlphanumeric(c[0]));
    }
  }

  lemma ScanEnd(started: bool)
    ensures Scan("", true, started) == started && Scan(".", true, started) == started
  {
    assert "."[1..] == "";
  }

  lemma ScanDot(rest: string, started: bool)
    ensures Scan("." + rest, true, started) == Scan(rest, false, started)
  {
    assert ("." + rest)[1..] == rest;
  }

  lemma DottedLong(cs: seq<string>)
    requires AreComponents(cs)
    ensures |Dotted(cs)| >= 2
  {
    assert IsComponent(cs[0]);
  }

  /** Where the leading component ends. */
  function ComponentEnd(s: string): (k: nat)
    ensures k <= |s| && (k < |s| ==> !IsComponentChar(s[k]))
    ensures forall i :: 0 <= i < k ==> IsComponentChar(s[i])
  {
    if s == "" || !IsComponentChar(s[0]) then 0 else 1 + ComponentEnd(s[1..])
  }

  lemma {:induction false} ScannedIsGrammar(host: string, started: bool) returns (cs: seq<string>)
    requires host != "" && Scan(host, false, started)
    ensures Spells(cs, host)
    decreases |host|
  {
    hide Scan;
    var k := ComponentEnd(host);
    var c, t := host[..k], host[k..];
    assert host == c + t;
    FirstIsComponent(host, started);
    ScanOneComponent(c, t, started);
    if t == "" || t == "." {
      ScanEnd(IsAlphanumeric(c[0]));
      cs := [c];
      assert Dotted(cs) == c + "." by { assert cs[1..] == []; assert Dotted(cs[1..]) == ""; }
    } else {
      var rest := t[1..];
      StopsAtDot(t, IsAlphanumeric(c[0]));
      assert t == "." + rest;
      ScanDot(rest, IsAlphanumeric(c[0]));
      var more := ScannedIsGrammar(rest, IsAlphanumeric(c[0]));
      cs := [c] + more;
      assert cs[1..] == more;
      assert Dotted(cs) == c + "." + Dotted(more);
      assert host == c + "." + rest;
      if rest + "." == Dotted(more) {
        assert host + "." == c + "." + (rest + ".");
      }
    }
  }

  lemma FirstIsComponent(host: string, started: bool)
    requires host != "" && Scan(host, false, started)
    ensures ComponentEnd(host) > 0
  {
  }

  lemma StopsAtDot(t: string, started: bool)
    requires t != "" && !IsComponentChar(t[0]) && Scan(t, true, started)
    ensures t[0] == '.'
  {
  }

  /** The scan accepts a host if and only if it has the form of the grammar. */
  lemma ScanIsGrammar(host: string)
    ensures IsCompliant(host) <==> host != "" && Scan(host, false, false)
  {
    hide Scan;
    if cs :| Spells(cs, host) {
      GrammarIsScanned(cs, host, false);
      DottedLong(cs);
    }
    if host != "" && Scan(host, false, false) {
      var cs := ScannedIsGrammar(host, false);
    }
  }

  // ---- Printed addresses ----

  lemma {:induction false} DottedHasNoColon(cs: seq<string>)
    requires forall i :: 0 <= i < |cs| ==> IsComponent(cs[i])
    ensures ':' !in Dotted(cs)
  {
    if cs != [] {
      DottedHasNoColon(cs[1..]);
      assert ':' !in cs[0] by {
        assert forall i :: 0 <= i < |cs[0]| ==> IsComponentChar(cs[0][i]);
      }
    }
  }

  lemma DottedFour(a: string, b: string, c: string, d: string)
    ensures Dotted([a, b, c, d]) == a + "." + b + "." + c + "." + d + "."
  {
    assert [a, b, c, d][1..] == [b, c, d] && [b, c, d][1..] == [c, d] && [c, d][1..] == [d] && [d][1..] == [];
    assert Dotted([d]) == d + "." + "";
    assert Dotted([c, d]) == c + "." + Dotted([d]);
    assert Dotted([b, c, d]) == b + "." + Dotted([c, d]);
    assert Dotted([a, b, c, d]) == a + "." + Dotted([b, c, d]);
    Regroup(a, b, c, d, Dotted([d]));
  }

  lemma Regroup(a: string, b: string, c: string, d: string, e: string)
    ensures e == d + "." + "" ==> a + "." + (b + "." + (c + "." + e)) == a + "." + b + "." + c + "." + d + "."
  {
  }

  lemma DecimalIsComponent(n: nat)
    ensures IsComponent(Decimal(n)) && IsAlphanumeric(Decimal(n)[0])
  {
    DecimalDenotes(n);
  }

  /** The check does not tell addresses from names: of the printed addresses it accepts every IPv4
      one and rejects every IPv6 one. */
  lemma AcceptsPrintedIPv4(a: seq<nat>, text: string)
    requires IpAddress.IsAddressText(a, text)
    ensures IsCompliant(text) <==> |a| == 4
  {
    hide Decimal, Spells;
    if |a| == 4 {
      var cs := [Decimal(a[0]), Decimal(a[1]), Decimal(a[2]), Decimal(a[3])];
      forall i | 0 <= i < 4 ensures IsComponent(cs[i]) && IsAlphanumeric(cs[i][0]) {
        DecimalIsComponent(a[i]);
      }
      DottedFour(cs[0], cs[1], cs[2], cs[3]);
      assert Spells(cs, text) by { SpellsIntro(cs, text); }
    } else {
      IpAddress.Text6Shape(a, text);
      if cs :| Spells(cs, text) {
        SpellsNoColon(cs, text);
      }
    }
  }

  ghost predicate IsAddress(host: string) {
    exists a :: IpAddress.IsAddressText(a, host)
  }

  /** What the comment promises: compliant and no IP address. */
  ghost predicate IsCompliantName(host: string) {
    IsCompliant(host) && !IsAddress(host)
  }

  /** Over all hosts, the check answers what its comment promises if and only if the host is not the
      text of an IPv4 address. */
  lemma MeetsItsComment(host: string)
    ensures (IsCompliant(host) <==> IsCompliantName(host)) <==>
      !exists a :: |a| == 4 && IpAddress.IsAddressText(a, host)
  {
    hide IsCompliant;
    if a :| IpAddress.IsAddressText(a, host) {
      AcceptsPrintedIPv4(a, host);
    }
    if a :| |a| == 4 && IpAddress.IsAddressText(a, host) {
      AcceptsPrintedIPv4(a, host);
    }
  }

  lemma SpellsIntro(cs: seq<string>, host: string)
    requires AreComponents(cs) && IsAlphanumeric(cs[|cs| - 1][0]) && host + "." == Dotted(cs)
    ensures Spells(cs, host)
  {
  }

  lemma SpellsNoColon(cs: seq<string>, host: string)
    requires Spells(cs, host)
    ensures ':' !in host
  {
    DottedHasNoColon(cs);
    assert ':' !in host + ".";
  }
}
