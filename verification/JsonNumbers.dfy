/** Integers in JSON text: the printer over a char buffer and the overflow-guarded decoder. */
module JsonNumbers {
  import opened Optional
  import opened JsonValue

  predicate IsDigit(c: char) { '0' <= c <= '9' }

  predicate AllDigits(s: string) { forall i :: 0 <= i < |s| ==> IsDigit(s[i]) }

  function DigitChar(d: nat): char
    requires d < 10
  {
    '0' + d as char
  }

  /** The usual decimal numeral, without leading zeros. */
  function Decimal(n: nat): string {
    if n < 10 then [DigitChar(n)] else Decimal(n / 10) + [DigitChar(n % 10)]
  }

  function SignedDecimal(n: int): string {
    if n < 0 then "-" + Decimal(-n) else Decimal(n)
  }

  /** The number a digit string denotes; leading zeros are allowed. */
  function NumberValue(s: string): nat
    requires AllDigits(s)
  {
    if s == "" then 0 else NumberValue(s[..|s| - 1]) * 10 + (s[|s| - 1] - '0') as nat
  }

  lemma {:induction false} DecimalDenotes(n: nat)
    ensures Decimal(n) != "" && AllDigits(Decimal(n)) && NumberValue(Decimal(n)) == n
    ensures n > 0 ==> Decimal(n)[0] != '0'
    ensures n == 0 ==> Decimal(n) == "0"
  {
    if n < 10 {
      assert Decimal(n)[..0] == "";
    } else {
      DecimalDenotes(n / 10);
      assert Decimal(n)[..|Decimal(n)| - 1] == Decimal(n / 10);
    }
  }

  function Pow10(k: nat): nat { if k == 0 then 1 else 10 * Pow10(k - 1) }

  lemma {:induction false} Pow10Add(a: nat, b: nat)
    ensures Pow10(a + b) == Pow10(a) * Pow10(b)
  {
    if a > 0 {
      Pow10Add(a - 1, b);
      assert Pow10(a - 1 + b) * 10 == (Pow10(a - 1) * 10) * Pow10(b);
    }
  }

  lemma {:induction false} DecimalLength(n: nat, k: nat)
    requires 0 < k && n < Pow10(k)
    ensures |Decimal(n)| <= k
  {
    if n >= 10 {
      DecimalLength(n / 10, k - 1);
    }
  }

  lemma {:induction false} PrefixIsSmaller(s: string, k: nat)
    requires AllDigits(s) && k <= |s|
    ensures NumberValue(s[..k]) <= NumberValue(s)
    ensures k < |s| ==> NumberValue(s[..k]) * 10 <= NumberValue(s)
    decreases |s|
  {
    if k == |s| {
      assert s[..k] == s;
    } else {
      var t := s[..|s| - 1];
      PrefixIsSmaller(t, k);
      assert t[..k] == s[..k];
    }
  }

  // ---- decodeNumber ----

  /** The largest magnitude an integer token may have. */
  function MaxMagnitude(text: string): nat {
    if text != "" && text[0] == '-' then TWO_63 else TWO_64 - 1
  }

  /** A number token takes the integer path when it is an optional minus sign and then digits
      only, with a magnitude that fits; everything else is left to the double decoder. */
  predicate IsIntegerPath(text: string) {
    AllDigits(DigitsOf(text)) && NumberValue(DigitsOf(text)) <= MaxMagnitude(text)
  }

  function IntegerOf(text: string): Option<Payload> {
    if IsIntegerPath(text) then
      var value: int := NumberValue(DigitsOf(text));
      Some(NormalInteger(if text != "" && text[0] == '-' then -value else value))
    else None
  }

  /** Reading a 64-bit pattern as a signed number. */
  function ToSigned64(n: int): int
  {
    var m := n % TWO_64;
    if m < TWO_63 then m else m - TWO_64
  }

  function DigitsOf(text: string): string {
    if text != "" && text[0] == '-' then text[1..] else text
  }

  /** The guard of the loop: does the digit take the number past max? */
  predicate Overflows(value: nat, digit: nat, last: bool, max: nat) {
    var threshold := max / 10;
    value >= threshold && (value > threshold || !last || digit > max % 10)
  }

  lemma StepValue(s: string, k: nat)
    requires k < |s| && AllDigits(s[..k]) && IsDigit(s[k])
    ensures AllDigits(s[..k + 1])
    ensures NumberValue(s[..k + 1]) == NumberValue(s[..k]) * 10 + (s[k] - '0') as nat
  {
    assert s[..k + 1][..k] == s[..k];
  }

  lemma GuardArithmetic(value: nat, digit: nat, max: nat)
    requires digit < 10
    ensures Overflows(value, digit, true, max) <==> value * 10 + digit > max
    ensures Overflows(value, digit, false, max) ==> value * 10 + digit > max || value == max / 10
  {
  }

  /** The guard decides early, and rightly, that the whole number exceeds max. */
  lemma GuardIsExact(s: string, k: nat, max: nat)
    requires AllDigits(s) && k < |s| && 100 <= max
    requires Overflows(NumberValue(s[..k]), (s[k] - '0') as nat, k + 1 == |s|, max)
    ensures NumberValue(s) > max
  {
    GuardArithmetic(NumberValue(s[..k]), (s[k] - '0') as nat, max);
    StepValue(s, k);
    PrefixIsSmaller(s, k + 1);
  }

  /** Stopping at position k of the digits is right: the token is not on the integer path. */
  lemma EarlyStop(text: string, k: nat)
    requires k < |DigitsOf(text)| && AllDigits(DigitsOf(text)[..k])
    requires var d := DigitsOf(text);
      !IsDigit(d[k]) ||
      Overflows(NumberValue(d[..k]), (d[k] - '0') as nat, k + 1 == |d|, MaxMagnitude(text))
    ensures IntegerOf(text) == None
  {
    var d := DigitsOf(text);
    if AllDigits(d) {
      GuardIsExact(d, k, MaxMagnitude(text));
    }
  }

  /** Going on past position k is safe: the accumulator stays within the magnitude. */
  lemma NoOverflow(text: string, k: nat)
    requires k < |DigitsOf(text)| && AllDigits(DigitsOf(text)[..k]) && IsDigit(DigitsOf(text)[k])
    requires var d := DigitsOf(text);
      !Overflows(NumberValue(d[..k]), (d[k] - '0') as nat, k + 1 == |d|, MaxMagnitude(text))
    ensures AllDigits(DigitsOf(text)[..k + 1])
    ensures NumberValue(DigitsOf(text)[..k + 1]) <= MaxMagnitude(text)
  {
    var d := DigitsOf(text);
    StepValue(d, k);
    GuardArithmetic(NumberValue(d[..k]), (d[k] - '0') as nat, MaxMagnitude(text));
  }

  /** The payload built from the sign and the accumulator, casts and negation in 64 bits. */
  function IntegerFrom(negative: bool, value: nat): (p: Payload)
    requires value <= if negative then TWO_63 else TWO_64 - 1
    ensures p == if negative then Int(0 - value) else NormalInteger(value)
  {
    if negative then Int(ToSigned64(-ToSigned64(value)))
    else if value <= MAX_INT then Int(value)
    else UInt(value)
  }

  /** The accumulator loop: it stops before any step that would overflow 64 bits. */
  method DecodeInteger(text: string) returns (r: Option<Payload>)
    ensures r == IntegerOf(text)
  {
    var current := 0;
    var isNegative := text != "" && text[0] == '-';
    if isNegative {
      current := 1;
    }
    ghost var digits := DigitsOf(text);
    ghost var k := 0;
    var maxIntegerValue := MaxMagnitude(text);
    var threshold := maxIntegerValue / 10;
    var value := 0;
    while current < |text|
      invariant 0 <= k <= |digits| && current == k + |text| - |digits|
      invariant AllDigits(digits[..k])
      invariant value == NumberValue(digits[..k]) && value <= maxIntegerValue
    {
      var c := text[current];
      assert c == digits[k] && (current + 1 == |text| <==> k + 1 == |digits|);
      current := current + 1;
      if c < '0' || c > '9' {
        EarlyStop(text, k);
        return None;
      }
      var digit := (c - '0') as nat;
      if value >= threshold {
        if value > threshold || current != |text| || digit > maxIntegerValue % 10 {
          assert Overflows(value, digit, k + 1 == |digits|, maxIntegerValue);
          EarlyStop(text, k);
          return None;
        }
      }
      assert !Overflows(value, digit, k + 1 == |digits|, maxIntegerValue);
      StepValue(digits, k);
      NoOverflow(text, k);
      value := value * 10 + digit;
      k := k + 1;
    }
    assert digits[..k] == digits;
    r := Some(IntegerFrom(isNegative, value));
  }

  /** Printing then decoding gives the integer back, retagged by its size. */
  lemma DecimalRoundTrip(n: int)
    requires -TWO_63 <= n < TWO_64
    ensures IntegerOf(SignedDecimal(n)) == Some(NormalInteger(n))
  {
    var text := SignedDecimal(n);
    var magnitude := if n < 0 then -n else n;
    DecimalDenotes(magnitude);
    assert DigitsOf(text) == Decimal(magnitude);
    assert MaxMagnitude(text) >= magnitude;
  }

  // ---- uintToString and valueToString ----

  const BUFFER_SIZE := 25

  /** Writes a NUL and then the digits backwards, ending just before index `end`. */
  /** The last digit moves from the numeral still to be written to the text behind it. */
  lemma OneDigit(rest: nat, tail: string)
    ensures |Decimal(rest)| > 0
    ensures Decimal(rest) + tail == (if rest < 10 then "" else Decimal(rest / 10)) + ([DigitChar(rest % 10)] + tail)
    ensures rest < 10 ==> Decimal(rest) + tail == [DigitChar(rest % 10)] + tail
  {
    var high := if rest < 10 then "" else Decimal(rest / 10);
    var digit := [DigitChar(rest % 10)];
    assert Decimal(rest) == high + digit;
    RegroupDigit(high, digit, tail);
  }

  lemma RegroupDigit(a: string, b: string, c: string)
    ensures a + b + c == a + (b + c) && "" + b == b
  {
  }

  method UIntToString(value: nat, buffer: array<char>, end: nat) returns (current: nat)
    requires value < TWO_64
    requires 21 <= end <= buffer.Length
    modifies buffer
    ensures end - 21 <= current < end
    ensures buffer[current..end] == Decimal(value) + ['\0']
  {
    hide Decimal;
    Pow10Add(5, 5);
    Pow10Add(10, 10);
    DecimalLength(value, 20);
    assert Decimal(value) + [] == Decimal(value);
    current := end - 1;
    buffer[current] := '\0';
    var rest := value;
    while true
      invariant 0 <= rest && end - 21 <= current < end
      invariant buffer[end - 1] == '\0'
      invariant Decimal(value) == Decimal(rest) + buffer[current..end - 1]
      decreases rest
    {
      ghost var tail := buffer[current..end - 1];
      OneDigit(rest, tail);
      current := current - 1;
      buffer[current] := DigitChar(rest % 10);
      assert buffer[current..end - 1] == [DigitChar(rest % 10)] + tail;
      if rest < 10 {
        break;
      }
      rest := rest / 10;
    }
    assert buffer[current..end] == buffer[current..end - 1] + [buffer[end - 1]];
  }

  /** The magnitude handed to the unsigned printer: negation and cast in 64 bits. */
  function Magnitude(value: int): (m: nat)
    requires -TWO_63 <= value < TWO_63
    ensures m == if value < 0 then -value else value
  {
    if value < 0 then ToSigned64(-value) % TWO_64 else value
  }

  /** The signed printer; the magnitude of the smallest integer wraps to 2^63. */
  method IntToText(value: int) returns (text: string)
    requires -TWO_63 <= value < TWO_63
    ensures text == SignedDecimal(value)
  {
    var buffer := new char[BUFFER_SIZE];
    var current := UIntToString(Magnitude(value), buffer, BUFFER_SIZE);
    ghost var digits := buffer[current..BUFFER_SIZE - 1];
    assert digits == buffer[current..BUFFER_SIZE][..BUFFER_SIZE - 1 - current];
    assert digits == Decimal(Magnitude(value));
    if value < 0 {
      current := current - 1;
      buffer[current] := '-';
      assert buffer[current..BUFFER_SIZE - 1] == ['-'] + digits;
    }
    text := buffer[current..BUFFER_SIZE - 1];
  }

  method UIntToText(value: nat) returns (text: string)
    requires value < TWO_64
    ensures text == Decimal(value)
  {
    var buffer := new char[BUFFER_SIZE];
    var current := UIntToString(value, buffer, BUFFER_SIZE);
    assert buffer[current..] == buffer[current..BUFFER_SIZE];
    assert buffer[current..BUFFER_SIZE - 1] == buffer[current..][..|Decimal(value)|];
    text := buffer[current..BUFFER_SIZE - 1];
  }
}
