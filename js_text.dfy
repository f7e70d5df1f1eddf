/**
 * The few JavaScript string and number conversions that the port forwarder relies on:
 * `String.prototype.split(':')`, `String.prototype.trim`, unary `+` on a string
 * (ToNumber), and the decimal rendering of a number inside a template literal.
 */
module JsText {

  /** The result of unary `+` on a string: a number, or NaN. */
  datatype Number = NaN | Num(value: int)

  /** Truthiness of a number: NaN and 0 are falsy. */
  predicate Truthy(n: Number) {
    n.Num? && n.value != 0
  }

  // ---------------------------------------------------------------- split(':')

  /** `s.split(':')`: the maximal colon-free pieces of `s`, left to right. */
  function Split(s: string): (parts: seq<string>)
    ensures |parts| >= 1
    ensures forall i | 0 <= i < |parts| :: ':' !in parts[i]
  {
    if |s| == 0 then [""]
    else
      var rest := Split(s[1..]);
      if s[0] == ':' then [""] + rest
      else [[s[0]] + rest[0]] + rest[1..]
  }

  /** `parts.join(':')`, the inverse of `Split`. */
  function Join(parts: seq<string>): string
    requires |parts| >= 1
  {
    if |parts| == 1 then parts[0] else parts[0] + ":" + Join(parts[1..])
  }

  lemma {:induction false} JoinSplit(s: string)
    ensures Join(Split(s)) == s
  {
    if |s| > 0 {
      JoinSplit(s[1..]);
      var rest := Split(s[1..]);
      if s[0] != ':' {
        if |rest| == 1 {
          assert Join(Split(s)) == [s[0]] + rest[0];
        } else {
          assert rest == [rest[0]] + rest[1..];
          assert Join(rest) == rest[0] + ":" + Join(rest[1..]);
          assert Split(s)[1..] == rest[1..];
          assert Join(Split(s)) == ([s[0]] + rest[0]) + ":" + Join(rest[1..]);
        }
        assert s == [s[0]] + s[1..];
      } else {
        assert s == ":" + s[1..];
      }
    }
  }

  /** A string without a colon splits into itself. */
  lemma {:induction false} SplitNoColon(s: string)
    requires ':' !in s
    ensures Split(s) == [s]
  {
    if |s| > 0 {
      assert ':' !in s[1..] by {
        forall i | 0 <= i < |s[1..]| ensures s[1..][i] != ':' { assert s[1..][i] == s[i + 1]; }
      }
      SplitNoColon(s[1..]);
      assert [s[0]] + s[1..] == s;
    }
  }

  /** Splitting at the first colon: the colon-free head is the first part. */
  lemma {:induction false} SplitAtColon(a: string, rest: string)
    requires ':' !in a
    ensures Split(a + ":" + rest) == [a] + Split(rest)
  {
    var s := a + ":" + rest;
    if |a| == 0 {
      assert s == ":" + rest;
      assert s[1..] == rest;
    } else {
      assert ':' !in a[1..] by {
        forall i | 0 <= i < |a[1..]| ensures a[1..][i] != ':' { assert a[1..][i] == a[i + 1]; }
      }
      assert s[1..] == a[1..] + ":" + rest;
      SplitAtColon(a[1..], rest);
      assert [a[0]] + a[1..] == a;
    }
  }

  // ---------------------------------------------------------------- trim()

  /** WhiteSpace and LineTerminator code points as defined in sections 12.2 and 12.3 of ECMA-262. */
  predicate IsTrimmable(c: char) {
    c == '\t' || c == '\U{B}' || c == '\U{C}' || c == ' ' || c == '\U{A0}' || c == '\U{FEFF}'
    || c == '\n' || c == '\r' || c == '\U{2028}' || c == '\U{2029}'
    || c == '\U{1680}' || ('\U{2000}' <= c <= '\U{200A}') || c == '\U{202F}' || c == '\U{205F}'
    || c == '\U{3000}'
  }

  /** Removes leading trimmable characters. */
  function TrimStart(s: string): (r: string)
    ensures |r| <= |s| && r == s[|s| - |r|..]
    ensures forall i | 0 <= i < |s| - |r| :: IsTrimmable(s[i])
    ensures r != [] ==> !IsTrimmable(r[0])
  {
    if |s| > 0 && IsTrimmable(s[0]) then
      var r := TrimStart(s[1..]);
      assert r == s[|s| - |r|..] by { assert s[1..][|s| - 1 - |r|..] == s[|s| - |r|..]; }
      assert forall i | 1 <= i < |s| - |r| :: IsTrimmable(s[i]) by {
        forall i | 1 <= i < |s| - |r| ensures IsTrimmable(s[i]) { assert s[i] == s[1..][i - 1]; }
      }
      r
    else s
  }

  /** Removes trailing trimmable characters. */
  function TrimEnd(s: string): (r: string)
    ensures |r| <= |s| && r == s[..|r|]
    ensures forall i | |r| <= i < |s| :: IsTrimmable(s[i])
    ensures r != [] ==> !IsTrimmable(r[|r| - 1])
  {
    if |s| > 0 && IsTrimmable(s[|s| - 1]) then TrimEnd(s[..|s| - 1]) else s
  }

  /**
   * `s.trim()`: leading and trailing white space removed. The result is the middle piece of the
   * input that `TrimStart` and `TrimEnd` describe.
   */
  function Trim(s: string): (r: string)
    ensures |r| <= |s|
    ensures r != [] ==> !IsTrimmable(r[0]) && !IsTrimmable(r[|r| - 1])
    ensures r == [] <==> forall i | 0 <= i < |s| :: IsTrimmable(s[i])
  {
    TrimEnd(TrimStart(s))
  }

  /** Trimming twice is trimming once. */
  lemma TrimIdempotent(s: string)
    ensures Trim(Trim(s)) == Trim(s)
  {
    if Trim(s) != [] {
      TrimUntouched(Trim(s));
    }
  }

  /** A string that neither starts nor ends with white space is its own trim. */
  lemma TrimUntouched(s: string)
    requires s != [] && !IsTrimmable(s[0]) && !IsTrimmable(s[|s| - 1])
    ensures Trim(s) == s
  {
  }

  // ---------------------------------------------------------------- ToNumber

  predicate IsDigit(c: char) {
    '0' <= c <= '9'
  }

  predicate IsDigits(s: string) {
    forall i | 0 <= i < |s| :: IsDigit(s[i])
  }

  function DigitValue(c: char): nat
    requires IsDigit(c)
  {
    c as int - '0' as int
  }

  /** The value of a decimal digit string (the empty string is 0). */
  function DecimalValue(s: string): nat
    requires IsDigits(s)
  {
    if |s| == 0 then 0 else 10 * DecimalValue(s[..|s| - 1]) + DigitValue(s[|s| - 1])
  }

  /** The number an already trimmed string denotes: an optionally signed decimal integer. */
  function LiteralValue(t: string): Number {
    if t == "" then Num(0)
    else if t[0] == '-' || t[0] == '+' then
      if |t| > 1 && IsDigits(t[1..]) then
        Num(if t[0] == '-' then -(DecimalValue(t[1..]) as int) else DecimalValue(t[1..]))
      else NaN
    else if IsDigits(t) then Num(DecimalValue(t))
    else NaN
  }

  /**
   * Unary `+` applied to a string (StringToNumber, section 7.1.4.1.1 of ECMA-262), restricted to
   * decimal integers: white space is trimmed, an empty string is 0, an optional sign may precede
   * the digits; anything else is NaN.
   */
  function ToNumber(s: string): (r: Number)
    ensures var t := Trim(s); t == "" ==> r == Num(0)
    ensures var t := Trim(s); IsDigits(t) ==> r == Num(DecimalValue(t))
    ensures var t := Trim(s); |t| > 1 && t[0] == '+' && IsDigits(t[1..]) ==> r == Num(DecimalValue(t[1..]))
    ensures var t := Trim(s); |t| > 1 && t[0] == '-' && IsDigits(t[1..]) ==> r == Num(-(DecimalValue(t[1..]) as int))
  {
    LiteralValue(Trim(s))
  }

  /** Unary `+` trims its operand itself, so `+p.trim()` is `+p`. */
  lemma ToNumberOfTrimmed(s: string)
    ensures ToNumber(Trim(s)) == ToNumber(s)
  {
    TrimIdempotent(s);
  }

  // ---------------------------------------------------------------- number to string

  function DigitChar(d: nat): (c: char)
    requires d < 10
    ensures IsDigit(c) && DigitValue(c) == d
  {
    ('0' as int + d) as char
  }

  /** The decimal rendering of a natural number, without leading zeros. */
  function NatToString(n: nat): (s: string)
    ensures s != [] && IsDigits(s)
    ensures s[0] != '0' || n == 0
  {
    if n < 10 then [DigitChar(n)] else NatToString(n / 10) + [DigitChar(n % 10)]
  }

  /** The rendering of an integer inside a template literal (`${n}`). */
  function IntToString(n: int): (r: string)
    ensures r != [] && (r[0] == '-' <==> n < 0)
    ensures var digits := if n < 0 then r[1..] else r;
      digits != [] && IsDigits(digits) && (digits[0] != '0' || n == 0)
  {
    if n < 0 then "-" + NatToString(-n) else NatToString(n)
  }

  lemma {:induction false} DecimalOfNatToString(n: nat)
    ensures DecimalValue(NatToString(n)) == n
  {
    if n >= 10 {
      DecimalOfNatToString(n / 10);
      var s := NatToString(n);
      assert s[..|s| - 1] == NatToString(n / 10);
    }
  }

  /** A non-empty digit string reads back as its value. */
  lemma ToNumberOfDigits(d: string)
    requires d != [] && IsDigits(d)
    ensures ToNumber(d) == Num(DecimalValue(d))
  {
    TrimUntouched(d);
  }

  /** A minus sign followed by a non-empty digit string reads back as the negated value. */
  lemma ToNumberOfNegated(d: string)
    requires d != [] && IsDigits(d)
    ensures ToNumber("-" + d) == Num(-(DecimalValue(d) as int))
  {
    var s := "-" + d;
    assert s[1..] == d;
    assert s[|s| - 1] == d[|d| - 1];
    TrimUntouched(s);
  }

  /** Rendering a number and reading it back with unary `+` yields the same number. */
  lemma ToNumberOfIntToString(n: int)
    ensures ToNumber(IntToString(n)) == Num(n)
  {
    if n < 0 {
      var d := NatToString(-n);
      DecimalOfNatToString(-n);
      ToNumberOfNegated(d);
      assert IntToString(n) == "-" + d;
    } else {
      var d := NatToString(n);
      DecimalOfNatToString(n);
      ToNumberOfDigits(d);
      assert IntToString(n) == d;
    }
  }

  /** Rendered numbers contain no colon. */
  lemma IntToStringNoColon(n: int)
    ensures ':' !in IntToString(n)
  {
    var s := IntToString(n);
    if n < 0 {
      var d := NatToString(-n);
      forall i | 0 <= i < |s| ensures s[i] != ':' {
        if i > 0 { assert s[i] == d[i - 1]; }
      }
    }
  }
}
