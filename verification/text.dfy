/**
 * The JavaScript conversions between numbers and text that the components
 * rely on: `Number.prototype.toString`, `String.prototype.padStart`,
 * `parseInt(value, 10)`, the `x || fallback` idiom, `!s.trim()` and the
 * truncating `%` operator. Numbers are integers here; fractional and
 * out-of-range JavaScript numbers are not modelled.
 */
module Text {
  import opened Wrappers

  /** The ASCII and Latin-1 members of the white-space set that `trim` and `parseInt` skip */
  predicate IsSpace(c: char) {
    c == ' ' || c == '\t' || c == '\n' || c == '\r' || c == '\U{B}' || c == '\U{C}' || c == '\U{A0}'
  }

  /** `!s.trim()`: the string is empty or made of white space only */
  predicate Blank(s: string) {
    forall i :: 0 <= i < |s| ==> IsSpace(s[i])
  }

  predicate IsDigit(c: char) {
    '0' <= c <= '9'
  }

  predicate AllDigits(s: string) {
    forall i :: 0 <= i < |s| ==> IsDigit(s[i])
  }

  function DigitChar(d: nat): (c: char)
    requires d < 10
    ensures IsDigit(c)
    ensures c as int - '0' as int == d
  {
    ('0' as int + d) as char
  }

  function DigitValue(c: char): (d: nat)
    requires IsDigit(c)
    ensures d < 10 && DigitChar(d) == c
  {
    c as int - '0' as int
  }

  /** Decimal rendering of a non-negative number, most significant digit first, no leading zero */
  function NatToString(n: nat): (s: string)
    ensures |s| > 0 && AllDigits(s)
    ensures (|s| == 1) == (n < 10)
    ensures |s| > 1 ==> s[0] != '0'
    decreases n
  {
    if n < 10 then [DigitChar(n)] else NatToString(n / 10) + [DigitChar(n % 10)]
  }

  /** `i.toString()` for an integer */
  function IntToString(i: int): (s: string)
    ensures |s| > 0
    ensures i >= 0 ==> s == NatToString(i)
    ensures i < 0 ==> s[0] == '-' && s[1..] == NatToString(-i)
  {
    if i < 0 then "-" + NatToString(-i) else NatToString(i)
  }

  /** The value of a string of decimal digits; the empty string reads as 0 (it is only applied to digit strings) */
  function DigitsValue(s: string): nat
    decreases |s|
  {
    if |s| == 0 then 0
    else
      var last := s[|s| - 1];
      DigitsValue(s[..|s| - 1]) * 10 + (if IsDigit(last) then DigitValue(last) else 0)
  }

  lemma {:induction false} DigitsValueOfNatToString(n: nat)
    ensures DigitsValue(NatToString(n)) == n
    decreases n
  {
    if n >= 10 {
      var s := NatToString(n);
      assert s[..|s| - 1] == NatToString(n / 10);
      DigitsValueOfNatToString(n / 10);
    }
  }

  /** A leading zero does not change a decimal value */
  lemma {:induction false} LeadingZero(s: string)
    requires AllDigits(s)
    ensures AllDigits("0" + s) && DigitsValue("0" + s) == DigitsValue(s)
    decreases |s|
  {
    if |s| > 0 {
      var t := "0" + s;
      assert t[..|t| - 1] == "0" + s[..|s| - 1];
      LeadingZero(s[..|s| - 1]);
    }
  }

  /** Distinct numbers render to distinct strings */
  lemma NatToStringInjective(a: nat, b: nat)
    requires NatToString(a) == NatToString(b)
    ensures a == b
  {
    DigitsValueOfNatToString(a);
    DigitsValueOfNatToString(b);
  }

  lemma IntToStringInjective(a: int, b: int)
    requires IntToString(a) == IntToString(b)
    ensures a == b
  {
    var s := IntToString(a);
    assert a < 0 <==> s[0] == '-';
    assert b < 0 <==> s[0] == '-';
    if a < 0 {
      NatToStringInjective(-a, -b);
    } else {
      NatToStringInjective(a, b);
    }
  }

  /** `s.padStart(width, fill)` */
  function PadStart(s: string, width: nat, fill: char): (r: string)
    ensures |r| == if |s| >= width then |s| else width
    ensures r[|r| - |s|..] == s
    ensures forall i :: 0 <= i < |r| - |s| ==> r[i] == fill
  {
    if |s| >= width then s else seq(width - |s|, _ => fill) + s
  }

  /** Zero-padding a rendered number to two places keeps it a digit string of the same value */
  lemma PadTwoDigits(n: nat)
    ensures AllDigits(PadStart(NatToString(n), 2, '0'))
    ensures DigitsValue(PadStart(NatToString(n), 2, '0')) == n
    ensures n < 100 ==> PadStart(NatToString(n), 2, '0') == [DigitChar(n / 10), DigitChar(n % 10)]
  {
    var s := NatToString(n);
    DigitsValueOfNatToString(n);
    if |s| < 2 {
      assert PadStart(s, 2, '0') == "0" + s;
      LeadingZero(s);
    } else if n < 100 {
      assert s == NatToString(n / 10) + [DigitChar(n % 10)];
    }
  }

  /** The first position holding `c`, if any */
  function IndexOf(s: string, c: char): (r: Option<nat>)
    ensures r.Some? ==> r.value < |s| && s[r.value] == c && c !in s[..r.value]
    ensures r.None? ==> c !in s
    decreases |s|
  {
    if |s| == 0 then None
    else if s[0] == c then Some(0)
    else match IndexOf(s[1..], c)
      case None => None
      case Some(k) => assert s[..k + 1] == [s[0]] + s[1..][..k]; Some(k + 1)
  }

  /** A character that is absent from a prefix is first found right after it */
  lemma {:induction false} IndexOfAfter(prefix: string, rest: string, c: char)
    requires c !in prefix && |rest| > 0 && rest[0] == c
    ensures IndexOf(prefix + rest, c) == Some(|prefix|)
    decreases |prefix|
  {
    if |prefix| > 0 {
      assert (prefix + rest)[1..] == prefix[1..] + rest;
      IndexOfAfter(prefix[1..], rest, c);
    } else {
      assert prefix + rest == rest;
    }
  }

  /** The string with its leading white space removed */
  function SkipSpaces(s: string): (r: string)
    ensures |r| <= |s|
    decreases |s|
  {
    if |s| > 0 && IsSpace(s[0]) then SkipSpaces(s[1..]) else s
  }

  /** What white-space skipping keeps is a suffix that starts with no space; what it drops is blank */
  lemma {:induction false} SkipSpacesSuffix(s: string)
    ensures var r := SkipSpaces(s);
            && r == s[|s| - |r|..]
            && (|r| > 0 ==> !IsSpace(r[0]))
            && Blank(s[..|s| - |r|])
    decreases |s|
  {
    if |s| > 0 && IsSpace(s[0]) {
      var r := SkipSpaces(s[1..]);
      SkipSpacesSuffix(s[1..]);
      assert s[1..][|s| - 1 - |r|..] == s[|s| - |r|..];
      assert s[..|s| - |r|] == [s[0]] + s[1..][..|s| - 1 - |r|];
    }
  }

  /** The longest prefix made of decimal digits */
  function DigitPrefix(s: string): (r: string)
    ensures |r| <= |s| && AllDigits(r)
    decreases |s|
  {
    if |s| > 0 && IsDigit(s[0]) then [s[0]] + DigitPrefix(s[1..]) else []
  }

  /** The digit prefix is a prefix, and the character after it, if any, is no digit */
  lemma {:induction false} DigitPrefixLongest(s: string)
    ensures var r := DigitPrefix(s);
            r == s[..|r|] && (|r| < |s| ==> !IsDigit(s[|r|]))
    decreases |s|
  {
    if |s| > 0 && IsDigit(s[0]) {
      DigitPrefixLongest(s[1..]);
    }
  }

  /**
   * `parseInt(s, 10)`: skip leading white space, read an optional sign and
   * then the longest run of digits; `None` stands for `NaN` (no digit).
   */
  function ParseInt(s: string): Option<int> {
    ParseSigned(SkipSpaces(s))
  }

  /** The optional sign and the digits after it, once the white space is gone */
  function ParseSigned(t: string): Option<int> {
    if |t| > 0 && t[0] == '-' then
      match ParseDigits(t[1..])
      case None => None
      case Some(v) => Some(-v)
    else if |t| > 0 && t[0] == '+' then ParseDigits(t[1..])
    else ParseDigits(t)
  }

  /** The value of the leading digits; `None` when there are none */
  function ParseDigits(body: string): (r: Option<int>)
    ensures r.Some? ==> r.value >= 0
  {
    var digits := DigitPrefix(body);
    if |digits| == 0 then None else Some(DigitsValue(digits))
  }

  /** Reading back what `toString` wrote gives the number again */
  lemma ParseIntRoundTrip(i: int)
    ensures ParseInt(IntToString(i)) == Some(i)
  {
    assert IntToString(i) + [] == IntToString(i);
    ParseIntFollowed(i, []);
  }

  /** `parseInt` stops at the first character after the digits, so a rendered number followed by a non-digit reads back */
  lemma ParseIntFollowed(i: int, rest: string)
    requires |rest| == 0 || !IsDigit(rest[0])
    ensures ParseInt(IntToString(i) + rest) == Some(i)
  {
    var n: nat := if i < 0 then -i else i;
    ParseDigitsOfNat(n, rest);
    if i < 0 {
      Regroup("-", NatToString(n), rest);
      NegativeText(NatToString(n) + rest, n);
    } else {
      NonNegativeText(NatToString(n) + rest, n);
    }
  }

  /** The rendering of `n` followed by a non-digit has `n` as its leading digits' value */
  lemma ParseDigitsOfNat(n: nat, rest: string)
    requires |rest| == 0 || !IsDigit(rest[0])
    ensures ParseDigits(NatToString(n) + rest) == Some(n)
  {
    DigitsThenOther(NatToString(n), rest);
    DigitsValueOfNatToString(n);
  }

  /** Text that starts with a digit reads as the value of its leading digits */
  lemma NonNegativeText(body: string, v: nat)
    requires |body| > 0 && IsDigit(body[0])
    requires ParseDigits(body) == Some(v)
    ensures ParseInt(body) == Some(v)
  {
    NoSpaceFirst(body);
  }

  /** Text that starts with a minus sign reads as the negated value of the digits after it */
  lemma NegativeText(body: string, v: nat)
    requires ParseDigits(body) == Some(v)
    ensures ParseInt("-" + body) == Some(-(v as int))
  {
    NoSpaceFirst("-" + body);
    NegativeBody(body, v);
  }

  /** Concatenation regrouped */
  lemma Regroup(a: string, b: string, c: string)
    ensures a + b + c == a + (b + c)
  {
  }

  /** White-space skipping leaves text that starts with something else as it is */
  lemma NoSpaceFirst(s: string)
    requires |s| > 0 && (s[0] == '-' || IsDigit(s[0]))
    ensures SkipSpaces(s) == s
  {
  }

  /** After a minus sign, text whose digits read as `v` reads as `-v` */
  lemma NegativeBody(body: string, v: nat)
    requires ParseDigits(body) == Some(v)
    ensures ParseSigned("-" + body) == Some(-(v as int))
  {
    assert ("-" + body)[1..] == body;
  }

  /** The digit prefix of digits followed by a non-digit is exactly those digits */
  lemma {:induction false} DigitsThenOther(digits: string, rest: string)
    requires AllDigits(digits)
    requires |rest| == 0 || !IsDigit(rest[0])
    ensures DigitPrefix(digits + rest) == digits
    decreases |digits|
  {
    if |digits| == 0 {
      assert digits + rest == rest;
    } else {
      assert (digits + rest)[0] == digits[0];
      assert (digits + rest)[1..] == digits[1..] + rest;
      DigitsThenOther(digits[1..], rest);
    }
  }

  /** Text with no digit at all is `NaN` to `parseInt` */
  lemma ParseIntWithoutDigits(s: string)
    requires forall i :: 0 <= i < |s| ==> !IsDigit(s[i])
    ensures ParseInt(s) == None
  {
    var t := SkipSpaces(s);
    SkipSpacesSuffix(s);
    var body := if |t| > 0 && (t[0] == '-' || t[0] == '+') then t[1..] else t;
    assert |body| == 0 || !IsDigit(body[0]) by {
      if |body| > 0 {
        assert body[0] == s[|s| - |body|];
      }
    }
    assert DigitPrefix(body) == [];
  }

  /**
   * `parseInt(input, 10) || fallback`: both `NaN` and `0` are falsy, so each
   * of them yields the fallback.
   */
  function NumberOr(input: string, fallback: int): (r: int)
    ensures ParseInt(input).None? ==> r == fallback
    ensures ParseInt(input) == Some(0) ==> r == fallback
    ensures ParseInt(input).Some? && ParseInt(input).value != 0 ==> r == ParseInt(input).value
  {
    match ParseInt(input)
    case None => fallback
    case Some(v) => if v == 0 then fallback else v
  }

  /** A number written by `toString` comes back through `parseInt(...) || fallback` unless it is 0 */
  lemma NumberOrRoundTrip(v: int, fallback: int)
    ensures NumberOr(IntToString(v), fallback) == if v == 0 then fallback else v
  {
    ParseIntRoundTrip(v);
  }

  /** JavaScript's `a % b` for `b > 0`: the remainder takes the sign of `a` */
  function JsRem(a: int, b: int): (r: int)
    requires b > 0
    ensures a >= 0 ==> 0 <= r < b
    ensures a < 0 ==> -b < r <= 0
    ensures a >= 0 ==> r == a % b
    ensures (a - r) % b == 0
  {
    if a >= 0 then
      MultipleRem(b, a / b);
      a % b
    else
      NegativeRem(a, b);
      -((-a) % b)
  }

  /** Truncating a negative dividend leaves a multiple of the divisor behind */
  lemma NegativeRem(a: int, b: int)
    requires a < 0 && b > 0
    ensures (a + (-a) % b) % b == 0
  {
    var n := -a;
    var q := n / b;
    assert n == b * q + n % b;
    assert a + n % b == b * -q;
    MultipleRem(b, -q);
  }

  /** A multiple of `b` leaves no remainder */
  lemma MultipleRem(b: int, q: int)
    requires b > 0
    ensures (b * q) % b == 0
  {
    var x := b * q;
    var d := q - x / b;
    assert b * d == x % b;
    assert d == 0;
  }

  /** A whole number of minutes leaves no seconds, whatever its sign */
  lemma WholeMinutes(k: int)
    ensures JsRem(k * 60, 60) == 0
  {
    var n: nat := if k < 0 then -k else k;
    assert (n * 60) % 60 == 0;
  }
}
