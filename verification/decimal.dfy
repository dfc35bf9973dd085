/**
 * Decimal text of integers: what `%d`/`%lld`/`%u` and Python's `str(int)`
 * print, and the digit strings that `strtol`, `strtoull` and Python's `int`
 * read back.
 */
module Decimal {
  import opened Chars

  predicate AllDigits(s: string) {
    forall k :: 0 <= k < |s| ==> IsDigit(s[k])
  }

  /** The value of a string of decimal digits, most significant first. */
  function DigitsValue(s: string): (v: nat)
    requires AllDigits(s)
    decreases |s|
  {
    if s == [] then 0 else DigitsValue(s[..|s| - 1]) * 10 + (s[|s| - 1] - '0') as nat
  }

  /** Shortest decimal spelling of `n`: no sign and no leading zero. */
  function NatToString(n: nat): (s: string)
    ensures s != [] && AllDigits(s)
    ensures |s| > 1 ==> s[0] != '0'
    decreases n
  {
    if n < 10 then [('0' as int + n) as char]
    else NatToString(n / 10) + [('0' as int + n % 10) as char]
  }

  /** `%lld` of `i`: a minus sign for negative values, then the digits of |i|. */
  function IntToString(i: int): (s: string)
    ensures s != []
    ensures i < 0 <==> s[0] == '-'
  {
    if i < 0 then "-" + NatToString(-i) else NatToString(i)
  }

  /** Reading the printed digits back gives the number printed. */
  lemma {:induction false} NatToStringRoundTrip(n: nat)
    ensures DigitsValue(NatToString(n)) == n
    decreases n
  {
    if n >= 10 {
      var s := NatToString(n);
      assert s[..|s| - 1] == NatToString(n / 10);
      NatToStringRoundTrip(n / 10);
    }
  }

  /** Distinct numbers print differently. */
  lemma NatToStringInjective(a: nat, b: nat)
    requires NatToString(a) == NatToString(b)
    ensures a == b
  {
    NatToStringRoundTrip(a);
    NatToStringRoundTrip(b);
  }

  /** The same holds with a sign: `%lld` never prints two integers alike. */
  lemma IntToStringInjective(a: int, b: int)
    requires IntToString(a) == IntToString(b)
    ensures a == b
  {
    if a < 0 && b < 0 {
      assert NatToString(-a) == IntToString(a)[1..];
      assert NatToString(-b) == IntToString(b)[1..];
      NatToStringInjective(-a, -b);
    } else if a >= 0 && b >= 0 {
      NatToStringInjective(a, b);
    }
  }

  /** The longest prefix of `s` made of decimal digits. */
  function LeadingDigits(s: string): (r: string)
    ensures |r| <= |s| && r == s[..|r|] && AllDigits(r)
    ensures |r| < |s| ==> !IsDigit(s[|r|])
  {
    if s == [] || !IsDigit(s[0]) then [] else [s[0]] + LeadingDigits(s[1..])
  }

  /** The range of a 32-bit `long`, as on both ESP32 architectures. */
  const LongMin: int := -0x8000_0000
  const LongMax: int := 0x7FFF_FFFF

  /** 1 when `t` starts with a sign, else 0. */
  function SignLength(t: string): (n: nat)
    ensures n <= |t|
    ensures n == 1 <==> t != [] && (t[0] == '+' || t[0] == '-')
  {
    if t != [] && (t[0] == '+' || t[0] == '-') then 1 else 0
  }

  /**
   * An optional sign and the decimal digits after it: the signed value and
   * how many characters were read, none when no digit follows the sign.
   */
  function ReadSigned(t: string): (r: (int, nat))
    ensures r.1 <= |t|
    ensures r.1 == 0 ==> r.0 == 0
    ensures 0 < r.1 < |t| ==> !IsDigit(t[r.1])
  {
    var sign := SignLength(t);
    var digits := LeadingDigits(t[sign..]);
    if digits == [] then (0, 0)
    else
      var magnitude: int := DigitsValue(digits);
      assert t[sign..][|digits|..] == t[sign + |digits|..];
      (if sign == 1 && t[0] == '-' then -magnitude else magnitude, sign + |digits|)
  }

  /**
   * `strtol(s, &end, 10)`: the value read and the index `end` points at.
   * Leading `isspace` characters are skipped; without digits nothing is
   * read and `end` is the start of `s`; values out of range saturate.
   */
  function Strtol(s: string): (r: (int, nat))
    ensures LongMin <= r.0 <= LongMax && r.1 <= |s|
    ensures r.1 == 0 ==> r.0 == 0
    ensures 0 < r.1 < |s| ==> !IsDigit(s[r.1])
  {
    var t := TrimLeft(s);
    var (v, n) := ReadSigned(t);
    if n == 0 then (0, 0)
    else
      assert n < |t| ==> t[n] == s[|s| - |t| + n];
      (if v < LongMin then LongMin else if v > LongMax then LongMax else v, |s| - |t| + n)
  }

  /** The digits of a printed number are all leading digits. */
  lemma {:induction false} LeadingDigitsOfDigits(s: string, rest: string)
    requires AllDigits(s) && (rest == [] || !IsDigit(rest[0]))
    ensures LeadingDigits(s + rest) == s
    decreases |s|
  {
    if s != [] {
      assert (s + rest)[1..] == s[1..] + rest;
      LeadingDigitsOfDigits(s[1..], rest);
    } else {
      assert s + rest == rest;
    }
  }

  /** A sign and digits read back the number `%ld` printed. */
  lemma ReadSignedPrinted(n: int, rest: string)
    requires rest == [] || !IsDigit(rest[0])
    ensures ReadSigned(IntToString(n) + rest) == (n, |IntToString(n)|)
  {
    var m: nat := if n < 0 then -n else n;
    var digits := NatToString(m);
    assert DigitsValue(digits) == m by {
      NatToStringRoundTrip(m);
    }
    if n < 0 {
      assert IntToString(n) + rest == "-" + (digits + rest);
      assert ReadSigned("-" + (digits + rest)) == (-(DigitsValue(digits) as int), 1 + |digits|) by {
        ReadNegative(digits, rest);
      }
    } else {
      assert IntToString(n) + rest == digits + rest;
      assert ReadSigned(digits + rest) == (DigitsValue(digits), |digits|) by {
        ReadUnsigned(digits, rest);
      }
    }
  }

  /** Digits followed by a non-digit read back as written. */
  lemma ReadUnsigned(digits: string, rest: string)
    requires digits != [] && AllDigits(digits)
    requires rest == [] || !IsDigit(rest[0])
    ensures ReadSigned(digits + rest) == (DigitsValue(digits), |digits|)
  {
    var s := digits + rest;
    assert s[0] == digits[0] && IsDigit(digits[0]);
    assert SignLength(s) == 0;
    assert s[0..] == s;
    LeadingDigitsOfDigits(digits, rest);
    ReadSignedIs(s, 0, digits);
  }

  /** A minus sign, digits and a non-digit read back as the negated digits. */
  lemma ReadNegative(digits: string, rest: string)
    requires digits != [] && AllDigits(digits)
    requires rest == [] || !IsDigit(rest[0])
    ensures ReadSigned("-" + (digits + rest)) == (-(DigitsValue(digits) as int), 1 + |digits|)
  {
    var s := "-" + (digits + rest);
    assert s[0] == '-';
    assert SignLength(s) == 1;
    assert s[1..] == digits + rest;
    LeadingDigitsOfDigits(digits, rest);
    ReadSignedIs(s, 1, digits);
  }

  /** `ReadSigned` once the sign and the digits after it are known. */
  lemma ReadSignedIs(t: string, sign: nat, digits: string)
    requires SignLength(t) == sign && LeadingDigits(t[sign..]) == digits && digits != []
    ensures ReadSigned(t) == (if sign == 1 && t[0] == '-' then -(DigitsValue(digits) as int) else DigitsValue(digits), sign + |digits|)
  {
  }

  /**
   * `strtol` reads back what `%ld` printed for any `long`, and stops right
   * after it when a non-digit follows.
   */
  lemma StrtolReadsPrinted(n: int, rest: string)
    requires LongMin <= n <= LongMax
    requires rest == [] || !IsDigit(rest[0])
    ensures Strtol(IntToString(n) + rest) == (n, |IntToString(n)|)
  {
    var s := IntToString(n) + rest;
    assert TrimLeft(s) == s by {
      assert !IsSpace(s[0]);
      TrimLeftKeeps(s);
    }
    assert ReadSigned(s) == (n, |IntToString(n)|) by {
      ReadSignedPrinted(n, rest);
    }
  }

  /** Without a digit after the blanks and the sign, `strtol` reads nothing and leaves `end` at the start. */
  lemma StrtolWithoutDigits(s: string)
    requires var t := TrimLeft(s); |t| <= SignLength(t) || !IsDigit(t[SignLength(t)])
    ensures Strtol(s) == (0, 0)
  {
  }
}
