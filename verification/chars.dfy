/**
 * Character classes and the C string helpers the firmware leans on:
 * `isspace`, hexadecimal digits, ASCII case folding for `strcasecmp`,
 * NUL-terminated copies and in-place trimming.
 *
 * Characters stand for the bytes of a C string; the classification is that of
 * the "C" locale, which is the only one the firmware uses.
 */
module Chars {
  import opened Wrappers

  /** One octet, as `uint8_t` holds it. */
  type Byte = x: int | 0 <= x < 256

  /** Bytes read as the characters of a C `char` buffer. */
  function BytesToChars(b: seq<Byte>): (r: string)
    ensures |r| == |b| && forall k :: 0 <= k < |b| ==> r[k] as int == b[k]
  {
    seq(|b|, k requires 0 <= k < |b| => b[k] as char)
  }

  /** `isspace` in the "C" locale: space, TAB, LF, VT, FF and CR. */
  predicate IsSpace(c: char) {
    c == ' ' || ('\t' <= c <= '\r')
  }

  predicate AllSpace(s: string) {
    forall k :: 0 <= k < |s| ==> IsSpace(s[k])
  }

  predicate IsDigit(c: char) {
    '0' <= c <= '9'
  }

  predicate IsHexDigit(c: char) {
    IsDigit(c) || ('a' <= c <= 'f') || ('A' <= c <= 'F')
  }

  /** The value of one hexadecimal digit, in either case. */
  function HexValue(c: char): (r: nat)
    requires IsHexDigit(c)
    ensures r < 16
    ensures IsDigit(c) ==> r < 10
  {
    if IsDigit(c) then (c - '0') as nat
    else if 'a' <= c <= 'f' then (c - 'a') as nat + 10
    else (c - 'A') as nat + 10
  }

  /** The lower-case hexadecimal digit for `n`, as `%x` prints it. */
  function HexDigit(n: nat): (c: char)
    requires n < 16
    ensures IsHexDigit(c) && HexValue(c) == n
    ensures !('A' <= c <= 'F')
  {
    if n < 10 then ('0' as int + n) as char else ('a' as int + n - 10) as char
  }

  /** ASCII `tolower`. */
  function Lower(c: char): char {
    if 'A' <= c <= 'Z' then (c as int + 32) as char else c
  }

  /** ASCII `toupper`. */
  function Upper(c: char): char {
    if 'a' <= c <= 'z' then (c as int - 32) as char else c
  }

  /** Each character of `s` through `Lower`. */
  function LowerString(s: string): (r: string)
    ensures |r| == |s| && forall k :: 0 <= k < |s| ==> r[k] == Lower(s[k])
  {
    seq(|s|, k requires 0 <= k < |s| => Lower(s[k]))
  }

  /** `strcasecmp(a, b) == 0`. */
  predicate EqualsIgnoreCase(a: string, b: string) {
    |a| == |b| && forall k :: 0 <= k < |a| ==> Lower(a[k]) == Lower(b[k])
  }

  /** The C string a buffer holds: everything before its first NUL. */
  function CString(s: string): (r: string)
    ensures |r| <= |s| && r == s[..|r|]
    ensures '\0' !in r
    ensures |r| < |s| ==> s[|r|] == '\0'
  {
    if s == [] || s[0] == '\0' then [] else [s[0]] + CString(s[1..])
  }

  /** What `strncpy` into a buffer of `n + 1` bytes keeps: at most `n` bytes. */
  function Truncate(s: string, n: nat): (r: string)
    ensures |r| == if |s| <= n then |s| else n
    ensures r == s[..|r|]
  {
    if |s| <= n then s else s[..n]
  }

  /** Against a word written in lower case, `strcasecmp` is comparing the lower-cased text. */
  lemma EqualsIgnoreCaseLower(t: string, w: string)
    requires forall k :: 0 <= k < |w| ==> Lower(w[k]) == w[k]
    ensures EqualsIgnoreCase(t, w) <==> LowerString(t) == w
  {
    if LowerString(t) == w {
      assert forall k :: 0 <= k < |t| ==> Lower(t[k]) == Lower(w[k]);
    }
  }

  /** Case-insensitive equality is an equivalence. */
  lemma EqualsIgnoreCaseLowerString(a: string, b: string)
    ensures EqualsIgnoreCase(a, b) <==> LowerString(a) == LowerString(b)
  {
    if LowerString(a) == LowerString(b) {
      assert forall k :: 0 <= k < |a| ==> LowerString(a)[k] == LowerString(b)[k];
    }
  }

  /** Index of the first `c` in `s` (`strchr`), if any. */
  function FirstIndexOf(s: string, c: char): (r: Option<nat>)
    ensures r.None? <==> c !in s
    ensures r.Some? ==> r.value < |s| && s[r.value] == c && c !in s[..r.value]
  {
    if s == [] then None
    else if s[0] == c then Some(0)
    else match FirstIndexOf(s[1..], c)
      case None => None
      case Some(i) => assert s[..i + 1] == [s[0]] + s[1..][..i]; Some(i + 1)
  }

  /** A `c` at `i` with none before it is the first one. */
  lemma {:induction false} FirstIndexOfIs(s: string, c: char, i: nat)
    requires i < |s| && s[i] == c && c !in s[..i]
    ensures FirstIndexOf(s, c) == Some(i)
    decreases i
  {
    if i > 0 {
      assert s[0] == s[..i][0];
      assert s[1..][..i - 1] == s[..i][1..];
      FirstIndexOfIs(s[1..], c, i - 1);
    }
  }

  /** `s` starts with `p` (`strncmp(s, p, |p|) == 0`). */
  predicate HasPrefix(s: string, p: string) {
    |p| <= |s| && s[..|p|] == p
  }

  /** Drops leading `isspace` characters. */
  function TrimLeft(s: string): (r: string)
    ensures |r| <= |s| && r == s[|s| - |r|..]
    ensures AllSpace(s[..|s| - |r|])
    ensures r != [] ==> !IsSpace(r[0])
    decreases |s|
  {
    if s != [] && IsSpace(s[0]) then
      var r := TrimLeft(s[1..]);
      assert s[..|s| - |r|] == [s[0]] + s[1..][..|s| - 1 - |r|];
      r
    else s
  }

  /** Text that starts with a non-space has nothing to drop. */
  lemma TrimLeftKeeps(s: string)
    requires s != [] && !IsSpace(s[0])
    ensures TrimLeft(s) == s
  {
  }

  /** Drops trailing `isspace` characters. */
  function TrimRight(s: string): (r: string)
    ensures |r| <= |s| && r == s[..|r|]
    ensures AllSpace(s[|r|..])
    ensures r != [] ==> !IsSpace(r[|r| - 1])
    decreases |s|
  {
    if s != [] && IsSpace(s[|s| - 1]) then
      var r := TrimRight(s[..|s| - 1]);
      assert s[|r|..] == s[..|s| - 1][|r|..] + [s[|s| - 1]];
      r
    else s
  }

  /** No whitespace at either end. */
  predicate Trimmed(s: string) {
    s != [] ==> !IsSpace(s[0]) && !IsSpace(s[|s| - 1])
  }

  /**
   * `trim_in_place` (main/mqtt_commands.cpp): the infix of `s` that is left
   * once the whitespace on both ends is gone.
   */
  function Trim(s: string): (r: string)
    ensures |r| <= |s|
    ensures Trimmed(r)
  {
    TrimRight(TrimLeft(s))
  }

  /** What `Trim` removes is whitespace on each side of an infix of `s`. */
  lemma TrimIsInfix(s: string) returns (lo: nat, hi: nat)
    ensures lo <= hi <= |s| && Trim(s) == s[lo..hi]
    ensures AllSpace(s[..lo]) && AllSpace(s[hi..])
  {
    var t := TrimLeft(s);
    var r := TrimRight(t);
    lo := |s| - |t|;
    hi := lo + |r|;
    assert t == s[lo..];
    assert r == t[..|r|];
    assert s[hi..] == t[|r|..];
  }

  /** Every character of a slice is a character of the whole. */
  lemma InfixChars(s: string, lo: nat, hi: nat)
    requires lo <= hi <= |s|
    ensures forall c :: c in s[lo..hi] ==> c in s
  {
    forall c | c in s[lo..hi]
      ensures c in s
    {
      var k :| 0 <= k < hi - lo && s[lo..hi][k] == c;
      assert s[lo + k] == c;
    }
  }

  /** Trimming only removes characters: everything in the result was in the input. */
  lemma TrimChars(s: string)
    ensures forall c :: c in Trim(s) ==> c in s
  {
    var lo, hi := TrimIsInfix(s);
    InfixChars(s, lo, hi);
  }

  lemma AllSpaceAppend(a: string, b: string)
    requires AllSpace(a) && AllSpace(b)
    ensures AllSpace(a + b)
  {
  }

  /** A string that is all whitespace trims to the empty string, and only such a string does. */
  lemma TrimEmptyIff(s: string)
    ensures Trim(s) == [] <==> AllSpace(s)
  {
    var lo := |s| - |TrimLeft(s)|;
    if Trim(s) == [] {
      assert s == s[..lo] + s[lo..];
      AllSpaceAppend(s[..lo], s[lo..]);
    } else {
      assert s[lo] == Trim(s)[0];
    }
  }

  /** A string without whitespace at either end is its own trim. */
  lemma {:induction false} TrimFixesTrimmed(s: string)
    requires Trimmed(s)
    ensures Trim(s) == s
  {
  }

  /** Trimming twice is trimming once. */
  lemma TrimIdempotent(s: string)
    ensures Trim(Trim(s)) == Trim(s)
  {
    TrimFixesTrimmed(Trim(s));
  }

  /** A C string followed by its NUL and anything else reads back as itself. */
  lemma {:induction false} CStringOfTerminated(s: string, rest: string)
    requires '\0' !in s
    ensures CString(s + ['\0'] + rest) == s
  {
    if s != [] {
      assert (s + ['\0'] + rest)[1..] == s[1..] + ['\0'] + rest;
      CStringOfTerminated(s[1..], rest);
    }
  }

  /** A string without NUL is its own C string. */
  lemma {:induction false} CStringOfClean(s: string)
    requires '\0' !in s
    ensures CString(s) == s
  {
    if s != [] {
      assert s[0] in s;
      CStringOfClean(s[1..]);
      assert s == [s[0]] + s[1..];
    }
  }
}
