/**
 * DS18B20 temperature probes on the 1-Wire bus (main/teplota.cpp): ROM
 * address text, address validity, the deduplicated and sorted bus scan,
 * and the mapping of configured addresses onto detected probes.
 *
 * A ROM address is a 64-bit number whose least significant byte is the
 * family code and whose most significant byte is the CRC-8 of the other
 * seven. The CRC-8 routine of the 1-Wire library is a parameter `crc8`.
 */
module Ds18b20 {
  import opened Wrappers
  import opened Chars

  const AddrLimit: nat := 0x1_0000_0000_0000_0000
  type Addr = a: int | 0 <= a < AddrLimit

  /** `ONEWIRE_NONE`, all bits set. */
  const NoAddr: Addr := 0xFFFF_FFFF_FFFF_FFFF
  const FamilyCode: Byte := 0x28
  /** `std::array<onewire_addr_t, 8>`: at most eight probes are kept. */
  const MaxDetected: nat := 8

  // ------------------------------------------------------------ ROM bytes

  function Pow256(i: nat): (r: nat)
    ensures r >= 1
  {
    if i == 0 then 1 else 256 * Pow256(i - 1)
  }

  /** `(addr >> (8 * i)) & 0xFF`. */
  function RomByte(addr: Addr, i: nat): Byte {
    (addr / Pow256(i)) % 256
  }

  /** The eight ROM bytes, least significant first. */
  function Rom(addr: Addr): (r: seq<Byte>)
    ensures |r| == 8 && forall i :: 0 <= i < 8 ==> r[i] == RomByte(addr, i)
  {
    seq(8, i requires 0 <= i < 8 => RomByte(addr, i))
  }

  /**
   * `ds18b20_addr_is_valid`: not NONE, family code 0x28 in the low byte,
   * and the high byte equal to the CRC-8 of the seven bytes below it.
   */
  predicate IsValid(crc8: seq<Byte> -> Byte, addr: Addr) {
    addr != NoAddr && RomByte(addr, 0) == FamilyCode && crc8(Rom(addr)[..7]) == RomByte(addr, 7)
  }

  /** NONE is never a valid address, whatever the CRC says: its low byte is 0xFF. */
  lemma NoAddrHasNoFamily()
    ensures RomByte(NoAddr, 0) == 0xFF
  {
  }

  // ------------------------------------------------------------ text

  /** The value of hexadecimal digits, most significant first (`strtoull(s, &end, 16)`). */
  function HexNumber(s: string): (r: nat)
    requires forall k :: 0 <= k < |s| ==> IsHexDigit(s[k])
    decreases |s|
  {
    if s == [] then 0 else HexNumber(s[..|s| - 1]) * 16 + HexValue(s[|s| - 1])
  }

  function Pow16(k: nat): (r: nat)
    ensures r >= 1
  {
    if k == 0 then 1 else 16 * Pow16(k - 1)
  }

  /** The `k` lower-case hexadecimal digits of `n`, zero-padded (`%0*llx`). */
  function HexDigits(n: nat, k: nat): (r: string)
    ensures |r| == k && forall j :: 0 <= j < k ==> IsHexDigit(r[j]) && !('A' <= r[j] <= 'F')
  {
    if k == 0 then [] else HexDigits(n / 16, k - 1) + [HexDigit(n % 16)]
  }

  lemma {:induction false} HexNumberOfDigits(n: nat, k: nat)
    requires n < Pow16(k)
    ensures HexNumber(HexDigits(n, k)) == n
  {
    if k > 0 {
      var s := HexDigits(n, k);
      assert s[..k - 1] == HexDigits(n / 16, k - 1);
      HexNumberOfDigits(n / 16, k - 1);
    }
  }

  /** `format_onewire_addr`: empty for NONE, otherwise "0x" and sixteen lower-case hex digits. */
  function FormatAddr(addr: Addr): (r: string)
    ensures addr == NoAddr <==> r == []
    ensures addr != NoAddr ==> |r| == 18 && r[..2] == "0x"
    ensures addr != NoAddr ==> forall k :: 2 <= k < 18 ==> IsHexDigit(r[k])
  {
    if addr == NoAddr then [] else "0x" + HexDigits(addr, 16)
  }

  /**
   * The digit loop of `parse_onewire_addr`: up to sixteen hexadecimal
   * digits, whitespace skipped; None at any other character. Gives the
   * digits and what is left unread.
   */
  function CollectDigits(t: string, digits: string): (r: Option<(string, string)>)
    requires |digits| <= 16 && forall k :: 0 <= k < |digits| ==> IsHexDigit(digits[k])
    ensures r.Some? ==> |r.value.0| <= 16 && forall k :: 0 <= k < |r.value.0| ==> IsHexDigit(r.value.0[k])
    ensures r.Some? && |r.value.0| < 16 ==> r.value.1 == []
    decreases |t|
  {
    if t == [] || |digits| == 16 then Some((digits, t))
    else if IsSpace(t[0]) then CollectDigits(t[1..], digits)
    else if !IsHexDigit(t[0]) then None
    else CollectDigits(t[1..], digits + [t[0]])
  }

  /**
   * `parse_onewire_addr(text, out)`: without an output it fails and writes
   * nothing; otherwise the output starts as NONE. Missing text fails; blank
   * text succeeds with NONE. Otherwise an optional "0x"/"0X", exactly
   * sixteen hex digits with any whitespace between them, and only
   * whitespace after. Gives the result and what is left in the output.
   */
  function ParseAddr(text: Option<string>, hasOut: bool): (r: (bool, Option<Addr>))
    ensures !hasOut ==> r == (false, None)
    ensures hasOut ==> r.1.Some?
    ensures hasOut && text.None? ==> r == (false, Some(NoAddr))
    ensures hasOut && text.Some? && AllSpace(CString(text.value)) ==> r == (true, Some(NoAddr))
    ensures !r.0 && hasOut ==> r.1 == Some(NoAddr)
  {
    if !hasOut then (false, None)
    else if text.None? then (false, Some(NoAddr))
    else
      var s := TrimLeft(CString(text.value));
      if s == [] then (true, Some(NoAddr))
      else
        var p := ParseDigits(s);
        (p.0, Some(p.1))
  }

  /**
   * The part of `parse_onewire_addr` after leading whitespace: optional
   * "0x"/"0X", sixteen digits with whitespace between, whitespace after.
   * NONE when the text is refused.
   */
  function ParseDigits(s: string): (r: (bool, Addr))
    ensures !r.0 ==> r.1 == NoAddr
  {
    var t := if |s| >= 2 && s[0] == '0' && (s[1] == 'x' || s[1] == 'X') then s[2..] else s;
    match CollectDigits(t, [])
    case None => (false, NoAddr)
    case Some((digits, rest)) =>
      if !AllSpace(rest) || |digits| != 16 then (false, NoAddr)
      else
        HexNumberBound(digits);
        (true, HexNumber(digits))
  }

  lemma {:induction false} HexNumberBelow(s: string)
    requires forall k :: 0 <= k < |s| ==> IsHexDigit(s[k])
    ensures HexNumber(s) < Pow16(|s|)
  {
    if s != [] {
      HexNumberBelow(s[..|s| - 1]);
    }
  }

  lemma Pow16Is64Bits()
    ensures Pow16(16) == AddrLimit
  {
    assert Pow16(4) == 0x1_0000;
    assert Pow16(8) == 0x1_0000_0000;
    assert Pow16(12) == 0x1_0000_0000_0000;
  }

  lemma HexNumberBound(s: string)
    requires |s| == 16 && forall k :: 0 <= k < |s| ==> IsHexDigit(s[k])
    ensures HexNumber(s) < AddrLimit
  {
    HexNumberBelow(s);
    Pow16Is64Bits();
  }

  lemma {:induction false} CollectDigitsOfDigits(d: string, digits: string)
    requires |digits| + |d| <= 16
    requires forall k :: 0 <= k < |digits| ==> IsHexDigit(digits[k])
    requires forall k :: 0 <= k < |d| ==> IsHexDigit(d[k])
    ensures CollectDigits(d, digits) == Some((digits + d, []))
    decreases |d|
  {
    if d == [] {
      assert digits + d == digits;
    } else {
      assert !IsSpace(d[0]);
      assert (digits + [d[0]]) + d[1..] == digits + d;
      CollectDigitsOfDigits(d[1..], digits + [d[0]]);
    }
  }

  /** Text without NUL that starts with a non-space goes straight to the digit parser. */
  lemma ParseAddrOfClean(text: string)
    requires '\0' !in text && text != [] && !IsSpace(text[0])
    ensures ParseAddr(Some(text), true) == (ParseDigits(text).0, Some(ParseDigits(text).1))
  {
    CStringOfClean(text);
    TrimLeftKeeps(text);
  }

  /** The digit parser reads "0x" and sixteen hexadecimal digits as their value. */
  lemma ParseDigitsPrefixed(d: string)
    requires |d| == 16 && forall k :: 0 <= k < |d| ==> IsHexDigit(d[k])
    ensures ParseDigits("0x" + d) == (true, HexNumber(d))
  {
    var text := "0x" + d;
    assert text[2..] == d;
    CollectDigitsOfDigits(d, []);
    assert [] + d == d;
  }

  /** "0x" and sixteen hexadecimal digits parse to their value. */
  lemma ParsePrefixedDigits(d: string)
    requires |d| == 16 && forall k :: 0 <= k < |d| ==> IsHexDigit(d[k])
    ensures HexNumber(d) < AddrLimit
    ensures ParseAddr(Some("0x" + d), true) == (true, Some(HexNumber(d)))
  {
    HexNumberBound(d);
    var text := "0x" + d;
    assert '\0' !in text by {
      forall k | 0 <= k < |text| ensures text[k] != '\0' {
        if k >= 2 { assert text[k] == d[k - 2]; }
      }
    }
    assert ParseAddr(Some(text), true) == (ParseDigits(text).0, Some(ParseDigits(text).1)) by {
      ParseAddrOfClean(text);
    }
    assert ParseDigits(text) == (true, HexNumber(d)) by {
      ParseDigitsPrefixed(d);
    }
  }

  /** Parsing reads back what formatting wrote, for every address but NONE. */
  lemma ParseFormatRoundTrip(addr: Addr)
    requires addr != NoAddr
    ensures ParseAddr(Some(FormatAddr(addr)), true) == (true, Some(addr))
  {
    ParsePrefixedDigits(HexDigits(addr, 16));
    Pow16Is64Bits();
    HexNumberOfDigits(addr, 16);
  }

  /**
   * `load_configured_addresses` for one probe: an address text is kept
   * when it parses and is NONE or a valid DS18B20 address; otherwise, and
   * when the configuration could not be loaded, the probe stays NONE.
   */
  function ConfiguredAddr(crc8: seq<Byte> -> Byte, loaded: bool, text: string): (r: Addr)
    ensures r == NoAddr || IsValid(crc8, r)
    ensures loaded && ParseAddr(Some(text), true).0 && (ParseAddr(Some(text), true).1.value == NoAddr || IsValid(crc8, ParseAddr(Some(text), true).1.value))
      ==> r == ParseAddr(Some(text), true).1.value
  {
    if !loaded then NoAddr
    else
      var (ok, parsed) := ParseAddr(Some(text), true);
      if ok && (parsed.value == NoAddr || IsValid(crc8, parsed.value)) then parsed.value else NoAddr
  }

  /** A formatted valid address survives being stored and loaded back. */
  lemma ConfiguredAddrOfFormatted(crc8: seq<Byte> -> Byte, addr: Addr)
    requires IsValid(crc8, addr)
    ensures ConfiguredAddr(crc8, true, FormatAddr(addr)) == addr
  {
    ParseFormatRoundTrip(addr);
  }

  // ------------------------------------------------------------ bus scan

  predicate Distinct(xs: seq<Addr>) {
    forall i, j :: 0 <= i < j < |xs| ==> xs[i] != xs[j]
  }

  predicate StrictlyAscending(xs: seq<Addr>) {
    forall i, j :: 0 <= i < j < |xs| ==> xs[i] < xs[j]
  }

  /**
   * The search loop of `detect_ds18b20_addresses` from the `i`-th search
   * result: stop at NONE or with eight kept; skip invalid addresses and
   * ones already kept.
   */
  function KeepFrom(crc8: seq<Byte> -> Byte, found: seq<Addr>, i: nat, kept: seq<Addr>): (r: seq<Addr>)
    requires i <= |found| && |kept| <= MaxDetected && Distinct(kept)
    requires forall k :: 0 <= k < |kept| ==> IsValid(crc8, kept[k])
    ensures |kept| <= |r| <= MaxDetected && r[..|kept|] == kept && Distinct(r)
    ensures forall k :: 0 <= k < |r| ==> IsValid(crc8, r[k])
    ensures forall k :: |kept| <= k < |r| ==> r[k] in BeforeNone(found[i..])
    ensures |r| <= |kept| + |found| - i
    decreases |found| - i
  {
    if |kept| == MaxDetected || i == |found| || found[i] == NoAddr then kept
    else
      assert found[i..][1..] == found[i + 1..];
      if !IsValid(crc8, found[i]) || found[i] in kept then KeepFrom(crc8, found, i + 1, kept)
      else
        var r := KeepFrom(crc8, found, i + 1, kept + [found[i]]);
        assert r[..|kept|] == (kept + [found[i]])[..|kept|];
        r
  }

  /** The search results before the first NONE. */
  function BeforeNone(found: seq<Addr>): (r: seq<Addr>)
    ensures |r| <= |found| && r == found[..|r|] && NoAddr !in r
    ensures |r| < |found| ==> found[|r|] == NoAddr
  {
    if found == [] || found[0] == NoAddr then [] else [found[0]] + BeforeNone(found[1..])
  }

  /** What was kept before stays kept. */
  lemma KeptStays(crc8: seq<Byte> -> Byte, found: seq<Addr>, i: nat, kept: seq<Addr>, a: Addr)
    requires i <= |found| && |kept| <= MaxDetected && Distinct(kept)
    requires forall k :: 0 <= k < |kept| ==> IsValid(crc8, kept[k])
    requires a in kept
    ensures a in KeepFrom(crc8, found, i, kept)
  {
    var r := KeepFrom(crc8, found, i, kept);
    var k :| 0 <= k < |kept| && kept[k] == a;
    assert r[k] == r[..|kept|][k];
  }

  /** Until eight are kept, every valid address the search returned before NONE is kept. */
  lemma {:induction false} KeepFromComplete(crc8: seq<Byte> -> Byte, found: seq<Addr>, i: nat, kept: seq<Addr>, a: Addr)
    requires i <= |found| && |kept| <= MaxDetected && Distinct(kept)
    requires forall k :: 0 <= k < |kept| ==> IsValid(crc8, kept[k])
    requires |KeepFrom(crc8, found, i, kept)| < MaxDetected
    requires a in kept || (IsValid(crc8, a) && a in BeforeNone(found[i..]))
    ensures a in KeepFrom(crc8, found, i, kept)
    decreases |found| - i
  {
    if a in kept {
      KeptStays(crc8, found, i, kept, a);
    } else if !(|kept| == MaxDetected || i == |found| || found[i] == NoAddr) {
      var r := KeepFrom(crc8, found, i, kept);
      assert found[i..][1..] == found[i + 1..];
      if found[i] == a {
        assert r == KeepFrom(crc8, found, i + 1, kept + [a]);
        assert a in r by {
          KeptStays(crc8, found, i + 1, kept + [a], a);
        }
      } else {
        assert a in BeforeNone(found[i + 1..]);
        if !IsValid(crc8, found[i]) || found[i] in kept {
          assert a in r by {
            KeepFromComplete(crc8, found, i + 1, kept, a);
          }
        } else {
          assert a in r by {
            KeepFromComplete(crc8, found, i + 1, kept + [found[i]], a);
          }
        }
      }
    }
  }

  /** Inserts a new address into an ascending sequence. */
  function Insert(xs: seq<Addr>, x: Addr): (r: seq<Addr>)
    requires StrictlyAscending(xs) && x !in xs
    ensures StrictlyAscending(r) && |r| == |xs| + 1
    ensures forall y :: y in r <==> y in xs || y == x
  {
    if xs == [] then [x]
    else if x < xs[0] then [x] + xs
    else
      var tail := xs[1..];
      assert forall y :: y in xs <==> y == xs[0] || y in tail;
      assert forall k :: 0 <= k < |tail| ==> xs[0] < tail[k];
      var t := Insert(tail, x);
      assert forall k :: 0 <= k < |t| ==> xs[0] < t[k] by {
        forall k | 0 <= k < |t| ensures xs[0] < t[k] {
          assert t[k] in t;
        }
      }
      [xs[0]] + t
  }

  /** `std::sort` of distinct addresses: the same addresses, ascending. */
  function Sort(xs: seq<Addr>): (r: seq<Addr>)
    requires Distinct(xs)
    ensures StrictlyAscending(r) && |r| == |xs|
    ensures forall y :: y in r <==> y in xs
  {
    if xs == [] then []
    else
      var last := xs[|xs| - 1];
      var init := xs[..|xs| - 1];
      assert forall y :: y in xs <==> y in init || y == last;
      Insert(Sort(init), last)
  }

  /**
   * `detect_ds18b20_addresses`: given what the bus search returns in
   * order, the kept addresses, ascending, at most eight, all valid.
   */
  function Detect(crc8: seq<Byte> -> Byte, found: seq<Addr>): (r: seq<Addr>)
    ensures |r| <= MaxDetected && |r| <= |found| && StrictlyAscending(r)
    ensures forall k :: 0 <= k < |r| ==> IsValid(crc8, r[k]) && r[k] in BeforeNone(found)
    ensures |r| < MaxDetected ==> forall a :: a in BeforeNone(found) && IsValid(crc8, a) ==> a in r
  {
    var kept := KeepFrom(crc8, found, 0, []);
    assert found[0..] == found;
    forall a | a in BeforeNone(found) && IsValid(crc8, a) && |kept| < MaxDetected
      ensures a in kept
    {
      KeepFromComplete(crc8, found, 0, [], a);
    }
    var r := Sort(kept);
    forall k | 0 <= k < |r|
      ensures IsValid(crc8, r[k]) && r[k] in BeforeNone(found)
    {
      assert r[k] in r;
      var j :| 0 <= j < |kept| && kept[j] == r[k];
    }
    r
  }

  // ------------------------------------------------------------ probes

  datatype ProbeKind = Water | Air

  /** `ds18b20_probe_t`. */
  datatype Probe = Probe(kind: ProbeKind, configured: Addr, resolved: Addr, available: bool)

  /** The probe a configured address resolves to when it was detected. */
  function Resolve(p: Probe, detected: seq<Addr>): (r: Probe)
    ensures r.kind == p.kind && r.configured == p.configured
    ensures r.available <==> p.configured != NoAddr && p.configured in detected
    ensures r.resolved == (if r.available then p.configured else NoAddr)
  {
    if p.configured != NoAddr && p.configured in detected then p.(resolved := p.configured, available := true)
    else p.(resolved := NoAddr, available := false)
  }

  /**
   * `discover_ds18b20_sensors`: no probes is a failure that changes
   * nothing; otherwise every probe is first marked unavailable, then a
   * probe becomes available, resolved to its configured address, exactly
   * when that address is not NONE and was detected. Fails when nothing was
   * detected.
   */
  function Discover(crc8: seq<Byte> -> Byte, probes: seq<Probe>, found: seq<Addr>): (r: (bool, seq<Probe>))
    ensures probes == [] ==> r == (false, probes)
    ensures |r.1| == |probes|
    ensures r.0 <==> probes != [] && Detect(crc8, found) != []
    ensures probes != [] ==> forall k :: 0 <= k < |probes| ==>
      r.1[k].kind == probes[k].kind && r.1[k].configured == probes[k].configured
      && (r.1[k].available <==> r.0 && probes[k].configured != NoAddr && probes[k].configured in Detect(crc8, found))
      && r.1[k].resolved == (if r.1[k].available then probes[k].configured else NoAddr)
  {
    if probes == [] then (false, probes)
    else
      var reset := seq(|probes|, k requires 0 <= k < |probes| => probes[k].(resolved := NoAddr, available := false));
      var detected := Detect(crc8, found);
      if detected == [] then (false, reset)
      else (true, seq(|probes|, k requires 0 <= k < |probes| => Resolve(probes[k], detected)))
  }

  /** A probe that comes up available is on a valid address the bus search returned. */
  lemma DiscoveredProbesAreOnBus(crc8: seq<Byte> -> Byte, probes: seq<Probe>, found: seq<Addr>, k: nat)
    requires k < |probes| && Discover(crc8, probes, found).1[k].available
    ensures var p := Discover(crc8, probes, found).1[k];
      IsValid(crc8, p.resolved) && p.resolved in found && p.resolved == probes[k].configured
  {
    var p := Discover(crc8, probes, found).1[k];
    var d := Detect(crc8, found);
    var j :| 0 <= j < |d| && d[j] == p.resolved;
    assert p.resolved in BeforeNone(found);
  }
}
