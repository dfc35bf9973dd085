/**
 * The operator tool tools/mqtt_log_level_cli.py: level normalisation, tag
 * discovery over a source tree, the MQTT topic/payload framing and the
 * interactive tag choice. The file system, the prompts and the
 * `mosquitto_pub` process are given as data.
 */
module LogLevelCli {
  import opened Wrappers
  import opened Chars
  import Decimal

  // ---------------------------------------------------------------------
  // Python string primitives
  // ---------------------------------------------------------------------

  /** Python `str.isspace`: the code points Unicode classes as whitespace. */
  predicate PyIsSpace(c: char) {
    ('\t' <= c <= '\r') || ('\U{1C}' <= c <= ' ') || c == '\U{85}' || c == '\U{A0}' || c == '\U{1680}'
    || ('\U{2000}' <= c <= '\U{200A}') || c == '\U{2028}' || c == '\U{2029}' || c == '\U{202F}'
    || c == '\U{205F}' || c == '\U{3000}'
  }

  /** Every C `isspace` character is Python whitespace too. */
  lemma CSpaceIsPySpace(c: char)
    ensures IsSpace(c) ==> PyIsSpace(c)
  {
  }

  predicate AllPySpace(s: string) {
    forall k :: 0 <= k < |s| ==> PyIsSpace(s[k])
  }

  function PyStripLeft(s: string): (r: string)
    ensures |r| <= |s| && r == s[|s| - |r|..]
    ensures AllPySpace(s[..|s| - |r|])
    ensures r != [] ==> !PyIsSpace(r[0])
    decreases |s|
  {
    if s != [] && PyIsSpace(s[0]) then
      var r := PyStripLeft(s[1..]);
      assert s[..|s| - |r|] == [s[0]] + s[1..][..|s| - 1 - |r|];
      r
    else s
  }

  function PyStripRight(s: string): (r: string)
    ensures |r| <= |s| && r == s[..|r|]
    ensures AllPySpace(s[|r|..])
    ensures r != [] ==> !PyIsSpace(r[|r| - 1])
    decreases |s|
  {
    if s != [] && PyIsSpace(s[|s| - 1]) then
      var r := PyStripRight(s[..|s| - 1]);
      assert s[|r|..] == s[..|s| - 1][|r|..] + [s[|s| - 1]];
      r
    else s
  }

  /** `str.strip()` with no argument. */
  function PyStrip(s: string): (r: string)
    ensures |r| <= |s|
    ensures r != [] ==> !PyIsSpace(r[0]) && !PyIsSpace(r[|r| - 1])
  {
    PyStripRight(PyStripLeft(s))
  }

  /** A string without Python whitespace at either end is its own strip. */
  lemma {:induction false} PyStripFixesStripped(s: string)
    requires s != [] ==> !PyIsSpace(s[0]) && !PyIsSpace(s[|s| - 1])
    ensures PyStrip(s) == s
  {
  }

  /** Stripping removes exactly whitespace from both ends of an infix. */
  lemma PyStripIsInfix(s: string) returns (lo: nat, hi: nat)
    ensures lo <= hi <= |s| && PyStrip(s) == s[lo..hi]
    ensures AllPySpace(s[..lo]) && AllPySpace(s[hi..])
  {
    var t := PyStripLeft(s);
    var r := PyStripRight(t);
    lo := |s| - |t|;
    hi := lo + |r|;
    assert s[hi..] == t[|r|..];
  }

  /**
   * `str.upper()` on one character, for the characters whose upper case
   * is a single ASCII letter: a-z, dotless i and long s. Every other
   * character is left as it is (see README).
   */
  function PyUpperChar(c: char): (u: char)
    ensures 'A' <= u <= 'Z' && c != u ==> ('a' <= c <= 'z' || c == '\U{131}' || c == '\U{17F}')
    ensures 'a' <= c <= 'z' ==> u as int == c as int - 32
  {
    if 'a' <= c <= 'z' then (c as int - 32) as char
    else if c == '\U{131}' then 'I'
    else if c == '\U{17F}' then 'S'
    else c
  }

  function PyUpper(s: string): (r: string)
    ensures |r| == |s| && forall k :: 0 <= k < |s| ==> r[k] == PyUpperChar(s[k])
  {
    seq(|s|, k requires 0 <= k < |s| => PyUpperChar(s[k]))
  }

  // ---------------------------------------------------------------------
  // normalize_level
  // ---------------------------------------------------------------------

  /** `VALID_LEVELS`: every accepted key and the canonical name it means. */
  const ValidLevels: map<string, string> := map[
    "NONE" := "NONE", "0" := "NONE",
    "ERROR" := "ERROR", "ERR" := "ERROR", "1" := "ERROR",
    "WARN" := "WARN", "WARNING" := "WARN", "2" := "WARN",
    "INFO" := "INFO", "3" := "INFO",
    "DEBUG" := "DEBUG", "4" := "DEBUG",
    "VERBOSE" := "VERBOSE", "TRACE" := "VERBOSE", "5" := "VERBOSE"
  ]

  /** The six canonical level names. */
  const CanonicalLevels: set<string> := {"NONE", "ERROR", "WARN", "INFO", "DEBUG", "VERBOSE"}

  /**
   * `normalize_level`: the canonical name of the stripped, upper-cased
   * input, or the `ValueError` (carrying the original text) for any other key.
   */
  function NormalizeLevel(level: string): (r: Result<string, string>)
    ensures r.Success? <==> PyUpper(PyStrip(level)) in ValidLevels
    ensures r.Success? ==> r.value in CanonicalLevels
    ensures r.Failure? ==> r.error == level
  {
    var key := PyUpper(PyStrip(level));
    if key in ValidLevels then Success(ValidLevels[key]) else Failure(level)
  }

  /** Every canonical name is a key that maps to itself. */
  lemma CanonicalMapsToItself()
    ensures forall v :: v in CanonicalLevels ==> v in ValidLevels && ValidLevels[v] == v
  {
  }

  /** A word of capital letters is its own strip and its own upper case. */
  lemma CapitalsAreNormal(v: string)
    requires v != [] && forall k :: 0 <= k < |v| ==> 'A' <= v[k] <= 'Z'
    ensures PyUpper(PyStrip(v)) == v
  {
    assert PyStrip(v) == v by {
      assert !PyIsSpace(v[0]) && !PyIsSpace(v[|v| - 1]);
      PyStripFixesStripped(v);
    }
  }

  /** A canonical name is stripped and upper-case already. */
  lemma CanonicalIsNormal(v: string)
    requires v in CanonicalLevels
    ensures PyUpper(PyStrip(v)) == v
  {
    assert v != [] && forall k :: 0 <= k < |v| ==> 'A' <= v[k] <= 'Z';
    CapitalsAreNormal(v);
  }

  /** Normalising is idempotent: a normalised level normalises to itself. */
  lemma NormalizeIdempotent(level: string)
    requires NormalizeLevel(level).Success?
    ensures NormalizeLevel(NormalizeLevel(level).value) == NormalizeLevel(level)
  {
    var v := NormalizeLevel(level).value;
    CanonicalIsNormal(v);
    CanonicalMapsToItself();
  }

  /** Leading whitespace is stripped up to the first non-space. */
  lemma {:induction false} StripLeftPad(pad: string, x: string)
    requires AllPySpace(pad) && x != [] && !PyIsSpace(x[0])
    ensures PyStripLeft(pad + x) == x
    decreases |pad|
  {
    if pad != [] {
      assert PyStripLeft(pad + x) == PyStripLeft(pad[1..] + x) by {
        assert PyIsSpace((pad + x)[0]);
        assert (pad + x)[1..] == pad[1..] + x;
      }
      StripLeftPad(pad[1..], x);
    } else {
      assert pad + x == x;
    }
  }

  /** Trailing whitespace is stripped back to the last non-space. */
  lemma {:induction false} StripRightPad(x: string, pad: string)
    requires AllPySpace(pad) && x != [] && !PyIsSpace(x[|x| - 1])
    ensures PyStripRight(x + pad) == x
    decreases |pad|
  {
    if pad != [] {
      assert PyStripRight(x + pad) == PyStripRight(x + pad[..|pad| - 1]) by {
        assert PyIsSpace((x + pad)[|x + pad| - 1]);
        assert (x + pad)[..|x + pad| - 1] == x + pad[..|pad| - 1];
      }
      StripRightPad(x, pad[..|pad| - 1]);
    } else {
      assert x + pad == x;
    }
  }

  /** Stripping a word padded with whitespace on both sides gives the word. */
  lemma PyStripPadded(pad1: string, w: string, pad2: string)
    requires AllPySpace(pad1) && AllPySpace(pad2)
    requires w != [] && !PyIsSpace(w[0]) && !PyIsSpace(w[|w| - 1])
    ensures PyStrip(pad1 + w + pad2) == w
  {
    assert pad1 + w + pad2 == pad1 + (w + pad2);
    StripLeftPad(pad1, w + pad2);
    StripRightPad(w, pad2);
  }

  /** The keys of `VALID_LEVELS` are made of capital letters and digits. */
  lemma KeysAreWords(key: string)
    ensures key in ValidLevels ==> key != [] && forall j :: 0 <= j < |key| ==> 'A' <= key[j] <= 'Z' || '0' <= key[j] <= '9'
  {
  }

  /** The only one-character keys are the level numbers 0 to 5. */
  lemma OneCharKeys(key: string)
    ensures key in ValidLevels && |key| == 1 ==> '0' <= key[0] <= '5'
  {
  }

  /**
   * Any spelling of a key, in any letter case and padded with whitespace,
   * normalises to the level that key names.
   */
  lemma NormalizeSpelling(pad1: string, w: string, pad2: string, key: string)
    requires key in ValidLevels && PyUpper(w) == key
    requires AllPySpace(pad1) && AllPySpace(pad2)
    ensures NormalizeLevel(pad1 + w + pad2) == Success(ValidLevels[key])
  {
    KeysAreWords(key);
    assert !PyIsSpace(w[0]) && !PyIsSpace(w[|w| - 1]) by {
      assert PyUpperChar(w[0]) == key[0] && PyUpperChar(w[|w| - 1]) == key[|key| - 1];
    }
    PyStripPadded(pad1, w, pad2);
  }

  // ---------------------------------------------------------------------
  // TAG_PATTERNS, matched at one position of a file's text
  // ---------------------------------------------------------------------

  /** `s[i..]` starts with `w`. */
  predicate LitAt(s: string, i: nat, w: string) {
    i + |w| <= |s| && s[i..i + |w|] == w
  }

  /** The end of the run of `\s` characters that starts at `i`. */
  function SkipSpace(s: string, i: nat): (j: nat)
    requires i <= |s|
    ensures i <= j <= |s| && AllPySpace(s[i..j])
    ensures j < |s| ==> !PyIsSpace(s[j])
    decreases |s| - i
  {
    if i < |s| && PyIsSpace(s[i]) then SkipSpace(s, i + 1) else i
  }

  /** Index of the first `"` at or after `i`, if any. */
  function NextQuote(s: string, i: nat): (r: Option<nat>)
    requires i <= |s|
    ensures r.Some? ==> i <= r.value < |s| && s[r.value] == '"' && '"' !in s[i..r.value]
    ensures r.None? ==> '"' !in s[i..]
    decreases |s| - i
  {
    if i == |s| then None
    else if s[i] == '"' then Some(i)
    else
      var r := NextQuote(s, i + 1);
      assert s[i..] == [s[i]] + s[i + 1..];
      if r.Some? then assert s[i..r.value] == [s[i]] + s[i + 1..r.value]; r else r
  }

  /** A match: the captured group 1 and the index just past the match. */
  datatype Match = Match(capture: string, end: nat)

  /** `"([^"]+)"` at `i`. */
  function QuotedAt(s: string, i: nat): (r: Option<Match>)
    requires i <= |s|
    ensures r.Some? ==> i + 2 + |r.value.capture| == r.value.end <= |s|
    ensures r.Some? ==> r.value.capture != [] && '"' !in r.value.capture
    ensures r.Some? ==> s[i] == '"' && s[i + 1..r.value.end - 1] == r.value.capture && s[r.value.end - 1] == '"'
    ensures r.None? && LitAt(s, i, "\"") && i + 1 < |s| && s[i + 1] != '"' ==> '"' !in s[i + 1..]
  {
    if !LitAt(s, i, "\"") || i + 1 == |s| || s[i + 1] == '"' then None
    else match NextQuote(s, i + 1)
      case None => None
      case Some(k) => Some(Match(s[i + 1..k], k + 1))
  }

  /** One element of a fixed idiom: a literal word, `\s+` or `\s*`. */
  datatype Tok = Word(w: string) | Spaces1 | Spaces0

  /** Matches the elements in turn from `i`; the index just past them. */
  function MatchToks(s: string, i: nat, toks: seq<Tok>): (r: Option<nat>)
    requires i <= |s|
    ensures r.Some? ==> i <= r.value <= |s|
    decreases |toks|
  {
    if toks == [] then Some(i)
    else match toks[0]
      case Word(w) => if LitAt(s, i, w) then MatchToks(s, i + |w|, toks[1..]) else None
      case Spaces1 =>
        var j := SkipSpace(s, i);
        if j == i then None else MatchToks(s, j, toks[1..])
      case Spaces0 => MatchToks(s, SkipSpace(s, i), toks[1..])
  }

  /** The elements before the quoted group, then the group: `(?:toks)"([^"]+)"`. */
  function TokensThenQuoted(s: string, i: nat, toks: seq<Tok>): (r: Option<Match>)
    requires i <= |s|
    ensures r.Some? ==> i < r.value.end <= |s| && r.value.capture != [] && '"' !in r.value.capture
  {
    match MatchToks(s, i, toks)
    case None => None
    case Some(j) => QuotedAt(s, j)
  }

  /** `static\s+const\s+char\s*\*\s*TAG\s*=\s*` */
  const StaticConstToks: seq<Tok> := [Word("static"), Spaces1, Word("const"), Spaces1, Word("char"), Spaces0,
                                      Word("*"), Spaces0, Word("TAG"), Spaces0, Word("="), Spaces0]

  /** `#define\s+TAG\s+` */
  const DefineToks: seq<Tok> := [Word("#define"), Spaces1, Word("TAG"), Spaces1]

  /** `\s*\(\s*`, after `ESP_(?:EARLY_|DRAM_)?LOG[EWIDV]` */
  const LogCallToks: seq<Tok> := [Spaces0, Word("("), Spaces0]

  /** The level letters of `ESP_LOGx`. */
  predicate IsLogLetter(c: char) {
    c == 'E' || c == 'W' || c == 'I' || c == 'D' || c == 'V'
  }

  /**
   * `ESP_(?:EARLY_|DRAM_)?LOG[EWIDV]\s*\(\s*"([^"]+)"` at `i`. The optional
   * group never needs backtracking: when `EARLY_` or `DRAM_` is present,
   * leaving the group out would need `LOG` at a position holding `E` or `D`.
   */
  function LogMacroAt(s: string, i: nat): (r: Option<Match>)
    requires i <= |s|
    ensures r.Some? ==> i < r.value.end <= |s| && r.value.capture != [] && '"' !in r.value.capture
    ensures r.Some? ==> LitAt(s, i, "ESP_")
  {
    if !LitAt(s, i, "ESP_") then None
    else
      var a := if LitAt(s, i + 4, "EARLY_") then i + 10 else if LitAt(s, i + 4, "DRAM_") then i + 9 else i + 4;
      if !LitAt(s, a, "LOG") || a + 3 == |s| || !IsLogLetter(s[a + 3]) then None
      else
        TokensThenQuoted(s, a + 4, LogCallToks)
  }

  /** The three entries of `TAG_PATTERNS`, in order. */
  datatype Pattern = StaticConst | DefineTag | LogMacro

  const Patterns: seq<Pattern> := [StaticConst, DefineTag, LogMacro]

  function MatchAt(p: Pattern, s: string, i: nat): (r: Option<Match>)
    requires i <= |s|
    ensures r.Some? ==> i < r.value.end <= |s| && r.value.capture != [] && '"' !in r.value.capture
  {
    match p
    case StaticConst => TokensThenQuoted(s, i, StaticConstToks)
    case DefineTag => TokensThenQuoted(s, i, DefineToks)
    case LogMacro => LogMacroAt(s, i)
  }

  /**
   * `pattern.finditer(content)` from index `i`: the group-1 captures of the
   * successive non-overlapping matches, leftmost first.
   */
  function FindAll(p: Pattern, s: string, i: nat): (r: seq<string>)
    requires i <= |s|
    ensures forall k :: 0 <= k < |r| ==> r[k] != [] && '"' !in r[k]
    decreases |s| - i
  {
    if i == |s| then []
    else match MatchAt(p, s, i)
      case Some(m) => [m.capture] + FindAll(p, s, m.end)
      case None => FindAll(p, s, i + 1)
  }

  /** One step of the scan. */
  lemma FindAllStep(p: Pattern, s: string, i: nat)
    requires i < |s|
    ensures MatchAt(p, s, i).Some? ==> FindAll(p, s, i) == [MatchAt(p, s, i).value.capture] + FindAll(p, s, MatchAt(p, s, i).value.end)
    ensures MatchAt(p, s, i).None? ==> FindAll(p, s, i) == FindAll(p, s, i + 1)
  {
  }

  /** `finditer` finds nothing from `i` exactly when the pattern matches at no position from `i` on. */
  lemma FindAllEmptyIff(p: Pattern, s: string, i: nat)
    requires i <= |s|
    ensures FindAll(p, s, i) == [] <==> forall j :: i <= j < |s| ==> MatchAt(p, s, j).None?
  {
    if forall j :: i <= j < |s| ==> MatchAt(p, s, j).None? {
      NoMatchFindsNothing(p, s, i);
    } else {
      var j :| i <= j < |s| && MatchAt(p, s, j).Some?;
      MatchFindsSomething(p, s, i, j);
    }
  }

  lemma {:induction false} NoMatchFindsNothing(p: Pattern, s: string, i: nat)
    requires i <= |s|
    requires forall j :: i <= j < |s| ==> MatchAt(p, s, j).None?
    ensures FindAll(p, s, i) == []
    decreases |s| - i
  {
    if i < |s| {
      FindAllStep(p, s, i);
      NoMatchFindsNothing(p, s, i + 1);
    }
  }

  lemma {:induction false} MatchFindsSomething(p: Pattern, s: string, i: nat, j: nat)
    requires i <= j < |s| && MatchAt(p, s, j).Some?
    ensures FindAll(p, s, i) != []
    decreases j - i
  {
    if MatchAt(p, s, i).Some? {
      assert FindAll(p, s, i) != [] by {
        FindAllStep(p, s, i);
        assert FindAll(p, s, i)[0] == MatchAt(p, s, i).value.capture;
      }
    } else {
      assert i != j;
      MatchFindsSomething(p, s, i + 1, j);
      assert FindAll(p, s, i) == FindAll(p, s, i + 1) by { FindAllStep(p, s, i); }
    }
  }

  /**
   * The first capture `finditer` reports from `i` is that of the leftmost
   * match at or after `i`, and the search resumes just past that match.
   */
  lemma {:induction false} FindAllLeftmost(p: Pattern, s: string, i: nat, j: nat)
    requires i <= j < |s| && MatchAt(p, s, j).Some?
    requires forall k :: i <= k < j ==> MatchAt(p, s, k).None?
    ensures FindAll(p, s, i) == [MatchAt(p, s, j).value.capture] + FindAll(p, s, MatchAt(p, s, j).value.end)
    decreases j - i
  {
    FindAllStep(p, s, i);
    if i < j {
      FindAllLeftmost(p, s, i + 1, j);
    }
  }

  /** The plainest text of one element: a word itself, `\s+` as one space, `\s*` as nothing. */
  function TokText(t: Tok): string {
    match t
    case Word(w) => w
    case Spaces1 => " "
    case Spaces0 => ""
  }

  /** The plainest text an idiom matches: each element's text in turn. */
  function Render(toks: seq<Tok>): string {
    if toks == [] then [] else TokText(toks[0]) + Render(toks[1..])
  }

  /** `Render` of the elements from `i` on, walking by index rather than by suffix. */
  function RenderFrom(toks: seq<Tok>, i: nat): string
    decreases |toks| - i
  {
    if i >= |toks| then [] else TokText(toks[i]) + RenderFrom(toks, i + 1)
  }

  /** Both ways of rendering agree. */
  lemma {:induction false} RenderFromIs(toks: seq<Tok>, i: nat)
    requires i <= |toks|
    ensures Render(toks[i..]) == RenderFrom(toks, i)
    decreases |toks| - i
  {
    if i < |toks| {
      assert toks[i..][1..] == toks[i + 1..];
      RenderFromIs(toks, i + 1);
    }
  }

  /** Words are non-empty and start with a non-space; no two whitespace elements are adjacent. */
  predicate WellFormedToks(toks: seq<Tok>) {
    (forall k :: 0 <= k < |toks| && toks[k].Word? ==> toks[k].w != [] && !PyIsSpace(toks[k].w[0]))
    && NoAdjacentSpaces(toks, 0)
  }

  /** Of any two neighbouring elements from `i` on, at least one is a word. */
  predicate NoAdjacentSpaces(toks: seq<Tok>, i: nat)
    decreases |toks| - i
  {
    i + 1 >= |toks| || ((toks[i].Word? || toks[i + 1].Word?) && NoAdjacentSpaces(toks, i + 1))
  }

  /** Dropping the first element shifts the adjacency check by one. */
  lemma {:induction false} NoAdjacentSpacesShift(toks: seq<Tok>, i: nat)
    requires toks != []
    ensures NoAdjacentSpaces(toks, i + 1) == NoAdjacentSpaces(toks[1..], i)
    decreases |toks| - i
  {
    if i + 2 < |toks| {
      NoAdjacentSpacesShift(toks, i + 1);
    }
  }

  /** The first character after a whitespace element is not whitespace. */
  lemma RenderHead(toks: seq<Tok>, rest: string)
    requires WellFormedToks(toks) && toks != [] && toks[0].Word?
    ensures Render(toks) + rest != [] && !PyIsSpace((Render(toks) + rest)[0])
  {
    assert Render(toks) == toks[0].w + Render(toks[1..]);
  }

  lemma WellFormedTail(toks: seq<Tok>)
    requires WellFormedToks(toks) && toks != []
    ensures WellFormedToks(toks[1..])
    ensures !toks[0].Word? && |toks| > 1 ==> toks[1..][0].Word?
  {
    assert forall k :: 0 <= k < |toks| - 1 ==> toks[1..][k] == toks[k + 1];
    NoAdjacentSpacesShift(toks, 0);
  }

  /** Rendering peels off the first element's text. */
  lemma RenderCons(toks: seq<Tok>)
    requires toks != []
    ensures Render(toks) == TokText(toks[0]) + Render(toks[1..])
  {
  }

  /** A word at the front of `s[i..]` is found there, and the rest follows it. */
  lemma WordStep(s: string, i: nat, w: string, more: string)
    requires i <= |s| && s[i..] == w + more
    ensures LitAt(s, i, w) && s[i + |w|..] == more
  {
    assert s[i..i + |w|] == s[i..][..|w|];
  }

  /**
   * How `MatchToks` proceeds past its first element when the text of that
   * element is there and, after a whitespace element, no further
   * whitespace follows.
   */
  lemma MatchToksHead(s: string, i: nat, toks: seq<Tok>)
    requires toks != [] && LitAt(s, i, TokText(toks[0]))
    requires !toks[0].Word? && i + |TokText(toks[0])| < |s| ==> !PyIsSpace(s[i + |TokText(toks[0])|])
    ensures MatchToks(s, i, toks) == MatchToks(s, i + |TokText(toks[0])|, toks[1..])
  {
    match toks[0]
    case Word(w) =>
    case Spaces1 =>
      assert s[i] == s[i..i + 1][0];
      assert SkipSpace(s, i + 1) == i + 1;
    case Spaces0 =>
      assert SkipSpace(s, i) == i;
  }

  /** The first element of a well-formed idiom matches where its text is followed by the rest of the rendering. */
  lemma HeadMatches(s: string, i: nat, toks: seq<Tok>, rest: string)
    requires WellFormedToks(toks) && toks != [] && rest != [] && !PyIsSpace(rest[0])
    requires LitAt(s, i, TokText(toks[0])) && s[i + |TokText(toks[0])|..] == Render(toks[1..]) + rest
    ensures MatchToks(s, i, toks) == MatchToks(s, i + |TokText(toks[0])|, toks[1..])
  {
    if !toks[0].Word? {
      WellFormedTail(toks);
      NextIsNotSpace(s, i + |TokText(toks[0])|, toks[1..], rest);
    }
    MatchToksHead(s, i, toks);
  }

  /** The rendering of an idiom is its first element's text followed by the rendering of the rest. */
  lemma RenderSplit(s: string, i: nat, toks: seq<Tok>, rest: string)
    requires toks != [] && i <= |s| && s[i..] == Render(toks) + rest
    ensures LitAt(s, i, TokText(toks[0])) && s[i + |TokText(toks[0])|..] == Render(toks[1..]) + rest
    ensures |Render(toks)| == |TokText(toks[0])| + |Render(toks[1..])|
  {
    RenderCons(toks);
    WordThenRest(s, i, TokText(toks[0]), Render(toks[1..]), rest);
  }

  /** A word followed by more text at the front of `s[i..]` is found there, and the more text follows it. */
  lemma WordThenRest(s: string, i: nat, w: string, more: string, rest: string)
    requires i <= |s| && s[i..] == w + more + rest
    ensures LitAt(s, i, w) && s[i + |w|..] == more + rest
  {
    assert w + more + rest == w + (more + rest);
    WordStep(s, i, w, more + rest);
  }

  /** Matching the first element of an idiom against its rendering moves past exactly its text. */
  lemma RenderStep(s: string, i: nat, toks: seq<Tok>, rest: string) returns (j: nat)
    requires WellFormedToks(toks) && toks != [] && rest != [] && !PyIsSpace(rest[0])
    requires i <= |s| && s[i..] == Render(toks) + rest
    ensures j <= |s| && s[j..] == Render(toks[1..]) + rest && WellFormedToks(toks[1..])
    ensures MatchToks(s, i, toks) == MatchToks(s, j, toks[1..])
    ensures j + |Render(toks[1..])| == i + |Render(toks)|
  {
    assert LitAt(s, i, TokText(toks[0])) && s[i + |TokText(toks[0])|..] == Render(toks[1..]) + rest
      && |Render(toks)| == |TokText(toks[0])| + |Render(toks[1..])| by {
      RenderSplit(s, i, toks, rest);
    }
    j := i + |TokText(toks[0])|;
    HeadMatches(s, i, toks, rest);
    WellFormedTail(toks);
  }

  /**
   * An idiom matches its plainest rendering, followed by anything that does
   * not start with whitespace, and stops exactly at its end.
   */
  lemma {:induction false} RenderMatches(s: string, i: nat, toks: seq<Tok>, rest: string)
    requires WellFormedToks(toks) && rest != [] && !PyIsSpace(rest[0])
    requires i <= |s| && s[i..] == Render(toks) + rest
    ensures MatchToks(s, i, toks) == Some(i + |Render(toks)|)
    decreases |toks|
  {
    if toks != [] {
      var j := RenderStep(s, i, toks, rest);
      RenderMatches(s, j, toks[1..], rest);
    } else {
      assert Render(toks) == [];
    }
  }

  /** After a whitespace element comes a word or the rest: a non-space either way. */
  lemma NextIsNotSpace(s: string, i: nat, tail: seq<Tok>, rest: string)
    requires WellFormedToks(tail) && rest != [] && !PyIsSpace(rest[0])
    requires tail != [] ==> tail[0].Word?
    requires i <= |s| && s[i..] == Render(tail) + rest
    ensures i < |s| && !PyIsSpace(s[i])
  {
    if tail != [] {
      RenderHead(tail, rest);
    } else {
      assert Render(tail) == [];
    }
    assert s[i] == s[i..][0];
  }

  // ---------------------------------------------------------------------
  // iter_source_files and discover_tags
  // ---------------------------------------------------------------------

  /** One path below a scan root, as `rglob("*")` lists it; `content` is None when reading fails. */
  datatype Entry = Entry(path: string, isFile: bool, content: Option<string>)

  /** A scan root: whether it exists and is a directory, and everything below it. */
  datatype Root = Root(path: string, exists_: bool, isDir: bool, entries: seq<Entry>)

  /** `SOURCE_SUFFIXES`. */
  const SourceSuffixes: set<string> := {".c", ".cc", ".cpp", ".cxx", ".h", ".hh", ".hpp"}

  /** Index just past the last `/` of `p` (0 when there is none). */
  function NameStart(p: string): (k: nat)
    ensures k <= |p| && '/' !in p[k..]
    ensures k > 0 ==> p[k - 1] == '/'
  {
    if p == [] then 0
    else if p[|p| - 1] == '/' then |p|
    else
      var k := NameStart(p[..|p| - 1]);
      assert p[k..] == p[..|p| - 1][k..] + [p[|p| - 1]];
      k
  }

  /** Index of the last `.` of `s`, if any (`str.rfind`). */
  function LastDot(s: string): (r: Option<nat>)
    ensures r.Some? ==> r.value < |s| && s[r.value] == '.' && '.' !in s[r.value + 1..]
    ensures r.None? ==> '.' !in s
  {
    if s == [] then None
    else if s[|s| - 1] == '.' then Some(|s| - 1)
    else
      var r := LastDot(s[..|s| - 1]);
      assert s == s[..|s| - 1] + [s[|s| - 1]];
      if r.Some? then assert s[r.value + 1..] == s[..|s| - 1][r.value + 1..] + [s[|s| - 1]]; r else r
  }

  /**
   * `PurePath.suffix`: from the last `.` of the final path component, when
   * that dot is neither its first nor its last character; otherwise "".
   */
  function Suffix(path: string): (r: string)
    ensures r != [] ==> r[0] == '.' && |r| >= 2 && '/' !in r && '.' !in r[1..]
    ensures |r| <= |path| && (r != [] ==> r == path[|path| - |r|..])
  {
    var name := path[NameStart(path)..];
    match LastDot(name)
    case Some(i) =>
      if 0 < i < |name| - 1 then name[i..] else ""
    case None => ""
  }

  /** `str.lower()` on a suffix; ASCII letters suffice for the comparison it feeds (see README). */
  function LowerSuffix(s: string): (r: string)
    ensures r == LowerString(s)
  {
    LowerString(s)
  }

  predicate IsSourceFile(e: Entry) {
    e.isFile && LowerSuffix(Suffix(e.path)) in SourceSuffixes
  }

  /** A root `iter_source_files` walks: one that exists and is a directory. */
  predicate Usable(root: Root) {
    root.exists_ && root.isDir
  }

  /** `iter_source_files`: the source files below the usable roots, in walk order. */
  function SourceFiles(roots: seq<Root>): (r: seq<Entry>)
    ensures forall e :: e in r ==> IsSourceFile(e)
  {
    if roots == [] then []
    else (if Usable(roots[0]) then Filter(roots[0].entries) else []) + SourceFiles(roots[1..])
  }

  /** Entry `e` is listed under root `k`, and that root is walked. */
  predicate ListedUnder(roots: seq<Root>, k: int, e: Entry) {
    0 <= k < |roots| && Usable(roots[k]) && e in roots[k].entries
  }

  /**
   * The walk misses nothing and invents nothing: an entry is produced
   * exactly when it is a source file listed under some usable root.
   */
  lemma {:induction false} SourceFilesExactly(roots: seq<Root>, e: Entry)
    ensures e in SourceFiles(roots) <==> IsSourceFile(e) && exists k :: ListedUnder(roots, k, e)
    decreases |roots|
  {
    if roots != [] {
      var head := if Usable(roots[0]) then Filter(roots[0].entries) else [];
      assert SourceFiles(roots) == head + SourceFiles(roots[1..]);
      SourceFilesExactly(roots[1..], e);
      if e in SourceFiles(roots[1..]) {
        var k :| ListedUnder(roots[1..], k, e);
        assert ListedUnder(roots, k + 1, e);
      }
      if IsSourceFile(e) && (exists k :: ListedUnder(roots, k, e)) && e !in head {
        var k :| ListedUnder(roots, k, e);
        assert k != 0;
        assert ListedUnder(roots[1..], k - 1, e);
      }
      if e in head {
        assert ListedUnder(roots, 0, e);
      }
    }
  }

  function Filter(entries: seq<Entry>): (r: seq<Entry>)
    ensures forall e :: e in r <==> e in entries && IsSourceFile(e)
  {
    if entries == [] then []
    else
      var rest := Filter(entries[1..]);
      assert entries == [entries[0]] + entries[1..];
      if IsSourceFile(entries[0]) then [entries[0]] + rest else rest
  }

  /** Python's `<` on strings: code-point lexicographic order. */
  predicate StrLess(a: string, b: string)
    decreases |a|
  {
    if a == [] then b != []
    else b != [] && (a[0] < b[0] || (a[0] == b[0] && StrLess(a[1..], b[1..])))
  }

  lemma {:induction false} StrLessIrreflexive(a: string)
    ensures !StrLess(a, a)
    decreases |a|
  {
    if a != [] {
      StrLessIrreflexive(a[1..]);
    }
  }

  lemma {:induction false} StrLessTransitive(a: string, b: string, c: string)
    requires StrLess(a, b) && StrLess(b, c)
    ensures StrLess(a, c)
    decreases |a|
  {
    if a != [] && a[0] == b[0] && b[0] == c[0] {
      StrLessTransitive(a[1..], b[1..], c[1..]);
    }
  }

  lemma {:induction false} StrLessTotal(a: string, b: string)
    ensures a == b || StrLess(a, b) || StrLess(b, a)
    decreases |a|
  {
    if a != [] && b != [] && a[0] == b[0] {
      StrLessTotal(a[1..], b[1..]);
      if a[1..] == b[1..] {
        assert a == [a[0]] + a[1..] && b == [b[0]] + b[1..];
      }
    }
  }

  lemma StrLessAsymmetric(a: string, b: string)
    requires StrLess(a, b)
    ensures !StrLess(b, a)
  {
    if StrLess(b, a) {
      StrLessTransitive(a, b, a);
      StrLessIrreflexive(a);
    }
  }

  /** Each element is below the next one. */
  predicate StrictlyAscending(xs: seq<string>) {
    forall k :: 0 < k < |xs| ==> StrLess(xs[k - 1], xs[k])
  }

  /** Ascending step by step means every earlier element is below every later one. */
  lemma {:induction false} AscendingPairwise(xs: seq<string>, i: nat, j: nat)
    requires StrictlyAscending(xs) && i < j < |xs|
    ensures StrLess(xs[i], xs[j])
    decreases j - i
  {
    if i + 1 < j {
      AscendingPairwise(xs, i, j - 1);
      StrLessTransitive(xs[i], xs[j - 1], xs[j]);
    }
  }

  /** A strictly ascending list holds no element twice. */
  lemma AscendingDistinct(xs: seq<string>)
    requires StrictlyAscending(xs)
    ensures forall i, j :: 0 <= i < j < |xs| ==> xs[i] != xs[j]
  {
    forall i, j | 0 <= i < j < |xs|
      ensures xs[i] != xs[j]
    {
      AscendingPairwise(xs, i, j);
      StrLessIrreflexive(xs[i]);
    }
  }

  /** Adds `t` to an ascending list of distinct strings, keeping it ascending. */
  function InsertSorted(xs: seq<string>, t: string): (r: seq<string>)
    requires StrictlyAscending(xs)
    ensures StrictlyAscending(r)
    ensures forall u :: u in r <==> u in xs || u == t
    ensures r != [] && (xs == [] ==> r == [t])
    ensures xs != [] && (StrLess(t, xs[0]) || t == xs[0]) ==> r[0] == t
    ensures xs != [] && StrLess(xs[0], t) ==> r[0] == xs[0]
  {
    if xs == [] then [t]
    else if t == xs[0] then xs
    else if StrLess(t, xs[0]) then
      StrLessAsymmetric(t, xs[0]);
      [t] + xs
    else
      StrLessTotal(t, xs[0]);
      var rest := InsertSorted(xs[1..], t);
      assert StrLess(xs[0], rest[0]) by {
        if |xs| > 1 && !(StrLess(t, xs[1]) || t == xs[1]) {
          StrLessTotal(t, xs[1]);
        }
      }
      assert xs == [xs[0]] + xs[1..];
      [xs[0]] + rest
  }

  /** `sorted(set(tags))` over the captures, in the order they were found. */
  function SortedSet(tags: seq<string>): (r: seq<string>)
    ensures StrictlyAscending(r)
    ensures forall u :: u in r <==> u in tags
  {
    if tags == [] then []
    else
      var r := InsertSorted(SortedSet(tags[..|tags| - 1]), tags[|tags| - 1]);
      assert tags == tags[..|tags| - 1] + [tags[|tags| - 1]];
      r
  }

  lemma HeadIn<T>(xs: seq<T>)
    requires xs != []
    ensures xs[0] in xs
  {
  }

  /** Two ascending lists with the same elements are the same list. */
  lemma {:induction false} AscendingUnique(xs: seq<string>, ys: seq<string>)
    requires StrictlyAscending(xs) && StrictlyAscending(ys)
    requires forall u :: u in xs <==> u in ys
    ensures xs == ys
    decreases |xs|
  {
    if xs != [] && ys != [] {
      if xs[0] != ys[0] {
        StrLessTotal(xs[0], ys[0]);
        assert xs[0] in xs && ys[0] in ys;
        if StrLess(xs[0], ys[0]) {
          var k :| 0 <= k < |ys| && ys[k] == xs[0];
          if k > 0 { AscendingPairwise(ys, 0, k); }
          StrLessTransitive(xs[0], ys[0], xs[0]);
          StrLessIrreflexive(xs[0]);
        } else {
          var k :| 0 <= k < |xs| && xs[k] == ys[0];
          if k > 0 { AscendingPairwise(xs, 0, k); }
        }
      }
      AscendingDistinct(xs);
      AscendingDistinct(ys);
      forall u | u in xs[1..]
        ensures u in ys[1..]
      {
        var k :| 1 <= k < |xs| && xs[k] == u;
        assert u != xs[0];
        assert u in ys;
        var j :| 0 <= j < |ys| && ys[j] == u;
        assert j != 0;
        assert ys[1..][j - 1] == u;
      }
      forall u | u in ys[1..]
        ensures u in xs[1..]
      {
        var k :| 1 <= k < |ys| && ys[k] == u;
        assert u != ys[0];
        assert u in xs;
        var j :| 0 <= j < |xs| && xs[j] == u;
        assert j != 0;
        assert xs[1..][j - 1] == u;
      }
      AscendingUnique(xs[1..], ys[1..]);
    } else if xs != [] {
      HeadIn(xs);
    } else if ys != [] {
      HeadIn(ys);
    }
  }

  /** The stripped, non-empty captures of every pattern over one text, pattern by pattern. */
  function TagsIn(content: string): (r: seq<string>)
    ensures forall t :: t in r ==> t != [] && PyStrip(t) == t
  {
    StrippedNonEmpty(FindAll(StaticConst, content, 0)) + StrippedNonEmpty(FindAll(DefineTag, content, 0))
      + StrippedNonEmpty(FindAll(LogMacro, content, 0))
  }

  /** `match.group(1).strip()` for every capture. */
  function Stripped(captures: seq<string>): (r: seq<string>)
    ensures |r| == |captures| && forall k :: 0 <= k < |r| ==> r[k] == PyStrip(captures[k])
  {
    seq(|captures|, k requires 0 <= k < |captures| => PyStrip(captures[k]))
  }

  /** The non-empty strings of `xs`, in order. */
  function NonEmpty(xs: seq<string>): (r: seq<string>)
    ensures forall t :: t in r <==> t in xs && t != []
  {
    if xs == [] then []
    else
      assert xs == [xs[0]] + xs[1..];
      if xs[0] != [] then [xs[0]] + NonEmpty(xs[1..]) else NonEmpty(xs[1..])
  }

  /** `tag = match.group(1).strip(); if tag: tags.add(tag)` over a list of captures. */
  function StrippedNonEmpty(captures: seq<string>): (r: seq<string>)
    ensures forall t :: t in r <==> t != [] && exists k :: 0 <= k < |captures| && PyStrip(captures[k]) == t
    ensures forall t :: t in r ==> PyStrip(t) == t
  {
    var stripped := Stripped(captures);
    forall k | 0 <= k < |captures|
      ensures PyStrip(stripped[k]) == stripped[k]
    {
      PyStripIdempotent(captures[k]);
    }
    NonEmpty(stripped)
  }

  lemma PyStripIdempotent(s: string)
    ensures PyStrip(PyStrip(s)) == PyStrip(s)
  {
    PyStripFixesStripped(PyStrip(s));
  }

  /** The tags of one file: none when it cannot be read. */
  function FileTags(e: Entry): seq<string> {
    if e.content.Some? then TagsIn(e.content.value) else []
  }

  /** Every tag found in the source files, in scan order and with repeats. */
  function CollectTags(files: seq<Entry>): (r: seq<string>)
    ensures forall t :: t in r <==> exists e :: e in files && t in FileTags(e)
  {
    if files == [] then []
    else
      var rest := CollectTags(files[1..]);
      assert forall e :: e in files <==> e == files[0] || e in files[1..];
      FileTags(files[0]) + rest
  }

  /**
   * `discover_tags`: the distinct non-empty stripped tags of every readable
   * source file under the usable roots, in ascending order.
   */
  function DiscoverTags(roots: seq<Root>): (r: seq<string>)
    ensures StrictlyAscending(r)
    ensures forall t :: t in r ==> t != [] && PyStrip(t) == t
    ensures forall t :: t in r <==> exists e :: e in SourceFiles(roots) && t in FileTags(e)
  {
    SortedSet(CollectTags(SourceFiles(roots)))
  }

  /** A root that is missing or not a directory adds nothing: discovery is as if it were not listed. */
  lemma UnusableRootIgnored(roots: seq<Root>, bad: Root)
    requires !bad.exists_ || !bad.isDir
    ensures DiscoverTags([bad] + roots) == DiscoverTags(roots)
  {
    var xs := [bad] + roots;
    assert xs[1..] == roots;
    assert SourceFiles(xs) == SourceFiles(roots);
  }

  /** Files whose suffix is not a source suffix add nothing. */
  lemma NonSourceFileIgnored(e: Entry)
    requires !IsSourceFile(e)
    ensures Filter([e]) == []
  {
  }

  // ---------------------------------------------------------------------
  // publish_log_level
  // ---------------------------------------------------------------------

  /** What `publish_log_level` frames, and the command line it runs unless it is a dry run. */
  datatype Invocation = Invocation(topic: string, payload: string, argv: Option<seq<string>>)

  const DefaultTopicRoot: string := "voda/septik"

  function PublishLogLevel(host: string, port: int, user: string, password: string, qos: int,
                           topicRoot: string, tag: string, level: string, dryRun: bool): (r: Invocation)
    ensures r.topic == topicRoot + "/cmd/log/level"
    ensures r.payload == tag + "=" + level
    ensures r.argv.None? <==> dryRun
    ensures r.argv.Some? ==> |r.argv.value| == 16 && r.argv.value[0] == "mosquitto_pub"
    ensures r.argv.Some? ==> r.argv.value[12..] == ["-t", r.topic, "-m", r.payload]
    ensures r.argv.Some? ==> r.argv.value[10..12] == ["-q", Decimal.IntToString(qos)]
  {
    var topic := topicRoot + "/cmd/log/level";
    var payload := tag + "=" + level;
    var argv := ["mosquitto_pub", "-d", "-h", host, "-p", Decimal.IntToString(port), "-u", user,
                 "-P", password, "-q", Decimal.IntToString(qos), "-t", topic, "-m", payload];
    Invocation(topic, payload, if dryRun then None else Some(argv))
  }

  // ---------------------------------------------------------------------
  // pick_tag_interactive and the tag choice in main
  // ---------------------------------------------------------------------

  /** Why no tag was chosen: the tag list is empty, or the operator's input ended. */
  datatype PickError = NoTags | EndOfInput

  /** `str.isdigit` on ASCII text (see README for other digits). */
  predicate IsNumber(s: string) {
    s != [] && Decimal.AllDigits(s)
  }

  /**
   * `pick_tag_interactive` answering from `answers` (the successive lines
   * `input()` returns): blank answers and out-of-range numbers ask again, a
   * number n in 1..|tags| picks tags[n-1], any other text is the tag.
   */
  function PickTag(tags: seq<string>, answers: seq<string>): (r: Result<string, PickError>)
    ensures tags == [] ==> r == Failure(NoTags)
    ensures r.Success? ==> r.value in tags || exists a :: a in answers && r.value == PyStrip(a) && r.value != [] && !IsNumber(r.value)
    ensures r.Success? ==> r.value != [] || "" in tags
    decreases |answers|, 1
  {
    if tags == [] then Failure(NoTags)
    else if answers == [] then Failure(EndOfInput)
    else
      var value := PyStrip(answers[0]);
      if value == [] then Later(tags, answers)
      else if IsNumber(value) then
        var n := Decimal.DigitsValue(value);
        if 1 <= n <= |tags| then Success(tags[n - 1]) else Later(tags, answers)
      else Success(value)
  }

  /** The answer after the first one. */
  function Later(tags: seq<string>, answers: seq<string>): (r: Result<string, PickError>)
    requires tags != [] && answers != []
    ensures r == PickTag(tags, answers[1..])
    ensures r.Success? ==> r.value in tags || exists a :: a in answers && r.value == PyStrip(a) && r.value != [] && !IsNumber(r.value)
    ensures r.Success? ==> r.value != [] || "" in tags
    decreases |answers|, 0
  {
    var r := PickTag(tags, answers[1..]);
    assert r.Success? && r.value !in tags ==> exists a :: a in answers && r.value == PyStrip(a) && r.value != [] && !IsNumber(r.value) by {
      if r.Success? && r.value !in tags {
        var a :| a in answers[1..] && r.value == PyStrip(a) && r.value != [] && !IsNumber(r.value);
        assert a in answers;
      }
    }
    r
  }

  /** Answering with the decimal number k+1 picks tags[k]. */
  lemma PickByNumber(tags: seq<string>, k: nat)
    requires k < |tags|
    ensures PickTag(tags, [Decimal.NatToString(k + 1)]) == Success(tags[k])
  {
    var s := Decimal.NatToString(k + 1);
    assert forall i :: 0 <= i < |s| ==> '0' <= s[i] <= '9';
    CSpaceIsPySpace(s[0]);
    CSpaceIsPySpace(s[|s| - 1]);
    PyStripFixesStripped(s);
    Decimal.NatToStringRoundTrip(k + 1);
  }

  /** A blank answer or an out-of-range number just asks again. */
  lemma PickAsksAgain(tags: seq<string>, first: string, rest: seq<string>)
    requires tags != []
    requires PyStrip(first) == [] || (IsNumber(PyStrip(first)) && !(1 <= Decimal.DigitsValue(PyStrip(first)) <= |tags|))
    ensures PickTag(tags, [first] + rest) == PickTag(tags, rest)
  {
    assert ([first] + rest)[1..] == rest;
  }

  /**
   * The tag `main` publishes for: "*" with --all, else the stripped --tag
   * when one was given, else the interactive choice.
   */
  function ChooseTag(all: bool, tagArg: Option<string>, tags: seq<string>, answers: seq<string>): (r: Result<string, PickError>)
    ensures all ==> r == Success("*")
    ensures !all && tagArg.Some? && PyStrip(tagArg.value) != [] ==> r == Success(PyStrip(tagArg.value))
    ensures !all && (tagArg.None? || PyStrip(tagArg.value) == []) ==> r == PickTag(tags, answers)
  {
    var tag := if all then "*" else if tagArg.Some? && tagArg.value != [] then PyStrip(tagArg.value) else "";
    if tag == [] then PickTag(tags, answers) else Success(tag)
  }

  /** Every tag `main` can publish for is non-empty and stripped. */
  lemma ChosenTagIsStripped(all: bool, tagArg: Option<string>, roots: seq<Root>, answers: seq<string>)
    requires ChooseTag(all, tagArg, DiscoverTags(roots), answers).Success?
    ensures var t := ChooseTag(all, tagArg, DiscoverTags(roots), answers).value; t != [] && PyStrip(t) == t
  {
    var tags := DiscoverTags(roots);
    var t := ChooseTag(all, tagArg, tags, answers).value;
    if all {
      PyStripFixesStripped("*");
    } else if tagArg.Some? && PyStrip(tagArg.value) != [] {
      PyStripIdempotent(tagArg.value);
    } else if t !in tags {
      var a :| a in answers && t == PyStrip(a) && t != [] && !IsNumber(t);
      PyStripIdempotent(a);
    }
  }
}
