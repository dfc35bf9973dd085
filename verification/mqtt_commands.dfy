/**
 * The MQTT command receiver (main/mqtt_commands.cpp): which incoming
 * messages are commands, how a boolean command payload is read, and how
 * the cmd/log/level payload `tag=level` is split and parsed.
 */
module MqttCommands {
  import opened Wrappers
  import opened Chars
  import opened MqttTopics
  import MqttPublisher

  /** `esp_log_level_t`, ESP_LOG_NONE .. ESP_LOG_VERBOSE. */
  datatype Level = LevelNone | LevelError | LevelWarn | LevelInfo | LevelDebug | LevelVerbose

  /** `log_level_name`. */
  function LevelName(l: Level): string {
    match l
    case LevelNone => "NONE"
    case LevelError => "ERROR"
    case LevelWarn => "WARN"
    case LevelInfo => "INFO"
    case LevelDebug => "DEBUG"
    case LevelVerbose => "VERBOSE"
  }

  /** The lower-case words `parse_log_level` accepts, grouped by the level they select. */
  const Words: seq<string> := ["none", "error", "err", "warn", "warning", "info", "debug", "verbose", "trace"]

  lemma WordsAreLowerCase(t: string)
    ensures forall w :: w in Words ==> (EqualsIgnoreCase(t, w) <==> LowerString(t) == w)
  {
    forall w | w in Words
      ensures EqualsIgnoreCase(t, w) <==> LowerString(t) == w
    {
      EqualsIgnoreCaseLower(t, w);
    }
  }

  /**
   * `parse_log_level`: level words compared with `strcasecmp`, digits
   * compared exactly.
   */
  function ParseLogLevel(text: string): (r: Option<Level>)
    ensures r == Some(LevelNone) <==> EqualsIgnoreCase(text, "none") || text == "0"
    ensures r == Some(LevelError) <==> EqualsIgnoreCase(text, "error") || EqualsIgnoreCase(text, "err") || text == "1"
    ensures r == Some(LevelWarn) <==> EqualsIgnoreCase(text, "warn") || EqualsIgnoreCase(text, "warning") || text == "2"
    ensures r == Some(LevelInfo) <==> EqualsIgnoreCase(text, "info") || text == "3"
    ensures r == Some(LevelDebug) <==> EqualsIgnoreCase(text, "debug") || text == "4"
    ensures r == Some(LevelVerbose) <==> EqualsIgnoreCase(text, "verbose") || EqualsIgnoreCase(text, "trace") || text == "5"
  {
    WordsAreLowerCase(text);
    var w := LowerString(text);
    if w == "none" || text == "0" then Some(LevelNone)
    else if w == "error" || w == "err" || text == "1" then Some(LevelError)
    else if w == "warn" || w == "warning" || text == "2" then Some(LevelWarn)
    else if w == "info" || text == "3" then Some(LevelInfo)
    else if w == "debug" || text == "4" then Some(LevelDebug)
    else if w == "verbose" || w == "trace" || text == "5" then Some(LevelVerbose)
    else None
  }

  /** Every level's name parses back to that level. */
  lemma ParseLevelName(l: Level)
    ensures ParseLogLevel(LevelName(l)) == Some(l)
  {
    var name := LevelName(l);
    var lower := match l
      case LevelNone => "none"
      case LevelError => "error"
      case LevelWarn => "warn"
      case LevelInfo => "info"
      case LevelDebug => "debug"
      case LevelVerbose => "verbose";
    assert |name| == |lower| && forall k :: 0 <= k < |name| ==> Lower(name[k]) == lower[k];
    assert LowerString(name) == lower;
  }

  /** A one-character text lower-cases to a digit only if it is that digit. */
  lemma LowerDigit(t: string, d: char)
    requires '0' <= d <= '9' && LowerString(t) == [d]
    ensures t == [d]
  {
    assert Lower(t[0]) == d;
  }

  /** Parsing ignores letter case: two spellings that differ only in case parse alike. */
  lemma ParseIgnoresCase(a: string, b: string)
    requires EqualsIgnoreCase(a, b)
    ensures ParseLogLevel(a) == ParseLogLevel(b)
  {
    EqualsIgnoreCaseLowerString(a, b);
    var w := LowerString(a);
    forall d | d in "012345"
      ensures a == [d] <==> b == [d]
    {
      if a == [d] {
        assert LowerString(a) == [d];
        LowerDigit(b, d);
      }
      if b == [d] {
        assert LowerString(b) == [d];
        LowerDigit(a, d);
      }
    }
    assert a == "0" <==> b == "0";
    assert a == "1" <==> b == "1";
    assert a == "2" <==> b == "2";
    assert a == "3" <==> b == "3";
    assert a == "4" <==> b == "4";
    assert a == "5" <==> b == "5";
  }

  /** Index of the first `isspace` character of `s`, if any. */
  function FirstSpace(s: string): (r: Option<nat>)
    ensures r.None? <==> forall k :: 0 <= k < |s| ==> !IsSpace(s[k])
    ensures r.Some? ==> r.value < |s| && IsSpace(s[r.value]) && forall k :: 0 <= k < r.value ==> !IsSpace(s[k])
  {
    if s == [] then None
    else if IsSpace(s[0]) then Some(0)
    else match FirstSpace(s[1..])
      case None => None
      case Some(i) => Some(i + 1)
  }

  /** The tag/level separator: the first `=`, else the first `:`, else the first whitespace. */
  function Separator(s: string): (r: Option<nat>)
    ensures r.Some? ==> r.value < |s| && (s[r.value] == '=' || s[r.value] == ':' || IsSpace(s[r.value]))
    ensures '=' in s ==> r.Some? && s[r.value] == '=' && '=' !in s[..r.value]
    ensures '=' !in s && ':' in s ==> r.Some? && s[r.value] == ':' && ':' !in s[..r.value]
    ensures '=' !in s && ':' !in s ==> r == FirstSpace(s)
  {
    var eq := FirstIndexOf(s, '=');
    var colon := FirstIndexOf(s, ':');
    if eq.Some? then eq else if colon.Some? then colon else FirstSpace(s)
  }

  /** The call `esp_log_level_set(tag, level)`. */
  datatype LogLevelSetting = LogLevelSetting(tag: string, level: Level)

  /** The characters of a C string cut and trimmed from `payload` all come from `payload`. */
  lemma CursorChars(payload: string)
    ensures forall c :: c in Trim(CString(Truncate(payload, MqttPublisher.TextMaxLen - 1))) ==> c in payload
  {
    var t := Truncate(payload, MqttPublisher.TextMaxLen - 1);
    var cs := CString(t);
    TrimChars(cs);
    forall c | c in cs
      ensures c in payload
    {
      var k :| 0 <= k < |cs| && cs[k] == c;
      assert t[k] == c;
      assert payload[k] == c;
    }
  }

  /** No separator of any kind among the characters of `s`. */
  predicate NoSeparator(s: string) {
    forall c :: c in s ==> c != '=' && c != ':' && !IsSpace(c)
  }

  /**
   * The handler's working copy of the payload: at most 127 bytes copied,
   * read as a C string and trimmed. It is short, holds no NUL, and every
   * character comes from the payload.
   */
  function Cursor(payload: string): (r: string)
    ensures |r| < MqttPublisher.TextMaxLen && '\0' !in r
    ensures forall c :: c in r ==> c in payload
  {
    var cut := CString(Truncate(payload, MqttPublisher.TextMaxLen - 1));
    CursorChars(payload);
    TrimChars(cut);
    Trim(cut)
  }

  /** Characters of a prefix of `s`, and so of its trimmed form, are characters of `s`. */
  lemma PrefixChars(s: string, i: nat)
    requires i <= |s|
    ensures forall c :: c in Trim(s[..i]) ==> c in s
  {
    TrimChars(s[..i]);
    forall c | c in s[..i]
      ensures c in s
    {
      var k :| 0 <= k < i && s[..i][k] == c;
      assert s[k] == c;
    }
  }

  /**
   * Cutting a trimmed payload at its separator: the trimmed text before it
   * and the trimmed text after it.
   */
  function SplitTagLevel(cursor: string): (r: Option<(string, string)>)
    ensures r.Some? ==> Trimmed(r.value.0) && '=' !in r.value.0 && |r.value.0| < |cursor|
    ensures r.Some? ==> forall c :: c in r.value.0 ==> c in cursor
    ensures NoSeparator(cursor) ==> r.None?
  {
    match Separator(cursor)
    case None => None
    case Some(i) =>
      var tag := Trim(cursor[..i]);
      TrimChars(cursor[..i]);
      assert '=' !in cursor[..i];
      PrefixChars(cursor, i);
      assert !NoSeparator(cursor) by {
        assert cursor[i] in cursor;
      }
      Some((tag, Trim(cursor[i + 1..])))
  }

  /**
   * `command_set_log_level` once the payload is cut and trimmed: the tag and
   * level text either side of the separator, both non-empty, and a level
   * text that parses.
   */
  function ParseCursor(cursor: string): (r: Option<LogLevelSetting>)
    ensures r.Some? ==> r.value.tag != [] && Trimmed(r.value.tag) && '=' !in r.value.tag
    ensures r.Some? ==> |r.value.tag| < |cursor| && forall c :: c in r.value.tag ==> c in cursor
    ensures NoSeparator(cursor) ==> r.None?
  {
    if cursor == [] then None
    else match SplitTagLevel(cursor)
      case None => None
      case Some((tag, levelText)) =>
        if tag == [] || levelText == [] then None
        else match ParseLogLevel(levelText)
          case None => None
          case Some(level) => Some(LogLevelSetting(tag, level))
  }

  /**
   * `command_set_log_level`: the setting it applies, or None when the payload
   * is rejected and the log configuration stays as it was.
   */
  function CommandSetLogLevel(payload: string): (r: Option<LogLevelSetting>)
    ensures r.Some? ==> r.value.tag != [] && Trimmed(r.value.tag) && '=' !in r.value.tag
    ensures r.Some? ==> |r.value.tag| < MqttPublisher.TextMaxLen && '\0' !in r.value.tag
    ensures NoSeparator(payload) ==> r.None?
  {
    var cursor := Cursor(payload);
    var r := ParseCursor(cursor);
    assert r.Some? ==> '\0' !in r.value.tag;
    assert NoSeparator(payload) ==> NoSeparator(cursor);
    r
  }

  /** A short payload without NUL passes the 127-byte copy and the C-string read unchanged. */
  lemma CutShortPayload(payload: string)
    requires |payload| < MqttPublisher.TextMaxLen && '\0' !in payload
    ensures CString(Truncate(payload, MqttPublisher.TextMaxLen - 1)) == payload
  {
    assert Truncate(payload, MqttPublisher.TextMaxLen - 1) == payload;
  }

  /** Splitting `tag=text` at its first `=` gives back both sides when they are trimmed. */
  lemma SplitAtEquals(tag: string, text: string)
    requires '=' !in tag && Trimmed(tag) && Trimmed(text)
    ensures SplitTagLevel(tag + "=" + text) == Some((tag, text))
  {
    var cursor := tag + "=" + text;
    var i := |tag|;
    assert SplitTagLevel(cursor) == Some((Trim(tag), Trim(text))) by {
      assert cursor[..i] == tag;
      assert cursor[i + 1..] == text;
      FirstIndexOfIs(cursor, '=', i);
    }
    TrimFixesTrimmed(tag);
    TrimFixesTrimmed(text);
  }

  /** Level names hold no whitespace. */
  lemma LevelNameClean(l: Level)
    ensures LevelName(l) != [] && forall k :: 0 <= k < |LevelName(l)| ==> !IsSpace(LevelName(l)[k])
  {
  }

  /** A payload `tag=text` with a clean tag and a clean level text is cut into exactly those two. */
  lemma CleanPayloadSplits(tag: string, text: string)
    requires tag != [] && !IsSpace(tag[0]) && !IsSpace(tag[|tag| - 1])
    requires text != [] && forall k :: 0 <= k < |text| ==> !IsSpace(text[k])
    requires '=' !in tag && '\0' !in tag && '\0' !in text
    requires |tag| + 1 + |text| < MqttPublisher.TextMaxLen
    ensures Cursor(tag + "=" + text) == tag + "=" + text
    ensures SplitTagLevel(tag + "=" + text) == Some((tag, text))
  {
    var payload := tag + "=" + text;
    assert '\0' !in payload;
    CutShortPayload(payload);
    assert payload[0] == tag[0] && payload[|payload| - 1] == text[|text| - 1];
    TrimFixesTrimmed(payload);
    SplitAtEquals(tag, text);
  }

  /** A payload `tag=text` with a clean tag and a clean level text applies whatever `text` parses to. */
  lemma CleanPayloadAccepted(tag: string, text: string)
    requires tag != [] && !IsSpace(tag[0]) && !IsSpace(tag[|tag| - 1])
    requires text != [] && forall k :: 0 <= k < |text| ==> !IsSpace(text[k])
    requires '=' !in tag && '\0' !in tag && '\0' !in text
    requires |tag| + 1 + |text| < MqttPublisher.TextMaxLen
    ensures CommandSetLogLevel(tag + "=" + text) ==
      if ParseLogLevel(text).Some? then Some(LogLevelSetting(tag, ParseLogLevel(text).value)) else None
  {
    CleanPayloadSplits(tag, text);
  }

  /** A short trimmed payload without NUL is its own working copy. */
  lemma CursorOfTrimmed(payload: string)
    requires Trimmed(payload) && '\0' !in payload && |payload| < MqttPublisher.TextMaxLen
    ensures Cursor(payload) == payload
  {
    CutShortPayload(payload);
    TrimFixesTrimmed(payload);
  }

  /** A payload that starts with `=` has an empty tag, so the command is refused whatever follows. */
  lemma EmptyTagRejected(payload: string)
    requires payload != [] && payload[0] == '='
    requires Trimmed(payload) && '\0' !in payload && |payload| < MqttPublisher.TextMaxLen
    ensures CommandSetLogLevel(payload) == None
  {
    CursorOfTrimmed(payload);
    FirstIndexOfIs(payload, '=', 0);
    assert Trim(payload[..0]) == [];
  }

  /** A payload whose only `=` is its last character has an empty level text, so it is refused. */
  lemma EmptyLevelRejected(payload: string)
    requires payload != [] && payload[|payload| - 1] == '=' && '=' !in payload[..|payload| - 1]
    requires Trimmed(payload) && '\0' !in payload && |payload| < MqttPublisher.TextMaxLen
    ensures CommandSetLogLevel(payload) == None
  {
    CursorOfTrimmed(payload);
    FirstIndexOfIs(payload, '=', |payload| - 1);
    assert Trim(payload[|payload|..]) == [];
  }

  /**
   * A payload of 127 bytes or more is cut to its first 127 before it is
   * trimmed and split.
   */
  lemma CutLongPayload(payload: string)
    requires |payload| >= MqttPublisher.TextMaxLen - 1 && '\0' !in payload[..MqttPublisher.TextMaxLen - 1]
    ensures Cursor(payload) == Trim(payload[..MqttPublisher.TextMaxLen - 1])
  {
    var cut := Truncate(payload, MqttPublisher.TextMaxLen - 1);
    assert cut == payload[..MqttPublisher.TextMaxLen - 1];
    CStringOfClean(cut);
  }

  /** No level is spelled with `=`: a level text holding one never parses. */
  lemma NoLevelHasEquals(text: string)
    requires '=' in text
    ensures ParseLogLevel(text) == None
  {
    var k :| 0 <= k < |text| && text[k] == '=';
    var w := LowerString(text);
    assert '=' in w by {
      assert w[k] == Lower(text[k]) == '=';
    }
    assert w != "none" && w != "error" && w != "err" && w != "warn" && w != "warning" by {
      NoEqualsWord(w);
    }
    assert w != "info" && w != "debug" && w != "verbose" && w != "trace" by {
      NoEqualsWord(w);
    }
    assert text != "0" && text != "1" && text != "2" && text != "3" && text != "4" && text != "5";
  }

  /** A text holding `=` is none of the level words. */
  lemma NoEqualsWord(w: string)
    requires '=' in w
    ensures w != "none" && w != "error" && w != "err" && w != "warn" && w != "warning"
    ensures w != "info" && w != "debug" && w != "verbose" && w != "trace"
  {
  }

  /** Trimming keeps every character that is not whitespace. */
  lemma TrimKeeps(s: string, m: nat)
    requires m < |s| && !IsSpace(s[m])
    ensures s[m] in Trim(s)
  {
    var lo, hi := TrimIsInfix(s);
    assert forall k :: 0 <= k < lo ==> IsSpace(s[k]) by {
      forall k | 0 <= k < lo ensures IsSpace(s[k]) { assert s[..lo][k] == s[k]; }
    }
    assert forall k :: hi <= k < |s| ==> IsSpace(s[k]) by {
      forall k | hi <= k < |s| ensures IsSpace(s[k]) { assert s[hi..][k - hi] == s[k]; }
    }
    assert Trim(s)[m - lo] == s[m];
  }

  /** A cursor whose text after the separator names no level is refused. */
  lemma UnknownLevelRefused(cursor: string, i: nat)
    requires Separator(cursor) == Some(i)
    requires ParseLogLevel(Trim(cursor[i + 1..])) == None
    ensures ParseCursor(cursor) == None
  {
  }

  /**
   * A payload whose tag is followed by a second `=` is refused: the device
   * splits at the first one, so the level text keeps the second and names
   * no level.
   */
  lemma SecondEqualsRefused(payload: string, i: nat, j: nat)
    requires i < j < |payload| && payload[i] == '=' && payload[j] == '=' && '=' !in payload[..i]
    requires Trimmed(payload) && '\0' !in payload && |payload| < MqttPublisher.TextMaxLen
    ensures CommandSetLogLevel(payload) == None
  {
    CursorOfTrimmed(payload);
    SecondEqualsCursor(payload, i, j);
  }

  /** The cursor form of `SecondEqualsRefused`. */
  lemma SecondEqualsCursor(cursor: string, i: nat, j: nat)
    requires i < j < |cursor| && cursor[i] == '=' && cursor[j] == '=' && '=' !in cursor[..i]
    ensures ParseCursor(cursor) == None
  {
    var rest := cursor[i + 1..];
    assert ParseLogLevel(Trim(rest)) == None by {
      assert rest[j - i - 1] == '=';
      TrimKeeps(rest, j - i - 1);
      NoLevelHasEquals(Trim(rest));
    }
    FirstIndexOfIs(cursor, '=', i);
    UnknownLevelRefused(cursor, i);
  }

  /** A payload `tag=NAME` whose tag is clean sets that tag to the named level. */
  lemma TagEqualsLevelAccepted(tag: string, l: Level)
    requires tag != [] && !IsSpace(tag[0]) && !IsSpace(tag[|tag| - 1])
    requires '=' !in tag && '\0' !in tag
    requires |tag| + 1 + |LevelName(l)| < MqttPublisher.TextMaxLen
    ensures CommandSetLogLevel(tag + "=" + LevelName(l)) == Some(LogLevelSetting(tag, l))
  {
    LevelNameClean(l);
    assert '\0' !in LevelName(l);
    ParseLevelName(l);
    CleanPayloadAccepted(tag, LevelName(l));
  }

  /** `payload_is_truthy` accepts these words in any letter case. */
  const TruthyWords: seq<string> := ["1", "true", "on", "yes", "now"]

  lemma TruthyWordsAreLowerCase(t: string)
    ensures forall w :: w in TruthyWords ==> (EqualsIgnoreCase(t, w) <==> LowerString(t) == w)
  {
    forall w | w in TruthyWords
      ensures EqualsIgnoreCase(t, w) <==> LowerString(t) == w
    {
      EqualsIgnoreCaseLower(t, w);
    }
  }

  /**
   * `payload_is_truthy`: NULL, empty and all-whitespace payloads are true;
   * otherwise, with the leading whitespace skipped (and only that), the
   * rest must be one of the truthy words.
   */
  function PayloadIsTruthy(payload: Option<string>): (r: bool)
    ensures payload.None? || AllSpace(payload.value) ==> r
    ensures payload.Some? && !AllSpace(payload.value) ==>
      (r <==> exists w :: w in TruthyWords && EqualsIgnoreCase(TrimLeft(payload.value), w))
  {
    if payload.None? || payload.value == [] then true
    else
      var rest := TrimLeft(payload.value);
      TruthyWordsAreLowerCase(rest);
      if rest == [] then true else LowerString(rest) in TruthyWords
  }

  /** A payload that starts with a non-space is truthy exactly when, lower-cased, it is a truthy word. */
  lemma TruthyWithoutLeadingSpace(t: string)
    requires t != [] && !IsSpace(t[0])
    ensures PayloadIsTruthy(Some(t)) == (LowerString(t) in TruthyWords)
  {
    assert TrimLeft(t) == t;
  }

  /** Whitespace after the word is not skipped: "yes " is not truthy. */
  lemma TrailingSpaceNotTruthy(word: string)
    requires word in TruthyWords
    ensures !PayloadIsTruthy(Some(word + " "))
  {
    var p := word + " ";
    assert p[0] == word[0];
    TruthyWithoutLeadingSpace(p);
    var lower := LowerString(p);
    assert lower !in TruthyWords by {
      assert lower[|p| - 1] == ' ';
      assert forall w :: w in TruthyWords ==> ' ' !in w;
    }
  }

  /** Leading whitespace and letter case do not matter. */
  lemma {:induction false} TruthyAfterLeadingSpace(spaces: string, t: string, word: string)
    requires AllSpace(spaces) && word in TruthyWords && EqualsIgnoreCase(t, word)
    ensures PayloadIsTruthy(Some(spaces + t))
  {
    assert !IsSpace(t[0]) by {
      assert Lower(t[0]) == Lower(word[0]);
    }
    SkipSpaces(spaces, t);
  }

  lemma {:induction false} SkipSpaces(spaces: string, t: string)
    requires AllSpace(spaces) && t != [] && !IsSpace(t[0])
    ensures TrimLeft(spaces + t) == t
    decreases |spaces|
  {
    var st := spaces + t;
    if spaces != [] {
      assert st[0] == spaces[0] && st[1..] == spaces[1..] + t;
      assert TrimLeft(st) == TrimLeft(st[1..]);
      SkipSpaces(spaces[1..], t);
    } else {
      assert st == t;
    }
  }

  /**
   * The scan of `find_command_topic` from table index `index`: the first
   * subscribe-only entry whose full topic equals `topic`.
   */
  function FindCommandFrom(topic: string, index: nat): (r: Option<nat>)
    requires index <= Count
    ensures r.Some? ==> (index <= r.value < Count &&
      Row(r.value).direction == SubscribeOnly && Row(r.value).FullTopic() == topic)
    ensures r.None? ==> forall i :: index <= i < Count ==>
      !(Row(i).direction == SubscribeOnly && Row(i).FullTopic() == topic)
    decreases Count - index
  {
    if index == Count then None
    else
      var d := Row(index);
      if d.direction == SubscribeOnly && |d.FullTopic()| == |topic| && d.FullTopic() == topic then Some(index)
      else FindCommandFrom(topic, index + 1)
  }

  /**
   * `find_command_topic`: the subscribe-only descriptor whose topic has the
   * same length and bytes, or NULL (also for a NULL or empty topic).
   */
  function FindCommandTopic(topic: Option<string>): (r: Option<TopicDescriptor>)
    ensures r.Some? ==> topic.Some? && r.value.direction == SubscribeOnly && r.value.FullTopic() == topic.value
    ensures r.Some? ==> r.value.id < Count && r.value == Row(r.value.id)
    ensures r.None? && topic.Some? ==> forall i :: 0 <= i < Count ==>
      !(Row(i).direction == SubscribeOnly && Row(i).FullTopic() == topic.value)
  {
    if topic.None? then None
    else if topic.value == [] then
      AllTopicsUnderRoot();
      None
    else match FindCommandFrom(topic.value, 0)
      case None => None
      case Some(i) => Some(Row(i))
  }

  /** A command received from the broker: the table id and its C-string payload. */
  datatype Command = Command(id: nat, payload: string)

  /**
   * The DATA branch of `mqtt_commands_event_handler`: retained messages are
   * ignored, the topic must be a command topic, and the payload is copied
   * into a 128-byte buffer (at most 127 bytes) and read as a C string.
   */
  function HandleData(retain: bool, topic: Option<string>, data: Option<string>): (r: Option<Command>)
    ensures retain ==> r.None?
    ensures r.Some? ==> (r.value.id < Count && Row(r.value.id).direction == SubscribeOnly &&
      topic == Some(Row(r.value.id).FullTopic()))
    ensures r.Some? ==> |r.value.payload| < MqttPublisher.TextMaxLen && '\0' !in r.value.payload
    ensures r.Some? && data.Some? ==> |r.value.payload| <= |data.value| && r.value.payload == data.value[..|r.value.payload|]
    ensures r.Some? && data.Some? && |data.value| < MqttPublisher.TextMaxLen && '\0' !in data.value ==>
      r.value.payload == data.value
    ensures !retain && topic.Some? && (exists i :: 0 <= i < Count && Row(i).direction == SubscribeOnly && Row(i).FullTopic() == topic.value) ==> r.Some?
  {
    if retain then None
    else match FindCommandTopic(topic)
      case None => None
      case Some(d) =>
        var payload := if data.None? || data.value == [] then [] else CString(Truncate(data.value, MqttPublisher.TextMaxLen - 1));
        Some(Command(d.id, payload))
  }
}
