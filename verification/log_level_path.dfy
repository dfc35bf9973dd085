/**
 * The log-level control path end to end: what the operator tool
 * (tools/mqtt_log_level_cli.py) publishes is received by the device's
 * command handler (main/mqtt_commands.cpp) and applied as the level the
 * operator named.
 */
module LogLevelPath {
  import opened Wrappers
  import opened Chars
  import opened MqttTopics
  import opened MqttCommands
  import opened LogLevelCli
  import MqttPublisher

  /** The device level behind each canonical name of the tool. */
  lemma LevelOf(v: string) returns (l: Level)
    requires v in CanonicalLevels
    ensures LevelName(l) == v
  {
    l := if v == "NONE" then LevelNone
      else if v == "ERROR" then LevelError
      else if v == "WARN" then LevelWarn
      else if v == "INFO" then LevelInfo
      else if v == "DEBUG" then LevelDebug
      else LevelVerbose;
  }

  /** With the default topic root the tool publishes on the device's log-level command topic. */
  lemma DefaultTopicIsCommandTopic(host: string, port: int, user: string, password: string, qos: int,
                                   tag: string, level: string, dryRun: bool)
    ensures PublishLogLevel(host, port, user, password, qos, DefaultTopicRoot, tag, level, dryRun).topic
      == Row(CmdLogLevel).FullTopic()
    ensures Row(CmdLogLevel).direction == SubscribeOnly
  {
    LogLevelTopic();
  }

  /** A stripped tag has no C whitespace at either end. */
  lemma StrippedTagIsTrimmed(tag: string)
    requires tag != [] && PyStrip(tag) == tag
    ensures !IsSpace(tag[0]) && !IsSpace(tag[|tag| - 1])
  {
    CSpaceIsPySpace(tag[0]);
    CSpaceIsPySpace(tag[|tag| - 1]);
  }

  /**
   * Every payload the tool frames for a stripped tag and a normalised
   * level is accepted by `command_set_log_level`, which applies the level
   * whose name the tool sent. The tag must hold no `=` (the device splits
   * at the first one) and no NUL, and the payload must fit the 127-byte
   * command buffer.
   */
  lemma CliPayloadAccepted(tag: string, level: string) returns (l: Level)
    requires tag != [] && PyStrip(tag) == tag && '=' !in tag && '\0' !in tag
    requires NormalizeLevel(level).Success?
    requires |tag| + 1 + |NormalizeLevel(level).value| < MqttPublisher.TextMaxLen
    ensures LevelName(l) == NormalizeLevel(level).value
    ensures CommandSetLogLevel(tag + "=" + NormalizeLevel(level).value) == Some(LogLevelSetting(tag, l))
  {
    l := LevelOf(NormalizeLevel(level).value);
    StrippedTagIsTrimmed(tag);
    TagEqualsLevelAccepted(tag, l);
  }

  /**
   * The tool accepts a tag holding `=` (a `--tag` argument or a quoted name
   * in the sources), but the device splits at the first `=`, so the level
   * text it sees still holds the second one and the command is refused:
   * `--tag a=b` with level WARN sends `a=b=WARN`, which changes nothing.
   * `v` is any name `normalize_level` returns.
   */
  lemma TagWithEqualsRefused(tag: string, v: string)
    requires tag != [] && PyStrip(tag) == tag && '=' in tag && '\0' !in tag
    requires v in CanonicalLevels
    requires |tag| + 1 + |v| < MqttPublisher.TextMaxLen
    ensures CommandSetLogLevel(tag + "=" + v) == None
  {
    CanonicalEnds(v);
    StrippedTagIsTrimmed(tag);
    EqualsInTagRefused(tag, v);
  }

  /** Canonical level names are words of capitals. */
  lemma CanonicalEnds(v: string)
    requires v in CanonicalLevels
    ensures v != [] && !IsSpace(v[|v| - 1]) && '\0' !in v
  {
    assert forall k :: 0 <= k < |v| ==> 'A' <= v[k] <= 'Z';
  }

  /** `TagWithEqualsRefused` for any clean level text. */
  lemma EqualsInTagRefused(tag: string, v: string)
    requires tag != [] && !IsSpace(tag[0]) && '=' in tag && '\0' !in tag
    requires v != [] && !IsSpace(v[|v| - 1]) && '\0' !in v
    requires |tag| + 1 + |v| < MqttPublisher.TextMaxLen
    ensures CommandSetLogLevel(tag + "=" + v) == None
  {
    var payload := tag + "=" + v;
    var i := FirstIndexOf(tag, '=').value;
    assert payload[..i] == tag[..i];
    assert payload[i] == '=' && payload[|tag|] == '=';
    assert Trimmed(payload) by {
      assert payload[0] == tag[0] && payload[|payload| - 1] == v[|v| - 1];
    }
    assert '\0' !in payload by {
      assert forall k :: 0 <= k < |payload| ==> payload[k] in tag || payload[k] == '=' || payload[k] in v;
    }
    SecondEqualsRefused(payload, i, |tag|);
  }

  /**
   * The tool frames tags of any length, but the device keeps only the
   * first 127 bytes of a payload: a tag of 127 characters or more without
   * `=`, `:` or whitespace leaves no separator in what is kept, so the
   * command is refused whatever the level.
   */
  lemma LongTagRefused(tag: string, v: string)
    requires |tag| >= MqttPublisher.TextMaxLen - 1
    requires forall k :: 0 <= k < |tag| ==> tag[k] != '=' && tag[k] != ':' && !IsSpace(tag[k]) && tag[k] != '\0'
    ensures CommandSetLogLevel(tag + "=" + v) == None
  {
    var payload := tag + "=" + v;
    var kept := payload[..MqttPublisher.TextMaxLen - 1];
    assert kept == tag[..MqttPublisher.TextMaxLen - 1];
    assert '\0' !in kept;
    CutLongPayload(payload);
    assert Trimmed(kept);
    TrimFixesTrimmed(kept);
    assert NoSeparator(kept);
  }

  /** A short NUL-free message on cmd/log/level reaches the command handler unchanged. */
  lemma DeviceTakesLogLevelMessage(topic: string, payload: string) returns (id: nat)
    requires topic == Row(CmdLogLevel).FullTopic()
    requires |payload| < MqttPublisher.TextMaxLen && '\0' !in payload
    ensures HandleData(false, Some(topic), Some(payload)) == Some(Command(id, payload))
    ensures id < Count && Row(id).FullTopic() == topic
  {
    LogLevelTopic();
    var r := HandleData(false, Some(topic), Some(payload));
    assert r.Some?;
    id := r.value.id;
  }

  /** Level names hold no NUL. */
  lemma LevelNameHasNoNul(l: Level)
    ensures '\0' !in LevelName(l)
  {
  }

  /**
   * The message the tool publishes on the default topic root for a
   * stripped tag and a normalised level is taken by the device's DATA
   * handler as a command on cmd/log/level carrying the payload unchanged,
   * and that payload sets the tag to the level the tool named.
   */
  lemma ToolMessageApplied(t: string, level: string, host: string, port: int, user: string, password: string,
                           qos: int, dryRun: bool) returns (id: nat, l: Level)
    requires t != [] && PyStrip(t) == t && '=' !in t && '\0' !in t
    requires NormalizeLevel(level).Success?
    requires |t| + 1 + |NormalizeLevel(level).value| < MqttPublisher.TextMaxLen
    ensures var inv := PublishLogLevel(host, port, user, password, qos, DefaultTopicRoot, t, NormalizeLevel(level).value, dryRun);
      HandleData(false, Some(inv.topic), Some(inv.payload)) == Some(Command(id, inv.payload))
      && id < Count && Row(id).FullTopic() == Row(CmdLogLevel).FullTopic()
      && CommandSetLogLevel(inv.payload) == Some(LogLevelSetting(t, l))
      && LevelName(l) == NormalizeLevel(level).value
  {
    var v := NormalizeLevel(level).value;
    var inv := PublishLogLevel(host, port, user, password, qos, DefaultTopicRoot, t, v, dryRun);
    DefaultTopicIsCommandTopic(host, port, user, password, qos, t, v, dryRun);
    l := CliPayloadAccepted(t, level);
    LevelNameHasNoNul(l);
    id := DeviceTakesLogLevelMessage(inv.topic, inv.payload);
  }

  /**
   * End to end: the same holds for whatever tag the tool chooses, given
   * with --all or --tag, or picked from the discovered tags.
   */
  lemma ToolCommandReachesDevice(all: bool, tagArg: Option<string>, roots: seq<Root>, answers: seq<string>,
                                 level: string, host: string, port: int, user: string, password: string,
                                 qos: int, dryRun: bool) returns (id: nat, l: Level)
    requires ChooseTag(all, tagArg, DiscoverTags(roots), answers).Success?
    requires NormalizeLevel(level).Success?
    requires var t := ChooseTag(all, tagArg, DiscoverTags(roots), answers).value;
      '=' !in t && '\0' !in t && |t| + 1 + |NormalizeLevel(level).value| < MqttPublisher.TextMaxLen
    ensures var t := ChooseTag(all, tagArg, DiscoverTags(roots), answers).value;
      var inv := PublishLogLevel(host, port, user, password, qos, DefaultTopicRoot, t, NormalizeLevel(level).value, dryRun);
      HandleData(false, Some(inv.topic), Some(inv.payload)) == Some(Command(id, inv.payload))
      && CommandSetLogLevel(inv.payload) == Some(LogLevelSetting(t, l))
      && LevelName(l) == NormalizeLevel(level).value
  {
    var t := ChooseTag(all, tagArg, DiscoverTags(roots), answers).value;
    ChosenTagIsStripped(all, tagArg, roots, answers);
    id, l := ToolMessageApplied(t, level, host, port, user, password, qos, dryRun);
  }
}
