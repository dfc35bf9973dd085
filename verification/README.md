# voda-septik in Dafny

A Dafny model of the firmware of an ESP32 controller for a water tank and
septic pump station. The controller reports levels, flow, temperatures and
its own state over MQTT, takes commands back, and offers a configuration
web page in access-point mode. The model also covers the operator tool
`tools/mqtt_log_level_cli.py`, which sends log-level commands to the device.

There is one module per source file or component. It holds the data the
code keeps, its operations as functions or methods, and the properties the
code promises, proved as contracts and lemmas:

- **Operator tool and MQTT commands.**
  - `LogLevelCli` covers level normalisation, tag discovery over a source tree, the topic and payload framing, and the interactive tag choice.
  - `MqttCommands` covers which incoming messages are commands, reading boolean payloads, and splitting and parsing `tag=level`.
  - `LogLevelPath` proves that a message the tool sends is applied by the device as the level the operator named.
- **Topics and publishing.**
  - `MqttTopics` is the 46-entry topic table.
  - `MqttPublisher` is the publisher task's compatibility check, change detection and queue guards.
  - `MqttClient` covers the publish guards and the online-status topic.
- **Network.**
  - `NetworkInit` covers the Wi-Fi reconnect back-off, the MQTT client id, the reported signal strength, the start-up argument checks and the last will.
  - `CaptiveDns` covers the DNS name decoder and reply bytes of the captive portal (the message layout is that of section 4.1 of RFC 1035).
  - `MqttConfig` covers broker URI validation and credential storage.
  - `NetworkLevel` gives the single network level the firmware reports.
  - `WifiInit` is the older station bring-up with its five-retry budget.
- **Configuration.**
  - `ConfigStore` is the registry of up to 64 items over NVS, with clamping, truncation and defaults.
  - `ConfigWebapp` covers HTML escaping, URL-decoding (section 2.1 of RFC 3986, with `+` for space), form parsing, saving a submitted form, and the server start and stop guards.
- **Sensors.**
  - `Ds18b20` and `TeplotaDemo` cover the 1-Wire probe addresses: text form, validity, the sorted scan, and assigning addresses to probes.
  - `Hladina` is the level demo's sorted ring of samples with sentinels, and its middle mean.
  - `Prutokomer` is pulse counting with a wrapping 32-bit counter.
  - `SensorEvents` is the rate-limited warning of the sensor queue.
  - `StateManager` covers temperature faults, per-session flags and the boot mode.
- **Updates and display.**
  - `OtaManager` covers the update gate, the progress it publishes and image confirmation.
  - `StartupAnimation` and `StatusDisplayAnimation` are the frame sequences of the two start-up animations.
- **Shared helpers.**
  - `Wrappers` holds `Option`, `Result` and the `esp_err_t` codes.
  - `Chars` holds C `isspace`, ASCII case folding, C strings and in-place trimming.
  - `Decimal` holds `%d` printing and `strtol` reading.

Everything outside the code is a parameter of the operation that uses it:

- ESP-IDF and FreeRTOS calls, NVS, HTTP, sockets, the clock and the display write;
- what each call returns;
- for the operator tool, the files, the prompts and the subprocess.

C strings are `seq<char>` without NUL, and a buffer's size shows up as a cut to its capacity. Fixed-width integers are unbounded, with their wrap-around or saturation written out where the code depends on it.

## Model

| member | source | states |
|---|---|---|
| Chars.Trim | main/mqtt_commands.cpp:153-170 | the trimmed text has no whitespace at either end and is never longer than its input |
| Chars.TrimIsInfix | main/mqtt_commands.cpp:159-167 | the trimmed text is an infix of the input and only whitespace lies on each side of it |
| Chars.TrimEmptyIff | main/mqtt_commands.cpp:159-167 | a text trims to nothing exactly when it is all whitespace |
| Chars.TrimFixesTrimmed | main/mqtt_commands.cpp:159-167 | a text without whitespace at either end is left as it is |
| Chars.TrimIdempotent | main/mqtt_commands.cpp:153-170 | trimming an already trimmed text changes nothing |
| Chars.TrimChars | main/mqtt_commands.cpp:153-170 | trimming only removes characters, it never introduces one |
| Chars.CString | main/mqtt_commands.cpp:441-445 | reading a NUL-terminated buffer gives the NUL-free prefix before its first NUL |
| Chars.Truncate | main/mqtt_commands.cpp:226-228 | a bounded copy keeps a prefix of at most the buffer's capacity, all of a shorter text |
| Chars.CStringOfClean | main/mqtt_commands.cpp:441-445 | a text without NUL reads back whole |
| Chars.EqualsIgnoreCaseLowerString | main/mqtt_commands.cpp:121-125 | `strcasecmp` equality is equality of the lower-cased texts, in both directions |
| Chars.FirstIndexOf | main/mqtt_commands.cpp:236-239 | `strchr` finds the first occurrence, and finds none exactly when the character is absent |
| LogLevelCli.PyStrip | tools/mqtt_log_level_cli.py:47 | `str.strip()` leaves no whitespace at either end and never lengthens the text |
| LogLevelCli.PyStripIsInfix | tools/mqtt_log_level_cli.py:47 | the stripped text is an infix of the input with only whitespace on each side |
| LogLevelCli.PyStripIdempotent | tools/mqtt_log_level_cli.py:74 | stripping a stripped tag changes nothing |
| LogLevelCli.PyUpper | tools/mqtt_log_level_cli.py:47 | upper-casing keeps the length and maps every character on its own |
| LogLevelCli.NormalizeLevel | tools/mqtt_log_level_cli.py:46-51 | succeeds exactly when the stripped, upper-cased input is a key of the level table, then always gives one of the six canonical names; otherwise the error carries the original text |
| LogLevelCli.CanonicalMapsToItself | tools/mqtt_log_level_cli.py:25-41 | each canonical name is a key of the table and maps to itself |
| LogLevelCli.CanonicalIsNormal | tools/mqtt_log_level_cli.py:46-47 | a canonical name is unchanged by stripping and upper-casing |
| LogLevelCli.NormalizeIdempotent | tools/mqtt_log_level_cli.py:25-51 | normalising an already normalised level gives the same level again |
| LogLevelCli.NormalizeSpelling | tools/mqtt_log_level_cli.py:46-51 | every alias, in any letter case and padded with whitespace, normalises to the level the table gives it |
| LogLevelCli.KeysAreWords | tools/mqtt_log_level_cli.py:25-41 | the table's keys are non-empty words of capital letters and digits |
| LogLevelCli.OneCharKeys | tools/mqtt_log_level_cli.py:25-41 | the only one-character keys are the digits 0 to 5 |
| LogLevelCli.QuotedAt | tools/mqtt_log_level_cli.py:20-22 | the group `"([^"]+)"` captures the non-empty quote-free text between two quotes |
| LogLevelCli.TokensThenQuoted | tools/mqtt_log_level_cli.py:20-21 | a fixed idiom followed by the quoted group yields a non-empty quote-free capture inside the text |
| LogLevelCli.LogMacroAt | tools/mqtt_log_level_cli.py:22 | the logging-macro pattern only matches at `ESP_` and captures a non-empty quote-free tag |
| LogLevelCli.MatchAt | tools/mqtt_log_level_cli.py:19-23 | each of the three patterns yields a non-empty quote-free capture that ends inside the text |
| LogLevelCli.FindAll | tools/mqtt_log_level_cli.py:72-73 | every capture `finditer` reports is non-empty and holds no quote |
| LogLevelCli.FindAllEmptyIff | tools/mqtt_log_level_cli.py:73 | `finditer` reports nothing from a position exactly when the pattern matches at no position from there on |
| LogLevelCli.FindAllLeftmost | tools/mqtt_log_level_cli.py:73 | the first capture reported from a position is that of the leftmost match at or after it, and the scan resumes just past that match, so the matches are leftmost and non-overlapping |
| LogLevelCli.RenderMatches | tools/mqtt_log_level_cli.py:20-22 | an idiom written plainly and followed by a non-space is matched up to exactly its end |
| LogLevelCli.Suffix | tools/mqtt_log_level_cli.py:59 | a path's suffix is empty or a dot and a dot-free, slash-free ending of the path |
| LogLevelCli.SourceFiles | tools/mqtt_log_level_cli.py:54-60 | every file the walk yields has a source suffix |
| LogLevelCli.SourceFilesExactly | tools/mqtt_log_level_cli.py:54-60 | a file is yielded exactly when it is a source file listed under a root that exists and is a directory |
| LogLevelCli.Filter | tools/mqtt_log_level_cli.py:59-60 | keeps exactly the source files of a listing |
| LogLevelCli.NonSourceFileIgnored | tools/mqtt_log_level_cli.py:59 | a file without a source suffix contributes nothing |
| LogLevelCli.UnusableRootIgnored | tools/mqtt_log_level_cli.py:56-57 | a missing root or one that is not a directory changes no result |
| LogLevelCli.InsertSorted | tools/mqtt_log_level_cli.py:76-78 | adding a tag to an ascending list keeps it strictly ascending with exactly the old tags and the new one |
| LogLevelCli.SortedSet | tools/mqtt_log_level_cli.py:64-78 | `sorted(set(tags))` is strictly ascending and holds exactly the tags found |
| LogLevelCli.AscendingUnique | tools/mqtt_log_level_cli.py:78 | two strictly ascending lists with the same elements are equal, so the sorted result is determined by the set |
| LogLevelCli.AscendingDistinct | tools/mqtt_log_level_cli.py:78 | a strictly ascending list holds no tag twice |
| LogLevelCli.Stripped | tools/mqtt_log_level_cli.py:74 | each capture is stripped in place |
| LogLevelCli.StrippedNonEmpty | tools/mqtt_log_level_cli.py:74-76 | a tag is kept exactly when it is the non-empty strip of some capture, and kept tags are stripped |
| LogLevelCli.TagsIn | tools/mqtt_log_level_cli.py:72-76 | every tag taken from one text is non-empty and stripped |
| LogLevelCli.CollectTags | tools/mqtt_log_level_cli.py:66-76 | a tag is collected exactly when some readable source file yields it |
| LogLevelCli.DiscoverTags | tools/mqtt_log_level_cli.py:63-78 | the result is strictly ascending, each tag non-empty and stripped, and holds exactly the tags of the readable source files under the usable roots |
| LogLevelCli.PublishLogLevel | tools/mqtt_log_level_cli.py:97-126 | the topic is the root followed by `/cmd/log/level`, the payload is `tag=level`, and a dry run runs nothing while otherwise the command line carries the QoS, topic and payload |
| LogLevelCli.PickTag | tools/mqtt_log_level_cli.py:129-147 | an empty tag list fails; a chosen tag is one of the tags or a non-numeric answer stripped |
| LogLevelCli.PickByNumber | tools/mqtt_log_level_cli.py:141-144 | answering with the number k+1 picks the k-th tag (counting from 0) |
| LogLevelCli.PickAsksAgain | tools/mqtt_log_level_cli.py:138-146 | a blank answer or an out-of-range number asks again and changes nothing |
| LogLevelCli.ChooseTag | tools/mqtt_log_level_cli.py:188-190 | `--all` gives `*`, else a non-blank stripped `--tag`, else the interactive choice |
| LogLevelCli.ChosenTagIsStripped | tools/mqtt_log_level_cli.py:188-190 | every tag the tool can publish for is non-empty and stripped |
| LogLevelCliExamples.DigitAboveFiveFails | tools/mqtt_log_level_cli.py:48-50 | a level number from 6 to 9 is refused, not coerced |
| LogLevelCliExamples.MinusFails | tools/mqtt_log_level_cli.py:48-50 | anything starting with a minus sign is refused |
| LogLevelCliExamples.BlankFails | tools/mqtt_log_level_cli.py:47-50 | empty or all-whitespace input is refused |
| LogLevelCliExamples.WholeMatchFound | tools/mqtt_log_level_cli.py:72-73 | a match spanning the whole text is the only match reported |
| LogLevelCliExamples.QuotedWhole | tools/mqtt_log_level_cli.py:20-22 | a quoted tag that ends the text is captured whole |
| LogLevelCliExamples.PlainIdiomMatches | tools/mqtt_log_level_cli.py:20-22 | an idiom written plainly and followed by a quoted tag matches up to the closing quote and captures the tag |
| LogLevelCliExamples.StaticConstCaptures | tools/mqtt_log_level_cli.py:20 | `static const char*TAG="tag"` yields exactly that tag |
| LogLevelCliExamples.DefineCaptures | tools/mqtt_log_level_cli.py:21 | `#define TAG "tag"` yields exactly that tag |
| LogLevelCliExamples.LogMacroCaptures | tools/mqtt_log_level_cli.py:22 | `ESP_EARLY_LOGW("tag"` yields exactly that tag |
| LogLevelPath.LevelOf | tools/mqtt_log_level_cli.py:25-41 | each canonical name of the tool is the name the device prints for some level |
| LogLevelPath.DefaultTopicIsCommandTopic | main/mqtt_topics.cpp:59 | with the default root the tool publishes on the device's subscribe-only log-level command topic |
| LogLevelPath.StrippedTagIsTrimmed | main/mqtt_commands.cpp:153-170 | a tag the tool stripped has no C whitespace at either end |
| LogLevelPath.CliPayloadAccepted | main/mqtt_commands.cpp:219-271 | a payload the tool frames for a stripped tag without `=` or NUL and a normalised level, shorter than 128 bytes, sets that tag to the level the tool named |
| LogLevelPath.DeviceTakesLogLevelMessage | main/mqtt_commands.cpp:429-447 | a short NUL-free message on the log-level topic reaches the command handler unchanged |
| LogLevelPath.ToolMessageApplied | tools/mqtt_log_level_cli.py:106-107 | for a tag without `=` or NUL and a payload shorter than 128 bytes, the tool's message on the default root reaches the device unchanged and sets the tag to the named level |
| LogLevelPath.ToolCommandReachesDevice | tools/mqtt_log_level_cli.py:188-212 | end to end, when the tag the tool chooses holds no `=` or NUL and the payload is shorter than 128 bytes, the device applies the level the operator named to it; `TagWithEqualsRefused` and `LongTagRefused` show what happens otherwise |
| LogLevelPath.TagWithEqualsRefused | main/mqtt_commands.cpp:236-266 | a tag holding `=`, which the tool accepts and frames as `tag=LEVEL`, is split at its own `=` by the device, and the command is refused |
| LogLevelPath.LongTagRefused | main/mqtt_commands.cpp:226-251 | a tag of 127 or more characters without `=`, `:` or whitespace loses the separator when the device cuts the payload to 127 bytes, and the command is refused |
| MqttCommands.ParseLogLevel | main/mqtt_commands.cpp:172-204 | each level is selected exactly by its words in any letter case or by its digit spelled exactly; everything else is rejected |
| MqttCommands.ParseLevelName | main/mqtt_commands.cpp:172-217 | the name `log_level_name` prints for a level parses back to that level |
| MqttCommands.ParseIgnoresCase | main/mqtt_commands.cpp:178-198 | two spellings that differ only in letter case select the same level or are both rejected |
| MqttCommands.WordsAreLowerCase | main/mqtt_commands.cpp:178-198 | comparing with a level word ignoring case is comparing the lower-cased text with it |
| MqttCommands.FirstSpace | main/mqtt_commands.cpp:240-247 | the scan stops at the first whitespace character and finds none exactly when there is none |
| MqttCommands.Separator | main/mqtt_commands.cpp:236-247 | the separator is the first `=`, failing that the first `:`, failing that the first whitespace |
| MqttCommands.Cursor | main/mqtt_commands.cpp:226-230 | the working copy is shorter than 128 bytes, holds no NUL and every character comes from the payload |
| MqttCommands.SplitTagLevel | main/mqtt_commands.cpp:236-256 | a payload with no separator is refused; a split gives a trimmed tag without `=` taken from the payload |
| MqttCommands.ParseCursor | main/mqtt_commands.cpp:236-268 | an accepted payload names a non-empty trimmed tag without `=`; without a separator nothing is accepted |
| MqttCommands.CommandSetLogLevel | main/mqtt_commands.cpp:219-271 | the applied tag is non-empty, trimmed, short and NUL-free; a payload without any separator changes nothing |
| MqttCommands.CutShortPayload | main/mqtt_commands.cpp:226-228 | a payload shorter than the buffer survives the copy unchanged |
| MqttCommands.SplitAtEquals | main/mqtt_commands.cpp:236-256 | `tag=text` with both sides trimmed splits back into exactly those two |
| MqttCommands.LevelNameClean | main/mqtt_commands.cpp:206-217 | every level name is non-empty and has no whitespace |
| MqttCommands.CleanPayloadSplits | main/mqtt_commands.cpp:226-256 | a clean short `tag=text` passes the copy and trim untouched and splits into tag and text |
| MqttCommands.CleanPayloadAccepted | main/mqtt_commands.cpp:219-271 | a clean short `tag=text` applies to that tag whatever the text parses to, and nothing when it does not parse |
| MqttCommands.EmptyTagRejected | main/mqtt_commands.cpp:254-261 | a payload starting with `=` has an empty tag and is refused, so nothing is set |
| MqttCommands.EmptyLevelRejected | main/mqtt_commands.cpp:254-261 | a payload whose only `=` ends it has an empty level text and is refused, so nothing is set |
| MqttCommands.CutLongPayload | main/mqtt_commands.cpp:226-230 | a payload of 127 bytes or more is cut to its first 127 before it is trimmed and split |
| MqttCommands.NoLevelHasEquals | main/mqtt_commands.cpp:172-204 | no level text holding `=` parses to a level |
| MqttCommands.SecondEqualsRefused | main/mqtt_commands.cpp:236-266 | a payload with a second `=` after the first is refused: the level text keeps the second `=` |
| MqttCommands.TagEqualsLevelAccepted | main/mqtt_commands.cpp:219-271 | `tag=NAME` for a level's name sets that tag to that level |
| MqttCommands.PayloadIsTruthy | main/mqtt_commands.cpp:107-130 | NULL, empty and all-whitespace payloads are true; otherwise true exactly when the text after the leading whitespace is a truthy word in any case |
| MqttCommands.TruthyWordsAreLowerCase | main/mqtt_commands.cpp:121-125 | comparing with a truthy word ignoring case is comparing the lower-cased text with it |
| MqttCommands.TruthyWithoutLeadingSpace | main/mqtt_commands.cpp:113-129 | a payload starting with a non-space is true exactly when, lower-cased, it is a truthy word |
| MqttCommands.TrailingSpaceNotTruthy | main/mqtt_commands.cpp:113-129 | trailing whitespace is not skipped, so a truthy word followed by a space is false |
| MqttCommands.TruthyAfterLeadingSpace | main/mqtt_commands.cpp:113-126 | any leading whitespace and any letter case before a truthy word still give true |
| MqttCommands.SkipSpaces | main/mqtt_commands.cpp:113-115 | skipping leading whitespace stops at the first non-space character |
| MqttCommands.FindCommandFrom | main/mqtt_commands.cpp:87-104 | the scan returns the first subscribe-only entry at or after its start whose topic is byte-equal, or proves there is none |
| MqttCommands.FindCommandTopic | main/mqtt_commands.cpp:81-105 | only a subscribe-only descriptor with the identical topic is returned; NULL or empty topics and unknown topics give nothing |
| MqttCommands.HandleData | main/mqtt_commands.cpp:429-447 | retained messages are ignored; a command topic yields its id and the payload cut to at most 127 bytes, a short payload whole |
| ConfigStore.Prepare | components/config_store/config_store.cpp:63-76 | succeeds exactly for a namespace of at most 15 characters and then empties the registry while keeping NVS; a refusal is INVALID_ARG and changes nothing; the store is ready exactly when the namespace is non-empty |
| ConfigStore.Register | components/config_store/config_store.cpp:78-98 | INVALID_ARG exactly for a store that is not ready or an item without a key of 1 to 15 characters; NO_MEM exactly for a new key when 64 items are registered; a known key changes nothing; a new one is appended; NVS is never touched |
| ConfigStore.RegisterPreservesValid | components/config_store/config_store.cpp:78-98 | registration keeps the registry at most 64 valid items with unique keys, and never reorders or drops what was there |
| ConfigStore.FindItem | components/config_store/config_store.cpp:105-118 | finds an item exactly when the store is ready and some registered item has the key, and what it finds is a registered item with that key |
| ConfigStore.FindAfterRegister | components/config_store/config_store.cpp:78-118 | after a successful registration the key is found, and a newly registered item is exactly what is found |
| ConfigStore.ItemCount | components/config_store/config_store.cpp:120-123 | at most the number registered, and 0 unless the store is ready |
| ConfigStore.ItemAt | components/config_store/config_store.cpp:125-131 | an item exactly for an index below the count, the one registered at that position |
| ConfigStore.Clamp | components/config_store/config_store.cpp:46-49 | a value within the bounds is kept and the result stays within them; a value below the minimum, or bounds that cross, give the minimum |
| ConfigStore.ClampIdempotent | components/config_store/config_store.cpp:46-49 | clamping twice is clamping once |
| ConfigStore.Normalize | components/config_store/config_store.cpp:310-313 | a prefix of the value, at most max_string_len long when that limit is positive, and the value itself when it fits or there is no limit |
| ConfigStore.SetI32Item | components/config_store/config_store.cpp:240-260 | a missing or mistyped item is INVALID_ARG; on success the item's NVS slot holds the clamped value; a failure changes nothing; the registry is never touched |
| ConfigStore.SetBoolItem | components/config_store/config_store.cpp:284-302 | a missing or mistyped item is INVALID_ARG; on success the slot holds the byte 1 or 0; a failure changes nothing |
| ConfigStore.SetStringItem | components/config_store/config_store.cpp:304-327 | a missing item, missing value or mistyped item is INVALID_ARG; on success the slot holds the value cut to max_string_len; a failure changes nothing |
| ConfigStore.GetI32Item | components/config_store/config_store.cpp:133-155 | succeeds only for a registered INT32 item; a stored number is returned with nothing changed; a key never written gives the clamped default and stores it, and exactly when storing or committing it fails the call aborts with E653; every failure aborts with one of E650 to E653 |
| ConfigStore.GetBoolItem | components/config_store/config_store.cpp:181-205 | succeeds only for a registered BOOL item; a stored byte reads as true exactly when it is non-zero; a key never written gives the default and stores it, and exactly when storing or committing it fails the call aborts with E661; failures abort with E658 to E661 |
| ConfigStore.GetStringItem | components/config_store/config_store.cpp:207-238 | succeeds only for a registered STRING item and a value that fits the buffer with its NUL; a stored string is returned as is; a key never written gives the default cut to its limit and stores it, and when that fits the buffer, a failed store or commit aborts with E667; failures abort with E662 to E667 |
| ConfigStore.SetThenGetI32 | components/config_store/config_store.cpp:133-155 | a registered integer item reads back the clamped value last set, whatever a default write would have done |
| ConfigStore.SetThenGetBool | components/config_store/config_store.cpp:181-205 | a registered boolean item reads back the value last set |
| ConfigStore.SetThenGetString | components/config_store/config_store.cpp:207-238 | a registered string item reads back the value last set, cut to its limit, when the buffer holds it |
| ConfigStore.GetDefaultIsStable | components/config_store/config_store.cpp:140-152 | a second read after a successful one gives the same value, changes nothing more and no longer depends on a write succeeding |
| ConfigStore.Write | components/config_store/config_store.cpp:254-259 | a successful write leaves the item's slot holding the value and every other slot and the registry as they were; a failed one changes nothing and its code is returned |
| ConfigStore.GetGuard | components/config_store/config_store.cpp:135-139 | a getter passes its checks only for an item of the right type that is registered and an NVS handle that opened |
| ConfigWebapp.HtmlEscape | components/config_webapp/config_webapp.cpp:44-59 | the escaped text holds none of < > " ' and is never shorter; text without a special character is left as it is |
| ConfigWebapp.HtmlEscapeRoundTrip | components/config_webapp/config_webapp.cpp:44-59 | reading the five entities back as characters gives exactly the stored value: the page shows every value as stored |
| ConfigWebapp.HexToInt | components/config_webapp/config_webapp.cpp:102-112 | -1 exactly for a character that is not a hexadecimal digit of either case, otherwise the digit's value |
| ConfigWebapp.UrlDecode | components/config_webapp/config_webapp.cpp:114-135 | never longer than its input, the input itself when it holds no + and no %, and bytes stay bytes |
| ConfigWebapp.UrlRoundTrip | components/config_webapp/config_webapp.cpp:114-135 | decoding undoes the browser's percent-encoding of every byte string |
| ConfigWebapp.Pieces | components/config_webapp/config_webapp.cpp:137-158 | the pieces visited hold no &, there are none exactly for an empty body, and joined with & they give the body without a final & |
| ConfigWebapp.PiecesOfJoin | components/config_webapp/config_webapp.cpp:137-158 | cutting pieces joined with & gives them back when the last is not empty |
| ConfigWebapp.SplitPair | components/config_webapp/config_webapp.cpp:147-155 | a piece without = is a key with the empty value |
| ConfigWebapp.SplitEncodedPair | components/config_webapp/config_webapp.cpp:147-155 | an encoded name = encoded value piece splits back into exactly that name and value |
| ConfigWebapp.ToMap | components/config_webapp/config_webapp.cpp:152-155 | a key is in the map exactly when some pair has it |
| ConfigWebapp.ToMapLast | components/config_webapp/config_webapp.cpp:152-155 | a key holds the value of its last pair |
| ConfigWebapp.ParseFormEncoded | components/config_webapp/config_webapp.cpp:137-160 | the keys of the result are exactly the keys of the body's pairs |
| ConfigWebapp.FormRoundTrip | components/config_webapp/config_webapp.cpp:137-160 | parsing a body as a browser submits it gives back its fields in order, and so the map of their last values |
| ConfigWebapp.LaterFieldWins | components/config_webapp/config_webapp.cpp:152-155 | of two submitted fields with the same name the later one is kept |
| ConfigWebapp.IntField | components/config_webapp/config_webapp.cpp:418-423 | an accepted INT32 field is always within the 32-bit long range |
| ConfigWebapp.SaveItem | components/config_webapp/config_webapp.cpp:386-443 | one item's save touches only that item's slot and nothing on failure; with a value to write a success leaves it in the slot; a field that does not parse as an integer is INVALID_ARG and an absent non-BOOL field is skipped; a FLOAT item is left as it is (see Left out) |
| ConfigWebapp.SaveItems | components/config_webapp/config_webapp.cpp:386-444 | the loop touches only the slots of the items it visits and never the registry |
| ConfigWebapp.SaveForm | components/config_webapp/config_webapp.cpp:384-445 | the save touches only the slots of registered items, never the registry, and does nothing on a store that is not ready |
| ConfigWebapp.SaveItemsWrites | components/config_webapp/config_webapp.cpp:386-444 | after a successful save every item with a value to write holds that value |
| ConfigWebapp.SaveItemOutcome | components/config_webapp/config_webapp.cpp:394-443 | with a working NVS an item's save fails only on an INT32 field that does not parse, and then with INVALID_ARG; FLOAT fields are not parsed in the model (see Left out) |
| ConfigWebapp.SaveItemsOutcome | components/config_webapp/config_webapp.cpp:384-445 | with a working NVS and no FLOAT items, the whole save is OK exactly when no INT32 field fails to parse, and INVALID_ARG otherwise |
| ConfigWebapp.IntFieldOfPrinted | components/config_webapp/config_webapp.cpp:418-422 | a printed 32-bit number is accepted as that number, and with anything after it the field is refused |
| ConfigWebapp.SavedIntReadsBack | components/config_webapp/config_webapp.cpp:418-428 | an integer typed into the form is what the device reads back afterwards, clamped to the item's range |
| ConfigWebapp.CheckboxReadsBack | components/config_webapp/config_webapp.cpp:376-402 | a ticked checkbox ("on") reads back as true and an unticked one, absent from the form, as false |
| ConfigWebapp.SavedStringReadsBack | components/config_webapp/config_webapp.cpp:408-416 | a text field reads back as typed, cut to the item's limit, when the reader's buffer holds it |
| ConfigWebapp.TrailingGarbageRefused | components/config_webapp/config_webapp.cpp:418-423 | a number followed by anything but a digit is refused with INVALID_ARG and nothing is written |
| ConfigWebapp.EmptyIntFieldStoresZero | components/config_webapp/config_webapp.cpp:418-428 | an empty INT32 field is not refused: 0 is stored, clamped to the item's range |
| ConfigWebapp.FirstFailure | components/config_webapp/config_webapp.cpp:640-697 | nothing exactly when every registration succeeded, otherwise an error that one of them returned |
| ConfigWebapp.Start | components/config_webapp/config_webapp.cpp:502-703 | refused with INVALID_STATE while a server runs or before the store is ready; otherwise OK exactly when the server starts and all eleven handlers register, a failed start returns its error, and a server runs afterwards exactly when the result is OK |
| ConfigWebapp.WebappPrepare | components/config_webapp/config_webapp.cpp:716-727 | OK exactly for a non-empty namespace on a ready store; INVALID_ARG exactly for a missing or empty one; INVALID_STATE otherwise; after the store is prepared with a namespace every non-empty namespace is accepted |
| ConfigWebapp.Stop | components/config_webapp/config_webapp.cpp:705-714 | no server runs afterwards, and stopping when none runs is OK |
| ConfigWebapp.StopIdempotent | components/config_webapp/config_webapp.cpp:705-714 | stopping twice is OK the second time, and a stopped app starts again when every handler registers |
| Decimal.IntToString | components/config_webapp/config_webapp.cpp:170-172 | the decimal text of a number is never empty and starts with a minus sign exactly when the number is negative |
| Decimal.NatToStringRoundTrip | components/config_webapp/config_webapp.cpp:170-172 | the digits printed for a natural number read back as that number |
| Decimal.IntToStringInjective | components/config_webapp/config_webapp.cpp:170-172 | two different integers never print alike |
| Decimal.Strtol | components/config_webapp/config_webapp.cpp:418-422 | the value read always lies in the 32-bit long range; reading nothing gives 0; when reading stops inside the text it stops at a non-digit |
| Decimal.ReadSignedPrinted | components/config_webapp/config_webapp.cpp:418-422 | an optional sign and digits read back the number printed, consuming exactly its text when a non-digit follows |
| Decimal.StrtolReadsPrinted | components/config_webapp/config_webapp.cpp:418-422 | strtol reads back the text printed for any 32-bit long and stops right after it when a non-digit follows |
| Decimal.StrtolWithoutDigits | components/config_webapp/config_webapp.cpp:418-422 | with no digit after the leading blanks and sign, strtol reads 0 and leaves the end pointer at the start |
| Ds18b20.HexNumberOfDigits | main/teplota.cpp:75-85 | the zero-padded hexadecimal digits printed for a number read back as that number |
| Ds18b20.FormatAddr | main/teplota.cpp:75-85 | empty exactly for NONE; otherwise "0x" followed by sixteen hexadecimal digits |
| Ds18b20.CollectDigits | main/teplota.cpp:113-124 | at most sixteen digits are collected, all hexadecimal, and fewer than sixteen only when the text ran out |
| Ds18b20.ParseAddr | main/teplota.cpp:87-143 | without an output it fails and writes nothing; otherwise the output is always written, NONE on every failure; missing text fails; blank text succeeds with NONE |
| Ds18b20.ParseDigits | main/teplota.cpp:106-142 | a refused text leaves NONE |
| Ds18b20.ParsePrefixedDigits | main/teplota.cpp:106-142 | "0x" followed by sixteen hexadecimal digits parses to their value, which fits 64 bits |
| Ds18b20.ParseFormatRoundTrip | main/teplota.cpp:75-143 | parsing what formatting wrote gives back every address but NONE |
| Ds18b20.ConfiguredAddr | main/teplota.cpp:145-186 | a configured address is always NONE or a valid DS18B20 address, and a text that parses to NONE or a valid address is kept as parsed |
| Ds18b20.ConfiguredAddrOfFormatted | main/teplota.cpp:163-168 | a valid address formatted, stored and loaded back is configured unchanged |
| Ds18b20.KeepFrom | main/teplota.cpp:283-307 | the search loop only appends, keeps at most eight distinct valid addresses, and each new one comes from the search results before NONE |
| Ds18b20.KeepFromComplete | main/teplota.cpp:283-307 | until eight are kept, every valid address the search returned before NONE is kept |
| Ds18b20.Insert | main/teplota.cpp:309 | inserting a new address into an ascending sequence keeps it ascending and adds exactly that address |
| Ds18b20.Sort | main/teplota.cpp:309 | sorting distinct addresses gives the same addresses in strictly ascending order |
| Ds18b20.Detect | main/teplota.cpp:270-311 | at most eight addresses, strictly ascending, all valid and all returned by the search before NONE; below eight, every valid address returned is present |
| Ds18b20.Resolve | main/teplota.cpp:414-429 | a probe is available exactly when its configured address is not NONE and was detected, and then resolves to it |
| Ds18b20.Discover | main/teplota.cpp:398-452 | no probes is a failure that changes nothing; success exactly when something was detected; each probe keeps its kind and configuration and is available, resolved to its configured address, exactly when that address is not NONE and was detected |
| Ds18b20.DiscoveredProbesAreOnBus | main/teplota.cpp:398-452 | a probe that comes up available sits on a valid address the bus search returned, the one configured for it |
| CaptiveDns.Labels | components/network_core/network_ap_mode.cpp:26-44 | the reference reading of a name as RFC 1035 labels: every label read is non-empty, and the end position lies after the start whenever the start is inside the buffer |
| CaptiveDns.WriteLabel | components/network_core/network_ap_mode.cpp:36-42 | a label written into the output never exceeds its room and keeps everything written before it |
| CaptiveDns.AppendLabel | components/network_core/network_ap_mode.cpp:36-42 | writing a label after the cut name gives the cut longer name: cutting as the loop goes is cutting once at the end |
| CaptiveDns.DecodeQname | components/network_core/network_ap_mode.cpp:17-48 | a NULL buffer or output, no room or a start past the end gives 0; any other result lies after the start and within the buffer |
| CaptiveDns.DecodeFromReadsLabels | components/network_core/network_ap_mode.cpp:26-44 | the loop fails exactly when a label runs past the end and otherwise ends where the labels end, having written their dotted name cut to the room left |
| CaptiveDns.DecodeQnameReadsLabels | components/network_core/network_ap_mode.cpp:17-48 | decode_dns_qname returns 0 exactly when a label runs past the end; otherwise it returns the position after the root label and leaves the dotted name cut to out_len - 1 characters |
| CaptiveDns.QuestionEnd | components/network_core/network_ap_mode.cpp:97-138 | a request that is not dropped has a question ending after the 12-byte header and within the request |
| CaptiveDns.Reply | components/network_core/network_ap_mode.cpp:140-176 | a reply exists exactly when the question parses and the answer fits 512 bytes; it keeps the id and question count, sets flags 0x81 0x80, one answer and no other records, echoes the question and ends with the A record for 192.168.4.1 |
| CaptiveDns.LabelsOfEncodedName | components/network_core/network_ap_mode.cpp:26-44 | a name written as length-prefixed labels of 1 to 63 bytes reads back as exactly those labels, ending just past the root label |
| CaptiveDns.QuestionFillsRequest | components/network_core/network_ap_mode.cpp:107-126 | when a request's single question name is followed by exactly QTYPE and QCLASS, its question ends where the request ends |
| CaptiveDns.QueryIsAnswered | components/network_core/network_ap_mode.cpp:97-176 | every well-formed query that leaves room for the answer is answered with its own id, its question echoed and the A record appended |
| TeplotaDemo.FirstFree | main/teplota-demo.cpp:219-227 | the first detected address from a position on that is not taken: everything before it is taken, and there is none exactly when all are |
| TeplotaDemo.FreePass | main/teplota-demo.cpp:214-228 | probes already available, and probes that find nothing free, stay as they are; a probe that becomes available takes a detected address not taken before, and no two such probes take the same one |
| TeplotaDemo.ConfiguredPass | main/teplota-demo.cpp:190-212 | each probe is resolved exactly as main/teplota.cpp resolves it |
| TeplotaDemo.Assign | main/teplota-demo.cpp:190-228 | every available probe holds a detected address, and a probe whose configured address was detected holds that address |
| TeplotaDemo.DemoDiscover | main/teplota-demo.cpp:140-240 | no probes is a failure that changes nothing; success exactly when something was detected, otherwise every probe is reset; available probes sit on valid addresses the search returned; configured and detected addresses are honoured |
| TeplotaDemo.DemoDiscoverNoShared | main/teplota-demo.cpp:190-228 | with distinct configured addresses no detected address is assigned to two probes |
| TeplotaDemo.SharedConfiguredAddress | main/teplota-demo.cpp:191-212 | two probes configured with the same detected address are both given it, so the distinctness above is needed |
| TeplotaDemo.FreePassInOrder | main/teplota-demo.cpp:214-228 | unavailable probes take the free detected addresses in ascending order, one each, while there are any |
| TeplotaDemo.NothingConfiguredTakesInOrder | main/teplota-demo.cpp:287-291 | with no address configured the k-th probe gets the k-th lowest detected ROM when there is one: water, listed first, gets the lowest and air the next |
| Hladina.InitBuffer | main/hladina-demo.c:47-57 | the initial buffer is valid: sentinels 0 and UINT32_MAX at the ends, ascending values, and zeros tagged 0 to 30 in order between them |
| Hladina.TagPresent | main/hladina-demo.c:70-77 | in a valid buffer every counter value 0 to 30 tags some inner slot, so the search always finds one |
| Hladina.FindSlot | main/hladina-demo.c:72-77 | the search returns the first inner slot, between 1 and 31, tagged with the counter |
| Hladina.Swap | main/hladina-demo.c:88-96 | exchanging two slots changes only those two and keeps the multiset of slots and of tags |
| Hladina.SwapLeft | main/hladina-demo.c:86-91 | moving a sample left past a larger neighbour keeps the rest of the buffer sorted |
| Hladina.SwapRight | main/hladina-demo.c:92-97 | moving a sample right past a smaller neighbour keeps the rest of the buffer sorted |
| Hladina.InPlace | main/hladina-demo.c:98-100 | a sample between its two neighbours leaves the whole buffer sorted |
| Hladina.Bubble | main/hladina-demo.c:84-101 | the bubbling loop ends with the buffer sorted ascending, the sentinels unmoved at both ends, the moved sample at an inner slot and the same multiset of slots and of tags |
| Hladina.Insert | main/hladina-demo.c:65-105 | the buffer stays valid; exactly the first sample tagged with the counter is replaced by the new value, so the stored multiset is the old one minus that sample plus the new one; the counter advances modulo 31 |
| Hladina.SumBounds | main/hladina-demo.c:110-112 | a sum of values between two bounds lies between the count times each bound |
| Hladina.Mean | main/hladina-demo.c:107-115 | the sum of slots 6 to 26 divided by 21, rounded down, which lies between the values of slots 6 and 26 |
| Hladina.MeanBetween | main/hladina-demo.c:107-115 | in a valid buffer the trimmed mean lies between the smallest and largest value averaged |
| MqttPublisher.Compatible | main/mqtt_publisher_task.cpp:22-38 | NUMBER topics take INT64 or DOUBLE values, BOOLEAN topics BOOL, TEXT and JSON topics TEXT; a code outside either enum is never compatible |
| MqttPublisher.CompatibleMeaning | main/mqtt_publisher_task.cpp:24-29 | the same rule stated on the typed payload kind and value |
| MqttPublisher.Payload | main/mqtt_publisher_task.cpp:48-70 | a BOOL is sent as "1" or "0" and a TEXT as its characters up to the first NUL |
| MqttPublisher.Int64PayloadRoundTrip | main/mqtt_publisher_task.cpp:58-60 | an INT64 payload is a minus sign for negative values and digits that read back as the magnitude |
| MqttPublisher.PublishIfChanged | main/mqtt_publisher_task.cpp:84-124 | an unknown topic, a topic not meant for publishing or an incompatible value is INVALID_ARG with nothing sent; an event equal to the last one published on its topic sends nothing; otherwise the topic's full name, payload and retain flag are sent, and the event is remembered exactly when the publish succeeds; remembered events stay well formed |
| MqttPublisher.PublishedEventIsSuppressed | main/mqtt_publisher_task.cpp:104-106 | once an event has been published, the same event again publishes nothing |
| MqttPublisher.FailedEventIsRetried | main/mqtt_publisher_task.cpp:117-123 | after a failed publish the same event is sent again, identically |
| MqttPublisher.TaskStart | main/mqtt_publisher_task.cpp:143-176 | zero sizes are INVALID_ARG; a running task is left alone; a first start forgets every last state and succeeds exactly when the queue and the task are created, and NO_MEM leaves neither |
| MqttPublisher.TaskStartKeepsLastState | main/mqtt_publisher_task.cpp:143-176 | starting the task keeps the remembered events well formed |
| MqttPublisher.Enqueue | main/mqtt_publisher_task.cpp:178-194 | no event or no queue is INVALID_STATE; an unknown topic is INVALID_ARG; a failed send is TIMEOUT; an event lands on the queue exactly when the result is OK |
| MqttPublisher.EnqueueText | main/mqtt_publisher_task.cpp:223-235 | NULL text is INVALID_ARG; a queued text is a prefix of the given one shorter than 128 bytes without NUL, and a short clean text is queued unchanged |
| MqttPublisher.LongTextsCollide | main/mqtt_publisher_task.cpp:232-233 | texts that differ only beyond byte 127 are queued as the same event |
| MqttTopics.Row | main/mqtt_topics.cpp:13-63 | each of the 46 rows carries its own id and a non-empty relative path |
| MqttTopics.Descriptor | main/mqtt_topics.cpp:71-78 | a descriptor exactly for an id below COUNT, the table row with that id |
| MqttTopics.AllTopicsUnderRoot | main/mqtt_topics.cpp:3-11 | every full topic is "voda/septik/" followed by a non-empty relative path |
| MqttTopics.CommandTopicsAreSubscribeOnly | main/mqtt_topics.cpp:14-62 | exactly the cmd/ entries are subscribed to, and each is a TEXT topic with QoS 1 and no retain flag |
| MqttTopics.LogLevelTopic | main/mqtt_topics.cpp:59 | the log-level command listens on voda/septik/cmd/log/level |
| NetworkInit.ScheduleReconnect | components/network_core/network_init.cpp:265-280 | without a timer nothing changes; with one, the timer is armed for the current delay and the delay doubles, never beyond 60 s and never below where it was |
| NetworkInit.OnWifiEvent | components/network_core/network_init.cpp:409-446 | association or an address brings the back-off back to 1 s with no timer armed; a disconnect schedules a reconnect; the delay always stays within 1 s to 60 s |
| NetworkInit.BackoffDoubles | components/network_core/network_init.cpp:26-27 | from a fresh start, n disconnects in a row leave the delay at min(2^n s, 60 s), the last reconnect armed for min(2^(n-1) s, 60 s) |
| NetworkInit.ConnectResets | components/network_core/network_init.cpp:423-445 | whatever happened before, the next association or address restores the initial back-off |
| NetworkInit.ClientId | components/network_core/network_init.cpp:282-299 | an existing id is kept; a new one is non-empty, fits its buffer and starts with `esp32-`, and is `esp32-client` when the MAC cannot be read |
| NetworkInit.ClientIdNamesMac | components/network_core/network_init.cpp:282-299 | with a readable MAC the generated id has twelve characters whose last six hex digits read back as MAC bytes 3, 4 and 5 |
| NetworkInit.ClientIdOnce | components/network_core/network_init.cpp:284-286 | once an id exists, later calls keep it whatever the MAC read gives |
| NetworkInit.SelectRssi | components/network_core/network_init.cpp:307-319 | Wi-Fi counts as up exactly when hinted or the AP record is readable; a fresh reading is reported and cached; without one and with Wi-Fi down INT8_MIN is reported; a reported value is INT8_MIN, the fresh reading or the cache |
| NetworkInit.CacheIsLastReading | components/network_core/network_init.cpp:313-319 | over any run of calls the cache equals the last reading obtained, or INT8_MIN if none was |
| NetworkInit.InitSta | components/network_core/network_init.cpp:496-541 | refuses exactly a missing SSID, a missing password or an empty SSID; otherwise configures the prefixes of the SSID and the password that `strncpy` keeps, of length min(length, 31) and min(length, 63) |
| NetworkInit.InitStaStable | components/network_core/network_init.cpp:527-528 | credentials that fit their buffers are configured unchanged, and configuring again with the stored credentials stores the same |
| NetworkInit.ApConfigAsWritten | components/network_core/network_init.cpp:552-563 | the stored SSID is the prefix of min(length, 31) characters, but the advertised length is the full name's length modulo 256; WPA2-PSK exactly when a non-empty password is given; channel 1, at most 4 clients |
| NetworkInit.SsidLengthMismatch | components/network_core/network_init.cpp:553-554 | a 32-character SSID is stored as 31 characters but advertised with length 32 |
| NetworkInit.ApConfigFor | components/network_core/network_init.cpp:553-554 | the corrected configuration of the finding below: the advertised length equals the stored SSID, a prefix of the requested name shorter than 32 and equal to it when it fits; WPA2-PSK exactly when a non-empty password is given; channel 1, at most 4 clients |
| NetworkInit.ApConfigAgreement | components/network_core/network_ap_mode.cpp:220-221 | the code as written and the corrected configuration agree exactly on names shorter than 32 characters or whose length wraps round to 31 |
| NetworkInit.ApModeStart | components/network_core/network_ap_mode.cpp:211-250 | a missing or empty SSID is INVALID_ARG with nothing configured; otherwise the first failing call's error is returned, the configuration as written (length from the full name) is applied once the mode is set, and the captive DNS server starts exactly when the result is OK |
| NetworkInit.ApModeStartMismatch | components/network_core/network_ap_mode.cpp:220-221 | starting the access point with a 32-character SSID applies 31 stored characters advertised with length 32, where the corrected configuration advertises 31 |
| NetworkInit.ClampQos | components/network_core/network_init.cpp:645 | the will QoS is always 0 to 2 and a valid QoS is kept |
| NetworkInit.MqttStart | components/network_core/network_init.cpp:604-699 | a second start is OK and changes nothing; an invalid URI is INVALID_ARG with nothing changed; an enabled will without a status topic is INVALID_ARG and leaves no will and no topic; on success the client exists with a valid URI and a client id, and a will is set exactly when one was asked for; the will is always "offline" on the status topic with QoS at most 2 |
| NetworkInit.StatusTopic | components/network_core/network_init.cpp:728-735 | NULL exactly when no status topic is stored, the stored topic otherwise |
| NetworkInit.StatusTopicAfterStart | components/network_core/network_init.cpp:626-655 | after a successful first start the status topic is the requested one cut to 127 characters when a will was asked for and NULL otherwise, and a second start changes nothing |
| NetworkLevel.EventLevel | components/network_core/network_event.cpp:3-18 | the level is the one of the highest flag that is on, AP mode above MQTT above IP above Wi-Fi; AP mode always gives AP_CONFIG, and DOWN comes exactly when no flag is on |
| NetworkLevel.EventLevelMonotone | components/network_core/network_event.cpp:3-18 | turning any flag on never lowers the level in enum order |
| NetworkLevel.StationLevel | main/network_state_machine.cpp:7-19 | MQTT over IP over Wi-Fi, DOWN when nothing is up, and never AP_CONFIG |
| NetworkLevel.StationLevelAgrees | main/network_state_machine.cpp:7-19 | the station-side level agrees with the event level with AP mode off, for every input |
| NetworkLevel.MakeEvent | components/network_core/network_event.cpp:20-37 | the event's level is derived from the flags, and signal, address and both reconnect counters are passed through unchanged |
| NetworkLevel.StateMachineEvent | main/network_state_machine.cpp:21-38 | the queued event carries the station level, never AP_CONFIG, and passes signal, address and timestamp through unchanged |
| MqttConfig.FindFrom | components/network_core/network_mqtt_config.cpp:25 | the search finds the first occurrence of the pattern at or after the start, and finds none exactly when there is none |
| MqttConfig.IsValidUri | components/network_core/network_mqtt_config.cpp:13-36 | an accepted URI is present and longer than its scheme |
| MqttConfig.SeparatorEndsScheme | components/network_core/network_mqtt_config.cpp:19-29 | in a URI that starts with a scheme, the first "://" is the one that ends the scheme |
| MqttConfig.IsValidUriIff | components/network_core/network_mqtt_config.cpp:13-36 | a URI is accepted exactly when it starts with mqtt:// or mqtts:// and the character after the scheme exists and is neither ':' nor '/' |
| MqttConfig.Prepare | components/network_core/network_mqtt_config.cpp:38-60 | an invalid URI is refused and nothing stored changes; otherwise the URI is stored cut to 127 characters, and username and password cut to 63 and 127, absent ones as empty |
| MqttConfig.UsernameOrNull | components/network_core/network_mqtt_config.cpp:67-70 | NULL exactly when the stored username is empty, and the stored username otherwise |
| MqttConfig.PasswordOrNull | components/network_core/network_mqtt_config.cpp:72-75 | NULL exactly when the stored password is empty, and the stored password otherwise |
| MqttConfig.StoredUriIsValid | components/network_core/network_mqtt_config.cpp:38-45 | the URI kept after a successful prepare, even when cut to the buffer, is accepted again by URI validation |
| MqttConfig.CredentialsPassedThrough | components/network_core/network_mqtt_config.cpp:47-75 | after a successful prepare the getters give NULL exactly for an absent or empty credential, and otherwise the credential cut to its buffer |
| MqttClient.Publish | components/network_core/mqtt_publish.cpp:11-32 | without a client or while disconnected nothing is published and the result is INVALID_STATE; otherwise the message goes to the client with QoS 1, and the result is OK exactly when the client accepts it and ESP_FAIL otherwise |
| MqttClient.PublishOnlineStatus | components/network_core/mqtt_publish.cpp:34-47 | a missing or empty base topic is INVALID_ARG; a base whose "/status" topic does not fit the 96-byte buffer is INVALID_SIZE; otherwise the retained payload "online" goes to base + "/status", and the result is OK exactly when the topic fits and the client is connected and accepts it |
| MqttClient.LongestBaseTopic | components/network_core/mqtt_publish.cpp:40-44 | an 88-character base topic is the longest that is published; one character more is INVALID_SIZE |
| MqttClient.MqttInit | main/mqtt_init.cpp:147-213 | a second call is OK and changes nothing; an invalid URI is INVALID_ARG with nothing stored; otherwise the settings are stored as the config prepare stores them, and the client, when created, gets the stored URI with empty credentials as NULL; a successful first call leaves a created client with a valid URI |
| MqttClient.InitPassesCredentials | main/mqtt_init.cpp:166-191 | the client receives each credential cut to its buffer, and NULL exactly when it was absent or empty |
| MqttClient.NetworkEventFromMqtt | main/mqtt_init.cpp:66-94 | the event's level is MQTT over IP over Wi-Fi, where Wi-Fi is up when the AP record can be read and IP when the address is non-zero; the signal is the AP's or INT8_MIN, and the address is 0 when not ready |
| OtaManager.PublishEvent | main/ota_manager.cpp:28-38 | an event is published exactly when the message is present and non-empty, and then it is that message |
| OtaManager.ClampProgress | main/ota_manager.cpp:40-53 | the published progress lies in 0..100, equals the value when that is already in range, and is 0 below and 100 above |
| OtaManager.ClampMonotone | main/ota_manager.cpp:40-47 | clamping never reverses the order of two values |
| OtaManager.StartFromUrl | main/ota_manager.cpp:201-247 | a request starts the task exactly when the URL is present with an http:// or https:// scheme, no update runs and allocation and task creation succeed; a missing or empty URL is INVALID_ARG silently and a wrong scheme is INVALID_ARG with "invalid_url"; a running update is INVALID_STATE with "already_in_progress"; NO_MEM leaves the flag clear; a started task gets the URL cut to 383 characters and the flag set |
| OtaManager.SecondRequestRefused | main/ota_manager.cpp:218-222 | once an update has started, every further request is refused and the update stays in progress |
| OtaManager.Download | main/ota_manager.cpp:134-164 | the read loop's reports lie in 0..100, each at least five above the one before (the first at least five above the last report), and none are made without a known content length |
| OtaManager.Opening | main/ota_manager.cpp:86-119 | a task always publishes "start" and progress 0 first, then only events |
| OtaManager.ProgressPart | main/ota_manager.cpp:134-172 | the middle of a run publishes only progress values |
| OtaManager.Closing | main/ota_manager.cpp:166-198 | the closing publishes only events; the device restarts exactly when the image was completed and the boot partition set, with "rebooting" as the only closing event; "aborted" is published exactly when an update was begun and not completed |
| OtaManager.OtaTask | main/ota_manager.cpp:71-199 | a run opens with "start" and 0 %, restarts exactly when the image was completed and made the boot partition (ending with "rebooting"), and publishes "aborted" exactly when a begun update was not completed; every run that does not restart ends with the in-progress flag clear |
| OtaManager.RetryAfterFailedTask | main/ota_manager.cpp:196 | after a started task ends without a restart, a new request with an http(s) URL is accepted again |
| OtaManager.ProgressValuesOfReports | main/ota_manager.cpp:40-53 | in-range reports are published unchanged and in order |
| OtaManager.StepsIncrease | main/ota_manager.cpp:159-162 | reports made by the five-point rule strictly increase |
| OtaManager.OpeningProgress | main/ota_manager.cpp:87-88 | the only progress value of the opening is 0 |
| OtaManager.ProgressPartValues | main/ota_manager.cpp:134-172 | the middle of a run publishes the read loop's reports and then 100 exactly when the image was completed |
| OtaManager.TaskProgress | main/ota_manager.cpp:71-199 | the progress values of a whole run are 0, the read loop's reports, and 100 exactly when the image was completed |
| OtaManager.ReportsInOrder | main/ota_manager.cpp:153-172 | 0, then reports at least five apart within 0..100, then possibly 100, never decrease |
| OtaManager.ProgressNeverDecreases | main/ota_manager.cpp:40-172 | the progress a subscriber sees during one update never goes backwards and stays within 0..100 |
| OtaManager.ConfirmRunning | main/ota_manager.cpp:249-281 | no running partition is INVALID_STATE; a failed state query returns its error with "confirm_state_error"; the image is marked valid exactly when it is pending verification, returning the marking's result with "confirmed" or "confirm_error"; any other state is OK with "confirm_not_needed" |
| Prutokomer.NewPulses | main/prutokomer.cpp:58-60 | the pulse count difference is taken modulo 2^32, so adding it to the previous reading gives the current one |
| Prutokomer.NewPulsesAcrossWrap | main/prutokomer.cpp:58-60 | when fewer than 2^32 pulses arrived between two samples, the difference is exactly how many arrived, even if the counter wrapped |
| Prutokomer.Init | main/prutokomer.cpp:139-148 | at start-up the total is the stored step count times 270 pulses, so the stored steps are exactly total / 270 |
| Prutokomer.Sample | main/prutokomer.cpp:58-76 | the total grows by exactly the new pulses; the flash counter advances one step at a time and never past total / 270, and it reaches total / 270 unless an increment failed |
| SensorEvents.EventTypeName | main/sensor_events.cpp:15-29 | every kind has a non-empty name, and the name is "unknown" exactly for values outside the enumeration |
| SensorEvents.EventTypeNameInjective | main/sensor_events.cpp:15-29 | no two known event kinds share a name |
| SensorEvents.ProbeName | main/sensor_events.cpp:31-41 | "water" exactly for the water probe, "air" exactly for the air probe, "unknown" for anything else |
| SensorEvents.Init | main/sensor_events.cpp:43-54 | an existing queue is kept; otherwise a queue is created, and initialisation aborts exactly when there is none and creation fails |
| SensorEvents.InitIdempotent | main/sensor_events.cpp:45-47 | initialising a second time changes nothing and cannot abort |
| SensorEvents.Publish | main/sensor_events.cpp:56-92 | the result is true exactly when there is a queue, an event and the send succeeds; a success or a missing queue or event leaves the limiter alone; a failed send warns exactly when no warning was logged yet or the last is at least 5 s old, and a warning reports the suppressed count and resets it, while a suppressed failure adds one to the 32-bit count |
| SensorEvents.RunWarningsSpaced | main/sensor_events.cpp:63-74 | over any sends with a monotone clock, logged warnings are at least 5 s apart, and the limiter remembers the last one |
| SensorEvents.RunAccountsFailures | main/sensor_events.cpp:67-74 | every failed send is either reported by a warning or still counted as suppressed, as long as the 32-bit counter does not wrap |
| StateManager.Temperature | main/state_manager.cpp:68-109 | a reading updates only its own probe's fault flag; the indicator is the OR of both flags; a fault queues an empty value and a good reading the number, on the probe's own topic; only the water probe touches the LCD, with dashes for a fault |
| StateManager.TemperaturesSnoc | main/state_manager.cpp:73-80 | handling one more reading applies that reading's update to the flags the earlier ones left |
| StateManager.FaultsFollowLatest | main/state_manager.cpp:73-80 | after any sequence of readings, each fault flag is the fault of its own probe's latest reading, or its start value when the probe never reported |
| StateManager.NetworkChange | main/state_manager.cpp:214-255 | AP_CONFIG switches the publisher off, shows AP mode and ends the task; any other level sets the connected flag to (level == MQTT_READY); at MQTT_READY the diagnostics go out exactly when not yet sent this period and "online" is queued exactly when not yet published, and is marked published only when the queue takes it; below MQTT_READY both flags are cleared |
| StateManager.DiagnosticsOncePerPeriod | main/state_manager.cpp:234-239 | within one MQTT_READY period the boot diagnostics are queued at most once, and not at all if already sent |
| StateManager.OnlineRetried | main/state_manager.cpp:241-251 | the k-th MQTT_READY event of a period queues "online" exactly when no earlier event of the period got it queued |
| StateManager.ApConfigEndsTask | main/state_manager.cpp:214-223 | after AP_CONFIG the task has ended and handles no further event |
| StateManager.BootMode | main/state_manager.cpp:43-52 | the boot mode is "ota" exactly when the running partition is known, its state can be read and it is pending verification, and "normal" otherwise |
| StateManager.Diagnostics | main/state_manager.cpp:41-66 | the boot mode always goes to the boot-mode topic first, and the firmware version follows exactly when the application description is available |
| StartupAnimation.GetTiming | components/tm1637_startup_animation/tm1637_startup_animation.cpp:33-59 | FAST gets exactly the fast timing; CALM and every unknown preset get the calm one |
| StartupAnimation.RingFrame | components/tm1637_startup_animation/tm1637_startup_animation.cpp:108-116 | ring step k lights only digit k mod 4, with segment k mod 7 of the A..G order, and every other digit is dark |
| StartupAnimation.Sequence | components/tm1637_startup_animation/tm1637_startup_animation.cpp:90-154 | a complete run shows 3 + ring_steps + 8 * pulse_passes frames |
| StartupAnimation.FillSteps | components/tm1637_startup_animation/tm1637_startup_animation.cpp:129-135 | the fill half of a pass lights the bars on digits 0, 0..1, 0..2 and 0..3 in turn, whatever the buffer held |
| StartupAnimation.ClearSteps | components/tm1637_startup_animation/tm1637_startup_animation.cpp:136-142 | the clearing half of a pass switches the bars off one digit at a time in the pass's order |
| StartupAnimation.PassShape | components/tm1637_startup_animation/tm1637_startup_animation.cpp:127-143 | a pulse pass shows the four fill frames and then the four clearing frames, the last one all dark |
| StartupAnimation.PassEndsDark | components/tm1637_startup_animation/tm1637_startup_animation.cpp:136-143 | a pass that starts dark leaves the buffer dark for the next pass |
| StartupAnimation.PassesFromDark | components/tm1637_startup_animation/tm1637_startup_animation.cpp:128-143 | the passes of a run are the same eight-frame pass written pulse_passes times |
| StartupAnimation.PassesAtIndex | components/tm1637_startup_animation/tm1637_startup_animation.cpp:128-143 | frame i of the passes is frame i mod 8 of a single pass |
| StartupAnimation.PassesRepeat | components/tm1637_startup_animation/tm1637_startup_animation.cpp:128-143 | every frame of the passes is the corresponding frame of one pass from dark |
| StartupAnimation.PulseShownAt | components/tm1637_startup_animation/tm1637_startup_animation.cpp:131-138 | each pass frame is shown with the pulse delay |
| StartupAnimation.SequenceRingAt | components/tm1637_startup_animation/tm1637_startup_animation.cpp:109-122 | position i of a run, for 1 <= i <= ring_steps, is ring frame i - 1 with the ring delay |
| StartupAnimation.SequenceRing | components/tm1637_startup_animation/tm1637_startup_animation.cpp:109-122 | the ring frames follow the first dark frame, in step order |
| StartupAnimation.SequencePassAt | components/tm1637_startup_animation/tm1637_startup_animation.cpp:127-143 | a position after the ring shows the matching frame of a pass, with the pulse delay |
| StartupAnimation.SequencePasses | components/tm1637_startup_animation/tm1637_startup_animation.cpp:127-143 | the pass frames follow the ring, eight to a pass |
| StartupAnimation.SequenceShape | components/tm1637_startup_animation/tm1637_startup_animation.cpp:88-157 | a run starts and ends with a dark frame, shows the flash just before the last frame, the ring steps in order and then the passes, each pass ending dark |
| StartupAnimation.Play | components/tm1637_startup_animation/tm1637_startup_animation.cpp:61-70 | the frames sent are exactly the first `writes` frames of the sequence, in order; the result is OK exactly when every write succeeds, and otherwise it is the error of the last write made, all earlier writes having succeeded |
| StartupAnimation.PlayPreset | components/tm1637_startup_animation/tm1637_startup_animation.cpp:72-160 | no display is INVALID_ARG with nothing written; otherwise the frames sent are a prefix of the preset's sequence, a successful run sends all 3 + ring_steps + 8 * pulse_passes of them, and the first failing write ends it with its error |
| StartupAnimation.PresetFrameCounts | components/tm1637_startup_animation/tm1637_startup_animation.cpp:33-59 | a FAST run has 21 frames and a CALM or unknown-preset run 33 |
| StatusDisplayAnimation.PlayStatus | main/status_display_startup_animation.cpp:23-120 | no display is INVALID_ARG with nothing written; otherwise the frames sent are a prefix of the status sequence, all 33 on success, and the result is OK exactly when every write succeeds, and the first failing write ends the sequence with its error |
| StatusDisplayAnimation.StatusMirrorsCalm | main/status_display_startup_animation.cpp:50-107 | the status display uses the CALM timing and shows the same first 15 frames as the component's CALM sequence, but clears the pulse bars from the right: its 20th frame lights the three left digits where the component lights the three right ones |
| WifiInit.Handle | main/wifi_init.cpp:25-46 | STA_START connects; a disconnect reconnects and counts a retry while fewer than five were made and sets FAIL otherwise; GOT_IP zeroes the count and sets CONNECTED; the retry count never exceeds five and set bits stay set |
| WifiInit.DisconnectsUseBudget | main/wifi_init.cpp:14-38 | a run of n disconnects starts min(n, remaining budget) reconnects, and FAIL is set exactly when the run outlasts the budget |
| WifiInit.GotIpRestoresBudget | main/wifi_init.cpp:40-44 | after an address is obtained, the next disconnects again get the full budget of five reconnects |
| WifiInit.Wait | main/wifi_init.cpp:105-125 | the wait reports true exactly when CONNECTED is set; it is a timeout exactly when neither bit is set |
| WifiInit.SixDisconnectsFail | main/wifi_init.cpp:28-38 | start-up followed by six disconnects makes six connect attempts, sets FAIL and the wait reports false |

## Left out

- FreeRTOS and ESP-IDF plumbing is not modelled: tasks, queues, software timers, event groups, critical sections, mutexes and handler registration. Flags guarded by them are plain state.
- `handle_command` in main/mqtt_commands.cpp is not modelled. Once a command reaches it, it only calls into other components (restart, web app, debug timer, OTA, probe scan); the model stops at the command id and payload that `HandleData` delivers. The same goes for the debug auto-off timer, `subscribe_command_topics` and the registration task.
- Network and process I/O is left out: the captive DNS socket loop, HTTP handlers and page builders, OTA HTTP streaming and flash writes, MQTT client calls, `mosquitto_pub`, the `PATH` search, and `ensure_password`. Their outcomes are parameters.
- Flash storage is an abstract map. main/restart_info.cpp is not part of this model.
- Floating point is left out:
  - calibration, EMA and hysteresis;
  - the flow-rate estimate;
  - the raw/16 temperature conversion;
  - FLOAT configuration items (`strtof`, float clamping, `%.3f`);
  - `%.6f` payloads.
- ConfigWebapp.SaveItem: a FLOAT item is left unchanged and counts as saved. In the source, a FLOAT field that `strtof` does not consume whole is INVALID_ARG (components/config_webapp/config_webapp.cpp:430-435), and a parsed one is clamped and stored.
- ConfigWebapp.SaveItemOutcome: because of the FLOAT gap above, "fails only on a bad INT32 field" holds for the source only when the item is not a FLOAT item.
- ConfigWebapp.SaveItemsOutcome: the same FLOAT gap; the source can also return INVALID_ARG for an unparsable FLOAT field.
- MqttPublisher.Payload: a DOUBLE value's text is a parameter `formatDouble` instead of `%.6f`.
- Code that is not shown is left out:
  - `onewire_crc8` is a function parameter `crc8`;
  - `TrimmedMean<31,5>` and `FlashMonotonicCounter` are not part of this model; the flash counter's increment outcomes are parameters;
  - `esp_log_level_set` is the `LogLevelSetting` value a command produces;
  - `tm1637_set_segments` is a write outcome per frame, and frames are sets of segments rather than bit patterns (tm1637.h is not part of this model).
- Ds18b20.NoAddr: `ONEWIRE_NONE` is not defined in the files modelled. It is taken as the 64-bit value with all bits set, as in the 1-Wire library.
- The key-based wrappers are not separate members:
  - `config_store_get_*`/`config_store_set_*` by key (components/config_store/config_store.cpp:329-367);
  - the web app's get/set helpers (components/config_webapp/config_webapp.cpp:729-783).
  Each is `FindItem` followed by the item operation of the same type.
- Page-only web app code is left out: `read_value_for_html`, `reset_reason_to_str` and `format_unix_time` (local time) only build the HTML page.
- ConfigStore.Write: a failed NVS set or commit is modelled as changing nothing. On a real device, a value set before a failed commit may already be in flash.
- In main/state_manager.cpp, the level, volume and flow handlers use header fields and topics that the shown headers no longer declare. Only the temperature handler, the network-change branch and the boot diagnostics are modelled.
- LogLevelCli.PyUpperChar: `str.upper()` is modelled for the characters whose upper case is one ASCII letter: a-z, dotless i and long s. Other characters are left unchanged. Characters that upper-case to several letters can never form a key of the level table, so `NormalizeLevel` is exact.
- LogLevelCli.LowerSuffix: `str.lower()` on a file suffix is ASCII lower-casing. Non-ASCII letters never lower-case into one of the source suffixes.
- LogLevelCli.PickTag: `str.isdigit` is taken as ASCII digits only. An answer made of other Unicode digits is treated as a tag name.
- LogLevelPath.CliPayloadAccepted: holds only for a tag without `=` or NUL whose payload is shorter than 128 bytes. The tool sends any non-blank tag (tools/mqtt_log_level_cli.py:188-190), while the device splits at the first `=` and keeps only 127 bytes (main/mqtt_commands.cpp:226-239). `TagWithEqualsRefused` and `LongTagRefused` state two of the refusals.
- LogLevelPath.ToolMessageApplied: the same restriction on the tag and the payload length as `CliPayloadAccepted`.
- LogLevelPath.ToolCommandReachesDevice: "whichever tag" means any chosen tag without `=` or NUL and with a payload shorter than 128 bytes. A `--tag` holding `=` or one that is too long is sent but not applied as named.
- The tag patterns are not general regular expressions. The three patterns of `TAG_PATTERNS` are written out as token lists with the quoted group, and the model does not cover reading files as UTF-8 with errors ignored.
- Prutokomer: the 64-bit running pulse total is unbounded. It would take more than 2^64 pulses to wrap.
- The stale headers (mqtt_topics.h, network_event.h) disagree with the .cpp files. The .cpp bodies are modelled.
- The comments above the buffer and `insert_value` in main/hladina-demo.c (lines 41 and 61) say the largest value comes first. The comparisons sort ascending, and `Hladina` follows the code.

## Findings

| source | as written | input that shows it | evidently intended | confidence | as-written member | corrected member |
|---|---|---|---|---|---|---|
| components/network_core/network_init.cpp:553-554 | the SSID is copied with `strncpy` into its 32-byte field but at most 31 bytes are kept, while `ssid_len` is `strlen(ap_ssid)` stored in a `uint8_t` | a 32-character SSID: 31 characters are stored but `ssid_len` is 32, so the advertised name ends in a NUL byte; a 300-character SSID gives `ssid_len` 44 | `ssid_len` equal to the number of characters stored | not executed | NetworkInit.ApConfigAsWritten, NetworkInit.SsidLengthMismatch | NetworkInit.ApConfigFor |
| components/network_core/network_ap_mode.cpp:220-221 | `network_ap_mode_start` repeats the same copy: at most 31 bytes of the SSID are kept, while `ssid_len` is `strlen(ap_ssid)` in a `uint8_t` | a 32-character SSID passed to `network_ap_mode_start`: 31 characters are stored and `ssid_len` is 32 | `ssid_len` equal to the number of characters stored | not executed | NetworkInit.ApModeStart, NetworkInit.ApModeStartMismatch | NetworkInit.ApConfigFor |
