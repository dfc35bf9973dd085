/**
 * The MQTT publisher task (main/mqtt_publisher_task.cpp): queued publish
 * events are checked against the topic table and published only when they
 * differ from the last value published successfully on the same topic.
 *
 * The queue, the FreeRTOS task and the MQTT client are replaced by their
 * outcomes, which are parameters: whether the queue or task could be created,
 * whether a send succeeded, and what `mqtt_publish` returned.
 */
module MqttPublisher {
  import opened Wrappers
  import opened Chars
  import opened Decimal
  import opened MqttTopics

  /** `MQTT_PUBLISH_TEXT_MAX_LEN`: text values keep at most 127 bytes. */
  const TextMaxLen: nat := 128

  newtype int64 = x: int | -0x8000_0000_0000_0000 <= x < 0x8000_0000_0000_0000

  /** `mqtt_publish_value_type_t` together with the union member it selects. */
  datatype Value =
    | BoolValue(b: bool)
    | Int64Value(i: int64)
    | DoubleValue(bits: bv64)
    | TextValue(text: string)

  /** `mqtt_publish_event_t`. */
  datatype Event = Event(topicId: nat, value: Value)

  /** The numeric code of the value type (`BOOL = 0` .. `TEXT = 3`). */
  function TypeCode(v: Value): nat {
    match v
    case BoolValue(_) => 0
    case Int64Value(_) => 1
    case DoubleValue(_) => 2
    case TextValue(_) => 3
  }

  /** The numeric code of the payload kind (`NUMBER = 0` .. `JSON = 3`). */
  function KindCode(k: PayloadKind): nat {
    match k
    case Number => 0
    case Boolean => 1
    case Text => 2
    case Json => 3
  }

  /**
   * `value_type_matches_topic` on raw enum codes: the `COMPAT` matrix, and
   * false for a code outside either enum.
   */
  function Compatible(kindCode: nat, typeCode: nat): (ok: bool)
    ensures ok ==> kindCode <= 3 && typeCode <= 3
    ensures kindCode == 0 ==> (ok <==> typeCode == 1 || typeCode == 2)
    ensures kindCode == 1 ==> (ok <==> typeCode == 0)
    ensures kindCode == 2 || kindCode == 3 ==> (ok <==> typeCode == 3)
  {
    var compat := [
      [false, true,  true,  false],
      [true,  false, false, false],
      [false, false, false, true ],
      [false, false, false, true ]];
    if kindCode > 3 || typeCode > 3 then false else compat[kindCode][typeCode]
  }

  /** The compatibility rule stated on the typed kind and value. */
  lemma CompatibleMeaning(k: PayloadKind, v: Value)
    ensures Compatible(KindCode(k), TypeCode(v)) <==>
      match k
      case Number => v.Int64Value? || v.DoubleValue?
      case Boolean => v.BoolValue?
      case Text => v.TextValue?
      case Json => v.TextValue?
  {
  }

  /**
   * `build_payload_string`.  Doubles are printed with `%.6f`, which is not
   * part of this model: `formatDouble` stands for it.
   */
  function Payload(v: Value, formatDouble: bv64 -> string): (p: string)
    ensures v.BoolValue? ==> p == (if v.b then "1" else "0")
    ensures v.TextValue? ==> p == CString(v.text)
  {
    match v
    case BoolValue(b) => if b then "1" else "0"
    case Int64Value(i) => IntToString(i as int)
    case DoubleValue(bits) => formatDouble(bits)
    case TextValue(t) => CString(t)
  }

  /** An INT64 payload reads back as the value it was printed from. */
  lemma Int64PayloadRoundTrip(i: int64, formatDouble: bv64 -> string)
    ensures var p := Payload(Int64Value(i), formatDouble);
      if i < 0 then p[0] == '-' && AllDigits(p[1..]) && DigitsValue(p[1..]) == -(i as int)
      else AllDigits(p) && DigitsValue(p) == i as int
  {
    if i < 0 {
      NatToStringRoundTrip(-(i as int));
      assert Payload(Int64Value(i), formatDouble)[1..] == NatToString(-(i as int));
    } else {
      NatToStringRoundTrip(i as int);
    }
  }

  /** One message handed to `mqtt_publish`. */
  datatype Message = Message(topic: string, payload: string, retain: bool)

  /**
   * The publisher's state: whether the queue and the task exist, and
   * `s_last_state`, where an id is present exactly when its `valid` flag is
   * set.
   */
  datatype Publisher = Publisher(queueExists: bool, taskRunning: bool, last: map<nat, Event>)

  /** Every remembered event was published on its own, publishable topic. */
  predicate LastStateWellFormed(p: Publisher) {
    forall id :: id in p.last ==>
      id < Count && p.last[id].topicId == id &&
      Row(id).direction == PublishOnly &&
      Compatible(KindCode(Row(id).kind), TypeCode(p.last[id].value))
  }

  /** `value_equals`: false without a valid last state, else the events compared whole. */
  predicate SameAsLast(p: Publisher, e: Event) {
    e.topicId in p.last && p.last[e.topicId] == e
  }

  datatype PublishOutcome = PublishOutcome(result: EspErr, sent: Option<Message>, after: Publisher)

  /**
   * `publish_if_changed`.  `publishResult` is what `mqtt_publish` returns
   * when it is called.
   */
  function PublishIfChanged(p: Publisher, e: Event, publishResult: EspErr, formatDouble: bv64 -> string): (o: PublishOutcome)
    ensures e.topicId >= Count || Row(e.topicId).direction != PublishOnly ||
            !Compatible(KindCode(Row(e.topicId).kind), TypeCode(e.value))
        ==> o == PublishOutcome(InvalidArg, None, p)
    ensures o.result != Ok ==> o.after == p
    ensures LastStateWellFormed(p) && SameAsLast(p, e) ==> o == PublishOutcome(Ok, None, p)
    ensures o.sent.Some? ==>
      e.topicId < Count && !SameAsLast(p, e) &&
      o.sent.value == Message(Row(e.topicId).FullTopic(), Payload(e.value, formatDouble), Row(e.topicId).retain)
    ensures o.sent.Some? && publishResult != Ok ==> o.result == publishResult && o.after == p
    ensures o.sent.Some? && publishResult == Ok ==>
      o.result == Ok && o.after == p.(last := p.last[e.topicId := e])
    ensures o.sent.None? ==> o.after == p
    ensures LastStateWellFormed(p) ==> LastStateWellFormed(o.after)
  {
    match Descriptor(e.topicId)
    case None => PublishOutcome(InvalidArg, None, p)
    case Some(topic) =>
      if topic.direction != PublishOnly then PublishOutcome(InvalidArg, None, p)
      else if !Compatible(KindCode(topic.kind), TypeCode(e.value)) then PublishOutcome(InvalidArg, None, p)
      else if SameAsLast(p, e) then PublishOutcome(Ok, None, p)
      else
        var msg := Message(topic.FullTopic(), Payload(e.value, formatDouble), topic.retain);
        if publishResult != Ok then PublishOutcome(publishResult, Some(msg), p)
        else PublishOutcome(Ok, Some(msg), p.(last := p.last[e.topicId := e]))
  }

  /** Once an event has been published, the same event again publishes nothing. */
  lemma PublishedEventIsSuppressed(p: Publisher, e: Event, r1: EspErr, r2: EspErr, formatDouble: bv64 -> string)
    requires PublishIfChanged(p, e, r1, formatDouble).sent.Some? && r1 == Ok
    ensures var q := PublishIfChanged(p, e, r1, formatDouble).after;
      PublishIfChanged(q, e, r2, formatDouble) == PublishOutcome(Ok, None, q)
  {
  }

  /** A publish that failed leaves the event unremembered, so the same event is published again. */
  lemma FailedEventIsRetried(p: Publisher, e: Event, r1: EspErr, r2: EspErr, formatDouble: bv64 -> string)
    requires PublishIfChanged(p, e, r1, formatDouble).sent.Some? && r1 != Ok
    ensures var q := PublishIfChanged(p, e, r1, formatDouble).after;
      PublishIfChanged(q, e, r2, formatDouble).sent == PublishIfChanged(p, e, r1, formatDouble).sent
  {
  }

  /**
   * `mqtt_publisher_task_start`: zero sizes are rejected, a running task is
   * left alone, and a first start forgets every last state before creating
   * the queue and the task.
   */
  function TaskStart(p: Publisher, queueLength: nat, stackWords: nat, queueCreated: bool, taskCreated: bool): (r: (EspErr, Publisher))
    ensures queueLength == 0 || stackWords == 0 ==> r == (InvalidArg, p)
    ensures queueLength > 0 && stackWords > 0 && p.taskRunning ==> r == (Ok, p)
    ensures r.0 == Ok <==> queueLength > 0 && stackWords > 0 && (p.taskRunning || (queueCreated && taskCreated))
    ensures r.0 == Ok ==> r.1.taskRunning
    ensures r.0 == Ok && !p.taskRunning ==> r.1.queueExists
    ensures r.0 != InvalidArg && !p.taskRunning ==> r.1.last == map[]
    ensures r.0 == NoMem ==> !r.1.taskRunning && !r.1.queueExists
  {
    if queueLength == 0 || stackWords == 0 then (InvalidArg, p)
    else if p.taskRunning then (Ok, p)
    else
      var cleared := p.(last := map[]);
      if !queueCreated then (NoMem, cleared.(queueExists := false))
      else if !taskCreated then (NoMem, cleared.(queueExists := false, taskRunning := false))
      else (Ok, cleared.(queueExists := true, taskRunning := true))
  }

  /** Starting the task keeps the last-state table well formed. */
  lemma TaskStartKeepsLastState(p: Publisher, queueLength: nat, stackWords: nat, queueCreated: bool, taskCreated: bool)
    requires LastStateWellFormed(p)
    ensures LastStateWellFormed(TaskStart(p, queueLength, stackWords, queueCreated, taskCreated).1)
  {
  }

  /**
   * `mqtt_publisher_enqueue`: the event (if any) that lands on the queue and
   * the result.  `sent` is whether `xQueueSend` succeeds.
   */
  function Enqueue(p: Publisher, e: Option<Event>, sent: bool): (r: (EspErr, Option<Event>))
    ensures e.None? || !p.queueExists ==> r == (InvalidState, None)
    ensures e.Some? && p.queueExists && e.value.topicId >= Count ==> r == (InvalidArg, None)
    ensures r.1.Some? ==> r.0 == Ok && r.1 == e && sent
    ensures r.0 == Ok ==> r.1.Some?
    ensures e.Some? && p.queueExists && e.value.topicId < Count && !sent ==> r == (Timeout, None)
  {
    if e.None? || !p.queueExists then (InvalidState, None)
    else if e.value.topicId >= Count then (InvalidArg, None)
    else
      var copy := Event(e.value.topicId, e.value.value);
      if sent then (Ok, Some(copy)) else (Timeout, None)
  }

  /** `mqtt_publisher_enqueue_text`: NULL is rejected; the text is cut to 127 bytes. */
  function EnqueueText(p: Publisher, topicId: nat, text: Option<string>, sent: bool): (r: (EspErr, Option<Event>))
    ensures text.None? ==> r == (InvalidArg, None)
    ensures r.1.Some? ==> r.1.value.topicId == topicId && r.1.value.value.TextValue?
    ensures r.1.Some? ==> var t := r.1.value.value.text;
      |t| < TextMaxLen && |t| <= |text.value| && t == text.value[..|t|] && '\0' !in t
    ensures text.Some? && |text.value| < TextMaxLen && '\0' !in text.value && r.1.Some? ==>
      r.1.value.value == TextValue(text.value)
  {
    if text.None? then (InvalidArg, None)
    else Enqueue(p, Some(Event(topicId, TextValue(CString(Truncate(text.value, TextMaxLen - 1))))), sent)
  }

  /** Texts that differ only beyond byte 127 are the same event once queued. */
  lemma LongTextsCollide(p: Publisher, topicId: nat, a: string, b: string, sent: bool)
    requires |a| >= TextMaxLen - 1 && |b| >= TextMaxLen - 1 && a[..TextMaxLen - 1] == b[..TextMaxLen - 1]
    ensures EnqueueText(p, topicId, Some(a), sent) == EnqueueText(p, topicId, Some(b), sent)
  {
  }
}
