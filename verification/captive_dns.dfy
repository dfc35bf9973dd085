/**
 * The captive-portal DNS responder of access-point mode
 * (components/network_core/network_ap_mode.cpp; components/network_core/
 * network_init.cpp holds an identical copy of `decode_dns_qname` and of the
 * responder loop). Every well-formed query is answered with one A record
 * for 192.168.4.1. Message layout as in section 4.1 of RFC 1035: a 12-byte
 * header, then the question (a name as length-prefixed labels, QTYPE,
 * QCLASS).
 */
module CaptiveDns {
  import opened Wrappers
  import opened Chars

  const HeaderLen: nat := 12
  /** Size of the request and response buffers. */
  const MaxMessage: nat := 512
  /** `char qname[128]`. */
  const QnameBufLen: nat := 128
  const CaptiveIp: seq<Byte> := [192, 168, 4, 1]

  /**
   * The answer record appended to every reply: a pointer to the name at
   * offset 12, type A, class IN, TTL 60 seconds, four bytes of address.
   */
  const Answer: seq<Byte> := [0xC0, 0x0C, 0x00, 0x01, 0x00, 0x01, 0x00, 0x00, 0x00, 0x3C, 0x00, 0x04] + CaptiveIp

  // ------------------------------------------------------------ the name

  /** Two dotted names written one after the other, with a dot between when both are non-empty. */
  function JoinNames(a: string, b: string): string {
    if a == [] then b else if b == [] then a else a + "." + b
  }

  /** Labels written with dots between them. */
  function DottedName(labels: seq<string>): string {
    if labels == [] then [] else JoinNames(labels[0], DottedName(labels[1..]))
  }

  /**
   * The name at `p` read as RFC 1035 labels: each a length byte and that
   * many bytes, up to a zero length byte or the end of the buffer; None
   * when a label runs past the end. Also gives the position after the name.
   */
  function Labels(buf: seq<Byte>, p: nat): (r: Option<(seq<string>, nat)>)
    requires p <= |buf|
    ensures r.Some? ==> p <= r.value.1 <= |buf| && (p < |buf| ==> p < r.value.1)
    ensures r.Some? ==> forall i :: 0 <= i < |r.value.0| ==> r.value.0[i] != []
    decreases |buf| - p
  {
    if p == |buf| then Some(([], p))
    else if buf[p] == 0 then Some(([], p + 1))
    else if p + 1 + buf[p] > |buf| then None
    else
      var first := BytesToChars(buf[p + 1..p + 1 + buf[p]]);
      match Labels(buf, p + 1 + buf[p])
      case None => None
      case Some((rest, end)) =>
        var ls := [first] + rest;
        assert forall i :: 1 <= i < |ls| ==> ls[i] == rest[i - 1];
        Some((ls, end))
  }

  /**
   * One label copied into `out`, which has room for `cap` characters: a
   * dot first when something is written and room remains, then as many of
   * the label's characters as still fit.
   */
  function WriteLabel(out: string, text: string, cap: nat): (r: string)
    requires |out| <= cap
    ensures |r| <= cap && |out| <= |r| && r[..|out|] == out
  {
    var out1 := if |out| != 0 && |out| < cap then out + "." else out;
    var n := if |text| <= cap - |out1| then |text| else cap - |out1|;
    out1 + text[..n]
  }

  /**
   * The loop of `decode_dns_qname` from read position `p`, with `out`
   * written so far and room for `cap` characters before the NUL.
   */
  function DecodeFrom(buf: seq<Byte>, p: nat, out: string, cap: nat): (r: (nat, string))
    requires p <= |buf| && |out| <= cap
    ensures r.0 <= |buf| && (p < |buf| && r.0 != 0 ==> p < r.0)
    decreases |buf| - p
  {
    if p == |buf| then (p, out)
    else if buf[p] == 0 then (p + 1, out)
    else if p + 1 + buf[p] > |buf| then (0, [])
    else DecodeFrom(buf, p + 1 + buf[p], WriteLabel(out, BytesToChars(buf[p + 1..p + 1 + buf[p]]), cap), cap)
  }

  /**
   * `decode_dns_qname(buffer, |buffer|, start, out, outLen)`: the position
   * after the name and the text left in `out`, or 0 for a NULL buffer or
   * output, no room, a start past the end or a label running past the end.
   * The contents of `out` after a failure are not modelled.
   */
  function DecodeQname(buffer: Option<seq<Byte>>, start: nat, outLen: Option<nat>): (r: (nat, string))
    ensures buffer.None? || outLen.None? || outLen.value == 0 || start >= |buffer.value| ==> r.0 == 0
    ensures r.0 != 0 ==> start < r.0 <= |buffer.value|
  {
    if buffer.None? || outLen.None? || outLen.value == 0 || start >= |buffer.value| then (0, [])
    else DecodeFrom(buffer.value, start, [], outLen.value - 1)
  }

  /** Joining is associative around a non-empty middle. */
  lemma JoinNamesAssoc(a: string, l: string, d: string)
    requires l != []
    ensures JoinNames(JoinNames(a, l), d) == JoinNames(a, JoinNames(l, d))
  {
    if a != [] && d != [] {
      assert (a + "." + l) + "." + d == a + "." + (l + "." + d);
    }
  }

  /**
   * Writing a label after the truncated name gives the truncated longer
   * name: truncating as the loop goes is truncating once at the end.
   */
  lemma AppendLabel(acc: string, l: string, cap: nat)
    requires l != []
    ensures WriteLabel(Truncate(acc, cap), l, cap) == Truncate(JoinNames(acc, l), cap)
  {
    var out := Truncate(acc, cap);
    var out1 := if |out| != 0 && |out| < cap then out + "." else out;
    var n := if |l| <= cap - |out1| then |l| else cap - |out1|;
    var full := JoinNames(acc, l);
    if acc == [] {
      assert out1 == [];
    } else if cap == 0 {
      assert out1 == [] && n == 0;
    } else if |out| < cap {
      assert out == acc && full == acc + "." + l;
      assert full[..|acc| + 1] == acc + ".";
      if |full| > cap {
        assert full[..cap] == acc + "." + l[..n];
      }
    } else {
      assert out == acc[..cap] && n == 0;
      assert full[..cap] == acc[..cap];
    }
  }

  /** One step of the loop: a label that fits is appended and the loop goes on after it. */
  lemma DecodeFromStep(buf: seq<Byte>, p: nat, acc: string, cap: nat)
    requires p < |buf| && buf[p] != 0 && p + 1 + buf[p] <= |buf|
    ensures var l := BytesToChars(buf[p + 1..p + 1 + buf[p]]);
      DecodeFrom(buf, p, Truncate(acc, cap), cap)
        == DecodeFrom(buf, p + 1 + buf[p], Truncate(JoinNames(acc, l), cap), cap)
  {
    var l := BytesToChars(buf[p + 1..p + 1 + buf[p]]);
    assert WriteLabel(Truncate(acc, cap), l, cap) == Truncate(JoinNames(acc, l), cap) by {
      AppendLabel(acc, l, cap);
    }
  }

  /** The labels after a non-empty one. */
  lemma LabelsStep(buf: seq<Byte>, p: nat)
    requires p < |buf| && buf[p] != 0 && p + 1 + buf[p] <= |buf|
    ensures var l := BytesToChars(buf[p + 1..p + 1 + buf[p]]);
      var rest := Labels(buf, p + 1 + buf[p]);
      (rest.None? <==> Labels(buf, p).None?)
      && (rest.Some? ==>
            Labels(buf, p).value == ([l] + rest.value.0, rest.value.1)
            && DottedName([l] + rest.value.0) == JoinNames(l, DottedName(rest.value.0)))
  {
    var l := BytesToChars(buf[p + 1..p + 1 + buf[p]]);
    var rest := Labels(buf, p + 1 + buf[p]);
    if rest.Some? {
      assert ([l] + rest.value.0)[1..] == rest.value.0;
    }
  }

  /**
   * The loop writes the dotted name of the labels it reads, cut to the
   * room in `out`, and fails exactly when a label runs past the end.
   */
  lemma {:induction false} DecodeFromReadsLabels(buf: seq<Byte>, p: nat, acc: string, cap: nat)
    requires p <= |buf|
    ensures Labels(buf, p).None? ==> DecodeFrom(buf, p, Truncate(acc, cap), cap).0 == 0
    ensures Labels(buf, p).Some? ==>
      DecodeFrom(buf, p, Truncate(acc, cap), cap)
        == (Labels(buf, p).value.1, Truncate(JoinNames(acc, DottedName(Labels(buf, p).value.0)), cap))
    decreases |buf| - p
  {
    if p < |buf| && buf[p] != 0 && p + 1 + buf[p] <= |buf| {
      var next := p + 1 + buf[p];
      var l := BytesToChars(buf[p + 1..next]);
      DecodeFromStep(buf, p, acc, cap);
      LabelsStep(buf, p);
      DecodeFromReadsLabels(buf, next, JoinNames(acc, l), cap);
      if Labels(buf, next).Some? {
        JoinNamesAssoc(acc, l, DottedName(Labels(buf, next).value.0));
      }
    }
  }

  /**
   * `decode_dns_qname` fails exactly when a label runs past the end;
   * otherwise it returns the position just past the root label (or the end
   * of the buffer), beyond `start`, and leaves the dotted name cut to
   * `outLen - 1` characters.
   */
  lemma DecodeQnameReadsLabels(buf: seq<Byte>, start: nat, outLen: nat)
    requires start < |buf| && outLen > 0
    ensures DecodeQname(Some(buf), start, Some(outLen)).0 == 0 <==> Labels(buf, start).None?
    ensures Labels(buf, start).Some? ==>
      DecodeQname(Some(buf), start, Some(outLen))
        == (Labels(buf, start).value.1, Truncate(DottedName(Labels(buf, start).value.0), outLen - 1))
    ensures Labels(buf, start).Some? ==> start < Labels(buf, start).value.1 <= |buf|
  {
    DecodeFromReadsLabels(buf, start, [], outLen - 1);
  }

  // ------------------------------------------------------------ the reply

  /** A big-endian 16-bit field. */
  function U16At(buf: seq<Byte>, i: nat): nat
    requires i + 2 <= |buf|
  {
    buf[i] as int * 256 + buf[i + 1] as int
  }

  /**
   * The end of the question of a request (the name, QTYPE and QCLASS), or
   * None when the responder drops the request: shorter than a header, no
   * question, a name that does not decode, or fewer than four bytes after
   * the name.
   */
  function QuestionEnd(request: seq<Byte>): (r: Option<nat>)
    ensures r.Some? ==> HeaderLen < r.value <= |request|
  {
    if |request| < HeaderLen || U16At(request, 4) == 0 then None
    else
      var qnameEnd := DecodeQname(Some(request), HeaderLen, Some(QnameBufLen)).0;
      if qnameEnd == 0 || qnameEnd + 3 >= |request| then None
      else Some(qnameEnd + 4)
  }

  /**
   * The reply to one received datagram: the request up to the end of its
   * question with flags 0x81 0x80 (a response, recursion desired and
   * available, no error), one answer and no authority or additional
   * records, followed by the answer record; nothing when the request is
   * dropped or the reply would not fit 512 bytes.
   */
  function Reply(request: seq<Byte>): (r: Option<seq<Byte>>)
    requires |request| <= MaxMessage
    ensures r.Some? <==> QuestionEnd(request).Some? && QuestionEnd(request).value + |Answer| <= MaxMessage
    ensures r.Some? ==> |r.value| == QuestionEnd(request).value + |Answer| <= MaxMessage
    ensures r.Some? ==> r.value[..2] == request[..2] && r.value[2..4] == [0x81, 0x80]
    ensures r.Some? ==> U16At(r.value, 4) == U16At(request, 4)
    ensures r.Some? ==> U16At(r.value, 6) == 1 && U16At(r.value, 8) == 0 && U16At(r.value, 10) == 0
    ensures r.Some? ==> r.value[HeaderLen..QuestionEnd(request).value] == request[HeaderLen..QuestionEnd(request).value]
    ensures r.Some? ==> r.value[QuestionEnd(request).value..] == Answer
    ensures r.Some? ==> r.value[|r.value| - 4..] == CaptiveIp
  {
    match QuestionEnd(request)
    case None => None
    case Some(end) =>
      if end + |Answer| > MaxMessage then None
      else
        var header := request[..2] + [0x81, 0x80] + request[4..6] + [0x00, 0x01, 0x00, 0x00, 0x00, 0x00];
        var reply := header + request[HeaderLen..end] + Answer;
        assert reply[..2] == request[..2];
        assert reply[HeaderLen..end] == request[HeaderLen..end];
        assert reply[end..] == Answer;
        Some(reply)
  }

  // ------------------------------------------------- queries as clients send them

  /** A label of 1 to 63 bytes, as section 2.3.4 of RFC 1035 allows. */
  predicate IsLabel(l: seq<Byte>) {
    0 < |l| <= 63
  }

  /** A name written as length-prefixed labels and the root label. */
  function EncodeName(labels: seq<seq<Byte>>): (r: seq<Byte>)
    requires forall i :: 0 <= i < |labels| ==> IsLabel(labels[i])
    ensures r != []
  {
    if labels == [] then [0] else assert IsLabel(labels[0]); [|labels[0]| as Byte] + labels[0] + EncodeName(labels[1..])
  }

  /** The labels read back as text. */
  function LabelTexts(labels: seq<seq<Byte>>): (r: seq<string>)
    ensures |r| == |labels| && forall i :: 0 <= i < |labels| ==> r[i] == BytesToChars(labels[i])
  {
    if labels == [] then [] else [BytesToChars(labels[0])] + LabelTexts(labels[1..])
  }

  /** A stretch of a buffer that holds three sequences one after the other holds each in its place. */
  lemma ThreeParts(buf: seq<Byte>, p: nat, x: seq<Byte>, y: seq<Byte>, z: seq<Byte>)
    requires p + |x| + |y| + |z| <= |buf| && buf[p..p + |x| + |y| + |z|] == x + y + z
    ensures buf[p..p + |x|] == x && buf[p + |x|..p + |x| + |y|] == y
    ensures buf[p + |x| + |y|..p + |x| + |y| + |z|] == z
  {
    var w := buf[p..p + |x| + |y| + |z|];
    forall i | 0 <= i < |x| ensures buf[p..p + |x|][i] == x[i] {
      assert w[i] == (x + y + z)[i];
    }
    forall i | 0 <= i < |y| ensures buf[p + |x|..p + |x| + |y|][i] == y[i] {
      assert w[|x| + i] == (x + y + z)[|x| + i];
    }
    forall i | 0 <= i < |z| ensures buf[p + |x| + |y|..p + |x| + |y| + |z|][i] == z[i] {
      assert w[|x| + |y| + i] == (x + y + z)[|x| + |y| + i];
    }
  }

  /** A length byte, a label and what follows it, found in a buffer. */
  lemma LabelAt(buf: seq<Byte>, p: nat, l: seq<Byte>, rest: seq<Byte>)
    requires IsLabel(l) && p + 1 + |l| + |rest| <= |buf|
    requires buf[p..p + 1 + |l| + |rest|] == [|l| as Byte] + l + rest
    ensures buf[p] as int == |l| && buf[p + 1..p + 1 + |l|] == l && buf[p + 1 + |l|..p + 1 + |l| + |rest|] == rest
  {
    ThreeParts(buf, p, [|l| as Byte], l, rest);
    assert buf[p] == buf[p..p + 1][0];
  }

  /** A non-empty label in front of names that read back. */
  lemma LabelsCons(buf: seq<Byte>, p: nat, l: seq<Byte>, rest: seq<string>, end: nat)
    requires p + 1 + |l| <= |buf| && buf[p] as int == |l| && |l| != 0 && buf[p + 1..p + 1 + |l|] == l
    requires Labels(buf, p + 1 + |l|) == Some((rest, end))
    ensures Labels(buf, p) == Some(([BytesToChars(l)] + rest, end))
  {
  }

  /** Reading an encoded name gives back its labels and stops just past the root label. */
  lemma {:induction false} LabelsOfEncodedName(buf: seq<Byte>, p: nat, labels: seq<seq<Byte>>)
    requires forall i :: 0 <= i < |labels| ==> IsLabel(labels[i])
    requires p + |EncodeName(labels)| <= |buf| && buf[p..p + |EncodeName(labels)|] == EncodeName(labels)
    ensures Labels(buf, p) == Some((LabelTexts(labels), p + |EncodeName(labels)|))
    decreases |labels|
  {
    if labels == [] {
      assert buf[p] == EncodeName(labels)[0];
    } else {
      var l, tail := labels[0], EncodeName(labels[1..]);
      var next := p + 1 + |l|;
      assert buf[p] as int == |l| && buf[p + 1..next] == l && buf[next..next + |tail|] == tail
        && next + |tail| == p + |EncodeName(labels)| by {
        assert IsLabel(l);
        assert EncodeName(labels) == [|l| as Byte] + l + tail;
        LabelAt(buf, p, l, tail);
      }
      assert Labels(buf, next) == Some((LabelTexts(labels[1..]), next + |tail|)) by {
        LabelsOfEncodedName(buf, next, labels[1..]);
      }
      assert Labels(buf, p) == Some(([BytesToChars(l)] + LabelTexts(labels[1..]), next + |tail|)) by {
        LabelsCons(buf, p, l, LabelTexts(labels[1..]), next + |tail|);
      }
    }
  }

  /**
   * A query as clients send it: header, one question with the name's
   * labels, QTYPE and QCLASS.
   */
  function Query(id: seq<Byte>, labels: seq<seq<Byte>>, qtype: seq<Byte>, qclass: seq<Byte>): (r: seq<Byte>)
    requires |id| == 2 && |qtype| == 2 && |qclass| == 2
    requires forall i :: 0 <= i < |labels| ==> IsLabel(labels[i])
    ensures |r| == HeaderLen + |EncodeName(labels)| + 4
    ensures r[..2] == id && r[4] == 0 && r[5] == 1
    ensures r[HeaderLen..HeaderLen + |EncodeName(labels)|] == EncodeName(labels)
  {
    var name := EncodeName(labels);
    var r := id + [0x01, 0x00, 0x00, 0x01, 0x00, 0x00, 0x00, 0x00, 0x00, 0x00] + name + qtype + qclass;
    assert r[HeaderLen..HeaderLen + |name|] == name;
    r
  }

  /** A request with one question whose name fills it up to QTYPE and QCLASS: the question ends with the request. */
  lemma QuestionFillsRequest(q: seq<Byte>, labels: seq<seq<Byte>>)
    requires forall i :: 0 <= i < |labels| ==> IsLabel(labels[i])
    requires |q| == HeaderLen + |EncodeName(labels)| + 4 && U16At(q, 4) == 1
    requires q[HeaderLen..HeaderLen + |EncodeName(labels)|] == EncodeName(labels)
    ensures QuestionEnd(q) == Some(|q|)
  {
    LabelsOfEncodedName(q, HeaderLen, labels);
    DecodeQnameReadsLabels(q, HeaderLen, QnameBufLen);
  }

  /** The question of such a query ends where the query does. */
  lemma QueryQuestionEnd(id: seq<Byte>, labels: seq<seq<Byte>>, qtype: seq<Byte>, qclass: seq<Byte>)
    requires |id| == 2 && |qtype| == 2 && |qclass| == 2
    requires forall i :: 0 <= i < |labels| ==> IsLabel(labels[i])
    ensures QuestionEnd(Query(id, labels, qtype, qclass)) == Some(|Query(id, labels, qtype, qclass)|)
  {
    var q := Query(id, labels, qtype, qclass);
    QuestionFillsRequest(q, labels);
  }

  /**
   * Every query for a name that leaves room for the answer is answered:
   * same id, question echoed, one A record for 192.168.4.1.
   */
  lemma QueryIsAnswered(id: seq<Byte>, labels: seq<seq<Byte>>, qtype: seq<Byte>, qclass: seq<Byte>)
    requires |id| == 2 && |qtype| == 2 && |qclass| == 2
    requires forall i :: 0 <= i < |labels| ==> IsLabel(labels[i])
    requires HeaderLen + |EncodeName(labels)| + 4 + |Answer| <= MaxMessage
    ensures var q := Query(id, labels, qtype, qclass);
      QuestionEnd(q) == Some(|q|)
      && Reply(q).Some? && Reply(q).value[..2] == id
      && Reply(q).value[HeaderLen..|q|] == q[HeaderLen..]
      && Reply(q).value[|q|..] == Answer
  {
    var q := Query(id, labels, qtype, qclass);
    assert QuestionEnd(q) == Some(|q|) by {
      QueryQuestionEnd(id, labels, qtype, qclass);
    }
    assert q[..2] == id;
  }
}
