/**
 * The configuration web app (components/config_webapp/config_webapp.cpp):
 * HTML escaping of values shown on the page, decoding of the submitted
 * `application/x-www-form-urlencoded` body (percent-encoding as in section
 * 2.1 of RFC 3986, with `+` standing for a space), the rules that turn the
 * submitted fields into stored configuration, and the server start/stop
 * guards.
 *
 * Characters stand for bytes: a percent-escape decodes to a character below
 * 256.
 */
module ConfigWebapp {
  import opened Wrappers
  import opened Chars
  import opened Decimal
  import opened ConfigStore

  /** Every character is a byte value. */
  predicate IsByteString(s: string) {
    forall k :: 0 <= k < |s| ==> s[k] as int < 256
  }

  // ---------------------------------------------------------------- HTML

  /** The characters `html_escape` replaces by an entity. */
  predicate IsHtmlSpecial(c: char) {
    c == '&' || c == '<' || c == '>' || c == '"' || c == '\''
  }

  function EscapeChar(c: char): (r: string)
    ensures r != [] && forall k :: 0 <= k < |r| ==> r[k] != '<' && r[k] != '>' && r[k] != '"' && r[k] != '\''
    ensures !IsHtmlSpecial(c) ==> r == [c]
  {
    match c
    case '&' => "&amp;"
    case '<' => "&lt;"
    case '>' => "&gt;"
    case '"' => "&quot;"
    case '\'' => "&#39;"
    case _ => [c]
  }

  /**
   * `html_escape`: the text with & < > " ' replaced by their entities. The
   * result holds none of < > " ' and is the input itself when that holds no
   * special character.
   */
  function HtmlEscape(s: string): (r: string)
    ensures |r| >= |s|
    ensures forall k :: 0 <= k < |r| ==> r[k] != '<' && r[k] != '>' && r[k] != '"' && r[k] != '\''
    ensures (forall k :: 0 <= k < |s| ==> !IsHtmlSpecial(s[k])) ==> r == s
  {
    if s == [] then []
    else
      var head := EscapeChar(s[0]);
      var tail := HtmlEscape(s[1..]);
      assert forall k :: |head| <= k < |head| + |tail| ==> (head + tail)[k] == tail[k - |head|];
      head + tail
  }

  /** The entity at the start of `s`, as the character it stands for and its length. */
  function EntityAt(s: string): (r: Option<(char, nat)>)
    ensures r.Some? ==> 0 < r.value.1 <= |s|
  {
    if HasPrefix(s, "&amp;") then Some(('&', 5))
    else if HasPrefix(s, "&lt;") then Some(('<', 4))
    else if HasPrefix(s, "&gt;") then Some(('>', 4))
    else if HasPrefix(s, "&quot;") then Some(('"', 6))
    else if HasPrefix(s, "&#39;") then Some(('\'', 5))
    else None
  }

  /** What a browser shows for escaped text: each of the five entities read back as its character. */
  function HtmlUnescape(s: string): string
    decreases |s|
  {
    if s == [] then []
    else match EntityAt(s)
      case Some((c, n)) => [c] + HtmlUnescape(s[n..])
      case None => [s[0]] + HtmlUnescape(s[1..])
  }

  /** An escaped special character starts with exactly its own entity. */
  lemma EntityOfEscape(c: char, rest: string)
    requires IsHtmlSpecial(c)
    ensures EntityAt(EscapeChar(c) + rest) == Some((c, |EscapeChar(c)|))
  {
    var e := EscapeChar(c);
    var s := e + rest;
    assert s[..|e|] == e;
    assert s[0] == '&' && s[1] == e[1];
  }

  /** No entity starts with anything but `&`. */
  lemma NoEntityWithoutAmp(s: string)
    requires s != [] && s[0] != '&'
    ensures EntityAt(s) == None
  {
    forall p: string | p != [] && p[0] == '&' ensures !HasPrefix(s, p) {
      assert |p| <= |s| ==> s[..|p|][0] == s[0];
    }
  }

  lemma UnescapeEscapedChar(c: char, rest: string)
    ensures HtmlUnescape(EscapeChar(c) + rest) == [c] + HtmlUnescape(rest)
  {
    var e := EscapeChar(c);
    var s := e + rest;
    assert s[|e|..] == rest;
    if IsHtmlSpecial(c) {
      assert EntityAt(s) == Some((c, |e|)) by {
        EntityOfEscape(c, rest);
      }
    } else {
      assert s[0] == c;
      assert EntityAt(s) == None by {
        NoEntityWithoutAmp(s);
      }
    }
  }

  /** The page shows every value exactly as stored: unescaping undoes `html_escape`. */
  lemma {:induction false} HtmlEscapeRoundTrip(s: string)
    ensures HtmlUnescape(HtmlEscape(s)) == s
    decreases |s|
  {
    if s != [] {
      UnescapeEscapedChar(s[0], HtmlEscape(s[1..]));
      HtmlEscapeRoundTrip(s[1..]);
      assert s == [s[0]] + s[1..];
    }
  }

  // ----------------------------------------------------------- URL codec

  /** `hex_to_int`: the digit's value, or -1 for a character that is not a hexadecimal digit. */
  function HexToInt(c: char): (r: int)
    ensures r == -1 <==> !IsHexDigit(c)
    ensures r != -1 ==> r == HexValue(c)
  {
    if '0' <= c <= '9' then (c - '0') as int
    else
      var l := Lower(c);
      if 'a' <= l <= 'f' then 10 + (l - 'a') as int else -1
  }

  /**
   * `url_decode`: `+` becomes a space, `%` and two hexadecimal digits become
   * that byte, and everything else, a malformed or cut-short `%` included,
   * is copied.
   */
  function UrlDecode(s: string): (r: string)
    ensures |r| <= |s|
    ensures '+' !in s && '%' !in s ==> r == s
    ensures IsByteString(s) ==> IsByteString(r)
    decreases |s|
  {
    if s == [] then []
    else if s[0] == '+' then [' '] + UrlDecode(s[1..])
    else if s[0] == '%' && 2 < |s| && HexToInt(s[1]) >= 0 && HexToInt(s[2]) >= 0 then
      [(HexToInt(s[1]) * 16 + HexToInt(s[2])) as char] + UrlDecode(s[3..])
    else [s[0]] + UrlDecode(s[1..])
  }

  /** The characters section 2.3 of RFC 3986 leaves unencoded. */
  predicate IsUnreserved(c: char) {
    ('A' <= c <= 'Z') || ('a' <= c <= 'z') || IsDigit(c) || c == '-' || c == '.' || c == '_' || c == '~'
  }

  /** An upper-case hexadecimal digit, as section 2.1 of RFC 3986 recommends. */
  function UpperHexDigit(n: nat): (c: char)
    requires n < 16
    ensures HexToInt(c) == n
  {
    Upper(HexDigit(n))
  }

  /** How a browser encodes one byte of a form field. */
  function EncodeChar(c: char): (r: string)
    requires c as int < 256
    ensures '&' !in r && '=' !in r && r != []
  {
    if c == ' ' then "+"
    else if IsUnreserved(c) then [c]
    else ['%', UpperHexDigit(c as int / 16), UpperHexDigit(c as int % 16)]
  }

  /** The encoding of a whole field. */
  function UrlEncode(s: string): (r: string)
    requires IsByteString(s)
    ensures '&' !in r && '=' !in r
  {
    if s == [] then [] else EncodeChar(s[0]) + UrlEncode(s[1..])
  }

  lemma DecodeEncodedChar(c: char, rest: string)
    requires c as int < 256
    ensures UrlDecode(EncodeChar(c) + rest) == [c] + UrlDecode(rest)
  {
    var e := EncodeChar(c);
    var s := e + rest;
    assert s[|e|..] == rest;
    if c != ' ' && !IsUnreserved(c) {
      assert s[0] == '%' && s[1] == e[1] && s[2] == e[2];
      assert (c as int / 16) * 16 + c as int % 16 == c as int;
    }
  }

  /** `url_decode` undoes the browser's encoding of every byte string. */
  lemma {:induction false} UrlRoundTrip(s: string)
    requires IsByteString(s)
    ensures UrlDecode(UrlEncode(s)) == s
    decreases |s|
  {
    if s != [] {
      DecodeEncodedChar(s[0], UrlEncode(s[1..]));
      UrlRoundTrip(s[1..]);
      assert s == [s[0]] + s[1..];
    }
  }

  // ----------------------------------------------------------- form body

  /** The pieces joined back with `&`. */
  function Join(pieces: seq<string>): string {
    if pieces == [] then []
    else if |pieces| == 1 then pieces[0]
    else pieces[0] + "&" + Join(pieces[1..])
  }

  /** A body without its final `&`, if it has one. */
  function DropFinalAmp(s: string): (r: string)
    ensures r == [] <==> s == [] || s == "&"
  {
    if s != [] && s[|s| - 1] == '&' then s[..|s| - 1] else s
  }

  /** Cutting a body at an `&` that is not its last character. */
  lemma CutAtAmp(body: string, e: nat)
    requires e + 1 < |body| && body[e] == '&'
    ensures body[..e] + "&" + DropFinalAmp(body[e + 1..]) == DropFinalAmp(body)
  {
    var rest := body[e + 1..];
    assert body == body[..e] + "&" + rest;
    if rest[|rest| - 1] == '&' {
      assert body[..|body| - 1] == body[..e] + "&" + rest[..|rest| - 1];
    }
  }

  /** One piece in front of others. */
  lemma JoinCons(x: string, pieces: seq<string>)
    ensures Join([x] + pieces) == if pieces == [] then x else x + "&" + Join(pieces)
  {
    assert ([x] + pieces)[1..] == pieces;
  }

  /**
   * The substrings `parse_form_encoded` visits: the body cut at every `&`,
   * without the empty piece after a final `&`.
   */
  function Pieces(body: string): (r: seq<string>)
    ensures r == [] <==> body == []
    ensures forall i :: 0 <= i < |r| ==> '&' !in r[i]
    ensures Join(r) == DropFinalAmp(body)
    decreases |body|
  {
    if body == [] then []
    else match FirstIndexOf(body, '&')
      case None => [body]
      case Some(e) =>
        var rest := body[e + 1..];
        var tail := Pieces(rest);
        var r := [body[..e]] + tail;
        assert Join(r) == DropFinalAmp(body) by {
          JoinCons(body[..e], tail);
          if rest != [] {
            CutAtAmp(body, e);
          }
        }
        assert r[1..] == tail;
        r
  }

  /** A piece without `&`, an `&` and the rest: the piece comes off first. */
  lemma PiecesCons(x: string, rest: string)
    requires '&' !in x
    ensures Pieces(x + "&" + rest) == [x] + Pieces(rest)
  {
    var body := x + "&" + rest;
    assert body[..|x|] == x && body[|x|] == '&' && body[|x| + 1..] == rest;
    FirstIndexOfIs(body, '&', |x|);
  }

  /** Cutting a join at its `&` gives the joined pieces back when the last is not empty. */
  lemma {:induction false} PiecesOfJoin(pieces: seq<string>)
    requires forall i :: 0 <= i < |pieces| ==> '&' !in pieces[i]
    requires pieces != [] ==> pieces[|pieces| - 1] != []
    ensures Pieces(Join(pieces)) == pieces
    decreases |pieces|
  {
    if |pieces| >= 2 {
      var rest := Join(pieces[1..]);
      assert Pieces(pieces[0] + "&" + rest) == [pieces[0]] + Pieces(rest) by {
        assert '&' !in pieces[0];
        PiecesCons(pieces[0], rest);
      }
      assert Pieces(rest) == pieces[1..] by {
        PiecesOfJoin(pieces[1..]);
      }
      assert pieces == [pieces[0]] + pieces[1..];
    } else if |pieces| == 1 {
      assert '&' !in pieces[0];
    }
  }

  /** One piece as a (key, value) pair: split at its first `=`, or the value "" when it has none. */
  function SplitPair(piece: string): (r: (string, string))
    ensures '=' !in piece ==> r == (UrlDecode(piece), "")
  {
    match FirstIndexOf(piece, '=')
    case None => (UrlDecode(piece), "")
    case Some(eq) => (UrlDecode(piece[..eq]), UrlDecode(piece[eq + 1..]))
  }

  /** The decoded pairs of a body, in order. */
  function Pairs(body: string): (r: seq<(string, string)>)
    ensures |r| == |Pieces(body)|
    ensures forall i :: 0 <= i < |r| ==> r[i] == SplitPair(Pieces(body)[i])
  {
    var pieces := Pieces(body);
    seq(|pieces|, i requires 0 <= i < |pieces| => SplitPair(pieces[i]))
  }

  /** No later pair has the key of pair `i`. */
  predicate IsLastKey(ps: seq<(string, string)>, i: nat)
    requires i < |ps|
  {
    forall j :: i < j < |ps| ==> ps[j].0 != ps[i].0
  }

  /**
   * Pairs put into a map in order: a key is present when some pair has it,
   * and it holds the value of the last such pair.
   */
  function ToMap(ps: seq<(string, string)>): (r: map<string, string>)
    ensures forall k :: k in r <==> exists i :: 0 <= i < |ps| && ps[i].0 == k
    decreases |ps|
  {
    if ps == [] then map[]
    else
      var init := ps[..|ps| - 1];
      var last := ps[|ps| - 1];
      var m := ToMap(init);
      assert forall i :: 0 <= i < |init| ==> init[i] == ps[i];
      assert ps[|ps| - 1] == last;
      m[last.0 := last.1]
  }

  /** The value a key gets is that of its last pair. */
  lemma {:induction false} ToMapLast(ps: seq<(string, string)>, i: nat)
    requires i < |ps| && IsLastKey(ps, i)
    ensures ps[i].0 in ToMap(ps) && ToMap(ps)[ps[i].0] == ps[i].1
    decreases |ps|
  {
    if i < |ps| - 1 {
      var init := ps[..|ps| - 1];
      assert init[i] == ps[i];
      ToMapLast(init, i);
    }
  }

  /**
   * `parse_form_encoded`: the keys of the body's pairs, each with the value
   * of its last occurrence.
   */
  function ParseFormEncoded(body: string): (r: map<string, string>)
    ensures forall k :: k in r <==> exists i :: 0 <= i < |Pairs(body)| && Pairs(body)[i].0 == k
  {
    ToMap(Pairs(body))
  }

  /** How a browser writes one field: encoded name, `=`, encoded value. */
  function EncodePair(p: (string, string)): (r: string)
    requires IsByteString(p.0) && IsByteString(p.1)
    ensures '&' !in r && r != []
  {
    UrlEncode(p.0) + "=" + UrlEncode(p.1)
  }

  predicate BytePairs(ps: seq<(string, string)>) {
    forall i :: 0 <= i < |ps| ==> IsByteString(ps[i].0) && IsByteString(ps[i].1)
  }

  /** A form body as a browser submits it: the encoded fields joined with `&`. */
  function EncodeForm(ps: seq<(string, string)>): string
    requires BytePairs(ps)
  {
    Join(seq(|ps|, i requires 0 <= i < |ps| => EncodePair(ps[i])))
  }

  /** A piece with no `=` before the one after its key splits there. */
  lemma SplitAtFirstEquals(k: string, v: string)
    requires '=' !in k
    ensures SplitPair(k + "=" + v) == (UrlDecode(k), UrlDecode(v))
  {
    var s := k + "=" + v;
    assert s[..|k|] == k && s[|k|] == '=' && s[|k| + 1..] == v;
    FirstIndexOfIs(s, '=', |k|);
  }

  lemma SplitEncodedPair(p: (string, string))
    requires IsByteString(p.0) && IsByteString(p.1)
    ensures SplitPair(EncodePair(p)) == p
  {
    assert SplitPair(EncodePair(p)) == (UrlDecode(UrlEncode(p.0)), UrlDecode(UrlEncode(p.1))) by {
      SplitAtFirstEquals(UrlEncode(p.0), UrlEncode(p.1));
    }
    UrlRoundTrip(p.0);
    UrlRoundTrip(p.1);
  }

  /**
   * Parsing what a browser submits gives back the fields it encoded, in
   * order, and so the map of their last values.
   */
  lemma FormRoundTrip(ps: seq<(string, string)>)
    requires BytePairs(ps)
    ensures Pairs(EncodeForm(ps)) == ps
    ensures ParseFormEncoded(EncodeForm(ps)) == ToMap(ps)
  {
    var encoded := seq(|ps|, i requires 0 <= i < |ps| => EncodePair(ps[i]));
    PiecesOfJoin(encoded);
    forall i | 0 <= i < |ps|
      ensures Pairs(EncodeForm(ps))[i] == ps[i]
    {
      SplitEncodedPair(ps[i]);
    }
  }

  /** Of two fields with the same name, the later one wins. */
  lemma LaterFieldWins(ps: seq<(string, string)>, i: nat)
    requires BytePairs(ps) && i < |ps| && IsLastKey(ps, i)
    ensures ps[i].0 in ParseFormEncoded(EncodeForm(ps))
    ensures ParseFormEncoded(EncodeForm(ps))[ps[i].0] == ps[i].1
  {
    FormRoundTrip(ps);
    ToMapLast(ps, i);
  }
  // ------------------------------------------------------ saving the form

  /** `parse_bool_value`: only "1", "on", "true" and "TRUE" mean true. */
  function ParseBoolValue(value: string): bool {
    value == "1" || value == "on" || value == "true" || value == "TRUE"
  }

  /**
   * An INT32 field as `save_form_to_nvs` reads it: `strtol` over the field's
   * C string, accepted only when it stops at the terminating NUL.
   */
  function IntField(value: string): (r: Option<int>)
    ensures r.Some? ==> LongMin <= r.value <= LongMax
  {
    var c := CString(value);
    var (v, end) := Strtol(c);
    if end == |c| then Some(v) else None
  }

  /** The maps agree outside `slots`. */
  ghost predicate SameExcept(a: map<(string, string), Stored>, b: map<(string, string), Stored>, slots: set<(string, string)>) {
    forall s :: s !in slots ==> (s in a <==> s in b) && (s in a ==> a[s] == b[s])
  }

  /** What a successful save of `item` leaves in its slot, if it writes one. */
  function FieldValue(item: Item, params: map<string, string>): Option<Stored>
    requires item.key.Some?
  {
    var key := item.key.value;
    if item.vtype == BoolValue then Some(U8(if key in params && ParseBoolValue(params[key]) then 1 else 0))
    else if key !in params then None
    else if item.vtype == StringValue then Some(Str(CString(Normalize(item, params[key]))))
    else if item.vtype == Int32Value && IntField(params[key]).Some? then Some(I32(Clamp(item, IntField(params[key]).value)))
    else None
  }

  /**
   * One iteration of `save_form_to_nvs`. A BOOL item is written whether or
   * not the form has its field, false when it has not; other items only when
   * their field is present. A string is cut to its limit and to its first
   * NUL; an integer with anything after its digits is refused with
   * INVALID_ARG; an accepted integer is clamped. FLOAT items are not
   * modelled and are left as they are.
   */
  function SaveItem(st: Store, item: Item, params: map<string, string>, io: EspErr): (r: (EspErr, Store))
    requires item.key.Some?
    ensures r.1.items == st.items && r.1.namespace == st.namespace
    ensures r.0 != Ok ==> r.1 == st
    ensures SameExcept(r.1.nvs, st.nvs, {Slot(st, item.key.value)})
    ensures r.0 == Ok && FieldValue(item, params).Some? ==>
      Slot(st, item.key.value) in r.1.nvs && r.1.nvs[Slot(st, item.key.value)] == FieldValue(item, params).value
    ensures FieldValue(item, params).None? ==>
      r == (if item.vtype == Int32Value && item.key.value in params then (InvalidArg, st) else (Ok, st))
    ensures FieldValue(item, params).Some? && IsReady(st) ==> r.0 == io
  {
    var key := item.key.value;
    if item.vtype == BoolValue then
      SetBoolItem(st, Some(item), key in params && ParseBoolValue(params[key]), io)
    else if key !in params then (Ok, st)
    else
      var value := params[key];
      match item.vtype
      case StringValue =>
        var stored := CString(Normalize(item, value));
        assert Normalize(item, stored) == stored;
        SetStringItem(st, Some(item), Some(stored), io)
      case Int32Value =>
        (match IntField(value)
         case None => (InvalidArg, st)
         case Some(v) =>
           ClampIdempotent(item, v);
           SetI32Item(st, Some(item), Clamp(item, v), io))
      case _ => (Ok, st)
  }

  /** The slots of `items` under namespace `ns`. */
  function SlotsOf(ns: string, items: seq<Item>): set<(string, string)>
    requires forall i :: 0 <= i < |items| ==> items[i].key.Some?
  {
    set i | 0 <= i < |items| :: (ns, items[i].key.value)
  }

  /** The loop of `save_form_to_nvs` over `items`, stopping at the first error. */
  function SaveItems(items: seq<Item>, st: Store, params: map<string, string>, io: EspErr): (r: (EspErr, Store))
    requires forall i :: 0 <= i < |items| ==> items[i].key.Some?
    ensures r.1.items == st.items && r.1.namespace == st.namespace
    ensures SameExcept(r.1.nvs, st.nvs, SlotsOf(st.namespace, items))
    decreases |items|
  {
    if items == [] then (Ok, st)
    else
      var (e, st1) := SaveItem(st, items[0], params, io);
      if e != Ok then (e, st1)
      else
        var r := SaveItems(items[1..], st1, params, io);
        assert forall i :: 1 <= i < |items| ==> items[i] == items[1..][i - 1];
        assert SlotsOf(st.namespace, items[1..]) <= SlotsOf(st.namespace, items);
        r
  }

  /** `save_form_to_nvs`: every registered item in order; nothing when the store is not ready. */
  function SaveForm(st: Store, params: map<string, string>, io: EspErr): (r: (EspErr, Store))
    requires Valid(st)
    ensures r.1.items == st.items && r.1.namespace == st.namespace
    ensures SameExcept(r.1.nvs, st.nvs, SlotsOf(st.namespace, st.items))
    ensures !IsReady(st) ==> r == (Ok, st)
  {
    if !IsReady(st) then (Ok, st) else SaveItems(st.items, st, params, io)
  }

  /** A successful save leaves every item that has a value to write holding it. */
  lemma {:induction false} SaveItemsWrites(items: seq<Item>, st: Store, params: map<string, string>, io: EspErr, j: nat)
    requires forall i :: 0 <= i < |items| ==> items[i].key.Some?
    requires KeysUnique(items) && j < |items|
    requires SaveItems(items, st, params, io).0 == Ok
    requires FieldValue(items[j], params).Some?
    ensures var nvs := SaveItems(items, st, params, io).1.nvs;
      Slot(st, items[j].key.value) in nvs && nvs[Slot(st, items[j].key.value)] == FieldValue(items[j], params).value
    decreases |items|
  {
    var st1 := SaveItem(st, items[0], params, io).1;
    var tail := items[1..];
    assert KeysUnique(tail) by {
      forall a, b | 0 <= a < b < |tail| ensures tail[a].key != tail[b].key {
        assert tail[a] == items[a + 1] && tail[b] == items[b + 1];
      }
    }
    if j == 0 {
      var slot := Slot(st, items[0].key.value);
      assert slot !in SlotsOf(st.namespace, tail) by {
        forall i | 0 <= i < |tail| ensures (st.namespace, tail[i].key.value) != slot {
          assert tail[i] == items[i + 1];
        }
      }
    } else {
      assert tail[j - 1] == items[j];
      var nvs := SaveItems(tail, st1, params, io).1.nvs;
      var slot := Slot(st, items[j].key.value);
      assert slot in nvs && nvs[slot] == FieldValue(items[j], params).value by {
        SaveItemsWrites(tail, st1, params, io, j - 1);
      }
    }
  }

  /** Whether the form's field for `item` is an INT32 value that does not parse. */
  predicate BadIntField(item: Item, params: map<string, string>)
    requires item.key.Some?
  {
    item.vtype == Int32Value && item.key.value in params && IntField(params[item.key.value]).None?
  }

  /** With a working NVS one item's save fails only on a bad INT32 field, and then with INVALID_ARG. */
  lemma SaveItemOutcome(st: Store, item: Item, params: map<string, string>)
    requires item.key.Some? && IsReady(st)
    ensures SaveItem(st, item, params, Ok).0 == (if BadIntField(item, params) then InvalidArg else Ok)
    ensures IsReady(SaveItem(st, item, params, Ok).1)
  {
  }

  /** With a working NVS, saving fails only on an INT32 field that is not a whole number. */
  lemma {:induction false} SaveItemsOutcome(items: seq<Item>, st: Store, params: map<string, string>)
    requires forall i :: 0 <= i < |items| ==> items[i].key.Some?
    requires IsReady(st)
    ensures SaveItems(items, st, params, Ok).0 in {Ok, InvalidArg}
    ensures SaveItems(items, st, params, Ok).0 == Ok <==> forall i :: 0 <= i < |items| ==> !BadIntField(items[i], params)
    decreases |items|
  {
    if items != [] {
      var r := SaveItem(st, items[0], params, Ok);
      assert r.0 == (if BadIntField(items[0], params) then InvalidArg else Ok) && IsReady(r.1) by {
        SaveItemOutcome(st, items[0], params);
      }
      var tail := items[1..];
      assert forall i :: 0 <= i < |tail| ==> tail[i].key.Some? && tail[i] == items[i + 1];
      var rest := SaveItems(tail, r.1, params, Ok).0;
      assert rest in {Ok, InvalidArg} && (rest == Ok <==> forall i :: 0 <= i < |tail| ==> !BadIntField(tail[i], params)) by {
        SaveItemsOutcome(tail, r.1, params);
      }
    }
  }

  /** A successful save then read of a registered item goes through the store's getters. */
  lemma SavedSlot(st: Store, params: map<string, string>, io: EspErr, j: nat)
    requires Valid(st) && IsReady(st) && j < |st.items|
    requires SaveForm(st, params, io).0 == Ok
    requires FieldValue(st.items[j], params).Some?
    ensures var st' := SaveForm(st, params, io).1;
      FindItem(st', st.items[j].key).Some?
      && Slot(st', st.items[j].key.value) in st'.nvs
      && st'.nvs[Slot(st', st.items[j].key.value)] == FieldValue(st.items[j], params).value
  {
    SaveItemsWrites(st.items, st, params, io, j);
    var st' := SaveForm(st, params, io).1;
    assert st'.items[j] == st.items[j];
  }

  /** `%ld` text, possibly followed by something else, as an INT32 field. */
  lemma IntFieldOfPrinted(n: int, rest: string)
    requires LongMin <= n <= LongMax
    requires (rest == [] || !IsDigit(rest[0])) && '\0' !in rest
    ensures IntField(IntToString(n) + rest) == if rest == [] then Some(n) else None
  {
    var s := IntToString(n) + rest;
    assert '\0' !in IntToString(n) by {
      forall k | 0 <= k < |IntToString(n)| ensures IntToString(n)[k] != '\0' {
        if n < 0 && k > 0 {
          assert IntToString(n)[k] == NatToString(-n)[k - 1];
        }
      }
    }
    CStringOfClean(s);
    StrtolReadsPrinted(n, rest);
  }

  /** A printed number in an INT32 field is the value a save writes, clamped. */
  lemma PrintedIntField(item: Item, params: map<string, string>, n: int)
    requires item.key.Some? && item.vtype == Int32Value && LongMin <= n <= LongMax
    requires item.key.value in params && params[item.key.value] == IntToString(n)
    ensures FieldValue(item, params) == Some(I32(Clamp(item, n)))
  {
    var text := params[item.key.value];
    assert IntField(text) == Some(n) by {
      IntFieldOfPrinted(n, []);
      assert IntToString(n) + [] == text;
    }
    AcceptedIntField(item, params, n);
  }

  lemma AcceptedIntField(item: Item, params: map<string, string>, v: int)
    requires item.key.Some? && item.vtype == Int32Value && item.key.value in params
    requires IntField(params[item.key.value]) == Some(v)
    ensures FieldValue(item, params) == Some(I32(Clamp(item, v)))
  {}

  /** An integer typed into the form is what the device reads back, clamped to the item's range. */
  lemma SavedIntReadsBack(st: Store, params: map<string, string>, io: EspErr, j: nat, n: int)
    requires Valid(st) && IsReady(st) && j < |st.items| && st.items[j].vtype == Int32Value
    requires st.items[j].key.value in params && params[st.items[j].key.value] == IntToString(n)
    requires LongMin <= n <= LongMax
    requires SaveForm(st, params, io).0 == Ok
    ensures var st' := SaveForm(st, params, io).1;
      GetI32Item(st', Some(st.items[j]), Ok, Ok) == Success((Clamp(st.items[j], n), st'))
  {
    PrintedIntField(st.items[j], params, n);
    SavedSlot(st, params, io, j);
    ReadStoredI32(SaveForm(st, params, io).1, st.items[j], Clamp(st.items[j], n), Ok);
  }

  /**
   * A checkbox is submitted as "on" when ticked and left out when not; the
   * device reads back whether it was ticked.
   */
  lemma CheckboxReadsBack(st: Store, params: map<string, string>, io: EspErr, j: nat, ticked: bool)
    requires Valid(st) && IsReady(st) && j < |st.items| && st.items[j].vtype == BoolValue
    requires (st.items[j].key.value in params <==> ticked)
    requires ticked ==> params[st.items[j].key.value] == "on"
    requires SaveForm(st, params, io).0 == Ok
    ensures var st' := SaveForm(st, params, io).1;
      GetBoolItem(st', Some(st.items[j]), Ok, Ok) == Success((ticked, st'))
  {
    SavedSlot(st, params, io, j);
  }

  /** A text field reads back as typed, cut to the item's limit, when the reader's buffer holds it. */
  lemma SavedStringReadsBack(st: Store, params: map<string, string>, io: EspErr, j: nat, bufferLen: nat)
    requires Valid(st) && IsReady(st) && j < |st.items| && st.items[j].vtype == StringValue
    requires st.items[j].key.value in params && '\0' !in params[st.items[j].key.value]
    requires |Normalize(st.items[j], params[st.items[j].key.value])| < bufferLen
    requires SaveForm(st, params, io).0 == Ok
    ensures var st' := SaveForm(st, params, io).1;
      GetStringItem(st', Some(st.items[j]), bufferLen, Ok, Ok)
        == Success((Normalize(st.items[j], params[st.items[j].key.value]), st'))
  {
    var v := Normalize(st.items[j], params[st.items[j].key.value]);
    assert '\0' !in v;
    CStringOfClean(v);
    assert FieldValue(st.items[j], params) == Some(Str(v));
    SavedSlot(st, params, io, j);
  }

  /** A number followed by anything but a digit or NUL is refused, and nothing is written. */
  lemma TrailingGarbageRefused(st: Store, item: Item, params: map<string, string>, io: EspErr, n: int, rest: string)
    requires item.key.Some? && item.vtype == Int32Value && LongMin <= n <= LongMax
    requires rest != [] && !IsDigit(rest[0]) && '\0' !in rest
    requires item.key.value in params && params[item.key.value] == IntToString(n) + rest
    ensures SaveItem(st, item, params, io) == (InvalidArg, st)
  {
    IntFieldOfPrinted(n, rest);
  }

  /** An empty INT32 field is not refused: `strtol` reads nothing and stops at the NUL, so 0 is stored, clamped. */
  lemma EmptyIntFieldStoresZero(st: Store, item: Item, params: map<string, string>)
    requires item.key.Some? && item.vtype == Int32Value && IsReady(st)
    requires item.key.value in params && params[item.key.value] == ""
    ensures SaveItem(st, item, params, Ok).0 == Ok
    ensures SaveItem(st, item, params, Ok).1.nvs[Slot(st, item.key.value)] == I32(Clamp(item, 0))
  {
    assert IntField("") == Some(0);
  }

  // ------------------------------------------------------------- server

  /** URI handlers `config_webapp_start` registers. */
  const HandlerCount: nat := 11

  /** The first failure among the handler registrations, if any. */
  function FirstFailure(results: seq<EspErr>): (r: Option<EspErr>)
    ensures r.None? <==> forall i :: 0 <= i < |results| ==> results[i] == Ok
    ensures r.Some? ==> r.value != Ok && r.value in results
  {
    if results == [] then None
    else if results[0] != Ok then Some(results[0])
    else
      var r := FirstFailure(results[1..]);
      assert forall i :: 1 <= i < |results| ==> results[i] == results[1..][i - 1];
      r
  }

  /**
   * `config_webapp_start`: refused while a server runs or before the store
   * is ready; otherwise the outcome of starting the server and registering
   * each handler, the server being stopped again on the first failed
   * registration. The second component tells whether a server runs after.
   */
  function Start(running: bool, storeReady: bool, startResult: EspErr, registrations: seq<EspErr>): (r: (EspErr, bool))
    requires |registrations| == HandlerCount
    ensures running ==> r == (InvalidState, true)
    ensures !running && !storeReady ==> r == (InvalidState, false)
    ensures r.1 <==> running || r.0 == Ok
    ensures !running ==> (r.0 == Ok <==> storeReady && startResult == Ok && forall i :: 0 <= i < |registrations| ==> registrations[i] == Ok)
    ensures !running && storeReady && startResult != Ok ==> r.0 == startResult
  {
    if running || !storeReady then (InvalidState, running)
    else if startResult != Ok then (startResult, false)
    else match FirstFailure(registrations)
      case Some(e) => (e, false)
      case None => (Ok, true)
  }

  /**
   * `config_webapp_prepare`: a missing or empty namespace is INVALID_ARG, a
   * store not yet prepared is INVALID_STATE. The namespace is not compared
   * with the store's.
   */
  function WebappPrepare(ns: Option<string>, st: Store): (r: EspErr)
    ensures r == Ok <==> ns.Some? && ns.value != [] && IsReady(st)
    ensures r == InvalidArg <==> ns.None? || ns.value == []
    ensures r in {Ok, InvalidArg, InvalidState}
  {
    if ns.None? || ns.value == [] then InvalidArg
    else if !IsReady(st) then InvalidState
    else Ok
  }

  /** Preparing the store with a namespace readies the web app for that namespace, and for any other. */
  lemma WebappPrepareAfterStore(st: Store, ns: string, other: string)
    requires ns != [] && |ns| <= MaxNamespaceLen && '\0' !in ns && other != []
    ensures WebappPrepare(Some(ns), ConfigStore.Prepare(st, Some(ns)).1) == Ok
    ensures WebappPrepare(Some(other), ConfigStore.Prepare(st, Some(ns)).1) == Ok
  {
  }

  /** `config_webapp_stop`: OK when no server runs, otherwise the outcome of stopping it; none runs after. */
  function Stop(running: bool, stopResult: EspErr): (r: (EspErr, bool))
    ensures !r.1
    ensures !running ==> r.0 == Ok
  {
    if !running then (Ok, false) else (stopResult, false)
  }

  /** Stopping twice is harmless, and a stopped app can be started again. */
  lemma StopIdempotent(running: bool, stopResult: EspErr, again: EspErr, registrations: seq<EspErr>)
    requires |registrations| == HandlerCount
    ensures Stop(Stop(running, stopResult).1, again) == (Ok, false)
    ensures (forall i :: 0 <= i < |registrations| ==> registrations[i] == Ok) ==>
      Start(Stop(running, stopResult).1, true, Ok, registrations) == (Ok, true)
  {
  }
}

