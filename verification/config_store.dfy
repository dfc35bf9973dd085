/**
 * The configuration store (components/config_store/config_store.cpp): a
 * registry of at most 64 configuration items with unique keys, backed by
 * NVS flash storage under one namespace.
 *
 * NVS is a map from (namespace, key) to a typed stored value. Every NVS call
 * of one store operation (open, get/set, commit) is summarised by one
 * `io: EspErr` outcome that the environment supplies. `check_or_abort`
 * restarts the device; a get that would abort yields `Failure` with the
 * error code it logs.
 */
module ConfigStore {
  import opened Wrappers

  const MaxItems: nat := 64
  /** Longest key NVS accepts. */
  const MaxKeyLen: nat := 15
  /** `char nvs_namespace[16]` keeps at most 15 characters. */
  const MaxNamespaceLen: nat := 15

  datatype ValueType = StringValue | Int32Value | FloatValue | BoolValue

  /** `config_item_t`, without labels, descriptions and the float fields. */
  datatype Item = Item(key: Option<string>, vtype: ValueType, defaultString: Option<string>,
                       defaultInt: int, defaultBool: bool, maxStringLen: nat, minInt: int, maxInt: int)

  /** What NVS holds under a key: a string, an `int32_t` or a `uint8_t`. */
  datatype Stored = Str(text: string) | I32(number: int) | U8(byte: nat)

  datatype Store = Store(namespace: string, items: seq<Item>, nvs: map<(string, string), Stored>)

  /** `config_store_is_ready`: a namespace has been stored. */
  predicate IsReady(st: Store) {
    st.namespace != []
  }

  /** `is_valid_item`: a key of 1 to 15 characters. */
  predicate IsValidItem(item: Item) {
    item.key.Some? && 0 < |item.key.value| <= MaxKeyLen
  }

  /** Some registered item has key `key`. */
  predicate Registered(st: Store, key: string) {
    exists i :: 0 <= i < |st.items| && st.items[i].key == Some(key)
  }

  predicate KeysUnique(items: seq<Item>) {
    forall i, j :: 0 <= i < j < |items| ==> items[i].key != items[j].key
  }

  /** What registration maintains: a bounded registry of valid items with unique keys. */
  predicate Valid(st: Store) {
    |st.items| <= MaxItems
    && (forall i :: 0 <= i < |st.items| ==> IsValidItem(st.items[i]))
    && KeysUnique(st.items)
  }

  /** `config_store_prepare`: stores the namespace and empties the registry; NVS contents persist. */
  function Prepare(st: Store, ns: Option<string>): (r: (EspErr, Store))
    requires ns.Some? ==> '\0' !in ns.value
    ensures r.0 == Ok <==> ns.Some? && |ns.value| <= MaxNamespaceLen
    ensures r.0 != Ok ==> r.0 == InvalidArg && r.1 == st
    ensures r.0 == Ok ==> r.1.items == [] && r.1.nvs == st.nvs && Valid(r.1)
    ensures r.0 == Ok ==> (IsReady(r.1) <==> ns.value != [])
  {
    if ns.None? || |ns.value| > MaxNamespaceLen then (InvalidArg, st)
    else (Ok, Store(ns.value, [], st.nvs))
  }

  /** `config_store_register_item`. */
  function Register(st: Store, item: Option<Item>): (r: (EspErr, Store))
    ensures r.1.namespace == st.namespace && r.1.nvs == st.nvs
    ensures r.0 == InvalidArg <==> !IsReady(st) || item.None? || !IsValidItem(item.value)
    ensures r.0 == NoMem <==>
      (IsReady(st) && item.Some? && IsValidItem(item.value)
       && !Registered(st, item.value.key.value) && |st.items| >= MaxItems)
    ensures r.0 in {Ok, InvalidArg, NoMem}
    ensures r.0 != Ok ==> r.1 == st
    ensures r.0 == Ok ==> Registered(r.1, item.value.key.value)
    ensures r.0 == Ok && Registered(st, item.value.key.value) ==> r.1 == st
    ensures r.0 == Ok && !Registered(st, item.value.key.value) ==> r.1.items == st.items + [item.value]
  {
    if !IsReady(st) || item.None? || !IsValidItem(item.value) then (InvalidArg, st)
    else if Registered(st, item.value.key.value) then (Ok, st)
    else if |st.items| >= MaxItems then (NoMem, st)
    else
      assert (st.items + [item.value])[|st.items|] == item.value;
      (Ok, st.(items := st.items + [item.value]))
  }

  /** Registration keeps the registry bounded, valid and free of duplicate keys. */
  lemma RegisterPreservesValid(st: Store, item: Option<Item>)
    requires Valid(st)
    ensures Valid(Register(st, item).1)
    ensures Register(st, item).1.items[..|st.items|] == st.items
  {
    var r := Register(st, item);
    if r.0 == Ok && !Registered(st, item.value.key.value) {
      var items := r.1.items;
      forall i, j | 0 <= i < j < |items|
        ensures items[i].key != items[j].key
      {
        if j == |st.items| {
          assert items[i] == st.items[i];
        }
      }
    }
  }

  /** The first item of `items[i..]` with key `key`. */
  function FindFrom(items: seq<Item>, key: string, i: nat): (r: Option<Item>)
    requires i <= |items|
    ensures r.Some? ==> r.value in items[i..] && r.value.key == Some(key)
    ensures r.None? <==> forall j :: i <= j < |items| ==> items[j].key != Some(key)
    decreases |items| - i
  {
    if i == |items| then None
    else if items[i].key == Some(key) then Some(items[i])
    else FindFrom(items, key, i + 1)
  }

  /** `config_store_find_item`: the registered item with that key, if the store is ready. */
  function FindItem(st: Store, key: Option<string>): (r: Option<Item>)
    ensures r.Some? ==> r.value in st.items && r.value.key == key
    ensures r.Some? <==> IsReady(st) && key.Some? && Registered(st, key.value)
  {
    if key.None? || !IsReady(st) then None else FindFrom(st.items, key.value, 0)
  }

  /** Once registered, an item is what `find_item` returns for its key. */
  lemma FindAfterRegister(st: Store, item: Item)
    requires Valid(st) && Register(st, Some(item)).0 == Ok
    ensures FindItem(Register(st, Some(item)).1, item.key).Some?
    ensures !Registered(st, item.key.value) ==> FindItem(Register(st, Some(item)).1, item.key) == Some(item)
  {
    RegisterPreservesValid(st, Some(item));
    var st' := Register(st, Some(item)).1;
    if !Registered(st, item.key.value) {
      FindLast(st'.items, item.key.value, 0);
    }
  }

  /** The search reaches the last item when it is the only one with the key. */
  lemma FindLast(items: seq<Item>, key: string, i: nat)
    requires i < |items| && items[|items| - 1].key == Some(key)
    requires forall j :: i <= j < |items| - 1 ==> items[j].key != Some(key)
    ensures FindFrom(items, key, i) == Some(items[|items| - 1])
    decreases |items| - i
  {
    if i < |items| - 1 {
      FindLast(items, key, i + 1);
    }
  }

  /** `config_store_item_count`. */
  function ItemCount(st: Store): (r: nat)
    ensures r <= |st.items|
    ensures r == 0 || IsReady(st)
  {
    if IsReady(st) then |st.items| else 0
  }

  /** `config_store_item_at`. */
  function ItemAt(st: Store, index: nat): (r: Option<Item>)
    ensures r.Some? <==> index < ItemCount(st)
    ensures r.Some? ==> r.value == st.items[index]
  {
    if !IsReady(st) || index >= |st.items| then None else Some(st.items[index])
  }

  /** `clamp_i32`: `std::max(min_int, std::min(max_int, value))`. */
  function Clamp(item: Item, value: int): (r: int)
    ensures item.minInt <= item.maxInt ==> item.minInt <= r <= item.maxInt
    ensures item.minInt <= value <= item.maxInt ==> r == value
    ensures item.minInt > item.maxInt ==> r == item.minInt
    ensures value < item.minInt ==> r == item.minInt
  {
    if item.maxInt < value then (if item.minInt < item.maxInt then item.maxInt else item.minInt)
    else if value < item.minInt then item.minInt
    else value
  }

  /** Clamping twice is clamping once. */
  lemma ClampIdempotent(item: Item, value: int)
    ensures Clamp(item, Clamp(item, value)) == Clamp(item, value)
  {
  }

  /** A string value cut to `max_string_len` when that is positive. */
  function Normalize(item: Item, s: string): (r: string)
    ensures |r| <= |s| && r == s[..|r|]
    ensures item.maxStringLen > 0 ==> |r| <= item.maxStringLen
    ensures item.maxStringLen == 0 || |s| <= item.maxStringLen ==> r == s
  {
    if item.maxStringLen > 0 && |s| > item.maxStringLen then s[..item.maxStringLen] else s
  }

  /** The NVS slot of a key under the store's namespace. */
  function Slot(st: Store, key: string): (string, string) {
    (st.namespace, key)
  }

  /** The outcome of one NVS write: on success the slot holds `v`, on failure nothing changes. */
  function Write(st: Store, key: string, v: Stored, io: EspErr): (r: (EspErr, Store))
    ensures r.0 == io
    ensures r.1.namespace == st.namespace && r.1.items == st.items
    ensures io == Ok ==> Slot(st, key) in r.1.nvs && r.1.nvs[Slot(st, key)] == v
    ensures forall s :: s != Slot(st, key) ==> (s in r.1.nvs <==> s in st.nvs)
    ensures forall s :: s != Slot(st, key) && s in st.nvs ==> r.1.nvs[s] == st.nvs[s]
    ensures io != Ok ==> r.1 == st
  {
    if io == Ok then (Ok, st.(nvs := st.nvs[Slot(st, key) := v])) else (io, st)
  }

  /** Shared checks of the setters: the item's type and an NVS handle (`open_nvs`). */
  function SetGuard(st: Store, item: Option<Item>, t: ValueType): Option<EspErr> {
    if item.None? || item.value.vtype != t then Some(InvalidArg)
    else if !IsReady(st) then Some(InvalidState)
    else None
  }

  /** `config_store_set_i32_item`: stores the clamped value. */
  function SetI32Item(st: Store, item: Option<Item>, value: int, io: EspErr): (r: (EspErr, Store))
    requires item.Some? ==> item.value.key.Some?
    ensures item.None? || item.value.vtype != Int32Value ==> r == (InvalidArg, st)
    ensures r.0 == Ok ==> Slot(st, item.value.key.value) in r.1.nvs && r.1.nvs[Slot(st, item.value.key.value)] == I32(Clamp(item.value, value))
    ensures r.0 != Ok ==> r.1 == st
    ensures r.1.items == st.items && r.1.namespace == st.namespace
  {
    var g := SetGuard(st, item, Int32Value);
    if g.Some? then (g.value, st)
    else Write(st, item.value.key.value, I32(Clamp(item.value, value)), io)
  }

  /** `config_store_set_bool_item`: stores 1 or 0 as a byte. */
  function SetBoolItem(st: Store, item: Option<Item>, value: bool, io: EspErr): (r: (EspErr, Store))
    requires item.Some? ==> item.value.key.Some?
    ensures item.None? || item.value.vtype != BoolValue ==> r == (InvalidArg, st)
    ensures r.0 == Ok ==> Slot(st, item.value.key.value) in r.1.nvs && r.1.nvs[Slot(st, item.value.key.value)] == U8(if value then 1 else 0)
    ensures r.0 != Ok ==> r.1 == st
    ensures r.1.items == st.items && r.1.namespace == st.namespace
  {
    var g := SetGuard(st, item, BoolValue);
    if g.Some? then (g.value, st)
    else Write(st, item.value.key.value, U8(if value then 1 else 0), io)
  }

  /** `config_store_set_string_item`: stores the value cut to `max_string_len`. */
  function SetStringItem(st: Store, item: Option<Item>, value: Option<string>, io: EspErr): (r: (EspErr, Store))
    requires item.Some? ==> item.value.key.Some?
    ensures item.None? || value.None? || item.value.vtype != StringValue ==> r == (InvalidArg, st)
    ensures r.0 == Ok ==> Slot(st, item.value.key.value) in r.1.nvs && r.1.nvs[Slot(st, item.value.key.value)] == Str(Normalize(item.value, value.value))
    ensures r.0 != Ok ==> r.1 == st
    ensures r.1.items == st.items && r.1.namespace == st.namespace
  {
    if value.None? then (InvalidArg, st)
    else
      var g := SetGuard(st, item, StringValue);
      if g.Some? then (g.value, st)
      else Write(st, item.value.key.value, Str(Normalize(item.value, value.value)), io)
  }

  /**
   * Checks shared by the getters, in their order: the item and its type,
   * its registration, and an NVS handle. Each failure aborts with its code.
   */
  function GetGuard(st: Store, item: Option<Item>, t: ValueType, codes: seq<string>, io: EspErr): (r: Option<string>)
    requires |codes| == 3
    ensures r.None? ==> item.Some? && item.value.vtype == t && FindItem(st, item.value.key).Some? && io == Ok
  {
    if item.None? || item.value.vtype != t then Some(codes[0])
    else if FindItem(st, item.value.key).None? then Some(codes[1])
    else if io != Ok then Some(codes[2])
    else None
  }

  /**
   * `config_store_get_i32_item`: the stored value; a key never written gets
   * the clamped default, which is stored as well. `write` is the outcome of
   * storing and committing that default; a failure aborts with E653.
   */
  function GetI32Item(st: Store, item: Option<Item>, io: EspErr, write: EspErr): (r: Result<(int, Store), string>)
    ensures r.Success? ==> item.Some? && item.value.vtype == Int32Value && FindItem(st, item.value.key).Some?
    ensures (item.Some? && item.value.vtype == Int32Value && FindItem(st, item.value.key).Some? && io == Ok
             && Slot(st, item.value.key.value) !in st.nvs) ==>
      (r.Success? <==> write == Ok) && (write != Ok ==> r == Failure("E653"))
    ensures r.Success? && Slot(st, item.value.key.value) !in st.nvs ==>
      r.value.0 == Clamp(item.value, item.value.defaultInt)
      && r.value.1 == st.(nvs := st.nvs[Slot(st, item.value.key.value) := I32(r.value.0)])
    ensures r.Success? && Slot(st, item.value.key.value) in st.nvs ==>
      st.nvs[Slot(st, item.value.key.value)] == I32(r.value.0) && r.value.1 == st
    ensures r.Failure? ==> r.error in {"E650", "E651", "E652", "E653"}
  {
    var g := GetGuard(st, item, Int32Value, ["E650", "E651", "E652"], io);
    if g.Some? then Failure(g.value)
    else
      var slot := Slot(st, item.value.key.value);
      if slot in st.nvs then
        (if st.nvs[slot].I32? then Success((st.nvs[slot].number, st)) else Failure("E653"))
      else
        var v := Clamp(item.value, item.value.defaultInt);
        if write != Ok then Failure("E653") else Success((v, st.(nvs := st.nvs[slot := I32(v)])))
  }

  /** A registered INT32 item whose slot holds a number reads back that number and changes nothing. */
  lemma ReadStoredI32(st: Store, item: Item, v: int, write: EspErr)
    requires item.vtype == Int32Value && item.key.Some? && FindItem(st, item.key).Some?
    requires Slot(st, item.key.value) in st.nvs && st.nvs[Slot(st, item.key.value)] == I32(v)
    ensures GetI32Item(st, Some(item), Ok, write) == Success((v, st))
  {
  }

  /**
   * `config_store_get_bool_item`: a non-zero stored byte; a key never
   * written gets the default, stored as well, and a failure to store it
   * aborts with E661.
   */
  function GetBoolItem(st: Store, item: Option<Item>, io: EspErr, write: EspErr): (r: Result<(bool, Store), string>)
    ensures r.Success? ==> item.Some? && item.value.vtype == BoolValue && FindItem(st, item.value.key).Some?
    ensures (item.Some? && item.value.vtype == BoolValue && FindItem(st, item.value.key).Some? && io == Ok
             && Slot(st, item.value.key.value) !in st.nvs) ==>
      (r.Success? <==> write == Ok) && (write != Ok ==> r == Failure("E661"))
    ensures r.Success? && Slot(st, item.value.key.value) !in st.nvs ==>
      r.value.0 == item.value.defaultBool
      && r.value.1 == st.(nvs := st.nvs[Slot(st, item.value.key.value) := U8(if r.value.0 then 1 else 0)])
    ensures r.Success? && Slot(st, item.value.key.value) in st.nvs ==>
      st.nvs[Slot(st, item.value.key.value)].U8?
      && (r.value.0 <==> st.nvs[Slot(st, item.value.key.value)].byte != 0) && r.value.1 == st
    ensures r.Failure? ==> r.error in {"E658", "E659", "E660", "E661"}
  {
    var g := GetGuard(st, item, BoolValue, ["E658", "E659", "E660"], io);
    if g.Some? then Failure(g.value)
    else
      var slot := Slot(st, item.value.key.value);
      if slot in st.nvs then
        (if st.nvs[slot].U8? then Success((st.nvs[slot].byte != 0, st)) else Failure("E661"))
      else
        var raw: nat := if item.value.defaultBool then 1 else 0;
        if write != Ok then Failure("E661") else Success((raw != 0, st.(nvs := st.nvs[slot := U8(raw)])))
  }

  /**
   * `config_store_get_string_item` into a buffer of `bufferLen` bytes: the
   * stored string when it fits with its NUL; a key never written gets the
   * default cut to `max_string_len`, which must fit as well.
   */
  function GetStringItem(st: Store, item: Option<Item>, bufferLen: nat, io: EspErr, write: EspErr): (r: Result<(string, Store), string>)
    ensures r.Success? ==> item.Some? && item.value.vtype == StringValue && FindItem(st, item.value.key).Some?
    ensures (item.Some? && item.value.vtype == StringValue && FindItem(st, item.value.key).Some? && io == Ok
             && bufferLen > 0 && Slot(st, item.value.key.value) !in st.nvs
             && |Normalize(item.value, item.value.defaultString.GetOr(""))| < bufferLen) ==>
      (r.Success? <==> write == Ok) && (write != Ok ==> r == Failure("E667"))
    ensures r.Success? ==> |r.value.0| + 1 <= bufferLen
    ensures r.Success? && Slot(st, item.value.key.value) !in st.nvs ==>
      r.value.0 == Normalize(item.value, item.value.defaultString.GetOr(""))
      && r.value.1 == st.(nvs := st.nvs[Slot(st, item.value.key.value) := Str(r.value.0)])
    ensures r.Success? && Slot(st, item.value.key.value) in st.nvs ==>
      st.nvs[Slot(st, item.value.key.value)] == Str(r.value.0) && r.value.1 == st
    ensures r.Failure? ==> r.error in {"E662", "E663", "E664", "E665", "E666", "E667"}
  {
    if item.None? || item.value.vtype != StringValue then Failure("E662")
    else if bufferLen == 0 then Failure("E663")
    else
      var g := GetGuard(st, item, StringValue, ["E662", "E664", "E665"], io);
      if g.Some? then Failure(g.value)
      else
        var slot := Slot(st, item.value.key.value);
        if slot in st.nvs then
          (if st.nvs[slot].Str? && |st.nvs[slot].text| + 1 <= bufferLen
           then Success((st.nvs[slot].text, st)) else Failure("E667"))
        else
          var normalized := Normalize(item.value, item.value.defaultString.GetOr(""));
          if |normalized| + 1 > bufferLen then Failure("E666")
          else if write != Ok then Failure("E667")
          else Success((normalized, st.(nvs := st.nvs[slot := Str(normalized)])))
  }

  /** A registered integer item reads back the clamped value last set. */
  lemma SetThenGetI32(st: Store, item: Item, value: int, write: EspErr)
    requires item.key.Some? && item.vtype == Int32Value && FindItem(st, item.key).Some?
    ensures SetI32Item(st, Some(item), value, Ok).0 == Ok
    ensures var st' := SetI32Item(st, Some(item), value, Ok).1;
      GetI32Item(st', Some(item), Ok, write) == Success((Clamp(item, value), st'))
  {
    var st' := SetI32Item(st, Some(item), value, Ok).1;
    assert FindItem(st', item.key) == FindItem(st, item.key);
  }

  /** A registered boolean item reads back the value last set. */
  lemma SetThenGetBool(st: Store, item: Item, value: bool, write: EspErr)
    requires item.key.Some? && item.vtype == BoolValue && FindItem(st, item.key).Some?
    ensures SetBoolItem(st, Some(item), value, Ok).0 == Ok
    ensures var st' := SetBoolItem(st, Some(item), value, Ok).1;
      GetBoolItem(st', Some(item), Ok, write) == Success((value, st'))
  {
    var st' := SetBoolItem(st, Some(item), value, Ok).1;
    assert FindItem(st', item.key) == FindItem(st, item.key);
  }

  /** A registered string item reads back the value last set, cut to its limit, when the buffer holds it. */
  lemma SetThenGetString(st: Store, item: Item, value: string, bufferLen: nat, write: EspErr)
    requires item.key.Some? && item.vtype == StringValue && FindItem(st, item.key).Some?
    requires |Normalize(item, value)| < bufferLen
    ensures SetStringItem(st, Some(item), Some(value), Ok).0 == Ok
    ensures var st' := SetStringItem(st, Some(item), Some(value), Ok).1;
      GetStringItem(st', Some(item), bufferLen, Ok, write) == Success((Normalize(item, value), st'))
  {
    var st' := SetStringItem(st, Some(item), Some(value), Ok).1;
    assert FindItem(st', item.key) == FindItem(st, item.key);
  }

  /**
   * Reading a key never written twice gives the same default both times and
   * writes it once: the second read no longer depends on a write succeeding.
   */
  lemma GetDefaultIsStable(st: Store, item: Item, write: EspErr, write': EspErr)
    requires GetI32Item(st, Some(item), Ok, write).Success?
    ensures var (v, st') := GetI32Item(st, Some(item), Ok, write).value;
      GetI32Item(st', Some(item), Ok, write') == Success((v, st'))
  {
    var st' := GetI32Item(st, Some(item), Ok, write).value.1;
    assert FindItem(st', item.key) == FindItem(st, item.key);
  }
}
