/** Saving and loading `Base` objects: fields turn values into raw data (`to_raw`, `from_raw`),
    `Base` collects them in a dict, and the store encrypts what is under a `__` name. */
module ConfigStore {
  import opened Wrappers

  /** Data as JSON carries it; a dict keeps its entries in insertion order. */
  datatype Raw = RNull | RInt(i: int) | RStr(s: string) | RBool(b: bool)
               | RList(items: seq<Raw>) | RDict(entries: seq<Entry>)
  datatype Entry = Entry(name: string, value: Raw)

  /** Field values. An enum member is its position; `VRaw` is raw data kept as it came. */
  datatype Value = VNone | VInt(i: int) | VStr(s: string) | VBool(b: bool) | VEnum(member: nat)
                 | VObject(attrs: seq<Value>) | VList(items: seq<Value>) | VRaw(raw: Raw)

  /** A field by its kind; None is a value of every field that is not required, except of an object
      field, whose validation refuses it. */
  datatype Field =
    | Integer(required: bool)
    | String(required: bool)
    | Boolean(required: bool)
    | Enum(required: bool, members: seq<Raw>)
    | Secret(required: bool)
    | Object(cls: Class)
    | List(required: bool, item: Field)

  /** A `Base` class: its fields in order, each with the value a new object starts with. */
  datatype Class = Class(fields: seq<FieldDef>)
  datatype FieldDef = FieldDef(name: string, kind: Field, default: Value)

  /** What the store and the fields get from elsewhere: NaCl with Base64, `int(s.strip())` and
      `s.lower().strip()`. */
  datatype Host = Host(encrypt: string -> string, decrypt: string -> Option<string>,
                       parseInt: string -> Option<int>, folded: string -> string)

  ghost predicate Decrypts(h: Host) { forall s: string :: h.decrypt(h.encrypt(s)) == Some(s) }

  datatype Mode = Encrypt | Decrypt
  datatype Error = ValidationError | AttributeError | NotAString | NotAnEncryption

  // ---------------------------------------------------------------------------------------
  // Fields
  // ---------------------------------------------------------------------------------------

  /** A value as it is, for the fields whose `to_raw` is the identity. */
  function Plain(v: Value): Raw {
    match v
    case VInt(i) => RInt(i)
    case VStr(s) => RStr(s)
    case VBool(b) => RBool(b)
    case VRaw(raw) => raw
    case _ => RNull
  }

  /** Raw data as it is, for the fields whose `from_raw` leaves it alone. */
  function Kept(raw: Raw): Value {
    match raw
    case RNull => VNone
    case RInt(i) => VInt(i)
    case RStr(s) => VStr(s)
    case RBool(b) => VBool(b)
    case _ => VRaw(raw)
  }

  predicate Falsy(raw: Raw) {
    match raw
    case RNull => true
    case RInt(i) => i == 0
    case RStr(s) => s == ""
    case RBool(b) => !b
    case RList(items) => items == []
    case RDict(entries) => entries == []
  }

  /** The first position of a raw value among an enum's member values. */
  function MemberAt(members: seq<Raw>, raw: Raw, k: nat): Option<nat>
    requires k <= |members|
    decreases |members| - k
  {
    if k == |members| then None
    else if members[k] == raw then Some(k)
    else MemberAt(members, raw, k + 1)
  }

  /** The values validation lets a field hold. */
  predicate HasType(kind: Field, v: Value)
    decreases kind
  {
    match kind
    case Object(cls) => v.VObject? && Typed(cls.fields, v.attrs)
    case List(required, item) =>
      (v.VNone? && !required) || (v.VList? && forall k :: 0 <= k < |v.items| ==> HasType(item, v.items[k]))
    case Enum(required, members) => (v.VNone? && !required) || (v.VEnum? && v.member < |members|)
    case Integer(required) => (v.VNone? && !required) || v.VInt? || v.VBool?
    case Boolean(required) => (v.VNone? && !required) || v.VBool?
    case String(required) => (v.VNone? && !required) || v.VStr?
    case Secret(required) => (v.VNone? && !required) || v.VStr?
  }

  predicate Typed(fields: seq<FieldDef>, attrs: seq<Value>)
    decreases fields
  {
    |attrs| == |fields| && forall k :: 0 <= k < |fields| ==> HasType(fields[k].kind, attrs[k])
  }

  /** No enum in the value is None: `None.value` is an AttributeError. */
  predicate Serialisable(kind: Field, v: Value)
    requires HasType(kind, v)
    decreases kind
  {
    match kind
    case Enum(_, _) => !v.VNone?
    case Object(cls) => SerialisableAll(cls.fields, v.attrs)
    case List(_, item) => forall k :: 0 <= k < |Items(v)| ==> Serialisable(item, Items(v)[k])
    case _ => true
  }

  predicate SerialisableAll(fields: seq<FieldDef>, attrs: seq<Value>)
    requires Typed(fields, attrs)
    decreases fields
  {
    forall k :: 0 <= k < |fields| ==> Serialisable(fields[k].kind, attrs[k])
  }

  /** The items `to_raw` goes through; None counts as an empty list. */
  function Items(v: Value): seq<Value> { if v.VList? then v.items else [] }

  /** The raw data of a value. */
  function RawOf(kind: Field, v: Value): Raw
    requires HasType(kind, v) && Serialisable(kind, v)
    decreases kind, 0
  {
    match kind
    case Enum(_, members) => members[v.member]
    case Object(cls) => RDict(DataOf(cls.fields, v.attrs))
    case List(_, item) => RList(RawItems(item, Items(v)))
    case _ => Plain(v)
  }

  function RawItems(item: Field, items: seq<Value>): (r: seq<Raw>)
    requires forall k :: 0 <= k < |items| ==> HasType(item, items[k]) && Serialisable(item, items[k])
    ensures |r| == |items| && forall k :: 0 <= k < |items| ==> r[k] == RawOf(item, items[k])
    decreases item, 1
  {
    seq(|items|, k requires 0 <= k < |items| => RawOf(item, items[k]))
  }

  /** The dict key a field is saved under. */
  function Key(f: FieldDef): string { if f.kind.Secret? then "__" + f.name else f.name }

  /** The data of an object. */
  function DataOf(fields: seq<FieldDef>, attrs: seq<Value>): (r: seq<Entry>)
    requires Typed(fields, attrs) && SerialisableAll(fields, attrs)
    ensures |r| == |fields|
    ensures forall k :: 0 <= k < |fields| ==> r[k] == Entry(Key(fields[k]), RawOf(fields[k].kind, attrs[k]))
    decreases fields
  {
    seq(|fields|, k requires 0 <= k < |fields| => Entry(Key(fields[k]), RawOf(fields[k].kind, attrs[k])))
  }

  /** `to_raw`: fails exactly when an enum in the value is None. */
  method ToRaw(kind: Field, v: Value) returns (r: Result<Raw, Error>)
    requires HasType(kind, v)
    ensures r == if Serialisable(kind, v) then Ok(RawOf(kind, v)) else Err(AttributeError)
    decreases kind, 0
  {
    match kind {
      case Enum(_, members) =>
        if v.VNone? {
          return Err(AttributeError);
        }
        return Ok(members[v.member]);
      case Object(cls) =>
        var data := GetData(cls.fields, v.attrs);
        return if data.Err? then Err(data.error) else Ok(RDict(data.value));
      case List(_, item) =>
        r := ListToRaw(item, Items(v));
      case _ =>
        return Ok(Plain(v));
    }
  }

  /** The comprehension of `List.to_raw`. */
  method ListToRaw(item: Field, values: seq<Value>) returns (r: Result<Raw, Error>)
    requires forall k :: 0 <= k < |values| ==> HasType(item, values[k])
    ensures r.Err? ==> r.error == AttributeError
    ensures r.Ok? <==> forall k :: 0 <= k < |values| ==> Serialisable(item, values[k])
    ensures r.Ok? ==> r.value == RList(RawItems(item, values))
    decreases item, 1
  {
    var raws: seq<Raw> := [];
    for i := 0 to |values|
      invariant |raws| == i
      invariant forall k :: 0 <= k < i ==> Serialisable(item, values[k]) && raws[k] == RawOf(item, values[k])
    {
      var raw := ToRaw(item, values[i]);
      if raw.Err? {
        return Err(raw.error);
      }
      raws := raws + [raw.value];
    }
    assert raws == RawItems(item, values);
    return Ok(RList(raws));
  }

  /** `Base._get_data`. */
  method GetData(fields: seq<FieldDef>, attrs: seq<Value>) returns (r: Result<seq<Entry>, Error>)
    requires Typed(fields, attrs)
    ensures r == if SerialisableAll(fields, attrs) then Ok(DataOf(fields, attrs)) else Err(AttributeError)
    decreases fields
  {
    var data: seq<Entry> := [];
    for i := 0 to |fields|
      invariant |data| == i
      invariant forall k :: 0 <= k < i ==>
        Serialisable(fields[k].kind, attrs[k]) && data[k] == Entry(Key(fields[k]), RawOf(fields[k].kind, attrs[k]))
    {
      var f := fields[i];
      var raw := ToRaw(f.kind, attrs[i]);
      if raw.Err? {
        return Err(raw.error);
      }
      if f.kind.Secret? {
        data := data + [Entry("__" + f.name, raw.value)];
      } else {
        data := data + [Entry(f.name, raw.value)];
      }
    }
    assert SerialisableAll(fields, attrs) && data == DataOf(fields, attrs);
    return Ok(data);
  }

  /** A new object of a class. */
  function Fresh(cls: Class): seq<Value> {
    seq(|cls.fields|, k requires 0 <= k < |cls.fields| => cls.fields[k].default)
  }

  function Lookup(entries: seq<Entry>, name: string): Option<Raw> {
    if entries == [] then None
    else if entries[|entries| - 1].name == name then Some(entries[|entries| - 1].value)
    else Lookup(entries[..|entries| - 1], name)
  }

  /** `from_raw`. */
  function FromRaw(kind: Field, raw: Raw, h: Host): Value
    decreases kind, 0
  {
    match kind
    case Integer(_) =>
      if raw.RStr? && h.parseInt(raw.s).Some? then VInt(h.parseInt(raw.s).value) else Kept(raw)
    case Boolean(_) =>
      if raw.RStr? then
        if h.folded(raw.s) in {"yes", "on", "true"} then VBool(true)
        else if h.folded(raw.s) in {"no", "off", "false"} then VBool(false)
        else VStr(h.folded(raw.s))
      else if raw.RInt? then VBool(raw.i != 0)
      else Kept(raw)
    case Enum(_, members) =>
      var m := MemberAt(members, raw, 0);
      if m.Some? then VEnum(m.value) else Kept(raw)
    case Object(cls) =>
      if raw.RDict? then VObject(SetData(cls.fields, Fresh(cls), raw.entries, h)) else Kept(raw)
    case List(_, item) =>
      if Falsy(raw) then VList([])
      else if raw.RList? then VList(FromItems(item, raw.items, h))
      else Kept(raw)
    case _ => Kept(raw)
  }

  function FromItems(item: Field, raws: seq<Raw>, h: Host): (r: seq<Value>)
    ensures |r| == |raws| && forall k :: 0 <= k < |raws| ==> r[k] == FromRaw(item, raws[k], h)
    decreases item, 1
  {
    seq(|raws|, k requires 0 <= k < |raws| => FromRaw(item, raws[k], h))
  }

  /** `Base._set_data`: fields named in the dict are set, the others stay. */
  function SetData(fields: seq<FieldDef>, attrs: seq<Value>, data: seq<Entry>, h: Host): (r: seq<Value>)
    requires |attrs| == |fields|
    ensures |r| == |fields|
    ensures forall k :: 0 <= k < |fields| ==> r[k] == SetField(fields[k], attrs[k], data, h)
    decreases fields, 1
  {
    seq(|fields|, k requires 0 <= k < |fields| => SetField(fields[k], attrs[k], data, h))
  }

  function SetField(f: FieldDef, current: Value, data: seq<Entry>, h: Host): Value
    decreases f
  {
    var raw := Lookup(data, f.name);
    if raw.Some? then FromRaw(f.kind, raw.value, h) else current
  }

  // ---------------------------------------------------------------------------------------
  // The store
  // ---------------------------------------------------------------------------------------

  predicate Hidden(name: string) { |name| >= 2 && name[0] == '_' && name[1] == '_' }

  /** `name.lstrip("__")`: every leading underscore goes. */
  function Unhidden(name: string): string {
    if name != "" && name[0] == '_' then Unhidden(name[1..]) else name
  }

  /** `d[name] = value` on an ordered dict. */
  function Put(entries: seq<Entry>, e: Entry): seq<Entry> {
    if entries == [] then [e]
    else if entries[0].name == e.name then [e] + entries[1..]
    else [entries[0]] + Put(entries[1..], e)
  }

  /** What becomes of one entry. */
  function ProcessedEntry(e: Entry, mode: Mode, h: Host): Result<Entry, Error>
    decreases e
  {
    if Hidden(e.name) && e.value != RNull then
      if !e.value.RStr? then Err(NotAString)
      else if mode == Encrypt then Ok(Entry(e.name, RStr(h.encrypt(e.value.s))))
      else
        var plain := h.decrypt(e.value.s);
        if plain.None? then Err(NotAnEncryption) else Ok(Entry(Unhidden(e.name), RStr(plain.value)))
    else if e.value.RDict? then
      var inner := Processed(e.value.entries, mode, h);
      if inner.Err? then Err(inner.error) else Ok(Entry(e.name, RDict(inner.value)))
    else Ok(e)
  }

  /** `_process_config`. */
  function Processed(config: seq<Entry>, mode: Mode, h: Host): Result<seq<Entry>, Error>
    decreases config
  {
    if config == [] then Ok([])
    else
      var before := Processed(config[..|config| - 1], mode, h);
      var last := ProcessedEntry(config[|config| - 1], mode, h);
      if before.Err? then before
      else if last.Err? then Err(last.error)
      else Ok(Put(before.value, last.value))
  }

  class EncryptedConfigStore {
    const host: Host
    var files: map<string, seq<Entry>>

    constructor (host: Host)
      ensures this.host == host && files == map[]
    {
      this.host, this.files := host, map[];
    }

    /** `_process_config`. */
    static method ProcessConfig(config: seq<Entry>, mode: Mode, h: Host) returns (r: Result<seq<Entry>, Error>)
      ensures r == Processed(config, mode, h)
      decreases config
    {
      var new_config: seq<Entry> := [];
      for i := 0 to |config|
        invariant Processed(config[..i], mode, h) == Ok(new_config)
      {
        ProcessedSnoc(config, i, mode, h);
        PrefixFails(config, i + 1, mode, h);
        var e := ProcessEntry(config[i], mode, h);
        if e.Err? {
          return Err(e.error);
        }
        new_config := Put(new_config, e.value);
      }
      assert config[..|config|] == config;
      return Ok(new_config);
    }

    /** One turn of its loop: the entry to be put into the new config. */
    static method ProcessEntry(e: Entry, mode: Mode, h: Host) returns (r: Result<Entry, Error>)
      ensures r == ProcessedEntry(e, mode, h)
      decreases e
    {
      var name, value := e.name, e.value;
      if Hidden(name) && value != RNull {
        if !value.RStr? {
          return Err(NotAString);
        }
        if mode == Decrypt {
          var plain := h.decrypt(value.s);
          return if plain.None? then Err(NotAnEncryption) else Ok(Entry(Unhidden(name), RStr(plain.value)));
        }
        return Ok(Entry(name, RStr(h.encrypt(value.s))));
      }
      if value.RDict? {
        var inner := ProcessConfig(value.entries, mode, h);
        return if inner.Err? then Err(inner.error) else Ok(Entry(name, RDict(inner.value)));
      }
      return Ok(Entry(name, value));
    }

    /** `save`: writes the encrypted config. */
    method Save(instance: string, config: seq<Entry>) returns (r: Result<(), Error>)
      modifies this
      ensures Processed(config, Encrypt, host).Ok? ==>
        r == Ok(()) && files == old(files)[instance := Processed(config, Encrypt, host).value]
      ensures Processed(config, Encrypt, host).Err? ==>
        r == Err(Processed(config, Encrypt, host).error) && files == old(files)
    {
      var new_config := ProcessConfig(config, Encrypt, host);
      if new_config.Err? {
        return Err(new_config.error);
      }
      files := files[instance := new_config.value];
      return Ok(());
    }

    /** `get`: reads a saved config and decrypts it. */
    method Get(instance: string) returns (r: Result<seq<Entry>, Error>)
      requires instance in files
      ensures r == Processed(files[instance], Decrypt, host)
    {
      r := ProcessConfig(files[instance], Decrypt, host);
    }
  }

  lemma ProcessedSnoc(config: seq<Entry>, i: nat, mode: Mode, h: Host)
    requires i < |config|
    ensures var before, last := Processed(config[..i], mode, h), ProcessedEntry(config[i], mode, h);
      Processed(config[..i + 1], mode, h) ==
        if before.Err? then before else if last.Err? then Err(last.error) else Ok(Put(before.value, last.value))
  {
    assert config[..i + 1][..i] == config[..i];
  }

  /** A failure in a prefix is the failure of the whole. */
  lemma {:induction false} PrefixFails(config: seq<Entry>, n: nat, mode: Mode, h: Host)
    requires n <= |config|
    ensures Processed(config[..n], mode, h).Err? ==> Processed(config, mode, h) == Processed(config[..n], mode, h)
    decreases |config|
  {
    if n < |config| {
      var front := config[..|config| - 1];
      assert front[..n] == config[..n];
      PrefixFails(front, n, mode, h);
    } else {
      assert config[..n] == config;
    }
  }

  /** A `Base` object: one attribute per field of its class. */
  class Base {
    const cls: Class
    var attrs: seq<Value>

    ghost predicate Valid()
      reads this
    {
      |attrs| == |cls.fields|
    }

    constructor (cls: Class)
      ensures this.cls == cls && Valid() && attrs == Fresh(cls)
    {
      this.cls, this.attrs := cls, Fresh(cls);
    }

    /** `_get_data` of this object. */
    method CollectData() returns (r: Result<seq<Entry>, Error>)
      requires Valid() && Typed(cls.fields, attrs)
      ensures r == if SerialisableAll(cls.fields, attrs) then Ok(DataOf(cls.fields, attrs)) else Err(AttributeError)
    {
      r := GetData(cls.fields, attrs);
    }

    /** `_set_data`. */
    method AssignData(data: seq<Entry>, h: Host)
      requires Valid()
      modifies this
      ensures Valid() && attrs == SetData(cls.fields, old(attrs), data, h)
    {
      for i := 0 to |cls.fields|
        invariant Valid()
        invariant forall k :: 0 <= k < i ==> attrs[k] == SetField(cls.fields[k], old(attrs)[k], data, h)
        invariant forall k :: i <= k < |attrs| ==> attrs[k] == old(attrs)[k]
      {
        var f := cls.fields[i];
        var raw := Lookup(data, f.name);
        if raw.Some? {
          attrs := attrs[i := FromRaw(f.kind, raw.value, h)];
        }
      }
    }
  }

  // ---------------------------------------------------------------------------------------
  // Theorems
  // ---------------------------------------------------------------------------------------

  /** Enum members have different values, none a dict, and field names differ and do not start with '_'. */
  ghost predicate WellFormed(kind: Field)
    decreases kind
  {
    match kind
    case Enum(_, members) =>
      (forall i, j :: 0 <= i < j < |members| ==> members[i] != members[j]) &&
      (forall i :: 0 <= i < |members| ==> !members[i].RDict?)
    case Object(cls) => WellFormedAll(cls.fields)
    case List(_, item) => WellFormed(item)
    case _ => true
  }

  ghost predicate WellFormedAll(fields: seq<FieldDef>)
    decreases fields
  {
    && (forall k :: 0 <= k < |fields| ==> WellFormed(fields[k].kind))
    && (forall k :: 0 <= k < |fields| ==> fields[k].name != "" ==> fields[k].name[0] != '_')
    && (forall i, j :: 0 <= i < j < |fields| ==> fields[i].name != fields[j].name)
  }

  ghost predicate DistinctNames(entries: seq<Entry>) {
    forall i, j :: 0 <= i < j < |entries| ==> entries[i].name != entries[j].name
  }

  lemma {:induction false} PutNew(entries: seq<Entry>, e: Entry)
    requires forall k :: 0 <= k < |entries| ==> entries[k].name != e.name
    ensures Put(entries, e) == entries + [e]
  {
    if entries != [] { PutNew(entries[1..], e); }
  }

  /** A config whose entries all come out under different names is processed entry by entry. */
  lemma {:induction false} ProcessedEach(config: seq<Entry>, out: seq<Entry>, mode: Mode, h: Host)
    requires |out| == |config| && DistinctNames(out)
    requires forall k :: 0 <= k < |config| ==> ProcessedEntry(config[k], mode, h) == Ok(out[k])
    ensures Processed(config, mode, h) == Ok(out)
    decreases |config|
  {
    if config != [] {
      var n := |config| - 1;
      ProcessedEach(config[..n], out[..n], mode, h);
      PutNew(out[..n], out[n]);
      assert out[..n] + [out[n]] == out;
    }
  }

  lemma {:induction false} LookupThere(entries: seq<Entry>, k: nat)
    requires k < |entries| && DistinctNames(entries)
    ensures Lookup(entries, entries[k].name) == Some(entries[k].value)
    decreases |entries|
  {
    if k < |entries| - 1 {
      LookupThere(entries[..|entries| - 1], k);
    }
  }

  lemma {:induction false} LookupMissing(entries: seq<Entry>, name: string)
    requires forall k :: 0 <= k < |entries| ==> entries[k].name != name
    ensures Lookup(entries, name) == None
  {
    if entries != [] { LookupMissing(entries[..|entries| - 1], name); }
  }

  /** The names whose values are encrypted begin with two underscores. */
  lemma HiddenExactly(name: string)
    ensures Hidden(name) <==> "__" <= name
  {
    if Hidden(name) { assert name[..2] == "__"; }
  }

  /** On loading all leading underscores go and nothing else. */
  lemma {:induction false} UnhiddenExactly(name: string) returns (k: nat)
    ensures k <= |name| && Unhidden(name) == name[k..]
    ensures forall i :: 0 <= i < k ==> name[i] == '_'
    ensures k < |name| ==> name[k] != '_'
  {
    k := 0;
    if name != "" && name[0] == '_' {
      var more := UnhiddenExactly(name[1..]);
      k := more + 1;
    }
  }

  lemma HiddenNames(name: string)
    requires name != "" ==> name[0] != '_'
    ensures !Hidden(name) && Hidden("__" + name) && Unhidden("__" + name) == name
  {
    assert ("__" + name)[1..] == "_" + name;
    assert ("_" + name)[1..] == name;
    assert Unhidden("_" + name) == Unhidden(name) == name;
  }

  // -- what is on disk, and what decrypting it gives

  function CipherRaw(kind: Field, v: Value, h: Host): Raw
    requires HasType(kind, v) && Serialisable(kind, v)
    decreases kind
  {
    if kind.Object? then RDict(CipherData(kind.cls.fields, v.attrs, h)) else RawOf(kind, v)
  }

  function CipherData(fields: seq<FieldDef>, attrs: seq<Value>, h: Host): (r: seq<Entry>)
    requires Typed(fields, attrs) && SerialisableAll(fields, attrs)
    ensures |r| == |fields|
    ensures forall k :: 0 <= k < |fields| ==> r[k] == CipherEntry(fields[k], attrs[k], h)
    decreases fields, 1
  {
    seq(|fields|, k requires 0 <= k < |fields| => CipherEntry(fields[k], attrs[k], h))
  }

  function CipherEntry(f: FieldDef, v: Value, h: Host): Entry
    requires HasType(f.kind, v) && Serialisable(f.kind, v)
    decreases f
  {
    if f.kind.Secret? then Entry("__" + f.name, if v.VStr? then RStr(h.encrypt(v.s)) else RNull)
    else Entry(f.name, CipherRaw(f.kind, v, h))
  }

  function PlainRaw(kind: Field, v: Value): Raw
    requires HasType(kind, v) && Serialisable(kind, v)
    decreases kind
  {
    if kind.Object? then RDict(PlainData(kind.cls.fields, v.attrs)) else RawOf(kind, v)
  }

  function PlainData(fields: seq<FieldDef>, attrs: seq<Value>): (r: seq<Entry>)
    requires Typed(fields, attrs) && SerialisableAll(fields, attrs)
    ensures |r| == |fields|
    ensures forall k :: 0 <= k < |fields| ==> r[k] == PlainEntry(fields[k], attrs[k])
    decreases fields, 1
  {
    seq(|fields|, k requires 0 <= k < |fields| => PlainEntry(fields[k], attrs[k]))
  }

  function PlainEntry(f: FieldDef, v: Value): Entry
    requires HasType(f.kind, v) && Serialisable(f.kind, v)
    decreases f
  {
    if f.kind.Secret? && v.VNone? then Entry("__" + f.name, RNull) else Entry(f.name, PlainRaw(f.kind, v))
  }

  lemma KeysDistinct(fields: seq<FieldDef>, attrs: seq<Value>, h: Host)
    requires WellFormedAll(fields) && Typed(fields, attrs) && SerialisableAll(fields, attrs)
    ensures DistinctNames(DataOf(fields, attrs))
    ensures DistinctNames(CipherData(fields, attrs, h))
    ensures DistinctNames(PlainData(fields, attrs))
  {
    forall i, j | 0 <= i < j < |fields|
      ensures fields[i].name != fields[j].name && "__" + fields[i].name != "__" + fields[j].name
      ensures fields[i].name != "__" + fields[j].name && "__" + fields[i].name != fields[j].name
    {
      assert ("__" + fields[i].name)[2..] == fields[i].name && ("__" + fields[j].name)[2..] == fields[j].name;
    }
  }

  /** Only objects turn into dicts. */
  lemma NotADict(kind: Field, v: Value)
    requires WellFormed(kind) && HasType(kind, v) && Serialisable(kind, v)
    ensures !kind.Object? ==> !RawOf(kind, v).RDict?
  {}

  lemma EncryptEntry(f: FieldDef, v: Value, h: Host)
    requires WellFormed(f.kind) && HasType(f.kind, v) && Serialisable(f.kind, v) && (f.name != "" ==> f.name[0] != '_')
    requires f.kind.Object? ==>
      Processed(DataOf(f.kind.cls.fields, v.attrs), Encrypt, h) == Ok(CipherData(f.kind.cls.fields, v.attrs, h))
    ensures ProcessedEntry(Entry(Key(f), RawOf(f.kind, v)), Encrypt, h) == Ok(CipherEntry(f, v, h))
  {
    HiddenNames(f.name);
    NotADict(f.kind, v);
    if f.kind.Object? {
      assert RawOf(f.kind, v) == RDict(DataOf(f.kind.cls.fields, v.attrs));
      assert CipherRaw(f.kind, v, h) == RDict(CipherData(f.kind.cls.fields, v.attrs, h));
    }
  }

  lemma DecryptEntry(f: FieldDef, v: Value, h: Host)
    requires WellFormed(f.kind) && HasType(f.kind, v) && Serialisable(f.kind, v)
    requires (f.name != "" ==> f.name[0] != '_') && Decrypts(h)
    requires f.kind.Object? ==>
      Processed(CipherData(f.kind.cls.fields, v.attrs, h), Decrypt, h) == Ok(PlainData(f.kind.cls.fields, v.attrs))
    ensures ProcessedEntry(CipherEntry(f, v, h), Decrypt, h) == Ok(PlainEntry(f, v))
  {
    HiddenNames(f.name);
    NotADict(f.kind, v);
    if f.kind.Object? {
      assert CipherRaw(f.kind, v, h) == RDict(CipherData(f.kind.cls.fields, v.attrs, h));
      assert PlainRaw(f.kind, v) == RDict(PlainData(f.kind.cls.fields, v.attrs));
    }
  }

  /** Saving encrypts exactly the secrets that are set. */
  lemma {:induction false} EncryptData(fields: seq<FieldDef>, attrs: seq<Value>, h: Host)
    requires WellFormedAll(fields) && Typed(fields, attrs) && SerialisableAll(fields, attrs)
    ensures Processed(DataOf(fields, attrs), Encrypt, h) == Ok(CipherData(fields, attrs, h))
    decreases fields
  {
    var data, out := DataOf(fields, attrs), CipherData(fields, attrs, h);
    KeysDistinct(fields, attrs, h);
    forall k | 0 <= k < |data| ensures ProcessedEntry(data[k], Encrypt, h) == Ok(out[k]) {
      if fields[k].kind.Object? { EncryptData(fields[k].kind.cls.fields, attrs[k].attrs, h); }
      EncryptEntry(fields[k], attrs[k], h);
    }
    ProcessedEach(data, out, Encrypt, h);
  }

  /** Loading decrypts them and gives them their names back. */
  lemma {:induction false} DecryptData(fields: seq<FieldDef>, attrs: seq<Value>, h: Host)
    requires WellFormedAll(fields) && Typed(fields, attrs) && SerialisableAll(fields, attrs) && Decrypts(h)
    ensures Processed(CipherData(fields, attrs, h), Decrypt, h) == Ok(PlainData(fields, attrs))
    decreases fields
  {
    var data, out := CipherData(fields, attrs, h), PlainData(fields, attrs);
    KeysDistinct(fields, attrs, h);
    forall k | 0 <= k < |data| ensures ProcessedEntry(data[k], Decrypt, h) == Ok(out[k]) {
      if fields[k].kind.Object? { DecryptData(fields[k].kind.cls.fields, attrs[k].attrs, h); }
      DecryptEntry(fields[k], attrs[k], h);
    }
    ProcessedEach(data, out, Decrypt, h);
  }

  // -- what comes back

  /** A value as loading restores it: a secret that was None takes its default, a list that was None
      is empty, and objects inside lists come back by `from_raw` alone, their secrets lost. */
  function Restored(kind: Field, v: Value): Value
    requires HasType(kind, v)
    decreases kind
  {
    match kind
    case Object(cls) => VObject(RestoredAll(cls.fields, v.attrs))
    case List(_, item) => VList(ListedItems(item, Items(v)))
    case _ => v
  }

  function RestoredAll(fields: seq<FieldDef>, attrs: seq<Value>): (r: seq<Value>)
    requires Typed(fields, attrs)
    ensures |r| == |fields|
    decreases fields
  {
    seq(|fields|, k requires 0 <= k < |fields| =>
      if fields[k].kind.Secret? && attrs[k].VNone? then fields[k].default else Restored(fields[k].kind, attrs[k]))
  }

  function ListedItems(item: Field, items: seq<Value>): (r: seq<Value>)
    requires forall k :: 0 <= k < |items| ==> HasType(item, items[k])
    ensures |r| == |items| && forall k :: 0 <= k < |items| ==> r[k] == Listed(item, items[k])
    decreases item, 1
  {
    seq(|items|, k requires 0 <= k < |items| => Listed(item, items[k]))
  }

  function Listed(kind: Field, v: Value): Value
    requires HasType(kind, v)
    decreases kind, 0
  {
    match kind
    case Object(cls) => VObject(ListedAll(cls.fields, v.attrs))
    case List(_, item) => VList(ListedItems(item, Items(v)))
    case _ => v
  }

  function ListedAll(fields: seq<FieldDef>, attrs: seq<Value>): (r: seq<Value>)
    requires Typed(fields, attrs)
    ensures |r| == |fields|
    decreases fields
  {
    seq(|fields|, k requires 0 <= k < |fields| =>
      if fields[k].kind.Secret? then fields[k].default else Listed(fields[k].kind, attrs[k]))
  }

  lemma {:induction false} MemberFound(members: seq<Raw>, m: nat, k: nat)
    requires k <= m < |members| && forall i, j :: 0 <= i < j < |members| ==> members[i] != members[j]
    ensures MemberAt(members, members[m], k) == Some(m)
    decreases m - k
  {
    if k < m { MemberFound(members, m, k + 1); }
  }

  /** `from_raw` after `to_raw`. */
  lemma {:induction false} FromToRaw(kind: Field, v: Value, h: Host)
    requires WellFormed(kind) && HasType(kind, v) && Serialisable(kind, v)
    ensures FromRaw(kind, RawOf(kind, v), h) == Listed(kind, v)
    decreases kind, 0
  {
    match kind
    case Enum(_, members) => MemberFound(members, v.member, 0);
    case Object(cls) =>
      FromGetData(cls, v.attrs, h);
      assert RawOf(kind, v) == RDict(DataOf(cls.fields, v.attrs));
      assert Listed(kind, v) == VObject(ListedAll(cls.fields, v.attrs));
    case List(_, item) =>
      FromRawItems(item, Items(v), h);
      assert RawOf(kind, v) == RList(RawItems(item, Items(v)));
      assert Listed(kind, v) == VList(ListedItems(item, Items(v)));
      if Items(v) == [] { assert RawItems(item, Items(v)) == [] && ListedItems(item, Items(v)) == []; }
    case _ =>
  }

  lemma {:induction false} FromRawItems(item: Field, items: seq<Value>, h: Host)
    requires WellFormed(item)
    requires forall k :: 0 <= k < |items| ==> HasType(item, items[k]) && Serialisable(item, items[k])
    ensures FromItems(item, RawItems(item, items), h) == ListedItems(item, items)
    decreases item, 1
  {
    forall k | 0 <= k < |items| ensures FromRaw(item, RawOf(item, items[k]), h) == Listed(item, items[k]) {
      FromToRaw(item, items[k], h);
    }
  }

  lemma {:induction false} FromGetData(cls: Class, attrs: seq<Value>, h: Host)
    requires WellFormedAll(cls.fields) && Typed(cls.fields, attrs) && SerialisableAll(cls.fields, attrs)
    ensures VObject(SetData(cls.fields, Fresh(cls), DataOf(cls.fields, attrs), h))
         == VObject(ListedAll(cls.fields, attrs))
    decreases cls
  {
    var fields, data := cls.fields, DataOf(cls.fields, attrs);
    KeysDistinct(fields, attrs, h);
    var r := SetData(fields, Fresh(cls), data, h);
    var goal := ListedAll(cls.fields, attrs);
    forall k | 0 <= k < |fields| ensures r[k] == goal[k] {
      var f := fields[k];
      if f.kind.Secret? {
        NameUnused(fields, attrs, k);
      } else {
        LookupThere(data, k);
        FromToRaw(f.kind, attrs[k], h);
      }
    }
    assert r == goal;
  }

  /** Nothing is saved under the bare name of a secret. */
  lemma NameUnused(fields: seq<FieldDef>, attrs: seq<Value>, k: nat)
    requires WellFormedAll(fields) && Typed(fields, attrs) && SerialisableAll(fields, attrs)
    requires k < |fields| && fields[k].kind.Secret?
    ensures Lookup(DataOf(fields, attrs), fields[k].name) == None
    ensures attrs[k].VNone? ==> Lookup(PlainData(fields, attrs), fields[k].name) == None
  {
    var data, plain, name := DataOf(fields, attrs), PlainData(fields, attrs), fields[k].name;
    forall j | 0 <= j < |fields| ensures data[j].name != name && (attrs[k].VNone? ==> plain[j].name != name) {
      assert j < k ==> fields[j].name != name;
      assert k < j ==> fields[j].name != name;
      assert name == "" || name[0] != ("__" + fields[j].name)[0];
    }
    LookupMissing(data, name);
    if attrs[k].VNone? { LookupMissing(plain, name); }
  }

  lemma RestoredScalar(kind: Field, v: Value)
    requires HasType(kind, v) && Serialisable(kind, v) && !kind.Object?
    ensures Restored(kind, v) == Listed(kind, v) && PlainRaw(kind, v) == RawOf(kind, v)
  {
    if kind.List? { assert Restored(kind, v).items == Listed(kind, v).items; }
  }

  /** Filling a new object with the loaded data. */
  lemma {:induction false} FromPlainData(cls: Class, attrs: seq<Value>, h: Host)
    requires WellFormedAll(cls.fields) && Typed(cls.fields, attrs) && SerialisableAll(cls.fields, attrs)
    ensures VObject(SetData(cls.fields, Fresh(cls), PlainData(cls.fields, attrs), h))
         == VObject(RestoredAll(cls.fields, attrs))
    decreases cls
  {
    var fields, data := cls.fields, PlainData(cls.fields, attrs);
    KeysDistinct(fields, attrs, h);
    var r := SetData(fields, Fresh(cls), data, h);
    var goal := RestoredAll(cls.fields, attrs);
    forall k | 0 <= k < |fields| ensures r[k] == goal[k] {
      var f, v := fields[k], attrs[k];
      if f.kind.Secret? && v.VNone? {
        NameUnused(fields, attrs, k);
        assert r[k] == f.default == goal[k];
      } else {
        LookupThere(data, k);
        assert data[k] == Entry(f.name, PlainRaw(f.kind, v));
        assert r[k] == FromRaw(f.kind, PlainRaw(f.kind, v), h);
        assert goal[k] == Restored(f.kind, v);
        if f.kind.Object? {
          FromPlainData(f.kind.cls, v.attrs, h);
          assert PlainRaw(f.kind, v) == RDict(PlainData(f.kind.cls.fields, v.attrs));
        } else {
          FromToRaw(f.kind, v, h);
          RestoredScalar(f.kind, v);
        }
      }
    }
    assert r == goal;
  }

  // -- when that is the original

  /** No secret is None unless None is its default, no list is None, and secrets of listed objects
      have their default. */
  predicate Safe(kind: Field, v: Value)
    requires HasType(kind, v)
    decreases kind
  {
    match kind
    case Object(cls) => SafeAll(cls.fields, v.attrs)
    case List(_, item) => v.VList? && forall k :: 0 <= k < |v.items| ==> SafeListed(item, v.items[k])
    case _ => true
  }

  predicate SafeAll(fields: seq<FieldDef>, attrs: seq<Value>)
    requires Typed(fields, attrs)
    decreases fields
  {
    forall k :: 0 <= k < |fields| ==>
      if fields[k].kind.Secret? then (attrs[k].VNone? ==> fields[k].default == VNone)
      else Safe(fields[k].kind, attrs[k])
  }

  predicate SafeListed(kind: Field, v: Value)
    requires HasType(kind, v)
    decreases kind
  {
    match kind
    case Object(cls) => SafeListedAll(cls.fields, v.attrs)
    case List(_, item) => v.VList? && forall k :: 0 <= k < |v.items| ==> SafeListed(item, v.items[k])
    case _ => true
  }

  predicate SafeListedAll(fields: seq<FieldDef>, attrs: seq<Value>)
    requires Typed(fields, attrs)
    decreases fields
  {
    forall k :: 0 <= k < |fields| ==>
      if fields[k].kind.Secret? then attrs[k] == fields[k].default else SafeListed(fields[k].kind, attrs[k])
  }

  lemma {:induction false} ListedIsSame(kind: Field, v: Value)
    requires HasType(kind, v)
    ensures Listed(kind, v) == v <==> SafeListed(kind, v)
    decreases kind, 0
  {
    match kind
    case Object(cls) => ListedAllSame(cls.fields, v.attrs);
    case List(_, item) => ListedItemsSame(item, Items(v));
    case _ =>
  }

  lemma {:induction false} ListedAllSame(fields: seq<FieldDef>, attrs: seq<Value>)
    requires Typed(fields, attrs)
    ensures ListedAll(fields, attrs) == attrs <==> SafeListedAll(fields, attrs)
    decreases fields, 0
  {
    forall k | 0 <= k < |fields|
      ensures Listed(fields[k].kind, attrs[k]) == attrs[k] <==> SafeListed(fields[k].kind, attrs[k])
    {
      ListedIsSame(fields[k].kind, attrs[k]);
    }
    var r := ListedAll(fields, attrs);
    assert r == attrs <==> forall k :: 0 <= k < |fields| ==> r[k] == attrs[k];
  }

  lemma {:induction false} ListedItemsSame(item: Field, items: seq<Value>)
    requires forall k :: 0 <= k < |items| ==> HasType(item, items[k])
    ensures ListedItems(item, items) == items <==> forall k :: 0 <= k < |items| ==> SafeListed(item, items[k])
    decreases item, 1
  {
    var r := ListedItems(item, items);
    forall k | 0 <= k < |items| ensures r[k] == items[k] <==> SafeListed(item, items[k]) {
      ListedIsSame(item, items[k]);
    }
    assert r == items <==> forall k :: 0 <= k < |items| ==> r[k] == items[k];
  }

  lemma {:induction false} RestoredIsSame(kind: Field, v: Value)
    requires HasType(kind, v)
    ensures Restored(kind, v) == v <==> Safe(kind, v)
    decreases kind
  {
    match kind
    case Object(cls) => RestoredAllSame(cls.fields, v.attrs);
    case List(_, item) => ListedItemsSame(item, Items(v));
    case _ =>
  }

  lemma {:induction false} RestoredAllSame(fields: seq<FieldDef>, attrs: seq<Value>)
    requires Typed(fields, attrs)
    ensures RestoredAll(fields, attrs) == attrs <==> SafeAll(fields, attrs)
    decreases fields
  {
    forall k | 0 <= k < |fields|
      ensures Restored(fields[k].kind, attrs[k]) == attrs[k] <==> Safe(fields[k].kind, attrs[k])
    {
      RestoredIsSame(fields[k].kind, attrs[k]);
    }
    var r := RestoredAll(fields, attrs);
    assert r == attrs <==> forall k :: 0 <= k < |fields| ==> r[k] == attrs[k];
  }

  /** What a new object of the class holds after the data of `attrs` was saved and loaded. */
  function SavedAndLoaded(cls: Class, attrs: seq<Value>, h: Host): Result<seq<Value>, Error>
    requires Typed(cls.fields, attrs)
  {
    if !SerialisableAll(cls.fields, attrs) then Err(AttributeError)
    else
      var saved := Processed(DataOf(cls.fields, attrs), Encrypt, h);
      if saved.Err? then Err(saved.error)
      else
        var loaded := Processed(saved.value, Decrypt, h);
        if loaded.Err? then Err(loaded.error) else Ok(SetData(cls.fields, Fresh(cls), loaded.value, h))
  }

  /** Saving and loading a validated object fails exactly when an enum in it is None, at any depth or
      in a list, and restores every attribute exactly when, besides, the object is safe. */
  lemma SaveLoad(cls: Class, attrs: seq<Value>, h: Host)
    requires WellFormedAll(cls.fields) && Typed(cls.fields, attrs) && Decrypts(h)
    ensures SavedAndLoaded(cls, attrs, h).Ok? <==> SerialisableAll(cls.fields, attrs)
    ensures SavedAndLoaded(cls, attrs, h).Err? ==> SavedAndLoaded(cls, attrs, h) == Err(AttributeError)
    ensures SavedAndLoaded(cls, attrs, h) == Ok(attrs)
       <==> SerialisableAll(cls.fields, attrs) && SafeAll(cls.fields, attrs)
  {
    if SerialisableAll(cls.fields, attrs) {
      EncryptData(cls.fields, attrs, h);
      DecryptData(cls.fields, attrs, h);
      FromPlainData(cls, attrs, h);
      RestoredAllSame(cls.fields, attrs);
    }
  }

  /** A class with an enum that need not be set: the object with None there is validated, and saving
      it fails. */
  lemma NoneEnumFails(cls: Class, attrs: seq<Value>, k: nat, h: Host)
    requires k < |cls.fields| && cls.fields[k].kind.Enum? && !cls.fields[k].kind.required
    requires Typed(cls.fields, attrs)
    ensures Typed(cls.fields, attrs[k := VNone])
    ensures SavedAndLoaded(cls, attrs[k := VNone], h) == Err(AttributeError)
  {
    var fields, more := cls.fields, attrs[k := VNone];
    forall j | 0 <= j < |fields| ensures HasType(fields[j].kind, more[j]) {}
    assert !Serialisable(fields[k].kind, more[k]);
  }

  // -- which classes are always restored

  /** A list item whose every value comes back: no secrets in objects, and enums and lists required. */
  predicate SafeItem(kind: Field)
    decreases kind
  {
    match kind
    case Enum(required, _) => required
    case Object(cls) =>
      forall k :: 0 <= k < |cls.fields| ==> !cls.fields[k].kind.Secret? && SafeItem(cls.fields[k].kind)
    case List(required, item) => required && SafeItem(item)
    case _ => true
  }

  /** Secrets outside lists have the default None or are required; so are enums and lists; list items
      are safe. */
  predicate SafeClass(fields: seq<FieldDef>)
    decreases fields
  {
    forall k :: 0 <= k < |fields| ==>
      match fields[k].kind
      case Secret(required) => required || fields[k].default == VNone
      case Enum(required, _) => required
      case Object(cls) => SafeClass(cls.fields)
      case List(required, item) => required && SafeItem(item)
      case _ => true
  }

  /** Every enum has a member. */
  predicate Inhabited(kind: Field)
    decreases kind
  {
    match kind
    case Enum(_, members) => members != []
    case Object(cls) => forall k :: 0 <= k < |cls.fields| ==> Inhabited(cls.fields[k].kind)
    case List(_, item) => Inhabited(item)
    case _ => true
  }

  function Sample(kind: Field): (v: Value)
    requires Inhabited(kind)
    ensures HasType(kind, v) && Serialisable(kind, v)
    decreases kind
  {
    match kind
    case Enum(_, _) => VEnum(0)
    case Object(cls) => VObject(SampleAll(cls.fields))
    case List(_, _) => VList([])
    case Integer(_) => VInt(0)
    case Boolean(_) => VBool(false)
    case _ => VStr("sample")
  }

  function SampleAll(fields: seq<FieldDef>): (attrs: seq<Value>)
    requires forall k :: 0 <= k < |fields| ==> Inhabited(fields[k].kind)
    ensures Typed(fields, attrs) && SerialisableAll(fields, attrs)
    ensures forall k :: 0 <= k < |fields| ==> attrs[k] == Sample(fields[k].kind)
    decreases fields
  {
    seq(|fields|, k requires 0 <= k < |fields| => Sample(fields[k].kind))
  }

  lemma {:induction false} SafeItemIsSafe(kind: Field, v: Value)
    requires SafeItem(kind) && HasType(kind, v)
    ensures Serialisable(kind, v) && SafeListed(kind, v)
    decreases kind
  {
    match kind
    case Object(cls) =>
      forall k | 0 <= k < |cls.fields|
        ensures Serialisable(cls.fields[k].kind, v.attrs[k]) && SafeListed(cls.fields[k].kind, v.attrs[k])
      {
        SafeItemIsSafe(cls.fields[k].kind, v.attrs[k]);
      }
      assert SafeListedAll(cls.fields, v.attrs);
    case List(_, item) =>
      forall k | 0 <= k < |v.items| ensures Serialisable(item, v.items[k]) && SafeListed(item, v.items[k]) {
        SafeItemIsSafe(item, v.items[k]);
      }
    case _ =>
  }

  lemma {:induction false} SafeClassIsSafe(fields: seq<FieldDef>, attrs: seq<Value>)
    requires SafeClass(fields) && Typed(fields, attrs)
    ensures SerialisableAll(fields, attrs) && SafeAll(fields, attrs)
    decreases fields
  {
    forall k | 0 <= k < |fields|
      ensures Serialisable(fields[k].kind, attrs[k])
      ensures !fields[k].kind.Secret? ==> Safe(fields[k].kind, attrs[k])
    {
      match fields[k].kind
      case Object(cls) => SafeClassIsSafe(cls.fields, attrs[k].attrs);
      case List(_, item) =>
        forall j | 0 <= j < |attrs[k].items|
          ensures Serialisable(item, attrs[k].items[j]) && SafeListed(item, attrs[k].items[j])
        {
          SafeItemIsSafe(item, attrs[k].items[j]);
        }
      case _ =>
    }
  }

  /** A listed value that does not come back. */
  lemma {:induction false} LosingListed(kind: Field) returns (v: Value)
    requires !SafeItem(kind) && Inhabited(kind)
    ensures HasType(kind, v) && !(Serialisable(kind, v) && SafeListed(kind, v))
    decreases kind
  {
    match kind
    case Enum(_, _) => v := VNone;
    case Object(cls) =>
      var fields := cls.fields;
      var k :| 0 <= k < |fields| && (fields[k].kind.Secret? || !SafeItem(fields[k].kind));
      var bad;
      if fields[k].kind.Secret? {
        bad := if fields[k].default == VStr("") then VStr("x") else VStr("");
      } else {
        bad := LosingListed(fields[k].kind);
      }
      var attrs := SampleAll(fields)[k := bad];
      forall j | 0 <= j < |fields| ensures HasType(fields[j].kind, attrs[j]) {}
      assert attrs[k] == bad && !(SerialisableAll(fields, attrs) && SafeListedAll(fields, attrs));
      v := VObject(attrs);
    case List(required, item) =>
      v := VNone;
      if required {
        var bad := LosingListed(item);
        v := VList([bad]);
        assert v.items[0] == bad && Items(v)[0] == bad;
      }
    case _ =>
  }

  /** An object of an unsafe class that does not survive. */
  lemma {:induction false} LosingObject(fields: seq<FieldDef>) returns (attrs: seq<Value>)
    requires !SafeClass(fields) && forall k :: 0 <= k < |fields| ==> Inhabited(fields[k].kind)
    ensures Typed(fields, attrs) && !(SerialisableAll(fields, attrs) && SafeAll(fields, attrs))
    decreases fields
  {
    var k :| 0 <= k < |fields| && !(match fields[k].kind
      case Secret(required) => required || fields[k].default == VNone
      case Enum(required, _) => required
      case Object(cls) => SafeClass(cls.fields)
      case List(required, item) => required && SafeItem(item)
      case _ => true);
    var bad := VNone;
    match fields[k].kind {
      case Object(cls) =>
        var inner := LosingObject(cls.fields);
        bad := VObject(inner);
      case List(required, item) =>
        if required {
          var lost := LosingListed(item);
          bad := VList([lost]);
          assert bad.items[0] == lost && Items(bad)[0] == lost;
        }
      case _ =>
    }
    attrs := SampleAll(fields)[k := bad];
    forall j | 0 <= j < |fields| ensures HasType(fields[j].kind, attrs[j]) {}
    assert attrs[k] == bad;
  }

  /** Every object of a class survives saving and loading exactly when the class is safe. */
  lemma AlwaysRestored(cls: Class, h: Host)
    requires WellFormedAll(cls.fields) && Decrypts(h)
    requires forall k :: 0 <= k < |cls.fields| ==> Inhabited(cls.fields[k].kind)
    ensures (forall attrs | Typed(cls.fields, attrs) :: SavedAndLoaded(cls, attrs, h) == Ok(attrs))
       <==> SafeClass(cls.fields)
  {
    if SafeClass(cls.fields) {
      forall attrs | Typed(cls.fields, attrs) ensures SavedAndLoaded(cls, attrs, h) == Ok(attrs) {
        SaveLoad(cls, attrs, h);
        SafeClassIsSafe(cls.fields, attrs);
      }
    } else {
      var attrs := LosingObject(cls.fields);
      SaveLoad(cls, attrs, h);
    }
  }

  // -- what a saved file hides

  /** The values differ at most in the texts of secrets that are set, and there the one host's
      ciphertext is the other's. */
  predicate Alike(kind: Field, v: Value, w: Value, g: Host, h: Host)
    requires HasType(kind, v) && HasType(kind, w)
    decreases kind
  {
    match kind
    case Secret(_) => v == w == VNone || (v.VStr? && w.VStr? && g.encrypt(v.s) == h.encrypt(w.s))
    case Object(cls) => AlikeAll(cls.fields, v.attrs, w.attrs, g, h)
    case List(_, item) =>
      (v.VList? <==> w.VList?) && |Items(v)| == |Items(w)| &&
      forall k :: 0 <= k < |Items(v)| ==> Alike(item, Items(v)[k], Items(w)[k], g, h)
    case _ => v == w
  }

  predicate AlikeAll(fields: seq<FieldDef>, a: seq<Value>, b: seq<Value>, g: Host, h: Host)
    requires Typed(fields, a) && Typed(fields, b)
    decreases fields
  {
    forall k :: 0 <= k < |fields| ==> Alike(fields[k].kind, a[k], b[k], g, h)
  }

  /** No secret in the values of a list item. */
  predicate Secretless(kind: Field)
    decreases kind
  {
    match kind
    case Secret(_) => false
    case Object(cls) => forall k :: 0 <= k < |cls.fields| ==> Secretless(cls.fields[k].kind)
    case List(_, item) => Secretless(item)
    case _ => true
  }

  /** No secret in any list. */
  predicate Covered(fields: seq<FieldDef>)
    decreases fields
  {
    forall k :: 0 <= k < |fields| ==> CoveredKind(fields[k].kind)
  }

  predicate CoveredKind(kind: Field)
    decreases kind
  {
    match kind
    case Object(cls) => Covered(cls.fields)
    case List(_, item) => Secretless(item)
    case _ => true
  }

  lemma {:induction false} SecretlessSame(kind: Field, v: Value, w: Value, g: Host, h: Host)
    requires Secretless(kind) && HasType(kind, v) && HasType(kind, w) && Alike(kind, v, w, g, h)
    ensures v == w
    decreases kind
  {
    match kind
    case Object(cls) =>
      forall k | 0 <= k < |cls.fields| ensures v.attrs[k] == w.attrs[k] {
        SecretlessSame(cls.fields[k].kind, v.attrs[k], w.attrs[k], g, h);
      }
      assert v.attrs == w.attrs;
    case List(_, item) =>
      forall k | 0 <= k < |Items(v)| ensures Items(v)[k] == Items(w)[k] {
        SecretlessSame(item, Items(v)[k], Items(w)[k], g, h);
      }
      assert Items(v) == Items(w);
    case _ =>
  }

  /** Outside lists, what is written shows nothing of a secret but its ciphertext. */
  lemma {:induction false} SecretsHidden(fields: seq<FieldDef>, a: seq<Value>, b: seq<Value>, g: Host, h: Host)
    requires Covered(fields) && Typed(fields, a) && SerialisableAll(fields, a)
    requires Typed(fields, b) && SerialisableAll(fields, b) && AlikeAll(fields, a, b, g, h)
    ensures CipherData(fields, a, g) == CipherData(fields, b, h)
    decreases fields
  {
    forall k | 0 <= k < |fields| ensures CipherEntry(fields[k], a[k], g) == CipherEntry(fields[k], b[k], h) {
      assert HasType(fields[k].kind, a[k]) && HasType(fields[k].kind, b[k]);
      assert Alike(fields[k].kind, a[k], b[k], g, h);
      match fields[k].kind
      case Object(cls) => SecretsHidden(cls.fields, a[k].attrs, b[k].attrs, g, h);
      case List(_, item) => SecretlessSame(fields[k].kind, a[k], b[k], g, h);
      case _ =>
    }
  }

  /** Two objects of a class that can be saved, alike but for their secrets. */
  predicate Indistinct(fields: seq<FieldDef>, a: seq<Value>, b: seq<Value>, g: Host, h: Host) {
    && Typed(fields, a) && SerialisableAll(fields, a)
    && Typed(fields, b) && SerialisableAll(fields, b)
    && AlikeAll(fields, a, b, g, h)
  }

  /** Two hosts that decrypt what they encrypt: one leaves texts alone, one exchanges "" and "x". */
  function Plainly(): Host { Host((s: string) => s, (s: string) => Some(s), (s: string) => None, (s: string) => s) }

  function Exchanged(s: string): string { if s == "" then "x" else if s == "x" then "" else s }

  function Exchanging(): Host {
    Host(Exchanged, (s: string) => Some(Exchanged(s)), (s: string) => None, (s: string) => s)
  }

  lemma {:induction false} SampleAlike(kind: Field)
    requires Inhabited(kind)
    ensures Alike(kind, Sample(kind), Sample(kind), Plainly(), Exchanging())
    decreases kind
  {
    if kind.Object? {
      forall k | 0 <= k < |kind.cls.fields|
        ensures var s := Sample(kind.cls.fields[k].kind); Alike(kind.cls.fields[k].kind, s, s, Plainly(), Exchanging())
      {
        SampleAlike(kind.cls.fields[k].kind);
      }
    }
  }

  /** Samples of a class, different at one field. */
  lemma SamplesBut(fields: seq<FieldDef>, k: nat, v: Value, w: Value) returns (a: seq<Value>, b: seq<Value>)
    requires k < |fields| && forall j :: 0 <= j < |fields| ==> Inhabited(fields[j].kind)
    requires HasType(fields[k].kind, v) && HasType(fields[k].kind, w)
    requires Serialisable(fields[k].kind, v) && Serialisable(fields[k].kind, w)
    requires Alike(fields[k].kind, v, w, Plainly(), Exchanging())
    ensures Indistinct(fields, a, b, Plainly(), Exchanging())
    ensures |a| == |b| == |fields| && a[k] == v && b[k] == w
  {
    a, b := SampleAll(fields)[k := v], SampleAll(fields)[k := w];
    forall j | 0 <= j < |fields|
      ensures HasType(fields[j].kind, a[j]) && HasType(fields[j].kind, b[j])
      ensures Serialisable(fields[j].kind, a[j]) && Serialisable(fields[j].kind, b[j])
      ensures Alike(fields[j].kind, a[j], b[j], Plainly(), Exchanging())
    {
      SampleAlike(fields[j].kind);
    }
  }

  /** A secret in a list item shows in its raw data. */
  lemma {:induction false} LeakingItem(kind: Field) returns (v: Value, w: Value)
    requires !Secretless(kind) && Inhabited(kind)
    ensures HasType(kind, v) && HasType(kind, w) && Serialisable(kind, v) && Serialisable(kind, w)
    ensures Alike(kind, v, w, Plainly(), Exchanging()) && RawOf(kind, v) != RawOf(kind, w)
    decreases kind
  {
    match kind
    case Secret(_) => v, w := VStr(""), VStr("x");
    case Object(cls) =>
      var fields := cls.fields;
      var k :| 0 <= k < |fields| && !Secretless(fields[k].kind);
      var x, y := LeakingItem(fields[k].kind);
      var a, b := SamplesBut(fields, k, x, y);
      v, w := VObject(a), VObject(b);
      assert DataOf(fields, a)[k] != DataOf(fields, b)[k];
    case List(_, item) =>
      var x, y := LeakingItem(item);
      v, w := VList([x]), VList([y]);
      assert Items(v)[0] == x && Items(w)[0] == y;
      assert RawItems(item, Items(v))[0] != RawItems(item, Items(w))[0];
    case _ =>
  }

  /** For every class with a secret in a list: two objects alike but for a secret, with different files. */
  lemma {:induction false} LeakingObject(fields: seq<FieldDef>) returns (a: seq<Value>, b: seq<Value>)
    requires !Covered(fields) && forall k :: 0 <= k < |fields| ==> Inhabited(fields[k].kind)
    ensures Decrypts(Plainly()) && Decrypts(Exchanging())
    ensures Indistinct(fields, a, b, Plainly(), Exchanging())
    ensures CipherData(fields, a, Plainly()) != CipherData(fields, b, Exchanging())
    decreases fields
  {
    var k :| 0 <= k < |fields| && !CoveredKind(fields[k].kind);
    var v, w := LeakingField(fields[k].kind);
    a, b := SamplesBut(fields, k, v, w);
    DifferentData(fields, a, b, Plainly(), Exchanging(), k);
    ExchangingDecrypts();
  }

  lemma ExchangingDecrypts()
    ensures Decrypts(Plainly()) && Decrypts(Exchanging())
  {
    var h := Exchanging();
    forall s: string ensures h.decrypt(h.encrypt(s)) == Some(s) {
      assert Exchanged(Exchanged(s)) == s;
    }
  }

  lemma DifferentData(fields: seq<FieldDef>, a: seq<Value>, b: seq<Value>, g: Host, h: Host, k: nat)
    requires k < |fields| && !fields[k].kind.Secret?
    requires Typed(fields, a) && SerialisableAll(fields, a) && Typed(fields, b) && SerialisableAll(fields, b)
    requires CipherRaw(fields[k].kind, a[k], g) != CipherRaw(fields[k].kind, b[k], h)
    ensures CipherData(fields, a, g) != CipherData(fields, b, h)
  {
    assert CipherData(fields, a, g)[k].value == CipherRaw(fields[k].kind, a[k], g);
    assert CipherData(fields, b, h)[k].value == CipherRaw(fields[k].kind, b[k], h);
  }

  lemma {:induction false} LeakingField(kind: Field) returns (v: Value, w: Value)
    requires !CoveredKind(kind) && Inhabited(kind)
    ensures HasType(kind, v) && HasType(kind, w) && Serialisable(kind, v) && Serialisable(kind, w)
    ensures Alike(kind, v, w, Plainly(), Exchanging())
    ensures CipherRaw(kind, v, Plainly()) != CipherRaw(kind, w, Exchanging())
    decreases kind
  {
    match kind
    case Object(cls) =>
      var a, b := LeakingObject(cls.fields);
      v, w := VObject(a), VObject(b);
    case List(_, _) => v, w := LeakingItem(kind);
    case _ =>
  }

  /** The file of an object shows nothing of its secrets but their ciphertexts, for all objects of a
      class, exactly when no list of the class holds secrets. */
  lemma Confidential(fields: seq<FieldDef>)
    requires forall k :: 0 <= k < |fields| ==> Inhabited(fields[k].kind)
    ensures (forall a, b, g, h | Indistinct(fields, a, b, g, h) :: CipherData(fields, a, g) == CipherData(fields, b, h))
       <==> Covered(fields)
  {
    if Covered(fields) {
      forall a, b, g, h | Indistinct(fields, a, b, g, h) ensures CipherData(fields, a, g) == CipherData(fields, b, h) {
        SecretsHidden(fields, a, b, g, h);
      }
    } else {
      var a, b := LeakingObject(fields);
    }
  }

  // -- the two halves as the factory runs them

  /** `_validate_and_save_instance`: nothing is written unless the instance is valid and can be
      serialised. */
  method SaveInstance(store: EncryptedConfigStore, name: string, instance: Base) returns (r: Result<(), Error>)
    requires instance.Valid() && WellFormedAll(instance.cls.fields)
    modifies store
    ensures r == SaveOutcome(instance.cls.fields, instance.attrs)
    ensures r.Err? ==> store.files == old(store.files)
    ensures r.Ok? ==>
      store.files == old(store.files)[name := CipherData(instance.cls.fields, instance.attrs, store.host)]
  {
    if !Typed(instance.cls.fields, instance.attrs) {
      return Err(ValidationError);
    }
    var data := instance.CollectData();
    if data.Err? {
      return Err(data.error);
    }
    EncryptData(instance.cls.fields, instance.attrs, store.host);
    r := store.Save(name, data.value);
  }

  function SaveOutcome(fields: seq<FieldDef>, attrs: seq<Value>): Result<(), Error> {
    if !Typed(fields, attrs) then Err(ValidationError)
    else if !SerialisableAll(fields, attrs) then Err(AttributeError)
    else Ok(())
  }

  /** What validation refuses: None where a value is required or an object expected, a value that is not
      of the field's type, and anything it refuses inside an object or a list. */
  predicate Violates(kind: Field, v: Value)
    decreases kind
  {
    if v.VNone? then kind.Object? || kind.required
    else
      match kind
      case Integer(_) => !v.VInt? && !v.VBool?
      case Boolean(_) => !v.VBool?
      case String(_) => !v.VStr?
      case Secret(_) => !v.VStr?
      case Enum(_, members) => !v.VEnum? || v.member >= |members|
      case List(_, item) => !v.VList? || exists k :: 0 <= k < |v.items| && Violates(item, v.items[k])
      case Object(cls) => !v.VObject? || ViolatesAny(cls.fields, v.attrs)
  }

  predicate ViolatesAny(fields: seq<FieldDef>, attrs: seq<Value>)
    decreases fields
  {
    |attrs| != |fields| || exists k :: 0 <= k < |fields| && Violates(fields[k].kind, attrs[k])
  }

  lemma {:induction false} TypedOrViolates(kind: Field, v: Value)
    ensures HasType(kind, v) <==> !Violates(kind, v)
    decreases kind
  {
    match kind
    case List(_, item) =>
      if v.VList? {
        forall k | 0 <= k < |v.items| ensures HasType(item, v.items[k]) <==> !Violates(item, v.items[k]) {
          TypedOrViolates(item, v.items[k]);
        }
      }
    case Object(cls) => if v.VObject? { AllTypedOrViolates(cls.fields, v.attrs); }
    case _ =>
  }

  lemma {:induction false} AllTypedOrViolates(fields: seq<FieldDef>, attrs: seq<Value>)
    ensures Typed(fields, attrs) <==> !ViolatesAny(fields, attrs)
    decreases fields
  {
    if |attrs| == |fields| {
      forall k | 0 <= k < |fields| ensures HasType(fields[k].kind, attrs[k]) <==> !Violates(fields[k].kind, attrs[k]) {
        TypedOrViolates(fields[k].kind, attrs[k]);
      }
    }
  }

  /** A None enum somewhere in a value that validation accepts. */
  predicate HoldsNoneEnum(kind: Field, v: Value)
    decreases kind
  {
    match kind
    case Enum(_, _) => v.VNone?
    case List(_, item) => v.VList? && exists k :: 0 <= k < |v.items| && HoldsNoneEnum(item, v.items[k])
    case Object(cls) => v.VObject? && AnyNoneEnum(cls.fields, v.attrs)
    case _ => false
  }

  predicate AnyNoneEnum(fields: seq<FieldDef>, attrs: seq<Value>)
    decreases fields
  {
    |attrs| == |fields| && exists k :: 0 <= k < |fields| && HoldsNoneEnum(fields[k].kind, attrs[k])
  }

  lemma {:induction false} SerialisableOrNone(kind: Field, v: Value)
    requires HasType(kind, v)
    ensures Serialisable(kind, v) <==> !HoldsNoneEnum(kind, v)
    decreases kind
  {
    match kind
    case List(_, item) =>
      forall k | 0 <= k < |Items(v)| ensures Serialisable(item, Items(v)[k]) <==> !HoldsNoneEnum(item, Items(v)[k]) {
        SerialisableOrNone(item, Items(v)[k]);
      }
      assert v.VList? ==> Items(v) == v.items;
      assert Serialisable(kind, v) <==> forall k :: 0 <= k < |Items(v)| ==> Serialisable(item, Items(v)[k]);
    case Object(cls) => AllSerialisableOrNone(cls.fields, v.attrs);
    case _ =>
  }

  lemma {:induction false} AllSerialisableOrNone(fields: seq<FieldDef>, attrs: seq<Value>)
    requires Typed(fields, attrs)
    ensures SerialisableAll(fields, attrs) <==> !AnyNoneEnum(fields, attrs)
    decreases fields
  {
    forall k | 0 <= k < |fields|
      ensures Serialisable(fields[k].kind, attrs[k]) <==> !HoldsNoneEnum(fields[k].kind, attrs[k])
    {
      SerialisableOrNone(fields[k].kind, attrs[k]);
    }
  }

  /** How saving ends: refused by validation exactly when a value violates its field, failed exactly
      when besides there is a None enum. */
  lemma SaveEnds(fields: seq<FieldDef>, attrs: seq<Value>)
    ensures SaveOutcome(fields, attrs) == Err(ValidationError) <==> ViolatesAny(fields, attrs)
    ensures SaveOutcome(fields, attrs) == Err(AttributeError)
       <==> !ViolatesAny(fields, attrs) && AnyNoneEnum(fields, attrs)
    ensures SaveOutcome(fields, attrs) == Ok(()) <==> !ViolatesAny(fields, attrs) && !AnyNoneEnum(fields, attrs)
  {
    AllTypedOrViolates(fields, attrs);
    if Typed(fields, attrs) { AllSerialisableOrNone(fields, attrs); }
  }

  /** Raw values the scalar fields accept in place of their own. */
  lemma RawScalars(required: bool, h: Host, s: string, i: int)
    ensures h.folded(s) == "yes" || h.folded(s) == "on" || h.folded(s) == "true" ==>
      FromRaw(Boolean(required), RStr(s), h) == VBool(true)
    ensures h.folded(s) == "no" || h.folded(s) == "off" || h.folded(s) == "false" ==>
      FromRaw(Boolean(required), RStr(s), h) == VBool(false)
    ensures HasType(Boolean(required), FromRaw(Boolean(required), RStr(s), h)) <==>
      h.folded(s) in {"yes", "on", "true", "no", "off", "false"}
    ensures FromRaw(Boolean(required), RInt(i), h) == VBool(i != 0)
    ensures h.parseInt(s) == Some(i) ==> FromRaw(Integer(required), RStr(s), h) == VInt(i)
    ensures HasType(Integer(required), FromRaw(Integer(required), RStr(s), h)) <==> h.parseInt(s) != None
  {}

  /** An empty or zero raw value is an empty list to a list field; other raw values that are no list, no
      member of an enum or no dict are kept for validation to refuse. */
  lemma RawOthers(required: bool, item: Field, members: seq<Raw>, cls: Class, raw: Raw, h: Host)
    ensures raw in {RNull, RInt(0), RStr(""), RBool(false), RList([]), RDict([])} ==>
      FromRaw(List(required, item), raw, h) == VList([])
    ensures HasType(Enum(true, members), FromRaw(Enum(true, members), raw, h)) <==> raw in members
    ensures raw in members ==> members[FromRaw(Enum(true, members), raw, h).member] == raw
    ensures !raw.RDict? ==> !HasType(Object(cls), FromRaw(Object(cls), raw, h))
  {
    MemberFirst(members, raw, 0);
  }

  lemma {:induction false} MemberFirst(members: seq<Raw>, raw: Raw, k: nat)
    requires k <= |members|
    ensures MemberAt(members, raw, k).Some? <==> raw in members[k..]
    ensures MemberAt(members, raw, k).Some? ==>
      MemberAt(members, raw, k).value < |members| && members[MemberAt(members, raw, k).value] == raw
    decreases |members| - k
  {
    if k < |members| {
      MemberFirst(members, raw, k + 1);
      assert members[k..] == [members[k]] + members[k + 1..];
    }
  }

  /** The loop body of `_load`: a new instance filled from the store. For any attributes that were
      saved under the name, it holds them again exactly when they are safe. */
  method LoadInstance(store: EncryptedConfigStore, name: string, cls: Class, ghost saved: seq<Value>)
      returns (instance: Base)
    requires WellFormedAll(cls.fields) && Decrypts(store.host)
    requires Typed(cls.fields, saved) && SerialisableAll(cls.fields, saved)
    requires name in store.files && store.files[name] == CipherData(cls.fields, saved, store.host)
    ensures fresh(instance) && instance.cls == cls && instance.Valid()
    ensures instance.attrs == saved <==> SafeAll(cls.fields, saved)
  {
    instance := new Base(cls);
    var loaded := store.Get(name);
    DecryptData(cls.fields, saved, store.host);
    FromPlainData(cls, saved, store.host);
    RestoredAllSame(cls.fields, saved);
    instance.AssignData(loaded.value, store.host);
  }
}
