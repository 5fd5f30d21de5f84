/** BCDB: objects of one model, with a hash index, a range index and a linear scan over storage. */
module Bcdb {
  import opened Wrappers
  import opened Text
  import opened Decimal

  datatype Value = Int(i: int) | Str(s: string)

  /** A property of the schema: its type, how it is indexed, and its type's default. */
  datatype Prop = Prop(name: string, isInt: bool, index: bool, indexKey: bool, unique: bool, default: Value)

  /** An object is its attributes; "id" is one of them. */
  type Obj = map<string, Value>

  datatype Error = UnknownProperty | NotIndexed | NotUnique | WrongForm

  const ID := Prop("id", true, true, false, true, Int(0))

  predicate HasType(p: Prop, v: Value) { if p.isInt then v.Int? else v.Str? }

  /** `if value:`. */
  predicate Truthy(v: Value)
    ensures Truthy(v) <==> v != Int(0) && v != Str("")
  {
    match v case Int(i) => i != 0 case Str(s) => s != ""
  }

  /** `f"{value}"`. */
  function Shown(v: Value): string { match v case Int(i) => Show(i) case Str(s) => s }

  /** `<=` on two integers or two texts. */
  predicate Le(a: Value, b: Value)
    ensures a.Int? && b.Int? ==> (Le(a, b) <==> a.i <= b.i)
  {
    (a.Int? && b.Int? && a.i <= b.i) || (a.Str? && b.Str? && LexLe(a.s, b.s))
  }

  lemma ShownInjective(p: Prop, v: Value, w: Value)
    requires HasType(p, v) && HasType(p, w) && Shown(v) == Shown(w)
    ensures v == w
  {
    if p.isInt { ShowInjective(v.i, w.i); }
  }

  /** A parsed schema: distinct names, unique properties indexed, "id" added last. */
  ghost predicate Schema(props: seq<Prop>) {
    && props != [] && props[|props| - 1] == ID
    && (forall k :: 0 <= k < |props| ==> HasType(props[k], props[k].default) && (props[k].unique ==> props[k].index))
    && (forall i, j :: 0 <= i < j < |props| ==> props[i].name != props[j].name)
  }

  /** The object has a value of the right type for every property and no other attributes. */
  ghost predicate Typed(props: seq<Prop>, o: Obj) {
    && (forall k :: 0 <= k < |props| ==> props[k].name in o && HasType(props[k], o[props[k].name]))
    && (forall name :: name in o ==> exists k :: 0 <= k < |props| && props[k].name == name)
  }

  function IdOf(o: Obj): int { if "id" in o && o["id"].Int? then o["id"].i else 0 }

  function Attr(o: Obj, name: string): Option<Value> { if name in o then Some(o[name]) else None }

  function Find(props: seq<Prop>, name: string): (r: Option<Prop>)
    ensures r.Some? ==> r.value in props && r.value.name == name
    ensures r.None? ==> forall k :: 0 <= k < |props| ==> props[k].name != name
  {
    if props == [] then None else if props[0].name == name then Some(props[0]) else Find(props[1..], name)
  }

  // ---------------------------------------------------------------------------------------
  // The stores
  // ---------------------------------------------------------------------------------------

  /** The hash index by property name and shown value. */
  type Index = map<(string, string), int>

  datatype Db = Db(storage: map<int, Obj>, index: Index, rows: map<int, Obj>, lastId: nat)

  const EMPTY := Db(map[], map[], map[], 0)

  function Key(p: Prop, v: Value): (string, string) { (p.name, Shown(v)) }

  /** `RedisIndexClient.set`: a truthy previous value's entry goes, then the new one is written. */
  function IndexSet(index: Index, p: Prop, v: Value, id: int, previous: Option<Value>): Index {
    (if previous.Some? && Truthy(previous.value) then index - {Key(p, previous.value)} else index)[Key(p, v) := id]
  }

  ghost predicate Complete(props: seq<Prop>, o: Obj) { forall k :: 0 <= k < |props| ==> props[k].name in o }

  /** What the write loop does for one property; `prior` is the stored object with the same id. */
  function IndexProp(index: Index, p: Prop, o: Obj, prior: Option<Obj>): Index
    requires p.name in o && (prior.Some? ==> p.name in prior.value)
  {
    if p.index then IndexSet(index, p, o[p.name], IdOf(o), if prior.Some? then Some(prior.value[p.name]) else None)
    else index
  }

  function IndexAll(index: Index, props: seq<Prop>, o: Obj, prior: Option<Obj>): Index
    requires Complete(props, o) && (prior.Some? ==> Complete(props, prior.value))
  {
    if props == [] then index
    else IndexProp(IndexAll(index, props[..|props| - 1], o, prior), props[|props| - 1], o, prior)
  }

  /** The object an index entry leads to. */
  function ByKey(db: Db, key: (string, string)): Option<Obj> {
    if key in db.index && db.index[key] != 0 && db.index[key] in db.storage then Some(db.storage[db.index[key]])
    else None
  }

  predicate InTable(props: seq<Prop>, name: string) {
    name != "id" && Find(props, name).Some? && Find(props, name).value.indexKey
  }

  /** The columns of the range table. */
  function Row(props: seq<Prop>, o: Obj): Obj { map name | name in o && InTable(props, name) :: o[name] }

  /** The stored object with the same id. */
  function PriorOf(db: Db, o: Obj): Option<Obj> {
    if IdOf(o) in db.storage then Some(db.storage[IdOf(o)]) else None
  }

  /** `BCDB.save_obj`: row, index entries and stored object, all replaced. */
  function Stored(props: seq<Prop>, db: Db, o: Obj): Db
    requires Complete(props, o) && (IdOf(o) in db.storage ==> Complete(props, db.storage[IdOf(o)]))
  {
    var id := IdOf(o);
    Db(db.storage[id := o], IndexAll(db.index, props, o, PriorOf(db, o)), db.rows[id := Row(props, o)], db.lastId)
  }

  // ---------------------------------------------------------------------------------------
  // The invariant
  // ---------------------------------------------------------------------------------------

  ghost predicate StorageOk(props: seq<Prop>, db: Db) {
    forall i :: i in db.storage ==> 1 <= i <= db.lastId && Typed(props, db.storage[i]) && IdOf(db.storage[i]) == i
  }

  /** The range table has exactly the stored objects' columns. */
  ghost predicate RowsOk(props: seq<Prop>, db: Db) {
    db.rows.Keys == db.storage.Keys && forall i :: i in db.rows ==> db.rows[i] == Row(props, db.storage[i])
  }

  /** Every stored object's unique values lead to its id. */
  ghost predicate UniqueOk(props: seq<Prop>, db: Db)
    requires StorageOk(props, db)
  {
    forall i, p :: i in db.storage && p in props && p.unique ==>
      Key(p, db.storage[i][p.name]) in db.index && db.index[Key(p, db.storage[i][p.name])] == i
  }

  /** An entry under a truthy value leads to a stored object that has the value. */
  ghost predicate TruthyOk(props: seq<Prop>, db: Db)
    requires StorageOk(props, db)
  {
    forall p, v :: p in props && p.index && HasType(p, v) && Truthy(v) && Key(p, v) in db.index ==>
      db.index[Key(p, v)] in db.storage && Attr(db.storage[db.index[Key(p, v)]], p.name) == Some(v)
  }

  ghost predicate Inv(props: seq<Prop>, db: Db) {
    && Schema(props) && StorageOk(props, db) && RowsOk(props, db) && UniqueOk(props, db) && TruthyOk(props, db)
    && Key(ID, Int(0)) !in db.index
  }

  /** The index leads from the object's value of a unique property to another object. */
  predicate Clash(db: Db, p: Prop, o: Obj)
    requires p.name in o
  {
    var found := ByKey(db, Key(p, o[p.name]));
    p.unique && found.Some? && IdOf(found.value) != IdOf(o)
  }

  ghost predicate NoClash(db: Db, props: seq<Prop>, o: Obj)
    requires Complete(props, o)
  {
    forall p :: p in props ==> !Clash(db, p, o)
  }

  lemma TypedIsComplete(props: seq<Prop>, o: Obj)
    requires Typed(props, o)
    ensures Complete(props, o)
  {}

  /** The uniqueness check would refuse the object. */
  ghost predicate Conflict(props: seq<Prop>, db: Db, o: Obj)
    requires Complete(props, o)
  {
    exists p :: p in props && Clash(db, p, o)
  }

  predicate SameEntry(index: Index, after: Index, key: (string, string)) {
    (key in after <==> key in index) && (key in after ==> after[key] == index[key])
  }

  /** How the entry (name, shown) comes out of a write for the property found under the name. */
  ghost predicate Written(index: Index, after: Index, f: Option<Prop>, o: Obj, prior: Option<Obj>,
                          name: string, shown: string)
    requires f.Some? ==> name in o && (prior.Some? ==> name in prior.value)
  {
    var key := (name, shown);
    if f.None? || !f.value.index then SameEntry(index, after, key)
    else if shown == Shown(o[name]) then key in after && after[key] == IdOf(o)
    else if prior.Some? && Truthy(prior.value[name]) && shown == Shown(prior.value[name]) then key !in after
    else SameEntry(index, after, key)
  }

  lemma WrittenOne(index: Index, p: Prop, o: Obj, prior: Option<Obj>, name: string, shown: string)
    requires p.name in o && (prior.Some? ==> p.name in prior.value)
    ensures var f := if p.name == name then Some(p) else None;
      Written(index, IndexProp(index, p, o, prior), f, o, prior, name, shown)
  {}

  /** The index after the write loop, entry by entry. */
  lemma {:induction false} WrittenAll(index: Index, props: seq<Prop>, o: Obj, prior: Option<Obj>,
                                      name: string, shown: string)
    requires Complete(props, o) && (prior.Some? ==> Complete(props, prior.value))
    requires forall i, j :: 0 <= i < j < |props| ==> props[i].name != props[j].name
    ensures Written(index, IndexAll(index, props, o, prior), Find(props, name), o, prior, name, shown)
    decreases |props|
  {
    if props != [] {
      var n := |props| - 1;
      var front, p := props[..n], props[n];
      WrittenAll(index, front, o, prior, name, shown);
      WrittenOne(IndexAll(index, front, o, prior), p, o, prior, name, shown);
      FindSnoc(front, p, name);
      assert props == front + [p];
      if p.name == name { NotFound(front, name); }
    }
  }

  lemma {:induction false} NotFound(props: seq<Prop>, name: string)
    requires forall k :: 0 <= k < |props| ==> props[k].name != name
    ensures Find(props, name) == None
  {
    if props != [] { NotFound(props[1..], name); }
  }

  lemma {:induction false} FindSnoc(props: seq<Prop>, p: Prop, name: string)
    ensures Find(props + [p], name)
         == if Find(props, name).Some? then Find(props, name) else if p.name == name then Some(p) else None
  {
    if props != [] {
      assert (props + [p])[1..] == props[1..] + [p];
      FindSnoc(props[1..], p, name);
    }
  }

  lemma FindThere(props: seq<Prop>, p: Prop)
    requires p in props && forall i, j :: 0 <= i < j < |props| ==> props[i].name != props[j].name
    ensures Find(props, p.name) == Some(p)
  {}

  /** For an indexed property: what an entry is after an object was stored. */
  lemma EntryAfter(props: seq<Prop>, db: Db, o: Obj, p: Prop, v: Value)
    requires Schema(props) && StorageOk(props, db) && Typed(props, o)
    requires p in props && p.index && HasType(p, v)
    ensures var after, key, id := Stored(props, db, o), Key(p, v), IdOf(o);
      if v == o[p.name] then key in after.index && after.index[key] == id
      else if id in db.storage && Truthy(v) && v == db.storage[id][p.name] then key !in after.index
      else (key in after.index <==> key in db.index) && (key in after.index ==> after.index[key] == db.index[key])
  {
    var id := IdOf(o);
    var prior := PriorOf(db, o);
    FindThere(props, p);
    WrittenAll(db.index, props, o, prior, p.name, Shown(v));
    if Shown(v) == Shown(o[p.name]) { ShownInjective(p, v, o[p.name]); }
    if prior.Some? && Shown(v) == Shown(prior.value[p.name]) { ShownInjective(p, v, prior.value[p.name]); }
  }

  /** Storing an object that passed the uniqueness check keeps the invariant. */
  lemma StoredKeepsInv(props: seq<Prop>, db: Db, o: Obj)
    requires Inv(props, db) && Typed(props, o) && 1 <= IdOf(o) <= db.lastId && !Conflict(props, db, o)
    ensures Inv(props, Stored(props, db, o))
  {
    StoredUnique(props, db, o);
    StoredTruthy(props, db, o);
    NoZeroEntry(props, db, o);
  }

  lemma NoZeroEntry(props: seq<Prop>, db: Db, o: Obj)
    requires Inv(props, db) && Typed(props, o) && IdOf(o) != 0
    ensures Key(ID, Int(0)) !in Stored(props, db, o).index
  {
    assert ID in props;
    EntryAfter(props, db, o, ID, Int(0));
  }

  lemma StoredUnique(props: seq<Prop>, db: Db, o: Obj)
    requires Inv(props, db) && Typed(props, o) && 1 <= IdOf(o) <= db.lastId && !Conflict(props, db, o)
    ensures StorageOk(props, Stored(props, db, o)) && UniqueOk(props, Stored(props, db, o))
  {
    var after, id := Stored(props, db, o), IdOf(o);
    StoredStorage(props, db, o);
    forall i, p | i in after.storage && p in props && p.unique
      ensures Key(p, after.storage[i][p.name]) in after.index && after.index[Key(p, after.storage[i][p.name])] == i
    {
      if i == id {
        EntryAfter(props, db, o, p, o[p.name]);
      } else {
        assert !Clash(db, p, o);
        UniqueEntry(props, db, o, i, p, db.storage[i][p.name]);
      }
    }
  }

  lemma StoredStorage(props: seq<Prop>, db: Db, o: Obj)
    requires StorageOk(props, db) && Typed(props, o) && 1 <= IdOf(o) <= db.lastId
    ensures StorageOk(props, Stored(props, db, o))
  {}

  /** What an entry leads to. */
  function LeadsTo(index: Index, key: (string, string)): Option<int> {
    if key in index then Some(index[key]) else None
  }

  /** Another object's unique value still leads to it. */
  lemma UniqueEntry(props: seq<Prop>, db: Db, o: Obj, i: int, p: Prop, v: Value)
    requires Inv(props, db) && Typed(props, o) && p in props && p.unique && !Clash(db, p, o)
    requires i in db.storage && i != IdOf(o) && Attr(db.storage[i], p.name) == Some(v)
    ensures LeadsTo(Stored(props, db, o).index, Key(p, v)) == Some(i)
  {
    EntryAfter(props, db, o, p, v);
    HolderFound(props, db, p, i, v);
    if IdOf(o) in db.storage { PriorElsewhere(props, db, o, i, p, v); }
  }

  /** The object saved before does not have the value. */
  lemma PriorElsewhere(props: seq<Prop>, db: Db, o: Obj, i: int, p: Prop, v: Value)
    requires Inv(props, db) && IdOf(o) in db.storage && p in props && p.unique
    requires i in db.storage && i != IdOf(o) && Attr(db.storage[i], p.name) == Some(v)
    ensures Attr(db.storage[IdOf(o)], p.name) != Some(v)
  {
    HolderFound(props, db, p, i, v);
    if Attr(db.storage[IdOf(o)], p.name) == Some(v) { HolderFound(props, db, p, IdOf(o), v); }
  }

  lemma StoredTruthy(props: seq<Prop>, db: Db, o: Obj)
    requires Inv(props, db) && Typed(props, o) && 1 <= IdOf(o) <= db.lastId
    ensures StorageOk(props, Stored(props, db, o)) && TruthyOk(props, Stored(props, db, o))
  {
    var after := Stored(props, db, o);
    forall p, v | p in props && p.index && HasType(p, v) && Truthy(v) && Key(p, v) in after.index
      ensures after.index[Key(p, v)] in after.storage
      ensures Attr(after.storage[after.index[Key(p, v)]], p.name) == Some(v)
    {
      TruthyEntry(props, db, o, p, v);
    }
  }

  lemma TruthyEntry(props: seq<Prop>, db: Db, o: Obj, p: Prop, v: Value)
    requires Inv(props, db) && Typed(props, o)
    requires p in props && p.index && HasType(p, v) && Truthy(v) && Key(p, v) in Stored(props, db, o).index
    ensures var after := Stored(props, db, o);
      after.index[Key(p, v)] in after.storage && Attr(after.storage[after.index[Key(p, v)]], p.name) == Some(v)
  {
    EntryAfter(props, db, o, p, v);
    if v != o[p.name] {
      var j := db.index[Key(p, v)];
      assert j in db.storage && Attr(db.storage[j], p.name) == Some(v);
    }
  }

  /** Under the invariant the "id" entry finds the stored object with that id. */
  lemma PriorById(props: seq<Prop>, db: Db, id: int)
    requires Inv(props, db) && id != 0
    ensures ByKey(db, Key(ID, Int(id))) == if id in db.storage then Some(db.storage[id]) else None
  {
    assert ID in props;
    if id in db.storage {
      assert db.storage[id]["id"] == Int(id);
      assert Key(ID, db.storage[id][ID.name]) in db.index;
    } else if Key(ID, Int(id)) in db.index {
      assert Attr(db.storage[db.index[Key(ID, Int(id))]], ID.name) == Some(Int(id));
    }
  }

  // ---------------------------------------------------------------------------------------
  // Query results
  // ---------------------------------------------------------------------------------------

  /** The ids of the stored objects whose property lies between min and max. */
  ghost function InRange(db: Db, key: string, min: Value, max: Value): set<int> {
    set i | i in db.storage && key in db.storage[i] && Le(min, db.storage[i][key]) && Le(db.storage[i][key], max)
  }

  /** On an integer property that is the range from min to max. */
  lemma RangeOfInts(props: seq<Prop>, db: Db, p: Prop, min: int, max: int)
    requires Inv(props, db) && p in props && p.isInt
    ensures forall i :: i in InRange(db, p.name, Int(min), Int(max)) <==>
      i in db.storage && IntBetween(db.storage[i], p.name, min, max)
  {
    forall i | i in db.storage
      ensures i in InRange(db, p.name, Int(min), Int(max)) <==> IntBetween(db.storage[i], p.name, min, max)
    {
      assert Typed(props, db.storage[i]);
      IntInRange(db.storage[i], p.name, min, max);
    }
  }

  lemma IntInRange(o: Obj, name: string, min: int, max: int)
    requires name in o && o[name].Int?
    ensures Le(Int(min), o[name]) && Le(o[name], Int(max)) <==> IntBetween(o, name, min, max)
  {
    assert Attr(o, name) == Some(Int(o[name].i));
  }

  ghost predicate IntBetween(o: Obj, name: string, min: int, max: int) {
    exists n :: Attr(o, name) == Some(Int(n)) && min <= n <= max
  }

  /** On a text property, what lies between in code-point order: each bound begins like the value up
      to its end or to the first difference, where it is on the right side. */
  lemma RangeOfTexts(props: seq<Prop>, db: Db, p: Prop, min: string, max: string)
    requires Inv(props, db) && p in props && !p.isInt
    ensures forall i :: i in InRange(db, p.name, Str(min), Str(max)) <==>
      i in db.storage && exists s :: Attr(db.storage[i], p.name) == Some(Str(s)) && NotAfter(min, s) && NotAfter(s, max)
  {
    forall i | i in db.storage ensures p.name in db.storage[i] && db.storage[i][p.name].Str? {
      assert Typed(props, db.storage[i]);
    }
    forall i | i in db.storage
      ensures var s := db.storage[i][p.name].s;
        Attr(db.storage[i], p.name) == Some(Str(s)) &&
        (LexLe(min, s) <==> NotAfter(min, s)) && (LexLe(s, max) <==> NotAfter(s, max))
    {
      LexMeans(min, db.storage[i][p.name].s);
      LexMeans(db.storage[i][p.name].s, max);
    }
  }

  /** The list holds exactly the stored objects with these ids, each once. */
  ghost predicate Lists(objs: seq<Obj>, ids: set<int>, db: Db) {
    && (forall a, b :: 0 <= a < b < |objs| ==> IdOf(objs[a]) != IdOf(objs[b]))
    && (forall o :: o in objs ==> IdOf(o) in ids)
    && (forall i :: i in ids ==> i in db.storage && db.storage[i] in objs)
  }

  /** What a search for key == val by scanning storage may return. */
  ghost predicate ScanAnswer(db: Db, key: string, val: Value, r: Option<Obj>) {
    match r
    case None => forall i :: i in db.storage ==> Attr(db.storage[i], key) != Some(val)
    case Some(o) => Attr(o, key) == Some(val) && IdOf(o) in db.storage && db.storage[IdOf(o)] == o
  }

  // ---------------------------------------------------------------------------------------
  // The object store
  // ---------------------------------------------------------------------------------------

  /** A BCDB namespace with one model. */
  class BCDB {
    const props: seq<Prop>
    const parseInt: string -> Option<int>
    var storage: map<int, Obj>
    var index: Index
    var rows: map<int, Obj>
    var lastId: nat

    ghost function State(): Db
      reads this
    {
      Db(storage, index, rows, lastId)
    }

    ghost predicate Valid()
      reads this
    {
      Inv(props, State())
    }

    constructor (props: seq<Prop>, parseInt: string -> Option<int>)
      requires Schema(props)
      ensures this.props == props && this.parseInt == parseInt
      ensures Valid() && State() == EMPTY
    {
      this.props, this.parseInt := props, parseInt;
      storage, index, rows, lastId := map[], map[], map[], 0;
    }

    /** `prop.type.check`: a value of the type, or the text of an integer for an integer. */
    predicate Accepts(p: Prop, v: Value)
      ensures Accepts(p, v) <==> HasType(p, v) || (p.isInt && v.Str? && parseInt(v.s) != None)
    {
      if p.isInt then v.Int? || parseInt(v.s).Some? else v.Str?
    }

    /** `prop.type.from_str`. */
    function Converted(p: Prop, v: Value): Value
      requires Accepts(p, v)
    {
      if p.isInt && v.Str? then Int(parseInt(v.s).value) else v
    }

    /** `set_from_dict` on a new object. */
    method SetFromDict(d: Obj) returns (r: Result<Obj, Error>)
      requires Schema(props)
      ensures r.Err? <==> exists p :: p in props && p.name in d && !Accepts(p, d[p.name])
      ensures r.Ok? ==> Typed(props, r.value)
      ensures r.Ok? ==> forall p :: p in props && p.name !in d ==> r.value[p.name] == p.default
      ensures r.Ok? ==> forall p :: p in props && p.name in d && HasType(p, d[p.name]) ==> r.value[p.name] == d[p.name]
      ensures r.Ok? ==> forall p :: p in props && p.name in d && p.isInt && d[p.name].Str? ==>
        parseInt(d[p.name].s) == Some(r.value[p.name].i)
      ensures Typed(props, d) ==> r == Ok(d)
    {
      var o: Obj := map[];
      for k := 0 to |props|
        invariant Filled(d, o, k)
      {
        var p := props[k];
        var v := p.default;
        if p.name in d {
          if !Accepts(p, d[p.name]) {
            return Err(WrongForm);
          }
          v := Converted(p, d[p.name]);
        }
        FilledStep(d, o, k, v);
        o := o[p.name := v];
      }
      FilledAll(d, o);
      return Ok(o);
    }

    /** The first k properties are set from the dict, nothing else is. */
    ghost predicate Filled(d: Obj, o: Obj, k: nat)
      requires k <= |props|
    {
      && (forall j :: 0 <= j < k ==> props[j].name in o && SetFrom(props[j], d, o[props[j].name]))
      && (forall name :: name in o ==> exists j :: 0 <= j < k && props[j].name == name)
    }

    ghost predicate SetFrom(p: Prop, d: Obj, v: Value) {
      if p.name in d then Accepts(p, d[p.name]) && v == Converted(p, d[p.name]) else v == p.default
    }

    lemma FilledStep(d: Obj, o: Obj, k: nat, v: Value)
      requires Schema(props) && k < |props| && Filled(d, o, k) && SetFrom(props[k], d, v)
      ensures Filled(d, o[props[k].name := v], k + 1)
    {
      var more := o[props[k].name := v];
      forall name | name in more ensures exists j :: 0 <= j < k + 1 && props[j].name == name {
        if name != props[k].name {
          assert name in o;
        }
      }
    }

    lemma FilledAll(d: Obj, o: Obj)
      requires Schema(props) && Filled(d, o, |props|)
      ensures Typed(props, o)
      ensures forall p :: p in props ==> SetFrom(p, d, o[p.name])
      ensures Typed(props, d) ==> o == d
    {
      SameValues(props, d, o);
    }

    /** `get_dict`. */
    method GetDict(o: Obj) returns (d: Obj)
      requires Complete(props, o)
      ensures forall p :: p in props ==> p.name in d && d[p.name] == o[p.name]
      ensures forall name :: name in d ==> exists p :: p in props && p.name == name
      ensures Typed(props, o) ==> d == o
    {
      d := map[];
      for k := 0 to |props|
        invariant forall j :: 0 <= j < k ==> props[j].name in d
        invariant forall name :: name in d ==>
          name in o && d[name] == o[name] && exists j :: 0 <= j < k && props[j].name == name
      {
        d := d[props[k].name := o[props[k].name]];
      }
      if Typed(props, o) {
        assert d == o;
      }
    }

    /** `create_obj`: the next id is taken even when the data is refused. */
    method CreateObj(data: Obj) returns (r: Result<Obj, Error>)
      requires Valid()
      modifies this`lastId
      ensures Valid() && State() == old(State()).(lastId := old(lastId) + 1)
      ensures r.Ok? ==> Typed(props, r.value) && IdOf(r.value) == lastId
      ensures r.Ok? ==> forall p :: p in props && p.name != "id" && p.name !in data ==> r.value[p.name] == p.default
      ensures r.Ok? ==> forall p :: p in props && p.name != "id" && p.name in data && HasType(p, data[p.name]) ==>
        r.value[p.name] == data[p.name]
      ensures r.Ok? ==> forall p :: p in props && p.name != "id" && p.name in data && p.isInt && data[p.name].Str? ==>
        parseInt(data[p.name].s) == Some(r.value[p.name].i)
      ensures r.Err? <==> exists p :: p in props && p.name != "id" && p.name in data && !Accepts(p, data[p.name])
    {
      lastId := lastId + 1;
      var d := data["id" := Int(lastId)];
      r := SetFromDict(d);
      assert ID in props;
      if r.Err? {
        var p :| p in props && p.name in d && !Accepts(p, d[p.name]);
        assert p.name != "id" by {
          if p.name == "id" { FindThere(props, p); FindThere(props, ID); }
        }
      } else {
        assert r.value[ID.name] == d[ID.name];
        assert forall p :: p in props && p.name != "id" && p.name in data ==> p.name in d && d[p.name] == data[p.name];
      }
    }

    /** `get_item_by_id`: the stored dict is loaded again. */
    method GetItemById(id: int) returns (r: Option<Obj>)
      requires Schema(props) && StorageOk(props, State())
      ensures r == if id in storage then Some(storage[id]) else None
    {
      if id !in storage {
        return None;
      }
      var loaded := SetFromDict(storage[id]);
      r := if loaded.Ok? then Some(loaded.value) else None;
    }

    /** `get_keys_in_model`: the keys, in whatever order the scan yields them, then their objects. */
    method GetKeysInModel() returns (objs: seq<Obj>)
      requires Schema(props) && StorageOk(props, State())
      ensures Lists(objs, storage.Keys, State())
    {
      var ids := ScanKeys();
      assert forall i :: i in ids ==> i in Elements(ids);
      objs := LoadAll(ids);
    }

    method ScanKeys() returns (ids: seq<int>)
      ensures Elements(ids) == storage.Keys
      ensures forall a, b :: 0 <= a < b < |ids| ==> ids[a] != ids[b]
    {
      ids := [];
      var todo := storage.Keys;
      while todo != {}
        invariant todo <= storage.Keys && Elements(ids) == storage.Keys - todo
        invariant forall a, b :: 0 <= a < b < |ids| ==> ids[a] != ids[b]
      {
        SomeMember(todo);
        var id: int :| id in todo;
        assert id !in Elements(ids);
        assert Elements(ids + [id]) == Elements(ids) + {id};
        ids := ids + [id];
        todo := todo - {id};
      }
    }

    /** One more stored object loaded and listed. */
    method LoadOneMore(objs: seq<Obj>, ghost ids: set<int>, id: int) returns (more: seq<Obj>)
      requires Schema(props) && StorageOk(props, State())
      requires Lists(objs, ids, State()) && id in storage && id !in ids
      ensures Lists(more, ids + {id}, State())
    {
      var o := GetItemById(id);
      ListsOneMore(objs, ids, State(), id);
      more := objs + [o.value];
    }

    /** `get_item_from_index`. */
    method GetItemFromIndex(key: string, val: Value) returns (r: Result<Option<Obj>, Error>)
      requires Schema(props) && StorageOk(props, State())
      ensures Find(props, key).None? ==> r == Err(UnknownProperty)
      ensures Find(props, key).Some? && !Find(props, key).value.index ==> r == Err(NotIndexed)
      ensures Find(props, key).Some? && Find(props, key).value.index ==> r == Ok(ByKey(State(), (key, Shown(val))))
    {
      var prop := Find(props, key);
      if prop.None? {
        return Err(UnknownProperty);
      }
      if !prop.value.index {
        return Err(NotIndexed);
      }
      var keyid := if (key, Shown(val)) in index then index[(key, Shown(val))] else 0;
      if keyid == 0 {
        return Ok(None);
      }
      var o := GetItemById(keyid);
      return Ok(o);
    }

    /** The bounds of a range have the property's type. */
    predicate Bounds(key: string, min: Value, max: Value) {
      Find(props, key).Some? ==> HasType(Find(props, key).value, min) && HasType(Find(props, key).value, max)
    }

    /** `SQLiteIndexSetClient.get`: the ids of the rows in range. */
    method RowsInRange(key: string, min: Value, max: Value) returns (ids: seq<int>)
      requires Bounds(key, min, max)
      ensures forall a, b :: 0 <= a < b < |ids| ==> ids[a] != ids[b]
      ensures forall i :: i in ids <==> i in rows && key in rows[i] && Le(min, rows[i][key]) && Le(rows[i][key], max)
    {
      ids := [];
      var todo := rows.Keys;
      while todo != {}
        invariant todo <= rows.Keys
        invariant forall a, b :: 0 <= a < b < |ids| ==> ids[a] != ids[b]
        invariant forall i :: i in ids <==>
          i in rows && i !in todo && key in rows[i] && Le(min, rows[i][key]) && Le(rows[i][key], max)
      {
        SomeMember(todo);
        var id: int :| id in todo;
        if key in rows[id] && Le(min, rows[id][key]) && Le(rows[id][key], max) {
          ids := ids + [id];
        }
        todo := todo - {id};
      }
    }

    /** `get_item_from_index_set`: exactly the stored objects in range, each once. */
    method GetItemFromIndexSet(key: string, min: Value, max: Value) returns (r: Result<seq<Obj>, Error>)
      requires Valid() && Bounds(key, min, max)
      ensures Find(props, key).None? ==> r == Err(UnknownProperty)
      ensures Find(props, key).Some? && !Find(props, key).value.indexKey ==> r == Err(NotIndexed)
      ensures Find(props, key).Some? && Find(props, key).value.indexKey ==>
        r.Ok? && Lists(r.value, InRange(State(), key, min, max), State())
    {
      var prop := Find(props, key);
      if prop.None? {
        return Err(UnknownProperty);
      }
      if !prop.value.indexKey {
        return Err(NotIndexed);
      }
      var ids := RowsInRange(key, min, max);
      TableIsExact(props, State(), key, min, max);
      forall i ensures i in Elements(ids) <==> i in InRange(State(), key, min, max) {
        assert i in Elements(ids) <==> i in ids;
      }
      assert Elements(ids) == InRange(State(), key, min, max);
      var objs := LoadAll(ids);
      return Ok(objs);
    }

    /** `[self.get_item_by_id(model, x[0]) for x in ids]`. */
    method LoadAll(ids: seq<int>) returns (objs: seq<Obj>)
      requires Schema(props) && StorageOk(props, State())
      requires forall a, b :: 0 <= a < b < |ids| ==> ids[a] != ids[b]
      requires forall i :: i in ids ==> i in storage
      ensures Lists(objs, Elements(ids), State())
    {
      objs := [];
      for k := 0 to |ids|
        invariant Lists(objs, Elements(ids[..k]), State())
      {
        ElementsSnoc(ids, k);
        objs := LoadOneMore(objs, Elements(ids[..k]), ids[k]);
      }
      assert ids[..|ids|] == ids;
    }

    /** `get_entry`: by the hash index, else by the range index, else by scanning. */
    method GetEntry(key: string, val: Value) returns (r: Result<Option<Obj>, Error>)
      requires Valid()
      requires Find(props, key).Some? ==> HasType(Find(props, key).value, val)
      ensures r.Err? <==> Find(props, key).None?
      ensures r.Err? ==> r == Err(UnknownProperty)
      ensures r.Ok? && Find(props, key).value.index ==> r.value == ByKey(State(), (key, Shown(val)))
      ensures r.Ok? && !Find(props, key).value.index ==> ScanAnswer(State(), key, val, r.value)
    {
      var prop := Find(props, key);
      if prop.None? {
        return Err(UnknownProperty);
      }
      if prop.value.index {
        r := GetItemFromIndex(key, val);
        return;
      }
      var found: Option<Obj>;
      if prop.value.indexKey {
        found := RangeEntry(key, val);
      } else {
        found := ScanEntry(key, val);
      }
      return Ok(found);
    }

    /** The branch of `get_entry` for a property with a range index. */
    method RangeEntry(key: string, val: Value) returns (r: Option<Obj>)
      requires Valid()
      requires Find(props, key).Some? && Find(props, key).value.indexKey && HasType(Find(props, key).value, val)
      ensures ScanAnswer(State(), key, val, r)
    {
      var found := GetItemFromIndexSet(key, val, val);
      RangeOfOne(props, State(), key, val);
      if found.value == [] {
        return None;
      }
      assert found.value[0] in found.value;
      return Some(found.value[0]);
    }

    /** The branch of `get_entry` for a property without an index: the first stored object that has the value. */
    method ScanEntry(key: string, val: Value) returns (r: Option<Obj>)
      requires Valid()
      ensures ScanAnswer(State(), key, val, r)
    {
      var objs := GetKeysInModel();
      r := FirstWith(objs, key, val);
      FirstAnswers(objs, State(), key, val, r);
    }

    method FirstWith(objs: seq<Obj>, key: string, val: Value) returns (r: Option<Obj>)
      ensures r.Some? ==> exists k :: 0 <= k < |objs| && r.value == objs[k] && Attr(objs[k], key) == Some(val)
      ensures r.None? ==> forall k :: 0 <= k < |objs| ==> Attr(objs[k], key) != Some(val)
    {
      for k := 0 to |objs|
        invariant forall j :: 0 <= j < k ==> Attr(objs[j], key) != Some(val)
      {
        if key in objs[k] && objs[k][key] == val {
          return Some(objs[k]);
        }
      }
      return None;
    }

    /** The loop of `get_range` over all stored objects. */
    method ScanRange(key: string, min: Value, max: Value) returns (result: seq<Obj>)
      requires Valid() && Bounds(key, min, max)
      ensures Lists(result, InRange(State(), key, min, max), State())
    {
      var objs := GetKeysInModel();
      result := [];
      ghost var wanted := InRange(State(), key, min, max);
      assert wanted * Ids([]) == {};
      for k := 0 to |objs|
        invariant Lists(result, wanted * Ids(objs[..k]), State())
      {
        var o := objs[k];
        ListedIsStored(objs, k, State());
        assert IdOf(o) in wanted <==> key in o && Le(min, o[key]) && Le(o[key], max);
        ScanStep(objs, k, result, wanted, State());
        if key in o && Le(min, o[key]) && Le(o[key], max) {
          result := result + [o];
        }
      }
      assert objs[..|objs|] == objs;
      ScanDone(objs, wanted, State());
    }

    /** `get_range` of `BCDB`: the test on the property is the wrong way round, so the range index is
        asked only where there is none. */
    method GetRange(key: string, min: Value, max: Value) returns (r: Result<seq<Obj>, Error>)
      requires Valid() && Bounds(key, min, max)
      ensures Find(props, key).None? ==> r == Err(UnknownProperty)
      ensures Find(props, key).Some? && !Find(props, key).value.indexKey ==> r == Err(NotIndexed)
      ensures Find(props, key).Some? && Find(props, key).value.indexKey ==>
        r.Ok? && Lists(r.value, InRange(State(), key, min, max), State())
    {
      var prop := Find(props, key);
      if prop.None? {
        return Err(UnknownProperty);
      }
      if !prop.value.indexKey {
        r := GetItemFromIndexSet(key, min, max);
        return;
      }
      var result := ScanRange(key, min, max);
      return Ok(result);
    }

    /** `get_by` for an indexed property. */
    method GetByIndexed(p: Prop, val: Value) returns (r: Option<Obj>)
      requires Valid() && p in props && p.index && HasType(p, val)
      ensures r == ByKey(State(), Key(p, val))
    {
      FindThere(props, p);
      var found := GetEntry(p.name, val);
      r := found.value;
    }

    /** `_assert_uniqueness`. */
    method AssertUniqueness(o: Obj) returns (ok: bool)
      requires Valid() && Typed(props, o)
      ensures ok <==> !Conflict(props, State(), o)
    {
      ghost var db := State();
      TypedIsComplete(props, o);
      for k := 0 to |props|
        invariant State() == db && NoClash(db, props[..k], o)
      {
        assert props[..k + 1] == props[..k] + [props[k]];
        ok := AssertUnique(props[k], o, db);
        if !ok {
          return false;
        }
      }
      assert props[..|props|] == props;
      return true;
    }

    /** One turn of its loop. */
    method AssertUnique(p: Prop, o: Obj, ghost db: Db) returns (ok: bool)
      requires Inv(props, db) && State() == db && Typed(props, o) && p in props
      ensures ok <==> !Clash(db, p, o)
    {
      if !p.unique {
        return true;
      }
      var dbobj := GetByIndexed(p, o[p.name]);
      return dbobj.None? || IdOf(dbobj.value) == IdOf(o);
    }

    /** `RedisIndexClient.set`. */
    method IndexClientSet(p: Prop, v: Value, id: int, previous: Option<Value>)
      modifies this`index
      ensures index == IndexSet(old(index), p, v, id, previous)
    {
      if previous.Some? && Truthy(previous.value) {
        index := index - {Key(p, previous.value)};
      }
      index := index[Key(p, v) := id];
    }

    /** One turn of the loop of `BCDB.save_obj`. */
    method WriteIndex(k: nat, o: Obj, ghost before: Db)
      requires Saving(props, before, o) && k < |props|
      requires storage == before.storage && lastId == before.lastId
      requires index == IndexUpTo(props, before, o, k)
      modifies this`index
      ensures index == IndexUpTo(props, before, o, k + 1)
    {
      var p := props[k];
      ghost var prior := PriorOf(before, o);
      IndexAllStep(before.index, props, k, o, prior);
      FindId(props, before, o, k);
      var old_obj := GetItemFromIndex("id", Int(IdOf(o)));
      assert old_obj == Ok(prior);
      var old_index := if old_obj.value.Some? then Some(old_obj.value.value[p.name]) else None;
      if p.index {
        IndexClientSet(p, o[p.name], IdOf(o), old_index);
      }
    }

    /** The loop of `BCDB.save_obj`: index entries property by property. */
    method WriteIndexes(o: Obj, ghost before: Db)
      requires Saving(props, before, o)
      requires storage == before.storage && index == before.index && lastId == before.lastId
      modifies this`index
      ensures index == IndexUpTo(props, before, o, |props|)
    {
      NoneYet(props, before, o);
      for k := 0 to |props|
        invariant index == IndexUpTo(props, before, o, k)
      {
        WriteIndex(k, o, before);
      }
    }

    /** `BCDB.save_obj`: the range row, then the index entries, then the object. */
    method StoreObj(o: Obj)
      requires Valid() && Typed(props, o) && IdOf(o) != 0
      modifies this
      ensures State() == Stored(props, old(State()), o)
    {
      ghost var before := State();
      SavedState(props, before, o);
      rows := rows[IdOf(o) := Row(props, o)];
      WriteIndexes(o, before);
      var d := GetDict(o);
      storage := storage[IdOf(o) := d];
    }

    /** `ModelBase.save_obj`: an object that would duplicate a unique value is refused, and nothing changes. */
    method SaveObj(o: Obj) returns (r: Result<(), Error>)
      requires Valid() && Typed(props, o) && 1 <= IdOf(o) <= lastId
      modifies this
      ensures Valid()
      ensures old(Conflict(props, State(), o)) ==> r == Err(NotUnique) && State() == old(State())
      ensures !old(Conflict(props, State(), o)) ==> r == Ok(()) && State() == Stored(props, old(State()), o)
    {
      var ok := AssertUniqueness(o);
      if !ok {
        return Err(NotUnique);
      }
      StoredKeepsInv(props, State(), o);
      StoreObj(o);
      return Ok(());
    }
  }

  /** A well-typed object is determined by its properties' values. */
  lemma SameValues(props: seq<Prop>, d: Obj, o: Obj)
    requires Typed(props, o)
    requires Typed(props, d) ==> forall k :: 0 <= k < |props| ==> o[props[k].name] == d[props[k].name]
    ensures Typed(props, d) ==> o == d
  {
    if Typed(props, d) {
      forall name | name in o || name in d ensures name in o && name in d && o[name] == d[name] {
        var k :| 0 <= k < |props| && props[k].name == name;
      }
    }
  }

  ghost function Ids(objs: seq<Obj>): set<int> { set o | o in objs :: IdOf(o) }

  lemma IdsSnoc(objs: seq<Obj>, k: nat)
    requires k < |objs| && forall a, b :: 0 <= a < b < |objs| ==> IdOf(objs[a]) != IdOf(objs[b])
    ensures Ids(objs[..k + 1]) == Ids(objs[..k]) + {IdOf(objs[k])}
    ensures IdOf(objs[k]) !in Ids(objs[..k])
  {
    assert objs[..k + 1] == objs[..k] + [objs[k]];
    forall i | i in Ids(objs[..k]) + {IdOf(objs[k])} ensures i in Ids(objs[..k + 1]) {
      if i == IdOf(objs[k]) {
        assert objs[k] in objs[..k + 1];
      } else {
        var x :| x in objs[..k] && IdOf(x) == i;
        assert x in objs[..k + 1];
      }
    }
  }

  /** One more object gone through: it is kept when it is wanted. */
  lemma ScanStep(objs: seq<Obj>, k: nat, result: seq<Obj>, wanted: set<int>, db: Db)
    requires k < |objs| && Lists(result, wanted * Ids(objs[..k]), db)
    requires forall a, b :: 0 <= a < b < |objs| ==> IdOf(objs[a]) != IdOf(objs[b])
    requires IdOf(objs[k]) in db.storage && db.storage[IdOf(objs[k])] == objs[k]
    ensures Lists(if IdOf(objs[k]) in wanted then result + [objs[k]] else result, wanted * Ids(objs[..k + 1]), db)
  {
    var id, seen := IdOf(objs[k]), Ids(objs[..k]);
    IdsSnoc(objs, k);
    if id in wanted {
      ListsOneMore(result, wanted * seen, db, id);
      assert wanted * (seen + {id}) == wanted * seen + {id};
    } else {
      assert wanted * (seen + {id}) == wanted * seen;
    }
  }

  lemma ListedIsStored(objs: seq<Obj>, k: nat, db: Db)
    requires Lists(objs, db.storage.Keys, db) && k < |objs|
    requires forall i :: i in db.storage ==> IdOf(db.storage[i]) == i
    ensures IdOf(objs[k]) in db.storage && db.storage[IdOf(objs[k])] == objs[k]
  {
    assert objs[k] in objs;
    var o := db.storage[IdOf(objs[k])];
    var a :| 0 <= a < |objs| && objs[a] == o;
  }

  /** The first of all stored objects that has the value answers the search. */
  lemma FirstAnswers(objs: seq<Obj>, db: Db, key: string, val: Value, r: Option<Obj>)
    requires Lists(objs, db.storage.Keys, db) && forall i :: i in db.storage ==> IdOf(db.storage[i]) == i
    requires r.Some? ==> exists k :: 0 <= k < |objs| && r.value == objs[k] && Attr(objs[k], key) == Some(val)
    requires r.None? ==> forall k :: 0 <= k < |objs| ==> Attr(objs[k], key) != Some(val)
    ensures ScanAnswer(db, key, val, r)
  {
    if r.Some? {
      var k :| 0 <= k < |objs| && r.value == objs[k] && Attr(objs[k], key) == Some(val);
      ListedIsStored(objs, k, db);
    } else {
      forall i | i in db.storage ensures Attr(db.storage[i], key) != Some(val) {
        assert db.storage[i] in objs;
      }
    }
  }

  lemma ScanDone(objs: seq<Obj>, wanted: set<int>, db: Db)
    requires Lists(objs, db.storage.Keys, db)
    requires wanted <= db.storage.Keys && forall i :: i in db.storage ==> IdOf(db.storage[i]) == i
    ensures wanted * Ids(objs) == wanted
  {
    forall i | i in wanted ensures i in Ids(objs) {
      assert db.storage[i] in objs;
    }
  }

  /** A well-typed object is about to be saved. */
  ghost predicate Saving(props: seq<Prop>, before: Db, o: Obj) {
    Inv(props, before) && Typed(props, o) && IdOf(o) != 0
  }

  /** The index after the first k turns of the write loop. */
  ghost function IndexUpTo(props: seq<Prop>, before: Db, o: Obj, k: nat): Index
    requires Saving(props, before, o) && k <= |props|
  {
    IndexAll(before.index, props[..k], o, PriorOf(before, o))
  }

  lemma NoneYet(props: seq<Prop>, before: Db, o: Obj)
    requires Saving(props, before, o)
    ensures IndexUpTo(props, before, o, 0) == before.index
  {}

  lemma SavedState(props: seq<Prop>, before: Db, o: Obj)
    requires Saving(props, before, o)
    ensures Stored(props, before, o)
         == Db(before.storage[IdOf(o) := o], IndexUpTo(props, before, o, |props|),
               before.rows[IdOf(o) := Row(props, o)], before.lastId)
  {
    assert props[..|props|] == props;
  }

  lemma IndexAllStep(index: Index, props: seq<Prop>, k: nat, o: Obj, prior: Option<Obj>)
    requires k < |props| && Complete(props, o) && (prior.Some? ==> Complete(props, prior.value))
    ensures IndexAll(index, props[..k + 1], o, prior)
         == IndexProp(IndexAll(index, props[..k], o, prior), props[k], o, prior)
  {
    assert props[..k + 1][..k] == props[..k];
  }

  /** Until the loop reaches "id", which is last, the "id" entry still finds the object stored before. */
  lemma FindId(props: seq<Prop>, before: Db, o: Obj, k: nat)
    requires Saving(props, before, o) && k < |props|
    ensures Find(props, "id") == Some(ID)
    ensures ByKey(before.(index := IndexUpTo(props, before, o, k)), Key(ID, Int(IdOf(o)))) == PriorOf(before, o)
  {
    assert ID in props;
    FindThere(props, ID);
    PriorById(props, before, IdOf(o));
    IdEntryStays(props, before, o, k);
  }

  lemma IdEntryStays(props: seq<Prop>, before: Db, o: Obj, k: nat)
    requires Saving(props, before, o) && k < |props|
    ensures SameEntry(before.index, IndexUpTo(props, before, o, k), Key(ID, Int(IdOf(o))))
  {
    NotFound(props[..k], "id");
    WrittenAll(before.index, props[..k], o, PriorOf(before, o), "id", Shown(Int(IdOf(o))));
  }

  lemma RangeOfOne(props: seq<Prop>, db: Db, key: string, val: Value)
    requires Inv(props, db) && Find(props, key).Some? && HasType(Find(props, key).value, val)
    ensures forall i :: i in InRange(db, key, val, val) <==> i in db.storage && Attr(db.storage[i], key) == Some(val)
  {
    forall i | i in db.storage && key in db.storage[i]
      ensures Le(val, db.storage[i][key]) && Le(db.storage[i][key], val) <==> db.storage[i][key] == val
    {
      var w := db.storage[i][key];
      assert HasType(Find(props, key).value, w);
      if val.Str? {
        LexReflexive(val.s);
        if LexLe(val.s, w.s) && LexLe(w.s, val.s) { LexAntisymmetric(val.s, w.s); }
      }
    }
  }

  lemma SomeMember(s: set<int>)
    requires s != {}
    ensures exists i :: i in s
  {
    assert (forall i :: i !in s) ==> s == {};
  }

  ghost function Elements(ids: seq<int>): set<int> { set i | i in ids }

  lemma ElementsSnoc(ids: seq<int>, k: nat)
    requires k < |ids| && forall a, b :: 0 <= a < b < |ids| ==> ids[a] != ids[b]
    ensures Elements(ids[..k + 1]) == Elements(ids[..k]) + {ids[k]}
    ensures ids[k] !in Elements(ids[..k])
  {}

  lemma ListsOneMore(objs: seq<Obj>, ids: set<int>, db: Db, id: int)
    requires Lists(objs, ids, db) && id in db.storage && id !in ids && IdOf(db.storage[id]) == id
    ensures Lists(objs + [db.storage[id]], ids + {id}, db)
  {
    var o := db.storage[id];
    var more := objs + [o];
    forall a, b | 0 <= a < b < |more| ensures IdOf(more[a]) != IdOf(more[b]) {
      assert more[a] == objs[a] && objs[a] in objs;
      if b < |objs| { assert more[b] == objs[b]; } else { assert IdOf(objs[a]) in ids; }
    }
    forall x | x in more ensures IdOf(x) in ids + {id} {
      assert x in objs || x == o;
    }
    forall i | i in ids + {id} ensures i in db.storage && db.storage[i] in more {
      if i == id { assert more[|objs|] == o; } else { assert i in ids; }
    }
  }

  /** A range column holds the stored objects' values. */
  lemma TableIsExact(props: seq<Prop>, db: Db, key: string, min: Value, max: Value)
    requires Inv(props, db) && Find(props, key).Some? && Find(props, key).value.indexKey
    ensures forall i :: i in InRange(db, key, min, max) <==>
      i in db.rows && key in db.rows[i] && Le(min, db.rows[i][key]) && Le(db.rows[i][key], max)
  {
    FindThere(props, ID);
    assert ID in props;
    assert InTable(props, key);
  }

  // ---------------------------------------------------------------------------------------
  // Theorems about every reachable state
  // ---------------------------------------------------------------------------------------

  /** A client's steps: taking an id, and saving an object. */
  datatype Op = Create | Save(o: Obj)

  /** A save does something only for a well-typed object with an id already handed out, and only when
      it passes the uniqueness check. */
  ghost function Step(props: seq<Prop>, db: Db, op: Op): Db
    requires Inv(props, db)
  {
    match op
    case Create => db.(lastId := db.lastId + 1)
    case Save(o) =>
      if Typed(props, o) && 1 <= IdOf(o) <= db.lastId && !Conflict(props, db, o) then Stored(props, db, o) else db
  }

  ghost function Run(props: seq<Prop>, ops: seq<Op>): (db: Db)
    requires Schema(props)
    ensures Inv(props, db)
  {
    if ops == [] then EMPTY
    else
      var before, op := Run(props, ops[..|ops| - 1]), ops[|ops| - 1];
      StepKeepsInv(props, before, op);
      Step(props, before, op)
  }

  lemma StepKeepsInv(props: seq<Prop>, db: Db, op: Op)
    requires Inv(props, db)
    ensures Inv(props, Step(props, db, op))
  {
    if op.Save? && Typed(props, op.o) && 1 <= IdOf(op.o) <= db.lastId && !Conflict(props, db, op.o) {
      StoredKeepsInv(props, db, op.o);
    }
  }

  /** In every reachable state no two stored objects share a unique property's value, and the index
      leads from each unique value to the object that has it. */
  lemma UniqueValues(props: seq<Prop>, ops: seq<Op>, p: Prop, i: int, j: int)
    requires Schema(props) && p in props && p.unique
    requires i in Run(props, ops).storage && j in Run(props, ops).storage && i != j
    ensures var db := Run(props, ops);
      Attr(db.storage[i], p.name) != Attr(db.storage[j], p.name) && Attr(db.storage[i], p.name).Some? &&
      ByKey(db, Key(p, Attr(db.storage[i], p.name).value)) == Some(db.storage[i])
  {
    var db := Run(props, ops);
    assert db.index[Key(p, db.storage[i][p.name])] == i && db.index[Key(p, db.storage[j][p.name])] == j;
  }

  /** What an indexed property's entry under a truthy value leads to has that value. */
  lemma IndexIsSound(props: seq<Prop>, ops: seq<Op>, p: Prop, v: Value, o: Obj)
    requires Schema(props) && p in props && p.index && HasType(p, v) && Truthy(v)
    requires ByKey(Run(props, ops), Key(p, v)) == Some(o)
    ensures Attr(o, p.name) == Some(v)
  {}

  /** Under the invariant a lookup of a truthy value in a unique property's index is a scan. */
  lemma UniqueLookup(props: seq<Prop>, db: Db, p: Prop, v: Value)
    requires Inv(props, db) && p in props && p.unique && HasType(p, v) && (Truthy(v) || p == ID)
    ensures ScanAnswer(db, p.name, v, ByKey(db, Key(p, v)))
  {
    forall i | i in db.storage && Attr(db.storage[i], p.name) == Some(v)
      ensures ByKey(db, Key(p, v)) == Some(db.storage[i])
    {
      assert Key(p, db.storage[i][p.name]) in db.index;
    }
    var r := ByKey(db, Key(p, v));
    if r.Some? && Truthy(v) { assert Attr(db.storage[db.index[Key(p, v)]], p.name) == Some(v); }
    if p == ID && !Truthy(v) {
      assert v == Int(0);
    }
  }

  /** Another stored object has the object's value of the property. */
  ghost predicate Taken(db: Db, p: Prop, o: Obj)
    requires p.name in o
  {
    exists i :: i in db.storage && i != IdOf(o) && Attr(db.storage[i], p.name) == Some(o[p.name])
  }

  /** A value of a unique property that is taken is always noticed; a truthy one, or an id, is found
      taken only when it is. */
  lemma ClashMeans(props: seq<Prop>, db: Db, p: Prop, o: Obj)
    requires Inv(props, db) && p in props && p.unique && Typed(props, o)
    ensures Taken(db, p, o) ==> Clash(db, p, o)
    ensures Clash(db, p, o) && (Truthy(o[p.name]) || p == ID) ==> Taken(db, p, o)
  {
    var v := o[p.name];
    if i :| i in db.storage && i != IdOf(o) && Attr(db.storage[i], p.name) == Some(v) {
      HolderFound(props, db, p, i, v);
    }
    if Clash(db, p, o) && (Truthy(v) || p == ID) { UniqueLookup(props, db, p, v); }
  }

  /** A stored object is found under its value of a unique property. */
  lemma HolderFound(props: seq<Prop>, db: Db, p: Prop, i: int, v: Value)
    requires Inv(props, db) && p in props && p.unique && i in db.storage && Attr(db.storage[i], p.name) == Some(v)
    ensures ByKey(db, Key(p, v)) == Some(db.storage[i]) && IdOf(db.storage[i]) == i
  {
    assert Key(p, db.storage[i][p.name]) in db.index;
  }

  /** An object whose unique values are truthy is refused exactly when one of them is taken. */
  lemma RefusedExactly(props: seq<Prop>, db: Db, o: Obj)
    requires Inv(props, db) && Typed(props, o)
    requires forall p :: p in props && p.unique ==> Truthy(o[p.name]) || p == ID
    ensures Conflict(props, db, o) <==> exists p :: p in props && p.unique && Taken(db, p, o)
  {
    forall p | p in props && p.unique ensures Clash(db, p, o) <==> Taken(db, p, o) {
      ClashMeans(props, db, p, o);
    }
  }

  // -- objects for runs that fail

  /** Truthy values, different for 1 and 2. */
  function Filler(p: Prop, n: int): Value { if p.isInt then Int(n) else Str(if n == 1 then "a" else "b") }

  /** The object with the fillers for n, and with id n. */
  ghost function Uniform(props: seq<Prop>, n: int): (o: Obj)
    requires Schema(props)
    ensures Typed(props, o) && IdOf(o) == n
    ensures forall p :: p in props ==> o[p.name] == Filler(p, n)
  {
    var o := map k | 0 <= k < |props| :: props[k].name := Filler(props[k], n);
    assert ID in props;
    assert o[ID.name] == Filler(ID, n);
    o
  }

  /** That object with another value of one property. */
  ghost function Holder(props: seq<Prop>, n: int, p: Prop, v: Value): (o: Obj)
    requires Schema(props) && p in props && p != ID && HasType(p, v)
    ensures Typed(props, o) && IdOf(o) == n && o[p.name] == v
    ensures forall q :: q in props && q != p ==> o[q.name] == Filler(q, n)
  {
    NamesDiffer(props, p);
    assert ID in props;
    Uniform(props, n)[p.name := v]
  }

  lemma NamesDiffer(props: seq<Prop>, p: Prop)
    requires Schema(props) && p in props
    ensures forall q :: q in props && q.name == p.name ==> q == p
  {
    forall q | q in props && q.name == p.name ensures q == p {
      FindThere(props, p);
      FindThere(props, q);
    }
  }

  lemma RunSnoc(props: seq<Prop>, ops: seq<Op>, op: Op)
    requires Schema(props)
    ensures Run(props, ops + [op]) == Step(props, Run(props, ops), op)
  {
    assert (ops + [op])[..|ops|] == ops;
  }

  /** Two ids handed out, nothing saved. */
  const TWO := EMPTY.(lastId := 2)

  lemma TwoCreated(props: seq<Prop>)
    requires Schema(props)
    ensures Run(props, [] + [Create] + [Create]) == TWO
  {
    RunSnoc(props, [], Create);
    RunSnoc(props, [] + [Create], Create);
  }

  /** Saving the only object there is meets no conflict. */
  lemma OneObject(props: seq<Prop>, db: Db, o: Obj)
    requires Inv(props, db) && Typed(props, o) && 1 <= IdOf(o) <= db.lastId
    requires forall i :: i in db.storage ==> i == IdOf(o)
    ensures Step(props, db, Save(o)) == Stored(props, db, o)
    ensures Inv(props, Stored(props, db, o)) && Stored(props, db, o).lastId == db.lastId
  {
    assert !Conflict(props, db, o);
    StoredKeepsInv(props, db, o);
  }

  /** Neither does saving a second object with other unique values than the first. */
  lemma SecondObject(props: seq<Prop>, db: Db, o: Obj)
    requires Inv(props, db) && Typed(props, o) && IdOf(o) == 2 <= db.lastId
    requires forall i :: i in db.storage ==> i == 1 || i == 2
    requires forall p :: p in props && p.unique ==>
      o[p.name] == Filler(p, 2) && (1 in db.storage ==> db.storage[1][p.name] == Filler(p, 1))
    ensures Step(props, db, Save(o)) == Stored(props, db, o)
    ensures Inv(props, Stored(props, db, o)) && Stored(props, db, o).lastId == db.lastId
  {
    forall p | p in props && p.unique ensures Truthy(o[p.name]) && !Taken(db, p, o) {}
    RefusedExactly(props, db, o);
    StoredKeepsInv(props, db, o);
  }

  // -- falsy values

  /** The state after an object was saved and then saved again with other values. */
  ghost function Twice(props: seq<Prop>, first: Obj, second: Obj): (db: Db)
    requires Schema(props) && Typed(props, first) && Typed(props, second) && IdOf(first) == IdOf(second) == 1
    ensures db.storage == map[1 := second] && db.lastId == 2
  {
    StoredStorage(props, TWO, first);
    Stored(props, Stored(props, TWO, first), second)
  }

  /** That state is reached. */
  lemma TwiceRun(props: seq<Prop>, first: Obj, second: Obj) returns (ops: seq<Op>)
    requires Schema(props) && Typed(props, first) && Typed(props, second) && IdOf(first) == IdOf(second) == 1
    ensures Run(props, ops) == Twice(props, first, second)
  {
    var once := [] + [Create] + [Create] + [Save(first)];
    ops := once + [Save(second)];
    OnceRun(props, first);
    RunSnoc(props, once, Save(second));
    OneObject(props, Stored(props, TWO, first), second);
  }

  lemma OnceRun(props: seq<Prop>, o: Obj)
    requires Schema(props) && Typed(props, o) && IdOf(o) == 1
    ensures Run(props, [] + [Create] + [Create] + [Save(o)]) == Stored(props, TWO, o)
    ensures Stored(props, TWO, o).storage == map[1 := o] && Stored(props, TWO, o).lastId == 2
  {
    TwoCreated(props);
    RunSnoc(props, [] + [Create] + [Create], Save(o));
    OneObject(props, TWO, o);
  }

  /** In it the entry of a falsy value that was given up still leads to the object. */
  lemma EntryStays(props: seq<Prop>, first: Obj, second: Obj, p: Prop, v: Value)
    requires Schema(props) && Typed(props, first) && Typed(props, second) && IdOf(first) == IdOf(second) == 1
    requires p in props && p.index && HasType(p, v) && !Truthy(v) && first[p.name] == v != second[p.name]
    ensures ByKey(Twice(props, first, second), Key(p, v)) == Some(second)
  {
    FirstEntry(props, first, p, v);
    EntryAfter(props, Stored(props, TWO, first), second, p, v);
  }

  lemma FirstEntry(props: seq<Prop>, o: Obj, p: Prop, v: Value)
    requires Schema(props) && Typed(props, o) && IdOf(o) == 1
    requires p in props && p.index && HasType(p, v) && o[p.name] == v
    ensures StorageOk(props, Stored(props, TWO, o)) && Stored(props, TWO, o).storage == map[1 := o]
    ensures Key(p, v) in Stored(props, TWO, o).index && Stored(props, TWO, o).index[Key(p, v)] == 1
  {
    EntryAfter(props, TWO, o, p, v);
    StoredStorage(props, TWO, o);
  }

  /** A falsy value of an indexed property, once given up, still leads to the object that had it. */
  lemma StaleEntry(props: seq<Prop>, p: Prop, v: Value) returns (ops: seq<Op>)
    requires Schema(props) && p in props && p.index && p != ID && HasType(p, v) && !Truthy(v)
    ensures !ScanAnswer(Run(props, ops), p.name, v, ByKey(Run(props, ops), Key(p, v)))
  {
    var first, second := Holder(props, 1, p, v), Uniform(props, 1);
    ops := TwiceRun(props, first, second);
    EntryStays(props, first, second, p, v);
  }

  /** It also gets another object refused although no stored object has the value. */
  lemma FalseRefusal(props: seq<Prop>, p: Prop, v: Value) returns (ops: seq<Op>, o: Obj)
    requires Schema(props) && p in props && p.unique && p != ID && HasType(p, v) && !Truthy(v)
    ensures Typed(props, o) && 1 <= IdOf(o) <= Run(props, ops).lastId && o[p.name] == v
    ensures Clash(Run(props, ops), p, o) && Conflict(props, Run(props, ops), o)
    ensures !Taken(Run(props, ops), p, o)
  {
    var first, second := Holder(props, 1, p, v), Uniform(props, 1);
    ops := TwiceRun(props, first, second);
    EntryStays(props, first, second, p, v);
    o := Holder(props, 2, p, v);
    StaleClash(Run(props, ops), second, p, o);
  }

  /** The only stored object is found under a value it does not have. */
  lemma StaleClash(db: Db, stored: Obj, p: Prop, o: Obj)
    requires p.unique && p.name in o && db.storage == map[1 := stored] && IdOf(stored) == 1 && IdOf(o) == 2
    requires ByKey(db, Key(p, o[p.name])) == Some(stored) && Attr(stored, p.name) != Some(o[p.name])
    ensures Clash(db, p, o) && !Taken(db, p, o)
  {}

  /** The uniqueness test for a value is right about every object in every reachable state exactly
      when the value is truthy (or an id): a falsy one can be found taken when it is free. */
  lemma RefusalExact(props: seq<Prop>, p: Prop, v: Value)
    requires Schema(props) && p in props && p.unique && HasType(p, v)
    ensures (forall ops, o | Typed(props, o) && o[p.name] == v ::
               Clash(Run(props, ops), p, o) <==> Taken(Run(props, ops), p, o))
       <==> ((v != Int(0) && v != Str("")) || p == ID)
  {
    if Truthy(v) || p == ID {
      forall ops, o | Typed(props, o) && o[p.name] == v
        ensures Clash(Run(props, ops), p, o) <==> Taken(Run(props, ops), p, o)
      {
        ClashMeans(props, Run(props, ops), p, o);
      }
    } else {
      var ops, o := FalseRefusal(props, p, v);
    }
  }

  // -- non-unique properties

  function Other(v: Value): Value {
    match v case Int(i) => Int(i + 1) case Str(s) => Str(s + "x")
  }

  /** Two objects whose unique values are the fillers for 1 and 2. */
  ghost predicate Apart(props: seq<Prop>, a: Obj, b: Obj) {
    && Schema(props) && Typed(props, a) && Typed(props, b) && IdOf(a) == 1 && IdOf(b) == 2
    && forall p :: p in props && p.unique ==> a[p.name] == Filler(p, 1) && b[p.name] == Filler(p, 2)
  }

  /** The state after both were saved. */
  ghost function Both(props: seq<Prop>, a: Obj, b: Obj): (db: Db)
    requires Apart(props, a, b)
    ensures Inv(props, db) && db.storage == map[1 := a, 2 := b] && db.lastId == 2
  {
    OneObject(props, TWO, a);
    SecondObject(props, Stored(props, TWO, a), b);
    Stored(props, Stored(props, TWO, a), b)
  }

  /** A run that saves both and then the second with other values. */
  lemma BothRun(props: seq<Prop>, a: Obj, b: Obj, c: Obj) returns (ops: seq<Op>)
    requires Apart(props, a, b) && Apart(props, a, c)
    ensures Run(props, ops) == Stored(props, Both(props, a, b), c)
  {
    var two := [] + [Create] + [Create] + [Save(a)] + [Save(b)];
    ops := two + [Save(c)];
    TwoRun(props, a, b);
    RunSnoc(props, two, Save(c));
    SecondObject(props, Both(props, a, b), c);
  }

  lemma TwoRun(props: seq<Prop>, a: Obj, b: Obj)
    requires Apart(props, a, b)
    ensures Run(props, [] + [Create] + [Create] + [Save(a)] + [Save(b)]) == Both(props, a, b)
  {
    OnceRun(props, a);
    RunSnoc(props, [] + [Create] + [Create] + [Save(a)], Save(b));
    SecondObject(props, Stored(props, TWO, a), b);
  }

  /** An object that gives up a truthy value takes the value's entry away with it. */
  lemma GivenUp(props: seq<Prop>, db: Db, o: Obj, p: Prop, v: Value)
    requires Schema(props) && StorageOk(props, db) && Typed(props, o)
    requires p in props && p.index && HasType(p, v) && Truthy(v)
    requires IdOf(o) in db.storage && db.storage[IdOf(o)][p.name] == v != o[p.name]
    ensures ByKey(Stored(props, db, o), Key(p, v)) == None
  {
    EntryAfter(props, db, o, p, v);
  }

  /** A non-unique index keeps one id per value: for every such property and truthy value there is a
      run after which a stored object has the value and the index finds none. */
  lemma NonUniqueIndexMisses(props: seq<Prop>, p: Prop, v: Value) returns (ops: seq<Op>)
    requires Schema(props) && p in props && p.index && !p.unique && HasType(p, v) && Truthy(v)
    ensures ByKey(Run(props, ops), Key(p, v)) == None
    ensures exists i :: i in Run(props, ops).storage && Attr(Run(props, ops).storage[i], p.name) == Some(v)
  {
    var a, b, c := Holder(props, 1, p, v), Holder(props, 2, p, v), Holder(props, 2, p, Other(v));
    assert Apart(props, a, b) && Apart(props, a, c);
    ops := BothRun(props, a, b, c);
    EntryMissing(props, a, b, c, p, v);
  }

  /** The second object gave the value up: the first still has it, and the index does not know. */
  lemma EntryMissing(props: seq<Prop>, a: Obj, b: Obj, c: Obj, p: Prop, v: Value)
    requires Apart(props, a, b) && Apart(props, a, c)
    requires p in props && p.index && HasType(p, v) && Truthy(v) && a[p.name] == b[p.name] == v != c[p.name]
    ensures var db := Stored(props, Both(props, a, b), c);
      ByKey(db, Key(p, v)) == None && 1 in db.storage && Attr(db.storage[1], p.name) == Some(v)
  {
    GivenUp(props, Both(props, a, b), c, p, v);
    assert Stored(props, Both(props, a, b), c).storage[1] == a;
  }

  /** Looking a value up in an index agrees with scanning, in every reachable state, exactly when the
      property is unique and the value truthy (or the property is the id). */
  lemma IndexLookupExact(props: seq<Prop>, p: Prop, v: Value)
    requires Schema(props) && p in props && p.index && HasType(p, v)
    ensures (forall ops :: ScanAnswer(Run(props, ops), p.name, v, ByKey(Run(props, ops), Key(p, v))))
       <==> p.unique && ((v != Int(0) && v != Str("")) || p == ID)
  {
    if p.unique && (Truthy(v) || p == ID) {
      forall ops ensures ScanAnswer(Run(props, ops), p.name, v, ByKey(Run(props, ops), Key(p, v))) {
        UniqueLookup(props, Run(props, ops), p, v);
      }
    } else if Truthy(v) {
      var ops := NonUniqueIndexMisses(props, p, v);
    } else {
      var ops := StaleEntry(props, p, v);
    }
  }
}
