/** The helper objects of a configuration: a cell for one value, and the list of all fields of an object. Nested objects
    and array elements are values here. */
module ConfigurationHelper {
  import opened StringCodec
  import opened Configuration

  // ----- One value

  /** `fromJson` tells whether the value was read from JSON or is still a default. */
  datatype Cell = Cell(value: Value, defaultValue: Value, fromJson: bool)

  function CellUpdated(c: Cell, e: Result<Json>): Cell {
    match e
    case Error => c
    case Ok(j) =>
      match FromJson(c.defaultValue, j)
      case Ok(v) => c.(value := v, fromJson := true)
      case Error => c
  }

  function CellDefaulted(c: Cell, d: Value): Cell {
    c.(defaultValue := d, value := if c.fromJson then c.value else d)
  }

  class ValueHelper {
    const key: string
    var cell: Cell

    constructor (key: string, defaultValue: Value)
      ensures this.key == key && cell == Cell(defaultValue, defaultValue, false)
    {
      this.key := key;
      cell := Cell(defaultValue, defaultValue, false);
    }

    method SetDefaultValue(d: Value)
      modifies this
      ensures cell == CellDefaulted(old(cell), d)
    {
      cell := cell.(defaultValue := d);
      if !cell.fromJson {
        cell := cell.(value := d);
      }
    }

    /** Fails on a member of the wrong type, if errors are handled strictly. */
    method UpdateValue(json: map<string, Json>, mode: ErrorHandling) returns (ok: bool)
      modifies this
      ensures cell == CellUpdated(old(cell), Get(json, key))
      ensures if key in json && Readable(old(cell).defaultValue, json[key])
              then && cell.fromJson && cell.defaultValue == old(cell).defaultValue
                   && cell.value.SameType(cell.defaultValue) && StandsFor(json[key], cell.value)
              else cell == old(cell)
      ensures ok <==> (key in json && !Readable(old(cell).defaultValue, json[key]) ==> mode == Loose)
    {
      hide FromJson, Readable, StandsFor;
      if key !in json {
        return true;
      }
      ReadValue(cell.defaultValue, json[key]);
      var v := FromJson(cell.defaultValue, json[key]);
      if v.Ok? {
        cell := cell.(value := v.value, fromJson := true);
        return true;
      }
      return mode == Loose;
    }

    method UpdateJson(json: map<string, Json>) returns (r: map<string, Json>)
      ensures r == Put(json, key, if cell.value != cell.defaultValue then Ok(ToJson(cell.value)) else Error)
      ensures if cell.value == cell.defaultValue then r == json - {key}
              else key in r && WrittenAs(cell.value, r[key]) && r == json[key := r[key]]
    {
      hide Marshal;
      if cell.value.VString? {
        MarshalWrites(cell.value.s);
      }
      if cell.value != cell.defaultValue {
        r := json[key := ToJson(cell.value)];
      } else {
        r := json - {key};
      }
    }
  }

  /** A default that is set after loading, such as one that depends on the device, acts as if it had been the default
      from the start; so the round trip of a configuration holds for it as well. */
  lemma LateDefault(d: Value, late: Value, e: Result<Json>)
    requires d.SameType(late)
    ensures CellDefaulted(CellUpdated(Cell(d, d, false), e), late) == CellUpdated(Cell(late, late, false), e)
  {
    if e.Ok? {
      assert FromJson(d, e.value) == FromJson(late, e.value);
    }
  }

  // ----- All fields

  function DefaultObj(schema: Schema): Obj
    decreases schema, 2
  {
    Obj(map[], DefaultFields(schema))
  }

  function DefaultFields(schema: Schema): seq<FieldValue>
    decreases schema, 1
  {
    if schema == [] then [] else DefaultFields(schema[..|schema| - 1]) + [DefaultEntry(schema[|schema| - 1])]
  }

  function DefaultEntry(field: Field): FieldValue
    decreases field, 0
  {
    match field
    case ValueField(_, d) => FV(d)
    case ObjectField(_, schema) => FO(DefaultObj(schema))
    case ArrayField(_, _) => FA([])
  }

  lemma {:induction false} EmptyLoads(schema: Schema, mode: ErrorHandling)
    ensures Load(schema, JObject(map[]), mode) == Ok(DefaultObj(schema))
    decreases schema, 2
  {
    EmptyFieldsLoad(schema, mode);
  }

  lemma {:induction false} EmptyFieldsLoad(schema: Schema, mode: ErrorHandling)
    ensures LoadFields(schema, map[], mode) == Ok(DefaultFields(schema))
    decreases schema, 1
  {
    if schema != [] {
      var n := |schema| - 1;
      EmptyFieldsLoad(schema[..n], mode);
      MissingEntryLoads(schema[n], mode);
    }
  }

  lemma {:induction false} MissingEntryLoads(field: Field, mode: ErrorHandling)
    ensures LoadEntry(field, Error, mode) == Ok(DefaultEntry(field))
    decreases field, 0
  {
    if field.ObjectField? {
      EmptyLoads(field.schema, mode);
    }
  }

  /** One field updated from its member: what is missing, or malformed and tolerated, stays; array elements
      are added. */
  function UpdatedEntry(field: Field, current: FieldValue, e: Result<Json>, mode: ErrorHandling): Result<FieldValue>
    requires FieldMatches(field, current)
  {
    match (field, e)
    case (_, Error) => Ok(current)
    case (ValueField(_, d), Ok(j)) =>
      (match FromJson(d, j)
       case Ok(v) => Ok(FV(v))
       case Error => if mode == Strict then Error else Ok(current))
    case (ObjectField(_, schema), Ok(j)) =>
      (match Load(schema, j, mode)
       case Ok(o) => Ok(FO(o))
       case Error => Error)
    case (ArrayField(_, schema), Ok(j)) =>
      if !j.JArray? then Error
      else match LoadElements(schema, j.items, mode)
        case Ok(objs) => Ok(FA(current.objs + objs))
        case Error => Error
  }

  function UpdatedFields(schema: Schema, fields: seq<FieldValue>, m: map<string, Json>,
                         mode: ErrorHandling): Result<seq<FieldValue>>
    requires |fields| == |schema| && FieldsMatch(schema, fields)
  {
    if schema == [] then Ok([])
    else
      var n := |schema| - 1;
      match (UpdatedFields(schema[..n], fields[..n], m, mode),
        UpdatedEntry(schema[n], fields[n], Get(m, schema[n].key), mode))
      case (Ok(fs), Ok(f)) => Ok(fs + [f])
      case _ => Error
  }

  lemma {:induction false} UpdatedFieldsStop(schema: Schema, fields: seq<FieldValue>, m: map<string, Json>,
                                             mode: ErrorHandling, i: nat)
    requires |fields| == |schema| && FieldsMatch(schema, fields) && i < |schema| && FieldMatches(schema[i], fields[i])
    requires UpdatedEntry(schema[i], fields[i], Get(m, schema[i].key), mode) == Error
    ensures UpdatedFields(schema, fields, m, mode) == Error
  {
    var n := |schema| - 1;
    if i < n {
      UpdatedFieldsStop(schema[..n], fields[..n], m, mode, i);
    }
  }

  /** What a field holds after an update: what it held before if its member is missing or, which only loose error
      handling lets pass, of another type; else what the member stands for, the elements of an array added. */
  ghost predicate HoldsUpdate(field: Field, current: FieldValue, m: map<string, Json>, mode: ErrorHandling,
                              f: FieldValue)
    requires FieldMatches(field, current)
  {
    if field.key !in m then f == current
    else
      var j := m[field.key];
      match field
      case ValueField(_, d) =>
        if Readable(d, j) then f.FV? && f.value.SameType(d) && StandsFor(j, f.value) else f == current && mode == Loose
      case ObjectField(_, schema) => f.FO? && Load(schema, j, mode) == Ok(f.obj)
      case ArrayField(_, schema) =>
        && j.JArray? && f.FA? && |f.objs| == |current.objs| + |j.items| && f.objs[..|current.objs|] == current.objs
        && forall k :: 0 <= k < |j.items| ==> Load(schema, j.items[k], mode) == Ok(f.objs[|current.objs| + k])
  }

  lemma UpdateOfEntry(field: Field, current: FieldValue, m: map<string, Json>, mode: ErrorHandling)
    requires FieldMatches(field, current)
    ensures var r := UpdatedEntry(field, current, Get(m, field.key), mode);
            && (r.Ok? ==> HoldsUpdate(field, current, m, mode, r.value))
            && (r.Ok? <==> exists f :: HoldsUpdate(field, current, m, mode, f))
  {
    hide Load, LoadElements, FromJson, Readable, StandsFor;
    if field.key in m {
      match field
      case ValueField(_, d) => ReadValue(d, m[field.key]);
      case ObjectField(_, _) =>
      case ArrayField(_, schema) =>
        if m[field.key].JArray? {
          LoadedElements(schema, m[field.key].items, mode);
        }
    }
  }

  lemma {:induction false} UpdatedFieldAt(schema: Schema, fields: seq<FieldValue>, m: map<string, Json>,
                                          mode: ErrorHandling, i: nat)
    requires |fields| == |schema| && FieldsMatch(schema, fields) && i < |schema| && FieldMatches(schema[i], fields[i])
    requires UpdatedFields(schema, fields, m, mode).Ok?
    ensures |UpdatedFields(schema, fields, m, mode).value| == |schema|
    ensures UpdatedEntry(schema[i], fields[i], Get(m, schema[i].key), mode) ==
            Ok(UpdatedFields(schema, fields, m, mode).value[i])
  {
    hide UpdatedEntry, Get;
    var n := |schema| - 1;
    UpdatedLength(schema[..n], fields[..n], m, mode);
    if i < n {
      UpdatedFieldAt(schema[..n], fields[..n], m, mode, i);
    }
  }

  lemma {:induction false} UpdatedLength(schema: Schema, fields: seq<FieldValue>, m: map<string, Json>,
                                         mode: ErrorHandling)
    requires |fields| == |schema| && FieldsMatch(schema, fields) && UpdatedFields(schema, fields, m, mode).Ok?
    ensures |UpdatedFields(schema, fields, m, mode).value| == |schema|
  {
    hide UpdatedEntry, Get;
    if schema != [] {
      UpdatedLength(schema[..|schema| - 1], fields[..|schema| - 1], m, mode);
    }
  }

  /** A successful update leaves every field as its member, or the lack of one, tells. */
  lemma UpdateMeans(schema: Schema, fields: seq<FieldValue>, m: map<string, Json>, mode: ErrorHandling, i: nat)
    requires |fields| == |schema| && FieldsMatch(schema, fields) && i < |schema|
    requires UpdatedFields(schema, fields, m, mode).Ok?
    ensures var fs := UpdatedFields(schema, fields, m, mode).value;
            |fs| == |schema| && FieldMatches(schema[i], fields[i]) && HoldsUpdate(schema[i], fields[i], m, mode, fs[i])
  {
    hide UpdatedFields, HoldsUpdate, Get;
    FieldsMatchAt(schema, fields, i);
    UpdatedFieldAt(schema, fields, m, mode, i);
    UpdateOfEntry(schema[i], fields[i], m, mode);
  }

  // ----- What a failed update leaves

  /** The objects of the items before the first that cannot be loaded. */
  function Loadable(schema: Schema, items: seq<Json>, mode: ErrorHandling): seq<Obj> {
    if items == [] then []
    else match Load(schema, items[0], mode)
      case Ok(o) => [o] + Loadable(schema, items[1..], mode)
      case Error => []
  }

  /** An array keeps the elements before the one that failed, every other field that fails is left alone. */
  function LeftEntry(field: Field, current: FieldValue, e: Result<Json>, mode: ErrorHandling): FieldValue
    requires FieldMatches(field, current)
  {
    match UpdatedEntry(field, current, e, mode)
    case Ok(v) => v
    case Error =>
      match (field, e)
      case (ArrayField(_, schema), Ok(JArray(items))) => FA(current.objs + Loadable(schema, items, mode))
      case _ => current
  }

  /** The fields after the update, which goes no further than to the first that fails. */
  function LeftFields(schema: Schema, fields: seq<FieldValue>, m: map<string, Json>,
                      mode: ErrorHandling): seq<FieldValue>
    requires |fields| == |schema| && FieldsMatch(schema, fields)
  {
    if schema == [] then []
    else
      var n := |schema| - 1;
      LeftFields(schema[..n], fields[..n], m, mode)
      + [if UpdatedFields(schema[..n], fields[..n], m, mode).Ok?
        then LeftEntry(schema[n], fields[n], Get(m, schema[n].key), mode)
         else fields[n]]
  }

  /** These are the objects of the items up to the first that cannot be loaded. */
  lemma {:induction false} LoadableAre(schema: Schema, items: seq<Json>, mode: ErrorHandling)
    ensures var objs := Loadable(schema, items, mode);
            && |objs| <= |items|
            && (forall k :: 0 <= k < |objs| ==> Load(schema, items[k], mode) == Ok(objs[k]))
            && (|objs| < |items| ==> Load(schema, items[|objs|], mode) == Error)
  {
    hide Load;
    if items != [] {
      LoadableAre(schema, items[1..], mode);
      assert forall k :: 0 <= k < |items| - 1 ==> items[1..][k] == items[k + 1];
    }
  }

  /** A field whose update fails is as before, but for an array, which keeps the elements that came before the one that
      failed. */
  lemma LeftMeans(field: Field, current: FieldValue, m: map<string, Json>, mode: ErrorHandling)
    requires FieldMatches(field, current) && UpdatedEntry(field, current, Get(m, field.key), mode) == Error
    ensures var f := LeftEntry(field, current, Get(m, field.key), mode);
            if field.ArrayField? && m[field.key].JArray? then
              var items := m[field.key].items;
              && f.FA? && current.objs <= f.objs && |f.objs| < |current.objs| + |items|
              && (forall k :: |current.objs| <= k < |f.objs| ==>
                    Load(field.schema, items[k - |current.objs|], mode) == Ok(f.objs[k]))
              && Load(field.schema, items[|f.objs| - |current.objs|], mode) == Error
            else f == current
  {
    hide Load, LoadElements, Loadable, FromJson;
    assert field.key in m;
    if field.ArrayField? && m[field.key].JArray? {
      var items := m[field.key].items;
      LoadableAre(field.schema, items, mode);
      LoadedElements(field.schema, items, mode);
    }
  }

  /** If nothing fails, these are the updated fields. */
  lemma {:induction false} LeftIfUpdated(schema: Schema, fields: seq<FieldValue>, m: map<string, Json>,
                                         mode: ErrorHandling)
    requires |fields| == |schema| && FieldsMatch(schema, fields) && UpdatedFields(schema, fields, m, mode).Ok?
    ensures LeftFields(schema, fields, m, mode) == UpdatedFields(schema, fields, m, mode).value
  {
    if schema != [] {
      var n := |schema| - 1;
      LeftIfUpdated(schema[..n], fields[..n], m, mode);
    }
  }

  /** If field `i` is the first that fails, the later ones are as they were. */
  lemma {:induction false} LeftIfStopped(schema: Schema, fields: seq<FieldValue>, m: map<string, Json>,
                                         mode: ErrorHandling, i: nat)
    requires |fields| == |schema| && FieldsMatch(schema, fields) && i < |schema| && FieldMatches(schema[i], fields[i])
    requires FieldsMatch(schema[..i], fields[..i]) && UpdatedFields(schema[..i], fields[..i], m, mode).Ok?
    requires UpdatedEntry(schema[i], fields[i], Get(m, schema[i].key), mode) == Error
    ensures LeftFields(schema, fields, m, mode) ==
            UpdatedFields(schema[..i], fields[..i], m, mode).value
            + [LeftEntry(schema[i], fields[i], Get(m, schema[i].key), mode)] + fields[i + 1..]
  {
    hide LeftEntry, UpdatedEntry, FieldMatches;
    var n := |schema| - 1;
    if i < n {
      assert schema[..n][..i] == schema[..i] && fields[..n][..i] == fields[..i];
      assert schema[..n][i] == schema[i] && fields[..n][i] == fields[i];
      LeftIfStopped(schema[..n], fields[..n], m, mode, i);
      UpdatedFieldsStop(schema[..n], fields[..n], m, mode, i);
      assert fields[i + 1..] == fields[..n][i + 1..] + [fields[n]];
    } else {
      LeftIfUpdated(schema[..n], fields[..n], m, mode);
      assert fields[i + 1..] == [];
    }
  }

  lemma {:induction false} LoadElementsStep(schema: Schema, items: seq<Json>, mode: ErrorHandling, i: nat)
    requires i < |items| && LoadElements(schema, items[..i], mode).Ok?
    ensures LoadElements(schema, items[..i + 1], mode) ==
            match Load(schema, items[i], mode)
            case Ok(o) => Ok(LoadElements(schema, items[..i], mode).value + [o])
            case Error => Error
    ensures Load(schema, items[i], mode) == Error ==> LoadElements(schema, items, mode) == Error
    decreases |items|
  {
    assert items[..i + 1][..i] == items[..i];
    var n := |items| - 1;
    if i < n {
      assert items[..n][..i] == items[..i];
      LoadElementsStep(schema, items[..n], mode, i);
    } else {
      assert items[..i + 1] == items;
    }
  }

  lemma LoadableFrom(schema: Schema, items: seq<Json>, mode: ErrorHandling, i: nat)
    requires i < |items|
    ensures Loadable(schema, items[i..], mode) ==
            match Load(schema, items[i], mode)
            case Ok(o) => [o] + Loadable(schema, items[i + 1..], mode)
            case Error => []
  {
    assert items[i..][0] == items[i] && items[i..][1..] == items[i + 1..];
  }

  /** Adds the objects of the items in turn, until one cannot be loaded. */
  method PushElements(schema: Schema, current: seq<Obj>, items: seq<Json>, mode: ErrorHandling)
    returns (objs: seq<Obj>, ok: bool)
    ensures ok <==> LoadElements(schema, items, mode).Ok?
    ensures ok ==> objs == current + LoadElements(schema, items, mode).value
    ensures objs == current + Loadable(schema, items, mode)
  {
    hide Load, LoadElements, Loadable;
    objs := current;
    NoElements(schema, mode);
    assert items[..0] == [] && items[0..] == items && current + [] == current;
    for i := 0 to |items|
      invariant LoadElements(schema, items[..i], mode).Ok?
                && objs == current + LoadElements(schema, items[..i], mode).value
      invariant objs + Loadable(schema, items[i..], mode) == current + Loadable(schema, items, mode)
    {
      LoadElementsStep(schema, items, mode, i);
      LoadableFrom(schema, items, mode, i);
      match Load(schema, items[i], mode) {
        case Ok(o) =>
          assert objs + ([o] + Loadable(schema, items[i + 1..], mode)) ==
                 objs + [o] + Loadable(schema, items[i + 1..], mode);
          objs := objs + [o];
        case Error =>
          assert objs + [] == objs;
          return objs, false;
      }
    }
    assert items[..|items|] == items && items[|items|..] == [] && objs + [] == objs;
    ok := true;
  }

  lemma NoElements(schema: Schema, mode: ErrorHandling)
    ensures LoadElements(schema, [], mode) == Ok([]) && Loadable(schema, [], mode) == []
  {
  }

  lemma {:induction false} ElementsMatchAppend(schema: Schema, a: seq<Obj>, b: seq<Obj>)
    requires ElementsMatch(schema, a) && ElementsMatch(schema, b)
    ensures ElementsMatch(schema, a + b)
    decreases |b|
  {
    if b == [] {
      assert a + b == a;
    } else {
      var n := |b| - 1;
      ElementsMatchAppend(schema, a, b[..n]);
      assert (a + b)[..|a + b| - 1] == a + b[..n] && (a + b)[|a + b| - 1] == b[n];
    }
  }

  lemma UpdatedEntryMatches(field: Field, current: FieldValue, e: Result<Json>, mode: ErrorHandling)
    requires FieldMatches(field, current) && UpdatedEntry(field, current, e, mode).Ok?
    ensures FieldMatches(field, UpdatedEntry(field, current, e, mode).value)
  {
    if e.Ok? {
      match field
      case ValueField(_, d) => FromJsonType(d, e.value);
      case ObjectField(_, schema) => LoadMatches(schema, e.value, mode);
      case ArrayField(_, schema) =>
        LoadElementsMatch(schema, e.value.items, mode);
        ElementsMatchAppend(schema, current.objs, LoadElements(schema, e.value.items, mode).value);
    }
  }

  lemma {:induction false} UpdatedFieldsMatch(schema: Schema, fields: seq<FieldValue>, m: map<string, Json>,
                                              mode: ErrorHandling)
    requires |fields| == |schema| && FieldsMatch(schema, fields) && UpdatedFields(schema, fields, m, mode).Ok?
    ensures var r := UpdatedFields(schema, fields, m, mode).value; |r| == |schema| && FieldsMatch(schema, r)
  {
    if schema != [] {
      var n := |schema| - 1;
      UpdatedFieldsMatch(schema[..n], fields[..n], m, mode);
      UpdatedEntryMatches(schema[n], fields[n], Get(m, schema[n].key), mode);
      var rs := UpdatedFields(schema[..n], fields[..n], m, mode).value;
      assert (rs + [UpdatedEntry(schema[n], fields[n], Get(m, schema[n].key), mode).value])[..n] == rs;
    }
  }

  lemma {:induction false} LoadableMatch(schema: Schema, items: seq<Json>, mode: ErrorHandling)
    ensures ElementsMatch(schema, Loadable(schema, items, mode))
  {
    if items != [] && Load(schema, items[0], mode).Ok? {
      var o := Load(schema, items[0], mode).value;
      LoadableMatch(schema, items[1..], mode);
      LoadMatches(schema, items[0], mode);
      assert [o][..0] == [];
      ElementsMatchAppend(schema, [o], Loadable(schema, items[1..], mode));
    }
  }

  lemma LeftEntryMatches(field: Field, current: FieldValue, e: Result<Json>, mode: ErrorHandling)
    requires FieldMatches(field, current)
    ensures FieldMatches(field, LeftEntry(field, current, e, mode))
  {
    if UpdatedEntry(field, current, e, mode).Ok? {
      UpdatedEntryMatches(field, current, e, mode);
    } else if field.ArrayField? && e.Ok? && e.value.JArray? {
      LoadableMatch(field.schema, e.value.items, mode);
      ElementsMatchAppend(field.schema, current.objs, Loadable(field.schema, e.value.items, mode));
    }
  }

  lemma {:induction false} LeftFieldsMatch(schema: Schema, fields: seq<FieldValue>, m: map<string, Json>,
                                           mode: ErrorHandling)
    requires |fields| == |schema| && FieldsMatch(schema, fields)
    ensures var r := LeftFields(schema, fields, m, mode); |r| == |schema| && FieldsMatch(schema, r)
  {
    if schema != [] {
      var n := |schema| - 1;
      LeftFieldsMatch(schema[..n], fields[..n], m, mode);
      LeftEntryMatches(schema[n], fields[n], Get(m, schema[n].key), mode);
      assert LeftFields(schema, fields, m, mode)[..n] == LeftFields(schema[..n], fields[..n], m, mode);
    }
  }

  lemma FreshEntryLoads(field: Field, e: Result<Json>, mode: ErrorHandling)
    ensures FieldMatches(field, DefaultEntry(field))
    ensures UpdatedEntry(field, DefaultEntry(field), e, mode) == LoadEntry(field, e, mode)
  {
    MissingEntryLoads(field, mode);
    LoadEntryMatches(field, Error, mode);
    if field.ArrayField? && e.Ok? && e.value.JArray? && LoadElements(field.schema, e.value.items, mode).Ok? {
      var objs := LoadElements(field.schema, e.value.items, mode).value;
      assert [] + objs == objs;
    }
  }

  /** Updating fresh values is loading. */
  lemma {:induction false} FreshFieldsLoad(schema: Schema, m: map<string, Json>, mode: ErrorHandling)
    ensures |DefaultFields(schema)| == |schema| && FieldsMatch(schema, DefaultFields(schema))
    ensures UpdatedFields(schema, DefaultFields(schema), m, mode) == LoadFields(schema, m, mode)
  {
    if schema != [] {
      var n := |schema| - 1;
      FreshFieldsLoad(schema[..n], m, mode);
      FreshEntryLoads(schema[n], Get(m, schema[n].key), mode);
      assert DefaultFields(schema)[..n] == DefaultFields(schema[..n]);
    }
  }

  lemma NoFields(m: map<string, Json>, mode: ErrorHandling)
    ensures FieldsMatch([], []) && UpdatedFields([], [], m, mode) == Ok([])
  {
  }

  lemma Splice<T>(values: seq<T>, before: seq<T>, i: nat, v: T)
    requires i < |values| == |before| && values[i..] == before[i..]
    ensures var r := values[i := v];
            && r[..i + 1] == values[..i] + [v] && r[i + 1..] == before[i + 1..]
            && r == values[..i] + [v] + before[i + 1..]
  {
    assert values[i + 1..] == values[i..][1..] && before[i + 1..] == before[i..][1..];
  }

  lemma UpdatedFieldsStep(schema: Schema, fields: seq<FieldValue>, m: map<string, Json>, mode: ErrorHandling, i: nat)
    requires |fields| == |schema| && i < |schema| && FieldsMatch(schema[..i], fields[..i])
             && FieldMatches(schema[i], fields[i])
    ensures FieldsMatch(schema[..i + 1], fields[..i + 1])
    ensures UpdatedFields(schema[..i + 1], fields[..i + 1], m, mode) ==
            match (UpdatedFields(schema[..i], fields[..i], m, mode),
              UpdatedEntry(schema[i], fields[i], Get(m, schema[i].key), mode))
            case (Ok(fs), Ok(f)) => Ok(fs + [f])
            case _ => Error
  {
    assert schema[..i + 1][..i] == schema[..i] && fields[..i + 1][..i] == fields[..i];
  }

  /** Updates one field: a value is replaced if it can be read, an object is loaded anew, and array elements
      are added. */
  method UpdateField(field: Field, current: FieldValue, e: Result<Json>, mode: ErrorHandling)
    returns (v: FieldValue, ok: bool)
    requires FieldMatches(field, current)
    ensures v == LeftEntry(field, current, e, mode)
    ensures ok <==> UpdatedEntry(field, current, e, mode).Ok?
    ensures ok ==> UpdatedEntry(field, current, e, mode) == Ok(v)
  {
    v, ok := current, true;
    if e.Ok? {
      match field
      case ValueField(_, d) =>
        var r := FromJson(d, e.value);
        if r.Ok? {
          v := FV(r.value);
        } else {
          ok := mode != Strict;
        }
      case ObjectField(_, schema) =>
        var r := Load(schema, e.value, mode);
        if r.Ok? {
          v := FO(r.value);
        } else {
          ok := false;
        }
      case ArrayField(_, schema) =>
        if e.value.JArray? {
          var objs, good := PushElements(schema, current.objs, e.value.items, mode);
          v, ok := FA(objs), good;
        } else {
          ok := false;
        }
    }
  }

  class HelperValues {
    const schema: Schema
    var values: seq<FieldValue>

    ghost predicate Valid()
      reads this
    {
      |values| == |schema| && FieldsMatch(schema, values)
    }

    constructor (schema: Schema)
      ensures this.schema == schema && values == DefaultFields(schema) && Valid()
    {
      this.schema := schema;
      values := DefaultFields(schema);
      EmptyFieldsLoad(schema, Loose);
      LoadFieldsMatch(schema, map[], Loose);
    }

    /** Updates the fields in turn and stops at the first that fails, which keeps what was written before. */
    method UpdateValue(json: map<string, Json>, mode: ErrorHandling) returns (ok: bool)
      requires Valid()
      modifies this
      ensures Valid() && values == LeftFields(schema, old(values), json, mode)
      ensures ok <==> UpdatedFields(schema, old(values), json, mode).Ok?
      ensures ok ==> values == UpdatedFields(schema, old(values), json, mode).value
    {
      hide UpdatedEntry, LeftEntry, UpdatedFields, LeftFields, FieldMatches, FieldsMatch;
      ghost var before := values;
      AllMatch(schema, before);
      LeftFieldsMatch(schema, before, json, mode);
      NoFields(json, mode);
      assert schema[..|schema|] == schema && before[..|schema|] == before && before[..0] == [] && schema[..0] == [];
      var i := 0;
      while i < |schema|
        invariant 0 <= i <= |schema| == |values|
        invariant values[i..] == before[i..]
        invariant FieldsMatch(schema[..i], before[..i])
        invariant UpdatedFields(schema[..i], before[..i], json, mode) == Ok(values[..i])
        decreases |schema| - i
      {
        UpdatedFieldsStep(schema, before, json, mode, i);
        assert values[i] == values[i..][0] == before[i..][0] == before[i];
        var v, good := UpdateField(schema[i], values[i], Get(json, schema[i].key), mode);
        Splice(values, before, i, v);
        values := values[i := v];
        if !good {
          UpdatedFieldsStop(schema, before, json, mode, i);
          LeftIfStopped(schema, before, json, mode, i);
          return false;
        }
        i := i + 1;
      }
      assert values[..|schema|] == values;
      LeftIfUpdated(schema, before, json, mode);
      return true;
    }

    /** Puts every field in or takes it out. */
    method UpdateJson(json: map<string, Json>) returns (r: map<string, Json>)
      requires Valid()
      ensures r == SaveFields(schema, values, json)
    {
      r := json;
      AllMatch(schema, values);
      assert schema[..|schema|] == schema && values[..|values|] == values;
      var i := 0;
      while i < |schema|
        invariant 0 <= i <= |schema| && FieldsMatch(schema[..i], values[..i])
        invariant r == SaveFields(schema[..i], values[..i], json)
        decreases |schema| - i
      {
        assert schema[..i + 1][..i] == schema[..i] && values[..i + 1][..i] == values[..i];
        r := Put(r, schema[i].key, SavedEntry(schema[i], values[i]));
        i := i + 1;
      }
    }
  }

  lemma AllMatch(schema: Schema, fields: seq<FieldValue>)
    requires |fields| == |schema| && FieldsMatch(schema, fields)
    ensures forall i :: 0 <= i < |schema| ==> FieldMatches(schema[i], fields[i])
  {
    forall i | 0 <= i < |schema| ensures FieldMatches(schema[i], fields[i]) {
      FieldsMatchAt(schema, fields, i);
    }
  }
}
