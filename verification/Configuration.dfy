/** The helpers that load a configuration from JSON along a schema and write it back, leaving out what has its default
    value and keeping what the schema does not know. */
module Configuration {
  import opened StringCodec
  import Types

  datatype Value =
    | VBool(b: bool)
    | VInt(i: int)
    | VDouble(r: real)
    | VString(s: string)
    | VMilliseconds(ms: int)
  {
    predicate SameType(v: Value) {
      VBool? == v.VBool? && VInt? == v.VInt? && VDouble? == v.VDouble? && VString? == v.VString?
        && VMilliseconds? == v.VMilliseconds?
    }
  }

  datatype Field =
    | ValueField(key: string, defaultValue: Value)
    | ObjectField(key: string, schema: seq<Field>)
    | ArrayField(key: string, schema: seq<Field>)

  type Schema = seq<Field>

  /** A configuration object: the JSON it was made from and the value of each field of its schema. */
  datatype Obj = Obj(json: map<string, Json>, fields: seq<FieldValue>)

  datatype FieldValue = FV(value: Value) | FO(obj: Obj) | FA(objs: seq<Obj>)

  datatype ErrorHandling = Strict | Loose

  // ----- Values

  /** The value of the type of `like` that `j` holds. */
  function FromJson(like: Value, j: Json): Result<Value> {
    match like
    case VBool(_) => if j.JBool? then Ok(VBool(j.b)) else Error
    case VInt(_) => if j.JInt? then Ok(VInt(j.i)) else if j.JReal? then Ok(VInt(Types.Truncate(j.r))) else Error
    case VDouble(_) => if j.JReal? then Ok(VDouble(j.r)) else if j.JInt? then Ok(VDouble(j.i as real)) else Error
    case VString(_) => (match Unmarshal(j) case Ok(s) => Ok(VString(s)) case Error => Error)
    case VMilliseconds(_) =>
      if j.JInt? then Ok(VMilliseconds(j.i)) else if j.JReal? then Ok(VMilliseconds(Types.Truncate(j.r))) else Error
  }

  function ToJson(v: Value): Json {
    match v
    case VBool(b) => JBool(b)
    case VInt(i) => JInt(i)
    case VDouble(r) => JReal(r)
    case VString(s) => Marshal(s)
    case VMilliseconds(ms) => JInt(ms)
  }

  // ----- Loading

  function Get(m: map<string, Json>, key: string): Result<Json> {
    if key in m then Ok(m[key]) else Error
  }

  function Load(schema: Schema, j: Json, mode: ErrorHandling): Result<Obj>
    decreases schema, 2, 0
  {
    if !j.JObject? then Error
    else match LoadFields(schema, j.members, mode)
      case Ok(fields) => Ok(Obj(j.members, fields))
      case Error => Error
  }

  function LoadFields(schema: Schema, m: map<string, Json>, mode: ErrorHandling): Result<seq<FieldValue>>
    decreases schema, 1, 0
  {
    if schema == [] then Ok([])
    else
      var n := |schema| - 1;
      match (LoadFields(schema[..n], m, mode), LoadEntry(schema[n], Get(m, schema[n].key), mode))
      case (Ok(fields), Ok(f)) => Ok(fields + [f])
      case _ => Error
  }

  /** Loads one field from its member of the JSON object, if there is one. */
  function LoadEntry(field: Field, e: Result<Json>, mode: ErrorHandling): Result<FieldValue>
    decreases field, 0, 0
  {
    match field
    case ValueField(_, d) =>
      (match e
       case Error => Ok(FV(d))
       case Ok(j) =>
         match FromJson(d, j)
         case Ok(v) => Ok(FV(v))
         case Error => if mode == Strict then Error else Ok(FV(d)))
    case ObjectField(_, schema) =>
      (match Load(schema, match e case Ok(j) => j case Error => JObject(map[]), mode)
       case Ok(o) => Ok(FO(o))
       case Error => Error)
    case ArrayField(_, schema) =>
      match e
      case Error => Ok(FA([]))
      case Ok(j) =>
        if !j.JArray? then Error
        else match LoadElements(schema, j.items, mode)
          case Ok(objs) => Ok(FA(objs))
          case Error => Error
  }

  function LoadElements(schema: Schema, items: seq<Json>, mode: ErrorHandling): Result<seq<Obj>>
    decreases schema, 3, |items|
  {
    if items == [] then Ok([])
    else
      var n := |items| - 1;
      match (LoadElements(schema, items[..n], mode), Load(schema, items[n], mode))
      case (Ok(objs), Ok(o)) => Ok(objs + [o])
      case _ => Error
  }

  // ----- Saving

  predicate Matches(schema: Schema, o: Obj)
    decreases schema, 2, 0
  {
    |o.fields| == |schema| && FieldsMatch(schema, o.fields)
  }

  predicate FieldsMatch(schema: Schema, fields: seq<FieldValue>)
    requires |fields| == |schema|
    decreases schema, 1, 0
  {
    schema == [] || var n := |schema| - 1; FieldsMatch(schema[..n], fields[..n]) && FieldMatches(schema[n], fields[n])
  }

  predicate FieldMatches(field: Field, f: FieldValue)
    decreases field, 0, 0
  {
    match field
    case ValueField(_, d) => f.FV? && f.value.SameType(d)
    case ObjectField(_, schema) => f.FO? && Matches(schema, f.obj)
    case ArrayField(_, schema) => f.FA? && ElementsMatch(schema, f.objs)
  }

  predicate ElementsMatch(schema: Schema, objs: seq<Obj>)
    decreases schema, 3, |objs|
  {
    objs == [] || var n := |objs| - 1; ElementsMatch(schema, objs[..n]) && Matches(schema, objs[n])
  }

  /** The JSON that an object is written as: the JSON it was made from, with every field put in or taken out. */
  function Save(schema: Schema, o: Obj): map<string, Json>
    requires Matches(schema, o)
    decreases schema, 2, 0
  {
    SaveFields(schema, o.fields, o.json)
  }

  function SaveFields(schema: Schema, fields: seq<FieldValue>, m: map<string, Json>): map<string, Json>
    requires |fields| == |schema| && FieldsMatch(schema, fields)
    decreases schema, 1, 0
  {
    if schema == [] then m
    else
      var n := |schema| - 1;
      Put(SaveFields(schema[..n], fields[..n], m), schema[n].key, SavedEntry(schema[n], fields[n]))
  }

  function Put(m: map<string, Json>, key: string, e: Result<Json>): map<string, Json> {
    match e case Ok(j) => m[key := j] case Error => m - {key}
  }

  /** The member that a field is written as, if it is not left out. */
  function SavedEntry(field: Field, f: FieldValue): Result<Json>
    requires FieldMatches(field, f)
    decreases field, 0, 0
  {
    match field
    case ValueField(_, d) => if f.value != d then Ok(ToJson(f.value)) else Error
    case ObjectField(_, schema) => var j := Save(schema, f.obj); if j != map[] then Ok(JObject(j)) else Error
    case ArrayField(_, schema) => var items := SaveElements(schema, f.objs);
      if items != [] then Ok(JArray(items)) else Error
  }

  function SaveElements(schema: Schema, objs: seq<Obj>): seq<Json>
    requires ElementsMatch(schema, objs)
    decreases schema, 3, |objs|
  {
    if objs == [] then []
    else
      var n := |objs| - 1;
      var j := Save(schema, objs[n]);
      SaveElements(schema, objs[..n]) + if j != map[] then [JObject(j)] else []
  }

  // ----- What an object means

  /** The values of an object without the JSON it was made from. */
  datatype View = VV(value: Value) | VO(fields: seq<View>) | VA(objs: seq<View>)

  function ViewOf(o: Obj): View
    decreases o, 1, 0
  {
    VO(ViewFields(o.fields))
  }

  function ViewFields(fields: seq<FieldValue>): seq<View>
    decreases fields, 0, 0
  {
    if fields == [] then [] else ViewFields(fields[..|fields| - 1]) + [ViewField(fields[|fields| - 1])]
  }

  function ViewField(f: FieldValue): View
    decreases f, 0, 0
  {
    match f
    case FV(v) => VV(v)
    case FO(o) => ViewOf(o)
    case FA(objs) => VA(ViewElements(objs))
  }

  function ViewElements(objs: seq<Obj>): seq<View>
    decreases objs, 2, 0
  {
    if objs == [] then [] else ViewElements(objs[..|objs| - 1]) + [ViewOf(objs[|objs| - 1])]
  }

  /** The values without the array elements that would be written as nothing. */
  ghost function Kept(schema: Schema, o: Obj): View
    requires Matches(schema, o)
    decreases schema, 2, 0
  {
    VO(KeptFields(schema, o.fields))
  }

  ghost function KeptFields(schema: Schema, fields: seq<FieldValue>): seq<View>
    requires |fields| == |schema| && FieldsMatch(schema, fields)
    decreases schema, 1, 0
  {
    if schema == [] then []
    else var n := |schema| - 1; KeptFields(schema[..n], fields[..n]) + [KeptField(schema[n], fields[n])]
  }

  ghost function KeptField(field: Field, f: FieldValue): View
    requires FieldMatches(field, f)
    decreases field, 0, 0
  {
    match field
    case ValueField(_, _) => VV(f.value)
    case ObjectField(_, schema) => Kept(schema, f.obj)
    case ArrayField(_, schema) => VA(KeptElements(schema, f.objs))
  }

  ghost function KeptElements(schema: Schema, objs: seq<Obj>): seq<View>
    requires ElementsMatch(schema, objs)
    decreases schema, 3, |objs|
  {
    if objs == [] then []
    else
      var n := |objs| - 1;
      KeptElements(schema, objs[..n]) + if Save(schema, objs[n]) != map[] then [Kept(schema, objs[n])] else []
  }

  /** No string ends with a newline, unless it is the default of its field. */
  ghost predicate StringsKept(schema: Schema, o: Obj)
    requires Matches(schema, o)
    decreases schema, 2, 0
  {
    FieldStringsKept(schema, o.fields)
  }

  ghost predicate FieldStringsKept(schema: Schema, fields: seq<FieldValue>)
    requires |fields| == |schema| && FieldsMatch(schema, fields)
    decreases schema, 1, 0
  {
    schema == [] ||
    var n := |schema| - 1;
    FieldStringsKept(schema[..n], fields[..n]) && StringKept(schema[n], fields[n])
  }

  ghost predicate StringKept(field: Field, f: FieldValue)
    requires FieldMatches(field, f)
    decreases field, 0, 0
  {
    match field
    case ValueField(_, d) => f.value.VString? && EndsWithNewline(f.value.s) ==> f.value == d
    case ObjectField(_, schema) => StringsKept(schema, f.obj)
    case ArrayField(_, schema) => ElementStringsKept(schema, f.objs)
  }

  ghost predicate ElementStringsKept(schema: Schema, objs: seq<Obj>)
    requires ElementsMatch(schema, objs)
    decreases schema, 3, |objs|
  {
    objs == [] || var n := |objs| - 1; ElementStringsKept(schema, objs[..n]) && StringsKept(schema, objs[n])
  }

  /** Every string that is written and ends with a newline is written in the same way without it. */
  ghost predicate SavedAgain(schema: Schema, o: Obj)
    requires Matches(schema, o)
    decreases schema, 2, 0
  {
    FieldsSavedAgain(schema, o.fields)
  }

  ghost predicate FieldsSavedAgain(schema: Schema, fields: seq<FieldValue>)
    requires |fields| == |schema| && FieldsMatch(schema, fields)
    decreases schema, 1, 0
  {
    schema == [] ||
    var n := |schema| - 1;
    FieldsSavedAgain(schema[..n], fields[..n]) && FieldSavedAgain(schema[n], fields[n])
  }

  ghost predicate FieldSavedAgain(field: Field, f: FieldValue)
    requires FieldMatches(field, f)
    decreases field, 0, 0
  {
    match field
    case ValueField(_, d) =>
      f.value.VString? && EndsWithNewline(f.value.s) ==>
        f.value == d || (FinalNewlineIsSpare(f.value.s) && VString(f.value.s[..|f.value.s| - 1]) != d)
    case ObjectField(_, schema) => SavedAgain(schema, f.obj)
    case ArrayField(_, schema) => ElementsSavedAgain(schema, f.objs)
  }

  ghost predicate ElementsSavedAgain(schema: Schema, objs: seq<Obj>)
    requires ElementsMatch(schema, objs)
    decreases schema, 3, |objs|
  {
    objs == [] || var n := |objs| - 1; ElementsSavedAgain(schema, objs[..n]) && SavedAgain(schema, objs[n])
  }

  lemma {:induction false} KeptIsSavedAgain(schema: Schema, o: Obj)
    requires Matches(schema, o) && StringsKept(schema, o)
    ensures SavedAgain(schema, o)
    decreases schema, 2, 0
  {
    KeptFieldsSavedAgain(schema, o.fields);
  }

  lemma {:induction false} KeptFieldsSavedAgain(schema: Schema, fields: seq<FieldValue>)
    requires |fields| == |schema| && FieldsMatch(schema, fields) && FieldStringsKept(schema, fields)
    ensures FieldsSavedAgain(schema, fields)
    decreases schema, 1, 0
  {
    if schema != [] {
      var n := |schema| - 1;
      KeptFieldsSavedAgain(schema[..n], fields[..n]);
      match schema[n]
      case ValueField(_, _) =>
      case ObjectField(_, nested) => KeptIsSavedAgain(nested, fields[n].obj);
      case ArrayField(_, nested) => KeptElementsSavedAgain(nested, fields[n].objs);
    }
  }

  lemma {:induction false} KeptElementsSavedAgain(schema: Schema, objs: seq<Obj>)
    requires ElementsMatch(schema, objs) && ElementStringsKept(schema, objs)
    ensures ElementsSavedAgain(schema, objs)
    decreases schema, 3, |objs|
  {
    if objs != [] {
      KeptElementsSavedAgain(schema, objs[..|objs| - 1]);
      KeptIsSavedAgain(schema, objs[|objs| - 1]);
    }
  }

  /** No key twice in a schema or in one of its parts. */
  ghost predicate DistinctKeys(schema: Schema)
    decreases schema, 1
  {
    && (forall i, j :: 0 <= i < j < |schema| ==> schema[i].key != schema[j].key)
    && forall f :: f in schema ==> NestedKeysDistinct(f)
  }

  ghost predicate NestedKeysDistinct(f: Field)
    decreases f, 0
  {
    f.ValueField? || DistinctKeys(f.schema)
  }

  // ----- Members of the saved object

  lemma {:induction false} OtherMembersKept(schema: Schema, fields: seq<FieldValue>, m: map<string, Json>, key: string)
    requires |fields| == |schema| && FieldsMatch(schema, fields)
    requires forall f :: f in schema ==> f.key != key
    ensures Get(SaveFields(schema, fields, m), key) == Get(m, key)
  {
    if schema != [] {
      var n := |schema| - 1;
      assert schema[n] in schema;
      OtherMembersKept(schema[..n], fields[..n], m, key);
    }
  }

  /** Writing keeps every member of the original JSON that the schema does not know. */
  lemma UnknownKeysKept(schema: Schema, o: Obj, key: string)
    requires Matches(schema, o) && forall f :: f in schema ==> f.key != key
    ensures Get(Save(schema, o), key) == Get(o.json, key)
  {
    OtherMembersKept(schema, o.fields, o.json, key);
  }

  lemma {:induction false} FieldsMatchAt(schema: Schema, fields: seq<FieldValue>, i: nat)
    requires |fields| == |schema| && FieldsMatch(schema, fields) && i < |schema|
    ensures FieldMatches(schema[i], fields[i])
  {
    if i < |schema| - 1 {
      FieldsMatchAt(schema[..|schema| - 1], fields[..|schema| - 1], i);
    }
  }

  /** Each field finds what it wrote. */
  lemma {:induction false} MemberOfField(schema: Schema, fields: seq<FieldValue>, m: map<string, Json>, i: nat)
    requires |fields| == |schema| && FieldsMatch(schema, fields) && i < |schema| && FieldMatches(schema[i], fields[i])
    requires forall a, b :: 0 <= a < b < |schema| ==> schema[a].key != schema[b].key
    ensures Get(SaveFields(schema, fields, m), schema[i].key) == SavedEntry(schema[i], fields[i])
  {
    var n := |schema| - 1;
    if i < n {
      MemberOfField(schema[..n], fields[..n], m, i);
    }
  }

  // ----- Round trip

  lemma ValueRoundTrip(d: Value, v: Value, mode: ErrorHandling)
    requires v.SameType(d) && v != d
    ensures FromJson(d, ToJson(v)) == Ok(if v.VString? && EndsWithNewline(v.s) then VString(v.s[..|v.s| - 1]) else v)
    ensures v.VString? && EndsWithNewline(v.s) ==>
              (ToJson(VString(v.s[..|v.s| - 1])) == ToJson(v) <==> FinalNewlineIsSpare(v.s))
  {
    hide Marshal, Unmarshal, FinalNewlineIsSpare;
    if v.VString? {
      RoundTrip(v.s);
      if EndsWithNewline(v.s) {
        MarshalWithoutNewline(v.s);
      }
    }
  }

  /** What loading brings back of an object that was saved. */
  ghost predicate Returns(schema: Schema, o: Obj, mode: ErrorHandling)
    requires Matches(schema, o)
  {
    var r := Load(schema, JObject(Save(schema, o)), mode);
    && r.Ok? && Matches(schema, r.value)
    && (ViewOf(r.value) == Kept(schema, o) <==> StringsKept(schema, o))
    && (Save(schema, r.value) == Save(schema, o) <==> SavedAgain(schema, o))
  }

  ghost predicate FieldReturns(field: Field, f: FieldValue, mode: ErrorHandling)
    requires FieldMatches(field, f)
  {
    var r := LoadEntry(field, SavedEntry(field, f), mode);
    && r.Ok? && FieldMatches(field, r.value)
    && (ViewField(r.value) == KeptField(field, f) <==> StringKept(field, f))
    && (SavedEntry(field, r.value) == SavedEntry(field, f) <==> FieldSavedAgain(field, f))
  }

  ghost predicate ElementsReturn(schema: Schema, objs: seq<Obj>, mode: ErrorHandling)
    requires ElementsMatch(schema, objs)
  {
    var r := LoadElements(schema, SaveElements(schema, objs), mode);
    && r.Ok? && ElementsMatch(schema, r.value)
    && (ViewElements(r.value) == KeptElements(schema, objs) <==> ElementStringsKept(schema, objs))
    && (SaveElements(schema, r.value) == SaveElements(schema, objs) <==> ElementsSavedAgain(schema, objs))
  }

  ghost predicate FieldsReturn(schema: Schema, fields: seq<FieldValue>, m: map<string, Json>, mode: ErrorHandling)
    requires |fields| == |schema| && FieldsMatch(schema, fields)
  {
    var r := LoadFields(schema, m, mode);
    && r.Ok? && |r.value| == |schema| && FieldsMatch(schema, r.value)
    && (ViewFields(r.value) == KeptFields(schema, fields) <==> FieldStringsKept(schema, fields))
    && (SaveFields(schema, r.value, m) == m <==> FieldsSavedAgain(schema, fields))
  }

  lemma {:induction false} ObjReturns(schema: Schema, o: Obj, mode: ErrorHandling)
    requires Matches(schema, o) && DistinctKeys(schema)
    ensures Returns(schema, o, mode)
    decreases schema, 2, 0
  {
    var m := Save(schema, o);
    forall i | 0 <= i < |schema|
      ensures FieldMatches(schema[i], o.fields[i]) && Get(m, schema[i].key) == SavedEntry(schema[i], o.fields[i])
    {
      FieldsMatchAt(schema, o.fields, i);
      MemberOfField(schema, o.fields, o.json, i);
    }
    FieldsReturnAll(schema, o.fields, m, mode);
  }

  lemma {:induction false} FieldsReturnAll(schema: Schema, fields: seq<FieldValue>, m: map<string, Json>,
                                           mode: ErrorHandling)
    requires |fields| == |schema| && FieldsMatch(schema, fields)
    requires DistinctKeys(schema)
    requires forall i :: 0 <= i < |schema| ==>
                           FieldMatches(schema[i], fields[i])
                             && Get(m, schema[i].key) == SavedEntry(schema[i], fields[i])
    ensures FieldsReturn(schema, fields, m, mode)
    decreases schema, 1, 0
  {
    if schema != [] {
      var n := |schema| - 1;
      assert schema[n] in schema && forall f :: f in schema[..n] ==> f in schema;
      FieldsReturnAll(schema[..n], fields[..n], m, mode);
      OneFieldReturns(schema[n], fields[n], mode);
      FieldsReturnSnoc(schema, fields, m, mode);
    }
  }

  lemma FieldsReturnSnoc(schema: Schema, fields: seq<FieldValue>, m: map<string, Json>, mode: ErrorHandling)
    requires |fields| == |schema| && FieldsMatch(schema, fields) && schema != []
    requires var n := |schema| - 1;
             && FieldsReturn(schema[..n], fields[..n], m, mode)
             && FieldReturns(schema[n], fields[n], mode)
             && Get(m, schema[n].key) == SavedEntry(schema[n], fields[n])
             && forall i :: 0 <= i < n ==> schema[i].key != schema[n].key
    ensures FieldsReturn(schema, fields, m, mode)
  {
    var n := |schema| - 1;
    var rs, r := LoadFields(schema[..n], m, mode).value, LoadEntry(schema[n], Get(m, schema[n].key), mode).value;
    var all := rs + [r];
    assert LoadFields(schema, m, mode) == Ok(all);
    assert all[..n] == rs && all[n] == r;
    ViewFieldsLength(rs);
    KeptFieldsLength(schema[..n], fields[..n]);
    SnocEqual(ViewFields(rs), ViewField(r), KeptFields(schema[..n], fields[..n]), KeptField(schema[n], fields[n]));
    SavedSnoc(schema[..n], rs, m, schema[n], r);
  }

  lemma SnocEqual(a: seq<View>, x: View, b: seq<View>, y: View)
    requires |a| == |b|
    ensures a + [x] == b + [y] <==> a == b && x == y
  {
    assert (a + [x])[..|a|] == a && (b + [y])[..|b|] == b;
    assert (a + [x])[|a|] == x && (b + [y])[|b|] == y;
  }

  /** The fields are written as `m` already has them exactly if each of them is. */
  lemma SavedSnoc(schema: Schema, fields: seq<FieldValue>, m: map<string, Json>, field: Field, f: FieldValue)
    requires |fields| == |schema| && FieldsMatch(schema, fields) && FieldMatches(field, f)
    requires forall i :: 0 <= i < |schema| ==> schema[i].key != field.key
    ensures Put(SaveFields(schema, fields, m), field.key, SavedEntry(field, f)) == m <==>
            SaveFields(schema, fields, m) == m && SavedEntry(field, f) == Get(m, field.key)
  {
    OtherMembersKept(schema, fields, m, field.key);
    PutTells(SaveFields(schema, fields, m), m, field.key, SavedEntry(field, f));
  }

  lemma PutTells(s: map<string, Json>, m: map<string, Json>, key: string, e: Result<Json>)
    requires Get(s, key) == Get(m, key)
    ensures Put(s, key, e) == m <==> s == m && e == Get(m, key)
  {
    var r := Put(s, key, e);
    assert Get(r, key) == e;
    assert forall k :: k != key ==> Get(r, k) == Get(s, k);
    if r == m {
      forall k ensures Get(s, k) == Get(m, k) {
        assert k != key ==> Get(r, k) == Get(s, k);
      }
      SameMembers(s, m);
    }
    if s == m && e == Get(m, key) {
      forall k ensures Get(r, k) == Get(m, k) {
        assert k != key ==> Get(r, k) == Get(s, k);
      }
      SameMembers(r, m);
    }
  }

  lemma SameMembers(a: map<string, Json>, b: map<string, Json>)
    requires forall k :: Get(a, k) == Get(b, k)
    ensures a == b
  {
    assert forall k :: k in a <==> Get(a, k).Ok?;
    assert forall k :: k in b <==> Get(b, k).Ok?;
    assert forall k :: k in a ==> Get(a, k) == Ok(a[k]) && Get(b, k) == Ok(b[k]);
  }

  lemma {:induction false} ViewFieldsLength(fields: seq<FieldValue>)
    ensures |ViewFields(fields)| == |fields|
  {
    if fields != [] {
      ViewFieldsLength(fields[..|fields| - 1]);
    }
  }

  lemma {:induction false} KeptFieldsLength(schema: Schema, fields: seq<FieldValue>)
    requires |fields| == |schema| && FieldsMatch(schema, fields)
    ensures |KeptFields(schema, fields)| == |schema|
  {
    if schema != [] {
      KeptFieldsLength(schema[..|schema| - 1], fields[..|schema| - 1]);
    }
  }

  lemma ValueFieldReturns(field: Field, f: FieldValue, mode: ErrorHandling)
    requires FieldMatches(field, f) && field.ValueField?
    ensures FieldReturns(field, f, mode)
  {
    hide FromJson, ToJson, FinalNewlineIsSpare;
    if f.value != field.defaultValue {
      ValueRoundTrip(field.defaultValue, f.value, mode);
    }
  }

  lemma ObjectFieldReturns(field: Field, f: FieldValue, mode: ErrorHandling)
    requires FieldMatches(field, f) && field.ObjectField? && Returns(field.schema, f.obj, mode)
    ensures FieldReturns(field, f, mode)
  {
    hide Load, Save, Matches, ViewOf, Kept, StringsKept, SavedAgain;
  }

  lemma NoElementLoads(schema: Schema, mode: ErrorHandling)
    ensures LoadElements(schema, [], mode) == Ok([]) && SaveElements(schema, []) == []
  {
  }

  lemma ArrayFieldReturns(field: Field, f: FieldValue, mode: ErrorHandling)
    requires FieldMatches(field, f) && field.ArrayField? && ElementsReturn(field.schema, f.objs, mode)
    ensures FieldReturns(field, f, mode)
  {
    hide LoadElements, SaveElements, ElementsMatch, ViewElements, KeptElements, ElementStringsKept, ElementsSavedAgain;
    NoElementLoads(field.schema, mode);
  }

  lemma {:induction false} OneFieldReturns(field: Field, f: FieldValue, mode: ErrorHandling)
    requires FieldMatches(field, f) && NestedKeysDistinct(field)
    ensures FieldReturns(field, f, mode)
    decreases field, 0, 0
  {
    hide FieldReturns, Returns, ElementsReturn;
    match field
    case ValueField(_, _) =>
      ValueFieldReturns(field, f, mode);
    case ObjectField(_, schema) =>
      ObjReturns(schema, f.obj, mode);
      ObjectFieldReturns(field, f, mode);
    case ArrayField(_, schema) =>
      ElementsReturnAll(schema, f.objs, mode);
      ArrayFieldReturns(field, f, mode);
  }

  lemma {:induction false} ElementsReturnAll(schema: Schema, objs: seq<Obj>, mode: ErrorHandling)
    requires ElementsMatch(schema, objs) && DistinctKeys(schema)
    ensures ElementsReturn(schema, objs, mode)
    decreases schema, 3, |objs|
  {
    if objs != [] {
      var n := |objs| - 1;
      ElementsReturnAll(schema, objs[..n], mode);
      ObjReturns(schema, objs[n], mode);
      if Save(schema, objs[n]) == map[] {
        NothingSaved(schema, objs[n]);
        assert SaveElements(schema, objs) == SaveElements(schema, objs[..n]);
        assert KeptElements(schema, objs) == KeptElements(schema, objs[..n]);
      } else {
        ElementsReturnSnoc(schema, objs, mode);
      }
    }
  }

  lemma ElementsReturnSnoc(schema: Schema, objs: seq<Obj>, mode: ErrorHandling)
    requires ElementsMatch(schema, objs) && objs != []
    requires var n := |objs| - 1;
             ElementsReturn(schema, objs[..n], mode) && Returns(schema, objs[n], mode) && Save(schema, objs[n]) != map[]
    ensures ElementsReturn(schema, objs, mode)
  {
    var n := |objs| - 1;
    var items, j := SaveElements(schema, objs[..n]), JObject(Save(schema, objs[n]));
    var rs, r := LoadElements(schema, items, mode).value, Load(schema, j, mode).value;
    var all := rs + [r];
    assert SaveElements(schema, objs) == items + [j];
    assert (items + [j])[..|items|] == items;
    assert LoadElements(schema, items + [j], mode) == Ok(all);
    assert all[..|rs|] == rs && all[|rs|] == r;
    ElementCounts(schema, objs[..n], mode);
    SnocEqual(ViewElements(rs), ViewOf(r), KeptElements(schema, objs[..n]), Kept(schema, objs[n]));
    LoadedLength(schema, items, mode);
    SavedElementsSnoc(schema, rs, r, items, Save(schema, objs[n]));
  }

  /** Elements are written as `items` and `j` exactly if the last is written as `j` and the others as `items`. */
  lemma SavedElementsSnoc(schema: Schema, rs: seq<Obj>, r: Obj, items: seq<Json>, j: map<string, Json>)
    requires ElementsMatch(schema, rs) && Matches(schema, r) && |rs| == |items| && j != map[]
    ensures ElementsMatch(schema, rs + [r])
    ensures SaveElements(schema, rs + [r]) == items + [JObject(j)] <==>
            SaveElements(schema, rs) == items && Save(schema, r) == j
  {
    var all, saved := rs + [r], SaveElements(schema, rs);
    assert all[..|rs|] == rs && all[|rs|] == r;
    FewerSaved(schema, rs);
    if Save(schema, r) == map[] {
      assert SaveElements(schema, all) == saved + [] == saved;
    } else {
      assert SaveElements(schema, all) == saved + [JObject(Save(schema, r))];
      if saved + [JObject(Save(schema, r))] == items + [JObject(j)] {
        assert |saved| == |items|;
        assert (saved + [JObject(Save(schema, r))])[|saved|] == (items + [JObject(j)])[|items|];
        assert saved == (saved + [JObject(Save(schema, r))])[..|saved|] == (items + [JObject(j)])[..|items|] == items;
      }
    }
  }

  lemma {:induction false} FewerSaved(schema: Schema, objs: seq<Obj>)
    requires ElementsMatch(schema, objs)
    ensures |SaveElements(schema, objs)| <= |objs|
  {
    if objs != [] {
      FewerSaved(schema, objs[..|objs| - 1]);
    }
  }

  lemma {:induction false} LoadedLength(schema: Schema, items: seq<Json>, mode: ErrorHandling)
    requires LoadElements(schema, items, mode).Ok?
    ensures |LoadElements(schema, items, mode).value| == |items|
    decreases |items|
  {
    if items != [] {
      LoadedLength(schema, items[..|items| - 1], mode);
    }
  }

  lemma {:induction false} LoadedCount(schema: Schema, items: seq<Json>, mode: ErrorHandling)
    requires LoadElements(schema, items, mode).Ok?
    ensures |ViewElements(LoadElements(schema, items, mode).value)| == |items|
    decreases |items|
  {
    if items != [] {
      var n := |items| - 1;
      LoadedCount(schema, items[..n], mode);
      var rs, r := LoadElements(schema, items[..n], mode).value, Load(schema, items[n], mode).value;
      assert (rs + [r])[..|rs|] == rs;
    }
  }

  lemma {:induction false} SavedCount(schema: Schema, objs: seq<Obj>)
    requires ElementsMatch(schema, objs)
    ensures |KeptElements(schema, objs)| == |SaveElements(schema, objs)|
    decreases |objs|
  {
    if objs != [] {
      SavedCount(schema, objs[..|objs| - 1]);
    }
  }

  lemma ElementCounts(schema: Schema, objs: seq<Obj>, mode: ErrorHandling)
    requires ElementsMatch(schema, objs) && LoadElements(schema, SaveElements(schema, objs), mode).Ok?
    ensures |ViewElements(LoadElements(schema, SaveElements(schema, objs), mode).value)| == |KeptElements(schema, objs)|
  {
    LoadedCount(schema, SaveElements(schema, objs), mode);
    SavedCount(schema, objs);
  }

  /** An object that is written as nothing has only default values, so no string of it is lost. */
  lemma {:induction false} NothingSaved(schema: Schema, o: Obj)
    requires Matches(schema, o) && DistinctKeys(schema) && Save(schema, o) == map[]
    ensures StringsKept(schema, o) && SavedAgain(schema, o)
    decreases schema, 2, 0
  {
    forall i | 0 <= i < |schema| ensures FieldMatches(schema[i], o.fields[i]) && StringKept(schema[i], o.fields[i]) {
      FieldsMatchAt(schema, o.fields, i);
      MemberOfField(schema, o.fields, o.json, i);
      assert schema[i] in schema;
      if schema[i].ObjectField? {
        NothingSaved(schema[i].schema, o.fields[i].obj);
      } else if schema[i].ArrayField? {
        NoElementSaved(schema[i].schema, o.fields[i].objs);
      }
    }
    AllStringsKept(schema, o.fields);
    KeptIsSavedAgain(schema, o);
  }

  lemma {:induction false} NoElementSaved(schema: Schema, objs: seq<Obj>)
    requires ElementsMatch(schema, objs) && DistinctKeys(schema) && SaveElements(schema, objs) == []
    ensures ElementStringsKept(schema, objs)
    decreases schema, 3, |objs|
  {
    if objs != [] {
      NoElementSaved(schema, objs[..|objs| - 1]);
      NothingSaved(schema, objs[|objs| - 1]);
    }
  }

  lemma {:induction false} AllStringsKept(schema: Schema, fields: seq<FieldValue>)
    requires |fields| == |schema| && FieldsMatch(schema, fields)
    requires forall i :: 0 <= i < |schema| ==> FieldMatches(schema[i], fields[i]) && StringKept(schema[i], fields[i])
    ensures FieldStringsKept(schema, fields)
  {
    if schema != [] {
      AllStringsKept(schema[..|schema| - 1], fields[..|schema| - 1]);
    }
  }

  /** Whatever the values of a configuration, what is written can be read again, even strictly. The values come back,
      but for array elements that are written as nothing, exactly if no string that is not a default ends with a
      newline.
      Then writing again gives the same JSON; and it does exactly if each such string is written the same without its
      last newline. */
  lemma ConfigurationRoundTrip(schema: Schema, o: Obj, mode: ErrorHandling)
    requires Matches(schema, o) && DistinctKeys(schema)
    ensures var saved := Save(schema, o);
            var r := Load(schema, JObject(saved), mode);
            && r.Ok? && Matches(schema, r.value)
            && (ViewOf(r.value) == Kept(schema, o) <==> StringsKept(schema, o))
            && (StringsKept(schema, o) ==> SavedAgain(schema, o))
            && (Save(schema, r.value) == saved <==> SavedAgain(schema, o))
            && (forall key :: key !in KeysOf(schema) ==> Get(saved, key) == Get(o.json, key))
  {
    ObjReturns(schema, o, mode);
    if StringsKept(schema, o) {
      KeptIsSavedAgain(schema, o);
    }
    forall key | key !in KeysOf(schema) ensures Get(Save(schema, o), key) == Get(o.json, key) {
      UnknownKeysKept(schema, o, key);
    }
  }

  function KeysOf(schema: Schema): set<string> {
    set f | f in schema :: f.key
  }

  // ----- Loading gives objects of the schema

  lemma FromJsonType(d: Value, j: Json)
    ensures FromJson(d, j).Ok? ==> FromJson(d, j).value.SameType(d)
  {
  }

  lemma {:induction false} LoadMatches(schema: Schema, j: Json, mode: ErrorHandling)
    requires Load(schema, j, mode).Ok?
    ensures Matches(schema, Load(schema, j, mode).value)
    decreases schema, 2, 0
  {
    LoadFieldsMatch(schema, j.members, mode);
  }

  lemma {:induction false} LoadFieldsMatch(schema: Schema, m: map<string, Json>, mode: ErrorHandling)
    requires LoadFields(schema, m, mode).Ok?
    ensures var r := LoadFields(schema, m, mode).value; |r| == |schema| && FieldsMatch(schema, r)
    decreases schema, 1, 0
  {
    if schema != [] {
      var n := |schema| - 1;
      LoadFieldsMatch(schema[..n], m, mode);
      LoadEntryMatches(schema[n], Get(m, schema[n].key), mode);
      var rs := LoadFields(schema[..n], m, mode).value;
      assert (rs + [LoadEntry(schema[n], Get(m, schema[n].key), mode).value])[..n] == rs;
    }
  }

  lemma {:induction false} LoadEntryMatches(field: Field, e: Result<Json>, mode: ErrorHandling)
    requires LoadEntry(field, e, mode).Ok?
    ensures FieldMatches(field, LoadEntry(field, e, mode).value)
    decreases field, 0, 0
  {
    match field
    case ValueField(_, d) =>
      if e.Ok? { FromJsonType(d, e.value); }
    case ObjectField(_, schema) =>
      LoadMatches(schema, match e case Ok(j) => j case Error => JObject(map[]), mode);
    case ArrayField(_, schema) =>
      if e.Ok? { LoadElementsMatch(schema, e.value.items, mode); }
  }

  lemma {:induction false} LoadElementsMatch(schema: Schema, items: seq<Json>, mode: ErrorHandling)
    requires LoadElements(schema, items, mode).Ok?
    ensures ElementsMatch(schema, LoadElements(schema, items, mode).value)
    decreases schema, 3, |items|
  {
    if items != [] {
      var n := |items| - 1;
      LoadElementsMatch(schema, items[..n], mode);
      LoadMatches(schema, items[n], mode);
      var rs := LoadElements(schema, items[..n], mode).value;
      assert (rs + [Load(schema, items[n], mode).value])[..|rs|] == rs;
    }
  }

  // ----- What the members of a JSON object stand for

  /** `i` is `r` rounded toward zero. */
  ghost predicate TowardZero(r: real, i: int) {
    if r >= 0.0 then i as real <= r < i as real + 1.0 else i as real - 1.0 < r <= i as real
  }

  ghost predicate StandsFor(j: Json, v: Value) {
    match v
    case VBool(b) => j == JBool(b)
    case VInt(i) => j == JInt(i) || (j.JReal? && TowardZero(j.r, i))
    case VDouble(r) => j == JReal(r) || (j.JInt? && r == j.i as real)
    case VString(s) => j == JString(s) || (j.JArray? && exists lines :: AreStrings(j.items, lines) && IsText(s, lines))
    case VMilliseconds(ms) => j == JInt(ms) || (j.JReal? && TowardZero(j.r, ms))
  }

  /** The JSON types that a value like `d` can be read from. */
  predicate Readable(d: Value, j: Json) {
    match d
    case VBool(_) => j.JBool?
    case VString(_) => j.JString? || (j.JArray? && forall k :: 0 <= k < |j.items| ==> j.items[k].JString?)
    case _ => j.JInt? || j.JReal?
  }

  lemma ReadValue(d: Value, j: Json)
    ensures FromJson(d, j).Ok? <==> Readable(d, j)
    ensures FromJson(d, j).Ok? ==> FromJson(d, j).value.SameType(d) && StandsFor(j, FromJson(d, j).value)
  {
    hide Unmarshal;
    if d.VString? {
      UnmarshalReads(j);
    }
  }

  lemma SameStrings(items: seq<Json>, lines: seq<string>, lines': seq<string>)
    requires AreStrings(items, lines) && AreStrings(items, lines')
    ensures lines == lines'
  {
    forall k | 0 <= k < |lines| ensures lines[k] == lines'[k] {
      assert items[k] == JString(lines[k]);
    }
  }

  /** A JSON value stands for at most one value of a type. */
  lemma StandsForOne(j: Json, v: Value, w: Value)
    requires v.SameType(w) && StandsFor(j, v) && StandsFor(j, w)
    ensures v == w
  {
    if v.VString? && j.JArray? {
      var lines :| AreStrings(j.items, lines) && IsText(v.s, lines);
      var lines' :| AreStrings(j.items, lines') && IsText(w.s, lines');
      SameStrings(j.items, lines, lines');
      assert lines != [] ==> (v.s + "\n")[..|v.s|] == v.s && (w.s + "\n")[..|w.s|] == w.s;
    }
  }

  /** What a field holds after loading: a value what its member stands for, and its default if the member is missing or,
      which only loose error handling lets pass, of another type; an object and each element of an array what they are
      loaded as on their own. */
  ghost predicate HoldsMember(field: Field, m: map<string, Json>, mode: ErrorHandling, f: FieldValue) {
    match field
    case ValueField(key, d) =>
      && f.FV? && f.value.SameType(d)
      && (if key in m && Readable(d, m[key]) then StandsFor(m[key], f.value) else f.value == d)
      && (key in m && !Readable(d, m[key]) ==> mode == Loose)
    case ObjectField(key, schema) =>
      f.FO? && Load(schema, if key in m then m[key] else JObject(map[]), mode) == Ok(f.obj)
    case ArrayField(key, schema) =>
      && f.FA?
      && if key !in m then f.objs == []
         else && m[key].JArray? && |f.objs| == |m[key].items|
              && forall k :: 0 <= k < |f.objs| ==> Load(schema, m[key].items[k], mode) == Ok(f.objs[k])
  }

  ghost predicate CanHold(field: Field, m: map<string, Json>, mode: ErrorHandling) {
    exists f :: HoldsMember(field, m, mode, f)
  }

  lemma {:induction false} LoadedElements(schema: Schema, items: seq<Json>, mode: ErrorHandling)
    ensures LoadElements(schema, items, mode).Ok? <==>
            forall k :: 0 <= k < |items| ==> Load(schema, items[k], mode).Ok?
    ensures LoadElements(schema, items, mode).Ok? ==>
              var objs := LoadElements(schema, items, mode).value;
              |objs| == |items| && forall k :: 0 <= k < |items| ==> Load(schema, items[k], mode) == Ok(objs[k])
    decreases |items|
  {
    hide Load;
    if items != [] {
      LoadedElements(schema, items[..|items| - 1], mode);
    }
  }

  lemma LoadedEntry(field: Field, m: map<string, Json>, mode: ErrorHandling)
    ensures var r := LoadEntry(field, Get(m, field.key), mode);
            && (r.Ok? ==> HoldsMember(field, m, mode, r.value))
            && (r.Ok? <==> CanHold(field, m, mode))
  {
    hide Load, LoadElements, FromJson, Readable, StandsFor;
    if field.key in m {
      match field
      case ValueField(_, d) => ReadValue(d, m[field.key]);
      case ObjectField(_, _) =>
      case ArrayField(_, schema) =>
        if m[field.key].JArray? {
          LoadedElements(schema, m[field.key].items, mode);
        }
    }
  }

  lemma {:induction false} LoadedFields(schema: Schema, m: map<string, Json>, mode: ErrorHandling)
    ensures LoadFields(schema, m, mode).Ok? <==>
            forall i :: 0 <= i < |schema| ==> LoadEntry(schema[i], Get(m, schema[i].key), mode).Ok?
    ensures LoadFields(schema, m, mode).Ok? ==>
              var fs := LoadFields(schema, m, mode).value;
              && |fs| == |schema|
              && forall i :: 0 <= i < |schema| ==> LoadEntry(schema[i], Get(m, schema[i].key), mode) == Ok(fs[i])
  {
    hide LoadEntry, Get;
    if schema != [] {
      LoadedFields(schema[..|schema| - 1], m, mode);
    }
  }

  /** Loading succeeds exactly if every field can hold what its member stands for, and then it does. */
  lemma LoadMeans(schema: Schema, j: Json, mode: ErrorHandling)
    ensures Load(schema, j, mode).Ok? <==>
            && j.JObject?
            && forall i :: 0 <= i < |schema| ==> CanHold(schema[i], j.members, mode)
    ensures Load(schema, j, mode).Ok? ==>
              var o := Load(schema, j, mode).value;
              && o.json == j.members && |o.fields| == |schema|
              && forall i :: 0 <= i < |schema| ==> HoldsMember(schema[i], j.members, mode, o.fields[i])
  {
    hide LoadFields, LoadEntry, HoldsMember, Get;
    if j.JObject? {
      LoadedFields(schema, j.members, mode);
      forall i | 0 <= i < |schema|
        ensures LoadEntry(schema[i], Get(j.members, schema[i].key), mode).Ok? <==>
                CanHold(schema[i], j.members, mode)
      {
        LoadedEntry(schema[i], j.members, mode);
      }
      forall i | 0 <= i < |schema| && Load(schema, j, mode).Ok?
        ensures HoldsMember(schema[i], j.members, mode, Load(schema, j, mode).value.fields[i])
      {
        LoadedEntry(schema[i], j.members, mode);
      }
    }
  }

  /** The JSON that a value is written as: itself, and a string with newlines as its lines. */
  ghost predicate WrittenAs(v: Value, j: Json) {
    match v
    case VBool(b) => j == JBool(b)
    case VInt(i) => j == JInt(i)
    case VDouble(r) => j == JReal(r)
    case VString(s) =>
      if '\n' !in s then j == JString(s)
      else && j.JArray?
           && exists lines :: AreStrings(j.items, lines) && (forall l :: l in lines ==> '\n' !in l)
                           && Join(lines) == if s[|s| - 1] == '\n' then s else s + "\n"
    case VMilliseconds(ms) => j == JInt(ms)
  }

  /** What a field leaves in the JSON object. */
  ghost predicate LeavesMember(field: Field, f: FieldValue, m: map<string, Json>)
    requires FieldMatches(field, f)
  {
    match field
    case ValueField(key, d) => if f.value == d then key !in m else key in m && WrittenAs(f.value, m[key])
    case ObjectField(key, schema) =>
      if Save(schema, f.obj) == map[] then key !in m else key in m && m[key] == JObject(Save(schema, f.obj))
    case ArrayField(key, schema) =>
      if forall k :: 0 <= k < |f.objs| ==> Matches(schema, f.objs[k]) && Save(schema, f.objs[k]) == map[]
      then key !in m
      else
        && key in m && m[key].JArray?
        && ((forall k :: 0 <= k < |f.objs| ==> Matches(schema, f.objs[k]) && Save(schema, f.objs[k]) != map[]) ==>
              && |m[key].items| == |f.objs|
              && forall k :: 0 <= k < |f.objs| ==>
                   Matches(schema, f.objs[k]) && m[key].items[k] == JObject(Save(schema, f.objs[k])))
  }

  lemma {:induction false} SavedElements(schema: Schema, objs: seq<Obj>)
    requires ElementsMatch(schema, objs)
    ensures forall k :: 0 <= k < |objs| ==> Matches(schema, objs[k])
    ensures SaveElements(schema, objs) == [] <==> forall k :: 0 <= k < |objs| ==> Save(schema, objs[k]) == map[]
    ensures (forall k :: 0 <= k < |objs| ==> Save(schema, objs[k]) != map[]) ==>
              var items := SaveElements(schema, objs);
              |items| == |objs| && forall k :: 0 <= k < |objs| ==> items[k] == JObject(Save(schema, objs[k]))
    decreases |objs|
  {
    hide Save, Matches;
    if objs != [] {
      SavedElements(schema, objs[..|objs| - 1]);
    }
  }

  lemma SavedField(field: Field, f: FieldValue, m: map<string, Json>)
    requires FieldMatches(field, f) && Get(m, field.key) == SavedEntry(field, f)
    ensures LeavesMember(field, f, m)
  {
    hide Save, Matches, SaveElements, Marshal;
    match field
    case ValueField(_, _) =>
      if f.value.VString? {
        MarshalWrites(f.value.s);
      }
    case ObjectField(_, _) =>
    case ArrayField(_, schema) => SavedElements(schema, f.objs);
  }

  /** What saving writes: every field leaves its member, and takes out that of a default. */
  lemma SaveMeans(schema: Schema, o: Obj, i: nat)
    requires Matches(schema, o) && DistinctKeys(schema) && i < |schema|
    ensures FieldMatches(schema[i], o.fields[i]) && LeavesMember(schema[i], o.fields[i], Save(schema, o))
  {
    hide LeavesMember, SavedEntry;
    FieldsMatchAt(schema, o.fields, i);
    MemberOfField(schema, o.fields, o.json, i);
    SavedField(schema[i], o.fields[i], Save(schema, o));
  }
}
