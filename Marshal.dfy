/**
 * The request marshaller `Client._marshal_request`: turns a request payload
 * into the ordered, JSON-shaped mapping that `json.dumps` serialises.
 *
 * Python's reflection is replaced by what it would find: a payload is either
 * a dict or an object whose `__slots__` and `_fields` (each possibly absent)
 * and whose readable attributes are given explicitly, and every attribute
 * value is tagged with the branch of the type dispatch that takes it.
 * `snake_to_camel` is the parameter `camel`: every property below holds
 * whatever string function it is.
 */
module Marshal {
  import opened Wrappers
  import opened OrderedDict

  /** The scalars copied unchanged: int, str, bool and float. */
  datatype Prim = PInt(i: int) | PStr(s: string) | PBool(b: bool) | PFloat(f: real)

  /** An attribute value, by the branch of the type dispatch that takes it. */
  datatype Value =
    | DateTime(micros: int)     // a `datetime`: the instant, in microseconds since the Unix epoch
    | EnumMember(value: Prim)   // an `Enum` member (an `IntEnum` one too): its `.value`
    | Scalar(prim: Prim)        // an int, str, bool or float
    | List(items: seq<Value>)   // a list
    | Nested(payload: Payload)  // anything else (a dict, an object, `None`): marshalled as a payload

  /** What reflection sees of a payload. */
  datatype Payload =
      /** A dict: its keys in order; `items` are its entries, `attrs` what `getattr` finds on it. */
    | Dict(items: Entries<Value>, attrs: map<string, Value>)
      /** An object: its `__slots__` and `_fields` (`None` when absent) and its attributes. */
    | Object(slots: Option<seq<string>>, namedFields: Option<seq<string>>, attrs: map<string, Value>)

  /** The marshalled form: only scalars, lists and ordered objects remain. */
  datatype Json = JScalar(prim: Prim) | JList(elements: seq<Json>) | JObject(members: Entries<Json>)

  /** The `AttributeError` raised by a `getattr` that finds nothing. */
  datatype Error = NoAttribute(name: string)

  /** A snake_case to camelCase renaming. */
  type Camel = string -> string

  /** The one field name that is never renamed. */
  const Verbatim: string := "en_SG"

  /** The output key for a field name. */
  function KeyName(name: string, camel: Camel): string {
    if name == Verbatim then name else camel(name)
  }

  /** The output keys for a list of field names, in the same order. */
  function Names(fields: seq<string>, camel: Camel): (names: seq<string>)
    ensures |names| == |fields|
    ensures forall i :: 0 <= i < |fields| ==> names[i] == KeyName(fields[i], camel)
  {
    seq(|fields|, i requires 0 <= i < |fields| => KeyName(fields[i], camel))
  }

  /**
   * The field names to marshal: a dict's keys; otherwise a non-empty
   * `__slots__`, else `_fields`; reading an absent one raises.
   */
  function FieldList(p: Payload): Result<seq<string>, Error> {
    match p
    case Dict(items, _) => Success(Keys(items))
    case Object(slots, namedFields, _) =>
      if slots.None? then Failure(NoAttribute("__slots__"))
      else if |slots.value| > 0 then Success(slots.value)
      else if namedFields.None? then Failure(NoAttribute("_fields"))
      else Success(namedFields.value)
  }

  /** `int(dt.timestamp())` for an instant given in microseconds. */
  function TruncSeconds(micros: int): int {
    if micros >= 0 then micros / 1000000 else -((-micros) / 1000000)
  }

  /** The seconds are whole seconds truncated toward zero: never rounded away from it, whatever the sign. */
  lemma TruncSecondsTowardZero(micros: int)
    ensures var s := TruncSeconds(micros);
      && (0 <= micros ==> 0 <= s && s * 1000000 <= micros < (s + 1) * 1000000)
      && (micros < 0 ==> s <= 0 && (s - 1) * 1000000 < micros <= s * 1000000)
  {
  }

  /** `_marshal_request(p)`: the mapping built for the payload, or the first error raised. */
  function MarshalPayload(p: Payload, camel: Camel): Result<Entries<Json>, Error>
    decreases p, 2
  {
    match FieldList(p)
    case Failure(e) => Failure(e)
    case Success(fields) => MarshalPrefix(p, fields, |fields|, camel)
  }

  /** The mapping after the loop has handled the first `n` fields. */
  function MarshalPrefix(p: Payload, fields: seq<string>, n: nat, camel: Camel): Result<Entries<Json>, Error>
    requires n <= |fields|
    decreases p, 1, n
  {
    if n == 0 then Success([])
    else match MarshalPrefix(p, fields, n - 1, camel)
      case Failure(e) => Failure(e)
      case Success(marshalled) =>
        match ReadField(p, fields[n - 1], camel)
        case Failure(e) => Failure(e)
        case Success(j) => Success(Put(marshalled, KeyName(fields[n - 1], camel), j))
  }

  /** `getattr(p, name)` followed by the type dispatch on the value read. */
  function ReadField(p: Payload, name: string, camel: Camel): Result<Json, Error>
    decreases p, 0
  {
    if name !in p.attrs then Failure(NoAttribute(name)) else MarshalValue(p.attrs[name], camel)
  }

  /** The type dispatch: what an attribute value becomes in the mapping. */
  function MarshalValue(v: Value, camel: Camel): Result<Json, Error>
    decreases v, 0
  {
    match v
    case DateTime(micros) => Success(JScalar(PInt(TruncSeconds(micros))))
    case EnumMember(x) => Success(JScalar(x))
    case Scalar(x) => Success(JScalar(x))
    case List(items) =>
      (match MarshalElements(items, camel)
       case Failure(e) => Failure(e)
       case Success(js) => Success(JList(js)))
    case Nested(q) =>
      (match MarshalPayload(q, camel)
       case Failure(e) => Failure(e)
       case Success(m) => Success(JObject(m)))
  }

  /**
   * `[_marshal_request(e) for e in items]`: every element is marshalled as a
   * payload; an element that is not one has no `__slots__` to read.
   */
  function MarshalElements(items: seq<Value>, camel: Camel): Result<seq<Json>, Error>
    decreases items
  {
    if items == [] then Success([])
    else match MarshalElements(items[..|items| - 1], camel)
      case Failure(e) => Failure(e)
      case Success(js) =>
        var last := items[|items| - 1];
        match last
        case Nested(q) =>
          assert q < last;
          (match MarshalPayload(q, camel)
           case Failure(e) => Failure(e)
           case Success(m) => Success(js + [JObject(m)]))
        case _ => Failure(NoAttribute("__slots__"))
  }

  /**
   * `Client._marshal_request`: builds the mapping in place, field by field,
   * recursing into list elements and nested payloads.
   */
  method MarshalRequest(p: Payload, camel: Camel) returns (r: Result<Entries<Json>, Error>)
    ensures r == MarshalPayload(p, camel)
    decreases p, 2
  {
    var fields: seq<string>;
    match p {
      case Dict(items, _) =>
        fields := Keys(items);
      case Object(slots, namedFields, _) =>
        if slots.None? {
          return Failure(NoAttribute("__slots__"));
        }
        if |slots.value| > 0 {
          fields := slots.value;
        } else if namedFields.None? {
          return Failure(NoAttribute("_fields"));
        } else {
          fields := namedFields.value;
        }
    }
    assert FieldList(p) == Success(fields);
    var marshalled: Entries<Json> := [];
    var i := 0;
    while i < |fields|
      invariant i <= |fields|
      invariant MarshalPrefix(p, fields, i, camel) == Success(marshalled)
    {
      var name := fields[i];
      var key := if name == Verbatim then name else camel(name);
      var value := MarshalField(p, name, camel);
      if value.Failure? {
        MarshalPrefixFailureSticks(p, fields, i + 1, |fields|, camel);
        return Failure(value.error);
      }
      marshalled := Put(marshalled, key, value.value);
      i := i + 1;
    }
    return Success(marshalled);
  }

  /**
   * One turn of the loop of `_marshal_request`: reads the attribute and
   * dispatches on the type of its value.
   */
  method MarshalField(p: Payload, name: string, camel: Camel) returns (r: Result<Json, Error>)
    ensures r == ReadField(p, name, camel)
    decreases p, 1
  {
    if name !in p.attrs {
      return Failure(NoAttribute(name));
    }
    var val := p.attrs[name];
    match val {
      case DateTime(micros) =>
        r := Success(JScalar(PInt(TruncSeconds(micros))));
      case EnumMember(x) =>
        r := Success(JScalar(x));
      case Scalar(x) =>
        r := Success(JScalar(x));
      case List(_) =>
        r := MarshalList(p, name, camel);
      case Nested(q) =>
        var m := MarshalRequest(q, camel);
        if m.Failure? {
          return Failure(m.error);
        }
        r := Success(JObject(m.value));
    }
  }

  /** `[self._marshal_request(element) for element in attr_val]` for a list-valued attribute. */
  method MarshalList(p: Payload, name: string, camel: Camel) returns (r: Result<Json, Error>)
    requires name in p.attrs && p.attrs[name].List?
    ensures r == MarshalValue(p.attrs[name], camel)
    decreases p, 0
  {
    var items := p.attrs[name].items;
    var elements: seq<Json> := [];
    var j := 0;
    while j < |items|
      invariant j <= |items|
      invariant MarshalElements(items[..j], camel) == Success(elements)
    {
      assert items[..j + 1][..j] == items[..j];
      var element := items[j];
      if !element.Nested? {
        MarshalElementsFailureSticks(items, j + 1, camel);
        return Failure(NoAttribute("__slots__"));
      }
      assert element.payload < element;
      var m := MarshalRequest(element.payload, camel);
      if m.Failure? {
        MarshalElementsFailureSticks(items, j + 1, camel);
        return Failure(m.error);
      }
      elements := elements + [JObject(m.value)];
      j := j + 1;
    }
    assert items[..j] == items;
    r := Success(JList(elements));
  }

  /** Once a field has raised, the loop never runs on: the error is the result. */
  lemma {:induction false} MarshalPrefixFailureSticks(p: Payload, fields: seq<string>, m: nat, n: nat, camel: Camel)
    requires m <= n <= |fields| && MarshalPrefix(p, fields, m, camel).Failure?
    ensures MarshalPrefix(p, fields, n, camel) == MarshalPrefix(p, fields, m, camel)
    decreases n
  {
    if m < n {
      MarshalPrefixFailureSticks(p, fields, m, n - 1, camel);
    }
  }

  /** Once an element has raised, the list comprehension stops with that error. */
  lemma {:induction false} MarshalElementsFailureSticks(items: seq<Value>, j: nat, camel: Camel)
    requires j <= |items| && MarshalElements(items[..j], camel).Failure?
    ensures MarshalElements(items, camel) == MarshalElements(items[..j], camel)
    decreases |items|
  {
    if j < |items| {
      var init := items[..|items| - 1];
      assert init[..j] == items[..j];
      MarshalElementsFailureSticks(init, j, camel);
    } else {
      assert items[..j] == items;
    }
  }

  // ---------------------------------------------------------------------------
  // When marshalling succeeds

  /**
   * A value the marshaller accepts, stated without the loop: every list
   * element is a payload, and every payload has a field list whose fields
   * are all attributes holding acceptable values.
   */
  ghost predicate Marshallable(v: Value)
    decreases v, 0
  {
    match v
    case List(items) => forall e :: e in items ==> e.Nested? && PayloadMarshallable(e.payload)
    case Nested(q) => PayloadMarshallable(q)
    case _ => true
  }

  ghost predicate PayloadMarshallable(p: Payload)
    decreases p, 1
  {
    && FieldList(p).Success?
    && forall f :: f in FieldList(p).value ==> f in p.attrs && Marshallable(p.attrs[f])
  }

  /** Marshalling a value succeeds exactly when the value is marshallable, whatever the renaming. */
  lemma {:induction false} MarshalValueSucceedsIff(v: Value, camel: Camel)
    ensures MarshalValue(v, camel).Success? <==> Marshallable(v)
    decreases v, 0
  {
    match v
    case List(items) => MarshalElementsSucceedsIff(items, camel);
    case Nested(q) => MarshalPayloadSucceedsIff(q, camel);
    case _ =>
  }

  lemma {:induction false} MarshalElementsSucceedsIff(items: seq<Value>, camel: Camel)
    ensures MarshalElements(items, camel).Success? <==>
      forall e :: e in items ==> e.Nested? && PayloadMarshallable(e.payload)
    decreases items
  {
    if items != [] {
      var init := items[..|items| - 1];
      var last := items[|items| - 1];
      MarshalElementsSucceedsIff(init, camel);
      assert items == init + [last];
      if last.Nested? {
        assert last.payload < last;
        MarshalPayloadSucceedsIff(last.payload, camel);
      }
    }
  }

  lemma {:induction false} MarshalPayloadSucceedsIff(p: Payload, camel: Camel)
    ensures MarshalPayload(p, camel).Success? <==> PayloadMarshallable(p)
    decreases p, 2
  {
    if FieldList(p).Success? {
      var fields := FieldList(p).value;
      MarshalPrefixSucceedsIff(p, fields, |fields|, camel);
      assert fields[..|fields|] == fields;
    }
  }

  lemma {:induction false} MarshalPrefixSucceedsIff(p: Payload, fields: seq<string>, n: nat, camel: Camel)
    requires n <= |fields|
    ensures MarshalPrefix(p, fields, n, camel).Success? <==>
      forall f :: f in fields[..n] ==> f in p.attrs && Marshallable(p.attrs[f])
    decreases p, 1, n
  {
    if n > 0 {
      MarshalPrefixSucceedsIff(p, fields, n - 1, camel);
      assert fields[..n] == fields[..n - 1] + [fields[n - 1]];
      var name := fields[n - 1];
      if name in p.attrs {
        MarshalValueSucceedsIff(p.attrs[name], camel);
      }
    }
  }

  // ---------------------------------------------------------------------------
  // Which error is raised

  /** The loop stops at the first field that cannot be read or marshalled, and raises its error. */
  lemma {:induction false} MarshalPrefixFirstFailure(p: Payload, fields: seq<string>, k: nat, n: nat, camel: Camel)
    requires k < n <= |fields|
    requires forall i :: 0 <= i < k ==> ReadField(p, fields[i], camel).Success?
    requires ReadField(p, fields[k], camel).Failure?
    ensures MarshalPrefix(p, fields, n, camel) == Failure(ReadField(p, fields[k], camel).error)
    decreases n
  {
    if n - 1 > k {
      MarshalPrefixFirstFailure(p, fields, k, n - 1, camel);
    } else {
      MarshalPrefixReadable(p, fields, k, camel);
    }
  }

  lemma {:induction false} MarshalPrefixReadable(p: Payload, fields: seq<string>, n: nat, camel: Camel)
    requires n <= |fields|
    requires forall i :: 0 <= i < n ==> ReadField(p, fields[i], camel).Success?
    ensures MarshalPrefix(p, fields, n, camel).Success?
  {
    if n > 0 {
      MarshalPrefixReadable(p, fields, n - 1, camel);
    }
  }

  /** Marshalling a payload fails with the error of its first unreadable field. */
  lemma MarshalFirstFailure(p: Payload, k: nat, camel: Camel)
    requires FieldList(p).Success? && k < |FieldList(p).value|
    requires forall i :: 0 <= i < k ==> ReadField(p, FieldList(p).value[i], camel).Success?
    requires ReadField(p, FieldList(p).value[k], camel).Failure?
    ensures MarshalPayload(p, camel) == Failure(ReadField(p, FieldList(p).value[k], camel).error)
  {
    var fields := FieldList(p).value;
    MarshalPrefixFirstFailure(p, fields, k, |fields|, camel);
  }

  // ---------------------------------------------------------------------------
  // The shape of a successful result

  ghost predicate Readable(p: Payload, fields: seq<string>, camel: Camel) {
    forall i :: 0 <= i < |fields| ==> ReadField(p, fields[i], camel).Success?
  }

  /** The assignments `marshalled[key] = value` that the loop performs, in order. */
  function Assignments(p: Payload, fields: seq<string>, camel: Camel): (a: Entries<Json>)
    requires Readable(p, fields, camel)
    ensures |a| == |fields| && Keys(a) == Names(fields, camel)
  {
    seq(|fields|, i requires 0 <= i < |fields| && Readable(p, fields, camel) =>
      (KeyName(fields[i], camel), ReadField(p, fields[i], camel).value))
  }

  /** A field list the loop got through was readable field by field. */
  lemma {:induction false} MarshalPrefixSuccessReadable(p: Payload, fields: seq<string>, n: nat, camel: Camel)
    requires n <= |fields| && MarshalPrefix(p, fields, n, camel).Success?
    ensures forall i :: 0 <= i < n ==> ReadField(p, fields[i], camel).Success?
  {
    if n > 0 {
      MarshalPrefixSuccessReadable(p, fields, n - 1, camel);
    }
  }

  /** The assignments of one more field are those of the fields before it, then that field's. */
  lemma AssignmentsSnoc(p: Payload, fields: seq<string>, n: nat, camel: Camel)
    requires 0 < n <= |fields| && Readable(p, fields[..n], camel)
    ensures Readable(p, fields[..n - 1], camel)
    ensures var a := Assignments(p, fields[..n], camel);
      && a[..n - 1] == Assignments(p, fields[..n - 1], camel)
      && a[n - 1] == (KeyName(fields[n - 1], camel), ReadField(p, fields[n - 1], camel).value)
  {
    assert fields[..n][..n - 1] == fields[..n - 1];
  }

  lemma {:induction false} MarshalPrefixAssigns(p: Payload, fields: seq<string>, n: nat, camel: Camel)
    requires n <= |fields| && MarshalPrefix(p, fields, n, camel).Success?
    ensures Readable(p, fields[..n], camel)
    ensures MarshalPrefix(p, fields, n, camel).value == PutAll(Assignments(p, fields[..n], camel))
  {
    MarshalPrefixSuccessReadable(p, fields, n, camel);
    assert Readable(p, fields[..n], camel) by {
      forall i | 0 <= i < n ensures ReadField(p, fields[..n][i], camel).Success? {
        assert fields[..n][i] == fields[i];
      }
    }
    if n > 0 {
      MarshalPrefixAssigns(p, fields, n - 1, camel);
      AssignmentsSnoc(p, fields, n, camel);
      var before := MarshalPrefix(p, fields, n - 1, camel).value;
      var j := ReadField(p, fields[n - 1], camel).value;
      assert MarshalPrefix(p, fields, n, camel).value == Put(before, KeyName(fields[n - 1], camel), j);
    }
  }

  /**
   * A successful result has one key per distinct output name, in the order
   * the names first occur among the fields; each key holds the marshalled
   * value of the last field renamed to it (an earlier one is overwritten in
   * place); every field was an attribute whose value marshalled.
   */
  lemma MarshalLayout(p: Payload, camel: Camel)
    requires MarshalPayload(p, camel).Success?
    ensures FieldList(p).Success?
    ensures var fields := FieldList(p).value;
      var names := Names(fields, camel);
      var r := MarshalPayload(p, camel).value;
      && DistinctKeys(r)
      && |r| <= |fields|
      && (forall k :: k in Keys(r) <==> k in names)
      && (forall a, b :: 0 <= a < b < |r| ==> FirstPos(names, r[a].0) < FirstPos(names, r[b].0))
      && (forall i :: 0 <= i < |fields| ==> fields[i] in p.attrs && MarshalValue(p.attrs[fields[i]], camel).Success?)
      && (forall i :: 0 <= i < |fields| && (forall j :: i < j < |fields| ==> names[j] != names[i]) ==>
            Get(r, names[i]) == Some(MarshalValue(p.attrs[fields[i]], camel).value))
  {
    var fields := FieldList(p).value;
    var names := Names(fields, camel);
    MarshalPrefixAssigns(p, fields, |fields|, camel);
    assert fields[..|fields|] == fields;
    var a := Assignments(p, fields, camel);
    PutAllSpec(a);
    forall i | 0 <= i < |fields| && (forall j :: i < j < |fields| ==> names[j] != names[i])
      ensures Get(PutAll(a), names[i]) == Some(MarshalValue(p.attrs[fields[i]], camel).value)
    {
      LastValueAt(a, i);
    }
  }

  /**
   * When every field reads and no two fields share an output name, the
   * result holds every field, in field order, with its marshalled value.
   */
  lemma MarshalDistinctNames(p: Payload, camel: Camel)
    requires FieldList(p).Success? && Readable(p, FieldList(p).value, camel)
    requires var names := Names(FieldList(p).value, camel);
      forall i, j :: 0 <= i < j < |names| ==> names[i] != names[j]
    ensures MarshalPayload(p, camel) == Success(Assignments(p, FieldList(p).value, camel))
  {
    var fields := FieldList(p).value;
    MarshalPrefixReadable(p, fields, |fields|, camel);
    MarshalPrefixAssigns(p, fields, |fields|, camel);
    assert fields[..|fields|] == fields;
    var a := Assignments(p, fields, camel);
    assert DistinctKeys(a) by {
      forall i, j | 0 <= i < j < |a| ensures a[i].0 != a[j].0 {
        assert Keys(a)[i] == a[i].0 && Keys(a)[j] == a[j].0;
      }
    }
    PutAllDistinct(a);
  }

  /** The field `en_SG` keeps its name whatever the renaming does. */
  /**
   * No listed field is filtered out: a name starting with `_` or `__`, or a
   * namedtuple's `index` or `count` once listed, is marshalled like any other.
   */
  lemma NoFieldSkipped(p: Payload, camel: Camel, name: string)
    requires MarshalPayload(p, camel).Success?
    requires FieldList(p).Success? && name in FieldList(p).value
    ensures KeyName(name, camel) in Keys(MarshalPayload(p, camel).value)
  {
    var fields := FieldList(p).value;
    MarshalLayout(p, camel);
    var i :| 0 <= i < |fields| && fields[i] == name;
    assert Names(fields, camel)[i] == KeyName(name, camel);
  }

  /** An object with `__slots__ = ("_token", "name")`: the private slot is sent, under its renamed key. */
  lemma PrivateSlotMarshalled(camel: Camel, token: Prim, name: Prim)
    requires camel("_token") != camel("name")
    ensures MarshalPayload(Object(Some(["_token", "name"]), None, map["_token" := Scalar(token), "name" := Scalar(name)]), camel)
         == Success([(camel("_token"), JScalar(token)), (camel("name"), JScalar(name))])
  {
    var p := Object(Some(["_token", "name"]), None, map["_token" := Scalar(token), "name" := Scalar(name)]);
    var fields := ["_token", "name"];
    assert FieldList(p) == Success(fields);
    assert ReadField(p, "_token", camel) == Success(JScalar(token));
    assert ReadField(p, "name", camel) == Success(JScalar(name));
    assert Readable(p, fields, camel);
    assert Names(fields, camel) == [camel("_token"), camel("name")];
    MarshalDistinctNames(p, camel);
    assert Assignments(p, fields, camel) == [(camel("_token"), JScalar(token)), (camel("name"), JScalar(name))];
  }

  lemma VerbatimKept(p: Payload, camel: Camel)
    requires MarshalPayload(p, camel).Success?
    requires FieldList(p).Success? && Verbatim in FieldList(p).value
    ensures Verbatim in Keys(MarshalPayload(p, camel).value)
  {
    var fields := FieldList(p).value;
    MarshalLayout(p, camel);
    var i :| 0 <= i < |fields| && fields[i] == Verbatim;
    assert Names(fields, camel)[i] == Verbatim;
  }

  /**
   * A list becomes a list of the same length and order, each element the
   * object its payload marshals to.
   */
  lemma {:induction false} MarshalElementsShape(items: seq<Value>, camel: Camel)
    requires MarshalElements(items, camel).Success?
    ensures var js := MarshalElements(items, camel).value;
      && |js| == |items|
      && forall i :: 0 <= i < |items| ==>
           items[i].Nested? && MarshalPayload(items[i].payload, camel).Success? &&
           js[i] == JObject(MarshalPayload(items[i].payload, camel).value)
  {
    if items != [] {
      MarshalElementsShape(items[..|items| - 1], camel);
    }
  }

  // ---------------------------------------------------------------------------
  // How the field list is chosen

  /** Only the attributes are ever read: two payloads with the same field list and attributes marshal alike. */
  lemma {:induction false} MarshalPrefixReadsAttrs(p: Payload, p': Payload, fields: seq<string>, n: nat, camel: Camel)
    requires n <= |fields| && p.attrs == p'.attrs
    ensures MarshalPrefix(p, fields, n, camel) == MarshalPrefix(p', fields, n, camel)
  {
    if n > 0 {
      MarshalPrefixReadsAttrs(p, p', fields, n - 1, camel);
      assert ReadField(p, fields[n - 1], camel) == ReadField(p', fields[n - 1], camel);
    }
  }

  /** A dict's entries are never read, only its keys and attributes; so an empty dict gives an empty mapping. */
  lemma DictEntriesUnread(items: Entries<Value>, items': Entries<Value>, attrs: map<string, Value>, camel: Camel)
    requires Keys(items) == Keys(items')
    ensures MarshalPayload(Dict(items, attrs), camel) == MarshalPayload(Dict(items', attrs), camel)
    ensures items == [] ==> MarshalPayload(Dict(items, attrs), camel) == Success([])
  {
    MarshalPrefixReadsAttrs(Dict(items, attrs), Dict(items', attrs), Keys(items), |items|, camel);
  }

  /** A dict whose first key is not an attribute of the dict fails on that key. */
  lemma DictKeyNotAttribute(items: Entries<Value>, attrs: map<string, Value>, camel: Camel)
    requires |items| > 0 && items[0].0 !in attrs
    ensures MarshalPayload(Dict(items, attrs), camel) == Failure(NoAttribute(items[0].0))
  {
    MarshalFirstFailure(Dict(items, attrs), 0, camel);
  }

  /** Non-empty `__slots__` win: `_fields` is then never looked at. */
  lemma SlotsOverrideFields(slots: seq<string>, f: Option<seq<string>>, f': Option<seq<string>>,
                            attrs: map<string, Value>, camel: Camel)
    requires |slots| > 0
    ensures MarshalPayload(Object(Some(slots), f, attrs), camel) == MarshalPayload(Object(Some(slots), f', attrs), camel)
  {
    MarshalPrefixReadsAttrs(Object(Some(slots), f, attrs), Object(Some(slots), f', attrs), slots, |slots|, camel);
  }

  /** Empty `__slots__` (as on a namedtuple) defer to `_fields`, which then act as the slots would. */
  lemma EmptySlotsUseFields(fields: seq<string>, attrs: map<string, Value>, camel: Camel)
    requires |fields| > 0
    ensures MarshalPayload(Object(Some([]), Some(fields), attrs), camel) ==
            MarshalPayload(Object(Some(fields), None, attrs), camel)
  {
    MarshalPrefixReadsAttrs(Object(Some([]), Some(fields), attrs), Object(Some(fields), None, attrs), fields, |fields|, camel);
  }

  /** An object without `__slots__`, or with empty ones and no `_fields`, cannot be marshalled. */
  lemma MissingSchemaFails(f: Option<seq<string>>, attrs: map<string, Value>, camel: Camel)
    ensures MarshalPayload(Object(None, f, attrs), camel) == Failure(NoAttribute("__slots__"))
    ensures MarshalPayload(Object(Some([]), None, attrs), camel) == Failure(NoAttribute("_fields"))
  {
  }

  // ---------------------------------------------------------------------------
  // A worked example

  /** A slotted line item with one attribute. */
  function ExampleItem(): Payload {
    Object(Some(["name"]), None, map["name" := Scalar(PStr("box"))])
  }

  /** A namedtuple-style order: empty `__slots__`, the fields in `_fields`. */
  function ExampleOrder(): Payload {
    Object(Some([]), Some(["order_id", "created_at", "is_urgent", "items", "en_SG", "city"]),
      map["order_id" := Scalar(PInt(42)),
          "created_at" := DateTime(1700000000999999),
          "is_urgent" := Scalar(PBool(true)),
          "items" := List([Nested(ExampleItem())]),
          "en_SG" := Scalar(PStr("en")),
          "city" := EnumMember(PStr("SG_SIN"))])
  }

  /** A list holding one slotted object marshals to a list holding its mapping. */
  lemma ExampleItemsMarshal(camel: Camel)
    requires camel("name") == "name"
    ensures MarshalValue(List([Nested(ExampleItem())]), camel)
         == Success(JList([JObject([("name", JScalar(PStr("box")))])]))
  {
    var item := ExampleItem();
    var box := JObject([("name", JScalar(PStr("box")))]);
    PutFresh([], "name", JScalar(PStr("box")));
    assert MarshalPrefix(item, ["name"], 0, camel) == Success([]);
    assert MarshalPayload(item, camel) == Success([("name", JScalar(PStr("box")))]);
    assert [Nested(item)][..0] == [];
    assert MarshalElements([Nested(item)], camel) == Success([] + [box]);
    assert [] + [box] == [box];
  }

  /** What reading each field of the example order yields. */
  lemma ExampleOrderFields(camel: Camel)
    requires camel("name") == "name"
    ensures ReadField(ExampleOrder(), "order_id", camel) == Success(JScalar(PInt(42)))
    ensures ReadField(ExampleOrder(), "created_at", camel) == Success(JScalar(PInt(1700000000)))
    ensures ReadField(ExampleOrder(), "is_urgent", camel) == Success(JScalar(PBool(true)))
    ensures ReadField(ExampleOrder(), "items", camel) == Success(JList([JObject([("name", JScalar(PStr("box")))])]))
    ensures ReadField(ExampleOrder(), "en_SG", camel) == Success(JScalar(PStr("en")))
    ensures ReadField(ExampleOrder(), "city", camel) == Success(JScalar(PStr("SG_SIN")))
  {
    ExampleItemsMarshal(camel);
    assert TruncSeconds(1700000000999999) == 1700000000;
  }

  /** The keys, in order, that the example order marshals to. */
  function ExampleOrderJson(): Entries<Json> {
    [("orderId", JScalar(PInt(42))),
     ("createdAt", JScalar(PInt(1700000000))),
     ("isUrgent", JScalar(PBool(true))),
     ("items", JList([JObject([("name", JScalar(PStr("box")))])])),
     ("en_SG", JScalar(PStr("en"))),
     ("city", JScalar(PStr("SG_SIN")))]
  }

  /** The assignments the loop performs on the example order. */
  lemma ExampleOrderAssignments(camel: Camel)
    requires camel("order_id") == "orderId" && camel("created_at") == "createdAt"
    requires camel("is_urgent") == "isUrgent" && camel("items") == "items"
    requires camel("city") == "city" && camel("name") == "name"
    ensures var fields := ["order_id", "created_at", "is_urgent", "items", "en_SG", "city"];
      Readable(ExampleOrder(), fields, camel) && Assignments(ExampleOrder(), fields, camel) == ExampleOrderJson()
  {
    var fields := ["order_id", "created_at", "is_urgent", "items", "en_SG", "city"];
    ExampleOrderFields(camel);
    assert Readable(ExampleOrder(), fields, camel);
    var a := Assignments(ExampleOrder(), fields, camel);
    var e := ExampleOrderJson();
    assert |a| == |e|;
    assert a[0] == e[0] && a[1] == e[1] && a[2] == e[2];
    assert a[3] == e[3] && a[4] == e[4] && a[5] == e[5];
  }

  /**
   * The order marshals to camelCase keys in field order: the instant to its
   * whole seconds (truncated, not rounded), the list element to a nested
   * object, `en_SG` unrenamed, and the enum member to its bare value.
   */
  lemma ExampleOrderMarshals(camel: Camel)
    requires camel("order_id") == "orderId" && camel("created_at") == "createdAt"
    requires camel("is_urgent") == "isUrgent" && camel("items") == "items"
    requires camel("city") == "city" && camel("name") == "name"
    ensures MarshalPayload(ExampleOrder(), camel) == Success(ExampleOrderJson())
  {
    var p := ExampleOrder();
    var fields := ["order_id", "created_at", "is_urgent", "items", "en_SG", "city"];
    assert FieldList(p) == Success(fields);
    ExampleOrderAssignments(camel);
    assert Names(fields, camel) == ["orderId", "createdAt", "isUrgent", "items", "en_SG", "city"];
    MarshalDistinctNames(p, camel);
  }
}
