/**
 * Fields and messages: a field is a name and one typed value; a message is
 * an ordered list of fields (names may repeat) with a name index that keeps
 * the FIRST field added under each name (`std::map::insert` does not
 * overwrite).
 */
module Values {
  import opened Base
  import opened Wire

  /** `Field::DataType`, as its `int8` code on the wire. */
  const NotSetCode: Int8 := 0
  const StringCode: Int8 := 1
  const SignedInt32Code: Int8 := 2
  const DoubleCode: Int8 := 3
  const MessageCode: Int8 := 4

  /**
   * What a field holds. `FieldImpl` keeps separate members for each kind and
   * the getters check the data type first, so only the value of the current
   * type is observable.
   */
  datatype Value =
    | NotSet
    | Str(s: Bytes)
    | SignedInt32(i: Int32)
    | Dbl(d: Double)
    | Msg(m: Message)

  datatype Field = Field(name: Bytes, value: Value)

  /** `m_fields` in order, and `m_mapNameToField`. */
  datatype Message = Message(fields: seq<Field>, index: map<Bytes, Field>)

  function TypeCode(v: Value): (r: Int8)
    ensures NotSetCode <= r <= MessageCode
  {
    match v
    case NotSet => NotSetCode
    case Str(_) => StringCode
    case SignedInt32(_) => SignedInt32Code
    case Dbl(_) => DoubleCode
    case Msg(_) => MessageCode
  }

  /** The code identifies the kind of value. */
  lemma TypeCodeIdentifies(v: Value, w: Value)
    ensures TypeCode(v) == TypeCode(w) <==>
      (v.NotSet? && w.NotSet?) || (v.Str? && w.Str?) || (v.SignedInt32? && w.SignedInt32?)
      || (v.Dbl? && w.Dbl?) || (v.Msg? && w.Msg?)
  {
  }

  // ---------------------------------------------------------------------------
  // Field

  /** `Field::create()`: no name, type `NOT_SET`. */
  function NewField(): (f: Field)
    ensures f.value.NotSet? && f.name == []
  {
    Field([], NotSet)
  }

  function SetName(f: Field, name: Bytes): (r: Field)
    ensures r.name == name && r.value == f.value
  {
    f.(name := name)
  }

  function SetString(f: Field, s: Bytes): (r: Field)
    ensures r.name == f.name && GetString(r) == Ok(s)
    ensures TypeCode(r.value) == StringCode
  {
    f.(value := Str(s))
  }

  function SetSignedInt32(f: Field, i: Int32): (r: Field)
    ensures r.name == f.name && GetSignedInt32(r) == Ok(i)
    ensures TypeCode(r.value) == SignedInt32Code
  {
    f.(value := SignedInt32(i))
  }

  function SetDouble(f: Field, d: Double): (r: Field)
    ensures r.name == f.name && GetDouble(r) == Ok(d)
    ensures TypeCode(r.value) == DoubleCode
  {
    f.(value := Dbl(d))
  }

  function SetMessage(f: Field, m: Message): (r: Field)
    ensures r.name == f.name && GetMessage(r) == Ok(m)
    ensures TypeCode(r.value) == MessageCode
  {
    f.(value := Msg(m))
  }

  /** `getString`: the string, or "Field '<name>' is not a STRING". */
  function GetString(f: Field): (r: Result<Bytes>)
    ensures r.Err? ==> r.error == NotA(f.name, "STRING")
  {
    if f.value.Str? then Ok(f.value.s) else Err(NotA(f.name, "STRING"))
  }

  function GetSignedInt32(f: Field): (r: Result<Int32>)
    ensures r.Err? ==> r.error == NotA(f.name, "SIGNED_INT32")
  {
    if f.value.SignedInt32? then Ok(f.value.i) else Err(NotA(f.name, "SIGNED_INT32"))
  }

  function GetDouble(f: Field): (r: Result<Double>)
    ensures r.Err? ==> r.error == NotA(f.name, "DOUBLE")
  {
    if f.value.Dbl? then Ok(f.value.d) else Err(NotA(f.name, "DOUBLE"))
  }

  function GetMessage(f: Field): (r: Result<Message>)
    ensures r.Err? ==> r.error == NotA(f.name, "MESSAGE")
  {
    if f.value.Msg? then Ok(f.value.m) else Err(NotA(f.name, "MESSAGE"))
  }

  /** Exactly one getter succeeds on a set field, the one of its type code; none on an unset field. */
  lemma OneGetterSucceeds(f: Field)
    ensures GetString(f).Ok? <==> TypeCode(f.value) == StringCode
    ensures GetSignedInt32(f).Ok? <==> TypeCode(f.value) == SignedInt32Code
    ensures GetDouble(f).Ok? <==> TypeCode(f.value) == DoubleCode
    ensures GetMessage(f).Ok? <==> TypeCode(f.value) == MessageCode
  {
  }

  // ---------------------------------------------------------------------------
  // Message

  function NewMessage(): (m: Message)
    ensures m.fields == [] && Indexed(m)
  {
    Message([], map[])
  }

  /**
   * The step shared by `addField` and `deserialize`: the field goes at the end
   * of the list, and into the index only if its name is not there yet.
   */
  function Append(m: Message, f: Field): (r: Message)
    ensures r.fields == m.fields + [f]
    ensures f.name in r.index
    ensures forall n :: n in m.index ==> n in r.index && r.index[n] == m.index[n]
  {
    Message(m.fields + [f], if f.name in m.index then m.index else m.index[f.name := f])
  }

  /**
   * `addField` with a string, `int32`, double or message: a field with that
   * name and value is created and appended.
   */
  function AddField(m: Message, name: Bytes, v: Value): (r: Message)
    requires !v.NotSet?
    ensures r.fields == m.fields + [Field(name, v)]
    ensures Indexed(m) ==> Indexed(r)
  {
    AppendIndexed(m, Field(name, v));
    Append(m, Field(name, v))
  }

  /** `getField`: the first field added under the name, or "Field <name> not in message". */
  function GetField(m: Message, name: Bytes): (r: Result<Field>)
    ensures r.Ok? <==> name in m.index
    ensures r.Err? ==> r.error == FieldNotInMessage(name)
  {
    if name in m.index then Ok(m.index[name]) else Err(FieldNotInMessage(name))
  }

  // ---------------------------------------------------------------------------
  // The index is the first field under each name

  /** Reference: the first field of the list with the given name. */
  function FirstNamed(fs: seq<Field>, name: Bytes): Option<Field>
    decreases |fs|
  {
    if fs == [] then None
    else if fs[0].name == name then Some(fs[0])
    else FirstNamed(fs[1..], name)
  }

  /** Reference: the map holding, for each name in the list, its first field. */
  function IndexOf(fs: seq<Field>): map<Bytes, Field>
    decreases |fs|
  {
    if fs == [] then map[] else IndexOf(fs[1..])[fs[0].name := fs[0]]
  }

  predicate Indexed(m: Message)
  {
    m.index == IndexOf(m.fields)
  }

  /** The reference index agrees with the reference lookup, name by name. */
  lemma {:induction false} IndexOfIsFirst(fs: seq<Field>, name: Bytes)
    decreases |fs|
    ensures name in IndexOf(fs) <==> FirstNamed(fs, name).Some?
    ensures name in IndexOf(fs) ==> IndexOf(fs)[name] == FirstNamed(fs, name).value
  {
    if fs != [] {
      IndexOfIsFirst(fs[1..], name);
    }
  }

  /** The first field under a name sits in the list, and no earlier field has that name. */
  lemma {:induction false} FirstNamedIsFirst(fs: seq<Field>, name: Bytes)
    decreases |fs|
    ensures FirstNamed(fs, name).None? <==> forall i :: 0 <= i < |fs| ==> fs[i].name != name
    ensures FirstNamed(fs, name).Some? ==>
      exists i :: 0 <= i < |fs| && fs[i] == FirstNamed(fs, name).value && fs[i].name == name
        && forall j :: 0 <= j < i ==> fs[j].name != name
  {
    if fs != [] {
      FirstNamedIsFirst(fs[1..], name);
      if fs[0].name != name && FirstNamed(fs, name).Some? {
        var i :| 0 <= i < |fs[1..]| && fs[1..][i] == FirstNamed(fs, name).value && fs[1..][i].name == name
          && forall j :: 0 <= j < i ==> fs[1..][j].name != name;
        assert fs[i + 1] == fs[1..][i];
        assert forall j :: 0 < j < i + 1 ==> fs[j] == fs[1..][j - 1];
      }
      if fs[0].name != name && FirstNamed(fs, name).None? {
        assert forall i :: 0 < i < |fs| ==> fs[i] == fs[1..][i - 1];
      }
    }
  }

  /** Appending keeps the first field under each name: insertion into the index does not overwrite. */
  lemma {:induction false} IndexOfAppend(fs: seq<Field>, f: Field)
    decreases |fs|
    ensures IndexOf(fs + [f]) ==
      (if f.name in IndexOf(fs) then IndexOf(fs) else IndexOf(fs)[f.name := f])
  {
    if fs == [] {
      assert [] + [f] == [f];
      assert [f][1..] == [];
    } else {
      assert (fs + [f])[1..] == fs[1..] + [f];
      IndexOfAppend(fs[1..], f);
    }
  }

  lemma AppendIndexed(m: Message, f: Field)
    ensures Indexed(m) ==> Indexed(Append(m, f))
  {
    IndexOfAppend(m.fields, f);
  }

  /**
   * On a message whose index is the one its fields imply, `getField` returns
   * the first field added under the name, and fails exactly when no field
   * has that name.
   */
  lemma GetFieldIsFirst(m: Message, name: Bytes)
    requires Indexed(m)
    ensures GetField(m, name).Ok? <==> exists i :: 0 <= i < |m.fields| && m.fields[i].name == name
    ensures GetField(m, name) == (match FirstNamed(m.fields, name)
                                  case Some(f) => Ok(f)
                                  case None => Err(FieldNotInMessage(name)))
  {
    IndexOfIsFirst(m.fields, name);
    FirstNamedIsFirst(m.fields, name);
  }

  /** `Append` of each field in turn: what `deserialize` does with the fields it reads. */
  function AppendAll(m: Message, fs: seq<Field>): Message
    decreases |fs|
  {
    if fs == [] then m else AppendAll(Append(m, fs[0]), fs[1..])
  }

  /** The fields land after the existing ones, in order, and the index stays the one they imply. */
  lemma {:induction false} AppendAllAppends(m: Message, fs: seq<Field>)
    decreases |fs|
    ensures AppendAll(m, fs).fields == m.fields + fs
    ensures Indexed(m) ==> Indexed(AppendAll(m, fs))
  {
    if fs != [] {
      AppendIndexed(m, fs[0]);
      AppendAllAppends(Append(m, fs[0]), fs[1..]);
      assert m.fields + [fs[0]] + fs[1..] == m.fields + fs;
    }
  }

  /** Appending a message's fields, in order, to an empty message rebuilds it. */
  lemma RebuildIndexed(m: Message)
    requires Indexed(m)
    ensures AppendAll(NewMessage(), m.fields) == m
  {
    AppendAllAppends(NewMessage(), m.fields);
    assert [] + m.fields == m.fields;
  }

  /** A second field under a name already present is kept in the list but not found by name. */
  lemma AddFieldKeepsFirst(m: Message, name: Bytes, v: Value)
    requires !v.NotSet? && name in m.index
    ensures GetField(AddField(m, name, v), name) == GetField(m, name)
  {
  }
}
