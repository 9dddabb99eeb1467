/**
 * Serializing fields and messages into a buffer and reading them back.
 *
 *   field   = name (string) ++ type code (int8) ++ value
 *   value   = string | int32 | double (8 raw bytes) | message
 *   message = field count (int32) ++ fields
 *
 * The buffer-level functions follow `Field::serialize`/`deserialize` and
 * `Message::serialize`/`deserialize` call by call. The byte-level encoders
 * are the reference: a successful serialization is one write of the encoding.
 */
module ValueCodec {
  import opened Base
  import opened Wire
  import opened Buffers
  import opened Values

  // ---------------------------------------------------------------------------
  // Reference encoding

  /** A string as the corrected `write_string` puts it; from 2^31 bytes on it has no encoding (see `Buffers.WriteString`). */
  function EncodeStr(s: Bytes): (r: Result<Bytes>)
    ensures r.Ok? <==> |s| < Two31
    ensures r.Err? ==> r.error == MaxCapacity
    ensures r.Ok? ==> |r.value| == 4 + |s| && r.value[4..] == s
  {
    if |s| >= Two31 then Err(MaxCapacity) else Ok(EncodeString(s))
  }

  function EncodeValue(v: Value): Result<Bytes>
    decreases v
  {
    match v
    case NotSet => Err(SerializeNotHandled)
    case Str(s) => EncodeStr(s)
    case SignedInt32(i) => Ok(EncodeInt32(i))
    case Dbl(d) => Ok(EncodeDouble(d))
    case Msg(m) => EncodeMessage(m)
  }

  function EncodeField(f: Field): Result<Bytes>
    decreases f
  {
    var name :- EncodeStr(f.name);
    var value :- EncodeValue(f.value);
    Ok(name + EncodeInt8(TypeCode(f.value)) + value)
  }

  function EncodeFields(fs: seq<Field>): Result<Bytes>
    decreases fs
  {
    if fs == [] then Ok([])
    else
      var first :- EncodeField(fs[0]);
      var rest :- EncodeFields(fs[1..]);
      Ok(first + rest)
  }

  /** The count is `static_cast<int32_t>(m_fields.size())`. */
  function EncodeMessage(m: Message): Result<Bytes>
    decreases m
  {
    var fields :- EncodeFields(m.fields);
    Ok(EncodeInt32(ToInt32(|m.fields|)) + fields)
  }

  /** Every field of the message, at any depth, holds a value. */
  predicate AllSet(m: Message)
    decreases m
  {
    forall i :: 0 <= i < |m.fields| ==> ValueSet(m.fields[i].value)
  }

  predicate ValueSet(v: Value)
    decreases v
  {
    !v.NotSet? && (v.Msg? ==> AllSet(v.m))
  }

  /** Strings and counts small enough for the `int32` lengths of the format. */
  predicate Fits(m: Message)
    decreases m
  {
    |m.fields| < Two31 && forall i :: 0 <= i < |m.fields| ==> FieldFits(m.fields[i])
  }

  predicate FieldFits(f: Field)
    decreases f
  {
    |f.name| < Two31
    && (f.value.Str? ==> |f.value.s| < Two31)
    && (f.value.Msg? ==> Fits(f.value.m))
  }

  /** Fits, every value set, and every index the one its fields imply. */
  predicate Decodable(m: Message)
    decreases m
  {
    Fits(m) && AllSet(m) && Indexed(m)
    && forall i :: 0 <= i < |m.fields| ==> m.fields[i].value.Msg? ==> Decodable(m.fields[i].value.m)
  }

  /** The encoding exists exactly when every value is set and every string fits. */
  lemma {:induction false} EncodeMessageOk(m: Message)
    decreases m
    ensures Fits(m) && AllSet(m) ==> EncodeMessage(m).Ok?
    ensures EncodeMessage(m).Ok? ==> AllSet(m)
  {
    EncodeFieldsOk(m.fields);
  }

  lemma {:induction false} EncodeFieldsOk(fs: seq<Field>)
    decreases fs
    ensures (forall i :: 0 <= i < |fs| ==> FieldFits(fs[i]) && ValueSet(fs[i].value)) ==> EncodeFields(fs).Ok?
    ensures EncodeFields(fs).Ok? ==> forall i :: 0 <= i < |fs| ==> ValueSet(fs[i].value)
  {
    if fs != [] {
      EncodeFieldOk(fs[0]);
      EncodeFieldsOk(fs[1..]);
      assert forall i :: 1 <= i < |fs| ==> fs[i] == fs[1..][i - 1];
    }
  }

  lemma {:induction false} EncodeFieldOk(f: Field)
    decreases f
    ensures FieldFits(f) && ValueSet(f.value) ==> EncodeField(f).Ok?
    ensures EncodeField(f).Ok? ==> ValueSet(f.value)
  {
    var name, value := EncodeStr(f.name), EncodeValue(f.value);
    assert EncodeField(f).Ok? <==> name.Ok? && value.Ok?;
    if f.value.Msg? {
      EncodeMessageOk(f.value.m);
      assert value == EncodeMessage(f.value.m);
    }
  }

  // ---------------------------------------------------------------------------
  // Serialization, call by call: each call is one write of the reference encoding

  /** `Field::serialize`'s switch on the type: `NOT_SET` throws "not handled". */
  function SerializeValue(b: Buffer, v: Value): (r: Result<Buffer>)
    requires b.Valid()
    decreases v
    ensures r.Ok? ==> r.value.Valid()
    ensures EncodeValue(v).Err? ==> r.Err?
    ensures EncodeValue(v).Ok? ==> r == WriteBytes(b, EncodeValue(v).value)
  {
    match v
    case NotSet => Err(SerializeNotHandled)
    case Str(s) => WriteString(b, s)
    case SignedInt32(i) => WriteInt32(b, i)
    case Dbl(d) => WriteDouble(b, d)
    case Msg(m) => SerializeMessage(b, m)
  }

  /** Name and code, then the value, written in turn, are one write of the field's encoding. */
  lemma FieldConcat(b: Buffer, f: Field)
    requires b.Valid()
    ensures |f.name| < Two31 ==>
      var (n, c) := (EncodeString(f.name), EncodeInt8(TypeCode(f.value)));
      && WriteBytes(b, n + c) == (match WriteBytes(b, n) case Ok(b1) => WriteBytes(b1, c) case Err(e) => Err(e))
      && (EncodeValue(f.value).Ok? ==>
            WriteBytes(b, n + c + EncodeValue(f.value).value)
              == (match WriteBytes(b, n + c) case Ok(b2) => WriteBytes(b2, EncodeValue(f.value).value) case Err(e) => Err(e)))
  {
    if |f.name| < Two31 {
      var (n, c) := (EncodeString(f.name), EncodeInt8(TypeCode(f.value)));
      WriteBytesConcat(b, n, c);
      if EncodeValue(f.value).Ok? {
        WriteBytesConcat(b, n + c, EncodeValue(f.value).value);
      }
    }
  }

  /** `Field::serialize`: the name, the type code, then the value; `NOT_SET` throws after the code. */
  function SerializeField(b: Buffer, f: Field): (r: Result<Buffer>)
    requires b.Valid()
    decreases f
    ensures r.Ok? ==> r.value.Valid()
    ensures EncodeField(f).Err? ==> r.Err?
    ensures EncodeField(f).Ok? ==> r == WriteBytes(b, EncodeField(f).value)
  {
    FieldConcat(b, f);
    var b1 :- WriteString(b, f.name);
    var b2 :- WriteInt8(b1, TypeCode(f.value));
    SerializeValue(b2, f.value)
  }

  /** The first field, then the rest, written in turn, are one write of the list's encoding. */
  lemma FieldsConcat(b: Buffer, fs: seq<Field>)
    requires b.Valid() && fs != []
    ensures fs[1..] == [] ==> EncodeFields(fs) == EncodeField(fs[0])
    ensures EncodeFields(fs).Ok? ==>
      WriteBytes(b, EncodeFields(fs).value)
        == (match WriteBytes(b, EncodeField(fs[0]).value)
            case Ok(b1) => (if fs[1..] == [] then Ok(b1) else WriteBytes(b1, EncodeFields(fs[1..]).value))
            case Err(e) => Err(e))
  {
    var ef, er := EncodeField(fs[0]), EncodeFields(fs[1..]);
    if fs[1..] == [] {
      assert er == Ok([]);
      if ef.Ok? {
        assert ef.value + [] == ef.value;
      }
    } else if ef.Ok? && er.Ok? {
      WriteBytesConcat(b, ef.value, er.value);
    }
  }

  /** The count, then the fields, written in turn, are one write of the message's encoding. */
  lemma MessageConcat(b: Buffer, m: Message)
    requires b.Valid()
    ensures m.fields == [] ==> EncodeMessage(m) == Ok(EncodeInt32(ToInt32(|m.fields|)))
    ensures EncodeMessage(m).Ok? ==>
      WriteBytes(b, EncodeMessage(m).value)
        == (match WriteBytes(b, EncodeInt32(ToInt32(|m.fields|)))
            case Ok(b1) => (if m.fields == [] then Ok(b1) else WriteBytes(b1, EncodeFields(m.fields).value))
            case Err(e) => Err(e))
  {
    var c := EncodeInt32(ToInt32(|m.fields|));
    if m.fields == [] {
      assert EncodeFields(m.fields) == Ok([]);
      assert c + [] == c;
    } else if EncodeFields(m.fields).Ok? {
      WriteBytesConcat(b, c, EncodeFields(m.fields).value);
    }
  }

  /** `Message::serialize`'s loop over the fields, in order. */
  function SerializeFields(b: Buffer, fs: seq<Field>): (r: Result<Buffer>)
    requires b.Valid()
    decreases fs
    ensures r.Ok? ==> r.value.Valid()
    ensures EncodeFields(fs).Err? ==> r.Err?
    ensures fs != [] && EncodeFields(fs).Ok? ==> r == WriteBytes(b, EncodeFields(fs).value)
    ensures fs == [] ==> r == Ok(b)
  {
    if fs == [] then Ok(b)
    else
      FieldsConcat(b, fs);
      var b1 :- SerializeField(b, fs[0]);
      SerializeFields(b1, fs[1..])
  }

  /** `Message::serialize`: the field count, then each field in order. */
  function SerializeMessage(b: Buffer, m: Message): (r: Result<Buffer>)
    requires b.Valid()
    decreases m
    ensures r.Ok? ==> r.value.Valid()
    ensures EncodeMessage(m).Err? ==> r.Err?
    ensures EncodeMessage(m).Ok? ==> r == WriteBytes(b, EncodeMessage(m).value)
  {
    MessageConcat(b, m);
    var b1 :- WriteInt32(b, ToInt32(|m.fields|));
    SerializeFields(b1, m.fields)
  }

  // ---------------------------------------------------------------------------
  // Deserialization, call by call

  /** The cursor moved forward within the data; nothing else changed. */
  predicate Advanced(b: Buffer, rest: Buffer)
  {
    rest == b.(position := rest.position) && b.position < rest.position <= b.dataSize
  }

  /** The value after a type code; an unknown code throws. */
  function ReadValue(b: Buffer, code: Int8): (r: Result<Decoded<Value>>)
    requires b.Valid()
    decreases Remaining(b), 3
    ensures r.Ok? ==> Advanced(b, r.value.rest) && TypeCode(r.value.value) == code
  {
    if code == StringCode then
      var s :- ReadString(b);
      Ok(Decoded(Str(s.value), s.rest))
    else if code == SignedInt32Code then
      var i :- ReadInt32(b);
      Ok(Decoded(SignedInt32(i.value), i.rest))
    else if code == DoubleCode then
      var d :- ReadDouble(b);
      Ok(Decoded(Dbl(d.value), d.rest))
    else if code == MessageCode then
      var m :- Deserialize(b, NewMessage());
      Ok(Decoded(Msg(m.value), m.rest))
    else Err(DeserializeNotHandled(code))
  }

  /** `Field::deserialize`: name, type code, then the value the code announces. */
  function ReadField(b: Buffer): (r: Result<Decoded<Field>>)
    requires b.Valid()
    decreases Remaining(b), 4
    ensures r.Ok? ==> Advanced(b, r.value.rest)
  {
    var name :- ReadString(b);
    var code :- ReadInt8(name.rest);
    var value :- ReadValue(code.rest, code.value);
    Ok(Decoded(Field(name.value, value.value), value.rest))
  }

  /** The loop of `Message::deserialize`: `n` fields, each appended; none when `n <= 0`. */
  function ReadFields(b: Buffer, m: Message, n: int): (r: Result<Decoded<Message>>)
    requires b.Valid()
    decreases Remaining(b), 5
    ensures r.Ok? ==> r.value.rest == b.(position := r.value.rest.position)
    ensures r.Ok? ==> b.position <= r.value.rest.position && (b.position <= b.dataSize ==> r.value.rest.position <= b.dataSize)
  {
    if n <= 0 then Ok(Decoded(m, b))
    else
      var f :- ReadField(b);
      ReadFields(f.rest, Append(m, f.value), n - 1)
  }

  /** `Message::deserialize` into `m`: the count, then the fields, appended after those already there. */
  function Deserialize(b: Buffer, m: Message): (r: Result<Decoded<Message>>)
    requires b.Valid()
    decreases Remaining(b), 2
    ensures r.Ok? ==> Advanced(b, r.value.rest)
  {
    var count :- ReadInt32(b);
    ReadFields(count.rest, m, count.value)
  }

  /** `read_message`: a fresh message deserialized from the cursor. */
  function ReadMessage(b: Buffer): (r: Result<Decoded<Message>>)
    requires b.Valid()
    ensures r.Ok? ==> Advanced(b, r.value.rest)
  {
    Deserialize(b, NewMessage())
  }

  // ---------------------------------------------------------------------------
  // Reading back an encoding

  lemma {:induction false} ReadValueAt(b: Buffer, v: Value, e: Bytes)
    requires EncodeValue(v) == Ok(e) && HoldsAt(b, e)
    requires !v.Msg? || Decodable(v.m)
    decreases v
    ensures ReadValue(b, TypeCode(v)) == Ok(Decoded(v, b.(position := b.position + |e|)))
  {
    match v
    case Str(s) =>
      ReadStringAt(b, s, b.(position := b.position + |e|));
    case SignedInt32(i) =>
      ReadInt32At(b, i);
    case Dbl(d) =>
      ReadDoubleAt(b, d);
    case Msg(m) =>
      DeserializeAt(b, NewMessage(), m, e);
      RebuildIndexed(m);
  }

  /** A field is read as its name, its code, then the value the code announces. */
  lemma ReadFieldSteps(b: Buffer, name: Bytes, v: Value, ev: Bytes, after: Buffer)
    requires |name| < Two31 && HoldsAt(b, EncodeString(name) + EncodeInt8(TypeCode(v)) + ev)
    requires ReadValue(b.(position := b.position + |name| + 5), TypeCode(v)) == Ok(Decoded(v, after))
    ensures ReadField(b) == Ok(Decoded(Field(name, v), after))
  {
    var n, c := EncodeString(name), EncodeInt8(TypeCode(v));
    HoldsAtSplit(b, n + c, ev);
    HoldsAtSplit(b, n, c);
    var b1 := b.(position := b.position + |n|);
    var b2 := b1.(position := b1.position + 1);
    assert b2 == b.(position := b.position + |name| + 5);
    ReadStringAt(b, name, b1);
    ReadInt8At(b1, TypeCode(v));
  }

  lemma {:induction false} ReadFieldAt(b: Buffer, f: Field, e: Bytes)
    requires EncodeField(f) == Ok(e) && HoldsAt(b, e)
    requires ValueSet(f.value) && (f.value.Msg? ==> Decodable(f.value.m))
    decreases f
    ensures ReadField(b) == Ok(Decoded(f, b.(position := b.position + |e|)))
  {
    var ev := EncodeValue(f.value).value;
    var b2 := b.(position := b.position + |f.name| + 5);
    var after := b2.(position := b2.position + |ev|);
    FieldLayout(b, f, e, ev, b2, after);
    ReadValueAt(b2, f.value, ev);
    ReadFieldSteps(b, f.name, f.value, ev, after);
  }

  /** An encoded field held at the cursor: its name and code, then its value's encoding. */
  lemma FieldLayout(b: Buffer, f: Field, e: Bytes, ev: Bytes, b2: Buffer, after: Buffer)
    requires EncodeField(f) == Ok(e) && HoldsAt(b, e)
    requires EncodeValue(f.value).Ok? ==> ev == EncodeValue(f.value).value
    requires b2 == b.(position := b.position + |f.name| + 5) && after == b2.(position := b2.position + |ev|)
    ensures EncodeValue(f.value) == Ok(ev) && |f.name| < Two31
    ensures HoldsAt(b, EncodeString(f.name) + EncodeInt8(TypeCode(f.value)) + ev) && HoldsAt(b2, ev)
    ensures after == b.(position := b.position + |e|) && Field(f.name, f.value) == f
  {
    var n := EncodeString(f.name);
    var c := EncodeInt8(TypeCode(f.value));
    assert e == n + c + ev;
    HoldsAtSplit(b, n + c, ev);
  }

  /** Fields are read one at a time, each appended before the next is read. */
  lemma ReadFieldsStep(b: Buffer, m: Message, n: int, f: Field, b1: Buffer)
    requires b.Valid() && n > 0 && ReadField(b) == Ok(Decoded(f, b1))
    ensures ReadFields(b, m, n) == ReadFields(b1, Append(m, f), n - 1)
  {
  }

  lemma {:induction false} ReadFieldsAt(b: Buffer, m: Message, fs: seq<Field>, e: Bytes)
    requires EncodeFields(fs) == Ok(e) && HoldsAt(b, e)
    requires forall i :: 0 <= i < |fs| ==> ValueSet(fs[i].value)
    requires forall i :: 0 <= i < |fs| ==> fs[i].value.Msg? ==> Decodable(fs[i].value.m)
    decreases fs
    ensures ReadFields(b, m, |fs|) == Ok(Decoded(AppendAll(m, fs), b.(position := b.position + |e|)))
  {
    if fs != [] {
      var e1 := EncodeField(fs[0]).value;
      var e2 := EncodeFields(fs[1..]).value;
      var b1 := b.(position := b.position + |e1|);
      FieldsLayout(b, fs, e, e1, e2, b1);
      ReadFieldAt(b, fs[0], e1);
      TailFieldsDecodable(fs);
      ReadFieldsAt(b1, Append(m, fs[0]), fs[1..], e2);
      ReadFieldsStep(b, m, |fs|, fs[0], b1);
    }
  }

  /** An encoding of fields is the first field's, then the rest's. */
  lemma FieldsLayout(b: Buffer, fs: seq<Field>, e: Bytes, e1: Bytes, e2: Bytes, b1: Buffer)
    requires EncodeFields(fs) == Ok(e) && HoldsAt(b, e) && fs != []
    requires EncodeField(fs[0]).Ok? ==> e1 == EncodeField(fs[0]).value
    requires EncodeFields(fs[1..]).Ok? ==> e2 == EncodeFields(fs[1..]).value
    requires b1 == b.(position := b.position + |e1|)
    ensures EncodeField(fs[0]) == Ok(e1) && EncodeFields(fs[1..]) == Ok(e2)
    ensures HoldsAt(b, e1) && HoldsAt(b1, e2)
    ensures b1.(position := b1.position + |e2|) == b.(position := b.position + |e|)
  {
    assert e == e1 + e2;
    HoldsAtSplit(b, e1, e2);
  }

  lemma TailFieldsDecodable(fs: seq<Field>)
    requires fs != []
    requires forall i :: 0 <= i < |fs| ==> ValueSet(fs[i].value)
    requires forall i :: 0 <= i < |fs| ==> fs[i].value.Msg? ==> Decodable(fs[i].value.m)
    ensures forall i :: 0 <= i < |fs[1..]| ==> ValueSet(fs[1..][i].value)
    ensures forall i :: 0 <= i < |fs[1..]| ==> fs[1..][i].value.Msg? ==> Decodable(fs[1..][i].value.m)
  {
    assert forall i :: 0 <= i < |fs[1..]| ==> fs[1..][i] == fs[i + 1];
  }

  lemma {:induction false} DeserializeAt(b: Buffer, m0: Message, m: Message, e: Bytes)
    requires EncodeMessage(m) == Ok(e) && HoldsAt(b, e) && Decodable(m)
    decreases m
    ensures Deserialize(b, m0) == Ok(Decoded(AppendAll(m0, m.fields), b.(position := b.position + |e|)))
  {
    var c := EncodeInt32(|m.fields|);
    var ef := EncodeFields(m.fields).value;
    assert e == c + ef;
    HoldsAtSplit(b, c, ef);
    var b4 := b.(position := b.position + 4);
    assert b4.(position := b4.position + |ef|) == b.(position := b.position + |e|);
    ReadInt32At(b, |m.fields|);
    DeserializeStep(b, m0, |m.fields|, b4);
    ReadFieldsAt(b4, m0, m.fields, ef);
  }

  /** `deserialize` reads the count, then that many fields. */
  lemma DeserializeStep(b: Buffer, m0: Message, n: Int32, b4: Buffer)
    requires b.Valid() && ReadInt32(b) == Ok(Decoded(n, b4))
    ensures Deserialize(b, m0) == ReadFields(b4, m0, n)
  {
  }

  // ---------------------------------------------------------------------------
  // Round trips

  /**
   * A message serialized into a buffer and read back from where the write
   * began is the same message, and the cursor ends where the write ended.
   */
  lemma MessageRoundTrip(b: Buffer, m: Message)
    requires b.Valid() && Decodable(m) && SerializeMessage(b, m).Ok?
    ensures var w := SerializeMessage(b, m).value;
      ReadMessage(w.(position := b.position)) == Ok(Decoded(m, w))
  {
    var e := EncodeMessage(m).value;
    WrittenHoldsAt(b, e);
    var w := WriteBytes(b, e).value;
    var start := w.(position := b.position);
    assert start.(position := start.position + |e|) == w;
    DeserializeAt(start, NewMessage(), m, e);
    RebuildIndexed(m);
    assert ReadMessage(start) == Deserialize(start, NewMessage());
  }

  /**
   * `deserialize` into a message that already has fields: the fields read are
   * appended, and a name already present keeps its earlier field.
   */
  lemma DeserializeAppends(b: Buffer, m0: Message, m: Message)
    requires b.Valid() && Decodable(m) && SerializeMessage(b, m).Ok?
    ensures var w := SerializeMessage(b, m).value;
      var r := Deserialize(w.(position := b.position), m0);
      r.Ok? && r.value.value.fields == m0.fields + m.fields
      && forall n :: n in m0.index ==> GetField(r.value.value, n) == GetField(m0, n)
  {
    var e := EncodeMessage(m).value;
    WrittenHoldsAt(b, e);
    var w := WriteBytes(b, e).value;
    DeserializeAt(w.(position := b.position), m0, m, e);
    AppendAllAppends(m0, m.fields);
    AppendAllKeeps(m0, m.fields);
  }

  /** Appending never changes the field found under a name already indexed. */
  lemma {:induction false} AppendAllKeeps(m: Message, fs: seq<Field>)
    decreases |fs|
    ensures forall n :: n in m.index ==> n in AppendAll(m, fs).index && AppendAll(m, fs).index[n] == m.index[n]
  {
    if fs != [] {
      AppendAllKeeps(Append(m, fs[0]), fs[1..]);
    }
  }

  /** A field whose value is not set cannot be serialized. */
  lemma UnsetFieldRejected(b: Buffer, name: Bytes)
    requires b.Valid()
    ensures SerializeField(b, Field(name, NotSet)).Err?
    ensures |name| < Two31 && b.position + |name| + 5 <= Int32Max ==>
      SerializeField(b, Field(name, NotSet)) == Err(SerializeNotHandled)
  {
  }

  /** A type code outside 1..4 stops deserialization of the field. */
  lemma UnknownCodeRejected(b: Buffer, code: Int8)
    requires b.Valid() && !(StringCode <= code <= MessageCode)
    ensures ReadValue(b, code) == Err(DeserializeNotHandled(code))
  {
  }
  // ---------------------------------------------------------------------------
  // The serialization test: a person with a nested address

  /** The address sub-message: a house number, a street and a city, added in that order. */
  function Address(kHouse: Bytes, kStreet: Bytes, kCity: Bytes, house: Int32, street: Bytes, city: Bytes): Message
  {
    AddField(AddField(AddField(NewMessage(), kHouse, SignedInt32(house)), kStreet, Str(street)), kCity, Str(city))
  }

  /** The person message: a name, an age and the address, added in that order. */
  function Person(kName: Bytes, kAge: Bytes, kAddress: Bytes, name: Bytes, age: Double, address: Message): Message
  {
    AddField(AddField(AddField(NewMessage(), kName, Str(name)), kAge, Dbl(age)), kAddress, Msg(address))
  }

  /** Three fields under distinct names can each be read back by name. */
  lemma ThreeFieldsByName(m: Message, k0: Bytes, k1: Bytes, k2: Bytes, v0: Value, v1: Value, v2: Value)
    requires k0 != k1 && k0 != k2 && k1 != k2 && !v0.NotSet? && !v1.NotSet? && !v2.NotSet?
    requires m == AddField(AddField(AddField(NewMessage(), k0, v0), k1, v1), k2, v2)
    ensures Indexed(m) && m.fields == [Field(k0, v0), Field(k1, v1), Field(k2, v2)]
    ensures GetField(m, k0) == Ok(Field(k0, v0))
    ensures GetField(m, k1) == Ok(Field(k1, v1))
    ensures GetField(m, k2) == Ok(Field(k2, v2))
  {
    GetFieldIsFirst(m, k0);
    GetFieldIsFirst(m, k1);
    GetFieldIsFirst(m, k2);
  }

  /** Adding a set value that fits keeps a message decodable. */
  lemma AddFieldDecodable(m: Message, name: Bytes, v: Value)
    requires Decodable(m) && |m.fields| + 1 < Two31 && |name| < Two31 && ValueSet(v)
    requires v.Str? ==> |v.s| < Two31
    requires v.Msg? ==> Decodable(v.m)
    ensures Decodable(AddField(m, name, v))
  {
    var r := AddField(m, name, v);
    assert r.fields[|m.fields|] == Field(name, v);
    assert Fits(r);
  }

  /** The test's messages can be read back: names and strings fit, every value is set, the indexes agree. */
  lemma PersonDecodable(kName: Bytes, kAge: Bytes, kAddress: Bytes, kHouse: Bytes, kStreet: Bytes, kCity: Bytes,
                        name: Bytes, age: Double, house: Int32, street: Bytes, city: Bytes, a: Message, p: Message)
    requires kName != kAge && kName != kAddress && kAge != kAddress
    requires kHouse != kStreet && kHouse != kCity && kStreet != kCity
    requires |kName| < Two31 && |kAge| < Two31 && |kAddress| < Two31
    requires |kHouse| < Two31 && |kStreet| < Two31 && |kCity| < Two31
    requires |name| < Two31 && |street| < Two31 && |city| < Two31
    requires a == Address(kHouse, kStreet, kCity, house, street, city)
    requires p == Person(kName, kAge, kAddress, name, age, a)
    ensures Decodable(p)
    ensures GetField(p, kName) == Ok(Field(kName, Str(name)))
    ensures GetField(p, kAge) == Ok(Field(kAge, Dbl(age)))
    ensures GetField(p, kAddress) == Ok(Field(kAddress, Msg(a)))
    ensures GetField(a, kHouse) == Ok(Field(kHouse, SignedInt32(house)))
    ensures GetField(a, kStreet) == Ok(Field(kStreet, Str(street)))
    ensures GetField(a, kCity) == Ok(Field(kCity, Str(city)))
  {
    ThreeFieldsByName(a, kHouse, kStreet, kCity, SignedInt32(house), Str(street), Str(city));
    ThreeFieldsByName(p, kName, kAge, kAddress, Str(name), Dbl(age), Msg(a));
    var a1 := AddField(NewMessage(), kHouse, SignedInt32(house));
    AddFieldDecodable(NewMessage(), kHouse, SignedInt32(house));
    AddFieldDecodable(a1, kStreet, Str(street));
    AddFieldDecodable(AddField(a1, kStreet, Str(street)), kCity, Str(city));
    var p1 := AddField(NewMessage(), kName, Str(name));
    AddFieldDecodable(NewMessage(), kName, Str(name));
    AddFieldDecodable(p1, kAge, Dbl(age));
    AddFieldDecodable(AddField(p1, kAge, Dbl(age)), kAddress, Msg(a));
  }

  /**
   * The person serialized into a new buffer, the cursor reset, and
   * deserialized into a new message: every field, the nested ones included,
   * reads back through its getter as the value added.
   */
  lemma PersonRoundTrip(kName: Bytes, kAge: Bytes, kAddress: Bytes, kHouse: Bytes, kStreet: Bytes, kCity: Bytes,
                        name: Bytes, age: Double, house: Int32, street: Bytes, city: Bytes, a: Message, p: Message)
    requires kName != kAge && kName != kAddress && kAge != kAddress
    requires kHouse != kStreet && kHouse != kCity && kStreet != kCity
    requires |kName| < Two31 && |kAge| < Two31 && |kAddress| < Two31
    requires |kHouse| < Two31 && |kStreet| < Two31 && |kCity| < Two31
    requires |name| < Two31 && |street| < Two31 && |city| < Two31
    requires a == Address(kHouse, kStreet, kCity, house, street, city)
    requires p == Person(kName, kAge, kAddress, name, age, a)
    requires SerializeMessage(Create(), p).Ok?
    ensures var r := Deserialize(ResetPosition(SerializeMessage(Create(), p).value), NewMessage());
      && r.Ok? && r.value.value == p
      && GetField(r.value.value, kName).Ok? && GetString(GetField(r.value.value, kName).value) == Ok(name)
      && GetField(r.value.value, kAge).Ok? && GetDouble(GetField(r.value.value, kAge).value) == Ok(age)
      && GetField(r.value.value, kAddress).Ok? && GetMessage(GetField(r.value.value, kAddress).value) == Ok(a)
      && GetSignedInt32(GetField(a, kHouse).value) == Ok(house)
      && GetString(GetField(a, kStreet).value) == Ok(street)
      && GetString(GetField(a, kCity).value) == Ok(city)
  {
    PersonDecodable(kName, kAge, kAddress, kHouse, kStreet, kCity, name, age, house, street, city, a, p);
    MessageRoundTrip(Create(), p);
    var w := SerializeMessage(Create(), p).value;
    assert ResetPosition(w) == w.(position := Create().position);
  }
}
