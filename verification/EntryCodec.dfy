/** How a stream entry is laid out in its list pack (internal/datastructure/stream.go:187-262). */
module EntryCodec {
  import opened Bytes
  import opened StreamIDs

  // Go strings are byte strings.
  type Text = seq<Byte>

  datatype Entry = Entry(id: StreamID, fields: map<Text, Text>)

  // An order in which a map can be iterated.
  ghost predicate Iterates(order: seq<Text>, fields: map<Text, Text>) {
    && (forall i, j :: 0 <= i < j < |order| ==> order[i] != order[j])
    && (forall k :: k in order <==> k in fields)
  }

  function VarString(s: Text): Text { PutUvarint(|s|) + s }

  method AppendVarString(dst: seq<Byte>, s: Text) returns (r: seq<Byte>)
    ensures r == dst + VarString(s)
  {
    r := dst + PutUvarint(|s|);
    r := r + s;
  }

  ghost function EncodedFields(order: seq<Text>, fields: map<Text, Text>): seq<Byte>
    requires forall k :: k in order ==> k in fields
  {
    if order == [] then []
    else VarString(order[0]) + VarString(fields[order[0]]) + EncodedFields(order[1..], fields)
  }

  ghost function Encoded(e: Entry, order: seq<Text>): seq<Byte>
    requires Iterates(order, e.fields)
  {
    e.id.EncodeToBytes() + PutUvarint(|e.fields|) + EncodedFields(order, e.fields)
  }

  // order is the iteration order of the map.
  method EncodeEntry(e: Entry, order: seq<Text>) returns (buf: seq<Byte>)
    requires Iterates(order, e.fields)
    ensures buf == Encoded(e, order)
  {
    hide VarString;
    hide StreamID.EncodeToBytes;
    hide PutUvarint;
    buf := e.id.EncodeToBytes();
    buf := buf + PutUvarint(|e.fields|);
    for i := 0 to |order|
      invariant Encoded(e, order) == buf + EncodedFields(order[i..], e.fields)
    {
      assert order[i..][0] == order[i] && order[i..][1..] == order[i + 1..];
      ghost var before := buf;
      var k := order[i];
      buf := AppendVarString(buf, k);
      buf := AppendVarString(buf, e.fields[k]);
      assert before + (VarString(k) + VarString(e.fields[k]) + EncodedFields(order[i + 1..], e.fields))
          == buf + EncodedFields(order[i + 1..], e.fields);
    }
  }

  // The string and the number of bytes read.  Where start and length do not add up within Go's int, the end
  // wraps around to in front of the start, and slicing panics.
  function ReadVarString(b: seq<Byte>, pos: nat): (r: Result<(Text, nat)>)
    requires pos <= |b|
    ensures r.Ok? ==> 0 < r.value.1 && pos + r.value.1 <= |b|
  {
    var (length, n) := Uvarint(b[pos..]);
    if n <= 0 then Err("invalid length varint")
    else if pos + n + length >= TWO_63 then Err(PANIC)
    else if pos + n + length > |b| then Err("truncated data")
    else Ok((b[pos + n..pos + n + length], n + length))
  }

  function DecodedFields(b: seq<Byte>, pos: nat, count: nat, fields: map<Text, Text>): Result<map<Text, Text>>
    requires pos <= |b|
    decreases count
  {
    if count == 0 then Ok(fields)
    else
      match ReadVarString(b, pos)
      case Err(m) => Err(m)
      case Ok((k, nk)) =>
        match ReadVarString(b, pos + nk)
        case Err(m) => Err(m)
        case Ok((v, nv)) => DecodedFields(b, pos + nk + nv, count - 1, fields[k := v])
  }

  function Decoded(b: seq<Byte>): Result<Entry> {
    if |b| < 16 then Err("invalid entry: too short for ID")
    else
      var (count, n) := Uvarint(b[16..]);
      if n <= 0 then Err("invalid field count")
      else
        match DecodedFields(b, 16 + n, count, map[])
        case Err(m) => Err(m)
        case Ok(fields) => Ok(Entry(DecodeFromBytes(b[0..16]).value, fields))
  }

  method DecodeEntry(b: seq<Byte>) returns (r: Result<Entry>)
    ensures r == Decoded(b)
  {
    hide ReadVarString;
    hide Uvarint;
    hide DecodeFromBytes;
    var pos := 0;
    if |b| < 16 {
      return Err("invalid entry: too short for ID");
    }
    var id := DecodeFromBytes(b[pos..pos + 16]);  // 16 bytes always decode
    pos := pos + 16;
    var (count, n2) := Uvarint(b[pos..]);
    if n2 <= 0 {
      return Err("invalid field count");
    }
    pos := pos + n2;
    var fields: map<Text, Text> := map[];
    ghost var all := DecodedFields(b, pos, count, fields);
    for i := 0 to count
      invariant 0 <= pos <= |b|
      invariant all == DecodedFields(b, pos, count - i, fields)
    {
      var k := ReadVarString(b, pos);
      if k.Err? {
        return Err(k.message);
      }
      pos := pos + k.value.1;
      var v := ReadVarString(b, pos);
      if v.Err? {
        return Err(v.message);
      }
      pos := pos + v.value.1;
      fields := fields[k.value.0 := v.value.0];
    }
    return Ok(Entry(id.value, fields));
  }

  // Reading a string takes exactly the bytes that were written for it.  A Go slice is shorter than 2^63.
  lemma VarStringRoundTrip(a: seq<Byte>, s: Text, z: seq<Byte>)
    requires |a + VarString(s) + z| < TWO_63
    ensures ReadVarString(a + VarString(s) + z, |a|) == Ok((s, |VarString(s)|))
  {
    var b := a + VarString(s) + z;
    UvarintRoundTrip(|s|, s + z);
    assert b[|a|..] == PutUvarint(|s|) + (s + z);
    var n := |PutUvarint(|s|)|;
    assert b[|a| + n..|a| + n + |s|] == s;
  }

  // Any length in front: the string, an error if the bytes end before it does, and the panic if its end does not
  // fit Go's int.
  lemma VarStringReads(a: seq<Byte>, length: nat, rest: seq<Byte>)
    requires length < TWO_64
    ensures var n := |PutUvarint(length)|;
            ReadVarString(a + PutUvarint(length) + rest, |a|)
            == (if |a| + n + length >= TWO_63 then Err(PANIC)
                else if length > |rest| then Err("truncated data")
                else Ok((rest[..length], n + length)))
  {
    hide PutUvarint;
    hide Uvarint;
    var head := PutUvarint(length);
    var b := a + head + rest;
    UvarintRoundTrip(length, rest);
    assert b[|a|..] == head + rest;
    if length <= |rest| {
      assert b[|a| + |head|..|a| + |head| + length] == rest[..length];
    }
  }

  ghost function Chosen(order: seq<Text>, fields: map<Text, Text>): map<Text, Text>
    requires forall k :: k in order ==> k in fields
  {
    map k | k in order :: fields[k]
  }

  // Decoding after `order` has been consumed up to some point: the rest of the fields is added.
  lemma ChosenStep(order: seq<Text>, fields: map<Text, Text>, sofar: map<Text, Text>)
    requires order != [] && forall k :: k in order ==> k in fields
    ensures sofar[order[0] := fields[order[0]]] + Chosen(order[1..], fields) == sofar + Chosen(order, fields)
  {
  }

  lemma {:induction false} FieldsRoundTrip(a: seq<Byte>, order: seq<Text>, fields: map<Text, Text>,
                                           sofar: map<Text, Text>)
    requires (forall k :: k in order ==> k in fields) && |a + EncodedFields(order, fields)| < TWO_63
    ensures DecodedFields(a + EncodedFields(order, fields), |a|, |order|, sofar)
         == Ok(sofar + Chosen(order, fields))
    decreases |order|
  {
    hide ReadVarString;
    hide VarString;
    if order == [] {
      assert sofar + Chosen(order, fields) == sofar;
    } else {
      var k, v := order[0], fields[order[0]];
      var rest := EncodedFields(order[1..], fields);
      var b := a + EncodedFields(order, fields);
      assert b == a + VarString(k) + (VarString(v) + rest);
      VarStringRoundTrip(a, k, VarString(v) + rest);
      assert b == (a + VarString(k)) + VarString(v) + rest;
      VarStringRoundTrip(a + VarString(k), v, rest);
      assert b == (a + VarString(k) + VarString(v)) + rest;
      FieldsRoundTrip(a + VarString(k) + VarString(v), order[1..], fields, sofar[k := v]);
      ChosenStep(order, fields, sofar);
    }
  }

  lemma {:induction false} OrderLength(order: seq<Text>, fields: map<Text, Text>)
    requires Iterates(order, fields)
    ensures |order| == |fields|
    decreases |order|
  {
    if order == [] {
      assert fields == map[];
    } else {
      var rest := fields - {order[0]};
      assert forall k :: k in order[1..] <==> k in rest by {
        assert order == [order[0]] + order[1..];
      }
      OrderLength(order[1..], rest);
      assert fields.Keys == rest.Keys + {order[0]};
    }
  }

  lemma {:induction false} FieldsLength(order: seq<Text>, fields: map<Text, Text>)
    requires forall k :: k in order ==> k in fields
    ensures |order| <= |EncodedFields(order, fields)|
    decreases |order|
  {
    if order != [] {
      FieldsLength(order[1..], fields);
    }
  }

  lemma ChosenAll(order: seq<Text>, fields: map<Text, Text>)
    requires Iterates(order, fields)
    ensures map[] + Chosen(order, fields) == fields
  {
  }

  lemma ThreeParts<T>(a: seq<T>, b: seq<T>, c: seq<T>)
    ensures (a + b + c)[0..|a|] == a && (a + b + c)[|a|..] == b + c
  {
  }

  // Decoding starts with the ID and the number of fields.
  lemma DecodedUnfolds(head: seq<Byte>, count: seq<Byte>, tail: seq<Byte>, n: nat)
    requires |head| == 16 && |count| > 0 && Uvarint(count + tail) == (n, |count|)
    ensures var b := head + count + tail;
            |head + count| <= |b| &&
            match DecodedFields(b, |head + count|, n, map[])
            case Err(m) => Decoded(b) == Err(m)
            case Ok(fields) => Decoded(b) == Ok(Entry(DecodeFromBytes(head).value, fields))
  {
    hide Uvarint;
    hide DecodedFields;
    hide DecodeFromBytes;
    ThreeParts(head, count, tail);
  }

  // Whatever order the fields were written in, the entry comes back.
  lemma EntryRoundTrip(e: Entry, order: seq<Text>)
    requires Iterates(order, e.fields) && |Encoded(e, order)| < TWO_63
    ensures Decoded(Encoded(e, order)) == Ok(e)
  {
    hide Decoded;
    hide EncodedFields;
    hide PutUvarint;
    hide Uvarint;
    hide DecodedFields;
    hide DecodeFromBytes;
    hide StreamID.EncodeToBytes;
    hide Chosen;
    var head, count := e.id.EncodeToBytes(), PutUvarint(|e.fields|);
    OrderLength(order, e.fields);
    FieldsLength(order, e.fields);
    BytesRoundTrip(e.id);
    UvarintRoundTrip(|e.fields|, EncodedFields(order, e.fields));
    DecodedUnfolds(head, count, EncodedFields(order, e.fields), |e.fields|);
    FieldsRoundTrip(head + count, order, e.fields, map[]);
    ChosenAll(order, e.fields);
  }
}
