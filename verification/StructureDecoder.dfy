/**
 The decoder as it runs: a cursor over the body that every read moves forward, objects and arrays filled in loops,
 and an exception -- here a false -- when the body ends early or claims too many elements.
 */
module StructureDecoder {
  import opened Options
  import opened StructureLayouts
  import opened StructureCodec
  import opened CodecDecoding

  class BinaryDecoder {
    const body: Bytes
    var position: nat

    ghost predicate Valid()
      reads this
    {
      position <= |body|
    }

    ghost function Rest(): Bytes
      reads this
      requires Valid()
    {
      body[position..]
    }

    constructor (body: Bytes)
      ensures this.body == body && Valid() && Rest() == body
    {
      this.body, position := body, 0;
    }

    /** The cursor passes over `count` bytes, or fails without them. */
    method Take(count: nat) returns (ok: bool, bytes: Bytes)
      requires Valid()
      modifies this
      ensures Valid() && ok == (count <= |old(Rest())|)
      ensures ok ==> bytes == old(Rest())[..count] && Rest() == old(Rest())[count..]
    {
      bytes := [];
      ok := position + count <= |body|;
      if ok {
        bytes := body[position..position + count];
        position := position + count;
      }
    }

    method ReadInt32() returns (ok: bool, value: int)
      requires Valid()
      modifies this
      ensures Valid() && ok == StructureCodec.ReadInt32(old(Rest())).Some?
      ensures ok ==> StructureCodec.ReadInt32(old(Rest())) == Some((value, Rest()))
    {
      var bytes;
      value := 0;
      ok, bytes := Take(4);
      if ok { value := IntFromBytes(bytes, true); }
    }

    /** A length and that many bytes; a negative length stands for none. */
    method ReadLengthPrefixed() returns (ok: bool, bytes: Option<Bytes>)
      requires Valid()
      modifies this
      ensures Valid() && ok == StructureCodec.ReadLengthPrefixed(old(Rest())).Some?
      ensures ok ==> StructureCodec.ReadLengthPrefixed(old(Rest())) == Some((bytes, Rest()))
    {
      var length;
      bytes := None;
      ok, length := ReadInt32();
      if ok && length >= 0 {
        var taken;
        ok, taken := Take(length);
        if ok { bytes := Some(taken); }
      }
    }
  }

  /** What a reading step did: the value read and the cursor past it, or an exception. */
  ghost predicate DidRead(ok: bool, value: Json, rest: Bytes, expected: Reading) {
    if ok then expected == Some((value, rest)) else expected == None
  }

  /** The values that take a fixed number of bytes; zero for the others. */
  function FixedWidth(builtIn: BuiltInType): nat {
    if IntegerShape(builtIn).Some? then IntegerShape(builtIn).value.0
    else if builtIn.Boolean? then 1
    else if builtIn.Float? then 4
    else if builtIn.Double? || builtIn.DateTime? then 8
    else if builtIn.Guid? then 16
    else 0
  }

  /** What the bytes of such a value say. */
  function FixedValue(cx: Context, builtIn: BuiltInType, bytes: Bytes): Json
    requires FixedWidth(builtIn) > 0 && |bytes| == FixedWidth(builtIn)
  {
    if IntegerShape(builtIn).Some? then Int(IntFromBytes(bytes, IntegerShape(builtIn).value.1))
    else
      match builtIn
      case Boolean => Bool(bytes[0] != 0)
      case Float => Real(cx.widen(bytes))
      case Double => Real(bytes)
      case DateTime => Str(cx.printDate(bytes))
      case Guid => Str(cx.printGuid(bytes))
  }

  lemma ReadsFixed(cx: Context, b: Bytes, builtIn: BuiltInType)
    requires FixedWidth(builtIn) > 0
    ensures var width := FixedWidth(builtIn);
      ReadBuiltIn(cx, b, builtIn) == if |b| < width then None
        else Some((FixedValue(cx, builtIn, b[..width]), b[width..]))
  {
    if builtIn.Boolean? && |b| >= 1 { assert b[..1][0] == b[0]; }
  }

  method ReadFixed(cx: Context, decoder: BinaryDecoder, builtIn: BuiltInType) returns (ok: bool, value: Json)
    requires decoder.Valid() && FixedWidth(builtIn) > 0
    modifies decoder
    ensures decoder.Valid() && DidRead(ok, value, decoder.Rest(), ReadBuiltIn(cx, old(decoder.Rest()), builtIn))
  {
    ReadsFixed(cx, decoder.Rest(), builtIn);
    var bytes;
    value := Null;
    ok, bytes := decoder.Take(FixedWidth(builtIn));
    if ok { value := FixedValue(cx, builtIn, bytes); }
  }

  /** Text and byte strings; a negative length is a null. */
  method ReadText(cx: Context, decoder: BinaryDecoder, builtIn: BuiltInType) returns (ok: bool, value: Json)
    requires decoder.Valid() && (builtIn.String? || builtIn.ByteString?)
    modifies decoder
    ensures decoder.Valid() && DidRead(ok, value, decoder.Rest(), ReadBuiltIn(cx, old(decoder.Rest()), builtIn))
  {
    var bytes;
    value := Null;
    ok, bytes := decoder.ReadLengthPrefixed();
    if ok && bytes.Some? {
      value := Str(if builtIn.String? then cx.fromUtf8(bytes.value) else cx.printBase64(bytes.value));
    }
  }

  /** The types that are only ever read, which the stack reads. */
  method ReadOther(cx: Context, decoder: BinaryDecoder, builtIn: BuiltInType) returns (ok: bool, value: Json)
    requires decoder.Valid() && FixedWidth(builtIn) == 0 && !builtIn.String? && !builtIn.ByteString?
    modifies decoder
    ensures decoder.Valid() && DidRead(ok, value, decoder.Rest(), ReadBuiltIn(cx, old(decoder.Rest()), builtIn))
  {
    value := Null;
    match cx.readOther(builtIn, decoder.body[decoder.position..]) {
      case None => ok := false;
      case Some((read, width)) =>
        var passed;
        ok, passed := decoder.Take(width);
        if ok { value := read; }
    }
  }

  method ReadOneBuiltIn(cx: Context, decoder: BinaryDecoder, builtIn: BuiltInType) returns (ok: bool, value: Json)
    requires decoder.Valid()
    modifies decoder
    ensures decoder.Valid() && DidRead(ok, value, decoder.Rest(), ReadBuiltIn(cx, old(decoder.Rest()), builtIn))
  {
    if FixedWidth(builtIn) > 0 {
      ok, value := ReadFixed(cx, decoder, builtIn);
    } else if builtIn.String? || builtIn.ByteString? {
      ok, value := ReadText(cx, decoder, builtIn);
    } else {
      ok, value := ReadOther(cx, decoder, builtIn);
    }
  }

  /** Whether some field from the k-th on nests a structure without a rank, as a scalar. */
  ghost predicate NestsUnranked(sc: Schema, id: LayoutId, k: nat)
    requires id in sc.layouts
  {
    exists j {:trigger NestsInto(sc.layouts[id].fields[j], sc.layouts.Keys - sc.rank.Keys)} ::
      k <= j < |sc.layouts[id].fields| && NestsInto(sc.layouts[id].fields[j], sc.layouts.Keys - sc.rank.Keys)
  }

  /** How far a structure has been read, if it is one that can be read to its end. */
  ghost predicate ReadTo(cx: Context, sc: Schema, whole: Reading, rest: Bytes, id: LayoutId, k: nat,
                         props: map<string, Json>)
    requires sc.Valid() && id in sc.layouts && k <= |sc.layouts[id].fields|
  {
    if id in sc.rank then whole == ReadFieldsFrom(cx, sc, rest, id, k, props) else NestsUnranked(sc, id, k)
  }

  /** What reading the k-th field did; one that nests a structure without a rank was not read. */
  ghost predicate DidReadField(cx: Context, sc: Schema, b: Bytes, id: LayoutId, k: nat, ok: bool, value: Json,
                               rest: Bytes)
    requires sc.Valid() && id in sc.layouts && k < |sc.layouts[id].fields|
  {
    && (id in sc.rank ==> DidRead(ok, value, rest, ReadField(cx, sc, b, id, k)))
    && (NestsInto(sc.layouts[id].fields[k], sc.layouts.Keys - sc.rank.Keys) ==> !ok)
    && (ok ==> |rest| <= |b|)
  }

  lemma ReadStarts(cx: Context, sc: Schema, b: Bytes, id: LayoutId)
    requires sc.Valid() && id in sc.layouts
    ensures ReadTo(cx, sc, ReadStructure(cx, sc, b, id), b, id, 0, map[])
  {
    if id !in sc.rank {
      var ids := sc.layouts.Keys - sc.rank.Keys;
      assert NestsSome(sc.layouts[id], ids);
      var j :| 0 <= j < |sc.layouts[id].fields| && NestsInto(sc.layouts[id].fields[j], ids);
    }
  }

  lemma ReadOn(cx: Context, sc: Schema, whole: Reading, b: Bytes, id: LayoutId, k: nat, props: map<string, Json>,
               value: Json, rest: Bytes)
    requires sc.Valid() && id in sc.layouts && k < |sc.layouts[id].fields| && ReadTo(cx, sc, whole, b, id, k, props)
    requires DidReadField(cx, sc, b, id, k, true, value, rest)
    ensures ReadTo(cx, sc, whole, rest, id, k + 1,
                   if value.Null? then props else props[sc.layouts[id].fields[k].name := value])
  {
    if id !in sc.rank {
      var j :| k <= j < |sc.layouts[id].fields| && NestsInto(sc.layouts[id].fields[j], sc.layouts.Keys - sc.rank.Keys);
      assert j != k;
    }
  }

  lemma ReadFails(cx: Context, sc: Schema, whole: Reading, b: Bytes, id: LayoutId, k: nat, props: map<string, Json>,
                  value: Json, rest: Bytes)
    requires sc.Valid() && id in sc.layouts && k < |sc.layouts[id].fields| && ReadTo(cx, sc, whole, b, id, k, props)
    requires DidReadField(cx, sc, b, id, k, false, value, rest) && (id !in sc.rank ==> whole.None?)
    ensures whole.None?
  {}

  /**
   Null fields are left out. Each structure nested as a scalar takes the recursion one deeper before any byte need have
   been read; where it goes deeper than the stack allows, this is as far as reading gets.
   */
  method TryReadStructure(cx: Context, decoder: BinaryDecoder, ghost sc: Schema, layouts: Layouts, id: LayoutId,
                          stack: nat, left: nat)
    returns (ok: bool, value: Json)
    requires sc.Valid() && sc.layouts == layouts && id in layouts && decoder.Valid()
    requires sc.top <= stack
    modifies decoder
    ensures decoder.Valid() && (ok ==> |decoder.Rest()| <= |old(decoder.Rest())|)
    ensures sc.RankOf(id) <= left ==> DidRead(ok, value, decoder.Rest(), ReadStructure(cx, sc, old(decoder.Rest()), id))
    decreases |decoder.Rest()|, left, 2
  {
    var fields := layouts[id].fields;
    var props := map[];
    ghost var whole := ReadStructure(cx, sc, decoder.Rest(), id);
    ReadStarts(cx, sc, decoder.Rest(), id);
    for k := 0 to |fields|
      invariant decoder.Valid() && |decoder.Rest()| <= |old(decoder.Rest())|
      invariant sc.RankOf(id) <= left ==> ReadTo(cx, sc, whole, decoder.Rest(), id, k, props)
    {
      ghost var b := decoder.Rest();
      var read;
      ok, read := TryReadField(cx, decoder, sc, layouts, id, k, stack, left);
      if sc.RankOf(id) <= left {
        if ok {
          ReadOn(cx, sc, whole, b, id, k, props, read, decoder.Rest());
        } else {
          ReadFails(cx, sc, whole, b, id, k, props, read, decoder.Rest());
        }
      }
      if !ok { return false, Null; }
      if !read.Null? { props := props[fields[k].name := read]; }
    }
    ok, value := true, Obj(props);
  }

  method TryReadField(cx: Context, decoder: BinaryDecoder, ghost sc: Schema, layouts: Layouts, id: LayoutId, k: nat,
                      stack: nat, left: nat)
    returns (ok: bool, value: Json)
    requires sc.Valid() && sc.layouts == layouts && id in layouts && k < |layouts[id].fields| && decoder.Valid()
    requires sc.top <= stack
    modifies decoder
    ensures decoder.Valid() && (ok ==> |decoder.Rest()| <= |old(decoder.Rest())|)
    ensures sc.RankOf(id) <= left ==> DidReadField(cx, sc, old(decoder.Rest()), id, k, ok, value, decoder.Rest())
    decreases |decoder.Rest()|, left, 1
  {
    var field := layouts[id].fields[k];
    if field.isArray {
      ok, value := TryReadArray(cx, decoder, sc, layouts, field, stack);
    } else if field.structure.Some? {
      if left == 0 { return false, Null; }
      ok, value := TryReadStructure(cx, decoder, sc, layouts, field.structure.value, stack, left - 1);
    } else {
      ok, value := ReadOneBuiltIn(cx, decoder, field.builtIn);
    }
  }

  method TryReadArray(cx: Context, decoder: BinaryDecoder, ghost sc: Schema, layouts: Layouts, field: Field, stack: nat)
    returns (ok: bool, value: Json)
    requires sc.Valid() && sc.layouts == layouts && RefersInto(layouts, field) && decoder.Valid() && sc.top <= stack
    modifies decoder
    ensures decoder.Valid() && (ok ==> |decoder.Rest()| <= |old(decoder.Rest())|)
    ensures DidRead(ok, value, decoder.Rest(), ReadArray(cx, sc, old(decoder.Rest()), field))
    decreases |decoder.Rest()|, 0, 0
  {
    var length;
    ok, length := decoder.ReadInt32();
    if !ok { return false, Null; }
    if length < 0 { return true, Null; }
    if cx.maxArrayLength > 0 && length > cx.maxArrayLength { return false, Null; }
    var items: seq<Json> := [];
    ghost var whole := ReadItems(cx, sc, decoder.Rest(), field, length, []);
    for i := 0 to length
      invariant decoder.Valid() && |decoder.Rest()| < |old(decoder.Rest())|
      invariant whole == ReadItems(cx, sc, decoder.Rest(), field, length - i, items)
    {
      var item;
      if field.structure.Some? {
        ok, item := TryReadStructure(cx, decoder, sc, layouts, field.structure.value, stack, stack);
      } else {
        ok, item := ReadOneBuiltIn(cx, decoder, field.builtIn);
      }
      if !ok { return false, Null; }
      items := items + [item];
    }
    ok, value := true, Arr(items);
  }

  lemma DecodeIs(cx: Context, sc: Schema, body: Bytes, id: LayoutId, ok: bool, value: Json, rest: Bytes)
    requires sc.Valid() && id in sc.layouts && DidRead(ok, value, rest, ReadStructure(cx, sc, body, id))
    ensures Decode(cx, sc, body, id) == if ok && rest == [] then value else Null
  {}

  /** `stack` is how deep the runtime's stack lets structures nest: as deep, at least, as those that nest to an end. */
  method DecodeBody(cx: Context, body: Bytes, ghost sc: Schema, layouts: Layouts, id: LayoutId, stack: nat)
    returns (value: Json)
    requires sc.Valid() && sc.layouts == layouts && id in layouts && sc.top <= stack
    ensures value == Decode(cx, sc, body, id)
  {
    var decoder := new BinaryDecoder(body);
    var ok, read := TryReadStructure(cx, decoder, sc, layouts, id, stack, stack);
    DecodeIs(cx, sc, body, id, ok, read, decoder.Rest());
    value := if ok && decoder.position == |body| then read else Null;
  }
}
