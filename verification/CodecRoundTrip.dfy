/**
 Decoding what was encoded gives the value back: exactly, up to explicit nulls being dropped, base64 Byte arrays
 becoming arrays of numbers, and dates, Guids, byte strings and reals taking the form they are published in.
 */
module CodecRoundTrip {
  import opened Options
  import opened StructureLayouts
  import opened StructureCodec
  import opened EndlessLayouts

  const INT32_LIMIT := 0x8000_0000

  /**
   Its texts survive UTF-8, and no array or text is longer than an Int32 can say, which the runtime's arrays and strings
   never are.
   */
  ghost predicate Representable(cx: Context, value: Json) {
    match value
    case Str(text) =>
      && cx.fromUtf8(cx.utf8(text)) == text && |cx.utf8(text)| < INT32_LIMIT
      && (cx.parseBase64(text).Some? ==> |cx.parseBase64(text).value| < INT32_LIMIT)
    case Arr(items) => |items| < INT32_LIMIT && forall k :: 0 <= k < |items| ==> Representable(cx, items[k])
    case Obj(props) => forall name :: name in props ==> Representable(cx, props[name])
    case _ => true
  }

  // ------------------------------------------------------------------------------------------------------------
  // The form a value comes back in

  function DoubleOf(cx: Context, value: Json): Bytes8
    requires value.Int? || value.Real?
  {
    if value.Int? then cx.doubleOfInt(value.i) else value.double
  }

  function NormBuiltIn(cx: Context, value: Json, builtIn: BuiltInType): Json {
    match builtIn
    case Float => if value.Int? || value.Real? then Real(cx.widen(cx.narrow(DoubleOf(cx, value)))) else value
    case Double => if value.Int? || value.Real? then Real(DoubleOf(cx, value)) else value
    case DateTime =>
      if value.Str? && cx.parseDate(value.text).Some? then Str(cx.printDate(cx.parseDate(value.text).value)) else value
    case Guid =>
      if value.Str? && cx.parseGuid(value.text).Some? then Str(cx.printGuid(cx.parseGuid(value.text).value)) else value
    case ByteString =>
      if value.Str? && cx.parseBase64(value.text).Some? then Str(cx.printBase64(cx.parseBase64(value.text).value))
        else value
    case _ => value
  }

  function Numbers(bytes: Bytes): seq<Json> {
    seq(|bytes|, i requires 0 <= i < |bytes| => Int(bytes[i]))
  }

  ghost function NormStructure(cx: Context, layouts: Layouts, value: Json, id: LayoutId): Json
    requires Closed(layouts) && id in layouts
    decreases value, 1, 0
  {
    if value.Obj? then Obj(NormFieldsFrom(cx, layouts, value, id, 0, map[])) else value
  }

  ghost function NormFieldsFrom(cx: Context, layouts: Layouts, value: Json, id: LayoutId, k: nat,
                                props: map<string, Json>): map<string, Json>
    requires Closed(layouts) && id in layouts && k <= |layouts[id].fields| && value.Obj?
    decreases value, 0, |layouts[id].fields| - k
  {
    if k == |layouts[id].fields| then props
    else
      var field := layouts[id].fields[k];
      var given := Given(value, field.name);
      NormFieldsFrom(cx, layouts, value, id, k + 1,
                     if given.Null? then props else props[field.name := NormGiven(cx, layouts, given, field)])
  }

  /** The form a field's given value comes back in. */
  ghost function NormGiven(cx: Context, layouts: Layouts, value: Json, field: Field): Json
    requires Closed(layouts) && RefersInto(layouts, field)
    decreases value, 3, 0
  {
    if field.isArray then NormArray(cx, layouts, value, field) else NormScalar(cx, layouts, value, field)
  }

  ghost function NormArray(cx: Context, layouts: Layouts, value: Json, field: Field): Json
    requires Closed(layouts) && RefersInto(layouts, field)
    decreases value, 2, 0
  {
    if field.structure.None? && field.builtIn.Byte? && value.Str? && cx.parseBase64(value.text).Some? then
      Arr(Numbers(cx.parseBase64(value.text).value))
    else if value.Arr? then Arr(NormItemsFrom(cx, layouts, value, field, 0, []))
    else value
  }

  ghost function NormItemsFrom(cx: Context, layouts: Layouts, value: Json, field: Field, k: nat,
                               items: seq<Json>): seq<Json>
    requires Closed(layouts) && RefersInto(layouts, field) && value.Arr? && k <= |value.items|
    decreases value, 0, |value.items| - k
  {
    if k == |value.items| then items
    else NormItemsFrom(cx, layouts, value, field, k + 1, items + [NormScalar(cx, layouts, value.items[k], field)])
  }

  ghost function NormScalar(cx: Context, layouts: Layouts, value: Json, field: Field): Json
    requires Closed(layouts) && RefersInto(layouts, field)
    decreases value, 2, 0
  {
    if field.structure.Some? then NormStructure(cx, layouts, value, field.structure.value)
    else NormBuiltIn(cx, value, field.builtIn)
  }

  // ------------------------------------------------------------------------------------------------------------
  // The array limit

  predicate WithinLimit(cx: Context, count: int) {
    cx.maxArrayLength <= 0 || count <= cx.maxArrayLength
  }

  ghost predicate StructureFits(cx: Context, layouts: Layouts, value: Json, id: LayoutId)
    requires Closed(layouts) && id in layouts
    decreases value, 1, 0
  {
    value.Obj? ==> FieldsFitFrom(cx, layouts, value, id, 0)
  }

  ghost predicate FieldsFitFrom(cx: Context, layouts: Layouts, value: Json, id: LayoutId, k: nat)
    requires Closed(layouts) && id in layouts && k <= |layouts[id].fields| && value.Obj?
    decreases value, 0, |layouts[id].fields| - k
  {
    k < |layouts[id].fields| ==>
      var field := layouts[id].fields[k];
      var given := Given(value, field.name);
      && (!given.Null? ==> GivenFits(cx, layouts, given, field))
      && FieldsFitFrom(cx, layouts, value, id, k + 1)
  }

  ghost predicate GivenFits(cx: Context, layouts: Layouts, value: Json, field: Field)
    requires Closed(layouts) && RefersInto(layouts, field)
    decreases value, 3, 0
  {
    if field.isArray then ArrayFits(cx, layouts, value, field) else ScalarFits(cx, layouts, value, field)
  }

  ghost predicate ArrayFits(cx: Context, layouts: Layouts, value: Json, field: Field)
    requires Closed(layouts) && RefersInto(layouts, field)
    decreases value, 2, 0
  {
    if field.structure.None? && field.builtIn.Byte? && value.Str? && cx.parseBase64(value.text).Some? then
      WithinLimit(cx, |cx.parseBase64(value.text).value|)
    else value.Arr? ==> WithinLimit(cx, |value.items|) && ItemsFitFrom(cx, layouts, value, field, 0)
  }

  ghost predicate ItemsFitFrom(cx: Context, layouts: Layouts, value: Json, field: Field, k: nat)
    requires Closed(layouts) && RefersInto(layouts, field) && value.Arr? && k <= |value.items|
    decreases value, 0, |value.items| - k
  {
    k < |value.items| ==>
      ScalarFits(cx, layouts, value.items[k], field) && ItemsFitFrom(cx, layouts, value, field, k + 1)
  }

  ghost predicate ScalarFits(cx: Context, layouts: Layouts, value: Json, field: Field)
    requires Closed(layouts) && RefersInto(layouts, field)
    decreases value, 2, 0
  {
    field.structure.Some? ==> StructureFits(cx, layouts, value, field.structure.value)
  }

  // ------------------------------------------------------------------------------------------------------------
  // Round trips

  lemma Int32RoundTrip(i: int, rest: Bytes)
    requires -INT32_LIMIT <= i < INT32_LIMIT
    ensures ReadInt32(WriteInt32(i) + rest) == Some((i, rest))
  {
    assert Pow256(4) == 0x1_0000_0000 by { assert Pow256(2) == 0x1_0000; }
    IntRoundTrip(i, 4, true);
    assert (WriteInt32(i) + rest)[..4] == WriteInt32(i) && (WriteInt32(i) + rest)[4..] == rest;
  }

  lemma LengthPrefixedRoundTrip(bytes: Bytes, rest: Bytes)
    requires |bytes| < INT32_LIMIT
    ensures ReadLengthPrefixed(WriteInt32(|bytes|) + bytes + rest) == Some((Some(bytes), rest))
  {
    Int32RoundTrip(|bytes|, bytes + rest);
    assert WriteInt32(|bytes|) + bytes + rest == WriteInt32(|bytes|) + (bytes + rest);
    assert (bytes + rest)[..|bytes|] == bytes && (bytes + rest)[|bytes|..] == rest;
  }

  lemma FixedRoundTrip(bytes: Bytes, rest: Bytes)
    ensures (bytes + rest)[..|bytes|] == bytes && (bytes + rest)[|bytes|..] == rest
    ensures Fixed(bytes + rest, |bytes|) == Some((bytes, rest))
  {}

  lemma BuiltInRoundTrip(cx: Context, value: Json, builtIn: BuiltInType, b: Bytes, rest: Bytes)
    requires cx.Lawful() && Representable(cx, value) && EncodeBuiltIn(cx, value, builtIn) == Ok(b)
    ensures ReadBuiltIn(cx, b + rest, builtIn) == Some((NormBuiltIn(cx, value, builtIn), rest))
    ensures !NormBuiltIn(cx, value, builtIn).Null?
  {
    FixedRoundTrip(b, rest);
    if IntegerShape(builtIn).Some? {
      var (width, signed) := IntegerShape(builtIn).value;
      IntRoundTrip(value.i, width, signed);
    } else if builtIn.String? {
      LengthPrefixedRoundTrip(cx.utf8(value.text), rest);
    } else if builtIn.ByteString? {
      LengthPrefixedRoundTrip(cx.parseBase64(value.text).value, rest);
    }
  }

  /** What decoding an encoded value must give: the value in the form it comes back in, unless an array is too long. */
  ghost function Expected(fits: bool, value: Json, rest: Bytes): Reading {
    if fits then Some((value, rest)) else None
  }

  lemma {:induction false} StructureRoundTrip(cx: Context, sc: Schema, value: Json, id: LayoutId, b: Bytes, rest: Bytes)
    requires cx.Lawful() && sc.Valid() && id in sc.layouts && Representable(cx, value)
    requires EncodeStructure(cx, sc.layouts, value, id) == Ok(b)
    ensures ReadStructure(cx, sc, b + rest, id) ==
            Expected(StructureFits(cx, sc.layouts, value, id), NormStructure(cx, sc.layouts, value, id), rest)
    decreases value, 1, 0
  {
    EncodedIsRanked(cx, sc, value, id);
    FieldsRoundTrip(cx, sc, value, id, 0, b, rest, map[]);
  }

  lemma {:induction false} FieldsRoundTrip(cx: Context, sc: Schema, value: Json, id: LayoutId, k: nat, b: Bytes,
                                           rest: Bytes, props: map<string, Json>)
    requires cx.Lawful() && sc.Valid() && id in sc.rank && Representable(cx, value) && value.Obj?
    requires k <= |sc.layouts[id].fields| && EncodeFieldsFrom(cx, sc.layouts, value, id, k) == Ok(b)
    ensures ReadFieldsFrom(cx, sc, b + rest, id, k, props) ==
            Expected(FieldsFitFrom(cx, sc.layouts, value, id, k),
                     Obj(NormFieldsFrom(cx, sc.layouts, value, id, k, props)), rest)
    decreases value, 0, |sc.layouts[id].fields| - k
  {
    if k == |sc.layouts[id].fields| {
      assert b + rest == rest;
    } else {
      var field := sc.layouts[id].fields[k];
      var given := Given(value, field.name);
      var head, tail := FieldsSplit(cx, sc.layouts, value, id, k, b);
      assert b + rest == head + (tail + rest);
      if given.Null? {
        NullRoundTrip(cx, sc, id, k, head, tail + rest);
        FieldsRoundTrip(cx, sc, value, id, k + 1, tail, rest, props);
      } else {
        GivenRoundTrip(cx, sc, given, id, k, head, tail + rest);
        FieldsRoundTrip(cx, sc, value, id, k + 1, tail, rest,
                        props[field.name := NormGiven(cx, sc.layouts, given, field)]);
      }
    }
  }

  lemma FieldsSplit(cx: Context, layouts: Layouts, value: Json, id: LayoutId, k: nat, b: Bytes)
    returns (head: Bytes, tail: Bytes)
    requires Closed(layouts) && id in layouts && value.Obj? && k < |layouts[id].fields|
    requires EncodeFieldsFrom(cx, layouts, value, id, k) == Ok(b)
    ensures b == head + tail && EncodeFieldsFrom(cx, layouts, value, id, k + 1) == Ok(tail)
    ensures var field := layouts[id].fields[k];
      var given := Given(value, field.name);
      (if given.Null? then EncodeNull(field) else EncodeGiven(cx, layouts, given, field)) == Ok(head)
  {
    var field := layouts[id].fields[k];
    var given := Given(value, field.name);
    head := (if given.Null? then EncodeNull(field) else EncodeGiven(cx, layouts, given, field)).value;
    tail := EncodeFieldsFrom(cx, layouts, value, id, k + 1).value;
  }

  lemma NullRoundTrip(cx: Context, sc: Schema, id: LayoutId, k: nat, b: Bytes, rest: Bytes)
    requires sc.Valid() && id in sc.rank && k < |sc.layouts[id].fields| && EncodeNull(sc.layouts[id].fields[k]) == Ok(b)
    ensures ReadField(cx, sc, b + rest, id, k) == Some((Null, rest))
  {
    Int32RoundTrip(NULL_LENGTH, rest);
  }

  lemma {:induction false} GivenRoundTrip(cx: Context, sc: Schema, given: Json, id: LayoutId, k: nat, b: Bytes,
                                          rest: Bytes)
    requires cx.Lawful() && sc.Valid() && id in sc.rank && k < |sc.layouts[id].fields|
    requires Representable(cx, given) && !given.Null?
    requires EncodeGiven(cx, sc.layouts, given, sc.layouts[id].fields[k]) == Ok(b)
    ensures var field := sc.layouts[id].fields[k];
      && ReadField(cx, sc, b + rest, id, k) ==
         Expected(GivenFits(cx, sc.layouts, given, field), NormGiven(cx, sc.layouts, given, field), rest)
      && !NormGiven(cx, sc.layouts, given, field).Null?
    decreases given, 3, 0
  {
    var field := sc.layouts[id].fields[k];
    if field.isArray {
      ArrayRoundTrip(cx, sc, given, id, k, b, rest);
    } else if field.structure.Some? {
      StructureRoundTrip(cx, sc, given, field.structure.value, b, rest);
    } else {
      BuiltInRoundTrip(cx, given, field.builtIn, b, rest);
    }
  }

  lemma {:induction false} ArrayRoundTrip(cx: Context, sc: Schema, value: Json, id: LayoutId, k: nat, b: Bytes,
                                          rest: Bytes)
    requires cx.Lawful() && sc.Valid() && id in sc.rank && k < |sc.layouts[id].fields|
    requires sc.layouts[id].fields[k].isArray
    requires Representable(cx, value) && EncodeArray(cx, sc.layouts, value, sc.layouts[id].fields[k]) == Ok(b)
    ensures var field := sc.layouts[id].fields[k];
      && ReadField(cx, sc, b + rest, id, k) ==
         Expected(ArrayFits(cx, sc.layouts, value, field), NormArray(cx, sc.layouts, value, field), rest)
      && NormArray(cx, sc.layouts, value, field).Arr?
    decreases value, 2, 0
  {
    var field := sc.layouts[id].fields[k];
    var count := if value.Arr? then |value.items| else |cx.parseBase64(value.text).value|;
    var body := b[4..];
    assert b == WriteInt32(count) + body;
    assert b + rest == WriteInt32(count) + (body + rest);
    Int32RoundTrip(count, body + rest);
    if value.Arr? {
      assert body == EncodeItemsFrom(cx, sc.layouts, value, field, 0).value;
      if WithinLimit(cx, count) {
        ItemsRoundTrip(cx, sc, value, field, 0, body, rest, []);
      }
    } else {
      assert body == cx.parseBase64(value.text).value;
      NumbersRoundTrip(cx, sc, body, field, 0, rest);
    }
  }

  lemma {:induction false} NumbersRoundTrip(cx: Context, sc: Schema, bytes: Bytes, field: Field, k: nat, rest: Bytes)
    requires sc.Valid() && field.structure.None? && field.builtIn.Byte? && k <= |bytes|
    ensures ReadItems(cx, sc, bytes[k..] + rest, field, |bytes| - k, Numbers(bytes)[..k])
      == Some((Arr(Numbers(bytes)), rest))
    decreases |bytes| - k
  {
    var b := bytes[k..] + rest;
    if k == |bytes| {
      assert b == rest && Numbers(bytes)[..k] == Numbers(bytes);
    } else {
      assert b[..1] == [bytes[k]] && b[1..] == bytes[k + 1..] + rest;
      assert FromBytes([bytes[k]]) == bytes[k] + 256 * FromBytes([]);
      assert ReadBuiltIn(cx, b, field.builtIn) == Some((Int(bytes[k]), bytes[k + 1..] + rest));
      NumbersRoundTrip(cx, sc, bytes, field, k + 1, rest);
      assert Numbers(bytes)[..k] + [Int(bytes[k])] == Numbers(bytes)[..k + 1];
    }
  }

  lemma {:induction false} ScalarRoundTrip(cx: Context, sc: Schema, value: Json, field: Field, b: Bytes, rest: Bytes)
    requires cx.Lawful() && sc.Valid() && RefersInto(sc.layouts, field) && Representable(cx, value)
    requires EncodeScalar(cx, sc.layouts, value, field) == Ok(b)
    ensures ReadScalar(cx, sc, b + rest, field) ==
            Expected(ScalarFits(cx, sc.layouts, value, field), NormScalar(cx, sc.layouts, value, field), rest)
    decreases value, 2, 0
  {
    if field.structure.Some? {
      StructureRoundTrip(cx, sc, value, field.structure.value, b, rest);
    } else {
      BuiltInRoundTrip(cx, value, field.builtIn, b, rest);
    }
  }

  lemma {:induction false} ItemsRoundTrip(cx: Context, sc: Schema, value: Json, field: Field, k: nat, b: Bytes,
                                          rest: Bytes, items: seq<Json>)
    requires cx.Lawful() && sc.Valid() && RefersInto(sc.layouts, field) && value.Arr? && Representable(cx, value)
    requires k <= |value.items| && EncodeItemsFrom(cx, sc.layouts, value, field, k) == Ok(b)
    ensures ReadItems(cx, sc, b + rest, field, |value.items| - k, items) ==
            Expected(ItemsFitFrom(cx, sc.layouts, value, field, k),
                     Arr(NormItemsFrom(cx, sc.layouts, value, field, k, items)), rest)
    decreases value, 0, |value.items| - k
  {
    if k == |value.items| {
      assert b + rest == rest;
    } else {
      var tail := EncodeItemsFrom(cx, sc.layouts, value, field, k + 1).value;
      var head := EncodeScalar(cx, sc.layouts, value.items[k], field).value;
      assert b + rest == head + (tail + rest);
      ScalarRoundTrip(cx, sc, value.items[k], field, head, tail + rest);
      ItemsRoundTrip(cx, sc, value, field, k + 1, tail, rest,
                     items + [NormScalar(cx, sc.layouts, value.items[k], field)]);
    }
  }

  // ------------------------------------------------------------------------------------------------------------
  // What the round trip says of each field

  lemma {:induction false} NormFieldsOther(cx: Context, layouts: Layouts, value: Json, id: LayoutId, k: nat,
                                           props: map<string, Json>, name: string)
    requires Closed(layouts) && id in layouts && value.Obj? && k <= |layouts[id].fields|
    requires forall j :: k <= j < |layouts[id].fields| ==> layouts[id].fields[j].name != name
    ensures var r := NormFieldsFrom(cx, layouts, value, id, k, props);
            (name in r <==> name in props) && (name in r ==> r[name] == props[name])
    decreases |layouts[id].fields| - k
  {
    if k < |layouts[id].fields| {
      var field := layouts[id].fields[k];
      var given := Given(value, field.name);
      NormFieldsOther(cx, layouts, value, id, k + 1,
                      if given.Null? then props else props[field.name := NormGiven(cx, layouts, given, field)], name);
    }
  }

  lemma {:induction false} NormFieldAt(cx: Context, layouts: Layouts, value: Json, id: LayoutId, k: nat,
                                       props: map<string, Json>, j: nat)
    requires Closed(layouts) && id in layouts && value.Obj? && k <= j < |layouts[id].fields|
    requires DistinctNames(layouts[id].fields) && layouts[id].fields[j].name !in props
    ensures var r, field := NormFieldsFrom(cx, layouts, value, id, k, props), layouts[id].fields[j];
            var given := Given(value, field.name);
            (field.name in r <==> !given.Null?) && (field.name in r ==>
                                                    r[field.name] == NormGiven(cx, layouts, given, field))
    decreases |layouts[id].fields| - k
  {
    var field := layouts[id].fields[k];
    var given := Given(value, field.name);
    var props' := if given.Null? then props else props[field.name := NormGiven(cx, layouts, given, field)];
    if k == j {
      NormFieldsOther(cx, layouts, value, id, k + 1, props', field.name);
    } else {
      NormFieldAt(cx, layouts, value, id, k + 1, props', j);
    }
  }

  lemma {:induction false} NormItemAt(cx: Context, layouts: Layouts, value: Json, field: Field, k: nat,
                                      items: seq<Json>)
    requires Closed(layouts) && RefersInto(layouts, field) && value.Arr? && k <= |value.items|
    ensures var r := NormItemsFrom(cx, layouts, value, field, k, items);
            && |r| == |items| + |value.items| - k && items <= r
            && forall j :: k <= j < |value.items| ==>
                r[|items| + j - k] == NormScalar(cx, layouts, value.items[j], field)
    decreases |value.items| - k
  {
    if k < |value.items| {
      var items' := items + [NormScalar(cx, layouts, value.items[k], field)];
      NormItemAt(cx, layouts, value, field, k + 1, items');
      var r := NormItemsFrom(cx, layouts, value, field, k, items);
      forall j | k <= j < |value.items| ensures r[|items| + j - k] == NormScalar(cx, layouts, value.items[j], field) {
        if j > k { assert r[|items'| + j - (k + 1)] == NormScalar(cx, layouts, value.items[j], field); }
      }
    }
  }
}
