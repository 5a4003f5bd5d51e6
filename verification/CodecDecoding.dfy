/**
 What can be said of decoding on its own: an accepted body is never a proper prefix of another, and a decoded value can
 be encoded again, as it is, unless it holds a null array element or a real that is not a number.
 */
module CodecDecoding {
  import opened Options
  import opened StructureLayouts
  import opened StructureCodec
  import opened CodecRoundTrip

  /** The whole body: bytes left over, like a body that ends early, do not match the layout and give a null. */
  ghost function Decode(cx: Context, sc: Schema, body: Bytes, id: LayoutId): Json
    requires sc.Valid() && id in sc.layouts
  {
    match ReadStructure(cx, sc, body, id)
    case None => Null
    case Some((value, rest)) => if rest == [] then value else Null
  }

  ghost predicate Accepted(cx: Context, sc: Schema, body: Bytes, id: LayoutId)
    requires sc.Valid() && id in sc.layouts
  {
    !Decode(cx, sc, body, id).Null?
  }

  /** Decoding what TryEncode accepted gives the value back if and only if no array is longer than the limit. */
  lemma DecodeEncode(cx: Context, sc: Schema, value: Json, id: LayoutId, body: Bytes)
    requires cx.Lawful() && sc.Valid() && id in sc.layouts && Representable(cx, value)
    requires EncodeStructure(cx, sc.layouts, value, id) == Ok(body)
    ensures Accepted(cx, sc, body, id) <==> StructureFits(cx, sc.layouts, value, id)
    ensures Accepted(cx, sc, body, id) ==> Decode(cx, sc, body, id) == NormStructure(cx, sc.layouts, value, id)
  {
    StructureRoundTrip(cx, sc, value, id, body, []);
    assert body + [] == body;
  }

  /** The value comes back field by field: nulls dropped, everything else in its published form, nothing added. */
  lemma DecodeEncodeFields(cx: Context, sc: Schema, value: Json, id: LayoutId, body: Bytes, j: nat)
    requires cx.Lawful() && sc.Valid() && id in sc.layouts && Representable(cx, value)
    requires EncodeStructure(cx, sc.layouts, value, id) == Ok(body) && Accepted(cx, sc, body, id)
    requires DistinctNames(sc.layouts[id].fields) && j < |sc.layouts[id].fields|
    ensures var decoded, field := Decode(cx, sc, body, id), sc.layouts[id].fields[j];
      && decoded.Obj?
      && (field.name in decoded.props <==> !Given(value, field.name).Null?)
      && (field.name in decoded.props ==>
           decoded.props[field.name] == NormGiven(cx, sc.layouts, value.props[field.name], field))
      && (forall name :: name in decoded.props ==> HasField(sc.layouts[id].fields, name))
  {
    DecodeEncode(cx, sc, value, id, body);
    NormFieldAt(cx, sc.layouts, value, id, 0, map[], j);
    forall name | !HasField(sc.layouts[id].fields, name)
      ensures name !in NormFieldsFrom(cx, sc.layouts, value, id, 0, map[])
    {
      NormFieldsOther(cx, sc.layouts, value, id, 0, map[], name);
    }
  }

  // ------------------------------------------------------------------------------------------------------------
  // Unique decoding

  ghost predicate ReadsPast(r: Reading, longer: Reading, x: Bytes) {
    r.Some? ==> longer == Some((r.value.0, r.value.1 + x))
  }

  lemma LengthPrefixedExtends(b: Bytes, x: Bytes)
    requires ReadLengthPrefixed(b).Some?
    ensures var (bytes, rest) := ReadLengthPrefixed(b).value; ReadLengthPrefixed(b + x) == Some((bytes, rest + x))
  {
    assert (b + x)[..4] == b[..4] && (b + x)[4..] == b[4..] + x;
    var (length, rest) := ReadInt32(b).value;
    if 0 <= length {
      assert (rest + x)[..length] == rest[..length] && (rest + x)[length..] == rest[length..] + x;
    }
  }

  lemma BuiltInExtends(cx: Context, b: Bytes, builtIn: BuiltInType, x: Bytes)
    requires ReadsLocally(cx)
    ensures ReadsPast(ReadBuiltIn(cx, b, builtIn), ReadBuiltIn(cx, b + x, builtIn), x)
  {
    if ReadBuiltIn(cx, b, builtIn).Some? {
      if builtIn.String? || builtIn.ByteString? {
        LengthPrefixedExtends(b, x);
      } else {
        var width := |b| - |ReadBuiltIn(cx, b, builtIn).value.1|;
        assert (b + x)[..width] == b[..width] && (b + x)[width..] == b[width..] + x;
      }
    }
  }

  lemma {:induction false} StructureExtends(cx: Context, sc: Schema, b: Bytes, id: LayoutId, x: Bytes)
    requires ReadsLocally(cx) && sc.Valid() && id in sc.layouts
    ensures ReadsPast(ReadStructure(cx, sc, b, id), ReadStructure(cx, sc, b + x, id), x)
    decreases |b|, sc.RankOf(id), |sc.layouts[id].fields| + 2
  {
    if id in sc.rank { FieldsExtend(cx, sc, b, id, 0, map[], x); }
  }

  lemma {:induction false} FieldsExtend(cx: Context, sc: Schema, b: Bytes, id: LayoutId, k: nat,
                                        props: map<string, Json>, x: Bytes)
    requires ReadsLocally(cx) && sc.Valid() && id in sc.rank && k <= |sc.layouts[id].fields|
    ensures ReadsPast(ReadFieldsFrom(cx, sc, b, id, k, props), ReadFieldsFrom(cx, sc, b + x, id, k, props), x)
    decreases |b|, sc.RankOf(id), |sc.layouts[id].fields| - k + 1
  {
    if k < |sc.layouts[id].fields| {
      FieldExtends(cx, sc, b, id, k, x);
      match ReadField(cx, sc, b, id, k) {
        case None =>
        case Some((value, rest)) =>
          FieldsExtend(cx, sc, rest, id, k + 1, if value.Null? then props
                       else props[sc.layouts[id].fields[k].name := value], x);
      }
    }
  }

  lemma {:induction false} FieldExtends(cx: Context, sc: Schema, b: Bytes, id: LayoutId, k: nat, x: Bytes)
    requires ReadsLocally(cx) && sc.Valid() && id in sc.rank && k < |sc.layouts[id].fields|
    ensures ReadsPast(ReadField(cx, sc, b, id, k), ReadField(cx, sc, b + x, id, k), x)
    decreases |b|, sc.RankOf(id), 1
  {
    var field := sc.layouts[id].fields[k];
    if field.isArray {
      if |b| >= 4 {
        assert (b + x)[..4] == b[..4] && (b + x)[4..] == b[4..] + x;
        var (length, rest) := ReadInt32(b).value;
        if 0 <= length && WithinLimit(cx, length) {
          ItemsExtend(cx, sc, rest, field, length, [], x);
        }
      }
    } else if field.structure.Some? {
      StructureExtends(cx, sc, b, field.structure.value, x);
    } else {
      BuiltInExtends(cx, b, field.builtIn, x);
    }
  }

  lemma {:induction false} ItemsExtend(cx: Context, sc: Schema, b: Bytes, field: Field, count: nat, items: seq<Json>,
                                       x: Bytes)
    requires ReadsLocally(cx) && sc.Valid() && RefersInto(sc.layouts, field)
    ensures ReadsPast(ReadItems(cx, sc, b, field, count, items), ReadItems(cx, sc, b + x, field, count, items), x)
    decreases |b|, sc.top + 1, count
  {
    if count > 0 {
      if field.structure.Some? {
        StructureExtends(cx, sc, b, field.structure.value, x);
      } else {
        BuiltInExtends(cx, b, field.builtIn, x);
      }
      match ReadScalar(cx, sc, b, field) {
        case None =>
        case Some((value, rest)) => ItemsExtend(cx, sc, rest, field, count - 1, items + [value], x);
      }
    }
  }

  /** No accepted body is a proper prefix of another accepted body of the same layout. */
  lemma PrefixFree(cx: Context, sc: Schema, body: Bytes, id: LayoutId, x: Bytes)
    requires ReadsLocally(cx) && sc.Valid() && id in sc.layouts && Accepted(cx, sc, body, id)
    requires Accepted(cx, sc, body + x, id)
    ensures x == []
  {
    StructureExtends(cx, sc, body, id, x);
  }

  // ------------------------------------------------------------------------------------------------------------
  // Sending a decoded value back

  /** No null array element, and no real that is infinite or not a number. */
  ghost predicate Clean(cx: Context, value: Json) {
    match value
    case Real(double) => cx.Finite(double)
    case Arr(items) => forall k :: 0 <= k < |items| ==> !items[k].Null? && Clean(cx, items[k])
    case Obj(props) => forall name :: name in props ==> Clean(cx, props[name])
    case _ => true
  }

  ghost predicate AllDistinctNames(layouts: Layouts) {
    forall id :: id in layouts ==> DistinctNames(layouts[id].fields)
  }

  /** What CanEncode asks of the fields of every layout it reaches. */
  ghost predicate AllSupported(layouts: Layouts) {
    forall id, k :: id in layouts && 0 <= k < |layouts[id].fields| ==> FieldSupported(layouts[id].fields[k])
  }

  ghost predicate FieldSupported(field: Field) {
    field.structure.None? ==> IsSupported(field.builtIn)
  }

  lemma BuiltInReencodes(cx: Context, b: Bytes, builtIn: BuiltInType)
    requires cx.Lawful() && IsSupported(builtIn) && ReadBuiltIn(cx, b, builtIn).Some?
    ensures var value := ReadBuiltIn(cx, b, builtIn).value.0;
      && (value.Null? ==> builtIn.String? || builtIn.ByteString?)
      && (!value.Null? ==> (EncodeBuiltIn(cx, value, builtIn).Ok? <==> Clean(cx, value)))
      && (Clean(cx, value) ==> NormBuiltIn(cx, value, builtIn) == value)
  {
    if IntegerShape(builtIn).Some? {
      var (width, signed) := IntegerShape(builtIn).value;
      IntFromBytesInRange(b[..width], signed);
    }
  }

  lemma {:induction false} StructureReencodes(cx: Context, sc: Schema, b: Bytes, id: LayoutId)
    requires cx.Lawful() && sc.Valid() && AllDistinctNames(sc.layouts) && AllSupported(sc.layouts) && id in sc.layouts
    requires ReadStructure(cx, sc, b, id).Some?
    ensures var value := ReadStructure(cx, sc, b, id).value.0;
      && (EncodeStructure(cx, sc.layouts, value, id).Ok? <==> Clean(cx, value))
      && (Clean(cx, value) ==>
           NormStructure(cx, sc.layouts, value, id) == value && StructureFits(cx, sc.layouts, value, id))
    decreases |b|, sc.RankOf(id), |sc.layouts[id].fields| + 2
  {
    var value := ReadStructure(cx, sc, b, id).value.0;
    var props := map[];
    FieldsReencode(cx, sc, b, id, 0, props);
    forall name | name in value.props ensures HasField(sc.layouts[id].fields, name) {
      if !HasField(sc.layouts[id].fields, name) { ReadFieldsOther(cx, sc, b, id, 0, props, name); }
    }
    forall name | name in value.props && CleanFieldsFrom(cx, sc.layouts, value, id, 0)
      ensures Clean(cx, value.props[name])
    {
      var j :| 0 <= j < |sc.layouts[id].fields| && sc.layouts[id].fields[j].name == name;
      assert Clean(cx, Given(value, name));
    }
  }

  ghost predicate CleanFieldsFrom(cx: Context, layouts: Layouts, value: Json, id: LayoutId, k: nat)
    requires id in layouts && value.Obj?
  {
    forall j :: k <= j < |layouts[id].fields| ==> Clean(cx, Given(value, layouts[id].fields[j].name))
  }

  lemma {:induction false} ReadFieldsOther(cx: Context, sc: Schema, b: Bytes, id: LayoutId, k: nat,
                                           props: map<string, Json>, name: string)
    requires sc.Valid() && id in sc.rank && k <= |sc.layouts[id].fields|
    requires ReadFieldsFrom(cx, sc, b, id, k, props).Some?
    requires forall j :: k <= j < |sc.layouts[id].fields| ==> sc.layouts[id].fields[j].name != name
    ensures Given(ReadFieldsFrom(cx, sc, b, id, k, props).value.0, name) == Given(Obj(props), name)
    ensures name in ReadFieldsFrom(cx, sc, b, id, k, props).value.0.props <==> name in props
    decreases |sc.layouts[id].fields| - k
  {
    if k < |sc.layouts[id].fields| {
      var (value, rest) := ReadField(cx, sc, b, id, k).value;
      ReadFieldsOther(cx, sc, rest, id, k + 1,
                      if value.Null? then props else props[sc.layouts[id].fields[k].name := value], name);
    }
  }

  lemma {:induction false} FieldsReencode(cx: Context, sc: Schema, b: Bytes, id: LayoutId, k: nat,
                                          props: map<string, Json>)
    requires cx.Lawful() && sc.Valid() && AllDistinctNames(sc.layouts) && AllSupported(sc.layouts) && id in sc.rank
    requires k <= |sc.layouts[id].fields|
    requires ReadFieldsFrom(cx, sc, b, id, k, props).Some?
    requires forall j :: k <= j < |sc.layouts[id].fields| ==> sc.layouts[id].fields[j].name !in props
    ensures var value := ReadFieldsFrom(cx, sc, b, id, k, props).value.0;
      && (EncodeFieldsFrom(cx, sc.layouts, value, id, k).Ok? <==> CleanFieldsFrom(cx, sc.layouts, value, id, k))
      && (CleanFieldsFrom(cx, sc.layouts, value, id, k) ==>
            NormFieldsFrom(cx, sc.layouts, value, id, k, props) == value.props
              && FieldsFitFrom(cx, sc.layouts, value, id, k))
    decreases |b|, sc.RankOf(id), |sc.layouts[id].fields| - k + 1
  {
    if k < |sc.layouts[id].fields| {
      var field := sc.layouts[id].fields[k];
      var (read, rest) := ReadField(cx, sc, b, id, k).value;
      var props' := if read.Null? then props else props[field.name := read];
      var value := ReadFieldsFrom(cx, sc, b, id, k, props).value.0;
      FieldReencodes(cx, sc, b, id, k);
      FieldsReencode(cx, sc, rest, id, k + 1, props');
      ReadFieldsOther(cx, sc, rest, id, k + 1, props', field.name);
      assert Given(value, field.name) == read;
      assert CleanFieldsFrom(cx, sc.layouts, value, id, k) <==>
        Clean(cx, read) && CleanFieldsFrom(cx, sc.layouts, value, id, k + 1);
    }
  }

  lemma {:induction false} FieldReencodes(cx: Context, sc: Schema, b: Bytes, id: LayoutId, k: nat)
    requires cx.Lawful() && sc.Valid() && AllDistinctNames(sc.layouts) && AllSupported(sc.layouts) && id in sc.rank
    requires k < |sc.layouts[id].fields|
    requires ReadField(cx, sc, b, id, k).Some?
    ensures var value, field := ReadField(cx, sc, b, id, k).value.0, sc.layouts[id].fields[k];
      && (value.Null? ==> EncodeNull(field).Ok?)
      && (!value.Null? ==>
            && (EncodeGiven(cx, sc.layouts, value, field).Ok? <==> Clean(cx, value))
            && (Clean(cx, value) ==>
                 NormGiven(cx, sc.layouts, value, field) == value && GivenFits(cx, sc.layouts, value, field)))
    decreases |b|, sc.RankOf(id), 1
  {
    var field := sc.layouts[id].fields[k];
    if field.isArray {
      var (length, rest) := ReadInt32(b).value;
      if 0 <= length {
        ItemsReencode(cx, sc, rest, field, length, []);
      }
    } else if field.structure.Some? {
      StructureReencodes(cx, sc, b, field.structure.value);
    } else {
      BuiltInReencodes(cx, b, field.builtIn);
    }
  }

  lemma {:induction false} ReadItemsLength(cx: Context, sc: Schema, b: Bytes, field: Field, count: nat,
                                           items: seq<Json>)
    requires sc.Valid() && RefersInto(sc.layouts, field) && ReadItems(cx, sc, b, field, count, items).Some?
    ensures var value := ReadItems(cx, sc, b, field, count, items).value.0;
            value.Arr? && |value.items| == |items| + count && items <= value.items
    decreases count
  {
    if count > 0 {
      var (value, rest) := ReadScalar(cx, sc, b, field).value;
      ReadItemsLength(cx, sc, rest, field, count - 1, items + [value]);
    }
  }

  ghost predicate CleanItemsFrom(cx: Context, items: seq<Json>, k: nat) {
    forall j :: k <= j < |items| ==> !items[j].Null? && Clean(cx, items[j])
  }

  lemma {:induction false} ScalarReencodes(cx: Context, sc: Schema, b: Bytes, field: Field)
    requires cx.Lawful() && sc.Valid() && AllDistinctNames(sc.layouts) && AllSupported(sc.layouts)
    requires RefersInto(sc.layouts, field)
    requires FieldSupported(field) && ReadScalar(cx, sc, b, field).Some?
    ensures var value := ReadScalar(cx, sc, b, field).value.0;
      && (EncodeScalar(cx, sc.layouts, value, field).Ok? <==> !value.Null? && Clean(cx, value))
      && (!value.Null? && Clean(cx, value) ==>
            NormScalar(cx, sc.layouts, value, field) == value && ScalarFits(cx, sc.layouts, value, field))
    decreases |b|, sc.top + 1, 0
  {
    if field.structure.Some? {
      StructureReencodes(cx, sc, b, field.structure.value);
    } else {
      BuiltInReencodes(cx, b, field.builtIn);
    }
  }

  lemma {:induction false} ItemsReencode(cx: Context, sc: Schema, b: Bytes, field: Field, count: nat, items: seq<Json>)
    requires cx.Lawful() && sc.Valid() && AllDistinctNames(sc.layouts) && AllSupported(sc.layouts)
    requires RefersInto(sc.layouts, field)
    requires FieldSupported(field) && ReadItems(cx, sc, b, field, count, items).Some?
    ensures var value := ReadItems(cx, sc, b, field, count, items).value.0;
      && value.Arr? && |value.items| == |items| + count
      && (EncodeItemsFrom(cx, sc.layouts, value, field, |items|).Ok? <==> CleanItemsFrom(cx, value.items, |items|))
      && (CleanItemsFrom(cx, value.items, |items|) ==>
            NormItemsFrom(cx, sc.layouts, value, field, |items|, items) == value.items
              && ItemsFitFrom(cx, sc.layouts, value, field, |items|))
    decreases |b|, sc.top + 1, count
  {
    ReadItemsLength(cx, sc, b, field, count, items);
    if count > 0 {
      var (read, rest) := ReadScalar(cx, sc, b, field).value;
      ScalarReencodes(cx, sc, b, field);
      ReadItemsLength(cx, sc, rest, field, count - 1, items + [read]);
      ItemsReencode(cx, sc, rest, field, count - 1, items + [read]);
      var value := ReadItems(cx, sc, b, field, count, items).value.0;
      assert value.items[|items|] == read;
      assert CleanItemsFrom(cx, value.items, |items|) <==>
        !read.Null? && Clean(cx, read) && CleanItemsFrom(cx, value.items, |items| + 1);
    }
  }

  /**
   A decoded value can be encoded again if and only if it holds no null array element and no real that is infinite
   or not a number, and decoding that gives the same value.
   */
  lemma ReencodeDecoded(cx: Context, sc: Schema, body: Bytes, id: LayoutId)
    requires cx.Lawful() && sc.Valid() && AllDistinctNames(sc.layouts) && AllSupported(sc.layouts) && id in sc.layouts
    requires Accepted(cx, sc, body, id)
    ensures var value := Decode(cx, sc, body, id); EncodeStructure(cx, sc.layouts, value, id).Ok? <==> Clean(cx, value)
    ensures var value := Decode(cx, sc, body, id);
      Clean(cx, value) && Representable(cx, value) ==>
        Decode(cx, sc, EncodeStructure(cx, sc.layouts, value, id).value, id) == value
  {
    StructureReencodes(cx, sc, body, id);
    var value := Decode(cx, sc, body, id);
    if Clean(cx, value) && Representable(cx, value) {
      DecodeEncode(cx, sc, value, id, EncodeStructure(cx, sc.layouts, value, id).value);
    }
  }
}
