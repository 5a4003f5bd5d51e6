/**
 The encoder as it runs: a buffer appended to field by field, giving up at the first field that cannot be written.
 Also which layouts can be written at all, decided by a walk that marks the layouts it has seen.
 */
module StructureEncoder {
  import opened Options
  import opened StructureLayouts
  import opened StructureCodec

  class BinaryEncoder {
    var buffer: Bytes

    constructor ()
      ensures buffer == []
    {
      buffer := [];
    }

    method Write(bytes: Bytes)
      modifies this
      ensures buffer == old(buffer) + bytes
    {
      buffer := buffer + bytes;
    }
  }

  /** What a writing step did: on success the encoding is in the buffer, on refusal the buffer is worthless. */
  ghost predicate Wrote(before: Bytes, status: Option<Refusal>, after: Bytes, expected: Outcome<Bytes>) {
    match status
    case None => expected.Ok? && after == before + expected.value
    case Some(why) => expected == Refused(why)
  }

  method UnknownProperty(value: Json, fields: seq<Field>) returns (unknown: bool)
    requires value.Obj?
    ensures unknown <==> exists name :: name in value.props && !HasField(fields, name)
  {
    var names := value.props.Keys;
    while names != {}
      invariant names <= value.props.Keys
      invariant forall name :: name in value.props && name !in names ==> HasField(fields, name)
      decreases names
    {
      var name :| name in names;
      var known := false;
      for k := 0 to |fields|
        invariant known <==> exists j :: 0 <= j < k && fields[j].name == name
      {
        if fields[k].name == name { known := true; }
      }
      if !known { return true; }
      names := names - {name};
    }
    return false;
  }

  method TryWriteStructure(cx: Context, encoder: BinaryEncoder, layouts: Layouts, value: Json, id: LayoutId)
    returns (status: Option<Refusal>)
    requires Closed(layouts) && id in layouts
    modifies encoder
    ensures Wrote(old(encoder.buffer), status, encoder.buffer, EncodeStructure(cx, layouts, value, id))
    decreases value, 1
  {
    if !value.Obj? { return Some(BadTypeMismatch); }
    var fields := layouts[id].fields;
    var unknown := UnknownProperty(value, fields);
    if unknown { return Some(BadTypeMismatch); }
    ghost var whole := EncodeFieldsFrom(cx, layouts, value, id, 0);
    for k := 0 to |fields|
      invariant Writing(old(encoder.buffer), whole, encoder.buffer, EncodeFieldsFrom(cx, layouts, value, id, k))
    {
      var field := fields[k];
      var given := Given(value, field.name);
      ghost var before := encoder.buffer;
      if given.Null? {
        status := TryWriteNull(encoder, field);
      } else {
        status := TryWriteGiven(cx, encoder, layouts, given, field);
      }
      WritingOn(old(encoder.buffer), whole, before, status, encoder.buffer,
                if given.Null? then EncodeNull(field)
                  else EncodeGiven(cx, layouts, given, field), EncodeFieldsFrom(cx, layouts, value, id, k + 1));
      if status.Some? { return; }
    }
    status := None;
    WritingDone(old(encoder.buffer), whole, encoder.buffer);
  }

  /** Part-way: what has been written, and what is still to be, make up the whole. */
  ghost predicate Writing(start: Bytes, whole: Outcome<Bytes>, now: Bytes, rest: Outcome<Bytes>) {
    Prepend(start, whole) == Prepend(now, rest)
  }

  /** One part more, or a refusal, which is that of the whole. */
  lemma WritingOn(start: Bytes, whole: Outcome<Bytes>, before: Bytes, status: Option<Refusal>, after: Bytes,
                  part: Outcome<Bytes>, rest: Outcome<Bytes>)
    requires Writing(start, whole, before, Sequence(part, rest)) && Wrote(before, status, after, part)
    ensures if status.Some? then whole == Refused(status.value) else Writing(start, whole, after, rest)
  {
    if status.None? { PrependTwice(before, part.value, rest); }
  }

  lemma WritingDone(start: Bytes, whole: Outcome<Bytes>, now: Bytes)
    requires Writing(start, whole, now, Ok([]))
    ensures Wrote(start, None, now, whole)
  {
    assert now + [] == now;
  }

  lemma PrependTwice(a: Bytes, b: Bytes, rest: Outcome<Bytes>)
    ensures Prepend(a, Prepend(b, rest)) == Prepend(a + b, rest)
  {
    if rest.Ok? { assert a + (b + rest.value) == a + b + rest.value; }
  }

  method TryWriteNull(encoder: BinaryEncoder, field: Field) returns (status: Option<Refusal>)
    modifies encoder
    ensures Wrote(old(encoder.buffer), status, encoder.buffer, EncodeNull(field))
  {
    if !field.isArray && (field.structure.Some? || (field.builtIn != String && field.builtIn != ByteString)) {
      return Some(BadTypeMismatch);
    }
    encoder.Write(WriteInt32(NULL_LENGTH));
    status := None;
  }

  method TryWriteGiven(cx: Context, encoder: BinaryEncoder, layouts: Layouts, value: Json, field: Field)
    returns (status: Option<Refusal>)
    requires Closed(layouts) && RefersInto(layouts, field)
    modifies encoder
    ensures Wrote(old(encoder.buffer), status, encoder.buffer, EncodeGiven(cx, layouts, value, field))
    decreases value, 3
  {
    if field.isArray {
      status := TryWriteArray(cx, encoder, layouts, value, field);
    } else {
      status := TryWriteScalar(cx, encoder, layouts, value, field);
    }
  }

  method TryWriteArray(cx: Context, encoder: BinaryEncoder, layouts: Layouts, value: Json, field: Field)
    returns (status: Option<Refusal>)
    requires Closed(layouts) && RefersInto(layouts, field)
    modifies encoder
    ensures Wrote(old(encoder.buffer), status, encoder.buffer, EncodeArray(cx, layouts, value, field))
    decreases value, 2
  {
    if field.structure.None? && field.builtIn.Byte? && value.Str? {
      status := TryWriteBase64(cx, encoder, value.text);
      return;
    }
    if !value.Arr? { return Some(BadTypeMismatch); }
    encoder.Write(WriteInt32(|value.items|));
    status := TryWriteItems(cx, encoder, layouts, value, field);
    ghost var items := EncodeItemsFrom(cx, layouts, value, field, 0);
    if items.Ok? { assert old(encoder.buffer) + WriteInt32(|value.items|) + items.value
                  == old(encoder.buffer) + (WriteInt32(|value.items|) + items.value); }
  }

  method TryWriteItems(cx: Context, encoder: BinaryEncoder, layouts: Layouts, value: Json, field: Field)
    returns (status: Option<Refusal>)
    requires Closed(layouts) && RefersInto(layouts, field) && value.Arr?
    modifies encoder
    ensures Wrote(old(encoder.buffer), status, encoder.buffer, EncodeItemsFrom(cx, layouts, value, field, 0))
    decreases value, 1
  {
    ghost var whole := EncodeItemsFrom(cx, layouts, value, field, 0);
    for k := 0 to |value.items|
      invariant Writing(old(encoder.buffer), whole, encoder.buffer, EncodeItemsFrom(cx, layouts, value, field, k))
    {
      ghost var before := encoder.buffer;
      status := TryWriteScalar(cx, encoder, layouts, value.items[k], field);
      WritingOn(old(encoder.buffer), whole, before, status, encoder.buffer,
                EncodeScalar(cx, layouts, value.items[k], field), EncodeItemsFrom(cx, layouts, value, field, k + 1));
      if status.Some? { return; }
    }
    status := None;
    WritingDone(old(encoder.buffer), whole, encoder.buffer);
  }

  method TryWriteBase64(cx: Context, encoder: BinaryEncoder, text: string) returns (status: Option<Refusal>)
    modifies encoder
    ensures var decoded := cx.parseBase64(text);
            Wrote(old(encoder.buffer), status, encoder.buffer,
                  if decoded.Some? then Ok(WriteInt32(|decoded.value|) + decoded.value) else Refused(BadTypeMismatch))
  {
    match cx.parseBase64(text) {
      case None => return Some(BadTypeMismatch);
      case Some(bytes) =>
        encoder.Write(WriteInt32(|bytes|));
        for i := 0 to |bytes|
          invariant encoder.buffer == old(encoder.buffer) + WriteInt32(|bytes|) + bytes[..i]
        {
          encoder.Write([bytes[i]]);
        }
        status := None;
    }
  }

  method TryWriteScalar(cx: Context, encoder: BinaryEncoder, layouts: Layouts, value: Json, field: Field)
    returns (status: Option<Refusal>)
    requires Closed(layouts) && RefersInto(layouts, field)
    modifies encoder
    ensures Wrote(old(encoder.buffer), status, encoder.buffer, EncodeScalar(cx, layouts, value, field))
    decreases value, 2
  {
    if field.structure.Some? {
      status := TryWriteStructure(cx, encoder, layouts, value, field.structure.value);
      return;
    }
    match EncodeBuiltIn(cx, value, field.builtIn) {
      case Refused(why) => status := Some(why);
      case Ok(bytes) =>
        encoder.Write(bytes);
        status := None;
    }
  }

  // ------------------------------------------------------------------------------------------------------------
  // Which layouts can be written

  /** Layout `to` can be reached from `from` through nested structure fields. */
  ghost predicate Reaches(layouts: Layouts, from: LayoutId, to: LayoutId, path: seq<LayoutId>) {
    && path != [] && path[0] == from && path[|path| - 1] == to
    && (forall i :: 0 <= i < |path| ==> path[i] in layouts)
    && forall i :: 0 < i < |path| ==> Nests(layouts[path[i - 1]], path[i])
  }

  ghost predicate Nests(layout: Layout, id: LayoutId) {
    exists k :: 0 <= k < |layout.fields| && layout.fields[k].structure == Some(id)
  }

  /** Every structure in `done` may be written, and the structures inside it have been seen. */
  ghost predicate Settled(layouts: Layouts, done: set<LayoutId>, seen: set<LayoutId>) {
    forall id :: id in done && id in layouts ==> Encodable(layouts[id]) && forall inner :: Nests(layouts[id], inner) ==>
      inner in seen
  }

  /**
   One visit. On success everything newly marked is settled; on failure some structure that cannot be written is
   reached.
   */
  method Visit(layouts: Layouts, id: LayoutId, visited: set<LayoutId>) returns (ok: bool, visited': set<LayoutId>)
    requires Closed(layouts) && id in layouts && visited <= layouts.Keys
    ensures visited <= visited' <= layouts.Keys && id in visited'
    ensures ok ==> Settled(layouts, visited' - visited, visited')
    ensures !ok ==> exists bad, path :: Reaches(layouts, id, bad, path) && !Encodable(layouts[bad])
    decreases layouts.Keys - visited
  {
    if id in visited { return true, visited; }
    visited' := visited + {id};
    var layout := layouts[id];
    assert Reaches(layouts, id, id, [id]);
    if layout.encodingId.None? { return false, visited'; }
    for k := 0 to |layout.fields|
      invariant visited + {id} <= visited' <= layouts.Keys
      invariant Settled(layouts, visited' - visited - {id}, visited')
      invariant forall j :: 0 <= j < k ==>
        if layout.fields[j].structure.Some? then layout.fields[j].structure.value in visited'
          else IsSupported(layout.fields[j].builtIn)
    {
      var field := layout.fields[k];
      if field.structure.Some? {
        ghost var before := visited';
        ok, visited' := Visit(layouts, field.structure.value, visited');
        if !ok {
          ghost var bad, path :| Reaches(layouts, field.structure.value, bad, path) && !Encodable(layouts[bad]);
          ReachesThrough(layouts, id, field.structure.value, bad, path);
          return;
        }
        SettledJoins(layouts, before - visited - {id}, before, visited' - before, visited');
        assert visited' - visited - {id} == (before - visited - {id}) + (visited' - before);
      } else if !IsSupported(field.builtIn) {
        return false, visited';
      }
    }
    ok := true;
    assert visited' - visited == (visited' - visited - {id}) + {id};
  }

  lemma SettledJoins(layouts: Layouts, a: set<LayoutId>, seenA: set<LayoutId>, b: set<LayoutId>, seen: set<LayoutId>)
    requires Settled(layouts, a, seenA) && Settled(layouts, b, seen) && seenA <= seen
    ensures Settled(layouts, a + b, seen)
  {}

  lemma ReachesThrough(layouts: Layouts, from: LayoutId, next: LayoutId, to: LayoutId, path: seq<LayoutId>)
    requires from in layouts && Nests(layouts[from], next) && Reaches(layouts, next, to, path)
    ensures Reaches(layouts, from, to, [from] + path)
  {}

  lemma {:induction false} SettledReaches(layouts: Layouts, done: set<LayoutId>, from: LayoutId, to: LayoutId,
                                          path: seq<LayoutId>)
    requires Settled(layouts, done, done) && from in done && Reaches(layouts, from, to, path)
    ensures to in done
    decreases |path|
  {
    if |path| > 1 {
      assert Nests(layouts[path[0]], path[1]);
      assert Reaches(layouts, path[1], to, path[1..]) by {
        assert forall i :: 0 < i < |path| - 1 ==> Nests(layouts[path[1..][i - 1]], path[1..][i]) by {
          forall i | 0 < i < |path| - 1 ensures Nests(layouts[path[1..][i - 1]], path[1..][i]) {
            assert Nests(layouts[path[i]], path[i + 1]);
          }
        }
      }
      SettledReaches(layouts, done, path[1], to, path[1..]);
    }
  }

  /** Exactly the layouts from which only writable structures are reached, however the graph cycles. */
  method CanEncode(layouts: Layouts, id: LayoutId) returns (ok: bool)
    requires Closed(layouts) && id in layouts
    ensures ok <==> forall to, path :: Reaches(layouts, id, to, path) ==>
      && layouts[to].encodingId.Some?
      && forall k :: 0 <= k < |layouts[to].fields| && layouts[to].fields[k].structure.None? ==>
           IsSupported(layouts[to].fields[k].builtIn)
  {
    var visited;
    ok, visited := Visit(layouts, id, {});
    if ok {
      assert visited - {} == visited;
      forall to, path | Reaches(layouts, id, to, path) ensures Encodable(layouts[to]) {
        SettledReaches(layouts, visited, id, to, path);
      }
    }
  }
}
