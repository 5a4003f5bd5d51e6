/**
 Layouts of structure DataTypes from a shared, mutable cache. There is a layout exactly for the types all of whose
 nested structures can be laid out, however they cycle; and a failure, wherever it comes, leaves nothing half built
 behind.
 */
module StructureLayoutBuilder {
  import opened Options
  import opened Names
  import opened StructureLayouts

  type TypeId = LayoutId

  const SCALAR := -1
  const ONE_DIMENSION := 1

  /** A field of a StructureDefinition; an absent name is empty. */
  datatype FieldDefinition = FieldDefinition(name: string, dataType: TypeId, valueRank: int)

  datatype Definition = Definition(isPlain: bool, encodingId: Option<EncodingId>, fields: seq<FieldDefinition>)

  /** What a DataType node says of itself. */
  datatype DataTypeInfo = DataTypeInfo(builtIn: BuiltInType, isAbstract: bool, definition: Option<Definition>)

  /** The DataType nodes that can be read. */
  type DataTypes = map<TypeId, DataTypeInfo>

  // ------------------------------------------------------------------------------------------------------------
  // Which structures can be laid out

  predicate IsPlain(types: DataTypes, id: TypeId) {
    id in types && types[id].definition.Some? && types[id].definition.value.isPlain
  }

  function FieldsOf(types: DataTypes, id: TypeId): seq<FieldDefinition> {
    if id in types && types[id].definition.Some? then types[id].definition.value.fields else []
  }

  predicate FieldOk(types: DataTypes, field: FieldDefinition) {
    (field.valueRank == SCALAR || field.valueRank == ONE_DIMENSION) && field.dataType in types
  }

  /** A field holding a concrete structure inline. */
  predicate IsNested(types: DataTypes, field: FieldDefinition) {
    FieldOk(types, field) && types[field.dataType].builtIn.ExtensionObject? && !types[field.dataType].isAbstract
  }

  /** A plain structure whose own fields can be laid out, apart from the structures nested in it. */
  ghost predicate NodeOk(types: DataTypes, id: TypeId) {
    IsPlain(types, id) && forall k :: 0 <= k < |FieldsOf(types, id)| ==> FieldOk(types, FieldsOf(types, id)[k])
  }

  ghost predicate Holds(types: DataTypes, outer: TypeId, inner: TypeId) {
    exists k :: 0 <= k < |FieldsOf(types, outer)| && IsNested(types, FieldsOf(types, outer)[k])
      && FieldsOf(types, outer)[k].dataType == inner
  }

  /** `path` leads from `from` to `to` through nested structures. */
  ghost predicate Leads(types: DataTypes, from: TypeId, to: TypeId, path: seq<TypeId>) {
    && path != [] && path[0] == from && path[|path| - 1] == to
    && forall i :: 0 <= i < |path| - 1 ==> Holds(types, path[i], path[i + 1])
  }

  /** Every structure reached is one that can be laid out. */
  ghost predicate Decodable(types: DataTypes, id: TypeId) {
    forall to, path :: Leads(types, id, to, path) ==> NodeOk(types, to)
  }

  lemma DecodableNeeds(types: DataTypes, id: TypeId)
    requires Decodable(types, id)
    ensures NodeOk(types, id)
    ensures forall inner :: Holds(types, id, inner) ==> Decodable(types, inner)
  {
    assert Leads(types, id, id, [id]);
    forall inner, to, path | Holds(types, id, inner) && Leads(types, inner, to, path) ensures NodeOk(types, to) {
      assert Leads(types, id, to, [id] + path);
    }
  }

  /** A set of structures that can each be laid out, and hold only each other, can all be laid out. */
  lemma {:induction false} ClosedIsDecodable(types: DataTypes, ids: set<TypeId>, from: TypeId, to: TypeId,
                                             path: seq<TypeId>)
    requires forall id :: id in ids ==> NodeOk(types, id)
    requires forall id, inner :: id in ids && Holds(types, id, inner) ==> inner in ids
    requires from in ids && Leads(types, from, to, path)
    ensures NodeOk(types, to)
    decreases |path|
  {
    if |path| > 1 {
      assert Holds(types, path[0], path[1]);
      assert Leads(types, path[1], to, path[1..]) by {
        forall i | 0 <= i < |path| - 2 ensures Holds(types, path[1..][i], path[1..][i + 1]) {
          assert Holds(types, path[i + 1], path[i + 2]);
        }
      }
      ClosedIsDecodable(types, ids, path[1], to, path[1..]);
    }
  }

  /**
   So plain structures have a layout, however they nest, if every field of theirs is a single value or a list, of a type
   that can be read, and every concrete structure they nest is one of them.
   */
  lemma PlainAreDecodable(types: DataTypes, ids: set<TypeId>, id: TypeId)
    requires id in ids
    requires forall x :: x in ids ==>
      && x in types && types[x].definition.Some? && types[x].definition.value.isPlain
      && forall k :: 0 <= k < |types[x].definition.value.fields| ==>
           var field := types[x].definition.value.fields[k];
           && field.valueRank in {-1, 1} && field.dataType in types
           && (types[field.dataType].builtIn.ExtensionObject? && !types[field.dataType].isAbstract ==>
                 field.dataType in ids)
    ensures Decodable(types, id)
  {
    forall x, inner | x in ids && Holds(types, x, inner) ensures inner in ids {}
    forall to, path | Leads(types, id, to, path) ensures NodeOk(types, to) {
      ClosedIsDecodable(types, ids, id, to, path);
    }
  }

  /** The name of a field that has no other to tell it apart from. */
  function BaseName(fieldName: string): string {
    if fieldName == "" then "_" else Sanitized(fieldName)
  }

  ghost predicate IsUniqueName(unique: string, fieldName: string, taken: set<string>) {
    var name := BaseName(fieldName);
    if name !in taken then unique == name
    else exists suffix :: IsFirstFree(name, taken, suffix) && unique == Suffixed(name, suffix)
  }

  // ------------------------------------------------------------------------------------------------------------
  // The builder

  class StructureLayout {
    const dataTypeId: TypeId
    const encodingId: Option<EncodingId>
    var fields: seq<FieldLayout>

    constructor (dataTypeId: TypeId, encodingId: Option<EncodingId>)
      ensures this.dataTypeId == dataTypeId && this.encodingId == encodingId && fields == []
    {
      this.dataTypeId, this.encodingId, fields := dataTypeId, encodingId, [];
    }

    method AddField(field: FieldLayout)
      modifies this
      ensures fields == old(fields) + [field]
    {
      fields := fields + [field];
    }
  }

  ghost function NamesOf(fields: seq<FieldLayout>): set<string> {
    set field | field in fields :: field.name
  }

  /** Every field has its own name, made unique among those before it. */
  ghost predicate NamesRight(fields: seq<FieldLayout>, definitions: seq<FieldDefinition>) {
    && |fields| <= |definitions|
    && forall k :: 0 <= k < |fields| ==> IsUniqueName(fields[k].name, definitions[k].name, NamesOf(fields[..k]))
  }

  lemma NamesOfAppend(fields: seq<FieldLayout>, field: FieldLayout)
    ensures NamesOf(fields + [field]) == NamesOf(fields) + {field.name}
  {}

  lemma NamesNext(fields: seq<FieldLayout>, definitions: seq<FieldDefinition>, field: FieldLayout)
    requires NamesRight(fields, definitions) && |fields| < |definitions|
    requires IsUniqueName(field.name, definitions[|fields|].name, NamesOf(fields))
    ensures NamesRight(fields + [field], definitions)
  {
    var longer := fields + [field];
    assert longer[..|fields|] == fields;
    forall k | 0 <= k < |longer| ensures IsUniqueName(longer[k].name, definitions[k].name, NamesOf(longer[..k])) {
      if k < |fields| { assert longer[..k] == fields[..k] && longer[k] == fields[k]; }
    }
  }

  /** Names made unique one after the other are distinct. */
  lemma NamesDistinct(fields: seq<FieldLayout>, definitions: seq<FieldDefinition>)
    requires NamesRight(fields, definitions)
    ensures forall j, k :: 0 <= j < k < |fields| ==> fields[j].name != fields[k].name
  {
    forall j, k | 0 <= j < k < |fields| ensures fields[j].name != fields[k].name {
      assert fields[..k][j] in fields[..k];
      assert fields[j].name in NamesOf(fields[..k]);
    }
  }

  datatype FieldLayout = FieldLayout(name: string, builtIn: BuiltInType, structure: StructureLayout?, isArray: bool)

  type Cache = map<TypeId, StructureLayout?>

  /** A field laid out as its definition says; a nested structure is the cached layout of its type, not a copy. */
  ghost predicate Matches(types: DataTypes, cache: Cache, field: FieldLayout, definition: FieldDefinition) {
    && FieldOk(types, definition)
    && field.isArray == (definition.valueRank == ONE_DIMENSION)
    && if IsNested(types, definition) then
         && field.builtIn.ExtensionObject?
         && definition.dataType in cache && cache[definition.dataType] != null
         && field.structure == cache[definition.dataType]
       else
         && field.structure == null
         && field.builtIn == if types[definition.dataType].builtIn.Undefined? then Variant
             else types[definition.dataType].builtIn
  }

  /** `fields` are the first fields of `id`, in order, each laid out as its definition says and named apart. */
  ghost predicate FieldsRight(types: DataTypes, cache: Cache, id: TypeId, fields: seq<FieldLayout>) {
    && |fields| <= |FieldsOf(types, id)|
    && (forall k :: 0 <= k < |fields| ==> Matches(types, cache, fields[k], FieldsOf(types, id)[k]))
    && NamesRight(fields, FieldsOf(types, id))
  }

  /** Fields stay right while the cache only grows. */
  lemma FieldsRightOn(types: DataTypes, before: Cache, after: Cache, id: TypeId, fields: seq<FieldLayout>)
    requires FieldsRight(types, before, id, fields)
    requires forall x :: x in before ==> x in after && after[x] == before[x]
    ensures FieldsRight(types, after, id, fields)
  {}

  lemma FieldsRightNext(types: DataTypes, cache: Cache, id: TypeId, fields: seq<FieldLayout>, field: FieldLayout)
    requires FieldsRight(types, cache, id, fields) && |fields| < |FieldsOf(types, id)|
    requires Matches(types, cache, field, FieldsOf(types, id)[|fields|])
    requires IsUniqueName(field.name, FieldsOf(types, id)[|fields|].name, NamesOf(fields))
    ensures FieldsRight(types, cache, id, fields + [field])
  {
    NamesNext(fields, FieldsOf(types, id), field);
  }

  /**
   What building a structure keeps: everything cached before, and what is new is either right or rolled back later.
   */
  ghost predicate Grown(before: Cache, after: Cache, started: seq<TypeId>, started': seq<TypeId>) {
    && (forall id :: id in before ==> id in after && after[id] == before[id])
    && (forall id :: id in after && id !in before && after[id] != null ==> id in started')
    && started <= started'
    && (forall i :: |started| <= i < |started'| ==> started'[i] !in before)
  }

  lemma GrownOn(first: Cache, second: Cache, third: Cache, s: seq<TypeId>, s': seq<TypeId>, s'': seq<TypeId>)
    requires Grown(first, second, s, s') && Grown(second, third, s', s'')
    ensures Grown(first, third, s, s'')
  {}

  class Builder {
    const types: DataTypes
    var layouts: Cache

    constructor (types: DataTypes)
      ensures this.types == types && layouts == map[] && Consistent({})
    {
      this.types, layouts := types, map[];
    }

    /** `layout` is the layout of `id`, filled in as far as its fields go. */
    ghost predicate Filled(id: TypeId, layout: StructureLayout)
      reads this, layout
    {
      && layout.dataTypeId == id && IsPlain(types, id) && layout.encodingId == types[id].definition.value.encodingId
      && FieldsRight(types, layouts, id, layout.fields)
    }

    ghost predicate Complete(id: TypeId, layout: StructureLayout)
      reads this, layout
    {
      Filled(id, layout) && |layout.fields| == |FieldsOf(types, id)|
    }

    ghost predicate NullRight(id: TypeId)
      reads this
    {
      id in layouts && layouts[id] == null ==> !Decodable(types, id)
    }

    /** No cached null is wrong. */
    ghost predicate NullsRight()
      reads this
    {
      forall id {:trigger NullRight(id)} :: NullRight(id)
    }

    ghost predicate LayoutRight(id: TypeId, active: set<TypeId>)
      reads this, layouts.Values
    {
      id in layouts && layouts[id] != null ==> Filled(id, layouts[id]) && (id !in active ==> Complete(id, layouts[id]))
    }

    /** Every cached layout is complete but those still being filled in, and points only at cached layouts. */
    ghost predicate Consistent(active: set<TypeId>)
      reads this, layouts.Values
    {
      NullsRight() && forall id {:trigger LayoutRight(id, active)} :: LayoutRight(id, active)
    }

    lemma LayoutsDecodable(id: TypeId)
      requires Consistent({}) && id in layouts && layouts[id] != null
      ensures Decodable(types, id)
    {
      var ids := set x | x in layouts && layouts[x] != null;
      forall x | x in ids
        ensures NodeOk(types, x) && forall inner :: Holds(types, x, inner) ==> inner in ids
      {
        assert LayoutRight(x, {});
        assert Complete(x, layouts[x]);
        forall k | 0 <= k < |FieldsOf(types, x)|
          ensures Matches(types, layouts, layouts[x].fields[k], FieldsOf(types, x)[k]) {}
      }
      forall to, path | Leads(types, id, to, path) ensures NodeOk(types, to) {
        ClosedIsDecodable(types, ids, id, to, path);
      }
    }

    /** A layout that is new in the cache is a new object. */
    twostate predicate NewAreFresh()
      reads this, layouts.Values
    {
      forall id :: id in layouts && id !in old(layouts) && layouts[id] != null ==> fresh(layouts[id])
    }

    /** The field's own name made safe, or that with the first suffix from 2 on that no earlier field has taken. */
    static method UniqueFieldName(fieldName: string, taken: set<string>) returns (unique: string)
      ensures IsUniqueName(unique, fieldName, taken)
    {
      var name := "_";
      if fieldName != "" { name := Sanitize(fieldName); }
      unique := name;
      if unique in taken {
        var suffix := FirstFreeSuffix(name, taken);
        unique := Suffixed(name, suffix);
      }
    }

    /** Registers a new layout before it has any fields, so its own fields can point back at it. */
    method Start(id: TypeId, ghost active: set<TypeId>) returns (built: StructureLayout)
      requires Consistent(active) && IsPlain(types, id) && id !in layouts
      modifies this`layouts
      ensures layouts == old(layouts)[id := built] && fresh(built) && built.fields == []
      ensures Consistent(active + {id})
    {
      built := new StructureLayout(id, types[id].definition.value.encodingId);
      layouts := layouts[id := built];
      forall x ensures NullRight(x) { assert old(NullRight(x)); }
      forall x ensures LayoutRight(x, active + {id}) {
        if x != id && x in layouts && layouts[x] != null {
          assert old(LayoutRight(x, active));
          FieldsRightOn(types, old(layouts), layouts, x, layouts[x].fields);
        }
      }
    }

    method Append(id: TypeId, built: StructureLayout, field: FieldLayout, ghost active: set<TypeId>)
      requires Consistent(active) && id in active && id in layouts && layouts[id] == built
      requires |built.fields| < |FieldsOf(types, id)|
      requires Matches(types, layouts, field, FieldsOf(types, id)[|built.fields|])
      requires IsUniqueName(field.name, FieldsOf(types, id)[|built.fields|].name, NamesOf(built.fields))
      modifies built
      ensures Consistent(active) && built.fields == old(built.fields) + [field]
    {
      assert LayoutRight(id, active);
      FieldsRightNext(types, layouts, id, built.fields, field);
      built.AddField(field);
      forall x ensures NullRight(x) { assert old(NullRight(x)); }
      forall x ensures LayoutRight(x, active) { assert old(LayoutRight(x, active)); }
    }

    /** Lays out the next field, or stops because it cannot be laid out. */
    method FillNext(id: TypeId, built: StructureLayout, names: set<string>, started: seq<TypeId>,
                    ghost active: set<TypeId>) returns (ok: bool, started': seq<TypeId>)
      requires Consistent(active) && id in active && id in layouts && layouts[id] == built
      requires |built.fields| < |FieldsOf(types, id)| && names == NamesOf(built.fields)
      modifies this`layouts, built
      ensures Grown(old(layouts), layouts, started, started') && NewAreFresh() && NullsRight()
      ensures ok ==> Consistent(active) && |built.fields| == |old(built.fields)| + 1
      ensures ok ==> built.fields[..|built.fields| - 1] == old(built.fields)
      ensures !ok ==> !Decodable(types, id)
      decreases types.Keys - layouts.Keys, 2
    {
      var k := |built.fields|;
      var name := UniqueFieldName(FieldsOf(types, id)[k].name, names);
      var field;
      field, started' := BuildField(FieldsOf(types, id)[k], name, started, active);
      ok := field.Some?;
      if ok {
        Append(id, built, field.value, active);
      } else {
        HoldsUndecodable(id, k);
      }
    }

    /** Lays out the fields in order, stopping at the first that cannot be. */
    method Fill(id: TypeId, built: StructureLayout, started: seq<TypeId>, ghost active: set<TypeId>)
      returns (ok: bool, started': seq<TypeId>)
      requires Consistent(active) && id in active && id in layouts && layouts[id] == built && built.fields == []
      modifies this`layouts, built
      ensures Grown(old(layouts), layouts, started, started') && NewAreFresh() && NullsRight()
      ensures ok ==> Consistent(active) && Complete(id, built)
      ensures !ok ==> !Decodable(types, id)
      decreases types.Keys - layouts.Keys, 3
    {
      ok, started' := true, started;
      var names: set<string> := {};
      for k := 0 to |FieldsOf(types, id)|
        invariant Consistent(active) && id in layouts && layouts[id] == built
        invariant |built.fields| == k && names == NamesOf(built.fields)
        invariant Grown(old(layouts), layouts, started, started') && NewAreFresh()
      {
        ghost var before, sofar := layouts, started';
        ok, started' := FillNext(id, built, names, started', active);
        GrownOn(old(layouts), before, layouts, started, sofar, started');
        if !ok { return; }
        assert built.fields == built.fields[..k] + [built.fields[k]];
        NamesOfAppend(built.fields[..k], built.fields[k]);
        names := names + {built.fields[k].name};
      }
      assert LayoutRight(id, active);
    }

    /** The cached layout of `id`, or a new one, or null when some structure it reaches cannot be laid out. */
    method BuildStructure(id: TypeId, started: seq<TypeId>, ghost active: set<TypeId>)
      returns (layout: StructureLayout?, started': seq<TypeId>)
      requires Consistent(active)
      modifies this`layouts
      ensures id in layouts && layouts[id] == layout && (layout == null ==> !Decodable(types, id))
      ensures Grown(old(layouts), layouts, started, started') && NewAreFresh() && NullsRight()
      ensures layout != null ==> Consistent(active)
      decreases types.Keys - layouts.Keys, 0
    {
      if id in layouts {
        assert NullRight(id);
        return layouts[id], started;
      }
      if !IsPlain(types, id) {
        layouts := layouts[id := null];
        NotPlain(id);
        forall x ensures NullRight(x) { assert old(NullRight(x)); }
        return null, started;
      }
      assert id in types.Keys - layouts.Keys;
      var built := Start(id, active);
      assert id !in types.Keys - layouts.Keys;
      var ok;
      ok, started' := Fill(id, built, started + [id], active + {id});
      assert started'[|started|] == id;
      if ok {
        layout := built;
        IsFilled(id, active);
      } else {
        label Failed:
        layouts := layouts[id := null];
        forall x ensures NullRight(x) { assert old@Failed(NullRight(x)); }
        layout := null;
      }
    }

    /** A layout that is complete is no longer being filled in. */
    lemma IsFilled(id: TypeId, active: set<TypeId>)
      requires Consistent(active + {id}) && id in layouts && layouts[id] != null && Complete(id, layouts[id])
      ensures Consistent(active)
    {
      forall x ensures LayoutRight(x, active) { assert LayoutRight(x, active + {id}); }
    }

    method BuildField(definition: FieldDefinition, name: string, started: seq<TypeId>, ghost active: set<TypeId>)
      returns (field: Option<FieldLayout>, started': seq<TypeId>)
      requires Consistent(active)
      modifies this`layouts
      ensures Grown(old(layouts), layouts, started, started') && NewAreFresh() && NullsRight()
      ensures field.Some? ==>
        Consistent(active) && field.value.name == name && Matches(types, layouts, field.value, definition)
      ensures field.None? ==>
        !FieldOk(types, definition) || (IsNested(types, definition) && !Decodable(types, definition.dataType))
      decreases types.Keys - layouts.Keys, 1
    {
      started' := started;
      if definition.valueRank != SCALAR && definition.valueRank != ONE_DIMENSION { return None, started; }
      var isArray := definition.valueRank == ONE_DIMENSION;
      if definition.dataType !in types { return None, started; }
      var info := types[definition.dataType];
      if info.builtIn.ExtensionObject? && !info.isAbstract {
        var nested;
        nested, started' := BuildStructure(definition.dataType, started, active);
        field := if nested == null then None else Some(FieldLayout(name, ExtensionObject, nested, isArray));
      } else {
        field := Some(FieldLayout(name, if info.builtIn.Undefined? then Variant else info.builtIn, null, isArray));
      }
    }

    lemma NotPlain(id: TypeId)
      requires !IsPlain(types, id)
      ensures !Decodable(types, id)
    {
      if Decodable(types, id) { DecodableNeeds(types, id); }
    }

    lemma HoldsUndecodable(id: TypeId, k: nat)
      requires k < |FieldsOf(types, id)|
      requires var field := FieldsOf(types, id)[k];
               !FieldOk(types, field) || (IsNested(types, field) && !Decodable(types, field.dataType))
      ensures !Decodable(types, id)
    {
      if Decodable(types, id) {
        DecodableNeeds(types, id);
      }
    }

    /**
     The layout of `id`: there is one exactly when every structure reached from it can be laid out. Either way the
     cache is left consistent: no wrong null, and no layout that is incomplete or points at one that failed.
     */
    method Build(id: TypeId) returns (layout: StructureLayout?)
      requires Consistent({})
      modifies this`layouts
      ensures Consistent({})
      ensures layout != null <==> Decodable(types, id)
      ensures layout != null ==> id in layouts && layouts[id] == layout
      ensures forall x :: x in old(layouts) && old(layouts[x]) != null ==> x in layouts && layouts[x] == old(layouts[x])
    {
      var started;
      layout, started := BuildStructure(id, [], {});
      if layout != null {
        LayoutsDecodable(id);
        return;
      }
      for i := 0 to |started|
        invariant forall x :: x in old(layouts) ==> x in layouts && layouts[x] == old(layouts[x])
        invariant forall x :: x in layouts && x !in old(layouts) && layouts[x] != null ==> x in started[i..]
        invariant NullsRight() && (id in layouts ==> layouts[id] == null)
      {
        var x := started[i];
        assert started[i..] == [x] + started[i + 1..];
        label Step:
        if x in layouts && layouts[x] != null {
          layouts := layouts - {x};
          forall y ensures NullRight(y) { assert old@Step(NullRight(y)); }
        }
      }
      forall x ensures LayoutRight(x, {}) {
        if x in layouts && layouts[x] != null {
          assert old(LayoutRight(x, {}));
          FieldsRightOn(types, old(layouts), layouts, x, layouts[x].fields);
        }
      }
    }

    /** The cached layouts as the graph the codec and the self description work on. */
    ghost function Graph(): Layouts
      reads this, layouts.Values
    {
      map id | id in layouts && layouts[id] != null :: Layout(layouts[id].encodingId, GraphFields(layouts[id].fields))
    }

    static ghost function GraphFields(fields: seq<FieldLayout>): seq<Field> {
      seq(|fields|, k requires 0 <= k < |fields| =>
        Field(fields[k].name, fields[k].builtIn, if fields[k].structure
              == null then None else Some(fields[k].structure.dataTypeId),
              fields[k].isArray))
    }

    /** The graph says of each structure what its definition says: its fields in order, what they hold, and how many. */
    lemma GraphIsAsDefined(id: TypeId)
      requires Consistent({}) && id in Graph()
      ensures id in types && types[id].definition.Some? && types[id].definition.value.isPlain
      ensures var definition, layout := types[id].definition.value, Graph()[id];
        && layout.encodingId == definition.encodingId && |layout.fields| == |definition.fields|
        && forall k :: 0 <= k < |definition.fields| ==>
             var given, field := definition.fields[k], layout.fields[k];
             && given.dataType in types
             && (if field.isArray then given.valueRank == 1 else given.valueRank == -1)
             && var dataType := types[given.dataType];
                && field.structure == (if dataType.builtIn.ExtensionObject? && !dataType.isAbstract then
                                         Some(given.dataType) else None)
                && field.builtIn == (if dataType.builtIn.Undefined? then Variant else dataType.builtIn)
      ensures forall k :: 0 <= k < |Graph()[id].fields| ==>
        var given := types[id].definition.value.fields[k].name;
        var name := if given == "" then "_" else Sanitized(given);
        (forall j :: 0 <= j < k ==> Graph()[id].fields[j].name != name) ==> Graph()[id].fields[k].name == name
    {
      assert LayoutRight(id, {});
      forall k | 0 <= k < |FieldsOf(types, id)|
        ensures Matches(types, layouts, layouts[id].fields[k], FieldsOf(types, id)[k])
        ensures layouts[id].fields[k].structure != null ==>
                  layouts[id].fields[k].structure.dataTypeId == FieldsOf(types, id)[k].dataType
      {
        if layouts[id].fields[k].structure != null { assert LayoutRight(FieldsOf(types, id)[k].dataType, {}); }
      }
    }

    /** The graph has no dangling references and no two fields of one name: what decoding and encoding ask of it. */
    lemma GraphIsUsable()
      requires Consistent({})
      ensures Closed(Graph()) && forall id :: id in Graph() ==> DistinctNames(Graph()[id].fields)
    {
      forall id, k | id in Graph() && 0 <= k < |Graph()[id].fields| && Graph()[id].fields[k].structure.Some?
        ensures Graph()[id].fields[k].structure.value in Graph()
      {
        assert LayoutRight(id, {});
        var field := layouts[id].fields[k];
        assert Matches(types, layouts, field, FieldsOf(types, id)[k]);
        var inner := FieldsOf(types, id)[k].dataType;
        assert LayoutRight(inner, {});
      }
      forall id | id in Graph() ensures DistinctNames(Graph()[id].fields) {
        assert LayoutRight(id, {});
        NamesDistinct(layouts[id].fields, FieldsOf(types, id));
      }
    }
  }
}
