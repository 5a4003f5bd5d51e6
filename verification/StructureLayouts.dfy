/**
 The layouts of structure DataTypes: their fields in encoding order. A field may hold another structure, so a set of
 layouts is a graph, and it may be cyclic: a structure can hold an array of itself.
 */
module StructureLayouts {
  import opened Options

  type LayoutId = nat
  type EncodingId = nat

  /**
   The built-in types. Those before ExtensionObject are the ones the bridge writes; Other stands for the rest of
   those it only reads, and publishes as text.
   */
  datatype BuiltInType =
    | Boolean | SByte | Byte | Int16 | UInt16 | Int32 | UInt32 | Int64 | UInt64 | Float | Double
    | String | DateTime | Guid | ByteString | StatusCode | Enumeration
    | ExtensionObject | Variant | Undefined | Other

  /** A field holds another structure when `structure` is Some, and otherwise a value of its built-in type. */
  datatype Field = Field(name: string, builtIn: BuiltInType, structure: Option<LayoutId>, isArray: bool)

  datatype Layout = Layout(encodingId: Option<EncodingId>, fields: seq<Field>)

  type Layouts = map<LayoutId, Layout>

  /** Every nested structure has its layout. */
  ghost predicate Closed(layouts: Layouts) {
    forall id, k :: id in layouts && 0 <= k < |layouts[id].fields| && layouts[id].fields[k].structure.Some? ==>
      layouts[id].fields[k].structure.value in layouts
  }

  ghost predicate NestsInto(field: Field, ids: set<LayoutId>) {
    field.structure.Some? && !field.isArray && field.structure.value in ids
  }

  ghost predicate NestsSome(layout: Layout, ids: set<LayoutId>) {
    exists k :: 0 <= k < |layout.fields| && NestsInto(layout.fields[k], ids)
  }

  /** Each of these structures holds another of them as a scalar field. */
  ghost predicate Endless(layouts: Layouts, ids: set<LayoutId>) {
    && ids <= layouts.Keys
    && forall id {:trigger NestsSome(layouts[id], ids)} :: id in ids && id in layouts ==> NestsSome(layouts[id], ids)
  }

  ghost predicate DistinctNames(fields: seq<Field>) {
    forall i, j :: 0 <= i < j < |fields| ==> fields[i].name != fields[j].name
  }

  /** The types a value can be written for. */
  predicate IsSupported(builtIn: BuiltInType) {
    !(builtIn.ExtensionObject? || builtIn.Variant? || builtIn.Undefined? || builtIn.Other?)
  }

  /** What writing a structure needs of its own layout, apart from the structures inside it. */
  predicate Encodable(layout: Layout) {
    && layout.encodingId.Some?
    && forall k :: 0 <= k < |layout.fields| && layout.fields[k].structure.None? ==>
        IsSupported(layout.fields[k].builtIn)
  }
}
