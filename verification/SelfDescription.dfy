/**
 How structures get into the self description: whatever layouts there are and however they cycle, describing one ends,
 and every type mentioned in a description is described itself.
 */
module SelfDescription {
  import opened Options
  import opened StructureLayouts

  /** A runtime type: a plain one by name, or an array of another. */
  datatype ClrType = Plain(name: string, isValueType: bool) | ArrayOf(element: ClrType)

  /** Full names. Those of structures, of arrays of structures and of runtime types never coincide. */
  datatype TypeName = Structure(name: string) | StructureArray(name: string) | Clr(clrType: ClrType)

  datatype Parameter = Parameter(name: string, typeName: TypeName, isNullable: bool)

  datatype Description = Description(properties: seq<Parameter>, arrayOf: Option<TypeName>)

  /** What the builder is given: the layouts, the full name of each -- naming is lossy, so two may share one -- and
      the runtime type a built-in field is published as. */
  datatype Source = Source(layouts: Layouts, names: map<LayoutId, string>, clrType: BuiltInType -> ClrType) {
    ghost predicate Valid() {
      Closed(layouts) && layouts.Keys <= names.Keys
    }

    function ParameterOf(field: Field): Parameter
      requires field.structure.Some? ==> field.structure.value in names
    {
      if field.structure.Some? then
        Parameter(field.name, if field.isArray then StructureArray(names[field.structure.value])
                  else Structure(names[field.structure.value]), false)
      else if field.isArray then Parameter(field.name, Clr(ArrayOf(clrType(field.builtIn))), false)
      else Parameter(field.name, Clr(clrType(field.builtIn)), clrType(field.builtIn).Plain?
                     && clrType(field.builtIn).isValueType)
    }

    /** Everything a description of layout `id` says, up to its k-th field. */
    ghost function ParametersUpTo(id: LayoutId, k: nat): seq<Parameter>
      requires Valid() && id in layouts && k <= |layouts[id].fields|
    {
      seq(k, j requires 0 <= j < k => ParameterOf(layouts[id].fields[j]))
    }
  }

  function Extended(description: Description, parameter: Parameter): Description {
    description.(properties := description.properties + [parameter])
  }

  type Repo = map<TypeName, Description>

  /** An array is described by its element type alone, a runtime type by nothing; only structures have properties. */
  ghost predicate Fits(name: TypeName, description: Description) {
    match name
    case Structure(_) => description.arrayOf.None?
    case StructureArray(element) => description == Description([], Some(Structure(element)))
    case Clr(Plain(_, _)) => description == Description([], None)
    case Clr(ArrayOf(element)) => description == Description([], Some(Clr(element)))
  }

  ghost predicate ClosedExcept(repo: Repo, pending: set<TypeName>) {
    forall name :: name in repo ==>
      && Fits(name, repo[name])
      && (forall p :: 0 <= p < |repo[name].properties| ==> repo[name].properties[p].typeName in repo.Keys + pending)
      && (repo[name].arrayOf.Some? ==> repo[name].arrayOf.value in repo.Keys + pending)
  }

  /** Every type a description mentions is itself described. */
  ghost predicate ClosedUnderReference(repo: Repo) {
    ClosedExcept(repo, {})
  }

  /** `description` lists in full the fields of a layout called `name`. */
  ghost predicate DescribesInFull(source: Source, name: string, description: Description)
    requires source.Valid()
  {
    exists id :: id in source.layouts && source.names[id] == name &&
      description == Description(source.ParametersUpTo(id, |source.layouts[id].fields|), None)
  }

  /** The description of a layout lists its fields up to the k-th. */
  ghost predicate DescribedTo(source: Source, id: LayoutId, k: nat, repo: Repo)
    requires source.Valid() && id in source.layouts && k <= |source.layouts[id].fields|
  {
    var name := Structure(source.names[id]);
    name in repo && repo[name] == Description(source.ParametersUpTo(id, k), None)
  }

  /** Every structure described, but those still being filled in, is described in full. */
  ghost predicate InFull(source: Source, repo: Repo, active: set<string>)
    requires source.Valid()
  {
    forall name :: Structure(name) in repo && name !in active ==> DescribesInFull(source, name, repo[Structure(name)])
  }

  /** The layouts not described yet, not even under another layout's name. */
  ghost function Missing(source: Source, repo: Repo): set<LayoutId>
    requires source.Valid()
  {
    set id | id in source.layouts && Structure(source.names[id]) !in repo
  }

  /** Everything described stays described, and structures as they were. */
  ghost predicate Keeps(before: Repo, after: Repo) {
    forall name :: name in before ==> name in after && (name.Structure? ==> after[name] == before[name])
  }

  ghost predicate AddsNoStructure(before: Repo, after: Repo) {
    Keeps(before, after) && forall name :: name in after && name.Structure? ==> name in before
  }

  class TypeSerialization {
    var repo: Repo

    constructor ()
      ensures repo == map[]
    {
      repo := map[];
    }

    method AddTypeDescription(name: TypeName, description: Description)
      modifies this
      ensures repo == old(repo)[name := description]
    {
      repo := repo[name := description];
    }

    /** An array type is described before its element type, which until then is mentioned but not described. */
    method AddTypeByName(clrType: ClrType)
      requires ClosedExcept(repo, {Clr(clrType)})
      modifies this
      ensures ClosedUnderReference(repo) && Clr(clrType) in repo
      ensures AddsNoStructure(old(repo), repo)
      decreases clrType
    {
      if Clr(clrType) in repo { return; }
      if clrType.Plain? {
        AddTypeDescription(Clr(clrType), Description([], None));
      } else {
        AddTypeDescription(Clr(clrType), Description([], Some(Clr(clrType.element))));
        AddTypeByName(clrType.element);
      }
    }

    method AddStructureArray(name: string)
      requires ClosedUnderReference(repo) && Structure(name) in repo
      modifies this
      ensures ClosedUnderReference(repo) && StructureArray(name) in repo
      ensures AddsNoStructure(old(repo), repo)
    {
      AddTypeDescription(StructureArray(name), Description([], Some(Structure(name))));
    }

    /** Describes what a field's property is typed as, before the property itself is added. */
    method AddFieldType(source: Source, field: Field, ghost active: set<string>)
      requires source.Valid() && (field.structure.Some? ==> field.structure.value in source.layouts)
      requires ClosedUnderReference(repo) && InFull(source, repo, active)
      modifies this
      ensures ClosedUnderReference(repo) && InFull(source, repo, active)
      ensures Keeps(old(repo), repo) && source.ParameterOf(field).typeName in repo
      decreases Missing(source, repo), 1
    {
      if field.structure.Some? {
        AddStructure(source, field.structure.value, active);
        if field.isArray { AddStructureArray(source.names[field.structure.value]); }
      } else {
        AddTypeByName(if field.isArray then ArrayOf(source.clrType(field.builtIn)) else source.clrType(field.builtIn));
      }
    }

    method AddProperty(owner: string, parameter: Parameter)
      requires ClosedUnderReference(repo) && Structure(owner) in repo && parameter.typeName in repo
      modifies this
      ensures ClosedUnderReference(repo)
      ensures repo == old(repo)[Structure(owner) := Extended(old(repo[Structure(owner)]), parameter)]
    {
      repo := repo[Structure(owner) := Extended(repo[Structure(owner)], parameter)];
    }

    /** Describes one more field of a structure, and all it takes to say what the field holds. */
    method AddField(source: Source, id: LayoutId, k: nat, ghost active: set<string>)
      requires source.Valid() && id in source.layouts && k < |source.layouts[id].fields| && source.names[id] in active
      requires ClosedUnderReference(repo) && InFull(source, repo, active) && DescribedTo(source, id, k, repo)
      modifies this
      ensures ClosedUnderReference(repo) && InFull(source, repo, active) && DescribedTo(source, id, k + 1, repo)
      ensures forall name :: name in old(repo) ==>
        name in repo && (name.Structure? && name != Structure(source.names[id]) ==> repo[name] == old(repo)[name])
      decreases Missing(source, repo), 2
    {
      var field := source.layouts[id].fields[k];
      AddFieldType(source, field, active);
      AddProperty(source.names[id], source.ParameterOf(field));
      assert source.ParametersUpTo(id, k + 1) == source.ParametersUpTo(id, k) + [source.ParameterOf(field)];
    }

    /**
     Describes a structure and every structure it reaches, however the layouts cycle. What is described mentions only
     what is described, and lists its fields in full.
     */
    method AddStructure(source: Source, id: LayoutId, ghost active: set<string>)
      requires source.Valid() && id in source.layouts
      requires ClosedUnderReference(repo) && InFull(source, repo, active)
      modifies this
      ensures ClosedUnderReference(repo) && InFull(source, repo, active)
      ensures Keeps(old(repo), repo) && Structure(source.names[id]) in repo
      decreases Missing(source, repo), 0
    {
      var name := source.names[id];
      if Structure(name) in repo { return; }
      AddTypeDescription(Structure(name), Description([], None));
      assert id in Missing(source, old(repo));
      var fields := source.layouts[id].fields;
      for k := 0 to |fields|
        invariant ClosedUnderReference(repo) && InFull(source, repo, active + {name})
        invariant DescribedTo(source, id, k, repo)
        invariant Keeps(old(repo), repo)
      {
        AddField(source, id, k, active + {name});
      }
      assert DescribesInFull(source, name, repo[Structure(name)]);
    }
  }

  /**
   What a finished description says of a structure: one property for each field, in order and by its name, typed as what
   the field holds, or, if the field is an array, as a type that is described as an array of that. Only a single value
   of a runtime's value type may be missing.
   */
  lemma DescribedStructure(source: Source, repo: Repo, name: string) returns (id: LayoutId)
    requires source.Valid() && ClosedUnderReference(repo) && InFull(source, repo, {}) && Structure(name) in repo
    ensures id in source.layouts && source.names[id] == name
    ensures var fields, properties := source.layouts[id].fields, repo[Structure(name)].properties;
      && |properties| == |fields|
      && forall k :: 0 <= k < |fields| ==>
           var field, property := fields[k], properties[k];
           var clr := source.clrType(field.builtIn);
           var held := if field.structure.Some? then Structure(source.names[field.structure.value]) else Clr(clr);
           && property.name == field.name && property.typeName in repo && held in repo
           && (if field.isArray then repo[property.typeName] == Description([], Some(held))
               else property.typeName == held)
           && (property.isNullable <==> !field.isArray && field.structure.None? && clr.Plain? && clr.isValueType)
  {
    assert DescribesInFull(source, name, repo[Structure(name)]);
    id :| id in source.layouts && source.names[id] == name
      && repo[Structure(name)] == Description(source.ParametersUpTo(id, |source.layouts[id].fields|), None);
    forall k | 0 <= k < |source.layouts[id].fields|
      ensures repo[Structure(name)].properties[k] == source.ParameterOf(source.layouts[id].fields[k])
      ensures repo[Structure(name)].properties[k].typeName in repo
    {}
  }
}
