/**
 Which command a routing key is: the catalog of what the bridge exposes, and the one action every routing key leads
 to. Building the catalog never meets a name twice, every command name of every listed item or method has exactly its
 own route, and commands are queued in arrival order.
 */
module OpcUaBridgeService {
  import opened Options
  import opened MessageNames
  import OpcUaNaming
  import Names
  import opened Sequences

  datatype DataItem = DataItem(node: nat, names: MessageNames, isWritable: bool)

  datatype MethodItem = MethodItem(method_: nat, names: MessageNames)

  datatype Status = BadWaitingForInitialData | BadMethodInvalid | BadNotWritable | BadNodeIdUnknown

  const SELF_DESCRIPTION_COMMAND := "StatePipes.Messages.GetSelfDescriptionCommand"

  datatype Catalog = Catalog(
    byCommand: map<string, DataItem>,
    byMonitorCommand: map<string, DataItem>,
    byDeleteCommand: map<string, DataItem>,
    bySetCommand: map<string, DataItem>,
    byExecCommand: map<string, MethodItem>,
    discovered: bool)

  /** What the bridge does about a command. */
  datatype Action =
    | SelfDescription
    | ServeGet(item: DataItem)
    | ServeMonitor(item: DataItem)
    | ServeDelete(item: DataItem)
    | ServeSet(item: DataItem)
    | ServeExec(exposed: MethodItem)
    | RefuseExec(names: MessageNames, status: Status)
    | RefuseSet(names: MessageNames, readable: Option<DataItem>, status: Status)
    | DeleteUnlisted(names: MessageNames, status: Status)
    | RefuseMonitor(names: MessageNames, status: Status)
    | Ignore
    /** The handler throws: the command is logged, and nobody is answered. */
    | Fail

  // ------------------------------------------------------------------------------------------------------------
  // The catalog

  /** Names as assigned: made like a Get command's, on one exchange, and no two the same. */
  ghost predicate Assigned(names: seq<MessageNames>, ns: string) {
    && (forall i :: 0 <= i < |names| ==> names[i].Valid() && names[i].ns == ns)
    && (forall i, j :: 0 <= i < j < |names| ==> names[i] != names[j])
  }

  /** The names of some keys, as one assignment gave them out. */
  function NamesOf(names: map<OpcUaNaming.Key, string>, keys: seq<OpcUaNaming.Key>,
                   ns: string): (given: seq<MessageNames>)
    requires forall i :: 0 <= i < |keys| ==> keys[i] in names
    ensures |given| == |keys| && forall i :: 0 <= i < |keys| ==> given[i] == MessageNames(ns, names[keys[i]])
  {
    seq(|keys|, i requires 0 <= i < |keys| => MessageNames(ns, names[keys[i]]))
  }

  lemma SuffixGoesOn(prefix: string, name: string, suffix: nat)
    requires prefix < name
    ensures prefix < Names.Suffixed(name, suffix)
  {}

  lemma StillGetName(sorted: seq<OpcUaNaming.Request>, names: map<OpcUaNaming.Key, string>, key: OpcUaNaming.Key)
    requires OpcUaNaming.NamesRight(sorted, names) && key in names
    requires forall request :: request in sorted ==> GET_PREFIX < request.base
    ensures GET_PREFIX < names[key]
  {
    var i :| 0 <= i < |sorted| && sorted[i].key == key;
    assert sorted[i] in sorted && OpcUaNaming.IsNamed(sorted, i, names);
    if !OpcUaNaming.IsFirstOfBase(sorted, i) {
      var suffix :| suffix >= 2 && names[key] == Names.Suffixed(sorted[i].base, suffix);
      SuffixGoesOn(GET_PREFIX, sorted[i].base, suffix);
    }
  }

  /** What the unique-name assignment gives out is what the catalog needs: building it never meets a name twice. */
  lemma AssignmentIsAssigned(sorted: seq<OpcUaNaming.Request>, names: map<OpcUaNaming.Key, string>,
                             keys: seq<OpcUaNaming.Key>, ns: string)
    requires OpcUaNaming.NamesRight(sorted, names) && OpcUaNaming.Injective(names)
    requires forall request :: request in sorted ==> GET_PREFIX < request.base
    requires forall i :: 0 <= i < |keys| ==> keys[i] in names
    requires forall i, j :: 0 <= i < j < |keys| ==> keys[i] != keys[j]
    ensures Assigned(NamesOf(names, keys, ns), ns)
    ensures forall i :: 0 <= i < |keys| ==> NamesOf(names, keys, ns)[i].Base() != ""
  {
    forall i | 0 <= i < |keys| ensures GET_PREFIX < names[keys[i]] { StillGetName(sorted, names, keys[i]); }
  }

  function ItemNames(items: seq<DataItem>): (names: seq<MessageNames>)
    ensures |names| == |items| && forall i :: 0 <= i < |items| ==> names[i] == items[i].names
  {
    seq(|items|, i requires 0 <= i < |items| => items[i].names)
  }

  function MethodNames(methods: seq<MethodItem>): (names: seq<MessageNames>)
    ensures |names| == |methods| && forall i :: 0 <= i < |methods| ==> names[i] == methods[i].names
  {
    seq(|methods|, i requires 0 <= i < |methods| => methods[i].names)
  }

  /** The `kind` commands of some assigned names. */
  function Keys(names: seq<MessageNames>, kind: Kind): (keys: seq<string>)
    requires forall i :: 0 <= i < |names| ==> names[i].Valid()
    ensures |keys| == |names| && forall i :: 0 <= i < |names| ==> keys[i] == names[i].FullName(kind)
  {
    seq(|names|, i requires 0 <= i < |names| => names[i].FullName(kind))
  }

  lemma KeysDistinct(names: seq<MessageNames>, kind: Kind, ns: string)
    requires Assigned(names, ns)
    ensures Distinct(Keys(names, kind))
  {
    forall i, j | 0 <= i < j < |names| ensures Keys(names, kind)[i] != Keys(names, kind)[j] {
      if names[i].FullName(kind) == names[j].FullName(kind) { FullNamesDistinct(names[i], kind, names[j], kind); }
    }
  }

  /** `table` takes each key to what is listed beside it, and holds no other key. */
  ghost predicate Indexes<T>(table: map<string, T>, listed: seq<T>, keys: seq<string>) {
    && |keys| == |listed|
    && (forall key :: key in table <==> key in keys)
    && (forall i :: 0 <= i < |keys| ==> keys[i] in table && table[keys[i]] == listed[i])
  }

  /** Throws -- returns None -- when two of the listed have one key. */
  method ToDictionary<T>(listed: seq<T>, keys: seq<string>) returns (table: Option<map<string, T>>)
    requires |keys| == |listed|
    ensures table.Some? <==> Distinct(keys)
    ensures table.Some? ==> Indexes(table.value, listed, keys)
  {
    var built: map<string, T> := map[];
    for i := 0 to |listed|
      invariant Indexes(built, listed[..i], keys[..i]) && Distinct(keys[..i])
    {
      var key := keys[i];
      if key in built {
        assert key in keys[..i];
        return None;
      }
      assert key !in keys[..i];
      assert keys[..i + 1] == keys[..i] + [key] && listed[..i + 1] == listed[..i] + [listed[i]];
      built := built[key := listed[i]];
    }
    assert keys[..|keys|] == keys && listed[..|listed|] == listed;
    table := Some(built);
  }

  ghost predicate WritableOf(writable: seq<DataItem>, items: seq<DataItem>) {
    forall item :: item in writable <==> item in items && item.isWritable
  }

  method Writable(items: seq<DataItem>, ghost ns: string) returns (writable: seq<DataItem>)
    requires Assigned(ItemNames(items), ns)
    ensures Assigned(ItemNames(writable), ns) && WritableOf(writable, items)
  {
    writable := [];
    for i := 0 to |items|
      invariant WritableOf(writable, items[..i])
      invariant Assigned(ItemNames(writable), ns)
    {
      assert items[..i + 1] == items[..i] + [items[i]];
      if items[i].isWritable {
        forall k | 0 <= k < |writable| ensures writable[k].names != items[i].names {
          assert writable[k] in items[..i];
          var j :| 0 <= j < i && items[j] == writable[k];
          assert ItemNames(items)[j] != ItemNames(items)[i];
        }
        assert ItemNames(writable + [items[i]]) == ItemNames(writable) + [items[i].names];
        writable := writable + [items[i]];
      }
    }
    assert items[..|items|] == items;
  }

  /** What the bridge exposes, with names as assigned. */
  datatype Exposed = Exposed(items: seq<DataItem>, writable: seq<DataItem>, methods: seq<MethodItem>, ns: string) {
    ghost predicate Valid() {
      && Assigned(ItemNames(items), ns) && Assigned(ItemNames(writable), ns) && Assigned(MethodNames(methods), ns)
      && WritableOf(writable, items)
    }
  }

  /** A catalog of what is exposed: each table holds exactly its own commands. */
  ghost predicate Holds(catalog: Catalog, exposed: Exposed)
    requires exposed.Valid()
  {
    && Indexes(catalog.byCommand, exposed.items, Keys(ItemNames(exposed.items), Get))
    && Indexes(catalog.byMonitorCommand, exposed.items, Keys(ItemNames(exposed.items), Monitor))
    && Indexes(catalog.byDeleteCommand, exposed.items, Keys(ItemNames(exposed.items), Delete))
    && Indexes(catalog.bySetCommand, exposed.writable, Keys(ItemNames(exposed.writable), Set))
    && Indexes(catalog.byExecCommand, exposed.methods, Keys(MethodNames(exposed.methods), Exec))
  }

  method ItemTable(items: seq<DataItem>, kind: Kind, ghost ns: string) returns (table: Option<map<string, DataItem>>)
    requires Assigned(ItemNames(items), ns)
    ensures table.Some? && Indexes(table.value, items, Keys(ItemNames(items), kind))
  {
    KeysDistinct(ItemNames(items), kind, ns);
    table := ToDictionary(items, Keys(ItemNames(items), kind));
  }

  /** Building the catalog from assigned names never throws. */
  method Create(items: seq<DataItem>, methods: seq<MethodItem>, ns: string, discovered: bool)
    returns (catalog: Option<Catalog>, ghost exposed: Exposed)
    requires Assigned(ItemNames(items), ns) && Assigned(MethodNames(methods), ns)
    ensures exposed.Valid() && exposed.items == items && exposed.methods == methods && exposed.ns == ns
    ensures catalog.Some? && Holds(catalog.value, exposed) && catalog.value.discovered == discovered
  {
    var writable := Writable(items, ns);
    exposed := Exposed(items, writable, methods, ns);
    var byCommand := ItemTable(items, Get, ns);
    var byMonitor := ItemTable(items, Monitor, ns);
    var byDelete := ItemTable(items, Delete, ns);
    var bySet := ItemTable(writable, Set, ns);
    KeysDistinct(MethodNames(methods), Exec, ns);
    var byExec := ToDictionary(methods, Keys(MethodNames(methods), Exec));
    catalog := Some(Catalog(byCommand.value, byMonitor.value, byDelete.value, bySet.value, byExec.value, discovered));
  }

  // ------------------------------------------------------------------------------------------------------------
  // Routing

  function Route(catalog: Catalog, ns: string, key: string): Action {
    if key == SELF_DESCRIPTION_COMMAND then SelfDescription
    else if key in catalog.byCommand then ServeGet(catalog.byCommand[key])
    else if key in catalog.byMonitorCommand then ServeMonitor(catalog.byMonitorCommand[key])
    else if key in catalog.byDeleteCommand then ServeDelete(catalog.byDeleteCommand[key])
    else if key in catalog.bySetCommand then ServeSet(catalog.bySetCommand[key])
    else if key in catalog.byExecCommand then ServeExec(catalog.byExecCommand[key])
    else RouteUnlisted(catalog, ns, key)
  }

  function Unless(discovered: bool, status: Status): Status {
    if discovered then status else BadWaitingForInitialData
  }

  function RouteUnlisted(catalog: Catalog, ns: string, key: string): Action {
    match FromPrefixedCommandFullName(key, ns, Exec)
    case Throws => Fail
    case Found(names) => RefuseExec(names, Unless(catalog.discovered, BadMethodInvalid))
    case NotFound =>
      match FromPrefixedCommandFullName(key, ns, Set)
      case Throws => Fail
      case Found(names) => RefusalOfSet(catalog, names)
      case NotFound =>
        match FromCommandFullName(key, ns)
        case Throws => Fail
        case Found(names) => RefusalOfMonitor(catalog, names, key)
        case NotFound => Ignore
  }

  function RefusalOfSet(catalog: Catalog, names: MessageNames): Action
    requires names.Valid()
  {
    var get := names.FullName(Get);
    var readable := if get in catalog.byCommand then Some(catalog.byCommand[get]) else None;
    RefuseSet(names, readable, Unless(catalog.discovered, if readable.Some? then BadNotWritable else BadNodeIdUnknown))
  }

  /** Of the two kinds of refusal, a Delete's is one that may yet find a monitor to delete. */
  function RefusalOfMonitor(catalog: Catalog, names: MessageNames, key: string): Action
    requires names.Valid()
  {
    var status := Unless(catalog.discovered, BadNodeIdUnknown);
    if key == names.FullName(Delete) then DeleteUnlisted(names, status) else RefuseMonitor(names, status)
  }

  ghost predicate IsListed(names: seq<MessageNames>, one: MessageNames) {
    exists i :: 0 <= i < |names| && names[i] == one
  }

  /** A table of one kind's commands holds a command name exactly if it is of that kind, and of listed names. */
  lemma InTable<T>(table: map<string, T>, listed: seq<T>, tableNames: seq<MessageNames>, tableKind: Kind,
                   names: MessageNames, kind: Kind, ns: string)
    requires Assigned(tableNames, ns) && Indexes(table, listed, Keys(tableNames, tableKind))
    requires names.Valid() && names.ns == ns
    ensures names.FullName(kind) in table <==> kind == tableKind && IsListed(tableNames, names)
  {
    var key := names.FullName(kind);
    if key in table {
      assert key in Keys(tableNames, tableKind);
      var i :| 0 <= i < |tableNames| && Keys(tableNames, tableKind)[i] == key;
      FullNamesDistinct(names, kind, tableNames[i], tableKind);
    }
    if kind == tableKind && IsListed(tableNames, names) {
      var i :| 0 <= i < |tableNames| && tableNames[i] == names;
      assert Keys(tableNames, tableKind)[i] == key;
    }
  }

  lemma NotSelfDescription(names: MessageNames, kind: Kind)
    requires names.Valid() && IsCommand(kind)
    ensures names.FullName(kind) != SELF_DESCRIPTION_COMMAND
  {
    var full := names.FullName(kind);
    assert full[|full| - 8] == '_';
    assert SELF_DESCRIPTION_COMMAND[|SELF_DESCRIPTION_COMMAND| - 8] == 'n';
  }

  /** The first of the tables, in the order they are asked, that holds a key. */
  datatype Table = OfGet | OfMonitor | OfDelete | OfSet | OfExec | None_

  function TableOf(catalog: Catalog, key: string): Table {
    if key in catalog.byCommand then OfGet
    else if key in catalog.byMonitorCommand then OfMonitor
    else if key in catalog.byDeleteCommand then OfDelete
    else if key in catalog.bySetCommand then OfSet
    else if key in catalog.byExecCommand then OfExec
    else None_
  }

  /** The names a kind's commands are listed for. */
  ghost function ListedNames(exposed: Exposed, kind: Kind): seq<MessageNames> {
    match kind
    case Set => ItemNames(exposed.writable)
    case Exec => MethodNames(exposed.methods)
    case _ => ItemNames(exposed.items)
  }

  function OwnTable(kind: Kind): Table {
    match kind
    case Get => OfGet
    case Monitor => OfMonitor
    case Delete => OfDelete
    case Set => OfSet
    case Exec => OfExec
    case _ => None_
  }

  /** Whether a command is listed, its own table alone decides; no other table knows it. */
  lemma OneTable(catalog: Catalog, exposed: Exposed, names: MessageNames, kind: Kind)
    requires exposed.Valid() && Holds(catalog, exposed) && names.Valid() && names.ns == exposed.ns && IsCommand(kind)
    ensures TableOf(catalog, names.FullName(kind)) == if IsListed(ListedNames(exposed, kind), names) then OwnTable(kind)
      else None_
  {
    var key, ns := names.FullName(kind), exposed.ns;
    assert key in catalog.byCommand <==> kind.Get? && IsListed(ListedNames(exposed, Get), names) by {
      InTable(catalog.byCommand, exposed.items, ItemNames(exposed.items), Get, names, kind, ns);
    }
    assert key in catalog.byMonitorCommand <==> kind.Monitor? && IsListed(ListedNames(exposed, Monitor), names) by {
      InTable(catalog.byMonitorCommand, exposed.items, ItemNames(exposed.items), Monitor, names, kind, ns);
    }
    assert key in catalog.byDeleteCommand <==> kind.Delete? && IsListed(ListedNames(exposed, Delete), names) by {
      InTable(catalog.byDeleteCommand, exposed.items, ItemNames(exposed.items), Delete, names, kind, ns);
    }
    assert key in catalog.bySetCommand <==> kind.Set? && IsListed(ListedNames(exposed, Set), names) by {
      InTable(catalog.bySetCommand, exposed.writable, ItemNames(exposed.writable), Set, names, kind, ns);
    }
    assert key in catalog.byExecCommand <==> kind.Exec? && IsListed(ListedNames(exposed, Exec), names) by {
      InTable(catalog.byExecCommand, exposed.methods, MethodNames(exposed.methods), Exec, names, kind, ns);
    }
  }

  lemma Found<T>(table: map<string, T>, listed: seq<T>, tableNames: seq<MessageNames>, kind: Kind, ns: string, i: nat)
    requires Assigned(tableNames, ns) && Indexes(table, listed, Keys(tableNames, kind)) && i < |tableNames|
    ensures tableNames[i].FullName(kind) in table && table[tableNames[i].FullName(kind)] == listed[i]
  {
    assert Keys(tableNames, kind)[i] == tableNames[i].FullName(kind);
  }

  /** What a listed item's command of a kind leads to. */
  function ItemAction(catalog: Catalog, item: DataItem, kind: Kind): Action
    requires kind.Get? || kind.Monitor? || kind.Delete? || kind.Set?
  {
    match kind
    case Get => ServeGet(item)
    case Monitor => ServeMonitor(item)
    case Delete => ServeDelete(item)
    case Set =>
      if item.isWritable then ServeSet(item)
      else RefuseSet(item.names, Some(item), if catalog.discovered then BadNotWritable else BadWaitingForInitialData)
  }

  /** Where a key leads, once it is known which table holds it. */
  lemma RouteByTable(catalog: Catalog, ns: string, key: string)
    requires key != SELF_DESCRIPTION_COMMAND
    ensures var table, action := TableOf(catalog, key), Route(catalog, ns, key);
      && (table.OfGet? ==> key in catalog.byCommand && action == ServeGet(catalog.byCommand[key]))
      && (table.OfMonitor? ==> key in catalog.byMonitorCommand && action == ServeMonitor(catalog.byMonitorCommand[key]))
      && (table.OfDelete? ==> key in catalog.byDeleteCommand && action == ServeDelete(catalog.byDeleteCommand[key]))
      && (table.OfSet? ==> key in catalog.bySetCommand && action == ServeSet(catalog.bySetCommand[key]))
      && (table.OfExec? ==> key in catalog.byExecCommand && action == ServeExec(catalog.byExecCommand[key]))
      && (table.None_? ==> action == RouteUnlisted(catalog, ns, key))
  {}

  /** Every command of a listed item goes to that item; a Set of one that cannot be written is refused as readable. */
  lemma ItemRoutes(catalog: Catalog, exposed: Exposed, i: nat, kind: Kind)
    requires exposed.Valid() && Holds(catalog, exposed) && i < |exposed.items| && exposed.items[i].names.Base() != ""
    requires kind.Get? || kind.Monitor? || kind.Delete? || kind.Set?
    ensures Route(catalog, exposed.ns, exposed.items[i].names.FullName(kind))
      == ItemAction(catalog, exposed.items[i], kind)
  {
    var item, key := exposed.items[i], exposed.items[i].names.FullName(kind);
    if kind.Set? {
      SetRoutes(catalog, exposed, i, key);
    } else {
      assert key != SELF_DESCRIPTION_COMMAND by { NotSelfDescription(item.names, kind); }
      assert TableOf(catalog, key) == OwnTable(kind) by {
        assert ItemNames(exposed.items)[i] == item.names;
        OneTable(catalog, exposed, item.names, kind);
      }
      RouteByTable(catalog, exposed.ns, key);
      ItemFound(catalog, exposed, i, kind, key);
    }
  }

  lemma ItemFound(catalog: Catalog, exposed: Exposed, i: nat, kind: Kind, key: string)
    requires exposed.Valid() && Holds(catalog, exposed) && i < |exposed.items|
    requires key == exposed.items[i].names.FullName(kind)
    ensures kind.Get? ==> key in catalog.byCommand && catalog.byCommand[key] == exposed.items[i]
    ensures kind.Monitor? ==> key in catalog.byMonitorCommand && catalog.byMonitorCommand[key] == exposed.items[i]
    ensures kind.Delete? ==> key in catalog.byDeleteCommand && catalog.byDeleteCommand[key] == exposed.items[i]
  {
    match kind
    case Get => Found(catalog.byCommand, exposed.items, ItemNames(exposed.items), Get, exposed.ns, i);
    case Monitor => Found(catalog.byMonitorCommand, exposed.items, ItemNames(exposed.items), Monitor, exposed.ns, i);
    case Delete => Found(catalog.byDeleteCommand, exposed.items, ItemNames(exposed.items), Delete, exposed.ns, i);
    case _ =>
  }

  lemma WritableFound(catalog: Catalog, exposed: Exposed, i: nat, key: string)
    requires exposed.Valid() && Holds(catalog, exposed) && i < |exposed.items|
    requires key == exposed.items[i].names.FullName(Set)
    requires exposed.items[i].isWritable
    ensures key in catalog.bySetCommand && catalog.bySetCommand[key] == exposed.items[i]
  {
    assert exposed.items[i] in exposed.writable;
    var k := IndexOf(exposed.writable, exposed.items[i]);
    Found(catalog.bySetCommand, exposed.writable, ItemNames(exposed.writable), Set, exposed.ns, k);
  }

  lemma WritableSetRoutes(catalog: Catalog, exposed: Exposed, i: nat, key: string)
    requires exposed.Valid() && Holds(catalog, exposed) && i < |exposed.items|
    requires key == exposed.items[i].names.FullName(Set)
    requires exposed.items[i].isWritable
    ensures Route(catalog, exposed.ns, key) == ItemAction(catalog, exposed.items[i], Set)
  {
    var item := exposed.items[i];
    assert key != SELF_DESCRIPTION_COMMAND by { NotSelfDescription(item.names, Set); }
    assert TableOf(catalog, key) == OfSet by {
      WritableListed(exposed, i);
      OneTable(catalog, exposed, item.names, Set);
    }
    RouteByTable(catalog, exposed.ns, key);
    WritableFound(catalog, exposed, i, key);
  }

  lemma ReadOnlySetRoutes(catalog: Catalog, exposed: Exposed, i: nat, key: string)
    requires exposed.Valid() && Holds(catalog, exposed) && i < |exposed.items|
    requires key == exposed.items[i].names.FullName(Set)
    requires !exposed.items[i].isWritable && exposed.items[i].names.Base() != ""
    ensures Route(catalog, exposed.ns, key) == RefusalOfSet(catalog, exposed.items[i].names)
  {
    var item := exposed.items[i];
    assert key != SELF_DESCRIPTION_COMMAND by { NotSelfDescription(item.names, Set); }
    assert TableOf(catalog, key) == None_ by {
      WritableListed(exposed, i);
      OneTable(catalog, exposed, item.names, Set);
    }
    RouteByTable(catalog, exposed.ns, key);
    UnlistedSet(catalog, exposed.ns, item.names);
  }

  /** A Set of a read-only item is refused as one that can be read. */
  lemma ReadOnlyRefusal(catalog: Catalog, item: DataItem, get: string)
    requires item.names.Valid() && !item.isWritable && get == item.names.FullName(Get)
    requires get in catalog.byCommand && catalog.byCommand[get] == item
    ensures RefusalOfSet(catalog, item.names) == ItemAction(catalog, item, Set)
  {}

  lemma ReadOnlyItemRoutes(catalog: Catalog, exposed: Exposed, i: nat, key: string)
    requires exposed.Valid() && Holds(catalog, exposed) && i < |exposed.items|
    requires key == exposed.items[i].names.FullName(Set)
    requires !exposed.items[i].isWritable && exposed.items[i].names.Base() != ""
    ensures Route(catalog, exposed.ns, key) == ItemAction(catalog, exposed.items[i], Set)
  {
    var item, get := exposed.items[i], exposed.items[i].names.FullName(Get);
    ReadOnlySetRoutes(catalog, exposed, i, key);
    ItemFound(catalog, exposed, i, Get, get);
    ReadOnlyRefusal(catalog, item, get);
  }

  lemma SetRoutes(catalog: Catalog, exposed: Exposed, i: nat, key: string)
    requires exposed.Valid() && Holds(catalog, exposed) && i < |exposed.items|
    requires key == exposed.items[i].names.FullName(Set)
    requires exposed.items[i].names.Base() != ""
    ensures Route(catalog, exposed.ns, key) == ItemAction(catalog, exposed.items[i], Set)
  {
    if exposed.items[i].isWritable {
      WritableSetRoutes(catalog, exposed, i, key);
    } else {
      ReadOnlyItemRoutes(catalog, exposed, i, key);
    }
  }

  /** Of the exposed, names tell items apart. */
  lemma SameItem(exposed: Exposed, item: DataItem, i: nat)
    requires exposed.Valid() && i < |exposed.items| && item in exposed.items && item.names == exposed.items[i].names
    ensures item == exposed.items[i]
  {
    var j := IndexOf(exposed.items, item);
    var names := ItemNames(exposed.items);
    assert names[i] == names[j];
  }

  lemma ListedWritable(exposed: Exposed, names: MessageNames) returns (item: DataItem)
    requires exposed.Valid() && IsListed(ItemNames(exposed.writable), names)
    ensures item in exposed.items && item.isWritable && item.names == names && IsListed(ItemNames(exposed.items), names)
  {
    var k :| 0 <= k < |exposed.writable| && ItemNames(exposed.writable)[k] == names;
    item := exposed.writable[k];
    assert item in exposed.writable;
    var j := IndexOf(exposed.items, item);
    assert ItemNames(exposed.items)[j] == names;
  }

  lemma WritableListed(exposed: Exposed, i: nat)
    requires exposed.Valid() && i < |exposed.items|
    ensures IsListed(ItemNames(exposed.writable), exposed.items[i].names) <==> exposed.items[i].isWritable
  {
    var names := exposed.items[i].names;
    if exposed.items[i].isWritable {
      assert exposed.items[i] in exposed.writable;
      var k := IndexOf(exposed.writable, exposed.items[i]);
      assert ItemNames(exposed.writable)[k] == names;
    }
    if IsListed(ItemNames(exposed.writable), names) {
      var item := ListedWritable(exposed, names);
      SameItem(exposed, item, i);
    }
  }

  lemma IndexOf(items: seq<DataItem>, item: DataItem) returns (j: nat)
    requires item in items
    ensures j < |items| && items[j] == item
  {
    j :| 0 <= j < |items| && items[j] == item;
  }

  /** The parser for one kind does not find another kind's command. */
  lemma OtherParser(names: MessageNames, kind: Kind, other: Kind)
    requires names.Valid() && names.Base() != "" && IsCommand(kind) && !kind.Get? && Prefix(kind)[0] != Prefix(other)[0]
    ensures FromPrefixedCommandFullName(names.FullName(kind), names.ns, other).NotFound?
  {
    var prefix := names.ns + "." + Prefix(other);
    var key := names.FullName(kind);
    assert key[|names.ns| + 1] == Prefix(kind)[0] by {
      TypeNameShape(names, kind);
      assert key == (names.ns + ".") + names.TypeName(kind);
    }
    assert prefix[|names.ns| + 1] == Prefix(other)[0];
  }

  lemma UnlistedSet(catalog: Catalog, ns: string, names: MessageNames)
    requires names.Valid() && names.ns == ns && names.Base() != ""
    ensures RouteUnlisted(catalog, ns, names.FullName(Set)) == RefusalOfSet(catalog, names)
  {
    OtherParser(names, Set, Exec);
    PrefixedParserInverts(names.FullName(Set), ns, Set, names);
  }

  lemma UnlistedExec(catalog: Catalog, ns: string, names: MessageNames)
    requires names.Valid() && names.ns == ns && names.Base() != ""
    ensures RouteUnlisted(catalog, ns, names.FullName(Exec))
      == RefuseExec(names, Unless(catalog.discovered, BadMethodInvalid))
  {
    PrefixedParserInverts(names.FullName(Exec), ns, Exec, names);
  }

  lemma UnlistedMonitorOrDelete(catalog: Catalog, ns: string, names: MessageNames, kind: Kind)
    requires names.Valid() && names.ns == ns && names.Base() != "" && (kind.Monitor? || kind.Delete?)
    ensures RouteUnlisted(catalog, ns, names.FullName(kind)) == RefusalOfMonitor(catalog, names, names.FullName(kind))
  {
    OtherParser(names, kind, Exec);
    OtherParser(names, kind, Set);
    CommandParserInverts(names.FullName(kind), ns, names);
  }

  lemma UnlistedRefusal(catalog: Catalog, names: MessageNames, kind: Kind)
    requires names.Valid() && names.Base() != "" && (kind.Monitor? || kind.Delete? || kind.Set? || kind.Exec?)
    requires names.FullName(Get) !in catalog.byCommand || !kind.Set?
    ensures RouteUnlisted(catalog, names.ns, names.FullName(kind)) == UnlistedAction(catalog, names, kind)
  {
    match kind
    case Set => UnlistedSet(catalog, names.ns, names);
    case Exec => UnlistedExec(catalog, names.ns, names);
    case Delete => UnlistedMonitorOrDelete(catalog, names.ns, names, kind);
    case Monitor =>
      UnlistedMonitorOrDelete(catalog, names.ns, names, kind);
      if names.FullName(Monitor) == names.FullName(Delete) { FullNamesDistinct(names, Monitor, names, Delete); }
  }

  /** What a command for something that is not listed leads to. */
  function UnlistedAction(catalog: Catalog, names: MessageNames, kind: Kind): Action
    requires kind.Monitor? || kind.Delete? || kind.Set? || kind.Exec?
  {
    if catalog.discovered then
      match kind
      case Monitor => RefuseMonitor(names, BadNodeIdUnknown)
      case Delete => DeleteUnlisted(names, BadNodeIdUnknown)
      case Set => RefuseSet(names, None, BadNodeIdUnknown)
      case Exec => RefuseExec(names, BadMethodInvalid)
    else
      match kind
      case Monitor => RefuseMonitor(names, BadWaitingForInitialData)
      case Delete => DeleteUnlisted(names, BadWaitingForInitialData)
      case Set => RefuseSet(names, None, BadWaitingForInitialData)
      case Exec => RefuseExec(names, BadWaitingForInitialData)
  }

  lemma UnlistedHasNoTable(catalog: Catalog, exposed: Exposed, names: MessageNames, kind: Kind)
    requires exposed.Valid() && Holds(catalog, exposed) && names.Valid() && names.ns == exposed.ns && IsCommand(kind)
    requires !IsListed(if kind.Exec? then MethodNames(exposed.methods) else ItemNames(exposed.items), names)
    ensures TableOf(catalog, names.FullName(kind)) == None_
  {
    if IsListed(ItemNames(exposed.writable), names) { var item := ListedWritable(exposed, names); }
    OneTable(catalog, exposed, names, kind);
  }

  /**
   A command for something that is not listed is refused in its own kind's terms, and a Delete still deletes: the
   names answered to are those the command was printed from.
   */
  lemma UnlistedRoutes(catalog: Catalog, exposed: Exposed, names: MessageNames, kind: Kind)
    requires exposed.Valid() && Holds(catalog, exposed) && names.Valid() && names.ns == exposed.ns && names.Base() != ""
    requires kind.Monitor? || kind.Delete? || kind.Set? || kind.Exec?
    requires !IsListed(if kind.Exec? then MethodNames(exposed.methods) else ItemNames(exposed.items), names)
    ensures Route(catalog, exposed.ns, names.FullName(kind)) == UnlistedAction(catalog, names, kind)
  {
    NotSelfDescription(names, kind);
    UnlistedHasNoTable(catalog, exposed, names, kind);
    RouteByTable(catalog, exposed.ns, names.FullName(kind));
    if kind.Set? {
      UnlistedHasNoTable(catalog, exposed, names, Get);
    }
    UnlistedRefusal(catalog, names, kind);
  }

  lemma MethodFound(catalog: Catalog, exposed: Exposed, i: nat, key: string)
    requires exposed.Valid() && Holds(catalog, exposed) && i < |exposed.methods|
    requires key == exposed.methods[i].names.FullName(Exec)
    ensures TableOf(catalog, key) == OfExec && key in catalog.byExecCommand
    ensures catalog.byExecCommand[key] == exposed.methods[i]
  {
    var names := MethodNames(exposed.methods);
    assert IsListed(names, names[i]);
    OneTable(catalog, exposed, names[i], Exec);
    Found(catalog.byExecCommand, exposed.methods, names, Exec, exposed.ns, i);
  }

  /** Every Exec of a listed method goes to that method. */
  lemma MethodRoutes(catalog: Catalog, exposed: Exposed, i: nat)
    requires exposed.Valid() && Holds(catalog, exposed) && i < |exposed.methods|
    ensures Route(catalog, exposed.ns, exposed.methods[i].names.FullName(Exec)) == ServeExec(exposed.methods[i])
  {
    var key := exposed.methods[i].names.FullName(Exec);
    assert key != SELF_DESCRIPTION_COMMAND by { NotSelfDescription(exposed.methods[i].names, Exec); }
    MethodFound(catalog, exposed, i, key);
    RouteByTable(catalog, exposed.ns, key);
  }

  /** The bridge drops a command by throwing exactly on the two texts its parsers throw on, when they are not listed. */
  lemma FailsOnlyOnSharedUnderscore(catalog: Catalog, ns: string, key: string)
    requires key != SELF_DESCRIPTION_COMMAND && TableOf(catalog, key) == None_
    ensures Route(catalog, ns, key).Fail? <==>
      key == ns + "." + "Exec_" + "Command" || key == ns + "." + "Set_" + "Command"
  {
    PrefixedParserThrows(key, ns, Exec);
    PrefixedParserThrows(key, ns, Set);
    if key == ns + "." + "Set_" + "Command" {
      var exec := ns + "." + Prefix(Exec);
      assert key[|ns| + 1] == 'S' && exec[|ns| + 1] == 'E';
    }
  }

  // ------------------------------------------------------------------------------------------------------------
  // Arrivals

  /** What a command's reply-to header holds: nothing readable, an exchange answers may not go to, or one they may. */
  datatype ReplyTo = Unreadable | Foreign(exchange: string) | Allowed(exchange: string)

  datatype Arrival = Arrival(key: string, replyTo: ReplyTo)

  datatype Queued = Queued(action: Action, replyTo: ReplyTo)

  /** A Get and the self description may be answered anywhere readable; everything else only where allowed. */
  predicate Serves(action: Action, replyTo: ReplyTo) {
    match action
    case Ignore => false
    case Fail => false
    case SelfDescription => !replyTo.Unreadable?
    case ServeGet(_) => !replyTo.Unreadable?
    case _ => replyTo.Allowed?
  }

  /** What a run of arrivals leaves for the executor, in their order. */
  function Admitted(catalog: Catalog, ns: string, arrivals: seq<Arrival>): seq<Queued> {
    if arrivals == [] then []
    else
      var last := arrivals[|arrivals| - 1];
      var action := Route(catalog, ns, last.key);
      Admitted(catalog, ns, arrivals[..|arrivals| - 1])
      + if Serves(action, last.replyTo) && !action.SelfDescription? then [Queued(action, last.replyTo)] else []
  }

  lemma SelfDescriptionRoute(catalog: Catalog, ns: string, key: string)
    ensures Route(catalog, ns, key).SelfDescription? <==> key == "StatePipes.Messages.GetSelfDescriptionCommand"
  {}

  /** The self description goes to whoever asks for it and can be answered. */
  function Described(arrivals: seq<Arrival>): seq<ReplyTo> {
    if arrivals == [] then []
    else
      var last := arrivals[|arrivals| - 1];
      Described(arrivals[..|arrivals| - 1])
      + if last.key == SELF_DESCRIPTION_COMMAND && !last.replyTo.Unreadable? then [last.replyTo] else []
  }

  /**
   An arrival that waits for the executor: a Get of a listed item whose reply-to can be read, or any other command the
   bridge knows what to do with whose reply-to may be answered.
   */
  ghost predicate Waits(catalog: Catalog, ns: string, arrival: Arrival) {
    && arrival.key != SELF_DESCRIPTION_COMMAND
    && if arrival.key in catalog.byCommand then arrival.replyTo.Foreign? || arrival.replyTo.Allowed?
       else
         var action := Route(catalog, ns, arrival.key);
         action != Ignore && action != Fail && arrival.replyTo.Allowed?
  }

  lemma ServedIfWaits(catalog: Catalog, ns: string, arrival: Arrival)
    ensures var action := Route(catalog, ns, arrival.key);
      Waits(catalog, ns, arrival) <==> Serves(action, arrival.replyTo) && !action.SelfDescription?
  {}

  /** `at` are the places of the arrivals that wait, in order, and `queued` is what they leave for the executor. */
  ghost predicate AreAt(catalog: Catalog, ns: string, arrivals: seq<Arrival>, queued: seq<Queued>, at: seq<nat>) {
    && |at| == |queued| && (forall j, k :: 0 <= j < k < |at| ==> at[j] < at[k])
    && (forall k :: 0 <= k < |at| ==> at[k] < |arrivals|)
    && (forall k :: 0 <= k < |at| ==>
         queued[k] == Queued(Route(catalog, ns, arrivals[at[k]].key), arrivals[at[k]].replyTo))
    && (forall i :: 0 <= i < |arrivals| ==> (i in at <==> Waits(catalog, ns, arrivals[i])))
  }

  lemma OneMoreWaits(catalog: Catalog, ns: string, arrivals: seq<Arrival>, queued: seq<Queued>, at: seq<nat>,
                     last: Arrival)
    requires AreAt(catalog, ns, arrivals, queued, at) && Waits(catalog, ns, last)
    ensures AreAt(catalog, ns, arrivals + [last], queued + [Queued(Route(catalog, ns, last.key), last.replyTo)],
                  at + [|arrivals|])
  {
    var more, moreAt := arrivals + [last], at + [|arrivals|];
    forall i | 0 <= i < |more| ensures i in moreAt <==> Waits(catalog, ns, more[i]) {
      assert i in moreAt <==> i in at || i == |arrivals|;
    }
  }

  lemma OneMorePasses(catalog: Catalog, ns: string, arrivals: seq<Arrival>, queued: seq<Queued>, at: seq<nat>,
                      last: Arrival)
    requires AreAt(catalog, ns, arrivals, queued, at) && !Waits(catalog, ns, last)
    ensures AreAt(catalog, ns, arrivals + [last], queued, at)
  {}

  lemma AdmittedNext(catalog: Catalog, ns: string, arrivals: seq<Arrival>, last: Arrival)
    ensures Admitted(catalog, ns, arrivals + [last]) == Admitted(catalog, ns, arrivals)
      + if Waits(catalog, ns, last) then [Queued(Route(catalog, ns, last.key), last.replyTo)] else []
  {
    ServedIfWaits(catalog, ns, last);
    assert (arrivals + [last])[..|arrivals|] == arrivals;
  }

  lemma OneMoreAt(catalog: Catalog, ns: string, arrivals: seq<Arrival>, at: seq<nat>, last: Arrival)
    requires AreAt(catalog, ns, arrivals, Admitted(catalog, ns, arrivals), at)
    ensures AreAt(catalog, ns, arrivals + [last], Admitted(catalog, ns, arrivals + [last]),
                  at + if Waits(catalog, ns, last) then [|arrivals|] else [])
  {
    AdmittedNext(catalog, ns, arrivals, last);
    var queued := Admitted(catalog, ns, arrivals);
    if Waits(catalog, ns, last) {
      OneMoreWaits(catalog, ns, arrivals, queued, at, last);
    } else {
      OneMorePasses(catalog, ns, arrivals, queued, at, last);
      assert queued + [] == queued && at + [] == at;
    }
  }

  /** Just the arrivals that wait reach the executor, each once, in their order, and to be answered where they said. */
  lemma {:induction false} AdmittedInOrder(catalog: Catalog, ns: string, arrivals: seq<Arrival>) returns (at: seq<nat>)
    ensures AreAt(catalog, ns, arrivals, Admitted(catalog, ns, arrivals), at)
  {
    if arrivals == [] {
      at := [];
    } else {
      var fewer, last := arrivals[..|arrivals| - 1], arrivals[|arrivals| - 1];
      assert arrivals == fewer + [last];
      var before := AdmittedInOrder(catalog, ns, fewer);
      OneMoreAt(catalog, ns, fewer, before, last);
      at := before + if Waits(catalog, ns, last) then [|fewer|] else [];
    }
  }

  class Service {
    const ns: string
    var catalog: Catalog
    /** Commands waiting their turn with the executor. */
    var queue: seq<Queued>
    /** Where the self description went. */
    var described: seq<ReplyTo>

    constructor (ns: string)
      ensures this.ns == ns && queue == [] && described == []
      ensures catalog == Catalog(map[], map[], map[], map[], map[], false)
    {
      this.ns, queue, described := ns, [], [];
      catalog := Catalog(map[], map[], map[], map[], map[], false);
    }

    method SetCatalog(items: seq<DataItem>, methods: seq<MethodItem>) returns (ghost exposed: Exposed)
      requires Assigned(ItemNames(items), ns) && Assigned(MethodNames(methods), ns)
      modifies this`catalog
      ensures exposed.Valid() && exposed.items == items && exposed.methods == methods && exposed.ns == ns
      ensures Holds(catalog, exposed) && catalog.discovered
    {
      var created;
      created, exposed := Create(items, methods, ns, true);
      catalog := created.value;
    }

    /** Answers the self description at once; leaves every other command that is served for its turn. */
    method ConsumeCommand(arrival: Arrival)
      modifies this`queue, this`described
      ensures var action := Route(catalog, ns, arrival.key);
        && queue == old(queue) + (if Serves(action, arrival.replyTo)
                                  && !action.SelfDescription? then [Queued(action, arrival.replyTo)] else [])
        && described == old(described) + (if Serves(action, arrival.replyTo)
                                          && action.SelfDescription? then [arrival.replyTo] else [])
    {
      var action := Route(catalog, ns, arrival.key);
      if Serves(action, arrival.replyTo) {
        if action.SelfDescription? {
          described := described + [arrival.replyTo];
        } else {
          queue := queue + [Queued(action, arrival.replyTo)];
        }
      }
    }

    /** The receive thread: commands reach the executor in arrival order, each at most once. */
    method Receive(arrivals: seq<Arrival>)
      modifies this`queue, this`described
      ensures queue == old(queue) + Admitted(catalog, ns, arrivals)
      ensures described == old(described) + Described(arrivals)
    {
      for i := 0 to |arrivals|
        invariant queue == old(queue) + Admitted(catalog, ns, arrivals[..i])
        invariant described == old(described) + Described(arrivals[..i])
      {
        assert arrivals[..i + 1][..i] == arrivals[..i];
        SelfDescriptionRoute(catalog, ns, arrivals[i].key);
        ConsumeCommand(arrivals[i]);
      }
      assert arrivals[..|arrivals|] == arrivals;
    }
  }
}
