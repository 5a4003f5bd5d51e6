/**
 The names of the messages of one node, printed from a shared namespace and base, and the parsers that read them
 back from a routing key.
 */
module MessageNames {
  import opened Options
  import opened Names

  /** The messages a data item or method has. */
  datatype Kind = Get | GetEvent | Monitor | Delete | MonitorStatus | Set | SetStatus | Exec | ExecResult

  const GET_PREFIX := "Get_"
  const COMMAND_SUFFIX := "_Command"
  const EVENT_SUFFIX := "_Event"

  function Prefix(kind: Kind): string {
    match kind
    case Get => GET_PREFIX
    case GetEvent => GET_PREFIX
    case Monitor => "Monitor_"
    case Delete => "Delete_"
    case MonitorStatus => "MonitorStatus_"
    case Set => "Set_"
    case SetStatus => "SetStatus_"
    case Exec => "Exec_"
    case ExecResult => "ExecResult_"
  }

  predicate IsCommand(kind: Kind) {
    kind.Get? || kind.Monitor? || kind.Delete? || kind.Set? || kind.Exec?
  }

  function Suffix(kind: Kind): string {
    if IsCommand(kind) then COMMAND_SUFFIX else EVENT_SUFFIX
  }

  datatype MessageNames = MessageNames(ns: string, name: string) {
    /** Names are made to start like a Get command's. */
    ghost predicate Valid() {
      GET_PREFIX <= name
    }

    function Base(): string
      requires Valid()
    {
      name[|GET_PREFIX|..]
    }

    /** The type name of a message: the name with its `Get_` swapped for the message's own prefix. */
    function TypeName(kind: Kind): string
      requires Valid()
    {
      if kind.Get? || kind.GetEvent? then name + Suffix(kind) else Prefix(kind) + Base() + Suffix(kind)
    }

    function FullName(kind: Kind): string
      requires Valid()
    {
      ns + "." + TypeName(kind)
    }
  }

  lemma TypeNameShape(names: MessageNames, kind: Kind)
    requires names.Valid()
    ensures names.TypeName(kind) == Prefix(kind) + names.Base() + Suffix(kind)
  {
    assert names.name == GET_PREFIX + names.Base();
  }

  // ------------------------------------------------------------------------------------------------------------
  // Distinct messages have distinct names

  lemma Cancel(prefix: string, a: string, b: string, suffix: string)
    requires prefix + a + suffix == prefix + b + suffix
    ensures a == b
  {
    var x, y := prefix + a + suffix, prefix + b + suffix;
    assert |a| == |b|;
    assert x[|prefix|..|prefix| + |a|] == a;
    assert y[|prefix|..|prefix| + |b|] == b;
  }

  lemma KindsDistinct(a: string, ka: Kind, b: string, kb: Kind)
    requires Prefix(ka) + a + Suffix(ka) == Prefix(kb) + b + Suffix(kb)
    ensures ka == kb
  {
    var x, y := Prefix(ka) + a + Suffix(ka), Prefix(kb) + b + Suffix(kb);
    assert x[|x| - 1] == if IsCommand(ka) then 'd' else 't';
    assert y[|y| - 1] == if IsCommand(kb) then 'd' else 't';
    assert x[0] == Prefix(ka)[0] && y[0] == Prefix(kb)[0];
  }

  /** Two messages on one exchange have one full name only if they are the same message of the same names. */
  lemma FullNamesDistinct(a: MessageNames, ka: Kind, b: MessageNames, kb: Kind)
    requires a.Valid() && b.Valid() && a.ns == b.ns && a.FullName(ka) == b.FullName(kb)
    ensures ka == kb && a == b
  {
    TypeNameShape(a, ka);
    TypeNameShape(b, kb);
    assert a.FullName(ka)[|a.ns| + 1..] == a.TypeName(ka) && b.FullName(kb)[|b.ns| + 1..] == b.TypeName(kb);
    KindsDistinct(a.Base(), ka, b.Base(), kb);
    Cancel(Prefix(ka), a.Base(), b.Base(), Suffix(ka));
    assert a.name == GET_PREFIX + a.Base() && b.name == GET_PREFIX + b.Base();
  }

  // ------------------------------------------------------------------------------------------------------------
  // Parsing

  /** A parser finds names, or none, or -- slicing past the end of the text -- throws. */
  datatype Parsed = Found(names: MessageNames) | NotFound | Throws

  /** `text[from..^fromEnd]`, which throws when the two ends cross. */
  function Slice(text: string, from: nat, fromEnd: nat): Option<string> {
    if from + fromEnd <= |text| then Some(text[from..|text| - fromEnd]) else None
  }

  predicate StartsWith(text: string, prefix: string) {
    prefix <= text
  }

  predicate EndsWith(text: string, suffix: string) {
    |suffix| <= |text| && text[|text| - |suffix|..] == suffix
  }

  /**
   Takes a Monitor or Delete command apart again, if it is one. It never throws: the dot after the namespace keeps the
   two ends of the slice apart.
   */
  function FromCommandFullName(full: string, ns: string): (parsed: Parsed)
    ensures !parsed.Throws?
  {
    var namespacePrefix := ns + ".";
    if !StartsWith(full, namespacePrefix) || !EndsWith(full, COMMAND_SUFFIX) then NotFound
    else
      assert full[|ns|] == '.';
      match Slice(full, |namespacePrefix|, |COMMAND_SUFFIX|)
      case None => Throws
      case Some(name) =>
        var base := CommandBase(name);
        if base == "" then NotFound else Found(MessageNames(ns, GET_PREFIX + base))
  }

  /** The same for Set and Exec commands, whose one prefix is cut off together with the namespace. */
  function FromPrefixedCommandFullName(full: string, ns: string, kind: Kind): Parsed {
    var prefix := ns + "." + Prefix(kind);
    if !StartsWith(full, prefix) || !EndsWith(full, COMMAND_SUFFIX) then NotFound
    else
      match Slice(full, |prefix|, |COMMAND_SUFFIX|)
      case None => Throws
      case Some(base) => if base == "" then NotFound else Found(MessageNames(ns, GET_PREFIX + base))
  }

  /** A text has a given middle between two ends exactly when it is the three joined. */
  lemma MiddleIs(text: string, prefix: string, middle: string, suffix: string)
    ensures StartsWith(text, prefix) && EndsWith(text, suffix) && Slice(text, |prefix|, |suffix|) == Some(middle)
            <==> text == prefix + middle + suffix
  {
    if StartsWith(text, prefix) && EndsWith(text, suffix) && Slice(text, |prefix|, |suffix|) == Some(middle) {
      assert text == text[..|prefix|] + middle + text[|text| - |suffix|..];
    }
    if text == prefix + middle + suffix {
      assert text[..|prefix|] == prefix;
    }
  }

  /** The full name of a command other than Get, by its parts. */
  lemma FullNameShape(names: MessageNames, kind: Kind)
    requires names.Valid() && IsCommand(kind) && !kind.Get?
    ensures names.FullName(kind) == names.ns + "." + Prefix(kind) + names.Base() + COMMAND_SUFFIX
    ensures names.FullName(kind) == names.ns + "." + (Prefix(kind) + names.Base()) + COMMAND_SUFFIX
    ensures names == MessageNames(names.ns, GET_PREFIX + names.Base())
  {}

  /** What is left of a type name behind either of the two prefixes; nothing, behind neither. */
  function CommandBase(name: string): string {
    if StartsWith(name, Prefix(Monitor)) then name[|Prefix(Monitor)|..]
    else if StartsWith(name, Prefix(Delete)) then name[|Prefix(Delete)|..]
    else ""
  }

  lemma CommandBaseIs(name: string, base: string)
    requires base != ""
    ensures CommandBase(name) == base <==> name == Prefix(Monitor) + base || name == Prefix(Delete) + base
  {
    if name == Prefix(Delete) + base {
      assert name[0] == 'D' && name[|Prefix(Delete)|..] == base;
    }
    if name == Prefix(Monitor) + base {
      assert name[|Prefix(Monitor)|..] == base;
    }
  }

  /** The parser inverts the printer: it finds names exactly in the Monitor and Delete commands of those names. */
  lemma CommandParserInverts(full: string, ns: string, names: MessageNames)
    requires names.Valid()
    ensures FromCommandFullName(full, ns) == Found(names) <==>
            names.ns == ns && names.Base() != "" && (full == names.FullName(Monitor) || full == names.FullName(Delete))
  {
    var prefix, base := ns + ".", names.Base();
    FullNameShape(names, Monitor);
    FullNameShape(names, Delete);
    MiddleIs(full, prefix, Prefix(Monitor) + base, COMMAND_SUFFIX);
    MiddleIs(full, prefix, Prefix(Delete) + base, COMMAND_SUFFIX);
    var middle := Slice(full, |prefix|, |COMMAND_SUFFIX|);
    if middle.Some? && base != "" {
      CommandBaseIs(middle.value, base);
    }
  }

  /** The Set and Exec parsers find names exactly in the commands of those names. */
  lemma PrefixedParserInverts(full: string, ns: string, kind: Kind, names: MessageNames)
    requires (kind.Set? || kind.Exec?) && names.Valid()
    ensures FromPrefixedCommandFullName(full, ns, kind) == Found(names) <==>
            names.ns == ns && names.Base() != "" && full == names.FullName(kind)
  {
    FullNameShape(names, kind);
    MiddleIs(full, ns + "." + Prefix(kind), names.Base(), COMMAND_SUFFIX);
  }

  /**
   The Set and Exec parsers throw on exactly one text each, where the underscore of the prefix is also that of the
   suffix: `NS.Set_Command` and `NS.Exec_Command`.
   */
  lemma PrefixedParserThrows(full: string, ns: string, kind: Kind)
    requires kind.Set? || kind.Exec?
    ensures FromPrefixedCommandFullName(full, ns, kind).Throws? <==> full == ns + "." + Prefix(kind) + "Command"
  {
    if FromPrefixedCommandFullName(full, ns, kind).Throws? {
      ThrowsOnlyOn(full, ns + "." + Prefix(kind));
    }
    var text := ns + "." + Prefix(kind) + "Command";
    assert text[|text| - |COMMAND_SUFFIX|..] == COMMAND_SUFFIX;
  }

  /** A prefix ending in an underscore overlaps the suffix in that underscore or not at all. */
  lemma ThrowsOnlyOn(full: string, prefix: string)
    requires prefix != [] && prefix[|prefix| - 1] == '_'
    requires StartsWith(full, prefix) && EndsWith(full, COMMAND_SUFFIX) && |full| < |prefix| + |COMMAND_SUFFIX|
    ensures full == prefix + "Command"
  {
    var n := |COMMAND_SUFFIX|;
    var j := |prefix| - 1 - (|full| - n);
    assert full[|full| - n..][j] == full[|prefix| - 1] == '_';
    assert COMMAND_SUFFIX[1..] == "Command";
    assert full == full[..|prefix|] + full[|prefix|..];
  }

  // ------------------------------------------------------------------------------------------------------------
  // The names as they are spelled

  /** What the name of a message has around its base. */
  function Affixes(kind: Kind): (string, string) {
    match kind
    case Get => ("Get_", "_Command")
    case GetEvent => ("Get_", "_Event")
    case Monitor => ("Monitor_", "_Command")
    case Delete => ("Delete_", "_Command")
    case MonitorStatus => ("MonitorStatus_", "_Event")
    case Set => ("Set_", "_Command")
    case SetStatus => ("SetStatus_", "_Event")
    case Exec => ("Exec_", "_Command")
    case ExecResult => ("ExecResult_", "_Event")
  }

  lemma AffixesAre(kind: Kind)
    ensures Affixes(kind) == (Prefix(kind), Suffix(kind))
  {}

  /** What clients send, and are answered, for the node or method whose names end in `base`. */
  lemma Spelled(ns: string, base: string, kind: Kind)
    ensures var names := MessageNames(ns, "Get_" + base);
      && names.Valid() && names.Base() == base
      && names.FullName(kind) == ns + "." + Affixes(kind).0 + base + Affixes(kind).1
  {
    var names := MessageNames(ns, "Get_" + base);
    assert names.name[4..] == base;
    TypeNameShape(names, kind);
    AffixesAre(kind);
    assert ns + "." + (Prefix(kind) + base + Suffix(kind)) == ns + "." + Prefix(kind) + base + Suffix(kind);
  }

  /** And what the parsers make of those that are commands. */
  lemma ParsedAsSpelled(ns: string, base: string)
    requires base != ""
    ensures var found := Found(MessageNames(ns, "Get_" + base));
      && FromCommandFullName(ns + "." + "Monitor_" + base + "_Command", ns) == found
      && FromCommandFullName(ns + "." + "Delete_" + base + "_Command", ns) == found
      && FromPrefixedCommandFullName(ns + "." + "Set_" + base + "_Command", ns, Set) == found
      && FromPrefixedCommandFullName(ns + "." + "Exec_" + base + "_Command", ns, Exec) == found
  {
    var names := MessageNames(ns, "Get_" + base);
    Spelled(ns, base, Monitor);
    Spelled(ns, base, Delete);
    Spelled(ns, base, Set);
    Spelled(ns, base, Exec);
    CommandParserInverts(names.FullName(Monitor), ns, names);
    CommandParserInverts(names.FullName(Delete), ns, names);
    PrefixedParserInverts(names.FullName(Set), ns, Set, names);
    PrefixedParserInverts(names.FullName(Exec), ns, Exec, names);
  }
}
