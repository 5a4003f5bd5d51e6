/**
 The names structure DataTypes are published under. They are made from the NodeId as names of messages are, but nothing
 tells apart two that come out the same: here is exactly when two do.
 */
module StructureTypeNames {
  import opened Names
  import opened OpcUaNaming

  datatype IdType = Numeric | Text | Guid | Opaque

  /** A NodeId, by its namespace and what is written of its identifier. */
  datatype NodeId = NodeId(index: nat, idType: IdType, identifier: string)

  function Letter(idType: IdType): char {
    match idType
    case Numeric => 'i'
    case Text => 's'
    case Guid => 'g'
    case Opaque => 'b'
  }

  /** The standard notation; the namespace of index 0 is left out. */
  function Written(node: NodeId): string {
    (if node.index == 0 then "" else "ns=" + Decimal(node.index) + ";") + [Letter(node.idType)] + "=" + node.identifier
  }

  function Head(node: NodeId): string {
    "ns" + Decimal(node.index) + "_" + [Letter(node.idType)] + "_"
  }

  function BaseText(node: NodeId): (text: string)
    ensures IsName(text)
  {
    Head(node) + Sanitized(node.identifier)
  }

  const TYPES := ".Types"

  function MaxTypeNameLength(exchangeName: string, hash: string -> Hash): (length: nat)
    ensures length >= 88
  {
    MAX_FULL_NAME_LENGTH - |MessageNamespace(exchangeName, hash) + TYPES| - 1
  }

  /** Namespace and name of a structure type, which with the dot between them are no longer than a full name may be. */
  function ToStructureTypeNames(exchangeName: string, node: NodeId, hash: string -> Hash): (names: (string, string))
    ensures |names.0| + 1 + |names.1| <= MAX_FULL_NAME_LENGTH
  {
    (MessageNamespace(exchangeName, hash) + TYPES,
     Fit(BaseText(node), MaxTypeNameLength(exchangeName, hash), hash(Written(node))))
  }

  // ------------------------------------------------------------------------------------------------------------
  // Which nodes share a text

  /** Two nodes that differ at most in characters that no name can hold. */
  predicate SameButForSanitizing(a: NodeId, b: NodeId) {
    a.index == b.index && a.idType == b.idType && Sanitized(a.identifier) == Sanitized(b.identifier)
  }

  /** Digits end where the first other character is. */
  lemma DigitsEnd(a: string, b: string, restA: string, restB: string)
    requires (forall i :: 0 <= i < |a| ==> '0' <= a[i] <= '9') && forall i :: 0 <= i < |b| ==> '0' <= b[i] <= '9'
    requires restA != "" && restB != "" && !('0' <= restA[0] <= '9') && !('0' <= restB[0] <= '9')
    requires a + restA == b + restB
    ensures a == b && restA == restB
  {
    var whole := a + restA;
    assert whole[|a|] == restA[0] && (b + restB)[|b|] == restB[0];
    assert whole[..|a|] == a && (b + restB)[..|b|] == b && whole[|a|..] == restA && (b + restB)[|b|..] == restB;
  }

  function Tail(node: NodeId): string {
    "_" + [Letter(node.idType)] + "_" + Sanitized(node.identifier)
  }

  lemma BaseTextParts(node: NodeId)
    ensures BaseText(node) == "ns" + (Decimal(node.index) + Tail(node))
    ensures Tail(node)[0] == '_' && Tail(node)[1] == Letter(node.idType)
    ensures Tail(node)[3..] == Sanitized(node.identifier)
  {}

  /** A base text says everything of its node but which characters were sanitized away. */
  lemma SameTextIff(a: NodeId, b: NodeId)
    ensures BaseText(a) == BaseText(b) <==> SameButForSanitizing(a, b)
  {
    BaseTextParts(a);
    BaseTextParts(b);
    if BaseText(a) == BaseText(b) {
      assert BaseText(a)[2..] == Decimal(a.index) + Tail(a) && BaseText(b)[2..] == Decimal(b.index) + Tail(b);
      DigitsEnd(Decimal(a.index), Decimal(b.index), Tail(a), Tail(b));
      DecimalInjective(a.index, b.index);
    }
  }

  /** What is written of a node after the number of its namespace. */
  function Unnumbered(node: NodeId): string {
    ";" + [Letter(node.idType)] + "=" + node.identifier
  }

  lemma UnnumberedApart(a: NodeId, b: NodeId)
    requires Unnumbered(a) == Unnumbered(b)
    ensures a.idType == b.idType && a.identifier == b.identifier
  {
    assert Unnumbered(a)[1] == Letter(a.idType) && Unnumbered(b)[1] == Letter(b.idType);
    assert Unnumbered(a)[3..] == a.identifier && Unnumbered(b)[3..] == b.identifier;
  }

  lemma NumberedApart(a: NodeId, b: NodeId)
    requires a.index != 0 && b.index != 0 && Written(a) == Written(b)
    ensures a == b
  {
    assert Written(a)[3..] == Decimal(a.index) + Unnumbered(a) && Written(b)[3..] == Decimal(b.index) + Unnumbered(b);
    DigitsEnd(Decimal(a.index), Decimal(b.index), Unnumbered(a), Unnumbered(b));
    DecimalInjective(a.index, b.index);
    UnnumberedApart(a, b);
  }

  /** Nodes are written differently, so what a name is hashed from tells them all apart. */
  lemma WrittenApart(a: NodeId, b: NodeId)
    requires Written(a) == Written(b)
    ensures a == b
  {
    if a.index != 0 && b.index != 0 {
      NumberedApart(a, b);
    } else if a.index == 0 && b.index == 0 {
      assert Written(a)[0] == Letter(a.idType) && Written(b)[0] == Letter(b.idType);
      assert Written(a)[2..] == a.identifier && Written(b)[2..] == b.identifier;
    } else {
      WrittenBegins(a);
      WrittenBegins(b);
    }
  }

  lemma WrittenBegins(node: NodeId)
    ensures Written(node) != "" && Written(node)[0] == if node.index == 0 then Letter(node.idType) else 'n'
  {}

  // ------------------------------------------------------------------------------------------------------------
  // Which nodes share a name

  predicate IsCutShort(exchangeName: string, node: NodeId, hash: string -> Hash) {
    |BaseText(node)| > MaxTypeNameLength(exchangeName, hash)
  }

  /** What is kept of a text that is cut short. */
  function Kept(exchangeName: string, node: NodeId, hash: string -> Hash): string
    requires IsCutShort(exchangeName, node, hash)
  {
    BaseText(node)[..MaxTypeNameLength(exchangeName, hash) - HASH_SUFFIX_LENGTH]
  }

  lemma CutShortApart(kept: string, kept': string, h: Hash, h': Hash)
    requires |kept| == |kept'|
    ensures kept + "_" + h == kept' + "_" + h' <==> kept == kept' && h == h'
  {
    var whole, whole' := kept + "_" + h, kept' + "_" + h';
    assert whole[..|kept|] == kept && whole'[..|kept'|] == kept';
    assert whole[|kept| + 1..] == h && whole'[|kept'| + 1..] == h';
  }

  /**
   Two structure types have one name exactly when nothing but sanitizing sets their NodeIds apart, if the names are not
   cut short; if both are, exactly when what is kept of them and the hashes of their NodeIds agree; and if one is,
   exactly when the other's whole text happens to be what this one was made into.
   */
  lemma SameNameIff(exchangeName: string, a: NodeId, b: NodeId, hash: string -> Hash)
    ensures ToStructureTypeNames(exchangeName, a, hash) == ToStructureTypeNames(exchangeName, b, hash) <==>
      match (IsCutShort(exchangeName, a, hash), IsCutShort(exchangeName, b, hash))
      case (false, false) => SameButForSanitizing(a, b)
      case (true, true) =>
        Kept(exchangeName, a, hash) == Kept(exchangeName, b, hash) && hash(Written(a)) == hash(Written(b))
      case (true, false) => BaseText(b) == Kept(exchangeName, a, hash) + "_" + hash(Written(a))
      case (false, true) => BaseText(a) == Kept(exchangeName, b, hash) + "_" + hash(Written(b))
  {
    SameTextIff(a, b);
    if IsCutShort(exchangeName, a, hash) && IsCutShort(exchangeName, b, hash) {
      CutShortApart(Kept(exchangeName, a, hash), Kept(exchangeName, b, hash), hash(Written(a)), hash(Written(b)));
    }
  }

  lemma WrittenOut(identifier: string)
    ensures Written(NodeId(2, Text, identifier)) == "ns=2;s=" + identifier
  {
    assert Decimal(2) == "2";
    assert "ns=" + "2" + ";" + ['s'] + "=" == "ns=2;s=";
  }

  lemma BothSanitized()
    ensures Sanitized("A-B") == Sanitized("A_B")
  {
    var a, b := "A-B", "A_B";
    assert a[0] == b[0] == 'A' && a[1] == '-' && b[1] == '_' && a[2] == b[2] == 'B';
  }

  /** It happens on every exchange: two different NodeIds whose structures are published under one name. */
  lemma NamesMeet(exchangeName: string, hash: string -> Hash)
    ensures var a, b := NodeId(2, Text, "A-B"), NodeId(2, Text, "A_B");
      && Written(a) == "ns=2;s=" + "A-B" && Written(b) == "ns=2;s=" + "A_B" && a != b
      && ToStructureTypeNames(exchangeName, a, hash) == ToStructureTypeNames(exchangeName, b, hash)
  {
    WrittenOut("A-B");
    WrittenOut("A_B");
    BothSanitized();
    assert "A-B"[1] != "A_B"[1];
    SameNameIff(exchangeName, NodeId(2, Text, "A-B"), NodeId(2, Text, "A_B"), hash);
  }

  /** The names as they are spelled, and what a name that is cut short ends in. */
  lemma TypeNamesText(exchangeName: string, node: NodeId, hash: string -> Hash)
    ensures var letter := match node.idType case Numeric => "i" case Text => "s" case Guid => "g" case Opaque => "b";
      var names := ToStructureTypeNames(exchangeName, node, hash);
      var text := "ns" + Decimal(node.index) + "_" + letter + "_" + Sanitized(node.identifier);
      var written := (if node.index == 0 then "" else "ns=" + Decimal(node.index) + ";") + letter + "="
        + node.identifier;
      && names.0 == MessageNamespace(exchangeName, hash) + ".Types"
      && if |names.0| + |text| <= 254 then names.1 == text
         else |names.0| + |names.1| == 254 && names.1[|names.1| - 9..] == "_" + hash(written)
              && names.1[..|names.1| - 9] == text[..|names.1| - 9]
  {
    var letter := match node.idType case Numeric => "i" case Text => "s" case Guid => "g" case Opaque => "b";
    assert [Letter(node.idType)] == letter;
  }
}
