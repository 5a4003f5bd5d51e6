/**
 What the bytes of a value are, and what bytes say, with every width, bound and marker written out: the format the
 encoder and the decoder of structured values have to agree on with the server, not only with each other.
 */
module CodecFormat {
  import opened Options
  import opened StructureLayouts
  import opened StructureCodec

  // ------------------------------------------------------------------------------------------------------------
  // Integers

  const UNITS: seq<nat> := [1, 0x100, 0x1_0000, 0x100_0000, 0x1_0000_0000, 0x100_0000_0000, 0x1_0000_0000_0000,
                            0x100_0000_0000_0000]

  /** Two's complement, least byte first: each byte is a digit of the number to base 256. */
  predicate Spells(b: Bytes, i: int) {
    |b| <= 8 && forall k :: 0 <= k < |b| ==> b[k] == i / UNITS[k] % 256
  }

  datatype IntegerType = IntegerType(width: nat, least: int, greatest: int) {
    predicate Holds(i: int) {
      least <= i <= greatest
    }
  }

  function IntegerTypeOf(builtIn: BuiltInType): Option<IntegerType> {
    match builtIn
    case SByte => Some(IntegerType(1, -128, 127))
    case Byte => Some(IntegerType(1, 0, 255))
    case Int16 => Some(IntegerType(2, -32768, 32767))
    case UInt16 => Some(IntegerType(2, 0, 65535))
    case Int32 => Some(IntegerType(4, -2147483648, 2147483647))
    case Enumeration => Some(IntegerType(4, -2147483648, 2147483647))
    case UInt32 => Some(IntegerType(4, 0, 4294967295))
    case StatusCode => Some(IntegerType(4, 0, 4294967295))
    case Int64 => Some(IntegerType(8, -9223372036854775808, 9223372036854775807))
    case UInt64 => Some(IntegerType(8, 0, 18446744073709551615))
    case _ => None
  }

  lemma UnitIs(k: nat)
    requires k < 8
    ensures Pow256(k) == UNITS[k]
  {
    if k > 0 {
      UnitIs(k - 1);
      assert UNITS[k] == 256 * UNITS[k - 1];
    }
  }

  lemma ShapeBounds(builtIn: BuiltInType, i: int)
    ensures match IntegerTypeOf(builtIn)
            case None => IntegerShape(builtIn).None?
            case Some(integer) =>
              && IntegerShape(builtIn).Some? && IntegerShape(builtIn).value.0 == integer.width <= 8
              && (InRange(i, integer.width, IntegerShape(builtIn).value.1) <==> integer.Holds(i))
  {
    assert Pow256(1) == 256 && Pow256(2) == 0x1_0000;
    UnitIs(4);
    UnitIs(7);
  }

  lemma RemainderInTurn(i: int, d: nat)
    requires d > 0
    ensures i % (256 * d) / 256 == i / 256 % d && i % (256 * d) % 256 == i % 256
  {
    var m, s := i / 256, i % 256;
    var q, r := m / d, m % d;
    assert m == q * d + r;
    assert q * (256 * d) == 256 * (q * d);
    assert 256 * r <= 256 * (d - 1);
    QuotientUnique(i, 256 * d, q, 256 * r + s);
    assert i == i / (256 * d) * (256 * d) + i % (256 * d);
  }

  lemma {:induction false} IntByteAt(i: int, width: nat, k: nat)
    requires k < width
    ensures IntToBytes(i, width)[k] == i / Pow256(k) % 256
    decreases width
  {
    RemainderInTurn(i, Pow256(width - 1));
    assert IntToBytes(i, width) == [i % 256] + IntToBytes(i / 256, width - 1);
    if k > 0 {
      IntByteAt(i / 256, width - 1, k - 1);
      DivideInTurn(i, Pow256(k - 1));
    }
  }

  /** There is one way to spell a number in so many bytes. */
  lemma SpelledIs(b: Bytes, i: int)
    requires |b| <= 8
    ensures Spells(b, i) <==> b == IntToBytes(i, |b|)
  {
    forall k | 0 <= k < |b| ensures IntToBytes(i, |b|)[k] == i / UNITS[k] % 256 {
      IntByteAt(i, |b|, k);
      UnitIs(k);
    }
  }

  // ------------------------------------------------------------------------------------------------------------
  // What a built-in value is written as

  /** An Int32 that says how many there are, and then they. */
  predicate LengthPrefixed(b: Bytes, bytes: Bytes) {
    |b| == 4 + |bytes| && Spells(b[..4], |bytes|) && b[4..] == bytes
  }

  predicate IsNumber(value: Json) {
    value.Int? || value.Real?
  }

  /** The double a number stands for. */
  function Number(cx: Context, value: Json): Bytes8
    requires IsNumber(value)
  {
    if value.Int? then cx.doubleOfInt(value.i) else value.double
  }

  predicate BuiltInIs(cx: Context, value: Json, builtIn: BuiltInType, b: Bytes) {
    match IntegerTypeOf(builtIn)
    case Some(integer) => value.Int? && integer.Holds(value.i) && |b| == integer.width && Spells(b, value.i)
    case None =>
      match builtIn
      case Boolean => value.Bool? && b == if value.b then [1] else [0]
      case Float => IsNumber(value) && cx.FitsFloat(Number(cx, value)) && b == cx.narrow(Number(cx, value))
      case Double => IsNumber(value) && cx.Finite(Number(cx, value)) && b == Number(cx, value)
      case String => value.Str? && LengthPrefixed(b, cx.utf8(value.text))
      case DateTime => value.Str? && var date := cx.parseDate(value.text); date.Some? && b == date.value
      case Guid => value.Str? && var guid := cx.parseGuid(value.text); guid.Some? && b == guid.value
      case ByteString =>
        value.Str? && var bytes := cx.parseBase64(value.text); bytes.Some? && LengthPrefixed(b, bytes.value)
      case _ => false
  }

  /** A number its type cannot hold. */
  predicate TooLarge(cx: Context, value: Json, builtIn: BuiltInType) {
    match IntegerTypeOf(builtIn)
    case Some(integer) => value.Int? && !integer.Holds(value.i)
    case None =>
      && (builtIn.Float? || builtIn.Double?) && IsNumber(value) && !cx.isNaN(Number(cx, value))
      && (cx.isInfinite(Number(cx, value)) || (builtIn.Float? && cx.exceedsFloat(Number(cx, value))))
  }

  lemma PrefixSpells(length: nat, bytes: Bytes, b: Bytes)
    requires length == |bytes|
    ensures b == WriteInt32(length) + bytes <==> LengthPrefixed(b, bytes)
  {
    if |b| == 4 + |bytes| {
      SpelledIs(b[..4], length);
      assert b == b[..4] + b[4..];
    }
  }

  lemma IntegerBytes(cx: Context, value: Json, builtIn: BuiltInType, b: Bytes)
    requires IntegerTypeOf(builtIn).Some?
    ensures EncodeBuiltIn(cx, value, builtIn) == Ok(b) <==> BuiltInIs(cx, value, builtIn, b)
    ensures EncodeBuiltIn(cx, value, builtIn) == Refused(BadOutOfRange) <==> TooLarge(cx, value, builtIn)
  {
    var i := if value.Int? then value.i else 0;
    ShapeBounds(builtIn, i);
    if |b| <= 8 { SpelledIs(b, i); }
  }

  lemma TextBytes(cx: Context, value: Json, builtIn: BuiltInType, b: Bytes)
    requires builtIn.String? || builtIn.ByteString?
    ensures EncodeBuiltIn(cx, value, builtIn) == Ok(b) <==> BuiltInIs(cx, value, builtIn, b)
  {
    if value.Str? {
      PrefixSpells(|cx.utf8(value.text)|, cx.utf8(value.text), b);
      if cx.parseBase64(value.text).Some? {
        PrefixSpells(|cx.parseBase64(value.text).value|, cx.parseBase64(value.text).value, b);
      }
    }
  }

  /** A built-in value is written as exactly these bytes, and refused as too large exactly if it is a number that is. */
  lemma BuiltInBytes(cx: Context, value: Json, builtIn: BuiltInType, b: Bytes)
    ensures EncodeBuiltIn(cx, value, builtIn) == Ok(b) <==> BuiltInIs(cx, value, builtIn, b)
    ensures EncodeBuiltIn(cx, value, builtIn) == Refused(BadOutOfRange) <==> TooLarge(cx, value, builtIn)
  {
    if IntegerTypeOf(builtIn).Some? {
      IntegerBytes(cx, value, builtIn, b);
    } else if builtIn.String? || builtIn.ByteString? {
      TextBytes(cx, value, builtIn, b);
    }
  }

  /** Just these types can be written at all; a value of any other is always of the wrong kind. */
  lemma SupportedAre(cx: Context, value: Json, builtIn: BuiltInType)
    ensures IsSupported(builtIn) <==>
      || IntegerTypeOf(builtIn).Some? || builtIn.Boolean? || builtIn.Float? || builtIn.Double? || builtIn.String?
      || builtIn.DateTime? || builtIn.Guid? || builtIn.ByteString?
    ensures !IsSupported(builtIn) ==> EncodeBuiltIn(cx, value, builtIn) == Refused(BadTypeMismatch)
  {
    BuiltInBytes(cx, value, builtIn, []);
  }

  // ------------------------------------------------------------------------------------------------------------
  // What a structure is written as

  function Joined(parts: seq<Bytes>): Bytes {
    if parts == [] then [] else parts[0] + Joined(parts[1..])
  }

  ghost predicate AllWritten(parts: seq<Outcome<Bytes>>) {
    forall k :: 0 <= k < |parts| ==> parts[k].Ok?
  }

  ghost function Written(parts: seq<Outcome<Bytes>>): seq<Bytes>
    requires AllWritten(parts)
  {
    seq(|parts|, k requires 0 <= k < |parts| => parts[k].value)
  }

  ghost predicate FirstRefused(parts: seq<Outcome<Bytes>>, k: nat) {
    k < |parts| && parts[k].Refused? && forall j :: 0 <= j < k ==> parts[j].Ok?
  }

  /** The parts one after another, or the first refusal. */
  ghost predicate InTurn(parts: seq<Outcome<Bytes>>, outcome: Outcome<Bytes>) {
    if AllWritten(parts) then outcome == Ok(Joined(Written(parts)))
    else exists k: nat :: FirstRefused(parts, k) && outcome == parts[k]
  }

  const NULL_BYTES: Bytes := [0xFF, 0xFF, 0xFF, 0xFF]

  /** A structure is its fields in the order of its layout, without anything between them. */
  ghost predicate StructureGives(cx: Context, layouts: Layouts, value: Json, id: LayoutId, outcome: Outcome<Bytes>)
    requires Closed(layouts) && id in layouts
    decreases value, 1
  {
    if !value.Obj? || exists name :: name in value.props && !HasField(layouts[id].fields, name) then
      outcome == Refused(BadTypeMismatch)
    else FieldsGive(cx, layouts, value, id, outcome)
  }

  ghost predicate FieldsGive(cx: Context, layouts: Layouts, value: Json, id: LayoutId, outcome: Outcome<Bytes>)
    requires Closed(layouts) && id in layouts && value.Obj?
    decreases value, 0, 1
  {
    exists parts: seq<Outcome<Bytes>> ::
      && InTurn(parts, outcome) && |parts| == |layouts[id].fields|
      && forall k :: 0 <= k < |parts| ==> FieldGives(cx, layouts, value, layouts[id].fields[k], parts[k])
  }

  /** Only arrays, Strings and ByteStrings may be missing, or null. */
  ghost predicate FieldGives(cx: Context, layouts: Layouts, value: Json, field: Field, outcome: Outcome<Bytes>)
    requires Closed(layouts) && RefersInto(layouts, field) && value.Obj?
    decreases value, 0, 0
  {
    if field.name in value.props && !value.props[field.name].Null? then
      GivenGives(cx, layouts, value.props[field.name], field, outcome)
    else if field.isArray || (field.structure.None? && (field.builtIn.String? || field.builtIn.ByteString?)) then
      outcome == Ok(NULL_BYTES)
    else outcome == Refused(BadTypeMismatch)
  }

  /** An array is its length as an Int32 and its elements in order; an array of Bytes may also be given as base64. */
  ghost predicate GivenGives(cx: Context, layouts: Layouts, value: Json, field: Field, outcome: Outcome<Bytes>)
    requires Closed(layouts) && RefersInto(layouts, field)
    decreases value, 3
  {
    if !field.isArray then ScalarGives(cx, layouts, value, field, outcome)
    else if field.structure.None? && field.builtIn.Byte? && value.Str? then
      match cx.parseBase64(value.text)
      case None => outcome == Refused(BadTypeMismatch)
      case Some(bytes) => outcome.Ok? && LengthPrefixed(outcome.value, bytes)
    else if !value.Arr? then outcome == Refused(BadTypeMismatch)
    else
      exists items: Outcome<Bytes> ::
        && ItemsGive(cx, layouts, value, field, items)
        && if items.Refused? then outcome == items
           else
             outcome.Ok? && |outcome.value| >= 4 && Spells(outcome.value[..4], |value.items|)
             && outcome.value[4..] == items.value
  }

  ghost predicate ItemsGive(cx: Context, layouts: Layouts, value: Json, field: Field, outcome: Outcome<Bytes>)
    requires Closed(layouts) && RefersInto(layouts, field) && value.Arr?
    decreases value, 0
  {
    exists parts: seq<Outcome<Bytes>> ::
      && InTurn(parts, outcome) && |parts| == |value.items|
      && forall k :: 0 <= k < |parts| ==> ScalarGives(cx, layouts, value.items[k], field, parts[k])
  }

  ghost predicate ScalarGives(cx: Context, layouts: Layouts, value: Json, field: Field, outcome: Outcome<Bytes>)
    requires Closed(layouts) && RefersInto(layouts, field)
    decreases value, 2
  {
    match field.structure
    case Some(id) => StructureGives(cx, layouts, value, id, outcome)
    case None =>
      match outcome
      case Ok(b) => BuiltInIs(cx, value, field.builtIn, b)
      case Refused(why) =>
        && (forall b :: !BuiltInIs(cx, value, field.builtIn, b))
        && (why.BadOutOfRange? <==> TooLarge(cx, value, field.builtIn))
  }

  lemma InTurnOnce(parts: seq<Outcome<Bytes>>, a: Outcome<Bytes>, given: seq<Outcome<Bytes>>, b: Outcome<Bytes>)
    requires InTurn(parts, a) && InTurn(given, b)
    requires |given| == |parts| && forall k :: 0 <= k < |parts| ==> given[k] == parts[k]
    ensures a == b
  {
    assert given == parts;
    if !AllWritten(parts) {
      var j: nat :| FirstRefused(parts, j) && a == parts[j];
      var k: nat :| FirstRefused(parts, k) && b == parts[k];
      assert j == k;
    }
  }

  lemma InTurnStep(first: Outcome<Bytes>, parts: seq<Outcome<Bytes>>, rest: Outcome<Bytes>)
    requires InTurn(parts, rest)
    ensures InTurn([first] + parts, Sequence(first, rest))
  {
    var all := [first] + parts;
    if first.Refused? {
      assert FirstRefused(all, 0) && !all[0].Ok?;
    } else if AllWritten(parts) {
      assert AllWritten(all) && Written(all) == [first.value] + Written(parts);
    } else {
      var k: nat :| FirstRefused(parts, k) && rest == parts[k];
      assert all[k + 1] == parts[k] && forall j :: 1 <= j <= k ==> all[j] == parts[j - 1];
      assert FirstRefused(all, k + 1);
    }
  }

  /**
   What a structure is written as, or why it is refused, is what its layout says, for every value and every layout.
   */
  lemma {:induction false} StructureBytes(cx: Context, layouts: Layouts, value: Json, id: LayoutId,
                                          outcome: Outcome<Bytes>)
    requires Closed(layouts) && id in layouts
    ensures EncodeStructure(cx, layouts, value, id) == outcome <==> StructureGives(cx, layouts, value, id, outcome)
    decreases value, 1
  {
    if value.Obj? { FieldsBytes(cx, layouts, value, id, outcome); }
  }

  lemma {:induction false} FieldsBytes(cx: Context, layouts: Layouts, value: Json, id: LayoutId,
                                       outcome: Outcome<Bytes>)
    requires Closed(layouts) && id in layouts && value.Obj?
    ensures EncodeFieldsFrom(cx, layouts, value, id, 0) == outcome <==> FieldsGive(cx, layouts, value, id, outcome)
    decreases value, 0, 1
  {
    var n := |layouts[id].fields|;
    var parts := seq(n, k requires 0 <= k < n => EncodeField(cx, layouts, value, layouts[id].fields[k]));
    forall k, o | 0 <= k < n ensures FieldGives(cx, layouts, value, layouts[id].fields[k], o) <==> parts[k] == o {
      FieldBytes(cx, layouts, value, layouts[id].fields[k], o);
    }
    FieldsInTurn(cx, layouts, value, id, 0, parts);
    assert parts[0..] == parts;
    if FieldsGive(cx, layouts, value, id, outcome) {
      var given: seq<Outcome<Bytes>> :| InTurn(given, outcome) && |given| == n
        && forall k :: 0 <= k < n ==> FieldGives(cx, layouts, value, layouts[id].fields[k], given[k]);
      InTurnOnce(parts, EncodeFieldsFrom(cx, layouts, value, id, 0), given, outcome);
    }
  }

  ghost function EncodeField(cx: Context, layouts: Layouts, value: Json, field: Field): Outcome<Bytes>
    requires Closed(layouts) && RefersInto(layouts, field) && value.Obj?
  {
    var given := Given(value, field.name);
    if given.Null? then EncodeNull(field) else EncodeGiven(cx, layouts, given, field)
  }

  lemma {:induction false} FieldsInTurn(cx: Context, layouts: Layouts, value: Json, id: LayoutId, k: nat,
                                        parts: seq<Outcome<Bytes>>)
    requires Closed(layouts) && id in layouts && value.Obj? && k <= |parts| == |layouts[id].fields|
    requires forall j :: 0 <= j < |parts| ==> parts[j] == EncodeField(cx, layouts, value, layouts[id].fields[j])
    ensures InTurn(parts[k..], EncodeFieldsFrom(cx, layouts, value, id, k))
    decreases |parts| - k
  {
    if k == |parts| {
      assert Written(parts[k..]) == [];
    } else {
      FieldsInTurn(cx, layouts, value, id, k + 1, parts);
      InTurnStep(parts[k], parts[k + 1..], EncodeFieldsFrom(cx, layouts, value, id, k + 1));
      assert parts[k..] == [parts[k]] + parts[k + 1..];
    }
  }

  lemma NullBytes()
    ensures WriteInt32(NULL_LENGTH) == NULL_BYTES
  {
    SpelledIs(NULL_BYTES, -1);
  }

  lemma {:induction false} FieldBytes(cx: Context, layouts: Layouts, value: Json, field: Field, outcome: Outcome<Bytes>)
    requires Closed(layouts) && RefersInto(layouts, field) && value.Obj?
    ensures EncodeField(cx, layouts, value, field) == outcome <==> FieldGives(cx, layouts, value, field, outcome)
    decreases value, 0, 0
  {
    NullBytes();
    if field.name in value.props && !value.props[field.name].Null? {
      GivenBytes(cx, layouts, value.props[field.name], field, outcome);
    }
  }

  lemma {:induction false} GivenBytes(cx: Context, layouts: Layouts, value: Json, field: Field, outcome: Outcome<Bytes>)
    requires Closed(layouts) && RefersInto(layouts, field)
    ensures EncodeGiven(cx, layouts, value, field) == outcome <==> GivenGives(cx, layouts, value, field, outcome)
    decreases value, 3
  {
    if !field.isArray {
      ScalarBytes(cx, layouts, value, field, outcome);
    } else if field.structure.None? && field.builtIn.Byte? && value.Str? {
      var bytes := cx.parseBase64(value.text);
      if bytes.Some? && outcome.Ok? { PrefixSpells(|bytes.value|, bytes.value, outcome.value); }
    } else if value.Arr? {
      var items := EncodeItemsFrom(cx, layouts, value, field, 0);
      forall o ensures ItemsGive(cx, layouts, value, field, o) <==> items == o {
        ItemsBytes(cx, layouts, value, field, o);
      }
      if outcome.Ok? && |outcome.value| >= 4 {
        SpelledIs(outcome.value[..4], |value.items|);
        assert outcome.value == outcome.value[..4] + outcome.value[4..];
      }
      assert ItemsGive(cx, layouts, value, field, items);
    }
  }

  lemma {:induction false} ItemsBytes(cx: Context, layouts: Layouts, value: Json, field: Field, outcome: Outcome<Bytes>)
    requires Closed(layouts) && RefersInto(layouts, field) && value.Arr?
    ensures EncodeItemsFrom(cx, layouts, value, field, 0) == outcome <==> ItemsGive(cx, layouts, value, field, outcome)
    decreases value, 0
  {
    var n := |value.items|;
    var parts := seq(n, k requires 0 <= k < n => EncodeScalar(cx, layouts, value.items[k], field));
    forall k, o | 0 <= k < n ensures ScalarGives(cx, layouts, value.items[k], field, o) <==> parts[k] == o {
      ScalarBytes(cx, layouts, value.items[k], field, o);
    }
    ItemsInTurn(cx, layouts, value, field, 0, parts);
    assert parts[0..] == parts;
    if ItemsGive(cx, layouts, value, field, outcome) {
      var given: seq<Outcome<Bytes>> :| InTurn(given, outcome) && |given| == n
        && forall k :: 0 <= k < n ==> ScalarGives(cx, layouts, value.items[k], field, given[k]);
      InTurnOnce(parts, EncodeItemsFrom(cx, layouts, value, field, 0), given, outcome);
    }
  }

  lemma {:induction false} ItemsInTurn(cx: Context, layouts: Layouts, value: Json, field: Field, k: nat,
                                       parts: seq<Outcome<Bytes>>)
    requires Closed(layouts) && RefersInto(layouts, field) && value.Arr? && k <= |parts| == |value.items|
    requires forall j :: 0 <= j < |parts| ==> parts[j] == EncodeScalar(cx, layouts, value.items[j], field)
    ensures InTurn(parts[k..], EncodeItemsFrom(cx, layouts, value, field, k))
    decreases |parts| - k
  {
    if k == |parts| {
      assert Written(parts[k..]) == [];
    } else {
      ItemsInTurn(cx, layouts, value, field, k + 1, parts);
      InTurnStep(parts[k], parts[k + 1..], EncodeItemsFrom(cx, layouts, value, field, k + 1));
      assert parts[k..] == [parts[k]] + parts[k + 1..];
    }
  }

  lemma {:induction false} ScalarBytes(cx: Context, layouts: Layouts, value: Json, field: Field,
                                       outcome: Outcome<Bytes>)
    requires Closed(layouts) && RefersInto(layouts, field)
    ensures EncodeScalar(cx, layouts, value, field) == outcome <==> ScalarGives(cx, layouts, value, field, outcome)
    decreases value, 2
  {
    match field.structure {
      case Some(id) => StructureBytes(cx, layouts, value, id, outcome);
      case None =>
        var encoded := EncodeBuiltIn(cx, value, field.builtIn);
        forall b ensures encoded == Ok(b) <==> BuiltInIs(cx, value, field.builtIn, b) {
          BuiltInBytes(cx, value, field.builtIn, b);
        }
        BuiltInBytes(cx, value, field.builtIn, []);
        if encoded.Ok? { assert BuiltInIs(cx, value, field.builtIn, encoded.value); }
    }
  }

  // ------------------------------------------------------------------------------------------------------------
  // What bytes say

  /**
   A length-prefixed run of bytes, of which a length below zero, and so one whose highest bit is set, says there is
   none.
   */
  predicate TextSays(b: Bytes, text: Option<Bytes>) {
    match text
    case None => |b| == 4 && b[3] >= 128
    case Some(bytes) => |bytes| < 0x8000_0000 && LengthPrefixed(b, bytes)
  }

  ghost predicate BuiltInSays(cx: Context, builtIn: BuiltInType, b: Bytes, value: Json) {
    match IntegerTypeOf(builtIn)
    case Some(integer) => |b| == integer.width && value.Int? && integer.Holds(value.i) && Spells(b, value.i)
    case None =>
      match builtIn
      case Boolean => |b| == 1 && value == Bool(b[0] != 0)
      case Float => |b| == 4 && value == Real(cx.widen(b))
      case Double => |b| == 8 && value == Real(b)
      case DateTime => |b| == 8 && value == Str(cx.printDate(b))
      case Guid => |b| == 16 && value == Str(cx.printGuid(b))
      case String =>
        exists text :: TextSays(b, text) && value == if text.None? then Null else Str(cx.fromUtf8(text.value))
      case ByteString =>
        exists text :: TextSays(b, text) && value == if text.None? then Null else Str(cx.printBase64(text.value))
      case _ => false
  }

  lemma IntegerSays(builtIn: BuiltInType, b: Bytes, i: int)
    requires IntegerTypeOf(builtIn).Some? && |b| == IntegerTypeOf(builtIn).value.width
    ensures IntegerShape(builtIn).Some? && |b| <= 8
    ensures IntFromBytes(b, IntegerShape(builtIn).value.1) == i <==>
      IntegerTypeOf(builtIn).value.Holds(i) && Spells(b, i)
  {
    ShapeBounds(builtIn, i);
    var signed := IntegerShape(builtIn).value.1;
    SpelledIs(b, i);
    if Spells(b, i) && IntegerTypeOf(builtIn).value.Holds(i) {
      IntRoundTrip(i, |b|, signed);
    }
    if IntFromBytes(b, signed) == i {
      IntFromBytesInRange(b, signed);
      IntToBytesBack(b, signed);
    }
  }

  lemma {:induction false} ToBytesBack(b: Bytes)
    ensures ToBytes(FromBytes(b), |b|) == b
  {
    if b != [] {
      ToBytesBack(b[1..]);
      assert FromBytes(b) % 256 == b[0] && FromBytes(b) / 256 == FromBytes(b[1..]);
    }
  }

  lemma IntToBytesBack(b: Bytes, signed: bool)
    ensures IntToBytes(IntFromBytes(b, signed), |b|) == b
  {
    FromBytesBound(b);
    ToBytesBack(b);
    var i, p := IntFromBytes(b, signed), Pow256(|b|);
    if i < 0 { ModNegative(i, p); } else { ModSmall(i, p); }
  }

  lemma LengthSays(b: Bytes)
    requires |b| == 4
    ensures var length := IntFromBytes(b, true);
      && -0x8000_0000 <= length < 0x8000_0000 && (length < 0 <==> b[3] >= 128)
      && (forall n: nat :: n < 0x8000_0000 ==> (length == n <==> Spells(b, n)))
  {
    var length := IntFromBytes(b, true);
    IntegerSays(Int32, b, length);
    assert b[3] == length / 0x100_0000 % 256;
    forall n: nat | n < 0x8000_0000 ensures length == n <==> Spells(b, n) {
      IntegerSays(Int32, b, n);
    }
  }

  lemma SomeTextReads(b: Bytes, n: nat, bytes: Bytes)
    requires 4 <= n <= |b|
    ensures ReadLengthPrefixed(b) == Some((Some(bytes), b[n..])) <==> TextSays(b[..n], Some(bytes))
  {
    var length := IntFromBytes(b[..4], true);
    LengthSays(b[..4]);
    assert b[..n][..4] == b[..4];
    if ReadLengthPrefixed(b) == Some((Some(bytes), b[n..])) {
      assert |b[4..][length..]| == |b[n..]|;
      assert n == 4 + length && b[..n][4..] == b[4..][..length];
    }
    if TextSays(b[..n], Some(bytes)) {
      assert length == |bytes| == n - 4;
      assert b[4..][..length] == b[..n][4..] && b[4..][length..] == b[n..];
    }
  }

  /** Reading takes a length and its bytes off the front exactly if there are that many. */
  lemma TextReads(b: Bytes, n: nat, text: Option<Bytes>)
    requires n <= |b|
    ensures ReadLengthPrefixed(b) == Some((text, b[n..])) <==> TextSays(b[..n], text)
  {
    if |b| < 4 { return; }
    LengthSays(b[..4]);
    assert |b[n..]| == |b| - n && |b[4..]| == |b| - 4;
    if n < 4 { return; }
    match text {
      case Some(bytes) => SomeTextReads(b, n, bytes);
      case None => assert b[..n][3] == b[..4][3];
    }
  }

  lemma FixedReads(cx: Context, b: Bytes, builtIn: BuiltInType, n: nat, value: Json)
    requires n <= |b| && IsSupported(builtIn) && !builtIn.String? && !builtIn.ByteString?
    ensures ReadBuiltIn(cx, b, builtIn) == Some((value, b[n..])) <==> BuiltInSays(cx, builtIn, b[..n], value)
  {
    ShapeBounds(builtIn, 0);
    match IntegerTypeOf(builtIn) {
      case Some(integer) =>
        if |b| >= integer.width {
          assert |b[n..]| == |b[integer.width..]| <==> n == integer.width;
          if value.Int? { IntegerSays(builtIn, b[..integer.width], value.i); }
          IntegerSays(builtIn, b[..integer.width], 0);
        }
      case None =>
        var width := match builtIn case Boolean => 1 case Float => 4 case Guid => 16 case _ => 8;
        if |b| >= width { assert |b[n..]| == |b[width..]| <==> n == width; }
        assert n == 1 ==> b[..n][0] == b[0];
    }
  }

  lemma PrefixedReads(cx: Context, b: Bytes, builtIn: BuiltInType, n: nat, value: Json)
    requires n <= |b| && (builtIn.String? || builtIn.ByteString?)
    ensures ReadBuiltIn(cx, b, builtIn) == Some((value, b[n..])) <==> BuiltInSays(cx, builtIn, b[..n], value)
  {
    forall text: Option<Bytes> ensures ReadLengthPrefixed(b) == Some((text, b[n..])) <==> TextSays(b[..n], text) {
      TextReads(b, n, text);
    }
  }

  lemma FixedLeaves(cx: Context, b: Bytes, builtIn: BuiltInType)
    requires IsSupported(builtIn) && !builtIn.String? && !builtIn.ByteString?
    ensures var read := ReadBuiltIn(cx, b, builtIn); read.Some? ==> read.value.1 == b[|b| - |read.value.1|..]
  {
    ShapeBounds(builtIn, 0);
  }

  lemma PrefixedLeaves(cx: Context, b: Bytes, builtIn: BuiltInType)
    requires builtIn.String? || builtIn.ByteString?
    ensures var read := ReadBuiltIn(cx, b, builtIn); read.Some? ==> read.value.1 == b[|b| - |read.value.1|..]
  {
    var read := ReadLengthPrefixed(b);
    if read.Some? { assert read.value.1 == b[|b| - |read.value.1|..]; }
  }

  /**
   A built-in value is read off the front of the bytes exactly if that is what they say, and takes just those bytes.
   */
  lemma BuiltInReads(cx: Context, b: Bytes, builtIn: BuiltInType, n: nat, value: Json)
    requires n <= |b| && IsSupported(builtIn)
    ensures ReadBuiltIn(cx, b, builtIn) == Some((value, b[n..])) <==> BuiltInSays(cx, builtIn, b[..n], value)
    ensures var read := ReadBuiltIn(cx, b, builtIn); read.Some? ==> read.value.1 == b[|b| - |read.value.1|..]
  {
    if builtIn.String? || builtIn.ByteString? {
      PrefixedReads(cx, b, builtIn, n, value);
      PrefixedLeaves(cx, b, builtIn);
    } else {
      FixedReads(cx, b, builtIn, n, value);
      FixedLeaves(cx, b, builtIn);
    }
  }

  /** The fields, from the k-th on, each read from what the one before it left. */
  ghost predicate ReadInTurn(cx: Context, sc: Schema, b: Bytes, id: LayoutId, k: nat, rests: seq<Bytes>,
                             values: seq<Json>)
    requires sc.Valid() && id in sc.rank
  {
    && |rests| == |values| + 1 && k + |values| <= |sc.layouts[id].fields| && rests[0] == b
    && forall j :: 0 <= j < |values| ==> ReadField(cx, sc, rests[j], id, k + j) == Some((values[j], rests[j + 1]))
  }

  /** The j-th of the values, those of the fields from the k-th on, is the last of its name that is not null. */
  ghost predicate LastNamed(fields: seq<Field>, k: nat, values: seq<Json>, j: nat)
    requires j < |values| && k + |values| <= |fields|
  {
    && !values[j].Null?
    && forall i :: j < i < |values| && fields[k + i].name == fields[k + j].name ==> values[i].Null?
  }

  ghost predicate Unnamed(fields: seq<Field>, k: nat, values: seq<Json>, name: string)
    requires k + |values| <= |fields|
  {
    forall j :: 0 <= j < |values| && fields[k + j].name == name ==> values[j].Null?
  }

  /** The values that are not null, under their fields' names, take the place of what there was. */
  ghost predicate Overlays(fields: seq<Field>, k: nat, values: seq<Json>, before: map<string, Json>,
                           after: map<string, Json>)
    requires k + |values| <= |fields|
  {
    && (forall j: nat :: j < |values| && LastNamed(fields, k, values, j) ==>
          fields[k + j].name in after && after[fields[k + j].name] == values[j])
    && (forall name :: Unnamed(fields, k, values, name) ==>
          (name in after <==> name in before) && (name in before ==> after[name] == before[name]))
  }

  lemma UnnamedLater(fields: seq<Field>, k: nat, value: Json, values: seq<Json>, name: string)
    requires k + 1 + |values| <= |fields|
    ensures Unnamed(fields, k, [value] + values, name) <==>
      Unnamed(fields, k + 1, values, name) && (fields[k].name == name ==> value.Null?)
  {
    var all := [value] + values;
    forall i | 0 <= i < |values| ensures all[i + 1] == values[i] {}
    if Unnamed(fields, k, all, name) {
      forall i | 0 <= i < |values| && fields[k + 1 + i].name == name ensures values[i].Null? {
        assert all[i + 1].Null?;
      }
      assert fields[k + 0].name == name ==> all[0].Null?;
    }
  }

  lemma LastNamedLater(fields: seq<Field>, k: nat, value: Json, values: seq<Json>, j: nat)
    requires k + 1 + |values| <= |fields| && j <= |values| && LastNamed(fields, k, [value] + values, j)
    ensures if j == 0 then Unnamed(fields, k + 1, values, fields[k].name)
            else LastNamed(fields, k + 1, values, j - 1)
  {
    var all := [value] + values;
    forall i | j <= i < |values| && fields[k + 1 + i].name == fields[k + j].name ensures values[i].Null? {
      assert all[i + 1].Null?;
    }
  }

  lemma OverlaysOn(fields: seq<Field>, k: nat, value: Json, values: seq<Json>, before: map<string, Json>,
                   after: map<string, Json>)
    requires k + 1 + |values| <= |fields|
    requires Overlays(fields, k + 1, values, if value.Null? then before else before[fields[k].name := value], after)
    ensures Overlays(fields, k, [value] + values, before, after)
  {
    var all := [value] + values;
    forall j: nat | j < |all| && LastNamed(fields, k, all, j)
      ensures fields[k + j].name in after && after[fields[k + j].name] == all[j]
    {
      LastNamedLater(fields, k, value, values, j);
      if j > 0 { assert fields[k + 1 + (j - 1)] == fields[k + j]; }
    }
    forall name | Unnamed(fields, k, all, name)
      ensures (name in after <==> name in before) && (name in before ==> after[name] == before[name])
    {
      UnnamedLater(fields, k, value, values, name);
    }
  }

  lemma {:induction false} FieldsReadInTurn(cx: Context, sc: Schema, b: Bytes, id: LayoutId, k: nat,
                                            props: map<string, Json>) returns (rests: seq<Bytes>, values: seq<Json>)
    requires sc.Valid() && id in sc.rank && k <= |sc.layouts[id].fields|
    ensures ReadInTurn(cx, sc, b, id, k, rests, values)
    ensures var read := ReadFieldsFrom(cx, sc, b, id, k, props);
      if read.None? then
        k + |values| < |sc.layouts[id].fields| && ReadField(cx, sc, rests[|values|], id, k + |values|).None?
      else
        k + |values| == |sc.layouts[id].fields| && read.value.1 == rests[|values|]
        && Overlays(sc.layouts[id].fields, k, values, props, read.value.0.props)
    decreases |sc.layouts[id].fields| - k
  {
    if k == |sc.layouts[id].fields| || ReadField(cx, sc, b, id, k).None? {
      rests, values := [b], [];
    } else {
      var (value, rest) := ReadField(cx, sc, b, id, k).value;
      var props' := if value.Null? then props else props[sc.layouts[id].fields[k].name := value];
      var later, others := FieldsReadInTurn(cx, sc, rest, id, k + 1, props');
      rests, values := [b] + later, [value] + others;
      ReadsOneMore(cx, sc, b, id, k, value, later, others);
      var whole := ReadFieldsFrom(cx, sc, b, id, k, props);
      assert whole == ReadFieldsFrom(cx, sc, rest, id, k + 1, props');
      if whole.Some? { OverlaysOn(sc.layouts[id].fields, k, value, others, props, whole.value.0.props); }
    }
  }

  lemma ReadsOneMore(cx: Context, sc: Schema, b: Bytes, id: LayoutId, k: nat, value: Json, rests: seq<Bytes>,
                     values: seq<Json>)
    requires sc.Valid() && id in sc.rank && k < |sc.layouts[id].fields| && rests != []
    requires ReadField(cx, sc, b, id, k) == Some((value, rests[0]))
    requires ReadInTurn(cx, sc, rests[0], id, k + 1, rests, values)
    ensures ReadInTurn(cx, sc, b, id, k, [b] + rests, [value] + values)
    ensures ([b] + rests)[|[value] + values|] == rests[|values|]
  {
    var all, allValues := [b] + rests, [value] + values;
    forall j | 0 <= j < |allValues| ensures ReadField(cx, sc, all[j], id, k + j) == Some((allValues[j], all[j + 1])) {
      if j > 0 { assert all[j] == rests[j - 1] && allValues[j] == values[j - 1] && k + j == k + 1 + (j - 1); }
    }
  }

  /**
   A structure is read field by field, in the order of its layout, each from where the one before it ended, and is not
   read if one of them is not.
   */
  lemma StructureReads(cx: Context, sc: Schema, b: Bytes, id: LayoutId)
      returns (rests: seq<Bytes>, values: seq<Json>)
    requires sc.Valid() && id in sc.rank
    ensures ReadInTurn(cx, sc, b, id, 0, rests, values)
    ensures var read := ReadStructure(cx, sc, b, id);
      if read.None? then |values| < |sc.layouts[id].fields| && ReadField(cx, sc, rests[|values|], id, |values|).None?
      else
        |values| == |sc.layouts[id].fields| && read.value.1 == rests[|values|]
        && Overlays(sc.layouts[id].fields, 0, values, map[], read.value.0.props)
  {
    rests, values := FieldsReadInTurn(cx, sc, b, id, 0, map[]);
  }

  ghost predicate ItemsReadInTurn(cx: Context, sc: Schema, b: Bytes, field: Field, rests: seq<Bytes>, items: seq<Json>)
    requires sc.Valid() && RefersInto(sc.layouts, field)
  {
    && |rests| == |items| + 1 && rests[0] == b
    && forall j :: 0 <= j < |items| ==> ReadScalar(cx, sc, rests[j], field) == Some((items[j], rests[j + 1]))
  }

  lemma {:induction false} ItemsRead(cx: Context, sc: Schema, b: Bytes, field: Field, count: nat, before: seq<Json>)
      returns (rests: seq<Bytes>, items: seq<Json>)
    requires sc.Valid() && RefersInto(sc.layouts, field)
    ensures ItemsReadInTurn(cx, sc, b, field, rests, items)
    ensures var read := ReadItems(cx, sc, b, field, count, before);
      if read.None? then |items| < count && ReadScalar(cx, sc, rests[|items|], field).None?
      else |items| == count && read.value.0 == Arr(before + items) && read.value.1 == rests[count]
    decreases count
  {
    if count == 0 || ReadScalar(cx, sc, b, field).None? {
      rests, items := [b], [];
    } else {
      var (item, rest) := ReadScalar(cx, sc, b, field).value;
      var later, others := ItemsRead(cx, sc, rest, field, count - 1, before + [item]);
      rests, items := [b] + later, [item] + others;
      assert rests[|items|] == later[|others|] && before + [item] + others == before + items;
    }
  }

  /** Without a length there is no array; a length below zero stands for null, and one over the limit is not read. */
  lemma NoArrayRead(cx: Context, sc: Schema, b: Bytes, field: Field, count: nat)
    requires sc.Valid() && RefersInto(sc.layouts, field)
    ensures |b| < 4 ==> ReadArray(cx, sc, b, field).None?
    ensures |b| >= 4 && b[3] >= 128 ==> ReadArray(cx, sc, b, field) == Some((Null, b[4..]))
    ensures |b| >= 4 && count < 0x8000_0000 && Spells(b[..4], count) && 0 < cx.maxArrayLength < count ==>
      ReadArray(cx, sc, b, field).None?
  {
    if |b| >= 4 { LengthSays(b[..4]); }
  }

  /** Any other array is read as the length its first four bytes spell and that many elements, one after another. */
  lemma ArrayReads(cx: Context, sc: Schema, b: Bytes, field: Field, count: nat)
      returns (rests: seq<Bytes>, items: seq<Json>)
    requires sc.Valid() && RefersInto(sc.layouts, field)
    requires |b| >= 4 && count < 0x8000_0000 && Spells(b[..4], count) && !(0 < cx.maxArrayLength < count)
    ensures ItemsReadInTurn(cx, sc, b[4..], field, rests, items)
    ensures var read := ReadArray(cx, sc, b, field);
      if read.None? then |items| < count && ReadScalar(cx, sc, rests[|items|], field).None?
      else |items| == count && read.value.0 == Arr(items) && read.value.1 == rests[count]
  {
    LengthSays(b[..4]);
    rests, items := ItemsRead(cx, sc, b[4..], field, count, []);
    assert [] + items == items;
  }
}
