/**
 What encoder and decoder of structured values compute, as functions of a value and a body; the methods that compute
 it, byte by byte, are proved to return the same. Integers are shown to survive their bytes here; what is built from
 them is the subject of the modules about round trips and about decoding.
 */
module StructureCodec {
  import opened Options
  import opened StructureLayouts

  type Byte = n: int | 0 <= n < 256
  type Bytes = seq<Byte>
  type Bytes4 = b: Bytes | |b| == 4 witness [0, 0, 0, 0]
  type Bytes8 = b: Bytes | |b| == 8 witness [0, 0, 0, 0, 0, 0, 0, 0]
  type Bytes16 = b: Bytes | |b| == 16 witness [0, 0, 0, 0, 0, 0, 0, 0, 0, 0, 0, 0, 0, 0, 0, 0]

  /** A parsed JSON value. A real is the double it was read as; an object's properties have distinct names. */
  datatype Json =
    | Null
    | Bool(b: bool)
    | Int(i: int)
    | Real(double: Bytes8)
    | Str(text: string)
    | Arr(items: seq<Json>)
    | Obj(props: map<string, Json>)

  datatype Refusal = BadTypeMismatch | BadOutOfRange

  datatype Outcome<+T> = Ok(value: T) | Refused(why: Refusal)

  /** The conversions between text, reals and their encodings, which belong to the runtime library. */
  datatype Context = Context(
    maxArrayLength: int,
    utf8: string -> Bytes,
    fromUtf8: Bytes -> string,
    parseDate: string -> Option<Bytes8>,
    printDate: Bytes8 -> string,
    parseGuid: string -> Option<Bytes16>,
    printGuid: Bytes16 -> string,
    parseBase64: string -> Option<Bytes>,
    printBase64: Bytes -> string,
    doubleOfInt: int -> Bytes8,
    isNaN: Bytes8 -> bool,
    isInfinite: Bytes8 -> bool,
    exceedsFloat: Bytes8 -> bool,
    narrow: Bytes8 -> Bytes4,
    widen: Bytes4 -> Bytes8,
    /** The types that are only ever read: a value and how many bytes it took, or an exception. */
    readOther: (BuiltInType, Bytes) -> Option<(Json, nat)>)
  {
    predicate Finite(double: Bytes8) {
      !isNaN(double) && !isInfinite(double)
    }

    predicate FitsFloat(double: Bytes8) {
      Finite(double) && !exceedsFloat(double)
    }

    /**
     What is assumed of them. Dates outside the range of the clock are clamped as they are printed, so of a date only
     its text comes back.
     */
    ghost predicate Lawful() {
      && (forall d :: var again := parseDate(printDate(d)); again.Some? && printDate(again.value) == printDate(d))
      && (forall g :: parseGuid(printGuid(g)) == Some(g))
      && (forall b :: parseBase64(printBase64(b)) == Some(b))
      && (forall f :: Finite(widen(f)) ==> FitsFloat(widen(f)) && narrow(widen(f)) == f)
      && (forall d :: FitsFloat(d) ==> Finite(widen(narrow(d))))
    }
  }

  /** A reader stops at the end of what it reads, whatever follows. */
  ghost predicate ReadsLocally(cx: Context) {
    && (forall builtIn, b :: cx.readOther(builtIn, b).Some? ==> cx.readOther(builtIn, b).value.1 <= |b|)
    && (forall builtIn, b, longer :: cx.readOther(builtIn, b).Some? && b <= longer ==>
        cx.readOther(builtIn, longer) == cx.readOther(builtIn, b))
  }

  // ------------------------------------------------------------------------------------------------------------
  // Integers

  function Pow256(width: nat): (p: int)
    ensures p > 0
  {
    if width == 0 then 1 else 256 * Pow256(width - 1)
  }

  /** Little-endian. */
  function ToBytes(n: nat, width: nat): (b: Bytes)
    ensures |b| == width
  {
    if width == 0 then [] else [n % 256] + ToBytes(n / 256, width - 1)
  }

  function FromBytes(b: Bytes): nat {
    if b == [] then 0 else b[0] + 256 * FromBytes(b[1..])
  }

  lemma {:induction false} BytesRoundTrip(n: nat, width: nat)
    requires n < Pow256(width)
    ensures FromBytes(ToBytes(n, width)) == n
  {
    if width > 0 {
      BytesRoundTrip(n / 256, width - 1);
      assert ToBytes(n, width)[1..] == ToBytes(n / 256, width - 1);
    }
  }

  lemma AtLeastOnce(e: int, d: nat)
    ensures e >= 1 ==> e * d >= d
    ensures e <= -1 ==> -(e * d) >= d
  {}

  lemma QuotientUnique(n: int, d: nat, q: int, r: nat)
    requires d > 0 && n == q * d + r && r < d
    ensures n / d == q
  {
    var e := n / d - q;
    assert n == (n / d) * d + n % d;
    assert (n / d) * d == q * d + e * d;
    assert e * d == r - n % d;
    AtLeastOnce(e, d);
  }

  lemma DivideInTurn(n: int, d: nat)
    requires d > 0
    ensures n / 256 / d == n / (256 * d)
  {
    var m, s := n / 256, n % 256;
    var q, r := m / d, m % d;
    assert m == q * d + r;
    assert n == 256 * m + s;
    assert q * (256 * d) == 256 * (q * d);
    QuotientUnique(n, 256 * d, q, 256 * r + s);
  }

  /** The k-th byte is the k-th digit of the number to base 256, least first. */
  lemma {:induction false} ByteAt(n: nat, width: nat, k: nat)
    requires k < width
    ensures ToBytes(n, width)[k] == n / Pow256(k) % 256
  {
    if k > 0 {
      ByteAt(n / 256, width - 1, k - 1);
      DivideInTurn(n, Pow256(k - 1));
    }
  }

  lemma {:induction false} FromBytesBound(b: Bytes)
    ensures FromBytes(b) < Pow256(|b|)
  {
    if b != [] {
      FromBytesBound(b[1..]);
    }
  }

  /** Two's complement. */
  function IntToBytes(i: int, width: nat): (b: Bytes)
    ensures |b| == width
  {
    ToBytes(i % Pow256(width), width)
  }

  function IntFromBytes(b: Bytes, signed: bool): int {
    var n := FromBytes(b);
    if signed && 2 * n >= Pow256(|b|) then n - Pow256(|b|) else n
  }

  /** The range of an integer type of `width` bytes. */
  predicate InRange(i: int, width: nat, signed: bool) {
    if signed then -Pow256(width) <= 2 * i < Pow256(width) else 0 <= i < Pow256(width)
  }

  lemma ModNegative(i: int, p: int)
    requires -p <= i < 0
    ensures i % p == i + p
  {
    assert (i + p) / p == 0 && i / p == -1;
  }

  lemma ModSmall(i: int, p: int)
    requires 0 <= i < p
    ensures i % p == i
  {}

  lemma IntRoundTrip(i: int, width: nat, signed: bool)
    requires InRange(i, width, signed)
    ensures IntFromBytes(IntToBytes(i, width), signed) == i
  {
    var p := Pow256(width);
    var n := if i < 0 then i + p else i;
    assert i % p == n by {
      if i < 0 { ModNegative(i, p); } else { ModSmall(i, p); }
    }
    BytesRoundTrip(n, width);
  }

  lemma IntFromBytesInRange(b: Bytes, signed: bool)
    ensures InRange(IntFromBytes(b, signed), |b|, signed)
  {
    FromBytesBound(b);
  }

  /** The integer types: their width in bytes and whether they are signed. */
  function IntegerShape(builtIn: BuiltInType): Option<(nat, bool)> {
    match builtIn
    case SByte => Some((1, true))
    case Byte => Some((1, false))
    case Int16 => Some((2, true))
    case UInt16 => Some((2, false))
    case Int32 => Some((4, true))
    case Enumeration => Some((4, true))
    case UInt32 => Some((4, false))
    case StatusCode => Some((4, false))
    case Int64 => Some((8, true))
    case UInt64 => Some((8, false))
    case _ => None
  }

  // ------------------------------------------------------------------------------------------------------------
  // Encoding

  const NULL_LENGTH := -1

  function WriteInt32(i: int): (b: Bytes)
    ensures |b| == 4
  {
    IntToBytes(i, 4)
  }

  function Prepend(b: Bytes, rest: Outcome<Bytes>): Outcome<Bytes> {
    if rest.Ok? then Ok(b + rest.value) else rest
  }

  function Sequence(first: Outcome<Bytes>, rest: Outcome<Bytes>): Outcome<Bytes> {
    if first.Ok? then Prepend(first.value, rest) else first
  }

  function EncodeReal(cx: Context, double: Bytes8, isFloat: bool): Outcome<Bytes> {
    if cx.isNaN(double) then Refused(BadTypeMismatch)
    else if cx.isInfinite(double) || (isFloat && cx.exceedsFloat(double)) then Refused(BadOutOfRange)
    else Ok(if isFloat then cx.narrow(double) else double)
  }

  /** One built-in value, which must be of the type's own kind of JSON and in its range. */
  function EncodeBuiltIn(cx: Context, value: Json, builtIn: BuiltInType): Outcome<Bytes> {
    if IntegerShape(builtIn).Some? then
      var (width, signed) := IntegerShape(builtIn).value;
      if !value.Int? then Refused(BadTypeMismatch)
      else if !InRange(value.i, width, signed) then Refused(BadOutOfRange)
      else Ok(IntToBytes(value.i, width))
    else
      match builtIn
      case Boolean => if value.Bool? then Ok([if value.b then 1 else 0]) else Refused(BadTypeMismatch)
      case Float => EncodeNumber(cx, value, true)
      case Double => EncodeNumber(cx, value, false)
      case String =>
        if !value.Str? then Refused(BadTypeMismatch)
        else var text := cx.utf8(value.text); Ok(WriteInt32(|text|) + text)
      case DateTime =>
        if !value.Str? || cx.parseDate(value.text).None? then Refused(BadTypeMismatch)
        else Ok(cx.parseDate(value.text).value)
      case Guid =>
        if !value.Str? || cx.parseGuid(value.text).None? then Refused(BadTypeMismatch)
        else Ok(cx.parseGuid(value.text).value)
      case ByteString =>
        if !value.Str? || cx.parseBase64(value.text).None? then Refused(BadTypeMismatch)
        else var bytes := cx.parseBase64(value.text).value; Ok(WriteInt32(|bytes|) + bytes)
      case _ => Refused(BadTypeMismatch)
  }

  function EncodeNumber(cx: Context, value: Json, isFloat: bool): Outcome<Bytes> {
    match value
    case Int(i) => EncodeReal(cx, cx.doubleOfInt(i), isFloat)
    case Real(double) => EncodeReal(cx, double, isFloat)
    case _ => Refused(BadTypeMismatch)
  }

  /** The value an object gives a field; absent and null are the same. */
  function Given(value: Json, name: string): Json
    requires value.Obj?
  {
    if name in value.props then value.props[name] else Null
  }

  ghost predicate HasField(fields: seq<Field>, name: string) {
    exists k :: 0 <= k < |fields| && fields[k].name == name
  }

  ghost function EncodeStructure(cx: Context, layouts: Layouts, value: Json, id: LayoutId): Outcome<Bytes>
    requires Closed(layouts) && id in layouts
    decreases value, 1, 0
  {
    if !value.Obj? || exists name :: name in value.props && !HasField(layouts[id].fields, name) then
      Refused(BadTypeMismatch)
    else EncodeFieldsFrom(cx, layouts, value, id, 0)
  }

  ghost function EncodeFieldsFrom(cx: Context, layouts: Layouts, value: Json, id: LayoutId, k: nat): Outcome<Bytes>
    requires Closed(layouts) && id in layouts && k <= |layouts[id].fields| && value.Obj?
    decreases value, 0, |layouts[id].fields| - k
  {
    if k == |layouts[id].fields| then Ok([])
    else
      var field := layouts[id].fields[k];
      var given := Given(value, field.name);
      Sequence(if given.Null? then EncodeNull(field) else EncodeGiven(cx, layouts, given, field),
               EncodeFieldsFrom(cx, layouts, value, id, k + 1))
  }

  ghost function EncodeGiven(cx: Context, layouts: Layouts, value: Json, field: Field): Outcome<Bytes>
    requires Closed(layouts) && RefersInto(layouts, field)
    decreases value, 3, 0
  {
    if field.isArray then EncodeArray(cx, layouts, value, field) else EncodeScalar(cx, layouts, value, field)
  }

  /** What a missing value is written as, of the kinds of field that may miss one. */
  function EncodeNull(field: Field): Outcome<Bytes> {
    if !field.isArray && (field.structure.Some? || (field.builtIn != String && field.builtIn != ByteString)) then
      Refused(BadTypeMismatch)
    else Ok(WriteInt32(NULL_LENGTH))
  }

  ghost predicate RefersInto(layouts: Layouts, field: Field) {
    field.structure.Some? ==> field.structure.value in layouts
  }

  ghost function EncodeArray(cx: Context, layouts: Layouts, value: Json, field: Field): Outcome<Bytes>
    requires Closed(layouts) && RefersInto(layouts, field)
    decreases value, 2, 0
  {
    if field.structure.None? && field.builtIn.Byte? && value.Str? then
      match cx.parseBase64(value.text)
      case None => Refused(BadTypeMismatch)
      case Some(bytes) => Ok(WriteInt32(|bytes|) + bytes)
    else if !value.Arr? then Refused(BadTypeMismatch)
    else Prepend(WriteInt32(|value.items|), EncodeItemsFrom(cx, layouts, value, field, 0))
  }

  ghost function EncodeItemsFrom(cx: Context, layouts: Layouts, value: Json, field: Field, k: nat): Outcome<Bytes>
    requires Closed(layouts) && RefersInto(layouts, field) && value.Arr? && k <= |value.items|
    decreases value, 0, |value.items| - k
  {
    if k == |value.items| then Ok([])
    else Sequence(EncodeScalar(cx, layouts, value.items[k], field), EncodeItemsFrom(cx, layouts, value, field, k + 1))
  }

  ghost function EncodeScalar(cx: Context, layouts: Layouts, value: Json, field: Field): Outcome<Bytes>
    requires Closed(layouts) && RefersInto(layouts, field)
    decreases value, 2, 0
  {
    if field.structure.Some? then EncodeStructure(cx, layouts, value, field.structure.value)
    else EncodeBuiltIn(cx, value, field.builtIn)
  }

  // ------------------------------------------------------------------------------------------------------------
  // Decoding

  /** What reading left: a value and the bytes after it, or None when the body ended early or broke a limit. */
  type Reading = Option<(Json, Bytes)>

  function Fixed(b: Bytes, width: nat): Option<(Bytes, Bytes)> {
    if |b| < width then None else Some((b[..width], b[width..]))
  }

  function ReadInt32(b: Bytes): Option<(int, Bytes)> {
    if |b| < 4 then None else Some((IntFromBytes(b[..4], true), b[4..]))
  }

  /** A length and that many bytes; a negative length is a null. */
  function ReadLengthPrefixed(b: Bytes): Option<(Option<Bytes>, Bytes)> {
    match ReadInt32(b)
    case None => None
    case Some((length, rest)) =>
      if length < 0 then Some((None, rest))
      else if |rest| < length then None
      else Some((Some(rest[..length]), rest[length..]))
  }

  /** One built-in value off the front of the bytes, in the form the bridge publishes. */
  function ReadBuiltIn(cx: Context, b: Bytes, builtIn: BuiltInType): (r: Reading)
    ensures r.Some? ==> |r.value.1| <= |b|
  {
    if IntegerShape(builtIn).Some? then
      var (width, signed) := IntegerShape(builtIn).value;
      match Fixed(b, width)
      case None => None
      case Some((bytes, rest)) => Some((Int(IntFromBytes(bytes, signed)), rest))
    else
      match builtIn
      case Boolean => if |b| < 1 then None else Some((Bool(b[0] != 0), b[1..]))
      case Float => if |b| < 4 then None else Some((Real(cx.widen(b[..4])), b[4..]))
      case Double => if |b| < 8 then None else Some((Real(b[..8]), b[8..]))
      case String =>
        (match ReadLengthPrefixed(b)
         case None => None
         case Some((text, rest)) => Some((if text.None? then Null else Str(cx.fromUtf8(text.value)), rest)))
      case DateTime => if |b| < 8 then None else Some((Str(cx.printDate(b[..8])), b[8..]))
      case Guid => if |b| < 16 then None else Some((Str(cx.printGuid(b[..16])), b[16..]))
      case ByteString =>
        (match ReadLengthPrefixed(b)
         case None => None
         case Some((bytes, rest)) => Some((if bytes.None? then Null else Str(cx.printBase64(bytes.value)), rest)))
      case _ => ReadUnwritten(cx, b, builtIn)
  }

  /** The types that are never written. */
  function ReadUnwritten(cx: Context, b: Bytes, builtIn: BuiltInType): (r: Reading)
    ensures r.Some? ==> |r.value.1| <= |b|
  {
    match cx.readOther(builtIn, b)
    case None => None
    case Some((value, width)) => if |b| < width then None else Some((value, b[width..]))
  }

  /**
   A rank for the structures that do not nest without end, which drops with every structure nested as a scalar; the
   others each nest one of their own kind.
   */
  ghost predicate Ranked(layouts: Layouts, rank: map<LayoutId, nat>, top: nat) {
    && rank.Keys <= layouts.Keys && Endless(layouts, layouts.Keys - rank.Keys)
    && (forall id :: id in rank ==> rank[id] < top)
    && forall id, k :: id in rank && 0 <= k < |layouts[id].fields| ==>
         var field := layouts[id].fields[k];
         field.structure.Some? && !field.isArray ==>
           field.structure.value in rank && rank[field.structure.value] < rank[id]
  }

  /** What decoding works from. `rank` and `top` only serve to show that it ends, or that it does not. */
  datatype Schema = Schema(layouts: Layouts, rank: map<LayoutId, nat>, top: nat) {
    ghost predicate Valid() {
      Closed(layouts) && Ranked(layouts, rank, top)
    }

    ghost function RankOf(id: LayoutId): nat {
      if id in rank then rank[id] else 0
    }
  }

  /** A structure that nests without end is never read to its end, whatever the bytes. */
  ghost function ReadStructure(cx: Context, sc: Schema, b: Bytes, id: LayoutId): (r: Reading)
    requires sc.Valid() && id in sc.layouts
    ensures r.Some? ==> |r.value.1| <= |b| && r.value.0.Obj?
    decreases |b|, sc.RankOf(id), |sc.layouts[id].fields| + 2
  {
    if id in sc.rank then ReadFieldsFrom(cx, sc, b, id, 0, map[]) else None
  }

  /** The fields from the k-th on, added to the properties already read; null fields are left out. */
  ghost function ReadFieldsFrom(cx: Context, sc: Schema, b: Bytes, id: LayoutId, k: nat,
                                props: map<string, Json>): (r: Reading)
    requires sc.Valid() && id in sc.rank && k <= |sc.layouts[id].fields|
    ensures r.Some? ==> |r.value.1| <= |b| && r.value.0.Obj?
    decreases |b|, sc.RankOf(id), |sc.layouts[id].fields| - k + 1
  {
    if k == |sc.layouts[id].fields| then Some((Obj(props), b))
    else
      var field := sc.layouts[id].fields[k];
      match ReadField(cx, sc, b, id, k)
      case None => None
      case Some((value, rest)) =>
        ReadFieldsFrom(cx, sc, rest, id, k + 1, if value.Null? then props else props[field.name := value])
  }

  ghost function ReadField(cx: Context, sc: Schema, b: Bytes, id: LayoutId, k: nat): (r: Reading)
    requires sc.Valid() && id in sc.rank && k < |sc.layouts[id].fields|
    ensures r.Some? ==> |r.value.1| <= |b|
    decreases |b|, sc.RankOf(id), 1
  {
    var field := sc.layouts[id].fields[k];
    if field.isArray then ReadArray(cx, sc, b, field)
    else if field.structure.Some? then ReadStructure(cx, sc, b, field.structure.value)
    else ReadBuiltIn(cx, b, field.builtIn)
  }

  ghost function ReadArray(cx: Context, sc: Schema, b: Bytes, field: Field): (r: Reading)
    requires sc.Valid() && RefersInto(sc.layouts, field)
    ensures r.Some? ==> |r.value.1| <= |b|
    decreases |b|, 0, 0
  {
    match ReadInt32(b)
    case None => None
    case Some((length, rest)) =>
      if length < 0 then Some((Null, rest))
      else if cx.maxArrayLength > 0 && length > cx.maxArrayLength then None
      else ReadItems(cx, sc, rest, field, length, [])
  }

  ghost function ReadItems(cx: Context, sc: Schema, b: Bytes, field: Field, count: nat, items: seq<Json>): (r: Reading)
    requires sc.Valid() && RefersInto(sc.layouts, field)
    ensures r.Some? ==> |r.value.1| <= |b|
    decreases |b|, sc.top + 1, count
  {
    if count == 0 then Some((Arr(items), b))
    else
      match ReadScalar(cx, sc, b, field)
      case None => None
      case Some((value, rest)) => ReadItems(cx, sc, rest, field, count - 1, items + [value])
  }

  ghost function ReadScalar(cx: Context, sc: Schema, b: Bytes, field: Field): (r: Reading)
    requires sc.Valid() && RefersInto(sc.layouts, field)
    ensures r.Some? ==> |r.value.1| <= |b|
    decreases |b|, sc.top + 1, 0
  {
    if field.structure.Some? then ReadStructure(cx, sc, b, field.structure.value) else ReadBuiltIn(cx, b, field.builtIn)
  }
}
