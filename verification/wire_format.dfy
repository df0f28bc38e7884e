/** What the bytes of a parameter mean: the values that can be written, their encoding, and a
    reference decoder for it. */
module WireFormat {
  import opened ByteStrings
  import Varint
  import Zigzag

  type Float32Bits = b: Bytes | |b| == 4 witness [0, 0, 0, 0]
  type Float64Bits = b: Bytes | |b| == 8 witness [0, 0, 0, 0, 0, 0, 0, 0]

  /** The value types that the encoder uses, with their numbers on the wire. */
  datatype Kind = Int64 | Uint64 | Float | Double | String {
    function Code(): (r: Byte)
      ensures 8 <= r <= 12
    {
      match this
      case Int64 => 8
      case Uint64 => 9
      case Float => 10
      case Double => 11
      case String => 12
    }
  }

  /** A single value. Every signed width and `bool` is written as a signed 64-bit value, every
      unsigned width as an unsigned one; a floating value is its memory image. */
  datatype Item =
    | Signed(i: I64)
    | Unsigned(u: U64)
    | Float32(f: Float32Bits)
    | Float64(d: Float64Bits)
    | Text(s: Bytes)
  {
    function Kind(): Kind {
      match this
      case Signed(_) => Int64
      case Unsigned(_) => Uint64
      case Float32(_) => Float
      case Float64(_) => Double
      case Text(_) => String
    }
  }

  datatype Value =
    | Scalar(item: Item)
    | Array(kind: Kind, items: seq<Item>)
  {
    predicate Valid() {
      Array? ==> forall item <- items :: item.Kind() == kind
    }
  }

  datatype Param = Param(key: Bytes, value: Value)

  // ---------- encoding

  function TextBytes(s: Bytes): Bytes {
    Varint.Encode(Varint.LENGTH_DELIMITED, |s|) + s
  }

  function ItemBytes(item: Item): (r: Bytes)
    ensures r != []
  {
    match item
    case Signed(i) => Varint.Encode(Varint.VARINT, Zigzag.Encode(i))
    case Unsigned(u) => Varint.Encode(Varint.VARINT, u)
    case Float32(f) => Varint.Encode(Varint.LENGTH_DELIMITED, 4) + f
    case Float64(d) => Varint.Encode(Varint.LENGTH_DELIMITED, 8) + d
    case Text(s) => TextBytes(s)
  }

  function ItemsBytes(items: seq<Item>): Bytes {
    if items == [] then [] else ItemBytes(items[0]) + ItemsBytes(items[1..])
  }

  /** The packed byte `isArray : 1, valueType : 4, valueByteCnt : 3`. */
  function TypeByte(isArray: bool, kind: Kind): Byte {
    (if isArray then 1 else 0) + 2 * kind.Code()
  }

  function ValueBytes(v: Value): Bytes {
    match v
    case Scalar(item) => ItemBytes(item)
    case Array(_, items) => Varint.Encode(Varint.LENGTH_DELIMITED, |items|) + ItemsBytes(items)
  }

  function TypeByteOf(v: Value): Byte {
    match v
    case Scalar(item) => TypeByte(false, item.Kind())
    case Array(kind, _) => TypeByte(true, kind)
  }

  function ParamBytes(p: Param): Bytes {
    TextBytes(p.key) + [TypeByteOf(p.value)] + ValueBytes(p.value)
  }

  function ParamsBytes(ps: seq<Param>): Bytes {
    if ps == [] then [] else ParamBytes(ps[0]) + ParamsBytes(ps[1..])
  }

  lemma {:induction false} ParamsBytesAppend(ps: seq<Param>, p: Param)
    ensures ParamsBytes(ps + [p]) == ParamsBytes(ps) + ParamBytes(p)
  {
    hide ParamBytes;
    if ps == [] {
      assert ps + [p] == [p];
      assert ParamsBytes([p][1..]) == [];
    } else {
      ParamsBytesAppend(ps[1..], p);
      assert (ps + [p])[1..] == ps[1..] + [p];
    }
  }

  lemma {:induction false} ItemsBytesAppend(items: seq<Item>, item: Item)
    ensures ItemsBytes(items + [item]) == ItemsBytes(items) + ItemBytes(item)
  {
    hide ItemBytes;
    if items == [] {
      assert items + [item] == [item];
      assert ItemsBytes([item][1..]) == [];
    } else {
      ItemsBytesAppend(items[1..], item);
      assert (items + [item])[1..] == items[1..] + [item];
    }
  }

  lemma {:induction false} ItemsBytesSplit(items: seq<Item>, k: nat)
    requires k <= |items|
    ensures ItemsBytes(items) == ItemsBytes(items[..k]) + ItemsBytes(items[k..])
  {
    hide ItemBytes;
    if k > 0 {
      ItemsBytesSplit(items[1..], k - 1);
      assert items[..k][1..] == items[1..][..k - 1];
      assert items[1..][k - 1..] == items[k..];
    } else {
      assert items[0..] == items;
    }
  }

  // ---------- the bytes themselves

  /** The type byte: the array flag in the lowest bit, the value type above it. */
  lemma {:induction false} TypeBytesAre(isArray: bool)
    ensures var flag := if isArray then 1 else 0;
            && TypeByte(isArray, Int64) == 16 + flag && TypeByte(isArray, Uint64) == 18 + flag
            && TypeByte(isArray, Float) == 20 + flag && TypeByte(isArray, Double) == 22 + flag
            && TypeByte(isArray, String) == 24 + flag
  {
  }

  /** Small values: a number below 32 is its own byte, a length below 32 has bit 64 set, and the
      tag of a length is the only difference between the two. */
  lemma {:induction false} SmallFormsAre(item: Item)
    ensures item.Unsigned? && item.u < 32 ==> ItemBytes(item) == [item.u]
    ensures item.Signed? && 0 <= item.i < 16 ==> ItemBytes(item) == [2 * item.i]
    ensures item.Signed? && -16 <= item.i < 0 ==> ItemBytes(item) == [-2 * item.i - 1]
    ensures item.Text? && |item.s| < 32 ==> ItemBytes(item) == [64 + |item.s|] + item.s
    ensures item.Float32? ==> ItemBytes(item) == [68] + item.f
    ensures item.Float64? ==> ItemBytes(item) == [72] + item.d
  {
    hide Zigzag.Encode;
    Varint.TailStep(0);
    match item
    case Signed(i) =>
      Zigzag.EncodeValue(i);
      Varint.EncodeStep(Varint.VARINT, Zigzag.Encode(i));
    case Unsigned(u) => Varint.EncodeStep(Varint.VARINT, u);
    case Float32(_) => Varint.EncodeStep(Varint.LENGTH_DELIMITED, 4);
    case Float64(_) => Varint.EncodeStep(Varint.LENGTH_DELIMITED, 8);
    case Text(s) => Varint.EncodeStep(Varint.LENGTH_DELIMITED, |s|);
  }

  /** An array is its size, with bit 64 set when it is small, and then its items one by one. */
  lemma {:induction false} ArrayFormIs(kind: Kind, items: seq<Item>, item: Item)
    requires |items| < 32
    ensures ValueBytes(Array(kind, items)) == [64 + |items|] + ItemsBytes(items)
    ensures ItemsBytes([]) == [] && ItemsBytes(items + [item]) == ItemsBytes(items) + ItemBytes(item)
  {
    hide ItemBytes;
    Varint.TailStep(0);
    Varint.EncodeStep(Varint.LENGTH_DELIMITED, |items|);
    ItemsBytesAppend(items, item);
  }

  /** A parameter is its key, with bit 64 set in the length of a short one, its type byte, and its
      value. */
  lemma {:induction false} ParamFormIs(key: Bytes, item: Item, kind: Kind, items: seq<Item>)
    requires |key| < 32
    ensures ParamBytes(Param(key, Scalar(item)))
            == [64 + |key|] + key + [TypeByte(false, item.Kind())] + ItemBytes(item)
    ensures ParamBytes(Param(key, Array(kind, items)))
            == [64 + |key|] + key + [TypeByte(true, kind)] + ValueBytes(Array(kind, items))
  {
    hide ItemBytes, ItemsBytes, TypeByte;
    Varint.TailStep(0);
    Varint.EncodeStep(Varint.LENGTH_DELIMITED, |key|);
  }

  // ---------- decoding

  /** A length-delimited block: its length, then that many bytes. */
  function DecodeText(s: Bytes): (r: Parsed<Bytes>)
    ensures r.Got? ==> |r.rest| < |s|
  {
    match Varint.Decode(s)
    case Fail => Fail
    case Got((tag, n), rest) =>
      if tag != Varint.LENGTH_DELIMITED || n > |rest| then Fail else Got(rest[..n], rest[n..])
  }

  function DecodeWord(s: Bytes): (r: Parsed<U64>)
    ensures r.Got? ==> |r.rest| < |s|
  {
    match Varint.Decode(s)
    case Fail => Fail
    case Got((tag, n), rest) =>
      if tag != Varint.VARINT || n >= TWO_TO_THE_64 then Fail else Got(n, rest)
  }

  function DecodeItem(kind: Kind, s: Bytes): (r: Parsed<Item>)
    ensures r.Got? ==> |r.rest| < |s|
  {
    match kind
    case Int64 => (
      match DecodeWord(s)
      case Fail => Fail
      case Got(u, rest) => Got(Signed(Zigzag.Decode(u)), rest))
    case Uint64 => (
      match DecodeWord(s)
      case Fail => Fail
      case Got(u, rest) => Got(Unsigned(u), rest))
    case Float => (
      match DecodeText(s)
      case Fail => Fail
      case Got(b, rest) => if |b| == 4 then Got(Float32(b), rest) else Fail)
    case Double => (
      match DecodeText(s)
      case Fail => Fail
      case Got(b, rest) => if |b| == 8 then Got(Float64(b), rest) else Fail)
    case String => (
      match DecodeText(s)
      case Fail => Fail
      case Got(b, rest) => Got(Text(b), rest))
  }

  function DecodeItems(kind: Kind, n: nat, s: Bytes): Parsed<seq<Item>> {
    if n == 0 then Got([], s)
    else match DecodeItem(kind, s)
      case Fail => Fail
      case Got(item, rest) =>
        match DecodeItems(kind, n - 1, rest)
        case Fail => Fail
        case Got(items, rest') => Got([item] + items, rest')
  }

  function DecodeKind(code: nat): Option<Kind> {
    if code == 8 then Some(Int64)
    else if code == 9 then Some(Uint64)
    else if code == 10 then Some(Float)
    else if code == 11 then Some(Double)
    else if code == 12 then Some(String)
    else None
  }

  function DecodeArray(kind: Kind, s: Bytes): Parsed<Value> {
    match Varint.Decode(s)
    case Fail => Fail
    case Got((tag, n), rest) =>
      if tag != Varint.LENGTH_DELIMITED then Fail
      else match DecodeItems(kind, n, rest)
        case Fail => Fail
        case Got(items, rest') => Got(Array(kind, items), rest')
  }

  /** The type byte and the value it announces. */
  function DecodeValue(s: Bytes): Parsed<Value> {
    if s == [] then Fail
    else match DecodeKind(s[0] / 2 % 16)
      case None => Fail
      case Some(kind) =>
        if s[0] % 2 == 1 then DecodeArray(kind, s[1..])
        else match DecodeItem(kind, s[1..])
          case Fail => Fail
          case Got(item, rest) => Got(Scalar(item), rest)
  }

  function DecodeParam(s: Bytes): Parsed<Param> {
    match DecodeText(s)
    case Fail => Fail
    case Got(key, rest) =>
      match DecodeValue(rest)
      case Fail => Fail
      case Got(value, rest') => Got(Param(key, value), rest')
  }

  function DecodeParams(n: nat, s: Bytes): Parsed<seq<Param>> {
    if n == 0 then Got([], s)
    else match DecodeParam(s)
      case Fail => Fail
      case Got(p, rest) =>
        match DecodeParams(n - 1, rest)
        case Fail => Fail
        case Got(ps, rest') => Got([p] + ps, rest')
  }

  // ---------- round trips

  lemma {:induction false} TextRoundTrip(s: Bytes, rest: Bytes)
    ensures DecodeText(TextBytes(s) + rest) == Got(s, rest)
  {
    Varint.RoundTrip(Varint.LENGTH_DELIMITED, |s|, s + rest);
    assert TextBytes(s) + rest == Varint.Encode(Varint.LENGTH_DELIMITED, |s|) + (s + rest);
  }

  lemma {:induction false} ItemRoundTrip(item: Item, rest: Bytes)
    ensures DecodeItem(item.Kind(), ItemBytes(item) + rest) == Got(item, rest)
  {
    hide Varint.Encode, Varint.Decode, Zigzag.Encode, Zigzag.Decode;
    match item
    case Signed(i) =>
      Zigzag.VarintRoundTrip(i, rest);
      Varint.RoundTrip(Varint.VARINT, Zigzag.Encode(i), rest);
    case Unsigned(u) => Varint.RoundTrip(Varint.VARINT, u, rest);
    case Float32(f) => TextRoundTrip(f, rest);
    case Float64(d) => TextRoundTrip(d, rest);
    case Text(s) => TextRoundTrip(s, rest);
  }

  lemma {:induction false} ItemsRoundTrip(kind: Kind, items: seq<Item>, rest: Bytes)
    requires forall item <- items :: item.Kind() == kind
    ensures DecodeItems(kind, |items|, ItemsBytes(items) + rest) == Got(items, rest)
  {
    hide ItemBytes, DecodeItem;
    if items == [] {
      assert ItemsBytes(items) + rest == rest;
    } else {
      var tail := ItemsBytes(items[1..]) + rest;
      var item := items[0];
      assert ItemsBytes(items) + rest == ItemBytes(item) + tail;
      assert item in items && item.Kind() == kind && forall x <- items[1..] :: x in items;
      ItemRoundTrip(item, tail);
      ItemsRoundTrip(kind, items[1..], rest);
      assert items == [items[0]] + items[1..];
    }
  }

  lemma {:induction false} TypeByteReads(v: Value)
    ensures TypeByteOf(v) % 2 == if v.Array? then 1 else 0
    ensures DecodeKind(TypeByteOf(v) / 2 % 16) ==
            Some(match v case Scalar(item) => item.Kind() case Array(kind, _) => kind)
  {
  }

  lemma {:induction false} ValueRoundTrip(v: Value, rest: Bytes)
    requires v.Valid()
    ensures DecodeValue([TypeByteOf(v)] + ValueBytes(v) + rest) == Got(v, rest)
  {
    hide ItemBytes, DecodeItem, ItemsBytes, DecodeItems, Varint.Encode, Varint.Decode;
    var s := [TypeByteOf(v)] + ValueBytes(v) + rest;
    assert s[1..] == ValueBytes(v) + rest;
    TypeByteReads(v);
    match v
    case Scalar(item) =>
      ItemRoundTrip(item, rest);
    case Array(kind, items) =>
      var tail := ItemsBytes(items) + rest;
      assert s[1..] == Varint.Encode(Varint.LENGTH_DELIMITED, |items|) + tail;
      Varint.RoundTrip(Varint.LENGTH_DELIMITED, |items|, tail);
      ItemsRoundTrip(kind, items, rest);
  }

  lemma {:induction false} ParamRoundTrip(p: Param, rest: Bytes)
    requires p.value.Valid()
    ensures DecodeParam(ParamBytes(p) + rest) == Got(p, rest)
  {
    hide TextBytes, DecodeText, TypeByteOf, ValueBytes, DecodeValue;
    var tail := [TypeByteOf(p.value)] + ValueBytes(p.value) + rest;
    assert ParamBytes(p) + rest == TextBytes(p.key) + tail;
    TextRoundTrip(p.key, tail);
    ValueRoundTrip(p.value, rest);
  }

  /** Any list of parameters decodes to itself and the decoder stops right after it. */
  lemma {:induction false} ParamsRoundTrip(ps: seq<Param>, rest: Bytes)
    requires forall p <- ps :: p.value.Valid()
    ensures DecodeParams(|ps|, ParamsBytes(ps) + rest) == Got(ps, rest)
  {
    hide ParamBytes, DecodeParam;
    if ps == [] {
      assert ParamsBytes(ps) + rest == rest;
    } else {
      var tail := ParamsBytes(ps[1..]) + rest;
      assert ParamsBytes(ps) + rest == ParamBytes(ps[0]) + tail;
      ParamRoundTrip(ps[0], tail);
      ParamsRoundTrip(ps[1..], rest);
      assert ps == [ps[0]] + ps[1..];
    }
  }
}
