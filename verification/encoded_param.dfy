/** Parameter objects: a key and a value that know how to append themselves to a buffer. */
module EncodedParams {
  import opened ByteStrings
  import opened RawDataBuffer
  import opened RawDataEncoder
  import opened WireFormat
  import Varint

  const MAX_ARRAY_SIZE: nat := 100

  /** `std::isfinite`: the exponent bits of the memory image are not all ones. */
  predicate FiniteFloat(f: Float32Bits) {
    var high: int := f[3];
    high % 128 * 2 + f[2] / 128 != 255
  }

  predicate FiniteDouble(d: Float64Bits) {
    var high: int := d[7];
    high % 128 * 16 + d[6] / 16 != 2047
  }

  /** The image, read as a little-endian number and without its sign bit, is below that of
      infinity, whose exponent bits are all ones and whose other bits are zero. */
  predicate IsFinite(item: Item) {
    && (item.Float32? ==> FromLittleEndian(item.f) % 0x8000_0000 < 0x7F80_0000)
    && (item.Float64? ==> FromLittleEndian(item.d) % 0x8000_0000_0000_0000 < 0x7FF0_0000_0000_0000)
  }

  /** The two highest bytes of a little-endian number, and what is below them. */
  lemma {:induction false} TopBytes(s: Bytes, n: nat) returns (low: nat)
    requires |s| == n + 2
    ensures FromLittleEndian(s) == low + Pow256(n) * (s[n] as int + 256 * (s[n + 1] as int)) && low < Pow256(n)
  {
    if n == 0 {
      low := 0;
      assert s == [s[0]] + [s[1]];
    } else {
      var rest := TopBytes(s[1..], n - 1);
      low := s[0] + 256 * rest;
      var p, q: int := Pow256(n - 1), s[n] as int + 256 * (s[n + 1] as int);
      assert 256 * (rest + p * q) == 256 * rest + 256 * p * q;
    }
  }

  lemma {:induction false} FloatBits(f: Float32Bits)
    ensures FiniteFloat(f) <==> FromLittleEndian(f) % 0x8000_0000 < 0x7F80_0000
  {
    var low := TopBytes(f, 2);
    var a, b: int := f[2], f[3];
    Pow256Of2And6();
    DivModUnique(FromLittleEndian(f), 0x8000_0000, b / 128, low + 0x1_0000 * (a + 256 * (b % 128)));
  }

  lemma {:induction false} DoubleBits(d: Float64Bits)
    ensures FiniteDouble(d) <==> FromLittleEndian(d) % 0x8000_0000_0000_0000 < 0x7FF0_0000_0000_0000
  {
    var low := TopBytes(d, 6);
    var a, b: int := d[6], d[7];
    Pow256Of2And6();
    DivModUnique(FromLittleEndian(d), 0x8000_0000_0000_0000, b / 128,
                 low + 0x1_0000_0000_0000 * (a + 256 * (b % 128)));
  }

  lemma {:induction false} Pow256Of2And6()
    ensures Pow256(2) == 0x1_0000 && Pow256(6) == 0x1_0000_0000_0000
  {
  }

  /** Infinities and NaNs are replaced by positive zero; everything else is kept. */
  function Finite(item: Item): (r: Item)
    ensures r.Kind() == item.Kind()
    ensures IsFinite(item) ==> r == item
    ensures !IsFinite(item) && item.Float32? ==> r == Float32([0, 0, 0, 0])
    ensures !IsFinite(item) && item.Float64? ==> r == Float64([0, 0, 0, 0, 0, 0, 0, 0])
  {
    match item
    case Float32(f) =>
      FloatBits(f);
      if FiniteFloat(f) then item else Float32([0, 0, 0, 0])
    case Float64(d) =>
      DoubleBits(d);
      if FiniteDouble(d) then item else Float64([0, 0, 0, 0, 0, 0, 0, 0])
    case _ => item
  }

  function FiniteItems(items: seq<Item>): (r: seq<Item>)
    ensures |r| == |items| && forall i :: 0 <= i < |items| ==> r[i] == Finite(items[i])
  {
    seq(|items|, i requires 0 <= i < |items| => Finite(items[i]))
  }

  /** The value a parameter object stores for the value it is given. */
  function Stored(v: Value): (r: Value)
    requires v.Valid()
    ensures r.Valid()
  {
    match v
    case Scalar(item) => Scalar(Finite(item))
    case Array(kind, items) =>
      Array(kind, FiniteItems(items[..if |items| < MAX_ARRAY_SIZE then |items| else MAX_ARRAY_SIZE]))
  }

  class EncodedParam {
    const key: Bytes
    const value: Value
    var rawData: RawData?
    var hasEncoded: bool

    /** The constructor of an array parameter copies items until it has 100 of them. */
    constructor (key: Bytes, v: Value)
      requires v.Valid()
      ensures this.key == key && this.value == Stored(v) && value.Valid()
      ensures rawData == null && !hasEncoded
    {
      this.key := key;
      rawData := null;
      hasEncoded := false;
      match v {
        case Scalar(item) =>
          this.value := Scalar(Finite(item));
        case Array(kind, given) =>
          var vals: seq<Item> := [];
          var index := 0;
          while index < |given|
            invariant 0 <= index <= |given|
            invariant vals == FiniteItems(given[..index])
            invariant index <= MAX_ARRAY_SIZE
          {
            if index + 1 > MAX_ARRAY_SIZE {
              break;
            }
            vals := vals + [Finite(given[index])];
            index := index + 1;
          }
          this.value := Array(kind, vals);
      }
    }

    method SetRawData(data: RawData?)
      modifies this`rawData
      ensures rawData == data
    {
      rawData := data;
    }

    ghost predicate Valid()
      reads this, rawData, if rawData == null then {} else {rawData.data}
    {
      value.Valid() && (rawData != null ==> rawData.Valid())
    }

    ghost function Footprint(): set<object?>
      reads this, rawData
    {
      if rawData == null then {}
      else if rawData.data == null then {rawData}
      else {rawData, rawData.data}
    }

    /** The bytes in the attached buffer, none when no buffer is attached. */
    ghost function Buffer(): Bytes
      requires Valid()
      reads this, rawData, if rawData == null then {} else {rawData.data}
    {
      if rawData == null then [] else rawData.Contents()
    }

    /** A buffer is attached and no allocation fails. */
    ghost predicate Ready()
      reads this, rawData
    {
      rawData != null && rawData.Ready()
    }

    /** Key, value type, value, each only after the one before it succeeded. */
    method Encode() returns (ok: bool)
      requires Valid()
      modifies this`hasEncoded, Footprint()
      ensures Valid() && rawData == old(rawData) && fresh(Footprint() - old(Footprint()))
      ensures old(Ready()) ==> ok && Ready()
      ensures ok ==> rawData != null
      ensures Extends(old(Buffer()), Buffer(), ParamBytes(Param(key, value)), ok)
      ensures hasEncoded == ok
    {
      hide TextBytes, TypeByteOf, ValueBytes, Extends;
      ghost var k, t, v := TextBytes(key), [TypeByteOf(value)], ValueBytes(value);
      assert ParamBytes(Param(key, value)) == k + t + v by { }
      ghost var b0 := Buffer();
      ok := EncodeKey();
      ghost var b1 := Buffer();
      if ok {
        ok := EncodeValueType();
        ghost var b2 := Buffer();
        ExtendsTwice(b0, b1, b2, k, t, ok);
        if ok {
          ok := EncodeValue();
          ExtendsTwice(b0, b2, Buffer(), k + t, v, ok);
        } else {
          ExtendsPart(b0, b2, k + t, v);
        }
      } else {
        ExtendsPart(b0, b1, k, t);
        ExtendsPart(b0, b1, k + t, v);
      }
      hasEncoded := ok;
    }

    method EncodeKey() returns (ok: bool)
      requires Valid()
      modifies Footprint()
      ensures Valid() && rawData == old(rawData) && fresh(Footprint() - old(Footprint()))
      ensures old(Ready()) ==> ok && Ready()
      ensures ok ==> rawData != null
      ensures Extends(old(Buffer()), Buffer(), TextBytes(key), ok)
    {
      if rawData == null {
        return false;
      }
      ok := LengthDelimited(rawData, key);
    }

    method EncodeValueType() returns (ok: bool)
      requires Valid()
      modifies Footprint()
      ensures Valid() && rawData == old(rawData) && fresh(Footprint() - old(Footprint()))
      ensures old(Ready()) ==> ok && Ready()
      ensures ok ==> rawData != null
      ensures Extends(old(Buffer()), Buffer(), [TypeByteOf(value)], ok)
    {
      if rawData == null {
        return false;
      }
      match value
      case Scalar(item) => ok := ValueTypeEncoded(rawData, false, item.Kind());
      case Array(kind, _) => ok := ValueTypeEncoded(rawData, true, kind);
    }

    /** A scalar is one item; an array is its size and then each item. */
    method EncodeValue() returns (ok: bool)
      requires Valid()
      modifies Footprint()
      ensures Valid() && rawData == old(rawData) && fresh(Footprint() - old(Footprint()))
      ensures old(Ready()) ==> ok && Ready()
      ensures ok ==> rawData != null
      ensures Extends(old(Buffer()), Buffer(), ValueBytes(value), ok)
    {
      if rawData == null {
        return false;
      }
      match value
      case Scalar(item) => ok := ItemEncoded(rawData, item);
      case Array(_, items) =>
        ghost var b0 := Buffer();
        ok := UnsignedVarintEncoded(rawData, Varint.LENGTH_DELIMITED, |items|);
        ghost var b1 := Buffer();
        ghost var head := Varint.Encode(Varint.LENGTH_DELIMITED, |items|);
        if ok {
          ok := EncodeItems(items);
          ExtendsTwice(b0, b1, Buffer(), head, ItemsBytes(items), ok);
        } else {
          ExtendsPart(b0, b1, head, ItemsBytes(items));
        }
    }

    /** Appends the items in order; once one failed, the rest are skipped. */
    method EncodeItems(items: seq<Item>) returns (ret: bool)
      requires Valid() && rawData != null
      modifies Footprint()
      ensures Valid() && rawData == old(rawData) && fresh(Footprint() - old(Footprint()))
      ensures old(Ready()) ==> ret && Ready()
      ensures Extends(old(Buffer()), Buffer(), ItemsBytes(items), ret)
    {
      hide ItemBytes, ItemsBytes, Extends;
      ghost var b0 := Buffer();
      ret := true;
      assert ItemsBytes(items[..0]) == [] by { EmptyItems(); }
      assert Extends(b0, Buffer(), [], true) by { NothingExtends(b0); }
      for i := 0 to |items|
        invariant Valid() && rawData == old(rawData) && fresh(Footprint() - old(Footprint()))
        invariant old(Ready()) ==> ret && Ready()
        invariant Extends(b0, Buffer(), if ret then ItemsBytes(items[..i]) else ItemsBytes(items), ret)
      {
        if ret {
          ghost var b1 := Buffer();
          ret := ItemEncoded(rawData, items[i]);
          ghost var part, more := ItemsBytes(items[..i]), ItemBytes(items[i]);
          ExtendsTwice(b0, b1, Buffer(), part, more, ret);
          ItemsBytesAppend(items[..i], items[i]);
          assert items[..i] + [items[i]] == items[..i + 1];
          if !ret {
            ItemsBytesSplit(items, i + 1);
            ExtendsPart(b0, Buffer(), part + more, ItemsBytes(items[i + 1..]));
          }
        }
      }
      assert items[..|items|] == items;
    }
  }

  lemma {:induction false} EmptyItems()
    ensures forall items: seq<Item> :: items == [] ==> ItemsBytes(items) == []
  {
  }

  lemma {:induction false} NothingExtends(b: Bytes)
    ensures Extends(b, b, [], true)
  {
  }
}
