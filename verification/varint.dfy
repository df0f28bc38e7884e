/** The tagged varint of the event wire format: a first byte with a 2-bit tag, a continuation
    bit and 5 value bits, then bytes with a continuation bit and 7 value bits. */
module Varint {
  import opened ByteStrings

  type Tag = t: int | 0 <= t < 4
  const VARINT: Tag := 0
  const LENGTH_DELIMITED: Tag := 1

  function Encode(tag: Tag, v: nat): (r: Bytes)
    ensures r != []
  {
    [tag * 64 + (if v < 32 then 0 else 32) + v % 32] + EncodeTail(v / 32)
  }

  function EncodeTail(v: nat): Bytes {
    if v == 0 then [] else [(if v < 128 then 0 else 128) + v % 128] + EncodeTail(v / 128)
  }

  /** The reference decoder: reads the tag and the value from the front of a byte string. */
  function Decode(s: Bytes): (r: Parsed<(Tag, nat)>)
    ensures r.Got? ==> |r.rest| < |s| && r.rest == s[|s| - |r.rest|..]
  {
    if s == [] then Fail
    else if s[0] / 32 % 2 == 0 then Got((s[0] / 64, s[0] % 32), s[1..])
    else match DecodeTail(s[1..])
      case Fail => Fail
      case Got(v, rest) => Got((s[0] / 64, s[0] % 32 + 32 * v), rest)
  }

  function DecodeTail(s: Bytes): (r: Parsed<nat>)
    ensures r.Got? ==> |r.rest| < |s| && r.rest == s[|s| - |r.rest|..]
  {
    if s == [] then Fail
    else if s[0] < 128 then Got(s[0], s[1..])
    else match DecodeTail(s[1..])
      case Fail => Fail
      case Got(v, rest) => Got(s[0] - 128 + 128 * v, rest)
  }

  lemma {:induction false} TailStep(v: nat)
    ensures v == 0 ==> EncodeTail(v) == []
    ensures v > 0 ==> EncodeTail(v) == [(if v < 128 then 0 else 128) + v % 128] + EncodeTail(v / 128)
  {
  }

  lemma {:induction false} EncodeStep(tag: Tag, v: nat)
    ensures Encode(tag, v) == [tag * 64 + (if v < 32 then 0 else 32) + v % 32] + EncodeTail(v / 32)
  {
  }

  lemma {:induction false} TailRoundTrip(v: nat, rest: Bytes)
    requires v > 0
    ensures DecodeTail(EncodeTail(v) + rest) == Got(v, rest)
  {
    var s := EncodeTail(v) + rest;
    assert s[1..] == EncodeTail(v / 128) + rest;
    if v >= 128 {
      TailRoundTrip(v / 128, rest);
    }
  }

  lemma {:induction false} FirstByte(tag: Tag, more: bool, low: nat)
    requires low < 32
    ensures var b := tag * 64 + (if more then 32 else 0) + low;
            b / 64 == tag && b % 32 == low && b / 32 % 2 == (if more then 1 else 0)
  {
    var c := if more then 1 else 0;
    var b := tag * 64 + 32 * c + low;
    DivModUnique(b, 64, tag, 32 * c + low);
    DivModUnique(b, 32, 2 * tag + c, low);
  }

  /** Decoding returns the tag and the value and stops exactly at the end of the encoding,
      whatever bytes follow. */
  lemma {:induction false} RoundTrip(tag: Tag, v: nat, rest: Bytes)
    ensures Decode(Encode(tag, v) + rest) == Got((tag, v), rest)
  {
    var s := Encode(tag, v) + rest;
    assert s[1..] == EncodeTail(v / 32) + rest;
    FirstByte(tag, v >= 32, v % 32);
    if v >= 32 {
      TailRoundTrip(v / 32, rest);
    }
  }

  /** No encoding is a prefix of another one. */
  lemma {:induction false} PrefixFree(t1: Tag, v1: nat, t2: Tag, v2: nat)
    ensures Encode(t1, v1) <= Encode(t2, v2) ==> t1 == t2 && v1 == v2
  {
    if Encode(t1, v1) <= Encode(t2, v2) {
      RoundTrip(t1, v1, Encode(t2, v2)[|Encode(t1, v1)|..]);
      assert Encode(t2, v2) == Encode(t1, v1) + Encode(t2, v2)[|Encode(t1, v1)|..];
      RoundTrip(t2, v2, []);
      assert Encode(t2, v2) + [] == Encode(t2, v2);
    }
  }

  lemma {:induction false} TailMinimal(s: Bytes)
    requires DecodeTail(s).Got?
    ensures var r := DecodeTail(s);
            var used := |s| - |r.rest|;
            |EncodeTail(r.value)| <= used &&
            (|EncodeTail(r.value)| == used ==> s[..used] == EncodeTail(r.value))
  {
    if s[0] < 128 {
      ShortTail(s[0]);
    } else {
      hide EncodeTail;
      TailMinimal(s[1..]);
      var r := DecodeTail(s[1..]);
      LongTail(s[0], r.value);
      var used := |s[1..]| - |r.rest|;
      assert s[..used + 1] == [s[0]] + s[1..][..used];
    }
  }

  lemma {:induction false} ShortTail(b: Byte)
    requires b < 128
    ensures EncodeTail(b) == if b == 0 then [] else [b]
  {
    assert EncodeTail(0) == [];
  }

  /** A continued byte in front of the bytes of `v` is the encoding, unless `v` is zero. */
  lemma {:induction false} LongTail(b: Byte, v: nat)
    requires b >= 128
    ensures v > 0 ==> EncodeTail(b - 128 + 128 * v) == [b] + EncodeTail(v)
    ensures v == 0 ==> |EncodeTail(b - 128 + 128 * v)| <= 1
  {
    if v == 0 {
      ShortTail(b - 128);
    } else {
      var w := b - 128 + 128 * v;
      DivModUnique(w, 128, v, b - 128);
      hide EncodeTail;
      TailStep(w);
    }
  }

  lemma {:induction false} SplitByte(b: Byte)
    ensures b == b / 64 * 64 + b / 32 % 2 * 32 + b % 32
  {
  }

  lemma {:induction false} TailEmpty(v: nat)
    ensures EncodeTail(v) == [] <==> v == 0
  {
  }

  /** Of all byte strings that decode to a given tag and value, the encoding is the shortest,
      and the only one of its length. */
  lemma {:induction false} Minimal(s: Bytes)
    requires Decode(s).Got?
    ensures var r := Decode(s);
            var e := Encode(r.value.0, r.value.1);
            var used := |s| - |r.rest|;
            |e| <= used && (|e| == used ==> s[..used] == e)
  {
    SplitByte(s[0]);
    if s[0] / 32 % 2 == 1 {
      hide EncodeTail, DecodeTail;
      TailMinimal(s[1..]);
      var r := DecodeTail(s[1..]);
      DivModUnique(s[0] % 32 + 32 * r.value, 32, r.value, s[0] % 32);
      assert EncodeTail(r.value) != [] || r.value == 0 by { TailEmpty(r.value); }
      var used := |s[1..]| - |r.rest|;
      assert s[..used + 1] == [s[0]] + s[1..][..used];
    } else {
      TailEmpty(0);
    }
  }

  function Pow128(n: nat): (r: nat)
    ensures r > 0
  {
    if n == 0 then 1 else 128 * Pow128(n - 1)
  }

  lemma {:induction false} TailLength(v: nat, n: nat)
    ensures |EncodeTail(v)| <= n <==> v < Pow128(n)
  {
    if v > 0 && n > 0 {
      TailLength(v / 128, n - 1);
    }
  }

  /** An encoding has at most `1 + n` bytes exactly when the value has at most `5 + 7n` bits. */
  lemma {:induction false} Length(tag: Tag, v: nat, n: nat)
    ensures |Encode(tag, v)| <= 1 + n <==> v < 32 * Pow128(n)
  {
    TailLength(v / 32, n);
  }

  /** One byte exactly below 32, two below 4096, and never more than ten for a 64-bit value. */
  lemma {:induction false} LengthBounds(tag: Tag, v: nat)
    ensures |Encode(tag, v)| == 1 <==> v < 32
    ensures |Encode(tag, v)| <= 2 <==> v < 4096
    ensures v < TWO_TO_THE_64 ==> |Encode(tag, v)| <= 10
  {
    Length(tag, v, 0);
    Length(tag, v, 1);
    Length(tag, v, 9);
    assert Pow128(1) == 128;
    assert Pow128(3) == 0x20_0000;
    assert Pow128(5) == 0x8_0000_0000;
    assert Pow128(7) == 0x2_0000_0000_0000;
    assert Pow128(9) == 0x8000_0000_0000_0000;
  }

  /** The forms of up to three bytes: the tag in the two highest bits of the first byte, below it
      the flag that more follows and the five lowest bits of the value; then groups of seven bits,
      the lower one first, each but the last with its highest bit set. */
  lemma {:induction false} FirstForms(tag: Tag, v: nat)
    ensures v < 32 ==> Encode(tag, v) == [64 * tag + v]
    ensures 32 <= v < 4096 ==> Encode(tag, v) == [64 * tag + 32 + v % 32, v / 32]
    ensures 4096 <= v < 524288 ==> Encode(tag, v) == [64 * tag + 32 + v % 32, 128 + v / 32 % 128, v / 4096]
  {
    TailStep(v / 32);
    TailStep(v / 32 / 128);
    TailStep(0);
  }

  /** The shifts and masks of the encoder are the divisions and remainders used above. */
  lemma {:induction false} BitForm(tag: bv8, v: bv64)
    requires tag < 4
    ensures v & 31 == v % 32 && v >> 5 == v / 32
    ensures v & 127 == v % 128 && v >> 7 == v / 128
    ensures (tag << 6) | ((v & 31) as bv8) == tag * 64 + (v & 31) as bv8
    ensures (tag << 6) | 32 | ((v & 31) as bv8) == tag * 64 + 32 + (v & 31) as bv8
    ensures 128 | ((v & 127) as bv8) == 128 + (v & 127) as bv8
  {
  }
}

/** The zigzag map of the encoder on 64-bit words, with its inverse. */
module Zigzag {
  import opened ByteStrings
  import Varint

  /** The unsigned 64-bit word holding the two's complement pattern of `v`. */
  function Word(v: int): (r: U64) {
    v % TWO_TO_THE_64
  }

  /** `(uint64(v) << 1) ^ mask` on 64-bit words: the shift drops the top bit and the all-ones
      mask of a negative value complements every bit. */
  function Encode(v: I64): (r: U64) {
    var shifted := Word(2 * Word(v));
    if v >= 0 then shifted else TWO_TO_THE_64 - 1 - shifted
  }

  function Decode(u: U64): (r: I64) {
    if u % 2 == 0 then u / 2 else -(u / 2) - 1
  }

  /** The wrap-around formula is 2v or -2v-1, including at the smallest 64-bit value. */
  lemma {:induction false} EncodeValue(v: I64)
    ensures Encode(v) == if v >= 0 then 2 * v else -2 * v - 1
  {
    if v >= 0 {
      DivModUnique(v, TWO_TO_THE_64, 0, v);
      DivModUnique(2 * v, TWO_TO_THE_64, 0, 2 * v);
    } else {
      DivModUnique(v, TWO_TO_THE_64, -1, v + TWO_TO_THE_64);
      DivModUnique(2 * Word(v), TWO_TO_THE_64, 1, 2 * v + TWO_TO_THE_64);
    }
  }

  /** The map is a bijection between signed and unsigned 64-bit values. */
  lemma {:induction false} Bijection(v: I64, u: U64)
    ensures Decode(Encode(v)) == v
    ensures Encode(Decode(u)) == u
  {
    hide Encode;
    EncodeValue(v);
    EncodeValue(Decode(u));
  }

  /** A signed value survives the zigzag map followed by the varint, whatever follows it. */
  lemma {:induction false} VarintRoundTrip(v: I64, rest: Bytes)
    ensures Varint.Decode(Varint.Encode(Varint.VARINT, Encode(v)) + rest).Got?
    ensures var r := Varint.Decode(Varint.Encode(Varint.VARINT, Encode(v)) + rest);
            r.rest == rest && r.value.1 < TWO_TO_THE_64 && Decode(r.value.1) == v
  {
    Varint.RoundTrip(Varint.VARINT, Encode(v), rest);
    Bijection(v, 0);
  }

  /** The signed value of a `bits`-wide two's complement pattern. */
  function FromPattern(raw: nat, size: nat): int
    requires raw < size
  {
    if 2 * raw < size then raw else raw - size
  }

  /** Sign-extending a narrower pattern to 64 bits and then mapping it gives the code of its
      value, so each signed width writes the bytes of its 64-bit widening; so does `bool`, which is
      the 8-bit pattern 0 or 1. */
  lemma {:induction false} NarrowWidths(raw: nat, size: nat)
    requires size == 0x100 || size == 0x1_0000 || size == TWO_TO_THE_32 || size == TWO_TO_THE_64
    requires raw < size
    ensures -TWO_TO_THE_63 <= FromPattern(raw, size) < TWO_TO_THE_63
    ensures var extended := if 2 * raw < size then raw else raw + TWO_TO_THE_64 - size;
            var shifted := Word(2 * extended);
            Encode(FromPattern(raw, size)) ==
            if 2 * raw < size then shifted else TWO_TO_THE_64 - 1 - shifted
  {
    var v := FromPattern(raw, size);
    if 2 * raw < size {
      DivModUnique(v, TWO_TO_THE_64, 0, raw);
    } else {
      DivModUnique(v, TWO_TO_THE_64, -1, raw + TWO_TO_THE_64 - size);
    }
  }

  /** On machine words the shift doubles and the xor with all ones subtracts from the maximum. */
  lemma {:induction false} BitForm(w: bv64)
    ensures w << 1 == w + w
    ensures w ^ 0xFFFF_FFFF_FFFF_FFFF == 0xFFFF_FFFF_FFFF_FFFF - w
  {
  }
}
