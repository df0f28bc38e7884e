/** The primitive encoders: they append to a RawData buffer byte by byte and stop at the first
    append that fails, leaving a prefix of the encoding behind. */
module RawDataEncoder {
  import opened ByteStrings
  import opened RawDataBuffer
  import Varint
  import Zigzag
  import opened WireFormat

  /** `after` is `before` with `src` appended, in full exactly when `ok`. */
  ghost predicate Extends(before: Bytes, after: Bytes, src: Bytes, ok: bool) {
    if ok then after == before + src else before <= after < before + src
  }

  lemma {:induction false} ExtendsTwice(b0: Bytes, b1: Bytes, b2: Bytes, s1: Bytes, s2: Bytes, ok: bool)
    requires Extends(b0, b1, s1, true) && Extends(b1, b2, s2, ok)
    ensures Extends(b0, b2, s1 + s2, ok)
  {
    assert b0 + (s1 + s2) == (b0 + s1) + s2;
  }

  lemma {:induction false} ExtendsPart(b0: Bytes, b1: Bytes, s1: Bytes, s2: Bytes)
    requires Extends(b0, b1, s1, false)
    ensures Extends(b0, b1, s1 + s2, false)
  {
    assert b0 + (s1 + s2) == (b0 + s1) + s2;
  }

  method UnsignedVarintEncoded(data: RawData, tag: Varint.Tag, val: nat) returns (ok: bool)
    requires data.Valid()
    modifies data`data, data`len, data`capacity, data`longest, data.data
    ensures data.Valid() && (data.data == old(data.data) || fresh(data.data))
    ensures old(data.Ready()) ==> ok && data.Ready()
    ensures Extends(old(data.Contents()), data.Contents(), Varint.Encode(tag, val), ok)
  {
    hide Varint.Encode, Varint.EncodeTail;
    Varint.EncodeStep(tag, val);
    var rest := val;
    var cpyVal := tag * 64 + (if rest < 32 then 0 else 32) + rest % 32;
    ghost var todo := Varint.Encode(tag, val);
    ok := data.Append([cpyVal]);
    if !ok {
      return;
    }
    rest := rest / 32;
    ghost var done := [cpyVal];
    while rest > 0
      invariant data.Valid() && (data.data == old(data.data) || fresh(data.data))
      invariant old(data.Ready()) ==> data.Ready()
      invariant done + Varint.EncodeTail(rest) == todo
      invariant data.Contents() == old(data.Contents()) + done
    {
      Varint.TailStep(rest);
      cpyVal := (if rest < 128 then 0 else 128) + rest % 128;
      ok := data.Append([cpyVal]);
      if !ok {
        return;
      }
      done := done + [cpyVal];
      rest := rest / 128;
    }
    Varint.TailStep(0);
    return true;
  }

  method SignedVarintEncoded(data: RawData, tag: Varint.Tag, val: I64) returns (ok: bool)
    requires data.Valid()
    modifies data`data, data`len, data`capacity, data`longest, data.data
    ensures data.Valid() && (data.data == old(data.data) || fresh(data.data))
    ensures old(data.Ready()) ==> ok && data.Ready()
    ensures Extends(old(data.Contents()), data.Contents(),
                    Varint.Encode(tag, Zigzag.Encode(val)), ok)
  {
    var doubled := Zigzag.Word(2 * Zigzag.Word(val));
    var uVal := if val >= 0 then doubled else TWO_TO_THE_64 - 1 - doubled;
    ok := UnsignedVarintEncoded(data, tag, uVal);
  }

  /** A length, then the bytes: used for text and for the memory image of a floating value. */
  method LengthDelimited(data: RawData, bytes: Bytes) returns (ok: bool)
    requires data.Valid()
    modifies data`data, data`len, data`capacity, data`longest, data.data
    ensures data.Valid() && (data.data == old(data.data) || fresh(data.data))
    ensures old(data.Ready()) ==> ok && data.Ready()
    ensures Extends(old(data.Contents()), data.Contents(), TextBytes(bytes), ok)
  {
    ghost var b0 := data.Contents();
    ok := UnsignedVarintEncoded(data, Varint.LENGTH_DELIMITED, |bytes|);
    ghost var b1 := data.Contents();
    ghost var head := Varint.Encode(Varint.LENGTH_DELIMITED, |bytes|);
    if !ok {
      ExtendsPart(b0, b1, head, bytes);
      return;
    }
    ok := data.Append(bytes);
    ExtendsTwice(b0, b1, data.Contents(), head, bytes, ok);
  }

  method ValueTypeEncoded(data: RawData, isArray: bool, kind: Kind) returns (ok: bool)
    requires data.Valid()
    modifies data`data, data`len, data`capacity, data`longest, data.data
    ensures data.Valid() && (data.data == old(data.data) || fresh(data.data))
    ensures old(data.Ready()) ==> ok && data.Ready()
    ensures Extends(old(data.Contents()), data.Contents(), [TypeByte(isArray, kind)], ok)
  {
    ok := data.Append([(if isArray then 1 else 0) + 2 * kind.Code()]);
  }

  method ItemEncoded(data: RawData, item: Item) returns (ok: bool)
    requires data.Valid()
    modifies data`data, data`len, data`capacity, data`longest, data.data
    ensures data.Valid() && (data.data == old(data.data) || fresh(data.data))
    ensures old(data.Ready()) ==> ok && data.Ready()
    ensures Extends(old(data.Contents()), data.Contents(), ItemBytes(item), ok)
  {
    match item
    case Signed(i) => ok := SignedVarintEncoded(data, Varint.VARINT, i);
    case Unsigned(u) => ok := UnsignedVarintEncoded(data, Varint.VARINT, u);
    case Float32(f) => ok := LengthDelimited(data, f);
    case Float64(d) => ok := LengthDelimited(data, d);
    case Text(s) => ok := LengthDelimited(data, s);
  }
}
