/** What a reader of a message gets back of the values that a caller passed. */
module ReadBack {
  import opened ByteStrings
  import opened Def
  import opened EncodedParams
  import opened EventFormat
  import opened HiSysEvents
  import opened StringFilters
  import opened WireFormat

  // ---------- reading a value

  function TextOf(item: Item): Bytes {
    if item.Text? then Unescape(item.s) else []
  }

  /** The value that a decoded parameter stands for, in the caller's terms. */
  function Recover(v: Value): (r: KvValue)
    requires v.Valid()
    ensures r.Valid()
  {
    match v
    case Scalar(item) => if item.Text? then Str(TextOf(item)) else Number(item)
    case Array(kind, items) =>
      if kind == String then Strs(seq(|items|, i requires 0 <= i < |items| => TextOf(items[i])))
      else Numbers(kind, items)
  }

  function RecoverAll(params: seq<Param>): (r: seq<KeyValue>)
    requires forall p <- params :: p.value.Valid()
    ensures |r| == |params|
    ensures forall i :: 0 <= i < |r| ==> r[i] == KeyValue(params[i].key, Recover(params[i].value))
  {
    seq(|params|, i requires 0 <= i < |params| => KeyValue(params[i].key, Recover(params[i].value)))
  }

  // ---------- what is left of a value

  function Cut<T>(s: seq<T>): seq<T> {
    if |s| < EncodedParams.MAX_ARRAY_SIZE then s else s[..EncodedParams.MAX_ARRAY_SIZE]
  }

  function Printables(texts: seq<Bytes>): (r: seq<Bytes>)
    ensures |r| == |texts| && forall i :: 0 <= i < |texts| ==> r[i] == Printable(texts[i])
  {
    seq(|texts|, i requires 0 <= i < |texts| => Printable(texts[i]))
  }

  /** Non-finite numbers become zero, dropped bytes are gone, arrays have at most 100 items, and
      every empty array is one of signed numbers. */
  function Left(v: KvValue): (r: KvValue)
    requires v.Valid()
    ensures r.Valid()
  {
    match v
    case Number(item) => Number(Finite(item))
    case Str(text) => Str(Printable(text))
    case Numbers(kind, items) => if items == [] then Numbers(Int64, []) else Numbers(kind, FiniteItems(Cut(items)))
    case Strs(texts) => if texts == [] then Numbers(Int64, []) else Strs(Printables(Cut(texts)))
  }

  lemma {:induction false} CutIs<T>(s: seq<T>)
    ensures Cut(s) == s[..if |s| < 100 then |s| else 100]
    ensures Cut(s) == s <==> |s| <= 100
    ensures Cut(s) == [] <==> s == []
  {
  }

  /** Escaping, cutting and zeroing together: the reader gets exactly what is left. */
  lemma {:induction false} RecoverIsLeft(v: KvValue)
    requires v.Valid()
    ensures Recover(Stored(Given(v))) == Left(v)
  {
    hide Unescape, Escape, Printable, Finite;
    match v
    case Number(item) =>
    case Str(text) => StrRecovers(text);
    case Numbers(kind, items) => CutIs(items);
    case Strs(texts) =>
      if texts != [] {
        TextsRecover(texts);
      }
  }

  lemma {:induction false} StrRecovers(text: Bytes)
    ensures Recover(Stored(Given(Str(text)))) == Str(Printable(text))
  {
    hide Unescape, Escape, Printable;
    EscapeRoundTrip(text);
  }

  lemma {:induction false} TextsRecover(texts: seq<Bytes>)
    requires texts != []
    ensures Recover(Stored(Given(Strs(texts)))) == Strs(Printables(Cut(texts)))
  {
    hide Unescape, Escape, Printable;
    var r := Recover(Stored(Given(Strs(texts))));
    assert |r.texts| == |Cut(texts)|;
    forall i | 0 <= i < |r.texts| ensures r.texts[i] == Printable(Cut(texts)[i]) {
      EscapeRoundTrip(texts[i]);
    }
  }

  // ---------- when nothing is lost

  predicate IsPrintable(text: Bytes) {
    forall c <- text :: (c >= 0x20 && c != 0x7F) || c == 8 || c == 9 || c == 10 || c == 12 || c == 13
  }

  /** A caller can see from the value alone whether it arrives. */
  predicate Arrives(v: KvValue) {
    match v
    case Number(item) => IsFinite(item)
    case Str(text) => IsPrintable(text)
    case Numbers(kind, items) =>
      && |items| <= 100 && (items == [] ==> kind == Int64)
      && forall item <- items :: IsFinite(item)
    case Strs(texts) =>
      && 0 < |texts| <= 100 && forall text <- texts :: IsPrintable(text)
  }

  lemma {:induction false} FiniteIff(item: Item)
    ensures Finite(item) == item <==> IsFinite(item)
  {
    ZeroIsFinite();
  }

  lemma {:induction false} ZeroIsFinite()
    ensures IsFinite(Float32([0, 0, 0, 0])) && IsFinite(Float64([0, 0, 0, 0, 0, 0, 0, 0]))
  {
    FloatBits([0, 0, 0, 0]);
    DoubleBits([0, 0, 0, 0, 0, 0, 0, 0]);
  }

  lemma {:induction false} PrintableKept(text: Bytes)
    ensures Printable(text) == text <==> IsPrintable(text)
  {
    PrintableIff(text);
    assert forall c <- text :: IsKept(c) <==> (c >= 0x20 && c != 0x7F) || c == 8 || c == 9 || c == 10 || c == 12 || c == 13;
  }

  lemma {:induction false} LeftIff(v: KvValue)
    requires v.Valid()
    ensures Left(v) == v <==> Arrives(v)
  {
    hide Printable, Finite, IsFinite, IsPrintable;
    match v
    case Number(item) => FiniteIff(item);
    case Str(text) => PrintableKept(text);
    case Numbers(kind, items) =>
      CutIs(items);
      forall item: Item {
        FiniteIff(item);
      }
      if |items| <= EncodedParams.MAX_ARRAY_SIZE {
        NumbersLeft(items);
      }
    case Strs(texts) =>
      CutIs(texts);
      if |texts| <= EncodedParams.MAX_ARRAY_SIZE {
        TextsLeft(texts);
      }
  }

  lemma {:induction false} NumbersLeft(items: seq<Item>)
    ensures FiniteItems(items) == items <==> forall item <- items :: IsFinite(item)
  {
    hide Finite, IsFinite;
    forall item: Item {
      FiniteIff(item);
    }
    if FiniteItems(items) == items {
      forall item | item in items ensures IsFinite(item) {
        var i :| 0 <= i < |items| && items[i] == item;
        assert FiniteItems(items)[i] == Finite(item);
      }
    }
  }

  lemma {:induction false} TextsLeft(texts: seq<Bytes>)
    ensures Printables(texts) == texts <==> forall text <- texts :: IsPrintable(text)
  {
    hide Printable, IsPrintable;
    forall text: Bytes {
      PrintableKept(text);
    }
    if Printables(texts) == texts {
      forall text | text in texts ensures IsPrintable(text) {
        var i :| 0 <= i < |texts| && texts[i] == text;
        assert Printables(texts)[i] == Printable(text);
      }
    }
  }

  /** A value comes back unchanged if and only if it has only finite numbers, no byte that escaping
      drops, at most 100 items, and is not an empty array of another kind than signed numbers. */
  lemma {:induction false} ValueArrivesIff(v: KvValue)
    requires v.Valid()
    ensures Recover(Stored(Given(v))) == v <==> Arrives(v)
  {
    RecoverIsLeft(v);
    LeftIff(v);
  }

  // ---------- which values are written alike

  /** Dropped bytes leave no trace. */
  lemma {:induction false} EscapeOfPrintable(text: Bytes)
    ensures Escape(Printable(text)) == Escape(text)
  {
    if text != [] {
      EscapeOfPrintable(text[1..]);
      var c := text[0];
      if EscapeLetter(c).None? && IsControl(c) {
        assert Printable(text) == Printable(text[1..]) && Escape(text) == Escape(text[1..]);
      } else {
        assert Printable(text) == [c] + Printable(text[1..]);
        EscapeFront(c, Printable(text[1..]));
      }
    }
  }

  lemma {:induction false} EscapeFront(c: Byte, text: Bytes)
    ensures Escape([c] + text) == EscapeByte(c) + Escape(text)
  {
    assert ([c] + text)[1..] == text;
  }

  lemma {:induction false} FiniteTwice(item: Item)
    ensures Finite(Finite(item)) == Finite(item)
  {
    ZeroIsFinite();
  }

  lemma {:induction false} StoredOfLeft(v: KvValue)
    requires v.Valid()
    ensures Stored(Given(Left(v))) == Stored(Given(v))
  {
    hide Finite, Escape, Printable;
    match v
    case Number(item) => FiniteTwice(item);
    case Str(text) => EscapeOfPrintable(text);
    case Numbers(kind, items) =>
      CutIs(items);
      CutIs(FiniteItems(Cut(items)));
      forall item: Item {
        FiniteTwice(item);
      }
      assert FiniteItems(FiniteItems(Cut(items))) == FiniteItems(Cut(items));
    case Strs(texts) =>
      if texts != [] {
        TextsOfLeft(texts);
      }
  }

  lemma {:induction false} TextsOfLeft(texts: seq<Bytes>)
    requires texts != []
    ensures Stored(Given(Strs(Printables(Cut(texts))))) == Stored(Given(Strs(texts)))
  {
    hide Escape, Printable;
    var a, b := Stored(Given(Strs(Printables(Cut(texts))))), Stored(Given(Strs(texts)));
    CutIs(texts);
    assert |a.items| == |b.items| == |Cut(texts)|;
    forall i | 0 <= i < |a.items| ensures a.items[i] == b.items[i] {
      EscapeOfPrintable(texts[i]);
    }
    assert a.items == b.items;
  }

  /** Two values are written as the same bytes if and only if the same is left of them. */
  lemma {:induction false} WrittenAlikeIff(key: Bytes, v: KvValue, w: KvValue)
    requires v.Valid() && w.Valid()
    ensures ParamBytes(ToParam(KeyValue(key, v))) == ParamBytes(ToParam(KeyValue(key, w))) <==> Left(v) == Left(w)
  {
    hide ParamBytes, Recover, Left, Stored, Given;
    var p, q := ToParam(KeyValue(key, v)), ToParam(KeyValue(key, w));
    RecoverIsLeft(v);
    RecoverIsLeft(w);
    StoredOfLeft(v);
    StoredOfLeft(w);
    if ParamBytes(p) == ParamBytes(q) {
      ParamRoundTrip(p, []);
      ParamRoundTrip(q, []);
    }
  }

  // ---------- a whole write

  lemma {:induction false} AllSelected(kvs: seq<KeyValue>)
    requires AllValid(kvs)
    ensures |Selected(kvs, 0)| == |kvs| <==> |kvs| <= MAX_PARAM_NUMBER && forall kv <- kvs :: ValidKey(kv)
    ensures |Selected(kvs, 0)| == |kvs| ==> Selected(kvs, 0) == ToParams(kvs)
  {
    AllKeysValid(kvs);
  }

  lemma {:induction false} AllKeysValid(kvs: seq<KeyValue>)
    ensures |ValidPairs(kvs)| == |kvs| <==> forall kv <- kvs :: ValidKey(kv)
    ensures |ValidPairs(kvs)| == |kvs| ==> ValidPairs(kvs) == kvs
  {
    hide ValidKey;
    if kvs != [] {
      AllKeysValid(kvs[1..]);
      assert kvs == [kvs[0]] + kvs[1..];
      assert kvs[0] in kvs;
    }
  }

  /** For every message that decodes to the selected parameters, as every write without a failed
      allocation yields: the reader gets exactly the caller's pairs back if and only if there are
      at most 128 of them, their keys are valid and their values arrive. */
  lemma {:induction false} PairsArriveIff(kvs: seq<KeyValue>, message: Bytes)
    requires AllValid(kvs) && DecodeMessage(message).Got?
    requires DecodeMessage(message).value.params == Selected(kvs, 0)
    ensures RecoverAll(DecodeMessage(message).value.params) == kvs <==>
            |kvs| <= 128 && forall kv <- kvs :: IsName(kv.key, 48) && Arrives(kv.value)
  {
    assert forall p <- Selected(kvs, 0) :: p.value.Valid();
    hide DecodeMessage, Selected, ValidKey, Arrives, Recover, Stored, Given;
    AllSelected(kvs);
    forall kv | kv in kvs ensures Recover(ToParam(kv).value) == kv.value <==> Arrives(kv.value) {
      ValueArrivesIff(kv.value);
    }
    var back := RecoverAll(Selected(kvs, 0));
    if back == kvs {
      forall kv | kv in kvs ensures Arrives(kv.value) {
        var i :| 0 <= i < |kvs| && kvs[i] == kv;
        assert back[i] == kvs[i];
      }
    } else if |back| == |kvs| {
      var i :| 0 <= i < |kvs| && back[i] != kvs[i];
      assert kvs[i] in kvs;
    }
  }
}
