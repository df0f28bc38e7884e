/** Splitting a JSON object into top-level key-value texts and printing it back, with optional
    colour codes around invalid keys and values. */
module FlatJson {
  import opened ByteStrings
  import opened StringFilters

  const NUMBER_FLAG: nat := 1
  const STRING_FLAG: nat := 2
  const BRACKET_FLAG: nat := 3
  const CURLY: Byte := 123
  const SQUARE: Byte := 91
  const ESC: Byte := 27

  datatype KV = KV(key: Bytes, value: Bytes)

  /** The class of a character in the filter table. */
  function Flag(c: Byte): nat {
    if '0' as int <= c <= '9' as int || c == '-' as int || c == '+' as int || c == '.' as int then NUMBER_FLAG
    else if c == QUOTE then STRING_FLAG
    else if c == CURLY || c == SQUARE then BRACKET_FLAG
    else 0
  }

  /** The classes, character by character. */
  lemma {:induction false} FlagsAre(c: Byte)
    ensures Flag(c) == NUMBER_FLAG <==> 48 <= c <= 57 || c == 43 || c == 45 || c == 46
    ensures Flag(c) == STRING_FLAG <==> c == 34
    ensures Flag(c) == BRACKET_FLAG <==> c == 91 || c == 123
  {
  }

  // ---------- reading, as functions of the text that is left

  function KeyLength(s: Bytes): (n: nat)
    ensures n <= |s|
  {
    if s == [] || s[0] == QUOTE then 0 else 1 + KeyLength(s[1..])
  }

  function NumberLength(s: Bytes): (n: nat)
    ensures n <= |s|
  {
    if s == [] || Flag(s[0]) != NUMBER_FLAG then 0 else 1 + NumberLength(s[1..])
  }

  /** The bytes before the first quote that does not follow a backslash. */
  function BodyLength(s: Bytes, escaped: bool): (n: nat)
    ensures n <= |s|
  {
    if s == [] || (s[0] == QUOTE && !escaped) then 0
    else 1 + BodyLength(s[1..], s[0] == BACKSLASH)
  }

  /** The bytes before the bracket that closes the `depth` open ones. */
  function BracketLength(s: Bytes, left: Byte, depth: nat): (n: nat)
    ensures n <= |s|
  {
    if s == [] then 0
    else if s[0] == left then 1 + BracketLength(s[1..], left, depth + 1)
    else if s[0] == left + 2 then if depth <= 1 then 0 else 1 + BracketLength(s[1..], left, depth - 1)
    else 1 + BracketLength(s[1..], left, depth)
  }

  function SkipLength(s: Bytes): (n: nat)
    ensures n <= |s|
    ensures n < |s| ==> Flag(s[n]) != 0
  {
    if s == [] || Flag(s[0]) != 0 then 0 else 1 + SkipLength(s[1..])
  }

  /** The character at an index, NUL right behind the end. */
  function CharAt(s: Bytes, i: nat): Byte
    requires i <= |s|
  {
    if i < |s| then s[i] else 0
  }

  function Drop(s: Bytes, n: nat): Bytes {
    if n <= |s| then s[n..] else []
  }

  /** A text with a delimiter behind it: the value and how far it reaches. */
  function ValueAt(t: Bytes): (r: (Bytes, nat))
    requires t != [] && Flag(t[0]) != 0
    ensures r.1 <= |t| + 1
  {
    if Flag(t[0]) == NUMBER_FLAG then (t[..NumberLength(t)], NumberLength(t))
    else
      var n := 1 + (if Flag(t[0]) == STRING_FLAG then BodyLength(t[1..], false)
                    else BracketLength(t[1..], t[0], 1));
      (t[..n] + [CharAt(t, n)], n + 1)
  }

  function Value(s: Bytes): (r: (Bytes, nat))
    ensures r.1 <= |s| + 1
  {
    var k := SkipLength(s);
    if k == |s| then ([], k) else (ValueAt(s[k..]).0, k + ValueAt(s[k..]).1)
  }

  function ParseAll(s: Bytes): seq<KV>
    decreases |s|
  {
    if s == [] then []
    else if s[0] != QUOTE then ParseAll(s[1..])
    else
      var n := KeyLength(s[1..]);
      var after := Drop(s, n + 2);
      var (value, used) := Value(after);
      [KV(s[1..n + 1], value)] + ParseAll(Drop(after, used))
  }

  lemma {:induction false} ParseNothing()
    ensures ParseAll([]) == []
  {
  }

  lemma {:induction false} ParseSkip(s: Bytes)
    requires s != [] && s[0] != QUOTE
    ensures ParseAll(s) == ParseAll(s[1..])
  {
  }

  lemma {:induction false} ParsePair(s: Bytes)
    requires s != [] && s[0] == QUOTE
    ensures var n := KeyLength(s[1..]);
            var value := Value(Drop(s, n + 2));
            ParseAll(s) == [KV(s[1..n + 1], value.0)] + ParseAll(Drop(Drop(s, n + 2), value.1))
  {
  }

  lemma {:induction false} DropEnds(s: Bytes, n: nat)
    ensures n == 0 ==> Drop(s, n) == s
    ensures n >= |s| ==> Drop(s, n) == []
    ensures n < |s| ==> Drop(s, n) != [] && Drop(s, n)[0] == s[n] && Drop(s, n)[1..] == Drop(s, n + 1)
  {
  }

  lemma {:induction false} DropIsSlice(s: Bytes, n: nat)
    requires n <= |s|
    ensures Drop(s, n) == s[n..]
  {
  }

  lemma {:induction false} KeyStep(t: Bytes, n: nat)
    requires n <= |t|
    ensures n == |t| || t[n] == QUOTE ==> KeyLength(t[n..]) == 0
    ensures n < |t| && t[n] != QUOTE ==> KeyLength(t[n..]) == 1 + KeyLength(t[n + 1..])
    ensures n < |t| ==> t[..n + 1] == t[..n] + [t[n]]
  {
    assert n < |t| ==> t[n..][1..] == t[n + 1..];
  }

  lemma {:induction false} SkipStep(t: Bytes, n: nat)
    requires n <= |t|
    ensures n == |t| || Flag(t[n]) != 0 ==> SkipLength(t[n..]) == 0
    ensures n < |t| && Flag(t[n]) == 0 ==> SkipLength(t[n..]) == 1 + SkipLength(t[n + 1..])
  {
    assert n < |t| ==> t[n..][1..] == t[n + 1..];
  }

  lemma {:induction false} BodyStep(t: Bytes, n: nat, escaped: bool)
    requires n <= |t|
    ensures n == |t| || (t[n] == QUOTE && !escaped) ==> BodyLength(t[n..], escaped) == 0
    ensures n < |t| && !(t[n] == QUOTE && !escaped) ==>
              BodyLength(t[n..], escaped) == 1 + BodyLength(t[n + 1..], t[n] == BACKSLASH)
  {
    assert n < |t| ==> t[n..][1..] == t[n + 1..];
  }

  lemma {:induction false} BracketStep(t: Bytes, n: nat, left: Byte, depth: nat)
    requires n <= |t| && depth >= 1
    ensures n == |t| || (t[n] == left + 2 && depth == 1) ==> BracketLength(t[n..], left, depth) == 0
    ensures n < |t| && t[n] == left ==> BracketLength(t[n..], left, depth) == 1 + BracketLength(t[n + 1..], left, depth + 1)
    ensures n < |t| && t[n] == left + 2 && depth > 1 ==>
              BracketLength(t[n..], left, depth) == 1 + BracketLength(t[n + 1..], left, depth - 1)
    ensures n < |t| && t[n] != left && t[n] != left + 2 ==>
              BracketLength(t[n..], left, depth) == 1 + BracketLength(t[n + 1..], left, depth)
  {
    assert n < |t| ==> t[n..][1..] == t[n + 1..];
  }

  /** The value that starts at `t` and is followed by a byte to swallow. */
  lemma {:induction false} ValueAtIs(t: Bytes, n: nat)
    requires t != [] && Flag(t[0]) > NUMBER_FLAG
    requires n == 1 + (if Flag(t[0]) == STRING_FLAG then BodyLength(t[1..], false) else BracketLength(t[1..], t[0], 1))
    ensures n <= |t| && ValueAt(t) == (t[..n] + [CharAt(t, n)], n + 1)
  {
  }

  lemma {:induction false} FlagOfQuote()
    ensures forall c: Byte :: Flag(c) == STRING_FLAG <==> c == QUOTE
  {
  }

  lemma {:induction false} KeyDone(json: Bytes, at: nat, key: Bytes)
    requires at < |json| && |key| < |Drop(json, at)| && key == Drop(json, at)[1..][..|key|]
    ensures var s := Drop(json, at);
            key == s[1..|key| + 1] && Drop(json, at + |key| + 2) == Drop(s, |key| + 2)
  {
    DropDrop(json, at, |key| + 2);
  }

  lemma {:induction false} DropDrop(s: Bytes, a: nat, b: nat)
    ensures Drop(Drop(s, a), b) == Drop(s, a + b)
  {
  }

  // ---------- printing

  function Plain(kv: KV): Bytes {
    [QUOTE] + kv.key + [QUOTE, ':' as int] + kv.value
  }

  function Commas(texts: seq<Bytes>): Bytes {
    if texts == [] then []
    else if |texts| == 1 then texts[0]
    else texts[0] + [',' as int] + Commas(texts[1..])
  }

  function Texts(kvs: seq<KV>, handler: KV -> Bytes): (r: seq<Bytes>)
    ensures |r| == |kvs| && forall i :: 0 <= i < |kvs| ==> r[i] == handler(kvs[i])
  {
    seq(|kvs|, i requires 0 <= i < |kvs| => handler(kvs[i]))
  }

  function Printed(kvs: seq<KV>, handler: KV -> Bytes): Bytes {
    [CURLY] + Commas(Texts(kvs, handler)) + [CURLY + 2]
  }

  // ---------- what can be read back

  predicate IsNumberText(v: Bytes) {
    v != [] && forall c <- v :: Flag(c) == NUMBER_FLAG
  }

  /** Numbers are texts of digits, signs and points. */
  lemma {:induction false} NumberTextIff(v: Bytes)
    ensures IsNumberText(v) <==> v != [] && forall c <- v :: 48 <= c <= 57 || c == 43 || c == 45 || c == 46
  {
    assert forall c <- v :: Flag(c) == NUMBER_FLAG <==> 48 <= c <= 57 || c == 43 || c == 45 || c == 46;
  }

  /** Every quote follows a backslash. `escaped` says whether a backslash precedes the body. */
  predicate QuotesEscaped(body: Bytes, escaped: bool) {
    && (body != [] && body[0] == QUOTE ==> escaped)
    && (forall j :: 0 < j < |body| && body[j] == QUOTE ==> body[j - 1] == BACKSLASH)
  }

  /** Every quote follows a backslash, and the last byte is no backslash. */
  predicate IsBody(body: Bytes, escaped: bool) {
    && QuotesEscaped(body, escaped)
    && (if body == [] then !escaped else body[|body| - 1] != BACKSLASH)
  }

  predicate IsStringText(v: Bytes) {
    |v| >= 2 && v[0] == QUOTE && v[|v| - 1] == QUOTE && IsBody(v[1..|v| - 1], false)
  }

  /** Opened brackets minus closed ones of the same kind. */
  function Depth(s: Bytes, left: Byte): int {
    if s == [] then 0
    else Depth(s[..|s| - 1], left)
         + (if s[|s| - 1] == left then 1 else if s[|s| - 1] == left + 2 then -1 else 0)
  }

  /** The first bracket is closed by the last byte and not before. */
  predicate IsBracketText(v: Bytes) {
    && |v| >= 2 && Flag(v[0]) == BRACKET_FLAG && Depth(v, v[0]) == 0
    && forall n :: 0 < n < |v| ==> Depth(v[..n], v[0]) > 0
  }

  predicate Readable(kv: KV) {
    QUOTE !in kv.key && (IsNumberText(kv.value) || IsStringText(kv.value) || IsBracketText(kv.value))
  }

  lemma {:induction false} KeyReads(key: Bytes, rest: Bytes)
    requires QUOTE !in key
    ensures KeyLength(key + [QUOTE] + rest) == |key|
  {
    if key != [] {
      KeyReads(key[1..], rest);
      assert (key + [QUOTE] + rest)[1..] == key[1..] + [QUOTE] + rest;
    } else {
      assert (key + [QUOTE] + rest)[0] == QUOTE;
    }
  }

  lemma {:induction false} NumberReads(v: Bytes, rest: Bytes)
    requires forall c <- v :: Flag(c) == NUMBER_FLAG
    requires rest == [] || Flag(rest[0]) != NUMBER_FLAG
    ensures NumberLength(v + rest) == |v|
  {
    if v != [] {
      NumberReads(v[1..], rest);
      assert (v + rest)[1..] == v[1..] + rest;
    } else {
      assert v + rest == rest;
    }
  }

  /** A body is read to its closing quote exactly when it does not end in a backslash. */
  lemma {:induction false} BodyReads(body: Bytes, escaped: bool, rest: Bytes)
    requires QuotesEscaped(body, escaped)
    ensures BodyLength(body + [QUOTE] + rest, escaped) == |body| <==> IsBody(body, escaped)
    ensures BodyLength(body + [QUOTE] + rest, escaped) >= |body|
  {
    var s := body + [QUOTE] + rest;
    if body == [] {
      assert s[0] == QUOTE;
    } else {
      var tail, next := body[1..], body[0] == BACKSLASH;
      assert s[1..] == tail + [QUOTE] + rest && s[0] == body[0];
      assert forall j :: 0 <= j < |tail| ==> tail[j] == body[j + 1];
      BodyReads(tail, next, rest);
      assert s != [] && (s[0] == BACKSLASH) == next;
      assert BodyLength(s, escaped) == 1 + BodyLength(tail + [QUOTE] + rest, next);
      if tail != [] {
        assert tail[|tail| - 1] == body[|body| - 1];
      }
    }
  }

  lemma {:induction false} DepthFront(c: Byte, s: Bytes, left: Byte)
    ensures Depth([c] + s, left) == Depth([c], left) + Depth(s, left)
  {
    if s != [] {
      DepthFront(c, s[..|s| - 1], left);
      assert ([c] + s)[..|s|] == [c] + s[..|s| - 1];
    } else {
      assert [c] + s == [c];
    }
  }

  /** Inside `depth` open brackets, the text up to where they are all closed. */
  lemma {:induction false} BracketReads(v: Bytes, left: Byte, depth: nat, rest: Bytes)
    requires depth >= 1 && v != [] && depth + Depth(v, left) == 0
    requires forall n :: 0 <= n < |v| ==> depth + Depth(v[..n], left) > 0
    ensures BracketLength(v + rest, left, depth) == |v| - 1
  {
    var c, tail := v[0], v[1..];
    assert (v + rest)[1..] == tail + rest;
    assert [c][..0] == [];
    assert v == [c] + tail;
    DepthFront(c, tail, left);
    var next := depth + Depth([c], left);
    forall n | 0 <= n < |tail|
      ensures next + Depth(tail[..n], left) > 0
    {
      assert v[..n + 1] == [c] + tail[..n];
      DepthFront(c, tail[..n], left);
      assert depth + Depth(v[..n + 1], left) > 0;
    }
    if tail == [] {
      assert depth == 1 && c == left + 2;
    } else {
      assert tail[..0] == [];
      BracketReads(tail, left, next, rest);
    }
  }

  /** A value that ends where it says: a string or a bracket text, or a number with no number byte
      behind it. */
  predicate Complete(v: Bytes, rest: Bytes) {
    || (IsNumberText(v) && (rest == [] || Flag(rest[0]) != NUMBER_FLAG))
    || IsStringText(v)
    || IsBracketText(v)
  }

  /** A complete value is read back as it is, whatever follows. */
  lemma {:induction false} ValueReads(v: Bytes, rest: Bytes)
    requires Complete(v, rest)
    ensures v != [] && Flag(v[0]) != 0 && ValueAt(v + rest) == (v, |v|)
  {
    var t := v + rest;
    if IsNumberText(v) {
      assert v[0] in v;
      NumberReads(v, rest);
      assert t[..|v|] == v;
    } else if IsStringText(v) {
      var body := v[1..|v| - 1];
      assert t[1..] == body + [QUOTE] + rest;
      BodyReads(body, false, rest);
      assert t[..|v| - 1] + [t[|v| - 1]] == v;
    } else {
      BracketTextReads(v, rest);
    }
  }

  lemma {:induction false} BracketTextReads(v: Bytes, rest: Bytes)
    requires IsBracketText(v)
    ensures v != [] && Flag(v[0]) != 0 && ValueAt(v + rest) == (v, |v|)
  {
    var t, left, tail := v + rest, v[0], v[1..];
    assert t[1..] == tail + rest;
    assert v == [left] + tail;
    assert [left][..0] == [];
    forall n | 0 <= n < |tail|
      ensures 1 + Depth(tail[..n], left) > 0
    {
      assert v[..n + 1] == [left] + tail[..n];
      DepthFront(left, tail[..n], left);
      assert Depth(v[..n + 1], left) > 0;
    }
    DepthFront(left, tail, left);
    BracketReads(tail, left, 1, rest);
    assert t[..|v| - 1] + [t[|v| - 1]] == v;
  }

  /** A byte that is skipped in front of a value. */
  predicate IsGap(c: Byte) {
    !(48 <= c <= 57 || c == 43 || c == 45 || c == 46 || c == 34 || c == 91 || c == 123)
  }

  lemma {:induction false} GapSkipped(gap: Bytes, rest: Bytes)
    requires (forall c <- gap :: IsGap(c)) && (rest == [] || !IsGap(rest[0]))
    ensures SkipLength(gap + rest) == |gap|
  {
    if gap != [] {
      assert (gap + rest)[1..] == gap[1..] + rest && IsGap(gap[0]);
      GapSkipped(gap[1..], rest);
    } else {
      assert gap + rest == rest;
    }
  }

  lemma {:induction false} NoQuoteSkipped(pre: Bytes, s: Bytes)
    requires QUOTE !in pre
    ensures ParseAll(pre + s) == ParseAll(s)
  {
    if pre != [] {
      assert (pre + s)[1..] == pre[1..] + s && pre[0] in pre;
      NoQuoteSkipped(pre[1..], s);
    } else {
      assert pre + s == s;
    }
  }

  /** The first pair of a text, whatever comes before its key, between key and value and behind:
      the reader takes it and goes on right behind the value. */
  lemma {:induction false} PairReads(pre: Bytes, key: Bytes, gap: Bytes, v: Bytes, rest: Bytes)
    requires QUOTE !in pre && QUOTE !in key && (forall c <- gap :: IsGap(c)) && Complete(v, rest)
    ensures ParseAll(pre + [QUOTE] + key + [QUOTE] + gap + v + rest) == [KV(key, v)] + ParseAll(rest)
  {
    hide ParseAll, Complete, ValueAt;
    var tail := gap + v + rest;
    var s := [QUOTE] + key + [QUOTE] + tail;
    assert pre + [QUOTE] + key + [QUOTE] + gap + v + rest == pre + s;
    NoQuoteSkipped(pre, s);
    ValueReads(v, rest);
    assert tail == gap + (v + rest) && tail[|gap|..] == v + rest;
    GapSkipped(gap, v + rest);
    KeyTaken(key, tail);
    assert tail[|gap| + |v|..] == rest;
  }

  lemma {:induction false} KeyTaken(key: Bytes, tail: Bytes)
    requires QUOTE !in key
    ensures ParseAll([QUOTE] + key + [QUOTE] + tail) == [KV(key, Value(tail).0)] + ParseAll(Drop(tail, Value(tail).1))
  {
    hide ParseAll, Value;
    var s := [QUOTE] + key + [QUOTE] + tail;
    assert s[1..] == key + [QUOTE] + tail;
    KeyReads(key, tail);
    assert Drop(s, |key| + 2) == tail && s[1..|key| + 1] == key;
    ParsePair(s);
  }

  /** A text that starts a string or a bracket and does not end it. */
  predicate Unclosed(t: Bytes) {
    || (t != [] && t[0] == QUOTE && forall j :: 0 < j < |t| && t[j] == QUOTE ==> t[j - 1] == BACKSLASH)
    || (t != [] && Flag(t[0]) == BRACKET_FLAG && forall n :: 0 < n <= |t| ==> Depth(t[..n], t[0]) > 0)
  }

  lemma {:induction false} OpenBody(body: Bytes, escaped: bool)
    requires QuotesEscaped(body, escaped)
    ensures BodyLength(body, escaped) == |body|
  {
    if body != [] {
      assert forall j :: 0 <= j < |body| - 1 ==> body[1..][j] == body[j + 1];
      OpenBody(body[1..], body[0] == BACKSLASH);
    }
  }

  lemma {:induction false} OpenBracket(v: Bytes, left: Byte, depth: nat)
    requires depth >= 1 && forall n :: 0 <= n <= |v| ==> depth + Depth(v[..n], left) > 0
    ensures BracketLength(v, left, depth) == |v|
  {
    if v != [] {
      var c, tail := v[0], v[1..];
      assert [c][..0] == [] && v == [c] + tail && v[..1] == [c];
      var next := depth + Depth([c], left);
      assert next > 0 by {
        assert depth + Depth(v[..1], left) > 0;
      }
      forall n | 0 <= n <= |tail|
        ensures next + Depth(tail[..n], left) > 0
      {
        assert v[..n + 1] == [c] + tail[..n];
        DepthFront(c, tail[..n], left);
        assert depth + Depth(v[..n + 1], left) > 0;
      }
      OpenBracket(tail, left, next);
    }
  }

  lemma {:induction false} UnclosedReads(t: Bytes)
    requires Unclosed(t)
    ensures t != [] && Flag(t[0]) != 0 && ValueAt(t) == (t + [0], |t| + 1)
  {
    var tail := t[1..];
    assert t == [t[0]] + tail;
    if t[0] == QUOTE {
      assert forall j :: 0 <= j < |tail| ==> tail[j] == t[j + 1];
      OpenBody(tail, false);
    } else {
      forall n | 0 <= n <= |tail|
        ensures 1 + Depth(tail[..n], t[0]) > 0
      {
        assert [t[0]][..0] == [] && t[..n + 1] == [t[0]] + tail[..n];
        DepthFront(t[0], tail[..n], t[0]);
        assert Depth(t[..n + 1], t[0]) > 0;
      }
      OpenBracket(tail, t[0], 1);
    }
    assert t[..|t|] == t;
  }

  /** How a text can end: without another quote, with a key that has no value or is not closed, or
      with a value that is not closed, which gets the NUL behind the end of the text. */
  lemma {:induction false} EndReads(pre: Bytes, key: Bytes, gap: Bytes, t: Bytes)
    requires QUOTE !in pre && QUOTE !in key && forall c <- gap :: IsGap(c)
    ensures ParseAll(pre) == []
    ensures ParseAll(pre + [QUOTE] + key) == [KV(key, [])]
    ensures ParseAll(pre + [QUOTE] + key + [QUOTE] + gap) == [KV(key, [])]
    ensures Unclosed(t) ==> ParseAll(pre + [QUOTE] + key + [QUOTE] + gap + t) == [KV(key, t + [0])]
  {
    hide ParseAll, Unclosed, ValueAt;
    ParseNothing();
    NoQuoteSkipped(pre, []);
    assert pre + [] == pre;
    OpenKey(key);
    NoQuoteSkipped(pre, [QUOTE] + key);
    assert pre + [QUOTE] + key == pre + ([QUOTE] + key);
    NoQuoteSkipped(pre, [QUOTE] + key + [QUOTE] + gap);
    assert pre + [QUOTE] + key + [QUOTE] + gap == pre + ([QUOTE] + key + [QUOTE] + gap);
    GapSkipped(gap, []);
    assert gap + [] == gap;
    KeyTaken(key, gap);
    assert Drop(gap, |gap|) == [];
    if Unclosed(t) {
      var tail := gap + t;
      NoQuoteSkipped(pre, [QUOTE] + key + [QUOTE] + tail);
      assert pre + [QUOTE] + key + [QUOTE] + gap + t == pre + ([QUOTE] + key + [QUOTE] + tail);
      UnclosedReads(t);
      GapSkipped(gap, t);
      assert tail[|gap|..] == t;
      KeyTaken(key, tail);
    }
  }

  lemma {:induction false} OpenKey(key: Bytes)
    requires QUOTE !in key
    ensures ParseAll([QUOTE] + key) == [KV(key, [])]
  {
    hide ParseAll;
    var s := [QUOTE] + key;
    assert s[1..] == key;
    KeyOpen(key);
    assert Drop(s, |key| + 2) == [] && s[1..|key| + 1] == key;
    ParsePair(s);
    ParseNothing();
  }

  lemma {:induction false} KeyOpen(key: Bytes)
    requires QUOTE !in key
    ensures KeyLength(key) == |key|
  {
    if key != [] {
      assert key[0] in key;
      KeyOpen(key[1..]);
    }
  }

  lemma {:induction false} PlainReads(kv: KV, rest: Bytes)
    requires Readable(kv) && rest != [] && Flag(rest[0]) == 0
    ensures ParseAll(Plain(kv) + rest) == [kv] + ParseAll(rest)
  {
    hide ParseAll, IsNumberText, IsStringText, IsBracketText;
    assert IsGap(':' as int);
    PairReads([], kv.key, [':' as int], kv.value, rest);
    assert [] + [QUOTE] + kv.key + [QUOTE] + [':' as int] + kv.value + rest == Plain(kv) + rest;
  }

  lemma {:induction false} ListReads(kvs: seq<KV>)
    requires forall kv <- kvs :: Readable(kv)
    ensures ParseAll(Commas(Texts(kvs, Plain)) + [CURLY + 2]) == kvs
  {
    hide Readable, Plain;
    var last := [CURLY + 2];
    assert ParseAll(last) == [] by { assert last[1..] == []; }
    if kvs == [] {
      assert Commas([]) + last == last;
    } else {
      var texts := Texts(kvs, Plain);
      assert texts[1..] == Texts(kvs[1..], Plain);
      assert kvs == [kvs[0]] + kvs[1..];
      if |kvs| == 1 {
        PlainReads(kvs[0], last);
      } else {
        var rest := Commas(texts[1..]) + last;
        ListReads(kvs[1..]);
        assert ([',' as int] + rest)[1..] == rest;
        PlainReads(kvs[0], [',' as int] + rest);
        assert Commas(texts) + last == Plain(kvs[0]) + ([',' as int] + rest);
      }
    }
  }

  /** Parsing the plain print of a list of readable pairs gives the list back. */
  lemma {:induction false} PrintParseRoundTrip(kvs: seq<KV>)
    requires forall kv <- kvs :: Readable(kv)
    ensures ParseAll(Printed(kvs, Plain)) == kvs
  {
    hide Readable, Plain;
    ListReads(kvs);
    var tail := Commas(Texts(kvs, Plain)) + [CURLY + 2];
    assert Printed(kvs, Plain)[1..] == tail;
  }

  // ---------- strings that come from the escaper

  /** In escaped text every quote follows a backslash. */
  lemma {:induction false} EscapedQuotes(text: Bytes)
    ensures forall j :: 0 <= j < |Escape(text)| && Escape(text)[j] == QUOTE ==>
              j > 0 && Escape(text)[j - 1] == BACKSLASH
  {
    if text != [] {
      EscapedQuotes(text[1..]);
    }
  }

  lemma {:induction false} EscapedEnd(text: Bytes)
    ensures Escape(text) == [] <==> Printable(text) == []
    ensures Escape(text) != [] ==>
              (Escape(text)[|Escape(text)| - 1] == BACKSLASH <==> Printable(text)[|Printable(text)| - 1] == BACKSLASH)
  {
    if text != [] {
      EscapedEnd(text[1..]);
    }
  }

  /** The literal of an escaped string is read back as one value exactly when its printable text
      does not end in a backslash; otherwise the reader takes the closing quote for an inner one. */
  lemma {:induction false} EscapedLiteralReads(text: Bytes, rest: Bytes)
    requires rest != [] && Flag(rest[0]) == 0
    ensures var v := [QUOTE] + Escape(text) + [QUOTE];
            ValueAt(v + rest) == (v, |v|) <==>
            Printable(text) == [] || Printable(text)[|Printable(text)| - 1] != BACKSLASH
  {
    hide Escape, Printable;
    var body := Escape(text);
    var v := [QUOTE] + body + [QUOTE];
    EscapedQuotes(text);
    EscapedEnd(text);
    BodyReads(body, false, rest);
    var t := v + rest;
    assert t[1..] == body + [QUOTE] + rest;
    assert t[..|v| - 1] + [t[|v| - 1]] == v;
  }

  // ---------- decoration

  datatype Validity = KeyInvalid | ValueInvalid | BothValid

  const DECORATE_PREFIX: Bytes := [ESC, '[' as int, '3' as int, '1' as int, 'm' as int]
  const DECORATE_SUFFIX: Bytes := [ESC, '[' as int, '0' as int, 'm' as int]

  function Decorate(validity: Validity, kv: KV): Bytes {
    match validity
    case KeyInvalid => [QUOTE] + DECORATE_PREFIX + kv.key + DECORATE_SUFFIX + [QUOTE, ':' as int] + kv.value
    case ValueInvalid => [QUOTE] + kv.key + [QUOTE, ':' as int] + DECORATE_PREFIX + kv.value + DECORATE_SUFFIX
    case BothValid => Plain(kv)
  }

  function Marked(marks: map<Bytes, Validity>): KV -> Bytes {
    (kv: KV) => Decorate(if kv.key in marks then marks[kv.key] else BothValid, kv)
  }

  /** Where the codes of a marked pair stand: red begins right behind the opening quote of a marked
      key and ends right before its closing quote, or it spans a marked value; an unmarked pair has
      none. Taking them out leaves the plain pair. */
  lemma {:induction false} MarksShow(marks: map<Bytes, Validity>, kv: KV)
    ensures var d, p := Marked(marks)(kv), Plain(kv);
            var k, v := |kv.key|, |kv.value|;
            var red, normal := [27, 91, 51, 49, 109], [27, 91, 48, 109];
            && (kv.key !in marks ==> d == p)
            && (kv.key in marks ==>
                  match marks[kv.key]
                  case KeyInvalid =>
                    && |d| == |p| + 9 && d[1..6] == red && d[6 + k..10 + k] == normal
                    && d[..1] == p[..1] && d[6..6 + k] == p[1..1 + k] && d[10 + k..] == p[1 + k..]
                  case ValueInvalid =>
                    && |d| == |p| + 9 && d[k + 3..k + 8] == red && d[k + 8 + v..] == normal
                    && d[..k + 3] == p[..k + 3] && d[k + 8..k + 8 + v] == p[k + 3..]
                  case BothValid => d == p)
  {
  }

  /** The text without the two colour codes. */
  function Strip(s: Bytes): Bytes {
    if s == [] then []
    else if DECORATE_PREFIX <= s then Strip(s[5..])
    else if DECORATE_SUFFIX <= s then Strip(s[4..])
    else [s[0]] + Strip(s[1..])
  }

  lemma {:induction false} StripPlain(a: Bytes, b: Bytes)
    requires ESC !in a
    ensures Strip(a + b) == a + Strip(b)
  {
    hide Strip;
    if a == [] {
      assert a + b == b;
    } else {
      StripPlain(a[1..], b);
      StripByte(a[0], a[1..] + b);
      assert a + b == [a[0]] + (a[1..] + b);
      assert a + Strip(b) == [a[0]] + (a[1..] + Strip(b));
    }
  }

  lemma {:induction false} StripByte(c: Byte, rest: Bytes)
    requires c != ESC
    ensures Strip([c] + rest) == [c] + Strip(rest)
  {
    var s := [c] + rest;
    assert s[0] == c && s[1..] == rest;
    assert DECORATE_PREFIX[0] == ESC && DECORATE_SUFFIX[0] == ESC;
  }

  lemma {:induction false} StripCodes(b: Bytes)
    ensures Strip(DECORATE_PREFIX + b) == Strip(b)
    ensures Strip(DECORATE_SUFFIX + b) == Strip(b)
  {
    assert (DECORATE_PREFIX + b)[5..] == b;
    assert (DECORATE_SUFFIX + b)[4..] == b;
    assert (DECORATE_SUFFIX + b)[2] != DECORATE_PREFIX[2];
  }

  predicate EscFree(kv: KV) {
    ESC !in kv.key && ESC !in kv.value
  }

  lemma {:induction false} StripDecorated(validity: Validity, kv: KV, rest: Bytes)
    requires EscFree(kv)
    ensures Strip(Decorate(validity, kv) + rest) == Plain(kv) + Strip(rest)
  {
    hide Strip;
    var q, c := [QUOTE], [QUOTE, ':' as int];
    match validity
    case KeyInvalid =>
      var after := c + kv.value + rest;
      assert Decorate(validity, kv) + rest == q + (DECORATE_PREFIX + (kv.key + (DECORATE_SUFFIX + after)));
      StripPlain(q, DECORATE_PREFIX + (kv.key + (DECORATE_SUFFIX + after)));
      StripCodes(kv.key + (DECORATE_SUFFIX + after));
      StripPlain(kv.key, DECORATE_SUFFIX + after);
      StripCodes(after);
      StripPlain(c + kv.value, rest);
    case ValueInvalid =>
      var front := q + kv.key + c;
      assert Decorate(validity, kv) + rest == front + (DECORATE_PREFIX + (kv.value + (DECORATE_SUFFIX + rest)));
      StripPlain(front, DECORATE_PREFIX + (kv.value + (DECORATE_SUFFIX + rest)));
      StripCodes(kv.value + (DECORATE_SUFFIX + rest));
      StripPlain(kv.value, DECORATE_SUFFIX + rest);
      StripCodes(rest);
    case BothValid =>
      StripPlain(Plain(kv), rest);
  }

  lemma {:induction false} StripList(kvs: seq<KV>, marks: map<Bytes, Validity>, rest: Bytes)
    requires forall kv <- kvs :: EscFree(kv)
    ensures Strip(Commas(Texts(kvs, Marked(marks))) + rest) == Commas(Texts(kvs, Plain)) + Strip(rest)
  {
    hide Strip, Decorate, Plain, EscFree;
    if kvs == [] {
      assert [] + rest == rest;
    } else {
      var d, p := Texts(kvs, Marked(marks)), Texts(kvs, Plain);
      assert d[1..] == Texts(kvs[1..], Marked(marks)) && p[1..] == Texts(kvs[1..], Plain);
      var validity := if kvs[0].key in marks then marks[kvs[0].key] else BothValid;
      assert d[0] == Decorate(validity, kvs[0]) && p[0] == Plain(kvs[0]);
      if |kvs| == 1 {
        StripDecorated(validity, kvs[0], rest);
      } else {
        var tail := Commas(d[1..]) + rest;
        assert Commas(d) + rest == d[0] + ([',' as int] + tail);
        StripDecorated(validity, kvs[0], [',' as int] + tail);
        StripPlain([',' as int], tail);
        StripList(kvs[1..], marks, rest);
      }
    }
  }

  /** Erasing the colour codes from a decorated print gives the plain print. */
  lemma {:induction false} StripDecoratedPrint(kvs: seq<KV>, marks: map<Bytes, Validity>)
    requires forall kv <- kvs :: EscFree(kv)
    ensures Strip(Printed(kvs, Marked(marks))) == Printed(kvs, Plain)
  {
    hide Strip, Decorate, Plain, EscFree, Commas;
    var open, close, d := [CURLY], [CURLY + 2], Commas(Texts(kvs, Marked(marks)));
    assert open + d + close == open + (d + close);
    StripPlain(open, d + close);
    StripList(kvs, marks, close);
    StripPlain(close, []);
    assert close + [] == close && Strip([]) == [] by { StripNothing(); }
  }

  lemma {:induction false} StripNothing()
    ensures Strip([]) == []
  {
  }

  // ---------- the parser object

  class JsonFlattenParser {
    const charFilter: array<nat>
    var kvList: seq<KV>
    var curPos: nat

    ghost predicate Valid()
      reads this, charFilter
    {
      charFilter.Length == 256 && forall c: Byte :: 0 <= c < 256 ==> charFilter[c] == Flag(c)
    }

    constructor (json: Bytes)
      ensures Valid() && fresh(charFilter) && kvList == ParseAll(json)
    {
      charFilter := new nat[256](_ => 0);
      kvList, curPos := [], 0;
      new;
      Initialize();
      Parse(json);
    }

    method Initialize()
      requires charFilter.Length == 256 && forall i :: 0 <= i < 256 ==> charFilter[i] == 0
      modifies charFilter
      ensures Valid()
    {
      for c := '0' as int to '9' as int + 1
        invariant forall i :: 0 <= i < 256 ==>
          charFilter[i] == if '0' as int <= i < c then NUMBER_FLAG else 0
      {
        charFilter[c] := NUMBER_FLAG;
      }
      charFilter['-' as int] := NUMBER_FLAG;
      charFilter['+' as int] := NUMBER_FLAG;
      charFilter['.' as int] := NUMBER_FLAG;
      charFilter[QUOTE] := STRING_FLAG;
      charFilter[CURLY] := BRACKET_FLAG;
      charFilter[SQUARE] := BRACKET_FLAG;
    }

    /** Reads the whole text. Every loop ends, and the text is read at most one past its end. */
    method Parse(json: Bytes)
      requires Valid()
      modifies this
      ensures Valid() && kvList == ParseAll(json)
    {
      hide ParseAll, Value, KeyLength, Drop;
      curPos := 0;
      kvList := [];
      DropEnds(json, curPos);
      while curPos < |json|
        invariant Valid()
        invariant kvList + ParseAll(Drop(json, curPos)) == ParseAll(json)
        decreases |json| - curPos
      {
        ghost var done := kvList;
        if charFilter[json[curPos]] != STRING_FLAG {
          DropEnds(json, curPos);
          ParseSkip(Drop(json, curPos));
          curPos := curPos + 1;
          continue;
        }
        var kv := ParseKv(json);
        kvList := kvList + [kv];
        assert done + ([kv] + ParseAll(Drop(json, curPos))) == kvList + ParseAll(Drop(json, curPos));
      }
      ParseNothing();
      DropEnds(json, curPos);
    }

    /** A key and its value, starting at a quote. */
    method ParseKv(json: Bytes) returns (kv: KV)
      requires Valid() && curPos < |json| && json[curPos] == QUOTE
      modifies this`curPos
      ensures curPos > old(curPos)
      ensures ParseAll(Drop(json, old(curPos))) == [kv] + ParseAll(Drop(json, curPos))
    {
      hide ParseAll, Value, KeyLength;
      ParsePair(Drop(json, curPos));
      var key := ParseKey(json);
      var val := ParseValue(json);
      kv := KV(key, val);
    }

    method ParseKey(json: Bytes) returns (key: Bytes)
      requires Valid() && curPos < |json| && json[curPos] == QUOTE
      modifies this`curPos
      ensures var s := Drop(json, old(curPos)); var n := KeyLength(s[1..]);
              key == s[1..n + 1] && curPos == old(curPos) + n + 2 && Drop(json, curPos) == Drop(s, n + 2)
    {
      FlagOfQuote();
      hide KeyLength, Drop, Flag;
      DropEnds(json, curPos);
      DropEnds(json, curPos + 1);
      ghost var s := Drop(json, curPos);
      ghost var t := s[1..];
      assert t == json[curPos + 1..] by { DropIsSlice(json, curPos + 1); }
      key := [];
      curPos := curPos + 1;
      assert t[0..] == t;
      while curPos < |json|
        invariant curPos == old(curPos) + 1 + |key| && |key| <= |t| && key == t[..|key|]
        invariant |key| + KeyLength(t[|key|..]) == KeyLength(t)
        decreases |json| - curPos
      {
        KeyStep(t, |key|);
        if charFilter[json[curPos]] == STRING_FLAG {
          break;
        }
        key := key + [json[curPos]];
        curPos := curPos + 1;
      }
      if |key| == |t| {
        KeyStep(t, |key|);
      }
      curPos := curPos + 1;
      assert KeyLength(t) == |key|;
      KeyDone(json, old(curPos), key);
    }

    method ParseValue(json: Bytes) returns (value: Bytes)
      requires Valid()
      modifies this`curPos
      ensures var s := Drop(json, old(curPos));
              value == Value(s).0 && Drop(json, curPos) == Drop(s, Value(s).1) && curPos >= old(curPos)
    {
      hide ValueAt, SkipLength, Drop;
      value := [];
      ghost var s, k := Drop(json, curPos), 0;
      DropEnds(json, curPos);
      if curPos >= |json| {
        SkipStep(s, 0);
        assert s[0..] == s;
        DropEnds(s, 0);
        return;
      }
      DropIsSlice(json, curPos);
      assert s[0..] == s;
      while curPos < |json|
        invariant curPos == old(curPos) + k && k <= |s|
        invariant k + SkipLength(s[k..]) == SkipLength(s)
        decreases |json| - curPos
      {
        SkipStep(s, k);
        var flag := charFilter[json[curPos]];
        assert s[k..] == json[curPos..];
        if flag == BRACKET_FLAG || flag == NUMBER_FLAG || flag == STRING_FLAG {
          value := ParseFlagged(json);
          DropDrop(json, old(curPos), Value(s).1);
          return;
        }
        curPos := curPos + 1;
        k := k + 1;
      }
      SkipStep(s, k);
      DropDrop(json, old(curPos), k);
    }

    /** The dispatch on the class of the character. */
    method ParseFlagged(json: Bytes) returns (value: Bytes)
      requires Valid() && curPos < |json| && Flag(json[curPos]) != 0
      modifies this`curPos
      ensures var t := json[old(curPos)..];
              value == ValueAt(t).0 && curPos == old(curPos) + ValueAt(t).1
    {
      hide ValueAt;
      var flag := charFilter[json[curPos]];
      if flag == BRACKET_FLAG {
        value := ParseBrackets(json, json[curPos]);
      } else if flag == NUMBER_FLAG {
        value := ParseNumer(json);
      } else {
        value := ParseString(json);
      }
    }

    method ParseNumer(json: Bytes) returns (number: Bytes)
      requires Valid() && curPos < |json| && Flag(json[curPos]) == NUMBER_FLAG
      modifies this`curPos
      ensures var t := json[old(curPos)..];
              number == ValueAt(t).0 && curPos == old(curPos) + ValueAt(t).1
    {
      number := [];
      while curPos < |json|
        invariant old(curPos) <= curPos <= |json| && number == json[old(curPos)..curPos]
        invariant |number| + NumberLength(json[curPos..]) == NumberLength(json[old(curPos)..])
      {
        if charFilter[json[curPos]] != NUMBER_FLAG {
          break;
        }
        number := number + [json[curPos]];
        assert json[curPos..][1..] == json[curPos + 1..];
        curPos := curPos + 1;
      }
    }

    method ParseString(json: Bytes) returns (txt: Bytes)
      requires Valid() && curPos < |json| && json[curPos] == QUOTE
      modifies this`curPos
      ensures var t := json[old(curPos)..];
              txt == ValueAt(t).0 && curPos == old(curPos) + ValueAt(t).1
    {
      hide ValueAt, BodyLength;
      ghost var t := json[curPos..];
      txt := [json[curPos]];
      curPos := curPos + 1;
      while curPos < |json|
        invariant curPos == old(curPos) + |txt| && 1 <= |txt| <= |t| && txt == t[..|txt|]
        invariant |txt| - 1 + BodyLength(t[|txt|..], json[curPos - 1] == BACKSLASH) == BodyLength(t[1..], false)
        decreases |json| - curPos
      {
        BodyStep(t, |txt|, json[curPos - 1] == BACKSLASH);
        if charFilter[json[curPos]] == STRING_FLAG && json[curPos - 1] != BACKSLASH {
          break;
        }
        txt := txt + [json[curPos]];
        curPos := curPos + 1;
      }
      if |txt| == |t| {
        BodyStep(t, |txt|, json[curPos - 1] == BACKSLASH);
      }
      ValueAtIs(t, |txt|);
      txt := txt + [CharAt(json, curPos)];
      curPos := curPos + 1;
    }

    method ParseBrackets(json: Bytes, leftBracket: Byte) returns (val: Bytes)
      requires Valid() && curPos < |json| && json[curPos] == leftBracket && Flag(leftBracket) == BRACKET_FLAG
      modifies this`curPos
      ensures var t := json[old(curPos)..];
              val == ValueAt(t).0 && curPos == old(curPos) + ValueAt(t).1
    {
      hide ValueAt, BracketLength;
      ghost var t := json[curPos..];
      var rightBracket := leftBracket + 2;
      var counter := 1;
      val := [json[curPos]];
      curPos := curPos + 1;
      while curPos < |json|
        invariant curPos == old(curPos) + |val| && 1 <= |val| <= |t| && val == t[..|val|] && counter >= 1
        invariant |val| - 1 + BracketLength(t[|val|..], leftBracket, counter) == BracketLength(t[1..], leftBracket, 1)
        decreases |json| - curPos
      {
        BracketStep(t, |val|, leftBracket, counter);
        if json[curPos] == leftBracket {
          counter := counter + 1;
        } else if json[curPos] == rightBracket {
          counter := counter - 1;
          if counter == 0 {
            break;
          }
        }
        val := val + [json[curPos]];
        curPos := curPos + 1;
      }
      if |val| == |t| {
        BracketStep(t, |val|, leftBracket, counter);
      }
      ValueAtIs(t, |val|);
      val := val + [CharAt(json, curPos)];
      curPos := curPos + 1;
    }

    method Print(handler: KV -> Bytes) returns (json: Bytes)
      ensures json == Printed(kvList, handler)
    {
      json := [CURLY];
      if kvList != [] {
        ghost var texts := Texts(kvList, handler);
        for i := 0 to |kvList| - 1
          invariant json + Commas(texts[i..]) == [CURLY] + Commas(texts)
        {
          assert texts[i..][1..] == texts[i + 1..];
          json := json + (handler(kvList[i]) + [',' as int]);
        }
        json := json + handler(kvList[|kvList| - 1]);
      }
      json := json + [CURLY + 2];
    }
  }

  /** Decorating a printed object and erasing the colour codes gives the object back. */
  method DecorateJsonStr(origin: Bytes, marks: map<Bytes, Validity>) returns (r: Bytes)
    ensures marks == map[] ==> r == origin
    ensures marks != map[] ==> r == Printed(ParseAll(origin), Marked(marks))
    ensures forall kvs :: (forall kv <- kvs :: Readable(kv) && EscFree(kv)) && origin == Printed(kvs, Plain)
              ==> Strip(r) == origin
  {
    hide Printed, ParseAll, Strip, Readable, EscFree;
    if marks == map[] {
      r := origin;
    } else {
      var parser := new JsonFlattenParser(origin);
      r := parser.Print(Marked(marks));
    }
    forall kvs | (forall kv <- kvs :: Readable(kv) && EscFree(kv)) && origin == Printed(kvs, Plain)
      ensures Strip(r) == origin
    {
      PrintParseRoundTrip(kvs);
      StripDecoratedPrint(kvs, marks);
      if marks == map[] {
        StripDecoratedPrint(kvs, marks);
        UnmarkedIsPlain(kvs);
      }
    }
  }

  lemma {:induction false} UnmarkedIsPlain(kvs: seq<KV>)
    ensures Printed(kvs, Marked(map[])) == Printed(kvs, Plain)
  {
    assert Texts(kvs, Marked(map[])) == Texts(kvs, Plain);
  }
}
