/** Name validation and JSON escaping by lookup tables. */
module StringFilters {
  import opened ByteStrings

  const CHAR_RANGE: nat := 128
  const QUOTE: Byte := 34
  const BACKSLASH: Byte := 92
  const DEL: Byte := 127

  // ---------- what the tables mean

  predicate IsLetter(c: Byte) {
    'a' as int <= c <= 'z' as int || 'A' as int <= c <= 'Z' as int
  }

  predicate IsNameChar(c: Byte) {
    IsLetter(c) || '0' as int <= c <= '9' as int || c == '_' as int
  }

  /** A letter followed by letters, digits and underscores, at most `maxSize` bytes in all. */
  predicate IsName(text: Bytes, maxSize: nat) {
    0 < |text| <= maxSize && IsLetter(text[0]) && forall c <- text :: IsNameChar(c)
  }

  /** The letter that follows the backslash in the escape of `c`, if `c` has one. */
  function EscapeLetter(c: Byte): (r: Option<Byte>) {
    if c == BACKSLASH then Some(BACKSLASH)
    else if c == QUOTE then Some(QUOTE)
    else if c == 8 then Some('b' as int)
    else if c == 12 then Some('f' as int)
    else if c == 10 then Some('n' as int)
    else if c == 13 then Some('r' as int)
    else if c == 9 then Some('t' as int)
    else None
  }

  predicate IsControl(c: Byte) {
    c == DEL || c <= 0x1F
  }

  /** What one byte contributes to the escaped text. */
  function EscapeByte(c: Byte): Bytes {
    match EscapeLetter(c)
    case Some(letter) => [BACKSLASH, letter]
    case None => if IsControl(c) then [] else [c]
  }

  function Escape(text: Bytes): Bytes {
    if text == [] then [] else EscapeByte(text[0]) + Escape(text[1..])
  }

  // ---------- properties of escaping

  function Unescape(s: Bytes): Bytes {
    if s == [] then []
    else if s[0] == BACKSLASH && |s| > 1 then [UnescapeLetter(s[1])] + Unescape(s[2..])
    else [s[0]] + Unescape(s[1..])
  }

  function UnescapeLetter(c: Byte): Byte {
    if c == 'b' as int then 8
    else if c == 'f' as int then 12
    else if c == 'n' as int then 10
    else if c == 'r' as int then 13
    else if c == 't' as int then 9
    else c
  }

  /** The text without the control bytes that have no escape. */
  function Printable(text: Bytes): Bytes {
    if text == [] then []
    else (if EscapeLetter(text[0]).None? && IsControl(text[0]) then [] else [text[0]])
         + Printable(text[1..])
  }

  /** A string body by the ASCII rules of section 7 of RFC 8259: every byte is an unescaped
      character (no control byte, quote or backslash) or part of a two-character escape. */
  predicate IsJsonBody(s: Bytes) {
    s == [] ||
    if s[0] == BACKSLASH then |s| > 1 && IsEscapeLetter(s[1]) && IsJsonBody(s[2..])
    else s[0] >= 0x20 && s[0] != QUOTE && IsJsonBody(s[1..])
  }

  predicate IsEscapeLetter(c: Byte) {
    c == QUOTE || c == BACKSLASH || c == '/' as int || c == 'b' as int || c == 'f' as int
    || c == 'n' as int || c == 'r' as int || c == 't' as int
  }

  lemma {:induction false} ReadEscape(letter: Byte, rest: Bytes)
    requires IsEscapeLetter(letter)
    ensures Unescape([BACKSLASH, letter] + rest) == [UnescapeLetter(letter)] + Unescape(rest)
    ensures IsJsonBody([BACKSLASH, letter] + rest) == IsJsonBody(rest)
  {
    assert ([BACKSLASH, letter] + rest)[2..] == rest;
  }

  lemma {:induction false} ReadPlain(c: Byte, rest: Bytes)
    requires c != BACKSLASH && c != QUOTE && c >= 0x20
    ensures Unescape([c] + rest) == [c] + Unescape(rest)
    ensures IsJsonBody([c] + rest) == IsJsonBody(rest)
  {
    assert ([c] + rest)[1..] == rest;
  }

  /** Unescaping gives back the input without the dropped control bytes; the escaped text is a
      legal JSON string body and at most twice as long as the input. */
  lemma {:induction false} EscapeRoundTrip(text: Bytes)
    ensures Unescape(Escape(text)) == Printable(text)
    ensures IsJsonBody(Escape(text))
    ensures |Escape(text)| <= 2 * |text|
  {
    hide Unescape, IsJsonBody;
    if text == [] {
      assert Unescape([]) == [] && IsJsonBody([]) by { EmptyBody(); }
    } else {
      EscapeRoundTrip(text[1..]);
      match EscapeLetter(text[0])
      case Some(letter) => ReadEscape(letter, Escape(text[1..]));
      case None =>
        if !IsControl(text[0]) {
          ReadPlain(text[0], Escape(text[1..]));
        } else {
          assert Escape(text) == Escape(text[1..]);
        }
    }
  }

  lemma {:induction false} EmptyBody()
    ensures Unescape([]) == [] && IsJsonBody([])
  {
  }

  /** Escaping works byte by byte. */
  lemma {:induction false} EscapeConcat(a: Bytes, b: Bytes)
    ensures Escape(a + b) == Escape(a) + Escape(b)
  {
    hide EscapeByte;
    if a == [] {
      assert a + b == b && Escape(a) == [];
    } else {
      EscapeConcat(a[1..], b);
      assert (a + b)[0] == a[0] && (a + b)[1..] == a[1..] + b;
    }
  }

  lemma {:induction false} PrintableConcat(a: Bytes, b: Bytes)
    ensures Printable(a + b) == Printable(a) + Printable(b)
  {
    hide EscapeLetter, IsControl;
    if a == [] {
      assert a + b == b && Printable(a) == [];
    } else {
      PrintableConcat(a[1..], b);
      assert (a + b)[0] == a[0] && (a + b)[1..] == a[1..] + b;
    }
  }

  /** A byte that a JSON string may hold, as itself or in one of the seven escapes. */
  predicate IsKept(c: Byte) {
    (c >= 0x20 && c != 0x7F) || c == 8 || c == 9 || c == 10 || c == 12 || c == 13
  }

  /** What becomes of a single byte: the seven escapes, the bytes that stay, and those dropped. */
  lemma {:induction false} EscapeOfByte(c: Byte)
    ensures Escape([c]) ==
            if c == 0x22 then [0x5C, 0x22]
            else if c == 0x5C then [0x5C, 0x5C]
            else if c == 0x08 then [0x5C, 0x62]
            else if c == 0x09 then [0x5C, 0x74]
            else if c == 0x0A then [0x5C, 0x6E]
            else if c == 0x0C then [0x5C, 0x66]
            else if c == 0x0D then [0x5C, 0x72]
            else if c < 0x20 || c == 0x7F then []
            else [c]
    ensures Printable([c]) == if IsKept(c) then [c] else []
  {
    assert [c][1..] == [] && Escape([]) == [] && Printable([]) == [];
  }

  /** A text comes back whole exactly when all its bytes are kept. */
  lemma {:induction false} PrintableIff(text: Bytes)
    ensures |Printable(text)| <= |text|
    ensures Printable(text) == text <==> forall c <- text :: IsKept(c)
  {
    hide Printable, IsKept;
    if text == [] {
      EmptyPrintable();
    } else {
      PrintableIff(text[1..]);
      EscapeOfByte(text[0]);
      PrintableConcat([text[0]], text[1..]);
      assert text == [text[0]] + text[1..] && text[0] in text;
      if Printable(text) == text && Printable([text[0]]) == [text[0]] {
        assert Printable(text)[1..] == Printable(text[1..]);
      }
    }
  }

  lemma {:induction false} EmptyPrintable()
    ensures Printable([]) == []
  {
  }

  /** Names in terms of character codes: A to Z and a to z, then also 0 to 9 and the underscore. */
  lemma {:induction false} NamesAre(text: Bytes, maxSize: nat)
    ensures IsName(text, maxSize) <==>
            && 1 <= |text| <= maxSize
            && (65 <= text[0] <= 90 || 97 <= text[0] <= 122)
            && forall c <- text :: 65 <= c <= 90 || 97 <= c <= 122 || 48 <= c <= 57 || c == 95
  {
  }

  // ---------- the tables and the loops over them

  const STATE_BEGIN: int := 0
  const STATE_RUN: int := 1
  const STATE_STOP: int := -1

  /** What formatted extraction of a single character leaves in a table entry: nothing for a
      white-space character, the character itself otherwise. */
  function Extracted(i: Byte): Bytes {
    if 9 <= i <= 13 || i == 32 then [] else [i]
  }

  class StringFilter {
    const charTab: array<Bytes>
    const statTab: array2<int>

    ghost predicate Valid()
      reads this, charTab, statTab
    {
      && charTab.Length == CHAR_RANGE && statTab.Length0 == 2 && statTab.Length1 == CHAR_RANGE
      && (forall i: Byte :: 0 <= i < CHAR_RANGE ==>
            charTab[i] == if EscapeLetter(i).Some? then EscapeByte(i) else Extracted(i))
      && (forall i: Byte :: 0 <= i < CHAR_RANGE ==>
            statTab[STATE_BEGIN, i] == if IsLetter(i) then STATE_RUN else STATE_STOP)
      && (forall i: Byte :: 0 <= i < CHAR_RANGE ==>
            statTab[STATE_RUN, i] == if IsNameChar(i) then STATE_RUN else STATE_STOP)
    }

    constructor ()
      ensures Valid() && fresh(charTab) && fresh(statTab)
    {
      charTab := new Bytes[CHAR_RANGE](_ => []);
      statTab := new int[2, CHAR_RANGE]((_, _) => 0);
      new;
      BuildCharTable();
      BuildStateTable();
    }

    /** The one instance, which never changes once it is built: one more of them stands for it. */
    static method GetInstance() returns (filter: StringFilter)
      ensures fresh(filter) && filter.Valid()
    {
      filter := new StringFilter();
    }

    method BuildCharTable()
      requires charTab.Length == CHAR_RANGE
      modifies charTab
      ensures forall i: Byte :: 0 <= i < CHAR_RANGE ==>
                charTab[i] == if EscapeLetter(i).Some? then EscapeByte(i) else Extracted(i)
    {
      for i := 0 to CHAR_RANGE
        invariant forall k: Byte :: 0 <= k < i ==> charTab[k] == Extracted(k)
      {
        charTab[i] := Extracted(i);
      }
      var mapping: seq<(Byte, Bytes)> := [
        (BACKSLASH, [BACKSLASH, BACKSLASH]), (QUOTE, [BACKSLASH, QUOTE]),
        (8, [BACKSLASH, 'b' as int]), (12, [BACKSLASH, 'f' as int]), (10, [BACKSLASH, 'n' as int]),
        (13, [BACKSLASH, 'r' as int]), (9, [BACKSLASH, 't' as int])];
      for m := 0 to |mapping|
        invariant forall k: Byte :: 0 <= k < CHAR_RANGE ==>
          charTab[k] == if exists j :: 0 <= j < m && mapping[j].0 == k
                        then EscapeByte(k) else Extracted(k)
      {
        charTab[mapping[m].0] := mapping[m].1;
      }
      assert mapping[0].0 == BACKSLASH && mapping[1].0 == QUOTE && mapping[2].0 == 8
          && mapping[3].0 == 12 && mapping[4].0 == 10 && mapping[5].0 == 13 && mapping[6].0 == 9;
    }

    /** Fills `statTab[state, first..last]` with STATE_RUN. */
    method MarkRun(state: int, first: Byte, last: Byte)
      requires 0 <= state < 2 == statTab.Length0 && statTab.Length1 == CHAR_RANGE
      requires first <= last < CHAR_RANGE
      modifies statTab
      ensures forall s, k :: 0 <= s < 2 && 0 <= k < CHAR_RANGE ==>
                statTab[s, k] == if s == state && first <= k <= last then STATE_RUN
                                 else old(statTab[s, k])
    {
      for i := first to last + 1
        invariant forall s, k :: 0 <= s < 2 && 0 <= k < CHAR_RANGE ==>
          statTab[s, k] == if s == state && first <= k < i then STATE_RUN else old(statTab[s, k])
      {
        statTab[state, i] := STATE_RUN;
      }
    }

    method MarkStop(state: int)
      requires 0 <= state < 2 == statTab.Length0 && statTab.Length1 == CHAR_RANGE
      modifies statTab
      ensures forall s, k :: 0 <= s < 2 && 0 <= k < CHAR_RANGE ==>
                statTab[s, k] == if s == state then STATE_STOP else old(statTab[s, k])
    {
      for i := 0 to CHAR_RANGE
        invariant forall s, k :: 0 <= s < 2 && 0 <= k < CHAR_RANGE ==>
          statTab[s, k] == if s == state && k < i then STATE_STOP else old(statTab[s, k])
      {
        statTab[state, i] := STATE_STOP;
      }
    }

    method BuildStateTable()
      requires statTab.Length0 == 2 && statTab.Length1 == CHAR_RANGE
      modifies statTab
      ensures forall i: Byte :: 0 <= i < CHAR_RANGE ==>
                statTab[STATE_BEGIN, i] == if IsLetter(i) then STATE_RUN else STATE_STOP
      ensures forall i: Byte :: 0 <= i < CHAR_RANGE ==>
                statTab[STATE_RUN, i] == if IsNameChar(i) then STATE_RUN else STATE_STOP
    {
      MarkStop(STATE_BEGIN);
      MarkRun(STATE_BEGIN, 'a' as int, 'z' as int);
      MarkRun(STATE_BEGIN, 'A' as int, 'Z' as int);
      MarkStop(STATE_RUN);
      MarkRun(STATE_RUN, '0' as int, '9' as int);
      MarkRun(STATE_RUN, 'a' as int, 'z' as int);
      MarkRun(STATE_RUN, 'A' as int, 'Z' as int);
      MarkRun(STATE_RUN, '_' as int, '_' as int);
    }

    method EscapeToRaw(text: Bytes) returns (rawText: Bytes)
      requires Valid()
      ensures rawText == Escape(text)
    {
      rawText := [];
      for i := 0 to |text|
        invariant rawText + Escape(text[i..]) == Escape(text)
      {
        var c := text[i];
        assert text[i..][1..] == text[i + 1..];
        assert rawText + Escape(text[i..]) == (rawText + EscapeByte(c)) + Escape(text[i + 1..]);
        if c < CHAR_RANGE && |charTab[c]| > 1 {
          rawText := rawText + charTab[c];
          continue;
        }
        if c == DEL || c <= 0x1F {
          assert EscapeByte(c) == [];
          assert rawText + [] == rawText;
          continue;
        }
        rawText := rawText + [c];
      }
    }

    /** The automaton accepts exactly the names. */
    method IsValidName(text: Bytes, maxSize: nat) returns (valid: bool)
      requires Valid()
      ensures valid <==> IsName(text, maxSize)
    {
      if text == [] {
        return false;
      }
      if |text| > maxSize {
        return false;
      }
      var state := STATE_BEGIN;
      for i := 0 to |text|
        invariant state == if i == 0 then STATE_BEGIN else STATE_RUN
        invariant i > 0 ==> IsLetter(text[0])
        invariant forall c <- text[..i] :: IsNameChar(c)
      {
        var ic := text[i];
        assert ic in text;
        if ic >= CHAR_RANGE || state < 0 || state >= 2 {
          return false;
        }
        state := statTab[state, ic];
        if state == STATE_STOP {
          return false;
        }
      }
      return true;
    }
  }
}
