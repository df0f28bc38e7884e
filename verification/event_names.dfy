/** A list of event names crosses the language border as one '|'-separated text in a fixed-size
    buffer, is split into slots on the other side, and is read back from the slots. */
module EventNames {
  import opened ByteStrings
  import opened RawDataBuffer

  const MAX_EVENT_LIST_LEN: nat := 339
  const MAX_LENGTH_OF_EVENT_NAME: nat := 33
  const MAX_NUMBER_OF_EVENT_LIST: nat := 10
  const BAR: Byte := 124

  // ---------- joining

  function Join(names: seq<Bytes>): Bytes {
    if names == [] then []
    else if |names| == 1 then names[0]
    else names[0] + [BAR] + Join(names[1..])
  }

  function Truncated(s: Bytes, n: nat): (r: Bytes)
    ensures |r| <= n
  {
    if |s| <= n then s else s[..n]
  }

  /** Copies as much of a text as fits, leaving the rest of the buffer alone. A NUL in the text,
      even behind the copied part, is a panic. */
  method TransSliceToArray(src: Bytes, dest: array<Byte>) returns (panics: bool)
    modifies dest
    ensures panics <==> 0 in src
    ensures dest[..] == if panics then old(dest[..]) else Splice(old(dest[..]), Truncated(src, dest.Length), 0)
  {
    if 0 in src {
      return true;
    }
    panics := false;
    var end := if |src| <= dest.Length then |src| else dest.Length;
    forall i | 0 <= i < end {
      dest[i] := src[i];
    }
  }

  /** The buffer that is handed over: the joined names, cut to 339 bytes, behind them zeros. */
  function Buffer(names: seq<Bytes>): (r: Bytes)
    ensures |r| == MAX_EVENT_LIST_LEN
  {
    Pad(Truncated(Join(names), MAX_EVENT_LIST_LEN), MAX_EVENT_LIST_LEN)
  }

  /** Byte by byte: the joined names as far as they fit, and zeros. */
  lemma {:induction false} BufferBytes(names: seq<Bytes>, i: nat)
    requires i < 339
    ensures Buffer(names)[i] == if i < |Join(names)| then Join(names)[i] else 0
  {
    PadAt(Truncated(Join(names), MAX_EVENT_LIST_LEN), MAX_EVENT_LIST_LEN, i);
  }

  lemma {:induction false} PadAt(s: Bytes, n: nat, i: nat)
    requires |s| <= n && i < n
    ensures Pad(s, n)[i] == if i < |s| then s[i] else 0
  {
  }

  /** Joining lists of names one behind the other, and single names. */
  lemma {:induction false} JoinConcat(a: seq<Bytes>, b: seq<Bytes>, name: Bytes)
    ensures Join([]) == [] && Join([name]) == name
    ensures a != [] && b != [] ==> Join(a + b) == Join(a) + [124] + Join(b)
  {
    if a != [] && b != [] {
      assert (a + b)[1..] == a[1..] + b;
      if |a| > 1 {
        JoinConcat(a[1..], b, name);
      } else {
        assert a[1..] + b == b;
      }
    }
  }

  /** The number of slots that goes with it: that of the names, compared with the length of the
      buffer and not with the number of slots on the other side. */
  function Count(names: seq<Bytes>): nat {
    if |names| <= MAX_EVENT_LIST_LEN then |names| else MAX_EVENT_LIST_LEN
  }

  method FillEventList(names: seq<Bytes>) returns (panics: bool, eventList: array<Byte>, eventListSize: nat)
    ensures fresh(eventList) && eventList.Length == 339
    ensures panics <==> 0 in Join(names)
    ensures !panics ==> eventList[..] == Buffer(names) && eventListSize == Count(names)
    ensures eventListSize == if |names| < 339 then |names| else 339
  {
    eventList := new Byte[MAX_EVENT_LIST_LEN](_ => 0);
    assert eventList[..] == Zeros(MAX_EVENT_LIST_LEN);
    var srcLen, destLen := |names|, eventList.Length;
    eventListSize := if srcLen <= destLen then srcLen else destLen;
    panics := TransSliceToArray(Join(names), eventList);
  }

  // ---------- splitting

  /** The bytes before the first bar. */
  function PieceLength(s: Bytes): (n: nat)
    ensures n <= |s| && BAR !in s[..n]
    ensures n < |s| ==> s[n] == BAR
  {
    if s == [] || s[0] == BAR then 0 else 1 + PieceLength(s[1..])
  }

  /** The texts between the bars. */
  function Pieces(s: Bytes): (r: seq<Bytes>)
    ensures r != []
    decreases |s|
  {
    var n := PieceLength(s);
    if n == |s| then [s] else [s[..n]] + Pieces(s[n + 1..])
  }

  predicate Fits(piece: Bytes) {
    0 < |piece| <= MAX_LENGTH_OF_EVENT_NAME
  }

  /** The pieces that are neither empty nor too long. */
  function Fitting(pieces: seq<Bytes>): (r: seq<Bytes>)
    ensures |r| <= |pieces| && forall p <- r :: Fits(p)
  {
    if pieces == [] then []
    else (if Fits(pieces[0]) then [pieces[0]] else []) + Fitting(pieces[1..])
  }

  /** Which pieces are stored: in order, those of 1 to 33 bytes. */
  lemma {:induction false} FittingConcat(a: seq<Bytes>, b: seq<Bytes>, piece: Bytes)
    ensures Fitting(a + b) == Fitting(a) + Fitting(b)
    ensures Fitting([piece]) == if 1 <= |piece| <= 33 then [piece] else []
  {
    if a == [] {
      assert a + b == b;
    } else {
      assert (a + b)[1..] == a[1..] + b;
      FittingConcat(a[1..], b, piece);
    }
  }

  function FirstPieces(pieces: seq<Bytes>, n: nat): (r: seq<Bytes>)
    ensures |r| <= n
  {
    if |pieces| <= n then pieces else pieces[..n]
  }

  /** The pieces that can be stored: all of them, or without a slot those in front of a bar. */
  function Candidates(s: Bytes, destSize: nat): seq<Bytes> {
    if destSize > 0 then Pieces(s) else Pieces(s)[..|Pieces(s)| - 1]
  }

  /** The test for the last slot comes after a piece is stored. */
  function Limit(destSize: nat): nat {
    if destSize > 0 then destSize else 1
  }

  /** What splitting a text stores in slots. */
  function Stored(s: Bytes, destSize: nat): (r: seq<Bytes>)
    ensures |r| <= Limit(destSize)
  {
    FirstPieces(Fitting(Candidates(s, destSize)), Limit(destSize))
  }

  type Row = r: Bytes | |r| == MAX_LENGTH_OF_EVENT_NAME witness Zeros(MAX_LENGTH_OF_EVENT_NAME)

  /** The slots of the destination. */
  function Rows(dest: array2<Byte>): (r: seq<Row>)
    requires dest.Length1 == MAX_LENGTH_OF_EVENT_NAME
    reads dest
    ensures |r| == dest.Length0
  {
    seq(dest.Length0, r requires 0 <= r < dest.Length0 reads dest =>
      seq(MAX_LENGTH_OF_EVENT_NAME, k requires 0 <= k < MAX_LENGTH_OF_EVENT_NAME reads dest => dest[r, k]))
  }

  /** A slot with a piece at its front; the bytes behind it are as before. */
  function Overlaid(row: Row, piece: Bytes): Row
    requires |piece| <= MAX_LENGTH_OF_EVENT_NAME
  {
    Splice(row, piece, 0)
  }

  /** The pieces in the first slots, from the front on; all other slots are as before. */
  function Filled(before: seq<Row>, pieces: seq<Bytes>): (after: seq<Row>)
    requires |pieces| <= |before| && forall p <- pieces :: Fits(p)
    ensures |after| == |before|
  {
    seq(|before|, r requires 0 <= r < |before| =>
      if r < |pieces| then assert Fits(pieces[r]); Overlaid(before[r], pieces[r]) else before[r])
  }

  lemma {:induction false} FilledOneMore(before: seq<Row>, pieces: seq<Bytes>, piece: Bytes)
    requires |pieces| < |before| && (forall p <- pieces :: Fits(p)) && Fits(piece)
    ensures Filled(before, pieces + [piece])
            == Filled(before, pieces)[|pieces| := Overlaid(before[|pieces|], piece)]
    ensures Filled(before, pieces)[|pieces|] == before[|pieces|]
  {
  }

  lemma {:induction false} FilledNothing(before: seq<Row>)
    ensures Filled(before, []) == before
  {
  }

  method CopyPiece(dest: array2<Byte>, row: nat, piece: Bytes)
    requires row < dest.Length0 && dest.Length1 == MAX_LENGTH_OF_EVENT_NAME && Fits(piece)
    modifies dest
    ensures Rows(dest) == old(Rows(dest))[row := Overlaid(old(Rows(dest))[row], piece)]
  {
    for i := 0 to |piece|
      invariant forall r, k :: 0 <= r < dest.Length0 && 0 <= k < MAX_LENGTH_OF_EVENT_NAME ==>
        dest[r, k] == if r == row && k < i then piece[k] else old(dest[r, k])
    {
      dest[row, i] := piece[i];
    }
    ghost var was := old(Rows(dest));
    assert Rows(dest)[row] == Overlaid(was[row], piece);
    assert forall r :: 0 <= r < dest.Length0 && r != row ==> Rows(dest)[r] == was[r];
  }

  lemma {:induction false} PieceAt(s: Bytes, b: nat, p: nat)
    requires b <= p <= |s| && BAR !in s[b..p]
    ensures p < |s| && s[p] == BAR ==> Pieces(s[b..]) == [s[b..p]] + Pieces(s[p + 1..])
    ensures p == |s| ==> Pieces(s[b..]) == [s[b..p]]
  {
    assert s[b..] == s[b..p] + s[p..];
    if p == |s| || s[p] == BAR {
      PieceLengthIs(s[b..p], s[p..]);
    }
    assert p < |s| ==> s[b..][p - b + 1..] == s[p + 1..];
    assert s[b..][..p - b] == s[b..p];
    assert p == |s| ==> s[b..p] == s[b..];
  }

  lemma {:induction false} PieceLengthIs(piece: Bytes, rest: Bytes)
    requires BAR !in piece && (rest == [] || rest[0] == BAR)
    ensures PieceLength(piece + rest) == |piece|
  {
    if piece != [] {
      PieceLengthIs(piece[1..], rest);
      assert (piece + rest)[1..] == piece[1..] + rest;
    } else {
      assert piece + rest == rest;
    }
  }

  /** Taking the first piece off: it is stored if it fits and a slot is left. */
  lemma {:induction false} StoredStep(piece: Bytes, rest: seq<Bytes>, n: nat)
    requires n > 0
    ensures FirstPieces(Fitting([piece] + rest), n) ==
            if Fits(piece) then [piece] + FirstPieces(Fitting(rest), n - 1) else FirstPieces(Fitting(rest), n)
  {
    assert ([piece] + rest)[1..] == rest;
  }

  /** With `done` stored, the text from `b` on fills the remaining slots. */
  ghost predicate Remaining(s: Bytes, b: nat, done: seq<Bytes>, destSize: nat) {
    b <= |s| && |done| <= Limit(destSize)
    && done + FirstPieces(Fitting(Candidates(s[b..], destSize)), Limit(destSize) - |done|) == Stored(s, destSize)
  }

  /** At a bar, the piece since `b` is stored if it fits, and the rest starts behind the bar. */
  lemma {:induction false} AtBar(s: Bytes, b: nat, p: nat, done: seq<Bytes>, destSize: nat)
    requires Remaining(s, b, done, destSize) && b <= p < |s| && BAR !in s[b..p] && s[p] == BAR
    requires |done| < Limit(destSize)
    ensures Remaining(s, p + 1, if Fits(s[b..p]) then done + [s[b..p]] else done, destSize)
  {
    hide Pieces, Fitting, FirstPieces;
    var n, rest := Limit(destSize) - |done|, Candidates(s[p + 1..], destSize);
    PieceAt(s, b, p);
    assert Candidates(s[b..], destSize) == [s[b..p]] + rest;
    StoredStep(s[b..p], rest, n);
    if Fits(s[b..p]) {
      assert done + ([s[b..p]] + FirstPieces(Fitting(rest), n - 1))
          == done + [s[b..p]] + FirstPieces(Fitting(rest), n - 1);
    }
  }

  /** At the end, the last piece is stored if it fits and a slot is left. */
  lemma {:induction false} AtEnd(s: Bytes, b: nat, done: seq<Bytes>, destSize: nat)
    requires Remaining(s, b, done, destSize) && (|done| < Limit(destSize) ==> BAR !in s[b..])
    ensures Stored(s, destSize) == if |done| < destSize && Fits(s[b..]) then done + [s[b..]] else done
  {
    hide Pieces, Fitting, FirstPieces;
    var n := Limit(destSize) - |done|;
    NoPieces(n);
    if |done| < Limit(destSize) {
      assert s[b..|s|] == s[b..];
      PieceAt(s, b, |s|);
      StoredStep(s[b..], [], n);
      assert [s[b..]] + [] == [s[b..]];
    }
    assert done + [] == done;
  }

  /** Fills the slots with the pieces of the C string in the buffer. The given number of slots can
      differ from that of the array; a piece that would go behind the array ends the call. */
  method SplitStringToArray(src: Bytes, srcMaxLen: nat, dest: array2<Byte>, destSize: nat) returns (outside: bool)
    requires srcMaxLen <= |src| && dest.Length1 == MAX_LENGTH_OF_EVENT_NAME
    modifies dest
    ensures var stored := Stored(CString(src[..srcMaxLen]), destSize);
            && (outside <==> |stored| > dest.Length0)
            && Rows(dest) == Filled(old(Rows(dest)), if outside then stored[..dest.Length0] else stored)
  {
    hide Remaining, Stored, Rows, Filled, Overlaid, CString;
    ghost var was, s := Rows(dest), CString(src[..srcMaxLen]);
    ghost var done: seq<Bytes> := [];
    assert s <= src[..srcMaxLen] && s <= src;
    FilledNothing(was);
    AtStart(s, destSize);
    outside := false;
    var curPos, destItemIndex, sliceBegin, sliceEnd := 0, 0, 0, 1;
    var cpyLen := 0;
    while curPos < srcMaxLen && src[curPos] != 0
      invariant 0 <= sliceBegin <= curPos <= |s|
      invariant destItemIndex == |done| < Limit(destSize) && |done| <= dest.Length0
      invariant (forall p <- done :: Fits(p)) && Rows(dest) == Filled(was, done)
      invariant BAR !in s[sliceBegin..curPos]
      invariant Remaining(s, sliceBegin, done, destSize)
      decreases |s| - curPos
    {
      if src[curPos] != BAR {
        assert s[sliceBegin..curPos + 1] == s[sliceBegin..curPos] + [s[curPos]];
        curPos := curPos + 1;
        continue;
      }
      sliceEnd := curPos - 1;
      cpyLen := sliceEnd - sliceBegin + 1;
      AtBar(s, sliceBegin, curPos, done, destSize);
      if cpyLen <= 0 || cpyLen > MAX_LENGTH_OF_EVENT_NAME {
        sliceBegin := curPos + 1;
        curPos := curPos + 1;
        continue;
      }
      ghost var piece := s[sliceBegin..curPos];
      SliceOfPrefix(s, src, sliceBegin, curPos);
      if destItemIndex >= dest.Length0 {
        MoreStored(s, curPos + 1, done, piece, destSize);
        return true;
      }
      FilledOneMore(was, done, piece);
      CopyPiece(dest, destItemIndex, src[sliceBegin..sliceBegin + cpyLen]);
      done := done + [piece];
      sliceBegin := curPos + 1;
      curPos := curPos + 1;
      destItemIndex := destItemIndex + 1;
      if destItemIndex >= destSize {
        break;
      }
    }
    ghost var left := s[sliceBegin..];
    AtEnd(s, sliceBegin, done, destSize);
    if curPos >= srcMaxLen || src[curPos] == 0 {
      sliceEnd := curPos - 1;
    }
    cpyLen := sliceEnd - sliceBegin + 1;
    if cpyLen <= 0 || cpyLen > MAX_LENGTH_OF_EVENT_NAME || destItemIndex >= destSize {
      return;
    }
    SliceOfPrefix(s, src, sliceBegin, curPos);
    assert left == s[sliceBegin..curPos];
    if destItemIndex >= dest.Length0 {
      assert done + [left] == Stored(s, destSize) && (done + [left])[..|done|] == done;
      return true;
    }
    FilledOneMore(was, done, left);
    CopyPiece(dest, destItemIndex, src[sliceBegin..sliceBegin + cpyLen]);
  }

  lemma {:induction false} MoreStored(s: Bytes, b: nat, done: seq<Bytes>, piece: Bytes, destSize: nat)
    requires Remaining(s, b, done + [piece], destSize)
    ensures done + [piece] <= Stored(s, destSize) && Stored(s, destSize)[..|done|] == done
  {
  }

  lemma {:induction false} SliceOfPrefix(s: Bytes, src: Bytes, b: nat, p: nat)
    requires s <= src && b <= p <= |s|
    ensures s[b..p] == src[b..p]
  {
    assert s == src[..|s|];
  }

  lemma {:induction false} AtStart(s: Bytes, destSize: nat)
    ensures Remaining(s, 0, [], destSize)
  {
    assert s[0..] == s;
  }

  lemma {:induction false} NoPieces(n: nat)
    ensures FirstPieces(Fitting([]), n) == []
    ensures n > 0 ==> FirstPieces(Fitting([]), n - 1) == []
    ensures n == 0 ==> forall pieces :: FirstPieces(pieces, n) == []
  {
  }

  // ---------- reading the slots

  /** The slots as they lie in memory. */
  function Flat(rows: seq<Row>): Bytes {
    if rows == [] then [] else rows[0] + Flat(rows[1..])
  }

  /** The C string that starts at slot `j`; none if it starts or goes on behind the slots. */
  function ReadName(rows: seq<Row>, j: nat): Option<Bytes> {
    if j >= |rows| then None
    else
      var s := Flat(rows[j..]);
      if 0 in s then Some(CString(s)) else None
  }

  function ReadNames(rows: seq<Row>, size: nat): (r: seq<Option<Bytes>>)
    ensures |r| == size && forall j :: 0 <= j < size ==> r[j] == ReadName(rows, j)
  {
    seq(size, j requires 0 <= j < size => ReadName(rows, j))
  }

  /** What becomes of a list of names on its way: a panic, a piece written behind the slots, an
      invalid rule, or a list of names, each none where the reader went behind the slots. */
  datatype Passed = Panicked | Outside | Invalid | Names(list: seq<Option<Bytes>>)

  function Pass(names: seq<Bytes>, before: seq<Row>): Passed {
    var stored := Stored(CString(Buffer(names)), Count(names));
    if 0 in Join(names) then Panicked
    else if |stored| > |before| then Outside
    else if names == [] then Invalid
    else Names(ReadNames(Filled(before, stored), Count(names)))
  }

  /** The whole way, from the list of a query in Rust to the list of the query rule in C++. The
      slots are not initialised. */
  method PassEventList(names: seq<Bytes>, slots: array2<Byte>) returns (r: Passed)
    requires slots.Length0 == 10 && slots.Length1 == 33
    modifies slots
    ensures r == Pass(names, old(Rows(slots)))
  {
    hide Stored, Filled, Rows, ReadName, CString, Join;
    var panics, eventList, eventListSize := FillEventList(names);
    if panics {
      return Panicked;
    }
    assert eventList[..][..MAX_EVENT_LIST_LEN] == Buffer(names);
    var outside := SplitStringToArray(eventList[..], MAX_EVENT_LIST_LEN, slots, eventListSize);
    if outside {
      return Outside;
    }
    if eventListSize == 0 {
      return Invalid;
    }
    var list: seq<Option<Bytes>> := [];
    for j := 0 to eventListSize
      invariant list == ReadNames(Rows(slots), j)
    {
      list := list + [ReadName(Rows(slots), j)];
    }
    return Names(list);
  }

  // ---------- splitting inverts joining

  predicate IsEventName(name: Bytes) {
    1 <= |name| <= 33 && 124 !in name && 0 !in name
  }

  lemma {:induction false} PiecesOfJoin(names: seq<Bytes>)
    requires names != [] && forall name <- names :: BAR !in name
    ensures Pieces(Join(names)) == names
  {
    var s := Join(names);
    assert names[0] in names;
    if |names| == 1 {
      assert s[0..] == s;
      PieceAt(s, 0, |s|);
      assert names == [names[0]];
    } else {
      var n := |names[0]|;
      assert s[n + 1..] == Join(names[1..]) && s[0..n] == names[0] && s[0..] == s && s[n] == BAR;
      PieceAt(s, 0, n);
      PiecesOfJoin(names[1..]);
      assert names == [names[0]] + names[1..];
    }
  }

  lemma {:induction false} JoinLength(names: seq<Bytes>)
    requires forall name <- names :: |name| <= MAX_LENGTH_OF_EVENT_NAME && 0 !in name
    ensures names != [] ==> |Join(names)| <= 34 * |names| - 1
    ensures 0 !in Join(names)
  {
    if |names| > 1 {
      JoinLength(names[1..]);
    }
    assert names != [] ==> names[0] in names;
  }

  lemma {:induction false} AllFit(names: seq<Bytes>)
    requires forall name <- names :: Fits(name)
    ensures Fitting(names) == names
  {
    if names != [] {
      AllFit(names[1..]);
      assert Fits(names[0]);
      assert names == [names[0]] + names[1..];
    }
  }

  /** Any list of texts without bars that joins to at most 339 bytes without NUL is split into
      itself, without its empty and too long members and cut to the number of slots. Told that there
      are no slots, the splitter still stores one piece that stands in front of a bar. */
  lemma {:induction false} SplitOfJoin(names: seq<Bytes>, destSize: nat)
    requires names != [] && forall name <- names :: 124 !in name
    requires |Join(names)| <= 339 && 0 !in Join(names)
    ensures var fit := Fitting(names);
            destSize >= 1 ==> Stored(CString(Buffer(names)), destSize) == if |fit| < destSize then fit else fit[..destSize]
    ensures var fit := Fitting(names[..|names| - 1]);
            destSize == 0 ==> Stored(CString(Buffer(names)), 0) == if fit == [] then [] else [fit[0]]
  {
    hide CString, Pad, Join, Fitting;
    CStringOfPad(Join(names), MAX_EVENT_LIST_LEN);
    PiecesOfJoin(names);
  }

  /** At most ten names of 1 to 33 bytes without bars and NULs fit into the buffer and are split
      into just these names. */
  lemma {:induction false} SplitInvertsJoin(names: seq<Bytes>)
    requires 1 <= |names| <= 10 && forall name <- names :: IsEventName(name)
    ensures 0 !in Join(names) && Stored(CString(Buffer(names)), Count(names)) == names
  {
    JoinLength(names);
    SplitOfJoin(names, |names|);
    AllFit(names);
  }

  // ---------- what is read back

  function CameBack(names: seq<Bytes>): (r: seq<Option<Bytes>>)
    ensures |r| == |names| && forall j :: 0 <= j < |names| ==> r[j] == Some(names[j])
  {
    seq(|names|, j requires 0 <= j < |names| => Some(names[j]))
  }

  /** The uninitialised slots happen to end the name: the byte behind it is zero. A name of 33 bytes
      fills its slot, so the byte is the first one of the next slot, which must not hold a name. */
  predicate Ended(names: seq<Bytes>, before: seq<Row>, j: nat)
    requires j < |names| <= |before| && forall name <- names :: IsEventName(name)
  {
    var n := |names[j]|;
    assert IsEventName(names[j]);
    if n < 33 then before[j][n] == 0
    else j + 1 == |names| < |before| && before[j + 1][0] == 0
  }

  /** A C string in front of other bytes ends where the first zero is. */
  lemma {:induction false} CStringIs(piece: Bytes, s: Bytes)
    requires piece <= s && 0 !in piece
    ensures (if 0 in s then Some(CString(s)) else None) == Some(piece)
            <==> |piece| < |s| && s[|piece|] == 0
  {
    if piece != [] {
      assert piece[0] in piece && s == [s[0]] + s[1..];
      CStringIs(piece[1..], s[1..]);
      assert CString(s)[1..] == CString(s[1..]) && piece == [piece[0]] + piece[1..];
    } else {
      assert s != [] ==> s[0] in s;
    }
  }

  lemma {:induction false} FlatStep(rows: seq<Row>, j: nat)
    requires j < |rows|
    ensures Flat(rows[j..]) == rows[j] + Flat(rows[j + 1..])
  {
    assert rows[j..][1..] == rows[j + 1..];
  }

  lemma {:induction false} NameReads(names: seq<Bytes>, before: seq<Row>, j: nat)
    requires j < |names| <= |before| && forall name <- names :: IsEventName(name)
    ensures (forall name <- names :: Fits(name))
    ensures ReadName(Filled(before, names), j) == Some(names[j]) <==> Ended(names, before, j)
  {
    assert IsEventName(names[j]);
    var after, name := Filled(before, names), names[j];
    FlatStep(after, j);
    var s := Flat(after[j..]);
    assert name <= after[j];
    CStringIs(name, s);
    if |name| == MAX_LENGTH_OF_EVENT_NAME {
      if j + 1 < |after| {
        FlatStep(after, j + 1);
        assert s[|name|] == after[j + 1][0];
        assert j + 1 < |names| ==> IsEventName(names[j + 1]) && names[j + 1][0] in names[j + 1];
        assert j + 1 < |names| ==> after[j + 1][0] == names[j + 1][0];
      } else {
        assert after[j + 1..] == [];
      }
    } else {
      assert s[|name|] == after[j][|name|] == before[j][|name|];
    }
  }

  /** For every list of event names and all contents of the ten slots before: the names come back,
      one by one, if and only if there are at most ten and each is ended by the slots. */
  lemma {:induction false} NamesComeBackIff(names: seq<Bytes>, before: seq<Row>)
    requires names != [] && |before| == 10
    requires forall name <- names :: IsEventName(name)
    ensures Pass(names, before) == Names(CameBack(names)) <==>
            |names| <= 10 && forall j :: 0 <= j < |names| ==> Ended(names, before, j)
  {
    hide Stored, Join, Filled, Ended, ReadName;
    JoinLength(names);
    if |names| <= MAX_NUMBER_OF_EVENT_LIST {
      SplitInvertsJoin(names);
      forall j | 0 <= j < |names|
        ensures ReadName(Filled(before, names), j) == Some(names[j]) <==> Ended(names, before, j)
      {
        NameReads(names, before, j);
      }
      var list := ReadNames(Filled(before, names), |names|);
      if list == CameBack(names) {
        assert forall j :: 0 <= j < |names| ==> list[j] == Some(names[j]);
      }
    } else {
      TooManyNames(names, before);
    }
  }

  lemma {:induction false} TooManyNames(names: seq<Bytes>, before: seq<Row>)
    requires |names| > MAX_NUMBER_OF_EVENT_LIST == |before|
    ensures Pass(names, before) != Names(CameBack(names))
  {
    hide Stored, Join;
    var r := Pass(names, before);
    if r.Names? {
      assert r.list[MAX_NUMBER_OF_EVENT_LIST] == None;
      assert CameBack(names)[MAX_NUMBER_OF_EVENT_LIST].Some?;
    }
  }

  /** A name in a slot whose old bytes go on behind it comes back as another one. */
  lemma {:induction false} LeftoversChangeName(before: seq<Row>)
    requires |before| == 10 && before[0][1] != 0
    ensures Pass([Ascii("A")], before) != Names([Some(Ascii("A"))])
  {
    var names := [Ascii("A")];
    assert IsEventName(Ascii("A")) by {
      assert Ascii("A") == [65];
    }
    NamesComeBackIff(names, before);
    assert !Ended(names, before, 0);
    assert CameBack(names) == [Some(Ascii("A"))];
  }

  /** With any other text that joins into the buffer, a piece is written behind the slots if and
      only if more than ten members fit. */
  lemma {:induction false} OutsideIff(names: seq<Bytes>, before: seq<Row>)
    requires names != [] && |before| == 10 && forall name <- names :: 124 !in name
    requires |Join(names)| <= 339 && 0 !in Join(names)
    ensures Pass(names, before).Outside? <==> |Fitting(names)| > 10
  {
    hide Stored, Join, CString;
    SplitOfJoin(names, Count(names));
  }

  /** The call panics exactly when some name holds a NUL, and without names the rule is invalid. */
  lemma {:induction false} PanicsIff(names: seq<Bytes>, before: seq<Row>)
    ensures Pass(names, before) == Panicked <==> exists name <- names :: 0 in name
    ensures names == [] ==> Pass(names, before) == Invalid
  {
    NulInJoin(names);
    if names == [] {
      NoPieces(1);
      assert Buffer([]) == Zeros(MAX_EVENT_LIST_LEN);
    }
  }

  lemma {:induction false} NulInJoin(names: seq<Bytes>)
    ensures 0 in Join(names) <==> exists name <- names :: 0 in name
  {
    if names != [] {
      NulInJoin(names[1..]);
      assert names == [names[0]] + names[1..];
    }
  }

  lemma {:induction false} OneByteNames(n: nat)
    requires n > 0
    ensures |Join(seq(n, _ => Ascii("A")))| == 2 * n - 1
    ensures 0 !in Join(seq(n, _ => Ascii("A")))
  {
    assert Ascii("A") == [65];
    if n > 1 {
      OneByteNames(n - 1);
      assert seq(n, _ => Ascii("A"))[1..] == seq(n - 1, _ => Ascii("A"));
    }
  }

  /** Eleven names of one byte: the eleventh is written behind the slots. */
  lemma {:induction false} ElevenNames(before: seq<Row>)
    requires |before| == 10
    ensures Pass(seq(11, _ => Ascii("A")), before) == Outside
  {
    hide Pass;
    var names := seq(11, _ => Ascii("A"));
    assert Ascii("A") == [65];
    OneByteNames(11);
    AllFit(names);
    OutsideIff(names, before);
  }

  // ---------- slots that are zero

  function Empties(n: nat): (r: seq<Bytes>)
    ensures |r| == n && forall j :: 0 <= j < n ==> r[j] == []
  {
    seq(n, _ => [])
  }

  lemma {:induction false} ZeroSlotReads(before: seq<Row>, pieces: seq<Bytes>, j: nat)
    requires j < |before| && |pieces| <= |before| && forall row <- before :: row == Zeros(MAX_LENGTH_OF_EVENT_NAME)
    requires forall p <- pieces :: IsEventName(p) && |p| < MAX_LENGTH_OF_EVENT_NAME
    ensures (forall p <- pieces :: Fits(p))
    ensures ReadName(Filled(before, pieces), j) == Some(if j < |pieces| then pieces[j] else [])
  {
    var after := Filled(before, pieces);
    var piece := if j < |pieces| then pieces[j] else [];
    assert j < |pieces| ==> IsEventName(pieces[j]);
    assert before[j] in before;
    FlatStep(after, j);
    assert piece <= after[j] && after[j][|piece|] == 0;
    CStringIs(piece, Flat(after[j..]));
  }

  /** No empty name stands before another one. */
  ghost predicate EmptiesLast(names: seq<Bytes>) {
    forall i, j :: 0 <= i < j < |names| && names[i] == [] ==> names[j] == []
  }

  predicate IsShortName(name: Bytes) {
    |name| <= 32 && 124 !in name && 0 !in name
  }

  lemma {:induction false} NoneFit(names: seq<Bytes>)
    requires forall name <- names :: name == []
    ensures Fitting(names) == []
  {
    if names != [] {
      assert names[0] in names && forall name <- names[1..] :: name in names;
      NoneFit(names[1..]);
    }
  }

  lemma {:induction false} FittingNames(names: seq<Bytes>)
    requires forall name <- names :: IsShortName(name)
    ensures forall p <- Fitting(names) :: IsEventName(p) && IsShortName(p)
  {
    if names != [] {
      assert IsShortName(names[0]);
      FittingNames(names[1..]);
    }
  }

  /** What is read back from slots that are zero. */
  function Back(names: seq<Bytes>): seq<Bytes> {
    Fitting(names) + Empties(|names| - |Fitting(names)|)
  }

  lemma {:induction false} BackOfEmpty(names: seq<Bytes>)
    requires names != [] && names[0] == []
    ensures Back(names) == names <==> EmptiesLast(names)
  {
    var fit := Fitting(names);
    if EmptiesLast(names) {
      NoneFit(names);
    } else if fit != [] {
      assert Fits(fit[0]);
      assert Back(names)[0] == fit[0];
    }
  }

  lemma {:induction false} BackOfName(names: seq<Bytes>)
    requires names != [] && Fits(names[0])
    ensures Back(names) == [names[0]] + Back(names[1..])
  {
    assert Fitting(names) == [names[0]] + Fitting(names[1..]);
  }

  lemma {:induction false} FittingFirst(names: seq<Bytes>)
    requires forall name <- names :: IsShortName(name)
    ensures Back(names) == names <==> EmptiesLast(names)
  {
    hide Back, EmptiesLast;
    if names == [] {
      NothingBack();
    } else {
      assert IsShortName(names[0]);
      if names[0] == [] {
        BackOfEmpty(names);
      } else {
        FittingFirst(names[1..]);
        EmptiesLastTail(names);
        BackOfName(names);
        assert names == [names[0]] + names[1..] && Back(names)[1..] == Back(names[1..]);
      }
    }
  }

  lemma {:induction false} NothingBack()
    ensures Back([]) == [] && EmptiesLast([])
  {
  }

  lemma {:induction false} EmptiesLastTail(names: seq<Bytes>)
    requires names != [] && names[0] != []
    ensures EmptiesLast(names) <==> EmptiesLast(names[1..])
  {
    var tail := names[1..];
    if EmptiesLast(tail) {
      forall i, j | 0 <= i < j < |names| && names[i] == [] ensures names[j] == [] {
        assert tail[i - 1] == names[i] && tail[j - 1] == names[j];
      }
    } else {
      var i, j :| 0 <= i < j < |tail| && tail[i] == [] && tail[j] != [];
      assert names[i + 1] == tail[i] && names[j + 1] == tail[j];
    }
  }

  /** With slots full of zeros, at most ten names of at most 32 bytes come back without the empty
      ones, and for each of these an empty one at the end: the list is the same if and only if its
      empty names were at the end already. */
  lemma {:induction false} ZeroSlots(names: seq<Bytes>, before: seq<Row>)
    requires 1 <= |names| <= 10 == |before|
    requires forall name <- names :: IsShortName(name)
    requires forall row <- before :: row == Zeros(33)
    ensures Pass(names, before) == Names(CameBack(Back(names)))
    ensures Back(names) == names <==> EmptiesLast(names)
  {
    hide Stored, Join, Filled, ReadName, CString, EmptiesLast;
    FittingNames(names);
    FittingFirst(names);
    assert forall name <- names :: IsShortName(name) ==> |name| <= MAX_LENGTH_OF_EVENT_NAME && 0 !in name;
    JoinLength(names);
    SplitOfJoin(names, |names|);
    var fit := Fitting(names);
    assert Stored(CString(Buffer(names)), Count(names)) == fit;
    var back := Back(names);
    forall j | 0 <= j < |names| ensures ReadName(Filled(before, fit), j) == Some(back[j]) {
      ZeroSlotReads(before, fit, j);
    }
    assert ReadNames(Filled(before, fit), |names|) == CameBack(back);
  }
}
