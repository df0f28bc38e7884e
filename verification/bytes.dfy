/** Byte strings, fixed-width little-endian integers and NUL-padded text fields,
    the vocabulary in which every wire layout of the project is written. */
module ByteStrings {
  type Byte = b: int | 0 <= b < 256
  type Bytes = seq<Byte>

  const TWO_TO_THE_32: int := 0x1_0000_0000
  const TWO_TO_THE_63: int := 0x8000_0000_0000_0000
  const TWO_TO_THE_64: int := 0x1_0000_0000_0000_0000

  type U32 = n: int | 0 <= n < TWO_TO_THE_32
  type U64 = n: int | 0 <= n < TWO_TO_THE_64
  type I64 = n: int | -TWO_TO_THE_63 <= n < TWO_TO_THE_63

  /** The outcome of reading one item from the front of a byte string. */
  datatype Parsed<+T> = Fail | Got(value: T, rest: Bytes)

  datatype Option<+T> = None | Some(value: T)

  /** The bytes of a literal of one-byte characters. */
  function Ascii(s: string): (r: Bytes)
    ensures |r| == |s|
    ensures forall i :: 0 <= i < |s| ==> r[i] == s[i] as int % 256
  {
    seq(|s|, i requires 0 <= i < |s| => s[i] as int % 256)
  }

  function Pow256(n: nat): (r: nat)
    ensures r > 0
  {
    if n == 0 then 1 else 256 * Pow256(n - 1)
  }

  lemma {:induction false} Pow256Values()
    ensures Pow256(1) == 256 && Pow256(4) == TWO_TO_THE_32 && Pow256(8) == TWO_TO_THE_64
  {
    assert Pow256(2) == 0x1_0000;
    assert Pow256(6) == 0x1_0000_0000_0000;
  }

  /** The low `n` bytes of `v`, least significant first. Euclidean division makes this the
      two's complement pattern for a negative `v`. */
  function LittleEndian(v: int, n: nat): (r: Bytes)
    ensures |r| == n
    decreases n
  {
    if n == 0 then [] else [v % 256] + LittleEndian(v / 256, n - 1)
  }

  function FromLittleEndian(s: Bytes): (r: nat) {
    if s == [] then 0 else s[0] + 256 * FromLittleEndian(s[1..])
  }

  lemma {:induction false} MulAtLeast(d: int, k: int)
    requires d > 0 && k >= 1
    ensures d * k >= d
  {
  }

  lemma {:induction false} DivModUnique(v: int, d: int, q: int, r: int)
    requires 0 <= r < d && v == d * q + r
    ensures v / d == q && v % d == r
  {
    var q', r' := v / d, v % d;
    assert d * q' + r' == v;
    assert d * (q - q') == d * q - d * q';
    if q' < q {
      MulAtLeast(d, q - q');
      assert false;
    }
    assert d * (q' - q) == d * q' - d * q;
    if q' > q {
      MulAtLeast(d, q' - q);
      assert false;
    }
  }

  lemma {:induction false} ModSplit(v: int, p: nat)
    requires p > 0
    ensures v % (256 * p) == v % 256 + 256 * (v / 256 % p)
  {
    var q := v / 256;
    var a, b := q / p, q % p;
    assert q == p * a + b;
    assert 256 * (p * a) == (256 * p) * a;
    DivModUnique(v, 256 * p, a, v % 256 + 256 * b);
  }

  /** Reading back a fixed-width integer gives it modulo its width. */
  lemma {:induction false} LittleEndianRoundTrip(v: int, n: nat)
    ensures FromLittleEndian(LittleEndian(v, n)) == v % Pow256(n)
    decreases n
  {
    if n > 0 {
      LittleEndianRoundTrip(v / 256, n - 1);
      assert LittleEndian(v, n)[1..] == LittleEndian(v / 256, n - 1);
      ModSplit(v, Pow256(n - 1));
    }
  }

  lemma {:induction false} LittleEndianFits(v: nat, n: nat)
    requires v < Pow256(n)
    ensures FromLittleEndian(LittleEndian(v, n)) == v
  {
    LittleEndianRoundTrip(v, n);
    DivModUnique(v, Pow256(n), 0, v);
  }

  lemma {:induction false} LittleEndianStep(v: int, n: nat)
    ensures LittleEndian(v, n + 1) == [v % 256] + LittleEndian(v / 256, n) && LittleEndian(v, 0) == []
  {
  }

  /** The bytes of a 32-bit word, lowest first. */
  lemma {:induction false} WordBytes(v: int)
    ensures LittleEndian(v, 4) == [v % 256, v / 256 % 256, v / 65536 % 256, v / 16777216 % 256]
  {
    hide LittleEndian;
    LittleEndianStep(v, 3);
    LittleEndianStep(v / 256, 2);
    LittleEndianStep(v / 65536, 1);
    LittleEndianStep(v / 16777216, 0);
  }

  /** A longer word is its low 32 bits and then the rest. */
  lemma {:induction false} LongWordBytes(v: int, n: nat)
    ensures LittleEndian(v, n + 4) == LittleEndian(v, 4) + LittleEndian(v / 4294967296, n)
  {
    hide LittleEndian;
    LittleEndianStep(v, n + 3);
    LittleEndianStep(v / 256, n + 2);
    LittleEndianStep(v / 65536, n + 1);
    LittleEndianStep(v / 16777216, n);
    WordBytes(v);
  }

  /** A slice of a slice. */
  lemma {:induction false} PartOf(s: Bytes, part: Bytes, at: nat, i: nat, j: nat)
    requires at + |part| <= |s| && s[at..at + |part|] == part && i <= j <= |part|
    ensures s[at + i..at + j] == part[i..j]
    ensures i < |part| ==> s[at + i] == part[i]
  {
    forall k | 0 <= k < j - i ensures s[at + i..at + j][k] == part[i..j][k] {
      assert s[at..at + |part|][i + k] == s[at + i + k];
    }
    assert s[at + i..at + j] == part[i..j];
    if i < |part| {
      assert s[at..at + |part|][i] == s[at + i];
    }
  }

  function Zeros(n: nat): (r: Bytes)
    ensures |r| == n
    ensures forall i :: 0 <= i < n ==> r[i] == 0
  {
    seq(n, _ => 0)
  }

  /** A fixed-size text field: the text followed by zero bytes. */
  function Pad(s: Bytes, n: nat): (r: Bytes)
    requires |s| <= n
    ensures |r| == n
  {
    s + Zeros(n - |s|)
  }

  /** What a C string read of a byte string yields: everything before the first NUL. */
  function CString(s: Bytes): (r: Bytes)
    ensures r <= s && 0 !in r
    ensures |r| < |s| ==> s[|r|] == 0
  {
    if s == [] || s[0] == 0 then [] else [s[0]] + CString(s[1..])
  }

  lemma {:induction false} CStringOfPad(s: Bytes, n: nat)
    requires |s| <= n && 0 !in s
    ensures CString(Pad(s, n)) == s
  {
    if s != [] {
      CStringOfPad(s[1..], n - 1);
      assert Pad(s, n)[1..] == Pad(s[1..], n - 1);
    }
  }
}
