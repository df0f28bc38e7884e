/** The growable byte buffer that the encoder appends to and patches. */
module RawDataBuffer {
  import opened ByteStrings

  const EXPAND_BUF_SIZE: nat := 128

  function Max(a: nat, b: nat): nat {
    if a < b then b else a
  }

  /** Writing `src` over `s` at `pos`, extending `s` when the write runs past its end. */
  function Splice(s: Bytes, src: Bytes, pos: nat): (r: Bytes)
    requires pos <= |s|
    ensures |r| == Max(|s|, pos + |src|)
  {
    s[..pos] + src + (if pos + |src| <= |s| then s[pos + |src|..] else [])
  }

  /** A splice changes exactly the bytes it covers. */
  lemma {:induction false} SpliceAt(s: Bytes, src: Bytes, pos: nat, i: nat)
    requires pos <= |s| && i < Max(|s|, pos + |src|)
    ensures Splice(s, src, pos)[i] == if pos <= i < pos + |src| then src[i - pos] else s[i]
  {
  }

  /** A splice that stays inside an allocation acts on the used part of it. */
  lemma {:induction false} SpliceOfPrefix(whole: Bytes, n: nat, src: Bytes, pos: nat)
    requires pos <= n <= |whole| && pos + |src| <= |whole|
    ensures Splice(whole, src, pos)[..Max(n, pos + |src|)] == Splice(whole[..n], src, pos)
  {
  }

  class RawData {
    var data: array?<Byte>
    var len: nat
    var capacity: nat
    /** Whether `new(std::nothrow)` of a given size succeeds. */
    const canAlloc: nat -> bool
    /** The longest single write so far. */
    ghost var longest: nat

    ghost predicate Valid()
      reads this, data
    {
      && (data == null ==> len == 0 && capacity == 0)
      && (data != null ==> data.Length == capacity && len <= capacity)
      && capacity - len <= Max(EXPAND_BUF_SIZE, longest)
    }

    ghost function Contents(): (r: Bytes)
      requires Valid()
      reads this, data
      ensures |r| == len
    {
      if data == null then [] else data[..len]
    }

    /** The buffer exists and no allocation fails. */
    ghost predicate Ready()
      reads this
    {
      data != null && forall n :: canAlloc(n)
    }

    constructor (canAlloc: nat -> bool)
      ensures Valid() && Contents() == [] && this.canAlloc == canAlloc
      ensures data != null <==> canAlloc(128)
      ensures data != null ==> fresh(data)
      ensures capacity == if canAlloc(128) then 128 else 0
      ensures longest == 0
    {
      this.canAlloc := canAlloc;
      longest := 0;
      len := 0;
      if canAlloc(EXPAND_BUF_SIZE) {
        data := new Byte[EXPAND_BUF_SIZE](_ => 0);
        capacity := EXPAND_BUF_SIZE;
      } else {
        data := null;
        capacity := 0;
      }
    }

    /** The copy constructor: a tight copy of a non-empty source, otherwise a default buffer. */
    constructor Copy(source: RawData, canAlloc: nat -> bool)
      requires source.Valid()
      ensures Valid() && this.canAlloc == canAlloc
      ensures data != null ==> fresh(data)
      ensures data != null <==>
              canAlloc(if source.len == 0 then EXPAND_BUF_SIZE else source.len)
      ensures Contents() == if data == null then [] else source.Contents()
      ensures data != null && source.len > 0 ==> capacity == len
    {
      this.canAlloc := canAlloc;
      longest := 0;
      var size := if source.len == 0 || source.data == null then EXPAND_BUF_SIZE else source.len;
      data := null;
      capacity := 0;
      len := 0;
      if canAlloc(size) {
        if source.len == 0 || source.data == null {
          data := new Byte[size](_ => 0);
        } else {
          var bytes := source.data[..source.len];
          data := new Byte[size](i requires 0 <= i < |bytes| => bytes[i]);
          len := source.len;
        }
        capacity := size;
      }
    }

    /** Overwrites the bytes at `pos`, growing the buffer by at least 128 bytes when they do not
        fit. A null source is refused; a zero-length copy needs a non-empty destination range. */
    method Update(source: Option<Bytes>, pos: nat) returns (ok: bool)
      requires Valid()
      modifies this`data, this`len, this`capacity, this`longest, data
      ensures Valid()
      ensures data == old(data) || fresh(data)
      ensures ok <==> source.Some? && pos <= old(len) && old(data) != null &&
                      (pos + |source.value| <= old(capacity)
                       || canAlloc(old(capacity) + Max(|source.value|, EXPAND_BUF_SIZE))) &&
                      (source.value == [] ==> pos < old(capacity))
      ensures ok ==> Contents() == Splice(old(Contents()), source.value, pos)
      ensures !ok ==> unchanged(this) && (data != null ==> unchanged(data))
      ensures ok ==> longest == Max(old(longest), |source.value|)
      ensures source.Some? && pos + |source.value| <= old(capacity) ==> capacity == old(capacity)
    {
      if source.None? || pos > len || data == null {
        return false;
      }
      var src := source.value;
      if pos + |src| > capacity {
        var expandedSize := if |src| > EXPAND_BUF_SIZE then |src| else EXPAND_BUF_SIZE;
        if !canAlloc(capacity + expandedSize) {
          return false;
        }
        Grow(capacity + expandedSize);
      }
      SpliceOfPrefix(data[..], len, src, pos);
      ok := CopyInto(src, pos);
      if !ok {
        return;
      }
      longest := Max(longest, |src|);
      if pos + |src| > len {
        len := pos + |src|;
      }
    }

    /** Moves the contents to a larger allocation. */
    method Grow(expandedCapacity: nat)
      requires data != null && len <= capacity == data.Length < expandedCapacity
      modifies this`data, this`capacity
      ensures data != null && fresh(data) && data.Length == capacity == expandedCapacity
      ensures data[..len] == old(data[..len])
    {
      var kept := data[..len];
      capacity := expandedCapacity;
      data := new Byte[expandedCapacity](i => if 0 <= i < |kept| then kept[i] else 0);
      assert data[..len] == kept;
    }

    /** `memcpy_s(data_ + pos, capacity_ - pos, src, len)`: an empty destination range is an
        error, even for nothing to copy. */
    method CopyInto(src: Bytes, pos: nat) returns (ok: bool)
      requires data != null && pos <= data.Length == capacity
      requires pos + |src| <= capacity
      modifies data
      ensures ok <==> pos < capacity
      ensures ok ==> data[..] == Splice(old(data[..]), src, pos)
      ensures !ok ==> unchanged(data)
    {
      if capacity - pos == 0 {
        return false;
      }
      forall i | 0 <= i < |src| {
        data[pos + i] := src[i];
      }
      return true;
    }

    method Append(src: Bytes) returns (ok: bool)
      requires Valid()
      modifies this`data, this`len, this`capacity, this`longest, data
      ensures Valid()
      ensures data == old(data) || fresh(data)
      ensures ok <==> src == [] || (old(data) != null &&
                      (old(len) + |src| <= old(capacity)
                       || canAlloc(old(capacity) + Max(|src|, EXPAND_BUF_SIZE))))
      ensures Contents() == if ok then old(Contents()) + src else old(Contents())
      ensures data == null <==> old(data) == null
      ensures longest == if ok then Max(old(longest), |src|) else old(longest)
      ensures old(len) + |src| <= old(capacity) ==> capacity == old(capacity)
    {
      if src == [] {
        return true;
      }
      ok := Update(Some(src), len);
    }

    method GetDataLength() returns (r: nat)
      requires Valid()
      ensures r == |Contents()|
    {
      return len;
    }

    method IsEmpty() returns (r: bool)
      requires Valid()
      ensures r <==> Contents() == []
    {
      return len == 0 || data == null;
    }
  }
}
