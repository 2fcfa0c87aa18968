/** System.IO.BinaryReader over a seekable stream, reduced to what the two
    decoders use: a byte sequence, a cursor, absolute seeks and
    little-endian reads that fail past the end of the stream. */
module BinaryReader {
  import opened Runtime

  function Min(a: int, b: int): int {
    if a <= b then a else b
  }

  // ---------------------------------------------------------------------------
  // Little-endian integers

  function U16(b0: byte, b1: byte): (r: int)
    ensures 0 <= r < 0x1_0000
  {
    b0 + 0x100 * b1
  }

  function U32(b0: byte, b1: byte, b2: byte, b3: byte): (r: int)
    ensures 0 <= r < TWO_32
  {
    U16(b0, b1) + 0x1_0000 * U16(b2, b3)
  }

  /** Two's-complement reading of a 16-bit pattern. */
  function Signed16(u: int): (r: int)
    requires 0 <= u < 0x1_0000
    ensures -0x8000 <= r < 0x8000
    ensures (u - r) % 0x1_0000 == 0
  {
    if u < 0x8000 then u else u - 0x1_0000
  }

  /** Two's-complement reading of a 32-bit pattern. */
  function Signed32(u: int): (r: int)
    requires 0 <= u < TWO_32
    ensures -TWO_31 <= r < TWO_31
    ensures (u - r) % TWO_32 == 0
  {
    if u < TWO_31 then u else u - TWO_32
  }

  function U16Le(s: seq<byte>, p: nat): int
    requires p + 2 <= |s|
  {
    U16(s[p], s[p + 1])
  }

  function I16Le(s: seq<byte>, p: nat): int
    requires p + 2 <= |s|
  {
    Signed16(U16Le(s, p))
  }

  function U32Le(s: seq<byte>, p: nat): int
    requires p + 4 <= |s|
  {
    U32(s[p], s[p + 1], s[p + 2], s[p + 3])
  }

  function I32Le(s: seq<byte>, p: nat): int
    requires p + 4 <= |s|
  {
    Signed32(U32Le(s, p))
  }

  // ---------------------------------------------------------------------------
  // Encoders: the inverse of the decoders

  function EncodeU16(v: int): (r: seq<byte>)
    requires 0 <= v < 0x1_0000
    ensures |r| == 2
  {
    [v % 0x100, v / 0x100]
  }

  function EncodeU32(v: int): (r: seq<byte>)
    requires 0 <= v < TWO_32
    ensures |r| == 4
  {
    EncodeU16(v % 0x1_0000) + EncodeU16(v / 0x1_0000)
  }

  function EncodeI16(v: int): (r: seq<byte>)
    requires -0x8000 <= v < 0x8000
    ensures |r| == 2
  {
    EncodeU16(if v < 0 then v + 0x1_0000 else v)
  }

  function EncodeI32(v: int): (r: seq<byte>)
    requires -TWO_31 <= v < TWO_31
    ensures |r| == 4
  {
    EncodeU32(if v < 0 then v + TWO_32 else v)
  }

  lemma U16RoundTrip(v: int)
    requires 0 <= v < 0x1_0000
    ensures U16Le(EncodeU16(v), 0) == v
  {
  }

  /** Decoding two bytes and encoding the result gives the bytes back. */
  lemma U16Injective(b0: byte, b1: byte)
    ensures EncodeU16(U16(b0, b1)) == [b0, b1]
  {
  }

  lemma U32RoundTrip(v: int)
    requires 0 <= v < TWO_32
    ensures U32Le(EncodeU32(v), 0) == v
  {
    var e := EncodeU32(v);
    U16RoundTrip(v % 0x1_0000);
    U16RoundTrip(v / 0x1_0000);
    assert U16(e[0], e[1]) == v % 0x1_0000;
    assert U16(e[2], e[3]) == v / 0x1_0000;
  }

  lemma U32Injective(b0: byte, b1: byte, b2: byte, b3: byte)
    ensures EncodeU32(U32(b0, b1, b2, b3)) == [b0, b1, b2, b3]
  {
    var lo, hi := U16(b0, b1), U16(b2, b3);
    assert U32(b0, b1, b2, b3) % 0x1_0000 == lo;
    assert U32(b0, b1, b2, b3) / 0x1_0000 == hi;
    U16Injective(b0, b1);
    U16Injective(b2, b3);
  }

  lemma I16RoundTrip(v: int)
    requires -0x8000 <= v < 0x8000
    ensures I16Le(EncodeI16(v), 0) == v
  {
    U16RoundTrip(if v < 0 then v + 0x1_0000 else v);
  }

  lemma I32RoundTrip(v: int)
    requires -TWO_31 <= v < TWO_31
    ensures I32Le(EncodeI32(v), 0) == v
  {
    U32RoundTrip(if v < 0 then v + TWO_32 else v);
  }

  /** Reading an Int16 where its two encoded bytes stand gives the value back. */
  lemma I16LeBytes(s: seq<byte>, q: nat, v: int)
    requires -0x8000 <= v < 0x8000 && q + 2 <= |s|
    requires s[q] == EncodeI16(v)[0] && s[q + 1] == EncodeI16(v)[1]
    ensures I16Le(s, q) == v
  {
    var e := EncodeI16(v);
    I16RoundTrip(v);
    assert s[q] == e[0] && s[q + 1] == e[1];
  }

  /** Reading a UInt16 where its two encoded bytes stand gives the value back. */
  lemma U16LeBytes(s: seq<byte>, q: nat, v: int)
    requires 0 <= v < 0x1_0000 && q + 2 <= |s|
    requires s[q] == EncodeU16(v)[0] && s[q + 1] == EncodeU16(v)[1]
    ensures U16Le(s, q) == v
  {
    var e := EncodeU16(v);
    U16RoundTrip(v);
    assert s[q] == e[0] && s[q + 1] == e[1];
  }

  /** Reading an Int32 where its four encoded bytes stand gives the value back. */
  lemma I32LeBytes(s: seq<byte>, q: nat, v: int)
    requires -TWO_31 <= v < TWO_31 && q + 4 <= |s|
    requires s[q] == EncodeI32(v)[0] && s[q + 1] == EncodeI32(v)[1]
    requires s[q + 2] == EncodeI32(v)[2] && s[q + 3] == EncodeI32(v)[3]
    ensures I32Le(s, q) == v
  {
    var e := EncodeI32(v);
    I32RoundTrip(v);
    assert s[q] == e[0] && s[q + 1] == e[1] && s[q + 2] == e[2] && s[q + 3] == e[3];
  }

  /** Reading a UInt32 where its four encoded bytes stand gives the value back. */
  lemma U32LeBytes(s: seq<byte>, q: nat, v: int)
    requires 0 <= v < TWO_32 && q + 4 <= |s|
    requires s[q] == EncodeU32(v)[0] && s[q + 1] == EncodeU32(v)[1]
    requires s[q + 2] == EncodeU32(v)[2] && s[q + 3] == EncodeU32(v)[3]
    ensures U32Le(s, q) == v
  {
    var e := EncodeU32(v);
    U32RoundTrip(v);
    assert s[q] == e[0] && s[q + 1] == e[1] && s[q + 2] == e[2] && s[q + 3] == e[3];
  }

  // ---------------------------------------------------------------------------
  // Records: fixed-size byte layouts placed at a position of the stream

  /** Byte k of a record placed after `pre` is byte |pre| + k of the stream. */
  lemma {:induction false} Embedded(pre: seq<byte>, rec: seq<byte>, post: seq<byte>)
    ensures forall k :: 0 <= k < |rec| ==> (pre + rec + post)[|pre| + k] == rec[k]
  {
  }

  /** The stream holds the record rec at position p. */
  predicate HoldsAt(s: seq<byte>, p: nat, rec: seq<byte>) {
    p + |rec| <= |s| && forall k :: 0 <= k < |rec| ==> s[p + k] == rec[k]
  }

  /** An Int16 encoded at offset off of a record reads back from the stream. */
  lemma {:induction false} I16InRecord(s: seq<byte>, p: nat, rec: seq<byte>, off: nat, v: int)
    requires HoldsAt(s, p, rec) && off + 2 <= |rec| && -0x8000 <= v < 0x8000
    requires rec[off .. off + 2] == EncodeI16(v)
    ensures I16Le(s, p + off) == v
  {
    assert rec[off] == rec[off .. off + 2][0] && rec[off + 1] == rec[off .. off + 2][1];
    I16LeBytes(s, p + off, v);
  }

  /** An Int32 encoded at offset off of a record reads back from the stream. */
  lemma {:induction false} I32InRecord(s: seq<byte>, p: nat, rec: seq<byte>, off: nat, v: int)
    requires HoldsAt(s, p, rec) && off + 4 <= |rec| && -TWO_31 <= v < TWO_31
    requires rec[off .. off + 4] == EncodeI32(v)
    ensures I32Le(s, p + off) == v
  {
    var w := rec[off .. off + 4];
    assert rec[off] == w[0] && rec[off + 1] == w[1] && rec[off + 2] == w[2] && rec[off + 3] == w[3];
    I32LeBytes(s, p + off, v);
  }

  /** A UInt16 encoded at offset off of a record reads back from the stream. */
  lemma {:induction false} U16InRecord(s: seq<byte>, p: nat, rec: seq<byte>, off: nat, v: int)
    requires HoldsAt(s, p, rec) && off + 2 <= |rec| && 0 <= v < 0x1_0000
    requires rec[off .. off + 2] == EncodeU16(v)
    ensures U16Le(s, p + off) == v
  {
    assert rec[off] == rec[off .. off + 2][0] && rec[off + 1] == rec[off .. off + 2][1];
    U16LeBytes(s, p + off, v);
  }

  /** A UInt32 encoded at offset off of a record reads back from the stream. */
  lemma {:induction false} U32InRecord(s: seq<byte>, p: nat, rec: seq<byte>, off: nat, v: int)
    requires HoldsAt(s, p, rec) && off + 4 <= |rec| && 0 <= v < TWO_32
    requires rec[off .. off + 4] == EncodeU32(v)
    ensures U32Le(s, p + off) == v
  {
    var w := rec[off .. off + 4];
    assert rec[off] == w[0] && rec[off + 1] == w[1] && rec[off + 2] == w[2] && rec[off + 3] == w[3];
    U32LeBytes(s, p + off, v);
  }

  // ---------------------------------------------------------------------------
  // What each BinaryReader call returns when the cursor stands at p

  function ReadByteAt(s: seq<byte>, p: nat): Result<byte> {
    if p < |s| then Success(s[p]) else Failure(EndOfStream)
  }

  function ReadUInt16At(s: seq<byte>, p: nat): Result<int> {
    if p + 2 <= |s| then Success(U16Le(s, p)) else Failure(EndOfStream)
  }

  function ReadInt16At(s: seq<byte>, p: nat): Result<int> {
    if p + 2 <= |s| then Success(I16Le(s, p)) else Failure(EndOfStream)
  }

  function ReadUInt32At(s: seq<byte>, p: nat): Result<int> {
    if p + 4 <= |s| then Success(U32Le(s, p)) else Failure(EndOfStream)
  }

  function ReadInt32At(s: seq<byte>, p: nat): Result<int> {
    if p + 4 <= |s| then Success(I32Le(s, p)) else Failure(EndOfStream)
  }

  /** ReadBytes(n) returns fewer than n bytes, without failing, when the end
      of the stream comes first; a negative count is rejected. */
  function ReadBytesAt(s: seq<byte>, p: nat, n: int): (r: Result<seq<byte>>)
    ensures r.Failure? <==> n < 0
    ensures r.Success? ==> |r.value| == if p >= |s| then 0 else Min(n, |s| - p)
    ensures r.Success? ==> forall k :: 0 <= k < |r.value| ==> r.value[k] == s[p + k]
  {
    if n < 0 then Failure(NegativeCount(n))
    else if p >= |s| then Success([])
    else Success(s[p .. Min(p + n, |s|)])
  }

  /** An Int32 written anywhere in a stream is read back unchanged. */
  lemma ReadInt32Encoded(pre: seq<byte>, v: int, post: seq<byte>)
    requires -TWO_31 <= v < TWO_31
    ensures ReadInt32At(pre + EncodeI32(v) + post, |pre|) == Success(v)
  {
    var s := pre + EncodeI32(v) + post;
    var e := EncodeI32(v);
    assert s[|pre|..|pre| + 4] == e;
    I32RoundTrip(v);
    assert I32Le(s, |pre|) == I32Le(e, 0) by {
      assert s[|pre|] == e[0] && s[|pre| + 1] == e[1];
      assert s[|pre| + 2] == e[2] && s[|pre| + 3] == e[3];
    }
  }

  // ---------------------------------------------------------------------------
  // The reader object

  /** A BinaryReader over a seekable stream: the stream's bytes and the
      cursor that every read advances. */
  class Reader {
    const data: seq<byte>
    var pos: nat

    constructor (data: seq<byte>)
      ensures this.data == data && pos == 0
    {
      this.data := data;
      pos := 0;
    }

    /** Stream.Seek(offset, SeekOrigin.Begin): a position past the end is
        allowed, one before the beginning is not. Returns the new position. */
    method Seek(offset: int) returns (r: Result<int>)
      modifies this
      ensures offset < 0 ==> r == Failure(NegativeSeek(offset)) && pos == old(pos)
      ensures 0 <= offset ==> r == Success(offset) && pos == offset
    {
      if offset < 0 {
        return Failure(NegativeSeek(offset));
      }
      pos := offset;
      return Success(offset);
    }

    method ReadByte() returns (r: Result<byte>)
      modifies this
      ensures r == ReadByteAt(data, old(pos))
      ensures pos == old(pos) + if r.Success? then 1 else 0
    {
      r := ReadByteAt(data, pos);
      if r.Success? {
        pos := pos + 1;
      }
    }

    method ReadUInt16() returns (r: Result<int>)
      modifies this
      ensures r == ReadUInt16At(data, old(pos))
      ensures pos == old(pos) + if r.Success? then 2 else 0
    {
      r := ReadUInt16At(data, pos);
      if r.Success? {
        pos := pos + 2;
      }
    }

    method ReadInt16() returns (r: Result<int>)
      modifies this
      ensures r == ReadInt16At(data, old(pos))
      ensures pos == old(pos) + if r.Success? then 2 else 0
    {
      r := ReadInt16At(data, pos);
      if r.Success? {
        pos := pos + 2;
      }
    }

    method ReadUInt32() returns (r: Result<int>)
      modifies this
      ensures r == ReadUInt32At(data, old(pos))
      ensures pos == old(pos) + if r.Success? then 4 else 0
    {
      r := ReadUInt32At(data, pos);
      if r.Success? {
        pos := pos + 4;
      }
    }

    method ReadInt32() returns (r: Result<int>)
      modifies this
      ensures r == ReadInt32At(data, old(pos))
      ensures pos == old(pos) + if r.Success? then 4 else 0
    {
      r := ReadInt32At(data, pos);
      if r.Success? {
        pos := pos + 4;
      }
    }

    method ReadBytes(n: int) returns (r: Result<seq<byte>>)
      modifies this
      ensures r == ReadBytesAt(data, old(pos), n)
      ensures pos == old(pos) + if r.Success? then |r.value| else 0
      ensures 0 <= n && old(pos) + n <= |data| ==> pos == old(pos) + n
      ensures 0 <= n && |data| < old(pos) + n ==> |data| <= pos
    {
      r := ReadBytesAt(data, pos, n);
      if r.Success? {
        pos := pos + |r.value|;
      }
    }
  }
}
