/**
  The primitive encodings of System.IO.BinaryWriter and System.IO.BinaryReader that the
  topic log and the wire header are built from: little-endian fixed-width integers, the
  7-bit encoded length prefix (unsigned LEB128) and length-prefixed strings.

  Readers work on a whole stream `s` and a read position `pos` and return the decoded value
  together with the position after it, or the exception the reader throws.
*/
module Binary {
  import opened Wrappers
  import opened Exceptions

  type byte = b: int | 0 <= b < 0x100
  type uint16 = x: int | 0 <= x < 0x1_0000
  type int32 = x: int | -0x8000_0000 <= x < 0x8000_0000
  type int64 = x: int | -0x8000_0000_0000_0000 <= x < 0x8000_0000_0000_0000
  type uint64 = x: int | 0 <= x < 0x1_0000_0000_0000_0000

  function Pow256(n: nat): (p: nat)
    ensures p >= 1
  {
    if n == 0 then 1 else 256 * Pow256(n - 1)
  }

  lemma Pow256Values()
    ensures Pow256(2) == 0x1_0000
    ensures Pow256(4) == 0x1_0000_0000
    ensures Pow256(8) == 0x1_0000_0000_0000_0000
  {
    assert Pow256(1) == 0x100;
    assert Pow256(2) == 0x1_0000;
    assert Pow256(3) == 0x100_0000;
    assert Pow256(4) == 0x1_0000_0000;
    assert Pow256(5) == 0x100_0000_0000;
    assert Pow256(6) == 0x1_0000_0000_0000;
    assert Pow256(7) == 0x100_0000_0000_0000;
  }

  /** The `width` little-endian bytes of the unsigned value `v`. */
  function EncodeLE(v: nat, width: nat): (s: seq<byte>)
    requires v < Pow256(width)
    ensures |s| == width
  {
    if width == 0 then [] else [v % 256] + EncodeLE(v / 256, width - 1)
  }

  /** The unsigned value of little-endian bytes. */
  function DecodeLE(s: seq<byte>): (v: nat)
    ensures v < Pow256(|s|)
  {
    if s == [] then 0 else s[0] + 256 * DecodeLE(s[1..])
  }

  lemma {:induction false} DecodeEncodeLE(v: nat, width: nat)
    requires v < Pow256(width)
    ensures DecodeLE(EncodeLE(v, width)) == v
  {
    if width > 0 {
      var s := EncodeLE(v, width);
      assert s[1..] == EncodeLE(v / 256, width - 1);
      DecodeEncodeLE(v / 256, width - 1);
    }
  }

  lemma {:induction false} EncodeDecodeLE(s: seq<byte>)
    ensures EncodeLE(DecodeLE(s), |s|) == s
  {
    if s != [] {
      EncodeDecodeLE(s[1..]);
      var v := DecodeLE(s);
      assert v % 256 == s[0] && v / 256 == DecodeLE(s[1..]);
    }
  }

  // ---- fixed-width integers (BinaryWriter.Write(short/int/long ...), BinaryReader.ReadXxx) ----

  const TwoTo31: int := 0x8000_0000
  const TwoTo63: int := 0x8000_0000_0000_0000

  function WriteUInt16(v: uint16): (s: seq<byte>)
    ensures |s| == 2
  {
    Pow256Values();
    EncodeLE(v, 2)
  }

  function WriteUInt64(v: uint64): (s: seq<byte>)
    ensures |s| == 8
  {
    Pow256Values();
    EncodeLE(v, 8)
  }

  /** Two's complement, as BinaryWriter.Write(int) writes it. */
  function WriteInt32(v: int32): (s: seq<byte>)
    ensures |s| == 4
  {
    Pow256Values();
    EncodeLE(if v < 0 then v + 2 * TwoTo31 else v, 4)
  }

  /** Two's complement, as BinaryWriter.Write(long) writes it. */
  function WriteInt64(v: int64): (s: seq<byte>)
    ensures |s| == 8
  {
    Pow256Values();
    EncodeLE(if v < 0 then v + 2 * TwoTo63 else v, 8)
  }

  function ReadInt32(s: seq<byte>, pos: nat): (r: Result<(int32, nat), Exception>)
    ensures r.Success? <==> pos + 4 <= |s|
  {
    if pos + 4 > |s| then Failure(EndOfStream)
    else
      Pow256Values();
      var u := DecodeLE(s[pos..pos + 4]);
      Success((if u >= TwoTo31 then u - 2 * TwoTo31 else u, pos + 4))
  }

  function ReadInt64(s: seq<byte>, pos: nat): (r: Result<(int64, nat), Exception>)
    ensures r.Success? <==> pos + 8 <= |s|
  {
    if pos + 8 > |s| then Failure(EndOfStream)
    else
      Pow256Values();
      var u := DecodeLE(s[pos..pos + 8]);
      Success((if u >= TwoTo63 then u - 2 * TwoTo63 else u, pos + 8))
  }

  lemma ReadWriteInt32(pre: seq<byte>, v: int32, post: seq<byte>)
    ensures ReadInt32(pre + WriteInt32(v) + post, |pre|) == Success((v, |pre| + 4))
  {
    Pow256Values();
    var s := pre + WriteInt32(v) + post;
    assert s[|pre|..|pre| + 4] == WriteInt32(v);
    DecodeEncodeLE(if v < 0 then v + 2 * TwoTo31 else v, 4);
  }

  lemma ReadWriteInt64(pre: seq<byte>, v: int64, post: seq<byte>)
    ensures ReadInt64(pre + WriteInt64(v) + post, |pre|) == Success((v, |pre| + 8))
  {
    Pow256Values();
    var s := pre + WriteInt64(v) + post;
    assert s[|pre|..|pre| + 8] == WriteInt64(v);
    DecodeEncodeLE(if v < 0 then v + 2 * TwoTo63 else v, 8);
  }

  /** The reads at a position where the matching write is found. */
  lemma ReadInt32At(s: seq<byte>, p: nat, v: int32)
    requires p + 4 <= |s| && s[p..p + 4] == WriteInt32(v)
    ensures ReadInt32(s, p) == Success((v, p + 4))
  {
    Pow256Values();
    DecodeEncodeLE(if v < 0 then v + 2 * TwoTo31 else v, 4);
  }

  lemma ReadInt64At(s: seq<byte>, p: nat, v: int64)
    requires p + 8 <= |s| && s[p..p + 8] == WriteInt64(v)
    ensures ReadInt64(s, p) == Success((v, p + 8))
  {
    Pow256Values();
    DecodeEncodeLE(if v < 0 then v + 2 * TwoTo63 else v, 8);
  }

  // ---- 7-bit encoded integers (BinaryWriter.Write7BitEncodedInt / BinaryReader.Read7BitEncodedInt) ----

  /** Writes the low seven bits with the continuation bit set while the value exceeds 0x7F. */
  function Write7BitInt(n: nat): (s: seq<byte>)
    ensures |s| >= 1
    decreases n
  {
    if n < 128 then [n] else [n % 128 + 128] + Write7BitInt(n / 128)
  }

  /** The largest value (exclusive) that the reader can still accept from byte `k` (0-based) on:
      bytes 0..3 carry seven bits each and the fifth byte may carry only four. */
  function SevenBitBound(k: nat): nat
    requires k <= 4
    decreases 4 - k
  {
    if k == 4 then 16 else 128 * SevenBitBound(k + 1)
  }

  /** Read7BitEncodedInt from byte `k` of the encoding on: reads at most five bytes; a fifth
      byte above 0x0F is a FormatException; the stream ending early is an EndOfStreamException.
      The value is the unsigned 32-bit accumulator. */
  function Read7BitInt(s: seq<byte>, pos: nat, k: nat): Result<(nat, nat), Exception>
    requires k <= 4
    decreases 4 - k
  {
    if pos >= |s| then Failure(EndOfStream)
    else if k == 4 then
      if s[pos] > 15 then Failure(BadSevenBitInt) else Success((s[pos], pos + 1))
    else if s[pos] < 128 then Success((s[pos], pos + 1))
    else
      match Read7BitInt(s, pos + 1, k + 1)
      case Failure(e) => Failure(e)
      case Success(r) => Success((s[pos] - 128 + 128 * r.0, r.1))
  }

  lemma {:induction false} ReadWrite7BitFrom(pre: seq<byte>, n: nat, post: seq<byte>, k: nat)
    requires k <= 4 && n < SevenBitBound(k)
    ensures Read7BitInt(pre + Write7BitInt(n) + post, |pre|, k) == Success((n, |pre| + |Write7BitInt(n)|))
    decreases n
  {
    var s := pre + Write7BitInt(n) + post;
    if n < 128 {
      assert s[|pre|] == n;
      if k == 4 {
        assert n <= 15;
      }
    } else {
      assert SevenBitBound(4) == 16;
      var b := n % 128 + 128;
      var pre' := pre + [b];
      assert s == pre' + Write7BitInt(n / 128) + post;
      assert s[|pre|] == b;
      assert k < 4 && n / 128 < SevenBitBound(k + 1);
      ReadWrite7BitFrom(pre', n / 128, post, k + 1);
      assert b - 128 + 128 * (n / 128) == n;
      assert |pre'| + |Write7BitInt(n / 128)| == |pre| + |Write7BitInt(n)|;
    }
  }

  lemma SevenBitBoundZero()
    ensures SevenBitBound(0) == 0x1_0000_0000
  {
    assert SevenBitBound(3) == 128 * 16;
  }

  /** Every length the writer can emit for a .NET string (a non-negative int) reads back. */
  lemma ReadWrite7Bit(pre: seq<byte>, n: nat, post: seq<byte>)
    requires n < TwoTo31
    ensures Read7BitInt(pre + Write7BitInt(n) + post, |pre|, 0) == Success((n, |pre| + |Write7BitInt(n)|))
  {
    SevenBitBoundZero();
    ReadWrite7BitFrom(pre, n, post, 0);
  }

  // ---- length-prefixed strings, held as their UTF-8 bytes ----

  /** BinaryWriter.Write(string): the UTF-8 byte count as a 7-bit encoded int, then the bytes. */
  function WriteString(utf8: seq<byte>): (s: seq<byte>)
    requires |utf8| < TwoTo31
  {
    Write7BitInt(|utf8|) + utf8
  }

  /** BinaryReader.ReadString: a length above int.MaxValue reads as a negative int and is an
      IOException; too few bytes after the prefix is an EndOfStreamException. */
  function ReadString(s: seq<byte>, pos: nat): Result<(seq<byte>, nat), Exception> {
    match Read7BitInt(s, pos, 0)
    case Failure(e) => Failure(e)
    case Success(r) =>
      var (len, p) := r;
      if len >= TwoTo31 then Failure(IOError)
      else if len == 0 then Success(([], p))
      else if p + len > |s| then Failure(EndOfStream)
      else Success((s[p..p + len], p + len))
  }

  lemma ReadWriteString(pre: seq<byte>, utf8: seq<byte>, post: seq<byte>)
    requires |utf8| < TwoTo31
    ensures ReadString(pre + WriteString(utf8) + post, |pre|) == Success((utf8, |pre| + |WriteString(utf8)|))
  {
    var prefix := Write7BitInt(|utf8|);
    var s := pre + WriteString(utf8) + post;
    assert s == pre + prefix + (utf8 + post);
    ReadWrite7Bit(pre, |utf8|, utf8 + post);
    var p := |pre| + |prefix|;
    assert s[p..p + |utf8|] == utf8;
  }

  lemma ReadStringAt(s: seq<byte>, p: nat, utf8: seq<byte>)
    requires |utf8| < TwoTo31
    requires p + |WriteString(utf8)| <= |s| && s[p..p + |WriteString(utf8)|] == WriteString(utf8)
    ensures ReadString(s, p) == Success((utf8, p + |WriteString(utf8)|))
  {
    var w := WriteString(utf8);
    assert s == s[..p] + w + s[p + |w|..];
    ReadWriteString(s[..p], utf8, s[p + |w|..]);
  }

  /** BinaryReader.ReadBytes(count): a negative count is an ArgumentOutOfRangeException; at the
      end of the stream it returns the bytes that are left, possibly fewer than asked for. */
  function ReadBytes(s: seq<byte>, pos: nat, count: int): (r: Result<(seq<byte>, nat), Exception>)
    ensures r.Success? <==> count >= 0
    ensures r.Success? ==> |r.value.0| == if pos >= |s| then 0 else Min(count, |s| - pos)
    ensures r.Success? ==> r.value.1 == pos + |r.value.0| && r.value.0 == s[Min(pos, |s|)..][..|r.value.0|]
  {
    if count < 0 then Failure(ArgumentOutOfRange("count"))
    else if pos >= |s| then Success(([], pos))
    else
      var n := Min(count, |s| - pos);
      Success((s[pos..pos + n], pos + n))
  }

  lemma ReadBytesAt(s: seq<byte>, p: nat, b: seq<byte>)
    requires p + |b| <= |s| && s[p..p + |b|] == b
    ensures ReadBytes(s, p, |b|) == Success((b, p + |b|))
  {
  }

  lemma ReadBytesExact(pre: seq<byte>, b: seq<byte>, post: seq<byte>)
    requires |b| < TwoTo31
    ensures ReadBytes(pre + b + post, |pre|, |b|) == Success((b, |pre| + |b|))
  {
    var s := pre + b + post;
    if |b| > 0 {
      assert s[|pre|..|pre| + |b|] == b;
    }
  }
}
