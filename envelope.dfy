/**
  The 18-byte message envelope header of Gruppo.SDK.Communications.MessageHeader:
  four version bytes, MetaSize as a little-endian ushort, BodySize as a little-endian ulong,
  and four trailing bytes that are never written (they stay zero).
*/
module Envelope {
  import opened Wrappers
  import opened Exceptions
  import opened Binary

  const BinarySize: nat := 18

  /** A .NET string as its UTF-16 code units: `Length` counts code units, and a character
      outside the Basic Multilingual Plane takes two of them (a surrogate pair). */
  type Utf16 = seq<uint16>

  /** "1.00". */
  const DefaultVersion: Utf16 := [0x31, 0x2E, 0x30, 0x30]

  datatype Header = Header(version: Utf16, metaSize: uint16, bodySize: uint64)

  /** Why DeserializeHeader yields no header: fewer than 14 bytes (the reader throws
      EndOfStreamException), or version bytes outside ASCII, which the source decodes with a
      UTF-8 ReadChars(4) that this model does not follow. */
  datatype HeaderError = Truncated | NonAsciiVersion

  predicate IsAsciiVersion(v: Utf16) {
    |v| == 4 && forall i :: 0 <= i < 4 ==> v[i] < 128
  }

  /** The four bytes written by `writer.Write((byte)_Version[i])`: the low 8 bits of each of the
      first four code units. */
  function VersionBytes(v: Utf16): (s: seq<byte>)
    requires |v| == 4
    ensures |s| == 4
  {
    [v[0] % 256, v[1] % 256, v[2] % 256, v[3] % 256]
  }

  /** "ab" followed by U+1F600 is four code units (0xD83D 0xDE00 for the emoji): the setter
      takes it, and the cast keeps the low byte of each surrogate. */
  lemma SurrogateVersionBytes()
    ensures VersionBytes([0x61, 0x62, 0xD83D, 0xDE00]) == [0x61, 0x62, 0x3D, 0x00]
  {
  }

  /** SerializeHeader as a value. */
  function Serialize(h: Header): (s: seq<byte>)
    requires |h.version| == 4
    ensures |s| == BinarySize
  {
    VersionBytes(h.version) + WriteUInt16(h.metaSize) + WriteUInt64(h.bodySize) + [0, 0, 0, 0]
  }

  /** The layout: the low 8 bits of each version char, MetaSize and BodySize little-endian, and
      four zero bytes at the end. */
  lemma SerializeLayout(h: Header)
    requires |h.version| == 4
    ensures var s := Serialize(h);
      && (forall i :: 0 <= i < 4 ==> s[i] == h.version[i] % 256)
      && DecodeLE(s[4..6]) == h.metaSize && DecodeLE(s[6..14]) == h.bodySize
      && s[14..] == [0, 0, 0, 0]
  {
    var s := Serialize(h);
    Pow256Values();
    assert s[4..6] == EncodeLE(h.metaSize, 2);
    assert s[6..14] == EncodeLE(h.bodySize, 8);
    DecodeEncodeLE(h.metaSize, 2);
    DecodeEncodeLE(h.bodySize, 8);
  }

  /** DeserializeHeader: reads four version chars, then MetaSize and BodySize; the bytes after
      the fourteenth are never looked at and the version is not validated. */
  function Deserialize(b: seq<byte>): Result<Header, HeaderError> {
    if |b| < 14 then Failure(Truncated)
    else if !(b[0] < 128 && b[1] < 128 && b[2] < 128 && b[3] < 128) then Failure(NonAsciiVersion)
    else
      Pow256Values();
      Success(Header([b[0], b[1], b[2], b[3]], DecodeLE(b[4..6]), DecodeLE(b[6..14])))
  }

  /** Round trip: an ASCII version, any MetaSize and any BodySize survive serialisation. */
  lemma DeserializeSerialize(h: Header)
    requires IsAsciiVersion(h.version)
    ensures Deserialize(Serialize(h)) == Success(h)
  {
    var s := Serialize(h);
    SerializeLayout(h);
    var v: Utf16 := [s[0], s[1], s[2], s[3]];
    forall i | 0 <= i < 4
      ensures v[i] == h.version[i]
    {
      assert s[i] == h.version[i];
    }
    assert v == h.version;
  }

  /** The other direction: a well-formed 18-byte header (trailing bytes zero) is exactly the
      serialisation of what it decodes to. */
  lemma SerializeDeserialize(b: seq<byte>)
    requires |b| == BinarySize && b[14..] == [0, 0, 0, 0] && Deserialize(b).Success?
    ensures |Deserialize(b).value.version| == 4 && Serialize(Deserialize(b).value) == b
  {
    var h := Deserialize(b).value;
    var s := Serialize(h);
    SerializeLayout(h);
    Pow256Values();
    EncodeDecodeLE(b[4..6]);
    EncodeDecodeLE(b[6..14]);
    assert s[4..6] == EncodeLE(h.metaSize, 2) == b[4..6];
    assert s[6..14] == EncodeLE(h.bodySize, 8) == b[6..14];
    assert s[..4] == b[..4];
    assert s == s[..4] + s[4..6] + s[6..14] + s[14..];
    assert b == b[..4] + b[4..6] + b[6..14] + b[14..];
  }

  /** DeserializeHeader depends on the first fourteen bytes only. */
  lemma DeserializeFirstFourteen(a: seq<byte>, b: seq<byte>)
    requires |a| >= 14 && |b| >= 14 && a[..14] == b[..14]
    ensures Deserialize(a) == Deserialize(b)
  {
    assert a[4..6] == a[..14][4..6] == b[..14][4..6] == b[4..6];
    assert a[6..14] == a[..14][6..14] == b[..14][6..14] == b[6..14];
    assert forall i :: 0 <= i < 4 ==> a[i] == a[..14][i] == b[i];
  }

  /** The header the tests serialise: "9.99", 100 and 1048576 come back unchanged in 18 bytes. */
  lemma HeaderExample()
    ensures |Serialize(Header([0x39, 0x2E, 0x39, 0x39], 100, 1048576))| == 18
    ensures Deserialize(Serialize(Header([0x39, 0x2E, 0x39, 0x39], 100, 1048576)))
            == Success(Header([0x39, 0x2E, 0x39, 0x39], 100, 1048576))
  {
    DeserializeSerialize(Header([0x39, 0x2E, 0x39, 0x39], 100, 1048576));
  }

  /** An 18-byte buffer holding the version bytes, then the two sizes' little-endian bytes,
      then zeros, is the serialised header. */
  lemma SerializedBytes(b: seq<byte>, h: Header)
    requires |h.version| == 4 && |b| == BinarySize
    requires forall j :: 0 <= j < 4 ==> b[j] == h.version[j] % 256
    requires b[4..6] == WriteUInt16(h.metaSize)
    requires forall j :: 0 <= j < 8 ==> b[6 + j] == WriteUInt64(h.bodySize)[j]
    requires forall j :: 14 <= j < BinarySize ==> b[j] == 0
    ensures b == Serialize(h)
  {
    var s := Serialize(h);
    assert s[..4] == VersionBytes(h.version) && s[4..6] == WriteUInt16(h.metaSize);
    assert s[6..14] == WriteUInt64(h.bodySize) && s[14..] == [0, 0, 0, 0];
    forall j | 0 <= j < BinarySize
      ensures b[j] == s[j]
    {
      if 4 <= j < 6 {
        assert b[j] == b[4..6][j - 4];
        assert s[j] == s[4..6][j - 4];
      } else if 6 <= j < 14 {
        assert s[j] == s[6..14][j - 6];
      } else if j >= 14 {
        assert s[j] == s[14..][j - 14];
      }
    }
  }

  /** The mutable header object: the Version property guards its backing field. */
  class MessageHeader {
    var version: Utf16
    var metaSize: uint16
    var bodySize: uint64

    ghost predicate Valid()
      reads this
    {
      |version| == 4
    }

    constructor ()
      ensures Valid() && version == DefaultVersion && metaSize == 0 && bodySize == 0
    {
      version := DefaultVersion;
      metaSize := 0;
      bodySize := 0;
    }

    function Value(): Header
      reads this
    {
      Header(version, metaSize, bodySize)
    }

    /** The Version setter: null, empty or any length other than 4 code units throws
        ArgumentOutOfRangeException and keeps the old value; any 4-code-unit string is taken,
        ASCII or not. */
    method SetVersion(value: Option<Utf16>) returns (r: Outcome<Exception>)
      requires Valid()
      modifies this
      ensures Valid()
      ensures r.Pass? <==> value.Some? && |value.value| == 4
      ensures r.Pass? ==> version == value.value
      ensures r.Fail? ==> r.error == ArgumentOutOfRange("Version") && version == old(version)
      ensures metaSize == old(metaSize) && bodySize == old(bodySize)
    {
      if value.None? || |value.value| == 0 || |value.value| != 4 {
        return Fail(ArgumentOutOfRange("Version"));
      }
      version := value.value;
      r := Pass;
    }

    /** SerializeHeader: fills a fresh 18-byte array; the version bytes go in one at a time. */
    method SerializeHeader() returns (header: array<byte>)
      requires Valid()
      ensures header[..] == Serialize(Value())
    {
      header := new byte[BinarySize](_ => 0);
      for i := 0 to 4
        invariant forall j :: 0 <= j < i ==> header[j] == version[j] % 256
        invariant forall j :: i <= j < BinarySize ==> header[j] == 0
      {
        header[i] := version[i] % 256;
      }
      var meta := WriteUInt16(metaSize);
      header[4], header[5] := meta[0], meta[1];
      var body := WriteUInt64(bodySize);
      for i := 0 to 8
        invariant forall j :: 0 <= j < 4 ==> header[j] == version[j] % 256
        invariant header[4] == meta[0] && header[5] == meta[1]
        invariant forall j :: 0 <= j < i ==> header[6 + j] == body[j]
        invariant forall j :: 6 + i <= j < BinarySize ==> header[j] == 0
      {
        header[6 + i] := body[i];
      }
      SerializedBytes(header[..], Value());
    }
  }
}
