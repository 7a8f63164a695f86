/** A descriptor value: the data a descriptor type announces, read from a
    descriptor data record in the order of the types. */
module DescData {
  import opened Bytes
  import opened Wrappers
  import T = DescType
  import V = Version

  datatype DescriptorData =
    | U8(id: u16, v8: byte)
    | U16(id: u16, v16: u16)
    | U32(id: u16, v32: u32)
    | U64(id: u16, v64: u64)
    | Other(id: u16, bytes: seq<byte>)
    | End
  {
    /** `descriptor_type`: the type announcing this value; an Other
        value's length is truncated to 16 bits. */
    function TypeOf(): (t: T.DescriptorType)
      ensures t.Kind() == Kind()
      ensures !End? ==> t.id == id
    {
      match this
      case U8(id, _) => T.U8(id)
      case U16(id, _) => T.U16(id)
      case U32(id, _) => T.U32(id)
      case U64(id, _) => T.U64(id)
      case Other(id, bytes) => T.Other(id, |bytes| % 0x1_0000)
      case End => T.End
    }

    function Kind(): byte
    {
      match this
      case U8(_, _) => 0
      case U16(_, _) => 1
      case U32(_, _) => 2
      case U64(_, _) => 3
      case Other(_, _) => 4
      case End => 5
    }

    /** `len`: the data length of its type. */
    function Len(): (n: u16)
      ensures Other? ==> n as int == |bytes| % 0x1_0000
    {
      TypeOf().DataLen()
    }
  }

  /** The values `from_raw` can produce. */
  predicate Canonical(d: DescriptorData)
  {
    && (d.End? || d.id < T.ID_MASK_LIMIT)
    && (d.Other? ==> |d.bytes| < 0x1_0000)
  }

  /** The bytes `to_raw` writes. */
  function DataBytes(e: Endian, d: DescriptorData): (r: seq<byte>)
    ensures |r| == if d.Other? then |d.bytes| else d.Len() as int
  {
    match d
    case U8(_, x) => [x]
    case U16(_, x) => WriteU16(e, x)
    case U32(_, x) => WriteU32(e, x)
    case U64(_, x) => WriteU64(e, x)
    case Other(_, bytes) => bytes
    case End => []
  }

  /** `DescriptorData::from_raw`: reads the value type `t` announces from
      `data` and returns the bytes after it. The value read always has
      type `t`, and its bytes are the bytes it was read from. */
  function FromRaw(e: Endian, t: T.DescriptorType, data: seq<byte>): (r: Result<(seq<byte>, DescriptorData)>)
    ensures r.Err? <==> |data| < t.DataLen() as int
    ensures r.Err? ==> r.error == DescriptorDataTooSmall
    ensures r.Ok? ==>
              && r.value.0 == data[t.DataLen()..]
              && r.value.1.TypeOf() == t
              && DataBytes(e, r.value.1) == data[..t.DataLen()]
  {
    var len := t.DataLen() as int;
    if |data| < len then Err(DescriptorDataTooSmall)
    else
      var d :=
        match t
        case U8(id) => U8(id, data[0])
        case U16(id) => U16(id, ReadU16(e, data))
        case U32(id) => U32(id, ReadU32(e, data))
        case U64(id) => U64(id, ReadU64(e, data))
        case Other(id, _) => Other(id, data[..len])
        case End => DescriptorData.End;
      assert DataBytes(e, d) == data[..len] by {
        WriteReadUint(e, data[..len]);
        assert data[..len][..len] == data[..len];
      }
      Ok((data[len..], d))
  }

  /** The bytes `from_raw` reads, followed by those it returns, are its
      input. */
  lemma FromRawSplit(e: Endian, t: T.DescriptorType, data: seq<byte>)
    requires FromRaw(e, t, data).Ok?
    ensures data == DataBytes(e, FromRaw(e, t, data).value.1) + FromRaw(e, t, data).value.0
  {
    var k := t.DataLen() as int;
    assert data == data[..k] + data[k..];
  }

  /** Every canonical value decodes back from its own bytes under its own
      type. */
  lemma FromRawDataBytes(e: Endian, d: DescriptorData, rest: seq<byte>)
    requires Canonical(d)
    ensures FromRaw(e, d.TypeOf(), DataBytes(e, d) + rest) == Ok((rest, d))
  {
    var data := DataBytes(e, d) + rest;
    assert data[|DataBytes(e, d)|..] == rest;
    match d
    case U8(_, _) =>
    case U16(_, x) => ReadWriteU16(e, x, rest);
    case U32(_, x) => ReadWriteU32(e, x, rest);
    case U64(_, x) => ReadWriteU64(e, x, rest);
    case Other(_, bytes) => assert data[..|bytes|] == bytes;
    case End =>
  }

  /** `DescriptorData::to_raw` on `buf[off..]`: fails when fewer than
      `len` bytes are available, otherwise writes the value and returns
      the offset `len` bytes further. An Other value is copied with
      `copy_from_slice` over the whole remaining slice, which panics
      unless that slice is exactly as long as the value; callers must
      guarantee it. */
  method ToRaw(e: Endian, d: DescriptorData, buf: array<byte>, off: nat) returns (r: Result<nat>)
    requires off <= buf.Length
    requires d.Other? && buf.Length - off >= d.Len() as int ==> buf.Length - off == |d.bytes|
    modifies buf
    ensures r.Err? <==> buf.Length - off < d.Len() as int
    ensures r.Err? ==> r.error == DescriptorDataBufferTooSmall && buf[..] == old(buf[..])
    ensures r.Ok? ==> r.value == off + d.Len() as int
    ensures r.Ok? ==> Written(old(buf[..]), buf[..], off, DataBytes(e, d))
  {
    if buf.Length - off < d.Len() as int {
      return Err(DescriptorDataBufferTooSmall);
    }
    WriteAt(buf, off, DataBytes(e, d));
    r := Ok(off + d.Len() as int);
  }

  datatype DescriptorDecoded =
    | End
    | HWID(hwid: u16)
    | XorKey(key: byte)
    | FirmwareId(firmwareId: u16)
    | FirmwareLen(firmwareLen: u32)
    | FirmwareAddr(addr: u32)
    | VersionSw(version: V.Version)
    | VersionRemote(version: V.Version)
    | VersionId12(version: V.Version)
    | VersionId20(version: V.Version)
    | Firmware2000P1Len(partLen: u32)
    | Firmware2000P2Len(partLen: u32)
    | Firmware2000P3Len(partLen: u32)

  /** The value a decoded meaning is read from: its kind and id, and the
      payload (a version as its 16-bit word). */
  function Encode(x: DescriptorDecoded): DescriptorData
  {
    match x
    case End => DescriptorData.End
    case XorKey(k) => U8(10, k)
    case HWID(h) => U16(9, h)
    case FirmwareId(i) => U16(10, i)
    case VersionId12(v) => U16(12, V.Value(v))
    case VersionSw(v) => U16(13, V.Value(v))
    case VersionId20(v) => U16(20, V.Value(v))
    case VersionRemote(v) => U16(21, V.Value(v))
    case FirmwareLen(n) => U32(21, n)
    case Firmware2000P1Len(n) => U32(23, n)
    case Firmware2000P2Len(n) => U32(24, n)
    case Firmware2000P3Len(n) => U32(25, n)
    case FirmwareAddr(a) => U32(26, a)
  }

  /** The meanings `decode` can produce: versions as `new_raw` builds them. */
  predicate DecodedCanonical(x: DescriptorDecoded)
  {
    (x.VersionId12? || x.VersionSw? || x.VersionId20? || x.VersionRemote?) ==> V.Canonical(x.version)
  }

  /** `DescriptorDecoded::decode`: the meaning of the (kind, id) pairs
      whose meaning is known; every other value decodes to None. The
      known pairs are U8 10; U16 9, 10, 12, 13, 20 and 21; U32 21, 23, 24,
      25 and 26; and the end. What is decoded is read from the value
      itself: encoding it again gives the value back. */
  function Decode(d: DescriptorData): (r: Option<DescriptorDecoded>)
    ensures d.End? <==> r == Some(DescriptorDecoded.End)
    ensures d.U8? ==> (r.Some? <==> d.id == 10)
    ensures d.U16? ==> (r.Some? <==> d.id in {9, 10, 12, 13, 20, 21})
    ensures d.U32? ==> (r.Some? <==> d.id in {21, 23, 24, 25, 26})
    ensures d.U64? || d.Other? ==> r == None
    ensures r.Some? ==> DecodedCanonical(r.value) && Encode(r.value) == d
  {
    match d
    case End => Some(DescriptorDecoded.End)
    case U8(10, x) => Some(XorKey(x))
    case U16(9, x) => Some(HWID(x))
    case U16(10, x) => Some(FirmwareId(x))
    case U16(12, x) => V.ValueNewRaw(x); Some(VersionId12(V.NewRaw(x)))
    case U16(13, x) => V.ValueNewRaw(x); Some(VersionSw(V.NewRaw(x)))
    case U16(20, x) => V.ValueNewRaw(x); Some(VersionId20(V.NewRaw(x)))
    case U16(21, x) => V.ValueNewRaw(x); Some(VersionRemote(V.NewRaw(x)))
    case U32(21, x) => Some(FirmwareLen(x))
    case U32(23, x) => Some(Firmware2000P1Len(x))
    case U32(24, x) => Some(Firmware2000P2Len(x))
    case U32(25, x) => Some(Firmware2000P3Len(x))
    case U32(26, x) => Some(FirmwareAddr(x))
    case _ => None
  }

  /** Every meaning `decode` can produce is decoded from its own value, so
      `decode` and `Encode` are inverse on the decodable values. */
  lemma DecodeEncode(x: DescriptorDecoded)
    requires DecodedCanonical(x)
    ensures Decode(Encode(x)) == Some(x)
  {
    match x
    case VersionId12(v) => V.NewRawValue(v);
    case VersionSw(v) => V.NewRawValue(v);
    case VersionId20(v) => V.NewRawValue(v);
    case VersionRemote(v) => V.NewRawValue(v);
    case _ =>
  }
}
