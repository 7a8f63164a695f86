/** The 4-byte record header: a 16-bit id followed by a 16-bit payload
    length, both in the stream's byte order. The ids that name the known
    record kinds are collected here (each record module of the library
    declares its own `ID`). */
module Header {
  import opened Bytes
  import opened Wrappers

  const RECORD_HEADER_LEN: nat := 4

  const CHECKSUM_ID: u16 := 1
  const FILLER_ID: u16 := 2
  const MAIN_ID: u16 := 3
  const TEXT_ID: u16 := 5
  const DESCRIPTOR_TYPE_ID: u16 := 6
  const DESCRIPTOR_DATA_ID: u16 := 7
  const END_ID: u16 := 0xFFFF

  /** A header classified by its id. Checksum is always of length 1 and
      End of length 0; every id without a known meaning is Unknown. */
  datatype RecordHeader =
    | Checksum
    | Filler(len: u16)
    | MainHeader(len: u16)
    | Text(len: u16)
    | DescriptorType(len: u16)
    | DescriptorData(len: u16)
    | End
    | Unknown(id: u16, len: u16)
  {
    /** `id`: the id written for this header. A header of a known kind
        reports an (id, len) pair that classifies as that kind. */
    function Id(): (r: u16)
      ensures Unknown? || Reserved(r, Len())
    {
      match this
      case Unknown(id, _) => id
      case Checksum => CHECKSUM_ID
      case Filler(_) => FILLER_ID
      case MainHeader(_) => MAIN_ID
      case Text(_) => TEXT_ID
      case DescriptorType(_) => DESCRIPTOR_TYPE_ID
      case DescriptorData(_) => DESCRIPTOR_DATA_ID
      case End => END_ID
    }

    /** `len`: the payload length written for this header, fixed at 1
        for a checkpoint and 0 for the end. */
    function Len(): (n: u16)
      ensures Checksum? ==> n == 1
      ensures End? ==> n == 0
    {
      match this
      case Checksum => 1
      case End => 0
      case Filler(len) => len
      case MainHeader(len) => len
      case Text(len) => len
      case DescriptorType(len) => len
      case DescriptorData(len) => len
      case Unknown(_, len) => len
    }
  }

  /** The (id, len) pairs that FromValue gives a known meaning. */
  predicate Reserved(id: u16, len: u16)
  {
    || (id == CHECKSUM_ID && len == 1)
    || id == FILLER_ID || id == MAIN_ID || id == TEXT_ID
    || id == DESCRIPTOR_TYPE_ID || id == DESCRIPTOR_DATA_ID
    || (id == END_ID && len == 0)
  }

  /** Classifies an (id, len) pair. Classification is lossless: the header
      reports back the id and the length it was made from. */
  function FromValue(id: u16, len: u16): (h: RecordHeader)
    ensures h.Id() == id && h.Len() == len
    ensures h.Checksum? <==> id == CHECKSUM_ID && len == 1
    ensures h.End? <==> id == END_ID && len == 0
    ensures h.Unknown? <==> !Reserved(id, len)
  {
    if id == CHECKSUM_ID && len == 1 then Checksum
    else if id == FILLER_ID then Filler(len)
    else if id == MAIN_ID then MainHeader(len)
    else if id == TEXT_ID then Text(len)
    else if id == DESCRIPTOR_TYPE_ID then DescriptorType(len)
    else if id == DESCRIPTOR_DATA_ID then DescriptorData(len)
    else if id == END_ID && len == 0 then End
    else Unknown(id, len)
  }

  /** Every header other than an Unknown one that carries a reserved
      (id, len) pair is rebuilt by FromValue from its own id and length. */
  lemma FromValueOfHeader(h: RecordHeader)
    requires h.Unknown? ==> !Reserved(h.id, h.len)
    ensures FromValue(h.Id(), h.Len()) == h
  {
  }

  /** An Unknown header that carries a reserved pair is not rebuilt. */
  lemma FromValueOfReservedUnknown(id: u16, len: u16)
    requires Reserved(id, len)
    ensures FromValue(Unknown(id, len).Id(), Unknown(id, len).Len()) != Unknown(id, len)
  {
  }

  /** The bytes `to_raw` writes for `h`. */
  function HeaderBytes(e: Endian, h: RecordHeader): (r: seq<byte>)
    ensures |r| == RECORD_HEADER_LEN
  {
    WriteU16(e, h.Id()) + WriteU16(e, h.Len())
  }

  /** `RecordHeader::from_raw`: fails on fewer than 4 bytes, otherwise
      classifies bytes 0-1 (id) and 2-3 (len) and returns what follows. */
  function FromRaw(e: Endian, data: seq<byte>): (r: Result<(seq<byte>, RecordHeader)>)
    ensures r.Err? <==> |data| < RECORD_HEADER_LEN
    ensures r.Err? ==> r.error == HeaderTooSmall
    ensures r.Ok? ==> r.value.0 == data[RECORD_HEADER_LEN..]
    ensures r.Ok? ==> HeaderBytes(e, r.value.1) == data[..RECORD_HEADER_LEN]
  {
    if |data| < RECORD_HEADER_LEN then Err(HeaderTooSmall)
    else
      var h := FromValue(ReadU16(e, data), ReadU16(e, data[2..]));
      assert HeaderBytes(e, h) == data[..RECORD_HEADER_LEN] by {
        WriteReadUint(e, data[..2]);
        WriteReadUint(e, data[2..4]);
        assert data[2..][..2] == data[2..4];
        assert data[..2] + data[2..4] == data[..4];
      }
      Ok((data[RECORD_HEADER_LEN..], h))
  }

  /** Decoding the bytes written for `h` gives back its id and length,
      hence `h` itself whenever `h` is not an Unknown header carrying a
      reserved pair. */
  lemma FromRawHeaderBytes(e: Endian, h: RecordHeader, rest: seq<byte>)
    ensures FromRaw(e, HeaderBytes(e, h) + rest) == Ok((rest, FromValue(h.Id(), h.Len())))
    ensures (h.Unknown? ==> !Reserved(h.id, h.len)) ==>
              FromRaw(e, HeaderBytes(e, h) + rest) == Ok((rest, h))
  {
    var data := HeaderBytes(e, h) + rest;
    assert data == WriteU16(e, h.Id()) + (WriteU16(e, h.Len()) + rest);
    ReadWriteU16(e, h.Id(), WriteU16(e, h.Len()) + rest);
    assert data[2..] == WriteU16(e, h.Len()) + rest;
    ReadWriteU16(e, h.Len(), rest);
    assert data[RECORD_HEADER_LEN..] == rest;
  }

  /** `RecordHeader::to_raw` on the slice `buf[off..]`: fails when fewer
      than 4 bytes are available, otherwise writes id then len and returns
      the offset just after them. */
  method ToRaw(e: Endian, h: RecordHeader, buf: array<byte>, off: nat) returns (r: Result<nat>)
    requires off <= buf.Length
    modifies buf
    ensures r.Err? <==> buf.Length - off < RECORD_HEADER_LEN
    ensures r.Err? ==> r.error == HeaderTooSmall && buf[..] == old(buf[..])
    ensures r.Ok? ==> r.value == off + RECORD_HEADER_LEN
    ensures r.Ok? ==> Written(old(buf[..]), buf[..], off, HeaderBytes(e, h))
  {
    if buf.Length - off < RECORD_HEADER_LEN {
      return Err(HeaderTooSmall);
    }
    WriteAt(buf, off, HeaderBytes(e, h));
    r := Ok(off + RECORD_HEADER_LEN);
  }
}
