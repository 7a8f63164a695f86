/** A firmware chunk: a record whose id is the firmware id announced by
    the descriptor and whose payload is a piece of that firmware. */
module Firmware {
  import opened Bytes
  import opened Wrappers
  import opened Header

  datatype FirmwareRecord = EmptyChunk(id: u16) | Chunk(id: u16, data: seq<byte>)
  {
    /** `data`: the chunk's payload, empty for an EmptyChunk. */
    function Data(): seq<byte>
    {
      match this
      case EmptyChunk(_) => []
      case Chunk(_, data) => data
    }

    /** `len`: the payload length truncated to 16 bits. */
    function Len(): (n: u16)
      ensures |Data()| < 0x1_0000 ==> n as int == |Data()|
    {
      match this
      case EmptyChunk(_) => 0
      case Chunk(_, data) => |data| % 0x1_0000
    }
  }

  /** `FirmwareRecord::new`: an empty payload makes an EmptyChunk; the id
      and the payload are kept. */
  function New(data: seq<byte>, id: u16): (r: FirmwareRecord)
    ensures r.id == id && r.Data() == data
    ensures r.EmptyChunk? <==> data == []
  {
    if |data| == 0 then EmptyChunk(id) else Chunk(id, data)
  }

  /** Every record is determined by its id and its payload, except a
      Chunk with an empty payload, which New builds as an EmptyChunk. */
  lemma NewOfRecord(f: FirmwareRecord)
    ensures f.Chunk? && f.data == [] ==> New(f.Data(), f.id) == EmptyChunk(f.id)
    ensures !(f.Chunk? && f.data == []) ==> New(f.Data(), f.id) == f
  {
  }

  /** The bytes `record_to_raw` writes: an Unknown header carrying the
      firmware id, then the payload. */
  function RecordBytes(e: Endian, f: FirmwareRecord): (r: seq<byte>)
    requires |f.Data()| < 0x1_0000
    ensures |r| == RECORD_HEADER_LEN + |f.Data()|
  {
    HeaderBytes(e, Unknown(f.id, f.Len())) + f.Data()
  }

  /** `FirmwareRecord::record_to_raw` on `buf[off..]`. The source copies
      into an unchecked slice of `len` bytes, so callers must give room
      for the payload and a payload that fits 16 bits. */
  method RecordToRaw(e: Endian, f: FirmwareRecord, buf: array<byte>, off: nat) returns (r: Result<()>)
    requires off <= buf.Length
    requires buf.Length - off >= RECORD_HEADER_LEN ==>
               |f.Data()| < 0x1_0000 && buf.Length - off >= RECORD_HEADER_LEN + |f.Data()|
    modifies buf
    ensures r.Err? <==> buf.Length - off < RECORD_HEADER_LEN
    ensures r.Err? ==> buf[..] == old(buf[..])
    ensures r.Ok? ==> |f.Data()| < 0x1_0000 && Written(old(buf[..]), buf[..], off, RecordBytes(e, f))
  {
    var next :- ToRaw(e, Unknown(f.id, f.Len()), buf, off);
    ghost var mid := buf[..];
    WriteAt(buf, next, f.Data());
    WrittenThen(old(buf[..]), mid, buf[..], off, HeaderBytes(e, Unknown(f.id, f.Len())), f.Data());
    r := Ok(());
  }
}
