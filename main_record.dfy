/** The main record (id 3), the first data record after the first
    checkpoint. Two variants are known: a 9-byte part number and a 2-byte
    hardware id, each with a single accepted value. */
module MainRec {
  import opened Bytes
  import opened Wrappers
  import opened Header

  const DEFAULT_HWID: u16 := 0x0037
  /** The 72-bit integer the part number "010-10037-00" packs into. */
  const DEFAULT_PART_NUMBER: nat := 0x41140D4504135CD410
  const PART_NUMBER_LEN: u16 := 9
  const HWID_LEN: u16 := 2

  datatype MainRecord = DefaultPartNumber | DefaultHWID
  {
    /** `len`: the payload length, which tells the two variants apart. */
    function Len(): (n: u16)
      ensures n == PART_NUMBER_LEN <==> DefaultPartNumber?
      ensures n == HWID_LEN <==> DefaultHWID?
    {
      match this
      case DefaultPartNumber => PART_NUMBER_LEN
      case DefaultHWID => HWID_LEN
    }
  }

  lemma PartNumberFits()
    ensures DEFAULT_PART_NUMBER < Pow256(PART_NUMBER_LEN)
  {
    assert Pow256(9) == 256 * Pow256(8) == 0x1_0000 * Pow256(7) == 0x100_0000 * Pow256(6);
    assert Pow256(6) == 256 * Pow256(5) == 0x1_0000 * Pow256(4) == 0x100_0000 * Pow256(3);
    assert Pow256(3) == 256 * Pow256(2) == 0x1_0000 * Pow256(1) == 0x100_0000 * Pow256(0);
  }

  /** The payload bytes of each variant in byte order `e`. */
  function Payload(e: Endian, m: MainRecord): (r: seq<byte>)
    ensures |r| == m.Len() as int
  {
    match m
    case DefaultPartNumber => WriteUint(e, DEFAULT_PART_NUMBER, PART_NUMBER_LEN)
    case DefaultHWID => WriteU16(e, DEFAULT_HWID)
  }

  /** `MainRecord::new` reading from the bytes `rest` that follow the
      header, whose length field is `len`. It returns the record and the
      number of bytes consumed. Any length but 9 and 2 is rejected before
      reading; a short input is an end of file; any value other than the
      known one is rejected. */
  function New(e: Endian, rest: seq<byte>, len: u16): (r: Result<(MainRecord, nat)>)
    ensures len != PART_NUMBER_LEN && len != HWID_LEN ==> r == Err(InvalidMainRecord)
    ensures (len == PART_NUMBER_LEN || len == HWID_LEN) && |rest| < len as int ==> r == Err(UnexpectedEof)
    ensures len == PART_NUMBER_LEN && |rest| >= len as int ==>
              (r.Ok? <==> ReadUint(e, rest[..len]) == DEFAULT_PART_NUMBER)
    ensures len == HWID_LEN && |rest| >= len as int ==>
              (r.Ok? <==> ReadU16(e, rest) == DEFAULT_HWID)
    ensures r.Ok? ==> r.value.1 == len as int == r.value.0.Len() as int && rest[..len] == Payload(e, r.value.0)
  {
    if len == PART_NUMBER_LEN then
      if |rest| < len as int then Err(UnexpectedEof)
      else if ReadUint(e, rest[..len]) == DEFAULT_PART_NUMBER then
        assert rest[..len] == Payload(e, DefaultPartNumber) by {
          WriteReadUint(e, rest[..len]);
        }
        Ok((DefaultPartNumber, len as nat))
      else Err(InvalidPartNumber)
    else if len == HWID_LEN then
      if |rest| < len as int then Err(UnexpectedEof)
      else if ReadU16(e, rest) == DEFAULT_HWID then
        assert rest[..len] == Payload(e, DefaultHWID) by {
          WriteReadUint(e, rest[..len]);
        }
        Ok((DefaultHWID, len as nat))
      else Err(InvalidHwid)
    else Err(InvalidMainRecord)
  }

  /** Each variant's payload decodes back to that variant, whatever
      follows it. */
  lemma NewPayload(e: Endian, m: MainRecord, rest: seq<byte>)
    ensures New(e, Payload(e, m) + rest, m.Len()) == Ok((m, m.Len() as nat))
  {
    var data := Payload(e, m) + rest;
    assert data[..m.Len()] == Payload(e, m);
    match m
    case DefaultPartNumber =>
      PartNumberFits();
      ReadWriteUint(e, DEFAULT_PART_NUMBER, PART_NUMBER_LEN);
    case DefaultHWID =>
      ReadWriteU16(e, DEFAULT_HWID, rest);
  }

  /** The bytes `record_to_raw` writes. */
  function RecordBytes(e: Endian, m: MainRecord): (r: seq<byte>)
    ensures |r| == RECORD_HEADER_LEN + m.Len() as int
  {
    HeaderBytes(e, MainHeader(m.Len())) + Payload(e, m)
  }

  /** `MainRecord::record_to_raw` on `buf[off..]`: header (3, len), then
      the payload. The source writes the payload through an unchecked
      slice, so a slice with room for the header only would panic;
      callers must not pass one. */
  method RecordToRaw(e: Endian, m: MainRecord, buf: array<byte>, off: nat) returns (r: Result<()>)
    requires off <= buf.Length
    requires buf.Length - off >= RECORD_HEADER_LEN ==> buf.Length - off >= RECORD_HEADER_LEN + m.Len() as int
    modifies buf
    ensures r.Err? <==> buf.Length - off < RECORD_HEADER_LEN
    ensures r.Err? ==> buf[..] == old(buf[..])
    ensures r.Ok? ==> Written(old(buf[..]), buf[..], off, RecordBytes(e, m))
  {
    var h := MainHeader(m.Len());
    var payload := Payload(e, m);
    var next :- ToRaw(e, h, buf, off);
    ghost var mid := buf[..];
    WriteAt(buf, next, payload);
    WrittenThen(old(buf[..]), mid, buf[..], off, HeaderBytes(e, h), payload);
    r := Ok(());
  }
}
