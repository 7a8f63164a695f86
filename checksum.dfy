/** The checksum record: header (1, 1) and one payload byte chosen so
    that the running byte sum of the stream, including that byte, is 0. */
module Checksum {
  import opened Bytes
  import opened Wrappers
  import opened Header

  datatype ChecksumRecord = Simple
  {
    /** `len`: one payload byte, as the checkpoint header says. */
    function Len(): (n: u16)
      ensures n == 1 && n == RecordHeader.Checksum.Len()
    {
      LEN
    }
  }

  const LEN: u16 := 1

  /** `ChecksumRecord::new`: `data` is the payload read and `checksum` the
      running sum of the stream after reading it. */
  function New(data: seq<byte>, checksum: byte): (r: Result<ChecksumRecord>)
    ensures r.Ok? <==> |data| == LEN as int && checksum == 0
    ensures r.Err? ==> r.error == InvalidChecksum
  {
    if |data| != LEN as int || checksum != 0 then Err(InvalidChecksum) else Ok(Simple)
  }

  /** The payload byte written after the header when the running sum
      before the record is `checksum`. */
  function PayloadByte(e: Endian, checksum: byte): byte
  {
    WrappingNeg(WrappingAdd(checksum, ModSum(HeaderBytes(e, RecordHeader.Checksum))))
  }

  /** The bytes `record_to_raw` writes. */
  function RecordBytes(e: Endian, checksum: byte): (r: seq<byte>)
    ensures |r| == RECORD_HEADER_LEN + LEN as int
  {
    HeaderBytes(e, RecordHeader.Checksum) + [PayloadByte(e, checksum)]
  }

  /** The record closes the checkpoint: the incoming sum plus every byte
      of the record is 0 modulo 256. */
  lemma RecordBytesCloseSum(e: Endian, checksum: byte)
    ensures WrappingAdd(checksum, ModSum(RecordBytes(e, checksum))) == 0
  {
    var h := HeaderBytes(e, RecordHeader.Checksum);
    var p := PayloadByte(e, checksum);
    ModSumSnoc(h, p);
    WrappingNegCancels(checksum, ModSum(h));
  }

  /** Reading the record back: with the stream's running sum `sum` before
      the header, `New` accepts the payload byte `b` exactly when `b` is
      the byte `record_to_raw` computes from `sum`. */
  lemma AcceptedPayloadByte(e: Endian, sum: byte, b: byte)
    ensures New([b], WrappingAdd(sum, ModSum(HeaderBytes(e, RecordHeader.Checksum) + [b]))).Ok?
            <==> b == PayloadByte(e, sum)
  {
    var h := HeaderBytes(e, RecordHeader.Checksum);
    ModSumSnoc(h, b);
    WrappingNegUnique(sum, ModSum(h), b);
  }

  /** `ChecksumRecord::record_to_raw` on `buf[off..]`: the header (failing
      when fewer than 4 bytes are available) then the payload byte, the
      negation of `checksum` folded with the 4 header bytes just written.
      The source indexes byte 4 unchecked, so a slice of exactly 4 bytes
      would panic; callers must not pass one. */
  method RecordToRaw(e: Endian, buf: array<byte>, off: nat, checksum: byte) returns (r: Result<()>)
    requires off <= buf.Length
    requires buf.Length - off >= RECORD_HEADER_LEN ==> buf.Length - off >= RECORD_HEADER_LEN + LEN as int
    modifies buf
    ensures r.Err? <==> buf.Length - off < RECORD_HEADER_LEN
    ensures r.Err? ==> buf[..] == old(buf[..])
    ensures r.Ok? ==> Written(old(buf[..]), buf[..], off, RecordBytes(e, checksum))
  {
    var next :- ToRaw(e, RecordHeader.Checksum, buf, off);
    ghost var mid := buf[..];
    assert buf[off..next] == HeaderBytes(e, RecordHeader.Checksum);
    var value := WrappingAdd(checksum, ModSum(buf[off..next]));
    buf[next] := WrappingNeg(value);
    assert Written(mid, buf[..], next, [PayloadByte(e, checksum)]);
    WrittenThen(old(buf[..]), mid, buf[..], off, HeaderBytes(e, RecordHeader.Checksum), [PayloadByte(e, checksum)]);
    r := Ok(());
  }
}
