/** The filler record: header (2, N) followed by N zero bytes, used to
    align the next record. */
module Filler {
  import opened Bytes
  import opened Wrappers
  import opened Header

  datatype FillerRecord = Zeros(len: u16)
  {
    /** `len`: the number of zero bytes; that many zeroes build this
        filler again. */
    function Len(): (n: u16)
      ensures New(Zeroes(n)) == Ok(this)
    {
      len
    }

    function Header(): (h: RecordHeader)
      ensures h.Id() == FILLER_ID && h.Len() == len
    {
      RecordHeader.Filler(Len())
    }
  }

  function Zeroes(n: nat): (r: seq<byte>)
    ensures |r| == n && forall i :: 0 <= i < n ==> r[i] == 0
  {
    seq(n, _ => 0)
  }

  /** `FillerRecord::new`: fails exactly when some payload byte is not 0;
      the length is kept as a u16 (`data.len() as u16`). */
  function New(data: seq<byte>): (r: Result<FillerRecord>)
    ensures r.Err? <==> exists i :: 0 <= i < |data| && data[i] != 0
    ensures r.Err? ==> r.error == InvalidFiller
    ensures r.Ok? ==> r.value == Zeros(|data| % 0x1_0000)
  {
    if exists i :: 0 <= i < |data| && data[i] != 0 then Err(InvalidFiller)
    else Ok(Zeros(|data| % 0x1_0000))
  }

  /** N zero bytes decode to the filler of length N. */
  lemma NewZeroes(n: u16)
    ensures New(Zeroes(n)) == Ok(Zeros(n))
  {
  }

  /** A single non-zero byte anywhere in the payload makes it invalid. */
  lemma NewRejectsNonZero(data: seq<byte>, i: nat)
    requires i < |data| && data[i] != 0
    ensures New(data) == Err(InvalidFiller)
  {
  }

  /** The bytes `record_to_raw` writes. */
  function RecordBytes(e: Endian, f: FillerRecord): (r: seq<byte>)
    ensures |r| == RECORD_HEADER_LEN + f.len as int
  {
    HeaderBytes(e, f.Header()) + Zeroes(f.len)
  }

  /** `FillerRecord::record_to_raw` on `buf[off..]`: header (2, N), then
      bytes 4..4+N set to 0; later bytes are left untouched. The source
      slices the buffer unchecked, so a slice holding the header but not
      the N bytes would panic; callers must not pass one. */
  method RecordToRaw(e: Endian, f: FillerRecord, buf: array<byte>, off: nat) returns (r: Result<()>)
    requires off <= buf.Length
    requires buf.Length - off >= RECORD_HEADER_LEN ==> buf.Length - off >= RECORD_HEADER_LEN + f.len as int
    modifies buf
    ensures r.Err? <==> buf.Length - off < RECORD_HEADER_LEN
    ensures r.Err? ==> buf[..] == old(buf[..])
    ensures r.Ok? ==> Written(old(buf[..]), buf[..], off, RecordBytes(e, f))
  {
    var next :- ToRaw(e, f.Header(), buf, off);
    ghost var mid := buf[..];
    WriteAt(buf, next, Zeroes(f.Len()));
    WrittenThen(old(buf[..]), mid, buf[..], off, HeaderBytes(e, f.Header()), Zeroes(f.Len()));
    r := Ok(());
  }
}
