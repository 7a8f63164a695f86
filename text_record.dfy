/** The text record (id 5): a free-form payload kept as a string when it
    is well-formed UTF-8 and as raw bytes otherwise. */
module TextRec {
  import opened Bytes
  import opened Wrappers
  import opened Header

  predicate Cont(b: byte)
  {
    0x80 <= b <= 0xBF
  }

  /** The length of the well-formed UTF-8 sequence `s` starts with, or 0
      when it starts with none (the byte ranges of Table 3-7 of the
      Unicode Standard, chapter 3.9). */
  function LeadLen(s: seq<byte>): (n: nat)
    requires |s| > 0
    ensures n <= |s| && n <= 4
  {
    var b := s[0];
    if b <= 0x7F then 1
    else if 0xC2 <= b <= 0xDF then
      if |s| >= 2 && Cont(s[1]) then 2 else 0
    else if 0xE0 <= b <= 0xEF then
      var lo := if b == 0xE0 then 0xA0 else 0x80;
      var hi := if b == 0xED then 0x9F else 0xBF;
      if |s| >= 3 && lo <= s[1] <= hi && Cont(s[2]) then 3 else 0
    else if 0xF0 <= b <= 0xF4 then
      var lo := if b == 0xF0 then 0x90 else 0x80;
      var hi := if b == 0xF4 then 0x8F else 0xBF;
      if |s| >= 4 && lo <= s[1] <= hi && Cont(s[2]) && Cont(s[3]) then 4 else 0
    else 0
  }

  /** `core::str::from_utf8` succeeds exactly on the byte strings that
      split into well-formed sequences. */
  predicate Utf8(s: seq<byte>)
    decreases |s|
  {
    s == [] || (LeadLen(s) > 0 && Utf8(s[LeadLen(s)..]))
  }

  datatype TextRecord = Simple(text: seq<byte>) | Blob(blob: seq<byte>)
  {
    /** `value`: the payload bytes of either variant. */
    function Value(): (r: seq<byte>)
      ensures this == Simple(r) || this == Blob(r)
    {
      match this
      case Simple(t) => t
      case Blob(b) => b
    }

    /** `len`: the payload length truncated to 16 bits (`as u16`). */
    function Len(): (n: u16)
      ensures |Value()| < 0x1_0000 ==> n as int == |Value()|
    {
      |Value()| % 0x1_0000
    }
  }

  /** The variant `New` builds for a payload: canonical records are
      Simple exactly when their bytes are UTF-8. */
  predicate Canonical(t: TextRecord)
  {
    t.Simple? <==> Utf8(t.Value())
  }

  /** `TextRecord::new` reading `len` bytes from `rest`: an end of file on
      a short input, otherwise a Simple record when the bytes are UTF-8
      and a Blob otherwise. */
  function New(rest: seq<byte>, len: u16): (r: Result<(TextRecord, nat)>)
    ensures r.Err? <==> |rest| < len as int
    ensures r.Err? ==> r.error == UnexpectedEof
    ensures r.Ok? ==> r.value.1 == len as int && r.value.0.Value() == rest[..len]
    ensures r.Ok? ==> r.value.0.Len() == len && Canonical(r.value.0)
  {
    if |rest| < len as int then Err(UnexpectedEof)
    else
      var data := rest[..len];
      if Utf8(data) then Ok((Simple(data), len as nat)) else Ok((Blob(data), len as nat))
  }

  /** The bytes `record_to_raw` writes for a payload that fits its 16-bit
      length field. */
  function RecordBytes(e: Endian, t: TextRecord): (r: seq<byte>)
    requires |t.Value()| < 0x1_0000
    ensures |r| == RECORD_HEADER_LEN + |t.Value()|
  {
    HeaderBytes(e, Text(t.Len())) + t.Value()
  }

  /** Reading back the payload of a written record gives the same bytes,
      hence the same record when it is canonical. */
  lemma NewRecordPayload(t: TextRecord, rest: seq<byte>)
    requires |t.Value()| < 0x1_0000
    ensures New(t.Value() + rest, t.Len()).Ok?
    ensures New(t.Value() + rest, t.Len()).value.0.Value() == t.Value()
    ensures Canonical(t) ==> New(t.Value() + rest, t.Len()) == Ok((t, |t.Value()|))
  {
    assert (t.Value() + rest)[..t.Len()] == t.Value();
  }

  /** A lone continuation byte, or a surrogate code point, is not UTF-8. */
  lemma Utf8Examples()
    ensures Utf8([0x41, 0xC3, 0xA7])
    ensures !Utf8([0x80])
    ensures !Utf8([0xED, 0xA0, 0x80])
  {
    assert [0x41, 0xC3, 0xA7][1..] == [0xC3, 0xA7];
    assert [0xC3, 0xA7][2..] == [];
  }

  /** `TextRecord::record_to_raw` on `buf[off..]`: header (5, len), then
      the payload. The source copies into an unchecked slice of `len`
      bytes, so callers must give room for the payload and a payload that
      fits 16 bits. */
  method RecordToRaw(e: Endian, t: TextRecord, buf: array<byte>, off: nat) returns (r: Result<()>)
    requires off <= buf.Length
    requires buf.Length - off >= RECORD_HEADER_LEN ==>
               |t.Value()| < 0x1_0000 && buf.Length - off >= RECORD_HEADER_LEN + |t.Value()|
    modifies buf
    ensures r.Err? <==> buf.Length - off < RECORD_HEADER_LEN
    ensures r.Err? ==> buf[..] == old(buf[..])
    ensures r.Ok? ==> |t.Value()| < 0x1_0000 && Written(old(buf[..]), buf[..], off, RecordBytes(e, t))
  {
    var next :- ToRaw(e, Text(t.Len()), buf, off);
    ghost var mid := buf[..];
    WriteAt(buf, next, t.Value());
    WrittenThen(old(buf[..]), mid, buf[..], off, HeaderBytes(e, Text(t.Len())), t.Value());
    r := Ok(());
  }
}
