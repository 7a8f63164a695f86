/** The reader of a GCD file. After the 8-byte signature ("GARMIN" and
    the format version 100) the file is a sequence of records whose order
    follows the grammar `C* M C* (DT DD FD* C*)+ E`: checkpoints (C) and
    fillers anywhere, one main record (M), then firmware blocks, each a
    descriptor type record (DT), a descriptor data record (DD) and the
    firmware chunks (FD), closed by the end record (E). Text records may
    appear between them. A running byte sum over everything read lets a
    checkpoint record check the file.

    The model is a class over the bytes of the file, proved against the
    pure function `Step`, one turn of the loop of `read_record`, and
    `Read`, the loop itself. */
module GcdParser {
  import opened Bytes
  import opened Wrappers
  import H = Header
  import R = Records
  import CK = Checksum
  import FL = Filler
  import MR = MainRec
  import TR = TextRec
  import FW = Firmware
  import Desc = Descriptor
  import D = DescData
  import T = DescType

  /** "GARMIN" */
  const SIGNATURE: seq<byte> := [0x47, 0x41, 0x52, 0x4D, 0x49, 0x4E]
  /** The signature and the 16-bit format version. */
  const SIGNATURE_LEN: nat := 8
  const FILE_VERSION: u16 := 100
  /** The firmware id of TrueType font files, stored XORed with 0x76. */
  const TTF_FIRMWARE_ID: u16 := 0x05A5
  const TTF_XOR: byte := 0x76

  /** Where the parser is in the grammar. */
  datatype ParseState = TextGlobal | Main | DescriptorType | DescriptorData | FirmwareData | End

  /** `FirmwareData`: what the last descriptor announced about the
      firmware block being read. A key of 0 means no key. */
  datatype FirmwareInfo = FirmwareInfo(id: u16, xorKey: byte, length: u32, lengthLeft: u32)

  /** Two states of the same firmware block: all but what is still due
      agree. */
  predicate SameBlock(a: FirmwareInfo, b: FirmwareInfo)
  {
    a.id == b.id && a.xorKey == b.xorKey && a.length == b.length
  }

  /** `FirmwareData::default()`. */
  const NO_FIRMWARE: FirmwareInfo := FirmwareInfo(0, 0, 0, 0)

  /** No more of a firmware block is still due than it announced. */
  predicate Accounted(fw: FirmwareInfo)
  {
    fw.lengthLeft <= fw.length
  }

  // ---------------------------------------------------------------------
  // The stream

  /** `ReadCheckSum`: a reader that adds every byte it hands out to a
      wrapping byte sum. The file is the sequence `input`, of which the
      first `pos` bytes have been read. */
  class ReadCheckSum {
    const input: seq<byte>
    var pos: nat
    var sum: byte

    /** The sum is that of every byte read so far; it is never reset. */
    ghost predicate Valid()
      reads this
    {
      pos <= |input| && sum == ModSum(input[..pos])
    }

    /** `ReadCheckSum::new`. */
    constructor (input: seq<byte>)
      ensures Valid() && this.input == input && pos == 0
    {
      this.input := input;
      pos := 0;
      sum := 0;
    }

    /** `ReadCheckSum::sum`. */
    function Sum(): (s: byte)
      reads this
      requires Valid()
      ensures s == ModSum(input[..pos])
    {
      sum
    }

    /** `read_exact` on top of `read`: hands out the next `n` bytes, or,
        when fewer are left, reads all of them and reports an end of
        file. Every byte read is added to the sum, also on failure. */
    method ReadExact(n: nat) returns (r: Result<seq<byte>>)
      requires Valid()
      modifies this
      ensures Valid()
      ensures old(pos) + n <= |input| ==> r == Ok(input[old(pos)..old(pos) + n]) && pos == old(pos) + n
      ensures old(pos) + n > |input| ==> r == Err(UnexpectedEof) && pos == |input|
    {
      var data: seq<byte> := [];
      while |data| < n && pos < |input|
        invariant Valid()
        invariant old(pos) <= pos && |data| <= n && data == input[old(pos)..pos]
        decreases n - |data|
      {
        var b := input[pos];
        assert input[..pos + 1] == input[..pos] + [b];
        ModSumSnoc(input[..pos], b);
        sum := WrappingAdd(sum, b);
        pos := pos + 1;
        data := data + [b];
      }
      if |data| < n {
        return Err(UnexpectedEof);
      }
      r := Ok(data);
    }
  }

  // ---------------------------------------------------------------------
  // Firmware descriptors and chunks

  /** The firmware id a descriptor value gives, if any. */
  function IdOf(d: D.DescriptorData): Option<u16>
  {
    match D.Decode(d)
    case Some(FirmwareId(x)) => Some(x)
    case _ => None
  }

  /** The firmware length a descriptor value gives, if any: the whole
      length, or the length of part 1, 2 or 3. */
  function LenOf(d: D.DescriptorData): Option<u32>
  {
    match D.Decode(d)
    case Some(FirmwareLen(x)) => Some(x)
    case Some(Firmware2000P1Len(x)) => Some(x)
    case Some(Firmware2000P2Len(x)) => Some(x)
    case Some(Firmware2000P3Len(x)) => Some(x)
    case _ => None
  }

  /** The XOR key a descriptor value gives, if any. */
  function KeyOf(d: D.DescriptorData): Option<byte>
  {
    match D.Decode(d)
    case Some(XorKey(x)) => Some(x)
    case _ => None
  }

  /** The values that give the firmware fields: the id only the 16-bit
      value 10, a length only the 32-bit values 21, 23, 24 and 25, the key
      only the 8-bit value 10. */
  lemma FirmwareFields(d: D.DescriptorData)
    ensures IdOf(d) == if d.U16? && d.id == 10 then Some(d.v16) else None
    ensures LenOf(d) == if d.U32? && d.id in {21, 23, 24, 25} then Some(d.v32) else None
    ensures KeyOf(d) == if d.U8? && d.id == 10 then Some(d.v8) else None
  {
  }

  /** What the extraction loop of `parse_descriptor_data` keeps of the
      values `f` picks out of `ds`: the one found last. */
  function Found<X>(f: D.DescriptorData -> Option<X>, ds: seq<D.DescriptorData>): Option<X>
  {
    if ds == [] then None
    else
      match f(ds[|ds| - 1])
      case Some(x) => Some(x)
      case None => Found(f, ds[..|ds| - 1])
  }

  /** Nothing is found exactly when no value gives anything. */
  lemma {:induction false} FoundNone<X>(f: D.DescriptorData -> Option<X>, ds: seq<D.DescriptorData>)
    ensures Found(f, ds).None? <==> forall i :: 0 <= i < |ds| ==> f(ds[i]).None?
  {
    if ds != [] {
      var init := ds[..|ds| - 1];
      FoundNone(f, init);
      assert forall i :: 0 <= i < |init| ==> init[i] == ds[i];
    }
  }

  /** What is found is what the last value giving anything gives. */
  lemma {:induction false} FoundLast<X>(f: D.DescriptorData -> Option<X>, ds: seq<D.DescriptorData>, i: nat)
    requires i < |ds| && f(ds[i]).Some?
    requires forall j :: i < j < |ds| ==> f(ds[j]).None?
    ensures Found(f, ds) == f(ds[i])
  {
    if i < |ds| - 1 {
      var init := ds[..|ds| - 1];
      assert init[i] == ds[i];
      assert forall j :: i < j < |init| ==> init[j] == ds[j];
      FoundLast(f, init, i);
    }
  }

  /** The extraction loop of `parse_descriptor_data`: id, length and key
      are each the last one the values give. */
  method ExtractFirmware(ds: seq<D.DescriptorData>) returns (id: Option<u16>, length: Option<u32>, key: Option<byte>)
    ensures id == Found(IdOf, ds) && length == Found(LenOf, ds) && key == Found(KeyOf, ds)
  {
    id, length, key := None, None, None;
    for i := 0 to |ds|
      invariant id == Found(IdOf, ds[..i])
      invariant length == Found(LenOf, ds[..i])
      invariant key == Found(KeyOf, ds[..i])
    {
      assert ds[..i + 1][..i] == ds[..i];
      match D.Decode(ds[i]) {
        case Some(FirmwareId(x)) => id := Some(x);
        case Some(FirmwareLen(x)) => length := Some(x);
        case Some(XorKey(x)) => key := Some(x);
        case Some(Firmware2000P1Len(x)) => length := Some(x);
        case Some(Firmware2000P2Len(x)) => length := Some(x);
        case Some(Firmware2000P3Len(x)) => length := Some(x);
        case _ =>
      }
    }
    assert ds[..|ds|] == ds;
  }

  /** Every byte of `data` XORed with `key`. */
  function XorAll(data: seq<byte>, key: byte): (r: seq<byte>)
    ensures |r| == |data|
  {
    seq(|data|, i requires 0 <= i < |data| => Xor8(data[i], key))
  }

  /** `iter_mut().for_each(|x| *x = *x ^ key)`. */
  method XorInPlace(buf: array<byte>, key: byte)
    modifies buf
    ensures buf[..] == XorAll(old(buf[..]), key)
  {
    for i := 0 to buf.Length
      invariant forall j :: 0 <= j < i ==> buf[j] == Xor8(old(buf[j]), key)
      invariant forall j :: i <= j < buf.Length ==> buf[j] == old(buf[j])
    {
      buf[i] := Xor8(buf[i], key);
    }
  }

  /** The decoding of a chunk's payload: XOR with the key unless it is 0,
      then XOR with 0x76 for a TrueType font. */
  function Decrypt(data: seq<byte>, key: byte, id: u16): (r: seq<byte>)
    ensures |r| == |data|
  {
    var once := if key != 0 then XorAll(data, key) else data;
    if id == TTF_FIRMWARE_ID then XorAll(once, TTF_XOR) else once
  }

  /** The encoding the decoding undoes: the two XOR steps in the other
      order. */
  function Encrypt(data: seq<byte>, key: byte, id: u16): (r: seq<byte>)
    ensures |r| == |data|
  {
    var once := if id == TTF_FIRMWARE_ID then XorAll(data, TTF_XOR) else data;
    if key != 0 then XorAll(once, key) else once
  }

  lemma XorAllTwice(data: seq<byte>, key: byte)
    ensures XorAll(XorAll(data, key), key) == data
  {
    forall i | 0 <= i < |data|
      ensures XorAll(XorAll(data, key), key)[i] == data[i]
    {
      Xor8Involution(data[i], key);
    }
  }

  /** Decoding loses nothing: it and the encoding undo each other. */
  lemma DecryptEncrypt(data: seq<byte>, key: byte, id: u16)
    ensures Decrypt(Encrypt(data, key, id), key, id) == data
    ensures Encrypt(Decrypt(data, key, id), key, id) == data
  {
    var t := if id == TTF_FIRMWARE_ID then XorAll(data, TTF_XOR) else data;
    var k := if key != 0 then XorAll(data, key) else data;
    if id == TTF_FIRMWARE_ID {
      XorAllTwice(data, TTF_XOR);
      XorAllTwice(k, TTF_XOR);
    }
    if key != 0 {
      XorAllTwice(t, key);
      XorAllTwice(data, key);
    }
  }

  /** A key of 0 and another firmware id leave the payload as it is. */
  lemma DecryptPlain(data: seq<byte>, id: u16)
    requires id != TTF_FIRMWARE_ID
    ensures Decrypt(data, 0, id) == data
  {
  }

  // ---------------------------------------------------------------------
  // The record readers, on the bytes `rest` that follow a header

  /** `parse_checksum` on the byte at `p`: `input[..p + 1]` is everything
      read once it is read. */
  function ChecksumAt(input: seq<byte>, p: nat): (r: Result<(CK.ChecksumRecord, nat)>)
    requires p <= |input|
    ensures r.Ok? <==> p < |input| && ModSum(input[..p + 1]) == 0
    ensures r.Ok? ==> r.value.1 == CK.LEN as nat
  {
    if p == |input| then Err(UnexpectedEof)
    else
      var c :- CK.New([input[p]], ModSum(input[..p + 1]));
      Ok((c, CK.LEN as nat))
  }

  /** `parse_filler`. */
  function FillerAt(rest: seq<byte>, len: u16): (r: Result<(FL.FillerRecord, nat)>)
    ensures |rest| < len as int ==> r == Err(UnexpectedEof)
    ensures r.Ok? ==> r.value.1 == len as int && r.value.0 == FL.Zeros(len)
  {
    if |rest| < len as int then Err(UnexpectedEof)
    else
      var f :- FL.New(rest[..len]);
      Ok((f, len as nat))
  }

  /** The firmware a descriptor record announces: the id, the length and
      the key found last among its values, and all of the length due. */
  predicate Announced(d: Desc.DescriptorRecord, fw: FirmwareInfo)
  {
    && Some(fw.id) == Found(IdOf, d.descs)
    && Some(fw.length) == Found(LenOf, d.descs)
    && fw.xorKey == (if Found(KeyOf, d.descs).Some? then Found(KeyOf, d.descs).value else 0)
    && fw.lengthLeft == fw.length
  }

  /** `parse_descriptor_data`: the data record under the types `tr`, and
      the firmware it announces: the id, the length and the key found
      last among its values, and all of the length still due. */
  function DescriptorAt(e: Endian, tr: Desc.DescriptorTypeRecord, rest: seq<byte>, len: u16)
    : (r: Result<(Desc.DescriptorRecord, FirmwareInfo, nat)>)
    ensures r.Ok? ==> Desc.DataRecordNew(e, tr, rest, len) == Ok((r.value.0, r.value.2)) && Announced(r.value.0, r.value.1)
    ensures Desc.DataRecordNew(e, tr, rest, len).Err? ==> r == Err(Desc.DataRecordNew(e, tr, rest, len).error)
    ensures Desc.DataRecordNew(e, tr, rest, len).Ok? ==>
              var ds := Desc.DataRecordNew(e, tr, rest, len).value.0.descs;
              && (Found(IdOf, ds).None? ==> r == Err(FirmwareIdNotFound))
              && (Found(IdOf, ds).Some? && Found(LenOf, ds).None? ==> r == Err(FirmwareLengthNotFound))
  {
    var rec :- Desc.DataRecordNew(e, tr, rest, len);
    var ds := rec.0.descs;
    var id := Found(IdOf, ds);
    var length := Found(LenOf, ds);
    var key := Found(KeyOf, ds);
    if id.None? then Err(FirmwareIdNotFound)
    else if length.None? then Err(FirmwareLengthNotFound)
    else Ok((rec.0, FirmwareInfo(id.value, if key.Some? then key.value else 0, length.value, length.value), rec.1))
  }

  /** `parse_firmware_data`: a chunk must carry the announced firmware id
      and be no longer than what is still due; its payload is decoded
      and what is due drops by its length. */
  function ChunkAt(rest: seq<byte>, id: u16, len: u16, fw: FirmwareInfo): (r: Result<(FW.FirmwareRecord, FirmwareInfo, nat)>)
    ensures r.Ok? <==> id == fw.id && len as int <= fw.lengthLeft as int && len as int <= |rest|
    ensures id != fw.id ==> r == Err(FirmwareIdMismatch(fw.id, id))
    ensures id == fw.id && fw.lengthLeft < len as int ==> r == Err(FirmwareChunkTooBig)
    ensures id == fw.id && len as int <= fw.lengthLeft as int && |rest| < len as int ==> r == Err(UnexpectedEof)
    ensures r.Ok? ==>
              && r.value.0.id == id
              && r.value.0.Data() == Decrypt(rest[..len], fw.xorKey, fw.id)
              && r.value.1.lengthLeft as int == fw.lengthLeft as int - len as int
              && r.value.1 == fw.(lengthLeft := r.value.1.lengthLeft)
              && r.value.2 == len as int
  {
    if id != fw.id then Err(FirmwareIdMismatch(fw.id, id))
    else if fw.lengthLeft < len as int then Err(FirmwareChunkTooBig)
    else if |rest| < len as int then Err(UnexpectedEof)
    else Ok((FW.New(Decrypt(rest[..len], fw.xorKey, fw.id), id), fw.(lengthLeft := fw.lengthLeft - len as int), len as nat))
  }

  /** `check_firmware_end`: a block may only be closed once all of its
      firmware has been read. */
  function CloseFirmware(fw: FirmwareInfo): (r: Result<()>)
    ensures r.Ok? <==> fw.lengthLeft == 0
    ensures r.Err? ==> r.error == FirmwareTruncated(fw.length as int - fw.lengthLeft as int, fw.length as int)
  {
    if fw.lengthLeft != 0 then Err(FirmwareTruncated(fw.length as int - fw.lengthLeft as int, fw.length as int))
    else Ok(())
  }

  // ---------------------------------------------------------------------
  // The grammar

  /** What the parser holds between two records. */
  datatype Snapshot = Snapshot(state: ParseState, types: Desc.DescriptorTypeRecord, firmware: FirmwareInfo, pos: nat)

  /** The outcome of one turn of the loop of `read_record`: a record is
      returned, or a descriptor type record was read and the loop goes
      on, or the read fails. */
  datatype Outcome = Emit(record: R.Record, next: Snapshot) | Again(next: Snapshot) | Fail(error: Error)

  /** `parse_record`: the header in the 4 bytes at `pos`. */
  function HeaderAt(e: Endian, input: seq<byte>, pos: nat): H.RecordHeader
    requires pos + H.RECORD_HEADER_LEN <= |input|
  {
    H.FromRaw(e, input[pos..pos + H.RECORD_HEADER_LEN]).value.1
  }

  /** The (state, header) pairs the match of `read_record` accepts. */
  predicate Allowed(st: ParseState, h: H.RecordHeader)
  {
    match (st, h)
    case (End, _) => false
    case (_, Checksum) => true
    case (_, Filler(_)) => true
    case (TextGlobal, Text(_)) => true
    case (TextGlobal, MainHeader(_)) => true
    case (Main, DescriptorType(_)) => true
    case (Main, Text(_)) => true
    case (DescriptorType, DescriptorData(_)) => true
    case (DescriptorData, DescriptorType(_)) => true
    case (DescriptorData, Unknown(_, _)) => true
    case (DescriptorData, Text(_)) => true
    case (DescriptorData, End) => true
    case (FirmwareData, Text(_)) => true
    case (FirmwareData, Unknown(_, _)) => true
    case (FirmwareData, End) => true
    case (FirmwareData, DescriptorType(_)) => true
    case _ => false
  }

  /** One turn of the loop of `read_record` from `s` on the file `input`:
      no record after the end record, then a header, then the arm of the
      match for the state and the header. */
  function Step(e: Endian, input: seq<byte>, s: Snapshot): (o: Outcome)
    requires s.pos <= |input|
    ensures !o.Fail? ==> s.pos < o.next.pos <= |input|
  {
    if s.state == ParseState.End then Fail(ReadAfterEnd)
    else if |input| - s.pos < H.RECORD_HEADER_LEN then Fail(UnexpectedEof)
    else Dispatch(e, input, s.(pos := s.pos + H.RECORD_HEADER_LEN), HeaderAt(e, input, s.pos))
  }

  /** The match of `read_record` on the state and the header `h`, with
      `s.pos` just after the header. */
  function Dispatch(e: Endian, input: seq<byte>, s: Snapshot, h: H.RecordHeader): (o: Outcome)
    requires s.pos <= |input|
    ensures !o.Fail? ==> s.pos <= o.next.pos <= |input|
  {
    var st := s.state;
    match h
    case Checksum => ChecksumStep(input, s)
    case Filler(len) => FillerStep(input, s, len)
    case Text(len) =>
      if st.TextGlobal? || st.Main? || st.DescriptorData? || st.FirmwareData? then TextStep(input, s, len)
      else Fail(UnexpectedRecord)
    case MainHeader(len) =>
      if st.TextGlobal? then MainStep(e, input, s, len) else Fail(UnexpectedRecord)
    case DescriptorType(len) =>
      if st.Main? then TypesStep(e, input, s, len, false, true)
      else if st.DescriptorData? then TypesStep(e, input, s, len, true, true)
      // after firmware chunks the type record is read, but not kept
      else if st.FirmwareData? then TypesStep(e, input, s, len, true, false)
      else Fail(UnexpectedRecord)
    case DescriptorData(len) =>
      if st.DescriptorType? then DescriptorStep(e, input, s, len) else Fail(UnexpectedRecord)
    case Unknown(id, len) =>
      if st.DescriptorData? || st.FirmwareData? then ChunkStep(input, s, id, len) else Fail(UnexpectedRecord)
    case End =>
      if st.DescriptorData? || st.FirmwareData? then EndStep(s) else Fail(UnexpectedRecord)
  }

  /** A checkpoint, in any state. */
  function ChecksumStep(input: seq<byte>, s: Snapshot): (o: Outcome)
    requires s.pos <= |input|
    ensures !o.Fail? ==> o.next == s.(pos := s.pos + CK.LEN as int) && o.next.pos <= |input|
    ensures !o.Fail? ==> o.Emit? && o.record.Checksum?
    ensures o.Fail? ==> o.error != UnexpectedRecord
  {
    match ChecksumAt(input, s.pos)
    case Ok(c) => Emit(R.Checksum(c.0), s.(pos := s.pos + c.1))
    case Err(err) => Fail(err)
  }

  /** A filler, in any state. */
  function FillerStep(input: seq<byte>, s: Snapshot, len: u16): (o: Outcome)
    requires s.pos <= |input|
    ensures !o.Fail? ==> o.next == s.(pos := s.pos + len as int) && o.next.pos <= |input|
    ensures !o.Fail? ==> o.Emit? && o.record.Filler?
    ensures o.Fail? ==> o.error != UnexpectedRecord
  {
    match FillerAt(input[s.pos..], len)
    case Ok(f) => Emit(R.Filler(f.0), s.(pos := s.pos + f.1))
    case Err(err) => Fail(err)
  }

  /** A text record, in any state that accepts one. */
  function TextStep(input: seq<byte>, s: Snapshot, len: u16): (o: Outcome)
    requires s.pos <= |input|
    ensures !o.Fail? ==> o.next == s.(pos := s.pos + len as int) && o.next.pos <= |input|
    ensures !o.Fail? ==> o.Emit? && o.record.Text?
    ensures o.Fail? ==> o.error != UnexpectedRecord
  {
    match TR.New(input[s.pos..], len)
    case Ok(t) => Emit(R.Text(t.0), s.(pos := s.pos + t.1))
    case Err(err) => Fail(err)
  }

  /** The main record, before which only text and checkpoints come. */
  function MainStep(e: Endian, input: seq<byte>, s: Snapshot, len: u16): (o: Outcome)
    requires s.pos <= |input|
    ensures !o.Fail? ==> o.next == s.(state := Main, pos := s.pos + len as int) && o.next.pos <= |input|
    ensures !o.Fail? ==> o.Emit? && o.record.MainHeader?
    ensures o.Fail? ==> o.error != UnexpectedRecord
  {
    match MR.New(e, input[s.pos..], len)
    case Ok(m) => Emit(R.MainHeader(m.0), s.(state := Main, pos := s.pos + m.1))
    case Err(err) => Fail(err)
  }

  /** A descriptor type record: when it `closes` a block, that block's
      firmware must be complete; its types are read and, when `keep`,
      kept for the data record. Nothing is returned. */
  function TypesStep(e: Endian, input: seq<byte>, s: Snapshot, len: u16, closes: bool, keep: bool): (o: Outcome)
    requires s.pos <= |input|
    ensures !o.Fail? ==> o.Again? && o.next.state == ParseState.DescriptorType && o.next.firmware == s.firmware
    ensures !o.Fail? ==> o.next.pos == s.pos + len as int <= |input|
    ensures !o.Fail? && !keep ==> o.next.types == s.types
    ensures !o.Fail? && closes ==> s.firmware.lengthLeft == 0
    ensures o.Fail? ==> o.error != UnexpectedRecord
  {
    if closes && CloseFirmware(s.firmware).Err? then Fail(CloseFirmware(s.firmware).error)
    else
      TypeRecordError(e, input[s.pos..], len);
      match Desc.TypeRecordNew(e, input[s.pos..], len)
      case Ok(t) =>
        var kept := if keep then t.0 else s.types;
        Again(s.(state := ParseState.DescriptorType, types := kept, pos := s.pos + t.1))
      case Err(err) => Fail(err)
  }

  /** The descriptor data record that must follow a type record. */
  function DescriptorStep(e: Endian, input: seq<byte>, s: Snapshot, len: u16): (o: Outcome)
    requires s.pos <= |input|
    ensures !o.Fail? ==> o.next.state == ParseState.DescriptorData && o.next.types == s.types
    ensures !o.Fail? ==> o.next.pos == s.pos + len as int <= |input|
    ensures !o.Fail? ==> o.Emit? && o.record.Descriptor? && Announced(o.record.descriptor, o.next.firmware)
    ensures o.Fail? ==> o.error != UnexpectedRecord
  {
    match DescriptorAt(e, s.types, input[s.pos..], len)
    case Ok(d) => Emit(R.Descriptor(d.0), s.(state := ParseState.DescriptorData, firmware := d.1, pos := s.pos + d.2))
    case Err(err) => Fail(err)
  }

  /** A firmware chunk, after a descriptor or another chunk. */
  function ChunkStep(input: seq<byte>, s: Snapshot, id: u16, len: u16): (o: Outcome)
    requires s.pos <= |input|
    ensures !o.Fail? ==> o.next.state == ParseState.FirmwareData && o.next.types == s.types
    ensures !o.Fail? ==> o.next.pos == s.pos + len as int <= |input|
    ensures !o.Fail? ==>
              && o.Emit? && o.record.FirmwareData?
              && o.record.firmware.id == s.firmware.id && |o.record.firmware.Data()| == len as int
              && SameBlock(o.next.firmware, s.firmware)
              && o.next.firmware.lengthLeft as int + len as int == s.firmware.lengthLeft as int
    ensures o.Fail? ==> o.error != UnexpectedRecord
  {
    match ChunkAt(input[s.pos..], id, len, s.firmware)
    case Ok(c) => Emit(R.FirmwareData(c.0), s.(state := ParseState.FirmwareData, firmware := c.1, pos := s.pos + c.2))
    case Err(err) => Fail(err)
  }

  /** The end record, once the block's firmware is complete. */
  function EndStep(s: Snapshot): (o: Outcome)
    ensures !o.Fail? ==> o == Emit(R.End, s.(state := ParseState.End)) && s.firmware.lengthLeft == 0
    ensures o.Fail? ==> o.error != UnexpectedRecord
  {
    if CloseFirmware(s.firmware).Err? then Fail(CloseFirmware(s.firmware).error)
    else Emit(R.End, s.(state := ParseState.End))
  }

  /** `read_record`: turns of the loop until one returns a record or
      fails. */
  function Read(e: Endian, input: seq<byte>, s: Snapshot): (r: Result<(R.Record, Snapshot)>)
    requires s.pos <= |input|
    ensures r.Ok? ==> s.pos < r.value.1.pos <= |input|
    decreases |input| - s.pos
  {
    match Step(e, input, s)
    case Emit(rec, next) => Ok((rec, next))
    case Again(next) => Read(e, input, next)
    case Fail(err) => Err(err)
  }

  /** A turn that reads a type record and then a turn that returns a
      record: `read_record` returns that record. */
  lemma ReadTwoTurns(e: Endian, input: seq<byte>, s: Snapshot, t: Snapshot, rec: R.Record, u: Snapshot)
    requires s.pos <= |input| && t.pos <= |input|
    requires Step(e, input, s) == Again(t) && Step(e, input, t) == Emit(rec, u)
    ensures Read(e, input, s) == Ok((rec, u))
  {
  }

  /** `read_record` on any snapshot; a position past the end of the
      input reads as the end of the input. */
  function Next(e: Endian, input: seq<byte>, s: Snapshot): Result<(R.Record, Snapshot)>
  {
    if s.pos <= |input| then Read(e, input, s) else Err(UnexpectedEof)
  }

  /** A reader `f` called `n` times in a row: the records returned, in
      order, and the snapshot afterwards; the first error stops the run. */
  function Run(f: Snapshot -> Result<(R.Record, Snapshot)>, s: Snapshot, n: nat): (r: Result<(seq<R.Record>, Snapshot)>)
    ensures r.Ok? ==> |r.value.0| == n
    ensures n > 0 && r.Ok? ==> f(s).Ok? && f(s).value.0 == r.value.0[0]
    decreases n
  {
    if n == 0 then Ok(([], s))
    else
      match f(s)
      case Err(err) => Err(err)
      case Ok((rec, next)) =>
        match Run(f, next, n - 1)
        case Err(err) => Err(err)
        case Ok((recs, last)) => Ok(([rec] + recs, last))
  }

  /** `read_record` as a reader over snapshots. */
  function Reader(e: Endian, input: seq<byte>): Snapshot -> Result<(R.Record, Snapshot)>
  {
    t => Next(e, input, t)
  }

  /** `read_record` called `n` times in a row. */
  function ReadN(e: Endian, input: seq<byte>, s: Snapshot, n: nat): Result<(seq<R.Record>, Snapshot)>
  {
    Run(Reader(e, input), s, n)
  }

  // ---------------------------------------------------------------------
  // The parser

  /** `Parser`: the grammar state, the stream, the types of the last
      descriptor type record kept and the firmware being read. */
  class Parser {
    const e: Endian
    const file: ReadCheckSum
    var state: ParseState
    var descriptorType: Desc.DescriptorTypeRecord
    var firmware: FirmwareInfo

    ghost predicate Valid()
      reads this, file
    {
      file.Valid() && Accounted(firmware)
    }

    function Snap(): Snapshot
      reads this, file
    {
      Snapshot(state, descriptorType, firmware, file.pos)
    }

    constructor Init(e: Endian, file: ReadCheckSum)
      requires file.Valid()
      ensures Valid() && this.e == e && this.file == file
      ensures Snap() == Snapshot(TextGlobal, Desc.TypeRecord([]), NO_FIRMWARE, file.pos)
    {
      this.e := e;
      this.file := file;
      state := TextGlobal;
      descriptorType := Desc.TypeRecord([]);
      firmware := NO_FIRMWARE;
    }

    /** `Parser::new`: reads the 8-byte signature, which must be "GARMIN"
        followed by the version 100 in the parser's byte order. The sum
        already covers those 8 bytes. */
    static method New(e: Endian, input: seq<byte>) returns (r: Result<Parser>)
      ensures |input| < SIGNATURE_LEN ==> r == Err(UnexpectedEof)
      ensures |input| >= SIGNATURE_LEN && input[..6] != SIGNATURE ==> r == Err(InvalidSignature)
      ensures |input| >= SIGNATURE_LEN && input[..6] == SIGNATURE && ReadU16(e, input[6..8]) != FILE_VERSION ==>
                r == Err(InvalidVersion)
      ensures r.Ok? <==> |input| >= SIGNATURE_LEN && input[..6] == SIGNATURE && ReadU16(e, input[6..8]) == FILE_VERSION
      ensures r.Ok? ==>
                && fresh(r.value) && fresh(r.value.file) && r.value.Valid()
                && r.value.e == e && r.value.file.input == input
                && r.value.Snap() == Snapshot(TextGlobal, Desc.TypeRecord([]), NO_FIRMWARE, SIGNATURE_LEN)
    {
      var file := new ReadCheckSum(input);
      var sign :- file.ReadExact(SIGNATURE_LEN);
      if sign[..6] != SIGNATURE {
        return Err(InvalidSignature);
      }
      assert sign[6..][..2] == input[6..8];
      if ReadU16(e, sign[6..]) != FILE_VERSION {
        return Err(InvalidVersion);
      }
      var p := new Parser.Init(e, file);
      r := Ok(p);
    }

    method ParseRecord() returns (r: Result<H.RecordHeader>)
      requires Valid()
      modifies file
      ensures Valid()
      ensures old(file.pos) + H.RECORD_HEADER_LEN <= |file.input| ==>
                r == Ok(HeaderAt(e, file.input, old(file.pos))) && file.pos == old(file.pos) + H.RECORD_HEADER_LEN
      ensures old(file.pos) + H.RECORD_HEADER_LEN > |file.input| ==> r == Err(UnexpectedEof)
    {
      var header :- file.ReadExact(H.RECORD_HEADER_LEN);
      r := Ok(H.FromRaw(e, header).value.1);
    }

    method ParseChecksum() returns (r: Result<CK.ChecksumRecord>)
      requires Valid()
      modifies file
      ensures Valid()
      ensures Agrees(r, ChecksumAt(file.input, old(file.pos)))
      ensures r.Ok? ==> file.pos == old(file.pos) + CK.LEN as int
    {
      var data :- file.ReadExact(CK.LEN as nat);
      var checksum := file.Sum();
      r := CK.New(data, checksum);
    }

    method ParseFiller(len: u16) returns (r: Result<FL.FillerRecord>)
      requires Valid()
      modifies file
      ensures Valid()
      ensures Agrees(r, FillerAt(file.input[old(file.pos)..], len))
      ensures r.Ok? ==> file.pos == old(file.pos) + len as int
    {
      var data :- file.ReadExact(len as nat);
      assert file.input[old(file.pos)..][..len] == data;
      r := FL.New(data);
    }

    method ParseMainHeader(len: u16) returns (r: Result<MR.MainRecord>)
      requires Valid()
      modifies file
      ensures Valid()
      ensures Agrees(r, MR.New(e, file.input[old(file.pos)..], len))
      ensures r.Ok? ==> file.pos == old(file.pos) + len as int
    {
      if len != MR.PART_NUMBER_LEN && len != MR.HWID_LEN {
        return Err(InvalidMainRecord);
      }
      var data :- file.ReadExact(len as nat);
      ghost var rest := file.input[old(file.pos)..];
      assert rest[..len] == data && data[..len] == data;
      assert data[..2] == rest[..2];
      var m :- MR.New(e, data, len);
      r := Ok(m.0);
    }

    method ParseText(len: u16) returns (r: Result<TR.TextRecord>)
      requires Valid()
      modifies file
      ensures Valid()
      ensures Agrees(r, TR.New(file.input[old(file.pos)..], len))
      ensures r.Ok? ==> file.pos == old(file.pos) + len as int
    {
      var data :- file.ReadExact(len as nat);
      assert file.input[old(file.pos)..][..len] == data && data[..len] == data;
      r := Ok(TR.New(data, len).value.0);
    }

    method ParseDescriptorType(len: u16) returns (r: Result<Desc.DescriptorTypeRecord>)
      requires Valid()
      modifies file
      ensures Valid()
      ensures Agrees(r, Desc.TypeRecordNew(e, file.input[old(file.pos)..], len))
      ensures r.Ok? ==> file.pos == old(file.pos) + len as int
    {
      if len % 2 != 0 {
        return Err(OddDescriptorTypeLength);
      }
      var data :- file.ReadExact(len as nat);
      assert file.input[old(file.pos)..][..len] == data;
      var types :- Desc.ParseTypes(e, data);
      r := Ok(Desc.TypeRecord(types));
    }

    method ParseDescriptorData(len: u16) returns (r: Result<Desc.DescriptorRecord>)
      requires Valid()
      modifies this`firmware, file
      ensures Valid()
      ensures Agrees3(r, DescriptorAt(e, descriptorType, file.input[old(file.pos)..], len))
      ensures r.Ok? ==>
                && file.pos == old(file.pos) + len as int
                && firmware == DescriptorAt(e, descriptorType, file.input[old(file.pos)..], len).value.1
    {
      if Desc.DataLen(descriptorType) != len {
        return Err(UnexpectedDescriptorDataLength);
      }
      var data :- file.ReadExact(len as nat);
      assert file.input[old(file.pos)..][..len] == data;
      var decoded :- Desc.ParseData(e, descriptorType.types, data);
      var descriptor := Desc.DataRecord(decoded.0);
      var id, length, key := ExtractFirmware(descriptor.descs);
      match id {
        case None => return Err(FirmwareIdNotFound);
        case Some(x) => firmware := firmware.(id := x);
      }
      match length {
        case None => return Err(FirmwareLengthNotFound);
        case Some(x) => firmware := firmware.(length := x);
      }
      firmware := firmware.(xorKey := if key.Some? then key.value else 0);
      firmware := firmware.(lengthLeft := firmware.length);
      r := Ok(descriptor);
    }

    method ParseFirmwareData(id: u16, len: u16) returns (r: Result<FW.FirmwareRecord>)
      requires Valid()
      modifies this`firmware, file
      ensures Valid()
      ensures Agrees3(r, ChunkAt(file.input[old(file.pos)..], id, len, old(firmware)))
      ensures r.Ok? ==>
                && file.pos == old(file.pos) + len as int
                && firmware == ChunkAt(file.input[old(file.pos)..], id, len, old(firmware)).value.1
    {
      if id != firmware.id {
        return Err(FirmwareIdMismatch(firmware.id, id));
      }
      if firmware.lengthLeft < len as int {
        return Err(FirmwareChunkTooBig);
      }
      firmware := firmware.(lengthLeft := firmware.lengthLeft - len as int);
      var data :- file.ReadExact(len as nat);
      assert file.input[old(file.pos)..][..len] == data;
      var buf := new byte[len](i requires 0 <= i < len as int => data[i]);
      assert buf[..] == data;
      if firmware.xorKey != 0 {
        XorInPlace(buf, firmware.xorKey);
      }
      if firmware.id == TTF_FIRMWARE_ID {
        XorInPlace(buf, TTF_XOR);
      }
      r := Ok(FW.New(buf[..], id));
    }

    method CheckFirmwareEnd() returns (r: Result<()>)
      requires Valid()
      ensures r == CloseFirmware(firmware)
    {
      if firmware.lengthLeft != 0 {
        return Err(FirmwareTruncated(firmware.length as int - firmware.lengthLeft as int, firmware.length as int));
      }
      r := Ok(());
    }

    /** One turn of the loop of `read_record`. */
    method Iterate() returns (o: Outcome)
      requires Valid()
      modifies this, file
      ensures Valid()
      ensures o == Step(e, file.input, old(Snap()))
      ensures !o.Fail? ==> o.next == Snap()
    {
      if state == ParseState.End {
        return Fail(ReadAfterEnd);
      }
      var hr := ParseRecord();
      if hr.Err? {
        return Fail(hr.error);
      }
      var st := state;
      match hr.value {
        case Checksum => o := ReadChecksum();
        case Filler(len) => o := ReadFiller(len);
        case Text(len) =>
          if st.TextGlobal? || st.Main? || st.DescriptorData? || st.FirmwareData? {
            o := ReadText(len);
          } else {
            o := Fail(UnexpectedRecord);
          }
        case MainHeader(len) =>
          if st.TextGlobal? {
            o := ReadMain(len);
          } else {
            o := Fail(UnexpectedRecord);
          }
        case DescriptorType(len) =>
          if st.Main? {
            o := ReadTypes(len, false, true);
          } else if st.DescriptorData? {
            o := ReadTypes(len, true, true);
          } else if st.FirmwareData? {
            o := ReadTypes(len, true, false);
          } else {
            o := Fail(UnexpectedRecord);
          }
        case DescriptorData(len) =>
          if st.DescriptorType? {
            o := ReadDescriptor(len);
          } else {
            o := Fail(UnexpectedRecord);
          }
        case Unknown(id, len) =>
          if st.DescriptorData? || st.FirmwareData? {
            o := ReadChunk(id, len);
          } else {
            o := Fail(UnexpectedRecord);
          }
        case End =>
          if st.DescriptorData? || st.FirmwareData? {
            o := ReadEnd();
          } else {
            o := Fail(UnexpectedRecord);
          }
      }
    }

    method ReadChecksum() returns (o: Outcome)
      requires Valid()
      modifies file
      ensures Valid()
      ensures o == ChecksumStep(file.input, old(Snap()))
      ensures !o.Fail? ==> o.next == Snap()
    {
      var c := ParseChecksum();
      if c.Err? { return Fail(c.error); }
      return Emit(R.Checksum(c.value), Snap());
    }

    method ReadFiller(len: u16) returns (o: Outcome)
      requires Valid()
      modifies file
      ensures Valid()
      ensures o == FillerStep(file.input, old(Snap()), len)
      ensures !o.Fail? ==> o.next == Snap()
    {
      var f := ParseFiller(len);
      if f.Err? { return Fail(f.error); }
      return Emit(R.Filler(f.value), Snap());
    }

    method ReadText(len: u16) returns (o: Outcome)
      requires Valid()
      modifies file
      ensures Valid()
      ensures o == TextStep(file.input, old(Snap()), len)
      ensures !o.Fail? ==> o.next == Snap()
    {
      var t := ParseText(len);
      if t.Err? { return Fail(t.error); }
      return Emit(R.Text(t.value), Snap());
    }

    method ReadMain(len: u16) returns (o: Outcome)
      requires Valid()
      modifies this`state, file
      ensures Valid()
      ensures o == MainStep(e, file.input, old(Snap()), len)
      ensures !o.Fail? ==> o.next == Snap()
    {
      state := Main;
      var m := ParseMainHeader(len);
      if m.Err? { return Fail(m.error); }
      return Emit(R.MainHeader(m.value), Snap());
    }

    method ReadTypes(len: u16, closes: bool, keep: bool) returns (o: Outcome)
      requires Valid()
      modifies this`state, this`descriptorType, file
      ensures Valid()
      ensures o == TypesStep(e, file.input, old(Snap()), len, closes, keep)
      ensures !o.Fail? ==> o.next == Snap()
    {
      state := ParseState.DescriptorType;
      if closes {
        var closed := CheckFirmwareEnd();
        if closed.Err? { return Fail(closed.error); }
      }
      var t := ParseDescriptorType(len);
      if t.Err? { return Fail(t.error); }
      if keep {
        descriptorType := t.value;
      }
      return Again(Snap());
    }

    method ReadDescriptor(len: u16) returns (o: Outcome)
      requires Valid()
      modifies this`state, this`firmware, file
      ensures Valid()
      ensures o == DescriptorStep(e, file.input, old(Snap()), len)
      ensures !o.Fail? ==> o.next == Snap()
    {
      state := ParseState.DescriptorData;
      var d := ParseDescriptorData(len);
      if d.Err? { return Fail(d.error); }
      return Emit(R.Descriptor(d.value), Snap());
    }

    method ReadChunk(id: u16, len: u16) returns (o: Outcome)
      requires Valid()
      modifies this`state, this`firmware, file
      ensures Valid()
      ensures o == ChunkStep(file.input, old(Snap()), id, len)
      ensures !o.Fail? ==> o.next == Snap()
    {
      state := ParseState.FirmwareData;
      var c := ParseFirmwareData(id, len);
      if c.Err? { return Fail(c.error); }
      return Emit(R.FirmwareData(c.value), Snap());
    }

    method ReadEnd() returns (o: Outcome)
      requires Valid()
      modifies this`state
      ensures Valid()
      ensures o == EndStep(old(Snap()))
      ensures !o.Fail? ==> o.next == Snap()
    {
      state := ParseState.End;
      var closed := CheckFirmwareEnd();
      if closed.Err? { return Fail(closed.error); }
      return Emit(R.End, Snap());
    }

    /** `read_record`: the next record, skipping over descriptor type
        records, which are kept for the data record that follows. */
    method ReadRecord() returns (r: Result<R.Record>)
      requires Valid()
      modifies this, file
      ensures Valid()
      ensures r.Ok? ==> Read(e, file.input, old(Snap())) == Ok((r.value, Snap()))
      ensures r.Err? ==> Read(e, file.input, old(Snap())) == Err(r.error)
    {
      while true
        invariant Valid()
        invariant Read(e, file.input, old(Snap())) == Read(e, file.input, Snap())
        decreases |file.input| - file.pos
      {
        var o := Iterate();
        match o {
          case Emit(rec, _) => return Ok(rec);
          case Fail(err) => return Err(err);
          case Again(_) =>
        }
      }
    }
  }

  /** A method's result agrees with a reader's: the same record, or the
      same error. */
  predicate Agrees<X(==)>(r: Result<X>, spec: Result<(X, nat)>)
  {
    match spec
    case Ok(v) => r == Ok(v.0)
    case Err(err) => r == Err(err)
  }

  /** The same for a reader that also returns the new firmware state. */
  predicate Agrees3<X(==)>(r: Result<X>, spec: Result<(X, FirmwareInfo, nat)>)
  {
    match spec
    case Ok(v) => r == Ok(v.0)
    case Err(err) => r == Err(err)
  }

  // ---------------------------------------------------------------------
  // What the grammar guarantees

  /** Outside a firmware block nothing is due: before the first block,
      while a type record waits for its data record, and after the end. */
  predicate Settled(s: Snapshot)
  {
    (s.state.TextGlobal? || s.state.Main? || s.state.DescriptorType? || s.state.End?) ==> s.firmware.lengthLeft == 0
  }

  /** The firmware bytes a record carries. */
  function ChunkLen(r: R.Record): nat
  {
    if r.FirmwareData? then |r.firmware.Data()| else 0
  }

  /** The firmware bytes a run of records carries. */
  function ChunkTotal(recs: seq<R.Record>): nat
  {
    if recs == [] then 0 else ChunkLen(recs[0]) + ChunkTotal(recs[1..])
  }

  /** After the end record nothing more can be read. */
  lemma EndAbsorbs(e: Endian, input: seq<byte>, s: Snapshot)
    requires s.pos <= |input| && s.state == ParseState.End
    ensures Read(e, input, s) == Err(ReadAfterEnd)
  {
  }

  /** A checkpoint is accepted in every state before the end, exactly
      when the sum of every byte of the file up to and including its
      payload byte is 0, and it changes nothing but the position. A
      filler changes nothing but the position either. */
  lemma CheckpointAnywhere(e: Endian, input: seq<byte>, s: Snapshot)
    requires s.pos + H.RECORD_HEADER_LEN <= |input| && s.state != ParseState.End
    ensures HeaderAt(e, input, s.pos).Checksum? ==>
              var p := s.pos + H.RECORD_HEADER_LEN + CK.LEN as int;
              && (Step(e, input, s).Emit? <==> p <= |input| && ModSum(input[..p]) == 0)
              && (Step(e, input, s).Emit? ==> Step(e, input, s) == Emit(R.Checksum(CK.Simple), s.(pos := p)))
    ensures HeaderAt(e, input, s.pos).Filler? && Step(e, input, s).Emit? ==>
              Step(e, input, s).next == s.(pos := s.pos + H.RECORD_HEADER_LEN + HeaderAt(e, input, s.pos).len as int)
  {
  }

  /** A record is refused with `UnexpectedRecord` exactly when the
      grammar does not allow it in the current state; the readers of the
      allowed records fail with other errors only. */
  lemma RejectedExactly(e: Endian, input: seq<byte>, s: Snapshot)
    requires s.pos + H.RECORD_HEADER_LEN <= |input| && s.state != ParseState.End
    ensures Step(e, input, s) == Fail(UnexpectedRecord) <==> !Allowed(s.state, HeaderAt(e, input, s.pos))
  {
    var t := s.(pos := s.pos + H.RECORD_HEADER_LEN);
    var h := HeaderAt(e, input, s.pos);
    assert Step(e, input, s) == Dispatch(e, input, t, h);
    match h
    case Checksum =>
    case Filler(_) =>
    case Text(_) =>
    case MainHeader(_) =>
    case DescriptorType(_) =>
    case DescriptorData(_) =>
    case Unknown(_, _) =>
    case End =>
  }

  /** Reading a type record never fails with a grammar error. */
  lemma TypeRecordError(e: Endian, rest: seq<byte>, len: u16)
    ensures Desc.TypeRecordNew(e, rest, len).Err? ==> Desc.TypeRecordNew(e, rest, len).error != UnexpectedRecord
  {
    if len % 2 == 0 && len as int <= |rest| {
      DecodeTypesError(e, rest[..len]);
    }
  }

  /** The errors of decoding a type record payload come from decoding
      a type. */
  lemma {:induction false} DecodeTypesError(e: Endian, data: seq<byte>)
    ensures Desc.DecodeTypes(e, data).Err? ==>
              Desc.DecodeTypes(e, data).error in {DescriptorTypeTooSmall, OtherMissingLength}
              || Desc.DecodeTypes(e, data).error.UnknownDescriptorKind?
    decreases |data|
  {
    if data != [] && T.FromRaw(e, data).Ok? {
      DecodeTypesError(e, T.FromRaw(e, data).value.0);
    }
  }

  /** The types of a type record are kept for the data record that
      follows, except after firmware chunks: there the record is read
      and checked, but the types of the previous block stay. */
  lemma StaleDescriptorType(e: Endian, input: seq<byte>, s: Snapshot)
    requires s.pos + H.RECORD_HEADER_LEN <= |input|
    requires HeaderAt(e, input, s.pos).DescriptorType? && !Step(e, input, s).Fail?
    ensures s.state.Main? || s.state.DescriptorData? || s.state.FirmwareData?
    ensures Step(e, input, s).Again? && Step(e, input, s).next.state == ParseState.DescriptorType
    ensures s.state.FirmwareData? ==> Step(e, input, s).next.types == s.types
    ensures !s.state.FirmwareData? ==>
              var p := s.pos + H.RECORD_HEADER_LEN;
              Ok((Step(e, input, s).next.types, HeaderAt(e, input, s.pos).len as nat))
                == Desc.TypeRecordNew(e, input[p..], HeaderAt(e, input, s.pos).len)
  {
  }

  /** One record keeps nothing due outside a firmware block. */
  lemma StepSettled(e: Endian, input: seq<byte>, s: Snapshot)
    requires s.pos <= |input| && Settled(s) && !Step(e, input, s).Fail?
    ensures Settled(Step(e, input, s).next)
  {
    var t := s.(pos := s.pos + H.RECORD_HEADER_LEN);
    var h := HeaderAt(e, input, s.pos);
    var o := Dispatch(e, input, t, h);
    assert Step(e, input, s) == o;
    match h
    case Checksum => assert o == ChecksumStep(input, t);
    case Filler(len) => assert o == FillerStep(input, t, len);
    case Text(len) => assert o == TextStep(input, t, len);
    case MainHeader(len) => assert o == MainStep(e, input, t, len);
    case DescriptorType(len) =>
      if s.state.Main? {
        assert o == TypesStep(e, input, t, len, false, true);
      } else if s.state.DescriptorData? {
        assert o == TypesStep(e, input, t, len, true, true);
      } else {
        assert o == TypesStep(e, input, t, len, true, false);
      }
    case DescriptorData(len) => assert o == DescriptorStep(e, input, t, len);
    case Unknown(id, len) => assert o == ChunkStep(input, t, id, len);
    case End => assert o == EndStep(t);
  }

  /** One record other than a descriptor leaves the block as it is, but
      for the length of a chunk. */
  lemma StepFirmware(e: Endian, input: seq<byte>, s: Snapshot)
    requires s.pos <= |input|
    requires Step(e, input, s).Again? || (Step(e, input, s).Emit? && !Step(e, input, s).record.Descriptor?)
    ensures var o := Step(e, input, s);
            var n := if o.Emit? then ChunkLen(o.record) else 0;
            && SameBlock(o.next.firmware, s.firmware)
            && o.next.firmware.lengthLeft as int + n == s.firmware.lengthLeft as int
            && (o.Emit? && o.record.FirmwareData? ==> o.record.firmware.id == s.firmware.id)
  {
    var t := s.(pos := s.pos + H.RECORD_HEADER_LEN);
    var h := HeaderAt(e, input, s.pos);
    var o := Dispatch(e, input, t, h);
    assert Step(e, input, s) == o;
    match h
    case Checksum => assert o == ChecksumStep(input, t);
    case Filler(len) => assert o == FillerStep(input, t, len);
    case Text(len) => assert o == TextStep(input, t, len);
    case MainHeader(len) => assert o == MainStep(e, input, t, len);
    case DescriptorType(len) =>
      if s.state.Main? {
        assert o == TypesStep(e, input, t, len, false, true);
      } else if s.state.DescriptorData? {
        assert o == TypesStep(e, input, t, len, true, true);
      } else {
        assert o == TypesStep(e, input, t, len, true, false);
      }
    case DescriptorData(_) =>
    case Unknown(id, len) => assert o == ChunkStep(input, t, id, len);
    case End => assert o == EndStep(t);
  }

  /** A descriptor record follows a type record and announces a block. */
  lemma StepDescriptor(e: Endian, input: seq<byte>, s: Snapshot)
    requires s.pos <= |input|
    requires Step(e, input, s).Emit? && Step(e, input, s).record.Descriptor?
    ensures s.state.DescriptorType?
    ensures Step(e, input, s).next.state.DescriptorData?
    ensures Announced(Step(e, input, s).record.descriptor, Step(e, input, s).next.firmware)
  {
    var t := s.(pos := s.pos + H.RECORD_HEADER_LEN);
    var h := HeaderAt(e, input, s.pos);
    var o := Dispatch(e, input, t, h);
    assert Step(e, input, s) == o;
    match h
    case Checksum =>
    case Filler(_) =>
    case Text(_) =>
    case MainHeader(_) =>
    case DescriptorType(_) =>
    case DescriptorData(len) => assert o == DescriptorStep(e, input, t, len);
    case Unknown(_, _) =>
    case End =>
  }

  /** A checkpoint record sums everything read to 0. */
  lemma StepCheckpoint(e: Endian, input: seq<byte>, s: Snapshot)
    requires s.pos <= |input|
    requires Step(e, input, s).Emit? && Step(e, input, s).record.Checksum?
    ensures ModSum(input[..Step(e, input, s).next.pos]) == 0
  {
    var t := s.(pos := s.pos + H.RECORD_HEADER_LEN);
    var h := HeaderAt(e, input, s.pos);
    var o := Dispatch(e, input, t, h);
    assert Step(e, input, s) == o;
    match h
    case Checksum => assert o == ChecksumStep(input, t);
    case Filler(_) =>
    case Text(_) =>
    case MainHeader(_) =>
    case DescriptorType(_) =>
    case DescriptorData(_) =>
    case Unknown(_, _) =>
    case End =>
  }

  /** A type record, the end record and a descriptor record come when
      nothing is due. */
  lemma StepClosing(e: Endian, input: seq<byte>, s: Snapshot)
    requires s.pos <= |input| && Settled(s)
    requires Step(e, input, s).Again? || (Step(e, input, s).Emit? && (Step(e, input, s).record.End? || Step(e, input, s).record.Descriptor?))
    ensures s.firmware.lengthLeft == 0
  {
    var t := s.(pos := s.pos + H.RECORD_HEADER_LEN);
    var h := HeaderAt(e, input, s.pos);
    var o := Dispatch(e, input, t, h);
    assert Step(e, input, s) == o;
    match h
    case Checksum =>
    case Filler(_) =>
    case Text(_) =>
    case MainHeader(_) =>
    case DescriptorType(len) =>
      if s.state.Main? {
        assert o == TypesStep(e, input, t, len, false, true);
      } else if s.state.DescriptorData? {
        assert o == TypesStep(e, input, t, len, true, true);
      } else {
        assert o == TypesStep(e, input, t, len, true, false);
      }
    case DescriptorData(len) => assert o == DescriptorStep(e, input, t, len);
    case Unknown(_, _) =>
    case End => assert o == EndStep(t);
  }

  /** The end record ends the file. */
  lemma StepEnd(e: Endian, input: seq<byte>, s: Snapshot)
    requires s.pos <= |input|
    requires Step(e, input, s).Emit? && Step(e, input, s).record.End?
    ensures Step(e, input, s).next.state.End?
  {
    var t := s.(pos := s.pos + H.RECORD_HEADER_LEN);
    var h := HeaderAt(e, input, s.pos);
    var o := Dispatch(e, input, t, h);
    assert Step(e, input, s) == o;
    match h
    case Checksum =>
    case Filler(_) =>
    case Text(_) =>
    case MainHeader(_) =>
    case DescriptorType(_) =>
    case DescriptorData(_) =>
    case Unknown(_, _) =>
    case End => assert o == EndStep(t);
  }

  /** A type record that decodes is read, and its codes kept, after the
      main record and after a block with nothing still due. */
  lemma StepTypeRecord(e: Endian, input: seq<byte>, s: Snapshot, len: u16, tr: Desc.DescriptorTypeRecord, n: nat,
                       next: nat)
    requires s.pos + H.RECORD_HEADER_LEN <= |input| && HeaderAt(e, input, s.pos) == H.DescriptorType(len)
    requires s.state.Main? || (s.state.DescriptorData? && s.firmware.lengthLeft == 0)
    requires Desc.TypeRecordNew(e, input[s.pos + H.RECORD_HEADER_LEN..], len) == Ok((tr, n))
    requires next == s.pos + H.RECORD_HEADER_LEN + n
    ensures Step(e, input, s) == Again(s.(state := ParseState.DescriptorType, types := tr, pos := next))
  {
  }

  /** A data record that decodes under the kept codes, and whose values
      give a firmware id and length, is returned and opens the block it
      announces. */
  lemma StepDataRecord(e: Endian, input: seq<byte>, s: Snapshot, len: u16, d: Desc.DescriptorRecord, n: nat,
                       fw: FirmwareInfo)
    requires s.pos + H.RECORD_HEADER_LEN <= |input| && HeaderAt(e, input, s.pos) == H.DescriptorData(len)
    requires s.state.DescriptorType?
    requires Desc.DataRecordNew(e, s.types, input[s.pos + H.RECORD_HEADER_LEN..], len) == Ok((d, n))
    requires Announced(d, fw)
    ensures Step(e, input, s) == Emit(R.Descriptor(d), s.(state := ParseState.DescriptorData, firmware := fw,
                                                          pos := s.pos + H.RECORD_HEADER_LEN + n))
  {
    var t := s.(pos := s.pos + H.RECORD_HEADER_LEN);
    var key := Found(KeyOf, d.descs);
    assert fw == FirmwareInfo(Found(IdOf, d.descs).value, if key.Some? then key.value else 0,
                              Found(LenOf, d.descs).value, Found(LenOf, d.descs).value);
    assert DescriptorAt(e, s.types, input[t.pos..], len) == Ok((d, fw, n));
    assert Step(e, input, s) == Dispatch(e, input, t, H.DescriptorData(len));
  }

  /** A checkpoint record is returned only when the sum of every byte
      read so far, signature included, is 0. */
  lemma {:induction false} ReadCheckpoint(e: Endian, input: seq<byte>, s: Snapshot)
    requires s.pos <= |input| && Read(e, input, s).Ok? && Read(e, input, s).value.0.Checksum?
    ensures ModSum(input[..Read(e, input, s).value.1.pos]) == 0
    decreases |input| - s.pos
  {
    var o := Step(e, input, s);
    if o.Again? {
      ReadCheckpoint(e, input, o.next);
    } else {
      StepCheckpoint(e, input, s);
    }
  }

  /** Reading keeps nothing due outside a firmware block. */
  lemma {:induction false} ReadSettled(e: Endian, input: seq<byte>, s: Snapshot)
    requires s.pos <= |input| && Settled(s) && Read(e, input, s).Ok?
    ensures Settled(Read(e, input, s).value.1)
    decreases |input| - s.pos
  {
    var o := Step(e, input, s);
    StepSettled(e, input, s);
    if o.Again? {
      ReadSettled(e, input, o.next);
    }
  }

  /** A record other than a descriptor leaves the firmware block as it
      is, except that a chunk takes its length off what is still due;
      a chunk always carries the block's firmware id. */
  lemma {:induction false} ReadFirmware(e: Endian, input: seq<byte>, s: Snapshot)
    requires s.pos <= |input| && Read(e, input, s).Ok? && !Read(e, input, s).value.0.Descriptor?
    ensures SameBlock(Read(e, input, s).value.1.firmware, s.firmware)
    ensures Read(e, input, s).value.1.firmware.lengthLeft as int + ChunkLen(Read(e, input, s).value.0)
              == s.firmware.lengthLeft as int
    ensures Read(e, input, s).value.0.FirmwareData? ==> Read(e, input, s).value.0.firmware.id == s.firmware.id
    decreases |input| - s.pos
  {
    var o := Step(e, input, s);
    StepFirmware(e, input, s);
    if o.Again? {
      ReadFirmware(e, input, o.next);
    }
  }

  /** A descriptor record opens a firmware block: what it announces is
      due in full, and the parser waits for chunks. */
  lemma {:induction false} ReadDescriptor(e: Endian, input: seq<byte>, s: Snapshot)
    requires s.pos <= |input| && Read(e, input, s).Ok? && Read(e, input, s).value.0.Descriptor?
    ensures Read(e, input, s).value.1.state.DescriptorData?
    ensures Announced(Read(e, input, s).value.0.descriptor, Read(e, input, s).value.1.firmware)
    decreases |input| - s.pos
  {
    var o := Step(e, input, s);
    if o.Again? {
      ReadDescriptor(e, input, o.next);
    } else {
      StepDescriptor(e, input, s);
    }
  }

  /** After the end record nothing more can be read. */
  lemma {:induction false} ReadEnd(e: Endian, input: seq<byte>, s: Snapshot)
    requires s.pos <= |input| && Read(e, input, s).Ok? && Read(e, input, s).value.0.End?
    ensures Read(e, input, Read(e, input, s).value.1) == Err(ReadAfterEnd)
    decreases |input| - s.pos
  {
    var o := Step(e, input, s);
    if o.Again? {
      ReadEnd(e, input, o.next);
    } else {
      StepEnd(e, input, s);
    }
  }

  /** A block can only be closed, by the end record or by the next type
      record, once all of its firmware has been read. */
  lemma ReadClosing(e: Endian, input: seq<byte>, s: Snapshot)
    requires s.pos <= |input| && Settled(s) && Read(e, input, s).Ok?
    requires Read(e, input, s).value.0.End? || Read(e, input, s).value.0.Descriptor?
    ensures s.firmware.lengthLeft == 0
  {
    StepClosing(e, input, s);
  }

  /** No record of the run is a descriptor. */
  predicate NoDescriptor(recs: seq<R.Record>)
  {
    recs == [] || (!recs[0].Descriptor? && NoDescriptor(recs[1..]))
  }

  /** Every chunk of the run carries the firmware id `id`. */
  predicate ChunksOf(recs: seq<R.Record>, id: u16)
  {
    recs == [] || ((recs[0].FirmwareData? ==> recs[0].firmware.id == id) && ChunksOf(recs[1..], id))
  }

  /** `k` calls of a reader are one call followed by `k - 1` calls. */
  lemma RunCons(f: Snapshot -> Result<(R.Record, Snapshot)>, s: Snapshot, k: nat, recs: seq<R.Record>, last: Snapshot)
    requires k > 0 && Run(f, s, k) == Ok((recs, last))
    ensures f(s).Ok? && f(s).value.0 == recs[0] && Run(f, f(s).value.1, k - 1) == Ok((recs[1..], last))
  {
    var more := Run(f, f(s).value.1, k - 1).value.0;
    assert recs == [f(s).value.0] + more;
  }

  /** A reader that keeps snapshots settled keeps them settled over any
      number of calls. */
  lemma {:induction false} RunSettled(f: Snapshot -> Result<(R.Record, Snapshot)>, s: Snapshot, k: nat,
                                      recs: seq<R.Record>, last: Snapshot)
    requires forall t :: Settled(t) && f(t).Ok? ==> Settled(f(t).value.1)
    requires Settled(s) && Run(f, s, k) == Ok((recs, last))
    ensures Settled(last)
    decreases k
  {
    if k > 0 {
      RunCons(f, s, k, recs, last);
      RunSettled(f, f(s).value.1, k - 1, recs[1..], last);
    }
  }

  /** What a reader does to the firmware block with each record other
      than a descriptor: it keeps the block, takes a chunk's length off
      what is due, and a chunk carries the block's id. */
  predicate KeepsBlock(f: Snapshot -> Result<(R.Record, Snapshot)>, t: Snapshot)
  {
    f(t).Ok? && !f(t).value.0.Descriptor? ==>
      SameBlock(f(t).value.1.firmware, t.firmware) &&
      f(t).value.1.firmware.lengthLeft as int + ChunkLen(f(t).value.0) == t.firmware.lengthLeft as int &&
      (f(t).value.0.FirmwareData? ==> f(t).value.0.firmware.id == t.firmware.id)
  }

  /** Over calls that return no descriptor, the chunks returned carry the
      block's id and take their lengths off what is due, and nothing else
      of the block changes. */
  lemma {:induction false} RunAccount(f: Snapshot -> Result<(R.Record, Snapshot)>, s: Snapshot, k: nat,
                                      recs: seq<R.Record>, last: Snapshot)
    requires forall t :: KeepsBlock(f, t)
    requires Run(f, s, k) == Ok((recs, last)) && NoDescriptor(recs)
    ensures SameBlock(last.firmware, s.firmware)
    ensures last.firmware.lengthLeft as int + ChunkTotal(recs) == s.firmware.lengthLeft as int
    ensures ChunksOf(recs, s.firmware.id)
    decreases k
  {
    if k > 0 {
      RunCons(f, s, k, recs, last);
      assert KeepsBlock(f, s);
      RunAccount(f, f(s).value.1, k - 1, recs[1..], last);
    }
  }

  /** `read_record` keeps settled snapshots settled. */
  lemma NextSettled(e: Endian, input: seq<byte>)
    ensures forall t :: Settled(t) && Reader(e, input)(t).Ok? ==> Settled(Reader(e, input)(t).value.1)
  {
    forall t | Settled(t) && Reader(e, input)(t).Ok?
      ensures Settled(Reader(e, input)(t).value.1)
    {
      ReadSettled(e, input, t);
    }
  }

  /** `read_record` keeps the firmware block, record by record. */
  lemma NextKeepsBlock(e: Endian, input: seq<byte>)
    ensures forall t :: KeepsBlock(Reader(e, input), t)
  {
    forall t
      ensures KeepsBlock(Reader(e, input), t)
    {
      if Next(e, input, t).Ok? && !Next(e, input, t).value.0.Descriptor? {
        ReadFirmware(e, input, t);
      }
    }
  }

  /** A firmware block delivers exactly the firmware its descriptor
      announces: when the records after a descriptor hold no other
      descriptor and the block is then closed, the chunks among them
      carry the descriptor's firmware id and, together, its firmware
      length. */
  lemma BlockComplete(e: Endian, input: seq<byte>, s0: Snapshot, d: Desc.DescriptorRecord, s1: Snapshot,
                      k: nat, recs: seq<R.Record>, s2: Snapshot)
    requires Next(e, input, s0) == Ok((R.Descriptor(d), s1))
    requires ReadN(e, input, s1, k) == Ok((recs, s2)) && NoDescriptor(recs)
    requires Next(e, input, s2).Ok? && (Next(e, input, s2).value.0.End? || Next(e, input, s2).value.0.Descriptor?)
    ensures Found(LenOf, d.descs).Some? && Found(LenOf, d.descs).value as int == ChunkTotal(recs)
    ensures Found(IdOf, d.descs) == Some(s1.firmware.id) && ChunksOf(recs, s1.firmware.id)
  {
    ReadDescriptor(e, input, s0);
    NextSettled(e, input);
    RunSettled(Reader(e, input), s1, k, recs, s2);
    NextKeepsBlock(e, input);
    RunAccount(Reader(e, input), s1, k, recs, s2);
    ReadClosing(e, input, s2);
  }
}
