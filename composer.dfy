/** Writing a GCD file: the signature, then records one after the other,
    with a running byte sum kept for the checkpoint records. */
module GcdComposer {
  import opened Bytes
  import opened Wrappers
  import H = Header
  import R = Records
  import CK = Checksum
  import FL = Filler
  import MR = MainRec
  import TR = TextRec
  import FW = Firmware
  import Desc = Descriptor
  import P = GcdParser

  // ---------------------------------------------------------------------
  // The bytes written

  /** The 8 bytes `Composer::new` writes: "GARMIN" and the version 100. */
  function Signature(e: Endian): (r: seq<byte>)
    ensures |r| == P.SIGNATURE_LEN
  {
    P.SIGNATURE + WriteU16(e, P.FILE_VERSION)
  }

  /** A record the composer can write without panicking: lengths that
      fit their 16-bit fields, and descriptor values that fit the buffer
      exactly as `record_data_to_raw` copies them. */
  predicate Composable(r: R.Record)
  {
    match r
    case Text(t) => |t.Value()| < 0x1_0000
    case FirmwareData(f) => |f.Data()| < 0x1_0000
    case Descriptor(d) =>
      && Desc.TypesSize(Desc.TypesOf(d.descs)) < 0x1_0000
      && Desc.DataSize(Desc.TypesOf(d.descs)) < 0x1_0000
      && Desc.OtherFits(d.descs, Desc.DataSize(Desc.TypesOf(d.descs)))
    case _ => true
  }

  // ---------------------------------------------------------------------
  // The writer

  /** `WriteCheckSum`: the bytes written to the file so far and the
      wrapping sum of all of them. */
  class WriteCheckSum {
    var out: seq<byte>
    var sum: byte

    predicate Valid()
      reads this
    {
      sum == ModSum(out)
    }

    constructor ()
      ensures out == [] && Valid()
    {
      out := [];
      sum := 0;
    }

    function Sum(): (r: byte)
      requires Valid()
      reads this
      ensures r == ModSum(out)
    {
      sum
    }

    /** `write`: the file takes all of `buf`, and each byte of it is
        added to the running sum. */
    method Write(buf: seq<byte>)
      requires Valid()
      modifies this
      ensures Valid() && out == old(out) + buf
      ensures sum == WrappingAdd(old(sum), ModSum(buf))
    {
      out := out + buf;
      var i := 0;
      assert old(out) + buf[..0] == old(out);
      while i < |buf|
        invariant 0 <= i <= |buf|
        invariant out == old(out) + buf
        invariant sum == ModSum(old(out) + buf[..i])
      {
        assert old(out) + buf[..i + 1] == (old(out) + buf[..i]) + [buf[i]];
        ModSumSnoc(old(out) + buf[..i], buf[i]);
        sum := WrappingAdd(sum, buf[i]);
        i := i + 1;
      }
      assert buf[..i] == buf;
      ModSumAppend(old(out), buf);
    }
  }

  /** `Composer`: a writer with its byte order. */
  class Composer {
    const e: Endian
    const file: WriteCheckSum

    predicate Valid()
      reads this, file
    {
      file.Valid()
    }

    constructor Init(e: Endian, file: WriteCheckSum)
      ensures this.e == e && this.file == file
    {
      this.e := e;
      this.file := file;
    }

    /** `Composer::new`: writes the signature and the version. */
    static method New(e: Endian) returns (c: Composer)
      ensures fresh(c) && fresh(c.file) && c.Valid()
      ensures c.e == e && c.file.out == Signature(e)
    {
      var sign := new byte[P.SIGNATURE_LEN](_ => 0);
      WriteAt(sign, 0, P.SIGNATURE);
      ghost var mid := sign[..];
      WriteAt(sign, 6, WriteU16(e, P.FILE_VERSION));
      WrittenThen(seq(P.SIGNATURE_LEN, _ => 0), mid, sign[..], 0, P.SIGNATURE, WriteU16(e, P.FILE_VERSION));
      WrittenWhole(seq(P.SIGNATURE_LEN, _ => 0), sign[..], Signature(e));
      var file := new WriteCheckSum();
      file.Write(sign[..]);
      c := new Composer.Init(e, file);
    }

    /** `write_record_raw`: an Unknown header with the id and the length
        cut to 16 bits, then the data as it is. */
    method WriteRecordRaw(id: u16, data: seq<byte>)
      requires Valid()
      modifies file
      ensures Valid()
      ensures file.out == old(file.out) + H.HeaderBytes(e, H.Unknown(id, |data| % 0x1_0000)) + data
    {
      WriteRecordHeader(H.Unknown(id, |data| % 0x1_0000));
      file.Write(data);
    }

    /** `write_record`: each kind of record through its own writer. */
    method WriteRecord(r: R.Record)
      requires Valid() && Composable(r)
      modifies file
      ensures Valid()
      ensures r.Checksum? ==> file.out == old(file.out) + CK.RecordBytes(e, old(file.sum))
      ensures r.Filler? ==> file.out == old(file.out) + FL.RecordBytes(e, r.filler)
      ensures r.MainHeader? ==> file.out == old(file.out) + MR.RecordBytes(e, r.main)
      ensures r.Text? ==> file.out == old(file.out) + TR.RecordBytes(e, r.text)
      ensures r.Descriptor? ==>
                file.out == old(file.out) + Desc.TypeRecordBytes(e, r.descriptor) + Desc.DataRecordBytes(e, r.descriptor)
      ensures r.FirmwareData? ==> file.out == old(file.out) + FW.RecordBytes(e, r.firmware)
      ensures r.End? ==> file.out == old(file.out) + H.HeaderBytes(e, H.End)
    {
      match r
      case Checksum(_) => WriteCheckPoint();
      case Filler(f) => WriteFiller(f);
      case MainHeader(m) => WriteMain(m);
      case Text(t) => WriteText(t);
      case Descriptor(d) => WriteDescriptor(d);
      case FirmwareData(f) => WriteFirmware(f);
      case End => WriteEnd();
    }

    /** `write_record_header`: id then length. */
    method WriteRecordHeader(h: H.RecordHeader)
      requires Valid()
      modifies file
      ensures Valid() && file.out == old(file.out) + H.HeaderBytes(e, h)
    {
      var buf := new byte[H.RECORD_HEADER_LEN](_ => 0);
      var r := H.ToRaw(e, h, buf, 0);
      WrittenWhole(seq(H.RECORD_HEADER_LEN, _ => 0), buf[..], H.HeaderBytes(e, h));
      file.Write(buf[..]);
    }

    /** `write_end`: the end header, (0xFFFF, 0). */
    method WriteEnd()
      requires Valid()
      modifies file
      ensures Valid() && file.out == old(file.out) + H.HeaderBytes(e, H.End)
    {
      WriteRecordHeader(H.End);
    }

    /** `write_firmware`: the chunk's Unknown header and its bytes. */
    method WriteFirmware(f: FW.FirmwareRecord)
      requires Valid() && |f.Data()| < 0x1_0000
      modifies file
      ensures Valid() && file.out == old(file.out) + FW.RecordBytes(e, f)
    {
      var buf := new byte[f.Len() as nat + H.RECORD_HEADER_LEN](_ => 0);
      var r := FW.RecordToRaw(e, f, buf, 0);
      WrittenWhole(seq(f.Len() as nat + H.RECORD_HEADER_LEN, _ => 0), buf[..], FW.RecordBytes(e, f));
      file.Write(buf[..]);
    }

    /** `write_check_point`: the checksum record for the sum so far,
        after which the sum of the whole file is 0. */
    method WriteCheckPoint()
      requires Valid()
      modifies file
      ensures Valid() && file.out == old(file.out) + CK.RecordBytes(e, old(file.sum))
      ensures file.sum == 0
    {
      var buf := new byte[CK.LEN as nat + H.RECORD_HEADER_LEN](_ => 0);
      var r := CK.RecordToRaw(e, buf, 0, file.Sum());
      WrittenWhole(seq(CK.LEN as nat + H.RECORD_HEADER_LEN, _ => 0), buf[..], CK.RecordBytes(e, file.sum));
      ghost var sum := file.sum;
      file.Write(buf[..]);
      CK.RecordBytesCloseSum(e, sum);
    }

    /** `write_filler`: the filler header and its zeros. */
    method WriteFiller(f: FL.FillerRecord)
      requires Valid()
      modifies file
      ensures Valid() && file.out == old(file.out) + FL.RecordBytes(e, f)
    {
      var buf := new byte[f.Len() as nat + H.RECORD_HEADER_LEN](_ => 0);
      var r := FL.RecordToRaw(e, f, buf, 0);
      WrittenWhole(seq(f.Len() as nat + H.RECORD_HEADER_LEN, _ => 0), buf[..], FL.RecordBytes(e, f));
      file.Write(buf[..]);
    }

    /** `write_main`: the main header record. */
    method WriteMain(m: MR.MainRecord)
      requires Valid()
      modifies file
      ensures Valid() && file.out == old(file.out) + MR.RecordBytes(e, m)
    {
      var buf := new byte[m.Len() as nat + H.RECORD_HEADER_LEN](_ => 0);
      var r := MR.RecordToRaw(e, m, buf, 0);
      WrittenWhole(seq(m.Len() as nat + H.RECORD_HEADER_LEN, _ => 0), buf[..], MR.RecordBytes(e, m));
      file.Write(buf[..]);
    }

    /** `write_text`: the text header and the text's bytes. */
    method WriteText(t: TR.TextRecord)
      requires Valid() && |t.Value()| < 0x1_0000
      modifies file
      ensures Valid() && file.out == old(file.out) + TR.RecordBytes(e, t)
    {
      var buf := new byte[t.Len() as nat + H.RECORD_HEADER_LEN](_ => 0);
      var r := TR.RecordToRaw(e, t, buf, 0);
      WrittenWhole(seq(t.Len() as nat + H.RECORD_HEADER_LEN, _ => 0), buf[..], TR.RecordBytes(e, t));
      file.Write(buf[..]);
    }

    /** `write_descriptor`: the type record, then the data record, built
        in one buffer and written together. */
    method WriteDescriptor(d: Desc.DescriptorRecord)
      requires Valid() && Composable(R.Descriptor(d))
      modifies file
      ensures Valid()
      ensures file.out == old(file.out) + Desc.TypeRecordBytes(e, d) + Desc.DataRecordBytes(e, d)
    {
      var bytes := DescriptorBytes(e, d);
      file.Write(bytes);
      AppendAssoc(old(file.out), Desc.TypeRecordBytes(e, d), Desc.DataRecordBytes(e, d));
    }
  }

  /** The buffer `write_descriptor` fills: the descriptor type record
      followed by the descriptor data record, each `to_raw` writing into
      the room the other left. */
  method DescriptorBytes(e: Endian, d: Desc.DescriptorRecord) returns (bytes: seq<byte>)
    requires Composable(R.Descriptor(d))
    ensures bytes == Desc.TypeRecordBytes(e, d) + Desc.DataRecordBytes(e, d)
  {
    DescriptorRoom(e, d);
    var typeLen := Desc.RecordTypeLen(d) as nat;
    var dataLen := Desc.RecordDataLen(d) as nat;
    ghost var typeBytes := Desc.TypeRecordBytes(e, d);
    ghost var dataBytes := Desc.DataRecordBytes(e, d);
    var buf := new byte[typeLen + dataLen + 2 * H.RECORD_HEADER_LEN](_ => 0);
    ghost var zeros := buf[..];
    var cur := Desc.RecordTypeToRaw(e, d, buf, 0);
    ghost var mid := buf[..];
    var end := Desc.RecordDataToRaw(e, d, buf, cur.value);
    WrittenThen(zeros, mid, buf[..], 0, typeBytes, dataBytes);
    WrittenWhole(zeros, buf[..], typeBytes + dataBytes);
    bytes := buf[..];
  }

  /** The room `write_descriptor` allocates: both u16 sums are exact, and
      every Other value fills what is left of it. */
  lemma DescriptorRoom(e: Endian, d: Desc.DescriptorRecord)
    requires Composable(R.Descriptor(d))
    ensures Desc.RecordTypeLen(d) as int == Desc.TypesSize(Desc.TypesOf(d.descs))
    ensures Desc.RecordDataLen(d) as int == Desc.DataSize(Desc.TypesOf(d.descs))
    ensures |Desc.TypeRecordBytes(e, d)| == H.RECORD_HEADER_LEN + Desc.RecordTypeLen(d) as int
    ensures |Desc.DataRecordBytes(e, d)| == H.RECORD_HEADER_LEN + Desc.RecordDataLen(d) as int
    ensures Desc.OtherFits(d.descs, Desc.RecordDataLen(d) as int)
  {
    Desc.OtherFitsSize(e, d.descs, Desc.RecordDataLen(d) as int);
  }

  // ---------------------------------------------------------------------
  // Properties

  /** The parser accepts what `Composer::new` writes, whatever follows. */
  lemma SignatureAccepted(e: Endian, rest: seq<byte>)
    ensures |Signature(e) + rest| >= P.SIGNATURE_LEN
    ensures (Signature(e) + rest)[..6] == P.SIGNATURE
    ensures ReadU16(e, (Signature(e) + rest)[6..8]) == P.FILE_VERSION
  {
    var input := Signature(e) + rest;
    assert input[..6] == P.SIGNATURE;
    assert input[6..8] == WriteU16(e, P.FILE_VERSION);
    ReadWriteU16(e, P.FILE_VERSION, []);
    assert WriteU16(e, P.FILE_VERSION) + [] == WriteU16(e, P.FILE_VERSION);
  }

  /** A header written after any bytes `out` is read back at `|out|`,
      whatever follows it. */
  lemma HeaderReadBack(e: Endian, out: seq<byte>, h: H.RecordHeader, rest: seq<byte>)
    requires h.Unknown? ==> !H.Reserved(h.id, h.len)
    ensures P.HeaderAt(e, out + H.HeaderBytes(e, h) + rest, |out|) == h
  {
    var input := out + H.HeaderBytes(e, h) + rest;
    assert input[|out|..|out| + H.RECORD_HEADER_LEN] == H.HeaderBytes(e, h) + [];
    H.FromRawHeaderBytes(e, h, []);
  }

  /** The text record `write_text` appends: its header and its
      payload are read back at `|out|`. */
  lemma TextBytesBack(e: Endian, out: seq<byte>, t: TR.TextRecord, rest: seq<byte>)
    requires |t.Value()| < 0x1_0000 && TR.Canonical(t)
    ensures |out + TR.RecordBytes(e, t) + rest| >= |out| + H.RECORD_HEADER_LEN
    ensures P.HeaderAt(e, out + TR.RecordBytes(e, t) + rest, |out|) == H.Text(t.Len())
    ensures TR.New((out + TR.RecordBytes(e, t) + rest)[|out| + H.RECORD_HEADER_LEN..], t.Len())
              == Ok((t, |t.Value()|))
  {
    var input := out + TR.RecordBytes(e, t) + rest;
    var h := H.Text(t.Len());
    AppendAssoc(out, H.HeaderBytes(e, h), t.Value());
    AppendAssoc(out + H.HeaderBytes(e, h), t.Value(), rest);
    assert input == out + H.HeaderBytes(e, h) + (t.Value() + rest);
    HeaderReadBack(e, out, h, t.Value() + rest);
    assert input[|out| + H.RECORD_HEADER_LEN..] == t.Value() + rest;
    TR.NewRecordPayload(t, rest);
  }

  /** What `write_text` appends is read back by `read_record` as the same
      text record, in every state that allows text. */
  lemma TextReadBack(e: Endian, out: seq<byte>, t: TR.TextRecord, rest: seq<byte>, s: P.Snapshot)
    requires |t.Value()| < 0x1_0000 && TR.Canonical(t) && s.pos == |out|
    requires s.state.TextGlobal? || s.state.Main? || s.state.DescriptorData? || s.state.FirmwareData?
    ensures P.Step(e, out + TR.RecordBytes(e, t) + rest, s)
              == P.Emit(R.Text(t), s.(pos := |out| + |TR.RecordBytes(e, t)|))
  {
    TextBytesBack(e, out, t, rest);
  }

  /** The main record `write_main` appends: its header and its payload
      are read back at `|out|`. */
  lemma MainBytesBack(e: Endian, out: seq<byte>, m: MR.MainRecord, rest: seq<byte>)
    ensures |out + MR.RecordBytes(e, m) + rest| >= |out| + H.RECORD_HEADER_LEN
    ensures P.HeaderAt(e, out + MR.RecordBytes(e, m) + rest, |out|) == H.MainHeader(m.Len())
    ensures MR.New(e, (out + MR.RecordBytes(e, m) + rest)[|out| + H.RECORD_HEADER_LEN..], m.Len())
              == Ok((m, m.Len() as nat))
  {
    var input := out + MR.RecordBytes(e, m) + rest;
    var h := H.MainHeader(m.Len());
    AppendAssoc(out, H.HeaderBytes(e, h), MR.Payload(e, m));
    AppendAssoc(out + H.HeaderBytes(e, h), MR.Payload(e, m), rest);
    assert input == out + H.HeaderBytes(e, h) + (MR.Payload(e, m) + rest);
    HeaderReadBack(e, out, h, MR.Payload(e, m) + rest);
    assert input[|out| + H.RECORD_HEADER_LEN..] == MR.Payload(e, m) + rest;
    MR.NewPayload(e, m, rest);
  }

  /** What `write_main` appends is read back as the same main record,
      after which the parser expects the body of the file. */
  lemma MainReadBack(e: Endian, out: seq<byte>, m: MR.MainRecord, rest: seq<byte>, s: P.Snapshot)
    requires s.pos == |out| && s.state.TextGlobal?
    ensures P.Step(e, out + MR.RecordBytes(e, m) + rest, s)
              == P.Emit(R.MainHeader(m), s.(state := P.Main, pos := |out| + |MR.RecordBytes(e, m)|))
  {
    MainBytesBack(e, out, m, rest);
  }

  /** The chunk `write_firmware` appends: an Unknown header, when its id
      and length are not claimed by another kind of record, and its
      payload are read back at `|out|`. */
  lemma ChunkBytesBack(e: Endian, out: seq<byte>, f: FW.FirmwareRecord, rest: seq<byte>)
    requires |f.Data()| < 0x1_0000 && !H.Reserved(f.id, f.Len())
    ensures |out + FW.RecordBytes(e, f) + rest| >= |out| + H.RECORD_HEADER_LEN
    ensures P.HeaderAt(e, out + FW.RecordBytes(e, f) + rest, |out|) == H.Unknown(f.id, f.Len())
    ensures (out + FW.RecordBytes(e, f) + rest)[|out| + H.RECORD_HEADER_LEN..][..f.Len()] == f.Data()
  {
    var input := out + FW.RecordBytes(e, f) + rest;
    var h := H.Unknown(f.id, f.Len());
    assert input == out + H.HeaderBytes(e, h) + (f.Data() + rest);
    HeaderReadBack(e, out, h, f.Data() + rest);
    assert input[|out| + H.RECORD_HEADER_LEN..] == f.Data() + rest;
  }

  /** What `write_firmware` appends inside a firmware block is read back
      as a chunk of that block: the payload decrypted with the block's
      key, and its length taken off what is still due. */
  lemma ChunkReadBack(e: Endian, out: seq<byte>, f: FW.FirmwareRecord, rest: seq<byte>, s: P.Snapshot)
    requires |f.Data()| < 0x1_0000 && !H.Reserved(f.id, f.Len())
    requires s.pos == |out| && (s.state.DescriptorData? || s.state.FirmwareData?)
    requires f.id == s.firmware.id && |f.Data()| <= s.firmware.lengthLeft as int
    ensures P.Step(e, out + FW.RecordBytes(e, f) + rest, s)
              == P.Emit(R.FirmwareData(FW.New(P.Decrypt(f.Data(), s.firmware.xorKey, f.id), f.id)),
                        s.(state := P.ParseState.FirmwareData,
                           firmware := s.firmware.(lengthLeft := s.firmware.lengthLeft - |f.Data()|),
                           pos := |out| + |FW.RecordBytes(e, f)|))
  {
    ChunkBytesBack(e, out, f, rest);
  }

  /** What `write_check_point` appends after the bytes `out` is accepted
      as a checkpoint in every state before the end. */
  lemma CheckpointReadBack(e: Endian, out: seq<byte>, rest: seq<byte>, s: P.Snapshot)
    requires s.pos == |out| && !s.state.End?
    ensures P.Step(e, out + CK.RecordBytes(e, ModSum(out)) + rest, s)
              == P.Emit(R.Checksum(CK.Simple), s.(pos := |out| + |CK.RecordBytes(e, ModSum(out))|))
  {
    var input := out + CK.RecordBytes(e, ModSum(out)) + rest;
    var h := H.RecordHeader.Checksum;
    assert input == out + H.HeaderBytes(e, h) + ([CK.PayloadByte(e, ModSum(out))] + rest);
    HeaderReadBack(e, out, h, [CK.PayloadByte(e, ModSum(out))] + rest);
    CheckpointAccepted(e, out, rest);
    P.CheckpointAnywhere(e, input, s);
  }

  /** What `write_end` appends is read back as the end record once the
      firmware announced has been read in full. */
  lemma EndReadBack(e: Endian, out: seq<byte>, rest: seq<byte>, s: P.Snapshot)
    requires s.pos == |out| && (s.state.DescriptorData? || s.state.FirmwareData?) && s.firmware.lengthLeft == 0
    ensures P.Step(e, out + H.HeaderBytes(e, H.End) + rest, s)
              == P.Emit(R.End, s.(state := P.ParseState.End, pos := |out| + H.RECORD_HEADER_LEN))
  {
    HeaderReadBack(e, out, H.End, rest);
  }

  /** The filler `write_filler` appends: its header and its zeros are
      read back at `|out|`. */
  lemma FillerBytesBack(e: Endian, out: seq<byte>, f: FL.FillerRecord, rest: seq<byte>)
    ensures |out + FL.RecordBytes(e, f) + rest| >= |out| + H.RECORD_HEADER_LEN
    ensures P.HeaderAt(e, out + FL.RecordBytes(e, f) + rest, |out|) == H.Filler(f.len)
    ensures P.FillerAt((out + FL.RecordBytes(e, f) + rest)[|out| + H.RECORD_HEADER_LEN..], f.len)
              == Ok((f, f.len as nat))
  {
    var input := out + FL.RecordBytes(e, f) + rest;
    var h := H.Filler(f.len);
    var zeros := FL.Zeroes(f.len as nat);
    AppendAssoc(out, H.HeaderBytes(e, h), zeros);
    AppendAssoc(out + H.HeaderBytes(e, h), zeros, rest);
    assert input == out + H.HeaderBytes(e, h) + (zeros + rest);
    HeaderReadBack(e, out, h, zeros + rest);
    assert input[|out| + H.RECORD_HEADER_LEN..] == zeros + rest;
    assert (zeros + rest)[..f.len] == zeros;
    FL.NewZeroes(f.len);
  }

  /** What `write_filler` appends is read back as the same filler, in
      every state before the end, and leaves the state as it was. */
  lemma FillerReadBack(e: Endian, out: seq<byte>, f: FL.FillerRecord, rest: seq<byte>, s: P.Snapshot)
    requires s.pos == |out| && !s.state.End?
    ensures P.Step(e, out + FL.RecordBytes(e, f) + rest, s)
              == P.Emit(R.Filler(f), s.(pos := |out| + |FL.RecordBytes(e, f)|))
  {
    FillerBytesBack(e, out, f, rest);
  }

  /** The type record `write_descriptor` appends is read back at `|out|`
      as the types of the values. */
  lemma TypeRecordBack(e: Endian, out: seq<byte>, d: Desc.DescriptorRecord, rest: seq<byte>)
    requires Composable(R.Descriptor(d)) && Desc.AllCanonical(d.descs)
    ensures |out + Desc.TypeRecordBytes(e, d) + rest| >= |out| + H.RECORD_HEADER_LEN
    ensures P.HeaderAt(e, out + Desc.TypeRecordBytes(e, d) + rest, |out|) == H.DescriptorType(Desc.RecordTypeLen(d))
    ensures Desc.TypeRecordNew(e, (out + Desc.TypeRecordBytes(e, d) + rest)[|out| + H.RECORD_HEADER_LEN..],
                               Desc.RecordTypeLen(d))
              == Ok((Desc.TypeRecord(Desc.TypesOf(d.descs)), |Desc.TypeRecordBytes(e, d)| - H.RECORD_HEADER_LEN))
  {
    DescriptorRoom(e, d);
    var input := out + Desc.TypeRecordBytes(e, d) + rest;
    var h := H.DescriptorType(Desc.RecordTypeLen(d));
    var types := Desc.EncodeTypes(e, Desc.TypesOf(d.descs));
    AppendAssoc(out, H.HeaderBytes(e, h), types);
    AppendAssoc(out + H.HeaderBytes(e, h), types, rest);
    assert input == out + H.HeaderBytes(e, h) + (types + rest);
    HeaderReadBack(e, out, h, types + rest);
    assert input[|out| + H.RECORD_HEADER_LEN..] == types + rest;
    Desc.RecordsRoundTrip(e, d, rest);
  }

  /** The data record `write_descriptor` appends is read back at `|out|`,
      under the types of its values, as the descriptor itself. */
  lemma DataRecordBack(e: Endian, out: seq<byte>, d: Desc.DescriptorRecord, rest: seq<byte>)
    requires Composable(R.Descriptor(d)) && Desc.AllCanonical(d.descs)
    ensures |out + Desc.DataRecordBytes(e, d) + rest| >= |out| + H.RECORD_HEADER_LEN
    ensures P.HeaderAt(e, out + Desc.DataRecordBytes(e, d) + rest, |out|) == H.DescriptorData(Desc.RecordDataLen(d))
    ensures Desc.DataRecordNew(e, Desc.TypeRecord(Desc.TypesOf(d.descs)),
                               (out + Desc.DataRecordBytes(e, d) + rest)[|out| + H.RECORD_HEADER_LEN..],
                               Desc.RecordDataLen(d))
              == Ok((d, |Desc.DataRecordBytes(e, d)| - H.RECORD_HEADER_LEN))
  {
    DescriptorRoom(e, d);
    var input := out + Desc.DataRecordBytes(e, d) + rest;
    var h := H.DescriptorData(Desc.RecordDataLen(d));
    var data := Desc.EncodeData(e, d.descs);
    AppendAssoc(out, H.HeaderBytes(e, h), data);
    AppendAssoc(out + H.HeaderBytes(e, h), data, rest);
    assert input == out + H.HeaderBytes(e, h) + (data + rest);
    HeaderReadBack(e, out, h, data + rest);
    assert input[|out| + H.RECORD_HEADER_LEN..] == data + rest;
    Desc.RecordsRoundTrip(e, d, rest);
  }

  /** The type record `write_descriptor` appends is read, and its types
      kept, after the main record or after a block whose firmware is
      complete; nothing is returned yet. */
  lemma TypesReadBack(e: Endian, out: seq<byte>, d: Desc.DescriptorRecord, rest: seq<byte>, s: P.Snapshot)
    requires Composable(R.Descriptor(d)) && Desc.AllCanonical(d.descs)
    requires s.pos == |out| && (s.state.Main? || (s.state.DescriptorData? && s.firmware.lengthLeft == 0))
    ensures P.Step(e, out + Desc.TypeRecordBytes(e, d) + rest, s)
              == P.Again(s.(state := P.ParseState.DescriptorType, types := Desc.TypeRecord(Desc.TypesOf(d.descs)),
                            pos := |out| + |Desc.TypeRecordBytes(e, d)|))
  {
    var input := out + Desc.TypeRecordBytes(e, d) + rest;
    var tr := Desc.TypeRecord(Desc.TypesOf(d.descs));
    TypeRecordBack(e, out, d, rest);
    assert |Desc.TypeRecordBytes(e, d)| >= H.RECORD_HEADER_LEN;
    var n := |Desc.TypeRecordBytes(e, d)| - H.RECORD_HEADER_LEN;
    assert s.pos + H.RECORD_HEADER_LEN <= |input|;
    assert P.HeaderAt(e, input, s.pos) == H.DescriptorType(Desc.RecordTypeLen(d));
    assert Desc.TypeRecordNew(e, input[s.pos + H.RECORD_HEADER_LEN..], Desc.RecordTypeLen(d)) == Ok((tr, n));
    P.StepTypeRecord(e, input, s, Desc.RecordTypeLen(d), tr, n, |out| + |Desc.TypeRecordBytes(e, d)|);
  }

  /** The data record `write_descriptor` appends, read under the types of
      its values, is returned as the descriptor itself, with the firmware
      it announces. */
  lemma DataReadBack(e: Endian, out: seq<byte>, d: Desc.DescriptorRecord, rest: seq<byte>,
                     s: P.Snapshot, fw: P.FirmwareInfo)
    requires Composable(R.Descriptor(d)) && Desc.AllCanonical(d.descs) && P.Announced(d, fw)
    requires s.pos == |out| && s.state.DescriptorType? && s.types == Desc.TypeRecord(Desc.TypesOf(d.descs))
    ensures P.Step(e, out + (Desc.DataRecordBytes(e, d) + rest), s)
              == P.Emit(R.Descriptor(d), s.(state := P.ParseState.DescriptorData, firmware := fw,
                                           pos := |out| + |Desc.DataRecordBytes(e, d)|))
  {
    DataRecordBack(e, out, d, rest);
    AppendAssoc(out, Desc.DataRecordBytes(e, d), rest);
    P.StepDataRecord(e, out + Desc.DataRecordBytes(e, d) + rest, s, Desc.RecordDataLen(d),
                     d, |Desc.DataRecordBytes(e, d)| - H.RECORD_HEADER_LEN, fw);
  }

  /** What `write_descriptor` appends opens a firmware block: after the
      main record, or after a block whose firmware is complete, the first
      turn reads the type record and keeps its types, and the second
      returns the descriptor itself, with the firmware it announces (so
      `read_record` returns it, by `ReadTwoTurns`). */
  lemma DescriptorReadBack(e: Endian, out: seq<byte>, d: Desc.DescriptorRecord, rest: seq<byte>,
                           s: P.Snapshot, fw: P.FirmwareInfo)
    requires Composable(R.Descriptor(d)) && Desc.AllCanonical(d.descs) && P.Announced(d, fw)
    requires s.pos == |out| && (s.state.Main? || (s.state.DescriptorData? && s.firmware.lengthLeft == 0))
    ensures var before := out + Desc.TypeRecordBytes(e, d);
            var input := before + (Desc.DataRecordBytes(e, d) + rest);
            var typed := s.(state := P.ParseState.DescriptorType, types := Desc.TypeRecord(Desc.TypesOf(d.descs)),
                            pos := |out| + |Desc.TypeRecordBytes(e, d)|);
            && P.Step(e, input, s) == P.Again(typed)
            && P.Step(e, input, typed)
               == P.Emit(R.Descriptor(d), typed.(state := P.ParseState.DescriptorData, firmware := fw,
                                                pos := |before| + |Desc.DataRecordBytes(e, d)|))
  {
    var before := out + Desc.TypeRecordBytes(e, d);
    var typed := s.(state := P.ParseState.DescriptorType, types := Desc.TypeRecord(Desc.TypesOf(d.descs)),
                    pos := |out| + |Desc.TypeRecordBytes(e, d)|);
    TypesReadBack(e, out, d, Desc.DataRecordBytes(e, d) + rest, s);
    DataReadBack(e, before, d, rest, typed, fw);
  }


  /** A checkpoint written after any bytes `out` is accepted by the
      parser's checksum reader, whatever follows it: the sum of the file
      up to and including its payload byte is 0. */
  lemma CheckpointAccepted(e: Endian, out: seq<byte>, rest: seq<byte>)
    ensures P.ChecksumAt(out + CK.RecordBytes(e, ModSum(out)) + rest, |out| + H.RECORD_HEADER_LEN).Ok?
  {
    var c := ModSum(out);
    var written := out + CK.RecordBytes(e, c);
    var input := written + rest;
    assert |written| == |out| + H.RECORD_HEADER_LEN + 1;
    assert input[..|written|] == written;
    ModSumAppend(out, CK.RecordBytes(e, c));
    CK.RecordBytesCloseSum(e, c);
    assert ModSum(input[..|written|]) == 0;
  }

  lemma ModSum3(a: byte, b: byte, c: byte)
    ensures ModSum([a, b, c]) == WrappingAdd(WrappingAdd(a, b), c)
  {
    var s1: seq<byte> := [a];
    var s2: seq<byte> := [a, b];
    var s3: seq<byte> := [a, b, c];
    assert ModSum(s1) == a by { assert s1[..0] == []; }
    assert ModSum(s2) == WrappingAdd(a, b) by { assert s2[..1] == s1; }
    assert s3[..2] == s2;
  }

  lemma ModSum6(a: byte, b: byte, c: byte, d: byte, e: byte, f: byte)
    ensures ModSum([a, b, c, d, e, f]) == WrappingAdd(WrappingAdd(WrappingAdd(a, b), c), WrappingAdd(WrappingAdd(d, e), f))
  {
    assert [a, b, c, d, e, f] == [a, b, c] + [d, e, f];
    ModSumAppend([a, b, c], [d, e, f]);
    ModSum3(a, b, c);
    ModSum3(d, e, f);
  }

  lemma SignatureSum()
    ensures ModSum(P.SIGNATURE) == 0xBE
  {
    ModSum6(0x47, 0x41, 0x52, 0x4D, 0x49, 0x4E);
  }

  lemma VersionSum(e: Endian)
    ensures ModSum(WriteU16(e, P.FILE_VERSION)) == 0x64
  {
    var v := WriteU16(e, P.FILE_VERSION);
    if e.LE? {
      assert v == [0x64, 0x00];
      ModSumSnoc([], 0x64);
      ModSumSnoc([0x64], 0x00);
    } else {
      assert v == [0x00, 0x64];
      ModSumSnoc([], 0x00);
      ModSumSnoc([0x00], 0x64);
    }
  }

  lemma ChecksumHeaderSum(e: Endian)
    ensures ModSum(H.HeaderBytes(e, H.RecordHeader.Checksum)) == 2
  {
    var u := WriteU16(e, 1);
    assert H.HeaderBytes(e, H.RecordHeader.Checksum) == u + u;
    if e.LE? {
      assert u == [0x01, 0x00];
    } else {
      assert u == [0x00, 0x01];
    }
    ModSumSnoc([], u[0]);
    ModSumSnoc([u[0]], u[1]);
    assert [u[0], u[1]] == u;
    ModSumAppend(u, u);
  }

  /** The first checkpoint of a file, straight after the signature,
      carries the byte 0xDC in either byte order. */
  lemma FirstCheckpoint(e: Endian)
    ensures CK.RecordBytes(e, ModSum(Signature(e))) == H.HeaderBytes(e, H.RecordHeader.Checksum) + [0xDC]
  {
    ModSumAppend(P.SIGNATURE, WriteU16(e, P.FILE_VERSION));
    SignatureSum();
    VersionSum(e);
    ChecksumHeaderSum(e);
    assert ModSum(Signature(e)) == 0x22;
  }

  /** The sum the composer's tests expect: the writes 0x1, 0x2, 0x3 0x4
      and 0x1 0 0 0 0 0 0x1, each adding its bytes to the running sum
      from 0, leave a sum whose negation is 244. */
  lemma WrittenSumExample()
    ensures WrappingNeg(WrappingAdd(WrappingAdd(WrappingAdd(WrappingAdd(0, ModSum([0x1])), ModSum([0x2])),
                                                ModSum([0x3, 0x4])), ModSum([0x1, 0, 0, 0, 0, 0, 0x1]))) == 244
  {
    ModSumSnoc([], 0x1);
    ModSumSnoc([], 0x2);
    assert [0x1] == [] + [0x1] && [0x2] == [] + [0x2];
    assert [0x3, 0x4] == [0x3] + [0x4];
    ModSumSnoc([0x3], 0x4);
    ModSumSnoc([], 0x3);
    assert [0x3] == [] + [0x3];
    assert [0x1, 0, 0, 0, 0, 0, 0x1] == [0x1, 0, 0, 0, 0, 0] + [0x1];
    ModSumSnoc([0x1, 0, 0, 0, 0, 0], 0x1);
    ModSum6(0x1, 0, 0, 0, 0, 0);
  }

  /** Zero bytes add nothing to the sum. */
  lemma {:induction false} ZeroSum(n: nat)
    ensures ModSum(FL.Zeroes(n)) == 0
  {
    if n > 0 {
      ZeroSum(n - 1);
      assert FL.Zeroes(n) == FL.Zeroes(n - 1) + [0];
      ModSumSnoc(FL.Zeroes(n - 1), 0);
    }
  }

  /** The end record is the header 0xFFFF, 0 in the file's byte order. */
  lemma EndBytes(e: Endian)
    ensures H.HeaderBytes(e, H.End) == [0xFF, 0xFF, 0x00, 0x00]
  {
  }
}
