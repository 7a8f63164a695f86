# A verified model of the GCD firmware container (gcd-rs)

A GCD file is Garmin's container for firmware updates. It starts with an
8-byte signature: "GARMIN" followed by the format version 100, written as
a 16-bit word. After the signature comes a stream of records. Each record
has a 4-byte header (a 16-bit id and a 16-bit payload length, in the
file's byte order) and then its payload. The grammar of the stream is

    C* M C* (DT DD FD* C*)+ E

Here:

- C is a checkpoint.
- M is the main record.
- DT and DD are a descriptor type record and its descriptor data record.
  Together they announce a firmware block.
- FD is a firmware chunk.
- E is the end record.

Text and filler records may appear almost anywhere. A checkpoint's single
payload byte is chosen so that the wrapping byte sum of the whole file,
up to and including that byte, is 0.

This project models gcd-rs in Dafny. It treats the file as a byte
sequence and either byte order as a parameter `Endian`. It has one module
per source file:

- `Header` models the record header (`lib.rs`).
- `Version` models the version word (`version.rs`).
- `PartNumber` models the 72-bit part number (`part_number.rs`).
- `Checksum`, `Filler`, `MainRec`, `TextRec` and `Firmware` model the
  record kinds.
- `DescType`, `DescData` and `Descriptor` model the descriptor type
  codes, the descriptor values and the descriptor type/data record pair.
- `GcdParser` models the parser (`parser.rs`).
  - The stream is the class `ReadCheckSum`, which keeps a running sum
    over the bytes read.
  - The parser itself is the class `Parser`.
  - Each turn of the loop of `read_record` is also given as a pure
    function, `Step`, over a `Snapshot` of the parser's state. Each
    method is proved equal to its function.
  - The grammar's guarantees are lemmas about `Step` and `Read`.
- `GcdComposer` models the composer (`composer.rs`).
  - It has the classes `WriteCheckSum` and `Composer`. The written file
    is a sequence field.
  - Every writer is proved to append exactly the bytes of its record.
  - Lemmas prove that the parser reads back what each record writer
    appends: the signature, checkpoints, fillers, the main record, texts,
    descriptors, chunks and the end record.
- `Bytes` stands in for the `byteorder` crate and for Rust's wrapping
  `u8` arithmetic.
- `Wrappers` holds `Option`, `Result` and the error taxonomy.
- `Records` holds the `Record` enum.

The functions that fill a buffer (`to_raw`, `record_to_raw`) are methods
on arrays. Each is proved to write exactly the bytes of a pure encoding
function into the window it is given and to leave the rest of the buffer
alone (`Bytes.Written`). The decoders are functions. Each decoder is
proved to invert its encoding.

## Model

| member | source | states |
|---|---|---|
| Bytes.ReadWriteU16 | src/lib.rs:114-139 | a 16-bit word written in either byte order reads back as the same word |
| Bytes.ReadWriteU32 | src/record/descriptor/descriptor_data.rs:22-78 | a 32-bit word written in either byte order reads back as the same word |
| Bytes.ReadWriteU64 | src/record/descriptor/descriptor_data.rs:22-78 | a 64-bit word written in either byte order reads back as the same word |
| Bytes.ReadWriteUint | src/record/main.rs:80-95 | an n-byte unsigned integer below 256^n, written in either byte order, reads back unchanged |
| Bytes.WriteReadUint | src/part_number.rs:78-104 | any n bytes, read as an integer and written back, give the same bytes |
| Bytes.ReadUintInjective | src/part_number.rs:78-104 | two byte strings of one length that read as the same integer are equal |
| Bytes.ModSumAppend | src/composer.rs:24-30 | the wrapping byte sum of a concatenation is the wrapping sum of the parts' sums, so summing write by write equals summing the whole file |
| Bytes.WrappingNegCancels | src/record/checksum.rs:47-52 | adding the wrapping negation of a sum brings it to 0 |
| Bytes.WrappingNegUnique | src/record/checksum.rs:26-55 | the wrapping negation is the only byte that brings a sum to 0 |
| Bytes.WrappingAddAssoc | src/composer.rs:24-30 | wrapping byte addition is associative |
| Bytes.BitXorInvolution | src/parser.rs:405-412 | XORing a byte twice with the same key gives the byte back |
| Bytes.Xor8Involution | src/parser.rs:405-412 | the 8-bit XOR used on firmware bytes undoes itself |
| Bytes.Xor8Zero | src/parser.rs:405-407 | XOR with key 0 leaves a byte unchanged |
| Bytes.WriteAt | src/lib.rs:126-139 | copying bytes into a buffer at an offset writes exactly those bytes there and leaves the rest of the buffer unchanged |
| Bytes.DivModUnique | src/record/descriptor/descriptor_type.rs:77-99 | quotient and remainder are determined by any decomposition x = m*a + t with 0 <= t < m |
| Version.NewRaw | src/version.rs:33-41 | 0xFFFF means no version; any other word gives a minor below 100 and major*100+minor equal to the word |
| Version.New | src/version.rs:43-45 | the version keeps the major and minor it is given, and reads back through `value` then `new_raw` exactly when the minor is below 100 and major*100+minor is below 0xFFFF |
| Version.Value | src/version.rs:47-52 | no version is 0xFFFF; a version whose value fits 16 bits is stored as major*100+minor |
| Version.ValueNewRaw | src/version.rs:33-52 | every 16-bit word survives `new_raw` followed by `value`, and `new_raw` yields only canonical versions |
| Version.NewRawValue | src/version.rs:33-52 | `value` followed by `new_raw` gives back exactly the canonical versions |
| Version.NewRawExample | src/version.rs:11-13 | the word 380 is version 3.80 |
| Header.RecordHeader.Id | src/lib.rs:71-83 | a header of a known kind reports an id that, with its length, classifies as that kind |
| Header.RecordHeader.Len | src/lib.rs:84-96 | a checkpoint's length is always 1 and the end's always 0 |
| Header.FromValue | src/lib.rs:97-112 | the id and length are kept; the header is a checkpoint exactly for (1, 1), the end exactly for (0xFFFF, 0), and Unknown exactly when the pair is claimed by no known record kind |
| Header.FromValueOfHeader | src/lib.rs:71-112 | every header whose id/length pair is not claimed by another kind is reconstructed from its id and length |
| Header.FromValueOfReservedUnknown | src/lib.rs:97-112 | an Unknown header carrying a reserved id and length does not survive the round trip |
| Header.HeaderBytes | src/lib.rs:126-139 | a header is encoded in 4 bytes |
| Header.FromRaw | src/lib.rs:114-124 | fewer than 4 bytes is an error; otherwise the first 4 bytes are the encoding of the header returned and the rest is returned untouched |
| Header.FromRawHeaderBytes | src/lib.rs:114-139 | decoding an encoded header returns the rest of the input and the header rebuilt from its id and length, which is the header itself when not reserved |
| Header.ToRaw | src/lib.rs:126-139 | short room is an error that writes nothing; otherwise exactly the header's 4 bytes are written at the offset and the offset after them is returned |
| Checksum.New | src/record/checksum.rs:26-35 | a checkpoint is accepted exactly when one byte was read and the running sum including it is 0 |
| Checksum.ChecksumRecord.Len | src/record/checksum.rs:36-38 | a checkpoint's payload is one byte, the length its header carries |
| Checksum.RecordBytes | src/record/checksum.rs:41-55 | a checkpoint record is a 4-byte header and one byte |
| Checksum.RecordBytesCloseSum | src/record/checksum.rs:41-55 | after the checkpoint record is added to the running sum, the sum is 0 |
| Checksum.AcceptedPayloadByte | src/record/checksum.rs:26-55 | whatever the sum before it, a checkpoint whose payload byte brings the sum to 0 is accepted |
| Checksum.RecordToRaw | src/record/checksum.rs:41-55 | short room is an error that writes nothing; otherwise exactly the record's bytes are written at the offset |
| Filler.FillerRecord.Header | src/record/filler.rs:40-42 | the filler header carries the filler id and the filler's length |
| Filler.FillerRecord.Len | src/record/filler.rs:35-37 | a filler's length is its number of zeros: that many zero bytes build the same filler |
| Filler.New | src/record/filler.rs:26-34 | a filler is rejected exactly when some byte is not 0; otherwise it records the number of bytes, cut to 16 bits |
| Filler.NewZeroes | src/record/filler.rs:26-34 | n zero bytes read back as the filler of length n |
| Filler.NewRejectsNonZero | src/record/filler.rs:26-34 | any non-zero byte makes the filler invalid |
| Filler.RecordBytes | src/record/filler.rs:43-50 | a filler record is a header and as many bytes as its length |
| Filler.RecordToRaw | src/record/filler.rs:43-50 | short room is an error that writes nothing; otherwise exactly the header and the zeros are written at the offset |
| Firmware.FirmwareRecord.Len | src/record/firmware.rs:57-62 | a chunk's length is the number of its data bytes |
| Firmware.New | src/record/firmware.rs:50-56 | the chunk keeps its id and data; it is the empty chunk exactly when the data is empty |
| Firmware.NewOfRecord | src/record/firmware.rs:50-74 | rebuilding a chunk from its id and data gives it back, except that a chunk with no data becomes the empty chunk |
| Firmware.RecordBytes | src/record/firmware.rs:75-88 | a chunk record is a header and the chunk's data |
| Firmware.RecordToRaw | src/record/firmware.rs:75-88 | short room is an error that writes nothing; otherwise exactly the header and the data are written at the offset |
| TextRec.LeadLen | src/record/text.rs:31-37 | the length of a UTF-8 sequence that a lead byte announces is at most 4 and within the input |
| TextRec.TextRecord.Value | src/record/text.rs:45-50 | the payload is the bytes either variant carries |
| TextRec.TextRecord.Len | src/record/text.rs:39-44 | a text's length is the number of its bytes |
| TextRec.New | src/record/text.rs:28-38 | a short input is an end of file; otherwise the record holds exactly the len bytes read, as text when they are UTF-8 and as a blob otherwise |
| TextRec.RecordBytes | src/record/text.rs:51-56 | a text record is a header and the text's bytes |
| TextRec.NewRecordPayload | src/record/text.rs:28-56 | the payload of any text record reads back with the same bytes, and as the same record when it is in its canonical form |
| TextRec.Utf8Examples | src/record/text.rs:31-37 | "Aç" is UTF-8; a lone continuation byte and an encoded surrogate are not |
| TextRec.RecordToRaw | src/record/text.rs:51-56 | short room is an error that writes nothing; otherwise exactly the header and the text are written at the offset |
| MainRec.PartNumberFits | src/record/main.rs:84-88 | the default part number fits its 9 bytes |
| MainRec.MainRecord.Len | src/record/main.rs:74-79 | the length tells the two main records apart: 9 only for the part number, 2 only for the hardware id |
| MainRec.Payload | src/record/main.rs:84-91 | each main record's payload is as long as its declared length |
| MainRec.New | src/record/main.rs:38-72 | only the lengths 9 and 2 are accepted; a short input is an end of file; the record is accepted exactly when the value read is the known part number or hardware id, and is then the bytes read |
| MainRec.NewPayload | src/record/main.rs:38-95 | each main record's payload reads back as the same record |
| MainRec.RecordBytes | src/record/main.rs:80-95 | a main record is a header and its payload |
| MainRec.RecordToRaw | src/record/main.rs:80-95 | short room is an error that writes nothing; otherwise exactly the header and the payload are written at the offset |
| PartNumber.Base6 | src/part_number.rs:85-88 | each 6-bit group of the value is below 64 |
| PartNumber.GroupChar | src/part_number.rs:92 | each group becomes a character in the 64 characters starting at the offset |
| PartNumber.Groups | src/part_number.rs:89-96 | the value becomes as many characters as requested |
| PartNumber.GroupsValueGroups | src/part_number.rs:89-96 | the characters, read back as base-64 digits, are the value modulo 64^n, so no group is lost |
| PartNumber.GetValue | src/part_number.rs:89-96 | the loop writes, most significant first, the character of each 6-bit group of the value |
| PartNumber.GroupsOfValue | src/part_number.rs:89-96 | any characters in the 64-character range are the characters of their own base-64 value |
| PartNumber.DecimalValue | src/part_number.rs:52-58 | a string of n decimal digits has a value below 10^n |
| PartNumber.DigitsWidth | src/part_number.rs:122-132 | a number is written in at most w digits exactly when it is below 10^w |
| PartNumber.PadDigits | src/part_number.rs:121-132 | the decimal digits of n padded with zeros to width w are the fixed-width rendering of n |
| PartNumber.DecimalValueFixed | src/part_number.rs:121-132 | the fixed-width decimal rendering of n reads back as n |
| PartNumber.FixedDecimalValue | src/part_number.rs:121-132 | any digit string is the fixed-width rendering of its own value |
| PartNumber.ToStringFixed | src/part_number.rs:121-132 | the text of a printable part number is its four fields at widths 3, 1, 4 and 2, joined by dashes |
| PartNumber.ToString | src/part_number.rs:122-132 | the text is the 12 characters of the fixed layout exactly when every field fits its width |
| PartNumber.Parse | src/part_number.rs:46-76 | parsing succeeds exactly on text of the shape ddd-Xdddd-dd, and fails otherwise with the parse error; the kind, hardware id and release are the decimal values of the three digit runs, the hardware kind is the byte X minus '0' with u8 wrap-around, and the rest of the input is returned |
| PartNumber.ParseToString | src/part_number.rs:46-132 | the text of a printable part number parses back as the same part number, whatever follows it |
| PartNumber.ToStringParse | src/part_number.rs:46-132 | text that parses, with a digit as its hardware kind, prints back as itself |
| PartNumber.FromRaw | src/part_number.rs:78-104 | fewer than 9 bytes is an error; otherwise the 72-bit value is interpreted as 12 characters, which are parsed |
| PartNumber.RawCharsInjective | src/part_number.rs:78-104 | different 9-byte raw part numbers give different 12-character texts |
| PartNumber.FromStr | src/part_number.rs:106-118 | fewer than 12 bytes is a size error; otherwise the text is accepted exactly when it has the part number's shape, and then as what `parse` gives |
| PartNumber.FromStrToString | src/part_number.rs:106-132 | the text of a printable part number is read back by `from_str` as itself |
| PartNumber.ExampleValue | src/part_number.rs:139-153 | the test's 9 raw bytes are the same 72-bit value in either byte order |
| PartNumber.ExampleText | src/part_number.rs:139-153 | that value is the text 010-10037-00 |
| PartNumber.ExampleToString | src/part_number.rs:139-153 | part number 10, 1, 37, 0 prints as 010-10037-00 |
| PartNumber.ExampleParse | src/part_number.rs:139-153 | 010-10037-00 parses as 10, 1, 37, 0 |
| PartNumber.ExampleFromRaw | src/part_number.rs:139-153 | the raw test bytes, in either byte order, decode to the expected part number |
| PartNumber.ExampleRejections | src/part_number.rs:155-168 | a text that is too short and one with multi-byte characters are rejected as the tests expect |
| DescType.DescriptorType.Kind | src/record/descriptor/descriptor_type.rs:77-86 | every type code's kind is one of the six kinds 0 to 5 |
| DescType.DescriptorType.Id | src/record/descriptor/descriptor_type.rs:87-96 | the end code reports the id 3, and a canonical code's id fits 12 bits |
| DescType.DescriptorType.Len | src/record/descriptor/descriptor_type.rs:100-109 | a type code takes 2 bytes, or 4 for Other, which also carries a length |
| DescType.DescriptorType.DataLen | src/record/descriptor/descriptor_type.rs:110-119 | the value announced by a fixed-size code takes 2^kind bytes (1, 2, 4 or 8), that of Other its own length, the end none |
| DescType.DescriptorType.Value | src/record/descriptor/descriptor_type.rs:97-99 | the 16-bit value of a canonical type code is its kind times 0x1000 plus its id |
| DescType.SplitValue | src/record/descriptor/descriptor_type.rs:97-99 | the kind and id are recovered from that value by division and remainder |
| DescType.TypeBytes | src/record/descriptor/descriptor_type.rs:53-76 | a type code is written in as many bytes as its length |
| DescType.WordKind | src/record/descriptor/descriptor_type.rs:28-29 | the kind of a code, as the upper four bits of its high byte, is below 16 |
| DescType.WordKindRead | src/record/descriptor/descriptor_type.rs:28-29 | the kind read from the high byte equals the 16-bit word divided by 0x1000, as `value >> 12` does in either byte order |
| DescType.FromRaw | src/record/descriptor/descriptor_type.rs:19-52 | it fails exactly when there are fewer than 2 bytes, the kind is above 5, or an Other type lacks its length, each with its own error; otherwise the code is decoded with the word's kind and id, and the bytes after it are returned |
| DescType.FromRawTypeBytes | src/record/descriptor/descriptor_type.rs:19-76 | every canonical type code decodes back from its bytes, whatever follows |
| DescType.EndIsLossy | src/record/descriptor/descriptor_type.rs:46-98 | any value of kind 5 decodes as the end code, but only 0x5003 is its encoding |
| DescType.ToRaw | src/record/descriptor/descriptor_type.rs:53-76 | short room is an error that writes nothing; otherwise exactly the code's bytes are written and the offset after them is returned |
| DescData.DescriptorData.TypeOf | src/record/descriptor/descriptor_data.rs:79-91 | a value's type code has the value's kind and id |
| DescData.DescriptorData.Len | src/record/descriptor/descriptor_data.rs:92-94 | an Other value's length is its byte count, cut to 16 bits |
| DescData.DataBytes | src/record/descriptor/descriptor_data.rs:58-78 | a value is encoded in as many bytes as its length |
| DescData.FromRaw | src/record/descriptor/descriptor_data.rs:22-57 | fewer bytes than the type needs is an error; otherwise the value has the type's kind and id, and the rest is returned |
| DescData.FromRawSplit | src/record/descriptor/descriptor_data.rs:22-57 | a decoded value's encoding followed by the rest is the input |
| DescData.FromRawDataBytes | src/record/descriptor/descriptor_data.rs:22-78 | every canonical value decodes back from its bytes under its own type |
| DescData.ToRaw | src/record/descriptor/descriptor_data.rs:58-78 | short room is an error that writes nothing; otherwise exactly the value's bytes are written and the offset after them is returned |
| DescData.Decode | src/record/descriptor/descriptor_data.rs:118-163 | the end value decodes as the end and nothing else does; an 8-bit value decodes exactly for id 10, a 16-bit one exactly for ids 9, 10, 12, 13, 20 and 21, a 32-bit one exactly for ids 21, 23, 24, 25 and 26, a 64-bit or Other value never; what is decoded is a canonical meaning that `Encode` turns back into the same value, which fixes the meaning of each id |
| DescData.DecodeEncode | src/record/descriptor/descriptor_data.rs:118-163 | every canonical meaning is decoded from its own value, so decoding and `Encode` are inverse |
| Descriptor.DataLen | src/record/descriptor.rs:79-85 | the type record's data length is the sum of the codes' data lengths; it equals the true sum when that fits 16 bits, and otherwise agrees with it modulo 0x10000, as `sum::<u16>()` wraps in a release build |
| Descriptor.DescriptorTypeRecord.Len | src/record/descriptor.rs:74-78 | the number of codes; since each takes 2 bytes, or 4 for Other, the record holds between 2 and 4 bytes per code |
| Descriptor.TypesSizeBounds | src/record/descriptor.rs:74-78 | a sequence of codes takes between 2 and 4 bytes per code |
| Descriptor.RecordTypeLen | src/record/descriptor.rs:157-163 | the type record's length is the sum of the values' code lengths as a u16, wrapping past 0xFFFF and exact when it fits |
| Descriptor.RecordDataLen | src/record/descriptor.rs:164-168 | the data record's length is the sum of the values' lengths as a u16, wrapping past 0xFFFF and exact when it fits |
| Descriptor.RecordDataLenOfTypes | src/record/descriptor.rs:164-168 | the data record's length is what its type record announces |
| Descriptor.EncodeTypes | src/record/descriptor.rs:169-184 | the type record's payload is as long as the sum of its codes' lengths |
| Descriptor.EncodeDataSize | src/record/descriptor.rs:186-201 | the data record's payload is as long as its types announce |
| Descriptor.DecodeTypesAgree | src/record/descriptor.rs:46-73 | the codes decoded from a type record are, one after the other, the encodings of its bytes, an End code standing for a word of kind 5; so no code comes from a word of kind 6 or 7 |
| Descriptor.AgreeDecodes | src/record/descriptor.rs:46-73 | bytes that agree with a list of codes decode as exactly that list, so agreement determines the decoding |
| Descriptor.AgreeHead | src/record/descriptor/descriptor_type.rs:19-52 | a code that agrees with the front of the bytes is what `from_raw` reads there, with the bytes after it left over |
| Descriptor.AgreeSize | src/record/descriptor.rs:46-73 | those bytes are as long as the decoded codes |
| Descriptor.DecodeEncodeTypes | src/record/descriptor.rs:46-73 | a type record of canonical codes decodes back to the same codes |
| Descriptor.TypesSizeEven | src/record/descriptor.rs:51-56 | a type record's length is always even, matching the check on odd lengths |
| Descriptor.ParseTypes | src/record/descriptor.rs:65-71 | the decoding loop returns the same codes, or the same error, as the recursive decoder |
| Descriptor.TypeRecordNew | src/record/descriptor.rs:46-73 | an odd length and a short input are errors; otherwise len bytes are consumed and the codes are the decoding of those bytes |
| Descriptor.TypeRecordNewAccepts | src/record/descriptor.rs:46-73 | an even-length payload that holds agreeing codes is accepted as the record of exactly those codes, consuming len bytes |
| Descriptor.TypeRecordNewRejects | src/record/descriptor.rs:65-71 | a payload whose first word has a kind above 5 fails the whole record with that word's error |
| Descriptor.DecodeData | src/record/descriptor.rs:135-144 | decoding values fails only because the data is too short for a value |
| Descriptor.DecodeDataSucceeds | src/record/descriptor.rs:135-144 | decoding values succeeds exactly when the data holds the sum of the types' data lengths, and then leaves exactly the bytes after that sum |
| Descriptor.DecodeDataTypes | src/record/descriptor.rs:135-144 | the values decoded have the types given, and they consumed the size those types announce |
| Descriptor.DecodeDataBytes | src/record/descriptor.rs:135-144 | the decoded values' encoding followed by the rest is the input |
| Descriptor.DecodeEncodeData | src/record/descriptor.rs:135-144 | canonical values decode back from their encoding under their own types |
| Descriptor.ParseData | src/record/descriptor.rs:135-144 | the decoding loop returns the same values, or the same error, as the recursive decoder |
| Descriptor.ParseDataTurn | src/record/descriptor.rs:135-144 | one turn of the loop either ends the decoding with the value's error, or leaves the decoded values so far plus this one in front of the decoding of the remaining types |
| Descriptor.NoLeftover | src/record/descriptor.rs:146-148 | when the record's length is the one announced, decoding leaves nothing over, so the leftover check cannot fire |
| Descriptor.DataRecordNew | src/record/descriptor.rs:114-151 | a length other than the announced one and a short input are errors; otherwise the values have the announced types and are exactly the len bytes read |
| Descriptor.DataRecordNewAccepts | src/record/descriptor.rs:114-151 | a data record is accepted exactly when its length is the one the type record announces, the input holds it, and the types' data lengths add up to it without wrapping |
| Descriptor.TypeRecordRoundTrip | src/record/descriptor.rs:46-73 | a type record written by the composer reads back as the same codes |
| Descriptor.DataRecordRoundTrip | src/record/descriptor.rs:114-151 | a data record written by the composer reads back as the same values |
| Descriptor.RecordsRoundTrip | src/record/descriptor.rs:46-201 | a descriptor's type and data records, as written, read back as the descriptor |
| Descriptor.TypesToRaw | src/record/descriptor.rs:178-183 | the loop over the values writes their type codes one after the other, or reports that the room is too small |
| Descriptor.RecordTypeToRaw | src/record/descriptor.rs:169-184 | short room is an error; otherwise exactly the type record's header and codes are written and the offset after them is returned |
| Descriptor.OtherFitsSize | src/record/descriptor.rs:194-200 | when every Other value fills what room is left, all values fit and take exactly their announced size |
| Descriptor.DataToRawNext | src/record/descriptor.rs:194-200 | one turn of the loop writes the next value right after the previous ones |
| Descriptor.DataToRaw | src/record/descriptor.rs:194-200 | the loop writes the values' encodings one after the other and returns the offset after them |
| Descriptor.RecordDataToRaw | src/record/descriptor.rs:186-201 | short room is an error that writes nothing; otherwise exactly the data record's header and values are written |
| GcdParser.ReadCheckSum.constructor | src/parser.rs:58-60 | a new stream has read nothing |
| GcdParser.ReadCheckSum.Sum | src/parser.rs:64-66 | the sum is the wrapping sum of every byte read so far |
| GcdParser.ReadCheckSum.ReadExact | src/parser.rs:45-51 | the next n bytes are handed out and added to the sum; with fewer left, all of them are consumed and the result is an end of file |
| GcdParser.FoundNone | src/parser.rs:331-352 | no value is found exactly when no descriptor gives one |
| GcdParser.FoundLast | src/parser.rs:331-352 | the value found is the one given by the last descriptor that gives one |
| GcdParser.ExtractFirmware | src/parser.rs:331-352 | the loop keeps, for id, length and key, what the last descriptor giving each carries |
| GcdParser.FirmwareFields | src/parser.rs:331-352 | a firmware id comes only from the 16-bit value 10, a length only from the 32-bit values 21, 23, 24 and 25, a key only from the 8-bit value 10 |
| GcdParser.XorInPlace | src/parser.rs:405-412 | each byte of the buffer is XORed with the key in place |
| GcdParser.XorAllTwice | src/parser.rs:405-412 | XORing a payload twice with one key gives it back |
| GcdParser.DecryptEncrypt | src/parser.rs:405-412 | decoding a chunk's payload loses nothing: it and its inverse undo each other |
| GcdParser.DecryptPlain | src/parser.rs:405-412 | with key 0 and a firmware other than the TrueType font, the payload is kept as read |
| GcdParser.ChecksumAt | src/parser.rs:288-293 | a checkpoint is accepted exactly when its byte exists and the file's sum up to and including it is 0 |
| GcdParser.FillerAt | src/parser.rs:295-299 | a short input is an end of file; an accepted filler is len zeros |
| GcdParser.DescriptorAt | src/parser.rs:316-375 | the data record's errors are passed on; a missing firmware id or length is an error; otherwise the firmware announced is the last id, length and key found, with all of its length still due |
| GcdParser.ChunkAt | src/parser.rs:377-414 | a chunk is accepted exactly when its id is the block's, it is no longer than what is still due and its bytes exist; each other case has its own error; the payload is decoded and the amount due drops by its length |
| GcdParser.CloseFirmware | src/parser.rs:416-429 | a block closes exactly when nothing is still due; otherwise the error reports how much of how much was read |
| GcdParser.Step | src/parser.rs:138-151 | one turn of the loop consumes at least one byte and never reads past the input |
| GcdParser.Dispatch | src/parser.rs:152-277 | an accepted record never moves back in the file |
| GcdParser.ChecksumStep | src/parser.rs:154-157 | a checkpoint returns a checkpoint and moves past its byte |
| GcdParser.FillerStep | src/parser.rs:158-160 | a filler returns a filler and moves past its payload |
| GcdParser.TextStep | src/parser.rs:163-165 | a text returns a text and moves past its payload |
| GcdParser.MainStep | src/parser.rs:166-173 | the main record returns the main record and moves the grammar to Main |
| GcdParser.TypesStep | src/parser.rs:199-209 | a type record is not returned; it needs a closed block when it ends one, and moves to DescriptorType with its codes kept, or after chunks with the old ones kept |
| GcdParser.DescriptorStep | src/parser.rs:187-197 | a data record returns the descriptor, moves to DescriptorData and announces its firmware |
| GcdParser.ChunkStep | src/parser.rs:210-220 | a chunk returns firmware of the block's id and takes its length off what is due |
| GcdParser.EndStep | src/parser.rs:225-232 | the end record needs a complete block and moves the grammar to End |
| GcdParser.Read | src/parser.rs:136-279 | `read_record` moves forward in the file whenever it returns a record |
| GcdParser.ReadTwoTurns | src/parser.rs:136-279 | a turn that reads a type record followed by a turn that returns a record is one call of `read_record` returning that record |
| GcdParser.StepTypeRecord | src/parser.rs:175-209 | after the main record, or after a descriptor whose firmware is complete, a well-formed type record header moves the parser to the type state with the record's types and past its bytes |
| GcdParser.StepDataRecord | src/parser.rs:187-196 | in the type state, a data record that decodes and announces a firmware returns that descriptor, moves to the data state and records the announced firmware |
| GcdParser.Parser.Init | src/parser.rs:124-133 | a new parser is at the start of the grammar with no types and no firmware |
| GcdParser.Parser.New | src/parser.rs:99-133 | the parser starts exactly on an 8-byte prefix holding "GARMIN" and version 100; each other case has its own error |
| GcdParser.Parser.ParseRecord | src/parser.rs:281-286 | reads the 4-byte header at the current position, or fails with an end of file |
| GcdParser.Parser.ParseChecksum | src/parser.rs:288-293 | agrees with the checkpoint reader on the stream |
| GcdParser.Parser.ParseFiller | src/parser.rs:295-299 | agrees with the filler reader on the stream |
| GcdParser.Parser.ParseMainHeader | src/parser.rs:301-303 | agrees with the main record reader on the stream |
| GcdParser.Parser.ParseText | src/parser.rs:305-307 | agrees with the text reader on the stream |
| GcdParser.Parser.ParseDescriptorType | src/parser.rs:309-314 | agrees with the type record reader on the stream |
| GcdParser.Parser.ParseDescriptorData | src/parser.rs:316-375 | agrees with the descriptor reader and stores the firmware it announces |
| GcdParser.Parser.ParseFirmwareData | src/parser.rs:377-414 | agrees with the chunk reader and stores what is still due |
| GcdParser.Parser.CheckFirmwareEnd | src/parser.rs:416-429 | agrees with the closing check on the current block |
| GcdParser.Parser.Iterate | src/parser.rs:138-277 | one turn of the loop is exactly `Step` on the parser's state |
| GcdParser.Parser.ReadChecksum | src/parser.rs:154-157 | the checkpoint arm is exactly its step |
| GcdParser.Parser.ReadFiller | src/parser.rs:158-160 | the filler arm is exactly its step |
| GcdParser.Parser.ReadText | src/parser.rs:163-165 | the text arms are exactly their step |
| GcdParser.Parser.ReadMain | src/parser.rs:166-173 | the main record arm is exactly its step |
| GcdParser.Parser.ReadTypes | src/parser.rs:175-266 | the three type record arms are exactly their step |
| GcdParser.Parser.ReadDescriptor | src/parser.rs:187-197 | the data record arm is exactly its step |
| GcdParser.Parser.ReadChunk | src/parser.rs:210-248 | the chunk arms are exactly their step |
| GcdParser.Parser.ReadEnd | src/parser.rs:225-254 | the end arms are exactly their step |
| GcdParser.Parser.ReadRecord | src/parser.rs:136-279 | `read_record` returns the record, or the error, that `Read` gives from the parser's state, and leaves the parser in the state `Read` gives |
| GcdParser.EndAbsorbs | src/parser.rs:139-145 | after the end record every read fails |
| GcdParser.CheckpointAnywhere | src/parser.rs:154-160 | in every state before the end, a checkpoint is accepted exactly when the file sums to 0 up to its byte; checkpoints and fillers change nothing but the position |
| GcdParser.RejectedExactly | src/parser.rs:152-277 | a record is refused as unexpected exactly when the grammar does not allow it in the current state |
| GcdParser.TypeRecordError | src/parser.rs:309-314 | reading a type record never fails with a grammar error |
| GcdParser.DecodeTypesError | src/record/descriptor/descriptor_type.rs:19-52 | decoding a type record fails only with a type decoding error |
| GcdParser.StaleDescriptorType | src/parser.rs:256-266 | after firmware chunks a type record is read and checked but its codes are dropped; in the other states they are kept for the data record |
| GcdParser.StepSettled | src/parser.rs:152-277 | one record never leaves firmware due outside a block |
| GcdParser.StepFirmware | src/parser.rs:152-277 | every record but a descriptor keeps the block, and only a chunk takes its own length off what is due |
| GcdParser.StepDescriptor | src/parser.rs:187-197 | a descriptor is returned only after a type record, and announces its firmware |
| GcdParser.StepCheckpoint | src/parser.rs:154-157 | a checkpoint is returned only when the file sums to 0 up to it |
| GcdParser.StepClosing | src/parser.rs:199-266 | a type record, a descriptor or the end is accepted only when nothing is due |
| GcdParser.StepEnd | src/parser.rs:225-254 | the end record moves the grammar to End |
| GcdParser.ReadCheckpoint | src/parser.rs:136-157 | `read_record` returns a checkpoint only when the file, signature included, sums to 0 up to it |
| GcdParser.ReadSettled | src/parser.rs:136-279 | `read_record` never leaves firmware due outside a block |
| GcdParser.ReadFirmware | src/parser.rs:136-279 | `read_record` keeps the block for every record but a descriptor, and a chunk carries the block's id and takes its length off what is due |
| GcdParser.ReadDescriptor | src/parser.rs:316-375 | `read_record` returning a descriptor has opened a block with all of the announced firmware due |
| GcdParser.ReadEnd | src/parser.rs:136-145 | after `read_record` returns the end record, nothing more can be read |
| GcdParser.ReadClosing | src/parser.rs:416-429 | the end and the next descriptor are returned only once the previous block is complete |
| GcdParser.RunSettled | src/parser.rs:136-279 | a reader that keeps snapshots settled keeps them settled over any number of calls |
| GcdParser.RunAccount | src/parser.rs:136-279 | over calls that return no descriptor, the chunks carry the block's id and their lengths add up to what was taken off |
| GcdParser.NextSettled | src/parser.rs:136-279 | `read_record` as a reader keeps settled snapshots settled |
| GcdParser.NextKeepsBlock | src/parser.rs:136-279 | `read_record` as a reader keeps the firmware block, record by record |
| GcdParser.BlockComplete | src/parser.rs:316-429 | the chunks between a descriptor and the record that closes its block carry the descriptor's firmware id and add up to its firmware length |
| GcdComposer.Signature | src/composer.rs:65-76 | the signature is 8 bytes |
| GcdComposer.WriteCheckSum.constructor | src/composer.rs:40-42 | a new writer has written nothing |
| GcdComposer.WriteCheckSum.Sum | src/composer.rs:46-48 | the sum is the wrapping sum of every byte written |
| GcdComposer.WriteCheckSum.Write | src/composer.rs:24-30 | the file takes all of the buffer and each of its bytes is added to the sum |
| GcdComposer.Composer.Init | src/composer.rs:72-75 | the composer keeps the byte order and the writer |
| GcdComposer.Composer.New | src/composer.rs:65-76 | a new file holds exactly "GARMIN" and version 100 |
| GcdComposer.Composer.WriteRecordRaw | src/composer.rs:79-85 | appends an Unknown header with the data's length cut to 16 bits, then the data |
| GcdComposer.Composer.WriteRecord | src/composer.rs:87-97 | appends exactly the bytes of the record, kind by kind |
| GcdComposer.Composer.WriteRecordHeader | src/composer.rs:99-104 | appends the header's 4 bytes |
| GcdComposer.Composer.WriteEnd | src/composer.rs:105-107 | appends the end header |
| GcdComposer.Composer.WriteFirmware | src/composer.rs:108-112 | appends the chunk record |
| GcdComposer.Composer.WriteCheckPoint | src/composer.rs:113-117 | appends the checkpoint record for the sum so far, after which the file sums to 0 |
| GcdComposer.Composer.WriteFiller | src/composer.rs:118-122 | appends the filler record |
| GcdComposer.Composer.WriteMain | src/composer.rs:123-127 | appends the main record |
| GcdComposer.Composer.WriteText | src/composer.rs:128-132 | appends the text record |
| GcdComposer.Composer.WriteDescriptor | src/composer.rs:133-145 | appends the type record and then the data record |
| GcdComposer.DescriptorBytes | src/composer.rs:136-144 | the buffer filled holds the type record followed by the data record |
| GcdComposer.DescriptorRoom | src/composer.rs:136-141 | the buffer is exactly as long as both records and every Other value fills the room left to it |
| GcdComposer.SignatureAccepted | src/composer.rs:65-76 | the parser accepts the signature the composer writes, whatever follows it |
| GcdComposer.HeaderReadBack | src/composer.rs:99-104 | a written header, unless reserved, is read back as itself |
| GcdComposer.TextBytesBack | src/composer.rs:128-132 | a written text's header and payload read back as the same text |
| GcdComposer.TextReadBack | src/composer.rs:216-239 | `read_record` returns a written text as the same record in every state that allows text |
| GcdComposer.MainBytesBack | src/composer.rs:123-127 | a written main record's header and payload read back as the same record |
| GcdComposer.MainReadBack | src/composer.rs:184-214 | `read_record` returns a written main record as itself and moves the grammar to Main |
| GcdComposer.FillerBytesBack | src/composer.rs:118-122 | a written filler's header and zeros read back as the same filler |
| GcdComposer.FillerReadBack | src/composer.rs:241-258 | `read_record` returns a written filler as itself in every state before the end, changing nothing but the position |
| GcdComposer.TypeRecordBack | src/composer.rs:133-145 | a written descriptor's type record, of canonical values that fit, reads back as the values' types |
| GcdComposer.DataRecordBack | src/composer.rs:133-145 | its data record, under those types, reads back as the descriptor itself |
| GcdComposer.TypesReadBack | src/composer.rs:278-344 | after the main record or a complete block, the written type record is read and its types kept, and nothing is returned yet |
| GcdComposer.DataReadBack | src/composer.rs:278-344 | with those types kept, the written data record is returned as the descriptor itself, announcing its firmware |
| GcdComposer.DescriptorReadBack | src/composer.rs:278-344 | a written descriptor whose values give a firmware id and length opens a block: the type record is read, then the descriptor is returned as itself with the firmware it announces |
| GcdComposer.ChunkBytesBack | src/composer.rs:108-112 | a written chunk's header and data read back unchanged when its id and length are not reserved |
| GcdComposer.ChunkReadBack | src/composer.rs:108-112 | inside a block, a written chunk is read back as the block's chunk: its data decoded with the block's key, and its length off what is due |
| GcdComposer.CheckpointReadBack | src/composer.rs:260-276 | a written checkpoint is accepted in every state before the end |
| GcdComposer.EndReadBack | src/composer.rs:105-107 | once the announced firmware is complete, the written end record is read back as the end |
| GcdComposer.CheckpointAccepted | src/composer.rs:113-117 | the checksum reader accepts a checkpoint written after any bytes |
| GcdComposer.SignatureSum | src/composer.rs:260-276 | "GARMIN" sums to 0xBE |
| GcdComposer.VersionSum | src/composer.rs:260-276 | the version word 100 sums to 0x64 in either byte order |
| GcdComposer.ChecksumHeaderSum | src/composer.rs:260-276 | the checkpoint header sums to 2 in either byte order |
| GcdComposer.FirstCheckpoint | src/composer.rs:260-276 | the first checkpoint after the signature carries the byte 0xDC in either byte order |
| GcdComposer.WrittenSumExample | src/composer.rs:174-182 | adding the test's writes to the sum leaves a sum whose negation is 244 |
| GcdComposer.ZeroSum | src/composer.rs:118-122 | a filler's zeros add nothing to the sum |
| GcdComposer.EndBytes | src/composer.rs:216-229 | the end record is FF FF 00 00 in either byte order |

## Left out

- I/O errors other than an end of file, and partial reads and writes, are not modelled. The stream is an in-memory byte sequence, and the composer's file takes every write.
- The generic `Read`/`Write` traits, `PhantomData` byte order parameters and the `nom` combinators are not modelled as such. Byte order is a value, and parsing is done by functions over byte sequences.
- `Display`, `Debug`, `serde` and the error message strings are left out. Errors are constructors that name each failure site.
- The front ends under src/examples are not part of this model.
- The parser's state after an error is not specified. The Rust parser may already have changed its `state` before the arm fails, and the model only states what an error returns.
- GcdComposer.Composable: the composer panics (`copy_from_slice`, an index out of range) or truncates when a length does not fit 16 bits or an Other value is shorter than its declared length. The model makes these cases preconditions of the writers.
- Descriptor.RecordDataToRaw: the precondition that every Other value fills the room left to it stands for the `copy_from_slice` panic of the source.
- GcdComposer.WriteCheckSum.Write: partial writes are not modelled. The Rust `write` adds the whole buffer to the sum even when the inner writer takes only part of it, and `write_all` then sums the rest a second time. In the model the file always takes the whole buffer.
- Version.Value: the rule that `major * 100 + minor` panics in debug builds is not modelled. The model uses the release-build wrap-around of u16, and the contract states the value only when it fits.
- PartNumber.Parse: the debug-build panic of the u8 subtraction `hw_kind - b'0'` is not modelled. The hardware kind is that subtraction with wrap-around, as in release builds. PartNumber.ToStringParse therefore requires a digit there.
- GcdParser.Parser.ReadRecord: trailing bytes after the end record are not checked, as in the source (its TODO). `EndAbsorbs` states only that nothing more is read.
- GcdParser.Next: a position past the end of the input is read as an end of file. This totalises `read_record` over arbitrary snapshots, and the parser never reaches such a position.
- GcdComposer.ChunkReadBack: the lemma requires that the chunk's id and length are not claimed by a known record kind. A chunk carrying such a pair is read back as another record, just as in the source.
- GcdParser.ReadCheckSum.ReadExact: `read_exact` over `ReadCheckSum::read` is modelled as one read of up to n bytes. On an end of file all remaining bytes are consumed and summed.
- Descriptor.NoLeftover: the panic on leftover data in `DescriptorRecord::new` is unreachable under the length check, and this lemma proves it. The record reader therefore has no branch for it.
- Descriptor.DataLen: a debug build panics in `sum::<u16>()` when the data lengths add up past 0xFFFF. A parsed type record can reach this, for example with two Other codes of 0x8000 bytes each. The model follows the release build: the sum wraps, and the data record that follows is checked against the wrapped length (see Descriptor.DataRecordNewAccepts).
- Descriptor.OtherFits: an Other value is required to be shorter than 0x10000 bytes. The source's `copy_from_slice` also accepts a longer value that exactly fills its room, with its length cut to 16 bits; the writers' precondition `Composable` already rules such a value out.
- GcdComposer.Composer.WriteRecordRaw: there is no read-back lemma for it. Its id alone decides which kind of record the parser sees.
- GcdComposer.DescriptorReadBack: after firmware chunks the type record's codes are dropped (see GcdParser.StaleDescriptorType), so the lemma covers the state after the main record and the state after a descriptor whose announced firmware is empty. After chunks, a written descriptor is read under the previous block's types.
- Multi-part firmware lengths (`Firmware2000P1Len` to `P3Len`) each replace the firmware length, as in the source. That they separate the parts is not modelled.
