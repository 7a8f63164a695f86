/** Failure-compatible result types and the codec's error taxonomy.

    Every fallible operation of the codec returns a `Result`; the error
    constructors name the individual failure sites of the library (the
    message strings of the original `std::io::Error` values are not
    modelled, only which check failed). */
module Wrappers {

  datatype Option<+T> = None | Some(value: T)

  /** The failures the codec can report. */
  datatype Error =
    // std::io::Read::read_exact ran out of input
    | UnexpectedEof
    // file signature and version (parser.rs)
    | InvalidSignature
    | InvalidVersion
    // record header (lib.rs)
    | HeaderTooSmall
    // grammar (parser.rs)
    | ReadAfterEnd
    | UnexpectedRecord
    // checksum.rs, filler.rs
    | InvalidChecksum
    | InvalidFiller
    // main.rs
    | InvalidPartNumber
    | InvalidHwid
    | InvalidMainRecord
    // descriptor_type.rs
    | DescriptorTypeTooSmall
    | OtherMissingLength
    | UnknownDescriptorKind(value: int)
    | DescriptorTypeBufferTooSmall
    // descriptor_data.rs
    | DescriptorDataTooSmall
    | DescriptorDataBufferTooSmall
    // descriptor.rs
    | OddDescriptorTypeLength
    | UnexpectedDescriptorDataLength
    // firmware accounting (parser.rs)
    | FirmwareIdNotFound
    | FirmwareLengthNotFound
    | FirmwareIdMismatch(expected: int, found: int)
    | FirmwareChunkTooBig
    | FirmwareTruncated(received: int, total: int)
    // part_number.rs
    | PartNumberTooSmall
    | PartNumberUnparsable
    | PartNumberInvalidSize

  datatype Result<+T> = Ok(value: T) | Err(error: Error) {

    predicate IsFailure() {
      Err?
    }

    function PropagateFailure<U>(): Result<U>
      requires Err?
    {
      Err(error)
    }

    function Extract(): T
      requires Ok?
    {
      value
    }
  }
}
