/** `Record`: every record the parser returns and the composer writes. */
module Records {
  import CK = Checksum
  import FL = Filler
  import MR = MainRec
  import TR = TextRec
  import Desc = Descriptor
  import FW = Firmware

  datatype Record =
    | Checksum(checksum: CK.ChecksumRecord)
    | Filler(filler: FL.FillerRecord)
    | MainHeader(main: MR.MainRecord)
    | Text(text: TR.TextRecord)
    | Descriptor(descriptor: Desc.DescriptorRecord)
    | FirmwareData(firmware: FW.FirmwareRecord)
    | End
}
