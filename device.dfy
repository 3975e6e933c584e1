/**
 * Constants of the SCD30 device: bus address and direction flags, the
 * CRC-8 parameters and the command opcodes (lib/scd30/device.h).
 */
module Device {
  import opened Options

  /** Factory default 7-bit bus address. */
  const DEFAULT_ADDRESS: bv8 := 0x61

  /** Flags ORed into the address for a write and for a read transaction. */
  const I2C_WRITE_FLAG: bv8 := 0x00
  const I2C_READ_FLAG: bv8 := 0x01

  /** CRC-8 parameters: polynomial x^8 + x^5 + x^4 + 1, initial register, final XOR. */
  const CRC_POLY: bv8 := 0x31
  const CRC_INIT: bv8 := 0xFF
  const CRC_XOR: bv8 := 0x00

  /** The command set of the sensor (enum scd30_command_e). */
  datatype Command =
    | StartContinuousMode     // data: pressure in mBar, 0 = no compensation
    | StopContinuousMode      // no data, no CRC
    | SetMeasurementInterval  // data: seconds, documented range 2..1800
    | GetDataReady            // response: 1 if a measurement is buffered, 0 otherwise
    | ReadMeasurement
    | SetAfc                  // data: 1 enables, 0 disables automatic self-calibration
    | SetFrc                  // data: reference CO2 concentration in ppm
    | SetTempOffset           // data: degrees Celsius times 100
    | SetAltComp              // data: metres above sea level
    | SoftReset               // no data, no CRC
    | GetFirmwareVersion

  /** The opcode a command is sent with; every opcode names its command back. */
  function Opcode(c: Command): (op: bv16)
    ensures CommandOf(op) == Some(c)
  {
    match c
    case StartContinuousMode => 0x0010
    case StopContinuousMode => 0x0104
    case SetMeasurementInterval => 0x4600
    case GetDataReady => 0x0202
    case ReadMeasurement => 0x0300
    case SetAfc => 0x5306
    case SetFrc => 0x5204
    case SetTempOffset => 0x5403
    case SetAltComp => 0x5102
    case SoftReset => 0xD304
    case GetFirmwareVersion => 0xD100
  }

  /** The command an opcode selects, if any. */
  function CommandOf(op: bv16): Option<Command> {
    if op == 0x0010 then Some(StartContinuousMode)
    else if op == 0x0104 then Some(StopContinuousMode)
    else if op == 0x4600 then Some(SetMeasurementInterval)
    else if op == 0x0202 then Some(GetDataReady)
    else if op == 0x0300 then Some(ReadMeasurement)
    else if op == 0x5306 then Some(SetAfc)
    else if op == 0x5204 then Some(SetFrc)
    else if op == 0x5403 then Some(SetTempOffset)
    else if op == 0x5102 then Some(SetAltComp)
    else if op == 0xD304 then Some(SoftReset)
    else if op == 0xD100 then Some(GetFirmwareVersion)
    else None
  }

  /** The eleven opcodes are pairwise distinct. */
  lemma OpcodesDistinct(a: Command, b: Command)
    ensures Opcode(a) == Opcode(b) <==> a == b
  {
    if Opcode(a) == Opcode(b) {
      assert Some(a) == CommandOf(Opcode(a)) == CommandOf(Opcode(b)) == Some(b);
    }
  }

  /** Write commands whose frame carries a 16-bit parameter and its CRC. */
  predicate CarriesData(c: Command) {
    c in {StartContinuousMode, SetMeasurementInterval, SetAfc, SetFrc, SetTempOffset, SetAltComp}
  }

  /** Commands answered by a read of the response buffer. */
  predicate IsRead(c: Command) {
    c in {GetDataReady, ReadMeasurement, GetFirmwareVersion}
  }

  /** Every command is either a read, a write with data, or one of the two bare writes. */
  lemma CommandKinds(c: Command)
    ensures IsRead(c) || CarriesData(c) || c == StopContinuousMode || c == SoftReset
    ensures !(IsRead(c) && CarriesData(c))
    ensures c == StopContinuousMode || c == SoftReset ==> !IsRead(c) && !CarriesData(c)
  {
  }

  /** The address byte the driver passes for a write and for a read transaction. */
  function WriteAddress(address: bv8): bv8 { address | I2C_WRITE_FLAG }
  function ReadAddress(address: bv8): bv8 { address | I2C_READ_FLAG }

  /** The write flag leaves the address as it is; the read flag sets bit 0 and nothing else. */
  lemma DirectionFlags(address: bv8)
    ensures WriteAddress(address) == address
    ensures ReadAddress(address) & 0x01 == 0x01
    ensures ReadAddress(address) & 0xFE == address & 0xFE
  {
  }
}
