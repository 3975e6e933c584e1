/**
 * The SCD30 driver (lib/source/scd30.c): the device structure, its life
 * cycle, the command wrappers, and the write/read helpers that turn commands
 * into bus transactions and validate what comes back.
 */
module Driver {
  import opened Options
  import opened Device
  import opened Crc
  import opened Frames
  import opened Transport

  /** The cleared value of the driver context pointer. */
  const NULL: nat := 0

  /** Response lengths: the firmware version (a uint16_t), the data-ready group, a measurement. */
  const VERSION_BYTES: nat := 2
  const READY_BYTES: nat := 3
  const MEASUREMENT_BYTES: nat := 18

  /** What a driver call reports for a transport code: a failure as it is, success as 0. */
  function Status(code: int): int {
    if code < 0 then code else 0
  }

  // ---------------------------------------------------------------------
  // What read_command does on the bus, as functions of the scripted replies
  // ---------------------------------------------------------------------

  /** The transactions of a read command: the opcode write, then the read only if that write succeeded. */
  function ReadOps(script: seq<Reply>, ctx: nat, address: bv8, command: bv16, len: nat): seq<Op> {
    var write := Op.Write(ctx, WriteAddress(address), OpcodeBytes(command));
    if Next(script).code < 0 then [write] else [write, Op.Read(ctx, ReadAddress(address), len)]
  }

  /** The replies left after a read command. */
  function ReadConsumes(script: seq<Reply>): seq<Reply> {
    if Next(script).code < 0 then Rest(script) else Rest(Rest(script))
  }

  /** What a read command returns: the code of the failing leg, or 0. */
  function ReadStatus(script: seq<Reply>): int {
    if Next(script).code < 0 then Next(script).code else Status(Next(Rest(script)).code)
  }

  /** The bytes a read command places in the caller's buffer, when both legs succeed. */
  function Received(script: seq<Reply>, len: nat): Option<seq<bv8>> {
    if ReadStatus(script) < 0 then None else Some(Delivered(Next(Rest(script)).data, len))
  }

  /** The caller's buffer after a read command of `len` bytes into it. */
  function ReadInto(script: seq<Reply>, buf: seq<bv8>, len: nat): (r: seq<bv8>)
    requires len <= |buf|
    ensures |r| == |buf|
  {
    if Next(script).code < 0 then buf else AfterRead(buf, Next(Rest(script)), len)
  }

  /**
   * A read command never writes past `len`; when both legs succeed the buffer
   * starts with exactly the received bytes, and when the opcode write fails
   * the buffer is left alone.
   */
  lemma ReadIntoReceived(script: seq<Reply>, buf: seq<bv8>, len: nat)
    requires len <= |buf|
    ensures ReadInto(script, buf, len)[len..] == buf[len..]
    ensures Next(script).code < 0 ==> ReadInto(script, buf, len) == buf
    ensures Received(script, len).Some? ==> ReadInto(script, buf, len) == Received(script, len).value + buf[len..]
  {
    var r := ReadInto(script, buf, len);
    if Received(script, len).Some? {
      assert r == r[..len] + r[len..];
    }
  }

  /** A read that fills the whole buffer leaves exactly the received bytes in it. */
  lemma ReadIntoWhole(script: seq<Reply>, buf: seq<bv8>, len: nat)
    requires |buf| == len && ReadStatus(script) == 0
    ensures Received(script, len) == Some(ReadInto(script, buf, len))
  {
    assert buf[len..] == [];
    ReadIntoReceived(script, buf, len);
    var bytes := Received(script, len).value;
    assert bytes + buf[len..] == bytes;
  }

  /**
   * A failed read command receives nothing. The buffer may hold the bytes
   * that arrived before a failed read leg, never more than those scripted and
   * never past `len`; it is left alone when the opcode write failed or the
   * device did not answer the read at all.
   */
  lemma ReadIntoFailed(script: seq<Reply>, buf: seq<bv8>, len: nat)
    requires len <= |buf| && ReadStatus(script) < 0
    ensures Received(script, len).None?
    ensures ReadInto(script, buf, len)[len..] == buf[len..]
    ensures forall i :: 0 <= i < len && |Next(Rest(script)).data| <= i ==> ReadInto(script, buf, len)[i] == buf[i]
    ensures Next(script).code < 0 || Next(Rest(script)) == NACK ==> ReadInto(script, buf, len) == buf
  {
  }

  /**
   * A read command issues exactly one write, of the two opcode bytes to the
   * write address, and then one read of exactly `len` bytes from the read
   * address if and only if that write succeeded; it succeeds exactly when both
   * legs do, and otherwise returns the failing leg's negative code unchanged.
   */
  lemma ReadCommandShape(script: seq<Reply>, ctx: nat, address: bv8, command: bv16, len: nat)
    ensures var ops := ReadOps(script, ctx, address, command, len);
      && 1 <= |ops| <= 2
      && ops[0] == Op.Write(ctx, address, [Hi(command), Lo(command)])
      && (|ops| == 2 <==> Next(script).code >= 0)
      && (|ops| == 2 ==> ops[1] == Op.Read(ctx, ReadAddress(address), len))
    ensures ReadStatus(script) <= 0
    ensures Received(script, len).Some? <==> ReadStatus(script) == 0
    ensures Received(script, len).Some? ==> |Received(script, len).value| == len
    ensures Next(script).code < 0 ==> ReadStatus(script) == Next(script).code
    ensures Next(script).code >= 0 && Next(Rest(script)).code < 0 ==> ReadStatus(script) == Next(Rest(script)).code
  {
    DirectionFlags(address);
  }

  // ---------------------------------------------------------------------
  // convert (lib/source/scd30.c:150-168)
  // ---------------------------------------------------------------------

  /** A float out-parameter: the bit pattern stored through the pointer. */
  class FloatCell {
    var bits: bv32

    constructor (bits: bv32)
      ensures this.bits == bits
    {
      this.bits := bits;
    }
  }

  /**
   * The bits a cell holds once `ws[i]` has been stored through `targets[i]`
   * for each i < |ws| in turn, starting from `before`; targets may alias, so
   * the last store to the cell wins.
   */
  function Stored(cell: FloatCell, targets: seq<FloatCell>, ws: seq<bv32>, before: bv32): bv32
    requires |ws| <= |targets|
  {
    if ws == [] then before
    else if targets[|ws| - 1] == cell then ws[|ws| - 1]
    else Stored(cell, targets, ws[..|ws| - 1], before)
  }

  /** Through pairwise distinct targets, the i-th one holds the i-th value if it was stored, else its old bits. */
  lemma {:induction false} StoredDistinct(targets: seq<FloatCell>, ws: seq<bv32>, i: nat, before: bv32)
    requires |ws| <= |targets| && i < |targets|
    requires forall j, k :: 0 <= j < k < |targets| ==> targets[j] != targets[k]
    ensures Stored(targets[i], targets, ws, before) == if i < |ws| then ws[i] else before
  {
    if ws != [] {
      if i != |ws| - 1 {
        StoredDistinct(targets, ws[..|ws| - 1], i, before);
      }
    }
  }

  /** Stores through three targets, spelled out: the last of the stores that reach the cell wins. */
  lemma StoredThree(cell: FloatCell, targets: seq<FloatCell>, ws: seq<bv32>, before: bv32)
    requires |targets| == 3 && |ws| <= 3
    ensures Stored(cell, targets, ws, before) ==
      if 2 < |ws| && targets[2] == cell then ws[2]
      else if 1 < |ws| && targets[1] == cell then ws[1]
      else if 0 < |ws| && targets[0] == cell then ws[0]
      else before
  {
    if 2 < |ws| {
      assert ws[..2][..1] == ws[..1];
    }
    if 1 < |ws| {
      assert ws[..1][..0] == [];
    }
  }

  /** A cell no store goes through keeps its bits. */
  lemma {:induction false} StoredElsewhere(cell: FloatCell, targets: seq<FloatCell>, ws: seq<bv32>, before: bv32)
    requires |ws| <= |targets| && cell !in targets
    ensures Stored(cell, targets, ws, before) == before
  {
    if ws != [] {
      StoredElsewhere(cell, targets, ws[..|ws| - 1], before);
    }
  }

  /**
   * Check the two groups at data[off..off + 6] and store the word they carry;
   * on a checksum mismatch return -1 and leave `value` untouched.
   */
  method Convert(data: array<bv8>, off: nat, value: FloatCell) returns (res: int)
    requires off + 6 <= data.Length
    modifies value
    ensures var w := DecodeWord(data[off..off + 6]);
      && res == (if w.Some? then 0 else -1)
      && value.bits == (if w.Some? then w.value else old(value.bits))
  {
    ghost var g := data[off..off + 6];
    assert g[..3] == data[off..off + 3] && g[3..] == data[off + 3..off + 6];
    assert data[off..off + 3][..2] == data[off..off + 2];
    assert data[off + 3..off + 6][..2] == data[off + 3..off + 5];
    var crc1 := ComputeCrc8(data, off, 2);
    if crc1 != data[off + 2] {
      return -1;
    }
    var crc2 := ComputeCrc8(data, off + 3, 2);
    if crc2 != data[off + 5] {
      return -1;
    }
    value.bits := AssembleWord(data[off], data[off + 1], data[off + 3], data[off + 4]);
    return 0;
  }

  /**
   * The decoding half of scd30_get_measurement: convert CO2, temperature and
   * humidity from offsets 0, 6 and 12 of an 18-byte reply, stopping at the
   * first checksum failure. The three pointers may alias: each cell ends up
   * with the last value stored through it.
   */
  method ConvertMeasurement(data: array<bv8>, co2: FloatCell, temp: FloatCell, humid: FloatCell)
    returns (res: int)
    requires data.Length == MEASUREMENT_BYTES
    modifies co2, temp, humid
    ensures var ws := DecodedPrefix(data[..]);
      && res == (if |ws| == 3 then 0 else -1)
      && co2.bits == Stored(co2, [co2, temp, humid], ws, old(co2.bits))
      && temp.bits == Stored(temp, [co2, temp, humid], ws, old(temp.bits))
      && humid.bits == Stored(humid, [co2, temp, humid], ws, old(humid.bits))
  {
    ghost var d := data[..];
    ghost var ws := DecodedPrefix(d);
    ghost var targets := [co2, temp, humid];
    StoredThree(co2, targets, ws, co2.bits);
    StoredThree(temp, targets, ws, temp.bits);
    StoredThree(humid, targets, ws, humid.bits);
    assert data[0..6] == Slot(d, 0) && data[6..12] == Slot(d, 1) && data[12..18] == Slot(d, 2);
    res := Convert(data, 0, co2);
    assert data[..] == d;
    if res < 0 {
      assert ws == [];
      return res;
    }
    assert 0 < |ws| && co2.bits == ws[0];
    res := Convert(data, 6, temp);
    assert data[..] == d;
    if res < 0 {
      assert |ws| == 1;
      return res;
    }
    assert 1 < |ws| && temp.bits == ws[1];
    res := Convert(data, 12, humid);
    assert data[..] == d;
    if res < 0 {
      assert |ws| == 2;
      return res;
    }
    assert |ws| == 3 && humid.bits == ws[2];
  }

  // ---------------------------------------------------------------------
  // The device (struct scd30_s as lib/source/scd30.c uses it)
  // ---------------------------------------------------------------------

  class Scd30 {
    /** Bus address of the sensor. */
    var address: bv8
    /** The injected transport; null once closed. */
    var driver: Bus?
    /** The opaque context pointer handed to every transport call; NULL once closed. */
    var ctx: nat

    /** A zero-filled device structure, as the caller provides it before scd30_init. */
    constructor ()
      ensures address == 0 && driver == null && ctx == NULL
    {
      address := 0;
      driver := null;
      ctx := NULL;
    }

    /** The effect of one write command sending the frame of `r`, from bus state `trace0`, `script0`. */
    ghost predicate Wrote(trace0: seq<Op>, script0: seq<Reply>, r: Request, res: int)
      reads this, driver
      requires driver != null
    {
      && driver.trace == trace0 + [Op.Write(ctx, WriteAddress(address), RequestFrame(r))]
      && driver.script == Rest(script0)
      && res == Status(Next(script0).code)
    }

    /** The effect of one read command of `len` bytes for `command` on the bus. */
    ghost predicate ReadIssued(trace0: seq<Op>, script0: seq<Reply>, command: Command, len: nat)
      reads this, driver
      requires driver != null
    {
      && driver.trace == trace0 + ReadOps(script0, ctx, address, Opcode(command), len)
      && driver.script == ReadConsumes(script0)
    }

    /**
     * scd30_init: store the address, transport and context, then read the
     * firmware version as a probe; a failed probe's code is returned, and the
     * stored fields stay as they are.
     */
    method Init(address: bv8, driver: Bus, ctx: nat) returns (res: int)
      modifies this, driver
      ensures this.address == address && this.driver == driver && this.ctx == ctx
      ensures ReadIssued(old(driver.trace), old(driver.script), GetFirmwareVersion, VERSION_BYTES)
      ensures res == ReadStatus(old(driver.script))
    {
      this.address := address;
      this.driver := driver;
      this.ctx := ctx;
      var version := new bv8[VERSION_BYTES];
      res := FirmwareVersion(version);
      if res < 0 {
        return res;
      }
      return 0;
    }

    /** write_command: send the opcode, and the parameter with its checksum when there is one. */
    method WriteCommand(command: bv16, data: Option<bv16>) returns (res: int)
      requires driver != null
      modifies driver
      ensures driver.trace == old(driver.trace) + [Op.Write(ctx, WriteAddress(address), Frame(command, data))]
      ensures driver.script == Rest(old(driver.script))
      ensures res == Status(Next(old(driver.script)).code)
    {
      var buff := new bv8[5];
      buff[0], buff[1] := Hi(command), Lo(command);
      var len := 2;
      if data.Some? {
        buff[2] := Hi(data.value);
        buff[3] := Lo(data.value);
        buff[4] := ComputeCrc8(buff, 2, 2);
        assert buff[2..4] == [Hi(data.value), Lo(data.value)];
        len := 5;
      }
      assert buff[..len] == Frame(command, data);
      res := driver.Write(ctx, WriteAddress(address), buff, len);
      if res < 0 {
        return res;
      }
      return 0;
    }

    /** read_command: write the opcode, then read `buffLen` bytes into `buff`. */
    method ReadCommand(command: bv16, buff: array<bv8>, buffLen: nat) returns (res: int)
      requires driver != null
      requires buffLen <= buff.Length
      modifies driver, buff
      ensures driver.trace == old(driver.trace) + ReadOps(old(driver.script), ctx, address, command, buffLen)
      ensures driver.script == ReadConsumes(old(driver.script))
      ensures res == ReadStatus(old(driver.script))
      ensures buff[..] == ReadInto(old(driver.script), old(buff[..]), buffLen)
    {
      ghost var trace0 := driver.trace;
      var data := new bv8[2];
      data[0], data[1] := Hi(command), Lo(command);
      assert data[..2] == OpcodeBytes(command);
      res := driver.Write(ctx, WriteAddress(address), data, 2);
      if res < 0 {
        return res;
      }
      ghost var write := driver.trace[|trace0|];
      res := driver.Read(ctx, ReadAddress(address), buff, buffLen);
      assert driver.trace == trace0 + [write, Op.Read(ctx, ReadAddress(address), buffLen)];
      if res < 0 {
        return res;
      }
      return 0;
    }

    /** scd30_set_measurement_interval; the documented range 2..1800 s is not checked. */
    method SetMeasurementInterval(intervalS: bv16) returns (res: int)
      requires driver != null
      modifies driver
      ensures Wrote(old(driver.trace), old(driver.script), Interval(intervalS), res)
    {
      res := WriteCommand(Opcode(Command.SetMeasurementInterval), Some(intervalS));
    }

    /** scd30_start_continuous, with the pressure compensation in mBar (0 = none). */
    method StartContinuous(pressureComp: bv16) returns (res: int)
      requires driver != null
      modifies driver
      ensures Wrote(old(driver.trace), old(driver.script), Start(pressureComp), res)
    {
      res := WriteCommand(Opcode(StartContinuousMode), Some(pressureComp));
    }

    /** scd30_stop_continuous: a bare opcode. */
    method StopContinuous() returns (res: int)
      requires driver != null
      modifies driver
      ensures Wrote(old(driver.trace), old(driver.script), Stop, res)
    {
      res := WriteCommand(Opcode(StopContinuousMode), None);
    }

    /** scd30_set_afc: parameter 1 to enable automatic self-calibration, 0 to disable it. */
    method SetAfc(enabled: bool) returns (res: int)
      requires driver != null
      modifies driver
      ensures Wrote(old(driver.trace), old(driver.script), Afc(enabled), res)
    {
      var v: bv16 := if enabled then 1 else 0;
      res := WriteCommand(Opcode(Command.SetAfc), Some(v));
    }

    /** scd30_set_frc, with the reference CO2 concentration in ppm. */
    method SetFrc(calPpm: bv16) returns (res: int)
      requires driver != null
      modifies driver
      ensures Wrote(old(driver.trace), old(driver.script), Frc(calPpm), res)
    {
      res := WriteCommand(Opcode(Command.SetFrc), Some(calPpm));
    }

    /** scd30_set_temp_offset, taking the offset already converted to hundredths of a degree. */
    method SetTempOffset(centiDegrees: bv16) returns (res: int)
      requires driver != null
      modifies driver
      ensures Wrote(old(driver.trace), old(driver.script), TempOffset(centiDegrees), res)
    {
      res := WriteCommand(Opcode(Command.SetTempOffset), Some(centiDegrees));
    }

    /** scd30_set_alt_offset, with the altitude in metres. */
    method SetAltOffset(alt: bv16) returns (res: int)
      requires driver != null
      modifies driver
      ensures Wrote(old(driver.trace), old(driver.script), AltOffset(alt), res)
    {
      res := WriteCommand(Opcode(SetAltComp), Some(alt));
    }

    /** scd30_soft_reset: a bare opcode. */
    method SoftReset() returns (res: int)
      requires driver != null
      modifies driver
      ensures Wrote(old(driver.trace), old(driver.script), Reset, res)
    {
      res := WriteCommand(Opcode(Command.SoftReset), None);
    }

    /**
     * scd30_firmware_version: the raw two response bytes, with no checksum
     * check, read into the 2-byte version.
     */
    method FirmwareVersion(version: array<bv8>) returns (res: int)
      requires driver != null
      requires version.Length == VERSION_BYTES
      modifies driver, version
      ensures ReadIssued(old(driver.trace), old(driver.script), GetFirmwareVersion, VERSION_BYTES)
      ensures res == ReadStatus(old(driver.script))
      ensures version[..] == ReadInto(old(driver.script), old(version[..]), VERSION_BYTES)
      ensures match Received(old(driver.script), VERSION_BYTES)
              case Some(bytes) => version[..] == bytes
              case None => Next(old(driver.script)).code < 0 ==> version[..] == old(version[..])
    {
      ReadIntoReceived(driver.script, version[..], VERSION_BYTES);
      res := ReadCommand(Opcode(GetFirmwareVersion), version, VERSION_BYTES);
    }

    /**
     * scd30_data_ready: a transport failure's code; otherwise -1 on a
     * checksum mismatch, 1 when the flag's low byte is set and 0 when not.
     */
    method DataReady() returns (res: int)
      requires driver != null
      modifies driver
      ensures ReadIssued(old(driver.trace), old(driver.script), GetDataReady, READY_BYTES)
      ensures res == match Received(old(driver.script), READY_BYTES)
                     case Some(g) => DecodeReady(g)
                     case None => ReadStatus(old(driver.script))
    {
      ghost var script0 := driver.script;
      var data := new bv8[READY_BYTES];
      ghost var blank := data[..];
      res := ReadCommand(Opcode(GetDataReady), data, READY_BYTES);
      if res < 0 {
        ReadIntoFailed(script0, blank, READY_BYTES);
        return res;
      }
      ReadIntoWhole(script0, blank, READY_BYTES);
      assert data[..][..2] == data[0..2];
      var crc := ComputeCrc8(data, 0, 2);
      if crc != data[2] {
        return -1;
      }
      if data[1] != 0 {
        return 1;
      }
      return 0;
    }

    /**
     * scd30_get_measurement: read 18 bytes and decode CO2, temperature and
     * humidity at offsets 0, 6 and 12, stopping at the first checksum failure;
     * the values decoded before it have been stored, the later ones are
     * untouched, and through aliased pointers the last store wins.
     */
    method GetMeasurement(co2: FloatCell, temp: FloatCell, humid: FloatCell) returns (res: int)
      requires driver != null
      modifies driver, co2, temp, humid
      ensures ReadIssued(old(driver.trace), old(driver.script), ReadMeasurement, MEASUREMENT_BYTES)
      ensures match Received(old(driver.script), MEASUREMENT_BYTES)
              case None =>
                && res == ReadStatus(old(driver.script))
                && co2.bits == old(co2.bits) && temp.bits == old(temp.bits) && humid.bits == old(humid.bits)
              case Some(d) =>
                var ws := DecodedPrefix(d);
                && res == (if |ws| == 3 then 0 else -1)
                && co2.bits == Stored(co2, [co2, temp, humid], ws, old(co2.bits))
                && temp.bits == Stored(temp, [co2, temp, humid], ws, old(temp.bits))
                && humid.bits == Stored(humid, [co2, temp, humid], ws, old(humid.bits))
    {
      ghost var script0 := driver.script;
      var data := new bv8[MEASUREMENT_BYTES];
      ghost var blank := data[..];
      res := ReadCommand(Opcode(ReadMeasurement), data, MEASUREMENT_BYTES);
      if res < 0 {
        ReadIntoFailed(script0, blank, MEASUREMENT_BYTES);
        return res;
      }
      ReadIntoWhole(script0, blank, MEASUREMENT_BYTES);
      res := ConvertMeasurement(data, co2, temp, humid);
    }

    /**
     * scd30_close: try to stop continuous mode once, ignore its outcome, clear
     * the transport and context, and report success.
     */
    method Close() returns (res: int)
      requires driver != null
      modifies this, driver
      ensures driver == null && ctx == NULL && address == old(address)
      ensures old(driver).trace == old(driver.trace) + [Op.Write(old(ctx), WriteAddress(old(address)), RequestFrame(Stop))]
      ensures old(driver).script == Rest(old(driver.script))
      ensures res == 0
    {
      var stopped := StopContinuous();
      driver := null;
      ctx := NULL;
      return 0;
    }
  }

  // ---------------------------------------------------------------------
  // The firmware-version read length as written (lib/source/scd30.c:82)
  // ---------------------------------------------------------------------

  /**
   * The length scd30_firmware_version passes as written: sizeof(version),
   * where version is a uint16_t pointer, so the size of a pointer.
   */
  function FirmwareReadLengthAsWritten(pointerBytes: nat): nat {
    pointerBytes
  }

  /**
   * On a 32- or 64-bit target, once the opcode write is acknowledged the
   * probe as written asks the bus for more bytes than the 2-byte destination
   * holds, so it is not the read the driver intends and read_command's
   * `buffLen <= buff.Length` cannot hold for it; when the read succeeds,
   * `pointerBytes - 2` of the bytes received land past the destination.
   */
  lemma FirmwareReadOverruns(script: seq<Reply>, ctx: nat, address: bv8, pointerBytes: nat)
    requires pointerBytes == 4 || pointerBytes == 8
    requires Next(script).code >= 0
    ensures var n := FirmwareReadLengthAsWritten(pointerBytes);
      var asWritten := ReadOps(script, ctx, address, Opcode(GetFirmwareVersion), n);
      var intended := ReadOps(script, ctx, address, Opcode(GetFirmwareVersion), VERSION_BYTES);
      && |asWritten| == |intended| == 2
      && asWritten[1] == Op.Read(ctx, ReadAddress(address), n)
      && !(n <= VERSION_BYTES)
      && asWritten[1] != intended[1]
    ensures ReadStatus(script) == 0 ==>
      |Received(script, FirmwareReadLengthAsWritten(pointerBytes)).value| == VERSION_BYTES + (pointerBytes - 2)
  {
  }
}
