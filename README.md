# SCD30 driver protocol core, modelled in Dafny

A model of the protocol logic of the libscd30 C driver for the Sensirion
SCD30 CO2, temperature and humidity sensor. The modelled code lives in
`lib/source/scd30.c`, with its constants from `lib/scd30/device.h`. The
model covers:

- the CRC-8 that protects every 16-bit word on the bus: polynomial 0x31,
  initial value 0xFF, no final XOR, most significant bit first;
- the command frames that `write_command` and `read_command` send;
- the response decoding in `convert`, `scd30_data_ready` and
  `scd30_get_measurement`;
- the device lifecycle: `scd30_init`, the one-line command wrappers and
  `scd30_close`.

The files:

- `options.dfy`: an `Option` type.
- `device.dfy`: module `Device`. It holds the constants of `device.h`: the
  default address, the direction flags, the CRC parameters and the eleven
  opcodes, as a `Command` datatype.
- `crc.dfy`: module `Crc`.
  - `Crc8` specifies the checksum as a function.
  - `ComputeCrc8` is the driver's nested loop, proved equal to it.
  - Lemmas show that the shift and byte steps are linear over GF(2). The
    checksum itself is affine, because the register starts at 0xFF: an
    error pattern XORed into the data changes the checksum by a term that
    depends on the pattern alone. Further lemmas show that appending a
    checksum leaves a zero register, and that every corruption of a single
    byte of a checksummed group is detected.
- `frames.dfy`: module `Frames`, the byte layouts.
  - Outgoing frames, with the sensor-side parser as their inverse.
  - 3-byte response groups.
  - 32-bit words carried in two groups, with the sensor-side encoder as
    their inverse.
  - The data-ready flag and the 18-byte measurement.
  - The write requests of the public API.
- `transport.dfy`: module `Transport`. The injected bus functions are
  modelled as a `Bus` object. It records every transaction in `trace` and
  answers each one from a scripted queue of replies, `script`. With the
  script empty, every transaction fails with code -1.
- `driver.dfy`: module `Driver`.
  - `convert` becomes a method that writes through a `FloatCell`, which
    holds the float's bit pattern as a `bv32`. The three output pointers
    of `scd30_get_measurement` may alias; `Stored` gives each cell the last
    value stored through it.
  - The device structure becomes the class `Scd30`, with fields `address`,
    `driver` and `ctx` and one method per C function.
  - Every method is specified by functions of the bus script: what it
    writes to `trace`, what it consumes from `script`, what it returns and
    what it stores.
- `scenario.dfy`: module `Session`, a client of the driver.
  - A full session: probe, start, two polls, measurement read, close. It is
    proved against a sensor that answers "not ready" and then "ready", with
    the exact bus trace.
  - A probe against an empty bus.

The model follows `scd30.c` where the other sources describe the driver
differently:

- The address byte passed to the transport is `address | I2C_WRITE_FLAG`
  or `address | I2C_READ_FLAG`, as `scd30.c:184`, `:197` and `:203` do.
  - The flag is not left to the transport.
  - With the default 7-bit address 0x61 the read flag changes nothing,
    because bit 0 of 0x61 is already set. `Session.SessionTrace` shows
    this.
- The device has no open/closed flag, and no command checks whether the
  device was closed. After `scd30_close` the C functions dereference a null
  driver. The model therefore requires `driver != null` on every command.
- `scd30_init` keeps the stored address, driver and context when its
  firmware-version probe fails, and returns the probe's code.
- `lib/scd30/scd30.h` declares an older interface than `scd30.c` uses.
  - Its `struct scd30_s` has an `open` field and no address.
  - Its `scd30_init` has no address parameter.
  - It declares `scd30_read` rather than `scd30_get_measurement`.
  - Its transport typedefs put the length before the buffer.

  Only its transport function pointers are used here, as the `Bus`
  interface.

## Model

| member | source | states |
|---|---|---|
| Device.Opcode | lib/scd30/device.h:15-60 | each command has its documented opcode, and `CommandOf` maps the opcode back to the same command |
| Device.OpcodesDistinct | lib/scd30/device.h:15-60 | two commands have the same opcode if and only if they are the same command |
| Device.CommandKinds | lib/scd30/device.h:16-59 | every command is a read, a write carrying a u16 parameter, or one of the two bare writes (stop, soft reset); the kinds do not overlap |
| Device.DirectionFlags | lib/scd30/device.h:7-8 | ORing the write flag leaves the address unchanged; ORing the read flag sets bit 0 and keeps the other seven bits |
| Crc.ComputeCrc8 | lib/source/scd30.c:213-229 | the nested loop over `length` bytes from `off` (XOR in a byte, then eight shift-and-maybe-XOR-0x31 steps) returns exactly `Crc8` of that slice |
| Crc.ByteStepUnrolled | lib/source/scd30.c:219-225 | absorbing a byte is the eight conditional shift steps of the inner loop applied to the register XOR the byte |
| Crc.TwoBytes | lib/source/scd30.c:213-229 | the checksum of a byte pair is two byte steps starting from 0xFF |
| Crc.KnownAnswers | lib/source/scd30.c:213-229 | check values: 0xBE 0xEF gives 0x92, 0x00 0x00 gives 0x81 |
| Crc.ShiftLinear | lib/source/scd30.c:220-224 | one conditional shift step is linear over GF(2): the step of x XOR y is the XOR of the steps |
| Crc.ShiftZero | lib/source/scd30.c:220-224 | a shift step maps only zero to zero, because the polynomial 0x31 has its low bit set, so no information is lost |
| Crc.ShiftsLinear | lib/source/scd30.c:219-225 | any number of shift steps is linear over GF(2) |
| Crc.ShiftsZero | lib/source/scd30.c:219-225 | any number of shift steps maps only zero to zero |
| Crc.RegisterSnoc | lib/source/scd30.c:216-226 | appending a byte to the input adds exactly one byte step to the register |
| Crc.AppendedChecksumLeavesZero | lib/source/scd30.c:213-229 | running the checksum over data followed by its own checksum gives 0 |
| Crc.ChecksumMatchIffZero | lib/source/scd30.c:213-229 | a byte is the checksum of some data if and only if the checksum over the data followed by that byte is 0 |
| Crc.ByteStepLinear | lib/source/scd30.c:217-225 | a byte step is linear in the register and the input byte together |
| Crc.ErrorTerm | lib/source/scd30.c:213-229 | corrupting a pair by an error pattern changes its checksum by a term that depends on the pattern alone |
| Crc.SingleByteErrorDetected | lib/source/scd30.c:96-99 | if the error pattern of a group (two data bytes and their checksum) touches exactly one byte, the corrupted group fails the check |
| Crc.CorruptionDetected | lib/source/scd30.c:96-99 | the same, stated on the received bytes: a group that differs from a valid one in exactly one position has a mismatching checksum |
| Frames.Join | lib/source/scd30.c:172 | joining two bytes into a word is the inverse of splitting it into `command >> 8` and `command & 0xFF` |
| Frames.JoinHiLo | lib/source/scd30.c:172 | splitting a word and joining the halves gives the word back |
| Frames.FrameLayout | lib/source/scd30.c:171-182 | a frame is the two big-endian opcode bytes alone (length 2), or those followed by the big-endian parameter and the checksum of exactly the two parameter bytes (length 5) |
| Frames.ChecksumIgnoresOpcode | lib/source/scd30.c:179 | the checksum byte of a frame does not depend on the opcode |
| Frames.ParseFrameRoundTrip | lib/source/scd30.c:171-182 | the sensor-side parser recovers the opcode and the optional parameter of every frame the driver builds |
| Frames.ParseFrameOnlyFrames | lib/source/scd30.c:171-182 | whatever the parser accepts is exactly the frame of what it returns, so no other byte string passes |
| Frames.GroupValidIffEncoded | lib/source/scd30.c:96-99 | a 3-byte group passes the checksum check if and only if it is the encoding of its two data bytes |
| Frames.CorruptedGroupRejected | lib/source/scd30.c:152-160 | a valid group with any one byte changed fails the check |
| Frames.AssembleWord | lib/source/scd30.c:162 | the assembled word carries data[0], data[1], data[3] and data[4] as its four bytes, most significant first |
| Frames.AssembleHalves | lib/source/scd30.c:162 | assembling the four bytes of a word's two halves gives the word back |
| Frames.HalvesOfAssembled | lib/source/scd30.c:162 | the high half of the assembled word is data[0..2] and the low half is data[3..5] |
| Frames.DecodeEncodeWord | lib/source/scd30.c:150-168 | every word the sensor encodes as two checksummed groups decodes to itself |
| Frames.EncodeDecodeWord | lib/source/scd30.c:150-168 | every six bytes that decode are exactly the encoding of the decoded word, so the checksum bytes data[2] and data[5] never enter the value |
| Frames.DecodeExample | lib/source/scd30.c:150-168 | 43 DB CB 85 1F B8 decodes to the word 0x43DB851F |
| Frames.GroupCrcExamples | lib/source/scd30.c:213-229 | check values: 0x43 0xDB gives 0xCB, 0x85 0x1F gives 0xB8 |
| Frames.ReadyOfGroup | lib/source/scd30.c:95-106 | for every group the sensor sends, the ready result is 1 when the low byte is non-zero and 0 otherwise; the high byte is never looked at |
| Frames.CorruptedReadyRejected | lib/source/scd30.c:95-99 | a valid data-ready answer with any one byte changed yields -1 |
| Frames.ReadyExamples | lib/scd30/device.h:29-31 | the answers for 1 (00 01 B0) and 0 (00 00 81) decode as ready and not ready |
| Frames.SlotsOfConcat | lib/source/scd30.c:118-128 | the three 6-byte values of a measurement sit at offsets 0, 6 and 12 |
| Frames.DecodedPrefix | lib/source/scd30.c:118-133 | the decoded values are the slots at offsets 0, 6, 12 in order, up to and excluding the first slot that fails its check, which is named |
| Frames.MeasurementRoundTrip | lib/source/scd30.c:110-134 | every 18-byte measurement the sensor encodes decodes completely, to its CO2, temperature and humidity words |
| Frames.CommandOfRequest | lib/source/scd30.c:38-78 | every public write function sends a write command, never a read |
| Frames.ParamOf | lib/source/scd30.c:38-78 | a write carries a parameter exactly for the commands documented with data; `set_afc` sends 1 or 0 |
| Frames.RequestFrameShape | lib/source/scd30.c:38-78 | stop and soft reset send 2-byte frames and all other writes send 5 bytes; the sensor recovers the command and the parameter from each |
| Frames.RequestFrameExamples | lib/source/scd30.c:44-57 | start with no pressure compensation is 00 10 00 00 81; stop is 01 04; soft reset is D3 04; set_afc(true) is 53 06 00 01 B0 and set_afc(false) is 53 06 00 00 81 |
| Transport.Delivered | lib/scd30/scd30.h:14 | a read delivers exactly `len` bytes: the device's bytes, then 0xFF past their end |
| Transport.DeliveredExactly | lib/scd30/scd30.h:14 | a read of as many bytes as the device sends delivers exactly those bytes |
| Transport.Bus.Write | lib/scd30/scd30.h:13 | one write transaction is appended to the trace, consumes one reply and returns that reply's code |
| Transport.AfterRead | lib/scd30/scd30.h:14 | a read never changes the buffer past `len`; on success the first `len` bytes are the delivered ones; on failure at most the bytes that arrived are stored, every other byte is kept, and an unanswered read changes nothing |
| Transport.Bus.Read | lib/scd30/scd30.h:14 | one read transaction is appended to the trace and consumes one reply; on success the first `len` bytes of the buffer are overwritten by the delivered bytes and the rest is kept; on failure the bytes that arrived before the failure, at most `len`, may have been stored and the rest is kept |
| Driver.ReadIntoReceived | lib/source/scd30.c:197-206 | a read command never changes the buffer past `len`; when both legs succeed the buffer holds the received bytes followed by its old tail; when the opcode write fails the buffer is unchanged |
| Driver.ReadIntoWhole | lib/source/scd30.c:203-206 | a successful read that fills the whole buffer leaves exactly the received bytes in it |
| Driver.ReadIntoFailed | lib/source/scd30.c:197-206 | a failed read command receives nothing; the buffer keeps every byte past `len` and past the bytes that arrived, and is unchanged when the opcode write failed or the read was not answered at all |
| Driver.ReadCommandShape | lib/source/scd30.c:193-209 | a read command writes the two opcode bytes once to the unflagged address, and then reads `len` bytes from the read address if and only if that write succeeded; it returns 0 exactly when something is received, otherwise the failing leg's code unchanged |
| Driver.Convert | lib/source/scd30.c:150-168 | returns 0 and stores the decoded word when both groups check, and otherwise returns -1 with `*value` untouched |
| Driver.StoredDistinct | lib/source/scd30.c:118-133 | through distinct pointers the i-th cell holds the i-th value if it was stored, else its old bits |
| Driver.StoredElsewhere | lib/source/scd30.c:118-133 | a cell that no store goes through keeps its bits |
| Driver.ConvertMeasurement | lib/source/scd30.c:118-133 | the three converts in order store exactly the decoded prefix through the three pointers, aliased or not, leave the cells of later slots untouched, and return 0 only when all three succeed |
| Driver.Scd30.Init | lib/source/scd30.c:18-36 | stores address, driver and context, issues the firmware-version read as a probe, and returns the probe's negative code or 0 |
| Driver.Scd30.WriteCommand | lib/source/scd30.c:171-190 | exactly one transport write of the command's frame to the address ORed with `I2C_WRITE_FLAG`; returns the transport's negative code unchanged, otherwise 0 |
| Driver.Scd30.ReadCommand | lib/source/scd30.c:193-209 | the opcode write, and then the read of `buffLen` bytes only if that write succeeded; the buffer as the transport left it; the failing leg's code or 0 |
| Driver.Scd30.SetMeasurementInterval | lib/source/scd30.c:39-41 | one write of the SetMeasurementInterval frame carrying the interval; the code is returned as `write_command` returns it |
| Driver.Scd30.StartContinuous | lib/source/scd30.c:44-46 | one write of the StartContinuousMode frame carrying the pressure compensation |
| Driver.Scd30.StopContinuous | lib/source/scd30.c:49-51 | one write of the bare StopContinuousMode opcode |
| Driver.Scd30.SetAfc | lib/source/scd30.c:54-57 | one write of the SetAfc frame carrying 1 when enabling and 0 when disabling |
| Driver.Scd30.SetFrc | lib/source/scd30.c:60-62 | one write of the SetFrc frame carrying the reference concentration |
| Driver.Scd30.SetTempOffset | lib/source/scd30.c:65-68 | one write of the SetTempOffset frame carrying the converted offset |
| Driver.Scd30.SetAltOffset | lib/source/scd30.c:71-73 | one write of the SetAltComp frame carrying the altitude |
| Driver.Scd30.SoftReset | lib/source/scd30.c:76-78 | one write of the bare SoftReset opcode |
| Driver.Scd30.FirmwareVersion | lib/source/scd30.c:81-83 | a read command for GetFirmwareVersion of the two bytes of the version; when both legs succeed the version holds exactly the received bytes, raw, with no checksum check; when the opcode write fails it is unchanged; after a failed read leg it holds what the transport left |
| Driver.Scd30.DataReady | lib/source/scd30.c:86-107 | a transport failure's code; otherwise -1 on a checksum mismatch of the 3-byte answer, else 1 when data[1] is non-zero and 0 when it is zero |
| Driver.Scd30.GetMeasurement | lib/source/scd30.c:110-134 | one read command of 18 bytes; on a transport failure its code with no output written; otherwise CO2, temperature and humidity are decoded from offsets 0, 6 and 12 in order, stopping at the first failure, with earlier outputs written and later ones untouched, and through aliased pointers the last store wins |
| Driver.Scd30.Close | lib/source/scd30.c:137-147 | exactly one stop write, whatever its outcome; the driver and context are cleared; always returns 0 |
| Driver.FirmwareReadOverruns | lib/source/scd30.c:82 | with the length passed as written, the size of a pointer, on 32- and 64-bit targets: the probe's read transaction asks for more than the 2 bytes of the destination, so it differs from the intended read and `read_command`'s length bound fails; a successful read receives 2 or 6 bytes more than the destination holds |
| Session.SensorAnswersSession | lib/source/scd30.c:86-134 | the replies of a sensor that answers "not ready", then "ready", then a measurement encoded with its three values, meet what a session needs |
| Session.RunSession | lib/source/scd30.c:18-147 | against those replies: init, start, two polls returning 0 then 1, a measurement yielding exactly the three values, and close; the bus sees exactly the session's ten transactions, with the stop last and only once |
| Session.ProbeWithoutSensor | lib/source/scd30.c:18-31 | with no device answering, init returns -1 after a single opcode write and issues no read |

## Left out

- The physical bus. The transport functions are modelled as the `Bus`
  oracle: a trace plus scripted replies. `i2c_write_read` is never called
  by `scd30.c` and is not modelled.
- Logging. The `printf` calls at `scd30.c:29`, `:33` and `:140` have no
  effect on results.
- The IEEE-754 meaning of the decoded words. The model stops at the
  32-bit pattern that `scd30.c:165` reinterprets as a `float`.
- Driver.Scd30.SetTempOffset: takes the offset already converted to a
  `uint16_t`.
  - `(uint16_t)(temp * 100)` at `scd30.c:66` is floating-point arithmetic
    and a truncating cast, and is not modelled.
  - The example "43 degrees -> 430" at `device.h:46` contradicts the ×100
    factor of the code.
- Driver.Scd30.SetMeasurementInterval: the documented range of 2 to 1800
  seconds (`device.h:26`) is not checked, as in the code. Any 16-bit value
  is sent.
- Driver.Scd30.FirmwareVersion: reads the two bytes of the version, not
  the pointer-sized length the code passes (see Findings).
  - The host-endian reinterpretation of the two bytes as a `uint16_t` is
    not modelled; they are kept as bytes.
  - `scd30_init` discards the version apart from printing it.
- Driver.Scd30.Init and every other command require `driver != null`. The
  C code would dereference a null driver after `scd30_close`, so such
  calls are outside the model.
- Crc.ComputeCrc8: the length is an unbounded `nat`, where the C parameter
  is a `uint8_t`. Every call in the driver passes 2.
- The `uint8_t buff_len` of `read_command` is likewise a `nat`. Every call
  passes a length of at most 18.
- Transport return codes are unbounded integers. Only their sign matters
  to the driver.

## Findings

| source | as written | input that shows it | evidently intended | confidence | as-written member | corrected member |
|---|---|---|---|---|---|---|
| lib/source/scd30.c:82 | `read_command(device, GetFirmwareVersion, (uint8_t*)version, sizeof(version))` passes the size of the pointer `version` | any call on a 32-bit target (4 bytes) or a 64-bit target (8 bytes); `scd30_init` passes the address of a 2-byte local, so the read overruns it by 2 or 6 bytes | read the two bytes of the version, `sizeof(*version)` | high for the overrun; not executed | Driver.FirmwareReadOverruns | Driver.Scd30.FirmwareVersion |
