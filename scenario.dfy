/**
 * A client session against a sensor that answers every transaction: probe,
 * start continuous mode, poll the ready flag until it is set, read one
 * measurement, close.
 */
module Session {
  import opened Options
  import opened Device
  import opened Transport
  import opened Frames
  import opened Driver

  /** The bus context the client hands to the driver. */
  const CTX: nat := 7

  /**
   * The replies of a sensor that answers the first poll "not ready" and the
   * second "ready", then reports CO2 `co2`, temperature `temp` and humidity
   * `humid`.
   */
  function SensorReplies(co2: bv32, temp: bv32, humid: bv32): seq<Reply> {
    [ Reply(0, []), Reply(0, [0x03, 0x42]),                       // firmware version
      Reply(0, []),                                               // start continuous mode
      Reply(0, []), Reply(0, [0x00, 0x00, 0x81]),                 // data ready: not yet
      Reply(0, []), Reply(0, [0x00, 0x01, 0xB0]),                 // data ready: yes
      Reply(0, []), Reply(0, EncodeMeasurement(co2, temp, humid)), // measurement
      Reply(0, []) ]                                              // stop on close
  }

  /** The transactions of each step on the bus, at the default address. */
  const PROBE_OPS: seq<Op> := [Op.Write(CTX, 0x61, [0xD1, 0x00]), Op.Read(CTX, 0x61, 2)]
  const START_OPS: seq<Op> := [Op.Write(CTX, 0x61, [0x00, 0x10, 0x00, 0x00, 0x81])]
  const POLL_OPS: seq<Op> := [Op.Write(CTX, 0x61, [0x02, 0x02]), Op.Read(CTX, 0x61, 3)]
  const MEASURE_OPS: seq<Op> := [Op.Write(CTX, 0x61, [0x03, 0x00]), Op.Read(CTX, 0x61, 18)]
  const STOP_OPS: seq<Op> := [Op.Write(CTX, 0x61, [0x01, 0x04])]

  /** The transactions of the whole session: one probe, one start, two polls, one measurement, one stop. */
  function SessionTrace(): seq<Op> {
    PROBE_OPS + START_OPS + POLL_OPS + POLL_OPS + MEASURE_OPS + STOP_OPS
  }

  /** A poll answered on both legs with a group that decodes as `ready`. */
  predicate PollAnswer(s: seq<Reply>, ready: int) {
    Next(s).code >= 0 && Received(s, READY_BYTES).Some? && DecodeReady(Received(s, READY_BYTES).value) == ready
  }

  /** A measurement read answered on both legs with bytes that decode to the three values. */
  predicate MeasurementAnswer(s: seq<Reply>, co2: bv32, temp: bv32, humid: bv32) {
    && Next(s).code >= 0 && Received(s, MEASUREMENT_BYTES).Some?
    && DecodedPrefix(Received(s, MEASUREMENT_BYTES).value) == [co2, temp, humid]
  }

  /**
   * What a session needs of the replies: the probe and the start command
   * succeed, the first poll decodes as "not ready" and the second as "ready",
   * and the measurement read delivers bytes that decode to the three values.
   */
  predicate AnswersSession(s: seq<Reply>, co2: bv32, temp: bv32, humid: bv32) {
    var started := ReadConsumes(s);
    var polling := Rest(started);
    var secondPoll := ReadConsumes(polling);
    var measuring := ReadConsumes(secondPoll);
    && ReadStatus(s) == 0 && Next(started).code == 0
    && PollAnswer(polling, 0) && PollAnswer(secondPoll, 1)
    && MeasurementAnswer(measuring, co2, temp, humid)
  }

  /** The sensor's replies are such replies. */
  lemma SensorAnswersSession(co2: bv32, temp: bv32, humid: bv32)
    ensures AnswersSession(SensorReplies(co2, temp, humid), co2, temp, humid)
  {
    var s := SensorReplies(co2, temp, humid);
    assert ReadConsumes(s) == s[2..];
    assert Rest(s[2..]) == s[3..];
    ReadyReplies(s[3..], 0x00, 0x81, 0);
    ReadyReplies(s[5..], 0x01, 0xB0, 1);
    assert s[3..][2..] == s[5..] && s[5..][2..] == s[7..];
    MeasurementReplies(s[7..], co2, temp, humid);
  }

  /**
   * Two successful legs whose read brings 00 `flag` `crc`, the sensor's group
   * for the word `flag`: the poll decodes as `flag`.
   */
  lemma ReadyReplies(s: seq<Reply>, flag: bv8, crc: bv8, ready: int)
    requires (flag, crc, ready) == (0x00, 0x81, 0) || (flag, crc, ready) == (0x01, 0xB0, 1)
    requires |s| >= 2 && s[0] == Reply(0, []) && s[1] == Reply(0, [0x00, flag, crc])
    ensures PollAnswer(s, ready) && ReadConsumes(s) == s[2..]
  {
    DeliveredExactly([0x00, flag, crc]);
    ReadyExamples();
  }

  /** Two successful legs whose read brings the encoding of a measurement: it decodes completely. */
  lemma MeasurementReplies(s: seq<Reply>, co2: bv32, temp: bv32, humid: bv32)
    requires |s| >= 2 && s[0] == Reply(0, []) && s[1] == Reply(0, EncodeMeasurement(co2, temp, humid))
    ensures MeasurementAnswer(s, co2, temp, humid)
  {
    DeliveredExactly(EncodeMeasurement(co2, temp, humid));
    MeasurementRoundTrip(co2, temp, humid);
  }

  /** The opcode bytes of the three read commands of the session. */
  lemma ReadOpcodeBytes()
    ensures OpcodeBytes(Opcode(GetFirmwareVersion)) == [0xD1, 0x00]
    ensures OpcodeBytes(Opcode(GetDataReady)) == [0x02, 0x02]
    ensures OpcodeBytes(Opcode(ReadMeasurement)) == [0x03, 0x00]
  {
  }

  /** A device opened at the default address with context CTX. */
  predicate Opened(dev: Scd30)
    reads dev
  {
    dev.driver != null && dev.address == DEFAULT_ADDRESS && dev.ctx == CTX
  }

  /** Probe a sensor that answers the firmware-version read. */
  method Open(script: seq<Reply>) returns (dev: Scd30, bus: Bus)
    requires ReadStatus(script) == 0
    ensures fresh(dev) && fresh(bus) && Opened(dev) && dev.driver == bus
    ensures bus.trace == PROBE_OPS && bus.script == ReadConsumes(script)
  {
    ReadOpcodeBytes();
    DirectionFlags(DEFAULT_ADDRESS);
    bus := new Bus(script);
    dev := new Scd30();
    var r := dev.Init(DEFAULT_ADDRESS, bus, CTX);
  }

  /** Start continuous mode without pressure compensation; the write is acknowledged. */
  method StartSampling(dev: Scd30)
    requires Opened(dev) && Next(dev.driver.script).code == 0
    modifies dev.driver
    ensures dev.driver.trace == old(dev.driver.trace) + START_OPS
    ensures dev.driver.script == Rest(old(dev.driver.script))
  {
    RequestFrameExamples();
    DirectionFlags(DEFAULT_ADDRESS);
    var r := dev.StartContinuous(0);
  }

  /** Poll the ready flag of a sensor whose answer decodes as `expected`. */
  method Poll(dev: Scd30, ghost expected: int) returns (ready: int)
    requires Opened(dev) && PollAnswer(dev.driver.script, expected)
    modifies dev.driver
    ensures ready == expected
    ensures dev.driver.trace == old(dev.driver.trace) + POLL_OPS
    ensures dev.driver.script == ReadConsumes(old(dev.driver.script))
  {
    ReadOpcodeBytes();
    DirectionFlags(DEFAULT_ADDRESS);
    ready := dev.DataReady();
  }

  /** Read one measurement from a sensor whose next answers carry the three values. */
  method Measure(dev: Scd30, co2: bv32, temp: bv32, humid: bv32) returns (res: int, got: seq<bv32>)
    requires Opened(dev) && MeasurementAnswer(dev.driver.script, co2, temp, humid)
    modifies dev.driver
    ensures res == 0 && got == [co2, temp, humid]
    ensures dev.driver.trace == old(dev.driver.trace) + MEASURE_OPS
    ensures dev.driver.script == ReadConsumes(old(dev.driver.script))
  {
    ReadOpcodeBytes();
    DirectionFlags(DEFAULT_ADDRESS);
    var c := new FloatCell(0);
    var t := new FloatCell(0);
    var h := new FloatCell(0);
    res := dev.GetMeasurement(c, t, h);
    StoredDistinct([c, t, h], [co2, temp, humid], 0, 0);
    StoredDistinct([c, t, h], [co2, temp, humid], 1, 0);
    StoredDistinct([c, t, h], [co2, temp, humid], 2, 0);
    got := [c.bits, t.bits, h.bits];
  }

  /** Close the device: one stop write, whatever its outcome. */
  method Finish(dev: Scd30)
    requires Opened(dev)
    modifies dev, dev.driver
    ensures old(dev.driver).trace == old(dev.driver.trace) + STOP_OPS
  {
    RequestFrameExamples();
    DirectionFlags(DEFAULT_ADDRESS);
    var r := dev.Close();
  }

  /**
   * Against such replies every step succeeds, the first poll reports "not
   * ready" and the second "ready", the three values arrive exactly as the
   * sensor sent them, and the bus sees exactly the session's transactions,
   * the stop last and only once.
   */
  method RunSession(script: seq<Reply>, co2: bv32, temp: bv32, humid: bv32)
    returns (polls: seq<int>, res: int, got: seq<bv32>, trace: seq<Op>)
    requires AnswersSession(script, co2, temp, humid)
    ensures polls == [0, 1] && res == 0 && got == [co2, temp, humid]
    ensures trace == SessionTrace()
  {
    var dev, bus := Open(script);
    StartSampling(dev);
    var first := Poll(dev, 0);
    var second := Poll(dev, 1);
    polls := [first, second];
    res, got := Measure(dev, co2, temp, humid);
    Finish(dev);
    trace := bus.trace;
  }

  /**
   * With no sensor on the bus the probe's opcode write is not acknowledged:
   * init reports the failure and no read is attempted.
   */
  method ProbeWithoutSensor() returns (res: int, trace: seq<Op>)
    ensures res == -1 && trace == [Op.Write(0, 0x61, [0xD1, 0x00])]
  {
    var bus := new Bus([]);
    var dev := new Scd30();
    res := dev.Init(0x61, bus, 0);
    trace := bus.trace;
  }
}
