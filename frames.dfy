/**
 * The byte layouts of the SCD30 protocol (lib/source/scd30.c): outgoing
 * command frames, checksummed 3-byte response groups, 32-bit words carried in
 * two groups, the data-ready flag and the 18-byte measurement response.
 * Each decoder is paired with the encoder the sensor side would use.
 */
module Frames {
  import opened Options
  import opened Device
  import opened Crc

  /** Big-endian halves of a 16-bit word. */
  function Hi(w: bv16): bv8 { (w >> 8) as bv8 }
  function Lo(w: bv16): bv8 { (w & 0xFF) as bv8 }

  /** The 16-bit word with the given big-endian bytes. */
  function Join(hi: bv8, lo: bv8): (w: bv16)
    ensures Hi(w) == hi && Lo(w) == lo
  {
    ((hi as bv16) << 8) | (lo as bv16)
  }

  lemma JoinHiLo(w: bv16)
    ensures Join(Hi(w), Lo(w)) == w
  {
  }

  // ---------------------------------------------------------------------
  // Outgoing frames (write_command, lib/source/scd30.c:171-182)
  // ---------------------------------------------------------------------

  /** The two opcode bytes, most significant first. */
  function OpcodeBytes(command: bv16): seq<bv8> {
    [Hi(command), Lo(command)]
  }

  /**
   * The bytes write_command sends: the opcode alone, or the opcode, the
   * parameter (big-endian) and the checksum of the two parameter bytes.
   */
  function Frame(command: bv16, data: Option<bv16>): seq<bv8> {
    match data
    case None => OpcodeBytes(command)
    case Some(d) => OpcodeBytes(command) + [Hi(d), Lo(d), Crc8([Hi(d), Lo(d)])]
  }

  /** How the sensor reads a frame: a bare opcode, or an opcode and a checksummed parameter. */
  function ParseFrame(f: seq<bv8>): Option<(bv16, Option<bv16>)> {
    if |f| == 2 then Some((Join(f[0], f[1]), None))
    else if |f| == 5 && Crc8(f[2..4]) == f[4] then Some((Join(f[0], f[1]), Some(Join(f[2], f[3]))))
    else None
  }

  /**
   * The layout of a frame: 2 bytes without a parameter, 5 with one; the
   * checksum covers exactly the two parameter bytes and never the opcode.
   */
  lemma FrameLayout(command: bv16, data: Option<bv16>)
    ensures var f := Frame(command, data);
      && |f| == (if data.Some? then 5 else 2)
      && f[..2] == OpcodeBytes(command)
      && (data.Some? ==> f[2] == Hi(data.value) && f[3] == Lo(data.value) && f[4] == Crc8(f[2..4]))
  {
    if data.Some? {
      var f := Frame(command, data);
      assert f[2..4] == [Hi(data.value), Lo(data.value)];
    }
  }

  /** The checksum byte of a frame does not depend on the opcode. */
  lemma ChecksumIgnoresOpcode(c1: bv16, c2: bv16, d: bv16)
    ensures Frame(c1, Some(d))[4] == Frame(c2, Some(d))[4]
  {
  }

  /** The sensor recovers the opcode and parameter of every frame the driver sends ... */
  lemma ParseFrameRoundTrip(command: bv16, data: Option<bv16>)
    ensures ParseFrame(Frame(command, data)) == Some((command, data))
  {
    JoinHiLo(command);
    var f := Frame(command, data);
    if data.Some? {
      JoinHiLo(data.value);
      assert f[2..4] == [Hi(data.value), Lo(data.value)];
    }
  }

  /** ... and accepts nothing else. */
  lemma ParseFrameOnlyFrames(f: seq<bv8>)
    requires ParseFrame(f).Some?
    ensures Frame(ParseFrame(f).value.0, ParseFrame(f).value.1) == f
  {
    if |f| == 5 {
      assert f[2..4] == [f[2], f[3]];
    }
  }

  // ---------------------------------------------------------------------
  // Response groups: two data bytes and their checksum
  // ---------------------------------------------------------------------

  /** The group the sensor sends for a 16-bit word. */
  function Group(w: bv16): seq<bv8> {
    [Hi(w), Lo(w), Crc8([Hi(w), Lo(w)])]
  }

  /** The check the driver applies to a group: the third byte is the checksum of the first two. */
  predicate GroupValid(g: seq<bv8>)
    requires |g| == 3
  {
    Crc8(g[..2]) == g[2]
  }

  /** A group passes the check exactly when it is the group of its own data bytes. */
  lemma GroupValidIffEncoded(g: seq<bv8>)
    requires |g| == 3
    ensures GroupValid(g) <==> g == Group(Join(g[0], g[1]))
  {
    assert g[..2] == [g[0], g[1]];
  }

  /** A valid group with any one byte altered fails the check; so does every single-bit flip. */
  lemma CorruptedGroupRejected(g: seq<bv8>, h: seq<bv8>, k: nat)
    requires |g| == 3 && |h| == 3 && k < 3
    requires GroupValid(g)
    requires h[k] != g[k]
    requires forall i :: 0 <= i < 3 && i != k ==> h[i] == g[i]
    ensures !GroupValid(h)
  {
    assert g[..2] == [g[0], g[1]] && h[..2] == [h[0], h[1]];
    CorruptionDetected(g[0], g[1], g[2], h[0], h[1], h[2]);
  }

  // ---------------------------------------------------------------------
  // 32-bit words in two groups (convert, lib/source/scd30.c:150-168)
  // ---------------------------------------------------------------------

  /** The word whose big-endian bytes are b0, b1, b3, b4 (the bit pattern of a float). */
  function AssembleWord(b0: bv8, b1: bv8, b3: bv8, b4: bv8): (w: bv32)
    ensures ((w >> 24) & 0xFF) as bv8 == b0
    ensures ((w >> 16) & 0xFF) as bv8 == b1
    ensures ((w >> 8) & 0xFF) as bv8 == b3
    ensures (w & 0xFF) as bv8 == b4
  {
    ((b0 as bv32) << 24) | ((b1 as bv32) << 16) | ((b3 as bv32) << 8) | (b4 as bv32)
  }

  /** Most and least significant 16 bits of a word. */
  function High16(w: bv32): bv16 { (w >> 16) as bv16 }
  function Low16(w: bv32): bv16 { (w & 0xFFFF) as bv16 }

  /** What convert accepts and yields from six bytes: nothing if either group fails its check. */
  function DecodeWord(g: seq<bv8>): Option<bv32>
    requires |g| == 6
  {
    if !GroupValid(g[..3]) || !GroupValid(g[3..]) then None
    else Some(AssembleWord(g[0], g[1], g[3], g[4]))
  }

  /** The six bytes the sensor sends for a word: its high half's group, then its low half's. */
  function EncodeWord(w: bv32): (g: seq<bv8>)
    ensures |g| == 6
  {
    Group(High16(w)) + Group(Low16(w))
  }

  lemma AssembleHalves(w: bv32)
    ensures AssembleWord(Hi(High16(w)), Lo(High16(w)), Hi(Low16(w)), Lo(Low16(w))) == w
  {
  }

  lemma HalvesOfAssembled(b0: bv8, b1: bv8, b3: bv8, b4: bv8)
    ensures High16(AssembleWord(b0, b1, b3, b4)) == Join(b0, b1)
    ensures Low16(AssembleWord(b0, b1, b3, b4)) == Join(b3, b4)
  {
  }

  /** Every word the sensor encodes decodes to itself ... */
  lemma DecodeEncodeWord(w: bv32)
    ensures DecodeWord(EncodeWord(w)) == Some(w)
  {
    var g := EncodeWord(w);
    assert g[..3] == Group(High16(w)) && g[3..] == Group(Low16(w));
    GroupValidIffEncoded(g[..3]);
    GroupValidIffEncoded(g[3..]);
    JoinHiLo(High16(w));
    JoinHiLo(Low16(w));
    AssembleHalves(w);
  }

  /**
   * ... and every six bytes that decode are exactly the encoding of the word
   * they decode to: the checksum bytes g[2] and g[5] are checked but never
   * enter the value.
   */
  lemma EncodeDecodeWord(g: seq<bv8>)
    requires |g| == 6 && DecodeWord(g).Some?
    ensures EncodeWord(DecodeWord(g).value) == g
  {
    var w := DecodeWord(g).value;
    GroupValidIffEncoded(g[..3]);
    GroupValidIffEncoded(g[3..]);
    HalvesOfAssembled(g[0], g[1], g[3], g[4]);
    assert g == g[..3] + g[3..];
  }

  /** The worked example of the protocol: 43 DB | 85 1F decodes to the word 0x43DB851F. */
  lemma DecodeExample()
    ensures DecodeWord([0x43, 0xDB, 0xCB, 0x85, 0x1F, 0xB8]) == Some(0x43DB851F)
  {
    DecodeEncodeWord(0x43DB851F);
    GroupCrcExamples();
    assert EncodeWord(0x43DB851F) == [0x43, 0xDB, 0xCB, 0x85, 0x1F, 0xB8];
  }

  lemma GroupCrcExamples()
    ensures Crc8([0x43, 0xDB]) == 0xCB
    ensures Crc8([0x85, 0x1F]) == 0xB8
  {
    TwoBytes(0x43, 0xDB);
    ByteStepUnrolled(CRC_INIT, 0x43);
    ByteStepUnrolled(ByteStep(CRC_INIT, 0x43), 0xDB);
    TwoBytes(0x85, 0x1F);
    ByteStepUnrolled(CRC_INIT, 0x85);
    ByteStepUnrolled(ByteStep(CRC_INIT, 0x85), 0x1F);
  }

  // ---------------------------------------------------------------------
  // The data-ready flag (scd30_data_ready, lib/source/scd30.c:95-106)
  // ---------------------------------------------------------------------

  /**
   * What scd30_data_ready reports for a received group: -1 when the group
   * fails its check, else 1 when its second byte is non-zero and 0 otherwise.
   */
  function DecodeReady(g: seq<bv8>): int
    requires |g| == 3
  {
    if !GroupValid(g) then -1
    else if g[1] != 0 then 1
    else 0
  }

  /**
   * For every group the sensor sends, the flag is the low byte of the word
   * being non-zero; the high byte is never looked at.
   */
  lemma ReadyOfGroup(w: bv16)
    ensures DecodeReady(Group(w)) == (if Lo(w) != 0 then 1 else 0)
  {
    GroupValidIffEncoded(Group(w));
    JoinHiLo(w);
  }

  /** A valid answer with any one byte altered is reported as a checksum failure. */
  lemma CorruptedReadyRejected(g: seq<bv8>, h: seq<bv8>, k: nat)
    requires |g| == 3 && |h| == 3 && k < 3
    requires GroupValid(g)
    requires h[k] != g[k]
    requires forall i :: 0 <= i < 3 && i != k ==> h[i] == g[i]
    ensures DecodeReady(h) == -1
  {
    CorruptedGroupRejected(g, h, k);
  }

  /** The sensor's "ready" (0x0001) and "not ready" (0x0000) answers as they decode. */
  lemma ReadyExamples()
    ensures Group(0x0001) == [0x00, 0x01, 0xB0] && DecodeReady([0x00, 0x01, 0xB0]) == 1
    ensures Group(0x0000) == [0x00, 0x00, 0x81] && DecodeReady([0x00, 0x00, 0x81]) == 0
  {
    KnownAnswers();
    TwoBytes(0x00, 0x01);
    ByteStepUnrolled(CRC_INIT, 0x00);
    ByteStepUnrolled(ByteStep(CRC_INIT, 0x00), 0x01);
    ReadyOfGroup(0x0001);
    ReadyOfGroup(0x0000);
  }

  // ---------------------------------------------------------------------
  // The measurement response (scd30_get_measurement, lib/source/scd30.c:110-134)
  // ---------------------------------------------------------------------

  /** The six bytes of the k-th value (CO2, temperature, humidity) of an 18-byte response. */
  function Slot(d: seq<bv8>, k: nat): (g: seq<bv8>)
    requires |d| == 18 && k < 3
    ensures |g| == 6
  {
    d[6 * k..6 * k + 6]
  }

  /**
   * The values decoded from an 18-byte response, in order, up to the first
   * slot that fails its check.
   */
  function DecodedPrefix(d: seq<bv8>): (ws: seq<bv32>)
    requires |d| == 18
    ensures |ws| <= 3
    ensures forall k :: 0 <= k < |ws| ==> DecodeWord(Slot(d, k)) == Some(ws[k])
    ensures |ws| < 3 ==> DecodeWord(Slot(d, |ws|)).None?
  {
    match DecodeWord(Slot(d, 0))
    case None => []
    case Some(co2) =>
      match DecodeWord(Slot(d, 1))
      case None => [co2]
      case Some(temp) =>
        match DecodeWord(Slot(d, 2))
        case None => [co2, temp]
        case Some(humid) => [co2, temp, humid]
  }

  /** The 18 bytes the sensor sends for a measurement. */
  function EncodeMeasurement(co2: bv32, temp: bv32, humid: bv32): (d: seq<bv8>)
    ensures |d| == 18
  {
    EncodeWord(co2) + EncodeWord(temp) + EncodeWord(humid)
  }

  /** The three slots of three 6-byte values laid end to end are those values. */
  lemma SlotsOfConcat(x: seq<bv8>, y: seq<bv8>, z: seq<bv8>)
    requires |x| == 6 && |y| == 6 && |z| == 6
    ensures Slot(x + y + z, 0) == x && Slot(x + y + z, 1) == y && Slot(x + y + z, 2) == z
  {
    var d := x + y + z;
    assert d[..6] == x;
    assert d[6..12] == y;
    assert d[12..] == z;
  }

  /** Every measurement the sensor sends is decoded completely and exactly. */
  lemma MeasurementRoundTrip(co2: bv32, temp: bv32, humid: bv32)
    ensures DecodedPrefix(EncodeMeasurement(co2, temp, humid)) == [co2, temp, humid]
  {
    SlotsOfConcat(EncodeWord(co2), EncodeWord(temp), EncodeWord(humid));
    DecodeEncodeWord(co2);
    DecodeEncodeWord(temp);
    DecodeEncodeWord(humid);
  }

  // ---------------------------------------------------------------------
  // The write commands (the one-line wrappers, lib/source/scd30.c:38-78)
  // ---------------------------------------------------------------------

  /** A write command and its argument, as the driver's public functions take them. */
  datatype Request =
    | Start(pressureMbar: bv16)        // scd30_start_continuous
    | Stop                             // scd30_stop_continuous
    | Interval(seconds: bv16)          // scd30_set_measurement_interval
    | Afc(enabled: bool)               // scd30_set_afc
    | Frc(calPpm: bv16)                // scd30_set_frc
    | TempOffset(centiDegrees: bv16)   // scd30_set_temp_offset, after conversion
    | AltOffset(metres: bv16)          // scd30_set_alt_offset
    | Reset                            // scd30_soft_reset

  /** The command each request is sent as. */
  function CommandOfRequest(r: Request): (c: Command)
    ensures !IsRead(c)
  {
    match r
    case Start(_) => StartContinuousMode
    case Stop => StopContinuousMode
    case Interval(_) => SetMeasurementInterval
    case Afc(_) => SetAfc
    case Frc(_) => SetFrc
    case TempOffset(_) => SetTempOffset
    case AltOffset(_) => SetAltComp
    case Reset => SoftReset
  }

  /** The parameter each request carries; present exactly for the commands documented with data. */
  function ParamOf(r: Request): (p: Option<bv16>)
    ensures p.Some? <==> CarriesData(CommandOfRequest(r))
  {
    match r
    case Start(p) => Some(p)
    case Stop => None
    case Interval(s) => Some(s)
    case Afc(e) => Some(if e then 1 else 0)
    case Frc(p) => Some(p)
    case TempOffset(t) => Some(t)
    case AltOffset(a) => Some(a)
    case Reset => None
  }

  /** The frame a request is sent as. */
  function RequestFrame(r: Request): seq<bv8> {
    Frame(Opcode(CommandOfRequest(r)), ParamOf(r))
  }

  /**
   * Stop and reset are two-byte frames; every other write is five bytes; the
   * sensor recovers the command and the parameter from each.
   */
  lemma RequestFrameShape(r: Request)
    ensures |RequestFrame(r)| == (if r.Stop? || r.Reset? then 2 else 5)
    ensures var p := ParseFrame(RequestFrame(r));
      p.Some? && CommandOf(p.value.0) == Some(CommandOfRequest(r)) && p.value.1 == ParamOf(r)
  {
    FrameLayout(Opcode(CommandOfRequest(r)), ParamOf(r));
    ParseFrameRoundTrip(Opcode(CommandOfRequest(r)), ParamOf(r));
  }

  /** The frames of the protocol's examples, byte for byte. */
  lemma RequestFrameExamples()
    ensures RequestFrame(Start(0)) == [0x00, 0x10, 0x00, 0x00, 0x81]
    ensures RequestFrame(Stop) == [0x01, 0x04]
    ensures RequestFrame(Reset) == [0xD3, 0x04]
    ensures RequestFrame(Afc(true)) == [0x53, 0x06, 0x00, 0x01, 0xB0]
    ensures RequestFrame(Afc(false)) == [0x53, 0x06, 0x00, 0x00, 0x81]
  {
    ReadyExamples();
  }
}
