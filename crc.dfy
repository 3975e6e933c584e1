/**
 * The CRC-8 used on every checksummed byte pair (lib/source/scd30.c:213-229):
 * bit-serial, most significant bit first, polynomial 0x31, initial register
 * 0xFF, no final XOR, no reflection.
 */
module Crc {
  import opened Device

  /** One bit step: shift left, folding the polynomial back in when the top bit falls out. */
  function Shift(reg: bv8): bv8 {
    if reg & 0x80 != 0 then (reg << 1) ^ CRC_POLY else reg << 1
  }

  /** `n` bit steps. */
  function Shifts(reg: bv8, n: nat): bv8 {
    if n == 0 then reg else Shift(Shifts(reg, n - 1))
  }

  /** Absorbing one input byte: XOR it into the register, then eight bit steps. */
  function ByteStep(reg: bv8, b: bv8): bv8 {
    Shifts(reg ^ b, 8)
  }

  /** The register after absorbing all of `s`, starting from CRC_INIT. */
  function Register(s: seq<bv8>): bv8 {
    if s == [] then CRC_INIT else ByteStep(Register(s[..|s| - 1]), s[|s| - 1])
  }

  /** The checksum of a byte sequence. */
  function Crc8(s: seq<bv8>): bv8 {
    Register(s) ^ CRC_XOR
  }

  /**
   * The driver's crc8: a nested loop over `length` bytes starting at `off`,
   * updating one register in place.
   */
  method ComputeCrc8(data: array<bv8>, off: nat, length: nat) returns (crc: bv8)
    requires off + length <= data.Length
    ensures crc == Crc8(data[off..off + length])
  {
    crc := CRC_INIT;
    var i := 0;
    while i < length
      invariant 0 <= i <= length
      invariant crc == Register(data[off..off + i])
    {
      crc := crc ^ data[off + i];
      ghost var absorbed := crc;
      var b := 0;
      while b < 8
        invariant 0 <= b <= 8
        invariant crc == Shifts(absorbed, b)
      {
        if crc & 0x80 != 0 {
          crc := (crc << 1) ^ CRC_POLY;
        } else {
          crc := crc << 1;
        }
        b := b + 1;
      }
      assert data[off..off + i + 1][..i] == data[off..off + i];
      i := i + 1;
    }
    crc := crc ^ CRC_XOR;
  }

  /** A byte step written out as its eight bit steps. */
  lemma ByteStepUnrolled(reg: bv8, b: bv8)
    ensures ByteStep(reg, b) == Shift(Shift(Shift(Shift(Shift(Shift(Shift(Shift(reg ^ b))))))))
  {
    var x := reg ^ b;
    assert Shifts(x, 1) == Shift(x);
    assert Shifts(x, 2) == Shift(Shift(x));
    assert Shifts(x, 3) == Shift(Shift(Shift(x)));
    assert Shifts(x, 4) == Shift(Shift(Shift(Shift(x))));
    assert Shifts(x, 5) == Shift(Shift(Shift(Shift(Shift(x)))));
    assert Shifts(x, 6) == Shift(Shift(Shift(Shift(Shift(Shift(x))))));
    assert Shifts(x, 7) == Shift(Shift(Shift(Shift(Shift(Shift(Shift(x)))))));
  }

  /** The CRC of two bytes, as the register after two byte steps. */
  lemma TwoBytes(a: bv8, b: bv8)
    ensures Crc8([a, b]) == ByteStep(ByteStep(CRC_INIT, a), b)
  {
    RegisterSnoc([], a);
    RegisterSnoc([a], b);
    assert [a] + [b] == [a, b];
  }

  /** Known answers of this CRC: 0xBEEF gives 0x92 and 0x0000 gives 0x81. */
  lemma KnownAnswers()
    ensures Crc8([0xBE, 0xEF]) == 0x92
    ensures Crc8([0x00, 0x00]) == 0x81
  {
    TwoBytes(0xBE, 0xEF);
    ByteStepUnrolled(CRC_INIT, 0xBE);
    ByteStepUnrolled(0x0C, 0xEF);
    TwoBytes(0x00, 0x00);
    ByteStepUnrolled(CRC_INIT, 0x00);
    ByteStepUnrolled(0xAC, 0x00);
  }

  /** A bit step is linear over GF(2) ... */
  lemma ShiftLinear(x: bv8, y: bv8)
    ensures Shift(x ^ y) == Shift(x) ^ Shift(y)
  {
    assert (x ^ y) << 1 == (x << 1) ^ (y << 1);
    assert (x ^ y) & 0x80 != 0 <==> ((x & 0x80 != 0) != (y & 0x80 != 0));
  }

  /** ... and, because the polynomial has its lowest bit set, it loses no information. */
  lemma ShiftZero(x: bv8)
    ensures Shift(x) == 0 <==> x == 0
  {
  }

  lemma {:induction false} ShiftsLinear(x: bv8, y: bv8, n: nat)
    ensures Shifts(x ^ y, n) == Shifts(x, n) ^ Shifts(y, n)
  {
    if n > 0 {
      ShiftsLinear(x, y, n - 1);
      ShiftLinear(Shifts(x, n - 1), Shifts(y, n - 1));
    }
  }

  lemma {:induction false} ShiftsZero(x: bv8, n: nat)
    ensures Shifts(x, n) == 0 <==> x == 0
  {
    if n > 0 {
      ShiftsZero(x, n - 1);
      ShiftZero(Shifts(x, n - 1));
    }
  }

  /** Appending a byte to the input: the register absorbs it with one byte step. */
  lemma RegisterSnoc(s: seq<bv8>, b: bv8)
    ensures Register(s + [b]) == ByteStep(Register(s), b)
  {
    assert (s + [b])[..|s|] == s;
  }

  /**
   * Appending the checksum to the data it covers leaves a zero register:
   * a sender's frame always validates at the receiver.
   */
  lemma AppendedChecksumLeavesZero(s: seq<bv8>)
    ensures Crc8(s + [Crc8(s)]) == 0
  {
    RegisterSnoc(s, Crc8(s));
    ShiftsZero(Register(s) ^ Crc8(s), 8);
  }

  /** A byte `c` is the checksum of `s` exactly when the CRC over `s` followed by `c` is zero. */
  lemma ChecksumMatchIffZero(s: seq<bv8>, c: bv8)
    ensures Crc8(s) == c <==> Crc8(s + [c]) == 0
  {
    RegisterSnoc(s, c);
    ShiftsZero(Register(s) ^ c, 8);
  }

  /** A byte step is linear in the register and the input byte together. */
  lemma ByteStepLinear(r: bv8, b: bv8, er: bv8, eb: bv8)
    ensures ByteStep(r ^ er, b ^ eb) == ByteStep(r, b) ^ ByteStep(er, eb)
  {
    ShiftsOfXors(r, er, b, eb, 8);
  }

  lemma ShiftsOfXors(r: bv8, er: bv8, b: bv8, eb: bv8, n: nat)
    ensures Shifts((r ^ er) ^ (b ^ eb), n) == Shifts(r ^ b, n) ^ Shifts(er ^ eb, n)
  {
    XorSwap(r, er, b, eb);
    ShiftsLinear(r ^ b, er ^ eb, n);
  }

  /** The special case of an error in the input byte alone. */
  lemma ByteStepInputLinear(r: bv8, b: bv8, eb: bv8)
    ensures ByteStep(r, b ^ eb) == ByteStep(r, b) ^ ByteStep(0, eb)
  {
    ByteStepLinear(r, b, 0, eb);
    assert r ^ 0 == r;
  }

  lemma XorSwap(r: bv8, er: bv8, b: bv8, eb: bv8)
    ensures (r ^ er) ^ (b ^ eb) == (r ^ b) ^ (er ^ eb)
  {
  }

  /**
   * The effect of an error pattern on the checksum of a byte pair: the
   * checksum of the corrupted pair is that of the original pair XORed with a
   * term that depends on the error pattern alone.
   */
  lemma ErrorTerm(a: bv8, b: bv8, ea: bv8, eb: bv8)
    ensures Crc8([a ^ ea, b ^ eb]) == Crc8([a, b]) ^ ByteStep(ByteStep(0, ea), eb)
  {
    TwoBytes(a, b);
    TwoBytes(a ^ ea, b ^ eb);
    TwoStepsLinear(a, b, ea, eb);
  }

  lemma TwoStepsLinear(a: bv8, b: bv8, ea: bv8, eb: bv8)
    ensures ByteStep(ByteStep(CRC_INIT, a ^ ea), b ^ eb)
         == ByteStep(ByteStep(CRC_INIT, a), b) ^ ByteStep(ByteStep(0, ea), eb)
  {
    ByteStepInputLinear(CRC_INIT, a, ea);
    ByteStepLinear(ByteStep(CRC_INIT, a), b, ByteStep(0, ea), eb);
  }

  /**
   * Every corruption confined to one byte of a 3-byte group (two data bytes
   * and their checksum) is detected; in particular every single-bit flip.
   */
  lemma SingleByteErrorDetected(a: bv8, b: bv8, c: bv8, ea: bv8, eb: bv8, ec: bv8)
    requires Crc8([a, b]) == c
    requires SingleByteError(ea, eb, ec)
    ensures Crc8([a ^ ea, b ^ eb]) != c ^ ec
  {
    ErrorTerm(a, b, ea, eb);
    ErrorTermDiffers(ea, eb, ec);
    XorCancels(Crc8([a ^ ea, b ^ eb]), c, ByteStep(ByteStep(0, ea), eb), ec);
  }

  /**
   * The same fact stated on the received bytes: if a2, b2, c2 differ from a
   * checksummed pair a, b and its checksum c in exactly one position, the
   * received checksum does not match.
   */
  lemma CorruptionDetected(a: bv8, b: bv8, c: bv8, a2: bv8, b2: bv8, c2: bv8)
    requires Crc8([a, b]) == c
    requires (a2 != a && b2 == b && c2 == c) || (a2 == a && b2 != b && c2 == c) || (a2 == a && b2 == b && c2 != c)
    ensures Crc8([a2, b2]) != c2
  {
    XorRecovers(a, a2);
    XorRecovers(b, b2);
    XorRecovers(c, c2);
    DifferencePattern(a, b, c, a2, b2, c2);
    SingleByteErrorDetected(a, b, c, a ^ a2, b ^ b2, c ^ c2);
  }

  lemma XorRecovers(x: bv8, y: bv8)
    ensures x ^ (x ^ y) == y
    ensures x ^ y == 0 <==> x == y
  {
  }

  lemma DifferencePattern(a: bv8, b: bv8, c: bv8, a2: bv8, b2: bv8, c2: bv8)
    requires (a2 != a && b2 == b && c2 == c) || (a2 == a && b2 != b && c2 == c) || (a2 == a && b2 == b && c2 != c)
    ensures SingleByteError(a ^ a2, b ^ b2, c ^ c2)
  {
    XorRecovers(a, a2);
    XorRecovers(b, b2);
    XorRecovers(c, c2);
  }

  /** An error pattern over a group that touches exactly one of its three bytes. */
  predicate SingleByteError(ea: bv8, eb: bv8, ec: bv8) {
    (ea != 0 && eb == 0 && ec == 0) || (ea == 0 && eb != 0 && ec == 0) || (ea == 0 && eb == 0 && ec != 0)
  }

  lemma ErrorTermDiffers(ea: bv8, eb: bv8, ec: bv8)
    requires SingleByteError(ea, eb, ec)
    ensures ByteStep(ByteStep(0, ea), eb) != ec
  {
    ErrorTermNonZero(ea, eb);
  }

  lemma XorCancels(x: bv8, c: bv8, e: bv8, ec: bv8)
    requires x == c ^ e && e != ec
    ensures x != c ^ ec
  {
  }

  /** For an error in one byte of the pair, the error term vanishes only when there is no error. */
  lemma ErrorTermNonZero(ea: bv8, eb: bv8)
    requires ea == 0 || eb == 0
    ensures ByteStep(ByteStep(0, ea), eb) == 0 <==> ea == 0 && eb == 0
  {
    var e1 := ByteStep(0, ea);
    assert 0 ^ ea == ea;
    ShiftsZero(ea, 8);
    ShiftsZero(e1 ^ eb, 8);
  }
}
