/**
 The 16-bit FCS of src/pkt.cpp: the 256-entry table, the step macro, and the proof that the table
 computes the bit-serial shift register it was generated from.
 */
module Crc16 {
  import opened Bytes

  const POLYNOMIAL: bv16 := 0x8408
  const SEED: bv16 := 0xFFFF
  const OK_NEG: bv16 := 0xF0B8

  // crc_16_l_table, in rows of sixteen entries.
  const TABLE: seq<seq<bv16>> := [
    [0x0000, 0x1189, 0x2312, 0x329b, 0x4624, 0x57ad, 0x6536, 0x74bf,
     0x8c48, 0x9dc1, 0xaf5a, 0xbed3, 0xca6c, 0xdbe5, 0xe97e, 0xf8f7],
    [0x1081, 0x0108, 0x3393, 0x221a, 0x56a5, 0x472c, 0x75b7, 0x643e,
     0x9cc9, 0x8d40, 0xbfdb, 0xae52, 0xdaed, 0xcb64, 0xf9ff, 0xe876],
    [0x2102, 0x308b, 0x0210, 0x1399, 0x6726, 0x76af, 0x4434, 0x55bd,
     0xad4a, 0xbcc3, 0x8e58, 0x9fd1, 0xeb6e, 0xfae7, 0xc87c, 0xd9f5],
    [0x3183, 0x200a, 0x1291, 0x0318, 0x77a7, 0x662e, 0x54b5, 0x453c,
     0xbdcb, 0xac42, 0x9ed9, 0x8f50, 0xfbef, 0xea66, 0xd8fd, 0xc974],
    [0x4204, 0x538d, 0x6116, 0x709f, 0x0420, 0x15a9, 0x2732, 0x36bb,
     0xce4c, 0xdfc5, 0xed5e, 0xfcd7, 0x8868, 0x99e1, 0xab7a, 0xbaf3],
    [0x5285, 0x430c, 0x7197, 0x601e, 0x14a1, 0x0528, 0x37b3, 0x263a,
     0xdecd, 0xcf44, 0xfddf, 0xec56, 0x98e9, 0x8960, 0xbbfb, 0xaa72],
    [0x6306, 0x728f, 0x4014, 0x519d, 0x2522, 0x34ab, 0x0630, 0x17b9,
     0xef4e, 0xfec7, 0xcc5c, 0xddd5, 0xa96a, 0xb8e3, 0x8a78, 0x9bf1],
    [0x7387, 0x620e, 0x5095, 0x411c, 0x35a3, 0x242a, 0x16b1, 0x0738,
     0xffcf, 0xee46, 0xdcdd, 0xcd54, 0xb9eb, 0xa862, 0x9af9, 0x8b70],
    [0x8408, 0x9581, 0xa71a, 0xb693, 0xc22c, 0xd3a5, 0xe13e, 0xf0b7,
     0x0840, 0x19c9, 0x2b52, 0x3adb, 0x4e64, 0x5fed, 0x6d76, 0x7cff],
    [0x9489, 0x8500, 0xb79b, 0xa612, 0xd2ad, 0xc324, 0xf1bf, 0xe036,
     0x18c1, 0x0948, 0x3bd3, 0x2a5a, 0x5ee5, 0x4f6c, 0x7df7, 0x6c7e],
    [0xa50a, 0xb483, 0x8618, 0x9791, 0xe32e, 0xf2a7, 0xc03c, 0xd1b5,
     0x2942, 0x38cb, 0x0a50, 0x1bd9, 0x6f66, 0x7eef, 0x4c74, 0x5dfd],
    [0xb58b, 0xa402, 0x9699, 0x8710, 0xf3af, 0xe226, 0xd0bd, 0xc134,
     0x39c3, 0x284a, 0x1ad1, 0x0b58, 0x7fe7, 0x6e6e, 0x5cf5, 0x4d7c],
    [0xc60c, 0xd785, 0xe51e, 0xf497, 0x8028, 0x91a1, 0xa33a, 0xb2b3,
     0x4a44, 0x5bcd, 0x6956, 0x78df, 0x0c60, 0x1de9, 0x2f72, 0x3efb],
    [0xd68d, 0xc704, 0xf59f, 0xe416, 0x90a9, 0x8120, 0xb3bb, 0xa232,
     0x5ac5, 0x4b4c, 0x79d7, 0x685e, 0x1ce1, 0x0d68, 0x3ff3, 0x2e7a],
    [0xe70e, 0xf687, 0xc41c, 0xd595, 0xa12a, 0xb0a3, 0x8238, 0x93b1,
     0x6b46, 0x7acf, 0x4854, 0x59dd, 0x2d62, 0x3ceb, 0x0e70, 0x1ff9],
    [0xf78f, 0xe606, 0xd49d, 0xc514, 0xb1ab, 0xa022, 0x92b9, 0x8330,
     0x7bc7, 0x6a4e, 0x58d5, 0x495c, 0x3de3, 0x2c6a, 0x1ef1, 0x0f78]
  ]

  // ------------------------------------------------------------------ the code

  /** crc_16_l_table[b] */
  function Entry(b: byte): bv16 {
    TableShape(); NibbleRange(b >> 4); NibbleRange(b & 0xf);
    TABLE[(b >> 4) as int][(b & 0xf) as int]
  }

  /** The table index of CRC_16_L_STEP. */
  function Index(crc: bv16, b: byte): byte {
    ((crc ^ (b as bv16)) & 0xff) as byte
  }

  /** CRC_16_L_STEP */
  function Step(crc: bv16, b: byte): bv16 {
    (crc >> 8) ^ Entry(Index(crc, b))
  }

  /** The register after running the step macro over a byte sequence. */
  function Run(crc: bv16, s: seq<byte>): bv16 {
    if s == [] then crc else Step(Run(crc, s[..|s| - 1]), s[|s| - 1])
  }

  /** The bytes ADD_CRC_TO_PACKET takes from the complemented register. */
  function FcsLow(crc: bv16): byte {
    ((crc ^ SEED) & 0xff) as byte
  }

  function FcsHigh(crc: bv16): byte {
    (((crc ^ SEED) >> 8) & 0xff) as byte
  }

  /** The two bytes a sender appends: the complemented register, low byte first. */
  function Fcs(s: seq<byte>): (f: seq<byte>)
    ensures |f| == 2
  {
    [FcsLow(Run(SEED, s)), FcsHigh(Run(SEED, s))]
  }

  lemma {:induction false} RunAppend(crc: bv16, s: seq<byte>, t: seq<byte>)
    ensures Run(crc, s + t) == Run(Run(crc, s), t)
  {
    if t == [] {
      assert s + t == s;
    } else {
      var u := t[..|t| - 1];
      assert (s + t)[..|s + t| - 1] == s + u;
      RunAppend(crc, s, u);
    }
  }

  // ------------------------------------------------------------------ the reference: a shift register

  /** One clock of the LSB-first register fed with one bit. */
  function Clock(reg: bv16, bit: bool): bv16 {
    if (reg & 1 == 1) != bit then (reg >> 1) ^ POLYNOMIAL else reg >> 1
  }

  function Serial(reg: bv16, bits: seq<bool>): bv16
    decreases |bits|
  {
    if bits == [] then reg else Serial(Clock(reg, bits[0]), bits[1..])
  }

  function LowBits(b: byte, n: nat): (bits: seq<bool>)
    ensures |bits| == n
  {
    if n == 0 then [] else [b & 1 == 1] + LowBits(b >> 1, n - 1)
  }

  /** The bits of a byte in transmission order. */
  function BitsOf(b: byte): (bits: seq<bool>)
    ensures |bits| == 8
  {
    LowBits(b, 8)
  }

  function Bits(s: seq<byte>): (bits: seq<bool>)
    ensures |bits| == 8 * |s|
  {
    if s == [] then [] else Bits(s[..|s| - 1]) + BitsOf(s[|s| - 1])
  }

  /** One clock with a zero input bit: the linear part of the register. */
  function Shift(x: bv16): bv16 {
    if x & 1 == 1 then (x >> 1) ^ POLYNOMIAL else x >> 1
  }

  function Shift8(x: bv16): bv16 {
    Shift(Shift(Shift(Shift(Shift(Shift(Shift(Shift(x))))))))
  }

  // ------------------------------------------------------------------ the table is the shifted index

  /** Shift8 of a byte without the conditionals. */
  function Closed(b: bv16): bv16 {
    var d := (b ^ (b << 4)) & 0xff;
    (d << 8) ^ (d << 3) ^ (d >> 4)
  }

  lemma ShiftOfByte(b: bv16)
    requires b < 0x100
    ensures Shift8(b) == Closed(b)
  {
  }

  function Row(f: bv16 -> bv16, r: bv16): seq<bv16> {
    [f(r), f(r ^ 1), f(r ^ 2), f(r ^ 3), f(r ^ 4), f(r ^ 5), f(r ^ 6), f(r ^ 7),
     f(r ^ 8), f(r ^ 9), f(r ^ 10), f(r ^ 11), f(r ^ 12), f(r ^ 13), f(r ^ 14), f(r ^ 15)]
  }

  lemma TableRows()
    ensures TABLE == [
              Row(Closed, 0x00), Row(Closed, 0x10), Row(Closed, 0x20), Row(Closed, 0x30),
              Row(Closed, 0x40), Row(Closed, 0x50), Row(Closed, 0x60), Row(Closed, 0x70),
              Row(Closed, 0x80), Row(Closed, 0x90), Row(Closed, 0xa0), Row(Closed, 0xb0),
              Row(Closed, 0xc0), Row(Closed, 0xd0), Row(Closed, 0xe0), Row(Closed, 0xf0)]
  {
  }

  lemma TableShape()
    ensures |TABLE| == 16 && forall r :: 0 <= r < 16 ==> |TABLE[r]| == 16
  {
  }

  lemma NibbleRange(x: byte)
    requires x < 16
    ensures 0 <= x as int < 16
  {
  }

  lemma PickColumn(f: bv16 -> bv16, r: bv16, c: byte)
    requires c < 16
    ensures 0 <= c as int < 16 && Row(f, r)[c as int] == f(r ^ (c as bv16))
  {
    match c
    case 0 => case 1 => case 2 => case 3 => case 4 => case 5 => case 6 => case 7 =>
    case 8 => case 9 => case 10 => case 11 => case 12 => case 13 => case 14 => case _ => assert c == 15;
  }

  lemma PickRow(r: byte)
    requires r < 16
    ensures 0 <= r as int < 16 && |TABLE| == 16 && TABLE[r as int] == Row(Closed, (r as bv16) << 4)
  {
    TableRows();
    match r
    case 0 => case 1 => case 2 => case 3 => case 4 => case 5 => case 6 => case 7 =>
    case 8 => case 9 => case 10 => case 11 => case 12 => case 13 => case 14 => case _ => assert r == 15;
  }

  lemma JoinNibbles(b: byte)
    ensures (((b >> 4) as bv16) << 4) ^ ((b & 0xf) as bv16) == b as bv16
  {
  }

  /** Every table entry is its index clocked eight times: a wrong entry would fail here. */
  lemma TableEntry(b: byte)
    ensures Entry(b) == Shift8(b as bv16)
  {
    PickRow(b >> 4);
    PickColumn(Closed, ((b >> 4) as bv16) << 4, b & 0xf);
    JoinNibbles(b);
    ShiftOfByte(b as bv16);
  }
}
