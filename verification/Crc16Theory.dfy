/**
 What the FCS is for: the table form refines the bit-serial register, the residue 0xF0B8 marks
 exactly the sequences that end in their own FCS, and every burst of at most sixteen bits changes
 the register.

 The facts about single words are proved by bit-blasting; everything above them hides the word
 operations and reasons about them by name.
 */
module Crc16Theory {
  import opened Bytes
  import opened Crc16

  // ------------------------------------------------------------------ word operations, by name

  function Xor(x: bv16, y: bv16): bv16 {
    x ^ y
  }

  function BitWord(bit: bool): bv16 {
    if bit then 1 else 0
  }

  /** Prepend a low-order bit. */
  function Push(w: bv16, bit: bool): bv16 {
    (w << 1) | BitWord(bit)
  }

  function Ones(n: nat): bv16 {
    if n == 0 then 0 else (Ones(n - 1) << 1) | 1
  }

  /** Only the low-order bits selected by the mask may be set. */
  predicate Within(w: bv16, m: bv16) {
    w & !m == 0
  }

  predicate TopClear(w: bv16) {
    w & 0x8000 == 0
  }

  lemma XorZero(x: bv16)
    ensures Xor(x, 0) == x
  {
  }

  lemma XorCommutes(x: bv16, y: bv16)
    ensures Xor(x, y) == Xor(y, x)
  {
  }

  lemma XorCancel(x: bv16, y: bv16, k: bv16)
    requires Xor(x, k) == Xor(y, k)
    ensures x == y
  {
  }

  lemma ShiftXor(x: bv16, y: bv16)
    ensures Shift(Xor(x, y)) == Xor(Shift(x), Shift(y))
  {
    ShiftXorBits(x, y);
  }

  lemma ShiftXorBits(x: bv16, y: bv16)
    ensures Shift(x ^ y) == Shift(x) ^ Shift(y)
  {
    HalveXor(x, y);
    var u, v, k := x >> 1, y >> 1, POLYNOMIAL;
    XorBits(u, v, k);
  }

  lemma HalveXor(x: bv16, y: bv16)
    ensures (x ^ y) >> 1 == (x >> 1) ^ (y >> 1)
    ensures (x ^ y) & 1 == (x & 1) ^ (y & 1)
    ensures (x & 1 == 0 || x & 1 == 1) && (y & 1 == 0 || y & 1 == 1)
  {
  }

  lemma XorBits(x: bv16, y: bv16, k: bv16)
    ensures (x ^ k) ^ (y ^ k) == x ^ y
    ensures (x ^ y) ^ k == (x ^ k) ^ y
    ensures (x ^ y) ^ k == x ^ (y ^ k)
  {
  }

  /** The polynomial has its top bit set, so the bit shifted out can be read back. */
  lemma ShiftUndo(x: bv16)
    ensures x == if Shift(x) & 0x8000 == 0 then Shift(x) << 1 else ((Shift(x) ^ POLYNOMIAL) << 1) | 1
  {
  }

  lemma ShiftInjective(x: bv16, y: bv16)
    requires Shift(x) == Shift(y)
    ensures x == y
  {
    ShiftUndo(x);
    ShiftUndo(y);
  }

  /** Clocking a bit in is shifting the word that still holds it. */
  lemma ClockWord(reg: bv16, bit: bool, w: bv16)
    requires TopClear(w)
    ensures Shift(Xor(reg, Push(w, bit))) == Xor(Clock(reg, bit), w)
  {
    hide *;
    XorPushIs(reg, w, bit);
    XorIs(Clock(reg, bit), w);
    ClockBitsNamed(reg, bit, w, Xor(reg, Push(w, bit)));
  }

  lemma XorIs(x: bv16, y: bv16)
    ensures Xor(x, y) == x ^ y
  {
  }

  lemma XorPushIs(reg: bv16, w: bv16, bit: bool)
    ensures Xor(reg, Push(w, bit)) == reg ^ ((w << 1) | BitWord(bit))
  {
  }

  lemma ClockBitsNamed(reg: bv16, bit: bool, w: bv16, x: bv16)
    requires TopClear(w) && x == reg ^ ((w << 1) | BitWord(bit))
    ensures Shift(x) == Clock(reg, bit) ^ w
  {
    hide *;
    TopClearIs(w);
    ClockBits(reg, bit, w);
  }

  lemma TopClearIs(w: bv16)
    requires TopClear(w)
    ensures w & 0x8000 == 0
  {
  }

  lemma ClockBits(reg: bv16, bit: bool, w: bv16)
    requires w & 0x8000 == 0
    ensures Shift(reg ^ ((w << 1) | BitWord(bit))) == Clock(reg, bit) ^ w
  {
  }

  lemma PushInjective(u: bv16, i: bool, v: bv16, j: bool)
    requires TopClear(u) && TopClear(v) && Push(u, i) == Push(v, j)
    ensures u == v && i == j
  {
  }

  lemma PushWithin(w: bv16, n: nat, bit: bool)
    requires Within(w, Ones(n))
    ensures Within(Push(w, bit), Ones(n + 1))
  {
    var m := Ones(n);
    PushWithinMask(w, m, BitWord(bit));
  }

  lemma PushWithinMask(w: bv16, m: bv16, b: bv16)
    requires w & !m == 0 && b <= 1
    ensures ((w << 1) | b) & !((m << 1) | 1) == 0
  {
  }

  lemma WithinShort(w: bv16, n: nat)
    requires n < 16 && Within(w, Ones(n))
    ensures TopClear(w)
  {
    OnesShort(n);
    WithinTop(w, Ones(n));
  }

  lemma WithinTop(w: bv16, m: bv16)
    requires w & !m == 0 && m & 0x8000 == 0
    ensures w & 0x8000 == 0
  {
  }

  lemma OnesShort(n: nat)
    requires n < 16
    ensures Ones(n) & 0x8000 == 0
  {
    assert Ones(4) == 0xf;
    assert Ones(8) == 0xff;
    assert Ones(12) == 0xfff;
    match n
    case 0 => case 1 => case 2 => case 3 => case 4 => case 5 => case 6 => case 7 =>
    case 8 => case 9 => case 10 => case 11 => case 12 => case 13 => case 14 => case _ => assert n == 15;
  }

  // ------------------------------------------------------------------ at most sixteen bits, as one word

  function ShiftN(x: bv16, n: nat): bv16
    decreases n
  {
    if n == 0 then x else ShiftN(Shift(x), n - 1)
  }

  lemma {:induction false} ShiftNInjective(x: bv16, y: bv16, n: nat)
    requires ShiftN(x, n) == ShiftN(y, n)
    ensures x == y
    decreases n
  {
    hide Shift;
    if n > 0 {
      ShiftNInjective(Shift(x), Shift(y), n - 1);
      ShiftInjective(x, y);
    }
  }

  function Word(bits: seq<bool>): bv16
    decreases |bits|
  {
    if bits == [] then 0 else Push(Word(bits[1..]), bits[0])
  }

  lemma {:induction false} WordWithin(bits: seq<bool>)
    ensures Within(Word(bits), Ones(|bits|))
    decreases |bits|
  {
    if bits == [] {
    } else {
      hide Push, Within, Ones;
      WordWithin(bits[1..]);
      PushWithin(Word(bits[1..]), |bits| - 1, bits[0]);
    }
  }

  lemma ShortWord(bits: seq<bool>)
    requires |bits| < 16
    ensures TopClear(Word(bits))
  {
    hide *;
    WordWithin(bits);
    WithinShort(Word(bits), |bits|);
  }

  lemma {:induction false} SerialIsShift(reg: bv16, bits: seq<bool>)
    requires |bits| <= 16
    ensures Serial(reg, bits) == ShiftN(Xor(reg, Word(bits)), |bits|)
    decreases |bits|
  {
    hide Push, Xor, Shift, Clock, TopClear;
    if bits == [] {
      XorZero(reg);
    } else {
      ShortWord(bits[1..]);
      ClockWord(reg, bits[0], Word(bits[1..]));
      SerialIsShift(Clock(reg, bits[0]), bits[1..]);
    }
  }

  lemma {:induction false} WordInjective(a: seq<bool>, b: seq<bool>)
    requires |a| == |b| <= 16 && Word(a) == Word(b)
    ensures a == b
    decreases |a|
  {
    hide Push, TopClear;
    if a != [] {
      ShortWord(a[1..]);
      ShortWord(b[1..]);
      PushInjective(Word(a[1..]), a[0], Word(b[1..]), b[0]);
      WordInjective(a[1..], b[1..]);
      assert a == [a[0]] + a[1..] && b == [b[0]] + b[1..];
    }
  }

  // ------------------------------------------------------------------ bursts

  lemma {:induction false} SerialAppend(reg: bv16, a: seq<bool>, b: seq<bool>)
    ensures Serial(reg, a + b) == Serial(Serial(reg, a), b)
    decreases |a|
  {
    hide Clock;
    if a == [] {
      assert a + b == b;
    } else {
      assert (a + b)[1..] == a[1..] + b;
      SerialAppend(Clock(reg, a[0]), a[1..], b);
    }
  }

  lemma ClockInjective(x: bv16, y: bv16, bit: bool)
    requires Clock(x, bit) == Clock(y, bit)
    ensures x == y
  {
    hide Shift, Xor, Push, Clock;
    ClockWord(x, bit, 0);
    ClockWord(y, bit, 0);
    ShiftInjective(Xor(x, Push(0, bit)), Xor(y, Push(0, bit)));
    XorCancel(x, y, Push(0, bit));
  }

  lemma {:induction false} SerialInjective(x: bv16, y: bv16, bits: seq<bool>)
    requires x != y
    ensures Serial(x, bits) != Serial(y, bits)
    decreases |bits|
  {
    hide Clock;
    if bits != [] {
      if Clock(x, bits[0]) == Clock(y, bits[0]) {
        ClockInjective(x, y, bits[0]);
      }
      SerialInjective(Clock(x, bits[0]), Clock(y, bits[0]), bits[1..]);
    }
  }

  /** Any change confined to sixteen consecutive bits, wherever it falls, changes the register. */
  lemma BurstChangesRegister(reg: bv16, pre: seq<bool>, w: seq<bool>, w': seq<bool>, post: seq<bool>)
    requires |w| == |w'| <= 16 && w != w'
    ensures Serial(reg, pre + w + post) != Serial(reg, pre + w' + post)
  {
    hide *;
    var r := Serial(reg, pre);
    SerialAppend(reg, pre + w, post);
    SerialAppend(reg, pre + w', post);
    SerialAppend(reg, pre, w);
    SerialAppend(reg, pre, w');
    SerialIsShift(r, w);
    SerialIsShift(r, w');
    if Serial(r, w) == Serial(r, w') {
      ShiftNInjective(Xor(r, Word(w)), Xor(r, Word(w')), |w|);
      XorCommutes(r, Word(w));
      XorCommutes(r, Word(w'));
      XorCancel(Word(w), Word(w'), r);
      WordInjective(w, w');
    }
    SerialInjective(Serial(r, w), Serial(r, w'), post);
  }

  // ------------------------------------------------------------------ the table form refines the register

  lemma HighByteShifts(x: bv16)
    requires x & 0xff == 0
    ensures Shift8(x) == x >> 8
  {
  }

  lemma Shift8Xor(x: bv16, y: bv16)
    ensures Shift8(Xor(x, y)) == Xor(Shift8(x), Shift8(y))
  {
    hide Shift, Xor;
    var x1, y1 := Shift(x), Shift(y);
    var x2, y2 := Shift(x1), Shift(y1);
    var x3, y3 := Shift(x2), Shift(y2);
    var x4, y4 := Shift(x3), Shift(y3);
    var x5, y5 := Shift(x4), Shift(y4);
    var x6, y6 := Shift(x5), Shift(y5);
    ShiftXor(x, y);
    ShiftXor(x1, y1);
    ShiftXor(x2, y2);
    ShiftXor(x3, y3);
    ShiftXor(x4, y4);
    ShiftXor(x5, y5);
    ShiftXor(x6, y6);
    ShiftXor(Shift(x6), Shift(y6));
  }

  lemma SplitWord(x: bv16)
    ensures x == Xor(x & 0xff00, x & 0xff)
    ensures (x & 0xff00) & 0xff == 0
  {
  }

  lemma StepIs(crc: bv16, b: byte)
    ensures Step(crc, b) == Xor(crc >> 8, Entry(Index(crc, b)))
  {
    hide Entry, Index;
  }

  /** The index is the low byte of the xored register; the byte fed in leaves the high byte alone. */
  lemma StepOperands(crc: bv16, b: byte)
    ensures Index(crc, b) as bv16 == Xor(crc, b as bv16) & 0xff
    ensures (Xor(crc, b as bv16) & 0xff00) >> 8 == crc >> 8
  {
  }

  lemma StepIsShift8(crc: bv16, b: byte)
    ensures Step(crc, b) == Shift8(Xor(crc, b as bv16))
  {
    hide *;
    var x := Xor(crc, b as bv16);
    StepIs(crc, b);
    StepOperands(crc, b);
    SplitWord(x);
    TableEntry(Index(crc, b));
    HighByteShifts(x & 0xff00);
    Shift8Xor(x & 0xff00, x & 0xff);
  }

  function Ones8(n: nat): byte {
    if n == 0 then 0 else (Ones8(n - 1) << 1) | 1
  }

  lemma {:induction false} LowBitsWord(b: byte, n: nat)
    requires b & !Ones8(n) == 0
    ensures Word(LowBits(b, n)) == b as bv16
  {
    hide Push, Ones8;
    Ones8Step(n);
    if n == 0 {
      NoBits(b);
    } else {
      DropBit(b, Ones8(n - 1));
      LowBitsWord(b >> 1, n - 1);
      PushByte(b);
      assert LowBits(b, n)[1..] == LowBits(b >> 1, n - 1);
    }
  }

  lemma Ones8Step(n: nat)
    ensures Ones8(n) == if n == 0 then 0 else (Ones8(n - 1) << 1) | 1
  {
  }

  lemma NoBits(b: byte)
    requires b & !0 == 0
    ensures b as bv16 == 0
  {
  }

  lemma DropBit(b: byte, m: byte)
    requires b & !((m << 1) | 1) == 0
    ensures (b >> 1) & !m == 0
  {
  }

  lemma PushByte(b: byte)
    ensures Push((b >> 1) as bv16, b & 1 == 1) == b as bv16
  {
  }

  lemma BitsWord(b: byte)
    ensures Word(BitsOf(b)) == b as bv16
  {
    assert Ones8(4) == 0xf;
    assert Ones8(8) == 0xff;
    AllOnes(b);
    LowBitsWord(b, 8);
  }

  lemma AllOnes(b: byte)
    ensures b & !0xff == 0
  {
  }

  lemma ShiftNEight(x: bv16)
    ensures ShiftN(x, 8) == Shift8(x)
  {
    hide Shift;
    assert ShiftN(x, 8) == ShiftN(Shift(Shift(x)), 6);
    assert ShiftN(Shift(Shift(x)), 6) == ShiftN(Shift(Shift(Shift(Shift(x)))), 4);
    var y := Shift(Shift(Shift(Shift(x))));
    assert ShiftN(y, 4) == ShiftN(Shift(Shift(y)), 2);
  }

  lemma StepIsSerial(crc: bv16, b: byte)
    ensures Step(crc, b) == Serial(crc, BitsOf(b))
  {
    hide *;
    StepIsShift8(crc, b);
    SerialIsShift(crc, BitsOf(b));
    BitsWord(b);
    ShiftNEight(Xor(crc, b as bv16));
  }

  /** The table-driven CRC of any byte sequence is the bit-serial register clocked over its bits. */
  lemma {:induction false} TableRefinesRegister(crc: bv16, s: seq<byte>)
    ensures Run(crc, s) == Serial(crc, Bits(s))
  {
    hide Step, BitsOf, Serial;
    if s == [] {
      SerialEmpty(crc);
    } else {
      var t, b := s[..|s| - 1], s[|s| - 1];
      TableRefinesRegister(crc, t);
      StepIsSerial(Run(crc, t), b);
      SerialAppend(crc, Bits(t), BitsOf(b));
    }
  }

  lemma SerialEmpty(crc: bv16)
    ensures Serial(crc, []) == crc
  {
  }

  // ------------------------------------------------------------------ residue

  lemma Shift8Injective(x: bv16, y: bv16)
    requires Shift8(x) == Shift8(y)
    ensures x == y
  {
    hide *;
    ShiftNEight(x);
    ShiftNEight(y);
    ShiftNInjective(x, y, 8);
  }

  lemma ResidueOfOnes()
    ensures Shift8(Shift8(0xFFFF)) == OK_NEG
  {
    assert Shift8(0xFFFF) == 0x0F87;
  }

  /** The word two fed bytes are xored into. */
  function Mix(crc: bv16, lo: byte, hi: byte): bv16 {
    (crc ^ (lo as bv16)) ^ ((hi as bv16) << 8)
  }

  lemma TwoSteps(crc: bv16, lo: byte, hi: byte)
    ensures Run(crc, [lo, hi]) == Shift8(Shift8(Mix(crc, lo, hi)))
  {
    RunTwo(crc, lo, hi);
    MixIs(crc, lo, hi);
    hide *;
    StepIsShift8(crc, lo);
    StepIsShift8(Step(crc, lo), hi);
    HighByte(hi);
    HighByteShifts((hi as bv16) << 8);
    Shift8Xor(Xor(crc, lo as bv16), (hi as bv16) << 8);
  }

  lemma MixIs(crc: bv16, lo: byte, hi: byte)
    ensures Mix(crc, lo, hi) == Xor(Xor(crc, lo as bv16), (hi as bv16) << 8)
  {
    hide *;
    XorIs(crc, lo as bv16);
    MixNamed(crc, lo, hi, Xor(crc, lo as bv16));
  }

  lemma MixNamed(crc: bv16, lo: byte, hi: byte, u: bv16)
    requires u == crc ^ (lo as bv16)
    ensures Mix(crc, lo, hi) == Xor(u, (hi as bv16) << 8)
  {
  }

  lemma RunTwo(crc: bv16, lo: byte, hi: byte)
    ensures Run(crc, [lo, hi]) == Step(Step(crc, lo), hi)
  {
    hide Step;
    assert [lo, hi][..1] == [lo] && [lo][..0] == [];
    assert Run(crc, [lo]) == Step(Run(crc, []), lo);
  }

  lemma HighByte(hi: byte)
    ensures ((hi as bv16) << 8) & 0xff == 0 && ((hi as bv16) << 8) >> 8 == hi as bv16
  {
  }

  lemma Complement(crc: bv16, lo: byte, hi: byte)
    ensures Mix(crc, lo, hi) == 0xFFFF <==> lo == FcsLow(crc) && hi == FcsHigh(crc)
  {
    hide FcsLow, FcsHigh;
    ComplementBits(crc, lo, hi);
  }

  lemma ComplementBits(crc: bv16, lo: byte, hi: byte)
    ensures (crc ^ (lo as bv16)) ^ ((hi as bv16) << 8) == 0xFFFF <==> lo == FcsLow(crc) && hi == FcsHigh(crc)
  {
  }

  lemma ResidueOfTwo(crc: bv16, lo: byte, hi: byte)
    ensures Run(crc, [lo, hi]) == OK_NEG <==> lo == FcsLow(crc) && hi == FcsHigh(crc)
  {
    hide *;
    TwoSteps(crc, lo, hi);
    ResidueOfOnes();
    Complement(crc, lo, hi);
    var x := Mix(crc, lo, hi);
    if Run(crc, [lo, hi]) == OK_NEG {
      Shift8Injective(Shift8(x), Shift8(0xFFFF));
      Shift8Injective(x, 0xFFFF);
    }
  }

  /** The register holds 0xF0B8 exactly when the last two bytes are the FCS of the rest. */
  lemma ResidueIffFcs(s: seq<byte>, f: seq<byte>)
    requires |f| == 2
    ensures Run(SEED, s + f) == OK_NEG <==> f == Fcs(s)
  {
    hide *;
    FcsIs(s);
    RunAppend(SEED, s, f);
    assert f == [f[0], f[1]];
    ResidueOfTwo(Run(SEED, s), f[0], f[1]);
  }

  lemma FcsIs(s: seq<byte>)
    ensures Fcs(s) == [FcsLow(Run(SEED, s)), FcsHigh(Run(SEED, s))]
  {
    hide Run, FcsLow, FcsHigh;
  }

  // ------------------------------------------------------------------ bursts of bytes

  lemma {:induction false} BitsAppend(s: seq<byte>, t: seq<byte>)
    ensures Bits(s + t) == Bits(s) + Bits(t)
  {
    hide BitsOf;
    if t == [] {
      assert s + t == s;
    } else {
      var u := t[..|t| - 1];
      assert (s + t)[..|s + t| - 1] == s + u;
      BitsAppend(s, u);
    }
  }

  lemma {:induction false} BitsInjective(s: seq<byte>, t: seq<byte>)
    requires |s| == |t| && Bits(s) == Bits(t)
    ensures s == t
  {
    hide BitsOf;
    if s != [] {
      var n := |s| - 1;
      assert Bits(s)[..8 * n] == Bits(s[..n]) && Bits(s)[8 * n..] == BitsOf(s[n]);
      assert Bits(t)[..8 * n] == Bits(t[..n]) && Bits(t)[8 * n..] == BitsOf(t[n]);
      BitsInjective(s[..n], t[..n]);
      ByteFromBits(s[n], t[n]);
      assert s == s[..n] + [s[n]] && t == t[..n] + [t[n]];
    }
  }

  lemma ByteFromBits(a: byte, b: byte)
    requires BitsOf(a) == BitsOf(b)
    ensures a == b
  {
    hide BitsOf, Word;
    BitsWord(a);
    BitsWord(b);
    WidenInjective(a, b);
  }

  lemma WidenInjective(a: byte, b: byte)
    requires a as bv16 == b as bv16
    ensures a == b
  {
  }

  /** Replacing one byte, or two adjacent bytes, anywhere in a sequence changes its CRC. */
  lemma ByteBurstChangesCrc(crc: bv16, pre: seq<byte>, w: seq<byte>, w': seq<byte>, post: seq<byte>)
    requires |w| == |w'| <= 2 && w != w'
    ensures Run(crc, pre + w + post) != Run(crc, pre + w' + post)
  {
    hide *;
    TableRefinesRegister(crc, pre + w + post);
    TableRefinesRegister(crc, pre + w' + post);
    BitsAppend(pre + w, post);
    BitsAppend(pre, w);
    BitsAppend(pre + w', post);
    BitsAppend(pre, w');
    if Bits(w) == Bits(w') {
      BitsInjective(w, w');
    }
    BurstChangesRegister(crc, Bits(pre), Bits(w), Bits(w'), Bits(post));
  }
}
