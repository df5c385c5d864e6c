/**
 Numbers as octets: the casts, and 32-bit words in little-endian and big-endian order.
 */
module Words {
  import opened Bytes

  const TWO32: nat := 0x1_0000_0000

  function ToByte(n: nat): byte
    requires n < 256
  {
    n as byte
  }

  function FromByte(b: byte): (n: nat)
    ensures n < 256
  {
    b as nat
  }

  lemma ByteBack(n: nat)
    requires n < 256
    ensures FromByte(ToByte(n)) == n
  {
    ByteCast(n);
  }

  function LE32(a: nat): (s: seq<byte>)
    requires a < TWO32
    ensures |s| == 4
  {
    [ToByte(a % 256), ToByte(a / 256 % 256), ToByte(a / 65536 % 256), ToByte(a / 16777216 % 256)]
  }

  function FromLE32(s: seq<byte>): (a: nat)
    requires |s| == 4
    ensures a < TWO32
  {
    FromByte(s[0]) + 256 * FromByte(s[1]) + 65536 * FromByte(s[2]) + 16777216 * FromByte(s[3])
  }

  lemma LE32Back(a: nat)
    requires a < TWO32
    ensures FromLE32(LE32(a)) == a
  {
    hide ToByte, FromByte;
    ByteBack(a % 256);
    ByteBack(a / 256 % 256);
    ByteBack(a / 65536 % 256);
    ByteBack(a / 16777216 % 256);
    Digits(a);
  }

  lemma Digits(a: nat)
    requires a < TWO32
    ensures a == a % 256 + 256 * (a / 256 % 256) + 65536 * (a / 65536 % 256) + 16777216 * (a / 16777216 % 256)
  {
    var b := a / 256;
    var c := b / 256;
    assert a / 65536 == c;
    assert a / 16777216 == c / 256;
  }

  function BE32(a: nat): (s: seq<byte>)
    requires a < TWO32
    ensures |s| == 4
  {
    var s := LE32(a);
    [s[3], s[2], s[1], s[0]]
  }

  function FromBE32(s: seq<byte>): (a: nat)
    requires |s| == 4
    ensures a < TWO32
  {
    FromLE32([s[3], s[2], s[1], s[0]])
  }

  lemma BE32Back(a: nat)
    requires a < TWO32
    ensures FromBE32(BE32(a)) == a
  {
    LE32Back(a);
    assert [BE32(a)[3], BE32(a)[2], BE32(a)[1], BE32(a)[0]] == LE32(a);
  }

  lemma FromByteInjective(a: byte, b: byte)
    requires FromByte(a) == FromByte(b)
    ensures a == b
  {
    ByteCastBack(a);
    ByteCastBack(b);
  }

  lemma LE32Injective(s: seq<byte>, t: seq<byte>)
    requires |s| == |t| == 4 && FromLE32(s) == FromLE32(t)
    ensures s == t
  {
    hide FromByte;
    forall k | 0 <= k < 4
      ensures s[k] == t[k]
    {
      DigitsUnique(FromByte(s[0]), FromByte(s[1]), FromByte(s[2]), FromByte(s[3]),
                   FromByte(t[0]), FromByte(t[1]), FromByte(t[2]), FromByte(t[3]));
      FromByteInjective(s[k], t[k]);
    }
  }

  lemma DigitsUnique(a: nat, b: nat, c: nat, d: nat, a': nat, b': nat, c': nat, d': nat)
    requires a < 256 && b < 256 && c < 256 && d < 256 && a' < 256 && b' < 256 && c' < 256 && d' < 256
    requires a + 256 * b + 65536 * c + 16777216 * d == a' + 256 * b' + 65536 * c' + 16777216 * d'
    ensures a == a' && b == b' && c == c' && d == d'
  {
  }
}
