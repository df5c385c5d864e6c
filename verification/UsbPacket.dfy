/**
 ADB packets on the USB wire: the checksum and magic of send_packet in src/adbhost.cpp, and remote_write,
 remote_read, check_header and check_data of src/transport_usb.cpp. An amessage is six little-endian words.
 */
module UsbPacket {
  import opened Bytes
  import opened Seqs
  import opened Usb
  import opened Words

  const MAX_PAYLOAD: nat := 4096
  const HEADER: nat := 24

  const COMMAND: nat := 0
  const ARG0: nat := 1
  const ARG1: nat := 2
  const DATA_LENGTH: nat := 3
  const DATA_CHECK: nat := 4
  const MAGIC: nat := 5

  datatype Message = Message(command: nat, arg0: nat, arg1: nat, payload: seq<byte>)

  /** The memory of an apacket that matters: its amessage and its data. */
  datatype Raw = Raw(msg: seq<byte>, data: seq<byte>)

  predicate Sized(r: Raw) {
    |r.msg| == HEADER && |r.data| == MAX_PAYLOAD
  }

  /** Word i of the header. */
  function Field(msg: seq<byte>, i: nat): (n: nat)
    requires |msg| == HEADER && i < 6
    ensures n < TWO32
  {
    FromLE32(msg[4 * i..4 * i + 4])
  }

  /** command ^ 0xffffffff. */
  function Complement(n: nat): (m: nat)
    requires n < TWO32
    ensures m < TWO32
  {
    TWO32 - 1 - n
  }

  /** Addition of unsigned 32-bit numbers. */
  function Add32(a: nat, b: nat): (n: nat)
    ensures n < TWO32
  {
    (a + b) % TWO32
  }

  /** The checksum: a 32-bit sum of the octets. */
  function Sum(s: seq<byte>): (n: nat)
    ensures n < TWO32
  {
    if s == [] then 0 else Add32(Sum(s[..|s| - 1]), FromByte(s[|s| - 1]))
  }

  predicate WellFormed(m: Message) {
    m.command < TWO32 && m.arg0 < TWO32 && m.arg1 < TWO32 && |m.payload| <= MAX_PAYLOAD
  }

  type Packet = m: Message | WellFormed(m) witness Message(0, 0, 0, [])

  function Header(m: Packet): (h: seq<byte>)
    ensures |h| == HEADER
  {
    LE32(m.command) + LE32(m.arg0) + LE32(m.arg1) + LE32(|m.payload|) + LE32(Sum(m.payload)) + LE32(Complement(m.command))
  }

  function Encode(m: Packet): seq<byte> {
    Header(m) + m.payload
  }

  predicate HeaderOk(msg: seq<byte>)
    requires |msg| == HEADER
  {
    Field(msg, MAGIC) == Complement(Field(msg, COMMAND)) && Field(msg, DATA_LENGTH) <= MAX_PAYLOAD
  }

  predicate DataOk(r: Raw)
    requires Sized(r) && Field(r.msg, DATA_LENGTH) <= MAX_PAYLOAD
  {
    Sum(r.data[..Field(r.msg, DATA_LENGTH)]) == Field(r.msg, DATA_CHECK)
  }

  /** What a received packet says. */
  function Received(r: Raw): Packet
    requires Sized(r) && Field(r.msg, DATA_LENGTH) <= MAX_PAYLOAD
  {
    Message(Field(r.msg, COMMAND), Field(r.msg, ARG0), Field(r.msg, ARG1), r.data[..Field(r.msg, DATA_LENGTH)])
  }

  /** usb_read into a buffer: what was read replaces the front of it, even when the read fails. */
  function Overwrite(got: seq<byte>, buf: seq<byte>): (s: seq<byte>)
    requires |got| <= |buf|
    ensures |s| == |buf|
  {
    got + buf[|got|..]
  }

  function ReadInto(p: Pipe, buf: seq<byte>, len: nat): (r: (bool, seq<byte>, Pipe))
    requires len <= |buf|
    ensures |r.1| == |buf|
  {
    ReadExact(p, len);
    var (ok, got, p1) := Read(p, len);
    (ok, Overwrite(got, buf), p1)
  }

  function RemoteRead(p: Pipe, r: Raw): (result: (bool, Raw, Pipe))
    requires Sized(r)
    ensures Sized(result.1)
    ensures result.0 ==> Field(result.1.msg, DATA_LENGTH) <= MAX_PAYLOAD
  {
    var (ok, msg, p1) := ReadInto(p, r.msg, HEADER);
    if !ok || !HeaderOk(msg) then (false, Raw(msg, r.data), p1)
    else
      var len := Field(msg, DATA_LENGTH);
      if len == 0 then (DataOk(Raw(msg, r.data)), Raw(msg, r.data), p1)
      else
        var (ok2, data, p2) := ReadInto(p1, r.data, len);
        (ok2 && DataOk(Raw(msg, data)), Raw(msg, data), p2)
  }

  /** Header first, then the payload if there is one. */
  function RemoteWrite(p: Pipe, mask: bv32, msg: seq<byte>, payload: seq<byte>): (bool, Pipe)
    requires |msg| == HEADER && |payload| <= MAX_PAYLOAD
  {
    var (n, p1) := Write(p, mask, msg);
    if n != HEADER then (false, p1)
    else if payload == [] then (true, p1)
    else
      var (n2, p2) := Write(p1, mask, payload);
      (n2 == |payload|, p2)
  }

  // ------------------------------------------------------------------ the header

  lemma HeaderFields(m: Packet)
    ensures Field(Header(m), COMMAND) == m.command
    ensures Field(Header(m), ARG0) == m.arg0
    ensures Field(Header(m), ARG1) == m.arg1
    ensures Field(Header(m), DATA_LENGTH) == |m.payload|
    ensures Field(Header(m), DATA_CHECK) == Sum(m.payload)
    ensures Field(Header(m), MAGIC) == Complement(m.command)
    ensures HeaderOk(Header(m))
  {
    hide LE32, FromLE32, Sum, Complement;
    var h := Header(m);
    LE32Back(m.command);
    LE32Back(m.arg0);
    LE32Back(m.arg1);
    LE32Back(|m.payload|);
    LE32Back(Sum(m.payload));
    LE32Back(Complement(m.command));
    assert h[0..4] == LE32(m.command) && h[4..8] == LE32(m.arg0) && h[8..12] == LE32(m.arg1);
    assert h[12..16] == LE32(|m.payload|) && h[16..20] == LE32(Sum(m.payload)) && h[20..24] == LE32(Complement(m.command));
  }

  /** Six words determine the header. */
  lemma HeaderDetermined(a: seq<byte>, b: seq<byte>)
    requires |a| == |b| == HEADER
    requires forall i: nat :: i < 6 ==> Field(a, i) == Field(b, i)
    ensures a == b
  {
    hide FromLE32;
    forall i: nat | i < 6
      ensures a[4 * i..4 * i + 4] == b[4 * i..4 * i + 4]
    {
      assert Field(a, i) == Field(b, i);
      LE32Injective(a[4 * i..4 * i + 4], b[4 * i..4 * i + 4]);
    }
    forall k | 0 <= k < HEADER
      ensures a[k] == b[k]
    {
      var i := k / 4;
      assert a[4 * i..4 * i + 4][k - 4 * i] == b[4 * i..4 * i + 4][k - 4 * i];
    }
  }

  /** The words of the header, where they stand on the wire. */
  lemma HeaderLayout(m: Packet)
    ensures var h := Header(m);
            && h[0..4] == LE32(m.command) && h[4..8] == LE32(m.arg0) && h[8..12] == LE32(m.arg1)
            && h[12..16] == LE32(|m.payload|) && h[16..20] == LE32(Sum(m.payload))
  {
    hide LE32, Sum, Complement;
  }

  // ------------------------------------------------------------------ the magic, octet by octet

  /** The last word of a header is the first with every bit flipped. */
  predicate Flipped(h: seq<byte>)
    requires |h| == HEADER
  {
    forall k :: 0 <= k < 4 ==> h[20 + k] == h[k] ^ 0xff
  }

  function Flip(b: byte): byte {
    b ^ 0xff
  }

  lemma FlippedByte(b: byte)
    ensures FromByte(Flip(b)) == 255 - FromByte(b)
  {
  }

  lemma FlippedSum(s: seq<byte>, u: seq<byte>)
    requires |s| == |u| == 4 && forall k :: 0 <= k < 4 ==> u[k] == Flip(s[k])
    ensures FromLE32(u) == Complement(FromLE32(s))
  {
    hide FromByte, Flip;
    FlippedByte(s[0]);
    FlippedByte(s[1]);
    FlippedByte(s[2]);
    FlippedByte(s[3]);
  }

  lemma FlippedWord(s: seq<byte>, t: seq<byte>)
    requires |s| == |t| == 4
    ensures FromLE32(t) == Complement(FromLE32(s)) <==> forall k :: 0 <= k < 4 ==> t[k] == Flip(s[k])
  {
    hide FromLE32, Complement, Flip;
    var u := [Flip(s[0]), Flip(s[1]), Flip(s[2]), Flip(s[3])];
    FlippedSum(s, u);
    if FromLE32(t) == FromLE32(u) {
      LE32Injective(t, u);
    }
    if forall k :: 0 <= k < 4 ==> t[k] == Flip(s[k]) {
      FlippedSum(s, t);
    }
  }

  lemma MagicIff(h: seq<byte>)
    requires |h| == HEADER
    ensures Field(h, MAGIC) == Complement(Field(h, COMMAND)) <==> Flipped(h)
  {
    hide FromLE32, Complement;
    var s, t := h[0..4], h[20..24];
    FlippedWord(s, t);
    forall k | 0 <= k < 4
      ensures t[k] == h[20 + k] && s[k] == h[k]
    {
    }
    if Flipped(h) {
      assert forall k :: 0 <= k < 4 ==> t[k] == Flip(s[k]);
    } else {
      var k :| 0 <= k < 4 && h[20 + k] != h[k] ^ 0xff;
      assert t[k] != Flip(s[k]);
    }
  }

  /** check_header: the magic is the command xor 0xffffffff, octet by octet, and the payload fits. */
  lemma HeaderOkIff(h: seq<byte>)
    requires |h| == HEADER
    ensures HeaderOk(h) <==> (forall k :: 0 <= k < 4 ==> h[20 + k] == h[k] ^ 0xff) && FromLE32(h[12..16]) <= MAX_PAYLOAD
  {
    hide FromLE32, Complement;
    MagicIff(h);
  }

  /** send_packet: the magic of every packet is its command xor 0xffffffff. */
  lemma HeaderMagic(m: Packet)
    ensures forall k :: 0 <= k < 4 ==> Header(m)[20 + k] == Header(m)[k] ^ 0xff
  {
    hide Header, Field, Complement;
    HeaderFields(m);
    MagicIff(Header(m));
  }

  // ------------------------------------------------------------------ acceptance

  /** Once the octets arrive, remote_read accepts exactly the encodings, and delivers what was encoded. */
  lemma AcceptsEncoding(p: Pipe, r: Raw, m: Packet, rest: seq<byte>)
    requires Sized(r) && p.incoming == Encode(m) + rest
    ensures var (ok, r', p') := RemoteRead(p, r);
            && (ok <==> Arrives(p, |m.payload|))
            && (ok ==> Received(r') == m && r'.msg == Header(m) && p'.incoming == rest && p'.sent == p.sent)
  {
    hide Field, Header, Sum, Read;
    HeaderFields(m);
    ReadExact(p, HEADER);
    var (ok, got, p1) := Read(p, HEADER);
    Assoc(Header(m), m.payload, rest);
    if ok {
      SamePrefix(got, p1.incoming, Header(m), m.payload + rest);
      EmptyUnit(Header(m));
      assert Overwrite(got, r.msg) == Header(m);
      var len := |m.payload|;
      if len == 0 {
        EmptyUnit(rest);
        assert r.data[..0] == m.payload;
      } else {
        ReadExact(p1, len);
        var (ok2, got2, p2) := Read(p1, len);
        if ok2 {
          SamePrefix(got2, p2.incoming, m.payload, rest);
          Skip(got2, r.data[len..]);
        }
      }
    }
  }

  /** Both transfers of a packet with so much payload succeed. */
  predicate Arrives(p: Pipe, len: nat) {
    var (ok, _, p1) := Read(p, HEADER);
    ok && (len > 0 ==> Read(p1, len).0)
  }

  lemma SamePrefix<T>(a: seq<T>, b: seq<T>, c: seq<T>, d: seq<T>)
    requires a + b == c + d && |a| == |c|
    ensures a == c && b == d
  {
    Skip(a, b);
    Skip(c, d);
  }

  /** A header that arrives and is wrong is refused; no more than the header is read, and the data stays as it was. */
  lemma BadHeaderRefused(p: Pipe, r: Raw)
    requires Sized(r) && Read(p, HEADER).0 && |Read(p, HEADER).1| == HEADER && !HeaderOk(Read(p, HEADER).1)
    ensures RemoteRead(p, r) == (false, Raw(Read(p, HEADER).1, r.data), Read(p, HEADER).2)
  {
    hide HeaderOk, Read;
    ReadExact(p, HEADER);
    EmptyUnit(Read(p, HEADER).1);
  }

  /** Whatever is accepted was an encoding of what is delivered: nothing else passes both checks. */
  lemma AcceptedWasEncoded(p: Pipe, r: Raw)
    requires Sized(r) && RemoteRead(p, r).0
    ensures var r' := RemoteRead(p, r).1;
            Encode(Received(r')) + RemoteRead(p, r).2.incoming == p.incoming
  {
    hide Field, Header, Sum, Read;
    ReadExact(p, HEADER);
    var (_, got, p1) := Read(p, HEADER);
    var (_, r', p') := RemoteRead(p, r);
    var m := Received(r');
    EmptyUnit(got);
    assert r'.msg == got;
    HeaderFields(m);
    forall i: nat | i < 6
      ensures Field(Header(m), i) == Field(r'.msg, i)
    {
    }
    HeaderDetermined(Header(m), r'.msg);
    var len := Field(r'.msg, DATA_LENGTH);
    if len == 0 {
      EmptyUnit(Header(m));
    } else {
      ReadExact(p1, len);
      var (_, got2, p2) := Read(p1, len);
      Skip(got2, r.data[len..]);
      Assoc(got, got2, p2.incoming);
    }
  }

  // ------------------------------------------------------------------ what the checksum catches

  lemma AddAssoc(a: nat, b: nat, c: nat)
    ensures Add32(Add32(a, b), c) == Add32(a, Add32(b, c))
  {
    assert ((a + b) % TWO32 + c) % TWO32 == (a + b + c) % TWO32;
    assert (a + (b + c) % TWO32) % TWO32 == (a + b + c) % TWO32;
  }

  lemma AddCommutes(a: nat, b: nat)
    ensures Add32(a, b) == Add32(b, a)
  {
  }

  lemma AddInjective(a: nat, b: nat, c: nat)
    requires a < TWO32 && b < TWO32 && a != b
    ensures Add32(a, c) != Add32(b, c) && Add32(c, a) != Add32(c, b)
  {
    if a < b { AddLess(a, b, c); } else { AddLess(b, a, c); }
  }

  lemma AddLess(a: nat, b: nat, c: nat)
    requires a < b < TWO32
    ensures Add32(a, c) != Add32(b, c)
  {
    var q := (a + c) / TWO32;
    assert 0 <= a + c - q * TWO32 < TWO32;
  }

  lemma {:induction false} SumAppend(a: seq<byte>, b: seq<byte>)
    ensures Sum(a + b) == Add32(Sum(a), Sum(b))
    decreases |b|
  {
    hide FromByte;
    if b == [] {
      EmptyUnit(a);
      assert Add32(Sum(a), 0) == Sum(a);
    } else {
      hide Add32;
      var n := |b| - 1;
      SumAppend(a, b[..n]);
      assert (a + b)[..|a + b| - 1] == a + b[..n] && (a + b)[|a + b| - 1] == b[n];
      AddAssoc(Sum(a), Sum(b[..n]), FromByte(b[n]));
    }
  }

  /** A packet in which one payload octet was changed on the way is refused. */
  lemma OneOctetDamageRefused(p: Pipe, r: Raw, m: Packet, at: nat, b: byte, rest: seq<byte>)
    requires Sized(r) && at < |m.payload| && b != m.payload[at]
    requires p.incoming == Header(m) + m.payload[at := b] + rest
    ensures !RemoteRead(p, r).0
  {
    hide Header, RemoteRead;
    if RemoteRead(p, r).0 {
      AcceptedWasEncoded(p, r);
      var got := Received(RemoteRead(p, r).1);
      var tail := RemoteRead(p, r).2.incoming;
      Assoc(Header(m), m.payload[at := b], rest);
      Assoc(Header(got), got.payload, tail);
      SamePrefix(Header(m), m.payload[at := b] + rest, Header(got), got.payload + tail);
      HeaderFields(m);
      HeaderFields(got);
      SamePrefix(m.payload[at := b], rest, got.payload, tail);
      OneOctetSum(m.payload, at, b);
      assert false;
    }
  }

  /** What a packet with a damaged payload leaves in memory, once its octets have arrived. */
  lemma DamagedLeftInMemory(p: Pipe, r: Raw, m: Packet, damaged: seq<byte>, rest: seq<byte>)
    requires Sized(r) && |damaged| == |m.payload| > 0 && Arrives(p, |m.payload|)
    requires p.incoming == Header(m) + damaged + rest
    ensures var r' := RemoteRead(p, r).1; r'.msg == Header(m) && r'.data[..|m.payload|] == damaged
  {
    hide Field, Header, Sum, Read;
    HeaderFields(m);
    ReadExact(p, HEADER);
    var (_, got, p1) := Read(p, HEADER);
    Assoc(Header(m), damaged, rest);
    SamePrefix(got, p1.incoming, Header(m), damaged + rest);
    EmptyUnit(Header(m));
    assert Overwrite(got, r.msg) == Header(m);
    var len := |m.payload|;
    ReadExact(p1, len);
    var (_, got2, p2) := Read(p1, len);
    SamePrefix(got2, p2.incoming, damaged, rest);
    Skip(got2, r.data[len..]);
  }

  lemma OneOctetSum(s: seq<byte>, at: nat, b: byte)
    requires at < |s| && b != s[at]
    ensures Sum(s[at := b]) != Sum(s)
  {
    hide Add32, FromByte, Sum;
    var x, z := s[..at], s[at + 1..];
    Around(s, at, b);
    SumAppend(x + [s[at]], z);
    SumAppend(x + [b], z);
    SumAppend(x, [s[at]]);
    SumAppend(x, [b]);
    SumOne(b);
    SumOne(s[at]);
    BytesDiffer(b, s[at]);
    AddInjective(FromByte(b), FromByte(s[at]), Sum(x));
    AddInjective(Sum(x + [b]), Sum(x + [s[at]]), Sum(z));
  }

  lemma Around<T>(s: seq<T>, at: nat, b: T)
    requires at < |s|
    ensures s == s[..at] + [s[at]] + s[at + 1..]
    ensures s[at := b] == s[..at] + [b] + s[at + 1..]
  {
  }

  lemma SumOne(b: byte)
    ensures Sum([b]) == FromByte(b)
  {
    hide FromByte;
    assert [b][..0] == [];
  }

  lemma BytesDiffer(a: byte, b: byte)
    requires a != b
    ensures FromByte(a) != FromByte(b)
  {
    if FromByte(a) == FromByte(b) {
      FromByteInjective(a, b);
    }
  }

  /** The checksum is blind to order: swapping two payload octets goes unnoticed. */
  lemma SwapUnnoticed(p: Pipe, r: Raw, m: Packet, x: seq<byte>, a: byte, y: seq<byte>, b: byte, z: seq<byte>, rest: seq<byte>)
    requires Sized(r) && m.payload == x + [a] + y + [b] + z
    requires p.incoming == Header(m) + (x + [b] + y + [a] + z) + rest && Arrives(p, |m.payload|)
    ensures RemoteRead(p, r).0
    ensures Received(RemoteRead(p, r).1) == m.(payload := x + [b] + y + [a] + z)
  {
    hide RemoteRead, Arrives;
    var m' := m.(payload := x + [b] + y + [a] + z);
    SwapSum(x, a, y, b, z);
    assert |m'.payload| == |m.payload|;
    assert Header(m') == Header(m);
    AcceptsEncoding(p, r, m', rest);
  }

  lemma SwapSum(x: seq<byte>, a: byte, y: seq<byte>, b: byte, z: seq<byte>)
    ensures Sum(x + [a] + y + [b] + z) == Sum(x + [b] + y + [a] + z)
  {
    hide Add32, Sum;
    SumFive(x, [a], y, [b], z);
    SumFive(x, [b], y, [a], z);
    AddSwap(Sum(x), Sum([a]), Sum(y), Sum([b]));
  }

  lemma SumFive(x: seq<byte>, a: seq<byte>, y: seq<byte>, b: seq<byte>, z: seq<byte>)
    ensures Sum(x + a + y + b + z) == Add32(Add32(Add32(Add32(Sum(x), Sum(a)), Sum(y)), Sum(b)), Sum(z))
  {
    hide Add32, Sum;
    SumAppend(x + a + y + b, z);
    SumAppend(x + a + y, b);
    SumAppend(x + a, y);
    SumAppend(x, a);
  }

  lemma AddSwap(x: nat, a: nat, y: nat, b: nat)
    ensures Add32(Add32(Add32(x, a), y), b) == Add32(Add32(Add32(x, b), y), a)
  {
    hide Add32;
    AddAssoc(x, a, y);
    AddAssoc(x, Add32(a, y), b);
    AddAssoc(x, b, y);
    AddAssoc(x, Add32(b, y), a);
    AddAssoc(a, y, b);
    AddCommutes(a, Add32(y, b));
    AddCommutes(y, b);
  }

  // ------------------------------------------------------------------ whole conversations

  function Encodings(ms: seq<Packet>): seq<byte> {
    if ms == [] then [] else Encode(ms[0]) + Encodings(ms[1..])
  }

  /** Reading n packets into fresh memory, stopping at the first failure. */
  function ReadAll(p: Pipe, r: Raw, n: nat): (bool, seq<Packet>, Pipe)
    requires Sized(r)
    decreases n
  {
    if n == 0 then (true, [], p)
    else
      var (ok, r1, p1) := RemoteRead(p, r);
      if !ok then (false, [], p1)
      else
        var (all, ms, p2) := ReadAll(p1, r, n - 1);
        (all, [Received(r1)] + ms, p2)
  }

  lemma RemoteWriteExact(p: Pipe, mask: bv32, m: Packet)
    ensures var (ok, p') := RemoteWrite(p, mask, Header(m), m.payload);
            p'.incoming == p.incoming && (ok ==> p'.sent == p.sent + Encode(m))
  {
    hide Header;
    WriteExact(p, mask, Header(m));
    var (n, p1) := Write(p, mask, Header(m));
    if n == HEADER {
      if m.payload == [] {
        EmptyUnit(Header(m));
      } else {
        WriteExact(p1, mask, m.payload);
        Assoc(p.sent, Header(m), m.payload);
      }
    }
  }

  lemma PrefixCons<T>(a: seq<T>, s: seq<T>)
    requires s != [] && a <= s[1..]
    ensures [s[0]] + a <= s
    ensures a == s[1..] ==> [s[0]] + a == s
  {
  }

  /** Reading what was encoded delivers the packets in order, unchanged, as many as arrive. */
  lemma {:induction false} ReadAllExact(p: Pipe, r: Raw, ms: seq<Packet>, rest: seq<byte>)
    requires Sized(r) && p.incoming == Encodings(ms) + rest
    ensures var (ok, got, p') := ReadAll(p, r, |ms|);
            && got <= ms
            && (ok ==> got == ms && p'.incoming == rest)
    decreases |ms|
  {
    hide Encode, RemoteRead, Arrives, Received, Encodings, ReadAll;
    if ms == [] {
      NothingToRead(p, r);
      EmptyUnit(rest);
    } else {
      var m, tail := ms[0], ms[1..];
      FirstEncoding(ms, rest);
      AcceptsEncoding(p, r, m, Encodings(tail) + rest);
      ReadAllStep(p, r, |ms|);
      var (ok, r1, p1) := RemoteRead(p, r);
      if ok {
        ReadAllExact(p1, r, tail, rest);
        PrefixCons<Packet>(ReadAll(p1, r, |tail|).1, ms);
      }
    }
  }

  lemma NothingToRead(p: Pipe, r: Raw)
    requires Sized(r)
    ensures ReadAll(p, r, 0) == (true, [], p) && Encodings([]) == []
  {
  }

  lemma FirstEncoding(ms: seq<Packet>, rest: seq<byte>)
    requires ms != []
    ensures Encodings(ms) + rest == Encode(ms[0]) + (Encodings(ms[1..]) + rest)
  {
    hide Encode;
    Assoc(Encode(ms[0]), Encodings(ms[1..]), rest);
  }

  lemma ReadAllStep(p: Pipe, r: Raw, n: nat)
    requires Sized(r) && n > 0
    ensures var (ok, r1, p1) := RemoteRead(p, r);
            ReadAll(p, r, n) ==
            if !ok then (false, [], p1)
            else var (all, ms, p2) := ReadAll(p1, r, n - 1); (all, [Received(r1)] + ms, p2)
  {
    hide RemoteRead, Received;
  }

  // ------------------------------------------------------------------ writes whose outcome nobody looks at

  /** A packet is written exactly if all of it is on the wire; otherwise less of it is. */
  lemma RemoteWriteIff(p: Pipe, mask: bv32, m: Packet)
    ensures var (ok, p') := RemoteWrite(p, mask, Header(m), m.payload);
            && p.sent <= p'.sent <= p.sent + Encode(m)
            && (ok <==> p'.sent == p.sent + Encode(m))
  {
    hide Header, WriteRest;
    RemoteWriteExact(p, mask, m);
    WriteRestShort(p, mask, Header(m), 0);
    WriteExact(p, mask, Header(m));
    var (n, p1) := Write(p, mask, Header(m));
    if n == HEADER && m.payload != [] {
      WriteExact(p1, mask, m.payload);
      WriteRestShort(p1, mask, m.payload, 0);
    }
  }

  /** Writing packets one after another whatever became of those before: were all written, and the pipe. */
  function SendAll(p: Pipe, mask: bv32, ms: seq<Packet>): (bool, Pipe)
    decreases |ms|
  {
    if ms == [] then (true, p)
    else
      var n := |ms| - 1;
      var (all, p1) := SendAll(p, mask, ms[..n]);
      var (ok, p2) := RemoteWrite(p1, mask, Header(ms[n]), ms[n].payload);
      (all && ok, p2)
  }

  lemma SendAllSnoc(p: Pipe, mask: bv32, ms: seq<Packet>, m: Packet)
    ensures var (all, p1) := SendAll(p, mask, ms);
            var (ok, p2) := RemoteWrite(p1, mask, Header(m), m.payload);
            SendAll(p, mask, ms + [m]) == (all && ok, p2)
  {
    hide RemoteWrite, Header;
    assert (ms + [m])[..|ms|] == ms;
  }

  lemma {:induction false} SendAllAppend(p: Pipe, mask: bv32, a: seq<Packet>, b: seq<Packet>)
    ensures SendAll(p, mask, a + b).1 == SendAll(SendAll(p, mask, a).1, mask, b).1
    decreases |b|
  {
    hide RemoteWrite, Header, SendAll;
    if b == [] {
      EmptyUnit(a);
      SendNone(SendAll(p, mask, a).1, mask);
    } else {
      var n := |b| - 1;
      TakeSnoc(b, n);
      TakeAll(b);
      Assoc(a, b[..n], [b[n]]);
      SendAllAppend(p, mask, a, b[..n]);
      SendAllSnoc(p, mask, a + b[..n], b[n]);
      SendAllSnoc(SendAll(p, mask, a).1, mask, b[..n], b[n]);
    }
  }

  lemma SendNone(p: Pipe, mask: bv32)
    ensures SendAll(p, mask, []) == (true, p) && Encodings([]) == []
  {
  }

  lemma {:induction false} EncodingsSnoc(ms: seq<Packet>, m: Packet)
    ensures Encodings(ms + [m]) == Encodings(ms) + Encode(m)
    decreases |ms|
  {
    hide Encode;
    if ms == [] {
      assert ([] + [m])[1..] == [];
      EmptyUnit(Encode(m));
    } else {
      assert (ms + [m])[1..] == ms[1..] + [m];
      EncodingsSnoc(ms[1..], m);
      Assoc(Encode(ms[0]), Encodings(ms[1..]), Encode(m));
    }
  }

  /** The wire carries exactly the packets if and only if every single write succeeded. */
  lemma {:induction false} SendAllIff(p: Pipe, mask: bv32, ms: seq<Packet>)
    ensures var (all, p') := SendAll(p, mask, ms);
            && |p'.sent| <= |p.sent| + |Encodings(ms)|
            && (all ==> p'.sent == p.sent + Encodings(ms))
            && (!all ==> |p'.sent| < |p.sent| + |Encodings(ms)|)
    decreases |ms|
  {
    hide RemoteWrite, Header, Encode, SendAll, Encodings;
    if ms == [] {
      SendNone(p, mask);
      EmptyUnit(p.sent);
    } else {
      var n := |ms| - 1;
      var pre, m := ms[..n], ms[n];
      TakeSnoc(ms, n);
      TakeAll(ms);
      SendAllIff(p, mask, pre);
      SendAllSnoc(p, mask, pre, m);
      EncodingsSnoc(pre, m);
      RemoteWriteIff(SendAll(p, mask, pre).1, mask, m);
      Assoc(p.sent, Encodings(pre), Encode(m));
    }
  }

  /** An unplugged pipe takes nothing. */
  lemma {:induction false} SendUnplugged(p: Pipe, mask: bv32, ms: seq<Packet>)
    requires !p.connected
    ensures SendAll(p, mask, ms) == (ms == [], p)
    decreases |ms|
  {
    hide Header;
    if ms != [] {
      SendUnplugged(p, mask, ms[..|ms| - 1]);
    }
  }

  /** Whatever the pipe does, exactly these packets end up on the wire. */
  ghost predicate SurelyOnTheWire(mask: bv32, ms: seq<Packet>) {
    forall p :: SendAll(p, mask, ms).1.sent == p.sent + Encodings(ms)
  }

  /**
   A sender that drops the verdict of every write, as write_packet does, is sure of what is on the wire exactly
   if it sends nothing: an unplugged pipe takes none of the rest.
   */
  lemma SureIffNothing(mask: bv32, ms: seq<Packet>)
    ensures SurelyOnTheWire(mask, ms) <==> ms == []
  {
    hide SendAll, Encodings;
    if ms == [] {
      forall p
        ensures SendAll(p, mask, ms).1.sent == p.sent + Encodings(ms)
      {
        SendNone(p, mask);
        EmptyUnit(p.sent);
      }
    } else {
      var unplugged := Pipe(false, [], [], [], []);
      SendUnplugged(unplugged, mask, ms);
      SendAllIff(unplugged, mask, ms);
      assert SendAll(unplugged, mask, ms).1.sent != unplugged.sent + Encodings(ms);
    }
  }

  /** Two machines, two plans of arbitrary short transfers: the packets arrive as they were sent. */
  lemma PacketsArrive(w: Pipe, mask: bv32, q: Pipe, r: Raw, ms: seq<Packet>)
    requires Sized(r)
    requires w.sent == [] && SendAll(w, mask, ms).0 && q.incoming == SendAll(w, mask, ms).1.sent
    requires ReadAll(q, r, |ms|).0
    ensures ReadAll(q, r, |ms|).1 == ms && ReadAll(q, r, |ms|).2.incoming == []
  {
    SendAllIff(w, mask, ms);
    EmptyUnit(Encodings(ms));
    ReadAllExact(q, r, ms, []);
  }

  // ------------------------------------------------------------------ pipes on which everything works

  /** At least n transfers, each of which moves as much as it is asked for. */
  predicate Generous(p: Pipe, n: nat) {
    p.connected && n <= |p.plan| && forall i :: 0 <= i < |p.plan| ==> p.plan[i] == Moved(MAX_TRANSFER)
  }

  lemma GenerousWrite(p: Pipe, data: seq<byte>, n: nat)
    requires Generous(p, n) && n > 0 && 0 < |data| <= MAX_TRANSFER
    ensures var (r, p') := Write(p, 0, data); r == |data| && Generous(p', n - 1)
  {
    assert p.plan[0] == Moved(MAX_TRANSFER);
  }

  lemma GenerousRead(p: Pipe, len: nat, n: nat)
    requires Generous(p, n) && n > 0 && 0 < len <= MAX_TRANSFER && len <= |p.incoming|
    ensures Read(p, len).0 && Generous(Read(p, len).2, n - 1)
  {
    assert p.plan[0] == Moved(MAX_TRANSFER);
  }

  lemma GenerousLess(p: Pipe, n: nat, m: nat)
    requires Generous(p, n) && m <= n
    ensures Generous(p, m)
  {
  }

  lemma GenerousPacketOut(p: Pipe, m: Packet, n: nat)
    requires Generous(p, n + 2)
    ensures var (ok, p') := RemoteWrite(p, 0, Header(m), m.payload); ok && Generous(p', n)
  {
    hide Header, Write, Generous;
    GenerousWrite(p, Header(m), n + 2);
    var p1 := Write(p, 0, Header(m)).1;
    if m.payload != [] {
      GenerousWrite(p1, m.payload, n + 1);
    }
    GenerousLess(p1, n + 1, n);
  }

  lemma GenerousPacketIn(p: Pipe, r: Raw, m: Packet, rest: seq<byte>, n: nat)
    requires Sized(r) && Generous(p, n + 2) && p.incoming == Encode(m) + rest
    ensures RemoteRead(p, r).0 && Generous(RemoteRead(p, r).2, n)
  {
    hide Header, Read, Generous, Field, Sum;
    AcceptsEncoding(p, r, m, rest);
    GenerousRead(p, HEADER, n + 2);
    ReadExact(p, HEADER);
    var p1 := Read(p, HEADER).2;
    if m.payload != [] {
      GenerousRead(p1, |m.payload|, n + 1);
    }
    GenerousLess(p1, n + 1, n);
    HeaderFields(m);
  }

  lemma {:induction false} GenerousOut(p: Pipe, ms: seq<Packet>, n: nat)
    requires Generous(p, 2 * |ms| + n)
    ensures SendAll(p, 0, ms).0 && Generous(SendAll(p, 0, ms).1, n)
    decreases |ms|
  {
    hide Generous, RemoteWrite, Header;
    if ms != [] {
      var k := |ms| - 1;
      GenerousOut(p, ms[..k], n + 2);
      GenerousPacketOut(SendAll(p, 0, ms[..k]).1, ms[k], n);
    }
  }

  lemma {:induction false} GenerousIn(p: Pipe, r: Raw, ms: seq<Packet>, rest: seq<byte>)
    requires Sized(r) && Generous(p, 2 * |ms|) && p.incoming == Encodings(ms) + rest
    ensures ReadAll(p, r, |ms|).0
    decreases |ms|
  {
    hide Generous, RemoteRead, Encode, Encodings, ReadAll, Received, Arrives;
    if ms == [] {
      NothingToRead(p, r);
    } else {
      FirstEncoding(ms, rest);
      GenerousPacketIn(p, r, ms[0], Encodings(ms[1..]) + rest, 2 * |ms| - 2);
      AcceptsEncoding(p, r, ms[0], Encodings(ms[1..]) + rest);
      ReadAllStep(p, r, |ms|);
      GenerousIn(RemoteRead(p, r).2, r, ms[1..], rest);
    }
  }

  /** Over pipes whose transfers all complete, any packets are written, read, and delivered unchanged. */
  lemma GenerousPipesDeliver(w: Pipe, q: Pipe, r: Raw, ms: seq<Packet>)
    requires Sized(r) && w.sent == [] && Generous(w, 2 * |ms|) && Generous(q, 2 * |ms|)
    requires q.incoming == SendAll(w, 0, ms).1.sent
    ensures SendAll(w, 0, ms).0 && ReadAll(q, r, |ms|).0 && ReadAll(q, r, |ms|).1 == ms
  {
    hide Generous, SendAll, ReadAll, Encodings;
    GenerousOut(w, ms, 0);
    SendAllIff(w, 0, ms);
    EmptyUnit(Encodings(ms));
    GenerousIn(q, r, ms, []);
    PacketsArrive(w, 0, q, r, ms);
  }
}
