/**
 The packet functions of src/transport_usb.cpp, and the filling in of a header by send_packet of
 src/adbhost.cpp, over an apacket in memory.
 */
module TransportUsb {
  import opened Bytes
  import opened UsbPacket
  import opened UsbHandle
  import opened Words

  class Apacket {
    const msg: array<byte>
    const data: array<byte>

    ghost predicate Valid() {
      msg.Length == HEADER && data.Length == MAX_PAYLOAD && msg != data
    }

    ghost function Contents(): (r: Raw)
      requires Valid()
      reads msg, data
      ensures Sized(r)
    {
      Raw(msg[..], data[..])
    }

    /** get_apacket, which clears the header and leaves the data as malloc gave it. */
    constructor ()
      ensures Valid() && fresh(msg) && fresh(data)
      ensures forall i: nat :: i < 6 ==> Field(msg[..], i) == 0
    {
      msg := new byte[HEADER](_ => 0);
      data := new byte[MAX_PAYLOAD];
      new;
      forall i: nat | i < 6
        ensures Field(msg[..], i) == 0
      {
        assert msg[..][4 * i..4 * i + 4] == [0, 0, 0, 0];
        FourZeros();
      }
    }

    function Get(i: nat): (n: nat)
      requires Valid() && i < 6
      reads msg
      ensures n < TWO32
    {
      Field(msg[..], i)
    }

    /** memset(p, 0, sizeof(apacket)) */
    method Clear()
      requires Valid()
      modifies msg, data
      ensures forall i: nat :: i < 6 ==> Field(msg[..], i) == 0
    {
      forall i | 0 <= i < HEADER {
        msg[i] := 0;
      }
      forall i | 0 <= i < MAX_PAYLOAD {
        data[i] := 0;
      }
      forall i: nat | i < 6
        ensures Field(msg[..], i) == 0
      {
        assert msg[..][4 * i..4 * i + 4] == [0, 0, 0, 0];
        FourZeros();
      }
    }

    method Set(i: nat, n: nat)
      requires Valid() && i < 6 && n < TWO32
      modifies msg
      ensures Field(msg[..], i) == n
      ensures forall j: nat :: j < 6 && j != i ==> Field(msg[..], j) == old(Field(msg[..], j))
    {
      hide LE32, FromLE32;
      var w := LE32(n);
      LE32Back(n);
      ghost var before := msg[..];
      msg[4 * i], msg[4 * i + 1], msg[4 * i + 2], msg[4 * i + 3] := w[0], w[1], w[2], w[3];
      assert msg[..][4 * i..4 * i + 4] == w;
      forall j: nat | j < 6 && j != i
        ensures Field(msg[..], j) == Field(before, j)
      {
        assert msg[..][4 * j..4 * j + 4] == before[4 * j..4 * j + 4];
      }
    }

    /** The loop of send_packet and of check_data. */
    method Checksum() returns (sum: nat)
      requires Valid() && Get(DATA_LENGTH) <= MAX_PAYLOAD
      ensures sum == Sum(data[..Get(DATA_LENGTH)])
    {
      hide Add32;
      var count, x := Get(DATA_LENGTH), 0;
      sum := 0;
      while count > 0
        invariant x + count == Get(DATA_LENGTH) && sum == Sum(data[..x])
      {
        count := count - 1;
        assert data[..x + 1][..x] == data[..x];
        sum := Add32(sum, FromByte(data[x]));
        x := x + 1;
      }
    }

    /** send_packet up to the write: the finished packet is what its command, arguments and payload encode to. */
    method Finish()
      requires Valid() && Get(DATA_LENGTH) <= MAX_PAYLOAD
      modifies msg
      ensures Valid() && Get(DATA_LENGTH) <= MAX_PAYLOAD
      ensures Received(Contents()) == old(Received(Contents()))
      ensures msg[..] == Header(Received(Contents()))
      ensures forall k :: 0 <= k < 4 ==> msg[20 + k] == msg[k] ^ 0xff
    {
      hide Field, Sum, Complement;
      Set(MAGIC, Complement(Get(COMMAND)));
      var sum := Checksum();
      Set(DATA_CHECK, sum);
      FieldsAreHeader(Contents());
      HeaderMagic(Received(Contents()));
    }

    /** check_header: 0 or -1 in the code. */
    method CheckHeader() returns (ok: bool)
      requires Valid()
      ensures ok == HeaderOk(msg[..])
      ensures ok <==> (forall k :: 0 <= k < 4 ==> msg[20 + k] == msg[k] ^ 0xff) && Get(DATA_LENGTH) <= MAX_PAYLOAD
    {
      hide Field, FromLE32, Complement;
      HeaderOkIff(msg[..]);
      HeaderOkWords(msg[..]);
      if Get(MAGIC) != Complement(Get(COMMAND)) {
        return false;
      }
      if Get(DATA_LENGTH) > MAX_PAYLOAD {
        return false;
      }
      return true;
    }

    method CheckData() returns (ok: bool)
      requires Valid() && Get(DATA_LENGTH) <= MAX_PAYLOAD
      ensures ok == DataOk(Contents())
    {
      var sum := Checksum();
      ok := sum == Get(DATA_CHECK);
    }

    method RemoteRead(usb: UsbHandle) returns (ok: bool)
      requires Valid()
      modifies usb, msg, data
      ensures Valid() && (ok, Contents(), usb.Snapshot()) == UsbPacket.RemoteRead(old(usb.Snapshot()), old(Contents()))
    {
      hide HeaderOk, DataOk, Field, ReadInto;
      ok := usb.Read(msg, HEADER);
      if !ok {
        return;
      }
      ok := CheckHeader();
      if !ok {
        return;
      }
      HeaderBounds(msg[..]);
      if Get(DATA_LENGTH) != 0 {
        ok := usb.Read(data, Get(DATA_LENGTH));
        if !ok {
          return;
        }
      }
      ok := CheckData();
    }

    method RemoteWrite(usb: UsbHandle) returns (ok: bool)
      requires Valid() && Get(DATA_LENGTH) <= MAX_PAYLOAD
      modifies usb
      ensures (ok, usb.Snapshot()) ==
              UsbPacket.RemoteWrite(old(usb.Snapshot()), usb.zeroMask, msg[..], data[..Get(DATA_LENGTH)])
    {
      hide Field, Usb.Write;
      var size := Get(DATA_LENGTH);
      assert msg[..HEADER] == msg[..];
      var n := usb.Write(msg, HEADER);
      if n != HEADER {
        return false;
      }
      if size == 0 {
        return true;
      }
      n := usb.Write(data, size);
      ok := n == size;
    }
  }

  lemma FourZeros()
    ensures FromLE32([0, 0, 0, 0]) == 0
  {
  }

  lemma HeaderOkWords(msg: seq<byte>)
    requires |msg| == HEADER
    ensures HeaderOk(msg) <==> Field(msg, MAGIC) == Complement(Field(msg, COMMAND)) && Field(msg, DATA_LENGTH) <= MAX_PAYLOAD
    ensures Field(msg, DATA_LENGTH) == FromLE32(msg[12..16])
  {
    hide FromLE32;
  }

  lemma HeaderBounds(msg: seq<byte>)
    requires |msg| == HEADER && HeaderOk(msg)
    ensures Field(msg, DATA_LENGTH) <= MAX_PAYLOAD
  {
  }

  /** A header whose check and magic are right is the header of what it says. */
  lemma FieldsAreHeader(r: Raw)
    requires Sized(r) && HeaderOk(r.msg) && DataOk(r)
    ensures r.msg == Header(Received(r))
  {
    hide Field, Sum, Header;
    var m := Received(r);
    HeaderFields(m);
    forall i: nat | i < 6
      ensures Field(r.msg, i) == Field(Header(m), i)
    {
    }
    HeaderDetermined(r.msg, Header(m));
  }
}
