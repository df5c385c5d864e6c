/**
 CPacket of src/pkt.cpp: frames are built in a fixed 4096-byte buffer, sent through a serial port,
 and received back one byte at a time by a four-state machine.
 */
module Packet {
  import opened Bytes
  import opened Crc16
  import opened Hdlc
  import opened HdlcTheory
  import opened Seqs

  /** The port: what was written to it, and what reading from it will bring. */
  class SerialPort {
    var open: bool
    var tx: seq<byte>
    var rx: seq<Rx>

    constructor (open: bool, rx: seq<Rx>)
      ensures this.open == open && this.tx == [] && this.rx == rx
    {
      this.open, this.tx, this.rx := open, [], rx;
    }

    /** Writing first purges whatever was waiting to be read. */
    method Send(data: array<byte>, size: nat) returns (result: TResult, count: nat)
      requires size <= data.Length
      modifies this
      ensures open == old(open)
      ensures open ==> result == EOK && count == size && tx == old(tx) + data[..size] && rx == []
      ensures !open ==> result == EPORTSEND && count == 0 && tx == old(tx) && rx == old(rx)
    {
      count := 0;
      if !open {
        return EPORTSEND, 0;
      }
      rx := [];
      tx := tx + data[..size];
      result, count := EOK, size;
    }

    /** Read one byte: count is 0 when none came in time. */
    method ReceiveByte() returns (result: TResult, chr: byte, count: nat)
      modifies this`rx
      ensures !open ==> result == EPORTRECEIVE && rx == old(rx)
      ensures open && old(rx) == [] ==> result == EOK && count == 0 && rx == []
      ensures open && old(rx) != [] ==>
                && rx == old(rx)[1..]
                && (old(rx)[0].Fault? ==> result == EPORTRECEIVE)
                && (old(rx)[0].Timeout? ==> result == EOK && count == 0)
                && (old(rx)[0].Octet? ==> result == EOK && count == 1 && chr == old(rx)[0].b)
    {
      result, chr, count := EOK, 0, 0;
      if !open {
        return EPORTRECEIVE, 0, 0;
      }
      if rx != [] {
        var next := rx[0];
        rx := rx[1..];
        match next
        case Octet(b) => chr, count := b, 1;
        case Timeout =>
        case Fault => result := EPORTRECEIVE;
      }
    }
  }

  // ------------------------------------------------------------------ the index of the HDLC loop

  const WRAP16: nat := 0x1_0000

  /** The 16-bit index after k turns. */
  function Index16(k: nat): (i: nat)
    ensures i < WRAP16
  {
    if k == 0 then 0 else (Index16(k - 1) + 1) % WRAP16
  }

  lemma {:induction false} Index16Counts(k: nat)
    requires k < WRAP16
    ensures Index16(k) == k
  {
    if k > 0 {
      Index16Counts(k - 1);
    }
  }

  /** The loop of SendHDLCPkt over a payload ends exactly if the payload has fewer than 65536 bytes. */
  lemma HdlcLoopEndsIff(len: nat)
    ensures (exists k: nat :: Index16(k) >= len) <==> len < WRAP16
  {
    if len < WRAP16 {
      Index16Counts(len);
    }
  }

  // ------------------------------------------------------------------ facts about the sender's buffer

  /** The check made before a byte is stored, for everything stored so far. */
  predicate Room(start: nat, s: seq<byte>) {
    start + |Stuff(s)| + ROOM_FOR_CRC + ROOM_FOR_FLAG < MAX_PACKET_LEN
  }

  lemma StuffSnoc(s: seq<byte>, b: byte)
    ensures Stuff(s + [b]) == Stuff(s) + StuffByte(b)
  {
    assert (s + [b])[..|s|] == s;
  }

  lemma StuffSplit(p: seq<byte>, k: nat)
    requires k < |p|
    ensures Stuff(p) == Stuff(p[..k]) + StuffByte(p[k]) + Stuff(p[k + 1..])
    ensures Stuff(p[..k + 1]) == Stuff(p[..k]) + StuffByte(p[k])
  {
    hide StuffByte, Stuff;
    TakeSnoc(p, k);
    StuffSnoc(p[..k], p[k]);
    Split(p, k + 1);
    StuffAppend(p[..k + 1], p[k + 1..]);
  }

  lemma PrefixShorter(p: seq<byte>, k: nat)
    requires k <= |p|
    ensures |Stuff(p[..k])| <= |Stuff(p)|
    ensures |Stuff(p[..k])| == |Stuff(p)| <==> k == |p|
  {
    hide StuffByte, Stuff;
    StuffAppend(p[..k], p[k..]);
    assert p == p[..k] + p[k..];
  }

  /** What one more byte does to the room that is left. */
  lemma RoomStep(start: nat, p: seq<byte>, k: nat)
    requires k < |p|
    ensures Room(start, p[..k + 1]) ==> Room(start, p[..k])
    ensures Room(start, p[..k + 1])
       <==> start + |Stuff(p[..k])| + |StuffByte(p[k])| + ROOM_FOR_CRC + ROOM_FOR_FLAG < MAX_PACKET_LEN
  {
    hide StuffByte, Stuff;
    StuffSplit(p, k);
  }

  lemma FcsBytes(p: seq<byte>, crc: bv16)
    requires crc == Run(SEED, p)
    ensures Fcs(p) == [((crc ^ SEED) & 0xff) as byte, (((crc ^ SEED) >> 8) & 0xff) as byte]
  {
    hide Run;
  }

  /** The two FCS bytes, added one at a time. */
  lemma BodySteps(p: seq<byte>, low: byte, high: byte)
    requires Fcs(p) == [low, high]
    ensures Body(p) == Stuff(p) + StuffByte(low) + StuffByte(high)
  {
    hide StuffByte, Stuff, Fcs;
    StuffSnoc(p, low);
    StuffSnoc(p + [low], high);
    assert p + [low] + [high] == p + Fcs(p);
  }

  lemma RunSnoc(crc: bv16, p: seq<byte>, k: nat)
    requires k < |p|
    ensures Run(crc, p[..k + 1]) == Step(Run(crc, p[..k]), p[k])
  {
    hide Step;
    assert p[..k + 1][..k] == p[..k];
  }

  lemma RunOne(p: seq<byte>, b: byte)
    ensures Run(SEED, p + [b]) == Step(Run(SEED, p), b)
  {
    hide Step;
    assert (p + [b])[..|p|] == p;
  }

  // The receiver's functions, one event at a time.

  lemma HuntSteps(ev: seq<Rx>)
    ensures ev == [] ==> Hunt(ev) == GotFlag(ev) == Outcome(EPORTRECEIVE, [], [])
    ensures ev != [] && !ev[0].Octet? ==> Hunt(ev) == GotFlag(ev) == Outcome(EPORTRECEIVE, [], ev[1..])
    ensures ev != [] && ev[0] == Octet(FLAG) ==> Hunt(ev) == GotFlag(ev) == GotFlag(ev[1..])
    ensures ev != [] && ev[0].Octet? && ev[0].b != FLAG ==> Hunt(ev) == Hunt(ev[1..]) && GotFlag(ev) == Gather([], ev)
  {
    hide Gather;
  }

  lemma GatherSteps(got: seq<byte>, ev: seq<Rx>)
    ensures ev == [] ==> Gather(got, ev) == Outcome(EPORTRECEIVE, got, [])
    ensures ev != [] && !ev[0].Octet? ==> Gather(got, ev) == Outcome(EPORTRECEIVE, got, ev[1..])
    ensures ev != [] && ev[0] == Octet(FLAG) ==> Gather(got, ev) == Outcome(Verdict(got), got, ev[1..])
    ensures ev != [] && ev[0].Octet? && !Special(ev[0].b) ==> Gather(got, ev) == Store(got, ev[0].b, ev[1..])
    ensures ev == [Octet(ESC)] ==> Gather(got, ev) == Outcome(EPORTRECEIVE, got, [])
    ensures |ev| > 1 && ev[0] == Octet(ESC) ==>
              Gather(got, ev) == if ev[1].Octet? then Store(got, Mask(ev[1].b), ev[1..][1..])
                                 else Outcome(EPORTRECEIVE, got, ev[1..][1..])
  {
    hide Verdict, Store;
    if |ev| > 1 {
      assert ev[1..][1..] == ev[2..];
    }
  }

  lemma StoreSteps(got: seq<byte>, c: byte, ev: seq<Rx>)
    ensures Store(got, c, ev) == if |got| >= MAX_PACKET_LEN then Outcome(EPACKETRECEIVETOOLARGE, got, ev)
                                 else Gather(got + [c], ev)
  {
    hide Gather;
  }

  datatype HdlcState = HuntForFlag | GotAFlag | Gathering | PacketRcvd

  class CPacket {
    const buf: array<byte>
    var length: nat
    var broken: bool
    const port: SerialPort

    ghost predicate Valid()
      reads this`length
    {
      buf.Length == MAX_PACKET_LEN && length <= MAX_PACKET_LEN
    }

    ghost function Built(): seq<byte>
      requires Valid()
      reads this, buf
    {
      buf[..length]
    }

    constructor (port: SerialPort)
      ensures Valid() && fresh(buf) && this.port == port
    {
      this.port := port;
      buf := new byte[MAX_PACKET_LEN];
      length, broken := 0, false;
    }

    /** add_byte_to_packet */
    method AddByte(val: byte)
      requires Valid()
      modifies this`length, this`broken, buf
      ensures Valid() && length >= old(length)
      ensures length == old(length) || length < MAX_PACKET_LEN - ROOM_FOR_CRC - ROOM_FOR_FLAG
      ensures old(broken) || old(length) + |StuffByte(val)| + ROOM_FOR_CRC + ROOM_FOR_FLAG >= MAX_PACKET_LEN
              ==> broken && Built() == old(Built())
      ensures !(old(broken) || old(length) + |StuffByte(val)| + ROOM_FOR_CRC + ROOM_FOR_FLAG >= MAX_PACKET_LEN)
              ==> !broken && Built() == old(Built()) + StuffByte(val)
    {
      if broken {
        return;
      }
      if val == FLAG || val == ESC {
        if length + 2 + ROOM_FOR_CRC + ROOM_FOR_FLAG >= MAX_PACKET_LEN {
          broken := true;
          return;
        }
        buf[length] := ESC;
        length := length + 1;
        buf[length] := Mask(val);
        length := length + 1;
      } else {
        if length + 1 + ROOM_FOR_CRC + ROOM_FOR_FLAG >= MAX_PACKET_LEN {
          broken := true;
          return;
        }
        buf[length] := val;
        length := length + 1;
      }
    }

    /**
     Add a whole payload to a buffer that holds only its start bytes. The index of the loop wraps at so many:
     it has 16 bits in SendHDLCPkt and 32 in SendDIAGPkt.
     */
    method AddAll(pbuf: array<byte>, len: nat, wrap: nat)
      requires Valid() && !broken && length <= 1
      requires len <= pbuf.Length && len < wrap && pbuf != buf
      modifies this`length, this`broken, buf
      ensures Valid() && old(length) <= length < MAX_PACKET_LEN - ROOM_FOR_CRC - ROOM_FOR_FLAG
      ensures broken <==> !Room(old(length), pbuf[..len])
      ensures !broken ==> Built() == old(Built()) + Stuff(pbuf[..len])
    {
      hide StuffByte, Stuff, Room;
      var i := 0;
      ghost var start, p := Built(), pbuf[..len];
      RoomAtStart(|start|);
      assert p[..0] == [];
      while i < len
        invariant i <= len && Valid()
        invariant |start| <= length < MAX_PACKET_LEN - ROOM_FOR_CRC - ROOM_FOR_FLAG
        invariant pbuf[..len] == p
        invariant broken <==> !Room(|start|, p[..i])
        invariant !broken ==> Built() == start + Stuff(p[..i])
      {
        StuffSplit(p, i);
        RoomStep(|start|, p, i);
        AddByte(pbuf[i]);
        i := if i + 1 == wrap then 0 else i + 1;
      }
      assert p[..len] == p;
    }

    /** The FCS loop: undo the escapes of what was built, from index first on. */
    method CrcOfBuilt(first: nat, ghost p: seq<byte>) returns (crc: bv16)
      requires Valid() && first <= length
      requires Built()[first..] == Stuff(p)
      ensures crc == Run(SEED, p)
    {
      hide Step, Run, StuffByte, Stuff;
      crc := SEED;
      RunEmpty();
      StuffEmpty();
      assert p[..0] == [];
      var i := first;
      ghost var k := 0;
      PrefixShorter(p, 0);
      while i < length
        invariant k <= |p| && i == first + |Stuff(p[..k])| <= length
        invariant crc == Run(SEED, p[..k])
      {
        PrefixShorter(p, k);
        PrefixShorter(p, k + 1);
        StuffSplit(p, k);
        RunSnoc(SEED, p, k);
        EscapeForms(p[k]);
        ghost var from := |Stuff(p[..k])|;
        assert Stuff(p)[from] == StuffByte(p[k])[0];
        assert buf[i] == Built()[first..][from];
        if buf[i] != ESC {
          crc := Step(crc, buf[i]);
        } else {
          assert Stuff(p)[from + 1] == StuffByte(p[k])[1];
          i := i + 1;
          assert buf[i] == Built()[first..][from + 1];
          crc := Step(crc, Mask(buf[i]));
        }
        i := i + 1;
        k := k + 1;
      }
      PrefixShorter(p, k);
      assert p[..k] == p;
    }

    /** Append the FCS and the closing flag, unless the packet is broken. */
    method Finish(first: nat, ghost p: seq<byte>)
      requires Valid() && first <= 1
      requires first <= length < MAX_PACKET_LEN - ROOM_FOR_CRC - ROOM_FOR_FLAG
      requires broken <==> !Room(first, p)
      requires !broken ==> Built()[first..] == Stuff(p)
      modifies this`length, this`broken, buf
      ensures Valid()
      ensures !broken <==> Fits(first, p)
      ensures !broken ==> Built() == old(Built()[..first]) + Body(p) + [FLAG] && !old(broken)
      ensures length <= MAX_PACKET_LEN - ROOM_FOR_CRC - ROOM_FOR_FLAG
    {
      hide Run, Step, Fcs, Stuff, StuffByte, Body;
      BodyGrows(p);
      if broken {
        return;
      }
      var crc := CrcOfBuilt(first, p);
      FcsBytes(p, crc);
      ghost var head := Built()[..first];
      Split(Built(), first);
      var complemented := crc ^ SEED;
      var low, high := (complemented & 0xff) as byte, ((complemented >> 8) & 0xff) as byte;
      BodySteps(p, low, high);
      AddTwo(low, high);
      Assoc(head, Stuff(p), StuffByte(low));
      Assoc(head, Stuff(p) + StuffByte(low), StuffByte(high));
      PutFlag();
    }

    method AddTwo(low: byte, high: byte)
      requires Valid() && !broken
      requires length < MAX_PACKET_LEN - ROOM_FOR_CRC - ROOM_FOR_FLAG
      modifies this`length, this`broken, buf
      ensures Valid() && length < MAX_PACKET_LEN - ROOM_FOR_CRC - ROOM_FOR_FLAG
      ensures !broken ==> Built() == old(Built()) + StuffByte(low) + StuffByte(high)
      ensures broken <==> old(length) + |StuffByte(low)| + |StuffByte(high)| + ROOM_FOR_CRC + ROOM_FOR_FLAG >= MAX_PACKET_LEN
    {
      hide StuffByte;
      AddByte(low);
      AddByte(high);
    }

    /** The closing flag is stored without a check: even a broken packet has room for it. */
    method PutFlag()
      requires Valid() && length < MAX_PACKET_LEN
      modifies this`length, buf
      ensures Valid() && length == old(length) + 1
      ensures Built() == old(Built()) + [FLAG]
    {
      buf[length] := FLAG;
      length := length + 1;
    }

    /** SendHDLCPkt */
    method SendHdlc(pbuf: array<byte>, len: nat) returns (result: TResult, rlen: nat)
      requires Valid() && len <= pbuf.Length && len < WRAP16 && pbuf != buf
      modifies this`length, this`broken, buf, port
      ensures Valid() && port.open == old(port.open)
      ensures len == 0 ==> result == EFAILED
      ensures len > 0 ==> var p := old(pbuf[..len]);
                if !Fits(1, p) then result == EPACKETBROKEN
                else if !port.open then result == EPACKETSEND
                else result == EOK && rlen == |Frame(p)| <= MAX_PACKET_LEN - ROOM_FOR_CRC - ROOM_FOR_FLAG
      ensures if result == EOK then port.tx == old(port.tx) + Frame(old(pbuf[..len])) && port.rx == []
              else port.tx == old(port.tx) && port.rx == old(port.rx)
    {
      hide Run, Fcs, StuffByte;
      rlen := 0;
      if len == 0 {
        return EFAILED, 0;
      }
      length := 1;
      broken := false;
      buf[0] := FLAG;
      AddAll(pbuf, len, WRAP16);
      ghost var p := pbuf[..len];
      assert !broken ==> Built()[1..] == Stuff(p) && Built()[..1] == [FLAG];
      Finish(1, p);
      if broken {
        return EPACKETBROKEN, 0;
      }
      assert Built() == Frame(p);
      result, rlen := port.Send(buf, length);
      if result == EPORTSEND {
        result := EPACKETSEND;
      } else if result != EOK {
        result := EFAILED;
      }
    }

    /** SendDIAGPkt */
    method SendDiag(pbuf: array<byte>, len: nat) returns (result: TResult, rlen: nat)
      requires Valid() && len <= pbuf.Length && len < 0x1_0000_0000 && pbuf != buf
      modifies this`length, this`broken, buf, port
      ensures Valid() && port.open == old(port.open)
      ensures len == 0 ==> result == EINVALIDPARAM
      ensures len > 0 ==> var p := old(pbuf[..len]);
                if !Fits(0, p) then result == EPACKETBROKEN
                else if !port.open then result == EPORTSEND
                else result == EOK && rlen == |DiagFrame(p)| <= MAX_PACKET_LEN - ROOM_FOR_CRC - ROOM_FOR_FLAG
      ensures if result == EOK then port.tx == old(port.tx) + DiagFrame(old(pbuf[..len])) && port.rx == []
              else port.tx == old(port.tx) && port.rx == old(port.rx)
    {
      hide Run, Fcs, StuffByte;
      rlen := 0;
      if len == 0 {
        return EINVALIDPARAM, 0;
      }
      length := 0;
      broken := false;
      AddAll(pbuf, len, 0x1_0000_0000);
      ghost var p := pbuf[..len];
      assert !broken ==> Built()[0..] == Stuff(p);
      Finish(0, p);
      if broken {
        return EPACKETBROKEN, 0;
      }
      assert Built() == DiagFrame(p);
      result, rlen := port.Send(buf, length);
    }

    /** RcvHDLCPkt */
    method RcvHdlc() returns (result: TResult, rlen: nat)
      requires Valid()
      modifies port`rx, buf
      ensures Valid() && rlen <= MAX_PACKET_LEN
      ensures !port.open ==> result == EPORTRECEIVE && port.rx == old(port.rx)
      ensures port.open ==> var o := Hunt(old(port.rx));
                && result == o.result
                && port.rx == o.rest
                && (result == EOK ==> buf[..rlen] == o.content)
    {
      hide Run, Step, Hunt, GotFlag, Gather;
      rlen := 0;
      var state := HuntForFlag;
      var len := 0;
      var crc := SEED;
      var chr: byte;
      var count: nat;
      result := EOK;
      ghost var whole := Hunt(port.rx);
      while state != PacketRcvd
        invariant 0 <= len <= MAX_PACKET_LEN && Valid() && rlen == 0
        invariant !port.open ==> port.rx == old(port.rx) && state == HuntForFlag
        invariant port.open ==>
                    match state
                    case HuntForFlag => whole == Hunt(port.rx)
                    case GotAFlag => whole == GotFlag(port.rx)
                    case Gathering => whole == Gather(buf[..len], port.rx) && crc == Run(SEED, buf[..len])
                    case PacketRcvd => whole == Outcome(EOK, buf[..len], port.rx)
        decreases |port.rx|, state != PacketRcvd
      {
        ghost var ev := port.rx;
        HuntSteps(ev);
        GatherSteps(buf[..len], ev);
        result, chr, count := port.ReceiveByte();
        if result != EOK {
          return result, 0;
        } else if count == 0 {
          return EPORTRECEIVE, 0;
        }
        if state == HuntForFlag {
          if chr == FLAG {
            state := GotAFlag;
          }
          continue;
        }
        if state == GotAFlag {
          if chr == FLAG {
            continue;
          }
          len := 0;
          crc := SEED;
          state := Gathering;
          RunEmpty();
          TakeAll(buf[..]);
        }
        var done;
        result, done, len, crc := GatherByte(chr, len, crc, ev);
        if result != EOK {
          return result, 0;
        }
        if done {
          state := PacketRcvd;
        }
      }
      rlen := len;
      result := EOK;
    }

    /** The HDLC_GATHER case, for a byte already read. */
    method GatherByte(first: byte, len: nat, crc: bv16, ghost ev: seq<Rx>)
      returns (result: TResult, done: bool, len': nat, crc': bv16)
      requires Valid() && len <= MAX_PACKET_LEN && port.open
      requires ev != [] && ev[0] == Octet(first) && port.rx == ev[1..]
      requires crc == Run(SEED, buf[..len])
      modifies port`rx, buf
      ensures Valid() && len' <= MAX_PACKET_LEN && |port.rx| < |ev|
      ensures var o := Gather(old(buf[..len]), ev);
              if result != EOK then o.result == result && o.rest == port.rx
              else if done then o == Outcome(EOK, buf[..len'], port.rx)
              else o == Gather(buf[..len'], port.rx) && crc' == Run(SEED, buf[..len'])
    {
      hide Run, Step, Verdict, Gather, Store, Mask;
      ghost var got := buf[..len];
      var chr := first;
      result, done, len', crc' := EOK, false, len, crc;
      GatherSteps(got, ev);
      if chr == FLAG {
        VerdictOf(got, crc);
        if len < MIN_PACKET_LEN {
          result := EPACKETRECEIVETOOSHORT;
        } else if crc != OK_NEG {
          result := EPACKETRECEIVECRC;
        } else {
          done := true;
        }
        return;
      }
      if chr == ESC {
        var count;
        result, chr, count := port.ReceiveByte();
        if result != EOK {
          return;
        } else if count == 0 {
          result := EPORTRECEIVE;
          return;
        }
        chr := Mask(chr);
      }
      assert Gather(got, ev) == Store(got, chr, port.rx);
      StoreSteps(got, chr, port.rx);
      if len >= MAX_PACKET_LEN {
        result := EPACKETRECEIVETOOLARGE;
        return;
      }
      StoreByte(len, chr);
      len' := len + 1;
      RunOne(got, chr);
      crc' := Step(crc, chr);
    }

    method StoreByte(len: nat, chr: byte)
      requires Valid() && len < MAX_PACKET_LEN
      modifies buf
      ensures buf[..len + 1] == old(buf[..len]) + [chr]
    {
      buf[len] := chr;
    }

    /** Receive, for a response of one of the HDLC types: at most len bytes reach the caller. */
    method Receive(rsp: array<byte>, len: nat) returns (result: TResult, rlen: nat)
      requires Valid() && len <= rsp.Length && rsp != buf
      modifies port`rx, buf, rsp
      ensures Valid()
      ensures len == 0 ==> result == EFAILED && port.rx == old(port.rx)
      ensures len > 0 && !port.open ==> result == EPORTRECEIVE && port.rx == old(port.rx)
      ensures result != EOK ==> rsp[..] == old(rsp[..])
      ensures len > 0 && port.open ==> var o := Hunt(old(port.rx));
                && result == o.result
                && port.rx == o.rest
                && (result == EOK ==>
                      && rlen == (if |o.content| < len then |o.content| else len)
                      && rsp[..] == o.content[..rlen] + old(rsp[rlen..]))
    {
      hide Hunt;
      rlen := 0;
      if len == 0 {
        return EFAILED, 0;
      }
      result, rlen := RcvHdlc();
      if result != EOK {
        return;
      }
      rlen := if rlen < len then rlen else len;
      forall i | 0 <= i < rlen {
        rsp[i] := buf[i];
      }
    }

    /** RcvDIAGPkt, on input whose contents fit the buffer. */
    method RcvDiag() returns (result: TResult, rlen: nat)
      requires Valid()
      requires port.open ==> |GatherDiag([], port.rx).content| <= MAX_PACKET_LEN
      modifies port`rx, buf
      ensures Valid() && rlen <= MAX_PACKET_LEN
      ensures !port.open ==> result == EPORTRECEIVE && port.rx == old(port.rx)
      ensures port.open ==> var o := GatherDiag([], old(port.rx));
              && result == o.result
              && port.rx == o.rest
              && (result == EOK ==> buf[..rlen] == o.content)
    {
      rlen := 0;
      var len := 0;
      ghost var whole := GatherDiag([], port.rx);
      assert buf[..0] == [];
      var chr: byte;
      var count: nat;
      while true
        invariant 0 <= len <= MAX_PACKET_LEN && Valid() && rlen == 0
        invariant whole == GatherDiag(buf[..len], port.rx)
        invariant !port.open ==> port.rx == old(port.rx)
        decreases |port.rx|
      {
        ghost var got, before := buf[..len], port.rx;
        result, chr, count := port.ReceiveByte();
        if result != EOK {
          return result, 0;
        } else if count == 0 {
          break;
        }
        if chr == FLAG {
          assert whole.content == got + [FLAG];
          buf[len] := chr;
          len := len + 1;
          assert buf[..len] == got + [FLAG];
          return EOK, len;
        }
        if chr == ESC {
          result, chr, count := port.ReceiveByte();
          if result != EOK {
            return result, 0;
          }
          if count == 0 {
            break;
          }
          chr := Mask(chr);
        }
        if len >= MAX_PACKET_LEN {
          return EPACKETRECEIVETOOLARGE, 0;
        }
        buf[len] := chr;
        len := len + 1;
        assert buf[..len] == got + [chr];
      }
      rlen := len;
      result := EOK;
    }
  }

  lemma StuffEmpty()
    ensures Stuff([]) == []
  {
  }

  lemma RoomAtStart(start: nat)
    requires start <= 1
    ensures Room(start, [])
  {
  }

  lemma BodyGrows(p: seq<byte>)
    ensures |Stuff(p)| < |Body(p)|
  {
    hide Fcs, StuffByte;
    StuffAppend(p, Fcs(p));
  }

  lemma RunEmpty()
    ensures Run(SEED, []) == SEED
  {
  }

  lemma EscapeForms(b: byte)
    ensures StuffByte(b)[0] == ESC ==> |StuffByte(b)| == 2 && Mask(StuffByte(b)[1]) == b
    ensures StuffByte(b)[0] != ESC ==> StuffByte(b) == [b]
  {
    EscapeUndone(b);
  }

  lemma VerdictOf(got: seq<byte>, crc: bv16)
    requires crc == Run(SEED, got)
    ensures Verdict(got) == if |got| < MIN_PACKET_LEN then EPACKETRECEIVETOOSHORT
                            else if crc != OK_NEG then EPACKETRECEIVECRC else EOK
  {
    hide Run;
  }

  // ------------------------------------------------------------------ DIAG round trip

  lemma {:induction false} GatherDiagStuffed(got: seq<byte>, s: seq<byte>, ev: seq<Rx>)
    requires |got| + |s| <= MAX_PACKET_LEN
    ensures GatherDiag(got, Octets(Stuff(s)) + ev) == GatherDiag(got + s, ev)
    decreases |s|
  {
    if s == [] {
      assert Octets(Stuff(s)) + ev == ev;
      EmptyUnit(got);
    } else {
      hide GatherDiag, StuffByte, Stuff, Octets;
      var b, t := s[0], s[1..];
      StuffHead(s);
      OctetsAppend(StuffByte(b), Stuff(t));
      Assoc(Octets(StuffByte(b)), Octets(Stuff(t)), ev);
      GatherDiagOne(got, b, Octets(Stuff(t)) + ev);
      GatherDiagStuffed(got + [b], t, ev);
      Assoc(got, [b], t);
      Split(s, 1);
      assert s[..1] == [b];
    }
  }

  lemma GatherDiagOne(got: seq<byte>, b: byte, ev: seq<Rx>)
    requires |got| < MAX_PACKET_LEN
    ensures GatherDiag(got, Octets(StuffByte(b)) + ev) == GatherDiag(got + [b], ev)
  {
    EscapeUndone(b);
    var all := Octets(StuffByte(b)) + ev;
    assert all[|StuffByte(b)|..] == ev;
  }

  /** A DIAG frame the sender built comes back as the payload, its FCS and the closing flag. */
  lemma DiagRoundTrip(p: seq<byte>, rest: seq<Rx>)
    requires Fits(0, p)
    ensures GatherDiag([], Octets(DiagFrame(p)) + rest) == Outcome(EOK, p + Fcs(p) + [FLAG], rest)
  {
    hide Run, Fcs;
    var c := p + Fcs(p);
    OctetsAppend(Body(p), [FLAG]);
    var tail := Octets([FLAG]) + rest;
    assert Octets(DiagFrame(p)) + rest == Octets(Stuff(c)) + tail;
    GatherDiagStuffed([], c, tail);
    assert [] + c == c && tail[1..] == rest;
  }

  /** A DIAG receive that times out succeeds with what it has so far; one whose read fails does not. */
  lemma DiagCutShort(c: seq<byte>, escaping: bool, e: Rx, rest: seq<Rx>)
    requires |c| <= MAX_PACKET_LEN && !e.Octet?
    ensures var ends := if escaping then [Octet(ESC), e] + rest else [e] + rest;
            GatherDiag([], Octets(Stuff(c)) + ends) == Outcome(if e.Timeout? then EOK else EPORTRECEIVE, c, rest)
  {
    hide GatherDiag, Stuff, Octets;
    var ends := if escaping then [Octet(ESC), e] + rest else [e] + rest;
    GatherDiagStuffed([], c, ends);
    EmptyUnit(c);
    GatherDiagEnds(c, escaping, e, rest);
  }

  lemma GatherDiagEnds(got: seq<byte>, escaping: bool, e: Rx, rest: seq<Rx>)
    requires !e.Octet?
    ensures GatherDiag(got, if escaping then [Octet(ESC), e] + rest else [e] + rest)
         == Outcome(if e.Timeout? then EOK else EPORTRECEIVE, got, rest)
  {
    if escaping {
      var ends := [Octet(ESC), e] + rest;
      assert ends[0] == Octet(ESC) && ends[1] == e && ends[2..] == rest;
    } else {
      var ends := [e] + rest;
      assert ends[0] == e && ends[1..] == rest;
    }
  }

  /** One byte more than the buffer holds is refused, and the rest of the frame stays on the line. */
  lemma DiagOverrun(c: seq<byte>, rest: seq<Rx>)
    requires |c| > MAX_PACKET_LEN
    ensures GatherDiag([], Octets(Stuff(c)) + rest)
         == Outcome(EPACKETRECEIVETOOLARGE, c[..MAX_PACKET_LEN], Octets(Stuff(c[MAX_PACKET_LEN + 1..])) + rest)
  {
    hide GatherDiag, Stuff, StuffByte, Octets;
    var n := MAX_PACKET_LEN;
    StuffSplit(c, n);
    Assoc(Stuff(c[..n]), StuffByte(c[n]), Stuff(c[n + 1..]));
    OctetsAppend(Stuff(c[..n]), StuffByte(c[n]) + Stuff(c[n + 1..]));
    OctetsAppend(StuffByte(c[n]), Stuff(c[n + 1..]));
    Assoc(Octets(Stuff(c[..n])), Octets(StuffByte(c[n])) + Octets(Stuff(c[n + 1..])), rest);
    Assoc(Octets(StuffByte(c[n])), Octets(Stuff(c[n + 1..])), rest);
    GatherDiagStuffed([], c[..n], Octets(StuffByte(c[n])) + (Octets(Stuff(c[n + 1..])) + rest));
    EmptyUnit(c[..n]);
    GatherDiagFull(c[..n], c[n], Octets(Stuff(c[n + 1..])) + rest);
  }

  lemma GatherDiagFull(got: seq<byte>, b: byte, ev: seq<Rx>)
    requires |got| >= MAX_PACKET_LEN
    ensures GatherDiag(got, Octets(StuffByte(b)) + ev) == Outcome(EPACKETRECEIVETOOLARGE, got, ev)
  {
    EscapeUndone(b);
    var all := Octets(StuffByte(b)) + ev;
    assert all[|StuffByte(b)|..] == ev;
  }
}
