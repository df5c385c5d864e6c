/**
 CDLPrg of src/dlprg.cpp over CPacket: commands are built in place in the command buffer.
 */
module DlPrgClient {
  import opened Bytes
  import opened Hdlc
  import opened Seqs
  import opened Link
  import opened Words
  import opened LinkEnd
  import opened DlPrg
  import opened Packet

  class CDLPrg {
    const packet: CPacket
    const line: Line
    const cmd: array<byte>
    var cmdLength: nat
    const rsp: array<byte>

    ghost predicate Valid()
      reads packet`length
    {
      && packet.Valid() && packet.port == line.port
      && cmd.Length == rsp.Length == MAX_PACKET_LEN
      && cmd != rsp && cmd != packet.buf && rsp != packet.buf
    }

    constructor (packet: CPacket, line: Line)
      requires packet.Valid() && packet.port == line.port
      ensures Valid() && this.packet == packet && this.line == line && fresh(cmd) && fresh(rsp)
    {
      this.packet, this.line := packet, line;
      cmd := new byte[MAX_PACKET_LEN];
      rsp := new byte[MAX_PACKET_LEN];
      cmdLength := 0;
    }

    /** start_building_dload_cmd */
    method StartCmd(code: byte)
      requires Valid()
      modifies cmd, this`cmdLength
      ensures Valid() && cmdLength == 1 && cmd[0] == code
    {
      forall i | 0 <= i < cmd.Length {
        cmd[i] := 0;
      }
      cmd[0] := code;
      cmdLength := 1;
    }

    /** cmd_ptr->buf[cmd_ptr->length++] = b */
    method Put(b: byte)
      requires Valid() && cmdLength < MAX_PACKET_LEN
      modifies cmd, this`cmdLength
      ensures Valid() && cmdLength == old(cmdLength) + 1
      ensures cmd[..cmdLength] == old(cmd[..cmdLength]) + [b]
    {
      cmd[cmdLength] := b;
      cmdLength := cmdLength + 1;
    }

    /** The four bytes of a 32-bit value, high byte first. */
    method Put32(v: nat)
      requires Valid() && cmdLength + 4 <= MAX_PACKET_LEN && v < TWO32
      modifies cmd, this`cmdLength
      ensures Valid() && cmdLength == old(cmdLength) + 4
      ensures cmd[..cmdLength] == old(cmd[..cmdLength]) + BE32(v)
    {
      hide ToByte;
      Put(ToByte(v / 16777216 % 256));
      Put(ToByte(v / 65536 % 256));
      Put(ToByte(v / 256 % 256));
      Put(ToByte(v % 256));
    }

    /** Four literal bytes. */
    method Put4(a: byte, b: byte, c: byte, d: byte)
      requires Valid() && cmdLength + 4 <= MAX_PACKET_LEN
      modifies cmd, this`cmdLength
      ensures Valid() && cmdLength == old(cmdLength) + 4
      ensures cmd[..cmdLength] == old(cmd[..cmdLength]) + [a, b, c, d]
    {
      Put(a);
      Put(b);
      Put(c);
      Put(d);
    }

    method AppendData(data: array<byte>, addr: nat, len: nat)
      requires Valid() && data != cmd && cmdLength + len <= MAX_PACKET_LEN
      requires addr + len <= data.Length
      modifies cmd, this`cmdLength
      ensures Valid() && cmdLength == old(cmdLength) + len
      ensures cmd[..cmdLength] == old(cmd[..cmdLength]) + data[addr..addr + len]
    {
      forall i | 0 <= i < len {
        cmd[cmdLength + i] := data[addr + i];
      }
      cmdLength := cmdLength + len;
    }

    /** The address high byte first, the length high byte first, then the data. */
    method BuildWrite32(data: array<byte>, dstaddr: nat, addr: nat, len: nat)
      requires Valid() && data != cmd && len <= SEND_PRG_PACKET_LEN
      requires addr + len <= data.Length && dstaddr < TWO32
      modifies cmd, this`cmdLength
      ensures Valid() && cmdLength == 7 + len
      ensures cmd[..cmdLength] == Write32(dstaddr, data[addr..addr + len])
    {
      hide ToByte;
      StartCmd(CMD_WRITE_32BIT);
      assert cmd[..cmdLength] == [CMD_WRITE_32BIT];
      hide BE32;
      Put32(dstaddr);
      Put(ToByte(len / 256));
      Put(ToByte(len % 256));
      assert cmd[..cmdLength] == [CMD_WRITE_32BIT] + BE32(dstaddr) + [ToByte(len / 256), ToByte(len % 256)];
      AppendData(data, addr, len);
    }

    /** GetAckCmd and the check that follows every call of it. */
    method GetAck() returns (result: TResult)
      requires Valid()
      modifies packet.buf, packet.port`rx, rsp
      ensures Valid()
      ensures line.Snapshot() == Listen(old(line.Snapshot())).1
      ensures var o := Listen(old(line.Snapshot())).0;
              result == if o.result != EOK then o.result else AckResult(Cleared(o.content))
    {
      hide Hunt, FromByte;
      forall i | 0 <= i < rsp.Length {
        rsp[i] := 0;
      }
      var rlen;
      result, rlen := packet.Receive(rsp, MAX_PACKET_LEN);
      if result != EOK {
        return;
      }
      ghost var content := Listen(old(line.Snapshot())).0.content;
      assert rsp[..] == Cleared(content);
      assert forall k :: 0 <= k < 3 ==> rsp[k] == rsp[..][k];
      var ackCode := ACK_OK;
      if rsp[0] == CMD_ACK {
        ackCode := ACK_OK;
      } else if rsp[0] == CMD_NAK {
        ackCode := FromByte(rsp[2]);
      } else {
        return EACKPACKET;
      }
      if ackCode != ACK_OK {
        result := EACKFAILED;
      }
    }

    /** Send the command in the buffer and wait for its acknowledgement. */
    method SendAndWait() returns (result: TResult)
      requires Valid() && cmdLength <= MAX_PACKET_LEN
      modifies packet`length, packet`broken, packet.buf, packet.port, line, rsp
      ensures Valid()
      ensures (result, line.Snapshot()) == Exchange(old(line.Snapshot()), old(cmd[..cmdLength]))
    {
      hide Transmit, Listen, Cleared, AckResult;
      result := SendCommand(packet, line, cmd, cmdLength);
      if result != EOK {
        return;
      }
      result := GetAck();
    }

    /** SendWrite32Cmd */
    method SendWrite32Cmd(prgbuf: array<byte>, len0: nat, addrType: int) returns (result: TResult)
      requires Valid() && prgbuf != cmd && prgbuf != rsp && prgbuf != packet.buf
      requires len0 <= prgbuf.Length && len0 < TWO32 / 2
      modifies cmd, this`cmdLength, packet`length, packet`broken, packet.buf, packet.port, line, rsp
      ensures Valid()
      ensures (result, line.Snapshot()) == Load(old(line.Snapshot()), old(prgbuf[..len0]), addrType)
    {
      hide Exchange, Write32;
      var len, addr := len0, 0;
      ghost var data := prgbuf[..len0];
      while len > SEND_PRG_PACKET_LEN
        invariant Valid() && 0 <= len && (len > 0 || addr == 0) && addr + len == len0 && prgbuf[..len0] == data
        invariant Base(addrType).None? ==> addr == 0 && line.Snapshot() == old(line.Snapshot())
        invariant Base(addrType).Some? ==>
                    LoadFrom(old(line.Snapshot()), data, Base(addrType).value, 0)
                    == LoadFrom(line.Snapshot(), data, Base(addrType).value, addr)
      {
        if addrType != 1 && addrType != 2 && addrType != 3 {
          return EFAILED;
        }
        var dstaddr := addr + (if addrType == 1 then 0x800000 else if addrType == 2 then 0x100000 else 0x41700000);
        BuildWrite32(prgbuf, dstaddr, addr, SEND_PRG_PACKET_LEN);
        TakeSlice(prgbuf[..], len0, addr, addr + SEND_PRG_PACKET_LEN);
        assert prgbuf[..][addr..addr + SEND_PRG_PACKET_LEN] == prgbuf[addr..addr + SEND_PRG_PACKET_LEN];
        result := SendAndWait();
        if result != EOK {
          return;
        }
        len := len - SEND_PRG_PACKET_LEN;
        addr := addr + SEND_PRG_PACKET_LEN;
      }
      if addrType != 1 && addrType != 2 && addrType != 3 {
        return EFAILED;
      }
      var dstaddr := addr + (if addrType == 1 then 0x800000 else if addrType == 2 then 0x100000 else 0x41700000);
      BuildWrite32(prgbuf, dstaddr, addr, len);
      TakeSlice(prgbuf[..], len0, addr, len0);
      assert prgbuf[addr..addr + len] == data[addr..];
      result := SendAndWait();
    }

    /** SendGoCmd */
    method SendGoCmd(addrType: int) returns (result: TResult)
      requires Valid()
      modifies cmd, this`cmdLength, packet`length, packet`broken, packet.buf, packet.port, line, rsp
      ensures Valid()
      ensures (result, line.Snapshot()) == Exchange(old(line.Snapshot()), Go(addrType))
    {
      hide Exchange;
      StartCmd(CMD_GO);
      assert cmd[..cmdLength] == [CMD_GO];
      if addrType == 1 {
        Put4(0x00, 0x80, 0x00, 0x00);
      } else if addrType == 2 {
        Put4(0x00, 0x10, 0x00, 0x00);
      } else if addrType == 3 {
        Put4(0x41, 0x70, 0x00, 0x00);
      }
      assert cmd[..cmdLength] == Go(addrType);
      result := SendAndWait();
    }
  }
}
