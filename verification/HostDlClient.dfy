/**
 CDLData of src/hostdl.cpp over CPacket: the command and response buffers are rebuilt in place, and
 SendWritePacket does, step by step, what HostDl specifies.
 */
module HostDlClient {
  import opened Bytes
  import opened Hdlc
  import opened Link
  import opened Words
  import opened HostDl
  import opened Packet
  import opened LinkEnd

  class CDLData {
    const packet: CPacket
    const line: Line
    const cmd: array<byte>
    var cmdLength: nat
    const rsp: array<byte>

    ghost predicate Valid()
      reads packet`length
    {
      && packet.Valid() && packet.port == line.port
      && cmd.Length == rsp.Length == MAX_PACKET_LEN
      && cmd != rsp && cmd != packet.buf && rsp != packet.buf
    }

    constructor (packet: CPacket, line: Line)
      requires packet.Valid() && packet.port == line.port
      ensures Valid() && this.packet == packet && this.line == line && fresh(cmd) && fresh(rsp)
    {
      this.packet, this.line := packet, line;
      cmd := new byte[MAX_PACKET_LEN];
      rsp := new byte[MAX_PACKET_LEN];
      cmdLength := 0;
    }

    /** A STREAM_WRITE command: the address low byte first, then the data. */
    method BuildWrite(pData: array<byte>, addr: nat, datalen: nat)
      requires Valid() && pData != cmd
      requires addr + datalen <= pData.Length && addr < TWO32 && datalen <= SEND_HOSTDL_PACKET_LEN
      modifies cmd, this`cmdLength
      ensures Valid() && cmdLength == 5 + datalen
      ensures cmd[..cmdLength] == Request(addr, pData[addr..addr + datalen])
    {
      hide ToByte;
      StartCmd(STREAM_WRITE_CMD);
      cmd[1] := ToByte(addr % 256);
      cmd[2] := ToByte(addr / 256 % 256);
      cmd[3] := ToByte(addr / 65536 % 256);
      cmd[4] := ToByte(addr / 16777216 % 256);
      cmdLength := 5;
      assert cmd[..5] == [STREAM_WRITE_CMD] + LE32(addr);
      AppendData(pData, addr, datalen);
    }

    /** start_building_hostdl_cmd */
    method StartCmd(code: byte)
      requires Valid()
      modifies cmd, this`cmdLength
      ensures Valid() && cmdLength == 1 && cmd[0] == code
    {
      forall i | 0 <= i < cmd.Length {
        cmd[i] := 0;
      }
      cmd[0] := code;
      cmdLength := 1;
    }

    /** memcpy of a piece of the image behind what the command holds. */
    method AppendData(pData: array<byte>, addr: nat, datalen: nat)
      requires Valid() && pData != cmd && cmdLength + datalen <= MAX_PACKET_LEN
      requires addr + datalen <= pData.Length
      modifies cmd, this`cmdLength
      ensures Valid() && cmdLength == old(cmdLength) + datalen
      ensures cmd[..cmdLength] == old(cmd[..cmdLength]) + pData[addr..addr + datalen]
    {
      forall i | 0 <= i < datalen {
        cmd[cmdLength + i] := pData[addr + i];
      }
      cmdLength := cmdLength + datalen;
    }

    /** check_hostdl_cmd_ok; the type is always CMD_TYPE_HOSTDL and broken is never set. */
    predicate CheckCmdOk()
      reads this`cmdLength
    {
      cmdLength <= MAX_PACKET_LEN
    }

    method SendCmd() returns (result: TResult)
      requires Valid() && cmdLength <= MAX_PACKET_LEN
      modifies packet`length, packet`broken, packet.buf, packet.port, line
      ensures Valid()
      ensures (result, line.Snapshot()) == Transmit(old(line.Snapshot()), old(cmd[..cmdLength]))
    {
      result := SendCommand(packet, line, cmd, cmdLength);
    }

    /** GetAck: what the response means, or the receive error. */
    method GetAck() returns (result: TResult, ackCode: byte, errCode: nat)
      requires Valid()
      modifies packet.buf, packet.port`rx, rsp
      ensures Valid()
      ensures line.Snapshot() == Listen(old(line.Snapshot())).1
      ensures var o := Listen(old(line.Snapshot())).0;
              if o.result != EOK then result == o.result
              else Ack(result, ackCode, errCode) == AckOf(Padded(o.content))
    {
      hide Hunt, FromLE32, AckOf, Padded;
      forall i | 0 <= i < rsp.Length {
        rsp[i] := 0;
      }
      ackCode, errCode := 0, 0;
      var rlen;
      result, rlen := packet.Receive(rsp, RSP_LEN);
      if result != EOK {
        return;
      }
      ghost var content := Listen(old(line.Snapshot())).0.content;
      PaddedIs(content, rlen);
      assert rsp[..] == Padded(content);
      result, ackCode, errCode := Classify();
    }

    method Classify() returns (result: TResult, ackCode: byte, errCode: nat)
      requires Valid()
      ensures Ack(result, ackCode, errCode) == AckOf(rsp[..])
    {
      hide FromLE32;
      result, ackCode, errCode := EOK, rsp[0], 0;
      if ackCode == STREAM_WRITE_RSP {
        errCode := FromLE32(rsp[1..5]);
      } else if ackCode == ERROR_RSP {
        errCode := FromLE32(rsp[1..5]);
        result := EFAILED;
      } else if ackCode == CMD_LOG {
        if rsp[1..11] == CRC_INVALID {
          result, ackCode, errCode := EDATACRC, ERROR_RSP, NAK_CRC;
        } else if rsp[1..11] == CLOSE_FAILED {
          ackCode, errCode := ERROR_RSP, NAK_FAILED;
        }
      } else if ackCode == PARTITION_TABLE_RSP {
        errCode := FromByte(rsp[1]);
      }
      assert rsp[..][1..5] == rsp[1..5] && rsp[..][1..11] == rsp[1..11];
    }

    /** One turn of the resend loop. */
    method TryOnce(addr: nat) returns (t: Try)
      requires Valid() && cmdLength <= MAX_PACKET_LEN
      modifies packet`length, packet`broken, packet.buf, packet.port, line, rsp
      ensures Valid()
      ensures (t, line.Snapshot()) == Attempt(old(line.Snapshot()), old(cmd[..cmdLength]), addr)
    {
      hide Transmit, Listen, AckOf, Padded;
      var result := SendCmd();
      if result != EOK {
        return Again(result);
      }
      var ackCode, errCode;
      result, ackCode, errCode := GetAck();
      if result != EOK {
        return Again(result);
      }
      if ackCode != STREAM_WRITE_RSP {
        result := CheckAckError(ackCode, errCode);
      }
      if addr != errCode {
        return GiveUp;
      }
      return if !NeedResend(result) then Leave(result) else Again(result);
    }

    /** The resend loop: at most MAX_RESEND turns. */
    method SendChunk(addr: nat) returns (result: TResult)
      requires Valid() && cmdLength <= MAX_PACKET_LEN
      modifies packet`length, packet`broken, packet.buf, packet.port, line, rsp
      ensures Valid()
      ensures (result, line.Snapshot()) == Attempts(old(line.Snapshot()), old(cmd[..cmdLength]), addr, MAX_RESEND, EOK)
    {
      hide Attempt;
      result := EOK;
      ghost var req := cmd[..cmdLength];
      var i := 0;
      while i < MAX_RESEND
        invariant i <= MAX_RESEND && Valid() && cmd[..cmdLength] == req
        invariant Attempts(old(line.Snapshot()), req, addr, MAX_RESEND, EOK)
               == Attempts(line.Snapshot(), req, addr, MAX_RESEND - i, result)
      {
        var t := TryOnce(addr);
        match t {
          case Again(r) => result := r;
          case Leave(r) => return r;
          case GiveUp => return EFAILED;
        }
        i := i + 1;
      }
    }

    /** SendWritePacket, without the progress report. */
    method SendWritePacket(pData: array<byte>, len0: int) returns (result: TResult)
      requires Valid() && pData != cmd && pData != rsp && pData != packet.buf
      requires len0 <= pData.Length && len0 < TWO32 / 2
      modifies cmd, this`cmdLength, packet`length, packet`broken, packet.buf, packet.port, line, rsp
      ensures Valid()
      ensures (result, line.Snapshot()) == WriteFrom(old(line.Snapshot()), pData[..], 0, len0)
    {
      hide Attempts, Request;
      result := EOK;
      var addr, len := 0, len0;
      ghost var data := pData[..];
      while len > 0
        invariant Valid() && 0 <= addr && addr + len == len0 && pData[..] == data && result == EOK
        invariant WriteFrom(old(line.Snapshot()), data, 0, len0) == WriteFrom(line.Snapshot(), data, addr, len)
        decreases len
      {
        var datalen := ChunkLen(len);
        BuildWrite(pData, addr, datalen);
        assert pData[addr..addr + datalen] == data[addr..addr + datalen];
        if !CheckCmdOk() {
          return EBUFFERBROKEN;
        }
        result := SendChunk(addr);
        if result != EOK {
          return;
        }
        addr := addr + datalen;
        len := len - datalen;
      }
    }
  }

  lemma PaddedIs(content: seq<byte>, rlen: nat)
    requires rlen == if |content| < RSP_LEN then |content| else RSP_LEN
    ensures Padded(content) == content[..rlen] + seq(MAX_PACKET_LEN - rlen, _ => 0)
  {
  }
}
