/**
 The link and its device as an object beside a serial port: after every attempt to write to the port
 it makes the moves of Link.
 */
module LinkEnd {
  import opened Bytes
  import opened Hdlc
  import opened Seqs
  import opened Link
  import opened Packet

  /** The world beyond the port: it moves after every attempt to write. */
  class Line {
    const port: SerialPort
    var mem: Memory
    var frames: seq<seq<byte>>
    var acks: seq<seq<byte>>
    var plan: seq<seq<Move>>

    ghost function Snapshot(): World
      reads this, port
    {
      World(mem, frames, acks, plan, port.open, port.rx)
    }

    constructor (port: SerialPort, mem: Memory, plan: seq<seq<Move>>)
      ensures this.port == port
      ensures Snapshot() == World(mem, [], [], plan, port.open, port.rx)
    {
      this.port := port;
      this.mem, this.plan := mem, plan;
      frames, acks := [], [];
    }

    method Move(sent: seq<seq<byte>>)
      modifies this, port
      ensures Snapshot() == Act(old(Snapshot()).(frames := old(frames) + sent))
      ensures port.tx == old(port.tx)
    {
      var w := Act(World(mem, frames + sent, acks, plan, port.open, port.rx));
      mem, frames, acks, plan := w.mem, w.frames, w.acks, w.plan;
      port.open, port.rx := w.open, w.rx;
    }
  }

  /** CPacket.Send of a command, and the moves it sets off. */
  method SendCommand(packet: CPacket, line: Line, cmd: array<byte>, len: nat) returns (result: TResult)
    requires packet.Valid() && packet.port == line.port && cmd != packet.buf
    requires len <= cmd.Length && len < 0x1_0000
    modifies packet`length, packet`broken, packet.buf, packet.port, line
    ensures packet.Valid()
    ensures (result, line.Snapshot()) == Transmit(old(line.Snapshot()), old(cmd[..len]))
  {
    hide Act, Frame, Fits;
    var rlen;
    ghost var p := cmd[..len];
    var before := |packet.port.tx|;
    result, rlen := packet.SendHdlc(cmd, len);
    if result == EOK {
      var frame := packet.port.tx[before..];
      assert frame == Frame(p);
      line.Move([frame]);
    } else if result == EPACKETSEND {
      EmptyUnit(line.frames);
      line.Move([]);
    }
  }
}
