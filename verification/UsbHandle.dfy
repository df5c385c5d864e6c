/**
 usb_write and usb_read of src/usb_windows.cpp, and the packets of src/transport_usb.cpp over them, in place.
 */
module UsbHandle {
  import opened Bytes
  import opened Seqs
  import opened Usb
  import opened UsbPacket
  import opened Words

  class UsbHandle {
    var connected: bool
    var incoming: seq<byte>
    var sent: seq<byte>
    var plan: seq<Transfer>
    var ends: seq<nat>
    const zeroMask: bv32

    constructor (pipe: Pipe, zeroMask: bv32)
      ensures Snapshot() == pipe && this.zeroMask == zeroMask
    {
      connected, incoming, sent, plan, ends := pipe.connected, pipe.incoming, pipe.sent, pipe.plan, pipe.ends;
      this.zeroMask := zeroMask;
    }

    ghost function Snapshot(): Pipe
      reads this
    {
      Pipe(connected, incoming, sent, plan, ends)
    }

    /** AdbWriteEndpointSync: false on failure, with the reason. */
    method WriteEndpoint(data: array<byte>, from: nat, xfer: nat) returns (ok: bool, written: nat, invalidHandle: bool)
      requires from + xfer <= data.Length
      modifies this`sent, this`plan
      ensures !connected || old(plan) == [] ==> !ok && sent == old(sent) && plan == old(plan)
      ensures invalidHandle ==> !ok && (connected ==> old(plan) != [])
      ensures connected && old(plan) != [] ==>
                && plan == old(plan)[1..]
                && match old(plan)[0] {
                  case Moved(n) => ok && written == Min(n, xfer) && sent == old(sent) + data[from..from + written]
                  case TimedOut => !ok && !invalidHandle && sent == old(sent)
                  case Failed(invalid) => !ok && invalidHandle == invalid && sent == old(sent)
                }
    {
      ok, written, invalidHandle := false, 0, false;
      if !connected {
        invalidHandle := true;
      } else if plan != [] {
        match plan[0] {
          case Moved(n) =>
            ok, written := true, Min(n, xfer);
            sent := sent + data[from..from + written];
          case TimedOut =>
          case Failed(invalid) => invalidHandle := invalid;
        }
        plan := plan[1..];
      }
    }

    /** AdbReadEndpointSync */
    method ReadEndpoint(data: array<byte>, from: nat, xfer: nat) returns (ok: bool, read: nat, timedOut: bool, invalidHandle: bool)
      requires from + xfer <= data.Length
      modifies data, this`incoming, this`plan
      ensures data[..from] == old(data[..from])
      ensures !connected || old(plan) == [] ==> !ok && !timedOut && incoming == old(incoming) && plan == old(plan)
      ensures !ok ==> data[..] == old(data[..])
      ensures invalidHandle ==> !ok && (connected ==> old(plan) != [])
      ensures connected && old(plan) != [] ==>
                && plan == old(plan)[1..]
                && match old(plan)[0] {
                  case Moved(n) =>
                    && ok && read == Min(Min(n, |old(incoming)|), xfer)
                    && incoming == old(incoming)[read..]
                    && data[from..from + read] == old(incoming)[..read]
                    && data[from + read..] == old(data[from + read..])
                  case TimedOut => !ok && timedOut && !invalidHandle && incoming == old(incoming)
                  case Failed(invalid) => !ok && !timedOut && invalidHandle == invalid && incoming == old(incoming)
                }
    {
      ok, read, timedOut, invalidHandle := false, 0, false, false;
      if !connected {
        invalidHandle := true;
      } else if plan != [] {
        match plan[0] {
          case Moved(n) =>
            ok, read := true, Min(Min(n, |incoming|), xfer);
            forall i | 0 <= i < read {
              data[from + i] := incoming[i];
            }
            incoming := incoming[read..];
          case TimedOut => timedOut := true;
          case Failed(invalid) => invalidHandle := invalid;
        }
        plan := plan[1..];
      }
    }

    /** usb_kick, as far as the pipes go. */
    method Kick()
      modifies this`connected
      ensures !connected
    {
      connected := false;
    }

    /** The zero-length packet after a transfer that filled its last packet; its outcome is not looked at. */
    method EndTransfer(count: nat)
      requires count < TWO32
      modifies this`plan, this`ends
      ensures Snapshot() == SendZero(old(Snapshot()), zeroMask, count)
    {
      if NeedsZero(zeroMask, count) && connected && plan != [] {
        if plan[0].Moved? {
          ends := ends + [|sent|];
        }
        plan := plan[1..];
      }
    }

    /** One turn of the loop in usb_write: the octets moved, or -1. */
    method WriteSome(data: array<byte>, from: nat, len: nat, ghost count: nat) returns (written: int)
      requires 0 < len && from + len <= data.Length && count + len < TWO32
      modifies this
      ensures plan == [] || |plan| <= |old(plan)|
      ensures -1 <= written <= len
      ensures written >= 0 ==> |plan| < |old(plan)|
      ensures WriteRest(old(Snapshot()), zeroMask, data[from..from + len], count) ==
              if written == -1 then (-1, Snapshot())
              else if written == len then (count + len, SendZero(Snapshot(), zeroMask, count + len))
              else WriteRest(Snapshot(), zeroMask, data[from + written..from + len], count + written)
    {
      hide NeedsZero, SendZero;
      ghost var rest := data[from..from + len];
      var xfer := if len > MAX_TRANSFER then MAX_TRANSFER else len;
      var ok, moved, invalidHandle := WriteEndpoint(data, from, xfer);
      if !ok {
        if invalidHandle {
          Kick();
        }
        return -1;
      }
      written := moved;
      assert rest[..moved] == data[from..from + moved] && rest[moved..] == data[from + moved..from + len];
    }

    /** usb_write */
    method Write(data: array<byte>, len0: nat) returns (result: int)
      requires len0 <= data.Length && len0 < 0x8000_0000
      modifies this
      ensures (result, Snapshot()) == Usb.Write(old(Snapshot()), zeroMask, data[..len0])
    {
      hide WriteRest, SendZero;
      var len, from, count := len0, 0, 0;
      while len > 0
        invariant 0 <= len && from + len == len0 && count == from && (len0 > 0 ==> len > 0)
        invariant len0 > 0 ==>
                    WriteRest(old(Snapshot()), zeroMask, data[..len0], 0) == WriteRest(Snapshot(), zeroMask, data[from..from + len], count)
        invariant len0 == 0 ==> Snapshot() == old(Snapshot())
        decreases |plan|
      {
        var written := WriteSome(data, from, len, count);
        if written == -1 {
          return -1;
        }
        count := count + written;
        len := len - written;
        from := from + written;
        if len == 0 {
          EndTransfer(count);
          return count;
        }
      }
      result := -1;
    }

    /** usb_read that returns after one transfer; a time-out is retried. */
    method ReadOnce(data: array<byte>, len: nat) returns (result: int)
      requires len <= data.Length
      modifies this, data
      ensures var (r, got, p) := Usb.ReadOnce(old(Snapshot()), len);
              && result == r && Snapshot() == p && |got| <= data.Length
              && data[..] == Overwrite(got, old(data[..]))
    {
      hide Overwrite;
      ghost var buf := data[..];
      FrontOverwritten(buf, [], buf);
      while len > 0
        invariant data[..] == buf && Usb.ReadOnce(old(Snapshot()), len) == Usb.ReadOnce(Snapshot(), len)
        decreases |plan|
      {
        ghost var p := Snapshot();
        var xfer := if len > MAX_TRANSFER then MAX_TRANSFER else len;
        var ok, read, timedOut, invalidHandle := ReadEndpoint(data, 0, xfer);
        if ok {
          FrontOverwritten(data[..], p.incoming[..read], buf);
          return read;
        } else if !timedOut {
          if invalidHandle {
            Kick();
          }
          return -1;
        }
      }
      result := -1;
    }

    /** One turn of the loop in usb_read: the octets read, none after a time-out, or -1. */
    method ReadSome(data: array<byte>, from: nat, len: nat) returns (read: int)
      requires 0 < len && from + len <= data.Length
      modifies this, data
      ensures -1 <= read <= len && sent == old(sent)
      ensures read >= 0 ==> |plan| < |old(plan)|
      ensures data[..from] == old(data[..from])
      ensures var k := if read == -1 then 0 else read; data[from + k..] == old(data[from + k..])
      ensures ReadRest(old(Snapshot()), len) ==
              if read == -1 then (false, [], Snapshot())
              else if read == len then (true, data[from..from + len], Snapshot())
              else Prepend(data[from..from + read], ReadRest(Snapshot(), len - read))
    {
      ghost var p := Snapshot();
      var xfer := if len > MAX_TRANSFER then MAX_TRANSFER else len;
      var ok, moved, timedOut, invalidHandle := ReadEndpoint(data, from, xfer);
      if ok {
        read := moved;
      } else if timedOut {
        read := 0;
        EmptyUnit(ReadRest(Snapshot(), len).1);
        assert data[from..from] == [];
      } else {
        if invalidHandle {
          Kick();
        }
        read := -1;
      }
    }

    /** usb_read, which fills the buffer or fails; a time-out is retried. */
    method Read(data: array<byte>, len0: nat) returns (ok: bool)
      requires len0 <= data.Length
      modifies this, data
      ensures (ok, data[..], Snapshot()) == ReadInto(old(Snapshot()), old(data[..]), len0)
    {
      hide ReadRest, Prepend;
      ghost var buf := data[..];
      ghost var p := Snapshot();
      var len, from := len0, 0;
      Untouched(p, len0, buf);
      while len > 0
        invariant 0 <= len && from + len == len0 && (len0 > 0 ==> len > 0)
        invariant data[from..] == buf[from..]
        invariant len0 > 0 ==> ReadRest(p, len0) == Prepend(data[..from], ReadRest(Snapshot(), len))
        invariant len0 == 0 ==> Snapshot() == p && data[..] == buf
        decreases |plan|
      {
        ghost var before := data[..from];
        ghost var r := ReadRest(Snapshot(), len);
        var read := ReadSome(data, from, len);
        if read == -1 {
          Stopped(r, before, data[..], buf);
          return false;
        }
        Taken(data[..], before, data[from..from + read], buf);
        if read == len {
          Filled(r, before);
          return true;
        }
        PrependTwice(before, data[from..from + read], ReadRest(Snapshot(), len - read));
        from := from + read;
        len := len - read;
      }
      ok := false;
    }
  }

  lemma Untouched(p: Pipe, len: nat, buf: seq<byte>)
    requires len <= |buf|
    ensures len > 0 ==> ReadRest(p, len) == Prepend(buf[..0], ReadRest(p, len))
    ensures len == 0 ==> Overwrite([], buf) == buf
  {
    if len > 0 {
      EmptyUnit(ReadRest(p, len).1);
    }
  }

  lemma Stopped(r: (bool, seq<byte>, Pipe), before: seq<byte>, data: seq<byte>, buf: seq<byte>)
    requires r.1 == [] && |data| == |buf| && |before| <= |data|
    requires data[..|before|] == before && data[|before|..] == buf[|before|..]
    ensures Prepend(before, r) == (r.0, before, r.2) && data == Overwrite(before, buf)
  {
    EmptyUnit(before);
  }

  lemma FrontOverwritten(data: seq<byte>, got: seq<byte>, buf: seq<byte>)
    requires |data| == |buf| && |got| <= |data| && data[..|got|] == got && data[|got|..] == buf[|got|..]
    ensures data == Overwrite(got, buf)
  {
  }

  lemma Filled(r: (bool, seq<byte>, Pipe), before: seq<byte>)
    ensures Prepend(before, r) == (r.0, before + r.1, r.2)
  {
  }

  function Prepend(a: seq<byte>, r: (bool, seq<byte>, Pipe)): (bool, seq<byte>, Pipe) {
    (r.0, a + r.1, r.2)
  }

  lemma PrependTwice(a: seq<byte>, b: seq<byte>, r: (bool, seq<byte>, Pipe))
    ensures Prepend(a, Prepend(b, r)) == Prepend(a + b, r)
  {
    Assoc(a, b, r.1);
  }

  /** A buffer whose next part has just been filled. */
  lemma Taken(data: seq<byte>, before: seq<byte>, got: seq<byte>, buf: seq<byte>)
    requires |data| == |buf| && |before| + |got| <= |data|
    requires data[..|before|] == before && data[|before|..|before| + |got|] == got
    requires data[|before| + |got|..] == buf[|before| + |got|..]
    ensures data[..|before| + |got|] == before + got && data == Overwrite(before + got, buf)
  {
  }
}
