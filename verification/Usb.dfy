/**
 The bulk endpoints behind a usb_handle, and what usb_write and usb_read of src/usb_windows.cpp make of
 endpoint calls that move fewer bytes than asked, time out or fail.
 */
module Usb {
  import opened Bytes
  import opened Seqs

  /** What one endpoint call does: move up to n bytes, time out, or fail. */
  datatype Transfer = Moved(n: nat) | TimedOut | Failed(invalidHandle: bool)

  /**
   The handle's pipes, the octets on both wires, the outcome of every endpoint call to come, and behind how many
   octets sent a zero-length packet went out.
   */
  datatype Pipe = Pipe(connected: bool, incoming: seq<byte>, sent: seq<byte>, plan: seq<Transfer>, ends: seq<nat>)

  /** No call moves more than this. */
  const MAX_TRANSFER: nat := 4096

  function Min(a: nat, b: nat): nat {
    if a <= b then a else b
  }

  /** ERROR_INVALID_HANDLE kicks the handle, which closes both pipes. */
  function Lost(p: Pipe, invalidHandle: bool): Pipe {
    p.(connected := p.connected && !invalidHandle)
  }

  /** A zero-length packet ends a transfer that fills its last packet. */
  predicate NeedsZero(mask: bv32, count: nat)
    requires count < 0x1_0000_0000
  {
    mask != 0 && (count as bv32) & mask == 0
  }

  function SendZero(p: Pipe, mask: bv32, count: nat): Pipe
    requires count < 0x1_0000_0000
  {
    if NeedsZero(mask, count) && p.connected && p.plan != [] then
      p.(plan := p.plan[1..], ends := if p.plan[0].Moved? then p.ends + [|p.sent|] else p.ends)
    else p
  }

  /** usb_write once count bytes are written and data is left. */
  function WriteRest(p: Pipe, mask: bv32, data: seq<byte>, count: nat): (int, Pipe)
    requires 0 < |data| && count + |data| < 0x1_0000_0000
    decreases |p.plan|
  {
    if !p.connected || p.plan == [] then (-1, p)
    else
      var p1 := p.(plan := p.plan[1..]);
      match p.plan[0]
      case Moved(n) =>
        var k := Min(n, Min(|data|, MAX_TRANSFER));
        var p2 := p1.(sent := p1.sent + data[..k]);
        if k == |data| then (count + k, SendZero(p2, mask, count + k))
        else WriteRest(p2, mask, data[k..], count + k)
      case TimedOut => (-1, p1)
      case Failed(invalidHandle) => (-1, Lost(p1, invalidHandle))
  }

  /** The count returned, or -1; writing nothing at all is refused. */
  function Write(p: Pipe, mask: bv32, data: seq<byte>): (int, Pipe)
    requires |data| < 0x8000_0000
  {
    if data == [] then (-1, p) else WriteRest(p, mask, data, 0)
  }

  /** usb_read, filling the buffer, with len bytes to go: success, the bytes stored, and the pipes. */
  function ReadRest(p: Pipe, len: nat): (bool, seq<byte>, Pipe)
    requires 0 < len
    decreases |p.plan|
  {
    if !p.connected || p.plan == [] then (false, [], p)
    else
      var p1 := p.(plan := p.plan[1..]);
      match p.plan[0]
      case Moved(n) =>
        var k := Min(Min(n, |p.incoming|), Min(len, MAX_TRANSFER));
        var p2 := p1.(incoming := p1.incoming[k..]);
        if k == len then (true, p.incoming[..k], p2)
        else
          var (ok, more, p3) := ReadRest(p2, len - k);
          (ok, p.incoming[..k] + more, p3)
      case TimedOut => ReadRest(p1, len)
      case Failed(invalidHandle) => (false, [], Lost(p1, invalidHandle))
  }

  function Read(p: Pipe, len: nat): (bool, seq<byte>, Pipe) {
    if len == 0 then (false, [], p) else ReadRest(p, len)
  }

  /** usb_read for whatever one transfer brings: the count or -1, the bytes stored, and the pipes. */
  function ReadOnce(p: Pipe, len: nat): (int, seq<byte>, Pipe)
    decreases |p.plan|
  {
    if len == 0 || !p.connected || p.plan == [] then (-1, [], p)
    else
      var p1 := p.(plan := p.plan[1..]);
      match p.plan[0]
      case Moved(n) =>
        var k := Min(Min(n, |p.incoming|), Min(len, MAX_TRANSFER));
        (k, p.incoming[..k], p1.(incoming := p1.incoming[k..]))
      case TimedOut => ReadOnce(p1, len)
      case Failed(invalidHandle) => (-1, [], Lost(p1, invalidHandle))
  }

  /** One transfer takes a prefix of what is on the wire, and the count says how long it is. */
  lemma {:induction false} ReadOnceExact(p: Pipe, len: nat)
    ensures var (r, got, p') := ReadOnce(p, len);
            && got + p'.incoming == p.incoming && p'.sent == p.sent
            && |got| <= Min(len, MAX_TRANSFER) && (r == |got| || (r == -1 && got == []))
    decreases |p.plan|
  {
    if len > 0 && p.connected && p.plan != [] {
      if p.plan[0].Moved? {
        Split(p.incoming, Min(Min(p.plan[0].n, |p.incoming|), Min(len, MAX_TRANSFER)));
      } else if p.plan[0].TimedOut? {
        ReadOnceExact(p.(plan := p.plan[1..]), len);
      }
    }
  }

  /** However the transfer is cut up, a write that reports success put exactly the data on the wire. */
  lemma {:induction false} WriteRestExact(p: Pipe, mask: bv32, data: seq<byte>, count: nat)
    requires 0 < |data| && count + |data| < 0x1_0000_0000
    ensures var (r, p') := WriteRest(p, mask, data, count);
            && p'.incoming == p.incoming
            && (r == -1 || r == count + |data|)
            && p.sent <= p'.sent <= p.sent + data
            && (r != -1 ==> p'.sent == p.sent + data)
    decreases |p.plan|
  {
    hide NeedsZero;
    if p.connected && p.plan != [] && p.plan[0].Moved? {
      var k := Min(p.plan[0].n, Min(|data|, MAX_TRANSFER));
      var p2 := p.(plan := p.plan[1..], sent := p.sent + data[..k]);
      Split(data, k);
      Assoc(p.sent, data[..k], data[k..]);
      if k == |data| {
        TakeAll(data);
      } else {
        WriteRestExact(p2, mask, data[k..], count + k);
      }
    }
  }

  /** A write fails exactly if something is missing on the wire. */
  lemma {:induction false} WriteRestShort(p: Pipe, mask: bv32, data: seq<byte>, count: nat)
    requires 0 < |data| && count + |data| < 0x1_0000_0000
    ensures var (r, p') := WriteRest(p, mask, data, count);
            && |p'.sent| <= |p.sent| + |data|
            && (r == -1 <==> |p'.sent| < |p.sent| + |data|)
    decreases |p.plan|
  {
    hide NeedsZero;
    if p.connected && p.plan != [] && p.plan[0].Moved? {
      var k := Min(p.plan[0].n, Min(|data|, MAX_TRANSFER));
      if k < |data| {
        WriteRestShort(p.(plan := p.plan[1..], sent := p.sent + data[..k]), mask, data[k..], count + k);
      }
    }
  }

  lemma WriteExact(p: Pipe, mask: bv32, data: seq<byte>)
    requires |data| < 0x8000_0000
    ensures var (r, p') := Write(p, mask, data);
            && p'.incoming == p.incoming
            && (r == -1 || (r == |data| > 0))
            && p.sent <= p'.sent <= p.sent + data
            && (r != -1 ==> p'.sent == p.sent + data)
  {
    if data != [] {
      WriteRestExact(p, mask, data, 0);
    }
  }

  lemma {:induction false} WriteRestEnds(p: Pipe, mask: bv32, data: seq<byte>, count: nat)
    requires 0 < |data| && count + |data| < 0x1_0000_0000
    ensures var (r, p') := WriteRest(p, mask, data, count);
            && (r == -1 ==> p'.ends == p.ends)
            && (p'.ends == p.ends
                || (p'.ends == p.ends + [|p.sent| + |data|] && NeedsZero(mask, count + |data|)))
    decreases |p.plan|
  {
    hide NeedsZero;
    if p.connected && p.plan != [] && p.plan[0].Moved? {
      var k := Min(p.plan[0].n, Min(|data|, MAX_TRANSFER));
      if k < |data| {
        WriteRestEnds(p.(plan := p.plan[1..], sent := p.sent + data[..k]), mask, data[k..], count + k);
      }
    }
  }

  /** A zero-length packet goes out only behind a whole write that fills its last packet. */
  lemma EndsWhenFull(p: Pipe, mask: bv32, data: seq<byte>)
    requires |data| < 0x8000_0000
    ensures var (r, p') := Write(p, mask, data);
            && (r == -1 ==> p'.ends == p.ends)
            && (p'.ends == p.ends
                || (p'.ends == p.ends + [|p.sent| + |data|] && mask != 0 && (|data| as bv32) & mask == 0))
  {
    hide WriteRest;
    if data != [] {
      WriteRestEnds(p, mask, data, 0);
    }
  }

  /** And there it does go out, if the endpoint takes it. */
  lemma WriteEnds(p: Pipe, mask: bv32, data: seq<byte>)
    requires 0 < |data| <= MAX_TRANSFER && p.connected && |p.plan| >= 2
    requires p.plan[0].Moved? && p.plan[0].n >= |data| && p.plan[1].Moved?
    ensures var (r, p') := Write(p, mask, data);
            && r == |data|
            && p'.ends == p.ends + if mask != 0 && (|data| as bv32) & mask == 0 then [|p.sent| + |data|] else []
  {
    hide WriteRest;
    WholeWrite(p, mask, data);
    EmptyUnit(p.ends);
  }

  lemma WholeWrite(p: Pipe, mask: bv32, data: seq<byte>)
    requires 0 < |data| <= MAX_TRANSFER && p.connected && p.plan != [] && p.plan[0].Moved? && p.plan[0].n >= |data|
    ensures Write(p, mask, data) == (|data|, SendZero(p.(plan := p.plan[1..], sent := p.sent + data), mask, |data|))
  {
    hide SendZero;
    assert data[..|data|] == data;
  }

  /** A read delivers a prefix of what was on the wire, all it was asked for if it succeeds. */
  lemma {:induction false} ReadRestExact(p: Pipe, len: nat)
    requires 0 < len
    ensures var (ok, got, p') := ReadRest(p, len);
            && got + p'.incoming == p.incoming
            && p'.sent == p.sent
            && |got| <= len && (ok <==> |got| == len)
    decreases |p.plan|
  {
    if p.connected && p.plan != [] {
      var p1 := p.(plan := p.plan[1..]);
      if p.plan[0].Moved? {
        var k := Min(Min(p.plan[0].n, |p.incoming|), Min(len, MAX_TRANSFER));
        var p2 := p1.(incoming := p1.incoming[k..]);
        Split(p.incoming, k);
        if k < len {
          ReadRestExact(p2, len - k);
          var (_, more, p3) := ReadRest(p2, len - k);
          Assoc(p.incoming[..k], more, p3.incoming);
        }
      } else if p.plan[0].TimedOut? {
        ReadRestExact(p1, len);
      }
    }
  }

  lemma ReadExact(p: Pipe, len: nat)
    ensures var (ok, got, p') := Read(p, len);
            && got + p'.incoming == p.incoming
            && p'.sent == p.sent
            && |got| <= len && (ok <==> |got| == len > 0)
  {
    if len > 0 {
      ReadRestExact(p, len);
    }
  }

  /** A failed call ends a write or a read; if the handle was invalid, the pipes are closed from then on. */
  lemma FailureEnds(p: Pipe, mask: bv32, data: seq<byte>, len: nat, invalidHandle: bool)
    requires 0 < |data| < 0x8000_0000 && len > 0
    requires p.connected && p.plan != [] && p.plan[0] == Failed(invalidHandle)
    ensures var p' := p.(plan := p.plan[1..], connected := !invalidHandle);
            Write(p, mask, data) == (-1, p') && Read(p, len) == (false, [], p') && ReadOnce(p, len) == (-1, [], p')
  {
  }

  /** Through closed pipes nothing moves. */
  lemma ClosedForGood(p: Pipe, mask: bv32, data: seq<byte>, len: nat)
    requires |data| < 0x8000_0000 && !p.connected
    ensures Write(p, mask, data) == (-1, p) && Read(p, len) == (false, [], p) && ReadOnce(p, len) == (-1, [], p)
  {
  }

  /** Reads wait through any number of time-outs; a write fails at the first. */
  lemma {:induction false} TimeoutsRetried(p: Pipe, mask: bv32, data: seq<byte>, len: nat, k: nat)
    requires 0 < |data| < 0x8000_0000 && len > 0 && p.connected && k <= |p.plan| && forall i :: 0 <= i < k ==> p.plan[i] == TimedOut
    ensures var p' := p.(plan := p.plan[k..]); Read(p, len) == Read(p', len) && ReadOnce(p, len) == ReadOnce(p', len)
    ensures k > 0 ==> Write(p, mask, data) == (-1, p.(plan := p.plan[1..]))
    decreases k
  {
    if k == 0 {
      assert p.plan[0..] == p.plan;
    } else {
      TimeoutsRetried(p.(plan := p.plan[1..]), mask, data, len, k - 1);
      assert p.plan[1..][k - 1..] == p.plan[k..];
    }
  }

  /** How many calls move something before the first failure. */
  function Useful(plan: seq<Transfer>): nat {
    if plan == [] || plan[0].Failed? then 0
    else (if plan[0].Moved? && plan[0].n > 0 then 1 else 0) + Useful(plan[1..])
  }

  /** Time-outs and short transfers cannot stop a read: it completes if the octets and enough useful calls come. */
  lemma {:induction false} ReadCompletes(p: Pipe, len: nat)
    requires p.connected && 0 < len <= |p.incoming| && len <= Useful(p.plan)
    ensures ReadRest(p, len).0
    decreases |p.plan|
  {
    var p1 := p.(plan := p.plan[1..]);
    if p.plan[0].Moved? {
      var k := Min(Min(p.plan[0].n, |p.incoming|), Min(len, MAX_TRANSFER));
      if k < len {
        ReadCompletes(p1.(incoming := p1.incoming[k..]), len - k);
      }
    } else {
      ReadCompletes(p1, len);
    }
  }
}
