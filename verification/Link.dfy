/**
 The far end of the serial line: a device with memory, and a link that may lose, delay, repeat and
 reorder whole frames in either direction, insert idle noise, time out, fail, and be unplugged.
 Everything crosses the line as HDLC frames.
 */
module Link {
  import opened Bytes
  import opened Crc16
  import opened Hdlc
  import opened HdlcTheory
  import opened Seqs
  import opened Words

  // ------------------------------------------------------------------ the device

  const STREAM_WRITE_CMD: byte := 0x07
  const STREAM_WRITE_RSP: byte := 0x08
  const CMD_WRITE_32BIT: byte := 0x0F
  const CMD_ACK: byte := 0x02
  const CMD_NAK: byte := 0x03

  type Memory = map<nat, byte>

  function WriteMem(mem: Memory, addr: nat, data: seq<byte>): Memory {
    if data == [] then mem
    else
      var n := |data| - 1;
      WriteMem(mem, addr, data[..n])[addr + n := data[n]]
  }

  /** A store writes its bytes and nothing else. */
  lemma {:induction false} WriteMemAt(mem: Memory, addr: nat, data: seq<byte>, i: nat)
    ensures addr <= i < addr + |data| ==> i in WriteMem(mem, addr, data) && WriteMem(mem, addr, data)[i] == data[i - addr]
    ensures !(addr <= i < addr + |data|) ==>
              (i in WriteMem(mem, addr, data) <==> i in mem) && (i in mem ==> WriteMem(mem, addr, data)[i] == mem[i])
    decreases |data|
  {
    if data != [] {
      WriteMemAt(mem, addr, data[..|data| - 1], i);
    }
  }

  /** A command that was understood: where it writes, what, and the acknowledgement it earns. */
  datatype Write = NoWrite | WriteTo(addr: nat, data: seq<byte>, ack: seq<byte>)

  function Understand(req: seq<byte>): Write {
    if |req| >= 5 && req[0] == STREAM_WRITE_CMD then
      WriteTo(FromLE32(req[1..5]), req[5..], [STREAM_WRITE_RSP] + req[1..5])
    else if |req| >= 7 && req[0] == CMD_WRITE_32BIT && |req| - 7 == 256 * FromByte(req[5]) + FromByte(req[6]) then
      WriteTo(FromBE32(req[1..5]), req[7..], [CMD_ACK])
    else NoWrite
  }

  // ------------------------------------------------------------------ the link

  /**
   A move of the adversary. Frames and acknowledgements are named by their number, so a lost one is
   one never named again and a repeated one is named twice.
   */
  datatype Move =
    | Deliver(frame: nat)
    | Reply(ack: nat, idle: Idle)
    | Say(payload: seq<byte>, idle: Idle)
    | Quiet(event: Rx)
    | Plug(open: bool)

  /** frames: everything sent; acks: everything the device ever answered to a write it carried out. */
  datatype World = World(
    mem: Memory, frames: seq<seq<byte>>, acks: seq<seq<byte>>,
    plan: seq<seq<Move>>, open: bool, rx: seq<Rx>)

  /** Put a framed payload on the line to the host. */
  function Put(w: World, payload: seq<byte>, idle: Idle): World {
    w.(rx := w.rx + Octets(idle.noise + Flags(idle.extra) + Frame(payload)))
  }

  /** A NAK whose third byte, as received, is zero: the boot protocol's code for no error. */
  predicate ZeroNak(payload: seq<byte>) {
    payload != [] && payload[0] == CMD_NAK && FromByte((payload + Fcs(payload))[2]) == 0
  }

  /** The device's own messages; it never claims a write it has not carried out. */
  predicate Foreign(payload: seq<byte>) {
    && payload != [] && Fits(1, payload)
    && payload[0] != STREAM_WRITE_RSP && payload[0] != CMD_ACK && !ZeroNak(payload)
  }

  /** The device reads a frame with the same receiver as the host. */
  function Decode(frame: seq<byte>): seq<byte> {
    var o := Hunt(Octets(frame));
    if o.result == EOK && |o.content| >= 2 then o.content[..|o.content| - 2] else []
  }

  function Carry(w: World, write: Write): World {
    match write
    case NoWrite => w
    case WriteTo(addr, data, ack) => w.(mem := WriteMem(w.mem, addr, data), acks := w.acks + [ack])
  }

  function Apply(w: World, m: Move): World {
    match m
    case Deliver(i) => if i < |w.frames| then Carry(w, Understand(Decode(w.frames[i]))) else w
    case Reply(j, idle) => if j < |w.acks| && FlagFree(idle.noise) then Put(w, w.acks[j], idle) else w
    case Say(payload, idle) => if Foreign(payload) && FlagFree(idle.noise) then Put(w, payload, idle) else w
    case Quiet(event) => if event.Octet? then w else w.(rx := w.rx + [event])
    case Plug(open) => w.(open := open)
  }

  function ApplyAll(w: World, moves: seq<Move>): World {
    if moves == [] then w else Apply(ApplyAll(w, moves[..|moves| - 1]), moves[|moves| - 1])
  }

  /** The moves between one write and the read that follows it. */
  function Act(w: World): World {
    if w.plan == [] then w else ApplyAll(w.(plan := w.plan[1..]), w.plan[0])
  }

  // ------------------------------------------------------------------ the host's two operations

  /** CPacket.Send of a command, and the moves it sets off. */
  function Transmit(w: World, p: seq<byte>): (TResult, World) {
    if p == [] then (EFAILED, w)
    else if !Fits(1, p) then (EPACKETBROKEN, w)
    else if !w.open then (EPACKETSEND, Act(w))
    else (EOK, Act(w.(frames := w.frames + [Frame(p)], rx := [])))
  }

  /** CPacket.Receive of a response. */
  function Listen(w: World): (Outcome, World) {
    if !w.open then (Outcome(EPORTRECEIVE, [], w.rx), w)
    else
      var o := Hunt(w.rx);
      (o, w.(rx := o.rest))
  }

  // ------------------------------------------------------------------ what the host can hear

  /** A line to the host: frames with idle bytes before them, and read failures. */
  datatype Item = FrameItem(payload: seq<byte>, idle: Idle) | EventItem(event: Rx)

  function ItemRx(i: Item): seq<Rx> {
    match i
    case FrameItem(p, idle) => Octets(idle.noise + Flags(idle.extra) + Frame(p))
    case EventItem(e) => [e]
  }

  function Flatten(items: seq<Item>): seq<Rx> {
    if items == [] then [] else Flatten(items[..|items| - 1]) + ItemRx(items[|items| - 1])
  }

  /** Nothing but answers the device gave, in [from..], and messages of its own. */
  predicate Genuine(w: World, from: nat, i: Item) {
    match i
    case FrameItem(p, idle) =>
      FlagFree(idle.noise) && p != [] && Fits(1, p) && (Foreign(p) || (exists j :: from <= j < |w.acks| && w.acks[j] == p))
    case EventItem(e) => !e.Octet?
  }

  predicate GenuineLine(w: World, from: nat, items: seq<Item>) {
    w.rx == Flatten(items) && forall k :: 0 <= k < |items| ==> Genuine(w, from, items[k])
  }

  /** Everything the device answers is short enough to be framed. */
  predicate AcksFit(w: World) {
    forall j :: 0 <= j < |w.acks| ==> w.acks[j] != [] && Fits(1, w.acks[j])
  }

  lemma FlattenSnoc(items: seq<Item>, i: Item)
    ensures Flatten(items + [i]) == Flatten(items) + ItemRx(i)
  {
    assert (items + [i])[..|items|] == items;
  }

  lemma {:induction false} FlattenHead(items: seq<Item>)
    requires items != []
    ensures Flatten(items) == ItemRx(items[0]) + Flatten(items[1..])
  {
    hide ItemRx;
    var n := |items| - 1;
    if n == 0 {
      assert items[..0] == [] && items[1..] == [];
    } else {
      FlattenHead(items[..n]);
      assert items[..n][1..] == items[1..][..n - 1];
      Assoc(ItemRx(items[0]), Flatten(items[1..][..n - 1]), ItemRx(items[n]));
    }
  }

  lemma SmallFits(p: seq<byte>)
    requires |p| <= 1031
    ensures Fits(1, p)
  {
    hide Fcs;
  }

  lemma AckOfWrite(req: seq<byte>)
    requires Understand(req).WriteTo?
    ensures var ack := Understand(req).ack; 0 < |ack| <= 5 && Fits(1, ack)
  {
    SmallFits(Understand(req).ack);
  }

  lemma ApplyGenuine(w: World, from: nat, items: seq<Item>, m: Move) returns (items': seq<Item>)
    requires GenuineLine(w, from, items) && AcksFit(w)
    requires m.Reply? ==> m.ack >= from
    ensures GenuineLine(Apply(w, m), from, items') && AcksFit(Apply(w, m))
    ensures |w.acks| <= |Apply(w, m).acks|
  {
    hide Understand, Decode, Fits, Frame, ItemRx, Flatten;
    items' := items;
    match m
    case Deliver(i) =>
      if i < |w.frames| && Understand(Decode(w.frames[i])).WriteTo? {
        AckOfWrite(Decode(w.frames[i]));
      }
      forall k | 0 <= k < |items|
        ensures Genuine(Apply(w, m), from, items[k])
      {
        GenuineKept(w, Apply(w, m), from, items[k]);
      }
    case Reply(j, idle) =>
      if j < |w.acks| && FlagFree(idle.noise) {
        var it := FrameItem(w.acks[j], idle);
        items' := items + [it];
        FlattenSnoc(items, it);
        FrameItemIs(w.acks[j], idle);
        assert Genuine(Apply(w, m), from, it);
      }
    case Say(payload, idle) =>
      if Foreign(payload) && FlagFree(idle.noise) {
        var it := FrameItem(payload, idle);
        items' := items + [it];
        FlattenSnoc(items, it);
        FrameItemIs(payload, idle);
      }
    case Quiet(event) =>
      if !event.Octet? {
        var it := EventItem(event);
        items' := items + [it];
        FlattenSnoc(items, it);
        EventItemIs(event);
      }
    case Plug(open) =>
  }

  lemma FrameItemIs(p: seq<byte>, idle: Idle)
    ensures ItemRx(FrameItem(p, idle)) == Octets(idle.noise + Flags(idle.extra) + Frame(p))
  {
    hide Frame;
  }

  lemma EventItemIs(e: Rx)
    ensures ItemRx(EventItem(e)) == [e]
  {
  }

  lemma GenuineKept(w: World, w': World, from: nat, i: Item)
    requires Genuine(w, from, i) && w.acks <= w'.acks
    ensures Genuine(w', from, i)
  {
    if i.FrameItem? && !Foreign(i.payload) {
      var j :| from <= j < |w.acks| && w.acks[j] == i.payload;
      assert w'.acks[j] == i.payload;
    }
  }

  /** No reply in a sequence of moves repeats an answer older than number from. */
  predicate RepliesFrom(moves: seq<Move>, from: nat) {
    forall m :: m in moves ==> m.Reply? ==> m.ack >= from
  }

  lemma {:induction false} ApplyAllGenuine(w: World, from: nat, moves: seq<Move>) returns (items: seq<Item>)
    requires w.rx == [] && AcksFit(w) && RepliesFrom(moves, from)
    ensures GenuineLine(ApplyAll(w, moves), from, items) && AcksFit(ApplyAll(w, moves))
    decreases |moves|
  {
    hide Apply, Genuine;
    if moves == [] {
      items := [];
    } else {
      var n := |moves| - 1;
      assert moves[n] in moves;
      items := ApplyAllGenuine(w, from, moves[..n]);
      items := ApplyGenuine(ApplyAll(w, moves[..n]), from, items, moves[n]);
    }
  }

  /** After a transmission the host hears a genuine answer, a message of the device, or nothing. */
  lemma Heard(w: World, p: seq<byte>, from: nat)
    requires AcksFit(w) && (w.plan != [] ==> RepliesFrom(w.plan[0], from))
    requires Transmit(w, p).0 == EOK
    ensures var w1 := Transmit(w, p).1;
            var o := Listen(w1).0;
            && AcksFit(w1)
            && (o.result == EOK ==>
                  exists q :: o.content == q + Fcs(q) && q != []
                              && (Foreign(q) || exists j :: from <= j < |w1.acks| && w1.acks[j] == q))
  {
    hide Hunt, Frame, Fits, Apply, Fcs;
    var w0 := w.(frames := w.frames + [Frame(p)], rx := []);
    var w1 := Transmit(w, p).1;
    var moves := if w.plan == [] then [] else w.plan[0];
    var items := ApplyAllGenuine(if w.plan == [] then w0 else w0.(plan := w.plan[1..]), from, moves);
    assert GenuineLine(w1, from, items);
    if w1.open {
      HeardFirst(w1, from, items);
    }
  }

  lemma HeardFirst(w: World, from: nat, items: seq<Item>)
    requires GenuineLine(w, from, items)
    ensures var o := Hunt(w.rx);
            o.result == EOK ==>
              exists q :: o.content == q + Fcs(q) && q != []
                          && (Foreign(q) || exists j :: from <= j < |w.acks| && w.acks[j] == q)
  {
    if items != [] {
      FlattenHead(items);
      hide Flatten, Fits, Fcs, Frame;
      assert Genuine(w, from, items[0]);
      match items[0]
      case EventItem(e) => assert w.rx[0] == e;
      case FrameItem(q, idle) => FrameReceived(idle.noise, idle.extra, q, 1, Flatten(items[1..]));
    }
  }

  /** The device understands exactly the payload of a frame the host built. */
  lemma DecodeFrame(p: seq<byte>)
    requires p != [] && Fits(1, p)
    ensures Decode(Frame(p)) == p
  {
    hide Fits, Fcs, Frame, Hunt;
    FrameReceived([], 0, p, 1, []);
    assert [] + Flags(0) + Frame(p) == Frame(p);
    EmptyUnit(Octets(Frame(p)));
    Skip(p, Fcs(p));
  }
}
