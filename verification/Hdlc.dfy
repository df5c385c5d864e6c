/**
 Async-HDLC framing as src/pkt.cpp does it, on byte sequences: byte stuffing, frames, and the
 receiver as a function from the events of a serial port to its result.
 */
module Hdlc {
  import opened Bytes
  import opened Crc16

  const FLAG: byte := 0x7e
  const ESC: byte := 0x7d
  const ESC_MASK: byte := 0x20
  const MAX_PACKET_LEN: nat := 4096
  const MIN_PACKET_LEN: nat := 3
  const ROOM_FOR_CRC: nat := 4
  const ROOM_FOR_FLAG: nat := 1

  // ------------------------------------------------------------------ the wire format

  /** Escaping and un-escaping are the same operation. */
  function Mask(b: byte): byte {
    b ^ ESC_MASK
  }

  predicate Special(b: byte) {
    b == FLAG || b == ESC
  }

  function StuffByte(b: byte): (s: seq<byte>)
    ensures 1 <= |s| <= 2
  {
    if Special(b) then [ESC, Mask(b)] else [b]
  }

  function Stuff(s: seq<byte>): (t: seq<byte>)
    ensures |s| <= |t| <= 2 * |s|
  {
    if s == [] then [] else Stuff(s[..|s| - 1]) + StuffByte(s[|s| - 1])
  }

  /** What goes between the flags for a payload. */
  function Body(p: seq<byte>): seq<byte> {
    Stuff(p + Fcs(p))
  }

  function Frame(p: seq<byte>): seq<byte> {
    [FLAG] + Body(p) + [FLAG]
  }

  /** DIAG frames carry no leading flag. */
  function DiagFrame(p: seq<byte>): seq<byte> {
    Body(p) + [FLAG]
  }

  /** The sender's bound, for a buffer that starts out holding start bytes. */
  predicate Fits(start: nat, p: seq<byte>) {
    start + |Body(p)| + ROOM_FOR_CRC + ROOM_FOR_FLAG < MAX_PACKET_LEN
  }

  // ------------------------------------------------------------------ the receiver

  /** One attempt to read a byte from the port: it arrives, or nothing comes, or the read fails. */
  datatype Rx = Octet(b: byte) | Timeout | Fault

  datatype Outcome = Outcome(result: TResult, content: seq<byte>, rest: seq<Rx>)

  function Octets(s: seq<byte>): (ev: seq<Rx>)
    ensures |ev| == |s|
    ensures forall i :: 0 <= i < |s| ==> ev[i] == Octet(s[i])
  {
    seq(|s|, i requires 0 <= i < |s| => Octet(s[i]))
  }

  /** The test made when the closing flag arrives. */
  function Verdict(got: seq<byte>): TResult {
    if |got| < MIN_PACKET_LEN then EPACKETRECEIVETOOSHORT
    else if Run(SEED, got) != OK_NEG then EPACKETRECEIVECRC
    else EOK
  }

  /** HDLC_HUNT_FOR_FLAG */
  function Hunt(ev: seq<Rx>): Outcome
    decreases |ev|, 2
  {
    if ev == [] then Outcome(EPORTRECEIVE, [], [])
    else if !ev[0].Octet? then Outcome(EPORTRECEIVE, [], ev[1..])
    else if ev[0].b == FLAG then GotFlag(ev[1..])
    else Hunt(ev[1..])
  }

  /** HDLC_GOT_FLAG: the first byte that is not a flag begins the packet. */
  function GotFlag(ev: seq<Rx>): Outcome
    decreases |ev|, 1
  {
    if ev == [] then Outcome(EPORTRECEIVE, [], [])
    else if !ev[0].Octet? then Outcome(EPORTRECEIVE, [], ev[1..])
    else if ev[0].b == FLAG then GotFlag(ev[1..])
    else Gather([], ev)
  }

  /** HDLC_GATHER: got is what the buffer holds so far. */
  function Gather(got: seq<byte>, ev: seq<Rx>): Outcome
    decreases |ev|, 0
  {
    if ev == [] then Outcome(EPORTRECEIVE, got, [])
    else if !ev[0].Octet? then Outcome(EPORTRECEIVE, got, ev[1..])
    else if ev[0].b == FLAG then Outcome(Verdict(got), got, ev[1..])
    else if ev[0].b == ESC then
      if |ev| == 1 then Outcome(EPORTRECEIVE, got, [])
      else if !ev[1].Octet? then Outcome(EPORTRECEIVE, got, ev[2..])
      else Store(got, Mask(ev[1].b), ev[2..])
    else Store(got, ev[0].b, ev[1..])
  }

  function Store(got: seq<byte>, c: byte, ev: seq<Rx>): Outcome
    decreases |ev|, 1
  {
    if |got| >= MAX_PACKET_LEN then Outcome(EPACKETRECEIVETOOLARGE, got, ev)
    else Gather(got + [c], ev)
  }

  /** RcvDIAGPkt: no hunting and no check of the FCS; the closing flag is part of the result. */
  function GatherDiag(got: seq<byte>, ev: seq<Rx>): Outcome
    decreases |ev|
  {
    if ev == [] || ev[0].Timeout? then Outcome(EOK, got, if ev == [] then [] else ev[1..])
    else if ev[0].Fault? then Outcome(EPORTRECEIVE, got, ev[1..])
    else if ev[0].b == FLAG then Outcome(EOK, got + [FLAG], ev[1..])
    else if ev[0].b == ESC then
      if |ev| == 1 || ev[1].Timeout? then Outcome(EOK, got, if |ev| == 1 then [] else ev[2..])
      else if ev[1].Fault? then Outcome(EPORTRECEIVE, got, ev[2..])
      else if |got| >= MAX_PACKET_LEN then Outcome(EPACKETRECEIVETOOLARGE, got, ev[2..])
      else GatherDiag(got + [Mask(ev[1].b)], ev[2..])
    else if |got| >= MAX_PACKET_LEN then Outcome(EPACKETRECEIVETOOLARGE, got, ev[1..])
    else GatherDiag(got + [ev[0].b], ev[1..])
  }
}
