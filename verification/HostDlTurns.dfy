/**
 What every response of the device makes of the image download: which are resent, which end it, and with what
 result. A turn is read off the octets of the response alone.
 */
module HostDlTurns {
  import opened Bytes
  import opened Crc16
  import opened Hdlc
  import opened Seqs
  import opened Link
  import opened Words
  import opened HostDl

  /** What a response says to the host that has sent the chunk at addr. */
  datatype Reading = Taken | Retried(error: TResult) | Refused(result: TResult)

  /** The number a response carries where an acknowledgement has its address; most have none. */
  function Number(q: seq<byte>): nat
    requires q != []
  {
    if q[0] == CMD_LOG && Shown(q)[1..11] == CLOSE_FAILED then NAK_FAILED
    else if q[0] == PARTITION_TABLE_RSP then FromByte(Shown(q)[1])
    else 0
  }

  function ReadingOf(q: seq<byte>, addr: nat): Reading
    requires q != [] && addr < TWO32
  {
    if q[0] == STREAM_WRITE_RSP then if Shown(q)[1..5] == LE32(addr) then Taken else Refused(EFAILED)
    else if Complains(q) then Retried(if q[0] == ERROR_RSP then EFAILED else EDATACRC)
    else Refused(if Number(q) == addr then EDATARSP else EFAILED)
  }

  lemma ShownAddress(q: seq<byte>, addr: nat)
    requires q != [] && addr < TWO32
    ensures FromLE32(Padded(q + Fcs(q))[1..5]) == addr <==> Shown(q)[1..5] == LE32(addr)
  {
    hide FromLE32, LE32, Padded, Shown;
    PaddedShown(q, 1, 5);
    LE32Back(addr);
    if FromLE32(Shown(q)[1..5]) == addr {
      LE32Injective(Shown(q)[1..5], LE32(addr));
    }
  }

  /** A response that neither complains nor acknowledges a write passes for a success with some number. */
  lemma OtherResponse(q: seq<byte>)
    requires q != [] && q[0] != STREAM_WRITE_RSP && !Complains(q)
    ensures var ack := AckOf(Padded(q + Fcs(q)));
            && ack.result == EOK && ack.code != STREAM_WRITE_RSP && ack.err == Number(q)
            && CheckAckError(ack.code, ack.err) == EDATARSP
  {
    hide FromLE32, Padded, Shown;
    PaddedShown(q, 1, 5);
    PaddedShown(q, 1, 11);
    PaddedShown(q, 1, 2);
    var buf := Padded(q + Fcs(q));
    assert buf[1..2][0] == Shown(q)[1..2][0];
    assert CRC_INVALID[0] == 0x45 && CLOSE_FAILED[0] == 0x43;
  }

  /** The test at the end of a turn never asks for another one: what is sent again was sent again before it. */
  lemma ResendTestIdle(q: seq<byte>)
    requires q != []
    ensures var ack := AckOf(Padded(q + Fcs(q)));
            ack.result == EOK ==> !NeedResend(if ack.code != STREAM_WRITE_RSP then CheckAckError(ack.code, ack.err) else EOK)
  {
    hide FromLE32, Padded, Fcs;
  }

  /** One turn in which the device speaks. */
  lemma TurnRead(w: World, data: seq<byte>, addr: nat, n: nat, q: seq<byte>)
    requires w.open && Sound(w, data) && IsChunk(data, addr, n) && Aligned(data, addr, n)
    requires w.plan != [] && Speaks(w, w.plan[0], q)
    ensures q != [] && addr < TWO32
    ensures var req := Request(addr, data[addr..addr + n]);
            Attempt(w, req, addr).1 == Spoken(w, req) &&
            match ReadingOf(q, addr)
            case Taken => Attempt(w, req, addr).0 == Leave(EOK)
            case Retried(error) => Attempt(w, req, addr).0 == Again(error)
            case Refused(result) =>
              Attempt(w, req, addr).0 == (if result == EFAILED then GiveUp else Leave(result)) && result != EOK
  {
    hide Frame, Sound, Transmit, Listen, Fcs, Padded, Shown, FromLE32, LE32, Request, Complains, Number, Speaks;
    SpeaksHeard(w, data, addr, n, q);
    ChunkBounds(data, addr, n);
    if q[0] == STREAM_WRITE_RSP {
      PaddedShown(q, 1, 5);
      ShownAddress(q, addr);
    } else if Complains(q) {
      ComplaintHeard(q);
    } else {
      OtherResponse(q);
    }
  }

  // ------------------------------------------------------------------ complaints, and what ends them

  /** The device complains in each of the next k turns. */
  predicate Complaining(w: World, k: nat) {
    k <= |w.plan| && forall i :: 0 <= i < k ==> Complaint(w.plan[i])
  }

  /** After k turns in which the device spoke: the request was sent k times, and nothing else happened. */
  function AfterTurns(w: World, req: seq<byte>, k: nat): World
    requires k <= |w.plan|
  {
    w.(frames := w.frames + Copies(Frame(req), k), rx := if k == 0 then w.rx else [], plan := w.plan[k..])
  }

  /** The error the last of the complaints is kept as. */
  function LastError(w: World, k: nat, last: TResult): TResult
    requires Complaining(w, k)
  {
    if k == 0 then last else Complained(w.plan[k - 1])
  }

  lemma TurnsAdd(w: World, req: seq<byte>, k: nat)
    requires w.plan != [] && k < |w.plan|
    ensures AfterTurns(Spoken(w, req), req, k) == AfterTurns(w, req, k + 1)
    ensures AfterTurns(w, req, 0) == w
  {
    hide Frame;
    assert w.plan[1..][k..] == w.plan[k + 1..];
    assert [Frame(req)] + Copies(Frame(req), k) == Copies(Frame(req), k + 1);
    Assoc(w.frames, [Frame(req)], Copies(Frame(req), k));
    EmptyUnit(w.frames);
  }

  /** Complaints are answered by sending the chunk again, as long as there are tries left. */
  lemma {:induction false} ComplaintsRetried(w: World, data: seq<byte>, addr: nat, n: nat, k: nat, tries: nat, last: TResult)
    requires w.open && Sound(w, data) && IsChunk(data, addr, n) && Aligned(data, addr, n)
    requires Complaining(w, k) && k <= tries
    ensures addr < TWO32
    ensures var req := Request(addr, data[addr..addr + n]);
            && Sound(AfterTurns(w, req, k), data)
            && Attempts(w, req, addr, tries, last) == Attempts(AfterTurns(w, req, k), req, addr, tries - k, LastError(w, k, last))
    decreases k
  {
    hide Attempt, Sound, Good, Frame, Complaint, Stored, Complains, Request;
    ChunkBounds(data, addr, n);
    var req := Request(addr, data[addr..addr + n]);
    if k == 0 {
      NoTurns(w, req);
    } else {
      ComplaintAttempt(w, data, addr, n);
      AttemptSound(w, data, addr, n);
      TurnsAdd(w, req, k - 1);
      assert forall i :: 0 <= i < k - 1 ==> w.plan[1..][i] == w.plan[i + 1];
      ComplaintsRetried(Spoken(w, req), data, addr, n, k - 1, tries - 1, Complained(w.plan[0]));
    }
  }

  lemma NoTurns(w: World, req: seq<byte>)
    ensures AfterTurns(w, req, 0) == w
  {
    EmptyUnit(w.frames);
  }

  /**
   The whole rule for a chunk: any number of complaints below MAX_RESEND, then a response of another kind. If it is
   the acknowledgement of this very address, the download goes on with the next chunk; otherwise it ends there, with
   EDATARSP or EFAILED, and what was still to come is never looked at.
   */
  lemma ChunkDecided(w: World, data: seq<byte>, addr: nat, k: nat, q: seq<byte>)
    requires addr < |data| < TWO32 / 2 && w.open && Sound(w, data)
    requires Complaining(w, k) && k < MAX_RESEND && k < |w.plan| && Speaks(w, w.plan[k], q)
    ensures q != []
    ensures var n := ChunkLen(|data| - addr);
            var after := AfterTurns(w, Request(addr, data[addr..addr + n]), k + 1);
            match ReadingOf(q, addr)
            case Taken => WriteFrom(w, data, addr, |data| - addr) == WriteFrom(after, data, addr + n, |data| - addr - n)
            case Refused(result) => WriteFrom(w, data, addr, |data| - addr) == (result, after)
            case Retried(_) => true
  {
    hide Attempt, Attempts, WriteFrom, Sound, Good, Frame, ReadingOf, Complaint, Complains, Request, Complained, AfterTurns, Speaks;
    var n := ChunkLen(|data| - addr);
    var req := Request(addr, data[addr..addr + n]);
    ComplaintsRetried(w, data, addr, n, k, MAX_RESEND, EOK);
    var wk := AfterTurns(w, req, k);
    TurnsLeave(w, req, k, q);
    TurnRead(wk, data, addr, n, q);
    TurnsSnoc(w, req, k);
    AttemptsOnce(wk, req, addr, MAX_RESEND - k, LastError(w, k, EOK));
    WriteOnce(w, data, addr);
  }

  lemma TurnsLeave(w: World, req: seq<byte>, k: nat, q: seq<byte>)
    requires k < |w.plan| && Speaks(w, w.plan[k], q)
    ensures var wk := AfterTurns(w, req, k); wk.plan != [] && wk.open == w.open && Speaks(wk, wk.plan[0], q)
  {
    hide Frame;
  }

  lemma AttemptsOnce(w: World, req: seq<byte>, addr: nat, n: nat, last: TResult)
    requires n > 0
    ensures var (t, w1) := Attempt(w, req, addr);
            Attempts(w, req, addr, n, last) ==
            match t case Again(r) => Attempts(w1, req, addr, n - 1, r) case Leave(r) => (r, w1) case GiveUp => (EFAILED, w1)
  {
    hide Attempt;
  }

  lemma WriteOnce(w: World, data: seq<byte>, addr: nat)
    requires addr < |data| < TWO32 / 2
    ensures var n := ChunkLen(|data| - addr);
            var (result, w1) := Attempts(w, Request(addr, data[addr..addr + n]), addr, MAX_RESEND, EOK);
            WriteFrom(w, data, addr, |data| - addr)
            == if result != EOK then (result, w1) else WriteFrom(w1, data, addr + n, |data| - addr - n)
  {
    hide Attempts, Request;
  }

  lemma TurnsSnoc(w: World, req: seq<byte>, k: nat)
    requires k < |w.plan|
    ensures Spoken(AfterTurns(w, req, k), req) == AfterTurns(w, req, k + 1)
  {
    hide Frame;
    assert w.plan[k..][1..] == w.plan[k + 1..];
    assert Copies(Frame(req), k) + [Frame(req)] == Copies(Frame(req), k + 1);
    Assoc(w.frames, Copies(Frame(req), k), [Frame(req)]);
  }

  /** An acknowledgement of another chunk ends the download at once; only complaints are tried again. */
  lemma WrongAddressEnds(w: World, data: seq<byte>, addr: nat, k: nat, a: nat)
    requires addr < |data| < TWO32 / 2 && w.open && Sound(w, data) && a < TWO32 && a != addr
    requires Complaining(w, k) && k < MAX_RESEND && k < |w.plan| && Speaks(w, w.plan[k], [STREAM_WRITE_RSP] + LE32(a))
    ensures var req := Request(addr, data[addr..addr + ChunkLen(|data| - addr)]);
            WriteFrom(w, data, addr, |data| - addr)
            == (EFAILED, w.(frames := w.frames + Copies(Frame(req), k + 1), rx := [], plan := w.plan[k + 1..]))
  {
    hide WriteFrom, Frame, Sound, LE32, Complaint, Request;
    var q := [STREAM_WRITE_RSP] + LE32(a);
    ChunkDecided(w, data, addr, k, q);
    assert Shown(q)[1..5] == LE32(a);
    LE32Back(a);
    LE32Back(addr);
  }

  /** MAX_RESEND complaints about one chunk end the download with the last of them. */
  lemma ComplaintsRunOut(w: World, data: seq<byte>, addr: nat)
    requires addr < |data| < TWO32 / 2 && w.open && Sound(w, data) && Complaining(w, MAX_RESEND)
    ensures var req := Request(addr, data[addr..addr + ChunkLen(|data| - addr)]);
            WriteFrom(w, data, addr, |data| - addr)
               == (Complained(w.plan[MAX_RESEND - 1]),
                   w.(frames := w.frames + Copies(Frame(req), MAX_RESEND), rx := [], plan := w.plan[MAX_RESEND..]))
  {
    hide Attempt, Frame, Sound, Good, Complaint, Request, WriteFrom;
    var n := ChunkLen(|data| - addr);
    ComplaintsRetried(w, data, addr, n, MAX_RESEND, MAX_RESEND, EOK);
    WriteOnce(w, data, addr);
  }

  // ------------------------------------------------------------------ a device that does not answer

  lemma {:induction false} SilentTurns(w: World, data: seq<byte>, addr: nat, n: nat, tries: nat, last: TResult)
    requires w.open && Sound(w, data) && IsChunk(data, addr, n) && Aligned(data, addr, n)
    requires 0 < tries <= |w.plan| && forall i :: 0 <= i < tries ==> Silent(w.plan[i])
    ensures addr < TWO32 && Attempts(w, Request(addr, data[addr..addr + n]), addr, tries, last).0 == EPORTRECEIVE
    decreases tries
  {
    hide Attempt, Sound, Good, Silent, Stored, Request, Frame;
    ChunkBounds(data, addr, n);
    SilentAttempt(w, data, addr, n);
    AttemptSound(w, data, addr, n);
    if tries > 1 {
      var w1 := Attempt(w, Request(addr, data[addr..addr + n]), addr).1;
      assert forall i :: 0 <= i < tries - 1 ==> w1.plan[i] == w.plan[i + 1];
      SilentTurns(w1, data, addr, n, tries - 1, EPORTRECEIVE);
    }
  }

  /** MAX_RESEND turns without an answer end the download with EPORTRECEIVE. */
  lemma SilenceEnds(w: World, data: seq<byte>, addr: nat)
    requires addr < |data| < TWO32 / 2 && w.open && Sound(w, data)
    requires MAX_RESEND <= |w.plan| && forall i :: 0 <= i < MAX_RESEND ==> Silent(w.plan[i])
    ensures WriteFrom(w, data, addr, |data| - addr).0 == EPORTRECEIVE
  {
    hide WriteFrom, Attempts, Sound, Silent;
    SilentTurns(w, data, addr, ChunkLen(|data| - addr), MAX_RESEND, EOK);
    WriteOnce(w, data, addr);
  }

  // ------------------------------------------------------------------ a device that is unplugged

  lemma UnpluggedTurn(w: World, data: seq<byte>, addr: nat, n: nat)
    requires !w.open && IsChunk(data, addr, n)
    ensures addr < TWO32 && Attempt(w, Request(addr, data[addr..addr + n]), addr) == (Again(EPACKETSEND), Act(w))
  {
    hide Fits, Frame, ApplyAll;
    RequestFits(addr, data[addr..addr + n]);
  }

  lemma {:induction false} UnpluggedTurns(w: World, data: seq<byte>, addr: nat, n: nat, tries: nat, last: TResult)
    requires !w.open && w.plan == [] && IsChunk(data, addr, n) && tries > 0
    ensures addr < TWO32 && Attempts(w, Request(addr, data[addr..addr + n]), addr, tries, last) == (EPACKETSEND, w)
    decreases tries
  {
    hide Attempt;
    UnpluggedTurn(w, data, addr, n);
    if tries > 1 {
      UnpluggedTurns(w, data, addr, n, tries - 1, EPACKETSEND);
    }
  }

  /** A device that stays unplugged ends the download with EPACKETSEND. */
  lemma UnpluggedEnds(w: World, data: seq<byte>, addr: nat)
    requires addr < |data| < TWO32 / 2 && !w.open && w.plan == []
    ensures WriteFrom(w, data, addr, |data| - addr) == (EPACKETSEND, w)
  {
    hide WriteFrom, Attempts;
    UnpluggedTurns(w, data, addr, ChunkLen(|data| - addr), MAX_RESEND, EOK);
    WriteOnce(w, data, addr);
  }

  /** One that is plugged in again during a try is sent the chunk again, and the download can still succeed. */
  lemma PluggedAgain(w: World, data: seq<byte>, addr: nat)
    requires addr < |data| < TWO32 / 2 && !w.open && Sound(w, data) && w.plan != [] && w.plan[0] == [Plug(true)]
    requires Patient(w.plan[1..], |w.frames|, |w.acks|, ChunkCount(|data| - addr), MAX_RESEND - 1)
    ensures WriteFrom(w, data, addr, |data| - addr).0 == EOK
  {
    hide WriteFrom, Attempts, Attempt, Good, Patient, Request, Sound;
    var n := ChunkLen(|data| - addr);
    var req := Request(addr, data[addr..addr + n]);
    UnpluggedTurn(w, data, addr, n);
    var w1 := w.(plan := w.plan[1..], open := true);
    PlugAct(w);
    PlugSound(w, data, w.plan[1..]);
    AttemptsOnce(w, req, addr, MAX_RESEND, EOK);
    PatientAttempts(w1, data, addr, n, ChunkCount(|data| - addr), MAX_RESEND - 1, EPACKETSEND);
    ChunkCountStep(|data| - addr);
    WriteOnce(w, data, addr);
    PatientSucceeds(Attempts(w1, req, addr, MAX_RESEND - 1, EPACKETSEND).1, data, addr + n);
  }

  lemma PlugAct(w: World)
    requires w.plan != [] && w.plan[0] == [Plug(true)]
    ensures Act(w) == w.(plan := w.plan[1..], open := true)
  {
    var w0 := w.(plan := w.plan[1..]);
    var moves := w.plan[0];
    assert moves[..0] == [] && ApplyAll(w0, moves[..0]) == w0;
    assert ApplyAll(w0, moves) == Apply(w0, moves[0]);
  }

  lemma PlugSound(w: World, data: seq<byte>, plan: seq<seq<Move>>)
    requires Sound(w, data)
    ensures Sound(w.(plan := plan, open := true), data)
  {
    hide FrameFor, AckOk, Fits;
  }
}
