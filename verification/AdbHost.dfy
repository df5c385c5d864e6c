/**
 adbhost of src/adbhost.cpp: packets are allocated, filled, sent and read in place, the leftover of a read is
 kept in packet_buffer, and send_buffer is filled and emptied by the file transfers.
 */
module AdbHost {
  import opened Bytes
  import opened Seqs
  import opened Usb
  import opened UsbHandle
  import opened UsbPacket
  import opened Words
  import opened TransportUsb
  import opened AdbStream
  import opened AdbSync

  /**
   The transport: what every read to come leaves in memory, and the pipe all packets are written to. The packets
   handed over so far are kept beside it, whether their writes succeeded or not.
   */
  class Transport {
    var arrivals: seq<Incoming>
    const usb: UsbHandle
    ghost const start: Pipe
    ghost var sent: seq<Packet>

    /** The pipe has been given the packets sent, each whatever became of those before. */
    ghost predicate Wired()
      reads this`sent, usb
    {
      usb.Snapshot() == SendAll(start, usb.zeroMask, sent).1
    }

    constructor (arrivals: seq<Incoming>, usb: UsbHandle)
      ensures Wired() && this.arrivals == arrivals && this.usb == usb && sent == [] && start == usb.Snapshot()
    {
      this.arrivals, this.usb, start, sent := arrivals, usb, usb.Snapshot(), [];
    }

    /** read_packet; with nothing left to come it fails and touches nothing. */
    method Read(p: Apacket) returns (ok: bool)
      requires p.Valid()
      modifies this`arrivals, p.msg, p.data
      ensures old(arrivals) == [] ==> !ok && arrivals == [] && p.Contents() == old(p.Contents())
      ensures old(arrivals) != [] ==>
                arrivals == old(arrivals)[1..] && ok == old(arrivals)[0].ok && p.Contents() == old(arrivals)[0].raw
    {
      if arrivals == [] {
        return false;
      }
      var a := arrivals[0];
      forall i | 0 <= i < HEADER {
        p.msg[i] := a.raw.msg[i];
      }
      forall i | 0 <= i < MAX_PAYLOAD {
        p.data[i] := a.raw.data[i];
      }
      assert p.msg[..] == a.raw.msg && p.data[..] == a.raw.data;
      arrivals := arrivals[1..];
      ok := a.ok;
    }

    /** write_to_remote, given a finished packet: whether all of it went out. */
    method Write(p: Apacket) returns (ok: bool)
      requires Wired() && p.Valid() && p.Get(DATA_LENGTH) <= MAX_PAYLOAD
      requires p.msg[..] == Header(Received(p.Contents()))
      modifies this`sent, usb
      ensures Wired() && sent == old(sent) + [Received(p.Contents())]
      ensures ok == RemoteWrite(old(usb.Snapshot()), usb.zeroMask, p.msg[..], p.data[..p.Get(DATA_LENGTH)]).0
    {
      hide Header, Field, WellFormed, RemoteWrite, SendAll;
      SendAllSnoc(start, usb.zeroMask, sent, Received(p.Contents()));
      ok := p.RemoteWrite(usb);
      sent := sent + [Received(p.Contents())];
    }
  }

  datatype Code = Zero | One | Undefined

  function CodeOf(r: ReadResult): Code {
    match r case Done(_) => Zero case Refused => One case Overrun => Undefined
  }

  class AdbHost {
    const t: Transport
    const id: nat
    const peerId: nat
    const sendBuffer: array<byte>
    var packetBuffer: Apacket?

    ghost predicate Shaped() {
      id < TWO32 && peerId < TWO32 && sendBuffer.Length == MAX_PAYLOAD
    }

    ghost predicate Valid()
      reads this`packetBuffer, if packetBuffer == null then {} else {packetBuffer.msg}
    {
      && Shaped()
      && (packetBuffer != null ==>
            && packetBuffer.Valid() && packetBuffer.Get(DATA_LENGTH) <= MAX_PAYLOAD
            && packetBuffer.msg != sendBuffer && packetBuffer.data != sendBuffer)
    }

    function Okay(): Packet
      requires Shaped()
    {
      Message(A_OKAY, id, peerId, [])
    }

    function Wrte(payload: seq<byte>): Packet
      requires Shaped() && |payload| <= MAX_PAYLOAD
    {
      Message(A_WRTE, id, peerId, payload)
    }

    ghost function Snapshot(): (s: Stream)
      requires Valid()
      reads this`packetBuffer, t, if packetBuffer == null then {} else {packetBuffer.msg, packetBuffer.data}
      ensures s.arrivals == t.arrivals
    {
      Stream(t.arrivals,
             if packetBuffer == null then None else Some(packetBuffer.data[..packetBuffer.Get(DATA_LENGTH)]),
             t.sent, Okay())
    }

    /**
     Of the packets there were to come, those consumed since then were answered by one OKAY of this stream for each
     WRTE, and nothing else was sent.
     */
    ghost predicate OkayForEach(arrivals: seq<Incoming>, sent: seq<Packet>)
      requires Shaped()
      reads t
    {
      && |t.arrivals| <= |arrivals|
      && var k := |arrivals| - |t.arrivals|;
        && t.arrivals == arrivals[k..]
        && t.sent == sent + Repeat<Packet>(Message(A_OKAY, id, peerId, []), Writes(arrivals[..k]))
    }

    constructor (t: Transport, id: nat, peerId: nat)
      requires id < TWO32 && peerId < TWO32
      ensures Valid() && this.t == t && packetBuffer == null && fresh(sendBuffer)
      ensures this.id == id && this.peerId == peerId
    {
      this.t, this.id, this.peerId := t, id, peerId;
      sendBuffer := new byte[MAX_PAYLOAD];
      packetBuffer := null;
    }

    /**
     send_packet on a packet whose command, arguments and length are set. write_packet drops the verdict of
     write_to_remote, so nobody learns of a write that failed.
     */
    method SendPacket(p: Apacket)
      requires p.Valid() && p.Get(DATA_LENGTH) <= MAX_PAYLOAD
      requires t.Wired()
      modifies p.msg, t`sent, t.usb
      ensures t.Wired()
      ensures t.sent == old(t.sent) + [old(Received(p.Contents()))]
    {
      hide Transport.Wired, SendAll, RemoteWrite, Header, Field, WellFormed;
      p.Finish();
      var _ := t.Write(p);
    }

    /** notify_ready_to_remote */
    method NotifyReady()
      requires Shaped()
      requires t.Wired()
      modifies t`sent, t.usb
      ensures t.Wired()
      ensures t.sent == old(t.sent) + [Message(A_OKAY, id, peerId, [])]
    {
      hide Transport.Wired, SendAll, Field;
      var p := new Apacket();
      p.Set(COMMAND, A_OKAY);
      p.Set(ARG0, id);
      p.Set(ARG1, peerId);
      assert p.data[..0] == [];
      SendPacket(p);
    }

    /** writex with enqueue_command: one WRTE packet, or a refusal when it would not fit. */
    method Writex(ptr: array<byte>, len: nat) returns (ok: bool)
      requires Shaped() && len <= ptr.Length
      requires t.Wired()
      modifies t`sent, t.usb
      ensures t.Wired()
      ensures ok <==> len <= MAX_PAYLOAD
      ensures t.sent == old(t.sent) + if len <= MAX_PAYLOAD then [Message(A_WRTE, id, peerId, ptr[..len])] else []
    {
      hide Transport.Wired, SendAll, Field;
      if len > MAX_PAYLOAD {
        return false;
      }
      var p := new Apacket();
      forall i | 0 <= i < len {
        p.data[i] := ptr[i];
      }
      assert p.data[..len] == ptr[..len];
      p.Set(COMMAND, A_WRTE);
      p.Set(ARG0, id);
      p.Set(ARG1, peerId);
      p.Set(DATA_LENGTH, len);
      SendPacket(p);
      ok := true;
    }

    /** The loop of readx: skip OKAY, answer WRTE, give up on the rest; read_packet's verdict is dropped. */
    method FetchPacket() returns (p: Apacket?)
      requires Shaped()
      requires t.Wired()
      modifies t, t.usb
      ensures t.Wired()
      ensures p != null ==> p.Valid() && fresh(p) && fresh(p.msg) && fresh(p.data)
      ensures var s := Stream(old(t.arrivals), None, old(t.sent), Okay());
              var (a, s1) := Fetch(s);
              && s1 == Stream(t.arrivals, None, t.sent, Okay())
              && (p != null <==> a.Some?)
              && (p != null ==> p.Contents() == a.value.raw)
      ensures OkayForEach(old(t.arrivals), old(t.sent))
    {
      hide Transport.Wired, SendAll, Possible, Field, Writes, Repeat;
      ghost var s := Stream(t.arrivals, None, t.sent, Okay());
      FetchAnswers(s);
      var q := new Apacket();
      while true
        invariant t.Wired() && q.Valid() && fresh(q) && fresh(q.msg) && fresh(q.data)
        invariant q.Get(COMMAND) == 0
        invariant Fetch(s) == Fetch(Stream(t.arrivals, None, t.sent, Okay()))
        decreases |t.arrivals|
      {
        var _ := t.Read(q);
        if q.Get(COMMAND) == A_OKAY {
          q.Clear();
        } else if q.Get(COMMAND) == A_WRTE {
          NotifyReady();
          return q;
        } else {
          return null;
        }
      }
    }

    /** The second half of readx: hand out len bytes of p, and keep what is over in a new packet. */
    method HandOutPacket(p: Apacket, ptr: array<byte>, at: nat, len: nat) returns (code: Code)
      requires Shaped() && p.Valid() && ptr != p.msg && ptr != p.data && packetBuffer == null
      requires at + len <= ptr.Length || len > MAX_PAYLOAD
      modifies this`packetBuffer, ptr
      ensures Valid() && (packetBuffer != null ==> fresh(packetBuffer.msg) && fresh(packetBuffer.data))
      ensures var (r, s1) := HandOut(Stream(t.arrivals, None, t.sent, Okay()), old(p.data[..]), old(p.Get(DATA_LENGTH)), len);
              && Snapshot() == s1 && code == CodeOf(r)
              && (r.Done? ==> at + len <= ptr.Length && ptr[at..at + len] == r.bytes)
              && (r.Done? ==> ptr[..at] == old(ptr[..at]) && ptr[at + len..] == old(ptr[at + len..]))
              && (!r.Done? ==> ptr[..] == old(ptr[..]))
    {
      hide Field;
      var length := p.Get(DATA_LENGTH);
      ghost var d := p.data[..];
      if len > length {
        return One;
      }
      if length > MAX_PAYLOAD {
        return Undefined;
      }
      forall i | 0 <= i < len {
        ptr[at + i] := p.data[i];
      }
      assert ptr[at..at + len] == d[..len];
      if len < length {
        var b := new Apacket();
        b.Set(COMMAND, p.Get(COMMAND));
        b.Set(DATA_LENGTH, length - len);
        forall i | 0 <= i < length - len {
          b.data[i] := p.data[len + i];
        }
        assert b.data[..length - len] == d[len..length];
        packetBuffer := b;
      }
      code := Zero;
    }

    /** readx into ptr at an offset: 0, or 1, or undefined where the code would copy past a packet's end. */
    method Readx(ptr: array<byte>, at: nat, len: nat) returns (code: Code)
      requires Valid() && (packetBuffer != null ==> ptr != packetBuffer.msg && ptr != packetBuffer.data)
      requires at + len <= ptr.Length || len > MAX_PAYLOAD
      requires t.Wired()
      modifies this`packetBuffer, t, t.usb, ptr
      ensures t.Wired()
      ensures Valid() && (packetBuffer != null ==> fresh(packetBuffer.msg) && fresh(packetBuffer.data))
      ensures var (r, s1) := AdbStream.Readx(old(Snapshot()), len);
              && Snapshot() == s1 && code == CodeOf(r)
              && (r.Done? ==> at + len <= ptr.Length && ptr[at..at + len] == r.bytes)
              && (r.Done? ==> ptr[..at] == old(ptr[..at]) && ptr[at + len..] == old(ptr[at + len..]))
              && (!r.Done? ==> ptr[..] == old(ptr[..]))
      ensures OkayForEach(old(t.arrivals), old(t.sent))
    {
      hide Transport.Wired, SendAll, Fetch, HandOut, Field, Possible, OkayForEach;
      ghost var s := Snapshot();
      NothingConsumed();
      if packetBuffer == null {
        var p := FetchPacket();
        if p == null {
          return One;
        }
        code := HandOutPacket(p, ptr, at, len);
      } else {
        var p := packetBuffer;
        packetBuffer := null;
        ghost var d := s.left.value;
        OnlyLengthMatters(Stream(t.arrivals, None, t.sent, Okay()), p.data[..], p.Get(DATA_LENGTH), len, s);
        code := HandOutPacket(p, ptr, at, len);
      }
    }

    /** The WRTE packets that carry these pieces. */
    function Wrtes(chunks: seq<Chunk>): seq<Packet>
      requires Shaped()
    {
      if chunks == [] then [] else [Wrte(DataPayload(chunks[0]))] + Wrtes(chunks[1..])
    }

    /** Store a word of send_buffer. */
    method PutWord(at: nat, n: nat)
      requires Shaped() && at + 4 <= MAX_PAYLOAD && n < TWO32
      modifies sendBuffer
      ensures sendBuffer[at..at + 4] == LE32(n)
      ensures sendBuffer[..at] == old(sendBuffer[..at]) && sendBuffer[at + 4..] == old(sendBuffer[at + 4..])
    {
      hide LE32;
      var w := LE32(n);
      sendBuffer[at], sendBuffer[at + 1], sendBuffer[at + 2], sendBuffer[at + 3] := w[0], w[1], w[2], w[3];
    }

    /** One turn of write_data_buffer and write_data_file: the size, then writex of the filled part of send_buffer. */
    method SendChunk(data: array<byte>, at: nat, count: nat) returns (ok: bool)
      requires Shaped() && data != sendBuffer && at + count <= data.Length && count <= SYNC_DATA_MAX
      requires sendBuffer[..4] == LE32(ID_DATA)
      requires t.Wired()
      modifies t`sent, t.usb, sendBuffer
      ensures t.Wired()
      ensures ok && sendBuffer[..4] == LE32(ID_DATA)
      ensures t.sent == old(t.sent) + [Wrte(DataPayload(data[at..at + count]))]
    {
      hide Transport.Wired, SendAll, LE32;
      forall i | 0 <= i < count {
        sendBuffer[8 + i] := data[at + i];
      }
      assert sendBuffer[..4] == LE32(ID_DATA);
      ghost var tail := sendBuffer[8..];
      assert tail[..count] == data[at..at + count];
      PutWord(4, count);
      assert sendBuffer[8..8 + count] == sendBuffer[8..][..count];
      ThreeParts(sendBuffer[..], 4, 8, 8 + count);
      ok := Writex(sendBuffer, 8 + count);
    }

    /** write_data_buffer */
    method WriteDataBuffer(fileBuffer: array<byte>, size: nat) returns (err: int)
      requires Shaped() && fileBuffer != sendBuffer && size <= fileBuffer.Length
      requires t.Wired()
      modifies t`sent, t.usb, sendBuffer
      ensures t.Wired()
      ensures err == 0 && t.sent == old(t.sent) + Wrtes(Chunks(fileBuffer[..size]))
      ensures t.usb.Snapshot() == SendAll(old(t.usb.Snapshot()), t.usb.zeroMask, Wrtes(Chunks(fileBuffer[..size]))).1
      ensures Carries(t.sent, |old(t.sent)|, Chunks(fileBuffer[..size]))
    {
      hide LE32, DataPayload, Wrte, SendAll, Carries;
      WrtesCarry(t.sent, Chunks(fileBuffer[..size]));
      SendAllAppend(t.start, t.usb.zeroMask, t.sent, Wrtes(Chunks(fileBuffer[..size])));
      err := 0;
      var total := 0;
      PutWord(0, ID_DATA);
      while total < size
        invariant t.Wired() && 0 <= total <= size && err == 0 && sendBuffer[..4] == LE32(ID_DATA)
        invariant t.sent + Wrtes(Chunks(fileBuffer[total..size])) == old(t.sent) + Wrtes(Chunks(fileBuffer[..size]))
      {
        var count := size - total;
        if count > SYNC_DATA_MAX {
          count := SYNC_DATA_MAX;
        }
        FirstChunk(fileBuffer[total..size], count, fileBuffer[total..total + count], fileBuffer[total + count..size]);
        WrtesStep(t.sent, fileBuffer[total..total + count], Chunks(fileBuffer[total + count..size]));
        var ok := SendChunk(fileBuffer, total, count);
        if !ok {
          err := -1;
          break;
        }
        total := total + count;
      }
      EmptyUnit(t.sent);
    }

    /** From number from on, the packets are WRTEs of this stream that carry these pieces, one each. */
    ghost predicate Carries(sent: seq<Packet>, from: nat, chunks: seq<Chunk>) {
      && |sent| == from + |chunks|
      && forall i :: 0 <= i < |chunks| ==> sent[from + i] == Message(A_WRTE, id, peerId, DataPayload(chunks[i]))
    }

    lemma {:induction false} WrtesCarry(sent: seq<Packet>, chunks: seq<Chunk>)
      requires Shaped()
      ensures Carries(sent + Wrtes(chunks), |sent|, chunks)
      decreases |chunks|
    {
      hide DataPayload;
      if chunks == [] {
        EmptyUnit(sent);
      } else {
        var first := [Wrte(DataPayload(chunks[0]))];
        WrtesCarry(sent + first, chunks[1..]);
        Assoc(sent, first, Wrtes(chunks[1..]));
        var all := sent + Wrtes(chunks);
        forall i | 0 <= i < |chunks|
          ensures all[|sent| + i] == Message(A_WRTE, id, peerId, DataPayload(chunks[i]))
        {
          if i > 0 {
            assert all[|sent + first| + (i - 1)] == Message(A_WRTE, id, peerId, DataPayload(chunks[1..][i - 1]));
          }
        }
      }
    }

    lemma WrtesStep(sent: seq<Packet>, chunk: Chunk, rest: seq<Chunk>)
      requires Shaped()
      ensures sent + Wrtes([chunk] + rest) == sent + [Wrte(DataPayload(chunk))] + Wrtes(rest)
    {
      hide DataPayload, Wrte;
      assert ([chunk] + rest)[1..] == rest;
      Assoc(sent, [Wrte(DataPayload(chunk))], Wrtes(rest));
    }

    /** write_data_file, given what the successive freads return; a read error looks like the end of the file. */
    method WriteDataFile(pieces: seq<Chunk>) returns (err: int)
      requires Shaped()
      requires t.Wired()
      modifies t`sent, t.usb, sendBuffer
      ensures t.Wired()
      ensures err == 0 && t.sent == old(t.sent) + Wrtes(UpToEmpty(pieces))
      ensures t.usb.Snapshot() == SendAll(old(t.usb.Snapshot()), t.usb.zeroMask, Wrtes(UpToEmpty(pieces))).1
      ensures Carries(t.sent, |old(t.sent)|, UpToEmpty(pieces))
    {
      hide LE32, DataPayload, Wrte, SendAll, Carries;
      WrtesCarry(t.sent, UpToEmpty(pieces));
      SendAllAppend(t.start, t.usb.zeroMask, t.sent, Wrtes(UpToEmpty(pieces)));
      err := 0;
      PutWord(0, ID_DATA);
      var i := 0;
      while i < |pieces|
        invariant t.Wired() && 0 <= i <= |pieces| && err == 0 && sendBuffer[..4] == LE32(ID_DATA)
        invariant t.sent + Wrtes(UpToEmpty(pieces[i..])) == old(t.sent) + Wrtes(UpToEmpty(pieces))
      {
        var ret := pieces[i];
        if ret == [] {
          break;
        }
        var data := new byte[|ret|](k requires 0 <= k < |ret| => ret[k]);
        assert data[0..|ret|] == ret;
        assert pieces[i..][1..] == pieces[i + 1..];
        WrtesStep(t.sent, ret, UpToEmpty(pieces[i + 1..]));
        var ok := SendChunk(data, 0, |ret|);
        if !ok {
          err := -1;
          break;
        }
        i := i + 1;
      }
      EmptyUnit(t.sent);
    }

    /**
     The success that write_data_buffer reports means that the content is on the wire, whatever the pipe does,
     exactly if there is no content.
     */
    lemma ReportsSuccessAnyway(mask: bv32, content: seq<byte>)
      requires Shaped()
      ensures SurelyOnTheWire(mask, Wrtes(Chunks(content))) <==> content == []
    {
      hide SurelyOnTheWire, DataPayload, Wrte;
      SureIffNothing(mask, Wrtes(Chunks(content)));
    }

    /** The same of write_data_file and what it read. */
    lemma FileReportsSuccessAnyway(mask: bv32, pieces: seq<Chunk>)
      requires Shaped()
      ensures SurelyOnTheWire(mask, Wrtes(UpToEmpty(pieces))) <==> pieces == [] || pieces[0] == []
    {
      hide SurelyOnTheWire, DataPayload, Wrte;
      SureIffNothing(mask, Wrtes(UpToEmpty(pieces)));
    }

    /** One turn of the loop of sync_recv: it ends with a result, or a piece of the file has been read. */
    method RecvPiece(msg: array<byte>) returns (done: bool, result: RecvResult, piece: seq<byte>)
      requires Valid() && msg.Length == SYNC_HEADER && msg != sendBuffer
      requires packetBuffer != null ==> msg != packetBuffer.msg && msg != packetBuffer.data
      requires t.Wired()
      modifies this`packetBuffer, t, t.usb, sendBuffer, msg
      ensures t.Wired()
      ensures Valid() && (packetBuffer != null ==> fresh(packetBuffer.msg) && fresh(packetBuffer.data))
      ensures done ==> Recv(old(Snapshot())) == (result, [], Snapshot())
      ensures !done ==>
                && Recv(old(Snapshot())) == WithFile(piece, Recv(Snapshot()))
                && |t.arrivals| <= |old(t.arrivals)|
                && (|t.arrivals| < |old(t.arrivals)| || |LeftBytes(Snapshot())| < |LeftBytes(old(Snapshot()))|)
    {
      hide Transport.Wired, SendAll, AdbStream.Readx, Id, Size, Snapshot, LeftBytes, Recv;
      done, result, piece := true, Lost, [];
      ghost var s := Snapshot();
      RecvTurn(s);
      var code := Readx(msg, 0, SYNC_HEADER);
      if code != Zero {
        result := if code == Undefined then BufferOverrun else Lost;
        return;
      }
      assert msg[0..SYNC_HEADER] == msg[..];
      var id, size := Id(msg[..]), Size(msg[..]);
      if id == ID_DONE {
        result := Complete;
        return;
      }
      if id != ID_DATA {
        result := NotData;
        return;
      }
      if SYNC_DATA_MAX < size < 0x8000_0000 {
        result := DataTooLong;
        return;
      }
      code := Readx(sendBuffer, 8, size);
      if code != Zero {
        result := if code == Undefined then BufferOverrun else Lost;
        return;
      }
      done, piece := false, sendBuffer[8..8 + size];
    }

    lemma NothingConsumed()
      requires Shaped()
      ensures OkayForEach(t.arrivals, t.sent)
    {
      assert t.arrivals[..0] == [];
      NothingWritten();
      RepeatOnce<Packet>(Message(A_OKAY, id, peerId, []));
      EmptyUnit(t.sent);
    }

    lemma AnswersAre(s: Stream)
      requires Valid() && s.okay == Okay() && Answered(s, Snapshot())
      ensures OkayForEach(s.arrivals, s.sent)
    {
      hide Writes, Repeat;
    }

    /** sync_recv after its request; the file starts empty, and each WRTE packet consumed is answered once. */
    method SyncRecv() returns (result: RecvResult, file: seq<byte>)
      requires Valid()
      requires t.Wired()
      modifies this`packetBuffer, t, t.usb, sendBuffer
      ensures t.Wired()
      ensures Valid() && (result, file, Snapshot()) == Recv(old(Snapshot()))
      ensures OkayForEach(old(t.arrivals), old(t.sent))
    {
      ghost var s := Snapshot();
      hide Snapshot, Recv, OkayForEach, Answered, Transport.Wired;
      RecvAnswers(s);
      result, file := RecvFile();
      AnswersAre(s);
    }

    /** The loop of sync_recv. */
    method RecvFile() returns (result: RecvResult, file: seq<byte>)
      requires Valid()
      requires t.Wired()
      modifies this`packetBuffer, t, t.usb, sendBuffer
      ensures t.Wired()
      ensures Valid() && (result, file, Snapshot()) == Recv(old(Snapshot()))
    {
      hide Snapshot, Recv, LeftBytes, WithFile, Transport.Wired;
      ghost var s0 := Snapshot();
      file := [];
      var msg := new byte[SYNC_HEADER];
      SameFile(s0);
      while true
        invariant t.Wired() && Valid() && (packetBuffer != null ==> msg != packetBuffer.msg && msg != packetBuffer.data)
        invariant Recv(s0) == WithFile(file, Recv(Snapshot()))
        decreases |t.arrivals|, |LeftBytes(Snapshot())|
      {
        var done, r, piece := RecvPiece(msg);
        if done {
          NoMore(file, r, Snapshot());
          return r, file;
        }
        MoreFile(file, piece, Recv(Snapshot()));
        file := file + piece;
      }
    }

    /** handle_shell_response: whatever became of the response, what was sent are OKAYs of this stream. */
    method HandleShell(heap: seq<Realloc>) returns (outcome: ShellOutcome, response: array<byte>, len: nat)
      requires Shaped()
      requires t.Wired()
      modifies t, t.usb
      ensures t.Wired()
      ensures len <= response.Length && fresh(response)
      ensures (outcome, response[..len], Stream(t.arrivals, None, t.sent, Okay())) ==
              ShellIn(Stream(old(t.arrivals), None, old(t.sent), Okay()), [], MAX_PAYLOAD, heap)
      ensures |old(t.sent)| <= |t.sent|
      ensures t.sent == old(t.sent) + Repeat<Packet>(Message(A_OKAY, id, peerId, []), |t.sent| - |old(t.sent)|)
    {
      hide ShellIn, Repeat, Transport.Wired;
      ShellInAnswers(Stream(t.arrivals, None, t.sent, Okay()), [], MAX_PAYLOAD, heap);
      outcome, response, len := CollectShell(heap);
    }

    /**
     Its buffer grows by MAX_PAYLOAD when the next packet does not fit. Without memory it gives up; where the code
     writes to a freed block it stops as FreedBlock.
     */
    method CollectShell(heap: seq<Realloc>) returns (outcome: ShellOutcome, response: array<byte>, len: nat)
      requires Shaped()
      requires t.Wired()
      modifies t, t.usb
      ensures t.Wired()
      ensures len <= response.Length && fresh(response)
      ensures (outcome, response[..len], Stream(t.arrivals, None, t.sent, Okay())) ==
              ShellIn(Stream(old(t.arrivals), None, old(t.sent), Okay()), [], MAX_PAYLOAD, heap)
    {
      hide Field, Possible, Transport.Wired, SendAll, ShellIn;
      var p := new Apacket();
      len := 0;
      response := new byte[MAX_PAYLOAD](_ => 0);
      var capacity: nat, grown: nat, done: bool := MAX_PAYLOAD, 0, false;
      ghost var s := Stream(t.arrivals, None, t.sent, Okay());
      while true
        invariant t.Wired() && p.Valid() && fresh(p) && fresh(p.msg) && fresh(p.data) && fresh(response)
        invariant response != p.msg && response != p.data
        invariant len + capacity == response.Length && grown <= |heap|
        invariant ShellIn(s, [], MAX_PAYLOAD, heap) ==
                  ShellIn(Stream(t.arrivals, None, t.sent, Okay()), response[..len], capacity, heap[grown..])
        decreases |t.arrivals|
      {
        done, outcome, response, len, capacity, grown := ShellTurn(p, response, len, capacity, heap, grown);
        if done {
          return;
        }
      }
    }

    /** One turn of the loop: the response is ended, or one packet is dealt with. */
    method ShellTurn(p: Apacket, data: array<byte>, len: nat, capacity: nat, heap: seq<Realloc>, grown: nat)
      returns (done: bool, outcome: ShellOutcome, data': array<byte>, len': nat, capacity': nat, grown': nat)
      requires Shaped() && t.Wired()
      requires p.Valid() && data != p.msg && data != p.data && len + capacity == data.Length && grown <= |heap|
      modifies t, t.usb, p.msg, p.data, data
      ensures t.Wired() && (data' == data || fresh(data'))
      ensures len' + capacity' == data'.Length && grown' <= |heap|
      ensures !done ==> |t.arrivals| < |old(t.arrivals)|
      ensures ShellIn(Stream(old(t.arrivals), None, old(t.sent), Okay()), old(data[..len]), capacity, heap[grown..]) ==
              if done then (outcome, data'[..len'], Stream(t.arrivals, None, t.sent, Okay()))
              else ShellIn(Stream(t.arrivals, None, t.sent, Okay()), data'[..len'], capacity', heap[grown'..])
    {
      hide Field, Possible, Transport.Wired, SendAll;
      done, outcome, data', len', capacity', grown' := false, Responded, data, len, capacity, grown;
      p.Clear();
      var ok := t.Read(p);
      if !ok {
        done := true;
        return;
      }
      assert Length(old(t.arrivals)[0]) == p.Get(DATA_LENGTH) <= MAX_PAYLOAD;
      if p.Get(COMMAND) == A_OKAY {
      } else if p.Get(COMMAND) == A_WRTE {
        assert heap[grown..] != [] ==> heap[grown..][0] == heap[grown] && heap[grown..][1..] == heap[grown + 1..];
        outcome, data', len', capacity', grown' := TakeIn(p, data, len, capacity, heap, grown);
        if outcome != Responded {
          done := true;
          return;
        }
        NotifyReady();
      } else if p.Get(COMMAND) == A_CLSE {
        NotifyReady();
        done := true;
      }
    }

    /** The WRTE case: make room if need be, and store the packet's data. */
    method TakeIn(p: Apacket, data: array<byte>, len: nat, capacity: nat, heap: seq<Realloc>, grown: nat)
      returns (outcome: ShellOutcome, data': array<byte>, len': nat, capacity': nat, grown': nat)
      requires p.Valid() && p.Get(DATA_LENGTH) <= MAX_PAYLOAD && data != p.msg && data != p.data
      requires len + capacity == data.Length && grown <= |heap|
      modifies data
      ensures data' == data || fresh(data')
      ensures len' + capacity' == data'.Length && grown' <= |heap|
      ensures var n := p.Get(DATA_LENGTH);
              if n > capacity && (grown == |heap| || heap[grown] != InPlace) then
                && outcome == (if grown < |heap| && heap[grown] == Relocated then FreedBlock else NoMemory)
                && len' == len && data'[..len'] == old(data[..len])
              else
                && outcome == Responded && len' == len + n
                && data'[..len'] == old(data[..len]) + p.data[..n]
                && capacity' == (if n > capacity then capacity + MAX_PAYLOAD else capacity) - n
                && grown' == (if n > capacity then grown + 1 else grown)
    {
      hide Field;
      outcome, data', len', capacity', grown' := Responded, data, len, capacity, grown;
      var n := p.Get(DATA_LENGTH);
      if capacity < n {
        if grown == |heap| || heap[grown] == NoRoom {
          outcome := NoMemory;
          return;
        }
        if heap[grown] == Relocated {
          outcome := FreedBlock;
          return;
        }
        data', capacity' := MakeRoom(data, len, capacity);
        assert data'[..data.Length][..len] == data[..][..len];
        grown' := grown + 1;
      }
      AppendAt(data', len, p);
      len', capacity' := len + n, capacity' - n;
    }

    /** realloc in place, and the memset of the new part: the old contents are kept, MAX_PAYLOAD zeros follow. */
    method MakeRoom(data: array<byte>, len: nat, capacity: nat) returns (data': array<byte>, capacity': nat)
      requires len + capacity == data.Length
      ensures fresh(data') && capacity' == capacity + MAX_PAYLOAD && len + capacity' == data'.Length
      ensures data'[..data.Length] == data[..]
      ensures forall i :: data.Length <= i < data'.Length ==> data'[i] == 0
    {
      data' := new byte[len + capacity + MAX_PAYLOAD](_ => 0);
      forall i | 0 <= i < data.Length {
        data'[i] := data[i];
      }
      capacity' := capacity + MAX_PAYLOAD;
    }

    /** memcpy of a packet's data behind the response so far. */
    method AppendAt(data: array<byte>, len: nat, p: Apacket)
      requires p.Valid() && data != p.msg && data != p.data
      requires p.Get(DATA_LENGTH) <= MAX_PAYLOAD && len + p.Get(DATA_LENGTH) <= data.Length
      modifies data
      ensures data[..len + p.Get(DATA_LENGTH)] == old(data[..len]) + p.data[..p.Get(DATA_LENGTH)]
    {
      hide Field;
      forall i | 0 <= i < p.Get(DATA_LENGTH) {
        data[len + i] := p.data[i];
      }
    }
  }

  // ------------------------------------------------------------------ the far end

  /** A device takes a packet for its stream if it names that stream, and the host's stream it is open to. */
  predicate TakenBy(own: nat, host: nat, m: Packet) {
    m.arg1 == own && m.arg0 == host
  }

  /** How many OKAYs of its own the device has taken. */
  function OkaysTaken(own: nat, host: nat, ms: seq<Packet>): nat {
    if ms == [] then 0
    else
      OkaysTaken(own, host, ms[..|ms| - 1])
      + if ms[|ms| - 1].command == A_OKAY && TakenBy(own, host, ms[|ms| - 1]) then 1 else 0
  }

  lemma {:induction false} OkaysCounted(own: nat, host: nat, sent: seq<Packet>, m: Packet, n: nat)
    requires m.command == A_OKAY
    ensures OkaysTaken(own, host, sent + Repeat(m, n)) == OkaysTaken(own, host, sent) + if TakenBy(own, host, m) then n else 0
    decreases n
  {
    if n == 0 {
      EmptyUnit(sent);
    } else {
      Assoc(sent, [m], Repeat(m, n - 1));
      assert (sent + [m])[..|sent|] == sent;
      OkaysCounted(own, host, sent + [m], m, n - 1);
    }
  }

  /**
   The device at the far end of this stream counts exactly one OKAY for every WRTE it sent and the host consumed,
   whatever the file transfer came to; any other stream of the device counts none.
   */
  lemma DeviceCounts(own: nat, host: nat, s: Stream, id: nat, peerId: nat)
    requires id < TWO32 && peerId < TWO32 && s.okay == Message(A_OKAY, id, peerId, [])
    ensures var s' := Recv(s).2;
            && |s'.arrivals| <= |s.arrivals|
            && OkaysTaken(own, host, s'.sent)
               == OkaysTaken(own, host, s.sent)
                  + if own == peerId && host == id then Writes(s.arrivals[..|s.arrivals| - |s'.arrivals|]) else 0
  {
    hide Recv, Writes, Repeat, OkaysTaken;
    RecvAnswers(s);
    OkaysCounted(own, host, s.sent, s.okay, Writes(s.arrivals[..|s.arrivals| - |Recv(s).2.arrivals|]));
  }

  function WithFile(file: seq<byte>, r: (RecvResult, seq<byte>, Stream)): (RecvResult, seq<byte>, Stream) {
    (r.0, file + r.1, r.2)
  }

  lemma SameFile(s: Stream)
    ensures Recv(s) == WithFile([], Recv(s))
  {
    hide Recv;
    EmptyUnit(Recv(s).1);
  }

  lemma NoMore(file: seq<byte>, r: RecvResult, s: Stream)
    ensures WithFile(file, (r, [], s)) == (r, file, s)
  {
    EmptyUnit(file);
  }

  lemma MoreFile(file: seq<byte>, d: seq<byte>, r: (RecvResult, seq<byte>, Stream))
    ensures WithFile(file, WithFile(d, r)) == WithFile(file + d, r)
  {
    Assoc(file, d, r.1);
  }

  /** The non-empty reads before the first empty one. */
  function UpToEmpty(pieces: seq<Chunk>): seq<Chunk> {
    if pieces == [] || pieces[0] == [] then [] else [pieces[0]] + UpToEmpty(pieces[1..])
  }

  lemma ThreeParts<T>(s: seq<T>, i: nat, j: nat, k: nat)
    requires i <= j <= k <= |s|
    ensures s[..k] == s[..i] + s[i..j] + s[j..k]
  {
  }

  lemma FirstChunk(s: seq<byte>, count: nat, first: seq<byte>, rest: seq<byte>)
    requires s != [] && count == (if |s| > SYNC_DATA_MAX then SYNC_DATA_MAX else |s|)
    requires s == first + rest && |first| == count
    ensures Chunks(s) == [first] + Chunks(rest)
  {
    Skip(first, rest);
  }

  /** The bytes of a kept packet beyond its length are never handed out. */
  lemma OnlyLengthMatters(s: Stream, data: seq<byte>, length: nat, len: nat, s': Stream)
    requires length <= |data| && s == s'.(left := None)
    ensures HandOut(s, data, length, len) == HandOut(s', data[..length], length, len)
  {
    if len <= length {
      assert data[..length][..len] == data[..len];
      assert data[..length][len..length] == data[len..length];
    }
  }
}
