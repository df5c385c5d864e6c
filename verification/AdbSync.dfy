/**
 File transfer over the ADB stream: the DATA messages of write_data_buffer and write_data_file, the DONE of
 sync_send, and the receiving loop of sync_recv in src/adbhost.cpp.
 */
module AdbSync {
  import opened Bytes
  import opened Seqs
  import opened UsbPacket
  import opened Words
  import opened AdbStream

  const SYNC_DATA_MAX: nat := 4088
  const SYNC_HEADER: nat := 8

  /** MKID: four characters as a little-endian word. */
  function MkId(a: char, b: char, c: char, d: char): (n: nat)
    requires a < 128 as char && b < 128 as char && c < 128 as char && d < 128 as char
    ensures n < TWO32
  {
    a as nat + 256 * b as nat + 65536 * c as nat + 16777216 * d as nat
  }

  const ID_DATA: nat := MkId('D', 'A', 'T', 'A')
  const ID_DONE: nat := MkId('D', 'O', 'N', 'E')

  function SyncMessage(id: nat, size: nat): (s: seq<byte>)
    requires id < TWO32 && size < TWO32
    ensures |s| == SYNC_HEADER
  {
    LE32(id) + LE32(size)
  }

  function Id(h: seq<byte>): nat
    requires |h| == SYNC_HEADER
  {
    FromLE32(h[..4])
  }

  function Size(h: seq<byte>): (n: nat)
    requires |h| == SYNC_HEADER
    ensures n < TWO32
  {
    FromLE32(h[4..])
  }

  lemma SyncMessageBack(id: nat, size: nat)
    requires id < TWO32 && size < TWO32
    ensures Id(SyncMessage(id, size)) == id && Size(SyncMessage(id, size)) == size
  {
    hide LE32, FromLE32;
    LE32Back(id);
    LE32Back(size);
    Skip(LE32(id), LE32(size));
  }

  // ------------------------------------------------------------------ sending

  /** The payload of one DATA packet; it always fits. */
  function DataPayload(chunk: seq<byte>): (s: seq<byte>)
    requires |chunk| <= SYNC_DATA_MAX
    ensures |s| == SYNC_HEADER + |chunk| <= MAX_PAYLOAD
  {
    SyncMessage(ID_DATA, |chunk|) + chunk
  }

  type Chunk = s: seq<byte> | |s| <= SYNC_DATA_MAX

  /** The pieces of a buffer, as long as they may be. */
  function Chunks(content: seq<byte>): seq<Chunk> {
    if content == [] then []
    else
      var count := if |content| > SYNC_DATA_MAX then SYNC_DATA_MAX else |content|;
      [content[..count]] + Chunks(content[count..])
  }

  lemma DataId()
    ensures ID_DATA == 0x4154_4144 && LE32(ID_DATA) == [0x44, 0x41, 0x54, 0x41]
  {
    assert FromByte(0x44) == 0x44 && FromByte(0x41) == 0x41 && FromByte(0x54) == 0x54;
    hide LE32, FromByte;
    LE32Back(ID_DATA);
    LE32Injective(LE32(ID_DATA), [0x44, 0x41, 0x54, 0x41]);
  }

  /** A DATA message on the wire: its name, its length low byte first, and its content. */
  lemma DataOnWire(chunk: Chunk)
    ensures DataPayload(chunk)[..4] == [0x44, 0x41, 0x54, 0x41]
    ensures DataPayload(chunk)[4..8] == LE32(|chunk|) && DataPayload(chunk)[8..] == chunk
  {
    DataId();
    hide LE32, MkId;
  }

  function DataPayloads(chunks: seq<Chunk>): seq<seq<byte>> {
    if chunks == [] then [] else [DataPayload(chunks[0])] + DataPayloads(chunks[1..])
  }

  function Joined(pieces: seq<seq<byte>>): seq<byte> {
    if pieces == [] then [] else pieces[0] + Joined(pieces[1..])
  }

  predicate NoneEmpty(chunks: seq<Chunk>) {
    forall i :: 0 <= i < |chunks| ==> chunks[i] != []
  }

  /** Cutting loses nothing, and every piece has something in it. */
  lemma {:induction false} ChunksTile(content: seq<byte>)
    ensures Joined(Chunks(content)) == content
    ensures NoneEmpty(Chunks(content))
    decreases |content|
  {
    if content != [] {
      var count := if |content| > SYNC_DATA_MAX then SYNC_DATA_MAX else |content|;
      ChunksTile(content[count..]);
      Split(content, count);
    }
  }

  // ------------------------------------------------------------------ receiving

  datatype RecvResult = Complete | Lost | DataTooLong | NotData | BufferOverrun

  /** The loop of sync_recv: what it returns, what it wrote to the file, and the stream after it. */
  function Recv(s: Stream): (RecvResult, seq<byte>, Stream)
    decreases |s.arrivals|, |LeftBytes(s)|
  {
    var (r, s1) := Readx(s, SYNC_HEADER);
    if !r.Done? then (if r.Overrun? then BufferOverrun else Lost, [], s1)
    else
      ReadxRefines(s, SYNC_HEADER);
      var id, size := Id(r.bytes), Size(r.bytes);
      if id == ID_DONE then (Complete, [], s1)
      else if id != ID_DATA then (NotData, [], s1)
      else if SYNC_DATA_MAX < size < 0x8000_0000 then (DataTooLong, [], s1)
      else
        var (d, s2) := Readx(s1, size);
        if !d.Done? then (if d.Overrun? then BufferOverrun else Lost, [], s2)
        else
          Shrinks(s, s1, s2, size);
          var (result, more, s3) := Recv(s2);
          (result, d.bytes + more, s3)
  }

  /** One turn of the loop. */
  lemma RecvTurn(s: Stream)
    ensures var (r, s1) := Readx(s, SYNC_HEADER);
            if !r.Done? then Recv(s) == (if r.Overrun? then BufferOverrun else Lost, [], s1)
            else
              && |r.bytes| == SYNC_HEADER
              && var id, size := Id(r.bytes), Size(r.bytes);
                if id == ID_DONE then Recv(s) == (Complete, [], s1)
                else if id != ID_DATA then Recv(s) == (NotData, [], s1)
                else if SYNC_DATA_MAX < size < 0x8000_0000 then Recv(s) == (DataTooLong, [], s1)
                else
                  var (d, s2) := Readx(s1, size);
                  if !d.Done? then Recv(s) == (if d.Overrun? then BufferOverrun else Lost, [], s2)
                  else
                    && |s2.arrivals| <= |s.arrivals|
                    && (|s2.arrivals| < |s.arrivals| || |LeftBytes(s2)| < |LeftBytes(s)|)
                    && Recv(s) == (Recv(s2).0, d.bytes + Recv(s2).1, Recv(s2).2)
  {
    hide Readx, Id, Size, LeftBytes;
    var (r, s1) := Readx(s, SYNC_HEADER);
    if r.Done? {
      ReadxRefines(s, SYNC_HEADER);
      var size := Size(r.bytes);
      var (d, s2) := Readx(s1, size);
      if d.Done? {
        Shrinks(s, s1, s2, size);
      }
    }
  }

  lemma Shrinks(s: Stream, s1: Stream, s2: Stream, size: nat)
    requires Readx(s, SYNC_HEADER).0.Done? && s1 == Readx(s, SYNC_HEADER).1
    requires Readx(s1, size).0.Done? && s2 == Readx(s1, size).1
    ensures |s2.arrivals| <= |s.arrivals|
    ensures |s2.arrivals| < |s.arrivals| || |LeftBytes(s2)| < |LeftBytes(s)|
  {
  }

  /** Whatever it returns, sync_recv has answered each WRTE packet it consumed once. */
  lemma {:induction false} RecvAnswers(s: Stream)
    ensures Answered(s, Recv(s).2)
    decreases |s.arrivals|, |LeftBytes(s)|
  {
    hide Readx, Id, Size, LeftBytes, Recv, Answered;
    RecvTurn(s);
    ReadxAnswers(s, SYNC_HEADER);
    var (r, s1) := Readx(s, SYNC_HEADER);
    if r.Done? {
      var id, size := Id(r.bytes), Size(r.bytes);
      if id == ID_DATA && id != ID_DONE && !(SYNC_DATA_MAX < size < 0x8000_0000) {
        ReadxAnswers(s1, size);
        var (d, s2) := Readx(s1, size);
        AnsweredCompose(s, s1, s2);
        if d.Done? {
          RecvAnswers(s2);
          AnsweredCompose(s, s2, Recv(s2).2);
        }
      }
    }
  }

  // ------------------------------------------------------------------ round trip

  /** The packets to come start with these payloads, with any number of OKAY packets before each. */
  predicate Brings(arrivals: seq<Incoming>, payloads: seq<seq<byte>>)
    decreases |arrivals|
  {
    payloads == [] || (arrivals != [] &&
      if Command(arrivals[0]) == A_OKAY then Brings(arrivals[1..], payloads)
      else
        && Command(arrivals[0]) == A_WRTE
        && Length(arrivals[0]) == |payloads[0]| <= MAX_PAYLOAD
        && Data(arrivals[0])[..|payloads[0]|] == payloads[0]
        && Brings(arrivals[1..], payloads[1..]))
  }

  /** The packets are cut so that no unit straddles two of them, nor begins where only an empty packet is to come. */
  predicate Cut(left: seq<byte>, payloads: seq<seq<byte>>, units: seq<seq<byte>>)
    decreases |units|
  {
    if units == [] then payloads == [] && left == []
    else if left == [] then
      payloads != [] && units[0] <= payloads[0] && Cut(payloads[0][|units[0]|..], payloads[1..], units[1..])
    else units[0] <= left && Cut(left[|units[0]|..], payloads, units[1..])
  }

  /** What sync_recv reads, one read after another. */
  function Units(chunks: seq<Chunk>, mtime: nat): seq<seq<byte>>
    requires mtime < TWO32
  {
    if chunks == [] then [SyncMessage(ID_DONE, mtime)]
    else [SyncMessage(ID_DATA, |chunks[0]|), chunks[0]] + Units(chunks[1..], mtime)
  }

  /** The stream's buffer is never an empty packet. */
  predicate Tidy(s: Stream) {
    s.left.Some? ==> s.left.value != []
  }

  /** How the stream and the payloads to come stand when so many units are still to be read. */
  predicate Ready(s: Stream, payloads: seq<seq<byte>>, units: seq<seq<byte>>) {
    Tidy(s) && Brings(s.arrivals, payloads) && Cut(LeftBytes(s), payloads, units)
  }

  lemma {:induction false} FetchBrings(s: Stream, payloads: seq<seq<byte>>)
    requires payloads != [] && Brings(s.arrivals, payloads)
    ensures var (a, s1) := Fetch(s);
            && a.Some? && Length(a.value) == |payloads[0]| <= MAX_PAYLOAD
            && Data(a.value)[..|payloads[0]|] == payloads[0]
            && Brings(s1.arrivals, payloads[1..])
            && s1 == s.(arrivals := s1.arrivals, sent := s.sent + [s.okay])
    decreases |s.arrivals|
  {
    hide Possible, Command, Length, Data;
    if Command(s.arrivals[0]) == A_OKAY {
      FetchBrings(s.(arrivals := s.arrivals[1..]), payloads);
    }
  }

  /** Handing out the first unit of a buffer. */
  lemma HandOutUnit(s: Stream, data: seq<byte>, left: seq<byte>, unit: seq<byte>)
    requires unit <= left && |left| <= |data| && data[..|left|] == left
    ensures HandOut(s, data, |left|, |unit|) ==
            (Done(unit), s.(left := if |unit| < |left| then Some(left[|unit|..]) else None))
  {
    assert data[|unit|..|left|] == left[|unit|..];
    assert data[..|unit|] == unit;
  }

  lemma ReadUnit(s: Stream, payloads: seq<seq<byte>>, units: seq<seq<byte>>) returns (rest: seq<seq<byte>>)
    requires units != [] && Ready(s, payloads, units)
    ensures var (r, s1) := Readx(s, |units[0]|);
            && r == Done(units[0])
            && Ready(s1, rest, units[1..])
            && |rest| <= |payloads|
            && s1.okay == s.okay && s1.sent == s.sent + Repeat(s.okay, |payloads| - |rest|)
  {
    hide Possible, Command, Length, Data, HandOut, Fetch, Brings;
    var unit := units[0];
    if s.left.Some? {
      rest := payloads;
      var left := s.left.value;
      TakeAll(left);
      HandOutUnit(s, left, left, unit);
      assert |unit| == |left| ==> left[|unit|..] == [];
      RepeatOnce(s.okay);
      EmptyUnit(s.sent);
    } else {
      rest := payloads[1..];
      var left := payloads[0];
      FetchBrings(s, payloads);
      assert |unit| == |left| ==> left[|unit|..] == [];
      var (a, s1) := Fetch(s);
      HandOutUnit(s1, Data(a.value), left, unit);
      RepeatOnce(s.okay);
    }
  }

  /** Chunks of a file, and then a message of any kind with anything behind it. */
  function UnitsThen(chunks: seq<Chunk>, id: nat, size: nat, more: seq<seq<byte>>): seq<seq<byte>>
    requires id < TWO32 && size < TWO32
  {
    if chunks == [] then [SyncMessage(id, size)] + more
    else [SyncMessage(ID_DATA, |chunks[0]|), chunks[0]] + UnitsThen(chunks[1..], id, size, more)
  }

  /** What a message other than a sound DATA makes of the transfer; the length is read as a signed number. */
  function Ending(id: nat, size: nat): RecvResult
    requires id != ID_DATA || SYNC_DATA_MAX < size < 0x8000_0000
  {
    if id == ID_DONE then Complete else if id == ID_DATA then DataTooLong else NotData
  }

  /**
   After any chunks, the first message that is no sound DATA ends the transfer with the chunks so far in the file:
   well after DONE, otherwise with the error for it; what is behind it is left alone.
   */
  lemma {:induction false} RecvEnds(s: Stream, payloads: seq<seq<byte>>, chunks: seq<Chunk>, id: nat, size: nat, more: seq<seq<byte>>)
    returns (rest: seq<seq<byte>>)
    requires id < TWO32 && size < TWO32 && (id != ID_DATA || SYNC_DATA_MAX < size < 0x8000_0000)
    requires Ready(s, payloads, UnitsThen(chunks, id, size, more))
    ensures var (result, content, s') := Recv(s);
            && result == Ending(id, size) && content == Joined(chunks)
            && Ready(s', rest, more) && |rest| <= |payloads|
            && s'.okay == s.okay && s'.sent == s.sent + Repeat(s.okay, |payloads| - |rest|)
    decreases |chunks|
  {
    hide Readx, Ready, SyncMessage, Id, Size;
    var units := UnitsThen(chunks, id, size, more);
    var rest1 := ReadUnit(s, payloads, units);
    var (r, s1) := Readx(s, SYNC_HEADER);
    if chunks == [] {
      SyncMessageBack(id, size);
      assert units[1..] == more;
      rest := rest1;
    } else {
      SyncMessageBack(ID_DATA, |chunks[0]|);
      assert units[1..][0] == chunks[0];
      var rest2 := ReadUnit(s1, rest1, units[1..]);
      var (d, s2) := Readx(s1, |chunks[0]|);
      assert units[1..][1..] == UnitsThen(chunks[1..], id, size, more);
      rest := RecvEnds(s2, rest2, chunks[1..], id, size, more);
      CountOnce(s.sent, s.okay, |payloads| - |rest1|, |rest1| - |rest2|, |rest2| - |rest|);
    }
  }

  /**
   A DATA whose length is negative as a signed number passes the check of its length; the read that follows is
   refused, as no packet holds so much.
   */
  lemma NegativeLengthLost(s: Stream, payloads: seq<seq<byte>>, size: nat, more: seq<seq<byte>>)
    requires 0x8000_0000 <= size < TWO32 && Ready(s, payloads, [SyncMessage(ID_DATA, size)] + more)
    requires (forall a :: a in s.arrivals ==> Length(a) <= MAX_PAYLOAD) && |LeftBytes(s)| <= MAX_PAYLOAD
    ensures Recv(s).0 == Lost && Recv(s).1 == []
  {
    hide Readx, Ready, SyncMessage, Id, Size, Possible, Length, Recv;
    var units := [SyncMessage(ID_DATA, size)] + more;
    var rest := ReadUnit(s, payloads, units);
    ReadxAnswers(s, SYNC_HEADER);
    SyncMessageBack(ID_DATA, size);
    var (r, s1) := Readx(s, SYNC_HEADER);
    RecvTurn(s);
    LeftShort(s, SYNC_HEADER);
    TooLongRefused(s1, size);
  }

  /** What is kept is never more than a packet holds. */
  lemma LeftShort(s: Stream, len: nat)
    requires |LeftBytes(s)| <= MAX_PAYLOAD
    ensures |LeftBytes(Readx(s, len).1)| <= MAX_PAYLOAD
  {
    hide Possible, Fetch, Length;
    if s.left.None? {
      FetchAnswers(s);
    }
  }

  lemma {:induction false} TooLongRefused(s: Stream, len: nat)
    requires len > MAX_PAYLOAD && (forall a :: a in s.arrivals ==> Length(a) <= MAX_PAYLOAD)
    requires |LeftBytes(s)| <= MAX_PAYLOAD
    ensures Readx(s, len).0 == Refused
    decreases |s.arrivals|
  {
    hide Possible, Command, Length;
    if s.left.None? && s.arrivals != [] && Command(s.arrivals[0]) == A_OKAY {
      TooLongRefused(s.(arrivals := s.arrivals[1..]), len);
    }
  }

  /** A WRTE that claims more than a packet holds makes the code copy past its end. */
  lemma OversizedOverruns(s: Stream, k: nat)
    requires s.left.None? && k < |s.arrivals| && (forall i :: 0 <= i < k ==> Command(s.arrivals[i]) == A_OKAY)
    requires Command(s.arrivals[k]) == A_WRTE && Length(s.arrivals[k]) > MAX_PAYLOAD
    ensures Recv(s).0 == BufferOverrun
  {
    hide Readx, Possible, Command, Length, Recv;
    ReadxDecided(s, SYNC_HEADER, k);
    RecvTurn(s);
  }

  lemma {:induction false} UnitsAre(chunks: seq<Chunk>, mtime: nat)
    requires mtime < TWO32
    ensures Units(chunks, mtime) == UnitsThen(chunks, ID_DONE, mtime, [])
  {
    if chunks != [] {
      UnitsAre(chunks[1..], mtime);
    }
  }

  /** However the sender packs its messages, as long as none straddles two packets, the file is rebuilt exactly. */
  lemma RecvRebuilds(s: Stream, payloads: seq<seq<byte>>, chunks: seq<Chunk>, mtime: nat)
    requires mtime < TWO32 && Ready(s, payloads, Units(chunks, mtime))
    ensures var (result, content, s') := Recv(s);
            && result == Complete && content == Joined(chunks)
            && s'.okay == s.okay && s'.sent == s.sent + Repeat(s.okay, |payloads|)
            && s'.left == None
  {
    hide Recv, Ready;
    UnitsAre(chunks, mtime);
    var rest := RecvEnds(s, payloads, chunks, ID_DONE, mtime, []);
    NothingLeft(Recv(s).2, rest);
  }

  lemma NothingLeft(s: Stream, payloads: seq<seq<byte>>)
    requires Ready(s, payloads, [])
    ensures s.left == None && payloads == []
  {
  }

  lemma CountOnce<T>(sent: seq<T>, x: T, a: nat, b: nat, c: nat)
    ensures sent + Repeat(x, a) + Repeat(x, b) + Repeat(x, c) == sent + Repeat(x, a + b + c)
  {
    RepeatAppend(x, a, b);
    RepeatAppend(x, a + b, c);
    Assoc(sent, Repeat(x, a), Repeat(x, b));
    Assoc(sent, Repeat(x, a + b), Repeat(x, c));
  }

  // ------------------------------------------------------------------ and no other packing will do

  /** The last piece has something in it; empty ones may come before. */
  predicate EndsFull(pieces: seq<seq<byte>>) {
    pieces != [] ==> pieces[|pieces| - 1] != []
  }

  /** Both sides see the same bytes to come, cut into packets here and into units there. */
  predicate Aligned(s: Stream, payloads: seq<seq<byte>>, units: seq<seq<byte>>) {
    && Tidy(s) && Brings(s.arrivals, payloads) && EndsFull(payloads)
    && LeftBytes(s) + Joined(payloads) == Joined(units)
  }

  /** The unit is the front of what is at hand, if it is not longer. */
  lemma UnitInFront(left: seq<byte>, more: seq<byte>, unit: seq<byte>, rest: seq<byte>)
    requires left + more == unit + rest && |unit| <= |left|
    ensures unit <= left && left[|unit|..] + more == rest
  {
    assert left[..|unit|] == (left + more)[..|unit|] == unit;
    Split(left, |unit|);
    Assoc(unit, left[|unit|..], more);
    Skip(unit, left[|unit|..] + more);
    Skip(unit, rest);
  }

  /** Reading a unit from the bytes at hand. */
  lemma TakeUnit(s: Stream, data: seq<byte>, left: seq<byte>, payloads: seq<seq<byte>>, units: seq<seq<byte>>)
    requires units != [] && |left| <= |data| && data[..|left|] == left
    requires Brings(s.arrivals, payloads) && EndsFull(payloads) && left + Joined(payloads) == Joined(units)
    ensures var (r, s1) := HandOut(s, data, |left|, |units[0]|);
            if r.Done? then
              && r.bytes == units[0] && units[0] <= left
              && Aligned(s1, payloads, units[1..]) && LeftBytes(s1) == left[|units[0]|..]
            else r.Refused? && !(units[0] <= left)
  {
    hide Brings, EndsFull, Joined;
    var unit := units[0];
    JoinedUnfold(units);
    if |unit| <= |left| {
      UnitInFront(left, Joined(payloads), unit, Joined(units[1..]));
      HandOutUnit(s, data, left, unit);
      assert |unit| == |left| ==> left[|unit|..] == [];
    }
  }

  lemma JoinedUnfold(pieces: seq<seq<byte>>)
    requires pieces != []
    ensures Joined(pieces) == pieces[0] + Joined(pieces[1..])
  {
  }

  lemma {:induction false} JoinedNotEmpty(pieces: seq<seq<byte>>)
    requires pieces != [] && EndsFull(pieces)
    ensures Joined(pieces) != [] && EndsFull(pieces[1..])
    decreases |pieces|
  {
    if |pieces| > 1 {
      JoinedNotEmpty(pieces[1..]);
    }
  }

  /** One read either takes the unit and keeps both sides aligned, or is refused, and then the packing was wrong. */
  lemma ReadAligned(s: Stream, payloads: seq<seq<byte>>, units: seq<seq<byte>>) returns (rest: seq<seq<byte>>)
    requires units != [] && Aligned(s, payloads, units) && EndsFull(units)
    ensures EndsFull(units[1..])
    ensures var (r, s1) := Readx(s, |units[0]|);
            && (r.Done? ==>
                  && r.bytes == units[0] && Aligned(s1, rest, units[1..])
                  && (Cut(LeftBytes(s), payloads, units) <==> Cut(LeftBytes(s1), rest, units[1..])))
            && (!r.Done? ==> r.Refused? && !Cut(LeftBytes(s), payloads, units))
  {
    hide Possible, Command, Length, Data, HandOut, Fetch, Brings, Joined, EndsFull;
    JoinedNotEmpty(units);
    if s.left.Some? {
      rest := payloads;
      var left := s.left.value;
      TakeAll(left);
      TakeUnit(s, left, left, payloads, units);
    } else {
      NothingAtHand(payloads, units);
      rest := payloads[1..];
      var left := payloads[0];
      FetchBrings(s, payloads);
      var (a, s1) := Fetch(s);
      EmptyUnit(Joined(payloads));
      JoinedUnfold(payloads);
      JoinedNotEmpty(payloads);
      TakeUnit(s1, Data(a.value), left, rest, units);
    }
  }

  lemma NothingAtHand(payloads: seq<seq<byte>>, units: seq<seq<byte>>)
    requires [] + Joined(payloads) == Joined(units) && Joined(units) != []
    ensures payloads != []
  {
  }

  function Lengths(units: seq<seq<byte>>): seq<nat> {
    if units == [] then [] else [|units[0]|] + Lengths(units[1..])
  }

  /** Reads that ask for the stream piece by piece all succeed exactly if no piece straddles two packets. */
  lemma {:induction false} ReadsIffCut(s: Stream, payloads: seq<seq<byte>>, units: seq<seq<byte>>)
    requires Aligned(s, payloads, units) && EndsFull(units)
    ensures Reads(s, Lengths(units)).0 <==> Cut(LeftBytes(s), payloads, units)
    ensures Reads(s, Lengths(units)).0 ==> Reads(s, Lengths(units)).1 == Joined(units)
    decreases |units|
  {
    hide Readx, Aligned, Cut, LeftBytes;
    if units == [] {
      AllTaken(s, payloads);
    } else {
      JoinedUnfold(units);
      assert Lengths(units)[0] == |units[0]| && Lengths(units)[1..] == Lengths(units[1..]);
      var rest := ReadAligned(s, payloads, units);
      var (r, s1) := Readx(s, |units[0]|);
      if r.Done? {
        ReadsIffCut(s1, rest, units[1..]);
      }
    }
  }

  lemma {:induction false} UnitsEndFull(chunks: seq<Chunk>, mtime: nat)
    requires mtime < TWO32
    ensures Units(chunks, mtime) != [] && EndsFull(Units(chunks, mtime))
    decreases |chunks|
  {
    hide SyncMessage;
    if chunks != [] {
      UnitsEndFull(chunks[1..], mtime);
    }
  }

  lemma AllTaken(s: Stream, payloads: seq<seq<byte>>)
    requires Aligned(s, payloads, [])
    ensures Cut(LeftBytes(s), payloads, [])
  {
    if payloads != [] {
      JoinedNotEmpty(payloads);
    }
  }

  /**
   sync_recv rebuilds a file exactly if no message of it straddles two packets: whatever the packets, empty ones
   among them, as long as the bytes in them are those of the messages.
   */
  lemma {:induction false} RecvIffCut(s: Stream, payloads: seq<seq<byte>>, chunks: seq<Chunk>, mtime: nat)
    requires mtime < TWO32 && Aligned(s, payloads, Units(chunks, mtime))
    ensures Recv(s).0 == Complete <==> Cut(LeftBytes(s), payloads, Units(chunks, mtime))
    ensures Recv(s).0 == Complete ==> Recv(s).1 == Joined(chunks)
    ensures Recv(s).0 != Complete ==> Recv(s).0 == Lost
    decreases |chunks|
  {
    hide Readx, Aligned, SyncMessage, Id, Size, Cut, LeftBytes, EndsFull;
    var units := Units(chunks, mtime);
    UnitsEndFull(chunks, mtime);
    var rest := ReadAligned(s, payloads, units);
    var (r, s1) := Readx(s, SYNC_HEADER);
    if r.Done? {
      if chunks == [] {
        SyncMessageBack(ID_DONE, mtime);
        assert units[1..] == [];
        AllTaken(s1, rest);
      } else {
        SyncMessageBack(ID_DATA, |chunks[0]|);
        assert units[1..][0] == chunks[0] && units[1..][1..] == Units(chunks[1..], mtime);
        var rest2 := ReadAligned(s1, rest, units[1..]);
        var (d, s2) := Readx(s1, |chunks[0]|);
        if d.Done? {
          RecvIffCut(s2, rest2, chunks[1..], mtime);
        }
      }
    }
  }

  /** The packets write_data_buffer makes, and the DONE after them, are cut that way. */
  lemma {:induction false} SentIsCut(chunks: seq<Chunk>, mtime: nat)
    requires mtime < TWO32 && NoneEmpty(chunks)
    ensures Cut([], DataPayloads(chunks) + [SyncMessage(ID_DONE, mtime)], Units(chunks, mtime))
    decreases |chunks|
  {
    hide SyncMessage;
    var done := SyncMessage(ID_DONE, mtime);
    var payloads := DataPayloads(chunks) + [done];
    if chunks == [] {
      assert payloads[1..] == [] && done[|done|..] == [];
      assert Cut([], [], []);
      assert Cut(done, [], [done]);
    } else {
      SentIsCut(chunks[1..], mtime);
      var head := SyncMessage(ID_DATA, |chunks[0]|);
      var units := Units(chunks, mtime);
      var more := DataPayloads(chunks[1..]) + [done];
      assert payloads[0] == head + chunks[0] && payloads[1..] == more;
      Skip(head, chunks[0]);
      assert units[1..][0] == chunks[0] && units[1..][1..] == Units(chunks[1..], mtime);
      ChunkCut(chunks[0], more, units[1..]);
    }
  }

  /** A non-empty chunk at the end of its packet; an empty one would have to wait for the next packet. */
  lemma ChunkCut(chunk: seq<byte>, more: seq<seq<byte>>, units: seq<seq<byte>>)
    requires units != [] && units[0] == chunk && Cut([], more, units[1..])
    requires chunk != []
    ensures Cut(chunk, more, units)
  {
    assert chunk[|chunk|..] == [];
  }

  /** A file sent by write_data_buffer and DONE, in packets with OKAYs anywhere between, is received as it was. */
  lemma FileRoundTrip(s: Stream, content: seq<byte>, mtime: nat)
    requires mtime < TWO32 && s.left == None
    requires Brings(s.arrivals, DataPayloads(Chunks(content)) + [SyncMessage(ID_DONE, mtime)])
    ensures var (result, got, s') := Recv(s);
            && result == Complete && got == content && s'.left == None
            && s'.sent == s.sent + Repeat(s.okay, |Chunks(content)| + 1)
  {
    hide Recv, Brings, Cut;
    var chunks := Chunks(content);
    ChunksTile(content);
    SentIsCut(chunks, mtime);
    RecvRebuilds(s, DataPayloads(chunks) + [SyncMessage(ID_DONE, mtime)], chunks, mtime);
    OnePayloadEach(chunks);
  }

  lemma {:induction false} OnePayloadEach(chunks: seq<Chunk>)
    ensures |DataPayloads(chunks)| == |chunks|
    decreases |chunks|
  {
    if chunks != [] {
      OnePayloadEach(chunks[1..]);
    }
  }
}
