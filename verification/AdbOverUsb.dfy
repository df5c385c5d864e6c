/**
 The layers of the ADB connection put together: a file sent as packets over one machine's USB pipe and
 received from another's.
 */
module AdbOverUsb {
  import opened Bytes
  import opened Seqs
  import opened Usb
  import opened UsbPacket
  import opened AdbStream
  import opened AdbSync

  /** One call of read_packet. */
  function ReadPacket(p: Pipe, r: Raw): (Incoming, Pipe)
    requires Sized(r)
  {
    var (ok, r1, p1) := RemoteRead(p, r);
    (Taken(ok, r1), p1)
  }

  function Taken(ok: bool, r: Raw): Incoming
    requires Sized(r) && (ok ==> Field(r.msg, DATA_LENGTH) <= MAX_PAYLOAD)
  {
    Arrival(ok, r)
  }

  /** What a packet of sensible length says. */
  function Meaning(a: Incoming): (m: Packet)
    requires Length(a) <= MAX_PAYLOAD
    ensures m.command == Command(a) && m.payload == Data(a)[..Length(a)]
  {
    Received(a.raw)
  }

  /** What n calls of remote_read deliver, each into memory that holds r. */
  function Arrivals(p: Pipe, r: Raw, n: nat): (s: seq<Incoming>)
    requires Sized(r)
    ensures |s| == n
    decreases n
  {
    if n == 0 then []
    else
      var (a, p1) := ReadPacket(p, r);
      [a] + Arrivals(p1, r, n - 1)
  }

  /** The packets say what the messages say. */
  predicate Says(arrivals: seq<Incoming>, ms: seq<Packet>) {
    |arrivals| == |ms| && forall i :: 0 <= i < |ms| ==>
      Length(arrivals[i]) <= MAX_PAYLOAD && Meaning(arrivals[i]) == ms[i]
  }

  lemma SaysCons(a: Incoming, arrivals: seq<Incoming>, ms: seq<Packet>)
    requires ms != [] && Length(a) <= MAX_PAYLOAD && Meaning(a) == ms[0] && Says(arrivals, ms[1..])
    ensures Says([a] + arrivals, ms)
  {
    hide Meaning, Length, Possible;
    forall i | 0 <= i < |ms|
      ensures Length(([a] + arrivals)[i]) <= MAX_PAYLOAD && Meaning(([a] + arrivals)[i]) == ms[i]
    {
      if i > 0 {
        assert ([a] + arrivals)[i] == arrivals[i - 1] && ms[i] == ms[1..][i - 1];
      }
    }
  }

  lemma FirstArrives(p: Pipe, r: Raw, ms: seq<Packet>, rest: seq<byte>)
    requires Sized(r) && ms != [] && p.incoming == Encodings(ms) + rest && ReadAll(p, r, |ms|).0
    ensures var (a, p1) := ReadPacket(p, r);
            && Length(a) <= MAX_PAYLOAD && Meaning(a) == ms[0]
            && p1.incoming == Encodings(ms[1..]) + rest && ReadAll(p1, r, |ms| - 1).0
  {
    hide Encode, RemoteRead, Arrives, Received, Encodings, ReadAll, Header, Field, Possible;
    FirstEncoding(ms, rest);
    AcceptsEncoding(p, r, ms[0], Encodings(ms[1..]) + rest);
    ReadAllStep(p, r, |ms|);
  }

  lemma {:induction false} ArrivalsSay(p: Pipe, r: Raw, ms: seq<Packet>, rest: seq<byte>)
    requires Sized(r) && p.incoming == Encodings(ms) + rest && ReadAll(p, r, |ms|).0
    ensures Says(Arrivals(p, r, |ms|), ms)
    decreases |ms|
  {
    hide Encodings, ReadAll, ReadPacket, Meaning, Length, Possible;
    if ms != [] {
      FirstArrives(p, r, ms, rest);
      var (a, p1) := ReadPacket(p, r);
      ArrivalsSay(p1, r, ms[1..], rest);
      SaysCons(a, Arrivals(p1, r, |ms| - 1), ms);
    }
  }

  /** Messages that carry these payloads in WRTE packets, with any number of OKAYs between. */
  predicate Carries(ms: seq<Packet>, payloads: seq<seq<byte>>)
    decreases |ms|
  {
    payloads == [] || (ms != [] &&
      if ms[0].command == A_OKAY then Carries(ms[1..], payloads)
      else ms[0].command == A_WRTE && ms[0].payload == payloads[0] && Carries(ms[1..], payloads[1..]))
  }

  lemma {:induction false} SaidIsBrought(arrivals: seq<Incoming>, ms: seq<Packet>, payloads: seq<seq<byte>>)
    requires Says(arrivals, ms) && Carries(ms, payloads)
    ensures Brings(arrivals, payloads)
    decreases |ms|
  {
    hide Possible, Command, Length, Data, Meaning;
    if payloads != [] {
      assert Meaning(arrivals[0]) == ms[0];
      if ms[0].command == A_OKAY {
        SaidIsBrought(arrivals[1..], ms[1..], payloads);
      } else {
        SaidIsBrought(arrivals[1..], ms[1..], payloads[1..]);
      }
    }
  }

  /**
   End to end: the packets of a file go out through one pipe and come in through another, each cut into
   transfers as it pleases; if no transfer fails, sync_recv rebuilds the file.
   */
  lemma FileOverUsb(w: Pipe, mask: bv32, q: Pipe, r: Raw, ms: seq<Packet>, content: seq<byte>, mtime: nat, okay: Packet)
    requires mtime < 0x1_0000_0000 && Sized(r) && w.sent == []
    requires Carries(ms, DataPayloads(Chunks(content)) + [SyncMessage(ID_DONE, mtime)])
    requires SendAll(w, mask, ms).0 && q.incoming == SendAll(w, mask, ms).1.sent && ReadAll(q, r, |ms|).0
    ensures var (result, got, _) := Recv(Stream(Arrivals(q, r, |ms|), None, [], okay));
            result == Complete && got == content
  {
    hide Recv, SendAll, ReadAll, Carries, Arrivals, Says, Brings, Chunks, DataPayloads;
    var s := Stream(Arrivals(q, r, |ms|), None, [], okay);
    SendAllIff(w, mask, ms);
    EmptyUnit(Encodings(ms));
    ArrivalsSay(q, r, ms, []);
    SaidIsBrought(s.arrivals, ms, DataPayloads(Chunks(content)) + [SyncMessage(ID_DONE, mtime)]);
    FileRoundTrip(s, content, mtime);
  }

  /**
   A WRTE packet with one payload octet changed on the way is refused by its checksum, and all the same readx
   hands its damaged payload on as data.
   */
  lemma DamageDelivered(p: Pipe, r: Raw, m: Packet, at: nat, b: byte, rest: seq<byte>, s: Stream)
    requires Sized(r) && at < |m.payload| && b != m.payload[at] && m.command == A_WRTE
    requires p.incoming == Header(m) + m.payload[at := b] + rest && Arrives(p, |m.payload|)
    requires s.left == None && s.arrivals != [] && s.arrivals[0] == ReadPacket(p, r).0
    ensures !ReadPacket(p, r).0.ok
    ensures Readx(s, |m.payload|).0 == Done(m.payload[at := b])
  {
    hide RemoteRead, Arrives, Header, Field, WellFormed;
    OneOctetDamageRefused(p, r, m, at, b, rest);
    DamagedLeftInMemory(p, r, m, m.payload[at := b], rest);
    HeaderFields(m);
    FirstWrite(s, m.payload[at := b]);
  }

  lemma FirstWrite(s: Stream, payload: seq<byte>)
    requires s.left == None && s.arrivals != [] && Command(s.arrivals[0]) == A_WRTE
    requires Length(s.arrivals[0]) == |payload| <= MAX_PAYLOAD && Data(s.arrivals[0])[..|payload|] == payload
    ensures Readx(s, |payload|).0 == Done(payload)
  {
    hide Possible, Command, Length, Data;
  }
}
