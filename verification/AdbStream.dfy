/**
 The byte stream that src/adbhost.cpp makes of ADB packets: readx with its leftover buffer, the receiving
 loop of sync_recv, and the shell response, each as a function of the packets that arrive.
 */
module AdbStream {
  import opened Bytes
  import opened Seqs
  import opened UsbPacket

  const A_OKAY: nat := 0x59414b4f
  const A_CLSE: nat := 0x45534c43
  const A_WRTE: nat := 0x45545257

  /** One call of read_packet: its verdict and the packet it leaves in memory. */
  datatype Arrival = Arrival(ok: bool, raw: Raw)

  /** A failed read may leave anything; a successful one has passed check_header. */
  predicate Possible(a: Arrival) {
    Sized(a.raw) && (a.ok ==> Field(a.raw.msg, DATA_LENGTH) <= MAX_PAYLOAD)
  }

  type Incoming = a: Arrival | Possible(a) witness Arrival(false, Raw(seq(HEADER, _ => 0), seq(MAX_PAYLOAD, _ => 0)))

  function Command(a: Incoming): nat {
    Field(a.raw.msg, COMMAND)
  }

  function Length(a: Incoming): (n: nat)
    ensures a.ok ==> n <= MAX_PAYLOAD
  {
    Field(a.raw.msg, DATA_LENGTH)
  }

  function Data(a: Incoming): (s: seq<byte>)
    ensures |s| == MAX_PAYLOAD
  {
    a.raw.data
  }

  /** What the packet's length and data say, if they make sense. */
  function Payload(a: Incoming): (s: seq<byte>)
    ensures |s| <= MAX_PAYLOAD
  {
    if Length(a) <= MAX_PAYLOAD then Data(a)[..Length(a)] else []
  }

  /** The host's end: packets to come, the packet buffer, and the packets sent. */
  datatype Stream = Stream(arrivals: seq<Incoming>, left: Option<seq<byte>>, sent: seq<Packet>, okay: Packet)

  /** Overrun: the code copies past the end of the packet, which has no defined outcome. */
  datatype ReadResult = Done(bytes: seq<byte>) | Refused | Overrun

  /** Skip OKAY, answer WRTE with OKAY, give up on anything else. The verdict of the read is not consulted. */
  function Fetch(s: Stream): (r: (Option<Incoming>, Stream))
    ensures |r.1.arrivals| <= |s.arrivals| && (r.0.Some? ==> |r.1.arrivals| < |s.arrivals|)
    decreases |s.arrivals|
  {
    if s.arrivals == [] then (None, s)
    else
      var a := s.arrivals[0];
      var s1 := s.(arrivals := s.arrivals[1..]);
      if Command(a) == A_OKAY then Fetch(s1)
      else if Command(a) == A_WRTE then (Some(a), s1.(sent := s1.sent + [s1.okay]))
      else (None, s1)
  }

  /** Hand out len bytes of a packet that claims length bytes; what is over becomes the packet buffer. */
  function HandOut(s: Stream, data: seq<byte>, length: nat, len: nat): (ReadResult, Stream) {
    if len > length then (Refused, s.(left := None))
    else if length > |data| then (Overrun, s.(left := None))
    else (Done(data[..len]), s.(left := if len < length then Some(data[len..length]) else None))
  }

  function Readx(s: Stream, len: nat): (r: (ReadResult, Stream))
    ensures |r.1.arrivals| <= |s.arrivals| && (s.left.None? && !r.0.Refused? ==> |r.1.arrivals| < |s.arrivals|)
    ensures s.left.Some? ==> r.1.arrivals == s.arrivals
    ensures s.left.Some? && r.0.Done? && 0 < len ==> |LeftBytes(r.1)| < |LeftBytes(s)|
  {
    match s.left
    case Some(d) => HandOut(s, d, |d|, len)
    case None =>
      var (a, s1) := Fetch(s);
      if a.None? then (Refused, s1) else HandOut(s1, Data(a.value), Length(a.value), len)
  }

  function LeftBytes(s: Stream): seq<byte> {
    if s.left.Some? then s.left.value else []
  }

  /** Several reads in a row, while they succeed: the bytes returned, all together. */
  function Reads(s: Stream, lens: seq<nat>): (bool, seq<byte>, Stream)
    decreases |lens|
  {
    if lens == [] then (true, [], s)
    else
      var (r, s1) := Readx(s, lens[0]);
      if !r.Done? then (false, [], s1)
      else
        var (ok, more, s2) := Reads(s1, lens[1..]);
        (ok, r.bytes + more, s2)
  }

  // ------------------------------------------------------------------ readx refines a stream

  /** The payloads of the WRTE packets, in order. */
  function Written(arrivals: seq<Incoming>): seq<byte> {
    if arrivals == [] then []
    else (if Command(arrivals[0]) == A_WRTE then Payload(arrivals[0]) else []) + Written(arrivals[1..])
  }

  function Writes(arrivals: seq<Incoming>): nat {
    if arrivals == [] then 0 else (if Command(arrivals[0]) == A_WRTE then 1 else 0) + Writes(arrivals[1..])
  }

  predicate OnlyStream(arrivals: seq<Incoming>) {
    forall a :: a in arrivals ==> Command(a) == A_OKAY || Command(a) == A_WRTE
  }

  function Repeat<T>(x: T, n: nat): seq<T> {
    if n == 0 then [] else [x] + Repeat(x, n - 1)
  }

  lemma {:induction false} RepeatAppend<T>(x: T, m: nat, n: nat)
    ensures Repeat(x, m) + Repeat(x, n) == Repeat(x, m + n)
    decreases m
  {
    if m == 0 {
      EmptyUnit(Repeat(x, n));
    } else {
      RepeatAppend(x, m - 1, n);
      Assoc([x], Repeat(x, m - 1), Repeat(x, n));
    }
  }

  /** The step from s to s2 consumed some packets, turned their payloads into out, and answered each WRTE once. */
  ghost predicate Refines(s: Stream, out: seq<byte>, s2: Stream) {
    && |s2.arrivals| <= |s.arrivals|
    && var k := |s.arrivals| - |s2.arrivals|;
      && s2.arrivals == s.arrivals[k..]
      && OnlyStream(s.arrivals[..k])
      && out + LeftBytes(s2) == LeftBytes(s) + Written(s.arrivals[..k])
      && s2.okay == s.okay
      && s2.sent == s.sent + Repeat(s.okay, Writes(s.arrivals[..k]))
  }

  lemma {:induction false} WrittenAppend(a: seq<Incoming>, b: seq<Incoming>)
    ensures Written(a + b) == Written(a) + Written(b) && Writes(a + b) == Writes(a) + Writes(b)
    decreases |a|
  {
    hide Payload, Possible, Command;
    if a == [] {
      EmptyUnit(b);
      EmptyUnit(Written(b));
    } else {
      WrittenAppend(a[1..], b);
      Tail(a, b);
      Assoc(if Command(a[0]) == A_WRTE then Payload(a[0]) else [], Written(a[1..]), Written(b));
    }
  }

  lemma Tail<T>(a: seq<T>, b: seq<T>)
    requires a != []
    ensures (a + b)[0] == a[0] && (a + b)[1..] == a[1..] + b && a + b != []
  {
  }

  lemma Regroup<T>(s: seq<T>, j: nat, k: nat)
    requires j + k <= |s|
    ensures s[..j + k] == s[..j] + s[j..][..k] && s[j..][k..] == s[j + k..]
  {
  }

  lemma RefinesCompose(s: Stream, out: seq<byte>, s1: Stream, out1: seq<byte>, s2: Stream)
    requires Refines(s, out, s1) && Refines(s1, out1, s2)
    ensures Refines(s, out + out1, s2)
  {
    hide Written, Writes, LeftBytes, Possible;
    var j := |s.arrivals| - |s1.arrivals|;
    var k := |s1.arrivals| - |s2.arrivals|;
    var a, b := s.arrivals[..j], s1.arrivals[..k];
    Regroup(s.arrivals, j, k);
    WrittenAppend(a, b);
    RepeatAppend(s.okay, Writes(a), Writes(b));
    Assoc(s.sent, Repeat(s.okay, Writes(a)), Repeat(s.okay, Writes(b)));
    Assoc(out, out1, LeftBytes(s2));
    Assoc(out, LeftBytes(s1), Written(b));
    Assoc(LeftBytes(s), Written(a), Written(b));
  }

  /** What Fetch consumes before it returns a packet. */
  lemma {:induction false} FetchRefines(s: Stream)
    requires Fetch(s).0.Some?
    ensures var (a, s1) := Fetch(s);
            && |s1.arrivals| < |s.arrivals|
            && var k := |s.arrivals| - |s1.arrivals|;
              && s1 == s.(arrivals := s.arrivals[k..], sent := s.sent + [s.okay])
              && OnlyStream(s.arrivals[..k])
              && Written(s.arrivals[..k]) == Payload(a.value)
              && Writes(s.arrivals[..k]) == 1
    decreases |s.arrivals|
  {
    hide Possible, Payload, Command;
    var a0 := s.arrivals[0];
    var tail := s.arrivals[1..];
    if Command(a0) == A_OKAY {
      var t := s.(arrivals := tail);
      FetchRefines(t);
      var j := |tail| - |Fetch(t).1.arrivals|;
      Regroup(s.arrivals, 1, j);
      assert s.arrivals[..1] == [a0];
      WrittenAppend([a0], tail[..j]);
      assert Written([a0]) == [];
      EmptyUnit(Written(tail[..j]));
    } else {
      assert s.arrivals[..1] == [a0];
      EmptyUnit(Payload(a0));
      assert Written([a0]) == Payload(a0) + Written([]);
    }
  }

  lemma ReadxRefines(s: Stream, len: nat)
    requires Readx(s, len).0.Done?
    ensures Refines(s, Readx(s, len).0.bytes, Readx(s, len).1) && |Readx(s, len).0.bytes| == len
  {
    hide Fetch, Possible, Command, Length, Written, Writes;
    var (r, s2) := Readx(s, len);
    if s.left.Some? {
      Split(s.left.value, len);
      assert s.arrivals[..0] == [];
      NothingWritten();
      EmptyUnit(LeftBytes(s));
      EmptyUnit(s.sent);
    } else {
      FetchRefines(s);
      var (a, s1) := Fetch(s);
      var payload := Data(a.value)[..Length(a.value)];
      Split(payload, len);
      assert payload[..len] == r.bytes;
      EmptyUnit(payload);
      RepeatOnce(s.okay);
    }
  }

  lemma RepeatOnce<T>(x: T)
    ensures Repeat(x, 1) == [x] && Repeat(x, 0) == []
  {
  }

  lemma NothingWritten()
    ensures Written([]) == [] && Writes([]) == 0
  {
  }

  lemma NothingRefines(s: Stream)
    ensures Refines(s, [], s)
  {
    hide Written, Writes;
    NothingWritten();
    EmptyUnit(LeftBytes(s));
    EmptyUnit(s.sent);
    assert s.arrivals[..0] == [];
  }

  /** Any run of successful reads, of any lengths, returns the written stream in order, and answers each packet once. */
  lemma {:induction false} StreamRefinement(s: Stream, lens: seq<nat>)
    requires Reads(s, lens).0
    ensures Refines(s, Reads(s, lens).1, Reads(s, lens).2)
    decreases |lens|
  {
    hide Readx, Refines;
    if lens == [] {
      NothingRefines(s);
    } else {
      ReadxRefines(s, lens[0]);
      var (r, s1) := Readx(s, lens[0]);
      StreamRefinement(s1, lens[1..]);
      var (_, more, s2) := Reads(s1, lens[1..]);
      RefinesCompose(s, r.bytes, s1, more, s2);
    }
  }

  // ------------------------------------------------------------------ every outcome of a read

  /** From s to s2 some packets were consumed and each WRTE among them was answered once. */
  ghost predicate Answered(s: Stream, s2: Stream) {
    && |s2.arrivals| <= |s.arrivals|
    && var k := |s.arrivals| - |s2.arrivals|;
      && s2.arrivals == s.arrivals[k..] && s2.okay == s.okay
      && s2.sent == s.sent + Repeat(s.okay, Writes(s.arrivals[..k]))
  }

  lemma AnsweredCompose(s: Stream, s1: Stream, s2: Stream)
    requires Answered(s, s1) && Answered(s1, s2)
    ensures Answered(s, s2)
  {
    hide Written, Writes, Possible;
    var j := |s.arrivals| - |s1.arrivals|;
    var k := |s1.arrivals| - |s2.arrivals|;
    var a, b := s.arrivals[..j], s1.arrivals[..k];
    Regroup(s.arrivals, j, k);
    WrittenAppend(a, b);
    RepeatAppend(s.okay, Writes(a), Writes(b));
    Assoc(s.sent, Repeat(s.okay, Writes(a)), Repeat(s.okay, Writes(b)));
  }

  lemma OneConsumed(s: Stream, s1: Stream)
    requires s.arrivals != [] && s1.arrivals == s.arrivals[1..] && s1.okay == s.okay
    requires s1.sent == if Command(s.arrivals[0]) == A_WRTE then s.sent + [s.okay] else s.sent
    ensures Answered(s, s1)
  {
    hide Possible, Payload, Command;
    assert s.arrivals[..1] == [s.arrivals[0]] && [s.arrivals[0]][1..] == [];
    NothingWritten();
    RepeatOnce(s.okay);
    EmptyUnit(s.sent);
  }

  lemma NoneConsumed(s: Stream, s1: Stream)
    requires s1.arrivals == s.arrivals && s1.okay == s.okay && s1.sent == s.sent
    ensures Answered(s, s1)
  {
    assert s.arrivals[..0] == [] && s.arrivals[0..] == s.arrivals;
    NothingWritten();
    RepeatOnce(s.okay);
    EmptyUnit(s.sent);
  }

  lemma {:induction false} FetchAnswers(s: Stream)
    ensures Answered(s, Fetch(s).1) && Fetch(s).1.left == s.left
    decreases |s.arrivals|
  {
    hide Possible, Command, Answered;
    if s.arrivals == [] {
      NoneConsumed(s, s);
    } else {
      var s1 := s.(arrivals := s.arrivals[1..]);
      if Command(s.arrivals[0]) == A_OKAY {
        OneConsumed(s, s1);
        FetchAnswers(s1);
        AnsweredCompose(s, s1, Fetch(s1).1);
      } else {
        OneConsumed(s, Fetch(s).1);
      }
    }
  }

  /** Successful or not, a read answers each WRTE it consumes once, and nothing else. */
  lemma ReadxAnswers(s: Stream, len: nat)
    ensures Answered(s, Readx(s, len).1)
  {
    hide Fetch, Possible, Answered, Length;
    if s.left.Some? {
      NoneConsumed(s, Readx(s, len).1);
    } else {
      FetchAnswers(s);
      var s1 := Fetch(s).1;
      NoneConsumed(s1, Readx(s, len).1);
      AnsweredCompose(s, s1, Readx(s, len).1);
    }
  }

  /**
   A read into an empty buffer, told by the first packet that is no OKAY, number k: without one it fails; so it does
   if it is no WRTE, which is then consumed without an answer; a WRTE is answered, and its first bytes are returned
   and the others kept, unless more were asked for than it says it has, or it says it has more than a packet holds.
   */
  lemma {:induction false} ReadxDecided(s: Stream, len: nat, k: nat)
    requires s.left.None? && k <= |s.arrivals| && (forall i :: 0 <= i < k ==> Command(s.arrivals[i]) == A_OKAY)
    requires k < |s.arrivals| ==> Command(s.arrivals[k]) != A_OKAY
    ensures Readx(s, len) ==
            if k == |s.arrivals| then (Refused, s.(arrivals := []))
            else
              var a := s.arrivals[k];
              var rest := s.arrivals[k + 1..];
              if Command(a) != A_WRTE then (Refused, s.(arrivals := rest))
              else
                var s1 := s.(arrivals := rest, sent := s.sent + [s.okay]);
                if Length(a) < len then (Refused, s1)
                else if Length(a) > MAX_PAYLOAD then (Overrun, s1)
                else (Done(Payload(a)[..len]), s1.(left := if len < Length(a) then Some(Payload(a)[len..]) else None))
    decreases k
  {
    hide Possible, Command;
    if k == 0 {
      assert s.arrivals == [] ==> s == s.(arrivals := []);
      if s.arrivals != [] && Length(s.arrivals[0]) <= MAX_PAYLOAD && len <= Length(s.arrivals[0]) {
        var a := s.arrivals[0];
        assert Data(a)[..Length(a)][..len] == Data(a)[..len];
        assert Data(a)[..Length(a)][len..] == Data(a)[len..Length(a)];
      }
    } else {
      var t := s.(arrivals := s.arrivals[1..]);
      ReadxDecided(t, len, k - 1);
      assert k < |s.arrivals| ==> s.arrivals[1..][k..] == s.arrivals[k + 1..];
    }
  }

  // ------------------------------------------------------------------ the verdict that is not consulted

  /** The same packets in memory, whatever the reads reported. */
  predicate SameMemory(a: seq<Incoming>, b: seq<Incoming>) {
    |a| == |b| && forall i :: 0 <= i < |a| ==> a[i].raw == b[i].raw
  }

  /** readx gives the same answer whether or not read_packet failed: damaged packets are delivered as data. */
  lemma {:induction false} FailureIgnored(s: Stream, arrivals: seq<Incoming>, len: nat)
    requires SameMemory(s.arrivals, arrivals)
    ensures var t := s.(arrivals := arrivals);
            && Readx(t, len).0 == Readx(s, len).0
            && SameMemory(Readx(s, len).1.arrivals, Readx(t, len).1.arrivals)
            && Readx(t, len).1 == Readx(s, len).1.(arrivals := Readx(t, len).1.arrivals)
    decreases |arrivals|
  {
    hide Possible;
    if s.left.None? {
      FetchIgnores(s, arrivals);
    }
  }

  lemma {:induction false} FetchIgnores(s: Stream, arrivals: seq<Incoming>)
    requires SameMemory(s.arrivals, arrivals)
    ensures var (a, s1) := Fetch(s);
            var (b, t1) := Fetch(s.(arrivals := arrivals));
            && (a.Some? <==> b.Some?) && (a.Some? ==> a.value.raw == b.value.raw)
            && SameMemory(s1.arrivals, t1.arrivals) && t1 == s1.(arrivals := t1.arrivals)
    decreases |arrivals|
  {
    hide Possible, SameMemory, Command;
    var t := s.(arrivals := arrivals);
    SameMemoryTail(s.arrivals, arrivals);
    if s.arrivals != [] && Command(s.arrivals[0]) == A_OKAY {
      var s1 := s.(arrivals := s.arrivals[1..]);
      assert t.(arrivals := arrivals[1..]) == s1.(arrivals := arrivals[1..]);
      FetchIgnores(s1, arrivals[1..]);
    }
  }

  lemma SameMemoryTail(a: seq<Incoming>, b: seq<Incoming>)
    requires SameMemory(a, b)
    ensures |a| == |b|
    ensures a != [] ==> a[0].raw == b[0].raw && Command(a[0]) == Command(b[0]) && SameMemory(a[1..], b[1..])
  {
    hide Possible;
  }

  /** A read that would cross a packet boundary fails, and what was left of the packet is gone. */
  lemma CrossingLoses(s: Stream, len: nat)
    requires s.left.Some? && |s.left.value| < len
    ensures Readx(s, len) == (Refused, s.(left := None))
  {
  }

  // ------------------------------------------------------------------ the shell response

  /** handle_shell_response from some point on, with what it has so far: the response and the stream after it. */
  function Shell(s: Stream, data: seq<byte>): (seq<byte>, Stream)
    decreases |s.arrivals|
  {
    if s.arrivals == [] then (data, s)
    else
      var a := s.arrivals[0];
      var s1 := s.(arrivals := s.arrivals[1..]);
      if !a.ok then (data, s1)
      else if Command(a) == A_WRTE then Shell(s1.(sent := s1.sent + [s1.okay]), data + Payload(a))
      else if Command(a) == A_CLSE then (data, s1.(sent := s1.sent + [s1.okay]))
      else Shell(s1, data)
  }

  /** How many packets come before the one that ends the response: the first CLSE or failed read. */
  function ShellEnd(arrivals: seq<Incoming>): (n: nat)
    ensures n <= |arrivals|
  {
    if arrivals == [] || !arrivals[0].ok || Command(arrivals[0]) == A_CLSE then 0 else 1 + ShellEnd(arrivals[1..])
  }

  predicate Closed(arrivals: seq<Incoming>) {
    var e := ShellEnd(arrivals);
    e < |arrivals| && arrivals[e].ok && Command(arrivals[e]) == A_CLSE
  }

  /** The response is every payload up to the end; each WRTE and the CLSE are answered with one OKAY. */
  lemma {:induction false} ShellCollects(s: Stream, data: seq<byte>)
    ensures var (response, s') := Shell(s, data);
            var before := s.arrivals[..ShellEnd(s.arrivals)];
            && response == data + Written(before)
            && s' == s.(arrivals := s'.arrivals, sent := s.sent + Repeat(s.okay, Writes(before) + if Closed(s.arrivals) then 1 else 0))
    decreases |s.arrivals|
  {
    hide Possible, Command, Payload;
    var e := ShellEnd(s.arrivals);
    if e == 0 {
      assert s.arrivals[..0] == [];
      NothingWritten();
      EmptyUnit(data);
      EmptyUnit(s.sent);
      RepeatOnce(s.okay);
    } else {
      var a := s.arrivals[0];
      var tail := s.arrivals[1..];
      Regroup(s.arrivals, 1, e - 1);
      assert s.arrivals[..e] == [a] + tail[..e - 1];
      assert Closed(tail) == Closed(s.arrivals);
      if Command(a) == A_WRTE {
        ShellCollects(s.(arrivals := tail, sent := s.sent + [s.okay]), data + Payload(a));
        Assoc(data, Payload(a), Written(tail[..e - 1]));
        Assoc(s.sent, [s.okay], Repeat(s.okay, Writes(tail[..e - 1]) + if Closed(tail) then 1 else 0));
      } else {
        ShellCollects(s.(arrivals := tail), data);
        EmptyUnit(Written(tail[..e - 1]));
      }
    }
  }

  /** A response cut short by a failed read looks exactly like one the device closed. */
  lemma CutShortUnnoticed(s: Stream, data: seq<byte>, failed: Incoming, closing: Incoming, rest: seq<Incoming>)
    requires ShellEnd(s.arrivals) == |s.arrivals|
    requires !failed.ok && closing.ok && Command(closing) == A_CLSE
    ensures Shell(s.(arrivals := s.arrivals + [failed] + rest), data).0
            == Shell(s.(arrivals := s.arrivals + [closing] + rest), data).0 == data + Written(s.arrivals)
  {
    hide Shell;
    EndsAt(s.arrivals, failed, rest);
    EndsAt(s.arrivals, closing, rest);
    Assoc(s.arrivals, [failed], rest);
    Assoc(s.arrivals, [closing], rest);
    Skip(s.arrivals, [failed] + rest);
    Skip(s.arrivals, [closing] + rest);
    ShellCollects(s.(arrivals := s.arrivals + [failed] + rest), data);
    ShellCollects(s.(arrivals := s.arrivals + [closing] + rest), data);
  }

  lemma {:induction false} EndsAt(a: seq<Incoming>, last: Incoming, rest: seq<Incoming>)
    requires ShellEnd(a) == |a| && (!last.ok || Command(last) == A_CLSE)
    ensures ShellEnd(a + [last] + rest) == |a|
    decreases |a|
  {
    hide Possible, Command;
    Assoc(a, [last], rest);
    if a == [] {
      EmptyUnit([last] + rest);
    } else {
      Tail(a, [last] + rest);
      Assoc(a[1..], [last], rest);
      EndsAt(a[1..], last, rest);
    }
  }

  // ------------------------------------------------------------------ the buffer of the shell response

  /**
   What realloc does to a block: extend it where it is, move it, or refuse. The code clears the new part through
   the old pointer, which after a move is a write to a freed block.
   */
  datatype Realloc = InPlace | Relocated | NoRoom

  datatype ShellOutcome = Responded | NoMemory | FreedBlock

  /** handle_shell_response with its buffer: capacity octets are free behind data, and heap says how it may grow. */
  function ShellIn(s: Stream, data: seq<byte>, capacity: nat, heap: seq<Realloc>): (ShellOutcome, seq<byte>, Stream)
    decreases |s.arrivals|
  {
    if s.arrivals == [] then (Responded, data, s)
    else
      var a := s.arrivals[0];
      var s1 := s.(arrivals := s.arrivals[1..]);
      if !a.ok then (Responded, data, s1)
      else if Command(a) == A_WRTE then
        var n := |Payload(a)|;
        var s2 := s1.(sent := s1.sent + [s1.okay]);
        if n <= capacity then ShellIn(s2, data + Payload(a), capacity - n, heap)
        else if heap == [] || heap[0] == NoRoom then (NoMemory, data, s1)
        else if heap[0] == Relocated then (FreedBlock, data, s1)
        else ShellIn(s2, data + Payload(a), capacity + MAX_PAYLOAD - n, heap[1..])
      else if Command(a) == A_CLSE then (Responded, data, s1.(sent := s1.sent + [s1.okay]))
      else ShellIn(s1, data, capacity, heap)
  }

  /** Whenever there is a response at all, it is the one above, whatever it took to make room for it. */
  lemma {:induction false} ShellInResponds(s: Stream, data: seq<byte>, capacity: nat, heap: seq<Realloc>)
    requires ShellIn(s, data, capacity, heap).0 == Responded
    ensures (ShellIn(s, data, capacity, heap).1, ShellIn(s, data, capacity, heap).2) == Shell(s, data)
    decreases |s.arrivals|
  {
    hide Possible, Command, Payload;
    if s.arrivals != [] && s.arrivals[0].ok && Command(s.arrivals[0]) != A_CLSE {
      var a := s.arrivals[0];
      var s1 := s.(arrivals := s.arrivals[1..]);
      if Command(a) == A_WRTE {
        var n := |Payload(a)|;
        var s2 := s1.(sent := s1.sent + [s1.okay]);
        if n <= capacity {
          ShellInResponds(s2, data + Payload(a), capacity - n, heap);
        } else {
          ShellInResponds(s2, data + Payload(a), capacity + MAX_PAYLOAD - n, heap[1..]);
        }
      } else {
        ShellInResponds(s1, data, capacity, heap);
      }
    }
  }

  /** How often the block can be extended before the heap does anything else. */
  function Growths(heap: seq<Realloc>): (n: nat)
    ensures n <= |heap| && (n < |heap| ==> heap[n] != InPlace)
  {
    if heap == [] || heap[0] != InPlace then 0 else 1 + Growths(heap[1..])
  }

  /**
   There is a response exactly if it fits the room there is and MAX_PAYLOAD more for every time the block can be
   extended in place; if it does not, what the heap does then decides how it ends.
   */
  lemma {:induction false} GrowsIff(s: Stream, data: seq<byte>, capacity: nat, heap: seq<Realloc>)
    ensures var g := Growths(heap);
            ShellIn(s, data, capacity, heap).0 ==
            if |Written(s.arrivals[..ShellEnd(s.arrivals)])| <= capacity + MAX_PAYLOAD * g then Responded
            else if g < |heap| && heap[g] == Relocated then FreedBlock
            else NoMemory
    decreases |s.arrivals|
  {
    hide Possible, Command, Payload;
    var e := ShellEnd(s.arrivals);
    if e == 0 {
      assert s.arrivals[..0] == [];
      NothingWritten();
    } else {
      var a := s.arrivals[0];
      var tail := s.arrivals[1..];
      assert s.arrivals[..e] == [a] + tail[..e - 1];
      var s1 := s.(arrivals := tail);
      if Command(a) == A_WRTE {
        var n := |Payload(a)|;
        var s2 := s1.(sent := s1.sent + [s1.okay]);
        if n <= capacity {
          GrowsIff(s2, data + Payload(a), capacity - n, heap);
        } else if heap != [] && heap[0] == InPlace {
          GrowsIff(s2, data + Payload(a), capacity + MAX_PAYLOAD - n, heap[1..]);
        }
      } else {
        GrowsIff(s1, data, capacity, heap);
      }
    }
  }

  /** However it ends, what was sent is one kind of packet. */
  lemma {:induction false} ShellInAnswers(s: Stream, data: seq<byte>, capacity: nat, heap: seq<Realloc>)
    ensures var s' := ShellIn(s, data, capacity, heap).2;
            |s.sent| <= |s'.sent| && s'.sent == s.sent + Repeat(s.okay, |s'.sent| - |s.sent|)
    decreases |s.arrivals|
  {
    hide Possible, Command, Payload;
    RepeatOnce(s.okay);
    EmptyUnit(s.sent);
    if s.arrivals != [] && s.arrivals[0].ok && Command(s.arrivals[0]) != A_CLSE {
      var a := s.arrivals[0];
      var s1 := s.(arrivals := s.arrivals[1..]);
      if Command(a) == A_WRTE {
        var n := |Payload(a)|;
        var s2 := s1.(sent := s1.sent + [s1.okay]);
        if n <= capacity {
          ShellInAnswers(s2, data + Payload(a), capacity - n, heap);
          OneMore(s.sent, s.okay, ShellIn(s, data, capacity, heap).2.sent);
        } else if heap != [] && heap[0] == InPlace {
          ShellInAnswers(s2, data + Payload(a), capacity + MAX_PAYLOAD - n, heap[1..]);
          OneMore(s.sent, s.okay, ShellIn(s, data, capacity, heap).2.sent);
        }
      } else {
        ShellInAnswers(s1, data, capacity, heap);
      }
    }
  }

  /**
   Without a response, the packet that did not fit is the last one consumed, and the only one not answered; what was
   collected is what came before it.
   */
  lemma {:induction false} ShellInStops(s: Stream, data: seq<byte>, capacity: nat, heap: seq<Realloc>) returns (k: nat)
    requires ShellIn(s, data, capacity, heap).0 != Responded
    ensures k < ShellEnd(s.arrivals) && Command(s.arrivals[k]) == A_WRTE
    ensures var (_, got, s') := ShellIn(s, data, capacity, heap);
            && got == data + Written(s.arrivals[..k])
            && s' == s.(arrivals := s.arrivals[k + 1..], sent := s.sent + Repeat(s.okay, Writes(s.arrivals[..k])))
    decreases |s.arrivals|
  {
    hide Possible, Command, Payload, Written, Writes, ShellIn;
    ShellInOnce(s, data, capacity, heap);
    var a := s.arrivals[0];
    var tail := s.arrivals[1..];
    var s1 := s.(arrivals := tail);
    var s2 := s1.(sent := s1.sent + [s1.okay]);
    if Command(a) != A_WRTE {
      var j := ShellInStops(s1, data, capacity, heap);
      k := j + 1;
      FrontGrows(s, data, j);
    } else if |Payload(a)| > capacity && (heap == [] || heap[0] != InPlace) {
      k := 0;
      NothingInFront(s, data);
    } else {
      var room := if |Payload(a)| <= capacity then capacity else capacity + MAX_PAYLOAD;
      var j := ShellInStops(s2, data + Payload(a), room - |Payload(a)|, if |Payload(a)| <= capacity then heap else heap[1..]);
      k := j + 1;
      FrontGrows(s, data, j);
    }
  }

  /** One packet of a response that comes to nothing. */
  lemma ShellInOnce(s: Stream, data: seq<byte>, capacity: nat, heap: seq<Realloc>)
    requires ShellIn(s, data, capacity, heap).0 != Responded
    ensures s.arrivals != [] && ShellEnd(s.arrivals) == 1 + ShellEnd(s.arrivals[1..])
    ensures var a := s.arrivals[0];
            var s1 := s.(arrivals := s.arrivals[1..]);
            var s2 := s1.(sent := s1.sent + [s1.okay]);
            var n := |Payload(a)|;
            if Command(a) != A_WRTE then ShellIn(s, data, capacity, heap) == ShellIn(s1, data, capacity, heap)
            else if n <= capacity then ShellIn(s, data, capacity, heap) == ShellIn(s2, data + Payload(a), capacity - n, heap)
            else if heap == [] || heap[0] != InPlace then
              ShellIn(s, data, capacity, heap).1 == data && ShellIn(s, data, capacity, heap).2 == s1
            else ShellIn(s, data, capacity, heap) == ShellIn(s2, data + Payload(a), capacity + MAX_PAYLOAD - n, heap[1..])
  {
    hide Possible, Command, Payload;
  }

  lemma NothingInFront(s: Stream, data: seq<byte>)
    ensures data + Written(s.arrivals[..0]) == data && s.sent + Repeat(s.okay, Writes(s.arrivals[..0])) == s.sent
  {
    assert s.arrivals[..0] == [];
    NothingWritten();
    RepeatOnce(s.okay);
    EmptyUnit(data);
    EmptyUnit(s.sent);
  }

  /** One packet more in front. */
  lemma FrontGrows(s: Stream, data: seq<byte>, j: nat)
    requires s.arrivals != [] && j < |s.arrivals| - 1
    ensures var a, tail := s.arrivals[0], s.arrivals[1..];
            && tail[j] == s.arrivals[j + 1] && tail[j + 1..] == s.arrivals[j + 2..]
            && if Command(a) == A_WRTE then
                 && data + Written(s.arrivals[..j + 1]) == data + Payload(a) + Written(tail[..j])
                 && s.sent + Repeat(s.okay, Writes(s.arrivals[..j + 1])) == s.sent + [s.okay] + Repeat(s.okay, Writes(tail[..j]))
               else
                 && Written(s.arrivals[..j + 1]) == Written(tail[..j])
                 && Writes(s.arrivals[..j + 1]) == Writes(tail[..j])
  {
    hide Possible, Command, Payload;
    var a, tail := s.arrivals[0], s.arrivals[1..];
    assert s.arrivals[..j + 1][0] == a && s.arrivals[..j + 1][1..] == tail[..j];
    EmptyUnit(Written(tail[..j]));
    Assoc(data, Payload(a), Written(tail[..j]));
    Assoc(s.sent, [s.okay], Repeat(s.okay, Writes(tail[..j])));
  }

  lemma OneMore<T>(sent: seq<T>, x: T, after: seq<T>)
    requires |sent| + 1 <= |after| && after == sent + [x] + Repeat(x, |after| - |sent| - 1)
    ensures after == sent + Repeat(x, |after| - |sent|)
  {
    Assoc(sent, [x], Repeat(x, |after| - |sent| - 1));
  }

  /** handle_shell_response is safe whatever the allocator does exactly if the response fits the first block. */
  lemma RespondsIffFits(s: Stream)
    ensures (forall heap :: ShellIn(s, [], MAX_PAYLOAD, heap).0 == Responded)
       <==> |Written(s.arrivals[..ShellEnd(s.arrivals)])| <= MAX_PAYLOAD
    ensures (exists heap :: ShellIn(s, [], MAX_PAYLOAD, heap).0 == FreedBlock)
       <==> |Written(s.arrivals[..ShellEnd(s.arrivals)])| > MAX_PAYLOAD
  {
    hide ShellIn;
    var fits := |Written(s.arrivals[..ShellEnd(s.arrivals)])| <= MAX_PAYLOAD;
    if fits {
      forall heap
        ensures ShellIn(s, [], MAX_PAYLOAD, heap).0 == Responded
      {
        GrowsIff(s, [], MAX_PAYLOAD, heap);
      }
    } else {
      GrowsIff(s, [], MAX_PAYLOAD, [Relocated]);
      assert ShellIn(s, [], MAX_PAYLOAD, [Relocated]).0 == FreedBlock;
    }
  }
}
