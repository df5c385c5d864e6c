/**
 Streaming image download of src/hostdl.cpp: addressed chunks, acknowledgements that echo the
 address, and bounded resending, over a link that loses, delays, repeats and reorders frames.
 */
module HostDl {
  import opened Bytes
  import opened Crc16
  import opened Hdlc
  import opened HdlcTheory
  import opened Seqs
  import opened Link
  import opened Words

  const MAX_RESEND: nat := 5
  const SEND_HOSTDL_PACKET_LEN: nat := 1024
  const RSP_LEN: nat := 256

  const ERROR_RSP: byte := 0x0D
  const CMD_LOG: byte := 0x0E
  const PARTITION_TABLE_RSP: byte := 0x1A
  const NAK_FAILED: nat := 7
  const NAK_CRC: nat := 13

  /** The first ten bytes of "ERR: CRC invalid" and of "Close failed". */
  const CRC_INVALID: seq<byte> := [0x45, 0x52, 0x52, 0x3a, 0x20, 0x43, 0x52, 0x43, 0x20, 0x69]
  const CLOSE_FAILED: seq<byte> := [0x43, 0x6c, 0x6f, 0x73, 0x65, 0x20, 0x66, 0x61, 0x69, 0x6c]

  // ------------------------------------------------------------------ responses

  /** The response buffer: cleared, then filled with at most RSP_LEN bytes. */
  function Padded(content: seq<byte>): (buf: seq<byte>)
    ensures |buf| == MAX_PACKET_LEN
  {
    var n := if |content| < RSP_LEN then |content| else RSP_LEN;
    content[..n] + seq(MAX_PACKET_LEN - n, _ => 0)
  }

  datatype Ack = Ack(result: TResult, code: byte, err: nat)

  /** GetAck, once a response is in the buffer. Error codes are 32-bit patterns. */
  function AckOf(buf: seq<byte>): Ack
    requires |buf| == MAX_PACKET_LEN
  {
    if buf[0] == STREAM_WRITE_RSP then Ack(EOK, buf[0], FromLE32(buf[1..5]))
    else if buf[0] == ERROR_RSP then Ack(EFAILED, buf[0], FromLE32(buf[1..5]))
    else if buf[0] == CMD_LOG then
      if buf[1..11] == CRC_INVALID then Ack(EDATACRC, ERROR_RSP, NAK_CRC)
      else if buf[1..11] == CLOSE_FAILED then Ack(EOK, ERROR_RSP, NAK_FAILED)
      else Ack(EOK, buf[0], 0)
    else if buf[0] == PARTITION_TABLE_RSP then Ack(EOK, buf[0], FromByte(buf[1]))
    else Ack(EOK, buf[0], 0)
  }

  function CheckAckError(code: byte, err: nat): TResult {
    if code == ERROR_RSP && err == NAK_CRC then EDATACRC else EDATARSP
  }

  predicate NeedResend(result: TResult) {
    result == EDATACRC || result == EPACKETRECEIVECRC
  }

  // ------------------------------------------------------------------ the write protocol

  function Request(addr: nat, chunk: seq<byte>): (req: seq<byte>)
    requires addr < TWO32
    ensures |req| == 5 + |chunk|
  {
    [STREAM_WRITE_CMD] + LE32(addr) + chunk
  }

  /** How one turn of the resend loop ends: try again, leave the loop, or give up at once. */
  datatype Try = Again(last: TResult) | Leave(result: TResult) | GiveUp

  function Attempt(w: World, req: seq<byte>, addr: nat): (Try, World) {
    var (sent, w1) := Transmit(w, req);
    if sent != EOK then (Again(sent), w1)
    else
      var (o, w2) := Listen(w1);
      if o.result != EOK then (Again(o.result), w2)
      else
        var ack := AckOf(Padded(o.content));
        if ack.result != EOK then (Again(ack.result), w2)
        else
          var result := if ack.code != STREAM_WRITE_RSP then CheckAckError(ack.code, ack.err) else EOK;
          if addr != ack.err then (GiveUp, w2)
          else if NeedResend(result) then (Again(result), w2)
          else (Leave(result), w2)
  }

  function Attempts(w: World, req: seq<byte>, addr: nat, n: nat, last: TResult): (TResult, World)
    decreases n
  {
    if n == 0 then (last, w)
    else
      var (t, w1) := Attempt(w, req, addr);
      match t
      case Again(r) => Attempts(w1, req, addr, n - 1, r)
      case Leave(r) => (r, w1)
      case GiveUp => (EFAILED, w1)
  }

  function ChunkLen(len: int): (n: nat)
    requires len > 0
    ensures 0 < n <= len && n <= SEND_HOSTDL_PACKET_LEN
  {
    if len < SEND_HOSTDL_PACKET_LEN then len else SEND_HOSTDL_PACKET_LEN
  }

  /** SendWritePacket from address addr on, with len bytes to go; len is a signed 32-bit number. */
  function WriteFrom(w: World, data: seq<byte>, addr: nat, len: int): (TResult, World)
    requires addr + len <= |data| && addr + len < TWO32 / 2
    decreases len
  {
    if len <= 0 then (EOK, w)
    else
      var n := ChunkLen(len);
      var (result, w1) := Attempts(w, Request(addr, data[addr..addr + n]), addr, MAX_RESEND, EOK);
      if result != EOK then (result, w1) else WriteFrom(w1, data, addr + n, len - n)
  }

  // ------------------------------------------------------------------ safety

  predicate Good(mem: Memory, data: seq<byte>, i: nat) {
    i < |data| && i in mem && mem[i] == data[i]
  }

  /** A chunk request of this image. */
  predicate IsChunk(data: seq<byte>, addr: nat, n: nat) {
    addr + n <= |data| < TWO32 / 2 && 0 < n <= SEND_HOSTDL_PACKET_LEN
  }

  predicate Stored(mem: Memory, data: seq<byte>, addr: nat, n: nat) {
    forall i: nat :: addr <= i < addr + n ==> Good(mem, data, i)
  }

  /** A write acknowledgement of a chunk that is in memory. */
  ghost predicate AckOk(mem: Memory, data: seq<byte>, ack: seq<byte>) {
    exists addr: nat, n: nat :: IsChunk(data, addr, n) && Aligned(data, addr, n) && ack == [STREAM_WRITE_RSP] + LE32(addr)
                      && Stored(mem, data, addr, n)
  }

  /** The chunk the image is cut into at addr. */
  predicate Aligned(data: seq<byte>, addr: nat, n: nat) {
    addr < |data| && n == ChunkLen(|data| - addr)
  }

  /** All traffic so far is about this image, and every answer reports a write that is still in place. */
  ghost predicate Sound(w: World, data: seq<byte>) {
    && (forall f :: f in w.frames ==> FrameFor(data, f))
    && (forall k :: k in w.acks ==> AckOk(w.mem, data, k))
    && AcksFit(w)
  }

  ghost predicate FrameFor(data: seq<byte>, f: seq<byte>) {
    exists addr: nat, n: nat :: IsChunk(data, addr, n) && Aligned(data, addr, n) && f == Frame(Request(addr, data[addr..addr + n]))
  }

  lemma RequestUnderstood(addr: nat, chunk: seq<byte>)
    requires addr < TWO32
    ensures Understand(Request(addr, chunk)) == WriteTo(addr, chunk, [STREAM_WRITE_RSP] + LE32(addr))
  {
    hide LE32, FromLE32;
    LE32Back(addr);
    var req := Request(addr, chunk);
    assert req[1..5] == LE32(addr) && req[5..] == chunk;
  }

  lemma RequestFits(addr: nat, chunk: seq<byte>)
    requires addr < TWO32 && |chunk| <= SEND_HOSTDL_PACKET_LEN
    ensures Fits(1, Request(addr, chunk))
  {
    hide Fits;
    SmallFits(Request(addr, chunk));
  }

  /** A write of bytes of the image, at their own addresses, spoils no byte of the image. */
  lemma StoreKeepsGood(mem: Memory, data: seq<byte>, addr: nat, n: nat, i: nat)
    requires IsChunk(data, addr, n)
    ensures Good(mem, data, i) ==> Good(WriteMem(mem, addr, data[addr..addr + n]), data, i)
    ensures addr <= i < addr + n ==> Good(WriteMem(mem, addr, data[addr..addr + n]), data, i)
  {
    hide WriteMem;
    WriteMemAt(mem, addr, data[addr..addr + n], i);
  }

  lemma AckOkKept(mem: Memory, data: seq<byte>, addr: nat, n: nat, ack: seq<byte>)
    requires IsChunk(data, addr, n) && AckOk(mem, data, ack)
    ensures AckOk(WriteMem(mem, addr, data[addr..addr + n]), data, ack)
  {
    hide WriteMem, LE32, Good;
    var a: nat, m: nat :| IsChunk(data, a, m) && Aligned(data, a, m) && ack == [STREAM_WRITE_RSP] + LE32(a) && Stored(mem, data, a, m);
    var mem' := WriteMem(mem, addr, data[addr..addr + n]);
    forall i: nat | a <= i < a + m
      ensures Good(mem', data, i)
    {
      StoreKeepsGood(mem, data, addr, n, i);
    }
    assert Stored(mem', data, a, m);
  }

  lemma DeliverSound(w: World, data: seq<byte>, f: seq<byte>)
    requires Sound(w, data) && FrameFor(data, f)
    ensures var w' := Carry(w, Understand(Decode(f)));
            Sound(w', data) && forall i: nat :: Good(w.mem, data, i) ==> Good(w'.mem, data, i)
  {
    hide Fits, Frame, Decode, Understand, WriteMem, LE32, Good;
    var addr: nat, n: nat :| IsChunk(data, addr, n) && Aligned(data, addr, n) && f == Frame(Request(addr, data[addr..addr + n]));
    var chunk := data[addr..addr + n];
    RequestFits(addr, chunk);
    DecodeFrame(Request(addr, chunk));
    RequestUnderstood(addr, chunk);
    AckOfWrite(Request(addr, chunk));
    var ack := [STREAM_WRITE_RSP] + LE32(addr);
    var mem' := WriteMem(w.mem, addr, chunk);
    forall i: nat
      ensures Good(w.mem, data, i) ==> Good(mem', data, i)
      ensures addr <= i < addr + n ==> Good(mem', data, i)
    {
      StoreKeepsGood(w.mem, data, addr, n, i);
    }
    forall k | k in w.acks + [ack]
      ensures AckOk(mem', data, k)
    {
      if k in w.acks {
        AckOkKept(w.mem, data, addr, n, k);
      } else {
        assert Stored(mem', data, addr, n);
      }
    }
  }

  lemma ApplySound(w: World, data: seq<byte>, m: Move)
    requires Sound(w, data)
    ensures Sound(Apply(w, m), data)
    ensures forall i: nat :: Good(w.mem, data, i) ==> Good(Apply(w, m).mem, data, i)
    ensures Apply(w, m).frames == w.frames && Apply(w, m).plan == w.plan
  {
    hide Understand, Decode, Frame, Good, AckOk, FrameFor, Fits;
    if m.Deliver? && m.frame < |w.frames| {
      assert w.frames[m.frame] in w.frames;
      DeliverSound(w, data, w.frames[m.frame]);
    }
  }

  lemma {:induction false} ApplyAllSound(w: World, data: seq<byte>, moves: seq<Move>)
    requires Sound(w, data)
    ensures Sound(ApplyAll(w, moves), data)
    ensures forall i: nat :: Good(w.mem, data, i) ==> Good(ApplyAll(w, moves).mem, data, i)
    ensures ApplyAll(w, moves).frames == w.frames && ApplyAll(w, moves).plan == w.plan
  {
    hide Apply, Sound, Good;
    if moves != [] {
      var n := |moves| - 1;
      ApplyAllSound(w, data, moves[..n]);
      ApplySound(ApplyAll(w, moves[..n]), data, moves[n]);
    }
  }

  lemma TransmitSound(w: World, data: seq<byte>, addr: nat, n: nat)
    requires Sound(w, data) && IsChunk(data, addr, n) && Aligned(data, addr, n)
    ensures var req := Request(addr, data[addr..addr + n]);
            var w' := Transmit(w, req).1;
            && Sound(w', data)
            && (forall i: nat :: Good(w.mem, data, i) ==> Good(w'.mem, data, i))
            && w'.frames == if Transmit(w, req).0 == EOK then w.frames + [Frame(req)] else w.frames
  {
    hide ApplyAll, Good, Fits, Frame, AckOk;
    var req := Request(addr, data[addr..addr + n]);
    RequestFits(addr, data[addr..addr + n]);
    var w0 := if w.open then w.(frames := w.frames + [Frame(req)], rx := []) else w;
    assert FrameFor(data, Frame(req));
    assert Sound(w0, data);
    if w.plan != [] {
      var w1 := w0.(plan := w.plan[1..]);
      assert Sound(w1, data);
      ApplyAllSound(w1, data, w.plan[0]);
    }
  }

  /** The first bytes of what was heard survive in the response buffer. */
  lemma PaddedHead(q: seq<byte>, f: seq<byte>)
    requires 0 < |q| && |f| == 2
    ensures Padded(q + f)[0] == q[0]
    ensures |q| == 5 ==> Padded(q + f)[1..5] == q[1..5]
  {
  }

  lemma PaddedAddress(q: seq<byte>, f: seq<byte>)
    requires q != [] && |f| == 2
    ensures Padded(q + f)[1..5] == (q + f + [0, 0])[1..5]
  {
    var n := |q + f|;
    forall k | 1 <= k < 5
      ensures Padded(q + f)[k] == (q + f + [0, 0])[k]
    {
    }
  }

  /**
   What is taken for the acknowledgement of the chunk at addr: a write acknowledgement whose next four bytes
   name addr, where a response that is too short is read on into its FCS and the cleared buffer.
   */
  lemma Accepted(q: seq<byte>, f: seq<byte>, addr: nat)
    requires q != [] && |f| == 2 && addr < TWO32
    ensures AckOf(Padded(q + f)) == Ack(EOK, STREAM_WRITE_RSP, addr)
       <==> q[0] == STREAM_WRITE_RSP && (q + f + [0, 0])[1..5] == LE32(addr)
    ensures var ack := AckOf(Padded(q + f));
            && (q[0] != STREAM_WRITE_RSP ==> ack.code != STREAM_WRITE_RSP)
            && (q == [STREAM_WRITE_RSP] + LE32(addr) ==> ack == Ack(EOK, STREAM_WRITE_RSP, addr))
  {
    hide LE32, FromLE32;
    PaddedHead(q, f);
    LE32Back(addr);
    var named := Padded(q + f)[1..5];
    PaddedAddress(q, f);
    if FromLE32(named) == addr {
      LE32Injective(named, LE32(addr));
    }
    if q == [STREAM_WRITE_RSP] + LE32(addr) {
      assert q[1..5] == LE32(addr);
    }
  }

  lemma AttemptSound(w: World, data: seq<byte>, addr: nat, n: nat)
    requires Sound(w, data) && IsChunk(data, addr, n) && Aligned(data, addr, n)
    ensures var req := Request(addr, data[addr..addr + n]);
            var (t, w') := Attempt(w, req, addr);
            && Sound(w', data)
            && (forall i: nat :: Good(w.mem, data, i) ==> Good(w'.mem, data, i))
            && (t == Leave(EOK) ==> Stored(w'.mem, data, addr, n) && w'.frames == w.frames + [Frame(req)])
            && (w'.frames == w.frames || w'.frames == w.frames + [Frame(req)])
  {
    hide Frame, Fits, Hunt, Act, AckOf, Padded, Good, Foreign;
    var req := Request(addr, data[addr..addr + n]);
    var (sent, w1) := Transmit(w, req);
    TransmitSound(w, data, addr, n);
    if sent == EOK {
      AnyReply(w);
      Heard(w, req, 0);
      var (o, w2) := Listen(w1);
      if o.result == EOK {
        AcceptedMeansStored(w1, data, addr, n, o.content);
      }
    }
  }

  lemma AnyReply(w: World)
    ensures w.plan != [] ==> RepliesFrom(w.plan[0], 0)
  {
  }

  lemma AcceptedMeansStored(w: World, data: seq<byte>, addr: nat, n: nat, content: seq<byte>)
    requires Sound(w, data) && IsChunk(data, addr, n) && Aligned(data, addr, n)
    requires exists q :: content == q + Fcs(q) && q != []
                         && (Foreign(q) || exists j :: 0 <= j < |w.acks| && w.acks[j] == q)
    ensures var ack := AckOf(Padded(content));
            ack.result == EOK && ack.code == STREAM_WRITE_RSP && ack.err == addr ==> Stored(w.mem, data, addr, n)
  {
    hide AckOf, Padded, Fits, Fcs, LE32, Good;
    var q :| content == q + Fcs(q) && q != [] && (Foreign(q) || exists j :: 0 <= j < |w.acks| && w.acks[j] == q);
    Accepted(q, Fcs(q), addr);
    if !Foreign(q) {
      var j :| 0 <= j < |w.acks| && w.acks[j] == q;
      assert w.acks[j] in w.acks;
      assert AckOk(w.mem, data, q);
      var a: nat, m: nat :| IsChunk(data, a, m) && Aligned(data, a, m) && q == [STREAM_WRITE_RSP] + LE32(a) && Stored(w.mem, data, a, m);
      Accepted(q, Fcs(q), a);
    }
  }

  /** n copies of one frame. */
  function Copies(f: seq<byte>, n: nat): seq<seq<byte>> {
    seq(n, _ => f)
  }

  lemma {:induction false} AttemptsSound(w: World, data: seq<byte>, addr: nat, n: nat, tries: nat, last: TResult) returns (sends: nat)
    requires Sound(w, data) && IsChunk(data, addr, n) && Aligned(data, addr, n)
    requires tries == 0 ==> last != EOK
    ensures var req := Request(addr, data[addr..addr + n]);
            var (result, w') := Attempts(w, req, addr, tries, last);
            && Sound(w', data)
            && (forall i: nat :: Good(w.mem, data, i) ==> Good(w'.mem, data, i))
            && (result == EOK ==> Stored(w'.mem, data, addr, n) && sends > 0)
            && sends <= tries && w'.frames == w.frames + Copies(Frame(req), sends)
    decreases tries
  {
    hide Attempt, Sound, Good, Frame, Stored;
    var req := Request(addr, data[addr..addr + n]);
    if tries == 0 {
      sends := 0;
    } else {
      var (t, w1) := Attempt(w, req, addr);
      AttemptSound(w, data, addr, n);
      var here := if w1.frames == w.frames then 0 else 1;
      sends := here;
      if t.Again? {
        AgainIsFailure(w, req, addr);
        var more := AttemptsSound(w1, data, addr, n, tries - 1, t.last);
        sends := here + more;
        assert Copies(Frame(req), here) + Copies(Frame(req), more) == Copies(Frame(req), sends);
      }
      assert here == 1 ==> w1.frames == w.frames + Copies(Frame(req), 1);
      if t == Leave(EOK) {
        assert |w1.frames| == |w.frames| + 1;
      }
    }
  }

  lemma AgainIsFailure(w: World, req: seq<byte>, addr: nat)
    requires Attempt(w, req, addr).0.Again?
    ensures Attempt(w, req, addr).0.last != EOK
  {
    hide Hunt, AckOf, Padded, Act, Frame, Fits;
  }

  /** The frames of the chunks from addr on, each as often as counts says. */
  function Groups(data: seq<byte>, addr: nat, counts: seq<nat>): seq<seq<byte>>
    requires addr <= |data| < TWO32 / 2
    decreases |counts|
  {
    if counts == [] || addr == |data| then []
    else
      var n := ChunkLen(|data| - addr);
      Copies(Frame(Request(addr, data[addr..addr + n])), counts[0]) + Groups(data, addr + n, counts[1..])
  }

  function ChunkCount(len: nat): nat {
    (len + SEND_HOSTDL_PACKET_LEN - 1) / SEND_HOSTDL_PACKET_LEN
  }

  /**
   Whatever the link does: what is sent is the chunks of the image, in order, each at most five times;
   and if the result is EOK, every chunk was sent, none was skipped, and every byte is in place.
   */
  lemma {:induction false} WriteSafe(w: World, data: seq<byte>, addr: nat) returns (counts: seq<nat>)
    requires addr <= |data| < TWO32 / 2 && Sound(w, data) && Stored(w.mem, data, 0, addr)
    ensures var (result, w') := WriteFrom(w, data, addr, |data| - addr);
            && Sound(w', data)
            && w'.frames == w.frames + Groups(data, addr, counts)
            && |counts| <= ChunkCount(|data| - addr)
            && (forall k :: 0 <= k < |counts| ==> counts[k] <= MAX_RESEND)
            && (result == EOK ==>
                  && |counts| == ChunkCount(|data| - addr)
                  && (forall k :: 0 <= k < |counts| ==> counts[k] > 0)
                  && Stored(w'.mem, data, 0, |data|))
    decreases |data| - addr
  {
    hide Attempts, Sound, Frame, Stored, Groups, Copies;
    if addr == |data| {
      counts := [];
      GroupsEnd(data, addr);
      EmptyUnit(w.frames);
    } else {
      var n := ChunkLen(|data| - addr);
      var req := Request(addr, data[addr..addr + n]);
      var (result, w1) := Attempts(w, req, addr, MAX_RESEND, EOK);
      var sends := AttemptsSound(w, data, addr, n, MAX_RESEND, EOK);
      ChunkCountStep(|data| - addr);
      if result == EOK {
        StoredJoin(w.mem, w1.mem, data, addr, n);
        var rest := WriteSafe(w1, data, addr + n);
        counts := [sends] + rest;
        GroupsCons(data, addr, sends, rest);
        Assoc(w.frames, Copies(Frame(req), sends), Groups(data, addr + n, rest));
      } else {
        counts := [sends];
        GroupsCons(data, addr, sends, []);
        GroupsEnd(data, addr + n);
        EmptyUnit(Copies(Frame(req), sends));
        EmptyUnit([sends]);
      }
    }
  }

  lemma GroupsEnd(data: seq<byte>, addr: nat)
    requires addr <= |data| < TWO32 / 2
    ensures Groups(data, addr, []) == []
  {
  }

  lemma GroupsCons(data: seq<byte>, addr: nat, sends: nat, rest: seq<nat>)
    requires addr < |data| < TWO32 / 2
    ensures var n := ChunkLen(|data| - addr);
            Groups(data, addr, [sends] + rest)
            == Copies(Frame(Request(addr, data[addr..addr + n])), sends) + Groups(data, addr + n, rest)
  {
    hide Frame, Copies, Request;
    assert ([sends] + rest)[1..] == rest;
  }

  lemma ChunkCountStep(len: nat)
    requires len > 0
    ensures ChunkCount(len) == 1 + ChunkCount(len - ChunkLen(len))
  {
  }

  lemma StoredJoin(mem: Memory, mem': Memory, data: seq<byte>, addr: nat, n: nat)
    requires Stored(mem, data, 0, addr) && Stored(mem', data, addr, n)
    requires forall i: nat :: Good(mem, data, i) ==> Good(mem', data, i)
    ensures Stored(mem', data, 0, addr + n)
  {
    hide Good;
  }

  /** A link on which nothing has been sent yet. */
  predicate Fresh(w: World) {
    w.frames == [] && w.acks == []
  }

  lemma FreshSound(w: World, data: seq<byte>)
    requires Fresh(w)
    ensures Sound(w, data) && Stored(w.mem, data, 0, 0)
  {
  }

  /** Safety for a whole image, and its stability: no frame still in the link can undo it. */
  lemma DownloadSafe(w: World, data: seq<byte>, later: seq<Move>)
    requires |data| < TWO32 / 2 && Fresh(w)
    ensures var (result, w') := WriteFrom(w, data, 0, |data|);
            result == EOK ==>
              && (forall i: nat :: i < |data| ==> Good(w'.mem, data, i))
              && (forall i: nat :: i < |data| ==> Good(ApplyAll(w', later).mem, data, i))
  {
    hide Good, WriteFrom, ApplyAll, Groups;
    FreshSound(w, data);
    var counts := WriteSafe(w, data, 0);
    hide Sound;
    var (result, w') := WriteFrom(w, data, 0, |data|);
    ApplyAllSound(w', data, later);
  }

  // ------------------------------------------------------------------ the signed length

  /** DownloadDataUsePrtn passes its unsigned length to the int parameter of SendWritePacket. */
  function ToInt32(n: nat): int
    requires n < TWO32
  {
    if n < TWO32 / 2 then n else n - TWO32
  }

  predicate Complete(w: World, data: seq<byte>)
    requires |data| < TWO32
  {
    var (result, w') := WriteFrom(w, data, 0, ToInt32(|data|));
    result == EOK ==> forall i: nat :: i < |data| ==> Good(w'.mem, data, i)
  }

  /** EOK means the whole image is in memory exactly for images below 2 GB: longer ones end at once, with EOK. */
  lemma CompleteIffBelow2GB(data: seq<byte>)
    requires |data| < TWO32
    ensures (forall w :: Fresh(w) ==> Complete(w, data)) <==> |data| < TWO32 / 2
  {
    if |data| < TWO32 / 2 {
      forall w | Fresh(w)
        ensures Complete(w, data)
      {
        DownloadSafe(w, data, []);
      }
    } else {
      hide Good;
      var w := World(map[], [], [], [], true, []);
      assert WriteFrom(w, data, 0, ToInt32(|data|)) == (EOK, w);
      NothingStored(data);
      assert Fresh(w) && !Complete(w, data);
    }
  }

  lemma NothingStored(data: seq<byte>)
    ensures !Good(map[], data, 0)
  {
  }

  // ------------------------------------------------------------------ and it does succeed

  /** A link that delivers every request and returns every answer, once and in order. */
  predicate Prompt(w: World, n: nat) {
    && w.open && AcksFit(w) && n <= |w.plan|
    && forall k :: 0 <= k < n ==> PromptMoves(w.plan[k], |w.frames| + k, |w.acks| + k)
  }

  predicate PromptMoves(moves: seq<Move>, frame: nat, ack: nat) {
    && |moves| == 2
    && moves[0] == Deliver(frame)
    && moves[1].Reply? && moves[1].ack == ack && FlagFree(moves[1].idle.noise)
  }

  lemma PromptAct(w: World, addr: nat, n: nat, data: seq<byte>, k: nat)
    requires Prompt(w, k) && k > 0 && IsChunk(data, addr, n)
    ensures var req := Request(addr, data[addr..addr + n]);
            var (sent, w1) := Transmit(w, req);
            && sent == EOK && w1.open
            && w1.frames == w.frames + [Frame(req)] && w1.plan == w.plan[1..]
            && w1.acks == w.acks + [[STREAM_WRITE_RSP] + LE32(addr)]
            && AcksFit(w1)
            && exists idle: Idle :: FlagFree(idle.noise) && w1.rx == Octets(idle.noise + Flags(idle.extra) + Frame([STREAM_WRITE_RSP] + LE32(addr)))
  {
    hide Fits, Frame, Understand, Decode, LE32, WriteMem;
    var chunk := data[addr..addr + n];
    var req := Request(addr, chunk);
    RequestFits(addr, chunk);
    DecodeFrame(req);
    RequestUnderstood(addr, chunk);
    AckOfWrite(req);
    var w0 := w.(frames := w.frames + [Frame(req)], rx := [], plan := w.plan[1..]);
    var moves := w.plan[0];
    assert PromptMoves(w.plan[0], |w.frames| + 0, |w.acks| + 0);
    assert moves[..1] == [moves[0]] && moves[..1][..0] == [];
    var w' := Apply(w0, moves[0]);
    assert ApplyAll(w0, moves[..1]) == w';
    assert ApplyAll(w0, moves) == Apply(w', moves[1]);
    var idle := moves[1].idle;
    EmptyUnit(Octets(idle.noise + Flags(idle.extra) + Frame([STREAM_WRITE_RSP] + LE32(addr))));
  }

  lemma PromptAttempt(w: World, addr: nat, n: nat, data: seq<byte>, k: nat)
    requires Prompt(w, k) && k > 0 && IsChunk(data, addr, n)
    ensures var (t, w') := Attempt(w, Request(addr, data[addr..addr + n]), addr);
            && t == Leave(EOK) && Prompt(w', k - 1)
            && w'.plan == w.plan[1..] && |w'.frames| == |w.frames| + 1 && |w'.acks| == |w.acks| + 1
  {
    PromptAct(w, addr, n, data, k);
    hide Fits, Frame, LE32, Hunt, AckOf, Padded, Transmit, Fcs, PromptMoves, Request;
    var req := Request(addr, data[addr..addr + n]);
    var w1 := Transmit(w, req).1;
    var ack := [STREAM_WRITE_RSP] + LE32(addr);
    HearAck(w1, ack);
    Accepted(ack, Fcs(ack), addr);
    PromptShift(w, w1, k);
  }

  lemma HearAck(w: World, ack: seq<byte>)
    requires w.open && AcksFit(w) && ack in w.acks
    requires exists idle: Idle :: FlagFree(idle.noise) && w.rx == Octets(idle.noise + Flags(idle.extra) + Frame(ack))
    ensures Listen(w) == (Outcome(EOK, ack + Fcs(ack), []), w.(rx := []))
  {
    hide Fits, Frame, Hunt, Fcs;
    var idle: Idle :| FlagFree(idle.noise) && w.rx == Octets(idle.noise + Flags(idle.extra) + Frame(ack));
    EmptyUnit(w.rx);
    FrameReceived(idle.noise, idle.extra, ack, 1, []);
  }

  lemma PromptShift(w: World, w1: World, k: nat)
    requires Prompt(w, k) && k > 0 && w1.open && AcksFit(w1) && w1.plan == w.plan[1..]
    requires |w1.frames| == |w.frames| + 1 && |w1.acks| == |w.acks| + 1
    ensures Prompt(w1, k - 1)
    ensures forall rx :: Prompt(w1.(rx := rx), k - 1)
  {
    hide PromptMoves, Fits;
    forall j | 0 <= j < k - 1
      ensures PromptMoves(w1.plan[j], |w1.frames| + j, |w1.acks| + j)
    {
      assert w1.plan[j] == w.plan[j + 1];
      assert PromptMoves(w.plan[j + 1], |w.frames| + (j + 1), |w.acks| + (j + 1));
    }
  }

  /** Over a link that delivers everything promptly, the download succeeds. */
  lemma {:induction false} PromptSucceeds(w: World, data: seq<byte>, addr: nat)
    requires addr <= |data| < TWO32 / 2 && Prompt(w, ChunkCount(|data| - addr))
    ensures WriteFrom(w, data, addr, |data| - addr).0 == EOK
    decreases |data| - addr
  {
    hide Prompt, Attempt;
    if addr < |data| {
      var n := ChunkLen(|data| - addr);
      PromptAttempt(w, addr, n, data, ChunkCount(|data| - addr));
      assert ChunkCount(|data| - addr) - 1 == ChunkCount(|data| - (addr + n));
      var (t, w1) := Attempt(w, Request(addr, data[addr..addr + n]), addr);
      PromptSucceeds(w1, data, addr + n);
    }
  }

  // ------------------------------------------------------------------ and resending helps

  /** Requests may be delivered, but nothing comes back: the answer is lost, or the host times out. */
  predicate Silent(moves: seq<Move>) {
    forall m :: m in moves ==> m.Deliver? || (m.Quiet? && !m.event.Octet?)
  }

  /** How many answers a silent turn makes the device give, when so many frames have been sent. */
  function Deliveries(moves: seq<Move>, frames: nat): nat {
    if moves == [] then 0
    else
      var n := |moves| - 1;
      Deliveries(moves[..n], frames) + if moves[n].Deliver? && moves[n].frame < frames then 1 else 0
  }

  /** What the response buffer shows of a response: its FCS behind it, and then zeros. */
  function Shown(q: seq<byte>): (s: seq<byte>)
    ensures |s| == |q| + 12
  {
    q + Fcs(q) + seq(10, _ => 0)
  }

  /** An error response, or the report that the request arrived with a bad CRC. */
  predicate Complains(q: seq<byte>) {
    q != [] && (q[0] == ERROR_RSP || (q[0] == CMD_LOG && Shown(q)[1..11] == CRC_INVALID))
  }

  /** In this turn the device does nothing but complain. */
  predicate Complaint(moves: seq<Move>) {
    && |moves| == 1 && moves[0].Say? && FlagFree(moves[0].idle.noise) && Foreign(moves[0].payload)
    && Complains(moves[0].payload)
  }

  /** The error such a turn leaves behind. */
  function Complained(moves: seq<Move>): (error: TResult)
    requires Complaint(moves)
    ensures error != EOK
  {
    if moves[0].payload[0] == ERROR_RSP then EFAILED else EDATACRC
  }

  /** Some turn among the tries left for each chunk is prompt, and the turns before it are silent or a complaint. */
  predicate Patient(plan: seq<seq<Move>>, frames: nat, acks: nat, chunks: nat, tries: nat)
    decreases |plan|
  {
    chunks == 0 ||
    (tries > 0 && plan != [] &&
      ((PromptMoves(plan[0], frames, acks) && Patient(plan[1..], frames + 1, acks + 1, chunks - 1, MAX_RESEND))
       || (Silent(plan[0]) && Patient(plan[1..], frames + 1, acks + Deliveries(plan[0], frames + 1), chunks, tries - 1))
       || (Complaint(plan[0]) && Patient(plan[1..], frames + 1, acks, chunks, tries - 1))))
  }

  lemma DeliverAnswers(w: World, data: seq<byte>, f: seq<byte>)
    requires FrameFor(data, f)
    ensures var w' := Carry(w, Understand(Decode(f)));
            |w'.acks| == |w.acks| + 1 && w'.rx == w.rx && w'.open == w.open
  {
    hide Fits, Frame, Decode, Understand, WriteMem, LE32;
    var addr: nat, n: nat :| IsChunk(data, addr, n) && Aligned(data, addr, n) && f == Frame(Request(addr, data[addr..addr + n]));
    RequestFits(addr, data[addr..addr + n]);
    DecodeFrame(Request(addr, data[addr..addr + n]));
    RequestUnderstood(addr, data[addr..addr + n]);
  }

  lemma {:induction false} SilentMoves(w: World, data: seq<byte>, moves: seq<Move>)
    requires Sound(w, data) && Silent(moves)
    requires w.rx == [] || !w.rx[0].Octet?
    ensures var w' := ApplyAll(w, moves);
            && w'.open == w.open && |w'.acks| == |w.acks| + Deliveries(moves, |w.frames|)
            && (w'.rx == [] || !w'.rx[0].Octet?)
    decreases |moves|
  {
    hide Understand, Decode, Sound, AckOk, FrameFor, Carry;
    if moves != [] {
      var n := |moves| - 1;
      var m := moves[n];
      assert m in moves;
      SilentMoves(w, data, moves[..n]);
      ApplyAllSound(w, data, moves[..n]);
      var w1 := ApplyAll(w, moves[..n]);
      if m.Deliver? && m.frame < |w1.frames| {
        SoundFrame(w1, data, m.frame);
        DeliverAnswers(w1, data, w1.frames[m.frame]);
      }
    }
  }

  lemma SoundFrame(w: World, data: seq<byte>, i: nat)
    requires Sound(w, data) && i < |w.frames|
    ensures FrameFor(data, w.frames[i])
  {
    hide FrameFor, AckOk, AcksFit;
    assert w.frames[i] in w.frames;
  }

  /** The world in which the moves of a turn begin, once the request is on the line. */
  function Sent(w: World, req: seq<byte>): World {
    w.(frames := w.frames + [Frame(req)], rx := [], plan := if w.plan == [] then [] else w.plan[1..])
  }

  lemma TransmitActs(w: World, data: seq<byte>, addr: nat, n: nat)
    requires w.open && Sound(w, data) && IsChunk(data, addr, n) && Aligned(data, addr, n) && w.plan != []
    ensures var req := Request(addr, data[addr..addr + n]);
            Transmit(w, req) == (EOK, ApplyAll(Sent(w, req), w.plan[0])) && Sound(Sent(w, req), data)
  {
    hide Fits, Frame, AckOk, ApplyAll;
    var req := Request(addr, data[addr..addr + n]);
    RequestFits(addr, data[addr..addr + n]);
    assert FrameFor(data, Frame(req));
  }

  /** A silent turn is tried again. */
  lemma SilentAttempt(w: World, data: seq<byte>, addr: nat, n: nat)
    requires w.open && Sound(w, data) && IsChunk(data, addr, n) && Aligned(data, addr, n)
    requires w.plan != [] && Silent(w.plan[0])
    ensures var (t, w') := Attempt(w, Request(addr, data[addr..addr + n]), addr);
            && t == Again(EPORTRECEIVE) && w'.open && w'.plan == w.plan[1..] && |w'.frames| == |w.frames| + 1
            && |w'.acks| == |w.acks| + Deliveries(w.plan[0], |w.frames| + 1)
  {
    hide Frame, Fits, AckOf, Padded, Sound, ApplyAll, Transmit, Silent, Deliveries;
    var req := Request(addr, data[addr..addr + n]);
    TransmitActs(w, data, addr, n);
    SilentMoves(Sent(w, req), data, w.plan[0]);
    ApplyAllSound(Sent(w, req), data, w.plan[0]);
  }

  lemma PaddedShown(q: seq<byte>, i: nat, j: nat)
    requires q != [] && i <= j <= 11
    ensures Padded(q + Fcs(q))[0] == q[0] == Shown(q)[0]
    ensures Padded(q + Fcs(q))[i..j] == Shown(q)[i..j]
  {
    hide Fcs;
    var buf := Padded(q + Fcs(q));
    forall k | 0 <= k < 11
      ensures buf[k] == Shown(q)[k]
    {
    }
  }

  /** What the host makes of the device's complaint. */
  lemma ComplaintHeard(q: seq<byte>)
    requires Complains(q)
    ensures AckOf(Padded(q + Fcs(q))).result == if q[0] == ERROR_RSP then EFAILED else EDATACRC
  {
    hide FromLE32, Padded, Shown;
    PaddedShown(q, 1, 11);
  }

  /** The world after a turn in which the device only spoke. */
  function Spoken(w: World, req: seq<byte>): World
    requires w.plan != []
  {
    w.(frames := w.frames + [Frame(req)], rx := [], plan := w.plan[1..])
  }

  /** In this turn the host hears q, an old answer or a message of the device, and nothing else happens. */
  predicate Speaks(w: World, moves: seq<Move>, q: seq<byte>) {
    && |moves| == 1
    && match moves[0]
       case Reply(j, idle) => j < |w.acks| && w.acks[j] == q && FlagFree(idle.noise)
       case Say(payload, idle) => payload == q && Foreign(payload) && FlagFree(idle.noise)
       case _ => false
  }

  lemma SpeaksHeard(w: World, data: seq<byte>, addr: nat, n: nat, q: seq<byte>)
    requires w.open && Sound(w, data) && IsChunk(data, addr, n) && Aligned(data, addr, n)
    requires w.plan != [] && Speaks(w, w.plan[0], q)
    ensures q != []
    ensures var req := Request(addr, data[addr..addr + n]);
            var (sent, w1) := Transmit(w, req);
            sent == EOK && Listen(w1) == (Outcome(EOK, q + Fcs(q), []), Spoken(w, req))
  {
    hide Frame, Sound, Transmit, Hunt, Fcs, Fits;
    var req := Request(addr, data[addr..addr + n]);
    TransmitActs(w, data, addr, n);
    SoundAcksFit(w, data);
    var moves := w.plan[0];
    var m := moves[0];
    assert moves[..0] == [];
    assert ApplyAll(Sent(w, req), moves) == Apply(Sent(w, req), m);
    var line := Octets(m.idle.noise + Flags(m.idle.extra) + Frame(q));
    EmptyUnit(line);
    FrameReceived(m.idle.noise, m.idle.extra, q, 1, []);
  }

  lemma ComplaintAttempt(w: World, data: seq<byte>, addr: nat, n: nat)
    requires w.open && Sound(w, data) && IsChunk(data, addr, n) && Aligned(data, addr, n)
    requires w.plan != [] && Complaint(w.plan[0])
    ensures var req := Request(addr, data[addr..addr + n]);
            Attempt(w, req, addr) == (Again(Complained(w.plan[0])), Spoken(w, req))
  {
    hide Frame, AckOf, Padded, Sound, Transmit, Listen, Fcs, Foreign, Complains;
    var q := w.plan[0][0].payload;
    SpeaksHeard(w, data, addr, n, q);
    ComplaintHeard(q);
  }

  lemma PromptOnce(w: World)
    requires w.open && AcksFit(w) && w.plan != [] && PromptMoves(w.plan[0], |w.frames|, |w.acks|)
    ensures Prompt(w, 1)
  {
    hide AcksFit, PromptMoves;
  }

  lemma SoundAcksFit(w: World, data: seq<byte>)
    requires Sound(w, data)
    ensures AcksFit(w)
  {
    hide AcksFit, AckOk, FrameFor;
  }

  lemma ChunkBounds(data: seq<byte>, addr: nat, n: nat)
    requires IsChunk(data, addr, n)
    ensures addr + n <= |data| && addr < TWO32
  {
  }

  /** The resend loop for one chunk ends in success, and leaves a link that is patient with the rest. */
  lemma {:induction false} PatientAttempts(w: World, data: seq<byte>, addr: nat, n: nat, chunks: nat, tries: nat, last: TResult)
    requires w.open && Sound(w, data) && IsChunk(data, addr, n) && Aligned(data, addr, n)
    requires chunks > 0 && Patient(w.plan, |w.frames|, |w.acks|, chunks, tries)
    ensures var (result, w') := Attempts(w, Request(addr, data[addr..addr + n]), addr, tries, last);
            && result == EOK && w'.open && Sound(w', data)
            && Patient(w'.plan, |w'.frames|, |w'.acks|, chunks - 1, MAX_RESEND)
    decreases tries
  {
    hide Sound, Attempt, PromptMoves, Silent, Complaint, Deliveries, AcksFit, Prompt, IsChunk, Aligned, Good, Stored, Request, Frame;
    ChunkBounds(data, addr, n);
    var req := Request(addr, data[addr..addr + n]);
    AttemptSound(w, data, addr, n);
    SoundAcksFit(w, data);
    var (t, w1) := Attempt(w, req, addr);
    var plan := w.plan;
    if PromptMoves(plan[0], |w.frames|, |w.acks|) && Patient(plan[1..], |w.frames| + 1, |w.acks| + 1, chunks - 1, MAX_RESEND) {
      PromptOnce(w);
      PromptAttempt(w, addr, n, data, 1);
      PromptOpen(w1);
    } else if Silent(plan[0]) && Patient(plan[1..], |w.frames| + 1, |w.acks| + Deliveries(plan[0], |w.frames| + 1), chunks, tries - 1) {
      SilentAttempt(w, data, addr, n);
      PatientAttempts(w1, data, addr, n, chunks, tries - 1, t.last);
    } else {
      ComplaintAttempt(w, data, addr, n);
      PatientAttempts(w1, data, addr, n, chunks, tries - 1, t.last);
    }
  }

  lemma PromptOpen(w: World)
    requires Prompt(w, 0)
    ensures w.open
  {
  }

  /**
   The download succeeds if for every chunk one of its MAX_RESEND turns is prompt and in those before it the
   answer was lost, the host timed out, or the device complained of a bad CRC.
   */
  lemma {:induction false} PatientSucceeds(w: World, data: seq<byte>, addr: nat)
    requires addr <= |data| < TWO32 / 2 && w.open && Sound(w, data)
    requires Patient(w.plan, |w.frames|, |w.acks|, ChunkCount(|data| - addr), MAX_RESEND)
    ensures WriteFrom(w, data, addr, |data| - addr).0 == EOK
    decreases |data| - addr
  {
    hide Sound, Attempts, Patient;
    if addr < |data| {
      var n := ChunkLen(|data| - addr);
      PatientAttempts(w, data, addr, n, ChunkCount(|data| - addr), MAX_RESEND, EOK);
      assert ChunkCount(|data| - addr) - 1 == ChunkCount(|data| - (addr + n));
      var (result, w1) := Attempts(w, Request(addr, data[addr..addr + n]), addr, MAX_RESEND, EOK);
      PatientSucceeds(w1, data, addr + n);
    }
  }
}
