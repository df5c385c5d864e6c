/**
 The boot program download of src/dlprg.cpp: 32-bit writes acknowledged without an address, one at a
 time, over the link of Link.
 */
module DlPrg {
  import opened Bytes
  import opened Crc16
  import opened Hdlc
  import opened HdlcTheory
  import opened Seqs
  import opened Link
  import opened Words
  import opened HostDl

  const SEND_PRG_PACKET_LEN: nat := 1024
  const CMD_GO: byte := 0x05
  const ACK_OK: nat := 0

  /** The load address of an address type, or None for the types the code refuses. */
  function Base(addrType: int): Option<nat> {
    if addrType == 1 then Some(0x800000)
    else if addrType == 2 then Some(0x100000)
    else if addrType == 3 then Some(0x41700000)
    else None
  }

  function Write32(addr: nat, chunk: seq<byte>): seq<byte>
    requires addr < TWO32 && |chunk| <= SEND_PRG_PACKET_LEN
  {
    [CMD_WRITE_32BIT] + BE32(addr) + [ToByte(|chunk| / 256), ToByte(|chunk| % 256)] + chunk
  }

  /** The command SendGoCmd builds; the address bytes are literals in the code. */
  function Go(addrType: int): seq<byte> {
    if addrType == 1 then [CMD_GO, 0x00, 0x80, 0x00, 0x00]
    else if addrType == 2 then [CMD_GO, 0x00, 0x10, 0x00, 0x00]
    else if addrType == 3 then [CMD_GO, 0x41, 0x70, 0x00, 0x00]
    else [CMD_GO]
  }

  /** The device starts where the image was written. */
  lemma GoNamesBase(addrType: int)
    requires Base(addrType).Some?
    ensures |Go(addrType)| == 5 && FromBE32(Go(addrType)[1..5]) == Base(addrType).value
  {
    assert FromByte(0x00) == 0 && FromByte(0x80) == 0x80 && FromByte(0x10) == 0x10;
    assert FromByte(0x41) == 0x41 && FromByte(0x70) == 0x70;
  }

  // ------------------------------------------------------------------ the protocol

  /** GetAckCmd and the check of its code: a NAK whose third byte is zero passes for ACK_OK. */
  function AckResult(buf: seq<byte>): TResult
    requires |buf| == MAX_PACKET_LEN
  {
    if buf[0] == CMD_ACK then EOK
    else if buf[0] == CMD_NAK then (if FromByte(buf[2]) == ACK_OK then EOK else EACKFAILED)
    else EACKPACKET
  }

  /** The response buffer: cleared, then filled with the whole response. */
  function Cleared(content: seq<byte>): (buf: seq<byte>)
    ensures |buf| == MAX_PACKET_LEN
  {
    if |content| >= MAX_PACKET_LEN then content[..MAX_PACKET_LEN] else content + seq(MAX_PACKET_LEN - |content|, _ => 0)
  }

  /** Send one command and wait for its acknowledgement. */
  function Exchange(w: World, req: seq<byte>): (TResult, World) {
    var (sent, w1) := Transmit(w, req);
    if sent != EOK then (sent, w1)
    else
      var (o, w2) := Listen(w1);
      if o.result != EOK then (o.result, w2) else (AckResult(Cleared(o.content)), w2)
  }

  /** SendWrite32Cmd from the chunk at addr on, with len bytes to go. */
  function LoadFrom(w: World, data: seq<byte>, base: nat, addr: nat): (TResult, World)
    requires addr <= |data| && base + |data| <= TWO32 && base < TWO32 && (addr < |data| || addr == 0)
    decreases |data| - addr
  {
    var len := |data| - addr;
    if len > SEND_PRG_PACKET_LEN then
      var (result, w1) := Exchange(w, Write32(base + addr, data[addr..addr + SEND_PRG_PACKET_LEN]));
      if result != EOK then (result, w1) else LoadFrom(w1, data, base, addr + SEND_PRG_PACKET_LEN)
    else Exchange(w, Write32(base + addr, data[addr..]))
  }

  function Load(w: World, data: seq<byte>, addrType: int): (TResult, World)
    requires |data| < TWO32 / 2
  {
    if Base(addrType).None? then (EFAILED, w) else LoadFrom(w, data, Base(addrType).value, 0)
  }

  lemma Write32Understood(addr: nat, chunk: seq<byte>)
    requires addr < TWO32 && |chunk| <= SEND_PRG_PACKET_LEN
    ensures Understand(Write32(addr, chunk)) == WriteTo(addr, chunk, [CMD_ACK])
  {
    hide BE32, FromBE32, ToByte, FromByte;
    BE32Back(addr);
    ByteBack(|chunk| / 256);
    ByteBack(|chunk| % 256);
    var req := Write32(addr, chunk);
    assert req[1..5] == BE32(addr) && req[7..] == chunk;
    assert req[5] == ToByte(|chunk| / 256) && req[6] == ToByte(|chunk| % 256);
  }

  /** No command is ever a broken frame, whatever its bytes: 1031 of them fit even if all are escaped. */
  lemma NeverBroken(addr: nat, chunk: seq<byte>, w: World)
    requires addr < TWO32 && |chunk| <= SEND_PRG_PACKET_LEN
    ensures Fits(1, Write32(addr, chunk)) && Transmit(w, Write32(addr, chunk)).0 != EPACKETBROKEN
  {
    hide Fits, Act, Frame;
    SmallFits(Write32(addr, chunk));
  }

  // ------------------------------------------------------------------ a link in lock-step

  /** Nothing but the frame just sent is delivered, and only answers to it are returned. */
  predicate InStep(moves: seq<Move>, frame: nat, from: nat) {
    forall m :: m in moves ==>
      && (m.Deliver? ==> m.frame == frame)
      && (m.Reply? ==> m.ack >= from)
  }

  predicate NextInStep(w: World) {
    w.plan != [] ==> InStep(w.plan[0], |w.frames|, |w.acks|)
  }

  /** Every exchange of the download meets a link in step. */
  predicate LockStep(w: World, data: seq<byte>, base: nat, addr: nat)
    requires addr <= |data| && base + |data| <= TWO32 && base < TWO32 && (addr < |data| || addr == 0)
    decreases |data| - addr
  {
    && NextInStep(w)
    && (|data| - addr > SEND_PRG_PACKET_LEN ==>
          LockStep(Exchange(w, Write32(base + addr, data[addr..addr + SEND_PRG_PACKET_LEN])).1, data, base, addr + SEND_PRG_PACKET_LEN))
  }

  predicate Loaded(mem: Memory, data: seq<byte>, base: nat, i: nat) {
    i < |data| && base + i in mem && mem[base + i] == data[i]
  }

  /** The chunk is in memory if it was ever acknowledged, and nothing but the chunk has changed. */
  ghost predicate WroteOnly(w: World, w': World, addr: nat, chunk: seq<byte>) {
    && |w'.acks| >= |w.acks|
    && (forall i: nat :: !(addr <= i < addr + |chunk|) ==>
          (i in w'.mem <==> i in w.mem) && (i in w.mem ==> w'.mem[i] == w.mem[i]))
    && (|w'.acks| > |w.acks| ==> forall i: nat :: addr <= i < addr + |chunk| ==> i in w'.mem && w'.mem[i] == chunk[i - addr])
  }

  lemma ApplyWroteOnly(w: World, w0: World, m: Move, frame: nat, addr: nat, chunk: seq<byte>)
    requires addr < TWO32 && |chunk| <= SEND_PRG_PACKET_LEN
    requires m.Deliver? ==> m.frame == frame
    requires frame < |w0.frames| ==> w0.frames[frame] == Frame(Write32(addr, chunk))
    requires WroteOnly(w, w0, addr, chunk)
    ensures WroteOnly(w, Apply(w0, m), addr, chunk) && Apply(w0, m).frames == w0.frames
  {
    hide Understand, Decode, Frame, WriteMem, Fits, Write32;
    if m.Deliver? && frame < |w0.frames| {
      var req := Write32(addr, chunk);
      NeverBroken(addr, chunk, w);
      Write32NotEmpty(addr, chunk);
      DecodeFrame(req);
      Write32Understood(addr, chunk);
      forall i: nat
        ensures var mem' := WriteMem(w0.mem, addr, chunk);
                && (addr <= i < addr + |chunk| ==> i in mem' && mem'[i] == chunk[i - addr])
                && (!(addr <= i < addr + |chunk|) ==> (i in mem' <==> i in w0.mem) && (i in w0.mem ==> mem'[i] == w0.mem[i]))
      {
        WriteMemAt(w0.mem, addr, chunk, i);
      }
    }
  }

  lemma Write32NotEmpty(addr: nat, chunk: seq<byte>)
    requires addr < TWO32 && |chunk| <= SEND_PRG_PACKET_LEN
    ensures Write32(addr, chunk) != []
  {
  }

  lemma {:induction false} ApplyAllWroteOnly(w: World, w0: World, moves: seq<Move>, frame: nat, addr: nat, chunk: seq<byte>)
    requires addr < TWO32 && |chunk| <= SEND_PRG_PACKET_LEN
    requires InStep(moves, frame, |w.acks|)
    requires frame < |w0.frames| ==> w0.frames[frame] == Frame(Write32(addr, chunk))
    requires w0.mem == w.mem && w0.acks == w.acks
    ensures WroteOnly(w, ApplyAll(w0, moves), addr, chunk) && ApplyAll(w0, moves).frames == w0.frames
    decreases |moves|
  {
    hide Apply, Write32, Frame;
    if moves != [] {
      var n := |moves| - 1;
      assert moves[n] in moves;
      ApplyAllWroteOnly(w, w0, moves[..n], frame, addr, chunk);
      hide WroteOnly;
      ApplyWroteOnly(w, ApplyAll(w0, moves[..n]), moves[n], frame, addr, chunk);
    }
  }

  lemma ClearedHead(content: seq<byte>, k: nat)
    requires k < |content| && k < MAX_PACKET_LEN
    ensures Cleared(content)[k] == content[k]
  {
  }

  /** What is heard as success is an answer the device gave, not older than any the link returns. */
  lemma AnswerIsNew(w: World, req: seq<byte>, from: nat)
    requires AcksFit(w) && (w.plan != [] ==> RepliesFrom(w.plan[0], from)) && Transmit(w, req).0 == EOK
    ensures var w1 := Transmit(w, req).1;
            var o := Listen(w1).0;
            AcksFit(w1) && (o.result == EOK && AckResult(Cleared(o.content)) == EOK ==> |w1.acks| > from)
  {
    hide Frame, Fits, Hunt, Apply, ApplyAll, AckResult, Cleared, Transmit, AcksFit, Fcs;
    Heard(w, req, from);
    var w1 := Transmit(w, req).1;
    var o := Listen(w1).0;
    if o.result == EOK {
      var q: seq<byte> :| o.content == q + Fcs(q) && q != []
               && (Foreign(q) || exists j :: from <= j < |w1.acks| && w1.acks[j] == q);
      AcknowledgedExactly(q);
    }
  }

  /** In step, an exchange that succeeds has written its chunk, and none has written anything else. */
  lemma ExchangeInStep(w: World, addr: nat, chunk: seq<byte>)
    requires addr < TWO32 && |chunk| <= SEND_PRG_PACKET_LEN && AcksFit(w) && NextInStep(w)
    ensures var (result, w') := Exchange(w, Write32(addr, chunk));
            && AcksFit(w')
            && WroteOnly(w, w', addr, chunk)
            && (result == EOK ==> |w'.acks| > |w.acks|)
  {
    hide Frame, Fits, Hunt, Apply, ApplyAll, AckResult, Cleared, Write32, InStep;
    var req := Write32(addr, chunk);
    var (sent, w1) := Transmit(w, req);
    NeverBroken(addr, chunk, w);
    Write32NotEmpty(addr, chunk);
    TransmitInStep(w, addr, chunk);
    if sent == EOK {
      StepReplies(w);
      hide WroteOnly, NextInStep, Act;
      AnswerIsNew(w, req, |w.acks|);
    }
  }

  /** What passes for an acknowledgement: CMD_ACK, and a NAK whose third byte is zero. */
  lemma AcknowledgedExactly(q: seq<byte>)
    requires q != []
    ensures AckResult(Cleared(q + Fcs(q))) == EOK <==> q[0] == CMD_ACK || ZeroNak(q)
    ensures Foreign(q) ==> AckResult(Cleared(q + Fcs(q))) == if q[0] == CMD_NAK then EACKFAILED else EACKPACKET
  {
    hide Fcs, Fits, Cleared, FromByte;
    var c := q + Fcs(q);
    ClearedHead(c, 0);
    ClearedHead(c, 2);
  }

  lemma StepReplies(w: World)
    requires NextInStep(w)
    ensures w.plan != [] ==> RepliesFrom(w.plan[0], |w.acks|)
  {
  }

  lemma TransmitInStep(w: World, addr: nat, chunk: seq<byte>)
    requires addr < TWO32 && |chunk| <= SEND_PRG_PACKET_LEN && AcksFit(w) && NextInStep(w)
    ensures var w' := Transmit(w, Write32(addr, chunk)).1;
            AcksFit(w') && WroteOnly(w, w', addr, chunk)
  {
    hide Frame, Fits, Apply, ApplyAll, Write32, InStep, WroteOnly;
    NeverBroken(addr, chunk, w);
    Write32NotEmpty(addr, chunk);
    var w0 := if w.open then w.(frames := w.frames + [Frame(Write32(addr, chunk))], rx := []) else w;
    UnchangedWroteOnly(w, w0, addr, chunk);
    if w.plan != [] {
      var w1 := w0.(plan := w.plan[1..]);
      ApplyAllWroteOnly(w, w1, w.plan[0], |w.frames|, addr, chunk);
      ApplyAllAcksFit(w1, w.plan[0]);
    }
  }

  lemma UnchangedWroteOnly(w: World, w0: World, addr: nat, chunk: seq<byte>)
    requires w0.mem == w.mem && w0.acks == w.acks
    ensures WroteOnly(w, w0, addr, chunk)
  {
  }

  lemma {:induction false} ApplyAllAcksFit(w: World, moves: seq<Move>)
    requires AcksFit(w)
    ensures AcksFit(ApplyAll(w, moves))
  {
    hide Fits, Understand, Decode, Frame;
    if moves != [] {
      var n := |moves| - 1;
      ApplyAllAcksFit(w, moves[..n]);
      var w1, m := ApplyAll(w, moves[..n]), moves[n];
      if m.Deliver? && m.frame < |w1.frames| && Understand(Decode(w1.frames[m.frame])).WriteTo? {
        AckOfWrite(Decode(w1.frames[m.frame]));
      }
    }
  }

  // ------------------------------------------------------------------ the image is in place

  lemma ExchangeLoads(w: World, data: seq<byte>, base: nat, addr: nat, n: nat)
    requires addr + n <= |data| && base + |data| <= TWO32 && base + addr < TWO32 && n <= SEND_PRG_PACKET_LEN
    requires AcksFit(w) && NextInStep(w)
    ensures var (result, w') := Exchange(w, Write32(base + addr, data[addr..addr + n]));
            && AcksFit(w')
            && (forall i: nat :: !(addr <= i < addr + n) && Loaded(w.mem, data, base, i) ==> Loaded(w'.mem, data, base, i))
            && (result == EOK ==> forall i: nat :: addr <= i < addr + n ==> Loaded(w'.mem, data, base, i))
  {
    hide Exchange, NextInStep, Write32;
    ExchangeInStep(w, base + addr, data[addr..addr + n]);
    var (result, w') := Exchange(w, Write32(base + addr, data[addr..addr + n]));
    forall i: nat
      ensures !(addr <= i < addr + n) && Loaded(w.mem, data, base, i) ==> Loaded(w'.mem, data, base, i)
      ensures result == EOK && addr <= i < addr + n ==> Loaded(w'.mem, data, base, i)
    {
      assert addr <= i < addr + n <==> base + addr <= base + i < base + addr + n;
      if addr <= i < addr + n {
        assert data[addr..addr + n][base + i - (base + addr)] == data[i];
      }
    }
  }

  lemma {:induction false} LoadFromSafe(w: World, data: seq<byte>, base: nat, addr: nat)
    requires addr <= |data| && base + |data| <= TWO32 && base < TWO32 && (addr < |data| || addr == 0)
    requires AcksFit(w) && LockStep(w, data, base, addr)
    requires forall i: nat :: i < addr ==> Loaded(w.mem, data, base, i)
    ensures var (result, w') := LoadFrom(w, data, base, addr);
            result == EOK ==> forall i: nat :: i < |data| ==> Loaded(w'.mem, data, base, i)
    decreases |data| - addr
  {
    hide Exchange, NextInStep, Write32, Loaded;
    var len := |data| - addr;
    var n := if len > SEND_PRG_PACKET_LEN then SEND_PRG_PACKET_LEN else len;
    ExchangeLoads(w, data, base, addr, n);
    if len > SEND_PRG_PACKET_LEN {
      var (result, w1) := Exchange(w, Write32(base + addr, data[addr..addr + n]));
      if result == EOK {
        LoadFromSafe(w1, data, base, addr + n);
      }
    } else {
      assert data[addr..] == data[addr..addr + n];
    }
  }

  /** Over a link in step, success means the image is at the address the type names, where SendGoCmd jumps. */
  lemma LoadSafe(w: World, data: seq<byte>, addrType: int)
    requires |data| < TWO32 / 2 && AcksFit(w)
    requires Base(addrType).Some? ==> LockStep(w, data, Base(addrType).value, 0)
    ensures var (result, w') := Load(w, data, addrType);
            result == EOK ==>
              && Base(addrType).Some?
              && (forall i: nat :: i < |data| ==> Loaded(w'.mem, data, FromBE32(Go(addrType)[1..5]), i))
  {
    hide Loaded, FromBE32, LoadFrom, LockStep;
    if Base(addrType).Some? {
      LoadFromSafe(w, data, Base(addrType).value, 0);
      GoNamesBase(addrType);
    }
  }

  // ------------------------------------------------------------------ a link that is in step, and succeeds

  /** How many commands an image of this length takes; an empty one takes one. */
  function Exchanges(len: nat): (n: nat)
    ensures n > 0
  {
    if len > SEND_PRG_PACKET_LEN then 1 + Exchanges(len - SEND_PRG_PACKET_LEN) else 1
  }

  lemma PromptInStep(w: World, k: nat)
    requires Prompt(w, k) && k > 0
    ensures NextInStep(w)
  {
    hide Fits;
    assert PromptMoves(w.plan[0], |w.frames| + 0, |w.acks| + 0);
  }

  lemma PromptTransmit(w: World, addr: nat, chunk: seq<byte>, k: nat)
    requires Prompt(w, k) && k > 0 && addr < TWO32 && |chunk| <= SEND_PRG_PACKET_LEN
    ensures var (sent, w1) := Transmit(w, Write32(addr, chunk));
            && sent == EOK && w1.open && AcksFit(w1) && |w1.frames| == |w.frames| + 1
            && w1.acks == w.acks + [[CMD_ACK]] && w1.plan == w.plan[1..]
            && exists idle: Idle :: FlagFree(idle.noise) && w1.rx == Octets(idle.noise + Flags(idle.extra) + Frame([CMD_ACK]))
  {
    hide Fits, Frame, Understand, Decode, WriteMem, Write32;
    var req := Write32(addr, chunk);
    NeverBroken(addr, chunk, w);
    Write32NotEmpty(addr, chunk);
    DecodeFrame(req);
    Write32Understood(addr, chunk);
    SmallFits([CMD_ACK]);
    var w0 := w.(frames := w.frames + [Frame(req)], rx := [], plan := w.plan[1..]);
    var moves := w.plan[0];
    assert PromptMoves(moves, |w.frames| + 0, |w.acks| + 0);
    assert moves[..1] == [moves[0]] && moves[..1][..0] == [];
    var w' := Apply(w0, moves[0]);
    assert ApplyAll(w0, moves[..1]) == w';
    assert ApplyAll(w0, moves) == Apply(w', moves[1]);
    var idle := moves[1].idle;
    EmptyUnit(Octets(idle.noise + Flags(idle.extra) + Frame([CMD_ACK])));
  }

  lemma PromptExchange(w: World, addr: nat, chunk: seq<byte>, k: nat)
    requires Prompt(w, k) && k > 0 && addr < TWO32 && |chunk| <= SEND_PRG_PACKET_LEN
    ensures NextInStep(w)
    ensures var (result, w') := Exchange(w, Write32(addr, chunk)); result == EOK && Prompt(w', k - 1)
  {
    PromptInStep(w, k);
    PromptTransmit(w, addr, chunk, k);
    hide Fits, Frame, Hunt, Transmit, Fcs, PromptMoves, Write32, Cleared, AckResult, NextInStep;
    var w1 := Transmit(w, Write32(addr, chunk)).1;
    HearAck(w1, [CMD_ACK]);
    AcknowledgedExactly([CMD_ACK]);
    PromptShift(w, w1, k);
  }

  lemma {:induction false} PromptLockStep(w: World, data: seq<byte>, base: nat, addr: nat)
    requires addr <= |data| && base + |data| <= TWO32 && base < TWO32 && (addr < |data| || addr == 0)
    requires Prompt(w, Exchanges(|data| - addr))
    ensures LockStep(w, data, base, addr) && LoadFrom(w, data, base, addr).0 == EOK
    decreases |data| - addr
  {
    hide Prompt, Exchange, Write32, NextInStep;
    var len := |data| - addr;
    if len > SEND_PRG_PACKET_LEN {
      var chunk := data[addr..addr + SEND_PRG_PACKET_LEN];
      PromptExchange(w, base + addr, chunk, Exchanges(len));
      PromptLockStep(Exchange(w, Write32(base + addr, chunk)).1, data, base, addr + SEND_PRG_PACKET_LEN);
    } else {
      PromptExchange(w, base + addr, data[addr..], Exchanges(len));
    }
  }

  lemma PromptAcksFit(w: World, k: nat)
    requires Prompt(w, k)
    ensures AcksFit(w)
  {
    hide AcksFit;
  }

  /** Over a link that delivers everything promptly, the load of every type succeeds and the image is in place. */
  lemma PromptLoads(w: World, data: seq<byte>, addrType: int)
    requires |data| < TWO32 / 2 && Base(addrType).Some? && Prompt(w, Exchanges(|data|))
    ensures Load(w, data, addrType).0 == EOK
    ensures forall i: nat :: i < |data| ==> Loaded(Load(w, data, addrType).1.mem, data, FromBE32(Go(addrType)[1..5]), i)
  {
    hide Loaded, FromBE32, Go, LoadFrom, LockStep, Prompt, AcksFit, Exchanges;
    PromptAcksFit(w, Exchanges(|data|));
    PromptLockStep(w, data, Base(addrType).value, 0);
    LoadSafe(w, data, addrType);
  }

  // ------------------------------------------------------------------ what is sent, and what ends a load

  /** The frames of the first k writes of an image, from the chunk at addr on. */
  function Writes32(data: seq<byte>, base: nat, addr: nat, k: nat): seq<seq<byte>>
    requires addr <= |data| && base + |data| <= TWO32 && base + addr < TWO32
    decreases k
  {
    if k == 0 then []
    else
      var len := |data| - addr;
      var n := if len > SEND_PRG_PACKET_LEN then SEND_PRG_PACKET_LEN else len;
      [Frame(Write32(base + addr, data[addr..addr + n]))] + (if n < len then Writes32(data, base, addr + n, k - 1) else [])
  }

  lemma {:induction false} ApplyAllFrames(w: World, moves: seq<Move>)
    ensures ApplyAll(w, moves).frames == w.frames && ApplyAll(w, moves).plan == w.plan
  {
    hide Understand, Decode, Frame, Fits;
    if moves != [] {
      ApplyAllFrames(w, moves[..|moves| - 1]);
    }
  }

  lemma ExchangeSends(w: World, addr: nat, chunk: seq<byte>)
    requires addr < TWO32 && |chunk| <= SEND_PRG_PACKET_LEN
    ensures var (result, w') := Exchange(w, Write32(addr, chunk));
            && w'.frames == w.frames + (if w.open then [Frame(Write32(addr, chunk))] else [])
            && (!w.open ==> result == EPACKETSEND)
  {
    hide Frame, Fits, Hunt, Write32, ApplyAll, AckResult, Cleared;
    var req := Write32(addr, chunk);
    NeverBroken(addr, chunk, w);
    Write32NotEmpty(addr, chunk);
    EmptyUnit(w.frames);
    var w0 := if w.open then w.(frames := w.frames + [Frame(req)], rx := []) else w;
    if w.plan != [] {
      ApplyAllFrames(w0.(plan := w.plan[1..]), w.plan[0]);
    }
  }

  /**
   Whatever the link does, the writes go out in order, each at most once and none skipped, and success means that
   all of them went out.
   */
  lemma {:induction false} LoadSends(w: World, data: seq<byte>, base: nat, addr: nat) returns (k: nat)
    requires addr <= |data| && base + |data| <= TWO32 && base < TWO32 && (addr < |data| || addr == 0)
    ensures var (result, w') := LoadFrom(w, data, base, addr);
            && k <= Exchanges(|data| - addr)
            && w'.frames == w.frames + Writes32(data, base, addr, k)
            && (result == EOK ==> k == Exchanges(|data| - addr))
    decreases |data| - addr
  {
    hide Exchange, Write32, Frame;
    var len := |data| - addr;
    var n := if len > SEND_PRG_PACKET_LEN then SEND_PRG_PACKET_LEN else len;
    var chunk := data[addr..addr + n];
    assert chunk == ChunkAt(data, addr);
    ExchangeSends(w, base + addr, chunk);
    var (result, w1) := Exchange(w, Write32(base + addr, chunk));
    EmptyUnit([Frame(Write32(base + addr, chunk))]);
    EmptyUnit(w.frames);
    FirstWrite(data, base, addr);
    k := if w.open then 1 else 0;
    if result == EOK && len > SEND_PRG_PACKET_LEN {
      var more := LoadSends(w1, data, base, addr + n);
      Assoc(w.frames, [Frame(Write32(base + addr, chunk))], Writes32(data, base, addr + n, more));
      k := 1 + more;
    }
  }

  /** The chunk at addr. */
  function ChunkAt(data: seq<byte>, addr: nat): (chunk: seq<byte>)
    requires addr <= |data|
    ensures |chunk| <= SEND_PRG_PACKET_LEN
  {
    if |data| - addr > SEND_PRG_PACKET_LEN then data[addr..addr + SEND_PRG_PACKET_LEN] else data[addr..]
  }

  lemma FirstWrite(data: seq<byte>, base: nat, addr: nat)
    requires addr <= |data| && base + |data| <= TWO32 && base + addr < TWO32
    ensures Writes32(data, base, addr, 1) == [Frame(Write32(base + addr, ChunkAt(data, addr)))]
  {
    hide Write32, Frame;
    var len := |data| - addr;
    var n := if len > SEND_PRG_PACKET_LEN then SEND_PRG_PACKET_LEN else len;
    assert ChunkAt(data, addr) == data[addr..addr + n];
    EmptyUnit([Frame(Write32(base + addr, data[addr..addr + n]))]);
  }

  lemma LoadFails(w: World, data: seq<byte>, base: nat, addr: nat)
    requires addr <= |data| && base + |data| <= TWO32 && base < TWO32 && (addr < |data| || addr == 0)
    ensures base + addr < TWO32
    ensures var r := Exchange(w, Write32(base + addr, ChunkAt(data, addr))); r.0 != EOK ==> LoadFrom(w, data, base, addr) == r
  {
    hide Exchange, Write32;
  }

  /**
   A response that is no acknowledgement ends the load at once, with EACKFAILED for a NAK and EACKPACKET for
   anything else: one write was sent, and what was still to come is never looked at.
   */
  lemma RefusalEnds(w: World, data: seq<byte>, base: nat, addr: nat, q: seq<byte>, idle: Idle)
    requires addr <= |data| && base + |data| <= TWO32 && base < TWO32 && (addr < |data| || addr == 0)
    requires w.open && w.plan != [] && w.plan[0] == [Say(q, idle)] && Foreign(q) && FlagFree(idle.noise)
    ensures LoadFrom(w, data, base, addr) ==
            (if q[0] == CMD_NAK then EACKFAILED else EACKPACKET,
             w.(frames := w.frames + Writes32(data, base, addr, 1), rx := [], plan := w.plan[1..]))
  {
    hide Exchange, Write32, Frame, Foreign, FlagFree, LoadFrom, Writes32, ChunkAt;
    LoadFails(w, data, base, addr);
    RefusedExchange(w, base + addr, ChunkAt(data, addr), q, idle);
    FirstWrite(data, base, addr);
  }

  lemma RefusedExchange(w: World, addr: nat, chunk: seq<byte>, q: seq<byte>, idle: Idle)
    requires addr < TWO32 && |chunk| <= SEND_PRG_PACKET_LEN
    requires w.open && w.plan != [] && w.plan[0] == [Say(q, idle)] && Foreign(q) && FlagFree(idle.noise)
    ensures Exchange(w, Write32(addr, chunk)) ==
            (if q[0] == CMD_NAK then EACKFAILED else EACKPACKET,
             w.(frames := w.frames + [Frame(Write32(addr, chunk))], rx := [], plan := w.plan[1..]))
  {
    hide Frame, Fits, Hunt, Write32, AckResult, Cleared, Fcs;
    var req := Write32(addr, chunk);
    NeverBroken(addr, chunk, w);
    Write32NotEmpty(addr, chunk);
    AcknowledgedExactly(q);
    var w0 := w.(frames := w.frames + [Frame(req)], rx := [], plan := w.plan[1..]);
    var moves := w.plan[0];
    assert moves[..0] == [];
    assert ApplyAll(w0, moves) == Apply(w0, moves[0]);
    EmptyUnit(Octets(idle.noise + Flags(idle.extra) + Frame(q)));
    FrameReceived(idle.noise, idle.extra, q, 1, []);
  }

  /** No answer ends the load at once as well, with EPORTRECEIVE: nothing is sent again. */
  lemma SilenceEndsLoad(w: World, data: seq<byte>, base: nat, addr: nat, e: Rx)
    requires addr <= |data| && base + |data| <= TWO32 && base < TWO32 && (addr < |data| || addr == 0)
    requires w.open && w.plan != [] && w.plan[0] == [Quiet(e)] && !e.Octet?
    ensures LoadFrom(w, data, base, addr) ==
            (EPORTRECEIVE, w.(frames := w.frames + Writes32(data, base, addr, 1), rx := [], plan := w.plan[1..]))
  {
    hide Exchange, Write32, Frame, LoadFrom, Writes32, ChunkAt;
    LoadFails(w, data, base, addr);
    SilentExchange(w, base + addr, ChunkAt(data, addr), e);
    FirstWrite(data, base, addr);
  }

  lemma SilentExchange(w: World, addr: nat, chunk: seq<byte>, e: Rx)
    requires addr < TWO32 && |chunk| <= SEND_PRG_PACKET_LEN
    requires w.open && w.plan != [] && w.plan[0] == [Quiet(e)] && !e.Octet?
    ensures Exchange(w, Write32(addr, chunk)) ==
            (EPORTRECEIVE, w.(frames := w.frames + [Frame(Write32(addr, chunk))], rx := [], plan := w.plan[1..]))
  {
    hide Frame, Fits, Write32, AckResult, Cleared;
    var req := Write32(addr, chunk);
    NeverBroken(addr, chunk, w);
    Write32NotEmpty(addr, chunk);
    var w0 := w.(frames := w.frames + [Frame(req)], rx := [], plan := w.plan[1..]);
    var moves := w.plan[0];
    assert moves[..0] == [];
    assert ApplyAll(w0, moves) == Apply(w0, moves[0]);
    assert [] + [e] == [e] && [e][1..] == [];
  }

  // ------------------------------------------------------------------ over any link: exactly one chunk is safe

  /** A load that reports success has left every byte of the image in memory. */
  ghost predicate LoadComplete(w: World, data: seq<byte>, base: nat)
    requires base + |data| <= TWO32 && base < TWO32
  {
    var (result, w') := LoadFrom(w, data, base, 0);
    result == EOK ==> forall i: nat :: i < |data| ==> Loaded(w'.mem, data, base, i)
  }

  /** The write sent first is the only frame there is, and every answer so far is to it. */
  ghost predicate OnlyWrite(w: World, addr: nat, chunk: seq<byte>)
    requires addr < TWO32 && |chunk| <= SEND_PRG_PACKET_LEN
  {
    && w.frames == [Frame(Write32(addr, chunk))] && AcksFit(w)
    && (w.acks != [] ==> forall i: nat :: addr <= i < addr + |chunk| ==> i in w.mem && w.mem[i] == chunk[i - addr])
  }

  lemma OnlyWriteKept(w: World, m: Move, addr: nat, chunk: seq<byte>)
    requires addr < TWO32 && |chunk| <= SEND_PRG_PACKET_LEN && OnlyWrite(w, addr, chunk)
    ensures OnlyWrite(Apply(w, m), addr, chunk)
  {
    hide Understand, Decode, Frame, WriteMem, Fits, Write32;
    if m.Deliver? && m.frame == 0 {
      var req := Write32(addr, chunk);
      NeverBroken(addr, chunk, w);
      Write32NotEmpty(addr, chunk);
      DecodeFrame(req);
      Write32Understood(addr, chunk);
      AckOfWrite(req);
      forall i: nat | addr <= i < addr + |chunk|
        ensures var mem' := WriteMem(w.mem, addr, chunk); i in mem' && mem'[i] == chunk[i - addr]
      {
        WriteMemAt(w.mem, addr, chunk, i);
      }
    }
  }

  lemma {:induction false} OnlyWriteThroughout(w: World, moves: seq<Move>, addr: nat, chunk: seq<byte>)
    requires addr < TWO32 && |chunk| <= SEND_PRG_PACKET_LEN && OnlyWrite(w, addr, chunk)
    ensures OnlyWrite(ApplyAll(w, moves), addr, chunk)
    decreases |moves|
  {
    hide Apply, Write32, OnlyWrite;
    if moves != [] {
      var n := |moves| - 1;
      OnlyWriteThroughout(w, moves[..n], addr, chunk);
      OnlyWriteKept(ApplyAll(w, moves[..n]), moves[n], addr, chunk);
    }
  }

  /** The first exchange on a link with nothing in it cannot be answered by anything but its own write. */
  lemma FirstExchangeStores(w: World, addr: nat, chunk: seq<byte>)
    requires addr < TWO32 && |chunk| <= SEND_PRG_PACKET_LEN && Fresh(w)
    requires Exchange(w, Write32(addr, chunk)).0 == EOK
    ensures var mem := Exchange(w, Write32(addr, chunk)).1.mem;
            forall i: nat :: addr <= i < addr + |chunk| ==> i in mem && mem[i] == chunk[i - addr]
  {
    hide Frame, Fits, Hunt, Apply, ApplyAll, AckResult, Cleared, Write32;
    var req := Write32(addr, chunk);
    var w1 := Transmit(w, req).1;
    NeverBroken(addr, chunk, w);
    Write32NotEmpty(addr, chunk);
    var w0 := w.(frames := w.frames + [Frame(req)], rx := []);
    assert w0.frames == [Frame(req)];
    if w.plan != [] {
      OnlyWriteThroughout(w0.(plan := w.plan[1..]), w.plan[0], addr, chunk);
    }
    AnyReply(w);
    AnswerIsNew(w, req, 0);
  }

  /** Every request after the first is lost, and the first acknowledgement comes again. */
  function StaleRest(n: nat): seq<seq<Move>> {
    if n == 0 then [] else [[Reply(0, Idle([], 0))]] + StaleRest(n - 1)
  }

  function StalePlan(n: nat): seq<seq<Move>> {
    [[Deliver(0), Reply(0, Idle([], 0))]] + StaleRest(n)
  }

  /**
   The acknowledgement carries no address, so a repeated one is taken for the next chunk: for every
   image of more than one chunk this link makes the load succeed with all but the first missing.
   */
  lemma StaleAckAccepted(data: seq<byte>, base: nat)
    requires SEND_PRG_PACKET_LEN < |data| && base + |data| <= TWO32
    ensures var (result, w') := LoadFrom(World(map[], [], [], StalePlan(Exchanges(|data|) - 1), true, []), data, base, 0);
            result == EOK && forall i: nat :: SEND_PRG_PACKET_LEN <= i ==> !Loaded(w'.mem, data, base, i)
  {
    hide Write32, WriteMem, Frame, Exchange;
    var n := SEND_PRG_PACKET_LEN;
    var k := Exchanges(|data|) - 1;
    assert k == Exchanges(|data| - n);
    StaleFirst(base, data[0..n], k);
    var w1 := AfterFirst(base, data[0..n], k);
    StaleLater(w1, data, base, n, k);
    assert base + 0 == base;
    forall i: nat | n <= i
      ensures !Loaded(w1.mem, data, base, i)
    {
      WriteMemAt(map[], base, data[0..n], base + i);
    }
  }

  function AfterFirst(base: nat, chunk: seq<byte>, n: nat): World
    requires base < TWO32 && |chunk| <= SEND_PRG_PACKET_LEN
  {
    World(WriteMem(map[], base, chunk), [Frame(Write32(base, chunk))], [[CMD_ACK]], StaleRest(n), true, [])
  }

  lemma StaleFirst(base: nat, chunk: seq<byte>, n: nat)
    requires base < TWO32 && |chunk| <= SEND_PRG_PACKET_LEN
    ensures Exchange(World(map[], [], [], StalePlan(n), true, []), Write32(base, chunk)) == (EOK, AfterFirst(base, chunk, n))
  {
    hide Fits, Write32, Decode, Understand, WriteMem, Frame, Hunt, AckResult, Cleared, Fcs, StaleRest;
    var w := World(map[], [], [], StalePlan(n), true, []);
    var req := Write32(base, chunk);
    NeverBroken(base, chunk, w);
    Write32NotEmpty(base, chunk);
    DecodeFrame(req);
    Write32Understood(base, chunk);
    var idle := Idle([], 0);
    var w0 := World(map[], [Frame(req)], [], StaleRest(n), true, []);
    assert [] + [Frame(req)] == [Frame(req)];
    assert StalePlan(n)[1..] == StaleRest(n);
    var moves := StalePlan(n)[0];
    assert moves[..1] == [moves[0]] && moves[..1][..0] == [];
    var wd := Apply(w0, moves[0]);
    assert ApplyAll(w0, moves[..1]) == wd;
    AckHeard(wd.(acks := [[CMD_ACK]]));
    assert [] + [[CMD_ACK]] == [[CMD_ACK]];
  }

  /** A repeated CMD_ACK, alone on the line, is heard as success. */
  lemma AckHeard(w: World)
    requires w.open && w.acks == [[CMD_ACK]] && w.rx == []
    ensures var w' := Apply(w, Reply(0, Idle([], 0)));
            && Listen(w').0.result == EOK && AckResult(Cleared(Listen(w').0.content)) == EOK
            && Listen(w').1 == w
  {
    hide Frame, Hunt, Fcs, Cleared, AckResult;
    var ack := [CMD_ACK];
    SmallFits(ack);
    FrameReceived([], 0, ack, 1, []);
    EmptyUnit(Octets([] + Flags(0) + Frame(ack)));
    AcknowledgedExactly(ack);
  }

  /** Such a link acknowledges anything and stores nothing. */
  predicate Stale(w: World, n: nat) {
    w.open && w.acks == [[CMD_ACK]] && w.plan == StaleRest(n)
  }

  lemma StaleExchange(w: World, addr: nat, chunk: seq<byte>, n: nat)
    requires addr < TWO32 && |chunk| <= SEND_PRG_PACKET_LEN && Stale(w, n) && n > 0
    ensures var (result, w') := Exchange(w, Write32(addr, chunk));
            result == EOK && w'.mem == w.mem && Stale(w', n - 1)
  {
    hide Fits, Write32, Frame, Hunt, AckResult, Cleared, Fcs;
    NeverBroken(addr, chunk, w);
    Write32NotEmpty(addr, chunk);
    var w0 := w.(frames := w.frames + [Frame(Write32(addr, chunk))], rx := [], plan := StaleRest(n - 1));
    var moves := w.plan[0];
    assert moves[..0] == [] && w.plan[1..] == StaleRest(n - 1);
    assert ApplyAll(w0, moves) == Apply(w0, moves[0]);
    AckHeard(w0);
  }

  lemma {:induction false} StaleLater(w: World, data: seq<byte>, base: nat, addr: nat, n: nat)
    requires addr < |data| && base + |data| <= TWO32 && Stale(w, n) && n == Exchanges(|data| - addr)
    ensures var (result, w') := LoadFrom(w, data, base, addr); result == EOK && w'.mem == w.mem
    decreases |data| - addr
  {
    hide Stale, Exchange, Write32;
    var len := |data| - addr;
    if len > SEND_PRG_PACKET_LEN {
      var chunk := data[addr..addr + SEND_PRG_PACKET_LEN];
      StaleExchange(w, base + addr, chunk, n);
      StaleLater(Exchange(w, Write32(base + addr, chunk)).1, data, base, addr + SEND_PRG_PACKET_LEN, n - 1);
    } else {
      StaleExchange(w, base + addr, data[addr..], n);
    }
  }

  /**
   Success means that the image is in memory, whatever the link loses, delays, repeats and reorders,
   exactly for images of a single chunk.
   */
  lemma CompleteIffOneChunk(data: seq<byte>, base: nat)
    requires base + |data| <= TWO32 && base < TWO32
    ensures (forall w :: Fresh(w) ==> LoadComplete(w, data, base)) <==> |data| <= SEND_PRG_PACKET_LEN
  {
    if |data| <= SEND_PRG_PACKET_LEN {
      forall w | Fresh(w)
        ensures LoadComplete(w, data, base)
      {
        OneChunkComplete(w, data, base);
      }
    } else {
      hide Loaded, LoadFrom;
      var w := World(map[], [], [], StalePlan(Exchanges(|data|) - 1), true, []);
      StaleAckAccepted(data, base);
      assert !Loaded(LoadFrom(w, data, base, 0).1.mem, data, base, SEND_PRG_PACKET_LEN);
      assert Fresh(w) && !LoadComplete(w, data, base);
    }
  }

  lemma OneChunkComplete(w: World, data: seq<byte>, base: nat)
    requires base + |data| <= TWO32 && base < TWO32 && |data| <= SEND_PRG_PACKET_LEN && Fresh(w)
    ensures LoadComplete(w, data, base)
  {
    hide Write32, Exchange;
    assert base + 0 == base && data[0..] == data;
    if Exchange(w, Write32(base, data)).0 == EOK {
      FirstExchangeStores(w, base, data);
    }
  }
}
