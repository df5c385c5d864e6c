/**
 Printer and parser agree: what SendHDLCPkt writes is what RcvHDLCPkt reads, frame by frame, and the
 receiver accepts nothing but escaped text of the right length that ends in its own FCS.
 */
module HdlcTheory {
  import opened Bytes
  import opened Crc16
  import opened Crc16Theory
  import opened Hdlc
  import opened Seqs

  // ------------------------------------------------------------------ stuffing

  lemma EscapeUndone(b: byte)
    ensures Mask(Mask(b)) == b
    ensures Special(b) ==> !Special(Mask(b))
  {
  }

  lemma {:induction false} StuffAppend(s: seq<byte>, t: seq<byte>)
    ensures Stuff(s + t) == Stuff(s) + Stuff(t)
  {
    hide StuffByte;
    if t == [] {
      assert s + t == s;
    } else {
      var u := t[..|t| - 1];
      assert (s + t)[..|s + t| - 1] == s + u;
      StuffAppend(s, u);
    }
  }

  lemma StuffOne(b: byte)
    ensures Stuff([b]) == StuffByte(b)
  {
    assert [b][..0] == [];
  }

  lemma StuffHead(s: seq<byte>)
    requires s != []
    ensures Stuff(s) == StuffByte(s[0]) + Stuff(s[1..])
  {
    StuffOne(s[0]);
    StuffAppend([s[0]], s[1..]);
    assert s == [s[0]] + s[1..];
  }

  lemma {:induction false} StuffTransparent(s: seq<byte>)
    ensures FLAG !in Stuff(s)
  {
    if s != [] {
      StuffTransparent(s[..|s| - 1]);
      EscapeUndone(s[|s| - 1]);
    }
  }

  lemma OctetsAppend(s: seq<byte>, t: seq<byte>)
    ensures Octets(s + t) == Octets(s) + Octets(t)
  {
  }

  // ------------------------------------------------------------------ the receiver on stuffed text

  /** Undo the escapes of a text that holds no unescaped flag. */
  function Unescape(t: seq<byte>): Option<seq<byte>>
    decreases |t|
  {
    if t == [] then Some([])
    else if t[0] == FLAG then None
    else if t[0] == ESC then
      if |t| == 1 then None
      else
        var u := Unescape(t[2..]);
        if u.None? then None else Some([Mask(t[1])] + u.value)
    else
      var u := Unescape(t[1..]);
      if u.None? then None else Some([t[0]] + u.value)
  }

  lemma {:induction false} GatherEscaped(got: seq<byte>, t: seq<byte>, ev: seq<Rx>)
    requires Unescape(t).Some? && |got| + |Unescape(t).value| <= MAX_PACKET_LEN
    ensures Gather(got, Octets(t) + ev) == Gather(got + Unescape(t).value, ev)
    decreases |t|
  {
    hide Run;
    var all := Octets(t) + ev;
    if t == [] {
      assert all == ev && got + [] == got;
    } else {
      var k := if t[0] == ESC then 2 else 1;
      var b := if t[0] == ESC then Mask(t[1]) else t[0];
      assert all[k..] == Octets(t[k..]) + ev;
      GatherEscaped(got + [b], t[k..], ev);
      assert got + [b] + Unescape(t[k..]).value == got + Unescape(t).value;
    }
  }

  lemma {:induction false} UnescapeStuff(s: seq<byte>)
    ensures Unescape(Stuff(s)) == Some(s)
    decreases |s|
  {
    if s != [] {
      var b, t := s[0], s[1..];
      StuffHead(s);
      EscapeUndone(b);
      UnescapeStuff(t);
      assert Stuff(s)[|StuffByte(b)|..] == Stuff(t);
      assert s == [b] + t;
    }
  }

  /** Stuffed text is gathered back byte for byte, up to the size of the buffer. */
  lemma GatherStuffed(got: seq<byte>, s: seq<byte>, ev: seq<Rx>)
    requires |got| + |s| <= MAX_PACKET_LEN
    ensures Gather(got, Octets(Stuff(s)) + ev) == Gather(got + s, ev)
  {
    hide *;
    UnescapeStuff(s);
    GatherEscaped(got, Stuff(s), ev);
  }

  lemma GatherOne(got: seq<byte>, b: byte, ev: seq<Rx>)
    ensures Gather(got, Octets(StuffByte(b)) + ev) == Store(got, b, ev)
  {
    hide Run, Verdict;
    EscapeUndone(b);
    var all := Octets(StuffByte(b)) + ev;
    assert all[|StuffByte(b)|..] == ev;
  }

  /** One byte more than the buffer holds is refused as soon as it arrives. */
  lemma GatherOverrun(got: seq<byte>, s: seq<byte>, ev: seq<Rx>)
    requires |got| + |s| > MAX_PACKET_LEN >= |got|
    ensures var n := MAX_PACKET_LEN - |got|;
            Gather(got, Octets(Stuff(s)) + ev)
            == Outcome(EPACKETRECEIVETOOLARGE, got + s[..n], Octets(Stuff(s[n + 1..])) + ev)
  {
    hide Run, Verdict, StuffByte, Gather, Stuff;
    var n := MAX_PACKET_LEN - |got|;
    var b, t := s[n], s[n + 1..];
    assert s == s[..n] + ([b] + t);
    assert ([b] + t)[1..] == t;
    StuffAppend(s[..n], [b] + t);
    StuffHead([b] + t);
    OctetsAppend(Stuff(s[..n]), StuffByte(b) + Stuff(t));
    OctetsAppend(StuffByte(b), Stuff(t));
    var tail := Octets(Stuff(t)) + ev;
    assert Octets(Stuff(s)) + ev == Octets(Stuff(s[..n])) + (Octets(StuffByte(b)) + tail);
    GatherStuffed(got, s[..n], Octets(StuffByte(b)) + tail);
    GatherOne(got + s[..n], b, tail);
  }

  predicate FlagFree(s: seq<byte>) {
    FLAG !in s
  }

  function Flags(n: nat): seq<byte> {
    seq(n, _ => FLAG)
  }

  /** Anything without a flag is hunted through, and any run of flags counts as one. */
  lemma {:induction false} HuntThrough(noise: seq<byte>, flags: nat, ev: seq<Rx>)
    requires FlagFree(noise) && flags > 0
    ensures Hunt(Octets(noise + Flags(flags)) + ev) == GotFlag(ev)
    decreases |noise|
  {
    var all := Octets(noise + Flags(flags)) + ev;
    if noise == [] {
      assert all[1..] == Octets(Flags(flags - 1)) + ev;
      SkipFlags(flags - 1, ev);
    } else {
      assert all[0] == Octet(noise[0]);
      assert all[1..] == Octets(noise[1..] + Flags(flags)) + ev;
      HuntThrough(noise[1..], flags, ev);
    }
  }

  lemma {:induction false} SkipFlags(flags: nat, ev: seq<Rx>)
    ensures GotFlag(Octets(Flags(flags)) + ev) == GotFlag(ev)
    decreases flags
  {
    var all := Octets(Flags(flags)) + ev;
    if flags == 0 {
      assert all == ev;
    } else {
      assert all[1..] == Octets(Flags(flags - 1)) + ev;
      SkipFlags(flags - 1, ev);
    }
  }

  /** The verdict on the stuffed form of any non-empty content between flags, valid or not. */
  lemma ContentReceived(noise: seq<byte>, flags: nat, c: seq<byte>, rest: seq<Rx>)
    requires FlagFree(noise) && flags > 0 && 0 < |c|
    ensures var o := Hunt(Octets(noise + Flags(flags)) + (Octets(Stuff(c) + [FLAG]) + rest));
            if |c| > MAX_PACKET_LEN then o.result == EPACKETRECEIVETOOLARGE
            else o == Outcome(Verdict(c), c, rest)
  {
    hide Run;
    var ev := Octets([FLAG]) + rest;
    OctetsAppend(Stuff(c), [FLAG]);
    assert Octets(Stuff(c) + [FLAG]) + rest == Octets(Stuff(c)) + ev;
    HuntThrough(noise, flags, Octets(Stuff(c)) + ev);
    StuffHead(c);
    assert StuffByte(c[0])[0] != FLAG;
    assert GotFlag(Octets(Stuff(c)) + ev) == Gather([], Octets(Stuff(c)) + ev);
    if |c| > MAX_PACKET_LEN {
      GatherOverrun([], c, ev);
    } else {
      GatherStuffed([], c, ev);
      assert [] + c == c && ev[1..] == rest;
    }
  }

  /** The frame after one that was too large is received all the same: what is left of the large one is hunted through. */
  lemma OverrunRecovers(noise: seq<byte>, flags: nat, c: seq<byte>, extra: nat, p: seq<byte>, rest: seq<Rx>)
    requires FlagFree(noise) && flags > 0 && |c| > MAX_PACKET_LEN && p != [] && Fits(1, p)
    ensures var next := Octets(Flags(extra) + Frame(p)) + rest;
            var o := Hunt(Octets(noise + Flags(flags)) + (Octets(Stuff(c) + [FLAG]) + next));
            o.result == EPACKETRECEIVETOOLARGE && Hunt(o.rest) == Outcome(EOK, p + Fcs(p), rest)
  {
    hide Run, Fcs, Frame, Fits, Stuff, Hunt, Gather, GotFlag, Octets, FlagFree;
    var frame := Flags(extra) + Frame(p);
    var left := Stuff(c[MAX_PACKET_LEN + 1..]);
    OverrunLeaves(noise, flags, c, Octets(frame) + rest);
    LeftFlagFree(c[MAX_PACKET_LEN + 1..]);
    FrameReceived(left, extra + 1, p, 1, rest);
    OctetsAppend([FLAG], frame);
    OctetsAppend(left, [FLAG] + frame);
    Assoc(Octets([FLAG]), Octets(frame), rest);
    Assoc(Octets(left), Octets([FLAG] + frame), rest);
    OneMoreFlag(left, extra, Frame(p));
  }

  lemma LeftFlagFree(s: seq<byte>)
    ensures FlagFree(Stuff(s))
  {
    StuffTransparent(s);
  }

  lemma OneMoreFlag(left: seq<byte>, extra: nat, frame: seq<byte>)
    ensures left + Flags(extra + 1) + frame == left + ([FLAG] + (Flags(extra) + frame))
  {
    assert Flags(extra + 1) == [FLAG] + Flags(extra);
  }

  /** What a frame that is too large leaves on the line: the rest of its text, its flag, and what follows. */
  lemma OverrunLeaves(noise: seq<byte>, flags: nat, c: seq<byte>, next: seq<Rx>)
    requires FlagFree(noise) && flags > 0 && |c| > MAX_PACKET_LEN
    ensures Hunt(Octets(noise + Flags(flags)) + (Octets(Stuff(c) + [FLAG]) + next))
         == Outcome(EPACKETRECEIVETOOLARGE, c[..MAX_PACKET_LEN], Octets(Stuff(c[MAX_PACKET_LEN + 1..])) + (Octets([FLAG]) + next))
  {
    hide Run, Stuff, Gather, Verdict;
    var ev := Octets([FLAG]) + next;
    OctetsAppend(Stuff(c), [FLAG]);
    assert Octets(Stuff(c) + [FLAG]) + next == Octets(Stuff(c)) + ev;
    HuntThrough(noise, flags, Octets(Stuff(c)) + ev);
    StuffBegins(c);
    assert GotFlag(Octets(Stuff(c)) + ev) == Gather([], Octets(Stuff(c)) + ev);
    GatherOverrun([], c, ev);
    assert [] + c[..MAX_PACKET_LEN] == c[..MAX_PACKET_LEN];
  }

  lemma StuffBegins(c: seq<byte>)
    requires c != []
    ensures Stuff(c) != [] && Stuff(c)[0] != FLAG
  {
    StuffHead(c);
  }

  /**
   A read that fails or times out before the closing flag ends the receiver with EPORTRECEIVE, wherever it happens:
   in the noise, between flags, in the contents, or between an escape and the byte it escapes.
   */
  lemma ReadFailureReported(noise: seq<byte>, flags: nat, c: seq<byte>, escaping: bool, e: Rx, rest: seq<Rx>)
    requires FlagFree(noise) && |c| <= MAX_PACKET_LEN && !e.Octet?
    requires flags == 0 ==> c == [] && !escaping
    ensures var fails := if escaping then [Octet(ESC), e] + rest else [e] + rest;
            var o := Hunt(Octets(noise + Flags(flags)) + (Octets(Stuff(c)) + fails));
            o.result == EPORTRECEIVE && o.rest == rest
  {
    hide Run, Stuff, Verdict;
    var ev := if escaping then [Octet(ESC), e] + rest else [e] + rest;
    assert ev[if escaping then 2 else 1..] == rest;
    if flags == 0 {
      StuffNothing();
      assert Octets([]) + ev == ev && noise + Flags(0) == noise;
      HuntFails(noise, e, rest);
    } else {
      HuntThrough(noise, flags, Octets(Stuff(c)) + ev);
      if c == [] {
        StuffNothing();
        assert Octets([]) + ev == ev;
      } else {
        StuffBegins(c);
        assert GotFlag(Octets(Stuff(c)) + ev) == Gather([], Octets(Stuff(c)) + ev);
        GatherStuffed([], c, ev);
      }
    }
  }

  lemma StuffNothing()
    ensures Stuff([]) == []
  {
  }

  lemma {:induction false} HuntFails(noise: seq<byte>, e: Rx, rest: seq<Rx>)
    requires FlagFree(noise) && !e.Octet?
    ensures Hunt(Octets(noise) + ([e] + rest)) == Outcome(EPORTRECEIVE, [], rest)
    decreases |noise|
  {
    var all := Octets(noise) + ([e] + rest);
    if noise == [] {
      assert all == [e] + rest && all[1..] == rest;
    } else {
      assert all[0] == Octet(noise[0]) && all[1..] == Octets(noise[1..]) + ([e] + rest);
      HuntFails(noise[1..], e, rest);
    }
  }

  // ------------------------------------------------------------------ round trip

  lemma FcsAccepted(p: seq<byte>)
    requires p != [] && |p| + 2 <= MAX_PACKET_LEN
    ensures Verdict(p + Fcs(p)) == EOK
  {
    hide Run, Fcs;
    ResidueIffFcs(p, Fcs(p));
  }

  /** The sender's bound, in octets on the line: a frame fits if it has at most 4091. */
  lemma FitsIff(p: seq<byte>)
    ensures Fits(1, p) <==> |Frame(p)| <= 4091
    ensures Fits(0, p) <==> |DiagFrame(p)| <= 4091
  {
    hide Body;
  }

  /** A frame that was not broken is returned as the payload and its FCS, and exactly it is consumed. */
  lemma FrameReceived(noise: seq<byte>, extra: nat, p: seq<byte>, start: nat, rest: seq<Rx>)
    requires FlagFree(noise) && p != [] && Fits(start, p)
    ensures Hunt(Octets(noise + Flags(extra) + Frame(p)) + rest) == Outcome(EOK, p + Fcs(p), rest)
  {
    hide Run, Fcs;
    var c := p + Fcs(p);
    FcsAccepted(p);
    ContentReceived(noise, extra + 1, c, rest);
    assert noise + Flags(extra) + Frame(p) == (noise + Flags(extra + 1)) + (Stuff(c) + [FLAG]);
    OctetsAppend(noise + Flags(extra + 1), Stuff(c) + [FLAG]);
    assert Octets(noise + Flags(extra) + Frame(p)) + rest
        == Octets(noise + Flags(extra + 1)) + (Octets(Stuff(c) + [FLAG]) + rest);
  }

  /** What may precede a frame on the line: bytes that are no flag, then idle flags. */
  datatype Idle = Idle(noise: seq<byte>, extra: nat)

  function Line(sent: seq<(Idle, seq<byte>)>, tail: seq<Rx>): seq<Rx> {
    if sent == [] then tail
    else
      var (idle, p) := sent[0];
      Octets(idle.noise + Flags(idle.extra) + Frame(p)) + Line(sent[1..], tail)
  }

  /** The outcomes of n receive calls in a row. */
  function ReceiveAll(n: nat, ev: seq<Rx>): (seq<Outcome>, seq<Rx>) {
    if n == 0 then ([], ev)
    else
      var o := Hunt(ev);
      var (os, rest) := ReceiveAll(n - 1, o.rest);
      ([o] + os, rest)
  }

  predicate Sendable(sent: seq<(Idle, seq<byte>)>) {
    forall i :: 0 <= i < |sent| ==> FlagFree(sent[i].0.noise) && sent[i].1 != [] && Fits(1, sent[i].1)
  }

  /** Receiving as many frames as were sent yields the payloads in order and leaves the rest of the line. */
  lemma {:induction false} RoundTrip(sent: seq<(Idle, seq<byte>)>, tail: seq<Rx>)
    requires Sendable(sent)
    ensures var (os, rest) := ReceiveAll(|sent|, Line(sent, tail));
            && rest == tail
            && |os| == |sent|
            && forall i :: 0 <= i < |sent| ==> os[i].result == EOK && os[i].content == sent[i].1 + Fcs(sent[i].1)
    decreases |sent|
  {
    hide Run, Fcs, Frame, Fits;
    if sent != [] {
      var (idle, p) := sent[0];
      FrameReceived(idle.noise, idle.extra, p, 1, Line(sent[1..], tail));
      RoundTrip(sent[1..], tail);
    }
  }

  // ------------------------------------------------------------------ damage

  /**
   A frame whose contents had one byte, or two adjacent bytes, replaced is rejected with the CRC
   error, whatever its length and wherever the damage is.
   */
  lemma DamageDetected(idle: Idle, pre: seq<byte>, w: seq<byte>, w': seq<byte>, post: seq<byte>, rest: seq<Rx>)
    requires FlagFree(idle.noise)
    requires |w| == |w'| <= 2 && w != w'
    requires Verdict(pre + w + post) == EOK && |pre + w + post| <= MAX_PACKET_LEN
    ensures Hunt(Octets(idle.noise + Flags(idle.extra + 1)) + (Octets(Stuff(pre + w' + post) + [FLAG]) + rest)).result
         == EPACKETRECEIVECRC
  {
    hide Run;
    ByteBurstChangesCrc(SEED, pre, w, w', post);
    ContentReceived(idle.noise, idle.extra + 1, pre + w' + post, rest);
  }

  // ------------------------------------------------------------------ what is accepted

  /** One unit of escaped text: its length, and the byte it stands for. */
  function Unit(ev: seq<Rx>): (nat, byte)
    requires ev != [] && ev[0].Octet? && (ev[0].b == ESC ==> |ev| > 1 && ev[1].Octet?)
  {
    if ev[0].b == ESC then (2, Mask(ev[1].b)) else (1, ev[0].b)
  }

  lemma GatherUnit(got: seq<byte>, ev: seq<Rx>)
    requires Gather(got, ev).result == EOK && ev != [] && ev[0] != Octet(FLAG)
    ensures ev[0].Octet? && (ev[0].b == ESC ==> |ev| > 1 && ev[1].Octet?)
    ensures |got| < MAX_PACKET_LEN && Unit(ev).0 <= |ev|
    ensures Gather(got, ev) == Gather(got + [Unit(ev).1], ev[Unit(ev).0..])
  {
    hide Run, Verdict;
  }

  lemma UnescapePair(x: byte, u: seq<byte>)
    requires Unescape(u).Some?
    ensures Unescape([ESC, x] + u) == Some([Mask(x)] + Unescape(u).value)
  {
    assert ([ESC, x] + u)[2..] == u;
  }

  lemma UnescapeSingle(x: byte, u: seq<byte>)
    requires Unescape(u).Some? && !Special(x)
    ensures Unescape([x] + u) == Some([x] + Unescape(u).value)
  {
    assert ([x] + u)[1..] == u;
  }

  lemma UnescapeUnit(ev: seq<Rx>, u: seq<byte>) returns (t: seq<byte>)
    requires ev != [] && ev[0].Octet? && ev[0].b != FLAG && (ev[0].b == ESC ==> |ev| > 1 && ev[1].Octet?)
    requires Unescape(u).Some?
    ensures Unescape(t) == Some([Unit(ev).1] + Unescape(u).value)
    ensures Unit(ev).0 <= |ev| && Octets(t) == ev[..Unit(ev).0] + Octets(u)
  {
    if ev[0].b == ESC {
      UnescapePair(ev[1].b, u);
      hide Unescape;
      t := [ESC, ev[1].b] + u;
      OctetsAppend([ESC, ev[1].b], u);
      assert Octets([ESC, ev[1].b]) == ev[..2];
    } else {
      UnescapeSingle(ev[0].b, u);
      hide Unescape;
      t := [ev[0].b] + u;
      OctetsAppend([ev[0].b], u);
      assert Octets([ev[0].b]) == ev[..1];
    }
  }

  lemma {:induction false} GatherSound(got: seq<byte>, ev: seq<Rx>) returns (t: seq<byte>)
    requires Gather(got, ev).result == EOK && |got| <= MAX_PACKET_LEN
    ensures var o := Gather(got, ev);
            && Unescape(t).Some?
            && o.content == got + Unescape(t).value
            && |o.content| <= MAX_PACKET_LEN
            && Verdict(o.content) == EOK
            && ev == Octets(t) + [Octet(FLAG)] + o.rest
    decreases |ev|
  {
    hide Run, Verdict;
    if ev[0] == Octet(FLAG) {
      t := [];
      assert got + [] == got;
      assert ev == Octets([]) + [Octet(FLAG)] + ev[1..];
    } else {
      GatherUnit(got, ev);
      hide Gather;
      var (k, b) := Unit(ev);
      var u := GatherSound(got + [b], ev[k..]);
      t := UnescapeUnit(ev, u);
      assert got + [b] + Unescape(u).value == got + ([b] + Unescape(u).value);
    }
  }

  /** The shape of an accepted line: noise, at least one flag, escaped text, the closing flag. */
  predicate Framed(ev: seq<Rx>, noise: seq<byte>, flags: nat, t: seq<byte>, c: seq<byte>, rest: seq<Rx>) {
    && FlagFree(noise) && flags > 0
    && Unescape(t) == Some(c)
    && ev == Octets(noise + Flags(flags)) + (Octets(t) + [Octet(FLAG)] + rest)
  }

  predicate ValidContent(c: seq<byte>) {
    && MIN_PACKET_LEN <= |c| <= MAX_PACKET_LEN
    && c[|c| - 2..] == Fcs(c[..|c| - 2])
  }

  lemma VerdictIffValid(c: seq<byte>)
    requires |c| <= MAX_PACKET_LEN
    ensures Verdict(c) == EOK <==> ValidContent(c)
    ensures Verdict(c) == if |c| < 3 then EPACKETRECEIVETOOSHORT else if ValidContent(c) then EOK else EPACKETRECEIVECRC
  {
    hide Run, Fcs;
    if MIN_PACKET_LEN <= |c| {
      var n := |c| - 2;
      assert c == c[..n] + c[n..];
      ResidueIffFcs(c[..n], c[n..]);
    }
  }

  lemma {:induction false} HuntSound(ev: seq<Rx>) returns (noise: seq<byte>, flags: nat, t: seq<byte>)
    requires Hunt(ev).result == EOK
    ensures Framed(ev, noise, flags, t, Hunt(ev).content, Hunt(ev).rest)
    ensures ValidContent(Hunt(ev).content)
    decreases |ev|
  {
    hide Run, Fcs;
    var o := Hunt(ev);
    if ev[0].b == FLAG {
      flags, t := GotFlagSound(ev[1..]);
      noise := [];
      flags := flags + 1;
      FramedFlag(ev[1..], flags - 1, Octets(t) + [Octet(FLAG)] + o.rest);
    } else {
      var n;
      n, flags, t := HuntSound(ev[1..]);
      noise := [ev[0].b] + n;
      FramedNoise(ev[0].b, n, flags, Octets(t) + [Octet(FLAG)] + o.rest);
    }
  }

  lemma FramedFlag(ev: seq<Rx>, flags: nat, tail: seq<Rx>)
    requires ev == Octets(Flags(flags)) + tail
    ensures [Octet(FLAG)] + ev == Octets([] + Flags(flags + 1)) + tail
  {
  }

  lemma FramedNoise(b: byte, noise: seq<byte>, flags: nat, tail: seq<Rx>)
    ensures [Octet(b)] + (Octets(noise + Flags(flags)) + tail) == Octets([b] + noise + Flags(flags)) + tail
  {
  }

  lemma {:induction false} GotFlagSound(ev: seq<Rx>) returns (flags: nat, t: seq<byte>)
    requires GotFlag(ev).result == EOK
    ensures var o := GotFlag(ev);
            && ValidContent(o.content)
            && Unescape(t) == Some(o.content)
            && ev == Octets(Flags(flags)) + (Octets(t) + [Octet(FLAG)] + o.rest)
    decreases |ev|
  {
    hide Run, Fcs;
    if ev[0].b == FLAG {
      flags, t := GotFlagSound(ev[1..]);
      flags := flags + 1;
      assert Octets(Flags(flags)) == [ev[0]] + Octets(Flags(flags - 1));
    } else {
      flags := 0;
      t := GatherSound([], ev);
      assert [] + Unescape(t).value == Unescape(t).value;
      VerdictIffValid(GotFlag(ev).content);
      assert Octets(Flags(0)) == [];
    }
  }

  /** RcvHDLCPkt succeeds exactly on framed, escaped content of 3 to 4096 bytes that ends in its own FCS. */
  lemma AcceptedIffValid(ev: seq<Rx>, c: seq<byte>, rest: seq<Rx>)
    ensures Hunt(ev) == Outcome(EOK, c, rest)
       <==> ValidContent(c) && exists noise, flags, t :: Framed(ev, noise, flags, t, c, rest)
  {
    hide Run, Fcs;
    if Hunt(ev) == Outcome(EOK, c, rest) {
      var noise, flags, t := HuntSound(ev);
      assert Framed(ev, noise, flags, t, c, rest);
    }
    if ValidContent(c) && exists noise, flags, t :: Framed(ev, noise, flags, t, c, rest) {
      var noise, flags, t :| Framed(ev, noise, flags, t, c, rest);
      HuntThrough(noise, flags, Octets(t) + [Octet(FLAG)] + rest);
      VerdictIffValid(c);
      var tail := [Octet(FLAG)] + rest;
      assert Octets(t) + [Octet(FLAG)] + rest == Octets(t) + tail;
      GatherEscaped([], t, tail);
      assert [] + c == c && tail[1..] == rest;
      assert t[0] != FLAG;
    }
  }
}
