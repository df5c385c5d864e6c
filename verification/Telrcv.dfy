/**
 The resumable byte parser of src/telnet.cpp and its encoder, as functions: commands, option
 negotiation and sub-option collection of RFC 854 and RFC 855.
 */
module Telrcv {
  import opened Bytes
  import opened QMethod
  import opened TelnetSystem
  import opened Seqs
  import opened Words

  const IAC: byte := 255
  const CMD_DONT: byte := 254
  const CMD_DO: byte := 253
  const CMD_WONT: byte := 252
  const CMD_WILL: byte := 251
  const SB: byte := 250
  const SE: byte := 240
  const CR: byte := 13
  const NUL: byte := 0
  const SUBBUFSIZE: nat := 512

  datatype RcvState = TsData | TsIac | TsWill | TsWont | TsDo | TsDont | TsCr | TsSb | TsSe

  datatype Call = Negotiated(verb: Verb, option: nat) | Suboption(content: seq<byte>)

  /**
   Everything telrcv reads and writes: its state, the sub-option buffer with subpointer and subend,
   the option tables, the negotiation messages sent, the calls made, and the bytes marked as data.
   */
  datatype Parser = Parser(
    state: RcvState,
    buf: seq<byte>, ptr: nat, end: nat,
    opts: seq<OptState>, prefs: seq<Prefs>,
    sent: seq<Msg>, calls: seq<Call>, data: seq<byte>)

  predicate Valid(p: Parser) {
    && |p.buf| == SUBBUFSIZE && p.ptr <= SUBBUFSIZE && p.end <= SUBBUFSIZE
    && |p.opts| == |p.prefs| == NOPTIONS
  }

  // ------------------------------------------------------------------ the CURL_SB macros

  function Accum(p: Parser, c: byte): (q: Parser)
    requires Valid(p)
    ensures Valid(q) && q.data == p.data
  {
    if p.ptr < SUBBUFSIZE then p.(buf := p.buf[p.ptr := c], ptr := p.ptr + 1) else p
  }

  /** Store the terminator, step back over it, close the buffer and handle the sub-option. */
  function Terminate(p: Parser, c: byte): (q: Parser)
    requires Valid(p)
    ensures Valid(q) && q.data == p.data
  {
    var t := Accum(Accum(p, IAC), c);
    var end := t.ptr - 2;
    t.(ptr := 1, end := end, calls := t.calls + [Suboption(t.buf[..end])])
  }

  // ------------------------------------------------------------------ one byte

  function Negotiating(p: Parser, verb: Verb, option: nat): (q: Parser)
    requires Valid(p) && option < NOPTIONS
    ensures Valid(q) && q.data == p.data && q.state == TsData
  {
    var o, f := p.opts[option], p.prefs[option];
    p.(state := TsData,
       opts := p.opts[option := React(o, f, Got(verb))],
       sent := p.sent + Tagged(Answer(o, f, Got(verb)), option),
       calls := p.calls + [Negotiated(verb, option)])
  }

  function ProcessIac(p: Parser, c: byte): (q: Parser)
    requires Valid(p)
    ensures Valid(q)
  {
    if c == CMD_WILL then p.(state := TsWill)
    else if c == CMD_WONT then p.(state := TsWont)
    else if c == CMD_DO then p.(state := TsDo)
    else if c == CMD_DONT then p.(state := TsDont)
    else if c == SB then p.(ptr := 0, state := TsSb)
    else if c == IAC then p.(state := TsData, data := p.data + [c])
    else p.(state := TsData)
  }

  lemma ByteRange(c: byte)
    ensures 0 <= c as int < NOPTIONS
  {
  }

  function FeedByte(p: Parser, c: byte): (q: Parser)
    requires Valid(p)
    ensures Valid(q)
  {
    ByteRange(c);
    match p.state
    case TsCr => p.(state := TsData, data := if c == NUL then p.data else p.data + [c])
    case TsData =>
      if c == IAC then p.(state := TsIac)
      else p.(state := if c == CR then TsCr else TsData, data := p.data + [c])
    case TsIac => ProcessIac(p, c)
    case TsWill => Negotiating(p, WILL, c as int)
    case TsWont => Negotiating(p, WONT, c as int)
    case TsDo => Negotiating(p, DO, c as int)
    case TsDont => Negotiating(p, DONT, c as int)
    case TsSb => if c == IAC then p.(state := TsSe) else Accum(p, c)
    case TsSe =>
      if c == SE then Terminate(p, c).(state := TsData)
      else if c == IAC then Accum(p, c).(state := TsSb)
      else ProcessIac(Terminate(p, c).(state := TsIac), c)
  }

  function Feed(p: Parser, s: seq<byte>): (q: Parser)
    requires Valid(p)
    ensures Valid(q)
  {
    if s == [] then p else FeedByte(Feed(p, s[..|s| - 1]), s[|s| - 1])
  }

  /** Where the input is cut into calls makes no difference to anything the parser does. */
  lemma {:induction false} ChunkIndependent(p: Parser, a: seq<byte>, b: seq<byte>)
    requires Valid(p)
    ensures Feed(p, a + b) == Feed(Feed(p, a), b)
  {
    hide FeedByte;
    if b == [] {
      assert a + b == a;
    } else {
      var c := b[..|b| - 1];
      assert (a + b)[..|a + b| - 1] == a + c;
      ChunkIndependent(p, a, c);
    }
  }

  lemma FeedOne(p: Parser, c: byte)
    requires Valid(p)
    ensures Feed(p, [c]) == FeedByte(p, c)
  {
    hide FeedByte;
    assert [c][..0] == [];
  }

  lemma FeedTwo(p: Parser, c: byte, d: byte)
    requires Valid(p)
    ensures Feed(p, [c, d]) == FeedByte(FeedByte(p, c), d)
  {
    hide FeedByte;
    assert [c, d][..1] == [c];
    FeedOne(p, c);
  }

  lemma FeedSnoc(p: Parser, s: seq<byte>, c: byte)
    requires Valid(p)
    ensures Feed(p, s + [c]) == FeedByte(Feed(p, s), c)
  {
    hide FeedByte;
    assert (s + [c])[..|s|] == s;
  }

  // ------------------------------------------------------------------ the encoder

  function EscapeByte(c: byte): seq<byte> {
    if c == IAC then [IAC, IAC] else [c]
  }

  function Escape(s: seq<byte>): seq<byte> {
    if s == [] then [] else Escape(s[..|s| - 1]) + EscapeByte(s[|s| - 1])
  }

  lemma EscapeSnoc(s: seq<byte>, c: byte)
    ensures Escape(s + [c]) == Escape(s) + EscapeByte(c)
  {
    assert (s + [c])[..|s|] == s;
  }

  // ------------------------------------------------------------------ data round trip

  /** Does the parser, after the payload s, stand behind a CR? */
  predicate AfterCr(s: seq<byte>) {
    s != [] && s[|s| - 1] == CR && !AfterCr(s[..|s| - 1])
  }

  /** The payload without the NULs that follow a CR. */
  function Kept(s: seq<byte>): seq<byte> {
    if s == [] then []
    else
      var t, c := s[..|s| - 1], s[|s| - 1];
      if AfterCr(t) && c == NUL then Kept(t) else Kept(t) + [c]
  }

  /** The parser has taken the payload s as data and done nothing else. */
  function TakenAsData(p: Parser, s: seq<byte>): Parser {
    p.(state := if AfterCr(s) then TsCr else TsData, data := p.data + Kept(s))
  }

  /** No IAC stands where the parser would be behind a CR. */
  predicate Clean(s: seq<byte>) {
    forall k :: 0 <= k < |s| && s[k] == IAC ==> !AfterCr(s[..k])
  }

  predicate InStep(p: Parser, s: seq<byte>)
    requires Valid(p)
  {
    Feed(p, Escape(s)) == TakenAsData(p, s)
  }

  /** One encoded payload byte, read in DATA or behind a CR. */
  lemma EncodedByte(q: Parser, c: byte)
    requires Valid(q) && (q.state == TsData || q.state == TsCr)
    ensures Feed(q, EscapeByte(c)) ==
            if c == IAC then q.(state := if q.state == TsCr then TsIac else TsData, data := q.data + [IAC])
            else if q.state == TsCr then q.(state := TsData, data := if c == NUL then q.data else q.data + [c])
            else q.(state := if c == CR then TsCr else TsData, data := q.data + [c])
  {
    if c == IAC {
      FeedTwo(q, IAC, IAC);
    } else {
      FeedOne(q, c);
    }
    hide Feed, Negotiating, Terminate, Accum;
  }

  lemma DataByte(p: Parser, s: seq<byte>, c: byte)
    requires Valid(p) && InStep(p, s)
    ensures InStep(p, s + [c]) <==> !(c == IAC && AfterCr(s))
  {
    hide Feed, Kept, FeedByte, EscapeByte, Escape, AfterCr;
    var q := TakenAsData(p, s);
    EscapeSnoc(s, c);
    ChunkIndependent(p, Escape(s), EscapeByte(c));
    KeptSnoc(s, c);
    EncodedByte(q, c);
    Assoc(p.data, Kept(s), [c]);
  }

  lemma KeptSnoc(s: seq<byte>, c: byte)
    ensures Kept(s + [c]) == if AfterCr(s) && c == NUL then Kept(s) else Kept(s) + [c]
    ensures AfterCr(s + [c]) <==> c == CR && !AfterCr(s)
  {
    assert (s + [c])[..|s|] == s;
  }

  lemma {:induction false} CleanInStep(p: Parser, s: seq<byte>)
    requires Valid(p) && p.state == TsData && Clean(s)
    ensures InStep(p, s)
  {
    hide AfterCr, Escape;
    if s == [] {
      EmptyInStep(p);
    } else {
      var t, c := s[..|s| - 1], s[|s| - 1];
      assert forall k :: 0 <= k < |t| ==> s[..k] == t[..k];
      CleanInStep(p, t);
      DataByte(p, t, c);
      assert s == t + [c];
    }
  }

  lemma EmptyInStep(p: Parser)
    requires Valid(p) && p.state == TsData
    ensures InStep(p, [])
  {
    assert p.data + [] == p.data;
  }

  // ------------------------------------------------------------------ once out of step, always out of step

  /** In the middle of a command or a sub-option: what ends it makes a call. */
  predicate MidCommand(st: RcvState) {
    st != TsData && st != TsCr && st != TsIac
  }

  predicate Differ(d: seq<byte>, e: seq<byte>) {
    exists i :: 0 <= i < |d| && i < |e| && d[i] != e[i]
  }

  /**
   The ways in which a parser can have lost the payload s: a call was made or is being made, a byte is wrong or
   missing, or an IAC is pending that the sender meant as half of a pair.
   */
  ghost predicate OffTrack(p: Parser, q: Parser, s: seq<byte>) {
    var e := p.data + Kept(s);
    && |q.calls| >= |p.calls|
    && (|| |q.calls| > |p.calls|
        || MidCommand(q.state)
        || Differ(q.data, e)
        || (|q.data| < |e| && q.data <= e)
        || (q.data == e && q.state == TsIac && !AfterCr(s)))
  }

  lemma OffTrackNotInStep(p: Parser, s: seq<byte>)
    requires Valid(p) && OffTrack(p, Feed(p, Escape(s)), s)
    ensures !InStep(p, s)
  {
    hide Feed, Escape, Kept, AfterCr;
  }

  /** What one encoded payload byte does at most. */
  lemma AnyByte(q: Parser, c: byte)
    requires Valid(q)
    ensures var r := Feed(q, EscapeByte(c));
            && |r.calls| >= |q.calls|
            && (r.data == q.data || r.data == q.data + [c])
            && (MidCommand(q.state) ==> MidCommand(r.state) || |r.calls| > |q.calls|)
            && (q.state == TsIac && c == IAC ==> r.state == TsIac && r.data == q.data + [c])
            && (q.state == TsIac && c != IAC ==> r.data == q.data)
  {
    if c == IAC {
      FeedTwo(q, IAC, IAC);
      hide Feed, Negotiating, Terminate, Accum;
      OneByte(q, IAC);
      OneByte(FeedByte(q, IAC), IAC);
    } else {
      FeedOne(q, c);
      hide Feed, Negotiating, Terminate, Accum;
      OneByte(q, c);
    }
  }

  lemma OneByte(q: Parser, c: byte)
    requires Valid(q)
    ensures var r := FeedByte(q, c);
            && |r.calls| >= |q.calls|
            && (MidCommand(q.state) && !(q.state == TsSb || (q.state == TsSe && c == IAC)) ==> |r.calls| > |q.calls|)
  {
  }

  /** What the sender expects ends in CR where it stands behind one. */
  lemma KeptEndsInCr(s: seq<byte>)
    requires AfterCr(s)
    ensures Kept(s) != [] && Kept(s)[|Kept(s)| - 1] == CR
  {
    hide Kept;
    var t, c := s[..|s| - 1], s[|s| - 1];
    assert s == t + [c];
    KeptSnoc(t, c);
  }

  /** Data that is wrong or short stays so: the one byte the sender does not count, NUL, is never the one it waits for. */
  lemma StillOff(d: seq<byte>, e: seq<byte>, d': seq<byte>, e': seq<byte>, c: byte)
    requires Differ(d, e) || (|d| < |e| && d <= e)
    requires d' == d || d' == d + [c]
    requires e' == e + [c] || (e' == e && c == NUL && e != [] && e[|e| - 1] == CR)
    ensures Differ(d', e') || (|d'| < |e'| && d' <= e')
  {
    if Differ(d, e) {
      var i :| 0 <= i < |d| && i < |e| && d[i] != e[i];
      assert d'[i] == d[i] && e'[i] == e[i];
    } else if d' == d + [c] && e[|d|] != c {
      assert d'[|d|] != e'[|d|];
    }
  }

  lemma OffTrackKept(p: Parser, q: Parser, s: seq<byte>, c: byte)
    requires Valid(q) && OffTrack(p, q, s)
    ensures OffTrack(p, Feed(q, EscapeByte(c)), s + [c])
  {
    hide Feed, Kept, FeedByte, EscapeByte, AfterCr, Differ;
    var r := Feed(q, EscapeByte(c));
    var e, e' := p.data + Kept(s), p.data + Kept(s + [c]);
    AnyByte(q, c);
    KeptSnoc(s, c);
    Assoc(p.data, Kept(s), [c]);
    if AfterCr(s) {
      KeptEndsInCr(s);
    }
    if |q.calls| > |p.calls| || MidCommand(q.state) {
    } else if Differ(q.data, e) || (|q.data| < |e| && q.data <= e) {
      assert AfterCr(s) ==> e[|e| - 1] == CR;
      StillOff(q.data, e, r.data, e', c);
    } else {
      assert q.data == e && e' == e + [c];
    }
  }

  lemma {:induction false} NeverBack(p: Parser, q: Parser, s: seq<byte>, t: seq<byte>)
    requires Valid(p) && Valid(q) && OffTrack(p, q, s)
    ensures OffTrack(p, Feed(q, Escape(t)), s + t)
    decreases |t|
  {
    hide FeedByte, Feed, Escape, EscapeByte, OffTrack;
    if t == [] {
      EscapeEmpty();
      FeedEmpty(q);
      EmptyUnit(s);
    } else {
      var u, c := t[..|t| - 1], t[|t| - 1];
      assert t == u + [c];
      NeverBack(p, q, s, u);
      EscapeSnoc(u, c);
      ChunkIndependent(q, Escape(u), EscapeByte(c));
      OffTrackKept(p, Feed(q, Escape(u)), s + u, c);
      Assoc(s, u, [c]);
    }
  }

  lemma {:induction false} EscapeAppend(s: seq<byte>, t: seq<byte>)
    ensures Escape(s + t) == Escape(s) + Escape(t)
    decreases |t|
  {
    hide Escape;
    if t == [] {
      EscapeEmpty();
      EmptyUnit(s);
      EmptyUnit(Escape(s));
    } else {
      var u, c := t[..|t| - 1], t[|t| - 1];
      assert t == u + [c];
      Assoc(s, u, [c]);
      EscapeSnoc(s + u, c);
      EscapeSnoc(u, c);
      EscapeAppend(s, u);
      Assoc(Escape(s), Escape(u), EscapeByte(c));
    }
  }

  /** An IAC behind a CR is taken for data, and its double for a command that the sender never sent. */
  lemma IacBehindCr(p: Parser, s: seq<byte>)
    requires Valid(p) && InStep(p, s) && AfterCr(s)
    ensures OffTrack(p, Feed(p, Escape(s + [IAC])), s + [IAC])
  {
    hide Feed, Kept, FeedByte, EscapeByte, Escape, AfterCr;
    EscapeSnoc(s, IAC);
    ChunkIndependent(p, Escape(s), EscapeByte(IAC));
    KeptSnoc(s, IAC);
    EncodedByte(TakenAsData(p, s), IAC);
    Assoc(p.data, Kept(s), [IAC]);
  }

  /** The first place where an IAC stands behind a CR. */
  lemma {:induction false} FirstIacBehindCr(s: seq<byte>) returns (k: nat)
    requires !Clean(s)
    ensures k < |s| && s[k] == IAC && AfterCr(s[..k]) && Clean(s[..k])
    decreases |s|
  {
    hide AfterCr;
    var n := |s| - 1;
    assert forall j :: 0 <= j < n ==> s[..n][..j] == s[..j];
    if Clean(s[..n]) {
      k := n;
    } else {
      k := FirstIacBehindCr(s[..n]);
      assert s[..n][..k] == s[..k];
    }
  }

  /**
   The parser takes exactly the payload as data, less the NULs that follow a CR, and makes no negotiation and no
   sub-option of it, if and only if no IAC follows a CR: there it takes the first IAC of the doubled pair as
   data, and no payload that follows can make up for it.
   */
  lemma DataRoundTrip(p: Parser, s: seq<byte>)
    requires Valid(p) && p.state == TsData
    ensures InStep(p, s) <==> Clean(s)
  {
    hide AfterCr, Escape, Feed, InStep, Clean, OffTrack;
    if Clean(s) {
      CleanInStep(p, s);
    } else {
      var k := FirstIacBehindCr(s);
      var pre, post := s[..k] + [IAC], s[k + 1..];
      assert s == pre + post;
      CleanInStep(p, s[..k]);
      IacBehindCr(p, s[..k]);
      EscapeAppend(pre, post);
      ChunkIndependent(p, Escape(pre), Escape(post));
      NeverBack(p, Feed(p, Escape(pre)), pre, post);
      OffTrackNotInStep(p, s);
    }
  }

  // ------------------------------------------------------------------ sub-options

  function Upto(s: seq<byte>, n: nat): seq<byte> {
    if |s| <= n then s else s[..n]
  }

  /** Collecting a sub-option: the buffer holds as much of it as fits. */
  predicate Collecting(p: Parser, q: Parser, s: seq<byte>)
    requires Valid(p)
  {
    && Valid(q)
    && q.ptr == |Upto(s, SUBBUFSIZE)| && q.buf[..q.ptr] == Upto(s, SUBBUFSIZE)
    && q == p.(state := TsSb, buf := q.buf, ptr := q.ptr)
  }

  lemma CollectByte(p: Parser, q: Parser, s: seq<byte>, c: byte)
    requires Valid(p) && Collecting(p, q, s)
    ensures Collecting(p, Feed(q, EscapeByte(c)), s + [c])
  {
    if c == IAC {
      FeedTwo(q, IAC, IAC);
    } else {
      FeedOne(q, c);
    }
    hide Feed;
    var r := Feed(q, EscapeByte(c));
    assert r == Accum(q, c);
    if |s| < SUBBUFSIZE {
      assert r.buf[..r.ptr] == q.buf[..q.ptr] + [c];
    } else {
      assert Upto(s + [c], SUBBUFSIZE) == Upto(s, SUBBUFSIZE);
    }
  }

  lemma {:induction false} Collect(p: Parser, q: Parser, s: seq<byte>)
    requires Valid(p) && q == p.(state := TsSb, ptr := 0)
    ensures Collecting(p, Feed(q, Escape(s)), s)
  {
    hide FeedByte, Feed, Escape, EscapeByte;
    if s == [] {
      EscapeEmpty();
      FeedEmpty(q);
      assert q.buf[..0] == [];
    } else {
      var t, c := s[..|s| - 1], s[|s| - 1];
      Collect(p, q, t);
      assert s == t + [c];
      EscapeSnoc(t, c);
      ChunkIndependent(q, Escape(t), EscapeByte(c));
      CollectByte(p, Feed(q, Escape(t)), t, c);
    }
  }

  lemma EscapeEmpty()
    ensures Escape([]) == []
  {
  }

  lemma FeedEmpty(p: Parser)
    requires Valid(p)
    ensures Feed(p, []) == p
  {
  }

  /**
   IAC SB, an escaped sub-option, IAC SE: suboption() is called once, with the first 510 bytes if
   there are more, and nothing else happens but to the sub-option buffer.
   */
  lemma SuboptionDelivered(p: Parser, s: seq<byte>)
    requires Valid(p) && p.state == TsData
    ensures var q := Feed(p, [IAC, SB] + Escape(s) + [IAC, SE]);
            && q.calls == p.calls + [Suboption(Upto(s, SUBBUFSIZE - 2))]
            && q.buf[..q.end] == Upto(s, SUBBUFSIZE - 2) && q.ptr == 1
            && q == p.(calls := q.calls, buf := q.buf, ptr := q.ptr, end := q.end)
  {
    hide Feed, FeedByte, Escape, Collecting;
    var q := p.(state := TsSb, ptr := 0);
    OpensSuboption(p);
    Collect(p, q, s);
    var r := Feed(q, Escape(s));
    ChunkIndependent(p, [IAC, SB] + Escape(s), [IAC, SE]);
    ChunkIndependent(p, [IAC, SB], Escape(s));
    ClosesSuboption(p, r, s);
  }

  lemma OpensSuboption(p: Parser)
    requires Valid(p) && p.state == TsData
    ensures Feed(p, [IAC, SB]) == p.(state := TsSb, ptr := 0)
  {
    FeedTwo(p, IAC, SB);
    hide Feed, Negotiating, Terminate, Accum;
  }

  lemma ClosesSuboption(p: Parser, r: Parser, s: seq<byte>)
    requires Valid(p) && p.state == TsData && Collecting(p, r, s)
    ensures var q := Feed(r, [IAC, SE]);
            && q.calls == p.calls + [Suboption(Upto(s, SUBBUFSIZE - 2))]
            && q.buf[..q.end] == Upto(s, SUBBUFSIZE - 2) && q.ptr == 1
            && q == p.(calls := q.calls, buf := q.buf, ptr := q.ptr, end := q.end)
  {
    FeedTwo(r, IAC, SE);
    hide Feed, Negotiating, ProcessIac;
    Terminated(r.(state := TsSe), Upto(s, SUBBUFSIZE), SE);
    UptoUpto(s);
  }

  lemma UptoUpto(s: seq<byte>)
    ensures Upto(Upto(s, SUBBUFSIZE), SUBBUFSIZE - 2) == Upto(s, SUBBUFSIZE - 2)
  {
  }

  /** The terminator is stored where it fits; stepping back over it always leaves at most 510 bytes. */
  lemma Terminated(p: Parser, s: seq<byte>, c: byte)
    requires Valid(p) && p.ptr == |s| && p.buf[..p.ptr] == s
    ensures var q := Terminate(p, c);
            && q.calls == p.calls + [Suboption(Upto(s, SUBBUFSIZE - 2))]
            && q.buf[..q.end] == Upto(s, SUBBUFSIZE - 2) && q.ptr == 1
  {
    var t := Accum(Accum(p, IAC), c);
    assert t.buf[..t.ptr - 2] == Upto(s, SUBBUFSIZE - 2);
  }

  // ------------------------------------------------------------------ negotiation messages

  function VerbByte(verb: Verb): byte {
    match verb case WILL => CMD_WILL case WONT => CMD_WONT case DO => CMD_DO case DONT => CMD_DONT
  }

  /** The three octets of send_negotiation; the option is cast to an unsigned char. */
  function EncodeMsg(m: Msg): (s: seq<byte>)
    ensures |s| == 3
  {
    [IAC, VerbByte(m.verb), ToByte(m.option % 256)]
  }

  function EncodeMsgs(ms: seq<Msg>): seq<byte> {
    if ms == [] then [] else EncodeMsg(ms[0]) + EncodeMsgs(ms[1..])
  }

  lemma {:induction false} EncodeMsgsAppend(a: seq<Msg>, b: seq<Msg>)
    ensures EncodeMsgs(a + b) == EncodeMsgs(a) + EncodeMsgs(b)
    decreases |a|
  {
    hide EncodeMsg;
    if a == [] {
      EmptyUnit(b);
      EmptyUnit(EncodeMsgs(b));
    } else {
      assert (a + b)[1..] == a[1..] + b;
      EncodeMsgsAppend(a[1..], b);
      Assoc(EncodeMsg(a[0]), EncodeMsgs(a[1..]), EncodeMsgs(b));
    }
  }

  lemma EncodeOne(m: Msg)
    ensures EncodeMsgs([m]) == EncodeMsg(m)
  {
    hide EncodeMsg;
    assert [m][1..] == [];
    EmptyUnit(EncodeMsg(m));
  }

  predicate Sendable(ms: seq<Msg>) {
    forall m :: m in ms ==> m.option < NOPTIONS
  }

  /** The parser has made the call for a message: that verb, that option, its effect and its answer. */
  function Heeded(p: Parser, m: Msg): (q: Parser)
    requires Valid(p) && m.option < NOPTIONS
    ensures Valid(q) && q.state == p.state && q.data == p.data
  {
    var o, f := p.opts[m.option], p.prefs[m.option];
    p.(opts := p.opts[m.option := React(o, f, Got(m.verb))],
       sent := p.sent + Tagged(Answer(o, f, Got(m.verb)), m.option),
       calls := p.calls + [Negotiated(m.verb, m.option)])
  }

  function HeedAll(p: Parser, ms: seq<Msg>): (q: Parser)
    requires Valid(p) && Sendable(ms)
    ensures Valid(q) && q.state == p.state && q.data == p.data
    decreases |ms|
  {
    if ms == [] then p else HeedAll(Heeded(p, ms[0]), ms[1..])
  }

  /** The state in which the option of such a message is awaited. */
  function Awaiting(verb: Verb): RcvState {
    match verb case WILL => TsWill case WONT => TsWont case DO => TsDo case DONT => TsDont
  }

  /** The three octets of a message, one at a time. */
  lemma MessageBytes(p: Parser, m: Msg)
    requires Valid(p) && p.state == TsData && m.option < NOPTIONS
    ensures FeedByte(p, EncodeMsg(m)[0]) == p.(state := TsIac)
    ensures FeedByte(p.(state := TsIac), EncodeMsg(m)[1]) == p.(state := Awaiting(m.verb))
    ensures FeedByte(p.(state := Awaiting(m.verb)), EncodeMsg(m)[2]) == Heeded(p, m)
  {
    hide React, Answer;
    ByteBack(m.option % 256);
    assert ToByte(m.option % 256) as int == m.option;
  }

  lemma FeedThree(p: Parser, a: byte, b: byte, c: byte)
    requires Valid(p)
    ensures Feed(p, [a, b, c]) == FeedByte(FeedByte(FeedByte(p, a), b), c)
  {
    hide FeedByte, Feed;
    assert [a, b, c] == [a, b] + [c];
    FeedTwo(p, a, b);
    FeedSnoc(p, [a, b], c);
  }

  /** WILL, WONT, DO or DONT and its option make exactly that call, and nothing else. */
  lemma MessageHeard(p: Parser, m: Msg)
    requires Valid(p) && p.state == TsData && m.option < NOPTIONS
    ensures Feed(p, EncodeMsg(m)) == Heeded(p, m)
  {
    hide FeedByte, Feed, Heeded;
    var s := EncodeMsg(m);
    MessageBytes(p, m);
    FeedThree(p, s[0], s[1], s[2]);
    assert s == [s[0], s[1], s[2]];
  }

  /** The calls that messages ask for. */
  function CallsFor(ms: seq<Msg>): (calls: seq<Call>)
    ensures |calls| == |ms|
    ensures forall i :: 0 <= i < |ms| ==> calls[i] == Negotiated(ms[i].verb, ms[i].option)
  {
    seq(|ms|, i requires 0 <= i < |ms| => Negotiated(ms[i].verb, ms[i].option))
  }

  /**
   Whatever messages the far end sends, each makes exactly one call, in order, with its verb and its option, and
   options and answers are those of taking the messages one by one.
   */
  lemma {:induction false} MessagesHeard(p: Parser, ms: seq<Msg>)
    requires Valid(p) && p.state == TsData && Sendable(ms)
    ensures Feed(p, EncodeMsgs(ms)) == HeedAll(p, ms)
    ensures Feed(p, EncodeMsgs(ms)).calls == p.calls + CallsFor(ms)
    decreases |ms|
  {
    hide Feed, EncodeMsg;
    if ms == [] {
      FeedEmpty(p);
      EmptyUnit(p.calls);
    } else {
      assert ms[0] in ms;
      MessageHeard(p, ms[0]);
      MessagesHeard(Heeded(p, ms[0]), ms[1..]);
      ChunkIndependent(p, EncodeMsg(ms[0]), EncodeMsgs(ms[1..]));
      assert CallsFor(ms) == [Negotiated(ms[0].verb, ms[0].option)] + CallsFor(ms[1..]);
      Assoc(p.calls, [Negotiated(ms[0].verb, ms[0].option)], CallsFor(ms[1..]));
    }
  }

  predicate IsCommand(c: byte) {
    c == CMD_WILL || c == CMD_WONT || c == CMD_DO || c == CMD_DONT || c == SB || c == IAC
  }

  /** Any other command octet behind an IAC changes nothing. */
  lemma OtherCommandIgnored(p: Parser, c: byte)
    requires Valid(p) && p.state == TsData && !IsCommand(c)
    ensures Feed(p, [IAC, c]) == p
  {
    FeedTwo(p, IAC, c);
    hide Feed, Negotiating, Terminate, Accum;
  }

  /**
   A message behind a payload is heard exactly if the parser does not stand behind a CR there: if it does, the
   message begins as data.
   */
  lemma MessageBehindData(p: Parser, s: seq<byte>, m: Msg)
    requires Valid(p) && p.state == TsData && m.option < NOPTIONS && Clean(s)
    ensures Feed(p, Escape(s) + EncodeMsg(m)) == Heeded(p.(data := p.data + Kept(s)), m) <==> !AfterCr(s)
  {
    hide Feed, FeedByte, Escape, Heeded, Clean, AfterCr, Kept, EncodeMsg;
    CleanInStep(p, s);
    ChunkIndependent(p, Escape(s), EncodeMsg(m));
    var q := p.(data := p.data + Kept(s));
    if AfterCr(s) {
      MessageAfterCr(q.(state := TsCr), m);
    } else {
      MessageHeard(q, m);
    }
  }

  lemma MessageAfterCr(p: Parser, m: Msg)
    requires Valid(p) && p.state == TsCr
    ensures p.data + [IAC] <= Feed(p, EncodeMsg(m)).data
  {
    var s := EncodeMsg(m);
    assert s == [s[0], s[1], s[2]];
    FeedThree(p, s[0], s[1], s[2]);
    hide Feed, Negotiating, Terminate, Accum;
  }

  /**
   In an open sub-option, IAC and anything but SE or IAC closes it, with the call for what was collected, and is
   then taken as if it had come in DATA.
   */
  lemma CommandClosesSuboption(p: Parser, s: seq<byte>, c: byte) returns (closed: Parser)
    requires Valid(p) && p.state == TsData && c != SE && c != IAC
    ensures Valid(closed) && closed == p.(buf := closed.buf, ptr := closed.ptr, end := closed.end, calls := closed.calls)
    ensures closed.calls == p.calls + [Suboption(Upto(s, SUBBUFSIZE - 2))]
    ensures Feed(p, [IAC, SB] + Escape(s) + [IAC, c]) == Feed(closed, [IAC, c])
    ensures !IsCommand(c) ==> Feed(p, [IAC, SB] + Escape(s) + [IAC, c]) == closed
  {
    hide Feed, FeedByte, Escape, Collecting, Terminate;
    var q := p.(state := TsSb, ptr := 0);
    OpensSuboption(p);
    Collect(p, q, s);
    var r := Feed(q, Escape(s));
    ChunkIndependent(p, [IAC, SB] + Escape(s), [IAC, c]);
    ChunkIndependent(p, [IAC, SB], Escape(s));
    CommandCloses(p, r, s, c);
    closed := Terminate(r.(state := TsSe), c).(state := TsData);
    if !IsCommand(c) {
      OtherCommandIgnored(closed, c);
    }
  }

  lemma BehindIac(p: Parser, c: byte)
    requires Valid(p) && p.state == TsData
    ensures Feed(p, [IAC, c]) == ProcessIac(p.(state := TsIac), c)
  {
    FeedTwo(p, IAC, c);
    hide Feed, Negotiating, Terminate, Accum, ProcessIac;
  }

  lemma BehindIacInSuboption(p: Parser, c: byte)
    requires Valid(p) && p.state == TsSb && c != SE && c != IAC
    ensures Feed(p, [IAC, c]) == ProcessIac(Terminate(p.(state := TsSe), c).(state := TsIac), c)
  {
    hide Feed, FeedByte, ProcessIac, Terminate;
    FeedTwo(p, IAC, c);
    SuboptionBytes(p, c);
  }

  lemma SuboptionBytes(p: Parser, c: byte)
    requires Valid(p) && p.state == TsSb && c != SE && c != IAC
    ensures FeedByte(p, IAC) == p.(state := TsSe)
    ensures FeedByte(p.(state := TsSe), c) == ProcessIac(Terminate(p.(state := TsSe), c).(state := TsIac), c)
  {
    hide ProcessIac, Terminate, Accum, Negotiating;
  }

  lemma CommandCloses(p: Parser, r: Parser, s: seq<byte>, c: byte)
    requires Valid(p) && p.state == TsData && Collecting(p, r, s) && c != SE && c != IAC
    ensures var closed := Terminate(r.(state := TsSe), c).(state := TsData);
            && closed == p.(buf := closed.buf, ptr := closed.ptr, end := closed.end, calls := closed.calls)
            && closed.calls == p.calls + [Suboption(Upto(s, SUBBUFSIZE - 2))]
            && Feed(r, [IAC, c]) == Feed(closed, [IAC, c])
  {
    BehindIacInSuboption(r, c);
    BehindIac(Terminate(r.(state := TsSe), c).(state := TsData), c);
    hide Feed, ProcessIac;
    Terminated(r.(state := TsSe), Upto(s, SUBBUFSIZE), c);
    UptoUpto(s);
  }

  /** A message that meets an open sub-option closes it, and is heard. */
  lemma MessageInSuboption(p: Parser, s: seq<byte>, m: Msg)
    requires Valid(p) && p.state == TsData && m.option < NOPTIONS
    ensures var q := Feed(p, [IAC, SB] + Escape(s) + EncodeMsg(m));
            && q.calls == p.calls + [Suboption(Upto(s, SUBBUFSIZE - 2)), Negotiated(m.verb, m.option)]
            && q == Heeded(p, m).(calls := q.calls, buf := q.buf, ptr := q.ptr, end := q.end)
  {
    hide Feed, FeedByte, Escape, React, Answer;
    var c, d := VerbByte(m.verb), ToByte(m.option % 256);
    var closed := CommandClosesSuboption(p, s, c);
    MessageHeard(closed, m);
    assert EncodeMsg(m) == [IAC, c] + [d];
    ChunkIndependent(closed, [IAC, c], [d]);
    Assoc([IAC, SB] + Escape(s), [IAC, c], [d]);
    ChunkIndependent(p, [IAC, SB] + Escape(s) + [IAC, c], [d]);
    Assoc(p.calls, [Suboption(Upto(s, SUBBUFSIZE - 2))], [Negotiated(m.verb, m.option)]);
  }
}
