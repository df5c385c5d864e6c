/**
 Two telnet clients joined by octets instead of messages: each sends the three octets of send_negotiation and
 reads whatever part of the other's stream has arrived. Every run of theirs is a run of TelnetSystem.
 */
module TelnetWire {
  import opened Bytes
  import opened Seqs
  import opened QMethod
  import opened TelnetSystem
  import opened Telrcv

  datatype Net = Net(a: Parser, b: Parser, ab: seq<byte>, ba: seq<byte>)

  /** A user's request at one end, or a call of telrcv on the next n octets. */
  datatype Move = Request(atA: bool, option: nat, event: Event) | Read(toA: bool, n: nat)

  predicate NetOk(net: Net) {
    Valid(net.a) && Valid(net.b)
  }

  function Other(net: Net): Net {
    Net(net.b, net.a, net.ba, net.ab)
  }

  predicate Possible(net: Net, m: Move) {
    match m
    case Request(_, option, e) => option < NOPTIONS && !e.Got?
    case Read(toA, n) => n <= if toA then |net.ba| else |net.ab|
  }

  lemma {:induction false} SentGrows(p: Parser, s: seq<byte>)
    requires Valid(p)
    ensures p.sent <= Feed(p, s).sent
    decreases |s|
  {
    hide FeedByte;
    if s != [] {
      SentGrows(p, s[..|s| - 1]);
      ByteSentGrows(Feed(p, s[..|s| - 1]), s[|s| - 1]);
    }
  }

  lemma ByteSentGrows(p: Parser, c: byte)
    requires Valid(p)
    ensures p.sent <= FeedByte(p, c).sent
  {
    match p.state
    case TsSe => SuboptionSendsNothing(p, c);
    case TsSb => SuboptionSendsNothing(p, c);
    case TsWill => AnswerAppended(p, WILL, c);
    case TsWont => AnswerAppended(p, WONT, c);
    case TsDo => AnswerAppended(p, DO, c);
    case TsDont => AnswerAppended(p, DONT, c);
    case _ =>
    hide Negotiating, Terminate, Accum;
  }

  lemma SuboptionSendsNothing(p: Parser, c: byte)
    requires Valid(p)
    ensures Accum(p, c).sent == p.sent && Terminate(p, c).sent == p.sent
  {
  }

  lemma AnswerAppended(p: Parser, verb: Verb, c: byte)
    requires Valid(p)
    ensures 0 <= c as int < NOPTIONS && p.sent <= Negotiating(p, verb, c as int).sent
  {
    ByteRange(c);
    hide React, Answer, Tagged;
  }

  /** set_local_option and set_remote_option. */
  function Requested(p: Parser, option: nat, e: Event): (q: Parser)
    requires Valid(p) && option < NOPTIONS
    ensures Valid(q) && q == p.(opts := q.opts, sent := q.sent)
  {
    var o, f := p.opts[option], p.prefs[option];
    p.(opts := p.opts[option := React(o, f, e)], sent := p.sent + Tagged(Answer(o, f, e), option))
  }

  /** A request at A: its message goes out as octets. */
  function RequestA(net: Net, option: nat, e: Event): (r: Net)
    requires NetOk(net) && option < NOPTIONS
    ensures NetOk(r)
  {
    var q := Requested(net.a, option, e);
    net.(a := q, ab := net.ab + EncodeMsgs(q.sent[|net.a.sent|..]))
  }

  /** A reads the next n octets, and what it answers goes out. */
  function ReadA(net: Net, n: nat): (r: Net)
    requires NetOk(net) && n <= |net.ba|
    ensures NetOk(r)
  {
    SentGrows(net.a, net.ba[..n]);
    var q := Feed(net.a, net.ba[..n]);
    net.(a := q, ba := net.ba[n..], ab := net.ab + EncodeMsgs(q.sent[|net.a.sent|..]))
  }

  function NetStep(net: Net, m: Move): (r: Net)
    requires NetOk(net) && Possible(net, m)
    ensures NetOk(r)
  {
    match m
    case Request(atA, option, e) => if atA then RequestA(net, option, e) else Other(RequestA(Other(net), option, e))
    case Read(toA, n) => if toA then ReadA(net, n) else Other(ReadA(Other(net), n))
  }

  // ------------------------------------------------------------------ octets stand for messages

  /** What a parser in this state still has to read: the rest of the messages, the first of them begun. */
  predicate Awaits(p: Parser, octets: seq<byte>, ms: seq<Msg>) {
    match p.state
    case TsData => octets == EncodeMsgs(ms)
    case TsIac => ms != [] && octets == EncodeMsgs(ms)[1..]
    case TsWill => ms != [] && ms[0].verb == WILL && octets == EncodeMsgs(ms)[2..]
    case TsWont => ms != [] && ms[0].verb == WONT && octets == EncodeMsgs(ms)[2..]
    case TsDo => ms != [] && ms[0].verb == DO && octets == EncodeMsgs(ms)[2..]
    case TsDont => ms != [] && ms[0].verb == DONT && octets == EncodeMsgs(ms)[2..]
    case _ => false
  }

  /** One end and what is on its way to it: it has called exactly for what came before, and taken nothing as data. */
  ghost predicate EndOk(p: Parser, octets: seq<byte>, ms: seq<Msg>, sentToIt: seq<Msg>) {
    && Awaits(p, octets, ms) && Telrcv.Sendable(ms)
    && p.calls + CallsFor(ms) == CallsFor(sentToIt) && p.data == []
  }

  /** The octets under way stand for the messages under way. */
  ghost predicate Stands(net: Net, s: System) {
    && NetOk(net)
    && s.a == net.a.opts && s.aPrefs == net.a.prefs && s.b == net.b.opts && s.bPrefs == net.b.prefs
    && EndOk(net.a, net.ba, s.ba, net.b.sent) && EndOk(net.b, net.ab, s.ab, net.a.sent)
  }

  lemma StandsOther(net: Net, s: System)
    ensures Stands(net, s) <==> Stands(Other(net), Swap(s))
  {
    hide EndOk;
  }

  lemma CallsForAppend(a: seq<Msg>, b: seq<Msg>)
    ensures CallsFor(a + b) == CallsFor(a) + CallsFor(b)
  {
  }

  /** More messages behind those under way. */
  lemma AwaitsMore(p: Parser, octets: seq<byte>, ms: seq<Msg>, sentToIt: seq<Msg>, more: seq<Msg>)
    requires EndOk(p, octets, ms, sentToIt) && Telrcv.Sendable(more)
    ensures EndOk(p, octets + EncodeMsgs(more), ms + more, sentToIt + more)
  {
    hide EncodeMsg, EncodeMsgs, CallsFor;
    EncodeMsgsAppend(ms, more);
    CallsForAppend(ms, more);
    CallsForAppend(sentToIt, more);
    Assoc(p.calls, CallsFor(ms), CallsFor(more));
    if ms != [] {
      EncodedLength(ms);
      Behind(EncodeMsgs(ms), EncodeMsgs(more), 1);
      Behind(EncodeMsgs(ms), EncodeMsgs(more), 2);
    }
  }

  lemma Behind<T>(a: seq<T>, b: seq<T>, k: nat)
    requires k <= |a|
    ensures (a + b)[k..] == a[k..] + b
  {
  }

  lemma EncodedLength(ms: seq<Msg>)
    requires ms != []
    ensures |EncodeMsgs(ms)| >= 3 && EncodeMsgs(ms)[..3] == EncodeMsg(ms[0]) && EncodeMsgs(ms)[3..] == EncodeMsgs(ms[1..])
  {
    hide EncodeMsg;
    Skip(EncodeMsg(ms[0]), EncodeMsgs(ms[1..]));
  }

  lemma TaggedSendable(vs: seq<Verb>, option: nat)
    requires |vs| <= 1 && option < NOPTIONS
    ensures Telrcv.Sendable(Tagged(vs, option))
  {
  }

  // ------------------------------------------------------------------ each move is a run of messages

  lemma RequestStands(net: Net, s: System, option: nat, e: Event)
    requires Stands(net, s) && option < NOPTIONS && !e.Got?
    ensures WellSized(s) && Stands(RequestA(net, option, e), StepA(s, Ask(true, option, e)))
  {
    hide EndOk, React, Answer, EncodeMsgs, Tagged;
    StandsSized(net, s);
    var more := Tagged(Answer(net.a.opts[option], net.a.prefs[option], e), option);
    Skip(net.a.sent, more);
    TaggedSendable(Answer(net.a.opts[option], net.a.prefs[option], e), option);
    AwaitsMore(net.b, net.ab, s.ab, net.a.sent, more);
    SameInput(net.a, Requested(net.a, option, e), net.ba, s.ba, net.b.sent);
  }

  lemma SameInput(p: Parser, q: Parser, octets: seq<byte>, ms: seq<Msg>, sentToIt: seq<Msg>)
    requires EndOk(p, octets, ms, sentToIt) && q == p.(opts := q.opts, sent := q.sent)
    ensures EndOk(q, octets, ms, sentToIt)
  {
    hide EncodeMsgs;
  }

  lemma StandsSized(net: Net, s: System)
    requires Stands(net, s)
    ensures WellSized(s)
  {
    hide Awaits, CallsFor;
  }

  /** One octet either advances the first message, or completes it: then exactly it is handled. */
  lemma OctetTaken(p: Parser, octets: seq<byte>, ms: seq<Msg>, sentToIt: seq<Msg>)
    requires Valid(p) && EndOk(p, octets, ms, sentToIt) && octets != []
    ensures ms != [] && ms[0].option < NOPTIONS
    ensures var q := FeedByte(p, octets[0]);
            if p.state == TsData || p.state == TsIac then
              && q == p.(state := q.state) && EndOk(q, octets[1..], ms, sentToIt)
            else
              q == Heeded(p.(state := TsData), ms[0]) && EndOk(q, octets[1..], ms[1..], sentToIt)
  {
    hide EncodeMsg, FeedByte, Heeded;
    if ms != [] {
      var m := ms[0];
      assert m in ms;
      EncodedLength(ms);
      MessageBytes(p.(state := TsData), m);
      FirstCall(p.calls, ms);
      OctetsOf(EncodeMsgs(ms), EncodeMsg(m));
      assert m.verb == WILL || m.verb == WONT || m.verb == DO || m.verb == DONT;
      HeededCalls(p.(state := TsData), m);
      hide EncodeMsgs, CallsFor;
      assert Telrcv.Sendable(ms[1..]);
    }
  }

  lemma HeededCalls(p: Parser, m: Msg)
    requires Valid(p) && m.option < NOPTIONS
    ensures Heeded(p, m).calls == p.calls + [Negotiated(m.verb, m.option)]
  {
  }

  lemma FirstCall(calls: seq<Call>, ms: seq<Msg>)
    requires ms != []
    ensures calls + CallsFor(ms) == calls + [Negotiated(ms[0].verb, ms[0].option)] + CallsFor(ms[1..])
  {
    assert CallsFor(ms) == [Negotiated(ms[0].verb, ms[0].option)] + CallsFor(ms[1..]);
  }

  lemma OctetsOf(s: seq<byte>, t: seq<byte>)
    requires |s| >= 3 && s[..3] == t
    ensures s[0] == t[0] && s[1..][0] == t[1] && s[2..][0] == t[2]
    ensures s[1..][1..] == s[2..] && s[2..][1..] == s[3..]
  {
    assert s[..3][0] == s[0] && s[..3][1] == s[1] && s[..3][2] == s[2];
  }

  /** What reading one octet amounts to. */
  function Deliveries(net: Net): seq<Action> {
    if net.a.state == TsData || net.a.state == TsIac then [] else [Deliver(true)]
  }

  lemma OctetStands(net: Net, s: System)
    requires Stands(net, s) && net.ba != []
    ensures IsRun(s, Deliveries(net)) && Stands(ReadA(net, 1), Run(s, Deliveries(net)))
  {
    hide EndOk, React, Answer, EncodeMsgs, FeedByte, Feed;
    StandsSized(net, s);
    assert net.ba[..1] == [net.ba[0]];
    FeedOne(net.a, net.ba[0]);
    OctetTaken(net.a, net.ba, s.ba, net.b.sent);
    var q := FeedByte(net.a, net.ba[0]);
    if net.a.state == TsData || net.a.state == TsIac {
      NoMessages(net.a.sent, net.ab);
    } else {
      var m := s.ba[0];
      var more := Tagged(Answer(net.a.opts[m.option], net.a.prefs[m.option], Got(m.verb)), m.option);
      hide Tagged;
      Skip(net.a.sent, more);
      TaggedSendable(Answer(net.a.opts[m.option], net.a.prefs[m.option], Got(m.verb)), m.option);
      AwaitsMore(net.b, net.ab, s.ab, net.a.sent, more);
      OneDelivery(s);
    }
  }

  lemma NoMessages(sent: seq<Msg>, octets: seq<byte>)
    ensures octets + EncodeMsgs(sent[|sent|..]) == octets
  {
  }

  lemma OneDelivery(s: System)
    requires WellSized(s) && s.ba != []
    ensures IsRun(s, [Deliver(true)]) && Run(s, [Deliver(true)]) == StepA(s, Deliver(true))
  {
    hide Step, StepA;
    var acts := [Deliver(true)];
    assert acts[1..] == [];
    assert IsRun(Step(s, acts[0]), []) && Run(Step(s, acts[0]), []) == Step(s, acts[0]);
    DeliverIsStepA(s);
  }

  lemma DeliverIsStepA(s: System)
    requires WellSized(s) && s.ba != []
    ensures Step(s, Deliver(true)) == StepA(s, Deliver(true))
  {
  }

  /** telrcv on n octets is telrcv on the first and then on the others. */
  lemma ReadSplit(net: Net, n: nat)
    requires NetOk(net) && 0 < n <= |net.ba|
    ensures ReadA(net, n) == ReadA(ReadA(net, 1), n - 1)
  {
    hide Feed, EncodeMsgs;
    var s, t := net.ba[..1], net.ba[1..][..n - 1];
    assert net.ba[..n] == s + t;
    assert net.ba[1..][n - 1..] == net.ba[n..];
    ChunkIndependent(net.a, s, t);
    var p, q, r := net.a, Feed(net.a, s), Feed(net.a, s + t);
    SentGrows(p, s);
    SentGrows(q, t);
    assert r.sent[|p.sent|..] == q.sent[|p.sent|..] + r.sent[|q.sent|..];
    EncodeMsgsAppend(q.sent[|p.sent|..], r.sent[|q.sent|..]);
    Assoc(net.ab, EncodeMsgs(q.sent[|p.sent|..]), EncodeMsgs(r.sent[|q.sent|..]));
  }

  lemma {:induction false} ReadStands(net: Net, s: System, n: nat) returns (acts: seq<Action>)
    requires Stands(net, s) && n <= |net.ba|
    ensures IsRun(s, acts) && Stands(ReadA(net, n), Run(s, acts))
    decreases n
  {
    StandsOk(net, s);
    hide Stands, ReadA, Run, IsRun, NetOk;
    if n == 0 {
      acts := [];
      NothingRead(net);
      EmptyRun(s);
    } else {
      OctetStands(net, s);
      ReadSplit(net, n);
      OneOctetLess(net);
      var more := ReadStands(ReadA(net, 1), Run(s, Deliveries(net)), n - 1);
      acts := Deliveries(net) + more;
      RunAppend(s, Deliveries(net), more);
    }
  }

  lemma StandsOk(net: Net, s: System)
    requires Stands(net, s)
    ensures NetOk(net)
  {
  }

  lemma OneOctetLess(net: Net)
    requires NetOk(net) && net.ba != []
    ensures |ReadA(net, 1).ba| == |net.ba| - 1
  {
    hide Feed, EncodeMsgs;
  }

  lemma NothingRead(net: Net)
    requires NetOk(net)
    ensures ReadA(net, 0) == net
  {
    FeedEmpty(net.a);
    assert net.ba[..0] == [] && net.ba[0..] == net.ba;
    NoMessages(net.a.sent, net.ab);
  }

  lemma EmptyRun(s: System)
    ensures IsRun(s, []) && Run(s, []) == s
  {
  }

  lemma {:induction false} RunAppend(s: System, a: seq<Action>, b: seq<Action>)
    requires IsRun(s, a) && IsRun(Run(s, a), b)
    ensures IsRun(s, a + b) && Run(s, a + b) == Run(Run(s, a), b)
    decreases |a|
  {
    hide Step;
    if a == [] {
      EmptyUnit(b);
    } else {
      assert (a + b)[1..] == a[1..] + b;
      RunAppend(Step(s, a[0]), a[1..], b);
    }
  }

  // ------------------------------------------------------------------ the same from the other end

  function Mirror(act: Action): Action {
    match act case Ask(atA, option, e) => Ask(!atA, option, e) case Deliver(toA) => Deliver(!toA)
  }

  function MirrorAll(acts: seq<Action>): (r: seq<Action>)
    ensures |r| == |acts|
  {
    if acts == [] then [] else [Mirror(acts[0])] + MirrorAll(acts[1..])
  }

  lemma StepMirrored(s: System, act: Action)
    requires WellSized(s) && Enabled(s, act)
    ensures WellSized(Swap(s)) && Enabled(Swap(s), Mirror(act)) && Step(Swap(s), Mirror(act)) == Swap(Step(s, act))
  {
    hide StepA;
    assert Swap(Swap(s)) == s;
  }

  lemma {:induction false} RunMirrored(s: System, acts: seq<Action>)
    requires IsRun(s, acts)
    ensures IsRun(Swap(s), MirrorAll(acts)) && Run(Swap(s), MirrorAll(acts)) == Swap(Run(s, acts))
    decreases |acts|
  {
    hide Step;
    if acts != [] {
      StepMirrored(s, acts[0]);
      RunMirrored(Step(s, acts[0]), acts[1..]);
      assert MirrorAll(acts)[1..] == MirrorAll(acts[1..]);
    }
  }

  lemma OneRequest(s: System, option: nat, e: Event)
    requires WellSized(s) && option < NOPTIONS && !e.Got?
    ensures var acts := [Ask(true, option, e)]; IsRun(s, acts) && Run(s, acts) == StepA(s, acts[0])
  {
    hide Step, StepA;
    var acts := [Ask(true, option, e)];
    assert acts[1..] == [];
    assert IsRun(Step(s, acts[0]), []) && Run(Step(s, acts[0]), []) == Step(s, acts[0]);
    RequestIsStepA(s, acts[0]);
  }

  lemma RequestIsStepA(s: System, act: Action)
    requires WellSized(s) && Enabled(s, act) && act.Ask? && act.atA
    ensures Step(s, act) == StepA(s, act)
  {
  }

  /** A move of A is a run of messages. */
  lemma MoveOfAStands(net: Net, s: System, m: Move) returns (acts: seq<Action>)
    requires Stands(net, s) && NetOk(net) && Possible(net, m) && if m.Request? then m.atA else m.toA
    ensures IsRun(s, acts) && Stands(NetStep(net, m), Run(s, acts))
  {
    hide Stands, ReadA, RequestA, Run, IsRun, StepA, NetOk;
    match m
    case Request(_, option, e) =>
      RequestStands(net, s, option, e);
      OneRequest(s, option, e);
      acts := [Ask(true, option, e)];
    case Read(_, n) =>
      acts := ReadStands(net, s, n);
  }

  function Turned(m: Move): Move {
    match m case Request(atA, option, e) => Request(!atA, option, e) case Read(toA, n) => Read(!toA, n)
  }

  lemma MoveTurned(net: Net, m: Move)
    requires NetOk(net) && Possible(net, m) && if m.Request? then !m.atA else !m.toA
    ensures NetOk(Other(net)) && Possible(Other(net), Turned(m)) && NetStep(net, m) == Other(NetStep(Other(net), Turned(m)))
  {
    hide ReadA, RequestA;
  }

  lemma MoveStands(net: Net, s: System, m: Move) returns (acts: seq<Action>)
    requires NetOk(net) && Stands(net, s) && Possible(net, m)
    ensures IsRun(s, acts) && Stands(NetStep(net, m), Run(s, acts))
  {
    hide Stands, Run, IsRun, NetStep, Swap;
    if if m.Request? then m.atA else m.toA {
      acts := MoveOfAStands(net, s, m);
    } else {
      StandsOther(net, s);
      MoveTurned(net, m);
      var back := MoveOfAStands(Other(net), Swap(s), Turned(m));
      RunMirrored(Swap(s), back);
      SwapTwice(s);
      acts := MirrorAll(back);
      StandsOther(NetStep(Other(net), Turned(m)), Run(Swap(s), back));
    }
  }

  lemma SwapTwice(s: System)
    ensures Swap(Swap(s)) == s
  {
  }

  // ------------------------------------------------------------------ all runs over octets

  predicate IsNetRun(net: Net, moves: seq<Move>)
    decreases |moves|
  {
    moves == [] || (NetOk(net) && Possible(net, moves[0]) && IsNetRun(NetStep(net, moves[0]), moves[1..]))
  }

  function NetRun(net: Net, moves: seq<Move>): Net
    requires IsNetRun(net, moves)
    decreases |moves|
  {
    if moves == [] then net else NetRun(NetStep(net, moves[0]), moves[1..])
  }

  /** A client that has not said or heard anything. */
  predicate Silent(p: Parser) {
    && Valid(p) && p.state == TsData && p.sent == [] && p.calls == [] && p.data == []
    && p.opts == seq(NOPTIONS, _ => OptState(OFF, OFF))
  }

  predicate Started(net: Net) {
    Silent(net.a) && Silent(net.b) && net.ab == [] && net.ba == []
  }

  lemma StartedStands(net: Net)
    requires Started(net)
    ensures Stands(net, Initial(net.a.prefs, net.b.prefs))
  {
  }

  lemma {:induction false} RunStands(net: Net, s: System, moves: seq<Move>) returns (acts: seq<Action>)
    requires Stands(net, s) && IsNetRun(net, moves)
    ensures IsRun(s, acts) && Stands(NetRun(net, moves), Run(s, acts))
    decreases |moves|
  {
    StandsOk(net, s);
    hide Stands, Run, IsRun, NetStep, NetOk;
    if moves == [] {
      acts := [];
      EmptyRun(s);
    } else {
      var first := MoveStands(net, s, moves[0]);
      var more := RunStands(NetStep(net, moves[0]), Run(s, first), moves[1..]);
      acts := first + more;
      RunAppend(s, first, more);
    }
  }

  /**
   However requests interleave with reads, and however the octets are cut into reads, two clients do over their
   sockets what TelnetSystem does with whole messages.
   */
  lemma OctetsRefineMessages(net: Net, moves: seq<Move>) returns (acts: seq<Action>)
    requires Started(net) && IsNetRun(net, moves)
    ensures IsRun(Initial(net.a.prefs, net.b.prefs), acts)
    ensures Stands(NetRun(net, moves), Run(Initial(net.a.prefs, net.b.prefs), acts))
  {
    StartedStands(net);
    hide Stands, Initial;
    acts := RunStands(net, Initial(net.a.prefs, net.b.prefs), moves);
  }

  /** What an end has called is the front of what the other sent, and all of it once nothing is on its way. */
  lemma EndHeard(p: Parser, octets: seq<byte>, ms: seq<Msg>, sentToIt: seq<Msg>)
    requires EndOk(p, octets, ms, sentToIt)
    ensures p.calls <= CallsFor(sentToIt) && p.data == []
    ensures octets == [] ==> ms == [] && p.state == TsData && p.calls == CallsFor(sentToIt)
  {
    hide EncodeMsg, CallsFor;
    if ms != [] {
      EncodedLength(ms);
    } else {
      EmptyUnit(p.calls);
      NoCalls();
    }
  }

  lemma NoCalls()
    ensures CallsFor([]) == []
  {
  }

  /**
   In every state two clients can reach over octets, each has called for a front part of what the other sent, in
   order, and has taken none of it for data; and once both streams are read out, each has called for all of it and
   they agree on every option.
   */
  lemma WireSafety(net: Net, moves: seq<Move>)
    requires Started(net) && IsNetRun(net, moves)
    ensures var n := NetRun(net, moves);
            && NetOk(n)
            && n.a.calls <= CallsFor(n.b.sent) && n.b.calls <= CallsFor(n.a.sent) && n.a.data == n.b.data == []
            && (n.ab == [] && n.ba == [] ==>
                  && n.a.calls == CallsFor(n.b.sent) && n.b.calls == CallsFor(n.a.sent)
                  && n.a.state == n.b.state == TsData
                  && forall o :: 0 <= o < NOPTIONS ==>
                       && n.a.opts[o].us == n.b.opts[o].him && n.a.opts[o].us in {OFF, Side(YES, EMPTY)}
                       && n.a.opts[o].him == n.b.opts[o].us && n.a.opts[o].him in {OFF, Side(YES, EMPTY)})
  {
    hide NetRun, IsNetRun, Run, IsRun, CallsFor, EndOk, Initial;
    var acts := OctetsRefineMessages(net, moves);
    var n := NetRun(net, moves);
    var s := Run(Initial(net.a.prefs, net.b.prefs), acts);
    EndHeard(n.a, n.ba, s.ba, n.b.sent);
    EndHeard(n.b, n.ab, s.ab, n.a.sent);
    Safety(net.a.prefs, net.b.prefs, acts);
  }
}
