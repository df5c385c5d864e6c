/**
 Option negotiation of src/telnet.cpp, per option: the Q method of section 7 of RFC 1143, with the
 assignment of rec_do kept as the code has it.
 */
module QMethod {
  datatype St = NO | YES | WANTYES | WANTNO
  datatype Queue = EMPTY | OPPOSITE

  /** One of the two state/queue pairs the client keeps for an option: us/usq or him/himq. */
  datatype Side = Side(st: St, q: Queue)

  datatype Verb = WILL | WONT | DO | DONT

  /** A side after a request or a message, and the answer sent: true for WILL or DO, false for WONT or DONT. */
  datatype Act = Act(side: Side, reply: seq<bool>)

  // ------------------------------------------------------------------ the code, one side at a time

  /** set_local_option and set_remote_option */
  function Request(s: Side, on: bool): Act {
    match s.st
    case NO => if on then Act(s.(st := WANTYES), [true]) else Act(s, [])
    case YES => if on then Act(s, []) else Act(s.(st := WANTNO), [false])
    case WANTNO => Act(s.(q := if on then OPPOSITE else EMPTY), [])
    case WANTYES => Act(s.(q := if on then EMPTY else OPPOSITE), [])
  }

  /** rec_will, rec_wont and rec_dont; and what rec_do would be if it were the dual of rec_will. */
  function Receive(s: Side, preferred: bool, on: bool): Act {
    if on then
      match s.st
      case NO => if preferred then Act(s.(st := YES), [true]) else Act(s, [false])
      case YES => Act(s, [])
      case WANTNO => Act(Side(if s.q == EMPTY then NO else YES, EMPTY), [])
      case WANTYES => if s.q == EMPTY then Act(s.(st := YES), []) else Act(Side(WANTNO, EMPTY), [false])
    else
      match s.st
      case NO => Act(s, [])
      case YES => Act(s.(st := NO), [false])
      case WANTNO => if s.q == EMPTY then Act(s.(st := NO), []) else Act(Side(WANTYES, EMPTY), [true])
      case WANTYES => Act(Side(NO, EMPTY), [])
  }

  /** The branch of rec_do that empties himq instead of usq. */
  predicate Miswired(s: Side) {
    s == Side(WANTYES, OPPOSITE)
  }

  /** rec_do as written: its own queue stays full. */
  function ReceiveDo(s: Side, preferred: bool): Act {
    if Miswired(s) then Act(Side(WANTNO, OPPOSITE), [false]) else Receive(s, preferred, true)
  }

  // ------------------------------------------------------------------ both sides of an option

  datatype OptState = OptState(us: Side, him: Side)
  datatype Prefs = Prefs(us: bool, him: bool)

  function Offer(reply: seq<bool>): seq<Verb> {
    if reply == [] then [] else [if reply[0] then WILL else WONT]
  }

  function Demand(reply: seq<bool>): seq<Verb> {
    if reply == [] then [] else [if reply[0] then DO else DONT]
  }

  datatype Event = Local(on: bool) | Remote(on: bool) | Got(verb: Verb)

  /** The option after a user request or a received message. */
  function React(o: OptState, p: Prefs, e: Event): OptState {
    match e
    case Local(on) => o.(us := Request(o.us, on).side)
    case Remote(on) => o.(him := Request(o.him, on).side)
    case Got(WILL) => o.(him := Receive(o.him, p.him, true).side)
    case Got(WONT) => o.(him := Receive(o.him, p.him, false).side)
    case Got(DO) => OptState(ReceiveDo(o.us, p.us).side, if Miswired(o.us) then o.him.(q := EMPTY) else o.him)
    case Got(DONT) => o.(us := Receive(o.us, p.us, false).side)
  }

  /** What is sent in answer. */
  function Answer(o: OptState, p: Prefs, e: Event): (vs: seq<Verb>)
    ensures |vs| <= 1
  {
    match e
    case Local(on) => Offer(Request(o.us, on).reply)
    case Remote(on) => Demand(Request(o.him, on).reply)
    case Got(WILL) => Demand(Receive(o.him, p.him, true).reply)
    case Got(WONT) => Demand(Receive(o.him, p.him, false).reply)
    case Got(DO) => Offer(ReceiveDo(o.us, p.us).reply)
    case Got(DONT) => Offer(Receive(o.us, p.us, false).reply)
  }

  const OFF := Side(NO, EMPTY)

  // ------------------------------------------------------------------ what the queue bit means

  /** Take a message as if the queue were empty, then issue the request a full queue stands for. */
  function AsPending(st: St, preferred: bool, on: bool): Act {
    var first := Receive(Side(st, EMPTY), preferred, on);
    var second := Request(first.side, st == WANTNO);
    Act(second.side, first.reply + second.reply)
  }

  /** A full queue is a pending opposite request, except where an enable answers a disable. */
  lemma QueueIsAPendingRequest(st: St, preferred: bool, on: bool)
    requires st == WANTYES || st == WANTNO
    ensures Receive(Side(st, OPPOSITE), preferred, on) == AsPending(st, preferred, on) <==> !(st == WANTNO && on)
  {
  }

  /**
   The branch for an enable that answers a disable, which no two of these clients bring each other to: without a
   message, the side becomes what the user asked for last.
   */
  lemma ErrorBranchObeysTheUser(s: Side, preferred: bool, on: bool)
    requires s.st == WANTNO
    ensures Receive(Request(s, on).side, preferred, true) == Act(Side(if on then YES else NO, EMPTY), [])
  {
  }

  /** rec_do departs from the dual of rec_will in exactly one state. */
  lemma MiswiredExactly(s: Side, preferred: bool)
    ensures ReceiveDo(s, preferred) == Receive(s, preferred, true) <==> s != Side(WANTYES, OPPOSITE)
  {
  }

  /** There, it behaves as if the user had withdrawn the disable request just made. */
  lemma MiswiredIsAWithdrawal(preferred: bool)
    ensures var s := Side(WANTYES, OPPOSITE);
            ReceiveDo(s, preferred).side == Request(Receive(s, preferred, true).side, true).side
  {
  }

  // ------------------------------------------------------------------ last disable wins, and when not

  function After(o: OptState, p: Prefs, es: seq<Event>): OptState
    decreases |es|
  {
    if es == [] then o else After(React(o, p, es[0]), p, es[1..])
  }

  predicate NoMore(es: seq<Event>, local: bool) {
    forall e :: e in es ==> if local then !e.Local? else !e.Remote?
  }

  predicate Settled(s: Side) {
    s.st == NO || s.st == YES ==> s.q == EMPTY
  }

  /** States from which only a new request can lead to YES. */
  predicate Disabled(s: Side) {
    s.st == NO || s == Side(WANTNO, EMPTY)
  }

  lemma DisabledKept(o: OptState, p: Prefs, e: Event)
    ensures !p.us && !e.Local? && Disabled(o.us) ==> Disabled(React(o, p, e).us)
    ensures !p.him && !e.Remote? && Disabled(o.him) ==> Disabled(React(o, p, e).him)
  {
  }

  lemma {:induction false} StaysDisabled(o: OptState, p: Prefs, es: seq<Event>, local: bool)
    requires NoMore(es, local)
    requires if local then !p.us && Disabled(o.us) else !p.him && Disabled(o.him)
    ensures if local then Disabled(After(o, p, es).us) else Disabled(After(o, p, es).him)
    decreases |es|
  {
    if es != [] {
      assert es[0] in es;
      DisabledKept(o, p, es[0]);
      StaysDisabled(React(o, p, es[0]), p, es[1..], local);
    }
  }

  /** No continuation without a further request for that side reaches YES. */
  ghost predicate NeverAgain(o: OptState, p: Prefs, local: bool) {
    forall es :: NoMore(es, local) ==> (if local then After(o, p, es).us.st else After(o, p, es).him.st) != YES
  }

  /** Compose a run from a first event and the rest. */
  lemma AfterCons(o: OptState, p: Prefs, e: Event, es: seq<Event>)
    ensures After(o, p, [e] + es) == After(React(o, p, e), p, es)
  {
    assert ([e] + es)[1..] == es;
  }

  /**
   A local disable that is the last request for a side that does not prefer the option is final if
   and only if it was not made while an enable was still being negotiated: in that case the peer's
   DO runs into the miswired branch, and the option can still come up.
   */
  lemma LastLocalDisableWins(o: OptState, p: Prefs)
    requires !p.us && Settled(o.us)
    ensures NeverAgain(React(o, p, Local(false)), p, true) <==> o.us.st != WANTYES
  {
    var d := React(o, p, Local(false));
    if o.us.st != WANTYES {
      forall es | NoMore(es, true)
        ensures After(d, p, es).us.st != YES
      {
        StaysDisabled(d, p, es, true);
      }
    } else {
      var es := [Got(DO)] + ([Got(DONT)] + ([Got(DO)] + []));
      AfterCons(d, p, Got(DO), [Got(DONT)] + ([Got(DO)] + []));
      var d1 := React(d, p, Got(DO));
      AfterCons(d1, p, Got(DONT), [Got(DO)] + []);
      var d2 := React(d1, p, Got(DONT));
      AfterCons(d2, p, Got(DO), []);
      assert NoMore(es, true) && After(d, p, es).us.st == YES;
    }
  }

  /** Requests and messages, none of them about his side, that bring our side to the miswired state. */
  lemma ReachMiswired(o: OptState, p: Prefs) returns (es: seq<Event>)
    requires Settled(o.us)
    ensures NoMore(es, false)
    ensures Miswired(After(o, p, es).us) && After(o, p, es).him == o.him
    decreases match o.us.st case WANTYES => 0 case NO => 1 case YES => 2 case WANTNO => 2
  {
    if Miswired(o.us) {
      es := [];
    } else {
      var e := match o.us.st case WANTYES => Local(false) case NO => Local(true) case YES => Got(DONT) case WANTNO => Got(DONT);
      var rest: seq<Event>;
      if o.us.st == WANTYES {
        rest := [];
      } else {
        rest := ReachMiswired(React(o, p, e), p);
      }
      AfterCons(o, p, e, rest);
      es := [e] + rest;
    }
  }

  lemma {:induction false} AfterAppend(o: OptState, p: Prefs, es: seq<Event>, fs: seq<Event>)
    ensures After(o, p, es + fs) == After(After(o, p, es), p, fs)
    decreases |es|
  {
    if es == [] {
      assert es + fs == fs;
    } else {
      assert (es + fs)[1..] == es[1..] + fs;
      AfterAppend(React(o, p, es[0]), p, es[1..], fs);
    }
  }

  /** The same for a remote disable: what undoes it is the himq the miswired branch empties. */
  lemma LastRemoteDisableWins(o: OptState, p: Prefs)
    requires !p.him && Settled(o.us) && Settled(o.him)
    ensures NeverAgain(React(o, p, Remote(false)), p, false) <==> o.him.st != WANTYES
  {
    var d := React(o, p, Remote(false));
    if o.him.st != WANTYES {
      forall es | NoMore(es, false)
        ensures After(d, p, es).him.st != YES
      {
        StaysDisabled(d, p, es, false);
      }
    } else {
      var es := ReachMiswired(d, p);
      var m := After(d, p, es);
      var fs := [Got(DO)] + ([Got(WILL)] + []);
      AfterAppend(d, p, es, fs);
      AfterCons(m, p, Got(DO), [Got(WILL)] + []);
      AfterCons(React(m, p, Got(DO)), p, Got(WILL), []);
      assert NoMore(es + fs, false) && After(d, p, es + fs).him.st == YES;
    }
  }
}
