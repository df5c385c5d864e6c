/**
 Two telnet clients of src/telnet.cpp joined by two FIFO channels: what every interleaving of user
 requests and deliveries keeps, for all 256 options at once, and why negotiation ends.
 */
module TelnetSystem {
  import opened QMethod

  const NOPTIONS: nat := 256

  datatype Msg = Msg(verb: Verb, option: nat)

  datatype System = System(
    a: seq<OptState>, aPrefs: seq<Prefs>,
    b: seq<OptState>, bPrefs: seq<Prefs>,
    ab: seq<Msg>, ba: seq<Msg>)

  datatype Action =
    | Ask(atA: bool, option: nat, event: Event)
    | Deliver(toA: bool)

  predicate WellSized(s: System) {
    && |s.a| == |s.aPrefs| == |s.b| == |s.bPrefs| == NOPTIONS
    && (forall m :: m in s.ab ==> m.option < NOPTIONS)
    && (forall m :: m in s.ba ==> m.option < NOPTIONS)
  }

  predicate Enabled(s: System, act: Action) {
    match act
    case Ask(_, option, e) => option < NOPTIONS && !e.Got?
    case Deliver(toA) => if toA then s.ba != [] else s.ab != []
  }

  function Tagged(vs: seq<Verb>, option: nat): seq<Msg>
    requires |vs| <= 1
  {
    if vs == [] then [] else [Msg(vs[0], option)]
  }

  /** The same system seen from the other end. */
  function Swap(s: System): System {
    System(s.b, s.bPrefs, s.a, s.aPrefs, s.ba, s.ab)
  }

  /** Client A handles an event for one option and sends its answer. */
  function ActA(s: System, option: nat, e: Event): System
    requires WellSized(s) && option < NOPTIONS
  {
    var o, p := s.a[option], s.aPrefs[option];
    s.(a := s.a[option := React(o, p, e)], ab := s.ab + Tagged(Answer(o, p, e), option))
  }

  predicate ByA(act: Action) {
    if act.Ask? then act.atA else act.toA
  }

  function StepA(s: System, act: Action): System
    requires WellSized(s) && Enabled(s, act)
    requires ByA(act)
  {
    match act
    case Ask(_, option, e) => ActA(s, option, e)
    case Deliver(_) => ActA(s.(ba := s.ba[1..]), s.ba[0].option, Got(s.ba[0].verb))
  }

  function Step(s: System, act: Action): System
    requires WellSized(s) && Enabled(s, act)
  {
    match act
    case Ask(atA, option, e) => if atA then StepA(s, act) else Swap(StepA(Swap(s), Ask(true, option, e)))
    case Deliver(toA) => if toA then StepA(s, act) else Swap(StepA(Swap(s), Deliver(true)))
  }

  // ------------------------------------------------------------------ one option, one direction

  /** The messages of a channel that concern one side of an option: offers are WILL and WONT. */
  function Proj(ch: seq<Msg>, option: nat, offers: bool): seq<bool> {
    if ch == [] then []
    else Concern(ch[0], option, offers) + Proj(ch[1..], option, offers)
  }

  function Concern(m: Msg, option: nat, offers: bool): seq<bool> {
    if m.option != option then []
    else
      match m.verb
      case WILL => if offers then [true] else []
      case WONT => if offers then [false] else []
      case DO => if offers then [] else [true]
      case DONT => if offers then [] else [false]
  }

  lemma {:induction false} ProjAppend(c: seq<Msg>, d: seq<Msg>, option: nat, offers: bool)
    ensures Proj(c + d, option, offers) == Proj(c, option, offers) + Proj(d, option, offers)
    decreases |c|
  {
    if c == [] {
      assert c + d == d;
    } else {
      assert (c + d)[1..] == c[1..] + d;
      ProjAppend(c[1..], d, option, offers);
    }
  }

  lemma ProjOne(m: Msg, option: nat, offers: bool)
    ensures Proj([m], option, offers) == Concern(m, option, offers)
  {
    assert [m][1..] == [];
  }

  /** One side waits for what is in flight towards it, and nothing flows the other way. */
  predicate OneWay(l: St, r: St, rl: seq<bool>) {
    || (rl == [false] && (l, r) in {(YES, WANTNO), (WANTNO, NO), (WANTYES, NO)})
    || (rl == [true] && (l, r) in {(NO, WANTYES), (WANTYES, YES)})
    || (rl == [false, true] && (l, r) in {(WANTNO, WANTYES), (WANTYES, WANTYES)})
    || (rl == [true, false] && (l, r) == (WANTYES, WANTNO))
  }

  /** The joint states an offering side, the other end's demanding side and their messages can be in. */
  predicate Half(l: Side, r: Side, lr: seq<bool>, rl: seq<bool>) {
    && Settled(l) && Settled(r)
    && (|| (lr == [] && rl == [] && l.st == r.st && (l.st == NO || l.st == YES))
        || (lr == [] && OneWay(l.st, r.st, rl))
        || (rl == [] && OneWay(r.st, l.st, lr))
        || (lr == [true] && rl == [true] && l.st == r.st == WANTYES)
        || (lr == [false] && rl == [false] && l.st == r.st == WANTNO))
  }

  lemma HalfSymmetric(l: Side, r: Side, lr: seq<bool>, rl: seq<bool>)
    ensures Half(l, r, lr, rl) <==> Half(r, l, rl, lr)
  {
  }

  /** An enable never answers a disable. */
  predicate ErrorBranch(s: Side, on: bool) {
    s.st == WANTNO && on
  }

  lemma HalfRequest(l: Side, r: Side, lr: seq<bool>, rl: seq<bool>, on: bool)
    requires Half(l, r, lr, rl)
    ensures Half(Request(l, on).side, r, lr + Request(l, on).reply, rl)
  {
  }

  lemma HalfReceive(l: Side, r: Side, lr: seq<bool>, rl: seq<bool>, preferred: bool)
    requires Half(l, r, lr, rl) && rl != []
    ensures !ErrorBranch(l, rl[0])
    ensures var act := Receive(l, preferred, rl[0]); Half(act.side, r, lr + act.reply, rl[1..])
    ensures rl[0] ==> var act := ReceiveDo(l, preferred); Half(act.side, r, lr + act.reply, rl[1..])
  {
    var t := rl[1..];
    assert rl == [rl[0]] + t;
    assert |rl| <= 2;
    assert t == [] || t == [rl[1]];
  }

  lemma HalfForgets(l: Side, r: Side, lr: seq<bool>, rl: seq<bool>)
    requires Half(l, r, lr, rl)
    ensures Half(l.(q := EMPTY), r, lr, rl)
  {
  }

  // ------------------------------------------------------------------ the invariant

  /** Everything about one option: A's and B's record of it and its messages, by direction. */
  datatype View = View(
    x: OptState, y: OptState,
    offersOut: seq<bool>, demandsOut: seq<bool>,
    offersIn: seq<bool>, demandsIn: seq<bool>)

  function ViewOf(s: System, o: nat): View
    requires WellSized(s) && o < NOPTIONS
  {
    View(s.a[o], s.b[o],
         Proj(s.ab, o, true), Proj(s.ab, o, false),
         Proj(s.ba, o, true), Proj(s.ba, o, false))
  }

  predicate ViewOk(v: View) {
    && Half(v.x.us, v.y.him, v.offersOut, v.demandsIn)
    && Half(v.x.him, v.y.us, v.demandsOut, v.offersIn)
  }

  predicate Inv(s: System) {
    WellSized(s) && forall o :: 0 <= o < NOPTIONS ==> ViewOk(ViewOf(s, o))
  }

  lemma SwapInv(s: System)
    ensures Inv(s) <==> Inv(Swap(s))
  {
    if WellSized(s) {
      forall o | 0 <= o < NOPTIONS
        ensures ViewOk(ViewOf(s, o)) <==> ViewOk(ViewOf(Swap(s), o))
      {
        var v := ViewOf(s, o);
        HalfSymmetric(v.x.us, v.y.him, v.offersOut, v.demandsIn);
        HalfSymmetric(v.x.him, v.y.us, v.demandsOut, v.offersIn);
      }
    }
  }

  /** The message about to be handled meets the error branch of its receiver. */
  predicate MeetsError(s: System, toA: bool)
    requires WellSized(s) && Enabled(s, Deliver(toA))
  {
    var m := if toA then s.ba[0] else s.ab[0];
    EventError(if toA then s.a[m.option] else s.b[m.option], Got(m.verb))
  }

  predicate EventError(o: OptState, e: Event) {
    match e
    case Got(WILL) => ErrorBranch(o.him, true)
    case Got(DO) => ErrorBranch(o.us, true)
    case _ => false
  }

  /** The first message of an option's input is the one A is about to handle. */
  predicate Pending(v: View, e: Event) {
    match e
    case Got(WILL) => v.offersIn != [] && v.offersIn[0]
    case Got(WONT) => v.offersIn != [] && !v.offersIn[0]
    case Got(DO) => v.demandsIn != [] && v.demandsIn[0]
    case Got(DONT) => v.demandsIn != [] && !v.demandsIn[0]
    case _ => true
  }

  /** A handles an event: the view of that option afterwards. */
  function ReactView(v: View, p: Prefs, e: Event): View
    requires Pending(v, e)
  {
    var x := v.x;
    match e
    case Local(on) => v.(x := React(x, p, e), offersOut := v.offersOut + Request(x.us, on).reply)
    case Remote(on) => v.(x := React(x, p, e), demandsOut := v.demandsOut + Request(x.him, on).reply)
    case Got(WILL) =>
      v.(x := React(x, p, e), demandsOut := v.demandsOut + Receive(x.him, p.him, true).reply, offersIn := v.offersIn[1..])
    case Got(WONT) =>
      v.(x := React(x, p, e), demandsOut := v.demandsOut + Receive(x.him, p.him, false).reply, offersIn := v.offersIn[1..])
    case Got(DO) =>
      v.(x := React(x, p, e), offersOut := v.offersOut + ReceiveDo(x.us, p.us).reply, demandsIn := v.demandsIn[1..])
    case Got(DONT) =>
      v.(x := React(x, p, e), offersOut := v.offersOut + Receive(x.us, p.us, false).reply, demandsIn := v.demandsIn[1..])
  }

  lemma ReactViewOk(v: View, p: Prefs, e: Event)
    requires ViewOk(v) && Pending(v, e)
    ensures ViewOk(ReactView(v, p, e)) && !EventError(v.x, e)
  {
    hide Half, Receive, Request;
    match e
    case Local(on) => HalfRequest(v.x.us, v.y.him, v.offersOut, v.demandsIn, on);
    case Remote(on) => HalfRequest(v.x.him, v.y.us, v.demandsOut, v.offersIn, on);
    case Got(WILL) => HalfReceive(v.x.him, v.y.us, v.demandsOut, v.offersIn, p.him);
    case Got(WONT) => HalfReceive(v.x.him, v.y.us, v.demandsOut, v.offersIn, p.him);
    case Got(DONT) => HalfReceive(v.x.us, v.y.him, v.offersOut, v.demandsIn, p.us);
    case Got(DO) =>
      HalfReceive(v.x.us, v.y.him, v.offersOut, v.demandsIn, p.us);
      HalfForgets(v.x.him, v.y.us, v.demandsOut, v.offersIn);
  }

  // ------------------------------------------------------------------ a step changes one view

  function Input(s: System, act: Action): (nat, Event)
    requires WellSized(s) && Enabled(s, act) && ByA(act)
  {
    match act
    case Ask(_, option, e) => (option, e)
    case Deliver(_) => (s.ba[0].option, Got(s.ba[0].verb))
  }

  function Answers(vs: seq<Verb>, offers: bool): seq<bool> {
    if vs == [] then []
    else
      match vs[0]
      case WILL => if offers then [true] else []
      case WONT => if offers then [false] else []
      case DO => if offers then [] else [true]
      case DONT => if offers then [] else [false]
  }

  lemma OutProj(ch: seq<Msg>, vs: seq<Verb>, option: nat, o: nat, offers: bool)
    requires |vs| <= 1
    ensures Proj(ch + Tagged(vs, option), o, offers)
         == Proj(ch, o, offers) + if o == option then Answers(vs, offers) else []
  {
    ProjAppend(ch, Tagged(vs, option), o, offers);
    if vs != [] {
      ProjOne(Msg(vs[0], option), o, offers);
    }
  }

  lemma AnswersAre(x: OptState, p: Prefs, e: Event)
    ensures Answers(Answer(x, p, e), true) ==
            match e
            case Local(on) => Request(x.us, on).reply
            case Got(DO) => ReceiveDo(x.us, p.us).reply
            case Got(DONT) => Receive(x.us, p.us, false).reply
            case _ => []
    ensures Answers(Answer(x, p, e), false) ==
            match e
            case Remote(on) => Request(x.him, on).reply
            case Got(WILL) => Receive(x.him, p.him, true).reply
            case Got(WONT) => Receive(x.him, p.him, false).reply
            case _ => []
  {
  }

  lemma StepAView(s: System, act: Action, o: nat)
    requires WellSized(s) && Enabled(s, act) && ByA(act) && o < NOPTIONS
    ensures WellSized(StepA(s, act)) && Input(s, act).0 < NOPTIONS
    ensures var (option, e) := Input(s, act);
            if o == option then
              Pending(ViewOf(s, o), e) && ViewOf(StepA(s, act), o) == ReactView(ViewOf(s, o), s.aPrefs[o], e)
            else ViewOf(StepA(s, act), o) == ViewOf(s, o)
  {
    hide Proj, React, Answer, Request, Receive, ReceiveDo;
    if act.Deliver? {
      assert s.ba[0] in s.ba;
    }
    var (option, e) := Input(s, act);
    var x, p := s.a[option], s.aPrefs[option];
    OutProj(s.ab, Answer(x, p, e), option, o, true);
    OutProj(s.ab, Answer(x, p, e), option, o, false);
    AnswersAre(x, p, e);
    if act.Deliver? {
      InProj(s.ba, o, true);
      InProj(s.ba, o, false);
    }
  }

  lemma InProj(ch: seq<Msg>, o: nat, offers: bool)
    requires ch != []
    ensures var c := Concern(ch[0], o, offers);
            && Proj(ch, o, offers) == c + Proj(ch[1..], o, offers)
            && (c != [] ==> Proj(ch, o, offers)[0] == c[0] && Proj(ch, o, offers)[1..] == Proj(ch[1..], o, offers))
  {
  }

  lemma StepAKeepsOption(s: System, act: Action, o: nat)
    requires Inv(s) && Enabled(s, act) && o < NOPTIONS && ByA(act)
    ensures WellSized(StepA(s, act)) && ViewOk(ViewOf(StepA(s, act), o))
    ensures act.Deliver? ==> !MeetsError(s, true)
  {
    hide ViewOk, ReactView, StepA, ViewOf;
    var (option, e) := Input(s, act);
    StepAView(s, act, o);
    StepAView(s, act, option);
    ViewFields(s, option);
    ReactViewOk(ViewOf(s, option), s.aPrefs[option], e);
  }

  lemma ViewFields(s: System, o: nat)
    requires WellSized(s) && o < NOPTIONS
    ensures ViewOf(s, o).x == s.a[o] && ViewOf(s, o).y == s.b[o]
  {
  }

  /** Every step keeps the invariant, and no message ever meets an error branch. */
  lemma StepKeepsInv(s: System, act: Action)
    requires Inv(s) && Enabled(s, act)
    ensures Inv(Step(s, act))
    ensures act.Deliver? ==> !MeetsError(s, act.toA)
  {
    var s', act' := if ByA(act) then s else Swap(s), if ByA(act) then act else if act.Ask? then act.(atA := true) else Deliver(true);
    SwapInv(s);
    forall o | 0 <= o < NOPTIONS
      ensures WellSized(StepA(s', act')) && ViewOk(ViewOf(StepA(s', act'), o))
    {
      StepAKeepsOption(s', act', o);
    }
    StepAKeepsOption(s', act', 0);
    SwapInv(StepA(s', act'));
  }

  // ------------------------------------------------------------------ all runs

  function Initial(aPrefs: seq<Prefs>, bPrefs: seq<Prefs>): System {
    var off := seq(NOPTIONS, _ => OptState(OFF, OFF));
    System(off, aPrefs, off, bPrefs, [], [])
  }

  lemma InitialInv(aPrefs: seq<Prefs>, bPrefs: seq<Prefs>)
    requires |aPrefs| == |bPrefs| == NOPTIONS
    ensures Inv(Initial(aPrefs, bPrefs))
  {
  }

  /** A run: each action is enabled in the state the earlier ones lead to. */
  predicate IsRun(s: System, acts: seq<Action>)
    decreases |acts|
  {
    acts == [] || (WellSized(s) && Enabled(s, acts[0]) && IsRun(Step(s, acts[0]), acts[1..]))
  }

  function Run(s: System, acts: seq<Action>): System
    requires IsRun(s, acts)
    decreases |acts|
  {
    if acts == [] then s else Run(Step(s, acts[0]), acts[1..])
  }

  lemma {:induction false} RunKeepsInv(s: System, acts: seq<Action>)
    requires Inv(s) && IsRun(s, acts)
    ensures Inv(Run(s, acts))
    decreases |acts|
  {
    if acts != [] {
      StepKeepsInv(s, acts[0]);
      RunKeepsInv(Step(s, acts[0]), acts[1..]);
    }
  }

  /**
   In every state two clients can reach from OFF: each direction of each option has at most two
   messages in flight, the next message meets no error branch, and when the channels are empty the
   two ends agree on every option, with no request left in a queue.
   */
  lemma Safety(aPrefs: seq<Prefs>, bPrefs: seq<Prefs>, acts: seq<Action>)
    requires |aPrefs| == |bPrefs| == NOPTIONS
    requires IsRun(Initial(aPrefs, bPrefs), acts)
    ensures var s := Run(Initial(aPrefs, bPrefs), acts);
            && WellSized(s)
            && (forall o :: 0 <= o < NOPTIONS ==>
                  && |Proj(s.ab, o, true)| + |Proj(s.ba, o, false)| <= 2
                  && |Proj(s.ab, o, false)| + |Proj(s.ba, o, true)| <= 2)
            && (forall toA :: Enabled(s, Deliver(toA)) ==> !MeetsError(s, toA))
            && (s.ab == [] && s.ba == [] ==>
                  forall o :: 0 <= o < NOPTIONS ==>
                    && s.a[o].us == s.b[o].him && s.a[o].us in {OFF, Side(YES, EMPTY)}
                    && s.a[o].him == s.b[o].us && s.a[o].him in {OFF, Side(YES, EMPTY)})
  {
    InitialInv(aPrefs, bPrefs);
    RunKeepsInv(Initial(aPrefs, bPrefs), acts);
    var s := Run(Initial(aPrefs, bPrefs), acts);
    hide Run, IsRun, Initial, Half, MeetsError;
    forall o | 0 <= o < NOPTIONS
      ensures |Proj(s.ab, o, true)| + |Proj(s.ba, o, false)| <= 2
      ensures |Proj(s.ab, o, false)| + |Proj(s.ba, o, true)| <= 2
    {
      assert ViewOk(ViewOf(s, o));
      HalfFacts(s.a[o].us, s.b[o].him, Proj(s.ab, o, true), Proj(s.ba, o, false));
      HalfFacts(s.a[o].him, s.b[o].us, Proj(s.ab, o, false), Proj(s.ba, o, true));
    }
    forall toA | Enabled(s, Deliver(toA))
      ensures !MeetsError(s, toA)
    {
      StepKeepsInv(s, Deliver(toA));
    }
    if s.ab == [] && s.ba == [] {
      forall o | 0 <= o < NOPTIONS
        ensures s.a[o].us == s.b[o].him && s.a[o].us in {OFF, Side(YES, EMPTY)}
        ensures s.a[o].him == s.b[o].us && s.a[o].him in {OFF, Side(YES, EMPTY)}
      {
        assert ViewOk(ViewOf(s, o));
        HalfFacts(s.a[o].us, s.b[o].him, [], []);
        HalfFacts(s.a[o].him, s.b[o].us, [], []);
      }
    }
  }

  lemma HalfFacts(l: Side, r: Side, lr: seq<bool>, rl: seq<bool>)
    requires Half(l, r, lr, rl)
    ensures |lr| + |rl| <= 2
    ensures lr == [] && rl == [] ==> l == r && l in {OFF, Side(YES, EMPTY)}
  {
  }

  // ------------------------------------------------------------------ loop freedom

  /** What a channel can still cost: a message to a settled side will be answered. */
  function Cost(to: St, ch: seq<bool>): nat {
    if ch == [] then 0
    else if |ch| > 1 then 3
    else if to == NO || to == YES then 2
    else 1
  }

  /** A queued request will be sent; the miswired branch can send it twice. */
  function QueueCost(s: Side, us: bool): nat {
    if s.q == EMPTY then 0 else if us && s.st == WANTYES then 4 else 2
  }

  function HalfRank(us: Side, him: Side, toHim: seq<bool>, toUs: seq<bool>): nat {
    Cost(him.st, toHim) + Cost(us.st, toUs) + QueueCost(us, true) + QueueCost(him, false)
  }

  function ViewRank(v: View): nat {
    HalfRank(v.x.us, v.y.him, v.offersOut, v.demandsIn) + HalfRank(v.y.us, v.x.him, v.offersIn, v.demandsOut)
  }

  function Rank(s: System, n: nat): nat
    requires WellSized(s) && n <= NOPTIONS
  {
    if n == 0 then 0 else Rank(s, n - 1) + ViewRank(ViewOf(s, n - 1))
  }

  lemma UsReceiveRank(us: Side, him: Side, toHim: seq<bool>, toUs: seq<bool>, preferred: bool)
    requires Half(us, him, toHim, toUs) && toUs != []
    ensures var act := if toUs[0] then ReceiveDo(us, preferred) else Receive(us, preferred, false);
            HalfRank(act.side, him, toHim + act.reply, toUs[1..]) < HalfRank(us, him, toHim, toUs)
  {
    var t := toUs[1..];
    assert toUs == [toUs[0]] + t;
    assert |toUs| <= 2;
    assert t == [] || t == [toUs[1]];
  }

  lemma HimReceiveRank(us: Side, him: Side, toHim: seq<bool>, toUs: seq<bool>, preferred: bool)
    requires Half(us, him, toHim, toUs) && toHim != []
    ensures var act := Receive(him, preferred, toHim[0]);
            HalfRank(us, act.side, toHim[1..], toUs + act.reply) < HalfRank(us, him, toHim, toUs)
  {
    var t := toHim[1..];
    assert toHim == [toHim[0]] + t;
    assert |toHim| <= 2;
    assert t == [] || t == [toHim[1]];
  }

  lemma SwapRank(s: System, n: nat)
    requires WellSized(s) && n <= NOPTIONS
    ensures Rank(s, n) == Rank(Swap(s), n)
  {
  }

  lemma ReactViewRank(v: View, p: Prefs, e: Event)
    requires ViewOk(v) && Pending(v, e) && e.Got?
    ensures ViewRank(ReactView(v, p, e)) < ViewRank(v)
  {
    hide Half, HalfRank, Receive, Request;
    HalfSymmetric(v.x.him, v.y.us, v.demandsOut, v.offersIn);
    match e.verb
    case WILL => HimReceiveRank(v.y.us, v.x.him, v.offersIn, v.demandsOut, p.him);
    case WONT => HimReceiveRank(v.y.us, v.x.him, v.offersIn, v.demandsOut, p.him);
    case DONT => UsReceiveRank(v.x.us, v.y.him, v.offersOut, v.demandsIn, p.us);
    case DO =>
      UsReceiveRank(v.x.us, v.y.him, v.offersOut, v.demandsIn, p.us);
      ForgettingRank(v.y.us, v.x.him, v.offersIn, v.demandsOut);
  }

  lemma ForgettingRank(us: Side, him: Side, toHim: seq<bool>, toUs: seq<bool>)
    ensures HalfRank(us, him.(q := EMPTY), toHim, toUs) <= HalfRank(us, him, toHim, toUs)
  {
  }

  lemma DeliverAOption(s: System, o: nat)
    requires Inv(s) && Enabled(s, Deliver(true)) && o < NOPTIONS
    ensures var t := StepA(s, Deliver(true));
            && WellSized(t)
            && if o == s.ba[0].option then ViewRank(ViewOf(t, o)) < ViewRank(ViewOf(s, o)) else ViewOf(t, o) == ViewOf(s, o)
  {
    hide ViewOk, ReactView, StepA, ViewOf, ViewRank;
    StepAView(s, Deliver(true), o);
    var (option, e) := Input(s, Deliver(true));
    if o == option {
      ReactViewRank(ViewOf(s, o), s.aPrefs[o], e);
    }
  }

  lemma {:induction false} DeliverARank(s: System, n: nat)
    requires Inv(s) && Enabled(s, Deliver(true)) && n <= NOPTIONS
    ensures WellSized(StepA(s, Deliver(true)))
    ensures var t := StepA(s, Deliver(true));
            if s.ba[0].option < n then Rank(t, n) < Rank(s, n) else Rank(t, n) == Rank(s, n)
  {
    hide ViewRank, ViewOf, ViewOk, StepA;
    if n == 0 {
      StepAKeepsOption(s, Deliver(true), 0);
    } else {
      DeliverARank(s, n - 1);
      DeliverAOption(s, n - 1);
    }
  }

  lemma DeliverRank(s: System, toA: bool)
    requires Inv(s) && Enabled(s, Deliver(toA))
    ensures Inv(Step(s, Deliver(toA))) && Rank(Step(s, Deliver(toA)), NOPTIONS) < Rank(s, NOPTIONS)
  {
    StepKeepsInv(s, Deliver(toA));
    if toA {
      assert s.ba[0] in s.ba;
      DeliverARank(s, NOPTIONS);
    } else {
      var s' := Swap(s);
      SwapInv(s);
      assert s'.ba[0] in s'.ba;
      DeliverARank(s', NOPTIONS);
      SwapRank(s, NOPTIONS);
      SwapRank(StepA(s', Deliver(true)), NOPTIONS);
    }
  }

  lemma HalfRankBounded(us: Side, him: Side, toHim: seq<bool>, toUs: seq<bool>)
    requires Half(us, him, toHim, toUs)
    ensures HalfRank(us, him, toHim, toUs) <= 9
  {
  }

  lemma {:induction false} RankBounded(s: System, n: nat)
    requires Inv(s) && n <= NOPTIONS
    ensures Rank(s, n) <= 18 * n
  {
    if n > 0 {
      RankBounded(s, n - 1);
      hide Half, HalfRank, Proj;
      assert ViewOk(ViewOf(s, n - 1));
      var v := ViewOf(s, n - 1);
      HalfRankBounded(v.x.us, v.y.him, v.offersOut, v.demandsIn);
      HalfSymmetric(v.x.him, v.y.us, v.demandsOut, v.offersIn);
      HalfRankBounded(v.y.us, v.x.him, v.offersIn, v.demandsOut);
    }
  }

  /** With no further requests, no run of deliveries is longer than the rank of the state it starts in. */
  lemma {:induction false} LoopFree(s: System, acts: seq<Action>)
    requires Inv(s) && IsRun(s, acts)
    requires forall act :: act in acts ==> act.Deliver?
    ensures |acts| <= Rank(s, NOPTIONS) <= 18 * NOPTIONS
    decreases |acts|
  {
    RankBounded(s, NOPTIONS);
    if acts != [] {
      assert acts[0] in acts;
      DeliverRank(s, acts[0].toA);
      LoopFree(Step(s, acts[0]), acts[1..]);
    }
  }

  // ------------------------------------------------------------------ last disable wins, between two ends

  /** A request for our side of the option, or for theirs. */
  function Asks(local: bool, on: bool): Event {
    if local then Local(on) else Remote(on)
  }

  /** The side such a request is about, as A keeps it. */
  function Mine(o: OptState, local: bool): Side {
    if local then o.us else o.him
  }

  /** The same side, as B keeps it. */
  function Theirs(o: OptState, local: bool): Side {
    if local then o.him else o.us
  }

  function Preferred(p: Prefs, local: bool): bool {
    if local then p.us else p.him
  }

  /** No request of A about that side of the option. */
  predicate NoRequest(acts: seq<Action>, o: nat, local: bool) {
    forall act :: act in acts && act.Ask? && act.atA && act.option == o ==> if local then !act.event.Local? else !act.event.Remote?
  }

  lemma {:induction false} DisabledThroughout(s: System, acts: seq<Action>, o: nat, local: bool)
    requires Inv(s) && IsRun(s, acts) && o < NOPTIONS && !Preferred(s.aPrefs[o], local)
    requires NoRequest(acts, o, local) && Disabled(Mine(s.a[o], local))
    ensures Inv(Run(s, acts)) && Disabled(Mine(Run(s, acts).a[o], local))
    decreases |acts|
  {
    if acts != [] {
      var act := acts[0];
      assert act in acts;
      StepKeepsInv(s, act);
      if act.Deliver? && act.toA {
        DisabledKept(s.a[s.ba[0].option], s.aPrefs[s.ba[0].option], Got(s.ba[0].verb));
      } else if act.Ask? && act.atA {
        DisabledKept(s.a[act.option], s.aPrefs[act.option], act.event);
      }
      DisabledThroughout(Step(s, act), acts[1..], o, local);
    }
  }

  /**
   A disable of either side made outside WANTYES as the last request keeps the option off there, at both ends
   once the line is quiet.
   */
  lemma LastDisableHolds(s: System, acts: seq<Action>, o: nat, local: bool)
    requires Inv(s) && o < NOPTIONS && !Preferred(s.aPrefs[o], local) && Mine(s.a[o], local).st != WANTYES
    requires IsRun(s, [Ask(true, o, Asks(local, false))] + acts) && NoRequest(acts, o, local)
    ensures var t := Run(s, [Ask(true, o, Asks(local, false))] + acts);
            && Inv(t)
            && Mine(t.a[o], local).st != YES
            && (t.ab == [] && t.ba == [] ==> Mine(t.a[o], local) == Theirs(t.b[o], local) == OFF)
  {
    var first := Ask(true, o, Asks(local, false));
    assert ([first] + acts)[1..] == acts;
    StepKeepsInv(s, first);
    DisableDisables(s.a[o], s.aPrefs[o], local);
    hide Half, Proj, React;
    assert ViewOk(ViewOf(s, o));
    HalfSettled(s.a[o].us, s.b[o].him, Proj(s.ab, o, true), Proj(s.ba, o, false));
    HalfSettled(s.a[o].him, s.b[o].us, Proj(s.ab, o, false), Proj(s.ba, o, true));
    StepAsksA(s, o, local);
    DisabledThroughout(Step(s, first), acts, o, local);
    var t := Run(s, [first] + acts);
    assert t == Run(Step(s, first), acts);
    hide Run;
    if t.ab == [] && t.ba == [] {
      assert ViewOk(ViewOf(t, o));
      ProjEmpty(o, true);
      ProjEmpty(o, false);
      HalfFacts(t.a[o].us, t.b[o].him, [], []);
      HalfFacts(t.a[o].him, t.b[o].us, [], []);
    }
  }

  lemma ProjEmpty(o: nat, offers: bool)
    ensures Proj([], o, offers) == []
  {
  }

  lemma HalfSettled(l: Side, r: Side, lr: seq<bool>, rl: seq<bool>)
    requires Half(l, r, lr, rl)
    ensures Settled(l) && Settled(r)
  {
  }

  lemma DisableDisables(o: OptState, p: Prefs, local: bool)
    requires Mine(o, local).st != WANTYES
    ensures Settled(Mine(o, local)) ==> Disabled(Mine(React(o, p, Asks(local, false)), local))
  {
  }

  lemma StepAsksA(s: System, o: nat, local: bool)
    requires WellSized(s) && o < NOPTIONS
    ensures var t := Step(s, Ask(true, o, Asks(local, false)));
            |t.a| == NOPTIONS && t.a[o] == React(s.a[o], s.aPrefs[o], Asks(local, false)) && t.aPrefs == s.aPrefs
  {
  }

  // ------------------------------------------------------------------ and disables that lose

  /** One option between two ends: A's record of it, B's, and the verbs under way. */
  datatype Duo = Duo(x: OptState, y: OptState, ab: seq<Verb>, ba: seq<Verb>)

  predicate Playable(d: Duo, act: Action) {
    match act
    case Ask(atA, _, e) => atA && !e.Got?
    case Deliver(toA) => if toA then d.ba != [] else d.ab != []
  }

  function Play(d: Duo, p: Prefs, q: Prefs, act: Action): Duo
    requires Playable(d, act)
  {
    match act
    case Ask(_, _, e) => d.(x := React(d.x, p, e), ab := d.ab + Answer(d.x, p, e))
    case Deliver(toA) =>
      if toA then
        var e := Got(d.ba[0]);
        d.(x := React(d.x, p, e), ba := d.ba[1..], ab := d.ab + Answer(d.x, p, e))
      else
        var e := Got(d.ab[0]);
        d.(y := React(d.y, q, e), ab := d.ab[1..], ba := d.ba + Answer(d.y, q, e))
  }

  /** Every step can be played, and this is where they lead. */
  predicate Leads(d: Duo, p: Prefs, q: Prefs, acts: seq<Action>, end: Duo)
    decreases |acts|
  {
    if acts == [] then d == end else Playable(d, acts[0]) && Leads(Play(d, p, q, acts[0]), p, q, acts[1..], end)
  }

  function TaggedAll(vs: seq<Verb>, o: nat): seq<Msg> {
    seq(|vs|, i requires 0 <= i < |vs| => Msg(vs[i], o))
  }

  /** The system in which the option stands like that, and nothing else is under way. */
  function Stage(s: System, o: nat, d: Duo): System
    requires WellSized(s) && o < NOPTIONS
  {
    s.(a := s.a[o := d.x], b := s.b[o := d.y], ab := TaggedAll(d.ab, o), ba := TaggedAll(d.ba, o))
  }

  lemma TaggedOn(vs: seq<Verb>, ws: seq<Verb>, o: nat)
    requires |ws| <= 1
    ensures TaggedAll(vs, o) + Tagged(ws, o) == TaggedAll(vs + ws, o)
    ensures vs != [] ==> TaggedAll(vs, o)[0] == Msg(vs[0], o) && TaggedAll(vs, o)[1..] == TaggedAll(vs[1..], o)
  {
  }

  lemma StageSteps(s: System, o: nat, d: Duo, act: Action)
    requires WellSized(s) && o < NOPTIONS && Playable(d, act) && (act.Ask? ==> act.option == o)
    ensures WellSized(Stage(s, o, d)) && Enabled(Stage(s, o, d), act)
    ensures Step(Stage(s, o, d), act) == Stage(s, o, Play(d, s.aPrefs[o], s.bPrefs[o], act))
  {
    hide React, Answer;
    var p, q := s.aPrefs[o], s.bPrefs[o];
    match act
    case Ask(_, _, e) => TaggedOn(d.ab, Answer(d.x, p, e), o);
    case Deliver(toA) =>
      if toA {
        TaggedOn(d.ba, [], o);
        TaggedOn(d.ab, Answer(d.x, p, Got(d.ba[0])), o);
      } else {
        TaggedOn(d.ab, [], o);
        TaggedOn(d.ba, Answer(d.y, q, Got(d.ab[0])), o);
      }
  }

  /** What the two ends play with one option is a run of the system. */
  lemma {:induction false} StageRuns(s: System, o: nat, d: Duo, acts: seq<Action>, end: Duo)
    requires WellSized(s) && o < NOPTIONS && Leads(d, s.aPrefs[o], s.bPrefs[o], acts, end)
    requires forall act :: act in acts ==> act.Ask? ==> act.option == o
    ensures IsRun(Stage(s, o, d), acts) && Run(Stage(s, o, d), acts) == Stage(s, o, end)
    decreases |acts|
  {
    hide Stage, Step, Play;
    if acts != [] {
      assert acts[0] in acts;
      StageSteps(s, o, d, acts[0]);
      StageRuns(s, o, Play(d, s.aPrefs[o], s.bPrefs[o], acts[0]), acts[1..], end);
    }
  }

  const BOTH_OFF := OptState(OFF, OFF)
  const ON := Side(YES, EMPTY)

  lemma Led(d: Duo, p: Prefs, q: Prefs, act: Action, rest: seq<Action>, next: Duo, end: Duo)
    requires Playable(d, act) && Play(d, p, q, act) == next && Leads(next, p, q, rest, end)
    ensures Leads(d, p, q, [act] + rest, end)
  {
    assert ([act] + rest)[1..] == rest;
  }

  /** From WILL and a change of mind to YES at both ends. */
  lemma LosingLocally(p: Prefs, q: Prefs) returns (acts: seq<Action>)
    requires q.him
    ensures forall act :: act in acts ==> act.Deliver?
    ensures Leads(Duo(OptState(Side(WANTYES, OPPOSITE), OFF), BOTH_OFF, [WILL], []), p, q, acts,
                  Duo(OptState(ON, OFF), OptState(OFF, ON), [], []))
  {
    hide Leads;
    acts := [];
    var end := Duo(OptState(ON, OFF), OptState(OFF, ON), [], []);
    LeadsNowhere(end, p, q);
    acts := LedBy(Duo(OptState(Side(WANTYES, EMPTY), OFF), OptState(OFF, ON), [], [DO]), p, q, true, acts, end, end);
    acts := LedBy(Duo(OptState(Side(WANTYES, EMPTY), OFF), BOTH_OFF, [WILL], []), p, q, false, acts,
                  Duo(OptState(Side(WANTYES, EMPTY), OFF), OptState(OFF, ON), [], [DO]), end);
    acts := LedBy(Duo(OptState(Side(WANTNO, OPPOSITE), OFF), BOTH_OFF, [], [DONT]), p, q, true, acts,
                  Duo(OptState(Side(WANTYES, EMPTY), OFF), BOTH_OFF, [WILL], []), end);
    acts := LedBy(Duo(OptState(Side(WANTNO, OPPOSITE), OFF), OptState(OFF, ON), [WONT], []), p, q, false, acts,
                  Duo(OptState(Side(WANTNO, OPPOSITE), OFF), BOTH_OFF, [], [DONT]), end);
    acts := LedBy(Duo(OptState(Side(WANTYES, OPPOSITE), OFF), OptState(OFF, ON), [], [DO]), p, q, true, acts,
                  Duo(OptState(Side(WANTNO, OPPOSITE), OFF), OptState(OFF, ON), [WONT], []), end);
    acts := LedBy(Duo(OptState(Side(WANTYES, OPPOSITE), OFF), BOTH_OFF, [WILL], []), p, q, false, acts,
                  Duo(OptState(Side(WANTYES, OPPOSITE), OFF), OptState(OFF, ON), [], [DO]), end);
  }

  lemma LeadsNowhere(d: Duo, p: Prefs, q: Prefs)
    ensures Leads(d, p, q, [], d)
  {
  }

  /** One delivery in front of a run of deliveries. */
  lemma LedBy(d: Duo, p: Prefs, q: Prefs, toA: bool, rest: seq<Action>, next: Duo, end: Duo) returns (acts: seq<Action>)
    requires Playable(d, Deliver(toA)) && Play(d, p, q, Deliver(toA)) == next && Leads(next, p, q, rest, end)
    requires forall act :: act in rest ==> act.Deliver?
    ensures Leads(d, p, q, acts, end) && forall act :: act in acts ==> act.Deliver?
  {
    acts := [Deliver(toA)] + rest;
    Led(d, p, q, Deliver(toA), rest, next, end);
  }

  /** From WILL and DO and two changes of mind to YES everywhere. */
  lemma LosingRemotely(p: Prefs, q: Prefs) returns (acts: seq<Action>)
    requires q.him && q.us
    ensures forall act :: act in acts ==> act.Deliver?
    ensures Leads(Duo(OptState(Side(WANTYES, OPPOSITE), Side(WANTYES, OPPOSITE)), BOTH_OFF, [WILL, DO], []), p, q, acts,
                  Duo(OptState(ON, ON), OptState(ON, ON), [], []))
  {
    hide Leads;
    acts := [];
    var end := Duo(OptState(ON, ON), OptState(ON, ON), [], []);
    var both := OptState(Side(WANTYES, OPPOSITE), Side(WANTYES, OPPOSITE));
    var d1 := Duo(both, BOTH_OFF, [WILL, DO], []);
    var d2 := Duo(both, OptState(OFF, ON), [DO], [DO]);
    var d3 := Duo(both, OptState(ON, ON), [], [DO, WILL]);
    var d4 := Duo(OptState(Side(WANTNO, OPPOSITE), Side(WANTYES, EMPTY)), OptState(ON, ON), [WONT], [WILL]);
    var d5 := Duo(OptState(Side(WANTNO, OPPOSITE), ON), OptState(ON, ON), [WONT], []);
    var d6 := Duo(OptState(Side(WANTNO, OPPOSITE), ON), OptState(ON, OFF), [], [DONT]);
    var d7 := Duo(OptState(Side(WANTYES, EMPTY), ON), OptState(ON, OFF), [WILL], []);
    var d8 := Duo(OptState(Side(WANTYES, EMPTY), ON), OptState(ON, ON), [], [DO]);
    LeadsNowhere(end, p, q);
    acts := LedBy(d8, p, q, true, acts, end, end);
    acts := LedBy(d7, p, q, false, acts, d8, end);
    acts := LedBy(d6, p, q, true, acts, d7, end);
    acts := LedBy(d5, p, q, false, acts, d6, end);
    acts := LedBy(d4, p, q, true, acts, d5, end);
    acts := LedBy(d3, p, q, true, acts, d4, end);
    acts := LedBy(d2, p, q, false, acts, d3, end);
    acts := LedBy(d1, p, q, false, acts, d2, end);
  }

  lemma InitialStage(aPrefs: seq<Prefs>, bPrefs: seq<Prefs>, o: nat)
    requires |aPrefs| == |bPrefs| == NOPTIONS && o < NOPTIONS
    ensures WellSized(Initial(aPrefs, bPrefs))
    ensures Stage(Initial(aPrefs, bPrefs), o, Duo(BOTH_OFF, BOTH_OFF, [], [])) == Initial(aPrefs, bPrefs)
  {
  }

  /**
   Made while the enable is still being negotiated, a disable can lose: with a peer that prefers the
   option, this run ends with a quiet line and the option on at both ends, although the only requests
   were an enable followed by a disable.
   */
  lemma LastDisableCanLose(aPrefs: seq<Prefs>, bPrefs: seq<Prefs>, o: nat) returns (acts: seq<Action>)
    requires |aPrefs| == |bPrefs| == NOPTIONS && o < NOPTIONS && bPrefs[o].him
    ensures IsRun(Initial(aPrefs, bPrefs), [Ask(true, o, Local(true)), Ask(true, o, Local(false))] + acts)
    ensures forall act :: act in acts ==> act.Deliver?
    ensures var t := Run(Initial(aPrefs, bPrefs), [Ask(true, o, Local(true)), Ask(true, o, Local(false))] + acts);
            && |t.a| == |t.b| == NOPTIONS
            && t.ab == [] && t.ba == []
            && t.a[o].us == t.b[o].him == ON
  {
    var s := Initial(aPrefs, bPrefs);
    var p, q := aPrefs[o], bPrefs[o];
    var end := Duo(OptState(ON, OFF), OptState(OFF, ON), [], []);
    acts := LosingLocally(p, q);
    var start := Duo(BOTH_OFF, BOTH_OFF, [], []);
    var d1 := Duo(OptState(Side(WANTYES, EMPTY), OFF), BOTH_OFF, [WILL], []);
    var d2 := Duo(OptState(Side(WANTYES, OPPOSITE), OFF), BOTH_OFF, [WILL], []);
    Led(d1, p, q, Ask(true, o, Local(false)), acts, d2, end);
    Led(start, p, q, Ask(true, o, Local(true)), [Ask(true, o, Local(false))] + acts, d1, end);
    var whole := [Ask(true, o, Local(true)), Ask(true, o, Local(false))] + acts;
    assert whole == [Ask(true, o, Local(true))] + ([Ask(true, o, Local(false))] + acts);
    hide Run, IsRun, Leads, Initial;
    InitialStage(aPrefs, bPrefs, o);
    StageRuns(s, o, start, whole, end);
  }

  /** The four requests after which a remote disable loses as well. */
  function Wavering(o: nat): seq<Action> {
    [Ask(true, o, Local(true)), Ask(true, o, Remote(true)), Ask(true, o, Remote(false)), Ask(true, o, Local(false))]
  }

  /**
   A remote disable can lose in the same way: the DO that meets the miswired line empties the queue that held it,
   and the last word on both sides was no, yet both are on at both ends.
   */
  lemma LastRemoteDisableCanLose(aPrefs: seq<Prefs>, bPrefs: seq<Prefs>, o: nat) returns (acts: seq<Action>)
    requires |aPrefs| == |bPrefs| == NOPTIONS && o < NOPTIONS && bPrefs[o].him && bPrefs[o].us
    ensures IsRun(Initial(aPrefs, bPrefs), Wavering(o) + acts)
    ensures forall act :: act in acts ==> act.Deliver?
    ensures var t := Run(Initial(aPrefs, bPrefs), Wavering(o) + acts);
            && |t.a| == |t.b| == NOPTIONS
            && t.ab == [] && t.ba == []
            && t.a[o].him == t.b[o].us == ON
            && t.a[o].us == t.b[o].him == ON
  {
    var s := Initial(aPrefs, bPrefs);
    var p, q := aPrefs[o], bPrefs[o];
    var end := Duo(OptState(ON, ON), OptState(ON, ON), [], []);
    acts := LosingRemotely(p, q);
    var wants := Side(WANTYES, EMPTY);
    var start := Duo(BOTH_OFF, BOTH_OFF, [], []);
    var d1 := Duo(OptState(wants, OFF), BOTH_OFF, [WILL], []);
    var d2 := Duo(OptState(wants, wants), BOTH_OFF, [WILL, DO], []);
    var d3 := Duo(OptState(wants, Side(WANTYES, OPPOSITE)), BOTH_OFF, [WILL, DO], []);
    hide Leads;
    var w := Wavering(o);
    var acts3 := [w[3]] + acts;
    var acts2 := [w[2]] + acts3;
    var acts1 := [w[1]] + acts2;
    var d4 := Duo(OptState(Side(WANTYES, OPPOSITE), Side(WANTYES, OPPOSITE)), BOTH_OFF, [WILL, DO], []);
    Led(d3, p, q, w[3], acts, d4, end);
    Led(d2, p, q, w[2], acts3, d3, end);
    Led(d1, p, q, w[1], acts2, d2, end);
    Led(start, p, q, w[0], acts1, d1, end);
    assert w + acts == [w[0]] + acts1;
    hide Run, IsRun, Initial;
    InitialStage(aPrefs, bPrefs, o);
    StageRuns(s, o, start, w + acts, end);
  }

  // ------------------------------------------------------------------ what a request achieves

  /** WILL and WONT are about our side, DO and DONT about theirs. */
  function AskingVerb(local: bool, on: bool): Verb {
    if local then (if on then WILL else WONT) else if on then DO else DONT
  }

  function WithMine(o: OptState, local: bool, side: Side): OptState {
    if local then o.(us := side) else o.(him := side)
  }

  /** Does the peer prefer the side that such a request is about? */
  function PeerPrefers(p: Prefs, local: bool): bool {
    if local then p.him else p.us
  }

  function Outcome(x: OptState, q: Prefs, local: bool, on: bool): Side {
    if on && (Mine(x, local) == ON || PeerPrefers(q, local)) then ON else OFF
  }

  lemma AskPlays(x: OptState, y: OptState, p: Prefs, q: Prefs, o: nat, local: bool, on: bool)
    requires Mine(x, local) == if on then OFF else ON
    ensures Play(Duo(x, y, [], []), p, q, Ask(true, o, Asks(local, on)))
         == Duo(WithMine(x, local, Side(if on then WANTYES else WANTNO, EMPTY)), y, [AskingVerb(local, on)], [])
  {
  }

  lemma PeerPlays(x: OptState, y: OptState, p: Prefs, q: Prefs, local: bool, on: bool)
    requires Theirs(y, local) == if on then OFF else ON
    ensures var side := if on && PeerPrefers(q, local) then ON else OFF;
            Play(Duo(x, y, [AskingVerb(local, on)], []), p, q, Deliver(false))
            == Duo(x, WithMine(y, !local, side), [], [AskingVerb(!local, side == ON)])
  {
  }

  lemma AnswerPlays(x: OptState, y: OptState, p: Prefs, q: Prefs, local: bool, on: bool, side: Side)
    requires Mine(x, local) == Side(if on then WANTYES else WANTNO, EMPTY)
    requires side == OFF || (side == ON && on)
    ensures Play(Duo(x, y, [], [AskingVerb(!local, side == ON)]), p, q, Deliver(true))
         == Duo(WithMine(x, local, side), y, [], [])
  {
  }

  lemma RequestPlays(x: OptState, y: OptState, p: Prefs, q: Prefs, o: nat, local: bool, on: bool) returns (acts: seq<Action>)
    requires Mine(x, local) == Theirs(y, local) && Mine(x, local) in {OFF, ON} && Theirs(x, local) in {OFF, ON}
    requires Mine(y, local) in {OFF, ON}
    ensures forall act :: act in acts ==> act.Deliver?
    ensures var side := Outcome(x, q, local, on);
            Leads(Duo(x, y, [], []), p, q, [Ask(true, o, Asks(local, on))] + acts,
                  Duo(WithMine(x, local, side), WithMine(y, !local, side), [], []))
  {
    hide Leads;
    var side := Outcome(x, q, local, on);
    var end := Duo(WithMine(x, local, side), WithMine(y, !local, side), [], []);
    acts := [];
    LeadsNowhere(end, p, q);
    var d0 := Duo(x, y, [], []);
    if (Mine(x, local) == ON) == on {
      Led(d0, p, q, Ask(true, o, Asks(local, on)), [], end, end);
    } else {
      var waiting := WithMine(x, local, Side(if on then WANTYES else WANTNO, EMPTY));
      var d1 := Duo(waiting, y, [AskingVerb(local, on)], []);
      var d2 := Duo(waiting, end.y, [], [AskingVerb(!local, side == ON)]);
      AskPlays(x, y, p, q, o, local, on);
      PeerPlays(waiting, y, p, q, local, on);
      AnswerPlays(waiting, end.y, p, q, local, on, side);
      hide Play, Mine, Theirs, WithMine;
      acts := LedBy(d2, p, q, true, acts, end, end);
      acts := LedBy(d1, p, q, false, acts, d2, end);
      Led(d0, p, q, Ask(true, o, Asks(local, on)), acts, d1, end);
    }
  }

  /**
   A request made on a quiet line sends one message, with the verb for it, or none if the option is that way
   already; it is then settled by deliveries: a disable always turns the side off at both ends, an enable turns it
   on at both exactly if it was on or the peer prefers it, and nothing else changes.
   */
  lemma RequestSettles(s: System, o: nat, local: bool, on: bool) returns (acts: seq<Action>)
    requires Inv(s) && s.ab == [] && s.ba == [] && o < NOPTIONS
    ensures forall act :: act in acts ==> act.Deliver?
    ensures Step(s, Ask(true, o, Asks(local, on))).ab
         == if (Mine(s.a[o], local).st == YES) == on then [] else [Msg(AskingVerb(local, on), o)]
    ensures IsRun(s, [Ask(true, o, Asks(local, on))] + acts)
    ensures var side := if on && (Mine(s.a[o], local).st == YES || PeerPrefers(s.bPrefs[o], local)) then ON else OFF;
            Run(s, [Ask(true, o, Asks(local, on))] + acts)
            == s.(a := s.a[o := WithMine(s.a[o], local, side)], b := s.b[o := WithMine(s.b[o], !local, side)])
  {
    assert ViewOk(ViewOf(s, o));
    HalfFacts(s.a[o].us, s.b[o].him, [], []);
    HalfFacts(s.a[o].him, s.b[o].us, [], []);
    var d := Duo(s.a[o], s.b[o], [], []);
    RequestSends(s, o, local, on);
    hide React, Answer, Step, Run, IsRun, Inv;
    acts := RequestPlays(s.a[o], s.b[o], s.aPrefs[o], s.bPrefs[o], o, local, on);
    hide Leads;
    QuietStage(s, o);
    StageRuns(s, o, d, [Ask(true, o, Asks(local, on))] + acts,
              Duo(WithMine(s.a[o], local, Outcome(s.a[o], s.bPrefs[o], local, on)),
                  WithMine(s.b[o], !local, Outcome(s.a[o], s.bPrefs[o], local, on)), [], []));
  }

  lemma QuietStage(s: System, o: nat)
    requires WellSized(s) && s.ab == [] && s.ba == [] && o < NOPTIONS
    ensures Stage(s, o, Duo(s.a[o], s.b[o], [], [])) == s
    ensures forall x, y :: Stage(s, o, Duo(x, y, [], [])) == s.(a := s.a[o := x], b := s.b[o := y])
  {
  }

  lemma RequestSends(s: System, o: nat, local: bool, on: bool)
    requires WellSized(s) && s.ab == [] && o < NOPTIONS && Mine(s.a[o], local) in {OFF, ON}
    ensures Step(s, Ask(true, o, Asks(local, on))).ab
         == if (Mine(s.a[o], local).st == YES) == on then [] else [Msg(AskingVerb(local, on), o)]
  {
  }
}
