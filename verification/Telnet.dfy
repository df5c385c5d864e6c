/**
 TelnetClient of src/telnet.cpp: the negotiation tables are arrays indexed by option, the sub-option
 buffer is filled in place, and every method is tied to the function that specifies it.
 */
module Telnet {
  import opened Bytes
  import opened QMethod
  import opened TelnetSystem
  import opened Telrcv
  import opened Seqs
  import opened Words

  const NTELOPTS: nat := 40

  /** What telrcv does to startwrite for a byte: begin or extend a data range, close it, or nothing. */
  datatype Mark = Extend | Close | Leave

  function MarkOf(state: RcvState, c: byte): Mark {
    match state
    case TsCr => if c == NUL then Close else Extend
    case TsData => if c == IAC then Close else Extend
    case TsIac => if c == IAC then Extend else Leave
    case _ => Leave
  }

  /** Only in these states can a data range be open. */
  predicate MayBeOpen(state: RcvState) {
    state == TsData || state == TsCr
  }

  lemma MarkIsData(p: Parser, c: byte)
    requires Telrcv.Valid(p)
    ensures FeedByte(p, c).data == p.data + if MarkOf(p.state, c) == Extend then [c] else []
    ensures MarkOf(p.state, c) == Leave && MayBeOpen(p.state) ==> false
    ensures MarkOf(p.state, c) == Close || (MarkOf(p.state, c) == Leave && !MayBeOpen(p.state)) || MayBeOpen(FeedByte(p, c).state)
  {
    hide Negotiating, Terminate, Accum;
    EmptyUnit(p.data);
  }

  /** Has the peer negotiated at all? */
  predicate Negotiates(calls: seq<Call>) {
    exists c :: c in calls && c.Negotiated?
  }

  lemma NegotiatesSnoc(calls: seq<Call>, c: Call)
    ensures Negotiates(calls + [c]) <==> Negotiates(calls) || c.Negotiated?
  {
    if Negotiates(calls) {
      var d :| d in calls && d.Negotiated?;
      assert d in calls + [c];
    }
    if c.Negotiated? {
      assert c in calls + [c];
    }
  }

  class TelnetClient {
    const us: array<St>
    const usq: array<Queue>
    const usPreferred: array<bool>
    const him: array<St>
    const himq: array<Queue>
    const himPreferred: array<bool>
    const subbuffer: array<byte>
    var subpointer: nat
    var subend: nat
    var state: RcvState
    var pleaseNegotiate: bool
    var alreadyNegotiated: bool
    var wire: seq<byte>
    ghost var sent: seq<Msg>
    ghost var calls: seq<Call>
    ghost var data: seq<byte>

    ghost predicate Shaped() {
      && us.Length == usq.Length == usPreferred.Length == NOPTIONS
      && him.Length == himq.Length == himPreferred.Length == NOPTIONS
      && us != him && usq != himq && usPreferred != himPreferred
      && subbuffer.Length == SUBBUFSIZE
    }

    /** The octets on the wire are those of the messages sent, and please_negotiate knows of any that came. */
    ghost predicate Valid()
      reads this`subpointer, this`subend, this`sent, this`wire, this`calls, this`pleaseNegotiate
    {
      && Shaped() && subpointer <= SUBBUFSIZE && subend <= SUBBUFSIZE
      && wire == EncodeMsgs(sent) && (pleaseNegotiate <==> Negotiates(calls))
    }

    ghost function Opts(): (r: seq<OptState>)
      requires Shaped()
      reads us, usq, him, himq
      ensures |r| == NOPTIONS
    {
      seq(NOPTIONS, i requires 0 <= i < NOPTIONS && Shaped() reads us, usq, him, himq =>
        OptState(Side(us[i], usq[i]), Side(him[i], himq[i])))
    }

    ghost function Preferences(): (r: seq<Prefs>)
      requires Shaped()
      reads usPreferred, himPreferred
      ensures |r| == NOPTIONS
    {
      seq(NOPTIONS, i requires 0 <= i < NOPTIONS && Shaped() reads usPreferred, himPreferred =>
        Prefs(usPreferred[i], himPreferred[i]))
    }

    ghost function Snapshot(): (p: Parser)
      requires Valid()
      reads this, us, usq, him, himq, usPreferred, himPreferred, subbuffer
      ensures Telrcv.Valid(p) && p.state == state && p.data == data
    {
      Parser(state, subbuffer[..], subpointer, subend, Opts(), Preferences(), sent, calls, data)
    }

    constructor (sgaPreferred: bool)
      ensures Valid() && fresh(us) && fresh(usq) && fresh(him) && fresh(himq) && fresh(subbuffer)
      ensures fresh(usPreferred) && fresh(himPreferred)
      ensures state == TsData && sent == [] && calls == [] && data == [] && !alreadyNegotiated
      ensures Opts() == seq(NOPTIONS, _ => OptState(OFF, OFF))
      ensures Preferences() == seq(NOPTIONS, i => Prefs(sgaPreferred && i == 3, false))
    {
      us := new St[NOPTIONS](_ => NO);
      usq := new Queue[NOPTIONS](_ => EMPTY);
      him := new St[NOPTIONS](_ => NO);
      himq := new Queue[NOPTIONS](_ => EMPTY);
      usPreferred := new bool[NOPTIONS](i => sgaPreferred && i == 3);
      himPreferred := new bool[NOPTIONS](_ => false);
      subbuffer := new byte[SUBBUFSIZE](_ => 0);
      subpointer, subend, state, pleaseNegotiate, alreadyNegotiated := 0, 0, TsData, false, false;
      wire, sent, calls, data := [], [], [], [];
    }

    /** send_negotiation: three octets go out. */
    method SendNegotiation(verb: Verb, option: nat)
      requires Valid() && option < NOPTIONS
      modifies this`sent, this`wire
      ensures Valid() && sent == old(sent) + [Msg(verb, option)]
      ensures wire == old(wire) + [IAC, VerbByte(verb), ToByte(option)]
    {
      EncodeMsgsAppend(sent, [Msg(verb, option)]);
      EncodeOne(Msg(verb, option));
      wire := wire + [IAC, VerbByte(verb), ToByte(option)];
      sent := sent + [Msg(verb, option)];
    }

    /** What every handler of an event does: one table entry and at most one message. */
    twostate predicate Handled(option: nat, e: Event)
      requires Shaped() && option < NOPTIONS
      reads this`sent, us, usq, him, himq
    {
      && Opts() == old(Opts())[option := React(old(Opts())[option], old(Preferences())[option], e)]
      && sent == old(sent) + Tagged(Answer(old(Opts())[option], old(Preferences())[option], e), option)
    }

    method SetLocalOption(option: nat, on: bool)
      requires Valid() && option < NOPTIONS
      modifies us, usq, this`sent, this`wire
      ensures Valid() && Handled(option, Local(on))
    {
      if on {
        match us[option]
        case NO =>
          us[option] := WANTYES;
          SendNegotiation(WILL, option);
        case YES =>
        case WANTNO =>
          match usq[option] {
            case EMPTY => usq[option] := OPPOSITE;
            case OPPOSITE =>
          }
        case WANTYES =>
          match usq[option] {
            case EMPTY =>
            case OPPOSITE => usq[option] := EMPTY;
          }
      } else {
        match us[option]
        case NO =>
        case YES =>
          us[option] := WANTNO;
          SendNegotiation(WONT, option);
        case WANTNO =>
          match usq[option] {
            case EMPTY =>
            case OPPOSITE => usq[option] := EMPTY;
          }
        case WANTYES =>
          match usq[option] {
            case EMPTY => usq[option] := OPPOSITE;
            case OPPOSITE =>
          }
      }
    }

    method SetRemoteOption(option: nat, on: bool)
      requires Valid() && option < NOPTIONS
      modifies him, himq, this`sent, this`wire
      ensures Valid() && Handled(option, Remote(on))
    {
      if on {
        match him[option]
        case NO =>
          him[option] := WANTYES;
          SendNegotiation(DO, option);
        case YES =>
        case WANTNO =>
          match himq[option] {
            case EMPTY => himq[option] := OPPOSITE;
            case OPPOSITE =>
          }
        case WANTYES =>
          match himq[option] {
            case EMPTY =>
            case OPPOSITE => himq[option] := EMPTY;
          }
      } else {
        match him[option]
        case NO =>
        case YES =>
          him[option] := WANTNO;
          SendNegotiation(DONT, option);
        case WANTNO =>
          match himq[option] {
            case EMPTY =>
            case OPPOSITE => himq[option] := EMPTY;
          }
        case WANTYES =>
          match himq[option] {
            case EMPTY => himq[option] := OPPOSITE;
            case OPPOSITE =>
          }
      }
    }

    method RecWill(option: nat)
      requires Valid() && option < NOPTIONS
      modifies him, himq, this`sent, this`wire
      ensures Valid() && Handled(option, Got(WILL))
    {
      match him[option]
      case NO =>
        if himPreferred[option] {
          him[option] := YES;
          SendNegotiation(DO, option);
        } else {
          SendNegotiation(DONT, option);
        }
      case YES =>
      case WANTNO =>
        match himq[option] {
          case EMPTY => him[option] := NO;
          case OPPOSITE =>
            him[option] := YES;
            himq[option] := EMPTY;
        }
      case WANTYES =>
        match himq[option] {
          case EMPTY => him[option] := YES;
          case OPPOSITE =>
            him[option] := WANTNO;
            himq[option] := EMPTY;
            SendNegotiation(DONT, option);
        }
    }

    method RecWont(option: nat)
      requires Valid() && option < NOPTIONS
      modifies him, himq, this`sent, this`wire
      ensures Valid() && Handled(option, Got(WONT))
    {
      match him[option]
      case NO =>
      case YES =>
        him[option] := NO;
        SendNegotiation(DONT, option);
      case WANTNO =>
        match himq[option] {
          case EMPTY => him[option] := NO;
          case OPPOSITE =>
            him[option] := WANTYES;
            himq[option] := EMPTY;
            SendNegotiation(DO, option);
        }
      case WANTYES =>
        match himq[option] {
          case EMPTY => him[option] := NO;
          case OPPOSITE =>
            him[option] := NO;
            himq[option] := EMPTY;
        }
    }

    method RecDo(option: nat)
      requires Valid() && option < NOPTIONS
      modifies us, usq, himq, this`sent, this`wire
      ensures Valid() && Handled(option, Got(DO))
    {
      match us[option]
      case NO =>
        if usPreferred[option] {
          us[option] := YES;
          SendNegotiation(WILL, option);
        } else {
          SendNegotiation(WONT, option);
        }
      case YES =>
      case WANTNO =>
        match usq[option] {
          case EMPTY => us[option] := NO;
          case OPPOSITE =>
            us[option] := YES;
            usq[option] := EMPTY;
        }
      case WANTYES =>
        match usq[option] {
          case EMPTY => us[option] := YES;
          case OPPOSITE =>
            us[option] := WANTNO;
            himq[option] := EMPTY; // as written; the dual of rec_will would empty usq
            SendNegotiation(WONT, option);
        }
    }

    method RecDont(option: nat)
      requires Valid() && option < NOPTIONS
      modifies us, usq, this`sent, this`wire
      ensures Valid() && Handled(option, Got(DONT))
    {
      match us[option]
      case NO =>
      case YES =>
        us[option] := NO;
        SendNegotiation(WONT, option);
      case WANTNO =>
        match usq[option] {
          case EMPTY => us[option] := NO;
          case OPPOSITE =>
            us[option] := WANTYES;
            usq[option] := EMPTY;
            SendNegotiation(WILL, option);
        }
      case WANTYES =>
        match usq[option] {
          case EMPTY => us[option] := NO;
          case OPPOSITE =>
            us[option] := NO;
            usq[option] := EMPTY;
        }
    }

    method RequestPreferred(option: nat)
      requires Valid() && option < NOPTIONS
      modifies us, usq, him, himq, this`sent, this`wire
      ensures Valid()
      ensures Opts() == old(Opts())[option := Requested(old(Opts())[option], Preferences()[option])]
      ensures sent == old(sent) + Announcement(old(Opts())[option], Preferences()[option], option)
    {
      hide React, Answer, EncodeMsgs, Tagged;
      if usPreferred[option] {
        SetLocalOption(option, true);
      }
      RemoteIndependent(old(Opts())[option], Preferences()[option]);
      if himPreferred[option] {
        SetRemoteOption(option, true);
      }
    }

    /**
     negotiate: request every preferred option below NTELOPTS; higher ones are never requested. Before anything was
     negotiated that is one WILL for each side of ours and one DO for each of theirs, all of them then WANTYES.
     */
    method Negotiate()
      requires Valid()
      modifies us, usq, him, himq, this`sent, this`wire
      ensures Valid() && Opts() == AllRequested(old(Opts()), Preferences(), NTELOPTS)
      ensures sent == old(sent) + Announced(old(Opts()), Preferences(), NTELOPTS)
      ensures AllOff(old(Opts())) ==>
                && sent == old(sent) + Wishes(Preferences(), NTELOPTS)
                && forall o :: 0 <= o < NOPTIONS ==> Opts()[o] == if o < NTELOPTS then Wanting(Preferences()[o]) else BOTH_OFF
    {
      FirstRequests(Opts(), Preferences(), NTELOPTS);
      hide Requested, Announcement, EncodeMsgs, Wanting, Wishes, Negotiates, AllOff, AllRequested, Announced;
      var i := 0;
      NoneRequested(Opts(), Preferences());
      EmptyUnit(sent);
      while i < NTELOPTS
        invariant i <= NTELOPTS && Valid()
        invariant Preferences() == old(Preferences())
        invariant Opts() == AllRequested(old(Opts()), Preferences(), i)
        invariant sent == old(sent) + Announced(old(Opts()), Preferences(), i)
      {
        OneMoreRequested(old(Opts()), Preferences(), i);
        Assoc(old(sent), Announced(old(Opts()), Preferences(), i), Announcement(old(Opts())[i], Preferences()[i], i));
        RequestPreferred(i);
        i := i + 1;
      }
    }

    /** suboption, but for the reply it formats: reads the option and steps past it. */
    method HandleSuboption()
      requires Valid() && subpointer < SUBBUFSIZE
      modifies this`subpointer, this`calls
      ensures Valid() && subpointer == old(subpointer) + 1
      ensures calls == old(calls) + [Suboption(subbuffer[..subend])]
    {
      subpointer := subpointer + 1;
      NegotiatesSnoc(calls, Suboption(subbuffer[..subend]));
      calls := calls + [Suboption(subbuffer[..subend])];
    }

    /** CURL_SB_ACCUM */
    method SbAccum(c: byte)
      requires Valid()
      modifies this`subpointer, subbuffer
      ensures Valid() && Snapshot() == Accum(old(Snapshot()), c)
    {
      if subpointer < SUBBUFSIZE {
        subbuffer[subpointer] := c;
        subpointer := subpointer + 1;
      }
    }

    /** The two CURL_SB_ACCUM, the step back, CURL_SB_TERM and the call of suboption. */
    method SbTerminate(c: byte)
      requires Valid()
      modifies this`subpointer, this`subend, this`calls, subbuffer
      ensures Valid() && Snapshot() == Terminate(old(Snapshot()), c)
    {
      SbAccum(IAC);
      SbAccum(c);
      subpointer := subpointer - 2;
      subend := subpointer;
      subpointer := 0;
      HandleSuboption();
    }

    method HandleIac(c: byte)
      requires Valid()
      modifies this`state, this`subpointer
      ensures Valid() && Snapshot() == ProcessIac(old(Snapshot()), c).(data := data)
    {
      if c == CMD_WILL {
        state := TsWill;
      } else if c == CMD_WONT {
        state := TsWont;
      } else if c == CMD_DO {
        state := TsDo;
      } else if c == CMD_DONT {
        state := TsDont;
      } else if c == SB {
        subpointer := 0;
        state := TsSb;
      } else {
        state := TsData;
      }
    }

    method DispatchVerb(verb: Verb, option: nat)
      requires Valid() && option < NOPTIONS
      modifies us, usq, him, himq, this`sent, this`wire
      ensures Valid() && Handled(option, Got(verb))
    {
      match verb
      case WILL => RecWill(option);
      case WONT => RecWont(option);
      case DO => RecDo(option);
      case DONT => RecDont(option);
    }

    /** The option byte of a WILL, WONT, DO or DONT. */
    method HandleCommand(verb: Verb, c: byte)
      requires Valid()
      modifies us, usq, him, himq, this`sent, this`wire, this`calls, this`state, this`pleaseNegotiate
      ensures 0 <= c as int < NOPTIONS
      ensures Valid() && Snapshot() == Negotiating(old(Snapshot()), verb, c as int)
    {
      ByteRange(c);
      var option := c as int;
      hide React, Answer, Tagged, EncodeMsgs, Negotiates;
      DispatchVerb(verb, option);
      NegotiatesSnoc(calls, Negotiated(verb, option));
      pleaseNegotiate := true;
      calls := calls + [Negotiated(verb, option)];
      state := TsData;
    }

    /** A byte after an IAC inside a suboption. */
    method HandleSe(c: byte)
      requires Valid() && state == TsSe
      modifies subbuffer, this`calls, this`state, this`subpointer, this`subend
      ensures Valid() && Snapshot() == FeedByte(old(Snapshot()), c).(data := data)
    {
      hide Terminate, Accum, Negotiates, EncodeMsgs, ProcessIac, Negotiating;
      if c != SE {
        if c != IAC {
          SbTerminate(c);
          state := TsIac;
          HandleIac(c);
        } else {
          SbAccum(c);
          state := TsSb;
        }
      } else {
        SbTerminate(c);
        state := TsData;
      }
    }

    /** One turn of the switch in telrcv; the mark says what becomes of startwrite. */
    method HandleByte(c: byte) returns (mark: Mark)
      requires Valid()
      modifies us, usq, him, himq, subbuffer
      modifies this`sent, this`wire, this`calls, this`state, this`pleaseNegotiate, this`subpointer, this`subend
      ensures Valid() && Snapshot() == FeedByte(old(Snapshot()), c).(data := data)
      ensures mark == MarkOf(old(state), c)
    {
      hide Terminate, Accum, Negotiating, Negotiates, EncodeMsgs;
      mark := Leave;
      match state
      case TsCr =>
        state := TsData;
        mark := if c == NUL then Close else Extend;
      case TsData =>
        if c == IAC {
          state := TsIac;
          mark := Close;
        } else {
          if c == CR {
            state := TsCr;
          }
          mark := Extend;
        }
      case TsIac =>
        if c == IAC {
          mark := Extend;
        }
        HandleIac(c);
      case TsSb =>
        if c == IAC {
          state := TsSe;
        } else {
          SbAccum(c);
        }
      case TsSe =>
        HandleSe(c);
      case TsWill => HandleCommand(WILL, c);
      case TsWont => HandleCommand(WONT, c);
      case TsDo => HandleCommand(DO, c);
      case TsDont => HandleCommand(DONT, c);
    }

    /** One turn of the loop in telrcv: recorded data and open range together are all the data so far. */
    method ReceiveByte(inbuf: seq<byte>, pos: nat, startwrite: int, ghost p: Parser) returns (startwrite': int)
      requires Valid() && pos < |inbuf| && -1 <= startwrite <= pos && Telrcv.Valid(p)
      requires startwrite >= 0 ==> MayBeOpen(state)
      requires p == Whole(Snapshot(), inbuf, startwrite, pos)
      modifies us, usq, him, himq, subbuffer
      modifies this`sent, this`wire, this`calls, this`data, this`state, this`pleaseNegotiate, this`subpointer, this`subend
      ensures Valid() && -1 <= startwrite' <= pos
      ensures startwrite' >= 0 ==> MayBeOpen(state)
      ensures FeedByte(p, inbuf[pos]) == Whole(Snapshot(), inbuf, startwrite', pos + 1)
    {
      hide FeedByte, OpenRange, MarkOf, MayBeOpen;
      ghost var q := Snapshot();
      startwrite' := startwrite;
      var mark := HandleByte(inbuf[pos]);
      RangeStep(p, q, Snapshot(), inbuf, startwrite, pos);
      match mark {
        case Extend =>
          if startwrite < 0 {
            startwrite' := pos;
          }
        case Close =>
          Record(inbuf, startwrite, pos);
          startwrite' := -1;
        case Leave =>
      }
    }

    /** After n bytes the parser is where Feed says, and the flag is right. */
    ghost predicate At(p0: Parser, inbuf: seq<byte>, startwrite: int, n: nat, sawIac: bool)
      requires Valid() && Telrcv.Valid(p0)
      reads this, us, usq, him, himq, usPreferred, himPreferred, subbuffer
    {
      && -1 <= startwrite <= n <= |inbuf|
      && (startwrite >= 0 ==> MayBeOpen(state))
      && Feed(p0, inbuf[..n]) == Whole(Snapshot(), inbuf, startwrite, n)
      && (sawIac <==> IacMet(p0, inbuf, n))
    }

    /** One turn of the loop, the test for an IAC in DATA included. */
    method Turn(inbuf: seq<byte>, pos: nat, startwrite: int, sawIac: bool, ghost p0: Parser)
      returns (startwrite': int, sawIac': bool)
      requires Valid() && Telrcv.Valid(p0) && pos < |inbuf| && At(p0, inbuf, startwrite, pos, sawIac)
      modifies us, usq, him, himq, subbuffer
      modifies this`sent, this`wire, this`calls, this`data, this`state, this`pleaseNegotiate, this`subpointer, this`subend
      ensures Valid() && At(p0, inbuf, startwrite', pos + 1, sawIac')
    {
      hide Feed, FeedByte, OpenRange, MayBeOpen, IacMet;
      FeedTurn(p0, inbuf, pos);
      sawIac' := sawIac || (state == TsData && inbuf[pos] == IAC);
      startwrite' := ReceiveByte(inbuf, pos, startwrite, Feed(p0, inbuf[..pos]));
    }

    /**
     telrcv. The bytes of each data range are recorded where the code calls startskipping; the flag
     says whether an IAC was met in DATA, which is what decides the result code.
     */
    method Receive(inbuf: seq<byte>) returns (sawIac: bool)
      requires Valid()
      modifies us, usq, him, himq, subbuffer
      modifies this`sent, this`wire, this`calls, this`data, this`state, this`pleaseNegotiate, this`subpointer, this`subend
      ensures Valid() && Snapshot() == Feed(old(Snapshot()), inbuf)
      ensures sawIac <==> IacMet(old(Snapshot()), inbuf, |inbuf|)
    {
      sawIac := false;
      var pos := 0;
      var startwrite := -1;
      ghost var p0 := Snapshot();
      hide Feed, FeedByte, OpenRange, MayBeOpen, IacMet, Snapshot;
      NoIacYet(p0, inbuf);
      FeedNone(p0, inbuf);
      while pos < |inbuf|
        invariant 0 <= pos <= |inbuf| && Valid() && At(p0, inbuf, startwrite, pos, sawIac)
      {
        startwrite, sawIac := Turn(inbuf, pos, startwrite, sawIac, p0);
        pos := pos + 1;
      }
      TakeAll(inbuf);
      Record(inbuf, startwrite, |inbuf|);
    }

    /** telrcv is resumable: two calls leave what one call on the joined input would leave. */
    method ReceiveTwice(a: seq<byte>, b: seq<byte>)
      requires Valid()
      modifies us, usq, him, himq, subbuffer
      modifies this`sent, this`wire, this`calls, this`data, this`state, this`pleaseNegotiate, this`subpointer, this`subend
      ensures Valid() && Snapshot() == Feed(old(Snapshot()), a + b)
    {
      hide Feed, Snapshot;
      ChunkIndependent(Snapshot(), a, b);
      var _ := Receive(a);
      var _ := Receive(b);
    }

    /**
     One turn of the reading loop: telrcv, and then negotiate, once, after the first input in which the peer
     negotiates.
     */
    method TakeInput(inbuf: seq<byte>)
      requires Valid()
      modifies us, usq, him, himq, subbuffer
      modifies this`sent, this`wire, this`calls, this`data, this`state, this`pleaseNegotiate, this`subpointer, this`subend
      modifies this`alreadyNegotiated
      ensures Valid()
      ensures var q := Feed(old(Snapshot()), inbuf);
              var now := Negotiates(q.calls) && !old(alreadyNegotiated);
              && (alreadyNegotiated <==> old(alreadyNegotiated) || Negotiates(q.calls))
              && (!now ==> Snapshot() == q)
              && (now ==> Snapshot() == q.(opts := Opts(), sent := q.sent + Announced(q.opts, q.prefs, NTELOPTS)))
    {
      hide Feed, Negotiates, EncodeMsgs, Announced, IacMet;
      var _ := Receive(inbuf);
      if pleaseNegotiate && !alreadyNegotiated {
        Negotiate();
        alreadyNegotiated := true;
      }
    }

    /** startskipping: the open range, if any, is handed on as data. */
    method Record(inbuf: seq<byte>, startwrite: int, pos: nat)
      requires Valid() && -1 <= startwrite <= pos <= |inbuf|
      modifies this`data
      ensures Valid() && Snapshot() == Whole(old(Snapshot()), inbuf, startwrite, pos)
    {
      if startwrite >= 0 {
        data := data + inbuf[startwrite..pos];
      } else {
        EmptyUnit(data);
      }
    }
  }

  /** An IAC was met in DATA among the first n bytes. */
  ghost predicate IacMet(p: Parser, input: seq<byte>, n: nat)
    requires Telrcv.Valid(p) && n <= |input|
  {
    exists k :: 0 <= k < n && input[k] == IAC && Feed(p, input[..k]).state == TsData
  }

  lemma NoIacYet(p: Parser, input: seq<byte>)
    requires Telrcv.Valid(p)
    ensures !IacMet(p, input, 0)
  {
  }

  lemma IacMetSnoc(p: Parser, input: seq<byte>, n: nat)
    requires Telrcv.Valid(p) && n < |input|
    ensures IacMet(p, input, n + 1) <==> IacMet(p, input, n) || (input[n] == IAC && Feed(p, input[..n]).state == TsData)
  {
    hide Feed;
  }

  lemma FeedTurn(p: Parser, input: seq<byte>, n: nat)
    requires Telrcv.Valid(p) && n < |input|
    ensures Feed(p, input[..n + 1]) == FeedByte(Feed(p, input[..n]), input[n])
    ensures IacMet(p, input, n + 1) <==> IacMet(p, input, n) || (input[n] == IAC && Feed(p, input[..n]).state == TsData)
  {
    TakeSnoc(input, n);
    FeedSnoc(p, input[..n], input[n]);
    IacMetSnoc(p, input, n);
  }

  lemma FeedNone(p: Parser, input: seq<byte>)
    requires Telrcv.Valid(p)
    ensures Feed(p, input[..0]) == Whole(p, input, -1, 0)
  {
    FeedEmpty(p);
    TakeAll(input);
    EmptyUnit(p.data);
  }

  /** One byte: the whole data is what was recorded and the open range, before and after. */
  lemma RangeStep(p: Parser, q: Parser, q': Parser, inbuf: seq<byte>, startwrite: int, pos: nat)
    requires Telrcv.Valid(p) && Telrcv.Valid(q) && pos < |inbuf| && -1 <= startwrite <= pos
    requires p == q.(data := q.data + OpenRange(inbuf, startwrite, pos))
    requires startwrite >= 0 ==> MayBeOpen(q.state)
    requires q' == FeedByte(q, inbuf[pos]).(data := q.data)
    ensures var next := FeedByte(p, inbuf[pos]);
            match MarkOf(q.state, inbuf[pos])
            case Extend =>
              && next == q'.(data := q.data + OpenRange(inbuf, if startwrite < 0 then pos else startwrite, pos + 1))
              && MayBeOpen(next.state)
            case Close => next == q'.(data := q.data + OpenRange(inbuf, startwrite, pos) + OpenRange(inbuf, -1, pos + 1))
            case Leave => startwrite < 0 && next == q'.(data := q.data + OpenRange(inbuf, -1, pos + 1))
  {
    hide FeedByte, OpenRange;
    var c := inbuf[pos];
    var r := OpenRange(inbuf, startwrite, pos);
    MarkIsData(p, c);
    StepData(p, q, c);
    RangeAdvances(inbuf, startwrite, pos, MarkOf(q.state, c));
    Assoc(q.data, r, [c]);
    EmptyUnit(q.data + r);
  }

  /** The open data range. */
  function OpenRange(input: seq<byte>, startwrite: int, pos: nat): seq<byte>
    requires -1 <= startwrite <= pos <= |input|
  {
    if startwrite < 0 then [] else input[startwrite..pos]
  }

  /** The parser with the open range counted as data. */
  function Whole(p: Parser, input: seq<byte>, startwrite: int, pos: nat): Parser
    requires -1 <= startwrite <= pos <= |input|
  {
    p.(data := p.data + OpenRange(input, startwrite, pos))
  }

  /** A preferred option after negotiate. */
  function Requested(o: OptState, p: Prefs): OptState {
    var l := if p.us then React(o, p, Local(true)) else o;
    if p.him then React(l, p, Remote(true)) else l
  }

  /** The messages negotiate sends for one option, and for the first n. */
  function Announcement(o: OptState, p: Prefs, option: nat): seq<Msg> {
    (if p.us then Tagged(Answer(o, p, Local(true)), option) else [])
    + if p.him then Tagged(Answer(o, p, Remote(true)), option) else []
  }

  function Announced(opts: seq<OptState>, prefs: seq<Prefs>, n: nat): seq<Msg>
    requires n <= |opts| == |prefs|
  {
    if n == 0 then [] else Announced(opts, prefs, n - 1) + Announcement(opts[n - 1], prefs[n - 1], n - 1)
  }

  /** The preferred options below n have been requested. */
  function AllRequested(opts: seq<OptState>, prefs: seq<Prefs>, n: nat): (r: seq<OptState>)
    requires n <= |opts| == |prefs|
    ensures |r| == |opts|
  {
    seq(|opts|, o requires 0 <= o < |opts| => if o < n then Requested(opts[o], prefs[o]) else opts[o])
  }

  lemma NoneRequested(opts: seq<OptState>, prefs: seq<Prefs>)
    requires |opts| == |prefs|
    ensures AllRequested(opts, prefs, 0) == opts && Announced(opts, prefs, 0) == []
  {
  }

  lemma OneMoreRequested(opts: seq<OptState>, prefs: seq<Prefs>, n: nat)
    requires n < |opts| == |prefs|
    ensures AllRequested(opts, prefs, n)[n] == opts[n]
    ensures AllRequested(opts, prefs, n + 1) == AllRequested(opts, prefs, n)[n := Requested(opts[n], prefs[n])]
    ensures Announced(opts, prefs, n + 1) == Announced(opts, prefs, n) + Announcement(opts[n], prefs[n], n)
  {
  }

  predicate AllOff(opts: seq<OptState>) {
    forall o :: 0 <= o < |opts| ==> opts[o] == BOTH_OFF
  }

  /** An option whose preferences have been requested for the first time. */
  function Wanting(p: Prefs): OptState {
    OptState(Side(if p.us then WANTYES else NO, EMPTY), Side(if p.him then WANTYES else NO, EMPTY))
  }

  /** One WILL for each option preferred on our side and one DO for each preferred on theirs, in order. */
  function Wishes(prefs: seq<Prefs>, n: nat): seq<Msg>
    requires n <= |prefs|
  {
    if n == 0 then []
    else
      Wishes(prefs, n - 1)
      + (if prefs[n - 1].us then [Msg(WILL, n - 1)] else []) + (if prefs[n - 1].him then [Msg(DO, n - 1)] else [])
  }

  /** What negotiate asks for when nothing has been negotiated yet. */
  lemma FirstRequests(opts: seq<OptState>, prefs: seq<Prefs>, n: nat)
    requires n <= |opts| == |prefs|
    ensures AllOff(opts) ==>
              && Announced(opts, prefs, n) == Wishes(prefs, n)
              && forall o :: 0 <= o < |opts| ==> AllRequested(opts, prefs, n)[o] == if o < n then Wanting(prefs[o]) else BOTH_OFF
  {
    hide React, Answer;
    if AllOff(opts) {
      FirstAnnounced(opts, prefs, n);
      forall o | 0 <= o < n
        ensures Requested(opts[o], prefs[o]) == Wanting(prefs[o])
      {
        FirstRequest(prefs[o]);
      }
    }
  }

  lemma FirstRequest(p: Prefs)
    ensures Requested(BOTH_OFF, p) == Wanting(p)
  {
  }

  lemma {:induction false} FirstAnnounced(opts: seq<OptState>, prefs: seq<Prefs>, n: nat)
    requires n <= |opts| == |prefs| && AllOff(opts)
    ensures Announced(opts, prefs, n) == Wishes(prefs, n)
    decreases n
  {
    if n > 0 {
      FirstAnnounced(opts, prefs, n - 1);
      var p := prefs[n - 1];
      Assoc(Wishes(prefs, n - 1), if p.us then [Msg(WILL, n - 1)] else [], if p.him then [Msg(DO, n - 1)] else []);
    }
  }

  lemma RemoteIndependent(o: OptState, p: Prefs)
    ensures Answer(React(o, p, Local(true)), p, Remote(true)) == Answer(o, p, Remote(true))
  {
  }

  // ------------------------------------------------------------------ sending

  /** One socket write: it takes some bytes, would block, or fails. */
  datatype Write = Took(n: nat) | WouldBlock | Broken

  class Socket {
    var wire: seq<byte>
    var plan: seq<Write>

    /** Curl_write */
    method WriteSome(mem: seq<byte>) returns (ok: bool, written: nat)
      modifies this
      ensures |plan| <= |old(plan)| && (|plan| < |old(plan)| || !ok)
      ensures ok ==> written <= |mem| && wire == old(wire) + mem[..written]
      ensures !ok ==> written == 0 && wire == old(wire)
    {
      if plan == [] {
        return false, 0;
      }
      var next := plan[0];
      plan := plan[1..];
      match next
      case Took(n) =>
        written := if n < |mem| then n else |mem|;
        wire := wire + mem[..written];
        ok := true;
      case WouldBlock =>
        ok, written := true, 0;
        assert mem[..0] == [];
      case Broken =>
        ok, written := false, 0;
    }

    /** The inner loop: repeat partial writes. */
    method WriteAll(outbuf: seq<byte>) returns (ok: bool)
      requires outbuf != []
      modifies this
      ensures ok ==> wire == old(wire) + outbuf
      ensures !ok ==> old(wire) <= wire < old(wire) + outbuf
    {
      var written;
      ok, written := WriteSome(outbuf);
      var total := written;
      TakeAll(outbuf);
      while ok && total < |outbuf|
        invariant 0 <= total <= |outbuf| && wire == old(wire) + outbuf[..total] && (ok || total < |outbuf|)
        decreases |plan|, ok
      {
        ghost var sofar := total;
        ok, written := WriteSome(outbuf[total..]);
        total := total + written;
        assert outbuf[..sofar] + outbuf[sofar..][..written] == outbuf[..total];
      }
      assert outbuf[..total] <= outbuf;
    }

    /** send_telnet_data: however the socket splits the writes, what is on the wire is the escaped text. */
    method SendTelnetData(buffer: seq<byte>) returns (ok: bool)
      modifies this
      ensures ok ==> wire == old(wire) + Escape(buffer)
      ensures !ok ==> old(wire) <= wire < old(wire) + Escape(buffer)
    {
      hide Escape;
      ok := true;
      var pos := 0;
      TakeAll(buffer);
      EscapeEmpty();
      EmptyUnit(wire);
      while ok && pos < |buffer|
        invariant 0 <= pos <= |buffer|
        invariant ok ==> wire == old(wire) + Escape(buffer[..pos])
        invariant !ok ==> old(wire) <= wire < old(wire) + Escape(buffer)
        decreases |buffer| - pos, ok
      {
        ghost var before := wire;
        TakeSnoc(buffer, pos);
        EscapeSnoc(buffer[..pos], buffer[pos]);
        EscapePrefix(buffer, pos + 1);
        Assoc(old(wire), Escape(buffer[..pos]), EscapeByte(buffer[pos]));
        ok := WriteAll(if buffer[pos] == IAC then [IAC, IAC] else [buffer[pos]]);
        pos := pos + 1;
      }
      TakeAll(buffer);
    }
  }

  lemma {:induction false} EscapePrefix(s: seq<byte>, k: nat)
    requires k <= |s|
    ensures Escape(s[..k]) <= Escape(s)
    decreases |s| - k
  {
    if k == |s| {
      TakeAll(s);
    } else {
      TakeSnoc(s, k);
      EscapeSnoc(s[..k], s[k]);
      EscapePrefix(s, k + 1);
    }
  }

  lemma CommandData(p: Parser, d: seq<byte>, c: byte)
    requires Telrcv.Valid(p)
    ensures Terminate(p.(data := d), c) == Terminate(p, c).(data := d)
    ensures Accum(p.(data := d), c) == Accum(p, c).(data := d)
  {
  }

  lemma NegotiatingData(p: Parser, d: seq<byte>, verb: Verb, option: nat)
    requires Telrcv.Valid(p) && option < NOPTIONS
    ensures Negotiating(p.(data := d), verb, option) == Negotiating(p, verb, option).(data := d)
  {
    hide React, Answer;
  }

  lemma ProcessIacData(p: Parser, d: seq<byte>, c: byte)
    requires Telrcv.Valid(p)
    ensures ProcessIac(p.(data := d), c) == ProcessIac(p, c).(data := ProcessIac(p.(data := d), c).data)
  {
  }

  lemma SuboptionEndData(p: Parser, d: seq<byte>, c: byte)
    requires Telrcv.Valid(p) && p.state == TsSe
    ensures FeedByte(p.(data := d), c) == FeedByte(p, c).(data := FeedByte(p.(data := d), c).data)
  {
    CommandData(p, d, c);
    ProcessIacData(Terminate(p, c).(state := TsIac), d, c);
    hide Terminate, Accum, Negotiating, ProcessIac;
  }

  /** The data recorded so far has no influence on anything but itself. */
  lemma StepData(p: Parser, q: Parser, c: byte)
    requires Telrcv.Valid(p) && Telrcv.Valid(q) && q == p.(data := q.data)
    ensures FeedByte(q, c) == FeedByte(p, c).(data := FeedByte(q, c).data)
  {
    var d := q.data;
    if p.state == TsSe {
      SuboptionEndData(p, d, c);
    } else {
      ByteRange(c);
      CommandData(p, d, c);
      ProcessIacData(p, d, c);
      NegotiatingData(p, d, WILL, c as int);
      NegotiatingData(p, d, WONT, c as int);
      NegotiatingData(p, d, DO, c as int);
      NegotiatingData(p, d, DONT, c as int);
      hide Terminate, Accum, Negotiating, ProcessIac;
    }
  }

  /** How the open range and the recorded data advance together. */
  lemma RangeAdvances(input: seq<byte>, startwrite: int, pos: nat, mark: Mark)
    requires pos < |input| && -1 <= startwrite <= pos
    ensures var r := OpenRange(input, startwrite, pos);
            match mark
            case Extend => OpenRange(input, if startwrite < 0 then pos else startwrite, pos + 1) == r + [input[pos]]
            case Close => OpenRange(input, -1, pos + 1) == []
            case Leave => startwrite < 0 ==> OpenRange(input, -1, pos + 1) == r
  {
  }
}
