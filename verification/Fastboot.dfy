/**
 The fastboot engine of mdmfastboot/fastbootflash.cpp as functions: the command protocol over a device whose
 replies may be anything, and the execution of a queue of actions.
 */
module Fastboot {
  import opened Bytes
  import opened Seqs
  import opened Words

  // ------------------------------------------------------------------ the device

  /** A reply of the device, by its first four characters; Unreadable covers short and failed reads. */
  datatype Reply = Info(text: string) | Okay(text: string) | Fail | Data(size: nat) | Unknown | Unreadable

  /** What the host writes: whole command lines and image data, and whether the write succeeded. */
  datatype Wire = Command(cmd: string, ok: bool) | Image(data: seq<byte>, ok: bool)

  /** The device's replies to come, the outcomes of the host's writes to come, and all that was written. */
  datatype Dev = Dev(replies: seq<Reply>, writes: seq<bool>, trace: seq<Wire>)

  function ToInt32(n: nat): int {
    var m := n % TWO32;
    if m < TWO32 / 2 then m else m - TWO32
  }

  /** check_response: the result, the text of an OKAY, and the replies left. */
  function Check(replies: seq<Reply>, size: nat, dataOkay: bool): (int, string, seq<Reply>)
    decreases |replies|
  {
    if replies == [] then (-1, "", [])
    else
      var rest := replies[1..];
      match replies[0]
      case Info(_) => Check(rest, size, dataOkay)
      case Okay(text) => (0, text, rest)
      case Data(d) => (if dataOkay && d <= size then ToInt32(d) else -1, "", rest)
      case _ => (-1, "", rest)
  }

  /** usb_write. */
  function Put(dev: Dev, w: Wire): Dev {
    dev.(writes := if dev.writes == [] then [] else dev.writes[1..], trace := dev.trace + [w])
  }

  /** usb_write refuses an empty line before it comes to a transfer. */
  function Refuse(dev: Dev): Dev {
    dev.(trace := dev.trace + [Command("", false)])
  }

  predicate Writable(dev: Dev) {
    dev.writes != [] && dev.writes[0]
  }

  /** _command_send without data: the result, and the text of the answer. */
  function Send(dev: Dev, cmd: string): (int, string, Dev) {
    if |cmd| > 64 then (-1, "", dev)
    else if cmd == "" then (-1, "", Refuse(dev))
    else
      var ok := Writable(dev);
      var d1 := Put(dev, Command(cmd, ok));
      if !ok then (-1, "", d1)
      else
        var (r, text, rest) := Check(d1.replies, 0, false);
        (r, text, d1.(replies := rest))
  }

  /** _command_send with data, as fb_download_data calls it: the device says how much of the data it takes. */
  function SendData(dev: Dev, cmd: string, data: seq<byte>): (int, Dev)
    requires |data| < TWO32 && 0 < |cmd| <= 64
  {
    var ok := Writable(dev);
    var d1 := Put(dev, Command(cmd, ok));
    if !ok then (-1, d1)
    else
      var (r, _, rest) := Check(d1.replies, |data|, true);
      var d2 := d1.(replies := rest);
      if r < 0 then (-1, d2)
      else
        CheckBounded(d1.replies, |data|, true);
        if r > 0 && !Writable(d2) then (-1, Put(d2, Image(data[..r], false)))
        else
          var d3 := if r > 0 then Put(d2, Image(data[..r], true)) else d2;
          var (last, _, rest3) := Check(d3.replies, 0, false);
          (if last < 0 then -1 else r, d3.(replies := rest3))
  }

  lemma {:induction false} CheckBounded(replies: seq<Reply>, size: nat, dataOkay: bool)
    requires size < TWO32
    ensures Check(replies, size, dataOkay).0 <= (if dataOkay then size else 0)
    decreases |replies|
  {
    if replies != [] && replies[0].Info? {
      CheckBounded(replies[1..], size, dataOkay);
    }
  }

  // ------------------------------------------------------------------ actions

  datatype Op = DOWNLOAD | COMMAND | QUERY | NOTICE

  datatype Callback = Default | DoNothing | Display | CheckValue(values: seq<string>, invert: bool)

  datatype Act = Act(op: Op, cmd: string, data: Option<seq<byte>>, size: nat, func: Callback)

  /** The command fits its field of 64 characters; a download's size is that of its data. */
  predicate Queueable(a: Act) {
    && |a.cmd| < 64 && a.size < TWO32
    && (a.op == DOWNLOAD && a.data.Some? ==> |a.data.value| == a.size)
  }

  type Action = a: Act | Queueable(a) witness Act(NOTICE, "", None, 0, Default)

  /**
   vsprintf of a format with no arguments: a doubled percent sign stands for one, and any other conversion has no
   defined result.
   */
  function Formatted(format: string): Option<string> {
    if format == "" then Some("")
    else if format[0] != '%' then
      var rest := Formatted(format[1..]);
      if rest.None? then None else Some([format[0]] + rest.value)
    else if |format| > 1 && format[1] == '%' then
      var rest := Formatted(format[2..]);
      if rest.None? then None else Some("%" + rest.value)
    else None
  }

  /** A command is queued as it is given exactly if it holds no percent sign. */
  lemma {:induction false} FormattedIff(format: string)
    ensures Formatted(format) == Some(format) <==> '%' !in format
    ensures Formatted(format).Some? ==> |Formatted(format).value| <= |format|
  {
    if format != "" {
      if format[0] != '%' {
        FormattedIff(format[1..]);
        assert format == [format[0]] + format[1..];
      } else if |format| > 1 && format[1] == '%' {
        FormattedIff(format[2..]);
      }
    }
  }

  /** A text with its percent signs doubled. */
  function Doubled(text: string): string {
    if text == "" then "" else (if text[0] == '%' then "%%" else [text[0]]) + Doubled(text[1..])
  }

  /** A format prints a text exactly if it is that text with its percent signs doubled; any other is undefined. */
  lemma FormattedExactly(format: string, text: string)
    ensures Formatted(format) == Some(text) <==> format == Doubled(text)
  {
    if Formatted(format) == Some(text) {
      FormattedIsDoubled(format);
    } else if format == Doubled(text) {
      DoubledIsFormatted(text);
    }
  }

  lemma {:induction false} FormattedIsDoubled(format: string)
    ensures Formatted(format).Some? ==> format == Doubled(Formatted(format).value)
  {
    if format != "" && Formatted(format).Some? {
      var text := Formatted(format).value;
      if format[0] != '%' {
        FormattedIsDoubled(format[1..]);
        assert text[1..] == Formatted(format[1..]).value;
        assert format == [format[0]] + format[1..];
      } else {
        FormattedIsDoubled(format[2..]);
        assert text[1..] == Formatted(format[2..]).value;
        assert format == "%%" + format[2..];
      }
    }
  }

  lemma {:induction false} DoubledIsFormatted(text: string)
    ensures Formatted(Doubled(text)) == Some(text)
  {
    hide Formatted;
    if text == "" {
      FormattedNothing();
    } else {
      DoubledIsFormatted(text[1..]);
      assert text == [text[0]] + text[1..];
      FormattedFront(text[0], Doubled(text[1..]));
    }
  }

  lemma FormattedNothing()
    ensures Formatted("") == Some("")
  {
  }

  lemma FormattedFront(c: char, rest: string)
    requires Formatted(rest).Some?
    ensures Formatted((if c == '%' then "%%" else [c]) + rest) == Some([c] + Formatted(rest).value)
  {
    if c == '%' {
      Skip("%%", rest);
    } else {
      Skip([c], rest);
    }
  }

  function HexDigit(n: nat): char
    requires n < 16
  {
    "0123456789abcdef"[n]
  }

  function Hex(n: nat, digits: nat): (s: string)
    ensures |s| == digits
  {
    if digits == 0 then "" else Hex(n / 16, digits - 1) + [HexDigit(n % 16)]
  }

  /** download:%08x */
  function DownloadCmd(size: nat): (s: string)
    ensures |s| == 17
  {
    "download:" + Hex(size, 8)
  }

  /** The value of a hexadecimal digit. */
  function DigitValue(c: char): nat
    requires '0' <= c <= '9' || 'a' <= c <= 'f'
  {
    if c <= '9' then c as nat - '0' as nat else c as nat - 'a' as nat + 10
  }

  predicate IsHex(s: string) {
    forall i :: 0 <= i < |s| ==> '0' <= s[i] <= '9' || 'a' <= s[i] <= 'f'
  }

  function HexValue(s: string): nat
    requires IsHex(s)
  {
    if s == "" then 0 else 16 * HexValue(s[..|s| - 1]) + DigitValue(s[|s| - 1])
  }

  function Power16(digits: nat): nat {
    if digits == 0 then 1 else 16 * Power16(digits - 1)
  }

  /** The digits sent are those of the number, as long as there are enough of them. */
  lemma {:induction false} HexBack(n: nat, digits: nat)
    requires n < Power16(digits)
    ensures IsHex(Hex(n, digits)) && HexValue(Hex(n, digits)) == n
    decreases digits
  {
    if digits > 0 {
      HexBack(n / 16, digits - 1);
      DigitBack(n % 16);
      var s := Hex(n, digits);
      assert s[..|s| - 1] == Hex(n / 16, digits - 1);
    }
  }

  lemma DigitBack(n: nat)
    requires n < 16
    ensures IsHex([HexDigit(n)]) && DigitValue(HexDigit(n)) == n
  {
  }

  /** The device can read the size of a download off its command, for every size there is. */
  lemma DownloadCmdReadable(size: nat)
    requires size < TWO32
    ensures DownloadCmd(size)[..9] == "download:"
    ensures var digits := DownloadCmd(size)[9..]; IsHex(digits) && HexValue(digits) == size
  {
    hide Hex;
    assert Power16(8) == TWO32;
    HexBack(size, 8);
    Skip("download:", Hex(size, 8));
  }

  /** A value ending in a star stands for everything that starts with what is before the star. */
  predicate MatchesOne(s: string, value: string) {
    if |value| > 1 && value[|value| - 1] == '*' then value[..|value| - 1] <= s else value == s
  }

  predicate Matches(s: string, values: seq<string>) {
    exists n :: 0 <= n < |values| && MatchesOne(s, values[n])
  }

  /** The callbacks, as far as what they return goes. */
  function Call(func: Callback, status: int, resp: string): int {
    match func
    case Default => status
    case DoNothing => 0
    case Display => status
    case CheckValue(values, invert) =>
      if status != 0 then status else if Matches(resp, values) != invert then 0 else -1
  }

  /** One action: whether its callback returned 0, and the device after it. */
  function Step(a: Action, dev: Dev): (bool, Dev) {
    match a.op
    case DOWNLOAD =>
      if a.data.None? then
        var (r, _, d) := Send(dev, DownloadCmd(a.size));
        (Call(a.func, if r < 0 then -1 else 0, "") == 0, d)
      else
        var (r, d) := SendData(dev, DownloadCmd(a.size), a.data.value);
        (Call(a.func, if r < 0 then -1 else 0, "") == 0, d)
    case COMMAND =>
      var (r, _, d) := Send(dev, a.cmd);
      (Call(a.func, r, "") == 0, d)
    case QUERY =>
      var (r, text, d) := Send(dev, a.cmd);
      (Call(a.func, r, text) == 0, d)
    case NOTICE => (true, dev)
  }

  // ------------------------------------------------------------------ the queue

  datatype Run = Run(executed: nat, broke: bool, dev: Dev, progress: seq<Progress>)

  /** What SetProgress is given: a number, or the undefined result of converting a double that no int holds. */
  datatype Progress = Shown(percent: nat) | OutOfInt

  function Flashed(a: Action, flashed: nat): nat {
    if a.op == DOWNLOAD then (flashed + a.size) % TWO32 else flashed
  }

  /** (int) of a double: defined for what fits 31 bits. */
  function Converted(p: nat): Progress {
    if p < TWO32 / 2 then Shown(p) else OutOfInt
  }

  /** SetProgress, after a command; the quotient of doubles truncates to the quotient of integers. */
  function Report(a: Action, total: nat, flashed: nat): seq<Progress> {
    if a.op == COMMAND && total != 0 then [Converted(Percent(flashed, total))] else []
  }

  function Execute(actions: seq<Action>, dev: Dev, total: nat, flashed: nat): (r: Run)
    ensures r.executed <= |actions|
    decreases |actions|
  {
    if actions == [] then Run(0, false, dev, [])
    else
      var a := actions[0];
      var (ok, d1) := Step(a, dev);
      var f1 := Flashed(a, flashed);
      var report := Report(a, total, f1);
      if !ok then Run(1, true, d1, report)
      else
        var r := Execute(actions[1..], d1, total, f1);
        r.(executed := r.executed + 1, progress := report + r.progress)
  }

  /** image_size, which adds up the sizes of all actions, in 32 bits. */
  function ImageSize(actions: seq<Action>): (n: nat)
    ensures n < TWO32
  {
    if actions == [] then 0 else (ImageSize(actions[..|actions| - 1]) + actions[|actions| - 1].size) % TWO32
  }

  // ------------------------------------------------------------------ what goes over the wire

  function CommandsIn(trace: seq<Wire>): seq<string> {
    if trace == [] then []
    else CommandsIn(trace[..|trace| - 1]) + (if trace[|trace| - 1].Command? then [trace[|trace| - 1].cmd] else [])
  }

  /** The line an action sends. */
  function Line(a: Action): seq<string> {
    match a.op case DOWNLOAD => [DownloadCmd(a.size)] case COMMAND => [a.cmd] case QUERY => [a.cmd] case NOTICE => []
  }

  function Lines(actions: seq<Action>): seq<string> {
    if actions == [] then [] else Line(actions[0]) + Lines(actions[1..])
  }

  lemma CommandsSnoc(trace: seq<Wire>, w: Wire)
    ensures CommandsIn(trace + [w]) == CommandsIn(trace) + if w.Command? then [w.cmd] else []
  {
    assert (trace + [w])[..|trace + [w]| - 1] == trace;
  }

  lemma StepSendsLine(a: Action, dev: Dev)
    ensures CommandsIn(Step(a, dev).1.trace) == CommandsIn(dev.trace) + Line(a)
    ensures dev.trace <= Step(a, dev).1.trace
  {
    hide Check, CommandsIn, DownloadCmd, Matches;
    EmptyUnit(CommandsIn(dev.trace));
    var line := if a.op == DOWNLOAD then DownloadCmd(a.size) else a.cmd;
    CommandsSnoc(dev.trace, Command(line, true));
    CommandsSnoc(dev.trace, Command(line, false));
    if a.op == DOWNLOAD && a.data.Some? {
      var d1 := Put(dev, Command(line, true));
      var (r, _, _) := Check(d1.replies, |a.data.value|, true);
      CheckBounded(d1.replies, |a.data.value|, true);
      if r > 0 {
        CommandsSnoc(d1.trace, Image(a.data.value[..r], true));
        CommandsSnoc(d1.trace, Image(a.data.value[..r], false));
        EmptyUnit(CommandsIn(d1.trace));
      }
    }
  }

  /** The device just before the i-th action. */
  function DevBefore(actions: seq<Action>, dev: Dev, i: nat): Dev
    requires i <= |actions|
    decreases i
  {
    if i == 0 then dev else DevBefore(actions[1..], Step(actions[0], dev).1, i - 1)
  }

  /** The i-th action's callback returned 0. */
  predicate Succeeds(actions: seq<Action>, dev: Dev, i: nat)
    requires i < |actions|
  {
    Step(actions[i], DevBefore(actions, dev, i)).0
  }

  /**
   The lines sent are those of the queue, in order, up to and including the first action whose callback fails:
   all before it succeeded, it did not, and nothing is sent after it.
   */
  lemma {:induction false} StopsAtFirstFailure(actions: seq<Action>, dev: Dev, total: nat, flashed: nat)
    ensures var r := Execute(actions, dev, total, flashed);
            && CommandsIn(r.dev.trace) == CommandsIn(dev.trace) + Lines(actions[..r.executed])
            && (forall i: nat :: i < r.executed && !(r.broke && i == r.executed - 1) ==> Succeeds(actions, dev, i))
            && (r.broke ==> r.executed > 0 && !Succeeds(actions, dev, r.executed - 1))
            && (!r.broke ==> r.executed == |actions|)
            && r.dev == DevBefore(actions, dev, r.executed)
    decreases |actions|
  {
    hide Step, CommandsIn, Line, Report;
    var r := Execute(actions, dev, total, flashed);
    EmptyUnit(CommandsIn(dev.trace));
    if actions != [] {
      var a, tail := actions[0], actions[1..];
      var (ok, d1) := Step(a, dev);
      StepSendsLine(a, dev);
      EmptyUnit(Line(a));
      if !ok {
        assert actions[..1][1..] == [] && Lines(actions[..1]) == Line(a) + Lines([]);
        assert DevBefore(actions, dev, 1) == DevBefore(tail, d1, 0);
      } else {
        var f1 := Flashed(a, flashed);
        StopsAtFirstFailure(tail, d1, total, f1);
        var q := Execute(tail, d1, total, f1);
        assert actions[..r.executed][1..] == tail[..q.executed];
        Assoc(CommandsIn(dev.trace), Line(a), Lines(tail[..q.executed]));
        forall i: nat | i < |actions|
          ensures Succeeds(actions, dev, i) == if i == 0 then ok else Succeeds(tail, d1, i - 1)
        {
        }
      }
    }
  }

  // ------------------------------------------------------------------ downloads and flashes

  /** The replies from the first that is not INFO. */
  function SkipInfo(replies: seq<Reply>): (rest: seq<Reply>)
    ensures rest != [] ==> !rest[0].Info?
    decreases |replies|
  {
    if replies != [] && replies[0].Info? then SkipInfo(replies[1..]) else replies
  }

  lemma {:induction false} CheckSkips(replies: seq<Reply>, size: nat, dataOkay: bool)
    ensures Check(replies, size, dataOkay) == Check(SkipInfo(replies), size, dataOkay)
    decreases |replies|
  {
    if replies != [] && replies[0].Info? {
      CheckSkips(replies[1..], size, dataOkay);
    }
  }

  /** How much a device that answers like this has asked for; an OKAY asks for nothing. */
  function Granted(reply: Reply): nat {
    if reply.Data? then reply.size else 0
  }

  /** A first answer that lets the download go on. */
  predicate Grants(replies: seq<Reply>, size: nat) {
    var rest := SkipInfo(replies);
    rest != [] && (rest[0].Okay? || (rest[0].Data? && rest[0].size <= size && rest[0].size < 0x8000_0000))
  }

  /** The device lets so much data come: it grants a size, the writes succeed and an OKAY follows. */
  predicate TakesDownload(dev: Dev, size: nat) {
    && dev.writes != [] && dev.writes[0] && Grants(dev.replies, size)
    && var rest := SkipInfo(dev.replies);
      && (Granted(rest[0]) > 0 ==> |dev.writes| > 1 && dev.writes[1])
      && SkipInfo(rest[1..]) != [] && SkipInfo(rest[1..])[0].Okay?
  }

  /** A download succeeds exactly if the device grants a size, the writes succeed and an OKAY follows. */
  lemma DownloadSucceedsIff(dev: Dev, cmd: string, data: seq<byte>)
    requires |data| < TWO32 && 0 < |cmd| <= 64
    ensures SendData(dev, cmd, data).0 >= 0 <==> TakesDownload(dev, |data|)
    ensures SendData(dev, cmd, data).0 >= 0 || SendData(dev, cmd, data).0 == -1
    ensures SendData(dev, cmd, data).0 >= 0 ==>
            var n := Granted(SkipInfo(dev.replies)[0]);
            && SendData(dev, cmd, data).0 == n <= |data|
            && SendData(dev, cmd, data).1.trace
               == dev.trace + [Command(cmd, true)] + if n > 0 then [Image(data[..n], true)] else []
  {
    CheckSkips(dev.replies, |data|, true);
    var rest := SkipInfo(dev.replies);
    if rest != [] {
      CheckSkips(rest[1..], 0, false);
      EmptyUnit(dev.trace + [Command(cmd, true)]);
    }
  }

  // ------------------------------------------------------------------ which actions succeed

  /** The line can be sent, and the first reply to it that is no INFO is an OKAY. */
  predicate MeetsOkay(dev: Dev, cmd: string) {
    && 0 < |cmd| <= 64 && dev.writes != [] && dev.writes[0]
    && SkipInfo(dev.replies) != [] && SkipInfo(dev.replies)[0].Okay?
  }

  /** A command without data succeeds, with the text of the OKAY, exactly if it meets one; otherwise the result is -1. */
  lemma SendSucceedsIff(dev: Dev, cmd: string)
    ensures var (r, text, d) := Send(dev, cmd);
            && (MeetsOkay(dev, cmd) ==>
                  && (r, text) == (0, SkipInfo(dev.replies)[0].text)
                  && d == Dev(SkipInfo(dev.replies)[1..], dev.writes[1..], dev.trace + [Command(cmd, true)]))
            && (!MeetsOkay(dev, cmd) ==> (r, text) == (-1, ""))
            && (|cmd| > 64 ==> d == dev)
            && (|cmd| <= 64 ==> d.trace == dev.trace + [Command(cmd, cmd != "" && dev.writes != [] && dev.writes[0])])
  {
    CheckSkips(dev.replies, 0, false);
  }

  /** Some value is the text, or ends in a star and is, up to the star, the start of the text. */
  predicate Listed(text: string, values: seq<string>) {
    exists v :: v in values && (text == v || (|v| > 1 && v[|v| - 1] == '*' && v[..|v| - 1] <= text))
  }

  lemma MatchesListed(text: string, values: seq<string>)
    ensures Matches(text, values) <==> Listed(text, values)
  {
    if Matches(text, values) {
      var n :| 0 <= n < |values| && MatchesOne(text, values[n]);
      assert values[n] in values;
    }
    if Listed(text, values) {
      var v :| v in values && (text == v || (|v| > 1 && v[|v| - 1] == '*' && v[..|v| - 1] <= text));
      var n :| 0 <= n < |values| && values[n] == v;
      assert MatchesOne(text, values[n]);
    }
  }

  /** What the callback makes of an OKAY with this text. */
  predicate Content(func: Callback, text: string) {
    func.CheckValue? ==> Listed(text, func.values) != func.invert
  }

  /** When an action is a success, told from the replies and the writes to come. */
  predicate GoesWell(a: Action, dev: Dev) {
    || a.op == NOTICE || a.func == DoNothing
    || (a.op == DOWNLOAD && a.data.Some? && TakesDownload(dev, a.size) && Content(a.func, ""))
    || (a.op == DOWNLOAD && a.data.None? && MeetsOkay(dev, DownloadCmd(a.size)) && Content(a.func, ""))
    || (a.op == COMMAND && MeetsOkay(dev, a.cmd) && Content(a.func, ""))
    || (a.op == QUERY && MeetsOkay(dev, a.cmd) && Content(a.func, SkipInfo(dev.replies)[0].text))
  }

  lemma CallIff(func: Callback, status: int, text: string)
    requires status == 0 || status == -1
    ensures Call(func, status, text) == 0 <==> func == DoNothing || (status == 0 && Content(func, text))
  {
    if func.CheckValue? {
      MatchesListed(text, func.values);
    }
    hide Matches, Listed;
  }

  lemma GoesWellIff(a: Action, dev: Dev)
    ensures Step(a, dev).0 <==> GoesWell(a, dev)
  {
    hide Call, Content, Check, Send, SendData, TakesDownload, MeetsOkay, DownloadCmd;
    match a.op
    case DOWNLOAD =>
      var cmd := DownloadCmd(a.size);
      if a.data.Some? {
        DownloadSucceedsIff(dev, cmd, a.data.value);
        CallIff(a.func, if SendData(dev, cmd, a.data.value).0 < 0 then -1 else 0, "");
      } else {
        SendSucceedsIff(dev, cmd);
        CallIff(a.func, Send(dev, cmd).0, "");
      }
    case COMMAND =>
      SendSucceedsIff(dev, a.cmd);
      CallIff(a.func, Send(dev, a.cmd).0, "");
    case QUERY =>
      SendSucceedsIff(dev, a.cmd);
      CallIff(a.func, Send(dev, a.cmd).0, Send(dev, a.cmd).1);
    case NOTICE =>
  }

  /**
   A run goes on exactly as long as the replies let every action go well: every command executed before the last met
   an OKAY unless its callback does nothing, every required query an OKAY with a text that is listed, every rejected
   one with a text that is not; and it breaks off at the first of which that is not so.
   */
  lemma RunsWhileWell(actions: seq<Action>, dev: Dev, total: nat, flashed: nat)
    ensures var r := Execute(actions, dev, total, flashed);
            && (forall i: nat :: i < r.executed && !(r.broke && i == r.executed - 1) ==> GoesWell(actions[i], DevBefore(actions, dev, i)))
            && (r.broke ==> r.executed > 0 && !GoesWell(actions[r.executed - 1], DevBefore(actions, dev, r.executed - 1)))
            && (!r.broke ==> r.executed == |actions|)
  {
    hide Execute, Step, GoesWell, CommandsIn, DevBefore;
    StopsAtFirstFailure(actions, dev, total, flashed);
    forall i: nat | i < |actions|
      ensures Succeeds(actions, dev, i) <==> GoesWell(actions[i], DevBefore(actions, dev, i))
    {
      GoesWellIff(actions[i], DevBefore(actions, dev, i));
    }
  }

  /** The pair fb_queue_flash puts in the queue. */
  predicate FlashPair(actions: seq<Action>, i: nat) {
    && i + 1 < |actions|
    && actions[i].op == DOWNLOAD && actions[i].func == Default && actions[i].data.Some?
    && actions[i + 1].op == COMMAND
  }

  /** A partition is flashed only after the download queued for it was acknowledged with OKAY. */
  lemma FlashOnlyAfterDownload(actions: seq<Action>, dev: Dev, total: nat, flashed: nat, i: nat)
    requires FlashPair(actions, i) && i + 1 < Execute(actions, dev, total, flashed).executed
    ensures TakesDownload(DevBefore(actions, dev, i), actions[i].size)
    ensures SendData(DevBefore(actions, dev, i), DownloadCmd(actions[i].size), actions[i].data.value).0 >= 0
    ensures DevBefore(actions, dev, i + 1)
            == SendData(DevBefore(actions, dev, i), DownloadCmd(actions[i].size), actions[i].data.value).1
  {
    hide Execute, SendData, DownloadCmd, TakesDownload;
    StopsAtFirstFailure(actions, dev, total, flashed);
    assert Succeeds(actions, dev, i);
    DownloadSucceedsIff(DevBefore(actions, dev, i), DownloadCmd(actions[i].size), actions[i].data.value);
    NextDev(actions, dev, i);
  }

  lemma {:induction false} NextDev(actions: seq<Action>, dev: Dev, i: nat)
    requires i < |actions|
    ensures DevBefore(actions, dev, i + 1) == Step(actions[i], DevBefore(actions, dev, i)).1
    decreases i
  {
    hide Step;
    if i > 0 {
      NextDev(actions[1..], Step(actions[0], dev).1, i - 1);
    } else {
      assert DevBefore(actions, dev, 1) == DevBefore(actions[1..], Step(actions[0], dev).1, 0);
    }
  }

  // ------------------------------------------------------------------ INFO replies change nothing

  function WithoutInfo(replies: seq<Reply>): seq<Reply> {
    if replies == [] then []
    else (if replies[0].Info? then [] else [replies[0]]) + WithoutInfo(replies[1..])
  }

  function Quiet(dev: Dev): Dev {
    dev.(replies := WithoutInfo(dev.replies))
  }

  lemma {:induction false} CheckQuiet(replies: seq<Reply>, size: nat, dataOkay: bool)
    ensures var (r, text, rest) := Check(replies, size, dataOkay);
            Check(WithoutInfo(replies), size, dataOkay) == (r, text, WithoutInfo(rest))
    decreases |replies|
  {
    if replies != [] {
      EmptyUnit(WithoutInfo(replies[1..]));
      if replies[0].Info? {
        CheckQuiet(replies[1..], size, dataOkay);
      } else {
        Skip([replies[0]], WithoutInfo(replies[1..]));
      }
    }
  }

  lemma StepQuiet(a: Action, dev: Dev)
    ensures Step(a, Quiet(dev)) == (Step(a, dev).0, Quiet(Step(a, dev).1))
  {
    hide Check, WithoutInfo, DownloadCmd, Matches, Call;
    CheckQuiet(dev.replies, 0, false);
    if a.op == DOWNLOAD && a.data.Some? {
      CheckQuiet(dev.replies, |a.data.value|, true);
      CheckQuiet(Check(dev.replies, |a.data.value|, true).2, 0, false);
    }
  }

  /** The device may send INFO as often as it likes: the run, its writes and its progress are the same without them. */
  lemma {:induction false} InfoIrrelevant(actions: seq<Action>, dev: Dev, total: nat, flashed: nat)
    ensures var r := Execute(actions, dev, total, flashed);
            Execute(actions, Quiet(dev), total, flashed) == r.(dev := Quiet(r.dev))
    decreases |actions|
  {
    hide Step, Quiet, Report, Flashed;
    if actions != [] {
      StepQuiet(actions[0], dev);
      var (ok, d1) := Step(actions[0], dev);
      if ok {
        InfoIrrelevant(actions[1..], d1, total, Flashed(actions[0], flashed));
      }
    }
  }

  // ------------------------------------------------------------------ progress

  function Sizes(actions: seq<Action>): nat {
    if actions == [] then 0 else actions[0].size + Sizes(actions[1..])
  }

  function Downloads(actions: seq<Action>): (n: nat)
    ensures n <= Sizes(actions)
  {
    if actions == [] then 0 else (if actions[0].op == DOWNLOAD then actions[0].size else 0) + Downloads(actions[1..])
  }

  predicate Ascending(s: seq<Progress>, low: nat, high: nat) {
    && (forall i :: 0 <= i < |s| ==> s[i].Shown? && low <= s[i].percent <= high)
    && (forall i, j :: 0 <= i <= j < |s| ==> s[i].percent <= s[j].percent)
  }

  function Percent(f: nat, total: nat): nat
    requires 0 < total
  {
    100 * f / total
  }

  lemma MulMono(p: nat, q: nat, d: nat)
    requires p <= q
    ensures p * d <= q * d
  {
  }

  /** The quotient, without division. */
  lemma PercentBounds(f: nat, total: nat)
    requires 0 < total
    ensures Percent(f, total) * total <= 100 * f < (Percent(f, total) + 1) * total
  {
  }

  lemma PercentMono(f: nat, g: nat, total: nat)
    requires f <= g && 0 < total
    ensures Percent(f, total) <= Percent(g, total)
  {
    hide Percent;
    PercentBounds(f, total);
    PercentBounds(g, total);
    if Percent(g, total) < Percent(f, total) {
      MulMono(Percent(g, total) + 1, Percent(f, total), total);
      assert false;
    }
  }

  lemma HundredIff(f: nat, total: nat)
    requires f <= total && 0 < total
    ensures Percent(f, total) <= 100
    ensures Percent(f, total) == 100 <==> f == total
  {
    hide Percent;
    PercentBounds(f, total);
    var p := Percent(f, total);
    if p > 100 {
      MulMono(101, p, total);
      assert false;
    } else if p < 100 {
      MulMono(p + 1, 100, total);
    }
  }

  /** As long as the sizes do not wrap, progress never goes back and never passes 100. */
  lemma {:induction false} ProgressAscends(actions: seq<Action>, dev: Dev, total: nat, flashed: nat)
    requires 0 < total < TWO32 && flashed + Downloads(actions) <= total
    ensures Ascending(Execute(actions, dev, total, flashed).progress, Percent(flashed, total), 100)
    decreases |actions|
  {
    hide Step, Percent;
    if actions != [] {
      var a, tail := actions[0], actions[1..];
      var (ok, d1) := Step(a, dev);
      var f1 := Flashed(a, flashed);
      assert f1 == flashed + if a.op == DOWNLOAD then a.size else 0;
      PercentMono(flashed, f1, total);
      HundredIff(f1, total);
      if ok {
        ProgressAscends(tail, d1, total, f1);
      }
    }
  }

  /** The total the executor computes is the true one, in 32 bits. */
  lemma {:induction false} ImageSizeTrue(actions: seq<Action>)
    ensures ImageSize(actions) == Sizes(actions) % TWO32
    decreases |actions|
  {
    if actions != [] {
      SizesSnoc(actions);
      ImageSizeTrue(actions[..|actions| - 1]);
    }
  }

  lemma {:induction false} SizesSnoc(actions: seq<Action>)
    requires actions != []
    ensures Sizes(actions) == Sizes(actions[..|actions| - 1]) + actions[|actions| - 1].size
    decreases |actions|
  {
    if |actions| > 1 {
      SizesSnoc(actions[1..]);
      assert actions[1..][..|actions| - 2] == actions[..|actions| - 1][1..];
    } else {
      assert actions[..0] == [] && actions[1..] == [];
    }
  }

  lemma DownloadsWithin(actions: seq<Action>)
    ensures Downloads(actions) <= Sizes(actions)
  {
  }

  /** fb_execute_queue reports ascending percentages up to 100 whenever padding and sizes fit in 32 bits. */
  lemma ProgressWithinBounds(actions: seq<Action>, dev: Dev, pad: nat)
    requires pad + Sizes(actions) < TWO32
    ensures Ascending(Execute(actions, dev, (ImageSize(actions) + pad) % TWO32, pad).progress, 0, 100)
  {
    hide Execute, ImageSize, Sizes, Percent;
    ImageSizeTrue(actions);
    DownloadsWithin(actions);
    var total := pad + Sizes(actions);
    if total > 0 {
      ProgressAscends(actions, dev, total, pad);
    } else {
      NoReports(actions, dev, pad);
    }
  }

  /** At every command the count, as the executor keeps it, is below so many hundredths of the total. */
  predicate CountBelow(actions: seq<Action>, total: nat, flashed: nat, bound: nat)
    decreases |actions|
  {
    actions == [] ||
    var f1 := Flashed(actions[0], flashed);
    (actions[0].op == COMMAND ==> 100 * f1 < bound * total) && CountBelow(actions[1..], total, f1, bound)
  }

  /** Every report is a number below the bound. */
  predicate ReportsBelow(progress: seq<Progress>, bound: nat) {
    forall i :: 0 <= i < |progress| ==> progress[i].Shown? && progress[i].percent < bound
  }

  lemma ReportsBelowAppend(a: seq<Progress>, b: seq<Progress>, bound: nat)
    ensures ReportsBelow(a + b, bound) <==> ReportsBelow(a, bound) && ReportsBelow(b, bound)
  {
    if ReportsBelow(a + b, bound) {
      assert forall i :: 0 <= i < |a| ==> (a + b)[i] == a[i];
      assert forall i :: 0 <= i < |b| ==> (a + b)[|a| + i] == b[i];
    }
  }

  lemma PercentBelowIff(f: nat, total: nat, bound: nat)
    requires 0 < total
    ensures Percent(f, total) < bound <==> 100 * f < bound * total
  {
    hide Percent;
    PercentBounds(f, total);
    var p := Percent(f, total);
    if p < bound {
      MulMono(p + 1, bound, total);
    } else {
      MulMono(bound, p, total);
    }
  }

  /**
   Wrapping or not, and however the run ends, every report is a number below the bound exactly if the sizes of
   the actions executed keep the count below it: with 101 for reports within 100, with 2^31 for reports that are
   numbers at all. A queue that keeps the count below the bound does so in every run.
   */
  lemma {:induction false} ReportsBelowIff(actions: seq<Action>, dev: Dev, total: nat, flashed: nat, bound: nat)
    requires 0 < total && bound <= TWO32 / 2
    ensures var r := Execute(actions, dev, total, flashed);
            && (ReportsBelow(r.progress, bound) <==> CountBelow(actions[..r.executed], total, flashed, bound))
            && (!r.broke ==> r.executed == |actions|)
            && (CountBelow(actions, total, flashed, bound) ==> ReportsBelow(r.progress, bound))
    decreases |actions|
  {
    hide Step, Percent, ReportsBelow, Flashed;
    if actions == [] {
      OneReport(Act(NOTICE, "", None, 0, Default), total, 0, bound);
    } else {
      var a, tail := actions[0], actions[1..];
      var (ok, d1) := Step(a, dev);
      var f1 := Flashed(a, flashed);
      PercentBelowIff(f1, total, bound);
      OneReport(a, total, f1, bound);
      var r := Execute(actions, dev, total, flashed);
      if ok {
        ReportsBelowIff(tail, d1, total, f1, bound);
        var q := Execute(tail, d1, total, f1);
        ReportsBelowAppend(Report(a, total, f1), q.progress, bound);
        assert actions[..r.executed][1..] == tail[..q.executed];
      } else {
        assert actions[..1][1..] == [];
      }
    }
  }

  lemma OneReport(a: Action, total: nat, f: nat, bound: nat)
    requires bound <= TWO32 / 2
    ensures ReportsBelow(Report(a, total, f), bound) <==> (a.op == COMMAND && total != 0 ==> Percent(f, total) < bound)
  {
    hide Percent;
    if a.op == COMMAND && total != 0 {
      assert Report(a, total, f)[0] == Converted(Percent(f, total));
    }
  }

  lemma {:induction false} NoReports(actions: seq<Action>, dev: Dev, flashed: nat)
    ensures Execute(actions, dev, 0, flashed).progress == []
    decreases |actions|
  {
    hide Step, Flashed;
    if actions != [] {
      NoReports(actions[1..], Step(actions[0], dev).1, Flashed(actions[0], flashed));
    }
  }

  function CommandCount(actions: seq<Action>): nat {
    if actions == [] then 0 else (if actions[0].op == COMMAND then 1 else 0) + CommandCount(actions[1..])
  }

  /** There is one report for every command executed, the one that fails included, if there is a total at all. */
  lemma {:induction false} OneReportEach(actions: seq<Action>, dev: Dev, total: nat, flashed: nat)
    ensures var r := Execute(actions, dev, total, flashed);
            |r.progress| == if total == 0 then 0 else CommandCount(actions[..r.executed])
    decreases |actions|
  {
    hide Step, Percent, Flashed;
    if actions != [] {
      var a, tail := actions[0], actions[1..];
      var (ok, d1) := Step(a, dev);
      var f1 := Flashed(a, flashed);
      var r := Execute(actions, dev, total, flashed);
      if ok {
        OneReportEach(tail, d1, total, f1);
        assert actions[..r.executed][1..] == tail[..Execute(tail, d1, total, f1).executed];
      } else {
        assert actions[..1][1..] == [];
      }
    }
  }

  /** A whole run ends at 100 exactly if no action but the downloads has a size; a require counts its values. */
  lemma {:induction false} EndsAtHundredIff(actions: seq<Action>, dev: Dev, total: nat, flashed: nat)
    requires 0 < total < TWO32 && flashed + Downloads(actions) <= total
    requires actions != [] && actions[|actions| - 1].op == COMMAND
    requires !Execute(actions, dev, total, flashed).broke
    ensures var p := Execute(actions, dev, total, flashed).progress;
            p != [] && (p[|p| - 1] == Shown(100) <==> flashed + Downloads(actions) == total)
    decreases |actions|
  {
    hide Step, Percent;
    var a, tail := actions[0], actions[1..];
    var (ok, d1) := Step(a, dev);
    var f1 := Flashed(a, flashed);
    assert f1 == flashed + if a.op == DOWNLOAD then a.size else 0;
    if tail == [] {
      assert Downloads(actions) == 0;
      HundredIff(f1, total);
    } else {
      EndsAtHundredIff(tail, d1, total, f1);
    }
  }

  /**
   Sizes that wrap: two downloads of 2 GB leave the total at the padding, so the report in between is far beyond
   100, and beyond int for a padding of one.
   */
  lemma ProgressCanOverflow(pad: nat) returns (actions: seq<Action>, dev: Dev)
    requires 0 < pad < TWO32 / 2
    ensures var p := Execute(actions, dev, (ImageSize(actions) + pad) % TWO32, pad).progress;
            && p == [Converted(Percent(pad + TWO32 / 2, pad))]
            && (pad == TWO32 / 4 ==> p == [Shown(300)])
            && (pad == 1 ==> p == [OutOfInt])
  {
    var data := Zeros(TWO32 / 2);
    actions := TwiceTheData(data);
    dev := Dev([Data(0), Okay(""), Okay("")], [true, true], []);
    hide TwiceTheData, Zeros, Execute, Percent, Converted, ImageSize;
    OverflowRun(data, pad);
    OverflowValues(pad);
  }

  function Zeros(n: nat): (s: seq<byte>)
    ensures |s| == n
  {
    seq(n, _ => 0)
  }

  /** A download, a flash, and the download again. */
  function TwiceTheData(data: seq<byte>): seq<Action>
    requires |data| < TWO32
  {
    var download: Action := Act(DOWNLOAD, "", Some(data), |data|, Default);
    [download, Act(COMMAND, "flash:a", None, 0, Default), download]
  }

  lemma OverflowRun(data: seq<byte>, pad: nat)
    requires |data| == TWO32 / 2 && 0 < pad < TWO32 / 2
    ensures Execute(TwiceTheData(data), Dev([Data(0), Okay(""), Okay("")], [true, true], []), pad, pad).progress
            == [Converted(Percent(pad + TWO32 / 2, pad))]
    ensures (ImageSize(TwiceTheData(data)) + pad) % TWO32 == pad
  {
    hide Step, Execute, Percent, Converted, ImageSize;
    var download: Action := Act(DOWNLOAD, "", Some(data), |data|, Default);
    var flash: Action := Act(COMMAND, "flash:a", None, 0, Default);
    SizeOfThree(download, flash);
    var dev1, dev2 := StepsOfThree(data);
    RunOfThree(download, flash, Dev([Data(0), Okay(""), Okay("")], [true, true], []), dev1, dev2, pad);
  }

  /** The first download is granted nothing and acknowledged, the flash is acknowledged, and then no write succeeds. */
  lemma StepsOfThree(data: seq<byte>) returns (dev1: Dev, dev2: Dev)
    requires |data| == TWO32 / 2
    ensures var download: Action := Act(DOWNLOAD, "", Some(data), TWO32 / 2, Default);
            var flash: Action := Act(COMMAND, "flash:a", None, 0, Default);
            && Step(download, Dev([Data(0), Okay(""), Okay("")], [true, true], [])) == (true, dev1)
            && Step(flash, dev1) == (true, dev2) && !Step(download, dev2).0
  {
    hide DownloadCmd, SendData, Send;
    var cmd := DownloadCmd(TWO32 / 2);
    dev1 := Dev([Okay("")], [true], [Command(cmd, true)]);
    dev2 := Dev([], [], [Command(cmd, true), Command("flash:a", true)]);
    EmptyDownload(cmd, data);
    Acknowledged(dev1, "flash:a", dev2);
    NothingWritable(dev2, cmd, data);
  }

  lemma OverflowValues(pad: nat)
    requires 0 < pad
    ensures pad == TWO32 / 4 ==> Converted(Percent(pad + TWO32 / 2, pad)) == Shown(300)
    ensures pad == 1 ==> Converted(Percent(pad + TWO32 / 2, pad)) == OutOfInt
  {
    OverflowFixed();
    hide Percent, Converted;
  }

  lemma OverflowFixed()
    ensures Converted(Percent(0x4000_0000 + 0x8000_0000, 0x4000_0000)) == Shown(300)
    ensures Converted(Percent(1 + 0x8000_0000, 1)) == OutOfInt
  {
    hide Percent;
    PercentBounds(0x4000_0000 + 0x8000_0000, 0x4000_0000);
    PercentBounds(1 + 0x8000_0000, 1);
  }

  lemma RunOfThree(download: Action, flash: Action, dev: Dev, dev1: Dev, dev2: Dev, pad: nat)
    requires 0 < pad < TWO32 / 2
    requires download.op == DOWNLOAD && download.size == TWO32 / 2 && flash.op == COMMAND
    requires Step(download, dev) == (true, dev1) && Step(flash, dev1) == (true, dev2) && !Step(download, dev2).0
    ensures Execute([download, flash, download], dev, pad, pad).progress == [Converted(Percent(pad + TWO32 / 2, pad))]
  {
    hide Step, Percent;
    var f := TWO32 / 2 + pad;
    var actions := [download, flash, download];
    assert actions[1..] == [flash, download] && actions[1..][1..] == [download];
    assert Execute([download], dev2, pad, f).progress == [];
    assert Execute([flash, download], dev1, pad, f).progress == [Converted(Percent(f, pad))] + [];
    assert Execute(actions, dev, pad, pad).progress == [] + [Converted(Percent(f, pad))];
  }

  lemma EmptyDownload(cmd: string, data: seq<byte>)
    requires 0 < |cmd| <= 64 && |data| < TWO32
    ensures SendData(Dev([Data(0), Okay(""), Okay("")], [true, true], []), cmd, data)
            == (0, Dev([Okay("")], [true], [Command(cmd, true)]))
  {
    var replies := [Data(0), Okay(""), Okay("")];
    assert replies[1..] == [Okay(""), Okay("")] && replies[1..][1..] == [Okay("")];
    assert [true, true][1..] == [true];
    assert [] + [Command(cmd, true)] == [Command(cmd, true)];
    assert Check(replies, |data|, true) == (0, "", replies[1..]);
    assert Check(replies[1..], 0, false) == (0, "", [Okay("")]);
  }

  lemma Acknowledged(dev: Dev, cmd: string, dev': Dev)
    requires 0 < |cmd| <= 64 && dev.replies == [Okay("")] && dev.writes == [true]
    requires dev' == Dev([], [], dev.trace + [Command(cmd, true)])
    ensures Send(dev, cmd) == (0, "", dev')
  {
    assert [true][1..] == [] && dev.replies[1..] == [];
  }

  lemma NothingWritable(dev: Dev, cmd: string, data: seq<byte>)
    requires 0 < |cmd| <= 64 && |data| < TWO32 && dev.writes == []
    ensures SendData(dev, cmd, data).0 == -1
  {
  }

  lemma SizeOfThree(download: Action, flash: Action)
    requires download.size == TWO32 / 2 && flash.size == 0
    ensures ImageSize([download, flash, download]) == 0
  {
    var actions := [download, flash, download];
    assert actions[..2] == [download, flash] && actions[..2][..1] == [download] && actions[..2][..1][..0] == [];
    assert ImageSize([download]) == TWO32 / 2;
    assert ImageSize([download, flash]) == TWO32 / 2;
  }
}
