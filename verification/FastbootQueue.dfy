/**
 The fastboot class of mdmfastboot/fastbootflash.cpp: the linked queue of actions, filled at its tail and walked
 by the executor, and the command protocol over a device.
 */
module FastbootQueue {
  import opened Bytes
  import opened Seqs
  import opened Words
  import opened Fastboot

  /** The device and the progress dialog, as the engine sees them. */
  class Device {
    var replies: seq<Reply>
    var writes: seq<bool>
    var trace: seq<Wire>
    var progress: seq<Progress>

    constructor (replies: seq<Reply>, writes: seq<bool>)
      ensures Snapshot() == Dev(replies, writes, []) && progress == []
    {
      this.replies, this.writes, trace, progress := replies, writes, [], [];
    }

    ghost function Snapshot(): Dev
      reads this`replies, this`writes, this`trace
    {
      Dev(replies, writes, trace)
    }

    /** usb_write of a command line or of image data. */
    method Write(w: Wire) returns (ok: bool)
      requires w.ok == Writable(Snapshot())
      modifies this`writes, this`trace
      ensures ok == w.ok && Snapshot() == Put(old(Snapshot()), w)
    {
      ok := writes != [] && writes[0];
      trace := trace + [w];
      if writes != [] {
        writes := writes[1..];
      }
    }

    /** check_response */
    method CheckResponse(size: nat, dataOkay: bool) returns (r: int, response: string)
      modifies this`replies
      ensures (r, response, replies) == Check(old(replies), size, dataOkay)
    {
      while true
        invariant Check(old(replies), size, dataOkay) == Check(replies, size, dataOkay)
        decreases |replies|
      {
        if replies == [] {
          return -1, "";
        }
        var reply := replies[0];
        replies := replies[1..];
        match reply {
          case Info(_) =>
          case Okay(text) => return 0, text;
          case Fail => return -1, "";
          case Data(dsize) =>
            if dataOkay {
              if dsize > size {
                return -1, "";
              }
              return ToInt32(dsize), "";
            }
            return -1, "";
          case Unknown => return -1, "";
          case Unreadable => return -1, "";
        }
      }
    }

    /** _command_send without data: fb_command and fb_command_response. */
    method CommandSend(cmd: string) returns (r: int, response: string)
      modifies this`replies, this`writes, this`trace
      ensures (r, response, Snapshot()) == Send(old(Snapshot()), cmd)
      ensures r == (if MeetsOkay(old(Snapshot()), cmd) then 0 else -1)
    {
      SendSucceedsIff(Snapshot(), cmd);
      hide Check;
      if |cmd| > 64 {
        return -1, "";
      }
      if cmd == "" {
        WriteNothing();
        return -1, "";
      }
      var ok := Write(Command(cmd, writes != [] && writes[0]));
      if !ok {
        return -1, "";
      }
      r, response := CheckResponse(0, false);
    }

    /** usb_write of no octets, which fails without a transfer. */
    method WriteNothing()
      modifies this`trace
      ensures Snapshot() == Refuse(old(Snapshot()))
    {
      trace := trace + [Command("", false)];
    }

    /** _command_send with data. */
    method CommandSendData(cmd: string, data: seq<byte>) returns (r: int)
      requires |data| < TWO32 && 0 < |cmd| <= 64
      modifies this`replies, this`writes, this`trace
      ensures (r, Snapshot()) == SendData(old(Snapshot()), cmd, data)
    {
      hide Check;
      var ok := Write(Command(cmd, writes != [] && writes[0]));
      if !ok {
        return -1;
      }
      CheckBounded(replies, |data|, true);
      var response;
      r, response := CheckResponse(|data|, true);
      if r < 0 {
        return -1;
      }
      var size: nat := r;
      if size != 0 {
        ok := Write(Image(data[..size], writes != [] && writes[0]));
        if !ok {
          return -1;
        }
      }
      r, response := CheckResponse(0, false);
      r := if r < 0 then -1 else size;
    }
  }

  class ActionNode {
    var op: Op
    var next: ActionNode?
    var cmd: string
    var data: Option<seq<byte>>
    var size: nat
    var func: Callback

    ghost function Value(): Act
      reads this`op, this`cmd, this`data, this`size, this`func
    {
      Act(op, cmd, data, size, func)
    }

    constructor (op: Op, cmd: string)
      ensures this.op == op && this.cmd == cmd && next == null && data == None && size == 0 && func == Default
    {
      this.op, this.cmd, next, data, size, func := op, cmd, null, None, 0, Default;
    }
  }

  ghost function NodeAt(nodes: seq<ActionNode>, i: int): ActionNode? {
    if 0 <= i < |nodes| then nodes[i] else null
  }

  ghost predicate Chained(nodes: seq<ActionNode>)
    reads nodes`next
  {
    && (forall i :: 0 <= i < |nodes| ==> nodes[i].next == NodeAt(nodes, i + 1))
    && (forall i, j :: 0 <= i < j < |nodes| ==> nodes[i] != nodes[j])
  }

  /** The nodes hold these actions. */
  ghost predicate Hold(nodes: seq<ActionNode>, acts: seq<Action>)
    reads nodes`op, nodes`cmd, nodes`data, nodes`size, nodes`func
  {
    |nodes| == |acts| && forall i :: 0 <= i < |nodes| ==> nodes[i].Value() == acts[i]
  }

  lemma HoldSnoc(nodes: seq<ActionNode>, acts: seq<Action>, a: ActionNode)
    requires Hold(nodes, acts) && Queueable(a.Value())
    ensures Hold(nodes + [a], acts + [a.Value()])
  {
  }

  class FastbootEngine {
    var actionList: ActionNode?
    var actionLast: ActionNode?
    ghost var spine: seq<ActionNode>
    /** The queue, oldest first. */
    ghost var queue: seq<Action>

    ghost predicate Valid()
      reads this, spine
    {
      && actionList == NodeAt(spine, 0) && actionLast == NodeAt(spine, |spine| - 1)
      && |queue| == |spine| && Chained(spine) && Hold(spine, queue)
    }

    constructor ()
      ensures Valid() && queue == []
    {
      actionList, actionLast, spine, queue := null, null, [], [];
    }

    /**
     queue_action: a new action at the tail, still without data. A command of 64 characters or more does not fit
     its field, and what the code then does is not defined; the model returns null.
     */
    method QueueAction(op: Op, cmd: string) returns (a: ActionNode?)
      requires Valid()
      modifies this, spine`next
      ensures Valid() && (a == null <==> |cmd| >= 64)
      ensures a == null ==> spine == old(spine) && queue == old(queue)
      ensures a != null ==> fresh(a) && spine == old(spine) + [a] && a.op == op && a.cmd == cmd
      ensures a != null ==> queue == old(queue) + [Act(op, cmd, None, 0, Default)]
    {
      if |cmd| >= 64 {
        return null;
      }
      a := new ActionNode(op, cmd);
      Append(a);
    }

    /** The list surgery of queue_action. */
    method Append(a: ActionNode)
      requires Valid() && a !in spine && a.next == null && Queueable(a.Value())
      modifies this, spine`next
      ensures Valid() && spine == old(spine) + [a] && queue == old(queue) + [a.Value()]
    {
      hide Hold;
      HoldSnoc(spine, queue, a);
      if actionLast != null {
        actionLast.next := a;
      } else {
        actionList := a;
      }
      actionLast := a;
      spine := spine + [a];
      queue := queue + [a.Value()];
    }

    /** What the callers of queue_action store into the action they get back. */
    method Fill(a: ActionNode, data: Option<seq<byte>>, size: nat, func: Callback)
      requires Valid() && spine != [] && a == spine[|spine| - 1]
      requires size < TWO32 && (a.op == DOWNLOAD && data.Some? ==> |data.value| == size)
      modifies a`data, a`size, a`func, this`queue
      ensures Valid() && queue == old(queue[..|spine| - 1]) + [Act(old(a.op), old(a.cmd), data, size, func)]
    {
      hide NodeAt;
      ghost var n := |spine| - 1;
      Walk(n);
      a.data, a.size, a.func := data, size, func;
      queue := queue[..n] + [Act(a.op, a.cmd, data, size, func)];
    }

    /** Where the walk over the queue stands at the i-th action, and where it goes next. */
    lemma Walk(i: nat)
      requires Valid() && i < |spine|
      ensures spine[i].Value() == queue[i] && spine[i].next == NodeAt(spine, i + 1)
    {
    }

    /** fb_queue_erase; like all that follow, it says whether the command fitted its field. */
    method QueueErase(ptn: string) returns (defined: bool)
      requires Valid()
      modifies this, spine
      ensures Valid() && (defined <==> |ptn| < 58)
      ensures queue == if defined then old(queue) + [Act(COMMAND, "erase:" + ptn, None, 0, Default)] else old(queue)
    {
      var a := QueueAction(COMMAND, "erase:" + ptn);
      defined := a != null;
    }

    /** fb_queue_download, and the first half of fb_queue_flash. */
    method QueueDownload(data: Option<seq<byte>>, size: nat)
      requires Valid() && size < TWO32 && (data.Some? ==> |data.value| == size)
      modifies this, spine
      ensures Valid() && queue == old(queue) + [Act(DOWNLOAD, "", data, size, Default)]
      ensures |spine| == |old(spine)| + 1 && spine[..|old(spine)|] == old(spine) && fresh(spine[|old(spine)|])
    {
      hide Chained, Hold, NodeAt;
      var a := QueueAction(DOWNLOAD, "");
      Skip(old(queue), [queue[|queue| - 1]]);
      Fill(a, data, size, Default);
    }

    /** The download always comes right before the flash of the same partition. */
    method QueueFlash(ptn: string, data: seq<byte>) returns (defined: bool)
      requires Valid() && |data| < TWO32
      modifies this, spine
      ensures Valid() && (defined <==> |ptn| < 58)
      ensures var download := [Act(DOWNLOAD, "", Some(data), |data|, Default)];
              queue == old(queue) + download + if defined then [Act(COMMAND, "flash:" + ptn, None, 0, Default)] else []
      ensures defined ==> FlashPair(queue, |old(queue)|)
    {
      hide Chained, Hold, NodeAt;
      QueueDownload(Some(data), |data|);
      EmptyUnit(queue);
      var a := QueueAction(COMMAND, "flash:" + ptn);
      defined := a != null;
    }

    /** fb_queue_require: the size counts the accepted values. */
    method QueueRequire(name: string, invert: bool, values: seq<string>) returns (defined: bool)
      requires Valid() && |values| < TWO32
      modifies this, spine
      ensures Valid() && (defined <==> |name| < 57)
      ensures queue == if defined then old(queue) + [Act(QUERY, "getvar:" + name, None, |values|, CheckValue(values, invert))]
                       else old(queue)
    {
      hide Chained, Hold, NodeAt;
      var a := QueueAction(QUERY, "getvar:" + name);
      defined := a != null;
      if defined {
        Skip(old(queue), [queue[|queue| - 1]]);
        Fill(a, None, |values|, CheckValue(values, invert));
      }
    }

    method QueueDisplay(name: string) returns (defined: bool)
      requires Valid()
      modifies this, spine
      ensures Valid() && (defined <==> |name| < 57)
      ensures queue == if defined then old(queue) + [Act(QUERY, "getvar:" + name, None, 0, Display)] else old(queue)
    {
      hide Chained, Hold, NodeAt;
      var a := QueueAction(QUERY, "getvar:" + name);
      defined := a != null;
      if defined {
        Skip(old(queue), [queue[|queue| - 1]]);
        Fill(a, None, 0, Display);
      }
    }

    /** A reboot always counts as done. */
    method QueueReboot()
      requires Valid()
      modifies this, spine
      ensures Valid() && queue == old(queue) + [Act(COMMAND, "reboot", None, 0, DoNothing)]
    {
      hide Chained, Hold, NodeAt;
      var a := QueueAction(COMMAND, "reboot");
      Skip(old(queue), [queue[|queue| - 1]]);
      Fill(a, None, 0, DoNothing);
    }

    /** fb_queue_command, which passes the command as a format: what is queued is what that format prints. */
    method QueueCommand(cmd: string) returns (defined: bool)
      requires Valid()
      modifies this, spine
      ensures Valid() && (defined <==> Formatted(cmd).Some? && |Formatted(cmd).value| < 64)
      ensures queue == if defined then old(queue) + [Act(COMMAND, Formatted(cmd).value, None, 0, Default)] else old(queue)
      ensures |cmd| < 64 && '%' !in cmd ==> defined && queue == old(queue) + [Act(COMMAND, cmd, None, 0, Default)]
    {
      hide Formatted;
      FormattedIff(cmd);
      var line := Formatted(cmd);
      if line.None? {
        return false;
      }
      var a := QueueAction(COMMAND, line.value);
      defined := a != null;
    }

    method QueueNotice()
      requires Valid()
      modifies this, spine
      ensures Valid() && queue == old(queue) + [Act(NOTICE, "", None, 0, Default)]
    {
      var a := QueueAction(NOTICE, "");
    }

    /** remove_action: every action is detached, and the queue is empty. */
    method RemoveAction()
      requires Valid()
      modifies this, spine
      ensures Valid() && queue == []
      ensures forall n :: n in old(spine) ==> n.next == null
    {
      ghost var nodes := spine;
      ghost var i := 0;
      while actionList != null
        invariant 0 <= i <= |nodes| && actionList == NodeAt(nodes, i) && nodes == old(spine)
        invariant forall j :: i <= j < |nodes| ==> nodes[j].next == NodeAt(nodes, j + 1)
        invariant forall j :: 0 <= j < i ==> nodes[j].next == null
        decreases |nodes| - i
      {
        var a := actionList;
        actionList := a.next;
        a.data := None;
        a.func := Default;
        a.next := null;
        i := i + 1;
      }
      actionList := null;
      actionLast := null;
      spine, queue := [], [];
    }

    /** image_size, which adds up all sizes in 32 bits. */
    method ImageSize() returns (total: nat)
      requires Valid()
      ensures total == Fastboot.ImageSize(queue)
    {
      hide Chained, Hold;
      total := 0;
      var a := actionList;
      ghost var i := 0;
      while a != null
        invariant 0 <= i <= |spine| && a == NodeAt(spine, i)
        invariant total == Fastboot.ImageSize(queue[..i])
        decreases |spine| - i
      {
        Walk(i);
        assert queue[..i + 1][..i] == queue[..i];
        total := (total + a.size) % TWO32;
        a := a.next;
        i := i + 1;
      }
      TakeAll(queue);
    }

    /** match */
    method Match(str: string, value: seq<string>) returns (matched: bool)
      ensures matched == Matches(str, value)
    {
      var n := 0;
      while n < |value|
        invariant 0 <= n <= |value| && forall k :: 0 <= k < n ==> !MatchesOne(str, value[k])
      {
        var val := value[n];
        var len := |val|;
        if len > 1 && val[len - 1] == '*' {
          len := len - 1;
          matched := val[..len] <= str;
        } else {
          matched := val == str;
        }
        if matched {
          return true;
        }
        n := n + 1;
      }
      matched := false;
    }

    /** The callbacks cb_default, cb_do_nothing, cb_display and cb_check. */
    method CallBack(func: Callback, status: int, resp: string) returns (r: int)
      ensures r == Call(func, status, resp)
    {
      match func {
        case Default => r := status;
        case DoNothing => r := 0;
        case Display => r := status;
        case CheckValue(values, invert) =>
          if status != 0 {
            return status;
          }
          var yes := Match(resp, values);
          if invert {
            yes := !yes;
          }
          r := if yes then 0 else -1;
      }
    }

    /** One turn of the loop of fb_execute_queue: whether the action's callback failed. */
    method ExecuteOne(a: ActionNode, dev: Device, total: nat, flashed: nat) returns (broke: bool, flashed': nat)
      requires Queueable(a.Value())
      modifies dev
      ensures (!broke, dev.Snapshot()) == Step(a.Value(), old(dev.Snapshot()))
      ensures flashed' == Flashed(a.Value(), flashed)
      ensures dev.progress == old(dev.progress) + Report(a.Value(), total, flashed')
    {
      hide Send, SendData, Call, DownloadCmd;
      EmptyUnit(dev.progress);
      broke, flashed' := false, flashed;
      match a.op {
        case DOWNLOAD =>
          var status;
          if a.data.None? {
            var resp;
            status, resp := dev.CommandSend(DownloadCmd(a.size));
          } else {
            status := dev.CommandSendData(DownloadCmd(a.size), a.data.value);
          }
          status := CallBack(a.func, if status < 0 then -1 else 0, "");
          broke := status != 0;
          flashed' := (flashed + a.size) % TWO32;
        case COMMAND =>
          var status, resp := dev.CommandSend(a.cmd);
          status := CallBack(a.func, status, "");
          broke := status != 0;
          if total != 0 {
            dev.progress := dev.progress + [Converted(Percent(flashed, total))];
          }
        case QUERY =>
          var status, resp := dev.CommandSend(a.cmd);
          status := CallBack(a.func, status, resp);
          broke := status != 0;
        case NOTICE =>
      }
    }

    /** fb_execute_queue */
    method ExecuteQueue(dev: Device, padSize: nat) returns (broke: bool)
      requires Valid() && padSize < TWO32
      modifies dev
      ensures Valid() && spine == old(spine) && queue == old(queue)
      ensures var r := Execute(queue, old(dev.Snapshot()), (Fastboot.ImageSize(queue) + padSize) % TWO32, padSize);
              broke == r.broke && dev.Snapshot() == r.dev && dev.progress == old(dev.progress) + r.progress
    {
      hide Step, Report, Flashed, Fastboot.ImageSize, Chained, Hold;

      var size := ImageSize();
      TakeAll(queue);
      var total := (size + padSize) % TWO32;
      var flashed := padSize;
      var a := actionList;
      ghost var i := 0;
      ghost var acts := queue;
      ghost var d0, p0 := dev.Snapshot(), dev.progress;
      broke := false;
      EmptyUnit(dev.progress);
      while a != null
        invariant Valid() && 0 <= i <= |spine| && a == NodeAt(spine, i) && acts == queue && !broke
        invariant spine == old(spine)
        invariant var r := Execute(acts, d0, total, padSize);
                  var q := Execute(acts[i..], dev.Snapshot(), total, flashed);
                  r.broke == q.broke && r.dev == q.dev && p0 + r.progress == dev.progress + q.progress
        decreases |spine| - i
      {
        ghost var before, flashedBefore, progress := dev.Snapshot(), flashed, dev.progress;
        Walk(i);
        assert acts[i] == a.Value();
        assert acts[i..][0] == acts[i] && acts[i..][1..] == acts[i + 1..];
        broke, flashed := ExecuteOne(a, dev, total, flashed);
        ghost var rest := Execute(acts[i + 1..], dev.Snapshot(), total, flashed).progress;
        Assoc(progress, Report(acts[i], total, flashed), rest);
        if broke {
          break;
        }
        a := a.next;
        i := i + 1;
      }
      EmptyUnit(dev.progress);
    }
  }
}
