/** The writing half of a connection, `dispatchTCP`, with its concurrency removed: each wake-up
    drains the inbound queue (answering heartbeats itself, handing everything else to the
    operator) and then forwards the outbound queue verbatim, stopping at the first failure. */
module Dispatch {
  import opened Wrappers
  import opened Proto

  /** The collaborators of the write task.
      - `operate`: the operator's fallible `Operate`, returning the frame it turned into a reply;
      - `lazy(i)`: whether `trd.Lazy(hb)` holds when the i-th inbound frame the task handles is a heartbeat;
      - `rearmOk(i)`: whether the `tr.Add` of a re-arm at the i-th inbound frame succeeds;
      - `writeOk(n)`: whether `writeTCPResponse` succeeds for the frame written after n others;
      - `startOk`: whether the initial heartbeat timer could be added. */
  datatype Env = Env(
    codes: OpCodes,
    operate: Frame -> Option<Frame>,
    lazy: nat -> bool,
    rearmOk: nat -> bool,
    writeOk: nat -> bool,
    startOk: bool)

  datatype DispatchError = TimerAddFailed | OperateFailed | WriteFailed

  /** The write task's progress: frames written, inbound frames handled, timer re-arms (each a
      `Del` followed by an `Add`). */
  datatype Task = Task(out: seq<Frame>, handled: nat, rearms: nat)

  /** The heartbeat answer: the same frame, body cleared, operation `OP_HEARTBEAT_REPLY`. */
  function HeartbeatReply(env: Env, f: Frame): Frame
  {
    f.(body := None, op := env.codes.heartbeatReply)
  }

  /** Reference answer to one inbound frame, ignoring the timer and the socket: a heartbeat is
      answered locally, anything else by `Operate`, which may fail. */
  function Answer(env: Env, f: Frame): Option<Frame>
  {
    if f.op == env.codes.heartbeat then Some(HeartbeatReply(env, f)) else env.operate(f)
  }

  /** Does the inbound frame at absolute index i re-arm the timer? */
  predicate Rearms(env: Env, f: Frame, i: nat)
  {
    f.op == env.codes.heartbeat && !env.lazy(i)
  }

  /** Is i the absolute index of a frame of `cli`, handled from index `base` on, that re-arms? */
  predicate RearmsAt(env: Env, base: nat, cli: seq<Frame>, i: nat)
  {
    base <= i < base + |cli| && Rearms(env, cli[i - base], i)
  }

  /** The absolute indices, among `cli` handled from index `base` on, that re-arm the timer. */
  ghost function RearmPoints(env: Env, base: nat, cli: seq<Frame>): set<nat>
  {
    set i: nat | base <= i < base + |cli| && RearmsAt(env, base, cli, i)
  }

  /** One iteration of the first drain loop of `dispatchTCP`, on the task's next inbound frame.
      A heartbeat re-arms the timer unless the deadline is within its lazy window and is then
      answered locally; any other frame goes to `Operate`. The answer is then written. */
  function HandleOne(env: Env, t: Task, f: Frame): (r: (Task, Option<DispatchError>))
    ensures var (t1, e) := r;
      && t1.rearms == t.rearms + (if Rearms(env, f, t.handled) then 1 else 0)
      && (e.None? <==>
            Answer(env, f).Some? && (Rearms(env, f, t.handled) ==> env.rearmOk(t.handled)) && env.writeOk(|t.out|))
      && (e.None? ==> t1.out == t.out + [Answer(env, f).value] && t1.handled == t.handled + 1)
      && (e.Some? ==> t1.out == t.out && t1.handled == t.handled)
      && (e == Some(OperateFailed) ==> f.op != env.codes.heartbeat && env.operate(f).None?)
      && (e == Some(TimerAddFailed) ==> Rearms(env, f, t.handled) && !env.rearmOk(t.handled))
      && (e == Some(WriteFailed) ==> Answer(env, f).Some? && !env.writeOk(|t.out|))
  {
    var i := t.handled;
    if f.op == env.codes.heartbeat then
      // re-arm (Del, then Add) unless the current deadline is still within the lazy window
      var rearm := !env.lazy(i);
      var t1 := t.(rearms := if rearm then t.rearms + 1 else t.rearms);
      if rearm && !env.rearmOk(i) then (t1, Some(TimerAddFailed))
      else if !env.writeOk(|t1.out|) then (t1, Some(WriteFailed))
      else (t1.(out := t1.out + [HeartbeatReply(env, f)], handled := i + 1), None)
    else
      match env.operate(f)
      case None => (t, Some(OperateFailed))
      case Some(g) =>
        if !env.writeOk(|t.out|) then (t, Some(WriteFailed))
        else (t.(out := t.out + [g], handled := i + 1), None)
  }

  /** The first drain loop of `dispatchTCP`: inbound frames are handled in arrival order until the
      queue is empty or a timer add, `Operate` or write fails. Each handled frame adds one written
      frame; `DrainClientAnswers` says which. */
  function DrainClient(env: Env, t: Task, cli: seq<Frame>): (r: (Task, Option<DispatchError>))
    ensures var (t', e) := r;
      && t.handled <= t'.handled <= t.handled + |cli| && t.rearms <= t'.rearms
      && |t'.out| == |t.out| + (t'.handled - t.handled)
      && (e.None? <==> t'.handled == t.handled + |cli|)
    decreases |cli|
  {
    if |cli| == 0 then (t, None)
    else
      var (t1, e) := HandleOne(env, t, cli[0]);
      if e.Some? then (t1, e) else DrainClient(env, t1, cli[1..])
  }

  /** What a drain writes and why it stops: the first k inbound frames are answered, in order,
      each with its reference `Answer`, after what was written before; if the drain stops early,
      frame k is the one whose timer add, `Operate` or write failed. */
  lemma {:induction false} DrainClientAnswers(env: Env, t: Task, cli: seq<Frame>)
    ensures var (t', e) := DrainClient(env, t, cli); var k := t'.handled - t.handled;
      && t'.out[..|t.out|] == t.out
      && (forall j :: 0 <= j < k ==> Answer(env, cli[j]) == Some(t'.out[|t.out| + j]))
      && (e == Some(OperateFailed) ==> cli[k].op != env.codes.heartbeat && env.operate(cli[k]).None?)
      && (e == Some(TimerAddFailed) ==> Rearms(env, cli[k], t'.handled) && !env.rearmOk(t'.handled))
      && (e == Some(WriteFailed) ==> Answer(env, cli[k]).Some? && !env.writeOk(|t'.out|))
    decreases |cli|
  {
    if |cli| > 0 {
      var (t1, e1) := HandleOne(env, t, cli[0]);
      if e1.None? {
        DrainClientAnswers(env, t1, cli[1..]);
        var t' := DrainClient(env, t1, cli[1..]).0;
        assert t'.out[..|t.out|] == t'.out[..|t1.out|][..|t.out|];
        forall j | 0 <= j < t'.handled - t.handled
          ensures Answer(env, cli[j]) == Some(t'.out[|t.out| + j])
        {
          if j > 0 { assert cli[j] == cli[1..][j - 1]; }
        }
      }
    }
  }

  /** The second drain loop: server frames are forwarded verbatim, in order, until a write fails. */
  function DrainServer(env: Env, t: Task, svr: seq<Frame>): (r: (Task, Option<DispatchError>))
    ensures var (t', e) := r;
      && t'.handled == t.handled && t'.rearms == t.rearms
      && |t.out| <= |t'.out| <= |t.out| + |svr|
      && t'.out == t.out + svr[..|t'.out| - |t.out|]
      && (e.None? <==> |t'.out| == |t.out| + |svr|)
      && (e.Some? ==> e == Some(WriteFailed) && !env.writeOk(|t'.out|))
    decreases |svr|
  {
    if |svr| == 0 then (t, None)
    else if !env.writeOk(|t.out|) then (t, Some(WriteFailed))
    else
      var r := DrainServer(env, t.(out := t.out + [svr[0]]), svr[1..]);
      assert t.out + [svr[0]] + svr[1..][..|r.0.out| - |t.out| - 1] == t.out + svr[..|r.0.out| - |t.out|];
      r
  }

  /** Heartbeats never reach `Operate`: two operators that agree on every non-heartbeat frame
      give the same drain, so what `Operate` would do with a heartbeat is never asked. */
  lemma {:induction false} HeartbeatsBypassOperate(env: Env, other: Frame -> Option<Frame>, t: Task, cli: seq<Frame>)
    requires forall j :: 0 <= j < |cli| && cli[j].op != env.codes.heartbeat ==> env.operate(cli[j]) == other(cli[j])
    ensures DrainClient(env, t, cli) == DrainClient(env.(operate := other), t, cli)
    decreases |cli|
  {
    if |cli| > 0 {
      var env' := env.(operate := other);
      assert HandleOne(env, t, cli[0]) == HandleOne(env', t, cli[0]);
      HeartbeatsBypassOperate(env, other, HandleOne(env, t, cli[0]).0, cli[1..]);
    }
  }

  /** The heartbeat replies a drain writes keep version and sequence id, carry no body and have
      operation `OP_HEARTBEAT_REPLY`. */
  lemma HeartbeatReplies(env: Env, t: Task, cli: seq<Frame>)
    ensures var (t', _) := DrainClient(env, t, cli);
      forall j :: 0 <= j < t'.handled - t.handled && cli[j].op == env.codes.heartbeat ==>
        var g := t'.out[|t.out| + j];
        g.ver == cli[j].ver && g.seqId == cli[j].seqId && g.body.None? && g.op == env.codes.heartbeatReply
  {
    DrainClientAnswers(env, t, cli);
  }

  /** Splitting off the first frame of the re-arm points. */
  lemma RearmPointsCons(env: Env, base: nat, cli: seq<Frame>)
    requires |cli| > 0
    ensures |RearmPoints(env, base, cli)| ==
      (if Rearms(env, cli[0], base) then 1 else 0) + |RearmPoints(env, base + 1, cli[1..])|
  {
    var head: set<nat> := if Rearms(env, cli[0], base) then {base} else {};
    var tail := RearmPoints(env, base + 1, cli[1..]);
    var lhs := RearmPoints(env, base, cli);
    forall i | i in lhs ensures i in head + tail {
      if i != base { assert cli[1..][i - (base + 1)] == cli[i - base]; }
    }
    forall i | i in head + tail ensures i in lhs {
      if i != base { assert cli[1..][i - (base + 1)] == cli[i - base]; }
    }
    assert lhs == head + tail;
    assert head !! tail;
  }

  /** The timer is re-armed exactly once per heartbeat that finds the deadline outside its lazy
      window, among the frames the drain reached (including the one it failed on), and never
      for anything else. */
  lemma {:induction false} DrainClientRearms(env: Env, t: Task, cli: seq<Frame>)
    ensures var (t', e) := DrainClient(env, t, cli);
      var reached := if e.None? then |cli| else t'.handled - t.handled + 1;
      reached <= |cli| && t'.rearms == t.rearms + |RearmPoints(env, t.handled, cli[..reached])|
    decreases |cli|
  {
    if |cli| == 0 {
      assert RearmPoints(env, t.handled, cli[..0]) == {};
    } else {
      var (t1, e1) := HandleOne(env, t, cli[0]);
      var (t', e) := DrainClient(env, t, cli);
      var reached := if e.None? then |cli| else t'.handled - t.handled + 1;
      assert 1 <= reached <= |cli|;
      var prefix := cli[..reached];
      assert prefix[0] == cli[0];
      RearmPointsCons(env, t.handled, prefix);
      if e1.None? {
        DrainClientRearms(env, t1, cli[1..]);
        assert prefix[1..] == cli[1..][..reached - 1];
      } else {
        assert reached == 1;
        assert RearmPoints(env, t.handled + 1, prefix[1..]) == {};
      }
    }
  }

  /** What the write task observes at one wake-up: `Ready` (the `ProtoReady` signal) with the
      frames then queued in each direction, or `Finish` (the reader's `ProtoFinsh`, signal 0). */
  datatype Wake = Ready(cli: seq<Frame>, svr: seq<Frame>) | Finish

  /** One `ProtoReady` wake-up: drain the inbound queue fully, then the outbound queue. */
  function Round(env: Env, t: Task, cli: seq<Frame>, svr: seq<Frame>): (r: (Task, Option<DispatchError>))
    ensures |t.out| <= |r.0.out| && r.0.out[..|t.out|] == t.out
    ensures t.handled <= r.0.handled && t.rearms <= r.0.rearms
    ensures DrainClient(env, t, cli).1.Some? ==> r == DrainClient(env, t, cli)
    ensures DrainClient(env, t, cli).1.None? ==> r == DrainServer(env, DrainClient(env, t, cli).0, svr)
  {
    DrainClientAnswers(env, t, cli);
    var (t1, e1) := DrainClient(env, t, cli);
    assert |t1.out| >= |t.out|;
    if e1.Some? then (t1, e1) else DrainServer(env, t1, svr)
  }

  /** A wake-up that meets no failure writes the answers to the inbound frames, in arrival order,
      followed by the outbound frames, verbatim and in order. */
  lemma RoundOrder(env: Env, t: Task, cli: seq<Frame>, svr: seq<Frame>)
    requires Round(env, t, cli, svr).1.None?
    ensures var t' := Round(env, t, cli, svr).0;
      && |t'.out| == |t.out| + |cli| + |svr|
      && t'.out[..|t.out|] == t.out
      && (forall j :: 0 <= j < |cli| ==> Answer(env, cli[j]) == Some(t'.out[|t.out| + j]))
      && t'.out[|t.out| + |cli|..] == svr
      && t'.handled == t.handled + |cli|
  {
    DrainClientAnswers(env, t, cli);
    var (t1, _) := DrainClient(env, t, cli);
    var t' := Round(env, t, cli, svr).0;
    assert t'.out == t1.out + svr;
    assert t'.out[..|t1.out|] == t1.out;
  }

  /** How the write task ended: told to finish, failed, or still waiting for a signal. */
  datatype End = Finished | Failed(error: DispatchError) | Waiting

  /** The main loop of `dispatchTCP` over a sequence of wake-ups. */
  function Loop(env: Env, t: Task, wakes: seq<Wake>): (r: (Task, End))
    ensures |t.out| <= |r.0.out| && r.0.out[..|t.out|] == t.out
    ensures t.handled <= r.0.handled && t.rearms <= r.0.rearms
    ensures r.1 == Waiting ==> Finish !in wakes
    ensures |wakes| > 0 && wakes[0] == Finish ==> r == (t, Finished)
    decreases |wakes|
  {
    if |wakes| == 0 then (t, Waiting)
    else match wakes[0]
      case Finish => (t, Finished)
      case Ready(cli, svr) =>
        var (t1, e) := Round(env, t, cli, svr);
        if e.Some? then (t1, Failed(e.value))
        else
          var r := Loop(env, t1, wakes[1..]);
          assert r.0.out[..|t.out|] == r.0.out[..|t1.out|][..|t.out|];
          r
  }

  /** Running the loop over two runs of wake-ups is running it over the first and, only if that
      left the task waiting, going on with the second from where the first stopped. */
  lemma {:induction false} LoopAppend(env: Env, t: Task, w1: seq<Wake>, w2: seq<Wake>)
    ensures var (t1, end1) := Loop(env, t, w1);
      Loop(env, t, w1 + w2) == if end1 == Waiting then Loop(env, t1, w2) else (t1, end1)
    decreases |w1|
  {
    if |w1| > 0 {
      assert (w1 + w2)[0] == w1[0];
      assert (w1 + w2)[1..] == w1[1..] + w2;
      match w1[0]
      case Finish =>
      case Ready(cli, svr) =>
        var (t1, e) := Round(env, t, cli, svr);
        if e.None? {
          LoopAppend(env, t1, w1[1..], w2);
        }
    } else {
      assert w1 + w2 == w2;
    }
  }

  /** The loop stops at the first `Finish` or failing wake-up: a `Finish` ends the task with
      nothing more drained, a failing round ends it with that round's error, and the wake-ups
      after either are never looked at. */
  lemma LoopStopsAtFirst(env: Env, t: Task, wakes: seq<Wake>, k: nat)
    requires k < |wakes| && Loop(env, t, wakes[..k]).1 == Waiting
    ensures var tk := Loop(env, t, wakes[..k]).0;
      && (wakes[k] == Finish ==> Loop(env, t, wakes) == (tk, Finished))
      && (wakes[k].Ready? && Round(env, tk, wakes[k].cli, wakes[k].svr).1.Some? ==>
            var (t', e) := Round(env, tk, wakes[k].cli, wakes[k].svr);
            Loop(env, t, wakes) == (t', Failed(e.value)))
  {
    assert wakes == wakes[..k] + ([wakes[k]] + wakes[k + 1..]);
    LoopAppend(env, t, wakes[..k], [wakes[k]] + wakes[k + 1..]);
  }

  /** `dispatchTCP`: add the heartbeat timer, then loop. A failure to add it ends the task at once. */
  function DispatchTCP(env: Env, wakes: seq<Wake>): (r: (Task, End))
    ensures !env.startOk ==> r == (Task([], 0, 0), Failed(TimerAddFailed))
  {
    if !env.startOk then (Task([], 0, 0), Failed(TimerAddFailed))
    else Loop(env, Task([], 0, 0), wakes)
  }

  /** A request the operator fails on ends the write task: with every write and timer add
      succeeding, the task fails with `OperateFailed` before all inbound frames are answered,
      and nothing from the outbound queue is written. */
  lemma OperateFailureStops(env: Env, cli: seq<Frame>, svr: seq<Frame>, k: nat)
    requires env.startOk
    requires forall n :: env.writeOk(n)
    requires forall i :: env.rearmOk(i)
    requires k < |cli| && cli[k].op != env.codes.heartbeat && env.operate(cli[k]).None?
    ensures var (t, end) := DispatchTCP(env, [Ready(cli, svr)]);
      && end == Failed(OperateFailed)
      && |t.out| <= k
  {
    var t := Task([], 0, 0);
    DrainClientAnswers(env, t, cli);
    var (t1, e1) := DrainClient(env, t, cli);
    assert t1.handled <= k;
    assert env.writeOk(|t1.out|) && env.rearmOk(t1.handled);
    assert e1 == Some(OperateFailed) by {
      match e1.value
      case TimerAddFailed =>
      case OperateFailed =>
      case WriteFailed =>
    }
    assert Round(env, t, cli, svr) == (t1, e1);
    assert Loop(env, t, [Ready(cli, svr)]) == (t1, Failed(OperateFailed));
  }
}
