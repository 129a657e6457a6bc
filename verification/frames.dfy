/** The WebSocket session of connectWebsocket (index.js): the heartbeats
    sent while a connection is open, the timing of the reconnect loop, and
    the dispatch of inbound frames. Frames are taken as already-parsed
    records: the command discriminator and the optional fields the bot reads
    or sends. */
module Frames {
  import opened Base

  /** The `userDataUpdate` object of a point report. */
  datatype PointsUpdate = PointsUpdate(todayPoints: Option<int>, totalPoints: Option<int>)

  /** The `jobReport` object of a heartbeat. */
  datatype JobReport = JobReport(cfgcnt: int, jobcnt: int)

  /** A frame: `cmd` (1 = point report, 2 = echo request) and the optional
      fields that may accompany it. */
  datatype Frame = Frame(cmd: int, echo: Option<string>, userDataUpdate: Option<PointsUpdate>, jobReport: Option<JobReport>)

  /** The frame the heartbeat sends every `HeartbeatPeriodMs` while the
      socket is open. */
  const Heartbeat: Frame := Frame(1, Some("echo me"), None, Some(JobReport(2, 0)))

  const HeartbeatPeriodMs: nat := 30000

  /** The heartbeats sent on a connection that stays open for `openMs`
      milliseconds: one per full period, all alike. */
  function Heartbeats(openMs: nat): (r: seq<Frame>)
    ensures forall k :: 0 <= k < |r| ==> r[k] == Heartbeat
    ensures |r| * HeartbeatPeriodMs <= openMs < (|r| + 1) * HeartbeatPeriodMs
  {
    seq(openMs / HeartbeatPeriodMs, _ => Heartbeat)
  }

  /** A connection that stays open longer sends every heartbeat a shorter one
      sends, one more per full period between the two at most, and at least
      one more once a full period lies between them. */
  lemma HeartbeatsGrow(openMs: nat, laterMs: nat)
    requires openMs <= laterMs
    ensures Heartbeats(openMs) <= Heartbeats(laterMs)
    ensures (|Heartbeats(laterMs)| - |Heartbeats(openMs)| - 1) * HeartbeatPeriodMs < laterMs - openMs
    ensures laterMs - openMs >= HeartbeatPeriodMs ==> |Heartbeats(laterMs)| > |Heartbeats(openMs)|
  {
  }

  /** The pause before reconnecting after a close or an error. */
  const ReconnectDelayMs: nat := 5000

  /** The start of each connection attempt of the reconnect loop, counted
      from the first, given how long each earlier connection lasted: the
      next attempt starts 5 seconds after the previous one ended. */
  function AttemptStarts(lifetimes: seq<nat>): (r: seq<int>)
    ensures |r| == |lifetimes| + 1 && r[0] == 0
    ensures forall i :: 0 <= i < |lifetimes| ==> r[i + 1] == r[i] + lifetimes[i] + ReconnectDelayMs
  {
    if |lifetimes| == 0 then [0]
    else
      var front := AttemptStarts(lifetimes[..|lifetimes| - 1]);
      front + [front[|front| - 1] + lifetimes[|lifetimes| - 1] + ReconnectDelayMs]
  }

  /** Total of a sequence of durations. */
  function Sum(s: seq<nat>): nat {
    if |s| == 0 then 0 else Sum(s[..|s| - 1]) + s[|s| - 1]
  }

  /** Attempt `i` starts once the `i` earlier connections have lasted their
      time and `i` pauses of 5 seconds have passed. */
  lemma {:induction false} AttemptStartsClosed(lifetimes: seq<nat>, i: nat)
    requires i <= |lifetimes|
    ensures AttemptStarts(lifetimes)[i] == Sum(lifetimes[..i]) + i * ReconnectDelayMs
    decreases i
  {
    if i > 0 {
      AttemptStartsClosed(lifetimes, i - 1);
      assert lifetimes[..i][..i - 1] == lifetimes[..i - 1];
    }
  }

  /** The loop never reconnects in a burst: the attempts `i` and `j` lie at
      least (j - i) times 5 seconds apart, whatever the connections did. */
  lemma {:induction false} AttemptsSpaced(lifetimes: seq<nat>, i: nat, j: nat)
    requires i <= j <= |lifetimes|
    ensures AttemptStarts(lifetimes)[j] - AttemptStarts(lifetimes)[i] >= (j - i) * ReconnectDelayMs
    decreases j - i
  {
    if i < j {
      AttemptsSpaced(lifetimes, i, j - 1);
    }
  }

  /** What the message handler does with one frame: the frame it sends back,
      if any, and the (today, total) pair it logs, if any. */
  datatype Reaction = Reaction(reply: Option<Frame>, logged: Option<(int, int)>)

  /** `response.userDataUpdate?.today_points || 0` and the same for
      `total_points`: a missing object or a missing field reads as 0. */
  function Points(f: Frame): (p: (int, int))
    ensures f.userDataUpdate.None? ==> p == (0, 0)
    ensures f.userDataUpdate.Some? && f.userDataUpdate.value.todayPoints.Some? ==>
      p.0 == f.userDataUpdate.value.todayPoints.value
    ensures f.userDataUpdate.Some? && f.userDataUpdate.value.totalPoints.Some? ==>
      p.1 == f.userDataUpdate.value.totalPoints.value
    ensures f.userDataUpdate.Some? && f.userDataUpdate.value.todayPoints.None? ==> p.0 == 0
    ensures f.userDataUpdate.Some? && f.userDataUpdate.value.totalPoints.None? ==> p.1 == 0
  {
    match f.userDataUpdate
    case None => (0, 0)
    case Some(u) => (u.todayPoints.GetOr(0), u.totalPoints.GetOr(0))
  }

  /** The message handler: a point report (cmd 1) is logged, every time, and
      answered with nothing; an echo request (cmd 2) is sent back verbatim and
      not logged as points; any other command does nothing. */
  function Dispatch(f: Frame): (r: Reaction)
    ensures r.reply.Some? <==> f.cmd == 2
    ensures r.reply.Some? ==> r.reply.value == f
    ensures r.logged.Some? <==> f.cmd == 1
    ensures r.logged.Some? ==> r.logged.value == Points(f)
    ensures f.cmd != 1 && f.cmd != 2 ==> r == Reaction(None, None)
  {
    if f.cmd == 1 then Reaction(None, Some(Points(f)))
    else if f.cmd == 2 then Reaction(Some(f), None)
    else Reaction(None, None)
  }

  /** Echoing is idempotent: the reply to an echo request is itself an echo
      request whose reply is the same frame. */
  lemma EchoIdempotent(f: Frame)
    requires f.cmd == 2
    ensures Dispatch(Dispatch(f).reply.value) == Dispatch(f)
  {
  }

  /** What the handler does over a run of frames on one connection: the
      frames sent back, in order, and the pairs logged, in order. */
  function DispatchAll(frames: seq<Frame>): (r: (seq<Frame>, seq<(int, int)>))
    ensures |r.0| + |r.1| <= |frames|
    ensures forall k :: 0 <= k < |r.0| ==> r.0[k] in frames && r.0[k].cmd == 2
  {
    if |frames| == 0 then ([], [])
    else
      var here := Dispatch(frames[0]);
      var rest := DispatchAll(frames[1..]);
      var replies := (if here.reply.Some? then [here.reply.value] else []) + rest.0;
      var logs := (if here.logged.Some? then [here.logged.value] else []) + rest.1;
      assert forall k :: 0 <= k < |rest.0| ==> rest.0[k] in frames[1..];
      (replies, logs)
  }

  /** The number of frames with command `cmd`. */
  function CountCmd(frames: seq<Frame>, cmd: int): nat {
    if |frames| == 0 then 0
    else (if frames[0].cmd == cmd then 1 else 0) + CountCmd(frames[1..], cmd)
  }

  /** Each frame's reaction lands at its rank: the echo request that has `n`
      echo requests before it is the `n`-th reply, unchanged, and the point
      report that has `n` reports before it gives the `n`-th log line. */
  lemma {:induction false} DispatchAllPositions(frames: seq<Frame>, k: nat)
    requires k < |frames|
    ensures frames[k].cmd == 2 ==>
      CountCmd(frames[..k], 2) < |DispatchAll(frames).0| && DispatchAll(frames).0[CountCmd(frames[..k], 2)] == frames[k]
    ensures frames[k].cmd == 1 ==>
      CountCmd(frames[..k], 1) < |DispatchAll(frames).1| && DispatchAll(frames).1[CountCmd(frames[..k], 1)] == Points(frames[k])
  {
    if k > 0 {
      DispatchAllPositions(frames[1..], k - 1);
      assert frames[..k] == [frames[0]] + frames[1..][..k - 1];
      assert frames[..k][1..] == frames[1..][..k - 1];
    }
  }

  /** Exactly one reply per echo request and exactly one log line per point
      report: nothing is filtered. */
  lemma {:induction false} DispatchAllCounts(frames: seq<Frame>)
    ensures |DispatchAll(frames).0| == CountCmd(frames, 2)
    ensures |DispatchAll(frames).1| == CountCmd(frames, 1)
  {
    if |frames| > 0 {
      DispatchAllCounts(frames[1..]);
    }
  }

  /** On a connection that only carries point reports, the log is the
      sequence of their (today, total) pairs, one per report, in order, and
      nothing is sent back. */
  lemma {:induction false} PointReportsAllLogged(frames: seq<Frame>)
    requires forall k :: 0 <= k < |frames| ==> frames[k].cmd == 1
    ensures DispatchAll(frames).0 == []
    ensures DispatchAll(frames).1 == seq(|frames|, k requires 0 <= k < |frames| => Points(frames[k]))
  {
    if |frames| > 0 {
      PointReportsAllLogged(frames[1..]);
    }
  }

  /** The point report for (today, total). */
  function Report(today: int, total: int): Frame {
    Frame(1, None, Some(PointsUpdate(Some(today), Some(total))), None)
  }

  /** Every point report is logged, even one that repeats the previous
      values: the reports (5,5), (5,5), (6,5), (6,7) give four log lines. */
  lemma RepeatedPointsLogged()
    ensures DispatchAll([Report(5, 5), Report(5, 5), Report(6, 5), Report(6, 7)]).1
      == [(5, 5), (5, 5), (6, 5), (6, 7)]
  {
    var frames := [Report(5, 5), Report(5, 5), Report(6, 5), Report(6, 7)];
    assert frames[1..] == [Report(5, 5), Report(6, 5), Report(6, 7)];
    assert frames[1..][1..] == [Report(6, 5), Report(6, 7)];
    assert frames[1..][1..][1..] == [Report(6, 7)];
  }
}
