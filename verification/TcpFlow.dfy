// Flow control of the non-blocking TCP client: the watermarks of the send queue set and clear the flag
// that the drain function looks at first.
module TcpFlow {
  import opened Bytes
  import opened TcpStream

  const LOW_LIMIT := 2048
  const HIGH_LIMIT := 8192

  /** The sender and the flag. */
  datatype Flow = Flow(s: State, high: bool)

  const START := Flow(EMPTY, false)

  /** What may happen: an action of the sender (a drain looks at the flag itself), or the receive queue
      crossing its limits, whose callbacks set and clear the same flag. */
  datatype Event = Act(action: Action) | Drain(mallocOk: bool) | RxHigh | RxLow

  function Queued(f: Flow): (n: nat) {
    |Flatten(f.s.queue)|
  }

  /** The queue calls back when an enqueue takes it above the high limit, or a dequeue to the low one. */
  function Crossed(f: Flow, t: State): (high: bool) {
    var n := |Flatten(t.queue)|;
    if Queued(f) <= HIGH_LIMIT < n then true
    else if n <= LOW_LIMIT < Queued(f) then false
    else f.high
  }

  function Next(f: Flow, e: Event): (g: Flow) {
    match e
    case Act(a) =>
      if a.Begin? then f
      else
        var t := TcpStream.Next(f.s, a);
        Flow(t, Crossed(f, t))
    case Drain(mallocOk) => f.(s := TcpStream.Next(f.s, Begin(true, f.high, mallocOk)))
    case RxHigh => f.(high := true)
    case RxLow => f.(high := false)
  }

  function Run(f: Flow, events: seq<Event>): (g: Flow)
    decreases |events|
  {
    if |events| == 0 then f else Run(Next(f, events[0]), events[1..])
  }

  lemma {:induction false} FlattenGrows(queue: seq<Block>, block: Block)
    ensures |Flatten(queue + [block])| == |Flatten(queue)| + |block|
  {
    FlattenAppend(queue, block);
  }

  lemma StalledStep(f: Flow, e: Event)
    requires f.high && f.s.phase.Idle? && !e.RxLow?
    ensures var g := Next(f, e); g.high && g.s.phase.Idle? && g.s.wire == f.s.wire && Queued(f) <= Queued(g)
  {
    hide Flatten;
    if e.Act? && e.action.Enqueue? {
      FlattenGrows(f.s.queue, e.action.block);
    }
  }

  /** The flag stops the only consumer of the queue whose emptying would clear it: once it is set between
      two drains, nothing is sent any more, however long the run, unless the receive queue clears it. */
  lemma {:induction false} HighWaterStalls(f: Flow, events: seq<Event>)
    requires f.high && f.s.phase.Idle? && RxLow !in events
    ensures var g := Run(f, events); g.high && g.s.wire == f.s.wire && Queued(f) <= Queued(g)
    decreases |events|
  {
    hide Next, Queued;
    if |events| > 0 {
      assert events == [events[0]] + events[1..];
      StalledStep(f, events[0]);
      HighWaterStalls(Next(f, events[0]), events[1..]);
    }
  }

  /** The flag follows the queue: an enqueue sets it exactly by taking the queue from 8192 bytes or less to
      more, a round of a drain clears it exactly by taking the queue from more than 2048 to that or less. */
  lemma FlagExactly(f: Flow, block: Block)
    ensures var g := Next(f, Act(Enqueue(block))); g.high <==> f.high || Queued(f) <= 8192 < Queued(g)
    ensures var g := Next(f, Act(Pull)); g.high <==> f.high && !(Queued(g) <= 2048 < Queued(f))
  {
    hide Flatten;
    FlattenGrows(f.s.queue, block);
    PullShrinksQueue(f.s);
  }

  lemma PullShrinksQueue(s: State)
    ensures |Flatten(TcpStream.Next(s, Pull).queue)| <= |Flatten(s.queue)|
  {
  }

  lemma SendLeavesFlag(f: Flow, answer: int)
    ensures Next(f, Act(Send(answer))).high == f.high
  {
    hide Flatten;
  }

  /** Every state of a run. */
  ghost predicate AtMost(f: Flow, events: seq<Event>, n: nat)
    decreases |events|
  {
    Queued(f) <= n && (|events| > 0 ==> AtMost(Next(f, events[0]), events[1..], n))
  }

  /** A producer that never lets the queue grow beyond 8192 bytes never sees the flag set by it. */
  lemma {:induction false} ClearWithinLimit(f: Flow, events: seq<Event>)
    requires !f.high && RxHigh !in events && AtMost(f, events, 8192)
    ensures !Run(f, events).high
    decreases |events|
  {
    hide Next, Queued;
    if |events| > 0 {
      var e := events[0];
      assert events == [e] + events[1..];
      assert AtMost(Next(f, e), events[1..], 8192);
      StaysClear(f, e);
      ClearWithinLimit(Next(f, e), events[1..]);
    }
  }

  lemma StaysClear(f: Flow, e: Event)
    requires !f.high && !e.RxHigh? && Queued(Next(f, e)) <= 8192
    ensures !Next(f, e).high
  {
    hide Flatten;
  }

  /** One block above the limit is enough. */
  lemma BigBlockStalls(block: Block, events: seq<Event>)
    requires |block| > 8192 && RxLow !in events
    ensures Run(START, [Act(Enqueue(block))] + events).s.wire == []
  {
    hide Flatten;
    var e := Act(Enqueue(block));
    FlattenGrows([], block);
    NothingQueued();
    assert ([e] + events)[1..] == events;
    HighWaterStalls(Next(START, e), events);
  }

  lemma NothingQueued()
    ensures Flatten<byte>([]) == []
  {
  }

  // ---------- with the flag clear ----------

  function Acts(actions: seq<Action>): (events: seq<Event>)
    ensures |events| == |actions| && forall k :: 0 <= k < |actions| ==> events[k] == Act(actions[k])
  {
    seq(|actions|, i requires 0 <= i < |actions| => Act(actions[i]))
  }

  lemma {:induction false} ActsRun(f: Flow, actions: seq<Action>)
    requires forall k :: 0 <= k < |actions| ==> !actions[k].Begin?
    ensures Run(f, Acts(actions)).s == TcpStream.Run(f.s, actions)
    decreases |actions|
  {
    hide TcpStream.Next, Crossed;
    if |actions| > 0 {
      ActsRun(Next(f, Act(actions[0])), actions[1..]);
      assert Acts(actions)[1..] == Acts(actions[1..]);
    }
  }

  lemma {:induction false} AllPulls(n: nat)
    ensures Pulls(seq(n, i => Pull)) == n
  {
    if n > 0 {
      AllPulls(n - 1);
      assert seq(n, i => Pull)[1..] == seq(n - 1, i => Pull);
    }
  }

  /** A drain with enough rounds and a socket that takes one byte. */
  lemma DrainSends(f: Flow) returns (events: seq<Event>)
    requires Inv(f.s) && f.s.phase.Idle? && Pending(f.s) != [] && !f.high
    ensures RxLow !in events && |Run(f, events).s.wire| > |f.s.wire|
  {
    hide Inv, TcpStream.BeginStep, TcpStream.PullStep, Crossed, Pending;
    var g := Next(f, Drain(true));
    DrainBegins(f);
    var n := RoundsLeft(g.s);
    var pulls := seq(n, i => Pull);
    AllPulls(n);
    GatherEnds(g.s, pulls);
    PullsKeepWire(g.s, pulls);
    var actions := pulls + [Send(1)];
    ActsRun(g, actions);
    RunAppend(g.s, pulls, Send(1));
    SendGrows(TcpStream.Run(g.s, pulls));
    events := [Drain(true)] + Acts(actions);
    assert events[1..] == Acts(actions);
  }

  lemma DrainBegins(f: Flow)
    requires Inv(f.s) && f.s.phase.Idle? && Pending(f.s) != [] && !f.high
    ensures var g := Next(f, Drain(true)); Inv(g.s) && g.s.phase.Gathering? && g.s.wire == f.s.wire
  {
    hide Inv, Pending;
    BeginKeeps(f.s, true, false, true);
  }

  lemma {:induction false} PullsKeepWire(s: State, pulls: seq<Action>)
    requires Inv(s) && forall k :: 0 <= k < |pulls| ==> pulls[k].Pull?
    ensures Inv(TcpStream.Run(s, pulls)) && TcpStream.Run(s, pulls).wire == s.wire
    decreases |pulls|
  {
    hide Inv, TcpStream.PullStep;
    if |pulls| > 0 {
      if s.phase.Gathering? {
        PullKeeps(s);
      }
      PullsKeepWire(TcpStream.Next(s, pulls[0]), pulls[1..]);
    }
  }

  lemma SendGrows(s: State)
    requires Inv(s) && s.phase.Sending?
    ensures |TcpStream.Next(s, Send(1)).wire| > |s.wire|
  {
    hide Flatten;
  }

  /** Between two drains, with bytes pending: some run without help from the receive queue sends more if
      and only if the flag is clear. */
  lemma StallsExactly(f: Flow)
    requires Inv(f.s) && f.s.phase.Idle? && Pending(f.s) != []
    ensures (exists events :: RxLow !in events && |Run(f, events).s.wire| > |f.s.wire|) <==> !f.high
  {
    hide Inv, Pending, Next;
    if f.high {
      forall events | RxLow !in events ensures Run(f, events).s.wire == f.s.wire {
        HighWaterStalls(f, events);
      }
    } else {
      var events := DrainSends(f);
    }
  }
}
