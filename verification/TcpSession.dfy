// The transfer session of the non-blocking TCP client with its drain function as a loop over the
// watermark queue, tied step for step to the state machine of TcpStream.
module TcpSession {
  import opened Bytes
  import opened TcpStream

  lemma ProducedStep(a: Action, rest: seq<Action>)
    ensures Produced([a] + rest) == Added(a) + Produced(rest) && Produced([]) == []
  {
    hide Added;
    assert ([a] + rest)[1..] == rest;
  }

  lemma {:induction false} ProducedAppend(actions: seq<Action>, a: Action)
    ensures Produced(actions + [a]) == Produced(actions) + Added(a)
  {
    hide *;
    ProducedStep(a, []);
    if |actions| == 0 {
      assert actions == [] && actions + [a] == [a] + [];
    } else {
      var first, rest := actions[0], actions[1..];
      ProducedAppend(rest, a);
      ProducedStep(first, rest);
      ProducedStep(first, rest + [a]);
      assert actions == [first] + rest && actions + [a] == [first] + (rest + [a]);
    }
  }

  lemma ExtendRun(start: State, actions: seq<Action>, a: Action)
    ensures Run(start, actions + [a]) == Next(Run(start, actions), a)
    ensures Produced(actions + [a]) == Produced(actions) + Added(a)
    ensures !a.Enqueue? ==> Produced(actions + [a]) == Produced(actions)
  {
    hide Next, Run, Produced;
    RunAppend(start, actions, a);
    ProducedAppend(actions, a);
  }

  lemma EnqueueNext(s: State, block: Block)
    ensures Next(s, Enqueue(block)) == s.(queue := s.queue + [block])
  {
  }

  lemma RunNothing(start: State, arrivals: seq<seq<Block>>)
    ensures Run(start, []) == start && Produced([]) == [] == Flatten(Flatten(arrivals[..0]))
    ensures Pending(start)[..0] == [] && start.wire + [] == start.wire
    ensures start.wire + Pending(start) + [] == start.wire + Pending(start)
  {
  }

  lemma IdleBalance(start: State, actions: seq<Action>)
    requires Inv(start) && start.phase.Idle? && Run(start, actions).phase.Idle?
    ensures var t := Run(start, actions);
      t.wire + Pending(t) == start.wire + Pending(start) + Produced(actions)
  {
    hide Run, Pending, Produced;
    RunKeeps(start, actions);
    assert [] + Pending(start) == Pending(start);
    assert [] + Pending(Run(start, actions)) == Pending(Run(start, actions));
  }

  lemma CountIsPending(s: State)
    ensures |Pending(s)| == |Flatten(s.queue)| + |Held(s.current)|
  {
  }

  lemma BatchArrives(arrivals: seq<seq<Block>>, round: nat)
    requires round < |arrivals|
    ensures Flatten(Flatten(arrivals[..round + 1])) == Flatten(Flatten(arrivals[..round])) + Flatten(arrivals[round])
  {
    hide Flatten;
    assert arrivals[..round + 1] == arrivals[..round] + [arrivals[round]];
    FlattenAppend(arrivals[..round], arrivals[round]);
    FlattenConcat(Flatten(arrivals[..round]), arrivals[round]);
  }

  lemma BeginOk(s: State)
    requires Inv(s) && s.phase.Idle? && Min(SINGLE_SEND_LEN, |Pending(s)|) > 0
    ensures var t := BeginStep(s, true, false, true);
      && t == Next(s, Begin(true, false, true)) && Inv(t) && t.phase.Gathering?
      && t.queue == s.queue && t.current == s.current && t.wire == s.wire && t.before == Pending(s)
      && t.want == Min(SINGLE_SEND_LEN, |Pending(s)|) && t.gathered == []
  {
    hide Inv, Pending;
    BeginKeeps(s, true, false, true);
  }

  lemma PullFrame(s: State)
    requires s.phase.Gathering?
    ensures var t := Next(s, Pull); t.wire == s.wire && t.before == s.before
  {
  }

  lemma GatherHasData(s: State)
    requires Inv(s) && s.phase.Gathering?
    ensures s.current.Some? || s.queue != []
  {
    PullMoves(s);
  }

  /** A finished gather offers the first bytes that were pending; the socket takes some of them. */
  lemma Offer(s: State, answer: int)
    requires Inv(s) && s.phase.Sending?
    ensures var t := SendStep(s, answer); var n := Min(SINGLE_SEND_LEN, |s.before|);
      && t == Next(s, Send(answer)) && Inv(t) && t.phase.Idle? && t.queue == s.queue
      && |s.gathered| == n && t.wire == s.wire + s.before[..Taken(answer, n)]
      && t.current == (if Taken(answer, n) == n then s.current
                       else Some(s.gathered[Taken(answer, n)..] + Held(s.current)))
  {
    hide Flatten;
    SendKeeps(s, answer);
    assert s.gathered == s.before[..|s.gathered|];
  }

  class Session {
    var ready: bool
    var sendHigh: bool
    var current: Option<Block>
    var queue: seq<Block>
    ghost var st: State

    constructor ()
      ensures Valid() && st == EMPTY && ready && !sendHigh
    {
      ready, sendHigh, current, queue := true, false, None, [];
      st := EMPTY;
    }

    ghost predicate Mirrors()
      reads this
    {
      st.queue == queue && st.current == current && Inv(st)
    }

    /** Between calls no drain step is in flight, and the machine's state is the session's. */
    ghost predicate Valid()
      reads this
    {
      Mirrors() && st.phase.Idle?
    }

    /** The callbacks for crossing the limits of the send queue, and by the same flag of the receive queue. */
    method HighWater()
      modifies this`sendHigh
      ensures sendHigh
    {
      sendHigh := true;
    }

    method LowWater()
      modifies this`sendHigh
      ensures !sendHigh
    {
      sendHigh := false;
    }

    /** Closing the session throws away what is pending; later drains send nothing. */
    method Deinit()
      requires Valid()
      modifies this`ready, this`current, this`queue, this`st
      ensures Valid() && !ready && st.wire == old(st.wire)
      ensures if old(ready) then Pending(st) == [] else st == old(st)
    {
      if !ready {
        return;
      }
      current, queue, ready := None, [], false;
      st := st.(current := None, queue := []);
    }

    /** The producer: a block goes to the end of the queue. */
    method SendData(data: Block)
      requires Mirrors()
      modifies this`queue, this`st
      ensures Mirrors() && queue == old(queue) + [data]
      ensures st == Next(old(st), Enqueue(data)) && st.phase == old(st.phase)
    {
      EnqueueKeeps(st, data);
      queue := queue + [data];
      st := Next(st, Enqueue(data));
    }

    /** The SDK's pull-up: moves up to `want` bytes of the held block to the buffer. */
    method Pullup(buf: array<byte>, off: nat, want: nat) returns (n: nat)
      requires current.Some? && off + want <= buf.Length
      modifies this`current, buf
      ensures var block := old(current.value);
        && n == Min(want, |block|)
        && current == (if n == |block| then None else Some(block[n..]))
        && buf[..off] == old(buf[..off]) && buf[off..off + n] == block[..n]
    {
      var block := current.value;
      n := Min(want, |block|);
      forall i | 0 <= i < n {
        buf[off + i] := block[i];
      }
      current := if n == |block| then None else Some(block[n..]);
    }

    /** One round of the gather loop in the session's own fields. */
    method GatherRound(buf: array<byte>, off: nat, want: nat) returns (n: nat)
      requires Mirrors() && st.phase.Gathering? && (current.Some? || queue != [])
      requires st.want == want && off + want == buf.Length && buf[..off] == st.gathered
      modifies this`current, this`queue, this`st, buf
      ensures Mirrors() && st == Next(old(st), Pull) && n <= want && st.want == want - n
      ensures buf[..off + n] == st.gathered
      ensures want > n ==> st.phase.Gathering? && RoundsLeft(st) < RoundsLeft(old(st))
      ensures want == n ==> st.phase.Sending?
    {
      hide Inv, Flatten;
      PullShrinks(st);
      PullKeeps(st);
      if current.None? {
        current, queue := Some(queue[0]), queue[1..];
      }
      n := Pullup(buf, off, want);
      assert buf[..off + n] == buf[..off] + buf[off..off + n];
      st := PullStep(st);
    }

    /** The producer's blocks that come in between two rounds. */
    method Arrive(blocks: seq<Block>, ghost start: State, ghost done: seq<Action>) returns (ghost actions: seq<Action>)
      requires Mirrors() && st == Run(start, done)
      modifies this`queue, this`st
      ensures Mirrors() && st == Run(start, actions)
      ensures st == old(st).(queue := queue)
      ensures Produced(actions) == Produced(done) + Flatten(blocks)
    {
      hide Inv, Next, Run;
      actions := done;
      var k := 0;
      assert blocks[..0] == [] && Flatten(blocks[..0]) == [];
      while k < |blocks|
        invariant 0 <= k <= |blocks| && Mirrors() && st == Run(start, actions)
        invariant st == old(st).(queue := queue)
        invariant Produced(actions) == Produced(done) + Flatten(blocks[..k])
      {
        ExtendRun(start, actions, Enqueue(blocks[k]));
        FlattenAppend(blocks[..k], blocks[k]);
        assert blocks[..k + 1] == blocks[..k] + [blocks[k]];
        actions := actions + [Enqueue(blocks[k])];
        EnqueueNext(st, blocks[k]);
        SendData(blocks[k]);
        k := k + 1;
      }
      assert blocks[..k] == blocks;
    }

    /** The gather loop: fills the buffer from the held block and the queue, whatever comes in meanwhile. */
    method Gather(buf: array<byte>, arrivals: seq<seq<Block>>, ghost start: State, ghost done: seq<Action>)
      returns (ghost actions: seq<Action>, ghost rounds: nat)
      requires Mirrors() && st.phase.Gathering? && st == Run(start, done) && Produced(done) == []
      requires st.gathered == [] && st.want == buf.Length
      modifies this`current, this`queue, this`st, buf
      ensures Mirrors() && st.phase.Sending? && st == Run(start, actions)
      ensures st.wire == old(st.wire) && st.before == old(st.before) && buf[..] == st.gathered
      ensures rounds <= |arrivals| && Produced(actions) == Flatten(Flatten(arrivals[..rounds]))
    {
      hide Inv, Next, Run, PullStep, Produced, Flatten;
      actions, rounds := done, 0;
      RunNothing(start, arrivals);
      var writeLen, sendLen, round := buf.Length, 0, 0;
      while current.Some? || queue != []
        invariant Mirrors() && st.phase.Gathering? && st == Run(start, actions)
        invariant st.wire == old(st.wire) && st.before == old(st.before)
        invariant st.want == writeLen && 0 <= sendLen && sendLen + writeLen == buf.Length
        invariant buf[..sendLen] == st.gathered
        invariant rounds == round <= |arrivals| && Produced(actions) == Flatten(Flatten(arrivals[..rounds]))
        decreases RoundsLeft(st)
      {
        ExtendRun(start, actions, Pull);
        actions := actions + [Pull];
        PullFrame(st);
        var n := GatherRound(buf, sendLen, writeLen);
        writeLen, sendLen := writeLen - n, sendLen + n;
        if writeLen == 0 {
          break;
        }
        if round < |arrivals| {
          BatchArrives(arrivals, round);
          actions := Arrive(arrivals[round], start, actions);
          round, rounds := round + 1, rounds + 1;
        }
      }
      if st.phase.Gathering? {
        GatherHasData(st);
      }
      assert buf[..] == buf[..sendLen];
    }

    /** Drains up to 1500 bytes to the socket. `arrivals` are the blocks the producer adds between
        rounds, `answer` is what the socket returns; `actions` is the interleaving that took place,
        with the first `rounds` batches of arrivals in it. */
    method SocWrite(mallocOk: bool, arrivals: seq<seq<Block>>, answer: int)
      returns (ghost actions: seq<Action>, ghost rounds: nat)
      requires Valid()
      modifies this`current, this`queue, this`st
      ensures Valid() && st == Run(old(st), actions)
      ensures rounds <= |arrivals| && Produced(actions) == Flatten(Flatten(arrivals[..rounds]))
      ensures var offered := Min(1500, |Pending(old(st))|);
        st.wire == old(st.wire) +
          if ready && !sendHigh && mallocOk && answer > 0 then Pending(old(st))[..Min(answer, offered)] else []
      ensures st.wire + Pending(st) == old(st.wire) + Pending(old(st)) + Produced(actions)
    {
      hide Inv, Next, Run, PullStep, BeginStep, SendStep, Produced, Flatten, Pending, InFlight;
      ghost var start := st;
      actions, rounds := [], 0;
      RunNothing(start, arrivals);
      if !ready || sendHigh {
        return;
      }
      var writeLen := Min(SINGLE_SEND_LEN, Count());
      CountIsPending(st);
      if writeLen == 0 || !mallocOk {
        return;
      }
      BeginOk(st);
      ExtendRun(start, actions, Begin(true, false, true));
      actions := actions + [Begin(true, false, true)];
      st := BeginStep(st, true, false, true);
      var buf := new byte[writeLen];
      actions, rounds := Gather(buf, arrivals, start, actions);
      Offer(st, answer);
      ExtendRun(start, actions, Send(answer));
      actions := actions + [Send(answer)];
      var took := Taken(answer, buf.Length);
      if took != buf.Length {
        current := Some(buf[took..] + Held(current));
      }
      st := SendStep(st, answer);
      IdleBalance(start, actions);
    }

    /** The SDK's byte counts of the queue and of the held block. */
    function Count(): (n: nat)
      reads this
    {
      |Flatten(queue)| + |Held(current)|
    }
  }
}
