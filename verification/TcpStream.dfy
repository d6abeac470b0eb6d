// The sending side of the non-blocking TCP client as a state machine: a producer that enqueues at
// any moment, and a drain step that gathers, sends and pushes back what the socket did not take.
module TcpStream {
  import opened Bytes

  const SINGLE_SEND_LEN := 1500

  type Block = seq<byte>

  datatype Phase = Idle | Gathering | Sending

  /** The transfer session, the drain step in flight, and the history of the stream. `before` and
      `oldBlocks` remember the pending bytes and count the queued blocks that were there when the
      current drain step began. */
  datatype State = State(
    queue: seq<Block>, current: Option<Block>,
    phase: Phase, gathered: seq<byte>, want: nat,
    before: seq<byte>, oldBlocks: nat,
    wire: seq<byte>)

  const EMPTY := State([], None, Idle, [], 0, [], 0, [])

  /** What may happen next. `Send` carries the socket's answer: an error, or a count. */
  datatype Action =
    | Enqueue(block: Block)
    | Begin(ready: bool, high: bool, mallocOk: bool)
    | Pull
    | Send(answer: int)

  function Held(current: Option<Block>): (data: Block) {
    if current.Some? then current.value else []
  }

  function Pending(s: State): (data: seq<byte>) {
    Held(s.current) + Flatten(s.queue)
  }

  /** How many of `len` bytes the socket took. */
  function Taken(answer: int, len: nat): (n: nat) {
    if answer < 0 then 0 else Min(answer, len)
  }

  function BeginStep(s: State, ready: bool, high: bool, mallocOk: bool): (t: State) {
    var n := Min(SINGLE_SEND_LEN, |Pending(s)|);
    if !ready || high || n == 0 || !mallocOk then s
    else s.(phase := Gathering, want := n, gathered := [], before := Pending(s), oldBlocks := |s.queue|)
  }

  /** One round of the gather loop: take a block if none is held, move what is wanted of it. */
  function PullStep(s: State): (t: State) {
    if s.current.None? && s.queue == [] then s.(phase := if s.gathered == [] then Idle else Sending)
    else
      var block := if s.current.Some? then s.current.value else s.queue[0];
      var queue := if s.current.Some? then s.queue else s.queue[1..];
      var still := if s.current.Some? || s.oldBlocks == 0 then s.oldBlocks else s.oldBlocks - 1;
      var n := Min(s.want, |block|);
      s.(queue := queue, oldBlocks := still,
         current := if n == |block| then None else Some(block[n..]),
         gathered := s.gathered + block[..n],
         want := s.want - n,
         phase := if s.want == n then Sending else Gathering)
  }

  function SendStep(s: State, answer: int): (t: State) {
    var k := Taken(answer, |s.gathered|);
    s.(phase := Idle, gathered := [], wire := s.wire + s.gathered[..k],
       current := if k == |s.gathered| then s.current else Some(s.gathered[k..] + Held(s.current)))
  }

  /** An action that is not due leaves the state alone; enqueueing is always due. */
  function Next(s: State, a: Action): (t: State) {
    match a
    case Enqueue(block) => s.(queue := s.queue + [block])
    case Begin(ready, high, mallocOk) => if s.phase.Idle? then BeginStep(s, ready, high, mallocOk) else s
    case Pull => if s.phase.Gathering? then PullStep(s) else s
    case Send(answer) => if s.phase.Sending? then SendStep(s, answer) else s
  }

  function Run(s: State, actions: seq<Action>): (t: State)
    decreases |actions|
  {
    if |actions| == 0 then s else Run(Next(s, actions[0]), actions[1..])
  }

  function Added(a: Action): (data: seq<byte>) {
    if a.Enqueue? then a.block else []
  }

  /** The bytes the producer has handed over, in order. */
  function Produced(actions: seq<Action>): (data: seq<byte>) {
    if |actions| == 0 then [] else Added(actions[0]) + Produced(actions[1..])
  }

  // ---------- the invariant ----------

  function InFlight(s: State): (data: seq<byte>) {
    s.gathered + Pending(s)
  }

  ghost predicate Inv(s: State) {
    && (s.phase.Idle? ==> s.gathered == [])
    && (!s.phase.Idle? ==>
          && s.oldBlocks <= |s.queue|
          && s.before <= InFlight(s)
          && |s.gathered| + s.want == Min(SINGLE_SEND_LEN, |s.before|))
    && (s.phase.Gathering? ==> 0 < s.want <= |Held(s.current)| + |Flatten(s.queue[..s.oldBlocks])|)
    && (s.phase.Sending? ==> s.want == 0 && s.gathered != [])
  }

  lemma FlattenTake(blocks: seq<Block>, n: nat)
    requires 0 < n <= |blocks|
    ensures |Flatten(blocks[..n])| == |blocks[0]| + |Flatten(blocks[1..][..n - 1])|
  {
    assert blocks[..n][1..] == blocks[1..][..n - 1];
  }

  lemma PullMoves(s: State)
    requires Inv(s) && s.phase.Gathering?
    ensures InFlight(PullStep(s)) == InFlight(s)
    ensures s.current.Some? || (s.queue != [] && s.oldBlocks > 0)
  {
    if s.current.Some? || s.queue != [] {
      var block := if s.current.Some? then s.current.value else s.queue[0];
      var n := Min(s.want, |block|);
      var rest := if s.current.Some? then Flatten(s.queue) else Flatten(s.queue[1..]);
      assert s.gathered + (block + rest) == (s.gathered + block[..n]) + (block[n..] + rest);
      assert n == |block| ==> block[n..] == [];
    }
  }

  lemma PullKeeps(s: State)
    requires Inv(s) && s.phase.Gathering?
    ensures Inv(PullStep(s)) && InFlight(PullStep(s)) == InFlight(s) && PullStep(s).wire == s.wire
  {
    hide Flatten, Pending;
    PullMoves(s);
    if s.current.None? {
      FlattenTake(s.queue, s.oldBlocks);
    }
  }

  lemma EnqueueKeeps(s: State, block: Block)
    requires Inv(s)
    ensures Inv(Next(s, Enqueue(block))) && InFlight(Next(s, Enqueue(block))) == InFlight(s) + block
  {
    hide Flatten;
    FlattenAppend(s.queue, block);
    if !s.phase.Idle? {
      assert (s.queue + [block])[..s.oldBlocks] == s.queue[..s.oldBlocks];
    }
  }

  lemma Regroup(wire: seq<byte>, gathered: seq<byte>, k: nat, held: seq<byte>, queued: seq<byte>)
    requires k <= |gathered|
    ensures (wire + gathered[..k]) + ((gathered[k..] + held) + queued) == wire + (gathered + (held + queued))
    ensures k == |gathered| ==> gathered[k..] + held == held
    ensures forall s: seq<byte> {:trigger [] + s} :: [] + s == s
  {
  }

  lemma SendKeeps(s: State, answer: int)
    requires Inv(s) && s.phase.Sending?
    ensures Inv(SendStep(s, answer)) && SendStep(s, answer).wire + InFlight(SendStep(s, answer)) == s.wire + InFlight(s)
  {
    hide Flatten;
    var k := Taken(answer, |s.gathered|);
    Regroup(s.wire, s.gathered, k, Held(s.current), Flatten(s.queue));
  }

  lemma BeginKeeps(s: State, ready: bool, high: bool, mallocOk: bool)
    requires Inv(s) && s.phase.Idle?
    ensures var t := BeginStep(s, ready, high, mallocOk); Inv(t) && t.wire + InFlight(t) == s.wire + InFlight(s)
  {
    hide Flatten;
    assert s.queue[..|s.queue|] == s.queue;
  }

  /** Every action keeps the invariant, and the only bytes that join the stream are the producer's. */
  lemma NextKeeps(s: State, a: Action)
    requires Inv(s)
    ensures var t := Next(s, a);
      Inv(t) && t.wire + InFlight(t) == s.wire + InFlight(s) + Added(a)
  {
    hide Inv, InFlight, BeginStep, PullStep, SendStep;
    match a
    case Enqueue(block) => EnqueueKeeps(s, block);
    case Begin(ready, high, mallocOk) => if s.phase.Idle? { BeginKeeps(s, ready, high, mallocOk); }
    case Pull => if s.phase.Gathering? { PullKeeps(s); }
    case Send(answer) => if s.phase.Sending? { SendKeeps(s, answer); }
  }

  // ---------- whole runs ----------

  lemma {:induction false} RunKeeps(s: State, actions: seq<Action>)
    requires Inv(s)
    ensures var t := Run(s, actions);
      Inv(t) && t.wire + InFlight(t) == s.wire + InFlight(s) + Produced(actions)
    decreases |actions|
  {
    hide Inv, InFlight, Next;
    if |actions| > 0 {
      NextKeeps(s, actions[0]);
      RunKeeps(Next(s, actions[0]), actions[1..]);
      assert (s.wire + InFlight(s) + Added(actions[0])) + Produced(actions[1..])
          == s.wire + InFlight(s) + (Added(actions[0]) + Produced(actions[1..]));
    }
  }

  /** In every interleaving of producer, drain rounds and socket answers the bytes on the wire, the
      bytes in the drain step and the bytes held and queued are exactly those produced, in order. */
  lemma StreamConserved(actions: seq<Action>)
    ensures var s := Run(EMPTY, actions);
      && s.wire + s.gathered + Held(s.current) + Flatten(s.queue) == Produced(actions)
      && s.wire <= Produced(actions)
      && (s.current.None? && s.queue == [] && s.phase.Idle? ==> s.wire == Produced(actions))
  {
    RunKeeps(EMPTY, actions);
    var s := Run(EMPTY, actions);
    assert s.wire + s.gathered + Held(s.current) + Flatten(s.queue) == s.wire + InFlight(s);
  }

  /** What a drain step offers to the socket is the first min(1500, pending) bytes that were pending when it began. */
  lemma GatherExact(actions: seq<Action>)
    ensures var s := Run(EMPTY, actions);
      s.phase.Sending? ==> s.gathered == s.before[..Min(1500, |s.before|)]
  {
    RunKeeps(EMPTY, actions);
  }

  lemma {:induction false} RunAppend(s: State, actions: seq<Action>, a: Action)
    ensures Run(s, actions + [a]) == Next(Run(s, actions), a)
    decreases |actions|
  {
    hide Next;
    if |actions| == 0 {
      assert actions + [a] == [a] && [a][1..] == [];
    } else {
      RunAppend(Next(s, actions[0]), actions[1..], a);
      assert (actions + [a])[1..] == actions[1..] + [a];
    }
  }

  // ---------- what the socket's answers mean ----------

  /** The socket's answer splits what was offered: the bytes it took go to the wire, the others are pending
      again, in front; after an error all of them are. */
  lemma SendSplits(s: State, answer: int)
    requires Inv(s) && s.phase.Sending? && answer <= |s.gathered|
    ensures var t, k := Next(s, Send(answer)), if answer < 0 then 0 else answer;
      && t.wire == s.wire + s.gathered[..k]
      && Pending(t) == s.gathered[k..] + Pending(s)
      && t.phase.Idle? && t.queue == s.queue
  {
    hide Flatten;
    var k := if answer < 0 then 0 else answer;
    var rest, held, queued := s.gathered[k..], Held(s.current), Flatten(s.queue);
    assert (rest + held) + queued == rest + (held + queued);
    if k == |s.gathered| {
      assert s.gathered[k..] == [];
    }
  }

  /** No socket answer is more than what was offered. */
  predicate Honest(s: State, actions: seq<Action>)
    decreases |actions|
  {
    |actions| == 0 ||
    ((actions[0].Send? && s.phase.Sending? ==> actions[0].answer <= |s.gathered|) &&
     Honest(Next(s, actions[0]), actions[1..]))
  }

  /** The sum of the counts that the socket answered. */
  function Accepted(s: State, actions: seq<Action>): (n: nat)
    decreases |actions|
  {
    if |actions| == 0 then 0
    else
      var a := actions[0];
      (if a.Send? && s.phase.Sending? && a.answer > 0 then a.answer else 0) + Accepted(Next(s, a), actions[1..])
  }

  lemma OthersKeepWire(s: State, a: Action)
    requires !(a.Send? && s.phase.Sending?)
    ensures Next(s, a).wire == s.wire
  {
  }

  lemma {:induction false} WireGrows(s: State, actions: seq<Action>)
    requires Inv(s) && Honest(s, actions)
    ensures |Run(s, actions).wire| == |s.wire| + Accepted(s, actions)
    decreases |actions|
  {
    hide Inv, Next, Pending;
    if |actions| > 0 {
      var a := actions[0];
      NextKeeps(s, a);
      if a.Send? && s.phase.Sending? {
        SendSplits(s, a.answer);
      } else {
        OthersKeepWire(s, a);
      }
      WireGrows(Next(s, a), actions[1..]);
    }
  }

  /** Over every run the wire holds as many of the produced bytes as the socket said it took, the first ones. */
  lemma WireIsAccepted(actions: seq<Action>)
    requires Honest(EMPTY, actions)
    ensures var n := Accepted(EMPTY, actions);
      n <= |Produced(actions)| && Run(EMPTY, actions).wire == Produced(actions)[..n]
  {
    hide Run, Produced, Accepted, Honest;
    WireGrows(EMPTY, actions);
    StreamConserved(actions);
  }

  // ---------- the gather loop ends ----------

  /** Rounds the gather loop can still make: blocks from before it began, held or queued. */
  function RoundsLeft(s: State): (n: nat) {
    s.oldBlocks + (if s.current.Some? then 1 else 0)
  }

  function Pulls(actions: seq<Action>): (n: nat) {
    if |actions| == 0 then 0 else (if actions[0].Pull? then 1 else 0) + Pulls(actions[1..])
  }

  lemma PullShrinks(s: State)
    requires Inv(s) && s.phase.Gathering?
    ensures PullStep(s).phase.Sending? || (PullStep(s).phase.Gathering? && RoundsLeft(PullStep(s)) < RoundsLeft(s))
    ensures RoundsLeft(s) > 0
  {
    hide Flatten, Pending;
    PullMoves(s);
  }

  /** However many blocks the producer adds meanwhile, and however the data is split into blocks, the
      loop is done after as many rounds as there were blocks when it began. */
  lemma {:induction false} GatherEnds(s: State, actions: seq<Action>)
    requires Inv(s) && !s.phase.Idle?
    requires forall k :: 0 <= k < |actions| ==> actions[k].Enqueue? || actions[k].Pull?
    requires s.phase.Gathering? ==> Pulls(actions) >= RoundsLeft(s)
    ensures Run(s, actions).phase.Sending?
    decreases |actions|
  {
    hide Inv, Flatten, PullStep;
    if s.phase.Gathering? {
      PullShrinks(s);
    }
    if |actions| > 0 {
      NextKeeps(s, actions[0]);
      GatherEnds(Next(s, actions[0]), actions[1..]);
    }
  }
}
