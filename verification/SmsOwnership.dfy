// Heap ownership in the SMS demo: request blocks travel through a bounded queue from four APIs to one
// worker task, and listing contexts travel through a chain of asynchronous responses. Blocks are numbered
// in the order of their allocation.
module SmsOwnership {
  import opened Bytes

  const QUEUE_CAPACITY := 20

  datatype Kind = SendSms | ReadSms | DeleteSms | ListSms | ExitTask

  datatype Message = Message(kind: Kind, data: Option<nat>)

  /** A listing in flight: its context and list blocks, the record indices, the cursor, and the
      indices requested so far. */
  datatype Chain = Chain(ctx: nat, list: nat, records: seq<nat>, pos: nat, requested: seq<nat>)

  /** `allocs` counts allocations, `freed` logs every free; `leaked` logs the blocks that were still
      queued when the queue was deleted; `ended` keeps the listings that are over. */
  datatype State = State(
    allocs: nat, freed: seq<nat>, leaked: seq<nat>, started: bool, queueExists: bool,
    queue: seq<Message>, chains: seq<Chain>, ended: seq<Chain>)

  const INITIAL := State(0, [], [], false, false, [], [], [])

  /** What the SDK answers while a listing is set up. */
  datatype ListAnswers = ListAnswers(
    filterOk: bool, ctxOk: bool, infoOk: bool, listOk: bool, recordsOk: bool, records: seq<nat>,
    readOk: bool, noMessage: bool)

  datatype Event =
    | CreateQueue
    | Request(kind: Kind, hasData: bool, valid: bool, mallocOk: bool, releaseOk: bool)
    | Consume(waitOk: bool, answers: ListAnswers)
    | Respond(chain: nat, success: bool, readOk: bool)

  function Free(s: State, block: nat): (t: State) {
    s.(freed := s.freed + [block])
  }

  function FreeData(s: State, data: Option<nat>): (t: State) {
    if data.Some? then Free(s, data.value) else s
  }

  // ---------- requests ----------

  /** The queue takes a message without waiting if it exists, has room and the release succeeds. */
  predicate Takes(s: State, releaseOk: bool) {
    s.queueExists && |s.queue| < QUEUE_CAPACITY && releaseOk
  }

  function Post(s: State, m: Message, releaseOk: bool): (t: State) {
    if Takes(s, releaseOk) then s.(queue := s.queue + [m]) else FreeData(s, m.data)
  }

  /** One of the request APIs, or the stop call; only a listing without filter and the stop call carry no block. */
  function RequestStep(s: State, kind: Kind, hasData: bool, valid: bool, mallocOk: bool, releaseOk: bool): (t: State) {
    var carries := if kind.ExitTask? then false else if kind.ListSms? then hasData else true;
    if !valid || (carries && !mallocOk) then s
    else if !carries then Post(s, Message(kind, None), releaseOk)
    else Post(s.(allocs := s.allocs + 1), Message(kind, Some(s.allocs)), releaseOk)
  }

  // ---------- the listing chain ----------

  function Retire(s: State, c: Chain): (t: State) {
    Free(Free(s, c.list), c.ctx).(ended := s.ended + [c])
  }

  /** Fetches the next record of a chain that holds its blocks and requests it: the chain waits in
      `chains` again, or its blocks are freed. */
  function Advance(s: State, c: Chain, readOk: bool): (t: State) {
    if c.pos >= |c.records| then Retire(s, c)
    else
      var next := c.(pos := c.pos + 1, requested := c.requested + [c.records[c.pos]]);
      if readOk then s.(chains := s.chains + [next]) else Retire(s, next)
  }

  function StartListing(s: State, a: ListAnswers): (t: State) {
    if !a.filterOk || !a.ctxOk then s
    else
      var ctx, t := s.allocs, s.(allocs := s.allocs + 1);
      if !a.infoOk || !a.listOk then Free(t, ctx)
      else
        var list, u := t.allocs, t.(allocs := t.allocs + 1);
        if !a.recordsOk then Free(Free(u, list), ctx)
        else Advance(u, Chain(ctx, list, a.records, 0, []), a.readOk)
  }

  function RespondStep(s: State, i: nat, success: bool, readOk: bool): (t: State)
    requires i < |s.chains|
  {
    var c, t := s.chains[i], s.(chains := s.chains[..i] + s.chains[i + 1..]);
    if success then Advance(t, c, readOk) else Retire(t, c)
  }

  // ---------- the worker ----------

  function Blocks(queue: seq<Message>): (r: seq<nat>) {
    if |queue| == 0 then []
    else (if queue[0].data.Some? then [queue[0].data.value] else []) + Blocks(queue[1..])
  }

  /** A message is handled; on exit the queue is deleted, and nobody can reach the blocks it still holds. */
  function Handle(s: State, m: Message, a: ListAnswers): (t: State) {
    match m.kind
    case SendSms => FreeData(s, m.data)
    case ReadSms => FreeData(s, m.data)
    case DeleteSms => FreeData(s, m.data)
    case ListSms => FreeData(StartListing(s, a), m.data)
    case ExitTask => s.(queueExists := false, queue := [], leaked := s.leaked + Blocks(s.queue))
  }

  function Next(s: State, e: Event): (t: State) {
    match e
    case CreateQueue => if s.started then s else s.(started := true, queueExists := true)
    case Request(kind, hasData, valid, mallocOk, releaseOk) => RequestStep(s, kind, hasData, valid, mallocOk, releaseOk)
    case Consume(waitOk, answers) =>
      if s.queueExists && s.queue != [] && waitOk then Handle(s.(queue := s.queue[1..]), s.queue[0], answers) else s
    case Respond(i, success, readOk) => if i < |s.chains| then RespondStep(s, i, success, readOk) else s
  }

  function Run(s: State, events: seq<Event>): (t: State)
    decreases |events|
  {
    if |events| == 0 then s else Run(Next(s, events[0]), events[1..])
  }

  // ---------- every block is somewhere exactly once ----------

  function Carried(m: Message): (r: multiset<nat>) {
    if m.data.Some? then multiset{m.data.value} else multiset{}
  }

  function Queued(queue: seq<Message>): (r: multiset<nat>) {
    if |queue| == 0 then multiset{} else Carried(queue[0]) + Queued(queue[1..])
  }

  function Held(c: Chain): (r: multiset<nat>) {
    multiset{c.ctx, c.list}
  }

  function InFlight(chains: seq<Chain>): (r: multiset<nat>) {
    if |chains| == 0 then multiset{} else Held(chains[0]) + InFlight(chains[1..])
  }

  /** The blocks ever allocated, each once. */
  function Allocated(n: nat): (r: multiset<nat>) {
    if n == 0 then multiset{} else Allocated(n - 1) + multiset{n - 1}
  }

  /** Freed, queued, held by a listing and leaked: together exactly the allocated blocks, none of them twice. */
  ghost predicate Balanced(s: State) {
    Total(s) == Allocated(s.allocs)
  }

  /** The indices a listing has requested are a prefix of its records, in order. */
  ghost predicate InOrder(c: Chain) {
    c.pos <= |c.records| && c.requested == c.records[..c.pos]
  }

  ghost predicate Orderly(s: State) {
    && (forall k :: 0 <= k < |s.chains| ==> InOrder(s.chains[k]))
    && (forall k :: 0 <= k < |s.ended| ==>
          InOrder(s.ended[k]) && s.ended[k].ctx in s.freed && s.ended[k].list in s.freed)
    && (forall k :: 0 <= k < |s.queue| ==> s.queue[k].kind.ExitTask? ==> s.queue[k].data.None?)
    && |s.queue| <= QUEUE_CAPACITY
  }

  lemma {:induction false} QueuedAppend(queue: seq<Message>, m: Message)
    ensures Queued(queue + [m]) == Queued(queue) + Carried(m)
  {
    if |queue| == 0 {
      assert queue + [m] == [m] && [m][1..] == [];
    } else {
      QueuedAppend(queue[1..], m);
      assert (queue + [m])[1..] == queue[1..] + [m];
    }
  }

  lemma InFlightStep(c: Chain, rest: seq<Chain>)
    ensures InFlight([c] + rest) == Held(c) + InFlight(rest)
  {
    hide Held;
    assert ([c] + rest)[1..] == rest;
  }

  lemma {:induction false} InFlightConcat(a: seq<Chain>, b: seq<Chain>)
    ensures InFlight(a + b) == InFlight(a) + InFlight(b)
  {
    hide *;
    if |a| == 0 {
      InFlightNone();
      assert a == [] && a + b == b;
    } else {
      InFlightConcat(a[1..], b);
      InFlightStep(a[0], a[1..]);
      InFlightStep(a[0], a[1..] + b);
      assert a == [a[0]] + a[1..] && a + b == [a[0]] + (a[1..] + b);
    }
  }

  lemma InFlightNone()
    ensures InFlight([]) == multiset{}
  {
  }

  lemma InFlightOne(c: Chain)
    ensures InFlight([c]) == Held(c)
  {
    assert [c][1..] == [];
  }

  lemma InFlightRemove(chains: seq<Chain>, i: nat)
    requires i < |chains|
    ensures InFlight(chains) == InFlight(chains[..i] + chains[i + 1..]) + Held(chains[i])
  {
    hide InFlight;
    assert chains == chains[..i] + ([chains[i]] + chains[i + 1..]);
    InFlightConcat(chains[..i], [chains[i]] + chains[i + 1..]);
    InFlightConcat([chains[i]], chains[i + 1..]);
    InFlightConcat(chains[..i], chains[i + 1..]);
    InFlightOne(chains[i]);
  }

  /** Every block that is freed, queued, held or leaked. */
  function Total(s: State): (r: multiset<nat>) {
    multiset(s.freed) + Queued(s.queue) + InFlight(s.chains) + multiset(s.leaked)
  }

  lemma FreeTotal(s: State, block: nat)
    ensures Total(Free(s, block)) == Total(s) + multiset{block}
  {
    hide Queued, InFlight;
    assert multiset(s.freed + [block]) == multiset(s.freed) + multiset{block};
  }

  lemma RetireTotal(s: State, c: Chain)
    ensures Total(Retire(s, c)) == Total(s) + Held(c)
  {
    hide Total;
    FreeTotal(s, c.list);
    FreeTotal(Free(s, c.list), c.ctx);
    EndedFree(Free(Free(s, c.list), c.ctx), s.ended + [c]);
  }

  lemma EndedFree(s: State, ended: seq<Chain>)
    ensures Total(s.(ended := ended)) == Total(s)
  {
  }

  lemma AdvanceTotal(s: State, c: Chain, readOk: bool)
    ensures Total(Advance(s, c, readOk)) == Total(s) + Held(c)
  {
    hide Queued, InFlight, Retire;
    if c.pos < |c.records| {
      var next := c.(pos := c.pos + 1, requested := c.requested + [c.records[c.pos]]);
      RetireTotal(s, next);
      InFlightConcat(s.chains, [next]);
      InFlightOne(next);
    } else {
      RetireTotal(s, c);
    }
  }

  // ---------- every event keeps the balance ----------

  lemma AllocTotal(s: State)
    ensures Total(s.(allocs := s.allocs + 1)) == Total(s)
    ensures Allocated(s.allocs + 1) == Allocated(s.allocs) + multiset{s.allocs}
  {
  }

  lemma FreeDataTotal(s: State, m: Message)
    ensures Total(FreeData(s, m.data)) == Total(s) + Carried(m) && FreeData(s, m.data).allocs == s.allocs
  {
    hide Total;
    if m.data.Some? {
      FreeTotal(s, m.data.value);
    }
  }

  lemma PostTotal(s: State, m: Message, releaseOk: bool)
    ensures Total(Post(s, m, releaseOk)) == Total(s) + Carried(m) && Post(s, m, releaseOk).allocs == s.allocs
  {
    hide Queued, InFlight, Carried;
    FreeDataTotal(s, m);
    QueuedAppend(s.queue, m);
  }

  lemma RequestKeeps(s: State, kind: Kind, hasData: bool, valid: bool, mallocOk: bool, releaseOk: bool)
    requires Balanced(s)
    ensures Balanced(RequestStep(s, kind, hasData, valid, mallocOk, releaseOk))
  {
    hide Queued, InFlight, Allocated, Post;
    AllocTotal(s);
    PostTotal(s, Message(kind, None), releaseOk);
    PostTotal(s.(allocs := s.allocs + 1), Message(kind, Some(s.allocs)), releaseOk);
  }

  lemma AdvanceAllocs(s: State, c: Chain, readOk: bool)
    ensures Advance(s, c, readOk).allocs == s.allocs
  {
  }

  /** Setting up a listing frees all it allocated unless the listing is under way. */
  lemma StartTotal(s: State, a: ListAnswers)
    requires Total(s) <= Allocated(s.allocs)
    ensures var t := StartListing(s, a);
      Total(t) + (Allocated(s.allocs) - Total(s)) == Allocated(t.allocs)
  {
    hide Total, Allocated, Advance;
    var t := s.(allocs := s.allocs + 1);
    var u := t.(allocs := t.allocs + 1);
    AllocTotal(s);
    AllocTotal(t);
    FreeTotal(t, s.allocs);
    FreeTotal(u, t.allocs);
    FreeTotal(Free(u, t.allocs), s.allocs);
    var c := Chain(s.allocs, t.allocs, a.records, 0, []);
    AdvanceTotal(u, c, a.readOk);
    AdvanceAllocs(u, c, a.readOk);
  }

  lemma HandleKeeps(s: State, m: Message, a: ListAnswers)
    requires Total(s) + Carried(m) == Allocated(s.allocs) && (m.kind.ExitTask? ==> m.data.None?)
    ensures Balanced(Handle(s, m, a))
  {
    hide Queued, InFlight, Allocated, StartListing, FreeData, Carried;
    FreeDataTotal(s, m);
    StartTotal(s, a);
    FreeDataTotal(StartListing(s, a), m);
    if m.kind.ExitTask? {
      NothingCarried(m);
      DeleteTotal(s);
    }
  }

  lemma {:induction false} BlocksQueued(queue: seq<Message>)
    ensures multiset(Blocks(queue)) == Queued(queue)
  {
    if |queue| > 0 {
      BlocksQueued(queue[1..]);
    }
  }

  /** Deleting the queue moves what it held to the leaked blocks. */
  lemma DeleteTotal(s: State)
    ensures Total(s.(queueExists := false, queue := [], leaked := s.leaked + Blocks(s.queue))) == Total(s)
  {
    hide InFlight, Queued, Blocks;
    BlocksQueued(s.queue);
    QueuedNone();
    assert multiset(s.leaked + Blocks(s.queue)) == multiset(s.leaked) + multiset(Blocks(s.queue));
  }

  lemma QueuedNone()
    ensures Queued([]) == multiset{}
  {
  }

  lemma NothingCarried(m: Message)
    requires m.data.None?
    ensures Carried(m) == multiset{}
  {
  }

  lemma RespondKeeps(s: State, i: nat, success: bool, readOk: bool)
    requires Balanced(s) && i < |s.chains|
    ensures Balanced(RespondStep(s, i, success, readOk))
  {
    hide Queued, InFlight, Allocated, Advance, Retire, Held;
    InFlightRemove(s.chains, i);
    var c, t := s.chains[i], s.(chains := s.chains[..i] + s.chains[i + 1..]);
    AdvanceTotal(t, c, readOk);
    AdvanceAllocs(t, c, readOk);
    RetireTotal(t, c);
    RetireAllocs(t, c);
  }

  lemma RetireAllocs(s: State, c: Chain)
    ensures Retire(s, c).allocs == s.allocs
  {
  }

  // ---------- order ----------

  lemma FreeOrderly(s: State, block: nat)
    requires Orderly(s)
    ensures Orderly(Free(s, block))
  {
    hide InOrder;
  }

  lemma RetireOrderly(s: State, c: Chain)
    requires Orderly(s) && InOrder(c)
    ensures Orderly(Retire(s, c))
  {
    hide InOrder;
    FreeOrderly(s, c.list);
    FreeOrderly(Free(s, c.list), c.ctx);
    var t := Free(Free(s, c.list), c.ctx);
    assert t.freed == s.freed + [c.list, c.ctx];
    assert t.freed[|s.freed|] == c.list && t.freed[|s.freed| + 1] == c.ctx;
  }

  lemma AdvanceOrderly(s: State, c: Chain, readOk: bool)
    requires Orderly(s) && InOrder(c)
    ensures Orderly(Advance(s, c, readOk))
  {
    hide Retire;
    if c.pos < |c.records| {
      var next := c.(pos := c.pos + 1, requested := c.requested + [c.records[c.pos]]);
      assert InOrder(next);
      RetireOrderly(s, next);
    } else {
      RetireOrderly(s, c);
    }
  }

  lemma StartOrderly(s: State, a: ListAnswers)
    requires Orderly(s)
    ensures Orderly(StartListing(s, a)) && StartListing(s, a).queue == s.queue
  {
    hide Advance, Orderly, InOrder;
    var t := s.(allocs := s.allocs + 1);
    var u := t.(allocs := t.allocs + 1);
    AllocOrderly(s);
    AllocOrderly(t);
    FreeOrderly(t, s.allocs);
    FreeOrderly(u, t.allocs);
    FreeOrderly(Free(u, t.allocs), s.allocs);
    var c := Chain(s.allocs, t.allocs, a.records, 0, []);
    BeginsInOrder(c);
    AdvanceOrderly(u, c, a.readOk);
    AdvanceQueue(u, c, a.readOk);
  }

  lemma AllocOrderly(s: State)
    requires Orderly(s)
    ensures Orderly(s.(allocs := s.allocs + 1))
  {
  }

  lemma BeginsInOrder(c: Chain)
    requires c.pos == 0 && c.requested == []
    ensures InOrder(c)
  {
  }

  lemma AdvanceQueue(s: State, c: Chain, readOk: bool)
    ensures Advance(s, c, readOk).queue == s.queue
  {
  }

  lemma NextOrderly(s: State, e: Event)
    requires Orderly(s)
    ensures Orderly(Next(s, e))
  {
    hide Advance, Retire, StartListing, InOrder;
    match e
    case CreateQueue =>
    case Request(kind, hasData, valid, mallocOk, releaseOk) =>
      AllocOrderly(s);
      FreeOrderly(s.(allocs := s.allocs + 1), s.allocs);
    case Consume(waitOk, answers) =>
      if s.queueExists && s.queue != [] && waitOk {
        var t := s.(queue := s.queue[1..]);
        StartOrderly(t, answers);
        if s.queue[0].data.Some? {
          FreeOrderly(t, s.queue[0].data.value);
          FreeOrderly(StartListing(t, answers), s.queue[0].data.value);
        }
      }
    case Respond(i, success, readOk) =>
      if i < |s.chains| {
        var c, t := s.chains[i], s.(chains := s.chains[..i] + s.chains[i + 1..]);
        assert Orderly(t);
        AdvanceOrderly(t, c, readOk);
        RetireOrderly(t, c);
      }
  }

  // ---------- whole runs ----------

  lemma NextKeeps(s: State, e: Event)
    requires Balanced(s) && Orderly(s)
    ensures Balanced(Next(s, e)) && Orderly(Next(s, e))
  {
    hide RequestStep, RespondStep, Handle, Queued, InFlight, Allocated, InOrder, Carried;
    NextOrderly(s, e);
    match e
    case CreateQueue =>
    case Request(kind, hasData, valid, mallocOk, releaseOk) =>
      RequestKeeps(s, kind, hasData, valid, mallocOk, releaseOk);
    case Consume(waitOk, answers) =>
      if s.queueExists && s.queue != [] && waitOk {
        var t := s.(queue := s.queue[1..]);
        QueuedHead(s.queue);
        HandleKeeps(t, s.queue[0], answers);
      }
    case Respond(i, success, readOk) => if i < |s.chains| { RespondKeeps(s, i, success, readOk); }
  }

  lemma QueuedHead(queue: seq<Message>)
    requires queue != []
    ensures Queued(queue) == Queued(queue[1..]) + Carried(queue[0])
  {
  }

  lemma {:induction false} RunKeeps(s: State, events: seq<Event>)
    requires Balanced(s) && Orderly(s)
    ensures Balanced(Run(s, events)) && Orderly(Run(s, events))
    decreases |events|
  {
    hide Next, Balanced, Orderly;
    if |events| > 0 {
      NextKeeps(s, events[0]);
      RunKeeps(Next(s, events[0]), events[1..]);
    }
  }

  lemma {:induction false} AllocatedCount(n: nat, b: nat)
    ensures Allocated(n)[b] == if b < n then 1 else 0
  {
    if n > 0 {
      AllocatedCount(n - 1, b);
    }
  }

  /** Over every interleaving of requests, the worker and the responses, with a queue that may be full,
      absent or deleted: each block ever allocated is in exactly one place, freed, in a queued message,
      held by a listing, or leaked with the deleted queue. Nothing is freed twice or used after free. */
  lemma BlocksExactlyOnce(events: seq<Event>, b: nat)
    ensures var s := Run(INITIAL, events);
      multiset(s.freed)[b] + Queued(s.queue)[b] + InFlight(s.chains)[b] + multiset(s.leaked)[b]
      == (if b < s.allocs then 1 else 0)
  {
    RunKeeps(INITIAL, events);
    AllocatedCount(Run(INITIAL, events).allocs, b);
  }

  // ---------- what the exit loses ----------

  /** The worker takes an exit message while some message behind it carries a block. */
  ghost predicate LosesBlocks(s: State, e: Event) {
    && e.Consume? && e.waitOk && s.queueExists && s.queue != [] && s.queue[0].kind.ExitTask?
    && exists k :: 1 <= k < |s.queue| && s.queue[k].data.Some?
  }

  lemma {:induction false} BlocksNone(queue: seq<Message>)
    ensures Blocks(queue) == [] <==> forall k :: 0 <= k < |queue| ==> queue[k].data.None?
  {
    if |queue| > 0 {
      BlocksNone(queue[1..]);
      assert queue == [queue[0]] + queue[1..];
    }
  }

  /** An event leaks exactly if it is such an exit. */
  lemma LeaksExactly(s: State, e: Event)
    ensures s.leaked <= Next(s, e).leaked
    ensures Next(s, e).leaked != s.leaked <==> LosesBlocks(s, e)
  {
    hide Blocks, StartListing, Advance, Retire;
    match e
    case CreateQueue =>
    case Request(kind, hasData, valid, mallocOk, releaseOk) =>
    case Consume(waitOk, answers) =>
      if s.queueExists && s.queue != [] && waitOk {
        BlocksNone(s.queue[1..]);
        StartLeaks(s.(queue := s.queue[1..]), answers);
        assert forall k :: 1 <= k < |s.queue| ==> s.queue[k] == s.queue[1..][k - 1];
        assert forall k :: 0 <= k < |s.queue| - 1 ==> s.queue[1..][k] == s.queue[k + 1];
      }
    case Respond(i, success, readOk) =>
      if i < |s.chains| {
        AdvanceLeaks(s.(chains := s.chains[..i] + s.chains[i + 1..]), s.chains[i], readOk);
      }
  }

  lemma AdvanceLeaks(s: State, c: Chain, readOk: bool)
    ensures Advance(s, c, readOk).leaked == s.leaked == Retire(s, c).leaked
  {
  }

  lemma StartLeaks(s: State, a: ListAnswers)
    ensures StartListing(s, a).leaked == s.leaked
  {
  }

  ghost predicate EverLoses(s: State, events: seq<Event>)
    decreases |events|
  {
    |events| > 0 && (LosesBlocks(s, events[0]) || EverLoses(Next(s, events[0]), events[1..]))
  }

  /** A run loses no block if and only if no exit is taken with a block queued behind it. */
  lemma {:induction false} RunLeaksExactly(s: State, events: seq<Event>)
    ensures s.leaked <= Run(s, events).leaked
    ensures Run(s, events).leaked != s.leaked <==> EverLoses(s, events)
    decreases |events|
  {
    hide Next, LosesBlocks;
    if |events| > 0 {
      LeaksExactly(s, events[0]);
      RunLeaksExactly(Next(s, events[0]), events[1..]);
    }
  }

  /** The exit is final: the queue is not created again, and no later request is taken. */
  lemma {:induction false} ExitIsFinal(s: State, events: seq<Event>)
    requires s.started && !s.queueExists && s.queue == []
    ensures var t := Run(s, events); t.started && !t.queueExists && t.queue == []
    decreases |events|
  {
    hide StartListing, Advance, Retire;
    if |events| > 0 {
      var e := events[0];
      if e.Respond? && e.chain < |s.chains| {
        RespondLeavesQueue(s, e.chain, e.success, e.readOk);
      }
      ExitIsFinal(Next(s, e), events[1..]);
    }
  }

  lemma RespondLeavesQueue(s: State, i: nat, success: bool, readOk: bool)
    requires i < |s.chains|
    ensures var t := RespondStep(s, i, success, readOk);
      t.queue == s.queue && t.queueExists == s.queueExists && t.started == s.started
  {
  }

  const STOP := Request(ExitTask, false, true, true, true)
  const SEND := Request(SendSms, true, true, true, true)

  /** A request posted behind a stop call: its block is lost, and no later event frees it. */
  lemma StopLosesRequest(answers: ListAnswers, later: seq<Event>)
    ensures var s := Run(INITIAL, [CreateQueue, STOP, SEND, Consume(true, answers)]);
      && s.leaked == [0] && s.freed == [] && s.queue == []
      && 0 in Run(s, later).leaked && 0 !in Run(s, later).freed
  {
    hide Run, Next, Queued, InFlight;
    var start := [CreateQueue, STOP, SEND, Consume(true, answers)];
    StopLeaks(answers);
    FourSteps(start);
    var s := Run(INITIAL, start);
    RunLeaksExactly(s, later);
    RunConcat(INITIAL, start, later);
    assert Run(s, later).leaked[0] == 0;
    BlocksExactlyOnce(start + later, 0);
  }

  lemma StopLeaks(answers: ListAnswers)
    ensures var s := Next(Next(Next(Next(INITIAL, CreateQueue), STOP), SEND), Consume(true, answers));
      s.leaked == [0] && s.freed == [] && s.queue == []
  {
    hide StartListing;
    var s2 := Next(Next(INITIAL, CreateQueue), STOP);
    assert s2.queue == [Message(ExitTask, None)];
    var s3 := Next(s2, SEND);
    assert s3.queue == [Message(ExitTask, None), Message(SendSms, Some(0))];
    assert s3.queue[1..] == [Message(SendSms, Some(0))];
    LastBlock(Message(SendSms, Some(0)), 0);
  }

  lemma LastBlock(m: Message, b: nat)
    requires m.data == Some(b)
    ensures Blocks([m]) == [b]
  {
    assert [m][1..] == [];
  }

  lemma FourSteps(e: seq<Event>)
    requires |e| == 4
    ensures Run(INITIAL, e) == Next(Next(Next(Next(INITIAL, e[0]), e[1]), e[2]), e[3])
  {
    hide Next;
    assert e[1..][1..] == e[2..] && e[2..][1..] == e[3..] && e[3..][1..] == [];
    var s1 := Next(INITIAL, e[0]);
    var s2 := Next(s1, e[1]);
    var s3 := Next(s2, e[2]);
    assert Run(s3, e[3..]) == Run(Next(s3, e[3]), []);
    assert Run(s2, e[2..]) == Run(s3, e[3..]);
    assert Run(s1, e[1..]) == Run(s2, e[2..]);
  }

  lemma {:induction false} RunConcat(s: State, a: seq<Event>, b: seq<Event>)
    ensures Run(s, a + b) == Run(Run(s, a), b)
    decreases |a|
  {
    hide Next;
    if |a| == 0 {
      assert a + b == b;
    } else {
      RunConcat(Next(s, a[0]), a[1..], b);
      assert (a + b)[1..] == a[1..] + b;
    }
  }

  /** Every listing, under way or over, has requested a prefix of its record indices in order, and one
      that is over has freed both its blocks. */
  lemma ListingsInOrder(events: seq<Event>)
    ensures var s := Run(INITIAL, events);
      && (forall k :: 0 <= k < |s.chains| ==> s.chains[k].requested <= s.chains[k].records)
      && (forall k :: 0 <= k < |s.ended| ==>
            s.ended[k].requested <= s.ended[k].records && s.ended[k].ctx in s.freed && s.ended[k].list in s.freed)
  {
    RunKeeps(INITIAL, events);
  }

  // ---------- one listing among others ----------

  /** Whether an event is a response to the listing with context block x. */
  predicate Answers(s: State, e: Event, x: nat) {
    e.Respond? && e.chain < |s.chains| && s.chains[e.chain].ctx == x
  }

  /** How many responses that listing gets in a run. */
  function Responses(s: State, events: seq<Event>, x: nat): (n: nat)
    decreases |events|
  {
    if |events| == 0 then 0
    else (if Answers(s, events[0], x) then 1 else 0) + Responses(Next(s, events[0]), events[1..], x)
  }

  /** All of them bring a record, and the reads they lead to are accepted. */
  predicate AllSucceed(s: State, events: seq<Event>, x: nat)
    decreases |events|
  {
    |events| == 0 ||
    ((Answers(s, events[0], x) ==> events[0].success && events[0].readOk) &&
     AllSucceed(Next(s, events[0]), events[1..], x))
  }

  lemma {:induction false} HeldCount(chains: seq<Chain>, i: nat)
    requires i < |chains|
    ensures InFlight(chains)[chains[i].ctx] >= 1
    decreases i
  {
    if i > 0 {
      HeldCount(chains[1..], i - 1);
    }
  }

  /** Two listings in flight never share a context. */
  lemma ContextsDiffer(s: State, i: nat, j: nat)
    requires Balanced(s) && i < j < |s.chains|
    ensures s.chains[i].ctx != s.chains[j].ctx
  {
    hide InFlight, Queued, Allocated;
    InFlightRemove(s.chains, j);
    var rest := s.chains[..j] + s.chains[j + 1..];
    HeldCount(rest, i);
    AllocatedCount(s.allocs, s.chains[j].ctx);
  }

  /** The listing after k more successful responses. */
  function Advanced(c: Chain, k: nat): (d: Chain)
    requires c.pos + k <= |c.records|
  {
    c.(pos := c.pos + k, requested := c.records[..c.pos + k])
  }

  /** Other events leave a listing in flight alone; its own response requests the next record or ends it. */
  lemma ListingSteps(s: State, e: Event, c: Chain)
    requires Balanced(s) && InOrder(c) && c in s.chains
    requires Answers(s, e, c.ctx) ==> e.success && e.readOk
    ensures !Answers(s, e, c.ctx) ==> c in Next(s, e).chains
    ensures Answers(s, e, c.ctx) && c.pos < |c.records| ==> Advanced(c, 1) in Next(s, e).chains
    ensures Answers(s, e, c.ctx) && c.pos == |c.records| ==> Advanced(c, 0) in Next(s, e).ended
  {
    hide Balanced, StartListing, InFlight;
    match e
    case CreateQueue =>
    case Request(kind, hasData, valid, mallocOk, releaseOk) =>
    case Consume(waitOk, answers) =>
      if s.queueExists && s.queue != [] && waitOk {
        StartAdds(s.(queue := s.queue[1..]), answers);
      }
    case Respond(i, success, readOk) =>
      if i < |s.chains| {
        var j :| 0 <= j < |s.chains| && s.chains[j] == c;
        if j != i {
          if j < i { ContextsDiffer(s, j, i); } else { ContextsDiffer(s, i, j); }
        }
        ResponseMoves(s, i, j, success, readOk);
      }
  }

  lemma StartAdds(s: State, a: ListAnswers)
    ensures s.chains <= StartListing(s, a).chains
  {
  }

  lemma ResponseMoves(s: State, i: nat, j: nat, success: bool, readOk: bool)
    requires i < |s.chains| && j < |s.chains| && InOrder(s.chains[j])
    ensures var c, t := s.chains[j], RespondStep(s, i, success, readOk);
      && (i != j ==> c in t.chains)
      && (i == j && success && readOk && c.pos < |c.records| ==> Advanced(c, 1) in t.chains)
      && (i == j && success && c.pos == |c.records| ==> Advanced(c, 0) in t.ended)
  {
    var c, rest := s.chains[j], s.chains[..i] + s.chains[i + 1..];
    if i != j {
      assert rest[if j < i then j else j - 1] == c;
    } else {
      var t := RespondStep(s, i, success, readOk);
      if c.pos < |c.records| {
        assert c.records[..c.pos] + [c.records[c.pos]] == c.records[..c.pos + 1];
        if success && readOk {
          assert t.chains[|rest|] == Advanced(c, 1);
        }
      } else if success {
        assert t.ended[|s.ended|] == Advanced(c, 0);
      }
    }
  }

  lemma EndedStays(s: State, e: Event)
    ensures s.ended <= Next(s, e).ended
  {
  }

  lemma {:induction false} EndedRemains(s: State, events: seq<Event>)
    ensures s.ended <= Run(s, events).ended
    decreases |events|
  {
    hide Next;
    if |events| > 0 {
      EndedStays(s, events[0]);
      EndedRemains(Next(s, events[0]), events[1..]);
    }
  }

  /** A listing in flight among any others, with any other events in between: k successful responses
      request its next k records in order, and the response after the last record ends it with every
      record requested. */
  lemma {:induction false} ListingCompletes(s: State, events: seq<Event>, c: Chain)
    requires Balanced(s) && Orderly(s) && c in s.chains && InOrder(c) && AllSucceed(s, events, c.ctx)
    ensures var t, k := Run(s, events), Responses(s, events, c.ctx);
      if c.pos + k <= |c.records| then Advanced(c, k) in t.chains
      else Advanced(c, |c.records| - c.pos) in t.ended
    decreases |events|
  {
    hide Next, Balanced, Orderly;
    if |events| > 0 {
      var t := Next(s, events[0]);
      ListingSteps(s, events[0], c);
      NextKeeps(s, events[0]);
      if !Answers(s, events[0], c.ctx) {
        ListingCompletes(t, events[1..], c);
      } else if c.pos < |c.records| {
        ListingCompletes(t, events[1..], Advanced(c, 1));
      } else {
        EndedRemains(t, events[1..]);
      }
    }
  }

  // ---------- from a list request to its records ----------

  /** The first message is a list request, and everything its set-up asks for works. */
  predicate Starts(s: State, a: ListAnswers) {
    && s.queueExists && s.queue != [] && s.queue[0].kind.ListSms?
    && a.filterOk && a.ctxOk && a.infoOk && a.listOk && a.recordsOk
  }

  /** Taking such a request starts a listing over exactly the indices that the SIM returned, and asks for
      the first of them; without any, or if that read is refused, the listing is over at once. */
  lemma ListRequestStarts(s: State, a: ListAnswers)
    requires Starts(s, a)
    ensures var t, x, r := Next(s, Consume(true, a)), s.allocs, a.records;
      if r == [] then t.chains == s.chains && t.ended == s.ended + [Chain(x, x + 1, [], 0, [])]
      else if a.readOk then t.chains == s.chains + [Chain(x, x + 1, r, 1, r[..1])] && t.ended == s.ended
      else t.chains == s.chains && t.ended == s.ended + [Chain(x, x + 1, r, 1, r[..1])]
  {
    if a.records != [] {
      assert [] + [a.records[0]] == a.records[..1];
    }
  }

  /** Over whole runs: the list request that is taken after `before` gets k successful responses among any
      other events. The indices r that the SIM returned then have been requested up to the one behind the
      k-th, in order, and with as many responses as indices all of them have. */
  lemma ListRequestCompletes(before: seq<Event>, a: ListAnswers, events: seq<Event>)
    requires Starts(Run(INITIAL, before), a) && a.records != [] && a.readOk
    requires var s := Run(INITIAL, before); AllSucceed(Next(s, Consume(true, a)), events, s.allocs)
    ensures var s := Run(INITIAL, before); var t, x, r := Next(s, Consume(true, a)), s.allocs, a.records;
      var k := Responses(t, events, x);
      if k < |r| then Chain(x, x + 1, r, k + 1, r[..k + 1]) in Run(t, events).chains
      else Chain(x, x + 1, r, |r|, r) in Run(t, events).ended
  {
    hide Next, Run, Balanced, Orderly, AllSucceed, Responses, Starts;
    var s := Run(INITIAL, before);
    BeginsSound();
    RunKeeps(INITIAL, before);
    ListRequestStarts(s, a);
    NextKeeps(s, Consume(true, a));
    var t, r := Next(s, Consume(true, a)), a.records;
    var c := Chain(s.allocs, s.allocs + 1, r, 1, r[..1]);
    assert c == t.chains[|s.chains|];
    ListingCompletes(t, events, c);
    assert r[..|r|] == r;
  }

  lemma BeginsSound()
    ensures Balanced(INITIAL) && Orderly(INITIAL)
  {
  }

  /** A response removes its listing from those in flight: a failed one, or one behind the last record,
      ends it as it is; otherwise the next record has been requested, and a refused read ends it. A listing
      that ends gives up its list and then its context. */
  lemma ResponseExactly(s: State, i: nat, success: bool, readOk: bool)
    requires i < |s.chains| && InOrder(s.chains[i])
    ensures var c, rest, t := s.chains[i], s.chains[..i] + s.chains[i + 1..], Next(s, Respond(i, success, readOk));
      && (if !success || c.pos == |c.records| then t.chains == rest && t.ended == s.ended + [c]
          else if readOk then t.chains == rest + [Advanced(c, 1)] && t.ended == s.ended
          else t.chains == rest && t.ended == s.ended + [Advanced(c, 1)])
      && t.freed == if t.ended == s.ended then s.freed else s.freed + [c.list, c.ctx]
  {
    var c := s.chains[i];
    if c.pos < |c.records| {
      assert c.records[..c.pos] + [c.records[c.pos]] == c.records[..c.pos + 1];
    }
  }

  /** A request joins the end of the queue, with a new block unless it is a stop call or a listing without
      filter, exactly if it is valid, the block can be allocated and the queue of 20 takes it. */
  lemma RequestExactly(s: State, kind: Kind, hasData: bool, valid: bool, mallocOk: bool, releaseOk: bool)
    ensures var t := Next(s, Request(kind, hasData, valid, mallocOk, releaseOk));
      var carries := kind.SendSms? || kind.ReadSms? || kind.DeleteSms? || (kind.ListSms? && hasData);
      if valid && (carries ==> mallocOk) && s.queueExists && |s.queue| < 20 && releaseOk then
        t.queue == s.queue + [Message(kind, if carries then Some(s.allocs) else None)]
      else t.queue == s.queue
  {
  }

  /** The worker takes messages in the order in which they came. */
  lemma ConsumeTakesFirst(s: State, a: ListAnswers)
    requires s.queueExists && s.queue != []
    ensures Next(s, Consume(true, a)).queue == if s.queue[0].kind.ExitTask? then [] else s.queue[1..]
    ensures Next(s, Consume(true, a)).queueExists <==> !s.queue[0].kind.ExitTask?
  {
  }
}
