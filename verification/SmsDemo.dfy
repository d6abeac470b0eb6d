// The SMS demo's APIs, task and listing callbacks over the state they change in place.
module SmsDemo {
  import opened Bytes
  import opened SmsOwnership

  class Demo {
    var allocs: nat
    var freed: seq<nat>
    var leaked: seq<nat>
    var started: bool
    var queueExists: bool
    var queue: seq<Message>
    var chains: seq<Chain>
    var ended: seq<Chain>

    constructor ()
      ensures View() == INITIAL
    {
      allocs, freed, leaked, started, queueExists := 0, [], [], false, false;
      queue, chains, ended := [], [], [];
    }

    ghost function View(): (t: State)
      reads this
    {
      State(allocs, freed, leaked, started, queueExists, queue, chains, ended)
    }

    method Malloc() returns (block: nat)
      modifies this`allocs
      ensures block == old(allocs) && View() == old(View()).(allocs := allocs) && allocs == block + 1
    {
      block := allocs;
      allocs := allocs + 1;
    }

    method FreeBlock(block: nat)
      modifies this`freed
      ensures View() == Free(old(View()), block)
    {
      freed := freed + [block];
    }

    /** The non-waiting queue release. */
    method Release(m: Message, ok: bool) returns (taken: bool)
      modifies this`queue
      ensures taken == Takes(old(View()), ok)
      ensures View() == old(View()).(queue := if taken then old(queue) + [m] else old(queue))
    {
      taken := queueExists && |queue| < QUEUE_CAPACITY && ok;
      if taken {
        queue := queue + [m];
      }
    }

    /** A request API: validate, allocate, post; free the block again if the queue does not take it. */
    method RequestMessage(kind: Kind, hasData: bool, valid: bool, mallocOk: bool, releaseOk: bool) returns (ret: int)
      modifies this
      ensures View() == RequestStep(old(View()), kind, hasData, valid, mallocOk, releaseOk)
      ensures ret == 0 <==> |queue| == |old(queue)| + 1
      ensures ret in {0, -1}
    {
      if !valid {
        return -1;
      }
      var data: Option<nat> := None;
      if kind.SendSms? || kind.ReadSms? || kind.DeleteSms? || (kind.ListSms? && hasData) {
        if !mallocOk {
          return -1;
        }
        var block := Malloc();
        data := Some(block);
      }
      var taken := Release(Message(kind, data), releaseOk);
      if !taken {
        if data.Some? {
          FreeBlock(data.value);
        }
        return -1;
      }
      return 0;
    }

    /** Frees a listing's blocks. */
    method Deinit(c: Chain)
      modifies this`freed, this`ended
      ensures View() == Retire(old(View()), c)
    {
      FreeBlock(c.list);
      FreeBlock(c.ctx);
      ended := ended + [c];
    }

    /** The cursor: the next record index and the advanced chain, or -1 at the end. */
    method FetchNext(c: Chain) returns (index: int, next: Chain)
      ensures c.pos >= |c.records| ==> index == -1 && next == c
      ensures c.pos < |c.records| ==>
        index == c.records[c.pos] && next == c.(pos := c.pos + 1, requested := c.requested + [c.records[c.pos]])
    {
      if c.pos >= |c.records| {
        return -1, c;
      }
      return c.records[c.pos], c.(pos := c.pos + 1, requested := c.requested + [c.records[c.pos]]);
    }

    /** Requests the next record of a chain, or ends the chain; `asked` if a record was left to request. */
    method ReadNext(c: Chain, readOk: bool) returns (asked: bool)
      modifies this`freed, this`ended, this`chains
      ensures View() == Advance(old(View()), c, readOk)
      ensures asked <==> c.pos < |c.records|
    {
      var index, next := FetchNext(c);
      if index < 0 {
        Deinit(c);
        return false;
      }
      if readOk {
        chains := chains + [next];
      } else {
        Deinit(next);
      }
      return true;
    }

    /** Starts a listing; a first read that is refused because there is no message counts as success. */
    method ListMessages(a: ListAnswers) returns (ret: int)
      modifies this
      ensures View() == StartListing(old(View()), a)
      ensures ret in {0, -1}
      ensures ret == 0 <==>
        && a.filterOk && a.ctxOk && a.infoOk && a.listOk && a.recordsOk
        && (a.records == [] || a.readOk || a.noMessage)
    {
      if !a.filterOk || !a.ctxOk {
        return -1;
      }
      var ctx := Malloc();
      if !a.infoOk || !a.listOk {
        FreeBlock(ctx);
        return -1;
      }
      var list := Malloc();
      if !a.recordsOk {
        FreeBlock(list);
        FreeBlock(ctx);
        return -1;
      }
      var asked := ReadNext(Chain(ctx, list, a.records, 0, []), a.readOk);
      if asked && !a.readOk && !a.noMessage {
        return -1;
      }
      return 0;
    }

    /** The response to a read request of the i-th listing in flight. */
    method ListResponse(i: nat, success: bool, readOk: bool)
      requires i < |chains|
      modifies this
      ensures View() == RespondStep(old(View()), i, success, readOk)
    {
      var c := chains[i];
      chains := chains[..i] + chains[i + 1..];
      if success {
        var _ := ReadNext(c, readOk);
      } else {
        Deinit(c);
      }
    }

    /** One turn of the worker's loop; `exit` tells it to end. */
    method TaskTurn(waitOk: bool, answers: ListAnswers) returns (exit: bool)
      modifies this
      ensures View() == Next(old(View()), Consume(waitOk, answers))
      ensures exit <==> old(queueExists) && !queueExists
    {
      hide StartListing;
      exit := false;
      if !queueExists || queue == [] || !waitOk {
        return;
      }
      var m := queue[0];
      queue := queue[1..];
      if m.kind.ExitTask? {
        leaked := leaked + Blocks(queue);
        queueExists, queue := false, [];
        exit := true;
        return;
      }
      if m.kind.ListSms? {
        ListingKeepsQueue(View(), answers);
        var _ := ListMessages(answers);
      }
      if m.data.Some? {
        FreeBlock(m.data.value);
      }
    }
  }

  lemma ListingKeepsQueue(s: State, a: ListAnswers)
    ensures StartListing(s, a).queueExists == s.queueExists
  {
  }
}
