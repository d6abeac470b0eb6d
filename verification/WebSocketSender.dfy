// The suspendable file transmission over WebSocket: a call sends chunks until the file is out, the
// send buffer is full or something fails, and a later call takes up where it stopped.
module WebSocketSender {
  import opened Bytes
  import Vfs

  datatype Answer = Accepted | BufferFull | Refused

  /** What the SDK answers in one round of the loop. */
  datatype Round = Round(openOk: bool, statOk: bool, pendingSend: Answer, answers: seq<int>, freshSend: Answer)

  /** One call of the write function; `garbage` is what a new allocation happens to hold. */
  datatype Call = Call(mallocOk: bool, garbage: seq<byte>, rounds: nat -> Round)

  /** The transfer's fields: if `buf` is allocated its first `bufLen` bytes are `pending`. */
  datatype Transfer = Transfer(
    total: nat, used: nat, isOpen: bool, pos: nat, hasBuf: bool, bufLen: nat, pending: seq<byte>, complete: bool)

  const FRESH := Transfer(0, 0, false, 0, false, 0, [], false)

  /** How a call or a round ended. */
  datatype Exit = Again | Suspended | SentAll | Failed

  /** The new transfer, the bytes the peer's send buffer took, in order, and how it ended. */
  datatype Result = Result(t: Transfer, acked: seq<byte>, exit: Exit)

  /** The exit path closes the file and frees the buffer; it does not touch `bufLen`. */
  function Release(t: Transfer): (r: Transfer) {
    t.(isOpen := false, hasBuf := false, pending := [], complete := true)
  }

  predicate InRange(file: seq<byte>, chunk: nat, t: Transfer) {
    && t.used <= |file| && t.total <= |file| && t.pos <= |file| && t.bufLen <= chunk
    && |t.pending| == if t.hasBuf then t.bufLen else 0
  }

  function Reopen(file: seq<byte>, t: Transfer): (r: Transfer) {
    if t.isOpen then t else t.(isOpen := true, total := |file|, pos := 0)
  }

  /** Reading the next chunk and offering it. */
  function FreshChunk(file: seq<byte>, chunk: nat, t: Transfer, r: Round): (v: Result)
    requires InRange(file, chunk, t) && t.hasBuf && t.used < t.total
  {
    var n := Min(t.total - t.used, chunk);
    var got := Vfs.ReadPatiently(file, t.pos, n, r.answers);
    Vfs.ReadPatientlyExact(file, t.pos, n, r.answers);
    var u := t.(bufLen := n, pending := got.bytes, pos := t.pos + |got.bytes|);
    if !got.ok then Result(Release(u), [], Failed)
    else
      var v := u.(used := t.used + n);
      match r.freshSend
      case Accepted => Result(v.(bufLen := 0, pending := []), got.bytes, Again)
      case BufferFull => Result(v, [], Suspended)
      case Refused => Result(Release(v), [], Failed)
  }

  /** One round of the loop: open the file if need be, flush what is pending, send the next chunk. */
  function RoundStep(file: seq<byte>, chunk: nat, t: Transfer, r: Round): (v: Result)
    requires InRange(file, chunk, t) && t.hasBuf
  {
    if !t.isOpen && (!r.openOk || !r.statOk) then Result(Release(t), [], Failed)
    else
      var u := Reopen(file, t);
      if u.bufLen > 0 && r.pendingSend.BufferFull? then Result(u, [], Suspended)
      else if u.bufLen > 0 && r.pendingSend.Refused? then Result(Release(u), [], Failed)
      else
        var v := u.(bufLen := 0, pending := []);
        if v.used < v.total then
          var next := FreshChunk(file, chunk, v, r);
          Result(next.t, u.pending + next.acked, next.exit)
        else Result(Release(v), u.pending, SentAll)
  }

  lemma ChunkInRange(file: seq<byte>, chunk: nat, t: Transfer, r: Round)
    requires InRange(file, chunk, t) && t.hasBuf && t.used < t.total && chunk > 0
    ensures var s := FreshChunk(file, chunk, t, r);
      InRange(file, chunk, s.t) && (s.exit.Again? ==> s.t.hasBuf && s.t.used > t.used)
  {
    hide Vfs.ReadPatiently;
    Vfs.ReadPatientlyExact(file, t.pos, Min(t.total - t.used, chunk), r.answers);
  }

  lemma RoundInRange(file: seq<byte>, chunk: nat, t: Transfer, r: Round)
    requires InRange(file, chunk, t) && t.hasBuf && chunk > 0
    ensures var s := RoundStep(file, chunk, t, r);
      InRange(file, chunk, s.t) && (s.exit.Again? ==> s.t.hasBuf && s.t.used > t.used)
  {
    hide FreshChunk;
    var v := Reopen(file, t).(bufLen := 0, pending := []);
    if v.used < v.total {
      ChunkInRange(file, chunk, v, r);
    }
  }

  function Loop(file: seq<byte>, chunk: nat, t: Transfer, rounds: nat -> Round, k: nat): (r: Result)
    requires InRange(file, chunk, t) && t.hasBuf && chunk > 0
    decreases |file| - t.used
  {
    var s := RoundStep(file, chunk, t, rounds(k));
    RoundInRange(file, chunk, t, rounds(k));
    if s.exit.Again? then
      var rest := Loop(file, chunk, s.t, rounds, k + 1);
      Result(rest.t, s.acked + rest.acked, rest.exit)
    else s
  }

  /** The chunk buffer is allocated if it is missing; whatever the memory holds becomes its content. */
  function Allocate(t: Transfer, garbage: seq<byte>): (r: Transfer)
    requires t.bufLen <= |garbage|
  {
    if t.hasBuf then t else t.(hasBuf := true, pending := garbage[..t.bufLen])
  }

  /** A whole call. */
  function WriteCall(file: seq<byte>, chunk: nat, t: Transfer, c: Call): (r: Result)
    requires InRange(file, chunk, t) && chunk > 0 && |c.garbage| == chunk + 1
  {
    if !t.hasBuf && !c.mallocOk then Result(t, [], Suspended)
    else Loop(file, chunk, Allocate(t, c.garbage), c.rounds, 0)
  }

  // ---------- the invariant ----------

  /** What the peer took and what is pending make up the file as far as it was read. An open file is
      positioned there; without one, nothing is pending and the file is unread or all sent. */
  ghost predicate Inv(file: seq<byte>, chunk: nat, t: Transfer, acked: seq<byte>) {
    && InRange(file, chunk, t)
    && acked + t.pending == file[..t.used]
    && (t.isOpen ==> t.hasBuf && t.pos == t.used && t.total == |file|)
    && (!t.isOpen ==> t.bufLen == 0 && (t.used == 0 || t.used == |file|))
  }

  lemma FreshKeeps(file: seq<byte>, chunk: nat, t: Transfer, r: Round, acked: seq<byte>)
    requires chunk > 0 && Inv(file, chunk, t, acked) && t.isOpen && t.bufLen == 0 && t.used < t.total
    ensures var s := FreshChunk(file, chunk, t, r);
      && (!s.exit.Failed? ==> Inv(file, chunk, s.t, acked + s.acked))
      && !s.exit.SentAll? && acked + s.acked <= file
      && (s.exit.Failed? ==> s.t.bufLen > 0)
  {
    hide Vfs.ReadPatiently;
    var n := Min(t.total - t.used, chunk);
    Vfs.ReadPatientlyExact(file, t.pos, n, r.answers);
    assert acked == acked + [] == file[..t.used];
    assert file[..t.used] + file[t.used..t.used + n] == file[..t.used + n];
  }

  /** One round, whatever the SDK answers. A failure that leaves a chunk behind (`bufLen > 0`) is the only
      way out of the invariant. */
  lemma RoundKeeps(file: seq<byte>, chunk: nat, t: Transfer, r: Round, acked: seq<byte>)
    requires chunk > 0 && Inv(file, chunk, t, acked) && t.hasBuf
    ensures var s := RoundStep(file, chunk, t, r);
      && ((s.exit.Failed? && s.t.bufLen > 0) || Inv(file, chunk, s.t, acked + s.acked))
      && acked + s.acked <= file
      && (s.exit.SentAll? ==> acked + s.acked == file)
  {
    hide FreshChunk;
    assert acked + [] == acked;
    if t.isOpen || (r.openOk && r.statOk) {
      var u := Reopen(file, t);
      if u.bufLen == 0 || r.pendingSend.Accepted? {
        var v := u.(bufLen := 0, pending := []);
        var now := acked + u.pending;
        assert now + [] == now;
        if v.used < v.total {
          FreshKeeps(file, chunk, v, r, now);
          var next := FreshChunk(file, chunk, v, r);
          assert acked + (u.pending + next.acked) == now + next.acked;
        } else {
          assert file[..|file|] == file;
        }
      }
    }
  }

  lemma {:induction false} LoopKeeps(
    file: seq<byte>, chunk: nat, t: Transfer, rounds: nat -> Round, k: nat, acked: seq<byte>)
    requires chunk > 0 && Inv(file, chunk, t, acked) && t.hasBuf
    ensures var s := Loop(file, chunk, t, rounds, k);
      && ((s.exit.Failed? && s.t.bufLen > 0) || Inv(file, chunk, s.t, acked + s.acked))
      && acked + s.acked <= file
      && (s.exit.SentAll? ==> acked + s.acked == file)
      && !s.exit.Again?
    decreases |file| - t.used
  {
    hide RoundStep;
    RoundKeeps(file, chunk, t, rounds(k), acked);
    RoundInRange(file, chunk, t, rounds(k));
    var s := RoundStep(file, chunk, t, rounds(k));
    if s.exit.Again? {
      LoopKeeps(file, chunk, s.t, rounds, k + 1, acked + s.acked);
      var rest := Loop(file, chunk, s.t, rounds, k + 1);
      assert acked + (s.acked + rest.acked) == (acked + s.acked) + rest.acked;
    }
  }

  // ---------- sequences of calls ----------

  ghost predicate Dirty(s: Result) {
    s.exit.Failed? && s.t.bufLen > 0
  }

  lemma CallKeeps(file: seq<byte>, chunk: nat, t: Transfer, c: Call, acked: seq<byte>)
    requires chunk > 0 && Inv(file, chunk, t, acked) && |c.garbage| == chunk + 1
    ensures var s := WriteCall(file, chunk, t, c);
      && (Dirty(s) || Inv(file, chunk, s.t, acked + s.acked))
      && acked + s.acked <= file
      && (s.exit.SentAll? ==> acked + s.acked == file)
  {
    hide Loop;
    assert acked + [] == acked;
    if t.hasBuf || c.mallocOk {
      assert c.garbage[..0] == [];
      LoopKeeps(file, chunk, Allocate(t, c.garbage), c.rounds, 0, acked);
    }
  }

  /** The transfer after some calls, the bytes taken so far and whether some call reported the end. */
  datatype History = History(t: Transfer, acked: seq<byte>, ended: bool)

  /** Calls as long as none fails with a chunk left behind. */
  ghost predicate CleanCalls(file: seq<byte>, chunk: nat, t: Transfer, calls: seq<Call>)
    requires chunk > 0
    decreases |calls|
  {
    && InRange(file, chunk, t)
    && (|calls| > 0 ==>
          && |calls[0].garbage| == chunk + 1
          && !Dirty(WriteCall(file, chunk, t, calls[0]))
          && CleanCalls(file, chunk, WriteCall(file, chunk, t, calls[0]).t, calls[1..]))
  }

  ghost function Run(file: seq<byte>, chunk: nat, h: History, calls: seq<Call>): (r: History)
    requires chunk > 0 && CleanCalls(file, chunk, h.t, calls)
    decreases |calls|
  {
    if |calls| == 0 then h
    else
      var s := WriteCall(file, chunk, h.t, calls[0]);
      Run(file, chunk, History(s.t, h.acked + s.acked, h.ended || s.exit.SentAll?), calls[1..])
  }

  lemma {:induction false} RunKeeps(file: seq<byte>, chunk: nat, h: History, calls: seq<Call>)
    requires chunk > 0 && CleanCalls(file, chunk, h.t, calls)
    requires Inv(file, chunk, h.t, h.acked) && (h.ended ==> h.acked == file)
    ensures var g := Run(file, chunk, h, calls); Inv(file, chunk, g.t, g.acked) && (g.ended ==> g.acked == file)
    decreases |calls|
  {
    hide WriteCall, Inv;
    if |calls| > 0 {
      CallKeeps(file, chunk, h.t, calls[0], h.acked);
      var s := WriteCall(file, chunk, h.t, calls[0]);
      RunKeeps(file, chunk, History(s.t, h.acked + s.acked, h.ended || s.exit.SentAll?), calls[1..]);
    }
  }

  /** Over every sequence of calls and every pattern of full buffers the bytes taken plus the pending
      ones are the file as far as it was read; once a call has reported the end the whole file was
      taken, and no later call sends any of it again. A last call that fails in any way, also with a chunk
      left behind, still sends only the next bytes of the file. */
  lemma FileConserved(file: seq<byte>, chunk: nat, calls: seq<Call>, last: Call)
    requires chunk > 0 && CleanCalls(file, chunk, FRESH, calls) && |last.garbage| == chunk + 1
    ensures var g := Run(file, chunk, History(FRESH, [], false), calls);
      && InRange(file, chunk, g.t) && g.acked + g.t.pending == file[..g.t.used]
      && (g.ended ==> g.acked == file)
      && var s := WriteCall(file, chunk, g.t, last);
         g.acked + s.acked <= file && (s.exit.SentAll? || g.ended ==> g.acked + s.acked == file)
  {
    hide WriteCall;
    RunKeeps(file, chunk, History(FRESH, [], false), calls);
    var g := Run(file, chunk, History(FRESH, [], false), calls);
    CallKeeps(file, chunk, g.t, last, g.acked);
  }

  // ---------- how a call ends ----------

  /** The chunks that `n` octets make. */
  function Chunks(n: nat, chunk: nat): (k: nat)
    requires chunk > 0
  {
    if n == 0 then 0 else 1 + Chunks(n - Min(n, chunk), chunk)
  }

  lemma {:induction false} ChunksIsCeiling(n: nat, chunk: nat)
    requires chunk > 0
    ensures n <= Chunks(n, chunk) * chunk < n + chunk
  {
    if n > 0 {
      var rest := n - Min(n, chunk);
      ChunksIsCeiling(rest, chunk);
      assert Chunks(n, chunk) * chunk == chunk + Chunks(rest, chunk) * chunk;
    }
  }

  /** A round in which nothing fails; the send buffer may be full. */
  predicate Smooth(r: Round, chunk: nat) {
    && r.openOk && r.statOk && Vfs.BroughtInAll(r.answers) >= chunk
    && !r.pendingSend.Refused? && !r.freshSend.Refused?
  }

  /** A round fails exactly if it needs the file and cannot open it, a send is refused, or the next chunk
      is due and cannot be read or sent. */
  lemma RoundFailsExactly(file: seq<byte>, chunk: nat, t: Transfer, r: Round, acked: seq<byte>)
    requires chunk > 0 && Inv(file, chunk, t, acked) && t.hasBuf
    ensures RoundStep(file, chunk, t, r).exit.Failed? <==>
      || (!t.isOpen && !(r.openOk && r.statOk))
      || (t.bufLen > 0 && r.pendingSend.Refused?)
      || ((t.bufLen == 0 || r.pendingSend.Accepted?) && t.used < |file| &&
            (Vfs.BroughtInAll(r.answers) < Min(|file| - t.used, chunk) || r.freshSend.Refused?))
  {
    hide Vfs.ReadPatiently;
    if t.used < |file| {
      Vfs.ReadPatientlyOkExactly(file, t.used, Min(|file| - t.used, chunk), r.answers);
    }
  }

  lemma SmoothRound(file: seq<byte>, chunk: nat, t: Transfer, r: Round, acked: seq<byte>)
    requires chunk > 0 && Inv(file, chunk, t, acked) && t.hasBuf && Smooth(r, chunk)
    ensures var s := RoundStep(file, chunk, t, r);
      if t.bufLen > 0 && r.pendingSend.BufferFull? then s.exit.Suspended?
      else if t.used == |file| then s.exit.SentAll?
      else if r.freshSend.BufferFull? then s.exit.Suspended?
      else s.exit.Again? && s.t.bufLen == 0 && s.t.used == t.used + Min(|file| - t.used, chunk)
  {
    hide Vfs.ReadPatiently;
    if t.used < |file| {
      Vfs.ReadPatientlyOkExactly(file, t.used, Min(|file| - t.used, chunk), r.answers);
    }
  }

  /** The loop meets a full send buffer: with what is pending, or with one of the chunks that are left. */
  ghost predicate MeetsFull(file: seq<byte>, chunk: nat, t: Transfer, rounds: nat -> Round, k: nat)
    requires chunk > 0 && t.used <= |file|
  {
    || (t.bufLen > 0 && rounds(k).pendingSend.BufferFull?)
    || exists j: nat :: k <= j < k + Chunks(|file| - t.used, chunk) && rounds(j).freshSend.BufferFull?
  }

  lemma {:induction false} LoopEnds(
    file: seq<byte>, chunk: nat, t: Transfer, rounds: nat -> Round, k: nat, acked: seq<byte>)
    requires chunk > 0 && Inv(file, chunk, t, acked) && t.hasBuf
    requires forall j: nat :: k <= j ==> Smooth(rounds(j), chunk)
    ensures Loop(file, chunk, t, rounds, k).exit == if MeetsFull(file, chunk, t, rounds, k) then Suspended else SentAll
    decreases |file| - t.used
  {
    hide RoundStep, Inv, Smooth;
    InvBounds(file, chunk, t, acked);
    RoundKeeps(file, chunk, t, rounds(k), acked);
    RoundInRange(file, chunk, t, rounds(k));
    SmoothRound(file, chunk, t, rounds(k), acked);
    var s := RoundStep(file, chunk, t, rounds(k));
    if s.exit.Again? {
      LoopEnds(file, chunk, s.t, rounds, k + 1, acked + s.acked);
    }
  }

  lemma InvBounds(file: seq<byte>, chunk: nat, t: Transfer, acked: seq<byte>)
    requires Inv(file, chunk, t, acked)
    ensures InRange(file, chunk, t) && (!t.hasBuf ==> t.bufLen == 0)
  {
  }

  /** A call in which nothing fails is suspended exactly if the buffer cannot be allocated or one of its
      sends, the pending one or that of a chunk left, finds the send buffer full; otherwise it sends all. */
  lemma SuspendedExactly(file: seq<byte>, chunk: nat, t: Transfer, c: Call, acked: seq<byte>)
    requires chunk > 0 && Inv(file, chunk, t, acked) && |c.garbage| == chunk + 1
    requires forall j: nat :: Smooth(c.rounds(j), chunk)
    ensures WriteCall(file, chunk, t, c).exit ==
      if (!t.hasBuf && !c.mallocOk) || MeetsFull(file, chunk, t, c.rounds, 0) then Suspended else SentAll
  {
    hide Loop, Smooth;
    if t.hasBuf || c.mallocOk {
      assert c.garbage[..0] == [];
      LoopEnds(file, chunk, Allocate(t, c.garbage), c.rounds, 0, acked);
    }
  }

  /** A call in which every open, read and send works. */
  ghost predicate Accepting(c: Call, chunk: nat) {
    c.mallocOk && forall j: nat ::
      Smooth(c.rounds(j), chunk) && c.rounds(j).pendingSend.Accepted? && c.rounds(j).freshSend.Accepted?
  }

  /** After any sequence of calls, suspended as often as it may be, one accepting call sends the rest of the
      file, reports the end and sets `complete`; from the start it sends the whole file. */
  lemma FileCompletes(file: seq<byte>, chunk: nat, calls: seq<Call>, last: Call)
    requires chunk > 0 && CleanCalls(file, chunk, FRESH, calls) && |last.garbage| == chunk + 1 && Accepting(last, chunk)
    ensures var g := Run(file, chunk, History(FRESH, [], false), calls);
      && InRange(file, chunk, g.t)
      && var s := WriteCall(file, chunk, g.t, last);
         s.exit.SentAll? && g.acked + s.acked == file && s.t.complete
  {
    hide WriteCall, Smooth;
    RunKeeps(file, chunk, History(FRESH, [], false), calls);
    var g := Run(file, chunk, History(FRESH, [], false), calls);
    CallKeeps(file, chunk, g.t, last, g.acked);
    SuspendedExactly(file, chunk, g.t, last, g.acked);
    CallReleases(file, chunk, g.t, last);
  }

  // ---------- calling again after a failure ----------

  /** Such a failure is one refused send away: the very first call on any file that opens. */
  lemma RefusedSendLeavesChunk(file: seq<byte>, chunk: nat, c: Call)
    requires chunk > 0 && file != [] && |c.garbage| == chunk + 1 && c.mallocOk
    requires c.rounds(0).openOk && c.rounds(0).statOk && c.rounds(0).freshSend.Refused?
    ensures var s := WriteCall(file, chunk, FRESH, c); Dirty(s) && !s.t.isOpen && !s.t.hasBuf
  {
    hide Vfs.ReadPatiently;
  }

  /** A call made after a failure that left a chunk behind sends what the new buffer happens to hold. */
  lemma DirtyRetrySendsGarbage(file: seq<byte>, chunk: nat, t: Transfer, c: Call)
    requires chunk > 0 && InRange(file, chunk, t) && !t.isOpen && !t.hasBuf && t.bufLen > 0
    requires |c.garbage| == chunk + 1 && c.mallocOk
    requires c.rounds(0).openOk && c.rounds(0).statOk && c.rounds(0).pendingSend.Accepted?
    ensures c.garbage[..t.bufLen] <= WriteCall(file, chunk, t, c).acked
  {
    hide FreshChunk;
    var u := Allocate(t, c.garbage);
    assert c.garbage[..t.bufLen] <= RoundStep(file, chunk, u, c.rounds(0)).acked;
  }

  /** After a failed call the transfer can be resumed safely, whatever the SDK does, exactly if no chunk was
      left behind. */
  lemma RetrySafeExactly(file: seq<byte>, chunk: nat, t: Transfer, c: Call, acked: seq<byte>)
    requires chunk > 0 && Inv(file, chunk, t, acked) && |c.garbage| == chunk + 1
    requires WriteCall(file, chunk, t, c).exit.Failed?
    ensures var s := WriteCall(file, chunk, t, c);
      && InRange(file, chunk, s.t)
      && (s.t.bufLen == 0 <==>
            (forall d: Call :: |d.garbage| == chunk + 1 ==>
               acked + s.acked + WriteCall(file, chunk, s.t, d).acked <= file))
  {
    hide Loop;
    CallKeeps(file, chunk, t, c, acked);
    CallReleases(file, chunk, t, c);
    var s := WriteCall(file, chunk, t, c);
    var now := acked + s.acked;
    if s.t.bufLen == 0 {
      forall d: Call | |d.garbage| == chunk + 1
        ensures now + WriteCall(file, chunk, s.t, d).acked <= file
      {
        CallKeeps(file, chunk, s.t, d, now);
      }
    } else {
      var d := BadCall(file, chunk, s.t, now);
      assert !(now + WriteCall(file, chunk, s.t, d).acked <= file);
    }
  }

  predicate Released(t: Transfer, s: Result) {
    if s.exit.SentAll? || s.exit.Failed? then s.t.complete && !s.t.isOpen && !s.t.hasBuf
    else s.t.complete == t.complete
  }

  lemma RoundReleases(file: seq<byte>, chunk: nat, t: Transfer, r: Round)
    requires chunk > 0 && InRange(file, chunk, t) && t.hasBuf
    ensures Released(t, RoundStep(file, chunk, t, r))
  {
    hide Vfs.ReadPatiently, InRange;
  }

  lemma {:induction false} LoopReleases(file: seq<byte>, chunk: nat, t: Transfer, rounds: nat -> Round, k: nat)
    requires chunk > 0 && InRange(file, chunk, t) && t.hasBuf
    ensures var s := Loop(file, chunk, t, rounds, k);
      InRange(file, chunk, s.t) && Released(t, s)
    decreases |file| - t.used
  {
    hide RoundStep;
    RoundInRange(file, chunk, t, rounds(k));
    RoundReleases(file, chunk, t, rounds(k));
    var s := RoundStep(file, chunk, t, rounds(k));
    if s.exit.Again? {
      LoopReleases(file, chunk, s.t, rounds, k + 1);
    }
  }

  /** Every call that ends the transfer, well or badly, closes the file, frees the buffer and sets
      `complete`; a suspended one leaves `complete` alone. */
  lemma CallReleases(file: seq<byte>, chunk: nat, t: Transfer, c: Call)
    requires chunk > 0 && InRange(file, chunk, t) && |c.garbage| == chunk + 1
    ensures var s := WriteCall(file, chunk, t, c); InRange(file, chunk, s.t) && Released(t, s)
  {
    if t.hasBuf || c.mallocOk {
      LoopReleases(file, chunk, Allocate(t, c.garbage), c.rounds, 0);
    }
  }

  /** Memory whose first byte is not the file's next one. */
  lemma BadCall(file: seq<byte>, chunk: nat, t: Transfer, now: seq<byte>) returns (d: Call)
    requires chunk > 0 && InRange(file, chunk, t) && !t.isOpen && !t.hasBuf && t.bufLen > 0 && now <= file
    ensures |d.garbage| == chunk + 1 && !(now + WriteCall(file, chunk, t, d).acked <= file)
  {
    hide Loop;
    var wrong: byte := if |now| < |file| && file[|now|] == 0 then 1 else 0;
    var garbage := seq(chunk + 1, i => wrong);
    d := Call(true, garbage, (k: nat) => Round(true, true, Accepted, [], Refused));
    DirtyRetrySendsGarbage(file, chunk, t, d);
    var more := WriteCall(file, chunk, t, d).acked;
    assert more[0] == garbage[..t.bufLen][0] == wrong;
    assert (now + more)[|now|] == wrong;
  }
}
