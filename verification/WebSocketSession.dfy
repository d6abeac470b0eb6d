// The WebSocket write function over the fields it updates in place.
module WebSocketSession {
  import opened Bytes
  import opened WebSocketSender
  import Vfs

  class Session {
    const file: Vfs.OpenFile
    const chunk: nat
    var total: nat
    var used: nat
    var buf: array?<byte>
    var bufLen: nat
    var complete: bool

    constructor (data: seq<byte>, chunk: nat)
      requires chunk > 0
      ensures Valid() && fresh(file) && file.data == data && this.chunk == chunk && View() == FRESH
    {
      var f := new Vfs.OpenFile(data);
      f.open := false;
      file := f;
      this.chunk := chunk;
      total, used, buf, bufLen, complete := 0, 0, null, 0, false;
    }

    ghost function View(): (r: Transfer)
      reads this, file, buf
    {
      Transfer(total, used, file.open, file.pos, buf != null, bufLen,
               if buf != null && bufLen <= buf.Length then buf[..bufLen] else [], complete)
    }

    ghost predicate Valid()
      reads this, file, buf
    {
      && chunk > 0 && file.Valid() && InRange(file.data, chunk, View())
      && (buf != null ==> buf.Length == chunk + 1)
    }

    /** The exit path. */
    method Cleanup()
      requires file.Valid()
      modifies this`buf, this`complete, file`open
      ensures View() == Release(old(View())) && file.Valid() && buf == null
    {
      file.open := false;
      buf := null;
      complete := true;
    }

    /** Reads the next chunk into the buffer. */
    method ReadChunk(answers: seq<int>) returns (ok: bool)
      requires Valid() && buf != null && used < total
      modifies this`used, this`bufLen, file`pos, buf
      ensures
        var n := Min(total - old(used), chunk);
        var got := Vfs.ReadPatiently(file.data, old(file.pos), n, answers);
        && ok == got.ok && file.Valid() && bufLen == n
        && View().(pending := []) == 
           old(View()).(used := if ok then old(used) + n else old(used), bufLen := n,
                        pos := old(file.pos) + |got.bytes|, pending := [])
        && (ok ==> Valid() && View().pending == got.bytes)
    {
      hide Vfs.ReadPatiently;
      bufLen := Min(total - used, chunk);
      Vfs.ReadPatientlyExact(file.data, file.pos, bufLen, answers);
      var ret := Vfs.FileReadPatiently(file, buf, bufLen, answers);
      ok := ret >= 0;
      if ok {
        used := used + bufLen;
      }
    }

    /** Reads the next chunk and offers it. */
    method SendFresh(r: Round) returns (acked: seq<byte>, exit: Exit)
      requires Valid() && buf != null && used < total
      modifies this, file, buf
      ensures Valid() && (exit.Again? ==> buf == old(buf))
      ensures Result(View(), acked, exit) == FreshChunk(file.data, chunk, old(View()), r)
    {
      hide Vfs.ReadPatiently;
      acked, exit := [], Failed;
      var ok := ReadChunk(r.answers);
      if !ok {
        Cleanup();
        return;
      }
      match r.freshSend {
        case Accepted =>
          acked, exit := buf[..bufLen], Again;
          bufLen := 0;
        case BufferFull =>
          exit := Suspended;
        case Refused =>
          Cleanup();
      }
    }

    /** One round of the loop. */
    method OneRound(r: Round) returns (acked: seq<byte>, exit: Exit)
      requires Valid() && buf != null
      modifies this, file, buf
      ensures Valid() && (exit.Again? ==> buf == old(buf))
      ensures Result(View(), acked, exit) == RoundStep(file.data, chunk, old(View()), r)
    {
      hide FreshChunk;
      acked, exit := [], Failed;
      if !file.open {
        if !r.openOk || !r.statOk {
          Cleanup();
          return;
        }
        file.open := true;
        total := |file.data|;
        file.pos := 0;
      }
      if bufLen > 0 {
        match r.pendingSend {
          case Accepted =>
            acked := buf[..bufLen];
            bufLen := 0;
          case BufferFull =>
            exit := Suspended;
            return;
          case Refused =>
            Cleanup();
            return;
        }
      }
      if used < total {
        var more;
        more, exit := SendFresh(r);
        acked := acked + more;
      } else {
        Cleanup();
        exit := SentAll;
      }
    }

    /** The loop: rounds until the file is out, the send buffer is full or something fails. */
    method SendLoop(rounds: nat -> Round) returns (acked: seq<byte>, exit: Exit)
      requires Valid() && buf != null
      modifies this, file, buf
      ensures Valid()
      ensures Result(View(), acked, exit) == Loop(file.data, chunk, old(View()), rounds, 0)
    {
      hide RoundStep, Loop, InRange;
      ghost var all := Loop(file.data, chunk, View(), rounds, 0);
      UsedInRange(file.data, chunk, View());
      var k := 0;
      acked, exit := [], Again;
      while exit.Again?
        invariant Valid() && 0 <= k
        invariant exit.Again? ==> buf != null && buf == old(buf)
        invariant exit.Again? ==>
          var rest := Loop(file.data, chunk, View(), rounds, k); all == Result(rest.t, acked + rest.acked, rest.exit)
        invariant !exit.Again? ==> all == Result(View(), acked, exit)
        invariant exit.Again? ==> used <= |file.data|
        decreases exit.Again?, |file.data| - used
      {
        LoopStep(file.data, chunk, View(), rounds, k);
        ghost var sofar := acked;
        var more;
        more, exit := OneRound(rounds(k));
        ghost var rest := if exit.Again? then Loop(file.data, chunk, View(), rounds, k + 1).acked else [];
        Regroup(sofar, more, rest);
        acked := acked + more;
        k := k + 1;
      }
    }

    /** The write function: makes sure of the buffer, then loops. */
    method WriteTest(c: Call) returns (acked: seq<byte>, exit: Exit)
      requires Valid() && |c.garbage| == chunk + 1
      modifies this, file, buf
      ensures Valid()
      ensures Result(View(), acked, exit) == WriteCall(file.data, chunk, old(View()), c)
    {
      hide Loop;
      acked, exit := [], Suspended;
      if buf == null {
        if !c.mallocOk {
          return;
        }
        buf := new byte[chunk + 1](i requires 0 <= i < |c.garbage| => c.garbage[i]);
        assert buf[..bufLen] == c.garbage[..bufLen];
      }
      acked, exit := SendLoop(c.rounds);
    }
  }

  lemma Regroup(a: seq<byte>, b: seq<byte>, c: seq<byte>)
    ensures a + (b + c) == (a + b) + c && b + [] == b && a + b + [] == a + b
  {
  }

  lemma UsedInRange(file: seq<byte>, chunk: nat, t: Transfer)
    requires InRange(file, chunk, t)
    ensures t.used <= |file|
  {
  }

  lemma LoopStep(file: seq<byte>, chunk: nat, t: Transfer, rounds: nat -> Round, k: nat)
    requires InRange(file, chunk, t) && t.hasBuf && chunk > 0
    ensures var s, all := RoundStep(file, chunk, t, rounds(k)), Loop(file, chunk, t, rounds, k);
      if s.exit.Again? then
        && InRange(file, chunk, s.t) && s.t.hasBuf && t.used < s.t.used <= |file|
        && var rest := Loop(file, chunk, s.t, rounds, k + 1); all == Result(rest.t, s.acked + rest.acked, rest.exit)
      else all == s
  {
    hide RoundStep;
    RoundInRange(file, chunk, t, rounds(k));
  }
}
