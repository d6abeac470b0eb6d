// The CAN unit-event mailbox: an interrupt overwrites the report and bumps one 32-bit counter, a
// poll with interrupts masked compares it with another. The same interrupts decide how a transmission ends.
module CanMailbox {
  import opened Bytes

  const UINT := 0x1_0000_0000

  const BUS_OFF := 4

  /** A message is on its way, was sent, or was given up because the unit went off the bus. */
  datatype TxState = Started | Complete | Aborted

  /** The words that interrupts and the poll share, and how many reports came since the last handled poll. */
  datatype Box = Box(reportCnt: nat, handledCnt: nat, report: nat, tx: TxState, unhandled: nat)

  const CLEARED := Box(0, 0, 0, Started, 0)

  datatype Event = Report(event: nat) | Poll | TxStart | TxComplete

  /** What a poll passes on: the event, whether reports were lost, and whether it asks for recovery. */
  datatype Delivery = Delivery(event: nat, lost: bool, recover: bool)

  function Signal(b: Box, event: nat): (c: Box) {
    b.(reportCnt := (b.reportCnt + 1) % UINT, report := event, unhandled := b.unhandled + 1,
       tx := if b.tx.Started? && event == BUS_OFF then Aborted else b.tx)
  }

  function Check(b: Box): (r: (Box, Option<Delivery>)) {
    if b.reportCnt != b.handledCnt then
      (b.(handledCnt := b.reportCnt, unhandled := 0),
       Some(Delivery(b.report, b.reportCnt != (b.handledCnt + 1) % UINT, b.report == BUS_OFF)))
    else (b, None)
  }

  function Next(b: Box, e: Event): (c: Box) {
    match e
    case Report(event) => Signal(b, event)
    case Poll => Check(b).0
    case TxStart => b.(tx := Started)
    case TxComplete => b.(tx := Complete)
  }

  function Run(b: Box, events: seq<Event>): (c: Box)
    decreases |events|
  {
    if |events| == 0 then b else Run(Next(b, events[0]), events[1..])
  }

  /** The most recent report of a run, or the given one if there is none. */
  function Latest(events: seq<Event>, before: nat): (event: nat) {
    if |events| == 0 then before
    else Latest(events[1..], if events[0].Report? then events[0].event else before)
  }

  predicate Inv(b: Box) {
    b.reportCnt < UINT && b.handledCnt < UINT && b.reportCnt == (b.handledCnt + b.unhandled) % UINT
  }

  lemma {:induction false} RunKeeps(b: Box, events: seq<Event>)
    requires Inv(b)
    ensures Inv(Run(b, events)) && Run(b, events).report == Latest(events, b.report)
    decreases |events|
  {
    if |events| > 0 {
      if events[0].Report? {
        WrapStep(b.handledCnt + b.unhandled);
      }
      RunKeeps(Next(b, events[0]), events[1..]);
    }
  }

  lemma WrapStep(x: nat)
    ensures (x % UINT + 1) % UINT == (x + 1) % UINT
  {
  }

  /** Differences of wrapped counters are differences of what they count, up to 2^32. */
  lemma WrapCompare(h: nat, n: nat, k: nat)
    requires h < UINT && k < UINT
    ensures (h + n) % UINT == (h + k) % UINT <==> n % UINT == k
  {
    var q, r := n / UINT, n % UINT;
    assert n == q * UINT + r;
    assert (h + n) % UINT == (h + r) % UINT by {
      assert h + n == (h + r) + q * UINT;
      ModShift(h + r, q);
    }
  }

  lemma {:induction false} ModShift(x: nat, q: nat)
    ensures (x + q * UINT) % UINT == x % UINT
  {
    if q > 0 {
      ModShift(x, q - 1);
      assert x + q * UINT == (x + (q - 1) * UINT) + UINT;
    }
  }

  /** The reports since the last poll that delivered one, counted in the events alone. */
  function Unseen(events: seq<Event>): (n: nat) {
    if |events| == 0 then 0
    else
      var n, last := Unseen(events[..|events| - 1]), events[|events| - 1];
      if last.Report? then n + 1
      else if last.Poll? && n % UINT != 0 then 0
      else n
  }

  lemma {:induction false} RunAppend(b: Box, events: seq<Event>, e: Event)
    ensures Run(b, events + [e]) == Next(Run(b, events), e)
    decreases |events|
  {
    hide Next;
    if |events| == 0 {
      assert events + [e] == [e] && [e][1..] == [];
    } else {
      RunAppend(Next(b, events[0]), events[1..], e);
      assert (events + [e])[1..] == events[1..] + [e];
    }
  }

  lemma {:induction false} UnhandledIsUnseen(events: seq<Event>)
    ensures Run(CLEARED, events).unhandled == Unseen(events)
  {
    if |events| > 0 {
      var init, last := events[..|events| - 1], events[|events| - 1];
      UnhandledIsUnseen(init);
      RunAppend(CLEARED, init, last);
      assert events == init + [last];
      RunKeeps(CLEARED, init);
      var b := Run(CLEARED, init);
      WrapCompare(b.handledCnt, b.unhandled, 0);
    }
  }

  /** After any interleaving of reports and polls, with n reports since the last poll that delivered: the
      next poll delivers the latest report unless n is a multiple of 2^32, asks for recovery if that is
      bus-off (an earlier bus-off is forgotten), and flags a loss unless n is 1 modulo 2^32. Hence it is
      exact, delivering if and only if n > 0 and flagging if and only if n > 1, precisely when n is at
      most 1 or leaves a remainder above 1; in particular whenever n < 2^32. */
  lemma PollExactly(events: seq<Event>)
    ensures var n, d := Unseen(events), Check(Run(CLEARED, events)).1;
      && (d.Some? <==> n % 0x1_0000_0000 != 0)
      && (d.Some? ==> d.value.event == Latest(events, 0))
      && (d.Some? && d.value.recover <==> n % 0x1_0000_0000 != 0 && Latest(events, 0) == 4)
      && (d.Some? ==> (d.value.lost <==> n % 0x1_0000_0000 != 1))
      && (((d.Some? <==> n > 0) && (d.Some? ==> (d.value.lost <==> n > 1))) <==> n <= 1 || n % 0x1_0000_0000 > 1)
  {
    RunKeeps(CLEARED, events);
    UnhandledIsUnseen(events);
    var b := Run(CLEARED, events);
    WrapCompare(b.handledCnt, b.unhandled, 0);
    WrapCompare(b.handledCnt, b.unhandled, 1);
  }

  lemma {:induction false} ReportsAddUp(b: Box, events: seq<Event>)
    requires forall k :: 0 <= k < |events| ==> events[k].Report?
    ensures Run(b, events).unhandled == b.unhandled + |events|
    decreases |events|
  {
    if |events| > 0 {
      ReportsAddUp(Next(b, events[0]), events[1..]);
    }
  }

  /** The counters do wrap: after 2^32 reports, whatever they are, a poll sees none of them, and after one
      more it delivers that one and flags no loss. */
  lemma WrappedReportsMissed(events: seq<Event>, last: nat)
    requires |events| == UINT && forall k :: 0 <= k < UINT ==> events[k].Report?
    ensures Check(Run(CLEARED, events)).1 == None
    ensures Check(Run(CLEARED, events + [Report(last)])).1 == Some(Delivery(last, false, last == BUS_OFF))
  {
    var more := events + [Report(last)];
    ReportsAddUp(CLEARED, events);
    ReportsAddUp(CLEARED, more);
    UnhandledIsUnseen(events);
    UnhandledIsUnseen(more);
    PollExactly(events);
    PollExactly(more);
    LatestLast(events, last, 0);
  }

  lemma {:induction false} LatestLast(events: seq<Event>, last: nat, before: nat)
    ensures Latest(events + [Report(last)], before) == last
  {
    var more := events + [Report(last)];
    if |events| == 0 {
      assert more[1..] == [];
    } else {
      assert more[1..] == events[1..] + [Report(last)];
      LatestLast(events[1..], last, if events[0].Report? then events[0].event else before);
    }
  }

  // ---------- transmissions ----------

  /** How a transmission stands: complete if it was ever completed since its start, before or after a
      bus-off; otherwise aborted if there was a bus-off; polls and other reports do not matter. */
  lemma {:induction false} TxOutcome(b: Box, events: seq<Event>)
    requires TxStart !in events
    ensures Run(b, events).tx ==
      if TxComplete in events then Complete
      else if b.tx.Started? && Report(BUS_OFF) in events then Aborted
      else b.tx
    decreases |events|
  {
    hide Check;
    if |events| > 0 {
      assert events == [events[0]] + events[1..];
      CheckKeepsTx(b);
      TxOutcome(Next(b, events[0]), events[1..]);
    }
  }

  lemma CheckKeepsTx(b: Box)
    ensures Check(b).0.tx == b.tx
  {
  }

  class Mailbox {
    var reportCnt: nat
    var handledCnt: nat
    var report: nat
    var tx: TxState
    ghost var unhandled: nat

    constructor ()
      ensures View() == CLEARED
    {
      reportCnt, handledCnt, report, tx, unhandled := 0, 0, 0, Started, 0;
    }

    ghost function View(): (b: Box)
      reads this
    {
      Box(reportCnt, handledCnt, report, tx, unhandled)
    }

    method SignalUnitEvent(event: nat)
      modifies this
      ensures View() == Signal(old(View()), event)
    {
      reportCnt := (reportCnt + 1) % UINT;
      report := event;
      unhandled := unhandled + 1;
      if tx.Started? && event == BUS_OFF {
        tx := Aborted;
      }
    }

    /** The interrupt for the transmit object. */
    method SignalSendComplete()
      modifies this`tx
      ensures View() == Next(old(View()), TxComplete)
    {
      tx := Complete;
    }

    method StartSend()
      modifies this`tx
      ensures View() == Next(old(View()), TxStart)
    {
      tx := Started;
    }

    method CheckAndHandle() returns (d: Option<Delivery>)
      modifies this
      ensures (View(), d) == Check(old(View()))
    {
      d := None;
      if reportCnt != handledCnt {
        var lost := reportCnt != (handledCnt + 1) % UINT;
        d := Some(Delivery(report, lost, report == BUS_OFF));
        handledCnt := reportCnt;
        unhandled := 0;
      }
    }
  }
}
