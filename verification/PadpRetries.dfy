/** When `padp_write` gives up, and under which transaction ids it sends. */
module PadpRetries {
  import opened Bytes
  import opened Connection
  import opened Padp
  import opened PadpRuns

  // ----- Giving up ----------------------------------------------------------------

  /** The fragment at `o` is to be sent, or waits for its answer, and nothing happened in time. */
  predicate TimesOut(phase: WriterPhase, e: WriterEvent, o: nat) {
    match phase
    case Sending(p, _) => p == o && e == NotReady
    case Waiting(p, _) => p == o && e == NoAnswer
    case _ => false
  }

  /** How often that was so in a run. */
  function Timeouts(msg: seq<ubyte>, emulate: bool, start: Writer, events: seq<WriterEvent>, o: nat): nat
    requires |msg| < 0x1_0000 && start.Valid(msg) && forall e :: e in events ==> e.Valid()
  {
    if events == [] then 0
    else
      var before, e := events[..|events| - 1], events[|events| - 1];
      Timeouts(msg, emulate, start, before, o)
      + if TimesOut(start.Run(msg, emulate, before).phase, e, o) then 1 else 0
  }

  /** The fragment that the writer is at. */
  function Pending(phase: WriterPhase): int {
    match phase
    case Sending(o, _) => o
    case Waiting(o, _) => o
    case Hushing(o, _, _) => o
    case _ => -1
  }

  /** An attempt is used up by each timeout of the fragment at `o`, and by nothing else. */
  predicate Attempts(w: Writer, o: nat, n: nat) {
    match w.phase
    case Sending(p, a) => if p == o then n == a else n < 10 && (p < o ==> n == 0)
    case Waiting(p, a) => if p == o then n == a else n < 10 && (p < o ==> n == 0)
    case Hushing(p, a, _) => if p == o then n == a else n < 10 && (p < o ==> n == 0)
    case Written => n < 10
    case WriteFailed(why) => n <= 10 && (n == 10 ==> why == Timeout)
  }

  lemma StepAttempts(msg: seq<ubyte>, emulate: bool, w: Writer, e: WriterEvent, o: nat, n: nat)
    requires |msg| < 0x1_0000 && w.Valid(msg) && e.Valid() && Attempts(w, o, n)
    ensures var w' := w.Step(msg, emulate, e);
            Attempts(w', o, n + if TimesOut(w.phase, e, o) then 1 else 0)
  {
    hide Piece, AckFrag, HeaderOf;
  }

  /** Only the tenth timeout of the pending fragment makes a writer fail with a timeout. */
  lemma StepGivesUp(msg: seq<ubyte>, emulate: bool, w: Writer, e: WriterEvent, o: nat, n: nat)
    requires |msg| < 0x1_0000 && w.Valid(msg) && e.Valid() && Attempts(w, o, n) && Pending(w.phase) == o
    ensures w.Step(msg, emulate, e).phase == WriteFailed(Timeout) ==> TimesOut(w.phase, e, o) && n == 9
  {
    hide Piece, AckFrag, HeaderOf;
  }

  lemma StaysGivenUp(msg: seq<ubyte>, emulate: bool, w: Writer, e: WriterEvent)
    requires |msg| < 0x1_0000 && w.Valid(msg) && e.Valid() && Pending(w.phase) < 0
    ensures w.Step(msg, emulate, e) == w
  {
  }

  lemma WriterRunLast(msg: seq<ubyte>, emulate: bool, start: Writer, events: seq<WriterEvent>)
    requires |msg| < 0x1_0000 && start.Valid(msg) && (forall e :: e in events ==> e.Valid()) && events != []
    ensures var n := |events| - 1;
            && events[n].Valid() && start.Run(msg, emulate, events[..n]).Valid(msg)
            && start.Run(msg, emulate, events) == start.Run(msg, emulate, events[..n]).Step(msg, emulate, events[n])
    ensures forall e :: e in events[..|events| - 1] ==> e.Valid()
  {
    hide Writer.Step;
    assert events[|events| - 1] in events;
  }

  lemma {:induction false} RunAttempts(msg: seq<ubyte>, emulate: bool, start: Writer, events: seq<WriterEvent>, o: nat)
    requires |msg| < 0x1_0000 && start.Valid(msg) && forall e :: e in events ==> e.Valid()
    requires start.phase == Sending(0, 0) || start.phase == Written
    ensures Attempts(start.Run(msg, emulate, events), o, Timeouts(msg, emulate, start, events, o))
    decreases |events|
  {
    if events != [] {
      WriterRunLast(msg, emulate, start, events);
      hide Writer.Step, Writer.Run, Attempts, TimesOut;
      var n := |events| - 1;
      var before, e := events[..n], events[n];
      RunAttempts(msg, emulate, start, before, o);
      StepAttempts(msg, emulate, start.Run(msg, emulate, before), e, o, Timeouts(msg, emulate, start, before, o));
    }
  }

  lemma {:induction false} GivenUpAt(msg: seq<ubyte>, emulate: bool, start: Writer, events: seq<WriterEvent>) returns (o: nat)
    requires |msg| < 0x1_0000 && start.Valid(msg) && forall e :: e in events ==> e.Valid()
    requires start.phase == Sending(0, 0) || start.phase == Written
    requires start.Run(msg, emulate, events).phase == WriteFailed(Timeout)
    ensures Timeouts(msg, emulate, start, events, o) == 10
    decreases |events|
  {
    WriterRunLast(msg, emulate, start, events);
    hide Writer.Step, Writer.Run, Attempts, TimesOut;
    var n := |events| - 1;
    var before, e := events[..n], events[n];
    var w := start.Run(msg, emulate, before);
    if Pending(w.phase) < 0 {
      StaysGivenUp(msg, emulate, w, e);
      o := GivenUpAt(msg, emulate, start, before);
      RunAttempts(msg, emulate, start, events, o);
      NoMoreTimeouts(w.phase, e, o);
    } else {
      o := Pending(w.phase);
      RunAttempts(msg, emulate, start, before, o);
      StepGivesUp(msg, emulate, w, e, o, Timeouts(msg, emulate, start, before, o));
    }
  }

  lemma NoMoreTimeouts(phase: WriterPhase, e: WriterEvent, o: nat)
    requires Pending(phase) < 0
    ensures !TimesOut(phase, e, o)
  {
  }

  /** In every run, `padp_write` fails with a timeout exactly when nothing happened
      in time ten times for one and the same fragment. */
  lemma GivesUpExactly(msg: seq<ubyte>, emulate: bool, xid: ubyte, lastXid: ubyte, remote: Address, events: seq<WriterEvent>)
    requires |msg| < 0x1_0000 && forall e :: e in events ==> e.Valid()
    ensures var start := StartWriter(msg, emulate, xid, lastXid, remote);
            start.Run(msg, emulate, events).phase == WriteFailed(Timeout)
            <==> exists o: nat :: Timeouts(msg, emulate, start, events, o) == 10
  {
    var start := StartWriter(msg, emulate, xid, lastXid, remote);
    hide Writer.Run, Timeouts;
    if start.Run(msg, emulate, events).phase == WriteFailed(Timeout) {
      var o := GivenUpAt(msg, emulate, start, events);
    }
    if o: nat :| Timeouts(msg, emulate, start, events, o) == 10 {
      RunAttempts(msg, emulate, start, events, o);
    }
  }

  /** A timeout that is not the tenth leaves the fragment to be sent again, and the
      right acknowledgement then takes the writer on, whatever went before. */
  lemma StillAdvances(msg: seq<ubyte>, emulate: bool, xid: ubyte, lastXid: ubyte, remote: Address,
                      events: seq<WriterEvent>, ack: Listen)
    requires |msg| < 0x1_0000 && forall e :: e in events ==> e.Valid()
    requires ack.Arrived? && ack.Valid() && ack.view[0] == 2
    ensures var start := StartWriter(msg, emulate, xid, lastXid, remote);
            var w := start.Run(msg, emulate, events);
            && (w.phase.Waiting? && Timeouts(msg, emulate, start, events, w.phase.offset) < 9 ==>
                  var again := w.Step(msg, emulate, NoAnswer).Step(msg, emulate, Sent(true));
                  && again.sent == w.sent + [Tx(w.remote, w.xid, Piece(msg, w.phase.offset))]
                  && again.phase.Waiting? && again.phase.offset == w.phase.offset
                  && (ack.xid == w.xid ==>
                        var o := w.phase.offset + 1024;
                        again.Step(msg, emulate, Heard(ack)).phase == if o < |msg| then Sending(o, 0) else Written))
  {
    hide Piece;
    var start := StartWriter(msg, emulate, xid, lastXid, remote);
    var w := start.Run(msg, emulate, events);
    if w.phase.Waiting? {
      RunAttempts(msg, emulate, start, events, w.phase.offset);
    }
  }

  // ----- Transaction ids -------------------------------------------------------------

  function Bumped(xid: ubyte, n: nat): ubyte {
    if n == 0 then xid else BumpXid(Bumped(xid, n - 1))
  }

  lemma NextOfRound(a: nat)
    ensures (a + 1) % 254 == if a % 254 == 253 then 0 else a % 254 + 1
  {
  }

  lemma BumpedOnce(xid: ubyte)
    ensures BumpXid(xid) == if 0 < xid < 0xfe then xid + 1 else 1
  {
  }

  /** The ids go round all 254 that are not reserved, in order, wherever they start. */
  lemma {:induction false} XidsGoRound(xid: ubyte, n: nat)
    requires n > 0
    ensures var first := if 0 < xid < 0xff then xid as int else 0;
            Bumped(xid, n) == if first == 0 then 1 + (n - 1) % 254 else 1 + (first - 1 + n) % 254
  {
    var first := if 0 < xid < 0xff then xid as int else 0;
    var a := (if first == 0 then 0 else first) + n - 1;
    assert Bumped(xid, n) == BumpXid(Bumped(xid, n - 1));
    if n == 1 {
      BumpedOnce(xid);
      OnceRound(xid);
    } else {
      XidsGoRound(xid, n - 1);
      NextOfRound(a - 1);
      BumpedOnce(Bumped(xid, n - 1));
      hide *;
    }
  }

  lemma OnceRound(xid: ubyte)
    ensures 0 < xid < 0xff ==> xid % 254 == if xid == 0xfe then 0 else xid as int
    ensures Bumped(xid, 0) == xid
  {
  }

  /** A call sends its first fragment under the id after the last one of the
      connection; a Palm under that of the last packet it has received. An empty message needs no fragment. */
  lemma FirstUnder(msg: seq<ubyte>, emulate: bool, xid: ubyte, lastXid: ubyte, remote: Address)
    requires |msg| < 0x1_0000
    ensures var w := StartWriter(msg, emulate, xid, lastXid, remote).Step(msg, emulate, Sent(true));
            if msg == [] then w.phase == Written && w.sent == []
            else w.sent == [Tx(remote, if emulate then lastXid else if xid < 0xfe then xid + 1 else 1, Piece(msg, 0))]
  {
    hide Piece;
  }
}
