/** What holds of every run of the two machines of the Packet
    Assembly/Disassembly Protocol, whatever their environment does. */
module PadpRuns {
  import opened Bytes
  import opened Connection
  import opened Padp

  // ----- The fragments of a message -----------------------------------------

  /** The number of fragments of a message of `n` bytes. */
  function Count(n: nat): nat {
    (n + MAX_PACKET_LEN - 1) / MAX_PACKET_LEN
  }

  lemma CountBounds(n: nat, i: nat)
    ensures i < Count(n) <==> i * MAX_PACKET_LEN < n
  {
  }

  /** The whole list of fragments of a message, in order. */
  function Fragments(msg: seq<ubyte>): (fs: seq<seq<ubyte>>)
    requires |msg| < 0x1_0000
    ensures |fs| == Count(|msg|)
  {
    seq(Count(|msg|), i requires 0 <= i < Count(|msg|) => Piece(msg, i * MAX_PACKET_LEN))
  }

  lemma PieceParts(msg: seq<ubyte>, offset: nat)
    requires offset < |msg| < 0x1_0000
    ensures var f := Piece(msg, offset);
            && HeaderOf(f) == PieceHeader(msg, offset) && f[4..] == PieceData(msg, offset)
  {
    var f := Piece(msg, offset);
    var h := PieceHeader(msg, offset);
    UwordRoundTrip([h.ftype, h.flags], h.size, PieceData(msg, offset));
    assert f[4..] == PieceData(msg, offset);
  }

  lemma PiecesDiffer(msg: seq<ubyte>, o1: nat, o2: nat)
    requires o1 < |msg| < 0x1_0000 && o2 < |msg| && o1 != o2
    ensures Piece(msg, o1) != Piece(msg, o2)
  {
    PieceParts(msg, o1);
    PieceParts(msg, o2);
  }

  // ----- Reassembly ---------------------------------------------------------

  predicate IsData(e: Listen) {
    e.Arrived? && e.Valid() && e.Header().ftype == DATA
  }

  predicate Carries(e: Listen, msg: seq<ubyte>, offset: nat)
    requires |msg| < 0x1_0000
  {
    e.Arrived? && e.Valid() && offset < |msg| && e.view[..e.len] == Piece(msg, offset)
  }

  ghost predicate IsFragment(e: Listen, msg: seq<ubyte>)
    requires |msg| < 0x1_0000
  {
    exists k: nat :: Carries(e, msg, k) && k % MAX_PACKET_LEN == 0
  }

  lemma CarriedParts(e: Listen, msg: seq<ubyte>, offset: nat)
    requires |msg| < 0x1_0000 && Carries(e, msg, offset)
    ensures e.Header() == PieceHeader(msg, offset) && e.DataLen() == |PieceData(msg, offset)|
    ensures 4 + e.DataLen() <= |e.view| && e.view[4..4 + e.DataLen()] == PieceData(msg, offset)
  {
    var f := Piece(msg, offset);
    PieceParts(msg, offset);
    assert e.view[..e.len] == f && |f| == e.len;
    assert HeaderOf(e.view) == HeaderOf(f);
    assert e.view[4..e.len] == f[4..];
  }

  lemma PieceGrows(msg: seq<ubyte>, k: nat)
    requires k < |msg| < 0x1_0000 && k % MAX_PACKET_LEN == 0
    ensures var got := msg[..k] + PieceData(msg, k);
            && got == msg[..|got|] && |got| == k + |PieceData(msg, k)| && 0 < |got| <= |msg|
            && (PieceHeader(msg, k).Last() ==> got == msg)
            && (!PieceHeader(msg, k).Last() ==> |got| < |msg| && |got| % MAX_PACKET_LEN == 0)
            && (PieceHeader(msg, k).First() <==> k == 0)
  {
  }

  lemma PieceSizes(msg: seq<ubyte>, k: nat)
    requires k < |msg| < 0x1_0000 && k % MAX_PACKET_LEN == 0
    ensures PieceHeader(msg, k).size == if k == 0 then |msg| else k
    ensures PieceHeader(msg, k).ftype == DATA
  {
  }

  /** The reader has the first `n` bytes of the message, all of it when `n` is past its end. */
  predicate ReaderHas(msg: seq<ubyte>, phase: ReaderPhase, n: nat)
    requires |msg| < 0x1_0000
  {
    if n == 0 then phase == AwaitFirst
    else if n < |msg| then phase == Collecting(|msg|, msg[..n])
    else phase == Delivered(|msg|, msg)
  }

  predicate LastAt(msg: seq<ubyte>, o: nat) { o + MAX_PACKET_LEN >= |msg| }

  lemma PieceEnds(msg: seq<ubyte>, o: nat)
    requires o < |msg| < 0x1_0000 && o % MAX_PACKET_LEN == 0
    ensures PieceHeader(msg, o).Last() <==> LastAt(msg, o)
    ensures !LastAt(msg, o) ==> |PieceData(msg, o)| == MAX_PACKET_LEN
  {
  }

  /** The fragment that comes next is taken and acknowledged. */
  lemma ReaderTakes(msg: seq<ubyte>, r: Reader, e: Listen, o: nat)
    requires 0 < |msg| < 0x1_0000 && o < |msg| && o % MAX_PACKET_LEN == 0
    requires ReaderHas(msg, r.phase, o) && Carries(e, msg, o)
    ensures ReaderHas(msg, r.Step(e).phase, o + MAX_PACKET_LEN)
    ensures r.Step(e).sent == r.sent + [Tx(e.sender, e.xid, AckFrag(PieceHeader(msg, o).size))]
    ensures !ReaderHas(msg, r.Step(e).phase, o)
  {
    hide HeaderOf, Piece, AckFrag, FragHeader.First, FragHeader.Last, PieceHeader, PieceData;
    CarriedParts(e, msg, o);
    PieceGrows(msg, o);
    PieceSizes(msg, o);
    PieceEnds(msg, o);
    var r1 := r.(remote := e.sender, lastXid := e.xid);
    assert r.Step(e) == if o == 0 then r1.FirstData(e) else r1.NextData(e);
    assert msg[..0] == [] && [] + PieceData(msg, 0) == PieceData(msg, 0);
  }

  /** Any other fragment ends the call, while a message is being collected, and is not acknowledged. */
  lemma ReaderRefuses(msg: seq<ubyte>, r: Reader, e: Listen, n: nat, o: nat)
    requires 0 < |msg| < 0x1_0000 && 0 < n < |msg| && n % MAX_PACKET_LEN == 0
    requires ReaderHas(msg, r.phase, n) && Carries(e, msg, o) && o % MAX_PACKET_LEN == 0 && o != n
    ensures r.Step(e).phase == ReadFailed(NoErr) && r.Step(e).sent == r.sent
  {
    hide HeaderOf, Piece, PieceHeader, PieceData, FragHeader.First, FragHeader.Last;
    CarriedParts(e, msg, o);
    PieceGrows(msg, o);
    PieceSizes(msg, o);
  }

  /** A call that is over stays as it is. */
  lemma ReaderRests(r: Reader, e: Listen)
    requires e.Valid() && !r.Running()
    ensures r.Step(e) == r
  {
  }

  /** Where in its message the fragment of a data packet belongs. */
  function OffsetIn(e: Listen): nat
    requires e.Arrived? && e.Valid()
  {
    e.Header().Offset()
  }

  /** The offsets heard so far, and the one in `e`, if it is data. */
  function WithOffset(os: seq<nat>, e: Listen): seq<nat> {
    os + if IsData(e) then [OffsetIn(e)] else []
  }

  /** The offsets of the fragments among `events`. */
  function HeardOffsets(events: seq<Listen>): seq<nat> {
    if events == [] then []
    else WithOffset(HeardOffsets(events[..|events| - 1]), events[|events| - 1])
  }

  /** All data packets among `events` carry fragments of `msg`, in any order, any
      number of times, and any of them missing. */
  ghost predicate FragmentsOf(msg: seq<ubyte>, events: seq<Listen>)
    requires |msg| < 0x1_0000
  {
    forall e :: e in events ==> e.Valid() && (IsData(e) ==> IsFragment(e, msg))
  }

  predicate InMessage(msg: seq<ubyte>, os: seq<nat>) {
    forall i :: 0 <= i < |os| ==> os[i] < |msg| && os[i] % MAX_PACKET_LEN == 0
  }

  /** From the second of them on, the offsets are those that follow a first fragment. */
  predicate InTurn(os: seq<nat>, n: nat) {
    n <= |os| && forall i :: 1 <= i < n ==> os[i] == i * MAX_PACKET_LEN
  }

  /** All fragments, in order, before any other. */
  predicate Whole(msg: seq<ubyte>, os: seq<nat>) {
    os != [] && os[0] == 0 && InTurn(os, Count(|msg|))
  }

  /** A fragment other than the first, taken for the first with its offset for the
      length of the message, and then as many in turn as it takes to exceed that length. */
  predicate Outruns(msg: seq<ubyte>, os: seq<nat>) {
    && os != [] && 0 < os[0] && os[0] + MAX_PACKET_LEN <= |msg|
    && InTurn(os, os[0] / MAX_PACKET_LEN + 1)
  }

  /** Every fragment so far has been taken, and the next one can be. */
  predicate OnTrack(msg: seq<ubyte>, os: seq<nat>) {
    && os != [] && InTurn(os, |os|)
    && if os[0] == 0 then |os| < Count(|msg|)
       else |os| == 1 || (os[0] + MAX_PACKET_LEN <= |msg| && |os| <= os[0] / MAX_PACKET_LEN)
  }

  /** What the fragments at the offsets `os` make of a call. */
  predicate Reached(msg: seq<ubyte>, os: seq<nat>, phase: ReaderPhase)
    requires |msg| < 0x1_0000
  {
    if os == [] then phase == AwaitFirst
    else if Whole(msg, os) then phase == Delivered(|msg|, msg)
    else if Outruns(msg, os) then phase == Overrun
    else if !OnTrack(msg, os) then phase.ReadFailed?
    else if os[0] == 0 then ReaderHas(msg, phase, MAX_PACKET_LEN * |os|)
    else
      && phase.Collecting? && phase.msgLen == os[0] && 0 < |phase.got| <= os[0]
      && if os[0] + MAX_PACKET_LEN <= |msg| then |phase.got| == MAX_PACKET_LEN * |os| else |phase.got| < MAX_PACKET_LEN
  }

  lemma FragmentOffset(msg: seq<ubyte>, e: Listen)
    requires |msg| < 0x1_0000 && e.Arrived? && e.Valid() && IsFragment(e, msg)
    ensures var o := OffsetIn(e);
            o < |msg| && o % MAX_PACKET_LEN == 0 && Carries(e, msg, o) && IsData(e)
  {
    hide HeaderOf, Piece, PieceHeader, FragHeader.First, Carries;
    var k: nat :| Carries(e, msg, k) && k % MAX_PACKET_LEN == 0;
    CarriedIsOf(msg, e, k);
    CarriedParts(e, msg, k);
    PieceGrows(msg, k);
    PieceSizes(msg, k);
  }

  lemma CarriedIsOf(msg: seq<ubyte>, e: Listen, k: nat)
    requires |msg| < 0x1_0000 && Carries(e, msg, k)
    ensures k < |msg|
  {
  }

  /** A first fragment that is not the first of its message: its offset is taken for the length. */
  lemma ReaderMistakes(msg: seq<ubyte>, r: Reader, e: Listen, o: nat)
    requires 0 < |msg| < 0x1_0000 && r.phase.AwaitFirst? && 0 < o && o % MAX_PACKET_LEN == 0 && Carries(e, msg, o)
    ensures r.Step(e).phase == Collecting(o, PieceData(msg, o))
  {
    hide HeaderOf, Piece, PieceHeader, PieceData, FragHeader.First, FragHeader.Last, AckFrag;
    CarriedParts(e, msg, o);
    PieceGrows(msg, o);
    PieceSizes(msg, o);
    assert [] + PieceData(msg, o) == PieceData(msg, o);
  }

  /** While a message is being collected, whatever its length, only the fragment
      at the offset reached is taken; any other one, a repeated one among them, ends the call. */
  lemma OnlyTheNextIsTaken(msg: seq<ubyte>, r: Reader, e: Listen, k: nat)
    requires 0 < |msg| < 0x1_0000 && r.phase.Collecting? && r.phase.got != []
    requires Carries(e, msg, k) && k % MAX_PACKET_LEN == 0
    ensures r.Step(e).phase.ReadFailed? <==> k != |r.phase.got|
    ensures k == |r.phase.got| ==>
              var n, got := r.phase.msgLen, r.phase.got + PieceData(msg, k);
              r.Step(e).phase == if |got| > n then Overrun
                                 else if LastAt(msg, k) then Delivered(n, got)
                                 else Collecting(n, got)
  {
    hide HeaderOf, Piece, PieceHeader, PieceData, FragHeader.First, FragHeader.Last, AckFrag;
    CarriedParts(e, msg, k);
    PieceGrows(msg, k);
    PieceSizes(msg, k);
    PieceEnds(msg, k);
  }

  /** The first fragment that is heard. */
  lemma FirstReached(msg: seq<ubyte>, r: Reader, e: Listen, o: nat)
    requires 0 < |msg| < 0x1_0000 && r.phase.AwaitFirst? && o < |msg| && o % MAX_PACKET_LEN == 0 && Carries(e, msg, o)
    ensures Reached(msg, [o], r.Step(e).phase)
  {
    hide Reader.Step, Carries, PieceHeader, PieceData;
    CountBounds(|msg|, 1);
    if o == 0 {
      ReaderTakes(msg, r, e, 0);
    } else {
      ReaderMistakes(msg, r, e, o);
      PieceEnds(msg, o);
      PieceGrows(msg, o);
    }
  }

  lemma TurnMore(os: seq<nat>, o: nat, n: nat)
    ensures n <= |os| ==> (InTurn(os + [o], n) <==> InTurn(os, n))
    ensures n == |os| + 1 > 1 ==> (InTurn(os + [o], n) <==> InTurn(os, |os|) && o == |os| * MAX_PACKET_LEN)
  {
    var us := os + [o];
    assert forall i :: 0 <= i < |os| ==> us[i] == os[i];
    assert us[|os|] == o;
  }

  /** A call that is over stays over. */
  lemma EndReached(msg: seq<ubyte>, os: seq<nat>, o: nat, phase: ReaderPhase)
    requires |msg| < 0x1_0000 && os != [] && Reached(msg, os, phase) && !OnTrack(msg, os)
    ensures Reached(msg, os + [o], phase)
  {
    TurnMore(os, o, Count(|msg|));
    TurnMore(os, o, os[0] / MAX_PACKET_LEN + 1);
    TurnMore(os, o, |os| + 1);
    hide InTurn;
  }

  /** A further fragment of a message whose first one was heard first. */
  lemma NextReached(msg: seq<ubyte>, os: seq<nat>, r: Reader, e: Listen, o: nat)
    requires 0 < |msg| < 0x1_0000 && OnTrack(msg, os) && os[0] == 0 && Reached(msg, os, r.phase)
    requires o < |msg| && o % MAX_PACKET_LEN == 0 && Carries(e, msg, o)
    ensures Reached(msg, os + [o], r.Step(e).phase)
  {
    hide Reader.Step, Carries, PieceHeader, PieceData;
    CountBounds(|msg|, |os|);
    CountBounds(|msg|, |os| + 1);
    TurnMore(os, o, |os| + 1);
    TurnMore(os, o, Count(|msg|));
    hide InTurn;
    assert MAX_PACKET_LEN * |os| < |msg|;
    if o == MAX_PACKET_LEN * |os| {
      ReaderTakes(msg, r, e, o);
    } else {
      ReaderRefuses(msg, r, e, MAX_PACKET_LEN * |os|, o);
    }
  }

  /** A further fragment of a message whose first one was not. */
  lemma MistakenReached(msg: seq<ubyte>, os: seq<nat>, r: Reader, e: Listen, o: nat)
    requires 0 < |msg| < 0x1_0000 && OnTrack(msg, os) && os[0] > 0 && Reached(msg, os, r.phase) && InMessage(msg, os)
    requires o < |msg| && o % MAX_PACKET_LEN == 0 && Carries(e, msg, o)
    ensures Reached(msg, os + [o], r.Step(e).phase)
  {
    hide Reader.Step, Carries, PieceHeader, PieceData, FragHeader.Last;
    OnlyTheNextIsTaken(msg, r, e, o);
    PieceEnds(msg, o);
    PieceGrows(msg, o);
    TurnMore(os, o, |os| + 1);
    TurnMore(os, o, os[0] / MAX_PACKET_LEN + 1);
    assert os[0] % MAX_PACKET_LEN == 0 && (os + [o])[0] == os[0];
    hide InTurn, InMessage;
  }

  lemma DataReached(msg: seq<ubyte>, os: seq<nat>, r: Reader, e: Listen, o: nat)
    requires 0 < |msg| < 0x1_0000 && Reached(msg, os, r.phase) && InMessage(msg, os) && e.Valid()
    requires o < |msg| && o % MAX_PACKET_LEN == 0 && Carries(e, msg, o)
    ensures Reached(msg, os + [o], r.Step(e).phase)
  {
    hide Reader.Step, Carries, Whole, Outruns, InMessage;
    if os == [] {
      assert os + [o] == [o];
      FirstReached(msg, r, e, o);
    } else if !OnTrack(msg, os) {
      ReaderRests(r, e);
      EndReached(msg, os, o, r.phase);
    } else if os[0] == 0 {
      NextReached(msg, os, r, e, o);
    } else {
      MistakenReached(msg, os, r, e, o);
    }
  }

  /** A packet that a reader passes over. */
  predicate Ignored(e: Listen) {
    e.Arrived? && e.Valid() && (e.Header().ftype == ACK || e.Header().ftype == TICKLE)
  }

  lemma OtherReached(r: Reader, e: Listen)
    requires e.Valid() && !IsData(e)
    ensures r.Step(e).phase == r.phase || r.Step(e).phase.ReadFailed?
    ensures Ignored(e) ==> r.Step(e).phase == r.phase
  {
    hide HeaderOf;
  }

  lemma FailedStays(r: Reader, e: Listen)
    requires e.Valid() && r.phase.ReadFailed?
    ensures r.Step(e).phase.ReadFailed?
  {
  }

  /** Nothing but fragments, and packets that are passed over. */
  predicate Undisturbed(events: seq<Listen>) {
    forall e :: e in events ==> IsData(e) || Ignored(e)
  }

  lemma RunLast(start: Reader, events: seq<Listen>)
    requires events != [] && forall e :: e in events ==> e.Valid()
    ensures var n := |events| - 1;
            start.Run(events) == start.Run(events[..n]).Step(events[n])
    ensures |events| == 1 ==> start.Run(events) == start.Step(events[0])
  {
    hide Reader.Step;
    if |events| == 1 { assert events[..0] == [] && start.Run([]) == start; }
  }

  lemma DataArrived(e: Listen)
    requires IsData(e)
    ensures e.Arrived? && e.Valid()
  {
  }

  lemma StepReaches(msg: seq<ubyte>, r: Reader, e: Listen, os: seq<nat>)
    requires 0 < |msg| < 0x1_0000 && InMessage(msg, os) && e.Valid() && (IsData(e) ==> IsFragment(e, msg))
    ensures InMessage(msg, WithOffset(os, e))
    ensures r.phase.ReadFailed? ==> r.Step(e).phase.ReadFailed?
    ensures Reached(msg, os, r.phase) ==>
              Reached(msg, WithOffset(os, e), r.Step(e).phase) || (r.Step(e).phase.ReadFailed? && !IsData(e) && !Ignored(e))
  {
    hide IsData, Ignored, IsFragment, Carries, Reader.Step, Reached, OffsetIn;
    if r.phase.ReadFailed? { FailedStays(r, e); }
    if IsData(e) {
      DataArrived(e);
      FragmentOffset(msg, e);
      if Reached(msg, os, r.phase) { DataReached(msg, os, r, e, OffsetIn(e)); }
    } else {
      OtherReached(r, e);
      assert os + [] == os;
    }
  }

  lemma HeardLast(msg: seq<ubyte>, events: seq<Listen>)
    requires |msg| < 0x1_0000 && FragmentsOf(msg, events) && events != []
    ensures var n := |events| - 1;
            && HeardOffsets(events) == WithOffset(HeardOffsets(events[..n]), events[n])
            && FragmentsOf(msg, events[..n]) && events[n].Valid() && (IsData(events[n]) ==> IsFragment(events[n], msg))
            && (Undisturbed(events) ==> Undisturbed(events[..n]) && (IsData(events[n]) || Ignored(events[n])))
    ensures forall e :: e in events ==> e.Valid()
  {
    hide IsData, Ignored, IsFragment, OffsetIn;
    var n := |events| - 1;
    assert events[n] in events && forall e :: e in events[..n] ==> e in events;
  }

  lemma {:induction false} RunReaches(msg: seq<ubyte>, start: Reader, events: seq<Listen>)
    requires 0 < |msg| < 0x1_0000 && start.phase.AwaitFirst? && FragmentsOf(msg, events)
    ensures InMessage(msg, HeardOffsets(events))
    ensures forall e :: e in events ==> e.Valid()
    ensures var phase := start.Run(events).phase;
            && (Reached(msg, HeardOffsets(events), phase) || phase.ReadFailed?)
            && (Undisturbed(events) ==> Reached(msg, HeardOffsets(events), phase))
    decreases |events|
  {
    if events != [] {
      hide *;
      HeardLast(msg, events);
      RunLast(start, events);
      var n := |events| - 1;
      RunReaches(msg, start, events[..n]);
      StepReaches(msg, start.Run(events[..n]), events[n], HeardOffsets(events[..n]));
    }
  }

  lemma ReachedOutcome(msg: seq<ubyte>, os: seq<nat>, phase: ReaderPhase)
    requires 0 < |msg| < 0x1_0000 && Reached(msg, os, phase)
    ensures phase.Delivered? <==> Whole(msg, os)
    ensures phase.Delivered? ==> phase == Delivered(|msg|, msg)
    ensures phase.Overrun? <==> Outruns(msg, os)
    ensures phase.Collecting? ==> |phase.got| <= phase.msgLen
  {
    CountBounds(|msg|, |os|);
    CountBounds(|msg|, 0);
    hide InTurn;
  }

  /** Reassembly under loss, duplication and reordering. Of a call that has heard
      any fragments of one message, along with any other kinds of packet: it
      delivers nothing but that message, and only when all its fragments came in
      order, before any other; it leaves its buffers only when a fragment other than
      the first came first and was taken for it. If the other packets are ones that
      are passed over, both happen exactly then. */
  lemma ReassemblySafe(msg: seq<ubyte>, start: Reader, events: seq<Listen>)
    requires 0 < |msg| < 0x1_0000 && start.phase.AwaitFirst? && FragmentsOf(msg, events)
    ensures forall e :: e in events ==> e.Valid()
    ensures var phase, os := start.Run(events).phase, HeardOffsets(events);
            && (phase.Delivered? ==> phase == Delivered(|msg|, msg) && Whole(msg, os))
            && (phase.Overrun? ==> Outruns(msg, os))
            && (phase.Collecting? ==> |phase.got| <= phase.msgLen)
            && (Undisturbed(events) ==> (phase.Delivered? <==> Whole(msg, os)) && (phase.Overrun? <==> Outruns(msg, os)))
  {
    RunReaches(msg, start, events);
    var phase, os := start.Run(events).phase, HeardOffsets(events);
    if Reached(msg, os, phase) { ReachedOutcome(msg, os, phase); }
    hide *;
  }

  /** An input: the second fragment of a message, heard twice when the first was
      lost, is copied past the end of a buffer of its offset's size. */
  lemma LostFirstOverruns(msg: seq<ubyte>, r: Reader, e: Listen)
    requires 2 * MAX_PACKET_LEN <= |msg| < 0x1_0000 && r.phase.AwaitFirst? && Carries(e, msg, MAX_PACKET_LEN)
    ensures r.Step(e).Step(e).phase == Overrun
  {
    hide Carries, Reader.Step;
    var o: nat := MAX_PACKET_LEN;
    CarriedIsValid(e, msg, o);
    FirstReached(msg, r, e, o);
    DataReached(msg, [o], r.Step(e), e, o);
    assert [o] + [o] == [o, o];
    assert Outruns(msg, [o, o]);
  }

  lemma CarriedIsValid(e: Listen, msg: seq<ubyte>, o: nat)
    requires |msg| < 0x1_0000 && Carries(e, msg, o)
    ensures e.Arrived? && e.Valid()
  {
  }

  // ----- Stop and wait --------------------------------------------------------

  predicate IsDataTx(t: Tx) { |t.payload| > 0 && t.payload[0] == DATA }

  /** The fragments transmitted, repeats included. */
  function Transmitted(sent: seq<Tx>): seq<seq<ubyte>> {
    if sent == [] then []
    else
      var t := sent[|sent| - 1];
      Transmitted(sent[..|sent| - 1]) + if IsDataTx(t) then [t.payload] else []
  }

  /** The same without immediate repeats. */
  function Squeezed(fs: seq<seq<ubyte>>): (r: seq<seq<ubyte>>)
    ensures r == [] <==> fs == []
    ensures fs != [] ==> r[|r| - 1] == fs[|fs| - 1]
  {
    if |fs| <= 1 then fs
    else if fs[|fs| - 1] == fs[|fs| - 2] then Squeezed(fs[..|fs| - 1])
    else Squeezed(fs[..|fs| - 1]) + [fs[|fs| - 1]]
  }

  lemma TransmittedOneMore(sent: seq<Tx>, t: Tx)
    ensures Transmitted(sent + [t]) == Transmitted(sent) + if IsDataTx(t) then [t.payload] else []
  {
    assert (sent + [t])[..|sent|] == sent;
  }

  lemma SqueezedOneMore(fs: seq<seq<ubyte>>, f: seq<ubyte>)
    ensures Squeezed(fs + [f]) == if fs != [] && fs[|fs| - 1] == f then Squeezed(fs) else Squeezed(fs) + [f]
  {
    assert (fs + [f])[..|fs|] == fs;
  }

  /** The squeezed transmissions of a writer are the first `done` fragments,
      or those and the one after them. */
  ghost predicate InOrder(msg: seq<ubyte>, w: Writer)
    requires |msg| < 0x1_0000
  {
    var s := Squeezed(Transmitted(w.sent));
    && s <= Fragments(msg)
    && match w.phase
       case Sending(o, _) => |s| == o / MAX_PACKET_LEN || |s| == o / MAX_PACKET_LEN + 1
       case Waiting(o, _) => |s| == o / MAX_PACKET_LEN + 1
       case Hushing(o, _, _) => |s| == o / MAX_PACKET_LEN + 1
       case Written => s == Fragments(msg)
       case WriteFailed(_) => true
  }

  lemma PieceInList(msg: seq<ubyte>, offset: nat)
    requires offset < |msg| < 0x1_0000 && offset % MAX_PACKET_LEN == 0
    ensures offset / MAX_PACKET_LEN < Count(|msg|)
    ensures Fragments(msg)[offset / MAX_PACKET_LEN] == Piece(msg, offset)
  {
    var i := offset / MAX_PACKET_LEN;
    CountBounds(|msg|, i);
    assert i * MAX_PACKET_LEN == offset;
  }

  lemma SendKeepsOrder(msg: seq<ubyte>, s: seq<seq<ubyte>>, offset: nat)
    requires offset < |msg| < 0x1_0000 && offset % MAX_PACKET_LEN == 0
    requires Squeezed(s) <= Fragments(msg)
    requires |Squeezed(s)| == offset / MAX_PACKET_LEN || |Squeezed(s)| == offset / MAX_PACKET_LEN + 1
    ensures Squeezed(s + [Piece(msg, offset)]) <= Fragments(msg)
    ensures |Squeezed(s + [Piece(msg, offset)])| == offset / MAX_PACKET_LEN + 1
  {
    hide Piece, Squeezed, Fragments;
    var i, f, q := offset / MAX_PACKET_LEN, Piece(msg, offset), Squeezed(s);
    PieceInList(msg, offset);
    SqueezedOneMore(s, f);
    if |q| == i {
      if s != [] {
        var before := (i - 1) * MAX_PACKET_LEN;
        PieceInList(msg, before);
        assert q[i - 1] == Fragments(msg)[i - 1] == Piece(msg, before);
        PiecesDiffer(msg, before, offset);
      }
    } else {
      assert q[i] == f;
    }
  }

  lemma LastPiece(msg: seq<ubyte>, offset: nat)
    requires offset < |msg| < 0x1_0000 && offset % MAX_PACKET_LEN == 0
    ensures offset + MAX_PACKET_LEN >= |msg| ==> offset / MAX_PACKET_LEN + 1 == Count(|msg|)
  {
    CountBounds(|msg|, offset / MAX_PACKET_LEN);
    CountBounds(|msg|, offset / MAX_PACKET_LEN + 1);
  }

  lemma AckIsNoData(dest: Address, xid: ubyte, size: uword)
    ensures !IsDataTx(Tx(dest, xid, AckFrag(size)))
  {
  }

  lemma PieceIsData(msg: seq<ubyte>, offset: nat, dest: Address, xid: ubyte)
    requires offset < |msg| < 0x1_0000
    ensures IsDataTx(Tx(dest, xid, Piece(msg, offset)))
  {
  }

  lemma StepInOrder(msg: seq<ubyte>, emulate: bool, w: Writer, e: WriterEvent)
    requires |msg| < 0x1_0000 && w.Valid(msg) && e.Valid() && InOrder(msg, w)
    ensures InOrder(msg, w.Step(msg, emulate, e))
  {
    hide Piece, AckFrag, Squeezed, Transmitted, Fragments, HeaderOf;
    match w.phase {
      case Sending(o, a) =>
        if e == Sent(true) {
          PieceIsData(msg, o, w.remote, w.xid);
          TransmittedOneMore(w.sent, Tx(w.remote, w.xid, Piece(msg, o)));
          SendKeepsOrder(msg, Transmitted(w.sent), o);
        }
      case Waiting(o, a) =>
        LastPiece(msg, o);
      case Hushing(o, a, size) =>
        AckIsNoData(w.remote, w.lastXid, size);
        TransmittedOneMore(w.sent, Tx(w.remote, w.lastXid, AckFrag(size)));
        assert Transmitted(w.sent) + [] == Transmitted(w.sent);
      case _ =>
    }
  }

  lemma {:induction false} RunInOrder(msg: seq<ubyte>, emulate: bool, start: Writer, events: seq<WriterEvent>)
    requires |msg| < 0x1_0000 && start.Valid(msg) && InOrder(msg, start)
    requires forall e :: e in events ==> e.Valid()
    ensures InOrder(msg, start.Run(msg, emulate, events))
    decreases |events|
  {
    if events != [] {
      var n := |events| - 1;
      RunInOrder(msg, emulate, start, events[..n]);
      StepInOrder(msg, emulate, start.Run(msg, emulate, events[..n]), events[n]);
    }
  }

  /** Stop and wait: whatever happens, the fragments transmitted, immediate
      repeats aside, are the message's fragments from the first one on, and all
      of them when the writer reports success. */
  lemma FragmentsGoOutInOrder(msg: seq<ubyte>, emulate: bool, xid: ubyte, lastXid: ubyte, remote: Address,
                              events: seq<WriterEvent>)
    requires |msg| < 0x1_0000 && forall e :: e in events ==> e.Valid()
    ensures var w := StartWriter(msg, emulate, xid, lastXid, remote).Run(msg, emulate, events);
            && Squeezed(Transmitted(w.sent)) <= Fragments(msg)
            && (w.phase.Written? ==> Squeezed(Transmitted(w.sent)) == Fragments(msg))
  {
    var start := StartWriter(msg, emulate, xid, lastXid, remote);
    assert Squeezed(Transmitted([])) == [];
    RunInOrder(msg, emulate, start, events);
  }

  // ----- Acknowledgements -----------------------------------------------------

  /** What passed between the writer and its peer, in order. */
  datatype Note = Out(tx: Tx) | In(xid: ubyte, ftype: ubyte)

  function Log(msg: seq<ubyte>, emulate: bool, start: Writer, events: seq<WriterEvent>): seq<Note>
    requires |msg| < 0x1_0000 && start.Valid(msg) && forall e :: e in events ==> e.Valid()
  {
    if events == [] then []
    else
      var before, e := events[..|events| - 1], events[|events| - 1];
      Log(msg, emulate, start, before) + Noted(msg, emulate, start.Run(msg, emulate, before), e)
  }

  function Noted(msg: seq<ubyte>, emulate: bool, w: Writer, e: WriterEvent): (notes: seq<Note>)
    requires |msg| < 0x1_0000 && w.Valid(msg) && e.Valid()
    ensures |notes| <= 1
  {
    var sent := w.Step(msg, emulate, e).sent;
    if |sent| > |w.sent| then [Out(sent[|w.sent|])]
    else if w.phase.Waiting? && e.Heard? && e.what.Arrived? then [In(e.what.xid, e.what.Header().ftype)]
    else []
  }

  /** The last transmission of `f` is note `p`, and note `q` after it an ACK under the same id. */
  ghost predicate AckedAt(log: seq<Note>, f: seq<ubyte>, p: nat, q: nat) {
    && p < q < |log| && log[p].Out? && log[p].tx.payload == f
    && log[q] == In(log[p].tx.xid, ACK)
    && forall j :: p < j < |log| && log[j].Out? ==> log[j].tx.payload != f
  }

  ghost predicate Acknowledged(log: seq<Note>, f: seq<ubyte>) {
    exists p: nat, q: nat :: AckedAt(log, f, p, q)
  }

  /** The bytes of the message that the writer has seen acknowledged. */
  function Progress(msg: seq<ubyte>, w: Writer): nat {
    match w.phase
    case Sending(o, _) => o
    case Waiting(o, _) => o
    case Hushing(o, _, _) => o
    case Written => |msg|
    case WriteFailed(_) => 0
  }

  ghost predicate AllAcked(msg: seq<ubyte>, log: seq<Note>, w: Writer)
    requires |msg| < 0x1_0000
  {
    && (forall o: nat :: o < Progress(msg, w) && o < |msg| && o % MAX_PACKET_LEN == 0 ==> Acknowledged(log, Piece(msg, o)))
    && (w.phase.Waiting? && w.phase.offset < |msg| ==>
          log != [] && exists dest :: log[|log| - 1] == Out(Tx(dest, w.xid, Piece(msg, w.phase.offset))))
  }

  lemma AckedStays(log: seq<Note>, f: seq<ubyte>, n: Note)
    requires Acknowledged(log, f) && (n.Out? ==> n.tx.payload != f)
    ensures Acknowledged(log + [n], f)
  {
    var p: nat, q: nat :| AckedAt(log, f, p, q);
    assert AckedAt(log + [n], f, p, q);
  }

  lemma AckArrives(log: seq<Note>, f: seq<ubyte>, dest: Address, xid: ubyte)
    requires log != [] && log[|log| - 1] == Out(Tx(dest, xid, f))
    ensures Acknowledged(log + [In(xid, ACK)], f)
  {
    assert AckedAt(log + [In(xid, ACK)], f, |log| - 1, |log|);
  }

  lemma AckIsNoPiece(msg: seq<ubyte>, offset: nat, size: uword)
    requires offset < |msg| < 0x1_0000
    ensures AckFrag(size) != Piece(msg, offset)
  {
    assert AckFrag(size)[0] != Piece(msg, offset)[0];
  }

  lemma OutKeepsAcked(msg: seq<ubyte>, log: seq<Note>, done: nat, n: Note)
    requires |msg| < 0x1_0000
    requires forall o: nat :: o < done && o < |msg| && o % MAX_PACKET_LEN == 0 ==> Acknowledged(log, Piece(msg, o))
    requires n.Out? ==> forall o: nat :: o < done && o < |msg| ==> n.tx.payload != Piece(msg, o)
    ensures forall o: nat :: o < done && o < |msg| && o % MAX_PACKET_LEN == 0 ==> Acknowledged(log + [n], Piece(msg, o))
  {
    forall o: nat | o < done && o < |msg| && o % MAX_PACKET_LEN == 0
      ensures Acknowledged(log + [n], Piece(msg, o))
    {
      AckedStays(log, Piece(msg, o), n);
    }
  }

  lemma StepAllAcked(msg: seq<ubyte>, emulate: bool, w: Writer, e: WriterEvent, log: seq<Note>)
    requires |msg| < 0x1_0000 && w.Valid(msg) && e.Valid() && AllAcked(msg, log, w)
    ensures AllAcked(msg, log + Noted(msg, emulate, w, e), w.Step(msg, emulate, e))
  {
    hide Piece, AckFrag, Acknowledged, HeaderOf;
    var done, notes := Progress(msg, w), Noted(msg, emulate, w, e);
    var w' := w.Step(msg, emulate, e);
    if notes == [] {
      assert log + notes == log;
    } else {
      var n := notes[0];
      assert notes == [n];
      match w.phase {
        case Sending(o, a) =>
          forall k: nat | k < o && k < |msg|
            ensures n.tx.payload != Piece(msg, k)
          {
            PiecesDiffer(msg, k, o);
          }
          OutKeepsAcked(msg, log, done, n);
        case Waiting(o, a) =>
          OutKeepsAcked(msg, log, done, n);
          var dest :| log[|log| - 1] == Out(Tx(dest, w.xid, Piece(msg, o)));
          if n == In(w.xid, ACK) {
            AckArrives(log, Piece(msg, o), dest, w.xid);
            NoneBetween(msg, o);
          }
        case Hushing(o, a, size) =>
          forall k: nat | k < o && k < |msg|
            ensures n.tx.payload != Piece(msg, k)
          {
            AckIsNoPiece(msg, k, size);
          }
          OutKeepsAcked(msg, log, done, n);
        case _ =>
      }
    }
  }

  lemma NoneBetween(msg: seq<ubyte>, o: nat)
    requires o % MAX_PACKET_LEN == 0
    ensures forall k: nat :: k % MAX_PACKET_LEN == 0 && k < o + MAX_PACKET_LEN ==> k <= o
  {
  }

  lemma {:induction false} RunAllAcked(msg: seq<ubyte>, emulate: bool, start: Writer, events: seq<WriterEvent>)
    requires |msg| < 0x1_0000 && start.Valid(msg) && AllAcked(msg, [], start)
    requires forall e :: e in events ==> e.Valid()
    ensures AllAcked(msg, Log(msg, emulate, start, events), start.Run(msg, emulate, events))
    decreases |events|
  {
    if events != [] {
      hide AllAcked;
      var n := |events| - 1;
      RunAllAcked(msg, emulate, start, events[..n]);
      StepAllAcked(msg, emulate, start.Run(msg, emulate, events[..n]), events[n], Log(msg, emulate, start, events[..n]));
    }
  }

  /** When the writer reports success, each fragment has been acknowledged,
      under the transaction id it last went out with and after it last went out. */
  lemma SuccessMeansAcknowledged(msg: seq<ubyte>, emulate: bool, xid: ubyte, lastXid: ubyte, remote: Address,
                                 events: seq<WriterEvent>, o: nat)
    requires |msg| < 0x1_0000 && forall e :: e in events ==> e.Valid()
    requires o < |msg| && o % MAX_PACKET_LEN == 0
    requires StartWriter(msg, emulate, xid, lastXid, remote).Run(msg, emulate, events).phase.Written?
    ensures Acknowledged(Log(msg, emulate, StartWriter(msg, emulate, xid, lastXid, remote), events), Piece(msg, o))
  {
    RunAllAcked(msg, emulate, StartWriter(msg, emulate, xid, lastXid, remote), events);
  }

  // ----- Retries and transaction ids --------------------------------------------

  /** How often the fragment at `o` was put on the line. */
  function Transmissions(msg: seq<ubyte>, emulate: bool, start: Writer, events: seq<WriterEvent>, o: nat): nat
    requires |msg| < 0x1_0000 && start.Valid(msg) && forall e :: e in events ==> e.Valid()
  {
    if events == [] then 0
    else
      var before, e := events[..|events| - 1], events[|events| - 1];
      var w := start.Run(msg, emulate, before);
      Transmissions(msg, emulate, start, before, o)
      + if w.phase.Sending? && w.phase.offset == o && e == Sent(true) then 1 else 0
  }

  predicate Nudging(e: Listen) {
    e.Arrived? && e.Valid() && e.Header().ftype in {DATA, TICKLE, NAK}
  }

  /** How many packets that call for another try arrived while it was waiting for its answer. */
  function Nudges(msg: seq<ubyte>, emulate: bool, start: Writer, events: seq<WriterEvent>, o: nat): nat
    requires |msg| < 0x1_0000 && start.Valid(msg) && forall e :: e in events ==> e.Valid()
  {
    if events == [] then 0
    else
      var before, e := events[..|events| - 1], events[|events| - 1];
      var w := start.Run(msg, emulate, before);
      Nudges(msg, emulate, start, before, o)
      + if w.phase.Waiting? && w.phase.offset == o && e.Heard? && Nudging(e.what) then 1 else 0
  }

  /** The transmissions so far, less the nudges, have each used up an attempt. */
  ghost predicate WithinBudget(w: Writer, o: nat, sent: nat, nudges: nat) {
    match w.phase
    case Sending(p, a) => if p > o then sent <= MAX_RETRIES + nudges else if p == o then sent <= a + nudges else sent == 0
    case Waiting(p, a) => if p > o then sent <= MAX_RETRIES + nudges else if p == o then sent <= a + 1 + nudges else sent == 0
    case Hushing(p, a, _) => if p > o then sent <= MAX_RETRIES + nudges else if p == o then sent <= a + nudges else sent == 0
    case _ => sent <= MAX_RETRIES + nudges
  }

  lemma StepWithinBudget(msg: seq<ubyte>, emulate: bool, w: Writer, e: WriterEvent, o: nat, sent: nat, nudges: nat)
    requires |msg| < 0x1_0000 && w.Valid(msg) && e.Valid() && WithinBudget(w, o, sent, nudges)
    ensures WithinBudget(w.Step(msg, emulate, e), o,
                         sent + (if w.phase.Sending? && w.phase.offset == o && e == Sent(true) then 1 else 0),
                         nudges + (if w.phase.Waiting? && w.phase.offset == o && e.Heard? && Nudging(e.what) then 1 else 0))
  {
    hide Piece, AckFrag, HeaderOf;
    if w.phase.Waiting? && e.Heard? {
      match e.what {
        case Late =>
        case Broken(_, _) =>
        case Arrived(_, _, _, _) =>
          assert Nudging(e.what) <==> e.what.Header().ftype in {DATA, TICKLE, NAK};
      }
    }
  }

  lemma {:induction false} RunWithinBudget(msg: seq<ubyte>, emulate: bool, start: Writer, events: seq<WriterEvent>, o: nat)
    requires |msg| < 0x1_0000 && start.Valid(msg) && forall e :: e in events ==> e.Valid()
    requires start.phase == Sending(0, 0) || start.phase == Written
    ensures WithinBudget(start.Run(msg, emulate, events), o,
                         Transmissions(msg, emulate, start, events, o), Nudges(msg, emulate, start, events, o))
    decreases |events|
  {
    if events != [] {
      hide Writer.Step, WithinBudget, Nudging;
      var n := |events| - 1;
      var before, e := events[..n], events[n];
      RunWithinBudget(msg, emulate, start, before, o);
      StepWithinBudget(msg, emulate, start.Run(msg, emulate, before), e, o,
                       Transmissions(msg, emulate, start, before, o), Nudges(msg, emulate, start, before, o));
    }
  }

  /** Each fragment is transmitted at most `MAX_RETRIES` times, and once more for
      every data, tickle or NAK packet that arrived instead of its answer. */
  lemma BoundedRetries(msg: seq<ubyte>, emulate: bool, xid: ubyte, lastXid: ubyte, remote: Address,
                       events: seq<WriterEvent>, o: nat)
    requires |msg| < 0x1_0000 && forall e :: e in events ==> e.Valid()
    ensures var start := StartWriter(msg, emulate, xid, lastXid, remote);
            Transmissions(msg, emulate, start, events, o) <= MAX_RETRIES + Nudges(msg, emulate, start, events, o)
  {
    RunWithinBudget(msg, emulate, StartWriter(msg, emulate, xid, lastXid, remote), events, o);
  }

  predicate Reserved(xid: ubyte) { xid == 0 || xid == 0xff }

  ghost predicate GoodXids(w: Writer) {
    && (w.Running() ==> !Reserved(w.xid))
    && forall t :: t in w.sent && IsDataTx(t) ==> !Reserved(t.xid)
  }

  lemma StepGoodXids(msg: seq<ubyte>, w: Writer, e: WriterEvent)
    requires |msg| < 0x1_0000 && w.Valid(msg) && e.Valid() && GoodXids(w)
    ensures GoodXids(w.Step(msg, false, e))
  {
    hide Piece, HeaderOf;
    if w.phase.Hushing? {
      AckIsNoData(w.remote, w.lastXid, w.phase.size);
      hide AckFrag;
    }
  }

  /** A desktop never sends a fragment under a reserved transaction id, whatever
      ids the packets it receives come under. */
  lemma {:induction false} XidsNeverReserved(msg: seq<ubyte>, xid: ubyte, lastXid: ubyte, remote: Address, events: seq<WriterEvent>)
    requires |msg| < 0x1_0000 && forall e :: e in events ==> e.Valid()
    ensures GoodXids(StartWriter(msg, false, xid, lastXid, remote).Run(msg, false, events))
    decreases |events|
  {
    if events != [] {
      hide Writer.Step, GoodXids;
      var n := |events| - 1;
      XidsNeverReserved(msg, xid, lastXid, remote, events[..n]);
      StepGoodXids(msg, StartWriter(msg, false, xid, lastXid, remote).Run(msg, false, events[..n]), events[n]);
    }
  }

  // ----- Repeated fragments -------------------------------------------------------

  /** The writer answers a tickle by sending its fragment again, so that one
      tickle is enough to spoil any message of more than one fragment. */
  lemma TickleSpoilsMessage(msg: seq<ubyte>, emulate: bool, xid: ubyte, lastXid: ubyte, remote: Address,
                            tickle: Listen, r: Reader, e: Listen)
    requires MAX_PACKET_LEN < |msg| < 0x1_0000
    requires tickle.Arrived? && tickle.Valid() && tickle.Header().ftype == TICKLE
    requires r.phase.AwaitFirst? && Carries(e, msg, 0)
    ensures var w := StartWriter(msg, emulate, xid, lastXid, remote).Run(msg, emulate, [Sent(true), Heard(tickle), Sent(true)]);
            Transmitted(w.sent) == [Piece(msg, 0), Piece(msg, 0)]
    ensures r.Step(e).Step(e).phase == ReadFailed(NoErr)
  {
    hide HeaderOf, Piece;
    assert r.Step(e).phase.Collecting? && r.Step(e).Step(e).phase == ReadFailed(NoErr) by {
      hide PieceHeader, PieceData, FragHeader.First, FragHeader.Last;
      CarriedParts(e, msg, 0);
      FirstOfMany(msg);
      PieceGrows(msg, 0);
      PieceSizes(msg, 0);
    }
    var w0 := StartWriter(msg, emulate, xid, lastXid, remote);
    TwiceSent(msg, emulate, w0, tickle);
  }

  lemma FirstOfMany(msg: seq<ubyte>)
    requires MAX_PACKET_LEN < |msg| < 0x1_0000
    ensures !PieceHeader(msg, 0).Last() && |PieceData(msg, 0)| == MAX_PACKET_LEN
  {
  }

  lemma RunOneMore(msg: seq<ubyte>, emulate: bool, w: Writer, events: seq<WriterEvent>, e: WriterEvent)
    requires |msg| < 0x1_0000 && w.Valid(msg) && (forall x :: x in events ==> x.Valid()) && e.Valid()
    ensures w.Run(msg, emulate, []) == w
    ensures w.Run(msg, emulate, events + [e]) == w.Run(msg, emulate, events).Step(msg, emulate, e)
  {
    hide Writer.Step;
    assert (events + [e])[..|events|] == events;
  }

  lemma TwiceSent(msg: seq<ubyte>, emulate: bool, w0: Writer, tickle: Listen)
    requires 0 < |msg| < 0x1_0000 && w0.phase == Sending(0, 0) && w0.sent == []
    requires tickle.Arrived? && tickle.Valid() && tickle.Header().ftype == TICKLE
    ensures Transmitted(w0.Run(msg, emulate, [Sent(true), Heard(tickle), Sent(true)]).sent) == [Piece(msg, 0), Piece(msg, 0)]
  {
    hide HeaderOf, Piece, Writer.Run;
    RunOneMore(msg, emulate, w0, [], Sent(true));
    RunOneMore(msg, emulate, w0, [Sent(true)], Heard(tickle));
    RunOneMore(msg, emulate, w0, [Sent(true), Heard(tickle)], Sent(true));
    var w1 := w0.Step(msg, emulate, Sent(true));
    var w2 := w1.Step(msg, emulate, Heard(tickle));
    var w3 := w2.Step(msg, emulate, Sent(true));
    assert [] + [Sent(true)] == [Sent(true)];
    assert [Sent(true)] + [Heard(tickle)] == [Sent(true), Heard(tickle)];
    assert [Sent(true), Heard(tickle)] + [Sent(true)] == [Sent(true), Heard(tickle), Sent(true)];
    var t1, t2 := Tx(w0.remote, w0.xid, Piece(msg, 0)), Tx(w2.remote, w2.xid, Piece(msg, 0));
    PieceIsData(msg, 0, w0.remote, w0.xid);
    PieceIsData(msg, 0, w2.remote, w2.xid);
    TransmittedOneMore([], t1);
    TransmittedOneMore([t1], t2);
    assert w3.sent == [] + [t1] + [t2];
  }

  // ----- Exactly which repetitions do harm --------------------------------------------

  predicate Follows(os: seq<nat>, i: nat)
    requires i + 1 < |os|
  {
    os[i + 1] == os[i] || os[i + 1] == os[i] + MAX_PACKET_LEN
  }

  /** The fragments at the offsets `os` are sent one after the other, some of them repeatedly. */
  predicate Stutters(msg: seq<ubyte>, os: seq<nat>) {
    && os != [] && os[0] == 0
    && (forall i :: 0 <= i < |os| ==> os[i] < |msg| && os[i] % MAX_PACKET_LEN == 0)
    && forall i :: 0 <= i < |os| - 1 ==> Follows(os, i)
  }

  /** A fragment other than the last one of the message is sent again at once. */
  predicate Again(msg: seq<ubyte>, os: seq<nat>, i: nat)
    requires i + 1 < |os|
  {
    os[i] == os[i + 1] && !LastAt(msg, os[i])
  }

  predicate Repeats(msg: seq<ubyte>, os: seq<nat>) {
    exists i :: 0 <= i < |os| - 1 && Again(msg, os, i)
  }

  ghost predicate CarriesAll(events: seq<Listen>, msg: seq<ubyte>, os: seq<nat>)
    requires |msg| < 0x1_0000
  {
    |events| == |os| && forall i :: 0 <= i < |os| ==> Carries(events[i], msg, os[i])
  }

  lemma StuttersLess(msg: seq<ubyte>, os: seq<nat>)
    requires Stutters(msg, os) && |os| > 1
    ensures var n := |os| - 1;
            Stutters(msg, os[..n]) && (os[n] == os[n - 1] || os[n] == os[n - 1] + MAX_PACKET_LEN)
  {
    var n := |os| - 1;
    var init := os[..n];
    forall i | 0 <= i < n - 1
      ensures Follows(init, i)
    {
      assert Follows(os, i);
    }
    assert Follows(os, n - 1);
  }

  lemma RepeatsLess(msg: seq<ubyte>, os: seq<nat>)
    requires |os| > 1
    ensures Repeats(msg, os) <==> Repeats(msg, os[..|os| - 1]) || Again(msg, os, |os| - 2)
  {
    var n := |os| - 1;
    var init := os[..n];
    forall i | 0 <= i < n - 1
      ensures Again(msg, init, i) == Again(msg, os, i)
    {
    }
    hide Again;
    if Repeats(msg, init) {
      var i :| 0 <= i < n - 1 && Again(msg, init, i);
      assert Again(msg, os, i);
    }
    if Repeats(msg, os) {
      var i :| 0 <= i < n && Again(msg, os, i);
      assert i < n - 1 ==> Again(msg, init, i);
    }
  }

  lemma ReadOne(msg: seq<ubyte>, r: Reader, e: Listen, last: nat, o: nat, spoilt: bool)
    requires 0 < |msg| < 0x1_0000 && last < |msg| && last % MAX_PACKET_LEN == 0 && e.Valid()
    requires o < |msg| && o % MAX_PACKET_LEN == 0 && Carries(e, msg, o) && (o == last || o == last + MAX_PACKET_LEN)
    requires if spoilt then r.phase.ReadFailed? else ReaderHas(msg, r.phase, last + MAX_PACKET_LEN)
    ensures var p := r.Step(e).phase;
            if spoilt || (o == last && !LastAt(msg, last)) then p.ReadFailed?
            else !p.ReadFailed? && ReaderHas(msg, p, o + MAX_PACKET_LEN)
  {
    hide Carries, Reader.Step;
    if spoilt || LastAt(msg, last) {
      ReaderRests(r, e);
    } else if o == last {
      ReaderRefuses(msg, r, e, last + MAX_PACKET_LEN, o);
    } else {
      ReaderTakes(msg, r, e, o);
    }
  }

  lemma CarriesLess(events: seq<Listen>, msg: seq<ubyte>, os: seq<nat>)
    requires |msg| < 0x1_0000 && CarriesAll(events, msg, os) && os != []
    ensures var n := |os| - 1;
            |events| == n + 1 && CarriesAll(events[..n], msg, os[..n]) && Carries(events[n], msg, os[n])
    ensures forall e :: e in events ==> e.Valid()
  {
    hide Piece;
    var n := |os| - 1;
    assert events[..n] + [events[n]] == events;
    forall e | e in events
      ensures e.Valid()
    {
      var i :| 0 <= i < |events| && events[i] == e;
      assert Carries(events[i], msg, os[i]);
    }
  }

  lemma TakenIsNoFailure(msg: seq<ubyte>, phase: ReaderPhase, n: nat)
    requires |msg| < 0x1_0000 && ReaderHas(msg, phase, n)
    ensures !phase.ReadFailed?
  {
  }

  lemma AgainIs(msg: seq<ubyte>, os: seq<nat>)
    requires |os| > 1
    ensures var n := |os| - 1;
            Again(msg, os, n - 1) <==> os[n] == os[n - 1] && !LastAt(msg, os[n - 1])
  {
  }

  /** What is claimed of a reader that has heard the fragments at the offsets `os`. */
  predicate Harmed(msg: seq<ubyte>, os: seq<nat>, phase: ReaderPhase)
    requires |msg| < 0x1_0000 && os != []
  {
    if Repeats(msg, os) then phase.ReadFailed?
    else !phase.ReadFailed? && ReaderHas(msg, phase, os[|os| - 1] + MAX_PACKET_LEN)
  }

  lemma HarmedNext(msg: seq<ubyte>, r: Reader, e: Listen, os: seq<nat>)
    requires 0 < |msg| < 0x1_0000 && Stutters(msg, os) && |os| > 1 && e.Valid() && Carries(e, msg, os[|os| - 1])
    requires Harmed(msg, os[..|os| - 1], r.phase)
    ensures Harmed(msg, os, r.Step(e).phase)
  {
    hide Carries, Reader.Step, ReaderHas, LastAt, Again;
    var n := |os| - 1;
    RepeatsLess(msg, os);
    AgainIs(msg, os);
    StuttersLess(msg, os);
    assert os[n - 1] < |msg| && os[n] < |msg| && os[n] % MAX_PACKET_LEN == 0 && os[n - 1] % MAX_PACKET_LEN == 0;
    hide Stutters, Repeats;
    ReadOne(msg, r, e, os[n - 1], os[n], Repeats(msg, os[..n]));
  }

  lemma HarmedFirst(msg: seq<ubyte>, r: Reader, e: Listen, os: seq<nat>)
    requires 0 < |msg| < 0x1_0000 && Stutters(msg, os) && |os| == 1 && Carries(e, msg, 0) && e.Valid()
    requires r.phase.AwaitFirst?
    ensures Harmed(msg, os, r.Step(e).phase)
  {
    hide Carries, Reader.Step;
    ReaderTakes(msg, r, e, 0);
  }

  lemma {:induction false} RunHarmed(msg: seq<ubyte>, start: Reader, events: seq<Listen>, os: seq<nat>)
    requires 0 < |msg| < 0x1_0000 && start.phase.AwaitFirst? && Stutters(msg, os) && CarriesAll(events, msg, os)
    ensures forall e :: e in events ==> e.Valid()
    ensures Harmed(msg, os, start.Run(events).phase)
    decreases |os|
  {
    CarriesLess(events, msg, os);
    var n := |os| - 1;
    RunLast(start, events);
    if n == 0 {
      StartsAtZero(msg, os);
      hide *;
      HarmedFirst(msg, start, events[0], os);
    } else {
      StuttersLess(msg, os);
      hide *;
      RunHarmed(msg, start, events[..n], os[..n]);
      HarmedNext(msg, start.Run(events[..n]), events[n], os);
    }
  }

  lemma StartsAtZero(msg: seq<ubyte>, os: seq<nat>)
    requires Stutters(msg, os)
    ensures os[0] == 0
  {
  }

  /** When fragments arrive in order, but for repetitions, the call fails exactly
      when one other than the last of the message arrives twice in a row;
      otherwise the reader has all of the message up to the last that arrived. */
  lemma RepeatsSpoil(msg: seq<ubyte>, start: Reader, events: seq<Listen>, os: seq<nat>)
    requires 0 < |msg| < 0x1_0000 && start.phase.AwaitFirst? && Stutters(msg, os) && CarriesAll(events, msg, os)
    ensures forall e :: e in events ==> e.Valid()
    ensures start.Run(events).phase.ReadFailed? <==> Repeats(msg, os)
    ensures !Repeats(msg, os) ==> ReaderHas(msg, start.Run(events).phase, os[|os| - 1] + MAX_PACKET_LEN)
  {
    hide Carries, CarriesAll, Reader.Run, Repeats, ReaderHas;
    RunHarmed(msg, start, events, os);
  }

  /** So repetitions never harm a message of one fragment, which the caller of
      `padp_write` can tell from its length. */
  lemma ShortMessageUnharmed(msg: seq<ubyte>, start: Reader, events: seq<Listen>, os: seq<nat>)
    requires 0 < |msg| <= MAX_PACKET_LEN && start.phase.AwaitFirst? && Stutters(msg, os) && CarriesAll(events, msg, os)
    ensures forall e :: e in events ==> e.Valid()
    ensures start.Run(events).phase == Delivered(|msg|, msg)
  {
    hide Reader.Run, Carries;
    RepeatsSpoil(msg, start, events, os);
  }
}
