/** A call of `padp_write` and one of `padp_read`, with packets on their way
    between them: what stays true whatever becomes of the packets, and what is
    true as long as none is lost. */
module PadpExchange {
  import opened Bytes
  import opened Connection
  import opened Padp
  import opened PadpRuns
  import opened PadpLine

  datatype Setup = Setup(msg: seq<ubyte>, emulate: bool, writerAddr: Address, readerAddr: Address)
  {
    predicate Valid() {
      && 0 < |msg| < 0x1_0000
      && writerAddr.protocol == readerAddr.protocol
    }
  }

  /** The two ends, and the packets that each of them will still receive. */
  datatype View = View(w: Writer, r: Reader, toReader: seq<Item>, toWriter: seq<Item>)

  // ----- The parts of the invariant -----------------------------------------------

  /** The fragments of which the writer knows that they have arrived. */
  function Confirmed(msg: seq<ubyte>, phase: WriterPhase): nat {
    match phase
    case Sending(o, _) => o / MAX_PACKET_LEN
    case Waiting(o, _) => o / MAX_PACKET_LEN
    case Hushing(o, _, _) => o / MAX_PACKET_LEN
    case Written => Count(|msg|)
    case WriteFailed(_) => 0
  }

  /** The reader has sent one acknowledgement for each fragment it has taken. */
  predicate ReaderCounts(msg: seq<ubyte>, r: Reader)
    requires |msg| < 0x1_0000
  {
    if r.phase.ReadFailed? then |r.sent| < Count(|msg|)
    else |r.sent| <= Count(|msg|) && ReaderHas(msg, r.phase, MAX_PACKET_LEN * |r.sent|)
  }

  predicate IsPiece(msg: seq<ubyte>, body: seq<ubyte>)
    requires |msg| < 0x1_0000
  {
    |body| >= 4 &&
    var o := OffsetOf(body);
    o < |msg| && o % MAX_PACKET_LEN == 0 && body == Piece(msg, o)
  }

  /** A data packet on its way to the reader; only the first fragment until the reader has it. */
  predicate DataOk(msg: seq<ubyte>, it: Item, atStart: bool)
    requires |msg| < 0x1_0000
  {
    it.Kind() == DATA ==> IsPiece(msg, it.body) && (atStart ==> OffsetOf(it.body) == 0)
  }

  /** True in every run: the writer is never ahead of the reader. */
  predicate Safe(c: Setup, v: View)
    requires c.Valid()
  {
    && v.w.Valid(c.msg) && !v.w.phase.Hushing?
    && ReaderCounts(c.msg, v.r)
    && Confirmed(c.msg, v.w.phase) + Acks(v.toWriter, v.w.xid) <= |v.r.sent|
    && (forall it :: it in v.toReader ==> DataOk(c.msg, it, v.r.sent == []))
    && (forall it :: it in v.toWriter ==> it.Kind() != DATA)
  }

  lemma PieceOffset(msg: seq<ubyte>, o: nat)
    requires o < |msg| < 0x1_0000 && o % MAX_PACKET_LEN == 0
    ensures OffsetOf(Piece(msg, o)) == o && IsPiece(msg, Piece(msg, o)) && Piece(msg, o)[0] == DATA
  {
    PieceParts(msg, o);
    PieceSizes(msg, o);
  }

  lemma PieceItem(msg: seq<ubyte>, it: Item)
    requires |msg| < 0x1_0000 && IsPiece(msg, it.body)
    ensures it.Kind() == DATA && IsDataItem(it) && |it.body| >= 4
  {
    PieceOffset(msg, OffsetOf(it.body));
  }

  // ----- The reader hears a packet --------------------------------------------------

  lemma RunningHas(msg: seq<ubyte>, r: Reader)
    requires 0 < |msg| < 0x1_0000 && ReaderCounts(msg, r)
    ensures r.Running() ==> MAX_PACKET_LEN * |r.sent| < |msg| && ReaderHas(msg, r.phase, MAX_PACKET_LEN * |r.sent|)
    ensures r.Running() ==> |r.sent| < Count(|msg|)
    ensures !r.Running() && !r.phase.ReadFailed? ==> r.phase == Delivered(|msg|, msg) && |r.sent| == Count(|msg|)
  {
    CountBounds(|msg|, |r.sent|);
  }

  lemma HeededPiece(msg: seq<ubyte>, it: Item, room: nat)
    requires |msg| < 0x1_0000 && Hearable(it.body, room) && IsPiece(msg, it.body)
    ensures Carries(Heeded(it, room), msg, OffsetOf(it.body))
  {
    hide Heeded, OffsetOf, Piece;
    HeededFields(it, room);
  }

  /** The next fragment is taken and acknowledged, any other one ends the call. */
  lemma ReaderHearsPiece(msg: seq<ubyte>, r: Reader, it: Item, room: nat)
    requires 0 < |msg| < 0x1_0000 && r.Running() && ReaderCounts(msg, r)
    requires Hearable(it.body, room) && IsPiece(msg, it.body)
    requires r.sent == [] ==> OffsetOf(it.body) == 0
    ensures var r', o := r.Step(Heeded(it, room)), OffsetOf(it.body);
            && ReaderCounts(msg, r')
            && if o == MAX_PACKET_LEN * |r.sent| then
                 !r'.phase.ReadFailed? && r'.sent == r.sent + [Tx(it.sender, it.xid, AckFrag(PieceHeader(msg, o).size))]
               else r'.phase.ReadFailed? && r'.sent == r.sent
  {
    hide Piece, PieceHeader, AckFrag, Heeded, Reader.Step, OffsetOf, Carries;
    var e, o, n := Heeded(it, room), OffsetOf(it.body), MAX_PACKET_LEN * |r.sent|;
    RunningHas(msg, r);
    HeededPiece(msg, it, room);
    HeededFields(it, room);
    if o == n {
      ReaderTakes(msg, r, e, o);
      TakenIsNoFailure(msg, r.Step(e).phase, o + MAX_PACKET_LEN);
      CountBounds(|msg|, |r.sent|);
    } else {
      ReaderRefuses(msg, r, e, n, o);
    }
  }

  lemma ReaderHearsOther(msg: seq<ubyte>, r: Reader, it: Item, room: nat)
    requires 0 < |msg| < 0x1_0000 && r.Running() && ReaderCounts(msg, r)
    requires Hearable(it.body, room) && it.Kind() != DATA
    ensures var r' := r.Step(Heeded(it, room));
            && ReaderCounts(msg, r') && r'.sent == r.sent
            && (it.Kind() in {ACK, TICKLE} ==> r'.phase == r.phase)
  {
    hide HeaderOf, Item.Kind;
    HeededFields(it, room);
    RunningHas(msg, r);
  }

  lemma AckOf(msg: seq<ubyte>, o: nat)
    requires o < |msg| < 0x1_0000
    ensures var a := AckFrag(PieceHeader(msg, o).size);
            |a| == 4 && a[0] == ACK
  {
  }

  /** What the reader answers to `it`, if anything. */
  predicate Answers(r: Reader, it: Item, r': Reader) {
    r'.sent == r.sent ||
    (|r'.sent| == |r.sent| + 1 &&
     var t := r'.sent[|r.sent|];
     t.dest == it.sender && t.xid == it.xid && |t.payload| == 4 && t.payload[0] == ACK)
  }

  function AnswerItem(c: Setup, r: Reader): Item
    requires r.sent != []
  {
    var t := r.sent[|r.sent| - 1];
    Item(c.readerAddr, t.xid, t.payload)
  }

  // ----- Whatever happens -------------------------------------------------------------

  lemma SafeTransmit(c: Setup, v: View, out: seq<Item>)
    requires c.Valid() && Safe(c, v) && v.w.phase.Sending?
    requires out == [] || out == [Item(c.writerAddr, v.w.xid, Piece(c.msg, v.w.phase.offset))]
    ensures Safe(c, v.(w := v.w.Step(c.msg, c.emulate, Sent(true)), toReader := v.toReader + out))
  {
    hide Piece, Acks, ReaderCounts, IsPiece, OffsetOf;
    PieceOffset(c.msg, v.w.phase.offset);
  }

  lemma AcksOneLess(it: Item, left: seq<Item>, xid: ubyte)
    ensures Acks([it] + left, xid) == (if OwnAck(it, xid) then 1 else 0) + Acks(left, xid)
  {
    assert ([it] + left)[1..] == left;
  }

  /** An acknowledgement takes the writer one fragment further; nothing else does. */
  lemma WriterHearsItem(c: Setup, w: Writer, it: Item, room: nat)
    requires c.Valid() && w.Valid(c.msg) && w.phase.Waiting? && Hearable(it.body, room) && it.Kind() != DATA
    ensures var w' := w.Step(c.msg, c.emulate, Heard(Heeded(it, room)));
            && w'.xid == w.xid && w'.sent == w.sent && w'.remote == it.sender && !w'.phase.Hushing?
            && (OwnAck(it, w.xid) ==> Confirmed(c.msg, w'.phase) == Confirmed(c.msg, w.phase) + 1
                                      && w'.phase == w.Advance(c.msg, w.phase.offset).phase)
            && (!OwnAck(it, w.xid) ==> Confirmed(c.msg, w'.phase) <= Confirmed(c.msg, w.phase))
            && (Prompting(it) ==> w'.phase == Sending(w.phase.offset, w.phase.attempt))
            && (w'.phase.WriteFailed? || OwnAck(it, w.xid) || Prompting(it))
  {
    hide HeaderOf, Item.Kind, Heeded;
    HeededFields(it, room);
    LastPiece(c.msg, w.phase.offset);
  }

  lemma SafeWriterHears(c: Setup, v: View, it: Item, left: seq<Item>, room: nat)
    requires c.Valid() && Safe(c, v) && v.w.phase.Waiting? && v.toWriter == [it] + left && Hearable(it.body, room)
    ensures Safe(c, v.(w := v.w.Step(c.msg, c.emulate, Heard(Heeded(it, room))), toWriter := left))
  {
    hide Acks, ReaderCounts, DataOk, OwnAck, Prompting, Writer.Step, Confirmed, Item.Kind;
    assert it in v.toWriter;
    AcksOneLess(it, left, v.w.xid);
    WriterHearsItem(c, v.w, it, room);
    assert forall x :: x in left ==> x in v.toWriter;
  }

  lemma ReaderHearsItem(c: Setup, r: Reader, it: Item, room: nat)
    requires c.Valid() && r.Running() && ReaderCounts(c.msg, r) && Hearable(it.body, room)
    requires DataOk(c.msg, it, r.sent == [])
    ensures var r' := r.Step(Heeded(it, room));
            ReaderCounts(c.msg, r') && Answers(r, it, r')
  {
    hide Reader.Step, AckFrag, PieceHeader, ReaderCounts, IsPiece, OffsetOf, Heeded;
    if it.Kind() == DATA {
      ReaderHearsPiece(c.msg, r, it, room);
      PieceAck(c.msg, it.body);
    } else {
      ReaderHearsOther(c.msg, r, it, room);
    }
  }

  lemma PieceAck(msg: seq<ubyte>, body: seq<ubyte>)
    requires |msg| < 0x1_0000 && IsPiece(msg, body)
    ensures var a := AckFrag(PieceHeader(msg, OffsetOf(body)).size);
            |a| == 4 && a[0] == ACK
  {
    AckOf(msg, OffsetOf(body));
  }

  lemma SafeReaderHears(c: Setup, v: View, it: Item, left: seq<Item>, room: nat, r': Reader, out: seq<Item>)
    requires c.Valid() && Safe(c, v) && v.r.Running() && v.toReader == [it] + left && Hearable(it.body, room)
    requires r' == v.r.Step(Heeded(it, room))
    requires out == [] || (|r'.sent| > |v.r.sent| && out == [AnswerItem(c, r')])
    ensures Safe(c, v.(r := r', toReader := left, toWriter := v.toWriter + out)) && Answers(v.r, it, r')
  {
    hide Acks, ReaderCounts, IsPiece, OffsetOf, Reader.Step, Confirmed, Writer.Valid, OwnAck;
    assert it in v.toReader;
    ReaderHearsItem(c, v.r, it, room);
    CountsConcat(v.toWriter, out, v.w.xid);
    if out != [] {
      CountsOne(out[0], v.w.xid);
    } else {
      NoAcks(out, v.w.xid);
    }
    assert forall x :: x in left ==> x in v.toReader;
  }

  /** A packet that no end of the connection sent, but that does not pass for one that did. */
  predicate Acceptable(w: Writer, toReader: bool, it: Item) {
    it.Kind() != DATA && (toReader || !OwnAck(it, w.xid))
  }

  lemma SafeIntrude(c: Setup, v: View, toReader: bool, more: seq<Item>)
    requires c.Valid() && Safe(c, v) && forall it :: it in more ==> Acceptable(v.w, toReader, it)
    ensures Safe(c, if toReader then v.(toReader := v.toReader + more) else v.(toWriter := v.toWriter + more))
  {
    hide Acks, ReaderCounts, IsPiece, OffsetOf, Confirmed, OwnAck, Item.Kind;
    if !toReader {
      CountsConcat(v.toWriter, more, v.w.xid);
      NoAcks(more, v.w.xid);
    }
  }

  lemma SafeWriterSuffers(c: Setup, v: View, e: WriterEvent)
    requires c.Valid() && Safe(c, v) && e.Valid() && e != Sent(true) && (e.Heard? ==> !e.what.Arrived?)
    ensures Safe(c, v.(w := v.w.Step(c.msg, c.emulate, e)))
  {
    hide Acks, ReaderCounts, DataOk, Item.Kind;
  }

  lemma SafeReaderSuffers(c: Setup, v: View, e: Listen)
    requires c.Valid() && Safe(c, v) && v.r.Running() && e.Valid() && !e.Arrived?
    ensures Safe(c, v.(r := v.r.Step(e)))
  {
    hide Acks, DataOk, Item.Kind, Confirmed;
    RunningHas(c.msg, v.r);
  }

  /** What the invariant says of the outcome. */
  lemma SafeOutcome(c: Setup, v: View)
    requires c.Valid() && Safe(c, v)
    ensures !v.r.phase.Overrun?
    ensures v.r.phase.Delivered? ==> v.r.phase == Delivered(|c.msg|, c.msg)
    ensures v.w.phase.Written? ==> v.r.phase == Delivered(|c.msg|, c.msg)
  {
    RunningHas(c.msg, v.r);
  }

  // ----- When nothing is lost -----------------------------------------------------------

  /** The offsets of the fragments sent so far, repeats included. */
  function SentOffsets(sent: seq<Tx>): seq<nat> {
    if sent == [] then []
    else
      var t := sent[|sent| - 1];
      SentOffsets(sent[..|sent| - 1])
      + if IsDataTx(t) && |t.payload| >= 4 then [OffsetOf(t.payload)] else []
  }

  /** A fragment that is not the last one has been sent twice. */
  predicate Spoilt(msg: seq<ubyte>, w: Writer) { Repeats(msg, SentOffsets(w.sent)) }

  /** The writer has sent the fragments in order, but for repeats, up to the one it is at. */
  predicate Steady(msg: seq<ubyte>, phase: WriterPhase, os: seq<nat>) {
    && (os != [] ==> Stutters(msg, os))
    && match phase
       case Sending(o, _) =>
         if os == [] then o == 0 else os[|os| - 1] == o || os[|os| - 1] + MAX_PACKET_LEN == o
       case Waiting(o, _) => os != [] && os[|os| - 1] == o
       case Written => os != [] && LastAt(msg, os[|os| - 1])
       case _ => true
  }

  /** What the reader makes of the fragments at the offsets `done`. */
  predicate HasRead(msg: seq<ubyte>, r: Reader, done: seq<nat>) {
    if done == [] then r.sent == [] && !r.phase.ReadFailed?
    else if Repeats(msg, done) then r.phase.ReadFailed?
    else !r.phase.ReadFailed? && MAX_PACKET_LEN * |r.sent| == done[|done| - 1] + MAX_PACKET_LEN
  }

  /** Of the fragments at the offsets `os` those at `queue` are still on their way. */
  predicate Queued(msg: seq<ubyte>, r: Reader, os: seq<nat>, queue: seq<nat>) {
    && |queue| <= |os| && os[|os| - |queue|..] == queue
    && HasRead(msg, r, os[..|os| - |queue|])
  }

  predicate FromWriter(c: Setup, xid: ubyte, it: Item) {
    if it.Kind() == DATA then it.sender == c.writerAddr && it.xid == xid else it.Kind() == TICKLE || it.Kind() == ACK
  }

  predicate FromReader(c: Setup, xid: ubyte, it: Item) {
    it.sender.port == c.readerAddr.port && (OwnAck(it, xid) || Prompting(it))
  }

  /** True of runs without losses and timeouts: the writer is never behind the reader either. */
  predicate Live(c: Setup, v: View)
    requires c.Valid()
  {
    var os := SentOffsets(v.w.sent);
    && Safe(c, v)
    && !v.w.phase.WriteFailed? && v.w.remote.port == c.readerAddr.port
    && Confirmed(c.msg, v.w.phase) + Acks(v.toWriter, v.w.xid) == |v.r.sent|
    && (forall it :: it in v.toReader ==> FromWriter(c, v.w.xid, it))
    && (forall it :: it in v.toWriter ==> FromReader(c, v.w.xid, it))
    && Steady(c.msg, v.w.phase, os)
    && Queued(c.msg, v.r, os, Offsets(v.toReader))
  }

  lemma OneMoreSent(msg: seq<ubyte>, sent: seq<Tx>, dest: Address, xid: ubyte, o: nat)
    requires o < |msg| < 0x1_0000 && o % MAX_PACKET_LEN == 0
    ensures SentOffsets(sent + [Tx(dest, xid, Piece(msg, o))]) == SentOffsets(sent) + [o]
  {
    hide Piece, OffsetOf;
    var t := Tx(dest, xid, Piece(msg, o));
    PieceOffset(msg, o);
    PieceIsData(msg, o, dest, xid);
    assert (sent + [t])[..|sent|] == sent;
  }

  lemma SteadyOn(msg: seq<ubyte>, os: seq<nat>, o: nat, a: nat)
    requires Steady(msg, Sending(o, a), os) && o < |msg| && o % MAX_PACKET_LEN == 0
    ensures Steady(msg, Waiting(o, a), os + [o])
  {
    var us := os + [o];
    forall i | 0 <= i < |us| - 1
      ensures Follows(us, i)
    {
      assert i < |os| - 1 ==> Follows(os, i);
    }
  }

  lemma QueuedOn(msg: seq<ubyte>, r: Reader, os: seq<nat>, queue: seq<nat>, o: nat)
    requires Queued(msg, r, os, queue)
    ensures Queued(msg, r, os + [o], queue + [o])
  {
    hide HasRead;
    var k := |os| - |queue|;
    assert (os + [o])[..k] == os[..k] && (os + [o])[k..] == os[k..] + [o];
  }

  lemma LiveTransmit(c: Setup, v: View)
    requires c.Valid() && Live(c, v) && v.w.phase.Sending?
    ensures var o := v.w.phase.offset;
            Live(c, v.(w := v.w.Step(c.msg, c.emulate, Sent(true)),
                       toReader := v.toReader + [Item(c.writerAddr, v.w.xid, Piece(c.msg, o))]))
  {
    hide Safe, Acks, Offsets, SentOffsets, Queued, Steady, Piece, OffsetOf, IsDataItem, FromReader;
    var o := v.w.phase.offset;
    SafeIsValid(c, v);
    var it := Item(c.writerAddr, v.w.xid, Piece(c.msg, o));
    SafeTransmit(c, v, [it]);
    OneMoreSent(c.msg, v.w.sent, v.w.remote, v.w.xid, o);
    SteadyOn(c.msg, SentOffsets(v.w.sent), o, v.w.phase.attempt);
    CountsConcat(v.toReader, [it], v.w.xid);
    CountsOne(it, v.w.xid);
    PieceOffset(c.msg, o);
    PieceItem(c.msg, it);
    QueuedOn(c.msg, v.r, SentOffsets(v.w.sent), Offsets(v.toReader), o);
  }

  lemma SafeIsValid(c: Setup, v: View)
    requires c.Valid() && Safe(c, v)
    ensures v.w.Valid(c.msg) && !v.w.phase.Hushing? && ReaderCounts(c.msg, v.r)
  {
  }

  lemma SteadyBack(msg: seq<ubyte>, w: Writer, os: seq<nat>)
    requires |msg| < 0x1_0000 && w.phase.Waiting? && Steady(msg, w.phase, os)
    ensures Steady(msg, w.Advance(msg, w.phase.offset).phase, os)
    ensures Steady(msg, Sending(w.phase.offset, w.phase.attempt), os)
  {
    hide Stutters;
  }

  lemma LiveWriterHears(c: Setup, v: View, it: Item, left: seq<Item>, room: nat)
    requires c.Valid() && Live(c, v) && v.w.phase.Waiting? && v.toWriter == [it] + left && Hearable(it.body, room)
    ensures Live(c, v.(w := v.w.Step(c.msg, c.emulate, Heard(Heeded(it, room))), toWriter := left))
  {
    hide Safe, Acks, Offsets, SentOffsets, Queued, Steady, FromWriter, OwnAck, Prompting, Writer.Step, Confirmed, Item.Kind;
    SafeWriterHears(c, v, it, left, room);
    SafeIsValid(c, v);
    assert it in v.toWriter && FromReader(c, v.w.xid, it);
    NoDataToWriter(c, v, it);
    AcksOneLess(it, left, v.w.xid);
    WriterHearsItem(c, v.w, it, room);
    SteadyBack(c.msg, v.w, SentOffsets(v.w.sent));
    assert forall x :: x in left ==> x in v.toWriter;
    NotBoth(it, v.w.xid);
    SameProgress(c.msg, v.w.phase.offset, v.w.phase.attempt);
  }

  lemma SameProgress(msg: seq<ubyte>, o: nat, a: nat)
    ensures Confirmed(msg, Sending(o, a)) == Confirmed(msg, Waiting(o, a))
  {
  }

  lemma NotBoth(it: Item, xid: ubyte)
    ensures !(OwnAck(it, xid) && Prompting(it))
  {
  }

  lemma NoDataToWriter(c: Setup, v: View, it: Item)
    requires c.Valid() && Safe(c, v) && it in v.toWriter
    ensures it.Kind() != DATA
  {
  }

  /** The reader takes the fragment at `o`, or fails, as `HasRead` says. */
  lemma ReadNext(msg: seq<ubyte>, r: Reader, r': Reader, done: seq<nat>, o: nat)
    requires 0 < |msg| < 0x1_0000 && Stutters(msg, done + [o])
    requires HasRead(msg, r, done) && !r.phase.ReadFailed? && MAX_PACKET_LEN * |r.sent| < |msg|
    requires if o == MAX_PACKET_LEN * |r.sent| then !r'.phase.ReadFailed? && |r'.sent| == |r.sent| + 1 else r'.phase.ReadFailed?
    ensures HasRead(msg, r', done + [o])
  {
    var us := done + [o];
    if done == [] {
      assert us[0] == o;
    } else {
      var n := |done|;
      assert us[..n] == done && us[n - 1] == done[n - 1];
      assert Follows(us, n - 1);
      RepeatsLess(msg, us);
      AgainIs(msg, us);
      hide Repeats, Stutters;
    }
  }

  lemma StuttersPrefix(msg: seq<ubyte>, os: seq<nat>, k: nat)
    requires Stutters(msg, os) && 0 < k <= |os|
    ensures Stutters(msg, os[..k])
  {
    var us := os[..k];
    forall i | 0 <= i < k - 1
      ensures Follows(us, i)
    {
      assert Follows(os, i);
    }
  }

  lemma QueueShorter(msg: seq<ubyte>, r: Reader, os: seq<nat>, o: nat, rest: seq<nat>)
    requires Queued(msg, r, os, [o] + rest) && Stutters(msg, os)
    ensures var k := |os| - |rest| - 1;
            && HasRead(msg, r, os[..k]) && os[..k + 1] == os[..k] + [o] && os[k + 1..] == rest
            && Stutters(msg, os[..k + 1]) && (os[..k] == [] ==> o == 0)
  {
    hide HasRead, Repeats;
    var k := |os| - |rest| - 1;
    assert os[k] == os[k..][0] == o;
    assert os[k + 1..] == os[k..][1..] == rest;
    StuttersPrefix(msg, os, k + 1);
  }

  lemma OffsetsFirst(it: Item, left: seq<Item>)
    ensures Offsets([it] + left) == if IsDataItem(it) then [OffsetOf(it.body)] + Offsets(left) else Offsets(left)
  {
    assert ([it] + left)[1..] == left;
  }

  /** The reader hears a packet, and its answer, if it gives one, gets onto the line. */
  lemma LiveReaderHears(c: Setup, v: View, it: Item, left: seq<Item>, room: nat, r': Reader, out: seq<Item>)
    requires c.Valid() && Live(c, v) && v.r.Running() && v.toReader == [it] + left && Hearable(it.body, room)
    requires r' == v.r.Step(Heeded(it, room))
    requires out == if |r'.sent| > |v.r.sent| then [AnswerItem(c, r')] else []
    ensures Live(c, v.(r := r', toReader := left, toWriter := v.toWriter + out))
  {
    hide Safe, Acks, Offsets, SentOffsets, Queued, Steady, Reader.Step, Item.Kind, IsDataItem, OffsetOf, FromReader,
         ReaderCounts, Reader.Running, Confirmed, Heeded;
    assert it in v.toReader && FromWriter(c, v.w.xid, it);
    SafeIsValid(c, v);
    SafeReaderHears(c, v, it, left, room, r', out);
    OffsetsFirst(it, left);
    assert forall x :: x in left ==> x in v.toReader;
    DataArriving(c, v, it);
    if it.Kind() == DATA {
      AnswerCounts(c, v, it, r', out);
      ReaderHearsData(c, v, it, left, room, r');
    } else {
      ReaderHearsOther(c.msg, v.r, it, room);
      AnswerCounts(c, v, it, r', out);
      NotData(it);
      SameReading(c.msg, v.r, r', SentOffsets(v.w.sent), Offsets(left));
    }
  }

  lemma NotData(it: Item)
    requires it.Kind() != DATA
    ensures !IsDataItem(it)
  {
  }

  lemma DataArriving(c: Setup, v: View, it: Item)
    requires c.Valid() && Safe(c, v) && it in v.toReader
    ensures it.Kind() == DATA ==> IsPiece(c.msg, it.body) && (v.r.sent == [] ==> OffsetOf(it.body) == 0)
  {
    assert DataOk(c.msg, it, v.r.sent == []);
  }

  lemma SameReading(msg: seq<ubyte>, r: Reader, r': Reader, os: seq<nat>, queue: seq<nat>)
    requires Queued(msg, r, os, queue) && r'.phase == r.phase && r'.sent == r.sent
    ensures Queued(msg, r', os, queue)
  {
    hide Repeats;
  }

  lemma ReaderHearsData(c: Setup, v: View, it: Item, left: seq<Item>, room: nat, r': Reader)
    requires c.Valid() && v.r.Running() && ReaderCounts(c.msg, v.r) && Hearable(it.body, room)
    requires r' == v.r.Step(Heeded(it, room))
    requires IsPiece(c.msg, it.body) && (v.r.sent == [] ==> OffsetOf(it.body) == 0)
    requires Steady(c.msg, v.w.phase, SentOffsets(v.w.sent))
    requires Queued(c.msg, v.r, SentOffsets(v.w.sent), Offsets([it] + left))
    ensures Queued(c.msg, r', SentOffsets(v.w.sent), Offsets(left))
  {
    hide Reader.Step, Stutters, ReaderCounts, IsPiece, OffsetOf, HasRead, Offsets, SentOffsets, Heeded, Reader.Running,
         AckFrag, PieceHeader, IsDataItem;
    PieceItem(c.msg, it);
    var os, o, rest := SentOffsets(v.w.sent), OffsetOf(it.body), Offsets(left);
    OffsetsFirst(it, left);
    QueueShorter(c.msg, v.r, os, o, rest);
    RunningHas(c.msg, v.r);
    RunningNotFailed(v.r);
    ReaderHearsPiece(c.msg, v.r, it, room);
    ReadNext(c.msg, v.r, r', os[..|os| - |rest| - 1], o);
  }

  lemma RunningNotFailed(r: Reader)
    requires r.Running()
    ensures !r.phase.ReadFailed?
  {
  }

  lemma AnswerCounts(c: Setup, v: View, it: Item, r': Reader, out: seq<Item>)
    requires c.Valid() && Answers(v.r, it, r') && FromWriter(c, v.w.xid, it)
    requires it.Kind() != DATA ==> r'.sent == v.r.sent
    requires out == if |r'.sent| > |v.r.sent| then [AnswerItem(c, r')] else []
    ensures Acks(v.toWriter + out, v.w.xid) - Acks(v.toWriter, v.w.xid) == |r'.sent| - |v.r.sent|
    ensures forall x :: x in out ==> FromReader(c, v.w.xid, x)
  {
    hide Acks, Prompts, Offsets;
    CountsConcat(v.toWriter, out, v.w.xid);
    if out != [] {
      CountsOne(out[0], v.w.xid);
    } else {
      NoAcks(out, v.w.xid);
    }
  }

  // ----- What it leads to ---------------------------------------------------------------

  lemma {:induction false} OffsetsAscend(msg: seq<ubyte>, os: seq<nat>, i: nat, j: nat)
    requires Stutters(msg, os) && i <= j < |os|
    ensures os[i] <= os[j]
    decreases j
  {
    if i < j {
      OffsetsAscend(msg, os, i, j - 1);
      assert Follows(os, j - 1);
    }
  }

  lemma RepeatsOn(msg: seq<ubyte>, os: seq<nat>, k: nat)
    requires k <= |os| && Repeats(msg, os[..k])
    ensures Repeats(msg, os)
  {
    var i :| 0 <= i < k - 1 && Again(msg, os[..k], i);
    assert Again(msg, os, i);
  }

  /** A reader that has all of the message has not heard a fragment behind one that was repeated. */
  lemma RepeatsKeepBack(msg: seq<ubyte>, r: Reader, os: seq<nat>, queue: seq<nat>)
    requires 0 < |msg| < 0x1_0000 && Stutters(msg, os) && Queued(msg, r, os, queue) && Repeats(msg, os)
    requires ReaderCounts(msg, r)
    ensures !r.phase.Delivered?
  {
    var k := |os| - |queue|;
    var i :| 0 <= i < |os| - 1 && Again(msg, os, i);
    var done := os[..k];
    if i + 1 < k {
      assert Again(msg, done, i);
    } else if done != [] {
      OffsetsAscend(msg, os, k - 1, i);
      assert done[k - 1] == os[k - 1];
    }
    hide Repeats, Again, Stutters;
  }

  lemma NotFailedUnlessRepeated(msg: seq<ubyte>, r: Reader, os: seq<nat>, queue: seq<nat>)
    requires Queued(msg, r, os, queue) && !Repeats(msg, os)
    ensures !r.phase.ReadFailed?
  {
    if Repeats(msg, os[..|os| - |queue|]) { RepeatsOn(msg, os, |os| - |queue|); }
    hide Repeats;
  }

  /** As long as no fragment but the last was sent twice neither end fails; once
      one was, the reader will not deliver. */
  lemma LiveOutcome(c: Setup, v: View)
    requires c.Valid() && Live(c, v)
    ensures !v.w.phase.WriteFailed?
    ensures Spoilt(c.msg, v.w) ==> !v.r.phase.Delivered? && !v.w.phase.Written?
    ensures !Spoilt(c.msg, v.w) ==> !v.r.phase.ReadFailed?
  {
    hide ReaderCounts, Queued, Stutters, Repeats, Acks;
    SafeOutcome(c, v);
    var os, queue := SentOffsets(v.w.sent), Offsets(v.toReader);
    if Spoilt(c.msg, v.w) {
      RepeatedIsSome(c.msg, os);
      RepeatsKeepBack(c.msg, v.r, os, queue);
    } else {
      NotFailedUnlessRepeated(c.msg, v.r, os, queue);
    }
  }

  lemma RepeatedIsSome(msg: seq<ubyte>, os: seq<nat>)
    requires Repeats(msg, os)
    ensures os != []
  {
  }

  /** And there is a packet for one of them while the writer waits. */
  lemma SomethingToHear(c: Setup, v: View)
    requires c.Valid() && Live(c, v) && !Spoilt(c.msg, v.w) && v.w.phase.Waiting?
    ensures v.toWriter != [] || (v.r.Running() && v.toReader != [])
  {
    if v.toWriter == [] {
      hide Acks, ReaderCounts, Queued, Stutters, Repeats, Writer.Valid, IsDataItem, OffsetOf;
      var os, queue := SentOffsets(v.w.sent), Offsets(v.toReader);
      LiveOutcome(c, v);
      RunningHas(c.msg, v.r);
      NoneLeft(v.w.xid);
      assert v.w.Valid(c.msg);
      NotYetThere(c.msg, v.w, v.r);
      if queue == [] { AllRead(c.msg, v.r, os, v.w.phase.offset); }
    }
  }

  lemma NoneLeft(xid: ubyte)
    ensures Acks([], xid) == 0 && Offsets([]) == []
  {
  }

  lemma NotYetThere(msg: seq<ubyte>, w: Writer, r: Reader)
    requires w.Valid(msg) && w.phase.Waiting? && Confirmed(msg, w.phase) == |r.sent|
    ensures MAX_PACKET_LEN * |r.sent| == w.phase.offset && |r.sent| < Count(|msg|)
  {
    CountBounds(|msg|, |r.sent|);
  }

  lemma AllRead(msg: seq<ubyte>, r: Reader, os: seq<nat>, o: nat)
    requires Queued(msg, r, os, []) && !Repeats(msg, os) && os != [] && os[|os| - 1] == o
    ensures MAX_PACKET_LEN * |r.sent| == o + MAX_PACKET_LEN
  {
    hide Repeats;
    assert os[..|os| - 0] == os;
  }

  /** A repeat among those sent stays one. */
  lemma StaysSpoilt(c: Setup, w: Writer, e: WriterEvent)
    requires c.Valid() && w.Valid(c.msg) && e.Valid() && Spoilt(c.msg, w)
    ensures Spoilt(c.msg, w.Step(c.msg, c.emulate, e))
  {
    hide Piece, AckFrag, HeaderOf, IsDataTx, OffsetOf, Repeats;
    var w' := w.Step(c.msg, c.emulate, e);
    if w'.sent != w.sent {
      var n := |w.sent|;
      assert w'.sent[..n] == w.sent;
      var os, us := SentOffsets(w.sent), SentOffsets(w'.sent);
      assert us[..|os|] == os;
      RepeatsOn(c.msg, us, |os|);
    }
  }

  /** A message of one fragment cannot be spoilt. */
  lemma ShortIsNotSpoilt(c: Setup, v: View)
    requires c.Valid() && Live(c, v) && |c.msg| <= MAX_PACKET_LEN
    ensures !Spoilt(c.msg, v.w)
  {
  }

  // ----- Without tickles ------------------------------------------------------------------

  /** Nothing has made the writer send a fragment again, and nothing will. */
  predicate Calm(msg: seq<ubyte>, w: Writer, toWriter: seq<Item>) {
    var os := SentOffsets(w.sent);
    && (forall it :: it in toWriter ==> !Prompting(it))
    && !Repeats(msg, os)
    && (w.phase.Sending? && os != [] ==> os[|os| - 1] + MAX_PACKET_LEN == w.phase.offset)
  }

  lemma CalmTransmit(c: Setup, v: View)
    requires c.Valid() && Live(c, v) && v.w.phase.Sending? && Calm(c.msg, v.w, v.toWriter)
    ensures Calm(c.msg, v.w.Step(c.msg, c.emulate, Sent(true)), v.toWriter)
  {
    hide ReaderCounts, Queued, Steady, Acks, Piece, OffsetOf, Prompting, Again;
    var os, o := SentOffsets(v.w.sent), v.w.phase.offset;
    OneMoreSent(c.msg, v.w.sent, v.w.remote, v.w.xid, o);
    NotAgain(c.msg, os, o);
  }

  lemma NotAgain(msg: seq<ubyte>, os: seq<nat>, o: nat)
    requires !Repeats(msg, os) && (os != [] ==> os[|os| - 1] + MAX_PACKET_LEN == o)
    ensures !Repeats(msg, os + [o])
  {
    if os != [] {
      assert (os + [o])[..|os|] == os;
      RepeatsLess(msg, os + [o]);
      AgainIs(msg, os + [o]);
      hide Repeats;
    }
  }

  lemma CalmWriterHears(c: Setup, v: View, it: Item, left: seq<Item>, room: nat)
    requires c.Valid() && Live(c, v) && v.w.phase.Waiting? && v.toWriter == [it] + left && Hearable(it.body, room)
    requires Calm(c.msg, v.w, v.toWriter)
    ensures Calm(c.msg, v.w.Step(c.msg, c.emulate, Heard(Heeded(it, room))), left)
  {
    hide ReaderCounts, Queued, Stutters, Acks, SentOffsets, Repeats, Prompting, OwnAck, Writer.Step, Heeded, Item.Kind;
    assert it in v.toWriter && FromReader(c, v.w.xid, it);
    WriterHearsItem(c, v.w, it, room);
    assert forall x :: x in left ==> x in v.toWriter;
  }
}
