/** `padp_write` at one end of a line and `padp_read` at the other: every
    interleaving of the two, of the line handing over bytes in pieces of its own
    choosing or losing packets, of timeouts and failures, and of other bytes. */
module PadpTwoParty {
  import opened Bytes
  import opened Connection
  import opened Padp
  import opened PadpExchange
  import opened PadpLine
  import opened PadpRuns
  import opened Slp
  import opened SlpResync

  datatype State = State(w: Writer, r: Reader, toReader: Channel, toWriter: Channel)
  {
    function Seen(c: Setup): View {
      View(w, r, Work(c.readerAddr, toReader.All()), Work(c.writerAddr, toWriter.All()))
    }
  }

  /** The writer puts a packet on the line, which may lose it; an end takes a
      packet off the line, into an input buffer of `room` bytes, and the line may
      lose the answer; `n` bytes arrive; other bytes get onto the line; an end
      waits in vain, or finds the line broken. */
  datatype Move =
    | Transmit(lost: bool)
    | WriterHears(room: nat)
    | ReaderHears(room: nat, lost: bool)
    | Deliver(toReader: bool, n: nat)
    | Intrude(toReader: bool, bytes: seq<ubyte>)
    | WriterSuffers(event: WriterEvent)
    | ReaderSuffers(what: Listen)

  predicate HearableAt(local: Address, seen: Address, ch: Channel, room: nat) {
    var g := Receive(local, seen, ch.arrived);
    g.Got? && Hearable(g.body, room)
  }

  /** The bytes of others: noise, packets for somebody else or damaged ones, as
      long as the receiver keeps step; and packets for this end, but for data,
      and for acknowledgements the writer would take for its own. */
  predicate Intruding(c: Setup, w: Writer, toReader: bool, bytes: seq<ubyte>) {
    var local := if toReader then c.readerAddr else c.writerAddr;
    InStep(local, bytes) && forall it :: it in Work(local, bytes) ==> Acceptable(w, toReader, it)
  }

  predicate Enabled(c: Setup, s: State, m: Move) {
    match m
    case Transmit(_) => s.w.phase.Sending?
    case WriterHears(room) => s.w.phase.Waiting? && HearableAt(c.writerAddr, s.w.remote, s.toWriter, room)
    case ReaderHears(room, _) => s.r.Running() && HearableAt(c.readerAddr, s.r.remote, s.toReader, room)
    case Deliver(toReader, n) => 0 < n <= |if toReader then s.toReader.flying else s.toWriter.flying|
    case Intrude(toReader, bytes) => Intruding(c, s.w, toReader, bytes)
    case WriterSuffers(e) => e.Valid() && e != Sent(true) && (e.Heard? ==> !e.what.Arrived?)
    case ReaderSuffers(e) => s.r.Running() && e.Valid() && !e.Arrived?
  }

  /** The packet a machine has just sent, as bytes. */
  function Latest(local: Address, sent: seq<Tx>): seq<ubyte>
    requires sent != []
  {
    var t := sent[|sent| - 1];
    if |t.payload| < 0x1_0000 then Wire(local, t.dest, t.xid, t.payload) else []
  }

  function Taken(local: Address, seen: Address, ch: Channel): (Item, Channel)
    requires Receive(local, seen, ch.arrived).Got?
  {
    var g := Receive(local, seen, ch.arrived);
    (ItemOf(g), ch.(arrived := g.rest))
  }

  function Next(c: Setup, s: State, m: Move): State
    requires c.Valid() && s.w.Valid(c.msg) && Enabled(c, s, m)
  {
    match m
    case Transmit(lost) =>
      var w := s.w.Step(c.msg, c.emulate, Sent(true));
      s.(w := w, toReader := if lost then s.toReader else s.toReader.Put(Latest(c.writerAddr, w.sent)))
    case WriterHears(room) =>
      var (it, left) := Taken(c.writerAddr, s.w.remote, s.toWriter);
      s.(w := s.w.Step(c.msg, c.emulate, Heard(Heeded(it, room))), toWriter := left)
    case ReaderHears(room, lost) =>
      var (it, left) := Taken(c.readerAddr, s.r.remote, s.toReader);
      var r := s.r.Step(Heeded(it, room));
      s.(r := r, toReader := left,
         toWriter := if |r.sent| > |s.r.sent| && !lost then s.toWriter.Put(Latest(c.readerAddr, r.sent)) else s.toWriter)
    case Deliver(toReader, n) =>
      if toReader then s.(toReader := s.toReader.Arrive(n)) else s.(toWriter := s.toWriter.Arrive(n))
    case Intrude(toReader, bytes) =>
      if toReader then s.(toReader := s.toReader.Put(bytes)) else s.(toWriter := s.toWriter.Put(bytes))
    case WriterSuffers(e) => s.(w := s.w.Step(c.msg, c.emulate, e))
    case ReaderSuffers(e) => s.(r := s.r.Step(e))
  }

  /** Nothing on the line, the writer about to start, the reader waiting; the
      writer takes the reader's port for the remote one. */
  ghost predicate Initial(c: Setup, s: State) {
    && c.Valid()
    && (exists xid: ubyte, lastXid: ubyte, remote: Address ::
          remote.port == c.readerAddr.port && s.w == StartWriter(c.msg, c.emulate, xid, lastXid, remote))
    && s.r.phase.AwaitFirst? && s.r.sent == []
    && s.toReader == Channel([], []) && s.toWriter == Channel([], [])
  }

  // ----- What is true of every run ------------------------------------------------

  predicate SafeState(c: Setup, s: State)
    requires c.Valid()
  {
    && InStep(c.readerAddr, s.toReader.All()) && InStep(c.writerAddr, s.toWriter.All())
    && Safe(c, s.Seen(c))
  }

  predicate LiveState(c: Setup, s: State)
    requires c.Valid()
  {
    SafeState(c, s) && Live(c, s.Seen(c))
  }

  lemma InitialIsLive(c: Setup, s: State)
    requires Initial(c, s)
    ensures c.Valid() && LiveState(c, s)
  {
    NothingLeft(c.readerAddr);
    NothingLeft(c.writerAddr);
    assert s.toReader.All() == [] && s.toWriter.All() == [];
    NoneLeft(s.w.xid);
    hide Work, InStep;
    assert SentOffsets([]) == [];
    CountBounds(|c.msg|, 0);
  }

  /** What the writer sends of its message. */
  lemma TransmitOnLine(c: Setup, s: State)
    requires c.Valid() && SafeState(c, s) && s.w.phase.Sending?
    ensures s.w.Valid(c.msg) && s.w.Step(c.msg, c.emulate, Sent(true)).sent != []
    ensures var w := s.w.Step(c.msg, c.emulate, Sent(true));
            var out := Work(c.readerAddr, Latest(c.writerAddr, w.sent));
            && InStep(c.readerAddr, Latest(c.writerAddr, w.sent)) && |Latest(c.writerAddr, w.sent)| <= 1040
            && out == if s.w.remote.port == c.readerAddr.port then [Item(c.writerAddr, s.w.xid, Piece(c.msg, s.w.phase.offset))] else []
  {
    hide Safe, Work, InStep, Wire, Piece;
    SafeIsValid(c, s.Seen(c));
    PacketWork(c.readerAddr, c.writerAddr, s.w.remote, s.w.xid, Piece(c.msg, s.w.phase.offset));
  }

  /** What the reader answers. */
  lemma AnswerOnLine(c: Setup, s: State, it: Item, r: Reader)
    requires c.Valid() && Answers(s.r, it, r) && |r.sent| > |s.r.sent|
    ensures var out := Work(c.writerAddr, Latest(c.readerAddr, r.sent));
            && InStep(c.writerAddr, Latest(c.readerAddr, r.sent)) && |Latest(c.readerAddr, r.sent)| == 16
            && out == if it.sender.port == c.writerAddr.port then [AnswerItem(c, r)] else []
  {
    hide Work, InStep, Wire;
    var t := r.sent[|r.sent| - 1];
    PacketWork(c.writerAddr, c.readerAddr, t.dest, t.xid, t.payload);
  }

  lemma TransmitKeeps(c: Setup, s: State, lost: bool)
    requires c.Valid() && SafeState(c, s) && s.w.phase.Sending?
    ensures SafeState(c, Next(c, s, Transmit(lost)))
    ensures LiveState(c, s) && !lost ==> LiveState(c, Next(c, s, Transmit(lost)))
  {
    hide Safe, Live, Work, InStep, Piece, Channel.All, Channel.Put, Latest, Writer.Step;
    var v := s.Seen(c);
    TransmitOnLine(c, s);
    var w := s.w.Step(c.msg, c.emulate, Sent(true));
    if lost {
      SafeTransmit(c, v, []);
      assert v.toReader + [] == v.toReader;
    } else {
      PutOnLine(c.readerAddr, s.toReader, Latest(c.writerAddr, w.sent));
      SafeTransmit(c, v, Work(c.readerAddr, Latest(c.writerAddr, w.sent)));
      if LiveState(c, s) {
        LiveRemote(c, v);
        LiveTransmit(c, v);
      }
    }
  }

  lemma LiveRemote(c: Setup, v: View)
    requires c.Valid() && Live(c, v)
    ensures Safe(c, v) && v.w.remote.port == c.readerAddr.port
    ensures forall it :: it in v.toReader && it.Kind() == DATA ==> it.sender == c.writerAddr
  {
    hide Safe, Queued, Steady, Acks, Offsets, SentOffsets;
    assert forall it :: it in v.toReader ==> FromWriter(c, v.w.xid, it);
  }

  lemma WriterHearsKeeps(c: Setup, s: State, room: nat)
    requires c.Valid() && SafeState(c, s) && Enabled(c, s, WriterHears(room))
    ensures SafeState(c, Next(c, s, WriterHears(room)))
    ensures LiveState(c, s) ==> LiveState(c, Next(c, s, WriterHears(room)))
  {
    hide Safe, Live, Work, InStep, Channel.All, Receive, Writer.Step, Heeded;
    var v := s.Seen(c);
    SafeIsValid(c, v);
    TakeOffLine(c.writerAddr, s.w.remote, s.toWriter);
    var (it, left) := Taken(c.writerAddr, s.w.remote, s.toWriter);
    SafeWriterHears(c, v, it, Work(c.writerAddr, left.All()), room);
    if LiveState(c, s) { LiveWriterHears(c, v, it, Work(c.writerAddr, left.All()), room); }
  }

  lemma ReaderHearsKeeps(c: Setup, s: State, room: nat, lost: bool)
    requires c.Valid() && SafeState(c, s) && Enabled(c, s, ReaderHears(room, lost))
    ensures SafeState(c, Next(c, s, ReaderHears(room, lost)))
    ensures LiveState(c, s) && !lost ==> LiveState(c, Next(c, s, ReaderHears(room, lost)))
  {
    hide Safe, Live, Work, InStep, Channel.All, Channel.Put, Channel.Weight, Receive, Reader.Step, Heeded, Latest, AnswerItem, Reader.Running;
    var v := s.Seen(c);
    SafeIsValid(c, v);
    TakeOffLine(c.readerAddr, s.r.remote, s.toReader);
    var (it, left) := Taken(c.readerAddr, s.r.remote, s.toReader);
    var rest := Work(c.readerAddr, left.All());
    var r := s.r.Step(Heeded(it, room));
    SafeReaderHears(c, v, it, rest, room, r, []);
    assert v.toWriter + [] == v.toWriter;
    if |r.sent| > |s.r.sent| {
      AnswerOnLine(c, s, it, r);
      PutOnLine(c.writerAddr, s.toWriter, Latest(c.readerAddr, r.sent));
      SafeReaderHears(c, v, it, rest, room, r, Work(c.writerAddr, Latest(c.readerAddr, r.sent)));
    }
    if LiveState(c, s) && !lost {
      LiveRemote(c, v);
      AnswerGoesBack(c, v, it, rest, room, r);
      LiveReaderHears(c, v, it, rest, room, r, if |r.sent| > |s.r.sent| then [AnswerItem(c, r)] else []);
    }
  }

  /** Only data is answered, to the writer that sent it. */
  lemma AnswerGoesBack(c: Setup, v: View, it: Item, left: seq<Item>, room: nat, r: Reader)
    requires c.Valid() && Safe(c, v) && v.r.Running() && v.toReader == [it] + left && Hearable(it.body, room)
    requires r == v.r.Step(Heeded(it, room)) && (it.Kind() == DATA ==> it.sender == c.writerAddr)
    ensures |r.sent| > |v.r.sent| ==> it.sender.port == c.writerAddr.port
  {
    hide Safe, Reader.Step, Item.Kind;
    SafeIsValid(c, v);
    if it.Kind() != DATA { ReaderHearsOther(c.msg, v.r, it, room); }
  }

  lemma DeliverKeeps(c: Setup, s: State, toReader: bool, n: nat)
    requires c.Valid() && SafeState(c, s) && Enabled(c, s, Deliver(toReader, n))
    ensures s.w.Valid(c.msg) && Next(c, s, Deliver(toReader, n)).Seen(c) == s.Seen(c)
    ensures SafeState(c, Next(c, s, Deliver(toReader, n)))
  {
    hide Safe, Work, InStep, Channel.All, Channel.Arrive;
    SafeIsValid(c, s.Seen(c));
    ArriveSame(if toReader then s.toReader else s.toWriter, n);
  }

  /** Bytes of others that do no harm: no packets for this end but tickles, and
      stray acknowledgements at the reader, NAKs from the reader's port at the writer. */
  predicate Harmless(c: Setup, toReader: bool, bytes: seq<ubyte>) {
    if toReader then forall it :: it in Work(c.readerAddr, bytes) ==> it.Kind() == TICKLE || it.Kind() == ACK
    else forall it :: it in Work(c.writerAddr, bytes) ==> Prompting(it) && it.sender.port == c.readerAddr.port
  }

  lemma LiveIntrude(c: Setup, v: View, toReader: bool, bytes: seq<ubyte>)
    requires c.Valid() && Live(c, v) && Intruding(c, v.w, toReader, bytes) && Harmless(c, toReader, bytes)
    ensures Live(c, if toReader then v.(toReader := v.toReader + Work(c.readerAddr, bytes))
                    else v.(toWriter := v.toWriter + Work(c.writerAddr, bytes)))
  {
    hide Safe, Queued, Steady, Acks, Offsets, SentOffsets, Work, InStep, OwnAck, Confirmed;
    var more := Work(if toReader then c.readerAddr else c.writerAddr, bytes);
    SafeIntrude(c, v, toReader, more);
    CountsConcat(v.toReader, more, v.w.xid);
    CountsConcat(v.toWriter, more, v.w.xid);
    if toReader {
      NoOffsets(more);
      assert Offsets(v.toReader) + [] == Offsets(v.toReader);
    } else {
      NoAcks(more, v.w.xid);
    }
  }

  lemma IntrudeKeeps(c: Setup, s: State, toReader: bool, bytes: seq<ubyte>)
    requires c.Valid() && SafeState(c, s) && Enabled(c, s, Intrude(toReader, bytes))
    ensures s.w.Valid(c.msg) && SafeState(c, Next(c, s, Intrude(toReader, bytes)))
    ensures LiveState(c, s) && Harmless(c, toReader, bytes) ==> LiveState(c, Next(c, s, Intrude(toReader, bytes)))
  {
    hide Safe, Live, Work, InStep, Channel.All, Channel.Put, Harmless, Acceptable;
    var v := s.Seen(c);
    SafeIsValid(c, v);
    var local := if toReader then c.readerAddr else c.writerAddr;
    PutOnLine(local, if toReader then s.toReader else s.toWriter, bytes);
    SafeIntrude(c, v, toReader, Work(local, bytes));
    if LiveState(c, s) && Harmless(c, toReader, bytes) { LiveIntrude(c, v, toReader, bytes); }
  }

  lemma SuffersKeeps(c: Setup, s: State, m: Move)
    requires c.Valid() && SafeState(c, s) && Enabled(c, s, m) && (m.WriterSuffers? || m.ReaderSuffers?)
    ensures SafeState(c, Next(c, s, m))
  {
    hide Safe, Work, InStep, Writer.Step, Reader.Step, Reader.Running;
    SafeIsValid(c, s.Seen(c));
    match m
    case WriterSuffers(e) => SafeWriterSuffers(c, s.Seen(c), e);
    case ReaderSuffers(e) => SafeReaderSuffers(c, s.Seen(c), e);
  }

  /** Nothing is lost, nobody waits in vain, and the bytes of others do no harm. */
  predicate Faultless(c: Setup, m: Move) {
    match m
    case Transmit(lost) => !lost
    case ReaderHears(_, lost) => !lost
    case Intrude(toReader, bytes) => Harmless(c, toReader, bytes)
    case WriterSuffers(_) => false
    case ReaderSuffers(_) => false
    case _ => true
  }

  lemma NextKeeps(c: Setup, s: State, m: Move)
    requires c.Valid() && SafeState(c, s) && Enabled(c, s, m)
    ensures s.w.Valid(c.msg) && SafeState(c, Next(c, s, m))
    ensures LiveState(c, s) && Faultless(c, m) ==> LiveState(c, Next(c, s, m))
  {
    SafeIsValid(c, s.Seen(c));
    hide Safe, Live, Enabled, Next, Harmless, InStep, Work;
    match m
    case Transmit(lost) => { WriterSends(c, s, m); TransmitKeeps(c, s, lost); }
    case WriterHears(room) => WriterHearsKeeps(c, s, room);
    case ReaderHears(room, lost) => ReaderHearsKeeps(c, s, room, lost);
    case Deliver(toReader, n) => DeliverKeeps(c, s, toReader, n);
    case Intrude(toReader, bytes) => IntrudeKeeps(c, s, toReader, bytes);
    case _ => SuffersKeeps(c, s, m);
  }

  lemma WriterSends(c: Setup, s: State, m: Move)
    requires m.Transmit? && Enabled(c, s, m)
    ensures s.w.phase.Sending?
  {
  }

  // ----- How much is left to do ---------------------------------------------------

  /** Fragments still to be sent or acknowledged. */
  function Turns(msg: seq<ubyte>, phase: WriterPhase): int {
    match phase
    case Sending(_, _) => 2 * (Count(|msg|) - Confirmed(msg, phase))
    case Waiting(_, _) => 2 * (Count(|msg|) - Confirmed(msg, phase)) - 1
    case _ => 0
  }

  /** Bounds the moves that the two ends and the line can still make. */
  function Potential(c: Setup, s: State): int {
    3000 * (Turns(c.msg, s.w.phase) + Prompts(s.Seen(c).toWriter)) + 50 * (Count(|c.msg|) - |s.r.sent|)
    + s.toReader.Weight() + s.toWriter.Weight()
  }

  predicate Own(m: Move) { m.Transmit? || m.WriterHears? || m.ReaderHears? || m.Deliver? }

  /** What others and timeouts add to it. */
  function Added(c: Setup, m: Move): nat {
    match m
    case Intrude(toReader, bytes) => 2 * |bytes| + if toReader then 0 else 3000 * Prompts(Work(c.writerAddr, bytes))
    case WriterSuffers(_) => 3000
    case _ => 0
  }

  lemma TurnsBounds(c: Setup, w: Writer)
    requires c.Valid() && w.Valid(c.msg)
    ensures Turns(c.msg, w.phase) >= if w.phase.Sending? then 2 else if w.phase.Waiting? then 1 else 0
  {
    if w.phase.Sending? || w.phase.Waiting? { CountBounds(|c.msg|, w.phase.offset / MAX_PACKET_LEN); }
  }

  lemma PotentialBounds(c: Setup, s: State)
    requires c.Valid() && SafeState(c, s)
    ensures Potential(c, s) >= 0
  {
    hide Work, InStep, Acks, Prompts, Channel.All, Turns;
    SafeIsValid(c, s.Seen(c));
    TurnsBounds(c, s.w);
  }

  lemma InitialPotential(c: Setup, s: State)
    requires Initial(c, s)
    ensures Potential(c, s) == 6050 * Count(|c.msg|)
  {
    NothingLeft(c.writerAddr);
    assert s.toWriter.All() == [];
    hide Work;
    assert Prompts([]) == 0;
  }

  lemma TransmitCosts(c: Setup, s: State, lost: bool)
    requires c.Valid() && SafeState(c, s) && s.w.phase.Sending?
    ensures Potential(c, Next(c, s, Transmit(lost))) < Potential(c, s)
  {
    hide Safe, Work, InStep, Channel.All, Channel.Put, Latest, Prompts, Piece, Acks;
    TransmitOnLine(c, s);
    PutOnLine(c.readerAddr, s.toReader, Latest(c.writerAddr, s.w.Step(c.msg, c.emulate, Sent(true)).sent));
  }

  lemma WriterHearsCosts(c: Setup, s: State, room: nat)
    requires c.Valid() && SafeState(c, s) && Enabled(c, s, WriterHears(room))
    ensures s.w.Valid(c.msg) && Potential(c, Next(c, s, WriterHears(room))) < Potential(c, s)
  {
    hide Safe, Work, InStep, Channel.All, Channel.Weight, Receive, Writer.Step, Heeded, Prompts, OwnAck, Prompting, Item.Kind;
    var v := s.Seen(c);
    SafeIsValid(c, v);
    TakeOffLine(c.writerAddr, s.w.remote, s.toWriter);
    var (it, left) := Taken(c.writerAddr, s.w.remote, s.toWriter);
    PromptsFirst(it, Work(c.writerAddr, left.All()));
    assert it in v.toWriter;
    NoDataToWriter(c, v, it);
    WriterHearsItem(c, s.w, it, room);
    TurnsBounds(c, s.w);
  }

  lemma PromptsFirst(it: Item, left: seq<Item>)
    ensures Prompts([it] + left) == (if Prompting(it) then 1 else 0) + Prompts(left)
  {
    assert ([it] + left)[1..] == left;
  }

  lemma AnswerIsNoPrompt(c: Setup, r: Reader, it: Item, r': Reader)
    requires Answers(r, it, r') && |r'.sent| > |r.sent|
    ensures Prompts([AnswerItem(c, r')]) == 0
  {
    CountsOne(AnswerItem(c, r'), 0);
  }

  lemma ReaderHearsCosts(c: Setup, s: State, room: nat, lost: bool)
    requires c.Valid() && SafeState(c, s) && Enabled(c, s, ReaderHears(room, lost))
    ensures s.w.Valid(c.msg) && Potential(c, Next(c, s, ReaderHears(room, lost))) < Potential(c, s)
  {
    hide Safe, Work, InStep, Channel.All, Channel.Put, Channel.Weight, Receive, Reader.Step, Heeded, Latest, AnswerItem,
         Prompts, Turns, Reader.Running, Item.Kind;
    var v := s.Seen(c);
    SafeIsValid(c, v);
    TakeOffLine(c.readerAddr, s.r.remote, s.toReader);
    var (it, left) := Taken(c.readerAddr, s.r.remote, s.toReader);
    var r := s.r.Step(Heeded(it, room));
    SafeReaderHears(c, v, it, Work(c.readerAddr, left.All()), room, r, []);
    if |r.sent| > |s.r.sent| {
      AnswerOnLine(c, s, it, r);
      PutOnLine(c.writerAddr, s.toWriter, Latest(c.readerAddr, r.sent));
      var out := Work(c.writerAddr, Latest(c.readerAddr, r.sent));
      CountsConcat(v.toWriter, out, 0);
      AnswerIsNoPrompt(c, s.r, it, r);
      NoPrompts();
    }
  }

  lemma NoPrompts()
    ensures Prompts([]) == 0
  {
  }

  lemma IntrudeCosts(c: Setup, s: State, toReader: bool, bytes: seq<ubyte>)
    requires c.Valid() && SafeState(c, s) && Enabled(c, s, Intrude(toReader, bytes))
    ensures s.w.Valid(c.msg)
    ensures Potential(c, Next(c, s, Intrude(toReader, bytes))) == Potential(c, s) + Added(c, Intrude(toReader, bytes))
  {
    hide Safe, Work, InStep, Channel.All, Channel.Put, Channel.Weight, Prompts, Turns, Acceptable;
    var v := s.Seen(c);
    SafeIsValid(c, v);
    var local := if toReader then c.readerAddr else c.writerAddr;
    PutOnLine(local, if toReader then s.toReader else s.toWriter, bytes);
    CountsConcat(v.toWriter, Work(local, bytes), 0);
  }

  lemma SuffersCosts(c: Setup, s: State, m: Move)
    requires c.Valid() && SafeState(c, s) && Enabled(c, s, m) && (m.WriterSuffers? || m.ReaderSuffers?)
    ensures s.w.Valid(c.msg) && Potential(c, Next(c, s, m)) <= Potential(c, s) + Added(c, m)
  {
    hide Safe, Work, InStep, Channel.All, Channel.Weight, Prompts;
    SafeIsValid(c, s.Seen(c));
    TurnsBounds(c, s.w);
  }

  lemma OwnMoveCosts(c: Setup, s: State, m: Move)
    requires c.Valid() && SafeState(c, s) && Enabled(c, s, m)
    ensures s.w.Valid(c.msg)
    ensures Potential(c, Next(c, s, m)) + (if Own(m) then 1 else 0) <= Potential(c, s) + Added(c, m)
  {
    SafeIsValid(c, s.Seen(c));
    match m
    case Transmit(lost) => TransmitCosts(c, s, lost);
    case WriterHears(room) => WriterHearsCosts(c, s, room);
    case ReaderHears(room, lost) => ReaderHearsCosts(c, s, room, lost);
    case Deliver(toReader, n) => {
      DeliverKeeps(c, s, toReader, n);
      ArriveSame(if toReader then s.toReader else s.toWriter, n);
    }
    case Intrude(toReader, bytes) => IntrudeCosts(c, s, toReader, bytes);
    case _ => SuffersCosts(c, s, m);
    hide *;
  }

  // ----- Whole runs ---------------------------------------------------------------

  /** `moves` lead from `s` to `t`. */
  ghost predicate Leads(c: Setup, s: State, moves: seq<Move>, t: State)
    requires c.Valid()
    decreases |moves|
  {
    if moves == [] then t == s
    else s.w.Valid(c.msg) && Enabled(c, s, moves[0]) && Leads(c, Next(c, s, moves[0]), moves[1..], t)
  }

  predicate AllFaultless(c: Setup, moves: seq<Move>) { forall m :: m in moves ==> Faultless(c, m) }

  function OwnMoves(moves: seq<Move>): nat {
    if moves == [] then 0 else (if Own(moves[0]) then 1 else 0) + OwnMoves(moves[1..])
  }

  function Adding(c: Setup, moves: seq<Move>): nat {
    if moves == [] then 0 else Added(c, moves[0]) + Adding(c, moves[1..])
  }

  lemma {:induction false} RunKeeps(c: Setup, s: State, moves: seq<Move>, t: State)
    requires c.Valid() && SafeState(c, s) && Leads(c, s, moves, t)
    ensures SafeState(c, t)
    ensures LiveState(c, s) && AllFaultless(c, moves) ==> LiveState(c, t)
    ensures OwnMoves(moves) + Potential(c, t) <= Potential(c, s) + Adding(c, moves)
    decreases |moves|
  {
    hide SafeState, LiveState, Enabled, Next, Potential, Added, Faultless;
    if moves != [] {
      NextKeeps(c, s, moves[0]);
      OwnMoveCosts(c, s, moves[0]);
      RunKeeps(c, Next(c, s, moves[0]), moves[1..], t);
    }
  }

  /** In every run, whatever is lost and whoever gives up: the reader delivers
      nothing but the message, and the writer does not return with success before
      the reader has delivered it. */
  lemma OnlyTheMessage(c: Setup, s: State, moves: seq<Move>, t: State)
    requires Initial(c, s) && Leads(c, s, moves, t)
    ensures !t.r.phase.Overrun?
    ensures t.r.phase.Delivered? ==> t.r.phase == Delivered(|c.msg|, c.msg)
    ensures t.w.phase.Written? ==> t.r.phase == Delivered(|c.msg|, c.msg)
    ensures OwnMoves(moves) <= 6050 * Count(|c.msg|) + Adding(c, moves)
  {
    hide Initial, Leads, Potential, Work, InStep, Safe, Live;
    InitialIsLive(c, s);
    InitialPotential(c, s);
    RunKeeps(c, s, moves, t);
    PotentialBounds(c, t);
    SafeOutcome(c, t.Seen(c));
  }

  /** One of the two ends or the line can go on, and lose nothing. */
  ghost predicate CanMove(c: Setup, s: State) {
    exists m :: Own(m) && Faultless(c, m) && Enabled(c, s, m)
  }

  lemma GoesOn(c: Setup, s: State, m: Move)
    requires Own(m) && Faultless(c, m) && Enabled(c, s, m)
    ensures CanMove(c, s)
  {
  }

  /** A sufficient input buffer. */
  const ROOM: nat := 0xffff

  lemma NotStuck(c: Setup, s: State)
    requires c.Valid() && LiveState(c, s) && !Spoilt(c.msg, s.w) && !s.w.phase.Written?
    ensures CanMove(c, s)
  {
    hide Safe, Live, Work, InStep, Receive, CanMove, Spoilt;
    var v := s.Seen(c);
    SafeIsValid(c, v);
    LiveOutcome(c, v);
    if s.w.phase.Sending? {
      GoesOn(c, s, Transmit(false));
    } else if s.toReader.flying != [] {
      GoesOn(c, s, Deliver(true, |s.toReader.flying|));
    } else if s.toWriter.flying != [] {
      GoesOn(c, s, Deliver(false, |s.toWriter.flying|));
    } else {
      assert s.toReader.All() == s.toReader.arrived && s.toWriter.All() == s.toWriter.arrived;
      SomethingToHear(c, v);
      if v.toWriter != [] {
        CanTake(c.writerAddr, s.w.remote, s.toWriter.arrived);
        GoesOn(c, s, WriterHears(ROOM));
      } else {
        CanTake(c.readerAddr, s.r.remote, s.toReader.arrived);
        GoesOn(c, s, ReaderHears(ROOM, false));
      }
    }
  }

  /** Both calls have returned with success, and the reader has the message. */
  predicate Finished(c: Setup, s: State)
    requires c.Valid()
  {
    s.w.phase.Written? && s.r.phase == Delivered(|c.msg|, c.msg)
  }

  /** In a run in which nothing is lost and nobody waits in vain, tickles or not:
      as long as no fragment but the last is sent twice neither end fails, and a
      further move is possible until both have returned; once one was, they never
      do. The moves are at most 6050 for each fragment, 3000 for each tickle, and
      two for each byte of others, so that such a run finishes, if it goes on,
      exactly when no tickle made the writer repeat a fragment other than the last. */
  lemma MessageArrives(c: Setup, s: State, moves: seq<Move>, t: State)
    requires Initial(c, s) && Leads(c, s, moves, t) && AllFaultless(c, moves)
    ensures !Spoilt(c.msg, t.w) ==> !t.w.phase.WriteFailed? && !t.r.phase.ReadFailed? && !t.r.phase.Overrun?
    ensures !Spoilt(c.msg, t.w) && !Finished(c, t) ==> CanMove(c, t)
    ensures Spoilt(c.msg, t.w) ==> !Finished(c, t) && !t.r.phase.Delivered?
    ensures t.r.phase.Delivered? ==> t.r.phase.data == c.msg
    ensures t.w.phase.Written? ==> Finished(c, t)
    ensures OwnMoves(moves) <= 6050 * Count(|c.msg|) + Adding(c, moves)
  {
    hide Initial, Leads, Potential, Work, InStep, Safe, Live, AllFaultless, CanMove, Spoilt;
    OnlyTheMessage(c, s, moves, t);
    InitialIsLive(c, s);
    RunKeeps(c, s, moves, t);
    LiveOutcome(c, t.Seen(c));
    if !Spoilt(c.msg, t.w) && !t.w.phase.Written? { NotStuck(c, t); }
  }

  /** So a message of one fragment arrives in each of these runs. */
  lemma ShortMessageArrives(c: Setup, s: State, moves: seq<Move>, t: State)
    requires Initial(c, s) && Leads(c, s, moves, t) && AllFaultless(c, moves) && |c.msg| <= MAX_PACKET_LEN
    ensures !t.w.phase.WriteFailed? && !t.r.phase.ReadFailed? && !t.r.phase.Overrun?
    ensures !Finished(c, t) ==> CanMove(c, t)
  {
    hide Initial, Leads, Work, InStep, Safe, Live, AllFaultless, CanMove, Spoilt;
    InitialIsLive(c, s);
    RunKeeps(c, s, moves, t);
    ShortIsNotSpoilt(c, t.Seen(c));
    MessageArrives(c, s, moves, t);
  }

  /** A message that is spoilt stays so, whatever happens. */
  lemma {:induction false} SpoiltForGood(c: Setup, s: State, moves: seq<Move>, t: State)
    requires c.Valid() && SafeState(c, s) && Leads(c, s, moves, t) && Spoilt(c.msg, s.w)
    ensures Spoilt(c.msg, t.w)
    decreases |moves|
  {
    hide SafeState, Enabled, Next, Spoilt;
    if moves != [] {
      NextKeeps(c, s, moves[0]);
      NextSpoilt(c, s, moves[0]);
      SpoiltForGood(c, Next(c, s, moves[0]), moves[1..], t);
    }
  }

  lemma NextSpoilt(c: Setup, s: State, m: Move)
    requires c.Valid() && s.w.Valid(c.msg) && Enabled(c, s, m) && Spoilt(c.msg, s.w)
    ensures Spoilt(c.msg, Next(c, s, m).w)
  {
    hide Spoilt, Writer.Step, Reader.Step, Receive, Work, InStep, Latest;
    match m
    case Transmit(_) => StaysSpoilt(c, s.w, Sent(true));
    case WriterHears(room) =>
      var (it, left) := Taken(c.writerAddr, s.w.remote, s.toWriter);
      StaysSpoilt(c, s.w, Heard(Heeded(it, room)));
    case WriterSuffers(e) => StaysSpoilt(c, s.w, e);
    case _ =>
  }

  // ----- Any longer message can be spoilt ---------------------------------------------

  lemma LeadsOn(c: Setup, s: State, m: Move, moves: seq<Move>, t: State)
    requires c.Valid() && s.w.Valid(c.msg) && Enabled(c, s, m) && Leads(c, Next(c, s, m), moves, t)
    ensures Leads(c, s, [m] + moves, t)
  {
    hide Enabled, Next;
    assert ([m] + moves)[1..] == moves;
  }

  /** A tickle from the reader's port. */
  function TickleBytes(c: Setup): seq<ubyte> {
    Wire(c.readerAddr, c.writerAddr, 0, [TICKLE, 0, 0, 0])
  }

  function TickleItem(c: Setup): Item { Item(c.readerAddr, 0, [TICKLE, 0, 0, 0]) }

  lemma TickleOnLine(c: Setup, w: Writer)
    requires c.Valid()
    ensures Work(c.writerAddr, TickleBytes(c)) == [TickleItem(c)] && |TickleBytes(c)| == 16
    ensures Harmless(c, false, TickleBytes(c)) && Intruding(c, w, false, TickleBytes(c))
    ensures Prompting(TickleItem(c))
  {
    hide Work, InStep, Wire;
    PacketWork(c.writerAddr, c.readerAddr, c.writerAddr, 0, [TICKLE, 0, 0, 0]);
    assert TickleItem(c).Kind() == TICKLE;
    assert forall it :: it in [TickleItem(c)] ==> it == TickleItem(c);
  }

  /** The end at `local` can take the first packet off a line on which all has arrived. */
  lemma TakesFirst(local: Address, seen: Address, bytes: seq<ubyte>, it: Item)
    requires Work(local, bytes) == [it] && InStep(local, bytes) && |it.body| <= ROOM
    ensures HearableAt(local, seen, Channel(bytes, []), ROOM)
    ensures Taken(local, seen, Channel(bytes, [])).0 == it
  {
    hide Work, InStep, Receive;
    var ch := Channel(bytes, []);
    assert ch.All() == bytes;
    CanTake(local, seen, bytes);
    TakeOffLine(local, seen, ch);
    assert ItemOf(Receive(local, seen, bytes)) == [it][0];
  }

  /** The writer, its fragment on the line, is tickled and sends it again. */
  lemma TickledRun(c: Setup, s: State) returns (moves: seq<Move>, t: State)
    requires c.Valid() && s.w.Valid(c.msg) && s.w.phase.Waiting? && s.toWriter == Channel([], [])
    ensures Leads(c, s, moves, t) && AllFaultless(c, moves)
    ensures exists dest: Address, xid: ubyte ::
              t.w.sent == s.w.sent + [Tx(dest, xid, Piece(c.msg, s.w.phase.offset))]
  {
    hide Work, InStep, Receive, Wire, Piece, Heeded, Latest, Harmless, Intruding, Prompting;
    var b, it, o := TickleBytes(c), TickleItem(c), s.w.phase.offset;
    TickleOnLine(c, s.w);
    assert InStep(c.writerAddr, b) by { IntrudesInStep(c, s.w, b); }
    TakesFirst(c.writerAddr, s.w.remote, b, it);
    WriterHearsItem(c, s.w, it, ROOM);
    var s1 := s.(toWriter := Channel([], b));
    var s2 := s.(toWriter := Channel(b, []));
    assert [] + b == b && b[..16] == b && b[16..] == [];
    var s3 := Next(c, s2, WriterHears(ROOM));
    t := Next(c, s3, Transmit(false));
    moves := [Intrude(false, b)] + ([Deliver(false, 16)] + ([WriterHears(ROOM)] + ([Transmit(false)] + [])));
    hide Leads, Writer.Step;
    NoMoves(c, t);
    LeadsOn(c, s3, Transmit(false), [], t);
    LeadsOn(c, s2, WriterHears(ROOM), [Transmit(false)] + [], t);
    LeadsOn(c, s1, Deliver(false, 16), [WriterHears(ROOM)] + ([Transmit(false)] + []), t);
    LeadsOn(c, s, Intrude(false, b), [Deliver(false, 16)] + ([WriterHears(ROOM)] + ([Transmit(false)] + [])), t);
    assert t.w == s3.w.Step(c.msg, c.emulate, Sent(true));
    SendsAt(c, s3.w);
  }

  lemma NoMoves(c: Setup, t: State)
    requires c.Valid()
    ensures Leads(c, t, [], t)
  {
  }

  lemma IntrudesInStep(c: Setup, w: Writer, bytes: seq<ubyte>)
    requires Intruding(c, w, false, bytes)
    ensures InStep(c.writerAddr, bytes)
  {
  }

  lemma SendsAt(c: Setup, w: Writer)
    requires c.Valid() && w.Valid(c.msg) && w.phase.Sending?
    ensures w.Step(c.msg, c.emulate, Sent(true)).phase == Waiting(w.phase.offset, w.phase.attempt)
    ensures w.Step(c.msg, c.emulate, Sent(true)).sent == w.sent + [Tx(w.remote, w.xid, Piece(c.msg, w.phase.offset))]
  {
  }

  /** One tickle is enough to spoil a message of more than one fragment. */
  lemma TickleSpoilsRun(c: Setup, s: State) returns (moves: seq<Move>, t: State)
    requires Initial(c, s) && |c.msg| > MAX_PACKET_LEN
    ensures Leads(c, s, moves, t) && AllFaultless(c, moves) && Spoilt(c.msg, t.w)
  {
    var s1 := Next(c, s, Transmit(false));
    SendsAt(c, s.w);
    assert s.w.sent == [] && s.w.phase == Sending(0, 0);
    assert Enabled(c, s, Transmit(false)) && Faultless(c, Transmit(false));
    hide Initial, Leads, Next, Enabled, Writer.Step, Latest, Piece, Faultless, Repeats;
    var rest;
    rest, t := TickledRun(c, s1);
    moves := [Transmit(false)] + rest;
    LeadsOn(c, s, Transmit(false), rest, t);
    var dest, xid :| t.w.sent == s1.w.sent + [Tx(dest, xid, Piece(c.msg, 0))];
    OneMoreSent(c.msg, [], s.w.remote, s.w.xid, 0);
    OneMoreSent(c.msg, s1.w.sent, dest, xid, 0);
    assert SentOffsets([]) == [];
    assert SentOffsets(t.w.sent) == [0, 0];
    TwiceIsRepeated(c.msg);
  }

  lemma TwiceIsRepeated(msg: seq<ubyte>)
    requires |msg| > MAX_PACKET_LEN
    ensures Repeats(msg, [0, 0])
  {
    assert Again(msg, [0, 0], 0);
  }

  /** So the messages that cannot be spoilt without losses and timeouts are exactly those of one fragment. */
  lemma NeverSpoiltIffShort(c: Setup, s: State)
    requires Initial(c, s)
    ensures (forall moves, t :: Leads(c, s, moves, t) && AllFaultless(c, moves) ==> !Spoilt(c.msg, t.w))
            <==> |c.msg| <= MAX_PACKET_LEN
  {
    assert c.Valid();
    hide Initial, Leads, AllFaultless, Spoilt, SafeState, Live;
    if |c.msg| <= MAX_PACKET_LEN {
      forall moves, t | Leads(c, s, moves, t) && AllFaultless(c, moves)
        ensures !Spoilt(c.msg, t.w)
      {
        InitialIsLive(c, s);
        RunKeeps(c, s, moves, t);
        ShortIsNotSpoilt(c, t.Seen(c));
      }
    } else {
      var moves, t := TickleSpoilsRun(c, s);
    }
  }

  // ----- Runs without tickles -------------------------------------------------------

  /** No packets for the writer but the reader's. */
  predicate Untickled(c: Setup, m: Move) {
    Faultless(c, m) && (m.Intrude? && !m.toReader ==> Work(c.writerAddr, m.bytes) == [])
  }

  lemma AnswerIsCalm(c: Setup, r: Reader, it: Item, r': Reader)
    requires Answers(r, it, r') && |r'.sent| > |r.sent|
    ensures !Prompting(AnswerItem(c, r'))
  {
  }

  lemma ReaderHearsCalm(c: Setup, s: State, room: nat)
    requires c.Valid() && LiveState(c, s) && Enabled(c, s, ReaderHears(room, false))
    requires Calm(c.msg, s.w, s.Seen(c).toWriter)
    ensures s.w.Valid(c.msg)
    ensures var t := Next(c, s, ReaderHears(room, false));
            Calm(c.msg, t.w, t.Seen(c).toWriter)
  {
    hide Safe, Live, Work, InStep, Channel.All, Channel.Put, Receive, Reader.Step, Heeded, Latest, AnswerItem, Prompting,
         Repeats, SentOffsets, Reader.Running, Item.Kind;
    var v := s.Seen(c);
    SafeIsValid(c, v);
    TakeOffLine(c.readerAddr, s.r.remote, s.toReader);
    var (it, left) := Taken(c.readerAddr, s.r.remote, s.toReader);
    var r := s.r.Step(Heeded(it, room));
    SafeReaderHears(c, v, it, Work(c.readerAddr, left.All()), room, r, []);
    if |r.sent| > |s.r.sent| {
      AnswerOnLine(c, s, it, r);
      PutOnLine(c.writerAddr, s.toWriter, Latest(c.readerAddr, r.sent));
      AnswerIsCalm(c, s.r, it, r);
    }
  }

  lemma NextCalm(c: Setup, s: State, m: Move)
    requires c.Valid() && LiveState(c, s) && Enabled(c, s, m) && Untickled(c, m)
    requires Calm(c.msg, s.w, s.Seen(c).toWriter)
    ensures s.w.Valid(c.msg)
    ensures var t := Next(c, s, m);
            Calm(c.msg, t.w, t.Seen(c).toWriter)
  {
    hide Safe, Live, Work, InStep, Channel.All, Channel.Put, Receive, Reader.Step, Writer.Step, Heeded, Latest, Calm,
         Harmless, Reader.Running;
    var v := s.Seen(c);
    SafeIsValid(c, v);
    match m
    case Transmit(_) => CalmTransmit(c, v);
    case WriterHears(room) => {
      TakeOffLine(c.writerAddr, s.w.remote, s.toWriter);
      var (it, left) := Taken(c.writerAddr, s.w.remote, s.toWriter);
      CalmWriterHears(c, v, it, Work(c.writerAddr, left.All()), room);
    }
    case ReaderHears(room, _) => ReaderHearsCalm(c, s, room);
    case Deliver(toReader, n) => DeliverKeeps(c, s, toReader, n);
    case Intrude(toReader, bytes) => {
      if !toReader {
        PutOnLine(c.writerAddr, s.toWriter, bytes);
        assert v.toWriter + [] == v.toWriter;
      }
    }
    case _ =>
  }

  lemma {:induction false} RunCalm(c: Setup, s: State, moves: seq<Move>, t: State)
    requires c.Valid() && LiveState(c, s) && Leads(c, s, moves, t) && forall m :: m in moves ==> Untickled(c, m)
    requires Calm(c.msg, s.w, s.Seen(c).toWriter)
    ensures AllFaultless(c, moves) && Calm(c.msg, t.w, t.Seen(c).toWriter)
    decreases |moves|
  {
    hide SafeState, Live, Enabled, Next, Faultless, Calm, Work;
    if moves != [] {
      NextKeeps(c, s, moves[0]);
      NextCalm(c, s, moves[0]);
      RunCalm(c, Next(c, s, moves[0]), moves[1..], t);
    }
  }

  lemma InitialIsCalm(c: Setup, s: State)
    requires Initial(c, s)
    ensures Calm(c.msg, s.w, s.Seen(c).toWriter)
  {
    NothingLeft(c.writerAddr);
    assert s.toWriter.All() == [];
    hide Work;
    assert SentOffsets([]) == [];
  }

  /** Without tickles every message arrives. */
  lemma UntickledMessageArrives(c: Setup, s: State, moves: seq<Move>, t: State)
    requires Initial(c, s) && Leads(c, s, moves, t) && forall m :: m in moves ==> Untickled(c, m)
    ensures !t.w.phase.WriteFailed? && !t.r.phase.ReadFailed? && !t.r.phase.Overrun?
    ensures t.r.phase.Delivered? ==> t.r.phase.data == c.msg
    ensures !Finished(c, t) ==> CanMove(c, t)
    ensures OwnMoves(moves) <= 6050 * Count(|c.msg|) + Adding(c, moves)
  {
    hide Initial, Leads, Work, InStep, Safe, Live, AllFaultless, CanMove, Untickled;
    InitialIsLive(c, s);
    InitialIsCalm(c, s);
    RunCalm(c, s, moves, t);
    MessageArrives(c, s, moves, t);
  }
}
