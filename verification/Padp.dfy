/** libpconn/padp.c: the Packet Assembly/Disassembly Protocol. A message is cut
    into fragments, each sent until its acknowledgement comes back. What either
    end does is given as a machine that takes one event of its environment at a
    time; the methods of `PadpIo` are proved to run these machines. */
module Padp {
  import opened Bytes
  import opened Connection
  import Slp

  const DATA: ubyte := 1
  const ACK: ubyte := 2
  const NAK: ubyte := 3
  const TICKLE: ubyte := 4
  const ABORT: ubyte := 8
  const FLAG_FIRST: ubyte := 0x80
  const FLAG_LAST: ubyte := 0x40
  const MAX_PACKET_LEN: uword := 1024
  const MAX_RETRIES: nat := 10

  datatype FragHeader = FragHeader(ftype: ubyte, flags: ubyte, size: uword)
  {
    predicate First() { flags >= FLAG_FIRST }

    predicate Last() { flags % FLAG_FIRST >= FLAG_LAST }

    /** Where in its message a fragment belongs. */
    function Offset(): nat { if First() then 0 else size }
  }

  /** A fragment as SLP carries it. */
  function Frag(h: FragHeader, data: seq<ubyte>): (f: seq<ubyte>)
    ensures |f| == 4 + |data|
  {
    [h.ftype, h.flags] + UwordBytes(h.size) + data
  }

  function HeaderOf(view: seq<ubyte>): FragHeader
    requires |view| >= 4
  {
    FragHeader(view[0], view[1], PeekUword(view, 2))
  }

  function AckFrag(size: uword): seq<ubyte> {
    Frag(FragHeader(ACK, 0, size), [])
  }

  /** The next transaction id, past the reserved 0xff and 0x00. */
  function BumpXid(xid: ubyte): ubyte {
    var next := (xid as int + 1) % 0x100;
    if next == 0xff || next == 0 then 1 else next
  }

  /** A packet handed to SLP, with the address and the transaction id it goes out under. */
  datatype Tx = Tx(dest: Address, xid: ubyte, payload: seq<ubyte>)

  /** What listening for a packet came to: nothing in time; end of file or a
      failed read; a packet, in an input buffer of which it fills the first
      `len` bytes and zeros the rest. */
  datatype Listen =
    | Late
    | Broken(why: PalmErrno, seen: Address)
    | Arrived(sender: Address, xid: ubyte, view: seq<ubyte>, len: uword)
  {
    predicate Valid() {
      && (Arrived? ==> |view| >= 2048 && len <= |view| && forall i :: len <= i < |view| ==> view[i] == 0)
      && (Broken? ==> why == System || why == Eof)
    }

    function Header(): FragHeader
      requires Arrived? && Valid()
    {
      HeaderOf(view)
    }

    /** `inlen - PADP_HEADER_LEN`, in a `uword`. */
    function DataLen(): uword
      requires Arrived?
    {
      (len as int - 4) % 0x1_0000
    }
  }

  // ----- The reader ---------------------------------------------------------

  /** `Delivered(len, data)`: a message of `len` bytes whose first bytes are
      `data`. `Overrun`: the code would read or copy past the end of a buffer. */
  datatype ReaderPhase =
    | AwaitFirst
    | Collecting(msgLen: uword, got: seq<ubyte>)
    | Delivered(len: uword, data: seq<ubyte>)
    | ReadFailed(why: PalmErrno)
    | Overrun

  datatype Reader = Reader(phase: ReaderPhase, xid: ubyte, lastXid: ubyte, remote: Address, sent: seq<Tx>)
  {
    predicate Running() { phase.AwaitFirst? || phase.Collecting? }

    /** `padp_ack`: the reply goes out under the id of the last packet received. */
    function Acked(size: uword): Reader {
      this.(xid := lastXid, sent := sent + [Tx(remote, lastXid, AckFrag(size))])
    }

    function Fail(why: PalmErrno): Reader { this.(phase := ReadFailed(why)) }

    /** The message so far, with the data of the arriving fragment copied to its end. */
    function Copied(msgLen: uword, got: seq<ubyte>, e: Listen): Reader
      requires e.Arrived? && e.Valid()
    {
      var n := e.DataLen();
      if |got| + n <= msgLen && 4 + n <= |e.view| then
        this.(phase := Collecting(msgLen, got + e.view[4..4 + n])).Acked(e.Header().size)
      else
        this.(phase := Overrun)
    }

    function FirstData(e: Listen): Reader
      requires e.Arrived? && e.Valid()
    {
      var h := e.Header();
      if h.First() && h.Last() then
        Acked(h.size).(phase := if 4 + h.size <= |e.view| then Delivered(h.size, e.view[4..4 + h.size]) else Overrun)
      else
        Copied(h.size, [], e)
    }

    function NextData(e: Listen): Reader
      requires e.Arrived? && e.Valid() && phase.Collecting?
    {
      var h := e.Header();
      if h.First() || h.size != |phase.got| then Fail(NoErr)
      else
        var r := Copied(phase.msgLen, phase.got, e);
        if h.Last() && r.phase.Collecting? then r.(phase := Delivered(r.phase.msgLen, r.phase.got)) else r
    }

    function Step(e: Listen): Reader
      requires e.Valid()
    {
      if !Running() then this else
      match e
      case Late => Fail(Timeout2)
      case Broken(why, seen) => this.(remote := seen).Fail(why)
      case Arrived(sender, x, view, len) =>
        var r := this.(remote := sender, lastXid := x);
        var t := e.Header().ftype;
        if t == DATA then (if phase.AwaitFirst? then r.FirstData(e) else r.NextData(e))
        else if t == ACK || t == TICKLE then r
        else if t == NAK && phase.AwaitFirst? then r
        else if t == ABORT then r.Fail(Abort)
        else r.Fail(NoErr)
    }

    /** Where the reader is after `events`. */
    function Run(events: seq<Listen>): Reader
      requires forall e :: e in events ==> e.Valid()
    {
      if events == [] then this else Run(events[..|events| - 1]).Step(events[|events| - 1])
    }
  }

  // ----- The writer ---------------------------------------------------------

  /** The fragment of `msg` at `offset`. */
  function PieceHeader(msg: seq<ubyte>, offset: nat): FragHeader
    requires offset < |msg| < 0x1_0000
  {
    FragHeader(DATA,
      (if offset == 0 then FLAG_FIRST else 0) + (if |msg| - offset <= MAX_PACKET_LEN then FLAG_LAST else 0),
      if offset == 0 then |msg| else offset)
  }

  function PieceData(msg: seq<ubyte>, offset: nat): (d: seq<ubyte>)
    requires offset < |msg| < 0x1_0000
    ensures |d| <= MAX_PACKET_LEN
  {
    if |msg| - offset <= MAX_PACKET_LEN then msg[offset..] else msg[offset..offset + MAX_PACKET_LEN]
  }

  function Piece(msg: seq<ubyte>, offset: nat): (f: seq<ubyte>)
    requires offset < |msg| < 0x1_0000
    ensures |f| <= 4 + MAX_PACKET_LEN
  {
    Frag(PieceHeader(msg, offset), PieceData(msg, offset))
  }

  /** The line was not ready to be written; a write went through or failed; no
      answer came in time; something was read. */
  datatype WriterEvent = NotReady | Sent(ok: bool) | NoAnswer | Heard(what: Listen)
  {
    predicate Valid() { Heard? ==> what.Valid() }
  }

  datatype WriterPhase =
    | Sending(offset: nat, attempt: nat)
    | Waiting(offset: nat, attempt: nat)
    | Hushing(offset: nat, attempt: nat, size: uword)
    | Written
    | WriteFailed(why: PalmErrno)

  datatype Writer = Writer(phase: WriterPhase, xid: ubyte, lastXid: ubyte, remote: Address, sent: seq<Tx>)
  {
    predicate Valid(msg: seq<ubyte>) {
      match phase
      case Sending(o, a) => o < |msg| && o % MAX_PACKET_LEN == 0 && a < MAX_RETRIES
      case Waiting(o, a) => o < |msg| && o % MAX_PACKET_LEN == 0 && a < MAX_RETRIES
      case Hushing(o, a, _) => o < |msg| && o % MAX_PACKET_LEN == 0 && a < MAX_RETRIES
      case _ => true
    }

    predicate Running() { !phase.Written? && !phase.WriteFailed? }

    function Fail(why: PalmErrno): Writer { this.(phase := WriteFailed(why)) }

    function Retry(offset: nat, attempt: nat): Writer {
      if attempt + 1 < MAX_RETRIES then this.(phase := Sending(offset, attempt + 1)) else Fail(Timeout)
    }

    function Advance(msg: seq<ubyte>, offset: nat): Writer {
      var next := offset + MAX_PACKET_LEN;
      this.(phase := if next < |msg| then Sending(next, 0) else Written)
    }

    /** The answer to a fragment. */
    function Answer(msg: seq<ubyte>, e: Listen): Writer
      requires phase.Waiting? && e.Valid()
    {
      var Waiting(o, a) := phase;
      match e
      case Late => Fail(Timeout2)
      case Broken(why, seen) => this.(remote := seen).Fail(why)
      case Arrived(sender, x, _, _) =>
        var w := this.(remote := sender, lastXid := x);
        var h := e.Header();
        if h.ftype == DATA then w.(phase := Hushing(o, a, h.size))
        else if h.ftype == ACK then (if x != xid then w.Fail(AckXid) else w.Advance(msg, o))
        else if h.ftype == TICKLE || h.ftype == NAK then w.(phase := Sending(o, a))
        else if h.ftype == ABORT then w.Fail(Abort)
        else w.Fail(NoErr)
    }

    function Step(msg: seq<ubyte>, emulate: bool, e: WriterEvent): (w: Writer)
      requires Valid(msg) && |msg| < 0x1_0000 && e.Valid()
      ensures w.Valid(msg)
    {
      match (phase, e)
      case (Sending(o, a), NotReady) => Retry(o, a)
      case (Sending(o, a), Sent(false)) => Fail(System)
      case (Sending(o, a), Sent(true)) =>
        this.(phase := Waiting(o, a), sent := sent + [Tx(remote, xid, Piece(msg, o))])
      case (Waiting(o, a), NoAnswer) => Retry(o, a)
      case (Waiting(o, a), Heard(what)) => Answer(msg, what)
      case (Hushing(o, a, size), Sent(false)) => this.(xid := lastXid).Fail(System)
      case (Hushing(o, a, size), Sent(true)) =>
        this.(phase := Sending(o, a), xid := if emulate then lastXid else BumpXid(lastXid),
              sent := sent + [Tx(remote, lastXid, AckFrag(size))])
      case _ => this
    }

    function Run(msg: seq<ubyte>, emulate: bool, events: seq<WriterEvent>): (w: Writer)
      requires Valid(msg) && |msg| < 0x1_0000 && forall e :: e in events ==> e.Valid()
      ensures w.Valid(msg)
    {
      if events == [] then this
      else Run(msg, emulate, events[..|events| - 1]).Step(msg, emulate, events[|events| - 1])
    }
  }

  function StartWriter(msg: seq<ubyte>, emulate: bool, xid: ubyte, lastXid: ubyte, remote: Address): (w: Writer)
    ensures w.Valid(msg)
  {
    Writer(if msg == [] then Written else Sending(0, 0), if emulate then lastXid else BumpXid(xid), lastXid, remote, [])
  }

  // ----- Between the machines and the line ----------------------------------

  /** The bytes on the line for the packets `sent`. */
  function OnTheLine(local: Address, sent: seq<Tx>): seq<ubyte>
    requires forall t :: t in sent ==> |t.payload| < 0x1_0000
  {
    if sent == [] then []
    else
      var t := sent[|sent| - 1];
      OnTheLine(local, sent[..|sent| - 1]) + Slp.Wire(local, t.dest, t.xid, t.payload)
  }

  /** The address last seen, after listening as in `events`. */
  function SeenAfter(seen: Address, events: seq<Listen>): Address {
    if events == [] then seen
    else
      match events[|events| - 1]
      case Late => SeenAfter(seen, events[..|events| - 1])
      case Broken(_, last) => last
      case Arrived(sender, _, _, _) => sender
  }

  /** What is left on the line. */
  function RestAfter(local: Address, seen: Address, s: seq<ubyte>, events: seq<Listen>): seq<ubyte> {
    if events == [] then s
    else
      var before := events[..|events| - 1];
      match events[|events| - 1]
      case Late => RestAfter(local, seen, s, before)
      case Broken(_, _) => []
      case Arrived(_, _, _, _) =>
        var g := Slp.Receive(local, SeenAfter(seen, before), RestAfter(local, seen, s, before));
        if g.Got? then g.rest else []
  }

  /** The packets of `events` are those that SLP finds, one after the other, in
      the bytes `s`, and the file ends where it does. */
  predicate HeardAll(local: Address, seen: Address, s: seq<ubyte>, events: seq<Listen>) {
    if events == [] then true
    else
      var before, e := events[..|events| - 1], events[|events| - 1];
      && HeardAll(local, seen, s, before)
      && (e.Arrived? ==>
            && e.len <= |e.view|
            && Slp.Receive(local, SeenAfter(seen, before), RestAfter(local, seen, s, before))
               == Slp.Got(e.sender, e.xid, e.view[..e.len], RestAfter(local, seen, s, events)))
      && (e.Broken? && e.why == Eof ==>
            Slp.Receive(local, SeenAfter(seen, before), RestAfter(local, seen, s, before)) == Slp.Starved(e.seen))
  }

  /** A wait in vain or a failed read. */
  function FaultOf(e: Listen): nat { if e.Late? || (e.Broken? && e.why != Eof) then 1 else 0 }

  function FaultsOf(events: seq<Listen>): nat {
    if events == [] then 0 else FaultsOf(events[..|events| - 1]) + FaultOf(events[|events| - 1])
  }

  /** The same for what a writer meets. */
  function Mishap(e: WriterEvent): nat {
    match e
    case NotReady => 1
    case Sent(ok) => if ok then 0 else 1
    case NoAnswer => 1
    case Heard(what) => FaultOf(what)
  }

  function Mishaps(events: seq<WriterEvent>): nat {
    if events == [] then 0 else Mishaps(events[..|events| - 1]) + Mishap(events[|events| - 1])
  }

  /** What the writer listened to. */
  function Listens(events: seq<WriterEvent>): seq<Listen> {
    if events == [] then []
    else
      var before := Listens(events[..|events| - 1]);
      match events[|events| - 1]
      case Heard(what) => before + [what]
      case _ => before
  }
}
