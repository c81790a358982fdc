/** The functions of libpconn/padp.c, over the buffers and the line of a
    `PConnection`, proved to run the machines of module `Padp`. */
module PadpIo {
  import opened Bytes
  import opened Connection
  import opened Padp
  import Slp

  /** `padp_tx_frag`. */
  method TxFrag(p: PConnection, header: FragHeader, data: seq<ubyte>) returns (err: int)
    requires p.Valid() && |data| <= MAX_PACKET_LEN
    modifies p`outbuf, p`outgoing, p`palmErrno, p`faults, p.outbuf
    ensures p.Valid() && (p.outbuf == old(p.outbuf) || fresh(p.outbuf))
    ensures err >= 0 ==> p.outgoing == old(p.outgoing) + Slp.Wire(p.localAddr, p.remoteAddr, p.xid, Frag(header, data))
    ensures err >= 0 ==> p.palmErrno == NoErr
    ensures err < 0 ==> p.palmErrno == System
    ensures p.faults == old(p.faults) + if err < 0 then 1 else 0
  {
    var outbuf := new ubyte[4 + MAX_PACKET_LEN];
    var w := PutUbyte(outbuf, 0, header.ftype);
    w := PutUbyte(outbuf, w, header.flags);
    w := PutUword(outbuf, w, header.size);
    w := PutBytes(outbuf, w, data);
    assert outbuf[..w] == Frag(header, data);
    err := Slp.SlpWrite(p, outbuf, 4 + |data|);
  }

  /** `padp_ack`. */
  method SendAck(p: PConnection, size: uword) returns (err: int)
    requires p.Valid()
    modifies p`xid, p`outbuf, p`outgoing, p`palmErrno, p`faults, p.outbuf
    ensures p.Valid() && (p.outbuf == old(p.outbuf) || fresh(p.outbuf))
    ensures p.xid == p.lastXid
    ensures err >= 0 ==> p.outgoing == old(p.outgoing) + Slp.Wire(p.localAddr, p.remoteAddr, p.lastXid, AckFrag(size))
    ensures err < 0 ==> p.palmErrno == System
    ensures p.faults == old(p.faults) + if err < 0 then 1 else 0
  {
    p.xid := p.lastXid;
    err := TxFrag(p, FragHeader(ACK, 0, size), []);
  }

  /** `padp_rx_frag`: the header of a packet in `inbuf`, and the length of what follows it there. */
  method RxFrag(p: PConnection) returns (err: int, header: FragHeader, len: uword, ghost e: Listen)
    requires p.Valid()
    modifies p`incoming, p`remoteAddr, p`inbuf, p`lastXid, p`palmErrno, p`faults, p`status, p.headerInbuf, p.inbuf, p.crcInbuf
    ensures p.Valid() && (p.inbuf == old(p.inbuf) || fresh(p.inbuf))
    ensures err == 1 || err < 0
    ensures e.Valid() && |p.incoming| <= |old(p.incoming)|
    ensures err == 1 ==> |p.incoming| < |old(p.incoming)|
    ensures err == 1 ==> e.Arrived? && e == Arrived(p.remoteAddr, p.lastXid, p.inbuf[..], e.len)
    ensures err == 1 ==> header == e.Header() && len == e.DataLen() && p.palmErrno == NoErr
    ensures err == 1 ==> Slp.Receive(p.localAddr, old(p.remoteAddr), old(p.incoming))
                         == Slp.Got(e.sender, e.xid, e.view[..e.len], p.incoming)
    ensures err < 0 ==> !e.Arrived? && p.lastXid == old(p.lastXid)
    ensures e.Late? ==> p.palmErrno == Timeout2 && p.remoteAddr == old(p.remoteAddr) && p.incoming == old(p.incoming)
    ensures e.Broken? ==> p.palmErrno == e.why && p.remoteAddr == e.seen
    ensures e.Broken? && e.why == Eof ==> Slp.Receive(p.localAddr, old(p.remoteAddr), old(p.incoming)) == Slp.Starved(e.seen)
    ensures p.faults == old(p.faults) + FaultOf(e)
  {
    header, len := FragHeader(0, 0, 0), 0;
    p.palmErrno := NoErr;
    var ready := p.TimedSelect();
    if !ready {
      e := Late;
      return -1, header, len, e;
    }
    var inlen;
    err, inlen := Slp.SlpRead(p);
    if err <= 0 {
      e := Broken(p.palmErrno, p.remoteAddr);
      return -1, header, len, e;
    }
    e := Arrived(p.remoteAddr, p.lastXid, p.inbuf[..], inlen);
    header := FragHeader(p.inbuf[0], p.inbuf[1], p.inbuf[2] as int * 0x100 + p.inbuf[3] as int);
    len := (inlen as int - 4) % 0x1_0000;
  }

  /** How a call found the line. */
  datatype Found = Found(incoming: seq<ubyte>, outgoing: seq<ubyte>, faults: nat)

  /** The fields of the connection that the reader's machine has as its state. */
  ghost function ReaderState(p: PConnection, phase: ReaderPhase, sent: seq<Tx>): Reader
    reads p
  {
    Reader(phase, p.xid, p.lastXid, p.remoteAddr, sent)
  }

  /** Copies a fragment to its place in the message buffer. */
  method CopyFragment(p: PConnection, at: nat, len: uword)
    requires p.Valid() && p.padpInbuf != null && at + len <= p.padpInbuf.Length && 4 + len <= p.inbuf.Length
    modifies p.padpInbuf
    ensures p.padpInbuf[..at + len] == old(p.padpInbuf[..at]) + p.inbuf[4..4 + len]
  {
    var end := PutBytes(p.padpInbuf, at, p.inbuf[4..4 + len]);
  }

  /** Makes the message buffer as big as the message, keeping what fits of the old one. */
  method ResizeMessage(p: PConnection, msgLen: uword)
    requires p.Valid()
    modifies p`padpInbuf
    ensures p.Valid() && p.padpInbuf != null && fresh(p.padpInbuf) && p.padpInbuf.Length == msgLen
  {
    var eptr := new ubyte[msgLen];
    if p.padpInbuf != null {
      var kept := if msgLen < p.padpInbuf.Length then msgLen as nat else p.padpInbuf.Length;
      var end := PutBytes(eptr, 0, p.padpInbuf[..kept]);
    }
    p.padpInbuf := eptr;
  }

  /** The reader, the connection and the line agree after `events`: the machine
      is in state `r`, having heard what the line brought and sent what is on it. */
  ghost predicate InAgreement(p: PConnection, start: Reader, was: Found,
                         events: seq<Listen>, r: Reader, lineOk: bool)
    reads p
  {
    && (forall e :: e in events ==> e.Valid())
    && start.Run(events) == r
    && r == ReaderState(p, r.phase, r.sent)
    && (forall t :: t in r.sent ==> |t.payload| < 0x1_0000)
    && (lineOk ==> p.outgoing == was.outgoing + OnTheLine(p.localAddr, r.sent))
    && (if lineOk then p.faults == was.faults + FaultsOf(events) else p.faults > was.faults + FaultsOf(events))
    && HeardAll(p.localAddr, start.remote, was.incoming, events)
  }

  /** ... and the line can be listened to again. */
  ghost predicate Listening(p: PConnection, start: Reader, was: Found, events: seq<Listen>)
    reads p
  {
    && p.remoteAddr == SeenAfter(start.remote, events)
    && p.incoming == RestAfter(p.localAddr, start.remote, was.incoming, events)
  }

  lemma OneMore(local: Address, start: Reader, was: Found, events: seq<Listen>, e: Listen)
    requires (forall x :: x in events ==> x.Valid()) && e.Valid()
    requires HeardAll(local, start.remote, was.incoming, events)
    requires e.Arrived? ==>
               var g := Slp.Receive(local, SeenAfter(start.remote, events), RestAfter(local, start.remote, was.incoming, events));
               g.Got? && g.remote == e.sender && g.xid == e.xid && g.body == e.view[..e.len]
    requires e.Broken? && e.why == Eof ==>
               Slp.Receive(local, SeenAfter(start.remote, events), RestAfter(local, start.remote, was.incoming, events))
               == Slp.Starved(e.seen)
    ensures FaultsOf(events + [e]) == FaultsOf(events) + FaultOf(e)
    ensures forall x :: x in events + [e] ==> x.Valid()
    ensures start.Run(events + [e]) == start.Run(events).Step(e)
    ensures HeardAll(local, start.remote, was.incoming, events + [e])
    ensures e.Arrived? ==> SeenAfter(start.remote, events + [e]) == e.sender
    ensures e.Arrived? ==> RestAfter(local, start.remote, was.incoming, events + [e])
                           == Slp.Receive(local, SeenAfter(start.remote, events), RestAfter(local, start.remote, was.incoming, events)).rest
  {
    assert (events + [e])[..|events|] == events;
  }

  lemma OneMoreSent(local: Address, sent: seq<Tx>, t: Tx)
    requires (forall x :: x in sent ==> |x.payload| < 0x1_0000) && |t.payload| < 0x1_0000
    ensures forall x :: x in sent + [t] ==> |x.payload| < 0x1_0000
    ensures OnTheLine(local, sent + [t]) == OnTheLine(local, sent) + Slp.Wire(local, t.dest, t.xid, t.payload)
  {
    hide Slp.Wire;
    assert (sent + [t])[..|sent|] == sent;
  }

  /** One fragment heard by a reader in phase `phase`: the machine takes the same step. */
  method Hear(p: PConnection, ghost start: Reader, ghost was: Found,
              ghost before: seq<Listen>, ghost r: Reader, ghost lineOk: bool)
    returns (err: int, header: FragHeader, len: uword, ghost e: Listen, ghost events: seq<Listen>)
    requires p.Valid() && InAgreement(p, start, was, before, r, lineOk) && Listening(p, start, was, before)
    modifies p`incoming, p`remoteAddr, p`inbuf, p`lastXid, p`palmErrno, p`faults, p`status, p.headerInbuf, p.inbuf, p.crcInbuf
    ensures p.Valid() && (p.inbuf == old(p.inbuf) || fresh(p.inbuf))
    ensures err == 1 || err == -1
    ensures |p.incoming| <= |old(p.incoming)| && events == before + [e] && e.Valid()
    ensures (forall x :: x in events ==> x.Valid()) && start.Run(events) == r.Step(e)
    ensures HeardAll(p.localAddr, start.remote, was.incoming, events)
    ensures err == 1 ==> |p.incoming| < |old(p.incoming)| && Listening(p, start, was, events)
    ensures err == 1 ==> e.Arrived? && e == Arrived(p.remoteAddr, p.lastXid, p.inbuf[..], e.len)
    ensures err == 1 ==> header == e.Header() && len == e.DataLen() && p.palmErrno == NoErr
    ensures err == -1 ==> !e.Arrived? && p.lastXid == old(p.lastXid)
    ensures p.faults == old(p.faults) + FaultOf(e) && FaultsOf(events) == FaultsOf(before) + FaultOf(e)
    ensures err == 1 ==> FaultOf(e) == 0
    ensures err == -1 && r.Running() ==> InAgreement(p, start, was, events, r.Step(e), lineOk)
    ensures err == -1 && r.Running() ==> r.Step(e).phase == ReadFailed(p.palmErrno)
  {
    err, header, len, e := RxFrag(p);
    events := before + [e];
    OneMore(p.localAddr, start, was, before, e);
    if err < 0 {
      err := -1;
    }
  }

  lemma AckFragLen(size: uword)
    ensures |AckFrag(size)| == 4
  {
  }

  /** `padp_ack` from the reader, whose machine records the same packet. */
  method Acknowledge(p: PConnection, size: uword, ghost was: Found, ghost r: Reader, ghost lineOk: bool)
    returns (ghost ok: bool)
    requires p.Valid() && r == ReaderState(p, r.phase, r.sent)
    requires forall t :: t in r.sent ==> |t.payload| < 0x1_0000
    requires lineOk ==> p.outgoing == was.outgoing + OnTheLine(p.localAddr, r.sent)
    modifies p`xid, p`outbuf, p`outgoing, p`palmErrno, p`faults, p.outbuf
    ensures p.Valid() && (p.outbuf == old(p.outbuf) || fresh(p.outbuf))
    ensures r.Acked(size) == ReaderState(p, r.phase, r.Acked(size).sent)
    ensures forall t :: t in r.Acked(size).sent ==> |t.payload| < 0x1_0000
    ensures ok ==> p.outgoing == was.outgoing + OnTheLine(p.localAddr, r.Acked(size).sent)
    ensures ok == (lineOk && p.faults == old(p.faults)) && old(p.faults) <= p.faults
  {
    hide OnTheLine, Frag, Slp.Wire;
    AckFragLen(size);
    hide AckFrag;
    OneMoreSent(p.localAddr, r.sent, Tx(p.remoteAddr, p.lastXid, AckFrag(size)));
    var err := SendAck(p, size);
    ok := lineOk && err >= 0;
  }

  /** The first loop of `padp_read`: 1 with a data fragment. */
  method ReadFirst(p: PConnection, ghost start: Reader, ghost was: Found)
    returns (err: int, header: FragHeader, len: uword, ghost e: Listen, ghost events: seq<Listen>)
    requires p.Valid() && start == ReaderState(p, AwaitFirst, []) && was == Found(p.incoming, p.outgoing, p.faults)
    modifies p`incoming, p`remoteAddr, p`inbuf, p`lastXid, p`palmErrno, p`faults, p`status, p.headerInbuf, p.inbuf, p.crcInbuf
    ensures p.Valid() && (p.inbuf == old(p.inbuf) || fresh(p.inbuf))
    ensures (err == 1 || err == -1) && |p.incoming| <= |old(p.incoming)|
    ensures (forall x :: x in events ==> x.Valid()) && HeardAll(p.localAddr, start.remote, was.incoming, events)
    ensures err == 1 ==> e.Arrived? && e == Arrived(p.remoteAddr, p.lastXid, p.inbuf[..], e.len) && e.Valid()
    ensures err == 1 ==> header == e.Header() && len == e.DataLen() && Listening(p, start, was, events)
    ensures err == 1 ==> start.Run(events) == ReaderState(p, AwaitFirst, []).FirstData(e)
    ensures err == 1 ==> p.faults == was.faults + FaultsOf(events)
    ensures err == -1 ==> InAgreement(p, start, was, events, ReaderState(p, ReadFailed(p.palmErrno), []), true)
  {
    hide HeardAll, SeenAfter, RestAfter, OnTheLine, FaultsOf, Reader.Run, Reader.FirstData;
    events := [];
    ghost var r := start;
    Nothing(p.localAddr, start, was);
    while true
      invariant p.Valid() && (p.inbuf == old(p.inbuf) || fresh(p.inbuf))
      invariant r == ReaderState(p, AwaitFirst, []) && p.outgoing == was.outgoing
      invariant InAgreement(p, start, was, events, r, true) && Listening(p, start, was, events)
      invariant |p.incoming| <= |old(p.incoming)|
      decreases |p.incoming|
    {
      err, header, len, e, events := Hear(p, start, was, events, r, true);
      if err < 0 {
        return;
      }
      r := ReaderState(p, AwaitFirst, []);
      if header.ftype == DATA {
        return;
      } else if header.ftype == ABORT {
        p.palmErrno := Abort;
        err := -1;
        return;
      } else if header.ftype != ACK && header.ftype != TICKLE && header.ftype != NAK {
        err := -1;
        return;
      }
    }
  }

  lemma Nothing(local: Address, start: Reader, was: Found)
    ensures start.Run([]) == start && HeardAll(local, start.remote, was.incoming, [])
    ensures SeenAfter(start.remote, []) == start.remote && RestAfter(local, start.remote, was.incoming, []) == was.incoming
    ensures OnTheLine(local, []) == [] && FaultsOf([]) == 0
  {
  }

  /** Takes in the data fragment just heard, and acknowledges it: 0 or 1 as it
      was the last one or not, -2 when it does not fit. `r` is the reader's
      machine before `e`, but for what `RxFrag` has noted of its sender. */
  method TakeFragment(p: PConnection, msgLen: uword, at: uword, header: FragHeader, len: uword,
                      ghost e: Listen, ghost r: Reader, ghost was: Found, ghost lineOk: bool)
    returns (err: int, ghost r': Reader, ghost ok: bool)
    requires p.Valid() && p.padpInbuf != null && p.padpInbuf.Length == msgLen && at <= msgLen
    requires r == ReaderState(p, Collecting(msgLen, p.padpInbuf[..at]), r.sent)
    requires forall t :: t in r.sent ==> |t.payload| < 0x1_0000
    requires lineOk ==> p.outgoing == was.outgoing + OnTheLine(p.localAddr, r.sent)
    requires e.Arrived? && e.Valid() && e.view == p.inbuf[..] && header == e.Header() && len == e.DataLen()
    modifies p`xid, p`outbuf, p`outgoing, p`palmErrno, p`faults, p.outbuf, p.padpInbuf
    ensures p.Valid() && (p.outbuf == old(p.outbuf) || fresh(p.outbuf))
    ensures err == -2 ==> r' == r.Copied(msgLen, old(p.padpInbuf[..at]), e) && r'.phase == Overrun && ok == lineOk
    ensures err == 1 ==> at + len <= msgLen && r'.phase == Collecting(msgLen, p.padpInbuf[..at + len])
    ensures err == 1 ==> r' == r.Copied(msgLen, old(p.padpInbuf[..at]), e)
    ensures err in {1, -2} && r' == ReaderState(p, r'.phase, r'.sent)
    ensures forall t :: t in r'.sent ==> |t.payload| < 0x1_0000
    ensures ok ==> p.outgoing == was.outgoing + OnTheLine(p.localAddr, r'.sent)
    ensures ok == (lineOk && p.faults == old(p.faults)) && old(p.faults) <= p.faults
  {
    hide OnTheLine, Frag, HeaderOf;
    ok, r' := lineOk, r.Copied(msgLen, p.padpInbuf[..at], e);
    if !(at + len <= msgLen && 4 + len <= p.inbuf.Length) {
      return -2, r', ok;
    }
    assert e.view[4..4 + len] == p.inbuf[4..4 + len];
    CopyFragment(p, at, len);
    ghost var copied := r.(phase := Collecting(msgLen, p.padpInbuf[..at + len]));
    ok := Acknowledge(p, header.size, was, copied, lineOk);
    err := 1;
  }

  lemma StepCollecting(r: Reader, e: Listen)
    requires r.phase.Collecting? && e.Valid()
    ensures e.Late? ==> r.Step(e) == r.Fail(Timeout2)
    ensures e.Arrived? ==>
              var r1 := r.(remote := e.sender, lastXid := e.xid);
              var h := e.Header();
              && (h.ftype == ACK || h.ftype == TICKLE ==> r.Step(e) == r1)
              && (h.ftype == ABORT ==> r.Step(e) == r1.Fail(Abort))
              && (h.ftype !in {ACK, TICKLE, ABORT} && (h.ftype != DATA || h.First() || h.size != |r.phase.got|) ==>
                    r.Step(e) == r1.Fail(NoErr))
              && (h.ftype == DATA && !h.First() && h.size == |r.phase.got| ==>
                    var c := r1.Copied(r.phase.msgLen, r.phase.got, e);
                    r.Step(e) == if h.Last() && c.phase.Collecting? then c.(phase := Delivered(c.phase.msgLen, c.phase.got)) else c)
  {
  }

  /** Hears the next packet while a message is being collected: 1 when it is the
      fragment wanted, 2 when it is to be ignored, -1 when it ends the reading. */
  method HearOther(p: PConnection, curOffset: uword, ghost start: Reader, ghost was: Found,
                   ghost before: seq<Listen>, ghost r: Reader, ghost lineOk: bool)
    returns (err: int, header: FragHeader, len: uword, ghost e: Listen, ghost events: seq<Listen>)
    requires p.Valid() && r.phase.Collecting? && |r.phase.got| == curOffset
    requires InAgreement(p, start, was, before, r, lineOk) && Listening(p, start, was, before)
    modifies p`incoming, p`remoteAddr, p`inbuf, p`lastXid, p`palmErrno, p`faults, p`status, p.headerInbuf, p.inbuf, p.crcInbuf
    ensures p.Valid() && (p.inbuf == old(p.inbuf) || fresh(p.inbuf))
    ensures err in {1, 2, -1} && |p.incoming| <= |old(p.incoming)| && (err > 0 ==> |p.incoming| < |old(p.incoming)|)
    ensures (forall x :: x in events ==> x.Valid()) && HeardAll(p.localAddr, start.remote, was.incoming, events)
    ensures err > 0 ==> Listening(p, start, was, events)
    ensures err == 1 ==> p.faults == old(p.faults) && FaultsOf(events) == FaultsOf(before)
    ensures err == -1 ==> InAgreement(p, start, was, events, r.(phase := ReadFailed(p.palmErrno), lastXid := p.lastXid, remote := p.remoteAddr), lineOk)
    ensures err == 2 ==> InAgreement(p, start, was, events, r.(lastXid := p.lastXid, remote := p.remoteAddr), lineOk)
    ensures err == 1 ==> e.Arrived? && e.Valid() && e.view == p.inbuf[..] && header == e.Header() && len == e.DataLen()
    ensures err == 1 ==>
              var c := ReaderState(p, r.phase, r.sent).Copied(r.phase.msgLen, r.phase.got, e);
              start.Run(events) == if header.Last() && c.phase.Collecting?
                                   then c.(phase := Delivered(c.phase.msgLen, c.phase.got)) else c
  {
    hide HeardAll, SeenAfter, RestAfter, OnTheLine, FaultsOf, Reader.Run, Reader.Step, Reader.Copied, HeaderOf;
    var ready := p.TimedSelect();
    if !ready {
      e, header, len := Late, FragHeader(0, 0, 0), 0;
      OneMore(p.localAddr, start, was, before, e);
      StepCollecting(r, e);
      events := before + [e];
      return -1, header, len, e, events;
    }
    err, header, len, e, events := Hear(p, start, was, before, r, lineOk);
    if err < 0 {
      StepBroken(r, e);
      return;
    }
    StepCollecting(r, e);
    if header.ftype == ACK || header.ftype == TICKLE {
      err := 2;
    } else if header.ftype == ABORT {
      p.palmErrno := Abort;
      err := -1;
    } else if header.ftype != DATA || header.First() || header.size != curOffset {
      err := -1;
    }
  }

  lemma StepBroken(r: Reader, e: Listen)
    requires r.Running() && e.Valid() && !e.Arrived?
    ensures e.Late? ==> r.Step(e) == r.Fail(Timeout2)
    ensures e.Broken? ==> r.Step(e) == r.(remote := e.seen).Fail(e.why)
  {
  }

  /** Fetches the fragments after the first; `r` is the reader's machine, which
      has `got` of the message in its buffer. */
  method ReadOthers(p: PConnection, msgLen: uword, have: uword, ghost start: Reader, ghost was: Found,
                    ghost before: seq<Listen>, ghost r0: Reader, ghost lineOk0: bool)
    returns (err: int, ghost events: seq<Listen>, ghost r: Reader, ghost lineOk: bool)
    requires p.Valid() && p.padpInbuf != null && p.padpInbuf.Length == msgLen && have <= msgLen
    requires r0.phase == Collecting(msgLen, p.padpInbuf[..have])
    requires InAgreement(p, start, was, before, r0, lineOk0) && Listening(p, start, was, before)
    modifies p`incoming, p`remoteAddr, p`inbuf, p`lastXid, p`palmErrno, p`faults, p`status, p.headerInbuf, p.inbuf, p.crcInbuf
    modifies p`xid, p`outbuf, p`outgoing, p.outbuf, p.padpInbuf
    ensures p.Valid() && |p.incoming| <= |old(p.incoming)| && p.padpInbuf == old(p.padpInbuf)
    ensures (p.outbuf == old(p.outbuf) || fresh(p.outbuf)) && (p.inbuf == old(p.inbuf) || fresh(p.inbuf))
    ensures err in {0, -1, -2} && InAgreement(p, start, was, events, r, lineOk)
    ensures err == 0 ==> r.phase.Delivered? && r.phase.len == msgLen && |r.phase.data| <= msgLen
                         && p.padpInbuf[..|r.phase.data|] == r.phase.data
    ensures err == -1 ==> r.phase == ReadFailed(p.palmErrno)
    ensures err == -2 ==> r.phase == Overrun
  {
    hide HeardAll, SeenAfter, RestAfter, OnTheLine, FaultsOf, Reader.Run, Reader.Step, Reader.Copied, HeaderOf;
    var curOffset: uword := have;
    var message: array<ubyte> := p.padpInbuf;
    events, r, lineOk := before, r0, lineOk0;
    while true
      invariant p.Valid() && (p.inbuf == old(p.inbuf) || fresh(p.inbuf)) && (p.outbuf == old(p.outbuf) || fresh(p.outbuf))
      invariant p.padpInbuf == message && curOffset <= message.Length == msgLen
      invariant r.phase == Collecting(msgLen, message[..curOffset])
      invariant InAgreement(p, start, was, events, r, lineOk) && Listening(p, start, was, events)
      invariant |p.incoming| <= |old(p.incoming)|
      decreases |p.incoming|
    {
      var header, len;
      ghost var e;
      err, header, len, e, events := HearOther(p, curOffset, start, was, events, r, lineOk);
      if err < 0 {
        r := r.(phase := ReadFailed(p.palmErrno), lastXid := p.lastXid, remote := p.remoteAddr);
        return;
      } else if err == 2 {
        r := r.(lastXid := p.lastXid, remote := p.remoteAddr);
        continue;
      }
      ghost var sent := r.sent;
      ghost var heard := ReaderState(p, Collecting(msgLen, p.padpInbuf[..curOffset]), sent);
      err, r, lineOk := TakeFragment(p, msgLen, curOffset, header, len, e, heard, was, lineOk);
      if err < 0 {
        return;
      }
      curOffset := curOffset + len;
      if header.Last() {
        err, r := 0, r.(phase := Delivered(msgLen, r.phase.got));
        return;
      }
    }
  }

  lemma FirstDataCases(r: Reader, e: Listen)
    requires e.Arrived? && e.Valid()
    ensures var h := e.Header();
            r.FirstData(e) == if h.First() && h.Last()
                              then r.Acked(h.size).(phase := if 4 + h.size <= |e.view|
                                                             then Delivered(h.size, e.view[4..4 + h.size]) else Overrun)
                              else r.(phase := Collecting(h.size, [])).Copied(h.size, [], e)
  {
  }

  /** A message of several fragments, of which the first is in the input buffer. */
  method ReadMany(p: PConnection, header: FragHeader, len: uword, ghost start: Reader, ghost was: Found, ghost before: seq<Listen>, ghost r0: Reader, ghost e: Listen)
    returns (err: int, ghost events: seq<Listen>, ghost r: Reader, ghost lineOk: bool)
    requires p.Valid() && p.outgoing == was.outgoing && r0 == ReaderState(p, AwaitFirst, [])
    requires e.Arrived? && e.Valid() && e.view == p.inbuf[..] && header == e.Header() && len == e.DataLen()
    requires (forall x :: x in before ==> x.Valid()) && HeardAll(p.localAddr, start.remote, was.incoming, before)
    requires Listening(p, start, was, before) && p.faults == was.faults + FaultsOf(before)
    requires start.Run(before) == r0.(phase := Collecting(header.size, [])).Copied(header.size, [], e)
    modifies p`incoming, p`remoteAddr, p`inbuf, p`lastXid, p`palmErrno, p`faults, p`status, p.headerInbuf, p.inbuf, p.crcInbuf
    modifies p`xid, p`outbuf, p`outgoing, p.outbuf, p`padpInbuf
    ensures p.Valid() && |p.incoming| <= |old(p.incoming)| && p.padpInbuf != null
    ensures (p.outbuf == old(p.outbuf) || fresh(p.outbuf)) && (p.inbuf == old(p.inbuf) || fresh(p.inbuf))
    ensures err in {0, -1, -2} && InAgreement(p, start, was, events, r, lineOk)
    ensures err == 0 ==> r.phase.Delivered? && r.phase.len == header.size == p.padpInbuf.Length
                         && |r.phase.data| <= header.size && p.padpInbuf[..|r.phase.data|] == r.phase.data
    ensures err == -1 ==> r.phase == ReadFailed(p.palmErrno)
    ensures err == -2 ==> r.phase == Overrun
  {
    hide HeardAll, SeenAfter, RestAfter, OnTheLine, FaultsOf, Reader.Run, Reader.Copied, HeaderOf;
    NothingSent(p.localAddr);
    ResizeMessage(p, header.size);
    assert p.padpInbuf[..0] == [];
    events, r := before, r0.(phase := Collecting(header.size, []));
    err, r, lineOk := TakeFragment(p, header.size, 0, header, len, e, r, was, true);
    if err < 0 {
      return;
    }
    err, events, r, lineOk := ReadOthers(p, header.size, len, start, was, events, r, lineOk);
  }

  lemma NothingSent(local: Address)
    ensures OnTheLine(local, []) == []
  {
  }

  /** `padp_read`: 0 with the message at `buf[from..from + len]`, -1 on failure;
      -2 stands for the behaviour that C leaves undefined. */
  method PadpRead(p: PConnection)
    returns (err: int, buf: array<ubyte>, from: nat, len: uword, ghost events: seq<Listen>, ghost r: Reader, ghost lineOk: bool)
    requires p.Valid()
    modifies p`incoming, p`outgoing, p`palmErrno, p`faults, p`status, p`remoteAddr, p`inbuf, p`outbuf, p`lastXid, p`xid, p`padpInbuf
    modifies p.headerInbuf, p.inbuf, p.crcInbuf, p.outbuf
    ensures p.Valid() && |p.incoming| <= |old(p.incoming)|
    ensures (p.outbuf == old(p.outbuf) || fresh(p.outbuf)) && (p.inbuf == old(p.inbuf) || fresh(p.inbuf))
    ensures InAgreement(p, old(ReaderState(p, AwaitFirst, [])), old(Found(p.incoming, p.outgoing, p.faults)), events, r, lineOk)
    ensures !r.Running()
    ensures match r.phase
            case Delivered(n, data) =>
              && err == 0 && len == n && from + n <= buf.Length && |data| <= n
              && buf[from..from + |data|] == data
            case ReadFailed(why) => err == -1 && p.palmErrno == why
            case _ => err == -2
  {
    hide HeardAll, SeenAfter, RestAfter, OnTheLine, FaultsOf, Reader.Run, Reader.Step, Reader.Copied, Reader.FirstData, HeaderOf;
    ghost var start, was := ReaderState(p, AwaitFirst, []), Found(p.incoming, p.outgoing, p.faults);
    Nothing(p.localAddr, start, was);
    buf, from, len, lineOk := p.inbuf, 4, 0, true;
    p.palmErrno := NoErr;
    var header, inlen;
    ghost var e;
    err, header, inlen, e, events := ReadFirst(p, start, was);
    if err < 0 {
      r := ReaderState(p, ReadFailed(p.palmErrno), []);
      return;
    }
    r := ReaderState(p, AwaitFirst, []);
    FirstDataCases(r, e);
    if header.First() && header.Last() {
      lineOk := Acknowledge(p, header.size, was, r, true);
      r := r.Acked(header.size);
      buf, from, len := p.inbuf, 4, header.size;
      if 4 + header.size <= p.inbuf.Length {
        err, r := 0, r.(phase := Delivered(header.size, p.inbuf[4..4 + header.size]));
      } else {
        err, r := -2, r.(phase := Overrun);
      }
      return;
    }
    err, events, r, lineOk := ReadMany(p, header, inlen, start, was, events, r, e);
    buf, from, len := p.padpInbuf, 0, header.size;
  }

  // ----- Writing ------------------------------------------------------------

  ghost function WriterState(p: PConnection, phase: WriterPhase, sent: seq<Tx>): Writer
    reads p`xid, p`lastXid, p`remoteAddr
  {
    Writer(phase, p.xid, p.lastXid, p.remoteAddr, sent)
  }

  /** What one call of `padp_write` is about. */
  datatype Job = Job(msg: seq<ubyte>, emulate: bool, start: Writer, in0: seq<ubyte>, out0: seq<ubyte>, faults0: nat)
  {
    ghost predicate Valid() { |msg| < 0x1_0000 && start.Valid(msg) }
  }

  /** The writer's machine, the connection and the line agree after `events`. */
  ghost predicate Writes(p: PConnection, job: Job, events: seq<WriterEvent>, w: Writer)
    requires job.Valid()
    reads p`xid, p`lastXid, p`remoteAddr, p`localAddr, p`faults
  {
    && (forall e :: e in events ==> e.Valid())
    && job.start.Run(job.msg, job.emulate, events) == w
    && w == WriterState(p, w.phase, w.sent)
    && (forall t :: t in w.sent ==> |t.payload| < 0x1_0000)
    && HeardAll(p.localAddr, job.start.remote, job.in0, Listens(events))
    && p.faults == job.faults0 + Mishaps(events)
  }

  /** ... nothing has gone wrong with the line ... */
  ghost predicate LineUp(p: PConnection, job: Job, events: seq<WriterEvent>, w: Writer)
    requires forall t :: t in w.sent ==> |t.payload| < 0x1_0000
    reads p`localAddr, p`outgoing, p`incoming, p`remoteAddr
  {
    && p.outgoing == job.out0 + OnTheLine(p.localAddr, w.sent)
    && p.remoteAddr == SeenAfter(job.start.remote, Listens(events))
    && p.incoming == RestAfter(p.localAddr, job.start.remote, job.in0, Listens(events))
  }

  lemma WriterOneMore(job: Job, local: Address, events: seq<WriterEvent>, e: WriterEvent)
    requires job.Valid() && (forall x :: x in events ==> x.Valid()) && e.Valid()
    requires HeardAll(local, job.start.remote, job.in0, Listens(events))
    requires e.Heard? && e.what.Arrived? ==>
               var g := Slp.Receive(local, SeenAfter(job.start.remote, Listens(events)),
                                    RestAfter(local, job.start.remote, job.in0, Listens(events)));
               g.Got? && g.remote == e.what.sender && g.xid == e.what.xid && g.body == e.what.view[..e.what.len]
    requires e.Heard? && e.what.Broken? && e.what.why == Eof ==>
               Slp.Receive(local, SeenAfter(job.start.remote, Listens(events)),
                           RestAfter(local, job.start.remote, job.in0, Listens(events))) == Slp.Starved(e.what.seen)
    ensures Mishaps(events + [e]) == Mishaps(events) + Mishap(e)
    ensures forall x :: x in events + [e] ==> x.Valid()
    ensures job.start.Run(job.msg, job.emulate, events + [e])
            == job.start.Run(job.msg, job.emulate, events).Step(job.msg, job.emulate, e)
    ensures HeardAll(local, job.start.remote, job.in0, Listens(events + [e]))
    ensures !e.Heard? ==> Listens(events + [e]) == Listens(events)
    ensures e.Heard? && e.what.Arrived? ==>
              && SeenAfter(job.start.remote, Listens(events + [e])) == e.what.sender
              && RestAfter(local, job.start.remote, job.in0, Listens(events + [e]))
                 == Slp.Receive(local, SeenAfter(job.start.remote, Listens(events)),
                                RestAfter(local, job.start.remote, job.in0, Listens(events))).rest
  {
    assert (events + [e])[..|events|] == events;
    if e.Heard? {
      var before := Listens(events);
      assert (before + [e.what])[..|before|] == before;
    }
  }

  lemma WriterSends(w: Writer, msg: seq<ubyte>, emulate: bool)
    requires w.phase.Sending? && w.Valid(msg) && |msg| < 0x1_0000
    ensures w.Step(msg, emulate, NotReady) == w.Retry(w.phase.offset, w.phase.attempt)
    ensures w.Step(msg, emulate, Sent(false)) == w.Fail(System)
    ensures w.Step(msg, emulate, Sent(true))
            == w.(phase := Waiting(w.phase.offset, w.phase.attempt),
                  sent := w.sent + [Tx(w.remote, w.xid, Piece(msg, w.phase.offset))])
  {
  }

  lemma WriterWaits(w: Writer, msg: seq<ubyte>, emulate: bool, l: Listen)
    requires w.phase.Waiting? && w.Valid(msg) && |msg| < 0x1_0000 && l.Valid()
    ensures w.Step(msg, emulate, NoAnswer) == w.Retry(w.phase.offset, w.phase.attempt)
    ensures w.Step(msg, emulate, Heard(l)) == w.Answer(msg, l)
  {
  }

  lemma WriterHushes(w: Writer, msg: seq<ubyte>, emulate: bool)
    requires w.phase.Hushing? && w.Valid(msg) && |msg| < 0x1_0000
    ensures w.Step(msg, emulate, Sent(false)) == w.(xid := w.lastXid).Fail(System)
    ensures w.Step(msg, emulate, Sent(true))
            == w.(phase := Sending(w.phase.offset, w.phase.attempt),
                  xid := if emulate then w.lastXid else BumpXid(w.lastXid),
                  sent := w.sent + [Tx(w.remote, w.lastXid, AckFrag(w.phase.size))])
  {
  }

  /** Sends one fragment: 1 once it is on the line, 3 when the line was not ready, -1 on failure. */
  method SendFragment(p: PConnection, header: FragHeader, data: seq<ubyte>,
                      ghost job: Job, ghost before: seq<WriterEvent>, ghost w0: Writer)
    returns (rc: int, ghost events: seq<WriterEvent>, ghost w: Writer)
    requires p.Valid() && job.Valid() && Writes(p, job, before, w0) && LineUp(p, job, before, w0)
    requires w0.phase.Sending? && w0.Valid(job.msg)
    requires header == PieceHeader(job.msg, w0.phase.offset) && data == PieceData(job.msg, w0.phase.offset)
    modifies p`palmErrno, p`faults, p`status, p`outbuf, p`outgoing, p.outbuf
    ensures p.Valid() && (p.outbuf == old(p.outbuf) || fresh(p.outbuf))
    ensures rc in {1, 3, -1} && Writes(p, job, events, w)
    ensures rc == -1 ==> w.phase == WriteFailed(p.palmErrno)
    ensures rc > 0 ==> LineUp(p, job, events, w)
    ensures rc == 3 ==> w == w0.Retry(w0.phase.offset, w0.phase.attempt)
    ensures rc == 1 ==> w.phase == Waiting(w0.phase.offset, w0.phase.attempt)
  {
    hide HeardAll, SeenAfter, RestAfter, OnTheLine, Mishaps, Writer.Run, Writer.Step, Listens, Slp.Wire, Frag, PieceHeader, PieceData;
    WriterSends(w0, job.msg, job.emulate);
    var ready := p.TimedSelect();
    if !ready {
      WriterOneMore(job, p.localAddr, before, NotReady);
      return 3, before + [NotReady], w0.Retry(w0.phase.offset, w0.phase.attempt);
    }
    var err := TxFrag(p, header, data);
    WriterOneMore(job, p.localAddr, before, Sent(err >= 0));
    events := before + [Sent(err >= 0)];
    if err < 0 {
      return -1, events, w0.Fail(System);
    }
    OneMoreSent(p.localAddr, w0.sent, Tx(w0.remote, w0.xid, Piece(job.msg, w0.phase.offset)));
    rc, w := 1, w0.Step(job.msg, job.emulate, Sent(true));
  }

  /** Sends an ACK to an unexpected data packet, to shut the Palm up. */
  method Hush(p: PConnection, size: uword, ghost job: Job, ghost before: seq<WriterEvent>, ghost w0: Writer)
    returns (rc: int, ghost events: seq<WriterEvent>, ghost w: Writer)
    requires p.Valid() && job.Valid() && job.emulate == p.emulatePalm
    requires Writes(p, job, before, w0) && LineUp(p, job, before, w0)
    requires w0.phase.Hushing? && w0.phase.size == size && w0.Valid(job.msg)
    modifies p`palmErrno, p`faults, p`xid, p`outbuf, p`outgoing, p.outbuf
    ensures p.Valid() && (p.outbuf == old(p.outbuf) || fresh(p.outbuf))
    ensures rc in {2, -1} && Writes(p, job, events, w)
    ensures rc == -1 ==> w.phase == WriteFailed(p.palmErrno)
    ensures rc == 2 ==> LineUp(p, job, events, w) && w.phase == Sending(w0.phase.offset, w0.phase.attempt)
  {
    hide HeardAll, SeenAfter, RestAfter, OnTheLine, Mishaps, Writer.Run, Writer.Step, Listens, Slp.Wire, Frag;
    WriterHushes(w0, job.msg, job.emulate);
    AckFragLen(size);
    hide AckFrag;
    OneMoreSent(p.localAddr, w0.sent, Tx(w0.remote, w0.lastXid, AckFrag(size)));
    var err := SendAck(p, size);
    WriterOneMore(job, p.localAddr, before, Sent(err >= 0));
    events := before + [Sent(err >= 0)];
    w := w0.Step(job.msg, job.emulate, Sent(err >= 0));
    if err < 0 {
      return -1, events, w;
    }
    if !p.emulatePalm {
      p.xid := BumpXid(p.xid);
    }
    rc := 2;
  }

  /** What the writer's machine makes of each kind of answer. */
  lemma AnswerCases(w: Writer, msg: seq<ubyte>, l: Listen)
    requires w.phase.Waiting? && l.Valid()
    ensures w.Answer(msg, l).sent == w.sent && w.Answer(msg, l).xid == w.xid
    ensures l.Late? ==> w.Answer(msg, l) == w.Fail(Timeout2)
    ensures l.Broken? ==> w.Answer(msg, l) == w.(remote := l.seen, phase := WriteFailed(l.why))
    ensures l.Arrived? ==>
              var a := w.Answer(msg, l);
              var h := l.Header();
              && a.remote == l.sender && a.lastXid == l.xid
              && a.phase == if h.ftype == DATA then Hushing(w.phase.offset, w.phase.attempt, h.size)
                            else if h.ftype == ACK then
                              (if l.xid != w.xid then WriteFailed(AckXid) else w.Advance(msg, w.phase.offset).phase)
                            else if h.ftype == TICKLE || h.ftype == NAK then Sending(w.phase.offset, w.phase.attempt)
                            else WriteFailed(if h.ftype == ABORT then Abort else NoErr)
  {
    hide HeaderOf;
  }

  /** Reads the answer to a fragment, if one comes. */
  method HearAnswer(p: PConnection, ghost job: Job, ghost before: seq<WriterEvent>, ghost w0: Writer)
    returns (err: int, header: FragHeader, ghost l: Listen, ghost events: seq<WriterEvent>, ghost w: Writer)
    requires p.Valid() && job.Valid() && w0.phase.Waiting? && w0.Valid(job.msg)
    requires Writes(p, job, before, w0) && LineUp(p, job, before, w0)
    modifies p`incoming, p`remoteAddr, p`inbuf, p`lastXid, p`palmErrno, p`faults, p`status, p.headerInbuf, p.inbuf, p.crcInbuf
    ensures p.Valid() && (p.inbuf == old(p.inbuf) || fresh(p.inbuf))
    ensures |p.incoming| <= |old(p.incoming)| && (err >= 0 ==> |p.incoming| < |old(p.incoming)|)
    ensures l.Valid() && w == w0.Answer(job.msg, l) && w.Valid(job.msg) && Writes(p, job, events, w)
    ensures if err < 0 then w.phase == WriteFailed(p.palmErrno) else l.Arrived? && LineUp(p, job, events, w)
    ensures err >= 0 ==> header == l.Header() && l.xid == p.lastXid && p.palmErrno == NoErr
  {
    hide HeardAll, SeenAfter, RestAfter, OnTheLine, Writer.Run, Writer.Step, Writer.Answer, Listens, HeaderOf;
    var len;
    err, header, len, l := RxFrag(p);
    events := before + [Heard(l)];
    WriterOneMore(job, p.localAddr, before, Heard(l));
    WriterWaits(w0, job.msg, job.emulate, l);
    w := w0.Step(job.msg, job.emulate, Heard(l));
    AnswerCases(w0, job.msg, l);
  }

  /** Waits for the answer to a fragment: 1 when it is acknowledged, 2 when the
      fragment is to be sent again at once, 3 when nothing came, -1 on failure. */
  method AwaitAck(p: PConnection, ghost job: Job, ghost before: seq<WriterEvent>, ghost w0: Writer)
    returns (rc: int, ghost events: seq<WriterEvent>, ghost w: Writer)
    requires p.Valid() && job.Valid() && job.emulate == p.emulatePalm
    requires Writes(p, job, before, w0) && LineUp(p, job, before, w0)
    requires w0.phase.Waiting? && w0.Valid(job.msg)
    modifies p`incoming, p`remoteAddr, p`inbuf, p`lastXid, p`palmErrno, p`faults, p`status, p.headerInbuf, p.inbuf, p.crcInbuf
    modifies p`xid, p`outbuf, p`outgoing, p.outbuf
    ensures p.Valid() && (p.outbuf == old(p.outbuf) || fresh(p.outbuf)) && (p.inbuf == old(p.inbuf) || fresh(p.inbuf))
    ensures |p.incoming| <= |old(p.incoming)| && (rc == 2 ==> |p.incoming| < |old(p.incoming)|)
    ensures rc in {1, 2, 3, -1} && Writes(p, job, events, w)
    ensures rc == -1 ==> w.phase == WriteFailed(p.palmErrno)
    ensures rc > 0 ==> LineUp(p, job, events, w)
    ensures rc == 1 ==> w.phase == w0.Advance(job.msg, w0.phase.offset).phase
    ensures rc == 2 ==> w.phase == Sending(w0.phase.offset, w0.phase.attempt)
    ensures rc == 3 ==> w == w0.Retry(w0.phase.offset, w0.phase.attempt)
  {
    hide HeardAll, SeenAfter, RestAfter, OnTheLine, Mishaps, Writer.Run, Writer.Step, Listens, Slp.Wire, HeaderOf, Writer.Answer;
    var ready := p.TimedSelect();
    if !ready {
      WriterOneMore(job, p.localAddr, before, NoAnswer);
      WriterWaits(w0, job.msg, job.emulate, Late);
      return 3, before + [NoAnswer], w0.Retry(w0.phase.offset, w0.phase.attempt);
    }
    assert w0.xid == p.xid;
    hide LineUp, Writes;
    var err, header;
    ghost var l;
    err, header, l, events, w := HearAnswer(p, job, before, w0);
    if err < 0 {
      return -1, events, w;
    }
    AnswerCases(w0, job.msg, l);
    if header.ftype == DATA {
      rc, events, w := Hush(p, header.size, job, events, w);
    } else if header.ftype == ACK {
      if p.lastXid != p.xid {
        p.palmErrno := AckXid;
        return -1, events, w;
      }
      rc := 1;
    } else if header.ftype == TICKLE || header.ftype == NAK {
      rc := 2;
    } else if header.ftype == ABORT {
      p.palmErrno := Abort;
      rc := -1;
    } else {
      rc := -1;
    }
  }

  /** `padp_write`: 0 when every fragment of `buf[..len]` has been acknowledged, -1 on failure. */
  method PadpWrite(p: PConnection, buf: array<ubyte>, len: uword)
    returns (err: int, ghost job: Job, ghost events: seq<WriterEvent>, ghost w: Writer)
    requires p.Valid() && len <= buf.Length
    requires buf != p.headerInbuf && buf != p.inbuf && buf != p.crcInbuf && buf != p.outbuf
    modifies p`incoming, p`outgoing, p`palmErrno, p`faults, p`status, p`remoteAddr, p`inbuf, p`outbuf, p`lastXid, p`xid, p`padpInbuf
    modifies p.headerInbuf, p.inbuf, p.crcInbuf, p.outbuf
    ensures p.Valid() && |p.incoming| <= |old(p.incoming)|
    ensures (p.outbuf == old(p.outbuf) || fresh(p.outbuf)) && (p.inbuf == old(p.inbuf) || fresh(p.inbuf))
    ensures job == Job(buf[..len], p.emulatePalm,
                       StartWriter(buf[..len], p.emulatePalm, old(p.xid), old(p.lastXid), old(p.remoteAddr)),
                       old(p.incoming), old(p.outgoing), old(p.faults))
    ensures job.Valid() && Writes(p, job, events, w)
    ensures err == 0 ==> w.phase == Written && LineUp(p, job, events, w)
    ensures err != 0 ==> err == -1 && w.phase == WriteFailed(p.palmErrno)
  {
    hide HeardAll, SeenAfter, RestAfter, OnTheLine, Mishaps, Writer.Run, Writer.Step, Listens, PieceData, PieceHeader;
    ghost var msg := buf[..len];
    job := Job(msg, p.emulatePalm, StartWriter(msg, p.emulatePalm, p.xid, p.lastXid, p.remoteAddr), p.incoming, p.outgoing,
               p.faults);
    p.palmErrno := NoErr;
    if p.emulatePalm {
      p.xid := p.lastXid;
    } else {
      p.xid := BumpXid(p.xid);
    }
    events, w := [], job.start;
    NothingWritten(p.localAddr, job);
    assert Writes(p, job, events, w) && LineUp(p, job, events, w);
    hide Writes, LineUp;
    var offset: nat := 0;
    while offset < len
      invariant p.Valid() && p.localAddr == old(p.localAddr) && |p.incoming| <= |old(p.incoming)| && buf[..len] == msg
      invariant (p.outbuf == old(p.outbuf) || fresh(p.outbuf)) && (p.inbuf == old(p.inbuf) || fresh(p.inbuf))
      invariant Writes(p, job, events, w) && LineUp(p, job, events, w) && w.Valid(msg)
      invariant w.phase == if offset < len then Sending(offset, 0) else Written
    {
      var flags := (if offset == 0 then FLAG_FIRST else 0) + (if len - offset <= MAX_PACKET_LEN then FLAG_LAST else 0);
      var fragLen := if len - offset <= MAX_PACKET_LEN then len - offset else MAX_PACKET_LEN;
      var header := FragHeader(DATA, flags, if offset == 0 then len else offset);
      var data := buf[offset..offset + fragLen];
      SliceOfFront(buf[..], len, offset, offset + fragLen);
      PieceOf(msg, offset);
      err, events, w := WriteFragment(p, offset, header, data, job, events, w);
      if err < 0 {
        return;
      }
      offset := offset + MAX_PACKET_LEN;
    }
    err := 0;
  }

  lemma SliceOfFront(s: seq<ubyte>, n: nat, i: nat, j: nat)
    requires i <= j <= n <= |s|
    ensures s[i..j] == s[..n][i..j]
  {
  }

  /** The fragment at `offset`, from what the loop keeps. */
  lemma PieceOf(msg: seq<ubyte>, offset: nat)
    requires offset < |msg| < 0x1_0000
    ensures var n := if |msg| - offset <= MAX_PACKET_LEN then |msg| - offset else MAX_PACKET_LEN;
            msg[offset..offset + n] == PieceData(msg, offset)
    ensures var flags := (if offset == 0 then FLAG_FIRST else 0) + (if |msg| - offset <= MAX_PACKET_LEN then FLAG_LAST else 0);
            FragHeader(DATA, flags, if offset == 0 then |msg| else offset) == PieceHeader(msg, offset)
  {
  }

  /** The attempts at one fragment. */
  method WriteFragment(p: PConnection, offset: nat, header: FragHeader, data: seq<ubyte>,
                       ghost job: Job, ghost before: seq<WriterEvent>, ghost w0: Writer)
    returns (err: int, ghost events: seq<WriterEvent>, ghost w: Writer)
    requires p.Valid() && job.Valid() && job.emulate == p.emulatePalm
    requires Writes(p, job, before, w0) && LineUp(p, job, before, w0)
    requires w0.phase == Sending(offset, 0) && w0.Valid(job.msg)
    requires header == PieceHeader(job.msg, offset) && data == PieceData(job.msg, offset)
    modifies p`incoming, p`remoteAddr, p`inbuf, p`lastXid, p`palmErrno, p`faults, p`status, p.headerInbuf, p.inbuf, p.crcInbuf
    modifies p`xid, p`outbuf, p`outgoing, p.outbuf
    ensures p.Valid() && (p.outbuf == old(p.outbuf) || fresh(p.outbuf)) && (p.inbuf == old(p.inbuf) || fresh(p.inbuf))
    ensures |p.incoming| <= |old(p.incoming)|
    ensures (err == 0 || err == -1) && Writes(p, job, events, w)
    ensures err == -1 ==> w.phase == WriteFailed(p.palmErrno)
    ensures err == 0 ==> LineUp(p, job, events, w) && w.phase == w0.Advance(job.msg, offset).phase
  {
    hide HeardAll, SeenAfter, RestAfter, OnTheLine, Mishaps, Writer.Run, Writer.Step, Listens, PieceHeader, PieceData;
    var attempt := 0;
    events, w := before, w0;
    while attempt < MAX_RETRIES
      invariant p.Valid() && |p.incoming| <= |old(p.incoming)| && attempt <= MAX_RETRIES
      invariant (p.outbuf == old(p.outbuf) || fresh(p.outbuf)) && (p.inbuf == old(p.inbuf) || fresh(p.inbuf))
      invariant Writes(p, job, events, w) && LineUp(p, job, events, w) && w.Valid(job.msg)
      invariant w.phase == if attempt < MAX_RETRIES then Sending(offset, attempt) else WriteFailed(Timeout)
      decreases |p.incoming|, MAX_RETRIES - attempt
    {
      var rc;
      rc, events, w := SendFragment(p, header, data, job, events, w);
      if rc == 1 {
        rc, events, w := AwaitAck(p, job, events, w);
      }
      if rc == 3 {
        attempt := attempt + 1;
        continue;
      }
      if rc < 0 {
        return -1, events, w;
      }
      if rc == 1 {
        return 0, events, w;
      }
    }
    p.palmErrno := Timeout;
    p.status := Lost;
    err := -1;
  }

  lemma NothingWritten(local: Address, job: Job)
    requires job.Valid() && job.start.sent == []
    ensures job.start.Run(job.msg, job.emulate, []) == job.start
    ensures HeardAll(local, job.start.remote, job.in0, Listens([])) && OnTheLine(local, []) == []
    ensures SeenAfter(job.start.remote, Listens([])) == job.start.remote
    ensures RestAfter(local, job.start.remote, job.in0, Listens([])) == job.in0 && Mishaps([]) == 0
  {
  }
}
