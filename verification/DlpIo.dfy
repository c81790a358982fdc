/** The functions of libpconn/dlp.c, over the buffers of a `PConnection` and the
    packet assembly protocol below. */
module DlpIo {
  import opened Bytes
  import opened Connection
  import opened Dlp
  import opened Options
  import opened Padp
  import opened PadpIo

  // ----- Sending ------------------------------------------------------------

  /** The first pass over the arguments: how long the message will be. */
  method MessageLength(headerLen: nat, argc: ubyte, argv: seq<DlpArg>) returns (buflen: nat)
    requires argc <= |argv|
    ensures buflen == headerLen + |ArgsBytes(argv[..argc])|
  {
    buflen := headerLen;
    for i := 0 to argc
      invariant buflen == headerLen + |ArgsBytes(argv[..i])|
    {
      ArgsOneMore(argv[..i], argv[i]);
      assert argv[..i + 1] == argv[..i] + [argv[i]];
      var size := |argv[i].data|;
      if size <= TINYARG_MAXLEN {
        buflen := buflen + 2 + size;
      } else if size <= SMALLARG_MAXLEN {
        buflen := buflen + 4 + size;
      } else {
        buflen := buflen + 6 + size;
      }
    }
  }

  method PutArg(buf: array<ubyte>, wptr: nat, a: DlpArg) returns (wptr': nat)
    requires wptr + |ArgBytes(a)| <= buf.Length
    modifies buf
    ensures wptr' == wptr + |ArgBytes(a)|
    ensures buf[..wptr'] == old(buf[..wptr]) + ArgBytes(a)
  {
    hide UwordBytes, UdwordBytes;
    var size := |a.data|;
    if size <= TINYARG_MAXLEN {
      wptr' := PutUbyte(buf, wptr, a.id % 0x40);
      wptr' := PutUbyte(buf, wptr', size);
    } else if size <= SMALLARG_MAXLEN {
      wptr' := PutUbyte(buf, wptr, a.id % 0x40 + 0x80);
      wptr' := PutUbyte(buf, wptr', 0);
      wptr' := PutUword(buf, wptr', size);
    } else {
      wptr' := PutUword(buf, wptr, a.id % 0x4000 + 0xc000);
      wptr' := PutUdword(buf, wptr', size);
    }
    assert buf[..wptr'] == old(buf[..wptr]) + ArgHeader(a.id, size);
    wptr' := PutBytes(buf, wptr', a.data);
  }

  /** The second pass, which stays within the buffer that the first one sized. */
  method PutArgs(buf: array<ubyte>, wptr: nat, argc: ubyte, argv: seq<DlpArg>) returns (wptr': nat)
    requires argc <= |argv| && wptr + |ArgsBytes(argv[..argc])| == buf.Length
    modifies buf
    ensures wptr' == buf.Length && buf[..] == old(buf[..wptr]) + ArgsBytes(argv[..argc])
  {
    hide ArgBytes, ArgsBytes;
    wptr' := wptr;
    ghost var front := buf[..wptr];
    NoArgs();
    assert argv[..0] == [];
    for i := 0 to argc
      invariant wptr <= wptr' && wptr' == wptr + |ArgsBytes(argv[..i])| && wptr' <= buf.Length
      invariant buf[..wptr'] == front + ArgsBytes(argv[..i])
    {
      assert argv[..i + 1] == argv[..i] + [argv[i]];
      ArgsOneMore(argv[..i], argv[i]);
      ArgsGrow(argv[..argc], i + 1);
      assert argv[..argc][..i + 1] == argv[..i + 1];
      wptr' := PutArg(buf, wptr', argv[i]);
    }
    assert buf[..wptr'] == buf[..];
  }

  lemma NoArgs()
    ensures ArgsBytes([]) == []
  {
  }

  lemma {:induction false} ArgsGrow(args: seq<DlpArg>, i: nat)
    requires i <= |args|
    ensures |ArgsBytes(args[..i])| <= |ArgsBytes(args)|
    decreases |args|
  {
    hide ArgBytes;
    if i < |args| {
      var init := args[..|args| - 1];
      assert init[..i] == args[..i];
      ArgsGrow(init, i);
    } else {
      assert args[..i] == args;
    }
  }

  /** `dlp_send_req`: 0 when the request, or the part of it that `padp_write` gets
      to see, has been acknowledged. */
  method SendReq(p: PConnection, header: ReqHeader, argv: seq<DlpArg>)
    returns (err: int, ghost job: Job, ghost events: seq<WriterEvent>, ghost w: Writer)
    requires p.Valid() && header.argc <= |argv|
    modifies p`incoming, p`outgoing, p`palmErrno, p`faults, p`status, p`remoteAddr, p`inbuf, p`outbuf, p`lastXid, p`xid, p`padpInbuf
    modifies p.headerInbuf, p.inbuf, p.crcInbuf, p.outbuf
    ensures p.Valid() && |p.incoming| <= |old(p.incoming)|
    ensures (p.outbuf == old(p.outbuf) || fresh(p.outbuf)) && (p.inbuf == old(p.inbuf) || fresh(p.inbuf))
    ensures job.msg == Handed(RequestBytes(header.id, argv[..header.argc]))
    ensures job == Job(job.msg, p.emulatePalm,
                       StartWriter(job.msg, p.emulatePalm, old(p.xid), old(p.lastXid), old(p.remoteAddr)),
                       old(p.incoming), old(p.outgoing), old(p.faults))
    ensures job.Valid() && Writes(p, job, events, w)
    ensures err == 0 ==> w.phase == Written && LineUp(p, job, events, w)
    ensures err != 0 ==> err == -1 && w.phase == WriteFailed(p.palmErrno)
  {
    hide Writes, LineUp, ArgsBytes, StartWriter, Job.Valid;
    p.palmErrno := NoErr;
    var buflen := MessageLength(2, header.argc, argv);
    var outbuf := new ubyte[buflen];
    var wptr := PutUbyte(outbuf, 0, header.id);
    wptr := PutUbyte(outbuf, wptr, header.argc);
    assert outbuf[..wptr] == [header.id, header.argc];
    wptr := PutArgs(outbuf, wptr, header.argc, argv);
    assert outbuf[..] == RequestBytes(header.id, argv[..header.argc]);
    assert outbuf[..wptr % 0x1_0000] == outbuf[..][..wptr % 0x1_0000];
    err, job, events, w := PadpWrite(p, outbuf, wptr % 0x1_0000);
  }

  /** `dlp_send_resp`. */
  method SendResp(p: PConnection, header: RespHeader, argv: seq<DlpArg>)
    returns (err: int, ghost job: Job, ghost events: seq<WriterEvent>, ghost w: Writer)
    requires p.Valid() && header.argc <= |argv|
    modifies p`incoming, p`outgoing, p`palmErrno, p`faults, p`status, p`remoteAddr, p`inbuf, p`outbuf, p`lastXid, p`xid, p`padpInbuf
    modifies p.headerInbuf, p.inbuf, p.crcInbuf, p.outbuf
    ensures p.Valid() && |p.incoming| <= |old(p.incoming)|
    ensures (p.outbuf == old(p.outbuf) || fresh(p.outbuf)) && (p.inbuf == old(p.inbuf) || fresh(p.inbuf))
    ensures job.msg == Handed(ResponseBytes(header.id, header.error, argv[..header.argc]))
    ensures job == Job(job.msg, p.emulatePalm,
                       StartWriter(job.msg, p.emulatePalm, old(p.xid), old(p.lastXid), old(p.remoteAddr)),
                       old(p.incoming), old(p.outgoing), old(p.faults))
    ensures job.Valid() && Writes(p, job, events, w)
    ensures err == 0 ==> w.phase == Written && LineUp(p, job, events, w)
    ensures err != 0 ==> err == -1 && w.phase == WriteFailed(p.palmErrno)
  {
    hide Writes, LineUp, ArgsBytes, StartWriter, Job.Valid, UwordBytes;
    p.palmErrno := NoErr;
    var buflen := MessageLength(4, header.argc, argv);
    var outbuf := new ubyte[buflen];
    var wptr := PutUbyte(outbuf, 0, header.id % 0x80 + 0x80);
    wptr := PutUbyte(outbuf, wptr, header.argc);
    wptr := PutUword(outbuf, wptr, header.error);
    assert outbuf[..wptr] == [header.id % 0x80 + 0x80, header.argc] + UwordBytes(header.error);
    wptr := PutArgs(outbuf, wptr, header.argc, argv);
    assert outbuf[..] == ResponseBytes(header.id, header.error, argv[..header.argc]);
    assert outbuf[..wptr % 0x1_0000] == outbuf[..][..wptr % 0x1_0000];
    err, job, events, w := PadpWrite(p, outbuf, wptr % 0x1_0000);
  }

  // ----- Receiving ------------------------------------------------------------

  method GetUword(inbuf: array<ubyte>, from: nat, ghost len: nat, rptr: nat) returns (v: uword)
    requires from + len <= inbuf.Length && rptr + 2 <= len
    ensures v == PeekUword(inbuf[from..from + len], rptr)
  {
    v := inbuf[from + rptr] as int * 0x100 + inbuf[from + rptr + 1];
  }

  method GetUdword(inbuf: array<ubyte>, from: nat, ghost len: nat, rptr: nat) returns (v: udword)
    requires from + len <= inbuf.Length && rptr + 4 <= len
    ensures v == PeekUdword(inbuf[from..from + len], rptr)
  {
    v := inbuf[from + rptr] as int * 0x100_0000 + inbuf[from + rptr + 1] as int * 0x1_0000
         + inbuf[from + rptr + 2] as int * 0x100 + inbuf[from + rptr + 3];
  }

  /** One turn of the parsing loop; not `ok` when it would read past the input. */
  method GetArg(inbuf: array<ubyte>, from: nat, len: nat, rptr: nat) returns (ok: bool, slot: DlpSlot)
    requires from + len <= inbuf.Length
    ensures ParseArg(inbuf[from..from + len], rptr) == if ok then Some(slot) else None
  {
    hide PeekUword, PeekUdword;
    ghost var input := inbuf[from..from + len];
    ok, slot := false, DlpSlot(0, 0, 0);
    if rptr >= len {
      return;
    }
    assert input[rptr] == inbuf[from + rptr];
    if inbuf[from + rptr] >= 0xc0 {
      if rptr + 6 <= len {
        var id := GetUword(inbuf, from, len, rptr);
        var size := GetUdword(inbuf, from, len, rptr + 2);
        ok, slot := true, DlpSlot(id % 0x40, size, rptr + 6);
      }
    } else if inbuf[from + rptr] >= 0x80 {
      if rptr + 4 <= len {
        var size := GetUword(inbuf, from, len, rptr + 2);
        ok, slot := true, DlpSlot(inbuf[from + rptr] % 0x40, size, rptr + 4);
      }
    } else if rptr + 2 <= len {
      ok, slot := true, DlpSlot(inbuf[from + rptr], inbuf[from + rptr + 1], rptr + 2);
    }
  }

  /** Makes room for `argc` arguments, if there is none. */
  method GrowArgv(p: PConnection, argc: ubyte)
    modifies p`dlpArgv
    ensures p.dlpArgv == old(p.dlpArgv) || fresh(p.dlpArgv)
    ensures argc <= p.dlpArgv.Length
  {
    if argc > p.dlpArgv.Length {
      var eptr := new DlpSlot[argc](_ => DlpSlot(0, 0, 0));
      var argv := p.dlpArgv;
      for i := 0 to argv.Length {
        eptr[i] := argv[i];
      }
      p.dlpArgv := eptr;
    }
  }

  /** The parsing loop. */
  method GetArgs(p: PConnection, inbuf: array<ubyte>, from: nat, len: nat, at: nat, argc: ubyte) returns (ok: bool)
    requires from + len <= inbuf.Length && argc <= p.dlpArgv.Length
    modifies p.dlpArgv
    ensures inbuf[..] == old(inbuf[..])
    ensures match ParseArgs(inbuf[from..from + len], at, argc)
            case None => !ok
            case Some(parsed) => ok && p.dlpArgv[..argc] == parsed.slots
  {
    hide ParseArg;
    ghost var input := inbuf[from..from + len];
    var rptr: nat := at;
    for i := 0 to argc
      invariant inbuf[..] == old(inbuf[..])
      invariant ParseArgs(input, at, i) == Some(Parsed(p.dlpArgv[..i], rptr))
    {
      var slot;
      assert inbuf[from..from + len] == inbuf[..][from..from + len];
      ok, slot := GetArg(inbuf, from, len, rptr);
      if !ok {
        MissingArg(input, at, i, argc);
        return;
      }
      ParseOneMore(input, at, i, Parsed(p.dlpArgv[..i], rptr), slot);
      ghost var slots := p.dlpArgv[..i];
      p.dlpArgv[i] := slot;
      assert p.dlpArgv[..i + 1] == slots + [slot];
      rptr := slot.at + slot.size;
    }
    assert inbuf[from..from + len] == inbuf[..][from..from + len];
    ok := true;
  }

  lemma {:induction false} MissingArg(input: seq<ubyte>, at: nat, i: nat, argc: nat)
    requires i < argc && ParseArgs(input, at, i).Some? && ParseArg(input, ParseArgs(input, at, i).value.end) == None
    ensures ParseArgs(input, at, argc) == None
    decreases argc
  {
    if i + 1 < argc { MissingArg(input, at, i, argc - 1); }
  }

  /** `dlp_recv_req`: 0 when a request has been received, -1 when the read
      failed; -2 stands for a read past the end of the message. */
  method RecvReq(p: PConnection)
    returns (err: int, header: ReqHeader, inbuf: array<ubyte>, from: nat, inlen: uword,
             ghost events: seq<Listen>, ghost r: Reader, ghost outcome: Outcome<ReqHeader>)
    requires p.Valid()
    modifies p`incoming, p`outgoing, p`palmErrno, p`faults, p`status, p`remoteAddr, p`inbuf, p`outbuf, p`lastXid, p`xid, p`padpInbuf
    modifies p.headerInbuf, p.inbuf, p.crcInbuf, p.outbuf
    modifies p`dlpArgv, p.dlpArgv
    ensures p.Valid() && (forall e :: e in events ==> e.Valid())
    ensures r == old(ReaderState(p, AwaitFirst, [])).Run(events) && !r.Running()
    ensures HeardAll(p.localAddr, old(p.remoteAddr), old(p.incoming), events)
    ensures p.faults >= old(p.faults) + FaultsOf(events)
    ensures match r.phase
            case Delivered(n, data) =>
              && inlen == n && |data| <= n && from + n <= inbuf.Length && inbuf[from..from + |data|] == data
              && outcome == ParseRequest(inbuf[from..from + n])
              && err == (if outcome.Received? then 0 else -2)
              && (outcome.Received? ==> header.argc <= p.dlpArgv.Length && outcome == Received(header, p.dlpArgv[..header.argc]))
            case ReadFailed(why) => err == -1 && p.palmErrno == why
            case _ => err == -2
  {
    hide ParseArgs, Reader.Run, HeardAll, FaultsOf;
    header, outcome := ReqHeader(0, 0), PastEnd;
    ghost var lineOk;
    err, inbuf, from, inlen, events, r, lineOk := PadpRead(p);
    if err < 0 {
      return;
    }
    outcome := ParseRequest(inbuf[from..from + inlen]);
    if inlen < 2 {
      err := -2;
      return;
    }
    header := ReqHeader(inbuf[from], inbuf[from + 1]);
    assert inbuf[from..from + inlen][0] == header.id && inbuf[from..from + inlen][1] == header.argc;
    GrowArgv(p, header.argc);
    var ok := GetArgs(p, inbuf, from, inlen, 2, header.argc);
    err := if ok then 0 else -2;
  }

  /** `dlp_recv_resp`: 0 when the response to command `id` has been received, -1
      when the read failed or something else came; -2 as above. */
  method RecvResp(p: PConnection, id: ubyte)
    returns (err: int, header: RespHeader, inbuf: array<ubyte>, from: nat, inlen: uword,
             ghost events: seq<Listen>, ghost r: Reader, ghost outcome: Outcome<RespHeader>)
    requires p.Valid()
    modifies p`incoming, p`outgoing, p`palmErrno, p`faults, p`status, p`remoteAddr, p`inbuf, p`outbuf, p`lastXid, p`xid, p`padpInbuf
    modifies p.headerInbuf, p.inbuf, p.crcInbuf, p.outbuf
    modifies p`dlpArgv, p.dlpArgv
    ensures p.Valid() && (p.inbuf == old(p.inbuf) || fresh(p.inbuf)) && (p.outbuf == old(p.outbuf) || fresh(p.outbuf))
    ensures (forall e :: e in events ==> e.Valid())
    ensures p.dlpArgv == old(p.dlpArgv) || fresh(p.dlpArgv)
    ensures r == old(ReaderState(p, AwaitFirst, [])).Run(events) && !r.Running()
    ensures HeardAll(p.localAddr, old(p.remoteAddr), old(p.incoming), events)
    ensures p.faults >= old(p.faults) + FaultsOf(events)
    ensures match r.phase
            case Delivered(n, data) =>
              && inlen == n && |data| <= n && from + n <= inbuf.Length && inbuf[from..from + |data|] == data
              && outcome == ParseResponse(inbuf[from..from + n], id)
              && err == (if outcome.Received? then 0 else if outcome.PastEnd? then -2 else -1)
              && (outcome.WrongId? ==> p.palmErrno == BadId)
              && (outcome.Received? ==> header.argc <= p.dlpArgv.Length && outcome == Received(header, p.dlpArgv[..header.argc]))
            case ReadFailed(why) => err == -1 && p.palmErrno == why
            case _ => err == -2
  {
    hide ParseArgs, Reader.Run, HeardAll, FaultsOf, PeekUword;
    header, outcome := RespHeader(0, 0, 0), PastEnd;
    ghost var lineOk;
    err, inbuf, from, inlen, events, r, lineOk := PadpRead(p);
    if err < 0 {
      return;
    }
    outcome := ParseResponse(inbuf[from..from + inlen], id);
    if inlen == 0 {
      err := -1;
      return;
    }
    if inlen < 4 {
      err := -2;
      return;
    }
    var error := GetUword(inbuf, from, inlen, 2);
    header := RespHeader(inbuf[from], inbuf[from + 1], error);
    assert inbuf[from..from + inlen][0] == header.id && inbuf[from..from + inlen][1] == header.argc;
    if header.id < 0x80 {
      err := -1;
      return;
    }
    if header.id % 0x80 != id {
      p.palmErrno := BadId;
      err := -1;
      return;
    }
    GrowArgv(p, header.argc);
    var ok := GetArgs(p, inbuf, from, inlen, 4, header.argc);
    err := if ok then 0 else -2;
  }

  // ----- A request and its response -------------------------------------------

  /** One try: the run of `padp_write` for the request; if it was acknowledged, the
      run of `padp_read` for the response, and the message that it delivered, if
      it did; and the error number at the end. */
  datatype Try = Try(job: Job, wEvents: seq<WriterEvent>, w: Writer, rStart: Reader, rEvents: seq<Listen>, r: Reader,
                     message: seq<ubyte>, errno: PalmErrno)
  {
    /** The two calls have gone as is said, with what was on the line, and are over. */
    ghost predicate Happened(local: Address) {
      && job.Valid() && HeardAll(local, job.start.remote, job.in0, Listens(wEvents)) && (forall e :: e in wEvents ==> e.Valid())
      && job.start.Run(job.msg, job.emulate, wEvents) == w && !w.Running()
      && (w.phase.WriteFailed? ==> w.phase.why == errno)
      && (w.phase.Written? ==>
            && rStart.phase.AwaitFirst? && (forall e :: e in rEvents ==> e.Valid())
            && rStart.Run(rEvents) == r && !r.Running()
            && HeardAll(local, SeenAfter(job.start.remote, Listens(wEvents)),
                        RestAfter(local, job.start.remote, job.in0, Listens(wEvents)), rEvents)
            && (r.phase.Delivered? ==> r.phase.len == |message| && r.phase.data <= message)
            && (r.phase.ReadFailed? ==> r.phase.why == errno))
    }

    function Answer(id: ubyte): Outcome<RespHeader> {
      if r.phase.Delivered? then ParseResponse(message, id) else Empty
    }

    predicate Answered(id: ubyte) { w.phase.Written? && Answer(id).Received? }

    /** The code read beyond the end of the message or of a buffer. */
    predicate Strayed(id: ubyte) { w.phase.Written? && (r.phase.Overrun? || Answer(id).PastEnd?) }

    predicate TimedOut(id: ubyte) { errno == Timeout2 && !Answered(id) && !Strayed(id) }
  }

  /** The faults that the tries have met. */
  function Troubles(tries: seq<Try>): nat {
    if tries == [] then 0
    else
      var t := tries[|tries| - 1];
      Troubles(tries[..|tries| - 1]) + Mishaps(t.wEvents) + if t.w.phase.Written? then FaultsOf(t.rEvents) else 0
  }

  lemma TroublesMore(tries: seq<Try>, t: Try)
    ensures Troubles(tries + [t]) == Troubles(tries) + Mishaps(t.wEvents) + if t.w.phase.Written? then FaultsOf(t.rEvents) else 0
  {
    assert (tries + [t])[..|tries|] == tries;
  }

  /** All tries send the same thing, and only a timeout leads to another one. */
  ghost predicate Retried(tries: seq<Try>, msg: seq<ubyte>, id: ubyte, local: Address) {
    && (forall t :: t in tries ==> t.job.msg == msg && t.Happened(local))
    && forall i :: 0 <= i < |tries| - 1 ==> tries[i].TimedOut(id)
  }

  /** What a successful call leaves with its caller. */
  ghost predicate Has(p: PConnection, id: ubyte, answer: Outcome<RespHeader>, header: RespHeader,
                      inbuf: array<ubyte>, from: nat, inlen: uword)
    reads p, p.dlpArgv, inbuf
  {
    && from + inlen <= inbuf.Length && answer == ParseResponse(inbuf[from..from + inlen], id)
    && header.argc <= p.dlpArgv.Length && answer == Received(header, p.dlpArgv[..header.argc])
  }

  /** The body of the loop: sends the request and waits for the response. */
  method TryOnce(p: PConnection, header: ReqHeader, argv: seq<DlpArg>)
    returns (err: int, respHeader: RespHeader, inbuf: array<ubyte>, from: nat, inlen: uword, ghost t: Try)
    requires p.Valid() && header.argc <= |argv|
    modifies p`incoming, p`outgoing, p`palmErrno, p`faults, p`status, p`remoteAddr, p`inbuf, p`outbuf, p`lastXid, p`xid, p`padpInbuf
    modifies p.headerInbuf, p.inbuf, p.crcInbuf, p.outbuf
    modifies p`dlpArgv, p.dlpArgv
    ensures p.Valid() && (p.inbuf == old(p.inbuf) || fresh(p.inbuf)) && (p.outbuf == old(p.outbuf) || fresh(p.outbuf))
    ensures p.dlpArgv == old(p.dlpArgv) || fresh(p.dlpArgv)
    ensures t.job.msg == Handed(RequestBytes(header.id, argv[..header.argc])) && t.errno == p.palmErrno && t.Happened(p.localAddr)
    ensures t.job.in0 == old(p.incoming)
    ensures p.faults >= old(p.faults) + Mishaps(t.wEvents) + if t.w.phase.Written? then FaultsOf(t.rEvents) else 0
    ensures err == if t.Strayed(header.id) then -2 else if t.Answered(header.id) then 0 else -1
    ensures err == 0 ==> Has(p, header.id, t.Answer(header.id), respHeader, inbuf, from, inlen)
  {
    hide RequestBytes, ParseResponse, HeardAll, SeenAfter, RestAfter, Listens, OnTheLine, StartWriter, Reader.Run, Writer.Run, FaultsOf, Mishaps;
    respHeader, inbuf, from, inlen := RespHeader(0, 0, 0), p.inbuf, 0, 0;
    ghost var job, wEvents, w;
    err, job, wEvents, w := SendReq(p, header, argv);
    if err < 0 {
      t := Try(job, wEvents, w, ReaderState(p, AwaitFirst, []), [], ReaderState(p, AwaitFirst, []), [], p.palmErrno);
      return;
    }
    ghost var rStart := ReaderState(p, AwaitFirst, []);
    ghost var rEvents, r, answer;
    err, respHeader, inbuf, from, inlen, rEvents, r, answer := RecvResp(p, header.id);
    t := Try(job, wEvents, w, rStart, rEvents, r, if r.phase.Delivered? then inbuf[from..from + inlen] else [], p.palmErrno);
    if r.phase.Delivered? { assert inbuf[from..from + inlen][..|r.phase.data|] == inbuf[from..from + |r.phase.data|]; }
  }

  /** `dlp_dlpc_req`: up to five tries. */
  method DlpcReq(p: PConnection, header: ReqHeader, argv: seq<DlpArg>)
    returns (err: int, respHeader: RespHeader, inbuf: array<ubyte>, from: nat, inlen: uword, ghost tries: seq<Try>)
    requires p.Valid() && header.argc <= |argv|
    modifies p`incoming, p`outgoing, p`palmErrno, p`faults, p`status, p`remoteAddr, p`inbuf, p`outbuf, p`lastXid, p`xid, p`padpInbuf
    modifies p.headerInbuf, p.inbuf, p.crcInbuf, p.outbuf
    modifies p`dlpArgv, p`dlpResp, p.dlpArgv
    ensures p.Valid() && err in {0, -1, -2}
    ensures 1 <= |tries| <= 5 && Retried(tries, Handed(RequestBytes(header.id, argv[..header.argc])), header.id, p.localAddr)
    ensures tries[0].job.in0 == old(p.incoming)
    ensures p.faults >= old(p.faults) + Troubles(tries)
    ensures var last := tries[|tries| - 1];
            && (err == 0 <==> last.Answered(header.id)) && (err == -2 <==> last.Strayed(header.id))
            && (err == 0 ==> Has(p, header.id, last.Answer(header.id), respHeader, inbuf, from, inlen) && p.dlpResp == respHeader)
            && (err == -1 && last.TimedOut(header.id) ==> |tries| == 5 && p.palmErrno == Timeout && p.status == Lost)
            && (err == -1 && !last.TimedOut(header.id) ==> p.palmErrno == last.errno)
  {
    hide RequestBytes, ParseResponse, Has, Try.Happened, Troubles, FaultsOf, Mishaps;
    ghost var msg := Handed(RequestBytes(header.id, argv[..header.argc]));
    respHeader, inbuf, from, inlen, tries := RespHeader(0, 0, 0), p.inbuf, 0, 0, [];
    var trycount := 0;
    NoTroubles();
    while trycount < 5
      invariant p.Valid() && trycount == |tries| <= 5 && Retried(tries, msg, header.id, p.localAddr)
      invariant forall i :: 0 <= i < |tries| ==> tries[i].TimedOut(header.id)
      invariant p.faults >= old(p.faults) + Troubles(tries)
      invariant if tries == [] then p.incoming == old(p.incoming) else tries[0].job.in0 == old(p.incoming)
      invariant (p.inbuf == old(p.inbuf) || fresh(p.inbuf)) && (p.outbuf == old(p.outbuf) || fresh(p.outbuf))
      invariant p.dlpArgv == old(p.dlpArgv) || fresh(p.dlpArgv)
    {
      ghost var t;
      err, respHeader, inbuf, from, inlen, t := TryOnce(p, header, argv);
      TroublesMore(tries, t);
      tries := tries + [t];
      if err == -1 && p.palmErrno == Timeout2 {
        trycount := trycount + 1;
        continue;
      }
      if err == 0 {
        assert Has(p, header.id, t.Answer(header.id), respHeader, inbuf, from, inlen);
        SetResp(p, respHeader, header.id, t.Answer(header.id), inbuf, from, inlen);
      }
      return;
    }
    p.palmErrno := Timeout;
    p.status := Lost;
    err := -1;
  }

  lemma NoTroubles()
    ensures Troubles([]) == 0
  {
  }

  /** Keeps the response header for `dlp_latest_error`. */
  method SetResp(p: PConnection, header: RespHeader, ghost id: ubyte, ghost answer: Outcome<RespHeader>,
                 ghost inbuf: array<ubyte>, ghost from: nat, ghost inlen: uword)
    requires Has(p, id, answer, header, inbuf, from, inlen)
    modifies p`dlpResp
    ensures p.dlpResp == header && Has(p, id, answer, header, inbuf, from, inlen)
  {
    hide ParseResponse;
    p.dlpResp := header;
  }
}
