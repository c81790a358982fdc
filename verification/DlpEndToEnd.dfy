/** The layers together: a request or a response, from the arguments at one end
    of the line to the arguments at the other. */
module DlpEndToEnd {
  import opened Bytes
  import opened Connection
  import opened PadpExchange
  import opened PadpTwoParty
  import Dlp

  /** The two calls are not over before the message is there; and if nothing is
      lost and no fragment but the last was sent twice, neither has failed, and
      one more move is possible until both are done. */
  ghost predicate OnItsWay(c: Setup, moves: seq<Move>, t: State)
    requires c.Valid()
  {
    && (t.w.phase.Written? ==> t.r.phase.Delivered?)
    && (AllFaultless(c, moves) && !Spoilt(c.msg, t.w) ==>
          && !t.w.phase.WriteFailed? && !t.r.phase.ReadFailed?
          && (!Finished(c, t) ==> CanMove(c, t)))
  }

  lemma HandedWhole(bytes: seq<ubyte>)
    requires |bytes| < 0x1_0000
    ensures Dlp.Handed(bytes) == bytes
  {
  }

  lemma OutcomeOfRun(c: Setup, s: State, moves: seq<Move>, t: State)
    requires Initial(c, s) && Leads(c, s, moves, t)
    ensures OnItsWay(c, moves, t) && (t.r.phase.Delivered? ==> t.r.phase.data == c.msg)
  {
    hide Leads, Initial, CanMove, AllFaultless, Spoilt;
    OnlyTheMessage(c, s, moves, t);
    if AllFaultless(c, moves) { MessageArrives(c, s, moves, t); }
  }

  /** In every run, a request shorter than 64 kB is received with the command,
      the sizes and the data that were sent, or not at all. */
  lemma RequestArrives(c: Setup, s: State, moves: seq<Move>, t: State, id: ubyte, args: seq<Dlp.DlpArg>)
    requires |args| < 0x100 && |Dlp.RequestBytes(id, args)| < 0x1_0000
    requires c.msg == Dlp.Handed(Dlp.RequestBytes(id, args)) && Initial(c, s) && Leads(c, s, moves, t)
    ensures OnItsWay(c, moves, t)
    ensures t.r.phase.Delivered? ==>
              var outcome := Dlp.ParseRequest(t.r.phase.data);
              && outcome.Received? && outcome.header == Dlp.ReqHeader(id, |args|)
              && Dlp.Holds(t.r.phase.data, outcome.slots, args)
  {
    hide Leads, Initial, OnItsWay, Dlp.ParseRequest, Dlp.RequestBytes;
    Dlp.RequestRoundTrip(id, args);
    HandedWhole(Dlp.RequestBytes(id, args));
    OutcomeOfRun(c, s, moves, t);
  }

  /** So is a response to the command that is waited for, with its error code. */
  lemma ResponseArrives(c: Setup, s: State, moves: seq<Move>, t: State, id: ubyte, error: uword, args: seq<Dlp.DlpArg>)
    requires |args| < 0x100 && |Dlp.ResponseBytes(id, error, args)| < 0x1_0000 && id < 0x80
    requires c.msg == Dlp.Handed(Dlp.ResponseBytes(id, error, args)) && Initial(c, s) && Leads(c, s, moves, t)
    ensures OnItsWay(c, moves, t)
    ensures t.r.phase.Delivered? ==>
              var outcome := Dlp.ParseResponse(t.r.phase.data, id);
              && outcome.Received? && outcome.header == RespHeader(id + 0x80, |args|, error)
              && Dlp.Holds(t.r.phase.data, outcome.slots, args)
  {
    hide Leads, Initial, OnItsWay, Dlp.ParseResponse, Dlp.ResponseBytes;
    Dlp.ResponseRoundTrip(id, error, args, id);
    HandedWhole(Dlp.ResponseBytes(id, error, args));
    OutcomeOfRun(c, s, moves, t);
  }
}
