/** The packets of the Packet Assembly/Disassembly Protocol byte by byte, and
    what either end makes of each kind of them. */
module PadpPackets {
  import opened Bytes
  import opened Connection
  import opened Padp
  import opened PadpRuns
  import opened SlpLayout
  import Crc
  import Slp

  /** A fragment: type 1; 128 for the first and 64 for the last; the length of the
      message, or the offset, with the high byte first; up to 1024 bytes of data. */
  lemma PieceOnLine(msg: seq<ubyte>, o: nat)
    requires o < |msg| < 0x1_0000
    ensures var f := Piece(msg, o);
            && |f| >= 4 && f[0] == 1
            && f[1] == (if o == 0 then 128 else 0) + (if |msg| <= o + 1024 then 64 else 0)
            && f[2] as int * 256 + f[3] == (if o == 0 then |msg| else o)
            && f[4..] == msg[o..if o + 1024 < |msg| then o + 1024 else |msg|]
  {
    var f := Piece(msg, o);
    PieceParts(msg, o);
    assert HeaderOf(f).size == f[2] as int * 256 + f[3];
  }

  /** Whatever makes the reader send something, it is an acknowledgement: type 2,
      no flags, the size field of the fragment, under its id and back to its sender. */
  lemma ReaderSends(r: Reader, e: Listen)
    requires e.Valid()
    ensures var r' := r.Step(e);
            r'.sent == r.sent ||
            (e.Arrived? && e.view[0] == 1 && r.Running()
             && r'.sent == r.sent + [Tx(e.sender, e.xid, [2, 0, e.view[2], e.view[3]])])
  {
    if e.Arrived? { AckBytes(e.view[2], e.view[3]); }
    hide AckFrag;
  }

  lemma AckBytes(hi: ubyte, lo: ubyte)
    ensures AckFrag(hi as int * 0x100 + lo) == [2, 0, hi, lo]
  {
    assert UwordBytes(hi as int * 0x100 + lo) == [hi, lo];
  }

  /** What the reader does about anything that is no fragment. */
  lemma ReaderHears(r: Reader, e: Listen)
    requires e.Valid() && r.Running()
    ensures var phase := r.Step(e).phase;
            match e
            case Late => phase == ReadFailed(Timeout2)
            case Broken(why, _) => phase == ReadFailed(why)
            case Arrived(_, _, view, _) =>
              && (view[0] == 2 || view[0] == 4 ==> phase == r.phase)
              && (view[0] == 3 ==> phase == if r.phase.AwaitFirst? then AwaitFirst else ReadFailed(NoErr))
              && (view[0] == 8 ==> phase == ReadFailed(Abort))
              && (view[0] !in {1, 2, 3, 4, 8} ==> phase == ReadFailed(NoErr))
  {
  }

  /** What the reader does about a fragment, from the bytes of its header: of the one
      that comes first, which need not be the first of its message, the size field is
      taken for the length of the message; of any other it must be the length so far. */
  lemma FragmentHeard(r: Reader, e: Listen)
    requires e.Arrived? && e.Valid() && r.Running() && e.view[0] == 1
    ensures var r' := r.Step(e);
            var n := if e.len >= 4 then e.len as int - 4 else e.len as int + 65532;
            var size := e.view[2] as int * 256 + e.view[3];
            var total := if r.phase.AwaitFirst? then size else r.phase.msgLen as int;
            var got := if r.phase.AwaitFirst? then [] else r.phase.got;
            if r.phase.AwaitFirst? && e.view[1] / 64 == 3 then r'.phase.Delivered? || r'.phase.Overrun?
            else if r.phase.Collecting? && (e.view[1] >= 128 || size != |got|) then r'.phase == ReadFailed(NoErr) && r'.sent == r.sent
            else if |got| + n > total || 4 + n > |e.view| then r'.phase == Overrun
            else
              && r'.phase == (if r.phase.Collecting? && e.view[1] / 64 % 2 == 1 then Delivered(total, got + e.view[4..4 + n])
                              else Collecting(total, got + e.view[4..4 + n]))
              && r'.sent == r.sent + [Tx(e.sender, e.xid, [2, 0, e.view[2], e.view[3]])]
  {
    assert r.phase.AwaitFirst? || r.phase.Collecting?;
    hide *;
    if r.phase.AwaitFirst? {
      HeardFirst(r, e);
    } else {
      HeardNext(r, e);
    }
  }

  lemma HeardFirst(r: Reader, e: Listen)
    requires e.Arrived? && e.Valid() && r.phase.AwaitFirst? && e.view[0] == 1
    ensures var r' := r.Step(e);
            var n := if e.len >= 4 then e.len as int - 4 else e.len as int + 65532;
            var size := e.view[2] as int * 256 + e.view[3];
            if e.view[1] / 64 == 3 then r'.phase.Delivered? || r'.phase.Overrun?
            else if n > size || 4 + n > |e.view| then r'.phase == Overrun
            else r'.phase == Collecting(size, [] + e.view[4..4 + n])
                 && r'.sent == r.sent + [Tx(e.sender, e.xid, [2, 0, e.view[2], e.view[3]])]
  {
    AckBytes(e.view[2], e.view[3]);
    hide AckFrag;
  }

  lemma HeardNext(r: Reader, e: Listen)
    requires e.Arrived? && e.Valid() && r.phase.Collecting? && e.view[0] == 1
    ensures var r' := r.Step(e);
            var n := if e.len >= 4 then e.len as int - 4 else e.len as int + 65532;
            var size, total, got := e.view[2] as int * 256 + e.view[3], r.phase.msgLen, r.phase.got;
            if e.view[1] >= 128 || size != |got| then r'.phase == ReadFailed(NoErr) && r'.sent == r.sent
            else if |got| + n > total || 4 + n > |e.view| then r'.phase == Overrun
            else
              && r'.phase == (if e.view[1] / 64 % 2 == 1 then Delivered(total, got + e.view[4..4 + n])
                              else Collecting(total, got + e.view[4..4 + n]))
              && r'.sent == r.sent + [Tx(e.sender, e.xid, [2, 0, e.view[2], e.view[3]])]
  {
    AckBytes(e.view[2], e.view[3]);
    hide AckFrag;
  }

  /** A packet with both flags is delivered as it is, up to the length it gives. */
  lemma SingleDelivered(r: Reader, e: Listen)
    requires e.Arrived? && e.Valid() && r.phase.AwaitFirst? && e.view[0] == 1 && e.view[1] / 64 == 3
    ensures var n: uword := e.view[2] as int * 256 + e.view[3];
            r.Step(e).phase == if 4 + n <= |e.view| then Delivered(n, e.view[4..4 + n]) else Overrun
  {
  }

  /** What the writer does about each answer. */
  lemma WriterHears(msg: seq<ubyte>, emulate: bool, w: Writer, e: Listen)
    requires |msg| < 0x1_0000 && w.Valid(msg) && w.phase.Waiting? && e.Valid()
    ensures var w' := w.Step(msg, emulate, Heard(e));
            var o := w.phase.offset;
            && w'.sent == w.sent && w'.xid == w.xid
            && match e
               case Late => w'.phase == WriteFailed(Timeout2)
               case Broken(why, _) => w'.phase == WriteFailed(why)
               case Arrived(_, x, view, _) =>
                 && (view[0] == 1 ==> w'.phase == Hushing(o, w.phase.attempt, view[2] as int * 256 + view[3]))
                 && (view[0] == 2 ==> w'.phase == if x != w.xid then WriteFailed(AckXid)
                                                  else if o + 1024 < |msg| then Sending(o + 1024, 0) else Written)
                 && (view[0] == 3 || view[0] == 4 ==> w'.phase == Sending(o, w.phase.attempt))
                 && (view[0] == 8 ==> w'.phase == WriteFailed(Abort))
                 && (view[0] !in {1, 2, 3, 4, 8} ==> w'.phase == WriteFailed(NoErr))
  {
  }

  /** An unexpected fragment is acknowledged under its own id, and then the
      writer's is sent again: by a desktop under the id after that one. */
  lemma WriterHushesIt(msg: seq<ubyte>, emulate: bool, w: Writer)
    requires |msg| < 0x1_0000 && w.Valid(msg) && w.phase.Hushing?
    ensures var w' := w.Step(msg, emulate, Sent(true));
            var size := w.phase.size;
            && w'.sent == w.sent + [Tx(w.remote, w.lastXid, [2, 0, size / 256, size % 256])]
            && w'.phase == Sending(w.phase.offset, w.phase.attempt)
            && w'.xid == if emulate then w.lastXid else if 0 < w.lastXid < 0xfe then w.lastXid + 1 else 1
  {
    AckBytes(w.phase.size / 256, w.phase.size % 256);
  }

  // ----- Packets and the line ----------------------------------------------------------

  /** Where packet `i` of those that were sent begins, each in 12 bytes of SLP. */
  function SentAt(sent: seq<Tx>, i: nat): nat
    requires i <= |sent|
  {
    if i == 0 then 0 else SentAt(sent, i - 1) + 12 + |sent[i - 1].payload|
  }

  lemma {:induction false} SentAtOfFront(sent: seq<Tx>, n: nat, i: nat)
    requires i <= n <= |sent|
    ensures SentAt(sent[..n], i) == SentAt(sent, i)
  {
    if i > 0 { SentAtOfFront(sent, n, i - 1); }
  }

  lemma PacketInFront(s: seq<ubyte>, t: seq<ubyte>, k: nat, sender: Address, dest: Address, xid: ubyte, body: seq<ubyte>)
    requires PacketAt(s, k, sender, dest, xid, body)
    ensures PacketAt(s + t, k, sender, dest, xid, body)
  {
    hide Crc.CrcOf, Sum;
    assert (s + t)[k..k + 9] == s[k..k + 9];
    assert (s + t)[k + 10..k + 10 + |body|] == s[k + 10..k + 10 + |body|];
    assert (s + t)[k..k + 12 + |body|] == s[k..k + 12 + |body|];
  }

  lemma OneMoreSent(local: Address, sent: seq<Tx>)
    requires sent != [] && forall t :: t in sent ==> |t.payload| <= 65523
    ensures var n := |sent| - 1;
            var t := sent[n];
            && |t.payload| <= 65523 && (forall x :: x in sent[..n] ==> |x.payload| <= 65523)
            && OnTheLine(local, sent) == OnTheLine(local, sent[..n]) + Slp.Wire(local, t.dest, t.xid, t.payload)
  {
    hide Slp.Wire;
    assert sent[|sent| - 1] in sent;
  }

  lemma {:induction false} LengthOnLine(local: Address, sent: seq<Tx>)
    requires forall t :: t in sent ==> |t.payload| <= 65523
    ensures |OnTheLine(local, sent)| == SentAt(sent, |sent|)
  {
    if sent != [] {
      var n := |sent| - 1;
      OneMoreSent(local, sent);
      LengthOnLine(local, sent[..n]);
      SentAtOfFront(sent, n, n);
      WireIsPacket(local, sent[n].dest, sent[n].xid, sent[n].payload);
      hide OnTheLine, Slp.Wire, PacketAt;
    }
  }

  /** The packets sent stand on the line as they are, one behind the other, each with
      its addressee and its id. */
  lemma {:induction false} SentOnLine(local: Address, sent: seq<Tx>, i: nat)
    requires i < |sent| && forall t :: t in sent ==> |t.payload| <= 65523
    ensures var t := sent[i];
            PacketAt(OnTheLine(local, sent), SentAt(sent, i), local, Address(local.protocol, t.dest.port), t.xid, t.payload)
    ensures |OnTheLine(local, sent)| == SentAt(sent, |sent|)
    decreases |sent|
  {
    hide *;
    var n := |sent| - 1;
    LengthOnLine(local, sent);
    OneMoreSent(local, sent);
    SentAtOfFront(sent, n, i);
    var before, t := OnTheLine(local, sent[..n]), sent[n];
    var wire := Slp.Wire(local, t.dest, t.xid, t.payload);
    if i < n {
      SentOnLine(local, sent[..n], i);
      var x := sent[i];
      PacketInFront(before, wire, SentAt(sent, i), local, Address(local.protocol, x.dest.port), x.xid, x.payload);
    } else {
      LengthOnLine(local, sent[..n]);
      WireIsPacket(local, t.dest, t.xid, t.payload);
      assert (before + wire)[|before|..] == wire;
      PacketBehind(before + wire, |before|, 0, local, Address(local.protocol, t.dest.port), t.xid, t.payload);
    }
  }

  /** What was heard is on the line `s` at `at`, in this order and before `end`. */
  predicate Marked(local: Address, s: seq<ubyte>, events: seq<Listen>, at: seq<nat>, end: nat) {
    && |at| == |events| && end <= |s|
    && (forall i :: 0 <= i < |events| && events[i].Arrived? ==>
          var e := events[i];
          && e.len <= |e.view| && PacketAt(s, at[i], e.sender, local, e.xid, e.view[..e.len])
          && at[i] + 12 + e.len <= end)
    && forall i, j :: 0 <= i < j < |events| && events[i].Arrived? && events[j].Arrived? ==> at[i] + 12 + events[i].len <= at[j]
  }

  lemma MarkedMore(local: Address, s: seq<ubyte>, events: seq<Listen>, e: Listen, at: seq<nat>, end: nat, a: nat, end': nat)
    requires Marked(local, s, events, at, end) && end <= end' <= |s|
    requires e.Arrived? ==> end <= a && e.len <= |e.view| && PacketAt(s, a, e.sender, local, e.xid, e.view[..e.len])
                            && a + 12 + e.len <= end'
    ensures Marked(local, s, events + [e], at + [a], end')
  {
    hide PacketAt;
  }

  lemma OneMoreHeard(local: Address, seen: Address, s: seq<ubyte>, events: seq<Listen>)
    requires events != [] && HeardAll(local, seen, s, events)
    ensures var before, e := events[..|events| - 1], events[|events| - 1];
            var rest := RestAfter(local, seen, s, before);
            && events == before + [e] && HeardAll(local, seen, s, before)
            && (e.Late? ==> RestAfter(local, seen, s, events) == rest)
            && (e.Broken? ==> RestAfter(local, seen, s, events) == [])
            && (e.Arrived? ==>
                  e.len <= |e.view|
                  && Slp.Receive(local, SeenAfter(seen, before), rest)
                     == Slp.Got(e.sender, e.xid, e.view[..e.len], RestAfter(local, seen, s, events)))
  {
    hide SeenAfter, Slp.Receive;
  }

  lemma NothingHeard(local: Address, seen: Address, s: seq<ubyte>)
    ensures Marked(local, s, [], [], 0) && RestAfter(local, seen, s, []) == s[0..]
  {
    hide PacketAt;
  }

  /** The packets heard stood on the line as they are, for the receiver, and in this
      order; `at` is where each of them began. */
  lemma {:induction false} HeardOnLine(local: Address, seen: Address, s: seq<ubyte>, events: seq<Listen>)
    returns (at: seq<nat>, end: nat)
    requires HeardAll(local, seen, s, events)
    ensures Marked(local, s, events, at, end) && RestAfter(local, seen, s, events) == s[end..]
    decreases |events|
  {
    hide *;
    if events == [] {
      NothingHeard(local, seen, s);
      return [], 0;
    }
    OneMoreHeard(local, seen, s, events);
    var before, e := events[..|events| - 1], events[|events| - 1];
    at, end := HeardOnLine(local, seen, s, before);
    MarkedFits(local, s, before, at, end);
    var a, end' := 0, end;
    if e.Broken? {
      end' := |s|;
    } else if e.Arrived? {
      var k := ReceivedIsPacket(local, SeenAfter(seen, before), s[end..]);
      PacketBehind(s, end, k, e.sender, local, e.xid, e.view[..e.len]);
      PacketFits(s, end + k, e.sender, local, e.xid, e.view[..e.len]);
      a, end' := end + k, end + k + 12 + e.len;
    }
    MarkedMore(local, s, before, e, at, end, a, end');
    at, end := at + [a], end';
  }

  lemma MarkedFits(local: Address, s: seq<ubyte>, events: seq<Listen>, at: seq<nat>, end: nat)
    requires Marked(local, s, events, at, end)
    ensures |at| == |events| && end <= |s|
  {
    hide PacketAt;
  }

  lemma PacketFits(s: seq<ubyte>, k: nat, sender: Address, dest: Address, xid: ubyte, body: seq<ubyte>)
    requires PacketAt(s, k, sender, dest, xid, body)
    ensures k + 12 + |body| <= |s|
  {
  }
}
