/** The line between two ends: bytes under way, seen as the packets that SLP
    will find in them. */
module PadpLine {
  import opened Bytes
  import opened Connection
  import opened Padp
  import opened Slp
  import opened SlpResync
  import Crc

  // ----- The packets in a stretch of bytes --------------------------------------

  /** A packet as it reaches the protocol above SLP. */
  datatype Item = Item(sender: Address, xid: ubyte, body: seq<ubyte>)
  {
    /** The type a PADP header read from it has; past its end an input buffer holds zeros. */
    function Kind(): ubyte { if body == [] then 0 else body[0] }
  }

  const NOWHERE: Address := Address(0, 0)

  /** What is received does not depend on the remote address remembered before. */
  lemma {:induction false} SeenIsNoMatter(local: Address, a: Address, b: Address, s: seq<ubyte>)
    ensures var g, h := Receive(local, a, s), Receive(local, b, s);
            if g.Got? then h == g else h.Starved?
    decreases |s|
  {
    hide Crc.CrcOf, Checksum, PeekUword;
    if s == [] {
    } else if s[0] != 0xbe {
      SeenIsNoMatter(local, a, b, s[1..]);
    } else if |s| == 1 {
    } else if s[1] != 0xef {
      SeenIsNoMatter(local, a, b, s[2..]);
    } else if |s| == 2 {
    } else if s[2] != 0xed {
      SeenIsNoMatter(local, a, b, s[3..]);
    }
  }

  /** All the packets that the end at `local` will receive from `s`. */
  function Work(local: Address, s: seq<ubyte>): seq<Item>
    decreases |s|
  {
    var g := Receive(local, NOWHERE, s);
    if g.Got? then
      ReceivedFits(local, NOWHERE, s);
      [Item(g.remote, g.xid, g.body)] + Work(local, g.rest)
    else []
  }

  /** And after them nothing that the receiver would not drop. */
  predicate InStep(local: Address, s: seq<ubyte>)
    decreases |s|
  {
    var g := Receive(local, NOWHERE, s);
    if g.Got? then
      ReceivedFits(local, NOWHERE, s);
      InStep(local, g.rest)
    else Skipped(local, s)
  }

  /** Bytes that leave the receiver in step do not change what is received from those after them. */
  lemma {:induction false} WorkConcat(local: Address, s: seq<ubyte>, f: seq<ubyte>)
    requires InStep(local, s)
    ensures Work(local, s + f) == Work(local, s) + Work(local, f)
    ensures InStep(local, f) ==> InStep(local, s + f)
    decreases |s|
  {
    hide Receive, Skipped;
    var g := Receive(local, NOWHERE, s);
    if g.Got? {
      ReceivedFits(local, NOWHERE, s);
      ReceiveStable(local, NOWHERE, s, f);
      WorkConcat(local, g.rest, f);
      assert Work(local, s + f) == [Item(g.remote, g.xid, g.body)] + Work(local, g.rest + f);
    } else {
      var last := Resync(local, NOWHERE, s, f);
      SeenIsNoMatter(local, last, NOWHERE, f);
      ReceivedFits(local, NOWHERE, f);
      if InStep(local, f) && !Receive(local, NOWHERE, f).Got? { SkippedConcat(local, s, f); }
    }
  }

  /** What `slp_write` puts on the line is one packet for its addressee and nothing for anybody else. */
  lemma PacketWork(local: Address, sender: Address, dest: Address, xid: ubyte, body: seq<ubyte>)
    requires |body| <= 65523
    ensures var w := Wire(sender, dest, xid, body);
            && InStep(local, w) && |w| == |body| + 12
            && Work(local, w) == if local == Address(sender.protocol, dest.port) then [Item(sender, xid, body)] else []
  {
    hide Receive, Skipped, Wire, Packet, Crc.CrcOf, GoodHeader;
    var w := Wire(sender, dest, xid, body);
    PacketLength(sender, dest, xid, body);
    PacketIsGood(sender, dest, xid, body);
    NothingLeft(local);
    assert w + [] == w;
    ReceivePacket(local, NOWHERE, w, []);
    if DestOf(w) != local {
      PacketSkipped(local, w);
      var last := Resync(local, NOWHERE, w, []);
    }
  }

  lemma NothingLeft(local: Address)
    ensures Work(local, []) == [] && InStep(local, [])
  {
  }

  // ----- One direction of the line ------------------------------------------------

  /** Bytes that can be read, and bytes on their way. */
  datatype Channel = Channel(arrived: seq<ubyte>, flying: seq<ubyte>)
  {
    function All(): seq<ubyte> { arrived + flying }

    function Put(bytes: seq<ubyte>): Channel { this.(flying := flying + bytes) }

    /** The next `n` bytes arrive. */
    function Arrive(n: nat): Channel
      requires n <= |flying|
    {
      Channel(arrived + flying[..n], flying[n..])
    }

    function Weight(): nat { |arrived| + 2 * |flying| }
  }

  lemma PutOnLine(local: Address, ch: Channel, bytes: seq<ubyte>)
    requires InStep(local, ch.All()) && InStep(local, bytes)
    ensures InStep(local, ch.Put(bytes).All())
    ensures Work(local, ch.Put(bytes).All()) == Work(local, ch.All()) + Work(local, bytes)
    ensures ch.Put(bytes).Weight() == ch.Weight() + 2 * |bytes|
  {
    hide Work, InStep;
    assert ch.Put(bytes).All() == ch.All() + bytes;
    WorkConcat(local, ch.All(), bytes);
  }

  lemma ArriveSame(ch: Channel, n: nat)
    requires 0 < n <= |ch.flying|
    ensures ch.Arrive(n).All() == ch.All() && ch.Arrive(n).Weight() < ch.Weight()
  {
  }

  function ItemOf(g: Reception): Item
    requires g.Got?
  {
    Item(g.remote, g.xid, g.body)
  }

  /** Receiving takes the first of the packets off the line. */
  lemma TakeOffLine(local: Address, seen: Address, ch: Channel)
    requires InStep(local, ch.All()) && Receive(local, seen, ch.arrived).Got?
    ensures var g := Receive(local, seen, ch.arrived);
            var left := ch.(arrived := g.rest);
            && InStep(local, left.All()) && Work(local, ch.All()) == [ItemOf(g)] + Work(local, left.All())
            && left.Weight() + 12 <= ch.Weight()
  {
    hide Receive, Skipped;
    var g := Receive(local, seen, ch.arrived);
    ReceivedFits(local, seen, ch.arrived);
    ReceiveStable(local, seen, ch.arrived, ch.flying);
    SeenIsNoMatter(local, seen, NOWHERE, ch.All());
  }

  /** Once all bytes have arrived, the first packet can be received. */
  lemma CanTake(local: Address, seen: Address, s: seq<ubyte>)
    requires Work(local, s) != []
    ensures var g := Receive(local, seen, s);
            g.Got? && |g.body| < 0x1_0000
  {
    hide Receive;
    SeenIsNoMatter(local, NOWHERE, seen, s);
    ReceivedFits(local, seen, s);
  }

  // ----- What an end hears ----------------------------------------------------------

  function Padded(body: seq<ubyte>, room: nat): (v: seq<ubyte>)
    requires |body| <= room
    ensures |v| == room && v[..|body|] == body
  {
    body + seq(room - |body|, _ => 0)
  }

  /** The packet fits into an input buffer of `room` bytes. */
  predicate Hearable(body: seq<ubyte>, room: nat) {
    |body| < 0x1_0000 && |body| <= room && room >= 2048
  }

  function Heeded(it: Item, room: nat): (l: Listen)
    requires Hearable(it.body, room)
    ensures l.Arrived? && l.Valid()
  {
    Arrived(it.sender, it.xid, Padded(it.body, room), |it.body|)
  }

  lemma HeededFields(it: Item, room: nat)
    requires Hearable(it.body, room)
    ensures var e := Heeded(it, room);
            e.sender == it.sender && e.xid == it.xid && e.view[..e.len] == it.body && e.Header().ftype == it.Kind()
  {
    var e := Heeded(it, room);
    assert it.body != [] ==> e.view[0] == e.view[..e.len][0];
  }

  // ----- Counting packets -------------------------------------------------------------

  predicate OwnAck(it: Item, xid: ubyte) { it.Kind() == ACK && it.xid == xid }

  predicate Prompting(it: Item) { it.Kind() == TICKLE || it.Kind() == NAK }

  /** The acknowledgements under the id `xid`. */
  function Acks(items: seq<Item>, xid: ubyte): nat {
    if items == [] then 0 else (if OwnAck(items[0], xid) then 1 else 0) + Acks(items[1..], xid)
  }

  /** The packets that make a writer send its fragment again. */
  function Prompts(items: seq<Item>): nat {
    if items == [] then 0 else (if Prompting(items[0]) then 1 else 0) + Prompts(items[1..])
  }

  /** The offset a fragment is announced for. */
  function OffsetOf(body: seq<ubyte>): nat
    requires |body| >= 4
  {
    HeaderOf(body).Offset()
  }

  predicate IsDataItem(it: Item) { it.Kind() == DATA && |it.body| >= 4 }

  /** The offsets of the fragments among `items`. */
  function Offsets(items: seq<Item>): seq<nat> {
    if items == [] then []
    else (if IsDataItem(items[0]) then [OffsetOf(items[0].body)] else []) + Offsets(items[1..])
  }

  lemma {:induction false} CountsConcat(a: seq<Item>, b: seq<Item>, xid: ubyte)
    ensures Acks(a + b, xid) == Acks(a, xid) + Acks(b, xid)
    ensures Prompts(a + b) == Prompts(a) + Prompts(b)
    ensures Offsets(a + b) == Offsets(a) + Offsets(b)
    decreases |a|
  {
    hide OwnAck, Prompting, IsDataItem, OffsetOf;
    if a == [] {
      assert a + b == b;
    } else {
      assert (a + b)[1..] == a[1..] + b;
      CountsConcat(a[1..], b, xid);
    }
  }

  lemma CountsOne(it: Item, xid: ubyte)
    ensures Acks([it], xid) == if OwnAck(it, xid) then 1 else 0
    ensures Prompts([it]) == if Prompting(it) then 1 else 0
    ensures Offsets([it]) == if IsDataItem(it) then [OffsetOf(it.body)] else []
  {
    hide OwnAck, Prompting, IsDataItem, OffsetOf;
    var none: seq<Item> := [];
    assert [it][1..] == none && Acks(none, xid) == 0 && Prompts(none) == 0 && Offsets(none) == [];
  }

  lemma {:induction false} NoAcks(items: seq<Item>, xid: ubyte)
    requires forall it :: it in items ==> !OwnAck(it, xid)
    ensures Acks(items, xid) == 0
  {
    if items != [] { NoAcks(items[1..], xid); }
  }

  lemma {:induction false} NoOffsets(items: seq<Item>)
    requires forall it :: it in items ==> it.Kind() != DATA
    ensures Offsets(items) == []
  {
    if items != [] { NoOffsets(items[1..]); }
  }
}
