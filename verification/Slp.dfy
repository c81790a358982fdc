/** libpconn/slp.c: the Serial Link Protocol. A packet is a ten-byte header
    with a preamble and a checksum, a body, and a CRC over both; whatever is
    wrong with a packet, the receiver's only answer is to drop it. */
module Slp {
  import opened Bytes
  import opened Connection
  import Crc

  const PREAMBLE: seq<ubyte> := [0xbe, 0xef, 0xed]

  /** The sum of the bytes in a `ubyte`. */
  function Checksum(s: seq<ubyte>): ubyte {
    if s == [] then 0 else (Checksum(s[..|s| - 1]) as int + s[|s| - 1]) % 0x100
  }

  /** The packet header `slp_write` builds. */
  function Header(local: Address, remote: Address, xid: ubyte, len: uword): (h: seq<ubyte>)
    ensures |h| == 10
  {
    var h := PREAMBLE + [remote.port, local.port, local.protocol] + UwordBytes(len) + [xid];
    h + [Checksum(h)]
  }

  /** The output buffer `slp_write` builds; the length handed to `crc16` is a `uword`. */
  function Packet(local: Address, remote: Address, xid: ubyte, body: seq<ubyte>): (p: seq<ubyte>)
    requires |body| < 0x1_0000
    ensures |p| == |body| + 12
  {
    var m := Header(local, remote, xid, |body|) + body;
    m + UwordBytes(Crc.CrcOf(m[..|m| % 0x1_0000], 0))
  }

  /** What of it goes out; the count of bytes to send is a `uword` as well. */
  function Wire(local: Address, remote: Address, xid: ubyte, body: seq<ubyte>): seq<ubyte>
    requires |body| < 0x1_0000
  {
    var p := Packet(local, remote, xid, body);
    p[..|p| % 0x1_0000]
  }

  function PacketLen(s: seq<ubyte>): nat
    requires |s| >= 10
  {
    12 + PeekUword(s, 6)
  }

  /** What comes of listening to the bytes `s`: a packet for us and the bytes
      after it, or nothing before they run out. Every header read, good or bad,
      moves the remote address. */
  datatype Reception =
    | Starved(remote: Address)
    | Got(remote: Address, xid: ubyte, body: seq<ubyte>, rest: seq<ubyte>)

  function Receive(local: Address, remote: Address, s: seq<ubyte>): Reception
    decreases |s|
  {
    if s == [] then Starved(remote)
    else if s[0] != 0xbe then Receive(local, remote, s[1..])
    else if |s| == 1 then Starved(remote)
    else if s[1] != 0xef then Receive(local, remote, s[2..])
    else if |s| == 2 then Starved(remote)
    else if s[2] != 0xed then Receive(local, remote, s[3..])
    else if |s| < 10 then Starved(remote)
    else
      var from := Address(s[5], s[4]);
      if Checksum(s[..9]) != s[9] then Receive(local, from, s[10..])
      else if |s| < PacketLen(s) then Starved(from)
      else
        var n := PacketLen(s);
        if Address(s[5], s[3]) != local || Crc.CrcOf(s[..n], 0) != 0 then Receive(local, from, s[n..])
        else Got(from, s[8], s[10..n - 2], s[n..])
  }

  /** What becomes of a packet once its whole header has been read. */
  lemma AfterHeader(local: Address, remote: Address, s: seq<ubyte>)
    requires |s| >= 3 && s[..3] == PREAMBLE
    ensures |s| < 10 ==> Receive(local, remote, s) == Starved(remote)
    ensures |s| >= 10 && Checksum(s[..9]) != s[9] ==>
              Receive(local, remote, s) == Receive(local, Address(s[5], s[4]), s[10..])
    ensures |s| >= 10 && Checksum(s[..9]) == s[9] && |s| < PacketLen(s) ==>
              Receive(local, remote, s) == Starved(Address(s[5], s[4]))
    ensures |s| >= 10 && Checksum(s[..9]) == s[9] && |s| >= PacketLen(s) ==>
              Receive(local, remote, s) == if Address(s[5], s[3]) != local || Crc.CrcOf(s[..PacketLen(s)], 0) != 0
                                           then Receive(local, Address(s[5], s[4]), s[PacketLen(s)..])
                                           else Got(Address(s[5], s[4]), s[8], s[10..PacketLen(s) - 2], s[PacketLen(s)..])
  {
    hide Crc.CrcOf, Checksum;
    assert s[0] == PREAMBLE[0] && s[1] == PREAMBLE[1] && s[2] == PREAMBLE[2];
  }

  // ----- Reading ------------------------------------------------------------

  /** Reads on until `want` bytes of `buf` are filled, however the line splits them. */
  method ReadRest(p: PConnection, buf: array<ubyte>, have: nat, want: nat) returns (err: int)
    requires have <= want <= buf.Length
    modifies p`incoming, p`palmErrno, p`faults, buf
    ensures p.faults == old(p.faults) + if err < 0 then 1 else 0
    ensures err <= 1
    ensures |p.incoming| <= |old(p.incoming)|
    ensures err < 0 ==> p.palmErrno == System
    ensures err == 0 ==> p.palmErrno == Eof && p.incoming == [] && |old(p.incoming)| < want - have
    ensures err == 1 ==> p.palmErrno == old(p.palmErrno)
    ensures err == 1 ==> |old(p.incoming)| >= want - have && p.incoming == old(p.incoming)[want - have..]
    ensures err == 1 ==> buf[..] == old(buf[..have]) + old(p.incoming)[..want - have] + old(buf[want..])
  {
    var got := have;
    ghost var s := p.incoming;
    ghost var before := buf[..];
    while want > got
      invariant have <= got <= want && got - have <= |s|
      invariant p.incoming == s[got - have..]
      invariant buf[..] == before[..have] + s[..got - have] + before[got..]
      invariant p.palmErrno == old(p.palmErrno) && p.faults == old(p.faults)
    {
      err := p.Read(buf, got, want - got);
      if err <= 0 {
        return;
      }
      got := got + err;
    }
    err := 1;
  }

  /** The preamble loop: `err` is 2 when a byte did not belong. */
  method ReadPreamble(p: PConnection) returns (err: int)
    requires p.Valid()
    modifies p`incoming, p`palmErrno, p`faults, p.headerInbuf
    ensures p.faults == old(p.faults) + if err < 0 then 1 else 0
    ensures err <= 2
    ensures |p.incoming| <= |old(p.incoming)|
    ensures err < 0 ==> p.palmErrno == System
    ensures err == 0 ==> p.palmErrno == Eof && p.incoming == []
    ensures err == 0 ==> Receive(p.localAddr, p.remoteAddr, old(p.incoming)) == Starved(p.remoteAddr)
    ensures err > 0 ==> p.palmErrno == old(p.palmErrno)
    ensures err == 1 ==> old(p.incoming) == PREAMBLE + p.incoming && p.headerInbuf[..3] == PREAMBLE
    ensures err == 2 ==> |p.incoming| < |old(p.incoming)|
    ensures err == 2 ==> Receive(p.localAddr, p.remoteAddr, old(p.incoming)) == Receive(p.localAddr, p.remoteAddr, p.incoming)
  {
    ghost var s := p.incoming;
    for i := 0 to |PREAMBLE|
      invariant i <= |s| && p.incoming == s[i..] && s[..i] == PREAMBLE[..i]
      invariant p.headerInbuf[..i] == PREAMBLE[..i]
      invariant p.palmErrno == old(p.palmErrno) && p.faults == old(p.faults)
    {
      err := p.Read(p.headerInbuf, i, 1);
      if err <= 0 {
        return;
      }
      assert p.headerInbuf[i] == s[i];
      if p.headerInbuf[i] != PREAMBLE[i] {
        assert forall k :: 0 <= k < i ==> s[k] == s[..i][k];
        return 2;
      }
    }
    err := 1;
    assert s == s[..3] + s[3..];
  }

  /** Sums up everything in the header except for the checksum byte. */
  method HeaderChecksum(h: array<ubyte>) returns (sum: ubyte)
    requires h.Length >= 10
    ensures sum == Checksum(h[..9])
  {
    sum := 0;
    for i := 0 to 9
      invariant sum == Checksum(h[..i])
    {
      sum := (sum as int + h[i]) % 0x100;
      assert h[..i + 1][..i] == h[..i];
    }
  }

  /** The CRC of the whole packet, taken over the three buffers in turn. */
  method PacketCrc(p: PConnection, size: uword) returns (crc: uword)
    requires p.Valid() && size <= p.inbuf.Length
    ensures crc == Crc.CrcOf(p.headerInbuf[..] + p.inbuf[..size] + p.crcInbuf[..], 0)
  {
    crc := Crc.Crc16(p.headerInbuf, 0, 10, 0);
    crc := Crc.Crc16(p.inbuf, 0, size, crc);
    crc := Crc.Crc16(p.crcInbuf, 0, 2, crc);
    assert p.headerInbuf[0..10] == p.headerInbuf[..] && p.crcInbuf[0..2] == p.crcInbuf[..];
    assert p.inbuf[0..size] == p.inbuf[..size];
    Crc.CrcConcat(p.headerInbuf[..], p.inbuf[..size], 0);
    Crc.CrcConcat(p.headerInbuf[..] + p.inbuf[..size], p.crcInbuf[..], 0);
  }

  /** Makes the input buffer big enough and clears out the remains of the last packet. */
  method ClearInbuf(p: PConnection, size: uword)
    requires p.Valid()
    modifies p`inbuf, p.inbuf
    ensures p.Valid() && (p.inbuf == old(p.inbuf) || fresh(p.inbuf))
    ensures size <= p.inbuf.Length && forall i :: 0 <= i < p.inbuf.Length ==> p.inbuf[i] == 0
  {
    if size > p.inbuf.Length {
      p.inbuf := new ubyte[size];
    }
    forall i | 0 <= i < p.inbuf.Length {
      p.inbuf[i] := 0;
    }
  }

  /** Reads the body of a packet, and then its CRC. */
  method ReadBody(p: PConnection, size: uword) returns (err: int)
    requires p.Valid()
    modifies p`incoming, p`inbuf, p`palmErrno, p`faults, p.inbuf, p.crcInbuf
    ensures p.faults == old(p.faults) + if err < 0 then 1 else 0
    ensures p.Valid() && (p.inbuf == old(p.inbuf) || fresh(p.inbuf))
    ensures err <= 1 && |p.incoming| <= |old(p.incoming)|
    ensures err < 0 ==> p.palmErrno == System
    ensures err == 0 ==> p.palmErrno == Eof && p.incoming == [] && |old(p.incoming)| < size + 2
    ensures err == 1 ==> p.palmErrno == old(p.palmErrno)
    ensures err == 1 ==> |old(p.incoming)| >= size + 2 && p.incoming == old(p.incoming)[size + 2..]
    ensures err == 1 ==> size <= p.inbuf.Length && p.inbuf[..size] == old(p.incoming)[..size]
    ensures err == 1 ==> forall i :: size <= i < p.inbuf.Length ==> p.inbuf[i] == 0
    ensures err == 1 ==> p.crcInbuf[..] == old(p.incoming)[size..size + 2]
  {
    ghost var s := p.incoming;
    ClearInbuf(p, size);
    ghost var clear := p.inbuf[..];
    err := ReadRest(p, p.inbuf, 0, size);
    if err <= 0 {
      return;
    }
    assert p.inbuf[..] == s[..size] + clear[size..];
    err := ReadRest(p, p.crcInbuf, 0, 2);
  }

  lemma Slices(s: seq<ubyte>, size: nat)
    requires |s| >= 12 + size
    ensures s[10..][..size] == s[10..10 + size]
    ensures s[..12 + size] == s[..10] + s[10..][..size] + s[10..][size..size + 2]
    ensures s[10..][size + 2..] == s[12 + size..]
  {
  }

  /** The rest of a packet whose preamble has been read: 1 when it is for us
      and good, 2 when it is dropped. */
  method ReadPacket(p: PConnection, ghost s: seq<ubyte>) returns (err: int, len: uword)
    requires p.Valid() && s == PREAMBLE + p.incoming && p.headerInbuf[..3] == PREAMBLE
    modifies p`incoming, p`remoteAddr, p`inbuf, p`lastXid, p`palmErrno, p`faults, p.headerInbuf, p.inbuf, p.crcInbuf
    ensures p.faults == old(p.faults) + if err < 0 then 1 else 0
    ensures p.Valid() && (p.inbuf == old(p.inbuf) || fresh(p.inbuf))
    ensures err <= 2 && |p.incoming| <= |old(p.incoming)|
    ensures err < 0 ==> p.palmErrno == System
    ensures err == 0 ==> p.palmErrno == Eof && p.incoming == []
    ensures err == 0 ==> Receive(p.localAddr, old(p.remoteAddr), s) == Starved(p.remoteAddr)
    ensures err != 1 ==> p.lastXid == old(p.lastXid)
    ensures err > 0 ==> p.palmErrno == old(p.palmErrno)
    ensures err == 1 ==> len <= p.inbuf.Length && Receive(p.localAddr, old(p.remoteAddr), s)
                         == Got(p.remoteAddr, p.lastXid, p.inbuf[..len], p.incoming)
    ensures err == 1 ==> forall i :: len <= i < p.inbuf.Length ==> p.inbuf[i] == 0
    ensures err == 2 ==> Receive(p.localAddr, old(p.remoteAddr), s) == Receive(p.localAddr, p.remoteAddr, p.incoming)
  {
    hide Receive, Checksum, Crc.CrcOf;
    len := 0;
    AfterHeader(p.localAddr, p.remoteAddr, s);
    err := ReadRest(p, p.headerInbuf, 3, 10);
    if err <= 0 {
      return;
    }
    assert p.headerInbuf[..] == s[..10] && p.incoming == s[10..];
    var size := p.headerInbuf[6] as int * 0x100 + p.headerInbuf[7] as int;
    p.remoteAddr := Address(p.headerInbuf[5], p.headerInbuf[4]);
    var checksum := HeaderChecksum(p.headerInbuf);
    assert p.headerInbuf[..9] == s[..9];
    if checksum != p.headerInbuf[9] {
      return 2, 0;
    }
    var ignore := p.localAddr != Address(p.headerInbuf[5], p.headerInbuf[3]);
    err := ReadBody(p, size);
    if err <= 0 {
      return;
    }
    Slices(s, size);
    if ignore {
      return 2, 0;
    }
    var myCrc := PacketCrc(p, size);
    if myCrc != 0 {
      return 2, 0;
    }
    p.lastXid := p.headerInbuf[8];
    len := size;
  }

  /** `slp_read`: 1 with a packet in `inbuf`, 0 at end of file, negative on a failed read. */
  method SlpRead(p: PConnection) returns (err: int, len: uword)
    requires p.Valid()
    modifies p`incoming, p`remoteAddr, p`inbuf, p`lastXid, p`palmErrno, p`faults, p.headerInbuf, p.inbuf, p.crcInbuf
    ensures p.faults == old(p.faults) + if err < 0 then 1 else 0
    ensures p.Valid() && (p.inbuf == old(p.inbuf) || fresh(p.inbuf))
    ensures err <= 1 && |p.incoming| <= |old(p.incoming)|
    ensures err < 0 ==> p.palmErrno == System
    ensures err == 0 ==> p.palmErrno == Eof && p.incoming == []
    ensures err == 0 ==> Receive(p.localAddr, old(p.remoteAddr), old(p.incoming)) == Starved(p.remoteAddr)
    ensures err <= 0 ==> p.lastXid == old(p.lastXid)
    ensures err == 1 ==> p.palmErrno == NoErr && |p.incoming| < |old(p.incoming)| && len <= p.inbuf.Length
    ensures err == 1 ==> Receive(p.localAddr, old(p.remoteAddr), old(p.incoming))
                         == Got(p.remoteAddr, p.lastXid, p.inbuf[..len], p.incoming)
    ensures err == 1 ==> forall i :: len <= i < p.inbuf.Length ==> p.inbuf[i] == 0
  {
    hide Receive;
    p.palmErrno := NoErr;
    len := 0;
    while true
      invariant p.Valid() && (p.inbuf == old(p.inbuf) || fresh(p.inbuf))
      invariant |p.incoming| <= |old(p.incoming)|
      invariant p.palmErrno == NoErr && p.lastXid == old(p.lastXid) && p.faults == old(p.faults)
      invariant Receive(p.localAddr, p.remoteAddr, p.incoming) == Receive(p.localAddr, old(p.remoteAddr), old(p.incoming))
      decreases |p.incoming|
    {
      ghost var s := p.incoming;
      err := ReadPreamble(p);
      if err <= 0 {
        return;
      }
      if err == 2 {
        continue;
      }
      err, len := ReadPacket(p, s);
      if err != 2 {
        return;
      }
    }
  }

  // ----- Writing ------------------------------------------------------------

  method BuildHeader(p: PConnection, len: uword) returns (w: nat)
    requires p.Valid() && p.outbuf.Length >= 12
    modifies p.outbuf
    ensures w == 10 && p.outbuf[..10] == Header(p.localAddr, p.remoteAddr, p.xid, len)
  {
    hide Checksum;
    w := PutBytes(p.outbuf, 0, PREAMBLE);
    w := PutUbyte(p.outbuf, w, p.remoteAddr.port);
    w := PutUbyte(p.outbuf, w, p.localAddr.port);
    w := PutUbyte(p.outbuf, w, p.localAddr.protocol);
    w := PutUword(p.outbuf, w, len);
    w := PutUbyte(p.outbuf, w, p.xid);
    assert p.outbuf[..9] == PREAMBLE + [p.remoteAddr.port, p.localAddr.port, p.localAddr.protocol]
                            + UwordBytes(len) + [p.xid];
    var checksum := HeaderChecksum(p.outbuf);
    w := PutUbyte(p.outbuf, w, checksum);
  }

  /** Constructs the packet in the output buffer, which grows when it has to. */
  method BuildPacket(p: PConnection, body: array<ubyte>, len: uword)
    requires p.Valid() && len <= body.Length && body != p.outbuf
    modifies p`outbuf, p.outbuf
    ensures p.Valid() && (p.outbuf == old(p.outbuf) || fresh(p.outbuf))
    ensures p.outbuf.Length >= len + 12
    ensures p.outbuf[..len + 12] == Packet(p.localAddr, p.remoteAddr, p.xid, body[..len])
  {
    hide Crc.CrcOf, Header;
    if p.outbuf.Length < 12 + len {
      p.outbuf := new ubyte[12 + len];
    }
    var w := BuildHeader(p, len);
    w := PutBytes(p.outbuf, w, body[..len]);
    ghost var m := Header(p.localAddr, p.remoteAddr, p.xid, len) + body[..len];
    assert p.outbuf[..w] == m && w == 10 + len;
    var covered := (10 + len) % 0x1_0000;
    var crc := Crc.Crc16(p.outbuf, 0, covered, 0);
    assert p.outbuf[0..covered] == m[..covered];
    w := PutUword(p.outbuf, w, crc);
  }

  lemma WireIsPrefix(local: Address, remote: Address, xid: ubyte, body: seq<ubyte>)
    requires |body| < 0x1_0000
    ensures Wire(local, remote, xid, body) == Packet(local, remote, xid, body)[..(|body| + 12) % 0x1_0000]
  {
  }

  /** `slp_write`: sends `body[..len]` as one packet. */
  method SlpWrite(p: PConnection, body: array<ubyte>, len: uword) returns (err: int)
    requires p.Valid() && len <= body.Length && body != p.outbuf
    modifies p`outbuf, p`outgoing, p`palmErrno, p`faults, p.outbuf
    ensures p.faults == old(p.faults) + if err < 0 then 1 else 0
    ensures p.Valid() && (p.outbuf == old(p.outbuf) || fresh(p.outbuf))
    ensures err >= 0 ==> err == len && p.palmErrno == NoErr
    ensures err >= 0 ==> p.outgoing == old(p.outgoing) + Wire(p.localAddr, p.remoteAddr, p.xid, body[..len])
    ensures err < 0 ==> p.palmErrno == System && old(p.outgoing) <= p.outgoing
    ensures err < 0 ==> p.outgoing <= old(p.outgoing) + Wire(p.localAddr, p.remoteAddr, p.xid, body[..len])
  {
    hide Packet, Wire;
    p.palmErrno := NoErr;
    BuildPacket(p, body, len);
    var want: uword := (12 + len) % 0x1_0000;
    var sent, buf := 0, p.outbuf;
    ghost var wire := Wire(p.localAddr, p.remoteAddr, p.xid, body[..len]);
    WireIsPrefix(p.localAddr, p.remoteAddr, p.xid, body[..len]);
    assert p.outbuf[..want] == p.outbuf[..len + 12][..want] == wire;
    while sent < want
      invariant sent <= want && p.Valid() && p.outbuf == buf && buf.Length >= want && buf[..want] == wire
      invariant p.outgoing == old(p.outgoing) + wire[..sent]
      invariant p.palmErrno == NoErr && p.faults == old(p.faults)
    {
      var n := p.Write(buf, sent, want - sent);
      if n < 0 {
        assert old(p.outgoing) + wire == p.outgoing + wire[sent..];
        return -1;
      }
      assert buf[sent..sent + n] == buf[..want][sent..sent + n] == wire[sent..sent + n];
      assert wire[..sent] + wire[sent..sent + n] == wire[..sent + n];
      sent := sent + n;
    }
    assert wire[..want] == wire;
    err := len;
  }
}
