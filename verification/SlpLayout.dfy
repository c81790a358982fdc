/** The packets of the Serial Link Protocol byte by byte: as they are put on the
    line, and as they are recognised on it. */
module SlpLayout {
  import opened Bytes
  import opened Connection
  import opened Slp
  import opened SlpResync
  import Crc

  // ----- The checksum of a header -------------------------------------------------

  function Sum(s: seq<ubyte>): nat {
    if s == [] then 0 else s[0] + Sum(s[1..])
  }

  lemma {:induction false} SumConcat(s: seq<ubyte>, t: seq<ubyte>)
    ensures Sum(s + t) == Sum(s) + Sum(t)
  {
    if s == [] {
      assert s + t == t;
    } else {
      assert (s + t)[1..] == s[1..] + t;
      SumConcat(s[1..], t);
    }
  }

  lemma LowByte(a: nat, b: nat)
    ensures (a % 256 + b) % 256 == (a + b) % 256
  {
  }

  lemma LowBytes(a: nat, b: nat)
    ensures (a % 256 + b % 256) % 256 == (a + b) % 256
  {
    LowByte(a, b % 256);
    LowByte(b, a);
  }

  /** The checksum is the sum of the bytes, of which a byte has room for the low eight bits. */
  lemma {:induction false} ChecksumIsSum(s: seq<ubyte>)
    ensures Checksum(s) == Sum(s) % 256
    decreases |s|
  {
    if s != [] {
      var init, last := s[..|s| - 1], s[|s| - 1];
      ChecksumIsSum(init);
      assert s == init + [last] && [last][1..] == [];
      SumConcat(init, [last]);
      assert Sum([last]) == last;
      LowByte(Sum(init), last);
      assert Checksum(s) == (Checksum(init) as int + last) % 256;
      hide *;
    }
  }

  lemma ChecksumConcat(s: seq<ubyte>, t: seq<ubyte>)
    ensures Checksum(s + t) == (Checksum(s) as int + Checksum(t)) % 256
  {
    ChecksumIsSum(s);
    ChecksumIsSum(t);
    ChecksumIsSum(s + t);
    SumConcat(s, t);
    LowBytes(Sum(s), Sum(t));
    hide *;
  }

  lemma SumChanged(s: seq<ubyte>, i: nat, b: ubyte)
    requires i < |s|
    ensures Sum(s[i := b]) - Sum(s) == b as int - s[i]
  {
    var front, back := s[..i], s[i + 1..];
    assert s == front + ([s[i]] + back) && s[i := b] == front + ([b] + back);
    assert ([s[i]] + back)[1..] == back && ([b] + back)[1..] == back;
    SumConcat(front, [s[i]] + back);
    SumConcat(front, [b] + back);
  }

  lemma NearbyDiffer(a: int, d: int)
    requires -256 < d < 256 && d != 0
    ensures (a + d) % 256 != a % 256
  {
  }

  /** Changing exactly one byte always changes the checksum. */
  lemma ByteChanged(s: seq<ubyte>, i: nat, b: ubyte)
    requires i < |s| && b != s[i]
    ensures Checksum(s[i := b]) != Checksum(s)
  {
    SumChanged(s, i, b);
    ChecksumIsSum(s);
    ChecksumIsSum(s[i := b]);
    NearbyDiffer(Sum(s), b as int - s[i]);
    assert Sum(s[i := b]) == Sum(s) + (b as int - s[i]);
    hide *;
  }

  /** So a packet with one wrong byte in its header, behind the preamble, is not
      taken: the reader looks for the next preamble behind that header. */
  lemma DamagedHeaderDropped(local: Address, seen: Address, f: seq<ubyte>, t: seq<ubyte>, i: nat, b: ubyte)
    requires GoodHeader(f) && 3 <= i < 10 && b != f[i]
    ensures var g := f[i := b];
            Receive(local, seen, g + t) == Receive(local, Address(g[5], g[4]), g[10..] + t)
  {
    hide Receive, Checksum, Crc.CrcOf, PeekUword;
    var g := f[i := b];
    var u := g + t;
    if i < 9 {
      ByteChanged(f[..9], i, b);
      assert g[..9] == f[..9][i := b];
    } else {
      assert g[..9] == f[..9];
    }
    assert u[..9] == g[..9] && u[..3] == f[..3] && u[10..] == g[10..] + t;
    AfterHeader(local, seen, u);
  }

  // ----- Packets on the line ----------------------------------------------------------

  /** A whole packet stands in `s` at `k`: the preamble be ef ed; the destination
      port, the source port and the protocol; the length of the body, high byte
      first; the transaction id; the sum of these nine; the body; and a CRC which
      leaves nothing over. */
  predicate PacketAt(s: seq<ubyte>, k: nat, sender: Address, dest: Address, xid: ubyte, body: seq<ubyte>) {
    && k + 12 + |body| <= |s|
    && s[k] == 0xbe && s[k + 1] == 0xef && s[k + 2] == 0xed
    && s[k + 3] == dest.port && s[k + 4] == sender.port && s[k + 5] == sender.protocol == dest.protocol
    && s[k + 6] as int * 256 + s[k + 7] == |body| && s[k + 8] == xid
    && s[k + 9] == Sum(s[k..k + 9]) % 256
    && s[k + 10..k + 10 + |body|] == body
    && Crc.CrcOf(s[k..k + 12 + |body|], 0) == 0
  }

  /** What `slp_write` puts on the line is a packet. */
  lemma WireIsPacket(local: Address, remote: Address, xid: ubyte, body: seq<ubyte>)
    requires |body| <= 65523
    ensures var w := Wire(local, remote, xid, body);
            |w| == 12 + |body| && PacketAt(w, 0, local, Address(local.protocol, remote.port), xid, body)
  {
    hide Crc.CrcOf, Checksum, Packet, Wire, Sum;
    var w := Wire(local, remote, xid, body);
    PacketLength(local, remote, xid, body);
    PacketIsGood(local, remote, xid, body);
    ChecksumIsSum(w[..9]);
    assert w[0..9] == w[..9] && w[0..|w|] == w && w[10..|w| - 2] == w[10..10 + |body|];
    assert w[..3][0] == 0xbe && w[..3][1] == 0xef && w[..3][2] == 0xed;
  }

  /** A packet for the receiver, at the beginning of what is on the line, is received. */
  lemma PacketReceived(local: Address, seen: Address, s: seq<ubyte>, sender: Address, xid: ubyte, body: seq<ubyte>)
    requires PacketAt(s, 0, sender, local, xid, body)
    ensures Receive(local, seen, s) == Got(sender, xid, body, s[12 + |body|..])
  {
    hide Crc.CrcOf, Checksum, Sum, Receive;
    ChecksumIsSum(s[..9]);
    assert s[0..9] == s[..9] && s[0..12 + |body|] == s[..12 + |body|];
    assert PacketLen(s) == 12 + |body|;
    assert s[..3] == PREAMBLE;
    AfterHeader(local, seen, s);
  }

  lemma PacketBehind(s: seq<ubyte>, n: nat, k: nat, sender: Address, dest: Address, xid: ubyte, body: seq<ubyte>)
    requires n <= |s| && PacketAt(s[n..], k, sender, dest, xid, body)
    ensures PacketAt(s, n + k, sender, dest, xid, body)
    ensures s[n..][k + 12 + |body|..] == s[n + k + 12 + |body|..]
  {
    hide Crc.CrcOf, Sum;
    var u := s[n..];
    assert u[k..k + 9] == s[n + k..n + k + 9];
    assert u[k + 10..k + 10 + |body|] == s[n + k + 10..n + k + 10 + |body|];
    assert u[k..k + 12 + |body|] == s[n + k..n + k + 12 + |body|];
  }

  /** And nothing is received that is not a packet for the receiver, somewhere on the line. */
  lemma {:induction false} ReceivedIsPacket(local: Address, seen: Address, s: seq<ubyte>) returns (k: nat)
    requires Receive(local, seen, s).Got?
    ensures var g := Receive(local, seen, s);
            && PacketAt(s, k, g.remote, local, g.xid, g.body) && g.rest == s[k + 12 + |g.body|..]
    decreases |s|
  {
    hide Crc.CrcOf, Checksum, Sum, PacketAt;
    var g := Receive(local, seen, s);
    var n, from := 0, seen;
    if s[0] != 0xbe {
      n := 1;
    } else if s[1] != 0xef {
      n := 2;
    } else if s[2] != 0xed {
      n := 3;
    } else if Checksum(s[..9]) != s[9] {
      n, from := 10, Address(s[5], s[4]);
    } else if Address(s[5], s[3]) != local || Crc.CrcOf(s[..PacketLen(s)], 0) != 0 {
      n, from := PacketLen(s), Address(s[5], s[4]);
    }
    if n > 0 {
      assert Receive(local, from, s[n..]) == g;
      var j := ReceivedIsPacket(local, from, s[n..]);
      PacketBehind(s, n, j, g.remote, local, g.xid, g.body);
      k := n + j;
    } else {
      k := 0;
      ThisPacket(local, s, g);
    }
  }

  lemma ThisPacket(local: Address, s: seq<ubyte>, g: Reception)
    requires |s| >= 10 && s[0] == 0xbe && s[1] == 0xef && s[2] == 0xed && Checksum(s[..9]) == s[9] && |s| >= PacketLen(s)
    requires Address(s[5], s[3]) == local && Crc.CrcOf(s[..PacketLen(s)], 0) == 0
    requires g == Got(Address(s[5], s[4]), s[8], s[10..PacketLen(s) - 2], s[PacketLen(s)..])
    ensures PacketAt(s, 0, g.remote, local, g.xid, g.body) && g.rest == s[12 + |g.body|..]
  {
    hide Crc.CrcOf, Checksum, Sum;
    ChecksumIsSum(s[..9]);
    assert s[0..9] == s[..9] && s[0..PacketLen(s)] == s[..PacketLen(s)];
  }
}
