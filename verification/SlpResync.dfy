/** What the Serial Link Protocol's receiver makes of a stream: packets come
    through whole, everything else is dropped, and dropping stays in step. */
module SlpResync {
  import opened Bytes
  import opened Connection
  import opened Slp
  import Crc

  // ----- More bytes later change nothing ------------------------------------

  /** A packet once received is received the same whatever arrives after it. */
  lemma {:induction false} ReceiveStable(local: Address, remote: Address, s: seq<ubyte>, t: seq<ubyte>)
    requires Receive(local, remote, s).Got?
    ensures var g := Receive(local, remote, s);
            Receive(local, remote, s + t) == g.(rest := g.rest + t)
    decreases |s|
  {
    hide Crc.CrcOf, Checksum;
    var u := s + t;
    if s[0] != 0xbe {
      assert u[1..] == s[1..] + t;
      ReceiveStable(local, remote, s[1..], t);
    } else if s[1] != 0xef {
      assert u[2..] == s[2..] + t;
      ReceiveStable(local, remote, s[2..], t);
    } else if s[2] != 0xed {
      assert u[3..] == s[3..] + t;
      ReceiveStable(local, remote, s[3..], t);
    } else {
      var from := Address(s[5], s[4]);
      assert u[..9] == s[..9];
      if Checksum(s[..9]) != s[9] {
        assert u[10..] == s[10..] + t;
        ReceiveStable(local, from, s[10..], t);
      } else {
        var n := PacketLen(s);
        assert u[..n] == s[..n] && u[n..] == s[n..] + t;
        if Address(s[5], s[3]) != local || Crc.CrcOf(s[..n], 0) != 0 {
          ReceiveStable(local, from, s[n..], t);
        } else {
          assert u[10..n - 2] == s[10..n - 2];
        }
      }
    }
  }

  // ----- What is dropped without losing step --------------------------------

  /** The receiver drops the whole of `s`, and is back to looking for a preamble at its end. */
  predicate Skipped(local: Address, s: seq<ubyte>)
    decreases |s|
  {
    if s == [] then true
    else if s[0] != 0xbe then Skipped(local, s[1..])
    else if |s| == 1 then false
    else if s[1] != 0xef then Skipped(local, s[2..])
    else if |s| == 2 then false
    else if s[2] != 0xed then Skipped(local, s[3..])
    else if |s| < 10 then false
    else if Checksum(s[..9]) != s[9] then Skipped(local, s[10..])
    else if |s| < PacketLen(s) then false
    else
      var n := PacketLen(s);
      (Address(s[5], s[3]) != local || Crc.CrcOf(s[..n], 0) != 0) && Skipped(local, s[n..])
  }

  /** Dropped bytes leave no trace but the remote address. */
  lemma {:induction false} Resync(local: Address, remote: Address, s: seq<ubyte>, t: seq<ubyte>) returns (last: Address)
    requires Skipped(local, s)
    ensures Receive(local, remote, s + t) == Receive(local, last, t)
    ensures Receive(local, remote, s) == Starved(last)
    decreases |s|
  {
    hide Crc.CrcOf, Checksum;
    var u := s + t;
    if s == [] {
      assert u == t;
      last := remote;
    } else if s[0] != 0xbe {
      assert u[1..] == s[1..] + t;
      last := Resync(local, remote, s[1..], t);
    } else if s[1] != 0xef {
      assert u[2..] == s[2..] + t;
      last := Resync(local, remote, s[2..], t);
    } else if s[2] != 0xed {
      assert u[3..] == s[3..] + t;
      last := Resync(local, remote, s[3..], t);
    } else {
      var from := Address(s[5], s[4]);
      assert u[..9] == s[..9];
      if Checksum(s[..9]) != s[9] {
        assert u[10..] == s[10..] + t;
        last := Resync(local, from, s[10..], t);
      } else {
        var n := PacketLen(s);
        assert u[..n] == s[..n] && u[n..] == s[n..] + t;
        last := Resync(local, from, s[n..], t);
      }
    }
  }

  lemma {:induction false} SkippedConcat(local: Address, s: seq<ubyte>, t: seq<ubyte>)
    requires Skipped(local, s) && Skipped(local, t)
    ensures Skipped(local, s + t)
    decreases |s|
  {
    hide Crc.CrcOf, Checksum;
    var u := s + t;
    if s == [] {
      assert u == t;
    } else if s[0] != 0xbe {
      assert u[1..] == s[1..] + t;
      SkippedConcat(local, s[1..], t);
    } else if s[1] != 0xef {
      assert u[2..] == s[2..] + t;
      SkippedConcat(local, s[2..], t);
    } else if s[2] != 0xed {
      assert u[3..] == s[3..] + t;
      SkippedConcat(local, s[3..], t);
    } else {
      assert u[..9] == s[..9];
      if Checksum(s[..9]) != s[9] {
        assert u[10..] == s[10..] + t;
        SkippedConcat(local, s[10..], t);
      } else {
        var n := PacketLen(s);
        assert u[..n] == s[..n] && u[n..] == s[n..] + t;
        SkippedConcat(local, s[n..], t);
      }
    }
  }

  // ----- Line noise -----------------------------------------------------------

  /** How many bytes at the end of `s` are the first of the preamble. */
  function TrailingRun(s: seq<ubyte>): (n: nat)
    ensures n <= |s|
  {
    if s == [] || s[|s| - 1] != 0xbe then 0 else 1 + TrailingRun(s[..|s| - 1])
  }

  lemma {:induction false} RunBehind(c: ubyte, t: seq<ubyte>)
    ensures TrailingRun([c] + t) == if TrailingRun(t) == |t| && c == 0xbe then |t| + 1 else TrailingRun(t)
    decreases |t|
  {
    var s := [c] + t;
    if t == [] {
      assert s[..0] == [];
    } else {
      assert s[..|s| - 1] == [c] + t[..|t| - 1];
      RunBehind(c, t[..|t| - 1]);
    }
  }

  /** Nowhere in `s` do the first two bytes of the preamble follow each other. */
  predicate NoPreamble(s: seq<ubyte>) {
    forall i :: 0 <= i < |s| - 1 ==> s[i] != 0xbe || s[i + 1] != 0xef
  }

  /** Noise in which the preamble does not begin is dropped exactly when the run
      of 0xBE at its end, if there is one, is of even length: the scanner takes
      each 0xBE together with the byte after it. */
  lemma {:induction false} NoiseSkipped(local: Address, s: seq<ubyte>)
    requires NoPreamble(s)
    ensures Skipped(local, s) <==> TrailingRun(s) % 2 == 0
    decreases |s|
  {
    hide Crc.CrcOf, Checksum, PeekUword;
    if s == [] {
    } else if s[0] != 0xbe {
      assert s == [s[0]] + s[1..];
      RunBehind(s[0], s[1..]);
      NoiseSkipped(local, s[1..]);
    } else if |s| == 1 {
      assert s[..0] == [];
    } else {
      var t := s[2..];
      assert s[0] == 0xbe && s[1] != 0xef;
      assert s[1..] == [s[1]] + t && s == [s[0]] + s[1..];
      RunBehind(s[1], t);
      RunBehind(s[0], s[1..]);
      NoiseSkipped(local, t);
    }
  }

  // ----- Packets ----------------------------------------------------------------

  /** A whole packet with a good header: `body` is what its size field announces. */
  predicate GoodHeader(f: seq<ubyte>) {
    |f| >= 12 && f[..3] == PREAMBLE && Checksum(f[..9]) == f[9] && |f| == PacketLen(f)
  }

  function DestOf(f: seq<ubyte>): Address
    requires |f| >= 12
  {
    Address(f[5], f[3])
  }

  /** What the receiver does with a whole packet that has a good header. */
  lemma ReceivePacket(local: Address, remote: Address, f: seq<ubyte>, t: seq<ubyte>)
    requires GoodHeader(f)
    ensures DestOf(f) == local && Crc.CrcOf(f, 0) == 0 ==>
              Receive(local, remote, f + t) == Got(Address(f[5], f[4]), f[8], f[10..|f| - 2], t)
    ensures DestOf(f) != local || Crc.CrcOf(f, 0) != 0 ==>
              Receive(local, remote, f + t) == Receive(local, Address(f[5], f[4]), t)
  {
    hide Receive, Crc.CrcOf, Checksum;
    var u := f + t;
    assert u[..3] == f[..3] && u[..9] == f[..9] && u[..|f|] == f && u[|f|..] == t;
    assert u[10..|f| - 2] == f[10..|f| - 2];
    AfterHeader(local, remote, u);
  }

  lemma PacketSkipped(local: Address, f: seq<ubyte>)
    requires GoodHeader(f) && (DestOf(f) != local || Crc.CrcOf(f, 0) != 0)
    ensures Skipped(local, f)
  {
    hide Crc.CrcOf, Checksum;
    assert f[0] == PREAMBLE[0] && f[1] == PREAMBLE[1] && f[2] == PREAMBLE[2];
    assert f[..|f|] == f && f[|f|..] == [];
    assert Skipped(local, []);
  }

  // ----- Packets that slp_write sent ----------------------------------------

  /** The header `slp_write` builds reads back as what was put in. */
  lemma HeaderFields(local: Address, remote: Address, xid: ubyte, len: uword, after: seq<ubyte>)
    ensures var s := Header(local, remote, xid, len) + after;
            && s[..3] == PREAMBLE && s[3] == remote.port && s[4] == local.port && s[5] == local.protocol
            && PeekUword(s, 6) == len && s[8] == xid && Checksum(s[..9]) == s[9]
  {
    hide Checksum;
    var before := PREAMBLE + [remote.port, local.port, local.protocol];
    var h := before + UwordBytes(len) + [xid];
    var s := Header(local, remote, xid, len) + after;
    assert s[..9] == h;
    assert s == before + UwordBytes(len) + ([xid, s[9]] + after);
    UwordRoundTrip(before, len, [xid, s[9]] + after);
  }

  /** A packet is sound when it is short enough for its counts to fit in a `uword`. */
  lemma PacketIsGood(local: Address, remote: Address, xid: ubyte, body: seq<ubyte>)
    requires |body| <= 65523
    ensures Wire(local, remote, xid, body) == Packet(local, remote, xid, body)
    ensures var f := Packet(local, remote, xid, body);
            && GoodHeader(f) && Crc.CrcOf(f, 0) == 0 && DestOf(f) == Address(local.protocol, remote.port)
            && Address(f[5], f[4]) == local && f[8] == xid && f[10..|f| - 2] == body
  {
    hide Crc.CrcOf, Checksum, Header;
    var h := Header(local, remote, xid, |body|);
    var m := h + body;
    var c := Crc.CrcOf(m, 0);
    var f := m + UwordBytes(c);
    assert m[..|m| % 0x1_0000] == m;
    assert f == h + (body + UwordBytes(c));
    HeaderFields(local, remote, xid, |body|, body + UwordBytes(c));
    Crc.TrailerCheck(m, c / 0x100, c % 0x100, 0);
    assert f[..|f|] == f;
  }

  /** A packet reaches its addressee exactly when its counts fit in a `uword`:
      the longest bodies a caller can pass are cut off on the line. */
  lemma DeliveredIfItFits(local: Address, remote: Address, xid: ubyte, body: seq<ubyte>, peer: Address, seen: Address)
    requires |body| < 0x1_0000 && peer == Address(local.protocol, remote.port)
    ensures Receive(peer, seen, Wire(local, remote, xid, body)) == Got(local, xid, body, []) <==> |body| <= 65523
  {
    var w := Wire(local, remote, xid, body);
    if |body| <= 65523 {
      PacketIsGood(local, remote, xid, body);
      ReceivePacket(peer, seen, w, []);
      assert w + [] == w;
    } else {
      CutPacketStarves(local, remote, xid, body, peer, seen);
    }
  }

  lemma CutPacketStarves(local: Address, remote: Address, xid: ubyte, body: seq<ubyte>, peer: Address, seen: Address)
    requires 65523 < |body| < 0x1_0000
    ensures Receive(peer, seen, Wire(local, remote, xid, body)).Starved?
  {
    hide Crc.CrcOf, Checksum, Header;
    var h := Header(local, remote, xid, |body|);
    var m := h + body;
    var f := Packet(local, remote, xid, body);
    var w := Wire(local, remote, xid, body);
    var after := body + UwordBytes(Crc.CrcOf(m[..|m| % 0x1_0000], 0));
    assert f == h + after;
    HeaderFields(local, remote, xid, |body|, after);
    assert |w| == |body| + 12 - 0x1_0000 && w == f[..|w|];
    assert f[0] == PREAMBLE[0] && f[1] == PREAMBLE[1] && f[2] == PREAMBLE[2];
    if |w| >= 10 {
      assert w[..3] == f[..3] && w[..9] == f[..9] && PeekUword(w, 6) == |body|;
      AfterHeader(peer, seen, w);
    }
  }

  /** What may stand between packets: noise that the scanner drops, whole packets
      for others, and whole packets hit by a burst of errors in body or CRC. */
  datatype Junk =
    | Noise(bytes: seq<ubyte>)
    | Foreign(packet: seq<ubyte>)
    | Damaged(packet: seq<ubyte>, errors: seq<ubyte>, at: nat)
  {
    ghost predicate Fits(local: Address) {
      match this
      case Noise(b) => Skipped(local, b)
      case Foreign(f) => GoodHeader(f) && DestOf(f) != local
      case Damaged(f, e, at) =>
        && GoodHeader(f) && Crc.CrcOf(f, 0) == 0 && |e| == |f| && Crc.Burst(e, at)
        && forall i :: 0 <= i < 10 ==> e[i] == 0
    }

    ghost function OnTheLine(local: Address): seq<ubyte>
      requires Fits(local)
    {
      match this
      case Noise(b) => b
      case Foreign(f) => f
      case Damaged(f, e, _) => Crc.Flip(f, e)
    }
  }

  ghost function Stream(local: Address, junk: seq<Junk>): seq<ubyte>
    requires forall j :: j in junk ==> j.Fits(local)
  {
    if junk == [] then [] else junk[0].OnTheLine(local) + Stream(local, junk[1..])
  }

  lemma XorByteZero(a: ubyte)
    ensures Crc.XorByte(a, 0) == a
  {
    Crc.UbyteRoundTrip(a);
    assert (a as bv8) ^ 0 == a as bv8;
  }

  /** A burst of at most sixteen bits in the body or the CRC of a packet costs that packet and no more. */
  lemma DamagedSkipped(local: Address, f: seq<ubyte>, e: seq<ubyte>, at: nat)
    requires Damaged(f, e, at).Fits(local)
    ensures Skipped(local, Crc.Flip(f, e))
  {
    hide Crc.CrcOf, Checksum, Crc.XorByte, Crc.Burst;
    var g := Crc.Flip(f, e);
    forall i | 0 <= i < 10
      ensures g[i] == f[i]
    {
      XorByteZero(f[i]);
    }
    assert g[..9] == f[..9] && g[..3] == f[..3];
    Crc.BurstDetected(f, e, at);
    PacketSkipped(local, g);
  }

  lemma {:induction false} StreamSkipped(local: Address, junk: seq<Junk>)
    requires forall j :: j in junk ==> j.Fits(local)
    ensures Skipped(local, Stream(local, junk))
  {
    if junk != [] {
      hide GoodHeader, Skipped, Crc.CrcOf, Crc.Burst, Crc.Flip;
      var j := junk[0];
      assert j in junk && j.Fits(local);
      match j {
        case Noise(_) =>
        case Foreign(f) => PacketSkipped(local, f);
        case Damaged(f, e, at) => DamagedSkipped(local, f, e, at);
      }
      StreamSkipped(local, junk[1..]);
      SkippedConcat(local, j.OnTheLine(local), Stream(local, junk[1..]));
    }
  }

  // ----- Exactly what may stand before a packet ---------------------------------------

  /** A packet that is received is no longer than what it is received from. */
  lemma {:induction false} ReceivedFits(local: Address, seen: Address, u: seq<ubyte>)
    ensures var g := Receive(local, seen, u);
            g.Got? ==> |g.body| + 12 + |g.rest| <= |u| && |g.body| < 0x1_0000
    decreases |u|
  {
    hide Crc.CrcOf, Checksum, PeekUword;
    if u == [] {
    } else if u[0] != 0xbe {
      ReceivedFits(local, seen, u[1..]);
    } else if |u| == 1 {
    } else if u[1] != 0xef {
      ReceivedFits(local, seen, u[2..]);
    } else if |u| == 2 {
    } else if u[2] != 0xed {
      ReceivedFits(local, seen, u[3..]);
    } else if |u| >= 10 {
      var from := Address(u[5], u[4]);
      if Checksum(u[..9]) != u[9] {
        ReceivedFits(local, from, u[10..]);
      } else if |u| >= PacketLen(u) {
        ReceivedFits(local, from, u[PacketLen(u)..]);
      }
    }
  }

  /** What is received is not the packet that fills the bytes `t` from their beginning. */
  predicate OutOfStep(g: Reception, t: seq<ubyte>) {
    g.Got? ==> |g.rest| >= |t| || |g.body| + 12 + |g.rest| != |t|
  }

  /** Whatever the receiver reads past the end of `s`, it has lost step with `t`. */
  lemma LosesStep(local: Address, seen: Address, s: seq<ubyte>, t: seq<ubyte>, k: nat)
    requires |s| < k <= |s| + |t|
    ensures OutOfStep(Receive(local, seen, (s + t)[k..]), t)
  {
    hide Receive;
    ReceivedFits(local, seen, (s + t)[k..]);
  }

  lemma OutsideIsOut(g: Reception, t: seq<ubyte>)
    requires g.Got? ==> |g.rest| >= |t| || |g.body| + 12 + |g.rest| > |t|
    ensures OutOfStep(g, t)
  {
  }

  /** Behind bytes that are not skipped, no packet is received at its beginning. */
  lemma {:induction false} NotSkippedLoses(local: Address, seen: Address, s: seq<ubyte>, t: seq<ubyte>)
    requires !Skipped(local, s)
    ensures OutOfStep(Receive(local, seen, s + t), t)
    decreases |s|, 1
  {
    hide Crc.CrcOf, Checksum, OutOfStep;
    var u := s + t;
    OutsideIsOut(Starved(seen), t);
    if s[0] != 0xbe {
      assert u[1..] == s[1..] + t;
      NotSkippedLoses(local, seen, s[1..], t);
    } else if |u| == 1 {
    } else if u[1] != 0xef {
      if |s| < 2 {
        LosesStep(local, seen, s, t, 2);
      } else {
        assert u[2..] == s[2..] + t;
        NotSkippedLoses(local, seen, s[2..], t);
      }
    } else if |u| == 2 {
    } else if u[2] != 0xed {
      if |s| < 3 {
        LosesStep(local, seen, s, t, 3);
      } else {
        assert u[3..] == s[3..] + t;
        NotSkippedLoses(local, seen, s[3..], t);
      }
    } else if |u| >= 10 {
      NotSkippedHeader(local, seen, s, t);
    }
  }

  /** The same, where `s` and `t` together begin with a header. */
  lemma {:induction false} NotSkippedHeader(local: Address, seen: Address, s: seq<ubyte>, t: seq<ubyte>)
    requires !Skipped(local, s) && |s + t| >= 10
    requires (s + t)[0] == 0xbe && (s + t)[1] == 0xef && (s + t)[2] == 0xed
    ensures OutOfStep(Receive(local, seen, s + t), t)
    decreases |s|, 0
  {
    hide Crc.CrcOf, Checksum, OutOfStep;
    var u := s + t;
    var from := Address(u[5], u[4]);
    OutsideIsOut(Starved(from), t);
    if Checksum(u[..9]) != u[9] {
      if |s| < 10 {
        LosesStep(local, from, s, t, 10);
      } else {
        assert u[..9] == s[..9] && u[10..] == s[10..] + t;
        NotSkippedLoses(local, from, s[10..], t);
      }
    } else if |u| >= PacketLen(u) {
      var n := PacketLen(u);
      if Address(u[5], u[3]) == local && Crc.CrcOf(u[..n], 0) == 0 {
        OutsideIsOut(Got(from, u[8], u[10..n - 2], u[n..]), t);
      } else if |s| < n {
        LosesStep(local, from, s, t, n);
      } else {
        assert u[..9] == s[..9] && u[..n] == s[..n] && u[n..] == s[n..] + t;
        NotSkippedLoses(local, from, s[n..], t);
      }
    }
  }

  /** A packet arrives intact behind the bytes `s`, whatever follows it, exactly
      when the receiver drops `s` and is then at its end. */
  lemma ArrivesIffSkipped(local: Address, seen: Address, s: seq<ubyte>, sender: Address, dest: Address,
                          xid: ubyte, body: seq<ubyte>, after: seq<ubyte>)
    requires |body| <= 65523 && local == Address(sender.protocol, dest.port)
    ensures Receive(local, seen, s + (Wire(sender, dest, xid, body) + after)) == Got(sender, xid, body, after)
            <==> Skipped(local, s)
  {
    hide Receive, Skipped, Wire, Packet, Crc.CrcOf, GoodHeader;
    var w := Wire(sender, dest, xid, body);
    PacketIsGood(sender, dest, xid, body);
    if Skipped(local, s) {
      var last := Resync(local, seen, s, w + after);
      ReceivePacket(local, last, w, after);
    } else {
      NotSkippedLoses(local, seen, s, w + after);
      PacketLength(sender, dest, xid, body);
    }
  }

  /** After any junk at all, the next good packet for us arrives intact. */
  lemma NextPacketArrives(local: Address, seen: Address, junk: seq<Junk>, sender: Address, dest: Address,
                          xid: ubyte, body: seq<ubyte>, after: seq<ubyte>)
    requires forall j :: j in junk ==> j.Fits(local)
    requires |body| <= 65523 && local == Address(sender.protocol, dest.port)
    ensures Receive(local, seen, Stream(local, junk) + (Wire(sender, dest, xid, body) + after)) == Got(sender, xid, body, after)
  {
    hide Receive, Skipped, Wire;
    StreamSkipped(local, junk);
    ArrivesIffSkipped(local, seen, Stream(local, junk), sender, dest, xid, body, after);
  }

  lemma PacketLength(local: Address, remote: Address, xid: ubyte, body: seq<ubyte>)
    requires |body| <= 65523
    ensures |Wire(local, remote, xid, body)| == |body| + 12
  {
    hide Packet;
  }

  /** Two inputs for it: a 0xBE with another byte behind it is dropped; a 0xBE
      right before a packet swallows its first byte. */
  lemma StrayPreambleByte(local: Address, seen: Address, b: ubyte, sender: Address, dest: Address,
                          xid: ubyte, body: seq<ubyte>, after: seq<ubyte>)
    requires |body| <= 65523 && local == Address(sender.protocol, dest.port) && b != 0xef && b != 0xbe
    ensures var rest := Wire(sender, dest, xid, body) + after;
            && Receive(local, seen, [0xbe, b] + rest) == Got(sender, xid, body, after)
            && Receive(local, seen, [0xbe] + rest) != Got(sender, xid, body, after)
  {
    var s: seq<ubyte> := [0xbe, b];
    assert s[2..] == [] && Skipped(local, []);
    assert Skipped(local, s) && !Skipped(local, [0xbe]);
    hide Receive, Wire;
    ArrivesIffSkipped(local, seen, s, sender, dest, xid, body, after);
    ArrivesIffSkipped(local, seen, [0xbe], sender, dest, xid, body, after);
  }

  lemma {:induction false} NoiseStarves(local: Address, seen: Address, s: seq<ubyte>)
    requires NoPreamble(s)
    ensures Receive(local, seen, s) == Starved(seen)
    decreases |s|
  {
    if s == [] {
    } else if s[0] != 0xbe {
      NoiseStarves(local, seen, s[1..]);
    } else if |s| > 1 {
      assert s[1] != 0xef;
      NoiseStarves(local, seen, s[2..]);
    }
  }
}
