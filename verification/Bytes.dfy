/** The C integer types of include/palm.h and the big-endian accessors of
    libpconn/util.c that every codec of the program rests on. */
module Bytes {

  type ubyte = x: int | 0 <= x < 0x100
  type uword = x: int | 0 <= x < 0x1_0000
  type udword = x: int | 0 <= x < 0x1_0000_0000

  /** The two bytes `put_uword` writes. */
  function UwordBytes(v: uword): (r: seq<ubyte>)
    ensures |r| == 2
  {
    [v / 0x100, v % 0x100]
  }

  /** The four bytes `put_udword` writes. */
  function UdwordBytes(v: udword): (r: seq<ubyte>)
    ensures |r| == 4
  {
    [v / 0x100_0000, v / 0x1_0000 % 0x100, v / 0x100 % 0x100, v % 0x100]
  }

  function PeekUword(b: seq<ubyte>, at: nat): uword
    requires at + 2 <= |b|
  {
    b[at] as int * 0x100 + b[at + 1]
  }

  function PeekUdword(b: seq<ubyte>, at: nat): udword
    requires at + 4 <= |b|
  {
    b[at] as int * 0x100_0000 + b[at + 1] as int * 0x1_0000 + b[at + 2] as int * 0x100 + b[at + 3]
  }

  /** What was put is what is got, wherever it stands in a buffer. */
  lemma UwordRoundTrip(before: seq<ubyte>, v: uword, after: seq<ubyte>)
    ensures PeekUword(before + UwordBytes(v) + after, |before|) == v
  {
    var b := before + UwordBytes(v) + after;
    assert b[|before|] == v / 0x100 && b[|before| + 1] == v % 0x100;
  }

  lemma UdwordDigits(v: udword)
    ensures v == v / 0x100_0000 * 0x100_0000 + v / 0x1_0000 % 0x100 * 0x1_0000 + v / 0x100 % 0x100 * 0x100 + v % 0x100
  {
    var a := v / 0x100;
    var b := a / 0x100;
    assert v / 0x1_0000 == b && v / 0x100_0000 == b / 0x100;
  }

  lemma UdwordRoundTrip(before: seq<ubyte>, v: udword, after: seq<ubyte>)
    ensures PeekUdword(before + UdwordBytes(v) + after, |before|) == v
  {
    var b, n := before + UdwordBytes(v) + after, |before|;
    assert b[n] == UdwordBytes(v)[0] && b[n + 1] == UdwordBytes(v)[1];
    assert b[n + 2] == UdwordBytes(v)[2] && b[n + 3] == UdwordBytes(v)[3];
    UdwordDigits(v);
  }

  /** The first byte in which `a` and `b` differ is smaller in `a`. */
  predicate Before(a: seq<ubyte>, b: seq<ubyte>)
    requires |a| == |b|
  {
    a != [] && (a[0] < b[0] || (a[0] == b[0] && Before(a[1..], b[1..])))
  }

  /** Numbers are ordered as their bytes are, the first byte counting most. */
  lemma UwordOrder(v: uword, w: uword)
    ensures v < w <==> Before(UwordBytes(v), UwordBytes(w))
  {
    var a, b := UwordBytes(v), UwordBytes(w);
    assert a[1..] == [v % 0x100] && b[1..] == [w % 0x100];
    assert a[1..][1..] == [] && b[1..][1..] == [];
    assert Before(a[1..], b[1..]) <==> v % 0x100 < w % 0x100;
  }

  lemma UdwordOrder(v: udword, w: udword)
    ensures v < w <==> Before(UdwordBytes(v), UdwordBytes(w))
  {
    var a, b := UdwordBytes(v), UdwordBytes(w);
    UdwordDigits(v);
    UdwordDigits(w);
    BeforeFour(a, b);
    hide UdwordBytes;
  }

  lemma BeforeFour(a: seq<ubyte>, b: seq<ubyte>)
    requires |a| == 4 && |b| == 4
    ensures Before(a, b) <==>
              a[0] as int * 0x100_0000 + a[1] as int * 0x1_0000 + a[2] as int * 0x100 + a[3]
              < b[0] as int * 0x100_0000 + b[1] as int * 0x1_0000 + b[2] as int * 0x100 + b[3]
  {
    var a1, b1 := a[1..], b[1..];
    var a2, b2 := a1[1..], b1[1..];
    var a3, b3 := a2[1..], b2[1..];
    assert a3[1..] == [] && b3[1..] == [];
    assert Before(a3, b3) <==> a[3] < b[3];
    assert Before(a2, b2) <==> a[2] < b[2] || (a[2] == b[2] && a[3] < b[3]);
    assert Before(a1, b1) <==> a[1] < b[1] || (a[1] == b[1] && Before(a2, b2));
  }

  /** `part` is in `b`, from `at` on. */
  predicate StandsAt(b: seq<ubyte>, at: nat, part: seq<ubyte>) {
    at + |part| <= |b| && b[at..at + |part|] == part
  }

  lemma PartsStand(b: seq<ubyte>, at: nat, x: seq<ubyte>, y: seq<ubyte>)
    requires StandsAt(b, at, x + y)
    ensures StandsAt(b, at, x) && StandsAt(b, at + |x|, y)
  {
    var all := b[at..at + |x + y|];
    assert b[at..at + |x|] == all[..|x|] && b[at + |x|..at + |x| + |y|] == all[|x|..];
  }

  lemma StandsWithin(b: seq<ubyte>, at: nat, whole: seq<ubyte>, off: nat, part: seq<ubyte>)
    requires StandsAt(b, at, whole) && StandsAt(whole, off, part)
    ensures StandsAt(b, at + off, part)
  {
    forall i | 0 <= i < |part|
      ensures b[at + off + i] == part[i]
    {
      assert b[at..at + |whole|][off + i] == whole[off + i] == whole[off..off + |part|][i];
    }
  }

  lemma UwordStands(b: seq<ubyte>, at: nat, v: uword)
    requires StandsAt(b, at, UwordBytes(v))
    ensures PeekUword(b, at) == v
  {
    var part := b[at..at + 2];
    assert part == UwordBytes(v) && part[0] == b[at] && part[1] == b[at + 1];
  }

  lemma UdwordStands(b: seq<ubyte>, at: nat, v: udword)
    requires StandsAt(b, at, UdwordBytes(v))
    ensures PeekUdword(b, at) == v
  {
    assert b[at] == UdwordBytes(v)[0] && b[at + 1] == UdwordBytes(v)[1];
    assert b[at + 2] == UdwordBytes(v)[2] && b[at + 3] == UdwordBytes(v)[3];
    UdwordDigits(v);
  }

  method PutUbyte(buf: array<ubyte>, wptr: nat, v: ubyte) returns (wptr': nat)
    requires wptr + 1 <= buf.Length
    modifies buf
    ensures wptr' == wptr + 1
    ensures buf[..wptr'] == old(buf[..wptr]) + [v]
    ensures buf[wptr'..] == old(buf[wptr + 1..])
  {
    buf[wptr] := v;
    wptr' := wptr + 1;
  }

  method PutUword(buf: array<ubyte>, wptr: nat, v: uword) returns (wptr': nat)
    requires wptr + 2 <= buf.Length
    modifies buf
    ensures wptr' == wptr + 2
    ensures buf[..wptr'] == old(buf[..wptr]) + UwordBytes(v)
    ensures buf[wptr'..] == old(buf[wptr + 2..])
  {
    buf[wptr] := v / 0x100;
    buf[wptr + 1] := v % 0x100;
    wptr' := wptr + 2;
  }

  method PutUdword(buf: array<ubyte>, wptr: nat, v: udword) returns (wptr': nat)
    requires wptr + 4 <= buf.Length
    modifies buf
    ensures wptr' == wptr + 4
    ensures buf[..wptr'] == old(buf[..wptr]) + UdwordBytes(v)
    ensures buf[wptr'..] == old(buf[wptr + 4..])
  {
    buf[wptr] := v / 0x100_0000;
    buf[wptr + 1] := v / 0x1_0000 % 0x100;
    buf[wptr + 2] := v / 0x100 % 0x100;
    buf[wptr + 3] := v % 0x100;
    wptr' := wptr + 4;
  }

  /** `memcpy(buf + wptr, data, |data|)` followed by the pointer bump. */
  method PutBytes(buf: array<ubyte>, wptr: nat, data: seq<ubyte>) returns (wptr': nat)
    requires wptr + |data| <= buf.Length
    modifies buf
    ensures wptr' == wptr + |data|
    ensures buf[..wptr'] == old(buf[..wptr]) + data
    ensures buf[wptr'..] == old(buf[wptr + |data|..])
  {
    for i := 0 to |data|
      invariant buf[..wptr + i] == old(buf[..wptr]) + data[..i]
      invariant buf[wptr + i..] == old(buf[wptr + i..])
    {
      buf[wptr + i] := data[i];
      assert data[..i + 1] == data[..i] + [data[i]];
    }
    wptr' := wptr + |data|;
    assert data[..|data|] == data;
  }
}
