/** libpconn/crc.c: the table-driven 16-bit CRC that guards every SLP packet,
    with the CCITT generator x^16 + x^12 + x^5 + 1 (section 2 of ITU-T
    Recommendation V.41). */
module Crc {
  import opened Bytes

  /** The table of the source, one line of its text per row. */
  const ICRCTB: seq<seq<bv16>> := [
    [0x0000, 0x1021, 0x2042, 0x3063, 0x4084, 0x50a5, 0x60c6, 0x70e7],
    [0x8108, 0x9129, 0xa14a, 0xb16b, 0xc18c, 0xd1ad, 0xe1ce, 0xf1ef],
    [0x1231, 0x0210, 0x3273, 0x2252, 0x52b5, 0x4294, 0x72f7, 0x62d6],
    [0x9339, 0x8318, 0xb37b, 0xa35a, 0xd3bd, 0xc39c, 0xf3ff, 0xe3de],
    [0x2462, 0x3443, 0x0420, 0x1401, 0x64e6, 0x74c7, 0x44a4, 0x5485],
    [0xa56a, 0xb54b, 0x8528, 0x9509, 0xe5ee, 0xf5cf, 0xc5ac, 0xd58d],
    [0x3653, 0x2672, 0x1611, 0x0630, 0x76d7, 0x66f6, 0x5695, 0x46b4],
    [0xb75b, 0xa77a, 0x9719, 0x8738, 0xf7df, 0xe7fe, 0xd79d, 0xc7bc],
    [0x48c4, 0x58e5, 0x6886, 0x78a7, 0x0840, 0x1861, 0x2802, 0x3823],
    [0xc9cc, 0xd9ed, 0xe98e, 0xf9af, 0x8948, 0x9969, 0xa90a, 0xb92b],
    [0x5af5, 0x4ad4, 0x7ab7, 0x6a96, 0x1a71, 0x0a50, 0x3a33, 0x2a12],
    [0xdbfd, 0xcbdc, 0xfbbf, 0xeb9e, 0x9b79, 0x8b58, 0xbb3b, 0xab1a],
    [0x6ca6, 0x7c87, 0x4ce4, 0x5cc5, 0x2c22, 0x3c03, 0x0c60, 0x1c41],
    [0xedae, 0xfd8f, 0xcdec, 0xddcd, 0xad2a, 0xbd0b, 0x8d68, 0x9d49],
    [0x7e97, 0x6eb6, 0x5ed5, 0x4ef4, 0x3e13, 0x2e32, 0x1e51, 0x0e70],
    [0xff9f, 0xefbe, 0xdfdd, 0xcffc, 0xbf1b, 0xaf3a, 0x9f59, 0x8f78],
    [0x9188, 0x81a9, 0xb1ca, 0xa1eb, 0xd10c, 0xc12d, 0xf14e, 0xe16f],
    [0x1080, 0x00a1, 0x30c2, 0x20e3, 0x5004, 0x4025, 0x7046, 0x6067],
    [0x83b9, 0x9398, 0xa3fb, 0xb3da, 0xc33d, 0xd31c, 0xe37f, 0xf35e],
    [0x02b1, 0x1290, 0x22f3, 0x32d2, 0x4235, 0x5214, 0x6277, 0x7256],
    [0xb5ea, 0xa5cb, 0x95a8, 0x8589, 0xf56e, 0xe54f, 0xd52c, 0xc50d],
    [0x34e2, 0x24c3, 0x14a0, 0x0481, 0x7466, 0x6447, 0x5424, 0x4405],
    [0xa7db, 0xb7fa, 0x8799, 0x97b8, 0xe75f, 0xf77e, 0xc71d, 0xd73c],
    [0x26d3, 0x36f2, 0x0691, 0x16b0, 0x6657, 0x7676, 0x4615, 0x5634],
    [0xd94c, 0xc96d, 0xf90e, 0xe92f, 0x99c8, 0x89e9, 0xb98a, 0xa9ab],
    [0x5844, 0x4865, 0x7806, 0x6827, 0x18c0, 0x08e1, 0x3882, 0x28a3],
    [0xcb7d, 0xdb5c, 0xeb3f, 0xfb1e, 0x8bf9, 0x9bd8, 0xabbb, 0xbb9a],
    [0x4a75, 0x5a54, 0x6a37, 0x7a16, 0x0af1, 0x1ad0, 0x2ab3, 0x3a92],
    [0xfd2e, 0xed0f, 0xdd6c, 0xcd4d, 0xbdaa, 0xad8b, 0x9de8, 0x8dc9],
    [0x7c26, 0x6c07, 0x5c64, 0x4c45, 0x3ca2, 0x2c83, 0x1ce0, 0x0cc1],
    [0xef1f, 0xff3e, 0xcf5d, 0xdf7c, 0xaf9b, 0xbfba, 0x8fd9, 0x9ff8],
    [0x6e17, 0x7e36, 0x4e55, 0x5e74, 0x2e93, 0x3eb2, 0x0ed1, 0x1ef0]
  ]

  /** Entry `i` of the table. */
  function Icrctb(i: bv16): bv16
    requires i < 256
  {
    ICRCTB[(i >> 3) as int][(i & 7) as int]
  }

  // Exclusive or under a name of its own, so that a proof can treat the sums
  // of registers as terms instead of taking their bits apart.
  function Xor(a: bv16, b: bv16): bv16 { a ^ b }

  function Index(v: bv16, c: bv16): bv16 { v ^ (c >> 8) }

  function Up(v: bv16): bv16 { v << 8 }

  function LowHalf(c: bv16): bv16 { c & 0xff }

  lemma IndexIsByte(v: bv16, c: bv16)
    requires v < 256
    ensures Index(v, c) < 256
  {
  }

  /** One turn of the loop: `crc = icrctb[*buf++ ^ (crc >> 8)] ^ ((crc & 0xff) << 8)`. */
  function CrcStep(c: bv16, b: ubyte): bv16 {
    IndexIsByte(b as bv16, c);
    Xor(Icrctb(Index(b as bv16, c)), Up(LowHalf(c)))
  }

  function CrcFrom(s: seq<ubyte>, c: bv16): bv16 {
    if s == [] then c else CrcFrom(s[1..], CrcStep(c, s[0]))
  }

  // ----- A register as a `uword` and back, by halves ----------------------

  function High(c: bv16): bv8 { (c >> 8) as bv8 }

  function Low(c: bv16): bv8 { (c & 0xff) as bv8 }

  function Join(h: bv8, l: bv8): bv16 { ((h as bv16) << 8) | (l as bv16) }

  lemma Halves(h: bv8, l: bv8)
    ensures High(Join(h, l)) == h && Low(Join(h, l)) == l
  {
  }

  lemma JoinHalves(c: bv16)
    ensures Join(High(c), Low(c)) == c
  {
  }

  lemma ByteRoundTrip(b: bv8)
    ensures (b as int) as bv8 == b
  {
  }

  lemma UbyteRoundTrip(b: ubyte)
    ensures (b as bv16) as int == b && (b as bv16) < 256 && (b as bv8) as int == b && (b as bv8) as bv16 == b as bv16
  {
  }

  function ToWord(c: bv16): uword {
    (High(c) as int) * 0x100 + (Low(c) as int)
  }

  function FromWord(w: uword): bv16 {
    Join((w / 0x100) as bv8, (w % 0x100) as bv8)
  }

  lemma RegisterRoundTrip(c: bv16)
    ensures FromWord(ToWord(c)) == c
  {
    var h, l := High(c) as int, Low(c) as int;
    assert (h * 0x100 + l) / 0x100 == h && (h * 0x100 + l) % 0x100 == l;
    ByteRoundTrip(High(c));
    ByteRoundTrip(Low(c));
    JoinHalves(c);
  }

  lemma WordRoundTrip(w: uword)
    ensures ToWord(FromWord(w)) == w
  {
    UbyteRoundTrip(w / 0x100);
    UbyteRoundTrip(w % 0x100);
    Halves((w / 0x100) as bv8, (w % 0x100) as bv8);
  }

  /** The value of `crc16(s, |s|, start)`. */
  function CrcOf(s: seq<ubyte>, start: uword): uword {
    ToWord(CrcFrom(s, FromWord(start)))
  }

  method Crc16(buf: array<ubyte>, from: nat, len: uword, start: uword) returns (crc: uword)
    requires from + len <= buf.Length
    ensures crc == CrcOf(buf[from..from + len], start)
  {
    hide CrcStep, FromWord, ToWord;
    var c := FromWord(start);
    var left: int, p := len, from;
    while left > 0
      invariant 0 <= left <= len && p == from + len - left
      invariant CrcFrom(buf[p..from + len], c) == CrcFrom(buf[from..from + len], FromWord(start))
    {
      assert buf[p..from + len][1..] == buf[p + 1..from + len];
      c := CrcStep(c, buf[p]);
      p, left := p + 1, left - 1;
    }
    crc := ToWord(c);
  }

  // ----- The register, one bit at a time ----------------------------------

  predicate TopSet(c: bv16) { c & 0x8000 != 0 }

  function Twice(c: bv16): bv16 { c << 1 }

  function Generator(top: bool): bv16 { if top then 0x1021 else 0 }

  /** The register after a zero bit: what leaves at the top is taken out with the generator. */
  function Shift(c: bv16): bv16 { Xor(Twice(c), Generator(TopSet(c))) }

  function Unshift(c: bv16): bv16 {
    if c & 1 != 0 then ((c ^ 0x1021) >> 1) | 0x8000 else c >> 1
  }

  lemma TopXor(a: bv16, b: bv16)
    ensures TopSet(Xor(a, b)) == (TopSet(a) != TopSet(b))
  {
  }

  lemma GeneratorXor(p: bool, q: bool)
    ensures Generator(p != q) == Xor(Generator(p), Generator(q))
  {
  }

  lemma TwiceXor(a: bv16, b: bv16)
    ensures Twice(Xor(a, b)) == Xor(Twice(a), Twice(b))
  {
  }

  lemma XorCommutes(p: bv16, q: bv16)
    ensures Xor(p, q) == Xor(q, p)
  {
  }

  lemma XorAssociates(p: bv16, q: bv16, r: bv16)
    ensures Xor(p, Xor(q, r)) == Xor(Xor(p, q), r)
  {
  }

  lemma XorMiddle(p: bv16, q: bv16, r: bv16, s: bv16)
    ensures Xor(Xor(p, q), Xor(r, s)) == Xor(Xor(p, r), Xor(q, s))
  {
    hide Xor;
    XorAssociates(p, q, Xor(r, s));
    XorAssociates(q, r, s);
    XorCommutes(q, r);
    XorAssociates(r, q, s);
    XorAssociates(p, r, Xor(q, s));
  }

  lemma ShiftLinear(a: bv16, b: bv16)
    ensures Shift(Xor(a, b)) == Xor(Shift(a), Shift(b))
  {
    hide Xor, Twice, Generator, TopSet;
    TopXor(a, b);
    GeneratorXor(TopSet(a), TopSet(b));
    TwiceXor(a, b);
    XorMiddle(Twice(a), Twice(b), Generator(TopSet(a)), Generator(TopSet(b)));
  }

  lemma EvenBack(c: bv16)
    requires c & 0x8000 == 0
    ensures (c << 1) & 1 == 0 && (c << 1) >> 1 == c
  {
  }

  lemma OddBack(c: bv16)
    requires c & 0x8000 != 0
    ensures ((c << 1) ^ 0x1021) & 1 != 0
    ensures ((((c << 1) ^ 0x1021) ^ 0x1021) >> 1) | 0x8000 == c
  {
  }

  /** A zero bit can be taken back, so no two registers ever meet. */
  lemma ShiftInvertible(c: bv16)
    ensures Unshift(Shift(c)) == c
  {
    if c & 0x8000 == 0 {
      EvenBack(c);
      assert Shift(c) == c << 1;
    } else {
      OddBack(c);
      assert Shift(c) == (c << 1) ^ 0x1021;
    }
  }

  function ShiftN(c: bv16, n: nat): bv16
    decreases n
  {
    if n == 0 then c else ShiftN(Shift(c), n - 1)
  }

  lemma {:induction false} ShiftNLinear(a: bv16, b: bv16, n: nat)
    ensures ShiftN(Xor(a, b), n) == Xor(ShiftN(a, n), ShiftN(b, n))
    decreases n
  {
    if n > 0 {
      ShiftLinear(a, b);
      ShiftNLinear(Shift(a), Shift(b), n - 1);
    }
  }

  lemma {:induction false} ShiftNInjective(a: bv16, b: bv16, n: nat)
    requires ShiftN(a, n) == ShiftN(b, n)
    ensures a == b
    decreases n
  {
    if n > 0 {
      ShiftNInjective(Shift(a), Shift(b), n - 1);
      ShiftInvertible(a);
      ShiftInvertible(b);
    }
  }

  lemma {:induction false} ShiftNZero(n: nat)
    ensures ShiftN(0, n) == 0
    decreases n
  {
    if n > 0 {
      assert Shift(0) == 0;
      ShiftNZero(n - 1);
    }
  }

  lemma {:induction false} ShiftNShift(c: bv16, n: nat)
    ensures ShiftN(Shift(c), n) == Shift(ShiftN(c, n))
    decreases n
  {
    if n > 0 {
      ShiftNShift(Shift(c), n - 1);
    }
  }

  // ----- The table holds the remainders of the 256 bytes ------------------

  function Shift8(c: bv16): bv16 {
    Shift(Shift(Shift(Shift(Shift(Shift(Shift(Shift(c))))))))
  }

  lemma Shift8IsShiftN(c: bv16)
    ensures Shift8(c) == ShiftN(c, 8)
  {
    var c1 := Shift(c);
    var c2 := Shift(c1);
    var c3 := Shift(c2);
    var c4 := Shift(c3);
    var c5 := Shift(c4);
    var c6 := Shift(c5);
    var c7 := Shift(c6);
    assert ShiftN(c6, 2) == ShiftN(c7, 1) == ShiftN(Shift(c7), 0);
    assert ShiftN(c, 8) == ShiftN(c1, 7) == ShiftN(c2, 6) == ShiftN(c3, 5);
    assert ShiftN(c3, 5) == ShiftN(c4, 4) == ShiftN(c5, 3) == ShiftN(c6, 2);
  }

  /** The remainder of a byte, assembled from those of its bits. */
  function Remainder8(i: bv16): bv16 {
    (if i & 1 != 0 then 0x1021 else 0) ^ (if i & 2 != 0 then 0x2042 else 0) ^
    (if i & 4 != 0 then 0x4084 else 0) ^ (if i & 8 != 0 then 0x8108 else 0) ^
    (if i & 16 != 0 then 0x1231 else 0) ^ (if i & 32 != 0 then 0x2462 else 0) ^
    (if i & 64 != 0 then 0x48c4 else 0) ^ (if i & 128 != 0 then 0x9188 else 0)
  }

  lemma Remainder8IsShift8(i: bv16)
    requires i < 256
    ensures Remainder8(i) == Shift8(Up(i))
  {
  }

  /** Entry `n` of the line `r` of the table is the remainder of the byte `i | m`. */
  predicate Divides(r: seq<bv16>, i: bv16, n: nat, m: bv16) {
    n < |r| && r[n] == Remainder8(i | m)
  }

  predicate LineDivides(r: seq<bv16>, i: bv16) {
    && Divides(r, i, 0, 0) && Divides(r, i, 1, 1) && Divides(r, i, 2, 2) && Divides(r, i, 3, 3)
    && Divides(r, i, 4, 4) && Divides(r, i, 5, 5) && Divides(r, i, 6, 6) && Divides(r, i, 7, 7)
  }

  lemma Lines0()
    ensures LineDivides(ICRCTB[0], 0) && LineDivides(ICRCTB[1], 8)
  {
  }

  lemma Lines2()
    ensures LineDivides(ICRCTB[2], 16) && LineDivides(ICRCTB[3], 24)
  {
  }

  lemma Lines4()
    ensures LineDivides(ICRCTB[4], 32) && LineDivides(ICRCTB[5], 40)
  {
  }

  lemma Lines6()
    ensures LineDivides(ICRCTB[6], 48) && LineDivides(ICRCTB[7], 56)
  {
  }

  lemma Lines8()
    ensures LineDivides(ICRCTB[8], 64) && LineDivides(ICRCTB[9], 72)
  {
  }

  lemma Lines10()
    ensures LineDivides(ICRCTB[10], 80) && LineDivides(ICRCTB[11], 88)
  {
  }

  lemma Lines12()
    ensures LineDivides(ICRCTB[12], 96) && LineDivides(ICRCTB[13], 104)
  {
  }

  lemma Lines14()
    ensures LineDivides(ICRCTB[14], 112) && LineDivides(ICRCTB[15], 120)
  {
  }

  lemma Lines16()
    ensures LineDivides(ICRCTB[16], 128) && LineDivides(ICRCTB[17], 136)
  {
  }

  lemma Lines18()
    ensures LineDivides(ICRCTB[18], 144) && LineDivides(ICRCTB[19], 152)
  {
  }

  lemma Lines20()
    ensures LineDivides(ICRCTB[20], 160) && LineDivides(ICRCTB[21], 168)
  {
  }

  lemma Lines22()
    ensures LineDivides(ICRCTB[22], 176) && LineDivides(ICRCTB[23], 184)
  {
  }

  lemma Lines24()
    ensures LineDivides(ICRCTB[24], 192) && LineDivides(ICRCTB[25], 200)
  {
  }

  lemma Lines26()
    ensures LineDivides(ICRCTB[26], 208) && LineDivides(ICRCTB[27], 216)
  {
  }

  lemma Lines28()
    ensures LineDivides(ICRCTB[28], 224) && LineDivides(ICRCTB[29], 232)
  {
  }

  lemma Lines30()
    ensures LineDivides(ICRCTB[30], 240) && LineDivides(ICRCTB[31], 248)
  {
  }

  lemma LineOk0(k: bv16)
    requires k < 8
    ensures LineDivides(ICRCTB[k as int], k << 3)
  {
    if k < 2 {
      Lines0();
      assert k == 0 || k == 1;
    } else if k < 4 {
      Lines2();
      assert k == 2 || k == 3;
    } else if k < 6 {
      Lines4();
      assert k == 4 || k == 5;
    } else {
      Lines6();
      assert k == 6 || k == 7;
    }
  }

  lemma LineOk8(k: bv16)
    requires 8 <= k < 16
    ensures LineDivides(ICRCTB[k as int], k << 3)
  {
    if k < 10 {
      Lines8();
      assert k == 8 || k == 9;
    } else if k < 12 {
      Lines10();
      assert k == 10 || k == 11;
    } else if k < 14 {
      Lines12();
      assert k == 12 || k == 13;
    } else {
      Lines14();
      assert k == 14 || k == 15;
    }
  }

  lemma LineOk16(k: bv16)
    requires 16 <= k < 24
    ensures LineDivides(ICRCTB[k as int], k << 3)
  {
    if k < 18 {
      Lines16();
      assert k == 16 || k == 17;
    } else if k < 20 {
      Lines18();
      assert k == 18 || k == 19;
    } else if k < 22 {
      Lines20();
      assert k == 20 || k == 21;
    } else {
      Lines22();
      assert k == 22 || k == 23;
    }
  }

  lemma LineOk24(k: bv16)
    requires 24 <= k < 32
    ensures LineDivides(ICRCTB[k as int], k << 3)
  {
    if k < 26 {
      Lines24();
      assert k == 24 || k == 25;
    } else if k < 28 {
      Lines26();
      assert k == 26 || k == 27;
    } else if k < 30 {
      Lines28();
      assert k == 28 || k == 29;
    } else {
      Lines30();
      assert k == 30 || k == 31;
    }
  }

  lemma LineOk(k: bv16)
    requires k < 32
    ensures LineDivides(ICRCTB[k as int], k << 3)
  {
    if k < 8 {
      LineOk0(k);
    } else if k < 16 {
      LineOk8(k);
    } else if k < 24 {
      LineOk16(k);
    } else {
      LineOk24(k);
    }
  }

  lemma SmallIndex(j: bv16)
    requires j < 8
    ensures j == 0 || j == 1 || j == 2 || j == 3 || j == 4 || j == 5 || j == 6 || j == 7
  {
  }

  lemma LineEntry(r: seq<bv16>, i: bv16, j: bv16)
    requires LineDivides(r, i) && j < 8
    ensures Divides(r, i, j as int, j)
  {
    hide Divides;
    SmallIndex(j);
  }

  lemma EntryIsRemainder(i: bv16)
    requires i < 256
    ensures Icrctb(i) == Remainder8(i)
  {
    hide Remainder8, LineDivides;
    var k, j := i >> 3, i & 7;
    LineOk(k);
    LineEntry(ICRCTB[k as int], k << 3, j);
    assert (k << 3) | j == i;
  }

  /** Every entry of the table is the remainder of its index, found bit by bit. */
  lemma TableIsDivision(i: bv16)
    requires i < 256
    ensures Icrctb(i) == ShiftN(Up(i), 8)
  {
    hide Remainder8, Icrctb;
    EntryIsRemainder(i);
    Remainder8IsShift8(i);
    Shift8IsShiftN(Up(i));
  }

  // ----- A byte through the table is eight bits through the register ------

  lemma UpXor(a: bv16, b: bv16)
    ensures Up(a ^ b) == Xor(Up(a), Up(b))
  {
  }

  lemma TwoHalves(c: bv16)
    ensures c == Xor(Up(c >> 8), LowHalf(c))
  {
  }

  lemma SplitRegister(v: bv16, c: bv16)
    ensures Xor(c, Up(v)) == Xor(Up(Index(v, c)), LowHalf(c))
  {
    hide Xor, Up, LowHalf;
    UpXor(v, c >> 8);
    TwoHalves(c);
    XorAssociates(Up(v), Up(c >> 8), LowHalf(c));
    XorCommutes(c, Up(v));
  }

  lemma LowHalfShifts(l: bv16)
    requires l < 256
    ensures Shift8(l) == Up(l)
  {
  }

  lemma LowHalfIsByte(c: bv16)
    ensures LowHalf(c) < 256
  {
  }

  /** One turn of the loop is eight shifts of the register with the byte on top. */
  lemma StepIsShifts(c: bv16, b: ubyte)
    ensures CrcStep(c, b) == ShiftN(Xor(c, Up(b as bv16)), 8)
  {
    hide Xor, Up, Index, LowHalf, Icrctb, ShiftN, Shift8;
    UbyteRoundTrip(b);
    var v := b as bv16;
    var index, low := Index(v, c), LowHalf(c);
    IndexIsByte(v, c);
    SplitRegister(v, c);
    TableIsDivision(index);
    LowHalfIsByte(c);
    LowHalfShifts(low);
    Shift8IsShiftN(low);
    ShiftNLinear(Up(index), low, 8);
  }

  function Top(b: bool): bv16 { if b then 0x8000 else 0 }

  /** The register after one bit, fed in at its top. */
  function FeedBit(c: bv16, b: bool): bv16 { Shift(Xor(c, Top(b))) }

  function Feed(c: bv16, bits: seq<bool>): bv16
    decreases |bits|
  {
    if bits == [] then c else Feed(FeedBit(c, bits[0]), bits[1..])
  }

  /** The `n` leading bits of a byte, the most significant first. */
  function LeadingBits(v: bv16, n: nat): (r: seq<bool>)
    ensures |r| == n
    decreases n
  {
    if n == 0 then [] else [v & 128 != 0] + LeadingBits(Dropped(v), n - 1)
  }

  function Dropped(v: bv16): bv16 { (v << 1) & 0xff }

  function DroppedN(v: bv16, n: nat): bv16
    decreases n
  {
    if n == 0 then v else DroppedN(Dropped(v), n - 1)
  }

  function BitsOf(s: seq<ubyte>): (r: seq<bool>)
    ensures |r| == 8 * |s|
  {
    if s == [] then [] else LeadingBits(s[0] as bv16, 8) + BitsOf(s[1..])
  }

  lemma SplitByte(v: bv16)
    requires v < 256
    ensures Up(v) == Xor(Top(v & 128 != 0), Up(v & 0x7f))
  {
  }

  lemma SmallShifts(v: bv16)
    requires v < 256
    ensures Shift(Up(v & 0x7f)) == Up(Dropped(v))
  {
  }

  lemma DroppedIsByte(v: bv16)
    ensures Dropped(v) < 256
  {
  }

  lemma {:induction false} ShiftsFeed(c: bv16, v: bv16, n: nat)
    requires v < 256
    ensures ShiftN(Xor(c, Up(v)), n) == Xor(Feed(c, LeadingBits(v, n)), Up(DroppedN(v, n)))
    decreases n
  {
    if n > 0 {
      var b, w := v & 128 != 0, Dropped(v);
      SplitByte(v);
      SmallShifts(v);
      DroppedIsByte(v);
      XorAssociates(c, Top(b), Up(v & 0x7f));
      ShiftLinear(Xor(c, Top(b)), Up(v & 0x7f));
      assert Shift(Xor(c, Up(v))) == Xor(FeedBit(c, b), Up(w));
      ShiftsFeed(FeedBit(c, b), w, n - 1);
      assert LeadingBits(v, n)[1..] == LeadingBits(w, n - 1);
    }
  }

  lemma AllDropped(v: bv16)
    ensures Dropped(Dropped(Dropped(Dropped(Dropped(Dropped(Dropped(Dropped(v)))))))) == 0
  {
  }

  lemma DroppedAll(v: bv16)
    ensures DroppedN(v, 8) == 0
  {
    AllDropped(v);
    hide Dropped;
    var d2 := Dropped(Dropped(v));
    var d5 := Dropped(Dropped(Dropped(d2)));
    assert DroppedN(v, 8) == DroppedN(d2, 6) == DroppedN(Dropped(d2), 5);
    assert DroppedN(Dropped(d2), 5) == DroppedN(Dropped(Dropped(d2)), 4) == DroppedN(d5, 3);
    assert DroppedN(d5, 3) == DroppedN(Dropped(d5), 2) == DroppedN(Dropped(Dropped(d5)), 1);
    assert DroppedN(Dropped(Dropped(d5)), 1) == DroppedN(Dropped(Dropped(Dropped(d5))), 0);
  }

  lemma XorZero(c: bv16)
    ensures Xor(c, Up(0)) == c && Xor(c, Top(false)) == c && Xor(c, 0) == c
  {
  }

  lemma StepIsFeed(c: bv16, b: ubyte)
    ensures CrcStep(c, b) == Feed(c, LeadingBits(b as bv16, 8))
  {
    hide Xor, Up, Dropped, DroppedN, CrcStep, Feed, LeadingBits, ShiftN;
    var v := b as bv16;
    StepIsShifts(c, b);
    ShiftsFeed(c, v, 8);
    DroppedAll(v);
    UbyteRoundTrip(b);
    XorZero(Feed(c, LeadingBits(v, 8)));
  }

  lemma {:induction false} FeedConcat(c: bv16, x: seq<bool>, y: seq<bool>)
    ensures Feed(c, x + y) == Feed(Feed(c, x), y)
    decreases |x|
  {
    if x == [] {
      assert x + y == y;
    } else {
      assert (x + y)[1..] == x[1..] + y;
      FeedConcat(FeedBit(c, x[0]), x[1..], y);
    }
  }

  /** The table-driven loop computes what the bit-by-bit register computes. */
  lemma {:induction false} CrcIsFeed(s: seq<ubyte>, c: bv16)
    ensures CrcFrom(s, c) == Feed(c, BitsOf(s))
    decreases |s|
  {
    if s != [] {
      StepIsFeed(c, s[0]);
      CrcIsFeed(s[1..], CrcStep(c, s[0]));
      FeedConcat(c, LeadingBits(s[0] as bv16, 8), BitsOf(s[1..]));
    }
  }

  // ----- Schoolbook division of the message polynomial --------------------

  /** Bring down the next bit; when the coefficient of x^16 leaves the
      remainder, subtract x^16 + x^12 + x^5 + 1. */
  function DivideStep(r: bv16, b: bool): bv16 {
    Xor(Xor(Twice(r), Bottom(b)), Generator(TopSet(r)))
  }

  /** The remainder of the polynomial whose coefficients follow `r`. */
  function LongDivide(r: bv16, bits: seq<bool>): bv16
    decreases |bits|
  {
    if bits == [] then r else LongDivide(DivideStep(r, bits[0]), bits[1..])
  }

  function Zeros(n: nat): (r: seq<bool>)
    ensures |r| == n && forall i :: 0 <= i < n ==> !r[i]
  {
    seq(n, _ => false)
  }

  function Bottom(b: bool): bv16 { if b then 1 else 0 }

  lemma DivideStepIsShift(r: bv16, b: bool)
    ensures DivideStep(r, b) == Xor(Shift(r), Bottom(b))
  {
    hide Xor, Twice, Bottom, Generator, TopSet;
    var t, g := Twice(r), Generator(TopSet(r));
    XorAssociates(t, Bottom(b), g);
    XorCommutes(Bottom(b), g);
    XorAssociates(t, g, Bottom(b));
  }

  lemma OneReachesTop()
    ensures ShiftN(1, 16) == Shift(0x8000)
  {
    assert Shift(1) == 2 && Shift(2) == 4 && Shift(4) == 8 && Shift(8) == 16;
    assert Shift(16) == 32 && Shift(32) == 64 && Shift(64) == 128 && Shift(128) == 256;
    assert Shift(256) == 512 && Shift(512) == 1024 && Shift(1024) == 2048 && Shift(2048) == 4096;
    assert Shift(4096) == 8192 && Shift(8192) == 16384 && Shift(16384) == 0x8000;
    assert ShiftN(1, 16) == ShiftN(2, 15) == ShiftN(4, 14) == ShiftN(8, 13) == ShiftN(16, 12);
    assert ShiftN(16, 12) == ShiftN(32, 11) == ShiftN(64, 10) == ShiftN(128, 9) == ShiftN(256, 8);
    assert ShiftN(256, 8) == ShiftN(512, 7) == ShiftN(1024, 6) == ShiftN(2048, 5) == ShiftN(4096, 4);
    assert ShiftN(4096, 4) == ShiftN(8192, 3) == ShiftN(16384, 2) == ShiftN(0x8000, 1);
    assert ShiftN(0x8000, 1) == ShiftN(Shift(0x8000), 0);
  }

  lemma BottomReachesTop(b: bool)
    ensures ShiftN(Bottom(b), 16) == Shift(Top(b))
  {
    if b {
      OneReachesTop();
    } else {
      ShiftNZero(16);
      assert Shift(0) == 0;
    }
  }

  /** Dividing first and shifting afterwards is feeding at the top. */
  lemma {:induction false} DivideThenShift(c: bv16, bits: seq<bool>) returns (r: bv16)
    ensures LongDivide(c, bits) == r
    ensures ShiftN(r, 16) == Feed(ShiftN(c, 16), bits)
    decreases |bits|
  {
    if bits == [] {
      r := c;
    } else {
      var b := bits[0];
      DivideStepIsShift(c, b);
      ShiftNLinear(Shift(c), Bottom(b), 16);
      ShiftNShift(c, 16);
      BottomReachesTop(b);
      ShiftLinear(ShiftN(c, 16), Top(b));
      assert ShiftN(Xor(Shift(c), Bottom(b)), 16) == FeedBit(ShiftN(c, 16), b);
      r := DivideThenShift(Xor(Shift(c), Bottom(b)), bits[1..]);
    }
  }

  lemma {:induction false} DivideZeros(c: bv16, n: nat)
    ensures LongDivide(c, Zeros(n)) == ShiftN(c, n)
    decreases n
  {
    if n > 0 {
      DivideStepIsShift(c, false);
      XorZero(Shift(c));
      DivideZeros(Shift(c), n - 1);
      assert Zeros(n)[1..] == Zeros(n - 1);
    }
  }

  lemma {:induction false} DivideConcat(r: bv16, x: seq<bool>, y: seq<bool>)
    ensures LongDivide(r, x + y) == LongDivide(LongDivide(r, x), y)
    decreases |x|
  {
    if x == [] {
      assert x + y == y;
    } else {
      assert (x + y)[1..] == x[1..] + y;
      DivideConcat(DivideStep(r, x[0]), x[1..], y);
    }
  }

  /** `crc16` from zero is the remainder of the message times x^16 on division
      by x^16 + x^12 + x^5 + 1. */
  lemma CrcIsPolynomialRemainder(s: seq<ubyte>)
    ensures LongDivide(0, BitsOf(s) + Zeros(16)) == CrcFrom(s, 0)
  {
    var bits := BitsOf(s);
    CrcIsFeed(s, 0);
    var r := DivideThenShift(0, bits);
    ShiftNZero(16);
    DivideZeros(r, 16);
    DivideConcat(0, bits, Zeros(16));
  }

  /** The generator is that of CRC-CCITT, x^16 + x^12 + x^5 + 1: what is left of the
      byte 1. Bits come with the highest first, and bytes in their order. */
  lemma GeneratorIsCcitt()
    ensures CrcOf([1], 0) == 0x1021 && CrcOf([2], 0) == 0x2042 && CrcOf([1, 0], 0) == 0x3331
  {
    var z: seq<ubyte> := [];
    var zero: seq<ubyte> := [0];
    assert FromWord(0) == 0;
    assert CrcStep(0, 1) == 0x1021 && CrcStep(0, 2) == 0x2042 && CrcStep(0x1021, 0) == 0x3331;
    assert ToWord(0x1021) == 0x1021 && ToWord(0x2042) == 0x2042 && ToWord(0x3331) == 0x3331;
    hide CrcStep, ToWord, FromWord;
    assert CrcFrom(z, 0x1021) == 0x1021 && CrcFrom(z, 0x2042) == 0x2042 && CrcFrom(z, 0x3331) == 0x3331;
    var one: seq<ubyte> := [1];
    var two: seq<ubyte> := [2];
    var both: seq<ubyte> := [1, 0];
    assert one[1..] == z && two[1..] == z && both[1..] == zero && zero[1..] == z;
    assert CrcFrom(zero, 0x1021) == 0x3331;
    assert CrcFrom(one, 0) == 0x1021 && CrcFrom(two, 0) == 0x2042 && CrcFrom(both, 0) == 0x3331;
  }

  // ----- Concatenation and the trailing CRC -------------------------------

  lemma {:induction false} CrcFromConcat(x: seq<ubyte>, y: seq<ubyte>, c: bv16)
    ensures CrcFrom(x + y, c) == CrcFrom(y, CrcFrom(x, c))
    decreases |x|
  {
    if x == [] {
      assert x + y == y;
    } else {
      assert (x + y)[1..] == x[1..] + y;
      CrcFromConcat(x[1..], y, CrcStep(c, x[0]));
    }
  }

  /** A CRC over several buffers is taken one buffer at a time. */
  lemma CrcConcat(x: seq<ubyte>, y: seq<ubyte>, start: uword)
    ensures CrcOf(x + y, start) == CrcOf(y, CrcOf(x, start))
  {
    CrcFromConcat(x, y, FromWord(start));
    RegisterRoundTrip(CrcFrom(x, FromWord(start)));
  }

  lemma XorSelf(a: bv16)
    ensures Xor(a, a) == 0 && Xor(0, a) == a
  {
  }

  lemma XorCancels(a: bv16, b: bv16)
    ensures Xor(Xor(a, b), b) == a
  {
    hide Xor;
    XorAssociates(a, b, b);
    XorSelf(b);
    XorZero(a);
  }

  lemma XorIsZero(a: bv16, b: bv16)
    ensures Xor(a, b) == 0 <==> a == b
  {
    hide Xor;
    XorSelf(b);
    XorCancels(a, b);
  }

  lemma ShiftNIsZero(c: bv16, n: nat)
    ensures ShiftN(c, n) == 0 <==> c == 0
  {
    ShiftNZero(n);
    if ShiftN(c, n) == 0 {
      ShiftNInjective(c, 0, n);
    }
  }

  lemma JoinIsXor(h: bv8, l: bv8)
    ensures Join(h, l) == Xor(Up(h as bv16), l as bv16)
  {
  }

  lemma RegisterOfBytes(h: ubyte, l: ubyte)
    ensures FromWord(h as int * 0x100 + l) == Xor(Up(h as bv16), l as bv16)
  {
    hide Xor, Up, Join;
    var w := h as int * 0x100 + l;
    assert w / 0x100 == h && w % 0x100 == l;
    UbyteRoundTrip(h);
    UbyteRoundTrip(l);
    JoinIsXor(h as bv8, l as bv8);
  }

  lemma ZeroWord()
    ensures FromWord(0) == 0 && ToWord(0) == 0
  {
  }

  lemma TwoSteps(c: bv16, h: ubyte, l: ubyte)
    ensures CrcStep(CrcStep(c, h), l) == ShiftN(ShiftN(Xor(c, Xor(Up(h as bv16), l as bv16)), 8), 8)
  {
    hide Xor, Up, CrcStep, ShiftN, Shift8;
    var x, y := h as bv16, l as bv16;
    StepIsShifts(c, h);
    StepIsShifts(CrcStep(c, h), l);
    LowHalfShifts(y);
    Shift8IsShiftN(y);
    ShiftNLinear(Xor(c, Up(x)), y, 8);
    XorAssociates(c, Up(x), y);
  }

  /** A buffer followed by two bytes has residue zero exactly when the two
      bytes are its CRC, the high byte first. */
  lemma TrailerCheck(s: seq<ubyte>, h: ubyte, l: ubyte, start: uword)
    ensures CrcOf(s + [h, l], start) == 0 <==> [h, l] == UwordBytes(CrcOf(s, start))
  {
    hide Xor, Up, ShiftN, CrcStep, ToWord, FromWord;
    var c := CrcFrom(s, FromWord(start));
    CrcFromConcat(s, [h, l], FromWord(start));
    assert [h, l][1..] == [l] && [l][1..] == [];
    assert CrcFrom([h, l], c) == CrcFrom([l], CrcStep(c, h)) == CrcStep(CrcStep(c, h), l);
    TwoSteps(c, h, l);
    var t := Xor(Up(h as bv16), l as bv16);
    ShiftNIsZero(ShiftN(Xor(c, t), 8), 8);
    ShiftNIsZero(Xor(c, t), 8);
    XorIsZero(c, t);
    RegisterOfBytes(h, l);
    var w := h as int * 0x100 + l;
    assert w / 0x100 == h && w % 0x100 == l;
    WordRoundTrip(w);
    RegisterRoundTrip(c);
    RegisterRoundTrip(CrcStep(CrcStep(c, h), l));
    ZeroWord();
    assert UwordBytes(ToWord(c)) == [h, l] <==> ToWord(c) == w;
  }

  // ----- Bursts of errors ---------------------------------------------------

  function XorByte(a: ubyte, b: ubyte): ubyte { ((a as bv8) ^ (b as bv8)) as int }

  /** The bytes `s` with the bits of `e` turned over. */
  function Flip(s: seq<ubyte>, e: seq<ubyte>): (r: seq<ubyte>)
    requires |s| == |e|
    ensures |r| == |s|
  {
    seq(|s|, i requires 0 <= i < |s| => XorByte(s[i], e[i]))
  }

  lemma XorByteWide(a: ubyte, b: ubyte)
    ensures XorByte(a, b) as bv16 == (a as bv16) ^ (b as bv16)
  {
    UbyteRoundTrip(a);
    UbyteRoundTrip(b);
    ByteRoundTrip((a as bv8) ^ (b as bv8));
    UbyteRoundTrip(XorByte(a, b));
  }

  lemma StepLinear(c: bv16, d: bv16, a: ubyte, b: ubyte)
    ensures CrcStep(Xor(c, d), XorByte(a, b)) == Xor(CrcStep(c, a), CrcStep(d, b))
  {
    hide Xor, Up, CrcStep, ShiftN, XorByte;
    var x, y := a as bv16, b as bv16;
    StepIsShifts(c, a);
    StepIsShifts(d, b);
    StepIsShifts(Xor(c, d), XorByte(a, b));
    XorByteWide(a, b);
    UpXor(x, y);
    XorMiddle(c, d, Up(x), Up(y));
    ShiftNLinear(Xor(c, Up(x)), Xor(d, Up(y)), 8);
  }

  /** The CRC of a damaged buffer differs by the CRC of the damage. */
  lemma {:induction false} CrcLinear(s: seq<ubyte>, e: seq<ubyte>, c: bv16, d: bv16)
    requires |s| == |e|
    ensures CrcFrom(Flip(s, e), Xor(c, d)) == Xor(CrcFrom(s, c), CrcFrom(e, d))
    decreases |s|
  {
    if s != [] {
      StepLinear(c, d, s[0], e[0]);
      assert Flip(s, e)[1..] == Flip(s[1..], e[1..]);
      CrcLinear(s[1..], e[1..], CrcStep(c, s[0]), CrcStep(d, e[0]));
    }
  }

  lemma {:induction false} FeedZeros(c: bv16, bits: seq<bool>)
    requires forall i :: 0 <= i < |bits| ==> !bits[i]
    ensures Feed(c, bits) == ShiftN(c, |bits|)
    decreases |bits|
  {
    if bits != [] {
      XorZero(c);
      FeedZeros(Shift(c), bits[1..]);
    }
  }

  /** The low `16 - n` bits of the register. */
  function Mask(n: nat): bv16
    requires n <= 16
  {
    if n == 0 then 0xffff else Mask(n - 1) >> 1
  }

  lemma MaskOdd(n: nat)
    requires n <= 15
    ensures Mask(n) & 1 == 1
  {
    assert Mask(1) == 0x7fff && Mask(2) == 0x3fff && Mask(3) == 0x1fff && Mask(4) == 0xfff;
    assert Mask(5) == 0x7ff && Mask(6) == 0x3ff && Mask(7) == 0x1ff && Mask(8) == 0xff;
    assert Mask(9) == 0x7f && Mask(10) == 0x3f && Mask(11) == 0x1f && Mask(12) == 0xf;
    assert Mask(13) == 7 && Mask(14) == 3 && Mask(15) == 1;
  }

  lemma MaskBack(x: bv16, m: bv16)
    requires m & 1 == 1 && Shift(x) & m == 0
    ensures x & (m >> 1) == 0
  {
  }

  lemma TopAboveMask(c: bv16, b: bool, m: bv16)
    requires Xor(c, Top(b)) & (m >> 1) == 0
    ensures c & (m >> 1) == 0
  {
  }

  /** Only a register whose low `16 - n` bits are zero is cleared by `n` bits. */
  lemma {:induction false} ClearedFrom(c: bv16, bits: seq<bool>)
    requires |bits| <= 16 && Feed(c, bits) == 0
    ensures c & Mask(|bits|) == 0
    decreases |bits|
  {
    hide Xor, Shift, Top;
    if bits == [] {
      assert 0 & Mask(0) == 0;
    } else {
      var n, x := |bits| - 1, Xor(c, Top(bits[0]));
      ClearedFrom(Shift(x), bits[1..]);
      MaskOdd(n);
      MaskBack(x, Mask(n));
      TopAboveMask(c, bits[0], Mask(n));
    }
  }

  /** Fewer than sixteen bits cannot clear a register that holds the generator. */
  lemma NotCleared(bits: seq<bool>)
    requires |bits| <= 15
    ensures Feed(0x1021, bits) != 0
  {
    if Feed(0x1021, bits) == 0 {
      MaskOdd(|bits|);
      OddMeets(Mask(|bits|));
      ClearedFrom(0x1021, bits);
    }
  }

  lemma OddMeets(m: bv16)
    requires m & 1 == 1
    ensures 0x1021 & m != 0
  {
  }

  /** The damage `e` turns over at least one bit, and none outside the sixteen from bit `at` on. */
  ghost predicate Burst(e: seq<ubyte>, at: nat) {
    var bits := BitsOf(e);
    && (exists i :: 0 <= i < |bits| && bits[i])
    && (forall i :: 0 <= i < |bits| && bits[i] ==> at <= i < at + 16)
  }

  lemma FirstBit(rest: seq<bool>)
    ensures Feed(0, [true] + rest) == Feed(0x1021, rest)
  {
    assert FeedBit(0, true) == 0x1021;
    assert ([true] + rest)[1..] == rest;
  }

  lemma FeedBurst(before: seq<bool>, middle: seq<bool>, after: seq<bool>)
    requires |middle| <= 15
    requires (forall i :: 0 <= i < |before| ==> !before[i]) && (forall i :: 0 <= i < |after| ==> !after[i])
    ensures Feed(0, before + ([true] + (middle + after))) != 0
  {
    hide Feed, ShiftN;
    FeedConcat(0, before, [true] + (middle + after));
    FeedZeros(0, before);
    ShiftNZero(|before|);
    FirstBit(middle + after);
    FeedConcat(0x1021, middle, after);
    NotCleared(middle);
    FeedZeros(Feed(0x1021, middle), after);
    ShiftNIsZero(Feed(0x1021, middle), |after|);
  }

  lemma SplitBurst(bits: seq<bool>, at: nat, i: nat) returns (before: seq<bool>, middle: seq<bool>, after: seq<bool>)
    requires i < |bits| && bits[i]
    requires forall k :: 0 <= k < |bits| && bits[k] ==> at <= k < at + 16
    ensures bits == before + ([true] + (middle + after)) && |middle| <= 15
    ensures (forall k :: 0 <= k < |before| ==> !before[k]) && (forall k :: 0 <= k < |after| ==> !after[k])
  {
    var first := FirstSet(bits, i);
    assert at <= first < at + 16;
    var end := if at + 16 <= |bits| then at + 16 else |bits|;
    before, middle, after := bits[..first], bits[first + 1..end], bits[end..];
    assert bits[first..] == [true] + (middle + after);
    forall k | 0 <= k < |after|
      ensures !after[k]
    {
      assert after[k] == bits[end + k];
    }
  }

  lemma BurstLeavesResidue(e: seq<ubyte>, at: nat)
    requires Burst(e, at)
    ensures CrcFrom(e, 0) != 0
  {
    hide Feed, CrcFrom, BitsOf;
    var bits := BitsOf(e);
    var i: nat :| i < |bits| && bits[i];
    var before, middle, after := SplitBurst(bits, at, i);
    CrcIsFeed(e, 0);
    FeedBurst(before, middle, after);
  }

  lemma FirstSet(bits: seq<bool>, i: nat) returns (first: nat)
    requires i < |bits| && bits[i]
    ensures first <= i && bits[first] && forall j :: 0 <= j < first ==> !bits[j]
  {
    first := 0;
    while !bits[first]
      invariant first <= i
      decreases i - first
      invariant forall j :: 0 <= j < first ==> !bits[j]
    {
      first := first + 1;
    }
  }

  /** Whatever its length, a buffer that passed the CRC check fails it once
      a burst of up to sixteen bits has hit it. */
  lemma BurstDetected(s: seq<ubyte>, e: seq<ubyte>, at: nat)
    requires |s| == |e| && CrcOf(s, 0) == 0 && Burst(e, at)
    ensures CrcOf(Flip(s, e), 0) != 0
  {
    hide ToWord, FromWord, CrcFrom, Flip;
    ZeroWord();
    RegisterRoundTrip(CrcFrom(s, 0));
    CrcLinear(s, e, 0, 0);
    BurstLeavesResidue(e, at);
    XorIsZero(0, CrcFrom(e, 0));
    RegisterRoundTrip(CrcFrom(Flip(s, e), 0));
  }
}
