/** libpconn/dlp.c: how the Desktop Link Protocol writes requests and responses
    as bytes and reads them back. */
module Dlp {
  import opened Bytes
  import opened Connection
  import opened Options

  const TINYARG_MAXLEN: nat := 0xff
  const SMALLARG_MAXLEN: nat := 0xffff

  /** An argument to send: `size` is the length of `data`. */
  datatype Arg = Arg(id: uword, data: seq<ubyte>)
  {
    predicate Valid() { |data| < 0x1_0000_0000 }
  }

  type DlpArg = a: Arg | a.Valid() witness Arg(0, [])

  datatype ReqHeader = ReqHeader(id: ubyte, argc: ubyte)

  // ----- Writing ------------------------------------------------------------

  /** Two, four or six bytes, depending on the size; the two high bits say which. */
  function ArgHeader(id: uword, size: udword): (h: seq<ubyte>)
    ensures 2 <= |h| <= 6
  {
    if size <= TINYARG_MAXLEN then [id % 0x40, size]
    else if size <= SMALLARG_MAXLEN then [id % 0x40 + 0x80, 0] + UwordBytes(size)
    else UwordBytes(id % 0x4000 + 0xc000) + UdwordBytes(size)
  }

  function ArgBytes(a: DlpArg): seq<ubyte> {
    ArgHeader(a.id, |a.data|) + a.data
  }

  function ArgsBytes(args: seq<DlpArg>): seq<ubyte> {
    if args == [] then [] else ArgsBytes(args[..|args| - 1]) + ArgBytes(args[|args| - 1])
  }

  function RequestBytes(id: ubyte, args: seq<DlpArg>): seq<ubyte>
    requires |args| < 0x100
  {
    [id, |args|] + ArgsBytes(args)
  }

  function ResponseBytes(id: ubyte, error: uword, args: seq<DlpArg>): seq<ubyte>
    requires |args| < 0x100
  {
    [id % 0x80 + 0x80, |args|] + UwordBytes(error) + ArgsBytes(args)
  }

  // ----- Reading ------------------------------------------------------------

  datatype Parsed = Parsed(slots: seq<DlpSlot>, end: nat)

  /** The argument at `at`. `None`: its header is not all within the input, and
      the code reads past its end. The data need not be within it. */
  function ParseArg(input: seq<ubyte>, at: nat): Option<DlpSlot> {
    if at >= |input| then None
    else if input[at] >= 0xc0 then
      if at + 6 > |input| then None
      else Some(DlpSlot(PeekUword(input, at) % 0x40, PeekUdword(input, at + 2), at + 6))
    else if input[at] >= 0x80 then
      if at + 4 > |input| then None
      else Some(DlpSlot(input[at] % 0x40, PeekUword(input, at + 2), at + 4))
    else if at + 2 > |input| then None
    else Some(DlpSlot(input[at], input[at + 1], at + 2))
  }

  /** `argc` arguments, from `at` on. */
  function ParseArgs(input: seq<ubyte>, at: nat, argc: nat): (r: Option<Parsed>)
    ensures r.Some? ==> |r.value.slots| == argc
  {
    if argc == 0 then Some(Parsed([], at))
    else
      match ParseArgs(input, at, argc - 1)
      case None => None
      case Some(Parsed(slots, rptr)) =>
        match ParseArg(input, rptr)
        case None => None
        case Some(slot) => Some(Parsed(slots + [slot], slot.at + slot.size))
  }

  /** What comes of receiving a message. `PastEnd`: the code reads beyond its end. */
  datatype Outcome<H> =
    | Received(header: H, slots: seq<DlpSlot>)
    | Empty
    | NoResponse
    | WrongId
    | PastEnd

  function ParseRequest(input: seq<ubyte>): Outcome<ReqHeader> {
    if |input| < 2 then PastEnd
    else
      match ParseArgs(input, 2, input[1])
      case None => PastEnd
      case Some(p) => Received(ReqHeader(input[0], input[1]), p.slots)
  }

  function ParseResponse(input: seq<ubyte>, id: ubyte): Outcome<RespHeader> {
    if |input| == 0 then Empty
    else if |input| < 4 then PastEnd
    else if input[0] < 0x80 then NoResponse
    else if input[0] % 0x80 != id then WrongId
    else
      match ParseArgs(input, 4, input[1])
      case None => PastEnd
      case Some(p) => Received(RespHeader(input[0], input[1], PeekUword(input, 2)), p.slots)
  }

  /** What the receiver has for the arguments `args`: their data, their sizes,
      and what is left of their ids. */
  ghost predicate Holds(input: seq<ubyte>, slots: seq<DlpSlot>, args: seq<DlpArg>) {
    && |slots| == |args|
    && forall i :: 0 <= i < |args| ==> HoldsArg(input, slots[i], args[i])
  }

  predicate HoldsArg(input: seq<ubyte>, slot: DlpSlot, a: DlpArg) {
    && slot.id == a.id % 0x40 && slot.size == |a.data|
    && slot.at + slot.size <= |input| && input[slot.at..slot.at + slot.size] == a.data
  }

  // ----- Round trips --------------------------------------------------------

  lemma TinyRoundTrip(before: seq<ubyte>, a: DlpArg, after: seq<ubyte>)
    requires |a.data| <= TINYARG_MAXLEN
    ensures ParseArg(before + ArgHeader(a.id, |a.data|) + after, |before|)
            == Some(DlpSlot(a.id % 0x40, |a.data|, |before| + 2))
  {
    var h, input := ArgHeader(a.id, |a.data|), before + ArgHeader(a.id, |a.data|) + after;
    assert input[|before|] == h[0] && input[|before| + 1] == h[1];
  }

  lemma SmallRoundTrip(before: seq<ubyte>, a: DlpArg, after: seq<ubyte>)
    requires TINYARG_MAXLEN < |a.data| <= SMALLARG_MAXLEN
    ensures ParseArg(before + ArgHeader(a.id, |a.data|) + after, |before|)
            == Some(DlpSlot(a.id % 0x40, |a.data|, |before| + 4))
  {
    hide PeekUdword, UwordBytes, PeekUword;
    var h, input := ArgHeader(a.id, |a.data|), before + ArgHeader(a.id, |a.data|) + after;
    var front: seq<ubyte> := [a.id % 0x40 + 0x80, 0];
    assert input == (before + front) + UwordBytes(|a.data|) + after;
    UwordRoundTrip(before + front, |a.data|, after);
    assert input[|before|] == front[0];
  }

  lemma LongRoundTrip(before: seq<ubyte>, a: DlpArg, after: seq<ubyte>)
    requires SMALLARG_MAXLEN < |a.data|
    ensures ParseArg(before + ArgHeader(a.id, |a.data|) + after, |before|)
            == Some(DlpSlot(a.id % 0x40, |a.data|, |before| + 6))
  {
    hide PeekUdword, PeekUword, UdwordBytes;
    var input := before + ArgHeader(a.id, |a.data|) + after;
    var id: uword := a.id % 0x4000 + 0xc000;
    assert input == before + UwordBytes(id) + (UdwordBytes(|a.data|) + after);
    UwordRoundTrip(before, id, UdwordBytes(|a.data|) + after);
    assert input == (before + UwordBytes(id)) + UdwordBytes(|a.data|) + after;
    UdwordRoundTrip(before + UwordBytes(id), |a.data|, after);
    assert input[|before|] == UwordBytes(id)[0] >= 0xc0;
    SixBits(a.id);
  }

  lemma SixBits(id: uword)
    ensures (id % 0x4000 + 0xc000) % 0x40 == id % 0x40
  {
  }

  /** Wherever an argument stands in a message, it is read back as far as its id
      has room in six bits. */
  lemma ArgRoundTrip(before: seq<ubyte>, a: DlpArg, after: seq<ubyte>)
    ensures var input, r := before + ArgBytes(a) + after, ParseArg(before + ArgBytes(a) + after, |before|);
            && r.Some? && HoldsArg(input, r.value, a)
            && r.value.at + r.value.size == |before| + |ArgBytes(a)|
  {
    var h, n := ArgHeader(a.id, |a.data|), |before|;
    var input := before + ArgBytes(a) + after;
    assert input == before + h + (a.data + after);
    assert |h| == if |a.data| <= TINYARG_MAXLEN then 2 else if |a.data| <= SMALLARG_MAXLEN then 4 else 6;
    hide ArgHeader, ParseArg;
    assert input[n + |h|..n + |h| + |a.data|] == a.data;
    if |a.data| <= TINYARG_MAXLEN {
      TinyRoundTrip(before, a, a.data + after);
    } else if |a.data| <= SMALLARG_MAXLEN {
      SmallRoundTrip(before, a, a.data + after);
    } else {
      LongRoundTrip(before, a, a.data + after);
    }
  }

  lemma HoldsOneMore(input: seq<ubyte>, slots: seq<DlpSlot>, args: seq<DlpArg>, slot: DlpSlot, a: DlpArg)
    requires Holds(input, slots, args) && HoldsArg(input, slot, a)
    ensures Holds(input, slots + [slot], args + [a])
  {
    hide HoldsArg;
  }

  lemma ParseOneMore(input: seq<ubyte>, at: nat, n: nat, p: Parsed, slot: DlpSlot)
    requires ParseArgs(input, at, n) == Some(p) && ParseArg(input, p.end) == Some(slot)
    ensures ParseArgs(input, at, n + 1) == Some(Parsed(p.slots + [slot], slot.at + slot.size))
  {
  }

  lemma ArgsOneMore(args: seq<DlpArg>, a: DlpArg)
    ensures ArgsBytes(args + [a]) == ArgsBytes(args) + ArgBytes(a)
  {
    assert (args + [a])[..|args|] == args;
  }

  lemma ArgStands(input: seq<ubyte>, at: nat, a: DlpArg)
    requires StandsAt(input, at, ArgBytes(a))
    ensures var r := ParseArg(input, at);
            r.Some? && HoldsArg(input, r.value, a) && r.value.at + r.value.size == at + |ArgBytes(a)|
  {
    hide ArgBytes, ParseArg, HoldsArg;
    var before, after := input[..at], input[at + |ArgBytes(a)|..];
    assert input == before + ArgBytes(a) + after;
    ArgRoundTrip(before, a, after);
  }

  lemma {:induction false} ArgsRoundTrip(input: seq<ubyte>, at: nat, args: seq<DlpArg>)
    requires StandsAt(input, at, ArgsBytes(args))
    ensures var r := ParseArgs(input, at, |args|);
            r.Some? && Holds(input, r.value.slots, args) && r.value.end == at + |ArgsBytes(args)|
    decreases |args|
  {
    hide *;
    if args == [] {
      NoArgs(input, at);
    } else {
      var n := |args| - 1;
      var init, last := args[..n], args[n];
      assert init + [last] == args;
      ArgsOneMore(init, last);
      PartsStand(input, at, ArgsBytes(init), ArgBytes(last));
      ArgsRoundTrip(input, at, init);
      var p := ParseArgs(input, at, n).value;
      ArgStands(input, p.end, last);
      var slot := ParseArg(input, p.end).value;
      ParseOneMore(input, at, n, p, slot);
      HoldsOneMore(input, p.slots, init, slot, last);
    }
  }

  lemma NoArgs(input: seq<ubyte>, at: nat)
    ensures ParseArgs(input, at, 0) == Some(Parsed([], at)) && Holds(input, [], []) && ArgsBytes([]) == []
  {
  }

  /** A request is read back with its command, and each argument with its size
      and data. */
  lemma RequestRoundTrip(id: ubyte, args: seq<DlpArg>)
    requires |args| < 0x100
    ensures var input := RequestBytes(id, args);
            var r := ParseRequest(input);
            && r.Received? && r.header == ReqHeader(id, |args|) && Holds(input, r.slots, args)
  {
    hide ParseArgs, ArgsBytes, Holds;
    var input := RequestBytes(id, args);
    assert input[2..2 + |ArgsBytes(args)|] == ArgsBytes(args);
    ArgsRoundTrip(input, 2, args);
  }

  /** So is a response, with its error code, when the command it answers is the
      one expected; otherwise it is refused. */
  lemma ResponseRoundTrip(id: ubyte, error: uword, args: seq<DlpArg>, expected: ubyte)
    requires |args| < 0x100
    ensures var input := ResponseBytes(id, error, args);
            var r := ParseResponse(input, expected);
            if id % 0x80 == expected then
              r.Received? && r.header == RespHeader(id % 0x80 + 0x80, |args|, error) && Holds(input, r.slots, args)
            else
              r == WrongId
  {
    hide ParseArgs, ArgsBytes, Holds;
    var input := ResponseBytes(id, error, args);
    var head: seq<ubyte> := [id % 0x80 + 0x80, |args|];
    assert input == head + UwordBytes(error) + ArgsBytes(args);
    UwordRoundTrip(head, error, ArgsBytes(args));
    assert input[4..4 + |ArgsBytes(args)|] == ArgsBytes(args);
    ArgsRoundTrip(input, 4, args);
  }

  function IdsOf(slots: seq<DlpSlot>): seq<uword> { seq(|slots|, i requires 0 <= i < |slots| => slots[i].id) }

  /** The ids come through exactly when they all fit in six bits, whatever the
      sizes, although long arguments have room for fourteen. */
  lemma IdsRoundTrip(input: seq<ubyte>, slots: seq<DlpSlot>, args: seq<DlpArg>)
    requires Holds(input, slots, args)
    ensures (forall i :: 0 <= i < |args| ==> IdsOf(slots)[i] == args[i].id) <==> (forall a :: a in args ==> a.id < 0x40)
  {
    if forall i :: 0 <= i < |args| ==> IdsOf(slots)[i] == args[i].id {
      forall a | a in args
        ensures a.id < 0x40
      {
        var i :| 0 <= i < |args| && args[i] == a;
        assert HoldsArg(input, slots[i], args[i]);
        assert IdsOf(slots)[i] == slots[i].id;
      }
    } else {
      var i :| 0 <= i < |args| && IdsOf(slots)[i] != args[i].id;
      assert HoldsArg(input, slots[i], args[i]) && args[i] in args;
    }
  }

  // ----- The bytes ----------------------------------------------------------------

  lemma {:induction false} ArgsConcat(x: seq<DlpArg>, y: seq<DlpArg>)
    ensures ArgsBytes(x + y) == ArgsBytes(x) + ArgsBytes(y)
    decreases |y|
  {
    hide ArgBytes;
    if y == [] {
      assert x + y == x && ArgsBytes(y) == [];
    } else {
      var init, last := y[..|y| - 1], y[|y| - 1];
      assert x + y == (x + init) + [last] && y == init + [last];
      ArgsConcat(x, init);
      ArgsOneMore(x + init, last);
      ArgsOneMore(init, last);
    }
  }

  /** A request: the command, the number of arguments, and the arguments in their order. */
  lemma RequestOnLine(id: ubyte, args: seq<DlpArg>)
    requires |args| < 0x100
    ensures var b := RequestBytes(id, args);
            && |b| >= 2 && b[0] == id && b[1] == |args|
            && (args != [] ==> b[2..] == ArgBytes(args[0]) + ArgsBytes(args[1..]))
            && (args == [] ==> |b| == 2)
  {
    OnePlusRest(args);
    hide ArgBytes, ArgsBytes;
  }

  lemma OnePlusRest(args: seq<DlpArg>)
    ensures args != [] ==> ArgsBytes(args) == ArgBytes(args[0]) + ArgsBytes(args[1..])
    ensures ArgsBytes([]) == []
  {
    hide ArgBytes;
    if args != [] {
      assert args == [args[0]] + args[1..] && [args[0]] == [] + [args[0]];
      ArgsConcat([args[0]], args[1..]);
      ArgsOneMore([], args[0]);
    }
  }

  /** A response: the command with its high bit set, the number of arguments, the
      error code with its high byte first, and the arguments in their order. */
  lemma ResponseOnLine(id: ubyte, error: uword, args: seq<DlpArg>)
    requires |args| < 0x100
    ensures var b := ResponseBytes(id, error, args);
            && |b| >= 4 && b[0] == 128 + id % 128 && b[1] == |args| && b[2] as int * 256 + b[3] == error
            && (args != [] ==> b[4..] == ArgBytes(args[0]) + ArgsBytes(args[1..]))
            && (args == [] ==> |b| == 4)
  {
    OnePlusRest(args);
    assert UwordBytes(error)[0] as int * 256 + UwordBytes(error)[1] == error;
    hide ArgBytes, ArgsBytes, UwordBytes;
  }

  /** An argument: its id and the kind of its header, which is the two high bits of
      the first byte; its size, in one, two or four bytes, the highest first; and its data. */
  lemma ArgOnLine(a: DlpArg)
    ensures var b, n := ArgBytes(a), |a.data|;
            if n < 256 then
              b == [a.id % 64, n] + a.data
            else if n < 65536 then
              && |b| == 4 + n && b[0] == 128 + a.id % 64 && b[1] == 0
              && b[2] as int * 256 + b[3] == n && b[4..] == a.data
            else
              && |b| == 6 + n && b[0] as int * 256 + b[1] == 0xc000 + a.id % 0x4000
              && b[2] as int * 0x100_0000 + b[3] as int * 0x1_0000 + b[4] as int * 256 + b[5] == n && b[6..] == a.data
  {
    var n: udword := |a.data|;
    if n >= 65536 {
      UdwordDigits(n);
    }
  }

  /** What the header of an argument at `at` says: without the high bit, the id
      and the size are a byte each; with the high bit alone, the size is in the third
      and fourth byte; with both, it is in the four bytes after the second. */
  predicate SlotAt(b: seq<ubyte>, at: nat, slot: DlpSlot) {
    && at + 2 <= |b|
    && if b[at] < 128 then
         slot == DlpSlot(b[at], b[at + 1], at + 2)
       else if b[at] < 192 then
         && at + 4 <= |b| && slot.at == at + 4 && slot.id == b[at] % 64
         && slot.size == b[at + 2] as int * 256 + b[at + 3]
       else
         && at + 6 <= |b| && slot.at == at + 6 && slot.id == b[at + 1] % 64
         && slot.size == b[at + 2] as int * 0x100_0000 + b[at + 3] as int * 0x1_0000 + b[at + 4] as int * 256 + b[at + 5]
  }

  /** The arguments follow each other: the header of each is where the data of the one before it ends. */
  predicate Chain(b: seq<ubyte>, at: nat, slots: seq<DlpSlot>)
    decreases |slots|
  {
    slots == [] ||
    (SlotAt(b, at, slots[0]) && Chain(b, slots[0].at + slots[0].size, slots[1..]))
  }

  function ChainEnd(at: nat, slots: seq<DlpSlot>): nat {
    if slots == [] then at else slots[|slots| - 1].at + slots[|slots| - 1].size
  }

  lemma LongId(hi: ubyte, lo: ubyte)
    ensures (hi as int * 0x100 + lo) % 0x40 == lo % 0x40
  {
    assert hi as int * 0x100 + lo == 0x40 * (4 * hi as int + lo / 0x40) + lo % 0x40;
  }

  lemma ParseArgIsSlot(b: seq<ubyte>, at: nat, slot: DlpSlot)
    ensures ParseArg(b, at) == Some(slot) <==> SlotAt(b, at, slot)
  {
    if at + 2 <= |b| { LongId(b[at], b[at + 1]); }
  }

  lemma {:induction false} ChainMore(b: seq<ubyte>, at: nat, slots: seq<DlpSlot>, slot: DlpSlot)
    ensures Chain(b, at, slots + [slot]) <==> Chain(b, at, slots) && SlotAt(b, ChainEnd(at, slots), slot)
    decreases |slots|
  {
    hide SlotAt;
    if slots == [] {
      assert ([] + [slot])[1..] == [] && ([] + [slot])[0] == slot;
      assert [] + [slot] == slots + [slot];
      assert Chain(b, slot.at + slot.size, []);
    } else {
      assert (slots + [slot])[1..] == slots[1..] + [slot];
      ChainMore(b, slots[0].at + slots[0].size, slots[1..], slot);
    }
  }

  /** Reading `n` arguments succeeds exactly when there is such a chain, and gives it. */
  lemma {:induction false} ParsesChain(b: seq<ubyte>, at: nat, slots: seq<DlpSlot>)
    ensures ParseArgs(b, at, |slots|) == Some(Parsed(slots, ChainEnd(at, slots))) <==> Chain(b, at, slots)
    decreases |slots|
  {
    hide SlotAt, ParseArg;
    if slots != [] {
      var n := |slots| - 1;
      var init, last := slots[..n], slots[n];
      assert init + [last] == slots;
      ParsesChain(b, at, init);
      ChainMore(b, at, init, last);
      ParseArgIsSlot(b, ChainEnd(at, init), last);
      ChainStarts(b, at, init, last);
    }
  }

  lemma ChainStarts(b: seq<ubyte>, at: nat, init: seq<DlpSlot>, last: DlpSlot)
    ensures ParseArgs(b, at, |init| + 1) == Some(Parsed(init + [last], last.at + last.size))
            <==> ParseArgs(b, at, |init|) == Some(Parsed(init, ParsedEnd(b, at, |init|))) && ParseArg(b, ParsedEnd(b, at, |init|)) == Some(last)
    ensures ParseArgs(b, at, |init|).Some? && ParseArgs(b, at, |init|).value.slots == init ==> ParsedEnd(b, at, |init|) == ChainEnd(at, init)
  {
    hide ParseArg;
    var p := ParseArgs(b, at, |init|);
    if p.Some? {
      if q :| p.value.slots + [q] == init + [last] {
        assert (p.value.slots + [q])[..|init|] == p.value.slots && (init + [last])[..|init|] == init;
      }
    }
    EndIsChainEnd(b, at, |init|);
  }

  function ParsedEnd(b: seq<ubyte>, at: nat, n: nat): nat {
    var p := ParseArgs(b, at, n);
    if p.Some? then p.value.end else 0
  }

  lemma EndIsChainEnd(b: seq<ubyte>, at: nat, n: nat)
    ensures ParseArgs(b, at, n).Some? ==> ParseArgs(b, at, n).value.end == ChainEnd(at, ParseArgs(b, at, n).value.slots)
  {
    hide ParseArg;
  }

  lemma ParsedIsChain(b: seq<ubyte>, at: nat, n: nat)
    ensures ParseArgs(b, at, n).Some? ==> Chain(b, at, ParseArgs(b, at, n).value.slots)
  {
    EndIsChainEnd(b, at, n);
    hide ParseArgs, Chain;
    if ParseArgs(b, at, n).Some? { ParsesChain(b, at, ParseArgs(b, at, n).value.slots); }
  }

  /** A message is taken for a request exactly when the arguments that its second
      byte counts are there; its first byte is the command. */
  lemma RequestRead(input: seq<ubyte>, slots: seq<DlpSlot>)
    ensures (|input| >= 2 && |slots| == input[1] && Chain(input, 2, slots))
            <==> ParseRequest(input).Received? && ParseRequest(input).slots == slots
    ensures ParseRequest(input).Received? ==>
              ParseRequest(input).header.id == input[0] && ParseRequest(input).header.argc == input[1]
    ensures !ParseRequest(input).Received? ==> ParseRequest(input) == PastEnd
  {
    if |input| >= 2 {
      ParsedIsChain(input, 2, input[1]);
      ParsesChain(input, 2, slots);
    }
    hide ParseArgs, Chain;
  }

  /** And for the response to a command when, besides, its first byte is that
      command with the high bit set; the two bytes after the count are the error code. */
  lemma ResponseRead(input: seq<ubyte>, id: ubyte, slots: seq<DlpSlot>)
    ensures var r := ParseResponse(input, id);
            && ((|input| >= 4 && input[0] == 128 + id && |slots| == input[1] && Chain(input, 4, slots))
                <==> r.Received? && r.slots == slots)
            && (r.Received? ==> r.header == RespHeader(input[0], input[1], input[2] as int * 256 + input[3]))
            && (r.Empty? <==> input == [])
            && (r.NoResponse? <==> |input| >= 4 && input[0] < 128)
            && (r.WrongId? <==> |input| >= 4 && input[0] >= 128 && input[0] as int - 128 != id)
  {
    if |input| >= 4 {
      ParsedIsChain(input, 4, input[1]);
      ParsesChain(input, 4, slots);
      assert input[0] >= 128 ==> input[0] % 128 == input[0] - 128;
    }
    hide ParseArgs, Chain;
  }

  // ----- What reaches the line ----------------------------------------------

  /** The transports take the length of a message as a `uword`: of a longer one
      they see only a part. */
  function Handed(bytes: seq<ubyte>): seq<ubyte> {
    bytes[..|bytes| % 0x1_0000]
  }

  lemma {:induction false} ArgIsPart(args: seq<DlpArg>, a: DlpArg)
    requires a in args
    ensures |ArgsBytes(args)| >= |ArgBytes(a)|
    decreases |args|
  {
    hide ArgBytes;
    if a != args[|args| - 1] {
      assert a in args[..|args| - 1];
      ArgIsPart(args[..|args| - 1], a);
    }
  }

  lemma CutTo16(n: nat)
    ensures (n - n % 0x1_0000) % 0x1_0000 == 0
  {
  }

  /** A request goes out whole exactly when it is shorter than 64 kB; so none
      with a long argument does. */
  lemma WholeIfShort(id: ubyte, args: seq<DlpArg>)
    requires |args| < 0x100
    ensures Handed(RequestBytes(id, args)) == RequestBytes(id, args) <==> |RequestBytes(id, args)| < 0x1_0000
    ensures (exists a :: a in args && |a.data| > SMALLARG_MAXLEN) ==> Handed(RequestBytes(id, args)) != RequestBytes(id, args)
    ensures Handed(RequestBytes(id, args)) <= RequestBytes(id, args)
    ensures |Handed(RequestBytes(id, args))| < 65536
    ensures (|RequestBytes(id, args)| - |Handed(RequestBytes(id, args))|) % 65536 == 0
  {
    CutTo16(|RequestBytes(id, args)|);
    if a :| a in args && |a.data| > SMALLARG_MAXLEN {
      ArgIsPart(args, a);
    }
  }

  /** Of a request of exactly 64 kB nothing at all goes out. */
  lemma NothingOf64K(id: ubyte, data: seq<ubyte>)
    requires |data| == 0x1_0000 - 6
    ensures Handed(RequestBytes(id, [Arg(0x20, data)])) == []
  {
    var args: seq<DlpArg> := [Arg(0x20, data)];
    assert args[..0] == [] && args[0] == Arg(0x20, data);
    assert |ArgBytes(args[0])| == 0x1_0000 - 2;
    assert ArgsBytes(args) == ArgsBytes([]) + ArgBytes(args[0]);
  }
}
