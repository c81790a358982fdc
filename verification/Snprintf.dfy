/** The formatter of src/ap_snprintf.c, for directives over integers, strings and
    characters, and `snprintf`, which keeps of its output what fits. */
module Snprintf {
  import opened Numerals
  import opened Options

  const NUM_BUF_SIZE: nat := 512
  const S_NULL := "(null)"

  /** An argument of the call. */
  datatype Arg = Num(value: int) | Text(str: Option<string>)

  datatype Size = IntSize | LongSize | ShortSize

  /** What comes between the percent sign and the conversion character. */
  datatype Spec = Spec(left: bool, plus: bool, alt: bool, blank: bool, zero: bool,
                       width: Option<nat>, precision: Option<nat>, size: Size)

  /** ... with where it ends, and the number of the next argument. */
  datatype Parsed = Parsed(spec: Spec, at: nat, k: nat)

  const PLAIN := Spec(false, false, false, false, false, None, None, IntSize)

  /** The characters of a format, and the NUL after them. */
  function At(fmt: string, i: nat): char { if i < |fmt| then fmt[i] else '\0' }

  predicate IsDigit(c: char) { '0' <= c <= '9' }

  predicate IsLower(c: char) { 'a' <= c <= 'z' }

  predicate IsFlag(c: char) { c == '-' || c == '+' || c == '#' || c == ' ' || c == '0' }

  function Flagged(sp: Spec, c: char): Spec {
    match c
    case '-' => sp.(left := true)
    case '+' => sp.(plus := true)
    case '#' => sp.(alt := true)
    case ' ' => sp.(blank := true)
    case '0' => sp.(zero := true)
    case _ => sp
  }

  /** Where the run of characters that are flags, or digits, ends. */
  function FlagsEnd(fmt: string, at: nat): (r: nat)
    ensures at <= r && (at <= |fmt| ==> r <= |fmt|)
    decreases |fmt| - at
  {
    if at < |fmt| && IsFlag(fmt[at]) then FlagsEnd(fmt, at + 1) else at
  }

  function DigitsEnd(fmt: string, at: nat): (r: nat)
    ensures at <= r && (at <= |fmt| ==> r <= |fmt|)
    decreases |fmt| - at
  {
    if at < |fmt| && IsDigit(fmt[at]) then DigitsEnd(fmt, at + 1) else at
  }

  function WithFlags(sp: Spec, flags: string): Spec {
    if flags == "" then sp else Flagged(WithFlags(sp, flags[..|flags| - 1]), flags[|flags| - 1])
  }

  predicate IsInt(v: int) { -0x8000_0000 <= v < 0x8000_0000 }

  /** An integer argument, if there is one. */
  function IntArg(args: seq<Arg>, k: nat): Option<int> {
    if k < |args| && args[k].Num? && IsInt(args[k].value) then Some(args[k].value) else None
  }

  /** The width: digits, or an asterisk for an argument that, if negative, also
      means to the left. `None`: C leaves undefined what happens. */
  function ParseWidth(fmt: string, p: Parsed, args: seq<Arg>): (r: Option<Parsed>)
    requires p.at <= |fmt|
    ensures r.Some? ==> p.at <= r.value.at <= |fmt|
  {
    if IsDigit(At(fmt, p.at)) then
      var end := DigitsEnd(fmt, p.at);
      var w := ValueOf(fmt[p.at..end], 10);
      if IsInt(w) && w >= 0 then Some(Parsed(p.spec.(width := Some(w)), end, p.k)) else None
    else if At(fmt, p.at) == '*' then
      match IntArg(args, p.k)
      case None => None
      case Some(v) =>
        if v == -0x8000_0000 then None
        else if v < 0 then Some(Parsed(p.spec.(left := true, width := Some(-v)), p.at + 1, p.k + 1))
        else Some(Parsed(p.spec.(width := Some(v)), p.at + 1, p.k + 1))
    else Some(p)
  }

  function ParsePrecision(fmt: string, p: Parsed, args: seq<Arg>): (r: Option<Parsed>)
    requires p.at <= |fmt|
    ensures r.Some? ==> p.at <= r.value.at <= |fmt|
  {
    if At(fmt, p.at) != '.' then Some(p)
    else if IsDigit(At(fmt, p.at + 1)) then
      var end := DigitsEnd(fmt, p.at + 1);
      var n := ValueOf(fmt[p.at + 1..end], 10);
      if IsInt(n) && n >= 0 then Some(Parsed(p.spec.(precision := Some(n)), end, p.k)) else None
    else if At(fmt, p.at + 1) == '*' then
      match IntArg(args, p.k)
      case None => None
      case Some(v) => Some(Parsed(p.spec.(precision := Some(if v < 0 then 0 else v)), p.at + 2, p.k + 1))
    else Some(Parsed(p.spec.(precision := Some(0)), p.at + 1, p.k))
  }

  /** The modifier; the one for quads is left out. */
  function ParseSize(fmt: string, p: Parsed): (r: Option<Parsed>)
    requires p.at <= |fmt|
    ensures r.Some? ==> p.at <= r.value.at <= |fmt|
  {
    match At(fmt, p.at)
    case 'q' => None
    case 'l' => Some(Parsed(p.spec.(size := LongSize), p.at + 1, p.k))
    case 'h' => Some(Parsed(p.spec.(size := ShortSize), p.at + 1, p.k))
    case _ => Some(p)
  }

  function ParseSpec(fmt: string, at: nat, args: seq<Arg>, k: nat): (r: Option<Parsed>)
    requires at <= |fmt|
    ensures r.Some? ==> at <= r.value.at <= |fmt|
  {
    if IsLower(At(fmt, at)) then ParseSize(fmt, Parsed(PLAIN, at, k))
    else
      var end := FlagsEnd(fmt, at);
      match ParseWidth(fmt, Parsed(WithFlags(PLAIN, fmt[at..end]), end, k), args)
      case None => None
      case Some(p) =>
        match ParsePrecision(fmt, p, args)
        case None => None
        case Some(q) => ParseSize(fmt, q)
  }

  // ----- What a directive comes to ----------------------------------------------

  function Signed(size: Size, v: int): Option<wide> {
    match size
    case IntSize => if IsInt(v) then Some(v) else None
    case ShortSize => if IsInt(v) then Some((v + 0x8000) % 0x1_0000 - 0x8000) else None
    case LongSize => if -0x8000_0000_0000_0000 <= v < 0x8000_0000_0000_0000 then Some(v) else None
  }

  function Unsigned(size: Size, v: int): Option<uwide> {
    match size
    case IntSize => if 0 <= v < 0x1_0000_0000 then Some(v) else None
    case ShortSize => if 0 <= v < 0x1_0000_0000 then Some(v % 0x1_0000) else None
    case LongSize => if 0 <= v < 0x1_0000_0000_0000_0000 then Some(v) else None
  }

  function Repeat(c: char, n: int): (s: string)
    ensures |s| == (if n <= 0 then 0 else n) && forall i :: 0 <= i < |s| ==> s[i] == c
  {
    if n <= 0 then "" else Repeat(c, n - 1) + [c]
  }

  /** Zeros before a numeral, up to the precision. */
  function Zeroed(s: string, precision: Option<nat>): string {
    if precision.None? then s else Repeat('0', precision.value - |s|) + s
  }

  /** What is printed before padding, the sign in it, and what it is padded with. */
  datatype Body = Body(s: string, signed: bool, pad: char)

  function SignOf(sp: Spec, negative: bool): string {
    if negative then "-" else if sp.plus then "+" else if sp.blank then " " else ""
  }

  function DecimalBody(sp: Spec, num: wide, isUnsigned: bool): Body {
    var digits := Zeroed(Numeral(Magnitude(num, isUnsigned), 10, false), sp.precision);
    var sign := if isUnsigned then "" else SignOf(sp, num < 0);
    Body(sign + digits, sign != "", if sp.zero then '0' else ' ')
  }

  function OctalBody(sp: Spec, num: uwide): Body {
    var digits := Zeroed(Numeral(num, 8, false), sp.precision);
    Body(if sp.alt && digits != "" && digits[0] != '0' then "0" + digits else digits, false, if sp.zero then '0' else ' ')
  }

  function HexBody(sp: Spec, num: uwide, upper: bool): Body {
    Body(Zeroed(Numeral(num, 16, upper), sp.precision), false, if sp.zero then '0' else ' ')
  }

  function TextBody(sp: Spec, str: Option<string>): Body {
    match str
    case None => Body(S_NULL, false, ' ')
    case Some(s) => Body(if sp.precision.Some? && sp.precision.value < |s| then s[..sp.precision.value] else s, false, ' ')
  }

  /** The value of a `wide_int` that an unsigned number is passed in. */
  function AsWide(v: uwide): wide { if v < 0x8000_0000_0000_0000 then v as int else v as int - 0x1_0000_0000_0000_0000 }

  /** A number, if its characters fit in the buffer for numbers. */
  function InNumBuf(b: Body): Option<Body> { if |b.s| <= NUM_BUF_SIZE then Some(b) else None }

  /** `None`: a conversion that is left out, or no such argument. */
  function BodyOf(sp: Spec, conv: char, args: seq<Arg>, k: nat): Option<Body> {
    if conv == '%' then Some(Body("%", false, ' '))
    else if conv in {'f', 'e', 'E', 'g', 'G', 'n', 'p'} then None
    else if conv !in {'d', 'i', 'u', 'o', 'x', 'X', 's', 'c'} then Some(Body(['%', conv], false, ' '))
    else if k >= |args| then None
    else
      match args[k]
      case Text(str) => if conv == 's' then Some(TextBody(sp, str)) else None
      case Num(v) =>
        if conv == 's' then None
        else if conv == 'c' then (if IsInt(v) then Some(Body([(v % 0x100) as char], false, ' ')) else None)
        else if conv == 'd' || conv == 'i' then
          match Signed(sp.size, v) case None => None case Some(n) => InNumBuf(DecimalBody(sp, n, false))
        else
          match Unsigned(sp.size, v)
          case None => None
          case Some(n) =>
            if conv == 'u' then InNumBuf(DecimalBody(sp, AsWide(n), true))
            else if conv == 'o' then InNumBuf(OctalBody(sp, n))
            else if sp.alt then None
            else InNumBuf(HexBody(sp, n, conv == 'X'))
  }

  /** Whether a conversion takes an argument. */
  predicate TakesArg(conv: char) { conv in {'d', 'i', 'u', 'o', 'x', 'X', 's', 'c'} }

  /** To the width: padded on the left, with zeros after a sign; or on the right. */
  function Padded(sp: Spec, b: Body): string {
    if sp.width.None? || sp.width.value <= |b.s| then b.s
    else
      var fill := Repeat(b.pad, sp.width.value - |b.s|);
      if sp.left then b.s + fill
      else if b.pad == '0' && b.signed && b.s != "" then [b.s[0]] + fill + b.s[1..]
      else fill + b.s
  }

  /** All that a format comes to, from `at` on, with the arguments from number `k` on. */
  function Expand(fmt: string, at: nat, args: seq<Arg>, k: nat): Option<string>
    decreases |fmt| - at
  {
    if at >= |fmt| then Some("")
    else if fmt[at] != '%' then After([fmt[at]], Expand(fmt, at + 1, args, k))
    else
      match ParseSpec(fmt, at + 1, args, k)
      case None => None
      case Some(p) =>
        if p.at >= |fmt| then Some("")
        else
          match BodyOf(p.spec, fmt[p.at], args, p.k)
          case None => None
          case Some(b) =>
            After(Padded(p.spec, b), Expand(fmt, p.at + 1, args, if TakesArg(fmt[p.at]) then p.k + 1 else p.k))
  }

  function After(front: string, rest: Option<string>): Option<string> {
    match rest
    case None => None
    case Some(s) => Some(front + s)
  }

  // ----- Reading the format --------------------------------------------------------

  method ScanFlags(fmt: string, at: nat) returns (sp: Spec, end: nat)
    requires at <= |fmt|
    ensures end == FlagsEnd(fmt, at) && sp == WithFlags(PLAIN, fmt[at..end])
  {
    hide Flagged;
    sp, end := PLAIN, at;
    assert fmt[at..at] == "";
    while IsFlag(At(fmt, end))
      invariant at <= end <= |fmt| && FlagsEnd(fmt, at) == FlagsEnd(fmt, end)
      invariant sp == WithFlags(PLAIN, fmt[at..end])
      decreases |fmt| - end
    {
      assert fmt[at..end + 1][..end - at] == fmt[at..end];
      sp := Flagged(sp, fmt[end]);
      end := end + 1;
    }
  }

  /** `STR_TO_DEC`. */
  method StrToDec(fmt: string, at: nat) returns (num: int, end: nat)
    requires at <= |fmt| && IsDigit(At(fmt, at))
    ensures end == DigitsEnd(fmt, at) && num == ValueOf(fmt[at..end], 10)
  {
    num, end := 0, at;
    assert fmt[at..at] == "";
    while IsDigit(At(fmt, end))
      invariant at <= end <= |fmt| && DigitsEnd(fmt, at) == DigitsEnd(fmt, end)
      invariant num == ValueOf(fmt[at..end], 10)
      decreases |fmt| - end
    {
      assert fmt[at..end + 1] == fmt[at..end] + [fmt[end]];
      ValueOneMore(fmt[at..end], fmt[end], 10);
      num := num * 10 + (fmt[end] as int - '0' as int);
      end := end + 1;
    }
  }

  method ScanWidth(fmt: string, p: Parsed, args: seq<Arg>) returns (r: Parsed)
    requires p.at <= |fmt| && ParseWidth(fmt, p, args).Some?
    ensures Some(r) == ParseWidth(fmt, p, args)
  {
    hide ValueOf, DigitsEnd;
    r := p;
    if IsDigit(At(fmt, p.at)) {
      var num, end := StrToDec(fmt, p.at);
      r := Parsed(p.spec.(width := Some(num)), end, p.k);
    } else if At(fmt, p.at) == '*' {
      var minWidth := args[p.k].value;
      if minWidth < 0 {
        r := Parsed(p.spec.(left := true, width := Some(-minWidth)), p.at + 1, p.k + 1);
      } else {
        r := Parsed(p.spec.(width := Some(minWidth)), p.at + 1, p.k + 1);
      }
    }
  }

  method ScanPrecision(fmt: string, p: Parsed, args: seq<Arg>) returns (r: Parsed)
    requires p.at <= |fmt| && ParsePrecision(fmt, p, args).Some?
    ensures Some(r) == ParsePrecision(fmt, p, args)
  {
    hide ValueOf, DigitsEnd;
    r := p;
    if At(fmt, p.at) == '.' {
      if IsDigit(At(fmt, p.at + 1)) {
        var num, end := StrToDec(fmt, p.at + 1);
        r := Parsed(p.spec.(precision := Some(num)), end, p.k);
      } else if At(fmt, p.at + 1) == '*' {
        var precision := args[p.k].value;
        if precision < 0 {
          precision := 0;
        }
        r := Parsed(p.spec.(precision := Some(precision)), p.at + 2, p.k + 1);
      } else {
        r := Parsed(p.spec.(precision := Some(0)), p.at + 1, p.k);
      }
    }
  }

  /** All that is between the percent sign and the conversion. */
  method ScanSpec(fmt: string, at: nat, args: seq<Arg>, k: nat) returns (r: Parsed)
    requires at <= |fmt| && ParseSpec(fmt, at, args, k).Some?
    ensures Some(r) == ParseSpec(fmt, at, args, k)
  {
    hide ParseWidth, ParsePrecision, FlagsEnd, WithFlags;
    r := Parsed(PLAIN, at, k);
    if !IsLower(At(fmt, at)) {
      var sp, end := ScanFlags(fmt, at);
      r := ScanWidth(fmt, Parsed(sp, end, k), args);
      r := ScanPrecision(fmt, r, args);
    }
    if At(fmt, r.at) == 'l' {
      r := Parsed(r.spec.(size := LongSize), r.at + 1, r.k);
    } else if At(fmt, r.at) == 'h' {
      r := Parsed(r.spec.(size := ShortSize), r.at + 1, r.k);
    }
  }

  // ----- Conversions -----------------------------------------------------------------

  /** `FIX_PRECISION`: zeros before the number at `p`. */
  method FixPrecision(buf: array<char>, p: nat, precision: Option<nat>) returns (p': nat)
    requires p <= buf.Length && (precision.Some? ==> precision.value <= buf.Length)
    modifies buf
    ensures p' <= p && buf[p'..] == Zeroed(old(buf[p..]), precision)
  {
    p' := p;
    ghost var s := buf[p..];
    if precision.Some? {
      var sLen := buf.Length - p;
      while sLen < precision.value
        invariant p' <= p && sLen == buf.Length - p' && (p' == p || sLen <= precision.value)
        invariant forall i :: p' <= i < p ==> buf[i] == '0'
        invariant forall i :: p <= i < buf.Length ==> buf[i] == old(buf[i])
        decreases precision.value - sLen
      {
        p', sLen := p' - 1, sLen + 1;
        buf[p'] := '0';
      }
      assert p - p' == if precision.value <= |s| then 0 else precision.value - |s|;
    }
    ZerosBefore(buf[p'..], p - p', s);
  }

  lemma ZerosBefore(t: string, n: nat, s: string)
    requires |t| == n + |s| && (forall i :: 0 <= i < n ==> t[i] == '0') && forall i :: 0 <= i < |s| ==> t[n + i] == s[i]
    ensures t == Repeat('0', n) + s && (n == 0 ==> t == s)
  {
    var z := Repeat('0', n) + s;
    forall i | 0 <= i < |t|
      ensures t[i] == z[i]
    {
      if i >= n { assert t[n + (i - n)] == s[i - n]; }
    }
  }

  lemma {:induction false} RepeatFront(c: char, n: int)
    requires n > 0
    ensures Repeat(c, n) == [c] + Repeat(c, n - 1)
  {
    if n > 1 { RepeatFront(c, n - 1); }
  }

  method PutBefore(buf: array<char>, p: nat, c: char) returns (p': nat)
    requires 0 < p <= buf.Length
    modifies buf
    ensures p' == p - 1 && buf[p'..] == [c] + old(buf[p..])
  {
    p' := p - 1;
    buf[p'] := c;
  }

  lemma PrecisionFits(s: string, precision: Option<nat>)
    ensures precision.Some? ==> precision.value <= |Zeroed(s, precision)|
    ensures |s| <= |Zeroed(s, precision)|
  {
  }

  method FormatDecimal(sp: Spec, num: wide, isUnsigned: bool) returns (b: Body)
    requires |DecimalBody(sp, num, isUnsigned).s| <= NUM_BUF_SIZE
    ensures b == DecimalBody(sp, num, isUnsigned)
  {
    hide Zeroed, Numeral, Magnitude;
    PrecisionFits(Numeral(Magnitude(num, isUnsigned), 10, false), sp.precision);
    var numBuf := new char[NUM_BUF_SIZE];
    var p, isNegative := Conv10(num, isUnsigned, numBuf);
    p := FixPrecision(numBuf, p, sp.precision);
    var prefix := if isUnsigned then "" else SignOf(sp, isNegative);
    if prefix != "" {
      p := PutBefore(numBuf, p, prefix[0]);
    }
    b := Body(numBuf[p..], prefix != "", if sp.zero then '0' else ' ');
  }

  method FormatOctal(sp: Spec, num: uwide) returns (b: Body)
    requires |OctalBody(sp, num).s| <= NUM_BUF_SIZE
    ensures b == OctalBody(sp, num)
  {
    hide Zeroed, Numeral;
    PrecisionFits(Numeral(num, 8, false), sp.precision);
    var numBuf := new char[NUM_BUF_SIZE];
    var p := ConvP2(num, 3, false, numBuf);
    p := FixPrecision(numBuf, p, sp.precision);
    if sp.alt && numBuf[p] != '0' {
      p := PutBefore(numBuf, p, '0');
    }
    b := Body(numBuf[p..], false, if sp.zero then '0' else ' ');
  }

  method FormatHex(sp: Spec, num: uwide, upper: bool) returns (b: Body)
    requires |HexBody(sp, num, upper).s| <= NUM_BUF_SIZE
    ensures b == HexBody(sp, num, upper)
  {
    hide Zeroed, Numeral;
    PrecisionFits(Numeral(num, 16, upper), sp.precision);
    var numBuf := new char[NUM_BUF_SIZE];
    var p := ConvP2(num, 4, upper, numBuf);
    p := FixPrecision(numBuf, p, sp.precision);
    b := Body(numBuf[p..], false, if sp.zero then '0' else ' ');
  }

  /** The switch over the conversion character. */
  method Convert(sp: Spec, conv: char, args: seq<Arg>, k: nat) returns (b: Body)
    requires BodyOf(sp, conv, args, k).Some?
    ensures Some(b) == BodyOf(sp, conv, args, k)
  {
    hide DecimalBody, OctalBody, HexBody, TextBody;
    match conv {
      case 'u' =>
        var n := Unsigned(sp.size, args[k].value).value;
        b := FormatDecimal(sp, AsWide(n), true);
      case 'd' =>
        b := FormatDecimal(sp, Signed(sp.size, args[k].value).value, false);
      case 'i' =>
        b := FormatDecimal(sp, Signed(sp.size, args[k].value).value, false);
      case 'o' =>
        b := FormatOctal(sp, Unsigned(sp.size, args[k].value).value);
      case 'x' =>
        b := FormatHex(sp, Unsigned(sp.size, args[k].value).value, false);
      case 'X' =>
        b := FormatHex(sp, Unsigned(sp.size, args[k].value).value, true);
      case 's' =>
        b := TextBody(sp, args[k].str);
      case 'c' =>
        b := Body([(args[k].value % 0x100) as char], false, ' ');
      case '%' =>
        b := Body("%", false, ' ');
      case _ =>
        b := Body(['%', conv], false, ' ');
    }
  }

  // ----- Output into a buffer ----------------------------------------------------------

  /** `s` has been written after `front`; or, not `ok`, as much of it as fits below `room`. */
  ghost predicate Wrote(ok: bool, now: string, room: nat, front: string, s: string) {
    if ok then now == front + s && |front + s| <= room
    else |front + s| > room && now == (front + s)[..room]
  }

  lemma WroteMore(ok: bool, now: string, room: nat, front: string, a: string, b: string)
    requires Wrote(ok, now, room, front + a, b)
    ensures Wrote(ok, now, room, front, a + b)
  {
    assert front + a + b == front + (a + b);
  }

  lemma WroteLess(now: string, room: nat, front: string, a: string, b: string)
    requires Wrote(false, now, room, front, a)
    ensures Wrote(false, now, room, front, a + b)
  {
    assert front + (a + b) == (front + a) + b;
  }

  lemma WroteNothing(now: string, room: nat)
    requires |now| <= room
    ensures Wrote(true, now, room, now, "")
  {
    assert now + "" == now;
  }

  /** `INS_CHAR`, with a flush function that always gives up. */
  method InsChar(buf: array<char>, bep: nat, sp: nat, c: char) returns (ok: bool, sp': nat)
    requires sp <= bep < buf.Length
    modifies buf
    ensures sp' <= bep && Wrote(ok, buf[..sp'], bep, old(buf[..sp]), [c])
  {
    if sp >= bep {
      assert (buf[..sp] + [c])[..bep] == buf[..sp];
      return false, sp;
    }
    buf[sp] := c;
    sp' := sp + 1;
    ok := true;
    assert buf[..sp'] == old(buf[..sp]) + [c];
  }

  /** The loop that prints a string. */
  method PutString(buf: array<char>, bep: nat, sp: nat, s: string) returns (ok: bool, sp': nat)
    requires sp <= bep < buf.Length
    modifies buf
    ensures sp' <= bep && Wrote(ok, buf[..sp'], bep, old(buf[..sp]), s)
  {
    ghost var front := buf[..sp];
    hide Wrote;
    ok, sp' := true, sp;
    WroteNothing(front, bep);
    for i := 0 to |s|
      invariant sp' <= bep && ok && Wrote(true, buf[..sp'], bep, front, s[..i])
    {
      WroteIs(buf[..sp'], bep, front, s[..i]);
      ok, sp' := InsChar(buf, bep, sp', s[i]);
      WroteMore(ok, buf[..sp'], bep, front, s[..i], [s[i]]);
      assert s[..i + 1] == s[..i] + [s[i]];
      if !ok {
        WroteLess(buf[..sp'], bep, front, s[..i + 1], s[i + 1..]);
        assert s[..i + 1] + s[i + 1..] == s;
        return;
      }
    }
    assert s[..|s|] == s;
  }

  lemma WroteIs(now: string, room: nat, front: string, s: string)
    requires Wrote(true, now, room, front, s)
    ensures now == front + s
  {
  }

  /** `PAD`: at least one character, and then up to the width. */
  method Pad(buf: array<char>, bep: nat, sp: nat, width: nat, len: nat, ch: char) returns (ok: bool, sp': nat)
    requires sp <= bep < buf.Length && width > len
    modifies buf
    ensures sp' <= bep && Wrote(ok, buf[..sp'], bep, old(buf[..sp]), Repeat(ch, width - len))
  {
    ghost var front := buf[..sp];
    hide Wrote;
    ok, sp' := true, sp;
    WroteNothing(front, bep);
    var w := width;
    while w > len
      invariant len <= w <= width && sp' <= bep && ok
      invariant Wrote(true, buf[..sp'], bep, front, Repeat(ch, width - w))
    {
      ghost var done := Repeat(ch, width - w);
      WroteIs(buf[..sp'], bep, front, done);
      ok, sp' := InsChar(buf, bep, sp', ch);
      WroteMore(ok, buf[..sp'], bep, front, done, [ch]);
      w := w - 1;
      if !ok {
        RepeatJoins(ch, width - w, w - len);
        WroteLess(buf[..sp'], bep, front, Repeat(ch, width - w), Repeat(ch, w - len));
        return;
      }
    }
  }

  lemma {:induction false} RepeatJoins(c: char, n: nat, m: nat)
    ensures Repeat(c, n) + Repeat(c, m) == Repeat(c, n + m)
    decreases m
  {
    if m > 0 {
      RepeatJoins(c, n, m - 1);
      assert Repeat(c, n) + Repeat(c, m) == Repeat(c, n) + Repeat(c, m - 1) + [c];
    } else {
      assert Repeat(c, n) + "" == Repeat(c, n);
    }
  }

  /** Two writes, one after the other. */
  lemma WroteBoth(ok: bool, mid: string, now: string, room: nat, front: string, a: string, b: string)
    requires Wrote(true, mid, room, front, a) && Wrote(ok, now, room, mid, b)
    ensures Wrote(ok, now, room, front, a + b)
  {
    WroteMore(ok, now, room, front, a, b);
  }

  /** Prints a number with its sign before the padding. */
  method PutAfterSign(buf: array<char>, bep: nat, at: nat, width: nat, s: string, pad: char) returns (ok: bool, at': nat)
    requires at <= bep < buf.Length && s != "" && width > |s|
    modifies buf
    ensures at' <= bep && Wrote(ok, buf[..at'], bep, old(buf[..at]), [s[0]] + Repeat(pad, width - |s|) + s[1..])
  {
    ghost var front, fill := buf[..at], Repeat(pad, width - |s|);
    hide Wrote, Repeat;
    ok, at' := InsChar(buf, bep, at, s[0]);
    assert [s[0]] + fill + s[1..] == [s[0]] + (fill + s[1..]);
    if !ok {
      WroteLess(buf[..at'], bep, front, [s[0]], fill + s[1..]);
      return;
    }
    ghost var mid := buf[..at'];
    ok, at' := Pad(buf, bep, at', width - 1, |s| - 1, pad);
    WroteBoth(ok, mid, buf[..at'], bep, front, [s[0]], fill);
    if !ok {
      WroteLess(buf[..at'], bep, front, [s[0]] + fill, s[1..]);
      return;
    }
    mid := buf[..at'];
    ok, at' := PutString(buf, bep, at', s[1..]);
    WroteBoth(ok, mid, buf[..at'], bep, front, [s[0]] + fill, s[1..]);
  }

  lemma PaddedIs(sp: Spec, b: Body)
    ensures sp.width.None? || sp.width.value <= |b.s| ==> Padded(sp, b) == b.s
    ensures sp.width.Some? && sp.width.value > |b.s| ==>
              var fill := Repeat(b.pad, sp.width.value - |b.s|);
              Padded(sp, b) == if sp.left then b.s + fill
                               else if b.pad == '0' && b.signed && b.s != "" then [b.s[0]] + fill + b.s[1..]
                               else fill + b.s
  {
    hide Repeat;
  }

  /** Prints a string with the padding after it. */
  method PutLeft(buf: array<char>, bep: nat, at: nat, width: nat, s: string, pad: char) returns (ok: bool, at': nat)
    requires at <= bep < buf.Length && width > |s|
    modifies buf
    ensures at' <= bep && Wrote(ok, buf[..at'], bep, old(buf[..at]), s + Repeat(pad, width - |s|))
  {
    ghost var front, fill := buf[..at], Repeat(pad, width - |s|);
    hide *;
    ok, at' := PutString(buf, bep, at, s);
    if !ok {
      WroteLess(buf[..at'], bep, front, s, fill);
      return;
    }
    ghost var mid := buf[..at'];
    ok, at' := Pad(buf, bep, at', width, |s|, pad);
    WroteBoth(ok, mid, buf[..at'], bep, front, s, fill);
  }

  /** Prints a string with the padding before it. */
  method PutRight(buf: array<char>, bep: nat, at: nat, width: nat, s: string, pad: char) returns (ok: bool, at': nat)
    requires at <= bep < buf.Length && width > |s|
    modifies buf
    ensures at' <= bep && Wrote(ok, buf[..at'], bep, old(buf[..at]), Repeat(pad, width - |s|) + s)
  {
    ghost var front, fill := buf[..at], Repeat(pad, width - |s|);
    hide *;
    ok, at' := Pad(buf, bep, at, width, |s|, pad);
    if !ok {
      WroteLess(buf[..at'], bep, front, fill, s);
      return;
    }
    ghost var mid := buf[..at'];
    ok, at' := PutString(buf, bep, at', s);
    WroteBoth(ok, mid, buf[..at'], bep, front, fill, s);
  }

  /** Prints a converted argument, padded to the width. */
  method PutPadded(buf: array<char>, bep: nat, at: nat, sp: Spec, b: Body) returns (ok: bool, at': nat)
    requires at <= bep < buf.Length
    modifies buf
    ensures at' <= bep && Wrote(ok, buf[..at'], bep, old(buf[..at]), Padded(sp, b))
  {
    PaddedIs(sp, b);
    hide *;
    if sp.width.None? || sp.width.value <= |b.s| {
      ok, at' := PutString(buf, bep, at, b.s);
    } else if sp.left {
      ok, at' := PutLeft(buf, bep, at, sp.width.value, b.s, b.pad);
    } else if b.pad == '0' && b.signed && b.s != "" {
      ok, at' := PutAfterSign(buf, bep, at, sp.width.value, b.s, b.pad);
    } else {
      ok, at' := PutRight(buf, bep, at, sp.width.value, b.s, b.pad);
    }
  }

  /** `ap_vformatter`, over a buffer that cannot be flushed: the number of
      characters of the whole output, or -1 when there was no room for it. */
  method VFormatter(buf: array<char>, bep: nat, fmt: string, args: seq<Arg>) returns (cc: int, curpos: nat)
    requires bep < buf.Length && Expand(fmt, 0, args, 0).Some?
    modifies buf
    ensures curpos <= bep && (cc == -1 || cc == curpos)
    ensures Wrote(cc >= 0, buf[..curpos], bep, "", Expand(fmt, 0, args, 0).value)
  {
    hide Wrote, ParseSpec, BodyOf, Padded, TakesArg;
    ghost var full := Expand(fmt, 0, args, 0).value;
    var at, k, sp := 0, 0, 0;
    ghost var rest := full;
    assert buf[..0] == "" && "" + full == full;
    while at < |fmt|
      invariant 0 <= at <= |fmt| && 0 <= k && 0 <= sp <= bep
      invariant Expand(fmt, at, args, k) == Some(rest) && full == buf[..sp] + rest
    {
      ghost var out, piece := buf[..sp], "";
      var ok;
      if fmt[at] != '%' {
        ok, sp := InsChar(buf, bep, sp, fmt[at]);
        piece, rest := [fmt[at]], Expand(fmt, at + 1, args, k).value;
        at := at + 1;
      } else {
        var p := ScanSpec(fmt, at + 1, args, k);
        if p.at >= |fmt| {
          AllWritten(out, bep, full);
          return sp, sp;
        }
        var b := Convert(p.spec, fmt[p.at], args, p.k);
        k := if TakesArg(fmt[p.at]) then p.k + 1 else p.k;
        ok, sp := PutPadded(buf, bep, sp, p.spec, b);
        piece, rest := Padded(p.spec, b), Expand(fmt, p.at + 1, args, k).value;
        at := p.at + 1;
      }
      PieceWritten(ok, buf[..sp], bep, out, piece, rest);
      if !ok {
        return -1, sp;
      }
    }
    AllWritten(buf[..sp], bep, full);
    cc, curpos := sp, sp;
  }

  lemma AllWritten(now: string, room: nat, full: string)
    requires full == now + "" && |now| <= room
    ensures Wrote(true, now, room, "", full)
  {
    assert "" + full == full == now;
  }

  lemma PieceWritten(ok: bool, now: string, room: nat, out: string, piece: string, rest: string)
    requires Wrote(ok, now, room, out, piece)
    ensures ok ==> out + (piece + rest) == now + rest
    ensures !ok ==> Wrote(false, now, room, "", out + (piece + rest))
  {
    assert out + (piece + rest) == (out + piece) + rest;
    assert "" + (out + (piece + rest)) == out + (piece + rest);
  }

  /** `snprintf`: the string in the buffer is the output, cut off where the
      buffer ends; the result is its whole length, or the size of the buffer if
      it was cut off. */
  method Snprintf(buf: array<char>, len: nat, fmt: string, args: seq<Arg>) returns (r: int)
    requires len <= buf.Length && Expand(fmt, 0, args, 0).Some?
    modifies buf
    ensures len == 0 ==> r == 0 && buf[..] == old(buf[..])
    ensures len > 0 ==>
              var full := Expand(fmt, 0, args, 0).value;
              var n := if |full| < len then |full| else len - 1;
              && r == (if |full| < len then |full| else len)
              && buf[..n] == full[..n] && buf[n] == '\0'
  {
    if len == 0 {
      return 0;
    }
    hide Expand;
    ghost var full := Expand(fmt, 0, args, 0).value;
    var cc, curpos := VFormatter(buf, len - 1, fmt, args);
    assert "" + full == full;
    ghost var written := buf[..curpos];
    buf[curpos] := '\0';
    assert buf[..curpos] == written;
    r := if cc == -1 then len else cc;
  }

  // ----- Reading a number back -----------------------------------------------------------

  /** The number at the beginning of a string. */
  function Natural(s: string): int { ValueOf(s[..DigitsEnd(s, 0)], 10) }

  /** The number that a string shows: after blanks, and with its sign. */
  function Reading(s: string): int {
    if s == "" then 0
    else if s[0] == ' ' then Reading(s[1..])
    else if s[0] == '-' then -Natural(s[1..])
    else if s[0] == '+' then Natural(s[1..])
    else Natural(s)
  }

  lemma {:induction false} BlanksSkipped(n: int, s: string)
    ensures Reading(Repeat(' ', n) + s) == Reading(s)
  {
    if n > 0 {
      RepeatFront(' ', n);
      assert (Repeat(' ', n) + s)[1..] == Repeat(' ', n - 1) + s;
      BlanksSkipped(n - 1, s);
    } else {
      assert Repeat(' ', n) + s == s;
    }
  }

  lemma {:induction false} DigitsEndAt(s: string, at: nat, end: nat)
    requires at <= end <= |s| && (forall i :: at <= i < end ==> IsDigit(s[i])) && (end < |s| ==> !IsDigit(s[end]))
    ensures DigitsEnd(s, at) == end
    decreases end - at
  {
    if at < end { DigitsEndAt(s, at + 1, end); }
  }

  lemma NaturalBefore(d: string, tail: string)
    requires IsNumeral(d, 10) && (tail != "" ==> !IsDigit(tail[0]))
    ensures Natural(d + tail) == ValueOf(d, 10)
  {
    hide ValueOf;
    forall i | 0 <= i < |d|
      ensures IsDigit((d + tail)[i])
    {
      assert 0 <= DigitValue(d[i]) < 10;
    }
    DigitsEndAt(d + tail, 0, |d|);
    assert (d + tail)[..|d|] == d;
  }

  lemma FirstDigit(d: string)
    requires IsNumeral(d, 10) && d != ""
    ensures IsDigit(d[0])
  {
    assert 0 <= DigitValue(d[0]) < 10;
  }

  predicate IsSign(sign: string) { sign == "" || sign == "-" || sign == "+" || sign == " " }

  lemma SignedReading(sign: string, d: string, tail: string)
    requires IsSign(sign) && IsNumeral(d, 10) && d != "" && (tail != "" ==> !IsDigit(tail[0]))
    ensures Reading(sign + d + tail) == if sign == "-" then -ValueOf(d, 10) else ValueOf(d, 10)
  {
    NaturalBefore(d, tail);
    FirstDigit(d);
    ReadingStarts(d + tail);
    hide *;
    Regrouped(sign, d, tail);
    if sign != "" {
      SignChar(sign);
      SignRead(sign[0], d + tail);
    }
  }

  lemma Regrouped(sign: string, d: string, tail: string)
    ensures sign + d + tail == sign + (d + tail)
    ensures sign == "" ==> sign + d + tail == d + tail
  {
  }

  lemma SignChar(sign: string)
    requires IsSign(sign) && sign != ""
    ensures sign == [sign[0]] && (sign == "-" <==> sign[0] == '-') && (sign[0] == '-' || sign[0] == '+' || sign[0] == ' ')
  {
  }

  lemma ReadingStarts(t: string)
    requires t != "" && IsDigit(t[0])
    ensures Reading(t) == Natural(t)
  {
    hide Natural;
  }

  lemma SignRead(c: char, t: string)
    ensures Reading([c] + t) == if c == ' ' then Reading(t) else if c == '-' then -Natural(t) else if c == '+' then Natural(t)
                                else Natural([c] + t)
  {
    hide Natural;
    assert ([c] + t)[1..] == t;
  }

  lemma NumeralParts(s: string, c: char)
    ensures IsNumeral(s + [c], 10) <==> IsNumeral(s, 10) && 0 <= DigitValue(c) < 10
  {
    hide DigitValue;
    if IsNumeral(s + [c], 10) {
      assert (s + [c])[|s|] == c;
      assert forall i :: 0 <= i < |s| ==> (s + [c])[i] == s[i];
    }
  }

  lemma {:induction false} AllZeros(n: int)
    ensures ValueOf(Repeat('0', n), 10) == 0 && IsNumeral(Repeat('0', n), 10)
  {
    if n > 0 {
      AllZeros(n - 1);
      ValueOneMore(Repeat('0', n - 1), '0', 10);
    }
  }

  lemma {:induction false} ZerosInFront(n: int, d: string)
    ensures ValueOf(Repeat('0', n) + d, 10) == ValueOf(d, 10) && (IsNumeral(d, 10) ==> IsNumeral(Repeat('0', n) + d, 10))
    decreases |d|
  {
    var z := Repeat('0', n);
    if d == "" {
      AllZeros(n);
      assert z + d == z;
    } else {
      var init, last := d[..|d| - 1], d[|d| - 1];
      ZerosInFront(n, init);
      var all := z + d;
      assert all == (z + init) + [last] && d == init + [last];
      ValueOneMore(z + init, last, 10);
      ValueOneMore(init, last, 10);
      NumeralParts(init, last);
      hide *;
    }
  }

  lemma {:induction false} ZerosBehind(d: string, n: int)
    requires ValueOf(d, 10) >= 0 && n > 0 && IsNumeral(d, 10)
    ensures ValueOf(d + Repeat('0', n), 10) >= 10 * ValueOf(d, 10) && IsNumeral(d + Repeat('0', n), 10)
    ensures ValueOf(d, 10) == 0 ==> ValueOf(d + Repeat('0', n), 10) == 0
  {
    var z := Repeat('0', n - 1);
    assert d + Repeat('0', n) == (d + z) + ['0'];
    ValueOneMore(d + z, '0', 10);
    if n > 1 {
      ZerosBehind(d, n - 1);
    } else {
      assert d + z == d;
    }
  }

  /** The digits of a decimal directive show the magnitude of the number. */
  lemma DigitsShow(sp: Spec, n: wide)
    ensures var d := Zeroed(Numeral(Magnitude(n, false), 10, false), sp.precision);
            d != "" && IsNumeral(d, 10) && ValueOf(d, 10) == if n < 0 then -(n as int) else n as int
  {
    var s := Numeral(Magnitude(n, false), 10, false);
    NumeralStands(Magnitude(n, false), 10, false);
    hide Numeral, ValueOf, IsNumeral;
    if sp.precision.Some? { ZerosInFront(sp.precision.value - |s|, s); }
  }

  /** Whether zeros are printed behind the number, where they change it. */
  predicate ZerosMislead(sp: Spec, n: wide) {
    sp.left && sp.zero && sp.width.Some? && sp.width.value > |DecimalBody(sp, n, false).s| && n != 0
  }

  /** What a decimal directive prints shows the number, with any flags, width and
      precision, the most negative number included, exactly when it is not padded
      with zeros on the right, as "%-05d" does. */
  lemma DecimalReadsBack(sp: Spec, n: wide)
    ensures Reading(Padded(sp, DecimalBody(sp, n, false))) == n <==> !ZerosMislead(sp, n)
  {
    var b, sign := DecimalBody(sp, n, false), SignOf(sp, n < 0);
    var d := Zeroed(Numeral(Magnitude(n, false), 10, false), sp.precision);
    DigitsShow(sp, n);
    PaddedIs(sp, b);
    assert b.s == sign + d && b.signed == (sign != "") && b.pad == if sp.zero then '0' else ' ';
    SignIs(sp, n);
    var w := if sp.width.Some? then sp.width.value as int - |b.s| else 0;
    assert ZerosMislead(sp, n) <==> sp.left && sp.zero && w > 0 && n != 0;
    hide *;
    if w <= 0 {
      assert sign + d + "" == sign + d;
      SignedReading(sign, d, "");
    } else if sp.left {
      LeftReading(sign, d, w, b.pad);
      assert sign + d + Repeat(b.pad, w) == b.s + Repeat(b.pad, w);
    } else {
      RightReading(sign, d, w, b.pad);
    }
  }

  lemma SignIs(sp: Spec, n: wide)
    ensures IsSign(SignOf(sp, n < 0)) && (SignOf(sp, n < 0) == "-" <==> n < 0)
  {
  }

  lemma LeftReading(sign: string, d: string, w: nat, pad: char)
    requires IsSign(sign) && IsNumeral(d, 10) && d != "" && ValueOf(d, 10) >= 0 && w > 0 && (pad == '0' || pad == ' ')
    ensures var r := Reading(sign + d + Repeat(pad, w));
            var v := if sign == "-" then -ValueOf(d, 10) else ValueOf(d, 10);
            r == v <==> pad == ' ' || v == 0
  {
    hide Reading, ValueOf, IsNumeral;
    if pad == ' ' {
      SignedReading(sign, d, Repeat(' ', w));
    } else {
      ZerosBehind(d, w);
      SignedReading(sign, d + Repeat('0', w), "");
      assert sign + (d + Repeat('0', w)) + "" == sign + d + Repeat('0', w);
    }
  }

  lemma RightReading(sign: string, d: string, w: nat, pad: char)
    requires IsSign(sign) && IsNumeral(d, 10) && d != "" && (pad == '0' || pad == ' ')
    ensures var s := sign + d;
            var fill := Repeat(pad, w);
            Reading(if pad == '0' && sign != "" then [s[0]] + fill + s[1..] else fill + s)
            == if sign == "-" then -ValueOf(d, 10) else ValueOf(d, 10)
  {
    hide Reading, ValueOf, IsNumeral;
    var s, fill := sign + d, Repeat(pad, w);
    assert sign + d + "" == s;
    if pad == ' ' {
      BlanksSkipped(w, s);
      SignedReading(sign, d, "");
    } else {
      ZerosInFront(w, d);
      SignedReading(sign, fill + d, "");
      if sign == "" {
        assert sign + (fill + d) + "" == fill + s;
      } else {
        assert s[1..] == d && sign == [s[0]];
        assert sign + (fill + d) + "" == [s[0]] + fill + s[1..];
      }
    }
  }
}
