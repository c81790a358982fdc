/** What the formatter prints for a directive: text, characters and numbers, with
    their signs, zeros and blanks. */
module SnprintfLaws {
  import opened Numerals
  import opened Options
  import opened Snprintf
  import opened SnprintfDirectives

  // ----- What it prints -----------------------------------------------------------------

  /** The output for a format, from `at` on, begins with `out`; the rest is what comes
      of it from `end` on, with the arguments from number `next` on. */
  predicate Prints(fmt: string, at: nat, args: seq<Arg>, k: nat, out: string, end: nat, next: nat) {
    var rest := Expand(fmt, end, args, next);
    Expand(fmt, at, args, k) == if rest.Some? then Some(out + rest.value) else None
  }

  /** The directive `d` at the percent sign at `at`, with the arguments for its asterisks. */
  predicate Given(fmt: string, at: nat, d: Directive, args: seq<Arg>, k: nat) {
    && d.Valid() && at < |fmt| && fmt[at] == '%' && Stands(fmt, at + 1, d.Text())
    && k + |d.Args()| <= |args| && args[k..k + |d.Args()|] == d.Args()
  }

  /** Text at one side, and blanks up to the width at the other. */
  predicate Aligned(out: string, shown: string, width: nat, left: bool) {
    var gap := if |shown| < width then width - |shown| else 0;
    && |out| == gap + |shown|
    && if left then out[..|shown|] == shown && forall i :: |shown| <= i < |out| ==> out[i] == ' '
       else out[gap..] == shown && forall i :: 0 <= i < gap ==> out[i] == ' '
  }

  /** A sign, zeros and digits, in this order. Blanks up to the width come before them
      or, to the left, behind them; with the flag for zeros there are zeros instead:
      behind the sign or, to the left, behind the digits. */
  predicate NumberForm(out: string, sign: string, zeros: nat, digits: string, width: nat, left: bool, zero: bool) {
    var core := |sign| + zeros + |digits|;
    var gap := if core < width then width - core else 0;
    var start := if left || zero then 0 else gap;
    var first := start + |sign|;
    var last := first + zeros + if zero && !left then gap else 0;
    && |out| == core + gap
    && (forall i :: 0 <= i < start ==> out[i] == ' ')
    && out[start..first] == sign
    && (forall i :: first <= i < last ==> out[i] == '0')
    && out[last..last + |digits|] == digits
    && forall i :: last + |digits| <= i < |out| ==> out[i] == if zero then '0' else ' '
  }

  lemma OneStep(fmt: string, at: nat, args: seq<Arg>, k: nat, p: Parsed, b: Body)
    requires at < |fmt| && fmt[at] == '%' && ParseSpec(fmt, at + 1, args, k) == Some(p) && p.at < |fmt|
    requires BodyOf(p.spec, fmt[p.at], args, p.k) == Some(b)
    ensures Prints(fmt, at, args, k, Padded(p.spec, b), p.at + 1, p.k + if TakesArg(fmt[p.at]) then 1 else 0)
  {
    hide ParseSpec, BodyOf, Padded, TakesArg;
  }

  /** Behind a directive, and the arguments before its own. */
  function End(at: nat, d: Directive): nat { at + 1 + |d.Text()| }

  function Own(k: nat, d: Directive): nat { k + |d.Args()| }

  lemma GivenParts(fmt: string, at: nat, d: Directive, args: seq<Arg>, k: nat)
    requires Given(fmt, at, d, args, k)
    ensures d.Valid() && at < |fmt| && fmt[at] == '%' && Stands(fmt, at + 1, d.Text())
    ensures k + |d.Args()| <= |args| && args[k..k + |d.Args()|] == d.Args()
    ensures End(at, d) == at + 1 + |d.Text()| && Own(k, d) == k + |d.Args()|
  {
    hide Stands, Directive.Valid, Directive.Text, Directive.Args;
  }

  lemma OneDirective(fmt: string, at: nat, d: Directive, args: seq<Arg>, k: nat, b: Body)
    requires Given(fmt, at, d, args, k) && BodyOf(d.Meant(), d.conv, args, Own(k, d)) == Some(b)
    ensures Prints(fmt, at, args, k, Padded(d.Meant(), b), End(at, d), Own(k, d) + if TakesArg(d.conv) then 1 else 0)
  {
    hide *;
    GivenParts(fmt, at, d, args, k);
    DirectiveRead(fmt, at + 1, d, args, k);
    OneStep(fmt, at, args, k, Parsed(d.Meant(), at + |d.Text()|, k + |d.Args()|), b);
  }

  lemma PaddedText(sp: Spec, b: Body)
    requires b.pad == ' '
    ensures Aligned(Padded(sp, b), b.s, if sp.width.None? then 0 else sp.width.value, sp.left)
  {
    PaddedIs(sp, b);
    hide Padded, Repeat;
  }

  lemma Pieces(out: string, a: string, sign: string, z: string, digits: string, e: string)
    requires out == a + sign + z + digits + e
    ensures |out| == |a| + |sign| + |z| + |digits| + |e| && out[|a|..|a| + |sign|] == sign
    ensures var last := |a| + |sign| + |z|;
            out[last..last + |digits|] == digits && forall i :: last + |digits| <= i < |out| ==> out[i] == e[i - last - |digits|]
    ensures forall i :: 0 <= i < |a| ==> out[i] == a[i]
    ensures forall i :: |a| + |sign| <= i < |a| + |sign| + |z| ==> out[i] == z[i - |a| - |sign|]
  {
  }

  /** The form of a number from its pieces: `fill` for the padding, wherever it goes. */
  lemma FormOf(out: string, sign: string, zeros: nat, digits: string, width: nat, left: bool, zero: bool, fill: int)
    requires var core := |sign| + zeros + |digits|; fill == if core < width then width - core else 0
    requires out == Repeat(' ', if left || zero then 0 else fill) + sign
                    + Repeat('0', zeros + if zero && !left then fill else 0) + digits
                    + Repeat(if zero then '0' else ' ', if left then fill else 0)
    ensures NumberForm(out, sign, zeros, digits, width, left, zero)
  {
    Pieces(out, Repeat(' ', if left || zero then 0 else fill), sign, Repeat('0', zeros + if zero && !left then fill else 0),
           digits, Repeat(if zero then '0' else ' ', if left then fill else 0));
    hide Repeat;
  }

  lemma PaddedBy(sp: Spec, b: Body, width: nat, fill: int)
    requires width == (if sp.width.None? then 0 else sp.width.value) && fill == if width <= |b.s| then 0 else width - |b.s|
    ensures Padded(sp, b) == if sp.left then b.s + Repeat(b.pad, fill)
                             else if b.pad == '0' && b.signed && b.s != "" then [b.s[0]] + Repeat(b.pad, fill) + b.s[1..]
                             else Repeat(b.pad, fill) + b.s
  {
    if fill == 0 {
      assert Repeat(b.pad, fill) == "";
      assert b.s + "" == b.s == "" + b.s && (b.s != "" ==> [b.s[0]] + "" + b.s[1..] == b.s);
    }
    hide Repeat;
  }

  lemma CoreLength(sign: string, zeros: nat, digits: string)
    ensures |sign + (Repeat('0', zeros) + digits)| == |sign| + zeros + |digits|
  {
  }

  lemma LeftForm(sign: string, zeros: nat, digits: string, width: nat, zero: bool, pad: char, fill: int)
    requires var core := |sign| + zeros + |digits|; fill == if core < width then width - core else 0
    requires |sign| <= 1 && pad == if zero then '0' else ' '
    ensures NumberForm(sign + (Repeat('0', zeros) + digits) + Repeat(pad, fill), sign, zeros, digits, width, true, zero)
  {
    hide *;
    NoRepeat();
    PaddedPieces(sign, Repeat('0', zeros), digits, Repeat(pad, fill));
    FormOf(sign + (Repeat('0', zeros) + digits) + Repeat(pad, fill), sign, zeros, digits, width, true, zero, fill);
  }

  lemma BlankForm(sign: string, zeros: nat, digits: string, width: nat, fill: int)
    requires var core := |sign| + zeros + |digits|; fill == if core < width then width - core else 0
    requires |sign| <= 1
    ensures NumberForm(Repeat(' ', fill) + (sign + (Repeat('0', zeros) + digits)), sign, zeros, digits, width, false, false)
  {
    hide *;
    NoRepeat();
    PaddedPieces(sign, Repeat('0', zeros), digits, Repeat(' ', fill));
    FormOf(Repeat(' ', fill) + (sign + (Repeat('0', zeros) + digits)), sign, zeros, digits, width, false, false, fill);
  }

  lemma ZeroForm(sign: string, zeros: nat, digits: string, width: nat, fill: int)
    requires var core := |sign| + zeros + |digits|; fill == if core < width then width - core else 0
    requires |sign| <= 1
    ensures var s := sign + (Repeat('0', zeros) + digits);
            NumberForm(if sign != "" then [s[0]] + Repeat('0', fill) + s[1..] else Repeat('0', fill) + s,
                       sign, zeros, digits, width, false, true)
  {
    hide *;
    var s := sign + (Repeat('0', zeros) + digits);
    NoRepeat();
    RepeatJoins('0', fill, zeros);
    PaddedPieces(sign, Repeat('0', zeros), digits, Repeat('0', fill));
    FormOf(if sign != "" then [s[0]] + Repeat('0', fill) + s[1..] else Repeat('0', fill) + s,
           sign, zeros, digits, width, false, true, fill);
  }

  /** The padding of a number goes where the flags say. */
  lemma PaddedNumber(sp: Spec, b: Body, sign: string, zeros: nat, digits: string)
    requires |sign| <= 1 && digits != ""
    requires b == Body(sign + (Repeat('0', zeros) + digits), sign != "", if sp.zero then '0' else ' ')
    ensures NumberForm(Padded(sp, b), sign, zeros, digits, if sp.width.None? then 0 else sp.width.value, sp.left, sp.zero)
  {
    hide *;
    CoreLength(sign, zeros, digits);
    var width := if sp.width.None? then 0 else sp.width.value;
    var fill := if width <= |b.s| then 0 else width - |b.s|;
    PaddedBy(sp, b, width, fill);
    if sp.left {
      LeftForm(sign, zeros, digits, width, sp.zero, b.pad, fill);
    } else if sp.zero {
      ZeroForm(sign, zeros, digits, width, fill);
    } else {
      BlankForm(sign, zeros, digits, width, fill);
    }
  }

  lemma NoRepeat()
    ensures Repeat(' ', 0) == "" == Repeat('0', 0)
  {
  }

  lemma PaddedPieces(sign: string, z: string, digits: string, fill: string)
    requires |sign| <= 1
    ensures var s := sign + (z + digits);
            && s == "" + sign + z + digits + ""
            && s + fill == "" + sign + z + digits + fill
            && fill + s == fill + sign + z + digits + ""
            && (sign == "" ==> fill + s == "" + sign + (fill + z) + digits + "")
            && (sign != "" ==> [s[0]] + fill + s[1..] == "" + sign + (fill + z) + digits + "")
  {
  }

  /** The first `n` characters of a string, or all of it. */
  function Cut(s: string, n: Option<nat>): string { if n.Some? && n.value < |s| then s[..n.value] else s }

  lemma TextBodyOf(sp: Spec, args: seq<Arg>, k: nat, str: Option<string>)
    requires k < |args| && args[k] == Text(str)
    ensures BodyOf(sp, 's', args, k) == Some(Body(if str.None? then "(null)" else Cut(str.value, sp.precision), false, ' '))
  {
  }

  lemma CharBodyOf(sp: Spec, args: seq<Arg>, k: nat, c: int)
    requires k < |args| && args[k] == Num(c) && -0x8000_0000 <= c < 0x8000_0000
    ensures BodyOf(sp, 'c', args, k) == Some(Body([(c % 256) as char], false, ' '))
  {
    hide DecimalBody, OctalBody, HexBody;
  }

  lemma PercentBodyOf(sp: Spec, args: seq<Arg>, k: nat)
    ensures BodyOf(sp, '%', args, k) == Some(Body("%", false, ' '))
  {
  }

  /** `%s`: the string, cut to the precision, between blanks; "(null)", never cut, for NULL. */
  lemma TextPrinted(fmt: string, at: nat, d: Directive, args: seq<Arg>, k: nat, str: Option<string>) returns (out: string)
    requires Given(fmt, at, d, args, k) && d.conv == 's' && Own(k, d) < |args| && args[Own(k, d)] == Text(str)
    ensures Prints(fmt, at, args, k, out, End(at, d), Own(k, d) + 1)
    ensures Aligned(out, if str.None? then "(null)" else Cut(str.value, d.Precision()), d.Width(), d.Left())
  {
    hide *;
    var b := Body(if str.None? then "(null)" else Cut(str.value, d.Precision()), false, ' ');
    out := Padded(d.Meant(), b);
    MeantParts(d);
    TextBodyOf(d.Meant(), args, Own(k, d), str);
    TakesOne(d.conv);
    OneDirective(fmt, at, d, args, k, b);
    PaddedText(d.Meant(), b);
  }

  lemma MeantParts(d: Directive)
    ensures var sp := d.Meant();
            && (if sp.width.None? then 0 else sp.width.value) == d.Width() && sp.left == d.Left() && sp.precision == d.Precision()
            && sp.size == d.size && sp.zero == ('0' in d.flags) && sp.alt == ('#' in d.flags)
            && sp.plus == ('+' in d.flags) && sp.blank == (' ' in d.flags)
  {
  }

  lemma TakesOne(conv: char)
    ensures conv in {'d', 'i', 'u', 'o', 'x', 'X', 's', 'c'} ==> TakesArg(conv)
    ensures conv == '%' ==> !TakesArg(conv)
  {
  }

  /** `%c`: one character, and `%%`: a percent sign, whatever the precision. */
  lemma CharPrinted(fmt: string, at: nat, d: Directive, args: seq<Arg>, k: nat, c: int) returns (out: string)
    requires Given(fmt, at, d, args, k) && d.conv == 'c' && Own(k, d) < |args| && args[Own(k, d)] == Num(c)
    requires -0x8000_0000 <= c < 0x8000_0000
    ensures Prints(fmt, at, args, k, out, End(at, d), Own(k, d) + 1)
    ensures Aligned(out, [(c % 256) as char], d.Width(), d.Left())
  {
    hide *;
    var b := Body([(c % 256) as char], false, ' ');
    out := Padded(d.Meant(), b);
    MeantParts(d);
    CharBodyOf(d.Meant(), args, Own(k, d), c);
    TakesOne(d.conv);
    OneDirective(fmt, at, d, args, k, b);
    PaddedText(d.Meant(), b);
  }

  lemma PercentPrinted(fmt: string, at: nat, d: Directive, args: seq<Arg>, k: nat) returns (out: string)
    requires Given(fmt, at, d, args, k) && d.conv == '%'
    ensures Prints(fmt, at, args, k, out, End(at, d), Own(k, d))
    ensures Aligned(out, "%", d.Width(), d.Left())
  {
    hide *;
    var b := Body("%", false, ' ');
    out := Padded(d.Meant(), b);
    MeantParts(d);
    PercentBodyOf(d.Meant(), args, Own(k, d));
    TakesOne(d.conv);
    OneDirective(fmt, at, d, args, k, b);
    PaddedText(d.Meant(), b);
  }

  // ----- Numbers ---------------------------------------------------------------------------

  /** `v` is what an argument `a` comes to in the size of the directive: the low
      sixteen bits of it for a short. */
  predicate Comes(d: Directive, signed: bool, a: int, v: int) {
    match d.size
    case IntSize => v == a && if signed then -0x8000_0000 <= a < 0x8000_0000 else 0 <= a < 0x1_0000_0000
    case LongSize => v == a && if signed then -0x8000_0000_0000_0000 <= a < 0x8000_0000_0000_0000
                               else 0 <= a < 0x1_0000_0000_0000_0000
    case ShortSize =>
      && v % 0x1_0000 == a % 0x1_0000
      && if signed then -0x8000 <= v < 0x8000 && -0x8000_0000 <= a < 0x8000_0000
         else 0 <= v < 0x1_0000 && 0 <= a < 0x1_0000_0000
  }

  /** The sign of a `%d`: a minus; or a plus or a blank, if the flags ask for it. */
  function Sign(d: Directive, v: int): string {
    if v < 0 then "-" else if '+' in d.flags then "+" else if ' ' in d.flags then " " else ""
  }

  /** The zeros that the precision asks for before `n` digits. */
  function Zeros(d: Directive, n: nat): nat {
    if d.Precision().Some? && d.Precision().value > n then d.Precision().value - n else 0
  }

  /** The only digits that stand for `v`, without leading zeros. */
  predicate Shows(digits: string, v: nat, base: Base, upper: bool) {
    && digits != "" && ValueOf(digits, base) == v && (digits[0] == '0' ==> digits == "0")
    && forall c :: c in digits ==>
         0 <= DigitValue(c) < base && ('0' <= c <= '9' || if upper then 'A' <= c <= 'F' else 'a' <= c <= 'f')
  }

  lemma NumeralShows(v: nat, base: Base, upper: bool)
    ensures Shows(Numeral(v, base, upper), v, base, upper)
  {
    NumeralStands(v, base, upper);
    NumeralCase(v, base, upper);
    if v == 0 {
      assert Numeral(0, base, upper) == [Digit(0, upper)];
    }
    hide Numeral, ValueOf, DigitValue;
  }

  function Abs(v: int): nat { if v < 0 then -v else v }

  lemma ZerosAre(d: Directive, digits: string)
    ensures Zeroed(digits, d.Precision()) == Repeat('0', Zeros(d, |digits|)) + digits
  {
    hide Directive.Precision;
    assert "" + digits == digits;
  }

  lemma SignedBodyOf(sp: Spec, conv: char, args: seq<Arg>, k: nat, a: int, v: wide)
    requires (conv == 'd' || conv == 'i') && k < |args| && args[k] == Num(a) && Signed(sp.size, a) == Some(v)
    requires |DecimalBody(sp, v, false).s| <= 512
    ensures BodyOf(sp, conv, args, k) == Some(DecimalBody(sp, v, false))
  {
    hide DecimalBody, Signed;
  }

  lemma ComesSigned(d: Directive, a: int, v: int)
    requires Comes(d, true, a, v)
    ensures -0x8000_0000_0000_0000 <= v < 0x8000_0000_0000_0000 && Signed(d.size, a) == Some(v)
  {
  }

  lemma DecimalBodyIs(d: Directive, v: wide)
    ensures var digits := Numeral(Abs(v), 10, false);
            DecimalBody(d.Meant(), v, false)
            == Body(Sign(d, v) + (Repeat('0', Zeros(d, |digits|)) + digits), Sign(d, v) != "", if '0' in d.flags then '0' else ' ')
    ensures |Sign(d, v)| <= 1
  {
    ZerosAre(d, Numeral(Abs(v), 10, false));
    hide Numeral, Zeroed, Zeros, Repeat;
  }

  /** `%d` and `%i`, while the number fits in the buffer for it. */
  lemma SignedPrinted(fmt: string, at: nat, d: Directive, args: seq<Arg>, k: nat, a: int, v: int)
    returns (digits: string, out: string)
    requires Given(fmt, at, d, args, k) && (d.conv == 'd' || d.conv == 'i')
    requires Own(k, d) < |args| && args[Own(k, d)] == Num(a) && Comes(d, true, a, v)
    requires var n := |Numeral(Abs(v), 10, false)|; |Sign(d, v)| + Zeros(d, n) + n <= 512
    ensures Shows(digits, Abs(v), 10, false)
    ensures Prints(fmt, at, args, k, out, End(at, d), Own(k, d) + 1)
    ensures NumberForm(out, Sign(d, v), Zeros(d, |digits|), digits, d.Width(), d.Left(), '0' in d.flags)
  {
    hide *;
    ComesSigned(d, a, v);
    var b := DecimalBody(d.Meant(), v, false);
    digits, out := Numeral(Abs(v), 10, false), Padded(d.Meant(), b);
    NumeralShows(Abs(v), 10, false);
    ShowsSome(digits, Abs(v), 10, false);
    MeantParts(d);
    DecimalBodyIs(d, v);
    SignedBodyOf(d.Meant(), d.conv, args, Own(k, d), a, v);
    TakesOne(d.conv);
    OneDirective(fmt, at, d, args, k, b);
    PaddedNumber(d.Meant(), b, Sign(d, v), Zeros(d, |digits|), digits);
  }

  lemma ShowsSome(digits: string, v: nat, base: Base, upper: bool)
    requires Shows(digits, v, base, upper)
    ensures digits != ""
  {
    hide ValueOf, DigitValue;
  }

  // ----- Unsigned numbers ---------------------------------------------------------------------

  function BaseOf(conv: char): Base { if conv == 'o' then 8 else if conv == 'u' then 10 else 16 }

  /** The zeros before an unsigned number: the alternate form of an octal one has at
      least one zero in front. */
  function UnsignedZeros(d: Directive, digits: string): nat {
    if d.conv == 'o' && '#' in d.flags && Zeros(d, |digits|) == 0 && digits != "0" then 1 else Zeros(d, |digits|)
  }

  lemma ComesUnsigned(d: Directive, a: int, v: int)
    requires Comes(d, false, a, v)
    ensures 0 <= v < 0x1_0000_0000_0000_0000 && Unsigned(d.size, a) == Some(v) && Abs(v) == v
  {
  }

  function UnsignedBody(sp: Spec, conv: char, v: uwide): Body {
    if conv == 'u' then DecimalBody(sp, AsWide(v), true)
    else if conv == 'o' then OctalBody(sp, v)
    else HexBody(sp, v, conv == 'X')
  }

  lemma UnsignedBodyOf(sp: Spec, conv: char, args: seq<Arg>, k: nat, a: int, v: uwide)
    requires conv in {'u', 'o', 'x', 'X'} && k < |args| && args[k] == Num(a) && Unsigned(sp.size, a) == Some(v)
    requires (conv == 'x' || conv == 'X' ==> !sp.alt) && |UnsignedBody(sp, conv, v).s| <= 512
    ensures BodyOf(sp, conv, args, k) == Some(UnsignedBody(sp, conv, v))
  {
    hide DecimalBody, OctalBody, HexBody, Unsigned, AsWide;
  }

  lemma AsWideKeeps(v: uwide)
    ensures Magnitude(AsWide(v), true) == v
  {
  }

  lemma OctalZero(d: Directive, digits: string)
    requires digits != "" && (digits[0] == '0' <==> digits == "0")
    ensures var z := Repeat('0', Zeros(d, |digits|)) + digits;
            z != "" && (z[0] != '0' <==> Zeros(d, |digits|) == 0 && digits != "0")
            && (z[0] != '0' ==> "0" + z == Repeat('0', 1) + digits)
  {
    hide Zeros;
    assert Repeat('0', 1) == Repeat('0', 0) + ['0'] == "0";
  }

  lemma OctalBodyIs(sp: Spec, v: uwide)
    ensures var digits := Zeroed(Numeral(v, 8, false), sp.precision);
            OctalBody(sp, v) == Body(if sp.alt && digits != "" && digits[0] != '0' then "0" + digits else digits,
                                     false, if sp.zero then '0' else ' ')
  {
    hide Zeroed, Numeral;
  }

  lemma PlainBodyIs(sp: Spec, conv: char, v: uwide)
    requires conv in {'u', 'x', 'X'}
    ensures UnsignedBody(sp, conv, v)
            == Body(Zeroed(Numeral(v, BaseOf(conv), conv == 'X'), sp.precision), false, if sp.zero then '0' else ' ')
  {
    AsWideKeeps(v);
    hide Zeroed, Numeral, AsWide, Magnitude;
    var z := Zeroed(Numeral(v, BaseOf(conv), conv == 'X'), sp.precision);
    assert "" + z == z;
  }

  lemma ZerosCase(d: Directive, digits: string)
    ensures UnsignedZeros(d, digits) ==
            if d.conv == 'o' && '#' in d.flags && Zeros(d, |digits|) == 0 && digits != "0" then 1 else Zeros(d, |digits|)
    ensures BaseOf('o') == 8
  {
    hide Zeros;
  }

  lemma OctalIs(sp: Spec, v: uwide)
    ensures UnsignedBody(sp, 'o', v) == OctalBody(sp, v)
  {
    hide OctalBody, DecimalBody, HexBody;
  }

  lemma UnsignedBodyIs(d: Directive, v: uwide)
    requires d.conv in {'u', 'o', 'x', 'X'}
    ensures var digits := Numeral(v, BaseOf(d.conv), d.conv == 'X');
            UnsignedBody(d.Meant(), d.conv, v)
            == Body("" + (Repeat('0', UnsignedZeros(d, digits)) + digits), false, if '0' in d.flags then '0' else ' ')
  {
    hide *;
    var digits := Numeral(v, BaseOf(d.conv), d.conv == 'X');
    MeantParts(d);
    ZerosAre(d, digits);
    ZerosCase(d, digits);
    assert forall s: string :: "" + s == s;
    if d.conv == 'o' {
      NumeralShows(v, 8, false);
      ZeroFirst(digits, v, 8, false);
      OctalZero(d, digits);
      OctalBodyIs(d.Meant(), v);
      OctalIs(d.Meant(), v);
    } else {
      PlainBodyIs(d.Meant(), d.conv, v);
    }
  }

  lemma ZeroFirst(digits: string, v: nat, base: Base, upper: bool)
    requires Shows(digits, v, base, upper)
    ensures digits != "" && (digits[0] == '0' <==> digits == "0")
  {
    hide ValueOf, DigitValue;
  }

  /** `%u`, `%o`, `%x` and `%X`, while the number fits in the buffer for it. */
  lemma UnsignedPrinted(fmt: string, at: nat, d: Directive, args: seq<Arg>, k: nat, a: int, v: int)
    returns (digits: string, out: string)
    requires Given(fmt, at, d, args, k) && d.conv in {'u', 'o', 'x', 'X'} && (d.conv == 'x' || d.conv == 'X' ==> '#' !in d.flags)
    requires Own(k, d) < |args| && args[Own(k, d)] == Num(a) && Comes(d, false, a, v)
    requires var digits := Numeral(Abs(v), BaseOf(d.conv), d.conv == 'X'); UnsignedZeros(d, digits) + |digits| <= 512
    ensures Shows(digits, Abs(v), BaseOf(d.conv), d.conv == 'X')
    ensures Prints(fmt, at, args, k, out, End(at, d), Own(k, d) + 1)
    ensures NumberForm(out, "", UnsignedZeros(d, digits), digits, d.Width(), d.Left(), '0' in d.flags)
  {
    hide *;
    ComesUnsigned(d, a, v);
    var upper, b := d.conv == 'X', UnsignedBody(d.Meant(), d.conv, v);
    digits, out := Numeral(v, BaseOf(d.conv), upper), Padded(d.Meant(), b);
    NumeralShows(v, BaseOf(d.conv), upper);
    ShowsSome(digits, v, BaseOf(d.conv), upper);
    MeantParts(d);
    UnsignedBodyIs(d, v);
    assert "" + (Repeat('0', UnsignedZeros(d, digits)) + digits) == Repeat('0', UnsignedZeros(d, digits)) + digits;
    UnsignedBodyOf(d.Meant(), d.conv, args, Own(k, d), a, v);
    TakesOne(d.conv);
    OneDirective(fmt, at, d, args, k, b);
    PaddedNumber(d.Meant(), b, "", UnsignedZeros(d, digits), digits);
  }

  // ----- Whole formats --------------------------------------------------------------------------

  /** What is not a directive is printed as it stands. */
  lemma {:induction false} PlainPrinted(fmt: string, at: nat, args: seq<Arg>, k: nat)
    requires at <= |fmt| && '%' !in fmt[at..]
    ensures Expand(fmt, at, args, k) == Some(fmt[at..])
    decreases |fmt| - at
  {
    if at < |fmt| {
      assert fmt[at..][0] == fmt[at] && fmt[at..] == [fmt[at]] + fmt[at + 1..];
      PlainPrinted(fmt, at + 1, args, k);
    } else {
      assert fmt[at..] == "";
    }
  }

  /** A percent sign before a character that is nothing in a directive is printed
      with it, and one at the end of the format is not printed. */
  lemma UnknownPrinted(fmt: string, at: nat, args: seq<Arg>, k: nat)
    requires at < |fmt| && fmt[at] == '%'
    ensures at + 1 == |fmt| ==> Expand(fmt, at, args, k) == Some("")
    ensures at + 1 < |fmt| && fmt[at + 1] !in "-+# 0123456789.*qlhdiuoxXscfeEgGnp%" ==>
              Prints(fmt, at, args, k, ['%', fmt[at + 1]], at + 2, k)
  {
  }

  /** `%s` alone, wherever it stands. */
  lemma BareText(fmt: string, at: nat, args: seq<Arg>, k: nat, s: string)
    requires at + 1 < |fmt| && fmt[at] == '%' && fmt[at + 1] == 's' && k < |args| && args[k] == Text(Some(s))
    ensures Prints(fmt, at, args, k, s, at + 2, k + 1)
  {
    var d := Directive("", Absent, Absent, IntSize, 's');
    BareDirective(fmt, at, d, args, k);
    hide *;
    var out := TextPrinted(fmt, at, d, args, k, Some(s));
    AlignedWhole(out, s, d);
  }

  lemma BareDirective(fmt: string, at: nat, d: Directive, args: seq<Arg>, k: nat)
    requires d == Directive("", Absent, Absent, IntSize, 's')
    requires at + 1 < |fmt| && fmt[at] == '%' && fmt[at + 1] == 's' && k < |args|
    ensures Given(fmt, at, d, args, k) && End(at, d) == at + 2 && Own(k, d) == k
  {
    assert d.Text() == "s" == fmt[at + 1..at + 2];
    assert d.Args() == [] == args[k..k];
  }

  lemma AlignedWhole(out: string, s: string, d: Directive)
    requires d == Directive("", Absent, Absent, IntSize, 's') && Aligned(out, Cut(s, d.Precision()), d.Width(), d.Left())
    ensures out == s
  {
    assert d.Width() == 0 && !d.Left() && d.Precision() == None;
    assert out[0..] == out;
  }

  /** The format of a path: the directory, a slash and the name. */
  lemma PathFormat(dir: string, name: string)
    ensures Expand("%s/%s", 0, [Text(Some(dir)), Text(Some(name))], 0) == Some(dir + "/" + name)
    ensures Expand("%s", 0, [Text(Some(name))], 0) == Some(name)
  {
    var fmt, args := "%s/%s", [Text(Some(dir)), Text(Some(name))];
    BareText(fmt, 0, args, 0, dir);
    BareText(fmt, 3, args, 1, name);
    BareText("%s", 0, [Text(Some(name))], 0, name);
    PlainPrinted(fmt, 5, args, 2);
    PlainPrinted("%s", 2, [Text(Some(name))], 1);
    assert Expand(fmt, 2, args, 1) == After("/", Expand(fmt, 3, args, 1));
    hide Expand;
    assert name + "" == name && dir + ("/" + name) == dir + "/" + name;
  }
}
