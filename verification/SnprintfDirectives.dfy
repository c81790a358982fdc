/** How the formatter reads a directive, in terms of what is written in the format:
    its flags, its width and precision, its size and its conversion. */
module SnprintfDirectives {
  import opened Numerals
  import opened Options
  import opened Snprintf

  // ----- A directive as it is written ------------------------------------------------

  /** A width or a precision: none; a number; an asterisk, for the argument `v`; for
      a precision, nothing behind the dot. */
  datatype Amount = Absent | Digits(n: nat) | Star(v: int) | Bare
  {
    function Text(): string {
      match this
      case Absent => ""
      case Digits(n) => Numeral(n, 10, false)
      case Star(_) => "*"
      case Bare => ""
    }

    function Args(): seq<Arg> { if Star? then [Num(v)] else [] }
  }

  const FLAGS := "-+# 0"

  datatype Directive = Directive(flags: string, width: Amount, precision: Amount, size: Size, conv: char)
  {
    predicate Valid() {
      && (forall c :: c in flags ==> c in FLAGS)
      && !width.Bare? && (width.Digits? ==> 0 < width.n < 0x8000_0000) && (width.Star? ==> -0x8000_0000 < width.v < 0x8000_0000)
      && (precision.Digits? ==> precision.n < 0x8000_0000) && (precision.Star? ==> -0x8000_0000 <= precision.v < 0x8000_0000)
      && conv in "diuoxXsc%"
    }

    function Size(): string { match size case IntSize => "" case LongSize => "l" case ShortSize => "h" }

    function Tail(): string { Size() + [conv] }

    function FromPrecision(): string { (if precision.Absent? then "" else "." + precision.Text()) + Tail() }

    function FromWidth(): string { width.Text() + FromPrecision() }

    /** All of it, but for the percent sign. */
    function Text(): string { flags + FromWidth() }

    function Args(): seq<Arg> { width.Args() + precision.Args() }

    /** To the left: by a flag, or by a negative width. */
    predicate Left() { '-' in flags || (width.Star? && width.v < 0) }

    function Width(): nat {
      match width
      case Digits(n) => n
      case Star(v) => if v < 0 then -v else v
      case _ => 0
    }

    function Precision(): Option<nat> {
      match precision
      case Absent => None
      case Digits(n) => Some(n)
      case Star(v) => Some(if v < 0 then 0 else v)
      case Bare => Some(0)
    }

    function Meant(): Spec {
      Spec(Left(), '+' in flags, '#' in flags, ' ' in flags, '0' in flags,
           if width.Absent? then None else Some(Width()), Precision(), size)
    }
  }

  /** The text `w` stands in `fmt` at `at`. */
  predicate Stands(fmt: string, at: nat, w: string) { at + |w| <= |fmt| && fmt[at..at + |w|] == w }

  lemma StandsParts(fmt: string, at: nat, v: string, w: string)
    requires Stands(fmt, at, v + w)
    ensures Stands(fmt, at, v) && Stands(fmt, at + |v|, w)
    ensures forall i :: 0 <= i < |v| ==> fmt[at + i] == v[i]
  {
    var all := fmt[at..at + |v + w|];
    assert fmt[at..at + |v|] == all[..|v|] && fmt[at + |v|..at + |v| + |w|] == all[|v|..];
    assert forall i :: 0 <= i < |v| ==> fmt[at + i] == all[i] == v[i];
  }

  lemma StandsFirst(fmt: string, at: nat, w: string)
    requires Stands(fmt, at, w) && w != ""
    ensures at < |fmt| && fmt[at] == w[0] && At(fmt, at) == w[0]
  {
    assert fmt[at..at + |w|][0] == fmt[at];
  }

  // ----- Reading it -------------------------------------------------------------------

  lemma {:induction false} FlagsMean(flags: string)
    requires forall c :: c in flags ==> c in FLAGS
    ensures WithFlags(PLAIN, flags) ==
            PLAIN.(left := '-' in flags, plus := '+' in flags, alt := '#' in flags, blank := ' ' in flags, zero := '0' in flags)
    decreases |flags|
  {
    if flags != "" {
      var init, last := flags[..|flags| - 1], flags[|flags| - 1];
      assert flags == init + [last] && last in flags;
      FlagsMean(init);
      assert forall c :: c in flags <==> c in init || c == last;
    }
  }

  lemma {:induction false} FlagsEndAt(fmt: string, at: nat, end: nat)
    requires at <= end <= |fmt| && (forall i :: at <= i < end ==> IsFlag(fmt[i])) && (end < |fmt| ==> !IsFlag(fmt[end]))
    ensures FlagsEnd(fmt, at) == end
    decreases end - at
  {
    if at < end { FlagsEndAt(fmt, at + 1, end); }
  }

  /** Digits for `n`, with something else behind them, are read as `n`. */
  lemma NumberRead(fmt: string, at: nat, n: nat)
    requires Stands(fmt, at, Numeral(n, 10, false))
    requires at + |Numeral(n, 10, false)| < |fmt| && !IsDigit(fmt[at + |Numeral(n, 10, false)|])
    ensures var end := at + |Numeral(n, 10, false)|;
            IsDigit(At(fmt, at)) && DigitsEnd(fmt, at) == end && ValueOf(fmt[at..end], 10) == n
    ensures n > 0 ==> At(fmt, at) != '0'
  {
    var d := Numeral(n, 10, false);
    NumeralStands(n, 10, false);
    NumeralCase(n, 10, false);
    hide Numeral, ValueOf, IsNumeral;
    StandsFirst(fmt, at, d);
    forall i | at <= i < at + |d|
      ensures IsDigit(fmt[i])
    {
      assert fmt[i] == fmt[at..at + |d|][i - at] == d[i - at] && d[i - at] in d;
    }
    DigitsEndAt(fmt, at, at + |d|);
  }

  /** The character that comes behind the flags, or behind the width. */
  lemma TailFirst(d: Directive)
    requires d.Valid()
    ensures d.Tail() != "" && IsConvOrSize(d.Tail()[0])
    ensures d.FromPrecision() != "" && (d.FromPrecision()[0] == '.' || d.FromPrecision() == d.Tail())
  {
  }

  predicate IsConvOrSize(c: char) { c in "diuoxXsc%lh" }

  lemma FromWidthFirst(d: Directive)
    requires d.Valid()
    ensures d.FromWidth() != ""
    ensures !IsFlag(d.FromWidth()[0]) && (IsLower(d.FromWidth()[0]) ==> d.FromWidth() == d.Tail())
  {
    TailFirst(d);
    if d.width.Digits? {
      NumeralStands(d.width.n, 10, false);
      NumeralCase(d.width.n, 10, false);
      hide Numeral, ValueOf, IsNumeral;
      assert d.width.Text()[0] in d.width.Text();
    }
  }

  lemma SizeRead(fmt: string, p: Parsed, d: Directive)
    requires d.Valid() && Stands(fmt, p.at, d.Tail()) && p.spec.size.IntSize?
    ensures ParseSize(fmt, p) == Some(Parsed(p.spec.(size := d.size), p.at + |d.Size()|, p.k))
    ensures p.at + |d.Size()| < |fmt| && fmt[p.at + |d.Size()|] == d.conv
  {
    StandsParts(fmt, p.at, d.Size(), [d.conv]);
    StandsFirst(fmt, p.at, d.Tail());
    StandsFirst(fmt, p.at + |d.Size()|, [d.conv]);
  }

  lemma WidthDigits(fmt: string, p: Parsed, args: seq<Arg>, end: nat, n: nat)
    requires p.at <= end <= |fmt| && IsDigit(At(fmt, p.at)) && DigitsEnd(fmt, p.at) == end
    requires ValueOf(fmt[p.at..end], 10) == n < 0x8000_0000
    ensures ParseWidth(fmt, p, args) == Some(Parsed(p.spec.(width := Some(n)), end, p.k))
  {
    hide DigitsEnd, ValueOf;
  }

  lemma WidthStar(fmt: string, p: Parsed, args: seq<Arg>, v: int)
    requires p.at <= |fmt| && At(fmt, p.at) == '*' && p.k < |args| && args[p.k] == Num(v) && -0x8000_0000 < v < 0x8000_0000
    ensures ParseWidth(fmt, p, args) ==
            Some(Parsed(if v < 0 then p.spec.(left := true, width := Some(-v)) else p.spec.(width := Some(v)), p.at + 1, p.k + 1))
  {
    hide DigitsEnd, ValueOf;
  }

  lemma WidthNone(fmt: string, p: Parsed, args: seq<Arg>)
    requires p.at <= |fmt| && !IsDigit(At(fmt, p.at)) && At(fmt, p.at) != '*'
    ensures ParseWidth(fmt, p, args) == Some(p)
  {
    hide DigitsEnd, ValueOf;
  }

  /** What comes behind the width is no digit and no asterisk. */
  lemma PrecisionFirst(d: Directive)
    requires d.Valid()
    ensures d.FromPrecision() != "" && !IsDigit(d.FromPrecision()[0]) && d.FromPrecision()[0] != '*'
  {
    TailFirst(d);
  }

  /** The flags of a directive, as they are read. */
  function Flagged0(d: Directive): Spec {
    Spec('-' in d.flags, '+' in d.flags, '#' in d.flags, ' ' in d.flags, '0' in d.flags, None, None, IntSize)
  }

  /** How far it has been read after the flags, the width and the precision. */
  function Step0(d: Directive, at: nat, k: nat): Parsed { Parsed(Flagged0(d), at + |d.flags|, k) }

  function Step1(d: Directive, at: nat, k: nat): Parsed {
    Parsed(Flagged0(d).(left := d.Left(), width := d.Meant().width), at + |d.flags| + |d.width.Text()|, k + |d.width.Args()|)
  }

  function Step2(d: Directive, at: nat, k: nat): Parsed {
    Parsed(d.Meant().(size := IntSize), at + |d.flags| + |d.width.Text()| + |d.FromPrecision()| - |d.Tail()|, k + |d.Args()|)
  }

  lemma WidthIsDigits(fmt: string, at: nat, d: Directive, args: seq<Arg>, k: nat)
    requires d.Valid() && d.width.Digits? && Stands(fmt, at + |d.flags|, d.width.Text())
    requires var end := at + |d.flags| + |d.width.Text()|;
             end < |fmt| && !IsDigit(fmt[end])
    ensures at + |d.flags| <= |fmt| && ParseWidth(fmt, Step0(d, at, k), args) == Some(Step1(d, at, k))
  {
    hide *;
    WidthDigitsText(d, at, k);
    NumberRead(fmt, at + |d.flags|, d.width.n);
    WidthDigits(fmt, Step0(d, at, k), args, at + |d.flags| + |d.width.Text()|, d.width.n);
  }

  lemma WidthDigitsText(d: Directive, at: nat, k: nat)
    requires d.Valid() && d.width.Digits?
    ensures d.width.Text() == Numeral(d.width.n, 10, false) && d.width.n < 0x8000_0000
    ensures var p := Step0(d, at, k);
            p.at == at + |d.flags| && Step1(d, at, k) == Parsed(p.spec.(width := Some(d.width.n)), p.at + |d.width.Text()|, p.k)
  {
    hide Numeral;
  }

  lemma WidthIsStar(fmt: string, at: nat, d: Directive, args: seq<Arg>, k: nat)
    requires d.Valid() && d.width.Star? && Stands(fmt, at + |d.flags|, "*")
    requires k < |args| && args[k] == Num(d.width.v)
    ensures at + |d.flags| <= |fmt| && ParseWidth(fmt, Step0(d, at, k), args) == Some(Step1(d, at, k))
  {
    hide ParseWidth;
    StandsFirst(fmt, at + |d.flags|, "*");
    WidthStar(fmt, Step0(d, at, k), args, d.width.v);
  }

  lemma WidthText(d: Directive)
    ensures d.width.Star? ==> d.width.Text() == "*" && d.width.Args() == [Num(d.width.v)]
    ensures d.width.Absent? ==> d.width.Text() == "" && d.width.Args() == []
    ensures d.FromWidth() == d.width.Text() + d.FromPrecision()
  {
    hide Directive.FromPrecision;
  }

  lemma WidthIsAbsent(fmt: string, at: nat, d: Directive, args: seq<Arg>, k: nat)
    requires d.Valid() && d.width.Absent?
    requires var p := at + |d.flags|;
             p < |fmt| && !IsDigit(fmt[p]) && fmt[p] != '*'
    ensures ParseWidth(fmt, Step0(d, at, k), args) == Some(Step1(d, at, k))
  {
    hide ParseWidth;
    WidthNone(fmt, Step0(d, at, k), args);
  }

  lemma WidthByKind(fmt: string, at: nat, d: Directive, args: seq<Arg>, k: nat)
    requires d.Valid() && !d.width.Bare? && Stands(fmt, at + |d.flags|, d.width.Text())
    requires k + |d.width.Args()| <= |args| && args[k..k + |d.width.Args()|] == d.width.Args()
    requires var end := at + |d.flags| + |d.width.Text()|;
             end < |fmt| && !IsDigit(fmt[end]) && fmt[end] != '*'
    ensures at + |d.flags| <= |fmt| && ParseWidth(fmt, Step0(d, at, k), args) == Some(Step1(d, at, k))
  {
    hide *;
    WidthText(d);
    if d.width.Digits? {
      WidthIsDigits(fmt, at, d, args, k);
    } else if d.width.Star? {
      assert args[k] == args[k..k + 1][0];
      WidthIsStar(fmt, at, d, args, k);
    } else {
      WidthIsAbsent(fmt, at, d, args, k);
    }
  }

  lemma WidthAt(fmt: string, at: nat, d: Directive, args: seq<Arg>, k: nat)
    requires d.Valid() && Stands(fmt, at + |d.flags|, d.FromWidth())
    requires k + |d.width.Args()| <= |args| && args[k..k + |d.width.Args()|] == d.width.Args()
    ensures at + |d.flags| <= |fmt| && ParseWidth(fmt, Step0(d, at, k), args) == Some(Step1(d, at, k))
    ensures Stands(fmt, Step1(d, at, k).at, d.FromPrecision())
  {
    assert !d.width.Bare? && Step1(d, at, k).at == at + |d.flags| + |d.width.Text()|;
    hide *;
    PrecisionFirst(d);
    WidthText(d);
    StandsParts(fmt, at + |d.flags|, d.width.Text(), d.FromPrecision());
    StandsFirst(fmt, at + |d.flags| + |d.width.Text()|, d.FromPrecision());
    WidthByKind(fmt, at, d, args, k);
  }

  lemma PrecisionDigits(fmt: string, p: Parsed, args: seq<Arg>, end: nat, n: nat)
    requires p.at + 1 <= end <= |fmt| && At(fmt, p.at) == '.' && IsDigit(At(fmt, p.at + 1)) && DigitsEnd(fmt, p.at + 1) == end
    requires ValueOf(fmt[p.at + 1..end], 10) == n < 0x8000_0000
    ensures ParsePrecision(fmt, p, args) == Some(Parsed(p.spec.(precision := Some(n)), end, p.k))
  {
    hide DigitsEnd, ValueOf;
  }

  lemma PrecisionStar(fmt: string, p: Parsed, args: seq<Arg>, v: int)
    requires p.at <= |fmt| && At(fmt, p.at) == '.' && At(fmt, p.at + 1) == '*'
    requires p.k < |args| && args[p.k] == Num(v) && -0x8000_0000 <= v < 0x8000_0000
    ensures ParsePrecision(fmt, p, args) == Some(Parsed(p.spec.(precision := Some(if v < 0 then 0 else v)), p.at + 2, p.k + 1))
  {
    hide DigitsEnd, ValueOf;
  }

  lemma PrecisionOther(fmt: string, p: Parsed, args: seq<Arg>)
    requires p.at <= |fmt|
    ensures At(fmt, p.at) != '.' ==> ParsePrecision(fmt, p, args) == Some(p)
    ensures At(fmt, p.at) == '.' && !IsDigit(At(fmt, p.at + 1)) && At(fmt, p.at + 1) != '*' ==>
              ParsePrecision(fmt, p, args) == Some(Parsed(p.spec.(precision := Some(0)), p.at + 1, p.k))
  {
    hide DigitsEnd, ValueOf;
  }

  lemma FromDot(d: Directive)
    requires !d.precision.Absent?
    ensures d.FromPrecision() == "." + d.precision.Text() + d.Tail()
  {
    hide Directive.Tail, Amount.Text;
  }

  lemma AfterTheDot(fmt: string, at: nat, d: Directive)
    requires d.Valid() && Stands(fmt, at, d.FromPrecision()) && !d.precision.Absent?
    ensures At(fmt, at) == '.' && at < |fmt| && Stands(fmt, at + 1, d.precision.Text())
    ensures var n := at + 1 + |d.precision.Text()|;
            Stands(fmt, n, d.Tail()) && n < |fmt| && At(fmt, n) == fmt[n] && IsConvOrSize(fmt[n])
    ensures |d.FromPrecision()| == 1 + |d.precision.Text()| + |d.Tail()|
  {
    hide *;
    TailFirst(d);
    FromDot(d);
    var n := d.precision.Text();
    StandsFirst(fmt, at, "." + n + d.Tail());
    StandsParts(fmt, at, "." + n, d.Tail());
    StandsParts(fmt, at, ".", n);
    StandsFirst(fmt, at + 1 + |n|, d.Tail());
  }

  lemma Step2Is(d: Directive, at: nat, k: nat)
    requires d.Valid() && !d.precision.Absent?
    ensures Step2(d, at, k) == Parsed(Step1(d, at, k).spec.(precision := d.Precision()),
                                      Step1(d, at, k).at + 1 + |d.precision.Text()|, Step1(d, at, k).k + |d.precision.Args()|)
  {
    hide Numeral;
  }

  lemma PrecisionIsDigits(fmt: string, at: nat, d: Directive, args: seq<Arg>, k: nat)
    requires d.Valid() && d.precision.Digits?
    requires var p := Step1(d, at, k).at;
             At(fmt, p) == '.' && p < |fmt| && Stands(fmt, p + 1, d.precision.Text())
             && p + 1 + |d.precision.Text()| < |fmt| && !IsDigit(fmt[p + 1 + |d.precision.Text()|])
    ensures ParsePrecision(fmt, Step1(d, at, k), args) == Some(Step2(d, at, k))
  {
    hide *;
    PrecisionDigitsText(d);
    Step2Is(d, at, k);
    var p := Step1(d, at, k).at;
    NumberRead(fmt, p + 1, d.precision.n);
    PrecisionDigits(fmt, Step1(d, at, k), args, p + 1 + |d.precision.Text()|, d.precision.n);
  }

  lemma PrecisionDigitsText(d: Directive)
    requires d.Valid() && d.precision.Digits?
    ensures d.precision.Text() == Numeral(d.precision.n, 10, false) && d.precision.Args() == []
    ensures d.precision.n < 0x8000_0000 && d.Precision() == Some(d.precision.n)
  {
    hide Numeral;
  }

  lemma PrecisionIsStar(fmt: string, at: nat, d: Directive, args: seq<Arg>, k: nat)
    requires d.Valid() && d.precision.Star?
    requires var p := Step1(d, at, k);
             At(fmt, p.at) == '.' && p.at < |fmt| && Stands(fmt, p.at + 1, "*") && p.k < |args| && args[p.k] == Num(d.precision.v)
    ensures ParsePrecision(fmt, Step1(d, at, k), args) == Some(Step2(d, at, k))
  {
    Step2Is(d, at, k);
    hide ParsePrecision, Step1, Step2;
    StandsFirst(fmt, Step1(d, at, k).at + 1, "*");
    PrecisionStar(fmt, Step1(d, at, k), args, d.precision.v);
  }

  lemma PrecisionIsBare(fmt: string, at: nat, d: Directive, args: seq<Arg>, k: nat)
    requires d.Valid() && d.precision.Bare?
    requires var p := Step1(d, at, k).at;
             At(fmt, p) == '.' && p + 1 < |fmt| && !IsDigit(fmt[p + 1]) && fmt[p + 1] != '*'
    ensures ParsePrecision(fmt, Step1(d, at, k), args) == Some(Step2(d, at, k))
  {
    Step2Is(d, at, k);
    hide ParsePrecision, Step1, Step2;
    PrecisionOther(fmt, Step1(d, at, k), args);
  }

  lemma PrecisionIsAbsent(fmt: string, at: nat, d: Directive, args: seq<Arg>, k: nat)
    requires d.Valid() && d.precision.Absent? && Stands(fmt, Step1(d, at, k).at, d.FromPrecision())
    ensures Step1(d, at, k).at <= |fmt| && ParsePrecision(fmt, Step1(d, at, k), args) == Some(Step2(d, at, k))
    ensures Stands(fmt, Step2(d, at, k).at, d.Tail())
  {
    TailFirst(d);
    assert d.FromPrecision() == d.Tail();
    assert Step2(d, at, k) == Step1(d, at, k);
    hide ParsePrecision, Step1, Step2, Directive.Tail, Directive.FromPrecision;
    StandsFirst(fmt, Step1(d, at, k).at, d.Tail());
    PrecisionOther(fmt, Step1(d, at, k), args);
  }

  /** What stands for a precision behind the dot, by its kind. */
  lemma PrecisionText(d: Directive, c: char)
    requires IsConvOrSize(c)
    ensures !IsDigit(c) && c != '*'
    ensures d.precision.Star? ==> d.precision.Text() == "*" && d.precision.Args() == [Num(d.precision.v)]
    ensures d.precision.Bare? ==> d.precision.Text() == ""
  {
  }

  lemma PrecisionBehindDot(fmt: string, at: nat, d: Directive, args: seq<Arg>, k: nat, p: nat, j: nat)
    requires d.Valid() && !d.precision.Absent? && Step1(d, at, k).at == p && Step1(d, at, k).k == j
    requires j + |d.precision.Args()| <= |args| && args[j..j + |d.precision.Args()|] == d.precision.Args()
    requires At(fmt, p) == '.' && p < |fmt| && Stands(fmt, p + 1, d.precision.Text())
    requires var n := p + 1 + |d.precision.Text()|; n < |fmt| && IsConvOrSize(fmt[n])
    ensures ParsePrecision(fmt, Step1(d, at, k), args) == Some(Step2(d, at, k))
  {
    hide *;
    PrecisionText(d, fmt[p + 1 + |d.precision.Text()|]);
    if d.precision.Digits? {
      PrecisionIsDigits(fmt, at, d, args, k);
    } else if d.precision.Star? {
      assert args[j] == args[j..j + 1][0];
      PrecisionIsStar(fmt, at, d, args, k);
    } else {
      PrecisionIsBare(fmt, at, d, args, k);
    }
  }

  lemma PrecisionAt(fmt: string, at: nat, d: Directive, args: seq<Arg>, k: nat)
    requires d.Valid() && Stands(fmt, Step1(d, at, k).at, d.FromPrecision())
    requires var j := Step1(d, at, k).k;
             j + |d.precision.Args()| <= |args| && args[j..j + |d.precision.Args()|] == d.precision.Args()
    ensures Step1(d, at, k).at <= |fmt| && ParsePrecision(fmt, Step1(d, at, k), args) == Some(Step2(d, at, k))
    ensures Stands(fmt, Step2(d, at, k).at, d.Tail())
  {
    hide *;
    if d.precision.Absent? {
      PrecisionIsAbsent(fmt, at, d, args, k);
    } else {
      AfterTheDot(fmt, Step1(d, at, k).at, d);
      Step2Is(d, at, k);
      PrecisionBehindDot(fmt, at, d, args, k, Step1(d, at, k).at, Step1(d, at, k).k);
    }
  }

  lemma SpecSteps(fmt: string, at: nat, args: seq<Arg>, k: nat, end: nat, sp: Spec, p1: Parsed, p2: Parsed, p3: Parsed)
    requires at <= end <= |fmt| && !IsLower(At(fmt, at)) && FlagsEnd(fmt, at) == end && WithFlags(PLAIN, fmt[at..end]) == sp
    requires ParseWidth(fmt, Parsed(sp, end, k), args) == Some(p1)
    requires p1.at <= |fmt| && ParsePrecision(fmt, p1, args) == Some(p2)
    requires p2.at <= |fmt| && ParseSize(fmt, p2) == Some(p3)
    ensures ParseSpec(fmt, at, args, k) == Some(p3)
  {
    hide FlagsEnd, WithFlags, ParseWidth, ParsePrecision, ParseSize;
  }

  /** A directive is read as what it means, whatever comes before and behind it. */
  lemma DirectiveRead(fmt: string, at: nat, d: Directive, args: seq<Arg>, k: nat)
    requires d.Valid() && Stands(fmt, at, d.Text())
    requires k + |d.Args()| <= |args| && args[k..k + |d.Args()|] == d.Args()
    ensures at + |d.Text()| <= |fmt| && |d.Text()| > 0 && fmt[at + |d.Text()| - 1] == d.conv
    ensures ParseSpec(fmt, at, args, k) == Some(Parsed(d.Meant(), at + |d.Text()| - 1, k + |d.Args()|))
  {
    hide *;
    TextFirst(fmt, at, d);
    if IsLower(At(fmt, at)) {
      ShortRead(fmt, at, d, args, k);
    } else {
      LongRead(fmt, at, d, args, k);
    }
  }

  lemma ShortRead(fmt: string, at: nat, d: Directive, args: seq<Arg>, k: nat)
    requires d.Valid() && IsLower(At(fmt, at)) && at <= |fmt|
    requires d.flags == "" && d.FromWidth() == d.Tail() && Stands(fmt, at, d.Tail())
    ensures at + |d.Text()| <= |fmt| && |d.Text()| > 0 && fmt[at + |d.Text()| - 1] == d.conv
    ensures ParseSpec(fmt, at, args, k) == Some(Parsed(d.Meant(), at + |d.Text()| - 1, k + |d.Args()|))
  {
    TailAlone(d);
    SizeRead(fmt, Parsed(PLAIN, at, k), d);
    hide ParseSize, FlagsEnd, WithFlags, ParseWidth, ParsePrecision;
  }

  lemma LongRead(fmt: string, at: nat, d: Directive, args: seq<Arg>, k: nat)
    requires d.Valid() && !IsLower(At(fmt, at))
    requires k + |d.Args()| <= |args| && args[k..k + |d.Args()|] == d.Args()
    requires var end := at + |d.flags|;
             end <= |fmt| && FlagsEnd(fmt, at) == end && fmt[at..end] == d.flags && Stands(fmt, end, d.FromWidth())
    ensures at + |d.Text()| <= |fmt| && |d.Text()| > 0 && fmt[at + |d.Text()| - 1] == d.conv
    ensures ParseSpec(fmt, at, args, k) == Some(Parsed(d.Meant(), at + |d.Text()| - 1, k + |d.Args()|))
  {
    hide *;
    StepsAre(d, at, k);
    ArgsParts(d, args, k);
    FlagsRead(d);
    WidthAt(fmt, at, d, args, k);
    PrecisionAt(fmt, at, d, args, k);
    SizeRead(fmt, Step2(d, at, k), d);
    var p3 := Parsed(d.Meant(), at + |d.Text()| - 1, k + |d.Args()|);
    SpecSteps(fmt, at, args, k, at + |d.flags|, Flagged0(d), Step1(d, at, k), Step2(d, at, k), p3);
  }

  lemma FlagsRead(d: Directive)
    requires d.Valid()
    ensures WithFlags(PLAIN, d.flags) == Flagged0(d)
  {
    FlagsMean(d.flags);
    hide WithFlags;
  }

  lemma StepsAre(d: Directive, at: nat, k: nat)
    requires d.Valid()
    ensures Step0(d, at, k) == Parsed(Flagged0(d), at + |d.flags|, k) && Step1(d, at, k).k == k + |d.width.Args()|
    ensures var p := Step2(d, at, k);
            && p.spec.size.IntSize? && p.spec.(size := d.size) == d.Meant()
            && p.at + |d.Size()| == at + |d.Text()| - 1 && p.k == k + |d.Args()|
    ensures |d.Text()| > 0
  {
    LengthsAdd(d);
    hide Numeral;
  }

  /** The flags end where the width begins; and only a directive without flags,
      width and precision begins with a small letter. */
  lemma TextFirst(fmt: string, at: nat, d: Directive)
    requires d.Valid() && Stands(fmt, at, d.Text())
    ensures var end := at + |d.flags|;
            end <= |fmt| && FlagsEnd(fmt, at) == end && fmt[at..end] == d.flags && Stands(fmt, end, d.FromWidth())
    ensures IsLower(At(fmt, at)) ==> d.flags == "" && d.FromWidth() == d.Tail() && Stands(fmt, at, d.Tail())
  {
    StandsParts(fmt, at, d.flags, d.FromWidth());
    FromWidthFirst(d);
    StandsFirst(fmt, at + |d.flags|, d.FromWidth());
    StandsFirst(fmt, at, d.Text());
    FlagsAre(d, fmt, at);
    hide Directive.FromWidth, Directive.Tail;
    FlagsEndAt(fmt, at, at + |d.flags|);
    if d.flags != "" { FlagIsNotLower(d); }
  }

  lemma LengthsAdd(d: Directive)
    ensures |d.Text()| == |d.flags| + |d.width.Text()| + |d.FromPrecision()| && |d.Tail()| == |d.Size()| + 1
    ensures |d.Args()| == |d.width.Args()| + |d.precision.Args()|
  {
    hide Numeral;
  }

  lemma TailAlone(d: Directive)
    requires d.Valid() && d.flags == "" && d.FromWidth() == d.Tail()
    ensures d.width.Absent? && d.precision.Absent? && d.Args() == [] && |d.Text()| == |d.Size()| + 1
    ensures d.Meant() == PLAIN.(size := d.size)
  {
    hide Numeral;
    assert |d.FromWidth()| == |d.width.Text()| + |d.FromPrecision()|;
  }

  lemma FlagIsNotLower(d: Directive)
    requires d.Valid() && d.flags != ""
    ensures !IsLower(d.Text()[0])
  {
    hide Numeral;
    assert d.Text()[0] == d.flags[0] && d.flags[0] in d.flags;
  }

  lemma FlagsAre(d: Directive, fmt: string, at: nat)
    requires d.Valid() && Stands(fmt, at, d.Text())
    ensures forall i :: at <= i < at + |d.flags| ==> IsFlag(fmt[i])
  {
    StandsParts(fmt, at, d.flags, d.FromWidth());
    forall i | at <= i < at + |d.flags|
      ensures IsFlag(fmt[i])
    {
      assert fmt[i] == d.flags[i - at] && d.flags[i - at] in d.flags;
    }
  }

  lemma ArgsParts(d: Directive, args: seq<Arg>, k: nat)
    requires k + |d.Args()| <= |args| && args[k..k + |d.Args()|] == d.Args()
    ensures var n := |d.width.Args()|;
            && args[k..k + n] == d.width.Args() && args[k + n..k + n + |d.precision.Args()|] == d.precision.Args()
            && |d.Args()| == n + |d.precision.Args()|
  {
    var n := |d.width.Args()|;
    var all := args[k..k + |d.Args()|];
    assert args[k..k + n] == all[..n] && args[k + n..k + n + |d.precision.Args()|] == all[n..];
  }
}
