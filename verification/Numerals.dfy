/** How src/ap_snprintf.c writes numbers: digits put into a buffer from its end. */
module Numerals {

  type wide = x: int | -0x8000_0000_0000_0000 <= x < 0x8000_0000_0000_0000
  type uwide = x: int | 0 <= x < 0x1_0000_0000_0000_0000

  function Digit(d: int, upper: bool): char
    requires 0 <= d < 16
  {
    if upper then "0123456789ABCDEF"[d] else "0123456789abcdef"[d]
  }

  /** The bases that numbers are written in. */
  type Base = b: nat | b == 8 || b == 10 || b == 16 witness 10

  function Quotient(n: nat, base: Base): (q: nat)
    ensures q < n || (n == 0 && q == 0)
    ensures q == 0 <==> n < base
  {
    if base == 8 then n / 8 else if base == 10 then n / 10 else n / 16
  }

  function Remainder(n: nat, base: Base): (r: nat)
    ensures r < base && (n < base ==> r == n)
  {
    if base == 8 then n % 8 else if base == 10 then n % 10 else n % 16
  }

  function Times(n: int, base: Base): int {
    if base == 8 then n * 8 else if base == 10 then n * 10 else n * 16
  }

  lemma Division(n: nat, base: Base)
    ensures Times(Quotient(n, base), base) + Remainder(n, base) == n
    ensures 2 * Quotient(n, base) <= n
  {
  }

  lemma TimesIs(n: int, base: Base)
    ensures Times(n, base) == n * base
  {
  }

  /** The numeral of `n`, without leading zeros. */
  function Numeral(n: nat, base: Base, upper: bool): (r: string)
    ensures r != ""
  {
    if n < base then [Digit(n, upper)]
    else Numeral(Quotient(n, base), base, upper) + [Digit(Remainder(n, base), upper)]
  }

  function DigitValue(c: char): int {
    if '0' <= c <= '9' then c as int - '0' as int
    else if 'a' <= c <= 'f' then c as int - 'a' as int + 10
    else if 'A' <= c <= 'F' then c as int - 'A' as int + 10
    else -1
  }

  predicate IsNumeral(s: string, base: Base) {
    forall i :: 0 <= i < |s| ==> 0 <= DigitValue(s[i]) < base
  }

  /** The number that a string of digits stands for. */
  function ValueOf(s: string, base: Base): int {
    if s == "" then 0 else Times(ValueOf(s[..|s| - 1], base), base) + DigitValue(s[|s| - 1])
  }

  lemma DigitStands(d: int, upper: bool)
    requires 0 <= d < 16
    ensures DigitValue(Digit(d, upper)) == d
    ensures Digit(d, upper) == '0' <==> d == 0
  {
  }

  /** The digits are the ten figures and then the first six letters, large or small. */
  lemma DigitForm(d: int, upper: bool)
    requires 0 <= d < 16
    ensures var first := if d < 10 then '0' as int else (if upper then 'A' as int else 'a' as int) - 10;
            Digit(d, upper) as int == first + d
  {
  }

  /** No letters in an octal or decimal numeral, and only large or small ones in a hexadecimal one. */
  lemma {:induction false} NumeralCase(n: nat, base: Base, upper: bool)
    ensures forall c :: c in Numeral(n, base, upper) ==>
              '0' <= c <= '9' || (base == 16 && if upper then 'A' <= c <= 'F' else 'a' <= c <= 'f')
    decreases n
  {
    if n < base {
      DigitForm(n, upper);
    } else {
      Division(n, base);
      NumeralCase(Quotient(n, base), base, upper);
      DigitForm(Remainder(n, base), upper);
      hide Numeral, Digit, Quotient, Remainder;
      assert Numeral(n, base, upper) == Numeral(Quotient(n, base), base, upper) + [Digit(Remainder(n, base), upper)] by { NumeralMore(n, base, upper); }
    }
  }

  lemma NumeralMore(n: nat, base: Base, upper: bool)
    requires n >= base
    ensures Numeral(n, base, upper) == Numeral(Quotient(n, base), base, upper) + [Digit(Remainder(n, base), upper)]
  {
    hide Digit, Quotient, Remainder;
  }

  /** A numeral stands for its number, and begins with a zero only if that is zero. */
  lemma {:induction false} NumeralStands(n: nat, base: Base, upper: bool)
    ensures var s := Numeral(n, base, upper);
            ValueOf(s, base) == n && IsNumeral(s, base) && (s[0] == '0' <==> n == 0)
    decreases n
  {
    var s := Numeral(n, base, upper);
    if n < base {
      DigitStands(n, upper);
      ValueOneMore("", Digit(n, upper), base);
      assert s == "" + [Digit(n, upper)] && IsNumeral("", base) && Times(0, base) == 0;
    } else {
      Division(n, base);
      var q, r := Quotient(n, base), Remainder(n, base);
      NumeralStands(q, base, upper);
      DigitStands(r, upper);
      ValueOneMore(Numeral(q, base, upper), Digit(r, upper), base);
      assert s == Numeral(q, base, upper) + [Digit(r, upper)];
      hide *;
    }
  }

  lemma ValueOneMore(s: string, c: char, base: Base)
    ensures ValueOf(s + [c], base) == Times(ValueOf(s, base), base) + DigitValue(c) && ValueOf("", base) == 0
    ensures IsNumeral(s, base) && 0 <= DigitValue(c) < base ==> IsNumeral(s + [c], base)
  {
    hide DigitValue, Times;
    assert (s + [c])[..|s|] == s;
  }

  function Pow2(k: nat): nat { if k == 0 then 1 else 2 * Pow2(k - 1) }

  lemma {:induction false} NumeralLength(n: nat, base: Base, upper: bool, k: nat)
    requires n < Pow2(k) && k > 0
    ensures |Numeral(n, base, upper)| <= k
  {
    hide Digit, Quotient;
    if n >= base {
      Division(n, base);
      NumeralLength(Quotient(n, base), base, upper, k - 1);
    }
  }

  lemma SixtyFour()
    ensures Pow2(64) == 0x1_0000_0000_0000_0000
  {
    assert Pow2(8) == 0x100;
    assert Pow2(16) == 0x1_0000;
    assert Pow2(24) == 0x100_0000;
    assert Pow2(32) == 0x1_0000_0000;
    assert Pow2(40) == 0x100_0000_0000;
    assert Pow2(48) == 0x1_0000_0000_0000;
    assert Pow2(56) == 0x100_0000_0000_0000;
  }

  lemma WideLength(n: uwide, base: Base, upper: bool)
    ensures |Numeral(n, base, upper)| <= 64
  {
    SixtyFour();
    hide Pow2;
    NumeralLength(n, base, upper, 64);
  }

  /** `a[p..]` with one more character before it. */
  lemma OneBefore(s: string, front: string, c: char, tail: string)
    requires s == front + [c] + tail
    ensures s == front + ([c] + tail)
  {
  }

  function Magnitude(num: wide, isUnsigned: bool): uwide {
    if isUnsigned then num as int % 0x1_0000_0000_0000_0000 else if num < 0 then -(num as int) else num as int
  }

  /** `conv_10`: the digits are in the buffer from `p` on. The magnitude is right
      for every number, the most negative one included, and nothing on the way
      to it leaves its type. */
  method Conv10(num: wide, isUnsigned: bool, buf: array<char>) returns (p: nat, isNegative: bool)
    requires buf.Length >= 64
    modifies buf
    ensures isNegative == (!isUnsigned && num < 0)
    ensures p <= buf.Length
    ensures buf[p..] == Numeral(Magnitude(num, isUnsigned), 10, false)
  {
    var magnitude: uwide;
    if isUnsigned {
      magnitude := num % 0x1_0000_0000_0000_0000;
      isNegative := false;
    } else {
      isNegative := num < 0;
      if isNegative {
        var t: wide := num + 1;
        var minusT: wide := -t;
        magnitude := minusT + 1;
      } else {
        magnitude := num;
      }
    }
    WideLength(magnitude, 10, false);
    p := DigitsBackward(magnitude, 10, false, buf);
  }

  /** `conv_p2`. */
  method ConvP2(num: uwide, nbits: nat, upper: bool, buf: array<char>) returns (p: nat)
    requires nbits in {3, 4} && buf.Length >= 64
    modifies buf
    ensures p <= buf.Length && buf[p..] == Numeral(num, if nbits == 3 then 8 else 16, upper)
  {
    WideLength(num, if nbits == 3 then 8 else 16, upper);
    p := DigitsBackward(num, if nbits == 3 then 8 else 16, upper, buf);
  }

  /** The loop of both: at least one digit, from the last one to the first. */
  method DigitsBackward(num: uwide, base: Base, upper: bool, buf: array<char>) returns (p: nat)
    requires buf.Length >= |Numeral(num, base, upper)|
    modifies buf
    ensures p <= buf.Length && buf[p..] == Numeral(num, base, upper)
  {
    hide Digit, Quotient, Remainder;
    p := buf.Length;
    var magnitude: nat := num;
    var more := true;
    assert buf[p..] == "";
    while more
      invariant p <= buf.Length
      invariant more ==> |Numeral(magnitude, base, upper)| <= p
      invariant more ==> Numeral(num, base, upper) == Numeral(magnitude, base, upper) + buf[p..]
      invariant !more ==> Numeral(num, base, upper) == buf[p..]
      decreases more, magnitude
    {
      var next := Quotient(magnitude, base);
      ghost var tail := buf[p..];
      p := p - 1;
      buf[p] := Digit(Remainder(magnitude, base), upper);
      assert buf[p..] == [buf[p]] + tail;
      if next != 0 {
        OneBefore(Numeral(num, base, upper), Numeral(next, base, upper), buf[p], tail);
      }
      more := next != 0;
      magnitude := next;
    }
  }
}
