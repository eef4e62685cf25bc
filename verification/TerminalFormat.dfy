/**
 Number and text formatting of kernel/drivers/video/vga.c: the characters that `vvga_write` sends
 to the terminal for a format and its arguments.
 */
module TerminalFormat {

  const UINT: nat := 0x1_0000_0000
  const PERCENT: nat := 37
  const MINUS: nat := 45
  const ZERO: nat := 48

  /** "0123456789abcdef"[d] */
  function DigitChar(d: nat): nat
    requires d < 16
  {
    if d < 10 then ZERO + d else 87 + d
  }

  function DigitValue(c: nat): nat {
    if c >= 97 then c - 87 else if c >= ZERO then c - ZERO else 0
  }

  /** The last digit of a number ... */
  function Last(n: nat, base: nat): (d: nat)
    requires base > 0
    ensures d < base
  {
    n % base
  }

  /** ... and what is left without it. */
  function Rest(n: nat, base: nat): (q: nat)
    requires base >= 2
    ensures n > 0 ==> q < n
  {
    LastAndRest(n, base);
    n / base
  }

  lemma LastAndRest(n: nat, base: nat)
    requires base >= 2
    ensures n / base * base + n % base == n && (n > 0 ==> n / base < n) && (n / base == 0 ==> n % base == n)
  {
    Euclid(n, base);
    if n > 0 {
      Smaller(n / base, n % base, base, n);
    }
  }

  lemma Split(n: nat, base: nat)
    requires base >= 2
    ensures Rest(n, base) * base + Last(n, base) == n && (Rest(n, base) == 0 ==> Last(n, base) == n)
  {
    LastAndRest(n, base);
  }

  /** The digits of a positive number, most significant first; nothing for 0. */
  function Digits(n: nat, base: nat): (r: seq<nat>)
    requires 2 <= base <= 16
    decreases n
  {
    if n == 0 then [] else Digits(Rest(n, base), base) + [DigitChar(Last(n, base))]
  }

  /** What `vga_print_unsigned` prints. */
  function Unsigned(n: nat, base: nat): seq<nat>
    requires 2 <= base <= 16
  {
    if n == 0 then [ZERO] else Digits(n, base)
  }

  /** What `vga_print_signed` prints. */
  function Signed(n: int): seq<nat> {
    if n < 0 then [MINUS] + Unsigned(-n, 10) else Unsigned(n, 10)
  }

  /** Reading a numeral back. */
  function Value(s: seq<nat>, base: nat): nat {
    if s == [] then 0 else Value(s[..|s| - 1], base) * base + DigitValue(s[|s| - 1])
  }

  function SignedValue(s: seq<nat>): int {
    if s != [] && s[0] == MINUS then -(Value(s[1..], 10) as int) else Value(s, 10)
  }

  lemma Euclid(n: nat, base: nat)
    requires base > 0
    ensures n / base * base + n % base == n && n % base < base
  {
  }

  lemma Smaller(q: nat, r: nat, base: nat, n: nat)
    requires 2 <= base && q * base + r == n && n > 0
    ensures q < n && (q == 0 ==> r == n)
  {
    assert q * base >= q * 2;
  }

  /** A digit more multiplies by the base and adds the digit. */
  lemma ValueSnoc(s: seq<nat>, d: nat, base: nat)
    requires d < 16
    ensures Value(s + [DigitChar(d)], base) == Value(s, base) * base + d
  {
    var t := s + [DigitChar(d)];
    assert t[..|t| - 1] == s;
    assert DigitValue(DigitChar(d)) == d;
  }

  lemma {:induction false} DigitsRoundTrip(n: nat, base: nat)
    requires 2 <= base <= 16
    ensures Value(Digits(n, base), base) == n
    ensures n > 0 ==> Digits(n, base) != [] && Digits(n, base)[0] != ZERO && Digits(n, base)[0] != MINUS
    decreases n
  {
    hide Value, DigitValue, Rest, Last;
    if n > 0 {
      Split(n, base);
      DigitsRoundTrip(Rest(n, base), base);
      ValueSnoc(Digits(Rest(n, base), base), Last(n, base), base);
    } else {
      EmptyValue(base);
    }
  }

  lemma EmptyValue(base: nat)
    ensures Value([], base) == 0
  {
  }

  /** Printing is exact in every base used: the numeral reads back as the number. */
  lemma UnsignedRoundTrip(n: nat, base: nat)
    requires 2 <= base <= 16
    ensures Value(Unsigned(n, base), base) == n
    ensures n > 0 ==> Unsigned(n, base) != [] && Unsigned(n, base)[0] != ZERO
  {
    DigitsRoundTrip(n, base);
    var zero := [ZERO];
    assert zero[..0] == [];
  }

  /** Every 32-bit number prints and reads back, the most negative one included. */
  lemma SignedRoundTrip(n: int)
    ensures SignedValue(Signed(n)) == n
  {
    if n < 0 {
      UnsignedRoundTrip(-n, 10);
      assert Signed(n)[1..] == Unsigned(-n, 10);
    } else {
      UnsignedRoundTrip(n, 10);
      DigitsRoundTrip(n, 10);
    }
  }

  function Power(base: nat, k: nat): (r: nat)
    ensures base > 0 ==> r > 0
  {
    if k == 0 then 1 else base * Power(base, k - 1)
  }

  lemma {:induction false} DigitsFit(n: nat, base: nat, k: nat)
    requires 4 <= base <= 16 && n < Power(4, k)
    ensures |Digits(n, base)| <= k
    decreases k
  {
    hide Rest, Last;
    if n > 0 {
      assert k > 0;
      RestBound(n, base, Power(4, k - 1));
      DigitsFit(Rest(n, base), base, k - 1);
    }
  }

  lemma RestBound(n: nat, base: nat, m: nat)
    requires base >= 4 && n < 4 * m
    ensures Rest(n, base) < m
  {
    hide Rest, Last;
    Split(n, base);
    if Rest(n, base) >= m {
      LargeProduct(Rest(n, base), base, m);
    }
  }

  lemma LargeProduct(q: nat, base: nat, m: nat)
    requires base >= 4 && q >= m
    ensures q * base >= 4 * m
  {
    assert q * base >= m * base;
    assert m * base >= m * 4;
  }

  lemma {:induction false} FewDigits(n: nat, base: nat, k: nat)
    requires 2 <= base <= 3 && |Digits(n, base)| <= k
    ensures n < Power(3, k)
    decreases n
  {
    hide Rest, Last;
    if n > 0 {
      Split(n, base);
      FewDigits(Rest(n, base), base, k - 1);
      OneDigitMore(n, base, Rest(n, base), Last(n, base), Power(3, k - 1));
    }
  }

  lemma OneDigitMore(n: nat, base: nat, q: nat, d: nat, m: nat)
    requires n == q * base + d && d < base <= 3 && q < m
    ensures n < 3 * m
  {
    assert (q + 1) * base <= (q + 1) * 3;
  }

  /** Four digits more. */
  lemma FourMore(k: nat)
    ensures Power(4, k + 4) == 256 * Power(4, k) && Power(3, k + 4) == 81 * Power(3, k)
  {
    assert Power(4, k + 4) == 4 * Power(4, k + 3) == 16 * Power(4, k + 2) == 64 * Power(4, k + 1);
    assert Power(3, k + 4) == 3 * Power(3, k + 3) == 9 * Power(3, k + 2) == 27 * Power(3, k + 1);
  }

  lemma SixteenDigits()
    ensures Power(4, 16) == UINT && Power(3, 16) < UINT - 1
  {
    FourMore(0);
    FourMore(4);
    FourMore(8);
    FourMore(12);
  }

  /** The digit buffer of 16 characters is long enough for every 32-bit number if and only if the base is 4 or more. */
  lemma BufferFitsExactly(base: nat)
    requires 2 <= base <= 16
    ensures (forall n :: 0 <= n < UINT ==> |Digits(n, base)| <= 16) <==> base >= 4
  {
    hide Digits, Power;
    SixteenDigits();
    if base >= 4 {
      forall n | 0 <= n < UINT ensures |Digits(n, base)| <= 16 {
        DigitsFit(n, base, 16);
      }
    } else {
      var most := UINT - 1;
      if |Digits(most, base)| <= 16 {
        FewDigits(most, base, 16);
      }
      assert |Digits(most, base)| > 16;
    }
  }

  // ----- Formats -----

  /** An argument as the callee reads it; a null string prints as "(null)". */
  datatype Arg = Number(value: int) | Text(s: seq<nat>) | NullText

  const NULL_TEXT: seq<nat> := [40, 110, 117, 108, 108, 41]

  /** Conversion characters: c, s, d, i, u, x. */
  predicate TakesNumber(c: nat) {
    c == 99 || c == 100 || c == 105 || c == 117 || c == 120
  }

  predicate TakesArgument(c: nat) {
    TakesNumber(c) || c == 115
  }

  /** An argument of the C type that the conversion reads, without the NUL that ends strings. */
  predicate Suits(c: nat, a: Arg) {
    if c == 115 then !a.Number?
    else if c == 117 || c == 120 then a.Number? && 0 <= a.value < UINT
    else a.Number? && -(UINT as int) / 2 <= a.value < UINT / 2
  }

  /** The characters for one conversion that takes an argument. */
  function Convert(c: nat, a: Arg): seq<nat>
    requires TakesArgument(c) && Suits(c, a)
  {
    if c == 115 then (if a.NullText? then NULL_TEXT else a.s)
    else if c == 99 then [a.value % 256]
    else if c == 117 then Unsigned(a.value, 10)
    else if c == 120 then [ZERO, 120] + Unsigned(a.value, 16)
    else Signed(a.value)
  }

  lemma DigitLetters(d: nat)
    requires d < 16
    ensures DigitChar(d) == "0123456789abcdef"[d] as int
  {
  }

  /**
   What each conversion prints: `%u` and `%x` (after "0x") the unsigned numeral to base 10 and 16, `%d`
   and `%i` the signed one to base 10, `%c` the character, `%s` the text, or "(null)" for NULL.
   */
  lemma ConvertMeaning(c: nat, a: Arg)
    requires TakesArgument(c) && Suits(c, a)
    ensures var r := Convert(c, a);
      && (c == 'u' as int ==> Value(r, 10) == a.value && (a.value > 0 ==> r != [] && r[0] != '0' as int))
      && (c == 'x' as int ==>
          && |r| >= 2 && r[0] == '0' as int && r[1] == 'x' as int && Value(r[2..], 16) == a.value
          && (a.value > 0 ==> |r| > 2 && r[2] != '0' as int))
      && (c == 'd' as int || c == 'i' as int ==>
          && SignedValue(r) == a.value
          && (a.value >= 0 ==> Value(r, 10) == a.value)
          && (a.value < 0 ==> r != [] && r[0] == '-' as int && Value(r[1..], 10) == -a.value))
      && (c == 'c' as int ==> r == [a.value % 256])
      && (c == 's' as int && a.Text? ==> r == a.s)
      && (c == 's' as int && a.NullText? ==> |r| == 6 && forall i :: 0 <= i < 6 ==> r[i] == "(null)"[i] as int)
  {
    if c == 117 {
      UnsignedRoundTrip(a.value, 10);
    } else if c == 120 {
      UnsignedRoundTrip(a.value, 16);
      assert Convert(c, a)[2..] == Unsigned(a.value, 16);
    } else if c == 100 || c == 105 {
      SignedRoundTrip(a.value);
      if a.value >= 0 {
        UnsignedRoundTrip(a.value, 10);
      } else {
        UnsignedRoundTrip(-a.value, 10);
        assert Convert(c, a)[1..] == Unsigned(-a.value, 10);
      }
    }
  }

  /** The arguments match the conversions of the format, in order. */
  predicate Matches(fmt: seq<nat>, args: seq<Arg>)
    decreases fmt
  {
    if fmt == [] || fmt == [PERCENT] then true
    else if fmt[0] != PERCENT then Matches(fmt[1..], args)
    else if !TakesArgument(fmt[1]) then Matches(fmt[2..], args)
    else args != [] && Suits(fmt[1], args[0]) && Matches(fmt[2..], args[1..])
  }

  /** All the characters a format prints; a trailing percent sign prints nothing. */
  function Expand(fmt: seq<nat>, args: seq<Arg>): seq<nat>
    requires Matches(fmt, args)
    decreases fmt
  {
    if fmt == [] || fmt == [PERCENT] then []
    else if fmt[0] != PERCENT then [fmt[0]] + Expand(fmt[1..], args)
    else if fmt[1] == PERCENT then [PERCENT] + Expand(fmt[2..], args)
    else if !TakesArgument(fmt[1]) then [PERCENT, fmt[1]] + Expand(fmt[2..], args)
    else Convert(fmt[1], args[0]) + Expand(fmt[2..], args[1..])
  }

  /** How a format is read: a character other than the percent sign stands for itself. */
  lemma PlainMeaning(c: nat, fmt: seq<nat>, args: seq<Arg>)
    requires Matches(fmt, args) && c != '%' as int
    ensures Matches([c] + fmt, args) && Expand([c] + fmt, args) == [c] + Expand(fmt, args)
  {
    assert ([c] + fmt)[1..] == fmt;
  }

  predicate IsConversion(c: nat) {
    || c == 'c' as int || c == 's' as int || c == 'd' as int || c == 'i' as int || c == 'u' as int || c == 'x' as int
  }

  function AfterPercent(c: nat): seq<nat> {
    ['%' as int, c]
  }

  /** Two percent signs stand for one, and one before any character that is no conversion for both. */
  lemma PercentMeaning(c: nat, fmt: seq<nat>, args: seq<Arg>)
    requires Matches(fmt, args) && !IsConversion(c)
    ensures Matches(AfterPercent(c) + fmt, args)
    ensures c == '%' as int ==> Expand(AfterPercent(c) + fmt, args) == ['%' as int] + Expand(fmt, args)
    ensures c != '%' as int ==> Expand(AfterPercent(c) + fmt, args) == AfterPercent(c) + Expand(fmt, args)
  {
    var all := AfterPercent(c) + fmt;
    assert all[2..] == fmt && all[0] == PERCENT && all[1] == c && |all| >= 2;
  }

  /** One before a conversion stands for the next argument, converted. */
  lemma ConversionMeaning(c: nat, fmt: seq<nat>, a: Arg, args: seq<Arg>)
    requires Matches(fmt, args) && IsConversion(c) && Suits(c, a)
    ensures TakesArgument(c) && Matches(AfterPercent(c) + fmt, [a] + args)
    ensures Expand(AfterPercent(c) + fmt, [a] + args) == Convert(c, a) + Expand(fmt, args)
  {
    hide Convert, Suits;
    var all, given := AfterPercent(c) + fmt, [a] + args;
    assert all[2..] == fmt && all[0] == PERCENT && all[1] == c && |all| >= 2;
    assert given[1..] == args && given[0] == a;
  }

  /** And one at the end for nothing. */
  lemma LastPercentMeaning(args: seq<Arg>)
    ensures var last: seq<nat> := ['%' as int];
      Matches(last, args) && Expand(last, args) == []
  {
  }

  function Escaped(s: seq<nat>): seq<nat> {
    if s == [] then []
    else (if s[0] == PERCENT then [PERCENT, PERCENT] else [s[0]]) + Escaped(s[1..])
  }

  /** Doubling every percent sign makes any text print as itself. */
  lemma {:induction false} EscapedPrintsItself(s: seq<nat>, args: seq<Arg>)
    ensures Matches(Escaped(s), args) && Expand(Escaped(s), args) == s
  {
    if s != [] {
      EscapedPrintsItself(s[1..], args);
      var e := Escaped(s);
      if s[0] == PERCENT {
        assert e[2..] == Escaped(s[1..]);
      } else {
        assert e[1..] == Escaped(s[1..]);
      }
      assert s == [s[0]] + s[1..];
    }
  }
}
