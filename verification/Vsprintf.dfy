/**
 number(), the integer printer behind the printf family: digits are produced backwards into a small
 array, and one width counter feeds three padding loops. Characters written through the output
 pointer are collected in a sequence; width and precision are unbounded integers.
 */
module Vsprintf {
  import opened Machine

  datatype Flags = Flags(zeropad: bool, left: bool, plus: bool, space: bool, hash: bool, uppercase: bool, sign: bool)

  const DIGITS: string := "0123456789abcdefghijklmnopqrstuvwxyz"
  const UPPER_DIGITS: string := "0123456789ABCDEFGHIJKLMNOPQRSTUVWXYZ"

  function DigitChar(d: nat, upper: bool): (c: char)
    requires d < 36
  {
    if upper then UPPER_DIGITS[d] else DIGITS[d]
  }

  // ---------------------------------------------------------------------------
  // What is printed
  // ---------------------------------------------------------------------------

  function Max(a: int, b: int): (m: int) {
    if a > b then a else b
  }

  function Repeat(c: char, n: int): (r: string)
    ensures |r| == Max(n, 0) && forall k :: 0 <= k < |r| ==> r[k] == c
  {
    seq(Max(n, 0), _ => c)
  }

  /** The digits of `n`, the most significant first; none for zero. */
  function DigitsOf(n: nat, base: nat, upper: bool): (r: string)
    requires 2 <= base <= 36
  {
    if n == 0 then "" else DigitsOf(n / base, base, upper) + [DigitChar(n % base, upper)]
  }

  function Numeral(n: nat, base: nat, upper: bool): (r: string)
    requires 2 <= base <= 36
  {
    if n == 0 then "0" else DigitsOf(n, base, upper)
  }

  /** The magnitude printed: with the sign flag the absolute value, else the bits as unsigned. */
  function Magnitude(num: int, flags: Flags): (n: nat) {
    (if flags.sign && num < 0 then -num else num) % UINT32
  }

  function SignOf(num: int, flags: Flags): (s: string) {
    if !flags.sign then ""
    else if num < 0 then "-"
    else if flags.plus then "+"
    else if flags.space then " "
    else ""
  }

  function Prefix(base: nat, flags: Flags): (s: string) {
    if flags.hash && base == 16 then "0x" else if flags.hash && base == 8 then "0" else ""
  }

  function Padding(num: int, base: nat, size: int, precision: int, flags: Flags): (n: int)
    requires 2 <= base <= 36
  {
    size - |SignOf(num, flags)| - |Prefix(base, flags)| -
    Max(precision, |Numeral(Magnitude(num, flags), base, flags.uppercase)|)
  }

  /** Blanks, sign, prefix, zeros, digits and blanks, as the flags ask for. */
  function Layout(num: int, base: nat, size: int, precision: int, flags: Flags): (r: string)
    requires 2 <= base <= 36
  {
    var digits := Numeral(Magnitude(num, flags), base, flags.uppercase);
    Head(num, base, size, precision, flags) + Repeat('0', precision - |digits|) + digits +
    Repeat(' ', if flags.left then Padding(num, base, size, precision, flags) else 0)
  }

  /** What comes before the zeros that the precision asks for. */
  function Head(num: int, base: nat, size: int, precision: int, flags: Flags): (r: string)
    requires 2 <= base <= 36
  {
    var pad := Padding(num, base, size, precision, flags);
    var zeropad := flags.zeropad && !flags.left;
    Repeat(' ', if flags.left || zeropad then 0 else pad) +
    SignOf(num, flags) + Prefix(base, flags) +
    Repeat('0', if zeropad then pad else 0)
  }

  /** The layout from a head already written and the width that it left over. */
  lemma LayoutIs(num: int, base: nat, size: int, precision: int, flags: Flags, head: string, rest: int)
    requires 2 <= base <= 36 && head == Head(num, base, size, precision, flags)
    requires if flags.left then rest == Padding(num, base, size, precision, flags) else rest < 0
    ensures var digits := Numeral(Magnitude(num, flags), base, flags.uppercase);
            Layout(num, base, size, precision, flags) ==
            head + Repeat('0', Max(precision, |digits|) - |digits|) + digits + Repeat(' ', rest)
  {
    hide Numeral, Magnitude, Head, Padding;
    var digits := Numeral(Magnitude(num, flags), base, flags.uppercase);
    assert Repeat('0', precision - |digits|) == Repeat('0', Max(precision, |digits|) - |digits|);
    var tail := if flags.left then Padding(num, base, size, precision, flags) else 0;
    assert Repeat(' ', tail) == Repeat(' ', rest);
  }

  /** Exactly as wide as asked for, or as wide as needed. */
  lemma LayoutLength(num: int, base: nat, size: int, precision: int, flags: Flags)
    requires 2 <= base <= 36
    ensures var digits := |Numeral(Magnitude(num, flags), base, flags.uppercase)|;
            |Layout(num, base, size, precision, flags)| ==
            Max(size, |SignOf(num, flags)| + |Prefix(base, flags)| + Max(precision, digits))
  {
  }

  /**
   Without a width: the sign, if the flags ask for one, then the prefix, the zeros that the precision
   asks for and the numeral. A number that is not negative has '+' before ' '.
   */
  lemma NaturalLayout(num: int, base: nat, precision: int, flags: Flags)
    requires 2 <= base <= 36
    ensures var out := Layout(num, base, 0, precision, flags);
            var digits := Numeral(Magnitude(num, flags), base, flags.uppercase);
            var rest := (if flags.hash && base == 16 then "0x" else if flags.hash && base == 8 then "0" else "") +
                        Repeat('0', precision - |digits|) + digits;
            && (flags.sign && num < 0 ==> out == "-" + rest)
            && (flags.sign && num >= 0 && flags.plus ==> out == "+" + rest)
            && (flags.sign && num >= 0 && !flags.plus && flags.space ==> out == " " + rest)
            && (flags.sign && num >= 0 && !flags.plus && !flags.space ==> out == rest)
            && (!flags.sign ==> out == rest)
  {
    hide Numeral, Magnitude, Layout, Repeat, SignOf, Prefix;
    var digits := Numeral(Magnitude(num, flags), base, flags.uppercase);
    var zeros := Repeat('0', precision - |digits|);
    NaturalParts(num, base, precision, flags);
    SignChoice(num, flags);
    PrefixChoice(base, flags);
    assert "" + Prefix(base, flags) == Prefix(base, flags);
    Associates(SignOf(num, flags), Prefix(base, flags), zeros, digits);
  }

  lemma NaturalParts(num: int, base: nat, precision: int, flags: Flags)
    requires 2 <= base <= 36
    ensures var digits := Numeral(Magnitude(num, flags), base, flags.uppercase);
            Layout(num, base, 0, precision, flags) ==
            SignOf(num, flags) + Prefix(base, flags) + (Repeat('0', precision - |digits|) + digits)
  {
    hide Numeral, Magnitude, Layout, SignOf, Prefix;
    LayoutIsParts(num, base, 0, precision, flags);
    var pad := Padding(num, base, 0, precision, flags);
    assert Repeat(' ', pad) == "" && Repeat('0', pad) == "";
  }

  lemma SignChoice(num: int, flags: Flags)
    ensures flags.sign && num < 0 ==> SignOf(num, flags) == "-"
    ensures flags.sign && num >= 0 && flags.plus ==> SignOf(num, flags) == "+"
    ensures flags.sign && num >= 0 && !flags.plus && flags.space ==> SignOf(num, flags) == " "
    ensures !flags.sign || (num >= 0 && !flags.plus && !flags.space) ==> SignOf(num, flags) == ""
  {
  }

  lemma PrefixChoice(base: nat, flags: Flags)
    ensures Prefix(base, flags) ==
            if flags.hash && base == 16 then "0x" else if flags.hash && base == 8 then "0" else ""
  {
  }

  lemma Associates(a: string, b: string, c: string, d: string)
    ensures a + b + (c + d) == a + (b + c + d) && "" + (b + c + d) == b + c + d
  {
  }

  /**
   A width beyond the natural one is filled with blanks behind, with zeros between the prefix and the
   digits, or with blanks in front; a smaller one changes nothing.
   */
  lemma WidthFills(num: int, base: nat, size: int, precision: int, flags: Flags)
    requires 2 <= base <= 36
    ensures var out, natural := Layout(num, base, size, precision, flags), Layout(num, base, 0, precision, flags);
            var missing, head := size - |natural|, |SignOf(num, flags)| + |Prefix(base, flags)|;
            && head <= |natural|
            && (missing <= 0 ==> out == natural)
            && (flags.left ==> out == natural + Repeat(' ', missing))
            && (!flags.left && flags.zeropad ==> out == natural[..head] + Repeat('0', missing) + natural[head..])
            && (!flags.left && !flags.zeropad ==> out == Repeat(' ', missing) + natural)
  {
    hide Numeral, Magnitude, SignOf, Prefix, Layout, Padding, Repeat;
    var digits := Numeral(Magnitude(num, flags), base, flags.uppercase);
    var head, tail := SignOf(num, flags) + Prefix(base, flags), Repeat('0', precision - |digits|) + digits;
    NaturalParts(num, base, precision, flags);
    LayoutIsParts(num, base, size, precision, flags);
    PaddingIs(num, base, size, precision, flags);
    Fills(head, tail, size - |head + tail|);
  }

  lemma PaddingIs(num: int, base: nat, size: int, precision: int, flags: Flags)
    requires 2 <= base <= 36
    ensures Padding(num, base, size, precision, flags) == size - |Layout(num, base, 0, precision, flags)|
  {
    hide Numeral, Magnitude, SignOf, Prefix, Layout;
    NaturalParts(num, base, precision, flags);
  }

  lemma Fills(head: string, tail: string, pad: int)
    ensures (head + tail)[..|head|] == head && (head + tail)[|head|..] == tail
    ensures pad <= 0 ==>
      && head + tail + Repeat(' ', pad) == head + tail && head + Repeat('0', pad) + tail == head + tail
      && Repeat(' ', pad) + head + tail == head + tail
    ensures Repeat(' ', pad) + (head + tail) == Repeat(' ', pad) + head + tail
  {
    hide Repeat;
    Regroups(Repeat(' ', pad), head, tail);
    if pad <= 0 {
      assert Repeat(' ', pad) == "" && Repeat('0', pad) == "";
      FillsNothing(head, tail);
    }
  }

  lemma Regroups(a: string, b: string, c: string)
    ensures a + (b + c) == a + b + c
  {
  }

  lemma FillsNothing(a: string, b: string)
    ensures a + b + "" == a + b && a + "" + b == a + b && "" + a + b == a + b
  {
  }

  lemma LayoutIsParts(num: int, base: nat, size: int, precision: int, flags: Flags)
    requires 2 <= base <= 36
    ensures var digits := Numeral(Magnitude(num, flags), base, flags.uppercase);
            var head, tail := SignOf(num, flags) + Prefix(base, flags), Repeat('0', precision - |digits|) + digits;
            var pad := Padding(num, base, size, precision, flags);
            Layout(num, base, size, precision, flags) ==
            if flags.left then head + tail + Repeat(' ', pad)
            else if flags.zeropad then head + Repeat('0', pad) + tail
            else Repeat(' ', pad) + head + tail
  {
    hide Numeral, Magnitude, SignOf, Prefix, Padding;
    assert Repeat(' ', 0) == "" && Repeat('0', 0) == "";
  }

  // ---------------------------------------------------------------------------
  // How it is printed
  // ---------------------------------------------------------------------------

  lemma {:induction false} DigitCount(n: nat, base: nat, upper: bool, k: nat)
    requires 2 <= base <= 36 && n < Pow2(k)
    ensures |DigitsOf(n, base, upper)| <= k
    decreases k
  {
    if n > 0 {
      Quotient(n, base);
      DigitCount(n / base, base, upper, k - 1);
    }
  }

  lemma Quotient(n: nat, base: nat)
    requires 2 <= base
    ensures 0 <= n / base && 2 * (n / base) <= n && 0 <= n % base < base
    ensures n == (n / base) * base + n % base
  {
  }

  lemma LastDigit(n: nat, base: nat, upper: bool)
    requires 2 <= base <= 36
    ensures n == 0 ==> DigitsOf(n, base, upper) == ""
    ensures n > 0 ==> DigitsOf(n, base, upper) == DigitsOf(n / base, base, upper) + [DigitChar(n % base, upper)]
  {
  }

  /** The loop that fills `tmp` with the digits, the least significant first. */
  method FillDigits(tmp: array<char>, n: nat, base: nat, upper: bool) returns (i: nat)
    requires tmp.Length == 66 && 2 <= base <= 36 && n < UINT32
    modifies tmp
    ensures 0 < i <= 32 && |Numeral(n, base, upper)| == i
    ensures forall k :: 0 <= k < i ==> tmp[k] == Numeral(n, base, upper)[i - 1 - k]
  {
    hide DigitsOf, DigitChar, Pow2;
    WordsArePow2();
    DigitCount(n, base, upper, 32);
    LastDigit(n, base, upper);
    i := 0;
    var unsNum: nat := n;
    ghost var all := DigitsOf(n, base, upper);
    if unsNum == 0 {
      tmp[i] := '0';
      i := i + 1;
    } else {
      while unsNum != 0
        invariant |DigitsOf(unsNum, base, upper)| + i == |all|
        invariant DigitsOf(unsNum, base, upper) <= all
        invariant forall k :: 0 <= k < i ==> tmp[k] == all[|all| - 1 - k]
        decreases unsNum
      {
        Quotient(unsNum, base);
        LastDigit(unsNum, base, upper);
        tmp[i] := DigitChar(unsNum % base, upper);
        i := i + 1;
        unsNum := unsNum / base;
      }
      LastDigit(unsNum, base, upper);
    }
  }

  /** The sign, the number without it, and the width that is left. */
  method SetSign(num: int, width: int, flags: Flags) returns (sign: char, n: int, size: int)
    requires -0x8000_0000 <= num < 0x8000_0000
    ensures n == (if flags.sign && num < 0 then Negated(num) else num) && size == width - |SignOf(num, flags)|
    ensures SignOf(num, flags) == if sign == '\0' then "" else [sign]
  {
    sign, n, size := '\0', num, width;
    if flags.sign {
      if n < 0 {
        sign := '-';
        n := Negated(n);
        size := size - 1;
      } else if flags.plus {
        sign := '+';
        size := size - 1;
      } else if flags.space {
        sign := ' ';
        size := size - 1;
      }
    }
  }

  method Number(num: int, base: int, width: int, prec: int, flags: Flags) returns (ok: bool, str: string)
    requires -0x8000_0000 <= num < 0x8000_0000
    ensures ok <==> 2 <= base <= 36
    ensures ok ==> str == Layout(num, base, width, prec, flags)
  {
    hide Numeral, Magnitude, Repeat, SignOf, Layout;
    str := "";
    var size, precision := width, prec;
    if base < 2 || base > 36 {
      return false, "";
    }
    var sign, n;
    sign, n, size := SetSign(num, size, flags);
    var unsNum := n % UINT32;
    MagnitudeIs(num, flags, n);
    if flags.hash {
      if base == 16 {
        size := size - 2;
      } else if base == 8 {
        size := size - 1;
      }
    }
    var tmp := new char[66];
    ghost var digits := Numeral(unsNum, base, flags.uppercase);
    var i := FillDigits(tmp, unsNum, base, flags.uppercase);
    if i > precision {
      precision := i;
    }
    size := size - precision;
    assert size == Padding(num, base, width, prec, flags);
    str, size := WriteHead(sign, base, size, flags);
    LayoutIs(num, base, width, prec, flags, str, size);
    str := WriteZeros(str, i, precision);
    str := WriteDigits(str, tmp, i, digits);
    str, size := Pad(str, ' ', size);
    ok := true;
  }

  /** The two padding loops before the digits, with sign and prefix between them. */
  method WriteHead(sign: char, base: nat, pad: int, flags: Flags) returns (str: string, size: int)
    ensures var zeropad := flags.zeropad && !flags.left;
            str == Repeat(' ', if flags.left || zeropad then 0 else pad) +
                   (if sign == '\0' then "" else [sign]) + Prefix(base, flags) +
                   Repeat('0', if zeropad then pad else 0)
    ensures if flags.left then size == pad else size < 0
  {
    var zeropad := flags.zeropad && !flags.left;
    var c := if zeropad then '0' else ' ';
    hide Repeat;
    ghost var blanks := Repeat(' ', if flags.left || zeropad then 0 else pad);
    str, size := "", pad;
    if !zeropad && !flags.left {
      str, size := Pad(str, ' ', size);
    }
    assert str == blanks;
    if sign != '\0' {
      str := str + [sign];
    }
    assert str == blanks + if sign == '\0' then "" else [sign];
    if flags.hash {
      if base == 8 {
        str := str + ['0'];
      } else if base == 16 {
        str := str + ['0'];
        str := str + [DIGITS[33]];
      }
    }
    assert str == blanks + (if sign == '\0' then "" else [sign]) + Prefix(base, flags);
    if !flags.left {
      str, size := Pad(str, c, size);
    }
  }

  method WriteZeros(str: string, i: int, prec: int) returns (out: string)
    requires i <= prec
    ensures out == str + Repeat('0', prec - i)
  {
    var precision := prec;
    out := str;
    while i < precision
      invariant i <= precision <= prec
      invariant out == str + Repeat('0', prec - precision)
    {
      precision := precision - 1;
      out := out + ['0'];
      assert Repeat('0', prec - precision) == Repeat('0', prec - precision - 1) + "0";
    }
  }

  method WriteDigits(str: string, tmp: array<char>, count: nat, ghost digits: string) returns (out: string)
    requires count == |digits| <= tmp.Length
    requires forall k :: 0 <= k < count ==> tmp[k] == digits[count - 1 - k]
    ensures out == str + digits
  {
    var i := count;
    out := str;
    while i > 0
      invariant 0 <= i <= count
      invariant out == str + digits[..count - i]
    {
      i := i - 1;
      out := out + [tmp[i]];
      assert digits[..count - i] == digits[..count - i - 1] + [digits[count - i - 1]];
    }
    assert digits[..count] == digits;
  }

  /** One of the padding loops: `while (size-- > 0) *str++ = c`. It leaves the counter below zero. */
  method Pad(str: string, c: char, size: int) returns (out: string, rest: int)
    ensures out == str + Repeat(c, size)
    ensures rest < 0 && (size <= 0 ==> rest == size - 1)
  {
    out, rest := str, size;
    while rest > 0
      invariant rest <= Max(size, 0) && (size <= 0 ==> rest == size)
      invariant size > 0 ==> rest >= 0
      invariant out == str + Repeat(c, size - rest)
    {
      rest := rest - 1;
      out := out + [c];
      assert Repeat(c, size - rest) == Repeat(c, size - rest - 1) + [c];
    }
    rest := rest - 1;
  }

  /** Negation of a 32-bit long; the most negative value stays as it is. */
  function Negated(n: int): (r: int) {
    if n == -0x8000_0000 then n else -n
  }

  lemma MagnitudeIs(num: int, flags: Flags, n: int)
    requires -0x8000_0000 <= num < 0x8000_0000
    requires n == if flags.sign && num < 0 then Negated(num) else num
    ensures n % UINT32 == Magnitude(num, flags)
  {
  }
}
