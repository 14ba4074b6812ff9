/**
 strtol(): the value of the longest run of digits, clamped to 32 bits. The source never lets its
 accumulator overflow: it compares with a quotient and a remainder of the limit before each step.
 */
module Strtol {

  const LONG_MIN: int := -0x8000_0000
  const LONG_MAX: int := 0x7FFF_FFFF

  // ---------------------------------------------------------------------------
  // What is parsed
  // ---------------------------------------------------------------------------

  /** The character at position `i` of a NUL-terminated string. */
  function CharAt(s: string, i: nat): (c: char) {
    if i < |s| then s[i] else '\0'
  }

  predicate IsDigit(c: char) { '0' <= c <= '9' }

  predicate IsUpper(c: char) { 'A' <= c <= 'Z' }

  predicate IsAlpha(c: char) { IsUpper(c) || 'a' <= c <= 'z' }

  /** The value of a digit or letter; anything else is no digit in any base. */
  function DigitValue(c: char): (v: nat) {
    if IsDigit(c) then c as int - '0' as int
    else if IsUpper(c) then c as int - 'A' as int + 10
    else if IsAlpha(c) then c as int - 'a' as int + 10
    else 99
  }

  predicate IsDigitIn(c: char, base: nat) {
    (IsDigit(c) || IsAlpha(c)) && DigitValue(c) < base
  }

  function SkipSpaces(s: string, i: nat): (p: nat)
    requires i <= |s|
    ensures i <= p <= |s| && CharAt(s, p) != ' '
    decreases |s| - i
  {
    if CharAt(s, i) == ' ' then SkipSpaces(s, i + 1) else i
  }

  /** The end of the run of digits that starts at `i`. */
  function RunEnd(s: string, i: nat, base: nat): (e: nat)
    requires i <= |s|
    ensures i <= e <= |s| && !IsDigitIn(CharAt(s, e), base)
    ensures forall k :: i <= k < e ==> IsDigitIn(s[k], base)
    decreases |s| - i
  {
    if IsDigitIn(CharAt(s, i), base) then RunEnd(s, i + 1, base) else i
  }

  /** The number that a string of digits denotes. */
  function Value(digits: string, base: nat): (v: nat) {
    if digits == "" then 0
    else Value(digits[..|digits| - 1], base) * base + DigitValue(digits[|digits| - 1])
  }

  datatype Number = Number(negative: bool, base: nat, start: nat)

  /** Sign, base and first digit position, after blanks, the sign and a prefix 0x. */
  function Header(s: string, base: nat): (h: Number)
    ensures h.base > 0 && h.start <= |s|
  {
    var p := SkipSpaces(s, 0);
    var negative := CharAt(s, p) == '-';
    var q := if negative || CharAt(s, p) == '+' then p + 1 else p;
    if (base == 0 || base == 16) && CharAt(s, q) == '0' && (CharAt(s, q + 1) == 'x' || CharAt(s, q + 1) == 'X') then
      Number(negative, 16, q + 2)
    else
      Number(negative, if base != 0 then base else if CharAt(s, q) == '0' then 8 else 10, q)
  }

  datatype Parsed = Parsed(value: int, end: nat, erange: bool)

  function Signed(negative: bool, v: nat): (r: int) {
    if negative then 0 - v else v
  }

  function Clamp(v: int): (r: int) {
    if v < LONG_MIN then LONG_MIN else if v > LONG_MAX then LONG_MAX else v
  }

  function Parse(s: string, base: nat): (r: Parsed)
  {
    var h := Header(s, base);
    var e := RunEnd(s, h.start, h.base);
    var signed := Signed(h.negative, Value(s[h.start..e], h.base));
    Parsed(Clamp(signed), if e == h.start then 0 else e, Clamp(signed) != signed)
  }

  // ---------------------------------------------------------------------------
  // How the source parses it
  // ---------------------------------------------------------------------------

  /** Division and remainder of C, which round towards zero. */
  function TruncDiv(a: int, b: nat): (q: int)
    requires b > 0
  {
    if a >= 0 then a / b else -((-a) / b)
  }

  function TruncMod(a: int, b: nat): (r: int)
    requires b > 0
  {
    a - TruncDiv(a, b) * b
  }

  /** Comparing with quotient and remainder of the limit tells whether one more digit goes past it. */
  lemma CutoffTest(acc: nat, c: nat, base: nat, limit: nat)
    requires base > 0 && c < base
    ensures acc > limit / base || (acc == limit / base && c > limit % base) <==> acc * base + c > limit
  {
    var q, r := limit / base, limit % base;
    assert limit == q * base + r;
    if acc > q {
      assert acc * base >= (q + 1) * base;
    } else if acc < q {
      assert (acc + 1) * base <= q * base;
    }
  }

  lemma ValueGrows(digits: string, c: char, base: nat)
    requires base > 0
    ensures Value(digits + [c], base) == Value(digits, base) * base + DigitValue(c)
    ensures Value(digits, base) <= Value(digits + [c], base)
  {
    assert (digits + [c])[..|digits|] == digits;
    Scales(Value(digits, base), base);
  }

  lemma Scales(v: nat, base: nat)
    requires base > 0
    ensures v <= v * base
  {
  }

  /** The limits in the form the source computes them. */
  lemma Limits(base: nat)
    requires base > 0
    ensures TruncDiv(LONG_MAX, base) == LONG_MAX / base && TruncMod(LONG_MAX, base) == LONG_MAX % base
    ensures TruncDiv(LONG_MIN, base) == -(0x8000_0000 / base) && TruncMod(LONG_MIN, base) == -(0x8000_0000 % base)
  {
  }

  method Strtol(str: string, base: nat) returns (acc: int, end: nat, erange: bool)
    ensures Parsed(acc, end, erange) == Parse(str, base)
  {
    hide SkipSpaces, RunEnd, Value, Clamp;
    var s, c := SkipBlanks(str);
    var neg := false;
    if c == '-' {
      neg := true;
      c := CharAt(str, s);
      s := s + 1;
    } else if c == '+' {
      c := CharAt(str, s);
      s := s + 1;
    }
    var b := base;
    if (b == 0 || b == 16) && c == '0' && (CharAt(str, s) == 'x' || CharAt(str, s) == 'X') {
      c := CharAt(str, s + 1);
      s := s + 2;
      b := 16;
    }
    if b == 0 {
      b := if c == '0' then 8 else 10;
    }
    ghost var start := s - 1;
    assert Header(str, base) == Number(neg, b, start);
    acc, end, erange := Digits(str, s, c, neg, b);
  }

  /** The first loop of strtol: `c` is the first character that is no blank, `s` the position behind it. */
  method SkipBlanks(str: string) returns (s: nat, c: char)
    ensures s == SkipSpaces(str, 0) + 1 && c == CharAt(str, s - 1)
  {
    s := 0;
    c := CharAt(str, s);
    s := s + 1;
    while c == ' '
      invariant 1 <= s <= |str| + 1 && c == CharAt(str, s - 1)
      invariant SkipSpaces(str, s - 1) == SkipSpaces(str, 0)
      decreases |str| + 1 - s
    {
      c := CharAt(str, s);
      s := s + 1;
    }
  }

  /** The second half of strtol: from the first candidate digit `c`, the one before position `s`. */
  method Digits(str: string, from: nat, first: char, neg: bool, base: nat) returns (acc: int, end: nat, erange: bool)
    requires base > 0 && 1 <= from <= |str| + 1 && first == CharAt(str, from - 1)
    ensures var e := RunEnd(str, from - 1, base);
            var signed := Signed(neg, Value(str[from - 1..e], base));
            acc == Clamp(signed) && erange == (acc != signed) && end == if e == from - 1 then 0 else e
  {
    hide Value, RunEnd, TruncDiv, TruncMod;
    Limits(base);
    var s, c := from, first;
    var cutoff := if neg then LONG_MIN else LONG_MAX;
    var cutlim := TruncMod(cutoff, base);
    cutoff := TruncDiv(cutoff, base);
    if neg {
      if cutlim > 0 {
        cutlim := cutlim - base;
        cutoff := cutoff + 1;
      }
      cutlim := -cutlim;
    }
    var any := 0;
    acc := 0;
    erange := false;
    ghost var v: nat := 0;
    NoDigits(str, from - 1, base);
    while true
      invariant from <= s <= |str| + 1 && c == CharAt(str, s - 1)
      invariant RunEnd(str, s - 1, base) == RunEnd(str, from - 1, base)
      invariant v == Value(str[from - 1..s - 1], base)
      invariant any == 0 <==> s == from
      invariant Accumulated(neg, v, acc, any, erange)
      decreases |str| + 1 - s
    {
      var d: int;
      if IsDigit(c) {
        d := c as int - '0' as int;
      } else if IsAlpha(c) {
        d := if IsUpper(c) then c as int - ('A' as int - 10) else c as int - ('a' as int - 10);
      } else {
        break;
      }
      if d >= base {
        break;
      }
      OneMoreDigit(str, from - 1, s - 1, base);
      acc, any, erange := OneDigit(neg, acc, any, erange, d, base, cutoff, cutlim, v);
      v := v * base + d;
      c := CharAt(str, s);
      s := s + 1;
    }
    RunStops(str, s - 1, base);
    end := if any != 0 then s - 1 else 0;
  }

  /** After digits of value `v`: their value with its sign, or the limit and the error once that is passed. */
  predicate Accumulated(neg: bool, v: nat, acc: int, any: int, erange: bool) {
    var limit := if neg then 0x8000_0000 else 0x7FFF_FFFF;
    && (any < 0 <==> v > limit)
    && (erange <==> v > limit)
    && LONG_MIN <= acc <= LONG_MAX
    && acc == if v > limit then (if neg then LONG_MIN else LONG_MAX) else Signed(neg, v)
  }

  /** What the loop does with a digit: nothing once the limit has been passed. */
  method OneDigit(neg: bool, before: int, taken: int, failed: bool, d: nat, base: nat,
                  cutoff: int, cutlim: int, ghost v: nat)
    returns (acc: int, any: int, erange: bool)
    requires base > 0 && d < base && Accumulated(neg, v, before, taken, failed)
    requires if neg then cutoff == -(0x8000_0000 / base) && cutlim == 0x8000_0000 % base
             else cutoff == 0x7FFF_FFFF / base && cutlim == 0x7FFF_FFFF % base
    ensures any != 0 && Accumulated(neg, v * base + d, acc, any, erange)
  {
    acc, any, erange := before, taken, failed;
    StepTest(neg, v, d, base, acc);
    Scales(v, base);
    if any >= 0 {
      if neg {
        if acc < cutoff || (acc == cutoff && d > cutlim) {
          any := -1;
          acc := LONG_MIN;
          erange := true;
        } else {
          any := 1;
          acc := acc * base;
          assert LONG_MIN <= acc <= LONG_MAX;
          acc := acc - d;
        }
      } else {
        if acc > cutoff || (acc == cutoff && d > cutlim) {
          any := -1;
          acc := LONG_MAX;
          erange := true;
        } else {
          any := 1;
          acc := acc * base;
          assert LONG_MIN <= acc <= LONG_MAX;
          acc := acc + d;
        }
      }
    }
  }

  /** The test and the step of the source, for either sign, in terms of the value read. */
  lemma StepTest(neg: bool, v: nat, d: nat, base: nat, acc: int)
    requires base > 0 && d < base
    ensures acc == Signed(neg, v) && neg ==>
              && (acc < -(0x8000_0000 / base) || (acc == -(0x8000_0000 / base) && d > 0x8000_0000 % base)
                  <==> v * base + d > 0x8000_0000)
              && acc * base - d == Signed(neg, v * base + d)
    ensures acc == Signed(neg, v) && !neg ==>
              && (acc > 0x7FFF_FFFF / base || (acc == 0x7FFF_FFFF / base && d > 0x7FFF_FFFF % base)
                  <==> v * base + d > 0x7FFF_FFFF)
              && acc * base + d == Signed(neg, v * base + d)
  {
    CutoffTest(v, d, base, if neg then 0x8000_0000 else 0x7FFF_FFFF);
    if acc == Signed(neg, v) && neg {
      assert acc * base == -(v * base);
    }
  }

  lemma NoDigits(str: string, i: nat, base: nat)
    requires i <= |str|
    ensures Value(str[i..i], base) == 0
  {
  }

  lemma OneMoreDigit(str: string, from: nat, p: nat, base: nat)
    requires from <= p <= |str| && base > 0 && IsDigitIn(CharAt(str, p), base)
    ensures p < |str| && RunEnd(str, p + 1, base) == RunEnd(str, p, base)
    ensures Value(str[from..p + 1], base) == Value(str[from..p], base) * base + DigitValue(str[p])
    ensures Value(str[from..p], base) <= Value(str[from..p + 1], base)
  {
    assert str[from..p + 1] == str[from..p] + [str[p]];
    ValueGrows(str[from..p], str[p], base);
  }

  lemma RunStops(str: string, p: nat, base: nat)
    requires p <= |str|
    ensures !IsDigitIn(CharAt(str, p), base) ==> RunEnd(str, p, base) == p
  {
  }
}
