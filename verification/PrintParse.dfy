/** What number() prints and strtol() reads, each by itself, and that the two undo each other. */
module PrintParse {
  import opened Strtol
  import opened Vsprintf

  // ---------------------------------------------------------------------------
  // Digits
  // ---------------------------------------------------------------------------

  lemma DigitCharValue(d: nat, upper: bool)
    requires d < 36
    ensures DigitValue(DigitChar(d, upper)) == d
  {
    hide DigitValue;
    if upper {
      UpperDigit(d);
    } else {
      LowerDigit(d);
    }
  }

  lemma LowerDigit(d: nat)
    requires d < 36
    ensures DigitValue(DIGITS[d]) == d
  {
  }

  lemma UpperDigit(d: nat)
    requires d < 36
    ensures DigitValue(UPPER_DIGITS[d]) == d
  {
  }

  predicate InCase(c: char, upper: bool) {
    '0' <= c <= '9' || if upper then 'A' <= c <= 'Z' else 'a' <= c <= 'z'
  }

  lemma LowerCase(d: nat)
    requires d < 36
    ensures InCase(DIGITS[d], false)
  {
    if d < 10 {
      assert '0' <= DIGITS[d] <= '9';
    }
  }

  lemma UpperCase(d: nat)
    requires d < 36
    ensures InCase(UPPER_DIGITS[d], true)
  {
    if d < 10 {
      assert '0' <= UPPER_DIGITS[d] <= '9';
    }
  }

  /** Digits above nine are small letters, or capital letters if that is asked for. */
  lemma {:induction false} DigitsInCase(n: nat, base: nat, upper: bool)
    requires 2 <= base <= 36
    ensures forall k :: 0 <= k < |DigitsOf(n, base, upper)| ==> InCase(DigitsOf(n, base, upper)[k], upper)
  {
    hide InCase;
    if n > 0 {
      Quotient(n, base);
      DigitsInCase(n / base, base, upper);
      CaseOfDigit(n % base, upper);
    }
  }

  /**
   The numeral of a number by itself: at least one digit, no letter of the other case, no zero in
   front of another digit, and the number as its value.
   */
  lemma NumeralIs(n: nat, base: nat, upper: bool)
    requires 2 <= base <= 36
    ensures var r := Numeral(n, base, upper);
            && r != "" && Value(r, base) == n && AllDigits(r, base)
            && (forall k :: 0 <= k < |r| ==>
                  '0' <= r[k] <= '9' || if upper then 'A' <= r[k] <= 'Z' else 'a' <= r[k] <= 'z')
            && (|r| > 1 ==> r[0] != '0')
  {
    hide Value, AllDigits;
    ValueOfNumeral(n, base, upper);
    DigitsInCase(n, base, upper);
    if n > 0 {
      NoLeadingZero(n, base, upper);
    }
  }

  /** The numeral of a single digit. */
  lemma DigitNumeral(d: nat, base: nat, upper: bool)
    requires d < base <= 36 && base >= 2
    ensures Numeral(d, base, upper) ==
            [(if d < 10 then '0' as int + d else (if upper then 'A' as int else 'a' as int) + d - 10) as char]
  {
    hide DigitValue, InCase, DigitChar;
    DigitCharValue(d, upper);
    CaseOfDigit(d, upper);
    CharOfValue(DigitChar(d, upper), upper);
    OneDigitOnly(d, base, upper);
  }

  lemma CaseOfDigit(d: nat, upper: bool)
    requires d < 36
    ensures InCase(DigitChar(d, upper), upper)
  {
    hide InCase;
    LowerCase(d);
    UpperCase(d);
  }

  lemma OneDigitOnly(d: nat, base: nat, upper: bool)
    requires d < base <= 36 && base >= 2
    ensures Numeral(d, base, upper) == [DigitChar(d, upper)]
  {
    if d == 0 {
      assert DIGITS[0] == '0' && UPPER_DIGITS[0] == '0';
    } else {
      assert d / base == 0 && d % base == d;
      assert DigitsOf(0, base, upper) == "";
    }
  }

  lemma CharOfValue(c: char, upper: bool)
    requires InCase(c, upper)
    ensures var d := DigitValue(c);
            c as int == if d < 10 then '0' as int + d else (if upper then 'A' as int else 'a' as int) + d - 10
  {
  }

  lemma {:induction false} NoLeadingZero(n: nat, base: nat, upper: bool)
    requires 2 <= base <= 36 && n > 0
    ensures DigitsOf(n, base, upper) != "" && DigitsOf(n, base, upper)[0] != '0'
  {
    Quotient(n, base);
    if n / base > 0 {
      NoLeadingZero(n / base, base, upper);
    } else {
      OnlyZeroIsZero(n, upper);
      assert n % base == n;
      assert DigitsOf(n / base, base, upper) == "";
    }
  }

  lemma OnlyZeroIsZero(d: nat, upper: bool)
    requires 0 < d < 36
    ensures DigitChar(d, upper) != '0'
  {
    hide DigitValue, DigitChar;
    DigitCharValue(d, upper);
    assert DigitValue('0') == 0 by {
      ZeroDigit();
    }
  }

  lemma ZeroDigit()
    ensures DigitValue('0') == 0
  {
  }

  ghost predicate AllDigits(run: string, base: nat) {
    forall k :: 0 <= k < |run| ==> IsDigitIn(run[k], base)
  }

  lemma {:induction false} ValueOfDigits(n: nat, base: nat, upper: bool)
    requires 2 <= base <= 36
    ensures Value(DigitsOf(n, base, upper), base) == n && AllDigits(DigitsOf(n, base, upper), base)
  {
    if n > 0 {
      Quotient(n, base);
      ValueOfDigits(n / base, base, upper);
      DigitCharValue(n % base, upper);
      ValueGrows(DigitsOf(n / base, base, upper), DigitChar(n % base, upper), base);
    }
  }

  lemma ValueOfNumeral(n: nat, base: nat, upper: bool)
    requires 2 <= base <= 36
    ensures Value(Numeral(n, base, upper), base) == n && AllDigits(Numeral(n, base, upper), base)
    ensures Numeral(n, base, upper) != ""
  {
    ValueOfDigits(n, base, upper);
    assert Value("0", base) == Value("", base) * base + 0;
  }

  lemma {:induction false} ValueAfterZeros(k: int, digits: string, base: nat)
    requires base > 0
    ensures Value(Repeat('0', k) + digits, base) == Value(digits, base)
    decreases |digits|, k
  {
    var z := Repeat('0', k);
    if digits != "" {
      var front, c := digits[..|digits| - 1], digits[|digits| - 1];
      ValueAfterZeros(k, front, base);
      assert z + digits == (z + front) + [c];
      ValueGrows(z + front, c, base);
    } else if k > 0 {
      ValueAfterZeros(k - 1, "", base);
      assert z + "" == (Repeat('0', k - 1) + "") + ['0'];
      ValueGrows(Repeat('0', k - 1) + "", '0', base);
    }
  }

  // ---------------------------------------------------------------------------
  // Parsing blanks, sign, prefix, digits and blanks
  // ---------------------------------------------------------------------------

  lemma {:induction false} SkipSpacesTo(s: string, i: nat, p: nat)
    requires i <= p <= |s| && CharAt(s, p) != ' ' && forall k :: i <= k < p ==> s[k] == ' '
    ensures SkipSpaces(s, i) == p
    decreases p - i
  {
    if i < p {
      SkipSpacesTo(s, i + 1, p);
    }
  }

  lemma RunEndAt(s: string, i: nat, e: nat, base: nat)
    requires i <= e <= |s| && !IsDigitIn(CharAt(s, e), base)
    requires forall k :: i <= k < e ==> IsDigitIn(s[k], base)
    ensures RunEnd(s, i, base) == e
  {
  }

  /**
   The base `b` in which `run` is read when strtol is given `base`. With base 0 a prefix 0x means 16,
   a first digit 0 means 8 and any other 10; the prefix may also stand before a number in base 16.
   */
  predicate ReadIn(prefix: string, run: string, tail: string, base: nat, b: nat) {
    if prefix == "" then
      && (run == "0" && tail != "" && (tail[0] == 'x' || tail[0] == 'X') ==> base != 0 && base != 16)
      && b == if base != 0 then base else if run != "" && run[0] == '0' then 8 else 10
    else (prefix == "0x" || prefix == "0X") && (base == 0 || base == 16) && b == 16
  }

  lemma HeaderOf(blanks: string, sign: string, prefix: string, run: string, tail: string, base: nat, b: nat)
    requires forall k :: 0 <= k < |blanks| ==> blanks[k] == ' '
    requires sign in ["", "-", "+"] && ReadIn(prefix, run, tail, base, b) && b > 0
    requires AllDigits(run, b) && (tail == "" || !IsDigitIn(tail[0], b))
    requires sign + prefix + run == "" && tail != "" ==> tail[0] != ' ' && tail[0] != '-' && tail[0] != '+'
    ensures Header(blanks + sign + prefix + run + tail, base) ==
            Strtol.Number(sign == "-", b, |blanks + sign + prefix|)
  {
    hide SkipSpaces;
    var s := blanks + sign + prefix + run + tail;
    var p, q := |blanks|, |blanks + sign|;
    assert sign != "" ==> s[p] == sign[0];
    assert prefix != "" ==> s[q] == prefix[0] && s[q + 1] == prefix[1];
    assert run != "" ==> s[q + |prefix|] == run[0];
    assert |run| > 1 ==> s[q + |prefix| + 1] == run[1];
    assert tail != "" ==> s[q + |prefix| + |run|] == tail[0];
    assert CharAt(s, p) != ' ';
    SkipSpacesTo(s, 0, p);
  }

  /**
   What strtol reads, in its own words: blanks, a sign, a prefix, all the digits that follow, and
   nothing of the rest. A number that does not fit is replaced by the nearest long, with an error.
   */
  lemma Reads(blanks: string, sign: string, prefix: string, run: string, tail: string, base: nat, b: nat)
    requires forall k :: 0 <= k < |blanks| ==> blanks[k] == ' '
    requires sign in ["", "-", "+"] && ReadIn(prefix, run, tail, base, b) && b > 0
    requires run != "" && AllDigits(run, b) && (tail == "" || !IsDigitIn(tail[0], b))
    ensures var signed := if sign == "-" then 0 - Value(run, b) else Value(run, b);
            var r := Parse(blanks + sign + prefix + run + tail, base);
            && r.end == |blanks + sign + prefix + run|
            && (-0x8000_0000 <= signed <= 0x7FFF_FFFF ==> r.value == signed && !r.erange)
            && (signed > 0x7FFF_FFFF ==> r.value == 0x7FFF_FFFF && r.erange)
            && (signed < -0x8000_0000 ==> r.value == -0x8000_0000 && r.erange)
  {
    hide Value, RunEnd, Header, ReadIn, IsDigitIn;
    HeaderOf(blanks, sign, prefix, run, tail, base, b);
    RunOf(blanks + sign + prefix, run, tail, b);
  }

  lemma RunOf(head: string, run: string, tail: string, b: nat)
    requires b > 0 && AllDigits(run, b) && (tail == "" || !IsDigitIn(tail[0], b))
    ensures RunEnd(head + run + tail, |head|, b) == |head + run|
    ensures (head + run + tail)[|head|..|head + run|] == run
  {
    hide RunEnd;
    var s, e := head + run + tail, |head + run|;
    assert forall k :: |head| <= k < e ==> s[k] == run[k - |head|];
    assert tail != "" ==> s[e] == tail[0];
    assert !IsDigitIn('\0', b);
    RunEndAt(s, |head|, e, b);
  }

  /** Without a digit nothing is read: the value is 0, and the end is the start of the string. */
  lemma ReadsNothing(blanks: string, sign: string, prefix: string, tail: string, base: nat, b: nat)
    requires forall k :: 0 <= k < |blanks| ==> blanks[k] == ' '
    requires sign in ["", "-", "+"] && ReadIn(prefix, "", tail, base, b) && b > 0
    requires tail == "" || !IsDigitIn(tail[0], b)
    requires sign + prefix == "" && tail != "" ==> tail[0] != ' ' && tail[0] != '-' && tail[0] != '+'
    ensures Parse(blanks + sign + prefix + tail, base) == Parsed(0, 0, false)
  {
    hide RunEnd, Header, ReadIn, IsDigitIn;
    HeaderOf(blanks, sign, prefix, "", tail, base, b);
    RunOf(blanks + sign + prefix, "", tail, b);
    assert blanks + sign + prefix + "" + tail == blanks + sign + prefix + tail;
    assert Value("", b) == 0;
  }

  // ---------------------------------------------------------------------------
  // The round trip
  // ---------------------------------------------------------------------------

  /** All the digits printed: those of the prefix 0, the padding zeros and the numeral. */
  ghost function DigitRun(num: int, base: nat, size: int, precision: int, flags: Flags): (r: string)
    requires 2 <= base <= 36
  {
    var digits := Numeral(Magnitude(num, flags), base, flags.uppercase);
    var zeropad := flags.zeropad && !flags.left;
    Repeat('0', if flags.hash && base == 8 then 1 else 0) +
    (Repeat('0', if zeropad then Padding(num, base, size, precision, flags) else 0) +
     (Repeat('0', precision - |digits|) + digits))
  }

  ghost function Tail(num: int, base: nat, size: int, precision: int, flags: Flags): (r: string)
    requires 2 <= base <= 36
  {
    Repeat(' ', if flags.left then Padding(num, base, size, precision, flags) else 0)
  }

  lemma RunIsMagnitude(num: int, base: nat, size: int, precision: int, flags: Flags)
    requires 2 <= base <= 36
    ensures var run := DigitRun(num, base, size, precision, flags);
            run != "" && AllDigits(run, base) && Value(run, base) == Magnitude(num, flags)
  {
    hide Value, Numeral, Magnitude, Padding;
    var n := Magnitude(num, flags);
    var digits := Numeral(n, base, flags.uppercase);
    ValueOfNumeral(n, base, flags.uppercase);
    var zeropad := flags.zeropad && !flags.left;
    var a, b, c := if flags.hash && base == 8 then 1 else 0,
                   if zeropad then Padding(num, base, size, precision, flags) else 0,
                   precision - |digits|;
    ValueAfterZeros(c, digits, base);
    ValueAfterZeros(b, Repeat('0', c) + digits, base);
    ValueAfterZeros(a, Repeat('0', b) + (Repeat('0', c) + digits), base);
  }

  lemma LayoutParts(num: int, base: nat, size: int, precision: int, flags: Flags)
    requires 2 <= base <= 36
    ensures var zeropad := flags.zeropad && !flags.left;
            var blanks := Repeat(' ', if flags.left || zeropad then 0 else Padding(num, base, size, precision, flags));
            Layout(num, base, size, precision, flags) ==
            blanks + SignOf(num, flags) + (if flags.hash && base == 16 then "0x" else "") +
            DigitRun(num, base, size, precision, flags) + Tail(num, base, size, precision, flags)
  {
    hide Numeral, Magnitude, Padding, Repeat, SignOf, Prefix;
    var digits := Numeral(Magnitude(num, flags), base, flags.uppercase);
    var zeropad, pad := flags.zeropad && !flags.left, Padding(num, base, size, precision, flags);
    PrefixParts(base, flags);
    Regroup(Repeat(' ', if flags.left || zeropad then 0 else pad), SignOf(num, flags),
            if flags.hash && base == 16 then "0x" else "", Repeat('0', if flags.hash && base == 8 then 1 else 0),
            Repeat('0', if zeropad then pad else 0), Repeat('0', precision - |digits|), digits,
            Tail(num, base, size, precision, flags));
  }

  lemma PrefixParts(base: nat, flags: Flags)
    ensures Prefix(base, flags) ==
            (if flags.hash && base == 16 then "0x" else "") + Repeat('0', if flags.hash && base == 8 then 1 else 0)
  {
    assert Repeat('0', 1) == "0" && Repeat('0', 0) == "";
  }

  lemma Regroup(blanks: string, sign: string, x: string, o: string, z1: string, z2: string, digits: string,
                tail: string)
    ensures (blanks + sign + (x + o) + z1) + z2 + digits + tail ==
            blanks + sign + x + (o + (z1 + (z2 + digits))) + tail
  {
  }

  /**
   For every long, base, width, precision and flags, parsing what was printed stops right after the
   last digit, and it gives the number back exactly when the sign flag is set or the number is not
   negative. Without the flag a negative number is printed as unsigned and parsed out of range.
   */
  lemma RoundTrip(num: int, base: nat, size: int, precision: int, flags: Flags)
    requires LONG_MIN <= num <= LONG_MAX && 2 <= base <= 36
    ensures var out := Layout(num, base, size, precision, flags);
            var r := Parse(out, base);
            && r.end == |out| - |Tail(num, base, size, precision, flags)|
            && (r.value == num && !r.erange <==> flags.sign || num >= 0)
            && (!flags.sign && num < 0 ==> r.value == LONG_MAX && r.erange)
  {
    hide Layout, DigitRun, Tail, Padding, Numeral, Value, Parse;
    RunIsMagnitude(num, base, size, precision, flags);
    LayoutParts(num, base, size, precision, flags);
    var zeropad := flags.zeropad && !flags.left;
    var blanks := Repeat(' ', if flags.left || zeropad then 0 else Padding(num, base, size, precision, flags));
    var prefix := if flags.hash && base == 16 then "0x" else "";
    var run, tail := DigitRun(num, base, size, precision, flags), Tail(num, base, size, precision, flags);
    TailIsBlank(num, base, size, precision, flags);
    var sign := SignOf(num, flags);
    if sign == " " {
      assert blanks + " " + prefix + run + tail == (blanks + " ") + "" + prefix + run + tail;
      Reads(blanks + " ", "", prefix, run, tail, base, base);
    } else {
      Reads(blanks, sign, prefix, run, tail, base, base);
    }
  }

  lemma TailIsBlank(num: int, base: nat, size: int, precision: int, flags: Flags)
    requires 2 <= base <= 36
    ensures var tail := Tail(num, base, size, precision, flags);
            forall k :: 0 <= k < |tail| ==> tail[k] == ' '
  {
  }
}
