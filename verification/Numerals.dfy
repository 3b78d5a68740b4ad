/** Numbers as people write them, and the proof that `strtoul` reads them: decimal and hexadecimal
    digits in both letter cases, leading blanks and zeros, signs, the `0x` prefix and saturation. */
module Numerals {
  import opened CText

  // ----- Written numbers ------------------------------------------------

  function Digit(d: nat, upper: bool): char
    requires d < 16
  {
    if upper then UpperDigit(d) else LowerDigit(d)
  }

  /** A number without its last digit, and that digit. */
  function Front(n: nat, base: nat): (q: nat)
    requires base >= 2
    ensures n >= base ==> q < n
  {
    n / base
  }

  function Last(n: nat, base: nat): (d: nat)
    requires base >= 2
    ensures d < base
  {
    n % base
  }

  /** A number in a base, the last digit last, without leading zeros. */
  function Written(n: nat, base: nat, upper: bool): (s: string)
    requires 2 <= base <= 16
    ensures s != []
  {
    if n < base then [Digit(n, upper)] else Written(Front(n, base), base, upper) + [Digit(Last(n, base), upper)]
  }

  function Dec(n: nat): (s: string)
    ensures s != []
  {
    Written(n, 10, false)
  }

  function Zeros(k: nat): (s: string)
    ensures |s| == k
  {
    seq(k, _ => '0')
  }

  datatype Sign = Unsigned | Plus | Minus {
    function Text(): string {
      match this
      case Unsigned => ""
      case Plus => "+"
      case Minus => "-"
    }
  }

  /** Blanks, tabs, ends of lines, vertical tabs and form feeds. */
  predicate IsBlank(c: char) {
    c == ' ' || c == '\t' || c == '\n' || c == '\r' || c == 11 as char || c == 12 as char
  }

  lemma BlankIsSpace(c: char)
    ensures IsBlank(c) <==> IsSpace(c)
  {
  }

  predicate Blank(s: string) {
    forall i :: 0 <= i < |s| ==> IsBlank(s[i])
  }

  predicate AllDigits(s: string, base: nat) {
    forall i :: 0 <= i < |s| ==> DigitValue(s[i]) < base
  }

  predicate IsPrefix(prefix: string, base: nat) {
    prefix == "" || (base == 16 && (prefix == "0x" || prefix == "0X"))
  }

  /** A character the parsers cut texts at. */
  predicate Cuts(c: char) {
    c == ':' || c == '+' || c == ',' || c == '\r' || c == '\n'
  }

  predicate Plain(s: string) {
    forall i :: 0 <= i < |s| ==> !Cuts(s[i])
  }

  /** The `unsigned long` a number written with a sign becomes: a negative one wraps around, and one
      too large becomes the largest, whatever its sign. */
  function AsUlong(v: nat, minus: bool): nat {
    if v >= ULONG_RANGE then ULONG_RANGE - 1 else if minus && v > 0 then ULONG_RANGE - v else v
  }

  // ----- Digits ---------------------------------------------------------

  lemma DigitIs(d: nat, upper: bool)
    requires d < 16
    ensures DigitValue(Digit(d, upper)) == d
    ensures !Cuts(Digit(d, upper))
  {
    DigitOfNibble(d);
  }

  lemma {:induction false} CountDigits(digits: string, rest: string, base: nat)
    requires AllDigits(digits, base) && (rest != [] ==> DigitValue(rest[0]) >= base)
    ensures DigitCount(digits + rest, base) == |digits|
  {
    if digits == [] {
      assert digits + rest == rest;
    } else {
      CountDigits(digits[1..], rest, base);
      assert (digits + rest)[1..] == digits[1..] + rest;
    }
  }

  lemma {:induction false} CountBlanks(blanks: string, rest: string)
    requires Blank(blanks) && (rest != [] ==> !IsSpace(rest[0]))
    ensures SpaceCount(blanks + rest) == |blanks|
  {
    if blanks == [] {
      assert blanks + rest == rest;
    } else {
      BlankIsSpace(blanks[0]);
      CountBlanks(blanks[1..], rest);
      assert (blanks + rest)[1..] == blanks[1..] + rest;
    }
  }

  lemma ValueSnoc(s: string, c: char, base: nat)
    ensures DigitsValue(s + [c], base) == DigitsValue(s, base) * base + DigitValue(c)
  {
    assert (s + [c])[..|s|] == s;
  }

  lemma FrontAndLast(n: nat, base: nat)
    requires base >= 2
    ensures Front(n, base) * base + Last(n, base) == n
  {
  }

  /** The digits of a written number are digits of the base, and their value is the number. */
  lemma {:induction false} WrittenValue(n: nat, base: nat, upper: bool)
    requires 2 <= base <= 16
    ensures AllDigits(Written(n, base, upper), base)
    ensures DigitsValue(Written(n, base, upper), base) == n
  {
    assert DigitsValue("", base) == 0;
    hide DigitValue, DigitsValue, Digit, Front, Last;
    if n < base {
      DigitIs(n, upper);
      ValueSnoc("", Digit(n, upper), base);
      assert "" + [Digit(n, upper)] == [Digit(n, upper)];
    } else {
      var more, d := Written(Front(n, base), base, upper), Last(n, base);
      DigitIs(d, upper);
      WrittenValue(Front(n, base), base, upper);
      ValueSnoc(more, Digit(d, upper), base);
      FrontAndLast(n, base);
    }
  }

  lemma PlainConcat(a: string, b: string)
    ensures Plain(a + b) <==> Plain(a) && Plain(b)
  {
    hide Cuts;
    assert forall i :: 0 <= i < |a| ==> (a + b)[i] == a[i];
    assert forall i :: 0 <= i < |b| ==> (a + b)[|a| + i] == b[i];
  }

  lemma PlainHas(s: string)
    requires Plain(s)
    ensures ':' !in s && '+' !in s && ',' !in s && '\r' !in s && '\n' !in s
  {
  }

  lemma {:induction false} WrittenPlain(n: nat, base: nat, upper: bool)
    requires 2 <= base <= 16
    ensures Plain(Written(n, base, upper))
  {
    hide Digit, Cuts, Front, Last;
    if n < base {
      DigitIs(n, upper);
    } else {
      DigitIs(Last(n, base), upper);
      WrittenPlain(Front(n, base), base, upper);
    }
  }

  lemma {:induction false} ZerosValue(k: nat, s: string, base: nat)
    requires base >= 2
    ensures DigitsValue(Zeros(k) + s, base) == DigitsValue(s, base)
    ensures AllDigits(s, base) ==> AllDigits(Zeros(k) + s, base)
    decreases k + |s|
  {
    if s == [] {
      assert Zeros(k) + s == Zeros(k);
      if k > 0 {
        ZerosValue(k - 1, s, base);
        assert Zeros(k)[..k - 1] == Zeros(k - 1) == Zeros(k - 1) + s;
      }
    } else {
      var n := |s| - 1;
      ZerosValue(k, s[..n], base);
      assert (Zeros(k) + s)[..k + n] == Zeros(k) + s[..n];
    }
  }

  // ----- Numerals -------------------------------------------------------

  lemma DigitPlain(c: char, base: nat)
    requires DigitValue(c) < base <= 16
    ensures !IsSpace(c) && c != '+' && c != '-' && c != 'x' && c != 'X'
  {
  }

  /** The start of a numeral, up to its sign. */
  lemma UpToSign(s: string, blanks: string, sign: Sign, tail: string)
    requires Blank(blanks) && s == blanks + sign.Text() + tail
    requires tail != [] && !IsSpace(tail[0]) && tail[0] != '+' && tail[0] != '-'
    ensures var at := |blanks|;
            && SpaceCount(s) == at < |s| && s[at + |sign.Text()|..] == tail
            && (s[at] == '-' <==> sign.Minus?) && (s[at] == '+' <==> sign.Plus?)
  {
    hide SpaceCount, Blank;
    var rest := sign.Text() + tail;
    Assoc(blanks, sign.Text(), tail);
    CountBlanks(blanks, rest);
    assert s[|blanks|] == rest[0];
    assert rest[0] == if sign.Unsigned? then tail[0] else sign.Text()[0];
    assert s[|blanks| + |sign.Text()|..] == tail;
  }

  /** The prefix is found iff it is there. */
  lemma PrefixFound(tail: string, prefix: string, digits: string, base: nat)
    requires base == 10 || base == 16
    requires IsPrefix(prefix, base) && digits != [] && AllDigits(digits, base) && tail == prefix + digits
    ensures !IsSpace(tail[0]) && tail[0] != '+' && tail[0] != '-'
    ensures base == 16 && 1 < |tail| && tail[0] == '0' && (tail[1] == 'x' || tail[1] == 'X') <==> prefix != ""
    ensures prefix != "" ==> |prefix| == 2
  {
    hide DigitValue;
    DigitPlain(digits[0], base);
    if |digits| > 1 {
      DigitPlain(digits[1], base);
    }
  }

  lemma Negated(v: int)
    requires 0 <= v < ULONG_RANGE
    ensures (-v) % ULONG_RANGE == if v > 0 then ULONG_RANGE - v else 0
  {
  }

  /** `Strtoul` on a text whose parts start at known places and whose digits go to its end. */
  lemma StrtoulIs(s: string, base: nat, at: nat, start: nat, first: nat)
    requires SpaceCount(s) == at < |s| && start <= first < |s|
    requires start == if s[at] == '-' || s[at] == '+' then at + 1 else at
    requires var prefixed := base == 16 && start + 1 < |s| && s[start] == '0'
                             && (s[start + 1] == 'x' || s[start + 1] == 'X');
             first == if prefixed then start + 2 else start
    requires DigitCount(s[first..], base) == |s| - first
    ensures Strtoul(s, base) == Converted(AsUlong(DigitsValue(s[first..], base), s[at] == '-'), |s|)
  {
    hide DigitsValue, DigitCount, SpaceCount;
    assert s[first..|s|] == s[first..];
    var v := DigitsValue(s[first..], base);
    if v < ULONG_RANGE {
      Negated(v);
    }
  }

  lemma Places(s: string, front: string, prefix: string, digits: string)
    requires s == front + (prefix + digits) && digits != []
    ensures var at, tail := |front|, prefix + digits;
            && |s| == at + |tail| && s[at] == tail[0] && (|tail| > 1 ==> s[at + 1] == tail[1])
            && s[at + |prefix|..] == digits
  {
  }

  lemma Joined(s: string, a: nat, b: nat, c: nat)
    requires a <= b <= c <= |s|
    ensures s == s[..a] + s[a..b] + (s[b..c] + s[c..])
  {
  }

  /** Where the digits of a numeral start, and what stands before them. */
  lemma DigitsAt(s: string, blanks: string, sign: Sign, prefix: string, digits: string, base: nat)
    requires base == 10 || base == 16
    requires Blank(blanks) && IsPrefix(prefix, base) && digits != [] && AllDigits(digits, base)
    requires s == blanks + sign.Text() + (prefix + digits)
    ensures var at, start := |blanks|, |blanks| + |sign.Text()|;
            && SpaceCount(s) == at < |s| && s[start + |prefix|..] == digits && start + |prefix| < |s|
            && (s[at] == '-' <==> sign.Minus?) && (s[at] == '+' <==> sign.Plus?)
            && (base == 16 && start + 1 < |s| && s[start] == '0' && (s[start + 1] == 'x' || s[start + 1] == 'X')
                <==> prefix != "")
            && (prefix != "" ==> |prefix| == 2)
  {
    hide SpaceCount, DigitValue, IsSpace, AllDigits, Blank, IsPrefix;
    PrefixFound(prefix + digits, prefix, digits, base);
    UpToSign(s, blanks, sign, prefix + digits);
    Places(s, blanks + sign.Text(), prefix, digits);
  }

  /** What `Strtoul` makes of a prefix and digits behind a sign. */
  lemma Behind(s: string, blanks: string, sign: Sign, prefix: string, digits: string, base: nat)
    requires base == 10 || base == 16
    requires Blank(blanks) && IsPrefix(prefix, base) && digits != [] && AllDigits(digits, base)
    requires s == blanks + sign.Text() + (prefix + digits)
    ensures Strtoul(s, base) == Converted(AsUlong(DigitsValue(digits, base), sign.Minus?), |s|)
  {
    hide Strtoul, DigitsValue, DigitCount, SpaceCount, DigitValue, IsSpace, AllDigits, Blank, IsPrefix, AsUlong;
    DigitsAt(s, blanks, sign, prefix, digits, base);
    CountDigits(digits, "", base);
    assert digits + "" == digits;
    var start := |blanks| + |sign.Text()|;
    StrtoulIs(s, base, |blanks|, start, start + |prefix|);
  }

  /** A numeral is blanks, a sign, a prefix and digits, each but the digits optional. */
  lemma NumeralOf(blanks: string, sign: Sign, prefix: string, digits: string, base: nat)
    requires base == 10 || base == 16
    requires Blank(blanks) && IsPrefix(prefix, base) && digits != [] && AllDigits(digits, base)
    ensures Numeral(blanks + sign.Text() + (prefix + digits), base)
         == Some(AsUlong(DigitsValue(digits, base), sign.Minus?))
  {
    hide Strtoul, DigitsValue;
    Behind(blanks + sign.Text() + (prefix + digits), blanks, sign, prefix, digits, base);
  }

  predicate Spells(s: string, blanks: string, sign: Sign, prefix: string, digits: string, base: nat) {
    && Blank(blanks) && IsPrefix(prefix, base) && digits != [] && AllDigits(digits, base)
    && s == blanks + sign.Text() + (prefix + digits)
  }

  lemma {:induction false} BlanksCounted(s: string)
    ensures Blank(s[..SpaceCount(s)])
  {
    if s != [] && IsSpace(s[0]) {
      BlankIsSpace(s[0]);
      BlanksCounted(s[1..]);
      assert s[..SpaceCount(s)] == [s[0]] + s[1..][..SpaceCount(s[1..])];
    }
  }

  lemma {:induction false} DigitsCounted(s: string, base: nat)
    ensures AllDigits(s[..DigitCount(s, base)], base)
  {
    if s != [] && DigitValue(s[0]) < base {
      DigitsCounted(s[1..], base);
      assert s[..DigitCount(s, base)] == [s[0]] + s[1..][..DigitCount(s[1..], base)];
    }
  }

  /** Where the parts of a numeral start. */
  lemma Found(s: string, base: nat) returns (at: nat, start: nat, first: nat)
    requires base == 10 || base == 16
    requires s != "" && Numeral(s, base).Some?
    ensures at == SpaceCount(s) <= start <= first < |s|
    ensures start == if at < |s| && (s[at] == '-' || s[at] == '+') then at + 1 else at
    ensures first == start
         || (first == start + 2 && base == 16 && s[start] == '0' && (s[start + 1] == 'x' || s[start + 1] == 'X'))
    ensures DigitCount(s[first..], base) == |s| - first
  {
    hide DigitsValue, DigitCount, SpaceCount, IsSpace, DigitValue;
    at := SpaceCount(s);
    start := if at < |s| && (s[at] == '-' || s[at] == '+') then at + 1 else at;
    var prefixed := base == 16 && start + 1 < |s| && s[start] == '0' && (s[start + 1] == 'x' || s[start + 1] == 'X');
    first := if prefixed then start + 2 else start;
  }

  lemma Parts(s: string, base: nat) returns (blanks: string, sign: Sign, prefix: string, digits: string)
    requires base == 10 || base == 16
    requires s != "" && Numeral(s, base).Some?
    ensures Spells(s, blanks, sign, prefix, digits, base)
  {
    hide Numeral, DigitCount, SpaceCount, Blank, AllDigits, IsSpace, DigitValue;
    var at, start, first := Found(s, base);
    blanks, prefix, digits := s[..at], s[start..first], s[first..];
    sign := if start == at then Unsigned else if s[at] == '-' then Minus else Plus;
    assert sign.Text() == s[at..start];
    assert first > start ==> prefix == [s[start], s[start + 1]];
    Joined(s, at, start, first);
    BlanksCounted(s);
    DigitsCounted(digits, base);
    assert digits[..|digits|] == digits;
  }

  /** And nothing else is one, but for the empty text, which reads as 0. */
  lemma NumeralIff(s: string, base: nat)
    requires base == 10 || base == 16
    ensures Numeral(s, base).Some?
       <==> s == "" || exists blanks, sign, prefix, digits :: Spells(s, blanks, sign, prefix, digits, base)
  {
    assert Numeral("", base) == Some(0);
    hide Strtoul;
    if Numeral(s, base).Some? && s != "" {
      var blanks, sign, prefix, digits := Parts(s, base);
    }
    forall blanks, sign, prefix, digits | Spells(s, blanks, sign, prefix, digits, base)
      ensures Numeral(s, base).Some?
    {
      NumeralOf(blanks, sign, prefix, digits, base);
    }
  }

  /** Every number, written in base 10 or 16 in either letter case, with blanks, sign, prefix and zeros
      in front, is read as itself; negative ones wrap around, those from 2^64 on saturate. */
  lemma WrittenNumeral(blanks: string, sign: Sign, prefix: string, zeros: nat, n: nat, base: nat, upper: bool)
    requires base == 10 || base == 16
    requires Blank(blanks) && IsPrefix(prefix, base)
    ensures Numeral(blanks + sign.Text() + (prefix + (Zeros(zeros) + Written(n, base, upper))), base)
         == Some(AsUlong(n, sign.Minus?))
  {
    hide Numeral, DigitsValue, Written;
    WrittenValue(n, base, upper);
    ZerosValue(zeros, Written(n, base, upper), base);
    NumeralOf(blanks, sign, prefix, Zeros(zeros) + Written(n, base, upper), base);
  }

  lemma DecNumeral(n: nat)
    requires n < 0x1_0000_0000_0000_0000
    ensures Numeral(Dec(n), 10) == Some(n)
    ensures Plain(Dec(n))
  {
    hide Numeral, Written;
    WrittenNumeral("", Unsigned, "", 0, n, 10, false);
    WrittenPlain(n, 10, false);
    assert "" + Unsigned.Text() + ("" + (Zeros(0) + Dec(n))) == Dec(n);
  }

  /** A 32-bit attribute holds a number below 2^32 as it is. */
  lemma DecU32(n: nat)
    requires n < 0x1_0000_0000
    ensures Numeral(Dec(n), 10) == Some(n) && ToU32(n) == n
    ensures Plain(Dec(n))
  {
    hide Numeral;
    DecNumeral(n);
  }
}
