/** The C library text routines the parsers rest on: `strtoul`, `strchr` splitting,
    `strtok` tokens and the two-digit hexadecimal conversions of `printf`.
    Text is a C string without its terminating NUL. */
module CText {

  datatype Option<+T> = None | Some(value: T)

  /** One more value in front of the rest, if there is a rest. */
  function Then<T>(x: T, rest: Option<seq<T>>): Option<seq<T>> {
    if rest.None? then None else Some([x] + rest.value)
  }

  type Byte = b: int | 0 <= b < 256

  const ULONG_RANGE: int := 0x1_0000_0000_0000_0000
  const UINT_RANGE: int := 0x1_0000_0000

  const EINVAL: int := 22

  /** Conversion of an `unsigned long` to a 32-bit unsigned attribute value. */
  function ToU32(v: nat): (r: nat)
    ensures r < UINT_RANGE
  {
    v % UINT_RANGE
  }

  lemma Assoc(a: string, b: string, c: string)
    ensures a + b + c == a + (b + c)
  {
  }

  // ----- strtoul --------------------------------------------------------

  predicate IsSpace(c: char) {
    c == ' ' || 9 <= c as int <= 13
  }

  /** Value of a digit, 36 when the character is no digit in any base. */
  function DigitValue(c: char): nat {
    if '0' <= c <= '9' then c as int - '0' as int
    else if 'a' <= c <= 'z' then c as int - 'a' as int + 10
    else if 'A' <= c <= 'Z' then c as int - 'A' as int + 10
    else 36
  }

  function SpaceCount(s: string): (n: nat)
    ensures n <= |s|
  {
    if s != [] && IsSpace(s[0]) then 1 + SpaceCount(s[1..]) else 0
  }

  function DigitCount(s: string, base: nat): (n: nat)
    ensures n <= |s|
  {
    if s != [] && DigitValue(s[0]) < base then 1 + DigitCount(s[1..], base) else 0
  }

  function DigitsValue(s: string, base: nat): nat {
    if s == [] then 0 else DigitsValue(s[..|s| - 1], base) * base + DigitValue(s[|s| - 1])
  }

  /** What `strtoul(s, &end, base)` returns, and the index it leaves in `end`. */
  datatype Converted = Converted(value: nat, end: nat)

  function Strtoul(s: string, base: nat): (r: Converted)
    ensures r.end <= |s|
  {
    var sign := SpaceCount(s);
    var signed := sign < |s| && (s[sign] == '-' || s[sign] == '+');
    var start := if signed then sign + 1 else sign;
    var prefixed := base == 16 && start + 1 < |s| && s[start] == '0' && (s[start + 1] == 'x' || s[start + 1] == 'X');
    var first := if prefixed then start + 2 else start;
    var n := DigitCount(s[first..], base);
    if n == 0 then
      Converted(0, if prefixed then start + 1 else 0)
    else
      var v := DigitsValue(s[first..first + n], base);
      var magnitude := if v >= ULONG_RANGE then ULONG_RANGE - 1 else v;
      var negative := signed && s[sign] == '-' && v < ULONG_RANGE;
      Converted(if negative then (-magnitude) % ULONG_RANGE else magnitude, first + n)
  }

  /** A number that takes up the whole text (`*end == 0`). The empty text reads as 0. */
  function Numeral(s: string, base: nat): Option<nat> {
    var r := Strtoul(s, base);
    if r.end == |s| then Some(r.value) else None
  }

  /** A letter in one of the first two places makes no decimal number. */
  lemma NoNumeral(s: string, k: nat)
    requires k < |s| && k <= 1 && DigitValue(s[k]) >= 10
    requires !IsSpace(s[0]) && s[0] != '-' && s[0] != '+'
    ensures Numeral(s, 10).None?
  {
    assert s[0..] == s && SpaceCount(s) == 0;
    assert DigitCount(s, 10) <= k;
  }

  // ----- strchr and strtok ----------------------------------------------

  /** Index of the first `c`, or |s| when there is none. */
  function IndexOf(s: string, c: char): (i: nat)
    ensures i <= |s|
    ensures c !in s[..i]
    ensures i < |s| ==> s[i] == c
  {
    if s == [] || s[0] == c then 0 else 1 + IndexOf(s[1..], c)
  }

  /** The pieces between separators; n separators give n + 1 pieces. */
  function Split(s: string, sep: char): (r: seq<string>)
    ensures |r| >= 1
    decreases |s|
  {
    var i := IndexOf(s, sep);
    if i == |s| then [s] else [s[..i]] + Split(s[i + 1..], sep)
  }

  lemma SplitCons(s: string, sep: char)
    ensures var i := IndexOf(s, sep);
            && Split(s, sep)[0] == s[..i]
            && Split(s, sep)[1..] == if i == |s| then [] else Split(s[i + 1..], sep)
  {
  }

  function Join(parts: seq<string>, sep: char): string
    requires |parts| >= 1
  {
    if |parts| == 1 then parts[0] else parts[0] + [sep] + Join(parts[1..], sep)
  }

  lemma {:induction false} IndexOfPrefix(a: string, sep: char, b: string)
    requires sep !in a
    ensures IndexOf(a + [sep] + b, sep) == |a|
    ensures IndexOf(a, sep) == |a|
  {
    if a != [] {
      IndexOfPrefix(a[1..], sep, b);
      assert (a + [sep] + b)[1..] == a[1..] + [sep] + b;
    }
  }

  /** Splitting undoes joining pieces that do not hold the separator. */
  lemma {:induction false} SplitJoin(parts: seq<string>, sep: char)
    requires |parts| >= 1
    requires forall p :: p in parts ==> sep !in p
    ensures Split(Join(parts, sep), sep) == parts
  {
    var a := parts[0];
    assert a in parts;
    if |parts| == 1 {
      IndexOfPrefix(a, sep, []);
    } else {
      var rest := Join(parts[1..], sep);
      IndexOfPrefix(a, sep, rest);
      var s := a + [sep] + rest;
      assert s[..|a|] == a && s[|a| + 1..] == rest;
      SplitJoin(parts[1..], sep);
    }
  }

  /** Joining undoes splitting, on every text. */
  lemma {:induction false} JoinSplit(s: string, sep: char)
    ensures Join(Split(s, sep), sep) == s
    decreases |s|
  {
    hide Split, Join;
    var i := IndexOf(s, sep);
    SplitCons(s, sep);
    JoinCons(Split(s, sep), sep);
    if i < |s| {
      JoinSplit(s[i + 1..], sep);
      assert s == s[..i] + [sep] + s[i + 1..];
    } else {
      assert s[..i] == s;
    }
  }

  lemma JoinCons(parts: seq<string>, sep: char)
    requires |parts| >= 1
    ensures Join(parts, sep) == if parts[1..] == [] then parts[0] else parts[0] + [sep] + Join(parts[1..], sep)
  {
  }

  /** Pieces of a split are in all |s| - (|pieces| - 1) characters long. */
  function TotalLength(parts: seq<string>): nat {
    if parts == [] then 0 else |parts[0]| + TotalLength(parts[1..])
  }

  lemma {:induction false} SplitLength(s: string, sep: char)
    ensures TotalLength(Split(s, sep)) + |Split(s, sep)| == |s| + 1
    decreases |s|
  {
    var i := IndexOf(s, sep);
    var parts := Split(s, sep);
    if i == |s| {
      assert parts[1..] == [];
    } else {
      SplitLength(s[i + 1..], sep);
      assert parts[1..] == Split(s[i + 1..], sep);
    }
  }

  lemma {:induction false} NonEmptyPieces(parts: seq<string>)
    requires forall i :: 0 <= i < |parts| ==> parts[i] != []
    ensures TotalLength(parts) >= |parts|
  {
    if parts != [] {
      NonEmptyPieces(parts[1..]);
    }
  }

  function LeadingCount(s: string, c: char): (n: nat)
    ensures n <= |s|
    ensures n < |s| ==> s[n] != c
  {
    if s != [] && s[0] == c then 1 + LeadingCount(s[1..], c) else 0
  }

  /** `strtok` with one delimiter: the first token (None for a null result) and the text after it. */
  function NextToken(s: string, c: char): (r: (Option<string>, string))
    ensures r.0.Some? ==> r.0.value != [] && c !in r.0.value
  {
    var rest := s[LeadingCount(s, c)..];
    if rest == [] then (None, [])
    else
      var i := IndexOf(rest, c);
      (Some(rest[..i]), if i == |rest| then [] else rest[i + 1..])
  }

  // ----- printf of bytes ------------------------------------------------

  function LowerDigit(d: nat): char
    requires d < 16
  {
    "0123456789abcdef"[d]
  }

  function UpperDigit(d: nat): char
    requires d < 16
  {
    "0123456789ABCDEF"[d]
  }

  /** `%.2x` */
  function LowerHex(b: Byte): string {
    [LowerDigit(b / 16), LowerDigit(b % 16)]
  }

  /** `%.2X` */
  function UpperHex(b: Byte): string {
    [UpperDigit(b / 16), UpperDigit(b % 16)]
  }

  lemma DigitOfNibble(d: nat)
    requires d < 16
    ensures DigitValue(LowerDigit(d)) == d
    ensures DigitValue(UpperDigit(d)) == d
    ensures !IsSpace(LowerDigit(d)) && LowerDigit(d) !in ":+,-x\\X"
    ensures LowerDigit(d) as int < 128
    ensures UpperDigit(d) !in ":+,-x.;s"
  {
  }

  /** `strtoul` in base 16 reads back what `%.2x` prints. */
  lemma LowerHexNumeral(b: Byte)
    ensures Numeral(LowerHex(b), 16) == Some(b)
  {
    var s := LowerHex(b);
    DigitOfNibble(b / 16);
    DigitOfNibble(b % 16);
    assert SpaceCount(s) == 0;
    assert s[0..] == s;
    assert s[1..] == [s[1]] && s[1..][1..] == [];
    assert DigitCount(s[1..], 16) == 1;
    assert DigitCount(s, 16) == 2;
    assert s[0..2] == s;
    assert s[..1] == [s[0]] && s[..1][..0] == [];
    assert DigitsValue(s[..1], 16) == b / 16;
  }
}
