/** WEP keys as text: `iw_print_key` and `iw_in_key`. */
module KeyText {
  import opened CText
  import Numerals

  const TOKEN_MAX := 32

  // ----- Printing -------------------------------------------------------

  /** Bytes in groups of two, from byte `i` on. */
  function PrintedFrom(key: seq<Byte>, i: nat): string
    requires i <= |key|
    decreases |key| - i
  {
    if i == |key| then ""
    else (if i > 0 && i % 2 == 0 then "-" else "") + UpperHex(key[i]) + PrintedFrom(key, i + 1)
  }

  /** `iw_print_key` of a key that is present. */
  method PrintKey(key: seq<Byte>) returns (buffer: string)
    requires |key| >= 1
    ensures buffer == PrintedFrom(key, 0)
  {
    buffer := UpperHex(key[0]);
    for i := 1 to |key|
      invariant buffer + PrintedFrom(key, i) == PrintedFrom(key, 0)
    {
      if i % 2 == 0 {
        buffer := buffer + "-";
      }
      buffer := buffer + UpperHex(key[i]);
    }
    assert buffer + "" == buffer;
  }

  // ----- Reading --------------------------------------------------------

  predicate IsSeparator(c: char) {
    c in "-:;.,"
  }

  function SkipSeparators(s: string): (r: string)
    ensures |r| <= |s| && (r != [] ==> !IsSeparator(r[0]))
  {
    if s != [] && IsSeparator(s[0]) then SkipSeparators(s[1..]) else s
  }

  /** Characters up to the next separator. */
  function TokenLength(s: string): (n: nat)
    ensures n <= |s|
    ensures s != [] && !IsSeparator(s[0]) ==> n >= 1
  {
    if s != [] && !IsSeparator(s[0]) then 1 + TokenLength(s[1..]) else 0
  }

  /** `sscanf(p, "%2X", &temp)`: blanks are skipped, a sign takes one of the two places. */
  function ScanPair(token: string): (r: Option<Byte>)
  {
    var s := token[SpaceCount(token)..];
    var signed := s != [] && s[0] == '+';
    var t := if signed then s[1..] else s;
    var width := if signed then 1 else 2;
    var n := if DigitCount(t, 16) < width then DigitCount(t, 16) else width;
    if n == 0 then None
    else
      Numerals.DigitsCounted(t, 16);
      PairFits(t[..n]);
      Some(DigitsValue(t[..n], 16))
  }

  lemma PairFits(d: string)
    requires 1 <= |d| <= 2 && forall i :: 0 <= i < |d| ==> DigitValue(d[i]) < 16
    ensures DigitsValue(d, 16) == if |d| == 1 then DigitValue(d[0]) else 16 * DigitValue(d[0]) + DigitValue(d[1])
  {
    assert d[..1][..0] == [];
    assert DigitsValue(d[..1], 16) == DigitValue(d[0]);
    assert |d| == 1 ==> d[..1] == d;
  }

  /** The bytes read from the current place in a token, with room for some more; None is an error. */
  function Bytes(s: string, room: nat): Option<seq<Byte>>
    decreases |s|
  {
    var t := SkipSeparators(s);
    if t == [] || room == 0 then Some([])
    else
      var n := TokenLength(t);
      match ScanPair(t[..n])
      case None => None
      case Some(b) => Then(b, Bytes(t[if n > 2 then 2 else n..], room - 1))
  }

  function Chars(s: string, n: nat): seq<Byte>
    requires n <= |s|
  {
    seq(n, i requires 0 <= i < n => s[i] as int % 256)
  }

  /** `iw_in_key`: the key, or None for its -1. */
  function InKey(input: string): Option<seq<Byte>> {
    if "s:" <= input then Some(Chars(input[2..], Min(|input| - 2, TOKEN_MAX)))
    else if "p:" <= input then None
    else Bytes(input, TOKEN_MAX)
  }

  function Min(a: nat, b: nat): nat {
    if a <= b then a else b
  }

  method ReadKey(input: string) returns (key: Option<seq<Byte>>)
    ensures key == InKey(input)
  {
    hide ScanPair, TokenLength;
    if "s:" <= input {
      return Some(Chars(input[2..], Min(|input| - 2, TOKEN_MAX)));
    }
    if "p:" <= input {
      return None;
    }
    var bytes: seq<Byte> := [];
    var p := SkipSeparators(input);
    SkipTwice(input, TOKEN_MAX);
    while p != [] && |bytes| < TOKEN_MAX
      invariant p != [] ==> !IsSeparator(p[0])
      invariant |bytes| <= TOKEN_MAX
      invariant InKey(input) == After(bytes, Bytes(p, TOKEN_MAX - |bytes|))
      decreases |p|
    {
      var n := TokenLength(p);
      var temp := ScanPair(p[..n]);
      assert SkipSeparators(p) == p;
      if temp.None? {
        return None;
      }
      var rest := p[if n > 2 then 2 else n..];
      AfterThen(bytes, temp.value, Bytes(rest, TOKEN_MAX - |bytes| - 1));
      SkipTwice(rest, TOKEN_MAX - |bytes| - 1);
      bytes := bytes + [temp.value];
      p := SkipSeparators(rest);
    }
    assert bytes + [] == bytes;
    key := Some(bytes);
  }

  function After(bytes: seq<Byte>, rest: Option<seq<Byte>>): Option<seq<Byte>> {
    if rest.None? then None else Some(bytes + rest.value)
  }

  lemma AfterThen(bytes: seq<Byte>, b: Byte, rest: Option<seq<Byte>>)
    ensures After(bytes, Then(b, rest)) == After(bytes + [b], rest)
  {
    if rest.Some? {
      assert bytes + ([b] + rest.value) == bytes + [b] + rest.value;
    }
  }

  lemma SkipTwice(s: string, room: nat)
    ensures SkipSeparators(SkipSeparators(s)) == SkipSeparators(s)
    ensures Bytes(SkipSeparators(s), room) == Bytes(s, room)
    ensures After([], Bytes(s, room)) == Bytes(s, room)
  {
    var t := SkipSeparators(s);
    assert t == [] || !IsSeparator(t[0]);
    var r := Bytes(s, room);
    assert r.Some? ==> [] + r.value == r.value;
  }

  // ----- Round trip -----------------------------------------------------

  lemma UpperHexText(b: Byte)
    ensures var h := UpperHex(b);
            && |h| == 2 && !IsSeparator(h[0]) && !IsSeparator(h[1])
            && !IsSpace(h[0]) && h[0] != '+' && h[0] != 's' && h[0] != 'p'
            && DigitValue(h[0]) == b / 16 && DigitValue(h[1]) == b % 16
  {
    DigitOfNibble(b / 16);
    DigitOfNibble(b % 16);
  }

  /** Two digits at the start of a token are the byte they were printed from. */
  lemma ScanPrinted(b: Byte, more: string)
    ensures ScanPair(UpperHex(b) + more) == Some(b)
  {
    hide UpperHex;
    UpperHexText(b);
    var s := UpperHex(b) + more;
    assert SpaceCount(s) == 0 && s[0..] == s;
    assert DigitCount(s[1..], 16) >= 1 by { assert s[1..][0] == UpperHex(b)[1]; }
    assert DigitCount(s, 16) >= 2;
    assert s[..2] == UpperHex(b);
    PairFits(s[..2]);
  }

  lemma TokenOfPrinted(b: Byte, rest: string)
    ensures var s := UpperHex(b) + rest;
            && TokenLength(s) == 2 + TokenLength(rest)
            && s[..TokenLength(s)] == UpperHex(b) + rest[..TokenLength(rest)]
            && s[if TokenLength(s) > 2 then 2 else TokenLength(s)..] == rest
  {
    hide UpperHex;
    UpperHexText(b);
    var s := UpperHex(b) + rest;
    assert s[1..][0] == UpperHex(b)[1] && s[1..][1..] == rest;
    assert TokenLength(s[1..]) == 1 + TokenLength(rest);
  }

  /** A printed byte in front of some text is read first. */
  lemma BytesOfPair(b: Byte, rest: string, room: nat)
    ensures Bytes(UpperHex(b) + rest, room) == if room == 0 then Some([]) else Then(b, Bytes(rest, room - 1))
  {
    hide UpperHex, TokenLength, ScanPair;
    UpperHexText(b);
    var s := UpperHex(b) + rest;
    assert SkipSeparators(s) == s;
    TokenOfPrinted(b, rest);
    ScanPrinted(b, rest[..TokenLength(rest)]);
  }

  /** What was printed from a byte on reads back as the bytes from there on. */
  lemma {:induction false} BytesOfPrinted(key: seq<Byte>, i: nat, room: nat)
    requires i <= |key|
    ensures Bytes(PrintedFrom(key, i), room) == Some(key[i..i + Min(|key| - i, room)])
    decreases |key| - i
  {
    hide UpperHex, Bytes;
    if i == |key| {
      BytesOfNothing(room);
    } else {
      var rest := PrintedFrom(key, i + 1);
      BytesOfPair(key[i], rest, room);
      if i > 0 && i % 2 == 0 {
        Separator('-', UpperHex(key[i]) + rest, room);
        assert PrintedFrom(key, i) == "-" + (UpperHex(key[i]) + rest);
      } else {
        assert PrintedFrom(key, i) == UpperHex(key[i]) + rest;
      }
      if room > 0 {
        BytesOfPrinted(key, i + 1, room - 1);
        var n := Min(|key| - i, room);
        assert key[i..i + n] == [key[i]] + key[i + 1..i + n];
      } else {
        assert key[i..i + 0] == [];
      }
    }
  }

  lemma BytesOfNothing(room: nat)
    ensures Bytes("", room) == Some([])
  {
  }

  /** Any of the five separators in front of a text is skipped. */
  lemma Separator(c: char, s: string, room: nat)
    requires c == '-' || c == ':' || c == ';' || c == '.' || c == ','
    ensures Bytes([c] + s, room) == Bytes(s, room)
  {
    hide ScanPair, TokenLength;
    var t := [c] + s;
    assert t[1..] == s;
    assert IsSeparator(c);
    assert SkipSeparators(t) == SkipSeparators(s);
  }

  /** A text that starts with neither letter of the other forms is read as bytes. */
  lemma PlainForm(s: string)
    requires s != [] && s[0] != 's' && s[0] != 'p'
    ensures InKey(s) == Bytes(s, TOKEN_MAX)
  {
    hide Bytes;
  }

  /** Reading back a printed key gives its first 32 bytes, and all of it when it is no longer. */
  lemma ReadPrintedKey(key: seq<Byte>)
    requires |key| >= 1
    ensures InKey(PrintedFrom(key, 0)) == Some(key[..Min(|key|, TOKEN_MAX)])
  {
    assert PrintedFrom(key, 0) != [] && PrintedFrom(key, 0)[0] == UpperHex(key[0])[0];
    hide UpperHex, Bytes, InKey, PrintedFrom;
    BytesOfPrinted(key, 0, TOKEN_MAX);
    UpperHexText(key[0]);
    PlainForm(PrintedFrom(key, 0));
    assert key[0..Min(|key|, TOKEN_MAX)] == key[..Min(|key|, TOKEN_MAX)];
  }

  // ----- Other ways to write a key --------------------------------------

  /** A key with a separator of any kind in front of each byte but the first. */
  function Separated(key: seq<Byte>, seps: string, i: nat): string
    requires i <= |key| == |seps|
    decreases |key| - i
  {
    if i == |key| then ""
    else (if i > 0 then [seps[i]] else "") + (UpperHex(key[i]) + Separated(key, seps, i + 1))
  }

  lemma {:induction false} BytesOfSeparated(key: seq<Byte>, seps: string, i: nat, room: nat)
    requires i <= |key| == |seps|
    requires forall j :: 0 <= j < |seps| ==> seps[j] in "-:;.,"
    ensures Bytes(Separated(key, seps, i), room) == Some(key[i..i + Min(|key| - i, room)])
    decreases |key| - i
  {
    hide UpperHex, Bytes;
    if i == |key| {
      BytesOfNothing(room);
    } else {
      var rest := UpperHex(key[i]) + Separated(key, seps, i + 1);
      BytesOfPair(key[i], Separated(key, seps, i + 1), room);
      if i > 0 {
        Separator(seps[i], rest, room);
      } else {
        assert "" + rest == rest;
      }
      if room > 0 {
        BytesOfSeparated(key, seps, i + 1, room - 1);
        var n := Min(|key| - i, room);
        assert key[i..i + n] == [key[i]] + key[i + 1..i + n];
      } else {
        assert key[i..i + 0] == [];
      }
    }
  }

  /** Bytes separated by any of the five separators read as the first 32 of them. */
  lemma ReadSeparatedKey(key: seq<Byte>, seps: string)
    requires |key| == |seps| >= 1
    requires forall j :: 0 <= j < |seps| ==> seps[j] in "-:;.,"
    ensures InKey(Separated(key, seps, 0)) == Some(key[..Min(|key|, TOKEN_MAX)])
  {
    hide UpperHex, Bytes, InKey;
    BytesOfSeparated(key, seps, 0, TOKEN_MAX);
    UpperHexText(key[0]);
    var s := Separated(key, seps, 0);
    assert s == UpperHex(key[0]) + Separated(key, seps, 1);
    assert s[0] == UpperHex(key[0])[0];
    PlainForm(s);
    assert key[0..Min(|key|, TOKEN_MAX)] == key[..Min(|key|, TOKEN_MAX)];
  }

  /** Behind a byte, any character but a separator, a digit, a blank or a sign is an error. */
  lemma ForeignCharacter(b: Byte, c: char, rest: string, room: nat)
    requires room >= 2 && DigitValue(c) >= 16 && !IsSpace(c) && c != '+'
    requires c != '-' && c != ':' && c != ';' && c != '.' && c != ','
    ensures Bytes(UpperHex(b) + ([c] + rest), room) == None
  {
    hide UpperHex, Bytes;
    BytesOfPair(b, [c] + rest, room);
    ForeignFirst(c, rest, room - 1);
  }

  lemma ForeignFirst(c: char, rest: string, room: nat)
    requires room >= 1 && DigitValue(c) >= 16 && !IsSpace(c) && c != '+'
    requires c != '-' && c != ':' && c != ';' && c != '.' && c != ','
    ensures Bytes([c] + rest, room) == None
  {
    hide TokenLength, DigitValue, IsSpace;
    var s := [c] + rest;
    assert !IsSeparator(c);
    var token := s[..TokenLength(s)];
    assert token[0] == c;
    assert SpaceCount(token) == 0 && token[0..] == token;
  }

  /** Bytes as the characters of a text. */
  function AsText(key: seq<Byte>): (s: string)
    ensures |s| == |key|
  {
    seq(|key|, i requires 0 <= i < |key| => key[i] as char)
  }

  /** Behind "s:" a key is its own characters, at most 32 of them; behind "p:" nothing is a key. */
  lemma ReadStringKey(key: seq<Byte>)
    ensures InKey("s:" + AsText(key)) == Some(if |key| <= 32 then key else key[..32])
    ensures InKey("p:" + AsText(key)) == None
  {
    hide Bytes;
    var s := "s:" + AsText(key);
    assert s[2..] == AsText(key);
    var n := Min(|key|, TOKEN_MAX);
    assert Chars(AsText(key), n) == key[..n];
    assert key[..|key|] == key;
    assert !("s:" <= "p:" + AsText(key)) by { assert ("p:" + AsText(key))[0] == 'p'; }
  }

  // ----- The printed form, place by place -------------------------------

  /** Where byte i starts: four digits and a dash for every two bytes before it. */
  function Place(i: nat): nat {
    i / 2 * 5 + i % 2 * 2
  }

  /** Byte i starts a group that is not the first. */
  predicate Dashed(i: nat) {
    i > 0 && i % 2 == 0
  }

  lemma PlaceStep(i: nat)
    ensures Place(i + 1) == Place(i) + 2 + if Dashed(i + 1) then 1 else 0
    ensures Place(0) == 0 && !Dashed(0)
  {
  }

  lemma PrintedStep(key: seq<Byte>, i: nat)
    requires i < |key|
    ensures PrintedFrom(key, i) == (if Dashed(i) then "-" else "") + (UpperHex(key[i]) + PrintedFrom(key, i + 1))
    ensures i + 1 == |key| ==> PrintedFrom(key, i + 1) == ""
  {
    hide UpperHex;
    var dash := if Dashed(i) then "-" else "";
    assert dash + UpperHex(key[i]) + PrintedFrom(key, i + 1) == dash + (UpperHex(key[i]) + PrintedFrom(key, i + 1));
  }

  lemma {:induction false} PrintedLength(key: seq<Byte>, i: nat)
    requires i < |key|
    ensures |PrintedFrom(key, i)| == Place(|key| - 1) + 2 - Place(i) + if Dashed(i) then 1 else 0
    decreases |key| - i
  {
    hide UpperHex, PrintedFrom, Place, Dashed;
    UpperHexText(key[i]);
    PrintedStep(key, i);
    if i + 1 < |key| {
      PrintedLength(key, i + 1);
      PlaceStep(i);
    }
  }

  lemma {:induction false} PrintedFront(key: seq<Byte>, i: nat) returns (front: string)
    requires i < |key|
    ensures PrintedFrom(key, 0) == front + (UpperHex(key[i]) + PrintedFrom(key, i + 1)) && |front| == Place(i)
    ensures Dashed(i) ==> |front| > 0 && front[|front| - 1] == '-'
    decreases i
  {
    hide UpperHex, PrintedFrom, Place, Dashed;
    PrintedStep(key, i);
    if i == 0 {
      front := "";
      PlaceStep(0);
    } else {
      UpperHexText(key[i - 1]);
      PlaceStep(i - 1);
      var f := PrintedFront(key, i - 1);
      var dash := if Dashed(i) then "-" else "";
      front := f + UpperHex(key[i - 1]) + dash;
      Regroup(f, UpperHex(key[i - 1]), dash, UpperHex(key[i]) + PrintedFrom(key, i + 1));
    }
  }

  lemma Regroup(a: string, b: string, c: string, d: string)
    ensures a + (b + (c + d)) == a + b + c + d
  {
  }

  /** The two digits of byte i stand behind those of the bytes before it and one dash for every two of
      them, in front of it if it starts a group; the text ends with the last byte. */
  lemma PrintedAt(key: seq<Byte>, i: nat)
    requires i < |key|
    ensures var s := PrintedFrom(key, 0);
            && |s| == Place(|key| - 1) + 2 && Place(i) + 2 <= |s|
            && s[Place(i)..Place(i) + 2] == UpperHex(key[i])
            && (i > 0 && i % 2 == 0 ==> s[Place(i) - 1] == '-')
  {
    hide UpperHex, PrintedFrom, Place;
    PlaceStep(0);
    UpperHexText(key[i]);
    var front := PrintedFront(key, i);
    PrintedLength(key, 0);
    assert PrintedFrom(key, 0)[Place(i)..Place(i) + 2] == UpperHex(key[i]);
  }
}
