/** `print_ssid_escaped`: SSIDs as text without blanks at either end. */
module SsidText {
  import opened CText

  /** `isprint` in the C locale. */
  predicate IsPrint(b: Byte) {
    0x20 <= b <= 0x7e
  }

  const SPACE: Byte := 0x20
  const BACKSLASH: Byte := 0x5c

  function EscapeByte(b: Byte, inside: bool): string {
    if IsPrint(b) && b != SPACE && b != BACKSLASH then [b as char]
    else if b == SPACE && inside then " "
    else "\\x" + LowerHex(b)
  }

  function EscapeFrom(data: seq<Byte>, i: nat): string
    requires i <= |data|
    decreases |data| - i
  {
    if i == |data| then ""
    else EscapeByte(data[i], i != 0 && i != |data| - 1) + EscapeFrom(data, i + 1)
  }

  method PrintSsid(data: seq<Byte>) returns (text: string)
    ensures text == EscapeFrom(data, 0)
  {
    hide EscapeByte;
    text := "";
    for i := 0 to |data|
      invariant text + EscapeFrom(data, i) == EscapeFrom(data, 0)
    {
      var e := EscapeByte(data[i], i != 0 && i != |data| - 1);
      assert text + (e + EscapeFrom(data, i + 1)) == text + e + EscapeFrom(data, i + 1);
      text := text + e;
    }
    assert text + "" == text;
  }

  /** Reading the text back: a backslash starts a two-digit escape, anything else is itself. */
  function Unescape(text: string): Option<seq<Byte>>
    decreases |text|
  {
    if text == [] then Some([])
    else if text[0] == '\\' then
      if |text| < 4 || text[1] != 'x' || DigitValue(text[2]) >= 16 || DigitValue(text[3]) >= 16 then None
      else Then(16 * DigitValue(text[2]) + DigitValue(text[3]), Unescape(text[4..]))
    else if text[0] as int >= 256 then None
    else Then(text[0] as int, Unescape(text[1..]))
  }

  lemma UnescapeByte(b: Byte, inside: bool, rest: string)
    ensures Unescape(EscapeByte(b, inside) + rest) == Then(b, Unescape(rest))
  {
    hide LowerHex;
    var s := EscapeByte(b, inside);
    if |s| == 1 {
      assert (s + rest)[1..] == rest;
    } else {
      EscapeShape(b);
      assert s == "\\x" + LowerHex(b);
      assert (s + rest)[2] == LowerHex(b)[0] && (s + rest)[3] == LowerHex(b)[1];
      assert (s + rest)[4..] == rest;
    }
  }

  lemma EscapeShape(b: Byte)
    ensures |LowerHex(b)| == 2 && DigitValue(LowerHex(b)[0]) == b / 16 && DigitValue(LowerHex(b)[1]) == b % 16
  {
    DigitOfNibble(b / 16);
    DigitOfNibble(b % 16);
  }

  lemma {:induction false} UnescapeFrom(data: seq<Byte>, i: nat)
    requires i <= |data|
    ensures Unescape(EscapeFrom(data, i)) == Some(data[i..])
    decreases |data| - i
  {
    hide Unescape, EscapeByte;
    if i == |data| {
      assert Unescape("") == Some([]) by { UnescapeNothing(); }
    } else {
      UnescapeFrom(data, i + 1);
      UnescapeByte(data[i], i != 0 && i != |data| - 1, EscapeFrom(data, i + 1));
      assert data[i..] == [data[i]] + data[i + 1..];
    }
  }

  lemma UnescapeNothing()
    ensures Unescape("") == Some([])
  {
  }

  /** The printed form can be read back, so different SSIDs print differently. */
  lemma PrintedReadsBack(data: seq<Byte>)
    ensures Unescape(EscapeFrom(data, 0)) == Some(data)
  {
    UnescapeFrom(data, 0);
    assert data[0..] == data;
  }

  lemma Injective(a: seq<Byte>, b: seq<Byte>)
    requires EscapeFrom(a, 0) == EscapeFrom(b, 0)
    ensures a == b
  {
    PrintedReadsBack(a);
    PrintedReadsBack(b);
  }

  /** The printed form never starts or ends with a blank, whatever the SSID. */
  lemma NoBlankEnds(data: seq<Byte>)
    requires data != []
    ensures var t := EscapeFrom(data, 0); t != [] && t[0] != ' ' && t[|t| - 1] != ' '
  {
    hide EscapeByte;
    EscapedEnds(data[0], false);
    EndsWith(data, 0);
  }

  lemma EscapedEnds(b: Byte, inside: bool)
    ensures var s := EscapeByte(b, inside);
            && s != [] && (!inside ==> s[0] != ' ' && s[|s| - 1] != ' ')
  {
    EscapeShape(b);
    DigitOfNibble(b / 16);
    DigitOfNibble(b % 16);
  }

  lemma {:induction false} EndsWith(data: seq<Byte>, i: nat)
    requires i < |data|
    ensures var t := EscapeFrom(data, i); t != [] && t[|t| - 1] != ' '
    decreases |data| - i
  {
    hide EscapeByte;
    EscapedEnds(data[i], i != 0 && i != |data| - 1);
    if i < |data| - 1 {
      EndsWith(data, i + 1);
    }
  }

  // ----- What is printed ------------------------------------------------

  /** A byte is printed as itself iff it is a visible character other than the backslash, or a blank
      inside; any other byte as a backslash, an x and its two digits. */
  lemma AsItselfIff(b: Byte, inside: bool)
    ensures EscapeByte(b, inside) == [b as char] <==> (0x21 <= b <= 0x7e && b != 0x5c) || (b == 0x20 && inside)
    ensures EscapeByte(b, inside) == [b as char] || EscapeByte(b, inside) == ['\\', 'x'] + LowerHex(b)
  {
    EscapeShape(b);
  }

  predicate Visible(s: string) {
    forall i :: 0 <= i < |s| ==> 0x20 <= s[i] as int <= 0x7e
  }

  lemma ByteVisible(b: Byte, inside: bool)
    ensures Visible(EscapeByte(b, inside))
  {
    hide LowerHex;
    EscapeShape(b);
    DigitVisible(b);
  }

  lemma DigitVisible(b: Byte)
    ensures |LowerHex(b)| == 2 && Visible(LowerHex(b))
  {
    DigitOfNibble(b / 16);
    DigitOfNibble(b % 16);
  }

  /** Nothing but blanks and visible ASCII characters is ever printed. */
  lemma {:induction false} PrintedVisible(data: seq<Byte>, i: nat)
    requires i <= |data|
    ensures Visible(EscapeFrom(data, i))
    decreases |data| - i
  {
    hide EscapeByte;
    if i < |data| {
      ByteVisible(data[i], i != 0 && i != |data| - 1);
      PrintedVisible(data, i + 1);
    }
  }
}
