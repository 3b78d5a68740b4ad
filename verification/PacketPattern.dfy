/** The packet pattern language of `parse_hex_mask` and of the WoWLAN and coalesce printers:
    hexadecimal bytes and wildcards separated by colons, kept as bytes plus a packed bit mask. */
module PacketPattern {
  import opened CText
  import BitMask
  import Numerals

  /** One position of a pattern. */
  datatype Elem = Wild | Val(b: Byte)

  /** `Overrun` stands for a store outside the allocated buffer, where C says nothing more. */
  datatype Outcome = Parsed(elems: seq<Elem>) | Rejected | Overrun

  // ----- Reading --------------------------------------------------------

  predicate IsWildcard(t: string) {
    t == "-" || t == "xx" || t == "--"
  }

  /** One element; `masked` says whether the caller asked for a mask. */
  function ReadElem(t: string, masked: bool): Option<Elem> {
    if masked && IsWildcard(t) then Some(Wild)
    else match Numeral(t, 16)
      case None => None
      case Some(v) => if ToU32(v) <= 255 then Some(Val(ToU32(v))) else None
  }

  /** Bytes allocated for the result of a text. */
  function Capacity(text: string): nat {
    |text| / 2 + 2
  }

  function ReadElems(ts: seq<string>, masked: bool, pos: nat, cap: nat): (o: Outcome)
    ensures o.Parsed? ==> |o.elems| == |ts|
  {
    if ts == [] then Parsed([])
    else match ReadElem(ts[0], masked)
      case None => Rejected
      case Some(e) =>
        if e.Val? && pos >= cap then Overrun
        else Prepend([e], ReadElems(ts[1..], masked, pos + 1, cap))
  }

  function Prepend(es: seq<Elem>, o: Outcome): Outcome {
    if o.Parsed? then Parsed(es + o.elems) else o
  }

  /** What `parse_hex_mask` makes of a text. */
  function ReadText(text: string, masked: bool): Outcome {
    ReadElems(Split(text, ':'), masked, 0, Capacity(text))
  }

  function Stored(es: seq<Elem>): (bits: seq<bool>)
    ensures |bits| == |es|
  {
    seq(|es|, i requires 0 <= i < |es| => es[i].Val?)
  }

  function Bytes(es: seq<Elem>): (r: seq<Byte>)
    ensures |r| == |es|
  {
    seq(|es|, i requires 0 <= i < |es| => if es[i].Val? then es[i].b else 0)
  }

  /** Pattern bytes and mask bytes handed to the kernel. */
  datatype Sent = Sent(pat: seq<Byte>, mask: seq<bv8>)

  function SentOf(es: seq<Elem>): (s: Sent)
    ensures |s.pat| == |es| <= 8 * |s.mask|
  {
    Sent(Bytes(es), BitMask.Pack(Stored(es)))
  }

  datatype SendOutcome = Send(sent: Sent) | Refuse | Undefined

  /** A pattern text as the handlers use it: parse it, then copy `patlen` bytes out of the result. */
  function Convert(text: string): SendOutcome {
    match ReadText(text, true)
    case Rejected => Refuse
    case Overrun => Undefined
    case Parsed(es) =>
      if |es| <= Capacity(text) then Send(SentOf(es)) else Undefined
  }

  datatype Status = Done | Failed | OutOfBounds

  function StatusOf(o: Outcome): Status {
    match o
    case Parsed(_) => Done
    case Rejected => Failed
    case Overrun => OutOfBounds
  }

  lemma PrependStep(es: seq<Elem>, e: Elem, o: Outcome)
    ensures Prepend(es, Prepend([e], o)) == Prepend(es + [e], o)
  {
    if o.Parsed? {
      assert es + ([e] + o.elems) == es + [e] + o.elems;
    }
  }

  /** The loop of `parse_hex_mask` over its two allocated buffers. An absent mask is the empty array. */
  method ParseHexMask(hexmask: string, masked: bool)
    returns (status: Status, result: array<Byte>, mask: array<bv8>, patlen: nat)
    ensures fresh(result) && result.Length == Capacity(hexmask)
    ensures fresh(mask) && mask.Length == if masked then BitMask.DivRoundUp(|hexmask| / 2, 8) + 2 else 0
    ensures var o := ReadText(hexmask, masked);
            && status == StatusOf(o)
            && (o.Parsed? ==> patlen == |o.elems| && Filled(result[..], o.elems) && Marked(mask[..], o.elems))
  {
    hide ReadElem, ReadText, Resume, IndexOf;
    var len := |hexmask| / 2;
    result := new Byte[len + 2](_ => 0);
    mask := new bv8[if masked then BitMask.DivRoundUp(len, 8) + 2 else 0](_ => 0);
    BitMask.ZeroByte();
    var rest := hexmask;
    patlen := 0;
    ghost var es: seq<Elem> := [];
    ghost var o := ReadText(hexmask, masked);
    ResumeStart(hexmask, masked);
    while true
      invariant patlen == |es|
      invariant o == Resume(es, rest, masked, result.Length)
      invariant Filled(result[..], es)
      invariant Marked(mask[..], es)
      decreases |rest|
    {
      var cp := IndexOf(rest, ':');
      var e := ReadElem(rest[..cp], masked);
      ResumeStep(es, rest, masked, result.Length);
      if e.None? {
        return Failed, result, mask, patlen;
      }
      if e.value.Val? {
        if patlen >= result.Length {
          return OutOfBounds, result, mask, patlen;
        }
        Store(result, mask, es, e.value.b, patlen);
      }
      es := es + [e.value];
      patlen := patlen + 1;
      if cp == |rest| {
        break;
      }
      rest := rest[cp + 1..];
    }
    status := Done;
  }

  /** A pattern text on its way into a message, through the buffers. */
  method ConvertPattern(text: string) returns (r: SendOutcome)
    ensures r == Convert(text)
  {
    var status, result, mask, patlen := ParseHexMask(text, true);
    if status != Done {
      return if status == Failed then Refuse else Undefined;
    }
    if patlen > result.Length {
      return Undefined;
    }
    ghost var es := ReadText(text, true).elems;
    MarkedIsPack(mask[..], es);
    assert result[..patlen] == Bytes(es);
    assert mask[..][..BitMask.DivRoundUp(patlen, 8)] == mask[..BitMask.DivRoundUp(patlen, 8)];
    r := Send(Sent(result[..patlen], mask[..BitMask.DivRoundUp(patlen, 8)]));
  }

  /** The byte buffer holds the elements read so far, and zeros everywhere else. */
  ghost predicate Filled(result: seq<Byte>, es: seq<Elem>) {
    forall i :: 0 <= i < |result| ==> result[i] == if i < |es| && es[i].Val? then es[i].b else 0
  }

  /** Exactly the mask bits of elements that are not wildcards are set. */
  ghost predicate Marked(mask: seq<bv8>, es: seq<Elem>) {
    forall i: nat | i < 8 * |mask| :: BitMask.Test(mask, i) == (i < |es| && es[i].Val?)
  }

  /** The outcome for the whole text, given the elements read so far and the text left. */
  function Resume(es: seq<Elem>, rest: string, masked: bool, cap: nat): Outcome {
    Prepend(es, ReadElems(Split(rest, ':'), masked, |es|, cap))
  }

  lemma ResumeStart(text: string, masked: bool)
    ensures ReadText(text, masked) == Resume([], text, masked, Capacity(text))
  {
    var o := ReadText(text, masked);
    assert o.Parsed? ==> [] + o.elems == o.elems;
  }

  /** One turn of the loop, seen from the whole text. */
  lemma ResumeStep(es: seq<Elem>, rest: string, masked: bool, cap: nat)
    ensures var cp := IndexOf(rest, ':');
            var e := ReadElem(rest[..cp], masked);
            Resume(es, rest, masked, cap) ==
            if e.None? then Rejected
            else if e.value.Val? && |es| >= cap then Overrun
            else if cp == |rest| then Parsed(es + [e.value])
            else Resume(es + [e.value], rest[cp + 1..], masked, cap)
  {
    var cp := IndexOf(rest, ':');
    SplitCons(rest, ':');
    var parts := Split(rest, ':');
    var e := ReadElem(parts[0], masked);
    var o := ReadElems(parts, masked, |es|, cap);
    var after := ReadElems(parts[1..], masked, |es| + 1, cap);
    if e.None? {
      assert o == Rejected;
    } else if e.value.Val? && |es| >= cap {
      assert o == Overrun;
    } else {
      assert o == Prepend([e.value], after);
      PrependStep(es, e.value, after);
      assert Resume(es, rest, masked, cap) == Prepend(es + [e.value], after);
      if cp == |rest| {
        assert after == Parsed([]);
        assert es + [e.value] + [] == es + [e.value];
      }
    }
  }

  /** The mask bytes in front of the zero padding are the packed mask. */
  lemma MarkedIsPack(mask: seq<bv8>, es: seq<Elem>)
    requires Marked(mask, es) && BitMask.DivRoundUp(|es|, 8) <= |mask|
    ensures mask[..BitMask.DivRoundUp(|es|, 8)] == BitMask.Pack(Stored(es))
  {
    var n := BitMask.DivRoundUp(|es|, 8);
    forall i: nat | i < 8 * n
      ensures BitMask.Test(mask[..n], i) == BitMask.Test(BitMask.Pack(Stored(es)), i)
    {
      assert BitMask.Test(mask, i) == (i < |es| && es[i].Val?);
      assert mask[..n][i / 8] == mask[i / 8];
    }
    BitMask.MaskExtensional(mask[..n], BitMask.Pack(Stored(es)));
  }

  /** Put one byte at `pos` and mark it in the mask, if there is one. */
  method Store(result: array<Byte>, mask: array<bv8>, ghost es: seq<Elem>, b: Byte, pos: nat)
    requires pos == |es| && pos < result.Length
    requires Filled(result[..], es)
    requires mask as object != result
    requires mask.Length > 0 ==> pos < 8 * mask.Length
    requires Marked(mask[..], es)
    modifies result, mask
    ensures Filled(result[..], es + [Val(b)])
    ensures Marked(mask[..], es + [Val(b)])
  {
    result[pos] := b;
    if mask.Length > 0 {
      SetBit(mask, es, b, pos);
    }
  }

  /** `mask[pos / 8] |= 1 << (pos % 8)` for the position after the elements read so far. */
  method SetBit(mask: array<bv8>, ghost es: seq<Elem>, ghost b: Byte, pos: nat)
    requires pos == |es| && pos < 8 * mask.Length
    requires Marked(mask[..], es)
    modifies mask
    ensures Marked(mask[..], es + [Val(b)])
  {
    ghost var before := mask[..];
    BitMask.OrBitAll(mask[pos / 8], pos % 8);
    mask[pos / 8] := mask[pos / 8] | BitMask.Bit(pos % 8);
    forall i: nat | i < 8 * mask.Length
      ensures BitMask.Test(mask[..], i) == (i == pos || BitMask.Test(before, i))
    {
      if i / 8 == pos / 8 {
        assert i == pos <==> i % 8 == pos % 8;
      } else {
        assert mask[..][i / 8] == before[i / 8];
      }
    }
  }

  // ----- Bounds ---------------------------------------------------------

  predicate AllRead(ts: seq<string>, masked: bool) {
    forall i :: 0 <= i < |ts| ==> ReadElem(ts[i], masked).Some?
  }

  /** Piece i stands for a byte at or past the capacity, and every piece up to it can be read. */
  predicate StoreAt(ts: seq<string>, masked: bool, pos: nat, cap: nat, i: nat) {
    i < |ts| && cap <= pos + i && !(masked && IsWildcard(ts[i])) && AllRead(ts[..i + 1], masked)
  }

  predicate StoresPast(ts: seq<string>, masked: bool, pos: nat, cap: nat) {
    exists i: nat | i < |ts| :: StoreAt(ts, masked, pos, cap, i)
  }

  /** A text that runs over its buffers: it stores past their end, or it is read whole and is then
      longer than what is copied out of them. */
  predicate Overruns(text: string) {
    var ts := Split(text, ':');
    StoresPast(ts, true, 0, Capacity(text)) || (AllRead(ts, true) && |ts| > Capacity(text))
  }

  /** A text of readable pieces that are no more than the buffers hold. */
  predicate Fits(text: string) {
    AllRead(Split(text, ':'), true) && |Split(text, ':')| <= Capacity(text)
  }

  /** Exactly which texts are sent, which run over the buffers and, so, which are refused. */
  lemma DefinedIff(text: string)
    ensures Convert(text) == Undefined <==> Overruns(text)
    ensures Convert(text).Send? <==> Fits(text)
  {
    hide Split, ReadElem, StoresPast;
    var ts := Split(text, ':');
    OverrunIff(ts, true, 0, Capacity(text));
    ParsedIff(ts, true, 0, Capacity(text));
    if |ts| <= Capacity(text) {
      NoOverrun(ts, true, 0, Capacity(text));
    }
  }

  lemma {:induction false} OverrunIff(ts: seq<string>, masked: bool, pos: nat, cap: nat)
    ensures ReadElems(ts, masked, pos, cap) == Overrun <==> StoresPast(ts, masked, pos, cap)
  {
    hide ReadElem;
    if ts != [] {
      WildIff(ts[0], masked);
      OverrunIff(ts[1..], masked, pos + 1, cap);
      StoresPastStep(ts, masked, pos, cap);
    }
  }

  lemma WildIff(t: string, masked: bool)
    ensures ReadElem(t, masked) == Some(Wild) <==> masked && IsWildcard(t)
  {
    hide Numeral;
  }

  lemma StoresPastStep(ts: seq<string>, masked: bool, pos: nat, cap: nat)
    requires ts != []
    ensures StoresPast(ts, masked, pos, cap)
       <==> ReadElem(ts[0], masked).Some?
            && ((cap <= pos && !(masked && IsWildcard(ts[0]))) || StoresPast(ts[1..], masked, pos + 1, cap))
  {
    hide ReadElem, IsWildcard;
    forall i: nat | i < |ts|
      ensures StoreAt(ts, masked, pos, cap, i)
         <==> ReadElem(ts[0], masked).Some?
              && if i == 0 then cap <= pos && !(masked && IsWildcard(ts[0]))
                 else StoreAt(ts[1..], masked, pos + 1, cap, i - 1)
    {
      assert ts[..i + 1] == [ts[0]] + ts[1..][..i];
    }
    if StoresPast(ts[1..], masked, pos + 1, cap) {
      var j: nat :| j < |ts[1..]| && StoreAt(ts[1..], masked, pos + 1, cap, j);
      assert StoreAt(ts, masked, pos, cap, j + 1) <==> ReadElem(ts[0], masked).Some?;
    }
    assert StoreAt(ts, masked, pos, cap, 0) ==> StoresPast(ts, masked, pos, cap);
  }

  /** A text that does not run over is parsed iff all its pieces can be read. */
  lemma {:induction false} ParsedIff(ts: seq<string>, masked: bool, pos: nat, cap: nat)
    ensures ReadElems(ts, masked, pos, cap).Parsed?
       <==> AllRead(ts, masked) && ReadElems(ts, masked, pos, cap) != Overrun
  {
    hide ReadElem;
    if ts != [] {
      ParsedIff(ts[1..], masked, pos + 1, cap);
      assert AllRead(ts, masked) <==> ReadElem(ts[0], masked).Some? && AllRead(ts[1..], masked) by {
        assert ts == [ts[0]] + ts[1..];
      }
    }
  }

  /** With every element non-empty, no text runs over its buffers, accepted or not. */
  lemma NonEmptyElementsFit(text: string)
    requires forall i :: 0 <= i < |Split(text, ':')| ==> Split(text, ':')[i] != []
    ensures |Split(text, ':')| <= Capacity(text) - 1
    ensures ReadText(text, true) != Overrun && ReadText(text, false) != Overrun
    ensures Convert(text) != Undefined
  {
    var parts := Split(text, ':');
    SplitLength(text, ':');
    NonEmptyPieces(parts);
    NoOverrun(parts, true, 0, Capacity(text));
    NoOverrun(parts, false, 0, Capacity(text));
  }

  lemma {:induction false} NoOverrun(ts: seq<string>, masked: bool, pos: nat, cap: nat)
    requires pos + |ts| <= cap
    ensures ReadElems(ts, masked, pos, cap) != Overrun
  {
    if ts != [] {
      NoOverrun(ts[1..], masked, pos + 1, cap);
    }
  }

  function Colons(n: nat): (s: string)
    ensures |s| == n
  {
    if n == 0 then "" else ":" + Colons(n - 1)
  }

  lemma {:induction false} SplitColons(n: nat, last: string)
    requires ':' !in last
    ensures var ts := Split(Colons(n) + last, ':');
            |ts| == n + 1 && ts[n] == last && forall i :: 0 <= i < n ==> ts[i] == ""
  {
    var text := Colons(n) + last;
    if n == 0 {
      assert text == last;
      IndexOfPrefix(last, ':', []);
    } else {
      assert text[1..] == Colons(n - 1) + last;
      SplitColons(n - 1, last);
    }
  }

  /** Empty elements read as zero bytes but take up no room: three colons already do not fit. */
  lemma EmptyElementsOverrun(n: nat)
    ensures Convert(Colons(n)) == Undefined <==> n >= 3
  {
    hide Split, Convert, ReadElem;
    assert Colons(n) + "" == Colons(n);
    SplitColons(n, "");
    EmptyReadsZero();
    DefinedIff(Colons(n));
    assert AllRead(Split(Colons(n), ':'), true);
    if n < 3 {
      assert !StoresPast(Split(Colons(n), ':'), true, 0, Capacity(Colons(n)));
    }
  }

  /** A text that would be refused for its last element runs over its buffers first, if enough empty
      elements stand in front of it. */
  lemma OverrunBeforeRefusal(n: nat, last: string)
    requires ':' !in last && ReadElem(last, true).None?
    ensures Convert(Colons(n) + last) == if n > (n + |last|) / 2 + 2 then Undefined else Refuse
  {
    hide Split, Convert, ReadElem;
    var text := Colons(n) + last;
    var ts := Split(text, ':');
    SplitColons(n, last);
    EmptyReadsZero();
    DefinedIff(text);
    assert ReadElem(ts[n], true).None?;
    var cap := Capacity(text);
    if n > cap {
      assert StoreAt(ts, true, 0, cap, cap);
    }
  }

  lemma FourteenColons()
    ensures Convert(Colons(14) + "zz") == Undefined
  {
    assert "zz"[0..] == "zz" && DigitCount("zz", 16) == 0 && SpaceCount("zz") == 0;
    assert ReadElem("zz", true).None?;
    hide Convert, Colons, ReadElem;
    OverrunBeforeRefusal(14, "zz");
  }

  lemma EmptyReadsZero()
    ensures ReadElem("", true) == Some(Val(0))
  {
  }

  // ----- Printing -------------------------------------------------------

  /** A byte string and mask seen as a pattern. */
  function View(pat: seq<Byte>, mask: seq<bv8>): (es: seq<Elem>)
    requires |pat| <= 8 * |mask|
    ensures |es| == |pat|
  {
    seq(|pat|, i requires 0 <= i < |pat| => if BitMask.Test(mask, i) then Val(pat[i]) else Wild)
  }

  function PrintElem(e: Elem): string {
    if e.Val? then LowerHex(e.b) else "--"
  }

  function PrintElems(es: seq<Elem>): (r: seq<string>)
    ensures |r| == |es|
  {
    seq(|es|, i requires 0 <= i < |es| => PrintElem(es[i]))
  }

  function Printed(es: seq<Elem>): string {
    if es == [] then "" else Join(PrintElems(es), ':')
  }

  /** The printing loop of both handlers, after their check of the mask length. */
  method PrintPattern(pat: seq<Byte>, mask: seq<bv8>) returns (text: string)
    requires |mask| == BitMask.DivRoundUp(|pat|, 8)
    ensures text == Printed(View(pat, mask))
  {
    hide Join, PrintElems, LowerHex;
    text := "";
    ghost var es := View(pat, mask);
    for i := 0 to |pat|
      invariant text == Printed(es[..i]) + if 0 < i < |pat| then ":" else ""
    {
      if BitMask.Test(mask, i) {
        text := text + LowerHex(pat[i]);
      } else {
        text := text + "--";
      }
      PrintedSnoc(es[..i], es[i]);
      assert es[..i + 1] == es[..i] + [es[i]];
      if i != |pat| - 1 {
        text := text + ":";
      }
    }
    assert es[..|pat|] == es;
  }

  lemma {:induction false} PrintedSnoc(es: seq<Elem>, e: Elem)
    ensures Printed(es + [e]) == Printed(es) + (if es == [] then "" else ":") + PrintElem(e)
  {
    if es == [] {
      assert PrintElems([e]) == [PrintElem(e)];
    } else {
      JoinSnoc(PrintElems(es), PrintElem(e), ':');
      assert PrintElems(es + [e]) == PrintElems(es) + [PrintElem(e)];
    }
  }

  lemma {:induction false} JoinSnoc(parts: seq<string>, last: string, sep: char)
    requires |parts| >= 1
    ensures Join(parts + [last], sep) == Join(parts, sep) + [sep] + last
  {
    assert (parts + [last])[1..] == parts[1..] + [last];
    if |parts| == 1 {
      assert Join([last], sep) == last;
    } else {
      JoinSnoc(parts[1..], last, sep);
    }
  }

  // ----- Round trips ----------------------------------------------------

  lemma ReadPrintedElem(e: Elem)
    ensures ReadElem(PrintElem(e), true) == Some(e)
    ensures ':' !in PrintElem(e) && |PrintElem(e)| == 2
  {
    hide LowerHex, Numeral;
    if e.Val? {
      LowerHexNumeral(e.b);
      LowerHexPlain(e.b);
    }
  }

  lemma {:induction false} ReadPrintedElems(es: seq<Elem>, pos: nat, cap: nat)
    requires pos + |es| <= cap
    ensures ReadElems(PrintElems(es), true, pos, cap) == Parsed(es)
  {
    if es != [] {
      ReadPrintedElem(es[0]);
      ReadPrintedElems(es[1..], pos + 1, cap);
      assert PrintElems(es)[1..] == PrintElems(es[1..]);
      assert [es[0]] + es[1..] == es;
    }
  }

  /** Reading back a printed pattern gives that pattern, inside the allocated buffers. */
  lemma ReadPrinted(es: seq<Elem>)
    requires |es| >= 1
    ensures ReadText(Printed(es), true) == Parsed(es)
    ensures Convert(Printed(es)) == Send(SentOf(es))
  {
    var parts := PrintElems(es);
    forall p | p in parts
      ensures ':' !in p && p != []
    {
      var i :| 0 <= i < |parts| && parts[i] == p;
      ReadPrintedElem(es[i]);
    }
    SplitJoin(parts, ':');
    NonEmptyElementsFit(Printed(es));
    ReadPrintedElems(es, 0, Capacity(Printed(es)));
  }

  /** A printed pattern has nothing in it that the commands cut their arguments at. */
  lemma {:induction false} PrintedPlain(es: seq<Elem>)
    requires |es| >= 1
    ensures Printed(es) != [] && '+' !in Printed(es) && ',' !in Printed(es)
    ensures '\r' !in Printed(es) && '\n' !in Printed(es)
  {
    hide LowerHex;
    var e := es[0];
    if e.Val? {
      LowerHexPlain(e.b);
    }
    if |es| == 1 {
      assert PrintElems(es) == [PrintElem(e)];
    } else {
      PrintedPlain(es[1..]);
      assert PrintElems(es)[1..] == PrintElems(es[1..]);
      assert Printed(es) == PrintElem(e) + [':'] + Printed(es[1..]);
    }
  }

  lemma LowerHexPlain(b: Byte)
    ensures |LowerHex(b)| == 2 && LowerHex(b)[0] != '-' && LowerHex(b)[0] != 'x'
    ensures '+' !in LowerHex(b) && ',' !in LowerHex(b) && ':' !in LowerHex(b)
    ensures '\r' !in LowerHex(b) && '\n' !in LowerHex(b)
  {
    DigitOfNibble(b / 16);
    DigitOfNibble(b % 16);
  }

  /** Which packets a pattern at an offset accepts: only bytes whose mask bit is set are compared. */
  predicate Matches(s: Sent, offset: nat, packet: seq<Byte>)
    requires |s.pat| <= 8 * |s.mask|
  {
    && offset + |s.pat| <= |packet|
    && forall i: nat | i < |s.pat| :: BitMask.Test(s.mask, i) ==> packet[offset + i] == s.pat[i]
  }

  /** A pattern matches where every element that is no wildcard is the packet's byte at its place:
      each element, a wildcard too, stands for exactly one byte. */
  lemma MatchesIff(es: seq<Elem>, offset: nat, packet: seq<Byte>)
    ensures Matches(SentOf(es), offset, packet)
       <==> offset + |es| <= |packet|
            && forall i :: 0 <= i < |es| && es[i].Val? ==> packet[offset + i] == es[i].b
  {
    hide BitMask.Test;
    var s := SentOf(es);
    assert forall i: nat | i < |es| :: BitMask.Test(s.mask, i) == es[i].Val?;
    assert forall i: nat | i < |es| && es[i].Val? :: s.pat[i] == es[i].b;
  }

  /** The same on the text a user writes: every accepted text matches where each of its pieces is a
      wildcard or the number of the byte at its place. */
  lemma TextMatchesIff(text: string, offset: nat, packet: seq<Byte>)
    requires Convert(text).Send?
    ensures var ts := Split(text, ':');
            Matches(Convert(text).sent, offset, packet)
            <==> offset + |ts| <= |packet|
                 && forall i :: 0 <= i < |ts| ==>
                      IsWildcard(ts[i]) || ReadElem(ts[i], true) == Some(Val(packet[offset + i]))
  {
    hide Split, ReadElem, IsWildcard;
    var ts := Split(text, ':');
    var es := ReadText(text, true).elems;
    ReadElemsCanonical(ts, true, 0, Capacity(text));
    MatchesIff(es, offset, packet);
    forall i | 0 <= i < |ts|
      ensures ReadElem(ts[i], true) == Some(es[i]) && (IsWildcard(ts[i]) <==> es[i].Wild?)
    {
      WildIff(ts[i], true);
    }
  }

  /** Printing a stored pattern and entering the text again keeps length, mask bits, the compared
      bytes and so the set of matching packets, at every offset. */
  lemma PrintThenParse(s: Sent)
    requires |s.pat| >= 1 && |s.mask| == BitMask.DivRoundUp(|s.pat|, 8)
    ensures Convert(Printed(View(s.pat, s.mask))).Send?
    ensures var r := Convert(Printed(View(s.pat, s.mask))).sent;
            && |r.pat| == |s.pat| && |r.mask| == |s.mask|
            && (forall i: nat | i < |s.pat| :: BitMask.Test(r.mask, i) == BitMask.Test(s.mask, i))
            && (forall i: nat | i < |s.pat| :: r.pat[i] == if BitMask.Test(s.mask, i) then s.pat[i] else 0)
            && forall offset: nat, packet: seq<Byte> :: Matches(r, offset, packet) == Matches(s, offset, packet)
  {
    ReadPrinted(View(s.pat, s.mask));
  }

  /** On every accepted text, whatever spelling its numbers and wildcards have, printing and
      parsing again gives the same bytes and the same mask. */
  lemma ParsePrintParse(text: string)
    requires Convert(text).Send?
    ensures var s := Convert(text).sent;
            && |s.pat| >= 1 && |s.mask| == BitMask.DivRoundUp(|s.pat|, 8)
            && Convert(Printed(View(s.pat, s.mask))) == Send(s)
  {
    hide Split, ReadElem, ReadElems, Printed;
    var es := ReadText(text, true).elems;
    assert |es| == |Split(text, ':')|;
    ReadElemsCanonical(Split(text, ':'), true, 0, Capacity(text));
    var s := Convert(text).sent;
    assert View(s.pat, s.mask) == es;
    ReadPrinted(es);
  }

  /** Parsed elements are one per piece, each what its piece reads as. */
  lemma {:induction false} ReadElemsCanonical(ts: seq<string>, masked: bool, pos: nat, cap: nat)
    requires ReadElems(ts, masked, pos, cap).Parsed?
    ensures forall i :: 0 <= i < |ts| ==> ReadElem(ts[i], masked) == Some(ReadElems(ts, masked, pos, cap).elems[i])
  {
    if ts != [] {
      ReadElemsCanonical(ts[1..], masked, pos + 1, cap);
      var es := ReadElems(ts, masked, pos, cap).elems;
      assert es[1..] == ReadElems(ts[1..], masked, pos + 1, cap).elems;
      forall i | 0 < i < |ts|
        ensures ReadElem(ts[i], masked) == Some(es[i])
      {
        assert ts[i] == ts[1..][i - 1] && es[i] == es[1..][i - 1];
      }
    }
  }

  // ----- Patterns as people write them ----------------------------------

  /** One of the ways to write an element: three kinds of wildcard, or a number of the base with any
      prefix and zeros, in either letter case. */
  ghost predicate Spells(t: string, e: Elem) {
    match e
    case Wild => t == "-" || t == "--" || t == "xx"
    case Val(b) =>
      exists prefix: string, zeros: nat, upper: bool ::
        Numerals.IsPrefix(prefix, 16) && t == HexText(prefix, zeros, b, upper)
  }

  function HexText(prefix: string, zeros: nat, n: nat, upper: bool): string {
    prefix + (Numerals.Zeros(zeros) + Numerals.Written(n, 16, upper))
  }

  /** A hexadecimal number is an element iff it is a byte, counted in 32 bits. */
  lemma ReadHex(prefix: string, zeros: nat, n: nat, upper: bool, masked: bool)
    requires Numerals.IsPrefix(prefix, 16) && n < ULONG_RANGE
    ensures ReadElem(HexText(prefix, zeros, n, upper), masked)
         == if n % UINT_RANGE <= 255 then Some(Val(n % UINT_RANGE)) else None
    ensures ':' !in HexText(prefix, zeros, n, upper)
  {
    hide Numeral, Numerals.Written;
    var t := HexText(prefix, zeros, n, upper);
    Numerals.WrittenNumeral("", Numerals.Sign.Unsigned, prefix, zeros, n, 16, upper);
    assert "" + Numerals.Sign.Unsigned.Text() + t == t;
    HexPlain(prefix, zeros, n, upper);
  }

  lemma HexPlain(prefix: string, zeros: nat, n: nat, upper: bool)
    requires Numerals.IsPrefix(prefix, 16)
    ensures !IsWildcard(HexText(prefix, zeros, n, upper)) && ':' !in HexText(prefix, zeros, n, upper)
  {
    hide Numerals.Written, Numerals.Cuts, Numerals.Plain, DigitValue;
    var zs, written := Numerals.Zeros(zeros), Numerals.Written(n, 16, upper);
    Numerals.WrittenPlain(n, 16, upper);
    assert Numerals.Plain(zs) && Numerals.Plain(prefix) by { ZerosPlain(zeros, prefix); }
    Numerals.PlainConcat(zs, written);
    Numerals.PlainConcat(prefix, zs + written);
    Numerals.PlainHas(HexText(prefix, zeros, n, upper));
    HexStart(prefix, zeros, n, upper);
  }

  lemma ZerosPlain(zeros: nat, prefix: string)
    requires Numerals.IsPrefix(prefix, 16)
    ensures Numerals.Plain(Numerals.Zeros(zeros)) && Numerals.Plain(prefix)
  {
  }

  lemma HexStart(prefix: string, zeros: nat, n: nat, upper: bool)
    requires Numerals.IsPrefix(prefix, 16)
    ensures var t := HexText(prefix, zeros, n, upper); t != [] && t[0] != '-' && t[0] != 'x'
  {
    hide Numerals.Written, DigitValue, DigitsValue;
    var digits := Numerals.Zeros(zeros) + Numerals.Written(n, 16, upper);
    Numerals.WrittenValue(n, 16, upper);
    Numerals.ZerosValue(zeros, Numerals.Written(n, 16, upper), 16);
    Numerals.DigitPlain(digits[0], 16);
    assert (prefix + digits)[0] == if prefix == "" then digits[0] else '0';
  }

  lemma ReadSpelled(t: string, e: Elem)
    requires Spells(t, e)
    ensures ReadElem(t, true) == Some(e) && ':' !in t && t != []
  {
    hide Numeral, HexText;
    match e {
      case Wild =>
      case Val(b) =>
        var prefix: string, zeros: nat, upper: bool :|
          Numerals.IsPrefix(prefix, 16) && t == HexText(prefix, zeros, b, upper);
        ReadHex(prefix, zeros, b, upper, true);
        HexStart(prefix, zeros, b, upper);
    }
  }

  /** Without a mask there are no wildcards. */
  lemma WildcardNeedsMask(t: string)
    requires Spells(t, Wild)
    ensures ReadElem(t, false) == None
  {
    assert t[0..] == t && t[1..] == if |t| == 1 then "" else [t[1]];
    assert DigitCount(t, 16) == 0 && DigitCount(t[1..], 16) == 0;
  }

  ghost predicate AllSpell(ts: seq<string>, es: seq<Elem>) {
    |ts| == |es| && forall i :: 0 <= i < |es| ==> Spells(ts[i], es[i])
  }

  lemma {:induction false} ReadSpelledElems(ts: seq<string>, es: seq<Elem>, pos: nat, cap: nat)
    requires AllSpell(ts, es) && pos + |es| <= cap
    ensures ReadElems(ts, true, pos, cap) == Parsed(es)
  {
    hide Spells, ReadElem;
    if es != [] {
      ReadSpelled(ts[0], es[0]);
      ReadSpelledElems(ts[1..], es[1..], pos + 1, cap);
      assert [es[0]] + es[1..] == es;
    }
  }

  /** However its elements are written, a pattern is sent as its elements. */
  lemma SpelledSent(ts: seq<string>, es: seq<Elem>)
    requires AllSpell(ts, es) && |es| >= 1
    ensures Convert(Join(ts, ':')) == Send(SentOf(es))
  {
    hide Spells, ReadElem, ReadElems, Join, Split, SentOf;
    forall i | 0 <= i < |ts|
      ensures ':' !in ts[i] && ts[i] != []
    {
      ReadSpelled(ts[i], es[i]);
    }
    SplitJoin(ts, ':');
    NonEmptyElementsFit(Join(ts, ':'));
    ReadSpelledElems(ts, es, 0, Capacity(Join(ts, ':')));
  }

  // ----- Documented examples --------------------------------------------

  /** The mask worked out in the kernel interface: twelve positions give 0xed, 0x01. */
  lemma DocumentedMask()
    ensures BitMask.Pack([true, false, true, true, false, true, true, true, true, false, false, false]) == [0xed, 0x01]
  {
    var bits := [true, false, true, true, false, true, true, true, true, false, false, false];
    var m: seq<bv8> := [0xed, 0x01];
    ExampleBytes();
    forall i: nat | i < 16
      ensures BitMask.Test(m, i) == BitMask.Test(BitMask.Pack(bits), i)
    {
      assert BitMask.Test(m, i) == if i < 8 then BitMask.InByte(0xed, i) else BitMask.InByte(0x01, i - 8);
      assert BitMask.Test(BitMask.Pack(bits), i) == (i < |bits| && bits[i]);
    }
    BitMask.MaskExtensional(m, BitMask.Pack(bits));
  }

  lemma ExampleBytes()
    ensures forall j: nat | j < 8 :: BitMask.InByte(0xed, j) == (j != 1 && j != 4)
    ensures forall j: nat | j < 8 :: BitMask.InByte(0x01, j) == (j == 0)
  {
  }

  /** The help text's second example packet has two bytes in a wildcard's place and is not matched. */
  lemma HelpTextPackets()
    ensures var s := SentOf([Val(0x00), Val(0x11), Val(0x22), Wild, Val(0x44)]);
            && Convert("00:11:22:-:44") == Send(s)
            && Matches(s, 0, [0x00, 0x11, 0x22, 0x33, 0x44])
            && !Matches(s, 0, [0x00, 0x11, 0x22, 0x33, 0xff, 0x44])
  {
    hide Matches, SentOf, Convert;
    var es := [Val(0x00), Val(0x11), Val(0x22), Wild, Val(0x44)];
    MatchesIff(es, 0, [0x00, 0x11, 0x22, 0x33, 0x44]);
    MatchesIff(es, 0, [0x00, 0x11, 0x22, 0x33, 0xff, 0x44]);
    assert es[4].Val?;
    HelpTextSpelled(es);
  }

  lemma HelpTextSpelled(es: seq<Elem>)
    requires es == [Val(0x00), Val(0x11), Val(0x22), Wild, Val(0x44)]
    ensures Convert("00:11:22:-:44") == Send(SentOf(es))
  {
    hide SentOf, Convert, Spells;
    var ts := ["00", "11", "22", "-", "44"];
    assert Spells("00", Val(0)) by { TwoDigits(0, 0, "00"); }
    assert Spells("11", Val(0x11)) by { TwoDigits(1, 1, "11"); }
    assert Spells("22", Val(0x22)) by { TwoDigits(2, 2, "22"); }
    assert Spells("44", Val(0x44)) by { TwoDigits(4, 4, "44"); }
    assert Spells("-", Wild) by { DashSpells(); }
    SpelledSent(ts, es);
    assert Join(ts[4..], ':') == "44";
    assert Join(ts[3..], ':') == "-:44" by { assert ts[3..][1..] == ts[4..]; }
    assert Join(ts[2..], ':') == "22:-:44" by { assert ts[2..][1..] == ts[3..]; }
    assert Join(ts[1..], ':') == "11:22:-:44" by { assert ts[1..][1..] == ts[2..]; }
    assert Join(ts, ':') == "00:11:22:-:44";
  }

  lemma DashSpells()
    ensures Spells("-", Wild)
  {
  }

  lemma TwoDigits(hi: nat, lo: nat, t: string)
    requires hi < 10 && lo < 10 && t == [LowerDigit(hi), LowerDigit(lo)]
    ensures Spells(t, Val(16 * hi + lo))
  {
    var n := 16 * hi + lo;
    if hi == 0 {
      assert Numerals.Written(n, 16, false) == [LowerDigit(lo)];
      assert t == HexText("", 1, n, false);
    } else {
      assert Numerals.Written(hi, 16, false) == [LowerDigit(hi)];
      assert Numerals.Written(n, 16, false) == [LowerDigit(hi)] + [LowerDigit(lo)];
      assert t == HexText("", 0, n, false);
    }
  }
}
