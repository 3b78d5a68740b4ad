/** `print_mcs_index`: the set bits of an HT MCS mask as a list of ranges. */
module McsList {
  import opened CText
  import BitMask
  import opened Numerals

  const MCS_BITS := 77

  datatype Range = Range(lo: nat, hi: nat)

  // ----- Runs of set bits -----------------------------------------------

  /** The maximal runs of set bits, in order. */
  function Runs(bits: seq<bool>): seq<Range> {
    if bits == [] then []
    else
      var n := |bits| - 1;
      var rs := Runs(bits[..n]);
      if !bits[n] then rs
      else if rs != [] && rs[|rs| - 1].hi + 1 == n then rs[..|rs| - 1] + [Range(rs[|rs| - 1].lo, n)]
      else rs + [Range(n, n)]
  }

  predicate Covers(rs: seq<Range>, i: nat) {
    exists k :: 0 <= k < |rs| && rs[k].lo <= i <= rs[k].hi
  }

  predicate Separate(rs: seq<Range>) {
    && (forall k :: 0 <= k < |rs| ==> rs[k].lo <= rs[k].hi)
    && forall j, k :: 0 <= j < k < |rs| ==> rs[j].hi + 1 < rs[k].lo
  }

  /** The runs hold exactly the set bits, and between two runs there is a clear bit. */
  lemma {:induction false} RunsExact(bits: seq<bool>)
    ensures Separate(Runs(bits))
    ensures forall k :: 0 <= k < |Runs(bits)| ==> Runs(bits)[k].hi < |bits|
    ensures forall i :: 0 <= i < |bits| ==> bits[i] == Covers(Runs(bits), i)
  {
    hide Covers;
    if bits != [] {
      var n := |bits| - 1;
      var before := bits[..n];
      var rs := Runs(before);
      RunsExact(before);
      var rs' := Runs(bits);
      if bits[n] {
        CoverLast(rs, rs', n);
      } else {
        NotCovered(rs, n);
      }
      forall i | 0 <= i < |bits|
        ensures bits[i] == Covers(rs', i)
      {
        if i < n {
          assert bits[i] == before[i];
        }
      }
    }
  }

  lemma NotCovered(rs: seq<Range>, n: nat)
    requires forall k :: 0 <= k < |rs| ==> rs[k].hi < n
    ensures !Covers(rs, n)
  {
  }

  /** Adding bit n to the runs before it covers n and nothing else new. */
  lemma CoverLast(rs: seq<Range>, rs': seq<Range>, n: nat)
    requires Separate(rs) && forall k :: 0 <= k < |rs| ==> rs[k].hi < n
    requires rs' == if rs != [] && rs[|rs| - 1].hi + 1 == n then rs[..|rs| - 1] + [Range(rs[|rs| - 1].lo, n)]
                    else rs + [Range(n, n)]
    ensures Separate(rs') && Covers(rs', n)
    ensures forall i :: 0 <= i < n ==> Covers(rs', i) == Covers(rs, i)
  {
    hide Covers;
    forall i: nat | i <= n
      ensures Covers(rs', i) <==> i == n || Covers(rs, i)
    {
      if rs != [] && rs[|rs| - 1].hi + 1 == n {
        var front, last := rs[..|rs| - 1], rs[|rs| - 1];
        assert rs == front + [last];
        CoversSnoc(front, last, i);
        CoversSnoc(front, Range(last.lo, n), i);
      } else {
        CoversSnoc(rs, Range(n, n), i);
      }
    }
    assert Covers(rs', n);
  }

  lemma CoversSnoc(rs: seq<Range>, r: Range, i: nat)
    ensures Covers(rs + [r], i) <==> Covers(rs, i) || r.lo <= i <= r.hi
  {
    var all := rs + [r];
    if Covers(rs, i) {
      var k :| 0 <= k < |rs| && rs[k].lo <= i <= rs[k].hi;
      assert all[k] == rs[k];
    }
    assert all[|rs|] == r;
  }

  // ----- The text -------------------------------------------------------

  /** `%d` for indexes, which have at most two digits. */
  function Decimal(n: nat): (s: string)
    requires n < 100
    ensures 1 <= |s| <= 2
  {
    if n < 10 then [LowerDigit(n)] else [LowerDigit(n / 10), LowerDigit(n % 10)]
  }

  predicate Small(rs: seq<Range>) {
    forall k :: 0 <= k < |rs| ==> rs[k].lo <= rs[k].hi < 100
  }

  /** A run whose end is not yet printed. */
  function OpenRun(r: Range): string
    requires r.lo <= r.hi < 100
  {
    Decimal(r.lo) + if r.hi > r.lo then "-" else ""
  }

  /** Runs so far, the last one still open; the ones before have their end printed. */
  function OpenText(rs: seq<Range>): string
    requires rs != [] && Small(rs)
  {
    if |rs| == 1 then OpenRun(rs[0]) else OpenRun(rs[0]) + Decimal(rs[0].hi) + ", " + OpenText(rs[1..])
  }

  function EndOf(r: Range): string
    requires r.lo <= r.hi < 100
  {
    if r.hi > r.lo then Decimal(r.hi) else ""
  }

  /** Everything printed for a list of runs. */
  function ListText(rs: seq<Range>): string
    requires Small(rs)
  {
    if rs == [] then "\n" else " " + OpenText(rs) + EndOf(rs[|rs| - 1]) + "\n"
  }

  lemma {:induction false} OpenAnother(rs: seq<Range>, n: nat)
    requires rs != [] && Small(rs) && n < 100
    ensures OpenText(rs + [Range(n, n)]) == OpenText(rs) + Decimal(rs[|rs| - 1].hi) + ", " + Decimal(n)
  {
    var all := rs + [Range(n, n)];
    assert all[1..] == rs[1..] + [Range(n, n)];
    assert OpenRun(Range(n, n)) == Decimal(n);
    if |rs| == 1 {
      assert all[1..] == [Range(n, n)];
    } else {
      OpenAnother(rs[1..], n);
      Regroup(OpenRun(rs[0]) + Decimal(rs[0].hi) + ", ", OpenText(rs[1..]), Decimal(rs[|rs| - 1].hi), ", ", Decimal(n));
    }
  }

  lemma Regroup(a: string, b: string, c: string, d: string, e: string)
    ensures a + (b + c + d + e) == a + b + c + d + e
  {
  }

  lemma {:induction false} OpenLonger(rs: seq<Range>, n: nat)
    requires rs != [] && Small(rs) && rs[|rs| - 1].hi < n < 100
    ensures OpenText(rs[..|rs| - 1] + [Range(rs[|rs| - 1].lo, n)])
         == OpenText(rs) + if rs[|rs| - 1].hi == rs[|rs| - 1].lo then "-" else ""
  {
    hide Decimal;
    var last := Range(rs[|rs| - 1].lo, n);
    var all := rs[..|rs| - 1] + [last];
    if |rs| == 1 {
      assert all == [last];
      Dash(Decimal(last.lo));
      assert Decimal(last.lo) + "-" + "" == Decimal(last.lo) + "-";
    } else {
      hide OpenRun;
      OpenLonger(rs[1..], n);
      assert all[0] == rs[0] && all[1..] == rs[1..][..|rs| - 2] + [last];
      var dash := if rs[|rs| - 1].hi == rs[|rs| - 1].lo then "-" else "";
      var front, rest := OpenRun(rs[0]) + Decimal(rs[0].hi) + ", ", OpenText(rs[1..]);
      assert front + (rest + dash) == front + rest + dash;
    }
  }

  function Bits(mcs: seq<bv8>): (bits: seq<bool>)
    requires |mcs| == 10
    ensures |bits| == MCS_BITS
  {
    seq(MCS_BITS, i requires 0 <= i < MCS_BITS => BitMask.Test(mcs, i))
  }

  /** The runs hold the indexes from 0 to 76 whose bits are set; the last three bits do not count. */
  lemma IndexesShown(mcs: seq<bv8>, i: nat)
    requires |mcs| == 10 && i < 80
    ensures Covers(Runs(Bits(mcs)), i) <==> i <= 76 && BitMask.Test(mcs, i)
  {
    hide Covers, Runs, BitMask.Test;
    RunsExact(Bits(mcs));
    if i >= 77 {
      NotCovered(Runs(Bits(mcs)), i);
    }
  }

  lemma {:induction false} RunsSmall(bits: seq<bool>)
    requires |bits| <= 100
    ensures Small(Runs(bits))
  {
    RunsExact(bits);
  }

  /** The loop with its two carried variables; -2 stands for no set bit so far. */
  method PrintMcsIndex(mcs: seq<bv8>) returns (text: string)
    requires |mcs| == 10
    ensures Small(Runs(Bits(mcs))) && text == ListText(Runs(Bits(mcs)))
  {
    hide OpenText, Decimal, Runs, BitMask.Test;
    var prevBit, prevCont := -2, false;
    ghost var bits := Bits(mcs);
    ghost var rs: seq<Range> := [];
    RunsStart(bits);
    text := "";
    for bit := 0 to MCS_BITS
      invariant rs == Runs(bits[..bit]) && Small(rs)
      invariant Printed(rs, text, prevBit, prevCont) && prevBit < bit
    {
      RunsSnoc(bits, bit);
      RunsSmall(bits[..bit + 1]);
      if BitMask.Test(mcs, bit) {
        if prevBit != bit - 1 {
          if prevBit != -2 {
            OpenAnother(rs, bit);
            Regroup(" ", OpenText(rs), Decimal(prevBit), ", ", Decimal(bit));
            text := text + Decimal(prevBit) + ", ";
          } else {
            OpenOne(bit);
            assert rs + [Range(bit, bit)] == [Range(bit, bit)] && text + " " == " ";
            text := text + " ";
          }
          text := text + Decimal(bit);
          prevCont := false;
          rs := rs + [Range(bit, bit)];
        } else {
          OpenLonger(rs, bit);
          Dash(OpenText(rs));
          if !prevCont {
            text := text + "-";
            prevCont := true;
          }
          rs := rs[..|rs| - 1] + [Range(rs[|rs| - 1].lo, bit)];
        }
        prevBit := bit;
      }
    }
    assert bits[..MCS_BITS] == bits;
    if prevCont {
      text := text + Decimal(prevBit);
    }
    text := text + "\n";
    assert rs != [] && !prevCont ==> " " + OpenText(rs) + "" == " " + OpenText(rs);
  }

  /** What the loop has printed and carries along after some runs. */
  ghost predicate Printed(rs: seq<Range>, text: string, prevBit: int, prevCont: bool)
    requires Small(rs)
  {
    if rs == [] then text == "" && prevBit == -2 && !prevCont
    else
      && text == " " + OpenText(rs) && prevBit == rs[|rs| - 1].hi
      && prevCont == (rs[|rs| - 1].hi > rs[|rs| - 1].lo)
  }

  lemma Dash(s: string)
    ensures s + "" == s && " " + (s + "-") == " " + s + "-"
  {
  }

  lemma RunsStart(bits: seq<bool>)
    ensures Runs(bits[..0]) == []
  {
  }

  lemma RunsSnoc(bits: seq<bool>, n: nat)
    requires n < |bits|
    ensures var rs := Runs(bits[..n]);
            Runs(bits[..n + 1])
            == if !bits[n] then rs
               else if rs != [] && rs[|rs| - 1].hi + 1 == n then rs[..|rs| - 1] + [Range(rs[|rs| - 1].lo, n)]
               else rs + [Range(n, n)]
  {
    assert bits[..n + 1][..n] == bits[..n];
  }

  lemma OpenOne(n: nat)
    requires n < 100
    ensures OpenText([Range(n, n)]) == Decimal(n)
  {
  }

  // ----- Reading the list back ------------------------------------------

  /** One number, and the text behind it. */
  function ReadNumber(s: string): Option<(nat, string)> {
    var n := DigitCount(s, 10);
    if n == 0 then None else Some((DigitsValue(s[..n], 10), s[n..]))
  }

  /** Ranges separated by a comma and a blank, up to the newline. */
  function ReadItems(s: string): Option<seq<Range>>
    decreases |s|
  {
    var first := ReadNumber(s);
    if first.None? then None
    else
      var (lo, s1) := first.value;
      var second := if s1 != [] && s1[0] == '-' then ReadNumber(s1[1..]) else Some((lo, s1));
      if second.None? then None
      else
        var (hi, s2) := second.value;
        if s2 == "\n" then Some([Range(lo, hi)])
        else if ", " <= s2 && |s2| < |s| then Then(Range(lo, hi), ReadItems(s2[2..]))
        else None
  }

  function ReadList(s: string): Option<seq<Range>> {
    if s == "\n" then Some([]) else if s != [] && s[0] == ' ' then ReadItems(s[1..]) else None
  }

  /** The start of a text is no digit. */
  predicate NoDigit(s: string) {
    s != [] ==> DigitValue(s[0]) >= 10
  }

  lemma TwoDigits(a: char, b: char)
    ensures DigitsValue([a], 10) == DigitValue(a)
    ensures DigitsValue([a, b], 10) == 10 * DigitValue(a) + DigitValue(b)
  {
    hide DigitValue;
    assert [a][..0] == [] && [a, b][..1] == [a];
  }

  lemma FourDigits(a: char, b: char)
    ensures DigitsValue([a, b] + [a, b], 10) == 101 * (10 * DigitValue(a) + DigitValue(b))
  {
    hide DigitValue;
    TwoDigits(a, b);
    var d := [a, b] + [a, b];
    assert d[..3] == [a, b, a] && [a, b, a][..2] == [a, b];
    assert DigitsValue([a, b, a], 10) == 10 * DigitsValue([a, b], 10) + DigitValue(a);
  }

  lemma DecimalDigits(n: nat)
    requires n < 100
    ensures forall i :: 0 <= i < |Decimal(n)| ==> DigitValue(Decimal(n)[i]) < 10
    ensures DigitsValue(Decimal(n), 10) == n
  {
    hide DigitValue, LowerDigit, DigitsValue;
    DigitOfNibble(n / 10);
    DigitOfNibble(n % 10);
    TwoDigits(LowerDigit(n / 10), LowerDigit(n % 10));
    TwoDigits(LowerDigit(n % 10), LowerDigit(n % 10));
  }

  lemma ReadDecimal(n: nat, rest: string)
    requires n < 100 && NoDigit(rest)
    ensures ReadNumber(Decimal(n) + rest) == Some((n, rest))
  {
    DecimalDigits(n);
    CountDigits(Decimal(n), rest, 10);
    var s := Decimal(n) + rest;
    assert s[..|Decimal(n)|] == Decimal(n) && s[|Decimal(n)|..] == rest;
  }

  /** The number a doubled index reads as. */
  function Doubled(n: nat): nat {
    if n < 10 then 11 * n else 101 * n
  }

  lemma ReadDoubled(n: nat, rest: string)
    requires n < 100 && NoDigit(rest)
    ensures ReadNumber(Decimal(n) + Decimal(n) + rest) == Some((Doubled(n), rest))
  {
    DecimalDigits(n);
    var d := Decimal(n) + Decimal(n);
    CountDigits(d, rest, 10);
    var s := d + rest;
    assert s[..|d|] == d && s[|d|..] == rest;
    DoubledValue(n);
  }

  lemma DoubledValue(n: nat)
    requires n < 100
    ensures DigitsValue(Decimal(n) + Decimal(n), 10) == Doubled(n)
  {
    hide DigitValue, LowerDigit, DigitsValue;
    DigitOfNibble(n / 10);
    DigitOfNibble(n % 10);
    if n < 10 {
      TwoDigits(LowerDigit(n), LowerDigit(n));
      assert [LowerDigit(n)] + [LowerDigit(n)] == [LowerDigit(n), LowerDigit(n)];
    } else {
      FourDigits(LowerDigit(n / 10), LowerDigit(n % 10));
    }
  }

  /** What a run in the middle of the list reads as: a run of one index has its number doubled. */
  function Seen(r: Range): Range {
    if r.lo == r.hi then Range(Doubled(r.lo), Doubled(r.lo)) else r
  }

  lemma ReadFirst(r: Range, rest: string)
    requires r.lo <= r.hi < 100
    ensures ReadItems(OpenRun(r) + Decimal(r.hi) + ", " + rest) == Then(Seen(r), ReadItems(rest))
  {
    hide Decimal, ReadNumber;
    var behind := ", " + rest;
    assert NoDigit(behind) && NoDigit("-" + (Decimal(r.hi) + behind));
    assert behind[2..] == rest && behind != "\n";
    var s := OpenRun(r) + Decimal(r.hi) + ", " + rest;
    if r.lo == r.hi {
      ReadDoubled(r.lo, behind);
      assert s == Decimal(r.lo) + Decimal(r.lo) + behind;
    } else {
      var more := "-" + (Decimal(r.hi) + behind);
      ReadDecimal(r.lo, more);
      ReadDecimal(r.hi, behind);
      assert s == Decimal(r.lo) + more;
      assert more[1..] == Decimal(r.hi) + behind;
    }
  }

  lemma ReadLast(r: Range)
    requires r.lo <= r.hi < 100
    ensures ReadItems(OpenRun(r) + EndOf(r) + "\n") == Some([r])
  {
    hide Decimal, ReadNumber;
    assert NoDigit("\n") && NoDigit("-" + (Decimal(r.hi) + "\n"));
    var s := OpenRun(r) + EndOf(r) + "\n";
    if r.lo == r.hi {
      ReadDecimal(r.lo, "\n");
      assert s == Decimal(r.lo) + "\n";
    } else {
      var more := "-" + (Decimal(r.hi) + "\n");
      ReadDecimal(r.lo, more);
      ReadDecimal(r.hi, "\n");
      assert s == Decimal(r.lo) + more;
      assert more[1..] == Decimal(r.hi) + "\n";
    }
  }

  function AllSeen(rs: seq<Range>): seq<Range> {
    if |rs| <= 1 then rs else [Seen(rs[0])] + AllSeen(rs[1..])
  }

  lemma {:induction false} ReadText(rs: seq<Range>)
    requires rs != [] && Small(rs)
    ensures ReadItems(OpenText(rs) + EndOf(rs[|rs| - 1]) + "\n") == Some(AllSeen(rs))
  {
    hide OpenRun, Decimal, ReadItems;
    var end := EndOf(rs[|rs| - 1]) + "\n";
    if |rs| == 1 {
      ReadLast(rs[0]);
      assert rs == [rs[0]];
    } else {
      ReadText(rs[1..]);
      var rest := OpenText(rs[1..]) + EndOf(rs[|rs| - 1]) + "\n";
      ReadFirst(rs[0], rest);
      assert OpenText(rs) + EndOf(rs[|rs| - 1]) + "\n" == OpenRun(rs[0]) + Decimal(rs[0].hi) + ", " + rest;
    }
  }

  /** The list always reads as some list; a run of one index that is not the last reads as the index
      written twice. */
  lemma ListReads(rs: seq<Range>)
    requires Small(rs)
    ensures ReadList(ListText(rs)) == Some(AllSeen(rs))
  {
    hide OpenText, ReadItems;
    if rs != [] {
      ReadText(rs);
      var s := ListText(rs);
      assert s[1..] == OpenText(rs) + EndOf(rs[|rs| - 1]) + "\n";
      assert s[0] == ' ';
    }
  }

  lemma {:induction false} SeenSameIff(rs: seq<Range>)
    requires Small(rs)
    ensures AllSeen(rs) == rs <==> forall k :: 0 <= k < |rs| - 1 ==> rs[k].lo < rs[k].hi || rs[k].lo == 0
  {
    if |rs| > 1 {
      SeenSameIff(rs[1..]);
      assert rs == [rs[0]] + rs[1..];
      assert Seen(rs[0]) == rs[0] <==> rs[0].lo < rs[0].hi || rs[0].lo == 0;
      assert AllSeen(rs) == rs <==> Seen(rs[0]) == rs[0] && AllSeen(rs[1..]) == rs[1..] by {
        assert AllSeen(rs)[1..] == AllSeen(rs[1..]);
      }
      if forall k :: 0 <= k < |rs| - 1 ==> rs[k].lo < rs[k].hi || rs[k].lo == 0 {
        assert forall k :: 0 <= k < |rs[1..]| - 1 ==> rs[1..][k] == rs[k + 1];
      }
      if AllSeen(rs) == rs {
        forall k | 0 <= k < |rs| - 1
          ensures rs[k].lo < rs[k].hi || rs[k].lo == 0
        {
          if k > 0 {
            assert rs[1..][k - 1] == rs[k];
          }
        }
      }
    }
  }

  /** The printed list reads back as the mask's runs iff every run but the last has two indexes or
      more, or is the index 0 alone. */
  lemma ReadsBackIff(mcs: seq<bv8>)
    requires |mcs| == 10
    ensures var rs := Runs(Bits(mcs));
            && Small(rs)
            && (ReadList(ListText(rs)) == Some(rs)
                <==> forall k :: 0 <= k < |rs| - 1 ==> rs[k].lo < rs[k].hi || rs[k].lo == 0)
  {
    var rs := Runs(Bits(mcs));
    RunsSmall(Bits(mcs));
    ListReads(rs);
    SeenSameIff(rs);
  }

  lemma {:induction false} RunsClear(bits: seq<bool>, n: nat, m: nat)
    requires n <= m <= |bits| && forall i :: n <= i < m ==> !bits[i]
    ensures Runs(bits[..m]) == Runs(bits[..n])
    decreases m
  {
    if n < m {
      RunsSnoc(bits, m - 1);
      RunsClear(bits, n, m - 1);
    }
  }

  /** The indexes 1 and 3 are printed as 11 and 3. */
  lemma LoneIndexDoubled()
    ensures var rs := Runs(Bits([0x0a, 0, 0, 0, 0, 0, 0, 0, 0, 0]));
            && rs == [Range(1, 1), Range(3, 3)] && Small(rs) && ListText(rs) == " 11, 3\n"
            && ReadList(ListText(rs)) == Some([Range(11, 11), Range(3, 3)])
  {
    hide Runs, Bits, ListText, ReadList, AllSeen;
    OneAndThree();
    LoneText();
    ListReads([Range(1, 1), Range(3, 3)]);
  }

  lemma LoneText()
    ensures ListText([Range(1, 1), Range(3, 3)]) == " 11, 3\n"
    ensures AllSeen([Range(1, 1), Range(3, 3)]) == [Range(11, 11), Range(3, 3)]
  {
    var r, q := Range(1, 1), Range(3, 3);
    assert [r, q][1..] == [q];
    OpenOne(3);
    assert OpenRun(r) == "1" && Decimal(3) == "3";
    assert OpenText([r, q]) == "1" + "1" + ", " + "3";
  }

  lemma TenByte()
    ensures forall j: nat | j < 8 :: BitMask.InByte(0x0a, j) == (j == 1 || j == 3)
  {
  }

  lemma OneAndThree()
    ensures Runs(Bits([0x0a, 0, 0, 0, 0, 0, 0, 0, 0, 0])) == [Range(1, 1), Range(3, 3)]
  {
    hide Runs, BitMask.InByte;
    var mcs: seq<bv8> := [0x0a, 0, 0, 0, 0, 0, 0, 0, 0, 0];
    var bits := Bits(mcs);
    TenByte();
    BitMask.ZeroByte();
    assert forall i :: 0 <= i < MCS_BITS ==> bits[i] == (i == 1 || i == 3);
    RunsStart(bits);
    RunsSnoc(bits, 0);
    RunsSnoc(bits, 1);
    RunsSnoc(bits, 2);
    RunsSnoc(bits, 3);
    RunsClear(bits, 4, MCS_BITS);
    assert bits[..MCS_BITS] == bits;
  }

}
