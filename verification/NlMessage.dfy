/** Netlink messages as token sequences: attributes in the order they were put, with
    explicit nest starts and ends. A message buffer never runs full here. */
module NlMessage {
  import opened CText
  import PacketPattern
  import Numerals

  datatype Attr =
    | Item(n: nat)
    | WowlanTriggers | TrigAny | TrigDisconnect | TrigMagicPkt | TrigGtkRekeyFailure
    | TrigEapIdentRequest | Trig4WayHandshake | TrigRfkillRelease | TrigPktPattern | TrigNetDetect
    | SchedScanInterval | SchedScanDelay | ScanFrequencies | SchedScanMatch | MatchSsid
    | PatMask | PatPattern | PatOffset
    | CoalesceRules | RuleDelay | RuleCondition | RulePatterns

  datatype Tok =
    | Flag(attr: Attr)
    | U32(attr: Attr, v: nat)
    | Bytes(attr: Attr, bytes: seq<Byte>)
    | Bits(attr: Attr, bits: seq<bv8>)
    | Text(attr: Attr, text: string)
    | Open(attr: Attr)
    | Close

  type Msg = seq<Tok>

  function Nest(attr: Attr, inner: Msg): Msg {
    [Open(attr)] + inner + [Close]
  }

  /** Nesting depth after a message, None if a nest is ended that was never started. */
  function Level(m: Msg, depth: nat): Option<nat> {
    if m == [] then Some(depth)
    else if m[0].Open? then Level(m[1..], depth + 1)
    else if m[0].Close? then (if depth == 0 then None else Level(m[1..], depth - 1))
    else Level(m[1..], depth)
  }

  /** Every nest started is ended, in order. */
  predicate Balanced(m: Msg) {
    Level(m, 0) == Some(0)
  }

  lemma {:induction false} LevelConcat(a: Msg, b: Msg, depth: nat)
    ensures Level(a + b, depth) == if Level(a, depth).None? then None else Level(b, Level(a, depth).value)
  {
    if a == [] {
      assert a + b == b;
    } else {
      assert (a + b)[1..] == a[1..] + b;
      if a[0].Open? {
        LevelConcat(a[1..], b, depth + 1);
      } else if a[0].Close? && depth > 0 {
        LevelConcat(a[1..], b, depth - 1);
      } else if !a[0].Close? {
        LevelConcat(a[1..], b, depth);
      }
    }
  }

  lemma {:induction false} LevelShift(m: Msg, depth: nat, more: nat)
    requires Level(m, depth).Some?
    ensures Level(m, depth + more) == Some(Level(m, depth).value + more)
  {
    if m != [] {
      LevelShift(m[1..], if m[0].Open? then depth + 1 else if m[0].Close? then depth - 1 else depth, more);
    }
  }

  /** A balanced message leaves any depth as it was. */
  lemma BalancedAt(m: Msg, depth: nat)
    requires Balanced(m)
    ensures Level(m, depth) == Some(depth)
  {
    LevelShift(m, 0, depth);
  }

  lemma BalancedEmpty()
    ensures Balanced([])
  {
  }

  lemma BalancedConcat(a: Msg, b: Msg)
    requires Balanced(a) && Balanced(b)
    ensures Balanced(a + b)
  {
    LevelConcat(a, b, 0);
  }

  lemma BalancedNest(attr: Attr, inner: Msg)
    requires Balanced(inner)
    ensures Balanced(Nest(attr, inner))
  {
    BalancedAt(inner, 1);
    LevelConcat(inner, [Close], 1);
    var m := Nest(attr, inner);
    assert m[1..] == inner + [Close];
    assert Level([Close], 1) == Some(0);
  }

  // ----- Pattern arguments ----------------------------------------------

  /** `[offset+]pattern`, as both commands take it. */
  datatype PatArg = PatOk(offset: nat, sent: PacketPattern.Sent) | PatRefused | PatUndefined | PatMissing

  function PatternArg(arg: string): PatArg {
    var (value1, rest) := NextToken(arg, '+');
    var (value2, _) := NextToken(rest, '+');
    match value2
    case None => (if value1.None? then PatMissing else WithOffset(0, PacketPattern.Convert(value1.value)))
    case Some(text) =>
      if value1.None? then PatMissing
      else match Numeral(value1.value, 10)
        case None => PatRefused
        case Some(v) => WithOffset(ToU32(v), PacketPattern.Convert(text))
  }

  function WithOffset(offset: nat, r: PacketPattern.SendOutcome): PatArg {
    match r
    case Send(sent) => PatOk(offset, sent)
    case Refuse => PatRefused
    case Undefined => PatUndefined
  }

  /** The same through the parser's buffers. */
  method ReadPatternArg(arg: string) returns (p: PatArg)
    ensures p == PatternArg(arg)
  {
    var (value1, rest) := NextToken(arg, '+');
    var (value2, _) := NextToken(rest, '+');
    if value1.None? {
      return PatMissing;
    }
    var offset, text := 0, value1.value;
    if value2.Some? {
      var v := Numeral(value1.value, 10);
      if v.None? {
        return PatRefused;
      }
      offset, text := ToU32(v.value), value2.value;
    }
    var r := PacketPattern.ConvertPattern(text);
    p := WithOffset(offset, r);
  }

  // ----- Which arguments are good, missing or lost ----------------------

  predicate OnlyPlus(arg: string) {
    forall i :: 0 <= i < |arg| ==> arg[i] == '+'
  }

  /** The pattern of an argument is its second piece between plus signs, behind a numeral, or its only one. */
  function PatternText(arg: string): Option<string> {
    var (value1, rest) := NextToken(arg, '+');
    var (value2, _) := NextToken(rest, '+');
    if value2.None? then value1 else if value1.Some? && Numeral(value1.value, 10).Some? then value2 else None
  }

  predicate ArgOverruns(arg: string) {
    var text := PatternText(arg);
    text.Some? && PacketPattern.Overruns(text.value)
  }

  /** What becomes of an argument, read off the argument. */
  lemma ArgumentIff(arg: string)
    ensures PatternArg(arg).PatMissing? <==> OnlyPlus(arg)
    ensures PatternArg(arg).PatUndefined? <==> ArgOverruns(arg)
    ensures PatternArg(arg).PatOk?
       <==> PatternText(arg).Some? && PacketPattern.Fits(PatternText(arg).value)
  {
    hide Numeral, PacketPattern.Convert, PacketPattern.Overruns, PacketPattern.Fits, NextToken;
    NoTokenIff(arg, '+');
    LeadingAll(arg, '+');
    var (value1, rest) := NextToken(arg, '+');
    var (value2, _) := NextToken(rest, '+');
    if value1.Some? {
      PacketPattern.DefinedIff(value1.value);
    }
    if value2.Some? {
      PacketPattern.DefinedIff(value2.value);
    }
  }

  lemma NoTokenIff(s: string, c: char)
    ensures NextToken(s, c).0.None? <==> LeadingCount(s, c) == |s|
  {
  }

  lemma {:induction false} LeadingAll(s: string, c: char)
    ensures LeadingCount(s, c) == |s| <==> forall i :: 0 <= i < |s| ==> s[i] == c
    ensures forall i :: 0 <= i < LeadingCount(s, c) ==> s[i] == c
  {
    if s != [] && s[0] == c {
      LeadingAll(s[1..], c);
      assert forall i :: 1 <= i < |s| ==> s[i] == s[1..][i - 1];
      assert forall i :: 1 <= i < LeadingCount(s, c) ==> s[i] == s[1..][i - 1];
    }
  }

  /** Good arguments up to place i, and there one that runs over its buffers or, where that counts,
      is missing. */
  predicate LosesAt(args: seq<string>, missing: bool, i: nat) {
    i < |args| && AllPatterns(args[..i]) && (ArgOverruns(args[i]) || (missing && OnlyPlus(args[i])))
  }

  predicate Loses(args: seq<string>, missing: bool) {
    exists i: nat | i < |args| :: LosesAt(args, missing, i)
  }

  lemma LosesNothing(missing: bool)
    ensures !Loses([], missing)
  {
  }

  lemma LosesStep(args: seq<string>, missing: bool)
    requires args != []
    ensures Loses(args, missing)
       <==> if PatternArg(args[0]).PatOk? then Loses(args[1..], missing)
            else ArgOverruns(args[0]) || (missing && OnlyPlus(args[0]))
  {
    hide PatternArg, ArgOverruns, OnlyPlus;
    ArgumentIff(args[0]);
    forall i: nat | i < |args|
      ensures LosesAt(args, missing, i)
         <==> if i == 0 then ArgOverruns(args[0]) || (missing && OnlyPlus(args[0]))
              else PatternArg(args[0]).PatOk? && LosesAt(args[1..], missing, i - 1)
    {
      assert i > 0 ==> args[..i] == [args[0]] + args[1..][..i - 1];
    }
    if Loses(args[1..], missing) {
      var j: nat :| j < |args[1..]| && LosesAt(args[1..], missing, j);
      assert LosesAt(args, missing, j + 1) <==> PatternArg(args[0]).PatOk?;
    }
    assert LosesAt(args, missing, 0) ==> Loses(args, missing);
  }

  lemma LosesNotGood(args: seq<string>, missing: bool)
    ensures Loses(args, missing) ==> !AllPatterns(args)
  {
    hide PatternArg, ArgOverruns, OnlyPlus;
    if Loses(args, missing) {
      var i: nat :| i < |args| && LosesAt(args, missing, i);
      ArgumentIff(args[i]);
    }
  }

  // ----- Printed patterns as arguments ----------------------------------

  lemma {:induction false} LeadingNone(s: string, c: char)
    requires s != [] && s[0] != c
    ensures LeadingCount(s, c) == 0
  {
  }

  lemma WholeToken(s: string, c: char)
    requires s != [] && c !in s
    ensures NextToken(s, c) == (Some(s), "")
  {
    assert s[0] in s;
    LeadingNone(s, c);
    IndexOfPrefix(s, c, "");
    assert s[0..] == s && s[..|s|] == s;
  }

  lemma FirstToken(a: string, c: char, b: string)
    requires a != [] && c !in a
    ensures NextToken(a + [c] + b, c) == (Some(a), b)
  {
    var s := a + [c] + b;
    assert s[0] == a[0] && a[0] in a;
    LeadingNone(s, c);
    IndexOfPrefix(a, c, b);
    assert s[0..] == s && s[..|a|] == a && s[|a| + 1..] == b;
  }

  /** What the status commands print for a stored pattern can be given to the enable commands as it
      stands, alone or behind any offset: it is accepted, and matches the same packets. */
  lemma PrintedPatternReenters(s: PacketPattern.Sent, offset: string)
    requires |s.pat| >= 1 && |s.mask| == (|s.pat| + 7) / 8
    requires offset != [] && '+' !in offset && Numeral(offset, 10).Some?
    ensures var text := PacketPattern.Printed(PacketPattern.View(s.pat, s.mask));
            var alone, behind := PatternArg(text), PatternArg(offset + "+" + text);
            && alone.PatOk? && alone.offset == 0
            && behind.PatOk? && behind.offset == ToU32(Numeral(offset, 10).value) && behind.sent == alone.sent
            && |alone.sent.pat| <= 8 * |alone.sent.mask|
            && forall at: nat, packet: seq<Byte> ::
                 PacketPattern.Matches(alone.sent, at, packet) == PacketPattern.Matches(s, at, packet)
  {
    assert NextToken("", '+') == (None, "");
    hide Numeral, NextToken, PacketPattern.Convert, PacketPattern.Printed, PacketPattern.View;
    var text := PacketPattern.Printed(PacketPattern.View(s.pat, s.mask));
    PacketPattern.PrintThenParse(s);
    PacketPattern.PrintedPlain(PacketPattern.View(s.pat, s.mask));
    WholeToken(text, '+');
    FirstToken(offset, '+', text);
  }

  function PatternToks(n: nat, p: PatArg): Msg
    requires p.PatOk?
  {
    Nest(Item(n), [Bits(PatMask, p.sent.mask), Bytes(PatPattern, p.sent.pat), U32(PatOffset, p.offset)])
  }

  predicate AllPatterns(args: seq<string>) {
    forall i :: 0 <= i < |args| ==> PatternArg(args[i]).PatOk?
  }

  /** The patterns of a list of arguments, numbered on from `n`. */
  function NumberPatterns(args: seq<string>, n: nat): Msg
    requires AllPatterns(args)
  {
    if args == [] then [] else PatternToks(n, PatternArg(args[0])) + NumberPatterns(args[1..], n + 1)
  }

  lemma PatternToksBalanced(n: nat, p: PatArg)
    requires p.PatOk?
    ensures Balanced(PatternToks(n, p))
  {
    var inner := [Bits(PatMask, p.sent.mask), Bytes(PatPattern, p.sent.pat), U32(PatOffset, p.offset)];
    assert Level(inner[1..][1..][1..], 0) == Some(0);
    assert Level(inner[1..][1..], 0) == Some(0);
    assert Level(inner[1..], 0) == Some(0);
    BalancedNest(Item(n), inner);
  }

  lemma {:induction false} NumberPatternsBalanced(args: seq<string>, n: nat)
    requires AllPatterns(args)
    ensures Balanced(NumberPatterns(args, n))
  {
    if args != [] {
      PatternToksBalanced(n, PatternArg(args[0]));
      NumberPatternsBalanced(args[1..], n + 1);
      BalancedConcat(PatternToks(n, PatternArg(args[0])), NumberPatterns(args[1..], n + 1));
    }
  }

  // ----- Patterns over numbers ------------------------------------------

  /** A pattern to look for at an offset, in plain terms. */
  datatype Given = Given(offset: nat, elems: seq<PacketPattern.Elem>)

  predicate ValidGiven(g: Given) {
    g.offset < UINT_RANGE && |g.elems| >= 1
  }

  function Pluses(k: nat): (s: string)
    ensures |s| == k
  {
    if k == 0 then "" else "+" + Pluses(k - 1)
  }

  /** As an argument: the offset in decimal and the elements, with plus signs around them. */
  function GivenText(g: Given, before: nat, between: nat, after: nat): string {
    Pluses(before) + (Numerals.Dec(g.offset) + (Pluses(between) + (PacketPattern.Printed(g.elems) + Pluses(after))))
  }

  lemma {:induction false} LeadingPluses(k: nat, rest: string)
    requires rest != [] ==> rest[0] != '+'
    ensures LeadingCount(Pluses(k) + rest, '+') == k
  {
    if k == 0 {
      assert Pluses(k) + rest == rest;
    } else {
      LeadingPluses(k - 1, rest);
      assert (Pluses(k) + rest)[1..] == Pluses(k - 1) + rest;
    }
  }

  lemma SkipPluses(k: nat, t: string)
    requires t != [] && t[0] != '+'
    ensures NextToken(Pluses(k) + t, '+') == NextToken(t, '+')
  {
    hide LeadingCount, IndexOf, Pluses;
    LeadingPluses(k, t);
    LeadingNone(t, '+');
    assert (Pluses(k) + t)[k..] == t && t[0..] == t;
  }

  /** A token behind any number of plus signs ends at the next one. */
  lemma TokenBehind(k: nat, a: string, rest: string)
    requires a != [] && '+' !in a && (rest != [] ==> rest[0] == '+')
    ensures NextToken(Pluses(k) + (a + rest), '+') == (Some(a), if rest == [] then [] else rest[1..])
  {
    hide NextToken, Pluses;
    assert (a + rest)[0] == a[0] && a[0] in a;
    SkipPluses(k, a + rest);
    if rest == [] {
      assert a + rest == a;
      WholeToken(a, '+');
    } else {
      assert a + rest == a + ['+'] + rest[1..];
      FirstToken(a, '+', rest[1..]);
    }
  }

  lemma FirstPlus(k: nat, rest: string)
    requires k >= 1
    ensures (Pluses(k) + rest)[0] == '+' && (Pluses(k) + rest)[1..] == Pluses(k - 1) + rest
  {
  }

  lemma PlusStart(k: nat)
    ensures Pluses(k) != [] ==> Pluses(k)[0] == '+'
  {
  }

  /** The offset read is the number given and the pattern read is the one given, however many plus
      signs stand around them. */
  lemma GivenRead(g: Given, before: nat, between: nat, after: nat)
    requires ValidGiven(g) && between >= 1
    ensures PatternArg(GivenText(g, before, between, after)) == PatOk(g.offset, PacketPattern.SentOf(g.elems))
  {
    hide Numeral, NextToken, PacketPattern.Convert, PacketPattern.Printed, PacketPattern.SentOf, Numerals.Dec, Pluses;
    var number, text := Numerals.Dec(g.offset), PacketPattern.Printed(g.elems);
    Numerals.DecU32(g.offset);
    PacketPattern.PrintedPlain(g.elems);
    PacketPattern.ReadPrinted(g.elems);
    FirstPlus(between, text + Pluses(after));
    TokenBehind(before, number, Pluses(between) + (text + Pluses(after)));
    PlusStart(after);
    TokenBehind(between - 1, text, Pluses(after));
  }

  /** A pattern argument holds no character the coalesce file is cut at. */
  lemma GivenPlain(g: Given)
    requires ValidGiven(g)
    ensures var s := GivenText(g, 0, 1, 0); ',' !in s && '\r' !in s && '\n' !in s
  {
    hide Numerals.Dec, PacketPattern.Printed;
    Numerals.DecU32(g.offset);
    Numerals.PlainHas(Numerals.Dec(g.offset));
    PacketPattern.PrintedPlain(g.elems);
    assert Pluses(1) == "+" && Pluses(0) == "";
  }

  function GivenToks(n: nat, g: Given): Msg {
    [Open(Item(n)), Bits(PatMask, PacketPattern.SentOf(g.elems).mask),
     Bytes(PatPattern, PacketPattern.SentOf(g.elems).pat), U32(PatOffset, g.offset), Close]
  }

  function GivenTexts(gs: seq<Given>): (ts: seq<string>)
    ensures |ts| == |gs|
  {
    seq(|gs|, i requires 0 <= i < |gs| => GivenText(gs[i], 0, 1, 0))
  }

  /** Patterns given one after the other, numbered on from `n`. */
  function GivenAll(gs: seq<Given>, n: nat): Msg {
    if gs == [] then [] else GivenToks(n, gs[0]) + GivenAll(gs[1..], n + 1)
  }

  predicate AllValid(gs: seq<Given>) {
    forall i :: 0 <= i < |gs| ==> ValidGiven(gs[i])
  }

  /** The patterns put are the patterns given: mask, bytes and offset of each, in order. */
  lemma {:induction false} GivenNumbered(gs: seq<Given>, n: nat)
    requires AllValid(gs)
    ensures AllPatterns(GivenTexts(gs)) && NumberPatterns(GivenTexts(gs), n) == GivenAll(gs, n)
    decreases |gs|
  {
    hide PatternArg, GivenText, PacketPattern.SentOf;
    if gs != [] {
      GivenNumbered(gs[1..], n + 1);
      GivenRead(gs[0], 0, 1, 0);
      var ts := GivenTexts(gs);
      assert ts[1..] == GivenTexts(gs[1..]);
      assert ts == [ts[0]] + ts[1..];
      assert PatternToks(n, PatternArg(ts[0])) == GivenToks(n, gs[0]);
    }
  }
}
