/** `handle_coalesce_enable`: coalesce rules read from configuration lines, three lines a rule. */
module Coalesce {
  import opened CText
  import opened NlMessage
  import opened Numerals

  datatype State = WantDelay | WantCondition | WantPatterns

  datatype Vars = Vars(state: State, ruleNum: nat, patnum: nat, msg: Msg)

  /** `Undefined` stands for a pattern text that runs over its buffers, and for a search in bytes of
      the line buffer that were never written. */
  datatype Result = Done(err: int, msg: Msg) | Undefined

  datatype Turn = Next(s: Vars) | Fail(msg: Msg) | Lost

  /** A line as `fgets` gives it, cut at the first carriage return and then at the first newline.
      Both searches start at the sixth character; shorter lines stay as they are. */
  function StripEol(line: string): string {
    if |line| < 5 then line
    else
      var l := line[..5 + IndexOf(line[5..], '\r')];
      l[..5 + IndexOf(l[5..], '\n')]
  }

  const DELAY := "delay="
  const CONDITION := "condition="
  const PATTERNS := "patterns="

  /** One line in the current state. */
  function LineTurn(raw: string, s: Vars): Turn {
    var line := StripEol(raw);
    match s.state
    case WantDelay =>
      if !(DELAY <= line) then Fail(s.msg)
      else
        var delay := Strtoul(line[6..], 10);
        var msg := s.msg + [Open(Item(s.ruleNum + 1)), U32(RuleDelay, ToU32(delay.value))];
        if delay.end != |line[6..]| then Fail(msg)
        else Next(Vars(WantCondition, s.ruleNum + 1, s.patnum, msg))
    case WantCondition =>
      if !(CONDITION <= line) then Fail(s.msg)
      else (match Numeral(line[10..], 10)
            case None => Fail(s.msg)
            case Some(c) => Next(s.(state := WantPatterns, msg := s.msg + [U32(RuleCondition, ToU32(c))])))
    case WantPatterns =>
      if !(PATTERNS <= line) then Fail(s.msg)
      else PatternsTurn(Split(line[9..], ','), s.(msg := s.msg + [Open(RulePatterns)]))
  }

  /** The pattern list of a rule. */
  function PatternsTurn(texts: seq<string>, s: Vars): Turn {
    if texts == [] then Next(s.(state := WantDelay, msg := s.msg + [Close, Close]))
    else match PatternArg(texts[0])
      case PatOk(_, _) => PatternsTurn(texts[1..], AddPattern(s, PatternArg(texts[0])))
      case PatUndefined => Lost
      case PatRefused => Fail(s.msg)
      case PatMissing => Fail(s.msg)
  }

  function AddPattern(s: Vars, p: PatArg): Vars
    requires p.PatOk?
  {
    s.(patnum := s.patnum + 1, msg := s.msg + PatternToks(s.patnum + 1, p))
  }

  /** The handler over the lines left. The outer nest is ended on every way out. */
  function Run(lines: seq<string>, s: Vars): Result {
    if lines == [] then Done(if s.state.WantDelay? then 0 else 1, s.msg + [Close])
    else match LineTurn(lines[0], s)
      case Next(t) => Run(lines[1..], t)
      case Fail(msg) => Done(1, msg + [Close])
      case Lost => Undefined
  }

  const START := Vars(WantDelay, 0, 0, [Open(CoalesceRules)])

  /** The ends of lines are looked for from the sixth byte of the line buffer on. After a first line
      of fewer than five characters nothing stands there; after any longer one there is at least the
      end of that. */
  predicate Unwritten(lines: seq<string>) {
    lines != [] && |lines[0]| < 5
  }

  function Handle(lines: seq<string>): Result {
    if Unwritten(lines) then Undefined else Run(lines, START)
  }

  method HandleCoalesce(lines: seq<string>) returns (r: Result)
    ensures r == Handle(lines)
  {
    hide Run, Strtoul, PatternsTurn, IndexOf;
    // How much of the line buffer has been written, the ends of lines counted.
    var written := 0;
    var state, ruleNum: nat, patnum: nat, msg: Msg := WantDelay, 0, 0, [Open(CoalesceRules)];
    assert lines[0..] == lines;
    for i := 0 to |lines|
      invariant Run(lines, START) == Run(lines[i..], Vars(state, ruleNum, patnum, msg))
      invariant if i == 0 then written == 0 else written >= 6 && !Unwritten(lines)
    {
      written := if |lines[i]| + 1 > written then |lines[i]| + 1 else written;
      if written < 6 {
        return Undefined;
      }
      RunLine(lines[i..], Vars(state, ruleNum, patnum, msg));
      assert lines[i..][1..] == lines[i + 1..];
      var line := StripEol(lines[i]);
      match state {
        case WantDelay =>
          if !(DELAY <= line) {
            return Done(1, msg + [Close]);
          }
          ruleNum := ruleNum + 1;
          var delay := Strtoul(line[6..], 10);
          msg := msg + [Open(Item(ruleNum)), U32(RuleDelay, ToU32(delay.value))];
          if delay.end != |line[6..]| {
            return Done(1, msg + [Close]);
          }
          state := WantCondition;
        case WantCondition =>
          if !(CONDITION <= line) {
            return Done(1, msg + [Close]);
          }
          var condition := Strtoul(line[10..], 10);
          if condition.end != |line[10..]| {
            return Done(1, msg + [Close]);
          }
          msg := msg + [U32(RuleCondition, ToU32(condition.value))];
          state := WantPatterns;
        case WantPatterns =>
          if !(PATTERNS <= line) {
            return Done(1, msg + [Close]);
          }
          var t := ReadPatterns(line[9..], Vars(state, ruleNum, patnum, msg + [Open(RulePatterns)]));
          if !t.Next? {
            return if t.Fail? then Done(1, t.msg + [Close]) else Undefined;
          }
          state, patnum, msg := WantDelay, t.s.patnum, t.s.msg;
      }
    }
    assert lines[|lines|..] == [];
    RunEnd(Vars(state, ruleNum, patnum, msg));
    r := Done(if state.WantDelay? then 0 else 1, msg + [Close]);
  }

  /** The inner loop over the patterns of a rule, which cuts the text at each comma in turn. */
  method ReadPatterns(text: string, start: Vars) returns (t: Turn)
    ensures t == PatternsTurn(Split(text, ','), start)
    ensures t.Next? ==> t.s.state.WantDelay? && t.s.ruleNum == start.ruleNum
  {
    hide PatternArg, Split, PatternToks;
    var rest, patnum, msg := text, start.patnum, start.msg;
    while true
      invariant PatternsTurn(Split(text, ','), start)
             == PatternsTurn(Split(rest, ','), start.(patnum := patnum, msg := msg))
      decreases |rest|
    {
      SplitCons(rest, ',');
      var comma := IndexOf(rest, ',');
      var p := ReadPatternArg(rest[..comma]);
      if !p.PatOk? {
        return if p.PatUndefined? then Lost else Fail(msg);
      }
      patnum := patnum + 1;
      msg := msg + PatternToks(patnum, p);
      if comma == |rest| {
        break;
      }
      rest := rest[comma + 1..];
    }
    t := Next(Vars(WantDelay, start.ruleNum, patnum, msg + [Close, Close]));
  }

  lemma RunLine(lines: seq<string>, s: Vars)
    requires lines != []
    ensures Run(lines, s)
         == match LineTurn(lines[0], s)
            case Next(t) => Run(lines[1..], t)
            case Fail(msg) => Done(1, msg + [Close])
            case Lost => Undefined
  {
  }

  lemma RunEnd(s: Vars)
    ensures Run([], s) == Done(if s.state.WantDelay? then 0 else 1, s.msg + [Close])
  {
  }

  // ----- Rules ----------------------------------------------------------

  predicate IsDelay(raw: string) {
    var l := StripEol(raw);
    DELAY <= l && Numeral(l[6..], 10).Some?
  }

  predicate IsCondition(raw: string) {
    var l := StripEol(raw);
    CONDITION <= l && Numeral(l[10..], 10).Some?
  }

  predicate IsPatterns(raw: string) {
    var l := StripEol(raw);
    PATTERNS <= l && AllPatterns(Split(l[9..], ','))
  }

  function PatternTexts(raw: string): seq<string>
    requires IsPatterns(raw)
  {
    Split(StripEol(raw)[9..], ',')
  }

  /** Three lines that make a rule. */
  predicate IsRule(lines: seq<string>)
    requires |lines| >= 3
  {
    IsDelay(lines[0]) && IsCondition(lines[1]) && IsPatterns(lines[2])
  }

  /** A rule as it is put: number `n`, its patterns numbered on from `patnum` + 1. */
  function RuleToks(lines: seq<string>, n: nat, patnum: nat): Msg
    requires |lines| >= 3 && IsRule(lines)
  {
    Nest(Item(n), [U32(RuleDelay, ToU32(Numeral(StripEol(lines[0])[6..], 10).value)),
                   U32(RuleCondition, ToU32(Numeral(StripEol(lines[1])[10..], 10).value))]
                  + Nest(RulePatterns, NumberPatterns(PatternTexts(lines[2]), patnum + 1)))
  }

  /** Zero or more complete rules and nothing else. */
  predicate AllRules(lines: seq<string>) {
    |lines| % 3 == 0 && forall k :: 0 <= k < |lines| / 3 ==> IsRule(lines[3 * k..])
  }

  function RulesToks(lines: seq<string>, n: nat, patnum: nat): Msg
    requires AllRules(lines)
  {
    if lines == [] then []
    else
      assert IsRule(lines[3 * 0..]);
      AllRulesTail(lines);
      RuleToks(lines, n, patnum) + RulesToks(lines[3..], n + 1, patnum + |PatternTexts(lines[2])|)
  }

  lemma AllRulesTail(lines: seq<string>)
    requires |lines| >= 3
    ensures AllRules(lines) <==> IsRule(lines) && AllRules(lines[3..])
  {
    hide IsRule;
    var tail, n := lines[3..], |lines| / 3;
    assert |tail| / 3 == n - 1 && lines[3 * 0..] == lines;
    forall k | 1 <= k < n
      ensures lines[3 * k..] == tail[3 * (k - 1)..]
    {
    }
    if AllRules(lines) {
      assert IsRule(lines[3 * 0..]);
      forall k | 0 <= k < n - 1
        ensures IsRule(tail[3 * k..])
      {
        assert tail[3 * k..] == lines[3 * (k + 1)..];
      }
    }
  }

  lemma {:induction false} PatternsTurnAll(texts: seq<string>, s: Vars)
    ensures AllPatterns(texts) ==>
              PatternsTurn(texts, s)
              == Next(Vars(WantDelay, s.ruleNum, s.patnum + |texts|,
                           s.msg + NumberPatterns(texts, s.patnum + 1) + [Close, Close]))
    ensures !AllPatterns(texts) ==> !PatternsTurn(texts, s).Next?
  {
    hide PatternArg, PatternToks;
    if texts == [] {
      assert s.msg + [] == s.msg;
    } else {
      var p := PatternArg(texts[0]);
      assert AllPatterns(texts) <==> p.PatOk? && AllPatterns(texts[1..]) by {
        assert texts == [texts[0]] + texts[1..];
      }
      if p.PatOk? {
        PatternsTurnAll(texts[1..], AddPattern(s, p));
        if AllPatterns(texts) {
          assert s.msg + PatternToks(s.patnum + 1, p) + NumberPatterns(texts[1..], s.patnum + 2)
              == s.msg + NumberPatterns(texts, s.patnum + 1);
        }
      }
    }
  }

  /** Lines that match their place go on, all others do not. */
  lemma DelayTurn(raw: string, s: Vars)
    requires s.state.WantDelay?
    ensures IsDelay(raw) ==>
              LineTurn(raw, s)
              == Next(Vars(WantCondition, s.ruleNum + 1, s.patnum,
                           s.msg + [Open(Item(s.ruleNum + 1)),
                                    U32(RuleDelay, ToU32(Numeral(StripEol(raw)[6..], 10).value))]))
    ensures !IsDelay(raw) ==> LineTurn(raw, s).Fail?
  {
    hide Strtoul, StripEol;
  }

  lemma ConditionTurn(raw: string, s: Vars)
    requires s.state.WantCondition?
    ensures IsCondition(raw) ==>
              LineTurn(raw, s)
              == Next(s.(state := WantPatterns,
                         msg := s.msg + [U32(RuleCondition, ToU32(Numeral(StripEol(raw)[10..], 10).value))]))
    ensures !IsCondition(raw) ==> LineTurn(raw, s).Fail?
  {
    hide Strtoul, StripEol;
  }

  lemma PatternLineTurn(raw: string, s: Vars)
    requires s.state.WantPatterns?
    ensures IsPatterns(raw) ==>
              LineTurn(raw, s)
              == Next(Vars(WantDelay, s.ruleNum, s.patnum + |PatternTexts(raw)|,
                           s.msg + Nest(RulePatterns, NumberPatterns(PatternTexts(raw), s.patnum + 1)) + [Close]))
    ensures !IsPatterns(raw) ==> !LineTurn(raw, s).Next?
  {
    hide Strtoul, StripEol, PatternArg, Split;
    var line := StripEol(raw);
    if PATTERNS <= line {
      var texts := Split(line[9..], ',');
      PatternsTurnAll(texts, s.(msg := s.msg + [Open(RulePatterns)]));
      if AllPatterns(texts) {
        NestThenClose(s.msg, RulePatterns, NumberPatterns(texts, s.patnum + 1));
      }
    }
  }

  lemma NestThenClose(m: Msg, attr: Attr, inner: Msg)
    ensures m + [Open(attr)] + inner + [Close, Close] == m + Nest(attr, inner) + [Close]
  {
  }

  predicate Accepted(r: Result) {
    r.Done? && r.err == 0
  }

  /** Three lines are read as one rule, or the run does not succeed. */
  lemma RuleTurns(lines: seq<string>, s: Vars)
    requires |lines| >= 3 && s.state.WantDelay?
    ensures IsRule(lines) ==>
              Run(lines, s)
              == Run(lines[3..], Vars(WantDelay, s.ruleNum + 1, s.patnum + |PatternTexts(lines[2])|,
                                      s.msg + RuleToks(lines, s.ruleNum + 1, s.patnum)))
    ensures !IsRule(lines) ==> !Accepted(Run(lines, s))
  {
    hide Run, LineTurn, StripEol, Numeral, NumberPatterns, IsDelay, IsCondition, IsPatterns;
    RunLine(lines, s);
    DelayTurn(lines[0], s);
    if IsDelay(lines[0]) {
      var s1 := LineTurn(lines[0], s).s;
      RunLine(lines[1..], s1);
      ConditionTurn(lines[1], s1);
      if IsCondition(lines[1]) {
        var s2 := LineTurn(lines[1], s1).s;
        assert lines[1..][1..] == lines[2..];
        RunLine(lines[2..], s2);
        PatternLineTurn(lines[2], s2);
        assert lines[2..][1..] == lines[3..];
        if IsPatterns(lines[2]) {
          RuleAssembled(lines, s);
        }
      }
    }
  }

  lemma RuleAssembled(lines: seq<string>, s: Vars)
    requires |lines| >= 3 && IsRule(lines)
    ensures s.msg + [Open(Item(s.ruleNum + 1)), U32(RuleDelay, ToU32(Numeral(StripEol(lines[0])[6..], 10).value))]
            + [U32(RuleCondition, ToU32(Numeral(StripEol(lines[1])[10..], 10).value))]
            + Nest(RulePatterns, NumberPatterns(PatternTexts(lines[2]), s.patnum + 1)) + [Close]
         == s.msg + RuleToks(lines, s.ruleNum + 1, s.patnum)
  {
    hide Numeral, StripEol, NumberPatterns, PatternArg;
  }

  /** An unfinished rule is not accepted. */
  lemma ShortRun(lines: seq<string>, s: Vars)
    requires s.state.WantDelay? && 1 <= |lines| <= 2
    ensures !Accepted(Run(lines, s)) && Run(lines, s) != Undefined
  {
    hide Run, LineTurn, StripEol, Numeral, IsDelay, IsCondition;
    RunLine(lines, s);
    DelayTurn(lines[0], s);
    if IsDelay(lines[0]) {
      var s1 := LineTurn(lines[0], s).s;
      if |lines| == 1 {
        assert lines[1..] == [];
        RunEnd(s1);
      } else {
        RunLine(lines[1..], s1);
        ConditionTurn(lines[1], s1);
        if IsCondition(lines[1]) {
          assert lines[1..][1..] == [];
          RunEnd(LineTurn(lines[1], s1).s);
        }
      }
    }
  }

  /** A configuration is accepted iff it is zero or more complete rules with valid contents. Then
      rules are numbered on in order and patterns consecutively across rules. */
  lemma {:induction false} AcceptedIff(lines: seq<string>, s: Vars)
    requires s.state.WantDelay?
    ensures Accepted(Run(lines, s)) <==> AllRules(lines)
    ensures AllRules(lines) ==> Run(lines, s).msg == s.msg + RulesToks(lines, s.ruleNum + 1, s.patnum) + [Close]
    decreases |lines|
  {
    hide Run, RuleToks, IsDelay, IsCondition, IsPatterns;
    if lines == [] {
      RunEnd(s);
      assert s.msg + [] == s.msg;
    } else if |lines| < 3 {
      ShortRun(lines, s);
    } else {
      RuleTurns(lines, s);
      AllRulesTail(lines);
      if IsRule(lines) {
        var t := Vars(WantDelay, s.ruleNum + 1, s.patnum + |PatternTexts(lines[2])|,
                      s.msg + RuleToks(lines, s.ruleNum + 1, s.patnum));
        AcceptedIff(lines[3..], t);
        if AllRules(lines) {
          assert t.msg + RulesToks(lines[3..], s.ruleNum + 2, t.patnum)
              == s.msg + RulesToks(lines, s.ruleNum + 1, s.patnum);
        }
      }
    }
  }

  /** The whole command, from its start: rules numbered from 1, patterns from 1, one outer nest. */
  lemma CommandAcceptedIff(lines: seq<string>)
    ensures Accepted(Handle(lines)) <==> AllRules(lines)
    ensures AllRules(lines) ==> Handle(lines).msg == Nest(CoalesceRules, RulesToks(lines, 1, 0))
    ensures AllRules(lines) ==> Balanced(Handle(lines).msg)
  {
    hide Run, AllRules, RulesToks;
    AcceptedIff(lines, START);
    FirstLineLong(lines);
    if AllRules(lines) {
      RulesBalanced(lines, 1, 0);
      BalancedNest(CoalesceRules, RulesToks(lines, 1, 0));
    }
  }

  lemma FirstLineLong(lines: seq<string>)
    ensures AllRules(lines) ==> !Unwritten(lines)
  {
    hide IsCondition, IsPatterns, Numeral, IndexOf;
    if AllRules(lines) && lines != [] {
      assert IsRule(lines[3 * 0..]);
    }
  }

  lemma {:induction false} RulesBalanced(lines: seq<string>, n: nat, patnum: nat)
    requires AllRules(lines)
    ensures Balanced(RulesToks(lines, n, patnum))
    decreases |lines|
  {
    hide Balanced, IsDelay, IsCondition, IsPatterns, RuleToks;
    if lines == [] {
      BalancedEmpty();
    } else {
      AllRulesTail(lines);
      RuleBalanced(lines, n, patnum);
      var p := patnum + |PatternTexts(lines[2])|;
      RulesBalanced(lines[3..], n + 1, p);
      BalancedConcat(RuleToks(lines, n, patnum), RulesToks(lines[3..], n + 1, p));
    }
  }

  lemma RuleBalanced(lines: seq<string>, n: nat, patnum: nat)
    requires |lines| >= 3 && IsRule(lines)
    ensures Balanced(RuleToks(lines, n, patnum))
  {
    hide Numeral, StripEol, NumberPatterns, PatternArg;
    var pats := NumberPatterns(PatternTexts(lines[2]), patnum + 1);
    NumberPatternsBalanced(PatternTexts(lines[2]), patnum + 1);
    BalancedNest(RulePatterns, pats);
    var head := [U32(RuleDelay, ToU32(Numeral(StripEol(lines[0])[6..], 10).value)),
                 U32(RuleCondition, ToU32(Numeral(StripEol(lines[1])[10..], 10).value))];
    assert Level(head[1..][1..], 0) == Some(0);
    assert Level(head[1..], 0) == Some(0);
    BalancedConcat(head, Nest(RulePatterns, pats));
    BalancedNest(Item(n), head + Nest(RulePatterns, pats));
  }

  // ----- Exactly when a file leaves defined behaviour -------------------

  /** A patterns line with a text that runs over its buffers, behind good ones. */
  predicate LosesLine(raw: string) {
    var l := StripEol(raw);
    PATTERNS <= l && Loses(Split(l[9..], ','), false)
  }

  /** The rule at line n is the first that is not complete and valid, and it fails that way. */
  predicate LosesRule(lines: seq<string>, n: nat) {
    && n + 2 < |lines| && AllRules(lines[..n])
    && IsDelay(lines[n]) && IsCondition(lines[n + 1]) && LosesLine(lines[n + 2])
  }

  lemma {:induction false} PatternsTurnLost(texts: seq<string>, s: Vars)
    ensures PatternsTurn(texts, s) == Lost <==> Loses(texts, false)
  {
    hide PatternArg, PatternToks, Loses;
    if texts == [] {
      LosesNothing(false);
    } else {
      LosesStep(texts, false);
      ArgumentIff(texts[0]);
      if PatternArg(texts[0]).PatOk? {
        PatternsTurnLost(texts[1..], AddPattern(s, PatternArg(texts[0])));
      }
    }
  }

  /** Three lines that are no rule lose the run iff the third is reached and loses it. */
  lemma RuleLost(lines: seq<string>, s: Vars)
    requires |lines| >= 3 && s.state.WantDelay? && !IsRule(lines)
    ensures Run(lines, s) == Undefined <==> IsDelay(lines[0]) && IsCondition(lines[1]) && LosesLine(lines[2])
  {
    hide Run, LineTurn, StripEol, Numeral, NumberPatterns, IsDelay, IsCondition, IsPatterns, LosesLine;
    RunLine(lines, s);
    DelayTurn(lines[0], s);
    if IsDelay(lines[0]) {
      var s1 := LineTurn(lines[0], s).s;
      RunLine(lines[1..], s1);
      ConditionTurn(lines[1], s1);
      if IsCondition(lines[1]) {
        var s2 := LineTurn(lines[1], s1).s;
        assert lines[1..][1..] == lines[2..];
        RunLine(lines[2..], s2);
        PatternLineTurn(lines[2], s2);
        PatternLineLost(lines[2], s2);
      }
    }
  }

  lemma PatternLineLost(raw: string, s: Vars)
    requires s.state.WantPatterns?
    ensures LineTurn(raw, s) == Lost <==> LosesLine(raw)
    ensures LosesLine(raw) ==> !IsPatterns(raw)
  {
    hide StripEol, PatternArg, Split, Loses;
    var line := StripEol(raw);
    if PATTERNS <= line {
      var texts := Split(line[9..], ',');
      PatternsTurnLost(texts, s.(msg := s.msg + [Open(RulePatterns)]));
      LosesNotGood(texts, false);
    }
  }

  lemma LosesRuleStep(lines: seq<string>, n: nat)
    requires 3 <= n <= |lines|
    ensures LosesRule(lines, n) <==> IsRule(lines) && LosesRule(lines[3..], n - 3)
  {
    hide IsDelay, IsCondition, IsPatterns, LosesLine, AllRules;
    var before := lines[..n];
    AllRulesTail(before);
    assert before[3..] == lines[3..][..n - 3];
  }

  /** The first line that could lose the run is the third. */
  lemma LosesFirst(lines: seq<string>, n: nat)
    requires n < 3
    ensures LosesRule(lines, n) ==> n == 0 && |lines| >= 3 && !IsRule(lines)
  {
    hide IsDelay, IsCondition, IsPatterns, LosesLine, AllRules, LineTurn;
    if n < |lines| {
      WholeRules(lines[..n]);
    }
    if |lines| >= 3 {
      PatternLineLost(lines[2], START.(state := WantPatterns));
    }
  }

  lemma WholeRules(lines: seq<string>)
    ensures AllRules(lines) ==> |lines| % 3 == 0
  {
  }

  predicate LosesSome(lines: seq<string>) {
    exists n: nat | n < |lines| :: LosesRule(lines, n)
  }

  lemma LosesSomeStep(lines: seq<string>)
    ensures |lines| < 3 ==> !LosesSome(lines)
    ensures |lines| >= 3 ==>
              (LosesSome(lines) <==> if IsRule(lines) then LosesSome(lines[3..]) else LosesRule(lines, 0))
  {
    hide IsRule, LosesRule;
    if LosesSome(lines) {
      var n: nat :| n < |lines| && LosesRule(lines, n);
      if n < 3 {
        LosesFirst(lines, n);
      } else {
        LosesRuleStep(lines, n);
      }
    }
    if |lines| >= 3 && IsRule(lines) && LosesSome(lines[3..]) {
      var n: nat :| n < |lines[3..]| && LosesRule(lines[3..], n);
      LosesRuleStep(lines, n + 3);
      assert LosesRule(lines, n + 3);
    }
  }

  /** A file leaves defined behaviour iff, behind complete valid rules, a rule with a valid delay and
      condition has a pattern that runs over its buffers, behind good ones. */
  lemma {:induction false} UndefinedIff(lines: seq<string>, s: Vars)
    requires s.state.WantDelay?
    ensures Run(lines, s) == Undefined <==> LosesSome(lines)
    decreases |lines|
  {
    hide Run, RuleToks, LosesSome, IsDelay, IsCondition, IsPatterns, LosesLine;
    LosesSomeStep(lines);
    if lines == [] {
      RunEnd(s);
    } else if |lines| < 3 {
      ShortRun(lines, s);
    } else {
      RuleTurns(lines, s);
      if IsRule(lines) {
        UndefinedIff(lines[3..], Vars(WantDelay, s.ruleNum + 1, s.patnum + |PatternTexts(lines[2])|,
                                      s.msg + RuleToks(lines, s.ruleNum + 1, s.patnum)));
      } else {
        RuleLost(lines, s);
      }
    }
  }

  /** The whole command, from its start. */
  lemma CommandUndefinedIff(lines: seq<string>)
    ensures Handle(lines) == Undefined <==> Unwritten(lines) || LosesSome(lines)
  {
    hide Run, LosesSome;
    UndefinedIff(lines, START);
  }

  /** A file of one short line is neither accepted nor refused. */
  lemma ShortLine()
    ensures Handle(["x\n"]) == Undefined
  {
  }

  /** The branch that would skip comment lines is never reached: no file with one is accepted. */
  lemma CommentsRejected(lines: seq<string>, i: nat)
    requires i < |lines| && lines[i] != [] && lines[i][0] == '#'
    ensures !Accepted(Handle(lines))
  {
    hide Handle, IsDelay, IsCondition, IsPatterns, RulesToks;
    CommandAcceptedIff(lines);
    if AllRules(lines) {
      var k := i / 3;
      assert IsRule(lines[3 * k..]);
      assert lines[i] == lines[3 * k..][i - 3 * k];
      FirstCharacter(lines[i]);
    }
  }

  lemma FirstCharacter(raw: string)
    requires raw != []
    ensures IsDelay(raw) || IsCondition(raw) || IsPatterns(raw) ==> raw[0] in "dcp"
  {
    hide Numeral, AllPatterns;
    var l := StripEol(raw);
    assert l != [] ==> l[0] == raw[0];
  }

  // ----- Files in plain terms -------------------------------------------

  datatype Rule = Rule(delay: nat, condition: nat, patterns: seq<Given>)

  predicate ValidRule(r: Rule) {
    r.delay < UINT_RANGE && r.condition < UINT_RANGE && r.patterns != [] && AllValid(r.patterns)
  }

  /** How a line may end; the last one of a file may have no end. */
  predicate IsEol(eol: string) {
    eol == "" || eol == "\n" || eol == "\r\n"
  }

  predicate NoEol(s: string) {
    '\r' !in s && '\n' !in s
  }

  /** Whatever ends a line is cut off, and nothing else. */
  lemma EolCut(l: string, eol: string)
    requires |l| >= 5 && NoEol(l) && IsEol(eol)
    ensures StripEol(l + eol) == l
  {
    hide IndexOf;
    var line, tail := l + eol, l[5..];
    assert forall c :: c in tail ==> c in l;
    assert line[5..] == tail + eol;
    IndexOfPrefix(tail, '\r', "\n");
    IndexOfPrefix(tail, '\n', "");
    EndOfLine(tail, eol);
    assert tail + "" == tail && l == l[..5] + tail;
    var cut := line[..5 + IndexOf(line[5..], '\r')];
    assert cut == if eol == "\n" then line else l;
    assert cut[5..] == if eol == "\n" then tail + eol else tail;
  }

  lemma EndOfLine(tail: string, eol: string)
    requires NoEol(tail) && IsEol(eol)
    ensures IndexOf(tail + eol, '\r') == if eol == "\n" then |tail| + 1 else |tail|
    ensures IndexOf(tail + "\n", '\n') == |tail|
  {
    IndexOfPrefix(tail, '\n', "");
    assert tail + ['\n'] + "" == tail + "\n";
    if eol == "\r\n" {
      IndexOfPrefix(tail, '\r', "\n");
      assert tail + ['\r'] + "\n" == tail + eol;
    } else {
      IndexOfPrefix(tail + eol, '\r', "");
    }
  }

  /** The three lines of a rule: numbers in decimal, patterns separated by commas. */
  function RuleLines(r: Rule, eols: seq<string>): (lines: seq<string>)
    requires r.patterns != [] && |eols| >= 3
    ensures |lines| == 3
  {
    ["delay=" + Dec(r.delay) + eols[0],
     "condition=" + Dec(r.condition) + eols[1],
     "patterns=" + Join(GivenTexts(r.patterns), ',') + eols[2]]
  }

  predicate AllValidRules(rules: seq<Rule>) {
    forall i :: 0 <= i < |rules| ==> ValidRule(rules[i])
  }

  predicate AllEols(eols: seq<string>) {
    forall i :: 0 <= i < |eols| ==> IsEol(eols[i])
  }

  function FileLines(rules: seq<Rule>, eols: seq<string>): seq<string>
    requires AllValidRules(rules) && |eols| == 3 * |rules|
  {
    if rules == [] then [] else RuleLines(rules[0], eols) + FileLines(rules[1..], eols[3..])
  }

  /** What a rule is to put. */
  function RuleGiven(r: Rule, n: nat, patnum: nat): Msg {
    [Open(Item(n)), U32(RuleDelay, r.delay), U32(RuleCondition, r.condition), Open(RulePatterns)]
    + GivenAll(r.patterns, patnum + 1) + [Close, Close]
  }

  function RulesGiven(rules: seq<Rule>, n: nat, patnum: nat): Msg {
    if rules == [] then []
    else RuleGiven(rules[0], n, patnum) + RulesGiven(rules[1..], n + 1, patnum + |rules[0].patterns|)
  }

  /** A line made of a keyword, a text without line ends and an end is cut back to the text. */
  lemma KeywordLine(word: string, s: string, eol: string)
    requires |word| >= 5 && NoEol(word) && NoEol(s) && IsEol(eol)
    ensures StripEol(word + s + eol) == word + s && word <= word + s && (word + s)[|word|..] == s
  {
    hide StripEol;
    assert NoEol(word + s);
    EolCut(word + s, eol);
  }

  lemma NumberLine(word: string, n: nat, eol: string)
    requires |word| >= 5 && NoEol(word) && n < UINT_RANGE && IsEol(eol)
    ensures var l := StripEol(word + Dec(n) + eol);
            word <= l && Numeral(l[|word|..], 10) == Some(n) && ToU32(n) == n
  {
    hide StripEol, Numeral, Dec;
    DecU32(n);
    PlainHas(Dec(n));
    KeywordLine(word, Dec(n), eol);
  }

  lemma PatternsLine(gs: seq<Given>, eol: string)
    requires gs != [] && AllValid(gs) && IsEol(eol)
    ensures var raw := "patterns=" + Join(GivenTexts(gs), ',') + eol;
            IsPatterns(raw) && PatternTexts(raw) == GivenTexts(gs)
  {
    hide StripEol, Join, Split, PatternArg, GivenText;
    var ts := GivenTexts(gs);
    forall i | 0 <= i < |ts|
      ensures ',' !in ts[i] && NoEol(ts[i])
    {
      GivenPlain(gs[i]);
    }
    JoinNoEol(ts);
    SplitJoin(ts, ',');
    KeywordLine(PATTERNS, Join(ts, ','), eol);
    GivenNumbered(gs, 1);
  }

  lemma {:induction false} JoinNoEol(ts: seq<string>)
    requires |ts| >= 1 && forall i :: 0 <= i < |ts| ==> NoEol(ts[i])
    ensures NoEol(Join(ts, ','))
  {
    if |ts| > 1 {
      JoinNoEol(ts[1..]);
    }
  }

  /** The lines of a rule are a rule, and what is put is what the rule says. */
  lemma RuleRead(r: Rule, eols: seq<string>, rest: seq<string>, n: nat, patnum: nat)
    requires ValidRule(r) && |eols| >= 3 && AllEols(eols)
    ensures var lines := RuleLines(r, eols) + rest;
            && IsRule(lines) && lines[3..] == rest
            && RuleToks(lines, n, patnum) == RuleGiven(r, n, patnum)
            && |PatternTexts(lines[2])| == |r.patterns|
  {
    hide StripEol, Numeral, Dec, Join, NumberPatterns, GivenAll, GivenTexts, AllPatterns, AllValid, IsEol, Split;
    NumberLine("delay=", r.delay, eols[0]);
    NumberLine("condition=", r.condition, eols[1]);
    PatternsLine(r.patterns, eols[2]);
    GivenNumbered(r.patterns, patnum + 1);
  }

  lemma {:induction false} RulesRead(rules: seq<Rule>, eols: seq<string>, n: nat, patnum: nat)
    requires AllValidRules(rules) && |eols| == 3 * |rules| && AllEols(eols)
    ensures AllRules(FileLines(rules, eols))
    ensures RulesToks(FileLines(rules, eols), n, patnum) == RulesGiven(rules, n, patnum)
    decreases |rules|
  {
    hide IsRule, RuleToks, RuleGiven, RuleLines, PatternTexts, ValidRule, IsEol;
    if rules != [] {
      var rest := FileLines(rules[1..], eols[3..]);
      RuleRead(rules[0], eols, rest, n, patnum);
      RulesRead(rules[1..], eols[3..], n + 1, patnum + |rules[0].patterns|);
      AllRulesTail(FileLines(rules, eols));
    }
  }

  /** Every file of rules is accepted, and what is put is exactly its rules: delays, conditions and
      offsets as the numbers given, patterns as the elements given, all numbered from 1. */
  lemma FileAccepted(rules: seq<Rule>, eols: seq<string>)
    requires AllValidRules(rules) && |eols| == 3 * |rules| && AllEols(eols)
    ensures Handle(FileLines(rules, eols)) == Done(0, Nest(CoalesceRules, RulesGiven(rules, 1, 0)))
  {
    hide Handle, FileLines, AllRules, RulesToks, RulesGiven, Nest;
    RulesRead(rules, eols, 1, 0);
    CommandAcceptedIff(FileLines(rules, eols));
  }

  /** A refused file returns 1. */
  lemma {:induction false} RunErrors(lines: seq<string>, s: Vars)
    ensures Run(lines, s).Done? ==> Run(lines, s).err == 0 || Run(lines, s).err == 1
  {
    hide Run, LineTurn;
    if lines == [] {
      RunEnd(s);
    } else {
      RunLine(lines, s);
      var turn := LineTurn(lines[0], s);
      if turn.Next? {
        RunErrors(lines[1..], turn.s);
      }
    }
  }
}
