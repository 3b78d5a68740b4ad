/** `handle_wowlan_enable`: the trigger parser around net-detect and the pattern list. */
module Wowlan {
  import opened CText
  import opened NlMessage
  import NetDetect
  import opened NetDetectGrammar

  /** What reading a TCP configuration file gives; files that are missing here cannot be opened. */
  datatype TcpFile = TcpFile(err: int, toks: Msg)
  type Files = map<string, TcpFile>

  datatype Mode = Triggers | Patterns

  datatype Vars = Vars(mode: Mode, msg: Msg, patterns: Msg, patnum: nat)

  /** `Undefined` stands for the null pattern passed on by the handler, and for a pattern text
      that runs over its buffers. */
  datatype Result = Done(err: int, msg: Msg) | Undefined

  function FlagOf(a: string): Option<Attr> {
    if a == "any" then Some(TrigAny)
    else if a == "disconnect" then Some(TrigDisconnect)
    else if a == "magic-packet" then Some(TrigMagicPkt)
    else if a == "gtk-rekey-failure" then Some(TrigGtkRekeyFailure)
    else if a == "eap-identity-request" then Some(TrigEapIdentRequest)
    else if a == "4way-handshake" then Some(Trig4WayHandshake)
    else if a == "rfkill-release" then Some(TrigRfkillRelease)
    else None
  }

  function ReadTcp(files: Files, name: string): TcpFile {
    if name in files then files[name] else TcpFile(1, [])
  }

  /** The handler from some point on: arguments left and local variables. */
  function Enable(args: seq<string>, s: Vars, files: Files): Result
    decreases |args|
  {
    if args == [] then Done(0, Closed(s))
    else match s.mode
      case Triggers => TriggerTurn(args, s, files)
      case Patterns =>
        match PatternArg(args[0])
        case PatOk(_, _) => Enable(args[1..], AddPattern(s, PatternArg(args[0])), files)
        case PatRefused => Done(1, s.msg)
        case PatUndefined => Undefined
        case PatMissing => Undefined
  }

  function TriggerTurn(args: seq<string>, s: Vars, files: Files): Result
    requires args != []
    decreases |args|, 0
  {
    var flag := FlagOf(args[0]);
    if flag.Some? then Enable(args[1..], s.(msg := s.msg + [Flag(flag.value)]), files)
    else if args[0] == "tcp" then
      if |args| == 1 then Done(1, s.msg)
      else
        var f := ReadTcp(files, args[1]);
        if f.err != 0 then Done(f.err, s.msg + f.toks) else Enable(args[2..], s.(msg := s.msg + f.toks), files)
    else if args[0] == "patterns" then Enable(args[1..], s.(mode := Patterns), files)
    else if args[0] == "net-detect" then
      if |args| == 1 then Done(1, s.msg)
      else
        var nd := NetDetect.NetDetectEnd(args[1..]);
        if nd.err != 0 then Done(nd.err, s.msg + nd.msg)
        else Enable(nd.args, s.(msg := s.msg + nd.msg), files)
    else Done(1, s.msg)
  }

  function AddPattern(s: Vars, p: PatArg): Vars
    requires p.PatOk?
  {
    s.(patnum := s.patnum + 1, patterns := s.patterns + PatternToks(s.patnum + 1, p))
  }

  /** The message once all arguments are used up. */
  function Closed(s: Vars): Msg {
    s.msg + (if s.mode.Patterns? then Nest(TrigPktPattern, s.patterns) else []) + [Close]
  }

  const START := Vars(Triggers, [Open(WowlanTriggers)], [], 0)

  /** The handler over its cursor; the loop goes on without moving only after net-detect. */
  method HandleEnable(argv: seq<string>, files: Files) returns (r: Result)
    ensures r == Enable(argv, START, files)
  {
    hide Enable, PatternArg, FlagOf, NetDetect.NetDetectEnd;
    var pos, mode, patnum := 0, Triggers, 0;
    var msg: Msg, patterns: Msg := [Open(WowlanTriggers)], [];
    assert argv[0..] == argv;
    while pos < |argv|
      invariant pos <= |argv|
      invariant Enable(argv, START, files) == Enable(argv[pos..], Vars(mode, msg, patterns, patnum), files)
      decreases |argv| - pos
    {
      ghost var s := Vars(mode, msg, patterns, patnum);
      EnableTurn(argv[pos..], s, files);
      if mode == Patterns {
        var p := ReadPatternArg(argv[pos]);
        if p.PatRefused? {
          return Done(1, msg);
        }
        if p.PatUndefined? || p.PatMissing? {
          return Undefined;
        }
        patnum := patnum + 1;
        patterns := patterns + PatternToks(patnum, p);
      } else {
        var flag := FlagOf(argv[pos]);
        if flag.Some? {
          msg := msg + [Flag(flag.value)];
        } else if argv[pos] == "tcp" {
          pos := pos + 1;
          if pos == |argv| {
            return Done(1, msg);
          }
          var f := ReadTcp(files, argv[pos]);
          msg := msg + f.toks;
          if f.err != 0 {
            return Done(f.err, msg);
          }
        } else if argv[pos] == "patterns" {
          mode := Patterns;
        } else if argv[pos] == "net-detect" {
          assert argv[pos..][1..] == argv[pos + 1..];
          pos := pos + 1;
          if pos == |argv| {
            return Done(1, msg);
          }
          var err, ndMsg;
          err, pos, ndMsg := NetDetect.ParseNetDetect(argv, pos);
          msg := msg + ndMsg;
          if err != 0 {
            return Done(err, msg);
          }
          continue;
        } else {
          return Done(1, msg);
        }
      }
      pos := pos + 1;
    }
    assert argv[pos..] == [];
    EnableEnd(Vars(mode, msg, patterns, patnum), files);
    if mode == Patterns {
      msg := msg + Nest(TrigPktPattern, patterns);
    }
    r := Done(0, msg + [Close]);
  }

  lemma EnableTurn(args: seq<string>, s: Vars, files: Files)
    requires args != []
    ensures Enable(args, s, files)
         == match s.mode
            case Triggers => TriggerTurn(args, s, files)
            case Patterns =>
              match PatternArg(args[0])
              case PatOk(_, _) => Enable(args[1..], AddPattern(s, PatternArg(args[0])), files)
              case PatRefused => Done(1, s.msg)
              case PatUndefined => Undefined
              case PatMissing => Undefined
  {
  }

  lemma EnableEnd(s: Vars, files: Files)
    ensures Enable([], s, files) == Done(0, Closed(s))
  {
  }

  // ----- Patterns -------------------------------------------------------

  /** After the word "patterns" every argument is a pattern. They are all put, numbered on from
      the ones before, or the command fails. */
  lemma {:induction false} PatternsNumbered(args: seq<string>, s: Vars, files: Files)
    requires s.mode.Patterns?
    ensures AllPatterns(args) ==>
              Enable(args, s, files)
              == Done(0, s.msg + Nest(TrigPktPattern, s.patterns + NumberPatterns(args, s.patnum + 1)) + [Close])
    ensures !AllPatterns(args) ==> Enable(args, s, files) == Done(1, s.msg) || Enable(args, s, files) == Undefined
  {
    hide Enable, PatternArg, Nest;
    if args == [] {
      EnableEnd(s, files);
      assert s.patterns + [] == s.patterns;
    } else {
      EnableTurn(args, s, files);
      var p := PatternArg(args[0]);
      if p.PatOk? {
        PatternsNumbered(args[1..], AddPattern(s, p), files);
        assert AllPatterns(args) <==> AllPatterns(args[1..]) by {
          assert args == [args[0]] + args[1..];
        }
        if AllPatterns(args) {
          assert s.patterns + PatternToks(s.patnum + 1, p) + NumberPatterns(args[1..], s.patnum + 2)
              == s.patterns + NumberPatterns(args, s.patnum + 1);
        }
      }
    }
  }

  /** In the pattern list the handler leaves defined behaviour exactly when, after patterns that are
      all good, one has no character but '+' or runs over its buffers. */
  lemma {:induction false} UndefinedIff(args: seq<string>, s: Vars, files: Files)
    requires s.mode.Patterns?
    ensures Enable(args, s, files) == Undefined <==> Loses(args, true)
  {
    hide Enable, PatternArg, Loses;
    if args == [] {
      EnableEnd(s, files);
      LosesNothing(true);
    } else {
      EnableTurn(args, s, files);
      LosesStep(args, true);
      ArgumentIff(args[0]);
      var p := PatternArg(args[0]);
      if p.PatOk? {
        UndefinedIff(args[1..], AddPattern(s, p), files);
      }
    }
  }

  // ----- The language of the command ------------------------------------

  datatype Trigger = FlagTrigger(name: string) | TcpTrigger(file: string) | NetDetectTrigger(opts: seq<Opt>)

  /** Triggers, and the patterns behind the word "patterns" where it is given. */
  datatype Command = Command(triggers: seq<Trigger>, patterns: Option<seq<string>>)

  function RenderTrigger(t: Trigger): (v: seq<string>)
    ensures v != []
  {
    match t
    case FlagTrigger(name) => [name]
    case TcpTrigger(file) => ["tcp", file]
    case NetDetectTrigger(opts) => ["net-detect"] + RenderAll(opts)
  }

  function RenderTriggers(ts: seq<Trigger>): (v: seq<string>)
    ensures v == [] <==> ts == []
  {
    if ts == [] then [] else RenderTrigger(ts[0]) + RenderTriggers(ts[1..])
  }

  function RenderCommand(c: Command): seq<string> {
    RenderTriggers(c.triggers) + if c.patterns.Some? then ["patterns"] + c.patterns.value else []
  }

  /** `more` says whether arguments follow: net-detect needs at least one argument, its own or not,
      and may leave a list empty only as the very last thing on the line. */
  predicate ValidTrigger(t: Trigger, more: bool, files: Files) {
    match t
    case FlagTrigger(name) => FlagOf(name).Some?
    case TcpTrigger(file) => ReadTcp(files, file).err == 0
    case NetDetectTrigger(opts) =>
      Acceptable(opts, NOTHING) && (if more then NonEmptyLists(opts) else opts != [])
  }

  predicate ValidTriggers(ts: seq<Trigger>, more: bool, files: Files) {
    ts != [] ==> ValidTrigger(ts[0], more || |ts| > 1, files) && ValidTriggers(ts[1..], more, files)
  }

  predicate ValidCommand(c: Command, files: Files) {
    && ValidTriggers(c.triggers, c.patterns.Some?, files)
    && (c.patterns.Some? ==> AllPatterns(c.patterns.value))
  }

  /** What a trigger puts. Net-detect with arguments behind it does not put its lists. */
  function TriggerMsg(t: Trigger, more: bool, files: Files): Msg
    requires ValidTrigger(t, more, files)
  {
    match t
    case FlagTrigger(name) => [Flag(FlagOf(name).value)]
    case TcpTrigger(file) => ReadTcp(files, file).toks
    case NetDetectTrigger(opts) => Nest(TrigNetDetect, if more then Scalars(opts) else Emitted(opts))
  }

  function TriggerMsgs(ts: seq<Trigger>, more: bool, files: Files): Msg
    requires ValidTriggers(ts, more, files)
  {
    if ts == [] then [] else TriggerMsg(ts[0], more || |ts| > 1, files) + TriggerMsgs(ts[1..], more, files)
  }

  function CommandMsg(c: Command, files: Files): Msg
    requires ValidCommand(c, files)
  {
    Nest(WowlanTriggers,
         TriggerMsgs(c.triggers, c.patterns.Some?, files)
         + if c.patterns.Some? then Nest(TrigPktPattern, NumberPatterns(c.patterns.value, 1)) else [])
  }

  /** A word net-detect never takes for its own. */
  predicate Foreign(a: string) {
    !IsKeyword(a) && a != "ssid" && Numeral(a, 10).None?
  }

  predicate IsTrigger(a: string) {
    FlagOf(a).Some? || a == "tcp" || a == "patterns" || a == "net-detect"
  }

  lemma TriggerIsForeign(a: string)
    requires IsTrigger(a)
    ensures Foreign(a)
  {
    hide Numeral;
    NoNumeral(a, if a == "4way-handshake" then 1 else 0);
  }

  lemma RunTrigger(t: Trigger, tail: seq<string>, s: Vars, files: Files)
    requires s.mode.Triggers? && ValidTrigger(t, tail != [], files)
    requires tail != [] ==> Foreign(tail[0])
    ensures Enable(RenderTrigger(t) + tail, s, files)
         == Enable(tail, s.(msg := s.msg + TriggerMsg(t, tail != [], files)), files)
  {
    hide Enable, PatternArg, FlagOf, TriggerTurn, Acceptable, Foreign, NonEmptyLists, ReadTcp, Nest, Emitted, Scalars,
         RenderAll, NetDetect.Run;
    var v := RenderTrigger(t) + tail;
    EnableTurn(v, s, files);
    TurnIs(v, s, files);
    match t
    case FlagTrigger(name) =>
      assert v[0] == name && v[1..] == tail;
    case TcpTrigger(file) =>
      assert v[0] == "tcp" && v[1] == file && v[2..] == tail;
    case NetDetectTrigger(opts) =>
      assert v[0] == "net-detect" && v[1..] == RenderAll(opts) + tail;
      NetDetectRead(opts, tail);
  }

  /** The handler's turns that go on. */
  lemma TurnIs(v: seq<string>, s: Vars, files: Files)
    requires v != []
    ensures FlagOf(v[0]).Some? ==>
              TriggerTurn(v, s, files) == Enable(v[1..], s.(msg := s.msg + [Flag(FlagOf(v[0]).value)]), files)
    ensures v[0] == "tcp" && |v| > 1 && ReadTcp(files, v[1]).err == 0 ==>
              TriggerTurn(v, s, files) == Enable(v[2..], s.(msg := s.msg + ReadTcp(files, v[1]).toks), files)
    ensures v[0] == "net-detect" && |v| > 1 && NetDetect.NetDetectEnd(v[1..]).err == 0 ==>
              var nd := NetDetect.NetDetectEnd(v[1..]);
              TriggerTurn(v, s, files) == Enable(nd.args, s.(msg := s.msg + nd.msg), files)
  {
    assert FlagOf("tcp").None? && FlagOf("patterns").None? && FlagOf("net-detect").None?;
    hide Enable, FlagOf, NetDetect.NetDetectEnd;
  }

  /** Net-detect reads its options and stops at the end or at a word that is none of its own. */
  lemma NetDetectRead(opts: seq<Opt>, tail: seq<string>)
    requires Acceptable(opts, NOTHING) && (if tail != [] then NonEmptyLists(opts) else opts != [])
    requires tail != [] ==> Foreign(tail[0])
    ensures RenderAll(opts) + tail != []
    ensures NetDetect.NetDetectEnd(RenderAll(opts) + tail)
         == NetDetect.End(0, tail, Nest(TrigNetDetect, if tail != [] then Scalars(opts) else Emitted(opts)))
  {
    hide NetDetect.Run, Acceptable, Numeral, Emitted, Scalars, Render;
    SentenceRead(opts, tail);
  }

  /** Triggers in any order are read one by one, each puts its own message, and the handler goes on
      with what is behind them. */
  lemma {:induction false} TriggersRead(ts: seq<Trigger>, rest: seq<string>, s: Vars, files: Files)
    requires s.mode.Triggers? && ValidTriggers(ts, rest != [], files)
    requires rest != [] ==> Foreign(rest[0])
    ensures Enable(RenderTriggers(ts) + rest, s, files)
         == Enable(rest, s.(msg := s.msg + TriggerMsgs(ts, rest != [], files)), files)
    decreases |ts|
  {
    hide Enable, RenderTrigger, ValidTrigger, TriggerMsg, Foreign;
    if ts == [] {
      assert RenderTriggers(ts) + rest == rest && s.msg + [] == s.msg;
    } else {
      var tail := RenderTriggers(ts[1..]) + rest;
      assert RenderTriggers(ts) + rest == RenderTrigger(ts[0]) + tail;
      FirstForeign(ts[1..], rest, files);
      RunTrigger(ts[0], tail, s, files);
      var t := s.(msg := s.msg + TriggerMsg(ts[0], tail != [], files));
      TriggersRead(ts[1..], rest, t, files);
      assert t.msg + TriggerMsgs(ts[1..], rest != [], files) == s.msg + TriggerMsgs(ts, rest != [], files);
    }
  }

  lemma FirstForeign(ts: seq<Trigger>, rest: seq<string>, files: Files)
    requires ValidTriggers(ts, rest != [], files)
    requires rest != [] ==> Foreign(rest[0])
    ensures var tail := RenderTriggers(ts) + rest; tail != [] ==> Foreign(tail[0])
  {
    hide Foreign, FlagOf;
    if ts != [] {
      var tail := RenderTriggers(ts) + rest;
      assert tail[0] == RenderTrigger(ts[0])[0];
      TriggerIsForeign(tail[0]);
    }
  }

  lemma PatternsWord(pats: seq<string>, s: Vars, files: Files)
    requires s.mode.Triggers?
    ensures Enable(["patterns"] + pats, s, files) == Enable(pats, s.(mode := Patterns), files)
  {
    hide Enable, PatternArg;
    var v := ["patterns"] + pats;
    assert v[0] == "patterns" && v[1..] == pats;
    EnableTurn(v, s, files);
  }

  predicate Accepted(r: Result) {
    r.Done? && r.err == 0
  }

  /** Triggers and a pattern list: the patterns are all good, and then they are numbered 1 to n in the
      order given, or the command leaves defined behaviour, or it is refused. */
  lemma PatternCommand(ts: seq<Trigger>, pats: seq<string>, files: Files)
    requires ValidTriggers(ts, true, files)
    ensures var r := Enable(RenderTriggers(ts) + (["patterns"] + pats), START, files);
            if AllPatterns(pats) then r == Done(0, CommandMsg(Command(ts, Some(pats)), files))
            else if Loses(pats, true) then r == Undefined
            else r.Done? && r.err == 1
  {
    hide Enable, PatternArg, NumberPatterns, TriggerMsgs, AllPatterns, ValidTriggers, Loses, RenderTriggers, Foreign;
    var rest := ["patterns"] + pats;
    TriggerIsForeign("patterns");
    TriggersRead(ts, rest, START, files);
    var msgs := TriggerMsgs(ts, true, files);
    var s := START.(msg := START.msg + msgs);
    PatternsWord(pats, s, files);
    PatternsNumbered(pats, s.(mode := Patterns), files);
    UndefinedIff(pats, s.(mode := Patterns), files);
    if AllPatterns(pats) {
      assert [] + NumberPatterns(pats, 1) == NumberPatterns(pats, 1);
      NestSum(WowlanTriggers, msgs, Nest(TrigPktPattern, NumberPatterns(pats, 1)));
    }
  }

  lemma NestSum(attr: Attr, a: Msg, b: Msg)
    ensures [Open(attr)] + a + b + [Close] == Nest(attr, a + b)
  {
  }

  /** Every command of the language is accepted, with exactly its message. */
  lemma CommandAccepted(c: Command, files: Files)
    requires ValidCommand(c, files)
    ensures Enable(RenderCommand(c), START, files) == Done(0, CommandMsg(c, files))
  {
    hide Enable, TriggerMsgs, AllPatterns, ValidTriggers, NumberPatterns, RenderTriggers;
    var ts := c.triggers;
    if c.patterns.Some? {
      PatternCommand(ts, c.patterns.value, files);
      assert c == Command(ts, Some(c.patterns.value));
    } else {
      TriggersRead(ts, [], START, files);
      var msgs := TriggerMsgs(ts, false, files);
      EnableEnd(START.(msg := START.msg + msgs), files);
      assert START.msg + msgs + [] + [Close] == START.msg + msgs + [Close];
      NestSum(WowlanTriggers, msgs, []);
    }
  }

  /** Whatever is not refused in the trigger part is valid triggers up to the end or to "patterns". */
  lemma {:induction false} ReadTriggers(args: seq<string>, s: Vars, files: Files)
    returns (ts: seq<Trigger>, rest: seq<string>)
    requires s.mode.Triggers?
    requires Enable(args, s, files) == Undefined || Accepted(Enable(args, s, files))
    ensures args == RenderTriggers(ts) + rest && ValidTriggers(ts, rest != [], files)
    ensures rest != [] ==> rest[0] == "patterns"
    decreases |args|
  {
    hide Enable, ValidTrigger, RenderTrigger, NetDetect.Run;
    if args == [] || args[0] == "patterns" {
      ts, rest := [], args;
    } else {
      var t, tail := ReadTrigger(args, s, files);
      var more;
      more, rest := ReadTriggers(tail, s.(msg := s.msg + TriggerMsg(t, tail != [], files)), files);
      ts := [t] + more;
      assert ts[1..] == more;
      assert RenderTriggers(ts) + rest == RenderTrigger(t) + (RenderTriggers(more) + rest);
      assert tail != [] <==> rest != [] || |ts| > 1;
    }
  }

  lemma NothingRendered()
    ensures RenderAll([]) == []
  {
  }

  lemma ReadTrigger(args: seq<string>, s: Vars, files: Files) returns (t: Trigger, tail: seq<string>)
    requires s.mode.Triggers? && args != [] && args[0] != "patterns"
    requires Enable(args, s, files) == Undefined || Accepted(Enable(args, s, files))
    ensures args == RenderTrigger(t) + tail && ValidTrigger(t, tail != [], files)
    ensures Enable(args, s, files)
         == Enable(tail, s.(msg := s.msg + TriggerMsg(t, tail != [], files)), files)
  {
    hide Enable, FlagOf, NetDetect.Run, Acceptable, Numeral, Emitted, Scalars, RenderAll;
    EnableTurn(args, s, files);
    if FlagOf(args[0]).Some? {
      t, tail := FlagTrigger(args[0]), args[1..];
      assert args == [args[0]] + tail;
    } else if args[0] == "tcp" {
      t, tail := TcpTrigger(args[1]), args[2..];
      assert args == [args[0], args[1]] + tail;
    } else {
      assert args[0] == "net-detect" && |args| > 1;
      var opts;
      opts, tail := AcceptedIsSentence(args[1..], NetDetect.START);
      SentenceRead(opts, tail);
      t := NetDetectTrigger(opts);
      assert args == ["net-detect"] + args[1..];
      NothingRendered();
    }
  }

  /** A command line is accepted iff it is a command of the language, and then the message is that
      command's. */
  lemma CommandAcceptedIff(args: seq<string>, files: Files)
    ensures Accepted(Enable(args, START, files))
       <==> exists c :: ValidCommand(c, files) && RenderCommand(c) == args
    ensures forall c | ValidCommand(c, files) && RenderCommand(c) == args ::
              Enable(args, START, files) == Done(0, CommandMsg(c, files))
  {
    hide Enable, AllPatterns, ValidTriggers, RenderTriggers, CommandMsg, Loses;
    if Accepted(Enable(args, START, files)) {
      var ts, rest := ReadTriggers(args, START, files);
      if rest == [] {
        assert ValidCommand(Command(ts, None), files) && RenderCommand(Command(ts, None)) == args;
      } else {
        var pats := rest[1..];
        assert rest == ["patterns"] + pats;
        PatternCommand(ts, pats, files);
        assert ValidCommand(Command(ts, Some(pats)), files) && RenderCommand(Command(ts, Some(pats))) == args;
      }
    }
    forall c | ValidCommand(c, files) && RenderCommand(c) == args
      ensures Enable(args, START, files) == Done(0, CommandMsg(c, files))
    {
      CommandAccepted(c, files);
    }
  }

  /** Valid triggers and then patterns of which the first that is not good is missing or runs over. */
  predicate LosesBehind(args: seq<string>, ts: seq<Trigger>, pats: seq<string>, files: Files) {
    ValidTriggers(ts, true, files) && Loses(pats, true) && args == RenderTriggers(ts) + (["patterns"] + pats)
  }

  /** A command line leaves defined behaviour iff its pattern list does, behind valid triggers. */
  lemma CommandUndefinedIff(args: seq<string>, files: Files)
    ensures Enable(args, START, files) == Undefined <==> exists ts, pats :: LosesBehind(args, ts, pats, files)
  {
    hide Enable, AllPatterns, ValidTriggers, RenderTriggers, CommandMsg, Loses, TriggerMsgs;
    if Enable(args, START, files) == Undefined {
      var ts, rest := ReadTriggers(args, START, files);
      if rest == [] {
        TriggersRead(ts, [], START, files);
        EnableEnd(START.(msg := START.msg + TriggerMsgs(ts, false, files)), files);
      } else {
        var pats := rest[1..];
        assert rest == ["patterns"] + pats;
        PatternCommand(ts, pats, files);
        assert LosesBehind(args, ts, pats, files);
      }
    }
    forall ts, pats | LosesBehind(args, ts, pats, files)
      ensures Enable(args, START, files) == Undefined
    {
      PatternCommand(ts, pats, files);
      LosesNotGood(pats, true);
    }
  }

  lemma TriggerPair(t: Trigger, u: Trigger, files: Files)
    ensures RenderTriggers([t, u]) == RenderTrigger(t) + RenderTrigger(u)
    ensures ValidTrigger(t, true, files) && ValidTrigger(u, false, files) ==>
              && ValidTriggers([t, u], false, files)
              && TriggerMsgs([t, u], false, files) == TriggerMsg(t, true, files) + TriggerMsg(u, false, files)
  {
    hide RenderTrigger, ValidTrigger, TriggerMsg;
    assert [t, u][1..] == [u] && [u][1..] == [];
    if ValidTrigger(t, true, files) && ValidTrigger(u, false, files) {
      assert ValidTriggers([u], false, files);
      assert TriggerMsgs([u], false, files) == TriggerMsg(u, false, files);
    }
  }

  /** `net-detect freqs 2412 any` waits for no frequency. */
  lemma FrequencyNotSent(files: Files)
    ensures Enable(["net-detect", "freqs", "2412", "any"], START, files)
         == Done(0, Nest(WowlanTriggers, Nest(TrigNetDetect, []) + [Flag(TrigAny)]))
  {
    hide Numeral, Enable;
    SmallNumerals();
    var f := [FreqList(["2412"])];
    assert f[1..] == [] && Acceptable(f, NOTHING) && Scalars(f) == [] && RenderAll(f) == ["freqs", "2412"];
    var nd, any := NetDetectTrigger(f), FlagTrigger("any");
    TriggerPair(nd, any, files);
    var c := Command([nd, any], None);
    CommandAccepted(c, files);
    assert RenderCommand(c) == ["net-detect", "freqs", "2412", "any"];
  }

  // ----- Nesting over every run -----------------------------------------

  lemma {:induction false} NetDetectBalanced(v: seq<string>, s: NetDetect.Vars)
    requires Balanced(s.msg) && Balanced(s.matches) && Balanced(s.freqs)
    ensures Balanced(NetDetect.Run(v, s).msg)
    decreases NetDetect.Measure(v, s)
  {
    hide NetDetect.Run, NetDetect.Turn, Balanced;
    if v == [] {
      FinishBalanced(s);
    } else {
      NetDetect.RunTurn(v, s);
      TurnBalanced(v, s);
      var turn := NetDetect.Turn(v, s);
      if turn.Next? {
        NetDetectBalanced(turn.v, turn.s);
      }
    }
  }

  lemma FinishBalanced(s: NetDetect.Vars)
    requires Balanced(s.msg) && Balanced(s.matches) && Balanced(s.freqs)
    ensures NetDetect.Run([], s) == NetDetect.Finish(s)
    ensures Balanced(NetDetect.Finish(s).msg)
  {
    var f := if s.haveFreqs then Nest(ScanFrequencies, s.freqs) else [];
    var m := if s.haveMatches then Nest(SchedScanMatch, s.matches) else [];
    BalancedNest(ScanFrequencies, s.freqs);
    BalancedNest(SchedScanMatch, s.matches);
    BalancedConcat(s.msg, f);
    BalancedConcat(s.msg + f, m);
  }

  lemma BalancedOne(t: Tok)
    requires !t.Open? && !t.Close?
    ensures Balanced([t])
  {
    assert Level([t][1..], 0) == Some(0);
  }

  lemma TurnBalanced(v: seq<string>, s: NetDetect.Vars)
    requires v != []
    requires Balanced(s.msg) && Balanced(s.matches) && Balanced(s.freqs)
    ensures match NetDetect.Turn(v, s)
            case Next(_, t) => Balanced(t.msg) && Balanced(t.matches) && Balanced(t.freqs)
            case Stop(end) => Balanced(end.msg)
  {
    hide Balanced, Strtoul;
    forall t: Tok | !t.Open? && !t.Close?
      ensures Balanced(s.msg + [t]) && Balanced(s.freqs + [t])
    {
      BalancedOne(t);
      BalancedConcat(s.msg, [t]);
      BalancedConcat(s.freqs, [t]);
    }
    if s.state.InMatches? && v[0] == "ssid" && |v| > 1 {
      BalancedOne(Text(MatchSsid, v[1]));
      BalancedNest(Item(s.i), [Text(MatchSsid, v[1])]);
      BalancedConcat(s.matches, NetDetect.SsidToks(s.i, v[1]));
    }
  }

  /** On success every nest that was started has been ended, whatever the arguments. */
  lemma {:induction false} EnableBalanced(args: seq<string>, s: Vars, files: Files)
    requires Level(s.msg, 0) == Some(1) && Balanced(s.patterns)
    requires forall f :: f in files ==> Balanced(files[f].toks)
    requires Enable(args, s, files).Done? && Enable(args, s, files).err == 0
    ensures Balanced(Enable(args, s, files).msg)
    decreases |args|
  {
    hide Enable, PatternArg, FlagOf, NetDetect.Run, Level;
    if args == [] {
      EnableEnd(s, files);
      ClosedBalanced(s);
    } else {
      EnableTurn(args, s, files);
      if s.mode.Patterns? {
        var p := PatternArg(args[0]);
        PatternToksBalanced(s.patnum + 1, p);
        BalancedConcat(s.patterns, PatternToks(s.patnum + 1, p));
        EnableBalanced(args[1..], AddPattern(s, p), files);
      } else if FlagOf(args[0]).Some? {
        Inside(s.msg, [Flag(FlagOf(args[0]).value)]);
        BalancedOne(Flag(FlagOf(args[0]).value));
        EnableBalanced(args[1..], s.(msg := s.msg + [Flag(FlagOf(args[0]).value)]), files);
      } else if args[0] == "tcp" {
        var f := ReadTcp(files, args[1]);
        Inside(s.msg, f.toks);
        EnableBalanced(args[2..], s.(msg := s.msg + f.toks), files);
      } else if args[0] == "patterns" {
        EnableBalanced(args[1..], s.(mode := Patterns), files);
      } else {
        var nd := NetDetect.NetDetectEnd(args[1..]);
        assert Balanced([]) by { BalancedEmpty(); }
        NetDetectBalanced(args[1..], NetDetect.START);
        BalancedNest(TrigNetDetect, NetDetect.Run(args[1..], NetDetect.START).msg);
        Inside(s.msg, nd.msg);
        EnableBalanced(nd.args, s.(msg := s.msg + nd.msg), files);
      }
    }
  }

  /** Putting a balanced piece inside the open nest leaves that nest open. */
  lemma Inside(m: Msg, piece: Msg)
    requires Level(m, 0) == Some(1)
    ensures Balanced(piece) ==> Level(m + piece, 0) == Some(1)
  {
    LevelConcat(m, piece, 0);
    if Balanced(piece) {
      BalancedAt(piece, 1);
    }
  }

  lemma ClosedBalanced(s: Vars)
    requires Level(s.msg, 0) == Some(1) && Balanced(s.patterns)
    ensures Balanced(Closed(s))
  {
    var p := if s.mode.Patterns? then Nest(TrigPktPattern, s.patterns) else [];
    BalancedNest(TrigPktPattern, s.patterns);
    Inside(s.msg, p);
    LevelConcat(s.msg + p, [Close], 0);
    assert Level([Close][1..], 0) == Some(0);
  }

  // ----- Commands in plain terms ----------------------------------------

  /** The patterns sent are the patterns given, offsets as numbers. */
  lemma PatternsGiven(gs: seq<Given>, files: Files)
    requires AllValid(gs)
    ensures Enable(["patterns"] + GivenTexts(gs), START, files)
         == Done(0, [Open(WowlanTriggers), Open(TrigPktPattern)] + GivenAll(gs, 1) + [Close, Close])
  {
    hide Enable, PatternArg, GivenTexts, GivenAll, NumberPatterns, AllPatterns, CommandMsg, RenderTriggers, Nest,
         AllValid;
    GivenNumbered(gs, 1);
    NoTriggers(GivenTexts(gs), files);
    PatternCommand([], GivenTexts(gs), files);
    NestedTwice(WowlanTriggers, TrigPktPattern, GivenAll(gs, 1));
  }

  lemma NoTriggers(pats: seq<string>, files: Files)
    requires AllPatterns(pats)
    ensures ValidTriggers([], true, files) && RenderTriggers([]) + (["patterns"] + pats) == ["patterns"] + pats
    ensures CommandMsg(Command([], Some(pats)), files)
         == Nest(WowlanTriggers, [] + Nest(TrigPktPattern, NumberPatterns(pats, 1)))
  {
    hide PatternArg, NumberPatterns, Nest;
  }

  lemma NestedTwice(a: Attr, b: Attr, inner: Msg)
    ensures Nest(a, [] + Nest(b, inner)) == [Open(a), Open(b)] + inner + [Close, Close]
  {
  }

  /** Each of the seven words puts its own trigger. */
  lemma EveryFlag(files: Files)
    ensures Enable(["any", "disconnect", "magic-packet", "gtk-rekey-failure", "eap-identity-request",
                    "4way-handshake", "rfkill-release"], START, files)
         == Done(0, [Open(WowlanTriggers), Flag(TrigAny), Flag(TrigDisconnect), Flag(TrigMagicPkt),
                     Flag(TrigGtkRekeyFailure), Flag(TrigEapIdentRequest), Flag(Trig4WayHandshake),
                     Flag(TrigRfkillRelease), Close])
  {
    hide Enable, PatternArg, FlagOf;
    var v := ["any", "disconnect", "magic-packet", "gtk-rekey-failure", "eap-identity-request",
              "4way-handshake", "rfkill-release"];
    var m0 := [Open(WowlanTriggers)];
    FlagWords();
    OneFlag(v, 0, m0, TrigAny, files);
    var m1 := m0 + [Flag(TrigAny)];
    OneFlag(v, 1, m1, TrigDisconnect, files);
    var m2 := m1 + [Flag(TrigDisconnect)];
    OneFlag(v, 2, m2, TrigMagicPkt, files);
    var m3 := m2 + [Flag(TrigMagicPkt)];
    OneFlag(v, 3, m3, TrigGtkRekeyFailure, files);
    var m4 := m3 + [Flag(TrigGtkRekeyFailure)];
    OneFlag(v, 4, m4, TrigEapIdentRequest, files);
    var m5 := m4 + [Flag(TrigEapIdentRequest)];
    OneFlag(v, 5, m5, Trig4WayHandshake, files);
    var m6 := m5 + [Flag(Trig4WayHandshake)];
    OneFlag(v, 6, m6, TrigRfkillRelease, files);
    assert v[7..] == [] && v[0..] == v;
    EnableEnd(START.(msg := m6 + [Flag(TrigRfkillRelease)]), files);
  }

  lemma FlagWords()
    ensures FlagOf("any") == Some(TrigAny) && FlagOf("disconnect") == Some(TrigDisconnect)
    ensures FlagOf("magic-packet") == Some(TrigMagicPkt) && FlagOf("gtk-rekey-failure") == Some(TrigGtkRekeyFailure)
    ensures FlagOf("eap-identity-request") == Some(TrigEapIdentRequest)
    ensures FlagOf("4way-handshake") == Some(Trig4WayHandshake) && FlagOf("rfkill-release") == Some(TrigRfkillRelease)
  {
  }

  lemma OneFlag(v: seq<string>, i: nat, msg: Msg, attr: Attr, files: Files)
    requires i < |v| && FlagOf(v[i]) == Some(attr)
    ensures Enable(v[i..], START.(msg := msg), files) == Enable(v[i + 1..], START.(msg := msg + [Flag(attr)]), files)
  {
    hide Enable, PatternArg, FlagOf;
    EnableTurn(v[i..], START.(msg := msg), files);
    assert v[i..][1..] == v[i + 1..];
  }

  // ----- Refusals -------------------------------------------------------

  /** A refused command returns 1, or what net-detect or the reader of a TCP file returned. */
  lemma {:induction false} EnableErrors(args: seq<string>, s: Vars, files: Files)
    ensures var r := Enable(args, s, files);
            r.Done? ==> r.err == 0 || r.err == 1 || r.err == -EINVAL || exists f :: f in files && files[f].err == r.err
    decreases |args|
  {
    hide Enable, PatternArg, FlagOf, NetDetect.Run;
    if args == [] {
      EnableEnd(s, files);
    } else {
      EnableTurn(args, s, files);
      if s.mode.Patterns? {
        var p := PatternArg(args[0]);
        if p.PatOk? {
          EnableErrors(args[1..], AddPattern(s, p), files);
        }
      } else if FlagOf(args[0]).Some? {
        EnableErrors(args[1..], s.(msg := s.msg + [Flag(FlagOf(args[0]).value)]), files);
      } else if args[0] == "tcp" {
        if |args| > 1 {
          var f := ReadTcp(files, args[1]);
          EnableErrors(args[2..], s.(msg := s.msg + f.toks), files);
        }
      } else if args[0] == "patterns" {
        EnableErrors(args[1..], s.(mode := Patterns), files);
      } else if args[0] == "net-detect" && |args| > 1 {
        var nd := NetDetect.NetDetectEnd(args[1..]);
        RefusedAsInvalid(args[1..], NetDetect.START);
        EnableErrors(nd.args, s.(msg := s.msg + nd.msg), files);
      }
    }
  }
}
