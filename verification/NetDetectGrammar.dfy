/** The net-detect language as a list of options, and the proof that the state machine accepts
    exactly its sentences and puts exactly the lists they give. */
module NetDetectGrammar {
  import opened CText
  import opened NlMessage
  import opened NetDetect
  import opened Numerals

  datatype Opt = Interval(t: string) | Delay(t: string) | FreqList(ts: seq<string>) | MatchList(ssids: seq<string>)

  // ----- Sentences ------------------------------------------------------

  function RenderSsids(ssids: seq<string>): seq<string> {
    if ssids == [] then [] else ["ssid", ssids[0]] + RenderSsids(ssids[1..])
  }

  function Render(o: Opt): (v: seq<string>)
    ensures v != []
  {
    match o
    case Interval(t) => ["interval", t]
    case Delay(t) => ["delay", t]
    case FreqList(ts) => ["freqs"] + ts
    case MatchList(ssids) => ["matches"] + RenderSsids(ssids)
  }

  function RenderAll(opts: seq<Opt>): seq<string> {
    if opts == [] then [] else Render(opts[0]) + RenderAll(opts[1..])
  }

  predicate AllNumerals(ts: seq<string>) {
    forall i :: 0 <= i < |ts| ==> Numeral(ts[i], 10).Some?
  }

  function Number(t: string): nat {
    var n := Numeral(t, 10);
    if n.Some? then ToU32(n.value) else 0
  }

  /** What options seen so far forbid. */
  datatype Seen = Seen(interval: bool, delay: bool, matches: bool, freqs: bool)

  predicate ValidOpt(o: Opt, c: Seen) {
    match o
    case Interval(t) => !c.interval && Numeral(t, 10).Some? && Number(t) != 0
    case Delay(t) => !c.delay && Numeral(t, 10).Some?
    case FreqList(ts) => !c.freqs && AllNumerals(ts)
    case MatchList(_) => !c.matches
  }

  function See(o: Opt, c: Seen): Seen {
    match o
    case Interval(_) => c.(interval := true)
    case Delay(t) => c.(delay := Number(t) != 0)
    case FreqList(_) => c.(freqs := true)
    case MatchList(ssids) => c.(matches := ssids != [])
  }

  predicate NonEmptyList(o: Opt) {
    (o.FreqList? ==> o.ts != []) && (o.MatchList? ==> o.ssids != [])
  }

  /** A sentence: no option repeated (a zero delay does not count), numbers where numbers belong,
      and a list left empty only as the very last option. */
  predicate Acceptable(opts: seq<Opt>, c: Seen) {
    opts != [] ==>
      && ValidOpt(opts[0], c)
      && (|opts| > 1 ==> NonEmptyList(opts[0]))
      && Acceptable(opts[1..], See(opts[0], c))
  }

  const NOTHING := Seen(false, false, false, false)

  // ----- What a sentence means ------------------------------------------

  function Scalar(o: Opt): Msg {
    match o
    case Interval(t) => [U32(SchedScanInterval, Number(t))]
    case Delay(t) => [U32(SchedScanDelay, Number(t))]
    case FreqList(_) => []
    case MatchList(_) => []
  }

  function Scalars(opts: seq<Opt>): Msg {
    if opts == [] then [] else Scalar(opts[0]) + Scalars(opts[1..])
  }

  function GivenFreqs(opts: seq<Opt>): seq<string> {
    if opts == [] then []
    else (if opts[0].FreqList? then opts[0].ts else []) + GivenFreqs(opts[1..])
  }

  function GivenSsids(opts: seq<Opt>): seq<string> {
    if opts == [] then []
    else (if opts[0].MatchList? then opts[0].ssids else []) + GivenSsids(opts[1..])
  }

  predicate HasFreqs(opts: seq<Opt>) {
    exists i :: 0 <= i < |opts| && opts[i].FreqList?
  }

  function NumberFreqs(ts: seq<string>, n: nat): Msg {
    if ts == [] then [] else [U32(Item(n), Number(ts[0]))] + NumberFreqs(ts[1..], n + 1)
  }

  function NumberSsids(ssids: seq<string>, n: nat): Msg {
    if ssids == [] then [] else SsidToks(n, ssids[0]) + NumberSsids(ssids[1..], n + 1)
  }

  /** The scalars in the order given, then the frequencies, then the matches, each numbered from 0. */
  function Emitted(opts: seq<Opt>): Msg {
    Scalars(opts)
    + (if HasFreqs(opts) then Nest(ScanFrequencies, NumberFreqs(GivenFreqs(opts), 0)) else [])
    + (if GivenSsids(opts) != [] then Nest(SchedScanMatch, NumberSsids(GivenSsids(opts), 0)) else [])
  }

  // ----- Running over one option ----------------------------------------

  function SeenBy(s: Vars): Seen {
    Seen(s.interval != 0, s.delay != 0, s.haveMatches, s.haveFreqs)
  }

  /** A new option can start: not inside a list that is still empty. */
  predicate Boundary(s: Vars) {
    s.state.TopLevel? || s.i > 0
  }

  function After(o: Opt, s: Vars): Vars {
    match o
    case Interval(t) =>
      s.(state := TopLevel, interval := Number(t), msg := s.msg + [U32(SchedScanInterval, Number(t))])
    case Delay(t) =>
      s.(state := TopLevel, delay := Number(t), msg := s.msg + [U32(SchedScanDelay, Number(t))])
    case FreqList(ts) =>
      s.(state := InFreqs, haveFreqs := true, i := |ts|, freqs := s.freqs + NumberFreqs(ts, 0))
    case MatchList(ssids) =>
      s.(state := InMatches, haveMatches := s.haveMatches || ssids != [], i := |ssids|,
         matches := s.matches + NumberSsids(ssids, 0))
  }

  lemma TurnFreq(v: seq<string>, s: Vars)
    requires v != [] && s.state.InFreqs? && Numeral(v[0], 10).Some?
    ensures Turn(v, s) == Next(v[1..], s.(freqs := s.freqs + [U32(Item(s.i), Number(v[0]))], i := s.i + 1))
  {
    hide Numeral, TopTurn;
  }

  lemma TurnSsid(v: seq<string>, s: Vars)
    requires |v| >= 2 && s.state.InMatches? && v[0] == "ssid"
    ensures Turn(v, s)
         == Next(v[2..], s.(matches := s.matches + SsidToks(s.i, v[1]), haveMatches := true, i := s.i + 1))
  {
    hide Numeral, TopTurn;
  }

  lemma {:induction false} RunFreqs(ts: seq<string>, rest: seq<string>, s: Vars)
    requires s.state.InFreqs? && AllNumerals(ts)
    ensures Run(ts + rest, s) == Run(rest, s.(freqs := s.freqs + NumberFreqs(ts, s.i), i := s.i + |ts|))
  {
    hide Run, Turn, Numeral, Number;
    if ts == [] {
      assert ts + rest == rest && s.freqs + [] == s.freqs;
    } else {
      var v := ts + rest;
      var t := s.(freqs := s.freqs + [U32(Item(s.i), Number(ts[0]))], i := s.i + 1);
      assert v[0] == ts[0] && v[1..] == ts[1..] + rest;
      RunTurn(v, s);
      TurnFreq(v, s);
      RunFreqs(ts[1..], rest, t);
      assert t.freqs + NumberFreqs(ts[1..], t.i) == s.freqs + NumberFreqs(ts, s.i);
    }
  }

  lemma {:induction false} RunSsids(ssids: seq<string>, rest: seq<string>, s: Vars)
    requires s.state.InMatches?
    ensures Run(RenderSsids(ssids) + rest, s)
         == Run(rest, s.(matches := s.matches + NumberSsids(ssids, s.i),
                         haveMatches := s.haveMatches || ssids != [], i := s.i + |ssids|))
  {
    hide Run, Turn, SsidToks;
    if ssids == [] {
      assert RenderSsids(ssids) + rest == rest && s.matches + [] == s.matches;
    } else {
      var v := RenderSsids(ssids) + rest;
      var t := s.(matches := s.matches + SsidToks(s.i, ssids[0]), haveMatches := true, i := s.i + 1);
      assert v[0] == "ssid" && v[1] == ssids[0] && v[2..] == RenderSsids(ssids[1..]) + rest;
      RunTurn(v, s);
      TurnSsid(v, s);
      RunSsids(ssids[1..], rest, t);
      assert t.matches + NumberSsids(ssids[1..], t.i) == s.matches + NumberSsids(ssids, s.i);
    }
  }

  predicate IsKeyword(a: string) {
    a == "interval" || a == "delay" || a == "matches" || a == "freqs"
  }

  lemma KeywordIsNoNumeral(a: string)
    requires IsKeyword(a)
    ensures Numeral(a, 10).None? && a != "ssid"
  {
    NoNumeral(a, 0);
  }

  /** An argument that cannot go on with the current list returns to the top level unconsumed. */
  lemma LeaveList(v: seq<string>, s: Vars)
    requires v != [] && Boundary(s)
    requires s.state.InFreqs? ==> Numeral(v[0], 10).None?
    requires s.state.InMatches? ==> v[0] != "ssid"
    ensures Run(v, s) == Run(v, s.(state := TopLevel))
  {
    RunTurn(v, s);
    assert s.state.TopLevel? ==> s.(state := TopLevel) == s;
  }

  lemma RunOpt(o: Opt, rest: seq<string>, s: Vars)
    requires Boundary(s) && ValidOpt(o, SeenBy(s))
    ensures Run(Render(o) + rest, s) == Run(rest, After(o, s))
  {
    hide Run, Strtoul, NumberFreqs, NumberSsids;
    var v := Render(o) + rest;
    assert v[0] == Render(o)[0];
    KeywordIsNoNumeral(v[0]);
    LeaveList(v, s);
    RunOptAtTop(o, rest, s.(state := TopLevel));
  }

  lemma RunOptAtTop(o: Opt, rest: seq<string>, s: Vars)
    requires s.state.TopLevel? && ValidOpt(o, SeenBy(s))
    ensures Run(Render(o) + rest, s) == Run(rest, After(o, s))
  {
    hide Run, Strtoul, NumberFreqs, NumberSsids, Turn;
    var v := Render(o) + rest;
    RunTurn(v, s);
    TurnOption(o, rest, s);
    match o
    case Interval(_) =>
    case Delay(_) =>
    case FreqList(ts) => RunFreqs(ts, rest, s.(state := InFreqs, haveFreqs := true, i := 0));
    case MatchList(ssids) => RunSsids(ssids, rest, s.(state := InMatches, i := 0));
  }

  /** The turn that reads an option's keyword, with its number where it has one. */
  lemma TurnOption(o: Opt, rest: seq<string>, s: Vars)
    requires s.state.TopLevel? && ValidOpt(o, SeenBy(s))
    ensures Turn(Render(o) + rest, s)
         == match o
            case Interval(_) => Next(rest, After(o, s))
            case Delay(_) => Next(rest, After(o, s))
            case FreqList(ts) => Next(ts + rest, s.(state := InFreqs, haveFreqs := true, i := 0))
            case MatchList(ssids) => Next(RenderSsids(ssids) + rest, s.(state := InMatches, i := 0))
  {
    hide Numeral, NumberFreqs, NumberSsids, RenderSsids;
    var v := Render(o) + rest;
    match o
    case Interval(t) => assert v[0] == "interval" && v[1] == t && v[2..] == rest;
    case Delay(t) => assert v[0] == "delay" && v[1] == t && v[2..] == rest;
    case FreqList(ts) => assert v[0] == "freqs" && v[1..] == ts + rest;
    case MatchList(ssids) => assert v[0] == "matches" && v[1..] == RenderSsids(ssids) + rest;
  }

  // ----- Running over a sentence ----------------------------------------

  function Absorb(opts: seq<Opt>, s: Vars): Vars {
    if opts == [] then s else Absorb(opts[1..], After(opts[0], s))
  }

  lemma SeenAfter(o: Opt, s: Vars)
    requires ValidOpt(o, SeenBy(s))
    ensures SeenBy(After(o, s)) == See(o, SeenBy(s))
    ensures NonEmptyList(o) ==> Boundary(After(o, s))
  {
    hide Numeral, NumberFreqs, NumberSsids;
  }

  lemma RenderSplit(opts: seq<Opt>, rest: seq<string>)
    requires opts != []
    ensures RenderAll(opts) + rest == Render(opts[0]) + (RenderAll(opts[1..]) + rest)
  {
    hide Render;
  }

  lemma {:induction false} RunOpts(opts: seq<Opt>, rest: seq<string>, s: Vars)
    requires Boundary(s) && Acceptable(opts, SeenBy(s))
    ensures Run(RenderAll(opts) + rest, s) == Run(rest, Absorb(opts, s))
  {
    hide Run, Strtoul;
    if opts == [] {
      assert RenderAll(opts) + rest == rest;
    } else {
      RenderSplit(opts, rest);
      RunOpt(opts[0], RenderAll(opts[1..]) + rest, s);
      var t := After(opts[0], s);
      SeenAfter(opts[0], s);
      if |opts| > 1 {
        RunOpts(opts[1..], rest, t);
      } else {
        assert opts[1..] == [];
        assert RenderAll(opts[1..]) + rest == rest;
      }
    }
  }

  lemma {:induction false} AbsorbMsg(opts: seq<Opt>, s: Vars)
    ensures Absorb(opts, s).msg == s.msg + Scalars(opts)
  {
    hide Number;
    if opts == [] {
      assert s.msg + [] == s.msg;
    } else {
      var t := After(opts[0], s);
      AbsorbMsg(opts[1..], t);
      assert t.msg == s.msg + Scalar(opts[0]);
      assert s.msg + Scalar(opts[0]) + Scalars(opts[1..]) == s.msg + (Scalar(opts[0]) + Scalars(opts[1..]));
    }
  }

  lemma {:induction false} AbsorbFreqs(opts: seq<Opt>, s: Vars)
    requires Acceptable(opts, SeenBy(s))
    ensures Absorb(opts, s).freqs == s.freqs + NumberFreqs(GivenFreqs(opts), 0)
    ensures Absorb(opts, s).haveFreqs == (s.haveFreqs || HasFreqs(opts))
    ensures s.haveFreqs ==> GivenFreqs(opts) == []
  {
    hide Strtoul;
    if opts == [] {
      assert s.freqs + [] == s.freqs;
    } else {
      var o := opts[0];
      var t := After(o, s);
      SeenAfter(o, s);
      AbsorbFreqs(opts[1..], t);
      assert HasFreqs(opts) <==> o.FreqList? || HasFreqs(opts[1..]) by {
        assert forall i :: 0 < i < |opts| ==> opts[i] == opts[1..][i - 1];
      }
      if o.FreqList? {
        assert GivenFreqs(opts) == o.ts;
        assert t.freqs + [] == t.freqs;
      } else {
        assert GivenFreqs(opts) == GivenFreqs(opts[1..]);
      }
    }
  }

  lemma {:induction false} AbsorbMatches(opts: seq<Opt>, s: Vars)
    requires Acceptable(opts, SeenBy(s))
    ensures Absorb(opts, s).matches == s.matches + NumberSsids(GivenSsids(opts), 0)
    ensures Absorb(opts, s).haveMatches == (s.haveMatches || GivenSsids(opts) != [])
    ensures s.haveMatches ==> GivenSsids(opts) == []
  {
    hide Strtoul;
    if opts == [] {
      assert s.matches + [] == s.matches;
    } else {
      var o := opts[0];
      var t := After(o, s);
      SeenAfter(o, s);
      AbsorbMatches(opts[1..], t);
      if o.MatchList? && o.ssids != [] {
        assert GivenSsids(opts) == o.ssids;
        assert t.matches + [] == t.matches;
      } else {
        assert GivenSsids(opts) == GivenSsids(opts[1..]);
        assert t.matches == s.matches;
      }
    }
  }

  /** Every sentence is accepted whole, and its lists are put exactly as given, numbered from 0. */
  lemma SentenceAccepted(opts: seq<Opt>)
    requires Acceptable(opts, NOTHING)
    ensures Run(RenderAll(opts), START) == End(0, [], Emitted(opts))
  {
    RunOpts(opts, [], START);
    assert RenderAll(opts) + [] == RenderAll(opts);
    FinishAbsorbed(opts);
  }

  lemma FinishAbsorbed(opts: seq<Opt>)
    requires Acceptable(opts, NOTHING)
    ensures Finish(Absorb(opts, START)) == End(0, [], Emitted(opts))
  {
    hide Acceptable, Absorb, NumberFreqs, NumberSsids, HasFreqs;
    AbsorbMsg(opts, START);
    AbsorbFreqs(opts, START);
    AbsorbMatches(opts, START);
    assert [] + Scalars(opts) == Scalars(opts);
    assert [] + NumberFreqs(GivenFreqs(opts), 0) == NumberFreqs(GivenFreqs(opts), 0);
    assert [] + NumberSsids(GivenSsids(opts), 0) == NumberSsids(GivenSsids(opts), 0);
  }

  // ----- Nothing else is accepted ---------------------------------------

  lemma TurnInFreqs(v: seq<string>, s: Vars)
    requires v != [] && s.state.InFreqs? && Numeral(v[0], 10).None?
    ensures Turn(v, s) == if s.i == 0 then Quit(-EINVAL, v, s) else Next(v, s.(state := TopLevel))
  {
    hide Numeral, TopTurn;
  }

  lemma TurnInMatches(v: seq<string>, s: Vars)
    requires v != [] && s.state.InMatches?
    ensures v[0] != "ssid" ==>
              Turn(v, s) == if s.i == 0 then Quit(-EINVAL, v, s) else Next(v, s.(state := TopLevel))
    ensures v[0] == "ssid" && |v| == 1 ==> Turn(v, s) == Quit(-EINVAL, [], s)
  {
    hide Numeral, TopTurn;
  }

  lemma {:induction false} GatherFreqs(v: seq<string>, s: Vars) returns (ts: seq<string>, rest: seq<string>)
    requires s.state.InFreqs? && Run(v, s).err == 0
    ensures v == ts + rest && AllNumerals(ts)
    ensures rest != [] ==> s.i + |ts| > 0 && Numeral(rest[0], 10).None?
    decreases |v|
  {
    hide Run, Turn, Numeral;
    if v == [] {
      ts, rest := [], [];
    } else {
      RunTurn(v, s);
      if Numeral(v[0], 10).None? {
        TurnInFreqs(v, s);
        ts, rest := [], v;
      } else {
        TurnFreq(v, s);
        var more;
        more, rest := GatherFreqs(v[1..], Turn(v, s).s);
        ts := [v[0]] + more;
        assert v == [v[0]] + v[1..];
      }
    }
  }

  lemma {:induction false} GatherSsids(v: seq<string>, s: Vars) returns (ssids: seq<string>, rest: seq<string>)
    requires s.state.InMatches? && Run(v, s).err == 0
    ensures v == RenderSsids(ssids) + rest
    ensures rest != [] ==> s.i + |ssids| > 0 && rest[0] != "ssid"
    decreases |v|
  {
    hide Run, Turn, SsidToks;
    if v == [] {
      ssids, rest := [], [];
    } else {
      RunTurn(v, s);
      TurnInMatches(v, s);
      if v[0] != "ssid" {
        ssids, rest := [], v;
      } else {
        TurnSsid(v, s);
        var more;
        more, rest := GatherSsids(v[2..], Turn(v, s).s);
        ssids := [v[1]] + more;
        RenderAnother(v, more, rest);
      }
    }
  }

  lemma RenderAnother(v: seq<string>, more: seq<string>, rest: seq<string>)
    requires |v| >= 2 && v[0] == "ssid" && v[2..] == RenderSsids(more) + rest
    ensures v == RenderSsids([v[1]] + more) + rest
  {
    var ssids := [v[1]] + more;
    assert ssids[1..] == more;
    assert v == [v[0], v[1]] + v[2..];
    assert [v[0], v[1]] + (RenderSsids(more) + rest) == [v[0], v[1]] + RenderSsids(more) + rest;
  }

  /** The first option of an argument list that is not refused. */
  lemma FirstOpt(v: seq<string>, s: Vars) returns (o: Opt, rest: seq<string>)
    requires v != [] && s.state.TopLevel? && IsKeyword(v[0])
    requires Run(v, s).err == 0
    ensures v == Render(o) + rest && ValidOpt(o, SeenBy(s))
    ensures rest != [] ==> NonEmptyList(o) && !GoesOn(o, rest[0])
    ensures rest != [] ==> Run(v, s) == Run(rest, After(o, s).(state := TopLevel))
  {
    hide Run, Strtoul;
    o, rest := SplitFirst(v, s);
    RunOptAtTop(o, rest, s);
    if rest != [] {
      LeaveList(rest, After(o, s));
    }
  }

  /** What the turn at a keyword says about the option it starts, unless it refuses. */
  lemma KeywordTurn(v: seq<string>, s: Vars)
    requires v != [] && s.state.TopLevel? && IsKeyword(v[0])
    ensures Turn(v, s).Stop? ==> Turn(v, s).end.err != 0
    ensures Turn(v, s).Next? ==>
              && (v[0] == "interval" ==> |v| >= 2 && ValidOpt(Interval(v[1]), SeenBy(s)))
              && (v[0] == "delay" ==> |v| >= 2 && ValidOpt(Delay(v[1]), SeenBy(s)))
              && (v[0] == "freqs" ==> !s.haveFreqs && Turn(v, s).v == v[1..] && Turn(v, s).s.state.InFreqs?
                                      && Turn(v, s).s.i == 0)
              && (v[0] == "matches" ==> !s.haveMatches && Turn(v, s).v == v[1..] && Turn(v, s).s.state.InMatches?
                                        && Turn(v, s).s.i == 0)
  {
    hide Numeral;
  }

  lemma SplitFirst(v: seq<string>, s: Vars) returns (o: Opt, rest: seq<string>)
    requires v != [] && s.state.TopLevel? && IsKeyword(v[0])
    requires Run(v, s).err == 0
    ensures v == Render(o) + rest && ValidOpt(o, SeenBy(s))
    ensures rest != [] ==> NonEmptyList(o) && !GoesOn(o, rest[0])
  {
    hide Run, Turn, Numeral, Number;
    RunTurn(v, s);
    KeywordTurn(v, s);
    var turn := Turn(v, s);
    if v[0] == "interval" {
      o, rest := Interval(v[1]), v[2..];
      assert v == [v[0], v[1]] + rest;
    } else if v[0] == "delay" {
      o, rest := Delay(v[1]), v[2..];
      assert v == [v[0], v[1]] + rest;
    } else if v[0] == "freqs" {
      var ts;
      ts, rest := GatherFreqs(v[1..], turn.s);
      o := FreqList(ts);
      assert v == [v[0]] + v[1..];
    } else {
      var ssids;
      ssids, rest := GatherSsids(v[1..], turn.s);
      o := MatchList(ssids);
      assert v == [v[0]] + v[1..];
    }
  }

  // ----- Sentences with arguments for someone else behind them ----------

  /** An argument that is taken as more of a list. */
  predicate GoesOn(o: Opt, a: string) {
    (o.FreqList? && Numeral(a, 10).Some?) || (o.MatchList? && a == "ssid")
  }

  predicate NonEmptyLists(opts: seq<Opt>) {
    forall i :: 0 <= i < |opts| ==> NonEmptyList(opts[i])
  }

  /** Arguments at which the parser stops behind these options: none are left, or the next one starts
      no option and is no more of the last list, which holds something. */
  predicate StopsAt(opts: seq<Opt>, rest: seq<string>) {
    rest != [] ==>
      && !IsKeyword(rest[0]) && NonEmptyLists(opts)
      && (opts != [] ==> !GoesOn(opts[|opts| - 1], rest[0]))
  }

  /** Both lists are put only when the arguments have run out. */
  function Put(opts: seq<Opt>, rest: seq<string>): Msg {
    if rest == [] then Emitted(opts) else Scalars(opts)
  }

  /** Whatever is not refused starts with a sentence at whose end the parser stops. */
  lemma {:induction false} AcceptedIsSentence(v: seq<string>, s: Vars)
    returns (opts: seq<Opt>, rest: seq<string>)
    requires s.state.TopLevel? && Run(v, s).err == 0
    ensures Acceptable(opts, SeenBy(s)) && v == RenderAll(opts) + rest && StopsAt(opts, rest)
    decreases |v|
  {
    hide Run, Numeral;
    if v == [] || !IsKeyword(v[0]) {
      opts, rest := [], v;
    } else {
      var o, tail := FirstOpt(v, s);
      SeenAfter(o, s);
      var more;
      if tail == [] {
        more, rest := [], [];
      } else {
        more, rest := AcceptedIsSentence(tail, After(o, s).(state := TopLevel));
      }
      opts := [o] + more;
      assert opts[1..] == more;
      RenderSplit(opts, rest);
    }
  }

  lemma {:induction false} AbsorbBoundary(opts: seq<Opt>, s: Vars)
    requires Boundary(s) && NonEmptyLists(opts)
    ensures Boundary(Absorb(opts, s))
    ensures opts == [] ==> Absorb(opts, s) == s
    ensures opts != [] ==> var last := opts[|opts| - 1];
                           var state := Absorb(opts, s).state;
                           (state.InFreqs? ==> last.FreqList?) && (state.InMatches? ==> last.MatchList?)
  {
    if opts != [] {
      AbsorbBoundary(opts[1..], After(opts[0], s));
    }
  }

  /** A sentence is read up to where the parser stops, and what is behind it is handed back. */
  lemma SentenceRead(opts: seq<Opt>, rest: seq<string>)
    requires Acceptable(opts, NOTHING) && StopsAt(opts, rest)
    ensures Run(RenderAll(opts) + rest, START) == End(0, rest, Put(opts, rest))
  {
    hide Run, Numeral, Acceptable;
    if rest == [] {
      SentenceAccepted(opts);
      assert RenderAll(opts) + [] == RenderAll(opts);
    } else {
      RunOpts(opts, rest, START);
      AbsorbMsg(opts, START);
      AbsorbBoundary(opts, START);
      var s := Absorb(opts, START);
      LeaveList(rest, s);
      RunTurn(rest, s.(state := TopLevel));
      assert s.msg == Scalars(opts);
    }
  }

  /** Every run that is not refused, both ways: the arguments are a sentence and what is handed back,
      and the message is that sentence's, less its lists if anything is handed back. */
  lemma AcceptedIff(v: seq<string>)
    ensures Run(v, START).err == 0 <==> exists opts, rest :: Reads(v, opts, rest)
    ensures forall opts, rest | Reads(v, opts, rest) :: Run(v, START) == End(0, rest, Put(opts, rest))
  {
    hide Run, Acceptable;
    if Run(v, START).err == 0 {
      var opts, rest := AcceptedIsSentence(v, START);
      assert Reads(v, opts, rest);
    }
    forall opts, rest | Reads(v, opts, rest)
      ensures Run(v, START) == End(0, rest, Put(opts, rest))
    {
      SentenceRead(opts, rest);
    }
  }

  predicate Reads(v: seq<string>, opts: seq<Opt>, rest: seq<string>) {
    Acceptable(opts, NOTHING) && StopsAt(opts, rest) && v == RenderAll(opts) + rest
  }

  /** The message holds what was asked for iff no list was asked for or nothing is handed back. */
  lemma ListsKeptIff(opts: seq<Opt>, rest: seq<string>)
    requires Acceptable(opts, NOTHING) && StopsAt(opts, rest)
    ensures Run(RenderAll(opts) + rest, START).msg == Emitted(opts)
       <==> rest == [] || !(HasFreqs(opts) || GivenSsids(opts) != [])
  {
    hide Run, Acceptable, Scalars, NumberFreqs, NumberSsids;
    SentenceRead(opts, rest);
    assert HasFreqs(opts) || GivenSsids(opts) != [] ==> |Emitted(opts)| > |Scalars(opts)|;
  }

  lemma SmallNumerals()
    ensures Numeral("2412", 10) == Some(2412) && Numeral("5", 10) == Some(5) && Numeral("any", 10).None?
  {
    hide Numeral;
    DecNumeral(2412);
    DecNumeral(5);
    NoNumeral("any", 0);
    assert Dec(2) == "2" && Dec(24) == "24" && Dec(241) == "241" && Dec(2412) == "2412" && Dec(5) == "5";
  }

  /** `freqs 2412 any` and `freqs 2412 interval 5 77` lose the frequency. */
  lemma FrequencyLost()
    ensures Run(["freqs", "2412", "any"], START) == End(0, ["any"], [])
    ensures Run(["freqs", "2412", "interval", "5", "77"], START) == End(0, ["77"], [U32(SchedScanInterval, 5)])
  {
    hide Run, Numeral;
    SmallNumerals();
    var f, i := FreqList(["2412"]), Interval("5");
    RenderPair(f, i);
    assert Acceptable([f], NOTHING);
    SentenceRead([f], ["any"]);
    assert RenderAll([f]) + ["any"] == ["freqs", "2412", "any"];
    assert [f, i][1..] == [i] && Acceptable([i], See(f, NOTHING));
    SentenceRead([f, i], ["77"]);
    assert RenderAll([f, i]) + ["77"] == ["freqs", "2412", "interval", "5", "77"];
  }

  lemma RenderPair(f: Opt, i: Opt)
    ensures RenderAll([f]) == Render(f) && RenderAll([f, i]) == Render(f) + Render(i)
    ensures Scalars([f]) == Scalar(f) && Scalars([f, i]) == Scalar(f) + Scalar(i)
  {
    assert [f][1..] == [] && [f, i][1..] == [i] && [i][1..] == [];
  }

  // ----- Net-detect over numbers ----------------------------------------

  function Decs(fs: seq<nat>): (ts: seq<string>)
    ensures |ts| == |fs|
  {
    seq(|fs|, i requires 0 <= i < |fs| => Dec(fs[i]))
  }

  predicate All32(fs: seq<nat>) {
    forall i :: 0 <= i < |fs| ==> fs[i] < UINT_RANGE
  }

  /** Numbers as attributes, numbered on from `n`. */
  function Items(fs: seq<nat>, n: nat): Msg {
    if fs == [] then [] else [U32(Item(n), fs[0])] + Items(fs[1..], n + 1)
  }

  lemma {:induction false} ItemsOfDecs(fs: seq<nat>, n: nat)
    requires All32(fs)
    ensures AllNumerals(Decs(fs)) && NumberFreqs(Decs(fs), n) == Items(fs, n)
    decreases |fs|
  {
    hide Numeral, Dec;
    if fs != [] {
      DecU32(fs[0]);
      ItemsOfDecs(fs[1..], n + 1);
      assert Decs(fs)[1..] == Decs(fs[1..]);
      assert Decs(fs) == [Dec(fs[0])] + Decs(fs[1..]);
    }
  }

  /** A sentence with one more option in front. */
  lemma OptionFirst(o: Opt, more: seq<Opt>, c: Seen)
    ensures RenderAll([o] + more) == Render(o) + RenderAll(more)
    ensures Scalars([o] + more) == Scalar(o) + Scalars(more)
    ensures GivenFreqs([o] + more) == (if o.FreqList? then o.ts else []) + GivenFreqs(more)
    ensures GivenSsids([o] + more) == (if o.MatchList? then o.ssids else []) + GivenSsids(more)
    ensures HasFreqs([o] + more) <==> o.FreqList? || HasFreqs(more)
    ensures Acceptable([o] + more, c)
       <==> ValidOpt(o, c) && (more != [] ==> NonEmptyList(o)) && Acceptable(more, See(o, c))
  {
    hide Render, Scalar, ValidOpt, See, NonEmptyList;
    var opts := [o] + more;
    assert opts[1..] == more && opts[0] == o;
    assert forall i :: 0 < i < |opts| ==> opts[i] == more[i - 1];
    assert forall i :: 0 <= i < |more| ==> more[i] == opts[i + 1];
  }

  /** The four options in the order of the usage line. */
  function Four(interval: string, delay: string, freqs: seq<string>, ssids: seq<string>): seq<Opt> {
    [Interval(interval)] + ([Delay(delay)] + ([FreqList(freqs)] + ([MatchList(ssids)] + [])))
  }

  lemma FourAccepted(interval: string, delay: string, freqs: seq<string>, ssids: seq<string>)
    requires Numeral(interval, 10).Some? && Number(interval) != 0 && Numeral(delay, 10).Some?
    requires AllNumerals(freqs) && freqs != []
    ensures Acceptable(Four(interval, delay, freqs, ssids), NOTHING)
    ensures RenderAll(Four(interval, delay, freqs, ssids))
         == ["interval", interval] + (["delay", delay] + (["freqs"] + freqs + (["matches"] + RenderSsids(ssids) + [])))
    ensures Emitted(Four(interval, delay, freqs, ssids))
         == [U32(SchedScanInterval, Number(interval))] + ([U32(SchedScanDelay, Number(delay))] + ([] + ([] + [])))
            + Nest(ScanFrequencies, NumberFreqs([] + ([] + (freqs + ([] + []))), 0))
            + if ssids == [] then [] else Nest(SchedScanMatch, NumberSsids([] + ([] + ([] + (ssids + []))), 0))
  {
    hide Numeral, Number, AllNumerals, NumberFreqs, NumberSsids, RenderSsids, Nest,
         Acceptable, RenderAll, Scalars, GivenFreqs, GivenSsids, HasFreqs;
    var c1 := See(Interval(interval), NOTHING);
    var c2 := See(Delay(delay), c1);
    var c3 := See(FreqList(freqs), c2);
    NoOptions(See(MatchList(ssids), c3));
    var m := [MatchList(ssids)] + [];
    OptionFirst(MatchList(ssids), [], c3);
    OptionFirst(FreqList(freqs), m, c2);
    OptionFirst(Delay(delay), [FreqList(freqs)] + m, c1);
    OptionFirst(Interval(interval), [Delay(delay)] + ([FreqList(freqs)] + m), NOTHING);
  }

  lemma NoOptions(c: Seen)
    ensures RenderAll([]) == [] && Scalars([]) == [] && GivenFreqs([]) == [] && GivenSsids([]) == []
    ensures Acceptable([], c) && !HasFreqs([])
  {
  }

  /** A whole net-detect command over numbers: every number given comes out as it is. */
  lemma NumbersSent(interval: nat, delay: nat, fs: seq<nat>, ssids: seq<string>)
    requires 0 < interval < UINT_RANGE && delay < UINT_RANGE && All32(fs) && fs != []
    ensures Run(["interval", Dec(interval), "delay", Dec(delay), "freqs"] + Decs(fs) + ["matches"] + RenderSsids(ssids),
                START)
         == End(0, [], [U32(SchedScanInterval, interval), U32(SchedScanDelay, delay)]
                       + Nest(ScanFrequencies, Items(fs, 0))
                       + if ssids == [] then [] else Nest(SchedScanMatch, NumberSsids(ssids, 0)))
  {
    hide Run, Numeral, Dec, RenderSsids, NumberSsids, NumberFreqs, Items, Emitted, Four, Nest;
    DecU32(interval);
    DecU32(delay);
    ItemsOfDecs(fs, 0);
    var i, d, ts := Dec(interval), Dec(delay), Decs(fs);
    FourAccepted(i, d, ts, ssids);
    SentenceAccepted(Four(i, d, ts, ssids));
    Regrouped(i, d, ts, RenderSsids(ssids));
    assert [] + ([] + (ts + ([] + []))) == ts && [] + ([] + ([] + (ssids + []))) == ssids;
    var a, b := U32(SchedScanInterval, interval), U32(SchedScanDelay, delay);
    assert [a] + ([b] + ([] + ([] + []))) == [a, b];
  }

  lemma Regrouped(i: string, d: string, ts: seq<string>, ss: seq<string>)
    ensures ["interval", i] + (["delay", d] + (["freqs"] + ts + (["matches"] + ss + [])))
         == ["interval", i, "delay", d, "freqs"] + ts + ["matches"] + ss
  {
  }

  // ----- Refusals -------------------------------------------------------

  /** Whatever is refused is refused as invalid. */
  lemma {:induction false} RefusedAsInvalid(v: seq<string>, s: Vars)
    ensures Run(v, s).err == 0 || Run(v, s).err == -EINVAL
    decreases Measure(v, s)
  {
    assert Run([], s).err == 0;
    hide Run, Turn, Numeral;
    if v == [] {
    } else {
      RunTurn(v, s);
      TurnErr(v, s);
      var turn := Turn(v, s);
      if turn.Next? {
        RefusedAsInvalid(turn.v, turn.s);
      }
    }
  }

  lemma TurnErr(v: seq<string>, s: Vars)
    requires v != []
    ensures var turn := Turn(v, s); turn.Stop? ==> turn.end.err == 0 || turn.end.err == -EINVAL
  {
    hide Numeral;
  }
}
