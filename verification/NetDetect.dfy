/** `wowlan_parse_net_detect`: a state machine over the argument list that sometimes changes
    state without consuming an argument, and hands back whatever is not for it. */
module NetDetect {
  import opened CText
  import opened NlMessage

  datatype State = TopLevel | InMatches | InFreqs

  /** The local variables of the parser. `matches` and `freqs` are its two side messages. */
  datatype Vars = Vars(state: State, i: nat, interval: nat, delay: nat, haveMatches: bool, haveFreqs: bool,
                       msg: Msg, matches: Msg, freqs: Msg)

  /** Return value, arguments not consumed, and the tokens put between nest start and nest end. */
  datatype End = End(err: int, args: seq<string>, msg: Msg)

  datatype Step = Next(v: seq<string>, s: Vars) | Stop(end: End)

  function Quit(err: int, v: seq<string>, s: Vars): Step {
    Stop(End(err, v, s.msg))
  }

  function SsidToks(i: nat, ssid: string): Msg {
    Nest(Item(i), [Text(MatchSsid, ssid)])
  }

  function Measure(v: seq<string>, s: Vars): nat {
    2 * |v| + if s.state.TopLevel? then 0 else 1
  }

  /** No turn gives back arguments, and every turn that goes on lowers the measure. */
  predicate Shrinks(v: seq<string>, s: Vars, r: Step) {
    match r
    case Next(w, t) => |w| <= |v| && Measure(w, t) < Measure(v, s)
    case Stop(end) => |end.args| <= |v|
  }

  /** One turn of the loop, with at least one argument left. */
  function Turn(v: seq<string>, s: Vars): (r: Step)
    requires v != []
    ensures Shrinks(v, s, r)
  {
    match s.state
    case TopLevel => TopTurn(v, s)
    case InMatches =>
      if v[0] == "ssid" then
        if |v| == 1 then Quit(-EINVAL, [], s)
        else Next(v[2..], s.(matches := s.matches + SsidToks(s.i, v[1]), haveMatches := true, i := s.i + 1))
      else if s.i == 0 then Quit(-EINVAL, v, s)
      else Next(v, s.(state := TopLevel))
    case InFreqs =>
      match Numeral(v[0], 10)
      case None => if s.i == 0 then Quit(-EINVAL, v, s) else Next(v, s.(state := TopLevel))
      case Some(f) => Next(v[1..], s.(freqs := s.freqs + [U32(Item(s.i), ToU32(f))], i := s.i + 1))
  }

  function TopTurn(v: seq<string>, s: Vars): (r: Step)
    requires v != [] && s.state.TopLevel?
    ensures Shrinks(v, s, r)
  {
    if v[0] == "interval" then
      if |v| == 1 || s.interval != 0 then Quit(-EINVAL, v[1..], s)
      else match Numeral(v[1], 10)
        case None => Quit(-EINVAL, v[1..], s)
        case Some(x) =>
          if ToU32(x) == 0 then Quit(-EINVAL, v[1..], s)
          else Next(v[2..], s.(interval := ToU32(x), msg := s.msg + [U32(SchedScanInterval, ToU32(x))]))
    else if v[0] == "delay" then
      if |v| == 1 || s.delay != 0 then Quit(-EINVAL, v[1..], s)
      else match Numeral(v[1], 10)
        case None => Quit(-EINVAL, v[1..], s)
        case Some(x) => Next(v[2..], s.(delay := ToU32(x), msg := s.msg + [U32(SchedScanDelay, ToU32(x))]))
    else if v[0] == "matches" then
      if s.haveMatches then Quit(-EINVAL, v, s) else Next(v[1..], s.(state := InMatches, i := 0))
    else if v[0] == "freqs" then
      if s.haveFreqs then Quit(-EINVAL, v, s) else Next(v[1..], s.(state := InFreqs, haveFreqs := true, i := 0))
    else Quit(0, v, s)
  }

  /** The end of the loop with no argument left: only here are the two lists put. */
  function Finish(s: Vars): End {
    End(0, [],
        s.msg + (if s.haveFreqs then Nest(ScanFrequencies, s.freqs) else [])
              + (if s.haveMatches then Nest(SchedScanMatch, s.matches) else []))
  }

  /** A whole run. */
  function Run(v: seq<string>, s: Vars): (r: End)
    ensures |r.args| <= |v|
    decreases Measure(v, s)
  {
    if v == [] then Finish(s)
    else match Turn(v, s)
      case Stop(end) => end
      case Next(w, t) => Run(w, t)
  }

  const START := Vars(TopLevel, 0, 0, 0, false, false, [], [], [])

  function NetDetectEnd(v: seq<string>): (r: End)
    ensures |r.args| <= |v|
  {
    var r := Run(v, START);
    r.(msg := Nest(TrigNetDetect, r.msg))
  }

  lemma TurnLeavesSuffix(v: seq<string>, s: Vars)
    requires v != []
    ensures var r := Turn(v, s);
            var w := if r.Next? then r.v else r.end.args;
            w == v || w == v[1..] || (|v| >= 2 && w == v[2..])
  {
    hide Numeral;
  }

  /** argv moves by exactly as much as argc drops: what is left is a suffix of what was given. */
  lemma {:induction false} RunLeavesSuffix(v: seq<string>, s: Vars)
    ensures var left := Run(v, s).args; left == v[|v| - |left|..]
    decreases Measure(v, s)
  {
    hide Turn;
    if v != [] {
      RunTurn(v, s);
      TurnLeavesSuffix(v, s);
      var turn := Turn(v, s);
      if turn.Next? {
        RunLeavesSuffix(turn.v, turn.s);
      }
    }
  }

  lemma RunTurn(v: seq<string>, s: Vars)
    requires v != []
    ensures var turn := Turn(v, s); Run(v, s) == if turn.Stop? then turn.end else Run(turn.v, turn.s)
  {
  }

  /** The parser with its local variables: `pos` is how far argv has moved, argc is |argv| - pos. */
  class Parser {
    const argv: seq<string>
    var pos: nat
    var state: State
    var i: nat
    var interval: nat
    var delay: nat
    var haveMatches: bool
    var haveFreqs: bool
    var msg: Msg
    var matches: Msg
    var freqs: Msg

    constructor (argv: seq<string>, start: nat)
      requires start <= |argv|
      ensures this.argv == argv && pos == start && Locals() == START
    {
      this.argv, pos := argv, start;
      state, i, interval, delay := TopLevel, 0, 0, 0;
      haveMatches, haveFreqs := false, false;
      msg, matches, freqs := [], [], [];
    }

    ghost function Left(): seq<string>
      requires pos <= |argv|
      reads this
    {
      argv[pos..]
    }

    ghost function Locals(): Vars
      reads this
    {
      Vars(state, i, interval, delay, haveMatches, haveFreqs, msg, matches, freqs)
    }

    /** The step a case of the switch has taken, seen from outside. */
    ghost function Taken(go: bool, err: int): Step
      requires pos <= |argv|
      reads this
    {
      if go then Next(Left(), Locals()) else Stop(End(err, Left(), msg))
    }

    method TopLevelCase() returns (go: bool, err: int)
      requires pos < |argv| && state.TopLevel?
      modifies this
      ensures pos <= |argv|
      ensures Taken(go, err) == old(Turn(Left(), Locals()))
    {
      if argv[pos] == "interval" || argv[pos] == "delay" {
        var isInterval := argv[pos] == "interval";
        pos := pos + 1;
        if pos == |argv| || (if isInterval then interval else delay) != 0 {
          return false, -EINVAL;
        }
        var x := Numeral(argv[pos], 10);
        if x.None? || (isInterval && ToU32(x.value) == 0) {
          return false, -EINVAL;
        }
        if isInterval {
          interval := ToU32(x.value);
          msg := msg + [U32(SchedScanInterval, interval)];
        } else {
          delay := ToU32(x.value);
          msg := msg + [U32(SchedScanDelay, delay)];
        }
      } else if argv[pos] == "matches" {
        if haveMatches {
          return false, -EINVAL;
        }
        state, i := InMatches, 0;
      } else if argv[pos] == "freqs" {
        if haveFreqs {
          return false, -EINVAL;
        }
        state, haveFreqs, i := InFreqs, true, 0;
      } else {
        return false, 0;
      }
      pos := pos + 1;
      return true, 0;
    }

    method MatchCase() returns (go: bool, err: int)
      requires pos < |argv| && state.InMatches?
      modifies this
      ensures pos <= |argv|
      ensures Taken(go, err) == old(Turn(Left(), Locals()))
    {
      if argv[pos] == "ssid" {
        pos := pos + 1;
        if pos == |argv| {
          return false, -EINVAL;
        }
        matches := matches + SsidToks(i, argv[pos]);
        haveMatches := true;
        i := i + 1;
        pos := pos + 1;
      } else {
        if i == 0 {
          return false, -EINVAL;
        }
        state := TopLevel;
      }
      return true, 0;
    }

    method FreqsCase() returns (go: bool, err: int)
      requires pos < |argv| && state.InFreqs?
      modifies this
      ensures pos <= |argv|
      ensures Taken(go, err) == old(Turn(Left(), Locals()))
    {
      var f := Numeral(argv[pos], 10);
      if f.None? {
        if i == 0 {
          return false, -EINVAL;
        }
        state := TopLevel;
      } else {
        freqs := freqs + [U32(Item(i), ToU32(f.value))];
        i := i + 1;
        pos := pos + 1;
      }
      return true, 0;
    }

    method Parse() returns (err: int)
      requires pos <= |argv|
      modifies this
      ensures pos <= |argv|
      ensures End(err, Left(), msg) == old(Run(Left(), Locals()))
    {
      ghost var goal := Run(Left(), Locals());
      while pos < |argv|
        invariant pos <= |argv|
        invariant goal == Run(Left(), Locals())
        decreases Measure(Left(), Locals())
      {
        var go;
        RunTurn(Left(), Locals());
        match state {
          case TopLevel => go, err := TopLevelCase();
          case InMatches => go, err := MatchCase();
          case InFreqs => go, err := FreqsCase();
        }
        if !go {
          return;
        }
      }
      assert goal == Finish(Locals());
      if haveFreqs {
        msg := msg + Nest(ScanFrequencies, freqs);
      }
      if haveMatches {
        msg := msg + Nest(SchedScanMatch, matches);
      }
      return 0;
    }
  }

  /** `wowlan_parse_net_detect` itself, with the nest around everything it puts. */
  method ParseNetDetect(argv: seq<string>, start: nat) returns (err: int, pos: nat, msg: Msg)
    requires start <= |argv|
    ensures start <= pos <= |argv|
    ensures End(err, argv[pos..], msg) == NetDetectEnd(argv[start..])
  {
    var p := new Parser(argv, start);
    err := p.Parse();
    pos, msg := p.pos, Nest(TrigNetDetect, p.msg);
  }
}
