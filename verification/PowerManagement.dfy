/** The sample driver's power management: `ioctl_set_power` and `ioctl_get_power` over `net_local`. */
module PowerManagement {
  import opened CText
  import opened Octets

  const POWER_PERIOD := 0x1000
  const POWER_TIMEOUT := 0x2000
  const POWER_UNICAST_R := 0x0100
  const POWER_ALL_R := 0x0300
  const POWER_MIN := 0x0001
  const POWER_MAX := 0x0002
  const POWER_RELATIVE := 0x0004

  /** `struct iw_param` without its `fixed` field. */
  datatype Param = Param(value: int, disabled: bool, flags: nat)

  predicate Int32(x: int) {
    -0x8000_0000 <= x < 0x8000_0000
  }

  /** `flags & IW_POWER_MODE` */
  function Mode(flags: nat): nat {
    flags / 0x100 % 16 * 0x100
  }

  /** Division as C does it, toward zero. */
  function Quotient(a: int, b: int): (q: int)
    requires b > 0
    ensures a >= 0 ==> 0 <= b * q <= a < b * q + b
    ensures a <= 0 ==> b * q - b < a <= b * q <= 0
  {
    if a >= 0 then a / b else -(-a / b)
  }

  datatype Local = Local(on: bool, multi: bool, period: int, periodAuto: bool, maxPeriod: int, minPeriod: int,
                         timeout: int, needCommit: bool)

  const ZERO := Local(false, false, 0, false, 0, 0, 0, false)

  predicate GoodMode(flags: nat) {
    Mode(flags) == POWER_UNICAST_R || Mode(flags) == POWER_ALL_R || Mode(flags) == 0
  }

  predicate Accepts(r: Param) {
    r.disabled || GoodMode(r.flags)
  }

  /** The mode is the third hexadecimal digit of the flags, and three of its values are good. */
  lemma ModeDigit(high: nat, digit: nat, low: nat)
    requires digit < 16 && low < 256
    ensures var flags := 0x1000 * high + 0x100 * digit + low;
            Mode(flags) == 0x100 * digit && (GoodMode(flags) <==> digit == 0 || digit == 1 || digit == 3)
  {
    var flags := 0x1000 * high + 0x100 * digit + low;
    assert flags / 0x100 == 16 * high + digit;
  }

  function WithMode(p: Local, flags: nat): Local {
    if Mode(flags) == POWER_UNICAST_R then p.(multi := false, needCommit := true)
    else if Mode(flags) == POWER_ALL_R then p.(multi := true, needCommit := true)
    else p
  }

  function WithPeriod(p: Local, r: Param): Local {
    if !Has(r.flags, POWER_PERIOD) then p
    else
      var period := Quotient(r.value, 1000000);
      var q := p.(on := true, needCommit := true);
      if Has(r.flags, POWER_MIN) then q.(minPeriod := period, periodAuto := true)
      else if Has(r.flags, POWER_MAX) then q.(maxPeriod := period, periodAuto := true)
      else q.(period := period, periodAuto := false)
  }

  function WithTimeout(p: Local, r: Param): Local {
    if Has(r.flags, POWER_TIMEOUT) then p.(on := true, needCommit := true, timeout := Quotient(r.value, 1000)) else p
  }

  function Set(p: Local, r: Param): (q: Local)
    ensures !Accepts(r) ==> q == p
    ensures r.disabled ==> q == p.(on := false)
    ensures Accepts(r) && !r.disabled ==> q.on == (p.on || Has(r.flags, POWER_PERIOD) || Has(r.flags, POWER_TIMEOUT))
  {
    if r.disabled then p.(on := false)
    else if !GoodMode(r.flags) then p
    else WithTimeout(WithPeriod(WithMode(p, r.flags), r), r)
  }

  /** Get is refused when a bound is asked for and the period is fixed. */
  predicate GetAccepts(p: Local, flags: nat) {
    Has(flags, POWER_TIMEOUT) || p.periodAuto || !(Has(flags, POWER_MIN) || Has(flags, POWER_MAX))
  }

  function Get(p: Local, flags: nat): Param
    requires GetAccepts(p, flags)
  {
    var mode := if p.multi then POWER_ALL_R else POWER_UNICAST_R;
    if Has(flags, POWER_TIMEOUT) then Param(p.timeout * 1000, !p.on, POWER_TIMEOUT + mode)
    else if !p.periodAuto then Param(p.period * 1000000, !p.on, POWER_PERIOD + POWER_RELATIVE + mode)
    else if !Has(flags, POWER_MAX) then
      Param(p.minPeriod * 1000000, !p.on, POWER_PERIOD + POWER_RELATIVE + POWER_MIN + mode)
    else Param(p.maxPeriod * 1000000, !p.on, POWER_PERIOD + POWER_RELATIVE + POWER_MAX + mode)
  }

  class Driver {
    var on: bool
    var multi: bool
    var period: int
    var periodAuto: bool
    var maxPeriod: int
    var minPeriod: int
    var timeout: int
    var needCommit: bool

    ghost function Value(): Local
      reads this
    {
      Local(on, multi, period, periodAuto, maxPeriod, minPeriod, timeout, needCommit)
    }

    constructor ()
      ensures Value() == ZERO
    {
      on, multi, period, periodAuto := false, false, 0, false;
      maxPeriod, minPeriod, timeout, needCommit := 0, 0, 0, false;
    }

    method SetPower(prq: Param) returns (ret: int)
      modifies this
      ensures Value() == Set(old(Value()), prq)
      ensures ret == if Accepts(prq) then 0 else -EINVAL
    {
      hide Has, Mode, Quotient;
      if prq.disabled {
        on := false;
        return 0;
      }
      if Mode(prq.flags) == POWER_UNICAST_R {
        multi, needCommit := false, true;
      } else if Mode(prq.flags) == POWER_ALL_R {
        multi, needCommit := true, true;
      } else if Mode(prq.flags) != 0 {
        return -EINVAL;
      }
      if Has(prq.flags, POWER_PERIOD) {
        var p := Quotient(prq.value, 1000000);
        on, needCommit := true, true;
        if Has(prq.flags, POWER_MIN) {
          minPeriod, periodAuto := p, true;
        } else if Has(prq.flags, POWER_MAX) {
          maxPeriod, periodAuto := p, true;
        } else {
          period, periodAuto := p, false;
        }
      }
      if Has(prq.flags, POWER_TIMEOUT) {
        on, needCommit := true, true;
        timeout := Quotient(prq.value, 1000);
      }
      ret := 0;
    }

    method GetPower(prq: Param) returns (ret: int, reply: Param)
      ensures ret == if GetAccepts(Value(), prq.flags) then 0 else -EINVAL
      ensures ret == 0 ==> reply == Get(Value(), prq.flags)
    {
      hide Has;
      reply := prq.(disabled := !on);
      if !Has(prq.flags, POWER_TIMEOUT) {
        reply := reply.(flags := POWER_PERIOD + POWER_RELATIVE);
        if periodAuto {
          if !Has(prq.flags, POWER_MAX) {
            reply := reply.(value := minPeriod * 1000000, flags := reply.flags + POWER_MIN);
          } else {
            reply := reply.(value := maxPeriod * 1000000, flags := reply.flags + POWER_MAX);
          }
        } else {
          if Has(prq.flags, POWER_MIN) || Has(prq.flags, POWER_MAX) {
            return -EINVAL, reply;
          }
          reply := reply.(value := period * 1000000);
        }
      } else {
        reply := reply.(flags := POWER_TIMEOUT, value := timeout * 1000);
      }
      reply := reply.(flags := reply.flags + if multi then POWER_ALL_R else POWER_UNICAST_R);
      ret := 0;
    }
  }

  // ----- Over every run -------------------------------------------------

  function Run(reqs: seq<Param>): Local {
    if reqs == [] then ZERO else Set(Run(reqs[..|reqs| - 1]), reqs[|reqs| - 1])
  }

  /** What a request can be about. */
  datatype Kind = Switch | Reception | AnyPeriod | FixedPeriod | MinPeriod | MaxPeriod | Timeout

  /** A request gives something of a kind: it is accepted, and its flags say so. A period given as
      minimum and maximum at once is a minimum. */
  predicate Gives(r: Param, k: Kind) {
    if r.disabled then k.Switch?
    else
      && GoodMode(r.flags)
      && match k
         case Switch => Has(r.flags, POWER_PERIOD) || Has(r.flags, POWER_TIMEOUT)
         case Reception => Mode(r.flags) != 0
         case AnyPeriod => Has(r.flags, POWER_PERIOD)
         case FixedPeriod => Has(r.flags, POWER_PERIOD) && !Has(r.flags, POWER_MIN) && !Has(r.flags, POWER_MAX)
         case MinPeriod => Has(r.flags, POWER_PERIOD) && Has(r.flags, POWER_MIN)
         case MaxPeriod => Has(r.flags, POWER_PERIOD) && !Has(r.flags, POWER_MIN) && Has(r.flags, POWER_MAX)
         case Timeout => Has(r.flags, POWER_TIMEOUT)
  }

  /** The last request of a history that gives something of a kind. */
  function LastGiven(reqs: seq<Param>, k: Kind): (last: Option<Param>)
    ensures last.Some? ==> last.value in reqs && Gives(last.value, k)
    ensures last.None? <==> forall i :: 0 <= i < |reqs| ==> !Gives(reqs[i], k)
  {
    if reqs == [] then None
    else
      var r := reqs[|reqs| - 1];
      if Gives(r, k) then Some(r) else LastGiven(reqs[..|reqs| - 1], k)
  }

  /** The number last given, in units of `unit`; 0 if none was. */
  function LastValue(reqs: seq<Param>, k: Kind, unit: int): int
    requires unit > 0
  {
    var last := LastGiven(reqs, k);
    if last.None? then 0 else Quotient(last.value.value, unit)
  }

  predicate Commits(r: Param) {
    !r.disabled && (Gives(r, Reception) || Gives(r, AnyPeriod) || Gives(r, Timeout))
  }

  predicate SomeCommits(reqs: seq<Param>) {
    exists i :: 0 <= i < |reqs| && Commits(reqs[i])
  }

  /** A request changes a setting iff it gives something of its kind. */
  lemma SetChanges(p: Local, r: Param)
    ensures var q := Set(p, r);
            && q.on == (if Gives(r, Switch) then !r.disabled else p.on)
            && q.multi == (if Gives(r, Reception) then Mode(r.flags) == POWER_ALL_R else p.multi)
            && q.periodAuto == (if Gives(r, AnyPeriod) then !Gives(r, FixedPeriod) else p.periodAuto)
            && q.period == (if Gives(r, FixedPeriod) then Quotient(r.value, 1000000) else p.period)
            && q.minPeriod == (if Gives(r, MinPeriod) then Quotient(r.value, 1000000) else p.minPeriod)
            && q.maxPeriod == (if Gives(r, MaxPeriod) then Quotient(r.value, 1000000) else p.maxPeriod)
            && q.timeout == (if Gives(r, Timeout) then Quotient(r.value, 1000) else p.timeout)
            && q.needCommit == (p.needCommit || Commits(r))
  {
    hide Has, Mode, Quotient;
  }

  lemma LastStep(before: seq<Param>, r: Param, k: Kind)
    ensures LastGiven(before + [r], k) == if Gives(r, k) then Some(r) else LastGiven(before, k)
  {
    hide Gives;
    assert (before + [r])[..|before|] == before;
  }

  lemma CommitsStep(before: seq<Param>, r: Param)
    ensures SomeCommits(before + [r]) <==> SomeCommits(before) || Commits(r)
  {
    hide Commits;
    var reqs := before + [r];
    assert reqs[|before|] == r && forall i :: 0 <= i < |before| ==> reqs[i] == before[i];
  }

  /** Settings as a history of requests leaves them, read off the requests alone. */
  function Told(reqs: seq<Param>): Local {
    var switch, mode, period := LastGiven(reqs, Switch), LastGiven(reqs, Reception), LastGiven(reqs, AnyPeriod);
    Local(switch.Some? && !switch.value.disabled,
          mode.Some? && Mode(mode.value.flags) == POWER_ALL_R,
          LastValue(reqs, FixedPeriod, 1000000),
          period.Some? && !Gives(period.value, FixedPeriod),
          LastValue(reqs, MaxPeriod, 1000000),
          LastValue(reqs, MinPeriod, 1000000),
          LastValue(reqs, Timeout, 1000),
          SomeCommits(reqs))
  }

  /** After every history of requests each setting is the one last given: it is on iff the last request
      that switches does not disable; the period is automatic iff the last one given is a bound; all
      multicasts are received iff the last mode says so; and a commit is needed iff a mode, a period
      or a timeout was ever given. */
  lemma {:induction false} RunIsHistory(reqs: seq<Param>)
    ensures Run(reqs) == Told(reqs)
  {
    assert Told([]) == ZERO;
    hide Has, Mode, Quotient, Set, Gives, LastGiven, Commits, SomeCommits;
    if reqs == [] {
    } else {
      var before, r := reqs[..|reqs| - 1], reqs[|reqs| - 1];
      RunIsHistory(before);
      assert reqs == before + [r];
      SetChanges(Run(before), r);
      LastStep(before, r, Switch);
      LastStep(before, r, Reception);
      LastStep(before, r, AnyPeriod);
      LastStep(before, r, FixedPeriod);
      LastStep(before, r, MinPeriod);
      LastStep(before, r, MaxPeriod);
      LastStep(before, r, Timeout);
      CommitsStep(before, r);
    }
  }

  /** Stored numbers small enough for the multiplications of get. */
  predicate Bounded(p: Local) {
    && -2147 <= p.period <= 2147 && -2147 <= p.minPeriod <= 2147 && -2147 <= p.maxPeriod <= 2147
    && -2147483 <= p.timeout <= 2147483
  }

  lemma {:induction false} RunIsBounded(reqs: seq<Param>)
    requires forall i :: 0 <= i < |reqs| ==> Int32(reqs[i].value)
    ensures Bounded(Run(reqs))
  {
    hide Set, Gives, Commits, Mode, Quotient;
    if reqs != [] {
      RunIsBounded(reqs[..|reqs| - 1]);
      QuotientBounds(reqs[|reqs| - 1].value);
      SetChanges(Run(reqs[..|reqs| - 1]), reqs[|reqs| - 1]);
    }
  }

  lemma QuotientBounds(x: int)
    requires Int32(x)
    ensures -2147 <= Quotient(x, 1000000) <= 2147
    ensures -2147483 <= Quotient(x, 1000) <= 2147483
  {
  }

  /** On every run of 32-bit requests the value get replies is a 32-bit number. */
  lemma GetStaysIn32Bits(reqs: seq<Param>, flags: nat)
    requires forall i :: 0 <= i < |reqs| ==> Int32(reqs[i].value)
    requires GetAccepts(Run(reqs), flags)
    ensures Int32(Get(Run(reqs), flags).value)
  {
    hide Has;
    RunIsBounded(reqs);
  }

  /** The flags a reply is made of, as set reads them. */
  lemma ReplyFlags(kind: nat, multi: bool)
    requires kind == POWER_TIMEOUT || kind == POWER_PERIOD + POWER_RELATIVE
          || kind == POWER_PERIOD + POWER_RELATIVE + POWER_MIN || kind == POWER_PERIOD + POWER_RELATIVE + POWER_MAX
    ensures var flags := kind + if multi then POWER_ALL_R else POWER_UNICAST_R;
            && Mode(flags) == (if multi then POWER_ALL_R else POWER_UNICAST_R)
            && Has(flags, POWER_TIMEOUT) == (kind == POWER_TIMEOUT)
            && Has(flags, POWER_PERIOD) == (kind != POWER_TIMEOUT)
            && Has(flags, POWER_MIN) == (kind == POWER_PERIOD + POWER_RELATIVE + POWER_MIN)
            && Has(flags, POWER_MAX) == (kind == POWER_PERIOD + POWER_RELATIVE + POWER_MAX)
  {
  }

  lemma QuotientBack(x: int)
    ensures Quotient(x * 1000, 1000) == x
    ensures Quotient(x * 1000000, 1000000) == x
  {
  }

  /** Setting what get replied leaves every setting as it was; only the commit mark may come on. */
  lemma SetWhatGetReplied(p: Local, flags: nat)
    requires GetAccepts(p, flags)
    ensures Accepts(Get(p, flags))
    ensures Set(p, Get(p, flags)) == p.(needCommit := p.needCommit || p.on)
  {
    hide Has, Mode, Quotient;
    ReplyFlags(POWER_TIMEOUT, p.multi);
    ReplyFlags(POWER_PERIOD + POWER_RELATIVE, p.multi);
    ReplyFlags(POWER_PERIOD + POWER_RELATIVE + POWER_MIN, p.multi);
    ReplyFlags(POWER_PERIOD + POWER_RELATIVE + POWER_MAX, p.multi);
    QuotientBack(p.timeout);
    QuotientBack(p.period);
    QuotientBack(p.minPeriod);
    QuotientBack(p.maxPeriod);
  }

  /** After a set, a get for the timeout or for the same kind of period gives the value back, cut to
      whole steps. The one exception is a period set as minimum and maximum at once: only the minimum
      is stored, and the maximum is what get replies with. */
  lemma GetWhatWasSet(p: Local, r: Param, ask: nat)
    requires !r.disabled && GoodMode(r.flags)
    requires Has(ask, POWER_MIN) == Has(r.flags, POWER_MIN) && Has(ask, POWER_MAX) == Has(r.flags, POWER_MAX)
    ensures Has(r.flags, POWER_TIMEOUT) && Has(ask, POWER_TIMEOUT) ==>
              && GetAccepts(Set(p, r), ask) && !Get(Set(p, r), ask).disabled
              && Get(Set(p, r), ask).value == Quotient(r.value, 1000) * 1000
    ensures Has(r.flags, POWER_PERIOD) && !Has(ask, POWER_TIMEOUT) ==>
              && GetAccepts(Set(p, r), ask) && !Get(Set(p, r), ask).disabled
              && (Get(Set(p, r), ask).value == Quotient(r.value, 1000000) * 1000000
                  <==> !(Has(r.flags, POWER_MIN) && Has(r.flags, POWER_MAX))
                       || p.maxPeriod == Quotient(r.value, 1000000))
  {
    hide Has, Mode, Quotient;
  }

  /** Five seconds set as minimum and maximum at once read back as no time at all. */
  lemma BothBoundsLost()
    ensures Get(Set(ZERO, Param(5000000, false, POWER_PERIOD + POWER_MIN + POWER_MAX)),
                POWER_PERIOD + POWER_MIN + POWER_MAX).value == 0
  {
    GetWhatWasSet(ZERO, Param(5000000, false, POWER_PERIOD + POWER_MIN + POWER_MAX),
                  POWER_PERIOD + POWER_MIN + POWER_MAX);
  }
}
