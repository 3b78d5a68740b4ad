/** The wireless event stream: `iw_init_event_stream`, `iw_extract_event_stream` and the loop of
    `iwlist` around them. A stream holds events one after the other; an event that is not of the
    point type may hold several values of its type one after the other. */
module EventStream {
  import opened CText
  import opened Octets

  datatype Type = NullType | CharType | UintType | FreqType | AddrType | PointType | ParamType | QualType

  /** Sizes that depend on the machine: the event prefix (4 bytes, or 8 with padding) and the fixed
      part of a point event. */
  datatype Layout = Layout(header: nat, point: nat) {
    predicate Valid() {
      header >= 4 && point >= 4
    }

    /** Bytes of one value of a type, prefix not counted; 0 for events that are not known. */
    function ValueSize(t: Type): (n: nat)
      ensures Valid() && t != NullType ==> n >= 4
    {
      match t
      case NullType => 0
      case CharType => 16
      case UintType => 4
      case FreqType => 8
      case AddrType => 16
      case PointType => point
      case ParamType => 8
      case QualType => 4
    }
  }

  const SIOCIWFIRST := 0x8B00
  const SIOCIWLAST := 0x8BFF
  const IWEVFIRST := 0x8C00

  const IOCTL_NUM := 46
  const EVENT_NUM := 5

  /** Types of the requests from SIOCIWFIRST on. */
  function IoctlType(index: nat): Type {
    match index
    case 0 => NullType case 1 => CharType case 2 => ParamType case 3 => ParamType
    case 4 => FreqType case 5 => FreqType case 6 => UintType case 7 => UintType
    case 8 => ParamType case 9 => ParamType case 10 => NullType case 11 => PointType
    case 12 => NullType case 13 => PointType case 14 => NullType case 15 => PointType
    case 16 => PointType case 17 => PointType case 18 => NullType case 19 => NullType
    case 20 => AddrType case 21 => AddrType case 22 => NullType case 23 => PointType
    case 24 => ParamType case 25 => PointType case 26 => PointType case 27 => PointType
    case 28 => PointType case 29 => PointType case 30 => NullType case 31 => NullType
    case 32 => ParamType case 33 => ParamType case 34 => ParamType case 35 => ParamType
    case 36 => ParamType case 37 => ParamType case 38 => ParamType case 39 => ParamType
    case 40 => ParamType case 41 => ParamType case 42 => PointType case 43 => PointType
    case 44 => ParamType case 45 => ParamType
    case _ => NullType
  }

  /** Types of the events from IWEVFIRST on. */
  function EventType(index: nat): Type {
    match index
    case 0 => AddrType case 1 => QualType case 2 => PointType case 3 => AddrType case 4 => AddrType
    case _ => NullType
  }

  /** The index is unsigned, so a command below the first one is out of range, too. */
  function TypeOf(cmd: nat): Type {
    if cmd <= SIOCIWLAST then
      var index := (cmd - SIOCIWFIRST) % UINT_RANGE;
      if index < IOCTL_NUM then IoctlType(index) else NullType
    else
      var index := (cmd - IWEVFIRST) % UINT_RANGE;
      if index < EVENT_NUM then EventType(index) else NullType
  }

  lemma IoctlTypes(i: nat)
    ensures IoctlType(i) == CharType <==> i == 0x01
    ensures IoctlType(i) == UintType <==> i == 0x06 || i == 0x07
    ensures IoctlType(i) == FreqType <==> i == 0x04 || i == 0x05
    ensures IoctlType(i) == AddrType <==> i == 0x14 || i == 0x15
    ensures IoctlType(i) != QualType
    ensures IoctlType(i) == ParamType
       <==> 0x02 <= i <= 0x03 || 0x08 <= i <= 0x09 || i == 0x18 || 0x20 <= i <= 0x29 || 0x2C <= i <= 0x2D
    ensures IoctlType(i) == PointType
       <==> || i == 0x0B || i == 0x0D || 0x0F <= i <= 0x11 || i == 0x17
            || 0x19 <= i <= 0x1D || 0x2A <= i <= 0x2B
  {
  }

  /** The types of all commands there are. */
  lemma CommandTypes(cmd: nat)
    requires cmd < 0x10000
    ensures TypeOf(cmd) == CharType <==> cmd == 0x8B01
    ensures TypeOf(cmd) == UintType <==> cmd == 0x8B06 || cmd == 0x8B07
    ensures TypeOf(cmd) == FreqType <==> cmd == 0x8B04 || cmd == 0x8B05
    ensures TypeOf(cmd) == AddrType
       <==> cmd == 0x8B14 || cmd == 0x8B15 || cmd == 0x8C00 || cmd == 0x8C03 || cmd == 0x8C04
    ensures TypeOf(cmd) == QualType <==> cmd == 0x8C01
    ensures TypeOf(cmd) == ParamType
       <==> || 0x8B02 <= cmd <= 0x8B03 || 0x8B08 <= cmd <= 0x8B09 || cmd == 0x8B18
            || 0x8B20 <= cmd <= 0x8B29 || 0x8B2C <= cmd <= 0x8B2D
    ensures TypeOf(cmd) == PointType
       <==> || cmd == 0x8B0B || cmd == 0x8B0D || 0x8B0F <= cmd <= 0x8B11 || cmd == 0x8B17
            || 0x8B19 <= cmd <= 0x8B1D || 0x8B2A <= cmd <= 0x8B2B || cmd == 0x8C02
  {
    hide IoctlType;
    if 0x8B00 <= cmd {
      IoctlTypes(cmd - 0x8B00);
    }
  }

  /** Values are as large as the members of the C types: an interface name of 16 characters; 32 bits; a
      32-bit mantissa, a 16-bit exponent and two bytes; a socket address of 16 bytes; a 32-bit value,
      two bytes and 16 bits of flags; four bytes. */
  lemma ValueSizes(layout: Layout)
    ensures layout.ValueSize(CharType) == 16 && layout.ValueSize(UintType) == 4
    ensures layout.ValueSize(FreqType) == 4 + 2 + 2 && layout.ValueSize(AddrType) == 2 + 14
    ensures layout.ValueSize(ParamType) == 4 + 2 + 2 && layout.ValueSize(QualType) == 4 * 1
    ensures layout.ValueSize(PointType) == layout.point && layout.ValueSize(NullType) == 0
  {
  }

  // ----- One call -------------------------------------------------------

  /** What a call delivers: event length and command, the fixed bytes copied, and the offset of a
      point event's payload. */
  datatype Event = Event(len: nat, cmd: nat, body: seq<Byte>, payload: Option<nat>)

  /** Nothing copied. */
  const NO_EVENT := Event(0, 0, [], None)

  /** The cursor: offsets of the current event and of the current value in it. */
  datatype Cursor = Cursor(current: nat, value: Option<nat>)

  datatype Call = Call(ret: int, event: Event, after: Cursor)

  function Extract(layout: Layout, data: seq<Byte>, c: Cursor): Call
    requires layout.Valid()
  {
    if c.current + layout.header > |data| then Call(0, NO_EVENT, c)
    else
      var len := U16(data, c.current);
      var cmd := U16(data, c.current + 2);
      var skip := Cursor(c.current + len, c.value);
      if len <= layout.header then Call(-1, Event(len, cmd, [], None), c)
      else
        var t := TypeOf(cmd);
        var size := layout.ValueSize(t);
        if size == 0 then Call(2, Event(len, cmd, [], None), skip)
        else
          var pointer := if c.value.Some? then c.value.value else c.current + layout.header;
          if pointer + size > |data| then Call(-2, Event(len, cmd, [], None), skip)
          else
            var body := data[pointer..pointer + size];
            if t.PointType? then
              // Unsigned subtraction: the difference is positive unless it is zero.
              Call(1, Event(len, cmd, body, if len == layout.header + size then None else Some(pointer + size)), skip)
            else
              Call(1, Event(len, cmd, body, None),
                   if pointer + 2 * size <= c.current + len then Cursor(c.current, Some(pointer + size))
                   else Cursor(c.current + len, None))
  }

  /** `struct stream_descr` over its buffer. */
  class Stream {
    const layout: Layout
    const data: seq<Byte>
    var current: nat
    var value: Option<nat>

    ghost function At(): Cursor
      reads this
    {
      Cursor(current, value)
    }

    constructor (layout: Layout, data: seq<Byte>)
      ensures this.layout == layout && this.data == data
      ensures At() == Cursor(0, None)
    {
      this.layout, this.data := layout, data;
      current, value := 0, None;
    }

    method ExtractEvent() returns (ret: int, iwe: Event)
      requires layout.Valid()
      modifies this
      ensures Call(ret, iwe, At()) == Extract(layout, data, old(At()))
    {
      hide TypeOf;
      iwe := NO_EVENT;
      if current + layout.header > |data| {
        return 0, iwe;
      }
      var len := U16(data, current);
      var cmd := U16(data, current + 2);
      iwe := Event(len, cmd, [], None);
      if len <= layout.header {
        return -1, iwe;
      }
      var t := TypeOf(cmd);
      var size := layout.ValueSize(t);
      if size == 0 {
        current := current + len;
        return 2, iwe;
      }
      var pointer := if value.Some? then value.value else current + layout.header;
      if pointer + size > |data| {
        current := current + len;
        return -2, iwe;
      }
      iwe := iwe.(body := data[pointer..pointer + size]);
      pointer := pointer + size;
      if t.PointType? {
        if len != layout.header + size {
          iwe := iwe.(payload := Some(pointer));
        }
        current := current + len;
      } else if pointer + size <= current + len {
        value := Some(pointer);
      } else {
        value := None;
        current := current + len;
      }
      ret := 1;
    }
  }

  // ----- Whole runs -----------------------------------------------------

  /** A value pointer is set only inside a known event that is not a point event, with one more
      whole value of that event behind it. */
  predicate Sound(layout: Layout, data: seq<Byte>, c: Cursor)
    requires layout.Valid()
  {
    c.value.Some? ==>
      && c.current + layout.header <= |data|
      && var t := TypeOf(U16(data, c.current + 2));
         var len := U16(data, c.current);
         && t != NullType && t != PointType && layout.header < len
         && c.current + layout.header <= c.value.value
         && c.value.value + layout.ValueSize(t) <= c.current + len
  }

  /** Bytes from the cursor to the end of the buffer. */
  function Remaining(data: seq<Byte>, c: Cursor): nat {
    var at := if c.value.Some? then c.value.value else c.current;
    if at <= |data| then |data| - at else 0
  }

  /** Every call that delivers something keeps the cursor sound and moves it at least four bytes on,
      inside the buffer. Of the others only one that returns -2 inside an event can leave it unsound. */
  lemma ExtractAdvances(layout: Layout, data: seq<Byte>, c: Cursor)
    requires layout.Valid() && Sound(layout, data, c)
    ensures var r := Extract(layout, data, c);
            && (r.ret == 0 || r.ret == -1 || r.ret == -2 || r.ret == 1 || r.ret == 2)
            && (r.ret > 0 ==> Sound(layout, data, r.after) && Remaining(data, c) >= 4
                              && Remaining(data, r.after) <= Remaining(data, c) - 4)
            && (r.ret != -2 || c.value.None? ==> Sound(layout, data, r.after))
  {
    hide TypeOf;
  }

  /** A value pointer stays behind when the value it points to is not in the buffer. */
  lemma StaleValue()
    ensures var data: seq<Byte> := [16, 0, 0x07, 0x8B, 1, 2, 3, 4];
            var c := Cursor(0, Some(8));
            var r := Extract(Layout(4, 8), data, c);
            && Sound(Layout(4, 8), data, c)
            && r.ret == -2 && r.after == Cursor(16, Some(8)) && !Sound(Layout(4, 8), data, r.after)
  {
    var data: seq<Byte> := [16, 0, 0x07, 0x8B, 1, 2, 3, 4];
    assert TypeOf(0x8B07) == UintType;
    assert U16(data, 0) == 16 && U16(data, 2) == 0x8B07;
  }

  /** A return value with the event it came with. */
  datatype Result = Result(ret: int, event: Event)

  /** The results up to and without the first call that delivers nothing, and its return value. */
  datatype Run = Run(results: seq<Result>, last: int)

  function Decode(layout: Layout, data: seq<Byte>, c: Cursor): (r: Run)
    requires layout.Valid() && Sound(layout, data, c)
    ensures 4 * |r.results| <= Remaining(data, c)
    decreases Remaining(data, c)
  {
    ExtractAdvances(layout, data, c);
    var call := Extract(layout, data, c);
    if call.ret <= 0 then Run([], call.ret)
    else Ahead(Result(call.ret, call.event), Decode(layout, data, call.after))
  }

  /** Decoding from the start of an event. */
  function DecodeFrom(layout: Layout, data: seq<Byte>, at: nat): (r: Run)
    requires layout.Valid()
    ensures 4 * |r.results| <= if at <= |data| then |data| - at else 0
  {
    SoundAtEvent(layout, data, at);
    Decode(layout, data, Cursor(at, None))
  }

  function Ahead(first: Result, r: Run): Run {
    Run([first] + r.results, r.last)
  }

  function Behind(results: seq<Result>, r: Run): Run {
    Run(results + r.results, r.last)
  }

  lemma BehindAhead(results: seq<Result>, x: Result, r: Run)
    ensures Behind(results, Ahead(x, r)) == Behind(results + [x], r)
  {
    assert results + ([x] + r.results) == results + [x] + r.results;
  }

  /** The loop of `iwlist` over a buffer: it ends on every buffer after at most a quarter as many
      calls as there are bytes, and one more. */
  method Scan(layout: Layout, data: seq<Byte>) returns (results: seq<Result>, last: int, calls: nat)
    requires layout.Valid()
    ensures Run(results, last) == DecodeFrom(layout, data, 0) && last <= 0
    ensures calls == |results| + 1 && 4 * (calls - 1) <= |data|
  {
    hide Extract, Sound;
    SoundAtEvent(layout, data, 0);
    var stream := new Stream(layout, data);
    ghost var goal := DecodeFrom(layout, data, 0);
    results, calls, last := [], 0, 1;
    while last > 0
      invariant stream.layout == layout && stream.data == data
      invariant last > 0 ==> Sound(layout, data, stream.At()) && calls == |results|
                             && goal == Behind(results, Decode(layout, data, stream.At()))
      invariant last <= 0 ==> calls == |results| + 1 && goal == Run(results, last)
      decreases if last > 0 then 1 else 0, Remaining(data, stream.At())
    {
      ExtractAdvances(layout, data, stream.At());
      var iwe;
      last, iwe := stream.ExtractEvent();
      calls := calls + 1;
      if last > 0 {
        BehindAhead(results, Result(last, iwe), Decode(layout, data, stream.At()));
        results := results + [Result(last, iwe)];
      } else {
        assert results + [] == results;
      }
    }
  }

  lemma SoundAtEvent(layout: Layout, data: seq<Byte>, at: nat)
    requires layout.Valid()
    ensures Sound(layout, data, Cursor(at, None))
  {
  }

  // ----- Where delivered bytes come from --------------------------------

  /** The result is what stands in the buffer: an event's prefix at `at` and a value at `p`, which is
      the first place behind the prefix or a later one with the whole value inside the event. */
  predicate From(layout: Layout, data: seq<Byte>, r: Result, at: nat, p: nat) {
    && layout.Valid() && at + layout.header <= |data|
    && r.event.len == U16(data, at) > layout.header && r.event.cmd == U16(data, at + 2)
    && var t := TypeOf(r.event.cmd);
       var size := layout.ValueSize(t);
       && r.ret == (if t.NullType? then 2 else 1)
       && (p == at + layout.header || (Shared(t) && at + layout.header < p && p + size <= at + r.event.len))
       && p + size <= |data| && r.event.body == data[p..p + size]
       && r.event.payload == if t.PointType? && r.event.len != layout.header + size then Some(p + size) else None
  }

  /** Events of this type may hold several values. */
  predicate Shared(t: Type) {
    !t.NullType? && !t.PointType?
  }

  lemma ExtractFrom(layout: Layout, data: seq<Byte>, c: Cursor)
    requires layout.Valid() && Sound(layout, data, c)
    ensures var r := Extract(layout, data, c);
            r.ret > 0 ==>
              && From(layout, data, Result(r.ret, r.event), c.current,
                      if c.value.Some? then c.value.value else c.current + layout.header)
              && (!Shared(TypeOf(r.event.cmd)) ==> r.after == Cursor(c.current + r.event.len, None))
  {
    hide TypeOf;
  }

  /** A delivered result. With another one behind it, an event that holds one value only ends inside
      the buffer. */
  ghost predicate Delivered(layout: Layout, data: seq<Byte>, r: Result, more: bool) {
    exists at: nat, p: nat :: From(layout, data, r, at, p)
                              && (more && !Shared(TypeOf(r.event.cmd)) ==> at + r.event.len <= |data|)
  }

  /** Every run, on any buffer whatever, delivers only what stands in the buffer, and ends with 0, -1
      or -2. */
  lemma {:induction false} DeliversOnlyTheBuffer(layout: Layout, data: seq<Byte>, c: Cursor)
    requires layout.Valid() && Sound(layout, data, c)
    ensures var r := Decode(layout, data, c);
            && (r.last == 0 || r.last == -1 || r.last == -2)
            && forall i :: 0 <= i < |r.results| ==> Delivered(layout, data, r.results[i], i < |r.results| - 1)
    decreases Remaining(data, c)
  {
    hide Extract, Sound, From, Shared;
    ExtractAdvances(layout, data, c);
    ExtractFrom(layout, data, c);
    var call := Extract(layout, data, c);
    if call.ret > 0 {
      DeliversOnlyTheBuffer(layout, data, call.after);
      DeliversInside(layout, data, call.after);
      var rest := Decode(layout, data, call.after);
      var r := Decode(layout, data, c);
      assert r.results == [Result(call.ret, call.event)] + rest.results;
      forall i | 0 < i < |r.results|
        ensures Delivered(layout, data, r.results[i], i < |r.results| - 1)
      {
        assert r.results[i] == rest.results[i - 1];
      }
    }
  }

  lemma DeliversInside(layout: Layout, data: seq<Byte>, c: Cursor)
    requires layout.Valid() && Sound(layout, data, c)
    ensures Decode(layout, data, c).results != [] ==> c.current <= |data|
  {
    hide TypeOf;
  }

  /** The payload a point event at `at` hands out, from its offset to the end of the event, stands in
      the buffer. */
  predicate PayloadInside(data: seq<Byte>, e: Event, at: nat) {
    e.payload.Some? ==> e.payload.value <= at + e.len <= |data|
  }

  /** A point event is delivered once its fixed part is in the buffer, whatever its length says. It
      comes with a payload offset unless its length is exactly that of the fixed part. The payload
      stands in the buffer iff the length covers the fixed part and the event ends in the buffer. */
  lemma PayloadOffsetIff(layout: Layout, data: seq<Byte>, at: nat)
    requires layout.Valid() && at + layout.header + layout.point <= |data|
    requires U16(data, at) > layout.header && TypeOf(U16(data, at + 2)).PointType?
    ensures var r := Extract(layout, data, Cursor(at, None));
            var len, fixed := U16(data, at), layout.header + layout.point;
            && r.ret == 1 && r.event.payload == (if len == fixed then None else Some(at + fixed))
            && (PayloadInside(data, r.event, at) <==> fixed <= len && at + len <= |data|)
  {
    hide TypeOf;
  }

  /** An event of five bytes comes with a payload offset behind its fixed part of twelve; one of 4096
      bytes comes with a payload of which nothing is in the buffer. */
  lemma PayloadOutside()
    ensures var data: seq<Byte> := [5, 0, 0x1B, 0x8B, 0, 0, 0, 0, 0, 0, 0, 0];
            var r := Extract(Layout(4, 8), data, Cursor(0, None));
            r.ret == 1 && r.event.len == 5 && r.event.payload == Some(12) && !PayloadInside(data, r.event, 0)
    ensures var data: seq<Byte> := [0x00, 0x10, 0x1B, 0x8B, 5, 0, 0, 0, 0, 0, 0, 0];
            var r := Extract(Layout(4, 8), data, Cursor(0, None));
            r.ret == 1 && r.event.len == 0x1000 && r.event.payload == Some(12) && !PayloadInside(data, r.event, 0)
  {
    var short: seq<Byte> := [5, 0, 0x1B, 0x8B, 0, 0, 0, 0, 0, 0, 0, 0];
    var long: seq<Byte> := [0x00, 0x10, 0x1B, 0x8B, 5, 0, 0, 0, 0, 0, 0, 0];
    assert TypeOf(0x8B1B) == PointType;
    hide TypeOf;
    PayloadOffsetIff(Layout(4, 8), short, 0);
    PayloadOffsetIff(Layout(4, 8), long, 0);
  }

  // ----- Encoded streams ------------------------------------------------

  /** The content of an event. Values may be followed by too few bytes for one more. */
  datatype Content =
    | Values(vals: seq<seq<Byte>>, slack: seq<Byte>)
    | PointData(fixed: seq<Byte>, payload: seq<Byte>)
    | Opaque(bytes: seq<Byte>)

  datatype Ev = Ev(cmd: nat, pad: seq<Byte>, content: Content)

  function Body(c: Content): seq<Byte> {
    match c
    case Values(vals, slack) => Flatten(vals) + slack
    case PointData(fixed, payload) => fixed + payload
    case Opaque(bytes) => bytes
  }

  function Length(layout: Layout, e: Ev): nat {
    layout.header + |Body(e.content)|
  }

  predicate WellFormed(layout: Layout, e: Ev)
    requires layout.Valid()
  {
    var t := TypeOf(e.cmd);
    && e.cmd < 0x10000 && |e.pad| == layout.header - 4 && Length(layout, e) < 0x10000
    && match e.content
       case Values(vals, slack) =>
         && t != NullType && t != PointType && vals != []
         && (forall i :: 0 <= i < |vals| ==> |vals[i]| == layout.ValueSize(t))
         && |slack| < layout.ValueSize(t)
       case PointData(fixed, _) => t == PointType && |fixed| == layout.point
       case Opaque(bytes) => t == NullType && bytes != []
  }

  function Encode(layout: Layout, e: Ev): seq<Byte>
    requires layout.Valid() && WellFormed(layout, e)
  {
    Split16(Length(layout, e)) + Split16(e.cmd) + e.pad + Body(e.content)
  }

  function ValueResults(len: nat, cmd: nat, vals: seq<seq<Byte>>): (r: seq<Result>)
    ensures |r| == |vals|
    ensures forall i :: 0 <= i < |vals| ==> r[i] == Result(1, Event(len, cmd, vals[i], None))
  {
    if vals == [] then [] else [Result(1, Event(len, cmd, vals[0], None))] + ValueResults(len, cmd, vals[1..])
  }

  /** What an event at offset `at` delivers: one result per value, one for a point event, and one
      return of 2 for an event that is not known. */
  function Expected(layout: Layout, e: Ev, at: nat): seq<Result> {
    var len := Length(layout, e);
    match e.content
    case Values(vals, _) =>
      ValueResults(len, e.cmd, vals)
    case PointData(fixed, payload) =>
      [Result(1, Event(len, e.cmd, fixed, if payload == [] then None else Some(at + layout.header + layout.point)))]
    case Opaque(_) => [Result(2, Event(len, e.cmd, [], None))]
  }

  predicate AllWellFormed(layout: Layout, es: seq<Ev>)
    requires layout.Valid()
  {
    forall i :: 0 <= i < |es| ==> WellFormed(layout, es[i])
  }

  function EncodeAll(layout: Layout, es: seq<Ev>): seq<Byte>
    requires layout.Valid() && AllWellFormed(layout, es)
  {
    if es == [] then [] else Encode(layout, es[0]) + EncodeAll(layout, es[1..])
  }

  function ExpectedAll(layout: Layout, es: seq<Ev>, at: nat): seq<Result> {
    if es == [] then []
    else Expected(layout, es[0], at) + ExpectedAll(layout, es[1..], at + Length(layout, es[0]))
  }

  /** The buffer holds an event's prefix at an offset, and the event fits into the buffer. */
  predicate HeaderAt(layout: Layout, data: seq<Byte>, at: nat, len: nat, cmd: nat) {
    && layout.header >= 4 && layout.header < len && at + len <= |data|
    && U16(data, at) == len && U16(data, at + 2) == cmd
  }

  lemma EncodedAt(layout: Layout, pre: seq<Byte>, e: Ev, rest: seq<Byte>)
    requires layout.Valid() && WellFormed(layout, e)
    ensures var data := pre + Encode(layout, e) + rest;
            var len := Length(layout, e);
            && |Encode(layout, e)| == len
            && HeaderAt(layout, data, |pre|, len, e.cmd)
            && data[|pre| + layout.header..|pre| + len] == Body(e.content)
  {
    hide TypeOf, Flatten;
    var len := Length(layout, e);
    var data := pre + Encode(layout, e) + rest;
    NonEmptyBody(layout, e);
    assert data[|pre|] == len % 256 && data[|pre| + 1] == len / 256;
    assert data[|pre| + 2] == e.cmd % 256 && data[|pre| + 3] == e.cmd / 256;
  }

  lemma NonEmptyBody(layout: Layout, e: Ev)
    requires layout.Valid() && WellFormed(layout, e)
    ensures |Body(e.content)| > 0
  {
    hide TypeOf;
  }

  /** From offset `off` on an event with this prefix holds these values and this slack. */
  predicate ValuesAt(layout: Layout, data: seq<Byte>, at: nat, len: nat, cmd: nat,
                     off: nat, vals: seq<seq<Byte>>, slack: seq<Byte>)
  {
    && layout.Valid() && HeaderAt(layout, data, at, len, cmd)
    && TypeOf(cmd) != NullType && TypeOf(cmd) != PointType
    && layout.header <= off && off + |Flatten(vals) + slack| == len
    && data[at + off..at + len] == Flatten(vals) + slack
    && (forall i :: 0 <= i < |vals| ==> |vals[i]| == layout.ValueSize(TypeOf(cmd)))
    && |slack| < layout.ValueSize(TypeOf(cmd))
  }

  /** The call that delivers the value at `off` of an event. */
  lemma ExtractValue(layout: Layout, data: seq<Byte>, at: nat, len: nat, cmd: nat,
                     off: nat, vals: seq<seq<Byte>>, slack: seq<Byte>, c: Cursor)
    requires vals != [] && ValuesAt(layout, data, at, len, cmd, off, vals, slack)
    requires c == Cursor(at, Some(at + off)) || (off == layout.header && c == Cursor(at, None))
    ensures Sound(layout, data, c)
    ensures Extract(layout, data, c)
         == Call(1, Event(len, cmd, vals[0], None),
                 if |vals| > 1 then Cursor(at, Some(at + off + |vals[0]|)) else Cursor(at + len, None))
    ensures ValuesAt(layout, data, at, len, cmd, off + |vals[0]|, vals[1..], slack)
  {
    hide TypeOf, Flatten;
    var size := layout.ValueSize(TypeOf(cmd));
    SplitValue(data[at + off..at + len], vals, slack, size);
    assert data[at + off..at + off + size] == data[at + off..at + len][..size];
    assert data[at + off + size..at + len] == data[at + off..at + len][size..];
  }

  lemma ValuesAtValid(layout: Layout, data: seq<Byte>, at: nat, len: nat, cmd: nat,
                      off: nat, vals: seq<seq<Byte>>, slack: seq<Byte>)
    requires ValuesAt(layout, data, at, len, cmd, off, vals, slack)
    ensures layout.Valid()
  {
  }

  /** The values of one event from some value on. */
  lemma {:induction false} DecodeValues(layout: Layout, data: seq<Byte>, at: nat, len: nat, cmd: nat,
                                        off: nat, vals: seq<seq<Byte>>, slack: seq<Byte>, c: Cursor)
    requires vals != [] && ValuesAt(layout, data, at, len, cmd, off, vals, slack)
    requires c == Cursor(at, Some(at + off)) || (off == layout.header && c == Cursor(at, None))
    ensures Sound(layout, data, c)
    ensures Decode(layout, data, c) == Behind(ValueResults(len, cmd, vals), DecodeFrom(layout, data, at + len))
    decreases |vals|
  {
    hide ValuesAt, Extract, Sound, Decode;
    assert layout.Valid() by { ValuesAtValid(layout, data, at, len, cmd, off, vals, slack); }
    ExtractValue(layout, data, at, len, cmd, off, vals, slack, c);
    var first := Result(1, Event(len, cmd, vals[0], None));
    DecodeStep(layout, data, c);
    var tail := ValueResults(len, cmd, vals[1..]);
    var end := DecodeFrom(layout, data, at + len);
    if |vals| > 1 {
      DecodeValues(layout, data, at, len, cmd, off + |vals[0]|, vals[1..], slack, Extract(layout, data, c).after);
    }
    assert [first] + (tail + end.results) == [first] + tail + end.results;
  }

  /** Taking the first value off the bytes of an event. */
  lemma SplitValue(bytes: seq<Byte>, vals: seq<seq<Byte>>, slack: seq<Byte>, size: nat)
    requires vals != [] && bytes == Flatten(vals) + slack && |slack| < size
    requires forall i :: 0 <= i < |vals| ==> |vals[i]| == size
    ensures |bytes| >= size && bytes[..size] == vals[0] && bytes[size..] == Flatten(vals[1..]) + slack
    ensures |bytes| >= 2 * size <==> |vals| > 1
  {
    assert bytes == vals[0] + (Flatten(vals[1..]) + slack);
    if |vals| > 1 {
      assert |vals[1..][0]| == size;
    }
  }

  lemma DecodeStep(layout: Layout, data: seq<Byte>, c: Cursor)
    requires layout.Valid() && Sound(layout, data, c) && Extract(layout, data, c).ret > 0
    ensures var call := Extract(layout, data, c);
            && Sound(layout, data, call.after)
            && Decode(layout, data, c) == Ahead(Result(call.ret, call.event), Decode(layout, data, call.after))
  {
    hide Extract, Sound;
    ExtractAdvances(layout, data, c);
  }

  /** One event, wherever it stands, delivers exactly what it holds and leaves the cursor behind it. */
  lemma DecodeOne(layout: Layout, pre: seq<Byte>, e: Ev, rest: seq<Byte>)
    requires layout.Valid() && WellFormed(layout, e)
    ensures var data := pre + Encode(layout, e) + rest;
            DecodeFrom(layout, data, |pre|)
            == Behind(Expected(layout, e, |pre|), DecodeFrom(layout, data, |pre| + Length(layout, e)))
  {
    hide TypeOf, Flatten, Encode, Extract, Decode, Sound;
    var data := pre + Encode(layout, e) + rest;
    EncodedAt(layout, pre, e, rest);
    if e.content.Values? {
      DecodeValues(layout, data, |pre|, Length(layout, e), e.cmd, layout.header, e.content.vals, e.content.slack,
                   Cursor(|pre|, None));
    } else {
      ExtractOther(layout, data, |pre|, e);
      SoundAtEvent(layout, data, |pre|);
      DecodeStep(layout, data, Cursor(|pre|, None));
    }
  }

  lemma ExtractOther(layout: Layout, data: seq<Byte>, at: nat, e: Ev)
    requires layout.Valid() && WellFormed(layout, e) && !e.content.Values?
    requires HeaderAt(layout, data, at, Length(layout, e), e.cmd)
    requires data[at + layout.header..at + Length(layout, e)] == Body(e.content)
    ensures var r := Extract(layout, data, Cursor(at, None));
            && r.ret > 0 && Expected(layout, e, at) == [Result(r.ret, r.event)]
            && r.after == Cursor(at + Length(layout, e), None)
  {
    hide TypeOf;
    if e.content.PointData? {
      var p := at + layout.header;
      assert data[p..p + layout.point] == Body(e.content)[..layout.point] == e.content.fixed;
    }
  }

  lemma DecodeTail(layout: Layout, data: seq<Byte>, at: nat)
    requires layout.Valid() && at + layout.header > |data|
    ensures DecodeFrom(layout, data, at) == Run([], 0)
  {
  }

  /** Whatever stands behind well-formed events, they deliver exactly their values, in order, and
      decoding goes on behind them. */
  lemma {:induction false} DecodeThen(layout: Layout, pre: seq<Byte>, es: seq<Ev>, tail: seq<Byte>)
    requires layout.Valid() && AllWellFormed(layout, es)
    ensures var data := pre + EncodeAll(layout, es) + tail;
            DecodeFrom(layout, data, |pre|)
            == Behind(ExpectedAll(layout, es, |pre|), DecodeFrom(layout, data, |pre + EncodeAll(layout, es)|))
    decreases |es|
  {
    hide Encode, Expected, WellFormed, Length, DecodeFrom;
    var data := pre + EncodeAll(layout, es) + tail;
    if es == [] {
      assert pre + EncodeAll(layout, es) == pre;
      var r := DecodeFrom(layout, data, |pre|);
      assert [] + r.results == r.results;
    } else {
      var e := es[0];
      var rest := EncodeAll(layout, es[1..]) + tail;
      EncodedAt(layout, pre, e, rest);
      DecodeOne(layout, pre, e, rest);
      var pre' := pre + Encode(layout, e);
      assert pre + EncodeAll(layout, es) == pre' + EncodeAll(layout, es[1..]);
      assert data == pre + Encode(layout, e) + rest;
      DecodeThen(layout, pre', es[1..], tail);
      var more := ExpectedAll(layout, es[1..], |pre'|);
      var end := DecodeFrom(layout, data, |pre + EncodeAll(layout, es)|);
      assert Expected(layout, e, |pre|) + (more + end.results) == Expected(layout, e, |pre|) + more + end.results;
    }
  }

  /** Decoding a concatenation of well-formed events delivers exactly the encoded values, in order,
      and then reports the end. Bytes too few for another prefix may follow. */
  lemma DecodeAll(layout: Layout, pre: seq<Byte>, es: seq<Ev>, tail: seq<Byte>)
    requires layout.Valid() && AllWellFormed(layout, es) && |tail| < layout.header
    ensures DecodeFrom(layout, pre + EncodeAll(layout, es) + tail, |pre|) == Run(ExpectedAll(layout, es, |pre|), 0)
  {
    hide EncodeAll, ExpectedAll, DecodeFrom;
    DecodeThen(layout, pre, es, tail);
    DecodeTail(layout, pre + EncodeAll(layout, es) + tail, |pre + EncodeAll(layout, es)|);
    assert ExpectedAll(layout, es, |pre|) + [] == ExpectedAll(layout, es, |pre|);
  }

  /** An event behind the others that cannot be delivered: its length is no more than the prefix, or
      it is known and its fixed part does not fit into the buffer. */
  predicate Undeliverable(layout: Layout, len: nat, cmd: nat, rest: seq<Byte>) {
    len <= layout.header || (TypeOf(cmd) != NullType && |rest| < layout.ValueSize(TypeOf(cmd)))
  }

  /** Behind well-formed events such an event ends the decoding with -1 for its length and -2 for the
      missing bytes, and everything before it has been delivered. */
  lemma DecodeBroken(layout: Layout, es: seq<Ev>, len: nat, cmd: nat, pad: seq<Byte>, rest: seq<Byte>)
    requires layout.Valid() && AllWellFormed(layout, es)
    requires len < 0x10000 && cmd < 0x10000 && |pad| == layout.header - 4 && Undeliverable(layout, len, cmd, rest)
    ensures DecodeFrom(layout, EncodeAll(layout, es) + (Split16(len) + Split16(cmd) + pad + rest), 0)
         == Run(ExpectedAll(layout, es, 0), if len <= layout.header then -1 else -2)
  {
    hide EncodeAll, ExpectedAll, DecodeFrom, TypeOf;
    var all, broken := EncodeAll(layout, es), Split16(len) + Split16(cmd) + pad + rest;
    DecodeThen(layout, [], es, broken);
    assert [] + all == all;
    BrokenEnds(layout, all, len, cmd, pad, rest);
    assert ExpectedAll(layout, es, 0) + [] == ExpectedAll(layout, es, 0);
  }

  lemma BrokenEnds(layout: Layout, pre: seq<Byte>, len: nat, cmd: nat, pad: seq<Byte>, rest: seq<Byte>)
    requires layout.Valid() && len < 0x10000 && cmd < 0x10000
    requires |pad| == layout.header - 4 && Undeliverable(layout, len, cmd, rest)
    ensures DecodeFrom(layout, pre + (Split16(len) + Split16(cmd) + pad + rest), |pre|)
         == Run([], if len <= layout.header then -1 else -2)
  {
    hide TypeOf;
    var data := pre + (Split16(len) + Split16(cmd) + pad + rest);
    assert data[|pre|] == len % 256 && data[|pre| + 1] == len / 256;
    assert data[|pre| + 2] == cmd % 256 && data[|pre| + 3] == cmd / 256;
    assert U16(data, |pre|) == len && U16(data, |pre| + 2) == cmd;
    assert |data| == |pre| + layout.header + |rest|;
  }

  /** The same from the start of a buffer, as the loop of `iwlist` meets it. */
  lemma EncodedStreamDecodes(layout: Layout, es: seq<Ev>)
    requires layout.Valid() && AllWellFormed(layout, es)
    ensures DecodeFrom(layout, EncodeAll(layout, es), 0) == Run(ExpectedAll(layout, es, 0), 0)
  {
    hide EncodeAll, ExpectedAll, DecodeFrom;
    DecodeAll(layout, [], es, []);
    assert [] + EncodeAll(layout, es) + [] == EncodeAll(layout, es);
  }
}
