/** The three loops of scan.c that walk type-length-value items: information elements (section 7.3.2
    of IEEE 802.11-2007), P2P attributes and WPS attributes. */
module ElementWalk {
  import opened CText
  import opened Octets

  datatype Format = Elements | P2p | Wps {
    function Header(): (n: nat)
      ensures 2 <= n <= 4
    {
      match this
      case Elements => 2
      case P2p => 3
      case Wps => 4
    }

    /** The payload length an item declares. */
    function Declared(b: seq<Byte>): nat
      requires |b| >= Header()
    {
      match this
      case Elements => b[1]
      case P2p => b[2] as int * 256 + b[1] as int
      case Wps => b[2] as int * 256 + b[3] as int
    }

    /** The loop's own test of a declared length against the bytes left. Only P2P counts the header. */
    predicate Admits(left: nat, declared: nat) {
      match this
      case Elements => left >= declared
      case P2p => left >= 3 && declared <= left - 3
      case Wps => declared <= left
    }
  }

  datatype Item = Item(header: seq<Byte>, payload: seq<Byte>)

  predicate WellFormed(f: Format, i: Item) {
    |i.header| == f.Header() && f.Declared(i.header) == |i.payload|
  }

  predicate AllWellFormed(f: Format, items: seq<Item>) {
    forall k :: 0 <= k < |items| ==> WellFormed(f, items[k])
  }

  function Encode(items: seq<Item>): seq<Byte> {
    if items == [] then [] else items[0].header + items[0].payload + Encode(items[1..])
  }

  /** Where a walk ends: at bytes it does not take for an item, or past the end of its buffer. */
  datatype End = Tail(bytes: seq<Byte>) | PastEnd

  datatype Walked = Walked(items: seq<Item>, end: End)

  /** Bytes at which the loop stops. */
  predicate Stops(f: Format, b: seq<Byte>) {
    |b| < f.Header() || !f.Admits(|b|, f.Declared(b))
  }

  function Walk(f: Format, b: seq<Byte>): Walked
    decreases |b|
  {
    if Stops(f, b) then Walked([], Tail(b))
    else
      var n := f.Header() + f.Declared(b);
      if n > |b| then Walked([], PastEnd)
      else Cons(Item(b[..f.Header()], b[f.Header()..n]), Walk(f, b[n..]))
  }

  lemma WalkTurn(f: Format, b: seq<Byte>)
    ensures Walk(f, b)
         == if Stops(f, b) then Walked([], Tail(b))
            else
              var n := f.Header() + f.Declared(b);
              if n > |b| then Walked([], PastEnd)
              else Cons(Item(b[..f.Header()], b[f.Header()..n]), Walk(f, b[n..]))
  {
  }

  function Cons(i: Item, w: Walked): Walked {
    Walked([i] + w.items, w.end)
  }

  // ----- The loops ------------------------------------------------------

  /** `print_ies`: the length left is an int and goes down past the header and the payload. */
  method WalkElements(ie: seq<Byte>) returns (w: Walked)
    ensures w == Walk(Elements, ie)
  {
    hide Walk;
    AppendEnds([], Walk(Elements, ie), PastEnd);
    var at, ielen, items := 0, |ie|, [];
    assert ie[0..] == ie;
    while ielen >= 2 && ielen >= ie[at + 1]
      invariant 0 <= at && at + ielen == |ie| && ielen >= 0
      invariant Walk(Elements, ie) == Append(items, Walk(Elements, ie[at..]))
      decreases ielen
    {
      var sub := ie[at + 1];
      if 2 + sub > ielen {
        WalkTurn(Elements, ie[at..]);
        AppendEnds(items, Walked([], PastEnd), PastEnd);
        return Walked(items, PastEnd);
      }
      WalkStep(Elements, ie, at, items);
      items := items + [Item(ie[at..at + 2], ie[at + 2..at + 2 + sub])];
      ielen := ielen - (sub + 2);
      at := at + sub + 2;
    }
    AppendEnds(items, Walked([], PastEnd), Tail(ie[at..]));
    WalkTurn(Elements, ie[at..]);
    w := Walked(items, Tail(ie[at..]));
  }

  /** `print_p2p`: the length left is 8 bits wide. */
  method WalkP2p(data: seq<Byte>) returns (w: Walked)
    requires |data| <= 255
    ensures w == Walk(P2p, data)
    ensures w.end.Tail?
  {
    hide Walk;
    AppendEnds([], Walk(P2p, data), PastEnd);
    var at, len: Byte, items := 0, |data|, [];
    assert data[0..] == data;
    while len >= 3
      invariant 0 <= at && at + len == |data|
      invariant Walk(P2p, data) == Append(items, Walk(P2p, data[at..]))
      decreases len
    {
      var sub := data[at + 2] as int * 256 + data[at + 1] as int;
      if sub > len - 3 {
        break;
      }
      WalkStep(P2p, data, at, items);
      items := items + [Item(data[at..at + 3], data[at + 3..at + 3 + sub])];
      at := at + sub + 3;
      len := (len - (sub + 3)) % 256;
    }
    AppendEnds(items, Walked([], PastEnd), Tail(data[at..]));
    WalkTurn(P2p, data[at..]);
    w := Walked(items, Tail(data[at..]));
  }

  /** `print_wifi_wps`: the length left is 8 bits wide; a declared length that admits more than is
      there takes the walk past the end. */
  method WalkWps(data: seq<Byte>) returns (w: Walked)
    requires |data| <= 255
    ensures w == Walk(Wps, data)
  {
    hide Walk;
    AppendEnds([], Walk(Wps, data), PastEnd);
    var at, len: Byte, items := 0, |data|, [];
    assert data[0..] == data;
    while len >= 4
      invariant 0 <= at && at + len == |data|
      invariant Walk(Wps, data) == Append(items, Walk(Wps, data[at..]))
      decreases len
    {
      var sub := data[at + 2] as int * 256 + data[at + 3] as int;
      if sub > len {
        break;
      }
      if sub + 4 > len {
        WalkTurn(Wps, data[at..]);
        AppendEnds(items, Walked([], PastEnd), PastEnd);
        return Walked(items, PastEnd);
      }
      WalkStep(Wps, data, at, items);
      items := items + [Item(data[at..at + 4], data[at + 4..at + 4 + sub])];
      at := at + sub + 4;
      len := (len - (sub + 4)) % 256;
    }
    AppendEnds(items, Walked([], PastEnd), Tail(data[at..]));
    WalkTurn(Wps, data[at..]);
    w := Walked(items, Tail(data[at..]));
  }

  function Append(items: seq<Item>, w: Walked): Walked {
    Walked(items + w.items, w.end)
  }

  lemma AppendEnds(items: seq<Item>, w: Walked, end: End)
    ensures Append([], w) == w && Append(items, Walked([], end)) == Walked(items, end)
  {
  }

  lemma AppendCons(items: seq<Item>, i: Item, w: Walked)
    ensures Append(items, Cons(i, w)) == Append(items + [i], w)
  {
    assert items + ([i] + w.items) == items + [i] + w.items;
  }

  /** One item taken off the bytes from `at` on. */
  lemma WalkStep(f: Format, b: seq<Byte>, at: nat, items: seq<Item>)
    requires at <= |b| && !Stops(f, b[at..]) && f.Header() + f.Declared(b[at..]) <= |b| - at
    ensures var n := f.Declared(b[at..]);
            var i := Item(b[at..at + f.Header()], b[at + f.Header()..at + f.Header() + n]);
            Append(items, Walk(f, b[at..])) == Append(items + [i], Walk(f, b[at + f.Header() + n..]))
  {
    hide Walk, Stops, Append;
    var h := f.Header();
    var n := f.Declared(b[at..]);
    WalkTurn(f, b[at..]);
    Cut(b, at, h, h + n);
    AppendCons(items, Item(b[at..at + h], b[at + h..at + h + n]), Walk(f, b[at + h + n..]));
  }

  // ----- What a walk finds ----------------------------------------------

  /** Bytes at which a walk leaves its buffer: the header is there, and the length it declares is more
      than is left behind it, but not more than is left with it. */
  predicate Overshoots(f: Format, b: seq<Byte>) {
    f != P2p && |b| >= f.Header() && |b| - f.Header() < f.Declared(b) <= |b|
  }

  /** How a walk ends at bytes that hold no whole item. */
  function EndAt(f: Format, b: seq<Byte>): End {
    if Overshoots(f, b) then PastEnd else Tail(b)
  }

  /** The loop takes no item there. */
  predicate Ends(f: Format, b: seq<Byte>) {
    Stops(f, b) || Overshoots(f, b)
  }

  lemma EndsIff(f: Format, b: seq<Byte>)
    ensures Ends(f, b) <==> |b| < f.Header() || f.Header() + f.Declared(b) > |b|
    ensures Ends(f, b) ==> Walk(f, b) == Walked([], EndAt(f, b))
    ensures !(Stops(f, b) && Overshoots(f, b))
  {
  }

  lemma NothingEncoded(b: seq<Byte>)
    ensures b == Encode([]) + b
  {
  }

  /** Every walk, on any bytes, has found well-formed items, and behind them bytes at which it ends. */
  lemma {:induction false} WalkSound(f: Format, b: seq<Byte>) returns (rest: seq<Byte>)
    ensures var w := Walk(f, b);
            AllWellFormed(f, w.items) && b == Encode(w.items) + rest && Ends(f, rest) && w.end == EndAt(f, rest)
    decreases |b|
  {
    hide Walk, Ends, EndAt, Encode, WellFormed, Format.Header, Format.Declared;
    EndsIff(f, b);
    if Ends(f, b) {
      rest := b;
      NothingEncoded(b);
    } else {
      var i, n := FirstItem(f, b);
      rest := WalkSound(f, b[n..]);
      EncodeCons(i, Walk(f, b[n..]).items, rest);
    }
  }

  /** The first item of a buffer, which the walk takes. */
  lemma FirstItem(f: Format, b: seq<Byte>) returns (i: Item, n: nat)
    requires !Ends(f, b)
    ensures 0 < n <= |b| && WellFormed(f, i) && b == i.header + i.payload + b[n..]
    ensures Walk(f, b) == Cons(i, Walk(f, b[n..]))
  {
    hide Walk, Stops, Overshoots, Format.Declared;
    WalkTurn(f, b);
    TakesItem(f, b);
    var h := f.Header();
    n := h + f.Declared(b);
    i := Item(b[..h], b[h..n]);
    HeaderDeclares(f, b, b[..h]);
    Joined(b, h, n);
  }

  lemma TakesItem(f: Format, b: seq<Byte>)
    requires !Ends(f, b)
    ensures !Stops(f, b) && |b| >= f.Header() && f.Header() + f.Declared(b) <= |b|
  {
  }

  lemma Joined(b: seq<Byte>, h: nat, n: nat)
    requires h <= n <= |b|
    ensures b[..h] + b[h..n] + b[n..] == b
  {
  }

  lemma EncodeCons(i: Item, items: seq<Item>, tail: seq<Byte>)
    ensures Encode([i] + items) + tail == i.header + i.payload + (Encode(items) + tail)
  {
    assert ([i] + items)[1..] == items;
  }

  lemma HeaderDeclares(f: Format, b: seq<Byte>, header: seq<Byte>)
    requires |b| >= f.Header() == |header| && header == b[..f.Header()]
    ensures f.Declared(header) == f.Declared(b)
  {
  }

  /** Every concatenation of well-formed items is visited item by item, in order, up to the bytes at
      which the walk ends. */
  lemma {:induction false} WalkComplete(f: Format, items: seq<Item>, rest: seq<Byte>)
    requires AllWellFormed(f, items) && Ends(f, rest)
    ensures Walk(f, Encode(items) + rest) == Walked(items, EndAt(f, rest))
  {
    hide Walk, Stops, Overshoots, EndAt;
    var b := Encode(items) + rest;
    EndsIff(f, b);
    if items == [] {
      assert b == rest;
    } else {
      var i := items[0];
      var tail := Encode(items[1..]) + rest;
      assert WellFormed(f, i);
      assert [i] + items[1..] == items;
      EncodeCons(i, items[1..], rest);
      var h := f.Header();
      var n := h + |i.payload|;
      assert b[..h] == i.header && b[h..n] == i.payload && b[n..] == tail;
      HeaderDeclares(f, b, i.header);
      WalkTurn(f, b);
      TakesItem(f, b);
      WalkComplete(f, items[1..], rest);
    }
  }

  /** Exactly which buffers the walk stays inside: those that are well-formed items and then a tail
      at which the loop stops. */
  lemma StaysInsideIff(f: Format, b: seq<Byte>)
    ensures Walk(f, b).end.Tail?
       <==> exists items, tail :: AllWellFormed(f, items) && Stops(f, tail) && b == Encode(items) + tail
  {
    hide Walk, Stops, Overshoots;
    var rest := WalkSound(f, b);
    forall items, tail | AllWellFormed(f, items) && Stops(f, tail) && b == Encode(items) + tail
      ensures Walk(f, b).end.Tail?
    {
      WalkComplete(f, items, tail);
      EndsIff(f, tail);
    }
  }

  /** And which it leaves: well-formed items and then one that declares up to a header's worth of
      bytes too many. */
  lemma HeaderNotCounted(f: Format, b: seq<Byte>)
    ensures Walk(f, b).end.PastEnd?
       <==> exists items, bad :: AllWellFormed(f, items) && Overshoots(f, bad) && b == Encode(items) + bad
  {
    hide Walk, Stops, Overshoots;
    var rest := WalkSound(f, b);
    forall items, bad | AllWellFormed(f, items) && Overshoots(f, bad) && b == Encode(items) + bad
      ensures Walk(f, b).end.PastEnd?
    {
      WalkComplete(f, items, bad);
    }
  }

  /** The P2P test counts the header, so its walk stays inside every buffer. */
  lemma P2pStaysInside(b: seq<Byte>)
    ensures Walk(P2p, b).end.Tail?
  {
    var rest := WalkSound(P2p, b);
  }

  /** One payload byte where two are declared, and WPS data of one attribute with none of its two bytes. */
  lemma LeavesTheBuffer()
    ensures Walk(Elements, [0, 2, 9]) == Walked([], PastEnd)
    ensures Walk(Wps, [0x10, 0x4a, 0, 2]) == Walked([], PastEnd)
    ensures Walk(Elements, [1, 1, 7, 0, 2, 9]) == Walked([Item([1, 1], [7])], PastEnd)
  {
    WalkComplete(Elements, [], [0, 2, 9]);
    WalkComplete(Wps, [], [0x10, 0x4a, 0, 2]);
    var i := Item([1, 1], [7]);
    WalkComplete(Elements, [i], [0, 2, 9]);
    assert [i][1..] == [];
    assert Encode([i]) + [0, 2, 9] == [1, 1, 7, 0, 2, 9];
  }

  // ----- Items by identifier and payload --------------------------------

  /** An item in plain terms. */
  datatype Named = Named(id: nat, payload: seq<Byte>)

  /** Identifiers and lengths as wide as the format has them. */
  predicate ValidNamed(f: Format, x: Named) {
    match f
    case Elements => x.id < 0x100 && |x.payload| < 0x100
    case P2p => x.id < 0x100 && |x.payload| < 0x10000
    case Wps => x.id < 0x10000 && |x.payload| < 0x10000
  }

  /** The bytes of an item: elements have an identifier and a length byte, P2P attributes a length of
      two bytes with the low byte first, WPS attributes an identifier and a length of two bytes each
      with the high byte first. */
  function Bytes(f: Format, x: Named): seq<Byte>
    requires ValidNamed(f, x)
  {
    var n := |x.payload|;
    match f
    case Elements => [x.id, n] + x.payload
    case P2p => [x.id, n % 256, n / 256] + x.payload
    case Wps => [x.id / 256, x.id % 256, n / 256, n % 256] + x.payload
  }

  predicate AllValid(f: Format, xs: seq<Named>) {
    forall i :: 0 <= i < |xs| ==> ValidNamed(f, xs[i])
  }

  function AllBytes(f: Format, xs: seq<Named>): seq<Byte>
    requires AllValid(f, xs)
  {
    if xs == [] then [] else Bytes(f, xs[0]) + AllBytes(f, xs[1..])
  }

  /** The identifier the printers take from an item. */
  function IdOf(f: Format, i: Item): nat
    requires |i.header| == f.Header()
  {
    if f.Wps? then i.header[0] as int * 256 + i.header[1] as int else i.header[0] as int
  }

  /** The item is the one named. */
  predicate Is(f: Format, i: Item, x: Named) {
    |i.header| == f.Header() && IdOf(f, i) == x.id && i.payload == x.payload
  }

  predicate AllAre(f: Format, items: seq<Item>, xs: seq<Named>) {
    |items| == |xs| && forall k :: 0 <= k < |xs| ==> Is(f, items[k], xs[k])
  }

  lemma ItemOf(f: Format, x: Named) returns (i: Item)
    requires ValidNamed(f, x)
    ensures Is(f, i, x) && WellFormed(f, i) && i.header + i.payload == Bytes(f, x)
  {
    var h := f.Header();
    i := Item(Bytes(f, x)[..h], x.payload);
  }

  lemma {:induction false} ItemsOf(f: Format, xs: seq<Named>) returns (items: seq<Item>)
    requires AllValid(f, xs)
    ensures AllAre(f, items, xs) && AllWellFormed(f, items) && Encode(items) == AllBytes(f, xs)
  {
    hide Is, WellFormed, Bytes, ValidNamed;
    if xs == [] {
      items := [];
    } else {
      var i := ItemOf(f, xs[0]);
      var more := ItemsOf(f, xs[1..]);
      items := [i] + more;
      assert items[1..] == more;
      forall k | 0 <= k < |xs|
        ensures Is(f, items[k], xs[k])
      {
        assert k > 0 ==> items[k] == more[k - 1] && xs[k] == xs[1..][k - 1];
      }
    }
  }

  /** Walking the bytes of any list of items finds exactly their identifiers and payloads, in order, up
      to a tail at which the loop stops. */
  lemma NamedWalk(f: Format, xs: seq<Named>, tail: seq<Byte>)
    requires AllValid(f, xs) && Stops(f, tail)
    ensures var w := Walk(f, AllBytes(f, xs) + tail);
            AllAre(f, w.items, xs) && w.end == Tail(tail)
  {
    hide Walk, Is, Encode, AllBytes, Stops, Overshoots;
    var items := ItemsOf(f, xs);
    WalkComplete(f, items, tail);
    EndsIff(f, tail);
  }

  /** A P2P capability attribute with two bytes. */
  lemma OneP2pAttribute()
    ensures Walk(P2p, [2, 2, 0, 0x25, 0]) == Walked([Item([2, 2, 0], [0x25, 0])], Tail([]))
  {
    var i := Item([2, 2, 0], [0x25, 0]);
    WalkComplete(P2p, [i], []);
    assert [i][1..] == [];
    assert Encode([i]) + [] == [2, 2, 0, 0x25, 0];
  }
}
