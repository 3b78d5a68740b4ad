/** `print_rsn_ie`: the RSN element of section 7.3.2.25 of IEEE 802.11-2007. Its fields stand one
    after the other and the element may end after any of them. */
module RsnElement {
  import opened CText
  import opened Octets

  type Suite = s: seq<Byte> | |s| == 4 witness [0, 0, 0, 0]

  datatype Fields = Fields(version: nat, group: Option<Suite>, pairwise: Option<seq<Suite>>, auth: Option<seq<Suite>>,
                           capa: Option<nat>, pmkids: Option<seq<Byte>>, mgmt: Option<Suite>)

  /** The fields, the bytes behind the last of them, and whether those are shown as bogus. */
  datatype Decoded = Decoded(fields: Fields, tail: seq<Byte>, reported: bool)

  function Suites(b: seq<Byte>, n: nat): (r: seq<Suite>)
    requires |b| >= 4 * n
    ensures |r| == n
  {
    if n == 0 then [] else [b[..4]] + Suites(b[4..], n - 1)
  }

  lemma {:induction false} FlattenSuites(b: seq<Byte>, n: nat)
    requires |b| >= 4 * n
    ensures Flatten(Suites(b, n)) == b[..4 * n]
  {
    if n > 0 {
      FlattenSuites(b[4..], n - 1);
      assert b[..4 * n] == b[..4] + b[4..][..4 * (n - 1)];
      assert Suites(b, n)[1..] == Suites(b[4..], n - 1);
    }
  }

  lemma {:induction false} SuitesFlatten(suites: seq<Suite>, tail: seq<Byte>)
    ensures |Flatten(suites)| == 4 * |suites|
    ensures Suites(Flatten(suites) + tail, |suites|) == suites
  {
    if suites != [] {
      SuitesFlatten(suites[1..], tail);
      var b := Flatten(suites) + tail;
      assert b[..4] == suites[0] && b[4..] == Flatten(suites[1..]) + tail;
    }
  }

  // ----- Decoding -------------------------------------------------------

  /** A counted list of suites that does not fit into what is left. */
  predicate BadList(b: seq<Byte>) {
    |b| >= 2 && 2 + 4 * U16(b) > |b|
  }

  function Decode(body: seq<Byte>): Decoded
    requires |body| >= 2
  {
    var f := Fields(U16(body), None, None, None, None, None, None);
    var b := body[2..];
    if |b| < 4 then Decoded(f, b, false) else FromPairwise(f.(group := Some(b[..4])), b[4..])
  }

  function FromPairwise(f: Fields, b: seq<Byte>): Decoded {
    if |b| < 2 then Decoded(f, b, false)
    else if BadList(b) then Decoded(f, b, true)
    else FromAuth(f.(pairwise := Some(Suites(b[2..], U16(b)))), b[2 + 4 * U16(b)..])
  }

  function FromAuth(f: Fields, b: seq<Byte>): Decoded {
    if |b| < 2 then Decoded(f, b, false)
    else if BadList(b) then Decoded(f, b, true)
    else FromCapa(f.(auth := Some(Suites(b[2..], U16(b)))), b[2 + 4 * U16(b)..])
  }

  function FromCapa(f: Fields, b: seq<Byte>): Decoded {
    if |b| < 2 then Decoded(f, b, true) else FromPmkids(f.(capa := Some(U16(b))), b[2..])
  }

  function FromPmkids(f: Fields, b: seq<Byte>): Decoded {
    if |b| < 2 || 2 + 16 * U16(b) > |b| then Decoded(f, b, true)
    else FromMgmt(f.(pmkids := Some(b[2..2 + 16 * U16(b)])), b[2 + 16 * U16(b)..])
  }

  function FromMgmt(f: Fields, b: seq<Byte>): Decoded {
    if |b| < 4 then Decoded(f, b, true) else Decoded(f.(mgmt := Some(b[..4])), b[4..], true)
  }

  /** The 8-bit count of bytes left, after taking `n` off it. */
  function Less(len: Byte, n: int): Byte {
    (len - n) % 256
  }

  /** The decoder over its cursor and its 8-bit length. Every byte it reads lies inside the body. */
  method DecodeRsn(body: seq<Byte>) returns (r: Decoded)
    requires 2 <= |body| <= 255
    ensures r == Decode(body)
  {
    hide FromPairwise;
    var data: nat, len: Byte := 0, |body|;
    assert body[0..] == body;
    var f := Fields(U16(body[data..]), None, None, None, None, None, None);
    data, len := data + 2, Less(len, 2);
    if len < 4 {
      return Decoded(f, body[data..], false);
    }
    Cut(body, data, 4, 4);
    f := f.(group := Some(body[data..data + 4]));
    data, len := data + 4, Less(len, 4);
    r := DecodePairwise(body, f, data, len);
  }

  method DecodePairwise(body: seq<Byte>, fields: Fields, start: nat, left: Byte) returns (r: Decoded)
    requires start + left == |body|
    ensures r == FromPairwise(fields, body[start..])
  {
    hide FromAuth, Suites;
    var f, data, len := fields, start, left;
    if len < 2 {
      return Decoded(f, body[data..], false);
    }
    var count := U16(body[data..]);
    if 2 + count * 4 > len {
      return Decoded(f, body[data..], true);
    }
    var suites := ReadSuites(body, data + 2, count);
    Cut(body, data, 2, 2);
    Cut(body, data, 2, 2 + count * 4);
    f := f.(pairwise := Some(suites));
    data, len := data + (2 + count * 4), Less(len, 2 + count * 4);
    r := DecodeAuth(body, f, data, len);
  }

  method ReadSuites(body: seq<Byte>, at: nat, count: nat) returns (suites: seq<Suite>)
    requires at + 4 * count <= |body|
    ensures suites == Suites(body[at..], count)
  {
    suites := [];
    for i := 0 to count
      invariant suites + Suites(body[at + 4 * i..], count - i) == Suites(body[at..], count)
    {
      ghost var b := body[at + 4 * i..];
      suites := suites + [body[at + 4 * i..at + 4 * i + 4]];
      assert b[..4] == body[at + 4 * i..at + 4 * i + 4] && b[4..] == body[at + 4 * (i + 1)..];
    }
  }

  method DecodeAuth(body: seq<Byte>, fields: Fields, start: nat, left: Byte) returns (r: Decoded)
    requires start + left == |body|
    ensures r == FromAuth(fields, body[start..])
  {
    hide FromCapa, Suites;
    var f, data, len := fields, start, left;
    if len < 2 {
      return Decoded(f, body[data..], false);
    }
    var count := U16(body[data..]);
    if 2 + count * 4 > len {
      return Decoded(f, body[data..], true);
    }
    var suites := ReadSuites(body, data + 2, count);
    Cut(body, data, 2, 2);
    Cut(body, data, 2, 2 + count * 4);
    f := f.(auth := Some(suites));
    data, len := data + (2 + count * 4), Less(len, 2 + count * 4);
    r := DecodeCapa(body, f, data, len);
  }

  method DecodeCapa(body: seq<Byte>, fields: Fields, start: nat, left: Byte) returns (r: Decoded)
    requires start + left == |body|
    ensures r == FromCapa(fields, body[start..])
  {
    hide FromPmkids;
    var f, data, len := fields, start, left;
    if len < 2 {
      return Decoded(f, body[data..], true);
    }
    Cut(body, data, 2, 2);
    f := f.(capa := Some(U16(body[data..])));
    data, len := data + 2, Less(len, 2);
    r := DecodePmkids(body, f, data, len);
  }

  method DecodePmkids(body: seq<Byte>, fields: Fields, start: nat, left: Byte) returns (r: Decoded)
    requires start + left == |body|
    ensures r == FromPmkids(fields, body[start..])
  {
    var f, data, len := fields, start, left;
    if len < 2 {
      return Decoded(f, body[data..], true);
    }
    var n := U16(body[data..]);
    if 2 + 16 * n > len {
      return Decoded(f, body[data..], true);
    }
    Cut(body, data, 2, 2 + 16 * n);
    assert body[data..][2..2 + 16 * n] == body[data + 2..data + 2 + 16 * n];
    f := f.(pmkids := Some(body[data + 2..data + 2 + 16 * n]));
    data, len := data + 2 + 16 * n, Less(len, 2 + 16 * n);
    if len >= 4 {
      Cut(body, data, 4, 4);
      f := f.(mgmt := Some(body[data..data + 4]));
      data, len := data + 4, Less(len, 4);
    }
    r := Decoded(f, body[data..], true);
  }

  // ----- Encoding -------------------------------------------------------

  /** Fields come in order, none without those before it, and counts fit into 16 bits. */
  predicate WellFormed(f: Fields) {
    && f.version < 0x10000
    && (f.pairwise.Some? ==> f.group.Some? && |f.pairwise.value| < 0x10000)
    && (f.auth.Some? ==> f.pairwise.Some? && |f.auth.value| < 0x10000)
    && (f.capa.Some? ==> f.auth.Some? && f.capa.value < 0x10000)
    && (f.pmkids.Some? ==> f.capa.Some? && |f.pmkids.value| % 16 == 0 && |f.pmkids.value| / 16 < 0x10000)
    && (f.mgmt.Some? ==> f.pmkids.Some?)
  }

  function EncodeList(suites: Option<seq<Suite>>): seq<Byte>
    requires suites.Some? ==> |suites.value| < 0x10000
  {
    if suites.None? then [] else Split16(|suites.value|) + Flatten(suites.value)
  }

  function EncodeSuite(s: Option<Suite>): seq<Byte> {
    if s.None? then [] else s.value
  }

  function EncodeCapa(f: Fields): seq<Byte>
    requires WellFormed(f)
  {
    if f.capa.None? then [] else Split16(f.capa.value)
  }

  function EncodePmkids(f: Fields): seq<Byte>
    requires WellFormed(f)
  {
    if f.pmkids.None? then [] else Split16(|f.pmkids.value| / 16) + f.pmkids.value
  }

  function Encode(f: Fields): seq<Byte>
    requires WellFormed(f)
  {
    Split16(f.version) + EncodeSuite(f.group) + EncodeList(f.pairwise) + EncodeList(f.auth)
    + EncodeCapa(f) + EncodePmkids(f) + EncodeSuite(f.mgmt)
  }

  /** What can stand behind the last field without being read as the next one. */
  predicate Stops(f: Fields, tail: seq<Byte>) {
    if f.group.None? then |tail| < 4
    else if f.pairwise.None? || f.auth.None? then |tail| < 2 || BadList(tail)
    else if f.capa.None? then |tail| < 2
    else if f.pmkids.None? then |tail| < 2 || 2 + 16 * U16(tail) > |tail|
    else f.mgmt.None? ==> |tail| < 4
  }

  /** Early ends of the element leave a short tail unmentioned. */
  predicate Reported(f: Fields, tail: seq<Byte>) {
    if f.group.None? then false
    else if f.pairwise.None? || f.auth.None? then |tail| >= 2
    else true
  }

  /** The tail end of an encoding, from each field on. */
  function EncodeFromMgmt(f: Fields, tail: seq<Byte>): seq<Byte> {
    EncodeSuite(f.mgmt) + tail
  }

  function EncodeFromPmkids(f: Fields, tail: seq<Byte>): seq<Byte>
    requires WellFormed(f)
  {
    EncodePmkids(f) + EncodeFromMgmt(f, tail)
  }

  function EncodeFromCapa(f: Fields, tail: seq<Byte>): seq<Byte>
    requires WellFormed(f)
  {
    EncodeCapa(f) + EncodeFromPmkids(f, tail)
  }

  function EncodeFromAuth(f: Fields, tail: seq<Byte>): seq<Byte>
    requires WellFormed(f)
  {
    EncodeList(f.auth) + EncodeFromCapa(f, tail)
  }

  function EncodeFromPairwise(f: Fields, tail: seq<Byte>): seq<Byte>
    requires WellFormed(f)
  {
    EncodeList(f.pairwise) + EncodeFromAuth(f, tail)
  }

  lemma EncodeNested(f: Fields, tail: seq<Byte>)
    requires WellFormed(f)
    ensures Encode(f) + tail == Split16(f.version) + (EncodeSuite(f.group) + EncodeFromPairwise(f, tail))
  {
    hide EncodeSuite, EncodeList, EncodeCapa, EncodePmkids, Split16, WellFormed;
  }

  // ----- Decoding undoes encoding ---------------------------------------

  /** The fields of `f` up to some point, nothing after it. */
  function UpToPmkids(f: Fields): Fields {
    f.(mgmt := None)
  }

  function UpToCapa(f: Fields): Fields {
    f.(mgmt := None, pmkids := None)
  }

  function UpToAuth(f: Fields): Fields {
    f.(mgmt := None, pmkids := None, capa := None)
  }

  function UpToPairwise(f: Fields): Fields {
    f.(mgmt := None, pmkids := None, capa := None, auth := None)
  }

  function UpToGroup(f: Fields): Fields {
    f.(mgmt := None, pmkids := None, capa := None, auth := None, pairwise := None)
  }

  lemma MgmtBack(f: Fields, tail: seq<Byte>)
    requires f.mgmt.None? ==> |tail| < 4
    ensures FromMgmt(UpToPmkids(f), EncodeFromMgmt(f, tail)) == Decoded(f, tail, true)
  {
    var b := EncodeFromMgmt(f, tail);
    if f.mgmt.Some? {
      assert b[..4] == f.mgmt.value && b[4..] == tail;
    } else {
      assert b == tail;
    }
  }

  lemma PmkidsBack(f: Fields, tail: seq<Byte>)
    requires WellFormed(f) && f.capa.Some? && f.auth.Some? && Stops(f, tail)
    ensures FromPmkids(UpToCapa(f), EncodeFromPmkids(f, tail)) == Decoded(f, tail, true)
  {
    var b := EncodeFromPmkids(f, tail);
    if f.pmkids.Some? {
      var n := |f.pmkids.value| / 16;
      assert b[0] == n % 256 && b[1] == n / 256;
      assert U16(b) == n;
      assert b[2..2 + 16 * n] == f.pmkids.value && b[2 + 16 * n..] == EncodeFromMgmt(f, tail);
      MgmtBack(f, tail);
    } else {
      assert b == tail;
    }
  }

  lemma CapaBack(f: Fields, tail: seq<Byte>)
    requires WellFormed(f) && f.auth.Some? && Stops(f, tail)
    ensures FromCapa(UpToAuth(f), EncodeFromCapa(f, tail)) == Decoded(f, tail, true)
  {
    hide FromPmkids, EncodeFromPmkids;
    var b := EncodeFromCapa(f, tail);
    if f.capa.Some? {
      assert b[0] == f.capa.value % 256 && b[1] == f.capa.value / 256;
      assert U16(b) == f.capa.value && b[2..] == EncodeFromPmkids(f, tail);
      PmkidsBack(f, tail);
    } else {
      assert b == tail by { EmptyBehindCapa(f, tail); }
    }
  }

  lemma EmptyBehindCapa(f: Fields, tail: seq<Byte>)
    requires WellFormed(f) && f.capa.None?
    ensures EncodeFromCapa(f, tail) == tail
  {
  }

  /** A counted list at the front of some bytes reads back. */
  lemma ListBack(suites: seq<Suite>, rest: seq<Byte>)
    requires |suites| < 0x10000
    ensures var b := EncodeList(Some(suites)) + rest;
            && |b| >= 2 && U16(b) == |suites| && !BadList(b)
            && Suites(b[2..], U16(b)) == suites && b[2 + 4 * U16(b)..] == rest
  {
    var b := EncodeList(Some(suites)) + rest;
    assert b[0] == |suites| % 256 && b[1] == |suites| / 256;
    assert b[2..] == Flatten(suites) + rest;
    SuitesFlatten(suites, rest);
  }

  lemma AuthBack(f: Fields, tail: seq<Byte>)
    requires WellFormed(f) && f.pairwise.Some? && f.group.Some? && Stops(f, tail)
    ensures FromAuth(UpToPairwise(f), EncodeFromAuth(f, tail)) == Decoded(f, tail, Reported(f, tail))
  {
    hide FromCapa, EncodeFromCapa, EncodeList, Suites, BadList;
    if f.auth.Some? {
      ListBack(f.auth.value, EncodeFromCapa(f, tail));
      CapaBack(f, tail);
    } else {
      EmptyBehindAuth(f, tail);
    }
  }

  lemma EmptyBehindAuth(f: Fields, tail: seq<Byte>)
    requires WellFormed(f) && f.auth.None?
    ensures EncodeFromAuth(f, tail) == tail
  {
    hide EncodeFromCapa;
    EmptyBehindCapa(f, tail);
  }

  lemma PairwiseBack(f: Fields, tail: seq<Byte>)
    requires WellFormed(f) && f.group.Some? && Stops(f, tail)
    ensures FromPairwise(UpToGroup(f), EncodeFromPairwise(f, tail)) == Decoded(f, tail, Reported(f, tail))
  {
    hide FromAuth, EncodeFromAuth, EncodeList, Suites, BadList;
    if f.pairwise.Some? {
      ListBack(f.pairwise.value, EncodeFromAuth(f, tail));
      AuthBack(f, tail);
    } else {
      EmptyBehindPairwise(f, tail);
    }
  }

  lemma EmptyBehindPairwise(f: Fields, tail: seq<Byte>)
    requires WellFormed(f) && f.pairwise.None?
    ensures EncodeFromPairwise(f, tail) == tail
  {
    hide EncodeFromAuth;
    EmptyBehindAuth(f, tail);
  }

  /** An element cut behind any of its fields, or complete, decodes to just those fields, with
      whatever stands behind them as the tail. */
  lemma DecodeEncode(f: Fields, tail: seq<Byte>)
    requires WellFormed(f) && Stops(f, tail)
    ensures |Encode(f)| >= 2
    ensures Decode(Encode(f) + tail) == Decoded(f, tail, Reported(f, tail))
  {
    hide Encode, FromPairwise, EncodeFromPairwise;
    EncodeNested(f, tail);
    assert |Encode(f)| >= 2 by { EncodeLength(f); }
    var b := Encode(f) + tail;
    assert b[0] == f.version % 256 && b[1] == f.version / 256;
    assert U16(b) == f.version && b[2..] == EncodeSuite(f.group) + EncodeFromPairwise(f, tail);
    if f.group.Some? {
      assert b[2..][..4] == f.group.value && b[2..][4..] == EncodeFromPairwise(f, tail);
      PairwiseBack(f, tail);
    } else {
      EmptyBehindPairwise(f, tail);
      assert b[2..] == tail;
    }
  }

  lemma EncodeLength(f: Fields)
    requires WellFormed(f)
    ensures |Encode(f)| >= 2
  {
  }

  // ----- Encoding undoes decoding ---------------------------------------

  lemma MgmtSound(f: Fields, b: seq<Byte>)
    requires WellFormed(f) && f.pmkids.Some? && f.mgmt.None?
    ensures var r := FromMgmt(f, b);
            WellFormed(r.fields) && Stops(r.fields, r.tail) && UpToPmkids(r.fields) == f && r.reported
            && EncodeFromMgmt(r.fields, r.tail) == b
  {
    assert |b| >= 4 ==> b == b[..4] + b[4..];
  }

  lemma PmkidsSound(f: Fields, b: seq<Byte>)
    requires WellFormed(f) && f.capa.Some? && f.pmkids.None?
    ensures var r := FromPmkids(f, b);
            WellFormed(r.fields) && Stops(r.fields, r.tail) && UpToCapa(r.fields) == f && r.reported
            && EncodeFromPmkids(r.fields, r.tail) == b
  {
    hide FromMgmt, EncodeFromMgmt;
    if |b| >= 2 && 2 + 16 * U16(b) <= |b| {
      var n := U16(b);
      var g := f.(pmkids := Some(b[2..2 + 16 * n]));
      MgmtSound(g, b[2 + 16 * n..]);
      assert |b[2..2 + 16 * n]| / 16 == n;
      Split16U16(b);
      assert b == b[..2] + b[2..2 + 16 * n] + b[2 + 16 * n..];
    } else {
      EmptyBehindPmkids(f, b);
    }
  }

  lemma EmptyBehindPmkids(f: Fields, tail: seq<Byte>)
    requires WellFormed(f) && f.pmkids.None?
    ensures EncodeFromPmkids(f, tail) == tail
  {
  }

  lemma CapaSound(f: Fields, b: seq<Byte>)
    requires WellFormed(f) && f.auth.Some? && f.capa.None?
    ensures var r := FromCapa(f, b);
            WellFormed(r.fields) && Stops(r.fields, r.tail) && UpToAuth(r.fields) == f && r.reported
            && EncodeFromCapa(r.fields, r.tail) == b
  {
    hide FromPmkids, EncodeFromPmkids;
    if |b| >= 2 {
      PmkidsSound(f.(capa := Some(U16(b))), b[2..]);
      Split16U16(b);
      assert b == b[..2] + b[2..];
    } else {
      EmptyBehindCapa(f, b);
    }
  }

  lemma ListSound(b: seq<Byte>)
    requires |b| >= 2 && !BadList(b)
    ensures EncodeList(Some(Suites(b[2..], U16(b)))) + b[2 + 4 * U16(b)..] == b
  {
    var n := U16(b);
    FlattenSuites(b[2..], n);
    Split16U16(b);
    assert b == b[..2] + b[2..][..4 * n] + b[2 + 4 * n..];
  }

  lemma AuthSound(f: Fields, b: seq<Byte>)
    requires WellFormed(f) && f.pairwise.Some? && f.auth.None?
    ensures var r := FromAuth(f, b);
            WellFormed(r.fields) && Stops(r.fields, r.tail) && UpToPairwise(r.fields) == f
            && r.reported == Reported(r.fields, r.tail)
            && EncodeFromAuth(r.fields, r.tail) == b
  {
    hide FromCapa, EncodeFromCapa, EncodeList, Suites;
    if |b| >= 2 && !BadList(b) {
      ListSound(b);
      var suites := Suites(b[2..], U16(b));
      CapaSound(f.(auth := Some(suites)), b[2 + 4 * U16(b)..]);
    } else {
      EmptyBehindAuth(f, b);
    }
  }

  lemma PairwiseSound(f: Fields, b: seq<Byte>)
    requires WellFormed(f) && f.group.Some? && f.pairwise.None?
    ensures var r := FromPairwise(f, b);
            WellFormed(r.fields) && Stops(r.fields, r.tail) && UpToGroup(r.fields) == f
            && r.reported == Reported(r.fields, r.tail)
            && EncodeFromPairwise(r.fields, r.tail) == b
  {
    hide FromAuth, EncodeFromAuth, EncodeList, Suites;
    if |b| >= 2 && !BadList(b) {
      ListSound(b);
      var suites := Suites(b[2..], U16(b));
      AuthSound(f.(pairwise := Some(suites)), b[2 + 4 * U16(b)..]);
    } else {
      EmptyBehindPairwise(f, b);
    }
  }

  /** Every body is exactly its decoded fields, encoded, and then the tail: no byte is lost,
      repeated or read twice, and the tail is one that really stops the decoder. */
  lemma EncodeDecode(body: seq<Byte>)
    requires |body| >= 2
    ensures var r := Decode(body);
            && WellFormed(r.fields) && Stops(r.fields, r.tail) && r.reported == Reported(r.fields, r.tail)
            && Encode(r.fields) + r.tail == body
  {
    hide FromPairwise, EncodeFromPairwise, Encode;
    var f := Fields(U16(body), None, None, None, None, None, None);
    var b := body[2..];
    Split16U16(body);
    assert body == body[..2] + b;
    if |b| >= 4 {
      PairwiseSound(f.(group := Some(b[..4])), b[4..]);
      assert b == b[..4] + b[4..];
    } else {
      EmptyBehindPairwise(f, b);
      assert b == [] + b;
    }
    var r := Decode(body);
    EncodeNested(r.fields, r.tail);
  }

  /** Decoding, both ways round: a body decodes to given fields and tail iff it is their encoding. */
  lemma DecodesIff(body: seq<Byte>, f: Fields, tail: seq<Byte>)
    requires |body| >= 2
    ensures Decode(body).fields == f && Decode(body).tail == tail
       <==> WellFormed(f) && Stops(f, tail) && body == Encode(f) + tail
  {
    hide Decode, Encode, Stops, WellFormed;
    EncodeDecode(body);
    if WellFormed(f) && Stops(f, tail) && body == Encode(f) + tail {
      DecodeEncode(f, tail);
    }
  }
}
