/** The sample driver's encryption keys: `ioctl_set_encode` and `ioctl_get_encode` over the key table. */
module KeyTable {
  import opened CText
  import opened Octets

  const MAX_KEY_SIZE := 16
  const MAX_KEYS := 8

  const ENCODE_DISABLED := 0x8000
  const ENCODE_RESTRICTED := 0x4000
  const ENCODE_OPEN := 0x2000

  /** A request: 16 bits of flags, and `length` bytes of key. */
  datatype Request = Request(flags: nat, key: seq<Byte>)

  /** `(flags & IW_ENCODE_INDEX) - 1` */
  function Index(flags: nat): int {
    flags % 256 - 1
  }

  predicate InRange(i: int) {
    0 <= i < MAX_KEYS
  }

  // ----- The table as a value -------------------------------------------

  /** The keys stored, by slot; a slot that was never set is empty. */
  datatype Keys = Keys(slots: seq<seq<Byte>>, current: int, on: bool, open: bool)

  const START := Keys([[], [], [], [], [], [], [], []], 0, false, true)

  predicate Shaped(k: Keys) {
    && |k.slots| == MAX_KEYS && InRange(k.current)
    && forall i :: 0 <= i < MAX_KEYS ==> |k.slots[i]| <= MAX_KEY_SIZE
  }

  /** The slot a request is about. */
  function Target(flags: nat, current: int): int {
    if InRange(Index(flags)) then Index(flags) else current
  }

  /** Storing a key, or selecting the current one, before the mode flags are looked at. */
  function StoreOrSelect(k: Keys, r: Request): Option<Keys>
    requires Shaped(k)
  {
    if r.key != [] then
      if |r.key| > MAX_KEY_SIZE then None
      else Some(k.(slots := k.slots[Target(r.flags, k.current) := r.key], on := true))
    else if InRange(Index(r.flags)) then
      if k.slots[Index(r.flags)] != [] then Some(k.(current := Index(r.flags), on := true)) else None
    else Some(k)
  }

  function Modes(k: Keys, flags: nat): Keys {
    k.(on := k.on && !Has(flags, ENCODE_DISABLED),
       open := Has(flags, ENCODE_OPEN) || (k.open && !Has(flags, ENCODE_RESTRICTED)))
  }

  predicate Accepts(k: Keys, r: Request)
    requires Shaped(k)
  {
    StoreOrSelect(k, r).Some?
  }

  function Set(k: Keys, r: Request): (k': Keys)
    requires Shaped(k)
    ensures Shaped(k')
    ensures !Accepts(k, r) ==> k' == k
  {
    match StoreOrSelect(k, r)
    case None => k
    case Some(t) => Modes(t, r.flags)
  }

  /** The reply of get: flags and key. */
  function Get(k: Keys, flags: nat): (r: Request)
    requires Shaped(k)
  {
    var index := Target(flags, k.current);
    Request((if k.on then 0 else ENCODE_DISABLED) + (if k.open then ENCODE_OPEN else ENCODE_RESTRICTED) + (index + 1),
            k.slots[index])
  }

  // ----- The driver -----------------------------------------------------

  /** Rows of the table are all 16 bytes long; only the first `sizes[i]` of row i are a key. */
  ghost predicate Fit(rows: seq<seq<Byte>>, sizes: seq<nat>) {
    && |rows| == |sizes| == MAX_KEYS
    && forall i :: 0 <= i < MAX_KEYS ==> |rows[i]| == MAX_KEY_SIZE && sizes[i] <= MAX_KEY_SIZE
  }

  ghost function Slots(rows: seq<seq<Byte>>, sizes: seq<nat>): (r: seq<seq<Byte>>)
    requires Fit(rows, sizes)
    ensures |r| == MAX_KEYS
    ensures forall i :: 0 <= i < MAX_KEYS ==> r[i] == rows[i][..sizes[i]]
  {
    seq(MAX_KEYS, i requires 0 <= i < MAX_KEYS => rows[i][..sizes[i]])
  }

  /** Copying a key over the front of a row and noting its size sets that slot alone. */
  lemma SlotsUpdate(rows: seq<seq<Byte>>, sizes: seq<nat>, i: nat, key: seq<Byte>)
    requires Fit(rows, sizes) && i < MAX_KEYS && |key| <= MAX_KEY_SIZE
    ensures var rows' := rows[i := key + rows[i][|key|..]];
            && Fit(rows', sizes[i := |key|])
            && Slots(rows', sizes[i := |key|]) == Slots(rows, sizes)[i := key]
  {
    assert (key + rows[i][|key|..])[..|key|] == key;
  }

  class Driver {
    var keyOn: bool
    var keyOpen: bool
    var keyCurrent: int
    var keyTable: array<seq<Byte>>
    var keySize: array<nat>

    ghost predicate Valid()
      reads this, keyTable, keySize
    {
      keyTable.Length == keySize.Length == MAX_KEYS && Fit(keyTable[..], keySize[..]) && InRange(keyCurrent)
    }

    ghost function Value(): (k: Keys)
      requires Valid()
      reads this, keySize, keyTable
      ensures Shaped(k)
    {
      Keys(Slots(keyTable[..], keySize[..]), keyCurrent, keyOn, keyOpen)
    }

    constructor ()
      ensures Valid() && Value() == START && fresh(keyTable) && fresh(keySize)
    {
      keyOn, keyOpen, keyCurrent := false, true, 0;
      keyTable := new seq<Byte>[MAX_KEYS](_ => seq(MAX_KEY_SIZE, _ => 0));
      keySize := new nat[MAX_KEYS](_ => 0);
    }

    /** `memcpy` of a key into its row, and its size. */
    method Store(index: nat, key: seq<Byte>)
      requires Valid() && index < MAX_KEYS && |key| <= MAX_KEY_SIZE
      modifies keyTable, keySize
      ensures Valid()
      ensures Value() == old(Value()).(slots := old(Value().slots)[index := key])
    {
      ghost var rows: seq<seq<Byte>>, sizes: seq<nat> := keyTable[..], keySize[..];
      var n: nat := |key|;
      SlotsUpdate(rows, sizes, index, key);
      assert rows[index] == keyTable[index];
      hide Slots, Fit;
      keyTable[index] := key + keyTable[index][|key|..];
      keySize[index] := n;
      assert keyTable[..] == rows[index := key + rows[index][|key|..]];
      assert keySize[..] == sizes[index := n];
    }

    /** `ioctl_set_encode` */
    method SetEncode(erq: Request) returns (ret: int)
      requires Valid()
      modifies this, keyTable, keySize
      ensures Valid() && keyTable == old(keyTable) && keySize == old(keySize)
      ensures Value() == old(Set(Value(), erq))
      ensures ret == if old(Accepts(Value(), erq)) then 0 else -EINVAL
    {
      hide Has, Index, Modes, Slots, Fit, StoreOrSelect;
      var ok := StoreOrSelectKey(erq);
      if !ok {
        return -EINVAL;
      }
      ReadFlags(erq.flags);
      ret := 0;
    }

    /** The part that may fail. */
    method StoreOrSelectKey(erq: Request) returns (ok: bool)
      requires Valid()
      modifies this`keyOn, this`keyCurrent, keyTable, keySize
      ensures Valid()
      ensures ok == old(Accepts(Value(), erq))
      ensures Value() == if ok then old(StoreOrSelect(Value(), erq).value) else old(Value())
    {
      hide Has, Index, Slots, Fit;
      var index := Index(erq.flags);
      if |erq.key| > 0 {
        if |erq.key| > MAX_KEY_SIZE {
          return false;
        }
        if index < 0 || index >= MAX_KEYS {
          index := keyCurrent;
        }
        Store(index, erq.key);
        keyOn := true;
      } else if 0 <= index < MAX_KEYS {
        SlotEmptyIff(index);
        if keySize[index] == 0 {
          return false;
        }
        keyCurrent := index;
        keyOn := true;
      }
      ok := true;
    }

    method ReadFlags(flags: nat)
      requires Valid()
      modifies this`keyOn, this`keyOpen
      ensures Valid() && Value() == old(Modes(Value(), flags))
    {
      hide Has, Slots, Fit;
      if Has(flags, ENCODE_DISABLED) {
        keyOn := false;
      }
      if Has(flags, ENCODE_RESTRICTED) {
        keyOpen := false;
      }
      if Has(flags, ENCODE_OPEN) {
        keyOpen := true;
      }
    }

    lemma SlotEmptyIff(i: nat)
      requires Valid() && i < MAX_KEYS
      ensures Value().slots[i] == [] <==> keySize[i] == 0
    {
      assert keySize[..][i] == keySize[i];
    }

    method GetEncode(flags: nat) returns (reply: Request)
      requires Valid()
      ensures reply == Get(Value(), flags)
    {
      hide Index;
      var index := Index(flags);
      var out := 0;
      if !keyOn {
        out := out + ENCODE_DISABLED;
      }
      if !keyOpen {
        out := out + ENCODE_RESTRICTED;
      } else {
        out := out + ENCODE_OPEN;
      }
      if index < 0 || index >= MAX_KEYS {
        index := keyCurrent;
      }
      out := out + (index + 1);
      assert keyTable[..][index] == keyTable[index] && keySize[..][index] == keySize[index];
      reply := Request(out, keyTable[index][..keySize[index]]);
    }
  }

  // ----- Over every run -------------------------------------------------

  function Run(reqs: seq<Request>): (k: Keys)
    ensures Shaped(k)
  {
    if reqs == [] then START else Set(Run(reqs[..|reqs| - 1]), reqs[|reqs| - 1])
  }

  /** A current index other than zero names a slot that holds a key, and encryption is on only when
      some slot does. */
  predicate Sane(k: Keys) {
    && Shaped(k)
    && (k.current != 0 ==> k.slots[k.current] != [])
    && (k.on ==> exists i :: 0 <= i < MAX_KEYS && k.slots[i] != [])
  }

  lemma SetStaysSane(k: Keys, r: Request)
    requires Sane(k)
    ensures Sane(Set(k, r))
  {
    hide Has, Index;
    if Accepts(k, r) {
      var t := StoreOrSelect(k, r).value;
      var k' := Set(k, r);
      assert k'.slots == t.slots && k'.current == t.current;
      if k'.on {
        if r.key != [] {
          assert t.slots[Target(r.flags, k.current)] != [];
        } else if InRange(Index(r.flags)) {
          assert t.slots[Index(r.flags)] != [];
        }
      }
    }
  }

  lemma {:induction false} RunIsSane(reqs: seq<Request>)
    ensures Sane(Run(reqs))
  {
    if reqs != [] {
      RunIsSane(reqs[..|reqs| - 1]);
      SetStaysSane(Run(reqs[..|reqs| - 1]), reqs[|reqs| - 1]);
    }
  }

  /** Request n of a history stores its key. */
  predicate Stores(r: Request) {
    0 < |r.key| <= MAX_KEY_SIZE
  }

  /** The key last stored for a slot by a history, read off the requests alone. */
  function LastKey(reqs: seq<Request>, slot: int): seq<Byte>
    decreases |reqs|, 1
  {
    if reqs == [] then []
    else
      var before := reqs[..|reqs| - 1];
      var r := reqs[|reqs| - 1];
      if Stores(r) && Target(r.flags, LastSelected(before)) == slot then r.key else LastKey(before, slot)
  }

  /** A request selects a slot that holds a key after the history before it. */
  predicate Selects(before: seq<Request>, r: Request)
    decreases |before|, 2
  {
    r.key == [] && InRange(Index(r.flags)) && LastKey(before, Index(r.flags)) != []
  }

  /** The slot last selected: by a request without key, for a slot that held one at the time. */
  function LastSelected(reqs: seq<Request>): int
    decreases |reqs|, 0
  {
    if reqs == [] then 0
    else
      var before := reqs[..|reqs| - 1];
      var r := reqs[|reqs| - 1];
      if Selects(before, r) then Index(r.flags) else LastSelected(before)
  }

  /** A request is refused for a key too long, or for a slot without a key. */
  predicate Passes(before: seq<Request>, r: Request) {
    Stores(r) || Selects(before, r) || (r.key == [] && !InRange(Index(r.flags)))
  }

  /** Encryption was last switched on, by storing or selecting a key, and not off in that request or
      since. */
  predicate LastOn(reqs: seq<Request>) {
    reqs != [] &&
    var before := reqs[..|reqs| - 1];
    var r := reqs[|reqs| - 1];
    if !Passes(before, r) then LastOn(before)
    else !Has(r.flags, ENCODE_DISABLED) && (Stores(r) || Selects(before, r) || LastOn(before))
  }

  /** The mode last given by a request that was not refused; open wins over restricted. */
  predicate LastOpen(reqs: seq<Request>) {
    reqs == [] ||
    var before := reqs[..|reqs| - 1];
    var r := reqs[|reqs| - 1];
    if Passes(before, r) && Has(r.flags, ENCODE_OPEN) then true
    else if Passes(before, r) && Has(r.flags, ENCODE_RESTRICTED) then false
    else LastOpen(before)
  }

  /** After every history the table is the map from each slot to the key last stored for it, the
      current index is the slot last selected, and both modes are the ones last given. */
  lemma {:induction false} RunIsHistory(reqs: seq<Request>)
    ensures Run(reqs).current == LastSelected(reqs)
    ensures forall i :: 0 <= i < MAX_KEYS ==> Run(reqs).slots[i] == LastKey(reqs, i)
    ensures Run(reqs).on == LastOn(reqs) && Run(reqs).open == LastOpen(reqs)
  {
    hide Has, Index;
    if reqs != [] {
      var before := reqs[..|reqs| - 1];
      var r := reqs[|reqs| - 1];
      RunIsHistory(before);
      var k := Run(before);
      if Accepts(k, r) {
        var t := StoreOrSelect(k, r).value;
        assert Run(reqs).slots == t.slots && Run(reqs).current == t.current;
      }
    }
  }

  // ----- Get and set together -------------------------------------------

  lemma ReplyFlags(on: bool, open: bool, index: int)
    requires InRange(index)
    ensures var flags := (if on then 0 else ENCODE_DISABLED) + (if open then ENCODE_OPEN else ENCODE_RESTRICTED)
                         + (index + 1);
            && Index(flags) == index
            && Has(flags, ENCODE_DISABLED) == !on
            && Has(flags, ENCODE_OPEN) == open && Has(flags, ENCODE_RESTRICTED) == !open
  {
  }

  /** Setting what get replied changes nothing; it is accepted iff the slot holds a key. */
  lemma SetWhatGetReplied(k: Keys, flags: nat)
    requires Shaped(k)
    ensures Set(k, Get(k, flags)) == k
    ensures Accepts(k, Get(k, flags)) <==> k.slots[Target(flags, k.current)] != []
  {
    hide Has, Index;
    var i := Target(flags, k.current);
    ReplyFlags(k.on, k.open, i);
    assert k.slots[i := k.slots[i]] == k.slots;
  }

  /** After a key was stored, get for its slot gives it back, and other slots are as before. */
  lemma GetWhatWasSet(k: Keys, r: Request, i: nat, flags: nat)
    requires Shaped(k) && Stores(r) && i < MAX_KEYS && Index(flags) == i
    ensures Get(Set(k, r), flags).key == if i == Target(r.flags, k.current) then r.key else Get(k, flags).key
  {
    hide Has, Index;
  }

  /** The low byte of the flags names a slot from 1 to 8; any other value means the current one. */
  lemma SlotNamed(k: Keys, r: Request, high: nat, named: nat)
    requires Shaped(k) && Stores(r) && r.flags == 256 * high + named && named < 256
    ensures Set(k, r).slots == k.slots[(if 1 <= named <= 8 then named - 1 else k.current) := r.key]
  {
    hide Has;
  }
}
