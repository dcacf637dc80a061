/**
 The table that maps handles to objects, on values.  A handle is a serial number in the upper half
 and a slot number in the lower half of a 32-bit word.
 */
module HandleTable {
  import opened Common
  import opened Chains

  const HALF: nat := 0x10000

  /** Serial numbers take 15 bits, which keeps handles positive. */
  const SERIALS: nat := 0x8000

  /** A slot; an unused one has the id -1. */
  datatype Oid = Oid(id: int, body: int)

  datatype Table = Table(slots: seq<Oid>, free: seq<nat>, seed: nat)

  const EMPTY: Table := Table([], [], 0)

  /** Bitwise or. */
  function Or(a: nat, b: nat): nat {
    if a == 0 && b == 0 then 0
    else 2 * Or(a / 2, b / 2) + (if a % 2 == 1 || b % 2 == 1 then 1 else 0)
  }

  lemma {:induction false} OrZero(a: nat)
    ensures Or(a, 0) == a
  {
    if a > 0 {
      OrZero(a / 2);
    }
  }

  /** `(idx_seed + 0x10000) & 0x7fff0000`, as the number of the serial. */
  function NextSerial(serial: nat): nat {
    (serial + 1) % SERIALS
  }

  /** `(idx_seed | slot)`: for a slot past the lower half, its upper bits are mixed into the serial number. */
  function Handle(serial: nat, slot: nat): nat {
    Or(serial, slot / HALF) * HALF + slot % HALF
  }

  /** `idx & 0xffff`, for any integer a caller passes. */
  function SlotIn(idx: int): nat {
    idx % HALF
  }

  /** Free slots are slots. */
  ghost predicate FreeFits(t: Table) {
    forall i :: 0 <= i < |t.free| ==> t.free[i] < |t.slots|
  }

  /** Room for `psz` more slots, all free. */
  function Grown(t: Table, psz: nat): Table {
    t.(slots := t.slots + seq(psz, _ => Oid(-1, 0)),
       free := t.free + seq(psz, i requires 0 <= i < psz => |t.slots| + i))
  }

  const NO_HANDLE: int := -1

  /** `add`: takes the last free slot, making room first when there is none and memory is granted. */
  function Add(t: Table, psz: nat, body: int, granted: bool): (Table, int)
    requires psz > 0
    requires FreeFits(t)
  {
    if t.free == [] && !granted then (t, NO_HANDLE)
    else
      var g := if t.free == [] then Grown(t, psz) else t;
      var serial, slot := NextSerial(g.seed), g.free[|g.free| - 1];
      var key: int := Handle(serial, slot);
      (Table(g.slots[slot := Oid(key, body)], g.free[..|g.free| - 1], serial), key)
  }

  predicate Found(t: Table, idx: int) {
    SlotIn(idx) < |t.slots| && t.slots[SlotIn(idx)].id == idx
  }

  /** `get` */
  function Get(t: Table, idx: int): Option<int> {
    if Found(t, idx) then Some(t.slots[SlotIn(idx)].body) else None
  }

  /** `remove` */
  function Remove(t: Table, idx: int): (Table, bool) {
    var s := SlotIn(idx);
    if Found(t, idx) then (t.(slots := t.slots[s := t.slots[s].(id := -1)], free := t.free + [s]), true)
    else (t, false)
  }

  // ----- what the table means -----

  function Keys(t: Table): set<int> {
    set i | 0 <= i < |t.slots| && t.slots[i].id != -1 :: t.slots[i].id
  }

  /** A used slot's handle names the slot, and a serial number. */
  predicate GoodId(id: int, slot: nat) {
    id != -1 ==> 0 <= id < SERIALS * HALF && id % HALF == slot
  }

  /** The free stack is exactly the slots with id -1, and slot numbers fit the lower half. */
  ghost predicate Good(t: Table) {
    && |t.slots| <= HALF && t.seed < SERIALS
    && Distinct(t.free)
    && FreeFits(t)
    && (forall i :: 0 <= i < |t.slots| ==> (t.slots[i].id == -1 <==> i in t.free))
    && (forall i :: 0 <= i < |t.slots| ==> GoodId(t.slots[i].id, i))
    && |Keys(t)| == |t.slots| - |t.free|
  }

  ghost function Contents(t: Table): map<int, int>
    requires Good(t)
  {
    map k | k in Keys(t) :: t.slots[SlotIn(k)].body
  }

  lemma KeysAreFound(t: Table, k: int)
    requires Good(t)
    ensures k in Keys(t) <==> Found(t, k) && k != NO_HANDLE
  {
    if k in Keys(t) {
      var i :| 0 <= i < |t.slots| && t.slots[i].id != -1 && t.slots[i].id == k;
      assert GoodId(t.slots[i].id, i);
    }
  }

  /** The caller asks for the failure result, and it passes for a handle. */
  predicate FindsFailure(t: Table, k: int) {
    k == NO_HANDLE && Found(t, NO_HANDLE)
  }

  /** `get` agrees with the map, unless it is asked for the failure result and finds it. */
  lemma GetAgrees(t: Table, k: int)
    requires Good(t)
    ensures Get(t, k) == (if k in Contents(t) then Some(Contents(t)[k]) else None) <==> !FindsFailure(t, k)
  {
    KeysAreFound(t, k);
  }

  /** `remove` takes the handle out of the map, and nothing else, unless it finds the failure result. */
  lemma RemoveAgrees(t: Table, k: int)
    requires Good(t)
    ensures var (t', ok) := Remove(t, k);
      Good(t') && (ok <==> k in Contents(t)) && Contents(t') == Contents(t) - {k} <==> !FindsFailure(t, k)
  {
    KeysAreFound(t, k);
    if Found(t, k) && k != NO_HANDLE {
      var t' := Remove(t, k).0;
      var s := SlotIn(k);
      assert GoodId(t.slots[s].id, s);
      FreedKeys(t, s);
      assert Good(t');
      hide FreeFits, GoodId;
    }
  }

  /** `size` counts the handles. */
  lemma SizeAgrees(t: Table)
    requires Good(t)
    ensures |Contents(t)| == |t.slots| - |t.free|
  {
    assert Contents(t).Keys == Keys(t);
  }

  /** Freeing a slot takes its id, and no other, out of the keys. */
  lemma FreedKeys(t: Table, s: nat)
    requires Good(t) && s < |t.slots| && t.slots[s].id != -1
    ensures Keys(t.(slots := t.slots[s := t.slots[s].(id := -1)], free := t.free + [s])) == Keys(t) - {t.slots[s].id}
  {
    var t' := t.(slots := t.slots[s := t.slots[s].(id := -1)], free := t.free + [s]);
    assert forall i :: 0 <= i < |t.slots| ==> GoodId(t.slots[i].id, i);
    forall k ensures k in Keys(t') <==> k in Keys(t) && k != t.slots[s].id {
      if k in Keys(t) && k != t.slots[s].id {
        var i :| 0 <= i < |t.slots| && t.slots[i].id != -1 && t.slots[i].id == k;
        assert t'.slots[i].id == k;
      }
    }
  }

  /** New room holds nothing. */
  lemma GrownIsGood(t: Table, psz: nat)
    requires Good(t) && t.free == [] && |t.slots| + psz <= HALF
    ensures Good(Grown(t, psz)) && Keys(Grown(t, psz)) == Keys(t) && Contents(Grown(t, psz)) == Contents(t)
  {
    var g := Grown(t, psz);
    forall i | 0 <= i < |g.slots| ensures g.slots[i].id == -1 <==> i in g.free {
      if i >= |t.slots| { assert g.free[i - |t.slots|] == i; }
    }
    forall k ensures k in Keys(g) <==> k in Keys(t) {
      if k in Keys(t) {
        var i :| 0 <= i < |t.slots| && t.slots[i].id != -1 && t.slots[i].id == k;
        assert g.slots[i].id == k;
      }
    }
    assert Keys(g) == Keys(t);
    assert Good(g);
    forall k | k in Keys(t) ensures Contents(g)[k] == Contents(t)[k] {
      KeysAreFound(t, k);
    }
  }

  lemma HandleBelow(serial: nat, slot: nat)
    requires serial < SERIALS && slot < HALF
    ensures Handle(serial, slot) == serial * HALF + slot && GoodId(Handle(serial, slot), slot)
    ensures Handle(serial, slot) / HALF == serial
  {
    OrZero(serial);
    hide Or;
    assert slot / HALF == 0 && slot % HALF == slot;
  }

  /** The table after its last free slot was given the handle `key`. */
  function Taken(t: Table, key: int, body: int, seed: nat): Table
    requires t.free != [] && t.free[|t.free| - 1] < |t.slots|
  {
    var last := |t.free| - 1;
    Table(t.slots[t.free[last] := Oid(key, body)], t.free[..last], seed)
  }

  lemma TakenKeys(t: Table, key: int, body: int, seed: nat)
    requires Good(t) && t.free != [] && key != -1
    ensures Keys(Taken(t, key, body, seed)) == Keys(t) + {key}
  {
    var s, t' := t.free[|t.free| - 1], Taken(t, key, body, seed);
    assert t.slots[s].id == -1;
    forall k ensures k in Keys(t') <==> k in Keys(t) || k == key {
      if k == key { assert t'.slots[s].id == key; }
      if k in Keys(t) {
        var i :| 0 <= i < |t.slots| && t.slots[i].id != -1 && t.slots[i].id == k;
        assert t'.slots[i].id == k;
      }
    }
  }

  lemma TakenIsGood(t: Table, key: int, body: int, seed: nat)
    requires Good(t) && t.free != [] && seed < SERIALS && key != -1 && GoodId(key, t.free[|t.free| - 1])
    ensures key !in Contents(t) && Good(Taken(t, key, body, seed))
  {
    var last := |t.free| - 1;
    var s := t.free[last];
    assert t.slots[s].id == -1;
    TakenKeys(t, key, body, seed);
    KeysAreFound(t, key);
    assert t.free == t.free[..last] + [s];
  }

  lemma TakenContents(t: Table, key: int, body: int, seed: nat)
    requires Good(t) && t.free != [] && seed < SERIALS && key != -1 && GoodId(key, t.free[|t.free| - 1])
    requires Good(Taken(t, key, body, seed))
    ensures Contents(Taken(t, key, body, seed)) == Contents(t)[key := body]
  {
    assert t.slots[t.free[|t.free| - 1]].id == -1;
    TakenKeys(t, key, body, seed);
    forall k | k in Keys(t) ensures k != key && Contents(Taken(t, key, body, seed))[k] == Contents(t)[k] {
      KeysAreFound(t, k);
    }
  }

  /** `add` returns a handle that is not in the map, and puts the object under it; it fails only for want of memory. */
  lemma AddAgrees(t: Table, psz: nat, body: int, granted: bool)
    requires psz > 0 && Good(t) && |Add(t, psz, body, granted).0.slots| <= HALF
    ensures var (t', key) := Add(t, psz, body, granted);
      && Good(t')
      && (if t.free == [] && !granted then key == -1 && t' == t
          else
            && key >= 0 && key !in Contents(t) && Contents(t') == Contents(t)[key := body]
            && key < 0x8000_0000 && t'.seed == (t.seed + 1) % 32768 == key / 65536)
  {
    if t.free != [] || granted {
      if t.free == [] { GrownIsGood(t, psz); }
      var g := if t.free == [] then Grown(t, psz) else t;
      var serial, slot := NextSerial(g.seed), g.free[|g.free| - 1];
      HandleBelow(serial, slot);
      TakenIsGood(g, Handle(serial, slot), body, serial);
      TakenContents(g, Handle(serial, slot), body, serial);
      hide Handle, Good, Contents;
    }
  }

  /** The slot of a removed handle is the next one handed out, under the next serial number. */
  lemma RemovedSlotIsNext(t: Table, psz: nat, k: int, body: int, granted: bool)
    requires psz > 0 && Good(t) && Found(t, k) && !FindsFailure(t, k)
    ensures var t' := Remove(t, k).0;
      FreeFits(t') && Add(t', psz, body, granted).1 == (t.seed + 1) % 32768 * 65536 + k % 65536
  {
    RemoveAgrees(t, k);
    HandleBelow(NextSerial(t.seed), SlotIn(k));
    hide Good, Handle;
  }

  /** A new page is handed out from its last slot on. */
  lemma NewPageFromTheEnd(t: Table, psz: nat, body: int)
    requires psz > 0 && Good(t) && t.free == [] && |t.slots| + psz <= 65536
    ensures Add(t, psz, body, true).1 == (t.seed + 1) % 32768 * 65536 + |t.slots| + psz - 1
  {
    HandleBelow(NextSerial(t.seed), |t.slots| + psz - 1);
    hide Good, Handle;
  }

  // ----- the number of slots -----

  /**
   Looking up a handle leads to the slot it was made for if and only if the slot's number fits the
   lower half.
   */
  lemma LooksUpOwnSlotIff(serial: nat, slot: nat)
    ensures SlotIn(Handle(serial, slot)) == slot <==> slot < 65536
  {
    var high := Or(serial, slot / HALF);
    assert (high * HALF + slot % HALF) % HALF == slot % HALF;
  }

  /** The number that reports failure passes for a handle if and only if the slot 0xffff exists and is free. */
  lemma FailureFoundIff(t: Table)
    ensures Found(t, -1) <==> |t.slots| >= 65536 && t.slots[65535].id == -1
  {
  }

  // ----- runs -----

  datatype Call = AddCall(body: int, granted: bool) | RemoveCall(key: int) | GetCall(key: int)

  function Do(t: Table, psz: nat, c: Call): Table
    requires psz > 0 && FreeFits(t)
  {
    match c
    case AddCall(body, granted) => Add(t, psz, body, granted).0
    case RemoveCall(key) => Remove(t, key).0
    case GetCall(_) => t
  }

  /** Any calls on any number of slots, starting empty. */
  ghost predicate Follows(tables: seq<Table>, calls: seq<Call>, psz: nat)
    requires psz > 0
  {
    && |tables| == |calls| + 1 && tables[0] == EMPTY
    && forall i :: 0 <= i < |calls| ==> FreeFits(tables[i]) && tables[i + 1] == Do(tables[i], psz, calls[i])
  }

  /** A run on at most 65536 slots that never removes the failure result where it passes for a handle. */
  ghost predicate IsRun(tables: seq<Table>, calls: seq<Call>, psz: nat)
    requires psz > 0
  {
    && Follows(tables, calls, psz)
    && (forall i :: 0 <= i < |tables| ==> |tables[i].slots| <= HALF)
    && forall i :: 0 <= i < |calls| && calls[i].RemoveCall? ==> !FindsFailure(tables[i], calls[i].key)
  }

  lemma {:induction false} RunIsGood(tables: seq<Table>, calls: seq<Call>, psz: nat, n: nat)
    requires psz > 0 && IsRun(tables, calls, psz) && n < |tables|
    ensures Good(tables[n])
  {
    if n > 0 {
      RunIsGood(tables, calls, psz, n - 1);
      match calls[n - 1]
      case AddCall(body, granted) => AddAgrees(tables[n - 1], psz, body, granted);
      case RemoveCall(key) => RemoveAgrees(tables[n - 1], key);
      case GetCall(_) =>
    }
  }

  /** What the call at `n` returned, for an add that succeeded. */
  ghost predicate Added(tables: seq<Table>, calls: seq<Call>, psz: nat, n: nat, key: int)
    requires psz > 0 && IsRun(tables, calls, psz) && n < |calls|
  {
    calls[n].AddCall? && Add(tables[n], psz, calls[n].body, calls[n].granted).1 == key >= 0
  }

  /** An add that finds a free slot or memory. */
  predicate Succeeds(t: Table, c: Call) {
    c.AddCall? && (t.free != [] || c.granted)
  }

  /** How many adds succeeded among the first `n` calls. */
  ghost function Adds(tables: seq<Table>, calls: seq<Call>, n: nat): nat
    requires n <= |calls| < |tables|
  {
    if n == 0 then 0 else Adds(tables, calls, n - 1) + (if Succeeds(tables[n - 1], calls[n - 1]) then 1 else 0)
  }

  lemma SerialStep(t: Table, psz: nat, c: Call, t': Table)
    requires psz > 0 && Good(t) && t' == Do(t, psz, c) && |t'.slots| <= HALF
    ensures t'.seed == if Succeeds(t, c) then NextSerial(t.seed) else t.seed
  {
    if c.AddCall? { AddAgrees(t, psz, c.body, c.granted); }
  }

  lemma NextCounts(a: nat)
    ensures NextSerial(a % SERIALS) == (a + 1) % SERIALS
  {
  }

  /** The serial number counts the adds. */
  lemma {:induction false} SerialCounts(tables: seq<Table>, calls: seq<Call>, psz: nat, n: nat)
    requires psz > 0 && IsRun(tables, calls, psz) && n <= |calls|
    ensures tables[n].seed == Adds(tables, calls, n) % SERIALS
  {
    if n > 0 {
      SerialCounts(tables, calls, psz, n - 1);
      RunIsGood(tables, calls, psz, n - 1);
      assert tables[n] == Do(tables[n - 1], psz, calls[n - 1]) && |tables[n].slots| <= HALF;
      hide IsRun;
      SerialStep(tables[n - 1], psz, calls[n - 1], tables[n]);
      NextCounts(Adds(tables, calls, n - 1));
      hide Good, Do, NextSerial;
    }
  }

  lemma {:induction false} AddsGrow(tables: seq<Table>, calls: seq<Call>, m: nat, n: nat)
    requires m <= n <= |calls| < |tables|
    ensures Adds(tables, calls, m) <= Adds(tables, calls, n)
    decreases n
  {
    if m < n {
      AddsGrow(tables, calls, m, n - 1);
    }
  }

  lemma SerialOfAdd(tables: seq<Table>, calls: seq<Call>, psz: nat, n: nat, key: int)
    requires psz > 0 && IsRun(tables, calls, psz) && n < |calls| && Added(tables, calls, psz, n, key)
    ensures key / HALF == Adds(tables, calls, n + 1) % SERIALS
    ensures Adds(tables, calls, n + 1) == Adds(tables, calls, n) + 1
  {
    SerialCounts(tables, calls, psz, n + 1);
    RunIsGood(tables, calls, psz, n);
    AddAgrees(tables[n], psz, calls[n].body, calls[n].granted);
  }

  /** Two adds that return the same handle are at least 32768 adds apart. */
  lemma SameHandleFarApart(tables: seq<Table>, calls: seq<Call>, psz: nat, m: nat, n: nat, key: int)
    requires psz > 0 && IsRun(tables, calls, psz) && m < n < |calls|
    requires Added(tables, calls, psz, m, key) && Added(tables, calls, psz, n, key)
    ensures Adds(tables, calls, n) - Adds(tables, calls, m) >= 32768
  {
    SerialOfAdd(tables, calls, psz, m, key);
    SerialOfAdd(tables, calls, psz, n, key);
    AddsGrow(tables, calls, m + 1, n);
    SameRemainder(Adds(tables, calls, m + 1), Adds(tables, calls, n + 1));
  }

  lemma SameRemainder(a: nat, b: nat)
    requires a < b && a % SERIALS == b % SERIALS
    ensures b - a >= SERIALS
  {
  }

  lemma AppearsAt(tables: seq<Table>, calls: seq<Call>, psz: nat, i: nat, key: int)
    requires psz > 0 && IsRun(tables, calls, psz) && i < |calls|
    requires !Found(tables[i], key) && Found(tables[i + 1], key) && key != NO_HANDLE
    ensures Added(tables, calls, psz, i, key)
  {
    RunIsGood(tables, calls, psz, i);
    hide Good, Found;
    AppearsByAdd(tables[i], psz, calls[i], tables[i + 1], key);
  }

  /** A handle comes into the table only by an add that returns it. */
  lemma {:induction false} ComesByAdd(tables: seq<Table>, calls: seq<Call>, psz: nat, m: nat, n: nat, key: int)
    returns (i: nat)
    requires psz > 0 && IsRun(tables, calls, psz) && m <= n < |tables|
    requires !Found(tables[m], key) && Found(tables[n], key) && key != NO_HANDLE
    ensures m <= i < n && Added(tables, calls, psz, i, key)
    decreases n
  {
    assert |tables| == |calls| + 1;
    hide IsRun, Found, Added;
    if Found(tables[n - 1], key) {
      i := ComesByAdd(tables, calls, psz, m, n - 1, key);
    } else {
      i := n - 1;
      AppearsAt(tables, calls, psz, i, key);
    }
  }

  lemma AppearsByAdd(t: Table, psz: nat, c: Call, t': Table, key: int)
    requires psz > 0 && Good(t) && t' == Do(t, psz, c) && |t'.slots| <= HALF
    requires !Found(t, key) && Found(t', key) && key != NO_HANDLE
    requires c.RemoveCall? ==> !FindsFailure(t, c.key)
    ensures c.AddCall? && Add(t, psz, c.body, c.granted).1 == key >= 0
  {
    KeysAreFound(t, key);
    match c
    case AddCall(body, granted) => AddAgrees(t, psz, body, granted); KeysAreFound(t', key);
    case RemoveCall(k) => RemoveAgrees(t, k); KeysAreFound(t', key);
    case GetCall(_) =>
  }

  /** A handle whose object was removed is refused until 32768 adds after the one that made it. */
  lemma StaleHandleFails(tables: seq<Table>, calls: seq<Call>, psz: nat, made: nat, removed: nat, n: nat, key: int)
    requires psz > 0 && IsRun(tables, calls, psz) && made < removed < n < |tables|
    requires Added(tables, calls, psz, made, key) && calls[removed] == RemoveCall(key)
    requires Adds(tables, calls, n) - Adds(tables, calls, made) <= 32768
    ensures Get(tables[n], key) == None && !Remove(tables[n], key).1
  {
    RunIsGood(tables, calls, psz, removed);
    GoneOnceRemoved(tables[removed], key);
    hide Good, Added, Adds, Remove;
    NotBackYet(tables, calls, psz, made, removed, n, key);
  }

  lemma GoneOnceRemoved(t: Table, key: int)
    requires Good(t) && key != NO_HANDLE
    ensures !Found(Remove(t, key).0, key)
  {
    RemoveAgrees(t, key);
    KeysAreFound(Remove(t, key).0, key);
  }

  lemma NotBackYet(tables: seq<Table>, calls: seq<Call>, psz: nat, made: nat, removed: nat, n: nat, key: int)
    requires psz > 0 && IsRun(tables, calls, psz) && made < removed < n < |tables|
    requires Added(tables, calls, psz, made, key) && !Found(tables[removed + 1], key)
    requires Adds(tables, calls, n) - Adds(tables, calls, made) <= SERIALS
    ensures !Found(tables[n], key)
  {
    assert |tables| == |calls| + 1;
    hide Good, Added, Adds, IsRun, Found;
    if Found(tables[n], key) {
      var i := ComesByAdd(tables, calls, psz, removed + 1, n, key);
      FarApartBehind(tables, calls, psz, made, i, n, key);
    }
  }

  lemma FarApartBehind(tables: seq<Table>, calls: seq<Call>, psz: nat, made: nat, i: nat, n: nat, key: int)
    requires psz > 0 && IsRun(tables, calls, psz) && made < i < n <= |calls|
    requires Added(tables, calls, psz, made, key) && Added(tables, calls, psz, i, key)
    ensures Adds(tables, calls, n) - Adds(tables, calls, made) > SERIALS
  {
    SameHandleFarApart(tables, calls, psz, made, i, key);
    SerialOfAdd(tables, calls, psz, i, key);
    AddsGrow(tables, calls, i + 1, n);
    hide Good, Added, Adds, IsRun;
  }
  // ----- more than 65535 slots -----

  /** A run that ends with `t`. */
  ghost predicate Reaches(tables: seq<Table>, calls: seq<Call>, psz: nat, t: Table)
    requires psz > 0
  {
    Follows(tables, calls, psz) && tables[|calls|] == t
  }

  lemma RunMore(tables: seq<Table>, calls: seq<Call>, psz: nat, t: Table, c: Call)
    returns (tables': seq<Table>, calls': seq<Call>)
    requires psz > 0 && Reaches(tables, calls, psz, t) && FreeFits(t)
    ensures Reaches(tables', calls', psz, Do(t, psz, c)) && calls' == calls + [c] && tables' == tables + [Do(t, psz, c)]
  {
    tables', calls' := tables + [Do(t, psz, c)], calls + [c];
  }

  /** Every slot in use holds 0, and its handle leads to it where the slot number fits. */
  ghost predicate Plain(t: Table) {
    && t.seed < SERIALS && FreeFits(t)
    && forall i :: 0 <= i < |t.slots| ==>
      i in t.free || (t.slots[i].body == 0 && (i < HALF ==> t.slots[i].id != -1 && SlotIn(t.slots[i].id) == i))
  }

  lemma AddIsPlain(t: Table, psz: nat)
    requires psz > 0 && Plain(t)
    ensures var t' := Do(t, psz, AddCall(0, true));
      Plain(t') && if t.free == [] then |t'.slots| == |t.slots| + psz
        else |t'.slots| == |t.slots| && |t'.free| == |t.free| - 1
  {
    var g := if t.free == [] then Grown(t, psz) else t;
    if t.free == [] { GrownIsPlain(t, psz); }
    var serial, last := NextSerial(g.seed), |g.free| - 1;
    if g.free[last] < HALF { HandleBelow(serial, g.free[last]); }
    hide Handle;
    assert g.free == g.free[..last] + [g.free[last]];
  }

  lemma GrownIsPlain(t: Table, psz: nat)
    requires psz > 0 && Plain(t) && t.free == []
    ensures Plain(Grown(t, psz)) && Grown(t, psz).free != []
  {
    var g := Grown(t, psz);
    forall i | |t.slots| <= i < |g.slots| ensures i in g.free {
      assert g.free[i - |t.slots|] == i;
    }
  }

  ghost predicate OnlyAdds(calls: seq<Call>) {
    forall i :: 0 <= i < |calls| ==> calls[i] == AddCall(0, true)
  }

  /** Adds until no slot is free. */
  lemma {:induction false} Drain(tables: seq<Table>, calls: seq<Call>, psz: nat, t: Table)
    returns (tables': seq<Table>, calls': seq<Call>, t': Table)
    requires psz > 0 && Reaches(tables, calls, psz, t) && Plain(t) && OnlyAdds(calls)
    ensures Reaches(tables', calls', psz, t') && Plain(t') && OnlyAdds(calls')
    ensures t'.free == [] && |t'.slots| == |t.slots|
    decreases |t.free|
  {
    if t.free == [] {
      tables', calls', t' := tables, calls, t;
    } else {
      AddIsPlain(t, psz);
      var c := AddCall(0, true);
      tables', calls' := RunMore(tables, calls, psz, t, c);
      hide Reaches, Plain, Do;
      tables', calls', t' := Drain(tables', calls', psz, Do(t, psz, c));
    }
  }

  /** Adds until all slots are in use and there are at least 65536. */
  lemma {:induction false} FillUp(tables: seq<Table>, calls: seq<Call>, psz: nat, t: Table)
    returns (tables': seq<Table>, calls': seq<Call>, t': Table)
    requires psz > 0 && Reaches(tables, calls, psz, t) && Plain(t) && OnlyAdds(calls) && t.free == []
    ensures Reaches(tables', calls', psz, t') && Plain(t') && OnlyAdds(calls')
    ensures t'.free == [] && |t'.slots| >= HALF
    decreases HALF - |t.slots|
  {
    if |t.slots| >= HALF {
      tables', calls', t' := tables, calls, t;
    } else {
      AddIsPlain(t, psz);
      var c := AddCall(0, true);
      tables', calls' := RunMore(tables, calls, psz, t, c);
      hide Reaches, Plain, Do;
      tables', calls', t' := Drain(tables', calls', psz, Do(t, psz, c));
      tables', calls', t' := FillUp(tables', calls', psz, t');
    }
  }

  lemma FullTable(psz: nat) returns (tables: seq<Table>, calls: seq<Call>, t: Table)
    requires psz > 0
    ensures Reaches(tables, calls, psz, t) && Plain(t) && OnlyAdds(calls) && t.free == [] && |t.slots| >= HALF
  {
    assert Reaches([EMPTY], [], psz, EMPTY);
    hide Reaches;
    tables, calls, t := FillUp([EMPTY], [], psz, EMPTY);
  }

  /**
   With any page size: a run of adds alone, the last of which returns a handle that is not found, or
   under which another object is.
   */
  lemma HandleLeadsElsewhere(psz: nat) returns (tables: seq<Table>, calls: seq<Call>, t: Table, key: int)
    requires psz > 0
    ensures Reaches(tables, calls + [AddCall(1, true)], psz, t) && OnlyAdds(calls) && FreeFits(tables[|calls|])
    ensures key == Add(tables[|calls|], psz, 1, true).1 && Get(t, key) != Some(1)
  {
    var full: Table;
    tables, calls, full := FullTable(psz);
    var before := tables;
    var more: seq<Call>;
    tables, more := RunMore(tables, calls, psz, full, AddCall(1, true));
    t, key := Do(full, psz, AddCall(1, true)), Add(full, psz, 1, true).1;
    LooksUpOwnSlotIff(NextSerial(full.seed), |full.slots| + psz - 1);
    hide Handle;
  }

  /**
   With any page size: with 65536 slots in use, removing the handle of slot 65535 and then the failure
   result frees this slot twice; the next two adds both get it, and the first of them loses its object.
   */
  lemma FailureRemovedTwice(psz: nat) returns (tables: seq<Table>, calls: seq<Call>, k: int, key: int)
    requires psz > 0
    ensures var rest := [RemoveCall(k), RemoveCall(NO_HANDLE), AddCall(1, true), AddCall(2, true)];
      var n := |calls|;
      && Follows(tables, calls + rest, psz) && OnlyAdds(calls)
      && tables[n + 2].free == [HALF - 1, HALF - 1]
      && FreeFits(tables[n + 2]) && key == Add(tables[n + 2], psz, 1, true).1
      && Get(tables[n + 3], key) == Some(1) && Get(tables[n + 4], key) == None
  {
    var t: Table;
    tables, calls, t := FullTable(psz);
    k := t.slots[HALF - 1].id;
    var last: Table;
    last, key := TwiceFreed(t, psz);
    var c: seq<Call>;
    var t1 := Do(t, psz, RemoveCall(k));
    var t2 := Do(t1, psz, RemoveCall(NO_HANDLE));
    var t3 := Do(t2, psz, AddCall(1, true));
    hide Do, Add, Get, Follows, Plain;
    tables, c := RunMore(tables, calls, psz, t, RemoveCall(k));
    tables, c := RunMore(tables, c, psz, t1, RemoveCall(NO_HANDLE));
    tables, c := RunMore(tables, c, psz, t2, AddCall(1, true));
    tables, c := RunMore(tables, c, psz, t3, AddCall(2, true));
  }

  lemma TwiceFreed(t: Table, psz: nat) returns (last: Table, key: int)
    requires psz > 0 && Plain(t) && t.free == [] && |t.slots| >= HALF
    ensures var t1 := Do(t, psz, RemoveCall(t.slots[HALF - 1].id));
      && FreeFits(t1)
      && var t2 := Do(t1, psz, RemoveCall(NO_HANDLE));
      && t2.free == [HALF - 1, HALF - 1] && FreeFits(t2) && key == Add(t2, psz, 1, true).1
      && var t3 := Do(t2, psz, AddCall(1, true));
      && FreeFits(t3) && Get(t3, key) == Some(1)
      && last == Do(t3, psz, AddCall(2, true)) && Get(last, key) == None
  {
    var t1 := Do(t, psz, RemoveCall(t.slots[HALF - 1].id));
    var t2 := Do(t1, psz, RemoveCall(NO_HANDLE));
    var s1 := NextSerial(t.seed);
    var s2 := NextSerial(s1);
    HandleBelow(s1, HALF - 1);
    HandleBelow(s2, HALF - 1);
    assert s1 != s2;
    hide Handle, Plain;
    var t3 := Do(t2, psz, AddCall(1, true));
    last, key := Do(t3, psz, AddCall(2, true)), Add(t2, psz, 1, true).1;
  }
}
