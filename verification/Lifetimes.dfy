/**
 The life of requests: reference counts, the queue of pending requests, and the table that finds an
 object by its handle.  Objects are named by the order of their creation.
 */
module Lifetimes {

  // ----- packet numbers -----

  /** The next 16-bit packet number; 0 is skipped. */
  function NextId(lastid: nat): nat {
    if (lastid + 1) % 0x10000 == 0 then 1 else (lastid + 1) % 0x10000
  }

  /** The packet number of the `n`th request. */
  function PacketId(n: nat): nat {
    n % 65535 + 1
  }

  /** The counter after `n` requests. */
  function LastId(n: nat): nat {
    if n == 0 then 0 else PacketId(n - 1)
  }

  lemma IdsInOrder(n: nat)
    ensures NextId(LastId(n)) == PacketId(n)
  {
  }

  /** Two requests have the same packet number if and only if a multiple of 65535 lies between them. */
  lemma SameIdIff(m: nat, n: nat)
    requires m <= n
    ensures PacketId(m) == PacketId(n) <==> (n - m) % 65535 == 0
  {
  }

  // ----- the queue -----

  /** The queue without a request: `unlist` on values. */
  function WithoutItem<T(==)>(q: seq<T>, x: T): (r: seq<T>)
    ensures |r| <= |q|
  {
    if q == [] then [] else if q[0] == x then WithoutItem(q[1..], x) else [q[0]] + WithoutItem(q[1..], x)
  }

  ghost predicate Increasing(q: seq<nat>) {
    forall i, j :: 0 <= i < j < |q| ==> q[i] < q[j]
  }

  /** Only the one request leaves, and the others keep their order. */
  lemma {:induction false} WithoutKeepsOthers(q: seq<nat>, x: nat)
    ensures forall y :: y in WithoutItem(q, x) <==> y in q && y != x
    ensures Increasing(q) ==> Increasing(WithoutItem(q, x))
  {
    if q != [] {
      WithoutKeepsOthers(q[1..], x);
      assert q == [q[0]] + q[1..];
      var rest := WithoutItem(q[1..], x);
      if q[0] != x {
        assert forall y :: y in WithoutItem(q, x) <==> y == q[0] || y in rest;
        if Increasing(q) {
          assert forall i :: 0 <= i < |rest| ==> rest[i] in q[1..];
        }
      }
    }
  }

  // ----- objects -----

  /** How far a cancellation has come: not begun, out of the queue, marked, its own reference dropped. */
  datatype Phase = Active | Unlisted | Marked | Dropped

  datatype Obj = Obj(id: nat, refc: int, cancelled: bool, phase: Phase)

  /**
   `objects`, `table`, `queue` and `lastid` are the program's.  `holders` counts, for every object
   ever made, who looked it up and has not released it; `dropped` has those whose cancellation ran to
   its end.
   */
  datatype State = State(
    objects: map<nat, Obj>, table: set<nat>, queue: seq<nat>, lastid: nat,
    created: nat, holders: seq<nat>, dropped: set<nat>)

  const INITIAL: State := State(map[], {}, [], 0, 0, [], {})

  datatype Step =
    | Create
    | Lookup(n: nat)
    | Pick(id: nat)
    | Release(n: nat)
    | Unlist(n: nat)
    | Mark(n: nat)
    | Drop(n: nat)

  /** The first listed request with a packet number. */
  function FirstWith(s: State, id: nat, i: nat): (k: nat)
    requires i <= |s.queue|
    ensures i <= k <= |s.queue|
    decreases |s.queue| - i
  {
    if i == |s.queue| || (s.queue[i] in s.objects && s.objects[s.queue[i]].id == id) then i else FirstWith(s, id, i + 1)
  }

  /** The destructors: out of the queue, out of the table. */
  function Destroyed(s: State, n: nat): State {
    s.(objects := s.objects - {n}, table := s.table - {n}, queue := WithoutItem(s.queue, n))
  }

  function Hold(s: State, n: nat): State
    requires n in s.objects && n < |s.holders|
  {
    var o := s.objects[n];
    s.(objects := s.objects[n := o.(refc := o.refc + 1)], holders := s.holders[n := s.holders[n] + 1])
  }

  /** `decref` */
  function Decref(s: State, n: nat): State
    requires n in s.objects
  {
    var o := s.objects[n].(refc := s.objects[n].refc - 1);
    var r := s.(objects := s.objects[n := o]);
    if o.refc == 0 && o.cancelled then Destroyed(r, n) else r
  }

  /** A cancellation begins on an object on which none has begun; the rest of it follows. */
  predicate Enabled(s: State, e: Step) {
    match e
    case Create => true
    case Lookup(n) => n in s.table && n in s.objects && n < |s.holders|
    case Pick(id) =>
      var k := FirstWith(s, id, 0);
      k < |s.queue| && s.queue[k] in s.objects && s.queue[k] < |s.holders|
    case Release(n) => n < |s.holders| && s.holders[n] > 0 && n in s.objects
    case Unlist(n) => n in s.objects && s.objects[n].phase == Active
    case Mark(n) => n in s.objects && s.objects[n].phase == Unlisted
    case Drop(n) => n in s.objects && s.objects[n].phase == Marked
  }

  function Phased(s: State, n: nat, phase: Phase): State
    requires n in s.objects
  {
    s.(objects := s.objects[n := s.objects[n].(phase := phase)])
  }

  function Do(s: State, e: Step): State
    requires Enabled(s, e)
  {
    match e
    case Create =>
      var n, id := s.created, NextId(s.lastid);
      s.(objects := s.objects[n := Obj(id, 1, false, Active)], table := s.table + {n}, queue := s.queue + [n],
         lastid := id, created := n + 1, holders := s.holders + [0])
    case Lookup(n) => Hold(s, n)
    case Pick(id) => Hold(s, s.queue[FirstWith(s, id, 0)])
    case Release(n) => Decref(s.(holders := s.holders[n := s.holders[n] - 1]), n)
    case Unlist(n) => Phased(s, n, Unlisted).(queue := WithoutItem(s.queue, n))
    case Mark(n) => Phased(s, n, Marked).(objects := s.objects[n := s.objects[n].(phase := Marked, cancelled := true)])
    case Drop(n) => Decref(Phased(s, n, Dropped).(dropped := s.dropped + {n}), n)
  }

  ghost predicate IsRun(states: seq<State>, steps: seq<Step>) {
    && |states| == |steps| + 1 && states[0] == INITIAL
    && forall i :: 0 <= i < |steps| ==> Enabled(states[i], steps[i]) && states[i + 1] == Do(states[i], steps[i])
  }

  // ----- what every run keeps -----

  /** The count of an object: its holders, and one more until its cancellation is through. */
  ghost predicate GoodObject(s: State, n: nat)
    requires n in s.objects && n < |s.holders|
  {
    var o := s.objects[n];
    && o.id == PacketId(n)
    && o.refc == s.holders[n] + (if o.phase == Dropped then 0 else 1)
    && o.refc > 0
    && (o.cancelled <==> o.phase == Marked || o.phase == Dropped)
    && (o.phase == Dropped <==> n in s.dropped)
    && (n in s.queue <==> o.phase == Active)
  }

  ghost predicate Good(s: State) {
    && |s.holders| == s.created && s.lastid == LastId(s.created)
    && (forall n :: n in s.objects ==> n < s.created && GoodObject(s, n))
    && (forall n :: n in s.table <==> n in s.objects)
    && (forall n :: n in s.queue ==> n in s.objects) && Increasing(s.queue)
    && (forall n :: n in s.dropped ==> n < s.created)
    && (forall n :: 0 <= n < s.created && n !in s.objects ==> n in s.dropped && s.holders[n] == 0)
  }

  lemma HoldKeeps(s: State, n: nat)
    requires Good(s) && n in s.objects
    ensures Good(Hold(s, n))
  {
    var r := Hold(s, n);
    forall m | m in r.objects ensures m < r.created && GoodObject(r, m) {
      assert GoodObject(s, m);
    }
  }

  lemma CreateKeeps(s: State)
    requires Good(s)
    ensures Good(Do(s, Create))
  {
    var r := Do(s, Create);
    IdsInOrder(s.created);
    forall i | 0 <= i < |s.queue| ensures s.queue[i] < s.created {
      assert s.queue[i] in s.objects;
    }
    forall m | m in r.objects ensures m < r.created && GoodObject(r, m) {
      if m != s.created { assert GoodObject(s, m); }
    }
  }

  /** A release, by a holder or at the end of a cancellation. */
  lemma ReleaseKeeps(s: State, n: nat)
    requires Good(s) && Enabled(s, Release(n))
    ensures Good(Do(s, Release(n)))
  {
    var r := Do(s, Release(n));
    WithoutKeepsOthers(s.queue, n);
    assert GoodObject(s, n);
    forall m | m in r.objects ensures m < r.created && GoodObject(r, m) {
      assert GoodObject(s, m);
    }
  }

  lemma UnlistKeeps(s: State, n: nat)
    requires Good(s) && Enabled(s, Unlist(n))
    ensures Good(Do(s, Unlist(n)))
  {
    var r := Do(s, Unlist(n));
    WithoutKeepsOthers(s.queue, n);
    forall m | m in r.objects ensures m < r.created && GoodObject(r, m) {
      assert GoodObject(s, m);
    }
  }

  lemma MarkKeeps(s: State, n: nat)
    requires Good(s) && Enabled(s, Mark(n))
    ensures Good(Do(s, Mark(n)))
  {
    var r := Do(s, Mark(n));
    forall m | m in r.objects ensures m < r.created && GoodObject(r, m) {
      assert GoodObject(s, m);
    }
  }

  lemma DropKeeps(s: State, n: nat)
    requires Good(s) && Enabled(s, Drop(n))
    ensures Good(Do(s, Drop(n)))
  {
    var r := Do(s, Drop(n));
    WithoutKeepsOthers(s.queue, n);
    assert GoodObject(s, n);
    forall m | m in r.objects ensures m < r.created && GoodObject(r, m) {
      assert GoodObject(s, m);
    }
  }

  lemma {:induction false} RunIsGood(states: seq<State>, steps: seq<Step>, i: nat)
    requires IsRun(states, steps) && i < |states|
    ensures Good(states[i])
  {
    if i > 0 {
      RunIsGood(states, steps, i - 1);
      var s := states[i - 1];
      match steps[i - 1]
      case Create => CreateKeeps(s);
      case Lookup(n) => HoldKeeps(s, n);
      case Pick(id) => HoldKeeps(s, s.queue[FirstWith(s, id, 0)]);
      case Release(n) => ReleaseKeeps(s, n);
      case Unlist(n) => UnlistKeeps(s, n);
      case Mark(n) => MarkKeeps(s, n);
      case Drop(n) => DropKeeps(s, n);
    }
  }

  // ----- what that means -----

  /** On every run: the count of an object is its holders, and one more until its cancellation is through. */
  lemma CountIsHolders(states: seq<State>, steps: seq<Step>, i: nat, n: nat)
    requires IsRun(states, steps) && i < |states| && n in states[i].objects
    ensures n < |states[i].holders|
    ensures states[i].objects[n].refc == states[i].holders[n] + (if n in states[i].dropped then 0 else 1)
  {
    RunIsGood(states, steps, i);
    assert GoodObject(states[i], n);
  }

  /** On every run: an object is destroyed exactly when its cancellation is through and nobody holds it. */
  lemma DestroyedIff(states: seq<State>, steps: seq<Step>, i: nat, n: nat)
    requires IsRun(states, steps) && i < |states| && n < states[i].created
    ensures |states[i].holders| == states[i].created
    ensures n !in states[i].objects <==> n in states[i].dropped && states[i].holders[n] == 0
  {
    RunIsGood(states, steps, i);
    if n in states[i].objects { assert GoodObject(states[i], n); }
  }

  /** On every run: a held object is alive and in the table; a cancelled one is out of the queue. */
  lemma HeldIsAlive(states: seq<State>, steps: seq<Step>, i: nat, n: nat)
    requires IsRun(states, steps) && i < |states| && n < states[i].created
    ensures n < |states[i].holders|
    ensures states[i].holders[n] > 0 ==> n in states[i].objects && n in states[i].table
    ensures n in states[i].objects && states[i].objects[n].cancelled ==> n !in states[i].queue
    ensures n !in states[i].objects ==> n !in states[i].queue && n !in states[i].table
  {
    RunIsGood(states, steps, i);
    if n in states[i].objects { assert GoodObject(states[i], n); }
  }

  /**
   On every run: the packet numbers of two living requests agree if and only if a multiple of 65535
   creations lies between them.
   */
  lemma LivingIdsAgreeIff(states: seq<State>, steps: seq<Step>, i: nat, m: nat, n: nat)
    requires IsRun(states, steps) && i < |states| && m <= n && m in states[i].objects && n in states[i].objects
    ensures states[i].objects[m].id == states[i].objects[n].id <==> (n - m) % 65535 == 0
  {
    RunIsGood(states, steps, i);
    assert GoodObject(states[i], m) && GoodObject(states[i], n);
    SameIdIff(m, n);
  }

  lemma {:induction false} FirstWithIsFirst(s: State, id: nat, i: nat)
    requires i <= |s.queue| && forall n :: n in s.queue ==> n in s.objects
    ensures var k := FirstWith(s, id, i);
      && (forall j :: i <= j < k ==> s.objects[s.queue[j]].id != id)
      && (k < |s.queue| ==> s.objects[s.queue[k]].id == id)
    decreases |s.queue| - i
  {
    if i < |s.queue| && s.objects[s.queue[i]].id != id {
      FirstWithIsFirst(s, id, i + 1);
    }
  }

  /** On every run: a response reaches the oldest request that waits for its number, and none if none does. */
  lemma PickFindsOldest(states: seq<State>, steps: seq<Step>, i: nat, id: nat)
    requires IsRun(states, steps) && i < |states|
    ensures var s := states[i];
      var k := FirstWith(s, id, 0);
      && (forall n :: n in s.queue ==> n in s.objects)
      && (k < |s.queue| ==> s.objects[s.queue[k]].id == id && !s.objects[s.queue[k]].cancelled)
      && (forall n :: n in s.queue && s.objects[n].id == id ==> k < |s.queue| && s.queue[k] <= n)
      && (Enabled(s, Pick(id)) <==> k < |s.queue|)
      && (k < |s.queue| ==> var n, r := s.queue[k], Do(s, Pick(id));
        && r.holders == s.holders[n := s.holders[n] + 1]
        && r.objects == s.objects[n := s.objects[n].(refc := s.objects[n].refc + 1)])
  {
    var s := states[i];
    var k := FirstWith(s, id, 0);
    RunIsGood(states, steps, i);
    FirstWithIsFirst(s, id, 0);
    if k < |s.queue| {
      assert s.queue[k] in s.queue;
      assert GoodObject(s, s.queue[k]);
    }
    forall n | n in s.queue && s.objects[n].id == id ensures k < |s.queue| && s.queue[k] <= n {
      var j :| 0 <= j < |s.queue| && s.queue[j] == n;
      if k != j { assert k < j; }
    }
  }

  /** What is destroyed stays destroyed. */
  lemma {:induction false} NeverRevived(states: seq<State>, steps: seq<Step>, i: nat, j: nat, n: nat)
    requires IsRun(states, steps) && i <= j < |states| && n < states[i].created && n !in states[i].objects
    ensures n < states[j].created && n !in states[j].objects
    decreases j
  {
    if i < j {
      NeverRevived(states, steps, i, j - 1, n);
      RunIsGood(states, steps, j - 1);
    }
  }

  // ----- cancelling twice -----

  /** `request::cancel` as a whole, on any object. */
  function RawCancel(s: State, n: nat): State
    requires n in s.objects
  {
    Decref(s.(objects := s.objects[n := s.objects[n].(cancelled := true)], queue := WithoutItem(s.queue, n)), n)
  }

  /**
   A held object outlives a cancellation if and only if its count is above one; while no cancellation
   is through, it always is.
   */
  lemma OutlivesCancelIff(s: State, n: nat)
    requires Good(s) && n in s.objects && s.holders[n] > 0
    ensures n in RawCancel(s, n).objects <==> s.objects[n].refc > 1
    ensures n !in s.dropped ==> s.objects[n].refc > 1
  {
    assert GoodObject(s, n);
  }

  /** A state with one request. */
  function One(o: Obj, held: nat): State {
    State(map[0 := o], {0}, if o.phase == Active then [0] else [], 1, 1, [held], if o.phase == Dropped then {0} else {})
  }

  lemma OneIsPicked(o: Obj, held: nat)
    requires o.id == 1 && o.phase == Active
    ensures Enabled(One(o, held), Pick(1)) && Do(One(o, held), Pick(1)) == One(o.(refc := o.refc + 1), held + 1)
  {
    assert FirstWith(One(o, held), 1, 0) == 0;
  }

  lemma OneIsCancelled(o: Obj, held: nat)
    requires o.id == 1 && o.phase == Active && o.refc > 1
    ensures Enabled(One(o, held), Unlist(0)) && Do(One(o, held), Unlist(0)) == One(o.(phase := Unlisted), held)
    ensures Enabled(One(o.(phase := Unlisted), held), Mark(0))
    ensures Do(One(o.(phase := Unlisted), held), Mark(0)) == One(o.(phase := Marked, cancelled := true), held)
    ensures Enabled(One(o.(phase := Marked, cancelled := true), held), Drop(0))
    ensures Do(One(o.(phase := Marked, cancelled := true), held), Drop(0)) ==
      One(o.(phase := Dropped, cancelled := true, refc := o.refc - 1), held)
  {
    assert WithoutItem([0], 0) == [];
  }

  lemma OneIsReleased(o: Obj, held: nat)
    requires o.refc > 1 && held > 0
    ensures Enabled(One(o, held), Release(0)) && Do(One(o, held), Release(0)) == One(o.(refc := o.refc - 1), held - 1)
  {
  }

  lemma OneIsCreated()
    ensures IsRun([INITIAL], []) && Enabled(INITIAL, Create) && Do(INITIAL, Create) == One(Obj(1, 1, false, Active), 0)
  {
  }

  lemma OneIsDestroyed()
    ensures var s := One(Obj(1, 1, true, Dropped), 1);
      s.holders == [1] && 0 in s.objects && 0 !in RawCancel(s, 0).objects
  {
  }

  lemma RunMore(states: seq<State>, steps: seq<Step>, e: Step) returns (states': seq<State>, steps': seq<Step>)
    requires IsRun(states, steps) && Enabled(states[|steps|], e)
    ensures IsRun(states', steps') && |states'| == |steps'| + 1 && states'[|steps'|] == Do(states[|steps|], e)
  {
    states', steps' := states + [Do(states[|steps|], e)], steps + [e];
  }

  lemma PickedTwice() returns (states: seq<State>, steps: seq<Step>)
    ensures IsRun(states, steps) && |states| == |steps| + 1 && states[|steps|] == One(Obj(1, 3, false, Active), 2)
  {
    hide Do, Enabled, RawCancel, IsRun, One;
    OneIsCreated();
    OneIsPicked(Obj(1, 1, false, Active), 0);
    OneIsPicked(Obj(1, 2, false, Active), 1);
    states, steps := RunMore([INITIAL], [], Create);
    states, steps := RunMore(states, steps, Pick(1));
    states, steps := RunMore(states, steps, Pick(1));
  }

  lemma CancelledOnce() returns (states: seq<State>, steps: seq<Step>)
    ensures IsRun(states, steps) && |states| == |steps| + 1 && states[|steps|] == One(Obj(1, 2, true, Dropped), 2)
  {
    hide Do, Enabled, RawCancel, IsRun, One;
    OneIsCancelled(Obj(1, 3, false, Active), 2);
    states, steps := PickedTwice();
    states, steps := RunMore(states, steps, Unlist(0));
    states, steps := RunMore(states, steps, Mark(0));
    states, steps := RunMore(states, steps, Drop(0));
  }

  /**
   Two responses to one request: both are picked, each cancels, and the second holder is left with
   a destroyed object.
   */
  lemma CancelledTwice() returns (states: seq<State>, steps: seq<Step>)
    ensures IsRun(states, steps) && |states| == |steps| + 1
    ensures var s := states[|steps|]; s.holders == [1] && 0 in s.objects && 0 !in RawCancel(s, 0).objects
  {
    hide Do, Enabled, RawCancel, IsRun, One;
    OneIsReleased(Obj(1, 2, true, Dropped), 2);
    OneIsDestroyed();
    states, steps := CancelledOnce();
    states, steps := RunMore(states, steps, Release(0));
  }
}
