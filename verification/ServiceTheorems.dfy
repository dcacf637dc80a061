/**
 What a caller of `rascal_connect_service` may rely on, for every run of a service resolution.
 A record keeps 63 bytes of a host name; what is said of lookups and of the order of addresses needs
 lookups that a record can tell apart, and `LongNames` shows when they are.
 */
module ServiceTheorems {
  import opened WeightedOrder
  import opened ServiceMachine
  import opened Fanout
  import opened ServiceRuns
  import opened EveryRun

  /** A run whose response leads to no two lookups that a record cannot tell apart. */
  ghost predicate ClearRun(states: seq<State>, events: seq<Event>) {
    IsRun(states, events) && ClearFrom(states, events)
  }

  /** Nothing is left for the environment to answer. */
  ghost predicate Quiescent(st: State) {
    st.log.responded && st.log.lookups == map[] && !st.log.waiting
  }

  // ----- reports -----

  /**
   Whatever the names and events, the user is told at most once, and exactly once when the request
   has left the queue.
   */
  lemma AtMostOneReport(states: seq<State>, events: seq<Event>, n: nat)
    requires IsRun(states, events) && n < |states|
    ensures |states[n].log.reports| == (if states[n].listed then 0 else 1)
  {
    RunIsStaged(states, events, n);
  }

  lemma RecordsAwaitLookups(st: State)
    requires Awaiting(st) || Resolving(st)
    ensures st.log.lookups != map[]
  {
    assert HasLookup(st.log.lookups, st.srv[0].host);
  }

  ghost predicate NoConnectOk(events: seq<Event>) {
    forall i :: 0 <= i < |events| ==> !events[i].ConnectOk?
  }

  /** No attempt ends with an event other than a connect event. */
  ghost predicate NoneClosed(events: seq<Event>) {
    forall i :: 0 <= i < |events| ==> !events[i].AttemptClosed?
  }

  /** A stalled resolution never says or does anything again, whatever happens next. */
  lemma {:induction false} StalledForever(states: seq<State>, events: seq<Event>, n: nat, m: nat)
    requires IsRun(states, events) && n <= m < |states|
    requires states[n].log.stalled
    ensures states[m] == states[n].(log := states[n].log.(lookups := states[m].log.lookups))
    ensures states[m].listed && states[m].log.reports == []
    decreases m - n
  {
    RunIsStaged(states, events, n);
    if n < m {
      StalledForever(states, events, n, m - 1);
      StalledStays(states[m - 1], events[m - 1]);
    }
  }

  lemma StalledStays(st: State, e: Event)
    requires Trying(st) && st.log.stalled && Fits(st, e)
    ensures Apply(st, e) == st.(log := st.log.(lookups := Apply(st, e).log.lookups))
  {
    if e.Resolved? { AnswerIgnored(st, e); }
  }

  /** A resolution is stalled exactly when some attempt ended with an event other than a connect event. */
  lemma {:induction false} StalledIffClosed(states: seq<State>, events: seq<Event>, n: nat)
    requires IsRun(states, events) && n < |states|
    ensures states[n].log.stalled <==> !NoneClosed(events[..n])
  {
    if n > 0 {
      var m := n - 1;
      StalledIffClosed(states, events, m);
      RunIsStaged(states, events, m);
      StepStage(states[m], events[m]);
      ClosedSoFar(events, m);
    }
  }

  lemma ClosedSoFar(events: seq<Event>, m: nat)
    requires m < |events|
    ensures NoneClosed(events[..m + 1]) <==> NoneClosed(events[..m]) && !events[m].AttemptClosed?
  {
    var sofar := events[..m + 1];
    assert forall i :: 0 <= i < m ==> events[..m][i] == sofar[i];
    assert sofar[m] == events[m];
  }

  /**
   A run with nothing left to wait for has told the user if and only if no attempt ended with an
   event other than a connect event.
   */
  lemma ToldIffNoneClosed(states: seq<State>, events: seq<Event>, n: nat)
    requires IsRun(states, events) && n < |states|
    requires Quiescent(states[n])
    ensures |states[n].log.reports| == 1 <==> NoneClosed(events[..n])
    ensures |states[n].log.reports| == 0 <==> !NoneClosed(events[..n])
  {
    RunIsStaged(states, events, n);
    StalledIffClosed(states, events, n);
    if Awaiting(states[n]) {
      RecordsAwaitLookups(states[n]);
    }
  }

  /** The state after a response with one record. */
  function LookedUp(host: string): State {
    var r := Record(1, 1, 1, 80, host);
    State([r], [], true, EMPTY_LOG.(lookups := map[1 := host], accepted := [r], responded := true))
  }

  lemma OneRecordLookedUp(host: string)
    requires 0 < |host| < 64
    ensures var e := Response([Srv(1, 1, 80, host)], [true]); Fits(INITIAL, e) && Apply(INITIAL, e) == LookedUp(host)
  {
    var a := Srv(1, 1, 80, host);
    var st := OnRecord(INITIAL, a, true);
    assert st == LookedUp(host).(log := LookedUp(host).log.(responded := false));
    assert [a][1..] == [] && [true][1..] == [];
    assert Collect(INITIAL, [a], [true]) == Collect(st, [], []) == (st, false);
  }

  lemma OneAddressSorted(host: string, addr: nat)
    ensures var r, t := BeforeSort(LookedUp(host), 1, [addr], []), Target(1, 1, 80, addr);
      r.srv == [] && r.ina == [t] && r.log.lookups == map[] && FindId(LookedUp(host).srv, 1) == 0
  {
    var st, t := LookedUp(host), Target(1, 1, 80, addr);
    var r := st.srv[0];
    assert FindId(st.srv, 1) == 0;
    assert [addr][1..] == [] && st.srv[1..] == [];
    assert Insert([], t) == [t];
    assert AddAll([], r, [addr], [], 0) == AddAll([t], r, [], [], 1) == [t];
    assert Distribute(st.srv, host, [addr], [], 0, [], []) == Distribute([], host, [addr], [], 1, [], [t]) == ([], [t]);
    assert LookupsLeft(map[1 := host], 1) == map[];
  }

  lemma OneAddressTried(host: string, addr: nat)
    ensures var st, e := LookedUp(host), Resolved(1, [addr], [], [0], [Scheduled]);
      && Fits(st, e)
      && var r := Apply(st, e);
        r.listed && r.log.waiting && r.log.lookups == map[] && r.log.responded && r.log.reports == []
  {
    OneAddressSorted(host, addr);
    var r := BeforeSort(LookedUp(host), 1, [addr], []);
    assert r.listed && r.log.responded && r.log.reports == [];
    hide BeforeSort, Order;
    OrderIsPermutation(r.ina, [0]);
    assert |multiset(Order(r.ina, [0]))| == |multiset(r.ina)|;
  }

  /** One record, one address, one attempt that ends with a close event: the user is never told. */
  lemma ClosedAttemptStalls(host: string, addr: nat) returns (states: seq<State>, events: seq<Event>)
    requires 0 < |host| < 64
    ensures ClearRun(states, events) && Quiescent(states[|events|]) && states[|events|].log.reports == []
  {
    var e0, e1 := Response([Srv(1, 1, 80, host)], [true]), Resolved(1, [addr], [], [0], [Scheduled]);
    OneRecordLookedUp(host);
    OneAddressTried(host, addr);
    var s2 := Apply(LookedUp(host), e1);
    hide OnResolved, OnResponse;
    states, events := [INITIAL, LookedUp(host), s2, Apply(s2, AttemptClosed)], [e0, e1, AttemptClosed];
  }

  lemma {:induction false} NeverConnected(states: seq<State>, events: seq<Event>, n: nat)
    requires IsRun(states, events) && n < |states|
    requires NoConnectOk(events)
    ensures Connected !in states[n].log.reports
  {
    if n > 0 {
      NeverConnected(states, events, n - 1);
      RunIsStaged(states, events, n - 1);
      StepStage(states[n - 1], events[n - 1]);
    }
  }

  /**
   When every attempt fails with a connect event, the user ends up with exactly one report, which
   says that the service is unavailable or not found, after every address was consulted.
   */
  lemma AllFailedIsUnavailable(states: seq<State>, events: seq<Event>, n: nat)
    requires IsRun(states, events) && n < |states|
    requires NoConnectOk(events) && NoneClosed(events)
    requires Quiescent(states[n])
    ensures var log := states[n].log;
      && |log.reports| == 1 && log.reports[0] != Connected
      && (log.accepted != [] ==> log.reports == [Unavailable])
      && Targets(log.consulted) == log.order
  {
    NeverConnected(states, events, n);
    ToldIffNoneClosed(states, events, n);
    RunIsStaged(states, events, n);
    assert Told(states[n]);
    assert states[n].log.reports[0] in states[n].log.reports;
  }

  // ----- lookups, conservation, order -----

  /** While records are left, every host among them has exactly one outstanding lookup, and no other host has any. */
  lemma OneLookupPerHost(states: seq<State>, events: seq<Event>, n: nat, host: string)
    requires ClearRun(states, events) && n < |states|
    ensures var st := states[n];
      && DistinctIds(st.srv)
      && (Known(st.srv, host) <==> HasLookup(st.log.lookups, host))
      && (forall i, j :: i in st.log.lookups && j in st.log.lookups ==>
        Stored(st.log.lookups[i]) == host == Stored(st.log.lookups[j]) ==> i == j)
  {
    StaysGood(states, events, n);
    var st := states[n];
    if HasLookup(st.log.lookups, host) {
      var i :| i in st.log.lookups && Stored(st.log.lookups[i]) == host;
      assert HasRecord(st.srv, i, host);
    }
  }

  /**
   Sorting, consulting and connecting have begun if and only if the response came and the last
   lookup was answered.
   */
  lemma ConnectsAfterLastAnswer(states: seq<State>, events: seq<Event>, n: nat)
    requires ClearRun(states, events) && n < |states|
    ensures var st := states[n];
      && (st.log.responded && st.log.lookups == map[] <==> st.log.waiting || st.log.stalled || st.log.reports != [])
      && (st.log.lookups != map[] ==> st.log.order == [] && st.log.consulted == [])
      && (st.log.responded ==> (st.srv == [] <==> st.log.lookups == map[]))
  {
    StaysGood(states, events, n);
    var st := states[n];
    if Resolving(st) {
      RecordsAwaitLookups(st);
    }
  }

  /**
   Before the sort: no record is lost, and the addresses, with those dropped for want of memory, are
   exactly the pairings answered so far, by priority.
   */
  lemma NothingLostWhileResolving(states: seq<State>, events: seq<Event>, n: nat)
    requires ClearRun(states, events) && n < |states|
    requires states[n].log.lookups != map[]
    ensures var st := states[n];
      && multiset(st.srv) == multiset(Open(st.log.accepted, st.log.answers))
      && multiset(st.ina) + st.log.dropped == Pairings(st.log.accepted, st.log.answers)
      && ByPriority(st.ina)
  {
    StaysGood(states, events, n);
  }

  /**
   From the sort on: the sorted list, with what was dropped for want of memory, is every pairing of an
   accepted record with an answer for its host, by priority; addresses are consulted once each in that
   order; a connection is requested to exactly those the filter passed.
   */
  lemma ConsultedInOrder(states: seq<State>, events: seq<Event>, n: nat)
    requires ClearRun(states, events) && n < |states|
    requires states[n].log.responded && states[n].log.lookups == map[]
    ensures Ordered(states[n].log)
    ensures states[n].listed ==> Targets(states[n].log.consulted) + states[n].ina == states[n].log.order
  {
    StaysGood(states, events, n);
    var st := states[n];
    if Resolving(st) {
      RecordsAwaitLookups(st);
    }
  }
  /**
   Field by field: from the sort on, the list and what was dropped have a target with these numbers and
   this address as often as the accepted records with these numbers have the address in their answers.
   */
  lemma EveryPairingCounted(states: seq<State>, events: seq<Event>, n: nat, p: nat, w: nat, q: nat, a: nat)
    requires ClearRun(states, events) && n < |states|
    requires states[n].log.responded && states[n].log.lookups == map[]
    ensures var log := states[n].log;
      multiset(log.order)[Target(p, w, q, a)] + log.dropped[Target(p, w, q, a)] ==
        Expected(log.accepted, log.answers, p, w, q, a)
  {
    ConsultedInOrder(states, events, n);
    var log := states[n].log;
    PairingsCount(log.accepted, log.answers, p, w, q, a);
    assert (multiset(log.order) + log.dropped)[Target(p, w, q, a)] ==
      Pairings(log.accepted, log.answers)[Target(p, w, q, a)];
    hide ClearRun;
  }

  /** The answers recorded are those that came, each under the host whose lookup it answers. */
  lemma AnswersAreRecorded(states: seq<State>, events: seq<Event>, n: nat)
    requires ClearRun(states, events) && n < |events| && events[n].Resolved?
    ensures var host := Stored(states[n].log.lookups[events[n].id]);
      states[n + 1].log.answers == states[n].log.answers[host := events[n].addrs]
  {
    StaysGood(states, events, n);
    var st, e := states[n], events[n];
    if Resolving(st) {
      AnswerKeeps(st, e.id, e.addrs, e.grants);
      SortingKeepsAnswers(st, e);
    }
  }

  lemma SortingKeepsAnswers(st: State, e: Event)
    requires e.Resolved? && Fits(st, e)
    ensures Apply(st, e).log.answers == BeforeSort(st, e.id, e.addrs, e.grants).log.answers
  {
    var r := BeforeSort(st, e.id, e.addrs, e.grants);
    hide BeforeSort;
    if st.listed && FindId(st.srv, e.id) < |st.srv| && r.srv == [] {
      var m := TryNextIs(Sorted(r, e.draws), e.verdicts);
    }
  }

  /** The nodes asked for with this answer are all given. */
  predicate GivesAll(e: Event) {
    e.Resolved? ==> forall i :: 0 <= i < |e.grants| ==> e.grants[i]
  }

  /** What is dropped is dropped by an answer that is refused a node. */
  lemma DroppedByRefusal(st: State, e: Event)
    requires Fits(st, e)
    ensures st.log.dropped <= Apply(st, e).log.dropped
    ensures GivesAll(e) ==> Apply(st, e).log.dropped == st.log.dropped
  {
    match e
    case Response(records, scheduled) => CollectDropsNothing(st, records, scheduled);
    case Resolved(id, addrs, grants, draws, verdicts) =>
      var r := BeforeSort(st, id, addrs, grants);
      AnswerDrops(st, id, addrs, grants);
      hide BeforeSort;
      if st.listed && FindId(st.srv, id) < |st.srv| && r.srv == [] {
        var m := TryNextIs(Sorted(r, draws), verdicts);
      }
    case ConnectFailed(verdicts) =>
      if st.listed { var m := TryNextIs(Quiet(st), verdicts); }
    case _ =>
  }

  lemma AnswerDrops(st: State, id: nat, addrs: seq<nat>, grants: seq<bool>)
    ensures st.log.dropped <= BeforeSort(st, id, addrs, grants).log.dropped
    ensures (forall i :: 0 <= i < |grants| ==> grants[i]) ==>
      BeforeSort(st, id, addrs, grants).log.dropped == st.log.dropped
  {
    var k := FindId(st.srv, id);
    if k < |st.srv| && forall i :: 0 <= i < |grants| ==> grants[i] {
      NothingDeniedAtAll(st.srv, st.srv[k].host, addrs, grants, 0);
    }
  }

  lemma {:induction false} CollectDropsNothing(st: State, records: seq<Answer>, scheduled: seq<bool>)
    requires |scheduled| >= |records|
    ensures Collect(st, records, scheduled).0.log.dropped == st.log.dropped
    decreases |records|
  {
    if records == [] || records[0].Broken? {
    } else if records[0].Skipped? {
      CollectDropsNothing(st, records[1..], scheduled[1..]);
    } else if records[0].host != "" {
      CollectDropsNothing(OnRecord(st, records[0], scheduled[0]), records[1..], scheduled[1..]);
    }
  }

  /** As long as every address gets its node, the list from the sort on is every pairing. */
  lemma {:induction false} NothingDropped(states: seq<State>, events: seq<Event>, n: nat)
    requires IsRun(states, events) && n < |states|
    requires forall i :: 0 <= i < n ==> GivesAll(events[i])
    ensures states[n].log.dropped == multiset{}
  {
    if n > 0 {
      NothingDropped(states, events, n - 1);
      DroppedByRefusal(states[n - 1], events[n - 1]);
    }
  }
}
