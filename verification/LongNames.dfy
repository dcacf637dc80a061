/**
 Host names that do not fit a record: when connecting may start before the last lookup is answered.
 */
module LongNames {
  import opened WeightedOrder
  import opened ServiceMachine
  import opened Fanout
  import opened ServiceRuns
  import opened EveryRun

  /** No address was consulted and no attempt started while a lookup is outstanding. */
  ghost predicate OnTime(st: State) {
    st.log.lookups != map[] ==> st.log.consulted == [] && !st.log.waiting
  }

  /** However the run goes on. */
  ghost predicate AlwaysOnTime(st: State) {
    forall states: seq<State>, events: seq<Event>, n: nat ::
      Follows(states, events) && n < |states| && states[0] == st ==> OnTime(states[n])
  }

  // ----- lookups that records can tell apart -----

  lemma {:induction false} NoMoreResponses(states: seq<State>, events: seq<Event>, n: nat)
    requires Follows(states, events) && Good(states[0]) && states[0].log.responded && n < |states|
    ensures Good(states[n]) && states[n].log.responded
  {
    if n > 0 {
      NoMoreResponses(states, events, n - 1);
      LaterStepKeeps(states[n - 1], events[n - 1]);
      hide Good, Fits, Apply;
    }
  }

  lemma ClearIsOnTime(st: State)
    requires (Resolving(st) || Done(st))
    ensures AlwaysOnTime(st)
  {
    forall states: seq<State>, events: seq<Event>, n: nat | Follows(states, events) && n < |states| && states[0] == st
      ensures OnTime(states[n])
    {
      NoMoreResponses(states, events, n);
    }
  }

  // ----- lookups that they cannot tell apart -----

  /** An answer without addresses for a host leaves the records of the others. */
  function EmptyAnswer(st: State, id: nat): Event {
    var n := |BeforeSort(st, id, [], []).ina|;
    Resolved(id, [], [], seq(n, _ => 0), seq(n, _ => Scheduled))
  }

  lemma OtherAnswered(st: State, id: nat, host: string)
    requires st.listed && Loose(st.srv, st.log.lookups) && id in st.log.lookups
    requires Known(st.srv, host) && host != Stored(st.log.lookups[id])
    ensures var e := EmptyAnswer(st, id);
      var r := Apply(st, e);
      && Fits(st, e) && r.listed && Loose(r.srv, r.log.lookups) && Known(r.srv, host)
      && r.log.lookups == LookupsLeft(st.log.lookups, id)
  {
    OthersSurvive(st, id, [], []);
    AnswerKeepsLoose(st, id, [], []);
    StillKnown(st, id, host);
    AppliedEmpty(st, id);
    hide Loose, HasRecord, Known, Apply, BeforeSort, EmptyAnswer, Fits;
  }

  lemma StillKnown(st: State, id: nat, host: string)
    requires id in st.log.lookups && Known(st.srv, host) && host != Stored(st.log.lookups[id])
    requires forall q :: q in BeforeSort(st, id, [], []).srv <==> q in st.srv && q.host != Stored(st.log.lookups[id])
    ensures Known(BeforeSort(st, id, [], []).srv, host)
  {
    var k :| 0 <= k < |st.srv| && st.srv[k].host == host;
    hide BeforeSort;
    assert st.srv[k] in BeforeSort(st, id, [], []).srv;
  }

  lemma AppliedEmpty(st: State, id: nat)
    requires id in st.log.lookups && st.listed && BeforeSort(st, id, [], []).srv != []
    ensures var e, r := EmptyAnswer(st, id), BeforeSort(st, id, [], []);
      Fits(st, e) && Apply(st, e) == r && r.listed && r.log.lookups == LookupsLeft(st.log.lookups, id)
  {
  }

  /** The answer that takes the last records away, with one address, and whose first attempt is scheduled. */
  function LastAnswer(st: State, id: nat): Event {
    var n := |BeforeSort(st, id, [0], []).ina|;
    Resolved(id, [0], [], seq(n, _ => 0), seq(n, _ => Scheduled))
  }

  lemma LastTakesAll(st: State, id: nat, host: string)
    requires st.listed && Loose(st.srv, st.log.lookups) && id in st.log.lookups && Stored(st.log.lookups[id]) == host
    requires Known(st.srv, host) && forall k :: 0 <= k < |st.srv| ==> st.srv[k].host == host
    ensures FindId(st.srv, id) < |st.srv|
    ensures var r := BeforeSort(st, id, [0], []); r.srv == [] && r.ina != [] && r.listed
    ensures BeforeSort(st, id, [0], []).log.lookups == LookupsLeft(st.log.lookups, id)
  {
    FindsHostOrNone(st.srv, st.log.lookups, id);
    var r := BeforeSort(st, id, [0], []);
    NoneKept(st.srv, host, [0], [], 0, [], st.ina);
    FirstGetsAddress(st.srv, st.ina, host);
    hide Distribute, Loose;
  }

  lemma {:induction false} NoneKept(srv: seq<Record>, host: string, addrs: seq<nat>, grants: seq<bool>, n: nat,
      kept: seq<Record>, ina: seq<Target>)
    requires forall k :: 0 <= k < |srv| ==> srv[k].host == host
    ensures Distribute(srv, host, addrs, grants, n, kept, ina).0 == kept
    decreases |srv|
  {
    if srv != [] {
      NoneKept(srv[1..], host, addrs, grants, n + |addrs|, kept, AddAll(ina, srv[0], addrs, grants, n));
    }
  }

  lemma FirstGetsAddress(srv: seq<Record>, ina: seq<Target>, host: string)
    requires srv != [] && srv[0].host == host
    ensures Distribute(srv, host, [0], [], 0, [], ina).1 != []
  {
    DistributeAddsPairings(srv, host, [0], [], 0, [], ina);
    NothingDeniedAtAll(srv, host, [0], [], 0);
    hide Distribute, DeniedAll;
    assert [0][1..] == [];
    assert Pair(srv[0], 0) in PairsWith(srv[0], map[host := [0]]);
    GotSome(Distribute(srv, host, [0], [], 0, [], ina).1, multiset(ina), Pairings(srv, map[host := [0]]),
      Pair(srv[0], 0));
  }

  lemma GotSome(got: seq<Target>, had: multiset<Target>, asked: multiset<Target>, t: Target)
    requires multiset(got) + multiset{} == had + asked && t in asked
    ensures got != []
  {
    assert t in multiset(got) + multiset{};
  }

  lemma LastConnects(st: State, id: nat, other: nat, host: string)
    requires st.listed && Loose(st.srv, st.log.lookups)
    requires id in st.log.lookups && other in st.log.lookups && id != other && Stored(st.log.lookups[id]) == host
    requires Known(st.srv, host) && forall k :: 0 <= k < |st.srv| ==> st.srv[k].host == host
    ensures var e := LastAnswer(st, id); Fits(st, e) && !OnTime(Apply(st, e))
  {
    LastTakesAll(st, id, host);
    var e, r := LastAnswer(st, id), BeforeSort(st, id, [0], []);
    OrderIsPermutation(r.ina, e.draws);
    assert |multiset(Order(r.ina, e.draws))| == |multiset(r.ina)|;
    assert other in r.log.lookups;
    StartsTrying(Sorted(r, e.draws), e.verdicts);
    hide BeforeSort, Loose, TryNext;
  }

  lemma StartsTrying(st: State, verdicts: seq<Verdict>)
    requires |verdicts| >= |st.ina| > 0 && verdicts[0] == Scheduled
    ensures var r := TryNext(st, verdicts); r.log.waiting && r.log.lookups == st.log.lookups
  {
  }

  lemma FewerLeft(lookups: map<nat, string>, id: nat)
    requires id in lookups
    ensures |LookupsLeft(lookups, id)| < |lookups|
  {
    assert LookupsLeft(lookups, id).Keys == lookups.Keys - {id};
  }

  lemma OneStepFirst(st: State, e: Event, states: seq<State>, events: seq<Event>)
    requires Fits(st, e) && Follows(states, events) && states[0] == Apply(st, e)
    ensures Follows([st] + states, [e] + events)
  {
  }

  /**
   Two outstanding lookups with the same stored name, and a record of that name left: once the other
   lookups are answered, the answer of the first one starts a connection while the second is outstanding.
   */
  lemma {:induction false} ConnectsTooEarly(st: State, i: nat, j: nat) returns (states: seq<State>, events: seq<Event>)
    requires st.listed && Loose(st.srv, st.log.lookups)
    requires i in st.log.lookups && j in st.log.lookups && i != j
    requires Stored(st.log.lookups[i]) == Stored(st.log.lookups[j]) && Known(st.srv, Stored(st.log.lookups[i]))
    ensures Follows(states, events) && states[0] == st && !OnTime(states[|events|])
    decreases |st.log.lookups|
  {
    var host := Stored(st.log.lookups[i]);
    if k :| k in st.log.lookups && Stored(st.log.lookups[k]) != host {
      var e := EmptyAnswer(st, k);
      OtherAnswered(st, k, host);
      FewerLeft(st.log.lookups, k);
      hide Loose, Fits, Apply, EmptyAnswer, OnTime, Known;
      states, events := ConnectsTooEarly(Apply(st, e), i, j);
      OneStepFirst(st, e, states, events);
      states, events := [st] + states, [e] + events;
    } else {
      var e := LastAnswer(st, i);
      OnlyHost(st.srv, st.log.lookups, host);
      LastConnects(st, i, j, host);
      hide Loose, Fits, Apply, LastAnswer, OnTime, Known;
      states, events := [st, Apply(st, e)], [e];
    }
  }

  lemma OnlyHost(srv: seq<Record>, lookups: map<nat, string>, host: string)
    requires Loose(srv, lookups) && forall k :: k in lookups ==> Stored(lookups[k]) == host
    ensures forall k :: 0 <= k < |srv| ==> srv[k].host == host
  {
    forall k | 0 <= k < |srv| ensures srv[k].host == host {
      assert HasLookup(lookups, srv[k].host);
    }
  }

  // ----- the exact condition -----

  /**
   After any response, whatever happens next connects only when the last lookup was answered, if and
   only if no two lookups are for names that a record cannot tell apart.
   */
  lemma OnTimeIffUnambiguous(records: seq<Answer>, scheduled: seq<bool>)
    requires |records| < 0x10000 && |scheduled| >= |records|
    ensures var st := OnResponse(INITIAL, records, scheduled); AlwaysOnTime(st) <==> Unambiguous(st.log.lookups)
  {
    var st := OnResponse(INITIAL, records, scheduled);
    if Unambiguous(st.log.lookups) {
      ResponseKeeps(records, scheduled);
      ClearIsOnTime(st);
    } else {
      CollectKeeps(INITIAL, records, scheduled);
      PairedIsLoose(st.srv, st.log.lookups);
      var i, j :| i in st.log.lookups && j in st.log.lookups
        && Stored(st.log.lookups[i]) == Stored(st.log.lookups[j]) && i != j;
      assert HasRecord(st.srv, i, Stored(st.log.lookups[i]));
      var states, events := ConnectsTooEarly(st, i, j);
      assert Follows(states, events) && !OnTime(states[|events|]);
    }
  }

  // ----- the same condition on the response itself -----

  /**
   Every name that is looked up differs, as far as a record keeps it, from those held before it: `held`
   are the hosts of the records so far.
   */
  predicate ClearNames(records: seq<Answer>, scheduled: seq<bool>, held: set<string>)
    requires |scheduled| >= |records|
    decreases |records|
  {
    if records == [] || records[0].Broken? then true
    else if records[0].Skipped? then ClearNames(records[1..], scheduled[1..], held)
    else if records[0].host == "" then true
    else if records[0].host in held || !scheduled[0] then ClearNames(records[1..], scheduled[1..], held)
    else
      var host := Stored(records[0].host);
      host !in held && ClearNames(records[1..], scheduled[1..], held + {host})
  }

  function Hosts(srv: seq<Record>): (held: set<string>)
    ensures forall host :: host in held <==> Known(srv, host)
  {
    set i | 0 <= i < |srv| :: srv[i].host
  }

  lemma OneMoreHost(r: Record, srv: seq<Record>)
    ensures Hosts([r] + srv) == Hosts(srv) + {r.host}
  {
    var s := [r] + srv;
    assert s[0] == r && forall i :: 0 <= i < |srv| ==> s[i + 1] == srv[i];
  }

  lemma KeepsLookup(st: State, a: Answer, scheduled: bool, i: nat)
    requires Collecting(st) && a.Srv? && |st.srv| < 0xFFFF && i in st.log.lookups
    ensures var st1 := OnRecord(st, a, scheduled);
      i in st1.log.lookups && st1.log.lookups[i] == st.log.lookups[i] && |st1.srv| <= |st.srv| + 1
  {
    NewLookupIsNew(st.srv, st.log.lookups, NewRecord(st, a).id);
  }

  /** Ambiguous lookups stay so while the response is read. */
  lemma {:induction false} StaysAmbiguous(st: State, records: seq<Answer>, scheduled: seq<bool>, i: nat, j: nat)
    requires Collecting(st) && |scheduled| >= |records| && |st.srv| + |records| < 0x10000
    requires i in st.log.lookups && j in st.log.lookups && i != j
    requires Stored(st.log.lookups[i]) == Stored(st.log.lookups[j])
    ensures !Unambiguous(Collect(st, records, scheduled).0.log.lookups)
    decreases |records|
  {
    if records == [] || records[0].Broken? {
    } else if records[0].Skipped? {
      StaysAmbiguous(st, records[1..], scheduled[1..], i, j);
    } else if records[0].host != "" {
      RecordKeeps(st, records[0], scheduled[0]);
      KeepsLookup(st, records[0], scheduled[0], i);
      KeepsLookup(st, records[0], scheduled[0], j);
      hide Collecting, OnRecord, Unambiguous;
      StaysAmbiguous(OnRecord(st, records[0], scheduled[0]), records[1..], scheduled[1..], i, j);
    }
  }

  lemma HeldNameIsAmbiguous(st: State, a: Answer)
    returns (i: nat)
    requires Collecting(st) && a.Srv? && |st.srv| < 0xFFFF && !Known(st.srv, a.host) && Known(st.srv, Stored(a.host))
    ensures var st1, j := OnRecord(st, a, true), NewRecord(st, a).id;
      && i in st1.log.lookups && j in st1.log.lookups && i != j
      && Stored(st1.log.lookups[i]) == Stored(st1.log.lookups[j])
  {
    KnownHasLookup(st.srv, st.log.lookups, Stored(a.host));
    NewLookupIsNew(st.srv, st.log.lookups, NewRecord(st, a).id);
    i :| i in st.log.lookups && Stored(st.log.lookups[i]) == Stored(a.host);
  }

  /** A record whose host is told apart from those held: no new ambiguity, and its host is held from now on. */
  lemma ClearRecord(st: State, a: Answer, scheduled: bool)
    requires Collecting(st) && Unambiguous(st.log.lookups) && a.Srv? && |st.srv| < 0xFFFF
    requires Known(st.srv, a.host) || !scheduled || !Known(st.srv, Stored(a.host))
    ensures var st1 := OnRecord(st, a, scheduled);
      && Collecting(st1) && Unambiguous(st1.log.lookups) && |st1.srv| <= |st.srv| + 1
      && Hosts(st1.srv) == if Known(st.srv, a.host) || !scheduled then Hosts(st.srv)
        else Hosts(st.srv) + {Stored(a.host)}
  {
    RecordKeeps(st, a, scheduled);
    OneMoreHost(NewRecord(st, a), st.srv);
    if Known(st.srv, a.host) {
      KnownIsStored(st.srv, st.log.lookups, a.host);
    } else if scheduled {
      NewNameIsClear(st.srv, st.log.lookups, NewRecord(st, a).id, a.host);
    }
  }

  lemma {:induction false} ClearNamesIff(st: State, records: seq<Answer>, scheduled: seq<bool>)
    requires Collecting(st) && Unambiguous(st.log.lookups)
    requires |scheduled| >= |records| && |st.srv| + |records| < 0x10000
    ensures Unambiguous(Collect(st, records, scheduled).0.log.lookups) <==>
      ClearNames(records, scheduled, Hosts(st.srv))
    decreases |records|
  {
    hide Collecting, Unambiguous, Known, OnRecord;
    if records == [] || records[0].Broken? {
    } else if records[0].Skipped? {
      ClearNamesIff(st, records[1..], scheduled[1..]);
    } else if records[0].host != "" {
      var a, st1 := records[0], OnRecord(st, records[0], scheduled[0]);
      if Known(st.srv, a.host) || !scheduled[0] || !Known(st.srv, Stored(a.host)) {
        ClearRecord(st, a, scheduled[0]);
        ClearNamesIff(st1, records[1..], scheduled[1..]);
      } else {
        var i := HeldNameIsAmbiguous(st, a);
        StaysAmbiguousFrom(st, a, records[1..], scheduled[1..], i, NewRecord(st, a).id);
      }
    }
  }

  lemma StaysAmbiguousFrom(st: State, a: Answer, records: seq<Answer>, scheduled: seq<bool>, i: nat, j: nat)
    requires Collecting(st) && a.Srv? && |scheduled| >= |records| && |st.srv| + |records| + 1 < 0x10000
    requires var lookups := OnRecord(st, a, true).log.lookups;
      i in lookups && j in lookups && i != j && Stored(lookups[i]) == Stored(lookups[j])
    ensures !Unambiguous(Collect(OnRecord(st, a, true), records, scheduled).0.log.lookups)
  {
    RecordKeeps(st, a, true);
    StaysAmbiguous(OnRecord(st, a, true), records, scheduled, i, j);
    hide Collecting, Unambiguous;
  }

  /**
   Connecting waits for the last answer, however the run goes on, if and only if each name that is
   looked up for the response differs in its first 63 bytes from the hosts of the records before it.
   */
  lemma OnTimeIffClearNames(records: seq<Answer>, scheduled: seq<bool>)
    requires |records| < 0x10000 && |scheduled| >= |records|
    ensures AlwaysOnTime(OnResponse(INITIAL, records, scheduled)) <==> ClearNames(records, scheduled, {})
  {
    OnTimeIffUnambiguous(records, scheduled);
    assert Hosts(INITIAL.srv) == {};
    ClearNamesIff(INITIAL, records, scheduled);
    hide AlwaysOnTime, Collect, ClearNames;
  }

  /** Names of up to 63 bytes are always told apart. */
  lemma ShortNamesAreOnTime(records: seq<Answer>, scheduled: seq<bool>)
    requires |records| < 0x10000 && |scheduled| >= |records| && ShortNames(records)
    ensures AlwaysOnTime(OnResponse(INITIAL, records, scheduled))
  {
    ShortNamesAreClear(INITIAL, records, scheduled);
    OnTimeIffUnambiguous(records, scheduled);
  }

  /**
   A host name of 64 bytes or more is cut in the record, so it is looked up once for each of its
   records, and the first answer takes all of them: connecting starts with a lookup outstanding.
   */
  lemma LongNameConnectsEarly(host: string, addr: nat) returns (states: seq<State>, events: seq<Event>)
    requires |host| >= 64
    ensures IsRun(states, events)
    ensures var st := states[|events|]; st.log.waiting && st.log.lookups != map[]
  {
    var a := Srv(1, 1, 80, host);
    var e0, st := LongNameLooksUpTwice(host);
    var e1 := Resolved(1, [addr], [], [0, 0], [Scheduled, Scheduled]);
    OneAnswerTakesBoth(st, host[..63], addr);
    assert 1 in st.log.lookups && 2 in st.log.lookups;
    events := [e0, e1];
    states := [INITIAL, st, Apply(st, e1)];
    assert 2 in states[2].log.lookups;
  }

  lemma LongNameLooksUpTwice(host: string) returns (e: Event, st: State)
    requires |host| >= 64
    ensures Fits(INITIAL, e) && st == Apply(INITIAL, e)
    ensures st.srv == [Record(2, 1, 1, 80, host[..63]), Record(1, 1, 1, 80, host[..63])] && st.ina == [] && st.listed
    ensures st.log.lookups == map[1 := host, 2 := host] && st.log.responded
  {
    var a := Srv(1, 1, 80, host);
    e := Response([a, a], [true, true]);
    var s1 := OnRecord(INITIAL, a, true);
    assert s1.srv == [Record(1, 1, 1, 80, host[..63])];
    var s2 := OnRecord(s1, a, true);
    assert s2.srv == [Record(2, 1, 1, 80, host[..63])] + s1.srv;
    assert e.records[1..] == [a] && e.scheduled[1..] == [true];
    assert Collect(s1, [a], [true]) == Collect(s2, [], []);
    assert Collect(INITIAL, e.records, e.scheduled) == (s2, false);
    st := Apply(INITIAL, e);
  }

  lemma OneAnswerTakesBoth(st: State, cut: string, addr: nat)
    requires st.srv == [Record(2, 1, 1, 80, cut), Record(1, 1, 1, 80, cut)] && st.ina == [] && st.listed
    ensures var t := Target(1, 1, 80, addr);
      FindId(st.srv, 1) == 1 && BeforeSort(st, 1, [addr], []).srv == [] && BeforeSort(st, 1, [addr], []).ina == [t, t]
  {
    var t := Target(1, 1, 80, addr);
    var r2, r1 := st.srv[0], st.srv[1];
    assert st.srv[1..] == [r1];
    assert FindId([r1], 1) == 0;
    assert AddAll([], r2, [addr], [], 0) == [t] by {
      assert AddAll(Insert([], t), r2, [], [], 1) == [t];
      assert [addr][1..] == [];
    }
    assert AddAll([t], r1, [addr], [], 1) == [t, t] by {
      assert Insert([t], t) == [t, t];
      assert [addr][1..] == [];
    }
    assert [r1][1..] == [];
    assert Distribute([r1], cut, [addr], [], 1, [], [t]) == Distribute([], cut, [addr], [], 2, [], [t, t]);
    assert Distribute(st.srv, cut, [addr], [], 0, [], []) == Distribute([r1], cut, [addr], [], 1, [], [t]);
  }
}
