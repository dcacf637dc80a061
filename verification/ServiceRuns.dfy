/**
 Safety and completeness of a service resolution over every run: what each event keeps, and what
 that says about any state a run reaches.
 */
module ServiceRuns {
  import opened WeightedOrder
  import opened ServiceMachine
  import opened Fanout

  // ----- records and lookups -----

  ghost predicate DistinctIds(s: seq<Record>) {
    forall i, j :: 0 <= i < j < |s| ==> s[i].id != s[j].id
  }

  ghost predicate HasRecord(srv: seq<Record>, id: nat, host: string) {
    exists k :: 0 <= k < |srv| && srv[k].id == id && srv[k].host == host
  }

  ghost predicate HasLookup(lookups: map<nat, string>, host: string) {
    exists i :: i in lookups && Stored(lookups[i]) == host
  }

  /** Record ids are distinct, every lookup has its record, and every record's host has a lookup. */
  ghost predicate Paired(srv: seq<Record>, lookups: map<nat, string>) {
    && DistinctIds(srv)
    && (forall i :: i in lookups ==> HasRecord(srv, i, Stored(lookups[i])))
    && (forall k :: 0 <= k < |srv| ==> HasLookup(lookups, srv[k].host))
  }

  /** There is exactly one outstanding lookup for each distinct host in the list. */
  ghost predicate Matched(srv: seq<Record>, lookups: map<nat, string>) {
    Paired(srv, lookups) && Unambiguous(lookups)
  }

  /** While the response is read, a record's id is its distance from the end of the list. */
  ghost predicate Numbered(srv: seq<Record>) {
    forall k :: 0 <= k < |srv| ==> srv[k].id == |srv| - k
  }

  ghost predicate Collecting(st: State) {
    && st == State(st.srv, [], true, EMPTY_LOG.(lookups := st.log.lookups, accepted := st.log.accepted))
    && multiset(st.srv) == multiset(st.log.accepted)
    && Numbered(st.srv)
    && Paired(st.srv, st.log.lookups)
  }

  lemma RecordsStay(srv: seq<Record>, lookups: map<nat, string>, r: Record)
    requires forall i :: i in lookups ==> HasRecord(srv, i, Stored(lookups[i]))
    ensures forall i :: i in lookups ==> HasRecord([r] + srv, i, Stored(lookups[i]))
  {
    forall i | i in lookups ensures HasRecord([r] + srv, i, Stored(lookups[i])) {
      var k :| 0 <= k < |srv| && srv[k].id == i && srv[k].host == Stored(lookups[i]);
      assert ([r] + srv)[k + 1] == srv[k];
    }
  }

  lemma AcceptKeeps(srv: seq<Record>, lookups: map<nat, string>, r: Record)
    requires Numbered(srv) && Paired(srv, lookups)
    requires r.id == |srv| + 1 && HasLookup(lookups, r.host)
    ensures Paired([r] + srv, lookups)
  {
    RecordsStay(srv, lookups, r);
    NewIdIsDistinct(srv, r);
    hide HasRecord, HasLookup, DistinctIds;
  }

  lemma NewIdIsDistinct(srv: seq<Record>, r: Record)
    requires Numbered(srv) && DistinctIds(srv) && r.id == |srv| + 1
    ensures DistinctIds([r] + srv)
  {
  }

  lemma NewLookupIsNew(srv: seq<Record>, lookups: map<nat, string>, id: nat)
    requires Numbered(srv) && Paired(srv, lookups)
    requires id == |srv| + 1
    ensures id !in lookups
  {
    assert id in lookups ==> HasRecord(srv, id, Stored(lookups[id]));
  }

  lemma LookupsStay(lookups: map<nat, string>, id: nat, name: string, host: string)
    requires id !in lookups
    requires HasLookup(lookups, host)
    ensures HasLookup(lookups[id := name], host)
  {
    var i :| i in lookups && Stored(lookups[i]) == host;
    assert i in lookups[id := name];
  }

  lemma ScheduleKeeps(srv: seq<Record>, lookups: map<nat, string>, r: Record, name: string)
    requires Numbered(srv) && Paired(srv, lookups)
    requires r.id == |srv| + 1 && r.host == Stored(name)
    ensures Paired([r] + srv, lookups[r.id := name])
  {
    var s, l := [r] + srv, lookups[r.id := name];
    NewIdIsDistinct(srv, r);
    NewLookupIsNew(srv, lookups, r.id);
    RecordsStay(srv, lookups, r);
    assert s[0] == r && HasRecord(s, r.id, r.host);
    assert r.id in l && HasLookup(l, r.host);
    hide HasRecord, HasLookup, DistinctIds;
    forall k | 0 <= k < |s| ensures HasLookup(l, s[k].host) {
      if k > 0 {
        LookupsStay(lookups, r.id, name, srv[k - 1].host);
      }
    }
  }

  lemma AcceptCollects(st: State, lookups: map<nat, string>, r: Record)
    requires Collecting(st)
    requires r.id == |st.srv| + 1 && Paired([r] + st.srv, lookups)
    ensures Collecting(Accept(st.(log := st.log.(lookups := lookups)), r))
  {
    hide Paired;
  }

  lemma KnownHasLookup(srv: seq<Record>, lookups: map<nat, string>, host: string)
    requires Paired(srv, lookups) && Known(srv, host)
    ensures HasLookup(lookups, host)
  {
    var k :| 0 <= k < |srv| && srv[k].host == host;
    assert HasLookup(lookups, srv[k].host);
  }

  /** A host that a record holds is its own stored form. */
  lemma KnownIsStored(srv: seq<Record>, lookups: map<nat, string>, host: string)
    requires Paired(srv, lookups) && Known(srv, host)
    ensures Stored(host) == host
  {
    KnownHasLookup(srv, lookups, host);
  }

  /** One SRV record keeps everything that holds while the response is read. */
  lemma RecordKeeps(st: State, a: Answer, scheduled: bool)
    requires Collecting(st) && a.Srv?
    requires |st.srv| < 0xFFFF
    ensures Collecting(OnRecord(st, a, scheduled))
  {
    var r := NewRecord(st, a);
    if Known(st.srv, a.host) {
      KnownHasLookup(st.srv, st.log.lookups, a.host);
      KnownIsStored(st.srv, st.log.lookups, a.host);
      AcceptKeeps(st.srv, st.log.lookups, r);
      AcceptCollects(st, st.log.lookups, r);
      assert st.(log := st.log.(lookups := st.log.lookups)) == st;
    } else if scheduled {
      ScheduleKeeps(st.srv, st.log.lookups, r, a.host);
      AcceptCollects(st, st.log.lookups[r.id := a.host], r);
    }
  }

  lemma {:induction false} CollectKeeps(st: State, records: seq<Answer>, scheduled: seq<bool>)
    requires Collecting(st)
    requires |scheduled| >= |records|
    requires |st.srv| + |records| < 0x10000
    ensures Collecting(Collect(st, records, scheduled).0)
    decreases |records|
  {
    if records == [] || records[0].Broken? {
    } else if records[0].Skipped? {
      CollectKeeps(st, records[1..], scheduled[1..]);
    } else if records[0].host != "" {
      RecordKeeps(st, records[0], scheduled[0]);
      CollectKeeps(OnRecord(st, records[0], scheduled[0]), records[1..], scheduled[1..]);
    }
  }

  /** A new lookup for a name that no record holds leaves the lookups unambiguous. */
  lemma NewNameIsClear(srv: seq<Record>, lookups: map<nat, string>, id: nat, name: string)
    requires Paired(srv, lookups) && Unambiguous(lookups) && !Known(srv, Stored(name))
    ensures Unambiguous(lookups[id := name])
  {
    forall i | i in lookups ensures Stored(lookups[i]) != Stored(name) {
      assert HasRecord(srv, i, Stored(lookups[i]));
    }
  }

  /** Names that fit never leave the lookups ambiguous. */
  lemma {:induction false} ShortNamesAreClear(st: State, records: seq<Answer>, scheduled: seq<bool>)
    requires Collecting(st) && Unambiguous(st.log.lookups)
    requires |scheduled| >= |records| && |st.srv| + |records| < 0x10000 && ShortNames(records)
    ensures Unambiguous(Collect(st, records, scheduled).0.log.lookups)
    decreases |records|
  {
    if records == [] || records[0].Broken? {
    } else if records[0].Skipped? {
      ShortNamesAreClear(st, records[1..], scheduled[1..]);
    } else if records[0].host != "" {
      var a := records[0];
      RecordKeeps(st, a, scheduled[0]);
      if !Known(st.srv, a.host) {
        NewNameIsClear(st.srv, st.log.lookups, NewRecord(st, a).id, a.host);
      }
      ShortNamesAreClear(OnRecord(st, a, scheduled[0]), records[1..], scheduled[1..]);
    }
  }

  // ----- an answer -----

  lemma {:induction false} OpenMembers(s: seq<Record>, answers: map<string, seq<nat>>)
    ensures forall r :: r in Open(s, answers) <==> r in s && r.host !in answers
  {
    if s != [] {
      OpenMembers(s[1..], answers);
      assert s == [s[0]] + s[1..];
    }
  }

  ghost predicate IdsApart(s: seq<Record>, t: seq<Record>) {
    forall i, j :: 0 <= i < |s| && 0 <= j < |t| ==> s[i].id != t[j].id
  }

  lemma {:induction false} DistributeKeepsIds(srv: seq<Record>, host: string, addrs: seq<nat>, grants: seq<bool>,
      n: nat, kept: seq<Record>, ina: seq<Target>)
    requires DistinctIds(srv) && DistinctIds(kept) && IdsApart(srv, kept)
    ensures DistinctIds(Distribute(srv, host, addrs, grants, n, kept, ina).0)
    decreases |srv|
  {
    if srv != [] {
      if srv[0].host != host {
        DistributeKeepsIds(srv[1..], host, addrs, grants, n, [srv[0]] + kept, ina);
      } else {
        var more := AddAll(ina, srv[0], addrs, grants, n);
        DistributeKeepsIds(srv[1..], host, addrs, grants, n + |addrs|, kept, more);
      }
    }
  }

  /** Exactly the records of other hosts survive. */
  lemma Survivors(srv: seq<Record>, host: string, addrs: seq<nat>, grants: seq<bool>, ina: seq<Target>)
    ensures forall r :: r in Distribute(srv, host, addrs, grants, 0, [], ina).0 <==> r in srv && r.host != host
  {
    var kept := Distribute(srv, host, addrs, grants, 0, [], ina).0;
    DistributeKeepsOthers(srv, host, addrs, grants, 0, [], ina);
    OpenMembers(srv, map[host := addrs]);
    forall r ensures r in kept <==> r in Open(srv, map[host := addrs]) {
      assert r in kept <==> r in multiset(kept);
    }
  }

  /** The lookup that is answered names a record, and the answer serves its host. */
  lemma AnswerFindsRecord(srv: seq<Record>, lookups: map<nat, string>, id: nat)
    requires Matched(srv, lookups) && id in lookups
    ensures FindId(srv, id) < |srv| && srv[FindId(srv, id)].host == Stored(lookups[id])
  {
    var k :| 0 <= k < |srv| && srv[k].id == id && srv[k].host == Stored(lookups[id]);
    var f := FindId(srv, id);
    assert f <= k;
  }

  /** After an answer the lookups left are exactly those of the hosts left. */
  lemma AnswerKeepsMatch(srv: seq<Record>, lookups: map<nat, string>, id: nat, addrs: seq<nat>, grants: seq<bool>,
      ina: seq<Target>)
    requires Matched(srv, lookups) && id in lookups
    ensures Matched(Distribute(srv, Stored(lookups[id]), addrs, grants, 0, [], ina).0, LookupsLeft(lookups, id))
  {
    var host := Stored(lookups[id]);
    var kept := Distribute(srv, host, addrs, grants, 0, [], ina).0;
    var left := LookupsLeft(lookups, id);
    DistributeKeepsIds(srv, host, addrs, grants, 0, [], ina);
    Survivors(srv, host, addrs, grants, ina);
    forall i | i in left ensures HasRecord(kept, i, Stored(left[i])) {
      var k :| 0 <= k < |srv| && srv[k].id == i && srv[k].host == Stored(lookups[i]);
      assert srv[k] in kept;
    }
    HostsKeepLookups(srv, lookups, id, kept);
  }

  /** The records of other hosts keep their lookups. */
  lemma HostsKeepLookups(srv: seq<Record>, lookups: map<nat, string>, id: nat, kept: seq<Record>)
    requires forall k :: 0 <= k < |srv| ==> HasLookup(lookups, srv[k].host)
    requires id in lookups && forall r :: r in kept <==> r in srv && r.host != Stored(lookups[id])
    ensures forall k :: 0 <= k < |kept| ==> HasLookup(LookupsLeft(lookups, id), kept[k].host)
  {
    var left := LookupsLeft(lookups, id);
    forall k | 0 <= k < |kept| ensures HasLookup(left, kept[k].host) {
      assert kept[k] in kept;
      var m :| 0 <= m < |srv| && srv[m] == kept[k];
      assert HasLookup(lookups, srv[m].host);
      var i :| i in lookups && Stored(lookups[i]) == srv[m].host;
      assert i in left;
    }
  }

  // ----- the phases of a run -----

  function Targets(c: seq<Consultation>): (s: seq<Target>)
    ensures |s| == |c|
  {
    seq(|c|, i requires 0 <= i < |c| => c[i].target)
  }

  /** The consulted addresses that passed the filter. */
  function Passing(c: seq<Consultation>): seq<Target> {
    if c == [] then []
    else Passing(c[..|c| - 1]) + (if c[|c| - 1].verdict.FilteredOut? then [] else [c[|c| - 1].target])
  }

  /**
   The list the sort left, with what was dropped for want of memory, is exactly the pairings of
   accepted records with answers, by priority; addresses are consulted once each in that order, and
   only those passing the filter are attempted.
   */
  ghost predicate Ordered(log: Log) {
    && multiset(log.order) + log.dropped == Pairings(log.accepted, log.answers)
    && ByPriority(log.order)
    && |log.consulted| <= |log.order|
    && Targets(log.consulted) == log.order[..|log.consulted|]
    && log.attempted == Passing(log.consulted)
    && (forall r :: r in log.accepted ==> r.host in log.answers)
  }

  /** Lookups are outstanding for exactly the hosts still in the list; nothing was consulted or reported. */
  ghost predicate Resolving(st: State) {
    && st.log == EMPTY_LOG.(lookups := st.log.lookups, accepted := st.log.accepted, answers := st.log.answers,
      dropped := st.log.dropped, responded := true)
    && st.listed && st.srv != []
    && Matched(st.srv, st.log.lookups)
    && multiset(st.srv) == multiset(Open(st.log.accepted, st.log.answers))
    && multiset(st.ina) + st.log.dropped == Pairings(st.log.accepted, st.log.answers)
    && ByPriority(st.ina)
  }

  /** No lookup is outstanding, and what is left of the sorted list is what was not consulted. */
  ghost predicate AtCursor(st: State) {
    && st.log.responded && st.listed && st.srv == [] && st.log.lookups == map[] && st.log.reports == []
    && Ordered(st.log)
    && st.ina == st.log.order[|st.log.consulted|..]
  }

  ghost predicate Connecting(st: State) {
    AtCursor(st) && st.log.waiting != st.log.stalled
  }

  /** The user has been told once. */
  ghost predicate Done(st: State) {
    && st.log.responded && !st.listed && st.srv == [] && st.log.lookups == map[]
    && !st.log.waiting && !st.log.stalled
    && Ordered(st.log)
    && |st.log.reports| == 1
    && (st.log.reports[0] != Connected ==> |st.log.consulted| == |st.log.order|)
    && (st.log.reports[0] == NotFound ==> st.log.accepted == [])
  }

  ghost predicate Good(st: State) {
    st == INITIAL || Resolving(st) || Connecting(st) || Done(st)
  }

  // ----- each event keeps the phases -----

  lemma ResponseKeeps(records: seq<Answer>, scheduled: seq<bool>)
    requires |records| < 0x10000 && |scheduled| >= |records|
    requires Unambiguous(OnResponse(INITIAL, records, scheduled).log.lookups)
    ensures Resolving(OnResponse(INITIAL, records, scheduled)) || Done(OnResponse(INITIAL, records, scheduled))
  {
    CollectKeeps(INITIAL, records, scheduled);
    var st := Collect(INITIAL, records, scheduled).0;
    AllOpen(st.log.accepted);
    if st.srv == [] {
      assert |multiset(st.log.accepted)| == |st.log.accepted|;
      NoLookups(st.log.lookups);
    }
  }

  lemma NoLookups(lookups: map<nat, string>)
    requires Matched([], lookups)
    ensures lookups == map[]
  {
    assert forall i :: i in lookups ==> HasRecord([], i, lookups[i]);
    assert lookups.Keys == {};
  }

  lemma ConsultKeeps(st: State, v: Verdict)
    requires AtCursor(st) && st.ina != []
    ensures AtCursor(if v.FilteredOut? then Consult(st, v) else Attempt(Consult(st, v), st.ina[0]))
  {
    var c := st.log.consulted + [Consultation(st.ina[0], v)];
    assert c[..|c| - 1] == st.log.consulted;
    assert Targets(c) == st.log.order[..|c|];
  }

  /** Failover: either an attempt is scheduled, or everything was consulted and one report says so. */
  lemma {:induction false} TryNextKeeps(st: State, verdicts: seq<Verdict>)
    requires AtCursor(st) && !st.log.waiting && !st.log.stalled
    requires |verdicts| >= |st.ina|
    ensures var r := TryNext(st, verdicts);
      (Connecting(r) && r.log.waiting) || (Done(r) && r.log.reports == [Unavailable])
    decreases |st.ina|
  {
    if st.ina != [] {
      var v := verdicts[0];
      ConsultKeeps(st, v);
      match v
      case FilteredOut => TryNextKeeps(Consult(st, v), verdicts[1..]);
      case Refused => TryNextKeeps(Attempt(Consult(st, v), st.ina[0]), verdicts[1..]);
      case Scheduled =>
    }
  }

  /** An answer leaves the other records, adds exactly the pairings of this host, and conserves the rest. */
  lemma AnswerKeeps(st: State, id: nat, addrs: seq<nat>, grants: seq<bool>)
    requires Resolving(st) && id in st.log.lookups
    ensures var r := BeforeSort(st, id, addrs, grants);
      && r.log.answers == st.log.answers[Stored(st.log.lookups[id]) := addrs]
      && r.log == st.log.(lookups := r.log.lookups, answers := r.log.answers, dropped := r.log.dropped) && r.listed
      && Matched(r.srv, r.log.lookups)
      && multiset(r.srv) == multiset(Open(r.log.accepted, r.log.answers))
      && multiset(r.ina) + r.log.dropped == Pairings(r.log.accepted, r.log.answers)
      && ByPriority(r.ina)
  {
    var host, log := Stored(st.log.lookups[id]), st.log;
    AnswerFindsRecord(st.srv, log.lookups, id);
    AnswerKeepsMatch(st.srv, log.lookups, id, addrs, grants, st.ina);
    HostUnanswered(st, FindId(st.srv, id));
    FanConserves(st.srv, st.ina, log, host, addrs, grants);
  }

  /** One answer moves the pairings of its host, and nothing else, from the records to the addresses. */
  lemma FanConserves(srv: seq<Record>, ina: seq<Target>, log: Log, host: string, addrs: seq<nat>, grants: seq<bool>)
    requires host !in log.answers
    requires multiset(srv) == multiset(Open(log.accepted, log.answers))
    requires multiset(ina) + log.dropped == Pairings(log.accepted, log.answers) && ByPriority(ina)
    ensures var (kept, ina') := Distribute(srv, host, addrs, grants, 0, [], ina);
      && multiset(kept) == multiset(Open(log.accepted, log.answers[host := addrs]))
      && multiset(ina') + (log.dropped + DeniedAll(srv, host, addrs, grants, 0)) ==
        Pairings(log.accepted, log.answers[host := addrs])
      && ByPriority(ina')
  {
    var open := Open(log.accepted, log.answers);
    DistributeKeepsOthers(srv, host, addrs, grants, 0, [], ina);
    DistributeAddsPairings(srv, host, addrs, grants, 0, [], ina);
    OneMoreAnswer(log.accepted, log.answers, host, addrs);
    SumsOfPermutation(srv, open, map[host := addrs]);
    OpenIsBag(srv, map[host := addrs]);
    OpenIsBag(open, map[host := addrs]);
    hide *;
    var served := Pairings(open, map[host := addrs]);
    AddUp(multiset(Distribute(srv, host, addrs, grants, 0, [], ina).1), DeniedAll(srv, host, addrs, grants, 0),
      multiset(ina), served, log.dropped, multiset{}, Pairings(log.accepted, log.answers));
  }

  lemma HostUnanswered(st: State, k: nat)
    requires k < |st.srv| && multiset(st.srv) == multiset(Open(st.log.accepted, st.log.answers))
    ensures st.srv[k].host !in st.log.answers
  {
    assert st.srv[k] in multiset(st.srv);
    OpenMembers(st.log.accepted, st.log.answers);
  }

  /** The last answer: every accepted record has one, and the sort may start. */
  lemma SortedKeeps(st: State, draws: seq<nat>)
    requires st.log == EMPTY_LOG.(lookups := st.log.lookups, accepted := st.log.accepted, answers := st.log.answers,
      dropped := st.log.dropped, responded := true)
    requires st.listed && st.srv == [] && Matched(st.srv, st.log.lookups)
    requires multiset(st.srv) == multiset(Open(st.log.accepted, st.log.answers))
    requires multiset(st.ina) + st.log.dropped == Pairings(st.log.accepted, st.log.answers) && ByPriority(st.ina)
    requires |draws| >= |st.ina|
    ensures AtCursor(Sorted(st, draws))
  {
    OrderIsPermutation(st.ina, draws);
    OrderKeepsPriority(st.ina, draws);
    NoLookups(st.log.lookups);
    OpenMembers(st.log.accepted, st.log.answers);
    forall r | r in st.log.accepted ensures r.host in st.log.answers {
      assert r !in multiset(Open(st.log.accepted, st.log.answers));
    }
  }

  lemma ResolvedKeeps(st: State, e: Event)
    requires Resolving(st) && e.Resolved? && Fits(st, e)
    ensures var r := Apply(st, e); Resolving(r) || Connecting(r) || Done(r)
  {
    AnswerKeeps(st, e.id, e.addrs, e.grants);
    AnswerFindsRecord(st.srv, st.log.lookups, e.id);
    var r := BeforeSort(st, e.id, e.addrs, e.grants);
    if r.srv == [] {
      SortedKeeps(r, e.draws);
      TryNextKeeps(Sorted(r, e.draws), e.verdicts);
    }
  }

  lemma ConnectKeeps(st: State, e: Event)
    requires Connecting(st) && Fits(st, e) && !e.Response?
    ensures Connecting(Apply(st, e)) || Done(Apply(st, e))
  {
    match e
    case ConnectFailed(verdicts) => TryNextKeeps(Quiet(st), verdicts);
    case _ =>
  }

  /** What follows the response. */
  lemma LaterStepKeeps(st: State, e: Event)
    requires Good(st) && st.log.responded && Fits(st, e)
    ensures Good(Apply(st, e)) && Apply(st, e).log.responded
  {
    if Resolving(st) && e.Resolved? {
      ResolvedKeeps(st, e);
    } else if Connecting(st) {
      ConnectKeeps(st, e);
    }
  }

  lemma StepKeeps(st: State, e: Event)
    requires Good(st) && Fits(st, e) && (e.Response? ==> Unambiguous(Apply(st, e).log.lookups))
    ensures Good(Apply(st, e))
  {
    if e.Response? {
      ResponseKeeps(e.records, e.scheduled);
    } else if st.log.responded {
      LaterStepKeeps(st, e);
    }
  }

  /** After its response a run looks up no two names that a record cannot tell apart. */
  ghost predicate ClearFrom(states: seq<State>, events: seq<Event>) {
    Follows(states, events) && forall i :: 0 <= i < |events| && events[i].Response? ==>
      Unambiguous(states[i + 1].log.lookups)
  }

  /** Every state that such a run goes on to is in one of the phases. */
  lemma {:induction false} StaysGood(states: seq<State>, events: seq<Event>, n: nat)
    requires ClearFrom(states, events) && Good(states[0]) && n < |states|
    ensures Good(states[n])
  {
    if n > 0 {
      StaysGood(states, events, n - 1);
      StepKeeps(states[n - 1], events[n - 1]);
    }
  }
}
