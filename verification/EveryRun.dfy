/**
 What holds in every run of a service resolution, whatever the host names: the request is resolving,
 connecting or done.
 */
module EveryRun {
  import opened WeightedOrder
  import opened ServiceMachine
  import opened Fanout
  import opened ServiceRuns

  // ----- lookups that records may not be able to tell apart -----

  /**
   Hosts in the list have lookups; a lookup whose host is in the list has its own record there; and a
   record with the id of a lookup has its host.
   */
  ghost predicate Loose(srv: seq<Record>, lookups: map<nat, string>) {
    && DistinctIds(srv)
    && (forall k :: 0 <= k < |srv| ==> HasLookup(lookups, srv[k].host))
    && (forall i :: i in lookups && Known(srv, Stored(lookups[i])) ==> HasRecord(srv, i, Stored(lookups[i])))
    && (forall k :: 0 <= k < |srv| && srv[k].id in lookups ==> srv[k].host == Stored(lookups[srv[k].id]))
  }

  lemma PairedIsLoose(srv: seq<Record>, lookups: map<nat, string>)
    requires Paired(srv, lookups)
    ensures Loose(srv, lookups)
  {
    forall k | 0 <= k < |srv| && srv[k].id in lookups ensures srv[k].host == Stored(lookups[srv[k].id]) {
      assert HasRecord(srv, srv[k].id, Stored(lookups[srv[k].id]));
    }
  }

  /** What an answer finds: a record of its host, or none of that host is left. */
  lemma FindsHostOrNone(srv: seq<Record>, lookups: map<nat, string>, id: nat)
    requires Loose(srv, lookups) && id in lookups
    ensures var k := FindId(srv, id);
      if k < |srv| then srv[k].host == Stored(lookups[id]) else !Known(srv, Stored(lookups[id]))
  {
    var k := FindId(srv, id);
    if Known(srv, Stored(lookups[id])) {
      assert HasRecord(srv, id, Stored(lookups[id]));
    }
  }

  lemma LooseWithout(srv: seq<Record>, lookups: map<nat, string>, id: nat, kept: seq<Record>)
    requires Loose(srv, lookups) && id in lookups && DistinctIds(kept)
    requires forall r :: r in kept <==> r in srv && r.host != Stored(lookups[id])
    ensures Loose(kept, LookupsLeft(lookups, id))
  {
    var left := LookupsLeft(lookups, id);
    HostsKeepLookups(srv, lookups, id, kept);
    forall i | i in left && Known(kept, Stored(left[i])) ensures HasRecord(kept, i, Stored(left[i])) {
      var m :| 0 <= m < |kept| && kept[m].host == Stored(left[i]);
      assert kept[m] in kept;
      var n :| 0 <= n < |srv| && srv[n] == kept[m];
      assert HasRecord(srv, i, Stored(lookups[i]));
      var k :| 0 <= k < |srv| && srv[k].id == i && srv[k].host == Stored(lookups[i]);
      assert srv[k] in kept;
    }
    forall k | 0 <= k < |kept| && kept[k].id in left ensures kept[k].host == Stored(left[kept[k].id]) {
      assert kept[k] in kept;
    }
  }

  /** The records an answer leaves are those of the other hosts. */
  lemma OthersSurvive(st: State, id: nat, addrs: seq<nat>, grants: seq<bool>)
    requires st.listed && Loose(st.srv, st.log.lookups) && id in st.log.lookups
    ensures var r := BeforeSort(st, id, addrs, grants);
      && DistinctIds(r.srv) && forall q :: q in r.srv <==> q in st.srv && q.host != Stored(st.log.lookups[id])
  {
    var gone := Stored(st.log.lookups[id]);
    FindsHostOrNone(st.srv, st.log.lookups, id);
    if FindId(st.srv, id) < |st.srv| {
      Survivors(st.srv, gone, addrs, grants, st.ina);
      DistributeKeepsIds(st.srv, gone, addrs, grants, 0, [], st.ina);
    } else {
      forall q | q in st.srv ensures q.host != gone {
        var m :| 0 <= m < |st.srv| && st.srv[m] == q;
      }
    }
  }

  lemma AnswerKeepsLoose(st: State, id: nat, addrs: seq<nat>, grants: seq<bool>)
    requires st.listed && Loose(st.srv, st.log.lookups) && id in st.log.lookups
    ensures var r := BeforeSort(st, id, addrs, grants);
      && r.listed && Loose(r.srv, r.log.lookups)
      && r.log == st.log.(lookups := LookupsLeft(st.log.lookups, id), answers := r.log.answers,
        dropped := r.log.dropped)
  {
    OthersSurvive(st, id, addrs, grants);
    LooseWithout(st.srv, st.log.lookups, id, BeforeSort(st, id, addrs, grants).srv);
    hide Loose, Distribute, DeniedAll;
  }

  // ----- the phases -----

  /** Records wait for answers; nothing was consulted or reported. */
  ghost predicate Awaiting(st: State) {
    && st.log.responded && st.listed && st.srv != [] && Loose(st.srv, st.log.lookups)
    && st.log.consulted == [] && st.log.attempted == [] && st.log.reports == []
    && !st.log.waiting && !st.log.stalled
  }

  /** The records are gone; the list in order is what was consulted and what is left. */
  ghost predicate Underway(st: State) {
    && st.log.responded && st.listed && st.srv == [] && st.log.reports == []
    && Targets(st.log.consulted) + st.ina == st.log.order && st.log.attempted == Passing(st.log.consulted)
  }

  ghost predicate Trying(st: State) {
    Underway(st) && st.log.waiting != st.log.stalled
  }

  /** The user has been told once, and of a failure only when nothing was left to try. */
  ghost predicate Told(st: State) {
    && st.log.responded && !st.listed && |st.log.reports| == 1 && !st.log.waiting && !st.log.stalled
    && st.log.attempted == Passing(st.log.consulted)
    && (st.log.reports[0] != Connected ==> Targets(st.log.consulted) == st.log.order)
    && (st.log.reports[0] == NotFound ==> st.log.accepted == [])
  }

  ghost predicate Staged(st: State) {
    st == INITIAL || Awaiting(st) || Trying(st) || Told(st)
  }

  // ----- each event keeps them -----

  lemma RespondedStage(records: seq<Answer>, scheduled: seq<bool>)
    requires |records| < 0x10000 && |scheduled| >= |records|
    ensures var r := OnResponse(INITIAL, records, scheduled);
      && r.log.consulted == [] && !r.log.waiting && !r.log.stalled
      && ((Awaiting(r) && r.log.order == []) || (Told(r) && r.log.reports[0] != Connected))
  {
    CollectKeeps(INITIAL, records, scheduled);
    var st := Collect(INITIAL, records, scheduled).0;
    PairedIsLoose(st.srv, st.log.lookups);
    if st.srv == [] {
      assert |multiset(st.log.accepted)| == |st.log.accepted|;
    }
  }

  /** Failover, from any list: an attempt is under way, or everything was consulted and one report says so. */
  lemma {:induction false} TryNextStage(st: State, verdicts: seq<Verdict>)
    requires Underway(st) && !st.log.waiting && !st.log.stalled && |verdicts| >= |st.ina|
    ensures var r := TryNext(st, verdicts);
      && !r.log.stalled && ((Trying(r) && r.log.waiting) || (Told(r) && r.log.reports == [Unavailable]))
    decreases |st.ina|
  {
    if st.ina != [] {
      var v := verdicts[0];
      var c := Consult(st, v);
      assert c.log.consulted[..|st.log.consulted|] == st.log.consulted;
      assert Targets(c.log.consulted) == Targets(st.log.consulted) + [st.ina[0]];
      assert Targets(c.log.consulted) + c.ina == Targets(st.log.consulted) + st.ina;
      match v
      case FilteredOut => TryNextStage(c, verdicts[1..]);
      case Refused => TryNextStage(Attempt(c, st.ina[0]), verdicts[1..]);
      case Scheduled =>
    } else {
      assert Targets(st.log.consulted) + [] == Targets(st.log.consulted);
    }
  }

  lemma SortKeepsLength(list: seq<Target>, draws: seq<nat>)
    requires |draws| >= |list|
    ensures |Order(list, draws)| == |list|
  {
    OrderIsPermutation(list, draws);
    hide Order;
    assert |multiset(Order(list, draws))| == |multiset(list)|;
  }

  lemma SortedStage(st: State, draws: seq<nat>, verdicts: seq<Verdict>)
    requires st.log.responded && st.listed && st.srv == []
    requires st.log.consulted == [] && st.log.attempted == [] && st.log.reports == []
    requires !st.log.waiting && !st.log.stalled
    requires |draws| >= |st.ina| && |verdicts| >= |st.ina|
    ensures |Sorted(st, draws).ina| == |st.ina|
    ensures var r := TryNext(Sorted(st, draws), verdicts);
      !r.log.stalled && (Trying(r) || (Told(r) && r.log.reports == [Unavailable]))
  {
    hide Order;
    SortKeepsLength(st.ina, draws);
    assert Targets([]) + Order(st.ina, draws) == Order(st.ina, draws);
    TryNextStage(Sorted(st, draws), verdicts);
  }

  /** An answer that finds no record changes nothing but the lookups. */
  lemma AnswerIgnored(st: State, e: Event)
    requires e.Resolved? && Fits(st, e) && (!st.listed || FindId(st.srv, e.id) == |st.srv|)
    ensures Apply(st, e) == Answered(st, e.id)
    ensures BeforeSort(st, e.id, e.addrs, e.grants) == Answered(st, e.id)
  {
  }

  lemma AwaitingStage(st: State, e: Event)
    requires Awaiting(st) && e.Resolved? && Fits(st, e)
    ensures var r := Apply(st, e);
      Awaiting(r) || (!r.log.stalled && (Trying(r) || (Told(r) && r.log.reports == [Unavailable])))
  {
    AnswerKeepsLoose(st, e.id, e.addrs, e.grants);
    if FindId(st.srv, e.id) == |st.srv| {
      AnswerIgnored(st, e);
      hide BeforeSort, Loose, OnResolved;
    } else {
      var r := BeforeSort(st, e.id, e.addrs, e.grants);
      hide BeforeSort, Loose, Sorted, Trying, Told, TryNext;
      if r.srv == [] { SortedStage(r, e.draws, e.verdicts); }
    }
  }

  /** Every event keeps the phases; only an attempt that closes stalls, only one that succeeds is reported as such. */
  lemma StepStage(st: State, e: Event)
    requires Staged(st) && Fits(st, e)
    ensures var r := Apply(st, e);
      && Staged(r)
      && (r.log.stalled <==> st.log.stalled || e.AttemptClosed?)
      && (Connected in r.log.reports <==> Connected in st.log.reports || e.ConnectOk?)
  {
    if e.Response? {
      RespondedStage(e.records, e.scheduled);
    } else if e.Resolved? {
      if Awaiting(st) {
        AwaitingStage(st, e);
      } else {
        AnswerIgnored(st, e);
      }
      hide BeforeSort, OnResolved;
    } else if e.ConnectFailed? && st.listed {
      TryNextStage(Quiet(st), e.later);
    }
  }

  lemma {:induction false} RunIsStaged(states: seq<State>, events: seq<Event>, n: nat)
    requires IsRun(states, events) && n < |states|
    ensures Staged(states[n])
  {
    if n > 0 {
      RunIsStaged(states, events, n - 1);
      StepStage(states[n - 1], events[n - 1]);
    }
  }

  // ----- failover -----

  /** The first `m` addresses, each with its verdict. */
  function Consultations(ina: seq<Target>, verdicts: seq<Verdict>, m: nat): (c: seq<Consultation>)
    requires m <= |ina| && m <= |verdicts|
    ensures |c| == m && forall i :: 0 <= i < m ==> c[i].target == ina[i] && c[i].verdict == verdicts[i]
  {
    seq(m, i requires 0 <= i < m => Consultation(ina[i], verdicts[i]))
  }

  /**
   The first `m` addresses were consulted, the last of them scheduled or none left, and nothing else has
   changed.
   */
  ghost predicate Tried(st: State, verdicts: seq<Verdict>, m: nat, r: State)
    requires |verdicts| >= |st.ina|
  {
    var started := 0 < m <= |st.ina| && verdicts[m - 1] == Scheduled;
    && m <= |st.ina| && (forall i :: 0 <= i < m - 1 ==> verdicts[i] != Scheduled)
    && (!started ==> m == |st.ina|)
    && r == st.(ina := st.ina[m..], listed := st.listed && started, log := r.log)
    && r.log == st.log.(consulted := st.log.consulted + Consultations(st.ina, verdicts, m),
      attempted := r.log.attempted, waiting := st.log.waiting || started,
      reports := if started then st.log.reports else st.log.reports + [Unavailable])
  }

  /**
   Failover consults the addresses in order, up to and with the first whose connection is scheduled, and
   waits for it; when there is none, all of them, and reports unavailability.  It changes nothing else.
   */
  lemma {:induction false} TryNextIs(st: State, verdicts: seq<Verdict>) returns (m: nat)
    requires |verdicts| >= |st.ina|
    ensures Tried(st, verdicts, m, TryNext(st, verdicts))
    decreases |st.ina|
  {
    if st.ina == [] {
      m := 0;
      assert st.log.consulted + [] == st.log.consulted;
    } else if verdicts[0] == Scheduled {
      m := 1;
      ConsultedFirst(st.log.consulted, st.ina, verdicts, 0);
    } else {
      var c := Passed(st, verdicts[0]);
      assert TryNext(st, verdicts) == TryNext(c, verdicts[1..]);
      hide TryNext, Tried;
      m := TryNextIs(c, verdicts[1..]);
      TriedOne(st, verdicts, m, TryNext(c, verdicts[1..]));
      m := m + 1;
    }
  }

  /** The head was consulted without success. */
  function Passed(st: State, v: Verdict): State
    requires st.ina != []
  {
    if v.FilteredOut? then Consult(st, v) else Attempt(Consult(st, v), st.ina[0])
  }

  lemma TriedOne(st: State, verdicts: seq<Verdict>, m: nat, r: State)
    requires st.ina != [] && |verdicts| >= |st.ina| && verdicts[0] != Scheduled
    requires Tried(Passed(st, verdicts[0]), verdicts[1..], m, r)
    ensures Tried(st, verdicts, m + 1, r)
  {
    ConsultedFirst(st.log.consulted, st.ina, verdicts, m);
    hide Consultations;
  }

  lemma ConsultedFirst(c: seq<Consultation>, ina: seq<Target>, verdicts: seq<Verdict>, m: nat)
    requires m < |ina| && m < |verdicts|
    ensures c + [Consultation(ina[0], verdicts[0])] + Consultations(ina[1..], verdicts[1..], m) ==
      c + Consultations(ina, verdicts, m + 1)
    ensures c + [Consultation(ina[0], verdicts[0])] == c + Consultations(ina, verdicts, 1)
    ensures ina[1..][m..] == ina[m + 1..]
  {
    assert [Consultation(ina[0], verdicts[0])] + Consultations(ina[1..], verdicts[1..], m) ==
      Consultations(ina, verdicts, m + 1);
    assert [Consultation(ina[0], verdicts[0])] == Consultations(ina, verdicts, 1);
  }

  // ----- attempts and their ends -----

  /** How many consultations scheduled a connection. */
  ghost function ScheduledIn(c: seq<Consultation>): nat {
    if c == [] then 0 else ScheduledIn(c[..|c| - 1]) + if c[|c| - 1].verdict == Scheduled then 1 else 0
  }

  /** An event that ends an attempt. */
  predicate EndsAttempt(e: Event) {
    e.ConnectOk? || e.ConnectFailed? || e.AttemptClosed?
  }

  ghost function Ended(events: seq<Event>, n: nat): nat
    requires n <= |events|
  {
    if n == 0 then 0 else Ended(events, n - 1) + if EndsAttempt(events[n - 1]) then 1 else 0
  }

  /** While an attempt is waited for or has stalled, it is the one scheduled last. */
  ghost predicate LastScheduled(log: Log) {
    log.waiting || log.stalled ==> log.consulted != [] && log.consulted[|log.consulted| - 1].verdict == Scheduled
  }

  /** Of the consultations scheduled, `ended` attempts have ended, and one more is waited for or none. */
  ghost predicate Accounted(log: Log, ended: nat) {
    LastScheduled(log) && ScheduledIn(log.consulted) == ended + if log.waiting then 1 else 0
  }

  lemma {:induction false} ScheduledMore(c: seq<Consultation>, ina: seq<Target>, verdicts: seq<Verdict>, m: nat)
    requires m <= |ina| && m <= |verdicts| && forall i :: 0 <= i < m - 1 ==> verdicts[i] != Scheduled
    ensures ScheduledIn(c + Consultations(ina, verdicts, m)) ==
      ScheduledIn(c) + if m > 0 && verdicts[m - 1] == Scheduled then 1 else 0
  {
    var all := c + Consultations(ina, verdicts, m);
    if m > 0 {
      ScheduledMore(c, ina, verdicts, m - 1);
      assert all[..|all| - 1] == c + Consultations(ina, verdicts, m - 1);
    } else {
      assert all == c;
    }
  }

  /** Failover, when nothing is waited for. */
  lemma TryNextAccounts(st: State, verdicts: seq<Verdict>, ended: nat)
    requires !st.log.waiting && !st.log.stalled && |verdicts| >= |st.ina| && Accounted(st.log, ended)
    ensures Accounted(TryNext(st, verdicts).log, ended)
  {
    var m := TryNextIs(st, verdicts);
    ScheduledMore(st.log.consulted, st.ina, verdicts, m);
    hide ScheduledIn, TryNext;
  }

  lemma StepAccounts(st: State, e: Event, ended: nat)
    requires Staged(st) && Fits(st, e) && Accounted(st.log, ended)
    ensures Accounted(Apply(st, e).log, if EndsAttempt(e) then ended + 1 else ended)
  {
    if e.Response? {
      RespondedStage(e.records, e.scheduled);
    } else if e.ConnectFailed? && st.listed {
      TryNextAccounts(Quiet(st), e.later, ended + 1);
    } else if e.Resolved? {
      AnswerAccounts(st, e, ended);
    }
  }

  lemma AnswerAccounts(st: State, e: Event, ended: nat)
    requires Staged(st) && e.Resolved? && Fits(st, e) && Accounted(st.log, ended)
    ensures Accounted(Apply(st, e).log, ended)
  {
    if Awaiting(st) && FindId(st.srv, e.id) < |st.srv| {
      AnswerKeepsLoose(st, e.id, e.addrs, e.grants);
      var r := BeforeSort(st, e.id, e.addrs, e.grants);
      hide BeforeSort, Loose, Accounted, TryNext, Order;
      SameAccount(st.log, r.log, ended);
      SortKeepsLength(r.ina, e.draws);
      if r.srv == [] {
        SameAccount(r.log, Sorted(r, e.draws).log, ended);
        TryNextAccounts(Sorted(r, e.draws), e.verdicts, ended);
      }
    } else {
      AnswerIgnored(st, e);
    }
  }

  lemma SameAccount(log: Log, log': Log, ended: nat)
    requires Accounted(log, ended)
    requires log'.consulted == log.consulted && log'.waiting == log.waiting && log'.stalled == log.stalled
    ensures Accounted(log', ended)
  {
  }

  /**
   In every run: only a scheduled connection is waited for or stalls, and of the connections scheduled
   each has ended with one event but for the one that is waited for.
   */
  lemma {:induction false} AttemptsEndOnce(states: seq<State>, events: seq<Event>, n: nat)
    requires IsRun(states, events) && n < |states|
    ensures var log := states[n].log;
      && (log.waiting || log.stalled ==>
        log.consulted != [] && log.consulted[|log.consulted| - 1].verdict == Scheduled)
      && ScheduledIn(log.consulted) == Ended(events, n) + if log.waiting then 1 else 0
  {
    if n > 0 {
      AttemptsEndOnce(states, events, n - 1);
      RunIsStaged(states, events, n - 1);
      StepAccounts(states[n - 1], events[n - 1], Ended(events, n - 1));
      hide Staged, Apply, Fits, ScheduledIn;
    }
  }

  /**
   The answer that leaves no record: the list it leaves is sorted by the draws of this event, and that is
   the order in which addresses are consulted.
   */
  lemma LastAnswerSorts(st: State, e: Event)
    requires Awaiting(st) && e.Resolved? && Fits(st, e) && Apply(st, e).srv == []
    ensures var list := BeforeSort(st, e.id, e.addrs, e.grants).ina;
      |e.draws| >= |list| && Apply(st, e).log.order == Order(list, e.draws)
  {
    if FindId(st.srv, e.id) == |st.srv| { AnswerIgnored(st, e); }
    var r := BeforeSort(st, e.id, e.addrs, e.grants);
    assert r.listed;
    hide BeforeSort, Order;
    SortKeepsLength(r.ina, e.draws);
    if r.srv == [] {
      var m := TryNextIs(Sorted(r, e.draws), e.verdicts);
    }
  }
}
