/**
 A service resolution (`getsrv`) as a state machine over values: one SRV response, one address
 answer for each scheduled lookup, then connection attempts until one succeeds or the list is empty.
 `GetSrv` performs the same steps on linked lists in place.
 */
module ServiceMachine {
  import opened WeightedOrder

  /** A node of the `srv` list. */
  datatype Record = Record(id: nat, priority: nat, weight: nat, port: nat, host: string)

  /** One answer of the SRV response; `Broken` ends the parse: it cannot be read, or its node is refused. */
  datatype Answer = Srv(priority: nat, weight: nat, port: nat, host: string) | Skipped | Broken

  /** What the filter and the connection layer said about an address that was consulted. */
  datatype Verdict = FilteredOut | Refused | Scheduled

  datatype Consultation = Consultation(target: Target, verdict: Verdict)

  /** What the user's dispatcher is told. */
  datatype Report = Connected | Unavailable | NotFound

  /**
   What went out to the rest of the library, and what came back: lookups not yet answered, the
   records accepted, the answers by host, the addresses that got no node for want of memory, the
   order the sort gave, the addresses consulted, those a connection was requested to, the reports made.
   `responded`: the SRV response was handled.  `waiting`: an attempt has not reported yet.
   `stalled`: an attempt ended with an event that is no connect event.
   */
  datatype Log = Log(
    lookups: map<nat, string>,
    accepted: seq<Record>,
    answers: map<string, seq<nat>>,
    dropped: multiset<Target>,
    order: seq<Target>,
    consulted: seq<Consultation>,
    attempted: seq<Target>,
    reports: seq<Report>,
    responded: bool,
    waiting: bool,
    stalled: bool)

  /** `listed`: the request is still in the queue, so events reach it. */
  datatype State = State(srv: seq<Record>, ina: seq<Target>, listed: bool, log: Log)

  /** `grants`: which of the address nodes asked for are given, in order; those beyond its end are. */
  datatype Event =
    | Response(records: seq<Answer>, scheduled: seq<bool>)
    | Resolved(id: nat, addrs: seq<nat>, grants: seq<bool>, draws: seq<nat>, verdicts: seq<Verdict>)
    | ConnectOk
    | ConnectFailed(later: seq<Verdict>)
    | AttemptClosed
    | OtherEvent

  const EMPTY_LOG: Log := Log(map[], [], map[], multiset{}, [], [], [], [], false, false, false)
  const INITIAL: State := State([], [], true, EMPTY_LOG)

  // ----- phase one: SRV records -----

  /** The `host` field of a record holds 64 bytes, the last of them the terminator. */
  function Stored(host: string): string {
    if |host| < 64 then host else host[..63]
  }

  predicate Known(srv: seq<Record>, host: string) {
    exists i :: 0 <= i < |srv| && srv[i].host == host
  }

  function NewRecord(st: State, a: Answer): Record
    requires a.Srv?
  {
    Record((|st.srv| + 1) % 0x10000, a.priority, a.weight, a.port, Stored(a.host))
  }

  function Accept(st: State, r: Record): State {
    st.(srv := [r] + st.srv, log := st.log.(accepted := st.log.accepted + [r]))
  }

  /** One SRV record: linked in front when its host is being resolved or its lookup could be scheduled. */
  function OnRecord(st: State, a: Answer, scheduled: bool): State
    requires a.Srv?
  {
    var r := NewRecord(st, a);
    if Known(st.srv, a.host) then Accept(st, r)
    else if scheduled then
      Accept(st.(log := st.log.(lookups := st.log.lookups[r.id := a.host])), r)
    else st
  }

  /** All records of the response; the flag says that an empty host name declared the service unavailable. */
  function Collect(st: State, records: seq<Answer>, scheduled: seq<bool>): (State, bool)
    requires |scheduled| >= |records|
    decreases |records|
  {
    if records == [] || records[0].Broken? then (st, false)
    else if records[0].Skipped? then Collect(st, records[1..], scheduled[1..])
    else if records[0].host == "" then (st, true)
    else Collect(OnRecord(st, records[0], scheduled[0]), records[1..], scheduled[1..])
  }

  /** `request::cancel`: out of the queue. */
  function Finish(st: State, r: Report): State {
    st.(listed := false, log := st.log.(reports := st.log.reports + [r]))
  }

  function OnResponse(st: State, records: seq<Answer>, scheduled: seq<bool>): State
    requires |scheduled| >= |records|
  {
    var (st1, unavailable) := Collect(st, records, scheduled);
    var st2 := st1.(log := st1.log.(responded := true));
    if st2.srv == [] then Finish(st2, if unavailable then Unavailable else NotFound) else st2
  }

  // ----- phase two: addresses -----

  /** How many leading addresses have a priority below `p`. */
  function Below(s: seq<Target>, p: nat): (n: nat)
    ensures n <= |s|
    ensures forall i :: 0 <= i < n ==> s[i].priority < p
    ensures n < |s| ==> s[n].priority >= p
  {
    if s == [] || s[0].priority >= p then 0 else 1 + Below(s[1..], p)
  }

  function Insert(s: seq<Target>, t: Target): seq<Target> {
    s[..Below(s, t.priority)] + [t] + s[Below(s, t.priority)..]
  }

  function Pair(r: Record, addr: nat): Target {
    Target(r.priority, r.weight, r.port, addr)
  }

  /** Whether the node that is asked for as number `n` is given. */
  predicate Granted(grants: seq<bool>, n: nat) {
    n >= |grants| || grants[n]
  }

  /** Every resolved address under one record, but for those without a node; `n` were asked for before. */
  function AddAll(ina: seq<Target>, r: Record, addrs: seq<nat>, grants: seq<bool>, n: nat): seq<Target>
    decreases |addrs|
  {
    if addrs == [] then ina
    else AddAll(if Granted(grants, n) then Insert(ina, Pair(r, addrs[0])) else ina, r, addrs[1..], grants, n + 1)
  }

  /** The pairings of one record that get no node. */
  function Denied(r: Record, addrs: seq<nat>, grants: seq<bool>, n: nat): multiset<Target>
    decreases |addrs|
  {
    if addrs == [] then multiset{}
    else (if Granted(grants, n) then multiset{} else multiset{Pair(r, addrs[0])}) + Denied(r, addrs[1..], grants, n + 1)
  }

  /** One pass over the records: those of `host` become addresses, the others are kept, in reverse. */
  function Distribute(srv: seq<Record>, host: string, addrs: seq<nat>, grants: seq<bool>, n: nat, kept: seq<Record>,
      ina: seq<Target>): (seq<Record>, seq<Target>)
    decreases |srv|
  {
    if srv == [] then (kept, ina)
    else if srv[0].host != host then Distribute(srv[1..], host, addrs, grants, n, [srv[0]] + kept, ina)
    else Distribute(srv[1..], host, addrs, grants, n + |addrs|, kept, AddAll(ina, srv[0], addrs, grants, n))
  }

  /** The pairings that get no node in one pass. */
  function DeniedAll(srv: seq<Record>, host: string, addrs: seq<nat>, grants: seq<bool>, n: nat): multiset<Target>
    decreases |srv|
  {
    if srv == [] then multiset{}
    else if srv[0].host != host then DeniedAll(srv[1..], host, addrs, grants, n)
    else Denied(srv[0], addrs, grants, n) + DeniedAll(srv[1..], host, addrs, grants, n + |addrs|)
  }

  /** The position of the first record with this id, or the length. */
  function FindId(srv: seq<Record>, id: nat): (k: nat)
    ensures k <= |srv|
    ensures k < |srv| ==> srv[k].id == id
    ensures forall i :: 0 <= i < k ==> srv[i].id != id
  {
    if srv == [] || srv[0].id == id then 0 else 1 + FindId(srv[1..], id)
  }

  /** The addresses of an answer handed to all records with the host of record `k`. */
  function Fan(st: State, k: nat, addrs: seq<nat>, grants: seq<bool>): State
    requires k < |st.srv|
  {
    var host := st.srv[k].host;
    var (kept, ina) := Distribute(st.srv, host, addrs, grants, 0, [], st.ina);
    st.(srv := kept, ina := ina, log := st.log.(answers := st.log.answers[host := addrs],
      dropped := st.log.dropped + DeniedAll(st.srv, host, addrs, grants, 0)))
  }

  function LookupsLeft(lookups: map<nat, string>, id: nat): map<nat, string> {
    map i | i in lookups && i != id :: lookups[i]
  }

  /** The answer of one lookup. */
  function Answered(st: State, id: nat): State {
    st.(log := st.log.(lookups := LookupsLeft(st.log.lookups, id)))
  }

  /** An answer, up to but not including the sort. */
  function BeforeSort(st: State, id: nat, addrs: seq<nat>, grants: seq<bool>): State {
    var st1 := Answered(st, id);
    var k := FindId(st.srv, id);
    if !st.listed || k == |st.srv| then st1 else Fan(st1, k, addrs, grants)
  }

  /** `getsrv::sort` */
  function Sorted(st: State, draws: seq<nat>): State
    requires |draws| >= |st.ina|
  {
    var order := Order(st.ina, draws);
    st.(ina := order, log := st.log.(order := order))
  }

  function OnResolved(st: State, id: nat, addrs: seq<nat>, grants: seq<bool>, draws: seq<nat>,
      verdicts: seq<Verdict>): State
    requires |draws| >= |BeforeSort(st, id, addrs, grants).ina|
      && |verdicts| >= |BeforeSort(st, id, addrs, grants).ina|
  {
    var st1 := BeforeSort(st, id, addrs, grants);
    if !st.listed || FindId(st.srv, id) == |st.srv| || st1.srv != [] then st1
    else TryNext(Sorted(st1, draws), verdicts)
  }

  // ----- phase three: connecting -----

  /** The head of the list is consulted and leaves it. */
  function Consult(st: State, v: Verdict): State
    requires st.ina != []
  {
    st.(ina := st.ina[1..], log := st.log.(consulted := st.log.consulted + [Consultation(st.ina[0], v)]))
  }

  function Attempt(st: State, t: Target): State {
    st.(log := st.log.(attempted := st.log.attempted + [t]))
  }

  /** Consults addresses in order until one is scheduled; with none left, reports unavailability. */
  function TryNext(st: State, verdicts: seq<Verdict>): State
    requires |verdicts| >= |st.ina|
    decreases |st.ina|
  {
    if st.ina == [] then Finish(st, Unavailable) else
      var st1 := Consult(st, verdicts[0]);
      match verdicts[0]
      case FilteredOut => TryNext(st1, verdicts[1..])
      case Refused => TryNext(Attempt(st1, st.ina[0]), verdicts[1..])
      case Scheduled =>
        var st2 := Attempt(st1, st.ina[0]);
        st2.(log := st2.log.(waiting := true))
  }

  function Quiet(st: State): State {
    st.(log := st.log.(waiting := false))
  }

  /** A connect event with a valid connection: reported to the user, and the request is deleted. */
  function OnConnectOk(st: State): State {
    if !st.listed then Quiet(st) else Finish(Quiet(st).(srv := [], ina := []), Connected)
  }

  function OnConnectFailed(st: State, verdicts: seq<Verdict>): State
    requires |verdicts| >= |st.ina|
  {
    if !st.listed then Quiet(st) else TryNext(Quiet(st), verdicts)
  }

  /** Any other event of the connection is turned away, and nothing moves on. */
  function OnAttemptClosed(st: State): State {
    st.(log := st.log.(waiting := false, stalled := st.listed))
  }

  // ----- runs -----

  /** What the environment may do: one response, one answer for each lookup, one outcome for each attempt. */
  predicate Fits(st: State, e: Event) {
    match e
    case Response(records, scheduled) => !st.log.responded && |records| < 0x10000 && |scheduled| >= |records|
    case Resolved(id, addrs, grants, draws, verdicts) =>
      id in st.log.lookups && |draws| >= |BeforeSort(st, id, addrs, grants).ina|
        && |verdicts| >= |BeforeSort(st, id, addrs, grants).ina|
    case ConnectOk => st.log.waiting
    case ConnectFailed(verdicts) => st.log.waiting && |verdicts| >= |st.ina|
    case AttemptClosed => st.log.waiting
    case OtherEvent => true
  }

  function Apply(st: State, e: Event): State
    requires Fits(st, e)
  {
    match e
    case Response(records, scheduled) => OnResponse(st, records, scheduled)
    case Resolved(id, addrs, grants, draws, verdicts) => OnResolved(st, id, addrs, grants, draws, verdicts)
    case ConnectOk => OnConnectOk(st)
    case ConnectFailed(verdicts) => OnConnectFailed(st, verdicts)
    case AttemptClosed => OnAttemptClosed(st)
    case OtherEvent => st
  }

  /** Host names that fit the record's field; longer ones are cut by `Stored`. */
  predicate ShortNames(records: seq<Answer>) {
    forall i :: 0 <= i < |records| && records[i].Srv? ==> |records[i].host| < 64
  }

  /** No two outstanding lookups are for names that a record cannot tell apart. */
  ghost predicate Unambiguous(lookups: map<nat, string>) {
    forall i, j :: i in lookups && j in lookups && Stored(lookups[i]) == Stored(lookups[j]) ==> i == j
  }

  /** The events lead from the first state to the last. */
  ghost predicate Follows(states: seq<State>, events: seq<Event>) {
    && |states| == |events| + 1
    && forall i :: 0 <= i < |events| ==> Fits(states[i], events[i]) && states[i + 1] == Apply(states[i], events[i])
  }

  ghost predicate IsRun(states: seq<State>, events: seq<Event>) {
    Follows(states, events) && states[0] == INITIAL
  }
}
