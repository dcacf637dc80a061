/**
 What a service response leads to, answer by answer: which records are accepted, with which fields,
 which hosts are looked up, and what the user is told when nothing is accepted.
 */
module Responses {
  import opened Common
  import opened Bytes
  import opened ServiceMachine
  import DnsWire
  import DnsAnswers
  import SrvAnswers

  /** The first 63 bytes of a name, which is all that a record keeps. */
  function Cut(host: string): string {
    host[..Min(|host|, 63)]
  }

  /** Where the response ends: at the first answer that cannot be taken or has no host, or behind the last one. */
  ghost predicate Stops(records: seq<Answer>, stop: nat) {
    && stop <= |records|
    && (forall i :: 0 <= i < stop ==> records[i].Skipped? || (records[i].Srv? && records[i].host != ""))
    && (stop < |records| ==> records[stop].Broken? || (records[stop].Srv? && records[stop].host == ""))
  }

  /** An accepted answer in front of answer `i` already has its host, as far as a record keeps it. */
  ghost predicate HeldBefore(records: seq<Answer>, from: seq<nat>, i: nat)
    requires i < |records| && records[i].Srv?
  {
    exists k :: 0 <= k < |from| && from[k] < i && records[from[k]].Srv? && Cut(records[from[k]].host) == records[i].host
  }

  /**
   `from` has exactly the SRV answers in front of `stop` whose host is held already or whose lookup was
   scheduled, each once and in order.
   */
  ghost predicate Chosen(records: seq<Answer>, scheduled: seq<bool>, stop: nat, from: seq<nat>)
    requires stop <= |records| <= |scheduled|
  {
    && (forall k :: 0 <= k < |from| ==> from[k] < stop && records[from[k]].Srv?)
    && (forall j, k :: 0 <= j < k < |from| ==> from[j] < from[k])
    && (forall i :: 0 <= i < stop && records[i].Srv? ==> (i in from <==> scheduled[i] || HeldBefore(records, from, i)))
  }

  /** A record says what its answer says, and is numbered by its place. */
  predicate Says(r: Record, a: Answer, place: nat) {
    && a.Srv? && r.id == place
    && r.priority == a.priority && r.weight == a.weight && r.port == a.port && r.host == Cut(a.host)
  }

  ghost predicate AreAnswers(records: seq<Answer>, from: seq<nat>) {
    forall k :: 0 <= k < |from| ==> from[k] < |records| && records[from[k]].Srv?
  }

  /** Hosts that were not held before are looked up, under their full names, for the record that has them first. */
  ghost predicate LooksUp(lookups: map<nat, string>, records: seq<Answer>, from: seq<nat>)
    requires AreAnswers(records, from)
  {
    && (forall id :: id in lookups <==> 1 <= id <= |from| && !HeldBefore(records, from, from[id - 1]))
    && (forall id :: id in lookups ==> lookups[id] == records[from[id - 1]].host)
  }

  /** The records accepted are the answers chosen; the list has them in reverse; new hosts are looked up. */
  ghost predicate Holds(st: State, records: seq<Answer>, from: seq<nat>)
    requires AreAnswers(records, from)
  {
    var accepted := st.log.accepted;
    && |accepted| == |st.srv| == |from|
    && (forall k :: 0 <= k < |from| ==> Says(accepted[k], records[from[k]], k + 1))
    && (forall k :: 0 <= k < |from| ==> st.srv[|from| - 1 - k] == accepted[k])
    && LooksUp(st.log.lookups, records, from)
  }

  ghost predicate Untold(st: State) {
    st.listed && st.log.reports == [] && st.ina == []
  }

  ghost predicate SoFar(st: State, records: seq<Answer>, scheduled: seq<bool>, n: nat, from: seq<nat>) {
    n <= |records| <= |scheduled| && Chosen(records, scheduled, n, from) && Holds(st, records, from) && Untold(st)
  }

  // ----- one answer more -----

  /** Increasing numbers below `n` are at most `n`. */
  lemma {:induction false} AtMost(from: seq<nat>, n: nat)
    requires forall k :: 0 <= k < |from| ==> from[k] < n
    requires forall j, k :: 0 <= j < k < |from| ==> from[j] < from[k]
    ensures |from| <= n
    decreases |from|
  {
    if from != [] {
      AtMost(from[..|from| - 1], from[|from| - 1]);
    }
  }

  /** What comes later does not change what was held before. */
  lemma HeldStays(records: seq<Answer>, from: seq<nat>, n: nat, i: nat)
    requires i <= n && i < |records| && records[i].Srv?
    ensures HeldBefore(records, from + [n], i) <==> HeldBefore(records, from, i)
  {
    var more := from + [n];
    if HeldBefore(records, from, i) {
      var k :| 0 <= k < |from| && from[k] < i && records[from[k]].Srv?
        && Cut(records[from[k]].host) == records[i].host;
      assert more[k] == from[k];
    }
  }

  /** The list has this host if and only if an accepted answer has it. */
  lemma KnownIsHeld(st: State, records: seq<Answer>, scheduled: seq<bool>, n: nat, from: seq<nat>)
    requires SoFar(st, records, scheduled, n, from) && n < |records| && records[n].Srv?
    ensures Known(st.srv, records[n].host) <==> HeldBefore(records, from, n)
  {
    var host := records[n].host;
    if Known(st.srv, host) {
      var i :| 0 <= i < |st.srv| && st.srv[i].host == host;
      var k := |from| - 1 - i;
      assert st.srv[|from| - 1 - k] == st.log.accepted[k];
      assert Says(st.log.accepted[k], records[from[k]], k + 1);
    }
    if HeldBefore(records, from, n) {
      var k :| 0 <= k < |from| && from[k] < n && records[from[k]].Srv?
        && Cut(records[from[k]].host) == records[n].host;
      assert st.srv[|from| - 1 - k] == st.log.accepted[k];
      assert Says(st.log.accepted[k], records[from[k]], k + 1);
    }
  }

  lemma ChosenMore(records: seq<Answer>, scheduled: seq<bool>, n: nat, from: seq<nat>)
    requires n < |records| <= |scheduled| && Chosen(records, scheduled, n, from) && records[n].Srv?
    ensures if scheduled[n] || HeldBefore(records, from, n) then Chosen(records, scheduled, n + 1, from + [n])
      else Chosen(records, scheduled, n + 1, from)
  {
    var more := if scheduled[n] || HeldBefore(records, from, n) then from + [n] else from;
    forall i | 0 <= i < n + 1 && records[i].Srv?
      ensures i in more <==> scheduled[i] || HeldBefore(records, more, i)
    {
      HeldStays(records, from, n, i);
      assert i == n ==> i !in from;
      hide HeldBefore;
    }
    hide HeldBefore;
  }

  lemma ChosenSkips(records: seq<Answer>, scheduled: seq<bool>, n: nat, from: seq<nat>)
    requires n < |records| <= |scheduled| && Chosen(records, scheduled, n, from) && records[n].Skipped?
    ensures Chosen(records, scheduled, n + 1, from)
  {
  }

  lemma LooksUpMore(lookups: map<nat, string>, records: seq<Answer>, from: seq<nat>, n: nat)
    requires AreAnswers(records, from) && LooksUp(lookups, records, from) && n < |records| && records[n].Srv?
    requires forall k :: 0 <= k < |from| ==> from[k] < n
    ensures LooksUp(
      if HeldBefore(records, from, n) then lookups else lookups[|from| + 1 := records[n].host], records, from + [n])
  {
    var more := from + [n];
    var all := if HeldBefore(records, from, n) then lookups else lookups[|from| + 1 := records[n].host];
    forall id: nat ensures id in all <==> 1 <= id <= |more| && !HeldBefore(records, more, more[id - 1]) {
      HeldStays(records, from, n, if 1 <= id <= |from| then from[id - 1] else n);
      hide HeldBefore;
    }
    hide HeldBefore;
  }

  /** A record is put in front, and looked up when its host is new. */
  lemma HoldsMore(st: State, records: seq<Answer>, scheduled: seq<bool>, n: nat, from: seq<nat>, r: Record,
      lookups: map<nat, string>)
    requires SoFar(st, records, scheduled, n, from) && n < |records| && Says(r, records[n], |from| + 1)
    requires lookups == if HeldBefore(records, from, n) then st.log.lookups
      else st.log.lookups[|from| + 1 := records[n].host]
    ensures Holds(State([r] + st.srv, st.ina, st.listed,
      st.log.(accepted := st.log.accepted + [r], lookups := lookups)), records, from + [n])
  {
    LooksUpMore(st.log.lookups, records, from, n);
    hide LooksUp, HeldBefore, Says;
    var more, srv, accepted := from + [n], [r] + st.srv, st.log.accepted + [r];
    forall k | 0 <= k < |more| ensures srv[|more| - 1 - k] == accepted[k] {
      if k < |from| { assert srv[|more| - 1 - k] == st.srv[|from| - 1 - k]; }
    }
  }

  lemma OneMore(st: State, records: seq<Answer>, scheduled: seq<bool>, n: nat, from: seq<nat>)
    returns (more: seq<nat>)
    requires SoFar(st, records, scheduled, n, from) && n < |records| < 0x10000 && records[n].Srv?
    ensures SoFar(OnRecord(st, records[n], scheduled[n]), records, scheduled, n + 1, more)
  {
    var held := HeldBefore(records, from, n);
    KnownIsHeld(st, records, scheduled, n, from);
    ChosenMore(records, scheduled, n, from);
    hide HeldBefore, Chosen, Known;
    more := if scheduled[n] || held then from + [n] else from;
    if scheduled[n] || held {
      AtMostFrom(records, scheduled, n, from);
      Accepts(st, records, scheduled, n, from);
    }
  }

  lemma AtMostFrom(records: seq<Answer>, scheduled: seq<bool>, n: nat, from: seq<nat>)
    requires n <= |records| <= |scheduled| && Chosen(records, scheduled, n, from)
    ensures |from| <= n
  {
    AtMost(from, n);
  }

  /** An answer that is accepted. */
  lemma Accepts(st: State, records: seq<Answer>, scheduled: seq<bool>, n: nat, from: seq<nat>)
    requires SoFar(st, records, scheduled, n, from) && n < |records| < 0x10000 && records[n].Srv? && |from| <= n
    requires scheduled[n] || HeldBefore(records, from, n)
    requires Known(st.srv, records[n].host) <==> HeldBefore(records, from, n)
    ensures Holds(OnRecord(st, records[n], scheduled[n]), records, from + [n])
      && Untold(OnRecord(st, records[n], scheduled[n]))
  {
    var r := NewRecord(st, records[n]);
    assert Says(r, records[n], |from| + 1);
    hide HeldBefore, Chosen, LooksUp, Known;
    HoldsMore(st, records, scheduled, n, from, r,
      if HeldBefore(records, from, n) then st.log.lookups else st.log.lookups[r.id := records[n].host]);
    hide Says;
  }

  lemma {:induction false} CollectIs(st: State, records: seq<Answer>, scheduled: seq<bool>, n: nat, from: seq<nat>)
    returns (stop: nat, all: seq<nat>)
    requires SoFar(st, records, scheduled, n, from) && |records| < 0x10000
    requires forall i :: 0 <= i < n ==> records[i].Skipped? || (records[i].Srv? && records[i].host != "")
    ensures var (r, unavailable) := Collect(st, records[n..], scheduled[n..]);
      && SoFar(r, records, scheduled, stop, all) && Stops(records, stop)
      && (unavailable <==> stop < |records| && records[stop].Srv?)
    decreases |records| - n
  {
    stop, all := n, from;
    if n < |records| {
      assert records[n..][1..] == records[n + 1..] && scheduled[n..][1..] == scheduled[n + 1..];
      if records[n].Skipped? {
        ChosenSkips(records, scheduled, n, from);
        stop, all := CollectIs(st, records, scheduled, n + 1, from);
      } else if records[n].Srv? && records[n].host != "" {
        var more := OneMore(st, records, scheduled, n, from);
        hide SoFar;
        stop, all := CollectIs(OnRecord(st, records[n], scheduled[n]), records, scheduled, n + 1, more);
      }
    }
  }

  // ----- the response -----

  /** What the user is told: nothing, unless no record was accepted. */
  ghost predicate ToldOf(st: State, records: seq<Answer>, stop: nat)
    requires stop <= |records|
  {
    if st.log.accepted != [] then st.listed && st.log.reports == []
    else !st.listed && st.log.reports == [if stop < |records| && records[stop].Srv? then Unavailable else NotFound]
  }

  /**
   After any response the records accepted are, in order, exactly the SRV answers in front of its end
   whose host is held already or whose lookup was scheduled, each with the fields of its answer; new
   hosts are looked up under their full names; and without records the user is told so, of a service
   that is unavailable if an empty host ended the response.
   */
  lemma ResponseIs(records: seq<Answer>, scheduled: seq<bool>) returns (stop: nat, from: seq<nat>)
    requires |records| < 0x10000 && |scheduled| >= |records|
    ensures Stops(records, stop) && Chosen(records, scheduled, stop, from)
    ensures var st := OnResponse(INITIAL, records, scheduled); Holds(st, records, from) && ToldOf(st, records, stop)
  {
    assert records[0..] == records && scheduled[0..] == scheduled;
    stop, from := CollectIs(INITIAL, records, scheduled, 0, []);
    hide Chosen, Stops, Collect;
  }

  /**
   From the bytes of a well-built response: of the records sent, exactly those SRV records are accepted
   whose host is held already or whose lookup was scheduled, with the numbers and hosts in the packet.
   */
  lemma PacketIs(p: seq<Byte>, f: DnsWire.Fields, qs: seq<DnsAnswers.Question>, ss: seq<DnsAnswers.Sent>,
      answers: seq<Answer>, scheduled: seq<bool>)
    returns (from: seq<nat>)
    requires DnsWire.InRange(f) && f.qdcount == |qs| && f.ancount == |ss| <= |scheduled|
    requires DnsAnswers.GoodQuestions(qs) && DnsAnswers.GoodRecords(ss)
    requires DnsWire.Has(p, 0, DnsAnswers.ResponseWire(f, qs, ss))
    requires SrvAnswers.Announces(p, 12 + |DnsAnswers.QuestionsWire(qs)|, ss, answers)
    ensures |answers| == |ss| && Chosen(answers, scheduled, |answers|, from)
    ensures var records := SrvAnswers.ResponseAnswers(p, 12, DnsWire.DecodeHeader(p, 0), []);
      |records| <= |scheduled| && Holds(OnResponse(INITIAL, records, scheduled), answers, from)
  {
    SrvAnswers.ResponseSays(p, f, qs, ss, answers);
    AllGoOn(p, 12 + |DnsAnswers.QuestionsWire(qs)|, ss, answers);
    hide Chosen, Holds, DnsAnswers.GoodRecords, DnsAnswers.GoodQuestions, SrvAnswers.Announces;
    hide DnsAnswers.ResponseWire, DnsAnswers.QuestionsWire, SrvAnswers.ResponseAnswers, DnsWire.DecodeHeader;
    var stop;
    stop, from := ResponseIs(answers, scheduled);
  }

  lemma {:induction false} AllGoOn(p: seq<Byte>, src: nat, ss: seq<DnsAnswers.Sent>, answers: seq<Answer>)
    requires SrvAnswers.Announces(p, src, ss, answers)
    ensures |answers| == |ss|
    ensures forall i :: 0 <= i < |answers| ==> answers[i].Skipped? || (answers[i].Srv? && answers[i].host != "")
    decreases |ss|
  {
    if ss != [] {
      AllGoOn(p, src + |DnsAnswers.RecordWire(ss[0])|, ss[1..], answers[1..]);
      assert answers == [answers[0]] + answers[1..];
    }
  }
}
