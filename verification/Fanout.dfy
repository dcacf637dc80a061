/**
 What handing out the answers of the address lookups keeps: no record and no address is lost or
 invented, and the address list stays ordered by priority.
 */
module Fanout {
  import opened Chains
  import opened WeightedOrder
  import opened ServiceMachine

  /** The records whose host has no answer. */
  ghost function Open(s: seq<Record>, answers: map<string, seq<nat>>): seq<Record> {
    if s == [] then []
    else if s[0].host in answers then Open(s[1..], answers)
    else [s[0]] + Open(s[1..], answers)
  }

  ghost function OpenOne(r: Record, answers: map<string, seq<nat>>): multiset<Record> {
    if r.host in answers then multiset{} else multiset{r}
  }

  lemma OpenStep(s: seq<Record>, answers: map<string, seq<nat>>)
    requires s != []
    ensures multiset(Open(s, answers)) == OpenOne(s[0], answers) + multiset(Open(s[1..], answers))
  {
  }

  ghost function PairsOf(r: Record, addrs: seq<nat>): multiset<Target> {
    if addrs == [] then multiset{}
    else multiset{Target(r.priority, r.weight, r.port, addrs[0])} + PairsOf(r, addrs[1..])
  }

  ghost function PairsWith(r: Record, answers: map<string, seq<nat>>): multiset<Target> {
    if r.host in answers then PairsOf(r, answers[r.host]) else multiset{}
  }

  /** Every pairing of a record with an answer for its host. */
  ghost function Pairings(s: seq<Record>, answers: map<string, seq<nat>>): multiset<Target> {
    if s == [] then multiset{} else PairsWith(s[0], answers) + Pairings(s[1..], answers)
  }

  lemma InsertAddsOne(s: seq<Target>, t: Target)
    ensures multiset(Insert(s, t)) == multiset(s) + multiset{t}
  {
    var k := Below(s, t.priority);
    assert s == s[..k] + s[k..];
  }

  lemma InsertKeepsPriority(s: seq<Target>, t: Target)
    requires ByPriority(s)
    ensures ByPriority(Insert(s, t))
  {
  }

  /** What was put in and what was denied, now and later, is what is there and what was asked for. */
  lemma AddUp(got: multiset<Target>, denied: multiset<Target>, more: multiset<Target>, pairs: multiset<Target>,
      first: multiset<Target>, had: multiset<Target>, asked: multiset<Target>)
    requires more + first == had + asked
    requires got + denied == more + pairs
    ensures got + (first + denied) == had + (asked + pairs)
  {
    forall t ensures (got + (first + denied))[t] == (had + (asked + pairs))[t] {
      assert (more + first)[t] == (had + asked)[t];
      assert (got + denied)[t] == (more + pairs)[t];
    }
  }

  lemma {:induction false} AddAllKeeps(ina: seq<Target>, r: Record, addrs: seq<nat>, grants: seq<bool>, n: nat)
    ensures multiset(AddAll(ina, r, addrs, grants, n)) + Denied(r, addrs, grants, n) ==
      multiset(ina) + PairsOf(r, addrs)
    ensures ByPriority(ina) ==> ByPriority(AddAll(ina, r, addrs, grants, n))
    decreases |addrs|
  {
    if addrs != [] {
      var t := Pair(r, addrs[0]);
      InsertAddsOne(ina, t);
      if ByPriority(ina) { InsertKeepsPriority(ina, t); }
      var more := if Granted(grants, n) then Insert(ina, t) else ina;
      var first := if Granted(grants, n) then multiset{} else multiset{t};
      AddAllKeeps(more, r, addrs[1..], grants, n + 1);
      AddUp(multiset(AddAll(ina, r, addrs, grants, n)), Denied(r, addrs[1..], grants, n + 1), multiset(more),
        PairsOf(r, addrs[1..]), first, multiset(ina), multiset{t});
    }
  }

  lemma {:induction false} NothingDenied(r: Record, addrs: seq<nat>, grants: seq<bool>, n: nat)
    requires forall i :: n <= i < |grants| ==> grants[i]
    ensures Denied(r, addrs, grants, n) == multiset{}
    decreases |addrs|
  {
    if addrs != [] { NothingDenied(r, addrs[1..], grants, n + 1); }
  }

  /** Where every node is given, no address is dropped. */
  lemma {:induction false} NothingDeniedAtAll(srv: seq<Record>, host: string, addrs: seq<nat>, grants: seq<bool>,
      n: nat)
    requires forall i :: n <= i < |grants| ==> grants[i]
    ensures DeniedAll(srv, host, addrs, grants, n) == multiset{}
    decreases |srv|
  {
    if srv != [] {
      NothingDenied(srv[0], addrs, grants, n);
      NothingDeniedAtAll(srv[1..], host, addrs, grants, if srv[0].host != host then n else n + |addrs|);
    }
  }

  /** One pass over the records: the survivors are the records of the other hosts. */
  lemma {:induction false} DistributeKeepsOthers(srv: seq<Record>, host: string, addrs: seq<nat>, grants: seq<bool>,
      n: nat, kept: seq<Record>, ina: seq<Target>)
    ensures multiset(Distribute(srv, host, addrs, grants, n, kept, ina).0) ==
      multiset(kept) + multiset(Open(srv, map[host := addrs]))
    decreases |srv|
  {
    if srv != [] {
      OpenStep(srv, map[host := addrs]);
      if srv[0].host != host {
        DistributeKeepsOthers(srv[1..], host, addrs, grants, n, [srv[0]] + kept, ina);
        assert multiset([srv[0]] + kept) == multiset{srv[0]} + multiset(kept);
      } else {
        var more := AddAll(ina, srv[0], addrs, grants, n);
        DistributeKeepsOthers(srv[1..], host, addrs, grants, n + |addrs|, kept, more);
      }
    }
  }

  lemma OtherHostsPass(srv: seq<Record>, host: string, addrs: seq<nat>, grants: seq<bool>, n: nat)
    requires srv != [] && srv[0].host != host
    ensures DeniedAll(srv, host, addrs, grants, n) == DeniedAll(srv[1..], host, addrs, grants, n)
    ensures Pairings(srv, map[host := addrs]) == Pairings(srv[1..], map[host := addrs])
  {
  }

  /**
   One pass over the records: the additions are every pairing for this host but those without a node,
   put in by priority.
   */
  lemma {:induction false} DistributeAddsPairings(srv: seq<Record>, host: string, addrs: seq<nat>, grants: seq<bool>,
      n: nat, kept: seq<Record>, ina: seq<Target>)
    ensures var ina' := Distribute(srv, host, addrs, grants, n, kept, ina).1;
      && multiset(ina') + DeniedAll(srv, host, addrs, grants, n) ==
        multiset(ina) + Pairings(srv, map[host := addrs])
      && (ByPriority(ina) ==> ByPriority(ina'))
    decreases |srv|
  {
    hide ByPriority, AddAll, Denied, PairsOf;
    if srv != [] {
      if srv[0].host != host {
        OtherHostsPass(srv, host, addrs, grants, n);
        hide Pairings, DeniedAll;
        DistributeAddsPairings(srv[1..], host, addrs, grants, n, [srv[0]] + kept, ina);
      } else {
        AddAllKeeps(ina, srv[0], addrs, grants, n);
        var more := AddAll(ina, srv[0], addrs, grants, n);
        hide Pairings, DeniedAll;
        DistributeAddsPairings(srv[1..], host, addrs, grants, n + |addrs|, kept, more);
        AddUpPass(srv, host, addrs, grants, n, ina, more, Distribute(srv, host, addrs, grants, n, kept, ina).1);
      }
    }
  }

  lemma AddUpPass(srv: seq<Record>, host: string, addrs: seq<nat>, grants: seq<bool>, n: nat, ina: seq<Target>,
      more: seq<Target>, ina': seq<Target>)
    requires srv != [] && srv[0].host == host
    requires multiset(more) + Denied(srv[0], addrs, grants, n) == multiset(ina) + PairsOf(srv[0], addrs)
    requires multiset(ina') + DeniedAll(srv[1..], host, addrs, grants, n + |addrs|) ==
      multiset(more) + Pairings(srv[1..], map[host := addrs])
    ensures multiset(ina') + DeniedAll(srv, host, addrs, grants, n) == multiset(ina) + Pairings(srv, map[host := addrs])
  {
    AddUp(multiset(ina'), DeniedAll(srv[1..], host, addrs, grants, n + |addrs|), multiset(more),
      Pairings(srv[1..], map[host := addrs]), Denied(srv[0], addrs, grants, n), multiset(ina), PairsOf(srv[0], addrs));
  }

  // ----- the sums depend on the records, not on their order -----

  lemma {:induction false} PairingsSplit(s: seq<Record>, k: nat, answers: map<string, seq<nat>>)
    requires k < |s|
    ensures Pairings(s, answers) == PairsWith(s[k], answers) + Pairings(Without(s, k), answers)
  {
    if k == 0 {
      assert Without(s, 0) == s[1..];
    } else {
      PairingsSplit(s[1..], k - 1, answers);
      WithoutLater(s, k);
      assert Without(s, k)[1..] == Without(s[1..], k - 1);
    }
  }

  /** The open records as a bag. */
  ghost function OpenBag(s: seq<Record>, answers: map<string, seq<nat>>): multiset<Record> {
    if s == [] then multiset{} else OpenOne(s[0], answers) + OpenBag(s[1..], answers)
  }

  lemma {:induction false} OpenIsBag(s: seq<Record>, answers: map<string, seq<nat>>)
    ensures multiset(Open(s, answers)) == OpenBag(s, answers)
  {
    if s != [] {
      OpenStep(s, answers);
      OpenIsBag(s[1..], answers);
    }
  }

  lemma OpenBagFirst(r: Record, s: seq<Record>, answers: map<string, seq<nat>>)
    ensures OpenBag([r] + s, answers) == OpenOne(r, answers) + OpenBag(s, answers)
  {
    assert ([r] + s)[1..] == s;
  }

  lemma {:induction false} OpenSplit(s: seq<Record>, k: nat, answers: map<string, seq<nat>>)
    requires k < |s|
    ensures OpenBag(s, answers) == OpenOne(s[k], answers) + OpenBag(Without(s, k), answers)
  {
    if k == 0 {
      assert Without(s, 0) == s[1..];
    } else {
      var rest := Without(s[1..], k - 1);
      OpenSplit(s[1..], k - 1, answers);
      WithoutLater(s, k);
      OpenBagFirst(s[0], rest, answers);
    }
  }

  /** Two lists of the same records have the same pairings and the same open records. */
  lemma {:induction false} SumsOfPermutation(s: seq<Record>, t: seq<Record>, answers: map<string, seq<nat>>)
    requires multiset(s) == multiset(t)
    ensures Pairings(s, answers) == Pairings(t, answers)
    ensures OpenBag(s, answers) == OpenBag(t, answers)
    decreases |s|
  {
    assert |multiset(s)| == |s| && |multiset(t)| == |t|;
    if s != [] {
      var k := SameHead(s, t);
      PairingsSplit(t, k, answers);
      OpenSplit(t, k, answers);
      SumsOfPermutation(s[1..], Without(t, k), answers);
    }
  }

  lemma SameHead(s: seq<Record>, t: seq<Record>) returns (k: nat)
    requires s != [] && multiset(s) == multiset(t)
    ensures k < |t| && t[k] == s[0] && multiset(s[1..]) == multiset(Without(t, k))
  {
    assert s[0] in multiset(t);
    k :| 0 <= k < |t| && t[k] == s[0];
    assert s == [s[0]] + s[1..];
    WithoutMultiset(t, k);
    assert multiset(s[1..]) == multiset(s) - multiset{s[0]};
    assert multiset(Without(t, k)) == multiset(t) - multiset{t[k]};
  }

  /** A new answer serves exactly the records that were open for it. */
  lemma {:induction false} OneMoreAnswer(s: seq<Record>, answers: map<string, seq<nat>>, host: string, addrs: seq<nat>)
    requires host !in answers
    ensures Pairings(s, answers[host := addrs]) == Pairings(s, answers) + Pairings(Open(s, answers), map[host := addrs])
    ensures Open(s, answers[host := addrs]) == Open(Open(s, answers), map[host := addrs])
    decreases |s|
  {
    if s != [] {
      OneMoreAnswer(s[1..], answers, host, addrs);
      var r, rest := s[0], Open(s[1..], answers);
      if r.host !in answers {
        assert Open(s, answers)[1..] == rest;
        assert PairsWith(r, answers[host := addrs]) == PairsWith(r, map[host := addrs]);
      } else {
        assert PairsWith(r, answers[host := addrs]) == PairsWith(r, answers);
      }
    }
  }

  // ----- field by field -----

  /** The records with these three numbers. */
  predicate HasFields(r: Record, p: nat, w: nat, q: nat) {
    r.priority == p && r.weight == w && r.port == q
  }

  /**
   How often an address is to stand in the list with these numbers: for each record with them, as often
   as the answer for its host has it.
   */
  ghost function Expected(s: seq<Record>, answers: map<string, seq<nat>>, p: nat, w: nat, q: nat, a: nat): nat {
    if s == [] then 0
    else
      Expected(s[1..], answers, p, w, q, a) +
        if HasFields(s[0], p, w, q) && s[0].host in answers then multiset(answers[s[0].host])[a] else 0
  }

  lemma {:induction false} PairsOfCount(r: Record, addrs: seq<nat>, p: nat, w: nat, q: nat, a: nat)
    ensures PairsOf(r, addrs)[Target(p, w, q, a)] == if HasFields(r, p, w, q) then multiset(addrs)[a] else 0
    decreases |addrs|
  {
    if addrs != [] {
      PairsOfCount(r, addrs[1..], p, w, q, a);
      assert addrs == [addrs[0]] + addrs[1..];
    }
  }

  lemma {:induction false} PairingsCount(s: seq<Record>, answers: map<string, seq<nat>>, p: nat, w: nat, q: nat, a: nat)
    ensures Pairings(s, answers)[Target(p, w, q, a)] == Expected(s, answers, p, w, q, a)
  {
    if s != [] {
      PairingsCount(s[1..], answers, p, w, q, a);
      if s[0].host in answers {
        PairsOfCount(s[0], answers[s[0].host], p, w, q, a);
      }
    }
  }

  /** How many of the first `m` nodes asked for with this address are refused; `n` were asked for before. */
  ghost function Refusals(addrs: seq<nat>, grants: seq<bool>, n: nat, m: nat, a: nat): nat
    requires m <= |addrs|
  {
    if m == 0 then 0
    else
      Refusals(addrs, grants, n, m - 1, a) +
        if addrs[m - 1] == a && n + m - 1 < |grants| && !grants[n + m - 1] then 1 else 0
  }

  lemma {:induction false} RefusalsFirst(addrs: seq<nat>, grants: seq<bool>, n: nat, m: nat, a: nat)
    requires 0 < m <= |addrs|
    ensures Refusals(addrs, grants, n, m, a) ==
      (if addrs[0] == a && n < |grants| && !grants[n] then 1 else 0) + Refusals(addrs[1..], grants, n + 1, m - 1, a)
  {
    if m > 1 { RefusalsFirst(addrs, grants, n, m - 1, a); }
  }

  /** Dropped are exactly the addresses whose node is refused. */
  lemma {:induction false} DeniedCount(r: Record, addrs: seq<nat>, grants: seq<bool>, n: nat, p: nat, w: nat, q: nat,
      a: nat)
    ensures Denied(r, addrs, grants, n)[Target(p, w, q, a)] ==
      if HasFields(r, p, w, q) then Refusals(addrs, grants, n, |addrs|, a) else 0
    decreases |addrs|
  {
    if addrs != [] {
      DeniedCount(r, addrs[1..], grants, n + 1, p, w, q, a);
      RefusalsFirst(addrs, grants, n, |addrs|, a);
    }
  }

  lemma {:induction false} AllOpen(s: seq<Record>)
    ensures Open(s, map[]) == s
    ensures Pairings(s, map[]) == multiset{}
  {
    if s != [] {
      AllOpen(s[1..]);
      assert s == [s[0]] + s[1..];
    }
  }
}
