/**
 The service resolution request: `getsrv` with its two linked lists, relinked in place.  Each event
 handler is proved to do what `ServiceMachine` says, node payloads and order included.
 */
module GetSrv {
  import opened Chains
  import opened WeightedOrder
  import opened ServiceMachine
  import opened AddressList
  import opened DnsWire
  import opened SrvAnswers
  import Bytes
  import DnsAnswers

  /** A node of the list of SRV records. */
  class SrvNode {
    const record: Record
    var next: SrvNode?

    constructor (record: Record, next: SrvNode?)
      ensures this.record == record && this.next == next
    {
      this.record := record;
      this.next := next;
    }
  }

  ghost predicate IsSrvChain(head: SrvNode?, c: seq<SrvNode>)
    reads c`next
  {
    && head == SrvAt(c, 0)
    && (forall i {:trigger c[i].next} :: 0 <= i < |c| ==> c[i].next == SrvAt(c, i + 1))
    && Distinct(c)
  }

  ghost function SrvAt(c: seq<SrvNode>, i: nat): (n: SrvNode?) {
    if i < |c| then c[i] else null
  }

  lemma InFront(head: SrvNode?, n: SrvNode, c: seq<SrvNode>)
    requires IsSrvChain(head, c) && n !in c && n.next == head
    ensures IsSrvChain(n, [n] + c)
  {
  }

  ghost function Records(c: seq<SrvNode>): (s: seq<Record>)
    ensures |s| == |c|
    ensures forall i :: 0 <= i < |c| ==> s[i] == c[i].record
  {
    seq(|c|, i requires 0 <= i < |c| => c[i].record)
  }

  ghost predicate SrvApart(c: seq<SrvNode>, d: seq<SrvNode>) {
    forall n :: n in c ==> n !in d
  }

  class Request {
    /** List heads: `data2` and `data3` of the source's request. */
    var srv: SrvNode?
    var ina: Ina?
    var listed: bool

    ghost var srvs: seq<SrvNode>
    ghost var inas: seq<Ina>
    ghost var log: Log

    ghost predicate Valid()
      reads this, srvs`next, inas`next
    {
      IsSrvChain(srv, srvs) && IsChain(ina, inas)
    }

    ghost function Abstract(): State
      reads this
    {
      State(Records(srvs), Targets(inas), listed, log)
    }

    constructor ()
      ensures Valid() && Abstract() == INITIAL
    {
      srv, ina, listed := null, null, true;
      srvs, inas, log := [], [], EMPTY_LOG;
    }

    /** `srv::depth` of a node that stands before the whole list. */
    method Depth() returns (count: nat)
      requires Valid()
      ensures count == |srvs| + 1
    {
      count := 1;
      var item := srv;
      while item != null
        invariant 1 <= count <= |srvs| + 1
        invariant item == SrvAt(srvs, count - 1)
        decreases |srvs| + 1 - count
      {
        item := item.next;
        count := count + 1;
      }
    }

    /** Whether some record in the list has this host. */
    method IsKnown(host: string) returns (known: bool)
      requires Valid()
      ensures known == Known(Records(srvs), host)
    {
      var t := srv;
      ghost var k := 0;
      while t != null
        invariant 0 <= k <= |srvs| && t == SrvAt(srvs, k)
        invariant forall i :: 0 <= i < k ==> srvs[i].record.host != host
        decreases |srvs| - k
      {
        if t.record.host == host {
          assert Records(srvs)[k].host == host;
          return true;
        }
        t := t.next;
        k := k + 1;
      }
      return false;
    }

    /** Links a record in front of the list. */
    method LinkRecord(r: Record)
      requires Valid()
      modifies this`srv, this`srvs, this`log
      ensures Valid()
      ensures Abstract() == Accept(old(Abstract()), r)
      ensures fresh(srvs[0]) && srvs[1..] == old(srvs)
    {
      var tmp := new SrvNode(r, srv);
      hide Distinct;
      ghost var before := srvs;
      InFront(srv, tmp, srvs);
      srvs := [tmp] + srvs;
      srv := tmp;
      log := log.(accepted := log.accepted + [r]);
      assert srvs[1..] == before;
      assert Records(srvs) == [r] + Records(before);
    }

    /** The part of `on_record` behind the reading; `scheduled` says whether the address lookup could be started. */
    method TakeRecord(a: ServiceMachine.Answer, scheduled: bool)
      requires Valid() && a.Srv?
      modifies this`srv, this`srvs, this`log
      ensures Valid()
      ensures Abstract() == ServiceMachine.OnRecord(old(Abstract()), a, scheduled)
      ensures forall i :: 0 <= i < |srvs| ==> srvs[i] in old(srvs) || fresh(srvs[i])
    {
      hide IsSrvChain, IsChain;
      var depth := Depth();
      var r := Record(depth % 0x10000, a.priority, a.weight, a.port, if |a.host| < 64 then a.host else a.host[..63]);
      var known := IsKnown(a.host);
      assert r == NewRecord(Abstract(), a);
      hide NewRecord, Stored, Known, Accept;
      if known {
        LinkRecord(r);
      } else if scheduled {
        log := log.(lookups := log.lookups[r.id := a.host]);
        LinkRecord(r);
      }
    }

    /**
     `on_record`, with a cursor of its own: reads the data at `src`, which may run to the end of the packet.
     `given` says whether memory for the node is there.
     */
    method OnRecord(packet: seq<Bytes.Byte>, src: nat, given: bool, scheduled: bool)
      returns (more: bool, unavailable: bool)
      requires Valid() && src <= |packet| && SrvEnds(packet, src)
      modifies this`srv, this`srvs, this`log
      ensures Valid()
      ensures var a := SrvData(packet, src, given);
        && more == GoesOn(a) && unavailable == (a.Srv? && a.host == "")
        && Abstract() == if more then ServiceMachine.OnRecord(old(Abstract()), a, scheduled) else old(Abstract())
      ensures forall i :: 0 <= i < |srvs| ==> srvs[i] in old(srvs) || fresh(srvs[i])
    {
      hide IsSrvChain, IsChain, HostAt;
      var r := new Reader.At(packet, src);
      var ok, priority, weight, port, host := ReadSrv(r);
      if !ok {
        return false, false;
      }
      if host == "" {
        return false, true;
      }
      if !given {
        return false, false;
      }
      TakeRecord(Srv(priority, weight, port, host), scheduled);
      return true, false;
    }

    /** One round of the loop over the response: `more` when it goes on. */
    method OneAnswer(r: Reader, given: bool, scheduled: bool) returns (more: bool, unavailable: bool)
      requires Valid() && r.Valid()
      requires var next := DnsAnswers.NextRecord(r.packet, r.src);
        next.Some? && IsSrv(next.value.0) ==> SrvEnds(r.packet, next.value.1 - |next.value.0.rdata|)
      modifies this`srv, this`srvs, this`log, r
      ensures Valid() && r.Valid()
      ensures match DnsAnswers.NextRecord(r.packet, old(r.src))
        case None => !more && !unavailable && Abstract() == old(Abstract())
        case Some((rec, end)) =>
          var a := AnswerOf(r.packet, rec, end, given);
          && more == GoesOn(a) && unavailable == (a.Srv? && a.host == "") && (more ==> r.src == end)
          && Abstract() ==
            if more && a.Srv? then ServiceMachine.OnRecord(old(Abstract()), a, scheduled) else old(Abstract())
      ensures forall i :: 0 <= i < |srvs| ==> srvs[i] in old(srvs) || fresh(srvs[i])
    {
      hide IsSrvChain, IsChain;
      var kind, class_, length;
      more, kind, class_, length := DnsAnswers.ReadHead(r);
      unavailable := false;
      if more {
        if kind == TYPE_SRV && class_ == DnsAnswers.CLASS_IN {
          more, unavailable := OnRecord(r.packet, r.src, given, scheduled);
        }
        if more {
          r.Skip(length);
        }
      }
    }

    /** One round, with what the rest of the loop is to come to. */
    method NextAnswer(r: Reader, nodes: seq<bool>, scheduled: seq<bool>, idx: nat, ghost n: nat,
        ghost all: (State, bool))
      returns (more: bool, unavailable: bool)
      requires Valid() && r.Valid() && n > 0 && idx + n <= |scheduled|
      requires AnswersEnd(r.packet, r.src, n, nodes, idx)
      requires Collect(Abstract(), Answers(r.packet, r.src, n, nodes, idx), scheduled[idx..]) == all
      modifies this`srv, this`srvs, this`log, r
      ensures Valid() && r.Valid()
      ensures if more then
          && !unavailable && AnswersEnd(r.packet, r.src, n - 1, nodes, idx + 1)
          && Collect(Abstract(), Answers(r.packet, r.src, n - 1, nodes, idx + 1), scheduled[idx + 1..]) == all
        else (Abstract(), unavailable) == all
      ensures forall i :: 0 <= i < |srvs| ==> srvs[i] in old(srvs) || fresh(srvs[i])
    {
      AnswersFront(Abstract(), r.packet, r.src, n, nodes, idx, scheduled[idx..]);
      assert scheduled[idx..][1..] == scheduled[idx + 1..];
      hide Collect, Answers, AnswersEnd, AnswerOf, SrvEnds, DnsAnswers.NextRecord, IsSrvChain, IsChain;
      more, unavailable := OneAnswer(r, Given(nodes, idx), scheduled[idx]);
    }

    /** The loop over the response; `unavailable` when an empty host name ended it. */
    method TakeAnswers(r: Reader, ancount: nat, nodes: seq<bool>, scheduled: seq<bool>) returns (unavailable: bool)
      requires Valid() && r.Valid() && |scheduled| >= ancount
      requires AnswersEnd(r.packet, r.src, ancount, nodes, 0)
      modifies this`srv, this`srvs, this`log, r
      ensures Valid() && r.Valid()
      ensures (Abstract(), unavailable) ==
        Collect(old(Abstract()), Answers(r.packet, old(r.src), ancount, nodes, 0), scheduled)
      ensures forall i :: 0 <= i < |srvs| ==> srvs[i] in old(srvs) || fresh(srvs[i])
    {
      hide IsSrvChain, IsChain, Collect, Answers, AnswersEnd;
      var idx, more := 0, true;
      unavailable := false;
      ghost var all := Collect(Abstract(), Answers(r.packet, r.src, ancount, nodes, 0), scheduled);
      assert scheduled[0..] == scheduled;
      while more && idx < ancount
        invariant 0 <= idx <= ancount && Valid() && r.Valid()
        invariant if more then
            && !unavailable && AnswersEnd(r.packet, r.src, ancount - idx, nodes, idx)
            && Collect(Abstract(), Answers(r.packet, r.src, ancount - idx, nodes, idx), scheduled[idx..]) == all
          else (Abstract(), unavailable) == all
        invariant forall i :: 0 <= i < |srvs| ==> srvs[i] in old(srvs) || fresh(srvs[i])
        decreases ancount - idx
      {
        more, unavailable := NextAnswer(r, nodes, scheduled, idx, ancount - idx, all);
        idx := idx + 1;
      }
      if more { NoneLeft(Abstract(), r.packet, r.src, nodes, idx, scheduled[idx..]); }
    }

    /** `on_event`: reads the records of the response, and gives up when none was accepted. */
    method OnEvent(r: Reader, h: Header, nodes: seq<bool>, scheduled: seq<bool>)
      requires Valid() && r.Valid() && |scheduled| >= h.f.ancount
      requires ResponseEnds(r.packet, r.src, h.f, nodes)
      modifies this, r, h
      ensures Valid()
      ensures Abstract() ==
        OnResponse(old(Abstract()), ResponseAnswers(r.packet, old(r.src), old(h.f), nodes), scheduled)
      ensures forall i :: 0 <= i < |srvs| ==> srvs[i] in old(srvs) || fresh(srvs[i])
    {
      hide Answers, AnswersEnd;
      var unavailable := false;
      var ok := DnsAnswers.SkipEcho(r, h);
      if ok {
        unavailable := TakeAnswers(r, h.f.ancount, nodes, scheduled);
      }
      log := log.(responded := true);
      if srv == null {
        Report(if unavailable then Unavailable else NotFound);
      }
    }

    /** The dispatcher is called, then the request cancels itself. */
    method Report(r: ServiceMachine.Report)
      requires Valid()
      modifies this`listed, this`log
      ensures Valid() && Abstract() == Finish(old(Abstract()), r)
    {
      log := log.(reports := log.reports + [r]);
      listed := false;
    }

    /** Links one address in front of the first one whose priority is not lower. */
    method InsertAddress(t: Target)
      requires IsChain(ina, inas)
      modifies this`ina, this`inas, inas`next
      ensures IsChain(ina, inas)
      ensures Targets(inas) == Insert(old(Targets(inas)), t)
      ensures forall i :: 0 <= i < |inas| ==> inas[i] in old(inas) || fresh(inas[i])
    {
      ghost var k, before := Below(Targets(inas), t.priority), inas;
      var nu: Ina;
      ina, nu := InsertNode(ina, t, inas);
      inas := before[..k] + [nu] + before[k..];
      InsertedTargets(before, nu, t);
      hide IsChain;
    }

    /** Adds every address of an answer under one record, but for those whose node is refused; `n` were asked for. */
    method AddAddresses(r: Record, addrs: seq<nat>, grants: seq<bool>, n: nat)
      requires IsChain(ina, inas)
      modifies this`ina, this`inas, inas`next
      ensures IsChain(ina, inas)
      ensures Targets(inas) == AddAll(old(Targets(inas)), r, addrs, grants, n)
      ensures forall i :: 0 <= i < |inas| ==> inas[i] in old(inas) || fresh(inas[i])
    {
      hide AddAll, IsChain;
      var idx := 0;
      assert addrs[0..] == addrs;
      while idx < |addrs|
        invariant 0 <= idx <= |addrs|
        invariant IsChain(ina, inas)
        invariant AddAll(Targets(inas), r, addrs[idx..], grants, n + idx) ==
          AddAll(old(Targets(inas)), r, addrs, grants, n)
        invariant forall i :: 0 <= i < |inas| ==> inas[i] in old(inas) || fresh(inas[i])
      {
        AddAllFront(Targets(inas), r, addrs, idx, grants, n + idx);
        if Granted(grants, n + idx) {
          InsertAddress(Pair(r, addrs[idx]));
        }
        idx := idx + 1;
      }
      AddAllNone(Targets(inas), r, addrs[idx..], grants, n + idx);
    }

    /** One step of the pass over the records: the first of `rest` is kept, or becomes addresses. */
    method HandOut(tmp: SrvNode, head: SrvNode?, host: string, addrs: seq<nat>, grants: seq<bool>, n: nat,
        ghost rest: seq<SrvNode>, ghost kept: seq<SrvNode>)
      returns (next: SrvNode?, head': SrvNode?, n': nat, ghost kept': seq<SrvNode>)
      requires IsSrvChain(tmp, rest) && IsSrvChain(head, kept) && SrvApart(rest, kept) && IsChain(ina, inas)
      modifies this`ina, this`inas, inas`next, tmp`next
      ensures IsSrvChain(next, rest[1..]) && IsSrvChain(head', kept') && SrvApart(rest[1..], kept')
        && IsChain(ina, inas)
      ensures kept' == if tmp.record.host != host then [tmp] + kept else kept
      ensures Targets(inas) ==
        if tmp.record.host != host then old(Targets(inas))
        else AddAll(old(Targets(inas)), tmp.record, addrs, grants, n)
      ensures n' == if tmp.record.host != host then n else n + |addrs|
      ensures forall i :: 0 <= i < |inas| ==> inas[i] in old(inas) || fresh(inas[i])
    {
      next := tmp.next;
      if tmp.record.host != host {
        assert tmp == rest[0] && tmp !in kept;
        tmp.next := head;
        head', kept', n' := tmp, [tmp] + kept, n;
        assert forall i :: 0 <= i < |kept| ==> kept'[i + 1].next == old(kept[i].next);
        assert forall i :: 0 <= i < |inas| ==> inas[i].next == old(inas[i].next);
      } else {
        AddAddresses(tmp.record, addrs, grants, n);
        head', kept', n' := head, kept, n + |addrs|;
        assert forall i :: 0 <= i < |rest| ==> rest[i].next == old(rest[i].next);
        assert forall i :: 0 <= i < |kept| ==> kept[i].next == old(kept[i].next);
      }
    }

    /**
     The pass of `on_getaddr` over all records: afterwards those of `host` are gone, and their
     addresses are in the other list.
     */
    method Pass(host: string, addrs: seq<nat>, grants: seq<bool>)
      requires Valid()
      modifies this`srv, this`srvs, this`ina, this`inas, srvs`next, inas`next
      ensures Valid()
      ensures (Records(srvs), Targets(inas)) ==
        Distribute(old(Records(srvs)), host, addrs, grants, 0, [], old(Targets(inas)))
      ensures forall i :: 0 <= i < |srvs| ==> srvs[i] in old(srvs)
      ensures forall i :: 0 <= i < |inas| ==> inas[i] in old(inas) || fresh(inas[i])
    {
      hide Distribute, AddAll, IsSrvChain, IsChain;
      var head: SrvNode?, tmp, n := null, srv, 0;
      EmptyChain();
      HeadOf(tmp, srvs);
      ghost var rest, kept: seq<SrvNode> := srvs, [];
      while tmp != null
        invariant IsSrvChain(tmp, rest) && IsSrvChain(head, kept) && SrvApart(rest, kept) && IsChain(ina, inas)
        invariant tmp == SrvAt(rest, 0)
        invariant Distribute(Records(rest), host, addrs, grants, n, Records(kept), Targets(inas)) ==
          Distribute(old(Records(srvs)), host, addrs, grants, 0, [], old(Targets(inas)))
        invariant forall i :: 0 <= i < |rest| ==> rest[i] in old(srvs)
        invariant forall i :: 0 <= i < |kept| ==> kept[i] in old(srvs)
        invariant forall i :: 0 <= i < |inas| ==> inas[i] in old(inas) || fresh(inas[i])
        decreases |rest|
      {
        DistributeFront(rest, host, addrs, grants, n, kept, Targets(inas));
        tmp, head, n, kept := HandOut(tmp, head, host, addrs, grants, n, rest, kept);
        rest := rest[1..];
        HeadOf(tmp, rest);
      }
      DistributeNone(rest, host, addrs, grants, n, kept, Targets(inas));
      srv, srvs := head, kept;
    }

    /** `find the corresponding SRV record`: the host of the first record with this id. */
    method FindHost(id: nat) returns (base: SrvNode?)
      requires Valid()
      ensures base == SrvAt(srvs, FindId(Records(srvs), id))
    {
      ghost var k := 0;
      base := srv;
      while base != null && base.record.id != id
        invariant 0 <= k <= |srvs| && base == SrvAt(srvs, k)
        invariant forall i :: 0 <= i < k ==> srvs[i].record.id != id
        decreases |srvs| - k
      {
        base := base.next;
        k := k + 1;
      }
      FindIdIs(Records(srvs), id, k);
    }

    /** Consults the addresses in order until a connection is scheduled; `verdicts` tells how each one fares. */
    method TryNextServer(verdicts: seq<Verdict>)
      requires Valid() && |verdicts| >= |inas|
      modifies this
      ensures Valid()
      ensures Abstract() == TryNext(old(Abstract()), verdicts)
      decreases |inas|
    {
      if ina == null {
        Report(Unavailable);
      } else {
        var active := ina;
        ghost var before := inas;
        ina, inas := active.next, inas[1..];
        assert Targets(inas) == Targets(before)[1..];
        log := log.(consulted := log.consulted + [Consultation(active.target, verdicts[0])]);
        var tryNext := true;
        if verdicts[0] != FilteredOut {
          log := log.(attempted := log.attempted + [active.target]);
          if verdicts[0] == Scheduled {
            log := log.(waiting := true);
            tryNext := false;
          }
        }
        if tryNext {
          TryNextServer(verdicts[1..]);
        }
      }
    }

    method SortList(draws: seq<nat>)
      requires IsChain(ina, inas) && |draws| >= |inas|
      modifies this`ina, this`inas, inas`next
      ensures IsChain(ina, inas)
      ensures Targets(inas) == Order(old(Targets(inas)), draws)
      ensures multiset(inas) == multiset(old(inas))
    {
      ina, inas := SortNodes(ina, draws, inas);
    }

    /** `getsrv::sort`: the same nodes, relinked in the order the draws give. */
    method Sort(draws: seq<nat>)
      requires Valid() && |draws| >= |inas|
      modifies this`ina, this`inas, this`log, inas`next
      ensures Valid()
      ensures Abstract() == Sorted(old(Abstract()), draws)
      ensures Targets(inas) == log.order == Order(old(Targets(inas)), draws) && srvs == old(srvs)
      ensures multiset(inas) == multiset(old(inas))
    {
      hide IsSrvChain, IsChain;
      SortList(draws);
      log := log.(order := Targets(inas));
      assert forall i :: 0 <= i < |srvs| ==> srvs[i].next == old(srvs[i].next);
    }

    /**
     `on_getaddr`: one lookup was answered.  The request is found through the queue, so only a
     listed one hears of it.
     */
    method OnGetaddr(id: nat, addrs: seq<nat>, grants: seq<bool>, draws: seq<nat>, verdicts: seq<Verdict>)
      requires Valid()
      requires |draws| >= |BeforeSort(Abstract(), id, addrs, grants).ina|
        && |verdicts| >= |BeforeSort(Abstract(), id, addrs, grants).ina|
      modifies this, srvs`next, inas`next
      ensures Valid()
      ensures Abstract() == OnResolved(old(Abstract()), id, addrs, grants, draws, verdicts)
    {
      hide IsSrvChain, IsChain;
      var found := TakeAnswer(id, addrs, grants);
      if found && srv == null {
        Connect(draws, verdicts);
      }
    }

    /** The part of `on_getaddr` before the sort; `found` when the answer belongs to a record of a listed request. */
    method TakeAnswer(id: nat, addrs: seq<nat>, grants: seq<bool>) returns (found: bool)
      requires Valid()
      modifies this, srvs`next, inas`next
      ensures Valid()
      ensures Abstract() == BeforeSort(old(Abstract()), id, addrs, grants)
      ensures found <==> old(listed) && FindId(old(Records(srvs)), id) < |old(srvs)|
      ensures found ==> (srv == null <==> Records(srvs) == [])
      ensures forall i :: 0 <= i < |inas| ==> inas[i] in old(inas) || fresh(inas[i])
    {
      hide IsSrvChain, IsChain, Distribute;
      Forget(id);
      if !listed {
        return false;
      }
      var base := FindHost(id);
      if base == null {
        return false;
      }
      ApplyAnswer(base.record.host, addrs, grants);
      HeadOf(srv, srvs);
      return true;
    }

    /** A lookup was answered. */
    method Forget(id: nat)
      requires Valid()
      modifies this`log
      ensures Valid() && Abstract() == Answered(old(Abstract()), id)
    {
      log := log.(lookups := LookupsLeft(log.lookups, id));
    }

    /** All lookups answered: sort, then start connecting. */
    method Connect(draws: seq<nat>, verdicts: seq<Verdict>)
      requires Valid() && |draws| >= |inas| && |verdicts| >= |inas|
      modifies this, inas`next
      ensures Valid()
      ensures Abstract() == TryNext(Sorted(old(Abstract()), draws), verdicts)
    {
      hide IsSrvChain, IsChain;
      Sort(draws);
      assert |inas| == |Targets(inas)|;
      TryNextServer(verdicts);
    }

    method ApplyAnswer(host: string, addrs: seq<nat>, grants: seq<bool>)
      requires Valid()
      modifies this`srv, this`srvs, this`ina, this`inas, this`log, srvs`next, inas`next
      ensures Valid()
      ensures var (kept, ina) := Distribute(old(Records(srvs)), host, addrs, grants, 0, [], old(Targets(inas)));
        Abstract() == old(Abstract()).(srv := kept, ina := ina,
          log := old(log).(answers := old(log).answers[host := addrs],
            dropped := old(log).dropped + DeniedAll(old(Records(srvs)), host, addrs, grants, 0)))
      ensures forall i :: 0 <= i < |inas| ==> inas[i] in old(inas) || fresh(inas[i])
    {
      hide IsSrvChain, IsChain;
      ghost var denied := DeniedAll(Records(srvs), host, addrs, grants, 0);
      Pass(host, addrs, grants);
      log := log.(answers := log.answers[host := addrs], dropped := log.dropped + denied);
    }

    /** `try_next_server_disp`: an event of a connection attempt. */
    method OnConnection(isConnect: bool, ok: bool, verdicts: seq<Verdict>)
      requires Valid()
      requires isConnect && !ok ==> |verdicts| >= |inas|
      modifies this
      ensures Valid()
      ensures Abstract() ==
        if !isConnect then OnAttemptClosed(old(Abstract()))
        else if ok then OnConnectOk(old(Abstract()))
        else OnConnectFailed(old(Abstract()), verdicts)
    {
      log := log.(waiting := false);
      if !listed {
        if !isConnect { log := log.(stalled := false); }
        return;
      }
      if !isConnect {
        log := log.(stalled := true);
        return;
      }
      if ok {
        Report(Connected);
        srv, ina, srvs, inas := null, null, [], [];
        return;
      }
      TryNextServer(verdicts);
    }
  }

  /** What the loop over the response makes of the next record. */
  lemma AnswersFront(st: State, p: seq<Bytes.Byte>, src: nat, n: nat, nodes: seq<bool>, k: nat, scheduled: seq<bool>)
    requires src <= |p| && 0 < n <= |scheduled| && AnswersEnd(p, src, n, nodes, k)
    ensures var all := Collect(st, Answers(p, src, n, nodes, k), scheduled);
      match DnsAnswers.NextRecord(p, src)
      case None => all == (st, false)
      case Some((rec, end)) =>
        var a := AnswerOf(p, rec, end, Given(nodes, k));
        && (IsSrv(rec) ==> SrvEnds(p, end - |rec.rdata|))
        && (GoesOn(a) ==> AnswersEnd(p, end, n - 1, nodes, k + 1))
        && all == if !GoesOn(a) then (st, a.Srv?)
          else Collect(if a.Srv? then ServiceMachine.OnRecord(st, a, scheduled[0]) else st,
            Answers(p, end, n - 1, nodes, k + 1), scheduled[1..])
  {
    hide DnsAnswers.NextRecord, AnswerOf;
    if DnsAnswers.NextRecord(p, src).Some? {
      var (rec, end) := DnsAnswers.NextRecord(p, src).value;
      var a := AnswerOf(p, rec, end, Given(nodes, k));
      assert GoesOn(a) ==> ([a] + Answers(p, end, n - 1, nodes, k + 1))[1..] == Answers(p, end, n - 1, nodes, k + 1);
    }
  }

  lemma NoneLeft(st: State, p: seq<Bytes.Byte>, src: nat, nodes: seq<bool>, k: nat, scheduled: seq<bool>)
    requires src <= |p|
    ensures Collect(st, Answers(p, src, 0, nodes, k), scheduled) == (st, false)
  {
  }

  lemma InsertedTargets(c: seq<Ina>, nu: Ina, t: Target)
    requires nu.target == t
    ensures var k := Below(Targets(c), t.priority);
      Targets(c[..k] + [nu] + c[k..]) == Insert(Targets(c), t)
  {
  }

  lemma AddAllFront(ina: seq<Target>, r: Record, addrs: seq<nat>, idx: nat, grants: seq<bool>, n: nat)
    requires idx < |addrs|
    ensures AddAll(ina, r, addrs[idx..], grants, n) ==
      AddAll(if Granted(grants, n) then Insert(ina, Pair(r, addrs[idx])) else ina, r, addrs[idx + 1..], grants, n + 1)
  {
    assert addrs[idx..][1..] == addrs[idx + 1..];
  }

  lemma AddAllNone(ina: seq<Target>, r: Record, addrs: seq<nat>, grants: seq<bool>, n: nat)
    requires addrs == []
    ensures AddAll(ina, r, addrs, grants, n) == ina
  {
  }

  /** One step of the pass, on the payloads. */
  lemma DistributeFront(rest: seq<SrvNode>, host: string, addrs: seq<nat>, grants: seq<bool>, n: nat,
      kept: seq<SrvNode>, ina: seq<Target>)
    requires rest != []
    ensures Distribute(Records(rest), host, addrs, grants, n, Records(kept), ina) ==
      if rest[0].record.host != host then
        Distribute(Records(rest[1..]), host, addrs, grants, n, Records([rest[0]] + kept), ina)
      else
        Distribute(Records(rest[1..]), host, addrs, grants, n + |addrs|, Records(kept),
          AddAll(ina, rest[0].record, addrs, grants, n))
  {
    assert Records(rest)[1..] == Records(rest[1..]);
    assert Records([rest[0]] + kept) == [rest[0].record] + Records(kept);
  }

  lemma DistributeNone(rest: seq<SrvNode>, host: string, addrs: seq<nat>, grants: seq<bool>, n: nat,
      kept: seq<SrvNode>, ina: seq<Target>)
    requires rest == []
    ensures Distribute(Records(rest), host, addrs, grants, n, Records(kept), ina) == (Records(kept), ina)
  {
  }

  lemma HeadOf(head: SrvNode?, c: seq<SrvNode>)
    requires IsSrvChain(head, c)
    ensures head == SrvAt(c, 0)
  {
  }

  lemma EmptyChain()
    ensures IsSrvChain(null, [])
  {
  }

  lemma FindIdIs(s: seq<Record>, id: nat, k: nat)
    requires k <= |s|
    requires forall i :: 0 <= i < k ==> s[i].id != id
    requires k < |s| ==> s[k].id == id
    ensures FindId(s, id) == k
  {
  }
}
