/**
 The queue of pending requests as it works in place, and the reference counts of its requests.  The
 linked list stands for the queue of `Lifetimes`.
 */
module RequestQueue {
  import opened Chains
  import Lifetimes

  class Request {
    const id: nat
    var next: Request?
    var listed: bool
    var refc: int
    var cancelled: bool

    constructor (id: nat)
      ensures this.id == id && next == null && !listed && refc == 0 && !cancelled
    {
      this.id, next, listed, refc, cancelled := id, null, false, 0, false;
    }

    method IncRef()
      modifies this`refc
      ensures refc == old(refc) + 1
    {
      refc := refc + 1;
    }

    /** Tells whether the object is to be deleted, and whether only one reference is left to a cancelled one. */
    method DecRef() returns (killme: bool, signal: bool)
      modifies this`refc
      ensures refc == old(refc) - 1
      ensures killme <==> cancelled && old(refc) == 1
      ensures signal <==> cancelled && old(refc) == 2
    {
      refc := refc - 1;
      killme := refc == 0 && cancelled;
      signal := refc == 1 && cancelled;
    }
  }

  ghost function At(c: seq<Request>, i: nat): (r: Request?) {
    if i < |c| then c[i] else null
  }

  ghost predicate IsChain(head: Request?, c: seq<Request>)
    reads c`next
  {
    && head == At(c, 0) && Distinct(c)
    && forall i {:trigger c[i].next} :: 0 <= i < |c| ==> c[i].next == At(c, i + 1)
  }

  class Queue {
    var queue: Request?
    var lastid: nat

    ghost var chain: seq<Request>

    ghost predicate Valid()
      reads this, chain`next, chain`listed
    {
      IsChain(queue, chain) && forall i :: 0 <= i < |chain| ==> chain[i].listed
    }

    constructor ()
      ensures Valid() && chain == [] && lastid == Lifetimes.LastId(0)
    {
      queue, lastid, chain := null, 0, [];
    }

    /** The counter skips 0. */
    method TakeId() returns (id: nat)
      requires lastid < 0x10000
      modifies this`lastid
      ensures id == lastid == Lifetimes.NextId(old(lastid)) && 0 < id < 0x10000
    {
      lastid := (lastid + 1) % 0x10000;
      while lastid == 0
        invariant lastid < 0x10000
        invariant lastid == 0 ==> old(lastid) == 0xffff
        invariant lastid != 0 ==> lastid == Lifetimes.NextId(old(lastid))
        decreases if lastid == 0 then 1 else 0
      {
        lastid := (lastid + 1) % 0x10000;
      }
      id := lastid;
    }

    /** Makes a request: it gets the next packet number and the last place in the queue. */
    method Enlist() returns (r: Request)
      requires Valid() && lastid < 0x10000
      modifies this, chain`next
      ensures Valid() && fresh(r) && chain == old(chain) + [r]
      ensures r.id == lastid == Lifetimes.NextId(old(lastid))
      ensures r.refc == 1 && !r.cancelled
    {
      var id := TakeId();
      r := new Request(id);
      var tail: Request?, item := null, queue;
      ghost var k := 0;
      while item != null
        invariant 0 <= k <= |chain| && item == At(chain, k) && tail == (if k == 0 then null else chain[k - 1])
        decreases |chain| - k
      {
        tail, item, k := item, item.next, k + 1;
      }
      if tail == null {
        queue := r;
      } else {
        tail.next := r;
      }
      r.listed := true;
      chain := chain + [r];
      r.IncRef();
    }

    /** Hangs a node, or nothing, behind the tail: `*tail = list`. */
    method Hang(tail: Request?, list: Request?)
      modifies this`queue, (if tail == null then {} else {tail})`next
      ensures if tail == null then queue == list else tail.next == list && queue == old(queue)
    {
      if tail == null {
        queue := list;
      } else {
        tail.next := list;
      }
    }

    /** The first `k` requests of `c` are relinked without the one at `pos`; `tail` is the last of them. */
    ghost predicate HalfDone(c: seq<Request>, pos: nat, k: nat, tail: Request?)
      requires pos < |c| && k <= |c|
      reads this`queue, c`next
    {
      var n := if k <= pos then k else k - 1;
      && (if n == 0 then tail == null == queue else tail == Kept(c, pos, n - 1) && queue == Kept(c, pos, 0))
      && (forall i :: 0 <= i < n - 1 ==> Kept(c, pos, i).next == Kept(c, pos, i + 1))
      && (forall i {:trigger c[i].next} :: k <= i < |c| ==> c[i].next == At(c, i + 1))
    }

    /** The request at place `i` once the one at `pos` is out. */
    ghost function Kept(c: seq<Request>, pos: nat, i: nat): (r: Request)
      requires pos < |c| && i < |c| - 1
      ensures r in c
    {
      if i < pos then c[i] else c[i + 1]
    }

    /** One step of the pass: `list` is hung behind the tail, or left out. */
    method RelinkOne(list: Request, tail: Request?, r: Request, ghost c: seq<Request>, ghost pos: nat, ghost k: nat)
      returns (next: Request?, tail': Request?)
      requires Distinct(c) && pos < |c| && c[pos] == r && k < |c| && list == c[k] && HalfDone(c, pos, k, tail)
      modifies this`queue, c`next
      ensures next == At(c, k + 1) && HalfDone(c, pos, k + 1, tail')
    {
      next, tail' := list.next, tail;
      if list != r {
        assert list == Kept(c, pos, if k <= pos then k else k - 1);
        Hang(tail, list);
        tail' := list;
      }
    }

    lemma WholeChain(c: seq<Request>, pos: nat, tail: Request?)
      requires Distinct(c) && pos < |c| && HalfDone(c, pos, |c|, tail) && (tail != null ==> tail.next == null)
      ensures IsChain(queue, Without(c, pos))
    {
      var kept := Without(c, pos);
      WithoutDistinct(c, pos);
      assert forall i :: 0 <= i < |kept| ==> kept[i] == Kept(c, pos, i);
      hide Distinct;
    }

    /** Relinks the queue in one pass, leaving this request out. */
    method Relink(r: Request, ghost pos: nat)
      requires IsChain(queue, chain) && pos < |chain| && chain[pos] == r
      modifies this`queue, this`chain, chain`next
      ensures IsChain(queue, chain) && chain == Without(old(chain), pos)
    {
      ghost var c := chain;
      assert Distinct(c);
      hide Distinct;
      var tail: Request?, list := null, queue;
      queue := null;
      ghost var k := 0;
      while list != null
        invariant 0 <= k <= |c| && list == At(c, k) && chain == c && HalfDone(c, pos, k, tail)
        decreases |c| - k
      {
        list, tail := RelinkOne(list, tail, r, c, pos, k);
        k := k + 1;
      }
      Hang(tail, null);
      WholeChain(c, pos, tail);
      chain := Without(c, pos);
    }

    /** `unlist`: exactly this request leaves the queue, and the others keep their order. */
    method Unlist(r: Request)
      requires Valid() && (r.listed <==> r in chain)
      modifies this`queue, this`chain, chain`next, r`listed
      ensures Valid() && !r.listed && r !in chain && chain == Lifetimes.WithoutItem(old(chain), r)
    {
      if r.listed {
        ghost var pos :| 0 <= pos < |chain| && chain[pos] == r;
        WithoutItemIs(chain, pos);
        WithoutDistinct(chain, pos);
        Relink(r, pos);
        r.listed := false;
      } else {
        WithoutNothing(chain, r);
      }
    }

    /** `pick`: the first request in the queue with this packet number. */
    method Pick(id: nat) returns (r: Request?, ghost k: nat)
      requires Valid()
      ensures k <= |chain| && r == At(chain, k)
      ensures forall i :: 0 <= i < k ==> chain[i].id != id
      ensures r != null ==> r.id == id
    {
      r, k := queue, 0;
      while r != null && r.id != id
        invariant 0 <= k <= |chain| && r == At(chain, k)
        invariant forall i :: 0 <= i < k ==> chain[i].id != id
        decreases |chain| - k
      {
        r, k := r.next, k + 1;
      }
    }

    /** `request::cancel`; tells whether the object is to be deleted. */
    method Cancel(r: Request) returns (killme: bool)
      requires Valid() && (r.listed <==> r in chain)
      modifies this`queue, this`chain, chain`next, r`listed, r`cancelled, r`refc
      ensures Valid() && chain == Lifetimes.WithoutItem(old(chain), r)
      ensures !r.listed && r.cancelled && r.refc == old(r.refc) - 1
      ensures killme <==> old(r.refc) == 1
    {
      Unlist(r);
      r.cancelled := true;
      var signal;
      killme, signal := r.DecRef();
    }
  }

  lemma {:induction false} WithoutNothing(c: seq<Request>, r: Request)
    requires r !in c
    ensures Lifetimes.WithoutItem(c, r) == c
  {
    if c != [] {
      WithoutNothing(c[1..], r);
    }
  }

  /** Among distinct requests, leaving one out takes it from its one place. */
  lemma {:induction false} WithoutItemIs(c: seq<Request>, pos: nat)
    requires Distinct(c) && pos < |c|
    ensures Lifetimes.WithoutItem(c, c[pos]) == Without(c, pos)
  {
    if pos == 0 {
      WithoutNothing(c[1..], c[0]);
    } else {
      WithoutItemIs(c[1..], pos - 1);
      WithoutLater(c, pos);
    }
  }
}
