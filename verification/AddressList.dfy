/**
 The list of resolved addresses, with real nodes: insertion by priority, and `getsrv::sort`, which
 unlinks nodes from the old list and links them to the tail of the new one through pointers to
 pointers.
 */
module AddressList {
  import opened Chains
  import opened WeightedOrder
  import opened ServiceMachine

  /** A node of the address list; what it says never changes once it is linked. */
  class Ina {
    const target: Target
    var next: Ina?

    constructor (target: Target, next: Ina?)
      ensures this.target == target && this.next == next
    {
      this.target := target;
      this.next := next;
    }
  }

  /** The nodes of `c`, in that order, are exactly the list that starts at `head`. */
  ghost predicate IsChain(head: Ina?, c: seq<Ina>)
    reads c`next
  {
    && head == At(c, 0)
    && (forall i {:trigger c[i].next} :: 0 <= i < |c| ==> c[i].next == At(c, i + 1))
    && Distinct(c)
  }

  /** The node at position `i`, or null past the end. */
  ghost function At(c: seq<Ina>, i: nat): (n: Ina?) {
    if i < |c| then c[i] else null
  }

  ghost function Last(c: seq<Ina>): (n: Ina?) {
    if c == [] then null else c[|c| - 1]
  }

  ghost function Targets(c: seq<Ina>): (s: seq<Target>)
    ensures |s| == |c|
    ensures forall i :: 0 <= i < |c| ==> s[i] == c[i].target
  {
    seq(|c|, i requires 0 <= i < |c| => c[i].target)
  }

  ghost predicate Apart(c: seq<Ina>, d: seq<Ina>) {
    forall n :: n in c ==> n !in d
  }

  /** Finds the first node whose priority is not below `p`, and the node before it. */
  method FindPlace(first: Ina?, p: nat, ghost c: seq<Ina>) returns (prev: Ina?, item: Ina?, ghost k: nat)
    requires IsChain(first, c)
    ensures k == Below(Targets(c), p)
    ensures item == At(c, k) && prev == Last(c[..k])
  {
    prev, item, k := null, first, 0;
    while item != null && item.target.priority < p
      invariant 0 <= k <= |c|
      invariant item == At(c, k) && prev == Last(c[..k])
      invariant forall i :: 0 <= i < k ==> c[i].target.priority < p
      decreases |c| - k
    {
      prev := item;
      item := item.next;
      k := k + 1;
    }
    BelowIs(Targets(c), p, k);
  }

  lemma BelowIs(s: seq<Target>, p: nat, k: nat)
    requires k <= |s|
    requires forall i :: 0 <= i < k ==> s[i].priority < p
    requires k < |s| ==> s[k].priority >= p
    ensures Below(s, p) == k
  {
  }

  /** Links one address in front of the first one whose priority is not lower. */
  method InsertNode(first: Ina?, t: Target, ghost c: seq<Ina>) returns (head: Ina, nu: Ina)
    requires IsChain(first, c)
    modifies c`next
    ensures fresh(nu) && nu.target == t
    ensures var k := Below(Targets(c), t.priority); IsChain(head, c[..k] + [nu] + c[k..])
  {
    var prev, item, k := FindPlace(first, t.priority, c);
    nu := new Ina(t, item);
    if prev == null {
      head := nu;
    } else {
      head := first;
      prev.next := nu;
    }
  }

  /** Adds up the weights of the leading group in 32 bits. */
  method SumGroup(head: Ina, ghost c: seq<Ina>) returns (rnd: nat)
    requires IsChain(head, c)
    ensures rnd == GroupSum(Targets(c)) == Prefix(Targets(c), GroupSize(Targets(c))) % 0x1_0000_0000
  {
    ghost var s := Targets(c);
    ghost var k := 0;
    var item: Ina? := head;
    rnd := 0;
    while item != null && item.target.priority == head.target.priority
      invariant 0 <= k <= |c|
      invariant item == At(c, k)
      invariant forall i :: 0 <= i < k ==> s[i].priority == s[0].priority
      invariant rnd == Prefix(s, k) % UINT_RANGE
      decreases |c| - k
    {
      PrefixSteps(s, k);
      rnd := (rnd + item.target.weight) % UINT_RANGE;
      item := item.next;
      k := k + 1;
    }
    LeadingIs(s, k);
  }

  lemma LeadingIs(s: seq<Target>, k: nat)
    requires 0 < |s| && k <= |s|
    requires forall i :: 0 <= i < k ==> s[i].priority == s[0].priority
    requires k < |s| ==> s[k].priority != s[0].priority
    ensures GroupSize(s) == k
  {
  }

  /** The search of the group: the first suitable node and the one before it; null when the walk falls off the group. */
  method FindSuitable(first: Ina, draw: nat, ghost c: seq<Ina>) returns (prev: Ina?, item: Ina?, ghost k: nat)
    requires IsChain(first, c)
    ensures k == Walk(Targets(c), GroupSize(Targets(c)), 0, draw) <= GroupSize(Targets(c)) <= |c|
    ensures k < GroupSize(Targets(c)) ==> item == c[k] && prev == Last(c[..k])
    ensures k == GroupSize(Targets(c)) ==> item == null
  {
    ghost var s := Targets(c);
    var rnd: nat := draw;
    prev, item, k := null, first, 0;
    while item != null && item.target.priority == first.target.priority
      invariant 0 <= k <= GroupSize(s)
      invariant item == At(c, k) && prev == Last(c[..k])
      invariant Walk(s, GroupSize(s), k, rnd) == Walk(s, GroupSize(s), 0, draw)
      decreases GroupSize(s) - k
    {
      if rnd == 0 || rnd < item.target.weight {
        return;
      }
      rnd := rnd - item.target.weight;
      prev := item;
      item := item.next;
      k := k + 1;
    }
    item := null;
  }

  /** Takes the node at `k` out of the list, through the pointer that leads to it. */
  method Unlink(first: Ina, prev: Ina?, item: Ina, ghost k: nat, ghost c: seq<Ina>) returns (head: Ina?)
    requires IsChain(first, c) && k < |c| && item == c[k] && prev == Last(c[..k])
    modifies c`next
    ensures IsChain(head, Without(c, k))
  {
    WithoutDistinct(c, k);
    if prev == null {
      head := item.next;
    } else {
      head := first;
      prev.next := item.next;
    }
  }

  /** The element to move next, fallback included, taken out of the list. */
  method TakeNext(first: Ina, draw: nat, ghost c: seq<Ina>) returns (head: Ina?, moved: Ina, ghost rest: seq<Ina>)
    requires IsChain(first, c)
    modifies c`next
    ensures var k := Selected(Targets(c), draw); moved == c[k] && rest == Without(c, k)
    ensures IsChain(head, rest)
  {
    var rnd := SumGroup(first, c);
    rnd := if rnd != 0 then draw % rnd else 0;
    var prev, item, k := FindSuitable(first, rnd, c);
    if item == null {
      moved := first;
      head := Unlink(first, null, first, 0, c);
      rest := Without(c, 0);
    } else {
      moved := item;
      head := Unlink(first, prev, item, k, c);
      rest := Without(c, k);
    }
  }

  /** Links a node to the end of the new list, through the pointer `last` stands for. */
  method AppendNode(first: Ina?, last: Ina?, moved: Ina, ghost out: seq<Ina>) returns (head: Ina)
    requires IsChain(first, out) && last == Last(out) && moved !in out
    modifies out`next, moved`next
    ensures IsChain(head, out + [moved])
  {
    if last == null {
      head := moved;
    } else {
      head := first;
      last.next := moved;
    }
    moved.next := null;
  }

  /** Taking an element out of the middle: what is left, node by node and payload by payload. */
  lemma TakenOut(c: seq<Ina>, k: nat)
    requires k < |c| && Distinct(c)
    ensures Targets(Without(c, k)) == Without(Targets(c), k)
    ensures c[k] !in Without(c, k)
    ensures multiset(c) == multiset(Without(c, k)) + multiset{c[k]}
  {
    WithoutMultiset(c, k);
    WithoutDistinct(c, k);
  }

  /** One round of the outer loop: one element leaves the old list and ends the new one. */
  method Round(first: Ina, nfirst: Ina?, nlast: Ina?, draw: nat, ghost rem: seq<Ina>, ghost out: seq<Ina>)
    returns (head: Ina?, nlist: Ina, last: Ina)
    requires IsChain(first, rem) && IsChain(nfirst, out) && Apart(rem, out)
    requires nlast == Last(out)
    modifies rem`next, out`next
    ensures var k := Selected(Targets(rem), draw);
      last == rem[k] && IsChain(head, Without(rem, k)) && IsChain(nlist, out + [rem[k]])
  {
    ghost var rest;
    TakenOut(rem, Selected(Targets(rem), draw));
    assert forall i :: 0 <= i < |out| ==> out[i] !in rem;
    head, last, rest := TakeNext(first, draw, rem);
    assert forall i :: 0 <= i < |out| ==> out[i].next == old(out[i].next);
    assert Apart(rest, out) && last !in rest && last !in out;
    nlist := AppendNode(nfirst, nlast, last, out);
  }

  /**
   The whole sort, one draw for each element moved.  The result is the order of the specification,
   made of the very same nodes.
   */
  method SortNodes(first: Ina?, draws: seq<nat>, ghost c: seq<Ina>) returns (nlist: Ina?, ghost out: seq<Ina>)
    requires IsChain(first, c)
    requires |draws| >= |c|
    modifies c`next
    ensures IsChain(nlist, out)
    ensures multiset(out) == multiset(c)
    ensures Targets(out) == Order(Targets(c), draws)
  {
    var head, last: Ina? := first, null;
    var i := 0;
    ghost var rem := c;
    nlist, out := null, [];
    assert Halfway(c, rem, out, i, draws) by {
      assert draws[0..] == draws;
    }
    while head != null
      invariant IsChain(head, rem) && IsChain(nlist, out) && last == Last(out)
      invariant Halfway(c, rem, out, i, draws)
      decreases |rem|
    {
      ghost var k := Selected(Targets(rem), draws[i]);
      OneMoreMoved(c, rem, out, i, draws);
      head, nlist, last := Round(head, nlist, last, draws[i], rem, out);
      out := out + [rem[k]];
      rem := Without(rem, k);
      i := i + 1;
    }
  }

  /** The nodes of `c` are shared out between `rem` and `out`. */
  ghost predicate Split(c: seq<Ina>, rem: seq<Ina>, out: seq<Ina>) {
    && multiset(out) + multiset(rem) == multiset(c)
    && (forall i :: 0 <= i < |rem| ==> rem[i] in c)
    && (forall i :: 0 <= i < |out| ==> out[i] in c)
    && Apart(rem, out)
  }

  /** After `i` rounds: what is in the new list, followed by the order of the rest, is the order of all. */
  ghost predicate Halfway(c: seq<Ina>, rem: seq<Ina>, out: seq<Ina>, i: nat, draws: seq<nat>) {
    && Split(c, rem, out)
    && i == |out| && |out| + |rem| == |c| <= |draws|
    && Targets(out) + Order(Targets(rem), draws[i..]) == Order(Targets(c), draws)
  }

  lemma OneMoreMoved(c: seq<Ina>, rem: seq<Ina>, out: seq<Ina>, i: nat, draws: seq<nat>)
    requires Halfway(c, rem, out, i, draws)
    requires rem != [] && Distinct(rem)
    ensures var k := Selected(Targets(rem), draws[i]);
      rem[k] !in out && Apart(Without(rem, k), out) && Halfway(c, Without(rem, k), out + [rem[k]], i + 1, draws)
  {
    var k := Selected(Targets(rem), draws[i]);
    SplitStep(c, rem, out, k);
    OrderStep(rem, k, out, draws[i..]);
    assert draws[i..][1..] == draws[i + 1..];
  }

  lemma SplitStep(c: seq<Ina>, rem: seq<Ina>, out: seq<Ina>, k: nat)
    requires k < |rem| && Distinct(rem)
    requires Split(c, rem, out)
    ensures Split(c, Without(rem, k), out + [rem[k]])
    ensures rem[k] !in out && Apart(Without(rem, k), out)
  {
    TakenOut(rem, k);
  }

  lemma OrderStep(c: seq<Ina>, k: nat, out: seq<Ina>, draws: seq<nat>)
    requires c != [] && |draws| >= |c| && Distinct(c)
    requires k == Selected(Targets(c), draws[0])
    ensures Targets(out) + Order(Targets(c), draws) == Targets(out + [c[k]]) + Order(Targets(Without(c, k)), draws[1..])
  {
    TakenOut(c, k);
    assert Targets(out + [c[k]]) == Targets(out) + [c[k].target];
    OneThenRest(Targets(out), c[k].target, Order(Targets(Without(c, k)), draws[1..]));
  }

  lemma OneThenRest<T>(out: seq<T>, x: T, later: seq<T>)
    ensures out + ([x] + later) == (out + [x]) + later
  {
  }
}
