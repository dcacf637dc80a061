/**
 The order in which a service's addresses are tried: by priority, and inside one priority by
 repeated weighted random choice (RFC 2782, "Weight").  This module is the specification on
 values; `AddressList` relinks real list nodes and is proved against it.
 */
module WeightedOrder {
  import opened Common
  import opened Chains

  /** One address of a service: the fields of a `getsrv::ina` node except its link. */
  datatype Target = Target(priority: nat, weight: nat, port: nat, addr: nat)

  const UINT_RANGE: nat := 0x1_0000_0000

  /** The sum of the first `k` weights. */
  function Prefix(s: seq<Target>, k: nat): nat
    requires k <= |s|
  {
    if k == 0 then 0 else Prefix(s, k - 1) + s[k - 1].weight
  }

  /** How many leading elements have priority `p`. */
  function Leading(s: seq<Target>, p: nat): (n: nat)
    ensures n <= |s|
    ensures forall i :: 0 <= i < n ==> s[i].priority == p
    ensures n < |s| ==> s[n].priority != p
  {
    if s == [] || s[0].priority != p then 0 else 1 + Leading(s[1..], p)
  }

  function GroupSize(s: seq<Target>): nat
    requires s != []
  {
    Leading(s, s[0].priority)
  }

  /** The value a 32-bit sum of the group's weights holds. */
  function GroupSum(s: seq<Target>): nat
    requires s != []
  {
    Prefix(s, GroupSize(s)) % UINT_RANGE
  }

  /** A draw `d` reduced to the values the random source may return for this group. */
  function Reduced(s: seq<Target>, d: nat): nat
    requires s != []
  {
    if GroupSum(s) == 0 then 0 else d % GroupSum(s)
  }

  /** The walk over a group of `n`: the first position, from `k` on, that takes the rest `r`; `n` when none does. */
  function Walk(s: seq<Target>, n: nat, k: nat, r: nat): (c: nat)
    requires k <= n <= |s|
    decreases n - k
  {
    if k == n then n
    else if r == 0 || r < s[k].weight then k
    else Walk(s, n, k + 1, r - s[k].weight)
  }

  /** The element moved next, with the source's fallback to the first one. */
  function Selected(s: seq<Target>, d: nat): (k: nat)
    requires s != []
    ensures k < |s|
  {
    WalkStays(s, GroupSize(s), 0, Reduced(s, d));
    var c := Walk(s, GroupSize(s), 0, Reduced(s, d));
    if c < GroupSize(s) then c else 0
  }

  /** The whole order: one draw for each element. */
  function Order(s: seq<Target>, draws: seq<nat>): (r: seq<Target>)
    requires |draws| >= |s|
    ensures |r| == |s|
    decreases |s|
  {
    if s == [] then [] else
      var k := Selected(s, draws[0]);
      [s[k]] + Order(Without(s, k), draws[1..])
  }

  ghost predicate ByPriority(s: seq<Target>) {
    forall i, j :: 0 <= i < j < |s| ==> s[i].priority <= s[j].priority
  }

  lemma WalkStays(s: seq<Target>, n: nat, k: nat, r: nat)
    requires k <= n <= |s|
    ensures k <= Walk(s, n, k, r) <= n
    decreases n - k
  {
  }

  // ----- the walk always finds something -----

  lemma PrefixMonotone(s: seq<Target>, j: nat, k: nat)
    requires j <= k <= |s|
    ensures Prefix(s, j) <= Prefix(s, k)
  {
  }

  /**
   While the rest stays below the weight left in the group, the walk stops inside the group and
   never subtracts too much.
   */
  lemma {:induction false} WalkFinds(s: seq<Target>, n: nat, k: nat, r: nat)
    requires k < n <= |s|
    requires r == 0 || r < Prefix(s, n) - Prefix(s, k)
    ensures k <= Walk(s, n, k, r) < n
    decreases n - k
  {
    if r != 0 && r >= s[k].weight {
      assert Prefix(s, k + 1) == Prefix(s, k) + s[k].weight;
      if k + 1 < n {
        WalkFinds(s, n, k + 1, r - s[k].weight);
      }
    }
  }

  /** The "nothing suitable" fallback is never taken, whatever the weights, even when their 32-bit sum wraps. */
  lemma FallbackNeverTaken(s: seq<Target>, d: nat)
    requires s != []
    ensures Walk(s, GroupSize(s), 0, Reduced(s, d)) < GroupSize(s)
    ensures Selected(s, d) == Walk(s, GroupSize(s), 0, Reduced(s, d))
  {
    var n := GroupSize(s);
    assert GroupSum(s) <= Prefix(s, n);
    WalkFinds(s, n, 0, Reduced(s, d));
  }

  // ----- what the walk chooses -----

  /** Position `k` accepts draw `r`: its prefix sum equals the draw, or its interval holds it. */
  ghost predicate Accepts(s: seq<Target>, k: nat, r: nat)
    requires k < |s|
  {
    Prefix(s, k) == r || (Prefix(s, k) < r < Prefix(s, k + 1))
  }

  /** The walk picks the least position that accepts the draw, and every draw below the sum has one. */
  lemma {:induction false} WalkIsLeast(s: seq<Target>, n: nat, k: nat, r: nat)
    requires k < n <= |s|
    requires Prefix(s, k) <= r
    requires r < Prefix(s, n) || (r == Prefix(s, k))
    ensures var c := Walk(s, n, k, r - Prefix(s, k));
      k <= c < n && Accepts(s, c, r) && forall j :: k <= j < c ==> !Accepts(s, j, r)
    decreases n - k
  {
    var rest := r - Prefix(s, k);
    assert Prefix(s, k + 1) == Prefix(s, k) + s[k].weight;
    if rest != 0 && rest >= s[k].weight {
      assert !Accepts(s, k, r);
      if k + 1 < n {
        WalkIsLeast(s, n, k + 1, r);
      }
    }
  }

  /** The draws in `[0, sum)` that select position `k` of the group. */
  ghost predicate Selects(s: seq<Target>, n: nat, r: nat, k: nat)
    requires n <= |s|
  {
    Walk(s, n, 0, r) == k
  }

  /** An element with no weight takes one draw away from the interval of the next one that has some. */
  ghost predicate AfterZero(s: seq<Target>, k: nat)
    requires k < |s|
  {
    k > 0 && s[k - 1].weight == 0
  }

  /** The exact set of draws that selects position `k`, zero weights included. */
  lemma SelectingDraws(s: seq<Target>, n: nat, k: nat, r: nat)
    requires k < n <= |s|
    requires r < Prefix(s, n)
    ensures Selects(s, n, r, k) <==>
      if AfterZero(s, k) then Prefix(s, k) < r < Prefix(s, k + 1)
      else Prefix(s, k) == r || Prefix(s, k) < r < Prefix(s, k + 1)
  {
    WalkIsLeast(s, n, 0, r);
    var c := Walk(s, n, 0, r);
    PrefixSteps(s, k);
    if AfterZero(s, k) && r == Prefix(s, k) {
      assert Prefix(s, k - 1) == Prefix(s, k);
      assert Accepts(s, k - 1, r);
      assert c <= k - 1;
    } else if Accepts(s, k, r) {
      assert c <= k;
      if c < k {
        PrefixMonotone(s, c + 1, k);
        assert Prefix(s, c) == r;
        PrefixMonotone(s, c, k - 1);
      }
    }
  }

  lemma PrefixSteps(s: seq<Target>, k: nat)
    requires k < |s|
    ensures Prefix(s, k + 1) == Prefix(s, k) + s[k].weight
  {
  }

  /** With positive weights the draws of `k` are exactly the interval `[prefix(k), prefix(k+1))`. */
  lemma PositiveWeightsAreExact(s: seq<Target>, n: nat, k: nat, r: nat)
    requires k < n <= |s|
    requires forall i :: 0 <= i < n ==> s[i].weight > 0
    requires r < Prefix(s, n)
    ensures Selects(s, n, r, k) <==> Prefix(s, k) <= r < Prefix(s, k + 1)
  {
    SelectingDraws(s, n, k, r);
    PrefixSteps(s, k);
  }

  /** How many of the draws below `m` select position `k`. */
  ghost function Chances(s: seq<Target>, n: nat, k: nat, m: nat): (c: nat)
    requires k < n <= |s|
  {
    if m == 0 then 0 else Chances(s, n, k, m - 1) + if Selects(s, n, m - 1, k) then 1 else 0
  }

  function Max(a: int, b: int): int {
    if a < b then b else a
  }

  /** The first draw of `k`'s interval, and the end of it. */
  ghost function FirstDraw(s: seq<Target>, k: nat): nat
    requires k < |s|
  {
    if AfterZero(s, k) then Prefix(s, k) + 1 else Prefix(s, k)
  }

  ghost function EndDraw(s: seq<Target>, k: nat): nat
    requires k < |s|
  {
    Max(Prefix(s, k + 1), if AfterZero(s, k) then 0 else Prefix(s, k) + 1)
  }

  lemma {:induction false} ChancesBelow(s: seq<Target>, n: nat, k: nat, m: nat)
    requires k < n <= |s|
    requires m <= Prefix(s, n)
    ensures Chances(s, n, k, m) == Max(0, Min(m, EndDraw(s, k)) - FirstDraw(s, k))
  {
    PrefixSteps(s, k);
    if m > 0 {
      ChancesBelow(s, n, k, m - 1);
      SelectingDraws(s, n, k, m - 1);
    }
  }

  /** Exactly how many of the group's draws choose position `k`. */
  lemma ChancesExactly(s: seq<Target>, n: nat, k: nat)
    requires k < n <= |s|
    requires Prefix(s, n) > 0
    ensures Chances(s, n, k, Prefix(s, n)) ==
      if s[k].weight > 0 then (if AfterZero(s, k) then s[k].weight - 1 else s[k].weight)
      else if AfterZero(s, k) || Prefix(s, k) == Prefix(s, n) then 0 else 1
  {
    ChancesBelow(s, n, k, Prefix(s, n));
    PrefixSteps(s, k);
    PrefixMonotone(s, k + 1, n);
  }

  /** No element without weight stands before one with weight. */
  ghost predicate ZerosLast(s: seq<Target>, n: nat)
    requires n <= |s|
  {
    forall i, j :: 0 <= i < j < n && s[i].weight == 0 ==> s[j].weight == 0
  }

  lemma {:induction false} FlatWithoutWeight(s: seq<Target>, j: nat, k: nat)
    requires j <= k <= |s|
    ensures Prefix(s, j) == Prefix(s, k) <==> forall i :: j <= i < k ==> s[i].weight == 0
    decreases k - j
  {
    if j < k {
      FlatWithoutWeight(s, j, k - 1);
      PrefixMonotone(s, j, k - 1);
    }
  }

  /** A zero weight before a positive one has a neighbour pair where that happens. */
  lemma ZeroBeforeWeight(s: seq<Target>, n: nat) returns (z: nat)
    requires n <= |s| && !ZerosLast(s, n)
    ensures z + 1 < n && s[z].weight == 0 && s[z + 1].weight > 0
  {
    var i, j :| 0 <= i < j < n && s[i].weight == 0 && s[j].weight != 0;
    z := i;
    while s[z + 1].weight == 0
      invariant i <= z < j && s[z].weight == 0
      decreases j - z
    {
      z := z + 1;
    }
  }

  lemma ExactShare(s: seq<Target>, n: nat, k: nat)
    requires k < n <= |s| && Prefix(s, n) > 0 && ZerosLast(s, n)
    ensures Chances(s, n, k, Prefix(s, n)) == s[k].weight
  {
    ChancesExactly(s, n, k);
    FlatWithoutWeight(s, k, n);
  }

  /**
   Every element of a group gets exactly its weight in draws if and only if the group's elements
   without weight come last.
   */
  lemma ProportionalIffZerosLast(s: seq<Target>, n: nat)
    requires n <= |s|
    requires Prefix(s, n) > 0
    ensures (forall k :: 0 <= k < n ==> Chances(s, n, k, Prefix(s, n)) == s[k].weight) <==> ZerosLast(s, n)
  {
    if ZerosLast(s, n) {
      forall k | 0 <= k < n ensures Chances(s, n, k, Prefix(s, n)) == s[k].weight {
        ExactShare(s, n, k);
      }
    } else {
      var z := ZeroBeforeWeight(s, n);
      ChancesExactly(s, n, z + 1);
      assert Chances(s, n, z + 1, Prefix(s, n)) != s[z + 1].weight;
    }
  }

  /** Behind an address without weight, the address of weight one is never drawn first. */
  lemma ZeroTakesTheDraw(a: Target, b: Target)
    requires a.weight == 0 && b.weight == 1
    ensures Prefix([a, b], 2) == 1 && Chances([a, b], 2, 1, 1) == 0 && Chances([a, b], 2, 0, 1) == 1
  {
    var s := [a, b];
    assert Prefix(s, 1) == 0 && Prefix(s, 2) == 1;
    ChancesExactly(s, 2, 0);
    ChancesExactly(s, 2, 1);
  }

  // ----- the whole order -----

  /** For every list and every sequence of draws: a permutation of the same addresses. */
  lemma {:induction false} OrderIsPermutation(s: seq<Target>, draws: seq<nat>)
    requires |draws| >= |s|
    ensures multiset(Order(s, draws)) == multiset(s)
    decreases |s|
  {
    if s != [] {
      var k := Selected(s, draws[0]);
      WithoutMultiset(s, k);
      OrderIsPermutation(Without(s, k), draws[1..]);
    }
  }

  lemma PermutationMember(s: seq<Target>, t: seq<Target>, x: Target)
    requires multiset(s) == multiset(t)
    requires x in s
    ensures x in t
  {
    assert x in multiset(s);
  }

  /** A list ordered by priority stays ordered by priority. */
  lemma {:induction false} OrderKeepsPriority(s: seq<Target>, draws: seq<nat>)
    requires |draws| >= |s|
    requires ByPriority(s)
    ensures ByPriority(Order(s, draws))
    decreases |s|
  {
    if s != [] {
      var k := Selected(s, draws[0]);
      FallbackNeverTaken(s, draws[0]);
      OrderKeepsPriority(Without(s, k), draws[1..]);
      OrderIsPermutation(Without(s, k), draws[1..]);
      FirstOfGroupLeads(s, k, Order(Without(s, k), draws[1..]));
    }
  }

  /** An element of the first group may stand before any arrangement of the others. */
  lemma FirstOfGroupLeads(s: seq<Target>, k: nat, later: seq<Target>)
    requires k < |s| && ByPriority(s) && s[k].priority == s[0].priority
    requires multiset(later) == multiset(Without(s, k)) && ByPriority(later)
    ensures ByPriority([s[k]] + later)
  {
    forall j | 0 <= j < |later| ensures s[0].priority <= later[j].priority {
      PermutationMember(later, Without(s, k), later[j]);
      assert later[j] in s;
    }
  }

  /** Position `k` of the first group comes out first for the draw equal to its prefix sum. */
  lemma DrawFor(s: seq<Target>, k: nat)
    requires k < |s| && ByPriority(s) && s[k].priority <= s[0].priority
    requires forall i :: 0 <= i < |s| ==> s[i].weight > 0
    requires Prefix(s, |s|) < UINT_RANGE
    ensures Selected(s, Prefix(s, k)) == k
  {
    LeadingHolds(s, k);
    var n := GroupSize(s);
    PrefixMonotone(s, k + 1, n);
    PrefixMonotone(s, n, |s|);
    PrefixSteps(s, k);
    SmallDraw(s, Prefix(s, k));
    PositiveWeightsAreExact(s, n, k, Prefix(s, k));
  }

  /** A draw below an unwrapped sum is used as it is. */
  lemma SmallDraw(s: seq<Target>, d: nat)
    requires s != []
    requires d < Prefix(s, GroupSize(s)) < UINT_RANGE
    ensures Reduced(s, d) == d
  {
    ModSmall(Prefix(s, GroupSize(s)), UINT_RANGE);
    ModSmall(d, Prefix(s, GroupSize(s)));
  }

  lemma ModSmall(a: nat, m: nat)
    requires a < m
    ensures a % m == a
  {
  }

  /** With positive weights, every arrangement that respects the priorities can come out. */
  lemma {:induction false} EveryArrangementPossible(s: seq<Target>, t: seq<Target>) returns (draws: seq<nat>)
    requires ByPriority(s) && ByPriority(t)
    requires multiset(s) == multiset(t)
    requires forall i :: 0 <= i < |s| ==> s[i].weight > 0
    requires Prefix(s, |s|) < 0x1_0000_0000
    ensures |draws| == |s| && Order(s, draws) == t
    decreases |s|
  {
    assert |multiset(s)| == |s| && |multiset(t)| == |t|;
    if s == [] {
      draws := [];
    } else {
      var k := FirstWanted(s, t);
      DrawFor(s, k);
      RestKeeps(s, k);
      PrefixOfWithout(s, k, |s|);
      var later := EveryArrangementPossible(Without(s, k), t[1..]);
      draws := [Prefix(s, k)] + later;
      assert draws[1..] == later;
    }
  }

  /** The element that must come out first stands in the first group. */
  lemma FirstWanted(s: seq<Target>, t: seq<Target>) returns (k: nat)
    requires s != [] && t != [] && ByPriority(s) && ByPriority(t)
    requires multiset(s) == multiset(t)
    ensures k < |s| && s[k] == t[0] && s[k].priority <= s[0].priority
    ensures multiset(Without(s, k)) == multiset(t[1..])
  {
    PermutationMember(t, s, t[0]);
    PermutationMember(s, t, s[0]);
    k :| 0 <= k < |s| && s[k] == t[0];
    SameRest(s, k, t);
  }

  lemma RestKeeps(s: seq<Target>, k: nat)
    requires k < |s| && ByPriority(s)
    requires forall i :: 0 <= i < |s| ==> s[i].weight > 0
    ensures ByPriority(Without(s, k))
    ensures forall i :: 0 <= i < |s| - 1 ==> Without(s, k)[i].weight > 0
  {
  }

  lemma SameRest<T>(s: seq<T>, k: nat, t: seq<T>)
    requires k < |s| && t != [] && s[k] == t[0]
    requires multiset(s) == multiset(t)
    ensures multiset(Without(s, k)) == multiset(t[1..])
  {
    WithoutMultiset(s, k);
    assert t == [t[0]] + t[1..];
    assert multiset(Without(s, k)) == multiset(s) - multiset{s[k]};
    assert multiset(t[1..]) == multiset(t) - multiset{t[0]};
  }

  lemma LeadingHolds(s: seq<Target>, k: nat)
    requires k < |s| && ByPriority(s)
    requires s[k].priority <= s[0].priority
    ensures k < GroupSize(s)
  {
  }

  lemma {:induction false} PrefixOfWithout(s: seq<Target>, k: nat, m: nat)
    requires k < m <= |s|
    ensures Prefix(Without(s, k), m - 1) + s[k].weight == Prefix(s, m)
    decreases m
  {
    if m == k + 1 {
      PrefixAgrees(Without(s, k), s, k);
    } else {
      PrefixOfWithout(s, k, m - 1);
    }
  }

  lemma {:induction false} PrefixAgrees(s: seq<Target>, t: seq<Target>, k: nat)
    requires k <= |s| && k <= |t|
    requires s[..k] == t[..k]
    ensures Prefix(s, k) == Prefix(t, k)
  {
    if k > 0 {
      assert s[..k - 1] == s[..k][..k - 1] == t[..k - 1];
      assert s[k - 1] == s[..k][k - 1];
      PrefixAgrees(s, t, k - 1);
    }
  }
}
