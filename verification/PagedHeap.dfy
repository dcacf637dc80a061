/**
 The paged allocator on values: pages with a stack of free slot numbers, objects as addresses.  Over
 every run, a live object is never handed out again, and live objects do not overlap.
 */
module PagedHeap {
  import opened Common
  import opened Chains

  /** The size of the back pointer in front of every object. */
  const PTR: nat := 8

  /** Where the items of a page start, the size of an object, and the free slots; the last one is handed out next. */
  datatype Page = Page(items: nat, itemsize: nat, free: seq<nat>)

  function Stride(p: Page): (s: nat)
    ensures s > 0
  {
    p.itemsize + PTR
  }

  /** `pagehead::get_item` */
  function ItemAt(p: Page, slot: nat): nat {
    p.items + Stride(p) * slot
  }

  function ObjectAt(p: Page, slot: nat): nat {
    ItemAt(p, slot) + PTR
  }

  /** The slot of an object, from its address. */
  function SlotOf(p: Page, obj: nat): nat
    requires obj >= p.items + PTR
  {
    (obj - PTR - p.items) / Stride(p)
  }

  /** The item with its back pointer at `a` lies in this page. */
  predicate Contains(p: Page, psz: nat, a: nat) {
    p.items <= a < ItemAt(p, psz)
  }

  predicate Apart(p: Page, q: Page, psz: nat) {
    ItemAt(p, psz) <= q.items || ItemAt(q, psz) <= p.items
  }

  function FirstAvailable(pages: seq<Page>): (k: nat)
    ensures k <= |pages|
    ensures forall i :: 0 <= i < k ==> pages[i].free == []
    ensures k < |pages| ==> pages[k].free != []
  {
    if pages == [] || pages[0].free != [] then 0 else 1 + FirstAvailable(pages[1..])
  }

  function NewPage(items: nat, itemsize: nat, psz: nat): Page {
    Page(items, itemsize, seq(psz, i requires 0 <= i < psz => i))
  }

  /** The page without its last free slot. */
  function Took(p: Page): Page
    requires p.free != []
  {
    p.(free := p.free[..|p.free| - 1])
  }

  function TopObject(p: Page): nat
    requires p.free != []
  {
    ObjectAt(p, p.free[|p.free| - 1])
  }

  /** `pmalloc`: `grant` is the address the system would give for the items of a new page. */
  function Malloc(pages: seq<Page>, psz: nat, itemsize: nat, grant: Option<nat>): (seq<Page>, Option<nat>)
    requires psz > 0
  {
    var k := FirstAvailable(pages);
    if k == |pages| then
      if grant.None? then (pages, None)
      else
        var p := NewPage(grant.value, itemsize, psz);
        (pages + [Took(p)], Some(TopObject(p)))
    else if pages[k].itemsize != itemsize then (pages, None)
    else (pages[k := Took(pages[k])], Some(TopObject(pages[k])))
  }

  /** The pages once a new one was made, if one was needed and could be. */
  function Extended(pages: seq<Page>, psz: nat, itemsize: nat, grant: Option<nat>): (r: seq<Page>) {
    if FirstAvailable(pages) == |pages| && grant.Some? then pages + [NewPage(grant.value, itemsize, psz)] else pages
  }

  /** A request is served from the first page with a free slot, an old one or a new one. */
  lemma ServedFrom(pages: seq<Page>, psz: nat, itemsize: nat, grant: Option<nat>)
    requires psz > 0
    ensures var k, all := FirstAvailable(pages), Extended(pages, psz, itemsize, grant);
      && (k < |all| ==> all[k].free != [])
      && Malloc(pages, psz, itemsize, grant) ==
        if k < |all| && all[k].itemsize == itemsize then (all[k := Took(all[k])], Some(TopObject(all[k])))
        else (all, None)
  {
    if FirstAvailable(pages) == |pages| && grant.Some? {
      var p := NewPage(grant.value, itemsize, psz);
      assert p.free[psz - 1] == psz - 1;
      assert (pages + [p])[|pages| := Took(p)] == pages + [Took(p)];
    }
  }

  /** The page an item's back pointer names. */
  function Owner(pages: seq<Page>, psz: nat, item: nat): (k: nat)
    ensures k <= |pages|
    ensures k < |pages| ==> Contains(pages[k], psz, item)
  {
    if pages == [] || Contains(pages[0], psz, item) then 0 else 1 + Owner(pages[1..], psz, item)
  }

  /** `pmfree` */
  function Release(pages: seq<Page>, psz: nat, obj: nat): seq<Page>
    requires obj >= PTR && Owner(pages, psz, obj - PTR) < |pages|
  {
    var k := Owner(pages, psz, obj - PTR);
    pages[k := pages[k].(free := pages[k].free + [SlotOf(pages[k], obj)])]
  }

  // ----- addresses -----

  lemma TimesStep(s: nat, i: nat, j: nat)
    requires i < j
    ensures s * i + s <= s * j
  {
    var d: nat := j - i - 1;
    assert j == i + 1 + d;
    assert s * j == s * i + s + s * d;
  }

  lemma ObjectInPage(p: Page, psz: nat, slot: nat)
    requires slot < psz
    ensures Contains(p, psz, ItemAt(p, slot)) && ItemAt(p, slot) + Stride(p) <= ItemAt(p, psz)
  {
    TimesStep(Stride(p), slot, psz);
  }

  /** The division in `pmfree` recovers the slot. */
  lemma SlotRecovered(p: Page, slot: nat)
    ensures SlotOf(p, ObjectAt(p, slot)) == slot
  {
    var s := Stride(p);
    var q := (s * slot) / s;
    assert s * slot == s * q + (s * slot) % s;
    if q < slot { TimesStep(s, q, slot); }
    if q > slot { TimesStep(s, slot, q); }
  }

  lemma SlotsApart(p: Page, i: nat, j: nat)
    requires i < j
    ensures ItemAt(p, i) + Stride(p) <= ItemAt(p, j)
  {
    TimesStep(Stride(p), i, j);
  }

  ghost predicate AllApart(pages: seq<Page>, psz: nat) {
    forall i, j :: 0 <= i < j < |pages| ==> Apart(pages[i], pages[j], psz)
  }

  /** The address of an object of a page tells the page. */
  lemma OwnerRecovered(pages: seq<Page>, psz: nat, k: nat, slot: nat)
    requires AllApart(pages, psz) && k < |pages| && slot < psz
    ensures Owner(pages, psz, ItemAt(pages[k], slot)) == k
  {
    ObjectInPage(pages[k], psz, slot);
    OwnerIs(pages, psz, ItemAt(pages[k], slot), k);
  }

  lemma {:induction false} OwnerIs(pages: seq<Page>, psz: nat, a: nat, k: nat)
    requires AllApart(pages, psz) && k < |pages| && Contains(pages[k], psz, a)
    ensures Owner(pages, psz, a) == k
  {
    if k > 0 {
      assert Apart(pages[0], pages[k], psz);
      OwnerIs(pages[1..], psz, a, k - 1);
    }
  }

  lemma SameObject(pages: seq<Page>, psz: nat, k: nat, i: nat, m: nat, j: nat)
    requires AllApart(pages, psz) && k < |pages| && m < |pages| && i < psz && j < psz
    requires ObjectAt(pages[k], i) == ObjectAt(pages[m], j)
    ensures k == m && i == j
  {
    OwnerRecovered(pages, psz, k, i);
    OwnerRecovered(pages, psz, m, j);
    SlotRecovered(pages[k], i);
    SlotRecovered(pages[m], j);
  }

  // ----- runs -----

  /** `live` and `peak` are history: the objects handed out and not released, and the most there ever were. */
  datatype Heap = Heap(pages: seq<Page>, live: set<nat>, peak: nat)

  datatype Call = Alloc(itemsize: nat, grant: Option<nat>) | Free(obj: nat)

  /** The system gives memory that is not in use; only live objects are released. */
  ghost predicate Enabled(h: Heap, psz: nat, c: Call) {
    match c
    case Alloc(itemsize, grant) =>
      grant.Some? ==> forall k :: 0 <= k < |h.pages| ==> Apart(h.pages[k], Page(grant.value, itemsize, []), psz)
    case Free(obj) => obj in h.live
  }

  function Handed(h: Heap, pages: seq<Page>, obj: Option<nat>): Heap {
    var live := if obj.Some? then h.live + {obj.value} else h.live;
    Heap(pages, live, if |live| > h.peak then |live| else h.peak)
  }

  function Do(h: Heap, psz: nat, c: Call): Heap
    requires psz > 0
  {
    match c
    case Alloc(itemsize, grant) => var (pages, obj) := Malloc(h.pages, psz, itemsize, grant); Handed(h, pages, obj)
    case Free(obj) =>
      if obj >= PTR && Owner(h.pages, psz, obj - PTR) < |h.pages|
      then h.(pages := Release(h.pages, psz, obj), live := h.live - {obj})
      else h
  }

  ghost predicate IsRun(states: seq<Heap>, calls: seq<Call>, psz: nat)
    requires psz > 0
  {
    && |states| == |calls| + 1 && states[0] == Heap([], {}, 0)
    && forall i :: 0 <= i < |calls| ==>
      Enabled(states[i], psz, calls[i]) && states[i + 1] == Do(states[i], psz, calls[i])
  }

  // ----- what every run keeps -----

  /** Free slots are distinct slots of the page. */
  ghost predicate GoodPage(p: Page, psz: nat) {
    Distinct(p.free) && forall i :: 0 <= i < |p.free| ==> p.free[i] < psz
  }

  ghost predicate IsObject(pages: seq<Page>, psz: nat, a: nat, k: nat, slot: nat) {
    k < |pages| && slot < psz && slot !in pages[k].free && a == ObjectAt(pages[k], slot)
  }

  ghost predicate IsLive(pages: seq<Page>, psz: nat, a: nat) {
    exists k: nat, slot: nat :: IsObject(pages, psz, a, k, slot)
  }

  function InUse(pages: seq<Page>, psz: nat): int {
    if pages == [] then 0 else psz - |pages[0].free| + InUse(pages[1..], psz)
  }

  ghost predicate GoodPages(pages: seq<Page>, psz: nat) {
    AllApart(pages, psz) && forall k :: 0 <= k < |pages| ==> GoodPage(pages[k], psz)
  }

  /** The free stacks are the complement of the live objects. */
  ghost predicate Lives(pages: seq<Page>, psz: nat, live: set<nat>) {
    (forall a :: a in live <==> IsLive(pages, psz, a)) && |live| == InUse(pages, psz)
  }

  ghost predicate Good(h: Heap, psz: nat) {
    && GoodPages(h.pages, psz) && Lives(h.pages, psz, h.live)
    && |h.live| <= h.peak && (|h.pages| - 1) * psz < h.peak
  }

  /** A page with no slot handed out changes nothing. */
  lemma FreshPage(pages: seq<Page>, psz: nat, p: Page)
    requires forall slot :: 0 <= slot < psz ==> slot in p.free
    ensures forall a :: IsLive(pages + [p], psz, a) <==> IsLive(pages, psz, a)
  {
    forall a ensures IsLive(pages + [p], psz, a) <==> IsLive(pages, psz, a) {
      if IsLive(pages, psz, a) {
        var k: nat, slot: nat :| IsObject(pages, psz, a, k, slot);
        assert IsObject(pages + [p], psz, a, k, slot);
      }
      if IsLive(pages + [p], psz, a) {
        var k: nat, slot: nat :| IsObject(pages + [p], psz, a, k, slot);
        assert IsObject(pages, psz, a, k, slot);
      }
    }
  }

  /** Taking the last free slot of a page makes exactly its object live, which was not live before. */
  lemma TakeMakesLive(pages: seq<Page>, psz: nat, k: nat)
    requires AllApart(pages, psz) && k < |pages| && GoodPage(pages[k], psz) && pages[k].free != []
    ensures var top := TopObject(pages[k]);
      && !IsLive(pages, psz, top)
      && forall a :: IsLive(pages[k := Took(pages[k])], psz, a) <==> IsLive(pages, psz, a) || a == top
  {
    var p, after := pages[k], pages[k := Took(pages[k])];
    var last := |p.free| - 1;
    var t, top := p.free[last], TopObject(p);
    assert p.free == p.free[..last] + [t];
    forall a ensures IsLive(pages, psz, a) ==> a != top && IsLive(after, psz, a) {
      if IsLive(pages, psz, a) {
        var m: nat, slot: nat :| IsObject(pages, psz, a, m, slot);
        assert IsObject(after, psz, a, m, slot);
        if a == top { SameObject(pages, psz, m, slot, k, t); }
      }
    }
    assert IsObject(after, psz, top, k, t);
    forall a ensures IsLive(after, psz, a) ==> IsLive(pages, psz, a) || a == top {
      if IsLive(after, psz, a) {
        var m: nat, slot: nat :| IsObject(after, psz, a, m, slot);
        if m != k || slot != t { assert IsObject(pages, psz, a, m, slot); }
      }
    }
  }

  /** Putting back the slot of a live object makes exactly this object free. */
  lemma ReleaseMakesFree(pages: seq<Page>, psz: nat, k: nat, slot: nat)
    requires AllApart(pages, psz) && k < |pages| && slot < psz && slot !in pages[k].free
    ensures var after := pages[k := pages[k].(free := pages[k].free + [slot])];
      forall a :: IsLive(after, psz, a) <==> IsLive(pages, psz, a) && a != ObjectAt(pages[k], slot)
  {
    var after, gone := pages[k := pages[k].(free := pages[k].free + [slot])], ObjectAt(pages[k], slot);
    forall a ensures IsLive(after, psz, a) ==> IsLive(pages, psz, a) && a != gone {
      if IsLive(after, psz, a) {
        var m: nat, i: nat :| IsObject(after, psz, a, m, i);
        assert IsObject(pages, psz, a, m, i);
        if a == gone { SameObject(pages, psz, m, i, k, slot); }
      }
    }
    forall a ensures IsLive(pages, psz, a) && a != gone ==> IsLive(after, psz, a) {
      if IsLive(pages, psz, a) && a != gone {
        var m: nat, i: nat :| IsObject(pages, psz, a, m, i);
        assert IsObject(after, psz, a, m, i);
      }
    }
  }

  lemma {:induction false} InUseUpdate(pages: seq<Page>, psz: nat, k: nat, p: Page)
    requires k < |pages|
    ensures InUse(pages[k := p], psz) == InUse(pages, psz) + |pages[k].free| - |p.free|
  {
    var after := pages[k := p];
    if k == 0 {
      assert after[1..] == pages[1..];
    } else {
      InUseUpdate(pages[1..], psz, k - 1, p);
      assert after[1..] == pages[1..][k - 1 := p];
    }
  }

  lemma {:induction false} InUseMore(pages: seq<Page>, psz: nat, p: Page)
    ensures InUse(pages + [p], psz) == InUse(pages, psz) + psz - |p.free|
  {
    if pages == [] {
      assert ([p])[1..] == [];
    } else {
      assert (pages + [p])[1..] == pages[1..] + [p];
      InUseMore(pages[1..], psz, p);
    }
  }

  /** With no free slot left, every slot is in use. */
  lemma {:induction false} AllInUse(pages: seq<Page>, psz: nat)
    requires forall k :: 0 <= k < |pages| ==> pages[k].free == []
    ensures InUse(pages, psz) == |pages| * psz
  {
    if pages != [] {
      AllInUse(pages[1..], psz);
    }
  }

  lemma TakeKeeps(pages: seq<Page>, psz: nat, k: nat, live: set<nat>)
    requires GoodPages(pages, psz) && Lives(pages, psz, live)
    requires k < |pages| && pages[k].free != []
    ensures TopObject(pages[k]) !in live
    ensures var after := pages[k := Took(pages[k])];
      GoodPages(after, psz) && Lives(after, psz, live + {TopObject(pages[k])})
  {
    TakeMakesLive(pages, psz, k);
    InUseUpdate(pages, psz, k, Took(pages[k]));
    ApartUpdate(pages, psz, k, Took(pages[k]));
  }

  lemma ApartUpdate(pages: seq<Page>, psz: nat, k: nat, p: Page)
    requires AllApart(pages, psz) && k < |pages| && p.items == pages[k].items && p.itemsize == pages[k].itemsize
    ensures AllApart(pages[k := p], psz)
  {
    var after := pages[k := p];
    forall i, j | 0 <= i < j < |after| ensures Apart(after[i], after[j], psz) {
      assert Apart(pages[i], pages[j], psz);
    }
  }

  lemma GrowKeeps(pages: seq<Page>, psz: nat, live: set<nat>, items: nat, itemsize: nat)
    requires GoodPages(pages, psz) && Lives(pages, psz, live)
    requires forall k :: 0 <= k < |pages| ==> Apart(pages[k], Page(items, itemsize, []), psz)
    ensures var more := pages + [NewPage(items, itemsize, psz)]; GoodPages(more, psz) && Lives(more, psz, live)
  {
    var p := NewPage(items, itemsize, psz);
    var more := pages + [p];
    forall slot | 0 <= slot < psz ensures slot in p.free {
      assert p.free[slot] == slot;
    }
    FreshPage(pages, psz, p);
    InUseMore(pages, psz, p);
    forall i, j | 0 <= i < j < |more| ensures Apart(more[i], more[j], psz) {
      if j < |pages| { assert Apart(pages[i], pages[j], psz); }
      else { assert Apart(pages[i], Page(items, itemsize, []), psz); }
    }
  }

  lemma HandedKeeps(h: Heap, psz: nat, pages: seq<Page>, obj: nat)
    requires GoodPages(pages, psz) && Lives(pages, psz, h.live + {obj}) && |h.live| <= h.peak
    requires (|pages| - 1) * psz < h.peak || (|pages| - 1) * psz < |h.live + {obj}|
    ensures Good(Handed(h, pages, Some(obj)), psz)
  {
    hide GoodPages, Lives;
  }

  lemma AllocKeeps(h: Heap, psz: nat, itemsize: nat, grant: Option<nat>)
    requires psz > 0 && Good(h, psz) && Enabled(h, psz, Alloc(itemsize, grant))
    ensures Good(Do(h, psz, Alloc(itemsize, grant)), psz)
    ensures var obj := Malloc(h.pages, psz, itemsize, grant).1; obj.Some? ==> obj.value !in h.live
  {
    hide GoodPages, Lives, ItemAt, Took, NewPage, TopObject;
    var k := FirstAvailable(h.pages);
    if k < |h.pages| {
      TakeKeeps(h.pages, psz, k, h.live);
      HandedKeeps(h, psz, h.pages[k := Took(h.pages[k])], TopObject(h.pages[k]));
    } else if grant.Some? {
      NewPageKeeps(h, psz, itemsize, grant.value);
    }
  }

  lemma NewPageKeeps(h: Heap, psz: nat, itemsize: nat, items: nat)
    requires psz > 0 && Good(h, psz) && FirstAvailable(h.pages) == |h.pages|
    requires forall k :: 0 <= k < |h.pages| ==> Apart(h.pages[k], Page(items, itemsize, []), psz)
    ensures var p := NewPage(items, itemsize, psz);
      TopObject(p) !in h.live && Good(Handed(h, h.pages + [Took(p)], Some(TopObject(p))), psz)
  {
    assert |h.live| == InUse(h.pages, psz) && |h.live| <= h.peak;
    hide GoodPages, Lives, Took, TopObject, ItemAt, Apart, Good, FirstAvailable, InUse, Handed;
    var p := NewPage(items, itemsize, psz);
    var more := h.pages + [p];
    GrowKeeps(h.pages, psz, h.live, items, itemsize);
    TakeKeeps(more, psz, |h.pages|, h.live);
    AllInUse(h.pages, psz);
    assert more[|h.pages| := Took(p)] == h.pages + [Took(p)];
    HandedGrown(h, psz, h.pages + [Took(p)], TopObject(p));
  }

  lemma HandedGrown(h: Heap, psz: nat, pages: seq<Page>, obj: nat)
    requires GoodPages(pages, psz) && Lives(pages, psz, h.live + {obj}) && |h.live| <= h.peak
    requires |pages| == |h.pages| + 1 && obj !in h.live && |h.live| == |h.pages| * psz
    ensures Good(Handed(h, pages, Some(obj)), psz)
  {
    HandedKeeps(h, psz, pages, obj);
  }

  /** Releasing a live object: its address leads to its page and slot. */
  lemma FreeKeeps(h: Heap, psz: nat, obj: nat)
    requires psz > 0 && Good(h, psz) && obj in h.live
    ensures obj >= PTR && Owner(h.pages, psz, obj - PTR) < |h.pages|
    ensures Good(Do(h, psz, Free(obj)), psz)
  {
    var k: nat, slot: nat :| IsObject(h.pages, psz, obj, k, slot);
    ReleaseIsPush(h.pages, psz, k, slot);
    ReleaseKeeps(h.pages, psz, k, slot, h.live);
    PushIsGood(h, psz, Release(h.pages, psz, obj), obj);
  }

  lemma PushIsGood(h: Heap, psz: nat, pages: seq<Page>, obj: nat)
    requires psz > 0 && Good(h, psz) && obj >= PTR && Owner(h.pages, psz, obj - PTR) < |h.pages|
    requires pages == Release(h.pages, psz, obj) && GoodPages(pages, psz) && Lives(pages, psz, h.live - {obj})
    ensures Good(Do(h, psz, Free(obj)), psz)
  {
    FewerIsGood(h, psz, pages, obj);
    hide Good, Owner, GoodPages, Lives;
  }

  lemma FewerIsGood(h: Heap, psz: nat, pages: seq<Page>, obj: nat)
    requires Good(h, psz) && |pages| == |h.pages|
    requires GoodPages(pages, psz) && Lives(pages, psz, h.live - {obj})
    ensures Good(h.(pages := pages, live := h.live - {obj}), psz)
  {
    hide GoodPages, Lives;
    assert h.live - {obj} <= h.live;
  }

  /** `pmfree` pushes the slot of a live object on the stack of its page. */
  lemma ReleaseIsPush(pages: seq<Page>, psz: nat, k: nat, slot: nat)
    requires AllApart(pages, psz) && k < |pages| && slot < psz
    ensures var obj := ObjectAt(pages[k], slot);
      && obj >= PTR && Owner(pages, psz, obj - PTR) < |pages|
      && Release(pages, psz, obj) == pages[k := pages[k].(free := pages[k].free + [slot])]
  {
    OwnerRecovered(pages, psz, k, slot);
    SlotRecovered(pages[k], slot);
  }

  lemma ReleaseKeeps(pages: seq<Page>, psz: nat, k: nat, slot: nat, live: set<nat>)
    requires GoodPages(pages, psz) && Lives(pages, psz, live)
    requires k < |pages| && slot < psz && slot !in pages[k].free
    ensures var after := pages[k := pages[k].(free := pages[k].free + [slot])];
      GoodPages(after, psz) && Lives(after, psz, live - {ObjectAt(pages[k], slot)})
  {
    var freed := pages[k].(free := pages[k].free + [slot]);
    assert IsObject(pages, psz, ObjectAt(pages[k], slot), k, slot);
    ReleaseMakesFree(pages, psz, k, slot);
    InUseUpdate(pages, psz, k, freed);
    ApartUpdate(pages, psz, k, freed);
  }

  lemma NothingIsGood(psz: nat)
    requires psz > 0
    ensures Good(Heap([], {}, 0), psz)
  {
    assert forall a :: !IsLive([], psz, a);
  }

  /** A free stack never needs more room than the page has slots. */
  lemma SlotFits(p: Page, psz: nat, slot: nat)
    requires GoodPage(p, psz) && slot < psz && slot !in p.free
    ensures |p.free| < psz
  {
    DistinctBelow(p.free + [slot], psz);
  }

  lemma {:induction false} DistinctBelow(s: seq<nat>, n: nat)
    requires Distinct(s) && forall i :: 0 <= i < |s| ==> s[i] < n
    ensures |s| <= n
    decreases n
  {
    if s != [] {
      assert s[0] < n;
      if n - 1 in s {
        var k :| 0 <= k < |s| && s[k] == n - 1;
        WithoutDistinct(s, k);
        DistinctBelow(Without(s, k), n - 1);
      } else {
        DistinctBelow(s, n - 1);
      }
    }
  }

  lemma {:induction false} RunIsGood(states: seq<Heap>, calls: seq<Call>, psz: nat, n: nat)
    requires psz > 0 && IsRun(states, calls, psz) && n < |states|
    ensures Good(states[n], psz)
  {
    if n > 0 {
      RunIsGood(states, calls, psz, n - 1);
      match calls[n - 1]
      case Alloc(itemsize, grant) => AllocKeeps(states[n - 1], psz, itemsize, grant);
      case Free(obj) => FreeKeeps(states[n - 1], psz, obj);
    } else {
      NothingIsGood(psz);
    }
  }

  // ----- what that means -----

  /** On every run: an object handed out is not live at that moment. */
  lemma NeverHandedOutTwice(states: seq<Heap>, calls: seq<Call>, psz: nat, n: nat)
    requires psz > 0 && IsRun(states, calls, psz) && n < |calls| && calls[n].Alloc?
    ensures var obj := Malloc(states[n].pages, psz, calls[n].itemsize, calls[n].grant).1;
      obj.Some? ==> obj.value !in states[n].live && states[n + 1].live == states[n].live + {obj.value}
  {
    RunIsGood(states, calls, psz, n);
    AllocKeeps(states[n], psz, calls[n].itemsize, calls[n].grant);
  }

  /** The bytes of an object with its back pointer. */
  ghost function SizeOf(pages: seq<Page>, psz: nat, obj: nat): nat
    requires obj >= PTR && Owner(pages, psz, obj - PTR) < |pages|
  {
    pages[Owner(pages, psz, obj - PTR)].itemsize
  }

  /** On every run, any two live objects, back pointers included, occupy disjoint byte ranges. */
  lemma LiveObjectsDisjoint(states: seq<Heap>, calls: seq<Call>, psz: nat, n: nat, a: nat, b: nat)
    requires psz > 0 && IsRun(states, calls, psz) && n < |states|
    requires a in states[n].live && b in states[n].live && a != b
    ensures var pages := states[n].pages;
      && a >= PTR && Owner(pages, psz, a - PTR) < |pages| && b >= PTR && Owner(pages, psz, b - PTR) < |pages|
      && (a + SizeOf(pages, psz, a) <= b - 8 || b + SizeOf(pages, psz, b) <= a - 8)
  {
    RunIsGood(states, calls, psz, n);
    var pages := states[n].pages;
    var k: nat, i: nat :| IsObject(pages, psz, a, k, i);
    var m: nat, j: nat :| IsObject(pages, psz, b, m, j);
    OwnerRecovered(pages, psz, k, i);
    OwnerRecovered(pages, psz, m, j);
    ItemsApart(pages, psz, k, i, m, j);
    hide Owner, Contains, Stride, ItemAt, Good, IsRun;
  }

  /**
   On every run, a live object with its back pointer lies in the memory that the system gave for its
   page: so many items of this size with a back pointer each.
   */
  lemma LiveObjectInside(states: seq<Heap>, calls: seq<Call>, psz: nat, n: nat, a: nat) returns (k: nat)
    requires psz > 0 && IsRun(states, calls, psz) && n < |states| && a in states[n].live
    ensures k < |states[n].pages|
    ensures var p := states[n].pages[k];
      p.items <= a - 8 && a + p.itemsize <= p.items + (p.itemsize + 8) * psz
  {
    RunIsGood(states, calls, psz, n);
    var i: nat, slot: nat :| IsObject(states[n].pages, psz, a, i, slot);
    ObjectInPage(states[n].pages[i], psz, slot);
    k := i;
  }

  /**
   What was released last is handed out next: to the next request of the size of its page, when no page in
   front of it has a free slot.
   */
  lemma LastReleasedIsNext(states: seq<Heap>, calls: seq<Call>, psz: nat, n: nat, k: nat, slot: nat, grant: Option<nat>)
    requires psz > 0 && IsRun(states, calls, psz) && n < |states| && k < |states[n].pages|
    requires IsObject(states[n].pages, psz, ObjectAt(states[n].pages[k], slot), k, slot)
    requires forall i :: 0 <= i < k ==> states[n].pages[i].free == []
    ensures var pages, obj := states[n].pages, ObjectAt(states[n].pages[k], slot);
      && obj in states[n].live
      && Malloc(Do(states[n], psz, Free(obj)).pages, psz, pages[k].itemsize, grant) == (pages, Some(obj))
  {
    var pages, obj := states[n].pages, ObjectAt(states[n].pages[k], slot);
    RunIsGood(states, calls, psz, n);
    assert IsLive(pages, psz, obj);
    ReleaseIsPush(pages, psz, k, slot);
    var freed := pages[k].(free := pages[k].free + [slot]);
    var after := pages[k := freed];
    assert after[k].free != [] && FirstAvailable(after) == k;
    assert Took(freed) == pages[k] by { assert freed.free[..|freed.free| - 1] == pages[k].free; }
    assert after[k := pages[k]] == pages;
  }

  /** Two items of the heap do not overlap. */
  lemma ItemsApart(pages: seq<Page>, psz: nat, k: nat, i: nat, m: nat, j: nat)
    requires AllApart(pages, psz) && k < |pages| && m < |pages| && i < psz && j < psz && (k != m || i != j)
    ensures var a, b := ItemAt(pages[k], i), ItemAt(pages[m], j);
      a + Stride(pages[k]) <= b || b + Stride(pages[m]) <= a
  {
    ObjectInPage(pages[k], psz, i);
    ObjectInPage(pages[m], psz, j);
    if k < m { assert Apart(pages[k], pages[m], psz); }
    else if m < k { assert Apart(pages[m], pages[k], psz); }
    else if i < j { SlotsApart(pages[k], i, j); }
    else { SlotsApart(pages[k], j, i); }
  }

  /** On every run: all pages but one could be filled by the objects that were live at the peak. */
  lemma PagesBounded(states: seq<Heap>, calls: seq<Call>, psz: nat, n: nat)
    requires psz > 0 && IsRun(states, calls, psz) && n < |states|
    ensures (|states[n].pages| - 1) * psz < states[n].peak
  {
    RunIsGood(states, calls, psz, n);
  }

  /** The peak is reached. */
  lemma {:induction false} PeakIsReached(states: seq<Heap>, calls: seq<Call>, psz: nat, n: nat) returns (m: nat)
    requires psz > 0 && IsRun(states, calls, psz) && n < |states|
    ensures m <= n && |states[m].live| == states[n].peak
  {
    if n == 0 {
      m := 0;
    } else if states[n].peak == states[n - 1].peak {
      m := PeakIsReached(states, calls, psz, n - 1);
    } else {
      m := n;
    }
  }

  /** Every page was made for objects of this size. */
  ghost predicate OneSize(pages: seq<Page>, size: nat) {
    forall k :: 0 <= k < |pages| ==> pages[k].itemsize == size
  }

  /**
   An allocation succeeds if and only if the first page with a free slot is for this size, or there
   is none and the system gives memory.
   */
  lemma SucceedsIff(pages: seq<Page>, psz: nat, itemsize: nat, grant: Option<nat>)
    requires psz > 0
    ensures var k := FirstAvailable(pages);
      Malloc(pages, psz, itemsize, grant).1.Some? <==>
        if k < |pages| then pages[k].itemsize == itemsize else grant.Some?
  {
  }

  /** While every allocation asks for one size, only the system's refusal makes one fail. */
  lemma {:induction false} OneSizeNeverRefused(states: seq<Heap>, calls: seq<Call>, psz: nat, size: nat, n: nat)
    requires psz > 0 && IsRun(states, calls, psz) && n < |states|
    requires forall i :: 0 <= i < |calls| && calls[i].Alloc? ==> calls[i].itemsize == size
    ensures OneSize(states[n].pages, size)
    ensures n < |calls| && calls[n].Alloc? && calls[n].grant.Some? ==>
      Malloc(states[n].pages, psz, size, calls[n].grant).1.Some?
  {
    if n > 0 {
      OneSizeNeverRefused(states, calls, psz, size, n - 1);
    }
  }

  /**
   With two sizes an allocation can fail although memory is at hand: once a page for the first size has
   a free slot, the second size is refused.
   */
  lemma OtherSizeRefused(psz: nat, size: nat, other: nat, items: nat, grant: Option<nat>)
    returns (states: seq<Heap>, calls: seq<Call>)
    requires psz > 1 && size != other
    ensures IsRun(states, calls, psz) && |calls| == 1
      && Malloc(states[1].pages, psz, other, grant) == (states[1].pages, None)
  {
    var c := Alloc(size, Some(items));
    states, calls := [Heap([], {}, 0), Do(Heap([], {}, 0), psz, c)], [c];
    var p := NewPage(items, size, psz);
    assert states[1].pages == [] + [Took(p)] && Took(p).free[0] == 0;
  }
}
