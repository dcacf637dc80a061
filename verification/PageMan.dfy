/**
 The paged allocator as it works in place: a chain of pages, each with a stack of free slot numbers,
 and a back pointer in front of every item.  Each call is proved to do what `PagedHeap` says.
 */
module PageMan {
  import opened Common
  import opened Chains
  import opened PagedHeap

  class PageHead {
    var next: PageHead?
    const itemsize: nat
    var available: nat
    const index: array<nat>
    const items: nat

    /** The page stands for `p`: the free slots are the first `available` entries of `index`. */
    ghost predicate Holds(p: Page)
      reads this`available, index
    {
      && items == p.items && itemsize == p.itemsize && available == |p.free| <= index.Length
      && forall i :: 0 <= i < available ==> index[i] == p.free[i]
    }

    constructor (psz: nat, isz: nat, items: nat)
      ensures next == null && available == psz == index.Length && itemsize == isz && this.items == items && fresh(index)
    {
      next, itemsize, available, this.items := null, isz, psz, items;
      index := new nat[psz];
    }

    /** Lists every slot as free, and points every item back at this page. */
    method Fill(psz: nat, heads: map<nat, PageHead>) returns (heads': map<nat, PageHead>)
      requires available == psz == index.Length
      modifies index
      ensures Holds(NewPage(items, itemsize, psz))
      ensures forall slot: nat :: slot < psz ==> PointsTo(heads', ItemAt(NewPage(items, itemsize, psz), slot), this)
      ensures forall a :: a in heads && !Contains(NewPage(items, itemsize, psz), psz, a) ==>
        a in heads' && heads'[a] == heads[a]
    {
      heads' := heads;
      ghost var p := NewPage(items, itemsize, psz);
      var n := psz;
      while n != 0
        invariant 0 <= n <= psz
        invariant forall i :: n <= i < psz ==> index[i] == i
        invariant forall slot: nat :: n <= slot < psz ==> PointsTo(heads', ItemAt(p, slot), this)
        invariant forall a :: a in heads && !Contains(p, psz, a) ==> a in heads' && heads'[a] == heads[a]
      {
        n := n - 1;
        index[n] := n;
        ObjectInPage(p, psz, n);
        heads' := heads'[items + (itemsize + PTR) * n := this];
      }
    }

    /** `pagehead::alloc`: only objects of the page's own size. */
    method Alloc(isz: nat, ghost p: Page) returns (obj: Option<nat>)
      requires Holds(p)
      modifies this`available
      ensures if isz != itemsize || p.free == [] then obj == None && Holds(p)
        else obj == Some(TopObject(p)) && Holds(Took(p))
    {
      if isz != itemsize || available == 0 {
        return None;
      }
      available := available - 1;
      return Some(items + (itemsize + PTR) * index[available] + PTR);
    }

    /** Pushes a slot on the stack. */
    method Push(slot: nat, ghost p: Page)
      requires Holds(p) && available < index.Length
      modifies this`available, index
      ensures Holds(p.(free := p.free + [slot]))
    {
      index[available] := slot;
      available := available + 1;
    }
  }

  ghost predicate PointsTo(heads: map<nat, PageHead>, a: nat, p: PageHead) {
    a in heads && heads[a] == p
  }

  ghost function PageAt(c: seq<PageHead>, i: nat): (p: PageHead?) {
    if i < |c| then c[i] else null
  }

  /** Every item of every page points back at its page. */
  ghost predicate Backed(heads: map<nat, PageHead>, chain: seq<PageHead>, pages: seq<Page>, psz: nat)
    requires |chain| == |pages|
  {
    forall k: nat, slot: nat :: k < |pages| && slot < psz ==> PointsTo(heads, ItemAt(pages[k], slot), chain[k])
  }

  /** Each page has its own index array. */
  ghost predicate OwnIndexes(chain: seq<PageHead>, psz: nat) {
    && (forall i :: 0 <= i < |chain| ==> chain[i].index.Length == psz)
    && forall i, j :: 0 <= i < j < |chain| ==> chain[i] != chain[j] && chain[i].index != chain[j].index
  }

  ghost predicate Linked(head: PageHead?, chain: seq<PageHead>)
    reads chain`next
  {
    head == PageAt(chain, 0) && forall i {:trigger chain[i].next} :: 0 <= i < |chain| ==>
      chain[i].next == PageAt(chain, i + 1)
  }

  ghost predicate Stand(chain: seq<PageHead>, pages: seq<Page>)
    requires |chain| == |pages|
    reads chain`available, set i | 0 <= i < |chain| :: chain[i].index
  {
    forall i :: 0 <= i < |chain| ==> chain[i].Holds(pages[i])
  }

  class PageManager {
    const pagesize: nat
    var head: PageHead?

    /** The memory words in front of the objects. */
    var heads: map<nat, PageHead>

    ghost var chain: seq<PageHead>
    ghost var heap: Heap

    ghost var Repr: set<object>

    /** The chain stands for these pages. */
    ghost predicate Shaped(pages: seq<Page>)
      reads this`head, this`heads, this`chain, this`Repr, Repr
    {
      && |chain| == |pages| && this !in Repr
      && (forall i :: 0 <= i < |chain| ==> chain[i] in Repr && chain[i].index in Repr)
      && Linked(head, chain) && OwnIndexes(chain, pagesize) && Stand(chain, pages)
      && Backed(heads, chain, pages, pagesize)
    }

    ghost predicate Valid()
      reads this, Repr
    {
      pagesize > 0 && Shaped(heap.pages) && Good(heap, pagesize)
    }

    constructor (pagesize: nat)
      requires pagesize > 0
      ensures Valid() && this.pagesize == pagesize && heap == Heap([], {}, 0)
    {
      this.pagesize, head, heads := pagesize, null, map[];
      chain, heap, Repr := [], Heap([], {}, 0), {};
      new;
      NothingIsGood(pagesize);
    }

    /** The first page with a free slot, and the one before it. */
    method FindPage() returns (prev: PageHead?, item: PageHead?, ghost k: nat)
      requires Valid()
      ensures k == FirstAvailable(heap.pages)
      ensures item == PageAt(chain, k) && prev == if k == 0 then null else chain[k - 1]
    {
      prev, item, k := null, head, 0;
      while item != null && item.available == 0
        invariant 0 <= k <= |chain| && item == PageAt(chain, k) && prev == if k == 0 then null else chain[k - 1]
        invariant forall i :: 0 <= i < k ==> heap.pages[i].free == []
        decreases |chain| - k
      {
        assert chain[k].Holds(heap.pages[k]);
        prev, item, k := item, item.next, k + 1;
      }
      assert k < |chain| ==> chain[k].Holds(heap.pages[k]);
      FirstAvailableIs(heap.pages, k);
    }

    /** Links a page behind the last one: `*item = page`. */
    method LinkPage(prev: PageHead?, page: PageHead, ghost pages: seq<Page>, ghost p: Page)
      requires |chain| == |pages| && this !in Repr
      requires forall i :: 0 <= i < |chain| ==> chain[i] in Repr && chain[i].index in Repr
      requires Linked(head, chain) && OwnIndexes(chain, pagesize) && Stand(chain, pages)
      requires Backed(heads, chain + [page], pages + [p], pagesize)
      requires prev == (if chain == [] then null else chain[|chain| - 1])
      requires page !in Repr && page.index !in Repr
      requires page.next == null && page.index.Length == pagesize && page.Holds(p)
      modifies this`head, this`chain, this`Repr, chain`next
      ensures Shaped(pages + [p]) && chain == old(chain) + [page] && Repr == old(Repr) + {page, page.index}
    {
      OwnIndexesMore(chain, pagesize, page);
      StandMore(chain, pages, page, p);
      hide Backed, OwnIndexes, Stand;
      if prev == null {
        head := page;
      } else {
        prev.next := page;
      }
      chain, Repr := chain + [page], Repr + {page, page.index};
    }

    /** Makes a page of free slots and links it behind the last one. */
    method AddPage(prev: PageHead?, itemsize: nat, items: nat) returns (page: PageHead)
      requires Shaped(heap.pages) && prev == (if chain == [] then null else chain[|chain| - 1])
      requires forall k :: 0 <= k < |heap.pages| ==> Apart(heap.pages[k], Page(items, itemsize, []), pagesize)
      modifies this`head, this`heads, this`chain, this`Repr, chain`next
      ensures Shaped(heap.pages + [NewPage(items, itemsize, pagesize)])
      ensures chain == old(chain) + [page] && fresh(Repr - old(Repr))
    {
      ghost var p := NewPage(items, itemsize, pagesize);
      page := new PageHead(pagesize, itemsize, items);
      var heads' := page.Fill(pagesize, heads);
      BackedMore(heads, heads', chain, heap.pages, pagesize, page, p);
      hide Backed, Linked, OwnIndexes, Stand, NewPage, ItemAt, Apart;
      heads := heads';
      LinkPage(prev, page, heap.pages, p);
    }

    /** Hands out a slot of the page at position `k`, if it is for this size. */
    method TakeFrom(page: PageHead, ghost k: nat, itemsize: nat, ghost pages: seq<Page>) returns (obj: Option<nat>)
      requires Shaped(pages) && k < |chain| && page == chain[k] && pages[k].free != []
      modifies page`available
      ensures if itemsize != pages[k].itemsize then obj == None && Shaped(pages)
        else obj == Some(TopObject(pages[k])) && Shaped(pages[k := Took(pages[k])])
    {
      assert chain[k].Holds(pages[k]);
      BackedUpdate(heads, chain, pages, pagesize, k, Took(pages[k]));
      obj := page.Alloc(itemsize, pages[k]);
    }

    /** The page to serve a request from: the first with a free slot, or a new one; null when the system refuses. */
    method PageFor(itemsize: nat, grant: Option<nat>) returns (item: PageHead?)
      requires Valid() && Enabled(heap, pagesize, PagedHeap.Alloc(itemsize, grant))
      modifies this`head, this`heads, this`chain, this`Repr, chain`next
      ensures Shaped(Extended(heap.pages, pagesize, itemsize, grant))
      ensures item == PageAt(chain, FirstAvailable(heap.pages))
      ensures fresh(Repr - old(Repr))
    {
      var prev;
      ghost var k;
      hide Linked, OwnIndexes, Stand, Backed, Good, NewPage, FirstAvailable, ItemAt;
      prev, item, k := FindPage();
      if item == null && grant.Some? {
        item := AddPage(prev, itemsize, grant.value);
      }
    }

    /** `pmalloc` */
    method Pmalloc(itemsize: nat, grant: Option<nat>) returns (obj: Option<nat>)
      requires Valid() && Enabled(heap, pagesize, PagedHeap.Alloc(itemsize, grant))
      modifies this, Repr
      ensures Valid() && fresh(Repr - old(Repr))
      ensures heap == Do(old(heap), pagesize, PagedHeap.Alloc(itemsize, grant))
      ensures obj == Malloc(old(heap).pages, pagesize, itemsize, grant).1
    {
      AllocKeeps(heap, pagesize, itemsize, grant);
      ServedFrom(heap.pages, pagesize, itemsize, grant);
      hide Linked, OwnIndexes, Stand, Backed, Good, Took, NewPage, TopObject, FirstAvailable, Malloc, Extended;
      var item := PageFor(itemsize, grant);
      ghost var pages, k := Extended(heap.pages, pagesize, itemsize, grant), FirstAvailable(heap.pages);
      obj := None;
      if item != null {
        obj := TakeFrom(item, k, itemsize, pages);
      }
      heap := Do(heap, pagesize, PagedHeap.Alloc(itemsize, grant));
    }

    /** Gives a slot back to the page at position `k`. */
    method GiveBack(page: PageHead, slot: nat, ghost k: nat, ghost pages: seq<Page>)
      requires Shaped(pages) && k < |chain| && page == chain[k] && |pages[k].free| < pagesize
      modifies page`available, page.index
      ensures Shaped(pages[k := pages[k].(free := pages[k].free + [slot])])
    {
      assert chain[k].Holds(pages[k]);
      BackedUpdate(heads, chain, pages, pagesize, k, pages[k].(free := pages[k].free + [slot]));
      page.Push(slot, pages[k]);
    }

    /** Where a live object comes from. */
    lemma Find(obj: nat) returns (k: nat, slot: nat)
      requires Valid() && obj in heap.live
      ensures k < |chain| && obj >= PTR && PointsTo(heads, obj - PTR, chain[k]) && chain[k] in Repr
        && chain[k].index in Repr
      ensures chain[k].items <= obj - PTR && (obj - PTR - chain[k].items) / (chain[k].itemsize + PTR) == slot
      ensures var p := heap.pages[k];
        && |p.free| < pagesize
        && Owner(heap.pages, pagesize, obj - PTR) < |heap.pages|
        && Release(heap.pages, pagesize, obj) == heap.pages[k := p.(free := p.free + [slot])]
    {
      k, slot :| IsObject(heap.pages, pagesize, obj, k, slot);
      SlotRecovered(heap.pages[k], slot);
      ReleaseIsPush(heap.pages, pagesize, k, slot);
      SlotFits(heap.pages[k], pagesize, slot);
      assert PointsTo(heads, ItemAt(heap.pages[k], slot), chain[k]);
      assert chain[k].Holds(heap.pages[k]);
    }

    /** The back pointer leads to the page, and the address to the slot. */
    method Locate(obj: nat) returns (page: PageHead, idx: nat, ghost k: nat)
      requires Valid() && obj in heap.live
      ensures k < |chain| && page == chain[k] && page in Repr && page.index in Repr && |heap.pages[k].free| < pagesize
      ensures Do(heap, pagesize, Free(obj)).pages == heap.pages[k := heap.pages[k].(free := heap.pages[k].free + [idx])]
      ensures Good(Do(heap, pagesize, Free(obj)), pagesize)
    {
      FreeKeeps(heap, pagesize, obj);
      ghost var slot;
      k, slot := Find(obj);
      var item := obj - PTR;
      page := heads[item];
      idx := (item - page.items) / (page.itemsize + PTR);
    }

    /** `pmfree` */
    method Pmfree(obj: nat)
      requires Valid() && obj in heap.live
      modifies this, Repr
      ensures Valid() && chain == old(chain)
      ensures heap == Do(old(heap), pagesize, Free(obj))
    {
      hide Linked, OwnIndexes, Stand, Backed, Good, Do;
      var page, idx;
      ghost var k;
      page, idx, k := Locate(obj);
      GiveBack(page, idx, k, heap.pages);
      heap := Do(heap, pagesize, Free(obj));
    }
  }

  lemma OwnIndexesMore(chain: seq<PageHead>, psz: nat, page: PageHead)
    requires OwnIndexes(chain, psz) && page.index.Length == psz
    requires forall i :: 0 <= i < |chain| ==> chain[i] != page && chain[i].index != page.index
    ensures OwnIndexes(chain + [page], psz)
  {
  }

  lemma StandMore(chain: seq<PageHead>, pages: seq<Page>, page: PageHead, p: Page)
    requires |chain| == |pages| && Stand(chain, pages) && page.Holds(p)
    ensures Stand(chain + [page], pages + [p])
  {
  }

  lemma BackedUpdate(heads: map<nat, PageHead>, chain: seq<PageHead>, pages: seq<Page>, psz: nat, k: nat, p: Page)
    requires |chain| == |pages| && Backed(heads, chain, pages, psz)
    requires k < |pages| && p.items == pages[k].items && p.itemsize == pages[k].itemsize
    ensures Backed(heads, chain, pages[k := p], psz)
  {
    var after := pages[k := p];
    forall m: nat, slot: nat | m < |after| && slot < psz ensures PointsTo(heads, ItemAt(after[m], slot), chain[m]) {
      assert PointsTo(heads, ItemAt(pages[m], slot), chain[m]);
    }
  }

  lemma BackedMore(heads: map<nat, PageHead>, heads': map<nat, PageHead>, chain: seq<PageHead>, pages: seq<Page>,
      psz: nat, page: PageHead, p: Page)
    requires |chain| == |pages| && Backed(heads, chain, pages, psz)
    requires forall k :: 0 <= k < |pages| ==> Apart(pages[k], p, psz)
    requires forall slot: nat :: slot < psz ==> PointsTo(heads', ItemAt(p, slot), page)
    requires forall a :: a in heads && !Contains(p, psz, a) ==> a in heads' && heads'[a] == heads[a]
    ensures Backed(heads', chain + [page], pages + [p], psz)
  {
    var more, all := pages + [p], chain + [page];
    forall k: nat, slot: nat | k < |more| && slot < psz ensures PointsTo(heads', ItemAt(more[k], slot), all[k]) {
      if k < |pages| {
        assert PointsTo(heads, ItemAt(pages[k], slot), chain[k]);
        assert Apart(pages[k], p, psz);
        ObjectInPage(pages[k], psz, slot);
      }
    }
  }

  lemma FirstAvailableIs(pages: seq<Page>, k: nat)
    requires k <= |pages| && (forall i :: 0 <= i < k ==> pages[i].free == []) && (k < |pages| ==> pages[k].free != [])
    ensures FirstAvailable(pages) == k
  {
  }
}
