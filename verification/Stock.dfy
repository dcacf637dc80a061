/**
 The handle table as it works in place: an array of slots and an array of free slot numbers, both
 reallocated when there is no free slot left.  Each call is proved to do what `HandleTable` says.
 */
module Stock {
  import opened Common
  import opened HandleTable

  class Stock {
    var data: array<Oid>
    var free: array<nat>
    var cntData: nat
    var cntFree: nat
    var seed: nat
    const pagesize: nat

    ghost predicate Stands(t: Table)
      reads this, data, free
    {
      && data.Length == free.Length == cntData == |t.slots|
      && cntFree == |t.free| <= free.Length && seed == t.seed
      && (forall i :: 0 <= i < cntData ==> data[i] == t.slots[i])
      && (forall i :: 0 <= i < cntFree ==> free[i] == t.free[i])
    }

    ghost predicate Valid(t: Table)
      reads this, data, free
    {
      pagesize > 0 && Stands(t) && Good(t)
    }

    constructor (pagesize: nat)
      requires pagesize > 0
      ensures Valid(EMPTY) && this.pagesize == pagesize && fresh(data) && fresh(free)
    {
      data, free := new Oid[0], new nat[0];
      cntData, cntFree, seed := 0, 0, 0;
      this.pagesize := pagesize;
    }

    method Size(ghost t: Table) returns (size: nat)
      requires Valid(t)
      ensures size == |Contents(t)|
    {
      SizeAgrees(t);
      size := cntData - cntFree;
    }

    /** Makes room for another page of slots and lists them as free. */
    method Grow(ghost t: Table)
      requires pagesize > 0 && Stands(t) && t.free == []
      modifies this
      ensures Stands(Grown(t, pagesize)) && fresh(data) && fresh(free)
    {
      data := Resized(data, cntData + pagesize, Oid(-1, 0));
      free := Resized(free, cntData + pagesize, 0);
      var idx := 0;
      while idx < pagesize
        invariant 0 <= idx <= pagesize && cntFree == idx
        invariant data.Length == free.Length == cntData + pagesize && fresh(data) && fresh(free)
        invariant cntData == |t.slots| && seed == t.seed
        invariant forall i :: 0 <= i < |t.slots| ==> data[i] == t.slots[i]
        invariant forall i :: 0 <= i < idx ==> free[i] == cntData + i
        invariant forall i :: cntData <= i < cntData + idx ==> data[i] == Oid(-1, 0)
      {
        free[cntFree] := cntData + idx;
        cntFree := cntFree + 1;
        data[cntData + idx] := Oid(-1, 0);
        idx := idx + 1;
      }
      cntData := cntData + pagesize;
    }

    /** Hands out the last free slot. */
    method Take(body: int, ghost t: Table) returns (key: int)
      requires Stands(t) && FreeFits(t) && t.free != []
      modifies this`seed, this`cntFree, data
      ensures var serial, slot := NextSerial(t.seed), t.free[|t.free| - 1];
        key == Handle(serial, slot) && Stands(Taken(t, key, body, serial))
    {
      seed := (seed + 1) % 0x8000;
      cntFree := cntFree - 1;
      var it := free[cntFree];
      key := Or(seed, it / 0x10000) * 0x10000 + it % 0x10000;
      data[it] := Oid(key, body);
    }

    /** `add`, on any number of slots. */
    method Add(body: int, granted: bool, ghost t: Table) returns (key: int)
      requires pagesize > 0 && Stands(t) && FreeFits(t)
      modifies this, data
      ensures Stands(HandleTable.Add(t, pagesize, body, granted).0)
        && key == HandleTable.Add(t, pagesize, body, granted).1
      ensures Good(t) && |HandleTable.Add(t, pagesize, body, granted).0.slots| <= HALF ==>
        Valid(HandleTable.Add(t, pagesize, body, granted).0)
      ensures (data == old(data) || fresh(data)) && (free == old(free) || fresh(free))
    {
      if Good(t) && |HandleTable.Add(t, pagesize, body, granted).0.slots| <= HALF {
        AddAgrees(t, pagesize, body, granted);
      }
      ghost var g := t;
      if cntFree == 0 {
        if !granted {
          return -1;
        }
        Grow(t);
        g := Grown(t, pagesize);
      }
      key := Take(body, g);
    }

    /** `get`, into `obj`. */
    method Get(idx: int, ghost t: Table) returns (found: bool, obj: int)
      requires Stands(t)
      ensures HandleTable.Get(t, idx) == if found then Some(obj) else None
      ensures Good(t) && !FindsFailure(t, idx) ==>
        (found <==> idx in Contents(t)) && (found ==> obj == Contents(t)[idx])
    {
      if Good(t) { GetAgrees(t, idx); }
      var it := idx % 0x10000;
      if it >= cntData || data[it].id != idx {
        return false, 0;
      }
      return true, data[it].body;
    }

    /** `remove` */
    method Remove(idx: int, ghost t: Table) returns (ok: bool)
      requires Stands(t) && (Found(t, idx) ==> |t.free| < |t.slots|)
      modifies this`cntFree, data, free
      ensures Stands(HandleTable.Remove(t, idx).0) && ok == HandleTable.Remove(t, idx).1
      ensures old(Valid(t)) && !FindsFailure(t, idx) ==> Valid(HandleTable.Remove(t, idx).0)
    {
      if Good(t) { RemoveAgrees(t, idx); }
      var it := idx % 0x10000;
      if it >= cntData || data[it].id != idx {
        return false;
      }
      free[cntFree] := it;
      cntFree := cntFree + 1;
      data[it] := data[it].(id := -1);
      return true;
    }
  }

  /** A handle that is found leaves room on the free stack. */
  lemma NotAllFree(t: Table, idx: int)
    requires Good(t) && Found(t, idx) && !FindsFailure(t, idx)
    ensures |t.free| < |t.slots|
  {
    KeysAreFound(t, idx);
    assert idx in Keys(t);
  }

  method Resized<T>(a: array<T>, n: nat, filler: T) returns (b: array<T>)
    requires n >= a.Length
    ensures fresh(b) && b.Length == n
    ensures forall i :: 0 <= i < a.Length ==> b[i] == a[i]
  {
    b := new T[n](_ => filler);
    var i := 0;
    while i < a.Length
      invariant 0 <= i <= a.Length
      invariant forall j :: 0 <= j < i ==> b[j] == a[j]
    {
      b[i] := a[i];
      i := i + 1;
    }
  }
}
