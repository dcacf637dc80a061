/** Bytes, and sequences cut into parts. */
module Bytes {
  import opened Common

  type Byte = x: int | 0 <= x < 256

  /** The parts of a chain, one after the other. */
  function Concat(parts: seq<seq<Byte>>): seq<Byte> {
    if parts == [] then [] else parts[0] + Concat(parts[1..])
  }

  lemma {:induction false} ConcatSplit(parts: seq<seq<Byte>>, k: nat)
    requires k <= |parts|
    ensures Concat(parts) == Concat(parts[..k]) + Concat(parts[k..])
  {
    if k > 0 {
      ConcatSplit(parts[1..], k - 1);
      assert parts[..k][1..] == parts[1..][..k - 1];
      assert parts[1..][k - 1..] == parts[k..];
    }
  }

  lemma ConcatSnoc(parts: seq<seq<Byte>>, p: seq<Byte>)
    ensures Concat(parts + [p]) == Concat(parts) + p
  {
    ConcatSplit(parts + [p], |parts|);
    assert (parts + [p])[..|parts|] == parts;
    assert (parts + [p])[|parts|..] == [p];
  }

  /** More bytes at the end of the last part. */
  lemma ConcatExtend(before: seq<seq<Byte>>, after: seq<seq<Byte>>, p: seq<Byte>)
    requires before != []
    requires var k := |before| - 1; after == before[..k] + [before[k] + p]
    ensures Concat(after) == Concat(before) + p
  {
    var k := |before| - 1;
    ConcatSnoc(before[..k], before[k]);
    ConcatSnoc(before[..k], before[k] + p);
    assert before == before[..k] + [before[k]];
    Assoc(Concat(before[..k]), before[k], p);
  }

  lemma Assoc(a: seq<Byte>, b: seq<Byte>, c: seq<Byte>)
    ensures (a + b) + c == a + (b + c)
  {
  }

  /** The parts from the first one on that holds something. */
  function WithoutLeading(parts: seq<seq<Byte>>): (r: seq<seq<Byte>>)
    ensures r != [] ==> r[0] != []
  {
    if parts != [] && parts[0] == [] then WithoutLeading(parts[1..]) else parts
  }

  lemma {:induction false} LeadingHoldNothing(parts: seq<seq<Byte>>)
    ensures Concat(WithoutLeading(parts)) == Concat(parts)
  {
    if parts != [] && parts[0] == [] {
      LeadingHoldNothing(parts[1..]);
    }
  }

  /** Copies as many bytes of `src` as fit from `start` on. */
  method CopyIn(dst: array<Byte>, start: nat, src: seq<Byte>) returns (n: nat)
    requires start <= dst.Length
    modifies dst
    ensures n == Min(|src|, dst.Length - start)
    ensures dst[..] == old(dst[..start]) + src[..n] + old(dst[start + n..])
  {
    n := 0;
    while n != |src| && start + n != dst.Length
      invariant 0 <= n <= |src| && start + n <= dst.Length
      invariant dst[..start] == old(dst[..start])
      invariant dst[start..start + n] == src[..n]
      invariant dst[start + n..] == old(dst[start + n..])
      decreases |src| - n
    {
      dst[start + n] := src[n];
      n := n + 1;
    }
    assert dst[..] == dst[..start] + dst[start..start + n] + dst[start + n..];
  }

  /** Copies out as many bytes of `src[from..to]` as `room` allows. */
  method CopyOut(src: array<Byte>, from: nat, to: nat, dst: array<Byte>, at: nat, room: nat) returns (n: nat)
    requires from <= to <= src.Length && at + room <= dst.Length && src != dst
    modifies dst
    ensures n == Min(room, to - from)
    ensures dst[..] == old(dst[..at]) + src[from..from + n] + old(dst[at + n..])
  {
    n := 0;
    while from + n != to && n != room
      invariant 0 <= n <= room && from + n <= to
      invariant dst[..at] == old(dst[..at])
      invariant dst[at..at + n] == src[from..from + n]
      invariant dst[at + n..] == old(dst[at + n..])
      decreases room - n
    {
      dst[at + n] := src[from + n];
      n := n + 1;
    }
    assert dst[..] == dst[..at] + dst[at..at + n] + dst[at + n..];
  }

  /** What a bounded copy of two consecutive stretches gives. */
  lemma TakeMore(a: seq<Byte>, b: seq<Byte>, size: nat)
    ensures var k := Min(size, |a|); (a + b)[..Min(size, |a| + |b|)] == a[..k] + b[..Min(size - k, |b|)]
  {
    var k := Min(size, |a|);
    if size <= |a| {
      assert (a + b)[..size] == a[..size] + [];
    } else {
      assert (a + b)[..Min(size, |a| + |b|)] == a + b[..Min(size - k, |b|)];
    }
  }

  /** A buffer that held `rest`, after the first `k` parts were copied into its first `size` bytes. */
  ghost function Peeked(parts: seq<seq<Byte>>, k: nat, size: nat, rest: seq<Byte>): seq<Byte>
    requires k <= |parts| && size <= |rest|
  {
    var c := Min(size, |Concat(parts[..k])|);
    Concat(parts[..k])[..c] + rest[c..]
  }

  /** One more part copied behind what was copied before. */
  lemma PeekedNext(parts: seq<seq<Byte>>, k: nat, size: nat, rest: seq<Byte>)
    requires k < |parts| && size <= |rest|
    ensures var c := Min(size, |Concat(parts[..k])|);
      var n := Min(size - c, |parts[k]|);
      var d := Peeked(parts, k, size, rest);
      && |d| == |rest|
      && c + n == Min(size, |Concat(parts[..k + 1])|)
      && d[..c] + parts[k][..n] + d[c + n..] == Peeked(parts, k + 1, size, rest)
  {
    var before := Concat(parts[..k]);
    assert parts[..k + 1] == parts[..k] + [parts[k]];
    ConcatSnoc(parts[..k], parts[k]);
    TakeMore(before, parts[k], size);
    var c := Min(size, |before|);
    var d := Peeked(parts, k, size, rest);
    assert d[..c] == before[..c];
    assert d[c + Min(size - c, |parts[k]|)..] == rest[c + Min(size - c, |parts[k]|)..];
  }

  /** Once enough was copied, the buffer starts with the front of the whole chain. */
  lemma PeekedEnough(parts: seq<seq<Byte>>, k: nat, size: nat, rest: seq<Byte>)
    requires k <= |parts| && size <= |rest|
    requires size <= |Concat(parts[..k])| || k == |parts|
    ensures Min(size, |Concat(parts[..k])|) == Min(size, |Concat(parts)|)
    ensures var c := Min(size, |Concat(parts)|); Peeked(parts, k, size, rest) == Concat(parts)[..c] + rest[c..]
  {
    ConcatSplit(parts, k);
    if k == |parts| {
      assert parts[..k] == parts;
    } else {
      TakeFront(Concat(parts[..k]), Concat(parts[k..]), size);
    }
  }

  lemma TakeFront(a: seq<Byte>, b: seq<Byte>, n: nat)
    requires n <= |a|
    ensures (a + b)[..n] == a[..n]
  {
  }

  /** A window onto a buffer, after something was written behind it. */
  lemma WindowGrows(d0: seq<Byte>, d1: seq<Byte>, from: nat, to: nat, x: seq<Byte>)
    requires from <= to && to + |x| <= |d0|
    requires d1 == d0[..to] + x + d0[to + |x|..]
    ensures d1[from..to + |x|] == d0[from..to] + x
  {
  }

  lemma FrontOfWindow(s: seq<Byte>, from: nat, to: nat, n: nat)
    requires from + n <= to <= |s|
    ensures s[from..to][..n] == s[from..from + n]
  {
  }

  lemma AddWrapped(a: nat, b: nat)
    ensures (a % 0x1_0000_0000 + b) % 0x1_0000_0000 == (a + b) % 0x1_0000_0000
  {
  }

  /** What is left of the parts when `n` bytes are dropped from the front. */
  function Dropped(parts: seq<seq<Byte>>, n: nat): (r: seq<seq<Byte>>)
    ensures |r| == |parts|
  {
    if parts == [] then [] else
      var k := Min(n, |parts[0]|);
      [parts[0][k..]] + Dropped(parts[1..], n - k)
  }

  lemma {:induction false} DroppedContents(parts: seq<seq<Byte>>, n: nat)
    ensures Concat(Dropped(parts, n)) == Concat(parts)[Min(n, |Concat(parts)|)..]
  {
    if parts != [] {
      var k := Min(n, |parts[0]|);
      DroppedContents(parts[1..], n - k);
      assert Dropped(parts, n)[1..] == Dropped(parts[1..], n - k);
      DropAcross(parts[0], Concat(parts[1..]), n);
    }
  }

  lemma DropAcross(a: seq<Byte>, b: seq<Byte>, n: nat)
    ensures var k := Min(n, |a|); (a + b)[Min(n, |a + b|)..] == a[k..] + b[Min(n - k, |b|)..]
  {
    if n <= |a| {
      assert (a + b)[n..] == a[n..] + b;
    }
  }

  lemma {:induction false} DropNothing(parts: seq<seq<Byte>>)
    ensures Dropped(parts, 0) == parts
  {
    if parts != [] {
      DropNothing(parts[1..]);
    }
  }

  /** How many bytes are still to be dropped when the pass reaches part `i`. */
  ghost function LeftAt(parts: seq<seq<Byte>>, n: nat, i: nat): (left: nat)
    requires i <= |parts|
    ensures left <= n
  {
    if i == 0 then n else LeftAt(parts[1..], n - Min(n, |parts[0]|), i - 1)
  }

  lemma {:induction false} LeftAtNext(parts: seq<seq<Byte>>, n: nat, i: nat)
    requires i < |parts|
    ensures LeftAt(parts, n, i + 1) == LeftAt(parts, n, i) - Min(LeftAt(parts, n, i), |parts[i]|)
  {
    if i > 0 {
      LeftAtNext(parts[1..], n - Min(n, |parts[0]|), i - 1);
    }
  }

  lemma {:induction false} DroppedAt(parts: seq<seq<Byte>>, n: nat, i: nat)
    requires i < |parts|
    ensures Dropped(parts, n)[i] == parts[i][Min(LeftAt(parts, n, i), |parts[i]|)..]
  {
    if i > 0 {
      DroppedAt(parts[1..], n - Min(n, |parts[0]|), i - 1);
    }
  }

  lemma {:induction false} NothingLeftAfter(parts: seq<seq<Byte>>, n: nat, k: nat, i: nat)
    requires k <= i <= |parts| && LeftAt(parts, n, k) == 0
    ensures LeftAt(parts, n, i) == 0
    decreases i
  {
    if k < i {
      NothingLeftAfter(parts, n, k, i - 1);
      LeftAtNext(parts, n, i - 1);
    }
  }

  /** The parts after a pass got to part `k`. */
  ghost function PartlyDropped(p: seq<seq<Byte>>, n: nat, k: nat): seq<seq<Byte>>
    requires k <= |p|
  {
    seq(|p|, i requires 0 <= i < |p| => if i < k then p[i][Min(LeftAt(p, n, i), |p[i]|)..] else p[i])
  }

  lemma DropsNothingYet(p: seq<seq<Byte>>, n: nat)
    ensures LeftAt(p, n, 0) == n && PartlyDropped(p, n, 0) == p
  {
  }

  lemma DropsNext(p: seq<seq<Byte>>, n: nat, k: nat)
    requires k < |p|
    ensures var now, sub := PartlyDropped(p, n, k), Min(LeftAt(p, n, k), |p[k]|);
      && |now| == |p| && now[k] == p[k]
      && PartlyDropped(p, n, k + 1) == now[k := p[k][sub..]] && LeftAt(p, n, k + 1) == LeftAt(p, n, k) - sub
  {
    LeftAtNext(p, n, k);
  }

  /** A pass that got to part `k`, and had nothing left to drop there or no part left, is complete. */
  lemma PassDone(p: seq<seq<Byte>>, n: nat, k: nat)
    requires k <= |p|
    requires k == |p| || LeftAt(p, n, k) == 0
    ensures PartlyDropped(p, n, k) == Dropped(p, n)
  {
    var parts := PartlyDropped(p, n, k);
    forall i | 0 <= i < |p| ensures parts[i] == Dropped(p, n)[i] {
      DroppedAt(p, n, i);
      if k <= i { NothingLeftAfter(p, n, k, i); }
    }
  }
}
