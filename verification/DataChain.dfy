/**
 The chained data buffer: a linked list of 2048-byte blocks with `used` and `dead` cursors, which is
 to behave as a plain queue of bytes.
 */
module DataChain {
  import opened Common
  import opened Bytes
  import opened Lines

  const BLOCK: nat := 2048

  class Block {
    var used: nat
    var dead: nat
    const data: array<Byte>
    var next: Block?

    constructor ()
      ensures used == 0 && dead == 0 && next == null
      ensures fresh(data) && Holds([])
    {
      used, dead, next := 0, 0, null;
      data := new Byte[BLOCK];
    }

    /** `dead <= used <= 2048`, and `live` is what lies between the cursors. */
    ghost predicate Holds(live: seq<Byte>)
      reads this`used, this`dead, data
    {
      && data.Length == BLOCK && dead <= used <= BLOCK
      && |live| == used - dead && forall j :: 0 <= j < |live| ==> live[j] == data[dead + j]
    }

    /** Copies in until the block is full or the source ends. */
    method Fill(src: seq<Byte>, ghost live: seq<Byte>) returns (n: nat)
      requires Holds(live)
      modifies this`used, data
      ensures n == Min(|src|, BLOCK - old(used)) && used == old(used) + n
      ensures Holds(live + src[..n])
    {
      ghost var d0, u := data[..], used;
      assert live == d0[dead..u];
      n := CopyIn(data, used, src);
      WindowGrows(d0, data[..], dead, u, src[..n]);
      used := used + n;
      assert data[dead..used] == data[..][dead..used];
    }

    /** Copies the live bytes out, as far as `room` allows. */
    method Copy(dst: array<Byte>, at: nat, room: nat, ghost live: seq<Byte>) returns (n: nat)
      requires Holds(live) && dst != data && at + room <= dst.Length
      modifies dst
      ensures n == Min(room, |live|)
      ensures dst[..] == old(dst[..at]) + live[..n] + old(dst[at + n..])
    {
      FrontOfWindow(data[..], dead, used, Min(room, used - dead));
      assert data[..][dead..used] == data[dead..used];
      n := CopyOut(data, dead, used, dst, at, room);
    }

    /** Whether a line feed follows the first `n` live bytes. */
    method StopsAtEol(n: nat, ghost live: seq<Byte>) returns (stops: bool)
      requires Holds(live) && n <= |live|
      ensures stops ==> n < |live|
    {
      stops := dead + n != used && data[dead + n] == LF;
    }

    /** Looks for a line feed among the live bytes; `count` bytes come before it, or are there in all. */
    method FindEol(ghost live: seq<Byte>) returns (found: bool, count: nat)
      requires Holds(live)
      ensures count == FindLF(live)
      ensures found <==> count < |live|
    {
      count := 0;
      while dead + count != used && data[dead + count] != LF
        invariant 0 <= count <= |live|
        invariant forall i :: 0 <= i < count ==> live[i] != LF
        decreases |live| - count
      {
        count := count + 1;
      }
      found := dead + count != used;
      FindLFIs(live, count);
    }

    /** Marks up to `size` live bytes dead. */
    method Kill(size: nat, ghost live: seq<Byte>) returns (sub: nat)
      requires Holds(live)
      modifies this`dead
      ensures sub == Min(size, |live|)
      ensures Holds(live[sub..])
    {
      sub := if size < used - dead then size else used - dead;
      assert data[dead..used][sub..] == data[dead + sub..used];
      dead := dead + sub;
    }
  }

  /** The node at position `i`, or null past the end. */
  ghost function At(c: seq<Block>, i: nat): (b: Block?) {
    if i < |c| then c[i] else null
  }

  ghost function Last(c: seq<Block>): (b: Block?) {
    if c == [] then null else c[|c| - 1]
  }

  class Chain {
    var head: Block?
    var tail: Block?

    /** The blocks reachable from `head`, and the live bytes of each. */
    ghost var blocks: seq<Block>
    ghost var parts: seq<seq<Byte>>
    ghost var Repr: set<object>

    ghost predicate Linked()
      reads this, Repr
    {
      && this in Repr
      && (forall i :: 0 <= i < |blocks| ==> blocks[i] in Repr && blocks[i].data in Repr)
      && head == At(blocks, 0) && tail == Last(blocks)
      && (forall i {:trigger blocks[i].next} :: 0 <= i < |blocks| ==> blocks[i].next == At(blocks, i + 1))
      && (forall i, j {:trigger blocks[i].data, blocks[j].data} :: 0 <= i < j < |blocks| ==>
        blocks[i].data != blocks[j].data)
    }

    /** `parts` holds the live bytes of each block. */
    ghost predicate Filled()
      requires Linked()
      reads this, Repr
    {
      && |parts| == |blocks|
      && (forall i :: 0 <= i < |blocks| ==> blocks[i].Holds(parts[i]))
    }

    ghost predicate Shaped()
      reads this, Repr
    {
      Linked() && Filled()
    }

    /** A stream chain: every block but the last is full. */
    ghost predicate Valid()
      reads this, Repr
    {
      Shaped() && AllFull()
    }

    ghost predicate AllFull()
      reads this`blocks, blocks`used
    {
      forall i :: 0 <= i < |blocks| - 1 ==> blocks[i].used == BLOCK
    }

    ghost function Contents(): seq<Byte>
      reads this
    {
      Concat(parts)
    }

    constructor ()
      ensures Valid() && Contents() == [] && blocks == [] && fresh(Repr)
    {
      head, tail := null, null;
      blocks, parts, Repr := [], [], {this};
    }

    // ----- append -----

    /** How many bytes the last block still takes. */
    ghost function Room(): nat
      requires Valid()
      reads this, Repr
    {
      if blocks == [] then 0 else BLOCK - blocks[|blocks| - 1].used
    }

    /** Links an empty block at the end. */
    method Link(b: Block)
      requires Shaped() && b !in Repr && b.data !in Repr && b.next == null && b.used == 0 && b.Holds([])
      modifies this, blocks`next
      ensures Shaped() && Repr == old(Repr) + {b, b.data}
      ensures blocks == old(blocks) + [b] && parts == old(parts) + [[]]
    {
      if head == null {
        head := b;
      } else {
        tail.next := b;
      }
      tail := b;
      blocks, parts, Repr := blocks + [b], parts + [[]], Repr + {b, b.data};
    }

    method Grow()
      requires Shaped()
      modifies this, blocks`next
      ensures Shaped() && fresh(Repr - old(Repr))
      ensures |blocks| == |old(blocks)| + 1 && old(blocks) == blocks[..|blocks| - 1]
      ensures tail.used == 0
      ensures parts == old(parts) + [[]]
    {
      var b := new Block();
      Link(b);
    }

    /** Copies into the last block until it is full or the source ends. */
    method FillTail(src: seq<Byte>) returns (n: nat)
      requires Shaped() && tail != null
      modifies this`parts, tail`used, tail.data
      ensures Shaped() && tail.dead == old(tail.dead)
      ensures n == Min(|src|, BLOCK - old(tail.used))
      ensures tail.used == old(tail.used) + n
      ensures parts == old(parts)[..|parts| - 1] + [old(parts)[|parts| - 1] + src[..n]]
      ensures forall i :: 0 <= i < |blocks| - 1 ==> blocks[i].used == old(blocks[i].used)
    {
      ghost var k := |blocks| - 1;
      n := tail.Fill(src, parts[k]);
      parts := parts[..k] + [parts[k] + src[..n]];
    }

    /** How much of `size` bytes fits when the allocator still grants that many blocks. */
    ghost function Fits(size: nat, grants: nat): nat
      requires Valid()
      reads this, Repr
    {
      Min(size, Room() + BLOCK * grants)
    }

    /** Before a round of copying: makes sure the last block takes at least one byte. */
    method GrowIfFull(grants: nat) returns (ok: bool, left: nat)
      requires Valid() && blocks != []
      modifies Repr
      ensures Valid() && blocks != [] && fresh(Repr - old(Repr))
      ensures Contents() == old(Contents())
      ensures Room() + BLOCK * left == old(Room()) + BLOCK * grants
      ensures ok <==> Room() > 0
      ensures !ok ==> left == 0
    {
      ok, left := true, grants;
      if tail.used == BLOCK {
        if left == 0 {
          return false, 0;
        }
        ConcatSnoc(parts, []);
        Grow();
        left := left - 1;
      }
    }

    /** One round of the append loop. */
    method AppendSome(src: seq<Byte>, grants: nat) returns (more: bool, n: nat, left: nat)
      requires Valid() && blocks != []
      modifies Repr
      ensures Valid() && blocks != [] && fresh(Repr - old(Repr))
      ensures n <= |src| && Contents() == old(Contents()) + src[..n]
      ensures n + Room() + BLOCK * left == old(Room()) + BLOCK * grants
      ensures if more then n == |src| || (n > 0 && Room() == 0) else n == 0 == left && Room() == 0
    {
      more, left := GrowIfFull(grants);
      if !more {
        assert src[..0] == [];
        return false, 0, left;
      }
      ghost var before := parts;
      n := FillTail(src);
      ConcatExtend(before, parts, src[..n]);
    }

    /** The loop of `append`, on a chain that has a block. */
    method AppendAll(src: seq<Byte>, grants: nat) returns (ok: bool)
      requires Valid() && blocks != []
      modifies Repr
      ensures Valid() && fresh(Repr - old(Repr))
      ensures var n := old(Fits(|src|, grants)); Contents() == old(Contents()) + src[..n] && (ok <==> n == |src|)
    {
      var pos, left := 0, grants;
      assert src[..0] == [];
      while pos != |src|
        invariant 0 <= pos <= |src|
        invariant Valid() && blocks != [] && fresh(Repr - old(Repr))
        invariant Contents() == old(Contents()) + src[..pos]
        invariant pos + Room() + BLOCK * left == old(Room()) + BLOCK * grants
        decreases |src| - pos
      {
        var more, n;
        more, n, left := AppendSome(src[pos..], left);
        if !more {
          return false;
        }
        assert src[..pos] + src[pos..][..n] == src[..pos + n];
        pos := pos + n;
      }
      return true;
    }

    /**
     Appends to the end; `grants` is how many more blocks the allocator will give.  On failure what
     fitted stays appended.
     */
    method Append(src: seq<Byte>, grants: nat) returns (ok: bool)
      requires Valid()
      modifies Repr
      ensures Valid() && fresh(Repr - old(Repr))
      ensures var n := old(Fits(|src|, grants));
        Contents() == old(Contents()) + src[..n] && (ok <==> n == |src| && (old(blocks) == [] ==> grants > 0))
    {
      if head == null {
        if grants == 0 {
          assert src[..0] == [];
          return false;
        }
        ConcatSnoc(parts, []);
        Grow();
        ok := AppendAll(src, grants - 1);
      } else {
        ok := AppendAll(src, grants);
      }
    }

    // ----- peek -----

    /** Copies what one block holds behind what the blocks before it held. */
    method CopyPart(item: Block, dst: array<Byte>, size: nat, ghost k: nat, ghost rest: seq<Byte>, at: nat)
      returns (n: nat)
      requires Shaped() && k < |blocks| && item == blocks[k] && dst !in Repr
      requires size <= dst.Length == |rest|
      requires at == Min(size, |Concat(parts[..k])|) && dst[..] == Peeked(parts, k, size, rest)
      modifies dst
      ensures n == Min(size - at, |parts[k]|)
      ensures at + n == Min(size, |Concat(parts[..k + 1])|) && dst[..] == Peeked(parts, k + 1, size, rest)
    {
      PeekedNext(parts, k, size, rest);
      assert blocks[k].data in Repr;
      n := item.Copy(dst, at, size - at, parts[k]);
    }

    /** Copies up to `size` bytes from the front, and removes nothing. */
    method Peek(dst: array<Byte>, size: nat) returns (count: nat)
      requires Valid() && dst !in Repr && size <= dst.Length
      modifies dst
      ensures Valid()
      ensures count == Min(size, |Contents()|)
      ensures dst[..] == Contents()[..count] + old(dst[count..])
    {
      var item := head;
      ghost var k := 0;
      count := 0;
      while item != null
        invariant 0 <= k <= |blocks| && item == At(blocks, k)
        invariant Valid()
        invariant count == Min(size, |Concat(parts[..k])|)
        invariant dst[..] == Peeked(parts, k, size, old(dst[..]))
        decreases |blocks| - k
      {
        var n := CopyPart(item, dst, size, k, old(dst[..]), count);
        count := count + n;
        item := item.next;
        k := k + 1;
      }
      PeekedEnough(parts, k, size, old(dst[..]));
    }

    // ----- remove -----

    /** Marks bytes of one block dead. */
    method KillIn(item: Block, size: nat, ghost k: nat) returns (sub: nat)
      requires Shaped() && k < |blocks| && item == blocks[k]
      modifies this`parts, item`dead
      ensures Shaped()
      ensures sub == Min(size, |old(parts)[k]|) && parts == old(parts)[k := old(parts)[k][sub..]]
    {
      ghost var p := parts[k];
      sub := item.Kill(size, p);
      parts := parts[k := p[sub..]];
    }

    /** Phase one of `remove`: marks bytes dead, block after block. */
    method MarkDead(size: nat)
      requires Shaped()
      modifies this`parts, blocks`dead
      ensures Shaped()
      ensures parts == Dropped(old(parts), size)
    {
      DropsNothingYet(parts, size);
      hide LeftAt, Dropped, PartlyDropped;
      var item := head;
      var left: nat := size;
      ghost var k, p := 0, parts;
      while item != null && left != 0
        invariant 0 <= k <= |blocks| && item == At(blocks, k)
        invariant Shaped()
        invariant left == LeftAt(p, size, k)
        invariant |p| == |blocks| && parts == PartlyDropped(p, size, k)
        decreases |blocks| - k
      {
        DropsNext(p, size, k);
        var sub := KillIn(item, left, k);
        left := left - sub;
        item := item.next;
        k := k + 1;
      }
      PassDone(p, size, k);
    }

    /** Drops the first block, which holds nothing. */
    method DropHead()
      requires Shaped() && blocks != [] && parts[0] == []
      modifies this`head, this`tail, this`blocks, this`parts
      ensures Shaped()
      ensures blocks == old(blocks)[1..] && parts == old(parts)[1..]
      ensures old(AllFull()) ==> AllFull()
    {
      var next := head.next;
      if tail == head {
        tail := null;
      }
      head := next;
      blocks, parts := blocks[1..], parts[1..];
    }

    /** Phase two of `remove`: drops the leading blocks that hold nothing. */
    method Trim()
      requires Shaped()
      modifies this`head, this`tail, this`blocks, this`parts
      ensures Shaped()
      ensures parts == WithoutLeading(old(parts))
      ensures old(AllFull()) ==> AllFull()
    {
      while head != null && head.used == head.dead
        invariant Shaped()
        invariant WithoutLeading(parts) == WithoutLeading(old(parts))
        invariant old(AllFull()) ==> AllFull()
        decreases |blocks|
      {
        assert blocks[0].Holds(parts[0]);
        DropHead();
      }
      assert blocks != [] ==> blocks[0].Holds(parts[0]);
    }

    /** Drops up to `size` bytes from the front, and the blocks that hold nothing afterwards. */
    method Remove(size: nat)
      requires Shaped()
      modifies this, blocks
      ensures Shaped() && Repr == old(Repr) && (old(AllFull()) ==> AllFull())
      ensures Contents() == old(Contents())[Min(size, |old(Contents())|)..]
      ensures parts == WithoutLeading(Dropped(old(parts), size))
    {
      DroppedContents(parts, size);
      LeadingHoldNothing(Dropped(parts, size));
      MarkDead(size);
      Trim();
    }

    /** `peek`, then `remove` of as much as was copied. */
    method Extract(dst: array<Byte>, size: nat) returns (count: nat)
      requires Valid() && dst !in Repr && size <= dst.Length
      modifies this, blocks, dst
      ensures Valid() && Repr == old(Repr)
      ensures count == Min(size, |old(Contents())|)
      ensures dst[..] == old(Contents())[..count] + old(dst[count..])
      ensures Contents() == old(Contents())[count..]
    {
      count := Peek(dst, size);
      Remove(count);
    }

    // ----- measuring -----

    /** The number of bytes in the queue, added up in 32 bits. */
    method GetSize() returns (count: nat)
      requires Shaped()
      ensures count == |Contents()| % 0x1_0000_0000
    {
      var item := head;
      ghost var k := 0;
      count := 0;
      while item != null
        invariant 0 <= k <= |blocks| && item == At(blocks, k)
        invariant count == |Concat(parts[..k])| % 0x1_0000_0000
        decreases |blocks| - k
      {
        assert blocks[k].Holds(parts[k]);
        assert parts[..k + 1] == parts[..k] + [parts[k]];
        ConcatSnoc(parts[..k], parts[k]);
        AddWrapped(|Concat(parts[..k])|, |parts[k]|);
        count := (count + (item.used - item.dead)) % 0x1_0000_0000;
        item := item.next;
        k := k + 1;
      }
      assert parts[..k] == parts;
    }

    method HasData() returns (has: bool)
      requires Shaped()
      ensures has <==> Contents() != []
    {
      var item := head;
      ghost var k := 0;
      while item != null
        invariant 0 <= k <= |blocks| && item == At(blocks, k)
        invariant Concat(parts[..k]) == []
        decreases |blocks| - k
      {
        assert blocks[k].Holds(parts[k]);
        assert parts[..k + 1] == parts[..k] + [parts[k]];
        ConcatSnoc(parts[..k], parts[k]);
        if item.used != item.dead {
          ConcatSplit(parts, k + 1);
          return true;
        }
        item := item.next;
        k := k + 1;
      }
      assert parts[..k] == parts;
      return false;
    }

    // ----- gets -----

    /** Looks for the first line feed, block after block; `count` is the length of the line with it. */
    method FindLine() returns (found: bool, count: nat)
      requires Shaped()
      ensures found <==> LF in Contents()
      ensures found ==> count == LineLength(Contents())
    {
      var item := head;
      ghost var k := 0;
      count := 0;
      while item != null
        invariant 0 <= k <= |blocks| && item == At(blocks, k)
        invariant count == |Concat(parts[..k])| && LF !in Concat(parts[..k])
        decreases |blocks| - k
      {
        ConcatSplit(parts, k);
        assert parts[k..][0] == parts[k];
        var here, n := item.FindEol(parts[k]);
        LineEnds(Concat(parts[..k]), parts[k], Concat(parts[k..][1..]));
        if here {
          return true, count + n + 1;
        }
        assert parts[..k + 1] == parts[..k] + [parts[k]];
        ConcatSnoc(parts[..k], parts[k]);
        count := count + n;
        item := item.next;
        k := k + 1;
      }
      assert parts[..k] == parts;
      return false, count;
    }

    /** Copies the line, or as much of it as the buffer takes. */
    method CopyLine(dst: array<Byte>, size: nat, length: nat) returns (copied: nat)
      requires Valid() && dst !in Repr && size <= dst.Length && length <= |Contents()|
      modifies dst
      ensures copied == Min(size, length)
      ensures dst[..] == Contents()[..copied] + old(dst[copied..])
    {
      var item, all := head, if size < length then size else length;
      ghost var k := 0;
      copied := 0;
      while item != null && copied != size
        invariant 0 <= k <= |blocks| && item == At(blocks, k)
        invariant copied == Min(all, |Concat(parts[..k])|)
        invariant dst[..] == Peeked(parts, k, all, old(dst[..]))
        decreases |blocks| - k
      {
        var n := CopyPart(item, dst, all, k, old(dst[..]), copied);
        copied := copied + n;
        var done := item.StopsAtEol(n, parts[k]);
        k := k + 1;
        if done {
          break;
        }
        item := item.next;
      }
      PeekedEnough(parts, k, all, old(dst[..]));
    }

    /**
     Reads a line.  `size` is the room in `dst`; the flags are those of the source: report the length
     only, keep the line ending, leave the line in the queue.
     */
    method Gets(dst: array<Byte>, size: nat, measure: bool, untrimmed: bool, peek: bool) returns (rc: Code, out: nat)
      requires Valid() && dst !in Repr && size <= dst.Length
      modifies this, blocks, dst
      ensures Valid() && Repr == old(Repr)
      ensures rc == Success <==> LF in old(Contents())
      ensures rc == NoData ==> out == size
      ensures rc == NoData || measure ==> Contents() == old(Contents()) && dst[..] == old(dst[..])
      ensures rc == Success && measure ==> out == LineLength(old(Contents()))
      ensures rc == Success && !measure ==>
        var line := old(Contents())[..LineLength(old(Contents()))];
        && out <= size && HandedOut(line, size, untrimmed, dst[..out])
        && (size > 0 ==> dst[out] == 0)
        && (forall i :: Min(size, |line|) < i < dst.Length ==> dst[i] == old(dst[i]))
        && Contents() == if peek then old(Contents()) else old(Contents())[|line|..]
    {
      var found, count := FindLine();
      if !found {
        return NoData, size;
      }
      if measure {
        return Success, count;
      }
      hide HandedOut;
      out := FetchLine(dst, size, count, untrimmed);
      if !peek {
        Remove(count);
      }
      return Success, out;
    }

    /** Copies a line of the given length, trims and terminates it. */
    method FetchLine(dst: array<Byte>, size: nat, length: nat, untrimmed: bool) returns (out: nat)
      requires Valid() && dst !in Repr && size <= dst.Length && length <= |Contents()|
      modifies dst
      ensures out <= size && HandedOut(Contents()[..length], size, untrimmed, dst[..out])
      ensures size > 0 ==> dst[out] == 0
      ensures forall i :: Min(size, length) < i < dst.Length ==> dst[i] == old(dst[i])
    {
      var copied := CopyLine(dst, size, length);
      ghost var line := Contents()[..length];
      assert dst[..copied] == line[..copied];
      hide HandedOut, Received;
      out := EndLine(dst, size, copied, untrimmed, line);
    }
  }

  datatype Code = Success | NoData

  /** Strips line endings from the first `n` bytes. */
  method StripEol(dst: array<Byte>, n: nat) returns (pos: nat)
    requires n <= dst.Length
    ensures pos <= n && dst[..pos] == TrimEnd(dst[..n])
  {
    pos := n;
    while pos != 0 && (dst[pos - 1] == CR || dst[pos - 1] == LF)
      invariant pos <= n && TrimEnd(dst[..pos]) == TrimEnd(dst[..n])
    {
      assert dst[..pos][..pos - 1] == dst[..pos - 1];
      pos := pos - 1;
    }
  }

  /**
   From the copied bytes to the string handed out: trimmed, shortened when the terminator would not
   fit, and terminated.
   */
  method EndLine(dst: array<Byte>, size: nat, copied: nat, untrimmed: bool, ghost line: seq<Byte>) returns (pos: nat)
    requires size <= dst.Length && copied == Min(size, |line|) && dst[..copied] == line[..copied]
    modifies dst
    ensures pos <= size && HandedOut(line, size, untrimmed, dst[..pos])
    ensures size > 0 ==> dst[pos] == 0
    ensures forall i :: copied < i < dst.Length ==> dst[i] == old(dst[i])
  {
    hide HandedOut;
    ReceivedIsHandedOut(line, size, untrimmed);
    pos := copied;
    if !untrimmed {
      pos := StripEol(dst, copied);
    }
    ghost var kept := dst[..pos];
    if size == pos && pos != 0 {
      pos := pos - 1;
      assert dst[..pos] == kept[..pos];
    }
    if size != pos {
      ghost var text := dst[..pos];
      dst[pos] := 0;
      assert dst[..pos] == text;
    }
    assert dst[..pos] == Received(line, size, untrimmed);
  }

  /** The first line of `a + b + c` when `a` has no line feed: it ends in `b`, or further on. */
  lemma LineEnds(a: seq<Byte>, b: seq<Byte>, c: seq<Byte>)
    requires LF !in a
    ensures FindLF(b) < |b| ==> LF in a + (b + c) && LineLength(a + (b + c)) == |a| + FindLF(b) + 1
    ensures FindLF(b) == |b| ==> LF !in a + b
  {
    if FindLF(b) < |b| {
      var s := a + (b + c);
      assert s[|a| + FindLF(b)] == LF;
      FindLFIs(s, |a| + FindLF(b));
    }
  }
}
