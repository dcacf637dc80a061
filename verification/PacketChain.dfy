/**
 The packet view of the block chain: every append of data is one block, and one read never crosses
 from one packet into the next.
 */
module PacketChain {
  import opened Common
  import opened Bytes
  import opened DataChain

  /** An empty block is the only block, and nothing was ever put into it. */
  ghost predicate Valid(c: Chain)
    reads c, c.Repr
  {
    && c.Shaped()
    && forall i :: 0 <= i < |c.parts| && c.parts[i] == [] ==> |c.parts| == 1 && c.blocks[i].used == 0
  }

  ghost function Packets(c: Chain): seq<seq<Byte>>
    reads c
  {
    PacketsOf(c.parts)
  }

  ghost function PacketsOf(parts: seq<seq<Byte>>): seq<seq<Byte>> {
    if |parts| == 1 && parts[0] == [] then [] else parts
  }

  /** What dropping bytes of the first part only leaves. */
  lemma DropFromFirst(parts: seq<seq<Byte>>, count: nat)
    requires parts != [] && count <= |parts[0]|
    ensures Dropped(parts, count) == [parts[0][count..]] + parts[1..]
  {
    DropNothing(parts[1..]);
  }

  lemma LeadingOne(first: seq<Byte>, more: seq<seq<Byte>>)
    requires more != [] ==> more[0] != []
    ensures WithoutLeading([first] + more) == if first == [] then more else [first] + more
  {
    assert ([first] + more)[1..] == more;
  }

  /** What `remove` leaves of the blocks when it takes no more than the first packet. */
  lemma TakingFromFirst(parts: seq<seq<Byte>>, count: nat)
    requires forall i :: 0 <= i < |parts| && parts[i] == [] ==> |parts| == 1
    requires count <= |FirstPacket(PacketsOf(parts))|
    ensures var left := WithoutLeading(Dropped(parts, count));
      (forall i :: 0 <= i < |left| ==> left[i] != []) && left == Taken(PacketsOf(parts), count)
  {
    if parts != [] {
      var first, more := parts[0][count..], parts[1..];
      assert forall i :: 0 <= i < |more| ==> more[i] == parts[i + 1];
      DropFromFirst(parts, count);
      LeadingOne(first, more);
    }
  }

  ghost function FirstPacket(p: seq<seq<Byte>>): seq<Byte> {
    if p == [] then [] else p[0]
  }

  /** The queue after `count` bytes of the first packet were taken. */
  ghost function Taken(p: seq<seq<Byte>>, count: nat): seq<seq<Byte>>
    requires count <= |FirstPacket(p)|
  {
    if p == [] then []
    else if count == |p[0]| then p[1..]
    else [p[0][count..]] + p[1..]
  }

  /** Fills the last block, which is empty. */
  method PutPacket(c: Chain, src: seq<Byte>)
    requires c.Shaped() && c.tail != null && c.tail.used == 0 && src != []
    requires forall i :: 0 <= i < |c.parts| - 1 ==> c.parts[i] != []
    modifies c`parts, c.tail`used, c.tail.data
    ensures Valid(c)
    ensures Packets(c) == old(c.parts)[..|c.parts| - 1] + [src[..Min(|src|, 2048)]]
  {
    ghost var k := |c.parts| - 1;
    assert c.blocks[k].Holds(c.parts[k]);
    var n := c.FillTail(src);
    assert [] + src[..n] == src[..n];
  }

  /** Adds one packet, cut to the size of a block; adding no bytes adds no packet. */
  method Append(c: Chain, src: seq<Byte>, grants: nat) returns (ok: bool)
    requires Valid(c)
    modifies c.Repr
    ensures Valid(c) && fresh(c.Repr - old(c.Repr))
    ensures ok == (grants > 0 || old(c.blocks != [] && (src == [] || c.blocks[|c.blocks| - 1].used == 0)))
    ensures Packets(c) == if ok && src != [] then old(Packets(c)) + [src[..Min(|src|, 2048)]] else old(Packets(c))
  {
    var left := grants;
    if c.head == null {
      if left == 0 {
        return false;
      }
      c.Grow();
      left := left - 1;
    }
    if src != [] {
      if c.tail.used != 0 {
        if left == 0 {
          return false;
        }
        c.Grow();
      }
      PutPacket(c, src);
    }
    return true;
  }

  /** Copies from the first packet only. */
  method Peek(c: Chain, dst: array<Byte>, size: nat) returns (count: nat)
    requires Valid(c) && dst !in c.Repr && size <= dst.Length
    modifies dst
    ensures Valid(c)
    ensures count == Min(size, |FirstPacket(Packets(c))|)
    ensures dst[..] == FirstPacket(Packets(c))[..count] + old(dst[count..])
  {
    count := 0;
    if c.head != null {
      count := c.head.Copy(dst, 0, size, c.parts[0]);
    }
  }

  /** One read: a packet that fits is taken whole, the rest of a longer one stays in front. */
  method Extract(c: Chain, dst: array<Byte>, size: nat) returns (count: nat)
    requires Valid(c) && dst !in c.Repr && size <= dst.Length
    modifies c, c.blocks, dst
    ensures Valid(c) && c.Repr == old(c.Repr)
    ensures count == Min(size, |FirstPacket(old(Packets(c)))|)
    ensures dst[..] == FirstPacket(old(Packets(c)))[..count] + old(dst[count..])
    ensures var before := old(Packets(c));
      Packets(c) == if before == [] then []
        else if count == |before[0]| then before[1..]
        else [before[0][count..]] + before[1..]
  {
    count := Peek(c, dst, size);
    TakingFromFirst(c.parts, count);
    c.Remove(count);
  }
}
