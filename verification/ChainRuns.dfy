/**
 Whole sessions with the buffers, on the real chains: whatever the calls, bytes and packets come out
 in the order they went in, and nothing is lost or made up.
 */
module ChainRuns {
  import opened Common
  import opened Bytes
  import opened Lines
  import opened DataChain
  import PacketChain

  /** `grants` is how many more blocks the allocator gives. */
  datatype Call =
    | Put(src: seq<Byte>, grants: nat)
    | Take(size: nat)
    | Look(size: nat)
    | Drop(size: nat)
    | Line(size: nat, measure: bool, untrimmed: bool, peek: bool)

  /** What the caller gets: a yes or no, the bytes in its buffer, or a length. */
  datatype Reply = Accepted(ok: bool) | Bytes(data: seq<Byte>) | Length(count: nat) | NoLine | Silent

  predicate FitsBuffer(call: Call, length: nat) {
    call.Take? || call.Look? || call.Line? ==> call.size <= length
  }

  /** A call on a plain queue of bytes: what the caller gets, and the queue afterwards. */
  ghost predicate Answers(call: Call, queue: seq<Byte>, reply: Reply, after: seq<Byte>) {
    match call
    case Put(src, grants) =>
      && queue <= after && after[|queue|..] <= src
      && (reply == Accepted(true) ==> after == queue + src)
      && (reply == Accepted(true) || reply == Accepted(false))
      && (grants > 0 && 2048 * grants >= |src| ==> reply.ok)
      && (!reply.ok ==> |after| - |queue| >= 2048 * grants)
      && |after| - |queue| <= 2048 * (grants + 1)
    case Take(size) => reply == Bytes(queue[..Min(size, |queue|)]) && after == queue[Min(size, |queue|)..]
    case Look(size) => reply == Bytes(queue[..Min(size, |queue|)]) && after == queue
    case Drop(size) => reply == Silent && after == queue[Min(size, |queue|)..]
    case Line(size, measure, untrimmed, peek) =>
      if LF !in queue then reply == NoLine && after == queue
      else if measure then reply == Length(LineLength(queue)) && after == queue
      else
        && reply.Bytes? && HandedOut(queue[..LineLength(queue)], size, untrimmed, reply.data)
        && after == if peek then queue else queue[LineLength(queue)..]
  }

  /** One call on a stream buffer does what it does on a plain queue of bytes. */
  method OneCall(c: Chain, call: Call, buf: array<Byte>) returns (reply: Reply)
    requires c.Valid() && buf !in c.Repr && FitsBuffer(call, buf.Length)
    modifies c.Repr, buf
    ensures c.Valid() && fresh(c.Repr - old(c.Repr))
    ensures Answers(call, old(c.Contents()), reply, c.Contents())
  {
    match call {
      case Put(src, grants) =>
        var ok := c.Append(src, grants);
        reply := Accepted(ok);
      case Take(size) =>
        var n := c.Extract(buf, size);
        reply := Bytes(buf[..n]);
      case Look(size) =>
        var n := c.Peek(buf, size);
        reply := Bytes(buf[..n]);
      case Drop(size) =>
        c.Remove(size);
        reply := Silent;
      case Line(size, measure, untrimmed, peek) =>
        var rc, n := c.Gets(buf, size, measure, untrimmed, peek);
        reply := if rc == NoData then NoLine else if measure then Length(n) else Bytes(buf[..n]);
    }
  }

  /** The calls, what each got, and the queue before and after each. */
  ghost predicate IsSession(calls: seq<Call>, replies: seq<Reply>, queues: seq<seq<Byte>>) {
    && |replies| == |calls| && |queues| == |calls| + 1
    && forall i :: 0 <= i < |calls| ==> Answers(calls[i], queues[i], replies[i], queues[i + 1])
  }

  /** Any sequence of calls on a stream buffer gets what it gets on a plain queue of bytes. */
  method StreamSession(c: Chain, calls: seq<Call>, buf: array<Byte>)
    returns (replies: seq<Reply>, ghost queues: seq<seq<Byte>>)
    requires c.Valid() && buf !in c.Repr
    requires forall i :: 0 <= i < |calls| ==> FitsBuffer(calls[i], buf.Length)
    modifies c.Repr, buf
    ensures c.Valid()
    ensures IsSession(calls, replies, queues) && queues[0] == old(c.Contents()) && queues[|calls|] == c.Contents()
    ensures Gone(calls, replies, queues, |calls|) + c.Contents() == old(c.Contents()) + PutIn(calls, queues, |calls|)
  {
    hide Answers, Gone, PutIn;
    replies, queues := [], [c.Contents()];
    var i := 0;
    while i < |calls|
      invariant 0 <= i <= |calls| && |replies| == i && |queues| == i + 1
      invariant c.Valid() && fresh(c.Repr - old(c.Repr)) && buf !in c.Repr
      invariant queues[0] == old(c.Contents()) && queues[i] == c.Contents()
      invariant forall k :: 0 <= k < i ==> Answers(calls[k], queues[k], replies[k], queues[k + 1])
    {
      var reply := OneCall(c, calls[i], buf);
      replies, queues := replies + [reply], queues + [c.Contents()];
      i := i + 1;
    }
    StreamConserved(calls, replies, queues, |calls|);
  }

  // ----- what a plain queue of bytes does -----

  /** What a call put in. */
  ghost function PutBy(call: Call, queue: seq<Byte>, after: seq<Byte>): seq<Byte> {
    if call.Put? && |queue| <= |after| then after[|queue|..] else []
  }

  /** What a call took out: a `Take` the bytes it delivered, a `Line` its whole line. */
  ghost function GoneBy(call: Call, reply: Reply, queue: seq<Byte>): seq<Byte> {
    match call
    case Take(_) => if reply.Bytes? then reply.data else []
    case Drop(size) => queue[..Min(size, |queue|)]
    case Line(_, _, _, peek) => if reply.Bytes? && !peek then queue[..LineLength(queue)] else []
    case _ => []
  }

  ghost function PutIn(calls: seq<Call>, queues: seq<seq<Byte>>, n: nat): seq<Byte>
    requires n <= |calls| < |queues|
  {
    if n == 0 then [] else PutIn(calls, queues, n - 1) + PutBy(calls[n - 1], queues[n - 1], queues[n])
  }

  ghost function Gone(calls: seq<Call>, replies: seq<Reply>, queues: seq<seq<Byte>>, n: nat): seq<Byte>
    requires n <= |calls| == |replies| < |queues|
  {
    if n == 0 then [] else Gone(calls, replies, queues, n - 1) + GoneBy(calls[n - 1], replies[n - 1], queues[n - 1])
  }

  lemma OneCallConserves(call: Call, reply: Reply, queue: seq<Byte>, after: seq<Byte>)
    requires Answers(call, queue, reply, after)
    ensures GoneBy(call, reply, queue) + after == queue + PutBy(call, queue, after)
  {
  }

  lemma SessionStart(calls: seq<Call>, replies: seq<Reply>, queues: seq<seq<Byte>>)
    requires |calls| == |replies| < |queues|
    ensures Gone(calls, replies, queues, 0) + queues[0] == queues[0] + PutIn(calls, queues, 0)
  {
    assert [] + queues[0] == queues[0] + [];
  }

  lemma SessionNext(calls: seq<Call>, replies: seq<Reply>, queues: seq<seq<Byte>>, n: nat)
    requires 0 < n <= |calls| == |replies| < |queues|
    ensures Gone(calls, replies, queues, n) ==
      Gone(calls, replies, queues, n - 1) + GoneBy(calls[n - 1], replies[n - 1], queues[n - 1])
    ensures PutIn(calls, queues, n) == PutIn(calls, queues, n - 1) + PutBy(calls[n - 1], queues[n - 1], queues[n])
  {
  }

  /** What came out, followed by what is left, is what was there, followed by what was put in. */
  lemma {:induction false} StreamConserved(calls: seq<Call>, replies: seq<Reply>, queues: seq<seq<Byte>>, n: nat)
    requires IsSession(calls, replies, queues) && n <= |calls|
    ensures Gone(calls, replies, queues, n) + queues[n] == queues[0] + PutIn(calls, queues, n)
  {
    hide Answers, GoneBy, PutBy, Gone, PutIn;
    if n == 0 {
      SessionStart(calls, replies, queues);
    } else {
      SessionNext(calls, replies, queues, n);
      assert Answers(calls[n - 1], queues[n - 1], replies[n - 1], queues[n]);
      OneCallConserves(calls[n - 1], replies[n - 1], queues[n - 1], queues[n]);
      StreamConserved(calls, replies, queues, n - 1);
      Regroup(
        Gone(calls, replies, queues, n - 1), GoneBy(calls[n - 1], replies[n - 1], queues[n - 1]), queues[n],
        queues[n - 1], PutBy(calls[n - 1], queues[n - 1], queues[n]), queues[0], PutIn(calls, queues, n - 1));
    }
  }

  lemma {:induction false} PutInGrows(calls: seq<Call>, queues: seq<seq<Byte>>, i: nat, n: nat)
    requires i <= n <= |calls| < |queues|
    ensures PutIn(calls, queues, i) <= PutIn(calls, queues, n)
    decreases n
  {
    hide PutBy;
    if i < n {
      PutInGrows(calls, queues, i, n - 1);
    }
  }

  /** Everything that was ever in the queue, in order. */
  ghost function Stream(calls: seq<Call>, queues: seq<seq<Byte>>): seq<Byte>
    requires |calls| < |queues|
  {
    queues[0] + PutIn(calls, queues, |calls|)
  }

  /** The queue is a stretch of the stream, behind what came out before. */
  lemma QueueInStream(calls: seq<Call>, replies: seq<Reply>, queues: seq<seq<Byte>>, i: nat)
    requires IsSession(calls, replies, queues) && i <= |calls|
    ensures var p := |Gone(calls, replies, queues, i)|;
      p <= |Stream(calls, queues)| && queues[i] <= Stream(calls, queues)[p..]
  {
    var gone, stream, sofar := Gone(calls, replies, queues, i), Stream(calls, queues), PutIn(calls, queues, i);
    StreamConserved(calls, replies, queues, i);
    PutInGrows(calls, queues, i, |calls|);
    hide Answers, PutIn, Gone;
    assert gone + queues[i] <= stream;
    InFrontOf(gone, queues[i], stream);
  }

  lemma InFrontOf(a: seq<Byte>, b: seq<Byte>, s: seq<Byte>)
    requires a + b <= s
    ensures |a| <= |s| && b <= s[|a|..]
  {
    assert forall k :: 0 <= k < |b| ==> b[k] == (a + b)[|a| + k];
  }

  lemma SameLine(queue: seq<Byte>, s: seq<Byte>)
    requires queue <= s && LF in queue
    ensures LineLength(s) == LineLength(queue) && s[..LineLength(s)] == queue[..LineLength(queue)]
  {
    LineIsLine(queue);
    FindLFIs(s, FindLF(queue));
  }

  /** The bytes a call delivers when `queue` is there, and `coming` is all that is still to come out. */
  ghost predicate IsPiece(call: Call, data: seq<Byte>, queue: seq<Byte>, coming: seq<Byte>) {
    match call
    case Take(size) => data <= coming && |data| == Min(size, |queue|)
    case Look(size) => data <= coming && |data| == Min(size, |queue|)
    case Line(size, _, untrimmed, _) =>
      LF in coming && HandedOut(coming[..LineLength(coming)], size, untrimmed, data)
    case _ => false
  }

  lemma PieceOfQueue(call: Call, queue: seq<Byte>, reply: Reply, after: seq<Byte>, coming: seq<Byte>)
    requires Answers(call, queue, reply, after) && reply.Bytes? && queue <= coming
    ensures IsPiece(call, reply.data, queue, coming)
  {
    if call.Line? {
      SameLine(queue, coming);
      assert coming[FindLF(queue)] == LF by {
        LineIsLine(queue);
      }
    }
  }

  /**
   Every piece a call delivered is the stretch of the stream behind what came out before it: as much
   as was asked for and there, or what a buffer receives of the next line.
   */
  lemma DeliveredInOrder(calls: seq<Call>, replies: seq<Reply>, queues: seq<seq<Byte>>, i: nat)
    requires IsSession(calls, replies, queues) && i < |calls| && replies[i].Bytes?
    ensures var p := |Gone(calls, replies, queues, i)|;
      && p <= |Stream(calls, queues)|
      && IsPiece(calls[i], replies[i].data, queues[i], Stream(calls, queues)[p..])
  {
    hide Gone, PutIn, Answers, IsPiece, Stream;
    QueueInStream(calls, replies, queues, i);
    PieceOfQueue(
      calls[i], queues[i], replies[i], queues[i + 1], Stream(calls, queues)[|Gone(calls, replies, queues, i)|..]);
  }

  /**
   Reading untrimmed lines until none is left, with room for the longest, cuts the stream into its
   lines and the unfinished rest.
   */
  method ReadLines(c: Chain, buf: array<Byte>) returns (lines: seq<seq<Byte>>)
    requires c.Valid() && buf !in c.Repr
    requires forall i :: 0 <= i < |SplitLines(c.Contents()).0| ==> |SplitLines(c.Contents()).0[i]| < buf.Length
    modifies c.Repr, buf
    ensures c.Valid()
    ensures (lines, c.Contents()) == SplitLines(old(c.Contents()))
  {
    lines := [];
    while true
      invariant c.Valid() && fresh(c.Repr - old(c.Repr)) && buf !in c.Repr
      invariant LinesSoFar(lines, c.Contents(), old(c.Contents()))
      decreases |c.Contents()|
    {
      NextLine(lines, c.Contents(), old(c.Contents()), buf.Length);
      var rc, n := c.Gets(buf, buf.Length, false, true, false);
      if rc == NoData {
        return;
      }
      lines := lines + [buf[..n]];
    }
  }

  ghost predicate LinesSoFar(lines: seq<seq<Byte>>, now: seq<Byte>, all: seq<Byte>) {
    lines + SplitLines(now).0 == SplitLines(all).0 && SplitLines(now).1 == SplitLines(all).1
  }

  lemma NextLine(lines: seq<seq<Byte>>, now: seq<Byte>, all: seq<Byte>, room: nat)
    requires LinesSoFar(lines, now, all)
    requires forall i :: 0 <= i < |SplitLines(all).0| ==> |SplitLines(all).0[i]| < room
    ensures LF !in now ==> SplitLines(all) == (lines, now)
    ensures LF in now ==>
      var n := LineLength(now);
      0 < n < room && (forall text :: HandedOut(now[..n], room, true, text) ==> text == now[..n])
      && LinesSoFar(lines + [now[..n]], now[n..], all)
  {
    if LF in now {
      var n := LineLength(now);
      LineIsLine(now);
      var rest := SplitLines(now[n..]).0;
      assert SplitLines(now).0 == [now[..n]] + rest;
      assert (lines + SplitLines(now).0)[|lines|] == now[..n];
      assert lines + ([now[..n]] + rest) == (lines + [now[..n]]) + rest;
    } else {
      assert lines + [] == lines;
    }
  }

  // ----- packets -----

  datatype PacketCall = Send(src: seq<Byte>, grants: nat) | Receive

  /** The packet an accepted send puts in: an empty one puts in none, a long one is cut. */
  function SentBy(call: PacketCall, accepted: bool): seq<seq<Byte>> {
    if call.Send? && accepted && call.src != [] then [call.src[..Min(|call.src|, 2048)]] else []
  }

  ghost function Sent(calls: seq<PacketCall>, accepted: seq<bool>): seq<seq<Byte>>
    requires |accepted| <= |calls|
  {
    if accepted == [] then []
    else
      var n := |accepted| - 1;
      Sent(calls, accepted[..n]) + SentBy(calls[n], accepted[n])
  }

  /** One read with a buffer of a whole block takes exactly the first packet, when there is one. */
  method ReceiveOne(c: Chain, buf: array<Byte>) returns (got: seq<seq<Byte>>)
    requires PacketChain.Valid(c) && buf !in c.Repr && buf.Length == 2048
    modifies c.Repr, buf
    ensures PacketChain.Valid(c) && c.Repr == old(c.Repr)
    ensures got + PacketChain.Packets(c) == old(PacketChain.Packets(c))
    ensures |got| <= 1 && (got == [] <==> old(PacketChain.Packets(c)) == [])
  {
    ghost var p := PacketChain.Packets(c);
    assert p != [] ==> c.blocks[0].Holds(p[0]) && |p[0]| <= 2048;
    var n := PacketChain.Extract(c, buf, buf.Length);
    assert p != [] ==> buf[..n] == p[0] && n > 0 && p == [p[0]] + p[1..];
    got := if n == 0 then [] else [buf[..n]];
  }

  /** One call; `got` is what it received.  A send is refused only when the allocator gives nothing. */
  method OnePacketCall(c: Chain, call: PacketCall, buf: array<Byte>) returns (got: seq<seq<Byte>>, ok: bool)
    requires PacketChain.Valid(c) && buf !in c.Repr && buf.Length == 2048
    modifies c.Repr, buf
    ensures PacketChain.Valid(c) && fresh(c.Repr - old(c.Repr))
    ensures got + PacketChain.Packets(c) == old(PacketChain.Packets(c)) + SentBy(call, ok)
    ensures call.Send? && call.grants > 0 ==> ok
    ensures call.Receive? ==> |got| <= 1 && (got == [] <==> old(PacketChain.Packets(c)) == [])
  {
    if call.Send? {
      ok := PacketChain.Append(c, call.src, call.grants);
      got := [];
      assert got + PacketChain.Packets(c) == PacketChain.Packets(c);
    } else {
      ok := true;
      got := ReceiveOne(c, buf);
    }
    assert old(PacketChain.Packets(c)) + [] == old(PacketChain.Packets(c));
  }

  /**
   Any sequence of sends and receives: the packets received, then those queued, are those queued
   before, then those sent and accepted.
   */
  method PacketSession(c: Chain, calls: seq<PacketCall>, buf: array<Byte>)
    returns (got: seq<seq<Byte>>, accepted: seq<bool>)
    requires PacketChain.Valid(c) && buf !in c.Repr && buf.Length == 2048
    modifies c.Repr, buf
    ensures PacketChain.Valid(c)
    ensures |accepted| == |calls| && forall i :: 0 <= i < |calls| && calls[i].Send? && calls[i].grants > 0 ==>
      accepted[i]
    ensures got + PacketChain.Packets(c) == old(PacketChain.Packets(c)) + Sent(calls, accepted)
  {
    hide Sent, SentBy, PacketChain.PacketsOf;
    ghost var before := PacketChain.Packets(c);
    got, accepted := [], [];
    SentNothing(calls);
    var i := 0;
    while i < |calls|
      invariant 0 <= i <= |calls| && |accepted| == i
      invariant forall k :: 0 <= k < i && calls[k].Send? && calls[k].grants > 0 ==> accepted[k]
      invariant PacketChain.Valid(c) && fresh(c.Repr - old(c.Repr)) && buf !in c.Repr
      invariant got + PacketChain.Packets(c) == before + Sent(calls, accepted)
    {
      ghost var queued := PacketChain.Packets(c);
      var one, ok := OnePacketCall(c, calls[i], buf);
      Regroup(got, one, PacketChain.Packets(c), queued, SentBy(calls[i], ok), before, Sent(calls, accepted));
      SentNext(calls, accepted, ok);
      got, accepted := got + one, accepted + [ok];
      i := i + 1;
    }
  }

  lemma SentNothing(calls: seq<PacketCall>)
    ensures Sent(calls, []) == []
  {
  }

  lemma SentNext(calls: seq<PacketCall>, accepted: seq<bool>, ok: bool)
    requires |accepted| < |calls|
    ensures Sent(calls, accepted + [ok]) == Sent(calls, accepted) + SentBy(calls[|accepted|], ok)
  {
    assert (accepted + [ok])[..|accepted|] == accepted;
  }

  lemma Regroup<T>(got: seq<T>, one: seq<T>, now: seq<T>, queued: seq<T>, sent: seq<T>, before: seq<T>, earlier: seq<T>)
    requires one + now == queued + sent && got + queued == before + earlier
    ensures (got + one) + now == before + (earlier + sent)
  {
    AssocParts(got, one, now);
    AssocParts(got, queued, sent);
    AssocParts(before, earlier, sent);
  }

  lemma AssocParts<T>(a: seq<T>, b: seq<T>, c: seq<T>)
    ensures (a + b) + c == a + (b + c)
  {
  }
}
