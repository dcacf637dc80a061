/**
 Reading a name out of a packet, following compression pointers (section 4.1.4 of RFC 1035): when
 it ends, and what it reads.
 */
module DnsDecompress {
  import opened Common
  import opened Bytes
  import opened DnsWire
  import opened DnsNames

  // ----- pointers -----

  predicate IsPointer(p: seq<Byte>, o: nat) {
    o + 1 < |p| && p[o] >= 192
  }

  function Target(p: seq<Byte>, o: nat): nat
    requires IsPointer(p, o)
  {
    (p[o] as int % 64) * 256 + p[o + 1] as int
  }

  /** A pointer into the packet. */
  predicate Leads(p: seq<Byte>, o: nat) {
    IsPointer(p, o) && Target(p, o) < |p|
  }

  /** Following pointers that point directly at pointers comes to an end within `k` hops. */
  predicate ChainEnds(p: seq<Byte>, o: nat, k: nat)
    decreases k
  {
    !Leads(p, o) || (k > 0 && ChainEnds(p, Target(p, o), k - 1))
  }

  ghost predicate SomeEnd(p: seq<Byte>, o: nat) {
    exists k: nat :: ChainEnds(p, o, k)
  }

  /** No chain of pointers pointing directly at pointers runs in a circle. */
  ghost predicate PointersEnd(p: seq<Byte>) {
    forall o: nat :: o < |p| ==> SomeEnd(p, o)
  }

  /** A number for each offset that gets smaller along every pointer. */
  ghost predicate Ranked(p: seq<Byte>, rank: seq<nat>) {
    |rank| == |p| && forall o: nat :: o < |p| && Leads(p, o) ==> rank[Target(p, o)] < rank[o]
  }

  // ----- what is read -----

  datatype Outcome = Looping | Failed | Name(text: seq<Byte>, src: nat)

  function StripDots(s: seq<Byte>): (t: seq<Byte>)
    ensures t <= s
  {
    if s != [] && s[|s| - 1] == DOT then StripDots(s[..|s| - 1]) else s
  }

  /** The string handed out: without dots at the end, and shortened by one when its terminator would not fit. */
  function Finish(out: seq<Byte>, size: nat): (s: seq<Byte>)
    ensures s <= out
    ensures |out| <= size && size > 0 ==> |s| < size
  {
    var s := StripDots(out);
    if |s| == size && s != [] then s[..|s| - 1] else s
  }

  /** How many bytes of the label at `o` are copied into a buffer of `size` bytes behind `at` bytes. */
  function Copied(p: seq<Byte>, o: nat, at: nat, size: nat): (k: nat)
    requires o < |p| && at <= size
    ensures o + 1 + k <= |p| && at + k <= size
  {
    Min(Min(p[o], |p| - o - 1), size - at)
  }

  /** The buffer after the label at `o`: its bytes, and a dot if there is room. */
  function WithLabel(p: seq<Byte>, o: nat, out: seq<Byte>, size: nat): (r: seq<Byte>)
    requires o < |p| && |out| <= size
    ensures |r| <= size
    ensures |out| < size && p[o] != 0 ==> |r| > |out|
  {
    var k := Copied(p, o, |out|, size);
    out + p[o + 1..o + 1 + k] + (if |out| + k < size then [DOT] else [])
  }

  /**
   The reading itself: from offset `o`, into a buffer of `size` bytes that holds `out`, following at
   most `fuel` pointers.
   */
  function Read(fuel: nat, p: seq<Byte>, o: nat, out: seq<Byte>, size: nat): Outcome
    requires |out| <= size
    decreases fuel, |p| - o
  {
    if o >= |p| || p[o] == 0 then Name(Finish(out, size), o)
    else if p[o] < 192 then Read(fuel, p, o + 1 + Copied(p, o, |out|, size), WithLabel(p, o, out, size), size)
    else if !Leads(p, o) || |out| == size then Failed
    else if fuel == 0 then Looping
    else
      ThroughPointer(Read(fuel - 1, p, Target(p, o), out, size), o)
  }

  /** What a name read through the pointer at `o` comes to. */
  function ThroughPointer(r: Outcome, o: nat): Outcome {
    if r.Name? then Name(r.text, o + 2) else r
  }

  /** More fuel changes nothing once the reading has ended. */
  lemma {:induction false} MoreFuel(f: nat, g: nat, p: seq<Byte>, o: nat, out: seq<Byte>, size: nat)
    requires |out| <= size
    requires f <= g && Read(f, p, o, out, size) != Looping
    ensures Read(g, p, o, out, size) == Read(f, p, o, out, size)
    decreases f, |p| - o
  {
    if o >= |p| || p[o] == 0 {
    } else if p[o] < 192 {
      MoreFuel(f, g, p, o + 1 + Copied(p, o, |out|, size), WithLabel(p, o, out, size), size);
    } else if Leads(p, o) && |out| < size {
      MoreFuel(f - 1, g - 1, p, Target(p, o), out, size);
    }
  }

  // ----- when it ends -----

  /** With a full buffer the next pointer fails, so the end of the packet bounds the reading. */
  lemma {:induction false} FullBufferEnds(p: seq<Byte>, o: nat, out: seq<Byte>)
    ensures Read(0, p, o, out, |out|) != Looping
    decreases |p| - o
  {
    if o < |p| && 0 < p[o] < 192 {
      assert WithLabel(p, o, out, |out|) == out;
      FullBufferEnds(p, o + 1, out);
    }
  }

  /** The reading ends: every label fills the buffer, and every pointer goes down in rank. */
  lemma {:induction false} RankedReadEnds(p: seq<Byte>, rank: seq<nat>, o: nat, out: seq<Byte>, size: nat)
    returns (fuel: nat)
    requires Ranked(p, rank) && |out| <= size
    ensures Read(fuel, p, o, out, size) != Looping
    decreases size - |out|, if o < |p| then rank[o] else 0
  {
    fuel := 0;
    if |out| == size {
      FullBufferEnds(p, o, out);
    } else if o >= |p| || p[o] == 0 {
    } else if p[o] < 192 {
      fuel := RankedReadEnds(p, rank, o + 1 + Copied(p, o, |out|, size), WithLabel(p, o, out, size), size);
    } else if Leads(p, o) {
      fuel := RankedReadEnds(p, rank, Target(p, o), out, size);
      fuel := fuel + 1;
    }
  }

  /** On a chain of pointers without end the reading goes on for ever. */
  lemma {:induction false} EndlessChainLoops(p: seq<Byte>, o: nat, out: seq<Byte>, size: nat, fuel: nat)
    requires !SomeEnd(p, o) && |out| < size
    ensures Read(fuel, p, o, out, size) == Looping
    decreases fuel
  {
    assert !ChainEnds(p, o, 0);
    assert Leads(p, o);
    if fuel > 0 {
      forall k: nat ensures !ChainEnds(p, Target(p, o), k) {
        assert !ChainEnds(p, o, k + 1);
      }
      EndlessChainLoops(p, Target(p, o), out, size, fuel - 1);
    }
  }

  lemma {:induction false} LongerChainEnds(p: seq<Byte>, o: nat, k: nat, m: nat)
    requires ChainEnds(p, o, k) && k <= m
    ensures ChainEnds(p, o, m)
    decreases k
  {
    if Leads(p, o) {
      LongerChainEnds(p, Target(p, o), k - 1, m - 1);
    }
  }

  /** How many hops it takes. */
  ghost function Hops(p: seq<Byte>, o: nat): (k: nat)
    requires SomeEnd(p, o)
    ensures ChainEnds(p, o, k) && (k > 0 ==> !ChainEnds(p, o, k - 1))
  {
    var k :| ChainEnds(p, o, k);
    Least(p, o, k)
  }

  ghost function Least(p: seq<Byte>, o: nat, k: nat): (m: nat)
    requires ChainEnds(p, o, k)
    ensures ChainEnds(p, o, m) && (m > 0 ==> !ChainEnds(p, o, m - 1))
  {
    if k == 0 || !ChainEnds(p, o, k - 1) then k else Least(p, o, k - 1)
  }

  lemma HopsGoDown(p: seq<Byte>, o: nat)
    requires Leads(p, o) && SomeEnd(p, o)
    ensures SomeEnd(p, Target(p, o)) && Hops(p, Target(p, o)) < Hops(p, o)
  {
    var k, t := Hops(p, o), Target(p, o);
    assert ChainEnds(p, t, k - 1);
    var m := Hops(p, t);
    if m > 0 && k - 1 < m {
      if k - 1 <= m - 1 { LongerChainEnds(p, t, k - 1, m - 1); }
    }
  }

  ghost function RankOf(p: seq<Byte>): (rank: seq<nat>)
    requires PointersEnd(p)
    ensures Ranked(p, rank)
  {
    var rank := seq(|p|, o requires 0 <= o < |p| && SomeEnd(p, o) => Hops(p, o));
    assert Ranked(p, rank) by {
      forall o: nat | o < |p| && Leads(p, o) ensures rank[Target(p, o)] < rank[o] {
        HopsGoDown(p, o);
      }
    }
    rank
  }

  ghost predicate ReadEnds(p: seq<Byte>, o: nat, out: seq<Byte>, size: nat)
    requires |out| <= size
  {
    exists fuel: nat :: Read(fuel, p, o, out, size) != Looping
  }

  /** Reading ends from every offset, into every buffer, if and only if no chain of bare pointers runs in a circle. */
  lemma ReadingEndsIffPointersEnd(p: seq<Byte>)
    ensures (forall o: nat, out: seq<Byte>, size: nat :: |out| <= size ==> ReadEnds(p, o, out, size)) <==>
      PointersEnd(p)
  {
    if PointersEnd(p) {
      forall o: nat, out: seq<Byte>, size: nat | |out| <= size ensures ReadEnds(p, o, out, size) {
        var fuel := RankedReadEnds(p, RankOf(p), o, out, size);
      }
    } else {
      var o: nat :| o < |p| && !SomeEnd(p, o);
      forall fuel: nat ensures Read(fuel, p, o, [], 1) == Looping {
        EndlessChainLoops(p, o, [], 1, fuel);
      }
      assert !ReadEnds(p, o, [], 1);
    }
  }

  /** Pointers that refer to earlier offsets only, as the standard has them. */
  predicate PointBack(p: seq<Byte>) {
    forall o :: 0 <= o < |p| && Leads(p, o) ==> Target(p, o) < o
  }

  lemma {:induction false} BackwardChainEnds(p: seq<Byte>, o: nat)
    requires PointBack(p) && o < |p|
    ensures ChainEnds(p, o, o)
  {
    if Leads(p, o) {
      BackwardChainEnds(p, Target(p, o));
      LongerChainEnds(p, Target(p, o), Target(p, o), o - 1);
    }
  }

  /** On every packet whose pointers refer to strictly earlier offsets, reading a name ends. */
  lemma BackwardPointersEnd(p: seq<Byte>)
    requires PointBack(p)
    ensures PointersEnd(p)
  {
    forall o: nat | o < |p| ensures SomeEnd(p, o) {
      BackwardChainEnds(p, o);
    }
  }

  /** A pointer to itself is never done with. */
  lemma {:induction false} SelfPointerLoops(size: nat, fuel: nat)
    requires size > 0
    ensures Read(fuel, [192, 0], 0, [], size) == Looping
  {
    var p: seq<Byte> := [192, 0];
    forall k: nat ensures !ChainEnds(p, 0, k) {
      SelfChain(p, k);
    }
    EndlessChainLoops(p, 0, [], size, fuel);
  }

  lemma {:induction false} SelfChain(p: seq<Byte>, k: nat)
    requires p == [192, 0]
    ensures !ChainEnds(p, 0, k)
  {
    assert Target(p, 0) == 0;
    if k > 0 { SelfChain(p, k - 1); }
  }

  /** The offsets a chain goes through, each with fewer hops left than the one before. */
  ghost function Visited(p: seq<Byte>, o: nat): (s: set<nat>)
    requires o < |p| && SomeEnd(p, o)
    ensures |s| == Hops(p, o) + 1
    ensures forall x :: x in s ==> x < |p| && SomeEnd(p, x) && Hops(p, x) <= Hops(p, o)
    decreases Hops(p, o)
  {
    if !Leads(p, o) then NoHops(p, o); {o}
    else
      HopsGoDown(p, o);
      OneHopMore(p, o);
      Visited(p, Target(p, o)) + {o}
  }

  lemma NoHops(p: seq<Byte>, o: nat)
    requires SomeEnd(p, o) && !Leads(p, o)
    ensures Hops(p, o) == 0
  {
    assert ChainEnds(p, o, 0);
  }

  lemma OneHopMore(p: seq<Byte>, o: nat)
    requires Leads(p, o) && SomeEnd(p, o)
    ensures SomeEnd(p, Target(p, o)) && Hops(p, o) == Hops(p, Target(p, o)) + 1
  {
    HopsGoDown(p, o);
    var m := Hops(p, Target(p, o));
    assert ChainEnds(p, o, m + 1);
    if Hops(p, o) > m + 1 { LongerChainEnds(p, o, m + 1, Hops(p, o) - 1); }
  }

  lemma {:induction false} SmallNumbers(s: set<nat>, n: nat)
    requires forall x :: x in s ==> x < n
    ensures |s| <= n
  {
    if n == 0 {
      assert s == {};
    } else {
      SmallNumbers(s - {n - 1}, n - 1);
      assert s <= (s - {n - 1}) + {n - 1};
    }
  }

  /** Whether a chain ends can be told by following it for as many hops as the packet has bytes. */
  lemma EndIsDecidable(p: seq<Byte>, o: nat)
    requires o < |p|
    ensures SomeEnd(p, o) <==> ChainEnds(p, o, |p|)
  {
    if SomeEnd(p, o) {
      SmallNumbers(Visited(p, o), |p|);
      LongerChainEnds(p, o, Hops(p, o), |p|);
    }
  }

  // ----- when the reading of one name ends -----

  /** Where a chain of bare pointers stops. */
  ghost function ChainStop(p: seq<Byte>, o: nat): (e: nat)
    requires SomeEnd(p, o)
    ensures !Leads(p, e)
    decreases Hops(p, o)
  {
    if !Leads(p, o) then o
    else
      HopsGoDown(p, o);
      ChainStop(p, Target(p, o))
  }

  /**
   Every chain of bare pointers that is met while there is room in the buffer ends: the one at `o`, and
   those behind the label it stops at.
   */
  ghost predicate ChainsMetEnd(p: seq<Byte>, o: nat, out: seq<Byte>, size: nat)
    requires |out| <= size
    decreases size - |out|
  {
    || |out| == size
    || (SomeEnd(p, o)
      && var e := ChainStop(p, o);
        e < |p| && 0 < p[e] < 192 ==>
          ChainsMetEnd(p, e + 1 + Copied(p, e, |out|, size), WithLabel(p, e, out, size), size))
  }

  lemma {:induction false} ReadFromStop(p: seq<Byte>, o: nat, out: seq<Byte>, size: nat)
    requires |out| < size && SomeEnd(p, o)
    ensures ReadEnds(p, o, out, size) <==> ReadEnds(p, ChainStop(p, o), out, size)
    decreases Hops(p, o)
  {
    if Leads(p, o) {
      HopsGoDown(p, o);
      ReadFromStop(p, Target(p, o), out, size);
      OneHop(p, o, out, size);
      hide ChainEnds;
    }
  }

  lemma OneHop(p: seq<Byte>, o: nat, out: seq<Byte>, size: nat)
    requires |out| < size && Leads(p, o)
    ensures ReadEnds(p, o, out, size) <==> ReadEnds(p, Target(p, o), out, size)
  {
    if ReadEnds(p, o, out, size) {
      var fuel: nat :| Read(fuel, p, o, out, size) != Looping;
      assert Read(fuel - 1, p, Target(p, o), out, size) != Looping;
    }
    if ReadEnds(p, Target(p, o), out, size) {
      var fuel: nat :| Read(fuel, p, Target(p, o), out, size) != Looping;
      assert Read(fuel + 1, p, o, out, size) != Looping;
    }
  }

  lemma OneLabel(p: seq<Byte>, o: nat, out: seq<Byte>, size: nat)
    requires |out| < size && !Leads(p, o)
    ensures ReadEnds(p, o, out, size) <==> (o < |p| && 0 < p[o] < 192 ==>
      ReadEnds(p, o + 1 + Copied(p, o, |out|, size), WithLabel(p, o, out, size), size))
  {
    if o < |p| && 0 < p[o] < 192 {
      var o', out' := o + 1 + Copied(p, o, |out|, size), WithLabel(p, o, out, size);
      if ReadEnds(p, o, out, size) {
        var fuel: nat :| Read(fuel, p, o, out, size) != Looping;
        assert Read(fuel, p, o', out', size) != Looping;
      }
      if ReadEnds(p, o', out', size) {
        var fuel: nat :| Read(fuel, p, o', out', size) != Looping;
        assert Read(fuel, p, o, out, size) != Looping;
      }
    } else {
      assert Read(0, p, o, out, size) != Looping;
    }
  }

  /**
   Reading one name from `o`, into a buffer of `size` bytes, ends if and only if every chain of bare
   pointers that it meets while there is room in the buffer ends.
   */
  lemma {:induction false} NameEndsIff(p: seq<Byte>, o: nat, out: seq<Byte>, size: nat)
    requires |out| <= size
    ensures ReadEnds(p, o, out, size) <==> ChainsMetEnd(p, o, out, size)
    decreases size - |out|
  {
    if |out| == size {
      FullBufferEnds(p, o, out);
    } else if !SomeEnd(p, o) {
      forall fuel: nat ensures Read(fuel, p, o, out, size) == Looping {
        EndlessChainLoops(p, o, out, size, fuel);
      }
    } else {
      var e := ChainStop(p, o);
      ReadFromStop(p, o, out, size);
      OneLabel(p, e, out, size);
      if e < |p| && 0 < p[e] < 192 {
        NameEndsIff(p, e + 1 + Copied(p, e, |out|, size), WithLabel(p, e, out, size), size);
      }
      hide ReadEnds, SomeEnd;
    }
  }

  /** How many pointers are followed at most: as many as the packet has bytes, for each byte of room and once more. */
  function Enough(p: seq<Byte>, room: nat): nat {
    if room == 0 then |p| else |p| + Enough(p, room - 1)
  }

  lemma {:induction false} EnoughIs(p: seq<Byte>, room: nat)
    ensures Enough(p, room) == (room + 1) * |p|
  {
    if room > 0 { EnoughIs(p, room - 1); }
  }

  lemma {:induction false} MoreRoom(p: seq<Byte>, less: nat, room: nat)
    requires less < room
    ensures Enough(p, less) + |p| <= Enough(p, room)
  {
    if less < room - 1 { MoreRoom(p, less, room - 1); }
  }

  lemma SomeEndIfRead(p: seq<Byte>, o: nat, out: seq<Byte>, size: nat, fuel: nat)
    requires |out| < size && Read(fuel, p, o, out, size) != Looping
    ensures ChainEnds(p, o, |p|)
  {
    if !SomeEnd(p, o) {
      EndlessChainLoops(p, o, out, size, fuel);
    } else if o < |p| {
      EndIsDecidable(p, o);
    }
  }

  /** A reading that ends follows at most `k` pointers to its first label, and `Enough` in all. */
  lemma {:induction false} EndsWithin(p: seq<Byte>, o: nat, out: seq<Byte>, size: nat, fuel: nat, k: nat, all: nat)
    requires |out| <= size && Read(fuel, p, o, out, size) != Looping
    requires |out| < size ==> ChainEnds(p, o, k) && all + |p| >= Enough(p, size - |out|) + k
    ensures Read(all, p, o, out, size) != Looping
    decreases size - |out|, k
  {
    if |out| == size {
      FullBufferEnds(p, o, out);
      MoreFuel(0, all, p, o, out, size);
    } else if o >= |p| || p[o] == 0 {
    } else if p[o] < 192 {
      var o', out' := o + 1 + Copied(p, o, |out|, size), WithLabel(p, o, out, size);
      MoreRoom(p, size - |out'|, size - |out|);
      hide Enough, ChainEnds, WithLabel;
      if |out'| < size { SomeEndIfRead(p, o', out', size, fuel); }
      EndsWithin(p, o', out', size, fuel, |p|, all);
    } else if Leads(p, o) {
      AtLeastOnce(p, size - |out|);
      hide Enough;
      EndsWithin(p, Target(p, o), out, size, fuel - 1, k - 1, all - 1);
    }
  }

  lemma {:induction false} AtLeastOnce(p: seq<Byte>, room: nat)
    ensures Enough(p, room) >= |p|
  {
    if room > 0 { AtLeastOnce(p, room - 1); }
  }

  /** Whether reading a name ends can be told by following that many pointers. */
  lemma NameEndIsDecidable(p: seq<Byte>, o: nat, out: seq<Byte>, size: nat)
    requires |out| <= size
    ensures ReadEnds(p, o, out, size) <==> Read((size - |out| + 1) * |p|, p, o, out, size) != Looping
  {
    EnoughIs(p, size - |out|);
    if ReadEnds(p, o, out, size) {
      var fuel: nat :| Read(fuel, p, o, out, size) != Looping;
      if |out| < size { SomeEndIfRead(p, o, out, size, fuel); }
      EndsWithin(p, o, out, size, fuel, |p|, Enough(p, size - |out|));
    }
  }

  // ----- what a well-formed name means -----

  /** The two bytes of a pointer to offset `t` stand at `o` (section 4.1.4 of RFC 1035). */
  ghost predicate PointsTo(p: seq<Byte>, o: nat, t: nat) {
    t < 0x4000 && Has(p, o, [192 + t / 256, t % 256])
  }

  /** Those bytes are followed to `t`, if the packet goes that far. */
  lemma PointerIsFollowed(p: seq<Byte>, o: nat, t: nat)
    requires PointsTo(p, o, t)
    ensures IsPointer(p, o) && Target(p, o) == t && (Leads(p, o) <==> t < |p|)
  {
    var w: seq<Byte> := [192 + t / 256, t % 256];
    assert p[o + 0] == w[0] && p[o + 1] == w[1];
  }

  /** What is followed, or refused, without looking at what it points to. */
  lemma PointerIsRead(fuel: nat, p: seq<Byte>, o: nat, t: nat, out: seq<Byte>, size: nat)
    requires PointsTo(p, o, t) && |out| <= size
    ensures t >= |p| || |out| == size ==> Read(fuel, p, o, out, size) == Failed
    ensures t < |p| && |out| < size && fuel > 0 ==>
      Read(fuel, p, o, out, size) ==
        match Read(fuel - 1, p, t, out, size)
        case Name(text, _) => Name(text, o + 2)
        case r => r
  {
    PointerIsFollowed(p, o, t);
    assert p[o] >= 192;
  }

  /** From offset `o` the packet spells exactly these labels, through at most `hops` pointers. */
  ghost predicate Spells(p: seq<Byte>, o: nat, labels: seq<seq<Byte>>, hops: nat)
    decreases hops, |p| - o
  {
    && o < |p|
    && if p[o] == 0 then labels == []
       else if p[o] < 192 then
         && labels != [] && |labels[0]| == p[o] && Has(p, o + 1, labels[0])
         && Spells(p, o + 1 + |labels[0]|, labels[1..], hops)
       else hops > 0 && exists t: nat :: t < |p| && PointsTo(p, o, t) && Spells(p, t, labels, hops - 1)
  }

  /** Every label with a dot behind it. */
  function DotEnded(labels: seq<seq<Byte>>): seq<Byte> {
    if labels == [] then [] else labels[0] + [DOT] + DotEnded(labels[1..])
  }

  lemma ReadOneLabel(fuel: nat, p: seq<Byte>, o: nat, l: seq<Byte>, out: seq<Byte>, size: nat)
    requires o < |p| && 0 < p[o] < 192 && |l| == p[o] && Has(p, o + 1, l)
    requires size > |out| + |l|
    ensures Read(fuel, p, o, out, size) == Read(fuel, p, o + 1 + |l|, out + (l + [DOT]), size)
  {
    HasSlice(p, o + 1, l);
    assert WithLabel(p, o, out, size) == out + (l + [DOT]);
  }

  /**
   Reading a spelled name writes its labels, each with a dot, when the buffer has room to spare; an
   uncompressed name is read up to its terminator.
   */
  lemma {:induction false} ReadsWhatIsSpelled(p: seq<Byte>, o: nat, labels: seq<seq<Byte>>, hops: nat,
      out: seq<Byte>, size: nat)
    requires Spells(p, o, labels, hops)
    requires size >= |out + DotEnded(labels)| + (if hops > 0 then 1 else 0)
    ensures var r := Read(hops, p, o, out, size);
      && r.Name? && r.text == Finish(out + DotEnded(labels), size)
      && (hops == 0 ==> r.src == o + |DotEnded(labels)|)
    decreases hops, |p| - o
  {
    if p[o] == 0 {
      assert out + [] == out;
    } else if p[o] < 192 {
      var l := labels[0];
      DotEndedFirst(out, labels);
      ReadsWhatIsSpelled(p, o + 1 + |l|, labels[1..], hops, out + (l + [DOT]), size);
      ReadOneLabel(hops, p, o, l, out, size);
    } else {
      var t: nat :| t < |p| && PointsTo(p, o, t) && Spells(p, t, labels, hops - 1);
      PointerIsFollowed(p, o, t);
      ReadsWhatIsSpelled(p, t, labels, hops - 1, out, size);
    }
  }

  lemma DotEndedFirst(out: seq<Byte>, labels: seq<seq<Byte>>)
    requires labels != []
    ensures out + DotEnded(labels) == (out + (labels[0] + [DOT])) + DotEnded(labels[1..])
    ensures |DotEnded(labels)| == |labels[0]| + 1 + |DotEnded(labels[1..])|
  {
    Assoc(out, labels[0] + [DOT], DotEnded(labels[1..]));
  }

  lemma {:induction false} DotEndedIsJoined(labels: seq<seq<Byte>>)
    requires labels != []
    ensures DotEnded(labels) == Joined(labels) + [DOT]
  {
    if |labels| > 1 {
      DotEndedIsJoined(labels[1..]);
      Assoc(labels[0] + [DOT], Joined(labels[1..]), [DOT]);
    } else {
      assert labels[1..] == [];
    }
  }

  ghost predicate PlainLabels(labels: seq<seq<Byte>>) {
    forall i :: 0 <= i < |labels| ==> labels[i] != [] && DOT !in labels[i]
  }

  lemma {:induction false} JoinedEndsInLabel(labels: seq<seq<Byte>>)
    requires labels != [] && PlainLabels(labels)
    ensures Joined(labels) != [] && Joined(labels)[|Joined(labels)| - 1] != DOT
  {
    if |labels| > 1 {
      JoinedEndsInLabel(labels[1..]);
    }
  }

  /**
   On a well-formed name other than the root, with labels free of dots, and room to spare, reading
   writes exactly the labels with dots between them.
   */
  lemma NameReadsAsJoined(p: seq<Byte>, o: nat, labels: seq<seq<Byte>>, hops: nat, size: nat, fuel: nat)
    requires Spells(p, o, labels, hops) && labels != [] && PlainLabels(labels)
    requires size >= |Joined(labels)| + 1 + (if hops > 0 then 1 else 0)
    requires fuel >= hops
    ensures Read(fuel, p, o, [], size).Name? && Read(fuel, p, o, [], size).text == Joined(labels)
  {
    DotEndedIsJoined(labels);
    JoinedEndsInLabel(labels);
    assert [] + DotEnded(labels) == DotEnded(labels);
    ReadsWhatIsSpelled(p, o, labels, hops, [], size);
    MoreFuel(hops, fuel, p, o, [], size);
    FinishDotEnded(Joined(labels), size);
  }

  lemma FinishDotEnded(s: seq<Byte>, size: nat)
    requires s != [] && s[|s| - 1] != DOT && size > |s|
    ensures Finish(s + [DOT], size) == s
  {
    assert (s + [DOT])[..|s|] == s;
    assert StripDots(s + [DOT]) == StripDots(s);
  }

  // ----- names that do not fit -----

  /** Bytes that are neither the root nor part of a pointer. */
  ghost predicate Ordinary(labels: seq<seq<Byte>>) {
    forall i, j :: 0 <= i < |labels| && 0 <= j < |labels[i]| ==> 1 <= labels[i][j] < 192
  }

  lemma OrdinaryFirst(p: seq<Byte>, o: nat, labels: seq<seq<Byte>>)
    requires labels != [] && Ordinary(labels) && Has(p, o, labels[0])
    ensures Ordinary(labels[1..]) && forall i :: o <= i < o + |labels[0]| ==> 1 <= p[i] < 192
  {
    forall i | o <= i < o + |labels[0]| ensures 1 <= p[i] < 192 {
      assert p[o + (i - o)] == labels[0][i - o];
    }
  }

  /** The root or the first label of an uncompressed name. */
  lemma UnfoldSpelled(p: seq<Byte>, o: nat, labels: seq<seq<Byte>>)
    requires Spells(p, o, labels, 0)
    ensures o < |p| && (labels == [] <==> p[o] == 0)
    ensures labels != [] ==>
      0 < p[o] < 192 && |labels[0]| == p[o] && Has(p, o + 1, labels[0])
      && Spells(p, o + 1 + |labels[0]|, labels[1..], 0)
  {
  }

  /** An uncompressed name has no other bytes up to its terminator. */
  lemma {:induction false} OrdinaryStretch(p: seq<Byte>, o: nat, labels: seq<seq<Byte>>)
    requires Spells(p, o, labels, 0) && Ordinary(labels)
    ensures var e := o + |DotEnded(labels)|;
      e < |p| && p[e] == 0 && forall i :: o <= i < e ==> 1 <= p[i] < 192
    decreases |labels|
  {
    hide Spells, Ordinary, Has;
    UnfoldSpelled(p, o, labels);
    if labels != [] {
      DotEndedFirst([], labels);
      hide DotEnded;
      OrdinaryFirst(p, o + 1, labels);
      OrdinaryStretch(p, o + 1 + |labels[0]|, labels[1..]);
    }
  }

  /** With a full buffer every such byte is stepped over, one by one. */
  lemma {:induction false} FullStepsOn(p: seq<Byte>, o: nat, out: seq<Byte>, e: nat)
    requires o <= e < |p| && p[e] == 0 && forall i :: o <= i < e ==> 1 <= p[i] < 192
    ensures Read(0, p, o, out, |out|) == Name(Finish(out, |out|), e)
    decreases e - o
  {
    if o < e {
      assert WithLabel(p, o, out, |out|) == out;
      FullStepsOn(p, o + 1, out, e);
    }
  }

  /** The label that fills the buffer. */
  lemma LabelFills(p: seq<Byte>, o: nat, l: seq<Byte>, out: seq<Byte>, size: nat)
    requires o < |p| && 0 < p[o] < 192 && |l| == p[o] && Has(p, o + 1, l)
    requires |out| <= size <= |out| + |l|
    ensures Copied(p, o, |out|, size) == size - |out| && WithLabel(p, o, out, size) == out + l[..size - |out|]
  {
    var k := size - |out|;
    assert p[o + 1..o + 1 + k] == l[..k];
  }

  /** The label at `o` fills the buffer: what it holds then is all that is read. */
  lemma CutInside(p: seq<Byte>, o: nat, labels: seq<seq<Byte>>, out: seq<Byte>, size: nat)
    requires Spells(p, o, labels, 0) && Ordinary(labels) && labels != []
    requires |out| <= size <= |out| + |labels[0]|
    ensures var all := out + DotEnded(labels);
      Read(0, p, o, out, size) == Name(Finish(all[..Min(|all|, size)], size), o + |DotEnded(labels)|)
  {
    hide Read, Spells, Ordinary, WithLabel, Finish, DotEnded, Has;
    var l, k := labels[0], size - |out|;
    UnfoldSpelled(p, o, labels);
    OrdinaryStretch(p, o, labels);
    DotEndedFirst(out, labels);
    FilledRead(p, o, l, out, size);
    assert Min(|out + DotEnded(labels)|, size) == size;
    FullStepsOn(p, o + 1 + k, out + l[..k], o + |DotEnded(labels)|);
    FrontOf(out, l, DotEnded(labels[1..]), size);
  }

  lemma FilledRead(p: seq<Byte>, o: nat, l: seq<Byte>, out: seq<Byte>, size: nat)
    requires o < |p| && 0 < p[o] < 192 && |l| == p[o] && Has(p, o + 1, l)
    requires |out| <= size <= |out| + |l|
    ensures var k := size - |out|;
      |out + l[..k]| == size && Read(0, p, o, out, size) == Read(0, p, o + 1 + k, out + l[..k], size)
  {
    LabelFills(p, o, l, out, size);
  }

  lemma FrontOf(out: seq<Byte>, l: seq<Byte>, more: seq<Byte>, size: nat)
    requires |out| <= size <= |out| + |l|
    ensures ((out + (l + [DOT])) + more)[..size] == out + l[..size - |out|]
  {
  }

  /** Whatever the room, the buffer receives the labels with their dots as far as it goes. */
  lemma {:induction false} ReadsCut(p: seq<Byte>, o: nat, labels: seq<seq<Byte>>, out: seq<Byte>, size: nat)
    requires Spells(p, o, labels, 0) && Ordinary(labels) && |out| <= size
    ensures var all := out + DotEnded(labels);
      Read(0, p, o, out, size) == Name(Finish(all[..Min(|all|, size)], size), o + |DotEnded(labels)|)
    decreases |labels|
  {
    hide *;
    if labels == [] {
      RootCut(p, o, out, size);
    } else if |out| + |labels[0]| < size {
      var l := labels[0];
      LabelThenRest(p, o, labels, out, size);
      ReadsCut(p, o + 1 + |l|, labels[1..], out + (l + [DOT]), size);
    } else {
      CutInside(p, o, labels, out, size);
    }
  }

  lemma RootCut(p: seq<Byte>, o: nat, out: seq<Byte>, size: nat)
    requires Spells(p, o, [], 0) && |out| <= size
    ensures var all := out + DotEnded([]);
      Read(0, p, o, out, size) == Name(Finish(all[..Min(|all|, size)], size), o + |DotEnded([])|)
  {
    assert (out + [])[..|out|] == out;
  }

  lemma LabelThenRest(p: seq<Byte>, o: nat, labels: seq<seq<Byte>>, out: seq<Byte>, size: nat)
    requires Spells(p, o, labels, 0) && Ordinary(labels) && labels != [] && |out| + |labels[0]| < size
    ensures var l := labels[0];
      && Spells(p, o + 1 + |l|, labels[1..], 0) && Ordinary(labels[1..])
      && Read(0, p, o, out, size) == Read(0, p, o + 1 + |l|, out + (l + [DOT]), size)
      && out + DotEnded(labels) == (out + (l + [DOT])) + DotEnded(labels[1..])
      && |DotEnded(labels)| == |l| + 1 + |DotEnded(labels[1..])|
  {
    hide Read, DotEnded, Spells, Has;
    UnfoldSpelled(p, o, labels);
    DotEndedFirst(out, labels);
    ReadOneLabel(0, p, o, labels[0], out, size);
  }

  /** Labels that are not empty and free of dots leave no dot in front and no two dots together. */
  lemma {:induction false} DotsApart(labels: seq<seq<Byte>>)
    requires labels != [] && PlainLabels(labels)
    ensures Joined(labels) != [] && Joined(labels)[0] != DOT
    ensures forall i :: 0 <= i < |Joined(labels)| - 1 && Joined(labels)[i] == DOT ==> Joined(labels)[i + 1] != DOT
  {
    if |labels| > 1 {
      DotsApart(labels[1..]);
      var l, more := labels[0], Joined(labels[1..]);
      var all := l + [DOT] + more;
      assert forall j :: 0 <= j < |l| ==> l[j] != DOT;
      forall i | 0 <= i < |all| - 1 && all[i] == DOT ensures all[i + 1] != DOT {
        if i > |l| { assert all[i] == more[i - |l| - 1]; }
      }
    }
  }

  lemma FinishCut(s: seq<Byte>, size: nat)
    requires 0 < size <= |s| && s[0] != DOT
    requires forall i :: 0 <= i < |s| - 1 && s[i] == DOT ==> s[i + 1] != DOT
    ensures Finish(s[..size], size) == s[..size - 1]
  {
    var t := s[..size];
    assert t[..size - 1] == s[..size - 1];
    if t[size - 1] == DOT {
      assert s[size - 2] != DOT;
      assert StripDots(t) == StripDots(s[..size - 1]) == s[..size - 1];
    }
  }

  /**
   Reading an uncompressed name into a buffer of any size gives its labels with dots between them, cut
   to what the buffer takes with a terminator, and stops at the end of the name.
   */
  lemma NameIsCut(p: seq<Byte>, o: nat, labels: seq<seq<Byte>>, size: nat, fuel: nat)
    requires Spells(p, o, labels, 0) && labels != [] && PlainLabels(labels) && Ordinary(labels) && size > 0
    ensures Read(fuel, p, o, [], size) ==
      Name(Joined(labels)[..Min(|Joined(labels)|, size - 1)], o + |DotEnded(labels)|)
  {
    var s := Joined(labels);
    hide Read, Finish, Spells, PlainLabels, Ordinary, Joined, DotEnded;
    ReadsCut(p, o, labels, [], size);
    DotEndedIsJoined(labels);
    DotsApart(labels);
    JoinedEndsInLabel(labels);
    assert [] + DotEnded(labels) == s + [DOT];
    MoreFuel(0, fuel, p, o, [], size);
    CutText(s, size);
  }

  lemma CutText(s: seq<Byte>, size: nat)
    requires size > 0 && s != [] && s[0] != DOT && s[|s| - 1] != DOT
    requires forall i :: 0 <= i < |s| - 1 && s[i] == DOT ==> s[i + 1] != DOT
    ensures Finish((s + [DOT])[..Min(|s| + 1, size)], size) == s[..Min(|s|, size - 1)]
  {
    hide Finish;
    if |s| < size {
      FinishDotEnded(s, size);
      assert (s + [DOT])[..|s| + 1] == s + [DOT] && s[..|s|] == s;
    } else {
      assert (s + [DOT])[..size] == s[..size];
      FinishCut(s, size);
    }
  }

  // ----- there and back -----

  /** An encoded name spells its labels, wherever it stands. */
  lemma {:induction false} WireSpells(p: seq<Byte>, src: nat, labels: seq<seq<Byte>>)
    requires forall i :: 0 <= i < |labels| ==> 1 <= |labels[i]| < 192
    requires Has(p, src, Wire(labels))
    ensures Spells(p, src, labels, 0)
    decreases |labels|
  {
    if labels == [] {
      assert p[src] == Wire(labels)[0];
    } else {
      FirstLabel(p, src, labels[0], Wire(labels[1..]));
      WireSpells(p, src + |labels[0]| + 1, labels[1..]);
    }
  }

  lemma {:induction false} WireLength(labels: seq<seq<Byte>>)
    ensures |Wire(labels)| == |DotEnded(labels)| + 1
  {
    if labels != [] {
      WireLength(labels[1..]);
    }
  }

  /**
   Reading what was put gives the name without the dot that may end it, in any buffer it fits, and
   stops at the terminator.
   */
  lemma NameRoundTrip(name: seq<Byte>, p: seq<Byte>, src: nat, size: nat, fuel: nat)
    requires name != [] && WellFormed(name)
    requires forall i :: 0 <= i < |Labels(name)| ==> |Labels(name)[i]| < 192
    requires Has(p, src, Wire(Labels(name)))
    requires size > |Undotted(name)|
    ensures Read(fuel, p, src, [], size) == Name(Undotted(name), src + |Wire(Labels(name))| - 1)
  {
    var labels := Labels(name);
    JoinedLabels(name);
    LabelsHaveNoDots(name);
    DotEndedIsJoined(labels);
    WireSpells(p, src, labels);
    WireLength(labels);
    ReadsWhatIsSpelled(p, src, labels, 0, [], size);
    NameReadsAsJoined(p, src, labels, 0, size, 0);
    MoreFuel(0, fuel, p, src, [], size);
  }

  // ----- reading into a buffer -----

  /** Copies the bytes of the label at `o` as far as packet and buffer go, and a dot behind them if there is room. */
  method CopyLabel(p: seq<Byte>, o: nat, dst: array<Byte>, at: nat) returns (o': nat, at': nat)
    requires o < |p| && at <= dst.Length
    modifies dst
    ensures o' == o + 1 + Copied(p, o, at, dst.Length) && at <= at' <= dst.Length
    ensures dst[..at'] == WithLabel(p, o, old(dst[..at]), dst.Length)
  {
    var lim := o + p[o] as int + 1;
    o', at' := o + 1, at;
    while o' != |p| && at' != dst.Length && o' != lim
      invariant o + 1 <= o' <= |p| && o' <= lim && at' - at == o' - o - 1 && at' <= dst.Length
      invariant dst[..at'] == old(dst[..at]) + p[o + 1..o']
      decreases |p| - o'
    {
      dst[at'] := p[o'];
      o', at' := o' + 1, at' + 1;
    }
    if at' != dst.Length {
      dst[at'] := DOT;
      at' := at' + 1;
    }
  }

  /** Strips dots, makes room for the terminator and writes it. */
  method Terminate(dst: array<Byte>, at: nat) returns (length: nat)
    requires 0 < dst.Length && at <= dst.Length
    modifies dst
    ensures length < dst.Length && dst[..length] == Finish(old(dst[..at]), dst.Length) && dst[length] == 0
  {
    length := at;
    while length > 0 && dst[length - 1] == DOT
      invariant length <= at
      invariant StripDots(dst[..length]) == StripDots(dst[..at])
    {
      assert dst[..length][..length - 1] == dst[..length - 1];
      length := length - 1;
    }
    ghost var s := dst[..length];
    assert s == StripDots(dst[..at]);
    if length == dst.Length {
      length := length - 1;
    }
    assert dst[..length] == Finish(dst[..at], dst.Length);
    dst[length] := 0;
  }

  /** The buffer holds a string and its terminator. */
  predicate HoldsText(b: seq<Byte>, text: seq<Byte>) {
    |text| < |b| && b[..|text|] == text && b[|text|] == 0
  }

  /** What `ReadName` hands back for an outcome of the reading. */
  ghost predicate Delivers(r: Outcome, b: seq<Byte>, ok: bool, src: nat) {
    match r
    case Looping => false
    case Failed => !ok
    case Name(text, end) => ok && src == end && HoldsText(b, text)
  }

  /**
   The offset and the buffer once the labels at `o` are copied, up to a pointer, the end of the
   name or the end of the packet.
   */
  ghost function PastLabels(p: seq<Byte>, o: nat, out: seq<Byte>, size: nat): (r: (nat, seq<Byte>))
    requires |out| <= size
    ensures r.0 < |p| ==> p[r.0] == 0 || p[r.0] >= 192
    ensures |out| <= |r.1| <= size
    ensures |out| < size && r.0 != o ==> |r.1| > |out|
    decreases |p| - o
  {
    if o >= |p| || p[o] == 0 || p[o] >= 192 then (o, out)
    else PastLabels(p, o + 1 + Copied(p, o, |out|, size), WithLabel(p, o, out, size), size)
  }

  /** Reading goes on behind the labels. */
  lemma {:induction false} ReadPastLabels(fuel: nat, p: seq<Byte>, o: nat, out: seq<Byte>, size: nat)
    requires |out| <= size
    ensures var (src, text) := PastLabels(p, o, out, size);
      Read(fuel, p, o, out, size) == Read(fuel, p, src, text, size)
    decreases |p| - o
  {
    if o < |p| && 0 < p[o] < 192 {
      ReadPastLabels(fuel, p, o + 1 + Copied(p, o, |out|, size), WithLabel(p, o, out, size), size);
    }
  }

  /** How reading goes on behind the labels: to its end, to a failure, or through a pointer. */
  lemma BehindLabels(fuel: nat, p: seq<Byte>, o: nat, out: seq<Byte>, size: nat)
    requires |out| <= size
    ensures var (src, text) := PastLabels(p, o, out, size);
      Read(fuel, p, o, out, size) ==
        if src >= |p| || p[src] == 0 then Name(Finish(text, size), src)
        else if !Leads(p, src) || |text| == size then Failed
        else if fuel == 0 then Looping
        else ThroughPointer(Read(fuel - 1, p, Target(p, src), text, size), src)
  {
    ReadPastLabels(fuel, p, o, out, size);
  }

  /** Copies label after label. */
  method CopyLabels(p: seq<Byte>, o: nat, dst: array<Byte>, at: nat) returns (src: nat, here: nat)
    requires at <= dst.Length
    modifies dst
    ensures here <= dst.Length && (src, dst[..here]) == PastLabels(p, o, old(dst[..at]), dst.Length)
  {
    src, here := o, at;
    ghost var text := dst[..at];
    ghost var all := PastLabels(p, o, text, dst.Length);
    while src < |p| && 0 < p[src] < 192
      invariant here <= dst.Length && dst[..here] == text
      invariant PastLabels(p, src, text, dst.Length) == all
      decreases |p| - src
    {
      text := WithLabel(p, src, text, dst.Length);
      src, here := CopyLabel(p, src, dst, here);
    }
  }

  /**
   Reads a name at `o` into the buffer behind what is there.  It needs a reading that ends: `fuel` says
   within how many pointers.
   */
  method ReadName(p: seq<Byte>, o: nat, dst: array<Byte>, at: nat, ghost fuel: nat) returns (ok: bool, src: nat)
    requires at <= dst.Length && Read(fuel, p, o, dst[..at], dst.Length) != Looping
    modifies dst
    ensures at == dst.Length ==> !ok
    ensures at < dst.Length ==> Delivers(Read(fuel, p, o, old(dst[..at]), dst.Length), dst[..], ok, src)
    decreases dst.Length - at, fuel
  {
    if at == dst.Length {
      return false, o;
    }
    var here;
    ghost var out := dst[..at];
    src, here := CopyLabels(p, o, dst, at);
    BehindLabels(fuel, p, o, out, dst.Length);
    if src >= |p| || p[src] == 0 {
      var length := Terminate(dst, here);
      return true, src;
    }
    if !IsPointer(p, src) || Target(p, src) >= |p| {
      return false, src;
    }
    var inner;
    if here == dst.Length { FullBufferEnds(p, Target(p, src), dst[..here]); }
    ok, inner := ReadName(p, Target(p, src), dst, here, if here == dst.Length then 0 else fuel - 1);
    return ok, src + 2;
  }
}
