/**
 Host names and their wire form (section 3.1 of RFC 1035): building a name, and skipping one.
 */
module DnsNames {
  import opened Common
  import opened Bytes
  import opened DnsWire

  const DOT: Byte := 46

  /** The position of the first dot, or the length. */
  function LabelEnd(s: seq<Byte>): (e: nat)
    ensures e <= |s|
    ensures forall i :: 0 <= i < e ==> s[i] != DOT
    ensures e < |s| ==> s[e] == DOT
  {
    if s == [] || s[0] == DOT then 0 else 1 + LabelEnd(s[1..])
  }

  /** What follows the first label and its one dot. */
  function AfterLabel(s: seq<Byte>): (r: seq<Byte>)
    ensures s != [] && LabelEnd(s) > 0 ==> |r| < |s|
  {
    if LabelEnd(s) < |s| then s[LabelEnd(s) + 1..] else []
  }

  /** No label of the name is empty; one dot at the end is allowed. */
  predicate WellFormed(s: seq<Byte>)
    decreases |s|
  {
    s == [] || (LabelEnd(s) > 0 && WellFormed(AfterLabel(s)))
  }

  function Labels(s: seq<Byte>): seq<seq<Byte>>
    requires WellFormed(s)
    decreases |s|
  {
    if s == [] then [] else [s[..LabelEnd(s)]] + Labels(AfterLabel(s))
  }

  /** A length octet, which holds the length modulo 256, and the label. */
  function LabelWire(l: seq<Byte>): seq<Byte> {
    [|l| % 256] + l
  }

  function Wire(labels: seq<seq<Byte>>): (w: seq<Byte>)
    ensures |w| > 0
  {
    if labels == [] then [0] else LabelWire(labels[0]) + Wire(labels[1..])
  }

  /** The labels with dots, byte 46, between them. */
  function Joined(labels: seq<seq<Byte>>): seq<Byte> {
    if labels == [] then []
    else if |labels| == 1 then labels[0]
    else labels[0] + [46] + Joined(labels[1..])
  }

  /** A name without the dot that may end it. */
  function Undotted(s: seq<Byte>): seq<Byte> {
    if s != [] && s[|s| - 1] == 46 then s[..|s| - 1] else s
  }

  /** The labels are the name, cut at its dots. */
  lemma {:induction false} JoinedLabels(s: seq<Byte>)
    requires WellFormed(s)
    ensures Joined(Labels(s)) == Undotted(s)
    decreases |s|
  {
    if s != [] {
      var e, rest := LabelEnd(s), AfterLabel(s);
      JoinedLabels(rest);
      CutAtDot(s);
      if rest == [] {
        assert Labels(s) == [s[..e]];
      } else {
        assert Labels(s)[1..] == Labels(rest) && Labels(rest) != [];
      }
    }
  }

  lemma CutAtDot(s: seq<Byte>)
    requires s != [] && LabelEnd(s) > 0
    ensures var e, rest := LabelEnd(s), AfterLabel(s);
      Undotted(s) == if rest == [] then s[..e] else s[..e] + [DOT] + Undotted(rest)
  {
    var e, rest := LabelEnd(s), AfterLabel(s);
    if e == |s| {
      assert s[..e] == s;
    } else if rest != [] {
      assert s == s[..e] + [DOT] + rest;
      UndottedAppend(s[..e] + [DOT], rest);
    }
  }

  lemma UndottedAppend(a: seq<Byte>, rest: seq<Byte>)
    requires rest != []
    ensures Undotted(a + rest) == a + Undotted(rest)
  {
    assert (a + rest)[..|a| + |rest| - 1] == a + rest[..|rest| - 1];
  }

  lemma {:induction false} LabelsHaveNoDots(s: seq<Byte>)
    requires WellFormed(s)
    ensures forall i :: 0 <= i < |Labels(s)| ==> Labels(s)[i] != [] && DOT !in Labels(s)[i]
    ensures s != [] ==> Labels(s) != []
    decreases |s|
  {
    if s != [] {
      LabelsHaveNoDots(AfterLabel(s));
    }
  }

  // ----- building a name -----

  /** Copies the bytes of one label. */
  method PutBytes(w: Writer, s: seq<Byte>)
    requires w.Valid() && w.size >= |s|
    modifies w, w.buffer
    ensures w.Valid() && w.size == old(w.size) - |s|
    ensures w.Written() == old(w.Written()) + s
  {
    var i := 0;
    while i != |s|
      invariant 0 <= i <= |s|
      invariant w.Valid() && w.size == old(w.size) - i
      invariant w.Written() == old(w.Written()) + s[..i]
    {
      w.PutByte(s[i]);
      i := i + 1;
    }
  }

  method PutLabel(w: Writer, l: seq<Byte>)
    requires w.Valid() && w.size >= |l| + 1
    modifies w, w.buffer
    ensures w.Valid() && w.size == old(w.size) - |l| - 1
    ensures w.Written() == old(w.Written()) + LabelWire(l)
  {
    w.PutByte(|l| % 256);
    PutBytes(w, l);
  }

  lemma WireNext(s: seq<Byte>)
    requires s != [] && WellFormed(s)
    ensures Wire(Labels(s)) == LabelWire(s[..LabelEnd(s)]) + Wire(Labels(AfterLabel(s)))
  {
    assert Labels(s)[1..] == Labels(AfterLabel(s));
  }

  /**
   Writes a host name.  It fails on an empty label and when the wire form does not fit; what was
   written before the failure stays in the buffer.
   */
  method PutName(w: Writer, hostname: seq<Byte>) returns (ok: bool)
    requires w.Valid()
    modifies w, w.buffer
    ensures w.Valid()
    ensures ok <==> WellFormed(hostname) && |Wire(Labels(hostname))| <= old(w.size)
    ensures ok ==> w.Written() == old(w.Written()) + Wire(Labels(hostname))
  {
    var rest := hostname;
    ghost var start, done: seq<Byte> := w.Written(), [];
    while rest != []
      invariant w.Valid() && w.Written() == start + done && w.size == old(w.size) - |done|
      invariant Remains(hostname, done, rest)
      decreases |rest|
    {
      if LabelEnd(rest) > 0 { RemainsNext(hostname, done, rest); }
      var more, next := PutFirst(w, rest, start, done);
      if !more {
        return false;
      }
      done := done + LabelWire(rest[..LabelEnd(rest)]);
      rest := next;
    }
    if w.size == 0 {
      return false;
    }
    w.PutByte(0);
    Assoc(start, done, [0]);
    return true;
  }

  /** Writes the first label, when it is not empty and fits, and moves past its dot. */
  method PutFirst(w: Writer, s: seq<Byte>, ghost start: seq<Byte>, ghost done: seq<Byte>)
    returns (more: bool, next: seq<Byte>)
    requires w.Valid() && w.Written() == start + done
    modifies w, w.buffer
    ensures w.Valid()
    ensures more <==> LabelEnd(s) > 0 && old(w.size) >= LabelEnd(s) + 1
    ensures more ==>
      && next == AfterLabel(s) && w.size == old(w.size) - LabelEnd(s) - 1
      && w.Written() == start + (done + LabelWire(s[..LabelEnd(s)]))
  {
    var end := FindDot(s);
    if end == 0 || w.size < end + 1 {
      return false, s;
    }
    PutLabel(w, s[..end]);
    Assoc(start, done, LabelWire(s[..end]));
    return true, if end < |s| then s[end + 1..] else [];
  }

  /** After `done` was written, `rest` of the host name is still to come. */
  ghost predicate Remains(hostname: seq<Byte>, done: seq<Byte>, rest: seq<Byte>) {
    && (WellFormed(hostname) <==> WellFormed(rest))
    && (WellFormed(hostname) ==> Wire(Labels(hostname)) == done + Wire(Labels(rest)))
  }

  lemma RemainsNext(hostname: seq<Byte>, done: seq<Byte>, rest: seq<Byte>)
    requires Remains(hostname, done, rest) && rest != [] && LabelEnd(rest) > 0
    ensures Remains(hostname, done + LabelWire(rest[..LabelEnd(rest)]), AfterLabel(rest))
    ensures WellFormed(hostname) ==> |Wire(Labels(hostname))| > |done| + LabelEnd(rest) + 1
  {
    if WellFormed(rest) {
      WireNext(rest);
      Assoc(done, LabelWire(rest[..LabelEnd(rest)]), Wire(Labels(AfterLabel(rest))));
    }
  }

  method FindDot(s: seq<Byte>) returns (end: nat)
    ensures end == LabelEnd(s)
  {
    end := 0;
    while end != |s| && s[end] != DOT
      invariant 0 <= end <= |s|
      invariant forall i :: 0 <= i < end ==> s[i] != DOT
    {
      end := end + 1;
    }
    LabelEndIs(s, end);
  }

  lemma LabelEndIs(s: seq<Byte>, e: nat)
    requires e <= |s|
    requires forall i :: 0 <= i < e ==> s[i] != DOT
    requires e < |s| ==> s[e] == DOT
    ensures LabelEnd(s) == e
  {
  }

  // ----- skipping a name -----

  /** Whether a name that starts at `src` ends within the packet, and where the skip stops. */
  function Skip(p: seq<Byte>, src: nat): (r: (bool, nat))
    requires src <= |p|
    ensures src <= r.1 <= |p|
    ensures r.0 ==> src < r.1
    decreases |p| - src
  {
    if src == |p| then (false, src)
    else if p[src] == 0 then (true, src + 1)
    else if p[src] < 64 then Skip(p, Min(src + p[src] as int + 1, |p|))
    else if src + 2 <= |p| then (true, src + 2)
    else (false, src)
  }

  /** Where skipping stops: behind a root or a pointer, or at the end of the packet or of half a pointer. */
  lemma {:induction false} SkipStops(p: seq<Byte>, src: nat)
    requires src <= |p|
    ensures var (ok, end) := Skip(p, src);
      if ok then p[end - 1] == 0 || (end - 2 >= src && p[end - 2] >= 64)
      else end == |p| || (end == |p| - 1 && p[end] >= 64)
    decreases |p| - src
  {
    if src < |p| && 0 < p[src] < 64 {
      SkipStops(p, Min(src + p[src] as int + 1, |p|));
    }
  }

  method SkipName(r: Reader) returns (ok: bool)
    requires r.Valid()
    modifies r
    ensures r.Valid()
    ensures (ok, r.src) == Skip(r.packet, old(r.src))
  {
    while r.size != 0
      invariant r.Valid()
      invariant Skip(r.packet, r.src) == Skip(r.packet, old(r.src))
      decreases r.size
    {
      var b := r.packet[r.src];
      if b == 0 {
        r.Skip(1);
        return true;
      } else if b < 64 {
        var add: nat := b as int + 1;
        if add > r.size {
          add := r.size;
        }
        r.Skip(add);
      } else {
        var v;
        ok, v := r.GetShort();
        return;
      }
    }
    return false;
  }

  /** Labels short enough to be told from pointers. */
  ghost predicate ShortLabels(labels: seq<seq<Byte>>) {
    forall i :: 0 <= i < |labels| ==> 1 <= |labels[i]| <= 63
  }

  /** What may end an encoded name: the root, or a pointer (section 4.1.4 of RFC 1035). */
  predicate IsTail(t: seq<Byte>) {
    t == [0] || (|t| == 2 && t[0] >= 192)
  }

  /** An encoded name: labels, then the root or a pointer. */
  function NameWire(labels: seq<seq<Byte>>, tail: seq<Byte>): seq<Byte> {
    if labels == [] then tail else LabelWire(labels[0]) + NameWire(labels[1..], tail)
  }

  lemma {:induction false} WireIsNameWire(labels: seq<seq<Byte>>)
    ensures Wire(labels) == NameWire(labels, [0])
  {
    if labels != [] {
      WireIsNameWire(labels[1..]);
    }
  }

  /** The first label of a name in a packet, and the rest of the name behind it. */
  lemma FirstLabel(p: seq<Byte>, src: nat, l: seq<Byte>, more: seq<Byte>)
    requires Has(p, src, LabelWire(l) + more)
    ensures p[src] == |l| % 256 && Has(p, src + 1, l) && Has(p, src + |l| + 1, more)
  {
    HasBoth(p, src, LabelWire(l), more);
    HasBoth(p, src, [|l| % 256], l);
    assert [|l| % 256][0] == |l| % 256;
  }

  /** Skipping moves past exactly the encoded name, wherever it stands. */
  lemma {:induction false} SkipIsExact(p: seq<Byte>, src: nat, labels: seq<seq<Byte>>, tail: seq<Byte>)
    requires ShortLabels(labels) && IsTail(tail)
    requires Has(p, src, NameWire(labels, tail))
    ensures Skip(p, src) == (true, src + |NameWire(labels, tail)|)
    decreases |labels|
  {
    if labels == [] {
      assert p[src] == tail[0];
    } else {
      FirstLabel(p, src, labels[0], NameWire(labels[1..], tail));
      SkipIsExact(p, src + |labels[0]| + 1, labels[1..], tail);
    }
  }

  lemma ShortLabelsNext(labels: seq<seq<Byte>>)
    requires labels != [] && 1 <= |labels[0]| <= 63
    ensures ShortLabels(labels) <==> ShortLabels(labels[1..])
  {
    assert labels == [labels[0]] + labels[1..];
  }

  /**
   For labels of 1 to 255 bytes, skipping moves past exactly the name if and only if none is longer
   than 63; it always finds an end.
   */
  lemma {:induction false} SkipExactIffShort(p: seq<Byte>, src: nat, labels: seq<seq<Byte>>)
    requires forall i :: 0 <= i < |labels| ==> 1 <= |labels[i]| <= 255
    requires Has(p, src, Wire(labels))
    ensures var (ok, end) := Skip(p, src);
      ok && end <= src + |Wire(labels)| && (end == src + |Wire(labels)| <==> ShortLabels(labels))
    decreases |labels|
  {
    if labels == [] {
      assert p[src] == Wire(labels)[0];
    } else {
      FirstLabel(p, src, labels[0], Wire(labels[1..]));
      if |labels[0]| < 64 {
        SkipExactIffShort(p, src + |labels[0]| + 1, labels[1..]);
        ShortLabelsNext(labels);
      }
    }
  }

  /** The length octet of a label of 256 bytes, or a multiple, is 0, which ends the name in front of it. */
  lemma VeryLongLabelEndsName(l: seq<Byte>)
    requires l != [] && |l| % 256 == 0
    ensures Skip(Wire([l]), 0) == (true, 1)
  {
    assert Wire([l]) == LabelWire(l) + Wire([]);
    assert Wire([l])[0] == 0;
  }

  /** A name of one label of 64 to 255 bytes is put, but skipping stops behind its second byte. */
  lemma LongLabelTakenForPointer(l: seq<Byte>)
    requires 64 <= |l| <= 255
    ensures Skip(Wire([l]), 0) == (true, 2) && |Wire([l])| == |l| + 2
  {
    assert Wire([l]) == LabelWire(l) + Wire([]);
    assert Wire([l])[0] == |l|;
  }
}
