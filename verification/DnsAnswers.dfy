/**
 Queries and answers: the packet a lookup sends, skipping its echo in the response, and collecting
 the addresses of the answer section (section 4.1.3 of RFC 1035).
 */
module DnsAnswers {
  import opened Common
  import opened Bytes
  import opened DnsWire
  import opened DnsNames

  const TYPE_A: nat := 1
  const CLASS_IN: nat := 1

  // ----- the echoed questions -----

  /** Whether the skip succeeds, where it stops, and how many questions are left. */
  function Echo(p: seq<Byte>, src: nat, qdcount: nat): (r: (bool, nat, nat))
    requires src <= |p|
    ensures src <= r.1 <= |p|
    decreases qdcount
  {
    if qdcount == 0 then (true, src, 0)
    else
      var (ok, end) := Skip(p, src);
      if !ok then (true, end, qdcount)
      else if |p| - end < 4 then (false, end, qdcount - 1)
      else Echo(p, end + 4, qdcount - 1)
  }

  /** One question: its name, then the four bytes of type and class. */
  method SkipQuestion(r: Reader, h: Header) returns (found: bool, fits: bool)
    requires r.Valid() && h.f.qdcount > 0
    modifies r, h
    ensures r.Valid()
    ensures var (ok, end) := Skip(r.packet, old(r.src));
      && found == ok && fits == (ok && |r.packet| - end >= 4)
      && r.src == end + (if fits then 4 else 0)
      && h.f == old(h.f).(qdcount := old(h.f.qdcount) - (if found then 1 else 0))
  {
    found := SkipName(r);
    if !found {
      return false, false;
    }
    h.f := h.f.(qdcount := h.f.qdcount - 1);
    if r.size < 4 {
      return true, false;
    }
    r.Skip(4);
    return true, true;
  }

  method SkipEcho(r: Reader, h: Header) returns (ok: bool)
    requires r.Valid()
    modifies r, h
    ensures r.Valid()
    ensures (ok, r.src, h.f.qdcount) == Echo(r.packet, old(r.src), old(h.f.qdcount))
    ensures h.f == old(h.f).(qdcount := h.f.qdcount)
  {
    while h.f.qdcount != 0
      invariant r.Valid()
      invariant h.f == old(h.f).(qdcount := h.f.qdcount)
      invariant Echo(r.packet, r.src, h.f.qdcount) == Echo(r.packet, old(r.src), old(h.f.qdcount))
      decreases h.f.qdcount
    {
      var found, fits := SkipQuestion(r, h);
      if !found {
        return true;
      }
      if !fits {
        return false;
      }
    }
    return true;
  }

  /** An encoded question: a name, and four bytes for its type and class. */
  datatype Question = Question(labels: seq<seq<Byte>>, tail: seq<Byte>, rest: seq<Byte>)

  ghost predicate GoodQuestion(q: Question) {
    ShortLabels(q.labels) && IsTail(q.tail) && |q.rest| == 4
  }

  ghost predicate GoodQuestions(qs: seq<Question>) {
    qs == [] || (GoodQuestion(qs[0]) && GoodQuestions(qs[1..]))
  }

  function QuestionWire(q: Question): seq<Byte> {
    NameWire(q.labels, q.tail) + q.rest
  }

  function QuestionsWire(qs: seq<Question>): seq<Byte> {
    if qs == [] then [] else QuestionWire(qs[0]) + QuestionsWire(qs[1..])
  }

  /** Echoed questions are skipped to the last byte. */
  lemma {:induction false} EchoIsExact(p: seq<Byte>, src: nat, qs: seq<Question>)
    requires GoodQuestions(qs)
    requires Has(p, src, QuestionsWire(qs))
    ensures Echo(p, src, |qs|) == (true, src + |QuestionsWire(qs)|, 0)
    decreases |qs|
  {
    if qs != [] {
      var q := qs[0];
      HasBoth(p, src, QuestionWire(q), QuestionsWire(qs[1..]));
      HasBoth(p, src, NameWire(q.labels, q.tail), q.rest);
      SkipIsExact(p, src, q.labels, q.tail);
      EchoIsExact(p, src + |QuestionWire(q)|, qs[1..]);
    }
  }

  // ----- records -----

  datatype Record = Record(kind: nat, class_: nat, ttl: nat, rdata: seq<Byte>)

  /** The record at `src`, and where it ends. */
  function NextRecord(p: seq<Byte>, src: nat): (r: Option<(Record, nat)>)
    requires src <= |p|
    ensures r.Some? ==> src < r.value.1 <= |p| && |r.value.0.rdata| <= r.value.1
  {
    var (ok, o) := Skip(p, src);
    if !ok || |p| - o < 10 then None
    else
      var length := Short(p, o + 8);
      if length > |p| - o - 10 then None
      else Some((Record(Short(p, o), Short(p, o + 2), Long(p, o + 4), p[o + 10..o + 10 + length]), o + 10 + length))
  }

  /** An owner name that cannot be skipped ends the section: nothing is read behind it. */
  lemma NothingBehindCutName(p: seq<Byte>, src: nat)
    requires src <= |p| && !Skip(p, src).0
    ensures NextRecord(p, src) == None && !Skip(p, Skip(p, src).1).0
  {
    SkipStops(p, src);
  }

  /** Up to `n` records, as far as they can be read. */
  function Records(p: seq<Byte>, src: nat, n: nat): seq<Record>
    requires src <= |p|
    decreases n
  {
    if n == 0 || NextRecord(p, src).None? then []
    else [NextRecord(p, src).value.0] + Records(p, NextRecord(p, src).value.1, n - 1)
  }

  predicate IsAddress(r: Record) {
    r.kind == TYPE_A && r.class_ == CLASS_IN && |r.rdata| == 4
  }

  /** The four octets of an `addr_t` and its length field. */
  datatype Addr = Addr(length: nat, data: seq<Byte>)

  /** The addresses among the records, in order. */
  function Addresses(rs: seq<Record>): seq<Addr> {
    if rs == [] then []
    else if IsAddress(rs[0]) then [Addr(4, rs[0].rdata)] + Addresses(rs[1..])
    else Addresses(rs[1..])
  }

  /** The places of a list, seen from one record earlier. */
  function Later(from: seq<nat>): (r: seq<nat>)
    ensures |r| == |from| && forall k :: 0 <= k < |from| ==> r[k] == from[k] + 1
  {
    seq(|from|, k requires 0 <= k < |from| => from[k] + 1)
  }

  lemma LaterHas(from: seq<nat>, i: nat)
    ensures i in Later(from) <==> i > 0 && i - 1 in from
  {
    if i > 0 && i - 1 in from {
      var k :| 0 <= k < |from| && from[k] == i - 1;
      assert Later(from)[k] == i;
    }
  }

  /** `from` are the places of the records of type 1 (A), class 1 (IN) and four bytes of data, in order. */
  ghost predicate AddressPlaces(rs: seq<Record>, from: seq<nat>) {
    && (forall k :: 0 <= k < |from| ==> from[k] < |rs|)
    && (forall j, k :: 0 <= j < k < |from| ==> from[j] < from[k])
    && (forall i :: 0 <= i < |rs| ==> (i in from <==> rs[i].kind == 1 && rs[i].class_ == 1 && |rs[i].rdata| == 4))
  }

  lemma OnePlaceMore(rs: seq<Record>, rest: seq<nat>)
    requires rs != [] && AddressPlaces(rs[1..], rest)
    ensures AddressPlaces(rs, if IsAddress(rs[0]) then [0] + Later(rest) else Later(rest))
  {
    var from := if IsAddress(rs[0]) then [0] + Later(rest) else Later(rest);
    forall i | 0 <= i < |rs| ensures i in from <==> rs[i].kind == 1 && rs[i].class_ == 1 && |rs[i].rdata| == 4 {
      LaterHas(rest, i);
      assert i > 0 ==> rs[1..][i - 1] == rs[i];
    }
    hide Later;
  }

  /** The data at these places of the records. */
  ghost predicate AreData(rs: seq<Record>, from: seq<nat>, all: seq<Addr>) {
    |from| == |all| && forall k :: 0 <= k < |from| ==> from[k] < |rs| && all[k] == Addr(4, rs[from[k]].rdata)
  }

  lemma DataLater(rs: seq<Record>, rest: seq<nat>, more: seq<Addr>)
    requires rs != [] && AreData(rs[1..], rest, more)
    ensures AreData(rs, Later(rest), more)
  {
    forall k | 0 <= k < |rest| ensures Later(rest)[k] < |rs| && more[k] == Addr(4, rs[Later(rest)[k]].rdata) {
      assert rest[k] < |rs| - 1;
      assert rs[1..][rest[k]] == rs[rest[k] + 1];
    }
  }

  lemma DataFirst(rs: seq<Record>, from: seq<nat>, all: seq<Addr>)
    requires rs != [] && AreData(rs, from, all)
    ensures AreData(rs, [0] + from, [Addr(4, rs[0].rdata)] + all)
  {
  }

  /** Exactly the data of these records are the addresses, each once and in order. */
  lemma {:induction false} AddressesAre(rs: seq<Record>) returns (from: seq<nat>)
    ensures AddressPlaces(rs, from) && AreData(rs, from, Addresses(rs))
  {
    from := [];
    if rs != [] {
      hide AddressPlaces, AreData;
      var rest := AddressesAre(rs[1..]);
      OnePlaceMore(rs, rest);
      DataLater(rs, rest, Addresses(rs[1..]));
      DataFirst(rs, Later(rest), Addresses(rs[1..]));
      from := if IsAddress(rs[0]) then [0] + Later(rest) else Later(rest);
    }
  }

  function Take<T>(s: seq<T>, n: nat): seq<T> {
    if n < |s| then s[..n] else s
  }

  /** What `get_addrs` collects from the rest of the packet. */
  function Collected(p: seq<Byte>, src: nat, f: Fields, addrc: nat): seq<Addr>
    requires src <= |p|
  {
    if f.ancount == 0 || f.rcode != 0 || !Echo(p, src, f.qdcount).0 then []
    else Take(Addresses(Records(p, Echo(p, src, f.qdcount).1, f.ancount)), addrc)
  }

  /** The fixed part of a record, and its length checked against what is left. */
  method ReadHead(r: Reader) returns (ok: bool, kind: nat, class_: nat, length: nat)
    requires r.Valid()
    modifies r
    ensures r.Valid()
    ensures ok <==> NextRecord(r.packet, old(r.src)).Some?
    ensures ok ==>
      var (rec, end) := NextRecord(r.packet, old(r.src)).value;
      && kind == rec.kind && class_ == rec.class_ && length == |rec.rdata|
      && r.src == end - length && r.packet[r.src..r.src + length] == rec.rdata
  {
    var ttl;
    kind, class_, length := 0, 0, 0;
    ok := SkipName(r);
    if !ok { return; }
    ok, kind := r.GetShort();
    if !ok { return; }
    ok, class_ := r.GetShort();
    if !ok { return; }
    ok, ttl := r.GetLong();
    if !ok { return; }
    ok, length := r.GetShort();
    if !ok { return; }
    ok := length <= r.size;
  }

  /** One record's share of the result. */
  method StoreAddress(r: Reader, kind: nat, class_: nat, length: nat, addrv: array<Addr>, addrc: nat, count: nat)
    returns (count': nat)
    requires r.Valid() && length <= r.size && count <= addrc <= addrv.Length
    modifies addrv
    ensures var rdata := r.packet[r.src..r.src + length];
      if kind == TYPE_A && class_ == CLASS_IN && length == 4 && count < addrc
      then count' == count + 1 && addrv[..] == old(addrv[..])[count := Addr(4, rdata)]
      else count' == count && addrv[..] == old(addrv[..])
  {
    count' := count;
    if kind == TYPE_A && class_ == CLASS_IN && length == 4 && count < addrc {
      var data: seq<Byte> := [];
      var i := 0;
      while i != length
        invariant 0 <= i <= length && data == r.packet[r.src..r.src + i]
        invariant addrv[..] == old(addrv[..])
      {
        data := data + [r.packet[r.src + i]];
        i := i + 1;
      }
      addrv[count] := Addr(length, data);
      count' := count + 1;
    }
  }

  /**
   Collects the addresses: only after a response without error and with answers, in order, as many as
   the array takes.  The cursor always stays within the packet.
   */
  method GetAddrs(r: Reader, h: Header, addrv: array<Addr>, addrc: nat) returns (count: nat)
    requires r.Valid() && addrc <= addrv.Length
    modifies r, h, addrv
    ensures r.Valid()
    ensures var a := Collected(r.packet, old(r.src), old(h.f), addrc);
      count == |a| && addrv[..count] == a && addrv[count..] == old(addrv[count..])
    ensures count <= addrc && (old(h.f.rcode) != 0 ==> count == 0)
  {
    count := 0;
    if h.f.ancount == 0 || h.f.rcode != 0 {
      return;
    }
    var ok := SkipEcho(r, h);
    if !ok {
      return;
    }
    ghost var all := Addresses(Records(r.packet, r.src, h.f.ancount));
    ghost var before := addrv[..];
    GatheredIsAddresses(r.packet, r.src, h.f.ancount, []);
    assert [] + all == all;
    count := CollectAll(r, h.f.ancount, addrv, addrc, all);
    StoredIs(addrv[..], before, all, addrc, count);
  }

  /** A response whose questions are cut off: nothing is read behind them. */
  lemma {:induction false} NothingBehindCutQuestions(p: seq<Byte>, src: nat, qdcount: nat)
    requires src <= |p|
    ensures var (ok, end, left) := Echo(p, src, qdcount); ok && left > 0 ==> NextRecord(p, end) == None
    decreases qdcount
  {
    if qdcount > 0 {
      var (found, end) := Skip(p, src);
      if !found {
        NothingBehindCutName(p, src);
        assert NextRecord(p, end) == None by { NothingBehindCutName(p, end); }
      } else if |p| - end >= 4 {
        NothingBehindCutQuestions(p, end + 4, qdcount - 1);
      }
    }
  }

  /** So there are no addresses in a response unless all of its questions are skipped. */
  lemma NoAddressesBehindCutQuestions(p: seq<Byte>, src: nat, f: Fields, addrc: nat)
    requires src <= |p|
    ensures Collected(p, src, f, addrc) != [] ==>
      f.rcode == 0 && Echo(p, src, f.qdcount).0 && Echo(p, src, f.qdcount).2 == 0
  {
    NothingBehindCutQuestions(p, src, f.qdcount);
    hide NextRecord, Echo;
  }

  /** The array and the count after a record was offered. */
  function Offered(a: seq<Addr>, count: nat, addrc: nat, rec: Record): (seq<Addr>, nat)
    requires addrc <= |a|
  {
    if IsAddress(rec) && count < addrc then (a[count := Addr(4, rec.rdata)], count + 1) else (a, count)
  }

  /** Reads one record and stores its address, if it is one. */
  method OneRecord(r: Reader, addrv: array<Addr>, addrc: nat, count: nat) returns (ok: bool, count': nat)
    requires r.Valid() && count <= addrc <= addrv.Length
    modifies r, addrv
    ensures r.Valid()
    ensures ok <==> NextRecord(r.packet, old(r.src)).Some?
    ensures if ok then
        var (rec, end) := NextRecord(r.packet, old(r.src)).value;
        r.src == end && (addrv[..], count') == Offered(old(addrv[..]), count, addrc, rec)
      else addrv[..] == old(addrv[..]) && count' == count
  {
    var kind, class_, length;
    ok, kind, class_, length := ReadHead(r);
    count' := count;
    if ok {
      count' := StoreAddress(r, kind, class_, length, addrv, addrc, count);
      r.Skip(length);
    }
  }

  /** The loop over the answer records. */
  method CollectAll(r: Reader, ancount: nat, addrv: array<Addr>, addrc: nat, ghost all: seq<Addr>) returns (count: nat)
    requires r.Valid() && addrc <= addrv.Length
    requires Gathered(r.packet, r.src, ancount, []) == all
    modifies r, addrv
    ensures r.Valid()
    ensures Stored(addrv[..], old(addrv[..]), all, addrc, count)
  {
    hide Gathered;
    count := 0;
    var idx := 0;
    ghost var before, seen := addrv[..], [];
    ghost var left := ancount;
    while idx < ancount
      invariant 0 <= idx <= ancount && left == ancount - idx && r.Valid()
      invariant Gathered(r.packet, r.src, left, seen) == all
      invariant Stored(addrv[..], before, seen, addrc, count)
    {
      var ok;
      ok, count, seen := Round(r, addrv, addrc, count, seen, before, left, all);
      if !ok {
        return;
      }
      idx := idx + 1;
      left := left - 1;
    }
    GatheredAtEnd(r.packet, r.src, seen);
  }

  lemma GatheredAtEnd(p: seq<Byte>, src: nat, seen: seq<Addr>)
    requires src <= |p|
    ensures Gathered(p, src, 0, seen) == seen
  {
  }

  /** One round of the loop. */
  method Round(r: Reader, addrv: array<Addr>, addrc: nat, count: nat, ghost seen: seq<Addr>, ghost before: seq<Addr>,
      ghost n: nat, ghost all: seq<Addr>)
    returns (ok: bool, count': nat, ghost seen': seq<Addr>)
    requires r.Valid() && Stored(addrv[..], before, seen, addrc, count)
    requires n > 0 && Gathered(r.packet, r.src, n, seen) == all
    modifies r, addrv
    ensures r.Valid()
    ensures if ok then Gathered(r.packet, r.src, n - 1, seen') == all else seen' == all
    ensures Stored(addrv[..], before, seen', addrc, count')
  {
    ghost var next := NextRecord(r.packet, r.src);
    seen' := seen;
    if next.Some? {
      StoreNext(addrv[..], before, seen, addrc, count, next.value.0);
      seen' := WithAddress(seen, next.value.0);
    }
    ok, count' := OneRecord(r, addrv, addrc, count);
  }

  /** With `seen` behind it, what the rest of the loop makes of it. */
  ghost function Gathered(p: seq<Byte>, src: nat, n: nat, seen: seq<Addr>): seq<Addr>
    requires src <= |p|
    decreases n
  {
    if n == 0 || NextRecord(p, src).None? then seen
    else
      var (rec, end) := NextRecord(p, src).value;
      Gathered(p, end, n - 1, WithAddress(seen, rec))
  }

  lemma NoRecord(p: seq<Byte>, src: nat, n: nat, seen: seq<Addr>)
    requires src <= |p| && (n == 0 || NextRecord(p, src).None?)
    ensures Gathered(p, src, n, seen) == seen == seen + Addresses(Records(p, src, n))
  {
    hide NextRecord;
    assert seen + [] == seen;
  }

  lemma FirstRecord(p: seq<Byte>, src: nat, n: nat)
    requires src <= |p| && n > 0 && NextRecord(p, src).Some?
    ensures var (rec, end) := NextRecord(p, src).value;
      && Records(p, src, n) == [rec] + Records(p, end, n - 1)
      && forall seen :: Gathered(p, src, n, seen) == Gathered(p, end, n - 1, WithAddress(seen, rec))
  {
    hide NextRecord, WithAddress;
  }

  lemma {:induction false} GatheredIsAddresses(p: seq<Byte>, src: nat, n: nat, seen: seq<Addr>)
    requires src <= |p|
    ensures Gathered(p, src, n, seen) == seen + Addresses(Records(p, src, n))
    decreases n
  {
    hide NextRecord, Records, Gathered, Addresses, WithAddress;
    if n == 0 || NextRecord(p, src).None? {
      NoRecord(p, src, n, seen);
    } else {
      var (rec, end) := NextRecord(p, src).value;
      FirstRecord(p, src, n);
      AddressesOfMore(seen, rec, Records(p, end, n - 1));
      GatheredIsAddresses(p, end, n - 1, WithAddress(seen, rec));
    }
  }

  lemma StoredIs(now: seq<Addr>, before: seq<Addr>, seen: seq<Addr>, addrc: nat, count: nat)
    requires Stored(now, before, seen, addrc, count)
    ensures count == |Take(seen, addrc)| && now[..count] == Take(seen, addrc) && now[count..] == before[count..]
  {
  }

  ghost function WithAddress(seen: seq<Addr>, rec: Record): seq<Addr> {
    if IsAddress(rec) then seen + [Addr(4, rec.rdata)] else seen
  }

  lemma AddressesOfMore(seen: seq<Addr>, rec: Record, later: seq<Record>)
    ensures seen + Addresses([rec] + later) == WithAddress(seen, rec) + Addresses(later)
  {
    assert ([rec] + later)[1..] == later;
  }

  /** The array after `seen` was offered to it. */
  ghost predicate Stored(now: seq<Addr>, before: seq<Addr>, seen: seq<Addr>, addrc: nat, count: nat) {
    && |now| == |before| && addrc <= |now| && count == Min(|seen|, addrc)
    && (forall i :: 0 <= i < count ==> now[i] == seen[i])
    && (forall i :: count <= i < |now| ==> now[i] == before[i])
  }

  lemma StoreNext(now: seq<Addr>, before: seq<Addr>, seen: seq<Addr>, addrc: nat, count: nat, rec: Record)
    requires Stored(now, before, seen, addrc, count)
    ensures var (now', count') := Offered(now, count, addrc, rec);
      Stored(now', before, WithAddress(seen, rec), addrc, count')
  {
  }

  // ----- a well-built answer section -----

  /** A record as it is sent: an owner name, plain or compressed, and the record. */
  datatype Sent = Sent(labels: seq<seq<Byte>>, tail: seq<Byte>, record: Record)

  ghost predicate GoodRecord(s: Sent) {
    && ShortLabels(s.labels) && IsTail(s.tail)
    && s.record.kind < SHORT && s.record.class_ < SHORT && s.record.ttl < 0x1_0000_0000 && |s.record.rdata| < SHORT
  }

  function LongBytes(v: nat): (b: seq<Byte>)
    ensures |b| == 4
  {
    [v / 0x100_0000 % 256, v / 0x1_0000 % 256, v / 256 % 256, v % 256]
  }

  function HeadWire(r: Record): (b: seq<Byte>)
    ensures |b| == 10
  {
    ShortBytes(r.kind) + ShortBytes(r.class_) + LongBytes(r.ttl) + ShortBytes(|r.rdata|)
  }

  function RecordWire(s: Sent): seq<Byte> {
    NameWire(s.labels, s.tail) + (HeadWire(s.record) + s.record.rdata)
  }

  function RecordsWire(ss: seq<Sent>): seq<Byte> {
    if ss == [] then [] else RecordWire(ss[0]) + RecordsWire(ss[1..])
  }

  ghost function Payloads(ss: seq<Sent>): (rs: seq<Record>)
    ensures |rs| == |ss|
  {
    if ss == [] then [] else [ss[0].record] + Payloads(ss[1..])
  }

  lemma LongHas(p: seq<Byte>, o: nat, v: nat)
    requires v < 0x1_0000_0000 && Has(p, o, LongBytes(v))
    ensures Long(p, o) == v
  {
    var a, b, c, w := v / 256, v / 0x1_0000, v / 0x100_0000, LongBytes(v);
    assert a / 256 == b && b / 256 == c && c < 256;
    assert p[o + 0] == w[0] && p[o + 1] == w[1] && p[o + 2] == w[2] && p[o + 3] == w[3];
  }

  lemma HeadReads(p: seq<Byte>, o: nat, r: Record)
    requires Has(p, o, HeadWire(r))
    requires r.kind < SHORT && r.class_ < SHORT && r.ttl < 0x1_0000_0000 && |r.rdata| < SHORT
    ensures Short(p, o) == r.kind && Short(p, o + 2) == r.class_ && Long(p, o + 4) == r.ttl
      && Short(p, o + 8) == |r.rdata|
  {
    var k, c, t, l := ShortBytes(r.kind), ShortBytes(r.class_), LongBytes(r.ttl), ShortBytes(|r.rdata|);
    HasBoth(p, o, k + c + t, l);
    HasBoth(p, o, k + c, t);
    HasBoth(p, o, k, c);
    ShortHas(p, o, r.kind);
    ShortHas(p, o + 2, r.class_);
    LongHas(p, o + 4, r.ttl);
    ShortHas(p, o + 8, |r.rdata|);
  }

  lemma NextIsSent(p: seq<Byte>, src: nat, s: Sent)
    requires GoodRecord(s) && Has(p, src, RecordWire(s))
    ensures NextRecord(p, src) == Some((s.record, src + |RecordWire(s)|))
  {
    var name, rest := NameWire(s.labels, s.tail), HeadWire(s.record) + s.record.rdata;
    var o := src + |name|;
    HasBoth(p, src, name, rest);
    HasBoth(p, o, HeadWire(s.record), s.record.rdata);
    SkipIsExact(p, src, s.labels, s.tail);
    HeadReads(p, o, s.record);
    HasSlice(p, o + 10, s.record.rdata);
  }

  lemma BytesOfShort(p: seq<Byte>, o: nat)
    requires o + 2 <= |p|
    ensures Has(p, o, ShortBytes(Short(p, o)))
  {
  }

  lemma BytesOfLong(p: seq<Byte>, o: nat)
    requires o + 4 <= |p|
    ensures Long(p, o) < 0x1_0000_0000 && Has(p, o, LongBytes(Long(p, o)))
  {
    FourBytes(Long(p, o), p[o], p[o + 1], p[o + 2], p[o + 3]);
  }

  lemma FourBytes(v: nat, a: Byte, b: Byte, c: Byte, d: Byte)
    requires v == (a as int) * 0x100_0000 + (b as int) * 0x1_0000 + (c as int) * 256 + d as int
    ensures v < 0x1_0000_0000 && LongBytes(v) == [a, b, c, d]
  {
    var y: nat := (a as int) * 256 + b as int;
    var z: nat := y * 256 + c as int;
    LastByte(v, z, d);
    LastByte(z, y, c);
    LastByte(y, a, b);
    assert v / 0x1_0000 == v / 256 / 256 && v / 0x100_0000 == v / 0x1_0000 / 256;
  }

  lemma LastByte(v: nat, high: nat, low: Byte)
    requires v == high * 256 + low as int
    ensures v / 256 == high && v % 256 == low as int
  {
  }

  lemma HasJoined(p: seq<Byte>, o: nat, a: seq<Byte>, b: seq<Byte>)
    requires Has(p, o, a) && Has(p, o + |a|, b)
    ensures Has(p, o, a + b)
  {
    forall i | 0 <= i < |a + b| ensures p[o + i] == (a + b)[i] {
      if i >= |a| { assert p[o + |a| + (i - |a|)] == b[i - |a|]; }
    }
  }

  lemma HeadStands(p: seq<Byte>, o: nat, r: Record)
    requires o + 10 <= |p| && r.kind == Short(p, o) && r.class_ == Short(p, o + 2) && r.ttl == Long(p, o + 4)
    requires |r.rdata| == Short(p, o + 8)
    ensures Has(p, o, HeadWire(r)) && r.ttl < 0x1_0000_0000
  {
    BytesOfShort(p, o);
    BytesOfShort(p, o + 2);
    BytesOfLong(p, o + 4);
    BytesOfShort(p, o + 8);
    var k, c, t, l := ShortBytes(r.kind), ShortBytes(r.class_), LongBytes(r.ttl), ShortBytes(|r.rdata|);
    hide ShortBytes, LongBytes, Short, Long, Has;
    HasJoined(p, o, k, c);
    HasJoined(p, o, k + c, t);
    HasJoined(p, o, k + c + t, l);
  }

  /**
   For arbitrary bytes: a record is read if and only if it stands in the packet behind a name that can
   be skipped, its ten bytes in front of data of the length they tell.
   */
  lemma RecordReadIff(p: seq<Byte>, src: nat, r: Record, end: nat)
    requires src <= |p|
    ensures NextRecord(p, src) == Some((r, end)) <==>
      var (ok, o) := Skip(p, src);
      && ok && r.kind < 65536 && r.class_ < 65536 && r.ttl < 0x1_0000_0000 && |r.rdata| < 65536
      && Has(p, o, HeadWire(r) + r.rdata) && end == o + 10 + |r.rdata|
  {
    hide Skip;
    if NextRecord(p, src) == Some((r, end)) {
      ReadRecordStands(p, src, r, end);
    }
    var (ok, o) := Skip(p, src);
    if ok && r.kind < 65536 && r.class_ < 65536 && r.ttl < 0x1_0000_0000 && |r.rdata| < 65536
      && Has(p, o, HeadWire(r) + r.rdata) && end == o + 10 + |r.rdata|
    {
      StandingRecordIsRead(p, src, r);
    }
    hide Has, HeadWire, NextRecord;
  }

  lemma ReadRecordStands(p: seq<Byte>, src: nat, r: Record, end: nat)
    requires src <= |p| && NextRecord(p, src) == Some((r, end))
    ensures var (ok, o) := Skip(p, src);
      && ok && r.kind < 65536 && r.class_ < 65536 && r.ttl < 0x1_0000_0000 && |r.rdata| < 65536
      && Has(p, o, HeadWire(r) + r.rdata) && end == o + 10 + |r.rdata|
  {
    var o := Skip(p, src).1;
    hide Skip;
    HeadStands(p, o, r);
    assert Has(p, o + 10, r.rdata);
    hide Has, HeadWire;
    HasJoined(p, o, HeadWire(r), r.rdata);
  }

  lemma StandingRecordIsRead(p: seq<Byte>, src: nat, r: Record)
    requires src <= |p| && Skip(p, src).0
    requires r.kind < 65536 && r.class_ < 65536 && r.ttl < 0x1_0000_0000 && |r.rdata| < 65536
    requires Has(p, Skip(p, src).1, HeadWire(r) + r.rdata)
    ensures NextRecord(p, src) == Some((r, Skip(p, src).1 + 10 + |r.rdata|))
  {
    var o := Skip(p, src).1;
    hide Skip;
    HasBoth(p, o, HeadWire(r), r.rdata);
    HeadReads(p, o, r);
    HasSlice(p, o + 10, r.rdata);
    hide HeadWire, Has;
  }

  ghost predicate GoodRecords(ss: seq<Sent>) {
    ss == [] || (GoodRecord(ss[0]) && GoodRecords(ss[1..]))
  }

  lemma FirstSent(p: seq<Byte>, src: nat, s: Sent, more: seq<Byte>)
    requires Has(p, src, RecordWire(s) + more)
    ensures Has(p, src, RecordWire(s)) && Has(p, src + |RecordWire(s)|, more)
  {
    HasBoth(p, src, RecordWire(s), more);
  }

  lemma RecordsFrom(p: seq<Byte>, src: nat, s: Sent, end: nat, n: nat, later: seq<Record>)
    requires n > 0 && GoodRecord(s) && Has(p, src, RecordWire(s)) && end == src + |RecordWire(s)|
    requires Records(p, end, n - 1) == later
    ensures Records(p, src, n) == [s.record] + later
  {
    NextIsSent(p, src, s);
  }

  lemma UnfoldSent(ss: seq<Sent>)
    requires ss != []
    ensures RecordsWire(ss) == RecordWire(ss[0]) + RecordsWire(ss[1..])
    ensures GoodRecords(ss) ==> GoodRecord(ss[0]) && GoodRecords(ss[1..])
    ensures Payloads(ss) == [ss[0].record] + Payloads(ss[1..])
  {
  }

  /** Records sent are the records read. */
  lemma {:induction false} RecordsAreSent(p: seq<Byte>, src: nat, ss: seq<Sent>)
    requires GoodRecords(ss)
    requires Has(p, src, RecordsWire(ss))
    ensures Records(p, src, |ss|) == Payloads(ss)
    decreases |ss|
  {
    if ss == [] {
      assert Records(p, src, 0) == [];
    } else {
      var end := src + |RecordWire(ss[0])|;
      UnfoldSent(ss);
      hide Has, RecordWire, RecordsWire, GoodRecord, GoodRecords, Payloads, Records;
      FirstSent(p, src, ss[0], RecordsWire(ss[1..]));
      RecordsAreSent(p, end, ss[1..]);
      RecordsFrom(p, src, ss[0], end, |ss|, Payloads(ss[1..]));
    }
  }

  lemma CollectedAfterEcho(p: seq<Byte>, src: nat, f: Fields, addrc: nat, end: nat)
    requires src <= |p| && f.rcode == 0 && Echo(p, src, f.qdcount) == (true, end, 0)
    ensures Collected(p, src, f, addrc) == Take(Addresses(Records(p, end, f.ancount)), addrc)
  {
  }

  /**
   For every response without error, with any questions echoed and any records sent, plain or
   compressed, exactly the addresses among the records are collected, in order, as many as fit.
   */
  lemma {:induction false} AddressesAreSent(p: seq<Byte>, src: nat, f: Fields, qs: seq<Question>, ss: seq<Sent>,
    addrc: nat)
    requires f.rcode == 0 && f.qdcount == |qs| && f.ancount == |ss|
    requires GoodQuestions(qs) && GoodRecords(ss)
    requires Has(p, src, QuestionsWire(qs) + RecordsWire(ss))
    ensures Collected(p, src, f, addrc) == Take(Addresses(Payloads(ss)), addrc)
  {
    hide QuestionsWire, RecordsWire, Records, Addresses, Payloads, Echo, GoodQuestions, GoodRecords;
    var end := src + |QuestionsWire(qs)|;
    HasBoth(p, src, QuestionsWire(qs), RecordsWire(ss));
    EchoIsExact(p, src, qs);
    RecordsAreSent(p, end, ss);
    CollectedAfterEcho(p, src, f, addrc, end);
  }

  /** A response: its header, the questions echoed, the records; other sections may follow. */
  function ResponseWire(f: Fields, qs: seq<Question>, ss: seq<Sent>): seq<Byte> {
    EncodeHeader(f) + (QuestionsWire(qs) + RecordsWire(ss))
  }

  /**
   From the first byte of a response without error on: the header is parsed, and exactly the addresses
   among its records are collected behind it, in order, as many as fit.
   */
  lemma ResponseAddresses(p: seq<Byte>, f: Fields, qs: seq<Question>, ss: seq<Sent>, addrc: nat)
    requires InRange(f) && f.rcode == 0 && f.qdcount == |qs| && f.ancount == |ss|
    requires GoodQuestions(qs) && GoodRecords(ss)
    requires Has(p, 0, ResponseWire(f, qs, ss))
    ensures DecodeHeader(p, 0) == f
    ensures Collected(p, 12, DecodeHeader(p, 0), addrc) == Take(Addresses(Payloads(ss)), addrc)
  {
    hide Collected, QuestionsWire, RecordsWire, Addresses, Payloads, GoodQuestions, GoodRecords;
    HasBoth(p, 0, EncodeHeader(f), QuestionsWire(qs) + RecordsWire(ss));
    DecodeAfterEncode(p, 0, f);
    hide DecodeHeader, EncodeHeader;
    AddressesAreSent(p, 12, f, qs, ss, addrc);
  }

  // ----- the query -----

  function QueryHeader(id: nat): Fields {
    NO_FIELDS.(id := id, rd := 1, qdcount := 1)
  }

  /** The packet a host lookup sends. */
  function Query(id: nat, name: seq<Byte>): seq<Byte>
    requires WellFormed(name)
  {
    EncodeHeader(QueryHeader(id)) + (Wire(Labels(name)) + (ShortBytes(TYPE_A) + ShortBytes(CLASS_IN)))
  }

  /** Builds the query; it fails on a malformed name or a full buffer. */
  method DumpQuery(w: Writer, id: nat, name: seq<Byte>) returns (ok: bool)
    requires w.Valid()
    modifies w, w.buffer
    ensures w.Valid()
    ensures ok <==> WellFormed(name) && |Query(id, name)| <= old(w.size)
    ensures ok ==> w.Written() == old(w.Written()) + Query(id, name)
  {
    ghost var start := w.Written();
    var h := new Header(id);
    h.f := h.f.(qdcount := 1);
    ok := h.Dump(w);
    if !ok { return; }
    ghost var head := EncodeHeader(QueryHeader(id));
    ok := PutName(w, name);
    if !ok { return; }
    ghost var wire := Wire(Labels(name));
    ok := w.PutShort(TYPE_A);
    if !ok { return; }
    ok := w.PutShort(CLASS_IN);
    if !ok { return; }
    QueryAssoc(start, head, wire, ShortBytes(TYPE_A), ShortBytes(CLASS_IN));
  }

  lemma QueryAssoc(a: seq<Byte>, b: seq<Byte>, c: seq<Byte>, d: seq<Byte>, e: seq<Byte>)
    ensures (((a + b) + c) + d) + e == a + (b + (c + (d + e)))
  {
    Assoc(a + b + c, d, e);
    Assoc(a + b, c, d + e);
    Assoc(a, b, c + (d + e));
  }

  /** The bytes of a query: `rd` is set, one question, of type 1 (A) and class 1 (IN). */
  lemma QueryLayout(id: nat, name: seq<Byte>)
    requires id < 65536 && WellFormed(name)
    ensures Query(id, name) == [id / 256, id % 256, 1, 0, 0, 1, 0, 0, 0, 0, 0, 0] + (Wire(Labels(name)) + [0, 1, 0, 1])
  {
    HeaderLayout(QueryHeader(id));
    assert ShortBytes(TYPE_A) + ShortBytes(CLASS_IN) == [0, 1, 0, 1];
  }

  lemma QueryParts(id: nat, name: seq<Byte>)
    requires WellFormed(name)
    ensures var q, wire := Query(id, name), Wire(Labels(name));
      Has(q, 0, EncodeHeader(QueryHeader(id))) && Has(q, 12, wire) && |q| == 12 + |wire| + 4
  {
    var head, wire, tail := EncodeHeader(QueryHeader(id)), Wire(Labels(name)),
      ShortBytes(TYPE_A) + ShortBytes(CLASS_IN);
    HasBoth(Query(id, name), 0, head, wire + tail);
    HasBoth(Query(id, name), 12, wire, tail);
  }

  /**
   A packet that ends with one name and four bytes is skipped to the last byte if and only if no
   label is longer than 63 bytes.
   */
  lemma OneQuestionEchoed(q: seq<Byte>, src: nat, name: seq<Byte>)
    requires WellFormed(name) && |name| <= 255
    requires Has(q, src, Wire(Labels(name))) && |q| == src + |Wire(Labels(name))| + 4
    ensures Echo(q, src, 1) == (true, |q|, 0) <==> ShortLabels(Labels(name))
  {
    LabelsHaveNoDots(name);
    LabelsFit(name);
    SkipExactIffShort(q, src, Labels(name));
    var end := Skip(q, src).1;
    assert Echo(q, end + 4, 0) == (true, end + 4, 0);
  }

  /**
   Parsing a query restores its header, and skipping its question consumes it to the last byte if and
   only if no label is longer than 63 bytes.
   */
  lemma QueryRoundTrip(id: nat, name: seq<Byte>)
    requires id < SHORT && WellFormed(name) && |name| <= 255
    ensures DecodeHeader(Query(id, name), 0) == QueryHeader(id)
    ensures Echo(Query(id, name), 12, 1) == (true, |Query(id, name)|, 0) <==> ShortLabels(Labels(name))
  {
    QueryParts(id, name);
    DecodeAfterEncode(Query(id, name), 0, QueryHeader(id));
    OneQuestionEchoed(Query(id, name), 12, name);
  }

  lemma {:induction false} LabelsFit(name: seq<Byte>)
    requires WellFormed(name)
    ensures forall i :: 0 <= i < |Labels(name)| ==> |Labels(name)[i]| <= |name|
    decreases |name|
  {
    if name != [] {
      LabelsFit(AfterLabel(name));
    }
  }
}
