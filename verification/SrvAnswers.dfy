/**
 The answers to a service query: what the records of a response say, from the bytes of the packet.
 The data of an SRV record is a priority, a weight, a port and a host name (RFC 2782).
 */
module SrvAnswers {
  import opened Common
  import opened Bytes
  import opened DnsWire
  import opened DnsNames
  import opened DnsDecompress
  import opened DnsAnswers
  import ServiceMachine

  type Answer = ServiceMachine.Answer

  const TYPE_SRV: nat := 33

  /** The size of the buffer that host names are read into. */
  const HOST: nat := 256

  /** The string in a buffer, which ends at its first zero byte. */
  function Text(b: seq<Byte>): string {
    if b == [] || b[0] == 0 then "" else [b[0] as char] + Text(b[1..])
  }

  lemma {:induction false} TextOfBuffer(b: seq<Byte>, text: seq<Byte>)
    requires HoldsText(b, text)
    ensures Text(b) == Text(text)
  {
    if text != [] {
      assert b[0] == text[0];
      TextOfBuffer(b[1..], text[1..]);
    }
  }

  /** `s` is the string that these bytes hold in front of their first zero byte. */
  ghost predicate Reads(b: seq<Byte>, s: string) {
    && |s| <= |b| && (forall i :: 0 <= i < |s| ==> b[i] != 0 && s[i] as int == b[i])
    && (|s| < |b| ==> b[|s|] == 0)
  }

  lemma {:induction false} TextReads(b: seq<Byte>, s: string)
    ensures Reads(b, s) <==> s == Text(b)
  {
    if b != [] && b[0] != 0 {
      TextReads(b[1..], Text(b[1..]));
      if Reads(b, s) {
        assert s != "";
        forall i | 0 <= i < |s[1..]| ensures b[1..][i] != 0 && s[1..][i] as int == b[1..][i] {
          assert b[i + 1] != 0 && s[i + 1] as int == b[i + 1];
        }
        assert Reads(b[1..], s[1..]);
        TextReads(b[1..], s[1..]);
        assert s == [s[0]] + s[1..];
      }
      if s == Text(b) {
        forall i | 0 <= i < |s| ensures b[i] != 0 && s[i] as int == b[i] {
          if i > 0 { assert b[1..][i - 1] == b[i] && Text(b[1..])[i - 1] == s[i]; }
        }
      }
    }
  }

  // ----- one SRV record -----

  /** The host name at `o`, if reading it ends. */
  function HostAt(p: seq<Byte>, o: nat): Outcome {
    Read((HOST + 1) * |p|, p, o, [], HOST)
  }

  /** The data of an SRV record at `o`; `given` says whether memory for its node is there. */
  function SrvData(p: seq<Byte>, o: nat, given: bool): Answer
    requires o <= |p|
  {
    if |p| - o < 6 || !HostAt(p, o + 6).Name? then ServiceMachine.Broken
    else
      var host := Text(HostAt(p, o + 6).text);
      if host != "" && !given then ServiceMachine.Broken
      else ServiceMachine.Srv(Short(p, o), Short(p, o + 2), Short(p, o + 4), host)
  }

  /** Reading the data at `o` comes to an end. */
  predicate SrvEnds(p: seq<Byte>, o: nat) {
    o + 6 <= |p| ==> HostAt(p, o + 6) != Looping
  }

  /** A host without its node ends the response, unless the host is empty. */
  lemma RefusedNodeBreaks(p: seq<Byte>, o: nat)
    requires o <= |p|
    ensures var a := SrvData(p, o, true);
      SrvData(p, o, false) == if a.Srv? && a.host != "" then ServiceMachine.Broken else a
  {
  }

  predicate IsSrv(r: Record) {
    r.kind == TYPE_SRV && r.class_ == CLASS_IN
  }

  /** What a record says that ends at `end`. */
  function AnswerOf(p: seq<Byte>, r: Record, end: nat, given: bool): Answer
    requires |r.rdata| <= end <= |p|
  {
    if IsSrv(r) then SrvData(p, end - |r.rdata|, given) else ServiceMachine.Skipped
  }

  /** Whether the response handler goes on to the next record. */
  predicate GoesOn(a: Answer) {
    a.Skipped? || (a.Srv? && a.host != "")
  }

  /** Whether the node that is asked for with the record of this number is given. */
  predicate Given(nodes: seq<bool>, k: nat) {
    k >= |nodes| || nodes[k]
  }

  /** The answers of up to `n` records from `src` on, as far as the response handler goes; `k` came before. */
  function Answers(p: seq<Byte>, src: nat, n: nat, nodes: seq<bool>, k: nat): (s: seq<Answer>)
    requires src <= |p|
    ensures |s| <= n
    decreases n
  {
    if n == 0 || NextRecord(p, src).None? then []
    else
      var (rec, end) := NextRecord(p, src).value;
      var a := AnswerOf(p, rec, end, Given(nodes, k));
      if GoesOn(a) then [a] + Answers(p, end, n - 1, nodes, k + 1) else [a]
  }

  /** Every reading on the way comes to an end. */
  predicate AnswersEnd(p: seq<Byte>, src: nat, n: nat, nodes: seq<bool>, k: nat)
    requires src <= |p|
    decreases n
  {
    n == 0 || NextRecord(p, src).None?
    || (var (rec, end) := NextRecord(p, src).value;
      && (IsSrv(rec) ==> SrvEnds(p, end - |rec.rdata|))
      && (GoesOn(AnswerOf(p, rec, end, Given(nodes, k))) ==> AnswersEnd(p, end, n - 1, nodes, k + 1)))
  }

  /** The answers of a response whose header was parsed; none when its questions do not fit the packet. */
  function ResponseAnswers(p: seq<Byte>, src: nat, f: Fields, nodes: seq<bool>): (s: seq<Answer>)
    requires src <= |p|
    ensures |s| <= f.ancount
  {
    var (ok, o, _) := Echo(p, src, f.qdcount);
    if ok then Answers(p, o, f.ancount, nodes, 0) else []
  }

  predicate ResponseEnds(p: seq<Byte>, src: nat, f: Fields, nodes: seq<bool>)
    requires src <= |p|
  {
    var (ok, o, _) := Echo(p, src, f.qdcount);
    ok ==> AnswersEnd(p, o, f.ancount, nodes, 0)
  }

  /** When no chain of bare pointers runs in a circle, every response is read to its end. */
  lemma {:induction false} AnswersEndIfPointersDo(p: seq<Byte>, src: nat, n: nat, nodes: seq<bool>, k: nat)
    requires src <= |p| && PointersEnd(p)
    ensures AnswersEnd(p, src, n, nodes, k)
    decreases n
  {
    if n > 0 && NextRecord(p, src).Some? {
      var (rec, end) := NextRecord(p, src).value;
      HostEndsIfPointersDo(p, end - |rec.rdata| + 6);
      AnswersEndIfPointersDo(p, end, n - 1, nodes, k + 1);
      hide HostAt, NextRecord, AnswerOf;
    }
  }

  lemma HostEndsIfPointersDo(p: seq<Byte>, o: nat)
    requires PointersEnd(p)
    ensures HostAt(p, o) != Looping
  {
    ReadingEndsIffPointersEnd(p);
    assert ReadEnds(p, o, [], HOST);
    NameEndIsDecidable(p, o, [], HOST);
  }

  // ----- reading in place -----

  /** The three numbers and the host name of an SRV record. */
  method ReadSrv(r: Reader)
    returns (ok: bool, priority: nat, weight: nat, port: nat, host: string)
    requires r.Valid() && SrvEnds(r.packet, r.src)
    modifies r
    ensures var a := SrvData(r.packet, old(r.src), true);
      if ok then a == ServiceMachine.Srv(priority, weight, port, host) else a == ServiceMachine.Broken
  {
    priority, weight, port, host := 0, 0, 0, "";
    ok, priority := r.GetShort();
    if !ok { return; }
    ok, weight := r.GetShort();
    if !ok { return; }
    ok, port := r.GetShort();
    if !ok { return; }
    ok, host := ReadHost(r.packet, r.src);
  }

  method ReadHost(p: seq<Byte>, o: nat) returns (ok: bool, host: string)
    requires HostAt(p, o) != Looping
    ensures ok <==> HostAt(p, o).Name?
    ensures ok ==> host == Text(HostAt(p, o).text)
  {
    var buffer := new Byte[HOST];
    var end;
    host := "";
    assert buffer[..0] == [];
    ok, end := ReadName(p, o, buffer, 0, (HOST + 1) * |p|);
    if ok {
      TextOfBuffer(buffer[..], HostAt(p, o).text);
      host := Text(buffer[..]);
    }
  }

  // ----- well-built responses -----

  /** The data at `o` is an SRV record that spells its host, through at most `hops` pointers. */
  ghost predicate SpellsSrv(p: seq<Byte>, o: nat, a: Answer, labels: seq<seq<Byte>>, hops: nat) {
    && a.Srv? && a.priority < SHORT && a.weight < SHORT && a.port < SHORT
    && Has(p, o, ShortBytes(a.priority) + ShortBytes(a.weight) + ShortBytes(a.port))
    && Spells(p, o + 6, labels, hops) && PlainLabels(labels) && |Joined(labels)| <= 254
    && Reads(Joined(labels), a.host)
  }

  /** The record sent at `o` says `a`: one of type 33 (SRV) and class 1 (IN) with this host, or another record. */
  ghost predicate Says(p: seq<Byte>, o: nat, r: Record, a: Answer) {
    if r.kind == 33 && r.class_ == 1 then exists labels, hops :: SpellsSrv(p, o, a, labels, hops) else a.Skipped?
  }

  /** The records sent from `src` on say `answers`, and none of them is without a host. */
  ghost predicate Announces(p: seq<Byte>, src: nat, ss: seq<Sent>, answers: seq<Answer>)
    decreases |ss|
  {
    && |ss| == |answers|
    && (ss != [] ==>
      var end := src + |RecordWire(ss[0])|;
      && Says(p, end - |ss[0].record.rdata|, ss[0].record, answers[0])
      && (answers[0].Skipped? || answers[0].host != "")
      && Announces(p, end, ss[1..], answers[1..]))
  }

  /** A host that is spelled is read, in a buffer that leaves room for it, the root included. */
  lemma HostIsRead(p: seq<Byte>, o: nat, labels: seq<seq<Byte>>, hops: nat)
    requires Spells(p, o, labels, hops) && PlainLabels(labels) && |Joined(labels)| + 2 <= HOST
    ensures HostAt(p, o).Name? && HostAt(p, o).text == Joined(labels)
  {
    if labels == [] {
      assert [] + DotEnded([]) == [];
      ReadsWhatIsSpelled(p, o, labels, hops, [], HOST);
    } else {
      NameReadsAsJoined(p, o, labels, hops, HOST, hops);
    }
    NameEndIsDecidable(p, o, [], HOST);
    ReadOnce(p, o, hops, (HOST + 1) * |p|);
  }

  /** An uncompressed host name of any length is read up to its 255th byte. */
  lemma HostIsCut(p: seq<Byte>, o: nat, labels: seq<seq<Byte>>)
    requires Spells(p, o, labels, 0) && labels != [] && PlainLabels(labels) && Ordinary(labels)
    ensures HostAt(p, o).Name?
    ensures HostAt(p, o).text == Joined(labels)[..if |Joined(labels)| < 255 then |Joined(labels)| else 255]
  {
    NameIsCut(p, o, labels, HOST, (HOST + 1) * |p|);
  }

  lemma ReadOnce(p: seq<Byte>, o: nat, f: nat, g: nat)
    requires Read(f, p, o, [], HOST) != Looping && Read(g, p, o, [], HOST) != Looping
    ensures Read(f, p, o, [], HOST) == Read(g, p, o, [], HOST)
  {
    if f <= g {
      MoreFuel(f, g, p, o, [], HOST);
    } else {
      MoreFuel(g, f, p, o, [], HOST);
    }
  }

  lemma SpelledIsRead(p: seq<Byte>, o: nat, a: Answer, labels: seq<seq<Byte>>, hops: nat)
    requires SpellsSrv(p, o, a, labels, hops)
    ensures o + 6 <= |p| && SrvData(p, o, true) == a
  {
    var x, y, z := ShortBytes(a.priority), ShortBytes(a.weight), ShortBytes(a.port);
    HasBoth(p, o, x + y, z);
    HasBoth(p, o, x, y);
    ShortHas(p, o, a.priority);
    ShortHas(p, o + 2, a.weight);
    ShortHas(p, o + 4, a.port);
    HostIsRead(p, o + 6, labels, hops);
    TextReads(Joined(labels), a.host);
    hide HostAt, Spells, Has;
  }

  lemma FirstSays(p: seq<Byte>, src: nat, s: Sent, a: Answer)
    requires GoodRecord(s) && Has(p, src, RecordWire(s))
    requires Says(p, src + |RecordWire(s)| - |s.record.rdata|, s.record, a)
    ensures var end := src + |RecordWire(s)|;
      NextRecord(p, src) == Some((s.record, end)) && AnswerOf(p, s.record, end, true) == a
  {
    NextIsSent(p, src, s);
    var o := src + |RecordWire(s)| - |s.record.rdata|;
    assert o >= 0;
    hide NextRecord, SrvData, RecordWire, Has, SpellsSrv;
    if IsSrv(s.record) {
      var labels, hops :| SpellsSrv(p, o, a, labels, hops);
      SpelledIsRead(p, o, a, labels, hops);
    }
  }

  lemma UnfoldAnnounced(p: seq<Byte>, src: nat, ss: seq<Sent>, answers: seq<Answer>)
    requires ss != [] && Announces(p, src, ss, answers)
    ensures var end := src + |RecordWire(ss[0])|;
      && |ss| == |answers| && answers == [answers[0]] + answers[1..]
      && |ss[0].record.rdata| <= |RecordWire(ss[0])|
      && Says(p, end - |ss[0].record.rdata|, ss[0].record, answers[0]) && GoesOn(answers[0])
      && Announces(p, end, ss[1..], answers[1..])
  {
    assert answers[0].Skipped? || answers[0].Srv?;
  }

  lemma AnswersFrom(p: seq<Byte>, src: nat, n: nat, nodes: seq<bool>, k: nat, rec: Record, end: nat)
    requires src <= |p| && n > 0 && NextRecord(p, src) == Some((rec, end))
    requires GoesOn(AnswerOf(p, rec, end, Given(nodes, k)))
    ensures Answers(p, src, n, nodes, k) ==
      [AnswerOf(p, rec, end, Given(nodes, k))] + Answers(p, end, n - 1, nodes, k + 1)
  {
    hide NextRecord, AnswerOf;
  }

  /** Records sent, the first and the others, and what they say. */
  lemma FirstAnswered(p: seq<Byte>, src: nat, ss: seq<Sent>, answers: seq<Answer>)
    requires ss != [] && GoodRecords(ss) && Has(p, src, RecordsWire(ss)) && Announces(p, src, ss, answers)
    ensures var end := src + |RecordWire(ss[0])|;
      && answers != [] && answers == [answers[0]] + answers[1..]
      && src <= |p| && NextRecord(p, src) == Some((ss[0].record, end)) && |ss[0].record.rdata| <= end <= |p|
      && AnswerOf(p, ss[0].record, end, true) == answers[0] && GoesOn(answers[0])
      && GoodRecords(ss[1..]) && Has(p, end, RecordsWire(ss[1..])) && Announces(p, end, ss[1..], answers[1..])
  {
    UnfoldSent(ss);
    UnfoldAnnounced(p, src, ss, answers);
    hide Has, RecordWire, RecordsWire, GoodRecord, GoodRecords, AnswerOf, Says, Announces;
    FirstSent(p, src, ss[0], RecordsWire(ss[1..]));
    FirstSays(p, src, ss[0], answers[0]);
    hide NextRecord;
  }

  /** The SRV records sent are the answers read, as long as nodes are given. */
  lemma {:induction false} AnswersAreSent(p: seq<Byte>, src: nat, ss: seq<Sent>, answers: seq<Answer>, nodes: seq<bool>,
      k: nat)
    requires GoodRecords(ss) && Has(p, src, RecordsWire(ss)) && Announces(p, src, ss, answers)
    requires forall i :: k <= i < |nodes| ==> nodes[i]
    ensures src <= |p| && Answers(p, src, |ss|, nodes, k) == answers
    decreases |ss|
  {
    if ss == [] {
      NoneSent(p, src, answers, nodes, k);
    } else {
      var end := src + |RecordWire(ss[0])|;
      FirstAnswered(p, src, ss, answers);
      assert Given(nodes, k);
      hide *;
      AnswersAreSent(p, end, ss[1..], answers[1..], nodes, k + 1);
      AnswersFrom(p, src, |ss|, nodes, k, ss[0].record, end);
    }
  }

  lemma NoneSent(p: seq<Byte>, src: nat, answers: seq<Answer>, nodes: seq<bool>, k: nat)
    requires Has(p, src, RecordsWire([])) && Announces(p, src, [], answers)
    ensures src <= |p| && Answers(p, src, 0, nodes, k) == answers
  {
  }

  /**
   From the first byte of a response on: the header is parsed, and behind the questions exactly the
   records sent are read, plain or compressed, other records left out.
   */
  lemma ResponseSays(p: seq<Byte>, f: Fields, qs: seq<Question>, ss: seq<Sent>, answers: seq<Answer>)
    requires InRange(f) && f.qdcount == |qs| && f.ancount == |ss|
    requires GoodQuestions(qs) && GoodRecords(ss)
    requires Has(p, 0, ResponseWire(f, qs, ss))
    requires Announces(p, 12 + |QuestionsWire(qs)|, ss, answers)
    ensures DecodeHeader(p, 0) == f && ResponseAnswers(p, 12, f, []) == answers
  {
    hide QuestionsWire, RecordsWire, GoodQuestions, GoodRecords, Answers, Announces, Echo;
    HasBoth(p, 0, EncodeHeader(f), QuestionsWire(qs) + RecordsWire(ss));
    DecodeAfterEncode(p, 0, f);
    hide DecodeHeader, EncodeHeader;
    HasBoth(p, 12, QuestionsWire(qs), RecordsWire(ss));
    EchoIsExact(p, 12, qs);
    AnswersAreSent(p, 12 + |QuestionsWire(qs)|, ss, answers, [], 0);
  }
}
