/**
 Cursors over a DNS packet: 16- and 32-bit numbers in network order, and the 12-byte packet header
 (section 4.1.1 of RFC 1035).
 */
module DnsWire {
  import opened Bytes

  const SHORT: nat := 0x1_0000

  /** The number in the two bytes at `o`. */
  function Short(p: seq<Byte>, o: nat): (v: nat)
    requires o + 2 <= |p|
    ensures v < SHORT
  {
    (p[o] as int) * 256 + p[o + 1] as int
  }

  /** The packet has the bytes `w` at `src`. */
  ghost predicate Has(p: seq<Byte>, src: nat, w: seq<Byte>) {
    src + |w| <= |p| && forall i :: 0 <= i < |w| ==> p[src + i] == w[i]
  }

  lemma HasBoth(p: seq<Byte>, src: nat, a: seq<Byte>, b: seq<Byte>)
    requires Has(p, src, a + b)
    ensures Has(p, src, a) && Has(p, src + |a|, b)
  {
    assert forall i :: 0 <= i < |a| ==> (a + b)[i] == a[i];
    assert forall i :: 0 <= i < |b| ==> (a + b)[|a| + i] == b[i];
  }

  lemma HasSlice(p: seq<Byte>, src: nat, w: seq<Byte>)
    requires Has(p, src, w)
    ensures p[src..src + |w|] == w
  {
  }

  /** The number in the four bytes at `o`. */
  function Long(p: seq<Byte>, o: nat): nat
    requires o + 4 <= |p|
  {
    (p[o] as int) * 0x100_0000 + (p[o + 1] as int) * 0x1_0000 + (p[o + 2] as int) * 256 + p[o + 3] as int
  }

  function ShortBytes(v: nat): (b: seq<Byte>)
    ensures |b| == 2
  {
    [v / 256 % 256, v % 256]
  }

  lemma ShortRoundTrip(v: nat, b: seq<Byte>)
    ensures v < SHORT ==> Short(ShortBytes(v), 0) == v
    ensures |b| == 2 ==> ShortBytes(Short(b, 0)) == b
  {
  }

  /** A read cursor: what is left always ends where the packet ends. */
  class Reader {
    const packet: seq<Byte>
    var src: nat
    var size: nat

    ghost predicate Valid()
      reads this
    {
      src + size == |packet|
    }

    constructor (packet: seq<Byte>)
      ensures Valid() && this.packet == packet && src == 0
    {
      this.packet, src, size := packet, 0, |packet|;
    }

    /** A cursor in the middle of a packet. */
    constructor At(packet: seq<Byte>, src: nat)
      requires src <= |packet|
      ensures Valid() && this.packet == packet && this.src == src
    {
      this.packet, this.src, size := packet, src, |packet| - src;
    }

    method GetShort() returns (ok: bool, value: nat)
      requires Valid()
      modifies this
      ensures Valid()
      ensures ok <==> old(size) >= 2
      ensures if ok then
          src == old(src) + 2 && value == (packet[old(src)] as int) * 256 + packet[old(src) + 1] as int
        else unchanged(this)
    {
      if size < 2 {
        return false, 0;
      }
      value := (packet[src] as int) * 256 + packet[src + 1] as int;
      src, size := src + 2, size - 2;
      return true, value;
    }

    method GetLong() returns (ok: bool, value: nat)
      requires Valid()
      modifies this
      ensures Valid()
      ensures ok <==> old(size) >= 4
      ensures if ok then
          src == old(src) + 4 &&
          value == (((packet[old(src)] as int) * 256 + packet[old(src) + 1] as int) * 256
            + packet[old(src) + 2] as int) * 256 + packet[old(src) + 3] as int
        else unchanged(this)
    {
      if size < 4 {
        return false, 0;
      }
      value := (packet[src] as int) * 0x100_0000 + (packet[src + 1] as int) * 0x1_0000
        + (packet[src + 2] as int) * 256 + packet[src + 3] as int;
      src, size := src + 4, size - 4;
      return true, value;
    }

    method Skip(n: nat)
      requires Valid() && n <= size
      modifies this
      ensures Valid() && src == old(src) + n
    {
      src, size := src + n, size - n;
    }
  }

  /** A write cursor into a buffer. */
  class Writer {
    const buffer: array<Byte>
    var dst: nat
    var size: nat

    ghost predicate Valid()
      reads this
    {
      dst + size == buffer.Length
    }

    /** What has been written so far. */
    ghost function Written(): seq<Byte>
      requires Valid()
      reads this, buffer
    {
      buffer[..dst]
    }

    constructor (buffer: array<Byte>)
      ensures Valid() && this.buffer == buffer && dst == 0
    {
      this.buffer, dst, size := buffer, 0, buffer.Length;
    }

    method PutByte(b: Byte)
      requires Valid() && size > 0
      modifies this, buffer
      ensures Valid() && dst == old(dst) + 1 && Written() == old(Written()) + [b]
    {
      buffer[dst] := b;
      dst, size := dst + 1, size - 1;
    }

    method PutShort(value: nat) returns (ok: bool)
      requires Valid()
      modifies this, buffer
      ensures Valid()
      ensures ok <==> old(size) >= 2
      ensures Written() == if ok then old(Written()) + [value / 256 % 256, value % 256] else old(Written())
    {
      if size < 2 {
        return false;
      }
      PutByte(value / 256 % 256);
      PutByte(value % 256);
      return true;
    }
  }

  // ----- the header -----

  /** The fields of a header, as values. */
  datatype Fields = Fields(
    id: nat, qr: nat, opcode: nat, aa: nat, tc: nat, rd: nat, ra: nat, z: nat, rcode: nat,
    qdcount: nat, ancount: nat, nscount: nat, arcount: nat)

  /** Every field fits its bits. */
  predicate InRange(f: Fields) {
    && f.id < SHORT && f.qr < 2 && f.opcode < 16 && f.aa < 2 && f.tc < 2 && f.rd < 2 && f.ra < 2 && f.z < 8
      && f.rcode < 16
    && f.qdcount < SHORT && f.ancount < SHORT && f.nscount < SHORT && f.arcount < SHORT
  }

  function Flags(f: Fields): nat {
    f.qr * 0x8000 + f.opcode * 0x800 + f.aa * 0x400 + f.tc * 0x200 + f.rd * 0x100 + f.ra * 0x80 + f.z * 0x10 + f.rcode
  }

  function EncodeHeader(f: Fields): (b: seq<Byte>)
    ensures |b| == 12
  {
    ShortBytes(f.id) + ShortBytes(Flags(f)) + ShortBytes(f.qdcount) + ShortBytes(f.ancount) +
      ShortBytes(f.nscount) + ShortBytes(f.arcount)
  }

  /** The flag word split into its bit fields. */
  function WithFlags(f: Fields, v: nat): Fields {
    f.(qr := v / 0x8000 % 2, opcode := v / 0x800 % 16, aa := v / 0x400 % 2, tc := v / 0x200 % 2, rd := v / 0x100 % 2,
       ra := v / 0x80 % 2, z := v / 0x10 % 8, rcode := v % 16)
  }

  const NO_FIELDS: Fields := Fields(0, 0, 0, 0, 0, 0, 0, 0, 0, 0, 0, 0, 0)

  /** The header in the twelve bytes at `o`. */
  function DecodeHeader(p: seq<Byte>, o: nat): Fields
    requires o + 12 <= |p|
  {
    WithFlags(NO_FIELDS, Short(p, o + 2)).(
      id := Short(p, o), qdcount := Short(p, o + 4), ancount := Short(p, o + 6), nscount := Short(p, o + 8),
        arcount := Short(p, o + 10))
  }

  /** Dividing in two steps. */
  lemma FlagQuotients(v: nat)
    ensures v / 0x80 == v / 0x10 / 8 && v / 0x100 == v / 0x80 / 2 && v / 0x200 == v / 0x100 / 2
    ensures v / 0x400 == v / 0x200 / 2 && v / 0x800 == v / 0x400 / 2 && v / 0x8000 == v / 0x800 / 16
  {
  }

  lemma FlagsOfWord(f: Fields, v: nat)
    requires v < SHORT
    ensures Flags(WithFlags(f, v)) == v
  {
    FlagQuotients(v);
    var high, low := v / 0x100, v % 0x100;
    assert v / 0x80 == high * 2 + low / 0x80 && v / 0x10 == high * 0x10 + low / 0x10;
    assert low == v / 0x80 % 2 * 0x80 + v / 0x10 % 8 * 0x10 + v % 16;
    assert high == v / 0x8000 % 2 * 0x80 + v / 0x800 % 16 * 8 + v / 0x400 % 2 * 4 + v / 0x200 % 2 * 2 + v / 0x100 % 2;
  }

  /** The first flag byte is the high one. */
  lemma HighFlags(v: nat, qr: nat, opcode: nat, aa: nat, tc: nat, rd: nat)
    requires qr < 2 && opcode < 16 && aa < 2 && tc < 2 && rd < 2
    requires v / 0x100 == qr * 0x80 + opcode * 8 + aa * 4 + tc * 2 + rd
    ensures v / 0x8000 % 2 == qr && v / 0x800 % 16 == opcode && v / 0x400 % 2 == aa && v / 0x200 % 2 == tc
      && v / 0x100 % 2 == rd
  {
    FlagQuotients(v);
    assert v / 0x200 == qr * 0x40 + opcode * 4 + aa * 2 + tc;
    assert v / 0x400 == qr * 0x20 + opcode * 2 + aa;
    assert v / 0x800 == qr * 0x10 + opcode;
  }

  lemma LowFlags(v: nat, high: nat, ra: nat, z: nat, rcode: nat)
    requires ra < 2 && z < 8 && rcode < 16
    requires v == high * 0x100 + ra * 0x80 + z * 0x10 + rcode
    ensures v / 0x100 == high && v / 0x80 % 2 == ra && v / 0x10 % 8 == z && v % 16 == rcode
  {
    FlagQuotients(v);
    assert v / 0x10 == high * 0x10 + ra * 8 + z;
    assert v / 0x80 == high * 2 + ra;
  }

  lemma WordOfFlags(f: Fields)
    requires InRange(f)
    ensures Flags(f) < SHORT && WithFlags(f, Flags(f)) == f
  {
    LowFlags(Flags(f), f.qr * 0x80 + f.opcode * 8 + f.aa * 4 + f.tc * 2 + f.rd, f.ra, f.z, f.rcode);
    HighFlags(Flags(f), f.qr, f.opcode, f.aa, f.tc, f.rd);
  }

  lemma ShortHas(p: seq<Byte>, o: nat, v: nat)
    requires v < SHORT && Has(p, o, ShortBytes(v))
    ensures Short(p, o) == v
  {
    assert p[o + 0] == ShortBytes(v)[0] && p[o + 1] == ShortBytes(v)[1];
  }

  /** The twelve bytes of a header (section 4.1.1 of RFC 1035). */
  lemma HeaderLayout(f: Fields)
    requires f.id < 65536 && f.qr < 2 && f.opcode < 16 && f.aa < 2 && f.tc < 2 && f.rd < 2
    requires f.ra < 2 && f.z < 8 && f.rcode < 16
    requires f.qdcount < 65536 && f.ancount < 65536 && f.nscount < 65536 && f.arcount < 65536
    ensures EncodeHeader(f) == [
      f.id / 256, f.id % 256,
      f.qr * 128 + f.opcode * 8 + f.aa * 4 + f.tc * 2 + f.rd, f.ra * 128 + f.z * 16 + f.rcode,
      f.qdcount / 256, f.qdcount % 256, f.ancount / 256, f.ancount % 256,
      f.nscount / 256, f.nscount % 256, f.arcount / 256, f.arcount % 256]
  {
    var high, low := f.qr * 128 + f.opcode * 8 + f.aa * 4 + f.tc * 2 + f.rd, f.ra * 128 + f.z * 16 + f.rcode;
    assert Flags(f) == high * 256 + low;
    TwoBytes(high, low);
  }

  lemma TwoBytes(high: nat, low: nat)
    requires high < 256 && low < 256
    ensures ShortBytes(high * 256 + low) == [high, low]
  {
  }

  /** Parsing what was dumped, wherever it stands, restores every field. */
  lemma DecodeAfterEncode(p: seq<Byte>, o: nat, f: Fields)
    requires InRange(f) && Has(p, o, EncodeHeader(f))
    ensures DecodeHeader(p, o) == f
  {
    WordOfFlags(f);
    var two := ShortBytes(f.id) + ShortBytes(Flags(f));
    var three := two + ShortBytes(f.qdcount);
    var four := three + ShortBytes(f.ancount);
    var five := four + ShortBytes(f.nscount);
    HasBoth(p, o, five, ShortBytes(f.arcount));
    HasBoth(p, o, four, ShortBytes(f.nscount));
    HasBoth(p, o, three, ShortBytes(f.ancount));
    HasBoth(p, o, two, ShortBytes(f.qdcount));
    HasBoth(p, o, ShortBytes(f.id), ShortBytes(Flags(f)));
    ShortHas(p, o, f.id);
    ShortHas(p, o + 2, Flags(f));
    ShortHas(p, o + 4, f.qdcount);
    ShortHas(p, o + 6, f.ancount);
    ShortHas(p, o + 8, f.nscount);
    ShortHas(p, o + 10, f.arcount);
  }

  /** Dumping what was parsed restores every 12-byte header. */
  lemma EncodeAfterDecode(b: seq<Byte>)
    requires |b| == 12
    ensures InRange(DecodeHeader(b, 0)) && EncodeHeader(DecodeHeader(b, 0)) == b
  {
    var f := DecodeHeader(b, 0);
    FlagsOfWord(NO_FIELDS, Short(b, 2));
    assert Flags(f) == Short(b, 2);
    ShortRoundTrip(0, b[..2]);
    ShortRoundTrip(0, b[2..4]);
    ShortRoundTrip(0, b[4..6]);
    ShortRoundTrip(0, b[6..8]);
    ShortRoundTrip(0, b[8..10]);
    ShortRoundTrip(0, b[10..12]);
  }

  /** The packet builder and parser's fields, as the source updates them one by one. */
  class Header {
    var f: Fields

    /** A query header: only `rd` is set. */
    constructor (id: nat)
      ensures f == NO_FIELDS.(id := id, rd := 1)
    {
      f := NO_FIELDS.(id := id, rd := 1);
    }

    method Parse(r: Reader) returns (ok: bool)
      requires r.Valid()
      modifies this, r
      ensures r.Valid()
      ensures ok <==> old(r.size) >= 12
      ensures ok ==> f == DecodeHeader(r.packet, old(r.src)) && r.src == old(r.src) + 12
    {
      var v: nat;
      ok, v := r.GetShort();
      if !ok { return; }
      f := f.(id := v);
      ok, v := r.GetShort();
      if !ok { return; }
      f := WithFlags(f, v);
      ok, v := r.GetShort();
      if !ok { return; }
      f := f.(qdcount := v);
      ok, v := r.GetShort();
      if !ok { return; }
      f := f.(ancount := v);
      ok, v := r.GetShort();
      if !ok { return; }
      f := f.(nscount := v);
      ok, v := r.GetShort();
      if !ok { return; }
      f := f.(arcount := v);
    }

    method Dump(w: Writer) returns (ok: bool)
      requires w.Valid()
      modifies w, w.buffer
      ensures w.Valid()
      ensures ok <==> old(w.size) >= 12
      ensures ok ==> w.Written() == old(w.Written()) + EncodeHeader(f)
    {
      ok := w.PutShort(f.id);
      if !ok { return; }
      ok := w.PutShort(Flags(f));
      if !ok { return; }
      ok := w.PutShort(f.qdcount);
      if !ok { return; }
      ok := w.PutShort(f.ancount);
      if !ok { return; }
      ok := w.PutShort(f.nscount);
      if !ok { return; }
      ok := w.PutShort(f.arcount);
    }
  }
}
