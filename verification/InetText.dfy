/**
 Printing IPv4 addresses and reading patterns of them: an address, an address range, and a mask given
 by its length or octet by octet.
 */
module InetText {
  import opened Common
  import opened Bytes

  /** Where an unsigned number wraps. */
  const WRAP: nat := 0x1_0000_0000

  // ----- numbers -----

  predicate IsDigit(c: char) {
    '0' <= c <= '9'
  }

  function Digit(n: nat): (c: char)
    requires n < 10
    ensures IsDigit(c) && c as int - '0' as int == n
  {
    (n + '0' as int) as char
  }

  /** How many digits come first. */
  function Lead(t: string): (k: nat)
    ensures k <= |t|
    ensures forall i :: 0 <= i < k ==> IsDigit(t[i])
    ensures k < |t| ==> !IsDigit(t[k])
  {
    if t == "" || !IsDigit(t[0]) then 0 else 1 + Lead(t[1..])
  }

  ghost predicate AllDigits(d: string) {
    forall i :: 0 <= i < |d| ==> IsDigit(d[i])
  }

  /** The number `getseg` makes of digits, in 32 bits. */
  function Number(d: string): (n: nat)
    requires AllDigits(d)
    ensures n < WRAP
  {
    if d == "" then 0 else (Number(d[..|d| - 1]) * 10 + (d[|d| - 1] as int - '0' as int)) % WRAP
  }

  /** The digits of a number; the source has them in a table for 0 to 255. */
  function Decimal(n: nat): (d: string)
    ensures d != "" && AllDigits(d)
  {
    if n < 10 then [Digit(n)] else Decimal(n / 10) + [Digit(n % 10)]
  }

  lemma {:induction false} NumberOfDecimal(n: nat)
    requires n < WRAP
    ensures Number(Decimal(n)) == n
  {
    if n >= 10 {
      NumberOfDecimal(n / 10);
      assert Decimal(n)[..|Decimal(n)| - 1] == Decimal(n / 10);
    } else {
      assert Decimal(n)[..0] == "";
    }
  }

  /** Cutting digits off makes a smaller number. */
  lemma {:induction false} CutIsSmaller(n: nat, j: nat)
    requires n < WRAP && 0 < j < |Decimal(n)|
    ensures Number(Decimal(n)[..j]) < n
  {
    if n >= 10 {
      var d := Decimal(n / 10);
      assert Decimal(n)[..j] == d[..j];
      if j == |d| {
        assert d[..j] == d;
        NumberOfDecimal(n / 10);
      } else {
        CutIsSmaller(n / 10, j);
      }
    }
  }

  // ----- reading -----

  /** Octets read so far and what follows them. */
  datatype Octets = Fail | Done(octets: seq<Byte>, rest: string)

  /** One to four octets with dots between them; a dot may follow the fourth. */
  function ReadOctets(t: string, out: seq<Byte>): (r: Octets)
    requires |out| <= 4
    ensures r.Done? ==> |r.octets| <= 4 && (r.rest == "" ==> |r.octets| == 4)
    decreases 4 - |out|
  {
    if |out| == 4 then Done(out, t)
    else
      var k := Lead(t);
      if k == 0 || Number(t[..k]) > 255 then Fail
      else
        var out', rest := out + [Number(t[..k])], t[k..];
        if rest == "" then (if |out'| == 4 then Done(out', rest) else Fail)
        else if rest[0] == '/' then Done(out', rest)
        else if rest[0] != '.' then Fail
        else ReadOctets(rest[1..], out')
  }

  const FULL: seq<Byte> := [255, 255, 255, 255]

  /** The value of bit `k` of an octet, the first one being the highest. */
  function Place(k: nat): (p: nat)
    requires k < 8
    ensures p > 0
  {
    [128, 64, 32, 16, 8, 4, 2, 1][k]
  }

  predicate Bit(b: nat, k: nat)
    requires k < 8
  {
    b / Place(k) % 2 == 1
  }

  /** `b |= 1 << (7 - k)` */
  function WithBit(b: nat, k: nat): nat
    requires k < 8
  {
    if Bit(b, k) then b else b + Place(k)
  }

  /** An octet with `m` leading ones. */
  function Ones(m: nat): Byte
    requires m <= 8
  {
    [0, 128, 192, 224, 240, 248, 252, 254, 255][m]
  }

  lemma OnesHaveBits(m: nat, k: nat)
    requires m <= 8 && k < 8
    ensures Bit(Ones(m), k) <==> k < m
  {
  }

  lemma OneMore(m: nat)
    requires m < 8
    ensures WithBit(Ones(m), m) == Ones(m + 1)
  {
  }

  /** How many of the first `n` mask bits fall into octet `j`. */
  function Share(n: nat, j: nat): (m: nat)
    ensures m <= 8
  {
    if n <= 8 * j then 0 else if n >= 8 * j + 8 then 8 else n - 8 * j
  }

  function PrefixMask(n: nat): seq<Byte> {
    [Ones(Share(n, 0)), Ones(Share(n, 1)), Ones(Share(n, 2)), Ones(Share(n, 3))]
  }

  /** The mask of length `n` is exactly `n` leading one bits. */
  lemma PrefixMaskIsLeadingOnes(n: nat, k: nat)
    requires n <= 32 && k < 32
    ensures Bit(PrefixMask(n)[k / 8], k % 8) <==> k < n
  {
    OnesHaveBits(Share(n, k / 8), k % 8);
  }

  /** Setting the next bit makes the next mask. */
  lemma NextMask(n: nat)
    requires n < 32
    ensures var m := PrefixMask(n);
      var b := WithBit(m[n / 8], n % 8);
      b < 256 && m[n / 8 := b] == PrefixMask(n + 1)
  {
    OneMore(n % 8);
  }

  /** Four octets with dots between them; fewer leave the mask's later octets as they are. */
  function ReadMaskOctets(t: string, mask: seq<Byte>, count: nat): Option<seq<Byte>>
    requires |mask| == 4 && count <= 4
    decreases 4 - count
  {
    if count == 4 then Some(mask)
    else
      var k := Lead(t);
      if k == 0 || Number(t[..k]) > 255 then None
      else
        var mask' := mask[count := Number(t[..k])];
        if k == |t| then Some(mask')
        else if t[k] != '.' then None
        else ReadMaskOctets(t[k + 1..], mask', count + 1)
  }

  /** What follows the slash: a length, or octets when there is a dot in it. */
  function ReadMask(t: string): Option<seq<Byte>> {
    if '.' in t then ReadMaskOctets(t, FULL, 0)
    else if Lead(t) == 0 || Number(t[..Lead(t)]) > 32 then None
    else Some(PrefixMask(Number(t[..Lead(t)])))
  }

  /** `inaddr_parse_v4`: the address and the mask. */
  function Parse(s: string): Option<(seq<Byte>, seq<Byte>)> {
    match ReadOctets(s, [])
    case Fail => None
    case Done(octets, rest) =>
      var addr := octets + seq(4 - |octets|, _ => 0);
      if rest == "" then Some((addr, FULL))
      else if rest[0] != '/' then None
      else match ReadMask(rest[1..])
        case None => None
        case Some(mask) => Some((addr, mask))
  }

  // ----- printing -----

  /** The four octets of an address with dots between them. */
  function Dotted(a: seq<Byte>): string
    requires |a| > 0
  {
    if |a| == 1 then Decimal(a[0]) else Decimal(a[0]) + "." + Dotted(a[1..])
  }

  lemma {:induction false} LeadOf(d: string, rest: string)
    requires AllDigits(d) && (rest == "" || !IsDigit(rest[0]))
    ensures Lead(d + rest) == |d| && (d + rest)[..|d|] == d && (d + rest)[|d|..] == rest
  {
    if d == "" {
      assert d + rest == rest;
    } else {
      assert (d + rest)[1..] == d[1..] + rest;
      LeadOf(d[1..], rest);
    }
  }

  /** Reading one run of digits and what follows it. */
  lemma ReadDigits(d: string, rest: string, out: seq<Byte>)
    requires |out| < 4 && AllDigits(d) && (rest == "" || !IsDigit(rest[0]))
    ensures ReadOctets(d + rest, out) ==
      if d == "" || Number(d) > 255 then Fail
      else if rest == "" then (if |out| == 3 then Done(out + [Number(d)], "") else Fail)
      else if rest[0] == '/' then Done(out + [Number(d)], rest)
      else if rest[0] != '.' then Fail
      else ReadOctets(rest[1..], out + [Number(d)])
  {
    LeadOf(d, rest);
    hide Lead, Number;
  }

  /** Reading one octet and what follows it. */
  lemma ReadFirst(n: Byte, rest: string, out: seq<Byte>)
    requires |out| < 4 && (rest == "" || !IsDigit(rest[0]))
    ensures ReadOctets(Decimal(n) + rest, out) ==
      if rest == "" then (if |out| == 3 then Done(out + [n], "") else Fail)
      else if rest[0] == '/' then Done(out + [n], rest)
      else if rest[0] != '.' then Fail
      else ReadOctets(rest[1..], out + [n])
  {
    hide ReadOctets, Decimal;
    ReadDigits(Decimal(n), rest, out);
    NumberOfDecimal(n);
  }

  lemma ReadMore(n: Byte, more: string, out: seq<Byte>)
    requires |out| < 4
    ensures ReadOctets(Decimal(n) + ("." + more), out) == ReadOctets(more, out + [n])
  {
    ReadFirst(n, "." + more, out);
    assert ("." + more)[1..] == more;
  }

  lemma DottedFirst(a: seq<Byte>, rest: string)
    requires |a| > 1
    ensures Dotted(a) + rest == Decimal(a[0]) + ("." + (Dotted(a[1..]) + rest))
  {
    Regroup(Decimal(a[0]), ".", Dotted(a[1..]), rest);
  }

  lemma Regroup(a: string, b: string, c: string, d: string)
    ensures a + b + c + d == a + (b + (c + d))
  {
    assert (b + c) + d == b + (c + d);
    assert (a + b) + c == a + (b + c);
    assert (a + (b + c)) + d == a + ((b + c) + d);
  }

  lemma ReadLast(a: seq<Byte>, rest: string, out: seq<Byte>)
    requires |a| == 1 && |out| == 3 && (rest == "" || rest[0] == '/')
    ensures ReadOctets(Dotted(a) + rest, out) == Done(out + a, rest)
  {
    ReadFirst(a[0], rest, out);
    assert a == [a[0]];
  }

  lemma OneOctetMore(out: seq<Byte>, a: seq<Byte>)
    requires |a| > 0
    ensures (out + [a[0]]) + a[1..] == out + a
  {
  }

  /** Reading printed octets, up to a slash or the end. */
  lemma {:induction false} ReadDotted(a: seq<Byte>, rest: string, out: seq<Byte>)
    requires 0 < |a| && |out| + |a| == 4 && (rest == "" || rest[0] == '/')
    ensures ReadOctets(Dotted(a) + rest, out) == Done(out + a, rest)
    decreases |a|
  {
    hide ReadOctets, Dotted, Decimal;
    if |a| == 1 {
      ReadLast(a, rest, out);
    } else {
      DottedFirst(a, rest);
      ReadMore(a[0], Dotted(a[1..]) + rest, out);
      ReadDotted(a[1..], rest, out + [a[0]]);
      OneOctetMore(out, a);
    }
  }

  /** What the four octets of an address are followed by decides the mask. */
  lemma ParseAfter(s: string, a: seq<Byte>, rest: string)
    requires |a| == 4 && ReadOctets(s, []) == Done(a, rest)
    ensures rest == "" ==> Parse(s) == Some((a, FULL))
    ensures rest != "" && rest[0] == '/' ==>
      Parse(s) == (if ReadMask(rest[1..]).Some? then Some((a, ReadMask(rest[1..]).value)) else None)
  {
    hide ReadOctets, ReadMask;
    assert a + seq(4 - |a|, _ => 0) == a;
  }

  /** A printed address is read back, with a full mask. */
  lemma AddressRoundTrip(a: seq<Byte>)
    requires |a| == 4
    ensures Parse(Dotted(a)) == Some((a, FULL))
  {
    hide ReadOctets, Dotted, Parse;
    ReadDotted(a, "", []);
    assert Dotted(a) + "" == Dotted(a) && [] + a == a;
    ParseAfter(Dotted(a), a, "");
  }

  /**
   With a length behind it, the mask has exactly that many leading ones; what follows the length
   does not matter unless it has a dot in it.
   */
  lemma RangeRoundTrip(a: seq<Byte>, n: nat, junk: string)
    requires |a| == 4 && n <= 32 && '.' !in junk && (junk == "" || !IsDigit(junk[0]))
    ensures Parse(Dotted(a) + ("/" + (Decimal(n) + junk))) == Some((a, PrefixMask(n)))
  {
    hide ReadOctets, Dotted, Parse, ReadMask, Decimal;
    var rest := "/" + (Decimal(n) + junk);
    ReadDotted(a, rest, []);
    assert [] + a == a && rest[1..] == Decimal(n) + junk;
    ParseAfter(Dotted(a) + rest, a, rest);
    ReadLength(n, junk);
  }

  lemma ReadLength(n: nat, junk: string)
    requires n <= 32 && '.' !in junk && (junk == "" || !IsDigit(junk[0]))
    ensures ReadMask(Decimal(n) + junk) == Some(PrefixMask(n))
  {
    hide Decimal, Number;
    LeadOf(Decimal(n), junk);
    NumberOfDecimal(n);
    assert '.' !in Decimal(n) by {
      assert forall i :: 0 <= i < |Decimal(n)| ==> IsDigit(Decimal(n)[i]);
    }
  }

  /** With a printed mask behind it, of two octets at least, the mask is read back; octets not given are 255. */
  lemma MaskRoundTrip(a: seq<Byte>, m: seq<Byte>)
    requires |a| == 4 && 2 <= |m| <= 4
    ensures Parse(Dotted(a) + ("/" + Dotted(m))) == Some((a, m + FULL[|m|..]))
  {
    hide ReadOctets, Dotted, Parse, ReadMask;
    var rest := "/" + Dotted(m);
    ReadDotted(a, rest, []);
    assert [] + a == a && rest[1..] == Dotted(m);
    ParseAfter(Dotted(a) + rest, a, rest);
    ReadWholeMask(m);
  }

  lemma ReadWholeMask(m: seq<Byte>)
    requires 2 <= |m| <= 4
    ensures ReadMask(Dotted(m)) == Some(m + FULL[|m|..])
  {
    HasDot(m);
    hide Dotted, ReadMaskOctets, Decimal;
    assert m[0..] == m;
    ReadDottedMask(m, FULL, 0);
  }

  lemma HasDot(m: seq<Byte>)
    requires |m| > 1
    ensures '.' in Dotted(m)
  {
    DottedFirst(m, "");
    hide Dotted, Decimal;
    assert Dotted(m) + "" == Dotted(m);
    assert Dotted(m)[|Decimal(m[0])|] == '.';
  }

  lemma {:induction false} ReadDottedMask(m: seq<Byte>, mask: seq<Byte>, count: nat)
    requires count < |m| <= 4 && |mask| == 4 && (forall i :: 0 <= i < 4 ==> mask[i] == if i < count then m[i] else 255)
    ensures ReadMaskOctets(Dotted(m[count..]), mask, count) == Some(m + FULL[|m|..])
    decreases 4 - count
  {
    var n, mask' := m[count], mask[count := m[count]];
    NumberOfDecimal(n);
    if count + 1 == |m| {
      LeadOf(Decimal(n), "");
      assert m[count..] == [n] && Decimal(n) + "" == Decimal(n);
      hide Decimal, Number, Lead;
      assert mask' == m + FULL[|m|..];
    } else {
      var more := Dotted(m[count + 1..]);
      assert m[count..][1..] == m[count + 1..] && more + "" == more;
      DottedFirst(m[count..], "");
      LeadOf(Decimal(n), "." + more);
      assert Dotted(m[count..]) == Decimal(n) + ("." + more);
      assert (Decimal(n) + ("." + more))[|Decimal(n)| + 1..] == more;
      ReadDottedMask(m, mask', count + 1);
    }
  }

  lemma CutInFirst(a: seq<Byte>, m: nat, out: seq<Byte>)
    requires 0 < |a| && |out| + |a| == 4 && m <= |Decimal(a[0])| && (|a| == 1 ==> m < |Decimal(a[0])|)
    ensures ReadOctets(Decimal(a[0])[..m], out) != Done(out + a, "")
  {
    var d := Decimal(a[0])[..m];
    hide Decimal, Number;
    LeadOf(d, "");
    assert d + "" == d && d[..m] == d && d[m..] == "";
    if |a| == 1 && m > 0 {
      CutIsSmaller(a[0], m);
      assert (out + a)[3] == a[0];
    }
  }

  lemma CutDotted(a: seq<Byte>, m: nat)
    requires 0 < |a| && m < |Dotted(a)|
    ensures var d := Decimal(a[0]);
      if |a| == 1 || m <= |d| then Dotted(a)[..m] == d[..m] && (|a| == 1 ==> Dotted(a) == d)
      else m - |d| - 1 < |Dotted(a[1..])| && Dotted(a)[..m] == d + ("." + Dotted(a[1..])[..m - |d| - 1])
  {
    var d := Decimal(a[0]);
    if |a| > 1 && m > |d| {
      assert Dotted(a) == d + ("." + Dotted(a[1..]));
      hide Dotted, Decimal;
      assert (d + ("." + Dotted(a[1..])))[..m] == d + ("." + Dotted(a[1..]))[..m - |d|];
      assert ("." + Dotted(a[1..]))[..m - |d|] == "." + Dotted(a[1..])[..m - |d| - 1];
    }
  }

  /** A printed address that was cut is not read back as that address. */
  lemma {:induction false} CutReadsOther(a: seq<Byte>, m: nat, out: seq<Byte>)
    requires 0 < |a| && |out| + |a| == 4 && m < |Dotted(a)|
    ensures ReadOctets(Dotted(a)[..m], out) != Done(out + a, "")
    decreases |a|
  {
    hide ReadOctets, Dotted, Decimal;
    CutDotted(a, m);
    var d := Decimal(a[0]);
    if |a| == 1 || m <= |d| {
      CutInFirst(a, m, out);
    } else {
      ReadMore(a[0], Dotted(a[1..])[..m - |d| - 1], out);
      CutReadsOther(a[1..], m - |d| - 1, out + [a[0]]);
      OneOctetMore(out, a);
    }
  }

  /** The printed address, cut to `m` characters, is read back if and only if nothing was cut. */
  lemma CutRoundTripIff(a: seq<Byte>, m: nat)
    requires |a| == 4 && m <= |Dotted(a)|
    ensures Parse(Dotted(a)[..m]) == Some((a, FULL)) <==> m == |Dotted(a)|
  {
    assert Dotted(a)[..|Dotted(a)|] == Dotted(a);
    AddressRoundTrip(a);
    if m < |Dotted(a)| {
      CutReadsOther(a, m, []);
      assert [] + a == a;
      NoSlash(a);
      RestIsSuffix(Dotted(a)[..m], []);
      NotReadNotParsed(Dotted(a)[..m], a);
    }
  }

  lemma ShortDecimals(n: Byte)
    ensures |Decimal(n)| <= 3
  {
    assert |Decimal(n / 100)| == 1;
  }

  /**
   What is printed into a buffer of `size` bytes is read back as the same address, with a full mask, if
   and only if the buffer took it all with its terminator; 16 bytes always do.
   */
  lemma PrintedIsReadBackIff(a: seq<Byte>, size: nat)
    requires |a| == 4 && size > 0
    ensures Parse(Dotted(a)[..Min(|Dotted(a)|, size - 1)]) == Some((a, FULL)) <==> |Dotted(a)| < size
    ensures |Dotted(a)| < 16
  {
    CutRoundTripIff(a, Min(|Dotted(a)|, size - 1));
    hide Decimal, Parse;
    ShortDecimals(a[0]);
    ShortDecimals(a[1]);
    ShortDecimals(a[2]);
    ShortDecimals(a[3]);
    assert a[1..][1..] == a[2..] && a[2..][1..] == a[3..];
    assert |Dotted(a[2..])| <= 7;
    assert |Dotted(a[1..])| <= 11;
  }

  lemma NotReadNotParsed(s: string, a: seq<Byte>)
    requires |a| == 4 && ReadOctets(s, []) != Done(a, "")
    requires var r := ReadOctets(s, []); r.Done? ==> '/' !in r.rest && (r.rest == "" ==> |r.octets| == 4)
    ensures Parse(s) != Some((a, FULL))
  {
    hide ReadOctets, ReadMask;
    var r := ReadOctets(s, []);
    if r.Done? && r.rest == "" {
      assert r.octets + seq(4 - |r.octets|, _ => 0) == r.octets;
    }
  }

  lemma {:induction false} NoSlash(a: seq<Byte>)
    requires |a| > 0
    ensures '/' !in Dotted(a)
    decreases |a|
  {
    assert forall i :: 0 <= i < |Decimal(a[0])| ==> IsDigit(Decimal(a[0])[i]);
    if |a| > 1 {
      NoSlash(a[1..]);
    }
  }

  lemma {:induction false} RestIsSuffix(t: string, out: seq<Byte>)
    requires |out| <= 4 && '/' !in t
    ensures var r := ReadOctets(t, out); r.Done? ==> '/' !in r.rest
    decreases 4 - |out|
  {
    if |out| < 4 {
      var k := Lead(t);
      if 0 < k < |t| && Number(t[..k]) <= 255 && t[k] == '.' {
        assert t[k..][1..] == t[k + 1..];
        RestIsSuffix(t[k + 1..], out + [Number(t[..k])]);
      }
    }
  }

  // ----- which addresses are accepted -----

  ghost predicate IsOctet(d: string) {
    d != "" && AllDigits(d) && Number(d) <= 255
  }

  ghost predicate AreOctets(ds: seq<string>) {
    forall i :: 0 <= i < |ds| ==> IsOctet(ds[i])
  }

  /** The parts with dots between them, and one more dot behind them if `dot` says so. */
  ghost function Spelled(ds: seq<string>, dot: bool): string
    requires ds != []
  {
    ds[0] + (if |ds| > 1 then "." + Spelled(ds[1..], dot) else if dot then "." else "")
  }

  ghost function Numbers(ds: seq<string>): (a: seq<Byte>)
    requires AreOctets(ds)
    ensures |a| == |ds|
  {
    seq(|ds|, i requires 0 <= i < |ds| => Number(ds[i]))
  }

  lemma NumbersFirst(d: string, ds: seq<string>, out: seq<Byte>)
    requires IsOctet(d) && AreOctets(ds)
    ensures AreOctets([d] + ds) && out + Numbers([d] + ds) == (out + [Number(d)]) + Numbers(ds)
  {
    assert Numbers([d] + ds) == [Number(d)] + Numbers(ds);
  }

  /** Any spelling of octets is read. */
  lemma {:induction false} ReadSpelled(ds: seq<string>, dot: bool, out: seq<Byte>)
    requires ds != [] && |out| + |ds| == 4 && AreOctets(ds)
    ensures ReadOctets(Spelled(ds, dot), out) == Done(out + Numbers(ds), "")
    decreases |ds|
  {
    var d := ds[0];
    assert IsOctet(d) && ds == [d] + ds[1..] && AreOctets(ds[1..]);
    NumbersFirst(d, ds[1..], out);
    if |ds| > 1 {
      ReadMoreDigits(d, Spelled(ds[1..], dot), out);
      ReadSpelled(ds[1..], dot, out + [Number(d)]);
    } else {
      ReadLastDigits(d, dot, out);
    }
  }

  lemma ReadMoreDigits(d: string, more: string, out: seq<Byte>)
    requires |out| < 4 && IsOctet(d)
    ensures ReadOctets(d + ("." + more), out) == ReadOctets(more, out + [Number(d)])
  {
    hide ReadOctets, Number;
    ReadDigits(d, "." + more, out);
    assert ("." + more)[1..] == more;
  }

  lemma ReadLastDigits(d: string, dot: bool, out: seq<Byte>)
    requires |out| == 3 && IsOctet(d)
    ensures ReadOctets(d + (if dot then "." else ""), out) == Done(out + [Number(d)], "")
  {
    hide Number;
    ReadDigits(d, if dot then "." else "", out);
  }

  lemma ReadFull(t: string, out: seq<Byte>)
    requires |out| == 4
    ensures ReadOctets(t, out) == Done(out, t)
  {
  }

  /** The first part of what is read without a slash, and what comes behind its dot. */
  lemma FirstPart(t: string, out: seq<Byte>) returns (d: string, more: string, last: bool)
    requires |out| < 4 && '/' !in t
    requires ReadOctets(t, out).Done? && ReadOctets(t, out).rest == ""
    ensures IsOctet(d) && '/' !in more
    ensures last ==> |out| == 3 && t == d
    ensures !last ==> t == d + ("." + more) && ReadOctets(t, out) == ReadOctets(more, out + [Number(d)])
  {
    var k := Lead(t);
    d, last := t[..k], k == |t|;
    more := if last then "" else t[k + 1..];
    CutAt(t, k);
    ReadDigits(d, t[k..], out);
    hide ReadOctets, Lead, Number;
  }

  lemma CutAt(t: string, k: nat)
    requires k <= |t| && '/' !in t
    ensures t == t[..k] + t[k..] && (k == |t| ==> t[..k] == t && t[k..] == "")
    ensures k < |t| ==> t[k] != '/' && t[k..] == [t[k]] + t[k + 1..] && t[k..][1..] == t[k + 1..] && '/' !in t[k + 1..]
  {
    assert k < |t| ==> t[k] in t;
  }

  /** What is read without a slash is a spelling of octets. */
  lemma {:induction false} ReadIsSpelled(t: string, out: seq<Byte>) returns (ds: seq<string>, dot: bool)
    requires |out| < 4 && '/' !in t
    requires ReadOctets(t, out).Done? && ReadOctets(t, out).rest == ""
    ensures |ds| == 4 - |out| && AreOctets(ds) && t == Spelled(ds, dot)
    decreases 4 - |out|
  {
    var d, more, last := FirstPart(t, out);
    var n: Byte := Number(d);
    SpelledAlone(d);
    ds, dot := [d], !last;
    if !last && |out| == 3 {
      ReadFull(more, out + [n]);
    }
    hide ReadOctets, IsOctet, AreOctets, Spelled, Number;
    if !last && |out| < 3 {
      ds, dot := ReadIsSpelled(more, out + [n]);
      SpelledMore(d, ds, dot);
      ds := [d] + ds;
    }
  }

  lemma SpelledAlone(d: string)
    requires IsOctet(d)
    ensures AreOctets([d]) && Spelled([d], false) == d && Spelled([d], true) == d + "." == d + ("." + "")
  {
    assert d + "" == d && "." + "" == ".";
  }

  lemma SpelledMore(d: string, ds: seq<string>, dot: bool)
    requires IsOctet(d) && AreOctets(ds) && ds != []
    ensures AreOctets([d] + ds) && Spelled([d] + ds, dot) == d + ("." + Spelled(ds, dot))
  {
    assert ([d] + ds)[1..] == ds;
  }

  ghost predicate SpellsAddress(s: string, a: seq<Byte>) {
    exists ds: seq<string>, dot: bool :: |ds| == 4 && AreOctets(ds) && Numbers(ds) == a && Spelled(ds, dot) == s
  }

  /**
   A text without a slash is accepted if and only if it is four octets with dots between them, where
   one more dot may follow; it stands for just these octets, and the mask is full.
   */
  lemma AcceptedIffSpelled(s: string, a: seq<Byte>, mask: seq<Byte>)
    requires '/' !in s
    ensures Parse(s) == Some((a, mask)) <==> SpellsAddress(s, a) && mask == FULL
  {
    if SpellsAddress(s, a) {
      var ds: seq<string>, dot: bool :| |ds| == 4 && AreOctets(ds) && Numbers(ds) == a && Spelled(ds, dot) == s;
      ReadSpelled(ds, dot, []);
      assert [] + a == a;
      ParseAfter(s, a, "");
    }
    if Parse(s) == Some((a, mask)) {
      RestIsSuffix(s, []);
      ParsedIsRead(s, a, mask);
      var ds, dot := ReadIsSpelled(s, []);
      ReadSpelled(ds, dot, []);
      assert [] + Numbers(ds) == Numbers(ds);
    }
  }

  lemma ParsedIsRead(s: string, a: seq<Byte>, mask: seq<Byte>)
    requires Parse(s) == Some((a, mask))
    requires var r := ReadOctets(s, []); r.Done? ==> '/' !in r.rest
    ensures ReadOctets(s, []) == Done(a, "") && mask == FULL
  {
    hide ReadOctets, ReadMask;
    var r := ReadOctets(s, []);
    assert r.octets + seq(4 - |r.octets|, _ => 0) == r.octets;
  }
}
