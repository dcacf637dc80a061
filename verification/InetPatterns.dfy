/**
 Which texts `rascal_aton` accepts, in full: an address of one to four octets, and behind a slash the
 length of a mask or its octets.  What numbers, printed octets and masks of a length are, said once more
 by plain arithmetic.
 */
module InetPatterns {
  import opened Common
  import opened Bytes
  import opened InetText

  // ----- numbers -----

  lemma DigitsAre(c: char)
    ensures IsDigit(c) <==> c in {'0', '1', '2', '3', '4', '5', '6', '7', '8', '9'}
  {
  }

  /** The number that these digits spell, without any limit. */
  function Value(d: string): nat
    requires AllDigits(d)
  {
    if d == "" then 0 else Value(d[..|d| - 1]) * 10 + (d[|d| - 1] as int - '0' as int)
  }

  /** Digits are read modulo 2^32. */
  lemma {:induction false} NumberIs(d: string)
    requires AllDigits(d)
    ensures Number(d) == Value(d) % 0x1_0000_0000
  {
    if d != "" {
      NumberIs(d[..|d| - 1]);
      WrappedStep(Value(d[..|d| - 1]), d[|d| - 1] as int - '0' as int);
    }
  }

  lemma WrappedStep(v: nat, c: nat)
    ensures (v % 0x1_0000_0000 * 10 + c) % 0x1_0000_0000 == (v * 10 + c) % 0x1_0000_0000
  {
    var q := v / 0x1_0000_0000;
    assert v * 10 + c == (v % 0x1_0000_0000 * 10 + c) + 10 * q * 0x1_0000_0000;
    WrapsAway(v % 0x1_0000_0000 * 10 + c, 10 * q);
  }

  lemma {:induction false} WrapsAway(a: nat, q: nat)
    ensures (a + q * 0x1_0000_0000) % 0x1_0000_0000 == a % 0x1_0000_0000
    decreases q
  {
    if q > 0 {
      WrapsAway(a, q - 1);
    }
  }

  function DigitOf(n: nat): char
    requires n < 10
  {
    ['0', '1', '2', '3', '4', '5', '6', '7', '8', '9'][n]
  }

  /** An octet is printed in one to three digits, without zeros in front. */
  lemma DecimalIs(n: Byte)
    ensures Decimal(n) ==
      if n < 10 then [DigitOf(n)]
      else if n < 100 then [DigitOf(n / 10), DigitOf(n % 10)]
      else [DigitOf(n / 100), DigitOf(n / 10 % 10), DigitOf(n % 10)]
  {
    if n >= 100 {
      assert Decimal(n / 100) == [Digit(n / 100)];
    }
  }

  // ----- masks -----

  /** A power of two. */
  function Two(k: nat): nat {
    if k == 0 then 1 else 2 * Two(k - 1)
  }

  lemma TwoOctet(k: nat)
    ensures Two(k + 8) == 256 * Two(k)
  {
    TwoTwice(k);
    TwoTwice(k + 2);
    TwoTwice(k + 4);
    TwoTwice(k + 6);
    hide Two;
  }

  lemma TwoTwice(k: nat)
    ensures Two(k + 2) == 4 * Two(k)
  {
    assert Two(k + 1) == 2 * Two(k);
  }

  lemma OnesAre(m: nat)
    requires m <= 8
    ensures Ones(m) == 256 - Two(8 - m)
  {
    assert Two(3) == 8;
    assert Two(6) == 64;
  }

  /** As a number of 32 bits, the mask of length `n` is 2^32 less 2^(32 - n). */
  lemma PrefixMaskIs(n: nat)
    requires n <= 32
    ensures var m := PrefixMask(n);
      |m| == 4 && (((m[0] as int) * 256 + m[1] as int) * 256 + m[2] as int) * 256 + m[3] as int ==
        0x1_0000_0000 - Two(32 - n)
  {
    var q, r := n / 8, n % 8;
    OnesAre(r);
    var t := Two(8 - r);
    if q == 0 {
      TwoOctet(8 - r);
      TwoOctet(16 - r);
      TwoOctet(24 - r);
    } else if q == 1 {
      TwoOctet(8 - r);
      TwoOctet(16 - r);
    } else if q == 2 {
      TwoOctet(8 - r);
    } else if q == 4 {
      assert Two(0) == 1;
    }
    hide Two;
  }

  // ----- the address in front of a slash -----

  /** Octets with dots between them, and possibly one more dot behind the fourth, in front of `rest`. */
  lemma {:induction false} ReadInFront(ds: seq<string>, dot: bool, rest: string, out: seq<Byte>)
    requires ds != [] && |out| + |ds| <= 4 && AreOctets(ds) && (dot ==> |out| + |ds| == 4)
    requires rest != "" && rest[0] == '/'
    ensures ReadOctets(Spelled(ds, dot) + rest, out) == Done(out + Numbers(ds), rest)
    decreases |ds|
  {
    var d := ds[0];
    assert IsOctet(d) && ds == [d] + ds[1..] && AreOctets(ds[1..]);
    NumbersFirst(d, ds[1..], out);
    if |ds| > 1 {
      SpelledInFront(ds, dot, rest);
      hide ReadOctets, Spelled, IsOctet, AreOctets;
      ReadMoreDigits(d, Spelled(ds[1..], dot) + rest, out);
      ReadInFront(ds[1..], dot, rest, out + [Number(d)]);
    } else {
      LastInFront(d, dot, rest, out);
      assert Spelled(ds, dot) == d + (if dot then "." else "");
      hide ReadOctets, Spelled, IsOctet, AreOctets;
    }
  }

  lemma SpelledInFront(ds: seq<string>, dot: bool, rest: string)
    requires |ds| > 1
    ensures Spelled(ds, dot) + rest == ds[0] + ("." + (Spelled(ds[1..], dot) + rest))
  {
    Regroup(ds[0], ".", Spelled(ds[1..], dot), rest);
    assert ds[0] + ("." + Spelled(ds[1..], dot)) == ds[0] + "." + Spelled(ds[1..], dot);
  }

  lemma LastInFront(d: string, dot: bool, rest: string, out: seq<Byte>)
    requires |out| < 4 && IsOctet(d) && (dot ==> |out| == 3) && rest != "" && rest[0] == '/'
    ensures ReadOctets((d + (if dot then "." else "")) + rest, out) == Done(out + [Number(d)], rest)
  {
    if dot {
      assert (d + ".") + rest == d + ("." + rest);
      ReadMoreDigits(d, rest, out);
      ReadFull(rest, out + [Number(d)]);
    } else {
      assert (d + "") + rest == d + rest;
      ReadDigits(d, rest, out);
    }
    hide ReadOctets;
  }

  /** The digits in front, and what is made of them. */
  lemma CutDigits(t: string, out: seq<Byte>) returns (d: string, tail: string)
    requires |out| < 4
    ensures t == d + tail && AllDigits(d)
    ensures ReadOctets(t, out) ==
      if d == "" || Number(d) > 255 then Fail
      else if tail == "" then (if |out| == 3 then Done(out + [Number(d)], "") else Fail)
      else if tail[0] == '/' then Done(out + [Number(d)], tail)
      else if tail[0] != '.' then Fail
      else ReadOctets(tail[1..], out + [Number(d)])
    ensures tail != "" && tail[0] == '.' ==> tail == "." + tail[1..]
  {
    var k := Lead(t);
    d, tail := t[..k], t[k..];
    assert t == d + tail;
    ReadDigits(d, tail, out);
    hide ReadOctets, Number;
  }

  /** What is read up to a slash is such a spelling. */
  lemma {:induction false} InFrontIsSpelled(t: string, out: seq<Byte>) returns (ds: seq<string>, dot: bool)
    requires |out| < 4
    requires var r := ReadOctets(t, out); r.Done? && r.rest != "" && r.rest[0] == '/'
    ensures 1 <= |ds| <= 4 - |out| && AreOctets(ds) && (dot ==> |out| + |ds| == 4)
    ensures t == Spelled(ds, dot) + ReadOctets(t, out).rest
    ensures ReadOctets(t, out).octets == out + Numbers(ds)
    decreases 4 - |out|
  {
    hide ReadOctets, Lead, Number, Spelled;
    var r := ReadOctets(t, out);
    var d, tail := CutDigits(t, out);
    assert IsOctet(d);
    SpelledAlone(d);
    NumbersFirst(d, [], out);
    assert [d] + [] == [d] && (out + [Number(d)]) + Numbers([]) == out + [Number(d)];
    ds, dot := [d], false;
    hide AreOctets, IsOctet;
    if tail[0] != '/' {
      if |out| == 3 {
        ReadFull(tail[1..], out + [Number(d)]);
        dot := true;
        assert d + ("." + tail[1..]) == (d + ".") + tail[1..];
      } else {
        var more;
        more, dot := InFrontIsSpelled(tail[1..], out + [Number(d)]);
        NumbersFirst(d, more, out);
        SpelledMore(d, more, dot);
        ds := [d] + more;
        assert ds[1..] == more;
        SpelledInFront(ds, dot, r.rest);
      }
    }
  }

  // ----- the mask behind it -----

  /** The mask with these octets behind the first `count`. */
  function Replaced(mask: seq<Byte>, count: nat, m: seq<Byte>): seq<Byte>
    requires count + |m| <= |mask|
  {
    mask[..count] + m + mask[count + |m|..]
  }

  lemma ReplacedFirst(mask: seq<Byte>, count: nat, n: Byte, m: seq<Byte>)
    requires count + 1 + |m| <= |mask|
    ensures Replaced(mask, count, [n] + m) == Replaced(mask[count := n], count + 1, m)
    ensures Replaced(mask, count, [n]) == mask[count := n]
  {
  }

  lemma NumbersHead(d: string, ds: seq<string>)
    requires IsOctet(d) && AreOctets(ds)
    ensures AreOctets([d] + ds) && Numbers([d] + ds) == [Number(d)] + Numbers(ds)
  {
    NumbersFirst(d, ds, []);
    assert [] + Numbers([d] + ds) == Numbers([d] + ds) && ([] + [Number(d)]) == [Number(d)];
  }

  /** One octet of a mask, and what follows it. */
  lemma MaskDigits(d: string, rest: string, mask: seq<Byte>, count: nat)
    requires |mask| == 4 && count < 4 && AllDigits(d) && (rest == "" || !IsDigit(rest[0]))
    ensures ReadMaskOctets(d + rest, mask, count) ==
      if d == "" || Number(d) > 255 then None
      else if rest == "" then Some(mask[count := Number(d)])
      else if rest[0] != '.' then None
      else ReadMaskOctets(rest[1..], mask[count := Number(d)], count + 1)
  {
    LeadOf(d, rest);
    hide Lead, Number;
    assert rest != "" ==> (d + rest)[|d| + 1..] == rest[1..];
  }

  /** Octets of a mask; behind a fourth one and its dot anything may follow. */
  lemma {:induction false} MaskSpelled(ds: seq<string>, dot: bool, tail: string, mask: seq<Byte>, count: nat)
    requires ds != [] && count + |ds| <= 4 == |mask| && AreOctets(ds)
    requires if dot then count + |ds| == 4 else tail == ""
    ensures ReadMaskOctets(Spelled(ds, dot) + tail, mask, count) == Some(Replaced(mask, count, Numbers(ds)))
    decreases |ds|
  {
    var d, n := ds[0], Number(ds[0]);
    assert IsOctet(d) && ds == [d] + ds[1..] && AreOctets(ds[1..]);
    NumbersHead(d, ds[1..]);
    ReplacedFirst(mask, count, n, Numbers(ds[1..]));
    if |ds| > 1 {
      SpelledInFront(ds, dot, tail);
      hide ReadMaskOctets, Spelled, AreOctets, Replaced;
      MaskDigits(d, "." + (Spelled(ds[1..], dot) + tail), mask, count);
      assert ("." + (Spelled(ds[1..], dot) + tail))[1..] == Spelled(ds[1..], dot) + tail;
      MaskSpelled(ds[1..], dot, tail, mask[count := n], count + 1);
    } else {
      assert Numbers(ds[1..]) == [] && [n as Byte] + [] == [n];
      LastOfMask(d, dot, tail, mask, count);
      assert Spelled(ds, dot) == d + (if dot then "." else "");
    }
  }

  lemma LastOfMask(d: string, dot: bool, tail: string, mask: seq<Byte>, count: nat)
    requires count < 4 == |mask| && IsOctet(d) && if dot then count == 3 else tail == ""
    ensures ReadMaskOctets((d + (if dot then "." else "")) + tail, mask, count) == Some(mask[count := Number(d)])
  {
    if dot {
      assert (d + ".") + tail == d + ("." + tail);
      MaskDigits(d, "." + tail, mask, count);
      assert ("." + tail)[1..] == tail;
    } else {
      assert (d + "") + tail == d;
      assert d + "" == d;
      MaskDigits(d, "", mask, count);
    }
  }

  /** The digits in front of the rest of a mask. */
  lemma CutMask(t: string, mask: seq<Byte>, count: nat) returns (d: string, rest: string)
    requires count < 4 == |mask| && ReadMaskOctets(t, mask, count).Some?
    ensures t == d + rest && IsOctet(d) && (rest != "" ==> rest == "." + rest[1..])
    ensures ReadMaskOctets(t, mask, count) ==
      if rest == "" then Some(mask[count := Number(d)])
      else ReadMaskOctets(rest[1..], mask[count := Number(d)], count + 1)
  {
    var k := Lead(t);
    d, rest := t[..k], t[k..];
    assert t == d + rest;
    MaskDigits(d, rest, mask, count);
    hide ReadMaskOctets, Number;
  }

  lemma {:induction false} MaskIsSpelled(t: string, mask: seq<Byte>, count: nat)
    returns (ds: seq<string>, dot: bool, tail: string)
    requires count < 4 == |mask| && ReadMaskOctets(t, mask, count).Some?
    ensures 1 <= |ds| <= 4 - count && AreOctets(ds) && t == Spelled(ds, dot) + tail
    ensures if dot then count + |ds| == 4 else tail == ""
    ensures ReadMaskOctets(t, mask, count) == Some(Replaced(mask, count, Numbers(ds)))
    decreases 4 - count
  {
    hide ReadMaskOctets, Lead, Number, Spelled, Replaced;
    var d, rest := CutMask(t, mask, count);
    SpelledAlone(d);
    var n: Byte := Number(d);
    if rest != "" && count < 3 {
      hide AreOctets, IsOctet;
      var more;
      more, dot, tail := MaskIsSpelled(rest[1..], mask[count := n], count + 1);
      ds := MaskMore(t, d, rest, more, dot, tail);
      ReplacedFirst(mask, count, n, Numbers(more));
    } else {
      ds, dot, tail := [d], rest != "", if rest == "" then "" else rest[1..];
      MaskLast(t, d, rest, mask, count);
    }
  }

  lemma MaskMore(t: string, d: string, rest: string, more: seq<string>, dot: bool, tail: string)
    returns (ds: seq<string>)
    requires IsOctet(d) && more != [] && AreOctets(more)
    requires t == d + rest && rest != "" && rest == "." + rest[1..] && rest[1..] == Spelled(more, dot) + tail
    ensures ds == [d] + more && AreOctets(ds) && Numbers(ds) == [Number(d)] + Numbers(more)
    ensures t == Spelled(ds, dot) + tail
  {
    ds := [d] + more;
    NumbersHead(d, more);
    SpelledMore(d, more, dot);
    assert ds[1..] == more;
    SpelledInFront(ds, dot, tail);
  }

  lemma MaskLast(t: string, d: string, rest: string, mask: seq<Byte>, count: nat)
    requires count < 4 == |mask| && t == d + rest && IsOctet(d)
    requires rest != "" ==> count == 3 && rest == "." + rest[1..]
    ensures AreOctets([d]) && t == Spelled([d], rest != "") + (if rest == "" then "" else rest[1..])
    ensures Some(mask[count := Number(d)]) == Some(Replaced(mask, count, Numbers([d])))
    ensures rest != "" ==>
      ReadMaskOctets(rest[1..], mask[count := Number(d)], count + 1) == Some(mask[count := Number(d)])
  {
    SpelledAlone(d);
    var n: Byte := Number(d);
    NumbersHead(d, []);
    assert [d] + [] == [d] && [n] + [] == [n] && Numbers([]) == [];
    ReplacedFirst(mask, count, n, []);
    if rest == "" {
      assert t == d && d + "" == d;
    } else {
      assert d + ("." + rest[1..]) == (d + ".") + rest[1..];
    }
  }

  // ----- the whole pattern -----

  /** Behind the slash: without a dot a length, and anything that is no digit; with a dot the octets of the mask. */
  ghost predicate SpellsMask(r: string, mask: seq<Byte>) {
    if '.' !in r then
      exists d: string, junk: string ::
        && d != "" && AllDigits(d) && (junk == "" || !IsDigit(junk[0])) && r == d + junk
        && Number(d) <= 32 && mask == PrefixMask(Number(d))
    else
      exists ds: seq<string>, dot: bool, tail: string ::
        && 1 <= |ds| <= 4 && AreOctets(ds) && r == Spelled(ds, dot) + tail
        && (if dot then |ds| == 4 else tail == "")
        && mask == Numbers(ds) + [255, 255, 255, 255][|ds|..]
  }

  lemma MaskReadIff(r: string, mask: seq<Byte>)
    ensures ReadMask(r) == Some(mask) <==> SpellsMask(r, mask)
  {
    if '.' !in r {
      LengthReadIff(r, mask);
    } else {
      OctetsReadIff(r, mask);
    }
  }

  lemma LengthReadIff(r: string, mask: seq<Byte>)
    requires '.' !in r
    ensures ReadMask(r) == Some(mask) <==> SpellsMask(r, mask)
  {
    var k := Lead(r);
    var d, junk := r[..k], r[k..];
    assert r == d + junk;
    if ReadMask(r) == Some(mask) {
      assert AllDigits(d);
    }
    if SpellsMask(r, mask) {
      var d': string, junk': string :|
        && d' != "" && AllDigits(d') && (junk' == "" || !IsDigit(junk'[0])) && r == d' + junk'
        && Number(d') <= 32 && mask == PrefixMask(Number(d'));
      LeadOf(d', junk');
    }
    hide PrefixMask, Number;
  }

  lemma FullReplaced(m: seq<Byte>)
    requires |m| <= 4
    ensures Replaced(FULL, 0, m) == m + [255, 255, 255, 255][|m|..]
  {
  }

  lemma OctetsReadIff(r: string, mask: seq<Byte>)
    requires '.' in r
    ensures ReadMask(r) == Some(mask) <==> SpellsMask(r, mask)
  {
    hide ReadMaskOctets, Spelled, Number, Replaced;
    if ReadMask(r) == Some(mask) {
      var ds, dot, tail := MaskIsSpelled(r, FULL, 0);
      FullReplaced(Numbers(ds));
    }
    if SpellsMask(r, mask) {
      var ds: seq<string>, dot: bool, tail: string :|
        && 1 <= |ds| <= 4 && AreOctets(ds) && r == Spelled(ds, dot) + tail
        && (if dot then |ds| == 4 else tail == "")
        && mask == Numbers(ds) + [255, 255, 255, 255][|ds|..];
      MaskSpelled(ds, dot, tail, FULL, 0);
      FullReplaced(Numbers(ds));
    }
  }

  /** The address that these octets give: those not given are 0. */
  function Padded(octets: seq<Byte>): seq<Byte>
    requires |octets| <= 4
  {
    octets + [0, 0, 0, 0][|octets|..]
  }

  /** The octets of an address, possibly one more dot behind four of them, a slash and the text of a mask. */
  ghost predicate IsRange(s: string, a: seq<Byte>, mask: seq<Byte>, ds: seq<string>, dot: bool, r: string) {
    && 1 <= |ds| <= 4 && AreOctets(ds) && (dot ==> |ds| == 4)
    && s == Spelled(ds, dot) + ("/" + r) && a == Padded(Numbers(ds)) && SpellsMask(r, mask)
  }

  /** An address of one to four octets, a slash and a mask. */
  ghost predicate SpellsRange(s: string, a: seq<Byte>, mask: seq<Byte>) {
    exists ds: seq<string>, dot: bool, r: string :: IsRange(s, a, mask, ds, dot, r)
  }

  lemma PaddedIs(octets: seq<Byte>)
    requires |octets| <= 4
    ensures octets + seq(4 - |octets|, _ => 0) == Padded(octets)
  {
  }

  /** What is made of octets in front of a slash. */
  lemma ParseInFront(s: string, octets: seq<Byte>, rest: string, a: seq<Byte>, mask: seq<Byte>)
    requires ReadOctets(s, []) == Done(octets, rest) && |octets| <= 4 && rest != "" && rest[0] == '/'
    ensures Parse(s) == Some((a, mask)) <==> a == Padded(octets) && SpellsMask(rest[1..], mask)
  {
    hide ReadOctets, ReadMask, SpellsMask;
    PaddedIs(octets);
    MaskReadIff(rest[1..], mask);
    hide Padded;
  }

  lemma {:induction false} SpelledHasNoSlash(ds: seq<string>, dot: bool)
    requires ds != [] && AreOctets(ds)
    ensures '/' !in Spelled(ds, dot)
  {
    assert IsOctet(ds[0]);
    assert forall i :: 0 <= i < |ds[0]| ==> IsDigit(ds[0][i]);
    if |ds| > 1 {
      assert AreOctets(ds[1..]);
      SpelledHasNoSlash(ds[1..], dot);
    }
  }

  lemma RangeIsParsed(s: string, a: seq<Byte>, mask: seq<Byte>)
    requires SpellsRange(s, a, mask)
    ensures Parse(s) == Some((a, mask))
  {
    var ds: seq<string>, dot: bool, r: string :| IsRange(s, a, mask, ds, dot, r);
    hide Spelled, AreOctets, SpellsMask, Padded;
    ReadInFront(ds, dot, "/" + r, []);
    assert [] + Numbers(ds) == Numbers(ds) && ("/" + r)[1..] == r;
    ParseInFront(s, Numbers(ds), "/" + r, a, mask);
  }

  lemma ParsedIsRange(s: string, a: seq<Byte>, mask: seq<Byte>)
    requires Parse(s) == Some((a, mask)) && '/' in s
    ensures SpellsRange(s, a, mask)
  {
    hide ReadOctets, Parse, Spelled, AreOctets, SpellsMask, Padded, SpellsRange;
    SlashIsLeft(s, a, mask);
    var r := ReadOctets(s, []);
    ParseInFront(s, r.octets, r.rest, a, mask);
    var ds, dot := InFrontIsSpelled(s, []);
    assert [] + Numbers(ds) == Numbers(ds);
    assert r.rest == "/" + r.rest[1..];
    assert IsRange(s, a, mask, ds, dot, r.rest[1..]);
    RangeIsSpelled(s, a, mask, ds, dot, r.rest[1..]);
  }

  lemma RangeIsSpelled(s: string, a: seq<Byte>, mask: seq<Byte>, ds: seq<string>, dot: bool, r: string)
    requires IsRange(s, a, mask, ds, dot, r)
    ensures SpellsRange(s, a, mask)
  {
  }

  lemma SlashIsLeft(s: string, a: seq<Byte>, mask: seq<Byte>)
    requires Parse(s) == Some((a, mask)) && '/' in s
    ensures var r := ReadOctets(s, []); r.Done? && r.rest != "" && r.rest[0] == '/'
  {
    hide ReadOctets, ReadMask;
    var r := ReadOctets(s, []);
    if r.Done? && r.rest == "" {
      EndsWithoutSlash(s, []);
    }
  }

  /** A text that is read to its end has no slash. */
  lemma {:induction false} EndsWithoutSlash(t: string, out: seq<Byte>)
    requires |out| <= 4 && (|out| == 4 ==> t == "")
    requires ReadOctets(t, out).Done? && ReadOctets(t, out).rest == ""
    ensures '/' !in t
    decreases 4 - |out|
  {
    hide ReadOctets, Number, Lead;
    if |out| < 4 {
      var d, tail := CutDigits(t, out);
      assert forall i :: 0 <= i < |d| ==> IsDigit(d[i]);
      if tail != "" {
        if |out| == 3 { ReadFull(tail[1..], out + [Number(d)]); }
        EndsWithoutSlash(tail[1..], out + [Number(d)]);
      }
    }
  }

  /**
   The texts that are accepted, and what they stand for: without a slash four octets and possibly one
   more dot, with a full mask; with a slash one to four octets, and behind it a mask.
   */
  lemma AcceptedIff(s: string, a: seq<Byte>, mask: seq<Byte>)
    ensures Parse(s) == Some((a, mask)) <==>
      if '/' in s then SpellsRange(s, a, mask) else SpellsAddress(s, a) && mask == [255, 255, 255, 255]
  {
    if '/' !in s {
      AcceptedIffSpelled(s, a, mask);
    } else {
      if SpellsRange(s, a, mask) { RangeIsParsed(s, a, mask); }
      if Parse(s) == Some((a, mask)) { ParsedIsRange(s, a, mask); }
    }
    hide Parse, SpellsRange, SpellsAddress;
  }

  /** A length above 32 is refused, however it is spelled. */
  lemma LongMaskIsRefused(ds: seq<string>, d: string)
    requires 1 <= |ds| <= 4 && AreOctets(ds) && d != "" && AllDigits(d) && Number(d) > 32
    ensures Parse(Spelled(ds, false) + ("/" + d)) == None
  {
    hide Spelled, AreOctets, Number;
    ReadInFront(ds, false, "/" + d, []);
    assert ("/" + d)[1..] == d && d + "" == d;
    LeadOf(d, "");
    hide ReadOctets;
    assert '.' !in d by {
      assert forall i :: 0 <= i < |d| ==> IsDigit(d[i]);
    }
  }
}
