/**
 `rascal_aton` and `rascal_ntoa` as they work in place: a moving pointer, octets stored one by one,
 mask bits set one by one, and a buffer that may be too small.
 */
module InetCode {
  import opened Common
  import opened Bytes
  import opened InetText

  lemma LeadIs(t: string, k: nat)
    requires k <= |t| && (forall i :: 0 <= i < k ==> IsDigit(t[i])) && (k < |t| ==> !IsDigit(t[k]))
    ensures Lead(t) == k
  {
    var m := Lead(t);
    assert m < |t| ==> !IsDigit(t[m]);
    assert k < |t| ==> !IsDigit(t[k]);
  }

  /** `getseg`: reads digits into a 32-bit number. */
  method GetSeg(s: string, src: nat) returns (ok: bool, end: nat, seg: nat)
    requires src <= |s|
    ensures end == src + Lead(s[src..]) && seg == Number(s[src..][..end - src])
    ensures ok <==> end > src
  {
    ghost var t := s[src..];
    end, seg := src, 0;
    while end < |s| && '0' <= s[end] <= '9'
      invariant src <= end <= |s|
      invariant forall i :: 0 <= i < end - src ==> IsDigit(t[i])
      invariant seg == Number(t[..end - src])
    {
      assert t[..end - src + 1][..end - src] == t[..end - src];
      seg := (seg * 10 + (s[end] as int - '0' as int)) % 0x1_0000_0000;
      end := end + 1;
    }
    LeadIs(t, end - src);
    ok := end != src;
  }

  /** One octet, no larger than `limit`. */
  method GetOctet(s: string, ptn: nat, limit: nat) returns (ok: bool, end: nat, seg: nat)
    requires ptn <= |s|
    ensures end == ptn + Lead(s[ptn..]) && seg == Number(s[ptn..][..end - ptn])
    ensures ok <==> end > ptn && seg <= limit
  {
    ok, end, seg := GetSeg(s, ptn);
    ok := ok && seg <= limit;
  }

  /** What `ReadOctets` makes of an octet and the character behind it. */
  lemma OctetStep(s: string, ptn: nat, out: seq<Byte>, end: nat, seg: nat)
    requires ptn <= |s| && |out| < 4 && end == ptn + Lead(s[ptn..]) && seg == Number(s[ptn..][..end - ptn])
    ensures ReadOctets(s[ptn..], out) ==
      if end == ptn || seg > 255 then Fail
      else if end == |s| then (if |out| == 3 then Done(out + [seg], "") else Fail)
      else if s[end] == '/' then Done(out + [seg], s[end..])
      else if s[end] != '.' then Fail
      else ReadOctets(s[end + 1..], out + [seg])
  {
    var t := s[ptn..];
    var d, rest := t[..end - ptn], t[end - ptn..];
    assert t == d + rest && rest == s[end..];
    assert rest != "" ==> rest[1..] == s[end + 1..];
    ReadDigits(d, rest, out);
    hide ReadOctets, Number, Lead;
  }

  /** The loop over the octets of the address; the octets not given are 0, the mask is full. */
  method GetAddress(s: string, addr: array<Byte>, mask: array<Byte>) returns (ok: bool, ptn: nat, ghost count: nat)
    requires addr.Length >= 4 && mask.Length >= 4 && addr != mask
    modifies addr, mask
    ensures mask[..4] == FULL
    ensures ok <==> ReadOctets(s, []).Done?
    ensures ok ==>
      && ptn <= |s| && count <= 4 && ReadOctets(s, []) == Done(addr[..count], s[ptn..])
      && forall i :: count <= i < 4 ==> addr[i] == 0
  {
    hide ReadOctets, Lead, Number;
    addr[0], addr[1], addr[2], addr[3] := 0, 0, 0, 0;
    mask[0], mask[1], mask[2], mask[3] := 255, 255, 255, 255;
    ptn, count := 0, 0;
    var n := 0;
    assert s[0..] == s && addr[..0] == [];
    while n < 4
      invariant 0 <= n <= 4 && n == count && ptn <= |s| && mask[..4] == FULL
      invariant ReadOctets(s[ptn..], addr[..n]) == ReadOctets(s, [])
      invariant forall i :: n <= i < 4 ==> addr[i] == 0
    {
      var end, seg;
      ghost var out := addr[..n];
      ok, end, seg := GetOctet(s, ptn, 255);
      OctetStep(s, ptn, out, end, seg);
      if !ok {
        return;
      }
      addr[n], mask[n] := seg, 255;
      n, count := n + 1, n + 1;
      assert addr[..n] == out + [seg];
      ptn := end;
      if ptn == |s| {
        return n == 4, ptn, n;
      } else if s[ptn] == '/' {
        return true, ptn, n;
      } else if s[ptn] != '.' {
        return false, ptn, n;
      }
      ptn := ptn + 1;
    }
    ReadFull(s[ptn..], addr[..4]);
    ok := true;
  }

  /** `|=` on an octet of the mask. */
  method SetBit(mask: array<Byte>, count: nat)
    requires mask.Length >= 4 && count < 32 && mask[..4] == PrefixMask(count)
    modifies mask
    ensures mask[..4] == PrefixMask(count + 1)
  {
    NextMask(count);
    ghost var before := mask[..4];
    mask[count / 8] := WithBit(mask[count / 8], count % 8);
    assert mask[..4] == before[count / 8 := WithBit(before[count / 8], count % 8)];
  }

  /** A mask of this many bits. */
  method SetLength(mask: array<Byte>, length: nat)
    requires mask.Length >= 4 && length <= 32
    modifies mask
    ensures mask[..4] == PrefixMask(length)
  {
    mask[0], mask[1], mask[2], mask[3] := 0, 0, 0, 0;
    var count := 0;
    while count < length
      invariant 0 <= count <= length && mask[..4] == PrefixMask(count)
    {
      SetBit(mask, count);
      count := count + 1;
    }
  }

  /** What `ReadMaskOctets` makes of an octet and the character behind it. */
  lemma MaskStep(s: string, src: nat, mask: seq<Byte>, count: nat, end: nat, seg: nat)
    requires src <= |s| && |mask| == 4 && count < 4 && end == src + Lead(s[src..])
      && seg == Number(s[src..][..end - src])
    ensures ReadMaskOctets(s[src..], mask, count) ==
      if end == src || seg > 255 then None
      else if end == |s| then Some(mask[count := seg])
      else if s[end] != '.' then None
      else ReadMaskOctets(s[end + 1..], mask[count := seg], count + 1)
  {
    hide Number, Lead;
    if end < |s| {
      assert s[src..][end - src + 1..] == s[end + 1..];
    }
  }

  /** A mask given octet by octet. */
  method GetMaskOctets(s: string, ptn: nat, mask: array<Byte>) returns (ok: bool)
    requires ptn <= |s| && mask.Length >= 4 && mask[..4] == FULL
    modifies mask
    ensures ok <==> ReadMaskOctets(s[ptn..], FULL, 0).Some?
    ensures ok ==> ReadMaskOctets(s[ptn..], FULL, 0) == Some(mask[..4])
  {
    hide ReadMaskOctets, Lead, Number;
    var src, count := ptn, 0;
    while count < 4
      invariant 0 <= count <= 4 && ptn <= src <= |s|
      invariant ReadMaskOctets(s[src..], mask[..4], count) == ReadMaskOctets(s[ptn..], FULL, 0)
    {
      var end, seg;
      ghost var before := mask[..4];
      ok, end, seg := GetOctet(s, src, 255);
      MaskStep(s, src, before, count, end, seg);
      if !ok {
        return;
      }
      mask[count] := seg;
      assert mask[..4] == before[count := seg];
      if end == |s| {
        return true;
      } else if s[end] != '.' {
        return false;
      }
      src, count := end + 1, count + 1;
    }
    FourMaskOctets(s[src..], mask[..4]);
    ok := true;
  }

  lemma FourMaskOctets(t: string, mask: seq<Byte>)
    requires |mask| == 4
    ensures ReadMaskOctets(t, mask, 4) == Some(mask)
  {
  }

  /** The mask behind the slash at `ptn - 1`. */
  method GetMask(s: string, ptn: nat, mask: array<Byte>) returns (ok: bool)
    requires ptn <= |s| && mask.Length >= 4 && mask[..4] == FULL
    modifies mask
    ensures ok <==> ReadMask(s[ptn..]).Some?
    ensures ok ==> ReadMask(s[ptn..]) == Some(mask[..4])
  {
    hide ReadMaskOctets, Lead, Number, PrefixMask;
    if '.' !in s[ptn..] {
      var end, seg;
      ok, end, seg := GetOctet(s, ptn, 32);
      if ok {
        SetLength(mask, seg);
      }
    } else {
      ok := GetMaskOctets(s, ptn, mask);
    }
  }

  /** `inaddr_parse_v4`; `s` is the text up to its terminator. */
  method ParseV4(s: string, addr: array<Byte>, mask: array<Byte>) returns (ok: bool)
    requires addr.Length >= 4 && mask.Length >= 4 && addr != mask
    modifies addr, mask
    ensures ok <==> Parse(s).Some?
    ensures ok ==> Parse(s) == Some((addr[..4], mask[..4]))
  {
    hide ReadOctets, ReadMask;
    var ptn;
    ghost var count;
    ok, ptn, count := GetAddress(s, addr, mask);
    if !ok {
      return;
    }
    assert addr[..4] == addr[..count] + seq(4 - count, _ => 0);
    if ptn == |s| {
      return;
    }
    if s[ptn] != '/' {
      return false;
    }
    assert s[ptn..][1..] == s[ptn + 1..];
    ok := GetMask(s, ptn + 1, mask);
  }

  /** `rascal_aton`: the lengths tell whether the text was understood. */
  method Aton(s: string, addr: array<Byte>, mask: array<Byte>) returns (ok: bool, addrLength: nat, maskLength: nat)
    requires addr.Length >= 4 && mask.Length >= 4 && addr != mask
    modifies addr, mask
    ensures ok <==> Parse(s).Some?
    ensures addrLength == maskLength == (if ok then 4 else 0)
    ensures ok ==> Parse(s) == Some((addr[..addrLength], mask[..maskLength]))
  {
    ok := ParseV4(s, addr, mask);
    addrLength, maskLength := if ok then 4 else 0, if ok then 4 else 0;
  }

  // ----- printing -----

  /** Copies characters until they or the room end. */
  method PutText(dst: array<char>, at: nat, size: nat, seg: string) returns (at': nat)
    requires at <= size <= dst.Length
    modifies dst
    ensures at' == Min(at + |seg|, size)
    ensures dst[..at'] == old(dst[..at]) + seg[..at' - at]
    ensures forall k :: size <= k < dst.Length ==> dst[k] == old(dst[k])
  {
    at' := at;
    var i := 0;
    while i != |seg| && at' != size
      invariant 0 <= i <= |seg| && at' == at + i <= size
      invariant dst[..at'] == old(dst[..at]) + seg[..i]
      invariant forall k :: size <= k < dst.Length ==> dst[k] == old(dst[k])
      decreases |seg| - i
    {
      dst[at'] := seg[i];
      at', i := at' + 1, i + 1;
    }
  }

  /** What is still to be printed from octet `i` on. */
  ghost function ToCome(a: seq<Byte>, i: nat): string
    requires i <= |a|
  {
    if i == |a| then "" else Dotted(a[i..])
  }

  lemma NextToCome(a: seq<Byte>, i: nat)
    requires i < |a|
    ensures ToCome(a, i) == Decimal(a[i]) + (if i + 1 == |a| then "" else "." + ToCome(a, i + 1))
  {
    assert a[i..][0] == a[i];
    if i + 1 < |a| {
      assert a[i..][1..] == a[i + 1..];
      DottedFirst(a[i..], "");
      assert Dotted(a[i..]) + "" == Dotted(a[i..]) && Dotted(a[i + 1..]) + "" == Dotted(a[i + 1..]);
    } else {
      assert Decimal(a[i]) + "" == Decimal(a[i]);
    }
  }

  /** The text goes on behind `at` with `seg` and then `more`. */
  lemma CopiedMore(text: string, at: nat, seg: string, more: string, n: nat)
    requires at <= |text| && text[at..] == seg + more && n <= |seg|
    ensures at + n <= |text| && text[..at + n] == text[..at] + seg[..n]
    ensures n == |seg| ==> text[at + n..] == more
  {
    assert text == text[..at] + (seg + more);
  }

  /** One octet of the output, and the dot unless it is the last. */
  method PutOctet(seg: string, last: bool, dst: array<char>, at: nat, size: nat, ghost text: string,
      ghost later: string)
    returns (at': nat)
    requires at < size <= dst.Length && at <= |text| && dst[..at] == text[..at]
    requires text[at..] == seg + (if last then later else "." + later)
    modifies dst
    ensures at' <= size && at' <= |text| && dst[..at'] == text[..at']
    ensures forall k :: size <= k < dst.Length ==> dst[k] == old(dst[k])
    ensures at' < size ==> text[at'..] == later
  {
    at' := PutText(dst, at, size, seg);
    CopiedMore(text, at, seg, if last then later else "." + later, at' - at);
    if !last && at' != size {
      PutDot(dst, at', text, later);
      at' := at' + 1;
    }
  }

  method PutDot(dst: array<char>, at: nat, ghost text: string, ghost later: string)
    requires at < dst.Length && at <= |text| && dst[..at] == text[..at] && text[at..] == "." + later
    modifies dst
    ensures at < |text| && dst[..at + 1] == text[..at + 1] && text[at + 1..] == later
      && forall k :: at < k < dst.Length ==> dst[k] == old(dst[k])
  {
    CopiedMore(text, at, ".", later, 1);
    dst[at] := '.';
  }

  /**
   `rascal_ntoa`: the buffer gets the printed address as far as it goes, always terminated within
   `size`.
   */
  method Ntoa(a: seq<Byte>, dst: array<char>, size: nat) returns (ghost length: nat)
    requires |a| == 4 && 0 < size <= dst.Length
    modifies dst
    ensures length == Min(|Dotted(a)|, size - 1)
    ensures dst[..length] == Dotted(a)[..length] && dst[length] == '\0'
    ensures forall k :: size <= k < dst.Length ==> dst[k] == old(dst[k])
  {
    var src: nat, at: nat := 0, 0;
    assert a[0..] == a && ToCome(a, 4) == "" && ToCome(a, 0) == Dotted(a);
    hide Dotted, Decimal, ToCome;
    while src != 4 && at != size
      invariant 0 <= src <= 4 && at <= size && at <= |Dotted(a)|
      invariant dst[..at] == Dotted(a)[..at] && (forall k :: size <= k < dst.Length ==> dst[k] == old(dst[k]))
      invariant at < size ==> Dotted(a)[at..] == ToCome(a, src)
      decreases 4 - src
    {
      NextToCome(a, src);
      at := PutOctet(Decimal(a[src]), src == 3, dst, at, size, Dotted(a), ToCome(a, src + 1));
      src := src + 1;
    }
    if at == size {
      at := at - 1;
    }
    length := at;
    dst[at] := '\0';
  }
}
