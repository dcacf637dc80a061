/** What reading a line means on a plain sequence of bytes. */
module Lines {
  import opened Common
  import opened Bytes

  const LF: Byte := 10
  const CR: Byte := 13

  /** The position of the first line feed, or the length. */
  function FindLF(s: seq<Byte>): (n: nat)
    ensures n <= |s|
    ensures forall i :: 0 <= i < n ==> s[i] != LF
    ensures n < |s| ==> s[n] == LF
  {
    if s == [] || s[0] == LF then 0 else 1 + FindLF(s[1..])
  }

  /** The first line with its line feed; everything when there is none. */
  function LineLength(s: seq<Byte>): (n: nat)
    ensures n <= |s|
  {
    if FindLF(s) == |s| then |s| else FindLF(s) + 1
  }

  predicate IsEol(b: Byte) {
    b == CR || b == LF
  }

  /** Without the carriage returns and line feeds at the end. */
  function TrimEnd(s: seq<Byte>): (t: seq<Byte>)
    ensures t <= s
    ensures t != [] ==> !IsEol(t[|t| - 1])
    ensures forall i :: |t| <= i < |s| ==> IsEol(s[i])
  {
    if s != [] && IsEol(s[|s| - 1]) then TrimEnd(s[..|s| - 1]) else s
  }

  /**
   What a buffer of `size` bytes receives of a line: cut, trimmed, and shortened by one when the
   terminator would not fit.
   */
  function Received(line: seq<Byte>, size: nat, untrimmed: bool): (t: seq<Byte>)
    ensures t <= line && |t| <= size && (size > 0 ==> |t| < size)
  {
    var copied := line[..Min(size, |line|)];
    var kept := if untrimmed then copied else TrimEnd(copied);
    if |kept| == size && kept != [] then kept[..|kept| - 1] else kept
  }

  /**
   `text` is what a caller with `size` bytes gets of a line, terminator included.  Untrimmed: the line as
   far as it fits.  Trimmed: the longest piece of its first `size` bytes that does not end in a carriage
   return or line feed, and one byte less when that is all of them.
   */
  ghost predicate HandedOut(line: seq<Byte>, size: nat, untrimmed: bool, text: seq<Byte>) {
    var m := Min(|line|, size);
    var full := 0 < size == m && (untrimmed || line[size - 1] !in {10, 13});
    && text <= line
    && (full ==> |text| == size - 1)
    && (!full && untrimmed ==> |text| == m)
    && (!full && !untrimmed ==>
      && |text| <= m && (text != [] ==> text[|text| - 1] !in {10, 13})
      && forall i :: |text| <= i < m ==> line[i] in {10, 13})
  }

  lemma ReceivedIsHandedOut(line: seq<Byte>, size: nat, untrimmed: bool)
    ensures HandedOut(line, size, untrimmed, Received(line, size, untrimmed))
  {
    var copied := line[..Min(size, |line|)];
    if untrimmed || (copied != [] && !IsEol(copied[|copied| - 1])) {
      assert untrimmed || TrimEnd(copied) == copied;
    }
  }

  /** There is only one such piece. */
  lemma HandedOutIsUnique(line: seq<Byte>, size: nat, untrimmed: bool, s: seq<Byte>, t: seq<Byte>)
    requires HandedOut(line, size, untrimmed, s) && HandedOut(line, size, untrimmed, t)
    ensures s == t
  {
  }

  /** A stream as its complete lines and the unfinished rest. */
  function SplitLines(s: seq<Byte>): (r: (seq<seq<Byte>>, seq<Byte>))
    decreases |s|
  {
    if LF !in s then ([], s)
    else
      var n := LineLength(s);
      var (lines, rest) := SplitLines(s[n..]);
      ([s[..n]] + lines, rest)
  }

  ghost predicate IsLine(s: seq<Byte>) {
    s != [] && s[|s| - 1] == 10 && forall i :: 0 <= i < |s| - 1 ==> s[i] != 10
  }

  lemma {:induction false} FindLFIs(s: seq<Byte>, n: nat)
    requires n <= |s|
    requires forall i :: 0 <= i < n ==> s[i] != LF
    requires n < |s| ==> s[n] == LF
    ensures FindLF(s) == n
  {
  }

  lemma LineIsLine(s: seq<Byte>)
    requires LF in s
    ensures IsLine(s[..LineLength(s)])
    ensures FindLF(s) < |s|
  {
    var f := FindLF(s);
    assert f < |s|;
    assert s[..f + 1][..f] == s[..f];
  }

  /** One round of cutting. */
  lemma SplitFirst(s: seq<Byte>, l: seq<Byte>, more: seq<Byte>)
    requires s == l + more && IsLine(l)
    ensures SplitLines(s) == ([l] + SplitLines(more).0, SplitLines(more).1)
  {
    assert s[|l| - 1] == LF;
    assert forall i :: 0 <= i < |l| - 1 ==> s[i] == l[..|l| - 1][i];
    FindLFIs(s, |l| - 1);
    assert s[..|l|] == l && s[|l|..] == more;
  }

  /** The lines and the rest are the stream, cut exactly behind every line feed. */
  lemma {:induction false} SplitLinesIsStream(s: seq<Byte>)
    ensures Concat(SplitLines(s).0) + SplitLines(s).1 == s
    decreases |s|
  {
    if LF in s {
      LineIsLine(s);
      var l, more := s[..LineLength(s)], s[LineLength(s)..];
      assert s == l + more;
      SplitFirst(s, l, more);
      SplitLinesIsStream(more);
      Assoc(l, Concat(SplitLines(more).0), SplitLines(more).1);
      assert ([l] + SplitLines(more).0)[1..] == SplitLines(more).0;
    }
  }

  lemma {:induction false} SplitLinesAreLines(s: seq<Byte>)
    ensures forall i :: 0 <= i < |SplitLines(s).0| ==> IsLine(SplitLines(s).0[i])
    ensures LF !in SplitLines(s).1
    decreases |s|
  {
    if LF in s {
      LineIsLine(s);
      var l, more := s[..LineLength(s)], s[LineLength(s)..];
      assert s == l + more;
      SplitFirst(s, l, more);
      SplitLinesAreLines(more);
    }
  }

  /** There is only one way to cut a stream into lines and a rest without line feed. */
  lemma {:induction false} SplitLinesIsUnique(lines: seq<seq<Byte>>, rest: seq<Byte>)
    requires forall i :: 0 <= i < |lines| ==> IsLine(lines[i])
    requires LF !in rest
    ensures SplitLines(Concat(lines) + rest) == (lines, rest)
  {
    if lines == [] {
      assert Concat(lines) + rest == rest;
    } else {
      var more := Concat(lines[1..]) + rest;
      assert Concat(lines) + rest == lines[0] + more;
      SplitFirst(Concat(lines) + rest, lines[0], more);
      SplitLinesIsUnique(lines[1..], rest);
      assert lines == [lines[0]] + lines[1..];
    }
  }
}
