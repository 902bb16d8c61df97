/** How the debugger's output is cut into lines before each line goes to
    the MI parser.

    - `ReadLine` is one `expect(r'\r?\n')` of the pexpect channel followed by
      `before + '\n'`: the text up to the first newline, a carriage return
      just before that newline dropped, and a single newline put back.
    - `SplitLines` is Python's `str.splitlines(True)`: pieces that keep their
      line terminators, where `\r\n` counts as one terminator. */
module Lines {
  import opened Wrappers

  function Last<T>(s: seq<T>): T
    requires s != []
  {
    s[|s| - 1]
  }

  function Concat(ls: seq<string>): string {
    if ls == [] then [] else ls[0] + Concat(ls[1..])
  }

  /** Index of the first newline of `s`. */
  function FirstNewline(s: string): (i: nat)
    requires '\n' in s
    ensures i < |s| && s[i] == '\n' && '\n' !in s[..i]
  {
    if s[0] == '\n' then 0
    else
      var i := 1 + FirstNewline(s[1..]);
      assert s[..i] == [s[0]] + s[1..][..i - 1];
      i
  }

  /** The next line of `out` and what is left after it; `None` when no
      complete line is left (pexpect raises EOF or TIMEOUT). */
  function ReadLine(out: string): (r: Option<(string, string)>)
    ensures r.None? <==> '\n' !in out
    ensures r.Some? ==> |r.value.1| < |out|
  {
    if '\n' !in out then None
    else
      var i := FirstNewline(out);
      var before := if i > 0 && out[i - 1] == '\r' then out[..i - 1] else out[..i];
      Some((before + "\n", out[i + 1..]))
  }

  /** The line read ends in exactly one newline and is the text up to the
      first newline of `out`; the rest is everything after that newline. The
      carriage return just before that newline, when there is one, is
      dropped from the line, and no other character is. */
  lemma ReadLineShape(out: string)
    requires '\n' in out
    ensures
      var (line, rest) := ReadLine(out).value;
      var i := FirstNewline(out);
      && |line| >= 1 && line[|line| - 1] == '\n' && '\n' !in line[..|line| - 1]
      && rest == out[i + 1..]
      && (if i > 0 && out[i - 1] == '\r' then out == line[..|line| - 1] + "\r\n" + rest
          else out == line + rest)
  {
    var i := FirstNewline(out);
    var (line, rest) := ReadLine(out).value;
    assert rest == out[i + 1..];
    assert out == out[..i] + "\n" + rest;
    if i > 0 && out[i - 1] == '\r' {
      var before := out[..i - 1];
      assert line == before + "\n" && line[..|line| - 1] == before;
      assert out[..i] == before + "\r";
    } else {
      var before := out[..i];
      assert line == before + "\n" && line[..|line| - 1] == before;
    }
  }

  /** The first `n` lines of `out` and what follows them, when `out` holds
      that many complete lines. */
  function ReadLines(out: string, n: nat): Option<(seq<string>, string)>
    decreases n
  {
    if n == 0 then Some(([], out))
    else
      match ReadLine(out)
      case None => None
      case Some((line, rest)) =>
        match ReadLines(rest, n - 1)
        case None => None
        case Some((lines, left)) => Some(([line] + lines, left))
  }

  /** The line terminators of Python's `str.splitlines`. */
  predicate IsLineBreak(c: char) {
    var k := c as int;
    k == 0x0A || k == 0x0B || k == 0x0C || k == 0x0D || k == 0x1C || k == 0x1D ||
    k == 0x1E || k == 0x85 || k == 0x2028 || k == 0x2029
  }

  /** `l` is one line as `splitlines(True)` cuts it: nothing but text up to
      its terminator, which is either one line-break character or `\r\n`. */
  predicate IsOneLine(l: string) {
    && l != []
    && forall i :: 0 <= i < |l| - 1 ==>
         !IsLineBreak(l[i]) || (i == |l| - 2 && l[i] == '\r' && l[i + 1] == '\n')
  }

  /** Length of the first line of `s`, terminator included. */
  function LineEnd(s: string): (n: nat)
    requires s != []
    ensures 0 < n <= |s| && IsOneLine(s[..n])
    ensures n < |s| ==> IsLineBreak(s[n - 1])
    ensures n < |s| && s[n - 1] == '\r' ==> s[n] != '\n'
    decreases |s|
  {
    if IsLineBreak(s[0]) then
      if s[0] == '\r' && |s| > 1 && s[1] == '\n' then 2 else 1
    else if |s| == 1 then 1
    else
      var n := 1 + LineEnd(s[1..]);
      var t := s[1..][..n - 1];
      assert s[..n] == [s[0]] + t;
      ConsOneLine(s[0], t);
      n
  }

  lemma ConsOneLine(c: char, t: string)
    requires !IsLineBreak(c) && IsOneLine(t)
    ensures IsOneLine([c] + t)
  {
    var l := [c] + t;
    forall i | 0 <= i < |l| - 1
      ensures !IsLineBreak(l[i]) || (i == |l| - 2 && l[i] == '\r' && l[i + 1] == '\n')
    {
      if i > 0 {
        assert l[i] == t[i - 1] && l[i + 1] == t[i];
      }
    }
  }

  /** Python's `s.splitlines(True)`: no pieces for the empty text, and
      every piece one line. */
  function SplitLines(s: string): (ls: seq<string>)
    ensures ls == [] <==> s == []
    ensures forall k :: 0 <= k < |ls| ==> IsOneLine(ls[k])
    decreases |s|
  {
    if s == [] then [] else
      var n := LineEnd(s);
      var tail := SplitLines(s[n..]);
      assert forall k :: 1 <= k < 1 + |tail| ==> ([s[..n]] + tail)[k] == tail[k - 1];
      [s[..n]] + tail
  }

  /** Nothing is dropped: the lines put back together give `s`. */
  lemma {:induction false} SplitLinesJoin(s: string)
    ensures Concat(SplitLines(s)) == s
  {
    if s != [] {
      var n := LineEnd(s);
      SplitLinesJoin(s[n..]);
      assert s == s[..n] + s[n..];
    }
  }

  /** Every piece is one line; only the last piece may lack a terminator. */
  lemma {:induction false} SplitLinesShape(s: string)
    ensures forall k :: 0 <= k < |SplitLines(s)| ==> IsOneLine(SplitLines(s)[k])
    ensures forall k :: 0 <= k < |SplitLines(s)| - 1 ==>
              IsOneLine(SplitLines(s)[k]) && IsLineBreak(Last(SplitLines(s)[k]))
  {
    if s != [] {
      var n := LineEnd(s);
      SplitLinesShape(s[n..]);
      var ls := SplitLines(s);
      assert ls == [s[..n]] + SplitLines(s[n..]);
      forall k | 0 <= k < |ls| - 1
        ensures IsOneLine(ls[k]) && IsLineBreak(Last(ls[k]))
      {
        if k == 0 {
          assert SplitLines(s[n..]) != [];
          assert s[n..] != [];
        } else {
          assert ls[k] == SplitLines(s[n..])[k - 1];
        }
      }
    }
  }

  /** A final line that follows a line terminator (or starts the text) and
      does not begin with `\n` is split off as the last piece: a burst that
      ends with the prompt on a line of its own ends with that line. */
  lemma {:induction false} SplitLinesLastLine(prefix: string, last: string)
    requires prefix == [] || IsLineBreak(Last(prefix))
    requires IsOneLine(last) && last[0] != '\n' && !IsLineBreak(last[0])
    requires IsLineBreak(Last(last))
    ensures SplitLines(prefix + last) == SplitLines(prefix) + [last]
    decreases |prefix|
  {
    var s := prefix + last;
    if prefix == [] {
      assert s == last;
      LastLineEnd(last);
      assert s[..|last|] == last && s[|last|..] == [];
    } else {
      var n := LineEnd(prefix);
      PrefixLineEnd(prefix, last);
      assert LineEnd(s) == n;
      assert s[..n] == prefix[..n];
      assert s[n..] == prefix[n..] + last;
      SplitLinesLastLine(prefix[n..], last);
    }
  }

  lemma LastLineEnd(last: string)
    requires IsOneLine(last) && !IsLineBreak(last[0]) && IsLineBreak(Last(last))
    ensures LineEnd(last) == |last|
  {
  }

  lemma PrefixLineEnd(prefix: string, last: string)
    requires prefix != [] && IsLineBreak(Last(prefix))
    requires last != [] && !IsLineBreak(last[0])
    ensures LineEnd(prefix + last) == LineEnd(prefix)
    decreases |prefix|
  {
    var s := prefix + last;
    if IsLineBreak(prefix[0]) {
      if |prefix| == 1 {
        assert s[0] == prefix[0] && s[1] == last[0];
      } else {
        assert s[1] == prefix[1];
      }
    } else {
      assert |prefix| > 1;
      assert s[1..] == prefix[1..] + last;
      PrefixLineEnd(prefix[1..], last);
    }
  }
}
