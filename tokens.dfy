/** Command tokens and the wire text of a command.

    A session keeps an integer counter; the token of a command is Python's
    `str` of the counter, written directly in front of the command text,
    with a single newline after it. */
module Tokens {
  import opened Wrappers

  predicate IsDigit(c: char) { '0' <= c <= '9' }

  predicate AllDigits(s: string) { forall i :: 0 <= i < |s| ==> IsDigit(s[i]) }

  function DigitChar(d: nat): (c: char)
    requires d < 10
    ensures IsDigit(c)
  {
    ('0' as int + d) as char
  }

  function DigitValue(c: char): (d: nat)
    requires IsDigit(c)
    ensures d < 10 && DigitChar(d) == c
  {
    c as int - '0' as int
  }

  /** Decimal digits of `n`, most significant first (Python's `str` of a
      non-negative int): never empty, and no leading zero. */
  function NatToString(n: nat): (s: string)
    ensures |s| >= 1 && AllDigits(s)
    ensures |s| > 1 ==> s[0] != '0'
    ensures n < 10 <==> |s| == 1
    decreases n
  {
    if n < 10 then [DigitChar(n)] else NatToString(n / 10) + [DigitChar(n % 10)]
  }

  /** Python's `str` of an int: a minus sign in front of negative numbers. */
  function IntToString(i: int): (s: string)
    ensures |s| >= 1
    ensures s[0] == '-' <==> i < 0
  {
    if i < 0 then "-" + NatToString(-i) else NatToString(i)
  }

  /** Reads back a non-empty run of decimal digits. */
  function ParseNat(s: string): nat
    requires |s| >= 1 && AllDigits(s)
    decreases |s|
  {
    if |s| == 1 then DigitValue(s[0])
    else 10 * ParseNat(s[..|s| - 1]) + DigitValue(s[|s| - 1])
  }

  /** Reads back an optionally negative decimal number; `None` for anything
      else. */
  function ParseInt(s: string): Option<int> {
    if |s| >= 2 && s[0] == '-' && AllDigits(s[1..]) then Some(-(ParseNat(s[1..]) as int))
    else if |s| >= 1 && AllDigits(s) then Some(ParseNat(s))
    else None
  }

  lemma {:induction false} ParseNatToString(n: nat)
    ensures ParseNat(NatToString(n)) == n
  {
    if n >= 10 {
      var s := NatToString(n);
      assert s[..|s| - 1] == NatToString(n / 10);
      ParseNatToString(n / 10);
    }
  }

  /** `str` on ints has an inverse, so it is injective. */
  lemma ParseIntToString(i: int)
    ensures ParseInt(IntToString(i)) == Some(i)
  {
    var s := IntToString(i);
    if i < 0 {
      assert s[1..] == NatToString(-i);
      assert |s| >= 2 && s[0] == '-' && AllDigits(s[1..]);
      ParseNatToString(-i);
    } else {
      assert s == NatToString(i);
      assert !(|s| >= 2 && s[0] == '-');
      ParseNatToString(i);
    }
  }

  lemma IntToStringInjective(i: int, j: int)
    ensures IntToString(i) == IntToString(j) ==> i == j
  {
    ParseIntToString(i);
    ParseIntToString(j);
  }

  /** The first token of a session when none is given. */
  const DEFAULT_TOKEN_START: int := 87362

  /** The tokens of the first `n` commands of a session whose counter
      started at `start`. */
  function TokensFrom(start: int, n: nat): seq<string> {
    seq(n, k requires 0 <= k < n => IntToString(start + k))
  }

  /** Tokens issued within one session are pairwise distinct and read back
      as strictly increasing numbers, starting at `start`. */
  lemma TokensDistinct(start: int, n: nat)
    ensures forall j, k :: 0 <= j < k < n ==> TokensFrom(start, n)[j] != TokensFrom(start, n)[k]
    ensures forall k :: 0 <= k < n ==> ParseInt(TokensFrom(start, n)[k]) == Some(start + k)
  {
    var ts := TokensFrom(start, n);
    forall j, k | 0 <= j < k < n
      ensures ts[j] != ts[k]
    {
      IntToStringInjective(start + j, start + k);
    }
    forall k | 0 <= k < n
      ensures ParseInt(ts[k]) == Some(start + k)
    {
      ParseIntToString(start + k);
    }
  }

  /** Python's `cmd.endswith('\n')`. */
  predicate EndsWithNewline(cmd: string) { cmd != [] && cmd[|cmd| - 1] == '\n' }

  /** The text written to the debugger for `cmd` under `token`: no
      separator between the two, one newline at the end. */
  function Wire(token: string, cmd: string): (w: string)
    ensures |w| == |token| + |cmd| + 1
    ensures w[..|token|] == token && w[|token|..|w| - 1] == cmd && w[|w| - 1] == '\n'
  {
    var w := token + cmd + "\n";
    assert w[|token|..|w| - 1] == cmd;
    w
  }

  /** Length of the run of digits at the front of `s`. */
  function DigitRun(s: string): (n: nat)
    ensures n <= |s| && AllDigits(s[..n])
    ensures n < |s| ==> !IsDigit(s[n])
  {
    if s != [] && IsDigit(s[0]) then
      var n := 1 + DigitRun(s[1..]);
      assert s[..n] == [s[0]] + s[1..][..n - 1];
      n
    else 0
  }

  /** Reads a wire text back into its token (an optional minus sign and
      the longest run of digits) and its command. */
  function SplitWire(w: string): Option<(string, string)> {
    if w == [] || w[|w| - 1] != '\n' then None
    else
      var body := w[..|w| - 1];
      var sign := if body != [] && body[0] == '-' then 1 else 0;
      var n := sign + DigitRun(body[sign..]);
      if n == sign then None else Some((body[..n], body[n..]))
  }

  lemma {:induction false} DigitRunAppend(digits: string, rest: string)
    requires AllDigits(digits)
    requires rest == [] || !IsDigit(rest[0])
    ensures DigitRun(digits + rest) == |digits|
  {
    if digits != [] {
      assert (digits + rest)[1..] == digits[1..] + rest;
      DigitRunAppend(digits[1..], rest);
    }
  }

  /** The wire text determines token and command whenever the command
      does not start with a digit. */
  lemma WireRoundTrip(i: int, cmd: string)
    requires cmd == [] || !IsDigit(cmd[0])
    ensures SplitWire(Wire(IntToString(i), cmd)) == Some((IntToString(i), cmd))
  {
    var t := IntToString(i);
    var w := Wire(t, cmd);
    var body := w[..|w| - 1];
    assert body == t + cmd;
    if i < 0 {
      var digits := NatToString(-i);
      assert t == "-" + digits;
      assert body[1..] == digits + cmd;
      DigitRunAppend(digits, cmd);
      assert body[..1 + |digits|] == t;
    } else {
      DigitRunAppend(t, cmd);
      assert body[..|t|] == t;
    }
  }

  /** Without a separator, a command that starts with a digit is read as
      part of the token: two different commands have the same wire text. */
  lemma WireAmbiguousForDigitCommands()
    ensures Wire(IntToString(1), "2-exec-run") == Wire(IntToString(12), "-exec-run")
  {
    assert NatToString(12) == NatToString(1) + [DigitChar(2)];
  }
}
