/** The GDB controller of gdb_ctrl.py: a session that numbers the commands
    it writes and gathers the debugger's answer to each one, up to the idle
    prompt.

    The debugger's standard output is the field `pending`: the text it has
    printed (or will print) that the session has not read yet. The MI parser
    of the gdb_mi package is the field `parse`; nothing is assumed about it. */
module GdbCtrl {
  import opened Wrappers
  import opened Tokens
  import opened Lines
  import opened MiRecords

  /** What reading records up to the first prompt yields: the records, the
      prompt last, and the unread output; or the end of the output. */
  datatype Collected = Burst(records: seq<Record>, rest: string) | EndOfOutput

  /** Reads and parses lines after the records `acc` until a line parses to
      the prompt. */
  function Collect(parse: string -> Record, acc: seq<Record>, out: string): (c: Collected)
    ensures c.Burst? ==> |c.records| > |acc| && Last(c.records) == Prompt
    decreases |out|
  {
    match ReadLine(out)
    case None => EndOfOutput
    case Some((line, rest)) =>
      var r := parse(line);
      if r == Prompt then Burst(acc + [r], rest) else Collect(parse, acc + [r], rest)
  }

  /** Records already gathered stay in front of whatever is gathered next. */
  function Prepend(acc: seq<Record>, c: Collected): Collected {
    match c
    case EndOfOutput => EndOfOutput
    case Burst(recs, rest) => Burst(acc + recs, rest)
  }

  lemma {:induction false} CollectPrepends(parse: string -> Record, acc: seq<Record>, out: string)
    ensures Collect(parse, acc, out) == Prepend(acc, Collect(parse, [], out))
    decreases |out|
  {
    match ReadLine(out)
    case None =>
    case Some((line, rest)) =>
      var r := parse(line);
      assert [] + [r] == [r];
      if r != Prompt {
        CollectPrepends(parse, acc + [r], rest);
        CollectPrepends(parse, [r], rest);
        match Collect(parse, [], rest)
        case EndOfOutput =>
        case Burst(recs, left) =>
          assert acc + [r] + recs == acc + ([r] + recs);
      }
  }

  /** A burst is exactly the parse of the next lines of the output, in
      order, up to and including the first one that parses to the prompt;
      the output after that line is left unread. */
  lemma {:induction false} CollectReadsUpToFirstPrompt(
    parse: string -> Record, out: string, recs: seq<Record>, rest: string)
    requires Collect(parse, [], out) == Burst(recs, rest)
    ensures ReadLines(out, |recs|).Some?
    ensures ReadLines(out, |recs|).value.1 == rest
    ensures ParseLines(parse, ReadLines(out, |recs|).value.0) == recs
    decreases |out|
  {
    var (line, rest1) := ReadLine(out).value;
    assert ReadLine(out) == Some((line, rest1));
    if parse(line) == Prompt {
      CollectPromptFirst(parse, out, line, rest1, recs, rest);
    } else {
      CollectStep(parse, out, line, rest1, recs, rest);
      var tail := recs[1..];
      CollectReadsUpToFirstPrompt(parse, rest1, tail, rest);
      var (ls, left) := ReadLines(rest1, |tail|).value;
      ReadLinesCons(out, line, rest1, |recs|);
      ParseLinesCons(parse, line, ls);
      assert recs == [parse(line)] + tail;
    }
  }

  /** The prompt that ends a burst is its only prompt. */
  lemma {:induction false} CollectStopsAtFirstPrompt(
    parse: string -> Record, out: string, recs: seq<Record>, rest: string)
    requires Collect(parse, [], out) == Burst(recs, rest)
    ensures Prompt !in recs[..|recs| - 1]
    decreases |out|
  {
    var (line, rest1) := ReadLine(out).value;
    assert ReadLine(out) == Some((line, rest1));
    if parse(line) == Prompt {
      CollectPromptFirst(parse, out, line, rest1, recs, rest);
    } else {
      CollectStep(parse, out, line, rest1, recs, rest);
      var tail := recs[1..];
      CollectStopsAtFirstPrompt(parse, rest1, tail, rest);
      assert recs[..|recs| - 1] == [parse(line)] + tail[..|tail| - 1];
    }
  }

  /** A first line that parses to the prompt is the whole burst. */
  lemma CollectPromptFirst(parse: string -> Record, out: string, line: string, rest1: string, recs: seq<Record>, rest: string)
    requires ReadLine(out) == Some((line, rest1)) && parse(line) == Prompt
    requires Collect(parse, [], out) == Burst(recs, rest)
    ensures recs == [Prompt] && ReadLines(out, 1) == Some(([line], rest))
  {
    assert recs == [parse(line)] && rest == rest1;
    ReadOneLine(out, line, rest);
  }

  /** A line that does not parse to the prompt is the first record of the
      burst; the rest of the burst is gathered from the output after it. */
  lemma CollectStep(parse: string -> Record, out: string, line: string, rest1: string, recs: seq<Record>, rest: string)
    requires ReadLine(out) == Some((line, rest1)) && parse(line) != Prompt
    requires Collect(parse, [], out) == Burst(recs, rest)
    ensures |recs| > 1 && recs[0] == parse(line) && Collect(parse, [], rest1) == Burst(recs[1..], rest)
  {
    var r := parse(line);
    assert [] + [r] == [r];
    assert Collect(parse, [], out) == Collect(parse, [r], rest1);
    CollectPrepends(parse, [r], rest1);
  }

  /** What `send` returns never holds the prompt: neither the result nor
      the out-of-band records. */
  lemma BurstRepliesHaveNoPrompt(parse: string -> Record, out: string, recs: seq<Record>, rest: string)
    requires Collect(parse, [], out) == Burst(recs, rest)
    ensures var s := SplitBurst(recs[..|recs| - 1]);
      Prompt !in s.outOfBand && s.result != Some(Prompt)
  {
    CollectStopsAtFirstPrompt(parse, out, recs, rest);
  }

  lemma ReadOneLine(out: string, line: string, rest: string)
    requires ReadLine(out) == Some((line, rest))
    ensures ReadLines(out, 1) == Some(([line], rest))
  {
    assert ReadLines(rest, 0) == Some(([], rest));
    assert [line] + [] == [line];
  }

  lemma ReadLinesCons(out: string, line: string, rest: string, n: nat)
    requires ReadLine(out) == Some((line, rest)) && n > 0
    ensures ReadLines(out, n) ==
      match ReadLines(rest, n - 1)
      case None => None
      case Some((lines, left)) => Some(([line] + lines, left))
  {
  }

  /** When the next `n` lines contain one that parses to the prompt, the
      burst is found within those `n` lines. */
  lemma {:induction false} CollectFindsPrompt(parse: string -> Record, acc: seq<Record>, out: string, n: nat)
    requires ReadLines(out, n).Some? && Prompt in ParseLines(parse, ReadLines(out, n).value.0)
    ensures Collect(parse, acc, out).Burst?
    ensures |Collect(parse, acc, out).records| - |acc| <= n
    decreases n
  {
    var (ls, left) := ReadLines(out, n).value;
    assert n > 0;
    var (line, rest) := ReadLine(out).value;
    var (ls', left') := ReadLines(rest, n - 1).value;
    assert ls == [line] + ls';
    if parse(line) != Prompt {
      assert ParseLines(parse, ls) == [parse(line)] + ParseLines(parse, ls');
      CollectFindsPrompt(parse, acc + [parse(line)], rest, n - 1);
    }
  }

  /** How `include_gdb_commands` is read: no methods, methods that print
      nothing ('machine'), or methods that print what they receive
      ('human'). */
  datatype IncludeMode = NoMethods | Silent | Verbose

  function IncludeCommandsMode(flag: Option<string>): (r: Result<IncludeMode, string>)
    ensures r.Ok? <==> flag in {None, Some("none"), Some("machine"), Some("human")}
    ensures r == Ok(NoMethods) <==> flag == None || flag == Some("none")
    ensures r == Ok(Silent) <==> flag == Some("machine")
    ensures r == Ok(Verbose) <==> flag == Some("human")
  {
    match flag
    case None => Ok(NoMethods)
    case Some(f) =>
      if f == "none" then Ok(NoMethods)
      else if f == "machine" then Ok(Silent)
      else if f == "human" then Ok(Verbose)
      else Err("Invalid include gdb command flag: '" + f + "'")
  }

  /** The command a generated method sends: the GDB command name and the
      call's arguments joined by single spaces. */
  function CommandLine(gdbName: string, args: seq<string>): (line: string)
    ensures |line| >= |gdbName| && line[..|gdbName|] == gdbName
    ensures args == [] <==> line == gdbName
    decreases |args|
  {
    if args == [] then gdbName else CommandLine(gdbName, args[..|args| - 1]) + " " + Last(args)
  }

  /** Position of the last space of `s`. */
  function LastSpace(s: string): (i: nat)
    requires ' ' in s
    ensures i < |s| && s[i] == ' '
    ensures forall k :: i < k < |s| ==> s[k] != ' '
  {
    if Last(s) == ' ' then |s| - 1
    else
      assert s == s[..|s| - 1] + [Last(s)];
      LastSpace(s[..|s| - 1])
  }

  /** Python's `s.split(' ')`: the pieces between single spaces, empty
      pieces included. */
  function SplitSpaces(s: string): (ps: seq<string>)
    ensures |ps| >= 1
    decreases |s|
  {
    if ' ' !in s then [s]
    else
      var i := LastSpace(s);
      SplitSpaces(s[..i]) + [s[i + 1..]]
  }

  lemma {:induction false} LastSpaceAfter(p: string, q: string)
    requires ' ' !in q
    ensures ' ' in p + " " + q && LastSpace(p + " " + q) == |p|
    decreases |q|
  {
    var s := p + " " + q;
    assert s[|p|] == ' ';
    if q != [] {
      var q' := q[..|q| - 1];
      assert s[..|s| - 1] == p + " " + q';
      assert Last(s) == Last(q) && Last(q) in q;
      LastSpaceAfter(p, q');
    }
  }

  /** The joined command line splits back at its spaces into the command
      name and the arguments, when none of them holds a space. */
  lemma {:induction false} CommandLineSplits(gdbName: string, args: seq<string>)
    requires ' ' !in gdbName
    requires forall k :: 0 <= k < |args| ==> ' ' !in args[k]
    ensures SplitSpaces(CommandLine(gdbName, args)) == [gdbName] + args
    decreases |args|
  {
    if args != [] {
      var init := args[..|args| - 1];
      var p := CommandLine(gdbName, init);
      var line := p + " " + Last(args);
      LastSpaceAfter(p, Last(args));
      assert line[..|p|] == p && line[|p| + 1..] == Last(args);
      CommandLineSplits(gdbName, init);
      assert args == init + [Last(args)];
    }
  }

  /** What a generated method returns: the result record's results as a
      native mapping, or None when there is no result record or it carries
      no results. */
  function MethodReturn(result: Option<Record>): (r: Option<seq<(string, Value)>>)
    requires result.None? || result.value.Sync?
    ensures r.Some? <==> result.Some? && result.value.results != []
    ensures r.Some? ==> r.value == result.value.results
  {
    match result
    case None => None
    case Some(rec) => if rec.results == [] then None else Some(rec.results)
  }

  class Debugger {
    /** The token of the next command. */
    var cnt: int
    ghost const tokenStart: int
    /** Every text written to the debugger's input, in order. */
    var written: seq<string>
    /** Output of the debugger not read yet. */
    var pending: string
    var lastOutOfBand: seq<Record>
    const parse: string -> Record

    ghost predicate Valid()
      reads this
    {
      tokenStart <= cnt && |written| == cnt - tokenStart
    }

    /** The tokens handed out so far, oldest first. */
    ghost function Issued(): seq<string>
      reads this
      requires Valid()
    {
      TokensFrom(tokenStart, cnt - tokenStart)
    }

    /** A session over the debugger output `output`, numbering its
        commands from `tokenStart`. */
    constructor (output: string, parse: string -> Record, tokenStart: int := DEFAULT_TOKEN_START)
      ensures Valid() && this.tokenStart == tokenStart && cnt == tokenStart
      ensures written == [] && pending == output && lastOutOfBand == [] && this.parse == parse
    {
      this.tokenStart := tokenStart;
      cnt := tokenStart;
      written := [];
      pending := output;
      lastOutOfBand := [];
      this.parse := parse;
    }

    /** Writes one command under a fresh token and returns the token. A
        command that ends in a newline is refused before anything is written
        or counted. */
    method SendCommand(cmd: string) returns (r: Result<string, SendError>)
      requires Valid()
      modifies this`cnt, this`written
      ensures Valid()
      ensures EndsWithNewline(cmd) ==> r == Err(NewlineTerminated) && cnt == old(cnt) && written == old(written)
      ensures !EndsWithNewline(cmd) ==>
        && r == Ok(IntToString(old(cnt)))
        && cnt == old(cnt) + 1
        && written == old(written) + [Wire(r.value, cmd)]
        && Issued() == old(Issued()) + [r.value]
        && r.value !in old(Issued())
    {
      if EndsWithNewline(cmd) {
        return Err(NewlineTerminated);
      }
      ghost var before := Issued();
      var token := IntToString(cnt);
      var line := token + cmd + "\n";
      cnt := cnt + 1;
      written := written + [line];
      var n := cnt - tokenStart;
      TokensDistinct(tokenStart, n);
      assert TokensFrom(tokenStart, n) == TokensFrom(tokenStart, n - 1) + [token];
      assert token == TokensFrom(tokenStart, n)[n - 1];
      assert before == TokensFrom(tokenStart, n - 1);
      assert forall j :: 0 <= j < n - 1 ==> before[j] == TokensFrom(tokenStart, n)[j];
      return Ok(token);
    }

    /** Sends a command and gathers its response burst: records are read up
        to the first prompt, the prompt is dropped, a trailing result record
        is split off, and the rest is kept as the last out-of-band records.
        With `consoleLines`, only the console text is returned. */
    method Send(cmd: string, consoleLines: bool) returns (r: Result<Reply, SendError>)
      requires Valid()
      modifies this`cnt, this`written, this`pending, this`lastOutOfBand
      ensures Valid()
      ensures EndsWithNewline(cmd) ==>
        && r == Err(NewlineTerminated) && cnt == old(cnt) && written == old(written)
        && pending == old(pending) && lastOutOfBand == old(lastOutOfBand)
      ensures !EndsWithNewline(cmd) ==>
        cnt == old(cnt) + 1 && written == old(written) + [Wire(IntToString(old(cnt)), cmd)]
      ensures !EndsWithNewline(cmd) ==>
        match Collect(parse, [], old(pending))
        case EndOfOutput =>
          r == Err(OutputClosed) && pending == [] && lastOutOfBand == old(lastOutOfBand)
        case Burst(recs, rest) =>
          var pre := recs[..|recs| - 1];
          && r == Ok(BurstReply(pre, consoleLines))
          && pending == rest
          && lastOutOfBand == SplitBurst(pre).outOfBand
    {
      var sent := SendCommand(cmd);
      if sent.Err? {
        return Err(sent.error);
      }
      ghost var out := pending;
      ghost var cnt1, written1 := cnt, written;
      var tmp: seq<Record> := [];
      var last: Option<Record> := None;
      while last != Some(Prompt)
        invariant cnt == cnt1 && written == written1 && lastOutOfBand == old(lastOutOfBand)
        invariant last != Some(Prompt) ==> Collect(parse, [], out) == Collect(parse, tmp, pending)
        invariant last == Some(Prompt) ==> Collect(parse, [], out) == Burst(tmp, pending)
        invariant last.Some? ==> tmp != [] && Last(tmp) == last.value
        decreases |pending|
      {
        var next := ReadLine(pending);
        if next.None? {
          pending := [];
          return Err(OutputClosed);
        }
        var (line, rest) := next.value;
        assert ReadLine(pending) == Some((line, rest));
        pending := rest;
        var rec := parse(line);
        tmp := tmp + [rec];
        last := Some(rec);
      }
      assert out == old(pending);
      ghost var pre := tmp[..|tmp| - 1];
      if tmp == [] || Last(tmp) != Prompt {
        // the source raises "Missing '(gdb)'" here; the loop above only
        // stops right after appending a prompt
        assert false;
      }
      tmp := tmp[..|tmp| - 1];
      var result: Option<Record> := None;
      if tmp != [] && Last(tmp).Sync? {
        result := Some(Last(tmp));
        tmp := tmp[..|tmp| - 1];
      }
      assert SplitBurst(pre) == Split(result, tmp);
      lastOutOfBand := tmp;
      if consoleLines {
        r := Ok(ConsoleText(ConsoleValues(tmp)));
      } else {
        r := Ok(Records(result, tmp));
      }
    }
  }
}
