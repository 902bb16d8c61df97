/** The GDB controller of gdb.py: the same token counter as gdb_ctrl.py, but
    a response is captured in one piece (everything the debugger printed up
    to the prompt line that follows the command's token) and then cut with
    `str.splitlines(True)`.

    The captured text is a parameter of `Send`: `None` when pexpect reports
    EOF or a timeout instead. The MI parser, built for the line terminator
    the session detected, is the field `parse`. */
module Gdb {
  import opened Wrappers
  import opened Tokens
  import opened Lines
  import opened MiRecords
  import Colors

  /** The parser's line terminator: `\r\n` when the output before the first
      prompt ends with `\r\n`, `\n` otherwise. */
  function ParserNewline(before: string): (nl: string)
    ensures nl == "\r\n" <==> |before| >= 2 && before[|before| - 2..] == "\r\n"
    ensures nl == "\r\n" || nl == "\n"
  {
    if |before| >= 2 && before[|before| - 2..] == "\r\n" then "\r\n" else "\n"
  }

  /** The records of a captured response, one per line. */
  function ParseOutput(parse: string -> Record, output: string): (recs: seq<Record>)
    ensures |recs| == |SplitLines(output)|
  {
    ParseLines(parse, SplitLines(output))
  }

  /** A response whose last line parses to the prompt: every line before it
      is parsed in order, and the prompt line is the last record. A prompt
      line that follows a line terminator is its own line, so a captured
      response that ends with it never raises "Missing '(gdb)'". */
  lemma PromptLineEndsRecords(parse: string -> Record, prefix: string, promptLine: string)
    requires prefix == [] || IsLineBreak(Last(prefix))
    requires IsOneLine(promptLine) && !IsLineBreak(promptLine[0]) && IsLineBreak(Last(promptLine))
    requires parse(promptLine) == Prompt
    ensures var recs := ParseOutput(parse, prefix + promptLine);
      && recs != [] && Last(recs) == Prompt
      && recs[..|recs| - 1] == ParseOutput(parse, prefix)
  {
    assert promptLine[0] != '\n';
    SplitLinesLastLine(prefix, promptLine);
    var ls := SplitLines(prefix);
    var recs := ParseOutput(parse, prefix + promptLine);
    assert recs[..|recs| - 1] == ParseLines(parse, ls);
  }

  /** When the last line does not parse to the prompt, for instance when the
      captured text ends in the middle of a line, no burst is formed. */
  lemma MissingPromptWhenLastLineIsNotPrompt(parse: string -> Record, output: string)
    requires output != [] && parse(Last(SplitLines(output))) != Prompt
    ensures var recs := ParseOutput(parse, output); recs == [] || Last(recs) != Prompt
  {
    SplitLinesJoin(output);
    assert SplitLines(output) != [];
  }

  class Debugger {
    /** The token of the next command. */
    var cnt: int
    ghost const tokenStart: int
    /** Every text written to the debugger's input, in order. */
    var written: seq<string>
    var lastOutOfBand: seq<Record>
    /** The line terminator the parser was built for. */
    const nl: string
    const parse: string -> Record
    const useColors: bool

    ghost predicate Valid()
      reads this
    {
      tokenStart <= cnt && |written| == cnt - tokenStart
    }

    /** The tokens handed out so far, oldest first. */
    ghost function Issued(): seq<string>
      reads this
      requires Valid()
    {
      TokensFrom(tokenStart, cnt - tokenStart)
    }

    /** A session: `useColors` overrides `ttyColors`, the terminal's answer;
        `before` is the output that preceded the first prompt, and
        `parserFor` builds the MI parser for a line terminator; commands
        are numbered from `tokenStart`. */
    constructor (useColors: Option<bool>, ttyColors: bool, before: string,
                 parserFor: string -> string -> Record, tokenStart: int := DEFAULT_TOKEN_START)
      ensures Valid() && this.tokenStart == tokenStart && cnt == tokenStart
      ensures written == [] && lastOutOfBand == []
      ensures this.useColors == (if useColors.Some? then useColors.value else ttyColors)
      ensures nl == ParserNewline(before) && parse == parserFor(nl)
    {
      this.tokenStart := tokenStart;
      cnt := tokenStart;
      written := [];
      lastOutOfBand := [];
      this.useColors := if useColors.Some? then useColors.value else ttyColors;
      nl := ParserNewline(before);
      parse := parserFor(ParserNewline(before));
    }

    /** `_colored` with the session's colour flag. */
    function Colored(s: string, color: string): (r: Result<string, string>)
      reads this
      ensures !useColors || color == "none" ==> r == Ok(s)
      ensures r == Colors.Colored(useColors, s, color)
    {
      Colors.Colored(useColors, s, color)
    }

    /** Sends a command and reads its response burst out of the captured
        text: every line is parsed, the last record must be the prompt and
        is dropped, a trailing result record is split off, and the rest is
        kept as the last out-of-band records. With `consoleLines`, only the
        console text is returned.

        The captured text may hold an earlier prompt left over before the
        command's own answer. A prompt just before the final one fails the
        `.type` test of the result split; a prompt among the out-of-band
        records fails the `is_stream` test of the console projection, after
        the out-of-band records were stored. */
    method Send(cmd: string, output: Option<string>, consoleLines: bool) returns (r: Result<Reply, SendError>)
      requires Valid()
      modifies this`cnt, this`written, this`lastOutOfBand
      ensures Valid()
      ensures EndsWithNewline(cmd) ==>
        r == Err(NewlineTerminated) && cnt == old(cnt) && written == old(written) && lastOutOfBand == old(lastOutOfBand)
      ensures !EndsWithNewline(cmd) ==>
        && cnt == old(cnt) + 1
        && written == old(written) + [Wire(IntToString(old(cnt)), cmd)]
        && Issued() == old(Issued()) + [IntToString(old(cnt))]
      ensures !EndsWithNewline(cmd) && output.None? ==>
        r == Err(OutputClosed) && lastOutOfBand == old(lastOutOfBand)
      ensures !EndsWithNewline(cmd) && output.Some? ==>
        var recs := ParseOutput(parse, output.value);
        if recs == [] || Last(recs) != Prompt then
          r == Err(MissingPrompt) && lastOutOfBand == old(lastOutOfBand)
        else
          var pre := recs[..|recs| - 1];
          if pre != [] && Last(pre) == Prompt then
            r == Err(PromptNotARecord) && lastOutOfBand == old(lastOutOfBand)
          else if consoleLines && Prompt in SplitBurst(pre).outOfBand then
            r == Err(PromptNotARecord) && lastOutOfBand == SplitBurst(pre).outOfBand
          else
            r == Ok(BurstReply(pre, consoleLines)) && lastOutOfBand == SplitBurst(pre).outOfBand
    {
      if EndsWithNewline(cmd) {
        return Err(NewlineTerminated);
      }
      var token := IntToString(cnt);
      var line := token + cmd + "\n";
      cnt := cnt + 1;
      written := written + [line];
      assert TokensFrom(tokenStart, cnt - tokenStart) == TokensFrom(tokenStart, cnt - 1 - tokenStart) + [token];
      if output.None? {
        return Err(OutputClosed);
      }
      var lines := SplitLines(output.value);
      var tmp: seq<Record> := [];
      for i := 0 to |lines|
        invariant tmp == ParseLines(parse, lines[..i])
      {
        assert lines[..i + 1] == lines[..i] + [lines[i]];
        tmp := tmp + [parse(lines[i])];
      }
      assert lines[..|lines|] == lines;
      if tmp == [] || Last(tmp) != Prompt {
        return Err(MissingPrompt);
      }
      tmp := tmp[..|tmp| - 1];
      ghost var pre := tmp;
      if tmp != [] && Last(tmp) == Prompt {
        return Err(PromptNotARecord);
      }
      var result: Option<Record> := None;
      if tmp != [] && Last(tmp).Sync? {
        result := Some(Last(tmp));
        tmp := tmp[..|tmp| - 1];
      }
      assert SplitBurst(pre) == Split(result, tmp);
      lastOutOfBand := tmp;
      if consoleLines {
        if Prompt in tmp {
          return Err(PromptNotARecord);
        }
        r := Ok(ConsoleText(ConsoleValues(tmp)));
      } else {
        r := Ok(Records(result, tmp));
      }
    }
  }
}
