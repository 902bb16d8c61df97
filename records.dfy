/** The records of GDB's Machine Interface output, as the MI parser hands
    them over, and what a blocking `send` makes of one response burst.

    The record kinds follow the "GDB/MI Output Syntax" section of the GDB
    manual: a result record (type `Sync`), asynchronous records (`Exec`,
    `Status`, `Notify`), stream records (`Console`, `Target`, `Log`), and the
    idle prompt `(gdb)` that ends every burst. */
module MiRecords {
  import opened Wrappers
  import opened Lines

  /** An MI value: a C string, a list, or a tuple of named values. */
  datatype Value = Const(text: string) | List(items: seq<Value>) | Tuple(fields: seq<(string, Value)>)

  datatype AsyncKind = Exec | Status | Notify

  datatype StreamKind = Console | Target | Log

  datatype Record =
    | Prompt
    | Sync(token: Option<string>, resultClass: string, results: seq<(string, Value)>)
    | Async(kind: AsyncKind, token: Option<string>, asyncClass: string, results: seq<(string, Value)>)
    | Stream(stream: StreamKind, value: string)

  /** The parser applied to every line, in order: one record per line. */
  function ParseLines(parse: string -> Record, lines: seq<string>): (recs: seq<Record>)
    ensures |recs| == |lines|
    ensures forall k :: 0 <= k < |lines| ==> recs[k] == parse(lines[k])
  {
    seq(|lines|, k requires 0 <= k < |lines| => parse(lines[k]))
  }

  lemma ParseLinesCons(parse: string -> Record, line: string, lines: seq<string>)
    ensures ParseLines(parse, [line] + lines) == [parse(line)] + ParseLines(parse, lines)
  {
  }

  /** The records of a burst before its prompt, split into the trailing
      result record (if any) and the out-of-band records. */
  datatype Split = Split(result: Option<Record>, outOfBand: seq<Record>)

  /** Only a trailing `Sync` record is taken as the result; nothing is
      dropped, duplicated or reordered, and a prompt-free burst gives
      prompt-free parts. */
  function SplitBurst(pre: seq<Record>): (s: Split)
    ensures s.outOfBand + (if s.result.Some? then [s.result.value] else []) == pre
    ensures s.result.Some? <==> pre != [] && Last(pre).Sync?
    ensures s.result.Some? ==> s.result.value.Sync?
    ensures Prompt !in pre ==> Prompt !in s.outOfBand && s.result != Some(Prompt)
  {
    if pre != [] && Last(pre).Sync? then
      assert pre == pre[..|pre| - 1] + [Last(pre)];
      Split(Some(Last(pre)), pre[..|pre| - 1])
    else Split(None, pre)
  }

  predicate IsConsole(r: Record) { r.Stream? && r.stream == Console }

  /** The text of every Console stream record, in arrival order. */
  function ConsoleValues(recs: seq<Record>): (vs: seq<string>)
    ensures |vs| <= |recs|
  {
    if recs == [] then []
    else (if IsConsole(recs[0]) then [recs[0].value] else []) + ConsoleValues(recs[1..])
  }

  lemma {:induction false} ConsoleValuesAppend(a: seq<Record>, b: seq<Record>)
    ensures ConsoleValues(a + b) == ConsoleValues(a) + ConsoleValues(b)
  {
    if a != [] {
      assert (a + b)[1..] == a[1..] + b;
      ConsoleValuesAppend(a[1..], b);
    } else {
      assert a + b == b;
    }
  }

  /** A text is among the console values exactly when a Console stream
      record carries it. */
  lemma {:induction false} ConsoleValuesMembers(recs: seq<Record>, v: string)
    ensures v in ConsoleValues(recs) <==> Stream(Console, v) in recs
  {
    if recs != [] {
      ConsoleValuesMembers(recs[1..], v);
      assert recs == [recs[0]] + recs[1..];
    }
  }

  /** Splitting off the result loses no console text: the console lines of
      the out-of-band records are those of the whole burst. */
  lemma ConsoleLinesCoverBurst(pre: seq<Record>)
    ensures ConsoleValues(SplitBurst(pre).outOfBand) == ConsoleValues(pre)
  {
    var s := SplitBurst(pre);
    if s.result.Some? {
      ConsoleValuesAppend(s.outOfBand, [s.result.value]);
      assert ConsoleValues([s.result.value]) == [];
    }
  }

  /** What a blocking `send` returns: the result and the out-of-band records,
      or only the console text when `console_lines` is set. */
  datatype Reply = Records(result: Option<Record>, outOfBand: seq<Record>) | ConsoleText(lines: seq<string>)

  /** With `console_lines`, the console text of the whole burst; otherwise
      the burst split into its result and the records before it, which put
      back together give the burst. */
  function BurstReply(pre: seq<Record>, consoleLines: bool): (r: Reply)
    ensures consoleLines ==> r == ConsoleText(ConsoleValues(pre))
    ensures !consoleLines ==>
      && r.Records?
      && r.outOfBand + (if r.result.Some? then [r.result.value] else []) == pre
      && (r.result.Some? <==> pre != [] && Last(pre).Sync?)
  {
    var s := SplitBurst(pre);
    ConsoleLinesCoverBurst(pre);
    if consoleLines then ConsoleText(ConsoleValues(s.outOfBand)) else Records(s.result, s.outOfBand)
  }

  /** The exceptions a `send` raises: ValueError for a command ending in a
      newline, pexpect's EOF/TIMEOUT when the output ends before a line is
      complete, "Missing '(gdb)'", and the AttributeError of asking a prompt
      (which the parser returns as the plain string `'(gdb)'`) for a record
      attribute. */
  datatype SendError = NewlineTerminated | OutputClosed | MissingPrompt | PromptNotARecord
}
