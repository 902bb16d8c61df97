# python-gdb-ctrl in Dafny

A model of the client side of python-gdb-ctrl. The library drives the GNU
debugger through its Machine Interface (MI). The model has four parts:

- **Session state.** Each session keeps a token counter. A command is
  written as `str(counter) + cmd + "\n"`, and a command that ends in a
  newline is refused.
- **Response bursts.** The debugger's output is read and parsed line by
  line up to the idle prompt `(gdb)`. The prompt is dropped. A trailing
  result record is split off, and the other records become the
  "out-of-band" records.
- **Command-method names.** The output of `apropos` is turned into Python
  method names.
- **Formatting.** ANSI colouring and the heading printed for a result.

The repository holds two controllers, and each is its own module:

- `gdb_ctrl.py` reads one line at a time.
- `gdb.py` captures the whole response and cuts it with
  `str.splitlines(True)`.

The example debuggee `example/glad.c` is modelled as well: a health
check, an in-place zeroing, a warm-up loop and the argument loop of
`main`.

The MI parser belongs to the external `gdb_mi` package. Here it is an
uninterpreted function `parse: string -> Record` into a `Record` datatype
(`Prompt | Sync | Async | Stream`). The record kinds are the ones in the
"GDB/MI Output Syntax" section of the GDB manual.

Modules, one per file:

| module | file | what |
|---|---|---|
| `Wrappers` | wrappers.dfy | `Option`, `Result` |
| `Tokens` | tokens.dfy | Python `str` of ints, the token sequence, the wire text and its decoding |
| `Lines` | lines.dfy | pexpect's `\r?\n` line reading; `str.splitlines(True)` |
| `MiRecords` | records.dfy | records, burst split, console projection |
| `GdbCtrl` | gdb_ctrl.dfy | gdb_ctrl.py: class `Debugger` (`_send`, `send`), flag check, generated-method rules |
| `CommandNames` | command_names.dfy | the `apropos` to method-name pipeline (both controllers) |
| `Colors` | colors.dfy | `_colored`, result colour and prefix |
| `Gdb` | gdb.dfy | gdb.py: class `Debugger` (`send`, `_colored`, parser line terminator) |
| `Glad` | glad.dfy | example/glad.c |

Three behaviours of the code are worth stating outright, because the
model keeps them as the code has them:

- The wire text has no separator between the token and the command. As a
  result, a command that starts with a digit is read back with a
  different token (`Tokens.WireAmbiguousForDigitCommands`).
- A burst cut short by the end of the output ends the `send`: pexpect
  raises EOF or TIMEOUT and the records gathered so far are discarded.
  The model returns `Err(OutputClosed)` and keeps no partial records.
- A burst is not returned whole: the prompt is dropped and a trailing
  result record is split off as `result`; only the records before it are
  the out-of-band records.

The `apropos` to method-name pipeline is written out twice: gdb_ctrl.py
lines 285-306 and gdb.py lines 179-200 are the same text, and the loop
that follows differs only in its method-creation call
(`_create_method(pyname, gdbname, doc, silent)` against
`create_method(pyname, gdbname, doc)`). The `CommandNames` module models
the pipeline once.

## Model

| member | source | states |
|---|---|---|
| Tokens.NatToString | gdb_ctrl.py:217 | `str` of a non-negative counter is a non-empty run of decimal digits with no leading zero; one digit exactly below 10 |
| Tokens.IntToString | gdb_ctrl.py:217 | `str` of any int is non-empty and starts with `-` exactly for negative values |
| Tokens.ParseIntToString | gdb_ctrl.py:217 | reading the token text back as an integer gives the counter value it was made from |
| Tokens.IntToStringInjective | gdb_ctrl.py:217 | different counter values give different token texts |
| Tokens.TokensDistinct | gdb_ctrl.py:217-219 | the tokens of one session are pairwise distinct and read back as `start, start+1, …` in issue order |
| Tokens.Wire | gdb_ctrl.py:218 | the wire text is the token, then the command, then one newline, with nothing between token and command |
| Tokens.WireRoundTrip | gdb_ctrl.py:218 | the wire text determines both token and command when the command does not start with a digit |
| Tokens.WireAmbiguousForDigitCommands | gdb.py:133 | without a separator, token 1 with `2-exec-run` and token 12 with `-exec-run` give the same wire text |
| Lines.ReadLine | gdb_ctrl.py:230-233 | there is no next line exactly when no newline is left; each read consumes input |
| Lines.ReadLineShape | gdb_ctrl.py:230-233 | the line read ends in its only newline and is the input up to the first newline; a `\r` just before that newline is dropped and no other character is; what follows that newline is left unread |
| Lines.LineEnd | gdb.py:141 | the first `splitlines` piece is one line ending at its terminator, and `\r\n` is never cut in two |
| Lines.SplitLines | gdb.py:141 | `splitlines(True)` gives no pieces exactly for the empty text, and every piece is one line |
| Lines.SplitLinesJoin | gdb.py:141 | the pieces of `splitlines(True)` concatenate back to the whole text |
| Lines.SplitLinesShape | gdb.py:141 | every piece is one line, and every piece but the last ends with a line terminator |
| Lines.SplitLinesLastLine | gdb.py:137-141 | a terminated final line after a terminator is split off as the last piece, the earlier text split as before |
| MiRecords.ParseLines | gdb_ctrl.py:234-235 | one record per line, each line parsed in order |
| MiRecords.SplitBurst | gdb_ctrl.py:243-247 | out-of-band records plus the result give back the pre-prompt records in order; a result exists exactly when the last record is `Sync`; a prompt-free burst gives prompt-free parts |
| MiRecords.ConsoleValues | gdb_ctrl.py:251 | the console projection has at most one text per record |
| MiRecords.ConsoleValuesMembers | gdb_ctrl.py:251 | a text is in the console projection exactly when a Console stream record carries it |
| MiRecords.ConsoleValuesAppend | gdb_ctrl.py:251 | the console projection of concatenated records is the concatenation of their projections, so order is kept |
| MiRecords.ConsoleLinesCoverBurst | gdb_ctrl.py:247-251 | splitting off the result loses no console text of the burst |
| MiRecords.BurstReply | gdb_ctrl.py:243-253 | with `console_lines`, the console texts of the whole burst; otherwise the result and the out-of-band records, which together give back the burst, with a result exactly when the burst ends with a `Sync` record |
| GdbCtrl.Collect | gdb_ctrl.py:227-236 | a completed collection is longer than what was gathered before and ends with the prompt |
| GdbCtrl.CollectReadsUpToFirstPrompt | gdb_ctrl.py:229-236 | a burst is exactly the parse of the next lines, in order, and the output after them is left unread |
| GdbCtrl.CollectStopsAtFirstPrompt | gdb_ctrl.py:229-239 | the prompt ending a burst is its only prompt, so the "Missing '(gdb)'" check can never fire |
| GdbCtrl.CollectFindsPrompt | gdb_ctrl.py:229-236 | if one of the next `n` lines parses to the prompt, the collection completes within those `n` lines |
| GdbCtrl.CollectPrepends | gdb_ctrl.py:227-236 | records gathered earlier stay in front, unchanged, of whatever the rest of the collection gathers |
| GdbCtrl.BurstRepliesHaveNoPrompt | gdb_ctrl.py:241-247 | neither the result nor the out-of-band records of a burst hold the prompt |
| GdbCtrl.IncludeCommandsMode | gdb_ctrl.py:169-179 | the flag is accepted exactly when it is None, 'none', 'machine' or 'human'; None and 'none' define no methods, 'machine' silent methods, 'human' printing ones; anything else is a ValueError |
| GdbCtrl.CommandLine | gdb_ctrl.py:23-24 | a generated method sends the GDB command name first, and exactly the bare name when called without arguments |
| GdbCtrl.CommandLineSplits | gdb_ctrl.py:23-24 | when neither the command name nor any argument holds a space, `split(' ')` of the joined line gives back the name followed by every argument, in order |
| GdbCtrl.MethodReturn | gdb_ctrl.py:32-39 | a generated method returns the result's values exactly when there is a result with values, and None otherwise |
| GdbCtrl.Debugger.constructor | gdb_ctrl.py:127-133 | a session starts with counter `token_start`, nothing written and no out-of-band records |
| GdbCtrl.Debugger.SendCommand | gdb_ctrl.py:211-222 | a newline-terminated command is a ValueError with nothing written or counted; otherwise the wire text is `str(old cnt) + cmd + "\n"`, the token is returned, `cnt` grows by one and the token differs from every earlier one |
| GdbCtrl.Debugger.Send | gdb_ctrl.py:224-253 | the counter and wire text as for `_send`; the reply is the burst up to the first prompt, split into result and out-of-band records (or their console texts), `last_out_of_band` is set, and the rest of the output stays unread; the end of the output is an error |
| CommandNames.LeadingSpaces | gdb_ctrl.py:285 | the number of leading whitespace characters, which is where `strip()` starts |
| CommandNames.TrailingSpaces | gdb_ctrl.py:285 | the number of trailing whitespace characters, which is where `strip()` ends |
| CommandNames.Strip | gdb_ctrl.py:285 | the result has no whitespace at either end and is the input with only whitespace around it |
| CommandNames.StripStripped | gdb_ctrl.py:297 | a text without whitespace at its ends is left as it is by `strip()` |
| CommandNames.StripIdempotent | gdb_ctrl.py:297 | the second `strip()` of the pipeline changes nothing |
| CommandNames.FindDashDash | gdb_ctrl.py:285 | finds the first `--` of a line, or reports that there is none |
| CommandNames.CommandOf | gdb_ctrl.py:285 | a line gives a command exactly when it holds `--`, and the command is the stripped text before its first `--` |
| CommandNames.CommandOfShape | gdb_ctrl.py:285 | a line gives a command exactly when it holds `--`; that command has no `--` and no surrounding whitespace |
| CommandNames.AproposCommands | gdb_ctrl.py:285 | the commands are exactly those of the lines that hold `--`; a single line gives its command or nothing |
| CommandNames.AproposCommandsAppend | gdb_ctrl.py:285 | the commands of two runs of lines are those of the first followed by those of the second, so order and repetitions are kept |
| CommandNames.DropSetters | gdb_ctrl.py:288 | exactly the commands not starting with `set ` are kept; a single command is kept unless it is a setter |
| CommandNames.DropSettersAppend | gdb_ctrl.py:288 | dropping setters keeps the order and repetitions of the other commands |
| CommandNames.KeepProbed | gdb_ctrl.py:293 | exactly the commands whose alias probe succeeded, at their enumerate position, are kept; a single command is kept exactly when its probe succeeds |
| CommandNames.KeepProbedAppend | gdb_ctrl.py:293 | probing keeps order and repetitions, and the commands of a later part are probed at positions shifted by the length of the earlier part |
| CommandNames.Mangle | gdb_ctrl.py:297 | the name has the command's length, with every space and hyphen turned into `_` and every other character kept |
| CommandNames.MethodNames | gdb_ctrl.py:297-306 | each pair is `(PyName(c), c)` for a listed command `c` whose mangled name is an identifier, and every such command gets its pair; a single command gives its pair or nothing |
| CommandNames.MethodNamesAppend | gdb_ctrl.py:297-306 | naming keeps the order and repetitions of the commands |
| CommandNames.PyName | gdb_ctrl.py:297-306 | the Python name is the mangled stripped command, possibly with a `z` in front, and never a keyword or `shutdown`/`send` |
| CommandNames.Unclash | gdb_ctrl.py:306 | the result is neither a keyword nor reserved; a name that is neither passes unchanged, and any other gets only a `z` in front |
| CommandNames.IncludedMethods | gdb_ctrl.py:285-306 | at most one method per `apropos` line |
| CommandNames.ZPrefixedIsFree | gdb_ctrl.py:306 | a `z`-prefixed name is neither a keyword nor reserved |
| CommandNames.ZPrefixedIdentifier | gdb_ctrl.py:306 | putting `z` in front of an identifier gives an identifier |
| CommandNames.PyNameUsable | gdb_ctrl.py:301-306 | every generated name is an identifier that is neither a Python keyword nor `shutdown`/`send` |
| CommandNames.IncludedMethodsSpec | gdb_ctrl.py:285-306 | every method comes from an `apropos` line with `--`, is not a setter, was accepted by the alias probe at its position in the setter-free list, and has a usable derived name; every accepted command with an identifier name gets its method |
| CommandNames.NamesCollide | gdb_ctrl.py:297-306 | commands that differ only by space against hyphen get the same Python name |
| CommandNames.Bind | gdb_ctrl.py:308-315 | the names bound by the `setattr` loop are exactly the names of the generated pairs |
| CommandNames.BindLastWins | gdb_ctrl.py:308-315 | a name is bound to the command of the last pair that carries it |
| CommandNames.EarlierCollidingMethodReplaced | gdb_ctrl.py:308-315 | of two pairs sharing a name, the earlier one's command is not the one left bound |
| CommandNames.MangleAgrees | gdb_ctrl.py:297 | spaces and hyphens are interchangeable under mangling |
| Colors.Colored | gdb_ctrl.py:64-71 | the text is unchanged with colours off or colour 'none'; an unknown colour is a KeyError; otherwise the text sits between a 5-character colour sequence and a 4-character reset |
| Colors.ColoredRoundTrip | gdb_ctrl.py:62-69 | the SGR code (32, 31, 33 or 36) and the original text can be read back from a coloured text |
| Colors.TwoDigits | gdb_ctrl.py:69 | the `%s` of a two-digit colour code is its two digits |
| Colors.PaletteCodesTwoDigits | gdb_ctrl.py:62 | every palette code is written with two digits |
| Colors.ResultColor | gdb_ctrl.py:381-383 | error is red, done cyan, running/connected/exit yellow, and every other class 'none' |
| Colors.ResultColorNeverFails | gdb_ctrl.py:381-390 | colouring a result heading never raises KeyError |
| Colors.Upper | gdb_ctrl.py:386 | a lower-case letter becomes its upper-case letter (32 code points lower); nothing else changes |
| Colors.Lower | gdb_ctrl.py:386 | an upper-case letter becomes its lower-case letter (32 code points higher); nothing else changes |
| Colors.LowerAll | gdb_ctrl.py:386 | every character is lower-cased in place |
| Colors.Capitalize | gdb_ctrl.py:386 | the first character is upper-cased and the others lower-cased, length kept |
| Colors.ResultPrefix | gdb_ctrl.py:386-388 | the prefix is the capitalized class, followed by a colon exactly when the result carries values |
| Colors.ResultHeading | gdb_ctrl.py:374-390 | no result prints "None" on its own line, read back as cyan (code 36) when colours are on; a result record prints its prefix, read back in its class's colour when colours are on and the class has one and bare otherwise, with a newline only when it has no values; other records print nothing |
| Colors.ErrorHeading | gdb_ctrl.py:381-390 | an error result with values is headed "Error:", in red (code 31) when colours are on |
| Gdb.ParserNewline | gdb.py:90-93 | the parser's terminator is `\r\n` exactly when the text before the first prompt ends with `\r\n`, otherwise `\n` |
| Gdb.ParseOutput | gdb.py:140-143 | one record per `splitlines` piece of the captured text |
| Gdb.PromptLineEndsRecords | gdb.py:137-147 | when the captured text ends with a prompt line on a line of its own, the last record is the prompt and the earlier text is parsed as before |
| Gdb.MissingPromptWhenLastLineIsNotPrompt | gdb.py:145-146 | a captured text whose last line is not the prompt is the "Missing '(gdb)'" case |
| Gdb.Debugger.constructor | gdb.py:56-93 | `use_colors` overrides terminal detection; the counter starts at `token_start`; the parser is built for the detected terminator |
| Gdb.Debugger.Colored | gdb.py:294-301 | `_colored` applies the colour rule with the session's own colour flag |
| Gdb.Debugger.Send | gdb.py:126-159 | a newline-terminated command is a ValueError with nothing changed; otherwise the token is counted and written; a missing prompt is an error; otherwise the prompt is dropped, the trailing result split off and `last_out_of_band` set; a prompt left just before the final one is an AttributeError with `last_out_of_band` unchanged, and in console mode a prompt among the out-of-band records is an AttributeError after `last_out_of_band` is set |
| Glad.ChkSystemHealth | example/glad.c:36-43 | returns 0 exactly when one of the CORES flags is set, -1 otherwise |
| Glad.Incinerate | example/glad.c:30-34 | clears exactly the given flag in place and returns 0; the index must be inside the array |
| Glad.WarmNeurotoxins | example/glad.c:10-18 | the loop sleeps 6 times, ends at temperature 60 and returns 0 |
| Glad.ReleaseNeurotoxins | example/glad.c:20-28 | a non-null context returns NULL at once; otherwise the process exits with status 1 |
| Glad.MainRun | example/glad.c:56-68 | the argument loop ends out of bounds only on an accepted argument at or past CORES, and completes with no arguments |
| Glad.NoSystemError | example/glad.c:54-67 | core 0 is never cleared, so "System error." is unreachable whatever the filter bound |
| Glad.OutOfBoundsIff | example/glad.c:56-63 | with the filter as written, `main` writes outside `cores` exactly when some argument lies in 4..9 |
| Glad.AsWrittenFilterOverruns | example/glad.c:58-63 | the argument 4 passes the filter and is written one past the end of `cores` |
| Glad.CorrectedMainCompletes | example/glad.c:56-71 | with the filter bounded by CORES, `main` always reaches its final sleep |
| Glad.RunMain | example/glad.c:50-72 | `main` with the corrected filter ends as the argument-loop specification says, clearing flags in place |

## Left out

- Process control through pexpect: spawning, the initial `expect` for the first prompt, writing, reading and closing. Written text is recorded in the `written` field. The debugger's output is the `pending` field of `GdbCtrl.Debugger` and the `output` parameter of `Gdb.Debugger.Send`.
- The `send('set confirm off')` that both constructors issue, because it is an ordinary `send` on the new session.
- `shutdown`, because it uses signals, sleeps and timeouts.
- `recv`, because it is an asynchronous loop.
- The `gdb_mi` parser and `as_native`: the parser is an uninterpreted function, and a result's native form is its list of values. `gdb_mi` is not part of this model.
- The alias probe and the `help` lookup of `_include_gdb_commands`. The probe's answers are a parameter of `CommandNames.KeepProbed`, and `help` only builds docstrings. The `setattr` loop is `CommandNames.Bind`, a map from Python name to GDB command; the method objects themselves are not modelled.
- `MethodType`, `_print`, `pprint`, `_human_print_streams` and `_human_print_async`. These are printing and reflection.
- Terminal colour detection (`isatty`, `TERM`, curses). It is a parameter of the gdb.py constructor. `USE_COLORS` is a parameter of `Colors.Colored`.
- Gdb.Debugger.Send: the regular expression that pexpect matches after the token is not modelled. The captured text is a parameter, and `None` stands for EOF or timeout.
- CommandNames.IsIdentifier: only ASCII identifiers are recognised, because Python's Unicode identifier classes are not modelled.
- Colors.Capitalize: only ASCII letters change case, because Unicode case mapping is not modelled.
- The keyword list is that of Python 3.7 and later, which includes `async` and `await`.
- Glad: `pthread_create`, `sleep`, `printf`, `exit`, `party`, and the `strtol` conversion of the arguments. `main` receives the arguments already converted to integers.
- example/hello.c and setup.py are not part of this model.

## Findings

| source | as written | input that shows it | evidently intended | confidence | as-written member | corrected member |
|---|---|---|---|---|---|---|
| example/glad.c:58 | `main` accepts core numbers 1..9, but `cores` has CORES = 4 entries | argument `4`: `incinerate` writes `cores[4]` | accept only numbers below CORES, so that every write stays inside `cores` | not executed | Glad.AsWrittenFilterOverruns | Glad.RunMain |
