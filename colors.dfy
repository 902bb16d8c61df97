/** The small formatting rules of the human-readable output: ANSI colour
    wrapping (`_colored`) and the heading printed for a result record
    (`_human_print_result`). */
module Colors {
  import opened Wrappers
  import opened Tokens
  import opened Lines
  import opened MiRecords

  /** The escape character that opens an ANSI control sequence. */
  const ESC: char := 27 as char

  /** SGR foreground codes of the colours the controller uses. */
  const PALETTE: map<string, nat> := map["green" := 32, "red" := 31, "yellow" := 33, "cyan" := 36]

  /** `_colored(s, color)`: `s` unchanged when colours are off or the colour
      is 'none'; otherwise `s` between the colour's SGR sequence and the
      reset sequence. A colour outside the palette is Python's KeyError. */
  function Colored(useColors: bool, s: string, color: string): (r: Result<string, string>)
    ensures !useColors || color == "none" ==> r == Ok(s)
    ensures r.Err? <==> useColors && color != "none" && color !in PALETTE
    ensures useColors && color in PALETTE ==>
      r.Ok? && |r.value| == |s| + 9 && r.value[5..|r.value| - 4] == s
  {
    if useColors then
      if color == "none" then Ok(s)
      else if color !in PALETTE then Err("KeyError: '" + color + "'")
      else
        var code := IntToString(PALETTE[color]);
        PaletteCodesTwoDigits(color);
        var t := [ESC] + "[" + code + "m" + s + [ESC] + "[0m";
        assert t[5..|t| - 4] == s;
        Ok(t)
    else Ok(s)
  }

  lemma TwoDigits(n: nat)
    requires 10 <= n < 100
    ensures NatToString(n) == [DigitChar(n / 10), DigitChar(n % 10)]
  {
  }

  lemma PaletteCodesTwoDigits(color: string)
    requires color in PALETTE
    ensures IntToString(PALETTE[color]) == NatToString(PALETTE[color])
    ensures |IntToString(PALETTE[color])| == 2
  {
    TwoDigits(PALETTE[color]);
  }

  /** Reads a coloured text back: the SGR code and the text inside, or
      `None` for text that is not wrapped in a two-digit colour sequence
      and a reset. */
  function Uncolor(t: string): Option<(nat, string)> {
    if |t| >= 9 && t[0] == ESC && t[1] == '[' && IsDigit(t[2]) && IsDigit(t[3]) && t[4] == 'm'
      && t[|t| - 4..] == [ESC] + "[0m"
    then Some((ParseNat(t[2..4]), t[5..|t| - 4]))
    else None
  }

  /** Colouring can be undone: the colour code and the original text are
      read back from the wrapped text. */
  lemma ColoredRoundTrip(s: string, color: string)
    requires color in PALETTE
    ensures Colored(true, s, color).Ok?
    ensures Uncolor(Colored(true, s, color).value) == Some((PALETTE[color], s))
  {
    var c := PALETTE[color];
    PaletteCodesTwoDigits(color);
    var code := IntToString(c);
    var t := Colored(true, s, color).value;
    assert t == [ESC] + "[" + code + "m" + s + [ESC] + "[0m";
    assert t[2..4] == code;
    ParseNatToString(c);
  }

  /** The colour of a result class: red for errors, cyan for done, yellow
      for running, connected and exit, and 'none' for any other class. */
  function ResultColor(resultClass: string): (c: string)
    ensures resultClass == "error" ==> c == "red"
    ensures resultClass == "done" ==> c == "cyan"
    ensures resultClass in {"running", "connected", "exit"} ==> c == "yellow"
    ensures c == "none" <==> resultClass !in {"error", "done", "running", "connected", "exit"}
    ensures c == "none" || c in PALETTE
  {
    if resultClass == "error" then "red"
    else if resultClass == "done" then "cyan"
    else if resultClass in {"running", "connected", "exit"} then "yellow"
    else "none"
  }

  /** The colour chosen for a result heading never raises KeyError. */
  lemma ResultColorNeverFails(useColors: bool, s: string, resultClass: string)
    ensures Colored(useColors, s, ResultColor(resultClass)).Ok?
  {
  }

  predicate IsLower(c: char) { 'a' <= c <= 'z' }

  predicate IsUpper(c: char) { 'A' <= c <= 'Z' }

  function Upper(c: char): (u: char)
    ensures !IsLower(u)
    ensures IsLower(c) ==> IsUpper(u) && u as int == c as int - 32
    ensures !IsLower(c) ==> u == c
  {
    if IsLower(c) then (c as int - 32) as char else c
  }

  function Lower(c: char): (l: char)
    ensures !IsUpper(l)
    ensures IsUpper(c) ==> IsLower(l) && l as int == c as int + 32
    ensures !IsUpper(c) ==> l == c
  {
    if IsUpper(c) then (c as int + 32) as char else c
  }

  /** `str.capitalize` over ASCII letters: the first character in upper
      case, the others in lower case. */
  function Capitalize(s: string): (r: string)
    ensures |r| == |s|
    ensures s != [] ==> r[0] == Upper(s[0])
    ensures forall k :: 1 <= k < |s| ==> r[k] == Lower(s[k])
  {
    if s == [] then [] else [Upper(s[0])] + LowerAll(s[1..])
  }

  function LowerAll(s: string): (r: string)
    ensures |r| == |s| && forall k :: 0 <= k < |s| ==> r[k] == Lower(s[k])
  {
    if s == [] then [] else [Lower(s[0])] + LowerAll(s[1..])
  }

  /** The text of a result heading: the capitalized class, with a colon
      when the result carries values. */
  function ResultPrefix(resultClass: string, hasResults: bool): (p: string)
    ensures |p| == |resultClass| + (if hasResults then 1 else 0)
    ensures p[..|resultClass|] == Capitalize(resultClass)
    ensures hasResults <==> p != [] && Last(p) == ':' && |p| > |resultClass|
  {
    var p := Capitalize(resultClass) + (if hasResults then ":" else "");
    assert p[..|resultClass|] == Capitalize(resultClass);
    p
  }

  /** `printed` shows `text` in `color`: wrapped in the colour's sequence
      when colours are on and the colour is a palette colour, and `text`
      itself otherwise. */
  predicate Shows(useColors: bool, color: string, text: string, printed: string) {
    if useColors && color in PALETTE then Uncolor(printed) == Some((PALETTE[color], text))
    else printed == text
  }

  /** What `_human_print_result` prints before the values of a result: for
      no result, "None" in cyan on a line of its own; for a result record,
      its prefix in the colour of its class, ended by a newline only when it
      carries no values; for any other record, nothing. */
  function ResultHeading(useColors: bool, result: Option<Record>): (h: Option<string>)
    ensures h.None? <==> result.Some? && !result.value.Sync?
    ensures result.None? ==>
      && |h.value| >= 1 && Last(h.value) == '\n'
      && Shows(useColors, "cyan", "None", h.value[..|h.value| - 1])
    ensures result.Some? && result.value.Sync? && result.value.results == [] ==>
      && |h.value| >= 1 && Last(h.value) == '\n'
      && Shows(useColors, ResultColor(result.value.resultClass),
               ResultPrefix(result.value.resultClass, false), h.value[..|h.value| - 1])
    ensures result.Some? && result.value.Sync? && result.value.results != [] ==>
      Shows(useColors, ResultColor(result.value.resultClass),
            ResultPrefix(result.value.resultClass, true), h.value)
  {
    match result
    case None =>
      var text := Colored(useColors, "None", "cyan").value;
      assert Shows(useColors, "cyan", "None", text) by {
        if useColors { ColoredRoundTrip("None", "cyan"); }
      }
      assert (text + "\n")[..|text|] == text;
      Some(text + "\n")
    case Some(rec) =>
      if !rec.Sync? then None
      else
        var hasResults := rec.results != [];
        var prefix := ResultPrefix(rec.resultClass, hasResults);
        var color := ResultColor(rec.resultClass);
        ResultColorNeverFails(useColors, prefix, rec.resultClass);
        var text := Colored(useColors, prefix, color).value;
        assert Shows(useColors, color, prefix, text) by {
          if useColors && color in PALETTE { ColoredRoundTrip(prefix, color); }
        }
        assert (text + "\n")[..|text|] == text;
        Some(if hasResults then text else text + "\n")
  }

  /** Without colours, the heading of an error result with values is
      "Error:"; with colours it is that text in red. */
  lemma ErrorHeading(useColors: bool, results: seq<(string, Value)>)
    requires results != []
    ensures var h := ResultHeading(useColors, Some(Sync(None, "error", results))).value;
      && (!useColors ==> h == "Error:")
      && (useColors ==> Uncolor(h) == Some((31, "Error:")))
  {
    var p := ResultPrefix("error", true);
    assert Capitalize("error") == "Error";
    assert p == "Error:";
    if useColors {
      ColoredRoundTrip(p, "red");
    }
  }
}
