/** How the commands listed by GDB's `apropos -*` become Python method
    names: the pipeline of generator and filter expressions in
    `_include_gdb_commands`, the same in both controllers.

    Each `apropos` line reads `<command> -- <description>`. The command is
    the text before the first `--`, stripped; setters are dropped; commands
    the debugger does not accept are dropped (a probe, answered by the live
    debugger and so a parameter here); spaces and hyphens become
    underscores; only identifiers are kept; keywords and the controller's
    own method names get a `z` in front. */
module CommandNames {
  import opened Wrappers
  import Tokens

  /** Python's `str.isspace`, the characters `str.strip()` removes. */
  predicate IsSpace(c: char) {
    var k := c as int;
    (0x09 <= k <= 0x0D) || (0x1C <= k <= 0x20) || k == 0x85 || k == 0xA0 || k == 0x1680 ||
    (0x2000 <= k <= 0x200A) || k == 0x2028 || k == 0x2029 || k == 0x202F || k == 0x205F || k == 0x3000
  }

  /** Number of whitespace characters at the front of `s`. */
  function LeadingSpaces(s: string): (n: nat)
    ensures n <= |s|
    ensures forall k :: 0 <= k < n ==> IsSpace(s[k])
    ensures n < |s| ==> !IsSpace(s[n])
  {
    if s != [] && IsSpace(s[0]) then
      var n := 1 + LeadingSpaces(s[1..]);
      assert forall k :: 1 <= k < n ==> s[k] == s[1..][k - 1];
      n
    else 0
  }

  /** Number of whitespace characters at the end of `s`. */
  function TrailingSpaces(s: string): (n: nat)
    ensures n <= |s|
    ensures forall k :: |s| - n <= k < |s| ==> IsSpace(s[k])
    ensures n < |s| ==> !IsSpace(s[|s| - n - 1])
  {
    if s != [] && IsSpace(s[|s| - 1]) then
      var n := 1 + TrailingSpaces(s[..|s| - 1]);
      assert forall k :: |s| - n <= k < |s| - 1 ==> s[k] == s[..|s| - 1][k];
      n
    else 0
  }

  /** The text has no whitespace at either end. */
  predicate Stripped(t: string) {
    t == [] || (!IsSpace(t[0]) && !IsSpace(t[|t| - 1]))
  }

  /** Python's `s.strip()`: the result has no whitespace at its ends, and
      `s` is the result with only whitespace around it. */
  function Strip(s: string): (t: string)
    ensures Stripped(t)
    ensures var i := LeadingSpaces(s);
      && i + |t| <= |s| && s[i..i + |t|] == t
      && forall k :: i + |t| <= k < |s| ==> IsSpace(s[k])
  {
    var i := LeadingSpaces(s);
    var u := s[i..];
    var t := u[..|u| - TrailingSpaces(u)];
    assert s[i..i + |t|] == t;
    assert forall k :: i + |t| <= k < |s| ==> s[k] == u[k - i];
    t
  }

  lemma StripStripped(t: string)
    requires Stripped(t)
    ensures Strip(t) == t
  {
    assert LeadingSpaces(t) == 0;
    assert TrailingSpaces(t[0..]) == 0;
    assert t[0..] == t;
  }

  /** Stripping twice is stripping once: the second `strip()` of the name
      pipeline changes nothing. */
  lemma StripIdempotent(s: string)
    ensures Strip(Strip(s)) == Strip(s)
  {
    StripStripped(Strip(s));
  }

  /** `--` starts at position `i` of `l`. */
  predicate DashDashAt(l: string, i: int) {
    0 <= i && i + 1 < |l| && l[i] == '-' && l[i + 1] == '-'
  }

  /** Position of the first `--` of `l` at or after `from`. */
  function FindDashDash(l: string, from: nat): (r: Option<nat>)
    ensures r.None? <==> forall i :: from <= i ==> !DashDashAt(l, i)
    ensures r.Some? ==>
      && from <= r.value && DashDashAt(l, r.value)
      && forall i :: from <= i < r.value ==> !DashDashAt(l, i)
    decreases |l| - from
  {
    if from + 1 >= |l| then None
    else if l[from] == '-' && l[from + 1] == '-' then
      assert DashDashAt(l, from);
      Some(from)
    else FindDashDash(l, from + 1)
  }

  /** The command an `apropos` line names: `l.split('--', 1)[0].strip()`
      for a line that holds `--`; `None` for the other lines. */
  function CommandOf(l: string): (c: Option<string>)
    ensures c.None? <==> forall i :: !DashDashAt(l, i)
    ensures c.Some? ==> exists i ::
      && DashDashAt(l, i) && (forall j :: 0 <= j < i ==> !DashDashAt(l, j))
      && c.value == Strip(l[..i])
  {
    match FindDashDash(l, 0)
    case None => None
    case Some(i) => Some(Strip(l[..i]))
  }

  predicate HasDashDash(s: string) { exists i :: 0 <= i < |s| && DashDashAt(s, i) }

  /** The command taken from a line has no `--` in it and no whitespace
      around it, and it exists exactly for the lines that hold `--`. */
  lemma CommandOfShape(l: string)
    ensures CommandOf(l).Some? <==> HasDashDash(l)
    ensures CommandOf(l).Some? ==> Stripped(CommandOf(l).value) && !HasDashDash(CommandOf(l).value)
  {
    match FindDashDash(l, 0)
    case None =>
    case Some(i) =>
      var c := CommandOf(l).value;
      var j := LeadingSpaces(l[..i]);
      assert forall k :: 0 <= k < |c| ==> c[k] == l[j + k];
      assert forall k :: DashDashAt(c, k) ==> DashDashAt(l, j + k);
  }

  /** The commands of the `apropos` lines, in order. */
  function AproposCommands(lines: seq<string>): (cmds: seq<string>)
    ensures |cmds| <= |lines|
    ensures forall c :: c in cmds <==> exists l :: l in lines && CommandOf(l) == Some(c)
    ensures |lines| == 1 ==> cmds == (if CommandOf(lines[0]).Some? then [CommandOf(lines[0]).value] else [])
  {
    if lines == [] then []
    else
      var rest := AproposCommands(lines[1..]);
      assert forall l :: l in lines <==> l == lines[0] || l in lines[1..];
      match CommandOf(lines[0])
      case None => rest
      case Some(c) => [c] + rest
  }

  /** The commands of two runs of lines are those of the first run followed
      by those of the second: order and repetitions are kept. */
  lemma {:induction false} AproposCommandsAppend(a: seq<string>, b: seq<string>)
    ensures AproposCommands(a + b) == AproposCommands(a) + AproposCommands(b)
  {
    if a == [] {
      assert a + b == b;
    } else {
      assert (a + b)[1..] == a[1..] + b;
      AproposCommandsAppend(a[1..], b);
    }
  }

  predicate StartsWith(s: string, p: string) { |p| <= |s| && s[..|p|] == p }

  /** Drops the commands that start with `set `. */
  function DropSetters(cmds: seq<string>): (r: seq<string>)
    ensures |r| <= |cmds|
    ensures forall c :: c in r <==> c in cmds && !StartsWith(c, "set ")
    ensures |cmds| == 1 ==> r == (if StartsWith(cmds[0], "set ") then [] else cmds)
  {
    if cmds == [] then []
    else
      var rest := DropSetters(cmds[1..]);
      assert forall c :: c in cmds <==> c == cmds[0] || c in cmds[1..];
      if StartsWith(cmds[0], "set ") then rest else [cmds[0]] + rest
  }

  /** Dropping setters keeps the order and the repetitions of the rest. */
  lemma {:induction false} DropSettersAppend(a: seq<string>, b: seq<string>)
    ensures DropSetters(a + b) == DropSetters(a) + DropSetters(b)
  {
    if a == [] {
      assert a + b == b;
    } else {
      assert (a + b)[1..] == a[1..] + b;
      DropSettersAppend(a[1..], b);
    }
  }

  /** Keeps the commands the debugger accepts. The probe answers, for the
      position of a command in the list and the command, whether the
      debugger accepted an alias for it; `from` is the position of the
      first command of `cmds`. */
  function KeepProbed(cmds: seq<string>, probe: (nat, string) -> bool, from: nat): (r: seq<string>)
    ensures |r| <= |cmds|
    ensures forall c :: c in r <==> exists k :: 0 <= k < |cmds| && cmds[k] == c && probe(from + k, c)
    ensures |cmds| == 1 ==> r == (if probe(from, cmds[0]) then cmds else [])
  {
    if cmds == [] then []
    else
      var rest := KeepProbed(cmds[1..], probe, from + 1);
      assert forall k :: 1 <= k < |cmds| ==> cmds[k] == cmds[1..][k - 1];
      if probe(from, cmds[0]) then [cmds[0]] + rest else rest
  }

  /** Probing keeps the order and the repetitions of the accepted commands;
      the commands of the second part are probed at positions shifted by
      the length of the first. */
  lemma {:induction false} KeepProbedAppend(a: seq<string>, b: seq<string>, probe: (nat, string) -> bool, from: nat)
    ensures KeepProbed(a + b, probe, from) == KeepProbed(a, probe, from) + KeepProbed(b, probe, from + |a|)
    decreases |a|
  {
    if a == [] {
      assert a + b == b;
    } else {
      assert (a + b)[1..] == a[1..] + b;
      KeepProbedAppend(a[1..], b, probe, from + 1);
    }
  }

  /** `c.replace(' ', '_').replace('-', '_')`. */
  function Mangle(c: string): (m: string)
    ensures |m| == |c|
    ensures forall k :: 0 <= k < |c| ==> m[k] == (if c[k] == ' ' || c[k] == '-' then '_' else c[k])
  {
    if c == [] then []
    else [if c[0] == ' ' || c[0] == '-' then '_' else c[0]] + Mangle(c[1..])
  }

  predicate IsLetter(c: char) { 'a' <= c <= 'z' || 'A' <= c <= 'Z' }

  /** `str.isidentifier()` over ASCII: a letter or underscore, then
      letters, digits and underscores. */
  predicate IsIdentifier(s: string) {
    && s != []
    && (IsLetter(s[0]) || s[0] == '_')
    && forall k :: 1 <= k < |s| ==> IsLetter(s[k]) || Tokens.IsDigit(s[k]) || s[k] == '_'
  }

  /** `keyword.kwlist` of Python 3.7 and later. */
  const KEYWORDS: set<string> := {
    "False", "None", "True", "and", "as", "assert", "async", "await", "break",
    "class", "continue", "def", "del", "elif", "else", "except", "finally",
    "for", "from", "global", "if", "import", "in", "is", "lambda", "nonlocal",
    "not", "or", "pass", "raise", "return", "try", "while", "with", "yield"}

  /** Methods of the controller that a generated method must not replace. */
  const RESERVED: set<string> := {"shutdown", "send"}

  /** The Python name of a GDB command, once its mangled form is known to
      be an identifier: the mangled stripped command, `z`-prefixed when that
      is taken, and never a keyword or a reserved name. */
  function PyName(c: string): (n: string)
    ensures n == Mangle(Strip(c)) || n == "z" + Mangle(Strip(c))
    ensures n !in KEYWORDS && n !in RESERVED
  {
    Unclash(Mangle(Strip(c)))
  }

  /** A `z` in front of a keyword or a reserved name: the result is neither,
      and a name that is neither passes unchanged. */
  function Unclash(m: string): (n: string)
    ensures n !in KEYWORDS && n !in RESERVED
    ensures m !in KEYWORDS && m !in RESERVED ==> n == m
    ensures n == m || n == "z" + m
  {
    if m in KEYWORDS || m in RESERVED then
      ZPrefixedIsFree(m);
      "z" + m
    else m
  }

  /** The `(python-name, gdb-name)` pairs of the commands whose mangled
      name is an identifier, in order. */
  function MethodNames(cmds: seq<string>): (ms: seq<(string, string)>)
    ensures |ms| <= |cmds|
    ensures forall k :: 0 <= k < |ms| ==> ms[k].1 in cmds && ms[k].0 == PyName(ms[k].1)
    ensures forall c :: c in cmds && IsIdentifier(Mangle(Strip(c))) ==> (PyName(c), c) in ms
    ensures forall k :: 0 <= k < |ms| ==> IsIdentifier(Mangle(Strip(ms[k].1)))
    ensures |cmds| == 1 ==>
      ms == (if IsIdentifier(Mangle(Strip(cmds[0]))) then [(PyName(cmds[0]), cmds[0])] else [])
  {
    if cmds == [] then []
    else
      var rest := MethodNames(cmds[1..]);
      var c := cmds[0];
      if IsIdentifier(Mangle(Strip(c))) then [(PyName(c), c)] + rest else rest
  }

  /** Naming keeps the order and the repetitions of the commands. */
  lemma {:induction false} MethodNamesAppend(a: seq<string>, b: seq<string>)
    ensures MethodNames(a + b) == MethodNames(a) + MethodNames(b)
  {
    if a == [] {
      assert a + b == b;
    } else {
      assert (a + b)[1..] == a[1..] + b;
      MethodNamesAppend(a[1..], b);
    }
  }

  /** The methods `_include_gdb_commands` defines, from the console lines
      of `apropos -*` and the debugger's answers to the alias probes. */
  function IncludedMethods(lines: seq<string>, probe: (nat, string) -> bool): (ms: seq<(string, string)>)
    ensures |ms| <= |lines|
  {
    MethodNames(KeepProbed(DropSetters(AproposCommands(lines)), probe, 0))
  }

  /** The methods bound on the controller by `setattr`, applied to the pairs
      in order: a name set again later is bound to the later command. */
  function Bind(ms: seq<(string, string)>): (b: map<string, string>)
    ensures forall n :: n in b <==> exists k :: 0 <= k < |ms| && ms[k].0 == n
    decreases |ms|
  {
    if ms == [] then map[]
    else
      var init := ms[..|ms| - 1];
      assert forall k :: 0 <= k < |init| ==> init[k] == ms[k];
      Bind(init)[ms[|ms| - 1].0 := ms[|ms| - 1].1]
  }

  /** The method bound under a name is the command of the last pair with
      that name. */
  lemma {:induction false} BindLastWins(ms: seq<(string, string)>, j: nat)
    requires j < |ms|
    requires forall k :: j < k < |ms| ==> ms[k].0 != ms[j].0
    ensures ms[j].0 in Bind(ms) && Bind(ms)[ms[j].0] == ms[j].1
    decreases |ms|
  {
    if j < |ms| - 1 {
      var init := ms[..|ms| - 1];
      assert forall k :: 0 <= k < |init| ==> init[k] == ms[k];
      BindLastWins(init, j);
    }
  }

  /** Of two generated methods that share a Python name, the earlier one is
      replaced: its command is not the one bound, when the later pair is
      the last with that name and names another command. */
  lemma EarlierCollidingMethodReplaced(ms: seq<(string, string)>, i: nat, j: nat)
    requires i < j < |ms| && ms[i].0 == ms[j].0 && ms[i].1 != ms[j].1
    requires forall k :: j < k < |ms| ==> ms[k].0 != ms[j].0
    ensures Bind(ms)[ms[i].0] != ms[i].1
  {
    BindLastWins(ms, j);
  }

  /** No keyword and no reserved name starts with `z`, so a `z`-prefixed
      name is neither. */
  lemma ZPrefixedIsFree(m: string)
    ensures "z" + m !in KEYWORDS && "z" + m !in RESERVED
  {
    assert ("z" + m)[0] == 'z';
  }

  lemma ZPrefixedIdentifier(m: string)
    requires IsIdentifier(m)
    ensures IsIdentifier("z" + m)
  {
    var z := "z" + m;
    assert forall k :: 1 <= k < |z| ==> z[k] == m[k - 1];
  }

  /** Every generated name is a usable method name: an identifier that is
      neither a keyword nor one of the controller's own methods. */
  lemma {:induction false} PyNameUsable(c: string)
    requires IsIdentifier(Mangle(Strip(c)))
    ensures IsIdentifier(PyName(c)) && PyName(c) !in KEYWORDS && PyName(c) !in RESERVED
  {
    var m := Mangle(Strip(c));
    if m in KEYWORDS || m in RESERVED {
      ZPrefixedIsFree(m);
      ZPrefixedIdentifier(m);
    }
  }

  /** What the generated methods are: every pair names a command that
      `apropos` listed on a line holding `--`, that is no setter and that
      the probe accepted, under a usable Python name derived from it; and
      every such command whose mangled name is an identifier gets its
      method. */
  lemma IncludedMethodsSpec(lines: seq<string>, probe: (nat, string) -> bool)
    ensures forall p :: p in IncludedMethods(lines, probe) ==>
      var cmds := DropSetters(AproposCommands(lines));
      && (exists l :: l in lines && CommandOf(l) == Some(p.1))
      && !StartsWith(p.1, "set ")
      && (exists k :: 0 <= k < |cmds| && cmds[k] == p.1 && probe(k, p.1))
      && p.0 == PyName(p.1)
      && IsIdentifier(p.0) && p.0 !in KEYWORDS && p.0 !in RESERVED
    ensures forall l, k ::
      var cmds := DropSetters(AproposCommands(lines));
      && l in lines && CommandOf(l).Some? && !StartsWith(CommandOf(l).value, "set ")
      && 0 <= k < |cmds| && cmds[k] == CommandOf(l).value && probe(k, cmds[k])
      && IsIdentifier(Mangle(Strip(cmds[k])))
      ==> (PyName(cmds[k]), cmds[k]) in IncludedMethods(lines, probe)
  {
    var ms := IncludedMethods(lines, probe);
    forall p | p in ms
      ensures IsIdentifier(p.0) && p.0 !in KEYWORDS && p.0 !in RESERVED
    {
      var k :| 0 <= k < |ms| && ms[k] == p;
      PyNameUsable(p.1);
    }
  }

  /** Two commands can share a Python name (`info-line` and `info line`,
      say): commands that differ only where one has a space and the other a
      hyphen get the same name. Which of the two methods is left bound is
      `EarlierCollidingMethodReplaced`. */
  lemma NamesCollide(a: string, b: string)
    requires Stripped(a) && Stripped(b) && |a| == |b|
    requires forall k :: 0 <= k < |a| ==> a[k] == b[k] || (a[k] in " -" && b[k] in " -")
    ensures PyName(a) == PyName(b)
  {
    StripStripped(a);
    StripStripped(b);
    MangleAgrees(a, b);
  }

  lemma MangleAgrees(a: string, b: string)
    requires |a| == |b|
    requires forall k :: 0 <= k < |a| ==> a[k] == b[k] || (a[k] in " -" && b[k] in " -")
    ensures Mangle(a) == Mangle(b)
  {
  }
}
