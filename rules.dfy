/**
 * The rule table (src/rules.rs): the static rule data, its compilation into
 * rules that know the capture-group index of the path and of the line, and
 * hand-written recognisers for the two anchored traceback patterns.
 *
 * The regex engine is not part of this model. Compiling a pattern is a
 * parameter, `compile`, which yields the pattern's capture names (group 0
 * first, unnamed) or `None` when the pattern is rejected.
 */
module Rules {
  import opened Wrappers

  /** The static definition of one rule. */
  datatype RuleData = RuleData(name: string, regexStr: string, pathGroupName: string, lineGroupName: Option<string>)

  /** A compiled pattern: its text and the names of its capture groups, in group order. */
  datatype Regex = Regex(pattern: string, captureNames: seq<Option<string>>)

  /** A rule ready for matching. */
  datatype CompiledRule = CompiledRule(name: string, regex: Regex, pathGroupIndex: nat, lineGroupIndex: Option<nat>)

  /** A path, optionally followed by `:line` (kept abstract: no recogniser is given for it). */
  const FilePathRegexOptLine: string :=
    @"(?P<path>(?:(?:~|\.|/|[a-zA-Z]:\\)[a-zA-Z0-9._\\/~-]+)|(?:\b[a-zA-Z0-9._~-]+[\\/][a-zA-Z0-9._\\/~-]+))(?::(?P<line>\d+))?\b"

  /** A Python traceback frame line, optionally with its line number. */
  const PythonTraceRegexOptLine: string := @"^\s*File ""(?P<path>.*?)""(?:, line (?P<line>\d+))?"

  /** An IPDB location line, optionally with its line number. */
  const IpdbTraceRegexOptLine: string := @"^>\s*(?P<path>[^(]+)(?:\((?P<line>\d+)\))?"

  const RulesData: seq<RuleData> := [
    RuleData("FilePath", FilePathRegexOptLine, "path", Some("line")),
    RuleData("PythonTraceback", PythonTraceRegexOptLine, "path", Some("line")),
    RuleData("IpdbTraceback", IpdbTraceRegexOptLine, "path", Some("line"))
  ]

  /** `capture_names().position(|n| n == Some(target))`: the first index whose name is `target`. */
  function Position(names: seq<Option<string>>, target: string): (r: Option<nat>)
    ensures r.Some? ==> r.value < |names| && names[r.value] == Some(target)
    ensures r.Some? ==> forall k :: 0 <= k < r.value ==> names[k] != Some(target)
    ensures r.None? <==> forall k :: 0 <= k < |names| ==> names[k] != Some(target)
    decreases |names|
  {
    if names == [] then None
    else if names[0] == Some(target) then Some(0)
    else match Position(names[1..], target)
      case None => None
      case Some(k) => Some(k + 1)
  }

  /**
   * Compiling one entry: its name, its regex, and the first index of each
   * named group. `None` stands for the two panics of the source: a pattern
   * the engine rejects, and a pattern without the path group.
   */
  function CompileRule(rd: RuleData, compile: string -> Option<Regex>): (r: Option<CompiledRule>)
    ensures r.Some? <==> compile(rd.regexStr).Some? && Some(rd.pathGroupName) in compile(rd.regexStr).value.captureNames
    ensures r.Some? ==>
      var names := r.value.regex.captureNames;
      && r.value.name == rd.name && Some(r.value.regex) == compile(rd.regexStr)
      && r.value.pathGroupIndex < |names| && names[r.value.pathGroupIndex] == Some(rd.pathGroupName)
      && (forall k :: 0 <= k < r.value.pathGroupIndex ==> names[k] != Some(rd.pathGroupName))
      && (r.value.lineGroupIndex.None? <==> rd.lineGroupName.None? || rd.lineGroupName !in names)
      && (r.value.lineGroupIndex.Some? ==>
            && r.value.lineGroupIndex.value < |names| && names[r.value.lineGroupIndex.value] == rd.lineGroupName
            && forall k :: 0 <= k < r.value.lineGroupIndex.value ==> names[k] != rd.lineGroupName)
  {
    match compile(rd.regexStr)
    case None => None
    case Some(re) =>
      match Position(re.captureNames, rd.pathGroupName)
      case None => None
      case Some(pathIndex) =>
        var lineIndex := if rd.lineGroupName.Some? then Position(re.captureNames, rd.lineGroupName.value) else None;
        Some(CompiledRule(rd.name, re, pathIndex, lineIndex))
  }

  /**
   * The compiled table: one rule per entry, in order, or `None` when some
   * entry fails to compile (the source panics on first use).
   */
  function CompileRules(data: seq<RuleData>, compile: string -> Option<Regex>): (r: Option<seq<CompiledRule>>)
    ensures r.Some? ==> |r.value| == |data| && forall i :: 0 <= i < |data| ==> CompileRule(data[i], compile) == Some(r.value[i])
    ensures r.None? ==> exists i :: 0 <= i < |data| && CompileRule(data[i], compile).None?
    decreases |data|
  {
    if data == [] then Some([])
    else
      match CompileRule(data[0], compile)
      case None => None
      case Some(rule) =>
        match CompileRules(data[1..], compile)
        case None => None
        case Some(rest) => Some([rule] + rest)
  }

  /** `get_compiled_rules`. */
  function CompiledRules(compile: string -> Option<Regex>): Option<seq<CompiledRule>>
  {
    CompileRules(RulesData, compile)
  }

  /** The capture names the engine reports for each of the three patterns: group 0, `path`, `line`. */
  const TracebackGroupNames: seq<Option<string>> := [None, Some("path"), Some("line")]

  /** An engine that compiles the three patterns with their capture groups in written order. */
  predicate CompilesRuleTable(compile: string -> Option<Regex>)
  {
    && compile(FilePathRegexOptLine) == Some(Regex(FilePathRegexOptLine, TracebackGroupNames))
    && compile(PythonTraceRegexOptLine) == Some(Regex(PythonTraceRegexOptLine, TracebackGroupNames))
    && compile(IpdbTraceRegexOptLine) == Some(Regex(IpdbTraceRegexOptLine, TracebackGroupNames))
  }

  /** An entry whose pattern reports the groups `path` and `line` compiles with path index 1 and line index 2. */
  lemma TracebackRuleCompiles(rd: RuleData, compile: string -> Option<Regex>)
    requires compile(rd.regexStr) == Some(Regex(rd.regexStr, TracebackGroupNames))
    requires rd.pathGroupName == "path" && rd.lineGroupName == Some("line")
    ensures CompileRule(rd, compile) == Some(CompiledRule(rd.name, Regex(rd.regexStr, TracebackGroupNames), 1, Some(2)))
  {
    var names := TracebackGroupNames;
    assert names[1..] == [Some("path"), Some("line")] && names[1..][1..] == [Some("line")];
    assert Position(names, "path") == Some(1);
    assert Position(names, "line") == Some(2);
  }

  /** The compiled table has three rules, named and ordered as the data, each with path 1 and line 2. */
  lemma CompiledTable(compile: string -> Option<Regex>)
    requires CompilesRuleTable(compile)
    ensures CompiledRules(compile) == Some([
      CompiledRule("FilePath", Regex(FilePathRegexOptLine, TracebackGroupNames), 1, Some(2)),
      CompiledRule("PythonTraceback", Regex(PythonTraceRegexOptLine, TracebackGroupNames), 1, Some(2)),
      CompiledRule("IpdbTraceback", Regex(IpdbTraceRegexOptLine, TracebackGroupNames), 1, Some(2))])
    ensures forall i :: 0 <= i < |CompiledRules(compile).value| ==> CompiledRules(compile).value[i].name != ""
  {
    var names := TracebackGroupNames;
    var r0 := CompiledRule("FilePath", Regex(FilePathRegexOptLine, names), 1, Some(2));
    var r1 := CompiledRule("PythonTraceback", Regex(PythonTraceRegexOptLine, names), 1, Some(2));
    var r2 := CompiledRule("IpdbTraceback", Regex(IpdbTraceRegexOptLine, names), 1, Some(2));
    TracebackRuleCompiles(RulesData[0], compile);
    TracebackRuleCompiles(RulesData[1], compile);
    TracebackRuleCompiles(RulesData[2], compile);
    var d2: seq<RuleData> := [RulesData[2]];
    var d1: seq<RuleData> := [RulesData[1]] + d2;
    assert d2[0] == RulesData[2] && d2[1..] == [];
    assert CompileRules(d2[1..], compile) == Some([]);
    assert [r2] + [] == [r2];
    assert CompileRules(d2, compile) == Some([r2]);
    assert d1[0] == RulesData[1] && d1[1..] == d2;
    assert [r1] + [r2] == [r1, r2];
    assert CompileRules(d1, compile) == Some([r1, r2]);
    assert RulesData == [RulesData[0]] + d1;
    assert [r0] + [r1, r2] == [r0, r1, r2];
  }

  // ---------------------------------------------------------------------
  // Recognisers for the two anchored traceback patterns

  /** One capture group as a span of the haystack. */
  datatype Group = Group(start: nat, end: nat)

  /** The groups of one match, group 0 (the whole match) first; an absent group is `None`. */
  type Captures = seq<Option<Group>>

  /** `\s`, restricted to ASCII whitespace. */
  predicate IsSpace(c: char)
  {
    c == ' ' || c == '\t' || c == '\n' || c == '\r' || c == '\U{B}' || c == '\U{C}'
  }

  /** `\d`, restricted to ASCII digits. */
  predicate IsDigit(c: char)
  {
    '0' <= c <= '9'
  }

  predicate NotOpenParen(c: char)
  {
    c != '('
  }

  /** `.` stops at a newline; the lazy path stops at the first quote. */
  predicate InQuotedPath(c: char)
  {
    c != '"' && c != '\n'
  }

  /** The end of the longest run of characters satisfying `p` from `i`: what a greedy repetition consumes. */
  function RunEnd(t: string, i: nat, p: char -> bool): (j: nat)
    requires i <= |t|
    ensures i <= j <= |t|
    ensures forall k :: i <= k < j ==> p(t[k])
    ensures j == |t| || !p(t[j])
    decreases |t| - i
  {
    if i < |t| && p(t[i]) then RunEnd(t, i + 1, p) else i
  }

  /** `RunEnd` is the end of any maximal run of `p` from `i`. */
  lemma {:induction false} RunEndIs(t: string, i: nat, j: nat, p: char -> bool)
    requires i <= j <= |t|
    requires forall k :: i <= k < j ==> p(t[k])
    requires j == |t| || !p(t[j])
    ensures RunEnd(t, i, p) == j
    decreases j - i
  {
    if i < j {
      RunEndIs(t, i + 1, j, p);
    }
  }

  /** `RunEnd` from `i` covers exactly `u` when `u` lies at `i` and its every character satisfies `p`. */
  lemma RunEndOver(t: string, i: nat, u: string, p: char -> bool)
    requires i + |u| <= |t| && t[i..i + |u|] == u
    requires forall c :: c in u ==> p(c)
    requires i + |u| == |t| || !p(t[i + |u|])
    ensures RunEnd(t, i, p) == i + |u|
  {
    forall k | i <= k < i + |u|
      ensures p(t[k])
    {
      assert t[k] == u[k - i];
    }
    RunEndIs(t, i, i + |u|, p);
  }

  /**
   * `^>\s*(?P<path>[^(]+)(?:\((?P<line>\d+)\))?` at the start of `t`. The
   * whitespace run is greedy, but gives back one character when nothing
   * else is left for the path; the line is taken only when a parenthesised
   * run of digits follows the path.
   */
  function IpdbCaptures(t: string): (r: Option<Captures>)
    ensures r.Some? <==> |t| >= 2 && t[0] == '>' && t[1] != '('
    ensures r.Some? ==>
      var caps := r.value;
      && |caps| == 3 && caps[0].Some? && caps[1].Some?
      && var whole, path := caps[0].value, caps[1].value;
      && whole.start == 0 && 1 <= path.start < path.end <= whole.end <= |t|
      && (forall k :: path.start <= k < path.end ==> t[k] != '(')
      && (path.end == |t| || t[path.end] == '(')
      && (forall k :: 1 <= k < path.start ==> IsSpace(t[k]))
      && (caps[2].None? ==> whole.end == path.end)
      && (caps[2].Some? ==>
            var line := caps[2].value;
            && path.end < line.start < line.end < |t|
            && t[path.end] == '(' && line.start == path.end + 1
            && (forall k :: line.start <= k < line.end ==> IsDigit(t[k]))
            && t[line.end] == ')' && whole.end == line.end + 1)
    ensures r.Some? ==> r.value[2] == LineInParens(t, r.value[1].value.end)
  {
    if |t| < 2 || t[0] != '>' || t[1] == '(' then None
    else
      var path := IpdbPath(t);
      var line := LineInParens(t, path.end);
      var end := if line.Some? then line.value.end + 1 else path.end;
      Some([Some(Group(0, end)), Some(path), line])
  }

  /**
   * `\s*(?P<path>[^(]+)` after the `>`: the longest non-`(` run after the
   * whitespace, or, when that run is empty, the last whitespace character.
   */
  function IpdbPath(t: string): (path: Group)
    requires |t| >= 2 && t[0] == '>' && t[1] != '('
    ensures 1 <= path.start < path.end <= |t|
    ensures forall k :: path.start <= k < path.end ==> t[k] != '('
    ensures path.end == |t| || t[path.end] == '('
    ensures forall k :: 1 <= k < path.start ==> IsSpace(t[k])
  {
    var a := RunEnd(t, 1, IsSpace);
    var b := RunEnd(t, a, NotOpenParen);
    assert forall k :: 1 <= k < a ==> IsSpace(t[k]);
    assert forall k :: a <= k < b ==> NotOpenParen(t[k]);
    if b > a then Group(a, b)
    else
      assert a > 1 && a == b && IsSpace(t[a - 1]);
      Group(a - 1, a)
  }

  /** `(?:\((?P<line>\d+)\))?` at `i`: the digits when `(digits)` follows, otherwise nothing. */
  function LineInParens(t: string, i: nat): (r: Option<Group>)
    requires i <= |t|
    ensures r.Some? ==>
      && i < r.value.start < r.value.end < |t| && t[r.value.end] == ')'
      && r.value.start == i + 1 && r.value.end == RunEnd(t, i + 1, IsDigit)
    ensures r.None? <==>
      !(i < |t| && t[i] == '(' && RunEnd(t, i + 1, IsDigit) > i + 1
        && RunEnd(t, i + 1, IsDigit) < |t| && t[RunEnd(t, i + 1, IsDigit)] == ')')
  {
    if i < |t| && t[i] == '(' then
      var c := RunEnd(t, i + 1, IsDigit);
      if c > i + 1 && c < |t| && t[c] == ')' then Some(Group(i + 1, c)) else None
    else None
  }

  /**
   * `^\s*File "(?P<path>.*?)"(?:, line (?P<line>\d+))?` at the start of `t`:
   * the path is everything after `File "` up to the next quote, and the
   * line is the run of digits after a following `, line `.
   */
  function PythonCaptures(t: string): (r: Option<Captures>)
    ensures r.Some? ==>
      var caps := r.value;
      && |caps| == 3 && caps[0].Some? && caps[1].Some?
      && var whole, path := caps[0].value, caps[1].value;
      && whole.start == 0 && |FileQuote| <= path.start <= path.end < whole.end <= |t|
      && Follows(t, path.start - |FileQuote|, FileQuote)
      && (forall k :: 0 <= k < path.start - |FileQuote| ==> IsSpace(t[k]))
      && (forall k :: path.start <= k < path.end ==> InQuotedPath(t[k]))
      && t[path.end] == '"'
      && (caps[2].None? ==> whole.end == path.end + 1)
      && (caps[2].Some? ==> caps[2].value.end == whole.end)
    ensures r.Some? ==> r.value[2] == LineAfterComma(t, r.value[1].value.end + 1)
    ensures r.None? <==> PathStart(t).None? || ClosingQuote(t, PathStart(t).value).None?
  {
    match PathStart(t)
    case None => None
    case Some(p) =>
      match ClosingQuote(t, p)
      case None => None
      case Some(q) =>
        var line := LineAfterComma(t, q + 1);
        var end := if line.Some? then line.value.end else q + 1;
        Some([Some(Group(0, end)), Some(Group(p, q)), line])
  }

  /** `u` occurs in `t` at offset `i`. */
  predicate Follows(t: string, i: nat, u: string)
  {
    i + |u| <= |t| && t[i..i + |u|] == u
  }

  const FileQuote: string := "File \""

  const CommaLine: string := ", line "

  /** `^\s*File "`: where the path starts, when the line opens that way. */
  function PathStart(t: string): (r: Option<nat>)
    ensures r.Some? ==> |FileQuote| <= r.value <= |t| && Follows(t, r.value - |FileQuote|, FileQuote)
    ensures r.Some? ==> forall k :: 0 <= k < r.value - |FileQuote| ==> IsSpace(t[k])
    ensures r.None? <==> !Follows(t, RunEnd(t, 0, IsSpace), FileQuote)
  {
    var a := RunEnd(t, 0, IsSpace);
    if Follows(t, a, FileQuote) then
      assert forall k :: 0 <= k < a ==> IsSpace(t[k]);
      Some(a + |FileQuote|)
    else None
  }

  /** From `p` to `k` there is no quote, and `k` is a newline or the end of `t`. */
  predicate UnquotedToLineEnd(t: string, p: nat, k: nat)
  {
    p <= k <= |t| && (k == |t| || t[k] == '\n') && forall j :: p <= j < k ==> t[j] != '"'
  }

  /** `(?P<path>.*?)"` from `p`: the first quote, unless a newline or the end comes first. */
  function ClosingQuote(t: string, p: nat): (r: Option<nat>)
    requires p <= |t|
    ensures r.Some? ==> p <= r.value < |t| && t[r.value] == '"'
    ensures r.Some? ==> forall k :: p <= k < r.value ==> InQuotedPath(t[k])
    ensures r.None? <==> exists k :: UnquotedToLineEnd(t, p, k)
  {
    var q := RunEnd(t, p, InQuotedPath);
    if q < |t| && t[q] == '"' then Some(q)
    else
      assert UnquotedToLineEnd(t, p, q);
      None
  }

  /** `(?:, line (?P<line>\d+))?` at `e`: the digits when `, line ` and at least one digit follow. */
  function LineAfterComma(t: string, e: nat): (r: Option<Group>)
    requires e <= |t|
    ensures r.Some? ==> Follows(t, e, CommaLine) && r.value.start == e + |CommaLine| < r.value.end <= |t|
    ensures r.Some? ==> forall k :: r.value.start <= k < r.value.end ==> IsDigit(t[k])
    ensures r.Some? ==> r.value.end == |t| || !IsDigit(t[r.value.end])
    ensures r.None? <==> !(Follows(t, e, CommaLine) && e + |CommaLine| < |t| && IsDigit(t[e + |CommaLine|]))
  {
    if Follows(t, e, CommaLine) then
      var d := RunEnd(t, e + |CommaLine|, IsDigit);
      if d > e + |CommaLine| then Some(Group(e + |CommaLine|, d)) else None
    else None
  }
}
