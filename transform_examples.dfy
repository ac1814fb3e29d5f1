/**
 * The hyperlinking pass on concrete segments, with a regex engine that
 * knows the two anchored traceback patterns through their recognisers.
 */
module TransformExamples {
  import opened Wrappers
  import opened Seqs
  import opened Rules
  import opened Transform
  import RulesExamples

  /**
   * `captures_iter` for the two traceback patterns: both are anchored at
   * the start of the haystack, so each yields at most one match. Any other
   * pattern yields none here.
   */
  function TracebackEngine(r: Regex, t: string): (cs: seq<Captures>)
    ensures |cs| <= 1
    ensures r.pattern == PythonTraceRegexOptLine && PythonCaptures(t).Some? ==> cs == [PythonCaptures(t).value]
    ensures r.pattern == IpdbTraceRegexOptLine && IpdbCaptures(t).Some? ==> cs == [IpdbCaptures(t).value]
  {
    var caps :=
      if r.pattern == PythonTraceRegexOptLine then PythonCaptures(t)
      else if r.pattern == IpdbTraceRegexOptLine then IpdbCaptures(t)
      else None;
    if caps.Some? then [caps.value] else []
  }

  const PythonRule: CompiledRule := CompiledRule("PythonTraceback", Regex(PythonTraceRegexOptLine, TracebackGroupNames), 1, Some(2))
  const IpdbRule: CompiledRule := CompiledRule("IpdbTraceback", Regex(IpdbTraceRegexOptLine, TracebackGroupNames), 1, Some(2))

  /** `  File "/p.py", line 7`, written in its parts. */
  const Frame: string := "  " + "File \"" + "/p.py" + "\"" + ", line " + "7"

  lemma FrameStart()
    ensures PathStart(Frame) == Some(8)
  {
    var a, f, rest := "  ", "File \"", "/p.py" + "\"" + ", line " + "7";
    var t := Frame;
    assert t == a + f + rest;
    assert t[2..8] == f && t[0] == ' ' && t[1] == ' ' && t[2] == 'F';
    RunEndIs(t, 0, 2, IsSpace);
  }

  lemma FramePath()
    ensures ClosingQuote(Frame, 8) == Some(13) && Frame[8..13] == "/p.py"
  {
    var a, path, rest := "  " + "File \"", "/p.py", "\"" + ", line " + "7";
    var t := Frame;
    assert t == a + path + rest;
    assert t[8..13] == path && t[13] == '"';
    RunEndOver(t, 8, path, InQuotedPath);
  }

  lemma FrameLine()
    ensures LineAfterComma(Frame, 14) == Some(Group(21, 22)) && Frame[21..22] == "7" && |Frame| == 22
  {
    var a, comma, digits := "  " + "File \"" + "/p.py" + "\"", ", line ", "7";
    var t := Frame;
    assert t == a + comma + digits;
    assert t[14..21] == comma && t[21..22] == digits;
    RunEndOver(t, 21, digits, IsDigit);
  }

  /** The Python pattern on the frame: the whole line, the path and the line number. */
  lemma FrameCaptures()
    ensures PythonCaptures(Frame) == Some([Some(Group(0, 22)), Some(Group(8, 13)), Some(Group(21, 22))])
    ensures TracebackEngine(PythonRule.regex, Frame) == [[Some(Group(0, 22)), Some(Group(8, 13)), Some(Group(21, 22))]]
  {
    FrameStart();
    FramePath();
    FrameLine();
  }

  const FrameMatch: MatchInfo := MatchInfo(0, 22, Frame, "/p.py", 7, "PythonTraceback")

  /** The frame is collected as one match: the whole line, path `/p.py`, line 7. */
  lemma FrameCollected()
    ensures AllMatches([PythonRule], Frame, TracebackEngine) == [FrameMatch]
  {
    FrameCaptures();
    FrameLine();
    FramePath();
    var caps := [Some(Group(0, 22)), Some(Group(8, 13)), Some(Group(21, 22))];
    assert ScanDigits("7") == Some(7);
    assert ParseU32("7") == Some(7);
    assert Frame[0..22] == Frame;
    assert MatchOf(PythonRule, Frame, caps) == Some(FrameMatch);
    var cs := [caps];
    assert cs[..0] == [] && cs[..1] == cs;
    CollectedSnoc(PythonRule, Frame, cs);
    ConcatMapSingle(PythonRule, RuleMatches(Frame, TracebackEngine));
  }

  /** A working directory and a filesystem on which nothing exists and nothing canonicalises. */
  const EmptyEnv: Env := Env("/home", FileSystem((p: string) => false, (p: string) => None))

  /** The link the frame gets: `cursor://file//p.py:7`. */
  lemma FrameUrl()
    ensures LinkUrl(EmptyEnv, FrameMatch) == CursorScheme + "/p.py" + ":" + "7"
  {
    assert DecimalString(7) == [DigitChar(7)];
  }

  /** The frame, alone in its segment, comes out wrapped in one OSC 8 hyperlink to `cursor://file//p.py:7`. */
  lemma FrameLinked()
    ensures Render(SegmentChunks(EmptyEnv, [PythonRule], TracebackEngine, Frame))
         == FormatOsc8Hyperlink(CursorScheme + "/p.py" + ":" + "7", Frame)
  {
    FrameCollected();
    FrameLine();
    var m := FrameMatch;
    assert [m][1..] == [];
    assert SortByStart([m]) == [m];
    assert '/' in m.path by { assert m.path[0] == '/'; }
    assert Linkable(EmptyEnv, m);
    assert Accepted(EmptyEnv, [m], 0) == [m];
    FrameUrl();
    var url := CursorScheme + "/p.py" + ":" + "7";
    var rest := Emit(EmptyEnv, Frame, [], 22);
    assert Frame[22..] == "" && Frame[0..0] == "";
    assert rest == [Plain("")];
    assert Emit(EmptyEnv, Frame, [m], 0) == [Plain(""), Link(url, Frame)] + rest;
    ConcatMapPair(Plain(""), Link(url, Frame), rest, RenderChunk);
    ConcatMapSingle(Plain(""), RenderChunk);
  }

  /** An IPDB line without a line number is matched by its pattern but never collected. */
  lemma IpdbWithoutLineNotCollected()
    ensures AllMatches([IpdbRule], RulesExamples.IpdbWithoutLine, TracebackEngine) == []
  {
    var t := RulesExamples.IpdbWithoutLine;
    RulesExamples.IpdbWithoutLineExample();
    var caps := [Some(Group(0, 20)), Some(Group(2, 20)), None];
    assert MatchOf(IpdbRule, t, caps) == None;
    var cs := [caps];
    assert cs[..0] == [] && cs[..1] == cs;
    CollectedSnoc(IpdbRule, t, cs);
    ConcatMapSingle(IpdbRule, RuleMatches(t, TracebackEngine));
  }
}
